/**
 * Drafting tokens from n-gram caches (common/ngram-cache.cpp): the longest n-gram whose best continuation passes its
 * thresholds supplies the next token; first from the context cache, then from the dynamic, then from the static one.
 */
module Drafting {
  import opened NgramCache

  const NGRAM_STATIC := 2

  const NO_TOKEN: Token := -1

  datatype Thresholds = Thresholds(sampleSize: seq<nat>, percent: seq<nat>)

  const LAX := Thresholds([2, 2, 1, 1], [66, 50, 50, 50])
  const STRICT := Thresholds([4, 3, 2, 2], [75, 66, 66, 66])

  // ---------------------------------------------------------------- the best continuation of one n-gram

  ghost function Sum(part: Part): nat {
    if part == map[] then 0
    else
      TokenExists(part.Keys);
      var t :| t in part;
      part[t] + Sum(part - {t})
  }

  lemma {:induction false} SumWithout(part: Part, t: Token)
    requires t in part
    ensures Sum(part) == part[t] + Sum(part - {t})
    decreases |part|
  {
    TokenExists(part.Keys);
    var u :| u in part && Sum(part) == part[u] + Sum(part - {u});
    if u != t {
      SumWithout(part - {u}, t);
      SumWithout(part - {t}, u);
      assert part - {u} - {t} == part - {t} - {u};
    }
  }

  /** A token the static cache knows counts a hundred times its static count; any other counts once. */
  function Weight(validation: Part, t: Token): nat {
    if t in validation then 100 * validation[t] else 1
  }

  ghost predicate Beats(part: Part, validation: Part, m: Token, t: Token)
    requires m in part && t in part
  {
    part[t] * Weight(validation, t) <= part[m] * Weight(validation, m)
  }

  /** A token of greatest weighted count. */
  ghost predicate Winner(part: Part, validation: Part, m: Token) {
    m in part && forall t :: t in part ==> Beats(part, validation, m, t)
  }

  /** All counts positive and all tokens non-negative: what counting texts and merging the counts produces. */
  ghost predicate IsTextPart(part: Part) {
    forall t :: t in part ==> t >= 0 && part[t] > 0
  }

  ghost predicate IsTextCache(cache: Cache) {
    forall g :: g in cache ==> IsTextPart(cache[g])
  }

  lemma {:induction false} OccursInText(inp: seq<Token>, n: nat, g: Ngram, t: Token, upto: nat)
    requires IsText(inp) && upto <= |inp| && Occurrences(inp, n, g, t, upto) > 0
    ensures t >= 0
    decreases upto
  {
    if !Follows(inp, n, g, t, upto - 1) { OccursInText(inp, n, g, t, upto - 1); }
  }

  lemma {:induction false} CountedInText(inp: seq<Token>, lo: nat, hi: nat, g: Ngram, t: Token)
    requires IsText(inp) && Total(inp, lo, hi, g, t, |inp|) > 0
    ensures t >= 0
    decreases hi
  {
    if Occurrences(inp, hi - 1, g, t, |inp|) > 0 {
      OccursInText(inp, hi - 1, g, t, |inp|);
    } else {
      CountedInText(inp, lo, hi - 1, g, t);
    }
  }

  /** The counts of a text are such a cache. */
  lemma CountsOfText(cache: Cache, inp: seq<Token>, lo: nat, hi: nat)
    requires IsCounts(cache, inp, lo, hi) && IsText(inp)
    ensures IsTextCache(cache)
  {
    forall g, t | g in cache && t in cache[g] ensures t >= 0 && cache[g][t] > 0 {
      assert GoodPart(cache[g]);
      assert Lookup(cache, g, t) == cache[g][t];
      CountedInText(inp, lo, hi + 1, g, t);
    }
  }

  /** And so are merged ones. */
  lemma MergedText(merged: Cache, a: Cache, b: Cache)
    requires IsTextCache(a) && IsTextCache(b) && WellFormed(merged) && Summed(merged, a, b, {})
    ensures IsTextCache(merged)
  {
    forall g, t | g in merged && t in merged[g] ensures t >= 0 && merged[g][t] > 0 {
      assert GoodPart(merged[g]);
      assert Lookup(merged, g, t) == Lookup(a, g, t) + Lookup(b, g, t);
      if Lookup(a, g, t) > 0 { assert IsTextPart(a[g]); } else { assert IsTextPart(b[g]); }
    }
  }

  /** The best of the tokens walked so far, and their number of samples. */
  ghost predicate BestSoFar(part: Part, validation: Part, rest: set<Token>, token: Token, score: int) {
    if token == NO_TOKEN then score == 0 && forall t :: t in part && t !in rest ==> part[t] * Weight(validation, t) == 0
    else token in part && token !in rest && score == part[token] * Weight(validation, token) &&
         forall t :: t in part && t !in rest ==> Beats(part, validation, token, t)
  }

  lemma BestStep(part: Part, validation: Part, rest: set<Token>, token: Token, score: int, t: Token)
    requires IsTextPart(part) && BestSoFar(part, validation, rest, token, score) && t in rest && t in part
    ensures part[t] * Weight(validation, t) > score ==>
              BestSoFar(part, validation, rest - {t}, t, part[t] * Weight(validation, t))
    ensures part[t] * Weight(validation, t) <= score ==> BestSoFar(part, validation, rest - {t}, token, score)
  {
  }

  /** The scan over one part, in whatever order the map yields its tokens. */
  method Best(part: Part, validation: Part) returns (maxToken: Token, maxCount: nat, sum: nat)
    requires IsTextPart(part) && IsTextPart(validation)
    ensures sum == Sum(part)
    ensures part == map[] ==> maxToken == NO_TOKEN && maxCount == 0
    ensures part != map[] ==> Winner(part, validation, maxToken) && maxCount == part[maxToken]
  {
    hide Sum, BestSoFar;
    maxToken, maxCount, sum := NO_TOKEN, 0, 0;
    var maxWeight: nat := 0;
    NothingWalked(part, validation);
    var rest := part.Keys;
    while rest != {}
      invariant rest <= part.Keys && sum == Sum(part - rest)
      invariant BestSoFar(part, validation, rest, maxToken, maxCount * maxWeight)
      invariant maxToken != NO_TOKEN ==> maxToken in part && maxCount == part[maxToken]
      invariant maxToken == NO_TOKEN ==> maxCount == 0 && rest == part.Keys
      decreases |rest|
    {
      var token := SomeToken(rest);
      var count, weight := part[token], Weight(validation, token);
      BestStep(part, validation, rest, maxToken, maxCount * maxWeight, token);
      SumStep(part, rest, token);
      Positive(count, weight);
      if count * weight > maxCount * maxWeight {
        maxToken, maxCount, maxWeight := token, count, weight;
      }
      sum := sum + count;
      rest := rest - {token};
    }
    assert part - rest == part;
    AllWalked(part, validation, maxToken, maxCount * maxWeight);
  }

  lemma NothingWalked(part: Part, validation: Part)
    ensures Sum(part - part.Keys) == 0 && BestSoFar(part, validation, part.Keys, NO_TOKEN, 0)
  {
    assert part - part.Keys == map[];
  }

  lemma AllWalked(part: Part, validation: Part, token: Token, score: int)
    requires IsTextPart(part) && IsTextPart(validation) && BestSoFar(part, validation, {}, token, score)
    ensures part == map[] ==> token == NO_TOKEN
    ensures part != map[] ==> Winner(part, validation, token)
  {
    forall t | t in part ensures part[t] * Weight(validation, t) > 0 { Positive(part[t], Weight(validation, t)); }
    if part != map[] { TokenExists(part.Keys); }
  }

  lemma Positive(a: nat, b: nat)
    requires a > 0 && b > 0
    ensures a * b > 0
  {}

  lemma SumStep(part: Part, rest: set<Token>, t: Token)
    requires t in rest && rest <= part.Keys
    ensures Sum(part - (rest - {t})) == Sum(part - rest) + part[t]
  {
    var wider := part - (rest - {t});
    SumWithout(wider, t);
    assert wider - {t} == part - rest;
  }

  // ---------------------------------------------------------------- one cache

  ghost predicate Enough(part: Part, m: Token, size: nat, percent: nat)
    requires m in part
  {
    Sum(part) >= size && 100 * part[m] >= percent * Sum(part)
  }

  /** Token m is a best continuation of g, and passes the thresholds. */
  ghost predicate Passes(cache: Cache, g: Ngram, validation: Part, size: nat, percent: nat, m: Token) {
    g in cache && Winner(cache[g], validation, m) && Enough(cache[g], m, size, percent)
  }

  /** The n-gram is unknown, or a best continuation fails a threshold. */
  ghost predicate Fails(cache: Cache, g: Ngram, validation: Part, size: nat, percent: nat) {
    g in cache ==> cache[g] == map[] ||
                   exists m :: Winner(cache[g], validation, m) && !Enough(cache[g], m, size, percent)
  }

  /** What looking up one n-gram may give, depending on the order in which its part is walked. */
  ghost predicate Outcome(cache: Cache, g: Ngram, validation: Part, size: nat, percent: nat, token: Token) {
    if token == NO_TOKEN then Fails(cache, g, validation, size, percent)
    else Passes(cache, g, validation, size, percent, token)
  }

  ghost predicate Fits(ngrams: seq<Ngram>, limits: Thresholds) {
    |ngrams| <= |limits.sampleSize| && |ngrams| <= |limits.percent| &&
    (forall i :: 0 <= i < |limits.sampleSize| ==> limits.sampleSize[i] > 0)
  }

  ghost predicate FailFrom(cache: Cache, ngrams: seq<Ngram>, validation: Part, limits: Thresholds, from: nat)
    requires Fits(ngrams, limits)
  {
    forall j :: from <= j < |ngrams| ==> Fails(cache, ngrams[j], validation, limits.sampleSize[j], limits.percent[j])
  }

  /** The token passes for the i-th n-gram, and every longer one fails. */
  ghost predicate LongestPassing(cache: Cache, ngrams: seq<Ngram>, validation: Part, limits: Thresholds, i: nat,
                                 token: Token)
    requires Fits(ngrams, limits)
  {
    i < |ngrams| && Passes(cache, ngrams[i], validation, limits.sampleSize[i], limits.percent[i], token) &&
    FailFrom(cache, ngrams, validation, limits, i + 1)
  }

  /** What a cache may answer: a token of the longest passing n-gram, or nothing when every n-gram fails. */
  ghost predicate Answer(cache: Cache, ngrams: seq<Ngram>, validation: Part, limits: Thresholds, token: Token)
    requires Fits(ngrams, limits)
  {
    if token == NO_TOKEN then FailFrom(cache, ngrams, validation, limits, 0)
    else exists i :: LongestPassing(cache, ngrams, validation, limits, i, token)
  }

  method TryNgram(cache: Cache, g: Ngram, validation: Part, size: nat, percent: nat) returns (token: Token)
    requires IsTextCache(cache) && IsTextPart(validation) && size > 0
    ensures Outcome(cache, g, validation, size, percent, token)
  {
    if g !in cache { return NO_TOKEN; }
    var maxToken, maxCount, sum := Best(cache[g], validation);
    if sum < size { return NO_TOKEN; }
    if 100 * maxCount < percent * sum { return NO_TOKEN; }
    return maxToken;
  }

  method TryDraft(cache: Cache, ngrams: seq<Ngram>, validation: Part, limits: Thresholds) returns (drafted: Token)
    requires IsTextCache(cache) && IsTextPart(validation) && Fits(ngrams, limits)
    ensures Answer(cache, ngrams, validation, limits, drafted)
  {
    drafted := NO_TOKEN;
    var i := |ngrams| - 1;
    while i >= 0 && drafted == NO_TOKEN
      invariant -1 <= i < |ngrams|
      invariant drafted == NO_TOKEN ==> FailFrom(cache, ngrams, validation, limits, i + 1)
      invariant drafted != NO_TOKEN ==> LongestPassing(cache, ngrams, validation, limits, i + 1, drafted)
    {
      drafted := TryNgram(cache, ngrams[i], validation, limits.sampleSize[i], limits.percent[i]);
      i := i - 1;
    }
  }

  // ---------------------------------------------------------------- the combined sequence

  /** The prompt and what has been drafted behind it; the first entry of the draft is the last token of the prompt. */
  function History(inp: seq<Token>, draft: seq<Token>): seq<Token>
    requires |draft| >= 1
  {
    inp + draft[1..]
  }

  function GetToken(inp: seq<Token>, draft: seq<Token>, i: nat): (t: Token)
    requires |draft| >= 1 && i < |inp| + |draft| - 1
    ensures t == History(inp, draft)[i]
  {
    if i < |inp| then inp[i] else draft[1 + i - |inp|]
  }

  /** The last k tokens of the combined sequence, as a key. */
  ghost function LastNgram(h: seq<Token>, k: nat): Ngram
    requires k <= |h|
  {
    MakeNgram(h[|h| - k..])
  }

  /** The keys of the last ngramMin to end - 1 tokens, shortest first. */
  ghost predicate AreLastNgrams(ngrams: seq<Ngram>, h: seq<Token>, ngramMin: nat) {
    ngramMin + |ngrams| <= |h| + 1 &&
    forall i :: 0 <= i < |ngrams| ==> ngrams[i] == LastNgram(h, ngramMin + i)
  }

  method CopyNgram(inp: seq<Token>, draft: seq<Token>, size: nat) returns (ngram: Ngram)
    requires |draft| >= 1 && size <= NGRAM_MAX && size <= |inp| + |draft| - 1
    ensures ngram == LastNgram(History(inp, draft), size)
  {
    var start := |inp| - size + |draft| - 1;
    ngram := [-1, -1, -1, -1];
    var j := start;
    ghost var h := History(inp, draft);
    while j < start + size
      invariant start <= j <= start + size && |ngram| == NGRAM_MAX
      invariant forall i :: 0 <= i < NGRAM_MAX ==> ngram[i] == if i < j - start then h[start + i] else -1
    {
      ngram := ngram[j - start := GetToken(inp, draft, j)];
      j := j + 1;
    }
    assert h[|h| - size..] == h[start..];
    assert ngram == MakeNgram(h[start..]);
  }

  method CopyNgrams(inp: seq<Token>, draft: seq<Token>, ngramMin: nat, ngramMax: nat) returns (ngrams: seq<Ngram>)
    requires |draft| >= 1 && ngramMin <= ngramMax <= NGRAM_MAX && ngramMax <= |inp| + |draft| - 1
    ensures |ngrams| == ngramMax + 1 - ngramMin && AreLastNgrams(ngrams, History(inp, draft), ngramMin)
  {
    ngrams := [];
    var size := ngramMin;
    while size <= ngramMax
      invariant ngramMin <= size <= ngramMax + 1 && |ngrams| == size - ngramMin
      invariant AreLastNgrams(ngrams, History(inp, draft), ngramMin)
    {
      var ngram := CopyNgram(inp, draft, size);
      ngrams := ngrams + [ngram];
      size := size + 1;
    }
  }

  // ---------------------------------------------------------------- drafting

  datatype Caches = Caches(context: Cache, dynamic: Cache, corpus: Cache)

  function Validation(corpus: Cache, h: seq<Token>): Part
    requires |h| >= NGRAM_STATIC
  {
    var g := MakeNgram(h[|h| - NGRAM_STATIC..]);
    if g in corpus then corpus[g] else map[]
  }

  /**
   * What may be drafted behind h: the answer of the context cache; failing that, of the dynamic one; failing that, a
   * passing most frequent continuation in the static one.
   */
  ghost predicate NextDraft(c: Caches, h: seq<Token>, ngrams: seq<Ngram>, token: Token)
    requires |h| >= NGRAM_STATIC && Fits(ngrams, LAX) && Fits(ngrams, STRICT)
  {
    var validation := Validation(c.corpus, h);
    var bigram := LastNgram(h, NGRAM_STATIC);
    || (token != NO_TOKEN && Answer(c.context, ngrams, validation, LAX, token))
    || (Answer(c.context, ngrams, validation, LAX, NO_TOKEN) &&
        (|| (token != NO_TOKEN && Answer(c.dynamic, ngrams, validation, STRICT, token))
         || (Answer(c.dynamic, ngrams, validation, STRICT, NO_TOKEN) &&
             Outcome(c.corpus, bigram, map[], LAX.sampleSize[1], LAX.percent[1], token))))
  }

  /** The token may come next behind h, the n-grams being the last ngramMin to ngramMax tokens of h. */
  ghost predicate MayFollow(c: Caches, ngramMin: nat, ngramMax: nat, h: seq<Token>, token: Token) {
    exists ngrams :: |ngrams| == ngramMax + 1 - ngramMin <= NGRAM_MAX && AreLastNgrams(ngrams, h, ngramMin) &&
                     |h| >= NGRAM_STATIC && NextDraft(c, h, ngrams, token)
  }

  method DraftNext(c: Caches, inp: seq<Token>, draft: seq<Token>, ngramMin: nat, ngramMax: nat) returns (drafted: Token)
    requires IsTextCache(c.context) && IsTextCache(c.dynamic) && IsTextCache(c.corpus)
    requires |draft| >= 1 && 1 <= ngramMin <= ngramMax <= NGRAM_MAX
    requires ngramMax <= |inp| + |draft| - 1 && NGRAM_STATIC <= |inp|
    ensures MayFollow(c, ngramMin, ngramMax, History(inp, draft), drafted)
  {
    ghost var h := History(inp, draft);
    var bigram := CopyNgram(inp, draft, NGRAM_STATIC);
    var validation := map[];
    if bigram in c.corpus { validation := c.corpus[bigram]; }
    assert validation == Validation(c.corpus, h);
    var ngrams := CopyNgrams(inp, draft, ngramMin, ngramMax);
    drafted := TryDraft(c.context, ngrams, validation, LAX);
    if drafted == NO_TOKEN {
      drafted := TryDraft(c.dynamic, ngrams, validation, STRICT);
      if drafted == NO_TOKEN {
        drafted := TryNgram(c.corpus, bigram, map[], LAX.sampleSize[NGRAM_STATIC - 1], LAX.percent[NGRAM_STATIC - 1]);
      }
    }
    assert NextDraft(c, h, ngrams, drafted);
  }

  /** At most nDraft tokens are appended, each allowed behind those before it; fewer only if nothing may follow. */
  ghost predicate IsDraft(inp: seq<Token>, draft0: seq<Token>, nDraft: int, ngramMin: nat, ngramMax: nat, c: Caches,
                          draft: seq<Token>)
    requires |draft0| == 1
  {
    && draft0 <= draft && |draft| - 1 <= (if nDraft > 0 then nDraft else 0)
    && (|inp| < NGRAM_STATIC ==> draft == draft0)
    && (forall k :: 1 <= k < |draft| ==>
          draft[k] != NO_TOKEN && MayFollow(c, ngramMin, ngramMax, History(inp, draft[..k]), draft[k]))
    && (|inp| >= NGRAM_STATIC && |draft| - 1 < nDraft ==>
          MayFollow(c, ngramMin, ngramMax, History(inp, draft), NO_TOKEN))
  }

  /**
   * The drafting loop. With a prompt shorter than the longest n-gram the lookup would read in front of the prompt;
   * that is the only input it demands its callers to avoid.
   */
  method Draft(inp: seq<Token>, draft0: seq<Token>, nDraft: int, ngramMin: nat, ngramMax: nat, c: Caches)
    returns (draft: seq<Token>)
    requires |draft0| == 1 && 1 <= ngramMin <= ngramMax <= NGRAM_MAX
    requires IsTextCache(c.context) && IsTextCache(c.dynamic) && IsTextCache(c.corpus)
    requires |inp| < NGRAM_STATIC || nDraft <= 0 || ngramMax <= |inp|
    ensures IsDraft(inp, draft0, nDraft, ngramMin, ngramMax, c, draft)
  {
    draft := draft0;
    if |inp| < NGRAM_STATIC { return; }
    while |draft| - 1 < nDraft
      invariant draft0 <= draft && |draft| - 1 <= (if nDraft > 0 then nDraft else 0)
      invariant forall k :: 1 <= k < |draft| ==>
                  draft[k] != NO_TOKEN && MayFollow(c, ngramMin, ngramMax, History(inp, draft[..k]), draft[k])
    {
      var drafted := DraftNext(c, inp, draft, ngramMin, ngramMax);
      if drafted == NO_TOKEN { break; }
      ghost var longer := draft + [drafted];
      assert longer[..|draft|] == draft;
      forall k | 1 <= k < |longer|
        ensures longer[k] != NO_TOKEN && MayFollow(c, ngramMin, ngramMax, History(inp, longer[..k]), longer[k])
      {
        if k < |draft| { assert longer[..k] == draft[..k]; }
      }
      draft := draft + [drafted];
    }
  }

  // ---------------------------------------------------------------- what a drafted token is worth

  lemma {:induction false} SumOfTwo(part: Part, t: Token, u: Token)
    requires t in part && u in part && t != u
    ensures part[t] + part[u] <= Sum(part)
  {
    SumWithout(part, t);
    SumWithout(part - {t}, u);
  }

  /** Two thirds, less a little, of the samples: more than all other continuations together. */
  lemma StrictIsMajority(cache: Cache, ngrams: seq<Ngram>, validation: Part, i: nat, token: Token, other: Token)
    requires Fits(ngrams, STRICT) && LongestPassing(cache, ngrams, validation, STRICT, i, token)
    requires other in cache[ngrams[i]] && other != token
    ensures 2 * cache[ngrams[i]][token] > Sum(cache[ngrams[i]])
    ensures cache[ngrams[i]][other] < cache[ngrams[i]][token]
  {
    SumOfTwo(cache[ngrams[i]], token, other);
  }

  /** So the strict stage never has a choice between two continuations of the same n-gram. */
  lemma StrictIsUnique(cache: Cache, ngrams: seq<Ngram>, validation: Part, i: nat, a: Token, b: Token)
    requires Fits(ngrams, STRICT)
    requires LongestPassing(cache, ngrams, validation, STRICT, i, a)
    requires LongestPassing(cache, ngrams, validation, STRICT, i, b)
    ensures a == b
  {
    if a != b {
      SumOfTwo(cache[ngrams[i]], a, b);
    }
  }

  /**
   * Over a cache that counts a text, a strictly drafted token was seen behind the last tokens of h more often than any
   * other token.
   */
  lemma StrictIsMostSeen(cache: Cache, text: seq<Token>, lo: nat, hi: nat, h: seq<Token>, ngrams: seq<Ngram>,
                         ngramMin: nat, validation: Part, i: nat, token: Token, other: Token)
    requires IsCounts(cache, text, lo, hi) && IsText(text) && IsText(h) && hi <= NGRAM_MAX
    requires AreLastNgrams(ngrams, h, ngramMin) && Fits(ngrams, STRICT) && other != token
    requires LongestPassing(cache, ngrams, validation, STRICT, i, token) && lo <= ngramMin + i <= hi
    ensures Sightings(text, h[|h| - (ngramMin + i)..], other, |text|) <
            Sightings(text, h[|h| - (ngramMin + i)..], token, |text|)
  {
    var w, g := h[|h| - (ngramMin + i)..], ngrams[i];
    CountsAreSightings(cache, text, lo, hi, w, token);
    CountsAreSightings(cache, text, lo, hi, w, other);
    assert Lookup(cache, g, token) > 0 by { assert GoodPart(cache[g]); }
    if other in cache[g] { StrictIsMajority(cache, ngrams, validation, i, token, other); }
  }

  // ---------------------------------------------------------------- when the order of the map does not matter

  /** Two best continuations, of which at least one passes the thresholds. */
  ghost predicate Tied(part: Part, validation: Part, size: nat, percent: nat) {
    exists m, n :: m != n && Winner(part, validation, m) && Winner(part, validation, n) &&
                   Enough(part, m, size, percent)
  }

  /** A lookup has two outcomes, depending on the order of the map, if and only if the n-gram's part is tied. */
  lemma OrderDecides(cache: Cache, g: Ngram, validation: Part, size: nat, percent: nat)
    requires IsTextCache(cache)
    ensures (exists a, b :: a != b && Outcome(cache, g, validation, size, percent, a)
                                   && Outcome(cache, g, validation, size, percent, b))
            <==> g in cache && Tied(cache[g], validation, size, percent)
  {
    if g in cache && Tied(cache[g], validation, size, percent) {
      var part := cache[g];
      var m, n :| m != n && Winner(part, validation, m) && Winner(part, validation, n) &&
                  Enough(part, m, size, percent);
      assert IsTextPart(part);
      assert Outcome(cache, g, validation, size, percent, m);
      if Enough(part, n, size, percent) {
        assert Outcome(cache, g, validation, size, percent, n);
      } else {
        assert Outcome(cache, g, validation, size, percent, NO_TOKEN);
      }
    }
    if a, b :| a != b && Outcome(cache, g, validation, size, percent, a) &&
               Outcome(cache, g, validation, size, percent, b) {
      var m, other := if a == NO_TOKEN then b else a, if a == NO_TOKEN then a else b;
      assert Passes(cache, g, validation, size, percent, m) && Outcome(cache, g, validation, size, percent, other);
    }
  }

  /** Under the strict thresholds only one of the tied continuations passes, so that the other outcome is none. */
  lemma StrictTie(cache: Cache, ngrams: seq<Ngram>, validation: Part, i: nat, m: Token, n: Token)
    requires Fits(ngrams, STRICT) && i < |ngrams| && ngrams[i] in cache && m != n && n in cache[ngrams[i]]
    requires Passes(cache, ngrams[i], validation, STRICT.sampleSize[i], STRICT.percent[i], m)
    ensures !Enough(cache[ngrams[i]], n, STRICT.sampleSize[i], STRICT.percent[i])
  {
    SumOfTwo(cache[ngrams[i]], m, n);
  }

  /**
   * The i-th n-gram is reached and may pass a; b is another token that it may pass, or it may fail and b is what the
   * shorter ones then may give.
   */
  ghost predicate Parting(cache: Cache, ngrams: seq<Ngram>, validation: Part, limits: Thresholds, i: nat,
                          a: Token, b: Token)
    requires Fits(ngrams, limits)
  {
    a != b && LongestPassing(cache, ngrams, validation, limits, i, a) &&
    (LongestPassing(cache, ngrams, validation, limits, i, b) ||
     (FailFrom(cache, ngrams, validation, limits, i) && Answer(cache, ngrams[..i], validation, limits, b)))
  }

  /**
   * A whole stage has two answers, if and only if some n-gram is reached that may pass two tokens, or that may fail
   * where what remains need not be the token it passes.
   */
  lemma StageHangsOnOrder(cache: Cache, ngrams: seq<Ngram>, validation: Part, limits: Thresholds)
    requires IsTextCache(cache) && Fits(ngrams, limits)
    ensures (exists a, b :: a != b && Answer(cache, ngrams, validation, limits, a)
                                   && Answer(cache, ngrams, validation, limits, b))
            <==> exists i: nat, a, b :: Parting(cache, ngrams, validation, limits, i, a, b)
  {
    if a, b :| a != b && Answer(cache, ngrams, validation, limits, a) && Answer(cache, ngrams, validation, limits, b) {
      if a == NO_TOKEN {
        PartingFromNone(cache, ngrams, validation, limits, b);
      } else if b == NO_TOKEN {
        PartingFromNone(cache, ngrams, validation, limits, a);
      } else {
        PartingFromTokens(cache, ngrams, validation, limits, a, b);
      }
    }
    if i: nat, a, b :| Parting(cache, ngrams, validation, limits, i, a, b) {
      PassingAnswers(cache, ngrams, validation, limits, i, a);
      if LongestPassing(cache, ngrams, validation, limits, i, b) {
        PassingAnswers(cache, ngrams, validation, limits, i, b);
      } else {
        LongerAnswer(cache, ngrams, validation, limits, i, b);
      }
    }
  }

  lemma PassingAnswers(cache: Cache, ngrams: seq<Ngram>, validation: Part, limits: Thresholds, i: nat, m: Token)
    requires IsTextCache(cache) && Fits(ngrams, limits) && LongestPassing(cache, ngrams, validation, limits, i, m)
    ensures Answer(cache, ngrams, validation, limits, m)
  {
    assert IsTextPart(cache[ngrams[i]]);
  }

  lemma PartingFromNone(cache: Cache, ngrams: seq<Ngram>, validation: Part, limits: Thresholds, t: Token)
    requires Fits(ngrams, limits) && t != NO_TOKEN
    requires Answer(cache, ngrams, validation, limits, t) && Answer(cache, ngrams, validation, limits, NO_TOKEN)
    ensures exists i: nat :: Parting(cache, ngrams, validation, limits, i, t, NO_TOKEN)
  {
    hide Fails, Passes;
    var i: nat :| LongestPassing(cache, ngrams, validation, limits, i, t);
    assert Parting(cache, ngrams, validation, limits, i, t, NO_TOKEN);
  }

  lemma PartingFromTokens(cache: Cache, ngrams: seq<Ngram>, validation: Part, limits: Thresholds, a: Token, b: Token)
    requires Fits(ngrams, limits) && a != b && a != NO_TOKEN && b != NO_TOKEN
    requires Answer(cache, ngrams, validation, limits, a) && Answer(cache, ngrams, validation, limits, b)
    ensures exists i: nat, x, y :: Parting(cache, ngrams, validation, limits, i, x, y)
  {
    var i: nat :| LongestPassing(cache, ngrams, validation, limits, i, a);
    var k: nat :| LongestPassing(cache, ngrams, validation, limits, k, b);
    hide Fails, Passes;
    if i == k {
      assert Parting(cache, ngrams, validation, limits, i, a, b);
    } else if i > k {
      ShorterAnswer(cache, ngrams, validation, limits, i, k, b);
      assert Parting(cache, ngrams, validation, limits, i, a, b);
    } else {
      ShorterAnswer(cache, ngrams, validation, limits, k, i, a);
      assert Parting(cache, ngrams, validation, limits, k, b, a);
    }
  }

  /** An answer from below position i is one of the shorter n-grams. */
  lemma ShorterAnswer(cache: Cache, ngrams: seq<Ngram>, validation: Part, limits: Thresholds, i: nat, k: nat, b: Token)
    requires Fits(ngrams, limits) && k < i <= |ngrams| && b != NO_TOKEN
    requires LongestPassing(cache, ngrams, validation, limits, k, b)
    ensures Answer(cache, ngrams[..i], validation, limits, b)
  {
    assert LongestPassing(cache, ngrams[..i], validation, limits, k, b);
  }

  lemma LongerAnswer(cache: Cache, ngrams: seq<Ngram>, validation: Part, limits: Thresholds, i: nat, b: Token)
    requires Fits(ngrams, limits) && i < |ngrams| && FailFrom(cache, ngrams, validation, limits, i)
    requires Answer(cache, ngrams[..i], validation, limits, b)
    ensures Answer(cache, ngrams, validation, limits, b)
  {
    if b == NO_TOKEN {
      forall j | 0 <= j < |ngrams|
        ensures Fails(cache, ngrams[j], validation, limits.sampleSize[j], limits.percent[j])
      {
        if j < i { assert ngrams[..i][j] == ngrams[j]; }
      }
    } else {
      var k: nat :| LongestPassing(cache, ngrams[..i], validation, limits, k, b);
      forall j | k < j < |ngrams| ensures Fails(cache, ngrams[j], validation, limits.sampleSize[j], limits.percent[j]) {
        if j < i { assert ngrams[..i][j] == ngrams[j]; }
      }
      assert LongestPassing(cache, ngrams, validation, limits, k, b);
    }
  }

  /** Without a tie that matters a lookup has one outcome. */
  lemma OneOutcome(cache: Cache, g: Ngram, validation: Part, size: nat, percent: nat, a: Token, b: Token)
    requires IsTextCache(cache) && (g in cache ==> !Tied(cache[g], validation, size, percent))
    requires Outcome(cache, g, validation, size, percent, a) && Outcome(cache, g, validation, size, percent, b)
    ensures a == b
  {
    hide Outcome, Tied;
    OrderDecides(cache, g, validation, size, percent);
  }

  /** No n-gram's part is tied under its own thresholds. */
  ghost predicate Untied(cache: Cache, ngrams: seq<Ngram>, validation: Part, limits: Thresholds)
    requires Fits(ngrams, limits)
  {
    forall i :: 0 <= i < |ngrams| && ngrams[i] in cache ==>
      !Tied(cache[ngrams[i]], validation, limits.sampleSize[i], limits.percent[i])
  }

  /** Then the whole stage has one answer. */
  lemma OneAnswer(cache: Cache, ngrams: seq<Ngram>, validation: Part, limits: Thresholds, a: Token, b: Token)
    requires IsTextCache(cache) && Fits(ngrams, limits) && Untied(cache, ngrams, validation, limits)
    requires Answer(cache, ngrams, validation, limits, a) && Answer(cache, ngrams, validation, limits, b)
    ensures a == b
  {
    hide Passes, Fails, Tied;
    var i := if a == NO_TOKEN then -1 else LongestIndex(cache, ngrams, validation, limits, a);
    var k := if b == NO_TOKEN then -1 else LongestIndex(cache, ngrams, validation, limits, b);
    var at := if i < k then k else i;
    if at >= 0 {
      var t, u := if i == at then a else NO_TOKEN, if k == at then b else NO_TOKEN;
      assert ngrams[at] in ngrams;
      assert Outcome(cache, ngrams[at], validation, limits.sampleSize[at], limits.percent[at], t);
      assert Outcome(cache, ngrams[at], validation, limits.sampleSize[at], limits.percent[at], u);
      OneOutcome(cache, ngrams[at], validation, limits.sampleSize[at], limits.percent[at], t, u);
    }
  }

  ghost function LongestIndex(cache: Cache, ngrams: seq<Ngram>, validation: Part, limits: Thresholds,
                              t: Token): (i: nat)
    requires Fits(ngrams, limits) && t != NO_TOKEN && Answer(cache, ngrams, validation, limits, t)
    ensures LongestPassing(cache, ngrams, validation, limits, i, t)
  {
    var i: nat :| LongestPassing(cache, ngrams, validation, limits, i, t);
    i
  }

  /** Behind h no lookup of the three stages meets a tie that matters. */
  ghost predicate UntiedBehind(c: Caches, ngramMin: nat, ngramMax: nat, h: seq<Token>) {
    |h| >= NGRAM_STATIC ==>
      var validation, bigram := Validation(c.corpus, h), LastNgram(h, NGRAM_STATIC);
      && (bigram in c.corpus ==> !Tied(c.corpus[bigram], map[], LAX.sampleSize[1], LAX.percent[1]))
      && forall ngrams :: |ngrams| == ngramMax + 1 - ngramMin <= NGRAM_MAX && AreLastNgrams(ngrams, h, ngramMin) ==>
           Untied(c.context, ngrams, validation, LAX) && Untied(c.dynamic, ngrams, validation, STRICT)
  }

  lemma OneMayFollow(c: Caches, ngramMin: nat, ngramMax: nat, h: seq<Token>, a: Token, b: Token)
    requires IsTextCache(c.context) && IsTextCache(c.dynamic) && IsTextCache(c.corpus)
    requires UntiedBehind(c, ngramMin, ngramMax, h)
    requires MayFollow(c, ngramMin, ngramMax, h, a) && MayFollow(c, ngramMin, ngramMax, h, b)
    ensures a == b
  {
    hide Answer, Fails, Passes, Tied, Untied, IsTextCache;
    var ngrams :| |ngrams| == ngramMax + 1 - ngramMin <= NGRAM_MAX && AreLastNgrams(ngrams, h, ngramMin) &&
                  |h| >= NGRAM_STATIC && NextDraft(c, h, ngrams, a);
    var others :| |others| == ngramMax + 1 - ngramMin <= NGRAM_MAX && AreLastNgrams(others, h, ngramMin) &&
                  |h| >= NGRAM_STATIC && NextDraft(c, h, others, b);
    assert ngrams == others;
    OneNextDraft(c, h, ngrams, a, b);
  }

  lemma OneNextDraft(c: Caches, h: seq<Token>, ngrams: seq<Ngram>, a: Token, b: Token)
    requires IsTextCache(c.context) && IsTextCache(c.dynamic) && IsTextCache(c.corpus)
    requires |h| >= NGRAM_STATIC && Fits(ngrams, LAX) && Fits(ngrams, STRICT)
    requires Untied(c.context, ngrams, Validation(c.corpus, h), LAX)
    requires Untied(c.dynamic, ngrams, Validation(c.corpus, h), STRICT)
    requires var bigram := LastNgram(h, NGRAM_STATIC);
             bigram in c.corpus ==> !Tied(c.corpus[bigram], map[], LAX.sampleSize[1], LAX.percent[1])
    requires NextDraft(c, h, ngrams, a) && NextDraft(c, h, ngrams, b)
    ensures a == b
  {
    hide Answer, Outcome, Tied, Untied, IsTextCache;
    var validation := Validation(c.corpus, h);
    forall x, y | Answer(c.context, ngrams, validation, LAX, x) && Answer(c.context, ngrams, validation, LAX, y)
      ensures x == y
    {
      OneAnswer(c.context, ngrams, validation, LAX, x, y);
    }
    forall x, y | Answer(c.dynamic, ngrams, validation, STRICT, x) && Answer(c.dynamic, ngrams, validation, STRICT, y)
      ensures x == y
    {
      OneAnswer(c.dynamic, ngrams, validation, STRICT, x, y);
    }
    var bigram := LastNgram(h, NGRAM_STATIC);
    forall x, y | Outcome(c.corpus, bigram, map[], LAX.sampleSize[1], LAX.percent[1], x) &&
                  Outcome(c.corpus, bigram, map[], LAX.sampleSize[1], LAX.percent[1], y)
      ensures x == y
    {
      OneOutcome(c.corpus, bigram, map[], LAX.sampleSize[1], LAX.percent[1], x, y);
    }
  }

  /** No tie that matters is met on the way of a draft. */
  ghost predicate UntiedAlong(inp: seq<Token>, nDraft: int, ngramMin: nat, ngramMax: nat, c: Caches,
                              draft: seq<Token>) {
    forall k :: 1 <= k <= |draft| && k <= nDraft ==> UntiedBehind(c, ngramMin, ngramMax, History(inp, draft[..k]))
  }

  /** Then every draft from the same prompt and caches is this one, in whatever order the maps are walked. */
  lemma DraftDetermined(inp: seq<Token>, draft0: seq<Token>, nDraft: int, ngramMin: nat, ngramMax: nat, c: Caches,
                        a: seq<Token>, b: seq<Token>)
    requires IsTextCache(c.context) && IsTextCache(c.dynamic) && IsTextCache(c.corpus)
    requires |draft0| == 1 && UntiedAlong(inp, nDraft, ngramMin, ngramMax, c, a)
    requires IsDraft(inp, draft0, nDraft, ngramMin, ngramMax, c, a)
    requires IsDraft(inp, draft0, nDraft, ngramMin, ngramMax, c, b)
    ensures a == b
  {
    var least := if |a| <= |b| then |a| else |b|;
    DraftsAgree(inp, draft0, nDraft, ngramMin, ngramMax, c, a, b, least);
    hide MayFollow, IsTextCache, UntiedBehind;
    assert a[..|a|] == a && b[..|b|] == b;
    if least < |b| {
      OneMayFollow(c, ngramMin, ngramMax, History(inp, a[..least]), NO_TOKEN, b[least]);
    } else if least < |a| {
      OneMayFollow(c, ngramMin, ngramMax, History(inp, a[..least]), a[least], NO_TOKEN);
    }
  }

  lemma {:induction false} DraftsAgree(inp: seq<Token>, draft0: seq<Token>, nDraft: int, ngramMin: nat, ngramMax: nat,
                                       c: Caches, a: seq<Token>, b: seq<Token>, k: nat)
    requires IsTextCache(c.context) && IsTextCache(c.dynamic) && IsTextCache(c.corpus)
    requires |draft0| == 1 && 1 <= k <= |a| && k <= |b| && UntiedAlong(inp, nDraft, ngramMin, ngramMax, c, a)
    requires IsDraft(inp, draft0, nDraft, ngramMin, ngramMax, c, a)
    requires IsDraft(inp, draft0, nDraft, ngramMin, ngramMax, c, b)
    ensures a[..k] == b[..k]
    decreases k
  {
    hide MayFollow, IsTextCache, UntiedBehind;
    if k > 1 {
      DraftsAgree(inp, draft0, nDraft, ngramMin, ngramMax, c, a, b, k - 1);
      OneMayFollow(c, ngramMin, ngramMax, History(inp, a[..k - 1]), a[k - 1], b[k - 1]);
    }
  }

  /**
   * With a tie the order of the map can decide which token the strict stage drafts, and whether it drafts at all; in
   * the lax stage it can decide between two tokens of one n-gram.
   */
  lemma TieDecides(g1: Ngram, g2: Ngram, g3: Ngram)
    requires g1 != g2 && g1 != g3 && g2 != g3
    ensures var cache: Cache := map[g3 := map[7 := 1, 8 := 2], g2 := map[9 := 3]];
            var validation: Part := map[7 := 2, 8 := 1];
            Answer(cache, [g1, g2, g3], validation, STRICT, 8) && Answer(cache, [g1, g2, g3], validation, STRICT, 9)
    ensures var cache: Cache := map[g3 := map[7 := 1, 8 := 2]];
            var validation: Part := map[7 := 2, 8 := 1];
            Answer(cache, [g1, g2, g3], validation, STRICT, 8) &&
            Answer(cache, [g1, g2, g3], validation, STRICT, NO_TOKEN)
    ensures var cache: Cache := map[g2 := map[7 := 1, 8 := 1]];
            Answer(cache, [g1, g2], map[], LAX, 7) && Answer(cache, [g1, g2], map[], LAX, 8)
  {
    hide Sum, Winner, Enough;
    var tied: Part := map[7 := 1, 8 := 2];
    var single: Part := map[9 := 3];
    var validation: Part := map[7 := 2, 8 := 1];
    var ngrams := [g1, g2, g3];
    TiedPart();
    SinglePart();
    assert LongestPassing(map[g3 := tied, g2 := single], ngrams, validation, STRICT, 2, 8);
    assert LongestPassing(map[g3 := tied, g2 := single], ngrams, validation, STRICT, 1, 9);
    assert LongestPassing(map[g3 := tied], ngrams, validation, STRICT, 2, 8);
    EvenPart();
    assert LongestPassing(map[g2 := map[7 := 1, 8 := 1]], [g1, g2], map[], LAX, 1, 7);
    assert LongestPassing(map[g2 := map[7 := 1, 8 := 1]], [g1, g2], map[], LAX, 1, 8);
  }

  lemma EvenPart()
    ensures var even: Part := map[7 := 1, 8 := 1];
            && Winner(even, map[], 7) && Enough(even, 7, 2, 50)
            && Winner(even, map[], 8) && Enough(even, 8, 2, 50)
  {
    var even: Part := map[7 := 1, 8 := 1];
    SumWithout(even, 7);
    SumWithout(even - {7}, 8);
    assert even - {7} - {8} == map[];
  }

  lemma TiedPart()
    ensures var tied: Part := map[7 := 1, 8 := 2];
            var validation: Part := map[7 := 2, 8 := 1];
            && Winner(tied, validation, 7) && !Enough(tied, 7, 2, 66)
            && Winner(tied, validation, 8) && Enough(tied, 8, 2, 66)
  {
    var tied: Part := map[7 := 1, 8 := 2];
    SumWithout(tied, 7);
    SumWithout(tied - {7}, 8);
    assert tied - {7} - {8} == map[];
  }

  lemma SinglePart()
    ensures var single: Part := map[9 := 3];
            Winner(single, map[7 := 2, 8 := 1], 9) && Enough(single, 9, 3, 66)
  {
    var single: Part := map[9 := 3];
    SumWithout(single, 9);
    assert single - {9} == map[];
  }
}
