/**
 * What the three stages of drafting (common/ngram-cache.cpp) come to on their own: which of two continuations wins,
 * what the thresholds ask for, and which cache answers.
 */
module DraftStages {
  import opened NgramCache
  import opened Drafting

  // ---------------------------------------------------------------- which continuation wins

  /**
   * Two continuations unknown to the static cache compare by their counts, two known ones by the products of both
   * counts, and a known one counts a hundredfold against an unknown one.
   */
  lemma BetterContinuation(part: Part, validation: Part, m: Token, t: Token)
    requires m in part && t in part
    ensures m !in validation && t !in validation ==> (Beats(part, validation, m, t) <==> part[t] <= part[m])
    ensures m in validation && t !in validation ==>
              (Beats(part, validation, m, t) <==> part[t] <= 100 * validation[m] * part[m])
    ensures m !in validation && t in validation ==>
              (Beats(part, validation, m, t) <==> 100 * validation[t] * part[t] <= part[m])
    ensures m in validation && t in validation ==>
              (Beats(part, validation, m, t) <==> validation[t] * part[t] <= validation[m] * part[m])
  {
    Scaled(part[m], if m in validation then validation[m] else 0);
    Scaled(part[t], if t in validation then validation[t] else 0);
  }

  lemma Scaled(a: nat, b: nat)
    ensures a * (100 * b) == 100 * b * a == 100 * (b * a)
  {}

  lemma {:induction false} SumOfPair(part: Part, t: Token, u: Token)
    requires part.Keys == {t, u} && t != u
    ensures Sum(part) == part[t] + part[u]
  {
    SumWithout(part, t);
    SumWithout(part - {t}, u);
    assert part - {t} - {u} == map[];
  }

  lemma SumOfOne(part: Part, t: Token)
    requires part.Keys == {t}
    ensures Sum(part) == part[t]
  {
    SumWithout(part, t);
    assert part - {t} == map[];
  }

  /**
   * The static cache outvotes the majority: 8 was seen twice against three times 7, but the static cache knows it, so
   * it is the best continuation, and with two samples of five it does not pass. 7 is never drafted.
   */
  lemma KnownTokenWins(g: Ngram, token: Token)
    ensures Outcome(map[g := map[7 := 3, 8 := 2]], g, map[8 := 1], LAX.sampleSize[2], LAX.percent[2], token)
            <==> token == NO_TOKEN
  {
    var part: Part, validation: Part := map[7 := 3, 8 := 2], map[8 := 1];
    BetterContinuation(part, validation, 8, 7);
    BetterContinuation(part, validation, 7, 8);
    BetterContinuation(part, validation, 8, 8);
    assert Winner(part, validation, 8) && !Winner(part, validation, 7);
    SumOfPair(part, 7, 8);
  }

  // ---------------------------------------------------------------- the thresholds

  /**
   * For its shortest n-gram the lax stage wants two samples of which two in three agree, for the next one two samples,
   * for longer ones a single one, and half of them to agree. The strict stage wants four, three and two samples, and
   * three quarters or two in three of them to agree.
   */
  lemma ThresholdsAsk(part: Part, m: Token, i: nat)
    requires m in part && i < 4
    ensures Enough(part, m, LAX.sampleSize[i], LAX.percent[i]) <==>
            Sum(part) >= (if i < 2 then 2 else 1) &&
            (if i == 0 then 50 * part[m] >= 33 * Sum(part) else 2 * part[m] >= Sum(part))
    ensures Enough(part, m, STRICT.sampleSize[i], STRICT.percent[i]) <==>
            Sum(part) >= (if i == 0 then 4 else if i == 1 then 3 else 2) &&
            (if i == 0 then 4 * part[m] >= 3 * Sum(part) else 50 * part[m] >= 33 * Sum(part))
  {
    hide Sum;
  }

  // ---------------------------------------------------------------- which cache answers

  /**
   * The tokens behind which is drafted are those of the prompt and of the draft, the draft's first one being the last
   * of the prompt; the static counts looked at are those of the last two of them.
   */
  lemma LastTwoTokens(inp: seq<Token>, draft: seq<Token>, corpus: Cache, t: Token)
    requires |inp| >= 2 && |draft| >= 2 && draft[0] == inp[|inp| - 1]
    ensures var h := History(inp, draft);
            && (forall i :: 0 <= i < |inp| ==> h[i] == inp[i])
            && (forall k :: 0 <= k < |draft| ==> h[|inp| - 1 + k] == draft[k])
            && |h| == |inp| + |draft| - 1
            && Lookup(corpus, MakeNgram([draft[|draft| - 2], draft[|draft| - 1]]), t)
               == (if t in Validation(corpus, h) then Validation(corpus, h)[t] else 0)
  {
    var h := History(inp, draft);
    assert h[|h| - 2..] == [draft[|draft| - 2], draft[|draft| - 1]];
  }

  /** The last k tokens fail, respectively pass token, under the limits that the shortest length ngramMin gives them. */
  ghost predicate FailsAt(cache: Cache, h: seq<Token>, validation: Part, limits: Thresholds, ngramMin: nat, k: nat)
    requires |limits.sampleSize| == |limits.percent| == NGRAM_MAX && ngramMin <= k < ngramMin + NGRAM_MAX && k <= |h|
  {
    Fails(cache, MakeNgram(h[|h| - k..]), validation, limits.sampleSize[k - ngramMin], limits.percent[k - ngramMin])
  }

  ghost predicate PassesAt(cache: Cache, h: seq<Token>, validation: Part, limits: Thresholds, ngramMin: nat, k: nat,
                           token: Token)
    requires |limits.sampleSize| == |limits.percent| == NGRAM_MAX && ngramMin <= k < ngramMin + NGRAM_MAX && k <= |h|
  {
    Passes(cache, MakeNgram(h[|h| - k..]), validation, limits.sampleSize[k - ngramMin], limits.percent[k - ngramMin],
           token)
  }

  /** A stage may give the token: the longest of the last tokens of h that do not fail pass it. */
  ghost predicate Gives(cache: Cache, h: seq<Token>, validation: Part, limits: Thresholds, ngramMin: nat, ngramMax: nat,
                        token: Token)
    requires |limits.sampleSize| == |limits.percent| == NGRAM_MAX && 1 <= ngramMin <= ngramMax <= NGRAM_MAX
    requires ngramMax <= |h|
  {
    exists k :: ngramMin <= k <= ngramMax && PassesAt(cache, h, validation, limits, ngramMin, k, token) &&
                forall j :: k < j <= ngramMax ==> FailsAt(cache, h, validation, limits, ngramMin, j)
  }

  /** It may give none: the last tokens of every length may fail. */
  ghost predicate GivesNone(cache: Cache, h: seq<Token>, validation: Part, limits: Thresholds, ngramMin: nat,
                            ngramMax: nat)
    requires |limits.sampleSize| == |limits.percent| == NGRAM_MAX && 1 <= ngramMin <= ngramMax <= NGRAM_MAX
    requires ngramMax <= |h|
  {
    forall k :: ngramMin <= k <= ngramMax ==> FailsAt(cache, h, validation, limits, ngramMin, k)
  }

  lemma LastNgrams(h: seq<Token>, ngramMin: nat, ngramMax: nat) returns (ngrams: seq<Ngram>)
    requires 1 <= ngramMin <= ngramMax <= NGRAM_MAX && ngramMax <= |h|
    ensures |ngrams| == ngramMax + 1 - ngramMin && AreLastNgrams(ngrams, h, ngramMin)
    ensures forall others :: |others| == |ngrams| && AreLastNgrams(others, h, ngramMin) ==> others == ngrams
  {
    ngrams := seq(ngramMax + 1 - ngramMin, i requires 0 <= i < ngramMax + 1 - ngramMin => LastNgram(h, ngramMin + i));
  }

  lemma AtLength(cache: Cache, h: seq<Token>, ngrams: seq<Ngram>, validation: Part, limits: Thresholds,
                 ngramMin: nat, i: nat, token: Token)
    requires |limits.sampleSize| == |limits.percent| == NGRAM_MAX && i < |ngrams| <= NGRAM_MAX
    requires AreLastNgrams(ngrams, h, ngramMin)
    ensures FailsAt(cache, h, validation, limits, ngramMin, ngramMin + i)
            <==> Fails(cache, ngrams[i], validation, limits.sampleSize[i], limits.percent[i])
    ensures PassesAt(cache, h, validation, limits, ngramMin, ngramMin + i, token)
            <==> Passes(cache, ngrams[i], validation, limits.sampleSize[i], limits.percent[i], token)
  {
    hide Passes, Fails, MakeNgram;
    assert ngrams[i] == LastNgram(h, ngramMin + i);
  }

  lemma FailuresGiven(cache: Cache, h: seq<Token>, ngrams: seq<Ngram>, validation: Part, limits: Thresholds,
                      ngramMin: nat, from: nat)
    requires |limits.sampleSize| == |limits.percent| == NGRAM_MAX
    requires AreLastNgrams(ngrams, h, ngramMin) && Fits(ngrams, limits)
    ensures FailFrom(cache, ngrams, validation, limits, from) <==>
            forall j :: ngramMin + from <= j < ngramMin + |ngrams| ==>
                FailsAt(cache, h, validation, limits, ngramMin, j)
  {
    hide Passes, Fails, FailsAt, MakeNgram;
    forall i | 0 <= i < |ngrams|
      ensures FailsAt(cache, h, validation, limits, ngramMin, ngramMin + i)
              <==> Fails(cache, ngrams[i], validation, limits.sampleSize[i], limits.percent[i])
    {
      AtLength(cache, h, ngrams, validation, limits, ngramMin, i, NO_TOKEN);
    }
    if FailFrom(cache, ngrams, validation, limits, from) {
      forall j | ngramMin + from <= j < ngramMin + |ngrams|
        ensures FailsAt(cache, h, validation, limits, ngramMin, j)
      {
        AtLength(cache, h, ngrams, validation, limits, ngramMin, j - ngramMin, NO_TOKEN);
      }
    }
  }

  lemma AnswerIsGiven(cache: Cache, h: seq<Token>, ngrams: seq<Ngram>, validation: Part, limits: Thresholds,
                      ngramMin: nat, ngramMax: nat, token: Token)
    requires 1 <= ngramMin <= ngramMax <= NGRAM_MAX && ngramMax <= |h| && |ngrams| == ngramMax + 1 - ngramMin
    requires AreLastNgrams(ngrams, h, ngramMin) && Fits(ngrams, limits)
    requires |limits.sampleSize| == |limits.percent| == NGRAM_MAX
    ensures Answer(cache, ngrams, validation, limits, NO_TOKEN)
            <==> GivesNone(cache, h, validation, limits, ngramMin, ngramMax)
    ensures token != NO_TOKEN ==> (Answer(cache, ngrams, validation, limits, token)
                                   <==> Gives(cache, h, validation, limits, ngramMin, ngramMax, token))
  {
    hide FailFrom, FailsAt, PassesAt, Fails, Passes, MakeNgram;
    FailuresGiven(cache, h, ngrams, validation, limits, ngramMin, 0);
    if i: nat :| token != NO_TOKEN && LongestPassing(cache, ngrams, validation, limits, i, token) {
      AtLength(cache, h, ngrams, validation, limits, ngramMin, i, token);
      FailuresGiven(cache, h, ngrams, validation, limits, ngramMin, i + 1);
      var k := ngramMin + i;
      assert PassesAt(cache, h, validation, limits, ngramMin, k, token);
    }
    if token != NO_TOKEN && Gives(cache, h, validation, limits, ngramMin, ngramMax, token) {
      var k :| ngramMin <= k <= ngramMax && PassesAt(cache, h, validation, limits, ngramMin, k, token) &&
               forall j :: k < j <= ngramMax ==> FailsAt(cache, h, validation, limits, ngramMin, j);
      var i: nat := k - ngramMin;
      AtLength(cache, h, ngrams, validation, limits, ngramMin, i, token);
      FailuresGiven(cache, h, ngrams, validation, limits, ngramMin, i + 1);
      assert LongestPassing(cache, ngrams, validation, limits, i, token);
    }
  }

  /**
   * The context cache comes first: unless it may give nothing, what may follow is what it gives, under the lax limits;
   * the dynamic cache has no say.
   */
  lemma ContextComesFirst(c: Caches, h: seq<Token>, ngramMin: nat, ngramMax: nat, token: Token)
    requires |h| >= NGRAM_STATIC && 1 <= ngramMin <= ngramMax <= NGRAM_MAX && ngramMax <= |h|
    requires !GivesNone(c.context, h, Validation(c.corpus, h), LAX, ngramMin, ngramMax)
    ensures MayFollow(c, ngramMin, ngramMax, h, token) <==>
            token != NO_TOKEN && Gives(c.context, h, Validation(c.corpus, h), LAX, ngramMin, ngramMax, token)
  {
    hide Answer, Gives, GivesNone, Outcome, Validation, MakeNgram;
    var ngrams := LastNgrams(h, ngramMin, ngramMax);
    AnswerIsGiven(c.context, h, ngrams, Validation(c.corpus, h), LAX, ngramMin, ngramMax, token);
    assert MayFollow(c, ngramMin, ngramMax, h, token) <==> NextDraft(c, h, ngrams, token);
  }

  /**
   * The dynamic cache comes next: where the context cache can only give nothing, what may follow is what the dynamic
   * one gives, under the strict limits, unless it may give nothing either.
   */
  lemma DynamicComesNext(c: Caches, h: seq<Token>, ngramMin: nat, ngramMax: nat, token: Token)
    requires |h| >= NGRAM_STATIC && 1 <= ngramMin <= ngramMax <= NGRAM_MAX && ngramMax <= |h|
    requires GivesNone(c.context, h, Validation(c.corpus, h), LAX, ngramMin, ngramMax)
    requires !Gives(c.context, h, Validation(c.corpus, h), LAX, ngramMin, ngramMax, token)
    requires !GivesNone(c.dynamic, h, Validation(c.corpus, h), STRICT, ngramMin, ngramMax)
    ensures MayFollow(c, ngramMin, ngramMax, h, token) <==>
            token != NO_TOKEN && Gives(c.dynamic, h, Validation(c.corpus, h), STRICT, ngramMin, ngramMax, token)
  {
    hide Answer, Gives, GivesNone, Outcome, Validation, MakeNgram;
    var ngrams := LastNgrams(h, ngramMin, ngramMax);
    AnswerIsGiven(c.context, h, ngrams, Validation(c.corpus, h), LAX, ngramMin, ngramMax, token);
    AnswerIsGiven(c.dynamic, h, ngrams, Validation(c.corpus, h), STRICT, ngramMin, ngramMax, token);
    assert MayFollow(c, ngramMin, ngramMax, h, token) <==> NextDraft(c, h, ngrams, token);
  }

  /** A cache that knows the last tokens of no length gives none and nothing else. */
  lemma UnknownGivesNone(cache: Cache, h: seq<Token>, validation: Part, limits: Thresholds, ngramMin: nat,
                         ngramMax: nat, token: Token)
    requires |limits.sampleSize| == |limits.percent| == NGRAM_MAX && 1 <= ngramMin <= ngramMax <= NGRAM_MAX
    requires ngramMax <= |h| && forall k: nat :: ngramMin <= k <= ngramMax ==> LastNgram(h, k) !in cache
    ensures GivesNone(cache, h, validation, limits, ngramMin, ngramMax)
    ensures !Gives(cache, h, validation, limits, ngramMin, ngramMax, token)
  {
    hide Winner, Enough, MakeNgram;
    forall k | ngramMin <= k <= ngramMax
      ensures FailsAt(cache, h, validation, limits, ngramMin, k)
      ensures !PassesAt(cache, h, validation, limits, ngramMin, k, token)
    {
      assert LastNgram(h, k) !in cache;
    }
  }

  /**
   * The static cache comes last: where neither of the others knows the last tokens of any length, what may follow is a
   * most frequent continuation of the last two tokens, if they were seen twice and it makes up half of that.
   */
  lemma StaticComesLast(c: Caches, h: seq<Token>, ngramMin: nat, ngramMax: nat, token: Token)
    requires |h| >= NGRAM_STATIC && 1 <= ngramMin <= ngramMax <= NGRAM_MAX && ngramMax <= |h| && token != NO_TOKEN
    requires forall k: nat :: ngramMin <= k <= ngramMax ==> LastNgram(h, k) !in c.context
    requires forall k: nat :: ngramMin <= k <= ngramMax ==> LastNgram(h, k) !in c.dynamic
    ensures MayFollow(c, ngramMin, ngramMax, h, token) <==>
            var g := MakeNgram([h[|h| - 2], h[|h| - 1]]);
            && g in c.corpus && token in c.corpus[g]
            && (forall t :: t in c.corpus[g] ==> c.corpus[g][t] <= c.corpus[g][token])
            && Sum(c.corpus[g]) >= 2 && 2 * c.corpus[g][token] >= Sum(c.corpus[g])
  {
    hide MayFollow, Passes, Gives, GivesNone, Validation, MakeNgram, LastNgram, Sum;
    var g := MakeNgram([h[|h| - 2], h[|h| - 1]]);
    UnknownGivesNone(c.context, h, Validation(c.corpus, h), LAX, ngramMin, ngramMax, token);
    UnknownGivesNone(c.dynamic, h, Validation(c.corpus, h), STRICT, ngramMin, ngramMax, token);
    OnlyStaticLeft(c, h, ngramMin, ngramMax, token);
    MostFrequentPasses(c.corpus, g, token);
  }

  lemma OnlyStaticLeft(c: Caches, h: seq<Token>, ngramMin: nat, ngramMax: nat, token: Token)
    requires |h| >= NGRAM_STATIC && 1 <= ngramMin <= ngramMax <= NGRAM_MAX && ngramMax <= |h| && token != NO_TOKEN
    requires GivesNone(c.context, h, Validation(c.corpus, h), LAX, ngramMin, ngramMax)
    requires GivesNone(c.dynamic, h, Validation(c.corpus, h), STRICT, ngramMin, ngramMax)
    requires !Gives(c.context, h, Validation(c.corpus, h), LAX, ngramMin, ngramMax, token)
    requires !Gives(c.dynamic, h, Validation(c.corpus, h), STRICT, ngramMin, ngramMax, token)
    ensures MayFollow(c, ngramMin, ngramMax, h, token)
            <==> Passes(c.corpus, MakeNgram([h[|h| - 2], h[|h| - 1]]), map[], 2, 50, token)
  {
    hide Answer, Gives, GivesNone, Passes, Validation, MakeNgram;
    var ngrams := LastNgrams(h, ngramMin, ngramMax);
    AnswerIsGiven(c.context, h, ngrams, Validation(c.corpus, h), LAX, ngramMin, ngramMax, token);
    AnswerIsGiven(c.dynamic, h, ngrams, Validation(c.corpus, h), STRICT, ngramMin, ngramMax, token);
    assert MayFollow(c, ngramMin, ngramMax, h, token) <==> NextDraft(c, h, ngrams, token);
    assert h[|h| - 2..] == [h[|h| - 2], h[|h| - 1]];
  }

  lemma MostFrequentPasses(corpus: Cache, g: Ngram, token: Token)
    ensures Passes(corpus, g, map[], 2, 50, token) <==>
            && g in corpus && token in corpus[g] && (forall t :: t in corpus[g] ==> corpus[g][t] <= corpus[g][token])
            && Sum(corpus[g]) >= 2 && 2 * corpus[g][token] >= Sum(corpus[g])
  {
    hide Sum;
  }
}
