/** The n-gram cache (common/ngram-cache.cpp, ngram-cache.h): counts of the tokens seen behind each n-gram. */
module NgramCache {
  type Token = int

  const NGRAM_MAX := 4

  /** The tokens of an n-gram, padded with -1 to NGRAM_MAX. */
  type Ngram = seq<Token>

  type Part = map<Token, nat>
  type Cache = map<Ngram, Part>

  function MakeNgram(input: seq<Token>): (g: Ngram)
    ensures |g| == NGRAM_MAX
  {
    seq(NGRAM_MAX, i requires 0 <= i < NGRAM_MAX => if i < |input| then input[i] else -1)
  }

  /** Padding loses nothing of an n-gram of non-negative tokens. */
  lemma NgramInjective(a: seq<Token>, b: seq<Token>)
    requires |a| <= NGRAM_MAX && |b| <= NGRAM_MAX
    requires (forall i :: 0 <= i < |a| ==> a[i] >= 0) && (forall i :: 0 <= i < |b| ==> b[i] >= 0)
    ensures MakeNgram(a) == MakeNgram(b) <==> a == b
  {
    if |a| == |b| {
      if MakeNgram(a) == MakeNgram(b) {
        forall i | 0 <= i < |a| ensures a[i] == b[i] {
          assert MakeNgram(a)[i] == a[i] && MakeNgram(b)[i] == b[i];
        }
      }
    } else if |a| < |b| {
      assert MakeNgram(a)[|a|] == -1 && MakeNgram(b)[|a|] == b[|a|];
    } else {
      assert MakeNgram(b)[|b|] == -1 && MakeNgram(a)[|b|] == a[|b|];
    }
  }

  function Lookup(cache: Cache, g: Ngram, t: Token): nat {
    if g in cache && t in cache[g] then cache[g][t] else 0
  }

  ghost predicate GoodPart(part: Part) {
    (exists t :: t in part) && forall t :: t in part ==> part[t] > 0
  }

  /** Keys are whole n-grams; no empty part and no zero count is stored. */
  ghost predicate WellFormed(cache: Cache) {
    forall g :: g in cache ==> |g| == NGRAM_MAX && GoodPart(cache[g])
  }

  ghost predicate SameCounts(a: Cache, b: Cache) {
    forall g, t :: Lookup(a, g, t) == Lookup(b, g, t)
  }

  /** A well-formed cache is determined by its counts. */
  lemma CountsDetermine(a: Cache, b: Cache)
    requires WellFormed(a) && WellFormed(b) && SameCounts(a, b)
    ensures a == b
  {
    KeysIncluded(a, b);
    KeysIncluded(b, a);
    forall g | g in a ensures a[g] == b[g] { PartDetermined(a, b, g); }
  }

  lemma PartDetermined(a: Cache, b: Cache, g: Ngram)
    requires WellFormed(a) && WellFormed(b) && SameCounts(a, b) && g in a && g in b
    ensures a[g] == b[g]
  {
    forall t ensures t in a[g] <==> t in b[g] { assert Lookup(a, g, t) == Lookup(b, g, t); }
    forall t | t in a[g] ensures a[g][t] == b[g][t] { assert Lookup(a, g, t) == Lookup(b, g, t); }
  }

  lemma KeysIncluded(a: Cache, b: Cache)
    requires WellFormed(a) && SameCounts(a, b)
    ensures a.Keys <= b.Keys
  {
    forall g | g in a ensures g in b {
      assert GoodPart(a[g]);
      var t :| t in a[g];
      assert Lookup(a, g, t) == Lookup(b, g, t);
    }
  }

  // ---------------------------------------------------------------- counting

  /** Token t follows an n-gram of size n that reads g, at index i. */
  predicate Follows(inp: seq<Token>, n: nat, g: Ngram, t: Token, i: nat)
    requires i < |inp|
  {
    n <= i && inp[i] == t && MakeNgram(inp[i - n..i]) == g
  }

  /** How often t follows g, n-grams of size n, before index upto. */
  function Occurrences(inp: seq<Token>, n: nat, g: Ngram, t: Token, upto: nat): nat
    requires upto <= |inp|
  {
    if upto == 0 then 0
    else Occurrences(inp, n, g, t, upto - 1) + if Follows(inp, n, g, t, upto - 1) then 1 else 0
  }

  /** The same over all sizes from lo to hi - 1. */
  function Total(inp: seq<Token>, lo: nat, hi: nat, g: Ngram, t: Token, upto: nat): nat
    requires upto <= |inp|
    decreases hi
  {
    if hi <= lo then 0 else Total(inp, lo, hi - 1, g, t, upto) + Occurrences(inp, hi - 1, g, t, upto)
  }

  /** The full recount of a token sequence for n-gram sizes lo to hi. */
  ghost predicate IsCounts(cache: Cache, inp: seq<Token>, lo: nat, hi: nat) {
    WellFormed(cache) && forall g, t :: Lookup(cache, g, t) == Total(inp, lo, hi + 1, g, t, |inp|)
  }

  lemma {:induction false} NoneBeforeSize(inp: seq<Token>, n: nat, g: Ngram, t: Token, upto: nat)
    requires upto <= |inp| && upto <= n
    ensures Occurrences(inp, n, g, t, upto) == 0
    decreases upto
  {
    if upto > 0 { NoneBeforeSize(inp, n, g, t, upto - 1); }
  }

  lemma FollowsInPrefix(inp: seq<Token>, n: nat, g: Ngram, t: Token, m: nat, i: nat)
    requires i < m <= |inp|
    ensures Follows(inp[..m], n, g, t, i) == Follows(inp, n, g, t, i)
  {
    if n <= i { assert inp[..m][i - n..i] == inp[i - n..i]; }
  }

  lemma {:induction false} OccurrencesOfPrefix(inp: seq<Token>, n: nat, g: Ngram, t: Token, m: nat, upto: nat)
    requires upto <= m <= |inp|
    ensures Occurrences(inp[..m], n, g, t, upto) == Occurrences(inp, n, g, t, upto)
    decreases upto
  {
    if upto > 0 {
      OccurrencesOfPrefix(inp, n, g, t, m, upto - 1);
      FollowsInPrefix(inp, n, g, t, m, upto - 1);
    }
  }

  lemma {:induction false} TotalOfPrefix(inp: seq<Token>, lo: nat, hi: nat, g: Ngram, t: Token, m: nat)
    requires m <= |inp|
    ensures Total(inp[..m], lo, hi, g, t, m) == Total(inp, lo, hi, g, t, m)
    decreases hi
  {
    if hi > lo {
      TotalOfPrefix(inp, lo, hi - 1, g, t, m);
      OccurrencesOfPrefix(inp, hi - 1, g, t, m, m);
    }
  }

  /** Sizes below n counted to the end, size n up to `at`, larger sizes up to where the new tokens begin. */
  function Partly(inp: seq<Token>, lo: nat, hi: nat, g: Ngram, t: Token, m: nat, n: nat, at: nat): nat
    requires m <= |inp| && at <= |inp|
    decreases hi
  {
    if hi <= lo then 0
    else Partly(inp, lo, hi - 1, g, t, m, n, at)
         + Occurrences(inp, hi - 1, g, t, if hi - 1 < n then |inp| else if hi - 1 == n then at else m)
  }

  lemma {:induction false} PartlyStarts(inp: seq<Token>, lo: nat, hi: nat, g: Ngram, t: Token, m: nat)
    requires m <= |inp|
    ensures Partly(inp, lo, hi, g, t, m, lo, m) == Total(inp, lo, hi, g, t, m)
    decreases hi
  {
    if hi > lo { PartlyStarts(inp, lo, hi - 1, g, t, m); }
  }

  lemma {:induction false} PartlyEnds(inp: seq<Token>, lo: nat, hi: nat, g: Ngram, t: Token, m: nat, n: nat, at: nat)
    requires m <= |inp| && at <= |inp| && hi <= n
    ensures Partly(inp, lo, hi, g, t, m, n, at) == Total(inp, lo, hi, g, t, |inp|)
    decreases hi
  {
    if hi > lo { PartlyEnds(inp, lo, hi - 1, g, t, m, n, at); }
  }

  /** Size n done: the next one has been counted up to where the new tokens begin. */
  lemma {:induction false} PartlyNextSize(inp: seq<Token>, lo: nat, hi: nat, g: Ngram, t: Token, m: nat, n: nat)
    requires m <= |inp|
    ensures Partly(inp, lo, hi, g, t, m, n, |inp|) == Partly(inp, lo, hi, g, t, m, n + 1, m)
    decreases hi
  {
    if hi > lo { PartlyNextSize(inp, lo, hi - 1, g, t, m, n); }
  }

  /** Below its own size an n-gram has no occurrence, so counting may as well start there. */
  lemma {:induction false} PartlySkips(inp: seq<Token>, lo: nat, hi: nat, g: Ngram, t: Token, m: nat, n: nat, at: nat)
    requires m <= at <= |inp| && (at == m || at <= n)
    ensures Partly(inp, lo, hi, g, t, m, n, at) == Partly(inp, lo, hi, g, t, m, n, m)
    decreases hi
  {
    if hi > lo {
      PartlySkips(inp, lo, hi - 1, g, t, m, n, at);
      if at <= n {
        NoneBeforeSize(inp, n, g, t, at);
        NoneBeforeSize(inp, n, g, t, m);
      }
    }
  }

  lemma {:induction false} PartlyStep(inp: seq<Token>, lo: nat, hi: nat, g: Ngram, t: Token, m: nat, n: nat, at: nat)
    requires m <= |inp| && at < |inp|
    ensures Partly(inp, lo, hi, g, t, m, n, at + 1) ==
            Partly(inp, lo, hi, g, t, m, n, at) + if lo <= n < hi && Follows(inp, n, g, t, at) then 1 else 0
    decreases hi
  {
    if hi > lo {
      PartlyStep(inp, lo, hi - 1, g, t, m, n, at);
      OccurrencesStep(inp, hi - 1, g, t, at);
    }
  }

  lemma OccurrencesStep(inp: seq<Token>, n: nat, g: Ngram, t: Token, at: nat)
    requires at < |inp|
    ensures Occurrences(inp, n, g, t, at + 1) ==
            Occurrences(inp, n, g, t, at) + if Follows(inp, n, g, t, at) then 1 else 0
  {}

  /** n more occurrences of token t behind one n-gram. */
  function Added(cache: Cache, g: Ngram, t: Token, n: nat): Cache {
    var part: Part := if g in cache then cache[g] else map[];
    cache[g := part[t := n + if t in part then part[t] else 0]]
  }

  lemma AddedCounts(cache: Cache, g: Ngram, t: Token, n: nat)
    requires n > 0
    ensures WellFormed(cache) && |g| == NGRAM_MAX ==> WellFormed(Added(cache, g, t, n))
    ensures forall h, u ::
              Lookup(Added(cache, g, t, n), h, u) == Lookup(cache, h, u) + if h == g && u == t then n else 0
  {
    var after := Added(cache, g, t, n);
    assert t in after[g];
  }

  /** One more token behind one n-gram. */
  method Count(cache0: Cache, g: Ngram, t: Token) returns (cache: Cache)
    ensures cache == Added(cache0, g, t, 1)
  {
    if g !in cache0 {
      var part: Part := map[t := 1];
      cache := cache0[g := part];
    } else if t !in cache0[g] {
      cache := cache0[g := cache0[g][t := 1]];
    } else {
      cache := cache0[g := cache0[g][t := cache0[g][t] + 1]];
    }
  }

  /** The counts after size n has been worked up to `at`. */
  ghost predicate Counted(cache: Cache, inp: seq<Token>, lo: nat, end: nat, m: nat, n: nat, at: nat)
    requires m <= |inp| && at <= |inp|
  {
    forall g, t :: Lookup(cache, g, t) == Partly(inp, lo, end, g, t, m, n, at)
  }

  lemma CountedStarts(cache: Cache, inp: seq<Token>, lo: nat, end: nat, m: nat)
    requires m <= |inp| && forall g, t :: Lookup(cache, g, t) == Total(inp[..m], lo, end, g, t, m)
    ensures Counted(cache, inp, lo, end, m, lo, m)
  {
    forall g, t ensures Lookup(cache, g, t) == Partly(inp, lo, end, g, t, m, lo, m) {
      TotalOfPrefix(inp, lo, end, g, t, m);
      PartlyStarts(inp, lo, end, g, t, m);
    }
  }

  lemma CountedSkips(cache: Cache, inp: seq<Token>, lo: nat, end: nat, m: nat, n: nat, at: nat)
    requires m <= at <= |inp| && (at == m || at <= n) && Counted(cache, inp, lo, end, m, n, m)
    ensures Counted(cache, inp, lo, end, m, n, at)
  {
    forall g, t ensures Lookup(cache, g, t) == Partly(inp, lo, end, g, t, m, n, at) {
      PartlySkips(inp, lo, end, g, t, m, n, at);
    }
  }

  lemma CountedStep(cache: Cache, after: Cache, ngram: Ngram, inp: seq<Token>, lo: nat, end: nat, m: nat, n: nat,
                    at: nat)
    requires m <= |inp| && at < |inp| && lo <= n < end && n <= at && Counted(cache, inp, lo, end, m, n, at)
    requires ngram == MakeNgram(inp[at - n..at]) && after == Added(cache, ngram, inp[at], 1)
    ensures Counted(after, inp, lo, end, m, n, at + 1)
  {
    AddedCounts(cache, ngram, inp[at], 1);
    var next := at + 1;
    forall g, t ensures Lookup(after, g, t) == Partly(inp, lo, end, g, t, m, n, next) {
      PartlyStep(inp, lo, end, g, t, m, n, at);
    }
  }

  lemma CountedNextSize(cache: Cache, inp: seq<Token>, lo: nat, end: nat, m: nat, n: nat)
    requires m <= |inp| && Counted(cache, inp, lo, end, m, n, |inp|)
    ensures Counted(cache, inp, lo, end, m, n + 1, m)
  {
    var next := n + 1;
    forall g, t ensures Lookup(cache, g, t) == Partly(inp, lo, end, g, t, m, next, m) {
      PartlyNextSize(inp, lo, end, g, t, m, n);
    }
  }

  lemma CountedEnds(cache: Cache, inp: seq<Token>, lo: nat, end: nat, m: nat, n: nat)
    requires m <= |inp| && end <= n && Counted(cache, inp, lo, end, m, n, m)
    ensures forall g, t :: Lookup(cache, g, t) == Total(inp, lo, end, g, t, |inp|)
  {
    forall g, t ensures Lookup(cache, g, t) == Total(inp, lo, end, g, t, |inp|) {
      PartlyEnds(inp, lo, end, g, t, m, n, m);
    }
  }

  /** Adds the last nnew tokens of inp, for all n-gram sizes from ngramMin to ngramMax. */
  method Update(cache0: Cache, ngramMin: nat, ngramMax: nat, inp: seq<Token>, nnew: nat) returns (cache: Cache)
    requires nnew <= |inp| && IsCounts(cache0, inp[..|inp| - nnew], ngramMin, ngramMax)
    ensures IsCounts(cache, inp, ngramMin, ngramMax)
  {
    cache := cache0;
    ghost var m, end := |inp| - nnew, ngramMax + 1;
    CountedStarts(cache, inp, ngramMin, end, m);
    var ngramSize := ngramMin;
    while ngramSize <= ngramMax
      invariant ngramMin <= ngramSize && WellFormed(cache)
      invariant Counted(cache, inp, ngramMin, end, m, ngramSize, m)
    {
      cache := UpdateSize(cache, ngramMin, end, inp, nnew, ngramSize);
      ngramSize := ngramSize + 1;
    }
    CountedEnds(cache, inp, ngramMin, end, m, ngramSize);
  }

  /** The new tokens behind n-grams of one size. */
  method UpdateSize(cache0: Cache, ghost lo: nat, ghost end: nat, inp: seq<Token>, nnew: nat, n: nat)
    returns (cache: Cache)
    requires nnew <= |inp| && lo <= n < end && WellFormed(cache0)
    requires Counted(cache0, inp, lo, end, |inp| - nnew, n, |inp| - nnew)
    ensures WellFormed(cache)
    ensures Counted(cache, inp, lo, end, |inp| - nnew, n + 1, |inp| - nnew)
  {
    cache := cache0;
    ghost var m := |inp| - nnew;
    var i := if |inp| - nnew > n then |inp| - nnew else n;
    ghost var at := if i <= |inp| then i else |inp|;
    CountedSkips(cache, inp, lo, end, m, n, at);
    while i < |inp|
      invariant n <= i && WellFormed(cache) && at == if i <= |inp| then i else |inp|
      invariant Counted(cache, inp, lo, end, m, n, at)
    {
      var ngram := MakeNgram(inp[i - n..i]);
      ghost var before := cache;
      cache := Count(cache, ngram, inp[i]);
      AddedCounts(before, ngram, inp[i], 1);
      CountedStep(before, cache, ngram, inp, lo, end, m, n, i);
      i := i + 1;
      at := i;
    }
    CountedNextSize(cache, inp, lo, end, m, n);
  }

  // ---------------------------------------------------------------- what is counted

  ghost predicate IsText(s: seq<Token>) {
    forall i :: 0 <= i < |s| ==> s[i] >= 0
  }

  /** The word w t ends at index i. */
  predicate Sighted(inp: seq<Token>, w: seq<Token>, t: Token, i: nat)
    requires i < |inp|
  {
    |w| <= i && inp[i - |w|..i] == w && inp[i] == t
  }

  /** How often w t ends before index upto. */
  function Sightings(inp: seq<Token>, w: seq<Token>, t: Token, upto: nat): nat
    requires upto <= |inp|
  {
    if upto == 0 then 0
    else Sightings(inp, w, t, upto - 1) + if Sighted(inp, w, t, upto - 1) then 1 else 0
  }

  lemma FollowsWord(inp: seq<Token>, n: nat, w: seq<Token>, t: Token, i: nat)
    requires IsText(inp) && IsText(w) && |w| <= NGRAM_MAX && n <= NGRAM_MAX && i < |inp|
    ensures Follows(inp, n, MakeNgram(w), t, i) <==> n == |w| && Sighted(inp, w, t, i)
  {
    if n <= i { NgramInjective(inp[i - n..i], w); }
  }

  lemma {:induction false} OccurrencesOfWord(inp: seq<Token>, n: nat, w: seq<Token>, t: Token, upto: nat)
    requires IsText(inp) && IsText(w) && |w| <= NGRAM_MAX && n <= NGRAM_MAX && upto <= |inp|
    ensures Occurrences(inp, n, MakeNgram(w), t, upto) == if n == |w| then Sightings(inp, w, t, upto) else 0
    decreases upto
  {
    if upto > 0 {
      OccurrencesOfWord(inp, n, w, t, upto - 1);
      FollowsWord(inp, n, w, t, upto - 1);
    }
  }

  lemma {:induction false} TotalOfWord(inp: seq<Token>, lo: nat, hi: nat, w: seq<Token>, t: Token)
    requires IsText(inp) && IsText(w) && |w| <= NGRAM_MAX && hi <= NGRAM_MAX + 1
    ensures Total(inp, lo, hi, MakeNgram(w), t, |inp|) == if lo <= |w| < hi then Sightings(inp, w, t, |inp|) else 0
    decreases hi
  {
    if hi > lo {
      TotalOfWord(inp, lo, hi - 1, w, t);
      OccurrencesOfWord(inp, hi - 1, w, t, |inp|);
    }
  }

  /** The counts of a cache kept up to date are the numbers of times t was seen right behind w. */
  lemma CountsAreSightings(cache: Cache, inp: seq<Token>, lo: nat, hi: nat, w: seq<Token>, t: Token)
    requires IsCounts(cache, inp, lo, hi) && IsText(inp) && IsText(w) && |w| <= NGRAM_MAX && hi <= NGRAM_MAX
    ensures Lookup(cache, MakeNgram(w), t) == if lo <= |w| <= hi then Sightings(inp, w, t, |inp|) else 0
  {
    TotalOfWord(inp, lo, hi + 1, w, t);
  }

  /** The incrementally kept cache and a full recount are the same map. */
  lemma RecountIsUnique(a: Cache, b: Cache, inp: seq<Token>, lo: nat, hi: nat)
    requires IsCounts(a, inp, lo, hi) && IsCounts(b, inp, lo, hi)
    ensures a == b
  {
    forall g, t ensures Lookup(a, g, t) == Lookup(b, g, t) {}
    CountsDetermine(a, b);
  }

  // ---------------------------------------------------------------- merging

  /** The counts of g grow by those of part, as far as part's tokens are not in rest. */
  ghost predicate Gained(cache: Cache, before: Cache, g: Ngram, part: Part, rest: set<Token>) {
    forall h, u :: Lookup(cache, h, u) ==
                   Lookup(before, h, u) + if h == g && u in part && u !in rest then part[u] else 0
  }

  lemma GainedStep(cache: Cache, after: Cache, before: Cache, g: Ngram, part: Part, rest: set<Token>, t: Token)
    requires Gained(cache, before, g, part, rest) && t in rest && t in part && part[t] > 0
    requires after == Added(cache, g, t, part[t])
    ensures Gained(after, before, g, part, rest - {t})
    ensures WellFormed(cache) && |g| == NGRAM_MAX ==> WellFormed(after)
  {
    AddedCounts(cache, g, t, part[t]);
  }

  lemma TokenExists(tokens: set<Token>)
    ensures tokens == {} || exists t :: t in tokens
  {
    if forall t :: t !in tokens { assert tokens == {}; }
  }

  /** The next token a walk over a map may yield: any of those left. */
  method SomeToken(tokens: set<Token>) returns (t: Token)
    requires tokens != {}
    ensures t in tokens
  {
    TokenExists(tokens);
    t :| t in tokens;
  }

  /** Adds a part to an n-gram that is present, token by token in whatever order the map yields them. */
  method MergePart(before: Cache, g: Ngram, part: Part) returns (cache: Cache)
    requires g in before && forall t :: t in part ==> part[t] > 0
    ensures Gained(cache, before, g, part, {})
    ensures WellFormed(before) ==> WellFormed(cache)
  {
    cache := before;
    var rest := part.Keys;
    while rest != {}
      invariant rest <= part.Keys && Gained(cache, before, g, part, rest) && g in cache
      invariant WellFormed(before) ==> |g| == NGRAM_MAX && WellFormed(cache)
      decreases |rest|
    {
      var t := SomeToken(rest);
      ghost var was := cache;
      if t !in cache[g] {
        cache := cache[g := cache[g][t := part[t]]];
      } else {
        cache := cache[g := cache[g][t := cache[g][t] + part[t]]];
      }
      assert cache == Added(was, g, t, part[t]);
      GainedStep(was, cache, before, g, part, rest, t);
      rest := rest - {t};
    }
  }

  /** The counts grow by those of add, as far as add's n-grams are not in rest. */
  ghost predicate Summed(cache: Cache, target: Cache, add: Cache, rest: set<Ngram>) {
    forall h, u :: Lookup(cache, h, u) == Lookup(target, h, u) + if h in rest then 0 else Lookup(add, h, u)
  }

  /** Merging is the pointwise sum, in whatever order the maps are walked. */
  method Merge(target: Cache, add: Cache) returns (cache: Cache)
    requires forall g, t :: g in add && t in add[g] ==> add[g][t] > 0
    ensures Summed(cache, target, add, {})
    ensures WellFormed(target) && WellFormed(add) ==> WellFormed(cache)
  {
    cache := target;
    var rest := add.Keys;
    while rest != {}
      invariant rest <= add.Keys && Summed(cache, target, add, rest)
      invariant WellFormed(target) && WellFormed(add) ==> WellFormed(cache)
      decreases |rest|
    {
      var g :| g in rest;
      if g !in cache {
        cache := cache[g := add[g]];
      } else {
        cache := MergePart(cache, g, add[g]);
      }
      rest := rest - {g};
    }
  }

  /** Merging sums the counts whichever of the two caches is the target, so both ways give the same map. */
  lemma MergeCommutes(a: Cache, b: Cache, ab: Cache, ba: Cache)
    requires WellFormed(ab) && WellFormed(ba) && Summed(ab, a, b, {}) && Summed(ba, b, a, {})
    ensures ab == ba
  {
    forall g, t ensures Lookup(ab, g, t) == Lookup(ba, g, t) {}
    CountsDetermine(ab, ba);
  }
}
