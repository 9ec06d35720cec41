/** Integer bounds compiled to GBNF (common/json-schema-to-grammar.cpp, _build_min_max_int). */
module IntRange {
  import opened Grammars
  import opened Numerals
  import opened Wrappers

  const INT_MIN := -0x8000_0000
  const INT_MAX := 0x7fff_ffff

  type Gbnf = Grammar<char>

  function DigitRange(from: char, to: char): Gbnf { OneOf(CharRange(from, to)) }

  function MoreDigits(minDigits: nat, maxDigits: int): Gbnf {
    if minDigits == maxDigits == 1 then DigitRange('0', '9')
    else Rep(DigitRange('0', '9'), minDigits, Some(maxDigits))
  }

  function PlusOne(c: char): char
    requires IsDigit(c)
  {
    (c as int + 1) as char
  }

  function MinusOne(c: char): char
    requires IsDigit(c) || c == '-'
  {
    (c as int - 1) as char
  }

  lemma MoreDigitsMeaning(lo: nat, hi: int, w: string)
    ensures Accepts(MoreDigits(lo, hi), w) <==> AllDigits(w) && WithinCount(|w|, lo, Some(hi))
  {
    RepOneOf(map[], 0, CharRange('0', '9'), lo, Some(hi), w);
  }

  /** A digit class followed by further digits. */
  lemma DigitThenDigits(from: char, to: char, lo: nat, hi: int, w: string)
    requires IsDigit(from) && IsDigit(to)
    ensures Accepts(Seq(DigitRange(from, to), MoreDigits(lo, hi)), w) <==>
            AllDigits(w) && |w| > 0 && from <= w[0] <= to && WithinCount(|w| - 1, lo, Some(hi))
  {
    OneOfThen(map[], 0, CharRange(from, to), MoreDigits(lo, hi), w);
    if |w| > 0 {
      MoreDigitsMeaning(lo, hi, w[1..]);
      assert AllDigits(w) <==> IsDigit(w[0]) && AllDigits(w[1..]) by { AllDigitsSplit(w); }
    }
  }

  lemma JustZero(w: string)
    ensures Accepts(DigitRange('0', '0'), w) <==> w == "0"
  {
  }

  lemma AllDigitsSplit(w: string)
    requires |w| > 0
    ensures AllDigits(w) <==> IsDigit(w[0]) && AllDigits(w[1..])
  {
    if IsDigit(w[0]) && AllDigits(w[1..]) {
      assert forall i :: 1 <= i < |w| ==> w[i] == w[1..][i - 1];
    }
  }

  // ---------------------------------------------------------------- same-length ranges

  /** The digit strings of the bounds' length lying between them lexicographically. */
  ghost predicate Between(from: string, to: string, w: string)
    requires |from| == |to|
  {
    AllDigits(w) && |w| == |from| && LexLe(from, w) && LexLe(w, to)
  }

  ghost predicate IsUniformRange(g: Gbnf, from: string, to: string)
    requires |from| == |to|
  {
    forall w :: Accepts(g, w) <==> Between(from, to, w)
  }

  ghost predicate AcceptsNothing(g: Gbnf) {
    forall w :: !Accepts(g, w)
  }

  /** What the split is called with: digits, and a text that is not longer and may begin with a minus sign. */
  predicate Splittable(from: string, to: string) {
    AllDigits(from) && from != "" && |to| <= |from| &&
    (to != "" ==> (IsDigit(to[0]) || to[0] == '-') && AllDigits(to[1..]))
  }

  predicate Ordered(from: string, to: string) {
    AllDigits(to) && |from| == |to| && LexLe(from, to)
  }

  /** Only the last character differs, and is the larger one in `from`. */
  predicate LastReversed(from: string, to: string) {
    |from| == |to| > 0 && from[..|from| - 1] == to[..|to| - 1] && from[|from| - 1] > to[|to| - 1]
  }

  /** Cut to the length of `to`, `w` comes before it. */
  ghost predicate Before(w: string, to: string) {
    |to| <= |w| && w[..|to|] != to && LexLe(w[..|to|], to)
  }

  /** `to` itself, or n digits that come before it. */
  ghost predicate UpTo(n: nat, to: string, w: string) {
    w == to || (AllDigits(w) && |w| == n && Before(w, to))
  }

  /** Digits as many as in `from`, and not less. */
  ghost predicate NotLess(from: string, w: string) {
    AllDigits(w) && |w| == |from| && LexLe(from, w)
  }

  /**
   * What the split accepts where the bounds differ in their first character. In the right order: `to` and the digits
   * from `from` on that come before it. In the wrong order: what has the first character of `to` and comes no later,
   * and what has that of `from` and is not less, the latter only if `from` does not end in zeros.
   */
  ghost predicate SplitReads(from: string, to: string, w: string)
    requires from != "" && to != ""
  {
    if from[0] < to[0] then w == to || (NotLess(from, w) && Before(w, to))
    else |from| > 1 && |w| > 0 &&
         ((w[0] == to[0] && UpTo(|from| - 1, to[1..], w[1..])) ||
          (from[1..] != Repeat('0', |from| - 1) && w[0] == from[0] && NotLess(from, w)))
  }

  /** What the range accepts: behind the common prefix what the split does, and nothing more where `to` is used up. */
  ghost predicate Reads(from: string, to: string, w: string)
    decreases |to|
  {
    if from == "" || to == "" then w == ""
    else if from[0] == to[0] then |w| > 0 && w[0] == to[0] && Reads(from[1..], to[1..], w[1..])
    else SplitReads(from, to, w)
  }

  ghost predicate IsRange(g: Gbnf, from: string, to: string) {
    forall w :: Accepts(g, w) <==> Reads(from, to, w)
  }

  /** Strips the common prefix, then splits the rest at its first digit. */
  method UniformRange(from: string, to: string) returns (g: Gbnf)
    requires Splittable(from, to)
    ensures IsRange(g, from, to)
    ensures Ordered(from, to) ==> IsUniformRange(g, from, to)
    ensures AcceptsNothing(g) <==> LastReversed(from, to)
    decreases |from|, 2
  {
    hide Reads, SplitReads, LastReversed, Ordered;
    var i := 0;
    while i < |from| && i < |to| && from[i] == to[i]
      invariant 0 <= i <= |to|
      invariant from[..i] == to[..i]
    {
      i := i + 1;
    }
    var prefix := from[..i];
    assert from == prefix + from[i..] && to == prefix + to[i..];
    if i < |from| && i < |to| {
      SuffixSplittable(from, to, i);
      var tail := SplitRange(from[i..], to[i..]);
      g := if i > 0 then Seq(Lit(prefix), tail) else tail;
      forall w ensures Accepts(g, w) <==> Reads(from, to, w) {
        CommonPrefix(prefix, from[i..], to[i..], tail, w);
      }
    } else {
      g := Lit(prefix);
      forall w ensures Accepts(g, w) <==> Reads(from, to, w) { UsedUp(prefix, from[i..], to[i..], w); }
    }
    RangeMeaning(from, to, g);
  }

  lemma RangeMeaning(from: string, to: string, g: Gbnf)
    requires Splittable(from, to) && IsRange(g, from, to)
    ensures Ordered(from, to) ==> IsUniformRange(g, from, to)
    ensures AcceptsNothing(g) <==> LastReversed(from, to)
  {
    hide Reads, LastReversed;
    if Ordered(from, to) {
      forall w ensures Reads(from, to, w) <==> Between(from, to, w) { ReadsOrdered(from, to, w); }
    }
    if LastReversed(from, to) {
      forall w ensures !Reads(from, to, w) { ReversedReads(from, to, w); }
    } else {
      MaximumRead(from, to);
      assert Accepts(g, to);
    }
  }

  /** Behind a common prefix nothing of the shape is lost. */
  lemma SuffixSplittable(from: string, to: string, i: nat)
    requires Splittable(from, to) && i < |to| && from[..i] == to[..i]
    ensures Splittable(from[i..], to[i..])
  {
    forall k | 0 <= k < |to| ensures IsDigit(to[k]) || (k == 0 && to[k] == '-') {
      if k > 0 { assert to[k] == to[1..][k - 1]; }
    }
    forall k | 0 <= k < |to[i..][1..]| ensures IsDigit(to[i..][1..][k]) {
      assert to[i..][1..][k] == to[i + 1 + k];
    }
    if i > 0 { assert from[i - 1] == from[..i][i - 1] == to[..i][i - 1] == to[i - 1]; }
  }

  lemma {:induction false} PrefixReads(prefix: string, from: string, to: string, w: string)
    ensures Reads(prefix + from, prefix + to, w) <==> prefix <= w && Reads(from, to, w[|prefix|..])
  {
    if prefix == "" {
      assert prefix + from == from && prefix + to == to && w[0..] == w;
    } else {
      assert (prefix + from)[1..] == prefix[1..] + from && (prefix + to)[1..] == prefix[1..] + to;
      if |w| > 0 {
        PrefixReads(prefix[1..], from, to, w[1..]);
        assert prefix <= w <==> prefix[0] == w[0] && prefix[1..] <= w[1..] by {
          assert prefix == [prefix[0]] + prefix[1..] && w == [w[0]] + w[1..];
        }
      }
    }
  }

  lemma CommonPrefix(prefix: string, from: string, to: string, tail: Gbnf, w: string)
    requires from != "" && to != "" && from[0] != to[0] && forall v :: Accepts(tail, v) <==> SplitReads(from, to, v)
    ensures Accepts(if prefix != "" then Seq(Lit(prefix), tail) else tail, w) <==> Reads(prefix + from, prefix + to, w)
  {
    hide SplitReads;
    PrefixReads(prefix, from, to, w);
    LitThen(map[], 0, prefix, tail, w);
    if prefix == "" { assert w[0..] == w; }
  }

  lemma UsedUp(prefix: string, from: string, to: string, w: string)
    requires from == "" || to == ""
    ensures Reads(prefix + from, prefix + to, w) <==> w == prefix
  {
    PrefixReads(prefix, from, to, w);
    if prefix <= w { assert w == prefix + w[|prefix|..]; }
  }

  /** In order, and equally long: the strings between the two. */
  lemma {:induction false} ReadsOrdered(from: string, to: string, w: string)
    requires AllDigits(from) && Ordered(from, to)
    ensures Reads(from, to, w) <==> Between(from, to, w)
    decreases |from|
  {
    if from != "" {
      if from[0] == to[0] {
        assert AllDigits(from[1..]) && AllDigits(to[1..]);
        if |w| > 0 {
          ReadsOrdered(from[1..], to[1..], w[1..]);
          AllDigitsSplit(w);
        }
      } else {
        LexLeRefl(to);
        assert w == to <==> |w| == |to| && w[..|to|] == to;
        if |w| == |to| { assert w[..|to|] == w; }
      }
    }
  }

  /** With only the last characters in the wrong order nothing is accepted. */
  lemma {:induction false} ReversedReads(from: string, to: string, w: string)
    requires LastReversed(from, to)
    ensures !Reads(from, to, w)
    decreases |from|
  {
    var n := |from| - 1;
    if n > 0 {
      assert from[0] == from[..n][0] == to[..n][0] == to[0];
      assert from[1..][..n - 1] == from[..n][1..] && to[1..][..n - 1] == to[..n][1..];
      if |w| > 0 { ReversedReads(from[1..], to[1..], w[1..]); }
    } else {
      assert from[0] > to[0];
    }
  }

  /** Otherwise the maximum itself is accepted, whatever the minimum. */
  lemma {:induction false} MaximumRead(from: string, to: string)
    requires |to| <= |from| && !LastReversed(from, to)
    ensures Reads(from, to, to)
    decreases |to|
  {
    if to != "" && from[0] == to[0] {
      ReversedBehind(from, to);
      MaximumRead(from[1..], to[1..]);
    } else if to != "" && |from| == 1 {
      assert from[..0] == to[..0];
    }
  }

  lemma ReversedBehind(from: string, to: string)
    requires from != "" && to != "" && from[0] == to[0]
    ensures LastReversed(from[1..], to[1..]) ==> LastReversed(from, to)
  {
    var n := |from| - 1;
    if LastReversed(from[1..], to[1..]) {
      assert from[..n] == [from[0]] + from[1..][..n - 1] && to[..n] == [to[0]] + to[1..][..n - 1];
    }
  }

  /** From zeros on: everything up to `to`. */
  lemma {:induction false} ReadsFromZeros(n: nat, to: string, w: string)
    requires |to| <= n && AllDigits(to)
    ensures Reads(Repeat('0', n), to, w) <==> UpTo(n, to, w)
    decreases n
  {
    var from := Repeat('0', n);
    if to == "" {
      assert w[..0] == "";
    } else if to[0] == '0' {
      assert from[1..] == Repeat('0', n - 1);
      if |w| > 0 {
        ReadsFromZeros(n - 1, to[1..], w[1..]);
        UpToSplits(n, to, w);
        BeforeSplits(w, to);
      }
    } else {
      if AllDigits(w) && |w| == n { LexLeExtremes(w); }
    }
  }

  lemma BeforeSplits(w: string, to: string)
    requires |w| > 0 && |to| > 0
    ensures Before(w, to) <==> |to| <= |w| && (w[0] < to[0] || (w[0] == to[0] && Before(w[1..], to[1..])))
  {
    if |to| <= |w| {
      var cut := w[..|to|];
      assert cut[1..] == w[1..][..|to| - 1];
      assert cut == to <==> cut[0] == to[0] && cut[1..] == to[1..] by {
        assert cut == [cut[0]] + cut[1..] && to == [to[0]] + to[1..];
      }
    }
  }

  lemma UpToSplits(n: nat, to: string, w: string)
    requires |w| > 0 && |to| > 0 && n > 0 && |to| <= n && AllDigits(to)
    ensures UpTo(n, to, w) <==> (w[0] == to[0] && UpTo(n - 1, to[1..], w[1..])) ||
                                (AllDigits(w) && |w| == n && w[0] < to[0])
  {
    BeforeSplits(w, to);
    AllDigitsSplit(w);
    assert w == to <==> w[0] == to[0] && w[1..] == to[1..] by {
      assert w == [w[0]] + w[1..] && to == [to[0]] + to[1..];
    }
  }

  /** The part of a uniform range behind the common prefix: the bounds differ in their first character. */
  method SplitRange(from: string, to: string) returns (g: Gbnf)
    requires Splittable(from, to) && to != "" && from[0] != to[0]
    ensures forall w :: Accepts(g, w) <==> SplitReads(from, to, w)
    decreases |from|, 1
  {
    if |from| == 1 {
      g := DigitRange(from[0], to[0]);
      forall w ensures Accepts(g, w) <==> SplitReads(from, to, w) { OneCharacterReads(from, to, w); }
    } else if from[1..] == Repeat('0', |from| - 1) {
      g := SplitFromZeros(from, to);
    } else {
      g := SplitFromOther(from, to);
    }
  }

  lemma OneCharacterReads(from: string, to: string, w: string)
    requires |from| == |to| == 1 && AllDigits(from) && (IsDigit(to[0]) || to[0] == '-') && from[0] != to[0]
    ensures Accepts(DigitRange(from[0], to[0]), w) <==> SplitReads(from, to, w)
  {
    if |w| == 1 {
      assert w[..1] == w && w[1..] == from[1..] == to[1..] == "";
      assert w == to <==> w[0] == to[0];
      assert LexLe(from, w) <==> from[0] <= w[0];
      assert LexLe(w, to) <==> w[0] <= to[0];
    }
  }

  /** Behind the lower bound's first digit come zeros: all of that digit's strings are in. */
  method SplitFromZeros(from: string, to: string) returns (g: Gbnf)
    requires Splittable(from, to) && |from| > 1 && to != "" && from[0] != to[0]
    requires from[1..] == Repeat('0', |from| - 1)
    ensures forall w :: Accepts(g, w) <==> SplitReads(from, to, w)
    decreases |from|, 0
  {
    hide SplitReads, Reads, UpTo;
    var subLen, toSub := |from| - 1, to[1..];
    var below := Seq(DigitRange(from[0], MinusOne(to[0])), MoreDigits(subLen, subLen));
    var upper := UniformRange(Repeat('0', subLen), toSub);
    var last := Seq(DigitRange(to[0], to[0]), upper);
    g := Alternatives([below, last]);
    forall w ensures Accepts(g, w) <==> SplitReads(from, to, w) {
      TwoAlternatives(below, last, w);
      DigitsBelow(from[0], to[0], subLen, w);
      UpperEdge(to[0], subLen, toSub, upper, w);
      ZerosSplit(from, to, w);
    }
  }

  lemma TwoAlternatives(a: Gbnf, b: Gbnf, w: string)
    ensures Accepts(Alternatives([a, b]), w) <==> Accepts(a, w) || Accepts(b, w)
  {
    assert [a] + [b] == [a, b];
    AlternativesAppend([a], b);
  }

  /** The digits from the lower one to below the upper one, if there are any. */
  lemma DigitsBelow(from: char, to: char, subLen: nat, w: string)
    requires IsDigit(from) && (IsDigit(to) || to == '-')
    ensures Accepts(Seq(DigitRange(from, MinusOne(to)), MoreDigits(subLen, subLen)), w) <==>
            AllDigits(w) && |w| == subLen + 1 && from <= w[0] < to
  {
    if from < to {
      DigitThenDigits(from, MinusOne(to), subLen, subLen, w);
    } else {
      OneOfThen(map[], 0, CharRange(from, MinusOne(to)), MoreDigits(subLen, subLen), w);
    }
  }

  lemma UpperEdge(c: char, n: nat, toSub: string, upper: Gbnf, w: string)
    requires |toSub| <= n && AllDigits(toSub) && IsRange(upper, Repeat('0', n), toSub)
    ensures Accepts(Seq(DigitRange(c, c), upper), w) <==> |w| > 0 && w[0] == c && UpTo(n, toSub, w[1..])
  {
    hide Reads, UpTo;
    OneOfThen(map[], 0, CharRange(c, c), upper, w);
    if |w| > 0 { ReadsFromZeros(n, toSub, w[1..]); }
  }

  lemma LowerEdge(c: char, fromSub: string, lower: Gbnf, w: string)
    requires AllDigits(fromSub) && IsUniformRange(lower, fromSub, Repeat('9', |fromSub|))
    ensures Accepts(Seq(DigitRange(c, c), lower), w) <==> |w| > 0 && w[0] == c && NotLess(fromSub, w[1..])
  {
    OneOfThen(map[], 0, CharRange(c, c), lower, w);
    if |w| > 0 {
      var x := w[1..];
      assert Accepts(lower, x) <==> Between(fromSub, Repeat('9', |fromSub|), x);
      if AllDigits(x) && |x| == |fromSub| { LexLeExtremes(x); }
    }
  }

  lemma NotLessSplits(from: string, w: string)
    requires |from| > 0 && |w| > 0 && AllDigits(from)
    ensures NotLess(from, w) <==>
            (w[0] == from[0] && NotLess(from[1..], w[1..])) || (AllDigits(w) && |w| == |from| && from[0] < w[0])
  {
    AllDigitsSplit(w);
  }

  lemma ZerosSplit(from: string, to: string, w: string)
    requires Splittable(from, to) && |from| > 1 && to != "" && from[0] != to[0]
    requires from[1..] == Repeat('0', |from| - 1)
    ensures SplitReads(from, to, w) <==>
            (AllDigits(w) && |w| == |from| && from[0] <= w[0] < to[0]) ||
            (|w| > 0 && w[0] == to[0] && UpTo(|from| - 1, to[1..], w[1..]))
  {
    if from[0] < to[0] && |w| > 0 {
      ToIsDigits(to);
      if AllDigits(w) && |w| == |from| { LexLeExtremes(w[1..]); }
      NotLessSplits(from, w);
      UpToSplits(|from|, to, w);
      BeforeSplits(w, to);
    }
  }

  lemma ToIsDigits(to: string)
    requires to != "" && IsDigit(to[0]) && AllDigits(to[1..])
    ensures AllDigits(to)
  {
    AllDigitsSplit(to);
  }

  lemma OtherSplit(from: string, to: string, w: string)
    requires Splittable(from, to) && |from| > 1 && to != "" && from[0] != to[0]
    requires from[1..] != Repeat('0', |from| - 1)
    ensures SplitReads(from, to, w) <==>
            |w| > 0 &&
            ((w[0] == from[0] && NotLess(from[1..], w[1..])) ||
             (AllDigits(w) && |w| == |from| && from[0] < w[0] < to[0]) ||
             (w[0] == to[0] && UpTo(|from| - 1, to[1..], w[1..])))
  {
    if |w| > 0 {
      NotLessSplits(from, w);
      if from[0] < to[0] {
        ToIsDigits(to);
        UpToSplits(|from|, to, w);
        BeforeSplits(w, to);
      }
    }
  }

  method SplitFromOther(from: string, to: string) returns (g: Gbnf)
    requires Splittable(from, to) && |from| > 1 && to != "" && from[0] != to[0]
    requires from[1..] != Repeat('0', |from| - 1)
    ensures forall w :: Accepts(g, w) <==> SplitReads(from, to, w)
    decreases |from|, 0
  {
    hide SplitReads, Reads, UpTo, NotLess, LastReversed, IsRange, IsUniformRange, AcceptsNothing;
    var subLen, fromSub, toSub := |from| - 1, from[1..], to[1..];
    var subZeros, subNines := Repeat('0', subLen), Repeat('9', subLen);
    LexLeExtremes(fromSub);
    var lower := UniformRange(fromSub, subNines);
    var own := Seq(DigitRange(from[0], from[0]), lower);
    var toReached := false;
    var alts := [own];
    if from[0] < MinusOne(to[0]) {
      toReached := toSub == subNines;
      alts := alts + [MiddleDigits(from[0], to[0], toReached, subLen)];
    }
    if !toReached {
      var upper := UniformRange(subZeros, toSub);
      alts := alts + [Seq(DigitRange(to[0], to[0]), upper)];
      forall w ensures Accepts(alts[|alts| - 1], w) <==> |w| > 0 && w[0] == to[0] && UpTo(subLen, toSub, w[1..]) {
        UpperEdge(to[0], subLen, toSub, upper, w);
      }
    }
    g := Alternatives(alts);
    forall w ensures Accepts(g, w) <==> SplitReads(from, to, w) {
      AlternativesMeaning(map[], 0, alts, w);
      LowerEdge(from[0], fromSub, lower, w);
      OtherSplit(from, to, w);
      if from[0] < MinusOne(to[0]) { MiddleMeaning(from[0], to[0], toReached, subLen, w); }
      if toReached && |w| > 0 { NinesReached(subLen, w); }
    }
  }

  /** Up to nines is everything of the length. */
  lemma NinesReached(n: nat, w: string)
    requires |w| > 0
    ensures UpTo(n, Repeat('9', n), w[1..]) <==> AllDigits(w[1..]) && |w| == n + 1
    ensures IsDigit(w[0]) ==> (AllDigits(w) <==> AllDigits(w[1..]))
  {
    AllDigitsSplit(w);
    var x := w[1..];
    if AllDigits(x) && |x| == n {
      LexLeExtremes(x);
      assert x[..n] == x;
    }
  }

  /** The digits between the two first ones, and the upper one too if nothing above it is left out. */
  function MiddleDigits(from: char, to: char, toReached: bool, subLen: nat): Gbnf
    requires IsDigit(from) && (IsDigit(to) || to == '-')
  {
    Seq(DigitRange(PlusOne(from), if toReached then to else MinusOne(to)), MoreDigits(subLen, subLen))
  }

  lemma MiddleMeaning(from: char, to: char, toReached: bool, subLen: nat, w: string)
    requires IsDigit(from) && (IsDigit(to) || to == '-') && from < MinusOne(to)
    ensures Accepts(MiddleDigits(from, to, toReached, subLen), w) <==>
            AllDigits(w) && |w| == subLen + 1 && from < w[0] && (w[0] < to || (toReached && w[0] == to))
  {
    DigitThenDigits(PlusOne(from), if toReached then to else MinusOne(to), subLen, subLen, w);
  }

  // ---------------------------------------------------------------- the languages emitted

  /** Canonical numerals of the numbers from lo to hi. */
  ghost predicate NumeralBetween(lo: int, hi: int, w: string) {
    IsCanonical(w) && lo <= Value(w) <= hi
  }

  ghost predicate HasMinus(w: string) { |w| > 0 && w[0] == '-' }

  /** A non-zero leading digit and at most `more` further digits. */
  ghost predicate PositiveNumeral(more: int, w: string) {
    AllDigits(w) && |w| > 0 && w[0] != '0' && |w| - 1 <= more
  }

  function LessDecimals(decimalsLeft: int): int { if decimalsLeft - 1 > 1 then decimalsLeft - 1 else 1 }

  /** The number left when the leading digit of `m`'s numeral is dropped; leading zeros are forgotten. */
  function DropLeadingDigit(m: nat): (r: nat)
    requires m >= 10
    ensures r < m
  {
    var s := Numeral(m);
    ValueFromHead(s);
    CanonicalLowerBound(s);
    TwoDigits(m);
    ValueBound(s[1..]);
    Value(s[1..])
  }

  lemma TwoDigits(m: nat)
    ensures |Numeral(m)| > 1 <==> m >= 10
  {
  }

  /** What is emitted when only a minimum m >= 0 is left to enforce. */
  ghost predicate AtLeast(m: nat, decimalsLeft: int, topLevel: bool, w: string)
    decreases m
  {
    var less := LessDecimals(decimalsLeft);
    var first := if topLevel then '1' else '0';
    var s := Numeral(m);
    var c := s[0];
    if m == 0 then
      if topLevel then w == "0" || PositiveNumeral(less, w)
      else AllDigits(w) && 1 <= |w| <= decimalsLeft
    else if m <= 9 then
      AllDigits(w) && |w| > 0 &&
      if w[0] < c then first <= w[0] && 1 <= |w| - 1 <= less else |w| - 1 <= less
    else
      AllDigits(w) && |w| > 0 &&
      if w[0] < c then c > '1' && first <= w[0] && WithinCount(|w| - 1, |s|, Some(less))
      else if w[0] == c then AtLeast(DropLeadingDigit(m), less, false, w[1..])
      else WithinCount(|w| - 1, |s| - 1, Some(less))
  }

  /** `std::to_string`. */
  function IntText(n: int): string { if n < 0 then "-" + Numeral(-n) else Numeral(n) }

  /** The magnitudes differ in the last digit only. */
  predicate SameButLastDigit(min: int, max: int) {
    if min < 0 && max < 0 then (-min) / 10 == (-max) / 10 else min >= 0 && max >= 0 && min / 10 == max / 10
  }

  lemma NumeralInit(n: nat)
    ensures var s := Numeral(n); s[..|s| - 1] == if n < 10 then "" else Numeral(n / 10)
    ensures var s := Numeral(n); s[|s| - 1] == DigitChar(n % 10)
  {
  }

  lemma ReversedNumerals(min: nat, max: int)
    requires min > max
    ensures LastReversed(Numeral(min), IntText(max)) <==> SameButLastDigit(min, max)
  {
    var s, t := Numeral(min), IntText(max);
    if max >= 0 {
      NumeralInit(min);
      NumeralInit(max);
      TwoDigits(min);
      TwoDigits(max);
      if |s| == |t| && s[..|s| - 1] == t[..|t| - 1] && min >= 10 {
        assert Value(Numeral(min / 10)) == Value(Numeral(max / 10));
      }
    } else if |s| == |t| {
      assert s[..|s| - 1][0] != '-' && t[..|t| - 1][0] == '-';
    }
  }

  /**
   * What the loop over digit counts accepts with the maximum below the minimum: the last range, read in the wrong
   * order, behind the numerals from the minimum on that are shorter than the text of the maximum, of which there are
   * some only if that begins with a minus sign.
   */
  ghost predicate Misread(min: nat, max: int, w: string) {
    var s, t := Numeral(min), IntText(max);
    (IsCanonical(w) && ShortLexLe(s, w) && |w| < |t|) ||
    Reads(if |s| < |t| then "1" + Repeat('0', |t| - 1) else s, t, w)
  }

  /** The numerals between the bounds, if these are in order. */
  ghost predicate RangeReads(min: nat, max: int, w: string) {
    if min <= max then NumeralBetween(min, max, w) else Misread(min, max, w)
  }

  lemma MisreadNothing(min: nat, max: int)
    requires min > max
    ensures (forall w :: !Misread(min, max, w)) <==> SameButLastDigit(min, max)
  {
    var s, t := Numeral(min), IntText(max);
    if |s| < |t| {
      LexLeRefl(s);
      assert Misread(min, max, s);
      if max >= 0 { ValueBelowLonger(s, Numeral(max)); }
    } else {
      ReversedNumerals(min, max);
      hide Reads, LastReversed, SameButLastDigit;
      forall w ensures Misread(min, max, w) <==> Reads(s, t, w) {}
      if LastReversed(s, t) {
        forall w ensures !Reads(s, t, w) { ReversedReads(s, t, w); }
      } else {
        MaximumRead(s, t);
        assert Misread(min, max, t);
      }
    }
  }

  /** A non-negative maximum is accepted below the minimum, unless nothing is. */
  lemma MaximumMisread(min: nat, max: nat)
    requires min > max && !SameButLastDigit(min, max)
    ensures Misread(min, max, Numeral(max)) && !NumeralBetween(min, max, Numeral(max))
  {
    var s, t := Numeral(min), Numeral(max);
    if |s| < |t| { ValueBelowLonger(s, t); }
    ReversedNumerals(min, max);
    MaximumRead(s, t);
  }

  /** What follows a minus sign: the sentinel of a missing maximum is taken at its word. */
  ghost predicate Magnitude(lo: nat, hi: nat, decimalsLeft: int, w: string) {
    if hi == INT_MAX then AtLeast(lo, decimalsLeft, true, w) else RangeReads(lo, hi, w)
  }

  /** The strings accepted by what is emitted for the given bounds. */
  ghost predicate Emitted(min: int, max: int, decimalsLeft: int, topLevel: bool, w: string) {
    if min != INT_MIN && max != INT_MAX then
      if min < 0 && max < 0 then HasMinus(w) && Magnitude(-max, -min, decimalsLeft, w[1..])
      else if min < 0 then
        (HasMinus(w) && Magnitude(0, -min, decimalsLeft, w[1..])) || NumeralBetween(0, max, w)
      else RangeReads(min, max, w)
    else if min != INT_MIN then
      if min < 0 then
        (HasMinus(w) && NumeralBetween(0, -min, w[1..])) || w == "0" || PositiveNumeral(decimalsLeft - 1, w)
      else AtLeast(min, decimalsLeft, topLevel, w)
    else
      if max >= 0 then
        (topLevel && HasMinus(w) && PositiveNumeral(LessDecimals(decimalsLeft), w[1..])) || NumeralBetween(0, max, w)
      else HasMinus(w) && AtLeast(-max, decimalsLeft, false, w[1..])
  }

  predicate IsInt(x: int) { INT_MIN <= x <= INT_MAX }

  /** Both bounds are sentinels, in this call or in the recursive call it makes. */
  predicate Unbounded(min: int, max: int) {
    max == INT_MAX && (min == INT_MIN || min == -INT_MAX)
  }

  // ---------------------------------------------------------------- the compiler

  lemma MinusThen(g: Gbnf, w: string)
    ensures Accepts(Seq(Lit("-"), g), w) <==> HasMinus(w) && Accepts(g, w[1..])
  {
    LitThen(map[], 0, "-", g, w);
    assert "-" <= w <==> HasMinus(w);
  }

  lemma {:induction false} AtLeastIsDigits(m: nat, decimalsLeft: int, topLevel: bool, w: string)
    ensures AtLeast(m, decimalsLeft, topLevel, w) ==> AllDigits(w) && w != ""
  {
  }

  lemma FirstOfLength(digits: nat, w: string)
    requires AllDigits(w) && |w| == digits + 1 && digits > 0
    ensures LexLe("1" + Repeat('0', digits), w) <==> IsCanonical(w)
  {
    assert ("1" + Repeat('0', digits))[1..] == Repeat('0', digits);
    AllDigitsSplit(w);
    LexLeExtremes(w[1..]);
  }

  /** The alternatives so far accept the numerals from s0 on that have fewer than `digits` digits. */
  ghost predicate CoversBelow(alts: seq<Gbnf>, s0: string, digits: nat) {
    forall w :: AcceptsSome(alts, w) <==> IsCanonical(w) && ShortLexLe(s0, w) && |w| < digits
  }

  /** Among the strings of its length, `minS` is where the numerals from s0 on begin. */
  ghost predicate BeginsAt(minS: string, s0: string) {
    forall w :: |w| == |minS| ==> (IsCanonical(w) && ShortLexLe(s0, w) <==> AllDigits(w) && LexLe(minS, w))
  }

  lemma NextLength(alts: seq<Gbnf>, g: Gbnf, s0: string, minS: string)
    requires CoversBelow(alts, s0, |minS|) && BeginsAt(minS, s0)
    requires IsUniformRange(g, minS, Repeat('9', |minS|))
    ensures CoversBelow(alts + [g], s0, |minS| + 1)
  {
    forall w ensures AcceptsSome(alts + [g], w) <==> IsCanonical(w) && ShortLexLe(s0, w) && |w| < |minS| + 1 {
      AcceptsSomeAppend(alts, g, w);
      if AllDigits(w) { LexLeExtremes(w); }
    }
  }

  lemma NextBegins(s0: string, digits: nat)
    requires IsCanonical(s0) && |s0| <= digits
    ensures BeginsAt("1" + Repeat('0', digits), s0)
  {
    forall w | |w| == digits + 1
      ensures IsCanonical(w) && ShortLexLe(s0, w) <==> AllDigits(w) && LexLe("1" + Repeat('0', digits), w)
    {
      if AllDigits(w) { FirstOfLength(digits, w); }
    }
  }

  lemma NothingCovered(s0: string)
    requires IsCanonical(s0)
    ensures CoversBelow([], s0, |s0|) && BeginsAt(s0, s0)
  {
  }

  /** One uniform range for every number of digits below the maximum's. */
  method ShorterRanges(s0: string, maxDigits: nat) returns (alts: seq<Gbnf>, minS: string)
    requires IsCanonical(s0)
    ensures minS == (if |s0| < maxDigits then "1" + Repeat('0', maxDigits - 1) else s0) && AllDigits(minS)
    ensures maxDigits <= |s0| ==> alts == []
    ensures CoversBelow(alts, s0, |minS|) && BeginsAt(minS, s0)
  {
    hide CoversBelow, BeginsAt, LexLe;
    minS, alts := s0, [];
    var digits := |s0|;
    NothingCovered(s0);
    while digits < maxDigits
      invariant |s0| <= digits && (|s0| < digits ==> digits <= maxDigits) && (|s0| == digits ==> alts == [])
      invariant minS == if |s0| < digits then "1" + Repeat('0', digits - 1) else s0
      invariant IsCanonical(minS) && |minS| == digits
      invariant CoversBelow(alts, s0, digits) && BeginsAt(minS, s0)
    {
      LexLeExtremes(minS);
      var sameLength := UniformRange(minS, Repeat('9', digits));
      NextLength(alts, sameLength, s0, minS);
      NextBegins(s0, digits);
      alts := alts + [sameLength];
      minS := "1" + Repeat('0', digits);
      digits := digits + 1;
    }
  }

  /** The ranges of all lengths. */
  method NonNegativeRange(min: nat, max: int) returns (g: Gbnf)
    ensures forall w :: Accepts(g, w) <==> RangeReads(min, max, w)
    ensures min > max ==> (AcceptsNothing(g) <==> SameButLastDigit(min, max))
  {
    hide Reads, BeginsAt, CoversBelow, Ordered, Splittable, Misread, SameButLastDigit, IsRange, IsUniformRange;
    var s0, maxS := Numeral(min), IntText(max);
    var alts, minS := ShorterRanges(s0, |maxS|);
    TextSplittable(minS, max);
    var last := UniformRange(minS, maxS);
    g := Alternatives(alts + [last]);
    if min <= max {
      AllLengths(min, max, alts, minS, last);
    } else {
      WrongOrder(min, max, alts, minS, last);
      MisreadNothing(min, max);
    }
  }

  lemma TextSplittable(minS: string, max: int)
    requires AllDigits(minS) && |IntText(max)| <= |minS|
    ensures Splittable(minS, IntText(max))
  {
    if max < 0 { assert IntText(max)[1..] == Numeral(-max); }
  }

  lemma LastAlternative(alts: seq<Gbnf>, last: Gbnf, w: string)
    ensures Accepts(Alternatives(alts + [last]), w) <==> AcceptsSome(alts, w) || Accepts(last, w)
  {
    AlternativesMeaning(map[], 0, alts + [last], w);
    AcceptsSomeAppend(alts, last, w);
  }

  lemma AllLengths(min: nat, max: nat, alts: seq<Gbnf>, minS: string, last: Gbnf)
    requires min <= max && AllDigits(minS)
    requires |minS| == (if |Numeral(min)| < |Numeral(max)| then |Numeral(max)| else |Numeral(min)|)
    requires CoversBelow(alts, Numeral(min), |minS|) && BeginsAt(minS, Numeral(min))
    requires Ordered(minS, Numeral(max)) ==> IsUniformRange(last, minS, Numeral(max))
    ensures forall w :: Accepts(Alternatives(alts + [last]), w) <==> NumeralBetween(min, max, w)
  {
    var s0, maxS := Numeral(min), Numeral(max);
    ShortLexLeIsNumeric(s0, maxS);
    assert LexLe(minS, maxS);
    forall w ensures Accepts(Alternatives(alts + [last]), w) <==> NumeralBetween(min, max, w) {
      LastAlternative(alts, last, w);
      UpToMaximum(s0, minS, maxS, w);
    }
  }

  lemma WrongOrder(min: nat, max: int, alts: seq<Gbnf>, minS: string, last: Gbnf)
    requires var s, t := Numeral(min), IntText(max);
             minS == (if |s| < |t| then "1" + Repeat('0', |t| - 1) else s) && IsRange(last, minS, t)
    requires CoversBelow(alts, Numeral(min), |minS|) && (|IntText(max)| <= |Numeral(min)| ==> alts == [])
    ensures forall w :: Accepts(Alternatives(alts + [last]), w) <==> Misread(min, max, w)
  {
    hide Reads;
    forall w ensures Accepts(Alternatives(alts + [last]), w) <==> Misread(min, max, w) {
      LastAlternative(alts, last, w);
    }
  }

  lemma UpToMaximum(s0: string, minS: string, maxS: string, w: string)
    requires IsCanonical(s0) && IsCanonical(maxS) && |minS| == |maxS| && BeginsAt(minS, s0)
    ensures (IsCanonical(w) && ShortLexLe(s0, w) && |w| < |maxS|) || Between(minS, maxS, w) <==>
            NumeralBetween(Value(s0), Value(maxS), w)
  {
    if IsCanonical(w) {
      ShortLexLeIsNumeric(s0, w);
      ShortLexLeIsNumeric(w, maxS);
    }
  }

  /** Compares which bounds are present and their signs: every recursive call lowers it or the minimum. */
  ghost function Phase(min: int, max: int): nat {
    if min != INT_MIN && max != INT_MAX then (if min < 0 then 4 else 0)
    else if min != INT_MIN then (if min < 0 then 3 else 1)
    else 2
  }

  ghost function Measure(min: int): nat { if min >= 0 then min else 0 }

  ghost predicate IsEmitted(g: Gbnf, min: int, max: int, decimalsLeft: int, topLevel: bool) {
    forall w :: Accepts(g, w) <==> Emitted(min, max, decimalsLeft, topLevel, w)
  }

  /** With the minimum above the maximum nothing is accepted exactly if the two differ in the last digit only. */
  lemma EmittedNothing(min: int, max: int, decimalsLeft: int, topLevel: bool)
    requires INT_MIN < max < min <= INT_MAX || (max == INT_MIN && 0 <= min <= INT_MAX)
    ensures (forall w :: !Emitted(min, max, decimalsLeft, topLevel, w)) <==> SameButLastDigit(min, max)
  {
    hide Misread, AtLeast;
    if min < 0 {
      var lo, hi := -max, -min;
      MisreadNothing(lo, hi);
      forall w ensures Emitted(min, max, decimalsLeft, topLevel, w) <==> HasMinus(w) && Misread(lo, hi, w[1..]) {}
      if w :| Misread(lo, hi, w) {
        assert ("-" + w)[1..] == w;
        assert Emitted(min, max, decimalsLeft, topLevel, "-" + w);
      }
    } else {
      MisreadNothing(min, max);
      forall w ensures Emitted(min, max, decimalsLeft, topLevel, w) <==> Misread(min, max, w) {}
    }
  }

  method BuildMinMaxInt(min: int, max: int, decimalsLeft: int, topLevel: bool) returns (r: Outcome<Gbnf>)
    requires IsInt(min) && IsInt(max) && decimalsLeft >= 1
    requires max == INT_MIN ==> min >= 0
    ensures r.Raised? <==> Unbounded(min, max)
    ensures r.Done? ==> IsEmitted(r.value, min, max, decimalsLeft, topLevel)
    ensures r.Done? && min > max ==> (AcceptsNothing(r.value) <==> SameButLastDigit(min, max))
    decreases Phase(min, max), Measure(min), 2
  {
    var hasMin, hasMax := min != INT_MIN, max != INT_MAX;
    if hasMin && hasMax {
      r := BothBounds(min, max, decimalsLeft, topLevel);
    } else if hasMin {
      r := MinimumOnly(min, decimalsLeft, topLevel);
    } else if hasMax {
      r := MaximumOnly(max, decimalsLeft, topLevel);
    } else {
      r := Raised;
    }
    if min > max { EmittedNothing(min, max, decimalsLeft, topLevel); }
  }

  method BothBounds(min: int, max: int, decimalsLeft: int, ghost topLevel: bool) returns (r: Outcome<Gbnf>)
    requires INT_MIN < min <= INT_MAX && INT_MIN <= max < INT_MAX && decimalsLeft >= 1
    requires max == INT_MIN ==> min >= 0
    ensures r.Done? && IsEmitted(r.value, min, max, decimalsLeft, topLevel)
    decreases Phase(min, max), Measure(min), 0
  {
    hide Misread, AtLeast, SameButLastDigit;
    if min < 0 && max < 0 {
      var magnitude := BuildMinMaxInt(-max, -min, decimalsLeft, true);
      r := Done(Seq(Lit("-"), magnitude.value));
      forall w ensures Accepts(r.value, w) <==> Emitted(min, max, decimalsLeft, topLevel, w) {
        MinusThen(magnitude.value, w);
      }
    } else if min < 0 {
      var magnitude := BuildMinMaxInt(0, -min, decimalsLeft, true);
      var rest := NonNegativeRange(0, max);
      r := Done(Alt(Seq(Lit("-"), magnitude.value), rest));
      forall w ensures Accepts(r.value, w) <==> Emitted(min, max, decimalsLeft, topLevel, w) {
        MinusThen(magnitude.value, w);
        assert Accepts(r.value, w) <==> Accepts(Seq(Lit("-"), magnitude.value), w) || Accepts(rest, w);
      }
    } else {
      var g := NonNegativeRange(min, max);
      r := Done(g);
    }
  }

  method MinimumOnly(min: int, decimalsLeft: int, topLevel: bool) returns (r: Outcome<Gbnf>)
    requires INT_MIN < min <= INT_MAX && decimalsLeft >= 1
    ensures r.Raised? <==> Unbounded(min, INT_MAX)
    ensures r.Done? ==> IsEmitted(r.value, min, INT_MAX, decimalsLeft, topLevel)
    decreases Phase(min, INT_MAX), Measure(min), 1
  {
    var less := LessDecimals(decimalsLeft);
    if min < 0 {
      var magnitude := BuildMinMaxInt(INT_MIN, -min, decimalsLeft, false);
      if magnitude.Raised? { return Raised; }
      var alts := [Seq(Lit("-"), magnitude.value), DigitRange('0', '0'),
                   Seq(DigitRange('1', '9'), MoreDigits(0, decimalsLeft - 1))];
      r := Done(Alternatives(alts));
      forall w ensures Accepts(r.value, w) <==> Emitted(min, INT_MAX, decimalsLeft, topLevel, w) {
        AlternativesMeaning(map[], 0, alts, w);
        assert Accepts(r.value, w) <==> Accepts(alts[0], w) || Accepts(alts[1], w) || Accepts(alts[2], w);
        MinusThen(magnitude.value, w);
        JustZero(w);
        DigitThenDigits('1', '9', 0, decimalsLeft - 1, w);
      }
    } else if min == 0 {
      if topLevel {
        r := Done(Alt(DigitRange('0', '0'), Seq(DigitRange('1', '9'), MoreDigits(0, less))));
        forall w ensures Accepts(r.value, w) <==> Emitted(min, INT_MAX, decimalsLeft, topLevel, w) {
          JustZero(w);
          DigitThenDigits('1', '9', 0, less, w);
        }
      } else {
        r := Done(MoreDigits(1, decimalsLeft));
        forall w ensures Accepts(r.value, w) <==> Emitted(min, INT_MAX, decimalsLeft, topLevel, w) {
          MoreDigitsMeaning(1, decimalsLeft, w);
        }
      }
    } else if min <= 9 {
      r := SmallMinimumOnly(min, decimalsLeft, topLevel);
    } else {
      r := LargeMinimumOnly(min, decimalsLeft, topLevel);
    }
  }

  method SmallMinimumOnly(min: int, decimalsLeft: int, topLevel: bool) returns (r: Outcome<Gbnf>)
    requires 1 <= min <= 9 && decimalsLeft >= 1
    ensures r.Done? && IsEmitted(r.value, min, INT_MAX, decimalsLeft, topLevel)
  {
    var less := LessDecimals(decimalsLeft);
    var c := DigitChar(min);
    var rangeStart := if topLevel then '1' else '0';
    var alts := [];
    if c > rangeStart {
      alts := [Seq(DigitRange(rangeStart, MinusOne(c)), MoreDigits(1, less))];
    }
    alts := alts + [Seq(DigitRange(c, '9'), MoreDigits(0, less))];
    r := Done(Alternatives(alts));
    forall w ensures Accepts(r.value, w) <==> Emitted(min, INT_MAX, decimalsLeft, topLevel, w) {
      AlternativesMeaning(map[], 0, alts, w);
      if c > rangeStart { DigitThenDigits(rangeStart, MinusOne(c), 1, less, w); }
      DigitThenDigits(c, '9', 0, less, w);
    }
  }

  method LargeMinimumOnly(min: int, decimalsLeft: int, topLevel: bool) returns (r: Outcome<Gbnf>)
    requires 10 <= min <= INT_MAX && decimalsLeft >= 1
    ensures r.Done? && IsEmitted(r.value, min, INT_MAX, decimalsLeft, topLevel)
    decreases Phase(min, INT_MAX), min, 0
  {
    var less := LessDecimals(decimalsLeft);
    var minS := Numeral(min);
    var len, c := |minS|, minS[0];
    var low := Seq(DigitRange(if topLevel then '1' else '0', MinusOne(c)), MoreDigits(len, less));
    var high := Seq(DigitRange(PlusOne(c), '9'), MoreDigits(len - 1, less));
    var alts := if c > '1' then [low] else [];
    var rest := BuildMinMaxInt(DropLeadingDigit(min), INT_MAX, less, false);
    var own := Seq(DigitRange(c, c), rest.value);
    alts := alts + [own];
    if c < '9' {
      alts := alts + [high];
    }
    r := Done(Alternatives(alts));
    forall w ensures Accepts(r.value, w) <==> Emitted(min, INT_MAX, decimalsLeft, topLevel, w) {
      EdgeAlternatives(c > '1', low, own, c < '9', high, w);
      LargeMinimum(min, less, topLevel, rest.value, w);
    }
  }

  lemma EdgeAlternatives(hasLow: bool, low: Gbnf, own: Gbnf, hasHigh: bool, high: Gbnf, w: string)
    ensures var alts := (if hasLow then [low] else []) + [own];
            Accepts(Alternatives(if hasHigh then alts + [high] else alts), w) <==>
            (hasLow && Accepts(low, w)) || Accepts(own, w) || (hasHigh && Accepts(high, w))
  {
    var alts := (if hasLow then [low] else []) + [own];
    AlternativesAppend(if hasLow then [low] else [], own);
    assert Accepts(Alternatives(alts), w) <==> (hasLow && Accepts(low, w)) || Accepts(own, w);
    AlternativesAppend(alts, high);
  }

  /** The three alternatives for a minimum of two digits or more are told apart by the leading digit. */
  lemma LargeMinimum(min: nat, less: int, topLevel: bool, rest: Gbnf, w: string)
    requires min >= 10 && IsEmitted(rest, DropLeadingDigit(min), INT_MAX, less, false)
    requires DropLeadingDigit(min) != INT_MIN
    ensures var s := Numeral(min); var c := s[0];
      (c > '1' && Accepts(Seq(DigitRange(if topLevel then '1' else '0', MinusOne(c)), MoreDigits(|s|, less)), w)
       <==> c > '1' && AllDigits(w) && |w| > 0 && (if topLevel then '1' else '0') <= w[0] < c &&
            WithinCount(|w| - 1, |s|, Some(less)))
      && (Accepts(Seq(DigitRange(c, c), rest), w)
       <==> AllDigits(w) && |w| > 0 && w[0] == c && AtLeast(DropLeadingDigit(min), less, false, w[1..]))
      && (c < '9' && Accepts(Seq(DigitRange(PlusOne(c), '9'), MoreDigits(|s| - 1, less)), w)
       <==> c < '9' && AllDigits(w) && |w| > 0 && w[0] > c && WithinCount(|w| - 1, |s| - 1, Some(less)))
  {
    hide Derives, AtLeast, Emitted, DropLeadingDigit, IsEmitted, WithinCount;
    var s := Numeral(min);
    var c := s[0];
    if c > '1' { DigitThenDigits(if topLevel then '1' else '0', MinusOne(c), |s|, less, w); }
    if c < '9' { DigitThenDigits(PlusOne(c), '9', |s| - 1, less, w); }
    OwnDigitThen(min, less, c, rest, w);
  }

  lemma OwnDigitThen(min: nat, less: int, c: char, rest: Gbnf, w: string)
    requires min >= 10 && IsEmitted(rest, DropLeadingDigit(min), INT_MAX, less, false) && IsDigit(c)
    ensures Accepts(Seq(DigitRange(c, c), rest), w) <==>
            AllDigits(w) && |w| > 0 && w[0] == c && AtLeast(DropLeadingDigit(min), less, false, w[1..])
  {
    hide AtLeast, DropLeadingDigit;
    OneOfThen(map[], 0, CharRange(c, c), rest, w);
    if |w| > 0 {
      assert Accepts(rest, w[1..]) <==> Emitted(DropLeadingDigit(min), INT_MAX, less, false, w[1..]);
      AllDigitsSplit(w);
      AtLeastIsDigits(DropLeadingDigit(min), less, false, w[1..]);
    }
  }

  method MaximumOnly(max: int, decimalsLeft: int, topLevel: bool) returns (r: Outcome<Gbnf>)
    requires INT_MIN < max < INT_MAX && decimalsLeft >= 1
    ensures r.Done? && IsEmitted(r.value, INT_MIN, max, decimalsLeft, topLevel)
    decreases Phase(INT_MIN, max), 0, 0
  {
    var less := LessDecimals(decimalsLeft);
    if max >= 0 {
      var rest := BuildMinMaxInt(0, max, decimalsLeft, true);
      var positive := Seq(DigitRange('1', '9'), MoreDigits(0, less));
      r := if topLevel then Done(Alt(Seq(Lit("-"), positive), rest.value)) else rest;
      forall w ensures Accepts(r.value, w) <==> Emitted(INT_MIN, max, decimalsLeft, topLevel, w) {
        MinusThen(positive, w);
        if HasMinus(w) { DigitThenDigits('1', '9', 0, less, w[1..]); }
        assert Accepts(rest.value, w) <==> Emitted(0, max, decimalsLeft, true, w);
      }
    } else {
      var magnitude := BuildMinMaxInt(-max, INT_MAX, decimalsLeft, false);
      r := Done(Seq(Lit("-"), magnitude.value));
      forall w ensures Accepts(r.value, w) <==> Emitted(INT_MIN, max, decimalsLeft, topLevel, w) {
        MinusThen(magnitude.value, w);
      }
    }
  }
}
