/** When the grammar emitted for integer bounds accepts exactly the integers within them. */
module IntRangeExact {
  import opened Grammars
  import opened Numerals
  import opened IntRange
  import opened Wrappers

  /** The number of decimals the compiler starts from. */
  const DECIMALS := 16

  /** A JSON integer: an optional minus sign and a canonical numeral (section 6 of RFC 8259). */
  predicate IsJsonInt(w: string) {
    IsCanonical(w) || (|w| > 0 && w[0] == '-' && IsCanonical(w[1..]))
  }

  function IntValue(w: string): int
    requires IsJsonInt(w)
  {
    if w[0] == '-' then -(Value(w[1..]) as int) else Value(w)
  }

  ghost predicate InRange(min: int, max: int, w: string) {
    IsJsonInt(w) && min <= IntValue(w) <= max && (w == "-0" ==> min < 0)
  }

  ghost predicate AboveMinimum(min: int, w: string) {
    IsJsonInt(w) && min <= IntValue(w) && (w == "-0" ==> min < 0) && (w[0] != '-' ==> |w| <= DECIMALS)
  }

  ghost predicate BelowMaximum(max: int, w: string) {
    IsJsonInt(w) && IntValue(w) <= max && w != "-0" && (w[0] == '-' ==> |w| - 1 <= DECIMALS)
  }

  /** No digit strictly between the first and the last is 0 or 1. */
  predicate InnerDigitsAtLeastTwo(s: string) {
    forall i :: 1 <= i < |s| - 1 ==> s[i] >= '2'
  }

  /** What a minimum m >= 0 is meant to accept, with leading zeros tolerated below the top level. */
  ghost predicate Wanted(m: nat, decimals: int, topLevel: bool, w: string) {
    AllDigits(w) && 1 <= |w| <= decimals && ShortLexLe(Numeral(m), w) && (topLevel ==> IsCanonical(w))
  }

  // ---------------------------------------------------------------- lengths of numerals

  lemma NumeralLength(v: nat, k: nat)
    requires k > 0 && v < Pow10(k)
    ensures |Numeral(v)| <= k
  {
    var s := Numeral(v);
    if |s| > k {
      CanonicalLowerBound(s);
      Pow10Monotone(k, |s| - 1);
    }
  }

  lemma IntLength(v: nat)
    requires v <= INT_MAX
    ensures |Numeral(v)| <= 10
  {
    assert Pow10(5) == 100_000;
    assert Pow10(10) == 100_000 * Pow10(5);
    NumeralLength(v, 10);
  }

  // ---------------------------------------------------------------- the recursion on the leading digit

  /** Dropping a leading digit that does not uncover a zero keeps the rest of the numeral. */
  lemma DropKeepsRest(m: nat)
    requires m >= 10 && (|Numeral(m)| > 2 ==> Numeral(m)[1] != '0')
    ensures Numeral(DropLeadingDigit(m)) == Numeral(m)[1..]
  {
    TwoDigits(m);
    NumeralUnique(Numeral(m)[1..]);
  }

  /** Dropping a leading digit that uncovers a zero loses a digit of length. */
  lemma DropLosesZero(m: nat)
    requires m >= 10 && |Numeral(m)| > 2 && Numeral(m)[1] == '0'
    ensures |Numeral(DropLeadingDigit(m))| <= |Numeral(m)| - 2
  {
    hide Pow10, Value, Numeral;
    var s := Numeral(m);
    ZeroInFront(s[1..]);
    NumeralLength(Value(s[1..]), |s| - 2);
  }

  lemma ZeroInFront(t: string)
    requires AllDigits(t) && |t| > 1 && t[0] == '0'
    ensures Value(t) < Pow10(|t| - 1)
  {
    hide Pow10, Value;
    ValueFromHead(t);
    ValueBound(t[1..]);
  }

  lemma OneDigitMinimum(m: nat, decimals: int, topLevel: bool, w: string)
    requires m <= 9 && decimals >= 2
    ensures AtLeast(m, decimals, topLevel, w) <==> Wanted(m, decimals, topLevel, w)
  {
    var s := Numeral(m);
    assert s == [DigitChar(m)];
    if |w| == 1 {
      assert s[1..] == w[1..] == "";
      assert LexLe(s, w) <==> s[0] <= w[0];
    }
  }

  /** The two unfold alike while the leading digit decides, and then leave the same question. */
  lemma LongMinimum(m: nat, decimals: int, topLevel: bool, w: string)
    requires 10 <= m && |Numeral(m)| < decimals
    requires |Numeral(m)| > 2 ==> Numeral(m)[1] != '0'
    requires !topLevel ==> Numeral(m)[0] >= '2'
    requires |w| > 0 && IsDigit(w[0])
    requires AtLeast(DropLeadingDigit(m), decimals - 1, false, w[1..]) <==>
             Wanted(DropLeadingDigit(m), decimals - 1, false, w[1..])
    ensures AtLeast(m, decimals, topLevel, w) <==> Wanted(m, decimals, topLevel, w)
  {
    DropKeepsRest(m);
    TwoDigits(m);
    AllDigitsSplit(w);
    var s := Numeral(m);
    assert |w| == |s| ==> (LexLe(s, w) <==> s[0] < w[0] || (s[0] == w[0] && LexLe(s[1..], w[1..])));
    assert ShortLexLe(s, w) <==>
           |s| < |w| || (|s| == |w| && (s[0] < w[0] || (s[0] == w[0] && ShortLexLe(s[1..], w[1..]))));
  }

  /** Behind a leading digit the rest of the numeral qualifies again, now with a first digit of two or more. */
  lemma RestQualifies(m: nat)
    requires m >= 10 && InnerDigitsAtLeastTwo(Numeral(m))
    ensures |Numeral(m)| > 2 ==> Numeral(m)[1] != '0'
    ensures var s := Numeral(DropLeadingDigit(m));
            |s| == |Numeral(m)| - 1 && InnerDigitsAtLeastTwo(s) && (DropLeadingDigit(m) >= 10 ==> s[0] >= '2')
  {
    TwoDigits(m);
    DropKeepsRest(m);
    TwoDigits(DropLeadingDigit(m));
    hide Numeral, DropLeadingDigit;
    var s := Numeral(m);
    forall i | 1 <= i < |s| - 2 ensures s[1..][i] >= '2' { assert s[1..][i] == s[i + 1]; }
  }

  lemma {:induction false} BelowTopLevel(m: nat, decimals: int, w: string)
    requires |Numeral(m)| < decimals && InnerDigitsAtLeastTwo(Numeral(m))
    requires m >= 10 ==> Numeral(m)[0] >= '2'
    ensures AtLeast(m, decimals, false, w) <==> Wanted(m, decimals, false, w)
    decreases m
  {
    if m < 10 {
      OneDigitMinimum(m, decimals, false, w);
    } else if |w| > 0 && IsDigit(w[0]) {
      hide AtLeast, Wanted, DropLeadingDigit, Numeral, InnerDigitsAtLeastTwo;
      RestQualifies(m);
      BelowTopLevel(DropLeadingDigit(m), decimals - 1, w[1..]);
      LongMinimum(m, decimals, false, w);
    } else {
      NoDigitInFront(m, decimals, false, w);
    }
  }

  lemma AtTopLevel(m: nat, decimals: int, w: string)
    requires |Numeral(m)| < decimals && InnerDigitsAtLeastTwo(Numeral(m))
    ensures AtLeast(m, decimals, true, w) <==> Wanted(m, decimals, true, w)
  {
    if m < 10 {
      OneDigitMinimum(m, decimals, true, w);
    } else if |w| > 0 && IsDigit(w[0]) {
      hide AtLeast, Wanted, DropLeadingDigit, Numeral, InnerDigitsAtLeastTwo;
      RestQualifies(m);
      BelowTopLevel(DropLeadingDigit(m), decimals - 1, w[1..]);
      LongMinimum(m, decimals, true, w);
    } else {
      NoDigitInFront(m, decimals, true, w);
    }
  }

  lemma NoDigitInFront(m: nat, decimals: int, topLevel: bool, w: string)
    requires |w| == 0 || !IsDigit(w[0])
    ensures !AtLeast(m, decimals, topLevel, w) && !Wanted(m, decimals, topLevel, w)
  {
  }

  /** Nines are accepted whatever the minimum, as soon as they are as long as its numeral. */
  lemma {:induction false} NinesAccepted(m: nat, decimals: int, topLevel: bool, n: nat)
    requires |Numeral(m)| <= n <= decimals && decimals >= 2
    ensures AtLeast(m, decimals, topLevel, Repeat('9', n))
    decreases m
  {
    var s := Numeral(m);
    TwoDigits(m);
    if m >= 10 && s[0] == '9' {
      NineDropped(m);
      if decimals == 2 {
        OneDecimalLeft(DropLeadingDigit(m));
      } else {
        NinesAccepted(DropLeadingDigit(m), decimals - 1, false, n - 1);
      }
      NineThen(m, decimals, topLevel, n);
    } else {
      NinesAbove(m, decimals, topLevel, n);
    }
  }

  lemma NineDropped(m: nat)
    requires m >= 10
    ensures |Numeral(DropLeadingDigit(m))| <= |Numeral(m)| - 1
  {
    hide AtLeast;
    var s := Numeral(m);
    TwoDigits(m);
    ValueBound(s[1..]);
    NumeralLength(DropLeadingDigit(m), |s| - 1);
  }

  lemma NineThen(m: nat, decimals: int, topLevel: bool, n: nat)
    requires m >= 10 && Numeral(m)[0] == '9' && 0 < n && decimals >= 2
    requires AtLeast(DropLeadingDigit(m), decimals - 1, false, Repeat('9', n - 1))
    ensures AtLeast(m, decimals, topLevel, Repeat('9', n))
  {
    hide Numeral, DropLeadingDigit;
    assert Repeat('9', n)[1..] == Repeat('9', n - 1);
  }

  lemma NinesAbove(m: nat, decimals: int, topLevel: bool, n: nat)
    requires |Numeral(m)| <= n <= decimals && decimals >= 2
    requires m < 10 || Numeral(m)[0] != '9'
    ensures AtLeast(m, decimals, topLevel, Repeat('9', n))
  {
  }

  lemma OneDecimalLeft(m: nat)
    requires |Numeral(m)| <= 1
    ensures AtLeast(m, 1, false, "9")
    ensures "9" == Repeat('9', 1)
  {
    TwoDigits(m);
  }

  /** A zero behind the leading digit lets a shorter string through. */
  lemma ZeroBehindHead(m: nat, decimals: int, topLevel: bool) returns (w: string)
    requires |Numeral(m)| + 1 < decimals && |Numeral(m)| > 2 && Numeral(m)[1] == '0'
    ensures AtLeast(m, decimals, topLevel, w) && !Wanted(m, decimals, topLevel, w)
  {
    var s := Numeral(m);
    TwoDigits(m);
    DropLosesZero(m);
    w := [s[0]] + Repeat('9', |s| - 2);
    assert w[1..] == Repeat('9', |s| - 2);
    NinesAccepted(DropLeadingDigit(m), decimals - 1, false, |s| - 2);
  }

  /** A one behind the leading digit keeps a longer string out. */
  lemma OneBehindHead(m: nat, decimals: int, topLevel: bool) returns (w: string)
    requires |Numeral(m)| + 1 < decimals && |Numeral(m)| > 2 && Numeral(m)[1] == '1'
    ensures !AtLeast(m, decimals, topLevel, w) && Wanted(m, decimals, topLevel, w)
  {
    var s := Numeral(m);
    TwoDigits(m);
    DropKeepsRest(m);
    TwoDigits(DropLeadingDigit(m));
    var tail := ['0'] + Repeat('9', |s| - 1);
    w := [s[0]] + tail;
    assert w[1..] == tail;
    assert !AtLeast(DropLeadingDigit(m), decimals - 1, false, tail);
  }

  /** An inner 0 or 1 yields a string that is wrongly accepted or wrongly rejected. */
  lemma {:induction false} InnerDigitFails(m: nat, decimals: int, topLevel: bool) returns (w: string)
    requires |Numeral(m)| + 1 < decimals && !InnerDigitsAtLeastTwo(Numeral(m))
    ensures !(AtLeast(m, decimals, topLevel, w) <==> Wanted(m, decimals, topLevel, w))
    ensures AllDigits(w)
    decreases m
  {
    var s := Numeral(m);
    TwoDigits(m);
    if s[1] == '0' {
      w := ZeroBehindHead(m, decimals, topLevel);
      AtLeastIsDigits(m, decimals, topLevel, w);
    } else if s[1] == '1' {
      w := OneBehindHead(m, decimals, topLevel);
    } else {
      InnerDigitBehind(m);
      hide AtLeast, Wanted, InnerDigitsAtLeastTwo;
      var rest := InnerDigitFails(DropLeadingDigit(m), decimals - 1, false);
      w := [s[0]] + rest;
      assert w[1..] == rest;
      AllDigitsSplit(w);
      OwnDigit(m, decimals, topLevel, rest);
    }
  }

  /** The inner digit that is too small lies behind the second one. */
  lemma InnerDigitBehind(m: nat)
    requires m >= 10 && !InnerDigitsAtLeastTwo(Numeral(m)) && Numeral(m)[1] >= '2'
    ensures |Numeral(m)| > 2 && Numeral(DropLeadingDigit(m)) == Numeral(m)[1..]
    ensures !InnerDigitsAtLeastTwo(Numeral(DropLeadingDigit(m)))
  {
    TwoDigits(m);
    DropKeepsRest(m);
    hide Numeral, DropLeadingDigit;
    var s := Numeral(m);
    var i :| 1 <= i < |s| - 1 && s[i] < '2';
    assert s[1..][i - 1] == s[i];
  }

  /** Behind the bound's own leading digit both languages ask the same of the rest. */
  lemma OwnDigit(m: nat, decimals: int, topLevel: bool, rest: string)
    requires 2 < |Numeral(m)| + 1 < decimals && Numeral(m)[1] != '0'
    requires AllDigits(rest)
    ensures var w := [Numeral(m)[0]] + rest;
      && (AtLeast(m, decimals, topLevel, w) <==> AtLeast(DropLeadingDigit(m), decimals - 1, false, rest))
      && (Wanted(m, decimals, topLevel, w) <==> Wanted(DropLeadingDigit(m), decimals - 1, false, rest))
  {
    var s := Numeral(m);
    var w := [s[0]] + rest;
    TwoDigits(m);
    DropKeepsRest(m);
    assert w[1..] == rest;
    AllDigitsSplit(w);
    assert |rest| == |s| - 1 ==> (LexLe(s, w) <==> LexLe(s[1..], rest));
  }

  // ---------------------------------------------------------------- the three bound forms

  lemma MinusZero(w: string)
    requires HasMinus(w) && IsCanonical(w[1..])
    ensures w == "-0" <==> Value(w[1..]) == 0
  {
    NumeralUnique(w[1..]);
    assert w == "-" + w[1..];
  }

  lemma MinimumWanted(m: nat, w: string)
    requires m <= INT_MAX
    ensures AboveMinimum(m, w) <==> Wanted(m, DECIMALS, true, w)
  {
    if IsCanonical(w) { ShortLexLeIsNumeric(Numeral(m), w); }
    if HasMinus(w) && IsCanonical(w[1..]) { MinusZero(w); }
  }

  /** Only a minimum m >= 0: exact if and only if no inner digit of the minimum is 0 or 1. */
  lemma NonNegativeMinimumExact(m: nat)
    requires m <= INT_MAX
    ensures (forall w :: AtLeast(m, DECIMALS, true, w) <==> AboveMinimum(m, w)) <==> InnerDigitsAtLeastTwo(Numeral(m))
  {
    IntLength(m);
    if InnerDigitsAtLeastTwo(Numeral(m)) {
      forall w ensures AtLeast(m, DECIMALS, true, w) <==> AboveMinimum(m, w) {
        AtTopLevel(m, DECIMALS, w);
        MinimumWanted(m, w);
      }
    } else {
      var w := InnerDigitFails(m, DECIMALS, true);
      MinimumWanted(m, w);
    }
  }

  lemma NegativeMinimumExact(min: int, w: string)
    requires -INT_MAX < min < 0
    ensures Emitted(min, INT_MAX, DECIMALS, true, w) <==> AboveMinimum(min, w)
  {
    if w == "-0" { assert w[1..] == "0" && IsCanonical("0"); }
  }

  /** Only a minimum. */
  lemma MinimumOnlyExact(min: int)
    requires -INT_MAX < min <= INT_MAX
    ensures (forall w :: Emitted(min, INT_MAX, DECIMALS, true, w) <==> AboveMinimum(min, w)) <==>
            (min >= 0 ==> InnerDigitsAtLeastTwo(Numeral(min)))
  {
    if min < 0 {
      forall w ensures Emitted(min, INT_MAX, DECIMALS, true, w) <==> AboveMinimum(min, w) {
        NegativeMinimumExact(min, w);
      }
    } else {
      NonNegativeMinimumExact(min);
      assert forall w :: Emitted(min, INT_MAX, DECIMALS, true, w) <==> AtLeast(min, DECIMALS, true, w);
    }
  }

  /** The negative maxima for which the magnitude, compiled as a minimum below the top level, is still exact. */
  predicate ExactMagnitude(s: string) {
    |s| >= 2 && s[0] == '1' && InnerDigitsAtLeastTwo(s)
  }

  /** Only a maximum. */
  lemma MaximumOnlyExact(max: int)
    requires INT_MIN < max < INT_MAX
    ensures (forall w :: Emitted(INT_MIN, max, DECIMALS, true, w) <==> BelowMaximum(max, w)) <==>
            (max < 0 ==> ExactMagnitude(Numeral(-max)))
  {
    if max >= 0 {
      forall w ensures Emitted(INT_MIN, max, DECIMALS, true, w) <==> BelowMaximum(max, w) {
        NonNegativeMaximumExact(max, w);
      }
    } else if ExactMagnitude(Numeral(-max)) {
      forall w ensures Emitted(INT_MIN, max, DECIMALS, true, w) <==> BelowMaximum(max, w) {
        NegativeMaximumMeaning(max, w);
        if |w| > 0 { NegativeMaximumExact(-max, w[1..]); }
      }
    } else {
      var t := NegativeMaximumFails(-max);
      assert ("-" + t)[1..] == t;
      NegativeMaximumMeaning(max, "-" + t);
    }
  }

  lemma NonNegativeMaximumExact(max: int, w: string)
    requires 0 <= max < INT_MAX
    ensures Emitted(INT_MIN, max, DECIMALS, true, w) <==> BelowMaximum(max, w)
  {
    if HasMinus(w) && IsCanonical(w[1..]) { MinusZero(w); }
  }

  lemma NegativeMaximumMeaning(max: int, w: string)
    requires INT_MIN < max < 0
    ensures BelowMaximum(max, w) <==> HasMinus(w) && Wanted(-max, DECIMALS, true, w[1..])
  {
    if HasMinus(w) && IsCanonical(w[1..]) {
      MinusZero(w);
      ShortLexLeIsNumeric(Numeral(-max), w[1..]);
    }
  }

  lemma NegativeMaximumExact(m: nat, t: string)
    requires m <= INT_MAX && ExactMagnitude(Numeral(m))
    ensures AtLeast(m, DECIMALS, false, t) <==> Wanted(m, DECIMALS, true, t)
  {
    IntLength(m);
    TwoDigits(m);
    AtTopLevel(m, DECIMALS, t);
  }

  lemma NegativeMaximumFails(m: nat) returns (t: string)
    requires 0 < m <= INT_MAX && !ExactMagnitude(Numeral(m))
    ensures !(AtLeast(m, DECIMALS, false, t) <==> Wanted(m, DECIMALS, true, t))
  {
    IntLength(m);
    TwoDigits(m);
    if m < 10 {
      t := "00";
    } else if Numeral(m)[0] == '1' {
      t := InnerDigitFails(m, DECIMALS, true);
    } else {
      t := Repeat('0', |Numeral(m)| + 1);
    }
  }

  /**
   * Both bounds are given: exact if and only if neither is taken for a missing one, directly or when negated. A
   * maximum of INT_MAX and a minimum of INT_MIN are dropped, and so is a minimum of -INT_MAX, which is negated into a
   * maximum.
   */
  lemma BothBoundsExact(min: int, max: int)
    requires INT_MIN <= min <= max <= INT_MAX && max > INT_MIN && !Unbounded(min, max)
    ensures (forall w :: Emitted(min, max, DECIMALS, true, w) <==> InRange(min, max, w)) <==>
            min > -INT_MAX && max < INT_MAX
  {
    if min > -INT_MAX && max < INT_MAX {
      forall w ensures Emitted(min, max, DECIMALS, true, w) <==> InRange(min, max, w) {
        BothBoundsMeaning(min, max, w);
      }
    } else {
      var w := DroppedBound(min, max);
      assert Emitted(min, max, DECIMALS, true, w) && !InRange(min, max, w);
    }
  }

  /** Eleven nines, with the sign of the side on which the bound is dropped. */
  lemma DroppedBound(min: int, max: int) returns (w: string)
    requires INT_MIN <= min <= max <= INT_MAX && max > INT_MIN && !Unbounded(min, max)
    requires min <= -INT_MAX || max == INT_MAX
    ensures Emitted(min, max, DECIMALS, true, w) && !InRange(min, max, w)
  {
    var t := Repeat('9', 11);
    ElevenNines();
    if max == INT_MAX {
      w := t;
      if min >= 0 {
        IntLength(min);
        NinesAccepted(min, DECIMALS, true, 11);
      }
    } else {
      w := "-" + t;
      assert w[1..] == t;
      var lo: nat := if max < 0 then -max else 0;
      IntLength(lo);
      NinesAccepted(lo, DECIMALS, min == -INT_MAX, 11);
    }
  }

  lemma BothBoundsMeaning(min: int, max: int, w: string)
    requires -INT_MAX < min <= max < INT_MAX
    ensures Emitted(min, max, DECIMALS, true, w) <==> InRange(min, max, w)
  {
    if w == "-0" { assert w[1..] == "0" && IsCanonical("0"); }
    if HasMinus(w) && IsCanonical(w[1..]) { MinusZero(w); }
  }

  lemma ElevenNines()
    ensures var t := Repeat('9', 11); IsCanonical(t) && Value(t) > INT_MAX
  {
    var t := Repeat('9', 11);
    CanonicalLowerBound(t);
    assert Pow10(5) == 100_000;
    assert Pow10(10) == 100_000 * Pow10(5);
  }

  lemma ReversedTens(w: string)
    ensures Reads("21", "13", w) <==>
            |w| == 2 && ((w[0] == '1' && '0' <= w[1] <= '3') || (w[0] == '2' && '1' <= w[1] <= '9'))
  {
    assert "21"[1..] == "1" && "13"[1..] == "3" && "1"[1..] == "" && "3"[1..] == "";
    assert Repeat('0', 1) == "0";
    if |w| > 0 {
      AllDigitsSplit(w);
      var v := w[1..];
      assert NotLess("21", w) <==> AllDigits(w) && |w| == 2 && ('2' < w[0] || ('2' == w[0] && LexLe("1", v)));
      if |v| == 1 {
        assert v == [w[1]] && v[1..] == "" && v[..1] == v;
        assert LexLe("1", v) <==> '1' <= w[1];
        assert LexLe(v, "3") <==> w[1] <= '3';
      }
      assert UpTo(1, "3", v) <==> |v| == 1 && '0' <= v[0] <= '3';
    }
  }

  lemma TwoDigitNumeral(n: nat, d: nat, e: nat)
    requires n == 10 * d + e && 0 < d < 10 && e < 10
    ensures Numeral(n) == [DigitChar(d), DigitChar(e)]
  {
    assert n / 10 == d && n % 10 == e;
    assert Numeral(d) == [DigitChar(d)];
  }

  lemma MisreadTens(min: nat, max: nat, w: string)
    requires min > max && Numeral(min) == "21" && Numeral(max) == "13"
    ensures Misread(min, max, w) <==> Reads("21", "13", w)
  {
    hide Reads, Numeral, Value;
    if IsCanonical(w) && |w| < 2 { assert !ShortLexLe("21", w); }
  }

  /** From 21 up to 13 the numbers from 10 to 13 and from 21 to 29 are accepted. */
  lemma WrongOrderExample(topLevel: bool, w: string)
    ensures Emitted(21, 13, DECIMALS, topLevel, w) <==>
            |w| == 2 && ((w[0] == '1' && '0' <= w[1] <= '3') || (w[0] == '2' && '1' <= w[1] <= '9'))
  {
    hide Reads, Numeral, Misread;
    TwoDigitNumeral(21, 2, 1);
    TwoDigitNumeral(13, 1, 3);
    assert DigitChar(2) == '2' && DigitChar(1) == '1' && DigitChar(3) == '3';
    MisreadTens(21, 13, w);
    ReversedTens(w);
  }

  // ---------------------------------------------------------------- the schema rule for integers

  function Bound(inclusive: Option<int>, exclusive: Option<int>, step: int, missing: int): int {
    match inclusive
    case Some(b) => b
    case None => match exclusive case Some(b) => b + step case None => missing
  }

  /** An integer satisfies both lower keywords, as far as they are given (section 6.2 of the validation vocabulary). */
  predicate AboveKeywords(minimum: Option<int>, exclusiveMinimum: Option<int>, x: int) {
    (minimum.Some? ==> minimum.value <= x) && (exclusiveMinimum.Some? ==> exclusiveMinimum.value < x)
  }

  predicate BelowKeywords(maximum: Option<int>, exclusiveMaximum: Option<int>, x: int) {
    (maximum.Some? ==> x <= maximum.value) && (exclusiveMaximum.Some? ==> x < exclusiveMaximum.value)
  }

  /** The exclusive keyword is not looked at beside the other one: they are kept unless it is the tighter one. */
  lemma LowerKeywordsKept(minimum: Option<int>, exclusiveMinimum: Option<int>, missing: int)
    requires minimum.Some? || exclusiveMinimum.Some?
    ensures (forall x :: Bound(minimum, exclusiveMinimum, 1, missing) <= x
                         <==> AboveKeywords(minimum, exclusiveMinimum, x)) <==>
            (minimum.Some? && exclusiveMinimum.Some? ==> exclusiveMinimum.value < minimum.value)
  {
    if minimum.Some? && exclusiveMinimum.Some? && exclusiveMinimum.value >= minimum.value {
      assert !AboveKeywords(minimum, exclusiveMinimum, minimum.value);
    }
  }

  lemma UpperKeywordsKept(maximum: Option<int>, exclusiveMaximum: Option<int>, missing: int)
    requires maximum.Some? || exclusiveMaximum.Some?
    ensures (forall x :: x <= Bound(maximum, exclusiveMaximum, -1, missing)
                         <==> BelowKeywords(maximum, exclusiveMaximum, x)) <==>
            (maximum.Some? && exclusiveMaximum.Some? ==> exclusiveMaximum.value > maximum.value)
  {
    if maximum.Some? && exclusiveMaximum.Some? && exclusiveMaximum.value <= maximum.value {
      assert !BelowKeywords(maximum, exclusiveMaximum, maximum.value);
    }
  }

  /** A rule came out, and it accepts exactly the integers between the bounds. */
  ghost predicate KeepsBoth(r: Outcome<Gbnf>, min: int, max: int) {
    r.Done? && forall w :: Accepts(r.value, w) <==> InRange(min, max, w)
  }

  ghost predicate KeepsMinimum(r: Outcome<Gbnf>, min: int) {
    r.Done? && forall w :: Accepts(r.value, w) <==> AboveMinimum(min, w)
  }

  ghost predicate KeepsMaximum(r: Outcome<Gbnf>, max: int) {
    r.Done? && forall w :: Accepts(r.value, w) <==> BelowMaximum(max, w)
  }

  /** What the compiler promises of a result. */
  ghost predicate IsBuilt(r: Outcome<Gbnf>, min: int, max: int) {
    && (r.Raised? <==> Unbounded(min, max))
    && (r.Done? ==> IsEmitted(r.value, min, max, DECIMALS, true))
    && (r.Done? && min > max ==> (AcceptsNothing(r.value) <==> SameButLastDigit(min, max)))
  }

  /** The condition under which two given bounds are kept. */
  predicate BothHold(min: int, max: int) {
    if min <= max then min > -INT_MAX && max < INT_MAX else SameButLastDigit(min, max)
  }

  lemma BothGiven(r: Outcome<Gbnf>, min: int, max: int)
    requires IsInt(min) && IsInt(max) && (max == INT_MIN ==> min >= 0) && IsBuilt(r, min, max)
    ensures KeepsBoth(r, min, max) <==> BothHold(min, max)
  {
    hide Emitted;
    if r.Done? && min <= max {
      BothBoundsExact(min, max);
      assert (forall w :: Accepts(r.value, w) <==> Emitted(min, max, DECIMALS, true, w));
    }
  }

  lemma MinimumGiven(r: Outcome<Gbnf>, min: int)
    requires IsInt(min) && IsBuilt(r, min, INT_MAX)
    ensures KeepsMinimum(r, min) <==> min > -INT_MAX && (min >= 0 ==> InnerDigitsAtLeastTwo(Numeral(min)))
  {
    hide Emitted, AboveMinimum;
    if r.Done? { MinimumOnlyExact(min); }
  }

  lemma MaximumGiven(r: Outcome<Gbnf>, max: int)
    requires INT_MIN < max <= INT_MAX && IsBuilt(r, INT_MIN, max)
    ensures KeepsMaximum(r, max) <==> max < INT_MAX && (max < 0 ==> ExactMagnitude(Numeral(-max)))
  {
    hide Emitted, BelowMaximum;
    if r.Done? { MaximumOnlyExact(max); }
  }

  /** The rule for an integer schema, which gives at least one of the four bound keywords. */
  method IntegerRule(minimum: Option<int>, exclusiveMinimum: Option<int>,
                     maximum: Option<int>, exclusiveMaximum: Option<int>)
    returns (r: Outcome<Gbnf>)
    requires minimum.Some? || exclusiveMinimum.Some? || maximum.Some? || exclusiveMaximum.Some?
    requires var min := Bound(minimum, exclusiveMinimum, 1, INT_MIN);
             var max := Bound(maximum, exclusiveMaximum, -1, INT_MAX);
             IsInt(min) && IsInt(max) && (max == INT_MIN ==> min >= 0)
    ensures var min := Bound(minimum, exclusiveMinimum, 1, INT_MIN);
            var max := Bound(maximum, exclusiveMaximum, -1, INT_MAX);
            var lower, upper := minimum.Some? || exclusiveMinimum.Some?, maximum.Some? || exclusiveMaximum.Some?;
            && (lower && upper ==> (KeepsBoth(r, min, max) <==> BothHold(min, max)))
            && (lower && !upper ==>
                (KeepsMinimum(r, min) <==>
                 min > -INT_MAX && (min >= 0 ==> InnerDigitsAtLeastTwo(Numeral(min)))))
            && (!lower && upper ==>
                (KeepsMaximum(r, max) <==> max < INT_MAX && (max < 0 ==> ExactMagnitude(Numeral(-max)))))
            && (r.Raised? <==> max == INT_MAX && (min == INT_MIN || min == -INT_MAX))
  {
    hide KeepsBoth, KeepsMinimum, KeepsMaximum, BothHold, IsEmitted, AcceptsNothing;
    hide InnerDigitsAtLeastTwo, ExactMagnitude;
    var min, max := INT_MIN, INT_MAX;
    if minimum.Some? {
      min := minimum.value;
    } else if exclusiveMinimum.Some? {
      min := exclusiveMinimum.value + 1;
    }
    if maximum.Some? {
      max := maximum.value;
    } else if exclusiveMaximum.Some? {
      max := exclusiveMaximum.value - 1;
    }
    r := BuildMinMaxInt(min, max, DECIMALS, true);
    BothGiven(r, min, max);
    if max == INT_MAX { MinimumGiven(r, min); }
    if min == INT_MIN { MaximumGiven(r, max); }
  }
}
