/** Decimal numerals: the digit strings that `std::to_string` writes and `std::stoi` reads. */
module Numerals {
  predicate IsDigit(c: char) { '0' <= c <= '9' }

  predicate AllDigits(s: string) { forall i :: 0 <= i < |s| ==> IsDigit(s[i]) }

  function DigitOf(c: char): nat
    requires IsDigit(c)
  {
    c as int - '0' as int
  }

  function DigitChar(d: nat): (c: char)
    requires d < 10
    ensures IsDigit(c) && DigitOf(c) == d
  {
    (d + '0' as int) as char
  }

  /** The number a digit string denotes, leading zeros allowed. */
  function Value(s: string): nat
    requires AllDigits(s)
  {
    if s == "" then 0 else 10 * Value(s[..|s| - 1]) + DigitOf(s[|s| - 1])
  }

  /** A numeral without superfluous leading zeros (section 6 of RFC 8259). */
  predicate IsCanonical(s: string) {
    AllDigits(s) && s != "" && (s[0] == '0' ==> |s| == 1)
  }

  /** `std::to_string` of a non-negative number. */
  function Numeral(n: nat): (s: string)
    ensures IsCanonical(s) && Value(s) == n && (n > 0 ==> s[0] != '0')
  {
    if n < 10 then [DigitChar(n)]
    else
      var s := Numeral(n / 10) + [DigitChar(n % 10)];
      assert s[..|s| - 1] == Numeral(n / 10);
      s
  }

  function Pow10(k: nat): (p: nat)
    ensures p >= 1
  {
    if k == 0 then 1 else 10 * Pow10(k - 1)
  }

  function Repeat(c: char, n: nat): (s: string)
    ensures |s| == n && forall i :: 0 <= i < n ==> s[i] == c
  {
    seq(n, _ => c)
  }

  /** Lexicographic order on strings of equal length. */
  predicate LexLe(a: string, b: string)
    requires |a| == |b|
  {
    a == "" || a[0] < b[0] || (a[0] == b[0] && LexLe(a[1..], b[1..]))
  }

  /** The order of canonical numerals: shorter first, then lexicographic. */
  predicate ShortLexLe(a: string, b: string) {
    |a| < |b| || (|a| == |b| && LexLe(a, b))
  }

  lemma {:induction false} LexLeRefl(a: string)
    ensures LexLe(a, a)
  {
    if a != "" { LexLeRefl(a[1..]); }
  }

  /** Nothing of the length exceeds a string of nines, and nothing is below a string of zeros. */
  lemma {:induction false} LexLeExtremes(s: string)
    requires AllDigits(s)
    ensures LexLe(s, Repeat('9', |s|)) && LexLe(Repeat('0', |s|), s)
  {
    if s != "" {
      LexLeExtremes(s[1..]);
      assert Repeat('9', |s|)[1..] == Repeat('9', |s| - 1);
      assert Repeat('0', |s|)[1..] == Repeat('0', |s| - 1);
    }
  }

  lemma {:induction false} ValueBound(s: string)
    requires AllDigits(s)
    ensures Value(s) < Pow10(|s|)
  {
    if s != "" { ValueBound(s[..|s| - 1]); }
  }

  lemma MulTen(d: nat, p: nat)
    ensures d * (10 * p) == 10 * (d * p)
  {
  }

  lemma MulAtLeast(d: nat, p: nat)
    requires d >= 1
    ensures d * p >= p
  {
  }

  /** The leading digit weighs ten to the number of digits after it. */
  lemma {:induction false} ValueFromHead(s: string)
    requires AllDigits(s) && s != ""
    ensures AllDigits(s[1..])
    ensures Value(s) == DigitOf(s[0]) * Pow10(|s| - 1) + Value(s[1..])
  {
    if |s| > 1 {
      var init := s[..|s| - 1];
      ValueFromHead(init);
      assert s[1..][..|s| - 2] == init[1..];
      assert init[0] == s[0] && s[1..][|s| - 2] == s[|s| - 1];
      MulTen(DigitOf(s[0]), Pow10(|s| - 2));
    }
  }

  /** On strings of one length the lexicographic order is the numeric order. */
  lemma {:induction false} LexLeIsNumeric(a: string, b: string)
    requires AllDigits(a) && AllDigits(b) && |a| == |b|
    ensures LexLe(a, b) <==> Value(a) <= Value(b)
  {
    if a != "" {
      ValueFromHead(a);
      ValueFromHead(b);
      ValueBound(a[1..]);
      ValueBound(b[1..]);
      LexLeIsNumeric(a[1..], b[1..]);
      var p := Pow10(|a| - 1);
      if a[0] < b[0] { HeadDominates(DigitOf(a[0]), DigitOf(b[0]), p, Value(a[1..]), Value(b[1..])); }
      if b[0] < a[0] { HeadDominates(DigitOf(b[0]), DigitOf(a[0]), p, Value(b[1..]), Value(a[1..])); }
    }
  }

  lemma HeadDominates(d: nat, e: nat, p: nat, x: nat, y: nat)
    requires d < e && x < p
    ensures d * p + x < e * p + y
  {
    assert (d + 1) * p <= e * p;
    assert (d + 1) * p == d * p + p;
  }

  /** A canonical numeral with a non-zero leading digit is at least ten to its length minus one. */
  lemma CanonicalLowerBound(s: string)
    requires AllDigits(s) && s != "" && s[0] != '0'
    ensures Value(s) >= Pow10(|s| - 1)
  {
    ValueFromHead(s);
    MulAtLeast(DigitOf(s[0]), Pow10(|s| - 1));
  }

  lemma {:induction false} Pow10Monotone(j: nat, k: nat)
    requires j <= k
    ensures Pow10(j) <= Pow10(k)
    decreases k
  {
    if j < k { Pow10Monotone(j, k - 1); }
  }

  /** Shortlex order is the numeric order of canonical numerals. */
  lemma ShortLexLeIsNumeric(a: string, b: string)
    requires IsCanonical(a) && IsCanonical(b)
    ensures ShortLexLe(a, b) <==> Value(a) <= Value(b)
  {
    if |a| == |b| {
      LexLeIsNumeric(a, b);
    } else if |a| < |b| {
      ValueBelowLonger(a, b);
    } else {
      ValueBelowLonger(b, a);
    }
  }

  lemma ValueBelowLonger(a: string, b: string)
    requires AllDigits(a) && a != "" && IsCanonical(b) && |a| < |b|
    ensures Value(a) < Value(b)
  {
    ValueBound(a);
    Pow10Monotone(|a|, |b| - 1);
    if b[0] != '0' { CanonicalLowerBound(b); }
  }

  /** Distinct strings of one length are ordered one way only. */
  lemma {:induction false} LexLeAntisymmetric(a: string, b: string)
    requires |a| == |b| && LexLe(a, b) && LexLe(b, a)
    ensures a == b
  {
    if a != "" { LexLeAntisymmetric(a[1..], b[1..]); }
  }

  /** A number has one canonical numeral. */
  lemma NumeralUnique(s: string)
    requires IsCanonical(s)
    ensures s == Numeral(Value(s))
  {
    var t := Numeral(Value(s));
    ShortLexLeIsNumeric(s, t);
    ShortLexLeIsNumeric(t, s);
    LexLeAntisymmetric(s, t);
  }
}
