/**
 * What a lone minimum lets through (common/json-schema-to-grammar.cpp, _build_min_max_int), told by the digits of its
 * numeral: where a text first differs from those that lead a recursion, and how many digits follow.
 */
module MinimumTexts {
  import opened Arithmetic
  import opened Grammars
  import opened Numerals
  import opened IntRange

  // ---------------------------------------------------------------- dropping the leading digit

  /** It leaves the remainder by its power of ten. */
  lemma DropIsRemainder(m: nat)
    requires m >= 10
    ensures DropLeadingDigit(m) == m % Pow10(|Numeral(m)| - 1)
  {
    var s := Numeral(m);
    TwoDigits(m);
    ValueFromHead(s);
    ValueBound(s[1..]);
    hide Pow10, Value, Numeral;
    Divided(m, DigitOf(s[0]), Pow10(|s| - 1), Value(s[1..]));
  }

  /** The digits of s that are not zero, in order. */
  function NonZero(s: string): string {
    if s == "" then "" else (if s[0] == '0' then "" else [s[0]]) + NonZero(s[1..])
  }

  lemma {:induction false} NonZeroConcat(a: string, b: string)
    ensures NonZero(a + b) == NonZero(a) + NonZero(b)
  {
    if a == "" {
      assert a + b == b;
    } else {
      assert (a + b)[1..] == a[1..] + b;
      NonZeroConcat(a[1..], b);
    }
  }

  lemma {:induction false} NonZeroOfZeros(z: string)
    requires forall i :: 0 <= i < |z| ==> z[i] == '0'
    ensures NonZero(z) == ""
  {
    if z != "" { NonZeroOfZeros(z[1..]); }
  }

  /** Leading zeros are forgotten, down to the last digit. */
  lemma {:induction false} StripZeros(t: string) returns (q: nat)
    requires AllDigits(t) && t != ""
    ensures q < |t| && (forall i :: 0 <= i < q ==> t[i] == '0') && (q == |t| - 1 || t[q] != '0')
    ensures Numeral(Value(t)) == t[q..]
    decreases |t|
  {
    if t[0] != '0' || |t| == 1 {
      q := 0;
      NumeralUnique(t);
      assert t[0..] == t;
    } else {
      q := StripZeros(t[1..]);
      ValueFromHead(t);
      assert Value(t) == Value(t[1..]);
      assert t[1..][q..] == t[q + 1..];
      assert t[1..][q] == t[q + 1];
      forall i | 0 <= i < q + 1 ensures t[i] == '0' {
        if i > 0 { assert t[1..][i - 1] == '0'; }
      }
      q := q + 1;
    }
  }

  // ---------------------------------------------------------------- the texts

  /** The decimals left behind k digits: one fewer for each, but never fewer than one. */
  function Left(decimals: int, k: nat): (room: int)
    ensures room >= 1
  {
    if decimals - k > 1 then decimals - k else 1
  }

  /** A recursion begins at the first digit, at every later one that is not zero, and at the last one. */
  predicate Leads(s: string, p: nat) {
    p < |s| && (s[p] != '0' || p == |s| - 1)
  }

  /** As many digits as `least`, and no more than there is room for unless `least` is more. */
  predicate Fits(digits: int, least: int, room: int) {
    least <= digits && (digits <= room || digits == least)
  }

  /** Up to position p of the numeral, zeros skipped, the text agrees, and it goes on. */
  predicate AgreesBefore(s: string, w: string, p: nat)
    requires p < |s|
  {
    NonZero(s[..p]) < w
  }

  /**
   * Then, at a digit that is not the last: a smaller digit must be followed by at least as many digits as the numeral
   * has from there on, and the numeral must not have a 1; a greater one by as many as the numeral has behind it. An
   * equal digit decides nothing.
   */
  predicate DecidedAt(s: string, decimals: int, topLevel: bool, w: string, p: nat)
    requires p < |s| && AgreesBefore(s, w, p)
  {
    var j := |NonZero(s[..p])|;
    var behind, room := |w| - j - 1, Left(decimals, j + 1);
    if w[j] < s[p] then s[p] > '1' && (topLevel && j == 0 ==> w[j] >= '1') && Fits(behind, |s| - p, room)
    else w[j] > s[p] && Fits(behind, |s| - p - 1, room)
  }

  /** And at the last digit: not less without a further digit behind it. */
  predicate DecidedAtLast(s: string, decimals: int, topLevel: bool, w: string)
    requires s != "" && AgreesBefore(s, w, |s| - 1)
  {
    var j, last := |NonZero(s[..|s| - 1])|, s[|s| - 1];
    var behind, room := |w| - j - 1, Left(decimals, j + 1);
    if last == '0' then
      if topLevel && j == 0 then w == "0" || (w[0] != '0' && behind <= room)
      else behind + 1 <= Left(decimals, j)
    else if w[j] < last then (topLevel && j == 0 ==> w[j] >= '1') && 1 <= behind <= room
    else behind <= room
  }

  /** The text is decided at position p of the numeral. */
  predicate Decided(s: string, decimals: int, topLevel: bool, w: string, p: nat) {
    Leads(s, p) && AgreesBefore(s, w, p) &&
    if p < |s| - 1 then DecidedAt(s, decimals, topLevel, w, p) else DecidedAtLast(s, decimals, topLevel, w)
  }

  ghost predicate FromMinimum(m: nat, decimals: int, topLevel: bool, w: string) {
    AllDigits(w) && exists p: nat :: Decided(Numeral(m), decimals, topLevel, w, p)
  }

  // ---------------------------------------------------------------- they are what the recursion accepts

  lemma OneDigit(m: nat, decimals: int, topLevel: bool, w: string)
    requires m <= 9 && decimals >= 1
    ensures AtLeast(m, decimals, topLevel, w) <==> FromMinimum(m, decimals, topLevel, w)
  {
    var s := Numeral(m);
    assert s == [DigitChar(m)] && s[..0] == "" && NonZero("") == "";
    if AllDigits(w) && w != "" {
      assert Decided(s, decimals, topLevel, w, 0) <==> DecidedAtLast(s, decimals, topLevel, w);
      assert forall p: nat :: Leads(s, p) ==> p == 0;
    }
  }

  /** Behind the leading digit the numeral goes on at position q. */
  lemma Dropped(m: nat) returns (q: nat)
    requires m >= 10
    ensures var s := Numeral(m);
            && 1 <= q < |s| && (forall i :: 1 <= i < q ==> s[i] == '0') && Leads(s, q)
            && Numeral(DropLeadingDigit(m)) == s[q..]
  {
    var s := Numeral(m);
    TwoDigits(m);
    hide Numeral, Value;
    var r := StripZeros(s[1..]);
    q := r + 1;
    assert s[1..][r..] == s[q..] && s[1..][r] == s[q];
    forall i | 1 <= i < q ensures s[i] == '0' { assert s[1..][i - 1] == '0'; }
  }

  lemma AgreeBehind(s: string, q: nat, k: nat)
    requires 1 <= q <= q + k <= |s| && s[0] != '0' && forall i :: 1 <= i < q ==> s[i] == '0'
    ensures NonZero(s[..q + k]) == [s[0]] + NonZero(s[q..][..k])
  {
    var zeros := s[1..q];
    assert s[..q + k] == [s[0]] + (zeros + s[q..][..k]);
    NonZeroConcat(zeros, s[q..][..k]);
    NonZeroOfZeros(zeros);
    assert ([s[0]] + (zeros + s[q..][..k]))[1..] == zeros + s[q..][..k];
  }

  lemma DecidedBehind(s: string, q: nat, decimals: int, topLevel: bool, w: string, k: nat)
    requires 1 <= q <= q + k < |s| && s[0] != '0' && decimals >= 1 && forall i :: 1 <= i < q ==> s[i] == '0'
    ensures Decided(s, decimals, topLevel, w, q + k) <==>
            w != "" && w[0] == s[0] && Decided(s[q..], Left(decimals, 1), false, w[1..], k)
  {
    var t, less := s[q..], Left(decimals, 1);
    var lead := NonZero(t[..k]);
    AgreeBehind(s, q, k);
    hide NonZero;
    assert t[k] == s[q + k];
    assert Leads(s, q + k) <==> Leads(t, k);
    if w != "" {
      var v := w[1..];
      assert [s[0]] + lead < w <==> w[0] == s[0] && lead < v;
      if w[0] == s[0] && lead < v {
        assert w[|lead| + 1] == v[|lead|];
        assert Left(decimals, |lead| + 2) == Left(less, |lead| + 1) && Left(decimals, |lead| + 1) == Left(less, |lead|);
        if k < |t| - 1 {
          assert DecidedAt(s, decimals, topLevel, w, q + k) <==> DecidedAt(t, less, false, v, k);
        } else {
          assert DecidedAtLast(s, decimals, topLevel, w) <==> DecidedAtLast(t, less, false, v);
        }
      }
    }
  }

  lemma DecidedAtHead(m: nat, decimals: int, topLevel: bool, w: string)
    requires m >= 10 && AllDigits(w) && decimals >= 1
    ensures var s := Numeral(m);
            && |s| > 1
            && (Decided(s, decimals, topLevel, w, 0) <==>
                w != "" && w[0] != s[0] && AtLeast(m, decimals, topLevel, w))
  {
    hide Numeral, DropLeadingDigit;
    var s := Numeral(m);
    TwoDigits(m);
    assert s[..0] == "" && NonZero("") == "";
  }

  /** Where the recursion goes on at q, what is decided there or further on is decided in the rest of the numeral. */
  lemma DecidedSomewhere(s: string, q: nat, decimals: int, topLevel: bool, w: string)
    requires 1 <= q < |s| && s[0] != '0' && decimals >= 1 && (forall i :: 1 <= i < q ==> s[i] == '0') && w != ""
    ensures (exists p: nat :: Decided(s, decimals, topLevel, w, p)) <==>
            Decided(s, decimals, topLevel, w, 0) ||
            (w[0] == s[0] && exists k: nat :: Decided(s[q..], Left(decimals, 1), false, w[1..], k))
  {
    hide NonZero, DecidedAt, DecidedAtLast, AgreesBefore;
    if p: nat :| Decided(s, decimals, topLevel, w, p) && p > 0 {
      assert p >= q;
      DecidedBehind(s, q, decimals, topLevel, w, p - q);
    }
    if k: nat :| Decided(s[q..], Left(decimals, 1), false, w[1..], k) && w[0] == s[0] {
      DecidedBehind(s, q, decimals, topLevel, w, k);
    }
  }

  /** The recursion on the numbers left accepts exactly these texts. */
  lemma {:induction false} MinimumTexts(m: nat, decimals: int, topLevel: bool, w: string)
    requires decimals >= 1
    ensures AtLeast(m, decimals, topLevel, w) <==> FromMinimum(m, decimals, topLevel, w)
    decreases m
  {
    if m <= 9 {
      OneDigit(m, decimals, topLevel, w);
    } else if AllDigits(w) && w != "" {
      var s, rest, less := Numeral(m), DropLeadingDigit(m), LessDecimals(decimals);
      var q := Dropped(m);
      DecidedAtHead(m, decimals, topLevel, w);
      AllDigitsSplit(w);
      MinimumTexts(rest, less, false, w[1..]);
      assert w[0] == s[0] ==> (AtLeast(m, decimals, topLevel, w) <==> AtLeast(rest, less, false, w[1..]));
      hide Decided, Numeral, DropLeadingDigit, AtLeast;
      DecidedSomewhere(s, q, decimals, topLevel, w);
      assert less == Left(decimals, 1);
      assert FromMinimum(rest, less, false, w[1..]) <==> exists k: nat :: Decided(s[q..], less, false, w[1..], k);
    } else {
      AtLeastIsDigits(m, decimals, topLevel, w);
      forall p: nat ensures w == "" ==> !Decided(Numeral(m), decimals, topLevel, w, p) {}
    }
  }

  // ---------------------------------------------------------------- what is emitted

  /** A lone minimum that is not negative, and the magnitude of a lone negative maximum. */
  lemma LoneBoundEmitted(bound: int, decimals: int, topLevel: bool, w: string)
    requires INT_MIN < bound <= INT_MAX && decimals >= 1
    ensures bound >= 0 ==>
              (Emitted(bound, INT_MAX, decimals, topLevel, w) <==> FromMinimum(bound, decimals, topLevel, w))
    ensures bound < 0 ==>
              (Emitted(INT_MIN, bound, decimals, topLevel, w)
               <==> w != "" && w[0] == '-' && FromMinimum(-bound, decimals, false, w[1..]))
  {
    hide AtLeast, FromMinimum;
    if bound >= 0 {
      MinimumTexts(bound, decimals, topLevel, w);
    } else if w != "" {
      MinimumTexts(-bound, decimals, false, w[1..]);
    }
  }

  /** A minimum of -INT_MAX beside a negative maximum reads as none, once it is negated. */
  lemma DroppedMinimumEmitted(max: int, decimals: int, topLevel: bool, w: string)
    requires -INT_MAX <= max < 0 && decimals >= 1
    ensures Emitted(-INT_MAX, max, decimals, topLevel, w)
            <==> w != "" && w[0] == '-' && FromMinimum(-max, decimals, true, w[1..])
  {
    hide AtLeast, FromMinimum;
    if w != "" { MinimumTexts(-max, decimals, true, w[1..]); }
  }

  lemma Numeral105()
    ensures Numeral(105) == "105" && NonZero("105"[..0]) == "" && NonZero("105"[..2]) == "1"
  {
    assert Numeral(10) == Numeral(1) + ['0'];
    assert Numeral(105) == Numeral(10) + ['5'];
    assert "105"[..0] == "" && "105"[..2] == "10" && "10"[1..] == "0" && "0"[1..] == "";
  }

  /** The zero in a minimum of 105 is forgotten: behind the 1 a single digit is compared with the 5. */
  lemma InnerZeroForgotten()
    ensures !Emitted(105, INT_MAX, 16, true, "13") && Emitted(105, INT_MAX, 16, true, "15")
  {
    hide Emitted;
    LoneBoundEmitted(105, 16, true, "13");
    LoneBoundEmitted(105, 16, true, "15");
    Numeral105();
    assert forall p: nat :: Leads("105", p) ==> p == 0 || p == 2;
    hide NonZero;
    assert !Decided("105", 16, true, "13", 0);
    assert !Decided("105", 16, true, "13", 2);
    assert Decided("105", 16, true, "15", 2);
  }
}
