/**
 * Base 64 (common/base64.hpp), the two alphabets of sections 4 and 5 of RFC 4648. Text and data are both sequences of
 * bytes. Shifts are written as multiplication and division, and an `|` of disjoint bits as a sum.
 */
module Base64Codec {
  import opened Arithmetic

  type Byte = x: nat | x < 256

  type Sextet = x: nat | x < 64

  datatype Alphabet = Auto | Standard | UrlSafe

  datatype Result<T> = Ok(value: T) | InvalidCharacter

  const PAD: Byte := '=' as int

  // ---------------------------------------------------------------- the alphabets

  function Alpha(url: bool, v: Sextet): Byte {
    if v < 26 then 'A' as int + v
    else if v < 52 then 'a' as int + v - 26
    else if v < 62 then '0' as int + v - 52
    else if v == 62 then (if url then '-' as int else '+' as int)
    else if url then '_' as int else '/' as int
  }

  /** The value of a character, and the alphabet from there on. */
  function ValueOf(alphabet: Alphabet, c: Byte): Result<(Sextet, Alphabet)> {
    if 'A' as int <= c <= 'Z' as int then Ok((c - 'A' as int, alphabet))
    else if 'a' as int <= c <= 'z' as int then Ok((c - 'a' as int + 26, alphabet))
    else if '0' as int <= c <= '9' as int then Ok((c - '0' as int + 52, alphabet))
    else if c == '+' as int && alphabet != UrlSafe then Ok((62, Standard))
    else if c == '/' as int && alphabet != UrlSafe then Ok((63, Standard))
    else if c == '-' as int && alphabet != Standard then Ok((62, UrlSafe))
    else if c == '_' as int && alphabet != Standard then Ok((63, UrlSafe))
    else InvalidCharacter
  }

  // ---------------------------------------------------------------- bit groups, as the RFC has them

  function Bits(high: nat, width: nat, low: nat): nat {
    high * width + low
  }

  /** 24 bits as four sextets. */
  function FourSextets(a: Byte, b: Byte, c: Byte): (g: seq<Sextet>)
    ensures |g| == 4
  {
    var n := Bits(Bits(a, 256, b), 256, c);
    [n / 262144, n / 4096 % 64, n / 64 % 64, n % 64]
  }

  /** Sixteen bits and two zero bits as three sextets. */
  function ThreeSextets(a: Byte, b: Byte): (g: seq<Sextet>)
    ensures |g| == 3
  {
    var n := Bits(Bits(a, 256, b), 4, 0);
    [n / 4096, n / 64 % 64, n % 64]
  }

  /** Eight bits and four zero bits as two sextets. */
  function TwoSextets(a: Byte): (g: seq<Sextet>)
    ensures |g| == 2
  {
    var n := Bits(a, 16, 0);
    [n / 64, n % 64]
  }

  function Sextets(x: seq<Byte>): seq<Sextet> {
    if x == [] then []
    else if |x| == 1 then TwoSextets(x[0])
    else if |x| == 2 then ThreeSextets(x[0], x[1])
    else FourSextets(x[0], x[1], x[2]) + Sextets(x[3..])
  }

  /** Four sextets as three bytes. */
  function ThreeBytes(a: Sextet, b: Sextet, c: Sextet, d: Sextet): (g: seq<Byte>)
    ensures |g| == 3
  {
    var n := Bits(Bits(Bits(a, 64, b), 64, c), 64, d);
    [n / 65536, n / 256 % 256, n % 256]
  }

  /** The whole bytes of three sextets. */
  function TwoBytes(a: Sextet, b: Sextet, c: Sextet): (g: seq<Byte>)
    ensures |g| == 2
  {
    var n := Bits(Bits(a, 64, b), 64, c) / 4;
    [n / 256, n % 256]
  }

  /** The whole byte of two sextets. */
  function OneByte(a: Sextet, b: Sextet): (g: seq<Byte>)
    ensures |g| == 1
  {
    [Bits(a, 64, b) / 16]
  }

  function Bytes(vs: seq<Sextet>): seq<Byte> {
    if |vs| < 2 then []
    else if |vs| == 2 then OneByte(vs[0], vs[1])
    else if |vs| == 3 then TwoBytes(vs[0], vs[1], vs[2])
    else ThreeBytes(vs[0], vs[1], vs[2], vs[3]) + Bytes(vs[4..])
  }

  /** The sextets as the encoder takes them from its bytes, by shifts and masks. */
  lemma EncoderShifts(a: Byte, b: Byte, c: Byte)
    ensures FourSextets(a, b, c) == [a / 4, a % 4 * 16 + b / 16, b % 16 * 4 + c / 64, c % 64]
  {
    var n: nat := Bits(Bits(a, 256, b), 256, c);
    var y: nat, z: nat := a * 16 + b / 16, (a * 256 + b) * 4 + c / 64;
    assert a == a / 4 * 4 + a % 4 && b == b / 16 * 16 + b % 16 && c == c / 64 * 64 + c % 64;
    Divided(n, a / 4, 262144, a % 4 * 65536 + b * 256 + c);
    Divided(n, y, 4096, b % 16 * 256 + c);
    Divided(y, a / 4, 64, a % 4 * 16 + b / 16);
    Divided(n, z, 64, c % 64);
    Divided(z, y, 64, b % 16 * 4 + c / 64);
  }

  lemma EncoderShiftsTwo(a: Byte, b: Byte)
    ensures ThreeSextets(a, b) == [a / 4, a % 4 * 16 + b / 16, b % 16 * 4]
  {
    var n: nat := Bits(Bits(a, 256, b), 4, 0);
    var y: nat := a * 16 + b / 16;
    assert a == a / 4 * 4 + a % 4 && b == b / 16 * 16 + b % 16;
    Divided(n, a / 4, 4096, a % 4 * 1024 + b * 4);
    Divided(n, y, 64, b % 16 * 4);
    Divided(y, a / 4, 64, a % 4 * 16 + b / 16);
  }

  lemma EncoderShiftsOne(a: Byte)
    ensures TwoSextets(a) == [a / 4, a % 4 * 16]
  {
    assert a == a / 4 * 4 + a % 4;
    Divided(Bits(a, 16, 0), a / 4, 64, a % 4 * 16);
  }

  /** The bytes as the decoder takes them from its sextets, shifting out what does not fit. */
  lemma DecoderShifts(a: Sextet, b: Sextet, c: Sextet, d: Sextet)
    ensures ThreeBytes(a, b, c, d) == [a * 4 + b / 16, b * 16 % 256 + c / 4, c * 64 % 256 + d]
  {
    var n: nat := Bits(Bits(Bits(a, 64, b), 64, c), 64, d);
    var x: nat, y: nat := a * 4 + b / 16, a * 1024 + b * 16 + c / 4;
    assert b == b / 16 * 16 + b % 16 && c == c / 4 * 4 + c % 4;
    Divided(b * 16, b / 16, 256, b % 16 * 16);
    Divided(c * 64, c / 4, 256, c % 4 * 64);
    Divided(n, x, 65536, b % 16 * 4096 + c * 64 + d);
    Divided(n, y, 256, c % 4 * 64 + d);
    Divided(y, x, 256, b % 16 * 16 + c / 4);
  }

  lemma DecoderShiftsTwo(a: Sextet, b: Sextet, c: Sextet)
    ensures TwoBytes(a, b, c) == [a * 4 + b / 16, b * 16 % 256 + c / 4]
  {
    var n: nat := Bits(Bits(a, 64, b), 64, c);
    var x: nat, y: nat := a * 4 + b / 16, a * 1024 + b * 16 + c / 4;
    assert b == b / 16 * 16 + b % 16 && c == c / 4 * 4 + c % 4;
    Divided(b * 16, b / 16, 256, b % 16 * 16);
    Divided(n, y, 4, c % 4);
    Divided(y, x, 256, b % 16 * 16 + c / 4);
  }

  lemma DecoderShiftsOne(a: Sextet, b: Sextet)
    ensures OneByte(a, b) == [a * 4 + b / 16]
  {
    assert b == b / 16 * 16 + b % 16;
    Divided(Bits(a, 64, b), a * 4 + b / 16, 16, b % 16);
  }

  /** Four sextets back to 24 bits. */
  lemma FourRoundTrip(a: Byte, b: Byte, c: Byte)
    ensures var g := FourSextets(a, b, c); ThreeBytes(g[0], g[1], g[2], g[3]) == [a, b, c]
  {
    var n: nat := Bits(Bits(a, 256, b), 256, c);
    var g := FourSextets(a, b, c);
    RegroupFour(n);
    assert Bits(Bits(Bits(g[0], 64, g[1]), 64, g[2]), 64, g[3]) == n;
    Divided(n, a, 65536, b * 256 + c);
    Divided(n, a * 256 + b, 256, c);
    Divided(a * 256 + b, a, 256, b);
  }

  lemma RegroupFour(n: nat)
    ensures ((n / 262144 * 64 + n / 4096 % 64) * 64 + n / 64 % 64) * 64 + n % 64 == n
  {
    Nested(n, 64);
    Nested(n / 64, 64);
    Nested(n / 4096, 64);
    assert n / 64 / 64 == n / 4096 && n / 4096 / 64 == n / 262144;
  }

  lemma Nested(n: nat, m: nat)
    requires m > 0
    ensures n / m * m + n % m == n
  {}

  lemma ThreeRoundTrip(a: Byte, b: Byte)
    ensures var g := ThreeSextets(a, b); TwoBytes(g[0], g[1], g[2]) == [a, b]
  {
    var n: nat := Bits(Bits(a, 256, b), 4, 0);
    Nested(n, 64);
    Nested(n / 64, 64);
    assert n / 64 / 64 == n / 4096;
    Divided(n, a * 256 + b, 4, 0);
    Divided(a * 256 + b, a, 256, b);
  }

  lemma TwoRoundTrip(a: Byte)
    ensures var g := TwoSextets(a); OneByte(g[0], g[1]) == [a]
  {
    Nested(Bits(a, 16, 0), 64);
    Divided(Bits(a, 16, 0), a, 16, 0);
  }

  /** Regrouping loses nothing. */
  lemma {:induction false} BytesOfSextets(x: seq<Byte>)
    ensures Bytes(Sextets(x)) == x
    decreases |x|
  {
    hide FourSextets, ThreeSextets, TwoSextets, ThreeBytes, TwoBytes, OneByte;
    if |x| >= 3 {
      BytesOfSextets(x[3..]);
      FourRoundTrip(x[0], x[1], x[2]);
      var g := FourSextets(x[0], x[1], x[2]);
      assert (g + Sextets(x[3..]))[4..] == Sextets(x[3..]);
      assert [x[0], x[1], x[2]] + x[3..] == x;
    } else if |x| == 2 {
      ThreeRoundTrip(x[0], x[1]);
    } else if |x| == 1 {
      TwoRoundTrip(x[0]);
    }
  }

  // ---------------------------------------------------------------- encoding

  function Text(url: bool, vs: seq<Sextet>): (s: seq<Byte>)
    ensures |s| == |vs|
  {
    seq(|vs|, i requires 0 <= i < |vs| => Alpha(url, vs[i]))
  }

  /** The padding of a last group. */
  function Padding(size: nat): seq<Byte> {
    if size % 3 == 1 then [PAD, PAD] else if size % 3 == 2 then [PAD] else []
  }

  function Encoded(x: seq<Byte>, url: bool): seq<Byte> {
    Text(url, Sextets(x)) + Padding(|x|)
  }

  predicate WholeGroups(x: seq<Byte>) {
    |x| % 3 == 0
  }

  lemma {:induction false} SextetsAppend(a: seq<Byte>, b: seq<Byte>)
    requires WholeGroups(a)
    ensures Sextets(a + b) == Sextets(a) + Sextets(b)
    decreases |a|
  {
    hide FourSextets, ThreeSextets, TwoSextets;
    if a == [] {
      assert a + b == b && [] + Sextets(b) == Sextets(b);
    } else {
      assert |a| >= 3;
      SextetsAppend(a[3..], b);
      assert (a + b)[3..] == a[3..] + b;
      var g := FourSextets(a[0], a[1], a[2]);
      assert g + (Sextets(a[3..]) + Sextets(b)) == g + Sextets(a[3..]) + Sextets(b);
    }
  }

  lemma TextAppend(url: bool, a: seq<Sextet>, b: seq<Sextet>)
    ensures Text(url, a + b) == Text(url, a) + Text(url, b)
  {}

  lemma EncodeRest(done: seq<Byte>, rest: seq<Byte>, url: bool)
    requires WholeGroups(done)
    ensures Text(url, Sextets(done + rest)) == Text(url, Sextets(done)) + Text(url, Sextets(rest))
  {
    SextetsAppend(done, rest);
    TextAppend(url, Sextets(done), Sextets(rest));
  }

  lemma SextetsOfGroup(a: Byte, b: Byte, c: Byte)
    ensures Sextets([a, b, c]) == FourSextets(a, b, c)
    ensures Sextets([a, b]) == ThreeSextets(a, b)
    ensures Sextets([a]) == TwoSextets(a)
  {
    hide FourSextets, ThreeSextets, TwoSextets;
    assert [a, b, c][3..] == [] && Sextets([]) == [];
  }

  lemma TextOfTwo(url: bool, g: seq<Sextet>)
    requires |g| == 2
    ensures Text(url, g) == [Alpha(url, g[0]), Alpha(url, g[1])]
  {
    hide Alpha;
  }

  lemma TextOfThree(url: bool, g: seq<Sextet>)
    requires |g| == 3
    ensures Text(url, g) == [Alpha(url, g[0]), Alpha(url, g[1]), Alpha(url, g[2])]
  {
    hide Alpha;
  }

  lemma TextOfFour(url: bool, g: seq<Sextet>)
    requires |g| == 4
    ensures Text(url, g) == [Alpha(url, g[0]), Alpha(url, g[1]), Alpha(url, g[2]), Alpha(url, g[3])]
  {
    hide Alpha;
  }

  lemma EncodeThree(done: seq<Byte>, a: Byte, b: Byte, c: Byte, url: bool)
    requires WholeGroups(done)
    ensures Text(url, Sextets(done + [a, b, c])) ==
            Text(url, Sextets(done)) + [Alpha(url, a / 4), Alpha(url, a % 4 * 16 + b / 16),
                                        Alpha(url, b % 16 * 4 + c / 64), Alpha(url, c % 64)]
  {
    hide *;
    EncodeRest(done, [a, b, c], url);
    SextetsOfGroup(a, b, c);
    EncoderShifts(a, b, c);
    TextOfFour(url, FourSextets(a, b, c));
  }

  lemma PaddingOf(n: nat)
    requires n % 3 == 0
    ensures Padding(n) == [] && Padding(n + 1) == [PAD, PAD] && Padding(n + 2) == [PAD]
  {}

  lemma PaddedTwo(done: seq<Byte>, a: Byte, b: Byte, url: bool)
    requires WholeGroups(done)
    ensures Encoded(done + [a, b], url) == Text(url, Sextets(done + [a, b])) + [PAD]
  {
    hide Text, Sextets, Padding;
    PaddingOf(|done|);
    assert |done + [a, b]| == |done| + 2;
  }

  lemma PaddedOne(done: seq<Byte>, a: Byte, url: bool)
    requires WholeGroups(done)
    ensures Encoded(done + [a], url) == Text(url, Sextets(done + [a])) + [PAD, PAD]
  {
    hide Text, Sextets, Padding;
    PaddingOf(|done|);
    assert |done + [a]| == |done| + 1;
  }

  lemma PadThree(t: seq<Byte>, p: Byte, q: Byte, r: Byte)
    ensures t + [p, q, r] + [PAD] == t + [p, q, r, PAD]
  {}

  lemma PadTwo(t: seq<Byte>, p: Byte, q: Byte)
    ensures t + [p, q] + [PAD, PAD] == t + [p, q, PAD, PAD]
  {}

  lemma EncodeTwo(done: seq<Byte>, a: Byte, b: Byte, url: bool)
    requires WholeGroups(done)
    ensures Encoded(done + [a, b], url) ==
            Text(url, Sextets(done)) + [Alpha(url, a / 4), Alpha(url, a % 4 * 16 + b / 16), Alpha(url, b % 16 * 4), PAD]
  {
    hide *;
    EncodeRest(done, [a, b], url);
    SextetsOfGroup(a, b, 0);
    EncoderShiftsTwo(a, b);
    TextOfThree(url, ThreeSextets(a, b));
    PaddedTwo(done, a, b, url);
    PadThree(Text(url, Sextets(done)), Alpha(url, a / 4), Alpha(url, a % 4 * 16 + b / 16), Alpha(url, b % 16 * 4));
  }

  lemma EncodeOne(done: seq<Byte>, a: Byte, url: bool)
    requires WholeGroups(done)
    ensures Encoded(done + [a], url) ==
            Text(url, Sextets(done)) + [Alpha(url, a / 4), Alpha(url, a % 4 * 16), PAD, PAD]
  {
    hide *;
    EncodeRest(done, [a], url);
    SextetsOfGroup(a, 0, 0);
    EncoderShiftsOne(a);
    TextOfTwo(url, TwoSextets(a));
    PaddedOne(done, a, url);
    PadTwo(Text(url, Sextets(done)), Alpha(url, a / 4), Alpha(url, a % 4 * 16));
  }

  method Encode(x: seq<Byte>, alphabet: Alphabet) returns (out: seq<Byte>)
    ensures out == Encoded(x, alphabet == UrlSafe)
  {
    hide Alpha, Sextets, Text;
    var url := alphabet == UrlSafe;
    out := [];
    var i := 0;
    assert Text(url, Sextets(x[..0])) == [] by { EncodeNothing(url); }
    while i < |x|
      invariant i <= |x| && WholeGroups(x[..i]) && out == Text(url, Sextets(x[..i]))
    {
      ghost var done, was := x[..i], out;
      var i0 := x[i];
      i := i + 1;
      out := out + [Alpha(url, i0 / 4)];
      if i < |x| {
        var i1 := x[i];
        i := i + 1;
        out := out + [Alpha(url, i0 % 4 * 16 + i1 / 16)];
        if i < |x| {
          var i2 := x[i];
          i := i + 1;
          out := out + [Alpha(url, i1 % 16 * 4 + i2 / 64)];
          out := out + [Alpha(url, i2 % 64)];
          EncodeThree(done, i0, i1, i2, url);
          assert x[..i] == done + [i0, i1, i2];
        } else {
          out := out + [Alpha(url, i1 % 16 * 4)] + [PAD];
          EncodeTwo(done, i0, i1, url);
          assert x == done + [i0, i1];
          return;
        }
      } else {
        out := out + [Alpha(url, i0 % 4 * 16)] + [PAD] + [PAD];
        EncodeOne(done, i0, url);
        assert x == done + [i0];
        return;
      }
    }
    assert x[..i] == x;
  }

  lemma EncodeNothing(url: bool)
    ensures Text(url, Sextets([])) == []
  {}

  // ---------------------------------------------------------------- decoding

  datatype Behavior = Moderate | Loose

  /** The values of the characters in front of the first padding character. */
  function Values(s: seq<Byte>, alphabet: Alphabet): Result<seq<Sextet>> {
    if s == [] || s[0] == PAD then Ok([])
    else match ValueOf(alphabet, s[0])
      case InvalidCharacter => InvalidCharacter
      case Ok(v) =>
        match Values(s[1..], v.1)
        case InvalidCharacter => InvalidCharacter
        case Ok(rest) => Ok([v.0] + rest)
  }

  /** Nothing but padding from the first padding character on. */
  predicate PaddedAfter(s: seq<Byte>) {
    if s == [] then true
    else if s[0] != PAD then PaddedAfter(s[1..])
    else forall i :: 0 <= i < |s| ==> s[i] == PAD
  }

  function Decoded(s: seq<Byte>, alphabet: Alphabet, behavior: Behavior): Result<seq<Byte>> {
    match Values(s, alphabet)
    case InvalidCharacter => InvalidCharacter
    case Ok(vs) => if behavior == Moderate && !PaddedAfter(s) then InvalidCharacter else Ok(Bytes(vs))
  }

  // The decoder's state: the bits still to be used of the last sextet.

  function BitsLeft(vs: seq<Sextet>): (bits: nat)
    ensures bits in {0, 2, 4, 6} && (bits > 0 ==> |vs| > 0)
  {
    if |vs| >= 4 then BitsLeft(vs[4..])
    else if |vs| == 0 then 0
    else if |vs| == 1 then 6
    else if |vs| == 2 then 4
    else 2
  }

  function Two(n: nat): nat
    requires n in {0, 2, 4, 6}
  {
    if n == 0 then 1 else if n == 2 then 4 else if n == 4 then 16 else 64
  }

  /** The byte completed by a sextet; what is shifted out of eight bits is lost. */
  function Completed(bits: nat, last: Sextet, part: Sextet): Byte
    requires bits in {2, 4, 6}
  {
    Combine(last * Two(8 - bits) % 256, part / Two(bits - 2))
  }

  /** The lowest eight bits. */
  function Combine(high: nat, low: nat): Byte {
    (high + low) % 256
  }

  function Emit(bits: nat, last: Sextet, part: Sextet): seq<Byte>
    requires bits in {0, 2, 4, 6}
  {
    if bits == 0 then [] else [Completed(bits, last, part)]
  }

  function BitsAfter(bits: nat): nat {
    if bits + 6 >= 8 then bits - 2 else bits + 6
  }

  lemma CompletedIs(last: Sextet, part: Sextet)
    ensures Completed(6, last, part) == last * 4 + part / 16
    ensures Completed(4, last, part) == last * 16 % 256 + part / 4
    ensures Completed(2, last, part) == last * 64 % 256 + part
  {
    Divided(last * 4, 0, 256, last * 4);
    Divided(last * 4 + part / 16, 0, 256, last * 4 + part / 16);
    assert last == last / 16 * 16 + last % 16 && last == last / 4 * 4 + last % 4;
    Divided(last * 16, last / 16, 256, last % 16 * 16);
    Divided(last * 64, last / 4, 256, last % 4 * 64);
    Divided(last % 16 * 16 + part / 4, 0, 256, last % 16 * 16 + part / 4);
    Divided(last % 4 * 64 + part, 0, 256, last % 4 * 64 + part);
  }

  lemma StepOne(a: Sextet, v: Sextet)
    ensures OneByte(a, v) == [Completed(6, a, v)]
  {
    DecoderShiftsOne(a, v);
    CompletedIs(a, v);
  }

  lemma StepTwo(a: Sextet, b: Sextet, v: Sextet)
    ensures TwoBytes(a, b, v) == OneByte(a, b) + [Completed(4, b, v)]
  {
    DecoderShiftsOne(a, b);
    DecoderShiftsTwo(a, b, v);
    CompletedIs(b, v);
  }

  lemma StepThree(a: Sextet, b: Sextet, c: Sextet, v: Sextet)
    ensures ThreeBytes(a, b, c, v) == TwoBytes(a, b, c) + [Completed(2, c, v)]
  {
    DecoderShiftsTwo(a, b, c);
    DecoderShifts(a, b, c, v);
    CompletedIs(c, v);
  }

  /** One more sextet completes a byte, or adds six bits. */
  lemma {:induction false} Step(vs: seq<Sextet>, last: Sextet, v: Sextet)
    requires |vs| > 0 ==> last == vs[|vs| - 1]
    ensures Bytes(vs + [v]) == Bytes(vs) + Emit(BitsLeft(vs), last, v)
    ensures BitsLeft(vs + [v]) == BitsAfter(BitsLeft(vs))
    decreases |vs|
  {
    hide OneByte, TwoBytes, ThreeBytes, Completed;
    var us := vs + [v];
    if |vs| >= 4 {
      Step(vs[4..], last, v);
      assert us[4..] == vs[4..] + [v];
    } else if |vs| == 3 {
      StepThree(vs[0], vs[1], vs[2], v);
      assert us[4..] == [];
    } else if |vs| == 2 {
      StepTwo(vs[0], vs[1], v);
    } else if |vs| == 1 {
      StepOne(vs[0], v);
    }
  }

  function Prepend(vs: seq<Sextet>, r: Result<seq<Sextet>>): Result<seq<Sextet>> {
    if r.Ok? then Ok(vs + r.value) else InvalidCharacter
  }

  /** The characters from i on, after those in front gave vs. */
  ghost predicate ReadUpTo(s: seq<Byte>, from: Alphabet, i: nat, alphabet: Alphabet, vs: seq<Sextet>) {
    i <= |s| && Values(s, from) == Prepend(vs, Values(s[i..], alphabet)) && PaddedAfter(s) == PaddedAfter(s[i..])
  }

  lemma ReadOne(s: seq<Byte>, from: Alphabet, i: nat, alphabet: Alphabet, vs: seq<Sextet>)
    requires ReadUpTo(s, from, i, alphabet, vs) && i < |s| && s[i] != PAD
    ensures ValueOf(alphabet, s[i]).InvalidCharacter? ==> Values(s, from) == InvalidCharacter
    ensures ValueOf(alphabet, s[i]).Ok? ==>
              ReadUpTo(s, from, i + 1, ValueOf(alphabet, s[i]).value.1, vs + [ValueOf(alphabet, s[i]).value.0])
  {
    hide ValueOf;
    var rest := s[i..];
    assert rest[0] == s[i] && rest[1..] == s[i + 1..];
    var after := ValueOf(alphabet, s[i]);
    if after.Ok? {
      var tail := Values(rest[1..], after.value.1);
      if tail.Ok? { assert vs + ([after.value.0] + tail.value) == vs + [after.value.0] + tail.value; }
    }
  }

  lemma ReadToEnd(s: seq<Byte>, from: Alphabet, i: nat, alphabet: Alphabet, vs: seq<Sextet>)
    requires ReadUpTo(s, from, i, alphabet, vs) && (i < |s| ==> s[i] == PAD)
    ensures Values(s, from) == Ok(vs)
    ensures PaddedAfter(s) <==> forall k :: i <= k < |s| ==> s[k] == PAD
  {
    assert vs + [] == vs;
    if i < |s| {
      forall k | i <= k < |s| ensures s[k] == s[i..][k - i] {}
    }
  }

  method Decode(s: seq<Byte>, from: Alphabet, behavior: Behavior) returns (r: Result<seq<Byte>>)
    ensures r == Decoded(s, from, behavior)
  {
    hide Bytes, BitsLeft, ValueOf, Values, PaddedAfter, Completed, ReadUpTo;
    var out: seq<Byte> := [];
    var alphabet := from;
    var last: Sextet, bits, i := 0, 0, 0;
    ghost var vs: seq<Sextet> := [];
    Started(s, from);
    while i < |s| && s[i] != PAD
      invariant i <= |s| && ReadUpTo(s, from, i, alphabet, vs)
      invariant out == Bytes(vs) && bits == BitsLeft(vs) && (|vs| > 0 ==> last == vs[|vs| - 1])
    {
      ReadOne(s, from, i, alphabet, vs);
      var value := ValueOf(alphabet, s[i]);
      i := i + 1;
      if value.InvalidCharacter? { return InvalidCharacter; }
      var part := value.value.0;
      alphabet := value.value.1;
      Step(vs, last, part);
      if bits + 6 >= 8 {
        out := out + [Completed(bits, last, part)];
        bits := bits - 2;
      } else {
        bits := bits + 6;
      }
      last := part;
      vs := vs + [part];
    }
    ReadToEnd(s, from, i, alphabet, vs);
    if behavior != Loose {
      ghost var end := i;
      while i < |s|
        invariant end <= i <= |s| && forall k :: end <= k < i ==> s[k] == PAD
      {
        if s[i] != PAD { return InvalidCharacter; }
        i := i + 1;
      }
    }
    return Ok(out);
  }

  lemma Started(s: seq<Byte>, from: Alphabet)
    ensures ReadUpTo(s, from, 0, from, []) && Bytes([]) == [] && BitsLeft([]) == 0
  {
    assert s[0..] == s;
    var r := Values(s, from);
    if r.Ok? { assert [] + r.value == r.value; }
  }

  // ---------------------------------------------------------------- in place

  /** What is not read yet is as it was; what is written is the bytes so far, none of them past the reading position. */
  ghost predicate InPlace(now: seq<Byte>, s: seq<Byte>, out: nat, i: nat, bytes: seq<Byte>) {
    |now| == |s| && out == |bytes| <= i <= |s| && now[..out] == bytes && now[i..] == s[i..]
  }

  lemma WriteBehind(now: seq<Byte>, s: seq<Byte>, out: nat, i: nat, bytes: seq<Byte>, b: Byte)
    requires InPlace(now, s, out, i, bytes) && i < |s|
    ensures InPlace(now[out := b], s, out + 1, i + 1, bytes + [b])
  {
    assert now[out := b][..out + 1] == now[..out] + [b];
    forall k | i + 1 <= k < |s| ensures now[out := b][k] == s[k] { assert now[i..][k - i] == s[i..][k - i]; }
  }

  lemma ReadAhead(now: seq<Byte>, s: seq<Byte>, out: nat, i: nat, bytes: seq<Byte>)
    requires InPlace(now, s, out, i, bytes) && i < |s|
    ensures now[i] == s[i] && InPlace(now, s, out, i + 1, bytes)
  {
    assert now[i..][0] == s[i..][0] && now[i..][1..] == s[i..][1..];
  }

  /** Nothing but padding characters is left to read. */
  method PaddedToEnd(a: array<Byte>, from: nat, ghost s: seq<Byte>) returns (padded: bool)
    requires from <= a.Length == |s| && a[from..] == s[from..]
    ensures padded <==> forall k :: from <= k < |s| ==> s[k] == PAD
  {
    var i := from;
    while i < a.Length
      invariant from <= i <= a.Length && forall k :: from <= k < i ==> s[k] == PAD
    {
      assert a[i] == a[from..][i - from] == s[i];
      if a[i] != PAD { return false; }
      i := i + 1;
    }
    return true;
  }

  /** The decoder with its output over its input: the first returned number of bytes are the decoded ones. */
  method DecodeInPlace(a: array<Byte>, from: Alphabet, behavior: Behavior) returns (r: Result<nat>)
    modifies a
    ensures var decoded := Decoded(old(a[..]), from, behavior);
            match r
            case InvalidCharacter => decoded.InvalidCharacter?
            case Ok(size) => decoded.Ok? && size == |decoded.value| <= a.Length && a[..size] == decoded.value
  {
    hide Bytes, BitsLeft, ValueOf, Values, PaddedAfter, Completed, ReadUpTo, InPlace;
    ghost var s := a[..];
    var out := 0;
    var alphabet := from;
    var last: Sextet, bits, i := 0, 0, 0;
    ghost var vs: seq<Sextet> := [];
    Started(s, from);
    InPlaceStarts(s);
    while i < a.Length && a[i] != PAD
      invariant i <= a.Length && ReadUpTo(s, from, i, alphabet, vs) && InPlace(a[..], s, out, i, Bytes(vs))
      invariant bits == BitsLeft(vs) && (|vs| > 0 ==> last == vs[|vs| - 1])
    {
      ghost var now := a[..];
      ReadAhead(now, s, out, i, Bytes(vs));
      ReadOne(s, from, i, alphabet, vs);
      var value := ValueOf(alphabet, a[i]);
      i := i + 1;
      if value.InvalidCharacter? { return InvalidCharacter; }
      var part := value.value.0;
      alphabet := value.value.1;
      Step(vs, last, part);
      if bits + 6 >= 8 {
        WriteBehind(now, s, out, i - 1, Bytes(vs), Completed(bits, last, part));
        InPlaceBound(now, s, out, i - 1, Bytes(vs));
        a[out] := Completed(bits, last, part);
        assert a[..] == now[out := Completed(bits, last, part)];
        out := out + 1;
        bits := bits - 2;
      } else {
        assert Bytes(vs + [part]) == Bytes(vs);
        bits := bits + 6;
      }
      last := part;
      vs := vs + [part];
    }
    if i < a.Length { ReadAhead(a[..], s, out, i, Bytes(vs)); }
    ReadToEnd(s, from, i, alphabet, vs);
    InPlaceBound(a[..], s, out, i, Bytes(vs));
    if behavior != Loose {
      var padded := PaddedToEnd(a, i, s);
      if !padded { return InvalidCharacter; }
    }
    return Ok(out);
  }

  lemma InPlaceStarts(s: seq<Byte>)
    ensures InPlace(s, s, 0, 0, [])
  {}

  lemma InPlaceBound(now: seq<Byte>, s: seq<Byte>, out: nat, i: nat, bytes: seq<Byte>)
    requires InPlace(now, s, out, i, bytes)
    ensures |now| == |s| && out == |bytes| <= i <= |s| && now[..out] == bytes && now[i..] == s[i..]
  {}

  // ---------------------------------------------------------------- round trip and sizes

  predicate AllPad(s: seq<Byte>) {
    forall i :: 0 <= i < |s| ==> s[i] == PAD
  }

  /** Neither of the two characters in which the alphabets differ. */
  predicate Common(vs: seq<Sextet>) {
    forall i :: 0 <= i < |vs| ==> vs[i] < 62
  }

  predicate Reads(alphabet: Alphabet, url: bool) {
    alphabet == Auto || (alphabet == UrlSafe <==> url)
  }

  lemma {:induction false} ValuesOfText(url: bool, vs: seq<Sextet>, pad: seq<Byte>, alphabet: Alphabet)
    requires pad != [] ==> pad[0] == PAD
    ensures Values(Text(url, vs) + pad, alphabet) ==
            if Reads(alphabet, url) || Common(vs) then Ok(vs) else InvalidCharacter
    ensures PaddedAfter(Text(url, vs) + pad) <==> AllPad(pad)
    decreases |vs|
  {
    var s := Text(url, vs) + pad;
    if vs == [] {
      assert s == pad;
    } else {
      hide Alpha, ValueOf;
      var after := ValueOf(alphabet, Alpha(url, vs[0]));
      CharacterRead(url, alphabet, vs[0]);
      assert s[0] == Alpha(url, vs[0]) && s[1..] == Text(url, vs[1..]) + pad;
      ValuesOfText(url, vs[1..], pad, alphabet);
      if after.Ok? {
        ValuesOfText(url, vs[1..], pad, after.value.1);
        assert [vs[0]] + vs[1..] == vs;
      }
      assert Common(vs) <==> vs[0] < 62 && Common(vs[1..]) by { CommonRest(vs); }
    }
  }

  lemma CommonRest(vs: seq<Sextet>)
    requires vs != []
    ensures Common(vs) <==> vs[0] < 62 && Common(vs[1..])
  {
    if vs[0] < 62 && Common(vs[1..]) {
      forall i | 0 <= i < |vs| ensures vs[i] < 62 { if i > 0 { assert vs[i] == vs[1..][i - 1]; } }
    }
  }

  lemma CharacterRead(url: bool, alphabet: Alphabet, v: Sextet)
    ensures var after := ValueOf(alphabet, Alpha(url, v));
            && Alpha(url, v) != PAD
            && (after.Ok? <==> Reads(alphabet, url) || v < 62)
            && (after.Ok? ==> after.value.0 == v)
            && (after.Ok? ==> (Reads(after.value.1, url) <==> Reads(alphabet, url)))
  {}

  /**
   * Decoding undoes encoding under the same alphabet and under detection; under the other alphabet exactly when the
   * text has neither of the two characters that differ.
   */
  lemma RoundTrip(x: seq<Byte>, encoding: Alphabet, decoding: Alphabet, behavior: Behavior)
    ensures Decoded(Encoded(x, encoding == UrlSafe), decoding, behavior) ==
            if Reads(decoding, encoding == UrlSafe) || Common(Sextets(x)) then Ok(x) else InvalidCharacter
  {
    hide Bytes, Sextets, Values, PaddedAfter;
    ValuesOfText(encoding == UrlSafe, Sextets(x), Padding(|x|), decoding);
    BytesOfSextets(x);
  }

  function RequiredEncodeSize(size: nat): nat {
    (size / 3 + if size % 3 != 0 then 1 else 0) * 4
  }

  function MaxDecodeSize(size: nat): nat {
    (size / 4 + if size % 4 != 0 then 1 else 0) * 3
  }

  lemma EncodeSizeStep(n: nat)
    requires n >= 3
    ensures RequiredEncodeSize(n) == 4 + RequiredEncodeSize(n - 3) && Padding(n) == Padding(n - 3)
  {
    Divided(n, (n - 3) / 3 + 1, 3, (n - 3) % 3);
  }

  lemma {:induction false} EncodedSize(x: seq<Byte>, url: bool)
    ensures |Encoded(x, url)| == RequiredEncodeSize(|x|)
    decreases |x|
  {
    hide FourSextets, ThreeSextets, TwoSextets, Alpha;
    if |x| >= 3 {
      EncodedSize(x[3..], url);
      EncodeSizeStep(|x|);
      hide RequiredEncodeSize, Padding;
    }
  }

  lemma {:induction false} BytesSize(vs: seq<Sextet>)
    ensures 4 * |Bytes(vs)| <= 3 * |vs|
    decreases |vs|
  {
    hide OneByte, TwoBytes, ThreeBytes;
    if |vs| >= 4 { BytesSize(vs[4..]); }
  }

  lemma {:induction false} ValuesSize(s: seq<Byte>, alphabet: Alphabet)
    ensures Values(s, alphabet).Ok? ==> |Values(s, alphabet).value| <= |s|
    decreases |s|
  {
    hide ValueOf;
    if s != [] && ValueOf(alphabet, s[0]).Ok? { ValuesSize(s[1..], ValueOf(alphabet, s[0]).value.1); }
  }

  /** The decoded bytes fit what was reserved for them. */
  lemma DecodedSize(s: seq<Byte>, alphabet: Alphabet, behavior: Behavior)
    ensures Decoded(s, alphabet, behavior).Ok? ==> |Decoded(s, alphabet, behavior).value| <= MaxDecodeSize(|s|)
  {
    hide Bytes, Values, PaddedAfter;
    ValuesSize(s, alphabet);
    var vs := Values(s, alphabet);
    if vs.Ok? {
      BytesSize(vs.value);
      SizeBound(|Bytes(vs.value)|, |s|);
    }
  }

  lemma SizeBound(m: nat, n: nat)
    requires 4 * m <= 3 * n
    ensures m <= MaxDecodeSize(n)
  {
    assert n == n / 4 * 4 + n % 4;
  }

  // ---------------------------------------------------------------- in full

  const UPPER := "ABCDEFGHIJKLMNOPQRSTUVWXYZ"
  const LOWER := "abcdefghijklmnopqrstuvwxyz"
  const DIGITS := "0123456789"

  lemma Uppers(v: nat)
    ensures v < 26 ==> UPPER[v] as int == 'A' as int + v
  {
    match v
    case 0 => case 1 => case 2 => case 3 => case 4 => case 5 => case 6 => case 7 => case 8 =>
    case 9 => case 10 => case 11 => case 12 => case 13 => case 14 => case 15 => case 16 => case 17 =>
    case 18 => case 19 => case 20 => case 21 => case 22 => case 23 => case 24 => case 25 =>
    case _ =>
  }

  lemma Lowers(v: nat)
    ensures v < 26 ==> LOWER[v] as int == 'a' as int + v
  {
    match v
    case 0 => case 1 => case 2 => case 3 => case 4 => case 5 => case 6 => case 7 => case 8 =>
    case 9 => case 10 => case 11 => case 12 => case 13 => case 14 => case 15 => case 16 => case 17 =>
    case 18 => case 19 => case 20 => case 21 => case 22 => case 23 => case 24 => case 25 =>
    case _ =>
  }

  /** The alphabets of tables 1 and 2 of RFC 4648. */
  lemma AlphabetsSpelled(v: nat)
    ensures v < 26 ==> Alpha(false, v) == Alpha(true, v) == UPPER[v] as int
    ensures v < 26 ==> Alpha(false, 26 + v) == Alpha(true, 26 + v) == LOWER[v] as int
    ensures v < 10 ==> Alpha(false, 52 + v) == Alpha(true, 52 + v) == DIGITS[v] as int
    ensures Alpha(false, 62) == '+' as int && Alpha(false, 63) == '/' as int
    ensures Alpha(true, 62) == '-' as int && Alpha(true, 63) == '_' as int
  {
    Uppers(v);
    Lowers(v);
    hide UPPER, LOWER;
  }

  /** A character is read if and only if one of the alphabets still in question has it. */
  lemma CharacterAccepted(alphabet: Alphabet, c: Byte)
    ensures ValueOf(alphabet, c).Ok? <==>
            exists url, v: Sextet :: c == Alpha(url, v) && (v < 62 || Reads(alphabet, url))
  {
    if r :| ValueOf(alphabet, c) == Ok(r) {
      assert c == Alpha(alphabet == UrlSafe || c in {'-' as int, '_' as int}, r.0);
    }
    if url, v: Sextet :| c == Alpha(url, v) && (v < 62 || Reads(alphabet, url)) { CharacterRead(url, alphabet, v); }
  }

  /** Decoding accepts a text of one alphabet, up to the first padding character, behind which only padding may come. */
  ghost predicate IsEncoding(s: seq<Byte>, alphabet: Alphabet, url: bool, vs: seq<Sextet>) {
    && |vs| <= |s| && s[..|vs|] == Text(url, vs) && (Reads(alphabet, url) || Common(vs))
    && (|vs| < |s| ==> s[|vs|] == PAD)
  }

  lemma {:induction false} ValuesAreText(s: seq<Byte>, alphabet: Alphabet) returns (url: bool)
    requires Values(s, alphabet).Ok?
    ensures IsEncoding(s, alphabet, url, Values(s, alphabet).value)
    decreases |s|
  {
    url := alphabet == UrlSafe;
    if s != [] && s[0] != PAD {
      var v := ValueOf(alphabet, s[0]).value;
      var vs := Values(s, alphabet).value;
      var rest := ValuesAreText(s[1..], v.1);
      url := if v.0 < 62 then rest else v.1 == UrlSafe;
      assert vs == [v.0] + vs[1..] && s == [s[0]] + s[1..];
      TextBehind(s, alphabet, v, vs[1..], rest, url);
    }
  }

  lemma TextBehind(s: seq<Byte>, alphabet: Alphabet, v: (Sextet, Alphabet), vs: seq<Sextet>, rest: bool, url: bool)
    requires s != [] && s[0] != PAD && ValueOf(alphabet, s[0]) == Ok(v) && IsEncoding(s[1..], v.1, rest, vs)
    requires url == if v.0 < 62 then rest else v.1 == UrlSafe
    ensures IsEncoding(s, alphabet, url, [v.0] + vs)
  {
    assert Alpha(url, v.0) == s[0];
    CommonRest([v.0] + vs);
    assert ([v.0] + vs)[1..] == vs;
    assert rest == url || Common(vs);
    assert Text(rest, vs) == Text(url, vs);
    assert s[..|vs| + 1] == [s[0]] + s[1..][..|vs|];
    assert Text(url, [v.0] + vs) == [s[0]] + Text(url, vs);
  }

  /** Without an exception exactly on such texts, with the bytes of their sextets. */
  lemma DecodingExact(s: seq<Byte>, alphabet: Alphabet, behavior: Behavior)
    ensures Decoded(s, alphabet, behavior).Ok? <==>
            exists url, vs :: IsEncoding(s, alphabet, url, vs) && (behavior == Loose || AllPad(s[|vs|..]))
    ensures forall url, vs :: IsEncoding(s, alphabet, url, vs) && (behavior == Loose || AllPad(s[|vs|..])) ==>
              Decoded(s, alphabet, behavior) == Ok(Bytes(vs))
  {
    hide Bytes, Values, PaddedAfter, Reads, Common;
    forall url, vs | IsEncoding(s, alphabet, url, vs)
      ensures Values(s, alphabet) == Ok(vs) && (PaddedAfter(s) <==> AllPad(s[|vs|..]))
    {
      assert s == Text(url, vs) + s[|vs|..];
      ValuesOfText(url, vs, s[|vs|..], alphabet);
    }
    if Values(s, alphabet).Ok? {
      var url := ValuesAreText(s, alphabet);
      assert IsEncoding(s, alphabet, url, Values(s, alphabet).value);
    }
  }

  /** Two of the test vectors of section 10 of RFC 4648. */
  lemma TestVectors()
    ensures Encoded(['f' as int, 'o' as int, 'o' as int], false)
            == ['Z' as int, 'm' as int, '9' as int, 'v' as int]
    ensures Encoded(['f' as int], false) == ['Z' as int, 'g' as int, PAD, PAD]
  {
    EncoderShifts('f' as int, 'o' as int, 'o' as int);
    EncoderShiftsOne('f' as int);
    hide FourSextets, TwoSextets;
    assert ['f' as int, 'o' as int, 'o' as int][3..] == [];
    assert Sextets(['f' as int, 'o' as int, 'o' as int]) == [25, 38, 61, 47];
    assert Sextets(['f' as int]) == [25, 32];
  }
}
