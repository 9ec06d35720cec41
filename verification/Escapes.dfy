/** Escape processing in place (string_process_escapes in common/common.cpp). */
module EscapeProcessing {
  import opened Wrappers

  type Byte = x: nat | x < 256

  const BACKSLASH: Byte := 92
  const LOWER_X: Byte := 120

  // ---------------------------------------------------------------- two characters as a number

  function HexDigit(c: Byte): Option<nat> {
    if '0' as int <= c <= '9' as int then Some(c - '0' as int)
    else if 'a' as int <= c <= 'f' as int then Some(c - 'a' as int + 10)
    else if 'A' as int <= c <= 'F' as int then Some(c - 'A' as int + 10)
    else None
  }

  predicate IsSpace(c: Byte) {
    c == 32 || 9 <= c <= 13
  }

  /**
   * strtol in base 16, where it reads both characters: two digits, or a digit behind white space or a sign. The value
   * is cast to eight bits.
   */
  function HexPair(a: Byte, b: Byte): Option<Byte> {
    match (HexDigit(a), HexDigit(b))
    case (Some(high), Some(low)) => Some(high * 16 + low)
    case (None, Some(low)) =>
      if IsSpace(a) || a == '+' as int then Some(low)
      else if a == '-' as int then Some((256 - low) % 256)
      else None
    case _ => None
  }

  // ---------------------------------------------------------------- unescaping, left to right

  /** The byte that a backslash and c stand for. */
  function Simple(c: Byte): Option<Byte> {
    if c == 'n' as int then Some(10)
    else if c == 'r' as int then Some(13)
    else if c == 't' as int then Some(9)
    else if c == '\'' as int || c == '\"' as int || c == BACKSLASH then Some(c)
    else None
  }

  /** What the first bytes stand for, and how many of them. An unknown escape stands for itself. */
  function First(s: seq<Byte>): (r: (seq<Byte>, nat))
    requires s != []
    ensures 0 < |r.0| <= r.1 <= |s|
  {
    if s[0] != BACKSLASH || |s| == 1 then ([s[0]], 1)
    else if Simple(s[1]).Some? then ([Simple(s[1]).value], 2)
    else if s[1] == LOWER_X && |s| > 3 && HexPair(s[2], s[3]).Some? then ([HexPair(s[2], s[3]).value], 4)
    else ([BACKSLASH, s[1]], 2)
  }

  function Unescaped(s: seq<Byte>): seq<Byte>
    decreases |s|
  {
    if s == [] then [] else First(s).0 + Unescaped(s[First(s).1..])
  }

  // ---------------------------------------------------------------- in place

  /** out bytes are written; from position i on nothing is changed, and the rest is still to be unescaped. */
  ghost predicate InPlace(now: seq<Byte>, s: seq<Byte>, out: nat, i: nat) {
    |now| == |s| && out <= i <= |s| && now[i..] == s[i..] && Unescaped(s) == now[..out] + Unescaped(s[i..])
  }

  lemma WriteOne(now: seq<Byte>, s: seq<Byte>, out: nat, i: nat, b: Byte, n: nat)
    requires InPlace(now, s, out, i) && i < |s| && First(s[i..]) == ([b], n)
    ensures InPlace(now[out := b], s, out + 1, i + n)
  {
    hide First;
    var after := now[out := b];
    assert after[..out + 1] == now[..out] + [b];
    assert s[i..][n..] == s[i + n..];
    assert after[i + n..] == s[i + n..] by {
      forall k | i + n <= k < |s| ensures after[k] == s[k] { assert now[i..][k - i] == s[i..][k - i]; }
    }
    assert now[..out] + ([b] + Unescaped(s[i + n..])) == after[..out + 1] + Unescaped(s[i + n..]);
  }

  lemma WriteTwo(now: seq<Byte>, s: seq<Byte>, out: nat, i: nat, b: Byte, c: Byte)
    requires InPlace(now, s, out, i) && i < |s| && First(s[i..]) == ([b, c], 2)
    ensures InPlace(now[out := b][out + 1 := c], s, out + 2, i + 2)
  {
    hide First;
    var after := now[out := b][out + 1 := c];
    assert after[..out + 2] == now[..out] + [b, c];
    assert s[i..][2..] == s[i + 2..];
    assert after[i + 2..] == s[i + 2..] by {
      forall k | i + 2 <= k < |s| ensures after[k] == s[k] { assert now[i..][k - i] == s[i..][k - i]; }
    }
    assert now[..out] + ([b, c] + Unescaped(s[i + 2..])) == after[..out + 2] + Unescaped(s[i + 2..]);
  }

  /** Reads an escape: its byte and how many characters follow the backslash, or none if it is unknown. */
  method ReadEscape(input: array<Byte>, at: nat) returns (value: Option<Byte>, taken: nat)
    requires at + 1 < input.Length && input[at] == BACKSLASH
    ensures value.Some? ==> First(input[at..]) == ([value.value], taken + 1)
    ensures value.None? ==> taken == 1 && First(input[at..]) == ([BACKSLASH, input[at + 1]], 2)
  {
    hide HexPair, Simple;
    ghost var s := input[at..];
    assert s[0] == input[at] && s[1] == input[at + 1];
    var c := input[at + 1];
    value, taken := Simple(c), 1;
    if value.None? && c == LOWER_X && at + 3 < input.Length {
      assert s[2] == input[at + 2] && s[3] == input[at + 3];
      value := HexPair(input[at + 2], input[at + 3]);
      if value.Some? { taken := 3; }
    }
  }

  /** Stores the one byte that the next n bytes stand for. */
  method PutOne(input: array<Byte>, ghost s: seq<Byte>, outputIdx: nat, ghost at: nat, b: Byte, ghost n: nat)
    requires InPlace(input[..], s, outputIdx, at) && at < |s| && First(s[at..]) == ([b], n)
    modifies input
    ensures InPlace(input[..], s, outputIdx + 1, at + n)
  {
    ghost var now := input[..];
    WriteOne(now, s, outputIdx, at, b, n);
    hide First, Unescaped;
    input[outputIdx] := b;
    assert input[..] == now[outputIdx := b];
  }

  /** Stores an unknown escape as it stands. */
  method PutTwo(input: array<Byte>, ghost s: seq<Byte>, outputIdx: nat, ghost at: nat, inputIdx: nat)
    requires InPlace(input[..], s, outputIdx, at) && at + 1 == inputIdx < input.Length
    requires First(s[at..]) == ([BACKSLASH, input[inputIdx]], 2)
    modifies input
    ensures InPlace(input[..], s, outputIdx + 2, at + 2)
  {
    ghost var now := input[..];
    WriteTwo(now, s, outputIdx, at, BACKSLASH, input[inputIdx]);
    hide First, Unescaped;
    input[outputIdx] := BACKSLASH;
    input[outputIdx + 1] := input[inputIdx];
    assert input[..] == now[outputIdx := BACKSLASH][outputIdx + 1 := now[inputIdx]];
  }

  /** One turn of the loop at a backslash that is not the last character. */
  method ProcessEscape(input: array<Byte>, ghost s: seq<Byte>, outputIdx: nat, inputIdx: nat)
    returns (outputNext: nat, inputNext: nat)
    requires InPlace(input[..], s, outputIdx, inputIdx)
    requires inputIdx + 1 < input.Length && input[inputIdx] == BACKSLASH
    modifies input
    ensures inputIdx < inputNext && InPlace(input[..], s, outputNext, inputNext)
  {
    hide InPlace, Unescaped, First;
    Bounds(input[..], s, outputIdx, inputIdx);
    var value, taken := ReadEscape(input, inputIdx);
    if value.Some? {
      PutOne(input, s, outputIdx, inputIdx, value.value, taken + 1);
      outputNext, inputNext := outputIdx + 1, inputIdx + 1 + taken;
    } else {
      PutTwo(input, s, outputIdx, inputIdx, inputIdx + 1);
      outputNext, inputNext := outputIdx + 2, inputIdx + 2;
    }
  }

  /** One turn of the loop at any other character. */
  method ProcessPlain(input: array<Byte>, ghost s: seq<Byte>, outputIdx: nat, inputIdx: nat)
    requires InPlace(input[..], s, outputIdx, inputIdx)
    requires inputIdx < input.Length && (input[inputIdx] != BACKSLASH || inputIdx + 1 == input.Length)
    modifies input
    ensures InPlace(input[..], s, outputIdx + 1, inputIdx + 1)
  {
    hide InPlace, Unescaped, First;
    Bounds(input[..], s, outputIdx, inputIdx);
    Plain(input[inputIdx..]);
    PutOne(input, s, outputIdx, inputIdx, input[inputIdx], 1);
  }

  /** The buffer in front of the returned length is the unescaping of its old contents. */
  method ProcessEscapes(input: array<Byte>) returns (length: nat)
    modifies input
    ensures length <= input.Length && input[..length] == Unescaped(old(input[..]))
  {
    ghost var s := input[..];
    hide InPlace, Unescaped, First;
    var outputIdx, inputIdx := 0, 0;
    Starts(s);
    while inputIdx < input.Length
      invariant InPlace(input[..], s, outputIdx, inputIdx)
    {
      if input[inputIdx] == BACKSLASH && inputIdx + 1 < input.Length {
        outputIdx, inputIdx := ProcessEscape(input, s, outputIdx, inputIdx);
      } else {
        ProcessPlain(input, s, outputIdx, inputIdx);
        outputIdx, inputIdx := outputIdx + 1, inputIdx + 1;
      }
    }
    Bounds(input[..], s, outputIdx, inputIdx);
    Ends(input[..], s, outputIdx, inputIdx);
    length := outputIdx;
  }

  lemma Plain(s: seq<Byte>)
    requires s != [] && (s[0] != BACKSLASH || |s| == 1)
    ensures First(s) == ([s[0]], 1)
  {}

  lemma Starts(s: seq<Byte>)
    ensures InPlace(s, s, 0, 0)
  {
    assert s[0..] == s && s[..0] + Unescaped(s) == Unescaped(s);
  }

  lemma Bounds(now: seq<Byte>, s: seq<Byte>, out: nat, i: nat)
    requires InPlace(now, s, out, i)
    ensures |now| == |s| && out <= i <= |s| && now[i..] == s[i..]
  {}

  lemma Ends(now: seq<Byte>, s: seq<Byte>, out: nat, i: nat)
    requires InPlace(now, s, out, i) && i == |s|
    ensures out <= |now| && now[..out] == Unescaped(s)
  {
    assert s[i..] == [] && now[..out] + [] == now[..out];
  }

  // ---------------------------------------------------------------- what unescaping undoes

  /** A way to write each byte: control and quoting characters by their letter, the others as they are. */
  function Quote(b: Byte): seq<Byte> {
    if b == 10 then [BACKSLASH, 'n' as int]
    else if b == 13 then [BACKSLASH, 'r' as int]
    else if b == 9 then [BACKSLASH, 't' as int]
    else if b == '\'' as int || b == '\"' as int || b == BACKSLASH then [BACKSLASH, b]
    else [b]
  }

  /** By its letter or as it is, or in hexadecimal with small or with capital digits. */
  datatype Style = Plainly | SmallHex | CapitalHex

  function Nibble(n: nat, ten: char): Byte
    requires n < 16 && ten as int < 128
  {
    if n < 10 then '0' as int + n else ten as int + n - 10
  }

  function HexQuote(b: Byte, ten: char): seq<Byte>
    requires ten as int < 128
  {
    [BACKSLASH, LOWER_X, Nibble(b / 16, ten), Nibble(b % 16, ten)]
  }

  function Quoted(b: Byte, style: Style): seq<Byte> {
    match style
    case Plainly => Quote(b)
    case SmallHex => HexQuote(b, 'a')
    case CapitalHex => HexQuote(b, 'A')
  }

  function Written(s: seq<Byte>, styles: seq<Style>): seq<Byte>
    requires |styles| == |s|
  {
    if s == [] then [] else Quoted(s[0], styles[0]) + Written(s[1..], styles[1..])
  }

  lemma FirstOfQuote(b: Byte, rest: seq<Byte>)
    ensures First(Quote(b) + rest) == ([b], |Quote(b)|)
  {
    var s := Quote(b) + rest;
    assert s[0] == Quote(b)[0];
    if |Quote(b)| == 2 { assert s[1] == Quote(b)[1]; }
  }

  lemma FirstOfHexQuote(b: Byte, ten: char, rest: seq<Byte>)
    requires ten == 'a' || ten == 'A'
    ensures First(HexQuote(b, ten) + rest) == ([b], 4)
  {
    var s := HexQuote(b, ten) + rest;
    assert s[0] == BACKSLASH && s[1] == LOWER_X && s[2] == Nibble(b / 16, ten) && s[3] == Nibble(b % 16, ten);
    assert b == b / 16 * 16 + b % 16;
  }

  lemma FirstOfQuoted(b: Byte, style: Style, rest: seq<Byte>)
    ensures First(Quoted(b, style) + rest) == ([b], |Quoted(b, style)|) && |Quoted(b, style)| > 0
  {
    hide First, HexQuote, Quote;
    match style
    case Plainly => FirstOfQuote(b, rest); QuoteSize(b);
    case SmallHex => FirstOfHexQuote(b, 'a', rest); QuoteSize(b);
    case CapitalHex => FirstOfHexQuote(b, 'A', rest); QuoteSize(b);
  }

  /** Any bytes, each written in one of these styles, come back. */
  lemma {:induction false} Unquotes(s: seq<Byte>, styles: seq<Style>)
    requires |styles| == |s|
    ensures Unescaped(Written(s, styles)) == s
    decreases |s|
  {
    if s != [] {
      hide First, Quoted;
      var rest := Written(s[1..], styles[1..]);
      Unquotes(s[1..], styles[1..]);
      FirstOfQuoted(s[0], styles[0], rest);
      var q := Quoted(s[0], styles[0]);
      assert (q + rest)[|q|..] == rest;
      assert [s[0]] + s[1..] == s;
    }
  }

  lemma QuoteSize(b: Byte)
    ensures |HexQuote(b, 'a')| == 4 && |HexQuote(b, 'A')| == 4 && |Quote(b)| > 0
  {}

  // ---------------------------------------------------------------- the other escapes

  lemma UnescapedFirst(s: seq<Byte>, out: seq<Byte>, n: nat)
    requires s != [] && First(s) == (out, n)
    ensures n <= |s| && Unescaped(s) == out + Unescaped(s[n..])
  {
    hide First;
  }

  /** The letters stand for a line feed, a carriage return and a tab, and the quoting characters for themselves. */
  lemma LettersStandFor(rest: seq<Byte>)
    ensures Unescaped([BACKSLASH, 'n' as int] + rest) == [10] + Unescaped(rest)
    ensures Unescaped([BACKSLASH, 'r' as int] + rest) == [13] + Unescaped(rest)
    ensures Unescaped([BACKSLASH, 't' as int] + rest) == [9] + Unescaped(rest)
    ensures Unescaped([BACKSLASH, 39] + rest) == [39] + Unescaped(rest)
    ensures Unescaped([BACKSLASH, 34] + rest) == [34] + Unescaped(rest)
    ensures Unescaped([BACKSLASH, 92] + rest) == [92] + Unescaped(rest)
  {
    hide Unescaped;
    LetterStandsFor('n' as int, 10, rest);
    LetterStandsFor('r' as int, 13, rest);
    LetterStandsFor('t' as int, 9, rest);
    LetterStandsFor(39, 39, rest);
    LetterStandsFor(34, 34, rest);
    LetterStandsFor(92, 92, rest);
  }

  lemma LetterStandsFor(c: Byte, b: Byte, rest: seq<Byte>)
    requires Simple(c) == Some(b)
    ensures Unescaped([BACKSLASH, c] + rest) == [b] + Unescaped(rest)
  {
    var s := [BACKSLASH, c] + rest;
    assert s[0] == BACKSLASH && s[1] == c && s[2..] == rest;
    UnescapedFirst(s, [b], 2);
  }

  /** Any other letter keeps its backslash, and so does one at the end. */
  lemma UnknownKept(c: Byte, rest: seq<Byte>)
    requires c !in {'n' as int, 'r' as int, 't' as int, 'x' as int, 34, 39, 92}
    ensures Unescaped([BACKSLASH, c] + rest) == [BACKSLASH, c] + Unescaped(rest)
    ensures Unescaped([BACKSLASH]) == [BACKSLASH]
  {
    var s := [BACKSLASH, c] + rest;
    assert s[0] == BACKSLASH && s[1] == c && s[2..] == rest;
    UnescapedFirst(s, [BACKSLASH, c], 2);
    UnescapedFirst([BACKSLASH], [BACKSLASH], 1);
  }

  /** A character that strtol passes over in front of a digit: white space or a plus sign. */
  predicate Skipped(a: Byte) { a in {9, 10, 11, 12, 13, 32, 43} }

  /** No hexadecimal digit. */
  predicate IsForeign(c: Byte) { c < 48 || 57 < c < 65 || 70 < c < 97 || 102 < c }

  /**
   * Behind `\x` one digit is read if white space or a sign stands in front of it, a minus sign negating it; in front of
   * what is no number the backslash and the x are kept.
   */
  lemma HexRead(a: Byte, b: Byte, rest: seq<Byte>)
    ensures var s := [BACKSLASH, LOWER_X, a, b] + rest;
            && (Skipped(a) && '0' as int <= b <= '9' as int ==>
                  Unescaped(s) == [b - '0' as int] + Unescaped(rest))
            && (a == '-' as int && '1' as int <= b <= '9' as int ==>
                  Unescaped(s) == [256 - (b - '0' as int)] + Unescaped(rest))
            && (IsForeign(b) || (IsForeign(a) && !Skipped(a) && a != '-' as int) ==>
                  Unescaped(s) == [BACKSLASH, LOWER_X] + Unescaped([a, b] + rest))
  {
    hide Unescaped;
    var s := [BACKSLASH, LOWER_X, a, b] + rest;
    assert s[0] == BACKSLASH && s[1] == LOWER_X && s[2] == a && s[3] == b && s[4..] == rest && s[2..] == [a, b] + rest;
    UnescapedFirst(s, First(s).0, First(s).1);
  }

  /** Unescaping never lengthens. */
  lemma {:induction false} NeverLonger(s: seq<Byte>)
    ensures |Unescaped(s)| <= |s|
    decreases |s|
  {
    if s != [] { NeverLonger(s[First(s).1..]); }
  }
}
