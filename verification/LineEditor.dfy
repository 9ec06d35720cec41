/**
 * The line editor of the console (common/console.cpp): UTF-8 encoding as in section 3 of RFC 3629, and a line edited
 * by code points.
 */
module LineEditing {
  type Byte = x: nat | x < 256

  /** A Unicode code point; getchar32 yields no other values. */
  type CodePoint = x: nat | x <= 0x10FFFF

  // ---------------------------------------------------------------- UTF-8

  /** A byte that goes on with a character: its two highest bits are 10. */
  predicate IsContinuation(b: Byte) {
    b / 64 == 2
  }

  function Utf8(c: CodePoint): (bytes: seq<Byte>)
    ensures 1 <= |bytes| <= 4 && !IsContinuation(bytes[0])
    ensures forall i :: 1 <= i < |bytes| ==> IsContinuation(bytes[i])
  {
    if c <= 0x7F then [c]
    else if c <= 0x7FF then [0xC0 + c / 64, 0x80 + c % 64]
    else if c <= 0xFFFF then [0xE0 + c / 4096, 0x80 + c / 64 % 64, 0x80 + c % 64]
    else [0xF0 + c / 262144, 0x80 + c / 4096 % 64, 0x80 + c / 64 % 64, 0x80 + c % 64]
  }

  /** The code point that a character's bytes stand for, by the number of bytes its first one announces. */
  function CodeOf(bytes: seq<Byte>): int {
    if |bytes| == 1 then bytes[0]
    else if |bytes| == 2 then (bytes[0] as int - 0xC0) * 64 + (bytes[1] as int - 0x80)
    else if |bytes| == 3 then
      (bytes[0] as int - 0xE0) * 4096 + (bytes[1] as int - 0x80) * 64 + (bytes[2] as int - 0x80)
    else if |bytes| == 4 then
      (bytes[0] as int - 0xF0) * 262144 + (bytes[1] as int - 0x80) * 4096 + (bytes[2] as int - 0x80) * 64 +
          (bytes[3] as int - 0x80)
    else -1
  }

  lemma Sixes(c: nat)
    ensures c / 64 * 64 + c % 64 == c
    ensures c / 4096 * 4096 + c / 64 % 64 * 64 + c % 64 == c
    ensures c / 262144 * 262144 + c / 4096 % 64 * 4096 + c / 64 % 64 * 64 + c % 64 == c
  {
    assert c / 64 / 64 == c / 4096 && c / 4096 / 64 == c / 262144;
    assert c / 64 == c / 64 / 64 * 64 + c / 64 % 64;
    assert c / 4096 == c / 4096 / 64 * 64 + c / 4096 % 64;
  }

  lemma CodeOfUtf8(c: CodePoint)
    ensures CodeOf(Utf8(c)) == c
  {
    Sixes(c);
  }

  function Encoded(cs: seq<CodePoint>): seq<Byte> {
    if cs == [] then [] else Encoded(cs[..|cs| - 1]) + Utf8(cs[|cs| - 1])
  }

  // ---------------------------------------------------------------- the last character

  /** Where the last character begins: at the last byte that goes on with none, at most three bytes back. */
  function LastStart(line: seq<Byte>, pos: nat, steps: nat): (start: nat)
    requires pos < |line|
    ensures start <= pos
    decreases steps
  {
    if steps == 0 || pos == 0 || !IsContinuation(line[pos]) then pos else LastStart(line, pos - 1, steps - 1)
  }

  method PopBackUtf8Char(line0: seq<Byte>) returns (line: seq<Byte>)
    ensures line0 == [] ==> line == []
    ensures line0 != [] ==> line == line0[..LastStart(line0, |line0| - 1, 3)]
  {
    line := line0;
    if line == [] { return; }
    var pos := |line| - 1;
    var i: nat := 0;
    while i < 3 && pos > 0
      invariant 0 <= i <= 3 && 0 <= pos < |line0| && line == line0
      invariant LastStart(line0, |line0| - 1, 3) == LastStart(line0, pos, (3 - i) as nat)
    {
      if !IsContinuation(line[pos]) { break; }
      i := i + 1;
      pos := pos - 1;
    }
    line := line[..pos];
  }

  lemma {:induction false} StartOfLast(line: seq<Byte>, front: nat, pos: nat, steps: nat)
    requires front <= pos < |line| && pos - front <= steps && !IsContinuation(line[front])
    requires forall i :: front < i <= pos ==> IsContinuation(line[i])
    ensures LastStart(line, pos, steps) == front
    decreases steps
  {
    if pos > front { StartOfLast(line, front, pos - 1, steps - 1); }
  }

  /** Popping takes back exactly what appending a character added. */
  lemma PopUndoesAppend(line: seq<Byte>, c: CodePoint)
    ensures var after := line + Utf8(c); after[..LastStart(after, |after| - 1, 3)] == line
  {
    hide Utf8;
    var bytes := Utf8(c);
    var after := line + bytes;
    assert after[|line|] == bytes[0];
    forall i | |line| < i < |after| ensures IsContinuation(after[i]) { assert after[i] == bytes[i - |line|]; }
    StartOfLast(after, |line|, |after| - 1, 3);
  }

  lemma {:induction false} ContinuationsEnd(a: seq<Byte>, b: seq<Byte>, c: CodePoint, d: CodePoint)
    requires a + Utf8(c) == b + Utf8(d)
    ensures a == b && c == d
  {
    hide Utf8;
    PopUndoesAppend(a, c);
    PopUndoesAppend(b, d);
    assert (a + Utf8(c))[|a|..] == Utf8(c) && (b + Utf8(d))[|b|..] == Utf8(d);
    CodeOfUtf8(c);
    CodeOfUtf8(d);
  }

  /** A line says which code points it consists of. */
  lemma {:induction false} EncodingUnique(a: seq<CodePoint>, b: seq<CodePoint>)
    ensures Encoded(a) == Encoded(b) <==> a == b
    decreases |a|
  {
    if a != [] && b != [] {
      hide Utf8;
      var m, n := |a| - 1, |b| - 1;
      if Encoded(a) == Encoded(b) {
        ContinuationsEnd(Encoded(a[..m]), Encoded(b[..n]), a[m], b[n]);
        EncodingUnique(a[..m], b[..n]);
        assert a == a[..m] + [a[m]] && b == b[..n] + [b[n]];
      }
    }
  }

  // ---------------------------------------------------------------- the edit state

  datatype Typed = Typed(code: CodePoint, width: nat)

  function Codes(ts: seq<Typed>): (cs: seq<CodePoint>)
    ensures |cs| == |ts|
  {
    seq(|ts|, i requires 0 <= i < |ts| => ts[i].code)
  }

  function Widths(ts: seq<Typed>): (ws: seq<nat>)
    ensures |ws| == |ts|
  {
    seq(|ts|, i requires 0 <= i < |ts| => ts[i].width)
  }

  /** What a backspace leaves: the zero-width code points at the end go, and one code point of positive width. */
  function Erased(ts: seq<Typed>): seq<Typed> {
    if ts == [] then []
    else if ts[|ts| - 1].width > 0 then ts[..|ts| - 1]
    else Erased(ts[..|ts| - 1])
  }

  /** That is: everything, if no code point has a width; otherwise everything from the last one that has. */
  lemma {:induction false} ErasedMeans(ts: seq<Typed>)
    ensures (forall i :: 0 <= i < |ts| ==> ts[i].width == 0) ==> Erased(ts) == []
    ensures forall k :: 0 <= k < |ts| && ts[k].width > 0 && (forall i :: k < i < |ts| ==> ts[i].width == 0) ==>
              Erased(ts) == ts[..k]
    decreases |ts|
  {
    if ts != [] {
      var n := |ts| - 1;
      ErasedMeans(ts[..n]);
      forall k | 0 <= k < |ts| && ts[k].width > 0 && (forall i :: k < i < |ts| ==> ts[i].width == 0)
        ensures Erased(ts) == ts[..k] {
        if k < n {
          assert ts[n].width == 0;
          assert ts[..n][..k] == ts[..k];
          assert ts[..n][k].width > 0;
        }
      }
    }
  }

  // ---------------------------------------------------------------- reading a line

  predicate EndsSequence(c: CodePoint) {
    'A' as int <= c <= 'Z' as int || 'a' as int <= c <= 'z' as int || c == '~' as int
  }

  /** The rest of an escape sequence is thrown away, up to a letter or a tilde. */
  function Discarded(input: seq<Typed>): (rest: seq<Typed>)
    ensures |rest| <= |input|
  {
    if input == [] then [] else if EndsSequence(input[0].code) then input[1..] else Discarded(input[1..])
  }

  /** Behind an escape character, one more is read; an opening bracket or a second escape begins a sequence. */
  function AfterEscape(input: seq<Typed>): (rest: seq<Typed>)
    ensures |rest| <= |input|
  {
    if input == [] then []
    else if input[0].code == '[' as int || input[0].code == 0x1B then Discarded(input[1..])
    else input[1..]
  }

  predicate IsEnter(c: CodePoint) { c == 13 || c == 10 }
  predicate IsEnd(c: CodePoint) { c == 4 }
  predicate IsEscape(c: CodePoint) { c == 0x1B }
  predicate IsBackspace(c: CodePoint) { c == 8 || c == 0x7F }

  /** The code points left when the line ends, and whether it ended with the stream. */
  function Edited(input: seq<Typed>, ts: seq<Typed>): (seq<Typed>, bool)
    decreases |input|
  {
    if input == [] then (ts, true)
    else if IsEnter(input[0].code) then (ts, false)
    else if IsEnd(input[0].code) then (ts, true)
    else if IsEscape(input[0].code) then Edited(AfterEscape(input[1..]), ts)
    else if IsBackspace(input[0].code) then Edited(input[1..], Erased(ts))
    else Edited(input[1..], ts + [input[0]])
  }

  const NEWLINE: Byte := 10

  predicate IsSpecial(line: seq<Byte>) {
    line != [] && (line[|line| - 1] == '\\' as int || line[|line| - 1] == '/' as int)
  }

  /** A backslash at the end turns the multi-line default round, a slash ends the input. */
  function Finished(line: seq<Byte>, endOfStream: bool, multiline: bool): (seq<Byte>, bool) {
    if IsSpecial(line) then
      var front := line[..|line| - 1];
      if line[|line| - 1] == '\\' as int then (front + [NEWLINE], !multiline)
      else (if front == [32] then [] else front, false)
    else if endOfStream then (line, false)
    else (line + [NEWLINE], multiline)
  }

  class Editor {
    var line: seq<Byte>
    var widths: seq<nat>
    ghost var typed: seq<Typed>

    /** The line is the encoding of the surviving code points, with one width for each. */
    ghost predicate Valid()
      reads this
    {
      line == Encoded(Codes(typed)) && widths == Widths(typed)
    }

    constructor ()
      ensures Valid() && typed == []
    {
      line, widths, typed := [], [], [];
    }

    method Append(t: Typed)
      requires Valid()
      modifies this
      ensures Valid() && typed == old(typed) + [t]
    {
      hide Utf8;
      line := line + Utf8(t.code);
      widths := widths + [t.width];
      CodesLast(typed, t);
      typed := typed + [t];
    }

    /** The body of the loop that a backspace runs. */
    method PopOne() returns (count: nat)
      requires Valid() && typed != []
      modifies this
      ensures Valid() && typed == old(typed)[..|old(typed)| - 1] && count == old(typed)[|old(typed)| - 1].width
    {
      hide Utf8, LastStart, Encoded;
      ghost var n := |typed| - 1;
      assert typed == typed[..n] + [typed[n]];
      CodesLast(typed[..n], typed[n]);
      PopUndoesAppend(Encoded(Codes(typed[..n])), typed[n].code);
      UtfNotEmpty(Encoded(Codes(typed[..n])), typed[n].code);
      count := widths[|widths| - 1];
      widths := widths[..|widths| - 1];
      line := PopBackUtf8Char(line);
      typed := typed[..n];
    }

    method Backspace()
      requires Valid()
      modifies this
      ensures Valid() && typed == Erased(old(typed))
    {
      hide Encoded;
      if widths != [] {
        var count := PopOne();
        while count == 0 && widths != []
          invariant Valid()
          invariant if count == 0 then Erased(typed) == Erased(old(typed)) else typed == Erased(old(typed))
          decreases |typed|
        {
          count := PopOne();
        }
      }
    }

    /** Reads a line from the characters typed, each with the width it takes on the terminal. */
    method ReadLine(input: seq<Typed>, multiline: bool) returns (hasMore: bool)
      requires Valid() && typed == []
      modifies this
      ensures var edited := Edited(input, []);
              (line, hasMore) == Finished(Encoded(Codes(edited.0)), edited.1, multiline)
    {
      hide Encoded, Erased;
      assert line == [] by { EncodedNothing(); }
      var rest := input;
      var isSpecial, endOfStream := false, false;
      ghost var edited := Edited(input, []);
      while true
        invariant Valid() && isSpecial == IsSpecial(line) && Edited(rest, typed) == edited
        decreases |rest|
      {
        if rest == [] {
          endOfStream := true;
          break;
        }
        var c := rest[0];
        rest := rest[1..];
        if IsEnter(c.code) { break; }
        if IsEnd(c.code) {
          endOfStream := true;
          break;
        }
        if IsEscape(c.code) {
          if rest != [] {
            var code := rest[0].code;
            rest := rest[1..];
            if code == '[' as int || code == 0x1B { rest := Discard(rest); }
          }
        } else if IsBackspace(c.code) {
          Backspace();
        } else {
          Append(c);
        }
        isSpecial := line != [] && (line[|line| - 1] == '\\' as int || line[|line| - 1] == '/' as int);
      }
      assert edited == (typed, endOfStream);
      hasMore := multiline;
      if isSpecial {
        var last := line[|line| - 1];
        line := line[..|line| - 1];
        if last == '\\' as int {
          line := line + [NEWLINE];
          hasMore := !hasMore;
        } else {
          if |line| == 1 && line[|line| - 1] == 32 { line := []; }
          hasMore := false;
        }
      } else if endOfStream {
        hasMore := false;
      } else {
        line := line + [NEWLINE];
      }
    }
  }

  method Discard(input: seq<Typed>) returns (rest: seq<Typed>)
    ensures rest == Discarded(input)
  {
    rest := input;
    while rest != []
      invariant Discarded(rest) == Discarded(input)
      decreases |rest|
    {
      var code := rest[0].code;
      rest := rest[1..];
      if EndsSequence(code) { return; }
    }
  }

  lemma EncodedNothing()
    ensures Encoded(Codes([])) == []
  {}

  lemma UtfNotEmpty(line: seq<Byte>, c: CodePoint)
    ensures line + Utf8(c) != []
  {
    assert |line + Utf8(c)| > 0;
  }

  lemma CodesLast(ts: seq<Typed>, t: Typed)
    ensures Codes(ts + [t]) == Codes(ts) + [t.code] && Widths(ts + [t]) == Widths(ts) + [t.width]
    ensures Encoded(Codes(ts + [t])) == Encoded(Codes(ts)) + Utf8(t.code)
  {
    assert Codes(ts + [t]) == Codes(ts) + [t.code];
    assert Codes(ts + [t])[..|ts|] == Codes(ts);
  }

  // ---------------------------------------------------------------- in full

  /** The examples of section 7 of RFC 3629. */
  lemma EncodingExamples()
    ensures Utf8(0x41) == [0x41] && Utf8(0x391) == [0xCE, 0x91]
    ensures Utf8(0x2262) == [0xE2, 0x89, 0xA2] && Utf8(0xD55C) == [0xED, 0x95, 0x9C]
    ensures Utf8(0x233B4) == [0xF0, 0xA3, 0x8E, 0xB4]
  {
  }

  /** Neither a control character of the editor nor an escape. */
  predicate IsOrdinary(c: CodePoint) {
    c !in {13, 10, 4, 0x1B, 8, 0x7F}
  }

  /**
   * Ordinary characters are kept; Enter ends the line, Ctrl-D or the end of the stream the input, and a backspace
   * erases.
   */
  lemma {:induction false} PlainLine(input: seq<Typed>, end: Typed, rest: seq<Typed>, ts: seq<Typed>)
    requires forall i :: 0 <= i < |input| ==> IsOrdinary(input[i].code)
    ensures end.code == 13 || end.code == 10 ==> Edited(input + [end] + rest, ts) == (ts + input, false)
    ensures end.code == 4 ==> Edited(input + [end] + rest, ts) == (ts + input, true)
    ensures end.code == 8 || end.code == 0x7F ==> Edited(input + [end] + rest, ts) == Edited(rest, Erased(ts + input))
    ensures Edited(input, ts) == (ts + input, true)
    decreases |input|
  {
    var all := input + [end] + rest;
    if input == [] {
      assert all[0] == end && all[1..] == rest && ts + input == ts;
    } else {
      assert all[0] == input[0] && all[1..] == input[1..] + [end] + rest;
      PlainLine(input[1..], end, rest, ts + [input[0]]);
      assert ts + [input[0]] + input[1..] == ts + input;
    }
  }

  lemma {:induction false} DiscardedUpTo(parameters: seq<Typed>, last: Typed, rest: seq<Typed>)
    requires (forall i :: 0 <= i < |parameters| ==> !EndsSequence(parameters[i].code)) && EndsSequence(last.code)
    ensures Discarded(parameters + [last] + rest) == rest
    decreases |parameters|
  {
    var all := parameters + [last] + rest;
    if parameters == [] {
      assert all[0] == last && all[1..] == rest;
    } else {
      assert all[0] == parameters[0] && all[1..] == parameters[1..] + [last] + rest;
      DiscardedUpTo(parameters[1..], last, rest);
    }
  }

  /**
   * A function key leaves no trace: behind an escape and an opening bracket, or a second escape, its digits and
   * semicolons are dropped and the letter or tilde behind them; behind an escape and anything else, that one character.
   */
  lemma KeysDropped(escape: Typed, second: Typed, parameters: seq<Typed>, last: Typed, rest: seq<Typed>, ts: seq<Typed>)
    requires escape.code == 0x1B
    requires forall i :: 0 <= i < |parameters| ==> '0' as int <= parameters[i].code <= ';' as int
    requires 'A' as int <= last.code <= 'Z' as int || 'a' as int <= last.code <= 'z' as int || last.code == '~' as int
    ensures second.code == '[' as int || second.code == 0x1B ==>
              Edited([escape, second] + (parameters + [last] + rest), ts) == Edited(rest, ts)
    ensures second.code != '[' as int && second.code != 0x1B ==>
              Edited([escape, second] + rest, ts) == Edited(rest, ts)
  {
    var tail := parameters + [last] + rest;
    DiscardedUpTo(parameters, last, rest);
    hide Discarded;
    assert ([escape, second] + tail)[1..] == [second] + tail && ([second] + tail)[1..] == tail;
    assert ([escape, second] + rest)[1..] == [second] + rest && ([second] + rest)[1..] == rest;
  }

  /**
   * A backslash at the end becomes a line feed and turns the multi-line default round; a slash is dropped, with a blank
   * that stands alone in front of it, and ends the input; other lines get a line feed unless the stream has ended.
   */
  lemma LineEnds(front: seq<Byte>, last: Byte, endOfStream: bool, multiline: bool)
    ensures last == '\\' as int ==> Finished(front + [last], endOfStream, multiline) == (front + [10], !multiline)
    ensures last == '/' as int && front != [32] ==> Finished(front + [last], endOfStream, multiline) == (front, false)
    ensures last == '/' as int && front == [32] ==> Finished(front + [last], endOfStream, multiline) == ([], false)
    ensures last != '\\' as int && last != '/' as int ==>
              Finished(front + [last], true, multiline) == (front + [last], false) &&
              Finished(front + [last], false, multiline) == (front + [last, 10], multiline)
    ensures Finished([], true, multiline) == ([], false) && Finished([], false, multiline) == ([10], multiline)
  {
    assert (front + [last])[..|front|] == front;
    assert front + [last] + [10] == front + [last, 10];
    assert [] + [NEWLINE] == [NEWLINE];
  }
}
