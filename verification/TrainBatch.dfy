/**
 * The batch builder of the training code (get_example_targets_batch in common/train.cpp): rows of target tokens drawn
 * from consecutive samples, as one-hot probabilities, and the inputs that precede them.
 */
module TrainBatches {
  import opened Arithmetic

  type Token = int

  datatype Config = Config(
    nVocab: nat, bos: Token, eos: Token,
    exampleId: nat, offsets: seq<nat>, begins: seq<nat>, sizes: seq<nat>, data: seq<Token>,
    separateWithEos: bool, separateWithBos: bool, fillWithNextSamples: bool, sampleRandomOffsets: bool)

  /** The samples lie within the data, and the two separators are in the vocabulary. */
  ghost predicate Usable(c: Config) {
    0 <= c.bos < c.nVocab && 0 <= c.eos < c.nVocab &&
    |c.sizes| == |c.begins| == |c.offsets| > 0 &&
    forall s :: 0 <= s < |c.sizes| ==> c.begins[s] + c.sizes[s] <= |c.data|
  }

  function Clamp(x: int, lo: int, hi: int): int {
    if x < lo then lo else if x > hi then hi else x
  }

  /** The sample that is drawn as the u-th one. */
  function SampleOf(c: Config, u: nat): (s: nat)
    requires |c.sizes| > 0
    ensures s < |c.sizes|
  {
    (c.exampleId + u) % |c.sizes|
  }

  function TokenAt(c: Config, s: nat, p: nat): (t: Token)
    requires Usable(c) && s < |c.sizes| && p < c.sizes[s]
    ensures 0 <= t < c.nVocab
  {
    Clamp(c.data[c.begins[s] + p], 0, c.nVocab - 1)
  }

  /** The tokens of a sample from one of its positions on. */
  function Rest(c: Config, s: nat, from: nat): (r: seq<Token>)
    requires Usable(c) && s < |c.sizes|
  {
    if from >= c.sizes[s] then []
    else seq(c.sizes[s] - from, i requires 0 <= i < c.sizes[s] - from => TokenAt(c, s, from + i))
  }

  function Separators(c: Config): seq<Token> {
    (if c.separateWithEos then [c.eos] else []) + (if c.separateWithBos then [c.bos] else [])
  }

  /** A following sample: an empty one still yields an end token. */
  function Drawn(c: Config, u: nat): (r: seq<Token>)
    requires Usable(c)
    ensures |r| > 0
  {
    var s := SampleOf(c, u);
    if c.sizes[s] == 0 then [c.eos] else Rest(c, s, 0)
  }

  /** The samples drawn as number `from` to number `next` - 1, each with the separators behind it. */
  function Following(c: Config, from: nat, next: nat): seq<Token>
    requires Usable(c)
    decreases next
  {
    if next <= from then [] else Following(c, from, next - 1) + (Drawn(c, next - 1) + Separators(c))
  }

  /** The first sample of a row, from its offset. */
  function FirstPart(c: Config, u: nat): seq<Token>
    requires Usable(c) && |c.offsets| == |c.sizes|
  {
    var s := SampleOf(c, u);
    Rest(c, s, if c.sampleRandomOffsets then c.offsets[s] else 0)
  }

  function Repeated(t: Token, n: nat): (r: seq<Token>)
    ensures |r| == n
  {
    seq(n, i => t)
  }

  /**
   * A row that starts with sample number u and leaves off before sample number next: with filling, the first tokens of
   * the first sample and of as many following samples as it takes, and no more; without, end tokens behind the sample.
   */
  ghost predicate IsRow(c: Config, row: seq<Token>, u: nat, next: nat)
    requires Usable(c)
  {
    next > u &&
    if c.fillWithNextSamples then
      var all := FirstPart(c, u) + Separators(c) + Following(c, u + 1, next);
      row <= all && (next > u + 1 ==> |FirstPart(c, u) + Separators(c) + Following(c, u + 1, next - 1)| < |row|)
    else next == u + 1 && row <= FirstPart(c, u) + Repeated(c.eos, |row|)
  }

  lemma {:induction false} FollowingGrows(c: Config, from: nat, a: nat, b: nat)
    requires Usable(c) && a <= b
    ensures Following(c, from, a) <= Following(c, from, b)
    decreases b
  {
    hide Drawn, Separators;
    if a < b { FollowingGrows(c, from, a, b - 1); }
  }

  /** The start of a row and its length leave no choice: neither of its tokens nor of the number of samples. */
  lemma RowDetermined(c: Config, row: seq<Token>, next: nat, other: seq<Token>, next2: nat, u: nat)
    requires Usable(c) && |row| == |other| && next <= next2
    requires IsRow(c, row, u, next) && IsRow(c, other, u, next2)
    ensures next == next2 && row == other
  {
    hide Drawn, Separators, FirstPart, Repeated;
    if c.fillWithNextSamples && next < next2 { FollowingGrows(c, u + 1, next, next2 - 1); }
  }

  // ---------------------------------------------------------------- what the parts of a row are

  lemma NextRemainder(a: nat, n: nat)
    requires n > 0
    ensures (a + 1) % n == if a % n + 1 == n then 0 else a % n + 1
  {
    var q, r := a / n, a % n;
    if r + 1 == n {
      assert (q + 1) * n == q * n + n;
      Divided(a + 1, q + 1, n, 0);
    } else {
      Divided(a + 1, q, n, r + 1);
    }
  }

  /** The samples are drawn one after the other from the given one on, and the first one follows the last. */
  lemma SamplesInTurn(c: Config, u: nat)
    requires |c.sizes| > 0
    ensures c.exampleId < |c.sizes| ==> SampleOf(c, 0) == c.exampleId
    ensures SampleOf(c, u + 1) == if SampleOf(c, u) == |c.sizes| - 1 then 0 else SampleOf(c, u) + 1
  {
    Remainders(c, u, c.exampleId, |c.sizes|);
    hide SampleOf;
  }

  lemma Remainders(c: Config, u: nat, first: nat, n: nat)
    requires n == |c.sizes| > 0 && first == c.exampleId
    ensures first < n ==> SampleOf(c, 0) == first
    ensures SampleOf(c, u + 1) == if SampleOf(c, u) + 1 == n then 0 else SampleOf(c, u) + 1
  {
    NextRemainder(first + u, n);
    if first < n { Divided(first, 0, n, first); }
    assert first + (u + 1) == first + u + 1;
  }

  /** A token of the vocabulary as it is; the first or the last one for others. */
  ghost predicate IsTaken(c: Config, t: Token, raw: Token) {
    (0 <= raw < c.nVocab ==> t == raw) && (raw < 0 ==> t == 0) && (raw >= c.nVocab ==> t == c.nVocab - 1)
  }

  /**
   * A row starts with its first sample, from the random offset if there is one; a following one is whole, and an end
   * token if it is empty. Behind each come the end token and the begin token, in this order, if they are asked for.
   */
  lemma PartsOfRow(c: Config, u: nat)
    requires Usable(c)
    ensures var s := SampleOf(c, u);
            var from := if c.sampleRandomOffsets then c.offsets[s] else 0;
            && |FirstPart(c, u)| == (if from < c.sizes[s] then c.sizes[s] - from else 0)
            && (forall i :: 0 <= i < |FirstPart(c, u)| ==>
                  IsTaken(c, FirstPart(c, u)[i], c.data[c.begins[s] + (from + i)]))
            && (c.sizes[s] == 0 ==> Drawn(c, u) == [c.eos])
            && (c.sizes[s] > 0 ==> |Drawn(c, u)| == c.sizes[s])
            && (c.sizes[s] > 0 ==> forall i :: 0 <= i < c.sizes[s] ==>
                IsTaken(c, Drawn(c, u)[i], c.data[c.begins[s] + i]))
    ensures Separators(c) == match (c.separateWithEos, c.separateWithBos)
                             case (true, true) => [c.eos, c.bos]
                             case (true, false) => [c.eos]
                             case (false, true) => [c.bos]
                             case (false, false) => []
  {
    hide SampleOf, TokenAt, IsTaken;
    var s := SampleOf(c, u);
    forall p | 0 <= p < c.sizes[s] ensures IsTaken(c, TokenAt(c, s, p), c.data[c.begins[s] + p]) { Taken(c, s, p); }
  }

  lemma Taken(c: Config, s: nat, p: nat)
    requires Usable(c) && s < |c.sizes| && p < c.sizes[s]
    ensures IsTaken(c, TokenAt(c, s, p), c.data[c.begins[s] + p])
  {
  }

  // ---------------------------------------------------------------- drawing tokens

  /** What the builder keeps while it fills a row. */
  datatype Cursor = Cursor(sample: nat, offset: nat, eosDone: bool, bosDone: bool, used: nat)

  ghost predicate Sound(c: Config, x: Cursor)
    requires Usable(c)
  {
    x.sample < |c.sizes| && (x.eosDone || (c.separateWithEos && (x.bosDone <==> !c.separateWithBos)))
  }

  /** What is still to come before the next sample is drawn. */
  function Pending(c: Config, x: Cursor): seq<Token>
    requires Usable(c) && x.sample < |c.sizes|
  {
    Rest(c, x.sample, x.offset) +
    if c.fillWithNextSamples then (if x.eosDone then [] else [c.eos]) + (if x.bosDone then [] else [c.bos]) else []
  }

  lemma RestStep(c: Config, s: nat, from: nat)
    requires Usable(c) && s < |c.sizes| && from < c.sizes[s]
    ensures Rest(c, s, from) == [TokenAt(c, s, from)] + Rest(c, s, from + 1)
  {}

  lemma DrawnSample(c: Config, u: nat)
    requires Usable(c)
    ensures Drawn(c, u) == if c.sizes[SampleOf(c, u)] == 0 then [c.eos] else Rest(c, SampleOf(c, u), 0)
  {}

  lemma RestOver(c: Config, s: nat, from: nat)
    requires Usable(c) && s < |c.sizes| && from >= c.sizes[s]
    ensures Rest(c, s, from) == []
  {}

  /** The body of the token loop. */
  method NextToken(c: Config, x0: Cursor) returns (token: Token, x: Cursor)
    requires Usable(c) && Sound(c, x0)
    ensures Sound(c, x) && 0 <= token < c.nVocab
    ensures Pending(c, x0) != [] ==> x.used == x0.used && Pending(c, x0) == [token] + Pending(c, x)
    ensures Pending(c, x0) == [] && c.fillWithNextSamples ==>
              x.used == x0.used + 1 && Drawn(c, x0.used) + Separators(c) == [token] + Pending(c, x)
    ensures Pending(c, x0) == [] && !c.fillWithNextSamples ==> x == x0 && token == c.eos
  {
    hide Rest, TokenAt;
    x := x0;
    token := c.eos;
    if x.offset >= c.sizes[x.sample] { RestOver(c, x.sample, x.offset); }
    if x.offset >= c.sizes[x.sample] && c.fillWithNextSamples {
      if !x.eosDone {
        x := x.(eosDone := true);
      } else if !x.bosDone {
        x := x.(bosDone := true);
        token := c.bos;
      } else {
        DrawnSample(c, x.used);
        if c.sizes[SampleOf(c, x.used)] == 0 { RestOver(c, SampleOf(c, x.used), 0); }
        x := Cursor(SampleOf(c, x.used), 0, !c.separateWithEos, !c.separateWithBos, x.used + 1);
      }
    }
    if x.offset < c.sizes[x.sample] {
      token := TokenAt(c, x.sample, x.offset);
      RestStep(c, x.sample, x.offset);
      x := x.(offset := x.offset + 1);
    }
  }

  // ---------------------------------------------------------------- filling a row

  /** The tokens of a row so far and those pending are the ones drawn. */
  ghost predicate Along(c: Config, row: seq<Token>, x: Cursor, u: nat)
    requires Usable(c)
  {
    Sound(c, x) && x.used > u &&
    if c.fillWithNextSamples then
      row + Pending(c, x) == FirstPart(c, u) + Separators(c) + Following(c, u + 1, x.used) &&
      (x.used > u + 1 ==> |FirstPart(c, u) + Separators(c) + Following(c, u + 1, x.used - 1)| < |row|)
    else
      x.used == u + 1 &&
      if Pending(c, x) != [] then row + Pending(c, x) == FirstPart(c, u)
      else |row| >= |FirstPart(c, u)| && row <= FirstPart(c, u) + Repeated(c.eos, |row|)
  }

  lemma AlongStarts(c: Config, x: Cursor, u: nat)
    requires Usable(c)
    requires x == Cursor(SampleOf(c, u), if c.sampleRandomOffsets then c.offsets[SampleOf(c, u)] else 0,
                         !c.separateWithEos, !c.separateWithBos, u + 1)
    ensures Along(c, [], x, u)
  {
    hide Rest;
    assert Pending(c, x) == FirstPart(c, u) + if c.fillWithNextSamples then Separators(c) else [];
  }

  lemma AlongStep(c: Config, row: seq<Token>, x: Cursor, u: nat, token: Token, y: Cursor)
    requires Usable(c) && Along(c, row, x, u) && Sound(c, y)
    requires Pending(c, x) != [] ==> y.used == x.used && Pending(c, x) == [token] + Pending(c, y)
    requires Pending(c, x) == [] && c.fillWithNextSamples ==>
               y.used == x.used + 1 && Drawn(c, x.used) + Separators(c) == [token] + Pending(c, y)
    requires Pending(c, x) == [] && !c.fillWithNextSamples ==> y == x && token == c.eos
    ensures Along(c, row + [token], y, u)
  {
    if c.fillWithNextSamples {
      FillStep(c, row, x, u, token, y);
    } else if Pending(c, x) != [] {
      hide Rest, Pending;
      assert row + ([token] + Pending(c, y)) == row + [token] + Pending(c, y);
      if Pending(c, y) == [] { assert row + [token] + [] == row + [token]; }
    } else {
      hide Rest, Pending;
      PadStep(FirstPart(c, u), row, c.eos);
    }
  }

  lemma PadStep(first: seq<Token>, row: seq<Token>, eos: Token)
    requires |row| >= |first| && row <= first + Repeated(eos, |row|)
    ensures row + [eos] <= first + Repeated(eos, |row| + 1)
  {
    var all := first + Repeated(eos, |row| + 1);
    forall i | 0 <= i <= |row| ensures (row + [eos])[i] == all[i] {
      if i < |row| { assert row[i] == (first + Repeated(eos, |row|))[i]; }
    }
  }

  lemma FillStep(c: Config, row: seq<Token>, x: Cursor, u: nat, token: Token, y: Cursor)
    requires Usable(c) && c.fillWithNextSamples && Along(c, row, x, u) && Sound(c, y)
    requires Pending(c, x) != [] ==> y.used == x.used && Pending(c, x) == [token] + Pending(c, y)
    requires Pending(c, x) == [] ==> y.used == x.used + 1 && Drawn(c, x.used) + Separators(c) == [token] + Pending(c, y)
    ensures Along(c, row + [token], y, u)
  {
    hide Rest, Pending, Drawn, Separators, FirstPart;
    var front, q := FirstPart(c, u) + Separators(c), Pending(c, y);
    assert row + ([token] + q) == row + [token] + q;
    if Pending(c, x) == [] {
      assert row + [] == row;
      assert front + Following(c, u + 1, x.used) + (Drawn(c, x.used) + Separators(c)) ==
          front + Following(c, u + 1, y.used);
    }
  }

  lemma AlongEnds(c: Config, row: seq<Token>, x: Cursor, u: nat)
    requires Usable(c) && Along(c, row, x, u)
    ensures IsRow(c, row, u, x.used)
  {
    hide Rest, Pending;
    if c.fillWithNextSamples {
      assert row + Pending(c, x) == FirstPart(c, u) + Separators(c) + Following(c, u + 1, x.used);
    } else if Pending(c, x) != [] {
      assert row <= FirstPart(c, u);
    }
  }

  // ---------------------------------------------------------------- the batch

  /** All probability on one token. */
  ghost predicate OneHot(probs: array3<real>, k: nat, i: nat, token: Token)
    requires k < probs.Length0 && i < probs.Length1
    reads probs
  {
    0 <= token < probs.Length2 &&
    forall v :: 0 <= v < probs.Length2 ==> probs[k, i, v] == if v == token then 1.0 else 0.0
  }

  ghost predicate Blank(probs: array3<real>, k: nat, from: nat)
    requires k < probs.Length0
    reads probs
  {
    forall i, v :: from <= i < probs.Length1 && 0 <= v < probs.Length2 ==> probs[k, i, v] == 0.0
  }

  /** The targets of a row, and as its inputs the begin token and the targets but the last. */
  ghost predicate Holds(inputs: array2<Token>, probs: array3<real>, bos: Token, k: nat, row: seq<Token>)
    requires k < probs.Length0 == inputs.Length0 && |row| <= probs.Length1 == inputs.Length1
    reads inputs, probs
  {
    (inputs.Length1 > 0 ==> inputs[k, 0] == bos) &&
    (forall i :: 0 <= i < |row| ==> OneHot(probs, k, i, row[i])) &&
    (forall i :: 0 < i < inputs.Length1 && i <= |row| ==> inputs[k, i] == row[i - 1])
  }

  method BuildRow(c: Config, inputs: array2<Token>, probs: array3<real>, k: nat, u: nat)
    returns (used: nat, ghost row: seq<Token>)
    requires Usable(c) && k < inputs.Length0 == probs.Length0 && 0 < inputs.Length1 == probs.Length1
    requires probs.Length2 == c.nVocab && Blank(probs, k, 0)
    modifies inputs, probs
    ensures |row| == inputs.Length1 && IsRow(c, row, u, used) && Holds(inputs, probs, c.bos, k, row)
    ensures forall j, i :: 0 <= j < inputs.Length0 && j != k && 0 <= i < inputs.Length1 ==>
            inputs[j, i] == old(inputs[j, i])
    ensures forall j, i, v :: 0 <= j < probs.Length0 && j != k && 0 <= i < probs.Length1 && 0 <= v < probs.Length2 ==>
              probs[j, i, v] == old(probs[j, i, v])
    ensures forall j: nat, other: seq<Token> ::
              j < probs.Length0 && j != k && |other| == probs.Length1 && old(Holds(inputs, probs, c.bos, j, other)) ==>
                Holds(inputs, probs, c.bos, j, other)
    ensures forall j: nat :: j < probs.Length0 && j != k && old(Blank(probs, j, 0)) ==> Blank(probs, j, 0)
  {
    hide IsRow, Along, Pending;
    var sample := SampleOf(c, u);
    var x := Cursor(sample, if c.sampleRandomOffsets then c.offsets[sample] else 0,
                    !c.separateWithEos, !c.separateWithBos, u + 1);
    AlongStarts(c, x, u);
    inputs[k, 0] := c.bos;
    row := [];
    var i := 0;
    while i < inputs.Length1
      invariant 0 <= i <= inputs.Length1 && |row| == i && Sound(c, x) && Along(c, row, x, u)
      invariant Holds(inputs, probs, c.bos, k, row) && Blank(probs, k, i)
      invariant forall j, m :: 0 <= j < inputs.Length0 && j != k && 0 <= m < inputs.Length1 ==>
                inputs[j, m] == old(inputs[j, m])
      invariant forall j, m, v ::
                  0 <= j < probs.Length0 && j != k && 0 <= m < probs.Length1 && 0 <= v < probs.Length2 ==>
                  probs[j, m, v] == old(probs[j, m, v])
    {
      var token, y := NextToken(c, x);
      AlongStep(c, row, x, u, token, y);
      x := y;
      probs[k, i, token] := 1.0;
      if i + 1 < inputs.Length1 { inputs[k, i + 1] := token; }
      row := row + [token];
      i := i + 1;
    }
    AlongEnds(c, row, x, u);
    used := x.used;
    forall j: nat, other: seq<Token> | j < probs.Length0 && j != k && |other| == probs.Length1 &&
                                       old(Holds(inputs, probs, c.bos, j, other))
      ensures Holds(inputs, probs, c.bos, j, other) {
      forall m | 0 <= m < |other| ensures OneHot(probs, j, m, other[m]) { assert old(OneHot(probs, j, m, other[m])); }
    }
    forall j: nat | j < probs.Length0 && j != k && old(Blank(probs, j, 0)) ensures Blank(probs, j, 0) {}
  }

  /** The rows from k on are still blank. */
  ghost predicate BlankFrom(probs: array3<real>, k: nat)
    reads probs
  {
    forall j: nat :: k <= j < probs.Length0 ==> Blank(probs, j, 0)
  }

  /** Row j holds the tokens of the samples numbered from starts[j] up to the start of the next row. */
  ghost predicate RowDone(c: Config, inputs: array2<Token>, probs: array3<real>, j: nat, row: seq<Token>, start: nat,
                          next: nat)
    requires Usable(c)
    reads inputs, probs
  {
    j < inputs.Length0 == probs.Length0 && |row| == inputs.Length1 == probs.Length1 &&
    IsRow(c, row, start, next) && Holds(inputs, probs, c.bos, j, row)
  }

  ghost predicate RowsDone(c: Config, inputs: array2<Token>, probs: array3<real>, rows: seq<seq<Token>>,
                           starts: seq<nat>)
    requires Usable(c)
    reads inputs, probs
  {
    |starts| == |rows| + 1 && starts[0] == 0 &&
    forall j :: 0 <= j < |rows| ==> RowDone(c, inputs, probs, j, rows[j], starts[j], starts[j + 1])
  }

  /**
   * What is asserted of the first sample of a row, `begin + size - 1 < n_train_data` on unsigned numbers: an empty
   * sample at the front of the data fails it.
   */
  predicate Asserted(c: Config, s: nat)
    requires s < |c.sizes| == |c.begins|
  {
    0 < c.begins[s] + c.sizes[s] <= |c.data|
  }

  /**
   * The whole batch. The returned number of samples is where the last row leaves off; the samples of each row follow
   * those of the row before. A failed assertion stops it at the row it concerns.
   */
  method BuildBatch(c: Config, inputs: array2<Token>, probs: array3<real>)
    returns (stopped: bool, usedSamples: nat, ghost rows: seq<seq<Token>>, ghost starts: seq<nat>)
    requires Usable(c) && inputs.Length0 == probs.Length0 && 0 < inputs.Length1 == probs.Length1
    requires probs.Length2 == c.nVocab
    modifies inputs, probs
    ensures |rows| <= inputs.Length0 && RowsDone(c, inputs, probs, rows, starts) && usedSamples == starts[|rows|]
    ensures forall j :: 0 <= j < |rows| ==> Asserted(c, SampleOf(c, starts[j]))
    ensures if stopped then |rows| < inputs.Length0 && !Asserted(c, SampleOf(c, usedSamples))
            else |rows| == inputs.Length0
  {
    hide IsRow, Holds, Blank;
    forall k, i, v | 0 <= k < probs.Length0 && 0 <= i < probs.Length1 && 0 <= v < probs.Length2 {
      probs[k, i, v] := 0.0;
    }
    assert BlankFrom(probs, 0) by { AllBlank(probs); }
    stopped, usedSamples, rows, starts := false, 0, [], [0];
    var k := 0;
    while k < inputs.Length0
      invariant 0 <= k <= inputs.Length0 && |rows| == k && BlankFrom(probs, k)
      invariant RowsDone(c, inputs, probs, rows, starts) && usedSamples == starts[k]
      invariant forall j :: 0 <= j < k ==> Asserted(c, SampleOf(c, starts[j]))
    {
      if !Asserted(c, SampleOf(c, usedSamples)) {
        return true, usedSamples, rows, starts;
      }
      ghost var row;
      usedSamples, row := BuildRow(c, inputs, probs, k, usedSamples);
      rows, starts := rows + [row], starts + [usedSamples];
      k := k + 1;
    }
  }

  lemma AllBlank(probs: array3<real>)
    requires forall k, i, v :: 0 <= k < probs.Length0 && 0 <= i < probs.Length1 && 0 <= v < probs.Length2 ==>
             probs[k, i, v] == 0.0
    ensures BlankFrom(probs, 0)
  {}
}
