/**
 * Subscripts of factored weights as they are written in Python (LoraTorchTensor.__getitem__ in
 * convert_lora_to_gguf.py): a number, a slice or a tuple of both, counted from either end.
 */
module LoraIndexing {
  import opened Tensors
  import opened LoraTensors
  import opened LoraParts
  import opened Wrappers

  /** A number, or a slice whose ends may be left out; what is negative counts from the end of the axis. */
  datatype Subscript = Number(i: int) | Slice(start: Option<int>, stop: Option<int>)

  function Least(a: nat, b: nat): nat {
    if a < b then a else b
  }

  /** Where one end of a slice falls on an axis of length n. */
  function End(end: Option<int>, missing: nat, n: nat): (e: nat)
    requires missing <= n
    ensures e <= n
  {
    match end
    case None => missing
    case Some(v) => if v >= 0 then Least(v, n) else if v + n >= 0 then v + n else 0
  }

  /** start:stop on an axis of length n. */
  function Clip(start: Option<int>, stop: Option<int>, n: nat): (x: Ix)
    ensures x.Span? && OnAxis(x, n)
  {
    var lo, hi := End(start, 0, n), End(stop, n, n);
    Span(lo, if lo <= hi then hi else lo)
  }

  /** The position a number means on an axis of length n, if there is one. */
  function Place(i: int, n: nat): Option<nat> {
    if 0 <= i < n then Some(i) else if i < 0 <= i + n then Some(i + n) else None
  }

  // ---------------------------------------------------------------- one slice

  /** A slice of the first axis, with more than two axes: both factors are sliced. */
  ghost function SlicePair(p: Lora, start: Option<int>, stop: Option<int>): Lora
    requires WellFormed(p) && Axes(p) > 2
  {
    var a, b := LeadA(p), Front(p);
    IndexPair(p, [Clip(start, stop, a[0])] + Full(a[1..]), [Clip(start, stop, b[0])] + Full(b[1..]), 0, Cols(p))
  }

  /** The slice takes the only position of an axis of length one. */
  predicate TakesFirst(start: Option<int>, stop: Option<int>) {
    (start.Some? ==> start.value <= 0) && (stop.Some? ==> stop.value >= 1)
  }

  /**
   * A slice of more than two axes fits, and is then the slice of the product, exactly when A has the axis in full, the
   * slice takes the only position of an axis of length one, or nothing is sliced out: along a shared axis any other
   * slice leaves nothing of A.
   */
  lemma SliceExact(p: Lora, start: Option<int>, stop: Option<int>)
    requires WellFormed(p) && Axes(p) > 2 && Fits(p)
    ensures WellFormed(SlicePair(p, start, stop))
    ensures var y := Clip(start, stop, Front(p)[0]);
            && (Fits(SlicePair(p, start, stop)) <==>
                LeadA(p)[0] == Front(p)[0] || TakesFirst(start, stop) || y.lo == y.hi)
            && (Fits(SlicePair(p, start, stop)) ==>
                  Product(SlicePair(p, start, stop)) ==
                  IndexTensor(Product(p), [y] + Full(Front(p)[1..]) + [Span(0, Cols(p))]))
  {
    hide IndexTensor, Product, SourceIx, ShapeIx;
    var x, y := Clip(start, stop, LeadA(p)[0]), Clip(start, stop, Front(p)[0]);
    FirstAxisShape(p, x, y);
    if x.hi - x.lo == 1 || x.hi - x.lo == y.hi - y.lo { FirstAxis(p, x, y); }
  }

  /** A slice of the rows of a matrix touches B only. */
  lemma SliceRows(p: Lora, start: Option<int>, stop: Option<int>)
    requires WellFormed(p) && Axes(p) == 2
    ensures var x := Clip(start, stop, Front(p)[0]);
            var q := Lora(p.a, IndexTensor(p.b, [x] + [Span(0, Rank(p))]));
            WellFormed(q) && Product(q) == IndexTensor(Product(p), [x] + [Span(0, Cols(p))])
  {
    hide IndexTensor, Product, SourceIx, ShapeIx;
    var x := Clip(start, stop, Front(p)[0]);
    FullSlice(p.a);
    assert Full(p.a.shape) == [] + [Span(0, Rank(p))] + [Span(0, Cols(p))];
    assert [] + [x] == [x];
    AlignedPair(p, [], [], x.lo, x.hi);
    IndexedPair(p, [], [x], 0, Cols(p));
  }

  // ---------------------------------------------------------------- one number

  /** A single number on more than two axes drops the first axis of both factors; on two axes it is refused. */
  ghost function SelectPair(p: Lora, i: int): Outcome<Lora>
    requires WellFormed(p)
  {
    if Axes(p) == 2 then Raised
    else
      match (Place(i, LeadA(p)[0]), Place(i, Front(p)[0]))
      case (Some(x), Some(y)) =>
        Done(IndexPair(p, [One(x)] + Full(LeadA(p)[1..]), [One(y)] + Full(Front(p)[1..]), 0, Cols(p)))
      case _ => Raised
  }

  /** On an axis it is on, a number is refused exactly along a shared axis other than at its two ends, and is right. */
  lemma SelectExact(p: Lora, i: int)
    requires WellFormed(p) && Fits(p)
    ensures SelectPair(p, i).Done? <==> Axes(p) > 2 && Place(i, Front(p)[0]).Some? &&
                                        (LeadA(p)[0] == Front(p)[0] || i == 0 || i == -1)
    ensures SelectPair(p, i).Done? ==>
              WellFormed(SelectPair(p, i).value) &&
              Product(SelectPair(p, i).value) ==
              IndexTensor(Product(p), [One(Place(i, Front(p)[0]).value)] + Full(Front(p)[1..]) + [Span(0, Cols(p))])
  {
    hide IndexTensor, Product, SourceIx, ShapeIx;
    if Axes(p) > 2 {
      assert LeadA(p)[0] == 1 || LeadA(p)[0] == Front(p)[0];
      var x, y := Place(i, LeadA(p)[0]), Place(i, Front(p)[0]);
      if x.Some? && y.Some? { FirstAxis(p, One(x.value), One(y.value)); }
    }
  }

  // ---------------------------------------------------------------- a tuple

  /** What a subscript means on an axis of length n; a number off the axis means nothing. */
  predicate Meaningful(x: Subscript, n: nat) {
    x.Number? ==> Place(x.i, n).Some?
  }

  function Resolved(x: Subscript, n: nat): (r: Ix)
    requires Meaningful(x, n)
    ensures OnAxis(r, n)
  {
    match x
    case Number(i) => One(Place(i, n).value)
    case Slice(start, stop) => Clip(start, stop, n)
  }

  predicate AllMeaningful(ix: seq<Subscript>, shape: Shape) {
    |ix| == |shape| && forall d :: 0 <= d < |ix| ==> Meaningful(ix[d], shape[d])
  }

  function ResolvedAll(ix: seq<Subscript>, shape: Shape): (r: seq<Ix>)
    requires AllMeaningful(ix, shape)
    ensures |r| == |ix|
  {
    seq(|ix|, d requires 0 <= d < |ix| => Resolved(ix[d], shape[d]))
  }

  /** What A is indexed by along one leading axis: a number modulo its length, or all of it. */
  function SubscriptA(x: Subscript, n: nat): Ix {
    match x
    case Number(i) => One(if n > 0 then i % n else 0)
    case Slice(_, _) => Span(0, n)
  }

  function SubscriptsA(ix: seq<Subscript>, a: Shape): (la: seq<Ix>)
    requires |ix| == |a|
    ensures |la| == |a|
  {
    seq(|a|, d requires 0 <= d < |a| => SubscriptA(ix[d], a[d]))
  }

  /**
   * A tuple of one subscript for each axis. A number off its axis is refused by one factor or the other, and factors
   * that do not belong together by the constructor.
   */
  ghost function TupleIndexed(p: Lora, ix: seq<Subscript>, rows: Subscript, columns: Subscript): Outcome<Lora>
    requires WellFormed(p) && |ix| == Axes(p) - 2
  {
    var b, n := Front(p), Axes(p) - 2;
    if !AllMeaningful(ix, b[..n]) || !Meaningful(rows, b[n]) || !Meaningful(columns, Cols(p)) then Raised
    else
      var q := TuplePair(p, SubscriptsA(ix, LeadA(p)), ResolvedAll(ix, b[..n]), Resolved(rows, b[n]),
                         Resolved(columns, Cols(p)));
      if WellFormed(q) then Done(q) else Raised
  }

  /** A's leading axes indexed by la and its columns by z, B's leading axes by lb and its rows by y. */
  ghost function TuplePair(p: Lora, la: seq<Ix>, lb: seq<Ix>, y: Ix, z: Ix): Lora
    requires WellFormed(p)
  {
    Lora(IndexTensor(p.a, la + [Span(0, Rank(p))] + [z]), IndexTensor(p.b, lb + [y] + [Span(0, Rank(p))]))
  }

  lemma PlaceMod(i: int, a: nat, b: nat)
    requires (a == 1 || a == b) && Place(i, b).Some?
    ensures a > 0 && i % a == Place(i, b).value % a
  {
    if i < 0 && a == b { NegativeMod(i, b); }
  }

  lemma NegativeMod(i: int, n: nat)
    requires i < 0 <= i + n
    ensures i % n == (i + n) % n
  {
    var q, r := i / n, i % n;
    assert q * n + r == i;
    assert (q + 1) * n == i + n - r;
    SmallMultiple(q + 1, n);
    RowSplit(0, i + n, n);
  }

  lemma SameSubscripts(ix: seq<Subscript>, a: Shape, b: Shape)
    requires |a| == |b| && AllMeaningful(ix, b) && forall d :: 0 <= d < |a| ==> a[d] == 1 || a[d] == b[d]
    ensures SubscriptsA(ix, a) == TupleA(ResolvedAll(ix, b), a)
  {
    forall d | 0 <= d < |a| ensures SubscriptA(ix[d], a[d]) == TupleAxis(Resolved(ix[d], b[d]), a[d]) {
      assert Meaningful(ix[d], b[d]);
      if ix[d].Number? { PlaceMod(ix[d].i, a[d], b[d]); }
    }
  }

  /**
   * A tuple of subscripts, the last two of them slices, is refused exactly for a number off its axis. The pair it gives
   * fits exactly when no slice cuts an axis that A has in full, and then stands for the indexed product.
   */
  lemma TupleExact(p: Lora, ix: seq<Subscript>, rows: Subscript, columns: Subscript)
    requires WellFormed(p) && Fits(p) && |ix| == Axes(p) - 2 && rows.Slice? && columns.Slice?
    ensures var b, n := Front(p), Axes(p) - 2;
            var q := TupleIndexed(p, ix, rows, columns);
            && (q.Done? <==> AllMeaningful(ix, b[..n]))
            && (q.Done? ==>
                  var lead := ResolvedAll(ix, b[..n]);
                  var y, z := Resolved(rows, b[n]), Resolved(columns, Cols(p));
                  && WellFormed(q.value)
                  && (Fits(q.value) <==> Safe(lead, LeadA(p)))
                  && (Fits(q.value) ==> Product(q.value) == IndexTensor(Product(p), lead + [y] + [z])))
  {
    hide IndexTensor, Product, SourceIx, ShapeIx, Safe, Clip;
    var b, n := Front(p), Axes(p) - 2;
    if AllMeaningful(ix, b[..n]) {
      var lead := ResolvedAll(ix, b[..n]);
      var y, z := Clip(rows.start, rows.stop, b[n]), Clip(columns.start, columns.stop, Cols(p));
      forall d | 0 <= d < n ensures LeadA(p)[d] == 1 || LeadA(p)[d] == b[..n][d] {}
      SameSubscripts(ix, LeadA(p), b[..n]);
      TupleStands(p, lead, y.lo, y.hi, z.lo, z.hi);
    }
  }

  /** The axes that a number on the rows or the columns leaves of the two factors. */
  lemma NumberedShapes(p: Lora, la: seq<Ix>, lb: seq<Ix>, y: Ix, z: Ix)
    requires WellFormed(p)
    ensures var q := TuplePair(p, la, lb, y, z);
            && q.a.shape == ShapeIx(la) + [Rank(p)] + AxisLength(z)
            && q.b.shape == ShapeIx(lb) + AxisLength(y) + [Rank(p)]
  {
    var whole := Span(0, Rank(p));
    assert AxisLength(whole) == [Rank(p)];
    hide ShapeIx, IndexTensor, AxisLength;
    ShapeLast(la, whole);
    ShapeLast(la + [whole], z);
    ShapeLast(lb, y);
    ShapeLast(lb + [y], whole);
  }

  /** Both factors are left with as many leading axes. */
  lemma {:induction false} SameAxesLeft(ix: seq<Subscript>, a: Shape, b: Shape)
    requires |a| == |b| && AllMeaningful(ix, b)
    ensures |ShapeIx(SubscriptsA(ix, a))| == |ShapeIx(ResolvedAll(ix, b))|
    decreases |ix|
  {
    if ix != [] {
      var n := |ix| - 1;
      LastSubscript(ix, a, b);
      SameAxesLeft(ix[..n], a[..n], b[..n]);
      hide *;
      ShapeLast(SubscriptsA(ix[..n], a[..n]), SubscriptA(ix[n], a[n]));
      ShapeLast(ResolvedAll(ix[..n], b[..n]), Resolved(ix[n], b[n]));
    }
  }

  lemma LastSubscript(ix: seq<Subscript>, a: Shape, b: Shape)
    requires |ix| == |a| > 0 && AllMeaningful(ix, b)
    ensures var n := |ix| - 1;
            && AllMeaningful(ix[..n], b[..n]) && Meaningful(ix[n], b[n])
            && SubscriptsA(ix, a) == SubscriptsA(ix[..n], a[..n]) + [SubscriptA(ix[n], a[n])]
            && ResolvedAll(ix, b) == ResolvedAll(ix[..n], b[..n]) + [Resolved(ix[n], b[n])]
            && |AxisLength(SubscriptA(ix[n], a[n]))| == |AxisLength(Resolved(ix[n], b[n]))|
  {
    var n := |ix| - 1;
    assert Meaningful(ix[n], b[n]);
    assert forall d :: 0 <= d < n ==> Meaningful(ix[d], b[d]);
  }

  /**
   * With a number on the rows or on the columns the constructor refuses the factors: for one of the two always, since
   * their numbers of axes differ; for both unless, by accident, the last axis A is left with is as long as the rank,
   * and then the result has an axis too many.
   */
  lemma NumberedTuple(p: Lora, ix: seq<Subscript>, rows: Subscript, columns: Subscript)
    requires WellFormed(p) && |ix| == Axes(p) - 2 && (rows.Number? || columns.Number?)
    ensures var b, n := Front(p), Axes(p) - 2;
            var q, left := TupleIndexed(p, ix, rows, columns), ShapeIx(SubscriptsA(ix, LeadA(p)));
            && (q.Done? <==>
                AllMeaningful(ix, b[..n]) && Meaningful(rows, b[n]) && Meaningful(columns, Cols(p)) &&
                rows.Number? && columns.Number? && left != [] && left[|left| - 1] == Rank(p))
            && (q.Done? ==>
                var wanted := ResolvedAll(ix, b[..n]) + [Resolved(rows, b[n])] + [Resolved(columns, Cols(p))];
                WellFormed(q.value) && |ShapeOf(q.value)| == |ShapeIx(wanted)| + 1)
  {
    var b, n := Front(p), Axes(p) - 2;
    if AllMeaningful(ix, b[..n]) && Meaningful(rows, b[n]) && Meaningful(columns, Cols(p)) {
      SameAxesLeft(ix, LeadA(p), b[..n]);
      NumberLength(Resolved(rows, b[n]));
      NumberLength(Resolved(columns, Cols(p)));
      hide ShapeIx, SubscriptsA, ResolvedAll, AxisLength, TuplePair, WellFormed, AllMeaningful;
      NumberedPair(p, SubscriptsA(ix, LeadA(p)), ResolvedAll(ix, b[..n]), Resolved(rows, b[n]),
                   Resolved(columns, Cols(p)));
    }
  }

  lemma NumberedPair(p: Lora, la: seq<Ix>, lb: seq<Ix>, y: Ix, z: Ix)
    requires WellFormed(p) && |ShapeIx(la)| == |ShapeIx(lb)| && (y.One? || z.One?)
    ensures var q, left := TuplePair(p, la, lb, y, z), ShapeIx(la);
            && (WellFormed(q) <==> y.One? && z.One? && left != [] && left[|left| - 1] == Rank(p))
            && (WellFormed(q) ==> |ShapeOf(q)| == |ShapeIx(lb + [y] + [z])| + 1)
  {
    var q, rank := TuplePair(p, la, lb, y, z), Rank(p);
    hide *;
    NumberedShapes(p, la, lb, y, z);
    ValidPair(p, la, lb, y, z);
    NumberLength(y);
    NumberLength(z);
    WellFormedShapes(q);
    FactorsBelong(q.a.shape, q.b.shape, ShapeIx(la), ShapeIx(lb), rank, AxisLength(z), AxisLength(y));
    WantedAxes(lb, y, z);
  }

  lemma WantedAxes(lb: seq<Ix>, y: Ix, z: Ix)
    ensures |ShapeIx(lb + [y] + [z])| == |ShapeIx(lb)| + |AxisLength(y)| + |AxisLength(z)|
  {
    hide *;
    ShapeLast(lb, y);
    ShapeLast(lb + [y], z);
  }

  lemma WellFormedShapes(q: Lora)
    requires Valid(q.a) && Valid(q.b)
    ensures WellFormed(q) <==>
            |q.a.shape| == |q.b.shape| >= 2 && q.a.shape[|q.a.shape| - 2] == q.b.shape[|q.b.shape| - 1]
    ensures WellFormed(q) ==> |ShapeOf(q)| == |q.b.shape|
  {}

  lemma NumberLength(x: Ix)
    ensures |AxisLength(x)| == if x.One? then 0 else 1
  {}

  /** What the constructor asserts of the shapes when one of the two last axes is gone. */
  lemma FactorsBelong(a: Shape, b: Shape, leftA: Shape, leftB: Shape, rank: nat, z: Shape, y: Shape)
    requires a == leftA + [rank] + z && b == leftB + y + [rank] && |leftA| == |leftB| && |z| + |y| <= 1
    ensures |a| == |b| >= 2 && a[|a| - 2] == b[|b| - 1] <==>
            |z| == |y| == 0 && |leftA| > 0 && leftA[|leftA| - 1] == rank
  {}

  lemma ValidPair(p: Lora, la: seq<Ix>, lb: seq<Ix>, y: Ix, z: Ix)
    requires WellFormed(p)
    ensures Valid(TuplePair(p, la, lb, y, z).a) && Valid(TuplePair(p, la, lb, y, z).b)
  {}

  // ---------------------------------------------------------------- an ellipsis

  const ALL := Slice(None, None)

  function Alls(n: nat): (ix: seq<Subscript>)
    ensures |ix| == n
  {
    seq(n, _ => ALL)
  }

  /** Fewer subscripts than axes are filled up behind. */
  function Padded(ix: seq<Subscript>, axes: nat): seq<Subscript> {
    if |ix| < axes then ix + Alls(axes - |ix|) else ix
  }

  /**
   * An ellipsis at the end is dropped; elsewhere it is replaced by as many full slices as there are others. On its own
   * it is refused.
   */
  function Expanded(before: seq<Subscript>, after: seq<Subscript>, axes: nat): seq<Subscript>
    requires before != [] || after != []
  {
    Padded(if after == [] then before else before + Alls(|before| + |after|) + after, axes)
  }

  /** What an ellipsis means for a tensor: full slices for all axes that the others leave. */
  function Elided(before: seq<Subscript>, after: seq<Subscript>, axes: nat): seq<Subscript>
    requires |before| + |after| <= axes
  {
    before + Alls(axes - |before| - |after|) + after
  }

  /** A slice of the whole axis, whatever its length. */
  predicate TakesAll(x: Subscript) {
    x.Slice? && (x.start == None || x.start == Some(0)) && x.stop == None
  }

  /** Subscripts that mean the same on every tensor of as many axes. */
  ghost predicate SameMeaning(x: seq<Subscript>, y: seq<Subscript>, axes: nat) {
    forall shape: Shape :: |shape| == axes ==> SameOn(x, y, shape)
  }

  ghost predicate SameOn(x: seq<Subscript>, y: seq<Subscript>, shape: Shape) {
    (AllMeaningful(x, shape) <==> AllMeaningful(y, shape)) &&
    (AllMeaningful(x, shape) ==> ResolvedAll(x, shape) == ResolvedAll(y, shape))
  }

  /**
   * It is expanded to what it means exactly at the end, where it stands for half of the axes, or where it stands for
   * more and nothing but slices of whole axes come behind it. Standing for less it gives too many subscripts.
   */
  lemma EllipsisExact(before: seq<Subscript>, after: seq<Subscript>, axes: nat)
    requires 0 < |before| + |after| <= axes
    ensures SameMeaning(Expanded(before, after, axes), Elided(before, after, axes), axes) <==>
            var k := |before| + |after|;
            after == [] || 2 * k == axes || (2 * k < axes && forall i :: 0 <= i < |after| ==> TakesAll(after[i]))
    ensures after != [] && 2 * (|before| + |after|) > axes ==> |Expanded(before, after, axes)| > axes
  {
    var k := |before| + |after|;
    var e, f := Expanded(before, after, axes), Elided(before, after, axes);
    if after == [] || 2 * k == axes {
      assert e == f;
    } else if 2 * k > axes {
      assert |e| > axes;
      var shape := Long(axes, Reach(f));
      LongMeaningful(f, axes, Reach(f));
      assert !SameOn(e, f, shape);
    } else if forall i :: 0 <= i < |after| ==> TakesAll(after[i]) {
      forall shape: Shape | |shape| == axes ensures SameOn(e, f, shape) {
        WholeBehind(e, f, |before|, shape);
      }
    } else {
      var i :| 0 <= i < |after| && !TakesAll(after[i]);
      Distinguished(before, after, axes, i);
    }
  }

  /** Where they differ both take the whole axis. */
  lemma WholeBehind(x: seq<Subscript>, y: seq<Subscript>, n: nat, shape: Shape)
    requires n <= |x| == |y| == |shape| && forall d :: 0 <= d < n ==> x[d] == y[d]
    requires forall d :: n <= d < |x| ==> TakesAll(x[d]) && TakesAll(y[d])
    ensures SameOn(x, y, shape)
  {
    forall d | 0 <= d < |x|
      ensures Meaningful(x[d], shape[d]) == Meaningful(y[d], shape[d])
      ensures Meaningful(x[d], shape[d]) ==> Resolved(x[d], shape[d]) == Resolved(y[d], shape[d])
    {}
  }

  function Magnitude(e: Option<int>): nat {
    match e case None => 0 case Some(v) => if v < 0 then -v else v
  }

  /** An axis length beyond everything a subscript mentions. */
  function ReachOf(x: Subscript): nat {
    match x
    case Number(i) => Magnitude(Some(i)) + 1
    case Slice(start, stop) => Magnitude(start) + Magnitude(stop) + 1
  }

  function Reach(ix: seq<Subscript>): (r: nat)
    ensures forall d :: 0 <= d < |ix| ==> ReachOf(ix[d]) <= r
  {
    if ix == [] then 0 else
      var r := Reach(ix[..|ix| - 1]);
      assert forall d :: 0 <= d < |ix| - 1 ==> ix[..|ix| - 1][d] == ix[d];
      r + ReachOf(ix[|ix| - 1])
  }

  function Long(axes: nat, n: nat): (shape: Shape)
    ensures |shape| == axes
  {
    seq(axes, _ => n)
  }

  lemma LongMeaningful(ix: seq<Subscript>, axes: nat, n: nat)
    requires |ix| == axes && forall d :: 0 <= d < |ix| ==> ReachOf(ix[d]) <= n
    ensures AllMeaningful(ix, Long(axes, n))
  {}

  /** Only a slice of the whole axis leaves all of a long one, and a number leaves no axis of length zero. */
  lemma NotAll(x: Subscript, n: nat)
    requires !TakesAll(x) && ReachOf(x) <= n
    ensures Meaningful(x, n)
    ensures Resolved(x, n) != Span(0, n)
  {}

  lemma {:induction false} Distinguished(before: seq<Subscript>, after: seq<Subscript>, axes: nat, i: nat)
    requires 2 * (|before| + |after|) < axes && i < |after| && !TakesAll(after[i])
    ensures !SameMeaning(Expanded(before, after, axes), Elided(before, after, axes), axes)
    decreases i
  {
    var k, e, f := |before| + |after|, Expanded(before, after, axes), Elided(before, after, axes);
    var at, more := |before| + k + i, axes - 2 * k;
    assert e[at] == after[i];
    if i >= more && !TakesAll(after[i - more]) {
      Distinguished(before, after, axes, i - more);
    } else {
      assert TakesAll(f[at]) by {
        if i < more { assert f[at] == ALL; } else { assert f[at] == after[i - more]; }
      }
      var n := Reach(e) + Reach(f);
      var shape := Long(axes, n);
      LongMeaningful(e, axes, n);
      LongMeaningful(f, axes, n);
      NotAll(e[at], n);
      assert ResolvedAll(e, shape)[at] != ResolvedAll(f, shape)[at];
      assert !SameOn(e, f, shape);
    }
  }

  /** Indexing with an ellipsis, with what the expansion makes of it; too many subscripts are refused. */
  ghost function EllipsisIndexed(p: Lora, before: seq<Subscript>, after: seq<Subscript>): Outcome<Lora>
    requires WellFormed(p) && (before != [] || after != [])
  {
    TupleOf(p, Expanded(before, after, Axes(p)))
  }

  ghost function TupleOf(p: Lora, ix: seq<Subscript>): Outcome<Lora>
    requires WellFormed(p)
  {
    var n := Axes(p) - 2;
    if |ix| != n + 2 then Raised else TupleIndexed(p, ix[..n], ix[n], ix[n + 1])
  }

  /** Expanded to what it means, it indexes a pair as it should. */
  lemma EllipsisIndexes(p: Lora, before: seq<Subscript>, after: seq<Subscript>)
    requires WellFormed(p) && 0 < |before| + |after| <= Axes(p)
    requires SameMeaning(Expanded(before, after, Axes(p)), Elided(before, after, Axes(p)), Axes(p))
    ensures EllipsisIndexed(p, before, after) == TupleOf(p, Elided(before, after, Axes(p)))
  {
    var n, k := Axes(p) - 2, |before| + |after|;
    var e, f := Expanded(before, after, Axes(p)), Elided(before, after, Axes(p));
    EllipsisExact(before, after, Axes(p));
    if after == [] || 2 * k == Axes(p) {
      assert e == f;
    } else {
      forall d | 0 <= d < n + 2 ensures Alike(e[d], f[d]) {}
      hide Expanded, Elided;
      AlikeIndexes(p, e, f);
    }
  }

  predicate Alike(x: Subscript, y: Subscript) {
    x == y || (TakesAll(x) && TakesAll(y))
  }

  lemma AlikeMeans(x: Subscript, y: Subscript, m: nat)
    requires Alike(x, y)
    ensures Meaningful(x, m) == Meaningful(y, m) && SubscriptA(x, m) == SubscriptA(y, m)
    ensures Meaningful(x, m) ==> Resolved(x, m) == Resolved(y, m)
  {}

  lemma AlikeOnAxes(x: seq<Subscript>, y: seq<Subscript>, a: Shape, b: Shape)
    requires |x| == |y| == |a| == |b| && forall d :: 0 <= d < |x| ==> Alike(x[d], y[d])
    ensures AllMeaningful(x, b) == AllMeaningful(y, b) && SubscriptsA(x, a) == SubscriptsA(y, a)
    ensures AllMeaningful(x, b) ==> ResolvedAll(x, b) == ResolvedAll(y, b)
  {
    hide Alike, Meaningful, Resolved, SubscriptA;
    forall d | 0 <= d < |x|
      ensures Meaningful(x[d], b[d]) == Meaningful(y[d], b[d]) && SubscriptA(x[d], a[d]) == SubscriptA(y[d], a[d])
      ensures Meaningful(x[d], b[d]) ==> Resolved(x[d], b[d]) == Resolved(y[d], b[d])
    {
      AlikeMeans(x[d], y[d], a[d]);
      AlikeMeans(x[d], y[d], b[d]);
    }
  }

  lemma AlikeIndexes(p: Lora, x: seq<Subscript>, y: seq<Subscript>)
    requires WellFormed(p) && |x| == |y| == Axes(p) && forall d :: 0 <= d < |x| ==> Alike(x[d], y[d])
    ensures TupleOf(p, x) == TupleOf(p, y)
  {
    var n := Axes(p) - 2;
    AlikeOnAxes(x[..n], y[..n], LeadA(p), Front(p)[..n]);
    AlikeMeans(x[n], y[n], Front(p)[n]);
    AlikeMeans(x[n + 1], y[n + 1], Cols(p));
    hide Alike, AllMeaningful, Meaningful, Resolved, ResolvedAll, SubscriptsA, TuplePair;
  }
}
