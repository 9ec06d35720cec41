/**
 * Indexing factored weights (convert_lora_to_gguf.py) by one position or one stretch for each axis: when the indexed
 * factors stand for the indexed product.
 */
module LoraParts {
  import opened Tensors
  import opened LoraTensors
  import opened LoraAxes

  datatype Ix = One(i: nat) | Span(lo: nat, hi: nat)

  // ---------------------------------------------------------------- indexing a dense tensor

  ghost predicate InBounds(ix: seq<Ix>, shape: Shape) {
    |ix| == |shape| && forall d :: 0 <= d < |ix| ==> OnAxis(ix[d], shape[d])
  }

  predicate OnAxis(x: Ix, n: nat) {
    match x
    case One(i) => i < n
    case Span(lo, hi) => lo <= hi <= n
  }

  function AxisLength(x: Ix): Shape {
    match x
    case One(i) => []
    case Span(lo, hi) => [if lo <= hi then hi - lo else 0]
  }

  /** A single number drops its axis. */
  function ShapeIx(ix: seq<Ix>): Shape {
    if ix == [] then [] else ShapeIx(ix[..|ix| - 1]) + AxisLength(ix[|ix| - 1])
  }

  /** The index in the original of what the indexed tensor has at idx. */
  function SourceIx(ix: seq<Ix>, idx: Index): (s: Index)
    requires |idx| == |ShapeIx(ix)|
    ensures |s| == |ix|
  {
    if ix == [] then []
    else
      match ix[|ix| - 1]
      case One(i) => SourceIx(ix[..|ix| - 1], idx) + [i]
      case Span(lo, hi) => SourceIx(ix[..|ix| - 1], idx[..|idx| - 1]) + [lo + idx[|idx| - 1]]
  }

  ghost function IndexTensor(t: Tensor, ix: seq<Ix>): (u: Tensor)
    ensures Valid(u) && u.shape == ShapeIx(ix)
  {
    Build(ShapeIx(ix), idx => if |idx| == |ShapeIx(ix)| then At(t, SourceIx(ix, idx)) else 0.0)
  }

  lemma IndexAt(t: Tensor, ix: seq<Ix>, idx: Index)
    requires InRange(ShapeIx(ix), idx)
    ensures At(IndexTensor(t, ix), idx) == At(t, SourceIx(ix, idx))
  {
    BuildAt(ShapeIx(ix), i => if |i| == |ShapeIx(ix)| then At(t, SourceIx(ix, i)) else 0.0, idx);
  }

  lemma SourceSpan(ix: seq<Ix>, lo: nat, hi: nat, idx: Index, k: nat)
    requires lo <= hi && |idx| == |ShapeIx(ix)|
    ensures ShapeIx(ix + [Span(lo, hi)]) == ShapeIx(ix) + [hi - lo]
    ensures SourceIx(ix + [Span(lo, hi)], idx + [k]) == SourceIx(ix, idx) + [lo + k]
  {
    ShapeSpan(ix, lo, hi);
    SourceUnfolds(ix + [Span(lo, hi)], idx + [k]);
    hide SourceIx, ShapeIx;
    assert (ix + [Span(lo, hi)])[..|ix|] == ix && (idx + [k])[..|idx|] == idx;
  }

  lemma ShapeUnfolds(ix: seq<Ix>)
    requires ix != []
    ensures ShapeIx(ix) == ShapeIx(ix[..|ix| - 1]) + AxisLength(ix[|ix| - 1])
  {}

  lemma SourceUnfolds(ix: seq<Ix>, idx: Index)
    requires ix != [] && ix[|ix| - 1].Span? && |idx| == |ShapeIx(ix)|
    ensures |idx| > 0 && |idx| - 1 == |ShapeIx(ix[..|ix| - 1])|
    ensures SourceIx(ix, idx) == SourceIx(ix[..|ix| - 1], idx[..|idx| - 1]) + [ix[|ix| - 1].lo + idx[|idx| - 1]]
  {}

  lemma ShapeLast(ix: seq<Ix>, x: Ix)
    ensures ShapeIx(ix + [x]) == ShapeIx(ix) + AxisLength(x)
  {
    ShapeUnfolds(ix + [x]);
    hide ShapeIx;
    assert (ix + [x])[..|ix|] == ix;
  }

  lemma ShapeSpan(ix: seq<Ix>, lo: nat, hi: nat)
    requires lo <= hi
    ensures ShapeIx(ix + [Span(lo, hi)]) == ShapeIx(ix) + [hi - lo]
  {
    hide ShapeIx;
    ShapeLast(ix, Span(lo, hi));
  }

  lemma {:induction false} SourceInBounds(ix: seq<Ix>, shape: Shape, idx: Index)
    requires InBounds(ix, shape) && InRange(ShapeIx(ix), idx)
    ensures InRange(shape, SourceIx(ix, idx))
    decreases |ix|
  {
    if ix != [] {
      var n := |ix| - 1;
      match ix[n]
      case One(i) => SourceInBounds(ix[..n], shape[..n], idx);
      case Span(lo, hi) =>
        var m := |idx| - 1;
        SplitLast(ShapeIx(ix[..n]), hi - lo, idx);
        SourceInBounds(ix[..n], shape[..n], idx[..m]);
        assert lo + idx[m] < shape[n];
    }
  }

  // ---------------------------------------------------------------- indexing a pair

  /** A's leading axes indexed by la, the product's leading axes by lb, its last axis by lo to hi. */
  ghost function IndexPair(p: Lora, la: seq<Ix>, lb: seq<Ix>, lo: nat, hi: nat): Lora
    requires WellFormed(p)
  {
    Lora(IndexTensor(p.a, la + [Span(0, Rank(p))] + [Span(lo, hi)]), IndexTensor(p.b, lb + [Span(0, Rank(p))]))
  }

  /** Indexing first and broadcasting then finds the same matrix of A as the other way round. */
  ghost predicate Aligned(p: Lora, la: seq<Ix>, lb: seq<Ix>)
    requires WellFormed(p)
  {
    |la| == Axes(p) - 2 && |lb| == Axes(p) - 1 && |ShapeIx(la)| + 1 == |ShapeIx(lb)| &&
    forall m :: InRange(ShapeIx(lb), m) ==> AlignedAt(p, la, lb, m)
  }

  ghost predicate AlignedAt(p: Lora, la: seq<Ix>, lb: seq<Ix>, m: Index)
    requires WellFormed(p) && |la| == Axes(p) - 2 && |lb| == Axes(p) - 1 && |ShapeIx(la)| + 1 == |ShapeIx(lb)| == |m|
  {
    InRange(ShapeIx(la), Broadcast(ShapeIx(la), m)) &&
    SourceIx(la, Broadcast(ShapeIx(la), m)) == Broadcast(LeadA(p), SourceIx(lb, m))
  }

  lemma IndexedShape(p: Lora, la: seq<Ix>, lb: seq<Ix>, lo: nat, hi: nat)
    requires WellFormed(p) && |ShapeIx(la)| + 1 == |ShapeIx(lb)| && lo <= hi
    ensures var q := IndexPair(p, la, lb, lo, hi);
            WellFormed(q) && Rank(q) == Rank(p) && Cols(q) == hi - lo &&
            Front(q) == ShapeIx(lb) && LeadA(q) == ShapeIx(la)
  {
    ShapeSpan(la, 0, Rank(p));
    ShapeSpan(la + [Span(0, Rank(p))], lo, hi);
    ShapeSpan(lb, 0, Rank(p));
  }

  lemma SourceInSpan(ix: seq<Ix>, lo: nat, hi: nat, idx: Index, k: nat)
    requires InRange(ShapeIx(ix), idx) && lo + k < hi
    ensures InRange(ShapeIx(ix + [Span(lo, hi)]), idx + [k])
    ensures SourceIx(ix + [Span(lo, hi)], idx + [k]) == SourceIx(ix, idx) + [lo + k]
  {
    hide SourceIx, ShapeIx;
    SourceSpan(ix, lo, hi, idx, k);
  }

  lemma SourceInSpans(la: seq<Ix>, rank: nat, lo: nat, hi: nat, l: Index, k: nat, j: nat)
    requires InRange(ShapeIx(la), l) && k < rank && lo + j < hi
    ensures InRange(ShapeIx(la + [Span(0, rank)] + [Span(lo, hi)]), l + [k, j])
    ensures SourceIx(la + [Span(0, rank)] + [Span(lo, hi)], l + [k, j]) == SourceIx(la, l) + [k, lo + j]
  {
    SourceInSpan(la, 0, rank, l, k);
    SourceInSpan(la + [Span(0, rank)], lo, hi, l + [k], j);
    assert l + [k] + [j] == l + [k, j];
  }

  lemma IndexedSpanAt(t: Tensor, ix: seq<Ix>, lo: nat, hi: nat, idx: Index, k: nat)
    requires |idx| == |ShapeIx(ix)| && InRange(ShapeIx(ix), idx) && lo + k < hi
    ensures At(IndexTensor(t, ix + [Span(lo, hi)]), idx + [k]) == At(t, SourceIx(ix, idx) + [lo + k])
  {
    hide SourceIx, ShapeIx, IndexTensor, At;
    SourceInSpan(ix, lo, hi, idx, k);
    IndexAt(t, ix + [Span(lo, hi)], idx + [k]);
  }

  lemma IndexedRow(t: Tensor, lb: seq<Ix>, rank: nat, m: Index)
    requires InRange(ShapeIx(lb), m)
    ensures Row(IndexTensor(t, lb + [Span(0, rank)]), m, rank) == Row(t, SourceIx(lb, m), rank)
  {
    hide At, Build, IndexTensor, SourceIx, Prod;
    var u, s := IndexTensor(t, lb + [Span(0, rank)]), SourceIx(lb, m);
    forall k | 0 <= k < rank ensures Row(u, m, rank)[k] == Row(t, s, rank)[k] { IndexedSpanAt(t, lb, 0, rank, m, k); }
  }

  lemma IndexedCell(t: Tensor, la: seq<Ix>, rank: nat, lo: nat, hi: nat, l: Index, k: nat, j: nat)
    requires InRange(ShapeIx(la), l) && k < rank && lo + j < hi
    ensures At(IndexTensor(t, la + [Span(0, rank)] + [Span(lo, hi)]), l + [k, j]) ==
            At(t, SourceIx(la, l) + [k, lo + j])
  {
    SourceInSpans(la, rank, lo, hi, l, k, j);
    IndexAt(t, la + [Span(0, rank)] + [Span(lo, hi)], l + [k, j]);
  }

  lemma IndexedColumn(t: Tensor, la: seq<Ix>, rank: nat, lo: nat, hi: nat, l: Index, j: nat)
    requires InRange(ShapeIx(la), l) && lo + j < hi
    ensures Column(IndexTensor(t, la + [Span(0, rank)] + [Span(lo, hi)]), l, j, rank) ==
            Column(t, SourceIx(la, l), lo + j, rank)
  {
    var u, s := IndexTensor(t, la + [Span(0, rank)] + [Span(lo, hi)]), SourceIx(la, l);
    forall k | 0 <= k < rank ensures Column(u, l, j, rank)[k] == Column(t, s, lo + j, rank)[k] {
      IndexedCell(t, la, rank, lo, hi, l, k, j);
    }
  }

  lemma IndexedElement(p: Lora, q: Lora, la: seq<Ix>, lb: seq<Ix>, lo: nat, hi: nat, m: Index, j: nat)
    requires WellFormed(p) && Aligned(p, la, lb) && lo + j < hi && InRange(ShapeIx(lb), m)
    requires q == IndexPair(p, la, lb, lo, hi) && WellFormed(q) && Rank(q) == Rank(p) && LeadA(q) == ShapeIx(la)
    requires Front(q) == ShapeIx(lb)
    ensures Element(q, m, j) == Element(p, SourceIx(lb, m), lo + j)
  {
    assert AlignedAt(p, la, lb, m);
    IndexedRow(p.b, lb, Rank(p), m);
    IndexedColumn(p.a, la, Rank(p), lo, hi, Broadcast(ShapeIx(la), m), j);
  }

  lemma ProductAtSource(p: Lora, t: Tensor, lb: seq<Ix>, m: Index, n: nat)
    requires WellFormed(p) && InBounds(lb, Front(p)) && n < Cols(p) && InRange(ShapeIx(lb), m) && t == Product(p)
    ensures Element(p, SourceIx(lb, m), n) == At(t, SourceIx(lb, m) + [n])
  {
    SourceInBounds(lb, Front(p), m);
    ProductAt(p, SourceIx(lb, m), n);
  }

  lemma IndexedValue(e: real, t: Tensor, lb: seq<Ix>, lo: nat, hi: nat, m: Index, j: nat)
    requires InRange(ShapeIx(lb), m) && lo + j < hi && e == At(t, SourceIx(lb, m) + [lo + j])
    ensures e == At(IndexTensor(t, lb + [Span(lo, hi)]), m + [j])
  {
    IndexedSpanAt(t, lb, lo, hi, m, j);
  }

  lemma IndexedProductValue(e: real, p: Lora, t: Tensor, lb: seq<Ix>, lo: nat, hi: nat, m: Index, j: nat)
    requires WellFormed(p) && InBounds(lb, Front(p)) && lo + j < hi <= Cols(p) && InRange(ShapeIx(lb), m) &&
             t == Product(p)
    requires e == Element(p, SourceIx(lb, m), lo + j)
    ensures e == At(IndexTensor(t, lb + [Span(lo, hi)]), m + [j])
  {
    hide At, Build, IndexTensor, Element, SourceIx, Product, Prod;
    ProductAtSource(p, t, lb, m, lo + j);
    IndexedValue(e, t, lb, lo, hi, m, j);
  }

  /** The elements of q are those of p, found by indexing. */
  ghost predicate ElementsFrom(q: Lora, p: Lora, lb: seq<Ix>, lo: nat)
    requires WellFormed(p) && WellFormed(q) && Axes(p) == |lb| + 1 && Front(q) == ShapeIx(lb)
  {
    forall m: Index, j: nat :: InRange(Front(q), m) && j < Cols(q) ==>
      Element(q, m, j) == Element(p, SourceIx(lb, m), lo + j)
  }

  lemma IndexedElements(p: Lora, q: Lora, la: seq<Ix>, lb: seq<Ix>, lo: nat, hi: nat)
    requires WellFormed(p) && Aligned(p, la, lb) && lo <= hi
    requires q == IndexPair(p, la, lb, lo, hi) && WellFormed(q) && Rank(q) == Rank(p) && Cols(q) == hi - lo
    requires LeadA(q) == ShapeIx(la) && Front(q) == ShapeIx(lb)
    ensures ElementsFrom(q, p, lb, lo)
  {
    forall m: Index, j: nat | InRange(Front(q), m) && j < Cols(q)
      ensures Element(q, m, j) == Element(p, SourceIx(lb, m), lo + j) {
      IndexedElement(p, q, la, lb, lo, hi, m, j);
    }
  }

  lemma FromIndexedElements(p: Lora, q: Lora, t: Tensor, u: Tensor, lb: seq<Ix>, lo: nat, hi: nat)
    requires WellFormed(p) && WellFormed(q) && InBounds(lb, Front(p)) && lo <= hi <= Cols(p) && t == Product(p)
    requires Front(q) == ShapeIx(lb) && Cols(q) == hi - lo && ElementsFrom(q, p, lb, lo)
    requires u == IndexTensor(t, lb + [Span(lo, hi)])
    ensures Product(q) == u
  {
    hide At, Build, IndexTensor, Element, SourceIx, Product, Prod, Valid;
    ShapeSpan(lb, lo, hi);
    forall m: Index, j: nat | InRange(Front(q), m) && j < Cols(q) ensures Element(q, m, j) == At(u, m + [j]) {
      IndexedProductValue(Element(q, m, j), p, t, lb, lo, hi, m, j);
    }
    FromElements(q, u);
  }

  /** An aligned pair of indexed factors is the indexed product. */
  lemma IndexedPair(p: Lora, la: seq<Ix>, lb: seq<Ix>, lo: nat, hi: nat)
    requires WellFormed(p) && Aligned(p, la, lb) && InBounds(lb, Front(p)) && lo <= hi <= Cols(p)
    ensures WellFormed(IndexPair(p, la, lb, lo, hi))
    ensures Product(IndexPair(p, la, lb, lo, hi)) == IndexTensor(Product(p), lb + [Span(lo, hi)])
  {
    var q := IndexPair(p, la, lb, lo, hi);
    IndexedShape(p, la, lb, lo, hi);
    IndexedElements(p, q, la, lb, lo, hi);
    FromIndexedElements(p, q, Product(p), IndexTensor(Product(p), lb + [Span(lo, hi)]), lb, lo, hi);
  }

  // ---------------------------------------------------------------- axis by axis

  /** One axis of A and one of the product, A's axis having length n: they index alike, or nothing is left to index. */
  predicate AxisOk(x: Ix, y: Ix, n: nat) {
    match (x, y)
    case (One(i), One(k)) => i == if n == 1 then 0 else k
    case (Span(lo, hi), Span(lo2, hi2)) =>
      lo <= hi && lo2 <= hi2 && (hi - lo == 1 || hi - lo == hi2 - lo2) &&
      (lo2 == hi2 || if n == 1 then lo == 0 && hi == 1 else lo == lo2 && hi == hi2)
    case _ => false
  }

  ghost predicate AxesOk(la: seq<Ix>, lb: seq<Ix>, a: Shape) {
    |la| == |lb| == |a| && forall d :: 0 <= d < |a| ==> AxisOk(la[d], lb[d], a[d])
  }

  /** What broadcasting needs: every axis of A is 1 or as long as the product's. */
  ghost predicate Broadcasts(a: Shape, b: Shape) {
    |a| <= |b| && forall d :: 0 <= d < |a| ==> a[d] == 1 || a[d] == b[d]
  }

  lemma {:induction false} OkShapes(la: seq<Ix>, lb: seq<Ix>, a: Shape)
    requires AxesOk(la, lb, a)
    ensures |ShapeIx(la)| == |ShapeIx(lb)| && Broadcasts(ShapeIx(la), ShapeIx(lb))
    decreases |a|
  {
    if a != [] {
      var n := |a| - 1;
      OkShapes(la[..n], lb[..n], a[..n]);
      assert AxisOk(la[n], lb[n], a[n]);
    }
  }

  /** Broadcasting the index and then indexing A is indexing the product and then broadcasting. */
  ghost predicate SameMatrix(la: seq<Ix>, lb: seq<Ix>, a: Shape, m: Index) {
    |ShapeIx(la)| == |ShapeIx(lb)| == |m| && |la| == |lb| == |a| &&
    InRange(ShapeIx(la), Broadcast(ShapeIx(la), m)) &&
    SourceIx(la, Broadcast(ShapeIx(la), m)) == Broadcast(a, SourceIx(lb, m))
  }

  lemma BroadcastLast(a: Shape, c: nat, i: Index, k: nat)
    requires |i| == |a|
    ensures Broadcast(a + [c], i + [k]) == Broadcast(a, i) + [if c == 1 then 0 else k]
  {}

  lemma SourceOne(ix: seq<Ix>, i: nat, idx: Index)
    requires |idx| == |ShapeIx(ix)|
    ensures ShapeIx(ix + [One(i)]) == ShapeIx(ix) && SourceIx(ix + [One(i)], idx) == SourceIx(ix, idx) + [i]
  {
    assert (ix + [One(i)])[..|ix|] == ix;
  }

  lemma SameMatrixOne(la: seq<Ix>, lb: seq<Ix>, a: Shape, m: Index, i: nat, k: nat, n: nat)
    requires SameMatrix(la, lb, a, m) && i == if n == 1 then 0 else k
    ensures SameMatrix(la + [One(i)], lb + [One(k)], a + [n], m)
  {
    SourceOne(la, i, Broadcast(ShapeIx(la), m));
    SourceOne(lb, k, m);
    BroadcastLast(a, n, SourceIx(lb, m), k);
  }

  lemma InRangeLast(front: Shape, c: nat, i: Index, j: nat)
    requires InRange(front, i) && j < c
    ensures InRange(front + [c], i + [j])
  {}

  lemma SameMatrixSpan(la: seq<Ix>, lb: seq<Ix>, a: Shape, m: Index, lo: nat, hi: nat, lo2: nat, hi2: nat, n: nat,
                       j: nat)
    requires SameMatrix(la, lb, a, m) && AxisOk(Span(lo, hi), Span(lo2, hi2), n) && lo2 + j < hi2
    ensures SameMatrix(la + [Span(lo, hi)], lb + [Span(lo2, hi2)], a + [n], m + [j])
  {
    hide SourceIx, ShapeIx;
    var l, k := Broadcast(ShapeIx(la), m), if hi - lo == 1 then 0 else j;
    SourceSpan(la, lo, hi, l, k);
    SourceSpan(lb, lo2, hi2, m, j);
    BroadcastLast(ShapeIx(la), hi - lo, m, j);
    BroadcastLast(a, n, SourceIx(lb, m), lo2 + j);
    InRangeLast(ShapeIx(la), hi - lo, l, k);
  }

  lemma SameMatrixNone(m: Index)
    requires InRange(ShapeIx([]), m)
    ensures SameMatrix([], [], [], m)
  {}

  lemma AxesOkLast(la: seq<Ix>, lb: seq<Ix>, a: Shape, x: Ix, y: Ix, c: nat)
    requires |la| == |lb| == |a| && AxesOk(la + [x], lb + [y], a + [c])
    ensures AxesOk(la, lb, a) && AxisOk(x, y, c)
  {
    forall d | 0 <= d < |a| ensures AxisOk(la[d], lb[d], a[d]) {
      assert AxisOk((la + [x])[d], (lb + [y])[d], (a + [c])[d]);
    }
    assert AxisOk((la + [x])[|a|], (lb + [y])[|a|], (a + [c])[|a|]);
  }

  lemma InRangeOne(lb: seq<Ix>, y: Ix, m: Index)
    requires y.One? && InRange(ShapeIx(lb + [y]), m)
    ensures InRange(ShapeIx(lb), m)
  {
    ShapeLast(lb, y);
  }

  lemma InRangeSpan(lb: seq<Ix>, y: Ix, m: Index)
    requires y.Span? && y.lo <= y.hi && InRange(ShapeIx(lb + [y]), m)
    ensures m != [] && InRange(ShapeIx(lb), m[..|m| - 1]) && y.lo + m[|m| - 1] < y.hi
  {
    ShapeLast(lb, y);
    SplitLast(ShapeIx(lb), y.hi - y.lo, m);
  }

  lemma OkAlignedLast(la: seq<Ix>, lb: seq<Ix>, a: Shape, x: Ix, y: Ix, c: nat, m: Index)
    requires |la| == |lb| == |a| && AxesOk(la + [x], lb + [y], a + [c]) && InRange(ShapeIx(lb + [y]), m)
    ensures SameMatrix(la + [x], lb + [y], a + [c], m)
    decreases |a| + 1, 0
  {
    hide AxesOk, ShapeIx, SourceIx, SameMatrix, Broadcast;
    AxesOkLast(la, lb, a, x, y, c);
    if x.One? {
      InRangeOne(lb, y, m);
      OkAligned(la, lb, a, m);
      SameMatrixOne(la, lb, a, m, x.i, y.i, c);
    } else {
      InRangeSpan(lb, y, m);
      var e := |m| - 1;
      OkAligned(la, lb, a, m[..e]);
      SameMatrixSpan(la, lb, a, m[..e], x.lo, x.hi, y.lo, y.hi, c, m[e]);
      assert m[..e] + [m[e]] == m;
    }
  }

  lemma {:induction false} OkAligned(la: seq<Ix>, lb: seq<Ix>, a: Shape, m: Index)
    requires AxesOk(la, lb, a) && InRange(ShapeIx(lb), m)
    ensures SameMatrix(la, lb, a, m)
    decreases |a|, 1
  {
    hide ShapeIx, SourceIx, SameMatrix, Broadcast;
    if a == [] {
      SameMatrixNone(m);
    } else {
      var n := |a| - 1;
      assert la[..n] + [la[n]] == la && lb[..n] + [lb[n]] == lb && a[..n] + [a[n]] == a;
      OkAlignedLast(la[..n], lb[..n], a[..n], la[n], lb[n], a[n], m);
    }
  }

  /** The product's leading axes are A's, then the axis of rows, which is sliced. */
  lemma AlignedPair(p: Lora, la: seq<Ix>, lb: seq<Ix>, lo: nat, hi: nat)
    requires WellFormed(p) && AxesOk(la, lb, LeadA(p)) && lo <= hi
    ensures Aligned(p, la, lb + [Span(lo, hi)])
  {
    OkShapes(la, lb, LeadA(p));
    ShapeSpan(lb, lo, hi);
    forall m | InRange(ShapeIx(lb + [Span(lo, hi)]), m) ensures AlignedAt(p, la, lb + [Span(lo, hi)], m) {
      AlignedRowAt(p, la, lb, lo, hi, m);
    }
  }

  lemma BroadcastPrefix(a: Shape, i: Index, k: nat)
    requires |a| <= |i|
    ensures Broadcast(a, i + [k]) == Broadcast(a, i)
  {}

  lemma AlignedRowAt(p: Lora, la: seq<Ix>, lb: seq<Ix>, lo: nat, hi: nat, m: Index)
    requires WellFormed(p) && AxesOk(la, lb, LeadA(p)) && lo <= hi && |ShapeIx(la)| == |ShapeIx(lb)|
    requires ShapeIx(lb + [Span(lo, hi)]) == ShapeIx(lb) + [hi - lo] && InRange(ShapeIx(lb + [Span(lo, hi)]), m)
    ensures AlignedAt(p, la, lb + [Span(lo, hi)], m)
  {
    hide SourceIx, ShapeIx;
    SplitLast(ShapeIx(lb), hi - lo, m);
    var front, j := m[..|ShapeIx(lb)|], m[|ShapeIx(lb)|];
    OkAligned(la, lb, LeadA(p), front);
    SourceSpan(lb, lo, hi, front, j);
    BroadcastPrefix(ShapeIx(la), front, j);
    BroadcastPrefix(LeadA(p), SourceIx(lb, front), lo + j);
  }

  // ---------------------------------------------------------------- a tuple of indices

  /** What broadcasting needs of a pair. */
  ghost predicate Fits(p: Lora)
    requires WellFormed(p)
  {
    Broadcasts(LeadA(p), Front(p))
  }

  function TupleAxis(x: Ix, n: nat): Ix {
    match x
    case One(i) => if n > 0 then One(i % n) else One(i)
    case Span(lo, hi) => Span(0, n)
  }

  /** The indices taken on A's leading axes: numbers modulo the length, every slice replaced by the whole axis. */
  function TupleA(ix: seq<Ix>, a: Shape): (la: seq<Ix>)
    requires |ix| == |a|
    ensures |la| == |a|
  {
    seq(|a|, d requires 0 <= d < |a| => TupleAxis(ix[d], a[d]))
  }

  /** Indexing with one index for each axis, rows and columns being sliced. */
  ghost function TuplePair(p: Lora, ix: seq<Ix>, r0: nat, r1: nat, c0: nat, c1: nat): Lora
    requires WellFormed(p) && |ix| == Axes(p) - 2
  {
    IndexPair(p, TupleA(ix, LeadA(p)), ix + [Span(r0, r1)], c0, c1)
  }

  /** Taking all of A's axis is right if it has length one, or the slice takes as much. */
  predicate SafeAxis(x: Ix, n: nat) {
    x.One? || n == 1 || AxisLength(x) == [n]
  }

  ghost predicate Safe(ix: seq<Ix>, a: Shape) {
    |ix| == |a| && forall d :: 0 <= d < |a| ==> SafeAxis(ix[d], a[d])
  }

  lemma ModOf(i: nat, n: nat, b: nat)
    requires (n == 1 || n == b) && i < b
    ensures n > 0 && i % n == if n == 1 then 0 else i
  {}

  lemma SafeMeansOk(x: Ix, n: nat, b: nat)
    requires (n == 1 || n == b) && OnAxis(x, b)
    ensures SafeAxis(x, n) ==> AxisOk(TupleAxis(x, n), x, n)
  {
    if x.One? { ModOf(x.i, n, b); }
  }

  /** The shapes of the indexed factors fit exactly when every slice is safe. */
  lemma {:induction false} TupleShapes(ix: seq<Ix>, a: Shape)
    requires |ix| == |a|
    ensures |ShapeIx(TupleA(ix, a))| == |ShapeIx(ix)|
    ensures Broadcasts(ShapeIx(TupleA(ix, a)), ShapeIx(ix)) <==> Safe(ix, a)
    decreases |a|
  {
    hide *;
    if a == [] {
      NoShapes(ix, a);
    } else {
      var n := |a| - 1;
      TupleShapes(ix[..n], a[..n]);
      TupleShapesLast(ix[..n], a[..n], ix[n], a[n]);
      assert ix[..n] + [ix[n]] == ix && a[..n] + [a[n]] == a;
    }
  }

  lemma NoShapes(ix: seq<Ix>, a: Shape)
    requires ix == [] && a == []
    ensures |ShapeIx(TupleA(ix, a))| == |ShapeIx(ix)|
    ensures Broadcasts(ShapeIx(TupleA(ix, a)), ShapeIx(ix)) && Safe(ix, a)
  {}

  lemma TupleShapesLast(ix: seq<Ix>, a: Shape, x: Ix, n: nat)
    requires |ix| == |a| && |ShapeIx(TupleA(ix, a))| == |ShapeIx(ix)|
    requires Broadcasts(ShapeIx(TupleA(ix, a)), ShapeIx(ix)) <==> Safe(ix, a)
    ensures |ShapeIx(TupleA(ix + [x], a + [n]))| == |ShapeIx(ix + [x])|
    ensures Broadcasts(ShapeIx(TupleA(ix + [x], a + [n])), ShapeIx(ix + [x])) <==> Safe(ix + [x], a + [n])
  {
    var la := TupleA(ix, a);
    TupleLast(ix, a, x, n);
    SameLength(x, n);
    hide ShapeIx, TupleA, Safe, Broadcasts, AxisLength, TupleAxis;
    ShapeLast(la, TupleAxis(x, n));
    ShapeLast(ix, x);
    BroadcastsLast(ShapeIx(la), AxisLength(TupleAxis(x, n)), ShapeIx(ix), AxisLength(x));
    SafeLast(ix, a, x, n);
  }

  lemma TupleLast(ix: seq<Ix>, a: Shape, x: Ix, n: nat)
    requires |ix| == |a|
    ensures TupleA(ix + [x], a + [n]) == TupleA(ix, a) + [TupleAxis(x, n)]
  {}

  /** Taking all of A's axis is safe just where what is taken broadcasts. */
  lemma SameLength(x: Ix, n: nat)
    ensures |AxisLength(TupleAxis(x, n))| == |AxisLength(x)| <= 1
    ensures SafeAxis(x, n) <==>
            (|AxisLength(x)| == 1 ==>
              AxisLength(TupleAxis(x, n))[0] == 1 || AxisLength(TupleAxis(x, n)) == AxisLength(x))
  {}

  lemma SafeLast(ix: seq<Ix>, a: Shape, x: Ix, n: nat)
    requires |ix| == |a|
    ensures Safe(ix + [x], a + [n]) <==> Safe(ix, a) && SafeAxis(x, n)
  {
    if Safe(ix + [x], a + [n]) {
      forall d | 0 <= d < |a| ensures SafeAxis(ix[d], a[d]) { assert SafeAxis((ix + [x])[d], (a + [n])[d]); }
      assert SafeAxis((ix + [x])[|a|], (a + [n])[|a|]);
    }
  }

  lemma BroadcastsLast(fa: Shape, x: Shape, fb: Shape, y: Shape)
    requires |fa| == |fb| && |x| == |y| <= 1
    ensures Broadcasts(fa + x, fb + y) <==> Broadcasts(fa, fb) && (|x| == 1 ==> x[0] == 1 || x == y)
  {
    if Broadcasts(fa + x, fb + y) {
      forall d | 0 <= d < |fa| ensures fa[d] == 1 || fa[d] == fb[d] {
        assert (fa + x)[d] == 1 || (fa + x)[d] == (fb + y)[d];
      }
      if |x| == 1 { assert (fa + x)[|fa|] == 1 || (fa + x)[|fa|] == (fb + y)[|fa|]; }
    }
  }

  /**
   * A tuple index gives a pair that fits exactly when no slice cuts an axis A is not shared along; the pair then stands
   * for the indexed product.
   */
  lemma TupleStands(p: Lora, ix: seq<Ix>, r0: nat, r1: nat, c0: nat, c1: nat)
    requires WellFormed(p) && Fits(p) && |ix| == Axes(p) - 2 && InBounds(ix, Front(p)[..Axes(p) - 2])
    requires r0 <= r1 <= Front(p)[Axes(p) - 2] && c0 <= c1 <= Cols(p)
    ensures WellFormed(TuplePair(p, ix, r0, r1, c0, c1))
    ensures Fits(TuplePair(p, ix, r0, r1, c0, c1)) <==> Safe(ix, LeadA(p))
    ensures Safe(ix, LeadA(p)) ==>
              Product(TuplePair(p, ix, r0, r1, c0, c1)) == IndexTensor(Product(p), ix + [Span(r0, r1)] + [Span(c0, c1)])
  {
    hide IndexTensor, Product, SourceIx, ShapeIx, TuplePair, Safe, Fits;
    TupleFits(p, ix, r0, r1, c0, c1);
    if Safe(ix, LeadA(p)) { TupleProduct(p, ix, r0, r1, c0, c1); }
  }

  lemma TupleFits(p: Lora, ix: seq<Ix>, r0: nat, r1: nat, c0: nat, c1: nat)
    requires WellFormed(p) && |ix| == Axes(p) - 2 && r0 <= r1 && c0 <= c1
    ensures WellFormed(TuplePair(p, ix, r0, r1, c0, c1))
    ensures Fits(TuplePair(p, ix, r0, r1, c0, c1)) <==> Safe(ix, LeadA(p))
  {
    hide IndexTensor, ShapeIx, TupleA, Safe;
    var la, q := TupleA(ix, LeadA(p)), TuplePair(p, ix, r0, r1, c0, c1);
    TupleShapes(ix, LeadA(p));
    ShapeSpan(ix, r0, r1);
    IndexedShape(p, la, ix + [Span(r0, r1)], c0, c1);
    BroadcastsPrefix(ShapeIx(la), ShapeIx(ix), r1 - r0);
  }

  lemma BroadcastsPrefix(a: Shape, b: Shape, c: nat)
    requires |a| == |b|
    ensures Broadcasts(a, b + [c]) <==> Broadcasts(a, b)
  {
    if Broadcasts(a, b + [c]) {
      forall d | 0 <= d < |a| ensures a[d] == 1 || a[d] == b[d] { assert a[d] == 1 || a[d] == (b + [c])[d]; }
    }
  }

  lemma TupleProduct(p: Lora, ix: seq<Ix>, r0: nat, r1: nat, c0: nat, c1: nat)
    requires WellFormed(p) && Fits(p) && |ix| == Axes(p) - 2 && InBounds(ix, Front(p)[..Axes(p) - 2])
    requires r0 <= r1 <= Front(p)[Axes(p) - 2] && c0 <= c1 <= Cols(p) && Safe(ix, LeadA(p))
    requires WellFormed(TuplePair(p, ix, r0, r1, c0, c1))
    ensures Product(TuplePair(p, ix, r0, r1, c0, c1)) == IndexTensor(Product(p), ix + [Span(r0, r1)] + [Span(c0, c1)])
  {
    hide IndexTensor, Product, SourceIx, ShapeIx;
    var n, la := Axes(p) - 2, TupleA(ix, LeadA(p));
    forall d | 0 <= d < n ensures AxisOk(la[d], ix[d], LeadA(p)[d]) {
      assert OnAxis(ix[d], Front(p)[..n][d]) && SafeAxis(ix[d], LeadA(p)[d]);
      SafeMeansOk(ix[d], LeadA(p)[d], Front(p)[d]);
    }
    AlignedPair(p, la, ix, r0, r1);
    LeadingBounds(ix, Front(p), r0, r1);
    IndexedPair(p, la, ix + [Span(r0, r1)], c0, c1);
  }

  lemma LeadingBounds(ix: seq<Ix>, shape: Shape, lo: nat, hi: nat)
    requires |shape| == |ix| + 1 && InBounds(ix, shape[..|ix|]) && lo <= hi <= shape[|ix|]
    ensures InBounds(ix + [Span(lo, hi)], shape)
  {
    forall d | 0 <= d < |ix| ensures OnAxis(ix[d], shape[d]) { assert OnAxis(ix[d], shape[..|ix|][d]); }
  }

  // ---------------------------------------------------------------- the first axis

  function Full(shape: Shape): (ix: seq<Ix>)
    ensures |ix| == |shape|
  {
    seq(|shape|, d requires 0 <= d < |shape| => Span(0, shape[d]))
  }

  lemma {:induction false} FullIndex(shape: Shape, idx: Index)
    requires |idx| == |shape|
    ensures ShapeIx(Full(shape)) == shape && SourceIx(Full(shape), idx) == idx
    decreases |shape|
  {
    hide *;
    if shape == [] {
      FullIndexNone(idx);
    } else {
      var n := |shape| - 1;
      FullIndex(shape[..n], idx[..n]);
      FullIndexLast(shape[..n], shape[n], idx[..n], idx[n]);
      assert shape[..n] + [shape[n]] == shape && idx[..n] + [idx[n]] == idx;
    }
  }

  lemma FullLast(front: Shape, c: nat)
    ensures Full(front + [c]) == Full(front) + [Span(0, c)]
  {}

  lemma SpanLength(c: nat)
    ensures AxisLength(Span(0, c)) == [c]
  {}

  lemma FullIndexNone(idx: Index)
    requires idx == []
    ensures ShapeIx(Full([])) == [] && SourceIx(Full([]), idx) == idx
  {}

  lemma FullIndexLast(front: Shape, c: nat, idx: Index, k: nat)
    requires |idx| == |front| && ShapeIx(Full(front)) == front && SourceIx(Full(front), idx) == idx
    ensures ShapeIx(Full(front + [c])) == front + [c] && SourceIx(Full(front + [c]), idx + [k]) == idx + [k]
  {
    FullLast(front, c);
    hide *;
    SourceSpan(Full(front), 0, c, idx, k);
  }

  lemma {:induction false} FullShape(x: Ix, shape: Shape)
    ensures ShapeIx([x] + Full(shape)) == AxisLength(x) + shape
    decreases |shape|
  {
    hide *;
    if shape == [] {
      FullNone(x);
    } else {
      var n := |shape| - 1;
      FullShape(x, shape[..n]);
      FullShapeLast(x, shape[..n], shape[n]);
      assert shape[..n] + [shape[n]] == shape;
    }
  }

  lemma FullNone(x: Ix)
    ensures ShapeIx([x] + Full([])) == AxisLength(x) + []
  {
    NoneFull();
    hide *;
    ShapeLast([], x);
    assert [] + [x] == [x] + [] && AxisLength(x) + [] == [] + AxisLength(x);
  }

  lemma NoneFull()
    ensures ShapeIx([]) == [] && Full([]) == []
  {}

  lemma FullShapeLast(x: Ix, front: Shape, c: nat)
    requires ShapeIx([x] + Full(front)) == AxisLength(x) + front
    ensures ShapeIx([x] + Full(front + [c])) == AxisLength(x) + (front + [c])
  {
    FullLast(front, c);
    SpanLength(c);
    hide *;
    ShapeLast([x] + Full(front), Span(0, c));
    assert [x] + (Full(front) + [Span(0, c)]) == [x] + Full(front) + [Span(0, c)];
    assert AxisLength(x) + front + [c] == AxisLength(x) + (front + [c]);
  }

  lemma FullOk(p: Lora, x: Ix, y: Ix)
    requires WellFormed(p) && Axes(p) > 2 && Fits(p) && AxisOk(x, y, LeadA(p)[0])
    ensures AxesOk([x] + Full(LeadA(p)[1..]), [y] + Full(Front(p)[1..Axes(p) - 2]), LeadA(p))
  {
    var a, b := LeadA(p), Front(p);
    var la, lb := [x] + Full(a[1..]), [y] + Full(b[1..|a|]);
    forall d | 0 <= d < |a| ensures AxisOk(la[d], lb[d], a[d]) {
      if d > 0 {
        assert la[d] == Span(0, a[d]) && lb[d] == Span(0, b[d]);
        assert a[d] == 1 || a[d] == b[d];
      }
    }
  }

  lemma FullInBounds(y: Ix, shape: Shape)
    requires |shape| > 0 && OnAxis(y, shape[0])
    ensures InBounds([y] + Full(shape[1..]), shape)
  {}

  /** Indexing the first axis alike on both factors. */
  lemma FirstAxis(p: Lora, x: Ix, y: Ix)
    requires WellFormed(p) && Axes(p) > 2 && Fits(p) && AxisOk(x, y, LeadA(p)[0]) && OnAxis(y, Front(p)[0])
    ensures var q := IndexPair(p, [x] + Full(LeadA(p)[1..]), [y] + Full(Front(p)[1..]), 0, Cols(p));
            WellFormed(q) &&
            Product(q) == IndexTensor(Product(p), [y] + Full(Front(p)[1..]) + [Span(0, Cols(p))])
  {
    var n, b := Axes(p) - 2, Front(p);
    FullOk(p, x, y);
    FullRow(y, b);
    FullInBounds(y, b);
    hide IndexTensor, Product, SourceIx, ShapeIx, Full, AxesOk, Aligned, AxisOk, InBounds, IndexPair;
    AlignedPair(p, [x] + Full(LeadA(p)[1..]), [y] + Full(b[1..n]), 0, b[n]);
    IndexedPair(p, [x] + Full(LeadA(p)[1..]), [y] + Full(b[1..]), 0, Cols(p));
  }

  lemma FullRow(y: Ix, b: Shape)
    requires |b| > 1
    ensures var n := |b| - 1; [y] + Full(b[1..n]) + [Span(0, b[n])] == [y] + Full(b[1..])
  {}

  lemma FirstAxisShape(p: Lora, x: Ix, y: Ix)
    requires WellFormed(p) && Axes(p) > 2 && Fits(p) && x.Span? && y.Span? && OnAxis(x, LeadA(p)[0]) &&
             OnAxis(y, Front(p)[0])
    ensures var q := IndexPair(p, [x] + Full(LeadA(p)[1..]), [y] + Full(Front(p)[1..]), 0, Cols(p));
            WellFormed(q) && (Fits(q) <==> x.hi - x.lo == 1 || x.hi - x.lo == y.hi - y.lo)
  {
    hide IndexTensor, Product, SourceIx, ShapeIx;
    var a, b := LeadA(p), Front(p);
    FullShape(x, a[1..]);
    FullShape(y, b[1..]);
    IndexedShape(p, [x] + Full(a[1..]), [y] + Full(b[1..]), 0, Cols(p));
    var fa, fb := AxisLength(x) + a[1..], AxisLength(y) + b[1..];
    forall d | 1 <= d < |fa| ensures fa[d] == 1 || fa[d] == fb[d] { assert a[d] == 1 || a[d] == b[d]; }
    assert fa[0] == x.hi - x.lo && fb[0] == y.hi - y.lo;
    assert Broadcasts(fa, fb) <==> fa[0] == 1 || fa[0] == fb[0];
  }

  lemma FullSlice(t: Tensor)
    requires Valid(t)
    ensures IndexTensor(t, Full(t.shape)) == t
  {
    FullIndex(t.shape, t.shape);
    forall idx | InRange(t.shape, idx) ensures At(IndexTensor(t, Full(t.shape)), idx) == At(t, idx) {
      FullIndex(t.shape, idx);
      IndexAt(t, Full(t.shape), idx);
    }
    SameTensor(IndexTensor(t, Full(t.shape)), t);
  }
}
