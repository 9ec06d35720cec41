/**
 * Factored weights (convert_lora_to_gguf.py): a pair (A, B) stands for the product B A, taken over the last two axes
 * with the leading axes of A broadcast. The operations on the pair must mean the same operations on the product.
 */
module LoraTensors {
  import opened Tensors
  import opened Wrappers

  datatype Lora = Lora(a: Tensor, b: Tensor)

  function Axes(p: Lora): nat { |p.b.shape| }

  /** What the constructor asserts. */
  ghost predicate WellFormed(p: Lora) {
    Valid(p.a) && Valid(p.b) && |p.a.shape| == |p.b.shape| >= 2 &&
    p.a.shape[|p.a.shape| - 2] == p.b.shape[|p.b.shape| - 1]
  }

  function Rank(p: Lora): nat
    requires Axes(p) >= 2
  {
    p.b.shape[Axes(p) - 1]
  }

  function Cols(p: Lora): nat
    requires |p.a.shape| >= 2
  {
    p.a.shape[|p.a.shape| - 1]
  }

  /** All axes of the product but the last. */
  function Front(p: Lora): Shape
    requires Axes(p) >= 2
  {
    p.b.shape[..Axes(p) - 1]
  }

  function LeadA(p: Lora): Shape
    requires Axes(p) == |p.a.shape| >= 2
  {
    p.a.shape[..Axes(p) - 2]
  }

  function ShapeOf(p: Lora): Shape
    requires Axes(p) >= 2 && |p.a.shape| >= 2
  {
    Front(p) + [Cols(p)]
  }

  // ---------------------------------------------------------------- the product

  function Dot(u: seq<real>, v: seq<real>): real
    requires |u| == |v|
  {
    if u == [] then 0.0 else Dot(u[..|u| - 1], v[..|u| - 1]) + u[|u| - 1] * v[|u| - 1]
  }

  /** An axis of length one is repeated. */
  function Broadcast(lead: Shape, i: Index): (k: Index)
    requires |lead| <= |i|
    ensures |k| == |lead|
  {
    seq(|lead|, d requires 0 <= d < |lead| => if lead[d] == 1 then 0 else i[d])
  }

  /** The row of t at the leading index i. */
  ghost function Row(t: Tensor, i: Index, n: nat): (row: seq<real>)
    ensures |row| == n
  {
    seq(n, k requires 0 <= k < n => At(t, i + [k]))
  }

  /** The j-th column of the matrix of t at the leading index l. */
  ghost function Column(t: Tensor, l: Index, j: nat, n: nat): (column: seq<real>)
    ensures |column| == n
  {
    seq(n, k requires 0 <= k < n => At(t, l + [k, j]))
  }

  ghost function Element(p: Lora, i: Index, j: nat): real
    requires WellFormed(p) && |i| == Axes(p) - 1
  {
    Dot(Row(p.b, i, Rank(p)), Column(p.a, Broadcast(LeadA(p), i), j, Rank(p)))
  }

  /** The tensor the pair stands for. */
  ghost function Product(p: Lora): (t: Tensor)
    requires WellFormed(p)
    ensures Valid(t) && t.shape == ShapeOf(p)
  {
    Build(ShapeOf(p), idx => if |idx| == Axes(p) then Element(p, idx[..Axes(p) - 1], idx[Axes(p) - 1]) else 0.0)
  }

  lemma ProductAt(p: Lora, i: Index, j: nat)
    requires WellFormed(p) && InRange(Front(p), i) && j < Cols(p)
    ensures At(Product(p), i + [j]) == Element(p, i, j)
  {
    RavelLast(Front(p), Cols(p), i, j);
    BuildAt(ShapeOf(p),
            idx => if |idx| == Axes(p) then Element(p, idx[..Axes(p) - 1], idx[Axes(p) - 1]) else 0.0, i + [j]);
    assert (i + [j])[..Axes(p) - 1] == i;
  }

  // ---------------------------------------------------------------- a single matrix A

  function Ones(n: nat): (s: Shape)
    ensures |s| == n
  {
    seq(n, d => 1)
  }

  function Zeros(n: nat): (s: Index)
    ensures |s| == n
  {
    seq(n, d => 0)
  }

  /** A has one matrix, shared by all leading indices. */
  ghost predicate SharedA(p: Lora)
    requires WellFormed(p)
  {
    p.a.shape == Ones(Axes(p) - 2) + [Rank(p), Cols(p)]
  }

  lemma {:induction false} OnesRavel(n: nat)
    ensures Prod(Ones(n)) == 1 && InRange(Ones(n), Zeros(n)) && Ravel(Ones(n), Zeros(n)) == 0
  {
    if n > 0 {
      OnesRavel(n - 1);
      assert Ones(n)[..n - 1] == Ones(n - 1) && Zeros(n)[..n - 1] == Zeros(n - 1);
    }
  }

  /** Ones in front change neither the number of elements nor their order. */
  lemma MatrixRavel(n: nat, rows: nat, c: nat, k: nat, j: nat)
    requires k < rows && j < c
    ensures Prod(Ones(n) + [rows, c]) == rows * c
    ensures InRange(Ones(n) + [rows, c], Zeros(n) + [k, j])
    ensures Ravel(Ones(n) + [rows, c], Zeros(n) + [k, j]) == k * c + j
  {
    OnesRavel(n);
    ProdLast(Ones(n), rows);
    ProdLast(Ones(n) + [rows], c);
    RavelLast(Ones(n), rows, Zeros(n), k);
    RavelLast(Ones(n) + [rows], c, Zeros(n) + [k], j);
    assert Ones(n) + [rows] + [c] == Ones(n) + [rows, c] && Zeros(n) + [k] + [j] == Zeros(n) + [k, j];
  }

  lemma MatrixProd(n: nat, rows: nat, c: nat)
    ensures Prod(Ones(n) + [rows, c]) == rows * c
  {
    OnesRavel(n);
    ProdLast(Ones(n), rows);
    ProdLast(Ones(n) + [rows], c);
    assert Ones(n) + [rows] + [c] == Ones(n) + [rows, c];
  }

  ghost function Entry(data: seq<real>, n: nat): real {
    if n < |data| then data[n] else 0.0
  }

  /** The j-th column of a row-major matrix. */
  ghost function MatrixColumn(data: seq<real>, rank: nat, c: nat, j: nat): seq<real> {
    seq(rank, k requires 0 <= k < rank => Entry(data, k * c + j))
  }

  lemma MatrixAt(a: Tensor, n: nat, rank: nat, c: nat, k: nat, j: nat)
    requires Valid(a) && a.shape == Ones(n) + [rank, c] && k < rank && j < c
    ensures At(a, Zeros(n) + [k, j]) == Entry(a.data, k * c + j)
  {
    MatrixRavel(n, rank, c, k, j);
    RowBound(k, rank, j, c);
  }

  lemma SharedColumn(p: Lora, i: Index, j: nat)
    requires WellFormed(p) && SharedA(p) && |i| == Axes(p) - 1 && j < Cols(p)
    ensures Column(p.a, Broadcast(LeadA(p), i), j, Rank(p)) == MatrixColumn(p.a.data, Rank(p), Cols(p), j)
  {
    var n := Axes(p) - 2;
    assert LeadA(p) == Ones(n);
    assert Broadcast(Ones(n), i) == Zeros(n);
    forall k | 0 <= k < Rank(p) ensures At(p.a, Zeros(n) + [k, j]) == Entry(p.a.data, k * Cols(p) + j) {
      MatrixAt(p.a, n, Rank(p), Cols(p), k, j);
    }
  }

  /** With a shared A, an element depends on its row of B and on the data of A only. */
  lemma SharedElement(p: Lora, i: Index, j: nat)
    requires WellFormed(p) && SharedA(p) && |i| == Axes(p) - 1 && j < Cols(p)
    ensures Element(p, i, j) == Dot(Row(p.b, i, Rank(p)), MatrixColumn(p.a.data, Rank(p), Cols(p), j))
  {
    SharedColumn(p, i, j);
  }

  // ---------------------------------------------------------------- reshape

  /** The product of the given dimensions, -1 left out. */
  function KnownProd(shape: seq<int>): int {
    if shape == [] then 1
    else KnownProd(shape[..|shape| - 1]) * if shape[|shape| - 1] == -1 then 1 else shape[|shape| - 1]
  }

  /** Every -1 is replaced by what is left of the number of elements. */
  function Expand(elems: nat, shape: seq<int>): Outcome<Shape> {
    if (exists d :: 0 <= d < |shape| && shape[d] < -1) then Raised
    else if -1 !in shape then Done(seq(|shape|, d requires 0 <= d < |shape| => if shape[d] >= 0 then shape[d] else 0))
    else if KnownProd(shape) <= 0 || elems % KnownProd(shape) != 0 then Raised
    else
      var left := elems / KnownProd(shape);
      Done(seq(|shape|, d requires 0 <= d < |shape| => if shape[d] >= 0 then shape[d] else left))
  }

  lemma {:induction false} KnownIsProd(shape: Shape)
    ensures KnownProd(shape) == Prod(shape) && -1 !in shape
  {
    if shape != [] { KnownIsProd(shape[..|shape| - 1]); }
  }

  /** One dimension is left open. */
  function WithOpen(front: seq<int>, back: seq<int>): seq<int> { front + [-1] + back }

  lemma {:induction false} KnownAround(front: Shape, back: Shape)
    ensures KnownProd(WithOpen(front, back)) == Prod(front + back)
    decreases |back|
  {
    var all := WithOpen(front, back);
    if back == [] {
      assert all[..|front|] == front && front + back == front;
      KnownIsProd(front);
    } else {
      var init, c := back[..|back| - 1], back[|back| - 1];
      assert all[..|all| - 1] == WithOpen(front, init) && all[|all| - 1] == c;
      assert front + back == (front + init) + [c] && ((front + init) + [c])[..|front + init|] == front + init;
      KnownAround(front, init);
    }
  }

  /**
   * Without a -1 the shape is taken as it is; one -1 becomes what completes the number of elements, if that is a
   * multiple of the product of the others.
   */
  lemma ExpandMeaning(elems: nat, front: Shape, back: Shape)
    ensures Expand(elems, front + back) == Done(front + back)
    ensures var known := Prod(front + back);
            Expand(elems, WithOpen(front, back)) ==
            if known > 0 && elems % known == 0 then Done(front + [elems / known] + back) else Raised
  {
    KnownIsProd(front + back);
    KnownAround(front, back);
    hide Prod, KnownProd;
    var open := WithOpen(front, back);
    assert open[|front|] == -1;
    var known := Prod(front + back);
    if known > 0 && elems % known == 0 {
      assert Expand(elems, open).value == front + [elems / known] + back;
    }
    assert Expand(elems, front + back).value == front + back;
  }

  /** Another negative dimension is refused. */
  lemma ExpandRefuses(elems: nat, shape: seq<int>, d: nat)
    requires d < |shape| && shape[d] < -1
    ensures Expand(elems, shape) == Raised
  {
  }

  function TorchReshape(t: Tensor, shape: Shape): Outcome<Tensor> {
    if Prod(shape) == Prod(t.shape) then Done(Reshape(t, shape)) else Raised
  }

  function ReshapePair(p: Lora, newShape: seq<int>): Outcome<Lora>
    requires Axes(p) >= 2 && |p.a.shape| >= 2
  {
    if |newShape| < 2 then Raised
    else match Expand(Prod(ShapeOf(p)), newShape)
      case Raised => Raised
      case Done(shape) => ReshapeHalves(p, shape)
  }

  /** The two halves of the pair under a shape given in full. */
  function ReshapeHalves(p: Lora, shape: Shape): Outcome<Lora>
    requires Axes(p) >= 2 && |p.a.shape| >= 2
  {
    var last := |shape| - 1;
    if last < 1 || shape[last] != Cols(p) then Raised
    else
      var a := TorchReshape(p.a, Ones(last - 1) + [Rank(p), Cols(p)]);
      var b := TorchReshape(p.b, shape[..last] + [Rank(p)]);
      if a.Done? && b.Done? then Done(Lora(a.value, b.value)) else Raised
  }

  lemma ReshapedRow(b: Tensor, front: Shape, lead: Shape, rank: nat, i: Index)
    requires Valid(b) && b.shape == front + [rank] && Prod(lead) == Prod(front) && InRange(lead, i)
    ensures Row(Reshape(b, lead + [rank]), i, rank) == Row(b, Moved(front, lead, i), rank)
  {
    hide At, Prod;
    forall k | 0 <= k < rank
      ensures At(Reshape(b, lead + [rank]), i + [k]) == At(b, Moved(front, lead, i) + [k]) {
      ReshapeAt(b, front, lead, rank, i, k);
    }
  }

  lemma ReshapedElement(p: Lora, q: Lora, lead: Shape, i: Index, j: nat)
    requires WellFormed(p) && SharedA(p) && WellFormed(q) && SharedA(q) && Rank(q) == Rank(p) && Cols(q) == Cols(p)
    requires Front(q) == lead && q.a.data == p.a.data && Prod(lead) == Prod(Front(p))
    requires q.b == Reshape(p.b, lead + [Rank(p)])
    requires InRange(lead, i) && j < Cols(p)
    ensures Element(q, i, j) == Element(p, Moved(Front(p), lead, i), j)
  {
    SharedElement(q, i, j);
    SharedElement(p, Moved(Front(p), lead, i), j);
    assert p.b.shape == Front(p) + [Rank(p)];
    ReshapedRow(p.b, Front(p), lead, Rank(p), i);
  }

  lemma ReshapedAt(p: Lora, q: Lora, lead: Shape, i: Index, j: nat)
    requires WellFormed(p) && SharedA(p) && WellFormed(q) && SharedA(q) && Rank(q) == Rank(p) && Cols(q) == Cols(p)
    requires Front(q) == lead && q.a.data == p.a.data && Prod(lead) == Prod(Front(p))
    requires q.b == Reshape(p.b, lead + [Rank(p)])
    requires InRange(lead, i) && j < Cols(p)
    ensures At(Product(q), i + [j]) == At(Reshape(Product(p), lead + [Cols(p)]), i + [j])
  {
    ReshapedElement(p, q, lead, i, j);
    ProductAt(q, i, j);
    ProductAt(p, Moved(Front(p), lead, i), j);
    ReshapeAt(Product(p), Front(p), lead, Cols(p), i, j);
  }

  lemma ReshapedPair(p: Lora, q: Lora, lead: Shape)
    requires WellFormed(p) && SharedA(p) && WellFormed(q) && SharedA(q) && Rank(q) == Rank(p) && Cols(q) == Cols(p)
    requires Front(q) == lead && q.a.data == p.a.data && Prod(lead) == Prod(Front(p))
    requires q.b == Reshape(p.b, lead + [Rank(p)])
    ensures Product(q) == Reshape(Product(p), lead + [Cols(p)])
  {
    ProdLast(lead, Cols(p));
    ProdLast(Front(p), Cols(p));
    forall i: Index, j: nat | InRange(lead, i) && j < Cols(p)
      ensures At(Product(q), i + [j]) == At(Reshape(Product(p), lead + [Cols(p)]), i + [j]) {
      ReshapedAt(p, q, lead, i, j);
    }
    SameRows(Product(q), Reshape(Product(p), lead + [Cols(p)]), lead, Cols(p));
  }

  /** Some shape with the same last axis and as many rows. */
  ghost predicate KeepsRows(p: Lora, shape: Shape)
    requires Axes(p) >= 2 && |p.a.shape| >= 2
  {
    |shape| >= 2 && shape[|shape| - 1] == Cols(p) && Prod(shape[..|shape| - 1]) == Prod(Front(p))
  }

  lemma SizeOfA(p: Lora, n: nat)
    requires WellFormed(p) && SharedA(p)
    ensures Prod(Ones(n) + [Rank(p), Cols(p)]) == Prod(p.a.shape)
  {
    MatrixProd(n, Rank(p), Cols(p));
    MatrixProd(Axes(p) - 2, Rank(p), Cols(p));
  }

  lemma SizeOfB(p: Lora, lead: Shape)
    requires WellFormed(p) && Rank(p) > 0
    ensures Prod(lead + [Rank(p)]) == Prod(p.b.shape) <==> Prod(lead) == Prod(Front(p))
  {
    assert p.b.shape == Front(p) + [Rank(p)];
    ProdLast(Front(p), Rank(p));
    ProdLast(lead, Rank(p));
    SameFactor(Prod(lead), Prod(Front(p)), Rank(p));
  }

  lemma SameFactor(a: nat, b: nat, c: nat)
    requires c > 0
    ensures a * c == b * c <==> a == b
  {
    if a * c == b * c { SmallMultiple(a - b, c); }
  }

  lemma HalvesFit(a: Tensor, b: Tensor, n: nat, rank: nat, c: nat, lead: Shape)
    requires Valid(a) && a.shape == Ones(n) + [rank, c] && Valid(b) && b.shape == lead + [rank] && |lead| == n + 1
    ensures WellFormed(Lora(a, b)) && SharedA(Lora(a, b))
    ensures Rank(Lora(a, b)) == rank && Cols(Lora(a, b)) == c && Front(Lora(a, b)) == lead
  {}

  lemma ReshapeInto(p: Lora, lead: Shape)
    requires WellFormed(p) && SharedA(p) && Rank(p) > 0 && |lead| >= 1 && Prod(lead) == Prod(Front(p))
    ensures var q := Lora(Reshape(p.a, Ones(|lead| - 1) + [Rank(p), Cols(p)]), Reshape(p.b, lead + [Rank(p)]));
            WellFormed(q) && SharedA(q) && Axes(q) == |lead| + 1 && Rank(q) == Rank(p) && Cols(q) == Cols(p) &&
            Product(q) == Reshape(Product(p), lead + [Cols(p)])
  {
    var a, b := Reshape(p.a, Ones(|lead| - 1) + [Rank(p), Cols(p)]), Reshape(p.b, lead + [Rank(p)]);
    SizeOfA(p, |lead| - 1);
    SizeOfB(p, lead);
    HalvesFit(a, b, |lead| - 1, Rank(p), Cols(p), lead);
    ReshapedPair(p, Lora(a, b), lead);
  }

  lemma HalvesResult(p: Lora, lead: Shape, c: nat)
    requires WellFormed(p) && SharedA(p) && Rank(p) > 0 && Cols(p) == c && |lead| >= 1
    ensures ReshapeHalves(p, lead + [c]) ==
            if Prod(lead) != Prod(Front(p)) then Raised
            else Done(Lora(Reshape(p.a, Ones(|lead| - 1) + [Rank(p), c]), Reshape(p.b, lead + [Rank(p)])))
  {
    assert (lead + [c])[..|lead|] == lead;
    SizeOfA(p, |lead| - 1);
    SizeOfB(p, lead);
  }

  /**
   * With a shared A, reshape succeeds exactly on shapes that keep the last axis and the number of rows, and it is then
   * the reshape of the product.
   */
  lemma ReshapeMeaning(p: Lora, newShape: seq<int>)
    requires WellFormed(p) && SharedA(p) && Rank(p) > 0
    ensures var s := Expand(Prod(ShapeOf(p)), newShape);
            var q := ReshapePair(p, newShape);
            && (q.Done? <==> s.Done? && KeepsRows(p, s.value))
            && (q.Done? ==> WellFormed(q.value) && SharedA(q.value) &&
                            Product(q.value) == Reshape(Product(p), s.value))
  {
    var s := Expand(Prod(ShapeOf(p)), newShape);
    if s.Done? && |s.value| >= 2 && s.value[|s.value| - 1] == Cols(p) {
      var lead := s.value[..|s.value| - 1];
      assert s.value == lead + [Cols(p)];
      HalvesResult(p, lead, Cols(p));
      if Prod(lead) == Prod(Front(p)) { ReshapeInto(p, lead); }
    }
  }

  lemma ExpandKnown(elems: nat, shape: Shape)
    ensures Expand(elems, shape) == Done(shape)
  {
    var same := seq(|shape|, d requires 0 <= d < |shape| => if shape[d] >= 0 then shape[d] else 0);
    assert same == shape;
  }

  /** The reshape to a shape given in full. */
  lemma ReshapeResult(p: Lora, lead: Shape, c: nat)
    requires WellFormed(p) && SharedA(p) && Rank(p) > 0 && Cols(p) == c && |lead| >= 1
    ensures ReshapePair(p, lead + [c]) ==
            if Prod(lead) != Prod(Front(p)) then Raised
            else Done(Lora(Reshape(p.a, Ones(|lead| - 1) + [Rank(p), c]), Reshape(p.b, lead + [Rank(p)])))
  {
    ExpandKnown(Prod(ShapeOf(p)), lead + [c]);
    HalvesResult(p, lead, c);
  }

  lemma ReshapeTo(p: Lora, lead: Shape, c: nat)
    requires WellFormed(p) && SharedA(p) && Rank(p) > 0 && Cols(p) == c
    requires |lead| >= 1 && Prod(lead) == Prod(Front(p))
    ensures ReshapePair(p, lead + [c]).Done?
    ensures var q := ReshapePair(p, lead + [c]).value;
            WellFormed(q) && SharedA(q) && Axes(q) == |lead| + 1 && Rank(q) == Rank(p) && Cols(q) == c &&
            Product(q) == Reshape(Product(p), lead + [c])
  {
    ReshapeResult(p, lead, c);
    ReshapeInto(p, lead);
  }
}
