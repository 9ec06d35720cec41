/** Joining factored weights (convert_lora_to_gguf.py): torch.stack and torch.cat along the first axis. */
module LoraJoins {
  import opened Tensors
  import opened LoraTensors
  import opened LoraAxes
  import opened LoraParts
  import opened Wrappers

  function As(ps: seq<Lora>): (ts: seq<Tensor>)
    ensures |ts| == |ps|
  {
    seq(|ps|, x requires 0 <= x < |ps| => ps[x].a)
  }

  function Bs(ps: seq<Lora>): (ts: seq<Tensor>)
    ensures |ts| == |ps|
  {
    seq(|ps|, x requires 0 <= x < |ps| => ps[x].b)
  }

  ghost predicate AllWellFormed(ps: seq<Lora>) {
    |ps| > 0 && forall x :: 0 <= x < |ps| ==> WellFormed(ps[x])
  }

  ghost function Products(ps: seq<Lora>): (ts: seq<Tensor>)
    requires AllWellFormed(ps)
    ensures |ts| == |ps|
  {
    seq(|ps|, x requires 0 <= x < |ps| => Product(ps[x]))
  }

  lemma BroadcastFirst(n: nat, a: Shape, x: nat, i: Index)
    requires |a| <= |i|
    ensures Broadcast([n] + a, [x] + i) == [if n == 1 then 0 else x] + Broadcast(a, i)
  {}

  lemma InRangeFirst(n: nat, shape: Shape, x: nat, i: Index)
    ensures InRange([n] + shape, [x] + i) <==> x < n && InRange(shape, i)
  {
    if InRange([n] + shape, [x] + i) {
      assert ([n] + shape)[0] == n && ([x] + i)[0] == x;
      forall d | 0 <= d < |shape| ensures i[d] < shape[d] { assert ([x] + i)[d + 1] < ([n] + shape)[d + 1]; }
    }
  }

  // ---------------------------------------------------------------- stack

  ghost predicate SameShapes(ts: seq<Tensor>) {
    |ts| > 0 && forall x :: 0 <= x < |ts| ==> ts[x].shape == ts[0].shape
  }

  /** A new first axis that numbers the tensors. */
  ghost function Stack(ts: seq<Tensor>): (u: Tensor)
    requires SameShapes(ts)
    ensures Valid(u) && u.shape == [|ts|] + ts[0].shape
  {
    Build([|ts|] + ts[0].shape, idx => if |idx| > 0 && idx[0] < |ts| then At(ts[idx[0]], idx[1..]) else 0.0)
  }

  lemma StackAt(ts: seq<Tensor>, x: nat, i: Index)
    requires SameShapes(ts) && x < |ts| && InRange(ts[0].shape, i)
    ensures At(Stack(ts), [x] + i) == At(ts[x], i)
  {
    InRangeFirst(|ts|, ts[0].shape, x, i);
    BuildAt([|ts|] + ts[0].shape, idx => if |idx| > 0 && idx[0] < |ts| then At(ts[idx[0]], idx[1..]) else 0.0, [x] + i);
    assert ([x] + i)[1..] == i;
  }

  ghost predicate Stackable(ps: seq<Lora>) {
    AllWellFormed(ps) && SameShapes(As(ps)) && SameShapes(Bs(ps)) && Fits(ps[0])
  }

  ghost function StackPair(ps: seq<Lora>): Lora
    requires Stackable(ps)
  {
    Lora(Stack(As(ps)), Stack(Bs(ps)))
  }

  lemma StackShape(ps: seq<Lora>)
    requires Stackable(ps)
    ensures WellFormed(StackPair(ps)) && Rank(StackPair(ps)) == Rank(ps[0]) && Cols(StackPair(ps)) == Cols(ps[0])
    ensures Front(StackPair(ps)) == [|ps|] + Front(ps[0]) && LeadA(StackPair(ps)) == [|ps|] + LeadA(ps[0])
  {
    hide Stack;
    var q := StackPair(ps);
    assert q.a.shape == [|ps|] + ps[0].a.shape && q.b.shape == [|ps|] + ps[0].b.shape;
  }

  lemma SameShapePairs(ps: seq<Lora>, x: nat)
    requires Stackable(ps) && x < |ps|
    ensures WellFormed(ps[x]) && ps[x].a.shape == ps[0].a.shape && ps[x].b.shape == ps[0].b.shape
  {
    assert As(ps)[x].shape == As(ps)[0].shape && Bs(ps)[x].shape == Bs(ps)[0].shape;
  }

  lemma StackedRow(ts: seq<Tensor>, front: Shape, rank: nat, x: nat, i: Index)
    requires SameShapes(ts) && ts[0].shape == front + [rank] && x < |ts| && InRange(front, i)
    ensures Row(Stack(ts), [x] + i, rank) == Row(ts[x], i, rank)
  {
    hide Stack, At;
    forall k | 0 <= k < rank ensures Row(Stack(ts), [x] + i, rank)[k] == Row(ts[x], i, rank)[k] {
      InRangeLast(front, rank, i, k);
      StackAt(ts, x, i + [k]);
      assert [x] + i + [k] == [x] + (i + [k]);
    }
  }

  lemma StackedColumn(ts: seq<Tensor>, lead: Shape, rank: nat, c: nat, x: nat, l: Index, j: nat)
    requires SameShapes(ts) && ts[0].shape == lead + [rank, c] && x < |ts| && InRange(lead, l) && j < c
    ensures Column(Stack(ts), [x] + l, j, rank) == Column(ts[x], l, j, rank)
  {
    hide Stack, At;
    forall k | 0 <= k < rank ensures Column(Stack(ts), [x] + l, j, rank)[k] == Column(ts[x], l, j, rank)[k] {
      InRangeLast(lead, rank, l, k);
      InRangeLast(lead + [rank], c, l + [k], j);
      assert lead + [rank] + [c] == lead + [rank, c] && l + [k] + [j] == l + [k, j];
      StackAt(ts, x, l + [k, j]);
      assert [x] + l + [k, j] == [x] + (l + [k, j]);
    }
  }

  lemma BroadcastInRange(a: Shape, b: Shape, i: Index)
    requires Broadcasts(a, b) && InRange(b, i)
    ensures InRange(a, Broadcast(a, i))
  {
    forall d | 0 <= d < |a| ensures Broadcast(a, i)[d] < a[d] { assert a[d] == 1 || a[d] == b[d]; }
  }

  lemma StackedElement(ps: seq<Lora>, q: Lora, x: nat, i: Index, j: nat)
    requires Stackable(ps) && x < |ps| && InRange(Front(ps[0]), i) && j < Cols(ps[0]) && WellFormed(ps[x])
    requires q == StackPair(ps) && WellFormed(q) && Rank(q) == Rank(ps[0]) && Front(q) == [|ps|] + Front(ps[0])
    requires LeadA(q) == [|ps|] + LeadA(ps[0])
    requires ps[x].a.shape == ps[0].a.shape && ps[x].b.shape == ps[0].b.shape
    ensures Element(q, [x] + i, j) == Element(ps[x], i, j)
  {
    hide Stack, At, Row, Column, Dot;
    var p := ps[0];
    var l := Broadcast(LeadA(p), i);
    BroadcastInRange(LeadA(p), Front(p), i);
    BroadcastFirst(|ps|, LeadA(p), x, i);
    assert p.b.shape == Front(p) + [Rank(p)];
    assert p.a.shape == LeadA(p) + [Rank(p), Cols(p)];
    StackedRow(Bs(ps), Front(p), Rank(p), x, i);
    StackedColumn(As(ps), LeadA(p), Rank(p), Cols(p), x, l, j);
  }

  lemma StackedProducts(ps: seq<Lora>)
    requires Stackable(ps)
    ensures SameShapes(Products(ps)) && Products(ps)[0].shape == Front(ps[0]) + [Cols(ps[0])]
  {
    forall x | 0 <= x < |ps| ensures Products(ps)[x].shape == Products(ps)[0].shape { SameShapePairs(ps, x); }
  }

  lemma StackedAt(ps: seq<Lora>, ts: seq<Tensor>, q: Lora, m: Index, j: nat)
    requires Stackable(ps) && q == StackPair(ps) && WellFormed(q) && Rank(q) == Rank(ps[0])
    requires Front(q) == [|ps|] + Front(ps[0]) && LeadA(q) == [|ps|] + LeadA(ps[0])
    requires ts == Products(ps) && SameShapes(ts) && ts[0].shape == Front(ps[0]) + [Cols(ps[0])]
    requires InRange(Front(q), m) && j < Cols(ps[0])
    ensures Element(q, m, j) == At(Stack(ts), m + [j])
  {
    hide Stack, At, Element, Product, StackPair;
    var x, i := m[0], m[1..];
    assert m == [x] + i;
    InRangeFirst(|ps|, Front(ps[0]), x, i);
    SameShapePairs(ps, x);
    StackedElement(ps, q, x, i, j);
    ProductAt(ps[x], i, j);
    InRangeLast(Front(ps[0]), Cols(ps[0]), i, j);
    StackAt(ts, x, i + [j]);
    assert m + [j] == [x] + (i + [j]);
  }

  /** The stack of the pairs stands for the stack of their products. */
  lemma StackMeaning(ps: seq<Lora>)
    requires Stackable(ps)
    ensures WellFormed(StackPair(ps)) && SameShapes(Products(ps))
    ensures Product(StackPair(ps)) == Stack(Products(ps))
  {
    hide Stack, At, Element, Product, StackPair;
    var q, ts := StackPair(ps), Products(ps);
    StackShape(ps);
    StackedProducts(ps);
    assert ShapeOf(q) == [|ts|] + ts[0].shape;
    forall m: Index, j: nat | InRange(Front(q), m) && j < Cols(q) ensures Element(q, m, j) == At(Stack(ts), m + [j]) {
      StackedAt(ps, ts, q, m, j);
    }
    FromElements(q, Stack(ts));
  }

  // ---------------------------------------------------------------- cat

  function Sum(lens: seq<nat>): nat {
    if lens == [] then 0 else lens[0] + Sum(lens[1..])
  }

  /** The tensor that the r-th entry of a concatenation comes from, and its place there. */
  function Locate(lens: seq<nat>, r: nat): (at: (nat, nat))
    requires r < Sum(lens)
    ensures at.0 < |lens| && at.1 < lens[at.0]
  {
    if r < lens[0] then (0, r)
    else
      var rest := Locate(lens[1..], r - lens[0]);
      (rest.0 + 1, rest.1)
  }

  function Lens(ts: seq<Tensor>): (lens: seq<nat>)
    ensures |lens| == |ts|
  {
    seq(|ts|, x requires 0 <= x < |ts| => if |ts[x].shape| > 0 then ts[x].shape[0] else 0)
  }

  ghost function CatElement(ts: seq<Tensor>, idx: Index): real {
    if |idx| > 0 && idx[0] < Sum(Lens(ts)) then
      var at := Locate(Lens(ts), idx[0]);
      At(ts[at.0], [at.1] + idx[1..])
    else 0.0
  }

  /** The tensors behind one another along the first axis. */
  ghost function Cat(ts: seq<Tensor>, rest: Shape): (u: Tensor)
    ensures Valid(u) && u.shape == [Sum(Lens(ts))] + rest
  {
    Build([Sum(Lens(ts))] + rest, idx => CatElement(ts, idx))
  }

  lemma CatAt(ts: seq<Tensor>, rest: Shape, r: nat, i: Index)
    requires r < Sum(Lens(ts)) && InRange(rest, i)
    ensures var at := Locate(Lens(ts), r); At(Cat(ts, rest), [r] + i) == At(ts[at.0], [at.1] + i)
  {
    hide At;
    InRangeFirst(Sum(Lens(ts)), rest, r, i);
    BuildAt([Sum(Lens(ts))] + rest, idx => CatElement(ts, idx), [r] + i);
    assert ([r] + i)[1..] == i;
  }

  lemma CatRow(ts: seq<Tensor>, front: Shape, rank: nat, r: nat, i: Index)
    requires r < Sum(Lens(ts)) && InRange(front, i)
    ensures var at := Locate(Lens(ts), r);
            Row(Cat(ts, front + [rank]), [r] + i, rank) == Row(ts[at.0], [at.1] + i, rank)
  {
    hide Cat, At;
    var at := Locate(Lens(ts), r);
    forall k | 0 <= k < rank
      ensures Row(Cat(ts, front + [rank]), [r] + i, rank)[k] == Row(ts[at.0], [at.1] + i, rank)[k] {
      InRangeLast(front, rank, i, k);
      CatAt(ts, front + [rank], r, i + [k]);
      assert [r] + i + [k] == [r] + (i + [k]) && [at.1] + i + [k] == [at.1] + (i + [k]);
    }
  }

  lemma CatColumn(ts: seq<Tensor>, lead: Shape, rank: nat, c: nat, r: nat, l: Index, j: nat)
    requires r < Sum(Lens(ts)) && InRange(lead, l) && j < c
    ensures var at := Locate(Lens(ts), r);
            Column(Cat(ts, lead + [rank, c]), [r] + l, j, rank) == Column(ts[at.0], [at.1] + l, j, rank)
  {
    hide Cat, At;
    var at := Locate(Lens(ts), r);
    forall k | 0 <= k < rank
      ensures Column(Cat(ts, lead + [rank, c]), [r] + l, j, rank)[k] == Column(ts[at.0], [at.1] + l, j, rank)[k] {
      InRangeLast(lead, rank, l, k);
      InRangeLast(lead + [rank], c, l + [k], j);
      assert lead + [rank] + [c] == lead + [rank, c] && l + [k] + [j] == l + [k, j];
      CatAt(ts, lead + [rank, c], r, l + [k, j]);
      assert [r] + l + [k, j] == [r] + (l + [k, j]) && [at.1] + l + [k, j] == [at.1] + (l + [k, j]);
    }
  }

  /** Pairs that differ at most in the length of their first axis. */
  ghost predicate CatablePairs(ps: seq<Lora>) {
    AllWellFormed(ps) &&
    forall x :: 0 <= x < |ps| ==>
      Fits(ps[x]) && Axes(ps[x]) == Axes(ps[0]) &&
      ps[x].b.shape[1..] == ps[0].b.shape[1..] && ps[x].a.shape[1..] == ps[0].a.shape[1..]
  }

  /** A pair fits itself, and one that differs in the length of its first axis. */
  lemma JoinedPairs(p: Lora, q: Lora)
    requires WellFormed(p) && WellFormed(q) && Fits(p) && Fits(q) && Axes(p) == Axes(q)
    requires p.b.shape[1..] == q.b.shape[1..] && p.a.shape[1..] == q.a.shape[1..]
    ensures CatablePairs([p]) && CatablePairs([p, q]) && Stackable([p])
    ensures p.a.shape == q.a.shape && p.b.shape == q.b.shape ==> Stackable([p, q])
  {
  }

  /** Matrices must share A; with more axes both factors are concatenated. */
  ghost function CatPair(ps: seq<Lora>): Outcome<Lora>
    requires CatablePairs(ps)
  {
    var p := ps[0];
    if Axes(p) > 2 then Done(Lora(Cat(As(ps), p.a.shape[1..]), Cat(Bs(ps), p.b.shape[1..])))
    else if forall x :: 1 <= x < |ps| ==> ps[x].a == p.a then Done(Lora(p.a, Cat(Bs(ps), p.b.shape[1..])))
    else Raised
  }

  // Matrices.

  lemma CatMatrixRow(ts: seq<Tensor>, rank: nat, r: nat)
    requires r < Sum(Lens(ts))
    ensures var at := Locate(Lens(ts), r); Row(Cat(ts, [rank]), [r], rank) == Row(ts[at.0], [at.1], rank)
  {
    hide Cat, Row;
    CatRow(ts, [], rank, r, []);
    var at := Locate(Lens(ts), r);
    assert [] + [rank] == [rank] && [r] + [] == [r] && [at.1] + [] == [at.1];
  }

  lemma MatrixOf(ps: seq<Lora>, x: nat)
    requires CatablePairs(ps) && Axes(ps[0]) == 2 && x < |ps|
    ensures WellFormed(ps[x]) && Front(ps[x]) == [Lens(Bs(ps))[x]]
    ensures IsMatrixPair(ps[x], Lens(Bs(ps))[x], Rank(ps[0]), Cols(ps[0]))
  {
    var p, s := ps[0], ps[x];
    assert s.b.shape[1..] == p.b.shape[1..] && s.b.shape[1..][0] == Rank(s) && p.b.shape[1..][0] == Rank(p);
    assert s.a.shape[1..] == p.a.shape[1..] && s.a.shape[1..][0] == Cols(s) && p.a.shape[1..][0] == Cols(p);
  }

  lemma CatMatrixElement(ps: seq<Lora>, q: Lora, r: nat, j: nat)
    requires CatablePairs(ps) && Axes(ps[0]) == 2 && (forall x :: 0 <= x < |ps| ==> ps[x].a == ps[0].a)
    requires q == Lora(ps[0].a, Cat(Bs(ps), [Rank(ps[0])])) && WellFormed(q) && r < Sum(Lens(Bs(ps)))
    ensures var at := Locate(Lens(Bs(ps)), r);
            WellFormed(ps[at.0]) && Axes(ps[at.0]) == 2 && Element(q, [r], j) == Element(ps[at.0], [at.1], j)
  {
    hide Cat, At, Row, Column, Dot, Element;
    var at, k, c := Locate(Lens(Bs(ps)), r), Rank(ps[0]), Cols(ps[0]);
    MatrixOf(ps, 0);
    MatrixOf(ps, at.0);
    MatrixElement(q, Sum(Lens(Bs(ps))), k, c, r, j);
    MatrixElement(ps[at.0], Lens(Bs(ps))[at.0], k, c, at.1, j);
    CatMatrixRow(Bs(ps), k, r);
  }

  lemma SameFirst(ps: seq<Lora>)
    requires AllWellFormed(ps)
    ensures Lens(Products(ps)) == Lens(Bs(ps))
  {
    forall x | 0 <= x < |ps| ensures Lens(Products(ps))[x] == Lens(Bs(ps))[x] {
      assert WellFormed(ps[x]) && Product(ps[x]).shape == Front(ps[x]) + [Cols(ps[x])];
    }
  }

  lemma CatMatrixAt(ps: seq<Lora>, ts: seq<Tensor>, q: Lora, m: Index, j: nat)
    requires CatablePairs(ps) && Axes(ps[0]) == 2 && (forall x :: 0 <= x < |ps| ==> ps[x].a == ps[0].a)
    requires q == Lora(ps[0].a, Cat(Bs(ps), [Rank(ps[0])])) && WellFormed(q)
    requires ts == Products(ps) && InRange([Sum(Lens(Bs(ps)))], m) && j < Cols(ps[0])
    ensures Element(q, m, j) == At(Cat(ts, [Cols(ps[0])]), m + [j])
  {
    hide Cat, At, Row, Column, Dot, Element, Product;
    var r := m[0];
    var at := Locate(Lens(Bs(ps)), r);
    assert m == [r];
    SameFirst(ps);
    CatMatrixElement(ps, q, r, j);
    MatrixOf(ps, at.0);
    ProductAt(ps[at.0], [at.1], j);
    CatAt(ts, [Cols(ps[0])], r, [j]);
  }

  /** Matrices that share A: the concatenation of the pairs stands for that of the products. */
  lemma CatMatrices(ps: seq<Lora>)
    requires CatablePairs(ps) && Axes(ps[0]) == 2
    ensures CatPair(ps).Done? <==> forall x :: 1 <= x < |ps| ==> ps[x].a == ps[0].a
    ensures CatPair(ps).Done? ==>
              WellFormed(CatPair(ps).value) && Product(CatPair(ps).value) == Cat(Products(ps), [Cols(ps[0])])
  {
    hide Cat, At, Element, Product;
    if forall x :: 1 <= x < |ps| ==> ps[x].a == ps[0].a {
      var p, ts := ps[0], Products(ps);
      var q := Lora(p.a, Cat(Bs(ps), [Rank(p)]));
      assert p.b.shape[1..] == [Rank(p)];
      SameFirst(ps);
      assert ShapeOf(q) == [Sum(Lens(ts))] + [Cols(p)];
      forall m: Index, j: nat | InRange(Front(q), m) && j < Cols(q)
        ensures Element(q, m, j) == At(Cat(ts, [Cols(p)]), m + [j]) {
        CatMatrixAt(ps, ts, q, m, j);
      }
      FromElements(q, Cat(ts, [Cols(p)]));
    }
  }

  // More than two axes.

  /** The axes between the first and the rows of A, and those of B with the rows. */
  lemma PartShapes(ps: seq<Lora>, x: nat)
    requires CatablePairs(ps) && Axes(ps[0]) > 2 && x < |ps|
    ensures var p, s := ps[0], ps[x];
            && WellFormed(s) && Rank(s) == Rank(p) && Cols(s) == Cols(p)
            && Front(s) == [Lens(Bs(ps))[x]] + Front(p)[1..] && LeadA(s) == [Lens(As(ps))[x]] + LeadA(p)[1..]
            && p.b.shape[1..] == Front(p)[1..] + [Rank(p)] && p.a.shape[1..] == LeadA(p)[1..] + [Rank(p), Cols(p)]
  {
    var p, s := ps[0], ps[x];
    var n := Axes(p);
    assert s.b.shape[1..] == p.b.shape[1..] && s.a.shape[1..] == p.a.shape[1..];
    assert s.b.shape == [Lens(Bs(ps))[x]] + s.b.shape[1..] && s.a.shape == [Lens(As(ps))[x]] + s.a.shape[1..];
    assert p.b.shape[1..][n - 2] == Rank(p) && p.a.shape[1..][n - 2] == Cols(p) && p.a.shape[1..][n - 3] == Rank(p);
  }

  ghost predicate IsCat(ps: seq<Lora>, q: Lora) {
    CatablePairs(ps) && Axes(ps[0]) > 2 &&
    q.a == Cat(As(ps), LeadA(ps[0])[1..] + [Rank(ps[0]), Cols(ps[0])]) &&
    q.b == Cat(Bs(ps), Front(ps[0])[1..] + [Rank(ps[0])])
  }

  lemma CatShape(ps: seq<Lora>, q: Lora)
    requires IsCat(ps, q)
    ensures WellFormed(q) && Rank(q) == Rank(ps[0]) && Cols(q) == Cols(ps[0])
    ensures Front(q) == [Sum(Lens(Bs(ps)))] + Front(ps[0])[1..]
    ensures LeadA(q) == [Sum(Lens(As(ps)))] + LeadA(ps[0])[1..]
  {
    hide Cat;
  }

  lemma CatRest(ps: seq<Lora>)
    requires CatablePairs(ps) && Axes(ps[0]) > 2
    ensures Broadcasts(LeadA(ps[0])[1..], Front(ps[0])[1..])
  {
    var a, b := LeadA(ps[0]), Front(ps[0]);
    forall d | 0 <= d < |a| - 1 ensures a[1..][d] == 1 || a[1..][d] == b[1..][d] {
      assert a[d + 1] == 1 || a[d + 1] == b[d + 1];
    }
  }

  lemma CatElementOf(ps: seq<Lora>, q: Lora, r: nat, i: Index, j: nat)
    requires IsCat(ps, q) && WellFormed(q) && Lens(As(ps)) == Lens(Bs(ps)) && r < Sum(Lens(Bs(ps)))
    requires InRange(Front(ps[0])[1..], i) && j < Cols(ps[0])
    ensures var at := Locate(Lens(Bs(ps)), r);
            WellFormed(ps[at.0]) && Axes(ps[at.0]) == |i| + 2 &&
            Element(q, [r] + i, j) == Element(ps[at.0], [at.1] + i, j)
  {
    hide Cat, At, Row, Column, Dot, Sum;
    var lens := Lens(Bs(ps));
    var at, p, a := Locate(lens, r), ps[0], LeadA(ps[0])[1..];
    var l := Broadcast(a, i);
    CatShape(ps, q);
    PartShapes(ps, at.0);
    CatRest(ps);
    BroadcastInRange(a, Front(p)[1..], i);
    BroadcastFirst(Sum(lens), a, r, i);
    BroadcastFirst(lens[at.0], a, at.1, i);
    CatRow(Bs(ps), Front(p)[1..], Rank(p), r, i);
    CatColumn(As(ps), a, Rank(p), Cols(p), r, l, j);
  }

  lemma CatPartAt(ps: seq<Lora>, ts: seq<Tensor>, q: Lora, m: Index, j: nat)
    requires IsCat(ps, q) && WellFormed(q) && Lens(As(ps)) == Lens(Bs(ps))
    requires ts == Products(ps) && InRange([Sum(Lens(Bs(ps)))] + Front(ps[0])[1..], m) && j < Cols(ps[0])
    requires Axes(q) == |m| + 1
    ensures Element(q, m, j) == At(Cat(ts, Front(ps[0])[1..] + [Cols(ps[0])]), m + [j])
  {
    hide Cat, At, Element, Product, Sum;
    var r, i, rest := m[0], m[1..], Front(ps[0])[1..];
    assert m == [r] + i;
    InRangeFirst(Sum(Lens(Bs(ps))), rest, r, i);
    var at := Locate(Lens(Bs(ps)), r);
    SameFirst(ps);
    CatElementOf(ps, q, r, i, j);
    PartShapes(ps, at.0);
    InRangeFirst(Lens(Bs(ps))[at.0], rest, at.1, i);
    ProductAt(ps[at.0], [at.1] + i, j);
    InRangeLast(rest, Cols(ps[0]), i, j);
    CatAt(ts, rest + [Cols(ps[0])], r, i + [j]);
    assert [r] + i + [j] == [r] + (i + [j]) && [at.1] + i + [j] == [at.1] + (i + [j]);
  }

  lemma CatParts(ps: seq<Lora>, q: Lora)
    requires IsCat(ps, q) && WellFormed(q) && Lens(As(ps)) == Lens(Bs(ps))
    ensures Product(q) == Cat(Products(ps), Front(ps[0])[1..] + [Cols(ps[0])])
  {
    hide Cat, At, Element, Product, Sum;
    var ts, rest := Products(ps), Front(ps[0])[1..] + [Cols(ps[0])];
    CatShape(ps, q);
    SameFirst(ps);
    assert ShapeOf(q) == [Sum(Lens(ts))] + rest;
    forall m: Index, j: nat | InRange(Front(q), m) && j < Cols(q)
      ensures Element(q, m, j) == At(Cat(ts, rest), m + [j])
    {
      CatPartAt(ps, ts, q, m, j);
    }
    FromElements(q, Cat(ts, rest));
  }

  /**
   * Lengths that are one or as long as the other add up to one or as much only if none is short, or there is only one.
   */
  lemma {:induction false} SumsDiffer(a: seq<nat>, b: seq<nat>)
    requires |a| == |b| && forall x :: 0 <= x < |a| ==> b[x] > 0 && (a[x] == 1 || a[x] == b[x])
    ensures |a| <= Sum(a) <= Sum(b) && (Sum(a) == Sum(b) <==> a == b)
    decreases |a|
  {
    if a != [] {
      SumsDiffer(a[1..], b[1..]);
      assert a == [a[0]] + a[1..] && b == [b[0]] + b[1..];
    }
  }

  /** A has the first axis in full in every pair, or there is a single pair. */
  ghost predicate InFull(ps: seq<Lora>) {
    |ps| == 1 || Lens(As(ps)) == Lens(Bs(ps))
  }

  /**
   * With more than two axes the concatenated factors fit exactly when the first axes of A add up to one or to those of
   * B. Where no first axis is empty that is so exactly when A has it in full in every pair, or there is a single pair;
   * the result then stands for the concatenated products.
   */
  lemma CatExact(ps: seq<Lora>)
    requires CatablePairs(ps) && Axes(ps[0]) > 2
    ensures CatPair(ps).Done? && WellFormed(CatPair(ps).value)
    ensures Fits(CatPair(ps).value) <==> Sum(Lens(As(ps))) == 1 || Sum(Lens(As(ps))) == Sum(Lens(Bs(ps)))
    ensures (forall x :: 0 <= x < |ps| ==> Front(ps[x])[0] > 0) ==> (Fits(CatPair(ps).value) <==> InFull(ps))
    ensures InFull(ps) ==>
              Product(CatPair(ps).value) == Cat(Products(ps), Front(ps[0])[1..] + [Cols(ps[0])])
  {
    hide Cat, Product;
    var q, a, b := CatPair(ps).value, Lens(As(ps)), Lens(Bs(ps));
    PartShapes(ps, 0);
    assert IsCat(ps, q);
    CatShape(ps, q);
    CatRest(ps);
    forall x | 0 <= x < |ps| ensures (a[x] == 1 || a[x] == b[x]) && b[x] == Front(ps[x])[0] {
      PartShapes(ps, x);
      assert Fits(ps[x]) && (LeadA(ps[x])[0] == 1 || LeadA(ps[x])[0] == Front(ps[x])[0]);
    }
    FirstFits(Sum(a), Sum(b), LeadA(ps[0])[1..], Front(ps[0])[1..]);
    if forall x :: 0 <= x < |ps| ==> Front(ps[x])[0] > 0 {
      SumsDiffer(a, b);
      SumOfOne(a, b);
    }
    if a == b {
      CatParts(ps, q);
    } else if |ps| == 1 {
      SinglePair(ps, q);
    }
  }

  /** A single tensor concatenated is itself. */
  lemma CatOne(t: Tensor, rest: Shape)
    requires Valid(t) && |t.shape| > 0 && t.shape[1..] == rest
    ensures Cat([t], rest) == t
  {
    hide Cat, At;
    var u, n := Cat([t], rest), t.shape[0];
    assert Lens([t]) == [n] && Sum(Lens([t])) == n by { assert [n][1..] == []; }
    assert t.shape == [n] + rest;
    forall idx | InRange(t.shape, idx) ensures At(u, idx) == At(t, idx) {
      assert idx == [idx[0]] + idx[1..];
      CatAt([t], rest, idx[0], idx[1..]);
    }
    SameTensor(u, t);
  }

  lemma SinglePair(ps: seq<Lora>, q: Lora)
    requires IsCat(ps, q) && |ps| == 1
    ensures Product(q) == Cat(Products(ps), Front(ps[0])[1..] + [Cols(ps[0])])
  {
    hide Cat, Product, Fits;
    var p := ps[0];
    assert WellFormed(p);
    assert As(ps) == [p.a] && Bs(ps) == [p.b] && Products(ps) == [Product(p)];
    assert p.a.shape[1..] == LeadA(p)[1..] + [Rank(p), Cols(p)];
    assert p.b.shape[1..] == Front(p)[1..] + [Rank(p)];
    CatOne(p.a, LeadA(p)[1..] + [Rank(p), Cols(p)]);
    CatOne(p.b, Front(p)[1..] + [Rank(p)]);
    assert q == p;
    assert Product(p).shape[1..] == Front(p)[1..] + [Cols(p)];
    CatOne(Product(p), Front(p)[1..] + [Cols(p)]);
  }

  lemma SumOfOne(a: seq<nat>, b: seq<nat>)
    requires |a| == |b| > 0 && |a| <= Sum(a) && forall x :: 0 <= x < |a| ==> b[x] > 0 && (a[x] == 1 || a[x] == b[x])
    ensures Sum(a) == 1 ==> |a| == 1
    ensures |a| == 1 ==> Sum(a) == 1 || Sum(a) == Sum(b)
  {}

  lemma FirstFits(m: nat, n: nat, a: Shape, b: Shape)
    requires Broadcasts(a, b)
    ensures Broadcasts([m] + a, [n] + b) <==> m == 1 || m == n
  {
    if Broadcasts([m] + a, [n] + b) { assert ([m] + a)[0] == 1 || ([m] + a)[0] == ([n] + b)[0]; }
  }
}
