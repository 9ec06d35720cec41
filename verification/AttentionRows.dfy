/**
 * The reordering of query and key rows (LlamaModel.permute in convert_hf_to_gguf.py), on a dense weight or bias and on
 * a factored matrix: reshape to (heads, 2, half, ...), swap the two inner axes, reshape back.
 */
module AttentionRows {
  import opened Tensors
  import opened LoraTensors
  import opened LoraAxes
  import opened Wrappers

  /** The number of key and value heads counts where it is given and another one. */
  function HeadCount(nHead: nat, nHeadKv: Option<nat>): nat {
    match nHeadKv
    case None => nHead
    case Some(kv) => if nHead != kv then kv else nHead
  }

  // ---------------------------------------------------------------- the row map

  /** The row of the original that becomes row r: halves interleaved within each head. */
  function RowSource(half: nat, r: nat): nat
    requires half > 0
  {
    (r / 2 / half * 2 + r % 2) * half + r / 2 % half
  }

  /** The row that row s of the original becomes. */
  function RowTarget(half: nat, s: nat): nat
    requires half > 0
  {
    (s / half / 2 * half + s % half) * 2 + s / half % 2
  }

  lemma RowOf(half: nat, h: nat, y: nat, x: nat)
    requires y < 2 && x < half
    ensures RowSource(half, (h * half + x) * 2 + y) == (h * 2 + y) * half + x
    ensures RowTarget(half, (h * 2 + y) * half + x) == (h * half + x) * 2 + y
  {
    RowSplit(h * half + x, y, 2);
    RowSplit(h, x, half);
    RowSplit(h * 2 + y, x, half);
    RowSplit(h, y, 2);
  }

  lemma TargetForm(half: nat, heads: nat, r: nat) returns (h: nat, y: nat, x: nat)
    requires half > 0 && r < heads * half * 2
    ensures h < heads && y < 2 && x < half && r == (h * half + x) * 2 + y
  {
    RowJoin(r, heads * half, 2);
    RowJoin(r / 2, heads, half);
    h, y, x := r / 2 / half, r % 2, r / 2 % half;
  }

  lemma SourceForm(half: nat, heads: nat, s: nat) returns (h: nat, y: nat, x: nat)
    requires half > 0 && s < heads * 2 * half
    ensures h < heads && y < 2 && x < half && s == (h * 2 + y) * half + x
  {
    RowJoin(s, heads * 2, half);
    RowJoin(s / half, heads, 2);
    h, y, x := s / half / 2, s / half % 2, s % half;
  }

  lemma SameRowCount(heads: nat, half: nat)
    ensures heads * half * 2 == heads * 2 * half
  {}

  /** The row map is a bijection on the rows. */
  lemma RowsPermuted(heads: nat, half: nat, r: nat)
    requires half > 0 && r < heads * 2 * half
    ensures RowSource(half, r) < heads * 2 * half && RowTarget(half, RowSource(half, r)) == r
    ensures RowTarget(half, r) < heads * 2 * half && RowSource(half, RowTarget(half, r)) == r
  {
    SameRowCount(heads, half);
    var h, y, x := TargetForm(half, heads, r);
    RowOf(half, h, y, x);
    RowBound(h, heads, y, 2);
    RowBound(h * 2 + y, heads * 2, x, half);
    var g, z, w := SourceForm(half, heads, r);
    RowOf(half, g, z, w);
    RowBound(g, heads, w, half);
    RowBound(g * half + w, heads * half, z, 2);
  }

  // ---------------------------------------------------------------- on a dense tensor

  /** The second and the third axis change places; more of them follow. */
  function InnerSwap(more: nat): (dims: seq<nat>)
    ensures |dims| == 3 + more
  {
    [0, 2, 1] + seq(more, d => d + 3)
  }

  lemma InnerSwapPermutes(more: nat)
    ensures IsPermutation(InnerSwap(more))
  {
    var dims := InnerSwap(more);
    assert dims[0] == 0 && dims[1] == 2 && dims[2] == 1;
    forall e | 0 <= e < 3 + more ensures e in dims {
      if e >= 3 { assert dims[e] == e; }
    }
  }

  /** Heads of two halves; a reshape fails unless the rows divide into them. */
  ghost function Reorder(t: Tensor, heads: nat): Outcome<Tensor>
    requires t.shape != []
  {
    if heads == 0 then Raised
    else
      var rest := t.shape[1..];
      match TorchReshape(t, [heads, 2, t.shape[0] / heads / 2] + rest)
      case Raised => Raised
      case Done(u) =>
        InnerSwapPermutes(|rest|);
        TorchReshape(Permute(u, InnerSwap(|rest|)), [t.shape[0]] + rest)
  }

  /** LlamaModel.permute on a dense tensor. */
  ghost function PermuteRows(t: Tensor, nHead: nat, nHeadKv: Option<nat>): Outcome<Tensor>
    requires t.shape != []
  {
    Reorder(t, HeadCount(nHead, nHeadKv))
  }

  lemma RavelThree(a: nat, b: nat, c: nat, x: nat, y: nat, z: nat)
    requires x < a && y < b && z < c
    ensures InRange([a, b, c], [x, y, z]) && Ravel([a, b, c], [x, y, z]) == (x * b + y) * c + z
  {
    RavelOne(a, x);
    RavelLast([a], b, [x], y);
    RavelLast([a] + [b], c, [x] + [y], z);
    assert [a] + [b] + [c] == [a, b, c] && [x] + [y] + [z] == [x, y, z];
  }

  lemma ProdThree(a: nat, b: nat, c: nat)
    ensures Prod([a, b, c]) == a * b * c
  {
    ProdOne(a);
    ProdLast([a], b);
    ProdLast([a, b], c);
    assert [a] + [b] == [a, b] && [a, b] + [c] == [a, b, c];
  }

  lemma RavelOne(a: nat, x: nat)
    requires x < a
    ensures InRange([a], [x]) && Ravel([a], [x]) == x && Prod([a]) == a
  {
    assert [a][..0] == [] && [x][..0] == [];
  }

  lemma ProdOne(a: nat)
    ensures Prod([a]) == a
  {
    assert [a][..0] == [];
  }

  /** Splitting the rows. */
  lemma SplitMoved(rows: nat, a: nat, b: nat, c: nat, x: nat, y: nat, z: nat)
    requires rows == a * b * c && x < a && y < b && z < c
    ensures Prod([a, b, c]) == Prod([rows]) && InRange([a, b, c], [x, y, z])
    ensures (x * b + y) * c + z < rows
    ensures Moved([rows], [a, b, c], [x, y, z]) == [(x * b + y) * c + z]
  {
    RavelThree(a, b, c, x, y, z);
    ProdThree(a, b, c);
    RowBound(x, a, y, b);
    RowBound(x * b + y, a * b, z, c);
    RavelOne(rows, (x * b + y) * c + z);
    UnravelRavel([rows], [(x * b + y) * c + z]);
  }

  /** Joining them again. */
  lemma JoinMoved(rows: nat, a: nat, b: nat, c: nat, x: nat, y: nat, z: nat)
    requires rows == a * b * c && x < a && y < b && z < c
    ensures (x * b + y) * c + z < rows
    ensures Prod([a, b, c]) == Prod([rows]) && InRange([rows], [(x * b + y) * c + z])
    ensures Moved([a, b, c], [rows], [(x * b + y) * c + z]) == [x, y, z]
  {
    RavelThree(a, b, c, x, y, z);
    ProdThree(a, b, c);
    RowBound(x, a, y, b);
    RowBound(x * b + y, a * b, z, c);
    RavelOne(rows, (x * b + y) * c + z);
    UnravelRavel([a, b, c], [x, y, z]);
  }

  lemma SwapSource(x: nat, y: nat, z: nat, tail: Index)
    ensures IsPermutation(InnerSwap(|tail|)) && Source([x, y, z] + tail, InnerSwap(|tail|)) == [x, z, y] + tail
  {
    var dims := InnerSwap(|tail|);
    InnerSwapPermutes(|tail|);
    SourceInverts([x, y, z] + tail, dims);
    var s := Source([x, y, z] + tail, dims);
    assert s[dims[0]] == x && s[dims[1]] == y && s[dims[2]] == z;
    forall e | 3 <= e < 3 + |tail| ensures s[e] == tail[e - 3] { assert dims[e] == e; }
  }

  lemma SwappedShape(a: nat, b: nat, c: nat, rest: Shape)
    ensures IsPermutation(InnerSwap(|rest|)) && Permuted([a, b, c] + rest, InnerSwap(|rest|)) == [a, c, b] + rest
  {
    InnerSwapPermutes(|rest|);
  }

  lemma SwapInnerAt(u: Tensor, a: nat, b: nat, c: nat, rest: Shape, x: nat, y: nat, z: nat, tail: Index)
    requires Valid(u) && u.shape == [a, b, c] + rest && x < a && y < c && z < b && InRange(rest, tail)
    requires IsPermutation(InnerSwap(|rest|))
    ensures At(Permute(u, InnerSwap(|rest|)), [x, y, z] + tail) == At(u, [x, z, y] + tail)
  {
    SwapSource(x, y, z, tail);
    SwappedShape(a, b, c, rest);
    PermuteAt(u, InnerSwap(|rest|), [x, y, z] + tail);
  }

  /** v is u with the two inner axes swapped. */
  ghost predicate IsInnerSwap(u: Tensor, v: Tensor, more: nat) {
    IsPermutation(InnerSwap(more)) && |u.shape| == 3 + more && v == Permute(u, InnerSwap(more))
  }

  lemma SwapInnerShape(u: Tensor, a: nat, b: nat, c: nat, rest: Shape)
    requires Valid(u) && u.shape == [a, b, c] + rest
    ensures IsPermutation(InnerSwap(|rest|)) && Permute(u, InnerSwap(|rest|)).shape == [a, c, b] + rest
  {
    SwappedShape(a, b, c, rest);
  }

  lemma JoinStep(v: Tensor, heads: nat, half: nat, rows: nat, rest: Shape, h: nat, y: nat, x: nat, r: nat, tail: Index)
    requires rows == heads * 2 * half && r == (h * half + x) * 2 + y
    requires Valid(v) && v.shape == [heads, half, 2] + rest && h < heads && y < 2 && x < half && InRange(rest, tail)
    ensures At(Reshape(v, [rows] + rest), [r] + tail) == At(v, [h, x, y] + tail)
  {
    hide At, Prod;
    SameRowCount(heads, half);
    JoinMoved(rows, heads, half, 2, h, x, y);
    ReshapeTail(v, [heads, half, 2], [rows], rest, [r], tail);
  }

  lemma SplitStep(t: Tensor, heads: nat, half: nat, rows: nat, rest: Shape, h: nat, y: nat, x: nat, s: nat, tail: Index)
    requires rows == heads * 2 * half && s == (h * 2 + y) * half + x
    requires Valid(t) && t.shape == [rows] + rest && h < heads && y < 2 && x < half && InRange(rest, tail)
    ensures At(Reshape(t, [heads, 2, half] + rest), [h, y, x] + tail) == At(t, [s] + tail)
  {
    hide At, Prod;
    SplitMoved(rows, heads, 2, half, h, y, x);
    ReshapeTail(t, [rows], [heads, 2, half], rest, [h, y, x], tail);
  }

  /** The three steps on an element of the row that head h has at x of half y. */
  lemma MovedElement(t: Tensor, u: Tensor, v: Tensor, heads: nat, half: nat, rows: nat, rest: Shape,
                     h: nat, y: nat, x: nat, r: nat, s: nat, tail: Index)
    requires rows == heads * 2 * half && r == (h * half + x) * 2 + y && s == (h * 2 + y) * half + x
    requires Valid(t) && t.shape == [rows] + rest && h < heads && y < 2 && x < half && InRange(rest, tail)
    requires u == Reshape(t, [heads, 2, half] + rest) && Valid(u) && IsInnerSwap(u, v, |rest|)
    requires Valid(v) && v.shape == [heads, half, 2] + rest
    ensures At(Reshape(v, [rows] + rest), [r] + tail) == At(t, [s] + tail)
  {
    hide At, Build, Prod, InnerSwap, IsPermutation, InRange, Valid;
    JoinStep(v, heads, half, rows, rest, h, y, x, r, tail);
    SwapInnerAt(u, heads, 2, half, rest, h, x, y, tail);
    SplitStep(t, heads, half, rows, rest, h, y, x, s, tail);
  }

  lemma RowMoved(t: Tensor, u: Tensor, v: Tensor, heads: nat, half: nat, rows: nat, rest: Shape, r: nat, tail: Index)
    requires rows == heads * 2 * half && half > 0 && r < rows
    requires Valid(t) && t.shape == [rows] + rest && InRange(rest, tail)
    requires u == Reshape(t, [heads, 2, half] + rest) && Valid(u) && IsInnerSwap(u, v, |rest|)
    requires Valid(v) && v.shape == [heads, half, 2] + rest
    ensures At(Reshape(v, [rows] + rest), [r] + tail) == At(t, [RowSource(half, r)] + tail)
  {
    hide InnerSwap, At, Build;
    SameRowCount(heads, half);
    var h, y, x := TargetForm(half, heads, r);
    RowOf(half, h, y, x);
    MovedElement(t, u, v, heads, half, rows, rest, h, y, x, r, RowSource(half, r), tail);
  }

  /** The rows divide into heads of two halves. */
  predicate Divides(rows: nat, heads: nat) {
    heads > 0 && rows == heads * 2 * (rows / heads / 2)
  }

  lemma SplitCount(heads: nat, half: nat, rows: nat, rest: Shape)
    ensures Prod([heads, 2, half] + rest) == heads * 2 * half * Prod(rest)
    ensures Prod([rows] + rest) == rows * Prod(rest)
  {
    ProdThree(heads, 2, half);
    ProdTail([heads, 2, half], rest);
    ProdOne(rows);
    ProdTail([rows], rest);
  }

  /** Half the rows of a head. */
  function Half(rows: nat, heads: nat): nat { if heads == 0 then 0 else rows / heads / 2 }

  /** The element of row r behind which tail leads on. */
  ghost function Cell(t: Tensor, r: nat, tail: Index): real {
    At(t, [r] + tail)
  }

  /** Row r of u is row RowSource(r) of t. */
  ghost predicate RowsReordered(t: Tensor, u: Tensor, half: nat)
    requires t.shape != []
  {
    Valid(u) && u.shape == t.shape &&
    forall r: nat, tail: Index :: r < t.shape[0] && InRange(t.shape[1..], tail) ==>
      half > 0 && Cell(u, r, tail) == Cell(t, RowSource(half, r), tail)
  }

  /**
   * The reordering goes through exactly when the rows divide or the tensor is empty, and the rows of its result are
   * those of the row map. The number of key and value heads decides wherever it is given, as with keys whose heads
   * are shared by several queries.
   */
  lemma PermuteRowsMeaning(t: Tensor, nHead: nat, nHeadKv: Option<nat>)
    requires Valid(t) && t.shape != []
    ensures forall kv :: nHeadKv == Some(kv) ==>
              && (PermuteRows(t, nHead, nHeadKv).Done? <==>
                  kv > 0 && (Divides(t.shape[0], kv) || Prod(t.shape[1..]) == 0))
              && (PermuteRows(t, nHead, nHeadKv).Done? ==>
                    RowsReordered(t, PermuteRows(t, nHead, nHeadKv).value, Half(t.shape[0], kv)))
    ensures nHeadKv == None ==>
              && (PermuteRows(t, nHead, nHeadKv).Done? <==>
                  nHead > 0 && (Divides(t.shape[0], nHead) || Prod(t.shape[1..]) == 0))
              && (PermuteRows(t, nHead, nHeadKv).Done? ==>
                    RowsReordered(t, PermuteRows(t, nHead, nHeadKv).value, Half(t.shape[0], nHead)))
  {
    ReorderMeaning(t, HeadCount(nHead, nHeadKv));
  }

  /** Sixteen rows of two key heads, shared by four query heads: the halves of eight rows each are interleaved. */
  lemma SharedKeyHeads(t: Tensor, cols: nat, tail: Index)
    requires Valid(t) && t.shape == [16, cols] && InRange([cols], tail)
    ensures PermuteRows(t, 4, Some(2)).Done?
    ensures var u := PermuteRows(t, 4, Some(2)).value;
            && u.shape == t.shape
            && Cell(u, 0, tail) == Cell(t, 0, tail) && Cell(u, 1, tail) == Cell(t, 4, tail)
            && Cell(u, 2, tail) == Cell(t, 1, tail) && Cell(u, 3, tail) == Cell(t, 5, tail)
            && Cell(u, 7, tail) == Cell(t, 7, tail) && Cell(u, 8, tail) == Cell(t, 8, tail)
            && Cell(u, 9, tail) == Cell(t, 12, tail) && Cell(u, 15, tail) == Cell(t, 15, tail)
  {
    hide *;
    SharedKeyCount(t);
    var u := PermuteRows(t, 4, Some(2)).value;
    assert InRange(t.shape[1..], tail) by { assert t.shape[1..] == [cols]; }
    SharedKeyRow(t, u, tail, 0, 0, 0);
    SharedKeyRow(t, u, tail, 0, 1, 0);
    SharedKeyRow(t, u, tail, 0, 0, 1);
    SharedKeyRow(t, u, tail, 0, 1, 1);
    SharedKeyRow(t, u, tail, 0, 1, 3);
    SharedKeyRow(t, u, tail, 1, 0, 0);
    SharedKeyRow(t, u, tail, 1, 1, 0);
    SharedKeyRow(t, u, tail, 1, 1, 3);
  }

  lemma SharedKeyCount(t: Tensor)
    requires Valid(t) && |t.shape| == 2 && t.shape[0] == 16
    ensures PermuteRows(t, 4, Some(2)).Done?
    ensures RowsReordered(t, PermuteRows(t, 4, Some(2)).value, 4)
    ensures PermuteRows(t, 4, Some(2)).value.shape == t.shape
  {
    hide PermuteRows, Cell, Valid;
    PermuteRowsMeaning(t, 4, Some(2));
  }

  lemma SharedKeyRow(t: Tensor, u: Tensor, tail: Index, h: nat, y: nat, x: nat)
    requires t.shape != [] && RowsReordered(t, u, 4) && h < 2 && y < 2 && x < 4
    requires t.shape[0] == 16 && InRange(t.shape[1..], tail)
    ensures Cell(u, h * 8 + x * 2 + y, tail) == Cell(t, h * 8 + y * 4 + x, tail)
  {
    hide Cell, RowSource;
    RowOf(4, h, y, x);
    assert (h * 4 + x) * 2 + y == h * 8 + x * 2 + y && (h * 2 + y) * 4 + x == h * 8 + y * 4 + x;
  }

  lemma ReorderMeaning(t: Tensor, heads: nat)
    requires Valid(t) && t.shape != []
    ensures Reorder(t, heads).Done? <==> heads > 0 && (Divides(t.shape[0], heads) || Prod(t.shape[1..]) == 0)
    ensures Reorder(t, heads).Done? ==> RowsReordered(t, Reorder(t, heads).value, Half(t.shape[0], heads))
  {
    if heads > 0 {
      var rows, rest, half := t.shape[0], t.shape[1..], t.shape[0] / heads / 2;
      assert t.shape == [rows] + rest;
      SplitCount(heads, half, rows, rest);
      if Prod(rest) > 0 { SameFactor(heads * 2 * half, rows, Prod(rest)); }
      if Divides(rows, heads) {
        RowsMoved(t, heads, half, rest);
      } else if Prod(rest) == 0 {
        NothingMoved(t, heads, half, rest);
      }
    }
  }

  lemma RowsMoved(t: Tensor, heads: nat, half: nat, rest: Shape)
    requires heads > 0 && Valid(t) && t.shape == [heads * 2 * half] + rest && half == t.shape[0] / heads / 2
    ensures Reorder(t, heads).Done? && RowsReordered(t, Reorder(t, heads).value, half)
  {
    var rows := heads * 2 * half;
    SplitCount(heads, half, rows, rest);
    var u := Reshape(t, [heads, 2, half] + rest);
    SwapInnerShape(u, heads, 2, half, rest);
    var v := Permute(u, InnerSwap(|rest|));
    SameRowCount(heads, half);
    ProdThree(heads, half, 2);
    ProdTail([heads, half, 2], rest);
    hide InnerSwap, At, Build;
    assert t.shape[1..] == rest;
    forall r: nat, tail: Index | r < rows && InRange(rest, tail)
      ensures half > 0 && Cell(Reshape(v, [rows] + rest), r, tail) == Cell(t, RowSource(half, r), tail)
    {
      SomeHalf(heads, half, r);
      RowMoved(t, u, v, heads, half, rows, rest, r, tail);
    }
  }

  /** With an axis of length zero behind the rows there is nothing to move. */
  lemma NothingMoved(t: Tensor, heads: nat, half: nat, rest: Shape)
    requires heads > 0 && Valid(t) && t.shape != [] && rest == t.shape[1..] && half == t.shape[0] / heads / 2
    requires Prod(rest) == 0
    ensures Reorder(t, heads).Done? && RowsReordered(t, Reorder(t, heads).value, half)
  {
    var rows := t.shape[0];
    assert t.shape == [rows] + rest;
    SplitCount(heads, half, rows, rest);
    var u := Reshape(t, [heads, 2, half] + rest);
    SwapInnerShape(u, heads, 2, half, rest);
    ProdTail([heads, half, 2], rest);
    forall tail ensures !InRange(rest, tail) { Inhabited(rest, tail); }
  }

  lemma Inhabited(shape: Shape, idx: Index)
    ensures InRange(shape, idx) ==> Prod(shape) > 0
  {
    if InRange(shape, idx) { assert Ravel(shape, idx) < Prod(shape); }
  }

  lemma SomeHalf(heads: nat, half: nat, r: nat)
    requires r < heads * 2 * half
    ensures half > 0
  {}

  // ---------------------------------------------------------------- on a factored matrix

  ghost function ReorderPair(p: Lora, heads: nat): Outcome<Lora>
    requires WellFormed(p) && Axes(p) == 2
  {
    if heads == 0 then Raised
    else
      match ReshapePair(p, [heads, 2, p.b.shape[0] / heads / 2] + [Cols(p)])
      case Raised => Raised
      case Done(u) =>
        if !WellFormed(u) then Raised
        else match TransposePair(u, 1, 2)
          case Raised => Raised
          case Done(v) => if !WellFormed(v) then Raised else ReshapePair(v, [p.b.shape[0]] + [Cols(p)])
  }

  /** LlamaModel.permute on a factored matrix. */
  ghost function PermuteRowsPair(p: Lora, nHead: nat, nHeadKv: Option<nat>): Outcome<Lora>
    requires WellFormed(p) && Axes(p) == 2
  {
    ReorderPair(p, HeadCount(nHead, nHeadKv))
  }

  lemma SwapInnerAxes()
    ensures AxesOf(4, Swapped(4, 1, 2)) == InnerSwap(1)
  {}

  lemma SwapInnerSucceeds(u: Lora)
    requires WellFormed(u) && SharedA(u) && Axes(u) == 4
    ensures TransposePair(u, 1, 2).Done?
  {
    InnerSwapPermutes(1);
    SwapInnerAxes();
    PermuteSucceeds(u, Swapped(4, 1, 2));
  }

  lemma SwapInnerPair(u: Lora)
    requires WellFormed(u) && SharedA(u) && Axes(u) == 4
    ensures IsPermutation(InnerSwap(1)) && TransposePair(u, 1, 2).Done?
    ensures var v := TransposePair(u, 1, 2).value;
            WellFormed(v) && SharedA(v) && Product(v) == Permute(Product(u), InnerSwap(1))
  {
    SwapInnerSucceeds(u);
    SwapInnerAxes();
    PermuteMeaning(u, Swapped(4, 1, 2));
  }

  lemma SwapKeepsRank(u: Lora)
    requires WellFormed(u) && SharedA(u) && Axes(u) == 4 && TransposePair(u, 1, 2).Done?
    ensures Axes(TransposePair(u, 1, 2).value) == 4 && Rank(TransposePair(u, 1, 2).value) == Rank(u)
    ensures Cols(TransposePair(u, 1, 2).value) == Cols(u)
  {
    SwapInnerAxes();
    InnerSwapPermutes(1);
  }

  lemma PermuteRowsSteps(p: Lora, t: Tensor, heads: nat, rows: nat, half: nat)
    requires WellFormed(p) && SharedA(p) && Front(p) == [rows] && Rank(p) > 0 && t == Product(p)
    requires Divides(rows, heads) && half == rows / heads / 2 && Reorder(t, heads).Done?
    ensures ReorderPair(p, heads).Done? && WellFormed(ReorderPair(p, heads).value)
    ensures Product(ReorderPair(p, heads).value) == Reorder(t, heads).value
  {
    var c := Cols(p);
    assert Prod([heads, 2, half]) == Prod([rows]) by { ProdThree(heads, 2, half); ProdOne(rows); }
    ReshapeTo(p, [heads, 2, half], c);
    var u := ReshapePair(p, [heads, 2, half] + [c]).value;
    SwapInnerPair(u);
    SwapKeepsRank(u);
    var v := TransposePair(u, 1, 2).value;
    SwapInnerShape(Product(u), heads, 2, half, [c]);
    assert Front(v) + [c] == [heads, half, 2] + [c];
    assert Front(v) == [heads, half, 2] by { CancelLast(Front(v), [heads, half, 2], c); }
    assert Prod([rows]) == Prod(Front(v)) by { SameRowCount(heads, half); ProdThree(heads, half, 2); ProdOne(rows); }
    ReshapeTo(v, [rows], c);
  }

  lemma CancelLast(a: Shape, b: Shape, c: nat)
    requires a + [c] == b + [c]
    ensures a == b
  {
    assert (a + [c])[..|a|] == a && (b + [c])[..|b|] == b;
  }

  /** On a factored matrix the reordering goes through exactly when it does on the product, with the same result. */
  lemma PermuteRowsCommutes(p: Lora, nHead: nat, nHeadKv: Option<nat>)
    requires WellFormed(p) && Axes(p) == 2 && Rank(p) > 0 && Cols(p) > 0
    ensures PermuteRowsPair(p, nHead, nHeadKv).Done? <==> PermuteRows(Product(p), nHead, nHeadKv).Done?
    ensures PermuteRowsPair(p, nHead, nHeadKv).Done? ==>
              WellFormed(PermuteRowsPair(p, nHead, nHeadKv).value) &&
              Product(PermuteRowsPair(p, nHead, nHeadKv).value) == PermuteRows(Product(p), nHead, nHeadKv).value
  {
    ReorderCommutes(p, HeadCount(nHead, nHeadKv));
  }

  lemma ReorderCommutes(p: Lora, heads: nat)
    requires WellFormed(p) && Axes(p) == 2 && Rank(p) > 0 && Cols(p) > 0
    ensures ReorderPair(p, heads).Done? <==> Reorder(Product(p), heads).Done?
    ensures ReorderPair(p, heads).Done? ==>
              WellFormed(ReorderPair(p, heads).value) &&
              Product(ReorderPair(p, heads).value) == Reorder(Product(p), heads).value
  {
    hide At, Build, Product, Reorder, ReorderPair, Divides;
    MatrixPair(p, p.b.shape[0], Rank(p), Cols(p));
    ProductReorders(p, heads);
    if Divides(p.b.shape[0], heads) {
      var rows := p.b.shape[0];
      SomeHeads(rows, heads);
      PermuteRowsSteps(p, Product(p), heads, rows, Half(rows, heads));
    } else {
      PairFails(p, heads);
    }
  }

  lemma SomeHeads(rows: nat, heads: nat)
    requires Divides(rows, heads)
    ensures heads > 0 && Half(rows, heads) == rows / heads / 2
  {}

  lemma PairFails(p: Lora, heads: nat)
    requires WellFormed(p) && Axes(p) == 2 && Cols(p) > 0 && Rank(p) > 0 && !Divides(p.b.shape[0], heads)
    ensures ReorderPair(p, heads).Raised?
  {
    hide ReshapePair, TransposePair;
    if heads > 0 {
      var rows, half := p.b.shape[0], p.b.shape[0] / heads / 2;
      MatrixPair(p, rows, Rank(p), Cols(p));
      ProdThree(heads, 2, half);
      ProdOne(rows);
      ReshapeResult(p, [heads, 2, half], Cols(p));
    }
  }

  lemma ProductReorders(p: Lora, heads: nat)
    requires WellFormed(p) && Axes(p) == 2 && Cols(p) > 0
    ensures Reorder(Product(p), heads).Done? <==> Divides(p.b.shape[0], heads)
  {
    hide Product, Reorder;
    ProdOne(Cols(p));
    assert Product(p).shape[1..] == [Cols(p)];
    ReorderMeaning(Product(p), heads);
  }
}
