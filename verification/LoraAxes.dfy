/**
 * Moving the axes of a factored weight (convert_lora_to_gguf.py): permute, transpose and the swap of the two factors.
 */
module LoraAxes {
  import opened Tensors
  import opened LoraTensors
  import opened Wrappers

  lemma FromElements(q: Lora, t: Tensor)
    requires WellFormed(q) && Valid(t) && t.shape == ShapeOf(q)
    requires forall i: Index, j: nat :: InRange(Front(q), i) && j < Cols(q) ==> Element(q, i, j) == At(t, i + [j])
    ensures Product(q) == t
  {
    forall i: Index, j: nat | InRange(Front(q), i) && j < Cols(q) ensures At(Product(q), i + [j]) == At(t, i + [j]) {
      ProductAt(q, i, j);
    }
    SameRows(Product(q), t, Front(q), Cols(q));
  }

  // ---------------------------------------------------------------- the last axis stays

  ghost predicate KeepsLast(dims: seq<nat>) {
    IsPermutation(dims) && |dims| > 0 && dims[|dims| - 1] == |dims| - 1
  }

  lemma InnerPermutation(dims: seq<nat>)
    requires KeepsLast(dims)
    ensures IsPermutation(dims[..|dims| - 1])
  {
    var inner := dims[..|dims| - 1];
    forall e | 0 <= e < |inner| ensures e in inner {
      var d := Position(dims, e);
      assert inner[d] == e;
    }
  }

  lemma KeptLast(front: Shape, c: nat, dims: seq<nat>)
    requires KeepsLast(dims) && |front| == |dims| - 1
    ensures IsPermutation(dims[..|dims| - 1])
    ensures Permuted(front + [c], dims) == Permuted(front, dims[..|dims| - 1]) + [c]
  {
    InnerPermutation(dims);
  }

  lemma SourceKeepsLast(i: Index, k: nat, dims: seq<nat>)
    requires KeepsLast(dims) && |i| == |dims| - 1
    ensures IsPermutation(dims[..|dims| - 1])
    ensures Source(i + [k], dims) == Source(i, dims[..|dims| - 1]) + [k]
  {
    InnerPermutation(dims);
    var inner := dims[..|dims| - 1];
    forall e | 0 <= e < |dims| ensures Source(i + [k], dims)[e] == (Source(i, inner) + [k])[e] {
      var d := Position(dims, e);
      if e < |inner| {
        assert inner[Position(inner, e)] == e && dims[Position(inner, e)] == e;
      }
    }
  }

  lemma PermutedRowAt(t: Tensor, front: Shape, c: nat, dims: seq<nat>, i: Index, k: nat)
    requires Valid(t) && t.shape == front + [c] && KeepsLast(dims) && |front| == |dims| - 1
    requires IsPermutation(dims[..|dims| - 1]) && InRange(Permuted(front, dims[..|dims| - 1]), i) && k < c
    ensures At(Permute(t, dims), i + [k]) == At(t, Source(i, dims[..|dims| - 1]) + [k])
  {
    KeptLast(front, c, dims);
    SourceKeepsLast(i, k, dims);
    RavelLast(Permuted(front, dims[..|dims| - 1]), c, i, k);
    PermuteAt(t, dims, i + [k]);
  }

  lemma PermutedRow(t: Tensor, front: Shape, c: nat, dims: seq<nat>, i: Index)
    requires Valid(t) && t.shape == front + [c] && KeepsLast(dims) && |front| == |dims| - 1
    requires IsPermutation(dims[..|dims| - 1]) && InRange(Permuted(front, dims[..|dims| - 1]), i)
    ensures Row(Permute(t, dims), i, c) == Row(t, Source(i, dims[..|dims| - 1]), c)
  {
    forall k | 0 <= k < c ensures At(Permute(t, dims), i + [k]) == At(t, Source(i, dims[..|dims| - 1]) + [k]) {
      PermutedRowAt(t, front, c, dims, i, k);
    }
  }

  lemma PermutedShape(p: Lora, dims: seq<nat>)
    requires WellFormed(p) && SharedA(p) && KeepsLast(dims) && |dims| == Axes(p)
    ensures IsPermutation(dims[..|dims| - 1])
    ensures var q := Lora(p.a, Permute(p.b, dims));
            WellFormed(q) && SharedA(q) && Rank(q) == Rank(p) && Front(q) == Permuted(Front(p), dims[..|dims| - 1])
  {
    assert p.b.shape == Front(p) + [Rank(p)];
    KeptLast(Front(p), Rank(p), dims);
  }

  lemma PermutedElement(p: Lora, q: Lora, dims: seq<nat>, i: Index, j: nat)
    requires WellFormed(p) && SharedA(p) && KeepsLast(dims) && |dims| == Axes(p) && IsPermutation(dims[..|dims| - 1])
    requires q == Lora(p.a, Permute(p.b, dims)) && WellFormed(q) && SharedA(q) && Rank(q) == Rank(p)
    requires InRange(Permuted(Front(p), dims[..|dims| - 1]), i) && j < Cols(p)
    ensures Element(q, i, j) == Element(p, Source(i, dims[..|dims| - 1]), j)
  {
    SharedElement(q, i, j);
    SharedElement(p, Source(i, dims[..|dims| - 1]), j);
    assert p.b.shape == Front(p) + [Rank(p)];
    PermutedRow(p.b, Front(p), Rank(p), dims, i);
  }

  lemma PermutedAt(p: Lora, q: Lora, dims: seq<nat>, i: Index, j: nat)
    requires WellFormed(p) && SharedA(p) && KeepsLast(dims) && |dims| == Axes(p) && IsPermutation(dims[..|dims| - 1])
    requires q == Lora(p.a, Permute(p.b, dims)) && WellFormed(q) && SharedA(q) && Rank(q) == Rank(p)
    requires InRange(Permuted(Front(p), dims[..|dims| - 1]), i) && j < Cols(p)
    ensures Element(q, i, j) == At(Permute(Product(p), dims), i + [j])
  {
    PermutedElement(p, q, dims, i, j);
    SourceInRange(Front(p), i, dims[..|dims| - 1]);
    ProductAt(p, Source(i, dims[..|dims| - 1]), j);
    PermutedRowAt(Product(p), Front(p), Cols(p), dims, i, j);
  }

  lemma PermuteKeepingLast(p: Lora, dims: seq<nat>)
    requires WellFormed(p) && SharedA(p) && KeepsLast(dims) && |dims| == Axes(p)
    ensures var q := Lora(p.a, Permute(p.b, dims));
            WellFormed(q) && SharedA(q) && Product(q) == Permute(Product(p), dims)
  {
    var q := Lora(p.a, Permute(p.b, dims));
    PermutedShape(p, dims);
    KeptLast(Front(p), Cols(p), dims);
    forall i: Index, j: nat | InRange(Front(q), i) && j < Cols(q)
      ensures Element(q, i, j) == At(Permute(Product(p), dims), i + [j]) {
      PermutedAt(p, q, dims, i, j);
    }
    FromElements(q, Permute(Product(p), dims));
  }

  // ---------------------------------------------------------------- two axes swapped

  lemma {:induction false} DotCommutes(u: seq<real>, v: seq<real>)
    requires |u| == |v|
    ensures Dot(u, v) == Dot(v, u)
    decreases |u|
  {
    if u != [] { DotCommutes(u[..|u| - 1], v[..|u| - 1]); }
  }

  /** The transpose of a matrix. */
  ghost function Transpose(t: Tensor, r: nat, c: nat): (u: Tensor)
    ensures Valid(u) && u.shape == [c, r]
  {
    Build([c, r], idx => if |idx| == 2 then At(t, [idx[1], idx[0]]) else 0.0)
  }

  lemma TransposeAt(t: Tensor, r: nat, c: nat, i: nat, j: nat)
    requires i < c && j < r
    ensures At(Transpose(t, r, c), [i, j]) == At(t, [j, i])
  {
    BuildAt([c, r], idx => if |idx| == 2 then At(t, [idx[1], idx[0]]) else 0.0, [i, j]);
  }

  lemma TransposedRow(t: Tensor, r: nat, c: nat, i: nat)
    requires i < c
    ensures Row(Transpose(t, r, c), [i], r) == Column(t, [], i, r)
  {
    forall k | 0 <= k < r ensures Row(Transpose(t, r, c), [i], r)[k] == Column(t, [], i, r)[k] {
      TransposeAt(t, r, c, i, k);
      assert [i] + [k] == [i, k] && [] + [k, i] == [k, i];
    }
  }

  lemma TransposedColumn(t: Tensor, r: nat, c: nat, j: nat)
    requires j < r
    ensures Column(Transpose(t, r, c), [], j, c) == Row(t, [j], c)
  {
    forall k | 0 <= k < c ensures Column(Transpose(t, r, c), [], j, c)[k] == Row(t, [j], c)[k] {
      TransposeAt(t, r, c, k, j);
      assert [j] + [k] == [j, k] && [] + [k, j] == [k, j];
    }
  }

  ghost predicate IsMatrixPair(p: Lora, r: nat, k: nat, c: nat) {
    Valid(p.a) && Valid(p.b) && p.a.shape == [k, c] && p.b.shape == [r, k]
  }

  lemma MatrixPair(p: Lora, r: nat, k: nat, c: nat)
    requires IsMatrixPair(p, r, k, c)
    ensures WellFormed(p) && SharedA(p) && Rank(p) == k && Cols(p) == c && Front(p) == [r] && ShapeOf(p) == [r, c]
  {
    assert Ones(0) + [k, c] == [k, c];
  }

  lemma MatrixElement(p: Lora, r: nat, k: nat, c: nat, i: nat, j: nat)
    requires IsMatrixPair(p, r, k, c) && WellFormed(p)
    ensures Element(p, [i], j) == Dot(Row(p.b, [i], k), Column(p.a, [], j, k))
  {
    assert LeadA(p) == [] && Broadcast([], [i]) == [];
  }

  lemma TransposedElement(p: Lora, q: Lora, r: nat, k: nat, c: nat, i: nat, j: nat)
    requires IsMatrixPair(p, r, k, c) && WellFormed(p) && WellFormed(q) && i < c && j < r
    requires q == Lora(Transpose(p.b, r, k), Transpose(p.a, k, c))
    ensures Element(q, [i], j) == Element(p, [j], i)
  {
    MatrixElement(p, r, k, c, j, i);
    MatrixElement(q, c, k, r, i, j);
    TransposedRow(p.a, k, c, i);
    TransposedColumn(p.b, r, k, j);
    DotCommutes(Column(p.a, [], i, k), Row(p.b, [j], k));
  }

  lemma TransposeAtSum(t: Tensor, r: nat, c: nat, i: nat, j: nat)
    requires i < c && j < r
    ensures At(Transpose(t, r, c), [i] + [j]) == At(t, [j] + [i])
  {
    TransposeAt(t, r, c, i, j);
    assert [j] + [i] == [j, i] && [i] + [j] == [i, j];
  }

  lemma MatrixProductAt(p: Lora, t: Tensor, r: nat, k: nat, c: nat, i: nat, j: nat)
    requires IsMatrixPair(p, r, k, c) && WellFormed(p) && i < r && j < c && t == Product(p)
    ensures At(t, [i] + [j]) == Element(p, [i], j)
  {
    MatrixPair(p, r, k, c);
    ProductAt(p, [i], j);
  }

  lemma TransposedAt(p: Lora, q: Lora, t: Tensor, r: nat, k: nat, c: nat, i: nat, j: nat)
    requires IsMatrixPair(p, r, k, c) && WellFormed(p) && WellFormed(q) && i < c && j < r && t == Product(p)
    requires q == Lora(Transpose(p.b, r, k), Transpose(p.a, k, c))
    ensures Element(q, [i], j) == At(Transpose(t, r, c), [i] + [j])
  {
    TransposedElement(p, q, r, k, c, i, j);
    MatrixProductAt(p, t, r, k, c, j, i);
    TransposeAtSum(t, r, c, i, j);
  }

  lemma TransposedPair(p: Lora, r: nat, k: nat, c: nat)
    requires IsMatrixPair(p, r, k, c) && WellFormed(p)
    ensures var q := Lora(Transpose(p.b, r, k), Transpose(p.a, k, c));
            WellFormed(q) && SharedA(q) && Product(q) == Transpose(Product(p), r, c)
  {
    var q := Lora(Transpose(p.b, r, k), Transpose(p.a, k, c));
    MatrixPair(p, r, k, c);
    MatrixPair(q, c, k, r);
    forall m: Index, j: nat | InRange([c], m) && j < r
      ensures Element(q, m, j) == At(Transpose(Product(p), r, c), m + [j]) {
      TransposedAt(p, q, Product(p), r, k, c, m[0], j);
      assert m == [m[0]];
    }
    FromElements(q, Transpose(Product(p), r, c));
  }

  lemma SwapIsTranspose(t: Tensor, dims: seq<nat>, r: nat, c: nat)
    requires t.shape == [r, c] && dims == [1, 0]
    ensures IsPermutation(dims) && Permute(t, dims) == Transpose(t, r, c)
  {
    TwoSwapped([r, c], dims);
    hide At, Build, Prod, IsPermutation, Permuted, Source;
    forall idx | InRange([c, r], idx) ensures At(Permute(t, dims), idx) == At(Transpose(t, r, c), idx) {
      PermuteAt(t, dims, idx);
      SourceOfTwo(idx, dims);
      TransposeAt(t, r, c, idx[0], idx[1]);
      assert idx == [idx[0], idx[1]];
    }
    SameTensor(Permute(t, dims), Transpose(t, r, c));
  }

  lemma TwoSwapped(s: seq<nat>, dims: seq<nat>)
    requires |s| == 2 && dims == [1, 0]
    ensures IsPermutation(dims) && Permuted(s, dims) == [s[1], s[0]]
  {
    assert dims[0] == 1 && dims[1] == 0;
  }

  lemma SourceOfTwo(idx: Index, dims: seq<nat>)
    requires |idx| == 2 && dims == [1, 0]
    ensures IsPermutation(dims) && Source(idx, dims) == [idx[1], idx[0]]
  {
    TwoSwapped(idx, dims);
    SourceInverts(idx, dims);
    assert Source(idx, dims)[dims[0]] == idx[0] && Source(idx, dims)[dims[1]] == idx[1];
  }

  // ---------------------------------------------------------------- permute and transpose

  /** Axes counted from the front are rewritten as counted from the back, where -1 is the last. */
  function FromBack(n: nat, dim: int): int {
    if dim >= 0 then dim - n else dim
  }

  /** The axis a number stands for when it is handed to the permute of a dense tensor. */
  function AxisOf(n: nat, dim: int): int {
    if FromBack(n, dim) < 0 then FromBack(n, dim) + n else FromBack(n, dim)
  }

  function AxesOf(n: nat, dims: seq<int>): (axes: seq<nat>)
    ensures |axes| == |dims|
  {
    seq(|dims|, d requires 0 <= d < |dims| => if AxisOf(n, dims[d]) >= 0 then AxisOf(n, dims[d]) else n)
  }

  ghost function TorchPermute(t: Tensor, axes: seq<nat>): Outcome<Tensor> {
    if |axes| == |t.shape| && IsPermutation(axes) then Done(Permute(t, axes)) else Raised
  }

  ghost function PermutePair(p: Lora, dims: seq<int>): Outcome<Lora>
    requires WellFormed(p)
  {
    var n := Axes(p);
    var axes := AxesOf(n, dims);
    if dims == [] then Raised
    else if FromBack(n, dims[|dims| - 1]) == -1 then
      if exists d :: 0 <= d < n - 2 && p.a.shape[d] != 1 then Raised
      else match TorchPermute(p.b, axes)
        case Raised => Raised
        case Done(b) => Done(Lora(p.a, b))
    else if n == 2 && |dims| >= 2 && FromBack(n, dims[|dims| - 1]) == -2 && FromBack(n, dims[|dims| - 2]) == -1 then
      match (TorchPermute(p.b, axes), TorchPermute(p.a, axes))
      case (Done(b), Done(a)) => Done(Lora(b, a))
      case _ => Raised
    else Raised
  }

  lemma SharedMeansOnes(p: Lora)
    requires WellFormed(p)
    ensures SharedA(p) <==> !exists d :: 0 <= d < Axes(p) - 2 && p.a.shape[d] != 1
  {
    var n := Axes(p) - 2;
    if !exists d :: 0 <= d < n && p.a.shape[d] != 1 {
      assert p.a.shape == Ones(n) + [Rank(p), Cols(p)];
    }
    if SharedA(p) {
      forall d | 0 <= d < n ensures p.a.shape[d] == 1 { assert Ones(n)[d] == 1; }
    }
  }

  lemma SwapOfAxes(dims: seq<int>)
    requires |dims| == 2 && FromBack(2, dims[1]) == -2 && FromBack(2, dims[0]) == -1
    ensures AxesOf(2, dims) == [1, 0]
  {}

  lemma PermuteSwapped(p: Lora)
    requires WellFormed(p) && Axes(p) == 2
    ensures IsPermutation([1, 0])
    ensures var q := Lora(Permute(p.b, [1, 0]), Permute(p.a, [1, 0]));
            WellFormed(q) && SharedA(q) && Product(q) == Permute(Product(p), [1, 0])
  {
    hide At, Build, Product;
    var r, k, c := p.b.shape[0], Rank(p), Cols(p);
    assert p.a.shape == [k, c] && p.b.shape == [r, k];
    MatrixPair(p, r, k, c);
    SwapIsTranspose(p.a, [1, 0], k, c);
    SwapIsTranspose(p.b, [1, 0], r, k);
    SwapIsTranspose(Product(p), [1, 0], r, c);
    TransposedPair(p, r, k, c);
  }

  /** Whatever permute returns is the pair of the permuted product; the pair returned has a shared A again. */
  lemma PermuteMeaning(p: Lora, dims: seq<int>)
    requires WellFormed(p) && PermutePair(p, dims).Done?
    ensures var q, axes := PermutePair(p, dims).value, AxesOf(Axes(p), dims);
            |axes| == Axes(p) && IsPermutation(axes) &&
            WellFormed(q) && SharedA(q) && Product(q) == Permute(Product(p), axes)
  {
    var n, axes := Axes(p), AxesOf(Axes(p), dims);
    if FromBack(n, dims[|dims| - 1]) == -1 {
      SharedMeansOnes(p);
      assert axes[|dims| - 1] == n - 1;
      PermuteKeepingLast(p, axes);
    } else {
      SwapOfAxes(dims);
      PermuteSwapped(p);
    }
  }

  /**
   * Permute succeeds on every permutation that leaves a row a row, provided A is shared, and on the swap of two axes.
   */
  lemma PermuteSucceeds(p: Lora, dims: seq<int>)
    requires WellFormed(p) && SharedA(p) && |dims| == Axes(p) && IsPermutation(AxesOf(Axes(p), dims))
    requires forall d :: 0 <= d < |dims| ==> -|dims| <= dims[d] < |dims|
    ensures PermutePair(p, dims).Done? <==> AxesOf(Axes(p), dims)[Axes(p) - 1] == Axes(p) - 1 || Axes(p) == 2
  {
    var n, axes := Axes(p), AxesOf(Axes(p), dims);
    SharedMeansOnes(p);
    assert axes[n - 1] == AxisOf(n, dims[n - 1]) && axes[n - 2] == AxisOf(n, dims[n - 2]);
    assert axes[n - 1] != axes[n - 2];
  }

  function Identity(n: nat): (dims: seq<int>)
    ensures |dims| == n
  {
    seq(n, d => d)
  }

  function Swapped(n: nat, d0: nat, d1: nat): (dims: seq<int>)
    requires d0 < n && d1 < n
    ensures |dims| == n
  {
    Identity(n)[d0 := d1][d1 := d0]
  }

  /** transpose and swapaxes; axes counted from the front. */
  ghost function TransposePair(p: Lora, d0: nat, d1: nat): Outcome<Lora>
    requires WellFormed(p)
  {
    if d0 < Axes(p) && d1 < Axes(p) then PermutePair(p, Swapped(Axes(p), d0, d1)) else Raised
  }
}
