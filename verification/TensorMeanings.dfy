/**
 * What the operations on dense tensors and the product of a pair come to, element by element: the statements about
 * factored weights are about these.
 */
module TensorMeanings {
  import opened Tensors
  import opened LoraTensors
  import opened LoraAxes
  import opened LoraParts
  import opened LoraIndexing
  import opened LoraJoins
  import opened Wrappers

  // ---------------------------------------------------------------- the product of a pair

  lemma DotOfTwo(u: seq<real>, v: seq<real>)
    requires |u| == |v| == 2
    ensures Dot(u, v) == u[0] * v[0] + u[1] * v[1]
  {
    assert u[..1][..0] == [] && v[..1][..0] == [];
    assert Dot(u[..1][..0], v[..1][..0]) == 0.0;
    assert Dot(u[..1], v[..1]) == u[0] * v[0];
  }

  /** One column more of B and one row more of A add one product. */
  lemma DotOneMore(u: seq<real>, v: seq<real>, x: real, y: real)
    requires |u| == |v|
    ensures Dot(u + [x], v + [y]) == Dot(u, v) + x * y && Dot([], []) == 0.0
  {
    assert (u + [x])[..|u|] == u && (v + [y])[..|v|] == v;
  }

  /** A pair of matrices of rank two: the sum over its two columns and rows. */
  lemma ProductOfRankTwo(p: Lora, i: nat, j: nat)
    requires WellFormed(p) && Axes(p) == 2 && Rank(p) == 2 && i < Front(p)[0] && j < Cols(p)
    ensures At(Product(p), [i, j]) == At(p.b, [i, 0]) * At(p.a, [0, j]) + At(p.b, [i, 1]) * At(p.a, [1, j])
  {
    hide At, Product, Dot;
    ProductAt(p, [i], j);
    var row, column := Row(p.b, [i], 2), Column(p.a, Broadcast(LeadA(p), [i]), j, 2);
    DotOfTwo(row, column);
    assert [i] + [0] == [i, 0] && [i] + [1] == [i, 1] && [i] + [j] == [i, j];
    assert Broadcast(LeadA(p), [i]) == [];
    assert [] + [0, j] == [0, j] && [] + [1, j] == [1, j];
  }

  /** Several matrices of rank one: each has its own A, or the only one there is. */
  lemma ProductOfSeveral(p: Lora, h: nat, i: nat, j: nat)
    requires WellFormed(p) && Axes(p) == 3 && Rank(p) == 1 && h < Front(p)[0] && i < Front(p)[1] && j < Cols(p)
    ensures LeadA(p)[0] == 1 ==> At(Product(p), [h, i, j]) == At(p.b, [h, i, 0]) * At(p.a, [0, 0, j])
    ensures LeadA(p)[0] != 1 ==> At(Product(p), [h, i, j]) == At(p.b, [h, i, 0]) * At(p.a, [h, 0, j])
  {
    hide At, Product, Dot;
    ProductAt(p, [h, i], j);
    var l := Broadcast(LeadA(p), [h, i]);
    var row, column := Row(p.b, [h, i], 1), Column(p.a, l, j, 1);
    DotOneMore([], [], row[0], column[0]);
    assert [] + [row[0]] == row && [] + [column[0]] == column;
    assert [h, i] + [0] == [h, i, 0] && [h, i] + [j] == [h, i, j];
    assert l == [if LeadA(p)[0] == 1 then 0 else h];
    assert l + [0, j] == [l[0], 0, j];
  }

  // ---------------------------------------------------------------- permuted axes

  /** The axes [2, 0, 1] bring the last one to the front. */
  lemma LastToFront(t: Tensor, x: nat, y: nat, z: nat)
    requires Valid(t) && |t.shape| == 3 && x < t.shape[0] && y < t.shape[1] && z < t.shape[2]
    ensures IsPermutation([2, 0, 1]) && At(Permute(t, [2, 0, 1]), [z, x, y]) == At(t, [x, y, z])
  {
    hide At;
    var dims := [2, 0, 1];
    assert dims[0] == 2 && dims[1] == 0 && dims[2] == 1;
    var idx := [z, x, y];
    SourceInverts(idx, dims);
    var s := Source(idx, dims);
    assert s[dims[0]] == z && s[dims[1]] == x && s[dims[2]] == y;
    assert s == [x, y, z];
    PermuteAt(t, dims, idx);
  }

  /** A negative number names an axis counted from the back; one beyond the axes is counted from the front again. */
  lemma AxisMeans(n: nat, dim: int)
    ensures 0 <= dim < n ==> AxisOf(n, dim) == dim
    ensures dim < 0 ==> AxisOf(n, dim) == dim + n
    ensures dim >= n ==> AxisOf(n, dim) == dim - n
  {
  }

  lemma SwappedAxes(n: nat, d0: nat, d1: nat)
    requires d0 < n && d1 < n
    ensures var axes := AxesOf(n, Swapped(n, d0, d1));
            IsPermutation(axes) && axes[d0] == d1 && axes[d1] == d0 &&
            forall d :: 0 <= d < n && d != d0 && d != d1 ==> axes[d] == d
  {
    var dims := Swapped(n, d0, d1);
    var axes := AxesOf(n, dims);
    assert forall d :: 0 <= d < n ==> axes[d] == dims[d];
    forall e | 0 <= e < n ensures e in axes {
      var d := if e == d0 then d1 else if e == d1 then d0 else e;
      assert axes[d] == e;
    }
  }

  lemma SwappedSource(n: nat, d0: nat, d1: nat, idx: Index)
    requires d0 < n && d1 < n && |idx| == n && IsPermutation(AxesOf(n, Swapped(n, d0, d1)))
    ensures Source(idx, AxesOf(n, Swapped(n, d0, d1))) == idx[d0 := idx[d1]][d1 := idx[d0]]
  {
    hide AxesOf, Swapped;
    var axes := AxesOf(n, Swapped(n, d0, d1));
    SwappedAxes(n, d0, d1);
    SourceInverts(idx, axes);
    var s := Source(idx, axes);
    forall e | 0 <= e < n ensures s[e] == idx[d0 := idx[d1]][d1 := idx[d0]][e] {
      var d := if e == d0 then d1 else if e == d1 then d0 else e;
      assert s[axes[d]] == idx[d];
    }
  }

  /** Whatever transpose returns stands for the product with the two axes exchanged. */
  lemma TransposeMeaning(p: Lora, d0: nat, d1: nat, idx: Index)
    requires WellFormed(p) && TransposePair(p, d0, d1).Done?
    ensures d0 < Axes(p) && d1 < Axes(p) && WellFormed(TransposePair(p, d0, d1).value)
    ensures InRange(Product(TransposePair(p, d0, d1).value).shape, idx) ==>
              At(Product(TransposePair(p, d0, d1).value), idx) == At(Product(p), idx[d0 := idx[d1]][d1 := idx[d0]])
  {
    hide At, Product, PermutePair, AxesOf, Swapped, Source;
    var n, dims := Axes(p), Swapped(Axes(p), d0, d1);
    PermuteMeaning(p, dims);
    var axes := AxesOf(n, dims);
    if InRange(Product(TransposePair(p, d0, d1).value).shape, idx) {
      assert |Product(p).shape| == n;
      PermuteAt(Product(p), axes, idx);
      SwappedSource(n, d0, d1, idx);
    }
  }

  /** With a shared A it succeeds if the last axis stays, or there are only two. */
  lemma TransposeSucceeds(p: Lora, d0: nat, d1: nat)
    requires WellFormed(p) && SharedA(p)
    ensures var n := Axes(p);
            TransposePair(p, d0, d1).Done? <==>
            d0 < n && d1 < n && (n == 2 || d0 == d1 || (d0 != n - 1 && d1 != n - 1))
  {
    hide PermutePair;
    var n := Axes(p);
    if d0 < n && d1 < n {
      SwappedAxes(n, d0, d1);
      PermuteSucceeds(p, Swapped(n, d0, d1));
    }
  }

  // ---------------------------------------------------------------- indexed axes

  lemma SourceOfSpans(lo: nat, hi: nat, from: nat, to: nat, i: nat, j: nat)
    requires lo <= hi && from <= to
    ensures ShapeIx([Span(lo, hi), Span(from, to)]) == [hi - lo, to - from]
    ensures SourceIx([Span(lo, hi), Span(from, to)], [i, j]) == [lo + i, from + j]
  {
    SourceSpan([], lo, hi, [], i);
    SourceSpan([Span(lo, hi)], from, to, [i], j);
    assert ShapeIx([]) == [] && SourceIx([], []) == [];
    hide ShapeIx, SourceIx;
    assert [] + [Span(lo, hi)] == [Span(lo, hi)] && [Span(lo, hi)] + [Span(from, to)] == [Span(lo, hi), Span(from, to)];
    assert [] + [i] == [i] && [i] + [j] == [i, j];
    assert [] + [lo + i] == [lo + i] && [lo + i] + [from + j] == [lo + i, from + j];
    assert [] + [hi - lo] == [hi - lo] && [hi - lo] + [to - from] == [hi - lo, to - from];
  }

  lemma SourceOfRow(row: nat, from: nat, to: nat, j: nat)
    requires from <= to
    ensures ShapeIx([One(row), Span(from, to)]) == [to - from]
    ensures SourceIx([One(row), Span(from, to)], [j]) == [row, from + j]
  {
    ShapeLast([], One(row));
    assert ShapeIx([]) == [] && SourceIx([], []) == [];
    assert [] + [One(row)] == [One(row)];
    assert ShapeIx([One(row)]) == [];
    assert SourceIx([One(row)], []) == [row];
    SourceSpan([One(row)], from, to, [], j);
    hide ShapeIx, SourceIx;
    assert [One(row)] + [Span(from, to)] == [One(row), Span(from, to)] && [] + [j] == [j];
    assert [row] + [from + j] == [row, from + j] && [] + [to - from] == [to - from];
  }

  /** A slice of both axes of a matrix starts at its lower ends; a number takes one row. */
  lemma IndexedMatrix(t: Tensor, lo: nat, hi: nat, from: nat, to: nat, i: nat, j: nat)
    requires lo <= hi && from <= to && lo + i < hi && from + j < to
    ensures At(IndexTensor(t, [Span(lo, hi), Span(from, to)]), [i, j]) == At(t, [lo + i, from + j])
    ensures At(IndexTensor(t, [One(lo), Span(from, to)]), [j]) == At(t, [lo, from + j])
  {
    hide At, IndexTensor, ShapeIx, SourceIx;
    SourceOfSpans(lo, hi, from, to, i, j);
    IndexAt(t, [Span(lo, hi), Span(from, to)], [i, j]);
    SourceOfRow(lo, from, to, j);
    IndexAt(t, [One(lo), Span(from, to)], [j]);
  }

  /** A position is in a slice if it is not before its start and before its stop, each counted from either end. */
  lemma ClipMeans(start: Option<int>, stop: Option<int>, n: nat, p: nat)
    requires p < n
    ensures var x := Clip(start, stop, n);
            x.lo <= p < x.hi <==>
            (start.Some? ==> if start.value >= 0 then start.value <= p else start.value <= p - n) &&
            (stop.Some? ==> if stop.value >= 0 then p < stop.value else p - n < stop.value)
  {
  }

  /** A number means the position of that distance from one of the ends. */
  lemma PlaceMeans(i: int, n: nat, p: nat)
    ensures Place(i, n) == Some(p) <==> p < n && (i == p || i == p - n)
  {
  }

  // ---------------------------------------------------------------- concatenated tensors

  /** The rows of the first of two matrices, then those of the second. */
  lemma CatOfTwo(t: Tensor, u: Tensor, m: nat, n: nat, c: nat, r: nat, j: nat)
    requires t.shape == [m, c] && u.shape == [n, c] && r < m + n && j < c
    ensures Cat([t, u], [c]).shape == [m + n, c]
    ensures At(Cat([t, u], [c]), [r, j]) == if r < m then At(t, [r, j]) else At(u, [r - m, j])
  {
    hide At, Cat;
    assert Lens([t, u]) == [m, n];
    assert [m, n][1..] == [n] && [n][1..] == [];
    assert Sum([]) == 0;
    assert Sum([n]) == n;
    assert Sum([m, n]) == m + n;
    if r >= m { assert Locate([n], r - m) == (0, r - m); }
    assert Locate([m, n], r) == if r < m then (0, r) else (1, r - m);
    CatAt([t, u], [c], r, [j]);
    assert [r] + [j] == [r, j] && (r >= m ==> [r - m] + [j] == [r - m, j]);
  }
}
