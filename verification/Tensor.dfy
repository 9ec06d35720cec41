/**
 * Dense row-major tensors, as far as the weight converters use them: indexing, reshape, permute, slicing, stack and
 * cat. Elements are reals; no operation here rounds.
 */
module Tensors {
  type Shape = seq<nat>
  type Index = seq<nat>

  datatype Tensor = Tensor(shape: Shape, data: seq<real>)

  function Prod(shape: Shape): nat {
    if shape == [] then 1 else Prod(shape[..|shape| - 1]) * shape[|shape| - 1]
  }

  ghost predicate InRange(shape: Shape, idx: Index) {
    |idx| == |shape| && forall d :: 0 <= d < |shape| ==> idx[d] < shape[d]
  }

  ghost predicate Valid(t: Tensor) {
    |t.data| == Prod(t.shape)
  }

  // ---------------------------------------------------------------- row-major positions

  lemma RowBound(r: nat, rows: nat, j: nat, c: nat)
    requires r < rows && j < c
    ensures r * c + j < rows * c
  {
    assert (r + 1) * c <= rows * c;
  }

  lemma SmallMultiple(d: int, c: int)
    requires 0 < c && -c < d * c < c
    ensures d == 0
  {
    assert d >= 1 ==> d * c >= c;
    assert d <= -1 ==> d * c <= -c;
  }

  lemma RowSplit(r: nat, j: nat, c: nat)
    requires j < c
    ensures (r * c + j) / c == r && (r * c + j) % c == j
  {
    var q, m := (r * c + j) / c, (r * c + j) % c;
    assert q * c + m == r * c + j;
    assert (q - r) * c == j - m;
    SmallMultiple(q - r, c);
  }

  lemma RowJoin(n: nat, rows: nat, c: nat)
    requires n < rows * c
    ensures c > 0 && n / c < rows && n % c < c && n / c * c + n % c == n
  {
    assert c > 0;
    var q := n / c;
    assert q * c + n % c == n;
    assert q >= rows ==> q * c >= rows * c;
  }

  ghost function Ravel(shape: Shape, idx: Index): (n: nat)
    requires InRange(shape, idx)
    ensures n < Prod(shape)
  {
    if shape == [] then 0
    else
      var d := |shape| - 1;
      var r := Ravel(shape[..d], idx[..d]);
      RowBound(r, Prod(shape[..d]), idx[d], shape[d]);
      r * shape[d] + idx[d]
  }

  ghost function Unravel(shape: Shape, n: nat): (idx: Index)
    requires n < Prod(shape)
    ensures InRange(shape, idx)
  {
    if shape == [] then []
    else
      var d := |shape| - 1;
      RowJoin(n, Prod(shape[..d]), shape[d]);
      Unravel(shape[..d], n / shape[d]) + [n % shape[d]]
  }

  lemma {:induction false} UnravelRavel(shape: Shape, idx: Index)
    requires InRange(shape, idx)
    ensures Unravel(shape, Ravel(shape, idx)) == idx
    decreases |shape|
  {
    if shape != [] {
      var d := |shape| - 1;
      UnravelRavel(shape[..d], idx[..d]);
      RowSplit(Ravel(shape[..d], idx[..d]), idx[d], shape[d]);
      assert idx[..d] + [idx[d]] == idx;
    }
  }

  lemma {:induction false} RavelUnravel(shape: Shape, n: nat)
    requires n < Prod(shape)
    ensures Ravel(shape, Unravel(shape, n)) == n
    decreases |shape|
  {
    if shape != [] {
      var d := |shape| - 1;
      RowJoin(n, Prod(shape[..d]), shape[d]);
      RavelUnravel(shape[..d], n / shape[d]);
      var idx := Unravel(shape, n);
      assert idx[..d] == Unravel(shape[..d], n / shape[d]);
    }
  }

  // ---------------------------------------------------------------- elements

  ghost function At(t: Tensor, idx: Index): real {
    if Valid(t) && InRange(t.shape, idx) then t.data[Ravel(t.shape, idx)] else 0.0
  }

  /** The tensor whose element at each index is f of that index. */
  ghost function Build(shape: Shape, f: Index -> real): (t: Tensor)
    ensures Valid(t) && t.shape == shape
  {
    Tensor(shape, seq(Prod(shape), n requires 0 <= n < Prod(shape) => f(Unravel(shape, n))))
  }

  lemma BuildAt(shape: Shape, f: Index -> real, idx: Index)
    requires InRange(shape, idx)
    ensures At(Build(shape, f), idx) == f(idx)
  {
    UnravelRavel(shape, idx);
  }

  /** A tensor is its shape and its elements. */
  lemma SameTensor(t: Tensor, u: Tensor)
    requires Valid(t) && Valid(u) && t.shape == u.shape
    requires forall idx :: InRange(t.shape, idx) ==> At(t, idx) == At(u, idx)
    ensures t == u
  {
    forall n | 0 <= n < |t.data| ensures t.data[n] == u.data[n] {
      RavelUnravel(t.shape, n);
      assert At(t, Unravel(t.shape, n)) == At(u, Unravel(t.shape, n));
    }
  }

  // ---------------------------------------------------------------- operations

  /** The same elements in row-major order under another shape. */
  function Reshape(t: Tensor, shape: Shape): Tensor {
    Tensor(shape, t.data)
  }

  ghost predicate IsPermutation(dims: seq<nat>) {
    (forall e :: 0 <= e < |dims| ==> e in dims) &&
    (forall d :: 0 <= d < |dims| ==> dims[d] < |dims|) &&
    (forall c, d :: 0 <= c < d < |dims| ==> dims[c] != dims[d])
  }

  ghost function Position(dims: seq<nat>, e: nat): (d: nat)
    requires e in dims
    ensures d < |dims| && dims[d] == e
  {
    var d :| 0 <= d < |dims| && dims[d] == e;
    d
  }

  ghost function Permuted(s: seq<nat>, dims: seq<nat>): (p: seq<nat>)
    requires IsPermutation(dims) && |s| == |dims|
    ensures |p| == |s|
  {
    seq(|dims|, d requires 0 <= d < |dims| => s[dims[d]])
  }

  /** The index in the original of what the permuted tensor has at idx. */
  ghost function Source(idx: Index, dims: seq<nat>): (s: Index)
    requires IsPermutation(dims) && |idx| == |dims|
    ensures |s| == |idx|
  {
    seq(|dims|, e requires 0 <= e < |dims| => idx[Position(dims, e)])
  }

  lemma SourceInverts(idx: Index, dims: seq<nat>)
    requires IsPermutation(dims) && |idx| == |dims|
    ensures forall d :: 0 <= d < |dims| ==> Source(idx, dims)[dims[d]] == idx[d]
    ensures Permuted(Source(idx, dims), dims) == idx
  {
    forall d | 0 <= d < |dims| ensures Source(idx, dims)[dims[d]] == idx[d] {
      assert Position(dims, dims[d]) == d;
    }
  }

  lemma SourceInRange(shape: Shape, idx: Index, dims: seq<nat>)
    requires IsPermutation(dims) && |shape| == |dims| && InRange(Permuted(shape, dims), idx)
    ensures InRange(shape, Source(idx, dims))
  {
    forall e | 0 <= e < |dims| ensures Source(idx, dims)[e] < shape[e] {
      assert dims[Position(dims, e)] == e;
    }
  }

  /** The axes of the result are the axes dims[0], dims[1], ... of the tensor. */
  ghost function Permute(t: Tensor, dims: seq<nat>): (u: Tensor)
    requires IsPermutation(dims) && |t.shape| == |dims|
    ensures Valid(u) && u.shape == Permuted(t.shape, dims)
  {
    Build(Permuted(t.shape, dims), idx => if |idx| == |dims| then At(t, Source(idx, dims)) else 0.0)
  }

  lemma PermuteAt(t: Tensor, dims: seq<nat>, idx: Index)
    requires IsPermutation(dims) && |t.shape| == |dims| && InRange(Permuted(t.shape, dims), idx)
    ensures At(Permute(t, dims), idx) == At(t, Source(idx, dims))
  {
    BuildAt(Permuted(t.shape, dims), i => if |i| == |dims| then At(t, Source(i, dims)) else 0.0, idx);
  }

  // ---------------------------------------------------------------- the last axis

  lemma ProdLast(front: Shape, c: nat)
    ensures Prod(front + [c]) == Prod(front) * c
  {
    assert (front + [c])[..|front|] == front;
  }

  lemma RavelLast(front: Shape, c: nat, i: Index, j: nat)
    requires InRange(front, i) && j < c
    ensures InRange(front + [c], i + [j])
    ensures Ravel(front + [c], i + [j]) == Ravel(front, i) * c + j
  {
    assert (front + [c])[..|front|] == front && (i + [j])[..|front|] == i;
  }

  /** The index in front of the last axis of what a reshaped tensor has at the leading index i. */
  ghost function Moved(front: Shape, lead: Shape, i: Index): (k: Index)
    requires Prod(lead) == Prod(front) && InRange(lead, i)
    ensures InRange(front, k)
  {
    Unravel(front, Ravel(lead, i))
  }

  /** Reshaping what is in front of the last axis moves elements by their leading index only. */
  lemma ReshapeAt(t: Tensor, front: Shape, lead: Shape, c: nat, i: Index, j: nat)
    requires Valid(t) && t.shape == front + [c] && Prod(lead) == Prod(front)
    requires InRange(lead, i) && j < c
    ensures Valid(Reshape(t, lead + [c]))
    ensures At(Reshape(t, lead + [c]), i + [j]) == At(t, Moved(front, lead, i) + [j])
  {
    ProdLast(front, c);
    ProdLast(lead, c);
    RavelLast(lead, c, i, j);
    RavelLast(front, c, Moved(front, lead, i), j);
    RavelUnravel(front, Ravel(lead, i));
  }

  /** Trailing axes weigh the leading ones by their product. */
  lemma {:induction false} RavelTail(front: Shape, rest: Shape, i: Index, tail: Index)
    requires InRange(front, i) && InRange(rest, tail)
    ensures InRange(front + rest, i + tail)
    ensures Ravel(front + rest, i + tail) == Ravel(front, i) * Prod(rest) + Ravel(rest, tail)
    decreases |rest|
  {
    hide Ravel, Prod;
    if rest == [] {
      RavelNone();
      assert front + rest == front && i + tail == i;
    } else {
      var n := |rest| - 1;
      SplitLast(rest[..n], rest[n], tail) by { assert rest == rest[..n] + [rest[n]]; }
      RavelTail(front, rest[..n], i, tail[..n]);
      RavelTailLast(front, rest[..n], rest[n], i, tail[..n], tail[n]);
      assert front + (rest[..n] + [rest[n]]) == front + rest && i + (tail[..n] + [tail[n]]) == i + tail;
      assert rest[..n] + [rest[n]] == rest && tail[..n] + [tail[n]] == tail;
    }
  }

  lemma RavelNone()
    ensures Prod([]) == 1 && Ravel([], []) == 0
  {}

  lemma RavelTailLast(front: Shape, rest: Shape, c: nat, i: Index, tail: Index, k: nat)
    requires InRange(front, i) && InRange(rest, tail) && InRange(front + rest, i + tail) && k < c
    requires Ravel(front + rest, i + tail) == Ravel(front, i) * Prod(rest) + Ravel(rest, tail)
    ensures InRange(front + (rest + [c]), i + (tail + [k])) && InRange(rest + [c], tail + [k])
    ensures Ravel(front + (rest + [c]), i + (tail + [k])) ==
            Ravel(front, i) * Prod(rest + [c]) + Ravel(rest + [c], tail + [k])
  {
    hide Ravel, Prod;
    RavelLast(front + rest, c, i + tail, k);
    RavelLast(rest, c, tail, k);
    ProdLast(rest, c);
    assert front + rest + [c] == front + (rest + [c]) && i + tail + [k] == i + (tail + [k]);
    Distributed(Ravel(front, i), Prod(rest), Ravel(rest, tail), c);
  }

  lemma Distributed(a: nat, b: nat, d: nat, c: nat)
    ensures (a * b + d) * c == a * (b * c) + d * c
  {
    MulThrice(a, b, c);
  }

  lemma MulThrice(a: nat, b: nat, c: nat)
    ensures a * b * c == a * (b * c)
  {}

  lemma {:induction false} ProdTail(front: Shape, rest: Shape)
    ensures Prod(front + rest) == Prod(front) * Prod(rest)
    decreases |rest|
  {
    if rest == [] {
      assert front + rest == front;
    } else {
      var n := |rest| - 1;
      ProdTail(front, rest[..n]);
      ProdLast(front + rest[..n], rest[n]);
      assert front + rest == front + rest[..n] + [rest[n]];
      MulThrice(Prod(front), Prod(rest[..n]), rest[n]);
    }
  }

  /** The same with any number of axes kept behind. */
  lemma ReshapeTail(t: Tensor, front: Shape, lead: Shape, rest: Shape, i: Index, tail: Index)
    requires Valid(t) && t.shape == front + rest && Prod(lead) == Prod(front)
    requires InRange(lead, i) && InRange(rest, tail)
    ensures Valid(Reshape(t, lead + rest))
    ensures At(Reshape(t, lead + rest), i + tail) == At(t, Moved(front, lead, i) + tail)
  {
    ProdTail(front, rest);
    ProdTail(lead, rest);
    RavelTail(lead, rest, i, tail);
    RavelTail(front, rest, Moved(front, lead, i), tail);
    RavelUnravel(front, Ravel(lead, i));
  }

  lemma SplitLast(front: Shape, c: nat, idx: Index)
    requires InRange(front + [c], idx)
    ensures idx == idx[..|front|] + [idx[|front|]] && InRange(front, idx[..|front|]) && idx[|front|] < c
  {
    assert (front + [c])[|front|] == c;
    forall d | 0 <= d < |front| ensures idx[..|front|][d] < front[d] { assert (front + [c])[d] == front[d]; }
  }

  /** Tensors that agree row by row are the same. */
  lemma SameRows(t: Tensor, u: Tensor, front: Shape, c: nat)
    requires Valid(t) && Valid(u) && t.shape == front + [c] && u.shape == front + [c]
    requires forall i: Index, j: nat :: InRange(front, i) && j < c ==> At(t, i + [j]) == At(u, i + [j])
    ensures t == u
  {
    forall idx | InRange(t.shape, idx) ensures At(t, idx) == At(u, idx) {
      SplitLast(front, c, idx);
      assert At(t, idx[..|front|] + [idx[|front|]]) == At(u, idx[..|front|] + [idx[|front|]]);
    }
    SameTensor(t, u);
  }
}
