/** The positions of tokens in the KV cache, and the two ways lac.cpp makes room among them. */
module KvCaches {
  /** Position of every cached token, tokens named by their index in the history. */
  type Kv = map<nat, int>

  /** In [p0, p1), where a negative end is none. */
  predicate Between(p0: int, p1: int, p: int) { p >= 0 && p0 <= p && (p1 < 0 || p < p1) }

  /** llama_kv_cache_seq_rm: drops the tokens positioned there. */
  function SeqRm(kv: Kv, p0: int, p1: int): Kv {
    map t | t in kv && !Between(p0, p1, kv[t]) :: kv[t]
  }

  /** llama_kv_cache_seq_add: moves the tokens positioned there by d; what would fall below zero is dropped. */
  function SeqAdd(kv: Kv, p0: int, p1: int, d: int): Kv {
    map t | t in kv && !(Between(p0, p1, kv[t]) && kv[t] + d < 0) :: if Between(p0, p1, kv[t]) then kv[t] + d else kv[t]
  }

  /** llama_kv_cache_seq_div: divides the positions there by d. */
  function SeqDiv(kv: Kv, p0: int, p1: int, d: int): Kv
    requires d > 0
  {
    map t | t in kv :: if Between(p0, p1, kv[t]) then Quotient(kv[t], d) else kv[t]
  }

  /** The lower end belongs to a range and the upper one does not; a negative end leaves it open. */
  lemma RangesHalfOpen(p0: nat, p1: nat, p: nat)
    ensures Between(p0, p1, p) <==> p0 <= p < p1
    ensures Between(p0, -1, p) <==> p0 <= p
    ensures Between(-1, p1, p) <==> p < p1
    ensures Between(-1, -1, p)
  {
  }

  /** Integer division as C++ does it, truncating toward zero. */
  function Quotient(a: int, b: int): int
    requires b > 0
  {
    if a >= 0 then a / b else -((-a) / b)
  }

  /** What is left over is less than the divisor and has the sign of the dividend. */
  lemma TowardZero(a: int, b: int)
    requires b > 0
    ensures a >= 0 ==> 0 <= a - Quotient(a, b) * b < b
    ensures a < 0 ==> -b < a - Quotient(a, b) * b <= 0
  {
    if a < 0 {
      var d, r := (-a) / b, (-a) % b;
      assert -a == d * b + r;
      assert (-d) * b == -(d * b);
    }
  }

  predicate IsNew(size: nat, count: nat, t: nat) { size <= t < size + count }

  /** llama_decode of `count` tokens, the history being `size` long, at positions from `p` on. */
  function Decoded(kv: Kv, size: nat, count: nat, p: int): Kv {
    kv + map t: nat | size <= t < size + count && IsNew(size, count, t) :: p + (t - size)
  }

  // ---------------------------------------------------------------- arithmetic

  lemma MulNext(k: nat, x: int)
    requires k > 0
    ensures k * x == (k - 1) * x + x
  {
  }

  lemma Regroup(n: nat, k: nat, q: nat)
    ensures n * (k * q) == k * (n * q)
  {
  }

  lemma Distribute(a: int, b: int, c: int)
    ensures a * (b + c) == a * b + a * c
  {
  }

  lemma DivBelow(t: nat, m: nat, n: nat)
    requires n > 0
    ensures t < m * n <==> t / n < m
  {
    var d, r := t / n, t % n;
    assert t == d * n + r;
    if d < m {
      assert (d + 1) * n <= m * n;
      assert (d + 1) * n == d * n + n;
    } else {
      assert d * n >= m * n;
    }
  }

  lemma QuotientNotLarger(t: nat, n: nat)
    requires n > 0
    ensures 0 <= t / n <= t
  {
    MulAtLeast(t / n, n);
    assert t == (t / n) * n + t % n;
  }

  lemma MulAtLeast(d: nat, n: nat)
    requires n > 0
    ensures d * n >= d
  {
  }

  // ---------------------------------------------------------------- Self-Extend

  /** Where token t sits after k groups of w tokens have been compressed n to one. */
  function ExtendedPosition(n: nat, w: nat, k: nat, t: nat): int
    requires n > 0
  {
    if t < k * w then t / n else t - k * (w - w / n)
  }

  /** The cache when the first `done` tokens are compressed and the others moved down by `shift`. */
  ghost predicate IsCompressed(kv: Kv, size: nat, n: nat, done: int, shift: int)
    requires n > 0
  {
    && (forall t: nat :: t in kv <==> t < size)
    && (forall t: nat :: t < size ==> kv[t] == if t < done then t / n else t - shift)
  }

  /** What k executions of the loop body have done: the group counter, the tokens compressed, the distance moved. */
  datatype Progress = Progress(gaI: int, done: int, shift: int)

  function ProgressAfter(q: int, w: int, k: nat): Progress {
    if k == 0 then Progress(0, 0, 0)
    else
      var p := ProgressAfter(q, w, k - 1);
      Progress(p.gaI + q, p.done + w, p.shift + (w - q))
  }

  lemma {:induction false} ProgressClosed(q: int, w: int, k: nat)
    ensures ProgressAfter(q, w, k) == Progress(k * q, k * w, k * (w - q))
  {
    if k > 0 {
      ProgressClosed(q, w, k - 1);
      MulNext(k, q);
      MulNext(k, w);
      MulNext(k, w - q);
    }
  }

  lemma {:induction false} ProgressBounds(q: int, w: int, k: nat)
    requires 0 <= q <= w
    ensures var p := ProgressAfter(q, w, k); p.gaI >= 0 && p.shift >= 0 && p.gaI + p.shift == p.done
  {
    if k > 0 { ProgressBounds(q, w, k - 1); }
  }

  /** w == n * q, counted out to keep the product out of the proofs about the cache. */
  ghost predicate IsProduct(w: int, n: nat, q: nat)
    decreases n
  {
    if n == 0 then w == 0 else IsProduct(w - q, n - 1, q)
  }

  lemma {:induction false} ProductMeans(w: int, n: nat, q: nat)
    ensures IsProduct(w, n, q) <==> w == n * q
    decreases n
  {
    if n > 0 {
      ProductMeans(w - q, n - 1, q);
      MulNext(n, q);
    }
  }

  /** Windows of w = n * q positions, k of them behind us. */
  ghost predicate IsSetting(n: nat, w: nat, q: nat, k: nat, p: Progress) {
    n > 0 && q > 0 && IsProduct(w, n, q) && p == ProgressAfter(q, w, k)
  }

  lemma SettingBounds(n: nat, w: nat, q: nat, k: nat, p: Progress)
    requires IsSetting(n, w, q, k, p)
    ensures 0 <= p.gaI && 0 <= p.shift && p.gaI + p.shift == p.done
    ensures 0 < q <= w
  {
    ProductMeans(w, n, q);
    assert w >= q by { MulNext(n, q); assert (n - 1) * q >= 0; }
    ProgressBounds(q, w, k);
  }

  lemma DoneIsGrouped(n: nat, w: nat, q: nat, k: nat, p: Progress)
    requires IsSetting(n, w, q, k, p)
    ensures p.done == n * p.gaI
  {
    ProductMeans(w, n, q);
    ProgressClosed(q, w, k);
    Regroup(n, k, q);
  }

  /** The numbers the loop body computes: the step back and the distance moved so far. */
  lemma LoopNumbers(n: nat, w: nat, q: nat, k: nat, p: Progress, ib: int, bd: int)
    requires IsSetting(n, w, q, k, p) && w > 0 && ib == Quotient(n * p.gaI, w) && bd == q * (n - 1)
    ensures bd == w - q && ib * bd == p.shift
  {
    ProductMeans(w, n, q);
    DoneIsGrouped(n, w, q, k, p);
    ProgressClosed(q, w, k);
    Distribute(q, n, -1);
    DivBelow(k * w, k, w);
    DivBelow(k * w, k + 1, w);
    MulNext(k + 1, w);
  }

  lemma WidthQuotient(n: nat, w: nat, q: nat)
    requires n > 0 && w == n * q
    ensures Quotient(w, n) == w / n == q && w % n == 0
  {
    DivBelow(w, q, n);
    DivBelow(w, q + 1, n);
    MulNext(q + 1, n);
    assert w == (w / n) * n + w % n;
  }

  lemma CompressedBelow(n: nat, w: nat, q: nat, k: nat, p: Progress, t: nat)
    requires IsSetting(n, w, q, k, p)
    ensures t < p.done ==> t / n < p.gaI
  {
    SettingBounds(n, w, q, k, p);
    DoneIsGrouped(n, w, q, k, p);
    DivBelow(t, p.gaI, n);
  }

  /** First the tokens not compressed yet move back out to the positions their indices name. */
  lemma ShiftedOutFrom(kv: Kv, size: nat, n: nat, gaI: int, done: int, shift: int)
    requires n > 0 && 0 <= gaI && 0 <= shift && gaI + shift == done <= size
    requires forall t: nat :: t < done ==> t / n < gaI
    requires IsCompressed(kv, size, n, done, shift)
    ensures IsCompressed(SeqAdd(kv, gaI, size - shift, shift), size, n, done, 0)
  {
  }

  lemma ShiftedOut(kv: Kv, size: nat, n: nat, w: nat, q: nat, k: nat, p: Progress)
    requires IsSetting(n, w, q, k, p) && p.done <= size && IsCompressed(kv, size, n, p.done, p.shift)
    ensures IsCompressed(SeqAdd(kv, p.gaI, size - p.shift, p.shift), size, n, p.done, 0)
  {
    SettingBounds(n, w, q, k, p);
    forall t: nat | t < p.done ensures t / n < p.gaI { CompressedBelow(n, w, q, k, p, t); }
    ShiftedOutFrom(kv, size, n, p.gaI, p.done, p.shift);
  }

  /** Then the positions of the next w tokens are divided. */
  lemma Divided(kv: Kv, size: nat, n: nat, w: nat, done: int, after: Kv)
    requires n > 0 && 0 <= done && done + w <= size && IsCompressed(kv, size, n, done, 0)
    requires after == SeqDiv(kv, done, done + w, n)
    ensures IsCompressed(after, size, n, done + w, 0)
  {
    forall t: nat | t < size ensures after[t] == if t < done + w then t / n else t {
      QuotientNotLarger(t, n);
    }
  }

  /** Then the tokens behind them close up. */
  lemma ShiftedBack(kv: Kv, size: nat, n: nat, done: int, dd: int, after: Kv)
    requires n > 0 && 0 <= done <= size && 0 <= done + dd && IsCompressed(kv, size, n, done, 0)
    requires after == SeqAdd(kv, done, size, dd)
    ensures IsCompressed(after, size, n, done, -dd)
  {
    forall t: nat | t < size ensures after[t] == if t < done then t / n else t + dd {
      QuotientNotLarger(t, n);
    }
  }

  /** The state of the cache, the position counter and the group counter with k groups compressed. */
  ghost predicate ExtendedState(kv: Kv, nPast: int, gaI: int, size: nat, n: nat, w: nat, q: nat, k: nat) {
    IsSetting(n, w, q, k, ProgressAfter(q, w, k)) &&
    var p := ProgressAfter(q, w, k);
    gaI == p.gaI && nPast == size - p.shift && p.done <= size && IsCompressed(kv, size, n, p.done, p.shift)
  }

  /**
   * The numbers of the loop body: the distance moved so far, the step back, the way back, the growth of the counter.
   */
  method BodyNumbers(gaI: int, n: nat, w: nat, ghost q: nat, ghost k: nat, ghost p: Progress)
    returns (moved: int, bd: int, dd: int, step: int)
    requires IsSetting(n, w, q, k, p) && w > 0 && gaI == p.gaI
    ensures moved == p.shift && bd == w - q && dd == -(p.shift + (w - q)) && step == q
  {
    var ib := Quotient(n * gaI, w);
    bd := Quotient(w, n) * (n - 1);
    dd := Quotient(w, n) - ib * bd - w;
    moved, step := ib * bd, Quotient(w, n);
    ProductMeans(w, n, q);
    WidthQuotient(n, w, q);
    LoopNumbers(n, w, q, k, p, ib, bd);
  }

  /** Shift out, divide, shift back. */
  method ThreeMoves(kv0: Kv, nPast: int, gaI: nat, moved: nat, dd: int, n: nat, w: nat, ghost size: nat)
    returns (kv: Kv)
    requires n > 0 && nPast == size - moved && gaI + moved + w <= size && 0 <= gaI + moved + w + dd
    requires IsCompressed(SeqAdd(kv0, gaI, nPast, moved), size, n, gaI + moved, 0)
    ensures IsCompressed(kv, size, n, gaI + moved + w, -dd)
  {
    var shifted := SeqAdd(kv0, gaI, nPast, moved);
    var divided := SeqDiv(shifted, gaI + moved, gaI + moved + w, n);
    Divided(shifted, size, n, w, gaI + moved, divided);
    kv := SeqAdd(divided, gaI + moved + w, nPast + moved, dd);
    ShiftedBack(divided, size, n, gaI + moved + w, dd, kv);
  }

  /** The loop body: the moves its numbers drive, and the two counters. */
  method CompressGroup(kv0: Kv, nPast0: int, gaI0: int, n: nat, w: nat, ghost size: nat, ghost q: nat, ghost k: nat)
    returns (kv: Kv, nPast: int, gaI: int)
    requires ExtendedState(kv0, nPast0, gaI0, size, n, w, q, k) && w > 0 && nPast0 >= gaI0 + w
    ensures ExtendedState(kv, nPast, gaI, size, n, w, q, k + 1)
    ensures nPast - gaI == nPast0 - gaI0 - w
  {
    ghost var p := ProgressAfter(q, w, k);
    var moved, bd, dd, step := BodyNumbers(gaI0, n, w, q, k, p);
    SettingBounds(n, w, q, k, p);
    ShiftedOut(kv0, size, n, w, q, k, p);
    kv := ThreeMoves(kv0, nPast0, gaI0, moved, dd, n, w, size);
    nPast := nPast0 - bd;
    gaI := gaI0 + step;
  }

  /** Compresses groups while at least a window's width of positions is not compressed yet. */
  method SelfExtend(kv0: Kv, nPast0: int, gaI0: int, n: nat, w: nat, ghost size: nat, ghost q: nat, ghost k0: nat)
    returns (kv: Kv, nPast: int, gaI: int)
    requires ExtendedState(kv0, nPast0, gaI0, size, n, w, q, k0) && w > 0
    ensures ExtendedState(kv, nPast, gaI, size, n, w, q, size / w)
  {
    kv, nPast, gaI := kv0, nPast0, gaI0;
    ghost var k := k0;
    while nPast >= gaI + w
      invariant ExtendedState(kv, nPast, gaI, size, n, w, q, k)
      decreases nPast - gaI
    {
      kv, nPast, gaI := CompressGroup(kv, nPast, gaI, n, w, size, q, k);
      k := k + 1;
    }
    LoopEnds(n, w, q, k, size);
  }

  lemma LoopEnds(n: nat, w: nat, q: nat, k: nat, size: nat)
    requires IsSetting(n, w, q, k, ProgressAfter(q, w, k))
    requires var p := ProgressAfter(q, w, k); p.done <= size && size - p.shift < p.gaI + w
    ensures w > 0 && k == size / w
  {
    SettingBounds(n, w, q, k, ProgressAfter(q, w, k));
    ProgressClosed(q, w, k);
    MulNext(k + 1, w);
    DivBelow(size, k, w);
    DivBelow(size, k + 1, w);
  }

  /** The closed form of a Self-Extend state: the position of every token, the counters, and the loop's exit. */
  lemma ClosedForm(kv: Kv, nPast: int, gaI: int, size: nat, n: nat, w: nat, q: nat, k: nat)
    requires ExtendedState(kv, nPast, gaI, size, n, w, q, k)
    ensures w == n * q && w / n == q && gaI == k * q && nPast == size - k * (w - q) && k * w <= size
    ensures forall t: nat :: t < size ==> t in kv && kv[t] == ExtendedPosition(n, w, k, t)
  {
    ProductMeans(w, n, q);
    WidthQuotient(n, w, q);
    ProgressClosed(q, w, k);
  }

  lemma GroupOrder(n: nat, w: nat, q: nat, k: nat, t: nat)
    requires n > 0 && q > 0 && w == n * q
    ensures w / n == q && (t < k * w <==> t / n < k * q) && k * w - k * (w - q) == k * q && q <= w
  {
    WidthQuotient(n, w, q);
    Regroup(n, k, q);
    DivBelow(t, k * q, n);
    Distribute(k, q, w - q);
    MulAtLeast(q, n);
  }

  /** Positions follow the order of tokens, and tokens share one exactly when they share a compressed group of n. */
  lemma ExtendedOrder(n: nat, w: nat, q: nat, k: nat, s: nat, t: nat)
    requires n > 0 && q > 0 && w == n * q && s < t
    ensures ExtendedPosition(n, w, k, s) <= ExtendedPosition(n, w, k, t)
    ensures ExtendedPosition(n, w, k, s) == ExtendedPosition(n, w, k, t) <==> t < k * w && s / n == t / n
  {
    GroupOrder(n, w, q, k, s);
    GroupOrder(n, w, q, k, t);
    DivBelow(t, t / n + 1, n);
    DivBelow(s, t / n + 1, n);
  }

  /** Every position lies between 0 and the position counter, so no cell ever falls out of the cache. */
  lemma ExtendedBounds(n: nat, w: nat, q: nat, k: nat, size: nat, t: nat)
    requires n > 0 && q > 0 && w == n * q && k * w <= size && t < size
    ensures 0 <= ExtendedPosition(n, w, k, t) < size - k * (w - q)
  {
    GroupOrder(n, w, q, k, t);
    NonNegativeProduct(k, q);
    hide ExtendedPosition;
    var done, shift, shared := k * w, k * (w - q), k * q;
    assert ExtendedPosition(n, w, k, t) == if t < done then t / n else t - shift by { PositionOf(n, w, q, k, t); }
    assert shared == done - shift && (t < done <==> t / n < shared);
  }

  lemma PositionOf(n: nat, w: nat, q: nat, k: nat, t: nat)
    requires n > 0 && w / n == q
    ensures ExtendedPosition(n, w, k, t) == if t < k * w then t / n else t - k * (w - q)
  {}

  lemma NonNegativeProduct(a: nat, b: nat)
    ensures a * b >= 0
  {
  }

  /** A complete group of n tokens sits at the one position that is the group's number. */
  lemma GroupSharesPosition(n: nat, w: nat, q: nat, k: nat, g: nat, i: nat)
    requires n > 0 && q > 0 && w == n * q && g < k * q && i < n
    ensures ExtendedPosition(n, w, k, g * n + i) == g
  {
    MulNext(g + 1, n);
    DivBelow(g * n + i, g, n);
    DivBelow(g * n + i, g + 1, n);
    GroupOrder(n, w, q, k, g * n + i);
  }

  // ---------------------------------------------------------------- context shift

  /** A window on the history: the first `keep` tokens and, `dropped` tokens later, all the latest. */
  ghost predicate IsWindow(kv: Kv, size: nat, keep: int, dropped: nat) {
    && (dropped > 0 ==> keep + dropped <= size)
    && (forall t: nat :: t in kv <==> t < size && (t < keep || t >= keep + dropped))
    && (forall t :: t in kv ==> kv[t] == if t < keep then t else t - dropped)
  }

  lemma WindowSize(kv: Kv, size: nat, keep: int, dropped: nat)
    requires IsWindow(kv, size, keep, dropped)
    ensures dropped > 0 ==> keep + dropped <= size
  {
  }

  lemma ShiftWindow(kv: Kv, size: nat, keep: nat, dropped: nat, more: nat)
    requires IsWindow(kv, size, keep, dropped) && (more > 0 ==> keep + dropped + more <= size)
    ensures IsWindow(SeqAdd(SeqRm(kv, keep, keep + more), keep + more, size - dropped, 0 - more),
                     size, keep, dropped + more)
  {
  }

  /** The token a window holds at position j. */
  function TokenAt(keep: nat, dropped: nat, j: nat): nat { if j < keep then j else j + dropped }

  /** Positions and cached tokens correspond one to one: 0, 1, ... up to the position counter, each once. */
  lemma WindowPositions(kv: Kv, size: nat, keep: nat, dropped: nat)
    requires IsWindow(kv, size, keep, dropped)
    ensures dropped <= size
    ensures forall j: nat :: j < size - dropped ==>
              TokenAt(keep, dropped, j) in kv && kv[TokenAt(keep, dropped, j)] == j
    ensures forall t :: t in kv ==> 0 <= kv[t] < size - dropped && TokenAt(keep, dropped, kv[t]) == t
  {
  }

  /** Read in the order of positions, the cache holds the kept tokens and a suffix of the history. */
  lemma WindowContents(kv: Kv, history: seq<int>, keep: nat, dropped: nat)
    requires IsWindow(kv, |history|, keep, dropped) && keep + dropped <= |history|
    ensures forall j: nat :: j < |history| - dropped ==> TokenAt(keep, dropped, j) < |history|
    ensures seq(|history| - dropped, j requires 0 <= j < |history| - dropped => history[TokenAt(keep, dropped, j)])
            == history[..keep] + history[keep + dropped..]
  {
    var n := |history| - dropped;
    var contents := seq(n, j requires 0 <= j < n => history[TokenAt(keep, dropped, j)]);
    var wanted := history[..keep] + history[keep + dropped..];
    assert |contents| == |wanted|;
    forall j | 0 <= j < |contents| ensures contents[j] == wanted[j] {
      if j >= keep { assert wanted[j] == history[keep + dropped..][j - keep]; }
    }
  }

  ghost predicate WindowState(kv: Kv, nPast: int, size: nat, keep: int, dropped: nat) {
    nPast == size - dropped && IsWindow(kv, size, keep, dropped)
  }

  lemma DecodeKeepsWindow(kv: Kv, nPast: int, size: nat, count: nat, keep: int, dropped: nat, after: Kv)
    requires WindowState(kv, nPast, size, keep, dropped) && after == Decoded(kv, size, count, nPast)
    ensures WindowState(after, nPast + count, size + count, keep, dropped)
  {
  }

  lemma DecodeKeepsExtended(kv: Kv, nPast: int, gaI: int, size: nat, count: nat, n: nat, w: nat, q: nat, k: nat,
                            after: Kv)
    requires ExtendedState(kv, nPast, gaI, size, n, w, q, k) && after == Decoded(kv, size, count, nPast)
    ensures ExtendedState(after, nPast + count, gaI, size + count, n, w, q, k)
  {
    var p := ProgressAfter(q, w, k);
    forall t: nat | t < size + count ensures t in after && after[t] == if t < p.done then t / n else t - p.shift { }
  }
}
