/**
 * Merging the expert weights of a mixture-of-experts model (LlamaModel.modify_tensors and prepare_tensors in
 * convert_hf_to_gguf.py). Tensors of one layer are collected until there are three for each expert, then stacked.
 */
module ExpertCollection {
  import opened Wrappers

  datatype Kind = W1 | W2 | W3

  /** model.layers.{layer}.block_sparse_moe.experts.{expert}.{kind}.weight, or any other name. */
  datatype Name = Expert(layer: nat, expert: nat, kind: Kind) | Other(text: string)

  /** A tensor to be merged is left abstract: its stack is the list of its parts. */
  datatype Merged<T> = Merged(layer: nat, kind: Kind, parts: seq<T>)

  // ---------------------------------------------------------------- one collector

  /** The names of the experts of one kind, from the first on. */
  function Named(layer: nat, kind: Kind, n: nat): set<Name> {
    set x | 0 <= x < n :: Expert(layer, x, kind)
  }

  function AllNames(layer: nat, n: nat): set<Name> {
    Named(layer, W1, n) + Named(layer, W2, n) + Named(layer, W3, n)
  }

  function Parts<T>(held: map<Name, T>, layer: nat, kind: Kind, n: nat): (parts: seq<T>)
    requires Named(layer, kind, n) <= held.Keys
    ensures |parts| == n
  {
    seq(n, x requires 0 <= x < n =>
             assert Expert(layer, x, kind) in Named(layer, kind, n); held[Expert(layer, x, kind)])
  }

  /** Takes the tensors of one kind out of a collector, in the order of the experts. */
  method TakeKind<T>(held0: map<Name, T>, layer: nat, kind: Kind, n: nat) returns (r: Outcome<(seq<T>, map<Name, T>)>)
    ensures r.Done? <==> Named(layer, kind, n) <= held0.Keys
    ensures r.Done? ==> r.value.0 == Parts(held0, layer, kind, n) && r.value.1 == held0 - Named(layer, kind, n)
  {
    var held, datas := held0, [];
    var x := 0;
    while x < n
      invariant 0 <= x <= n && |datas| == x && held == held0 - Named(layer, kind, x)
      invariant forall y :: 0 <= y < x ==> Expert(layer, y, kind) in held0 && datas[y] == held0[Expert(layer, y, kind)]
    {
      var ename := Expert(layer, x, kind);
      assert ename !in Named(layer, kind, x) && ename in Named(layer, kind, n);
      if ename !in held { return Raised; }
      datas := datas + [held[ename]];
      held := held - {ename};
      x := x + 1;
      assert Named(layer, kind, x) == Named(layer, kind, x - 1) + {ename};
    }
    assert datas == Parts(held0, layer, kind, n);
    r := Done((datas, held));
  }

  /** The three stacks of a layer. */
  function Stacks<T>(held: map<Name, T>, layer: nat, n: nat): (ms: seq<Merged<T>>)
    requires AllNames(layer, n) <= held.Keys
  {
    [Merged(layer, W1, Parts(held, layer, W1, n)), Merged(layer, W2, Parts(held, layer, W2, n)),
     Merged(layer, W3, Parts(held, layer, W3, n))]
  }

  /** They are those of the first, second and third kind, and each holds its tensors in the order of the experts. */
  lemma StacksInOrder<T>(held: map<Name, T>, layer: nat, n: nat, x: nat)
    requires AllNames(layer, n) <= held.Keys && x < n
    ensures var ms := Stacks(held, layer, n);
            && |ms| == 3 && ms[0].kind == W1 && ms[1].kind == W2 && ms[2].kind == W3
            && forall j :: 0 <= j < 3 ==>
                 && ms[j].layer == layer && |ms[j].parts| == n
                 && Expert(layer, x, ms[j].kind) in held && ms[j].parts[x] == held[Expert(layer, x, ms[j].kind)]
  {
    assert Expert(layer, x, W1) in Named(layer, W1, n);
    assert Expert(layer, x, W2) in Named(layer, W2, n);
    assert Expert(layer, x, W3) in Named(layer, W3, n);
  }

  /** What a tensor added to a collector does: nothing yet, the stacks, or an unknown name is missed. */
  function Collected<T>(held: map<Name, T>, layer: nat, n: nat): Outcome<(seq<Merged<T>>, map<Name, T>)> {
    if |held| < n * 3 then Done(([], held))
    else if AllNames(layer, n) <= held.Keys then Done((Stacks(held, layer, n), held - AllNames(layer, n)))
    else Raised
  }

  /** Taking one kind out leaves the others as they were. */
  lemma KindTaken<T>(held: map<Name, T>, layer: nat, n: nat, a: Kind, b: Kind)
    requires a != b
    ensures Named(layer, b, n) <= (held - Named(layer, a, n)).Keys <==> Named(layer, b, n) <= held.Keys
    ensures Named(layer, b, n) <= held.Keys ==>
              Parts(held - Named(layer, a, n), layer, b, n) == Parts(held, layer, b, n)
  {
    assert Named(layer, a, n) !! Named(layer, b, n);
    assert (held - Named(layer, a, n)).Keys == held.Keys - Named(layer, a, n);
    forall x | 0 <= x < n ensures Expert(layer, x, b) in Named(layer, b, n) {}
  }

  lemma AllTaken<T>(held: map<Name, T>, layer: nat, n: nat)
    ensures held - Named(layer, W1, n) - Named(layer, W2, n) - Named(layer, W3, n) == held - AllNames(layer, n)
  {}

  /** The merging of a full collector. */
  method TakeAll<T>(held: map<Name, T>, layer: nat, n: nat) returns (r: Outcome<(seq<Merged<T>>, map<Name, T>)>)
    ensures r == if AllNames(layer, n) <= held.Keys
                 then Done((Stacks(held, layer, n), held - AllNames(layer, n))) else Raised
  {
    hide Named, Parts;
    KindTaken(held, layer, n, W1, W2);
    KindTaken(held, layer, n, W1, W3);
    KindTaken(held - Named(layer, W1, n), layer, n, W2, W3);
    AllTaken(held, layer, n);
    var w1 := TakeKind(held, layer, W1, n);
    if w1.Raised? { return Raised; }
    var w2 := TakeKind(w1.value.1, layer, W2, n);
    if w2.Raised? { return Raised; }
    var w3 := TakeKind(w2.value.1, layer, W3, n);
    if w3.Raised? { return Raised; }
    return Done(([Merged(layer, W1, w1.value.0), Merged(layer, W2, w2.value.0), Merged(layer, W3, w3.value.0)],
        w3.value.1));
  }

  /** A collector still holds a tensor. */
  predicate Unprocessed<T>(experts: seq<map<Name, T>>) {
    exists b :: 0 <= b < |experts| && |experts[b]| > 0
  }

  class Collector<T> {
    const blockCount: nat
    const nExperts: nat
    var experts: seq<map<Name, T>>

    constructor (blockCount: nat, nExperts: nat)
      ensures this.blockCount == blockCount && this.nExperts == nExperts
      ensures |experts| == blockCount && forall b :: 0 <= b < blockCount ==> experts[b] == map[]
    {
      this.blockCount, this.nExperts := blockCount, nExperts;
      experts := seq(blockCount, b => map[]);
    }

    /** One expert tensor arrives. Only the collector of its layer is touched. */
    method ModifyTensors(data: T, name: Name, bid: nat) returns (r: Outcome<seq<Merged<T>>>)
      requires bid < |experts|
      modifies this
      ensures var after := Collected(old(experts)[bid][name := data], bid, nExperts);
              match r
              case Raised => after.Raised?
              case Done(ms) => after.Done? && ms == after.value.0 && experts == old(experts)[bid := after.value.1]
    {
      hide AllNames, Stacks;
      experts := experts[bid := experts[bid][name := data]];
      var held := experts[bid];
      if |held| >= nExperts * 3 {
        var taken := TakeAll(held, bid, nExperts);
        if taken.Raised? { return Raised; }
        experts := experts[bid := taken.value.1];
        return Done(taken.value.0);
      } else {
        return Done([]);
      }
    }

    /** The check after all tensors: the flattened list of leftover names must be empty. */
    method PrepareTensors() returns (raises: bool)
      ensures raises <==> Unprocessed(experts)
    {
      var leftover := 0;
      for b := 0 to |experts|
        invariant leftover >= 0 && (leftover > 0 <==> Unprocessed(experts[..b]))
      {
        leftover := leftover + |experts[b]|;
        assert experts[..b + 1] == experts[..b] + [experts[b]];
      }
      assert experts[..|experts|] == experts;
      raises := leftover > 0;
    }
  }

  // ---------------------------------------------------------------- whole runs

  datatype Arrival<T> = Arrival(layer: nat, expert: nat, kind: Kind, data: T)

  function NameOf<T>(a: Arrival<T>): Name {
    Expert(a.layer, a.expert, a.kind)
  }

  /** Well-formed names, none twice. */
  ghost predicate Distinct<T>(arrivals: seq<Arrival<T>>, blocks: nat, n: nat) {
    (forall i :: 0 <= i < |arrivals| ==> arrivals[i].layer < blocks && arrivals[i].expert < n) &&
    (forall i, j :: 0 <= i < j < |arrivals| ==> NameOf(arrivals[i]) != NameOf(arrivals[j]))
  }

  /** What has arrived for a layer. */
  ghost function Arrived<T>(arrivals: seq<Arrival<T>>, layer: nat): map<Name, T> {
    if arrivals == [] then map[]
    else
      var a := arrivals[|arrivals| - 1];
      var before := Arrived(arrivals[..|arrivals| - 1], layer);
      if a.layer == layer then before[NameOf(a) := a.data] else before
  }

  /** The collectors and everything returned, after the calls for all arrivals. */
  ghost function Run<T>(arrivals: seq<Arrival<T>>, blocks: nat,
                        n: nat): (r: Outcome<(seq<map<Name, T>>, seq<Merged<T>>)>)
    ensures r.Done? ==> |r.value.0| == blocks
  {
    if arrivals == [] then Done((seq(blocks, b => map[]), []))
    else
      var a := arrivals[|arrivals| - 1];
      match Run(arrivals[..|arrivals| - 1], blocks, n)
      case Raised => Raised
      case Done(state) =>
        if a.layer >= blocks then Raised
        else match Collected(state.0[a.layer][NameOf(a) := a.data], a.layer, n)
          case Raised => Raised
          case Done(after) => Done((state.0[a.layer := after.1], state.1 + after.0))
  }

  /** The stacks returned for one layer, in order. */
  function ForLayer<T>(ms: seq<Merged<T>>, layer: nat): seq<Merged<T>> {
    if ms == [] then []
    else ForLayer(ms[..|ms| - 1], layer) + if ms[|ms| - 1].layer == layer then [ms[|ms| - 1]] else []
  }

  lemma {:induction false} NamedCount(layer: nat, kind: Kind, n: nat)
    ensures |Named(layer, kind, n)| == n
  {
    if n == 0 {
      assert Named(layer, kind, 0) == {};
    } else {
      NamedCount(layer, kind, n - 1);
      assert Named(layer, kind, n) == Named(layer, kind, n - 1) + {Expert(layer, n - 1, kind)};
    }
  }

  lemma AllCount(layer: nat, n: nat)
    ensures |AllNames(layer, n)| == 3 * n
  {
    NamedCount(layer, W1, n);
    NamedCount(layer, W2, n);
    NamedCount(layer, W3, n);
    assert Named(layer, W1, n) !! Named(layer, W2, n);
    assert Named(layer, W1, n) + Named(layer, W2, n) !! Named(layer, W3, n);
  }

  lemma SubsetCount<A>(s: set<A>, t: set<A>)
    requires s <= t
    ensures |s| <= |t| && (|s| == |t| <==> s == t)
  {
    var rest := t - s;
    assert t == s + rest;
    assert |t| == |s| + |rest|;
    if |rest| == 0 { assert rest == {}; }
  }

  lemma InAllNames(layer: nat, x: nat, kind: Kind, n: nat)
    requires x < n
    ensures Expert(layer, x, kind) in AllNames(layer, n)
  {
    assert Expert(layer, x, kind) in Named(layer, kind, n);
  }

  lemma {:induction false} ArrivedNames<T>(arrivals: seq<Arrival<T>>, blocks: nat, n: nat, layer: nat)
    requires Distinct(arrivals, blocks, n)
    ensures Arrived(arrivals, layer).Keys <= AllNames(layer, n)
    decreases |arrivals|
  {
    if arrivals != [] {
      var a := arrivals[|arrivals| - 1];
      ArrivedNames(arrivals[..|arrivals| - 1], blocks, n, layer);
      if a.layer == layer { InAllNames(layer, a.expert, a.kind, n); }
    }
  }

  lemma {:induction false} NotArrived<T>(arrivals: seq<Arrival<T>>, layer: nat, name: Name)
    requires forall i :: 0 <= i < |arrivals| ==> NameOf(arrivals[i]) != name
    ensures name !in Arrived(arrivals, layer)
    decreases |arrivals|
  {
    if arrivals != [] { NotArrived(arrivals[..|arrivals| - 1], layer, name); }
  }

  /** All three tensors of every expert of the layer have arrived. */
  ghost predicate Complete<T>(arrivals: seq<Arrival<T>>, layer: nat, n: nat) {
    AllNames(layer, n) <= Arrived(arrivals, layer).Keys
  }

  lemma CompleteCount<T>(arrivals: seq<Arrival<T>>, blocks: nat, n: nat, layer: nat)
    requires Distinct(arrivals, blocks, n)
    ensures |Arrived(arrivals, layer)| <= 3 * n
    ensures Complete(arrivals, layer, n) <==> |Arrived(arrivals, layer)| == 3 * n
    ensures Complete(arrivals, layer, n) ==> Arrived(arrivals, layer).Keys == AllNames(layer, n)
  {
    ArrivedNames(arrivals, blocks, n, layer);
    AllCount(layer, n);
    SubsetCount(Arrived(arrivals, layer).Keys, AllNames(layer, n));
  }

  /** The last arrival is new, so its layer was not complete before. */
  lemma NewArrival<T>(arrivals: seq<Arrival<T>>, blocks: nat, n: nat)
    requires Distinct(arrivals, blocks, n) && arrivals != []
    ensures var init, a := arrivals[..|arrivals| - 1], arrivals[|arrivals| - 1];
            NameOf(a) !in Arrived(init, a.layer) && !Complete(init, a.layer, n)
  {
    var init, a := arrivals[..|arrivals| - 1], arrivals[|arrivals| - 1];
    InAllNames(a.layer, a.expert, a.kind, n);
    forall i | 0 <= i < |init| ensures NameOf(init[i]) != NameOf(a) {
      assert NameOf(arrivals[i]) != NameOf(arrivals[|init|]);
    }
    NotArrived(init, a.layer, NameOf(a));
  }

  /** The collector of a layer after a run: empty again once the layer was complete. */
  ghost function Left<T>(arrivals: seq<Arrival<T>>, layer: nat, n: nat): map<Name, T> {
    if Complete(arrivals, layer, n) then map[] else Arrived(arrivals, layer)
  }

  ghost function Returned<T>(arrivals: seq<Arrival<T>>, layer: nat, n: nat): seq<Merged<T>> {
    if Complete(arrivals, layer, n) then Stacks(Arrived(arrivals, layer), layer, n) else []
  }

  ghost predicate RunState<T>(arrivals: seq<Arrival<T>>, blocks: nat, n: nat,
                              state: (seq<map<Name, T>>, seq<Merged<T>>)) {
    |state.0| == blocks &&
    forall b :: 0 <= b < blocks ==>
      state.0[b] == Left(arrivals, b, n) && ForLayer(state.1, b) == Returned(arrivals, b, n)
  }

  lemma {:induction false} ForLayerAppend<T>(a: seq<Merged<T>>, b: seq<Merged<T>>, layer: nat)
    ensures ForLayer(a + b, layer) == ForLayer(a, layer) + ForLayer(b, layer)
    decreases |b|
  {
    if b == [] {
      assert a + b == a && ForLayer(a, layer) + [] == ForLayer(a, layer);
    } else {
      ForLayerAppend(a, b[..|b| - 1], layer);
      assert (a + b)[..|a + b| - 1] == a + b[..|b| - 1];
    }
  }

  lemma ForLayerStacks<T>(held: map<Name, T>, layer: nat, n: nat, b: nat)
    requires AllNames(layer, n) <= held.Keys
    ensures ForLayer(Stacks(held, layer, n), b) == if b == layer then Stacks(held, layer, n) else []
  {
    var ms := Stacks(held, layer, n);
    assert ms[..2][..1] == [ms[0]] && ms[..2] == [ms[0], ms[1]];
    assert ForLayer([ms[0]], b) == if b == layer then [ms[0]] else [] by { assert [ms[0]][..0] == []; }
    assert ForLayer(ms[..2], b) == if b == layer then ms[..2] else [];
  }

  lemma ArrivedElsewhere<T>(arrivals: seq<Arrival<T>>, layer: nat, n: nat)
    requires arrivals != [] && arrivals[|arrivals| - 1].layer != layer
    ensures Left(arrivals, layer, n) == Left(arrivals[..|arrivals| - 1], layer, n)
    ensures Returned(arrivals, layer, n) == Returned(arrivals[..|arrivals| - 1], layer, n)
  {}

  /** What the call for the last arrival does to its own layer. */
  lemma LastArrival<T>(arrivals: seq<Arrival<T>>, blocks: nat, n: nat)
    requires Distinct(arrivals, blocks, n) && arrivals != []
    ensures var init, a := arrivals[..|arrivals| - 1], arrivals[|arrivals| - 1];
            var after := Collected(Left(init, a.layer, n)[NameOf(a) := a.data], a.layer, n);
            && !Complete(init, a.layer, n) && after.Done?
            && after.value == (Returned(arrivals, a.layer, n), Left(arrivals, a.layer, n))
  {
    hide AllNames, Stacks;
    var a := arrivals[|arrivals| - 1];
    NewArrival(arrivals, blocks, n);
    CompleteCount(arrivals, blocks, n, a.layer);
    var held := Arrived(arrivals, a.layer);
    assert |held.Keys| == |held|;
    if Complete(arrivals, a.layer, n) { assert held - AllNames(a.layer, n) == map[]; }
  }

  /**
   * Whatever the order of the arrivals and however the layers are interleaved: no call fails, a complete layer has
   * returned its three stacks once and its collector is empty, and any other layer has returned nothing and keeps what
   * has arrived for it.
   */
  lemma {:induction false} RunMeaning<T>(arrivals: seq<Arrival<T>>, blocks: nat, n: nat)
    requires Distinct(arrivals, blocks, n) && n > 0
    ensures Run(arrivals, blocks, n).Done? && RunState(arrivals, blocks, n, Run(arrivals, blocks, n).value)
    decreases |arrivals|
  {
    hide AllNames, Stacks, Collected, Left, Returned, ForLayer;
    if arrivals == [] {
      forall b | 0 <= b < blocks
        ensures Left(arrivals, b, n) == map[] && ForLayer<T>([], b) == Returned(arrivals, b, n) {
        NothingArrived<T>(b, n);
      }
    } else {
      var init, a := arrivals[..|arrivals| - 1], arrivals[|arrivals| - 1];
      RunMeaning(init, blocks, n);
      LastArrival(arrivals, blocks, n);
      RunStep(arrivals, blocks, n, Run(init, blocks, n).value, Run(arrivals, blocks, n).value);
    }
  }

  lemma NothingArrived<T>(layer: nat, n: nat)
    requires n > 0
    ensures Left<T>([], layer, n) == map[] && ForLayer<T>([], layer) == Returned<T>([], layer, n)
  {
    InAllNames(layer, 0, W1, n);
  }

  lemma RunStep<T>(arrivals: seq<Arrival<T>>, blocks: nat, n: nat,
                   before: (seq<map<Name, T>>, seq<Merged<T>>), state: (seq<map<Name, T>>, seq<Merged<T>>))
    requires Distinct(arrivals, blocks, n) && arrivals != []
    requires RunState(arrivals[..|arrivals| - 1], blocks, n, before) && arrivals[|arrivals| - 1].layer < blocks
    requires var a := arrivals[|arrivals| - 1];
             state == (before.0[a.layer := Left(arrivals, a.layer, n)], before.1 + Returned(arrivals, a.layer, n))
    ensures RunState(arrivals, blocks, n, state)
  {
    hide AllNames, Stacks, Left, ForLayer;
    var init, a := arrivals[..|arrivals| - 1], arrivals[|arrivals| - 1];
    NewArrival(arrivals, blocks, n);
    forall b | 0 <= b < blocks
      ensures state.0[b] == Left(arrivals, b, n) && ForLayer(state.1, b) == Returned(arrivals, b, n) {
      ForLayerAppend(before.1, Returned(arrivals, a.layer, n), b);
      ForLayerReturned(arrivals, a.layer, n, b);
      if b != a.layer { ArrivedElsewhere(arrivals, b, n); }
    }
  }

  lemma ForLayerReturned<T>(arrivals: seq<Arrival<T>>, layer: nat, n: nat, b: nat)
    ensures ForLayer(Returned(arrivals, layer, n), b) == if b == layer then Returned(arrivals, layer, n) else []
  {
    if Complete(arrivals, layer, n) { ForLayerStacks(Arrived(arrivals, layer), layer, n, b); }
  }

  /** The final check raises exactly when a tensor of some layer has arrived and another one has not. */
  lemma CheckExact<T>(arrivals: seq<Arrival<T>>, blocks: nat, n: nat)
    requires Distinct(arrivals, blocks, n) && n > 0
    ensures Run(arrivals, blocks, n).Done?
    ensures Unprocessed(Run(arrivals, blocks, n).value.0) <==>
            exists b :: 0 <= b < blocks && Arrived(arrivals, b) != map[] && !Complete(arrivals, b, n)
  {
    RunMeaning(arrivals, blocks, n);
    var experts := Run(arrivals, blocks, n).value.0;
    hide Run, Arrived, AllNames;
    forall b | 0 <= b < blocks
      ensures |experts[b]| > 0 <==> Arrived(arrivals, b) != map[] && !Complete(arrivals, b, n)
    {
      assert experts[b] == Left(arrivals, b, n);
    }
  }

  // ---------------------------------------------------------------- the order does not matter

  lemma {:induction false} ArrivedData<T>(arrivals: seq<Arrival<T>>, blocks: nat, n: nat, i: nat)
    requires Distinct(arrivals, blocks, n) && i < |arrivals|
    ensures var a := arrivals[i];
            NameOf(a) in Arrived(arrivals, a.layer) && Arrived(arrivals, a.layer)[NameOf(a)] == a.data
    decreases |arrivals|
  {
    if i < |arrivals| - 1 {
      assert NameOf(arrivals[i]) != NameOf(arrivals[|arrivals| - 1]);
      ArrivedData(arrivals[..|arrivals| - 1], blocks, n, i);
    }
  }

  lemma {:induction false} ArrivedFrom<T>(arrivals: seq<Arrival<T>>, layer: nat, name: Name)
    requires name in Arrived(arrivals, layer)
    ensures exists i :: 0 <= i < |arrivals| && arrivals[i].layer == layer && NameOf(arrivals[i]) == name
    decreases |arrivals|
  {
    var init := arrivals[..|arrivals| - 1];
    if name in Arrived(init, layer) {
      ArrivedFrom(init, layer, name);
      var i :| 0 <= i < |init| && init[i].layer == layer && NameOf(init[i]) == name;
      assert arrivals[i] == init[i];
    } else {
      assert NameOf(arrivals[|init|]) == name;
    }
  }

  ghost predicate SameArrivals<T>(a: seq<Arrival<T>>, b: seq<Arrival<T>>) {
    (forall x :: x in a ==> x in b) && (forall x :: x in b ==> x in a)
  }

  lemma SameHeld<T>(a: seq<Arrival<T>>, b: seq<Arrival<T>>, blocks: nat, n: nat, layer: nat)
    requires Distinct(a, blocks, n) && Distinct(b, blocks, n) && SameArrivals(a, b)
    ensures forall name :: name in Arrived(a, layer) ==>
              name in Arrived(b, layer) && Arrived(b, layer)[name] == Arrived(a, layer)[name]
  {
    forall name | name in Arrived(a, layer)
      ensures name in Arrived(b, layer) && Arrived(b, layer)[name] == Arrived(a, layer)[name] {
      ArrivedFrom(a, layer, name);
      var i :| 0 <= i < |a| && a[i].layer == layer && NameOf(a[i]) == name;
      assert a[i] in a;
      var j :| 0 <= j < |b| && b[j] == a[i];
      ArrivedData(a, blocks, n, i);
      ArrivedData(b, blocks, n, j);
    }
  }

  /** The same tensors in another order leave the same collectors and return the same stacks for every layer. */
  lemma OrderIndependent<T>(a: seq<Arrival<T>>, b: seq<Arrival<T>>, blocks: nat, n: nat, layer: nat)
    requires Distinct(a, blocks, n) && Distinct(b, blocks, n) && SameArrivals(a, b) && n > 0 && layer < blocks
    ensures Run(a, blocks, n).Done? && Run(b, blocks, n).Done?
    ensures Run(a, blocks, n).value.0[layer] == Run(b, blocks, n).value.0[layer]
    ensures ForLayer(Run(a, blocks, n).value.1, layer) == ForLayer(Run(b, blocks, n).value.1, layer)
  {
    RunMeaning(a, blocks, n);
    RunMeaning(b, blocks, n);
    hide Run, ForLayer, AllNames, Stacks;
    SameHeld(a, b, blocks, n, layer);
    SameHeld(b, a, blocks, n, layer);
    assert Arrived(a, layer) == Arrived(b, layer);
  }
}
