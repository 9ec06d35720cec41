/** The abstract syntax and the language of GBNF rules (grammars/README.md:41-68). */
module Grammars {
  import opened Wrappers

  /** A rule body over terminals of type T. `Ref` names another rule of the same grammar. */
  datatype Grammar<T(==)> =
    | Lit(word: seq<T>)
    | OneOf(chars: set<T>)
    | NoneOf(chars: set<T>)
    | Seq(first: Grammar<T>, second: Grammar<T>)
    | Alt(left: Grammar<T>, right: Grammar<T>)
    | Rep(body: Grammar<T>, lo: nat, hi: Option<int>)
    | Ref(name: string)

  type Rules<T(==)> = map<string, Grammar<T>>

  predicate InCharRange(from: char, to: char, c: char) { from <= c <= to }

  /** The characters of a range `[from-to]`. */
  function CharRange(from: char, to: char): (cs: set<char>)
    ensures forall c :: c in cs <==> from <= c <= to
  {
    set c: char | InCharRange(from, to, c)
  }

  /**
   * The numbers of repetitions that `{lo,hi}` admits. With the upper number below the lower one the parser reads
   * exactly `lo` (src/llama-grammar.cpp:347-398); a negative number it does not read at all.
   */
  predicate WithinCount(k: nat, lo: nat, hi: Option<int>) {
    lo <= k && (hi.Some? ==> hi.value >= 0 && (k <= hi.value || k == lo))
  }

  /** `g` derives `w` using at most `depth` nested rule references. */
  ghost predicate Derives<T(!new)>(rules: Rules<T>, depth: nat, g: Grammar<T>, w: seq<T>)
    decreases depth, g, 0
  {
    match g
    case Lit(word) => w == word
    case OneOf(chars) => |w| == 1 && w[0] in chars
    case NoneOf(chars) => |w| == 1 && w[0] !in chars
    case Seq(first, second) =>
      exists i :: 0 <= i <= |w| && Derives(rules, depth, first, w[..i]) && Derives(rules, depth, second, w[i..])
    case Alt(left, right) => Derives(rules, depth, left, w) || Derives(rules, depth, right, w)
    case Rep(body, lo, hi) => exists k: nat :: WithinCount(k, lo, hi) && DerivesTimes(rules, depth, body, k, w)
    case Ref(name) => depth > 0 && name in rules && Derives(rules, depth - 1, rules[name], w)
  }

  /** `w` is a concatenation of `k` words derived from `g`. */
  ghost predicate DerivesTimes<T(!new)>(rules: Rules<T>, depth: nat, g: Grammar<T>, k: nat, w: seq<T>)
    decreases depth, g, k + 1
  {
    if k == 0 then w == []
    else exists i :: 0 <= i <= |w| && Derives(rules, depth, g, w[..i]) && DerivesTimes(rules, depth, g, k - 1, w[i..])
  }

  /** The language of a rule body that refers to no other rule. */
  ghost predicate Accepts<T(!new)>(g: Grammar<T>, w: seq<T>) {
    Derives(map[], 0, g, w)
  }

  function Opt<T>(g: Grammar<T>): Grammar<T> { Rep(g, 0, Some(1)) }

  /** Alternatives written one after the other with `|` between them. */
  function Alternatives<T>(gs: seq<Grammar<T>>): Grammar<T>
    requires gs != []
  {
    if |gs| == 1 then gs[0] else Alt(Alternatives(gs[..|gs| - 1]), gs[|gs| - 1])
  }

  lemma AlternativesAppend<T>(gs: seq<Grammar<T>>, g: Grammar<T>)
    ensures Alternatives(gs + [g]) == if gs == [] then g else Alt(Alternatives(gs), g)
  {
    assert (gs + [g])[..|gs|] == gs;
  }

  lemma {:induction false} AlternativesMeaning<T(!new)>(rules: Rules<T>, depth: nat, gs: seq<Grammar<T>>, w: seq<T>)
    requires gs != []
    ensures Derives(rules, depth, Alternatives(gs), w) <==> exists i :: 0 <= i < |gs| && Derives(rules, depth, gs[i], w)
  {
    if |gs| > 1 {
      var init := gs[..|gs| - 1];
      AlternativesMeaning(rules, depth, init, w);
      assert forall i :: 0 <= i < |init| ==> init[i] == gs[i];
      if i :| 0 <= i < |gs| && Derives(rules, depth, gs[i], w) && i < |gs| - 1 {
        assert Derives(rules, depth, init[i], w);
      }
    }
  }

  ghost predicate AcceptsSome<T(!new)>(gs: seq<Grammar<T>>, w: seq<T>) {
    exists i :: 0 <= i < |gs| && Accepts(gs[i], w)
  }

  lemma AcceptsSomeAppend<T(!new)>(gs: seq<Grammar<T>>, g: Grammar<T>, w: seq<T>)
    ensures AcceptsSome(gs + [g], w) <==> AcceptsSome(gs, w) || Accepts(g, w)
  {
    var all := gs + [g];
    assert all[|gs|] == g;
    if AcceptsSome(gs, w) {
      var i :| 0 <= i < |gs| && Accepts(gs[i], w);
      assert all[i] == gs[i];
    }
  }

  lemma SeqOf<T(!new)>(rules: Rules<T>, depth: nat, first: Grammar<T>, second: Grammar<T>, u: seq<T>, v: seq<T>)
    requires Derives(rules, depth, first, u) && Derives(rules, depth, second, v)
    ensures Derives(rules, depth, Seq(first, second), u + v)
  {
    assert (u + v)[..|u|] == u && (u + v)[|u|..] == v;
  }

  lemma SeqSplit<T(!new)>(rules: Rules<T>, depth: nat, first: Grammar<T>, second: Grammar<T>, w: seq<T>)
    returns (u: seq<T>, v: seq<T>)
    requires Derives(rules, depth, Seq(first, second), w)
    ensures w == u + v && Derives(rules, depth, first, u) && Derives(rules, depth, second, v)
  {
    var i :| 0 <= i <= |w| && Derives(rules, depth, first, w[..i]) && Derives(rules, depth, second, w[i..]);
    u, v := w[..i], w[i..];
  }

  lemma TimesSplit<T(!new)>(rules: Rules<T>, depth: nat, g: Grammar<T>, k: nat, w: seq<T>)
    returns (u: seq<T>, v: seq<T>)
    requires k > 0 && DerivesTimes(rules, depth, g, k, w)
    ensures w == u + v && Derives(rules, depth, g, u) && DerivesTimes(rules, depth, g, k - 1, v)
  {
    var i :| 0 <= i <= |w| && Derives(rules, depth, g, w[..i]) && DerivesTimes(rules, depth, g, k - 1, w[i..]);
    u, v := w[..i], w[i..];
  }

  lemma TimesOf<T(!new)>(rules: Rules<T>, depth: nat, g: Grammar<T>, k: nat, u: seq<T>, v: seq<T>)
    requires Derives(rules, depth, g, u) && DerivesTimes(rules, depth, g, k, v)
    ensures DerivesTimes(rules, depth, g, k + 1, u + v)
  {
    assert (u + v)[..|u|] == u && (u + v)[|u|..] == v;
  }

  lemma LitThen<T(!new)>(rules: Rules<T>, depth: nat, p: seq<T>, g: Grammar<T>, w: seq<T>)
    ensures Derives(rules, depth, Seq(Lit(p), g), w) <==> p <= w && Derives(rules, depth, g, w[|p|..])
  {
    if p <= w && Derives(rules, depth, g, w[|p|..]) {
      assert w[..|p|] == p;
      assert Derives(rules, depth, Lit(p), w[..|p|]);
    }
    if Derives(rules, depth, Seq(Lit(p), g), w) {
      var i :| 0 <= i <= |w| && Derives(rules, depth, Lit(p), w[..i]) && Derives(rules, depth, g, w[i..]);
      assert p == w[..i];
    }
  }

  lemma OneOfThen<T(!new)>(rules: Rules<T>, depth: nat, cs: set<T>, g: Grammar<T>, w: seq<T>)
    ensures Derives(rules, depth, Seq(OneOf(cs), g), w) <==> |w| > 0 && w[0] in cs && Derives(rules, depth, g, w[1..])
  {
    if |w| > 0 && w[0] in cs && Derives(rules, depth, g, w[1..]) {
      assert Derives(rules, depth, OneOf(cs), w[..1]);
    }
  }

  lemma ThenOneOf<T(!new)>(rules: Rules<T>, depth: nat, g: Grammar<T>, cs: set<T>, w: seq<T>)
    ensures Derives(rules, depth, Seq(g, OneOf(cs)), w) <==>
            |w| > 0 && w[|w| - 1] in cs && Derives(rules, depth, g, w[..|w| - 1])
  {
    if |w| > 0 && w[|w| - 1] in cs && Derives(rules, depth, g, w[..|w| - 1]) {
      assert Derives(rules, depth, OneOf(cs), w[|w| - 1..]);
    }
    if Derives(rules, depth, Seq(g, OneOf(cs)), w) {
      var i :| 0 <= i <= |w| && Derives(rules, depth, g, w[..i]) && Derives(rules, depth, OneOf(cs), w[i..]);
      assert i == |w| - 1;
    }
  }

  lemma NoneOfThen<T(!new)>(rules: Rules<T>, depth: nat, cs: set<T>, g: Grammar<T>, w: seq<T>)
    ensures Derives(rules, depth, Seq(NoneOf(cs), g), w) <==> |w| > 0 && w[0] !in cs && Derives(rules, depth, g, w[1..])
  {
    if |w| > 0 && w[0] !in cs && Derives(rules, depth, g, w[1..]) {
      assert Derives(rules, depth, NoneOf(cs), w[..1]);
    }
  }

  ghost predicate AllIn<T(!new)>(cs: set<T>, w: seq<T>) {
    forall i :: 0 <= i < |w| ==> w[i] in cs
  }

  lemma {:induction false} TimesOneOf<T(!new)>(rules: Rules<T>, depth: nat, cs: set<T>, k: nat, w: seq<T>)
    ensures DerivesTimes(rules, depth, OneOf(cs), k, w) <==> |w| == k && AllIn(cs, w)
    decreases k
  {
    if k > 0 {
      if |w| > 0 && w[0] in cs {
        TimesOneOf(rules, depth, cs, k - 1, w[1..]);
        if |w| == k && AllIn(cs, w) {
          assert Derives(rules, depth, OneOf(cs), w[..1]);
          assert DerivesTimes(rules, depth, OneOf(cs), k - 1, w[1..]);
        } else if AllIn(cs, w[1..]) {
          assert forall i :: 1 <= i < |w| ==> w[i] == w[1..][i - 1];
          assert |w| != k;
        }
      }
    }
  }

  /** A repeated character class accepts exactly the words over the class of a permitted length. */
  lemma RepOneOf<T(!new)>(rules: Rules<T>, depth: nat, cs: set<T>, lo: nat, hi: Option<int>, w: seq<T>)
    ensures Derives(rules, depth, Rep(OneOf(cs), lo, hi), w) <==> WithinCount(|w|, lo, hi) && AllIn(cs, w)
  {
    TimesOneOf(rules, depth, cs, |w|, w);
    forall k: nat ensures DerivesTimes(rules, depth, OneOf(cs), k, w) <==> |w| == k && AllIn(cs, w) {
      TimesOneOf(rules, depth, cs, k, w);
    }
  }

  /** When a body derives words of length one only, repetition counts them. */
  lemma RepCounts<T(!new)>(rules: Rules<T>, depth: nat, g: Grammar<T>, lo: nat, hi: Option<int>, w: seq<T>)
    requires forall k: nat :: DerivesTimes(rules, depth, g, k, w) <==> |w| == k
    ensures Derives(rules, depth, Rep(g, lo, hi), w) <==> WithinCount(|w|, lo, hi)
  {
    assert DerivesTimes(rules, depth, g, |w|, w);
  }

  lemma OptMeaning<T(!new)>(rules: Rules<T>, depth: nat, g: Grammar<T>, w: seq<T>)
    ensures Derives(rules, depth, Opt(g), w) <==> w == [] || Derives(rules, depth, g, w)
  {
    assert forall k: nat :: WithinCount(k, 0, Some(1)) ==> k == 0 || k == 1;
    TimesOne(rules, depth, g, w);
    assert WithinCount(0, 0, Some(1)) && WithinCount(1, 0, Some(1));
    assert w == [] <==> DerivesTimes(rules, depth, g, 0, w);
  }

  lemma TimesOne<T(!new)>(rules: Rules<T>, depth: nat, g: Grammar<T>, w: seq<T>)
    ensures DerivesTimes(rules, depth, g, 1, w) <==> Derives(rules, depth, g, w)
  {
    assert w[..|w|] == w && w[|w|..] == [];
    if DerivesTimes(rules, depth, g, 1, w) {
      var i :| 0 <= i <= |w| && Derives(rules, depth, g, w[..i]) && DerivesTimes(rules, depth, g, 0, w[i..]);
      assert i == |w|;
    }
    if Derives(rules, depth, g, w) {
      assert Derives(rules, depth, g, w[..|w|]) && DerivesTimes(rules, depth, g, 0, w[|w|..]);
    }
  }
}
