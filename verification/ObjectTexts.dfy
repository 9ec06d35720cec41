/** The texts an object rule derives (common/json-schema-to-grammar.cpp), told by the properties themselves. */
module ObjectTexts {
  import opened Grammars
  import opened SchemaRules

  function Names(properties: seq<Property>): (names: seq<string>)
    ensures |names| == |properties| && forall i :: 0 <= i < |names| ==> names[i] == properties[i].name
  {
    seq(|properties|, i requires 0 <= i < |properties| => properties[i].name)
  }

  // ---------------------------------------------------------------- required and optional names

  /** `at` holds the positions of the required properties and no others. */
  ghost predicate AtRequired(properties: seq<Property>, required: set<string>, at: seq<nat>) {
    forall i: nat :: i in at <==> i < |properties| && properties[i].name in required
  }

  ghost predicate AtOptional(properties: seq<Property>, required: set<string>, at: seq<nat>) {
    forall i: nat :: i in at <==> i < |properties| && properties[i].name !in required
  }

  /** The required names are those of the required properties, in the order of the properties. */
  lemma {:induction false} RequiredPicked(properties: seq<Property>, required: set<string>) returns (at: seq<nat>)
    ensures AtRequired(properties, required, at)
    ensures PicksAt(Names(properties), NamesWhere(properties, required, true), at)
    decreases |properties|
  {
    at := [];
    if properties != [] {
      var n := |properties| - 1;
      at := RequiredPicked(properties[..n], required);
      if properties[n].name in required { at := at + [n]; }
    }
  }

  lemma {:induction false} OptionalPicked(properties: seq<Property>, required: set<string>) returns (at: seq<nat>)
    ensures AtOptional(properties, required, at)
    ensures PicksAt(Names(properties), NamesWhere(properties, required, false), at)
    decreases |properties|
  {
    at := [];
    if properties != [] {
      var n := |properties| - 1;
      at := OptionalPicked(properties[..n], required);
      if properties[n].name !in required { at := at + [n]; }
    }
  }

  ghost predicate IsName(properties: seq<Property>, k: string) {
    exists i :: 0 <= i < |properties| && properties[i].name == k
  }

  /** A name is in the required list if some property has it and the schema requires it. */
  lemma RequiredNames(properties: seq<Property>, required: set<string>, k: string)
    ensures k in NamesWhere(properties, required, true) <==> IsName(properties, k) && k in required
  {
    var at := RequiredPicked(properties, required);
    var ms := NamesWhere(properties, required, true);
    if j :| 0 <= j < |ms| && ms[j] == k { assert at[j] in at; }
    if i: nat :| i < |properties| && properties[i].name == k && k in required {
      assert i in at;
      var j :| 0 <= j < |at| && at[j] == i;
      assert ms[j] == k;
    }
  }

  /** And in the optional one if some property has it and the schema does not require it. */
  lemma OptionalNamesOnly(properties: seq<Property>, required: set<string>, k: string)
    ensures k in NamesWhere(properties, required, false) <==> IsName(properties, k) && k !in required
  {
    var at := OptionalPicked(properties, required);
    var ms := NamesWhere(properties, required, false);
    if j :| 0 <= j < |ms| && ms[j] == k { assert at[j] in at; }
    if i: nat :| i < |properties| && properties[i].name == k && k !in required {
      assert i in at;
      var j :| 0 <= j < |at| && at[j] == i;
      assert ms[j] == k;
    }
  }

  lemma WithoutLast(a: seq<nat>, bound: nat) returns (p: seq<nat>, m: nat)
    requires a != [] && Increasing(a, bound)
    ensures a == p + [m] && m in a && Increasing(p, m) && m < bound
    ensures forall i :: i in p <==> i in a && i < m
    ensures forall i :: i in a ==> i <= m
  {
    p, m := a[..|a| - 1], a[|a| - 1];
    assert forall i :: i in p ==> i in a && i < m;
    assert a == p + [m];
  }

  lemma {:induction false} SamePositions(a: seq<nat>, b: seq<nat>, bound: nat)
    requires Increasing(a, bound) && Increasing(b, bound) && forall i: nat :: i in a <==> i in b
    ensures a == b
    decreases |a|
  {
    if a != [] { assert a[0] in b; }
    if b != [] { assert b[0] in a; }
    if a != [] {
      var p, m := WithoutLast(a, bound);
      var q, n := WithoutLast(b, bound);
      hide Increasing;
      assert m == n;
      SamePositions(p, q, m);
    }
  }

  // ---------------------------------------------------------------- subsequences of the optional names

  /** A subsequence of a subsequence. */
  lemma PicksCompose(ks: seq<string>, ms: seq<string>, at: seq<nat>, chosen: seq<string>, sub: seq<nat>)
    returns (both: seq<nat>)
    requires PicksAt(ks, ms, at) && PicksAt(ms, chosen, sub)
    ensures PicksAt(ks, chosen, both) && forall i :: i in both ==> i in at
  {
    both := seq(|sub|, j requires 0 <= j < |sub| => at[sub[j]]);
  }

  /** What is picked at some of the positions of a subsequence is a subsequence of it. */
  lemma PicksWithin(ks: seq<string>, ms: seq<string>, at: seq<nat>, chosen: seq<string>, both: seq<nat>)
    returns (sub: seq<nat>)
    requires PicksAt(ks, ms, at) && PicksAt(ks, chosen, both) && forall i :: i in both ==> i in at
    ensures PicksAt(ms, chosen, sub)
  {
    sub := seq(|both|, j requires 0 <= j < |both| => Position(at, both[j]));
    forall i, j | 0 <= i < j < |sub| ensures sub[i] < sub[j] {
      assert both[i] < both[j];
      assert at[sub[i]] == both[i] && at[sub[j]] == both[j];
    }
  }

  ghost function Position(at: seq<nat>, i: nat): (j: nat)
    ensures i in at ==> j < |at| && at[j] == i
  {
    if i in at then
      var j :| 0 <= j < |at| && at[j] == i;
      j
    else 0
  }

  // ---------------------------------------------------------------- object texts

  /** The names at these positions of the properties. */
  function NamesAt(properties: seq<Property>, at: seq<nat>): (names: seq<string>)
    requires Increasing(at, |properties|)
    ensures |names| == |at| && forall j :: 0 <= j < |at| ==> names[j] == properties[at[j]].name
  {
    seq(|at|, j requires 0 <= j < |at| => properties[at[j]].name)
  }

  lemma NamesPicked(properties: seq<Property>, ms: seq<string>, at: seq<nat>)
    ensures PicksAt(Names(properties), ms, at) <==> Increasing(at, |properties|) && ms == NamesAt(properties, at)
  {
    if Increasing(at, |properties|) && PicksAt(Names(properties), ms, at) {
      assert ms == NamesAt(properties, at);
    }
  }

  /** With all required members at `req` and the optional ones at `opt`, and a choice among these. */
  ghost predicate IsChoice(properties: seq<Property>, required: set<string>, additional: Additional, w: Word,
                           req: seq<nat>, opt: seq<nat>, chosen: seq<string>) {
    && Increasing(req, |properties|) && AtRequired(properties, required, req)
    && Increasing(opt, |properties|) && AtOptional(properties, required, opt)
    && IsSelection(NamesAt(properties, opt) + (if additional.Allowed? then [STAR] else []), chosen)
    && w == OPEN + Listed(AllMembers(properties, additional), NamesAt(properties, req) + chosen) + CLOSE
  }

  /** The object rule's words are those of all required members followed by a choice among the optional ones. */
  lemma TextsByPosition(properties: seq<Property>, required: set<string>, additional: Additional, w: Word)
    ensures IsObject(AllMembers(properties, additional), NamesWhere(properties, required, true),
                     OptionalNames(properties, required, additional), w)
            <==> exists req, opt, chosen :: IsChoice(properties, required, additional, w, req, opt, chosen)
  {
    hide IsSelection, Listed;
    var kv := AllMembers(properties, additional);
    var reqNames, optNames := NamesWhere(properties, required, true), OptionalNames(properties, required, additional);
    var r := RequiredPicked(properties, required);
    var o := OptionalPicked(properties, required);
    NamesPicked(properties, reqNames, r);
    NamesPicked(properties, NamesWhere(properties, required, false), o);
    if chosen :| IsSelection(optNames, chosen) && w == OPEN + Listed(kv, reqNames + chosen) + CLOSE {
      assert IsChoice(properties, required, additional, w, r, o, chosen);
    }
    if req, opt, chosen :| IsChoice(properties, required, additional, w, req, opt, chosen) {
      SamePositions(req, r, |properties|);
      SamePositions(opt, o, |properties|);
    }
  }

  /** With some of the optional members at `opt`, and `more` additional ones. */
  ghost predicate IsTextAt(properties: seq<Property>, required: set<string>, additional: Additional, w: Word,
                           req: seq<nat>, opt: seq<nat>, more: nat) {
    && Increasing(req, |properties|) && AtRequired(properties, required, req)
    && Increasing(opt, |properties|) && (forall i :: i in opt ==> properties[i].name !in required)
    && (additional.NoAdditional? ==> more == 0)
    && w == OPEN + Listed(AllMembers(properties, additional),
                          NamesAt(properties, req) + (NamesAt(properties, opt) + Stars(more))) + CLOSE
  }

  /**
   * A brace, all required members and then some of the optional ones, each group in the order of the properties, then,
   * where they are allowed, any number of additional members; commas between them, and a brace.
   */
  ghost predicate IsText(properties: seq<Property>, required: set<string>, additional: Additional, w: Word) {
    exists req, opt, more: nat :: IsTextAt(properties, required, additional, w, req, opt, more)
  }

  /** A choice among the optional names, without one called like the marker: some of them, then additional members. */
  lemma ChoiceAt(properties: seq<Property>, additional: Additional, at: seq<nat>, chosen: seq<string>)
    returns (opt: seq<nat>, more: nat)
    requires Increasing(at, |properties|) && STAR !in NamesAt(properties, at)
    requires IsSelection(NamesAt(properties, at) + (if additional.Allowed? then [STAR] else []), chosen)
    ensures Increasing(opt, |properties|) && (forall i :: i in opt ==> i in at)
    ensures (additional.NoAdditional? ==> more == 0) && chosen == NamesAt(properties, opt) + Stars(more)
  {
    hide IsSelection;
    var ks := NamesAt(properties, at);
    NamesPicked(properties, ks, at);
    var a := chosen;
    more := 0;
    if additional.Allowed? {
      StarComesLast(ks, chosen);
      assert EndsInStars(ks, chosen);
      a, more :| chosen == a + Stars(more) && IsSelection(ks, a);
    } else {
      assert ks + [] == ks;
    }
    SelectionIsSubsequence(ks, a);
    var sub :| PicksAt(ks, a, sub);
    opt := PicksCompose(Names(properties), ks, at, a, sub);
    NamesPicked(properties, a, opt);
    assert chosen == a + Stars(more);
  }

  lemma ChosenAt(properties: seq<Property>, additional: Additional, at: seq<nat>, opt: seq<nat>, more: nat)
    requires Increasing(at, |properties|) && STAR !in NamesAt(properties, at)
    requires Increasing(opt, |properties|) && (forall i :: i in opt ==> i in at)
    requires additional.NoAdditional? ==> more == 0
    ensures IsSelection(NamesAt(properties, at) + (if additional.Allowed? then [STAR] else []),
                        NamesAt(properties, opt) + Stars(more))
  {
    hide IsSelection;
    var ks, a := NamesAt(properties, at), NamesAt(properties, opt);
    NamesPicked(properties, ks, at);
    NamesPicked(properties, a, opt);
    var sub := PicksWithin(Names(properties), ks, at, a, opt);
    SelectionIsSubsequence(ks, a);
    if additional.Allowed? {
      StarComesLast(ks, a + Stars(more));
      assert EndsInStars(ks, a + Stars(more));
    } else {
      assert ks + [] == ks && a + Stars(0) == a;
    }
  }

  // ---------------------------------------------------------------- what the finished rule derives

  /** What BuildObjectRule promises about its rule. */
  ghost predicate IsRuleFor(rule: Body, rules: Table, properties: seq<Property>, required: set<string>,
                            additional: Additional) {
    MeansObject(rule, rules, AllMembers(properties, additional), NamesWhere(properties, required, true),
                OptionalNames(properties, required, additional))
  }

  ghost predicate Derived(rule: Body, rules: Table, w: Word) {
    exists depth: nat :: Derives(rules, depth, rule, w)
  }

  lemma ChoicesDerived(rule: Body, rules: Table, properties: seq<Property>, required: set<string>,
                       additional: Additional, w: Word)
    requires IsRuleFor(rule, rules, properties, required, additional)
    ensures Derived(rule, rules, w) <==>
            exists req, opt, chosen :: IsChoice(properties, required, additional, w, req, opt, chosen)
  {
    hide IsObject, IsChoice;
    var kv := AllMembers(properties, additional);
    var req, opt := NamesWhere(properties, required, true), OptionalNames(properties, required, additional);
    ObjectLanguage(rule, rules, kv, req, opt, w);
    assert Derived(rule, rules, w) <==> IsObject(kv, req, opt, w);
    TextsByPosition(properties, required, additional, w);
  }

  /** The rule derives exactly the texts, unless an optional property is named like the marker and may be repeated. */
  lemma TextsDerived(rule: Body, rules: Table, properties: seq<Property>, required: set<string>,
                     additional: Additional, w: Word)
    requires IsRuleFor(rule, rules, properties, required, additional)
    requires forall i :: 0 <= i < |properties| && properties[i].name == STAR ==> STAR in required
    ensures Derived(rule, rules, w) <==> IsText(properties, required, additional, w)
  {
    hide IsRuleFor, IsSelection, Listed, Derived;
    ChoicesDerived(rule, rules, properties, required, additional, w);
    if req, opt, chosen :| IsChoice(properties, required, additional, w, req, opt, chosen) {
      var some, more := ChoiceAt(properties, additional, opt, chosen);
      assert IsTextAt(properties, required, additional, w, req, some, more);
    }
    if req, some, more: nat :| IsTextAt(properties, required, additional, w, req, some, more) {
      var opt := OptionalPicked(properties, required);
      NamesPicked(properties, NamesWhere(properties, required, false), opt);
      ChosenAt(properties, additional, opt, some, more);
      assert IsChoice(properties, required, additional, w, req, opt, NamesAt(properties, some) + Stars(more));
    }
  }

  /** The required members alone, in the order of the properties, are a text of the rule. */
  lemma RequiredAlone(rule: Body, rules: Table, properties: seq<Property>, required: set<string>,
                      additional: Additional, req: seq<nat>)
    requires IsRuleFor(rule, rules, properties, required, additional)
    requires Increasing(req, |properties|) && AtRequired(properties, required, req)
    ensures Derived(rule, rules, OPEN + Listed(AllMembers(properties, additional), NamesAt(properties, req)) + CLOSE)
  {
    hide IsRuleFor, IsSelection, Listed, Derived;
    var names := NamesAt(properties, req);
    var w := OPEN + Listed(AllMembers(properties, additional), names) + CLOSE;
    var opt := OptionalPicked(properties, required);
    NamesPicked(properties, NamesWhere(properties, required, false), opt);
    NothingChosen(NamesAt(properties, opt) + (if additional.Allowed? then [STAR] else []));
    assert names + [] == names;
    assert IsChoice(properties, required, additional, w, req, opt, []);
    ChoicesDerived(rule, rules, properties, required, additional, w);
  }

  lemma {:induction false} ChosenFrom(ks: seq<string>, ms: seq<string>, k: string)
    requires IsSelection(ks, ms) && k in ms
    ensures k in ks
    decreases |ks|
  {
    if ks[0] == STAR {
      var n: nat :| n <= |ms| && ms[..n] == Stars(n) && IsSelection(ks[1..], ms[n..]);
      if k in ms[n..] {
        ChosenFrom(ks[1..], ms[n..], k);
      } else {
        assert ms == ms[..n] + ms[n..];
      }
    } else if IsSelection(ks[1..], ms) {
      ChosenFrom(ks[1..], ms, k);
    } else if k != ks[0] {
      ChosenFrom(ks[1..], ms[1..], k);
    }
  }

  ghost predicate Distinct(properties: seq<Property>) {
    forall i, j :: 0 <= i < j < |properties| ==> properties[i].name != properties[j].name
  }

  lemma {:induction false} OnceAt(properties: seq<Property>, at: seq<nat>, i: nat)
    requires Distinct(properties) && Increasing(at, |properties|) && i in at
    ensures multiset(NamesAt(properties, at))[properties[i].name] == 1
    decreases |at|
  {
    var p, m := WithoutLast(at, |properties|);
    var names, shorter := NamesAt(properties, at), NamesAt(properties, p);
    assert names == shorter + [properties[m].name];
    if i == m {
      assert properties[i].name !in shorter;
    } else {
      OnceAt(properties, p, i);
    }
  }

  /**
   * The members of every text of the rule are properties, or additional members where they are allowed, and every
   * required property is among them exactly once.
   */
  lemma RequiredOnce(rule: Body, rules: Table, properties: seq<Property>, required: set<string>,
                     additional: Additional, w: Word) returns (ms: seq<string>)
    requires IsRuleFor(rule, rules, properties, required, additional)
    requires Distinct(properties) && Derived(rule, rules, w)
    ensures w == OPEN + Listed(AllMembers(properties, additional), ms) + CLOSE
    ensures forall k :: k in ms ==> IsName(properties, k) || (additional.Allowed? && k == STAR)
    ensures forall i :: 0 <= i < |properties| && properties[i].name in required &&
                        (additional.NoAdditional? || properties[i].name != STAR) ==>
              multiset(ms)[properties[i].name] == 1
  {
    hide IsRuleFor, IsSelection, Listed, Derived;
    ChoicesDerived(rule, rules, properties, required, additional, w);
    var req, opt, chosen :| IsChoice(properties, required, additional, w, req, opt, chosen);
    ms := NamesAt(properties, req) + chosen;
    var ks := NamesAt(properties, opt) + (if additional.Allowed? then [STAR] else []);
    forall k | k in chosen ensures k in ks { ChosenFrom(ks, chosen, k); }
    forall i: nat | i < |properties| && properties[i].name in required &&
                    (additional.NoAdditional? || properties[i].name != STAR)
      ensures multiset(ms)[properties[i].name] == 1
    {
      OnceAt(properties, req, i);
      assert properties[i].name !in ks;
      assert properties[i].name !in chosen;
    }
    assert forall k :: k in NamesAt(properties, req) ==> IsName(properties, k);
    assert forall k :: k in NamesAt(properties, opt) ==> IsName(properties, k);
  }

  // ---------------------------------------------------------------- in full

  const A := Property("a", "number")
  const B := Property("b", "string")

  const A_WORD: Word := [Text("a"), Rule("space"), Text(":"), Rule("space"), Rule("number")]
  const B_WORD: Word := [Text("b"), Rule("space"), Text(":"), Rule("space"), Rule("string")]

  const A_ALONE: Word := [Text("{"), Rule("space")] + A_WORD + [Text("}"), Rule("space")]
  const A_AND_B: Word :=
    [Text("{"), Rule("space")] + A_WORD + [Text(","), Rule("space")] + B_WORD + [Text("}"), Rule("space")]

  lemma OneOfTwo(opt: seq<nat>)
    requires Increasing(opt, 2) && forall i :: i in opt ==> [A, B][i].name !in {"a"}
    ensures opt == [] || opt == [1]
  {
    assert |opt| > 1 ==> opt[0] < opt[1];
    assert forall j :: 0 <= j < |opt| ==> opt[j] in opt;
    assert forall j :: 0 <= j < |opt| ==> opt[j] == 1;
  }

  lemma FirstOfTwo(req: seq<nat>)
    requires Increasing(req, 2) && AtRequired([A, B], {"a"}, req)
    ensures req == [0]
  {
    assert forall i: nat :: i in req <==> i in [0];
    SamePositions(req, [0], 2);
  }

  lemma WordsOfTwo(kv: Members)
    requires kv == AllMembers([A, B], NoAdditional)
    ensures OPEN + Listed(kv, ["a"]) + CLOSE == A_ALONE
    ensures OPEN + Listed(kv, ["a", "b"]) + CLOSE == A_AND_B
  {
    assert [A, B][..1] == [A] && [A][..0] == [];
    assert MembersOf([A]) == map["a" := A_WORD];
    assert kv == map["a" := A_WORD, "b" := B_WORD];
    assert ["a"][1..] == [] && ["a", "b"][1..] == ["b"] && ["b"][1..] == [];
    assert CommaList(kv, []) == [];
    assert CommaList(kv, ["b"]) == [Text(","), Rule("space")] + B_WORD;
    assert Listed(kv, ["a", "b"]) == A_WORD + ([Text(","), Rule("space")] + B_WORD);
    assert Listed(kv, ["a"]) == A_WORD;
  }

  /** Two properties of which one is required: the texts with it alone and with both, and no other one. */
  lemma TwoProperties(rule: Body, rules: Table, w: Word)
    requires IsRuleFor(rule, rules, [A, B], {"a"}, NoAdditional)
    ensures Derived(rule, rules, w) <==> w == A_ALONE || w == A_AND_B
  {
    hide IsRuleFor, Derived, Listed;
    var kv := AllMembers([A, B], NoAdditional);
    TextsDerived(rule, rules, [A, B], {"a"}, NoAdditional, w);
    WordsOfTwo(kv);
    assert NamesAt([A, B], [0]) == ["a"] && NamesAt([A, B], []) == [] && NamesAt([A, B], [1]) == ["b"];
    assert Stars(0) == [] && ["a"] + ([] + []) == ["a"] && ["a"] + (["b"] + []) == ["a", "b"];
    if req, opt, more: nat :| IsTextAt([A, B], {"a"}, NoAdditional, w, req, opt, more) {
      OneOfTwo(opt);
      FirstOfTwo(req);
    }
    if w == A_ALONE { assert IsTextAt([A, B], {"a"}, NoAdditional, w, [0], [], 0); }
    if w == A_AND_B { assert IsTextAt([A, B], {"a"}, NoAdditional, w, [0], [1], 0); }
  }

  const X_WORD: Word := [Rule("key"), Text(":"), Rule("space"), Rule("value")]
  const X_TWICE: Word :=
    [Text("{"), Rule("space")] + X_WORD + [Text(","), Rule("space")] + X_WORD + [Text("}"), Rule("space")]

  lemma WordsOfAdditional(kv: Members)
    requires kv == AllMembers([], Allowed("key", "value"))
    ensures OPEN + Listed(kv, [STAR, STAR]) + CLOSE == X_TWICE && Listed(kv, []) == []
  {
    assert kv == map[STAR := X_WORD];
    assert [STAR, STAR][1..] == [STAR] && [STAR][1..] == [];
    assert CommaList(kv, [STAR]) == [Text(","), Rule("space")] + X_WORD;
    assert Listed(kv, [STAR, STAR]) == X_WORD + ([Text(","), Rule("space")] + X_WORD);
  }

  /** Additional members alone, as many as one likes: two of them, for one. */
  lemma TwoAdditional(rule: Body, rules: Table)
    requires IsRuleFor(rule, rules, [], {}, Allowed("key", "value"))
    ensures Derived(rule, rules, X_TWICE) && Derived(rule, rules, OPEN + CLOSE)
  {
    hide IsRuleFor, Derived, Listed, AllMembers;
    var extra := Allowed("key", "value");
    var kv := AllMembers([], extra);
    WordsOfAdditional(kv);
    TextsDerived(rule, rules, [], {}, extra, X_TWICE);
    TextsDerived(rule, rules, [], {}, extra, OPEN + CLOSE);
    var none: seq<string> := [];
    assert NamesAt([], []) == none && Stars(0) == none && Stars(2) == [STAR, STAR];
    assert none + (none + [STAR, STAR]) == [STAR, STAR] && none + (none + none) == none;
    assert OPEN + [] + CLOSE == OPEN + CLOSE;
    hide X_TWICE, OPEN, CLOSE;
    assert IsTextAt([], {}, extra, X_TWICE, [], [], 2);
    assert IsTextAt([], {}, extra, OPEN + CLOSE, [], [], 0);
  }
}
