/** The rule table and the rules for JSON objects (common/json-schema-to-grammar.cpp, class SchemaConverter). */
module SchemaRules {
  import opened Grammars
  import opened Numerals
  import opened Wrappers

  /** A literal piece of JSON text, or a rule of another schema that stands for itself here. */
  datatype Symbol = Text(text: string) | Rule(name: string)

  type Body = Grammar<Symbol>
  type Word = seq<Symbol>
  type Table = Rules<Symbol>

  ghost predicate Extends(more: Table, rules: Table) {
    forall n :: n in rules ==> n in more && more[n] == rules[n]
  }

  predicate IsNameChar(c: char) { 'a' <= c <= 'z' || 'A' <= c <= 'Z' || '0' <= c <= '9' || c == '-' }

  /** Every run of characters that no rule name may hold becomes one dash. */
  function EscapeName(name: string, inRun: bool := false): (esc: string)
    ensures forall c :: c in esc ==> IsNameChar(c)
    ensures (forall c :: c in name ==> IsNameChar(c)) ==> esc == name
  {
    if name == "" then ""
    else if IsNameChar(name[0]) then [name[0]] + EscapeName(name[1..], false)
    else (if inRun then "" else "-") + EscapeName(name[1..], true)
  }

  lemma {:induction false} RunDropped(run: string, b: string)
    requires (forall c :: c in run ==> !IsNameChar(c)) && (b != "" ==> IsNameChar(b[0]))
    ensures EscapeName(run + b, true) == EscapeName(b)
  {
    if run == "" {
      assert run + b == b;
    } else {
      assert (run + b)[1..] == run[1..] + b;
      RunDropped(run[1..], b);
    }
  }

  lemma LeadingRun(run: string, b: string)
    requires run != "" && (forall c :: c in run ==> !IsNameChar(c)) && (b != "" ==> IsNameChar(b[0]))
    ensures EscapeName(run + b) == "-" + EscapeName(b)
  {
    assert (run + b)[1..] == run[1..] + b;
    RunDropped(run[1..], b);
  }

  /** What one character adds in front. */
  function EscapedChar(c: char, inRun: bool): string {
    if IsNameChar(c) then [c] else if inRun then "" else "-"
  }

  lemma EscapeFirst(name: string, inRun: bool)
    requires name != ""
    ensures EscapeName(name, inRun) == EscapedChar(name[0], inRun) + EscapeName(name[1..], !IsNameChar(name[0]))
  {
  }

  lemma InFront(c: string, p: string, q: string)
    ensures c + (p + "-" + q) == c + p + "-" + q
  {
  }

  /** One whole run becomes one dash, and what stands before and behind it is escaped on its own. */
  lemma {:induction false} RunBecomesDash(a: string, run: string, b: string, inRun: bool := false)
    requires run != "" && forall c :: c in run ==> !IsNameChar(c)
    requires (if a == "" then !inRun else IsNameChar(a[|a| - 1])) && (b != "" ==> IsNameChar(b[0]))
    ensures EscapeName(a + run + b, inRun) == EscapeName(a, inRun) + "-" + EscapeName(b)
    decreases |a|
  {
    hide EscapeName, EscapedChar;
    if a == "" {
      assert a + run + b == run + b;
      LeadingRun(run, b);
      assert EscapeName("") == "" by { EscapeNothing(); }
    } else {
      var within := !IsNameChar(a[0]);
      var w := a + run + b;
      assert w[0] == a[0] && w[1..] == a[1..] + run + b;
      RunBecomesDash(a[1..], run, b, within);
      EscapeFirst(w, inRun);
      EscapeFirst(a, inRun);
      InFront(EscapedChar(a[0], inRun), EscapeName(a[1..], within), EscapeName(b));
    }
  }

  lemma EscapeNothing()
    ensures EscapeName("") == ""
  {
  }

  /** Letters, digits and dashes stay; underscores, dots, blanks and the like do not. */
  lemma EscapedCharacters(c: char)
    ensures c in "-azAZ09" ==> EscapeName([c]) == [c]
    ensures c in "_. /:@[`{$" ==> EscapeName([c]) == "-"
  {
    EscapeNothing();
    EscapeFirst([c], false);
  }

  lemma SuffixesDiffer(base: string, i: nat, j: nat)
    ensures base + Numeral(i) == base + Numeral(j) <==> i == j
  {
    if base + Numeral(i) == base + Numeral(j) {
      assert (base + Numeral(i))[|base|..] == Numeral(i);
      assert (base + Numeral(j))[|base|..] == Numeral(j);
      assert Value(Numeral(i)) == Value(Numeral(j));
    }
  }

  /** What an object rule is made of. */
  const COMMA: Word := [Text(","), Rule("space")]
  const OPEN: Word := [Text("{"), Rule("space")]
  const CLOSE: Word := [Text("}"), Rule("space")]
  const STAR := "*"

  type Members = map<string, Word>

  function WordOf(kv: Members, k: string): Word { if k in kv then kv[k] else [] }

  /** The given members, each with a comma before it. */
  function CommaList(kv: Members, ms: seq<string>): Word {
    if ms == [] then [] else (COMMA + WordOf(kv, ms[0])) + CommaList(kv, ms[1..])
  }

  /** The given members, with commas between them. */
  function Listed(kv: Members, ms: seq<string>): Word {
    if ms == [] then [] else WordOf(kv, ms[0]) + CommaList(kv, ms[1..])
  }

  function Stars(n: nat): seq<string> { seq(n, _ => STAR) }

  /** A choice among `ks` in their order: each once or not at all, the star as often as one likes. */
  ghost predicate IsSelection(ks: seq<string>, ms: seq<string>)
    decreases |ks|
  {
    if ks == [] then ms == []
    else if ks[0] == STAR then
      exists n: nat :: n <= |ms| && ms[..n] == Stars(n) && IsSelection(ks[1..], ms[n..])
    else IsSelection(ks[1..], ms) || (ms != [] && ms[0] == ks[0] && IsSelection(ks[1..], ms[1..]))
  }

  /** A choice in which the first of `ks` is taken. */
  ghost predicate StartsSelection(ks: seq<string>, ms: seq<string>)
    requires ks != []
  {
    ms != [] && ms[0] == ks[0] &&
    if ks[0] == STAR then
      exists n: nat :: n <= |ms| - 1 && ms[1..][..n] == Stars(n) && IsSelection(ks[1..], ms[1..][n..])
    else IsSelection(ks[1..], ms[1..])
  }

  /** Some member comes first in every choice that is not empty. */
  lemma {:induction false} SelectionStartsSomewhere(ks: seq<string>, ms: seq<string>)
    ensures ms != [] && IsSelection(ks, ms) <==> exists i :: 0 <= i < |ks| && StartsSelection(ks[i..], ms)
    decreases |ks|
  {
    if ks != [] {
      SelectionStartsSomewhere(ks[1..], ms);
      assert forall i :: 0 <= i < |ks| - 1 ==> ks[1..][i..] == ks[i + 1..];
      assert ks[0..] == ks;
      if StartsSelection(ks, ms) { StartIsSelection(ks, ms); }
      if i :| 0 <= i < |ks| && StartsSelection(ks[i..], ms) && i > 0 {
        assert ks[1..][i - 1..] == ks[i..];
        SkipFirst(ks, ms);
      }
      if ms != [] && IsSelection(ks, ms) { NotFirst(ks, ms); }
      if ms != [] && IsSelection(ks[1..], ms) {
        var i :| 0 <= i < |ks| - 1 && StartsSelection(ks[1..][i..], ms);
        assert StartsSelection(ks[i + 1..], ms);
      }
    }
  }

  lemma SkipFirst(ks: seq<string>, ms: seq<string>)
    requires ks != [] && IsSelection(ks[1..], ms)
    ensures IsSelection(ks, ms)
  {
    assert ms[..0] == Stars(0) && ms[0..] == ms;
  }

  lemma OneStarMore(ms: seq<string>, n: nat)
    requires ms != [] && ms[0] == STAR && n <= |ms| - 1 && ms[1..][..n] == Stars(n)
    ensures ms[..n + 1] == Stars(n + 1) && ms[n + 1..] == ms[1..][n..]
  {
    assert ms[..n + 1] == [STAR] + ms[1..][..n];
  }

  lemma StartIsSelection(ks: seq<string>, ms: seq<string>)
    requires ks != [] && StartsSelection(ks, ms)
    ensures IsSelection(ks, ms)
  {
    if ks[0] == STAR {
      var n: nat :| n <= |ms| - 1 && ms[1..][..n] == Stars(n) && IsSelection(ks[1..], ms[1..][n..]);
      OneStarMore(ms, n);
    }
  }

  lemma NotFirst(ks: seq<string>, ms: seq<string>)
    requires ks != [] && ms != [] && IsSelection(ks, ms)
    ensures StartsSelection(ks, ms) || IsSelection(ks[1..], ms)
  {
    if ks[0] == STAR {
      var n: nat :| n <= |ms| && ms[..n] == Stars(n) && IsSelection(ks[1..], ms[n..]);
      if n > 0 {
        assert ms[0] == ms[..n][0] == STAR;
        assert ms[1..][..n - 1] == ms[..n][1..] == Stars(n - 1);
        assert ms[1..][n - 1..] == ms[n..];
      } else {
        assert ms[n..] == ms;
      }
    }
  }

  // ---------------------------------------------------------------- languages of the pieces

  /** In every extension of the table the name of each of `ks` is bound to its own word. */
  ghost predicate Binds(rules: Table, names: map<string, string>, kv: Members, ks: seq<string>) {
    forall k :: k in ks ==> k in names && k in kv && names[k] in rules && rules[names[k]] == Lit(kv[k])
  }

  lemma BoundRef(rules: Table, depth: nat, names: map<string, string>, kv: Members, ks: seq<string>, k: string, w: Word)
    requires Binds(rules, names, kv, ks) && k in ks
    ensures Derives(rules, depth, Ref(names[k]), w) <==> depth > 0 && w == WordOf(kv, k)
  {
  }

  function CommaRef(name: string): Body { Seq(Lit(COMMA), Ref(name)) }

  lemma CommaRefMeaning(rules: Table, depth: nat, names: map<string, string>, kv: Members, ks: seq<string>, k: string,
                        w: Word)
    requires Binds(rules, names, kv, ks) && k in ks
    ensures Derives(rules, depth, CommaRef(names[k]), w) <==> depth > 0 && w == COMMA + WordOf(kv, k)
  {
    LitThen(rules, depth, COMMA, Ref(names[k]), w);
    if COMMA <= w {
      BoundRef(rules, depth, names, kv, ks, k, w[|COMMA|..]);
      assert w == COMMA + w[|COMMA|..];
    }
    if w == COMMA + WordOf(kv, k) {
      assert w[|COMMA|..] == WordOf(kv, k);
      BoundRef(rules, depth, names, kv, ks, k, w[|COMMA|..]);
    }
  }

  lemma {:induction false} CommaListConcat(kv: Members, a: seq<string>, b: seq<string>)
    ensures CommaList(kv, a + b) == CommaList(kv, a) + CommaList(kv, b)
  {
    if a == [] {
      assert a + b == b;
    } else {
      assert (a + b)[1..] == a[1..] + b;
      CommaListConcat(kv, a[1..], b);
    }
  }

  lemma OneMoreStar(kv: Members, n: nat)
    requires n > 0
    ensures CommaList(kv, Stars(n)) == COMMA + WordOf(kv, STAR) + CommaList(kv, Stars(n - 1))
  {
    assert Stars(n)[1..] == Stars(n - 1);
  }

  lemma StarRepeats(rules: Table, depth: nat, names: map<string, string>, kv: Members, ks: seq<string>, n: nat, w: Word)
    requires Binds(rules, names, kv, ks) && STAR in ks
    ensures DerivesTimes(rules, depth, CommaRef(names[STAR]), n, w) <==>
            (n == 0 || depth > 0) && w == CommaList(kv, Stars(n))
  {
    hide Derives, DerivesTimes, CommaList, Stars, CommaRef;
    if DerivesTimes(rules, depth, CommaRef(names[STAR]), n, w) { StarsSound(rules, depth, names, kv, ks, n, w); }
    if n == 0 || depth > 0 { StarsComplete(rules, depth, names, kv, ks, n); }
  }

  lemma {:induction false} StarsSound(rules: Table, depth: nat, names: map<string, string>, kv: Members,
                                      ks: seq<string>, n: nat, w: Word)
    requires Binds(rules, names, kv, ks) && STAR in ks && DerivesTimes(rules, depth, CommaRef(names[STAR]), n, w)
    ensures (n == 0 || depth > 0) && w == CommaList(kv, Stars(n))
    decreases n
  {
    if n > 0 {
      hide Derives, Binds, CommaList, Stars, CommaRef;
      OneMoreStar(kv, n);
      var u, v := TimesSplit(rules, depth, CommaRef(names[STAR]), n, w);
      CommaRefMeaning(rules, depth, names, kv, ks, STAR, u);
      StarsSound(rules, depth, names, kv, ks, n - 1, v);
    }
  }

  lemma {:induction false} StarsComplete(rules: Table, depth: nat, names: map<string, string>, kv: Members,
                                         ks: seq<string>, n: nat)
    requires Binds(rules, names, kv, ks) && STAR in ks && (n == 0 || depth > 0)
    ensures DerivesTimes(rules, depth, CommaRef(names[STAR]), n, CommaList(kv, Stars(n)))
    decreases n
  {
    if n > 0 {
      hide Derives, Binds, CommaList, Stars, CommaRef;
      var one := COMMA + WordOf(kv, STAR);
      OneMoreStar(kv, n);
      CommaRefMeaning(rules, depth, names, kv, ks, STAR, one);
      StarsComplete(rules, depth, names, kv, ks, n - 1);
      TimesOf(rules, depth, CommaRef(names[STAR]), n - 1, one, CommaList(kv, Stars(n - 1)));
    }
  }

  /** What a rest rule may add: any choice of its members, each behind a comma. */
  ghost predicate IsRest(kv: Members, ks: seq<string>, w: Word) {
    exists ms :: IsSelection(ks, ms) && w == CommaList(kv, ms)
  }

  /** What an alternative may be: a choice beginning with its first member. */
  ghost predicate IsStart(kv: Members, ks: seq<string>, w: Word)
    requires ks != []
  {
    exists ms :: StartsSelection(ks, ms) && w == Listed(kv, ms)
  }

  ghost predicate IsRefs(kv: Members, ks: seq<string>, firstIsOptional: bool, w: Word)
    requires ks != []
  {
    if firstIsOptional then IsRest(kv, ks, w) else IsStart(kv, ks, w)
  }

  /** In every extension of the table, `g` derives what is wanted, given enough depth, and nothing else. */
  ghost predicate MeansRefs(g: Body, rules: Table, kv: Members, ks: seq<string>, firstIsOptional: bool)
    requires ks != []
  {
    forall more, depth: nat, w :: Extends(more, rules) ==>
      (Derives(more, depth, g, w) ==> IsRefs(kv, ks, firstIsOptional, w)) &&
      (depth >= |ks| && IsRefs(kv, ks, firstIsOptional, w) ==> Derives(more, depth, g, w))
  }

  /** The part of a reference chain that stands for one member. */
  function Head(name: string, k: string, firstIsOptional: bool): Body {
    if firstIsOptional then (if k == STAR then Rep(CommaRef(name), 0, None) else Opt(CommaRef(name)))
    else if k == STAR then Seq(Ref(name), Rep(CommaRef(name), 0, None))
    else Ref(name)
  }

  ghost predicate HeadChoice(k: string, firstIsOptional: bool, hs: seq<string>) {
    if k == STAR then hs == Stars(|hs|) && (firstIsOptional || hs != [])
    else hs == [k] || (firstIsOptional && hs == [])
  }

  function Written(kv: Members, firstIsOptional: bool, ms: seq<string>): Word {
    if firstIsOptional then CommaList(kv, ms) else Listed(kv, ms)
  }

  lemma StarHead(rules: Table, depth: nat, names: map<string, string>, kv: Members, ks: seq<string>, w: Word)
    requires Binds(rules, names, kv, ks) && STAR in ks
    ensures Derives(rules, depth, Rep(CommaRef(names[STAR]), 0, None), w) <==>
            exists n: nat :: (n == 0 || depth > 0) && w == CommaList(kv, Stars(n))
  {
    var g := CommaRef(names[STAR]);
    if n: nat :| WithinCount(n, 0, None) && DerivesTimes(rules, depth, g, n, w) {
      StarRepeats(rules, depth, names, kv, ks, n, w);
    }
    if n: nat :| (n == 0 || depth > 0) && w == CommaList(kv, Stars(n)) {
      StarRepeats(rules, depth, names, kv, ks, n, w);
      assert WithinCount(n, 0, None);
    }
  }

  lemma HeadSound(rules: Table, depth: nat, names: map<string, string>, kv: Members, ks: seq<string>, k: string,
                  firstIsOptional: bool, w: Word) returns (hs: seq<string>)
    requires Binds(rules, names, kv, ks) && k in ks
    requires Derives(rules, depth, Head(names[k], k, firstIsOptional), w)
    ensures HeadChoice(k, firstIsOptional, hs) && w == Written(kv, firstIsOptional, hs)
  {
    if firstIsOptional && k == STAR {
      StarHead(rules, depth, names, kv, ks, w);
      var n: nat :| w == CommaList(kv, Stars(n));
      hs := Stars(n);
    } else if firstIsOptional {
      OptMeaning(rules, depth, CommaRef(names[k]), w);
      CommaRefMeaning(rules, depth, names, kv, ks, k, w);
      hs := if w == [] then [] else [k];
      assert CommaList(kv, [k]) == COMMA + WordOf(kv, k);
    } else if k == STAR {
      var u, v := SeqSplit(rules, depth, Ref(names[k]), Rep(CommaRef(names[k]), 0, None), w);
      BoundRef(rules, depth, names, kv, ks, k, u);
      StarHead(rules, depth, names, kv, ks, v);
      var n: nat :| v == CommaList(kv, Stars(n));
      hs := Stars(n + 1);
      assert hs[1..] == Stars(n);
    } else {
      BoundRef(rules, depth, names, kv, ks, k, w);
      hs := [k];
      assert Listed(kv, [k]) == WordOf(kv, k) + CommaList(kv, []);
    }
  }

  lemma HeadComplete(rules: Table, depth: nat, names: map<string, string>, kv: Members, ks: seq<string>, k: string,
                     firstIsOptional: bool, hs: seq<string>)
    requires Binds(rules, names, kv, ks) && k in ks && depth > 0
    requires HeadChoice(k, firstIsOptional, hs)
    ensures Derives(rules, depth, Head(names[k], k, firstIsOptional), Written(kv, firstIsOptional, hs))
  {
    var w := Written(kv, firstIsOptional, hs);
    if firstIsOptional && k == STAR {
      StarHead(rules, depth, names, kv, ks, w);
    } else if firstIsOptional {
      OptMeaning(rules, depth, CommaRef(names[k]), w);
      CommaRefMeaning(rules, depth, names, kv, ks, k, w);
      assert CommaList(kv, [k]) == COMMA + WordOf(kv, k);
    } else if k == STAR {
      var n: nat := |hs| - 1;
      assert hs[1..] == Stars(n);
      BoundRef(rules, depth, names, kv, ks, k, WordOf(kv, k));
      StarHead(rules, depth, names, kv, ks, CommaList(kv, Stars(n)));
      SeqOf(rules, depth, Ref(names[k]), Rep(CommaRef(names[k]), 0, None), WordOf(kv, k), CommaList(kv, Stars(n)));
    } else {
      BoundRef(rules, depth, names, kv, ks, k, w);
      assert Listed(kv, [k]) == WordOf(kv, k) + CommaList(kv, []);
    }
  }

  lemma WrittenConcat(kv: Members, firstIsOptional: bool, hs: seq<string>, ms: seq<string>)
    requires firstIsOptional || hs != []
    ensures Written(kv, firstIsOptional, hs + ms) == Written(kv, firstIsOptional, hs) + CommaList(kv, ms)
  {
    if firstIsOptional {
      CommaListConcat(kv, hs, ms);
    } else {
      assert (hs + ms)[1..] == hs[1..] + ms;
      CommaListConcat(kv, hs[1..], ms);
    }
  }

  /** A head choice followed by a choice among the rest is a choice. */
  lemma JoinChoice(ks: seq<string>, firstIsOptional: bool, hs: seq<string>, ms: seq<string>)
    requires ks != [] && HeadChoice(ks[0], firstIsOptional, hs) && IsSelection(ks[1..], ms)
    ensures if firstIsOptional then IsSelection(ks, hs + ms) else StartsSelection(ks, hs + ms)
  {
    var all := hs + ms;
    assert all[..|hs|] == hs && all[|hs|..] == ms;
    if firstIsOptional {
      if ks[0] != STAR && hs == [] { assert all == ms; }
    } else {
      assert all[1..][..|hs| - 1] == hs[1..] && all[1..][|hs| - 1..] == ms;
      if ks[0] == STAR { assert hs[1..] == Stars(|hs| - 1); }
    }
  }

  lemma SplitChoice(ks: seq<string>, firstIsOptional: bool, all: seq<string>) returns (hs: seq<string>, ms: seq<string>)
    requires ks != [] && if firstIsOptional then IsSelection(ks, all) else StartsSelection(ks, all)
    ensures all == hs + ms && HeadChoice(ks[0], firstIsOptional, hs) && IsSelection(ks[1..], ms)
  {
    if ks[0] == STAR {
      hs, ms := SplitStars(ks, firstIsOptional, all);
    } else if firstIsOptional && IsSelection(ks[1..], all) {
      hs, ms := [], all;
    } else {
      hs, ms := all[..1], all[1..];
    }
  }

  lemma SplitStars(ks: seq<string>, firstIsOptional: bool, all: seq<string>) returns (hs: seq<string>, ms: seq<string>)
    requires ks != [] && ks[0] == STAR && if firstIsOptional then IsSelection(ks, all) else StartsSelection(ks, all)
    ensures all == hs + ms && HeadChoice(STAR, firstIsOptional, hs) && IsSelection(ks[1..], ms)
  {
    hide Stars;
    if firstIsOptional {
      hs, ms := CutStars(ks[1..], all);
    } else {
      hs, ms := CutFirstStars(ks[1..], all);
    }
  }

  lemma CutFirstStars(ks: seq<string>, all: seq<string>) returns (hs: seq<string>, ms: seq<string>)
    requires all != [] && all[0] == STAR
    requires exists n: nat :: n <= |all| - 1 && all[1..][..n] == Stars(n) && IsSelection(ks, all[1..][n..])
    ensures all == hs + ms && hs != [] && hs == Stars(|hs|) && IsSelection(ks, ms)
  {
    hide IsSelection;
    var n: nat :| n <= |all| - 1 && all[1..][..n] == Stars(n) && IsSelection(ks, all[1..][n..]);
    OneStarMore(all, n);
    hs, ms := all[..n + 1], all[n + 1..];
  }

  lemma CutStars(ks: seq<string>, all: seq<string>) returns (hs: seq<string>, ms: seq<string>)
    requires exists n: nat :: n <= |all| && all[..n] == Stars(n) && IsSelection(ks, all[n..])
    ensures all == hs + ms && hs == Stars(|hs|) && IsSelection(ks, ms)
  {
    hide IsSelection;
    var n: nat :| n <= |all| && all[..n] == Stars(n) && IsSelection(ks, all[n..]);
    hs, ms := all[..n], all[n..];
  }

  lemma ExtendsTrans(a: Table, b: Table, c: Table)
    requires Extends(a, b) && Extends(b, c)
    ensures Extends(a, c)
  {
  }

  /** The rest of a chain: nothing behind the last member, otherwise a reference to the rest rule. */
  function Chain(head: Body, ks: seq<string>, rest: string): Body
    requires ks != []
  {
    if |ks| > 1 then Seq(head, Ref(rest)) else head
  }

  ghost predicate HasRest(rules: Table, kv: Members, ks: seq<string>, rest: string)
    requires ks != []
  {
    |ks| > 1 ==> rest in rules && MeansRefs(rules[rest], rules, kv, ks[1..], true)
  }

  lemma ChainSound(rules: Table, more: Table, depth: nat, names: map<string, string>, kv: Members, ks: seq<string>,
                   firstIsOptional: bool, rest: string, w: Word)
    requires ks != [] && Binds(rules, names, kv, ks) && HasRest(rules, kv, ks, rest) && Extends(more, rules)
    requires Derives(more, depth, Chain(Head(names[ks[0]], ks[0], firstIsOptional), ks, rest), w)
    ensures IsRefs(kv, ks, firstIsOptional, w)
  {
    var head := Head(names[ks[0]], ks[0], firstIsOptional);
    var u, v, ms := w, [], [];
    if |ks| > 1 {
      u, v := SeqSplit(more, depth, head, Ref(rest), w);
      assert Derives(more, depth - 1, rules[rest], v);
      assert IsRefs(kv, ks[1..], true, v);
      ms :| IsSelection(ks[1..], ms) && v == CommaList(kv, ms);
    }
    var hs := HeadSound(more, depth, names, kv, ks, ks[0], firstIsOptional, u);
    JoinChoice(ks, firstIsOptional, hs, ms);
    WrittenConcat(kv, firstIsOptional, hs, ms);
    assert w == Written(kv, firstIsOptional, hs + ms);
  }

  lemma ChainComplete(rules: Table, more: Table, depth: nat, names: map<string, string>, kv: Members, ks: seq<string>,
                      firstIsOptional: bool, rest: string, w: Word)
    requires ks != [] && Binds(rules, names, kv, ks) && HasRest(rules, kv, ks, rest) && Extends(more, rules)
    requires depth >= |ks| && IsRefs(kv, ks, firstIsOptional, w)
    ensures Derives(more, depth, Chain(Head(names[ks[0]], ks[0], firstIsOptional), ks, rest), w)
  {
    var head := Head(names[ks[0]], ks[0], firstIsOptional);
    var all :| (if firstIsOptional then IsSelection(ks, all) else StartsSelection(ks, all)) &&
        w == Written(kv, firstIsOptional, all);
    var hs, ms := SplitChoice(ks, firstIsOptional, all);
    WrittenConcat(kv, firstIsOptional, hs, ms);
    HeadComplete(more, depth, names, kv, ks, ks[0], firstIsOptional, hs);
    if |ks| > 1 {
      assert IsRefs(kv, ks[1..], true, CommaList(kv, ms));
      assert Derives(more, depth - 1, rules[rest], CommaList(kv, ms));
      assert Derives(more, depth, Ref(rest), CommaList(kv, ms));
      SeqOf(more, depth, head, Ref(rest), Written(kv, firstIsOptional, hs), CommaList(kv, ms));
    } else {
      assert ms == [] && w == Written(kv, firstIsOptional, hs);
    }
  }

  lemma ChainMeans(rules: Table, names: map<string, string>, kv: Members, ks: seq<string>, firstIsOptional: bool,
                   rest: string)
    requires ks != [] && Binds(rules, names, kv, ks) && HasRest(rules, kv, ks, rest)
    ensures MeansRefs(Chain(Head(names[ks[0]], ks[0], firstIsOptional), ks, rest), rules, kv, ks, firstIsOptional)
  {
    var g := Chain(Head(names[ks[0]], ks[0], firstIsOptional), ks, rest);
    forall more, depth: nat, w | Extends(more, rules)
      ensures (Derives(more, depth, g, w) ==> IsRefs(kv, ks, firstIsOptional, w)) &&
              (depth >= |ks| && IsRefs(kv, ks, firstIsOptional, w) ==> Derives(more, depth, g, w))
    {
      if Derives(more, depth, g, w) { ChainSound(rules, more, depth, names, kv, ks, firstIsOptional, rest, w); }
      if depth >= |ks| && IsRefs(kv, ks, firstIsOptional, w) {
        ChainComplete(rules, more, depth, names, kv, ks, firstIsOptional, rest, w);
      }
    }
  }

  // ---------------------------------------------------------------- object rules

  datatype Property = Property(name: string, valueRule: string)
  datatype Additional = NoAdditional | Allowed(keyRule: string, valueRule: string)

  function PropertyWord(p: Property): Word {
    [Text(p.name), Rule("space"), Text(":"), Rule("space"), Rule(p.valueRule)]
  }

  function AdditionalWord(keyRule: string, valueRule: string): Word {
    [Rule(keyRule), Text(":"), Rule("space"), Rule(valueRule)]
  }

  /** The member word of each name: of properties of the same name the last one counts. */
  function MembersOf(properties: seq<Property>): Members {
    if properties == [] then map[]
    else
      var last := properties[|properties| - 1];
      MembersOf(properties[..|properties| - 1])[last.name := PropertyWord(last)]
  }

  function AllMembers(properties: seq<Property>, additional: Additional): Members {
    match additional
    case NoAdditional => MembersOf(properties)
    case Allowed(keyRule, valueRule) => MembersOf(properties)[STAR := AdditionalWord(keyRule, valueRule)]
  }

  /** No later property has the same name. */
  ghost predicate IsLastOfName(properties: seq<Property>, i: nat) {
    i < |properties| && forall j :: i < j < |properties| ==> properties[j].name != properties[i].name
  }

  lemma {:induction false} LastOfNameCounts(properties: seq<Property>, i: nat)
    requires IsLastOfName(properties, i)
    ensures properties[i].name in MembersOf(properties)
    ensures MembersOf(properties)[properties[i].name] == PropertyWord(properties[i])
    decreases |properties|
  {
    var n := |properties| - 1;
    if i < n {
      assert properties[n].name != properties[i].name;
      LastOfNameCounts(properties[..n], i);
    }
  }

  lemma {:induction false} LastOfName(properties: seq<Property>, i: nat) returns (last: nat)
    requires i < |properties|
    ensures IsLastOfName(properties, last) && properties[last].name == properties[i].name
    decreases |properties| - i
  {
    last := i;
    if j :| i < j < |properties| && properties[j].name == properties[i].name {
      last := LastOfName(properties, j);
    }
  }

  /** The members hold the word of every property that no other of its name replaces. */
  ghost predicate KeepsWords(kv: Members, properties: seq<Property>) {
    forall i: nat :: IsLastOfName(properties, i) ==>
      properties[i].name in kv && kv[properties[i].name] == PropertyWord(properties[i])
  }

  /** A property named like the marker loses its word to the additional members, and no other property does. */
  lemma WordsKept(properties: seq<Property>, additional: Additional)
    ensures KeepsWords(AllMembers(properties, additional), properties) <==>
            additional.NoAdditional? || forall i :: 0 <= i < |properties| ==> properties[i].name != STAR
    ensures forall i: nat :: IsLastOfName(properties, i) && properties[i].name != STAR ==>
              properties[i].name in AllMembers(properties, additional) &&
              AllMembers(properties, additional)[properties[i].name] == PropertyWord(properties[i])
  {
    var kv := AllMembers(properties, additional);
    forall i: nat | IsLastOfName(properties, i) && (additional.NoAdditional? || properties[i].name != STAR)
      ensures properties[i].name in kv && kv[properties[i].name] == PropertyWord(properties[i]) {
      LastOfNameCounts(properties, i);
    }
    if additional.Allowed? {
      if i :| 0 <= i < |properties| && properties[i].name == STAR {
        var last := LastOfName(properties, i);
        assert |kv[STAR]| == 4 && |PropertyWord(properties[last])| == 5;
      }
    }
  }

  /** The names of the properties that are required, or are not, in their order. */
  function NamesWhere(properties: seq<Property>, required: set<string>, wanted: bool): seq<string> {
    if properties == [] then []
    else
      var last := properties[|properties| - 1].name;
      NamesWhere(properties[..|properties| - 1], required, wanted) + if (last in required) == wanted then [last] else []
  }

  function OptionalNames(properties: seq<Property>, required: set<string>, additional: Additional): seq<string> {
    NamesWhere(properties, required, false) + if additional.Allowed? then [STAR] else []
  }

  /** The texts of the objects that hold all required members, in order, and then a choice of the optional ones. */
  ghost predicate IsObject(kv: Members, req: seq<string>, opt: seq<string>, w: Word) {
    exists chosen :: IsSelection(opt, chosen) && w == OPEN + Listed(kv, req + chosen) + CLOSE
  }

  ghost predicate MeansObject(g: Body, rules: Table, kv: Members, req: seq<string>, opt: seq<string>) {
    forall more, depth: nat, w :: Extends(more, rules) ==>
      (Derives(more, depth, g, w) ==> IsObject(kv, req, opt, w)) &&
      (depth > |opt| && IsObject(kv, req, opt, w) ==> Derives(more, depth, g, w))
  }

  /** `g` derives the one word, if at all. */
  ghost predicate OnlyWord(rules: Table, depth: nat, g: Body, word: Word, enough: bool) {
    forall w :: Derives(rules, depth, g, w) <==> w == word && enough
  }

  lemma SeqOfWords(rules: Table, depth: nat, first: Body, second: Body, u: Word, v: Word, a: bool, b: bool)
    requires OnlyWord(rules, depth, first, u, a) && OnlyWord(rules, depth, second, v, b)
    ensures OnlyWord(rules, depth, Seq(first, second), u + v, a && b)
  {
    forall w ensures Derives(rules, depth, Seq(first, second), w) <==> w == u + v && a && b {
      if Derives(rules, depth, Seq(first, second), w) {
        var x, y := SeqSplit(rules, depth, first, second, w);
      }
      if w == u + v && a && b { SeqOf(rules, depth, first, second, u, v); }
    }
  }

  lemma OnlyReference(rules: Table, depth: nat, names: map<string, string>, kv: Members, ks: seq<string>, k: string)
    requires Binds(rules, names, kv, ks) && k in ks
    ensures OnlyWord(rules, depth, Ref(names[k]), WordOf(kv, k), depth > 0)
  {
    forall w ensures Derives(rules, depth, Ref(names[k]), w) <==> w == WordOf(kv, k) && depth > 0 {
      BoundRef(rules, depth, names, kv, ks, k, w);
    }
  }

  lemma OnlyComma(rules: Table, depth: nat)
    ensures OnlyWord(rules, depth, Lit(COMMA), COMMA, true)
  {
  }

  lemma ListedOneMore(kv: Members, req: seq<string>, k: string)
    ensures Listed(kv, req + [k]) == if req == [] then WordOf(kv, k) else Listed(kv, req) + (COMMA + WordOf(kv, k))
  {
    assert CommaList(kv, [k]) == COMMA + WordOf(kv, k);
    if req == [] {
      assert Listed(kv, [] + [k]) == WordOf(kv, k) + CommaList(kv, []);
    } else {
      WrittenConcat(kv, false, req, [k]);
    }
  }

  lemma OneMoreRequired(rules: Table, depth: nat, names: map<string, string>, kv: Members, req: seq<string>, i: nat,
                        before: Body)
    requires Binds(rules, names, kv, req) && i < |req|
    requires DerivesStart(rules, depth, before, kv, req[..i])
    ensures DerivesStart(rules, depth, Seq(if i > 0 then Seq(before, Lit(COMMA)) else before, Ref(names[req[i]])),
                         kv, req[..i + 1])
  {
    hide Derives, OnlyWord, Listed, CommaList, WordOf;
    var k := req[i];
    var so, word := Listed(kv, req[..i]), WordOf(kv, k);
    OnlyReference(rules, depth, names, kv, req, k);
    assert req[..i + 1] == req[..i] + [k];
    ListedOneMore(kv, req[..i], k);
    if i > 0 {
      OnlyComma(rules, depth);
      SeqOfWords(rules, depth, before, Lit(COMMA), OPEN + so, COMMA, depth > 0, true);
      SeqOfWords(rules, depth, Seq(before, Lit(COMMA)), Ref(names[k]), OPEN + so + COMMA, word, depth > 0, depth > 0);
      assert OPEN + so + COMMA + word == OPEN + (so + (COMMA + word));
    } else {
      ListedNone(kv);
      assert req[..i] == [] && OPEN + [] == OPEN;
      SeqOfWords(rules, depth, before, Ref(names[k]), OPEN, word, true, depth > 0);
    }
  }

  lemma ListedNone(kv: Members)
    ensures Listed(kv, []) == []
  {
  }

  function AdditionWord(kv: Members, req: seq<string>, chosen: seq<string>): Word {
    if req == [] then Listed(kv, chosen) else COMMA + Listed(kv, chosen)
  }

  /** What the optional part adds when it is there: a choice that is not empty, behind a comma if members precede it. */
  ghost predicate IsAddition(kv: Members, req: seq<string>, opt: seq<string>, w: Word) {
    exists chosen :: chosen != [] && IsSelection(opt, chosen) && w == AdditionWord(kv, req, chosen)
  }

  ghost predicate MeansAddition(g: Body, rules: Table, kv: Members, req: seq<string>, opt: seq<string>) {
    forall more, depth: nat, w :: Extends(more, rules) ==>
      (Derives(more, depth, g, w) ==> IsAddition(kv, req, opt, w)) &&
      (depth >= |opt| && IsAddition(kv, req, opt, w) ==> Derives(more, depth, g, w))
  }

  lemma StartIsAddition(kv: Members, opt: seq<string>, i: nat, w: Word)
    requires i < |opt| && IsStart(kv, opt[i..], w)
    ensures IsAddition(kv, [], opt, w)
  {
    var ms :| StartsSelection(opt[i..], ms) && w == Listed(kv, ms);
    SelectionStartsSomewhere(opt, ms);
    assert w == AdditionWord(kv, [], ms);
  }

  lemma AdditionIsStart(kv: Members, opt: seq<string>, w: Word) returns (i: nat)
    requires IsAddition(kv, [], opt, w)
    ensures i < |opt| && IsStart(kv, opt[i..], w)
  {
    var ms :| ms != [] && IsSelection(opt, ms) && w == AdditionWord(kv, [], ms);
    SelectionStartsSomewhere(opt, ms);
    i :| 0 <= i < |opt| && StartsSelection(opt[i..], ms);
  }

  lemma AlternativesMeanAddition(rules: Table, kv: Members, opt: seq<string>, alts: seq<Body>)
    requires opt != [] && |alts| == |opt|
    requires forall i :: 0 <= i < |alts| ==> MeansRefs(alts[i], rules, kv, opt[i..], false)
    ensures MeansAddition(Alternatives(alts), rules, kv, [], opt)
  {
    forall more, depth: nat, w | Extends(more, rules)
      ensures (Derives(more, depth, Alternatives(alts), w) ==> IsAddition(kv, [], opt, w)) &&
              (depth >= |opt| && IsAddition(kv, [], opt, w) ==> Derives(more, depth, Alternatives(alts), w))
    {
      AlternativesMeaning(more, depth, alts, w);
      if i :| 0 <= i < |alts| && Derives(more, depth, alts[i], w) {
        assert IsRefs(kv, opt[i..], false, w);
        StartIsAddition(kv, opt, i, w);
      }
      if depth >= |opt| && IsAddition(kv, [], opt, w) {
        var i := AdditionIsStart(kv, opt, w);
        assert IsRefs(kv, opt[i..], false, w);
        assert Derives(more, depth, alts[i], w);
      }
    }
  }

  lemma AdditionBehindComma(kv: Members, req: seq<string>, opt: seq<string>, v: Word)
    requires req != []
    ensures IsAddition(kv, req, opt, COMMA + v) <==> IsAddition(kv, [], opt, v)
  {
    if IsAddition(kv, [], opt, v) {
      var ms :| ms != [] && IsSelection(opt, ms) && v == AdditionWord(kv, [], ms);
      assert COMMA + v == AdditionWord(kv, req, ms);
    }
    if IsAddition(kv, req, opt, COMMA + v) {
      var ms :| ms != [] && IsSelection(opt, ms) && COMMA + v == AdditionWord(kv, req, ms);
      CancelPrefix(COMMA, v, Listed(kv, ms));
      assert v == AdditionWord(kv, [], ms);
    }
  }

  lemma CancelPrefix(p: Word, a: Word, b: Word)
    ensures p + a == p + b <==> a == b
  {
    assert (p + a)[|p|..] == a && (p + b)[|p|..] == b;
  }

  lemma CommaBeforeAddition(rules: Table, kv: Members, req: seq<string>, opt: seq<string>, g: Body)
    requires req != [] && MeansAddition(g, rules, kv, [], opt)
    ensures MeansAddition(Seq(Lit(COMMA), g), rules, kv, req, opt)
  {
    forall more, depth: nat, w | Extends(more, rules)
      ensures (Derives(more, depth, Seq(Lit(COMMA), g), w) ==> IsAddition(kv, req, opt, w)) &&
              (depth >= |opt| && IsAddition(kv, req, opt, w) ==> Derives(more, depth, Seq(Lit(COMMA), g), w))
    {
      LitThen(more, depth, COMMA, g, w);
      if IsAddition(kv, req, opt, w) { assert COMMA <= w; }
      if COMMA <= w {
        assert w == COMMA + w[|COMMA|..];
        AdditionBehindComma(kv, req, opt, w[|COMMA|..]);
      }
    }
  }

  /** The opening, the required members, the optional part if any, the closing. */
  function ObjectBody(start: Body, opt: seq<string>, addition: Body): Body {
    Seq(if opt != [] then Seq(start, Opt(addition)) else start, Lit(CLOSE))
  }

  ghost predicate DerivesStart(rules: Table, depth: nat, start: Body, kv: Members, req: seq<string>) {
    OnlyWord(rules, depth, start, OPEN + Listed(kv, req), depth > 0 || req == [])
  }

  ghost predicate MeansStart(start: Body, rules: Table, kv: Members, req: seq<string>) {
    forall more, depth: nat :: Extends(more, rules) ==> DerivesStart(more, depth, start, kv, req)
  }

  lemma CommaListFrom(kv: Members, ms: seq<string>)
    requires ms != []
    ensures CommaList(kv, ms) == COMMA + Listed(kv, ms)
  {
    Assoc(COMMA, WordOf(kv, ms[0]), CommaList(kv, ms[1..]));
  }

  lemma ListedWithAddition(kv: Members, req: seq<string>, chosen: seq<string>)
    requires chosen != []
    ensures Listed(kv, req + chosen) == Listed(kv, req) + AdditionWord(kv, req, chosen)
  {
    if req == [] {
      assert req + chosen == chosen;
    } else {
      WrittenConcat(kv, false, req, chosen);
      CommaListFrom(kv, chosen);
    }
  }

  lemma BodySound(more: Table, depth: nat, kv: Members, req: seq<string>, opt: seq<string>, start: Body,
                  addition: Body, body: Word)
    returns (chosen: seq<string>)
    requires opt != [] && DerivesStart(more, depth, start, kv, req)
    requires forall v :: Derives(more, depth, addition, v) ==> IsAddition(kv, req, opt, v)
    requires Derives(more, depth, Seq(start, Opt(addition)), body)
    ensures IsSelection(opt, chosen) && body == OPEN + Listed(kv, req + chosen)
  {
    var u, v := SeqSplit(more, depth, start, Opt(addition), body);
    OptMeaning(more, depth, addition, v);
    if v != [] {
      chosen :| chosen != [] && IsSelection(opt, chosen) && v == AdditionWord(kv, req, chosen);
      ListedWithAddition(kv, req, chosen);
      Assoc(OPEN, Listed(kv, req), v);
    } else {
      chosen := [];
      NothingChosen(opt);
      assert req + [] == req && u + v == u;
    }
  }

  lemma Assoc(a: Word, b: Word, c: Word)
    ensures (a + b) + c == a + (b + c)
  {
  }

  lemma ObjectSound(rules: Table, more: Table, depth: nat, kv: Members, req: seq<string>, opt: seq<string>,
                    start: Body, addition: Body, w: Word)
    requires MeansStart(start, rules, kv, req) && (opt != [] ==> MeansAddition(addition, rules, kv, req, opt)) &&
             Extends(more, rules)
    requires Derives(more, depth, ObjectBody(start, opt, addition), w)
    ensures IsObject(kv, req, opt, w)
  {
    var body, close := SeqSplit(more, depth, ObjectBody(start, opt, addition).first, Lit(CLOSE), w);
    assert DerivesStart(more, depth, start, kv, req);
    if opt != [] {
      var chosen := BodySound(more, depth, kv, req, opt, start, addition, body);
    } else {
      assert req + [] == req;
      assert IsSelection(opt, []);
    }
  }

  lemma {:induction false} NothingChosen(opt: seq<string>)
    ensures IsSelection(opt, [])
    decreases |opt|
  {
    if opt != [] {
      NothingChosen(opt[1..]);
      SkipFirst(opt, []);
    }
  }

  lemma BodyComplete(more: Table, depth: nat, kv: Members, req: seq<string>, opt: seq<string>, start: Body,
                     addition: Body, chosen: seq<string>)
    requires IsSelection(opt, chosen) && DerivesStart(more, depth, start, kv, req) && depth > 0
    requires forall v :: IsAddition(kv, req, opt, v) ==> Derives(more, depth, addition, v)
    ensures Derives(more, depth, Seq(start, Opt(addition)), OPEN + Listed(kv, req + chosen))
  {
    var u := OPEN + Listed(kv, req);
    if chosen != [] {
      var v := AdditionWord(kv, req, chosen);
      ListedWithAddition(kv, req, chosen);
      Assoc(OPEN, Listed(kv, req), v);
      assert IsAddition(kv, req, opt, v);
      OptMeaning(more, depth, addition, v);
      SeqOf(more, depth, start, Opt(addition), u, v);
    } else {
      OptMeaning(more, depth, addition, []);
      SeqOf(more, depth, start, Opt(addition), u, []);
      assert req + chosen == req && u + [] == u;
    }
  }

  lemma ObjectComplete(rules: Table, more: Table, depth: nat, kv: Members, req: seq<string>, opt: seq<string>,
                       start: Body, addition: Body, w: Word)
    requires MeansStart(start, rules, kv, req) && (opt != [] ==> MeansAddition(addition, rules, kv, req, opt)) &&
             Extends(more, rules)
    requires depth > |opt| && IsObject(kv, req, opt, w)
    ensures Derives(more, depth, ObjectBody(start, opt, addition), w)
  {
    var chosen :| IsSelection(opt, chosen) && w == OPEN + Listed(kv, req + chosen) + CLOSE;
    assert DerivesStart(more, depth, start, kv, req);
    if opt == [] {
      assert req + chosen == req;
    } else {
      BodyComplete(more, depth, kv, req, opt, start, addition, chosen);
    }
    SeqOf(more, depth, ObjectBody(start, opt, addition).first, Lit(CLOSE), OPEN + Listed(kv, req + chosen), CLOSE);
  }

  lemma ObjectMeaning(rules: Table, kv: Members, req: seq<string>, opt: seq<string>, start: Body, addition: Body)
    requires MeansStart(start, rules, kv, req) && (opt != [] ==> MeansAddition(addition, rules, kv, req, opt))
    ensures MeansObject(ObjectBody(start, opt, addition), rules, kv, req, opt)
  {
    var g := ObjectBody(start, opt, addition);
    forall more, depth: nat, w | Extends(more, rules)
      ensures (Derives(more, depth, g, w) ==> IsObject(kv, req, opt, w)) &&
              (depth > |opt| && IsObject(kv, req, opt, w) ==> Derives(more, depth, g, w))
    {
      if Derives(more, depth, g, w) { ObjectSound(rules, more, depth, kv, req, opt, start, addition, w); }
      if depth > |opt| && IsObject(kv, req, opt, w) {
        ObjectComplete(rules, more, depth, kv, req, opt, start, addition, w);
      }
    }
  }

  // ---------------------------------------------------------------- the converter

  /** The name is bound, and to another rule. */
  predicate Taken(rules: Table, name: string, rule: Body) { name in rules && rules[name] != rule }

  class SchemaConverter {
    var rules: Table

    constructor ()
      ensures rules == map[]
    {
      rules := map[];
    }

    /** Binds a rule to its name, or to the first numbered name that is free or bound to the same rule. */
    method AddRule(name: string, rule: Body) returns (key: string)
      modifies this
      ensures Extends(rules, old(rules)) && rules.Keys == old(rules).Keys + {key} && rules[key] == rule
      ensures !Taken(old(rules), EscapeName(name), rule) ==> key == EscapeName(name)
      ensures Taken(old(rules), EscapeName(name), rule) ==>
                exists i: nat :: key == EscapeName(name) + Numeral(i) && !Taken(old(rules), key, rule)
                                 && forall j: nat :: j < i ==> Taken(old(rules), EscapeName(name) + Numeral(j), rule)
    {
      var escName := EscapeName(name);
      if escName !in rules || rules[escName] == rule {
        rules := rules[escName := rule];
        return escName;
      }
      var i := FirstFree(rules, escName, rule);
      key := escName + Numeral(i);
      rules := rules[key := rule];
    }

    /** One member, then by reference what may still follow it. */
    method GetRecursiveRefs(ks: seq<string>, firstIsOptional: bool, prefix: string, names: map<string, string>,
                            ghost kv: Members)
      returns (res: Body)
      requires ks != [] && Binds(rules, names, kv, ks)
      modifies this
      ensures Extends(rules, old(rules)) && MeansRefs(res, rules, kv, ks, firstIsOptional)
      decreases |ks|
    {
      var k := ks[0];
      res := Head(names[k], k, firstIsOptional);
      var rest := "";
      if |ks| > 1 {
        var restRule := GetRecursiveRefs(ks[1..], true, prefix, names, kv);
        rest := AddRule(prefix + k + "-rest", restRule);
        res := Seq(res, Ref(rest));
      }
      ChainMeans(rules, names, kv, ks, firstIsOptional, rest);
    }

    /** Binds a key-value rule for every property. */
    method AddProperties(properties: seq<Property>, required: set<string>, prefix: string)
      returns (names: map<string, string>, requiredProps: seq<string>, optionalProps: seq<string>)
      modifies this
      ensures Extends(rules, old(rules))
      ensures requiredProps == NamesWhere(properties, required, true) &&
              optionalProps == NamesWhere(properties, required, false)
      ensures Binds(rules, names, MembersOf(properties), requiredProps + optionalProps)
    {
      names, requiredProps, optionalProps := map[], [], [];
      for i := 0 to |properties|
        invariant Extends(rules, old(rules))
        invariant requiredProps == NamesWhere(properties[..i], required, true)
        invariant optionalProps == NamesWhere(properties[..i], required, false)
        invariant Binds(rules, names, MembersOf(properties[..i]), requiredProps + optionalProps)
      {
        var p := properties[i];
        assert properties[..i + 1][..i] == properties[..i];
        var key := AddRule(prefix + p.name + "-kv", Lit(PropertyWord(p)));
        names := names[p.name := key];
        if p.name in required {
          requiredProps := requiredProps + [p.name];
        } else {
          optionalProps := optionalProps + [p.name];
        }
      }
      assert properties[..|properties|] == properties;
    }

    /** The required members in order, a comma before each but the first. */
    method RequiredPart(requiredProps: seq<string>, names: map<string, string>, ghost kv: Members) returns (start: Body)
      requires Binds(rules, names, kv, requiredProps)
      ensures MeansStart(start, rules, kv, requiredProps)
    {
      start := Lit(OPEN);
      for i := 0 to |requiredProps|
        invariant MeansStart(start, rules, kv, requiredProps[..i])
      {
        ghost var before := start;
        if i > 0 {
          start := Seq(start, Lit(COMMA));
        }
        start := Seq(start, Ref(names[requiredProps[i]]));
        ghost var upTo := requiredProps[..i + 1];
        forall more, depth: nat | Extends(more, rules) ensures DerivesStart(more, depth, start, kv, upTo) {
          assert DerivesStart(more, depth, before, kv, requiredProps[..i]);
          OneMoreRequired(more, depth, names, kv, requiredProps, i, before);
        }
      }
      assert requiredProps[..|requiredProps|] == requiredProps;
    }

    /** One alternative for each optional member that may come first. */
    method OptionalAlternatives(optionalProps: seq<string>, prefix: string, names: map<string, string>,
                                ghost kv: Members)
      returns (alts: seq<Body>)
      requires Binds(rules, names, kv, optionalProps)
      modifies this
      ensures Extends(rules, old(rules)) && |alts| == |optionalProps|
      ensures forall i :: 0 <= i < |alts| ==> MeansRefs(alts[i], rules, kv, optionalProps[i..], false)
    {
      alts := [];
      for i := 0 to |optionalProps|
        invariant Extends(rules, old(rules)) && |alts| == i
        invariant forall j :: 0 <= j < i ==> MeansRefs(alts[j], rules, kv, optionalProps[j..], false)
      {
        ghost var before := rules;
        var alt := GetRecursiveRefs(optionalProps[i..], false, prefix, names, kv);
        forall j | 0 <= j < i ensures MeansRefs(alts[j], rules, kv, optionalProps[j..], false) {
          StillMeans(alts[j], before, rules, kv, optionalProps[j..]);
        }
        alts := alts + [alt];
      }
    }

    /** Binds the key-value rule of additional members too, as the last of the optional ones. */
    method AddMembers(properties: seq<Property>, required: set<string>, prefix: string, additional: Additional)
      returns (names: map<string, string>, requiredProps: seq<string>, optionalProps: seq<string>)
      modifies this
      ensures Extends(rules, old(rules))
      ensures requiredProps == NamesWhere(properties, required, true) &&
              optionalProps == OptionalNames(properties, required, additional)
      ensures Binds(rules, names, AllMembers(properties, additional), requiredProps + optionalProps)
    {
      names, requiredProps, optionalProps := AddProperties(properties, required, prefix);
      if additional.Allowed? {
        var key := AddRule(prefix + "additional-kv", Lit(AdditionalWord(additional.keyRule, additional.valueRule)));
        names := names[STAR := key];
        optionalProps := optionalProps + [STAR];
      }
    }

    /** The group of optional members behind the required ones. */
    method OptionalPart(requiredProps: seq<string>, optionalProps: seq<string>, prefix: string,
                        names: map<string, string>, ghost kv: Members)
      returns (addition: Body)
      requires optionalProps != [] && Binds(rules, names, kv, optionalProps)
      modifies this
      ensures Extends(rules, old(rules)) && MeansAddition(addition, rules, kv, requiredProps, optionalProps)
    {
      var alts := OptionalAlternatives(optionalProps, prefix, names, kv);
      addition := Alternatives(alts);
      AlternativesMeanAddition(rules, kv, optionalProps, alts);
      if requiredProps != [] {
        CommaBeforeAddition(rules, kv, requiredProps, optionalProps, addition);
        addition := Seq(Lit(COMMA), addition);
      }
    }

    method BuildObjectRule(properties: seq<Property>, required: set<string>, name: string, additional: Additional)
      returns (rule: Body)
      modifies this
      ensures Extends(rules, old(rules))
      ensures MeansObject(rule, rules, AllMembers(properties, additional), NamesWhere(properties, required, true),
                          OptionalNames(properties, required, additional))
    {
      var prefix := name + if name == "" then "" else "-";
      ghost var kv := AllMembers(properties, additional);
      var names, requiredProps, optionalProps := AddMembers(properties, required, prefix, additional);
      var start := RequiredPart(requiredProps, names, kv);
      ghost var before := rules;
      var addition := start;
      rule := start;
      if optionalProps != [] {
        addition := OptionalPart(requiredProps, optionalProps, prefix, names, kv);
        rule := Seq(rule, Opt(addition));
      }
      rule := Seq(rule, Lit(CLOSE));
      StillStarts(start, before, rules, kv, requiredProps);
      ObjectMeaning(rules, kv, requiredProps, optionalProps, start, addition);
    }
  }

  lemma StillStarts(start: Body, before: Table, rules: Table, kv: Members, req: seq<string>)
    requires Extends(rules, before) && MeansStart(start, before, kv, req)
    ensures MeansStart(start, rules, kv, req)
  {
    forall more, depth: nat | Extends(more, rules)
      ensures DerivesStart(more, depth, start, kv, req)
    {
      ExtendsTrans(more, rules, before);
    }
  }

  lemma StillMeans(g: Body, before: Table, rules: Table, kv: Members, ks: seq<string>)
    requires ks != [] && Extends(rules, before) && MeansRefs(g, before, kv, ks, false)
    ensures MeansRefs(g, rules, kv, ks, false)
  {
    forall more, depth: nat, w | Extends(more, rules)
      ensures (Derives(more, depth, g, w) ==> IsRefs(kv, ks, false, w)) &&
              (depth >= |ks| && IsRefs(kv, ks, false, w) ==> Derives(more, depth, g, w))
    {
      ExtendsTrans(more, rules, before);
    }
  }

  /** The first number that makes the name free or already bound to the rule. */
  method FirstFree(rules: Table, escName: string, rule: Body) returns (i: nat)
    ensures !Taken(rules, escName + Numeral(i), rule)
    ensures forall j: nat :: j < i ==> Taken(rules, escName + Numeral(j), rule)
  {
    i := 0;
    while escName + Numeral(i) in rules && rules[escName + Numeral(i)] != rule
      invariant forall j: nat :: j < i ==> Taken(rules, escName + Numeral(j), rule)
      decreases |rules.Keys| - i
    {
      i := i + 1;
      TakenNumbers(rules, escName, rule, i);
    }
  }

  /** As many rules are bound as there are numbered names taken. */
  lemma TakenNumbers(rules: Table, escName: string, rule: Body, n: nat)
    requires forall j: nat :: j < n ==> Taken(rules, escName + Numeral(j), rule)
    ensures n <= |rules.Keys|
  {
    NumberedNames(escName, n);
    SubsetSize(NamesBelow(escName, n), rules.Keys);
  }

  ghost function NamesBelow(escName: string, n: nat): set<string> {
    set j: nat | j < n :: escName + Numeral(j)
  }

  lemma {:induction false} NumberedNames(escName: string, n: nat)
    ensures |NamesBelow(escName, n)| == n
  {
    if n > 0 {
      NumberedNames(escName, n - 1);
      NextName(escName, n - 1);
      hide NamesBelow, Numeral;
    }
  }

  lemma NextName(escName: string, n: nat)
    ensures escName + Numeral(n) !in NamesBelow(escName, n)
    ensures NamesBelow(escName, n + 1) == NamesBelow(escName, n) + {escName + Numeral(n)}
  {
    hide Numeral;
    forall j: nat | j < n ensures escName + Numeral(j) != escName + Numeral(n) { SuffixesDiffer(escName, j, n); }
  }

  lemma SubsetSize(a: set<string>, b: set<string>)
    requires a <= b
    ensures |a| <= |b|
  {
    assert b == a + (b - a);
  }

  // ---------------------------------------------------------------- what a choice is

  ghost predicate Increasing(at: seq<nat>, bound: nat) {
    (forall j :: 0 <= j < |at| ==> at[j] < bound) && (forall i, j :: 0 <= i < j < |at| ==> at[i] < at[j])
  }

  ghost predicate PicksAt(ks: seq<string>, ms: seq<string>, at: seq<nat>) {
    |at| == |ms| && Increasing(at, |ks|) && forall j :: 0 <= j < |ms| ==> ms[j] == ks[at[j]]
  }

  /** `ms` is what is left of `ks` when some of its entries are struck out. */
  ghost predicate IsSubsequence(ks: seq<string>, ms: seq<string>) {
    exists at :: PicksAt(ks, ms, at)
  }

  /** A choice without the star leaves the listed members in their order, each at most once. */
  lemma {:induction false} SelectionIsSubsequence(ks: seq<string>, ms: seq<string>)
    requires STAR !in ks
    ensures IsSelection(ks, ms) <==> IsSubsequence(ks, ms)
    decreases |ks|
  {
    if ks == [] {
      if ms == [] { assert PicksAt(ks, ms, []); }
      if IsSubsequence(ks, ms) { SubsequenceNotLonger(ks, ms); }
    } else {
      SelectionIsSubsequence(ks[1..], ms);
      if ms != [] { SelectionIsSubsequence(ks[1..], ms[1..]); }
      if at :| PicksAt(ks[1..], ms, at) { assert PicksAt(ks, ms, Shifted(at)); }
      if ms != [] && ms[0] == ks[0] {
        if at :| PicksAt(ks[1..], ms[1..], at) { assert PicksAt(ks, ms, [0] + Shifted(at)); }
      }
      if at :| PicksAt(ks, ms, at) { Unshift(ks, ms, at); }
    }
  }

  lemma SubsequenceNotLonger(ks: seq<string>, ms: seq<string>)
    requires IsSubsequence(ks, ms)
    ensures |ms| <= |ks|
  {
    var at :| PicksAt(ks, ms, at);
    IncreasingBound(at, |ks|);
  }

  function Shifted(at: seq<nat>): (r: seq<nat>)
    ensures |r| == |at| && forall j :: 0 <= j < |at| ==> r[j] == at[j] + 1
  {
    seq(|at|, j requires 0 <= j < |at| => at[j] + 1)
  }

  lemma Unshift(ks: seq<string>, ms: seq<string>, at: seq<nat>)
    requires ks != [] && PicksAt(ks, ms, at)
    ensures IsSubsequence(ks[1..], ms) || (ms != [] && ms[0] == ks[0] && IsSubsequence(ks[1..], ms[1..]))
  {
    if at != [] && at[0] == 0 {
      var rest: seq<nat> := seq(|at| - 1, j requires 0 <= j < |at| - 1 => at[j + 1] - 1);
      assert PicksAt(ks[1..], ms[1..], rest);
    } else {
      assert forall j :: 0 <= j < |at| ==> at[j] >= 1;
      var rest: seq<nat> := seq(|at|, j requires 0 <= j < |at| => at[j] - 1);
      assert PicksAt(ks[1..], ms, rest);
    }
  }

  ghost predicate EndsInStars(ks: seq<string>, ms: seq<string>) {
    exists a, n: nat :: ms == a + Stars(n) && IsSelection(ks, a)
  }

  /** Additional members stand behind the others, as many as one likes. */
  lemma StarComesLast(ks: seq<string>, ms: seq<string>)
    requires STAR !in ks
    ensures IsSelection(ks + [STAR], ms) <==> EndsInStars(ks, ms)
  {
    if IsSelection(ks + [STAR], ms) { StarsAtEnd(ks, ms); }
    if a, n: nat :| ms == a + Stars(n) && IsSelection(ks, a) { StarsAllowed(ks, a, n); }
  }

  lemma {:induction false} StarsAtEnd(ks: seq<string>, ms: seq<string>)
    requires STAR !in ks && IsSelection(ks + [STAR], ms)
    ensures EndsInStars(ks, ms)
    decreases |ks|
  {
    var all := ks + [STAR];
    hide IsSelection;
    if ks == [] {
      OnlyStars(all, ms);
      SelectNone();
      assert ms == [] + Stars(|ms|);
    } else {
      assert all[1..] == ks[1..] + [STAR];
      SelectionUnfolds(all, ms);
      if IsSelection(all[1..], ms) {
        StarsAtEnd(ks[1..], ms);
        var a, n: nat :| ms == a + Stars(n) && IsSelection(ks[1..], a);
        SkipFirst(ks, a);
      } else {
        StarsAtEnd(ks[1..], ms[1..]);
        var a, n: nat :| ms[1..] == a + Stars(n) && IsSelection(ks[1..], a);
        TakeFirst(ks, a);
        assert ms == [ks[0]] + a + Stars(n);
      }
    }
  }

  lemma OnlyStars(ks: seq<string>, ms: seq<string>)
    requires |ks| == 1 && ks[0] == STAR && IsSelection(ks, ms)
    ensures ms == Stars(|ms|)
  {
    var n: nat :| n <= |ms| && ms[..n] == Stars(n) && IsSelection(ks[1..], ms[n..]);
    assert |ms[n..]| == 0;
    assert ms == ms[..n];
  }

  lemma SelectNone()
    ensures IsSelection([], [])
  {}

  lemma SelectionUnfolds(ks: seq<string>, ms: seq<string>)
    requires ks != [] && ks[0] != STAR && IsSelection(ks, ms)
    ensures IsSelection(ks[1..], ms) || (ms != [] && ms[0] == ks[0] && IsSelection(ks[1..], ms[1..]))
  {}

  lemma TakeFirst(ks: seq<string>, a: seq<string>)
    requires ks != [] && ks[0] != STAR && IsSelection(ks[1..], a)
    ensures IsSelection(ks, [ks[0]] + a)
  {
    assert ([ks[0]] + a)[1..] == a;
  }

  lemma {:induction false} StarsAllowed(ks: seq<string>, a: seq<string>, n: nat)
    requires STAR !in ks && IsSelection(ks, a)
    ensures IsSelection(ks + [STAR], a + Stars(n))
    decreases |ks|
  {
    var all, ms := ks + [STAR], a + Stars(n);
    if ks == [] {
      assert ms[..n] == Stars(n) && ms[n..] == [] && all[1..] == [];
    } else {
      assert all[1..] == ks[1..] + [STAR];
      if IsSelection(ks[1..], a) {
        StarsAllowed(ks[1..], a, n);
      } else {
        StarsAllowed(ks[1..], a[1..], n);
        assert ms[1..] == a[1..] + Stars(n);
      }
    }
  }

  /** Optional properties appear at most once exactly when none of them is called "*". */
  lemma AtMostOnceUnlessStar(ks: seq<string>)
    ensures (forall ms :: IsSelection(ks, ms) ==> IsSubsequence(ks, ms)) <==> STAR !in ks
  {
    if STAR !in ks {
      forall ms | IsSelection(ks, ms) ensures IsSubsequence(ks, ms) { SelectionIsSubsequence(ks, ms); }
    } else {
      var ms := Stars(|ks| + 1);
      ManyStars(ks, |ks| + 1);
      if IsSubsequence(ks, ms) { SubsequenceNotLonger(ks, ms); }
    }
  }

  lemma {:induction false} ManyStars(ks: seq<string>, n: nat)
    requires STAR in ks
    ensures IsSelection(ks, Stars(n))
    decreases |ks|
  {
    var ms := Stars(n);
    if ks[0] == STAR {
      NothingChosen(ks[1..]);
      assert ms[..n] == Stars(n) && ms[n..] == [];
    } else {
      ManyStars(ks[1..], n);
    }
  }

  lemma {:induction false} IncreasingBound(at: seq<nat>, bound: nat)
    requires Increasing(at, bound)
    ensures |at| <= bound
  {
    if at != [] {
      var last := at[|at| - 1];
      IncreasingBound(at[..|at| - 1], last);
    }
  }

  /** The language of the finished rule: the object texts and nothing else. */
  lemma ObjectLanguage(rule: Body, rules: Table, kv: Members, req: seq<string>, opt: seq<string>, w: Word)
    requires MeansObject(rule, rules, kv, req, opt)
    ensures (exists depth: nat :: Derives(rules, depth, rule, w)) <==> IsObject(kv, req, opt, w)
  {
    if depth: nat :| Derives(rules, depth, rule, w) { assert Extends(rules, rules); }
    if IsObject(kv, req, opt, w) {
      assert Extends(rules, rules);
      assert Derives(rules, |opt| + 1, rule, w);
    }
  }
}
