/** Keys that are none of a given set of strings (common/json-schema-to-grammar.cpp, _not_strings). */
module NotStrings {
  import opened Grammars
  import opened Wrappers

  type Gbnf = Grammar<char>

  /** Printable ASCII that stands for itself in a JSON string. */
  predicate IsPlainChar(c: char) { ' ' <= c <= '~' && c != '"' && c != '\\' }

  predicate IsPlain(s: string) { forall i :: 0 <= i < |s| ==> IsPlainChar(s[i]) }

  /** The characters that the text between the brackets of a class stands for: `a-z` is a range. */
  function ClassChars(items: string): set<char> {
    if items == "" then {}
    else if |items| >= 3 && items[1] == '-' then CharRange(items[0], items[2]) + ClassChars(items[3..])
    else {items[0]} + ClassChars(items[1..])
  }

  /**
   * The class `[c]` of a single character as the grammar parser reads it (src/llama-grammar.cpp:413-441): behind the
   * bracket a caret begins a negated class, here of nothing, which is no symbol at all; a closing bracket ends the
   * class and leaves a second one that the parser refuses.
   */
  function OneCharClass(c: char): Option<Gbnf> {
    if c == '^' then Some(Lit("")) else if c == ']' then None else Some(OneOf(ClassChars([c])))
  }

  function HexChars(): set<char> { CharRange('0', '9') + CharRange('a', 'f') + CharRange('A', 'F') }

  /** The primitive rule `char`. */
  function CharRule(): Gbnf {
    Alt(NoneOf({'"', '\\', '\U{7F}'} + CharRange('\0', '\U{1F}')),
        Seq(OneOf({'\\'}), Alt(OneOf({'"', '\\', 'b', 'f', 'n', 'r', 't'}),
                               Seq(Lit("u"), Rep(OneOf(HexChars()), 4, Some(4))))))
  }

  predicate IsHexDigit(c: char) { '0' <= c <= '9' || 'a' <= c <= 'f' || 'A' <= c <= 'F' }

  lemma FourHexDigits(v: string)
    ensures Accepts(Rep(OneOf(HexChars()), 4, Some(4)), v) <==> |v| == 4 && forall i :: 0 <= i < 4 ==> IsHexDigit(v[i])
  {
    RepOneOf(map[], 0, HexChars(), 4, Some(4), v);
    assert forall c :: c in HexChars() <==> IsHexDigit(c);
  }

  lemma CodeMeaning(v: string)
    ensures Accepts(Seq(Lit("u"), Rep(OneOf(HexChars()), 4, Some(4))), v) <==>
            |v| == 5 && v[0] == 'u' && forall i :: 1 <= i < 5 ==> IsHexDigit(v[i])
  {
    hide IsHexDigit;
    LitThen(map[], 0, "u", Rep(OneOf(HexChars()), 4, Some(4)), v);
    if |v| > 0 {
      var t := v[1..];
      FourHexDigits(t);
      assert |v| == 5 ==> forall i :: 0 <= i < 4 ==> t[i] == v[i + 1];
      assert |v| == 5 ==> forall i :: 1 <= i < 5 ==> v[i] == t[i - 1];
    }
  }

  /** What follows a backslash. */
  lemma EscapedMeaning(v: string)
    ensures Accepts(Alt(OneOf({'"', '\\', 'b', 'f', 'n', 'r', 't'}),
                        Seq(Lit("u"), Rep(OneOf(HexChars()), 4, Some(4)))), v) <==>
            (|v| == 1 && v[0] in "\"\\bfnrt") ||
            (|v| == 5 && v[0] == 'u' && forall i :: 1 <= i < 5 ==> IsHexDigit(v[i]))
  {
    hide IsHexDigit, HexChars;
    CodeMeaning(v);
    assert |v| == 1 ==> (v[0] in "\"\\bfnrt" <==> v[0] in {'"', '\\', 'b', 'f', 'n', 'r', 't'});
  }

  /**
   * One character of a JSON string (section 7 of RFC 8259): neither a quote, a backslash nor a control character, or a
   * backslash with a letter, or with a u and four hexadecimal digits. A slash is not escaped, and DEL is left out.
   */
  lemma CharMeaning(w: string)
    ensures Accepts(CharRule(), w) <==>
            || (|w| == 1 && w[0] > '\U{1F}' && w[0] != '"' && w[0] != '\\' && w[0] != '\U{7F}')
            || (|w| == 2 && w[0] == '\\' && w[1] in "\"\\bfnrt")
            || (|w| == 6 && w[0] == '\\' && w[1] == 'u' && forall i :: 2 <= i < 6 ==> IsHexDigit(w[i]))
  {
    hide IsHexDigit;
    var escaped := Alt(OneOf({'"', '\\', 'b', 'f', 'n', 'r', 't'}),
                       Seq(Lit("u"), Rep(OneOf(HexChars()), 4, Some(4))));
    OneOfThen(map[], 0, {'\\'}, escaped, w);
    if |w| > 0 {
      var v := w[1..];
      EscapedMeaning(v);
      assert |w| == 6 ==> forall i :: 1 <= i < 5 ==> v[i] == w[i + 1];
      assert |w| == 6 ==> forall i :: 2 <= i < 6 ==> w[i] == v[i - 1];
    }
  }

  /** The plain characters are the ASCII ones that stand for themselves there. */
  lemma PlainNeedsNoEscape(c: char)
    requires c <= '\U{7F}'
    ensures IsPlainChar(c) <==> Accepts(CharRule(), [c])
  {
    CharMeaning([c]);
  }

  lemma PlainIsOneChar(w: string)
    requires IsPlain(w)
    ensures Accepts(CharRule(), w) <==> |w| == 1
  {
  }

  lemma {:induction false} PlainIsChars(k: nat, w: string)
    requires IsPlain(w)
    ensures DerivesTimes(map[], 0, CharRule(), k, w) <==> |w| == k
    decreases k
  {
    if k > 0 && |w| > 0 {
      assert IsPlain(w[..1]) && IsPlain(w[1..]);
      PlainIsOneChar(w[..1]);
      PlainIsChars(k - 1, w[1..]);
      forall i | 0 <= i <= |w| && Accepts(CharRule(), w[..i]) ensures i == 1 { PlainIsOneChar(w[..i]); }
    }
  }

  lemma PlainChars(lo: nat, w: string)
    requires IsPlain(w)
    ensures Accepts(Rep(CharRule(), lo, None), w) <==> |w| >= lo
  {
    forall k: nat ensures DerivesTimes(map[], 0, CharRule(), k, w) <==> |w| == k { PlainIsChars(k, w); }
    RepCounts(map[], 0, CharRule(), lo, None, w);
  }

  // ---------------------------------------------------------------- what the trie of a set of strings is

  /** The characters by which some member goes on after `p`. */
  function NextChars(members: set<string>, p: string): set<char> {
    set m | m in members && |p| < |m| && p <= m :: m[|p|]
  }

  predicate Ascending(s: string) { forall i, j :: 0 <= i < j < |s| ==> s[i] < s[j] }

  lemma LeastExists(cs: set<char>)
    requires cs != {}
    ensures exists c :: c in cs && forall d :: d in cs ==> c <= d
    decreases cs
  {
    var x :| x in cs;
    assert forall d :: d in cs <==> d == x || d in cs - {x};
    if cs - {x} != {} {
      LeastExists(cs - {x});
      var c :| c in cs - {x} && forall d :: d in cs - {x} ==> c <= d;
      var least := if c < x then c else x;
      assert least in cs && forall d :: d in cs ==> least <= d;
    }
  }

  /** The order in which std::map visits its keys. */
  function Sorted(cs: set<char>): (s: string)
    ensures Ascending(s) && forall c :: c in s <==> c in cs
  {
    if cs == {} then ""
    else
      LeastExists(cs);
      var c :| c in cs && forall d :: d in cs ==> c <= d;
      var rest := Sorted(cs - {c});
      assert forall i :: 0 <= i < |rest| ==> rest[i] in rest;
      [c] + rest
  }

  lemma {:induction false} SortedUnique(a: string, b: string)
    requires Ascending(a) && Ascending(b) && forall c :: c in a <==> c in b
    ensures a == b
  {
    if a != "" { assert a[0] in b; }
    if b != "" { assert b[0] in a; }
    if a != "" && b != "" {
      forall c ensures c in a[1..] <==> c in b[1..] {
        assert c in a <==> c == a[0] || c in a[1..];
        assert c in b <==> c == b[0] || c in b[1..];
      }
      SortedUnique(a[1..], b[1..]);
    }
  }

  /** What the negated class of an inner node excludes. */
  function Rejected(members: set<string>, p: string): set<char> {
    ClassChars("\"" + Sorted(NextChars(members, p)))
  }

  /** Some member begins with `p`. */
  ghost predicate HasExtension(members: set<string>, p: string) {
    exists m :: m in members && p <= m
  }

  function WithoutCarets(r: string): string {
    if r == "" then "" else (if r[0] == '^' then "" else [r[0]]) + WithoutCarets(r[1..])
  }

  /**
   * A walk into the trie below `p` along `r`, reading the first i characters of `s` (none for a caret), from where the
   * next character leaves the trie: behind a leaf any may follow, at an inner node one its class does not exclude.
   */
  ghost predicate LeavesAt(members: set<string>, p: string, s: string, r: string, i: nat) {
    i < |s| && HasExtension(members, p + r) && WithoutCarets(r) == s[..i] &&
    (NextChars(members, p + r) == {} || s[i] !in Rejected(members, p + r))
  }

  /** The plain keys accepted behind the path `p`. */
  ghost predicate AcceptsBehind(members: set<string>, p: string, s: string) {
    exists r: string, i: nat :: LeavesAt(members, p, s, r, i)
  }

  /** The plain keys accepted by the whole rule. */
  ghost predicate AcceptsKey(members: set<string>, s: string) {
    if NextChars(members, "") == {} then s == ""
    else (s == "" && "" !in members) || AcceptsBehind(members, "", s)
  }

  /** The key enters the alternative written for the child `c` of the node at `p`. */
  ghost predicate Enters(members: set<string>, p: string, c: char, s: string) {
    if c == '^' then AcceptsBehind(members, p + [c], s)
    else s != "" && s[0] == c && AcceptsBehind(members, p + [c], s[1..])
  }

  ghost predicate EntersSome(members: set<string>, p: string, keys: seq<char>, s: string) {
    exists c :: c in keys && Enters(members, p, c, s)
  }

  /** Some member goes on behind `p` with a closing bracket, at once or later. */
  ghost predicate Bracketed(members: set<string>, p: string) {
    exists m, k :: m in members && p <= m && |p| <= k < |m| && m[k] == ']'
  }

  // ---------------------------------------------------------------- the trie

  type Nodes = seq<map<char, nat>>

  ghost predicate Distinct(path: seq<string>) {
    forall i, j :: 0 <= i < j < |path| ==> path[i] != path[j]
  }

  ghost predicate OnMembers(path: seq<string>, members: set<string>) {
    forall n :: 0 < n < |path| ==> HasExtension(members, path[n])
  }

  ghost predicate KeysAreNext(children: Nodes, path: seq<string>, members: set<string>)
    requires |children| == |path|
  {
    forall n :: 0 <= n < |children| ==> children[n].Keys == NextChars(members, path[n])
  }

  ghost predicate IsChild(children: Nodes, path: seq<string>, n: nat, c: char)
    requires |children| == |path| && n < |children| && c in children[n]
  {
    var child := children[n][c];
    n < child < |path| && path[child] == path[n] + [c]
  }

  ghost predicate Linked(children: Nodes, path: seq<string>)
    requires |children| == |path|
  {
    forall n, c :: 0 <= n < |children| && c in children[n] ==> IsChild(children, path, n, c)
  }

  ghost predicate EndsMarked(isEnd: seq<bool>, path: seq<string>, ends: set<string>)
    requires |isEnd| == |path|
  {
    forall n :: 0 <= n < |isEnd| ==> (isEnd[n] <==> path[n] in ends)
  }

  /** The nodes of a trie, a node's children named by their indices; `path` tells where each node hangs. */
  ghost predicate IsTrie(children: Nodes, isEnd: seq<bool>, path: seq<string>, members: set<string>,
                         ends: set<string>) {
    && |children| == |isEnd| == |path| > 0 && path[0] == ""
    && Distinct(path)
    && OnMembers(path, members)
    && KeysAreNext(children, path, members)
    && Linked(children, path)
    && EndsMarked(isEnd, path, ends)
  }

  lemma OnMoreMembers(path: seq<string>, members: set<string>, more: set<string>)
    requires OnMembers(path, members)
    ensures OnMembers(path, members + more)
  {
    forall n | 0 < n < |path| ensures HasExtension(members + more, path[n]) {
      assert HasExtension(members, path[n]);
      var m :| m in members && path[n] <= m;
      assert m in members + more;
    }
  }

  lemma NextCharsGrow(members: set<string>, s: string, i: nat, p: string)
    requires i < |s| && s[..i] in members
    ensures NextChars(members + {s[..i + 1]}, p) == NextChars(members, p) + if p == s[..i] then {s[i]} else {}
  {
    var m := s[..i + 1];
    var grown := members + {m};
    forall c | c in NextChars(grown, p) ensures c in NextChars(members, p) + if p == s[..i] then {s[i]} else {} {
      var x :| x in grown && |p| < |x| && p <= x && x[|p|] == c;
      if x == m && |p| < i {
        assert p <= s[..i] && s[..i][|p|] == c;
      }
    }
    forall c | c in NextChars(members, p) ensures c in NextChars(grown, p) {
      var x :| x in members && |p| < |x| && p <= x && x[|p|] == c;
      assert x in grown;
    }
    if p == s[..i] { assert m in grown && p <= m && m[|p|] == s[i]; }
  }

  /** A character is a next one exactly when the longer path still has an extension. */
  lemma NextCharExtends(members: set<string>, p: string, c: char)
    ensures c in NextChars(members, p) <==> HasExtension(members, p + [c])
  {
    if HasExtension(members, p + [c]) {
      var m :| m in members && p + [c] <= m;
      assert m[|p|] == (p + [c])[|p|] == c;
      assert p == m[..|p|];
    }
    if c in NextChars(members, p) {
      var m :| m in members && |p| < |m| && p <= m && m[|p|] == c;
      assert p + [c] == m[..|p| + 1];
    }
  }

  lemma NextCharsOfLeaf(members: set<string>, p: string)
    ensures !HasExtension(members, p) ==> NextChars(members, p) == {}
  {
    forall c | c in NextChars(members, p) ensures HasExtension(members, p) {
      var m :| m in members && |p| < |m| && p <= m && m[|p|] == c;
    }
  }

  /** Walking down to an existing child changes only the set of strings the trie stands for. */
  lemma FollowChild(children: Nodes, isEnd: seq<bool>, path: seq<string>, members: set<string>, ends: set<string>,
                    node: nat, s: string, i: nat)
    requires IsTrie(children, isEnd, path, members, ends)
    requires node < |path| && i < |s| && path[node] == s[..i] && s[..i] in members
    requires s[i] in children[node]
    ensures IsTrie(children, isEnd, path, members + {s[..i + 1]}, ends)
  {
    var grown := members + {s[..i + 1]};
    forall n | 0 <= n < |children| ensures children[n].Keys == NextChars(grown, path[n]) {
      NextCharsGrow(members, s, i, path[n]);
      assert Distinct(path);
    }
    OnMoreMembers(path, members, {s[..i + 1]});
  }

  /** The string of the new node was on no member, so nothing comes next behind it and no node has its path. */
  lemma NewLeaf(children: Nodes, path: seq<string>, members: set<string>, node: nat, s: string, i: nat)
    requires |children| == |path| && KeysAreNext(children, path, members) && OnMembers(path, members) && path != [] &&
             path[0] == ""
    requires node < |path| && i < |s| && path[node] == s[..i] && s[i] !in children[node]
    ensures !HasExtension(members, s[..i + 1]) && s[..i + 1] !in members && s[..i + 1] !in path
    ensures NextChars(members, s[..i + 1]) == {}
  {
    var leaf := s[..i + 1];
    assert leaf == s[..i] + [s[i]];
    NextCharExtends(members, s[..i], s[i]);
    NextCharsOfLeaf(members, leaf);
    forall m | m in members ensures m != leaf {
      assert m <= m;
      assert HasExtension(members, m);
    }
    forall a | 0 <= a < |path| ensures path[a] != leaf {
      if a > 0 { assert HasExtension(members, path[a]); }
    }
  }

  lemma KeysWithChild(children: Nodes, path: seq<string>, members: set<string>, node: nat, s: string, i: nat,
                      kids: map<char, nat>)
    requires |children| == |path| && KeysAreNext(children, path, members) && Distinct(path)
    requires node < |path| && i < |s| && path[node] == s[..i] && s[..i] in members
    requires kids == children[node][s[i] := |children|] && NextChars(members, s[..i + 1]) == {}
    ensures KeysAreNext(children[node := kids] + [map[]], path + [s[..i + 1]], members + {s[..i + 1]})
  {
    var kids', path' := children[node := kids] + [map[]], path + [s[..i + 1]];
    forall n | 0 <= n < |kids'| ensures kids'[n].Keys == NextChars(members + {s[..i + 1]}, path'[n]) {
      NextCharsGrow(members, s, i, path'[n]);
      assert n < |path| && n != node ==> path[n] != path[node];
    }
  }

  lemma LinkedWithChild(children: Nodes, path: seq<string>, node: nat, c: char, kids: map<char, nat>)
    requires |children| == |path| && Linked(children, path)
    requires node < |path| && kids == children[node][c := |children|]
    ensures Linked(children[node := kids] + [map[]], path + [path[node] + [c]])
  {
    var kids', path' := children[node := kids] + [map[]], path + [path[node] + [c]];
    forall n, d | 0 <= n < |kids'| && d in kids'[n] ensures IsChild(kids', path', n, d) {
      if !(n == node && d == c) { assert IsChild(children, path, n, d); }
    }
  }

  lemma AddChild(children: Nodes, isEnd: seq<bool>, path: seq<string>, members: set<string>, ends: set<string>,
                 node: nat, s: string, i: nat, kids: map<char, nat>)
    requires IsTrie(children, isEnd, path, members, ends) && ends <= members
    requires node < |path| && i < |s| && path[node] == s[..i] && s[..i] in members
    requires s[i] !in children[node] && kids == children[node][s[i] := |children|]
    ensures IsTrie(children[node := kids] + [map[]], isEnd + [false], path + [s[..i + 1]], members + {s[..i + 1]}, ends)
  {
    hide KeysAreNext, Linked, Distinct, OnMembers, EndsMarked;
    var leaf := s[..i + 1];
    var children', path' := children[node := kids] + [map[]], path + [leaf];
    NewLeaf(children, path, members, node, s, i);
    assert KeysAreNext(children', path', members + {leaf}) by {
      KeysWithChild(children, path, members, node, s, i, kids);
    }
    assert Linked(children', path') by {
      assert leaf == path[node] + [s[i]];
      LinkedWithChild(children, path, node, s[i], kids);
    }
    assert Distinct(path') && OnMembers(path', members + {leaf}) && EndsMarked(isEnd + [false], path', ends) by {
      PathsWithLeaf(isEnd, path, members, ends, leaf);
    }
  }

  lemma PathsWithLeaf(isEnd: seq<bool>, path: seq<string>, members: set<string>, ends: set<string>, leaf: string)
    requires |isEnd| == |path| && Distinct(path) && OnMembers(path, members) && EndsMarked(isEnd, path, ends)
    requires leaf !in path && leaf !in ends
    ensures Distinct(path + [leaf]) && OnMembers(path + [leaf], members + {leaf})
    ensures EndsMarked(isEnd + [false], path + [leaf], ends)
  {
    OnMoreMembers(path, members, {leaf});
    assert leaf in members + {leaf} && leaf <= leaf;
    assert HasExtension(members + {leaf}, leaf);
  }

  /** The prefixes of a member add nothing to the characters that come next. */
  lemma PrefixesAddNothing(members: set<string>, ends: set<string>, s: string)
    requires ends + {s} <= members
    requires forall m :: m in members ==> m in ends || m <= s
    ensures forall p :: NextChars(members, p) == NextChars(ends + {s}, p)
  {
    forall p ensures NextChars(members, p) == NextChars(ends + {s}, p) {
      forall c | c in NextChars(members, p) ensures c in NextChars(ends + {s}, p) {
        var m :| m in members && |p| < |m| && p <= m && m[|p|] == c;
        assert m in ends + {s} || (p <= s && s[|p|] == c && s in ends + {s});
      }
      forall c | c in NextChars(ends + {s}, p) ensures c in NextChars(members, p) {
        var m :| m in ends + {s} && |p| < |m| && p <= m && m[|p|] == c;
        assert m in members;
      }
    }
  }

  /** Every prefix of the inserted string got its node; as ends, only the string itself is new. */
  lemma MarkEnd(children: Nodes, isEnd: seq<bool>, path: seq<string>, members: set<string>, ends: set<string>,
                node: nat, s: string)
    requires IsTrie(children, isEnd, path, members, ends)
    requires node < |path| && path[node] == s && ends + {s} <= members
    requires forall m :: m in members ==> m in ends || m <= s
    ensures IsTrie(children, isEnd[node := true], path, ends + {s}, ends + {s})
  {
    PrefixesAddNothing(members, ends, s);
    forall n | 0 < n < |path| ensures HasExtension(ends + {s}, path[n]) {
      assert HasExtension(members, path[n]);
      var m :| m in members && path[n] <= m;
      assert m in ends + {s} || path[n] <= s;
      assert s in ends + {s};
    }
    assert EndsMarked(isEnd[node := true], path, ends + {s}) by { assert Distinct(path); }
  }

  class Trie {
    var children: seq<map<char, nat>>
    var isEnd: seq<bool>
    ghost var path: seq<string>
    ghost var members: set<string>

    ghost predicate Valid()
      reads this
    {
      IsTrie(children, isEnd, path, members, members)
    }

    constructor ()
      ensures Valid() && members == {}
    {
      children, isEnd := [map[]], [false];
      path, members := [""], {};
    }

    /** `node->children[c]`: the child for the next character of `s`, created when there is none. */
    method Child(node: nat, s: string, i: nat, ghost reached: set<string>, ghost ends: set<string>) returns (child: nat)
      requires IsTrie(children, isEnd, path, reached, ends) && ends <= reached
      requires node < |path| && i < |s| && path[node] == s[..i] && s[..i] in reached
      modifies this
      ensures IsTrie(children, isEnd, path, reached + {s[..i + 1]}, ends)
      ensures child < |path| && path[child] == s[..i + 1]
    {
      var c := s[i];
      assert path[node] + [c] == s[..i + 1];
      if c !in children[node] {
        var kids: map<char, nat> := children[node][c := |children|];
        AddChild(children, isEnd, path, reached, ends, node, s, i, kids);
        children, isEnd, path := children[node := kids] + [map[]], isEnd + [false], path + [s[..i + 1]];
        child := |children| - 1;
      } else {
        FollowChild(children, isEnd, path, reached, ends, node, s, i);
        assert IsChild(children, path, node, c);
        child := children[node][c];
      }
    }

    method Insert(s: string)
      requires Valid()
      modifies this
      ensures Valid() && members == old(members) + {s}
    {
      var node: nat := 0;
      ghost var ends, reached := members, members + {""};
      StartAtRoot(children, isEnd, path, members);
      for i := 0 to |s|
        invariant IsTrie(children, isEnd, path, reached, ends)
        invariant node < |path| && path[node] == s[..i] && s[..i] in reached && ends <= reached
        invariant forall m :: m in reached ==> m in ends || m <= s
      {
        node := Child(node, s, i, reached, ends);
        reached := reached + {s[..i + 1]};
      }
      assert s[..|s|] == s;
      MarkEnd(children, isEnd, path, reached, ends, node, s);
      isEnd := isEnd[node := true];
      members := ends + {s};
    }

    /**
     * The alternative for one child: its own alternatives, or more characters behind the end of a string; none if the
     * parser cannot read it.
     */
    method Alternative(node: nat, c: char) returns (alt: Option<Gbnf>)
      requires Valid() && node < |path| && c in children[node]
      ensures alt.None? <==> c == ']' || Bracketed(members, path[node] + [c])
      ensures alt.Some? ==> IsAlternative(alt.value, members, path[node], c)
      decreases |children| - node, 0
    {
      hide AcceptsBehind, Bracketed;
      assert IsChild(children, path, node, c);
      var child := children[node][c];
      var symbol := OneCharClass(c);
      if symbol.None? { return None; }
      NextCharExtends(members, path[node], c);
      if children[child] != map[] {
        var inner := Visit(child);
        if inner.None? { return None; }
        ClassAlternative(members, path[node], c, inner.value);
        return Some(Seq(symbol.value, inner.value));
      }
      LeafIsMember(members, path[child]);
      NoBracketBehindLeaf(members, path[child]);
      var more := Rep(CharRule(), 1, None);
      LeafAccepts(members, path[child]);
      ClassAlternative(members, path[node], c, more);
      var written := symbol.value;
      if isEnd[child] { written := Seq(written, more); }
      return Some(written);
    }

    /** One alternative for each child, in key order, and the keys written down as they are met. */
    method ChildAlternatives(node: nat) returns (rejects: string, alts: Option<seq<Gbnf>>)
      requires Valid() && node < |path| && children[node] != map[]
      ensures alts.None? <==> Bracketed(members, path[node])
      ensures alts.Some? ==> rejects == Sorted(NextChars(members, path[node]))
      ensures alts.Some? ==> EntersChildren(alts.value, members, path[node], rejects)
      decreases |children| - node, 1
    {
      hide EntersChildren, NextChars, Bracketed, IsAlternative, BracketFree;
      var keys := Sorted(children[node].Keys);
      var written: seq<Gbnf> := [];
      ghost var p := path[node];
      rejects := "";
      NoChildYet(members, p);
      for k := 0 to |keys|
        invariant rejects == keys[..k]
        invariant BracketFree(members, p, keys[..k]) && EntersChildren(written, members, p, keys[..k])
      {
        rejects := rejects + [keys[k]];
        assert keys[..k + 1] == keys[..k] + [keys[k]];
        assert keys[k] in keys;
        var alt := Alternative(node, keys[k]);
        BracketFreeMore(members, p, keys, k);
        if alt.None? {
          return rejects, None;
        }
        OneMoreChild(members, p, keys, k, written, alt.value);
        written := written + [alt.value];
      }
      assert keys[..|keys|] == keys;
      AllBracketFree(members, p, keys);
      alts := Some(written);
    }

    /** The alternatives for an inner node: its children, and all other characters. */
    method Visit(node: nat) returns (g: Option<Gbnf>)
      requires Valid() && node < |path| && children[node] != map[]
      ensures g.None? <==> Bracketed(members, path[node])
      ensures g.Some? ==> IsBehind(g.value, members, path[node])
      decreases |children| - node, 2
    {
      var rejects, alts := ChildAlternatives(node);
      if alts.None? { return None; }
      OnTrie(children, isEnd, path, members, node);
      AllOthers(members, path[node], alts.value);
      var others := Seq(NoneOf(ClassChars("\"" + rejects)), Rep(CharRule(), 0, None));
      g := Some(Alternatives(alts.value + [others]));
    }
  }

  ghost predicate IsBehind(g: Gbnf, members: set<string>, p: string) {
    forall s :: IsPlain(s) ==> (Accepts(g, s) <==> AcceptsBehind(members, p, s))
  }

  ghost predicate EntersChildren(alts: seq<Gbnf>, members: set<string>, p: string, keys: string) {
    forall s :: IsPlain(s) ==> (AcceptsSome(alts, s) <==> EntersSome(members, p, keys, s))
  }

  ghost predicate IsAlternative(g: Gbnf, members: set<string>, p: string, c: char) {
    forall s :: IsPlain(s) ==> (Accepts(g, s) <==> Enters(members, p, c, s))
  }

  lemma NoKeys(m: map<char, nat>)
    ensures m.Keys == {} <==> m == map[]
  {}

  /** A node with children hangs on a member. */
  lemma OnTrie(children: Nodes, isEnd: seq<bool>, path: seq<string>, members: set<string>, node: nat)
    requires IsTrie(children, isEnd, path, members, members) && node < |path| && children[node] != map[]
    ensures HasExtension(members, path[node]) && NextChars(members, path[node]) != {}
  {
    NextCharsOfLeaf(members, path[node]);
    NoKeys(children[node]);
    assert children[node].Keys == NextChars(members, path[node]);
  }

  // ---------------------------------------------------------------- one step of a walk

  lemma WalkStep(members: set<string>, p: string, c: char, s: string, r: string, i: nat, rest: string, j: nat)
    requires r == [c] + rest && i < |s| && if c == '^' then j == i && rest != r else i > 0 && j == i - 1 && s[0] == c
    ensures LeavesAt(members, p, s, r, i) <==> LeavesAt(members, p + [c], if c == '^' then s else s[1..], rest, j)
  {
    hide HasExtension, NextChars, Rejected;
    assert p + r == p + [c] + rest;
    assert r[1..] == rest;
    if c != '^' {
      assert s[..i] == [c] + s[1..][..j];
    }
  }

  /** Either the first character leaves the trie, or it is a caret's or its own child that is entered. */
  lemma WalkUnfolds(members: set<string>, p: string, s: string)
    requires HasExtension(members, p)
    ensures AcceptsBehind(members, p, s) <==>
            || (s != "" && (NextChars(members, p) == {} || s[0] !in Rejected(members, p)))
            || exists c :: c in NextChars(members, p) && Enters(members, p, c, s)
  {
    if AcceptsBehind(members, p, s) {
      var r: string, i: nat :| LeavesAt(members, p, s, r, i);
      WalkEnters(members, p, s, r, i);
    }
    if s != "" && (NextChars(members, p) == {} || s[0] !in Rejected(members, p)) {
      assert p + "" == p && s[..0] == "";
      assert LeavesAt(members, p, s, "", 0);
    }
    if c :| c in NextChars(members, p) && Enters(members, p, c, s) { WalkFrom(members, p, c, s); }
  }

  lemma WalkEnters(members: set<string>, p: string, s: string, r: string, i: nat)
    requires LeavesAt(members, p, s, r, i)
    ensures || (s != "" && (NextChars(members, p) == {} || s[0] !in Rejected(members, p)))
            || exists c :: c in NextChars(members, p) && Enters(members, p, c, s)
  {
    if r == "" {
      assert p + r == p;
    } else {
      var c, rest := r[0], r[1..];
      var m :| m in members && p + r <= m;
      assert p + [c] == m[..|p| + 1] && m[|p|] == c;
      assert c in NextChars(members, p);
      if c != '^' { assert i > 0 && s[0] == s[..i][0] == c; }
      WalkStep(members, p, c, s, r, i, rest, if c == '^' then i else i - 1);
      assert Enters(members, p, c, s);
    }
  }

  lemma WalkFrom(members: set<string>, p: string, c: char, s: string)
    requires Enters(members, p, c, s)
    ensures AcceptsBehind(members, p, s)
  {
    if c == '^' {
      var rest: string, j: nat :| LeavesAt(members, p + [c], s, rest, j);
      WalkStep(members, p, c, s, [c] + rest, j, rest, j);
    } else {
      var rest: string, j: nat :| LeavesAt(members, p + [c], s[1..], rest, j);
      WalkStep(members, p, c, s, [c] + rest, j + 1, rest, j);
    }
  }

  /** Behind a leaf any non-empty rest is accepted. */
  lemma LeafAccepts(members: set<string>, p: string)
    requires HasExtension(members, p) && NextChars(members, p) == {}
    ensures forall s :: IsPlain(s) ==> (Accepts(Rep(CharRule(), 1, None), s) <==> AcceptsBehind(members, p, s))
  {
    hide AcceptsBehind, Accepts;
    forall s | IsPlain(s) ensures Accepts(Rep(CharRule(), 1, None), s) <==> AcceptsBehind(members, p, s) {
      WalkUnfolds(members, p, s);
      PlainChars(1, s);
    }
  }

  lemma NoBracketBehindLeaf(members: set<string>, p: string)
    ensures NextChars(members, p) == {} ==> !Bracketed(members, p)
  {
    BracketedBelow(members, p);
  }

  /** No closing bracket at or behind the children of the given keys. */
  ghost predicate BracketFree(members: set<string>, p: string, keys: string) {
    forall c :: c in keys ==> c != ']' && !Bracketed(members, p + [c])
  }

  lemma BracketFreeMore(members: set<string>, p: string, keys: string, k: nat)
    requires k < |keys| && keys[k] in NextChars(members, p) && BracketFree(members, p, keys[..k])
    ensures BracketFree(members, p, keys[..k + 1]) <==> keys[k] != ']' && !Bracketed(members, p + [keys[k]])
    ensures !BracketFree(members, p, keys[..k + 1]) ==> Bracketed(members, p)
  {
    hide Bracketed;
    BracketedBelow(members, p);
    assert keys[..k + 1] == keys[..k] + [keys[k]];
    assert keys[k] in keys[..k + 1];
  }

  lemma AllBracketFree(members: set<string>, p: string, keys: string)
    requires BracketFree(members, p, keys) && forall c :: c in keys <==> c in NextChars(members, p)
    ensures !Bracketed(members, p)
  {
    hide Bracketed;
    BracketedBelow(members, p);
  }

  lemma BracketedBelow(members: set<string>, p: string)
    ensures Bracketed(members, p) <==>
            exists c :: c in NextChars(members, p) && (c == ']' || Bracketed(members, p + [c]))
  {
    if Bracketed(members, p) {
      var m, k :| m in members && p <= m && |p| <= k < |m| && m[k] == ']';
      var c := m[|p|];
      assert c in NextChars(members, p) && p + [c] <= m;
      if k > |p| { assert Bracketed(members, p + [c]); }
    }
    if c :| c in NextChars(members, p) && (c == ']' || Bracketed(members, p + [c])) {
      if c == ']' {
        var m :| m in members && |p| < |m| && p <= m && m[|p|] == c;
        assert m[|p|] == ']';
      } else {
        var m, k :| m in members && p + [c] <= m && |p + [c]| <= k < |m| && m[k] == ']';
        assert p <= m;
      }
    }
  }

  lemma ClassAlternative(members: set<string>, p: string, c: char, g: Gbnf)
    requires OneCharClass(c).Some?
    requires forall s :: IsPlain(s) ==> (Accepts(g, s) <==> AcceptsBehind(members, p + [c], s))
    ensures IsAlternative(Seq(OneCharClass(c).value, g), members, p, c)
  {
    hide AcceptsBehind;
    forall s | IsPlain(s) ensures Accepts(Seq(OneCharClass(c).value, g), s) <==> Enters(members, p, c, s) {
      if c == '^' {
        LitThen(map[], 0, "", g, s);
        assert s[|""|..] == s;
      } else {
        assert ClassChars([c]) == {c};
        OneOfThen(map[], 0, ClassChars([c]), g, s);
        assert s != "" ==> IsPlain(s[1..]);
      }
    }
  }

  lemma OneMoreChild(members: set<string>, p: string, keys: string, k: nat, alts: seq<Gbnf>, alt: Gbnf)
    requires k < |keys| && EntersChildren(alts, members, p, keys[..k]) && IsAlternative(alt, members, p, keys[k])
    ensures EntersChildren(alts + [alt], members, p, keys[..k + 1])
  {
    hide Enters;
    forall s | IsPlain(s) ensures AcceptsSome(alts + [alt], s) <==> EntersSome(members, p, keys[..k + 1], s) {
      AcceptsSomeAppend(alts, alt, s);
      assert keys[..k + 1] == keys[..k] + [keys[k]];
      assert keys[k] in keys[..k + 1];
    }
  }

  lemma NoChildYet(members: set<string>, p: string)
    ensures EntersChildren([], members, p, []) && BracketFree(members, p, [])
  {
  }

  lemma AllOthers(members: set<string>, p: string, alts: seq<Gbnf>)
    requires HasExtension(members, p) && NextChars(members, p) != {}
    requires EntersChildren(alts, members, p, Sorted(NextChars(members, p)))
    ensures var rest := Rep(CharRule(), 0, None);
            IsBehind(Alternatives(alts + [Seq(NoneOf(Rejected(members, p)), rest)]), members, p)
  {
    hide AcceptsBehind, Enters;
    var rest := Rep(CharRule(), 0, None);
    var others := Seq(NoneOf(Rejected(members, p)), rest);
    forall s | IsPlain(s) ensures Accepts(Alternatives(alts + [others]), s) <==> AcceptsBehind(members, p, s) {
      AlternativesMeaning(map[], 0, alts + [others], s);
      AcceptsSomeAppend(alts, others, s);
      NoneOfThen(map[], 0, Rejected(members, p), rest, s);
      if s != "" { PlainChars(0, s[1..]); }
      WalkUnfolds(members, p, s);
    }
  }

  lemma LeafIsMember(members: set<string>, p: string)
    requires HasExtension(members, p)
    ensures p in members || NextChars(members, p) != {}
  {
    var m :| m in members && p <= m;
    if |p| < |m| {
      assert m[|p|] in NextChars(members, p);
    } else {
      assert m == p;
    }
  }

  /** A dash separates smaller characters from larger ones, so every range spans it. */
  ghost predicate DashInOrder(items: string) {
    forall k :: 0 <= k < |items| && items[k] == '-' ==>
      (forall j :: 0 <= j < k ==> items[j] < '-') && (forall j :: k < j < |items| ==> items[j] > '-')
  }

  lemma DashInOrderBehind(items: string, n: nat)
    requires DashInOrder(items) && n <= |items|
    ensures DashInOrder(items[n..])
  {
    var rest := items[n..];
    forall k | 0 <= k < |rest| && rest[k] == '-'
      ensures (forall j :: 0 <= j < k ==> rest[j] < '-') && (forall j :: k < j < |rest| ==> rest[j] > '-')
    {
      assert items[n + k] == '-';
      forall j | 0 <= j < |rest| ensures rest[j] == items[n + j] {}
    }
  }

  lemma {:induction false} ClassCovers(items: string)
    requires DashInOrder(items)
    ensures forall c :: c in items ==> c in ClassChars(items)
    ensures '-' !in items ==> forall c :: c in ClassChars(items) ==> c in items
    decreases |items|
  {
    if |items| >= 3 && items[1] == '-' {
      var rest := items[3..];
      DashInOrderBehind(items, 3);
      ClassCovers(rest);
      assert items == [items[0], items[1], items[2]] + rest;
      assert items[0] < '-' < items[2];
    } else if items != "" {
      var rest := items[1..];
      DashInOrderBehind(items, 1);
      ClassCovers(rest);
      hide DashInOrder;
      assert items == [items[0]] + rest;
    }
  }

  /** The quote and the node's next characters are excluded; without a dash among them, nothing else is. */
  lemma RejectedCovers(members: set<string>, p: string)
    ensures forall c :: c in NextChars(members, p) ==> c in Rejected(members, p)
    ensures '-' !in NextChars(members, p) ==> Rejected(members, p) == NextChars(members, p) + {'"'}
  {
    var sorted := Sorted(NextChars(members, p));
    ClassCovers("\"" + sorted);
    assert forall c :: c in "\"" + sorted <==> c == '"' || c in sorted;
  }

  lemma StartAtRoot(children: Nodes, isEnd: seq<bool>, path: seq<string>, members: set<string>)
    requires IsTrie(children, isEnd, path, members, members)
    ensures IsTrie(children, isEnd, path, members + {""}, members)
  {
    var all := members + {""};
    forall p ensures NextChars(all, p) == NextChars(members, p) {
      forall c | c in NextChars(members, p) ensures c in NextChars(all, p) {
        var m :| m in members && |p| < |m| && p <= m && m[|p|] == c;
        assert m in all;
      }
    }
    OnMoreMembers(path, members, {""});
  }

  // ---------------------------------------------------------------- the rule

  function ToSet(strings: seq<string>): set<string> { set i | 0 <= i < |strings| :: strings[i] }

  /** No key has a closing bracket. */
  ghost predicate Readable(members: set<string>) {
    forall m :: m in members ==> ']' !in m
  }

  /** The rule as the parser reads it; none if it cannot. */
  method NotStringsRule(strings: seq<string>) returns (g: Option<Gbnf>)
    requires forall i :: 0 <= i < |strings| ==> IsPlain(strings[i])
    ensures g.Some? <==> Readable(ToSet(strings))
    ensures g.Some? ==>
              forall s :: IsPlain(s) ==> (Accepts(g.value, "\"" + s + "\"") <==> AcceptsKey(ToSet(strings), s))
  {
    hide AcceptsBehind;
    var trie := new Trie();
    for i := 0 to |strings|
      invariant fresh(trie) && trie.Valid() && trie.members == ToSet(strings[..i])
    {
      trie.Insert(strings[i]);
      assert strings[..i + 1] == strings[..i] + [strings[i]];
      assert ToSet(strings[..i + 1]) == ToSet(strings[..i]) + {strings[i]};
    }
    assert strings[..|strings|] == strings;
    BracketedAtRoot(trie.members);
    var body := Lit("");
    if trie.children[0] != map[] {
      var visited := trie.Visit(0);
      if visited.None? { return None; }
      body := visited.value;
    }
    ghost var inner := body;
    if !trie.isEnd[0] {
      body := Opt(body);
    }
    var rule := Seq(OneOf({'"'}), Seq(body, OneOf({'"'})));
    forall s | IsPlain(s) ensures Accepts(rule, "\"" + s + "\"") <==> AcceptsKey(trie.members, s) {
      Quoted(body, s);
      OptMeaning(map[], 0, inner, s);
      NothingWalked(trie.members, s);
    }
    g := Some(rule);
  }

  lemma NothingWalked(members: set<string>, s: string)
    ensures AcceptsBehind(members, "", s) ==> s != ""
  {}

  lemma BracketedAtRoot(members: set<string>)
    ensures Bracketed(members, "") <==> !Readable(members)
    ensures NextChars(members, "") == {} ==> Readable(members)
  {
    if m :| m in members && ']' in m {
      var k :| 0 <= k < |m| && m[k] == ']';
      assert "" <= m && |""| <= k < |m|;
      assert m[|""|] in NextChars(members, "");
    }
    if Bracketed(members, "") {
      var m, k :| m in members && "" <= m && |""| <= k < |m| && m[k] == ']';
      assert ']' in m;
    }
  }

  lemma Quoted(body: Gbnf, s: string)
    ensures Accepts(Seq(OneOf({'"'}), Seq(body, OneOf({'"'}))), "\"" + s + "\"") <==> Accepts(body, s)
  {
    var w := "\"" + s + "\"";
    OneOfThen(map[], 0, {'"'}, Seq(body, OneOf({'"'})), w);
    assert w[1..] == s + "\"";
    ThenOneOf(map[], 0, body, {'"'}, w[1..]);
    assert w[1..][..|w[1..]| - 1] == s;
  }
}
