/** Which keys the rule for "none of these strings" accepts (common/json-schema-to-grammar.cpp, _not_strings). */
module ForbiddenKeys {
  import opened NotStrings

  /** At the inner node `p` the ranges written into the negated class exclude `c`, though no member goes on with it. */
  ghost predicate Overreach(members: set<string>, p: string, c: char) {
    NextChars(members, p) != {} && c !in NextChars(members, p) && c in Rejected(members, p)
  }

  ghost predicate Overreached(members: set<string>, s: string) {
    exists i :: 0 <= i < |s| && Overreach(members, s[..i], s[i])
  }

  ghost predicate NoCarets(members: set<string>) {
    forall m :: m in members ==> '^' !in m
  }

  // ---------------------------------------------------------------- strings without their carets

  function Carets(n: nat): string {
    seq(n, _ => '^')
  }

  lemma {:induction false} WithoutCaretsOfConcat(a: string, b: string)
    ensures WithoutCarets(a + b) == WithoutCarets(a) + WithoutCarets(b)
    decreases |a|
  {
    if a == "" {
      assert a + b == b;
    } else {
      assert (a + b)[1..] == a[1..] + b;
      WithoutCaretsOfConcat(a[1..], b);
    }
  }

  lemma {:induction false} NothingToDrop(r: string)
    ensures '^' !in r ==> WithoutCarets(r) == r
    ensures '^' !in WithoutCarets(r)
  {
    if r != "" {
      NothingToDrop(r[1..]);
      assert r == [r[0]] + r[1..];
    }
  }

  lemma {:induction false} AllDropped(r: string)
    ensures WithoutCarets(r) == "" <==> r == Carets(|r|)
  {
    if r != "" {
      AllDropped(r[1..]);
      assert Carets(|r|) == ['^'] + Carets(|r| - 1);
      assert r == [r[0]] + r[1..];
      assert r == Carets(|r|) ==> r[1..] == Carets(|r|)[1..] == Carets(|r| - 1);
    }
  }

  // ---------------------------------------------------------------- walks in the trie

  /** A prefix of a path is a path, and goes on with the path's next character. */
  lemma PathPrefix(members: set<string>, r: string, i: nat)
    requires HasExtension(members, r) && i <= |r|
    ensures HasExtension(members, r[..i])
    ensures i < |r| ==> r[i] in NextChars(members, r[..i]) && r[i] in Rejected(members, r[..i])
  {
    var m :| m in members && r <= m;
    assert r[..i] == m[..i];
    if i < |r| {
      assert m[|r[..i]|] == r[i];
      RejectedCovers(members, r[..i]);
    }
  }

  lemma RootHasPath(members: set<string>)
    ensures NextChars(members, "") != {} ==> HasExtension(members, "")
    ensures members <= {""} || NextChars(members, "") != {}
  {
    NextCharsOfLeaf(members, "");
    if m :| m in members && m != "" {
      assert "" <= m && m[|""|] in NextChars(members, "");
    }
  }

  /** Where a key that is no path leaves the trie. */
  lemma {:induction false} LastOnPath(members: set<string>, s: string, k: nat) returns (i: nat)
    requires k <= |s| && HasExtension(members, s[..k]) && !HasExtension(members, s)
    ensures i < |s| && HasExtension(members, s[..i]) && s[i] !in NextChars(members, s[..i])
    decreases |s| - k
  {
    assert s[..|s|] == s;
    if s[k] in NextChars(members, s[..k]) {
      NextCharExtends(members, s[..k], s[k]);
      assert s[..k + 1] == s[..k] + [s[k]];
      i := LastOnPath(members, s, k + 1);
    } else {
      i := k;
    }
  }

  lemma PathHasNoCaret(members: set<string>, r: string)
    requires NoCarets(members) && HasExtension(members, r)
    ensures '^' !in r && WithoutCarets(r) == r
  {
    var m :| m in members && r <= m;
    forall k | 0 <= k < |r| ensures r[k] != '^' {
      assert r[k] == m[k];
      assert m[k] in m;
    }
    NothingToDrop(r);
  }

  /** Without carets a key leaves the trie at most where its own prefix does. */
  lemma WithoutCaret(members: set<string>, s: string)
    requires NoCarets(members) && NextChars(members, "") != {}
    ensures AcceptsBehind(members, "", s) <==> s != "" && !HasExtension(members, s) && !Overreached(members, s)
  {
    if AcceptsBehind(members, "", s) {
      var r: string, i: nat :| LeavesAt(members, "", s, r, i);
      LeavesOnPrefix(members, s, r, i);
    }
    if s != "" && !HasExtension(members, s) && !Overreached(members, s) {
      RootHasPath(members);
      assert s[..0] == "";
      var i := LastOnPath(members, s, 0);
      PathHasNoCaret(members, s[..i]);
      assert "" + s[..i] == s[..i];
      assert !Overreach(members, s[..i], s[i]);
      assert LeavesAt(members, "", s, s[..i], i);
    }
  }

  lemma LeavesOnPrefix(members: set<string>, s: string, r: string, i: nat)
    requires NoCarets(members) && LeavesAt(members, "", s, r, i)
    ensures s != "" && !HasExtension(members, s) && !Overreached(members, s)
  {
    hide HasExtension, NextChars, Rejected, WithoutCarets, NoCarets;
    assert "" + r == r;
    PathHasNoCaret(members, r);
    if HasExtension(members, s) { PathPrefix(members, s, i); }
    forall j | 0 <= j < |s| ensures !Overreach(members, s[..j], s[j]) {
      if j < i {
        PathPrefix(members, r, j);
        assert r[..j] == s[..j] && r[j] == s[j];
      } else if j > i && NextChars(members, s[..j]) != {} {
        assert s[..j][..i] == s[..i] && s[..j][i] == s[i];
        NextCharsOfLeaf(members, s[..j]);
        PathPrefix(members, s[..j], i);
      }
    }
  }

  /**
   * With a non-empty forbidden string: a non-empty key is accepted exactly when some walk in the trie, skipping carets,
   * reads a part of it and the next character leaves the trie there. Without carets these are the keys that prefix no
   * forbidden string, save for the ones lost to an overreaching class.
   */
  lemma KeyCharacterised(members: set<string>, s: string)
    requires NextChars(members, "") != {}
    ensures AcceptsKey(members, s) <==>
            if s == "" then "" !in members
            else exists r: string, i: nat ::
                   i < |s| && HasExtension(members, r) && WithoutCarets(r) == s[..i] &&
                   (NextChars(members, r) == {} || s[i] !in Rejected(members, r))
    ensures NoCarets(members) ==>
              (AcceptsKey(members, s) <==>
               if s == "" then "" !in members else !HasExtension(members, s) && !Overreached(members, s))
  {
    NothingWalked(members, s);
    forall r: string, i: nat
      ensures LeavesAt(members, "", s, r, i) <==>
              i < |s| && HasExtension(members, r) && WithoutCarets(r) == s[..i] &&
              (NextChars(members, r) == {} || s[i] !in Rejected(members, r)) {
      assert "" + r == r;
    }
    if NoCarets(members) { WithoutCaret(members, s); }
  }

  // ---------------------------------------------------------------- forbidden strings are rejected

  /**
   * Where a walk that has skipped a caret reads a part of a forbidden string, the class written there excludes the
   * string's next character.
   */
  ghost predicate CaretsHarmless(members: set<string>) {
    forall m, r, i: nat :: m in members && i < |m| && SkipsTo(members, m, r, i) ==>
      NextChars(members, r) != {} && m[i] in Rejected(members, r)
  }

  ghost predicate SkipsTo(members: set<string>, m: string, r: string, i: nat)
    requires i < |m|
  {
    HasExtension(members, r) && '^' in r && WithoutCarets(r) == m[..i]
  }

  /** No forbidden string is ever accepted, unless the empty string is the only one or a skipped caret lets one in. */
  lemma MembersRejected(members: set<string>)
    ensures (forall m :: m in members ==> !AcceptsKey(members, m)) <==> members != {""} && CaretsHarmless(members)
  {
    RootHasPath(members);
    if members != {""} && CaretsHarmless(members) {
      forall m | m in members ensures !AcceptsKey(members, m) { MemberRejected(members, m); }
    }
    if forall m :: m in members ==> !AcceptsKey(members, m) {
      assert members == {""} ==> !AcceptsKey(members, "");
      forall m, r, i: nat | m in members && i < |m| && SkipsTo(members, m, r, i)
        ensures NextChars(members, r) != {} && m[i] in Rejected(members, r) {
        PathPrefix(members, r, 0);
        assert "" + r == r && r[..0] == "";
        assert !LeavesAt(members, "", m, r, i);
      }
    }
  }

  lemma MemberRejected(members: set<string>, m: string)
    requires m in members && members != {""} && CaretsHarmless(members)
    ensures !AcceptsKey(members, m)
  {
    RootHasPath(members);
    assert m <= m;
    forall r: string, i: nat ensures !LeavesAt(members, "", m, r, i) {
      assert "" + r == r;
      if i < |m| && HasExtension(members, r) && WithoutCarets(r) == m[..i] {
        if '^' in r {
          assert SkipsTo(members, m, r, i);
        } else {
          NothingToDrop(r);
          assert HasExtension(members, m);
          PathPrefix(members, m, i);
        }
      }
    }
  }

  // ---------------------------------------------------------------- runs of carets

  lemma LongestExists(members: set<string>) returns (bound: nat)
    ensures forall m :: m in members ==> |m| <= bound
  {
    bound := 0;
    if members != {} {
      var m :| m in members;
      var rest := LongestExists(members - {m});
      bound := if |m| > rest then |m| else rest;
      forall x | x in members ensures |x| <= bound { assert x == m || x in members - {m}; }
    }
  }

  /** Carets can be added to a path until no member goes on with one. */
  lemma {:induction false} CaretRun(members: set<string>, q: string, bound: nat) returns (e: string, n: nat)
    requires HasExtension(members, q) && forall m :: m in members ==> |m| <= bound
    ensures e == q + Carets(n) && HasExtension(members, e) && '^' !in NextChars(members, e)
    ensures WithoutCarets(e) == WithoutCarets(q)
    decreases bound - |q|
  {
    if '^' in NextChars(members, q) {
      NextCharExtends(members, q, '^');
      var m :| m in members && q + "^" <= m;
      e, n := CaretRun(members, q + "^", bound);
      n := n + 1;
      assert "^" + Carets(n - 1) == Carets(n);
      assert q + "^" + Carets(n - 1) == q + Carets(n);
      WithoutCaretsOfConcat(q, "^");
      assert WithoutCarets("^") == "";
    } else {
      e, n := q, 0;
      assert q + Carets(0) == q;
    }
  }

  /** Up to a caret of a member, and on to the end of the run of carets there. */
  lemma CaretReached(members: set<string>, m: string, k: nat) returns (e: string, n: nat)
    requires m in members && k < |m| && m[k] == '^' && '^' !in m[..k]
    ensures e == m[..k] + Carets(n) && n > 0 && HasExtension(members, e) && '^' !in NextChars(members, e)
    ensures '^' in e && WithoutCarets(e) == m[..k]
  {
    var bound := LongestExists(members);
    var q := m[..k + 1];
    assert q == m[..k] + "^" && q <= m;
    e, n := CaretRun(members, q, bound);
    n := n + 1;
    assert "^" + Carets(n - 1) == Carets(n);
    assert m[..k] + "^" + Carets(n - 1) == m[..k] + Carets(n);
    WithoutCaretsOfConcat(m[..k], "^");
    assert WithoutCarets("^") == "";
    NothingToDrop(m[..k]);
    assert e[k] == '^';
  }

  lemma {:induction false} FirstCaret(m: string, k: nat) returns (j: nat)
    requires k < |m| && m[k] == '^'
    ensures j <= k && m[j] == '^' && '^' !in m[..j]
    decreases k
  {
    if '^' in m[..k] {
      var i :| 0 <= i < k && m[..k][i] == '^';
      j := FirstCaret(m, i);
    } else {
      j := k;
    }
  }

  /** Without dashes nothing but the absence of carets keeps the forbidden strings out. */
  lemma CaretsDecide(members: set<string>)
    requires forall m :: m in members ==> '-' !in m
    ensures (forall m :: m in members ==> !AcceptsKey(members, m)) <==> members != {""} && NoCarets(members)
  {
    MembersRejected(members);
    if NoCarets(members) {
      forall m, r, i: nat | m in members && i < |m| && SkipsTo(members, m, r, i) ensures false {
        PathHasNoCaret(members, r);
      }
    } else {
      var m :| m in members && '^' in m;
      var at :| 0 <= at < |m| && m[at] == '^';
      var k := FirstCaret(m, at);
      var e, n := CaretReached(members, m, k);
      NoDashNext(members, e);
      RejectedCovers(members, e);
      assert SkipsTo(members, m, e, k);
    }
  }

  lemma NoDashNext(members: set<string>, p: string)
    requires forall m :: m in members ==> '-' !in m
    ensures '-' !in NextChars(members, p)
  {}

  /** The shortest failing input: forbidding the caret lets the caret in, and everything else but the empty key. */
  lemma CaretAccepted(s: string)
    ensures AcceptsKey({"^"}, s)
  {
    var members := {"^"};
    assert "^" in members && |""| < |"^"| && "" <= "^" && "^"[|""|] == '^';
    assert '^' in NextChars(members, "");
    assert NextChars(members, "^") == {};
    if s != "" {
      assert "^" <= "^" && "" + "^" == "^";
      assert WithoutCarets("^") == "" == s[..0];
      assert LeavesAt(members, "", s, "^", 0);
    }
  }

  // ---------------------------------------------------------------- the documented promise

  ghost predicate PrefixesForbidden(members: set<string>) {
    forall m, k :: m in members && 0 < k < |m| ==> m[..k] in members
  }

  /** Every negated class can be read, and excludes nothing but the characters by which members go on. */
  ghost predicate ClassesExact(members: set<string>) {
    Readable(members) &&
    forall m, k, c :: m in members && 0 <= k < |m| && IsPlainChar(c) && c in Rejected(members, m[..k]) ==>
      c in NextChars(members, m[..k])
  }

  /** The rule can be read, and accepts every plain key but the given strings. */
  ghost predicate KeepsPromise(members: set<string>) {
    Readable(members) && forall s :: IsPlain(s) ==> (AcceptsKey(members, s) <==> s !in members)
  }

  /**
   * The documented promise, a rule for every string but the given ones, holds exactly for sets that are not trivial,
   * have neither a caret nor a closing bracket, contain the prefixes of their members, and whose classes hold no
   * accidental range.
   */
  lemma DocumentedPromise(members: set<string>)
    requires forall m :: m in members ==> IsPlain(m)
    ensures KeepsPromise(members) <==>
            (exists m :: m in members && m != "") && NoCarets(members) &&
            PrefixesForbidden(members) && ClassesExact(members)
  {
    RootHasPath(members);
    if NextChars(members, "") == {} {
      assert IsPlain("a") && !AcceptsKey(members, "a") && "a" !in members;
    } else {
      var c :| c in NextChars(members, "");
      var m :| m in members && |""| < |m| && "" <= m && m[|""|] == c;
      assert m != "";
      if !NoCarets(members) {
        PromiseLostToCaret(members);
      } else if PrefixesForbidden(members) && ClassesExact(members) {
        forall s | IsPlain(s) ensures AcceptsKey(members, s) <==> s !in members { PromiseKept(members, s); }
      } else if Readable(members) {
        var s := PromiseBroken(members);
      }
    }
  }

  // With a caret among the members.

  ghost predicate CaretAt(members: set<string>, m: string, k: nat) {
    m in members && k < |m| && m[k] == '^'
  }

  /** The first place at which any member has a caret. */
  lemma {:induction false} EarliestCaret(members: set<string>, m: string, k: nat) returns (e: string, j: nat)
    requires CaretAt(members, m, k)
    ensures CaretAt(members, e, j) && forall x, i: nat :: CaretAt(members, x, i) ==> j <= i
    decreases k
  {
    if x, i: nat :| CaretAt(members, x, i) && i < k {
      e, j := EarliestCaret(members, x, i);
    } else {
      e, j := m, k;
    }
  }

  /** A path has no caret in front of the earliest one. */
  lemma PathBeforeCaret(members: set<string>, r: string, k: nat)
    requires HasExtension(members, r) && forall x, i: nat :: CaretAt(members, x, i) ==> k <= i
    ensures forall i :: 0 <= i < |r| && i < k ==> r[i] != '^'
  {
    var m :| m in members && r <= m;
    forall i: nat | i < |r| && i < k ensures r[i] != '^' {
      assert r[i] == m[i];
      assert CaretAt(members, m, i) ==> k <= i;
    }
  }

  /** A path is what it keeps in front of the earliest caret, and what comes behind. */
  lemma PathSplits(members: set<string>, r: string, k: nat) returns (front: string, back: string)
    requires HasExtension(members, r) && forall x, j: nat :: CaretAt(members, x, j) ==> k <= j
    ensures r == front + back && |front| <= k && (|front| < k ==> back == "")
    ensures WithoutCarets(r) == front + WithoutCarets(back) && '^' !in WithoutCarets(back)
  {
    PathBeforeCaret(members, r, k);
    var at := if |r| < k then |r| else k;
    front, back := r[..at], r[at..];
    assert r == front + back;
    WithoutCaretsOfConcat(front, back);
    NothingToDrop(front);
    NothingToDrop(back);
  }

  /** What a walk has read of a string p ^ ^ ... when it stops, the earliest caret being behind p. */
  lemma WalkToCaret(members: set<string>, p: string, n: nat, r: string, i: nat)
    requires HasExtension(members, r) && '^' !in p && forall x, j: nat :: CaretAt(members, x, j) ==> |p| <= j
    requires i <= |p| + n && WithoutCarets(r) == (p + Carets(n))[..i]
    ensures i <= |p|
    ensures i < |p| ==> r == p[..i]
    ensures i == |p| ==> |r| >= |p| && r == p + Carets(|r| - |p|)
  {
    var key := p + Carets(n);
    NothingToDrop(r);
    CaretBehind(p, n, i);
    assert key[..i] == p[..i];
    var front, back := PathSplits(members, r, |p|);
    if back == "" {
      assert front == p[..i] && r == front;
      if i == |p| { assert r == p && p + Carets(0) == p; }
    } else {
      FullFront(p, i, front, WithoutCarets(back));
      AllDropped(back);
    }
  }

  lemma CaretBehind(p: string, n: nat, i: nat)
    requires i <= |p| + n
    ensures i > |p| ==> '^' in (p + Carets(n))[..i]
  {
    var key := p + Carets(n);
    assert i > |p| ==> key[..i][|p|] == '^';
  }

  lemma FullFront(p: string, i: nat, front: string, rest: string)
    requires i <= |p| && |front| == |p| && front + rest == p[..i]
    ensures i == |p| && front == p && rest == ""
  {
    assert |front| + |rest| == i;
    assert front == front + rest;
  }

  lemma PromiseLostToCaret(members: set<string>)
    requires !NoCarets(members) && forall m :: m in members ==> IsPlain(m)
    ensures !KeepsPromise(members)
  {
    hide KeepsPromise, Rejected, NextChars, LeavesAt, WithoutCarets;
    var m0 :| m0 in members && '^' in m0;
    var k0 :| 0 <= k0 < |m0| && m0[k0] == '^';
    var m, k := EarliestCaret(members, m0, k0);
    CaretFreeBefore(members, m, k);
    var e, n := CaretReached(members, m, k);
    if LeavesAt(members, "", m, e, k) {
      MemberAccepted(members, m, e, k);
    } else {
      NotLeaving(members, m, e, k);
      KeyLost(members, m[..k], e, n);
    }
  }

  lemma CaretFreeBefore(members: set<string>, m: string, k: nat)
    requires CaretAt(members, m, k) && forall x, i: nat :: CaretAt(members, x, i) ==> k <= i
    ensures '^' !in m[..k]
  {
    assert m[..k] <= m;
    PathBeforeCaret(members, m[..k], k);
  }

  lemma NotLeaving(members: set<string>, m: string, e: string, k: nat)
    requires k < |m| && HasExtension(members, e) && WithoutCarets(e) == m[..k] && !LeavesAt(members, "", m, e, k)
    ensures NextChars(members, e) != {} && m[k] in Rejected(members, e)
  {
    assert "" + e == e;
  }

  lemma MemberAccepted(members: set<string>, m: string, e: string, k: nat)
    requires m in members && IsPlain(m) && LeavesAt(members, "", m, e, k)
    ensures !KeepsPromise(members)
  {
    RootHasPath(members);
    assert AcceptsKey(members, m);
  }

  /** One caret more than the run has: no member, but not accepted either. */
  lemma KeyLost(members: set<string>, p: string, e: string, n: nat)
    requires e == p + Carets(n) && HasExtension(members, e) && '^' !in p && IsPlain(p)
    requires NextChars(members, e) != {} && '^' !in NextChars(members, e) && '^' in Rejected(members, e)
    requires forall x, j: nat :: CaretAt(members, x, j) ==> |p| <= j
    ensures !KeepsPromise(members)
  {
    var key := p + Carets(n + 1);
    assert key == e + "^";
    NextCharExtends(members, e, '^');
    assert key in members ==> key <= key && HasExtension(members, key);
    forall r: string, i: nat ensures !LeavesAt(members, "", key, r, i) { NoWayOut(members, p, e, n, r, i); }
    RootHasPath(members);
    PathPrefix(members, e, 0);
    assert key != "" && !AcceptsKey(members, key) && IsPlain(key);
  }

  lemma NoWayOut(members: set<string>, p: string, e: string, n: nat, r: string, i: nat)
    requires e == p + Carets(n) && HasExtension(members, e) && '^' !in p
    requires NextChars(members, e) != {} && '^' !in NextChars(members, e) && '^' in Rejected(members, e)
    requires forall x, j: nat :: CaretAt(members, x, j) ==> |p| <= j
    ensures !LeavesAt(members, "", p + Carets(n + 1), r, i)
  {
    hide HasExtension, NextChars, Rejected, WithoutCarets;
    var key := p + Carets(n + 1);
    assert "" + r == r;
    if i < |key| && HasExtension(members, r) && WithoutCarets(r) == key[..i] {
      WalkToCaret(members, p, n + 1, r, i);
      if |r| < |e| {
        PathPrefix(members, e, |r|);
        assert e[..|r|] == r && e[|r|] == key[i];
      } else {
        var t := |r| - |p|;
        if t > n {
          assert r[..|e|] == e && r[|e|] == '^';
          PathPrefix(members, r, |e|);
        } else {
          assert r == e && key[i] == '^';
        }
      }
    }
  }

  lemma PromiseKept(members: set<string>, s: string)
    requires NextChars(members, "") != {} && NoCarets(members)
    requires PrefixesForbidden(members) && ClassesExact(members) && IsPlain(s)
    ensures AcceptsKey(members, s) <==> s !in members
  {
    KeyCharacterised(members, s);
    assert s <= s;
    if HasExtension(members, s) && s != "" { ExtendedIsMember(members, s); }
    NeverOverreached(members, s);
  }

  lemma ExtendedIsMember(members: set<string>, s: string)
    requires PrefixesForbidden(members) && HasExtension(members, s) && s != ""
    ensures s in members
  {
    var m :| m in members && s <= m;
    assert s == m[..|s|];
    assert |s| < |m| ==> m[..|s|] in members;
    assert |s| == |m| ==> s == m;
  }

  lemma NeverOverreached(members: set<string>, s: string)
    requires ClassesExact(members) && IsPlain(s)
    ensures !Overreached(members, s)
  {
    forall i | 0 <= i < |s| ensures !Overreach(members, s[..i], s[i]) {
      var p := s[..i];
      if NextChars(members, p) != {} {
        var d :| d in NextChars(members, p);
        var m :| m in members && |p| < |m| && p <= m && m[|p|] == d;
        assert p == m[..i];
      }
    }
  }

  lemma PromiseBroken(members: set<string>) returns (s: string)
    requires (forall m :: m in members ==> IsPlain(m)) && Readable(members) && NoCarets(members)
    requires NextChars(members, "") != {} && !(PrefixesForbidden(members) && ClassesExact(members))
    ensures IsPlain(s) && !AcceptsKey(members, s) && s !in members
  {
    if !PrefixesForbidden(members) {
      var m, k :| m in members && 0 < k < |m| && m[..k] !in members;
      s := m[..k];
      assert s <= m;
      KeyCharacterised(members, s);
    } else {
      var m, k, c :| m in members && 0 <= k < |m| && IsPlainChar(c) && c in Rejected(members, m[..k]) &&
          c !in NextChars(members, m[..k]);
      s := m[..k] + [c];
      LostToClass(members, m, k, c);
    }
  }

  lemma LostToClass(members: set<string>, m: string, k: nat, c: char)
    requires m in members && k < |m| && c in Rejected(members, m[..k]) && c !in NextChars(members, m[..k])
    requires NextChars(members, "") != {} && NoCarets(members)
    ensures !AcceptsKey(members, m[..k] + [c]) && m[..k] + [c] !in members
  {
    var p := m[..k];
    var s := p + [c];
    assert p <= m && m[|p|] in NextChars(members, p);
    NextCharExtends(members, p, c);
    assert s[..k] == p && s[k] == c;
    assert Overreach(members, s[..k], s[k]);
    KeyCharacterised(members, s);
    assert s <= s;
  }

  /** Without a dash in any forbidden string the classes are exact, unless a closing bracket ends one early. */
  lemma DashFreeClassesExact(members: set<string>)
    requires forall m :: m in members ==> '-' !in m
    ensures ClassesExact(members) <==> Readable(members)
  {
    forall m, k, c | m in members && 0 <= k < |m| && IsPlainChar(c) && c in Rejected(members, m[..k])
      ensures c in NextChars(members, m[..k])
    {
      RejectedCovers(members, m[..k]);
    }
  }

  /** The code's own example: "an" is neither "and" nor "also", yet it is not accepted. */
  lemma ProperPrefixLost()
    ensures !AcceptsKey({"and", "also"}, "an")
  {
    var members := {"and", "also"};
    assert "and" in members && |""| < |"and"| && "" <= "and" && "and"[|""|] == 'a';
    assert 'a' in NextChars(members, "");
    KeyCharacterised(members, "an");
    assert "an" <= "and";
  }

  /** Forbidding "-" and "a" writes the range from the quote to the letter, which keeps "B" out. */
  lemma DashRangeLost()
    ensures !AcceptsKey({"-", "a"}, "B")
  {
    hide Rejected, NextChars, AcceptsKey, HasExtension;
    DashAndLetter();
    assert "B"[..0] == "";
    assert Overreach({"-", "a"}, "B"[..0], "B"[0]);
    KeyCharacterised({"-", "a"}, "B");
  }

  lemma DashAndLetter()
    ensures NextChars({"-", "a"}, "") == {'-', 'a'} && 'B' in Rejected({"-", "a"}, "")
  {
    var members := {"-", "a"};
    assert "-" <= "-" && "a" <= "a";
    assert forall c :: c in NextChars(members, "") <==> c == '-' || c == 'a' by {
      assert "-"[|""|] in NextChars(members, "") && "a"[|""|] in NextChars(members, "");
    }
    var sorted := Sorted(NextChars(members, ""));
    SortedUnique(sorted, "-a");
    assert "\"" + sorted == "\"-a";
    assert 'B' in ClassChars("\"-a");
  }
}
