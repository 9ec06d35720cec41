/** Bounded and separated repetitions (common/json-schema-to-grammar.cpp, build_repetition). */
module Repetition {
  import opened Grammars
  import opened Wrappers

  /** `item{lo,hi}` as the grammar parser reads it, which refuses a negative bound (src/llama-grammar.cpp:472-500). */
  function Braces<T>(item: Grammar<T>, lo: int, hi: Option<int>): Option<Grammar<T>> {
    if lo < 0 || (hi.Some? && hi.value < 0) then None else Some(Rep(item, lo, hi))
  }

  /**
   * Without a separator every form is a `{m,n}`; with one, the first item stands before the repeated pairs. None if the
   * text that is written is one the parser refuses.
   */
  function BuildRepetition<T>(item: Grammar<T>, minItems: int, maxItems: Option<int>,
                              separator: Option<Grammar<T>>): Option<Grammar<T>>
    decreases separator.Some?
  {
    if minItems == 0 && maxItems == Some(1) then Some(Opt(item))
    else if separator.None? then Braces(item, minItems, maxItems)
    else
      var atLeast := if minItems == 0 then 0 else minItems - 1;
      match BuildRepetition(Seq(separator.value, item), atLeast, Fewer(maxItems), None)
      case None => None
      case Some(more) => Some(if minItems == 0 then Opt(Seq(item, more)) else Seq(item, more))
  }

  function Fewer(maxItems: Option<int>): Option<int> { if maxItems.Some? then Some(maxItems.value - 1) else None }

  /** A separator and the item behind it. */
  datatype Pair<T> = Pair(separator: seq<T>, item: seq<T>)

  function Text<T>(pairs: seq<Pair<T>>): seq<T> {
    if pairs == [] then [] else (pairs[0].separator + pairs[0].item) + Text(pairs[1..])
  }

  ghost predicate ArePairs<T(!new)>(rules: Rules<T>, depth: nat, item: Grammar<T>, separator: Grammar<T>,
                             pairs: seq<Pair<T>>) {
    forall j :: 0 <= j < |pairs| ==>
      Derives(rules, depth, separator, pairs[j].separator) && Derives(rules, depth, item, pairs[j].item)
  }

  /** A list of n items with a separator between neighbours and nowhere else. */
  ghost predicate IsListOf<T(!new)>(rules: Rules<T>, depth: nat, item: Grammar<T>, separator: Grammar<T>, n: nat,
                             w: seq<T>) {
    if n == 0 then w == []
    else exists head, pairs :: Derives(rules, depth, item, head) && ArePairs(rules, depth, item, separator, pairs)
                               && |pairs| == n - 1 && w == head + Text(pairs)
  }

  lemma {:induction false} PairsDerived<T(!new)>(rules: Rules<T>, depth: nat, item: Grammar<T>, separator: Grammar<T>,
                                          pairs: seq<Pair<T>>)
    requires ArePairs(rules, depth, item, separator, pairs)
    ensures DerivesTimes(rules, depth, Seq(separator, item), |pairs|, Text(pairs))
  {
    if pairs != [] {
      PairsDerived(rules, depth, item, separator, pairs[1..]);
      SeqOf(rules, depth, separator, item, pairs[0].separator, pairs[0].item);
      TimesOf(rules, depth, Seq(separator, item), |pairs| - 1, pairs[0].separator + pairs[0].item, Text(pairs[1..]));
    }
  }

  lemma {:induction false} DerivedPairs<T(!new)>(rules: Rules<T>, depth: nat, item: Grammar<T>, separator: Grammar<T>,
                                          k: nat, w: seq<T>)
    returns (pairs: seq<Pair<T>>)
    requires DerivesTimes(rules, depth, Seq(separator, item), k, w)
    ensures ArePairs(rules, depth, item, separator, pairs) && |pairs| == k && w == Text(pairs)
    decreases k
  {
    if k == 0 {
      pairs := [];
    } else {
      var u, v := TimesSplit(rules, depth, Seq(separator, item), k, w);
      var rest := DerivedPairs(rules, depth, item, separator, k - 1, v);
      var x, y := SeqSplit(rules, depth, separator, item, u);
      pairs := [Pair(x, y)] + rest;
      assert pairs[1..] == rest;
    }
  }

  lemma NoPairs<T>(pairs: seq<Pair<T>>, head: seq<T>)
    requires |pairs| == 0
    ensures head + Text(pairs) == head
  {}

  lemma SingleItem<T(!new)>(rules: Rules<T>, depth: nat, item: Grammar<T>, separator: Grammar<T>, w: seq<T>)
    ensures IsListOf(rules, depth, item, separator, 1, w) <==> Derives(rules, depth, item, w)
  {
    hide Derives, Text, ArePairs, IsListOf;
    if Derives(rules, depth, item, w) { ItemIsList(rules, depth, item, separator, w); }
    if IsListOf(rules, depth, item, separator, 1, w) { ListIsItem(rules, depth, item, separator, w); }
  }

  lemma ItemIsList<T(!new)>(rules: Rules<T>, depth: nat, item: Grammar<T>, separator: Grammar<T>, w: seq<T>)
    requires Derives(rules, depth, item, w)
    ensures IsListOf(rules, depth, item, separator, 1, w)
  {
    hide Derives, Text;
    NoPairs<T>([], w);
    assert ArePairs(rules, depth, item, separator, []);
  }

  lemma ListIsItem<T(!new)>(rules: Rules<T>, depth: nat, item: Grammar<T>, separator: Grammar<T>, w: seq<T>)
    requires IsListOf(rules, depth, item, separator, 1, w)
    ensures Derives(rules, depth, item, w)
  {
    hide Derives, Text, ArePairs;
    var head, pairs :| Derives(rules, depth, item, head) && ArePairs(rules, depth, item, separator, pairs)
                       && |pairs| == 0 && w == head + Text(pairs);
    NoPairs(pairs, head);
  }

  lemma ListDerived<T(!new)>(rules: Rules<T>, depth: nat, item: Grammar<T>, separator: Grammar<T>, lo: nat,
                      hi: Option<int>, k: nat, w: seq<T>)
    requires WithinCount(k, lo, hi) && IsListOf(rules, depth, item, separator, k + 1, w)
    ensures Derives(rules, depth, Seq(item, Rep(Seq(separator, item), lo, hi)), w)
  {
    var head, pairs :| Derives(rules, depth, item, head) && ArePairs(rules, depth, item, separator, pairs)
                       && |pairs| == k && w == head + Text(pairs);
    PairsDerived(rules, depth, item, separator, pairs);
    SeqOf(rules, depth, item, Rep(Seq(separator, item), lo, hi), head, Text(pairs));
  }

  lemma DerivedList<T(!new)>(rules: Rules<T>, depth: nat, item: Grammar<T>, separator: Grammar<T>, lo: nat,
                      hi: Option<int>, w: seq<T>)
    returns (k: nat)
    requires Derives(rules, depth, Seq(item, Rep(Seq(separator, item), lo, hi)), w)
    ensures WithinCount(k, lo, hi) && IsListOf(rules, depth, item, separator, k + 1, w)
  {
    var u, v := SeqSplit(rules, depth, item, Rep(Seq(separator, item), lo, hi), w);
    k :| WithinCount(k, lo, hi) && DerivesTimes(rules, depth, Seq(separator, item), k, v);
    var pairs := DerivedPairs(rules, depth, item, separator, k, v);
    assert w == u + Text(pairs);
  }

  /** The rule for lists, in the form it has unless a single optional item is asked for. */
  function LongForm<T>(item: Grammar<T>, minItems: nat, maxItems: Option<int>, separator: Grammar<T>): Grammar<T> {
    Seq(item, Rep(Seq(separator, item), if minItems == 0 then 0 else minItems - 1, Fewer(maxItems)))
  }

  lemma LongFormMeaning<T(!new)>(rules: Rules<T>, depth: nat, item: Grammar<T>, minItems: nat, maxItems: Option<int>,
                                 separator: Grammar<T>, w: seq<T>)
    requires maxItems.Some? ==> maxItems.value > 0
    ensures Derives(rules, depth, LongForm(item, minItems, maxItems, separator), w) <==>
            exists n: nat :: n > 0 && WithinCount(n, minItems, maxItems) &&
                             IsListOf(rules, depth, item, separator, n, w)
  {
    var lo := if minItems == 0 then 0 else minItems - 1;
    if Derives(rules, depth, LongForm(item, minItems, maxItems, separator), w) {
      var k := DerivedList(rules, depth, item, separator, lo, Fewer(maxItems), w);
      assert WithinCount(k + 1, minItems, maxItems);
    }
    if n: nat :| n > 0 && WithinCount(n, minItems, maxItems) && IsListOf(rules, depth, item, separator, n, w) {
      ListDerived(rules, depth, item, separator, lo, Fewer(maxItems), n - 1, w);
    }
  }

  /**
   * A repetition is readable if and only if no bound is negative and, with a separator, the maximum is not zero: a
   * separated list of at most zero items is written with the upper bound -1.
   */
  lemma ReadableUnlessMaximumZero<T>(item: Grammar<T>, minItems: int, maxItems: Option<int>,
                                     separator: Option<Grammar<T>>)
    ensures BuildRepetition(item, minItems, maxItems, separator).Some? <==>
            minItems >= 0 && (maxItems.Some? ==> maxItems.value >= if separator.Some? then 1 else 0)
  {
  }

  /** A readable repetition with a separator derives exactly the separated lists of a number of items that is read. */
  lemma RepetitionMeaning<T(!new)>(rules: Rules<T>, depth: nat, item: Grammar<T>, minItems: int, maxItems: Option<int>,
                                   separator: Grammar<T>, w: seq<T>)
    requires BuildRepetition(item, minItems, maxItems, Some(separator)).Some?
    ensures minItems >= 0
    ensures Derives(rules, depth, BuildRepetition(item, minItems, maxItems, Some(separator)).value, w) <==>
            exists n: nat :: WithinCount(n, minItems, maxItems) && IsListOf(rules, depth, item, separator, n, w)
  {
    ReadableUnlessMaximumZero(item, minItems, maxItems, Some(separator));
    if minItems == 0 && maxItems == Some(1) {
      SingleItem(rules, depth, item, separator, w);
      OptMeaning(rules, depth, item, w);
      assert WithinCount(0, 0, maxItems) && WithinCount(1, 0, maxItems);
    } else {
      var form := LongForm(item, minItems, maxItems, separator);
      LongFormMeaning(rules, depth, item, minItems, maxItems, separator, w);
      OptMeaning(rules, depth, form, w);
      LongFormBuilt(item, minItems, maxItems, separator);
      assert minItems == 0 ==> WithinCount(0, minItems, maxItems);
    }
  }

  lemma LongFormBuilt<T>(item: Grammar<T>, minItems: nat, maxItems: Option<int>, separator: Grammar<T>)
    requires !(minItems == 0 && maxItems == Some(1)) && (maxItems.Some? ==> maxItems.value > 0)
    ensures var form := LongForm(item, minItems, maxItems, separator);
            BuildRepetition(item, minItems, maxItems, Some(separator)) ==
            Some(if minItems == 0 then Opt(form) else form)
  {
  }

  /** The numbers of items asked for. */
  predicate Wanted(n: nat, minItems: int, maxItems: Option<int>) {
    minItems <= n && (maxItems.Some? ==> n <= maxItems.value)
  }

  /** Without a separator a readable repetition with its bounds in order derives as many items as are asked for. */
  lemma PlainRepetitionMeaning<T(!new)>(rules: Rules<T>, depth: nat, item: Grammar<T>, minItems: int,
                                        maxItems: Option<int>, w: seq<T>)
    requires BuildRepetition(item, minItems, maxItems, None).Some?
    requires maxItems.Some? ==> minItems <= maxItems.value
    ensures Derives(rules, depth, BuildRepetition(item, minItems, maxItems, None).value, w) <==>
            exists n: nat :: Wanted(n, minItems, maxItems) && DerivesTimes(rules, depth, item, n, w)
  {
    var g := BuildRepetition(item, minItems, maxItems, None).value;
    assert g == Rep(item, minItems, maxItems);
    hide DerivesTimes;
    assert forall n: nat :: Wanted(n, minItems, maxItems) <==> WithinCount(n, minItems, maxItems);
  }

  /** So a string of bounded length is any word over its characters that is neither too short nor too long. */
  lemma BoundedLength<T(!new)>(rules: Rules<T>, depth: nat, chars: set<T>, minLength: nat, maxLength: Option<int>,
                               w: seq<T>)
    requires maxLength.Some? ==> minLength <= maxLength.value
    ensures var g := BuildRepetition(OneOf(chars), minLength, maxLength, None);
            g.Some? && (Derives(rules, depth, g.value, w) <==>
                        minLength <= |w| && (maxLength.Some? ==> |w| <= maxLength.value) &&
                        forall i :: 0 <= i < |w| ==> w[i] in chars)
  {
    var g := BuildRepetition(OneOf(chars), minLength, maxLength, None);
    PlainRepetitionMeaning(rules, depth, OneOf(chars), minLength, maxLength, w);
    forall n: nat ensures DerivesTimes(rules, depth, OneOf(chars), n, w) <==> |w| == n && AllIn(chars, w) {
      TimesOneOf(rules, depth, chars, n, w);
    }
    assert Derives(rules, depth, g.value, w) <==> Wanted(|w|, minLength, maxLength) && AllIn(chars, w);
  }

  /** The repetition is readable, and the numbers that are read are the ones asked for. */
  ghost predicate CountsRight<T>(item: Grammar<T>, minItems: int, maxItems: Option<int>,
                                 separator: Option<Grammar<T>>) {
    BuildRepetition(item, minItems, maxItems, separator).Some? && minItems >= 0 &&
    forall n: nat :: WithinCount(n, minItems, maxItems) <==> Wanted(n, minItems, maxItems)
  }

  /**
   * That is so if and only if the bounds are in order and not negative, and a separated list may hold an item: a
   * minimum above the maximum is read as exactly the minimum.
   */
  lemma CountsExact<T>(item: Grammar<T>, minItems: int, maxItems: Option<int>, separator: Option<Grammar<T>>)
    ensures CountsRight(item, minItems, maxItems, separator) <==>
            minItems >= 0 &&
            (maxItems.Some? ==> minItems <= maxItems.value && (separator.Some? ==> maxItems.value >= 1))
  {
    ReadableUnlessMaximumZero(item, minItems, maxItems, separator);
    if minItems >= 0 && maxItems.Some? && maxItems.value >= 0 {
      assert WithinCount(minItems, minItems, maxItems);
    }
  }
}
