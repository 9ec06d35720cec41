/**
 * The n-gram cache file (common/ngram-cache.cpp): for each n-gram in the order the map yields it, the n-gram's four
 * tokens, the number of its continuations, and for each of them the token and its count. The file is modelled as the
 * sequence of its 32-bit words.
 */
module NgramFiles {
  import opened NgramCache
  import opened Wrappers

  type Listing = seq<(Token, nat)>
  datatype Record = Record(ngram: Ngram, listing: Listing)

  /** The listing holds each entry of the part once, in some order. */
  ghost predicate Lists(listing: Listing, part: Part) {
    if listing == [] then part == map[]
    else
      var last := listing[|listing| - 1];
      last.0 in part && part[last.0] == last.1 && Lists(listing[..|listing| - 1], part - {last.0})
  }

  /** The records hold each n-gram of the cache once, in some order. */
  ghost predicate Covers(records: seq<Record>, cache: Cache) {
    if records == [] then cache == map[]
    else
      var last := records[|records| - 1];
      last.ngram in cache && Lists(last.listing, cache[last.ngram]) &&
      Covers(records[..|records| - 1], cache - {last.ngram})
  }

  function ListingWords(listing: Listing): seq<int> {
    if listing == [] then []
    else ListingWords(listing[..|listing| - 1]) + [listing[|listing| - 1].0, listing[|listing| - 1].1]
  }

  function RecordWords(r: Record): seq<int> {
    r.ngram + [|r.listing|] + ListingWords(r.listing)
  }

  function FileWords(records: seq<Record>): seq<int> {
    if records == [] then []
    else FileWords(records[..|records| - 1]) + RecordWords(records[|records| - 1])
  }

  // ---------------------------------------------------------------- saving

  /** The words list the entries of the part, in some order. */
  ghost predicate IsSavedPart(file: seq<int>, part: Part) {
    exists listing :: file == ListingWords(listing) && Lists(listing, part) && |listing| == |part|
  }

  ghost predicate IsSavedRecord(file: seq<int>, g: Ngram, part: Part) {
    exists r :: file == RecordWords(r) && r.ngram == g && Lists(r.listing, part)
  }

  /** The words list the n-grams of the cache, in some order. */
  ghost predicate IsSaved(file: seq<int>, cache: Cache) {
    exists records :: file == FileWords(records) && Covers(records, cache)
  }

  method SavePart(part: Part) returns (file: seq<int>)
    ensures IsSavedPart(file, part)
  {
    file := [];
    ghost var listing: Listing, done: Part := [], map[];
    var rest := part.Keys;
    while rest != {}
      invariant rest <= part.Keys && done == part - rest
      invariant file == ListingWords(listing) && Lists(listing, done) && |listing| + |rest| == |part.Keys|
      decreases |rest|
    {
      var t := SomeToken(rest);
      ghost var wider := done[t := part[t]];
      assert wider - {t} == done;
      file := file + [t, part[t]];
      ghost var longer := listing + [(t, part[t])];
      assert longer[..|longer| - 1] == listing;
      listing := longer;
      rest := rest - {t};
      done := wider;
    }
    assert done == part;
  }

  lemma CoversOneMore(records: seq<Record>, cache: Cache, r: Record, wider: Cache)
    requires Covers(records, cache) && r.ngram in wider && wider - {r.ngram} == cache
    requires Lists(r.listing, wider[r.ngram])
    ensures Covers(records + [r], wider)
    ensures FileWords(records + [r]) == FileWords(records) + RecordWords(r)
  {
    assert (records + [r])[..|records|] == records;
  }

  lemma TakenOut(cache: Cache, rest: set<Ngram>, g: Ngram)
    requires g in rest && rest <= cache.Keys
    ensures (cache - (rest - {g})) - {g} == cache - rest
    ensures g in cache - (rest - {g}) && (cache - (rest - {g}))[g] == cache[g]
  {}

  method SaveRecord(g: Ngram, part: Part) returns (file: seq<int>)
    ensures IsSavedRecord(file, g, part)
  {
    var counts := SavePart(part);
    ghost var listing :| counts == ListingWords(listing) && Lists(listing, part) && |listing| == |part|;
    file := g + [|part|] + counts;
    assert file == RecordWords(Record(g, listing));
  }

  /** The asserted preconditions are those of the source: no empty part, no zero count. */
  method Save(cache: Cache) returns (file: seq<int>)
    requires WellFormed(cache)
    ensures IsSaved(file, cache)
  {
    file := [];
    ghost var records: seq<Record> := [];
    var rest := cache.Keys;
    ghost var done := cache - rest;
    while rest != {}
      invariant rest <= cache.Keys && done == cache - rest
      invariant file == FileWords(records) && Covers(records, done)
      decreases |rest|
    {
      var g :| g in rest;
      var words := SaveRecord(g, cache[g]);
      ghost var r :| words == RecordWords(r) && r.ngram == g && Lists(r.listing, cache[g]);
      TakenOut(cache, rest, g);
      rest := rest - {g};
      CoversOneMore(records, done, r, cache - rest);
      done := cache - rest;
      file := file + words;
      records := records + [r];
    }
    assert done == cache;
  }

  // ---------------------------------------------------------------- loading

  /** n token-count pairs in front of words, added to part; a failed assertion is None. */
  function ReadPart(words: seq<int>, n: nat, part: Part): (r: Option<(Part, seq<int>)>)
    ensures r.Some? ==> |r.value.1| <= |words|
    decreases n
  {
    if n == 0 then Some((part, words))
    else if |words| < 2 || words[1] <= 0 then None
    else ReadPart(words[2..], n - 1, if words[0] in part then part else part[words[0] := words[1]])
  }

  /** The cache a file holds. A file that ends inside an n-gram is read up to there, without an error. */
  function ReadFile(words: seq<int>, cache: Cache): Option<Cache>
    decreases |words|
  {
    if |words| < NGRAM_MAX then Some(cache)
    else if |words| == NGRAM_MAX || words[NGRAM_MAX] <= 0 then None
    else match ReadPart(words[NGRAM_MAX + 1..], words[NGRAM_MAX], map[])
      case None => None
      case Some((part, rest)) =>
        ReadFile(rest, if words[..NGRAM_MAX] in cache then cache else cache[words[..NGRAM_MAX] := part])
  }

  method Load(file: seq<int>) returns (r: Option<Cache>)
    ensures r == ReadFile(file, map[])
  {
    var cache: Cache := map[];
    var rest := file;
    while |rest| >= NGRAM_MAX
      invariant ReadFile(rest, cache) == ReadFile(file, map[])
      decreases |rest|
    {
      var ngram := rest[..NGRAM_MAX];
      if |rest| == NGRAM_MAX { return None; }
      var ntokens := rest[NGRAM_MAX];
      if ntokens <= 0 { return None; }
      var part := LoadPart(rest[NGRAM_MAX + 1..], ntokens);
      if part.None? { return None; }
      if ngram !in cache { cache := cache[ngram := part.value.0]; }
      rest := part.value.1;
    }
    return Some(cache);
  }

  method LoadPart(words: seq<int>, ntokens: nat) returns (r: Option<(Part, seq<int>)>)
    ensures r == ReadPart(words, ntokens, map[])
  {
    var part: Part := map[];
    var rest := words;
    var i := 0;
    while i < ntokens
      invariant i <= ntokens && ReadPart(rest, ntokens - i, part) == ReadPart(words, ntokens, map[])
    {
      if |rest| < 1 { return None; }
      var token := rest[0];
      if |rest| < 2 { return None; }
      var count := rest[1];
      if count <= 0 { return None; }
      if token !in part { part := part[token := count]; }
      rest := rest[2..];
      i := i + 1;
    }
    return Some((part, rest));
  }

  // ---------------------------------------------------------------- round trip

  lemma {:induction false} ReadsListing(listing: Listing, part: Part, tail: seq<int>, k: nat)
    requires Lists(listing, part) && forall t :: t in part ==> part[t] > 0
    ensures ReadPart(ListingWords(listing) + tail, |listing| + k, map[]) == ReadPart(tail, k, part)
    decreases |listing|
  {
    if listing == [] {
      assert ListingWords(listing) + tail == tail;
    } else {
      var init, last := listing[..|listing| - 1], listing[|listing| - 1];
      var pair := [last.0, last.1];
      assert ListingWords(listing) + tail == ListingWords(init) + (pair + tail);
      ReadsListing(init, part - {last.0}, pair + tail, k + 1);
      assert (part - {last.0})[last.0 := last.1] == part;
      ReadsPair(last.0, last.1, tail, k, part - {last.0});
      assert |init| + (k + 1) == |listing| + k;
    }
  }

  lemma ReadsPair(t: Token, count: nat, tail: seq<int>, k: nat, part: Part)
    requires t !in part && count > 0
    ensures ReadPart([t, count] + tail, k + 1, part) == ReadPart(tail, k, part[t := count])
  {
    assert ([t, count] + tail)[2..] == tail;
  }

  lemma {:induction false} ListsCount(listing: Listing, part: Part)
    requires Lists(listing, part) && exists t :: t in part
    ensures |listing| > 0
  {}

  lemma ReadsRecord(r: Record, cache: Cache, tail: seq<int>)
    requires |r.ngram| == NGRAM_MAX && r.ngram in cache && Lists(r.listing, cache[r.ngram]) && GoodPart(cache[r.ngram])
    ensures ReadFile(RecordWords(r) + tail, cache - {r.ngram}) == ReadFile(tail, cache)
  {
    var words, part := RecordWords(r) + tail, cache[r.ngram];
    ListsCount(r.listing, part);
    assert words[..NGRAM_MAX] == r.ngram && words[NGRAM_MAX] == |r.listing|;
    assert words[NGRAM_MAX + 1..] == ListingWords(r.listing) + tail;
    ReadsListing(r.listing, part, tail, 0);
    assert (cache - {r.ngram})[r.ngram := part] == cache;
  }

  lemma {:induction false} ReadsRecords(records: seq<Record>, cache: Cache, tail: seq<int>)
    requires Covers(records, cache) && WellFormed(cache)
    ensures ReadFile(FileWords(records) + tail, map[]) == ReadFile(tail, cache)
    decreases |records|
  {
    if records == [] {
      assert FileWords(records) + tail == tail;
    } else {
      var init, last := records[..|records| - 1], records[|records| - 1];
      assert FileWords(records) + tail == FileWords(init) + (RecordWords(last) + tail);
      ReadsRecords(init, cache - {last.ngram}, RecordWords(last) + tail);
      ReadsRecord(last, cache, tail);
    }
  }

  /** Loading what was saved gives the cache back, whatever order its maps were walked in. */
  lemma RoundTrip(file: seq<int>, cache: Cache)
    requires IsSaved(file, cache) && WellFormed(cache)
    ensures ReadFile(file, map[]) == Some(cache)
  {
    var records :| file == FileWords(records) && Covers(records, cache);
    ReadsRecords(records, cache, []);
    assert file + [] == file;
  }

  lemma {:induction false} TooShort(words: seq<int>, n: nat, part: Part)
    requires |words| < 2 * n
    ensures ReadPart(words, n, part) == None
    decreases n
  {
    if |words| >= 2 && words[1] > 0 {
      TooShort(words[2..], n - 1, if words[0] in part then part else part[words[0] := words[1]]);
    }
  }

  lemma {:induction false} ListingSize(listing: Listing)
    ensures |ListingWords(listing)| == 2 * |listing|
  {
    if listing != [] { ListingSize(listing[..|listing| - 1]); }
  }

  /**
   * A file cut inside a further record: inside its n-gram it loads without an error and without the record; behind the
   * n-gram loading fails.
   */
  lemma CutInsideRecord(file: seq<int>, cache: Cache, r: Record, cut: seq<int>)
    requires IsSaved(file, cache) && WellFormed(cache)
    requires |r.ngram| == NGRAM_MAX && r.listing != [] && cut < RecordWords(r)
    ensures ReadFile(file + cut, map[]) == if |cut| < NGRAM_MAX then Some(cache) else None
  {
    var records :| file == FileWords(records) && Covers(records, cache);
    ReadsRecords(records, cache, cut);
    if |cut| > NGRAM_MAX {
      assert cut[NGRAM_MAX] == RecordWords(r)[NGRAM_MAX] == |r.listing|;
      ListingSize(r.listing);
      TooShort(cut[NGRAM_MAX + 1..], |r.listing|, map[]);
    }
  }

  /** Four tokens, the number of continuations, and for each its token before its count. */
  lemma WordsOfRecord(a: Token, b: Token, c: Token, d: Token, t: Token, n: nat, u: Token, m: nat)
    requires t != u && n > 0 && m > 0
    ensures IsSaved([a, b, c, d, 1, t, n], map[[a, b, c, d] := map[t := n]])
    ensures IsSaved([a, b, c, d, 2, t, n, u, m], map[[a, b, c, d] := map[t := n, u := m]])
    ensures ReadFile([a, b, c, d, 2, t, n, u, m], map[]) == Some(map[[a, b, c, d] := map[t := n, u := m]])
  {
    var g := [a, b, c, d];
    var one: Part, two: Part := map[t := n], map[t := n, u := m];
    SavedAlone(g, [(t, n)], one, [t, n]);
    SavedAlone(g, [(t, n), (u, m)], two, [t, n, u, m]);
    assert g + [1] + [t, n] == [a, b, c, d, 1, t, n];
    assert g + [2] + [t, n, u, m] == [a, b, c, d, 2, t, n, u, m];
    assert GoodPart(two);
    RoundTrip([a, b, c, d, 2, t, n, u, m], map[g := two]);
  }

  lemma SavedAlone(g: Ngram, listing: Listing, part: Part, words: seq<int>)
    requires Lists(listing, part) && words == ListingWords(listing)
    ensures IsSaved(g + [|listing|] + words, map[g := part])
  {
    var r := Record(g, listing);
    var cache: Cache := map[g := part];
    assert cache - {g} == map[];
    CoversOneMore([], map[], r, cache);
    assert FileWords([r]) == RecordWords(r);
    assert Covers([r], cache);
  }
}
