/** Searching all shards: engine_search of src/unified_shard.c and engine_search_async of src/async_search.c, for queries with
    text only or vector only. */
module Engine {
  import opened Bytes
  import opened Pages
  import opened PoolState
  import opened PostingChain
  import opened Documents
  import opened DataPages
  import opened InvertedIndex
  import opened Shard
  import opened Ranking
  import opened Common
  import opened Sequences
  import opened NodeMerge
  import opened Queries
  import opened Search
  import opened PhraseMeaning
  import opened PhraseSearch
  import opened ScatterGather
  import opened VectorTop
  import opened Answers

  // ---------- The shards ----------

  /** What a search changes in a shard: its cache and the durable part of its log. */
  function Cache(s: Shard): set<object> {
    {s.index.tree.pool, s.index.tree.pool.frames, s.index.tree.pool.wal}
  }

  function Objects(s: Shard): set<object> {
    {s, s.index, s.index.tree, s.index.tree.counter} + Cache(s)
  }

  function Caches(shards: seq<Shard>): set<object> {
    set i, o | 0 <= i < |shards| && o in Cache(shards[i]) :: o
  }

  /** What a search does to a shard's pool: what `Seen` says, and no more than two pages are pinned at any time. */
  ghost predicate OnlyRead(s: State, peak: nat, t: State, peak': nat) {
    Seen(s, t) && peak' <= if peak > 2 then peak else 2
  }

  /** The shards share nothing. */
  ghost predicate Apart(shards: seq<Shard>) {
    forall i, j :: 0 <= i < j < |shards| ==> Objects(shards[i]) !! Objects(shards[j])
  }

  /** The bounds under which a search is exact: a scan needs posting pages that do not read as records, the index no more
      postings of the term than its cap; a phrase search needs neither. */
  ghost predicate Searchable(s: Shard, q: Query, way: Way)
    reads s, s.index, s.index.tree, s.index.tree.pool, s.index.tree.pool.frames, s.index.tree.pool.wal, s.index.tree.counter
  {
    && s.Valid() && Terms32(s.docs)
    && (Scans(q, way) ==> Readable(s) && s.index.tree.counter.next < INVALID)
    && (!Scans(q, way) && !IsPhrase(q, way) ==> |s.index.Postings(TermOf(way))| <= MAX_POSTINGS_READ)
    && (AddsTerms(q, way) ==> forall t :: 0 <= t < |way.terms| ==> |s.index.Postings(way.terms[t])| <= MAX_POSTINGS_READ)
  }

  /** What a query may return from one shard: one candidate per live record it asks for. */
  ghost function LiveCandidates(s: Shard, q: Query, way: Way): seq<Result>
    requires Searchable(s, q, way)
    reads s, s.index, s.index.tree, s.index.tree.pool, s.index.tree.pool.frames, s.index.tree.pool.wal, s.index.tree.counter
  {
    Candidates(AskedFor(s.docs, q, way), s.Bits(), q)
  }

  // ---------- Results are candidates ----------

  lemma {:induction false} CandidatesAre(rs: seq<DocRecord>, bits: Bitset, q: Query, r: Result)
    requires r in Candidates(rs, bits, q)
    ensures Bare(r) == r && (q.Text? ==> r.bm25f > 0.0)
  {
    var n := |rs| - 1;
    if r in Candidates(rs[..n], bits, q) {
      CandidatesAre(rs[..n], bits, q, r);
    }
  }

  lemma RankedAre(out: seq<Result>, rs: seq<DocRecord>, bits: Bitset, q: Query, max: nat, field: Field)
    requires Ranked(out, Candidates(rs, bits, q), max, field)
    ensures BareAll(out) == out && (forall i :: 0 <= i < |out| ==> out[i].rrf == 0.0) && (q.Text? ==> forall i :: 0 <= i < |out| ==> out[i].bm25f > 0.0)
  {
    hide TopScores, Descending, Candidates;
    forall i | 0 <= i < |out| ensures Bare(out[i]) == out[i] && (q.Text? ==> out[i].bm25f > 0.0) {
      assert out[i] in multiset(out);
      CandidatesAre(rs, bits, q, out[i]);
    }
  }

  // ---------- One shard ----------

  /** The shard shows one ranking as it is: nothing adds up. */
  ghost predicate Plain(q: Query, way: Way, candidates: seq<Result>) {
    !ManyTerms(q, way) && (AddsTerms(q, way) ==> DistinctNodes(candidates))
  }

  /** The lists of several terms, one after the other: a known node adds its score, a new one is appended while there is room. */
  function AddedUp(parts: seq<seq<Result>>): (rs: seq<Result>)
    ensures |rs| <= MAX_RESULTS_PER_SHARD
  {
    if parts == [] then [] else Take(Merged(AddedUp(parts[..|parts| - 1]), parts[|parts| - 1], Adding), MAX_RESULTS_PER_SHARD)
  }

  /** What a shard shows of its rankings. */
  function Shown(parts: seq<seq<Result>>, q: Query, way: Way): seq<Result>
    requires !AddsTerms(q, way) ==> |parts| == 1
  {
    if AddsTerms(q, way) then BareAll(AddedUp(parts)) else parts[0]
  }

  ghost predicate TermRanked(part: seq<Result>, docs: seq<Document>, bits: Bitset, q: Query, term: u32)
    requires Terms32(docs)
  {
    Ranked(part, Candidates(Matching(docs, term), bits, q), MAX_RESULTS_PER_SHARD, Bm25f)
  }

  /** What the index yields for a term: a ranking of the postings read, which are all of the term up to the read limit. */
  ghost predicate IndexRanked(part: seq<Result>, docs: seq<Document>, bits: Bitset, q: Query, term: u32, postings: seq<Posting>, newestFirst: seq<Posting>)
    requires Terms32(docs)
  {
    var list := Take(newestFirst, 1_000_000);
    && Named(docs, list) && Ranked(part, Candidates(RecordsOf(docs, list), bits, q), MAX_RESULTS_PER_SHARD, Bm25f)
    && (|postings| <= 1_000_000 ==> TermRanked(part, docs, bits, q, term))
  }

  /** The rankings of a shard: one for each term whose scores are added up, one for every other query. */
  ghost predicate PartsRanked(parts: seq<seq<Result>>, docs: seq<Document>, bits: Bitset, q: Query, way: Way)
    requires Terms32(docs)
  {
    if AddsTerms(q, way) then |parts| == |way.terms| && forall t :: 0 <= t < |parts| ==> TermRanked(parts[t], docs, bits, q, way.terms[t])
    else |parts| == 1 && Ranked(parts[0], Candidates(AskedFor(docs, q, way), bits, q), MAX_RESULTS_PER_SHARD, q.By())
  }

  lemma NextAddedUp(parts: seq<seq<Result>>, part: seq<Result>)
    ensures AddedUp(parts + [part]) == Take(Merged(AddedUp(parts), part, Adding), MAX_RESULTS_PER_SHARD)
  {
    assert (parts + [part])[..|parts|] == parts;
  }

  lemma NothingAddedUp(none: seq<Result>)
    requires none == []
    ensures none == AddedUp([])
  {}

  lemma OneAddedUp(part: seq<Result>)
    requires DistinctNodes(part) && |part| <= MAX_RESULTS_PER_SHARD
    ensures AddedUp([part]) == part
  {
    NextAddedUp([], part);
    assert [] + [part] == [part];
    DistinctMerged(part, Adding);
  }

  /** `part` is what the shard may return: the rankings of the query's records in it, added up for a query by terms. */
  ghost predicate Shows(part: seq<Result>, s: Shard, q: Query, way: Way)
    requires Searchable(s, q, way)
    reads s, s.index, s.index.tree, s.index.tree.pool, s.index.tree.pool.frames, s.index.tree.pool.wal, s.index.tree.counter
  {
    exists rankings :: PartsRanked(rankings, s.docs, s.Bits(), q, way) && part == Shown(rankings, q, way)
  }

  /** A single ranking whose nodes do not repeat is shown as it is. */
  lemma PlainIsShown(parts: seq<seq<Result>>, docs: seq<Document>, bits: Bitset, q: Query, way: Way)
    requires Terms32(docs) && PartsRanked(parts, docs, bits, q, way) && Plain(q, way, Candidates(AskedFor(docs, q, way), bits, q))
    ensures Ranked(Shown(parts, q, way), Candidates(AskedFor(docs, q, way), bits, q), MAX_RESULTS_PER_SHARD, q.By())
  {
    hide TopScores, Descending, Candidates, Merged, Matching, Records, AddedUp, BareAll, PhraseRecords;
    if AddsTerms(q, way) {
      var part, rs := parts[0], Matching(docs, way.terms[0]);
      assert TermRanked(part, docs, bits, q, way.terms[0]);
      RankedAre(part, rs, bits, q, MAX_RESULTS_PER_SHARD, Bm25f);
      NoRepeatsInPart((r: Result) => r.node, part, Candidates(rs, bits, q));
      RankedFits(part, Candidates(rs, bits, q), Bm25f);
      OneAddedUp(part);
      assert parts == [part];
    }
  }

  /** What the rankings of a query by terms show, term by term, and what becomes of them: every node once, with its sum. */
  lemma ShownSums(rankings: seq<seq<Result>>, docs: seq<Document>, bits: Bitset, q: Query, way: Way) returns (ids: seq<seq<nat>>)
    requires Terms32(docs) && AddsTerms(q, way) && PartsRanked(rankings, docs, bits, q, way)
    ensures |ids| == |rankings| == |way.terms|
    ensures forall t :: 0 <= t < |rankings| ==>
      && BestNamed(rankings[t], ids[t], docs, Containing(docs, way.terms[t]), bits, q, 64)
      && LiveResults(rankings[t], ids[t], docs, bits, q)
    ensures var part := Shown(rankings, q, way);
      DistinctNodes(part) && forall i :: 0 <= i < |part| ==> part[i].bm25f == ScoreSum(Concat(rankings), part[i].node)
  {
    hide BestNamed, LiveResults, Containing, AddedUp, TermRanked, Concat, ScoreSum, DistinctNodes;
    SumsOfNodes(rankings);
    BareKeepsSums(AddedUp(rankings), Concat(rankings));
    ids := [];
    for t := 0 to |rankings|
      invariant |ids| == t && forall u :: 0 <= u < t ==>
        && BestNamed(rankings[u], ids[u], docs, Containing(docs, way.terms[u]), bits, q, MAX_RESULTS_PER_SHARD)
        && LiveResults(rankings[u], ids[u], docs, bits, q)
    {
      var next := BestOfTerm(rankings[t], docs, bits, q, way.terms[t]);
      ids := ids + [next];
    }
  }

  lemma BestOfTerm(part: seq<Result>, docs: seq<Document>, bits: Bitset, q: Query, term: u32) returns (ids: seq<nat>)
    requires Terms32(docs) && q.Text? && TermRanked(part, docs, bits, q, term)
    ensures BestNamed(part, ids, docs, Containing(docs, term), bits, q, MAX_RESULTS_PER_SHARD) && LiveResults(part, ids, docs, bits, q)
  {
    hide BestNamed, LiveResults, Ranked, Candidates, Containing, Matching, Records, PhraseRecords, Finding;
    var way := Async([term], false);
    ids := BestOfAsked(part, docs, bits, q, way, MAX_RESULTS_PER_SHARD);
  }

  lemma BareKeepsSums(sums: seq<Result>, found: seq<Result>)
    requires DistinctNodes(sums) && forall i :: 0 <= i < |sums| ==> sums[i].bm25f == ScoreSum(found, sums[i].node)
    ensures var part := BareAll(sums);
      DistinctNodes(part) && forall i :: 0 <= i < |part| ==> part[i].bm25f == ScoreSum(found, part[i].node)
  {
    assert Nodes(BareAll(sums)) == Nodes(sums);
  }

  lemma PlainIsRanked(part: seq<Result>, s: Shard, q: Query, way: Way)
    requires Searchable(s, q, way) && Shows(part, s, q, way) && Plain(q, way, LiveCandidates(s, q, way))
    ensures Ranked(part, LiveCandidates(s, q, way), MAX_RESULTS_PER_SHARD, q.By())
  {
    hide Shard.Valid, Shard.Storage, Index.Valid, Ranked, TermRanked, Shown, Plain, Candidates, AskedFor, Index.Postings;
    s.Facts();
    var rankings :| PartsRanked(rankings, s.docs, s.Bits(), q, way) && part == Shown(rankings, q, way);
    PlainIsShown(rankings, s.docs, s.Bits(), q, way);
  }

  lemma RankedFits(part: seq<Result>, candidates: seq<Result>, field: Field)
    requires Ranked(part, candidates, MAX_RESULTS_PER_SHARD, field)
    ensures |part| <= MAX_RESULTS_PER_SHARD
  {
    assert |multiset(Scores(part, field))| == |part|;
  }

  lemma AddingScores(m: Result, v: Result, place: nat)
    ensures Update(Base(v, Adding), v, place, Adding) == v && Update(m, v, place, Adding) == m.(bm25f := m.bm25f + v.bm25f)
  {}

  lemma NextAdded(before: seq<Result>, known: seq<Result>, ms: seq<Result>, v: Result, at: int)
    requires ms == Take(Merged(before, known, Adding), MAX_RESULTS_PER_SHARD)
    requires at < 0 <==> forall j :: 0 <= j < |ms| ==> ms[j].node != v.node
    requires at >= 0 ==> at < |ms| && ms[at].node == v.node && forall j :: 0 <= j < at ==> ms[j].node != v.node
    ensures Take(Merged(before, known + [v], Adding), MAX_RESULTS_PER_SHARD) ==
      if at >= 0 then ms[at := ms[at].(bm25f := ms[at].bm25f + v.bm25f)] else if |ms| < MAX_RESULTS_PER_SHARD then ms + [v] else ms
  {
    hide Merged, Take, Update, Base;
    MergedWithRoom(before, known, v, at, Adding, MAX_RESULTS_PER_SHARD);
    AddingScores(if at >= 0 then ms[at] else v, v, |known| + 1);
  }

  lemma FirstEntry(ms: seq<Result>, node: NodeId) returns (at: int)
    ensures at < 0 <==> forall j :: 0 <= j < |ms| ==> ms[j].node != node
    ensures at >= 0 ==> at < |ms| && ms[at].node == node && forall j :: 0 <= j < at ==> ms[j].node != node
  {
    at := -1;
    if k :| 0 <= k < |ms| && ms[k].node == node {
      at := FirstOf(ms, k);
    }
  }

  /** Dropping what has no room before the next list comes, or after it, is the same. */
  lemma {:induction false} RoomTwice(a: seq<Result>, b: seq<Result>)
    ensures Take(Merged(Take(Merged([], a, Adding), MAX_RESULTS_PER_SHARD), b, Adding), MAX_RESULTS_PER_SHARD)
      == Take(Merged([], a + b, Adding), MAX_RESULTS_PER_SHARD)
  {
    hide Merged, Take;
    var before := Take(Merged([], a, Adding), MAX_RESULTS_PER_SHARD);
    if b == [] {
      NothingMerged(before, Adding);
      TakeAll(before, MAX_RESULTS_PER_SHARD);
      assert a + b == a;
    } else {
      var n := |b| - 1;
      var v, ms := b[n], Take(Merged([], a + b[..n], Adding), MAX_RESULTS_PER_SHARD);
      RoomTwice(a, b[..n]);
      assert b == b[..n] + [v] && a + b == a + b[..n] + [v];
      var at := FirstEntry(ms, v.node);
      NextAdded(before, b[..n], ms, v, at);
      NextAdded([], a + b[..n], ms, v, at);
    }
  }

  lemma TakeAll<T>(s: seq<T>, n: nat)
    requires |s| <= n
    ensures Take(s, n) == s
  {}

  /** The lists of all terms are added up as if they were one. */
  lemma {:induction false} AddedUpAtOnce(parts: seq<seq<Result>>)
    ensures AddedUp(parts) == Take(Merged([], Concat(parts), Adding), MAX_RESULTS_PER_SHARD)
  {
    hide Merged;
    if parts == [] {
      NothingMerged([], Adding);
    } else {
      var n := |parts| - 1;
      AddedUpAtOnce(parts[..n]);
      RoomTwice(Concat(parts[..n]), parts[n]);
    }
  }

  /** What the list of a query by terms says: the first 64 nodes in the order in which the terms' lists name them, no node
      twice, each with the sum of its scores in all these lists. */
  lemma SumsOfNodes(parts: seq<seq<Result>>)
    ensures var sums, found := AddedUp(parts), Concat(parts);
      && Nodes(sums) == Take(Nodes(NewOnes([], found)), 64) && DistinctNodes(sums)
      && forall i :: 0 <= i < |sums| ==> sums[i].bm25f == ScoreSum(found, sums[i].node)
  {
    hide Folded, AddedUp, Concat;
    var sums, found := AddedUp(parts), Concat(parts);
    var news := NewOnes([], found);
    AddedUpAtOnce(parts);
    MergedNodes([], found, Adding);
    NewOnesAre([], found);
    var nodes := Nodes(Merged([], found, Adding));
    assert nodes == Nodes(news);
    assert Nodes(sums) == Take(nodes, MAX_RESULTS_PER_SHARD);
    forall i | 0 <= i < |sums| ensures sums[i].bm25f == ScoreSum(found, sums[i].node) {
      FoldedSum(Base(news[i], Adding), found);
    }
  }

  /** One result of a term: it meets the entry of its node, is appended while there is room, or is dropped. */
  method AddResult(all: array<Result>, count: nat, v: Result, ghost before: seq<Result>, ghost known: seq<Result>) returns (count': nat)
    requires count <= MAX_RESULTS_PER_SHARD == all.Length && v.bm25f > 0.0
    requires forall i :: 0 <= i < count ==> all[i].bm25f > 0.0
    requires all[..count] == Take(Merged(before, known, Adding), MAX_RESULTS_PER_SHARD)
    modifies all
    ensures count <= count' <= MAX_RESULTS_PER_SHARD && forall i :: 0 <= i < count' ==> all[i].bm25f > 0.0
    ensures all[..count'] == Take(Merged(before, known + [v], Adding), MAX_RESULTS_PER_SHARD)
  {
    hide Merged, Take;
    ghost var ms := all[..count];
    count' := count;
    var at := FindNode(all, count, v.node);
    NextAdded(before, known, ms, v, at);
    if at >= 0 {
      all[at] := all[at].(bm25f := all[at].bm25f + v.bm25f);
      assert all[..count] == ms[at := all[at]];
    } else if count < MAX_RESULTS_PER_SHARD {
      all[count] := v;
      assert all[..count + 1] == ms + [v];
      count' := count + 1;
    }
  }

  /** The results of one term join those of the terms before. */
  method AddTermResults(all: array<Result>, count: nat, results: seq<Result>) returns (count': nat)
    requires count <= MAX_RESULTS_PER_SHARD == all.Length
    requires forall i :: 0 <= i < count ==> all[i].bm25f > 0.0
    requires forall i :: 0 <= i < |results| ==> results[i].bm25f > 0.0
    modifies all
    ensures count <= count' <= 64 && forall i :: 0 <= i < count' ==> all[i].bm25f > 0.0
    ensures all[..count'] == Take(Merged(old(all[..count]), results, Adding), 64)
  {
    hide Merged;
    ghost var before := all[..count];
    count' := count;
    NothingMerged(before, Adding);
    assert results[..0] == [];
    for i := 0 to |results|
      invariant count <= count' <= MAX_RESULTS_PER_SHARD
      invariant forall k :: 0 <= k < count' ==> all[k].bm25f > 0.0
      invariant all[..count'] == Take(Merged(before, results[..i], Adding), MAX_RESULTS_PER_SHARD)
    {
      assert results[..i + 1] == results[..i] + [results[i]];
      count' := AddResult(all, count', results[i], before, results[..i]);
    }
    assert results[..|results|] == results;
  }

  /** The searches for the terms of a query that is no phrase. */
  method SearchTerms(shard: Shard, q: Query, terms: seq<u32>, all: array<Result>) returns (n: nat, ghost parts: seq<seq<Result>>)
    requires shard.Valid() && q.Text? && all.Length == MAX_RESULTS_PER_SHARD
    modifies Cache(shard), all
    ensures shard.Valid() && OnlyRead(old(shard.index.tree.pool.state), old(shard.index.tree.pool.peak), shard.index.tree.pool.state, shard.index.tree.pool.peak)
    ensures n <= MAX_RESULTS_PER_SHARD && forall i :: 0 <= i < n ==> all[i].bm25f > 0.0
    ensures shard.Storage() && shard.index.Valid() && Terms32(shard.docs)
    ensures |parts| == |terms| && all[..n] == AddedUp(parts)
    ensures forall t :: 0 <= t < |terms| ==>
      IndexRanked(parts[t], shard.docs, shard.Bits(), q, terms[t], shard.index.Postings(terms[t]), shard.index.NewestFirstOf(terms[t]))
  {
    hide Shard.Valid, Shard.Storage, Candidates, Ranked, Matching, IndexOf, Index.Valid, BareAll, Kept, Merged, RecordsOf, NewestFirst, IndexRanked, AddedUp;
    shard.Facts();
    SeenNothing(shard.index.tree.pool.state);
    n, parts := 0, [];
    NothingAddedUp(all[..0]);
    for t := 0 to |terms|
      invariant shard.Valid() && OnlyRead(old(shard.index.tree.pool.state), old(shard.index.tree.pool.peak), shard.index.tree.pool.state, shard.index.tree.pool.peak)
      invariant shard.Storage() && shard.index.Valid() && Terms32(shard.docs)
      invariant n <= MAX_RESULTS_PER_SHARD && forall i :: 0 <= i < n ==> all[i].bm25f > 0.0
      invariant |parts| == t && all[..n] == AddedUp(parts)
      invariant forall u :: 0 <= u < t ==>
        IndexRanked(parts[u], shard.docs, shard.Bits(), q, terms[u], shard.index.Postings(terms[u]), shard.index.NewestFirstOf(terms[u]))
    {
      ghost var s := shard.index.tree.pool.state;
      var part := SearchTerm(shard, q, terms[t]);
      SeenTwice(old(shard.index.tree.pool.state), s, shard.index.tree.pool.state);
      NextAddedUp(parts, part);
      parts := parts + [part];
      n := AddTermResults(all, n, part);
    }
  }

  /** The search for one of them. */
  method SearchTerm(shard: Shard, q: Query, term: u32) returns (part: seq<Result>)
    requires shard.Valid() && q.Text?
    modifies Cache(shard)
    ensures shard.Valid() && OnlyRead(old(shard.index.tree.pool.state), old(shard.index.tree.pool.peak), shard.index.tree.pool.state, shard.index.tree.pool.peak)
    ensures shard.Storage() && shard.index.Valid() && Terms32(shard.docs) && forall i :: 0 <= i < |part| ==> part[i].bm25f > 0.0
    ensures IndexRanked(part, shard.docs, shard.Bits(), q, term, shard.index.Postings(term), shard.index.NewestFirstOf(term))
  {
    hide Shard.Valid, Shard.Storage, Candidates, Ranked, Matching, Index.Postings, Index.Valid, BareAll, Kept, RecordsOf, Index.NewestFirstOf;
    var results := new Result[MAX_RESULTS_PER_SHARD];
    ghost var ids;
    var k;
    k, ids := SearchIndexed(shard, term, q, results, MAX_RESULTS_PER_SHARD);
    shard.Facts();
    part := results[..k];
    RankedAre(part, RecordsOf(shard.docs, Take(shard.index.NewestFirstOf(term), MAX_POSTINGS_READ)), shard.Bits(), q, MAX_RESULTS_PER_SHARD, Bm25f);
  }

  lemma AllDocumentsMatch(s: Shard)
    requires s.Valid()
    ensures Terms32(s.docs) && Matching(s.docs, 0) == Records(s.docs)
  {
    hide Shard.Valid, Matching;
    s.Facts();
    AllMatchZero(s.docs);
  }

  /** The part of one shard, as shard_search_work_cb or the loop of engine_search computes it. */
  method SearchShard(shard: Shard, q: Query, way: Way, results: array<Result>) returns (n: nat, ghost ids: seq<nat>)
    requires Searchable(shard, q, way) && results.Length == MAX_RESULTS_PER_SHARD
    modifies Cache(shard), results
    ensures Searchable(shard, q, way) && LiveCandidates(shard, q, way) == old(LiveCandidates(shard, q, way))
    ensures OnlyRead(old(shard.index.tree.pool.state), old(shard.index.tree.pool.peak), shard.index.tree.pool.state, shard.index.tree.pool.peak)
    ensures n <= results.Length && (q.Text? ==> forall i :: 0 <= i < n ==> results[i].bm25f > 0.0)
    ensures Shows(BareAll(results[..n]), shard, q, way) && shard.Storage() && Terms32(shard.docs)
    ensures Plain(q, way, LiveCandidates(shard, q, way)) ==>
      && BestNamed(BareAll(results[..n]), ids, shard.docs, Asked(shard.docs, q, way), shard.Bits(), q, 64)
      && LiveResults(BareAll(results[..n]), ids, shard.docs, shard.Bits(), q)
    ensures way.Async? ==> forall i :: 0 <= i < n ==> results[i].rrf == if q.Text? then results[i].bm25f else results[i].cosine
    ensures way.Sync? ==> forall i :: 0 <= i < n ==> results[i].rrf == 0.0
  {
    hide Shard.Valid, Shard.Storage, Candidates, Ranked, Records, Matching, IndexOf, Index.Valid, BareAll, Kept, Merged, PhraseRecords, FalseSlotsBefore, Shown,
      PartsRanked, Plain, AskedFor;
    shard.Facts();
    ghost var parts;
    n, parts := SearchPart(shard, q, way, results);
    shard.Facts();
    ids := [];
    if Plain(q, way, LiveCandidates(shard, q, way)) {
      PlainIsShown(parts, shard.docs, shard.Bits(), q, way);
      ids := BestOfAsked(BareAll(results[..n]), shard.docs, shard.Bits(), q, way, MAX_RESULTS_PER_SHARD);
    }
    if way.Async? {
      CopyToRrf(results, n, q.By());
    }
  }

  /** Before the fused score is set. */
  method SearchPart(shard: Shard, q: Query, way: Way, results: array<Result>) returns (n: nat, ghost parts: seq<seq<Result>>)
    requires Searchable(shard, q, way) && results.Length == MAX_RESULTS_PER_SHARD
    modifies Cache(shard), results
    ensures Searchable(shard, q, way)
    ensures OnlyRead(old(shard.index.tree.pool.state), old(shard.index.tree.pool.peak), shard.index.tree.pool.state, shard.index.tree.pool.peak)
    ensures n <= results.Length && (q.Text? ==> forall i :: 0 <= i < n ==> results[i].bm25f > 0.0)
    ensures shard.Storage() && PartsRanked(parts, shard.docs, shard.Bits(), q, way) && BareAll(results[..n]) == Shown(parts, q, way)
    ensures way.Sync? ==> forall i :: 0 <= i < n ==> results[i].rrf == 0.0
  {
    hide Shard.Valid, Shard.Storage, Candidates, Ranked, Records, Matching, IndexOf, Index.Valid, BareAll, Kept, Merged, PhraseRecords, FalseSlotsBefore,
      RecordsOf, TermRanked, AddedUp, BestNamed, ShowsBest, LiveResults, LiveShown, Containing, Names, Finding, All;
    shard.Facts();
    ghost var extra, ids;
    if Scans(q, way) {
      n, extra, ids := Scan(shard, q, results, MAX_RESULTS_PER_SHARD);
    } else if way.isPhrase && |way.terms| > 0 {
      n, ids := SearchPhrase(shard, way.terms, q, results, MAX_RESULTS_PER_SHARD);
    } else if |way.terms| > 0 {
      n, parts := SearchTerms(shard, q, way.terms, results);
    } else {
      n, ids := SearchIndexed(shard, 0, q, results, MAX_RESULTS_PER_SHARD);
      AllDocumentsMatch(shard);
    }
    shard.Facts();
    if !AddsTerms(q, way) {
      parts := [results[..n]];
      RankedAre(parts[0], AskedFor(shard.docs, q, way), shard.Bits(), q, MAX_RESULTS_PER_SHARD, q.By());
    }
  }

  /** The work item of a shard also sets the fused score to the one score there is. */
  method CopyToRrf(results: array<Result>, n: nat, field: Field)
    requires n <= results.Length
    requires field != Rrf
    modifies results
    ensures BareAll(results[..n]) == BareAll(old(results[..n]))
    ensures forall k :: 0 <= k < n ==> results[k].bm25f == old(results[k].bm25f) && results[k].rrf == Key(results[k], field)
  {
    for i := 0 to n
      invariant forall k :: 0 <= k < i ==> results[k].rrf == Key(results[k], field)
      invariant forall k :: 0 <= k < n ==> Bare(results[k]) == Bare(old(results[k])) && results[k].bm25f == old(results[k].bm25f)
    {
      results[i] := results[i].(rrf := Key(results[i], field));
    }
  }

  // ---------- All shards ----------

  /** The results of one shard join the others; the asynchronous gathering looks at the scores once more. */
  method Append(all: array<Result>, count: nat, part: seq<Result>, q: Query, way: Way) returns (count': nat)
    requires count + |part| <= all.Length
    requires q.Text? ==> forall i :: 0 <= i < |part| ==> part[i].bm25f > 0.0
    modifies all
    ensures count' == count + |part| && all[..count'] == old(all[..count]) + part
  {
    count' := count;
    for i := 0 to |part|
      invariant count' == count + i && all[..count'] == old(all[..count]) + part[..i]
    {
      if way.Async? && q.Text? && part[i].bm25f <= 0.0 {
        continue;
      }
      all[count'] := part[i];
      count' := count' + 1;
    }
  }

  lemma ApartFrom(shards: seq<Shard>, i: nat, j: nat)
    requires Apart(shards) && i < |shards| && j < |shards| && i != j
    ensures Objects(shards[i]) !! Cache(shards[j])
  {
    if i < j {
      assert Objects(shards[i]) !! Objects(shards[j]);
    } else {
      assert Objects(shards[j]) !! Objects(shards[i]);
    }
  }

  lemma CacheOfAll(shards: seq<Shard>, i: nat)
    requires i < |shards|
    ensures Cache(shards[i]) <= Caches(shards)
  {}

  /** Searching shard `s` leaves every shard searchable, with the same candidates, and the others untouched. */
  method SearchOne(shards: seq<Shard>, s: nat, q: Query, way: Way, ghost candidates: seq<seq<Result>>) returns (part: seq<Result>)
    requires Apart(shards) && s < |shards| && |candidates| == |shards|
    requires forall i :: 0 <= i < |shards| ==> Searchable(shards[i], q, way)
    requires forall i :: 0 <= i < |shards| ==> LiveCandidates(shards[i], q, way) == candidates[i]
    modifies Cache(shards[s])
    ensures forall i :: 0 <= i < |shards| ==> Searchable(shards[i], q, way)
    ensures forall i :: 0 <= i < |shards| ==> LiveCandidates(shards[i], q, way) == candidates[i]
    ensures OnlyRead(old(shards[s].index.tree.pool.state), old(shards[s].index.tree.pool.peak), shards[s].index.tree.pool.state, shards[s].index.tree.pool.peak)
    ensures forall i :: 0 <= i < |shards| && i != s ==>
      shards[i].index.tree.pool.state == old(shards[i].index.tree.pool.state) && shards[i].index.tree.pool.peak == old(shards[i].index.tree.pool.peak)
    ensures |part| <= MAX_RESULTS_PER_SHARD && Shows(BareAll(part), shards[s], q, way)
    ensures forall i, p: seq<Result> :: 0 <= i < |shards| && i != s && old(Shows(p, shards[i], q, way)) ==> Shows(p, shards[i], q, way)
    ensures q.Text? ==> forall i :: 0 <= i < |part| ==> part[i].bm25f > 0.0
  {
    hide Searchable, LiveCandidates, Ranked, BareAll, Apart, Plain, ManyTerms, Shows, OnlyRead, Shard.Valid, Shard.Storage, Index.Valid, Terms32;
    forall i | 0 <= i < |shards| && i != s ensures Objects(shards[i]) !! Cache(shards[s]) {
      ApartFrom(shards, i, s);
    }
    var results := new Result[MAX_RESULTS_PER_SHARD];
    var n;
    ghost var ids;
    n, ids := SearchShard(shards[s], q, way, results);
    part := results[..n];
    assert forall i :: 0 <= i < |shards| && i != s ==> Searchable(shards[i], q, way) && LiveCandidates(shards[i], q, way) == candidates[i];
  }

  /** The scatter half: what all shards return, one after the other. */
  method SearchShards(shards: seq<Shard>, q: Query, way: Way, all: array<Result>, ghost candidates: seq<seq<Result>>)
    returns (count: nat, ghost parts: seq<seq<Result>>)
    requires Apart(shards) && all.Length >= MAX_RESULTS_PER_SHARD * |shards| && |candidates| == |shards|
    requires forall i :: 0 <= i < |shards| ==> Searchable(shards[i], q, way)
    requires forall i :: 0 <= i < |shards| ==> LiveCandidates(shards[i], q, way) == candidates[i]
    requires forall i :: 0 <= i < |shards| ==> (all as object) !in Objects(shards[i])
    modifies Caches(shards), all
    ensures forall i :: 0 <= i < |shards| ==> Searchable(shards[i], q, way)
    ensures forall i :: 0 <= i < |shards| ==> LiveCandidates(shards[i], q, way) == candidates[i]
    ensures forall i :: 0 <= i < |shards| ==> OnlyRead(old(shards[i].index.tree.pool.state), old(shards[i].index.tree.pool.peak),
      shards[i].index.tree.pool.state, shards[i].index.tree.pool.peak)
    ensures count <= all.Length && BareAll(all[..count]) == Concat(parts)
    ensures |parts| == |shards| && forall i :: 0 <= i < |shards| ==> Shows(parts[i], shards[i], q, way)
  {
    hide Searchable, LiveCandidates, Ranked, BareAll, Apart, Caches, Concat, Plain, OnlyRead, Shows, Shard.Valid, Shard.Storage, Index.Valid, Terms32, Take;
    count, parts := 0, [];
    NothingYet(all[..0]);
    for s := 0 to |shards|
      invariant forall i :: 0 <= i < |shards| ==> Searchable(shards[i], q, way)
      invariant forall i :: 0 <= i < |shards| ==> LiveCandidates(shards[i], q, way) == candidates[i]
      invariant forall i :: 0 <= i < |shards| ==> if i < s
        then OnlyRead(old(shards[i].index.tree.pool.state), old(shards[i].index.tree.pool.peak), shards[i].index.tree.pool.state, shards[i].index.tree.pool.peak)
        else shards[i].index.tree.pool.state == old(shards[i].index.tree.pool.state) && shards[i].index.tree.pool.peak == old(shards[i].index.tree.pool.peak)
      invariant count <= MAX_RESULTS_PER_SHARD * s && BareAll(all[..count]) == Concat(parts)
      invariant |parts| == s && forall i :: 0 <= i < s ==> Shows(parts[i], shards[i], q, way)
    {
      CacheOfAll(shards, s);
      NotInCache(shards, s, all);
      var part := SearchOne(shards, s, q, way, candidates);
      OneMorePart(all[..count], part, parts);
      parts := parts + [BareAll(part)];
      count := Append(all, count, part, q, way);
    }
  }

  lemma NotInCache(shards: seq<Shard>, s: nat, o: object)
    requires s < |shards| && o !in Objects(shards[s])
    ensures o !in Cache(shards[s])
  {}

  lemma NothingYet(none: seq<Result>)
    requires none == []
    ensures BareAll(none) == Concat([])
  {}

  lemma OneMorePart(before: seq<Result>, part: seq<Result>, parts: seq<seq<Result>>)
    requires BareAll(before) == Concat(parts)
    ensures BareAll(before + part) == Concat(parts + [BareAll(part)])
  {
    assert BareAll(before + part) == BareAll(before) + BareAll(part);
    assert (parts + [BareAll(part)])[..|parts|] == parts;
  }

  /** engine_search and engine_search_async for a query with one mode: what the shards show, best first, each with its place
      as rank, cut at `max`. But for queries that add scores up by node, every result shows a document that is not deleted,
      and these are the best of all such documents of all shards - result `k` that of document `from[k]`. A vector search
      shows one entry per node, with the lowest of its scores in `parts`: the best exactly if `ShowsTop`, which distinct nodes
      imply. */
  method EngineSearch(shards: seq<Shard>, q: Query, way: Way, max: nat, ghost candidates: seq<seq<Result>>, ghost docs: seq<seq<Document>>, ghost bits: seq<Bitset>)
    returns (out: seq<Result>, ghost parts: seq<seq<Result>>, ghost sorted: seq<Result>, ghost from: seq<Source>)
    requires Apart(shards) && 1 <= max <= MAX_RESULTS_PER_SHARD && |candidates| == |docs| == |bits| == |shards|
    requires forall i :: 0 <= i < |shards| ==>
      Searchable(shards[i], q, way) && LiveCandidates(shards[i], q, way) == candidates[i] && HoldsDocuments(shards[i], docs[i], bits[i])
    modifies Caches(shards)
    ensures forall i :: 0 <= i < |shards| ==> Searchable(shards[i], q, way) && LiveCandidates(shards[i], q, way) == candidates[i]
    ensures forall i :: 0 <= i < |shards| ==> OnlyRead(old(shards[i].index.tree.pool.state), old(shards[i].index.tree.pool.peak),
      shards[i].index.tree.pool.state, shards[i].index.tree.pool.peak)
    ensures Exactly(q, way, candidates) ==> Ranked(BareAll(out), Concat(candidates), max, q.By())
    ensures |parts| == |shards| && (forall i :: 0 <= i < |shards| ==> Shows(parts[i], shards[i], q, way)) && out == sorted[..Min(max, |sorted|)]
    ensures q.Text? ==> InPlace(sorted, Bm25f) && multiset(BareAll(sorted)) == multiset(Concat(parts))
    ensures q.Text? ==> forall i :: 0 <= i < |out| ==> out[i].bm25fRank == i + 1
    ensures q.Vector? && DistinctNodes(Concat(candidates)) ==> forall i :: 0 <= i < |out| ==> out[i].cosineRank == i + 1
    ensures q.Vector? ==> AllRanked(parts, candidates, MAX_RESULTS_PER_SHARD, Cosine) && LowestPerNode(sorted, Concat(parts))
    ensures q.Vector? ==> (ShowsTop(Concat(parts), max) <==> TopScores(multiset(Scores(out, Cosine)), multiset(Scores(Concat(candidates), Cosine)), max))
    ensures forall i :: 0 <= i < |docs| ==> Terms32(docs[i])
    ensures q.Text? && (way.Sync? || way.isPhrase || way.terms == []) ==> Sourced(out, from, docs, bits, q, way) && BestSources(from, docs, bits, q, way, max)
    ensures q.Text? && way.Async? && |way.terms| == 1 && (forall i :: 0 <= i < |candidates| ==> DistinctNodes(candidates[i])) ==>
      Sourced(out, from, docs, bits, q, way) && BestSources(from, docs, bits, q, way, max)
    ensures q.Vector? && DistinctNodes(Concat(candidates)) ==> ShowsTop(Concat(parts), max)
    ensures q.Vector? ==> Sourced(out, from, docs, bits, q, way) && (ShowsTop(Concat(parts), max) ==> BestSources(from, docs, bits, q, way, max))
  {
    hide Searchable, LiveCandidates, Ranked, BareAll, Apart, Caches, Concat, AllRanked, InPlace, LowestPerNode, Plain, Scores, OnlyRead, ShowsTop, TopScores,
      Exactly, Shows, HoldsDocuments, Sourced, BestSources, DistinctNodes;
    AllContents(shards, q, way, candidates, docs, bits);
    ExactlyIf(q, way, candidates);
    out, parts, sorted := SearchAll(shards, q, way, max, candidates);
    from := [];
    if q.Text? {
      Places(sorted);
      if Exactly(q, way, candidates) {
        from := TextAnswers(out, candidates, docs, bits, q, way, max);
      }
    } else {
      TopIfDistinct(q, way, out, candidates, max);
      from := AnyVectorAnswers(sorted, out, parts, candidates, docs, bits, q, way, max);
    }
  }

  /** What a shard holds: its documents, and which of them are deleted. */
  ghost predicate HoldsDocuments(s: Shard, docs: seq<Document>, bits: Bitset)
    reads s, s.index, s.index.tree, s.index.tree.pool, s.index.tree.pool.frames, s.index.tree.pool.wal, s.index.tree.counter
  {
    s.Storage() && s.docs == docs && s.Bits() == bits
  }

  /** The candidates of each shard come from its documents. */
  ghost predicate FromContents(candidates: seq<seq<Result>>, docs: seq<seq<Document>>, bits: seq<Bitset>, q: Query, way: Way) {
    |candidates| == |docs| == |bits| && forall i :: 0 <= i < |docs| ==> Terms32(docs[i]) && candidates[i] == Candidates(AskedFor(docs[i], q, way), bits[i], q)
  }

  lemma AllContents(shards: seq<Shard>, q: Query, way: Way, candidates: seq<seq<Result>>, docs: seq<seq<Document>>, bits: seq<Bitset>)
    requires |candidates| == |docs| == |bits| == |shards|
    requires forall i :: 0 <= i < |shards| ==> Searchable(shards[i], q, way)
    requires forall i :: 0 <= i < |shards| ==> LiveCandidates(shards[i], q, way) == candidates[i]
    requires forall i :: 0 <= i < |shards| ==> HoldsDocuments(shards[i], docs[i], bits[i])
    ensures FromContents(candidates, docs, bits, q, way)
  {
    hide Shard.Valid, Shard.Storage, Candidates, AskedFor, Index.Postings;
  }

  /** The best of all documents that may be shown. */
  ghost predicate BestSources(from: seq<Source>, docs: seq<seq<Document>>, bits: seq<Bitset>, q: Query, way: Way, max: nat) {
    && |bits| == |docs| && (forall s :: 0 <= s < |docs| ==> Terms32(docs[s]))
    && (forall k :: 0 <= k < |from| ==> from[k].0 < |docs| && from[k].1 < |docs[from[k].0]|)
    && NoneBetter(from, docs, bits, q, way, max)
  }

  lemma TextAnswers(out: seq<Result>, candidates: seq<seq<Result>>, docs: seq<seq<Document>>, bits: seq<Bitset>, q: Query, way: Way, max: nat)
    returns (from: seq<Source>)
    requires FromContents(candidates, docs, bits, q, way) && Ranked(BareAll(out), Concat(candidates), max, q.By())
    ensures Sourced(out, from, docs, bits, q, way) && BestSources(from, docs, bits, q, way, max)
  {
    hide Candidates, AskedFor, Ranked, Concat, NoneBetter, Sourced;
    from := RankedAnswers(out, candidates, docs, bits, q, way, max);
    SourcesInRange(out, from, docs, bits, q, way);
  }

  lemma AnyVectorAnswers(sorted: seq<Result>, out: seq<Result>, parts: seq<seq<Result>>, candidates: seq<seq<Result>>, docs: seq<seq<Document>>,
                         bits: seq<Bitset>, q: Query, way: Way, max: nat) returns (from: seq<Source>)
    requires FromContents(candidates, docs, bits, q, way) && q.Vector? && max <= MAX_RESULTS_PER_SHARD
    requires AllRanked(parts, candidates, MAX_RESULTS_PER_SHARD, Cosine) && LowestPerNode(sorted, Concat(parts)) && out == sorted[..Min(max, |sorted|)]
    ensures Sourced(out, from, docs, bits, q, way)
    ensures ShowsTop(Concat(parts), max) ==> BestSources(from, docs, bits, q, way, max)
  {
    hide Candidates, AskedFor, AllRanked, Concat, NoneBetter, Sourced, LowestPerNode, ShowsTop;
    from := VectorAnswers(sorted, out, parts, candidates, docs, bits, q, way, max);
    SourcesInRange(out, from, docs, bits, q, way);
  }

  lemma Places(sorted: seq<Result>)
    ensures InPlace(sorted, Bm25f) ==> forall i :: 0 <= i < |sorted| ==> sorted[i].bm25fRank == i + 1
    ensures InPlace(sorted, Cosine) ==> forall i :: 0 <= i < |sorted| ==> sorted[i].cosineRank == i + 1
  {}

  /** Searching and gathering, in terms of the candidates. */
  method SearchAll(shards: seq<Shard>, q: Query, way: Way, max: nat, ghost candidates: seq<seq<Result>>)
    returns (out: seq<Result>, ghost parts: seq<seq<Result>>, ghost sorted: seq<Result>)
    requires Apart(shards) && 1 <= max <= MAX_RESULTS_PER_SHARD && |candidates| == |shards|
    requires forall i :: 0 <= i < |shards| ==> Searchable(shards[i], q, way)
    requires forall i :: 0 <= i < |shards| ==> LiveCandidates(shards[i], q, way) == candidates[i]
    modifies Caches(shards)
    ensures forall i :: 0 <= i < |shards| ==> Searchable(shards[i], q, way)
    ensures forall i :: 0 <= i < |shards| ==> LiveCandidates(shards[i], q, way) == candidates[i]
    ensures forall i :: 0 <= i < |shards| ==> OnlyRead(old(shards[i].index.tree.pool.state), old(shards[i].index.tree.pool.peak),
      shards[i].index.tree.pool.state, shards[i].index.tree.pool.peak)
    ensures Exactly(q, way, candidates) ==> Ranked(BareAll(out), Concat(candidates), max, q.By())
    ensures |parts| == |shards| && (forall i :: 0 <= i < |shards| ==> Shows(parts[i], shards[i], q, way)) && out == sorted[..Min(max, |sorted|)]
    ensures q.Text? ==> InPlace(sorted, Bm25f) && multiset(BareAll(sorted)) == multiset(Concat(parts))
    ensures q.Vector? && DistinctNodes(Concat(candidates)) ==> forall i :: 0 <= i < |out| ==> out[i].cosineRank == i + 1
    ensures q.Vector? ==> AllRanked(parts, candidates, MAX_RESULTS_PER_SHARD, Cosine) && LowestPerNode(sorted, Concat(parts))
    ensures q.Vector? ==> (ShowsTop(Concat(parts), max) <==> TopScores(multiset(Scores(out, Cosine)), multiset(Scores(Concat(candidates), Cosine)), max))
  {
    hide Searchable, LiveCandidates, Ranked, BareAll, Apart, Caches, Concat, AllRanked, InPlace, LowestPerNode, Plain, Scores, OnlyRead, ShowsTop, TopScores,
      Exactly, Shows, DistinctNodes;
    var all := new Result[MAX_RESULTS_PER_SHARD * |shards|];
    var count;
    count, parts := SearchShards(shards, q, way, all, candidates);
    out, sorted := Gather(all, count, q, max, parts);
    if q.Vector? || Exactly(q, way, candidates) {
      PlainAll(shards, q, way, parts, candidates);
    }
    if q.Vector? {
      BestExactly(sorted, parts, candidates, max);
      PartsDistinct(parts, candidates, Cosine);
      Places(sorted);
    }
    if Exactly(q, way, candidates) {
      Exact(q, way, sorted, out, parts, candidates, max);
    }
  }

  /** The gather half: the results of all shards are merged. */
  method Gather(all: array<Result>, count: nat, q: Query, max: nat, ghost parts: seq<seq<Result>>) returns (out: seq<Result>, ghost sorted: seq<Result>)
    requires count <= all.Length && BareAll(all[..count]) == Concat(parts)
    modifies all
    ensures q.Text? || DistinctNodes(Concat(parts)) ==> InPlace(sorted, q.By()) && multiset(BareAll(sorted)) == multiset(Concat(parts))
    ensures q.Vector? ==> LowestPerNode(sorted, Concat(parts))
    ensures out == sorted[..Min(max, |sorted|)]
  {
    hide BareAll, Concat, InPlace, DistinctNodes, LowestPerNode;
    ghost var found := all[..count];
    var none := new Result[0];
    if q.Text? {
      out, sorted := Fuse(all, count, none, 0, true, max);
    } else {
      out, sorted := Fuse(none, 0, all, count, false, max);
      LowestOfBare(sorted, found, Concat(parts));
    }
  }

  ghost predicate Exactly(q: Query, way: Way, candidates: seq<seq<Result>>) {
    && (forall s :: 0 <= s < |candidates| ==> Plain(q, way, candidates[s]))
    && (q.Vector? ==> DistinctNodes(Concat(candidates)))
  }

  /** Text queries of all kinds but those that add scores up by node, and these for one term of distinct nodes. */
  lemma ExactlyIf(q: Query, way: Way, candidates: seq<seq<Result>>)
    ensures q.Text? && (way.Sync? || way.isPhrase || way.terms == []) ==> Exactly(q, way, candidates)
    ensures q.Text? && way.Async? && |way.terms| == 1 && (forall i :: 0 <= i < |candidates| ==> DistinctNodes(candidates[i])) ==>
      Exactly(q, way, candidates)
  {}

  lemma TopIfDistinct(q: Query, way: Way, out: seq<Result>, candidates: seq<seq<Result>>, max: nat)
    requires q.Vector? && (Exactly(q, way, candidates) ==> Ranked(BareAll(out), Concat(candidates), max, Cosine))
    ensures DistinctNodes(Concat(candidates)) ==> TopScores(multiset(Scores(out, Cosine)), multiset(Scores(Concat(candidates), Cosine)), max)
  {
    hide TopScores, Concat, DistinctNodes, BareAll, Scores;
    BareScores(out, Cosine);
  }

  /** Where every shard shows its ranking as it is; a vector search always does. */
  lemma PlainAll(shards: seq<Shard>, q: Query, way: Way, parts: seq<seq<Result>>, candidates: seq<seq<Result>>)
    requires |parts| == |shards| == |candidates| && (q.Vector? || Exactly(q, way, candidates))
    requires forall i :: 0 <= i < |shards| ==> Searchable(shards[i], q, way)
    requires forall i :: 0 <= i < |shards| ==> LiveCandidates(shards[i], q, way) == candidates[i] && Shows(parts[i], shards[i], q, way)
    ensures AllRanked(parts, candidates, MAX_RESULTS_PER_SHARD, q.By())
  {
    hide Searchable, LiveCandidates, Shows, Ranked;
    forall i | 0 <= i < |shards| ensures Ranked(parts[i], candidates[i], MAX_RESULTS_PER_SHARD, q.By()) {
      PlainIsRanked(parts[i], shards[i], q, way);
    }
  }

  lemma LowestOfBare(sorted: seq<Result>, found: seq<Result>, bare: seq<Result>)
    requires LowestPerNode(sorted, found) && BareAll(found) == bare
    ensures LowestPerNode(sorted, bare) && (DistinctNodes(bare) ==> DistinctNodes(found))
  {
    hide Descending, DistinctNodes;
    assert Nodes(bare) == Nodes(found);
    assert BareAll(bare) == BareAll(found);
    BareNodes(bare, found);
    forall i | 0 <= i < |sorted| ensures Lowest(sorted[i], bare) {
      assert Lowest(sorted[i], found);
      var k :| 0 <= k < |found| && found[k].node == sorted[i].node && found[k].cosine == sorted[i].cosine;
      assert bare[k].node == sorted[i].node;
      var k' :| 0 <= k' < |found| && found[k'].node == sorted[i].node && found[k'].bm25f == sorted[i].bm25f;
      assert bare[k'].node == sorted[i].node;
    }
  }

  lemma Exact(q: Query, way: Way, sorted: seq<Result>, out: seq<Result>, parts: seq<seq<Result>>, candidates: seq<seq<Result>>, max: nat)
    requires Exactly(q, way, candidates) && AllRanked(parts, candidates, MAX_RESULTS_PER_SHARD, q.By()) && max <= MAX_RESULTS_PER_SHARD
    requires q.Text? || DistinctNodes(Concat(parts)) ==> InPlace(sorted, q.By()) && multiset(BareAll(sorted)) == multiset(Concat(parts))
    requires out == sorted[..Min(max, |sorted|)]
    ensures Ranked(BareAll(out), Concat(candidates), max, q.By())
  {
    hide AllRanked, Ranked, Concat, Scores, Descending, Plain, DistinctNodes;
    PartsDistinct(parts, candidates, q.By());
    BareScores(sorted, q.By());
    CutIsRanked(BareAll(sorted), parts, candidates, MAX_RESULTS_PER_SHARD, max, q.By());
    assert BareAll(sorted)[..Min(max, |sorted|)] == BareAll(out);
  }

  /** The shards' results are as distinct as their candidates. */
  lemma PartsDistinct(parts: seq<seq<Result>>, candidates: seq<seq<Result>>, field: Field)
    requires AllRanked(parts, candidates, MAX_RESULTS_PER_SHARD, field)
    ensures DistinctNodes(Concat(candidates)) ==> DistinctNodes(Concat(parts))
  {
    hide AllRanked, Concat;
    ConcatKeepsMembers(parts, candidates, MAX_RESULTS_PER_SHARD, field);
    if DistinctNodes(Concat(candidates)) {
      NoRepeatsInPart((r: Result) => r.node, Concat(parts), Concat(candidates));
    }
  }

  /** The scan of engine_search and the index of engine_search_async return the same scores. */
  lemma BothWays(scanned: seq<Result>, indexed: seq<Result>, candidates: seq<seq<Result>>, max: nat, field: Field)
    requires field != Rrf && Ranked(BareAll(scanned), Concat(candidates), max, field) && Ranked(BareAll(indexed), Concat(candidates), max, field)
    ensures Scores(scanned, field) == Scores(indexed, field)
  {
    SameScores(BareAll(scanned), BareAll(indexed), Concat(candidates), max, field);
    BareScores(scanned, field);
    BareScores(indexed, field);
  }
}
