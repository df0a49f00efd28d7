/** The searches of one shard: the sequential scans of src/unified_shard.c and the indexed search of
    src/inverted_index.c. Both rank the live documents; a score is any function of the record. */
module Search {
  import opened Bytes
  import opened Pages
  import opened PoolState
  import opened LeafChain
  import opened PostingChain
  import opened Documents
  import opened DataPages
  import opened InvertedIndex
  import opened Shard
  import opened Ranking
  import opened Common
  import opened Sequences
  import opened Queries
  import BufferPool
  import BTree
  import Tombstone

  const MAX_POSTINGS_READ := 1_000_000
  const VECTOR_DATA := 7

  // ---------- The documents of a term ----------

  /** The records of the documents that are indexed under `term`. */
  function Matching(docs: seq<Document>, term: int): seq<DocRecord>
    requires forall d :: 0 <= d < |docs| ==> |docs[d].terms| < 0x1_0000_0000
  {
    if docs == [] then []
    else
      var n := |docs| - 1;
      Matching(docs[..n], term) + if Positions(Hits(docs[n].terms), term) != [] then [docs[n].record] else []
  }

  ghost predicate Locates(docs: seq<Document>, places: seq<Place>, p: Posting) {
    && |places| == |docs| && p.doc < |docs|
    && places[p.doc] == Place(p.page, p.slot)
  }

  ghost predicate Named(docs: seq<Document>, list: seq<Posting>) {
    forall p :: p in list ==> p.doc < |docs|
  }

  ghost function RecordsOf(docs: seq<Document>, list: seq<Posting>): seq<DocRecord>
    requires Named(docs, list)
  {
    seq(|list|, i requires 0 <= i < |list| => docs[list[i].doc].record)
  }

  /** The postings of a term lead to the records of the documents that contain it. */
  lemma {:induction false} ExpectedLeads(docs: seq<Document>, places: seq<Place>, term: int)
    requires |places| == |docs| && Terms32(docs)
    ensures forall i :: 0 <= i < |Expected(docs, places, term)| ==> Locates(docs, places, Expected(docs, places, term)[i])
    ensures Named(docs, Expected(docs, places, term))
    ensures RecordsOf(docs, Expected(docs, places, term)) == Matching(docs, term)
  {
    hide Positions, Hits;
    if docs != [] {
      var n := |docs| - 1;
      ExpectedLeads(docs[..n], places[..n], term);
      var before, last := Expected(docs[..n], places[..n], term), PostingOf(n, places[n], Hits(docs[n].terms), term);
      assert RecordsOf(docs, before) == RecordsOf(docs[..n], before);
      assert RecordsOf(docs, before + last) == RecordsOf(docs, before) + RecordsOf(docs, last);
    }
  }

  /** Every document is indexed under term 0. */
  lemma {:induction false} AllMatchZero(docs: seq<Document>)
    requires forall d :: 0 <= d < |docs| ==> |docs[d].terms| < 0x1_0000_0000
    ensures Matching(docs, 0) == Records(docs)
  {
    hide Positions, Hits;
    if docs != [] {
      var n := |docs| - 1;
      AllMatchZero(docs[..n]);
      TermZero(docs[n].terms);
      assert Records(docs) == Records(docs[..n]) + [docs[n].record];
    }
  }

  lemma {:induction false} RecordsPermute(docs: seq<Document>, a: seq<Posting>, b: seq<Posting>)
    requires multiset(a) == multiset(b) && Named(docs, a)
    ensures Named(docs, b) && multiset(RecordsOf(docs, a)) == multiset(RecordsOf(docs, b))
    decreases |a|
  {
    SameLength(a, b);
    NamedPermute(docs, a, b);
    if a == [] {
      assert RecordsOf(docs, a) == RecordsOf(docs, b);
    } else {
      var a', x, l, r := WithoutOne(a, b);
      RecordsPermute(docs, a', l + r);
      RecordsConcat(docs, a', [x]);
      RecordsConcat(docs, l + [x], r);
      RecordsConcat(docs, l, [x]);
      RecordsConcat(docs, l, r);
      hide RecordsOf;
    }
  }

  lemma NamedPermute(docs: seq<Document>, a: seq<Posting>, b: seq<Posting>)
    requires multiset(a) == multiset(b) && Named(docs, a)
    ensures Named(docs, b)
  {
    forall p | p in b ensures p.doc < |docs| { assert p in multiset(b); }
  }

  lemma RecordsConcat(docs: seq<Document>, a: seq<Posting>, b: seq<Posting>)
    requires Named(docs, a + b)
    ensures Named(docs, a) && Named(docs, b)
    ensures RecordsOf(docs, a + b) == RecordsOf(docs, a) + RecordsOf(docs, b)
  {
    assert forall p :: p in a ==> p in a + b;
    assert forall p :: p in b ==> p in a + b;
  }

  /** The documents whose records match a term. */
  lemma {:induction false} MatchingDocuments(docs: seq<Document>, term: u32) returns (which: seq<nat>)
    requires forall d :: 0 <= d < |docs| ==> |docs[d].terms| < 0x1_0000_0000
    ensures Picks(which, |docs|) && Picked(which, Records(docs)) == Matching(docs, term)
    ensures forall d :: d in Containing(docs, term) <==> d in which
  {
    hide Positions, Hits;
    if docs == [] {
      which := [];
    } else {
      var n := |docs| - 1;
      which := MatchingDocuments(docs[..n], term);
      IndexedUnder(docs[n].terms, term);
      assert Records(docs) == Records(docs[..n]) + [docs[n].record];
      assert forall d: nat :: d in Containing(docs, term) <==>
        d in Containing(docs[..n], term) || (d == n && (term == 0 || term in docs[n].terms));
      if term == 0 || term in docs[n].terms {
        which := which + [n];
        assert which[|which| - 1] == n;
      }
    }
  }

  /** The documents a list of postings names, each once. */
  function Naming(list: seq<Posting>): (which: seq<nat>)
    ensures |which| == |list| && forall i :: 0 <= i < |list| ==> which[i] == list[i].doc
  {
    Map((p: Posting) => p.doc as nat, list)
  }

  function Names(list: seq<Posting>): set<nat> {
    set p | p in list :: p.doc
  }

  /** The postings name different documents. */
  ghost predicate NamesOnce(docs: seq<Document>, list: seq<Posting>) {
    Named(docs, list) && Picks(Naming(list), |docs|) && Picked(Naming(list), Records(docs)) == RecordsOf(docs, list)
  }

  lemma TermNames(docs: seq<Document>, places: seq<Place>, term: u32, all: seq<Posting>, max: nat)
    requires |places| == |docs| && Terms32(docs) && multiset(all) == multiset(Expected(docs, places, term))
    ensures NamesOnce(docs, Take(all, max))
    ensures |all| <= max ==> Names(Take(all, max)) == Containing(docs, term)
  {
    hide Expected;
    var expected, list := Expected(docs, places, term), Take(all, max);
    ExpectedAscends(docs, places, term);
    assert all == list + all[|list|..];
    assert multiset(list) <= multiset(expected);
    NoRepeatsInPart((p: Posting) => p.doc as nat, list, expected);
    forall p | p in list ensures p.doc < |docs| {
      assert p in multiset(expected);
    }
    if |all| <= max {
      SameMembers(all, expected);
      AllNamed(docs, places, term, all);
    }
  }

  lemma AllNamed(docs: seq<Document>, places: seq<Place>, term: u32, all: seq<Posting>)
    requires |places| == |docs| && Terms32(docs) && forall p :: p in all <==> p in Expected(docs, places, term)
    ensures Names(all) == Containing(docs, term)
  {
    hide Expected, Positions, Hits, FirstEight;
    forall d: nat ensures d in Names(all) <==> d in Containing(docs, term) {
      if d < |docs| {
        IndexedUnder(docs[d].terms, term);
        if d in Containing(docs, term) {
          var p := PostingOf(d, places[d], Hits(docs[d].terms), term)[0];
          ExpectedExactly(docs, places, term, p);
          assert p.doc in Names(all);
        }
      }
      if d in Names(all) {
        var p :| p in all && p.doc == d;
        ExpectedExactly(docs, places, term, p);
      }
    }
  }

  /** The indexed search for term 0 and the sequential scan return the same scores. */
  lemma IndexedIsScan(scan: seq<Result>, indexed: seq<Result>, docs: seq<Document>, bits: Bitset, q: Query, max: nat)
    requires forall d :: 0 <= d < |docs| ==> |docs[d].terms| < 0x1_0000_0000
    requires Ranked(scan, Candidates(Records(docs), bits, q), max, q.By())
    requires Ranked(indexed, Candidates(Matching(docs, 0), bits, q), max, q.By())
    ensures Scores(scan, q.By()) == Scores(indexed, q.By())
  {
    AllMatchZero(docs);
    SameScores(scan, indexed, Candidates(Records(docs), bits, q), max, q.By());
  }

  // ---------- What a scan sees in a page ----------

  /** Bytes 16 and 17. Posting pages have no header: there these bytes belong to the data page id of the first posting. */
  function PageType(page: Page): int {
    match page
    case Blank => 0
    case Row => 1
    case Leaf(_, _, _) => 4
    case Postings(_, _, postings) => if postings == [] then 0 else postings[0].page % 0x1_0000
    case Data(_) => VECTOR_DATA
    case Tombstones(_) => 6
  }

  /** The slot count: for a posting page, the number of positions of its first posting. */
  function SlotCount(page: Page): nat {
    match page
    case Leaf(_, _, entries) => |entries|
    case Postings(_, _, postings) => if postings == [] then 0 else |postings[0].positions|
    case Data(tuples) => |tuples|
    case _ => 0
  }

  /** The tuple length in slot `s`: for a posting page, the upper half of a position. */
  function SlotLength(page: Page, s: nat): int
    requires s < SlotCount(page) && (page.Data? || page.Postings?)
  {
    if page.Data? then RECORD_SIZE else page.postings[0].positions[s] / 0x1_0000
  }

  /** No position of the page reads as the length of a record. */
  predicate NoFalseRecord(page: Page) {
    page.Postings? ==> forall s :: 0 <= s < SlotCount(page) ==> SlotLength(page, s) != RECORD_SIZE
  }

  /** How many of the first `s` slots of a posting page read as records. */
  function FalseRecords(page: Page, s: nat): nat
    requires page.Postings? && s <= SlotCount(page)
  {
    if s == 0 then 0 else FalseRecords(page, s - 1) + if SlotLength(page, s - 1) == RECORD_SIZE then 1 else 0
  }

  /** How many false records a scan finds in a page. */
  function FalseSlots(page: Page): nat {
    if page.Postings? && PageType(page) == VECTOR_DATA then FalseRecords(page, SlotCount(page)) else 0
  }

  /** How many it finds in the pages before page `p`. */
  ghost function FalseSlotsBefore(view: View, p: int): nat
    requires forall k: int :: k in view
    decreases p
  {
    if p <= FIRST_DATA then 0 else FalseSlotsBefore(view, p - 1) + FalseSlots(view[p - 1])
  }

  // ---------- The scan ----------

  /** One record: skipped if deleted, or if its score does not qualify; else offered to the results. */
  method Consider(pool: BufferPool.Pool, r: DocRecord, q: Query, results: array<Result>, count: nat, max: nat, ghost seen: seq<Result>)
    returns (count': nat)
    requires pool.Valid() && |pool.state.pins| < |pool.state.frames| && pool.state.touched == {} && HasTombstones(pool.state.view)
    requires count <= max <= results.Length && max > 0 && Best(results[..count], seen, max, q.By())
    modifies pool, pool.frames, pool.wal, results
    ensures pool.Valid() && Seen(old(pool.state), pool.state)
    ensures count' <= max
    ensures Best(results[..count'], seen + OneCandidate(r, TombstoneBits(pool.state.view), q), max, q.By())
    ensures pool.peak <= if |old(pool.state).pins| + 1 > old(pool.peak) then |old(pool.state).pins| + 1 else old(pool.peak)
  {
    hide State.Inv, BufferPool.Pool.Valid, Kept, Best, Tombstone.IsDeleted;
    var page := pool.Read(TOMBSTONE_PAGE, BufferPool.Normal);
    assert seen + [] == seen;
    if Tombstone.IsDeleted(page.bits, r.doc) {
      return count;
    }
    if q.Text? && q.score(r) <= 0.0 {
      return count;
    }
    count' := Offer(results, count, max, ResultOf(r, q), q.By(), seen);
  }

  // ---------- Scanning one page ----------

  /** The records a scan has read from the first `s` slots of a page: those of a data page, as many false ones as slots
      of a posting page have the length of a record. */
  ghost predicate ReadFrom(page: Page, s: nat, read: seq<DocRecord>)
    requires s <= SlotCount(page)
  {
    if page.Data? then read == page.tuples[..s]
    else if page.Postings? then |read| == FalseRecords(page, s)
    else read == []
  }

  lemma ReadMore(page: Page, s: nat, read: seq<DocRecord>, r: DocRecord)
    requires s < SlotCount(page) && (page.Data? || page.Postings?) && ReadFrom(page, s, read)
    ensures SlotLength(page, s) != RECORD_SIZE ==> ReadFrom(page, s + 1, read)
    ensures SlotLength(page, s) == RECORD_SIZE && (page.Data? ==> r == page.tuples[s]) ==> ReadFrom(page, s + 1, read + [r])
  {}

  lemma CandidatesMore(read: seq<DocRecord>, r: DocRecord, bits: Bitset, q: Query, seen: seq<Result>)
    ensures seen + Candidates(read + [r], bits, q) == (seen + Candidates(read, bits, q)) + OneCandidate(r, bits, q)
  {
    assert (read + [r])[..|read|] == read;
  }

  /** The slot loop of a scan on the pinned page `p`. What a slot of a posting page leads to is no record: any bytes. */
  method ScanPage(pool: BufferPool.Pool, f: int, p: u32, q: Query, results: array<Result>, count: nat, max: nat, ghost seen: seq<Result>)
    returns (count': nat, ghost read: seq<DocRecord>)
    requires pool.Valid() && BTree.BTree.OnePin(pool.state, f, p) && HasTombstones(pool.state.view) && (p as int) in pool.state.view
    requires PageType(pool.state.view[p as int]) == VECTOR_DATA
    requires count <= max <= results.Length && max > 0 && Best(results[..count], seen, max, q.By())
    modifies pool, pool.frames, pool.wal, results
    ensures pool.Valid() && Seen(old(pool.state), pool.state) && count' <= max
    ensures ReadFrom(pool.state.view[p as int], SlotCount(pool.state.view[p as int]), read)
    ensures Best(results[..count'], seen + Candidates(read, TombstoneBits(pool.state.view), q), max, q.By())
    ensures pool.peak <= if old(pool.peak) > 2 then old(pool.peak) else 2
  {
    hide State.Inv, BufferPool.Pool.Valid, Kept, Best, Tombstone.IsDeleted, ReadFrom, Candidates, Wanted, OneCandidate, HasTombstones;
    ghost var view, bits := pool.state.view, TombstoneBits(pool.state.view);
    ghost var page0 := view[p as int];
    count', read := count, [];
    SeenNothing(pool.state);
    NothingRead(page0, bits, q, seen);
    for s := 0 to SlotCount(pool.PageAt(f, p))
      invariant pool.Valid() && Seen(old(pool.state), pool.state) && pool.state.Holds(f, p) && count' <= max
      invariant pool.state.view == view && pool.state.touched == {} && pool.state.pins == multiset{p as int}
      invariant ReadFrom(page0, s, read) && Best(results[..count'], seen + Candidates(read, bits, q), max, q.By())
      invariant pool.peak <= if old(pool.peak) > 2 then old(pool.peak) else 2
    {
      var page := pool.PageAt(f, p);
      var r: DocRecord := *;
      if page.Data? {
        r := page.tuples[s];
      }
      ReadMore(page0, s, read, r);
      if SlotLength(page, s) != RECORD_SIZE {
        continue;
      }
      ghost var t := pool.state;
      CandidatesMore(read, r, bits, q, seen);
      count' := Consider(pool, r, q, results, count', max, seen + Candidates(read, bits, q));
      read := read + [r];
      HoldsKept(t, pool.state, f, p);
      SeenTwice(old(pool.state), t, pool.state);
    }
  }

  ghost function TombstoneBits(view: View): Bitset
    requires HasTombstones(view)
  {
    view[TOMBSTONE_PAGE as int].bits
  }

  lemma NothingRead(page: Page, bits: Bitset, q: Query, seen: seq<Result>)
    ensures ReadFrom(page, 0, []) && Candidates([], bits, q) == [] && seen + [] == seen
  {}

  function Tuples(page: Page): seq<DocRecord> {
    if page.Data? then page.tuples else []
  }

  /** What a scan reads in a whole page: the records, or false ones. */
  ghost predicate ReadPage(page: Page, read: seq<DocRecord>) {
    if page.Data? then read == page.tuples else |read| == FalseSlots(page)
  }

  lemma AllRead(page: Page, read: seq<DocRecord>)
    requires PageType(page) == VECTOR_DATA && ReadFrom(page, SlotCount(page), read)
    ensures ReadPage(page, read)
  {}

  /** One page of a scan. */
  method ScanOne(pool: BufferPool.Pool, p: u32, q: Query, results: array<Result>, count: nat, max: nat, ghost seen: seq<Result>)
    returns (count': nat, ghost read: seq<DocRecord>)
    requires pool.Valid() && Quiet(pool.state) && p != INVALID && HasTombstones(pool.state.view) && (p as int) in pool.state.view
    requires count <= max <= results.Length && max > 0 && Best(results[..count], seen, max, q.By())
    modifies pool, pool.frames, pool.wal, results
    ensures pool.Valid() && Quiet(pool.state) && Seen(old(pool.state), pool.state) && count' <= max
    ensures ReadPage(pool.state.view[p as int], read)
    ensures Best(results[..count'], seen + Candidates(read, TombstoneBits(pool.state.view), q), max, q.By())
    ensures pool.peak <= if old(pool.peak) > 2 then old(pool.peak) else 2
  {
    hide State.Inv, BufferPool.Pool.Valid, FetchStep, Best, Tombstone.IsDeleted, Wanted, ReadFrom, HasTombstones, Kept;
    ghost var s0 := pool.state;
    count', read := count, [];
    var f := BTree.BTree.FetchOne(pool, p);
    ghost var s1 := pool.state;
    var page := pool.PageAt(f, p);
    if PageType(page) != VECTOR_DATA {
      pool.Unpin(p, false, BufferPool.Normal);
      SeenAround(s0, pool.state);
      assert Candidates([], TombstoneBits(pool.state.view), q) == [] && seen + [] == seen;
      return;
    }
    count', read := ScanPage(pool, f, p, q, results, count, max, seen);
    AllRead(page, read);
    assert pool.state.pins == multiset{p as int};
    pool.Unpin(p, false, BufferPool.SequentialScan);
    assert pool.state.pins == multiset{};
    SeenAround(s0, pool.state);
  }

  lemma SeenAround(s: State, t: State)
    requires Invisible(s, t) && s.pins == multiset{} && t.pins == s.pins
    ensures Seen(s, t)
  {}

  // ---------- Scanning the file ----------

  /** The first `k` data pages lie before page `p`, the others do not. */
  ghost predicate Passed(data: seq<int>, k: nat, p: int) {
    k <= |data| && (forall i :: 0 <= i < k ==> data[i] < p) && (forall i :: k <= i < |data| ==> p <= data[i])
  }

  lemma RisingFrom(data: seq<int>, k: nat, i: nat)
    requires Rising(data) && k <= i < |data|
    ensures data[k] <= data[i] && (data[k] == data[i] ==> k == i)
  {}

  lemma PassPage(view: View, data: seq<int>, k: nat, p: int)
    requires AllData(view, data) && Rising(data) && Passed(data, k, p) && p in view && (view[p].Data? ==> p in data)
    ensures var k' := if view[p].Data? then k + 1 else k;
      && Passed(data, k', p + 1)
      && FlatData(view, data[..k']) == FlatData(view, data[..k]) + Tuples(view[p])
  {
    if view[p].Data? {
      var i :| 0 <= i < |data| && data[i] == p;
      assert i >= k;
      RisingFrom(data, k, i);
      assert data[..k + 1][..k] == data[..k];
    } else {
      assert k < |data| ==> data[k] != p;
    }
  }

  lemma AllPassed(view: View, data: seq<int>, docs: seq<Document>, places: seq<Place>, size: int, k: nat, p: int)
    requires DataInv(view, data, docs, places, size) && Passed(data, k, p) && p > size
    ensures FlatData(view, data[..k]) == Records(docs)
  {
    assert k == |data|;
    assert data[..k] == data;
  }

  lemma NonePassed(view: View, data: seq<int>, docs: seq<Document>, places: seq<Place>, size: int)
    requires DataInv(view, data, docs, places, size)
    ensures Passed(data, 0, FIRST_DATA) && AllData(view, data) && Rising(data)
    ensures forall p: int :: p in view && view[p].Data? ==> p in data
    ensures FlatData(view, data[..0]) == []
  {}

  /** Positions that could read as the length of a record do not occur. */
  ghost predicate ShortDocuments(docs: seq<Document>) {
    forall d :: 0 <= d < |docs| ==> |docs[d].terms| <= RECORD_SIZE * 0x1_0000
  }

  lemma ShortPositions(terms: Terms, term: int)
    requires |terms| <= RECORD_SIZE * 0x1_0000
    ensures forall x :: x in FirstEight(Positions(Hits(terms), term)) ==> x < RECORD_SIZE * 0x1_0000
  {
    HitPositions(terms, term);
    TermPositions(terms, term);
  }

  lemma {:induction false} InChronological(view: View, pages: seq<int>, k: nat, i: nat)
    requires forall k :: 0 <= k < |pages| ==> pages[k] in view && view[pages[k]].Postings?
    requires k < |pages| && i < |view[pages[k]].postings|
    ensures view[pages[k]].postings[i] in Chronological(view, pages)
  {
    if k > 0 {
      InChronological(view, pages[1..], k - 1, i);
    }
  }

  /** No posting page reads as a page of records. */
  lemma NoFalseRecords(view: View, posts: map<int, seq<int>>, entries: seq<Entry>, size: int, docs: seq<Document>, places: seq<Place>, p: int)
    requires IndexInv(view, posts, entries, size) && |places| == |docs| && Terms32(docs) && ShortDocuments(docs) && p in view
    requires forall t: int :: IndexOf(view, posts, t) == Expected(docs, places, t)
    ensures NoFalseRecord(view[p])
  {
    hide IndexInv, IndexOf, Expected, PostingOf, Hits, NoFalseRecord, Terms32, ShortDocuments;
    var page := view[p];
    if !page.Postings? || page.postings == [] {
      EmptyPage(page);
    } else {
      FirstPosting(view, posts, entries, size, p);
      ExpectedExactly(docs, places, page.term, page.postings[0]);
      ShortPosting(docs, places, page.term, page.postings[0]);
      LargePositions(page);
    }
  }

  lemma EmptyPage(page: Page)
    requires !page.Postings? || page.postings == []
    ensures NoFalseRecord(page)
  {}

  lemma LargePositions(page: Page)
    requires page.Postings? && page.postings != [] && forall x :: x in page.postings[0].positions ==> x < RECORD_SIZE * 0x1_0000
    ensures NoFalseRecord(page)
  {
    forall s | 0 <= s < SlotCount(page) ensures SlotLength(page, s) != RECORD_SIZE {
      assert page.postings[0].positions[s] in page.postings[0].positions;
    }
  }

  lemma FirstPosting(view: View, posts: map<int, seq<int>>, entries: seq<Entry>, size: int, p: int)
    requires IndexInv(view, posts, entries, size) && p in view && view[p].Postings? && view[p].postings != []
    ensures view[p].postings[0] in IndexOf(view, posts, view[p].term)
  {
    hide Chronological, Lookup;
    var t: int := view[p].term;
    IndexLists(view, posts, entries, size, t);
    hide PostLinked;
    var k :| 0 <= k < |posts[t]| && posts[t][k] == p;
    InChronological(view, posts[t], k, 0);
  }

  lemma ShortPosting(docs: seq<Document>, places: seq<Place>, term: int, p: Posting)
    requires |places| == |docs| && Terms32(docs) && ShortDocuments(docs) && p.doc < |docs|
    requires PostingOf(p.doc, places[p.doc], Hits(docs[p.doc].terms), term) == [p]
    ensures forall x :: x in p.positions ==> x < RECORD_SIZE * 0x1_0000
  {
    hide Positions, Hits;
    ShortPositions(docs[p.doc].terms, term);
  }

  lemma NoFalseSlots(page: Page)
    requires NoFalseRecord(page)
    ensures FalseSlots(page) == 0
  {
    if page.Postings? {
      NoneFalse(page, SlotCount(page));
    }
  }

  lemma {:induction false} NoneFalse(page: Page, s: nat)
    requires page.Postings? && NoFalseRecord(page) && s <= SlotCount(page)
    ensures FalseRecords(page, s) == 0
  {
    if s > 0 {
      NoneFalse(page, s - 1);
    }
  }

  lemma {:induction false} NoneBefore(view: View, p: int)
    requires (forall k: int :: k in view) && forall k: int :: k in view ==> FalseSlots(view[k]) == 0
    ensures FalseSlotsBefore(view, p) == 0
    decreases p
  {
    if p > FIRST_DATA {
      NoneBefore(view, p - 1);
    }
  }

  /** With short documents a scan reads no false record. */
  lemma ShortIsReadable(shard: Shard, p: int)
    requires shard.Valid() && ShortDocuments(shard.docs)
    ensures forall k: int :: k in shard.index.tree.pool.state.view
    ensures FalseSlotsBefore(shard.index.tree.pool.state.view, p) == 0
  {
    hide State.Inv, BufferPool.Pool.Valid, TreeInv, Flat, IndexInv, IndexOf, StorageInv, Expected, NoFalseRecord, FalseSlots, FalseSlotsBefore,
      Terms32, ShortDocuments;
    var view := shard.index.tree.pool.state.view;
    shard.Facts();
    shard.index.tree.pool.Facts();
    ViewTotal(shard.index.tree.pool.state);
    forall k: int | k in view ensures FalseSlots(view[k]) == 0 {
      NoFalseRecords(view, shard.index.posts, shard.index.tree.Entries(), |shard.index.tree.pool.state.disk|, shard.docs, shard.places, k);
      NoFalseSlots(view[k]);
    }
    NoneBefore(view, p);
  }

  /** The records read so far are those found in the data pages and false ones. */
  ghost predicate ReadSoFar(view: View, p: int, found: seq<DocRecord>, extra: seq<DocRecord>, read: seq<DocRecord>)
    requires forall k: int :: k in view
  {
    multiset(read) == multiset(found + extra) && |extra| == FalseSlotsBefore(view, p)
  }

  lemma ReadOnePage(view: View, p: int, found: seq<DocRecord>, extra: seq<DocRecord>, read: seq<DocRecord>, more: seq<DocRecord>)
    requires (forall k: int :: k in view) && p >= FIRST_DATA && ReadSoFar(view, p, found, extra, read) && ReadPage(view[p], more)
    ensures ReadSoFar(view, p + 1, found + Tuples(view[p]), if view[p].Data? then extra else extra + more, read + more)
  {}

  /** The page loop of a scan. It ends one page behind the end of the file. */
  method ScanPages(pool: BufferPool.Pool, next: u32, q: Query, results: array<Result>, max: nat,
                   ghost data: seq<int>, ghost docs: seq<Document>, ghost places: seq<Place>) returns (count: nat, ghost extra: seq<DocRecord>)
    requires pool.Valid() && Quiet(pool.state) && HasTombstones(pool.state.view) && 0 < max <= results.Length
    requires next == |pool.state.disk| && 2 <= next < INVALID
    requires DataInv(pool.state.view, data, docs, places, next)
    modifies pool, pool.frames, pool.wal, results
    ensures pool.Valid() && Quiet(pool.state) && Seen(old(pool.state), pool.state) && count <= max
    ensures (forall p: int :: p in pool.state.view) && |extra| == FalseSlotsBefore(pool.state.view, next + 1)
    ensures Best(results[..count], Candidates(Records(docs) + extra, TombstoneBits(pool.state.view), q), max, q.By())
    ensures pool.peak <= if old(pool.peak) > 2 then old(pool.peak) else 2
  {
    hide State.Inv, BufferPool.Pool.Valid, Best, DataInv, Kept, FlatData, Records, HasTombstones, ReadPage, Passed, Candidates, Rising, ReadSoFar,
      FalseSlotsBefore;
    ghost var view, bits := pool.state.view, TombstoneBits(pool.state.view);
    pool.Facts();
    ViewTotal(pool.state);
    SeenNothing(pool.state);
    NonePassed(view, data, docs, places, next);
    BestEmpty(max, q.By());
    NoCandidates(view, bits, q);
    count := 0;
    assert results[..count] == [];
    ghost var k: nat := 0;
    ghost var found: seq<DocRecord>, read: seq<DocRecord> := [], [];
    extra := [];
    var p: u32 := FIRST_DATA;
    while p <= next
      invariant FIRST_DATA <= p <= next + 1 && count <= max
      invariant pool.Valid() && Quiet(pool.state) && Seen(old(pool.state), pool.state) && pool.state.view == view
      invariant Passed(data, k, p) && k <= |data| && AllData(view, data[..k]) && found == FlatData(view, data[..k])
      invariant ReadSoFar(view, p, found, extra, read) && Best(results[..count], Candidates(read, bits, q), max, q.By())
      invariant pool.peak <= if old(pool.peak) > 2 then old(pool.peak) else 2
      decreases next + 1 - p
    {
      ghost var s := pool.state;
      ghost var more;
      count, more := ScanOne(pool, p, q, results, count, max, Candidates(read, bits, q));
      SeenTwice(old(pool.state), s, pool.state);
      PassPage(view, data, k, p);
      CandidatesConcat(read, more, bits, q);
      ReadOnePage(view, p, found, extra, read, more);
      found, read := found + Tuples(view[p as int]), read + more;
      if view[p as int].Data? {
        k := k + 1;
      } else {
        extra := extra + more;
      }
      p := p + 1;
    }
    AllPassed(view, data, docs, places, next, k, p);
    ReadAll(view, p, found, extra, read, bits, q, results[..count], max);
  }

  lemma NoCandidates(view: View, bits: Bitset, q: Query)
    requires forall k: int :: k in view
    ensures Candidates([], bits, q) == [] && ReadSoFar(view, FIRST_DATA, [], [], [])
  {}

  lemma ReadAll(view: View, p: int, found: seq<DocRecord>, extra: seq<DocRecord>, read: seq<DocRecord>, bits: Bitset, q: Query, kept: seq<Result>, max: nat)
    requires (forall k: int :: k in view) && ReadSoFar(view, p, found, extra, read) && Best(kept, Candidates(read, bits, q), max, q.By())
    ensures |extra| == FalseSlotsBefore(view, p) && Best(kept, Candidates(found + extra, bits, q), max, q.By())
  {
    hide TopScores, Candidates, FalseSlotsBefore;
    CandidatesPermute(read, found + extra, bits, q);
    ScoresPermute(Candidates(read, bits, q), Candidates(found + extra, bits, q), q.By());
  }

  /** shard_search_bm25f and shard_search_vector: the best `max` of all live records, best first - and of as many false
      records as slots of posting pages read as records. Result `k` is that of document `ids[k]`, or of a false record if
      there is no such document. */
  method Scan(shard: Shard, q: Query, results: array<Result>, max: nat) returns (count: nat, ghost extra: seq<DocRecord>, ghost ids: seq<nat>)
    requires shard.Valid() && shard.index.tree.counter.next < INVALID && 0 < max <= results.Length
    modifies shard.index.tree.pool, shard.index.tree.pool.frames, shard.index.tree.pool.wal, results
    ensures shard.Valid() && Seen(old(shard.index.tree.pool.state), shard.index.tree.pool.state)
    ensures count <= max && Ranked(results[..count], Candidates(Records(shard.docs) + extra, shard.Bits(), q), max, q.By())
    ensures Readable(shard) <==> extra == []
    ensures Readable(shard) ==> Ranked(results[..count], Candidates(Records(shard.docs), shard.Bits(), q), max, q.By())
    ensures ShowsBest(results[..count], ids, Records(shard.docs) + extra, All(|shard.docs| + |extra|), shard.Bits(), q, max)
    ensures LiveResults(results[..count], ids, shard.docs, shard.Bits(), q)
    ensures LiveShown(ids, count, All(|shard.docs| + |extra|), shard.docs, shard.Bits(), q, max)
    ensures shard.index.tree.pool.peak <= if old(shard.index.tree.pool.peak) > 2 then old(shard.index.tree.pool.peak) else 2
  {
    hide *;
    count, extra := RankScan(shard, q, results, max);
    shard.Facts();
    ids := BestScanned(results[..count], shard.docs, extra, shard.Bits(), q, max);
  }

  lemma BestScanned(out: seq<Result>, docs: seq<Document>, extra: seq<DocRecord>, bits: Bitset, q: Query, max: nat) returns (ids: seq<nat>)
    requires Ranked(out, Candidates(Records(docs) + extra, bits, q), max, q.By())
    ensures |Records(docs) + extra| == |docs| + |extra|
    ensures ShowsBest(out, ids, Records(docs) + extra, All(|docs| + |extra|), bits, q, max)
    ensures LiveResults(out, ids, docs, bits, q) && LiveShown(ids, |out|, All(|docs| + |extra|), docs, bits, q, max)
  {
    hide Ranked, Candidates, Records, ShowsBest, LiveResults, LiveShown, All;
    RecordsThenMore(docs, extra);
    ids := RankedShowsBest(out, Records(docs) + extra, bits, q, max);
    BestIsLive(out, ids, docs, extra, All(|docs| + |extra|), bits, q, max);
  }

  lemma RecordsThenMore(docs: seq<Document>, extra: seq<DocRecord>)
    ensures |Records(docs) + extra| == |docs| + |extra| && Records(docs) + [] == Records(docs)
    ensures forall d :: 0 <= d < |docs| ==> (Records(docs) + extra)[d] == docs[d].record
  {}

  /** Every result that names a document has its node and its score, and the document is not deleted. */
  ghost predicate LiveResults(out: seq<Result>, ids: seq<nat>, docs: seq<Document>, bits: Bitset, q: Query) {
    |out| == |ids| && forall k :: 0 <= k < |out| && ids[k] < |docs| ==>
      var record := docs[ids[k]].record;
      && !Tombstone.IsDeleted(bits, record.doc) && out[k].node == record.node
      && if q.Text? then out[k].bm25f == q.score(record) > 0.0 && out[k].cosine == 0.0 else out[k].cosine == q.score(record) && out[k].bm25f == 0.0
  }

  /** While there is room, every document asked for that is not deleted has a result, unless its text score is not positive. */
  ghost predicate LiveShown(ids: seq<nat>, count: nat, asked: set<nat>, docs: seq<Document>, bits: Bitset, q: Query, max: nat) {
    count < max ==> forall d :: d in asked && d < |docs| && !Tombstone.IsDeleted(bits, docs[d].record.doc) && d !in ids ==>
      q.Text? && q.score(docs[d].record) <= 0.0
  }

  lemma BestIsLive(out: seq<Result>, ids: seq<nat>, docs: seq<Document>, extra: seq<DocRecord>, asked: set<nat>, bits: Bitset, q: Query, max: nat)
    requires (forall d :: d in asked ==> d < |docs| + |extra|) && ShowsBest(out, ids, Records(docs) + extra, asked, bits, q, max)
    ensures LiveResults(out, ids, docs, bits, q) && LiveShown(ids, |out|, asked, docs, bits, q, max)
  {
    hide Records, Tombstone.IsDeleted;
    RecordsThenMore(docs, extra);
  }

  /** The ranking of what the pages hold. */
  method RankScan(shard: Shard, q: Query, results: array<Result>, max: nat) returns (count: nat, ghost extra: seq<DocRecord>)
    requires shard.Valid() && shard.index.tree.counter.next < INVALID && 0 < max <= results.Length
    modifies shard.index.tree.pool, shard.index.tree.pool.frames, shard.index.tree.pool.wal, results
    ensures shard.Valid() && Seen(old(shard.index.tree.pool.state), shard.index.tree.pool.state)
    ensures count <= max && Ranked(results[..count], Candidates(Records(shard.docs) + extra, shard.Bits(), q), max, q.By())
    ensures Readable(shard) <==> extra == []
    ensures Readable(shard) ==> Ranked(results[..count], Candidates(Records(shard.docs), shard.Bits(), q), max, q.By())
    ensures shard.index.tree.pool.peak <= if old(shard.index.tree.pool.peak) > 2 then old(shard.index.tree.pool.peak) else 2
  {
    hide State.Inv, BufferPool.Pool.Valid, TreeInv, Flat, IndexInv, IndexOf, DataInv, Covered, Expected, Best, Tombstone.IsDeleted,
      Wanted, Kept, FlatData, Records, HasTombstones, FalseSlotsBefore, Descending, Scores, Candidates;
    ghost var pool := shard.index.tree.pool;
    ghost var view := pool.state.view;
    count, extra := ScanPages(shard.index.tree.pool, shard.index.tree.counter.next, q, results, max, shard.data, shard.docs, shard.places);
    SortResults(results, count, max, q.By(), Candidates(Records(shard.docs) + extra, TombstoneBits(view), q));
    assert Records(shard.docs) + [] == Records(shard.docs);
  }

  /** No slot of a posting page that a scan meets reads as a record. */
  ghost predicate Readable(shard: Shard)
    reads shard, shard.index, shard.index.tree, shard.index.tree.pool, shard.index.tree.pool.frames, shard.index.tree.pool.wal, shard.index.tree.counter
  {
    && (forall p: int :: p in shard.index.tree.pool.state.view)
    && FalseSlotsBefore(shard.index.tree.pool.state.view, shard.index.tree.counter.next + 1) == 0
  }

  method SortResults(results: array<Result>, count: nat, max: nat, field: Field, ghost candidates: seq<Result>)
    requires count <= results.Length && Best(results[..count], candidates, max, field)
    modifies results
    ensures Ranked(results[..count], candidates, max, field)
  {
    hide TopScores, Descending;
    ghost var kept := results[..count];
    ExchangeSort(results, count, field);
    ScoresPermute(kept, results[..count], field);
  }

  // ---------- The indexed search ----------

  /** The record one posting leads to. */
  method ConsiderPosting(pool: BufferPool.Pool, p: Posting, ghost r: DocRecord, q: Query, results: array<Result>, count: nat, max: nat,
                         ghost seen: seq<Result>) returns (count': nat)
    requires pool.Valid() && Quiet(pool.state) && HasTombstones(pool.state.view) && p.page != INVALID
    requires Holds(pool.state.view, Place(p.page, p.slot), r)
    requires count <= max <= results.Length && max > 0 && Best(results[..count], seen, max, q.By())
    modifies pool, pool.frames, pool.wal, results
    ensures pool.Valid() && Quiet(pool.state) && Seen(old(pool.state), pool.state) && count' <= max
    ensures Best(results[..count'], seen + OneCandidate(r, TombstoneBits(pool.state.view), q), max, q.By())
    ensures pool.peak <= if old(pool.peak) > 2 then old(pool.peak) else 2
  {
    hide State.Inv, BufferPool.Pool.Valid, FetchStep, Best, Tombstone.IsDeleted, Wanted, HasTombstones, Kept, OneCandidate;
    ghost var s0 := pool.state;
    count' := count;
    var f := BTree.BTree.FetchOne(pool, p.page);
    var page := pool.PageAt(f, p.page);
    if p.slot < SlotCount(page) && SlotLength(page, p.slot) == RECORD_SIZE {
      count' := Consider(pool, page.tuples[p.slot], q, results, count, max, seen);
    } else {
      assert false;
    }
    pool.Unpin(p.page, false, BufferPool.Normal);
    assert pool.state.pins == multiset{};
    SeenAround(s0, pool.state);
  }

  /** Each posting leads to the record of its document. */
  ghost predicate Leads(view: View, docs: seq<Document>, list: seq<Posting>) {
    && Named(docs, list)
    && forall p :: p in list ==> Holds(view, Place(p.page, p.slot), docs[p.doc].record) && p.page != INVALID
  }

  /** The posting loop of the indexed search. */
  method ConsiderPostings(pool: BufferPool.Pool, list: seq<Posting>, q: Query, results: array<Result>, max: nat, ghost docs: seq<Document>)
    returns (count: nat)
    requires pool.Valid() && Quiet(pool.state) && HasTombstones(pool.state.view) && Leads(pool.state.view, docs, list)
    requires 0 < max <= results.Length
    modifies pool, pool.frames, pool.wal, results
    ensures pool.Valid() && Quiet(pool.state) && Seen(old(pool.state), pool.state) && count <= max
    ensures Best(results[..count], Candidates(RecordsOf(docs, list), TombstoneBits(pool.state.view), q), max, q.By())
    ensures pool.peak <= if old(pool.peak) > 2 then old(pool.peak) else 2
  {
    hide State.Inv, BufferPool.Pool.Valid, Best, Tombstone.IsDeleted, Wanted, HasTombstones, Kept, OneCandidate, Candidates, Holds, RecordsOf;
    ghost var view, bits := pool.state.view, TombstoneBits(pool.state.view);
    SeenNothing(pool.state);
    count := 0;
    assert results[..count] == [] && list[..0] == [];
    NoRecords(docs, bits, q);
    BestEmpty(max, q.By());
    for i := 0 to |list|
      invariant count <= max && pool.Valid() && Quiet(pool.state) && Seen(old(pool.state), pool.state) && pool.state.view == view
      invariant Named(docs, list[..i]) && Best(results[..count], Candidates(RecordsOf(docs, list[..i]), bits, q), max, q.By())
      invariant pool.peak <= if old(pool.peak) > 2 then old(pool.peak) else 2
    {
      ghost var s := pool.state;
      assert list[i] in list;
      NextCandidate(docs, list, i, bits, q);
      count := ConsiderPosting(pool, list[i], docs[list[i].doc].record, q, results, count, max, Candidates(RecordsOf(docs, list[..i]), bits, q));
      SeenTwice(old(pool.state), s, pool.state);
    }
    assert list[..|list|] == list;
  }

  lemma NoRecords(docs: seq<Document>, bits: Bitset, q: Query)
    ensures Named(docs, []) && Candidates(RecordsOf(docs, []), bits, q) == []
  {}

  lemma NextCandidate(docs: seq<Document>, list: seq<Posting>, i: nat, bits: Bitset, q: Query)
    requires Named(docs, list) && i < |list|
    ensures list[i].doc < |docs| && Named(docs, list[..i]) && Named(docs, list[..i + 1])
    ensures Candidates(RecordsOf(docs, list[..i + 1]), bits, q)
         == Candidates(RecordsOf(docs, list[..i]), bits, q) + OneCandidate(docs[list[i].doc].record, bits, q)
  {
    assert list[i] in list;
    NamedPart(docs, list, list[..i]);
    NamedPart(docs, list, list[..i + 1]);
    assert RecordsOf(docs, list[..i + 1])[..i] == RecordsOf(docs, list[..i]);
  }

  lemma NamedPart(docs: seq<Document>, list: seq<Posting>, part: seq<Posting>)
    requires Named(docs, list) && part <= list
    ensures Named(docs, part)
  {
    assert forall p :: p in part ==> p in list;
  }

  /** What the walk of a term's chain returns leads to the records of its documents. */
  lemma ListLeads(view: View, data: seq<int>, docs: seq<Document>, places: seq<Place>, size: int, term: int, all: seq<Posting>, max: nat)
    requires DataInv(view, data, docs, places, size) && Terms32(docs)
    requires multiset(all) == multiset(Expected(docs, places, term))
    ensures Leads(view, docs, Take(all, max))
    ensures |all| == |Expected(docs, places, term)|
    ensures |all| <= max ==> multiset(RecordsOf(docs, Take(all, max))) == multiset(Matching(docs, term))
  {
    hide Holds, FlatData, PostingOf, Rising, AllData;
    var expected := Expected(docs, places, term);
    ExpectedLeads(docs, places, term);
    RecordsPermute(docs, expected, all);
    SameLength(all, expected);
    NamedPart(docs, all, Take(all, max));
    forall p | p in Take(all, max) ensures Holds(view, Place(p.page, p.slot), docs[p.doc].record) && p.page != INVALID {
      assert p in all;
      assert p in multiset(expected);
      var i :| 0 <= i < |expected| && expected[i] == p;
      assert Locates(docs, places, p);
      HeldPage(view, data, docs, places, size, p.doc);
    }
  }

  lemma HeldPage(view: View, data: seq<int>, docs: seq<Document>, places: seq<Place>, size: int, d: nat)
    requires DataInv(view, data, docs, places, size) && d < |docs|
    ensures Holds(view, places[d], docs[d].record) && places[d].page != INVALID
  {
    hide FlatData, Rising;
    assert Holds(view, places[d], docs[d].record);
    var k :| 0 <= k < |data| && data[k] == places[d].page;
  }

  /** The postings of a term, up to the cap, and where they lead. */
  method TermPostings(shard: Shard, term: u32) returns (list: seq<Posting>)
    requires shard.Valid()
    modifies shard.index.tree.pool, shard.index.tree.pool.frames, shard.index.tree.pool.wal
    ensures shard.Valid() && Seen(old(shard.index.tree.pool.state), shard.index.tree.pool.state)
    ensures list == Take(shard.index.NewestFirstOf(term), 1_000_000)
    ensures Leads(shard.index.tree.pool.state.view, shard.docs, list) && NamesOnce(shard.docs, list)
    ensures |shard.index.Postings(term)| <= 1_000_000 ==>
      multiset(RecordsOf(shard.docs, list)) == multiset(Matching(shard.docs, term)) && Names(list) == Containing(shard.docs, term)
    ensures shard.index.tree.pool.peak <= if old(shard.index.tree.pool.peak) > 1 then old(shard.index.tree.pool.peak) else 1
  {
    hide State.Inv, BufferPool.Pool.Valid, TreeInv, Flat, IndexInv, DataInv, Covered, Expected, Kept, FlatData, Records, HasTombstones,
      Matching, RecordsOf, NewestFirst, Chronological, Leads, Holds, NamesOnce, Names, Containing;
    ghost var view, size := shard.index.tree.pool.state.view, |shard.index.tree.pool.state.disk|;
    shard.Facts();
    shard.index.SameLists(term);
    ListLeads(view, shard.data, shard.docs, shard.places, size, term, shard.index.NewestFirstOf(term), MAX_POSTINGS_READ);
    TermNames(shard.docs, shard.places, term, shard.index.NewestFirstOf(term), MAX_POSTINGS_READ);
    list := shard.index.GetPostings(term, MAX_POSTINGS_READ);
  }

  /** shard_search_bm25f_indexed: the best `max` of the live documents its list of postings names, which is cut at the cap,
      newest page first; below the cap these are all documents of the term. */
  method SearchIndexed(shard: Shard, term: u32, q: Query, results: array<Result>, max: nat) returns (count: nat, ghost ids: seq<nat>)
    requires shard.Valid() && q.Text? && 0 < max <= results.Length
    modifies shard.index.tree.pool, shard.index.tree.pool.frames, shard.index.tree.pool.wal, results
    ensures shard.Valid() && Seen(old(shard.index.tree.pool.state), shard.index.tree.pool.state) && count <= max
    ensures var list := Take(shard.index.NewestFirstOf(term), 1_000_000);
      && Named(shard.docs, list) && Ranked(results[..count], Candidates(RecordsOf(shard.docs, list), shard.Bits(), q), max, Bm25f)
      && BestNamed(results[..count], ids, shard.docs, Names(list), shard.Bits(), q, max)
    ensures |shard.index.Postings(term)| <= 1_000_000 ==>
      && Ranked(results[..count], Candidates(Matching(shard.docs, term), shard.Bits(), q), max, Bm25f)
      && BestNamed(results[..count], ids, shard.docs, Containing(shard.docs, term), shard.Bits(), q, max)
    ensures LiveResults(results[..count], ids, shard.docs, shard.Bits(), q)
    ensures shard.index.tree.pool.peak <= if old(shard.index.tree.pool.peak) > 2 then old(shard.index.tree.pool.peak) else 2
  {
    hide Shard.Valid, Ranked, Candidates, Matching, RecordsOf, Index.NewestFirstOf, Take, Index.Postings, Kept, BestNamed, LiveResults, Names, Containing, NamesOnce;
    ghost var list;
    count, list := RankPostings(shard, term, q, results, max);
    ids := BestOfList(results[..count], list, shard.docs, shard.Bits(), q, max);
    if |shard.index.Postings(term)| <= MAX_POSTINGS_READ {
      CandidatesPermute(RecordsOf(shard.docs, list), Matching(shard.docs, term), shard.Bits(), q);
      RankedPermuted(results[..count], Candidates(RecordsOf(shard.docs, list), shard.Bits(), q), Candidates(Matching(shard.docs, term), shard.Bits(), q), max, Bm25f);
    }
  }

  /** The best documents among those asked for, and all of them while there is room. */
  ghost predicate BestNamed(out: seq<Result>, ids: seq<nat>, docs: seq<Document>, asked: set<nat>, bits: Bitset, q: Query, max: nat) {
    && (forall d :: d in asked ==> d < |docs|) && |Records(docs)| == |docs|
    && ShowsBest(out, ids, Records(docs), asked, bits, q, max) && LiveShown(ids, |out|, asked, docs, bits, q, max)
  }

  lemma BestOfList(out: seq<Result>, list: seq<Posting>, docs: seq<Document>, bits: Bitset, q: Query, max: nat) returns (ids: seq<nat>)
    requires NamesOnce(docs, list) && Ranked(out, Candidates(RecordsOf(docs, list), bits, q), max, q.By())
    ensures BestNamed(out, ids, docs, Names(list), bits, q, max) && LiveResults(out, ids, docs, bits, q)
  {
    hide Ranked, Candidates, RecordsOf, Records, ShowsBest, LiveResults, LiveShown, Picked, Picks;
    RecordsThenMore(docs, []);
    assert Records(docs) + [] == Records(docs);
    var first := RankedShowsBest(out, RecordsOf(docs, list), bits, q, max);
    ListNamed(list);
    ids := AmongMore(out, first, RecordsOf(docs, list), Naming(list), Records(docs), Names(list), bits, q, max);
    BestIsLive(out, ids, docs, [], Names(list), bits, q, max);
  }

  lemma ListNamed(list: seq<Posting>)
    ensures forall d :: d in Names(list) <==> d in Naming(list)
  {
    var which := Naming(list);
    forall d | d in Names(list) ensures d in which {
      var p :| p in list && p.doc == d;
      var i :| 0 <= i < |list| && list[i] == p;
      assert which[i] == d;
    }
  }

  /** The postings of the term and the ranking of what they lead to. */
  method RankPostings(shard: Shard, term: u32, q: Query, results: array<Result>, max: nat) returns (count: nat, ghost list: seq<Posting>)
    requires shard.Valid() && q.Text? && 0 < max <= results.Length
    modifies shard.index.tree.pool, shard.index.tree.pool.frames, shard.index.tree.pool.wal, results
    ensures shard.Valid() && Seen(old(shard.index.tree.pool.state), shard.index.tree.pool.state) && count <= max
    ensures shard.Storage() && Terms32(shard.docs) && list == Take(shard.index.NewestFirstOf(term), 1_000_000)
    ensures Named(shard.docs, list) && Ranked(results[..count], Candidates(RecordsOf(shard.docs, list), shard.Bits(), q), max, Bm25f)
    ensures NamesOnce(shard.docs, list)
    ensures |shard.index.Postings(term)| <= 1_000_000 ==>
      multiset(RecordsOf(shard.docs, list)) == multiset(Matching(shard.docs, term)) && Names(list) == Containing(shard.docs, term)
    ensures shard.index.tree.pool.peak <= if old(shard.index.tree.pool.peak) > 2 then old(shard.index.tree.pool.peak) else 2
  {
    hide Shard.Valid, Shard.Storage, Ranked, Candidates, Matching, RecordsOf, Index.NewestFirstOf, Take, Index.Postings, Kept, Leads, NamesOnce, Names, Containing;
    var postings := TermPostings(shard, term);
    list := postings;
    ghost var s := shard.index.tree.pool.state;
    LeadsNamed(s.view, shard.docs, list);
    count := RankList(shard, postings, q, results, max);
    SeenTwice(old(shard.index.tree.pool.state), s, shard.index.tree.pool.state);
    shard.Facts();
  }

  /** The ranking of what a list of postings leads to. */
  method RankList(shard: Shard, list: seq<Posting>, q: Query, results: array<Result>, max: nat) returns (count: nat)
    requires shard.Valid() && q.Text? && 0 < max <= results.Length && Leads(shard.index.tree.pool.state.view, shard.docs, list)
    modifies shard.index.tree.pool, shard.index.tree.pool.frames, shard.index.tree.pool.wal, results
    ensures shard.Valid() && Seen(old(shard.index.tree.pool.state), shard.index.tree.pool.state) && count <= max
    ensures forall t: int :: shard.index.NewestFirstOf(t) == old(shard.index.NewestFirstOf(t)) && shard.index.Postings(t) == old(shard.index.Postings(t))
    ensures Named(shard.docs, list) && Ranked(results[..count], Candidates(RecordsOf(shard.docs, list), shard.Bits(), q), max, Bm25f)
    ensures shard.index.tree.pool.peak <= if old(shard.index.tree.pool.peak) > 2 then old(shard.index.tree.pool.peak) else 2
  {
    hide State.Inv, BufferPool.Pool.Valid, TreeInv, Flat, IndexInv, DataInv, Covered, Expected, Best, Tombstone.IsDeleted, IndexOf,
      Wanted, Kept, FlatData, Records, HasTombstones, Ranked, Candidates, RecordsOf, Leads, Holds, NewestFirst;
    LeadsNamed(shard.index.tree.pool.state.view, shard.docs, list);
    shard.TombstonesThere();
    count := ConsiderPostings(shard.index.tree.pool, list, q, results, max, shard.docs);
    SortResults(results, count, max, Bm25f, Candidates(RecordsOf(shard.docs, list), shard.Bits(), q));
  }

  lemma LeadsNamed(view: View, docs: seq<Document>, list: seq<Posting>)
    requires Leads(view, docs, list)
    ensures Named(docs, list)
  {}
}
