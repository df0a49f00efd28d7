/** What the invariants of a shard mean for its file: who owns each page, and what survives a crash. */
module Guarantees {
  import opened Bytes
  import opened Pages
  import opened PoolState
  import opened LeafChain
  import opened Sequences
  import opened PostingChain
  import opened Documents
  import opened DataPages
  import opened InvertedIndex
  import opened Shard
  import BufferPool
  import Tombstone
  import Wal

  // ---------- Ownership ----------

  datatype Owner = OfTree | OfTerm(id: int) | OfData

  ghost predicate Owns(view: View, chain: seq<int>, posts: map<int, seq<int>>, data: seq<int>, owner: Owner, p: int) {
    match owner
    case OfTree => p in chain
    case OfTerm(t) => t in posts && p in posts[t]
    case OfData => p in data
  }

  ghost function OwnerOf(view: View, p: int): Owner
    requires p in view
  {
    match view[p]
    case Leaf(_, _, _) => OfTree
    case Postings(term, _, _) => OfTerm(term)
    case _ => OfData
  }

  /** Every page behind the first three has exactly one owner: the tree, one term, or the data. */
  lemma PageOwnership(shard: Shard, p: int)
    requires shard.Valid() && FIRST_FREE <= p < shard.index.tree.counter.next
    ensures exists owner :: OnlyOwner(shard, owner, p)
  {
    hide State.Inv, BufferPool.Pool.Valid, Flat, Lookup, IsChain, FlatData, Holds, PostLinked, Expected, Index.Postings, IndexInv, TreeInv, DataInv;
    var view, size := shard.index.tree.pool.state.view, |shard.index.tree.pool.state.disk|;
    var owner := OwnerOf(view, p);
    forall o ensures Owns(view, shard.index.tree.chain, shard.index.posts, shard.data, o, p) <==> o == owner {
      OwnersByTag(view, shard.index.tree.chain, shard.index.posts, shard.data, shard.index.tree.Entries(), shard.docs, shard.places, size, o, p);
    }
    assert OnlyOwner(shard, owner, p);
  }

  ghost predicate OnlyOwner(shard: Shard, owner: Owner, p: int)
    reads shard, shard.index, shard.index.tree, shard.index.tree.pool
  {
    forall o :: Owns(shard.index.tree.pool.state.view, shard.index.tree.chain, shard.index.posts, shard.data, o, p) <==> o == owner
  }

  lemma OwnersByTag(view: View, chain: seq<int>, posts: map<int, seq<int>>, data: seq<int>, entries: seq<Entry>, docs: seq<Document>,
                    places: seq<Place>, size: int, o: Owner, p: int)
    requires TreeInv(view, chain, size) && IndexInv(view, posts, entries, size) && DataInv(view, data, docs, places, size)
    requires FIRST_FREE <= p < size && Covered(view, size)
    ensures p in view && (Owns(view, chain, posts, data, o, p) <==> o == OwnerOf(view, p))
  {
    hide Flat, Lookup, FlatData, Holds, Chronological, Sorted, Occupied, NoRepeats;
    match o
    case OfTree =>
      ChainFacts(view, chain, size);
    case OfTerm(t) =>
      if t in posts && p in posts[t] {
        var k :| 0 <= k < |posts[t]| && posts[t][k] == p;
        assert AllPostings(view, t, posts[t]);
      }
    case OfData =>
      if p in data {
        var k :| 0 <= k < |data| && data[k] == p;
      }
  }

  // ---------- After a crash ----------

  ghost predicate RecordIn(log: seq<Wal.Record>, r: DocRecord) {
    exists k :: 0 <= k < |log| && InsertsRecord(log[k].request, r)
  }

  ghost predicate KeyIn(log: seq<Wal.Record>, key: u64) {
    exists k :: 0 <= k < |log| && InsertsKey(log[k].request, key)
  }

  ghost predicate SplitIn(log: seq<Wal.Record>, p: int) {
    exists k :: 0 <= k < |log| && SplitsOff(log[k].request, p)
  }

  ghost predicate DeletionIn(log: seq<Wal.Record>, bit: nat) {
    exists k :: 0 <= k < |log| && Deletes(log[k].request, bit)
  }

  /** Whatever page `p` holds can be read from the log's records. */
  ghost predicate ReadFromLog(p: int, page: Page, log: seq<Wal.Record>) {
    match page
    case Data(tuples) => forall i :: 0 <= i < |tuples| ==> RecordIn(log, tuples[i])
    case Leaf(lsn, next, entries) =>
      && (lsn == 0 || exists k :: 0 <= k < |log| && log[k].lsn == lsn)
      && (forall i :: 0 <= i < |entries| ==> KeyIn(log, entries[i].key))
      && (p == 0 || SplitIn(log, p)) && (next == 0xFFFF_FFFF || SplitIn(log, next))
    case Tombstones(bits) =>
      forall d: nat :: d / 8 < |bits| && (bits[d / 8] >> (d % 8)) & 1 == 1 ==> DeletionIn(log, d)
    case _ => true
  }

  lemma JustifiedIsLogged(p: int, page: Page, log: seq<Wal.Record>)
    requires Justified(p, page, log) && 0 <= p < 0x1_0000_0000
    ensures ReadFromLog(p, page, log)
  {
    hide RecordIn, KeyIn, SplitIn, DeletionIn, Encode, DocBytes, BitSet, Has, HasSplit, HasTombstone;
    match page
    case Data(tuples) =>
      forall i | 0 <= i < |tuples| ensures RecordIn(log, tuples[i]) {
        RecordLogged(log, tuples[i]);
      }
    case Leaf(lsn, next, entries) =>
      forall i | 0 <= i < |entries| ensures KeyIn(log, entries[i].key) {
        KeyLogged(log, entries[i].key);
      }
      if p != ROOT {
        SplitLogged(log, p);
      }
      if next != INVALID {
        SplitLogged(log, next);
      }
    case Tombstones(bits) =>
      forall d: nat | d / 8 < |bits| && (bits[d / 8] >> (d % 8)) & 1 == 1 ensures DeletionIn(log, d) {
        ShiftedBit(bits, d);
        DeletionLogged(log, d);
      }
    case _ =>
  }

  lemma RecordLogged(log: seq<Wal.Record>, r: DocRecord)
    requires Has(log, Wal.REC_INSERT, DocBytes(r))
    ensures RecordIn(log, r)
  {
    hide DocBytes, Decode;
    var k :| 0 <= k < |log| && log[k].request.kind == Wal.REC_INSERT && log[k].request.payload == DocBytes(r);
    InsertRequest(log[k].request, r);
  }

  lemma KeyLogged(log: seq<Wal.Record>, key: u64)
    requires Has(log, Wal.REC_INSERT, Encode(key, 8))
    ensures KeyIn(log, key)
  {
    hide Encode, Decode;
    var k :| 0 <= k < |log| && log[k].request.kind == Wal.REC_INSERT && log[k].request.payload == Encode(key, 8);
    Powers();
    DecodeEncode(key, 8);
    assert InsertsKey(log[k].request, key);
  }

  lemma SplitLogged(log: seq<Wal.Record>, p: int)
    requires HasSplit(log, p) && p < 0x1_0000_0000
    ensures SplitIn(log, p)
  {
    hide Encode, Decode;
    var old': u32 :| Has(log, Wal.BTREE_SPLIT, SplitPayload(old', p));
    var k :| 0 <= k < |log| && log[k].request.kind == Wal.BTREE_SPLIT && log[k].request.payload == SplitPayload(old', p);
    Powers();
    DecodeEncode(p, 8);
    assert log[k].request.payload[8..16] == Encode(p, 8);
    assert SplitsOff(log[k].request, p);
  }

  lemma DeletionLogged(log: seq<Wal.Record>, bit: nat)
    requires HasTombstone(log, bit)
    ensures DeletionIn(log, bit)
  {
    hide Encode, Decode;
    var doc: u32 :| doc % TOMBSTONE_BITS == bit && Has(log, Wal.FTS_TOMBSTONE, Encode(doc, 4));
    var k :| 0 <= k < |log| && log[k].request.kind == Wal.FTS_TOMBSTONE && log[k].request.payload == Encode(doc, 4);
    Powers();
    DecodeEncode(doc, 4);
    assert Deletes(log[k].request, bit);
  }

  lemma ShiftedBit(bits: seq<bv8>, d: nat)
    requires d / 8 < |bits|
    ensures BitSet(bits, d) <==> (bits[d / 8] >> (d % 8)) & 1 == 1
  {
    Tombstone.ShiftedDown(bits[d / 8], d % 8);
  }

  /** A crash at any moment leaves the file and the log, cut anywhere behind its durable part. Replaying that log yields the
      durable records first, and whatever a page of the file holds can be read from the records replayed: each document
      record byte by byte, each key and split of a leaf, each deletion. The log must have held whole records when it was
      opened; `Wal.ReopenedReplay` says what happens otherwise. */
  lemma CrashRecovery(pool: BufferPool.Pool, cut: nat, stale: seq<bv8>)
    requires pool.Valid() && |stale| == Wal.HEADER_SIZE
    ensures pool.wal.durable <= |pool.wal.log| && pool.wal.durableRecords <= |pool.wal.records|
    ensures pool.wal.damage == [] && pool.wal.durable <= cut <= |pool.wal.log| ==>
      var recovered := Wal.Replayed(pool.wal.log[..cut], stale);
      && pool.wal.records[..pool.wal.durableRecords] <= recovered
      && (cut == pool.wal.durable ==> recovered == pool.wal.records[..pool.wal.durableRecords])
      && forall p :: 0 <= p < |pool.disk| ==> Justified(p, pool.disk[p], recovered) && ReadFromLog(p, pool.disk[p], recovered)
  {
    hide Justified, Wal.Replayed, Wal.LogBytes, State.Table, State.Coherent, Wal.Numbered, ReadFromLog;
    var n, found := pool.wal.durableRecords, pool.wal.found;
    var rs := pool.wal.records;
    Wal.LogConcat(rs[found..n], rs[n..]);
    assert rs[found..] == rs[found..n] + rs[n..];
    assert rs[..n][..found] == rs[..found] && rs[..n][found..] == rs[found..n];
    assert pool.wal.log == Wal.FileBytes(rs[..n], found, pool.wal.damage) + Wal.LogBytes(rs[n..]);
    if pool.wal.damage == [] && pool.wal.durable <= cut <= |pool.wal.log| {
      Wal.UndamagedFile(rs[..n], found);
      var whole, behind := Wal.LogBytes(rs[..n]), pool.wal.log[pool.wal.durable..cut];
      assert pool.wal.log[..cut] == whole + behind;
      Wal.ReplayPrefix(rs[..n], behind, stale);
      Wal.EmptyReplay(stale);
      var recovered := Wal.Replayed(pool.wal.log[..cut], stale);
      forall p | 0 <= p < |pool.disk| ensures Justified(p, pool.disk[p], recovered) && ReadFromLog(p, pool.disk[p], recovered) {
        JustifiedMonotone(p, pool.disk[p], rs[..n], recovered);
        JustifiedIsLogged(p, pool.disk[p], recovered);
      }
    }
  }

  /** A leaf on disk with LSN `L` means that every record up to `L` is durable. */
  lemma LeafIsBehindLog(pool: BufferPool.Pool, p: int, k: int)
    requires pool.Valid() && 0 <= p < |pool.disk| && pool.disk[p].Leaf? && 0 <= k < |pool.wal.records|
    requires 0 < pool.wal.records[k].lsn <= pool.disk[p].lsn
    ensures k < pool.wal.durableRecords
  {
    hide Wal.LogBytes, State.Table, State.Coherent, Has, HasSplit;
    var rs, n := pool.wal.records, pool.wal.durableRecords;
    assert Justified(p, pool.disk[p], rs[..n]);
    assert HasLsn(rs[..n], pool.disk[p].lsn);
    var i :| 0 <= i < n && rs[..n][i].lsn == pool.disk[p].lsn;
    assert rs[i].lsn == pool.disk[p].lsn;
    LsnOrder(rs, i, k);
  }

  lemma LsnOrder(rs: seq<Wal.Record>, i: int, k: int)
    requires Wal.Increasing(rs) && 0 <= i < |rs| && 0 <= k < |rs| && rs[k].lsn <= rs[i].lsn
    ensures k <= i
  {}

  // ---------- Documents and their postings ----------

  /** A posting leads to the record of its document, and exactly the documents that contain the term have one, holding
      their first eight positions. */
  lemma PostingsAreDocuments(shard: Shard, term: int, p: Posting)
    requires shard.Valid()
    ensures |shard.places| == |shard.docs| && Terms32(shard.docs)
    ensures p in shard.index.Postings(term) <==>
      p.doc < |shard.docs| && PostingOf(p.doc, shard.places[p.doc], Hits(shard.docs[p.doc].terms), term) == [p]
    ensures p in shard.index.Postings(term) ==>
      var view := shard.index.tree.pool.state.view;
      && (p.page as int) in view && view[p.page as int].Data? && p.slot < |view[p.page as int].tuples|
      && view[p.page as int].tuples[p.slot] == shard.docs[p.doc].record && view[p.page as int].tuples[p.slot].doc == p.doc
  {
    hide State.Inv, BufferPool.Pool.Valid, Index.Valid, Index.Postings, FlatData, Expected, Hits, Positions, Covered, Rising, AllData;
    shard.Facts();
    ExpectedExactly(shard.docs, shard.places, term, p);
    if p in shard.index.Postings(term) {
      OneAtMost(p.doc, shard.places[p.doc], Hits(shard.docs[p.doc].terms), term);
      assert Holds(shard.index.tree.pool.state.view, shard.places[p.doc], shard.docs[p.doc].record);
    }
  }

  ghost predicate Lists(list: seq<Posting>, d: int) {
    exists p :: p in list && p.doc == d
  }

  /** One posting for each document that has the term in its list - for term 0, for each document - in order, with the first
      eight indices of the term. */
  ghost predicate ListsDocuments(list: seq<Posting>, docs: seq<Document>, term: u32) {
    && (forall d: nat :: d < |docs| ==> (term == 0 || term in docs[d].terms <==> Lists(list, d)))
    && (forall p :: p in list ==> ListsPosting(p, docs, term))
    && forall i, j :: 0 <= i < j < |list| ==> list[i].doc < list[j].doc
  }

  ghost predicate ListsPosting(p: Posting, docs: seq<Document>, term: u32) {
    p.doc < |docs| && (term != 0 ==> FirstIndices(p.positions, docs[p.doc].terms, term))
  }

  /** The same in the terms of the documents: which documents a term's list names, and with which positions. */
  lemma PostingsOfTerm(shard: Shard, term: u32)
    requires shard.Valid()
    ensures ListsDocuments(shard.index.Postings(term), shard.docs, term)
  {
    hide Shard.Valid, Index.Valid, Index.Postings, Expected, Lists, ListsPosting;
    ListIs(shard, term);
    var docs, list := shard.docs, Expected(shard.docs, shard.places, term);
    ExpectedAscends(docs, shard.places, term);
    forall d: nat | d < |docs| ensures term == 0 || term in docs[d].terms <==> Lists(list, d) {
      ListedExactly(docs, shard.places, term, d);
    }
    forall p | p in list ensures ListsPosting(p, docs, term) {
      ListedPosting(docs, shard.places, term, p);
    }
  }

  lemma ListIs(shard: Shard, term: int)
    requires shard.Valid()
    ensures |shard.places| == |shard.docs| && Terms32(shard.docs) && shard.index.Valid()
    ensures shard.index.Postings(term) == Expected(shard.docs, shard.places, term)
  {
    hide Index.Valid, Index.Postings, Expected;
    shard.Facts();
  }

  lemma ListedExactly(docs: seq<Document>, places: seq<Place>, term: u32, d: nat)
    requires |places| == |docs| && Terms32(docs) && d < |docs|
    ensures term == 0 || term in docs[d].terms <==> Lists(Expected(docs, places, term), d)
  {
    hide Expected, Positions, Hits, FirstEight;
    var list := Expected(docs, places, term);
    IndexedUnder(docs[d].terms, term);
    if term == 0 || term in docs[d].terms {
      var p := PostingOf(d, places[d], Hits(docs[d].terms), term)[0];
      ExpectedExactly(docs, places, term, p);
      assert p in list && p.doc == d;
    }
    if Lists(list, d) {
      var p :| p in list && p.doc == d;
      ExpectedExactly(docs, places, term, p);
    }
  }

  lemma ListedPosting(docs: seq<Document>, places: seq<Place>, term: u32, p: Posting)
    requires |places| == |docs| && Terms32(docs) && p in Expected(docs, places, term)
    ensures ListsPosting(p, docs, term)
  {
    hide Expected, Positions, Hits, FirstEight, FirstIndices;
    ExpectedExactly(docs, places, term, p);
    if term != 0 {
      StoredIndices(docs[p.doc].terms, term);
    }
  }
}
