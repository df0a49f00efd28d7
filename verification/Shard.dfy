/** A shard of src/unified_shard.c: document records in data pages, their terms in the inverted index,
    deletions in a tombstone page, all in one file behind one pool and one log. */
module Shard {
  import opened Bytes
  import opened Pages
  import opened PoolState
  import opened LeafChain
  import opened PostingChain
  import opened Documents
  import opened DataPages
  import opened InvertedIndex
  import BufferPool
  import BTree
  import Tombstone
  import Wal

  const TOMBSTONE_PAGE: u32 := 1

  /** Every page behind the first three belongs to the tree, to a term's chain or to the data. */
  ghost predicate Covered(view: View, size: int) {
    forall p :: FIRST_FREE <= p < size ==> p in view && (view[p].Leaf? || view[p].Postings? || view[p].Data?)
  }

  ghost predicate HasTombstones(view: View) {
    (TOMBSTONE_PAGE as int) in view && view[TOMBSTONE_PAGE as int].Tombstones? && |view[TOMBSTONE_PAGE as int].bits| == Tombstone.BITSET_BYTES
  }

  /** The pages outside the index, in every state. */
  ghost predicate StorageInv(view: View, data: seq<int>, docs: seq<Document>, places: seq<Place>, size: int) {
    DataInv(view, data, docs, places, size) && HasTombstones(view) && Covered(view, size) && Terms32(docs)
  }

  lemma StorageKept(view: View, view': View, data: seq<int>, docs: seq<Document>, places: seq<Place>, size: int, size': int)
    requires StorageInv(view, data, docs, places, size) && OthersKept(view, view', size, size')
    ensures StorageInv(view', data, docs, places, size')
    ensures view'[TOMBSTONE_PAGE as int] == view[TOMBSTONE_PAGE as int]
  {
    assert (TOMBSTONE_PAGE as int) in view;
    assert FIRST_DATA in view;
    forall p: int | p in view && view[p].Data? ensures p in view' && view'[p] == view[p] {
      assert p in data;
      var k :| 0 <= k < |data| && data[k] == p;
    }
    DataKept(view, view', data, docs, places, size, size');
  }

  /** A page outside the index receives records: neither the tree nor any chain of postings changes. */
  lemma IndexUnaffected(view: View, view': View, chain: seq<int>, posts: map<int, seq<int>>, size: int, size': int, p: int)
    requires TreeInv(view, chain, size) && IndexInv(view, posts, Flat(view, chain), size) && size <= size'
    requires (forall q: int :: q in view) && !view[p].Leaf? && !view[p].Postings?
    requires (forall q: int :: q in view' && (q != p ==> view'[q] == view[q])) && !view'[p].Leaf? && !view'[p].Postings?
    ensures TreeInv(view', chain, size') && IndexInv(view', posts, Flat(view', chain), size')
    ensures forall t: int :: IndexOf(view', posts, t) == IndexOf(view, posts, t)
  {
    hide Flat, Lookup, IsChain, PostLinked, Chronological, AllPostings;
    ChainFacts(view, chain, size);
    TreeInvKept(view, view', chain, size, size');
    var entries := Flat(view, chain);
    IndexKept(view, view', posts, entries, entries, size, size');
  }

  lemma NewPageIsFree(view: View, chain: seq<int>, posts: map<int, seq<int>>, data: seq<int>, docs: seq<Document>, places: seq<Place>, size: int)
    requires TreeInv(view, chain, size) && IndexInv(view, posts, Flat(view, chain), size) && DataInv(view, data, docs, places, size)
    requires size in view
    ensures !view[size].Leaf? && !view[size].Postings? && !view[size].Data?
  {
    hide FlatData, Flat, Lookup;
    NotALeafYet(view, chain, posts, Flat(view, chain), size);
  }

  /** The record in the active page, or in a new page behind the end of the file. */
  lemma StorageStored(view: View, view': View, data: seq<int>, docs: seq<Document>, places: seq<Place>, size: int, doc: Document, grown: bool)
    requires StorageInv(view, data, docs, places, size) && FIRST_FREE <= size < INVALID && forall q: int :: q in view
    requires doc.record.doc == |docs| && |docs| < 0xFFFF_FFFF && |doc.terms| < 0x1_0000_0000
    requires var p := data[|data| - 1];
      if grown then view' == view[size := Data([doc.record])] && !view[size].Data?
      else |view[p].tuples| < 0x1_0000 && view' == view[p := Data(view[p].tuples + [doc.record])]
    ensures var p := data[|data| - 1];
      var place := if grown then Place(size, 0) else Place(p, |view[p].tuples|);
      StorageInv(view', if grown then data + [size] else data, docs + [doc], places + [place], if grown then size + 1 else size)
    ensures view'[TOMBSTONE_PAGE as int] == view[TOMBSTONE_PAGE as int]
  {
    hide DataInv, Covered, HasTombstones, Terms32;
    LastData(view, data, docs, places, size);
    if grown {
      PageStarted(view, view', data, docs, places, size, doc);
      OthersStored(view, view', size, size + 1, size, docs, doc);
    } else {
      var p := data[|data| - 1];
      RecordAppended(view, view', data, docs, places, size, doc);
      OthersStored(view, view', size, size, p, docs, doc);
    }
  }

  lemma LastData(view: View, data: seq<int>, docs: seq<Document>, places: seq<Place>, size: int)
    requires DataInv(view, data, docs, places, size)
    ensures |data| > 0 && FIRST_DATA <= data[|data| - 1] < size && data[|data| - 1] in view && view[data[|data| - 1]].Data?
  {
    hide FlatData, Holds;
    assert data[0] == FIRST_DATA;
    assert data[|data| - 1] >= data[0];
  }

  lemma OthersStored(view: View, view': View, size: int, size': int, p: int, docs: seq<Document>, doc: Document)
    requires HasTombstones(view) && Covered(view, size) && Terms32(docs) && |docs| < 0xFFFF_FFFF && |doc.terms| < 0x1_0000_0000
    requires FIRST_DATA <= p && p in view' && view'[p].Data? && view' == view[p := view'[p]]
    requires size' == size || (size' == size + 1 && p == size)
    ensures HasTombstones(view') && Covered(view', size') && Terms32(docs + [doc]) && view'[TOMBSTONE_PAGE as int] == view[TOMBSTONE_PAGE as int]
  {}

  /** The postings expected when only the occurrences `hits` of the last document are indexed. */
  ghost function ExpectedWith(docs: seq<Document>, places: seq<Place>, hits: seq<Hit>, term: int): seq<Posting>
    requires |places| == |docs| && Terms32(docs) && docs != []
  {
    var n := |docs| - 1;
    Expected(docs[..n], places[..n], term) + PostingOf(n, places[n], hits, term)
  }

  lemma ExpectedGrows(docs: seq<Document>, places: seq<Place>, hits: seq<Hit>, hit: Hit, o: Occurrence)
    requires |places| == |docs| && Terms32(docs) && docs != []
    requires var n := |docs| - 1; o == Occurrence(hit.term, n, places[n].page, places[n].slot, hit.position)
    ensures ExpectedWith(docs, places, hits + [hit], hit.term) == ExtendBy(ExpectedWith(docs, places, hits, hit.term), o)
    ensures forall t: int :: t != hit.term ==> ExpectedWith(docs, places, hits + [hit], t) == ExpectedWith(docs, places, hits, t)
  {
    hide Expected, PostingOf, Extend;
    var n := |docs| - 1;
    ExpectedAscends(docs[..n], places[..n], hit.term);
    HitExtends(Expected(docs[..n], places[..n], hit.term), n, places[n], hits, hit);
    forall t: int | t != hit.term ensures ExpectedWith(docs, places, hits + [hit], t) == ExpectedWith(docs, places, hits, t) {
      OtherTerm(n, places[n], hits, hit, t);
    }
  }

  lemma NothingPending(docs: seq<Document>, places: seq<Place>, doc: Document, place: Place)
    requires |places| == |docs| && Terms32(docs) && Terms32(docs + [doc])
    ensures forall t: int :: ExpectedWith(docs + [doc], places + [place], [], t) == Expected(docs, places, t)
  {
    assert (docs + [doc])[..|docs|] == docs && (places + [place])[..|docs|] == places;
  }

  lemma AllPending(docs: seq<Document>, places: seq<Place>)
    requires |places| == |docs| && Terms32(docs) && docs != []
    ensures forall t: int :: ExpectedWith(docs, places, Hits(docs[|docs| - 1].terms), t) == Expected(docs, places, t)
  {
    hide PostingOf, Hits;
  }

  function SumOfLengths(docs: seq<Document>, field: nat): real
    requires field < 4
  {
    if docs == [] then 0.0 else SumOfLengths(docs[..|docs| - 1], field) + docs[|docs| - 1].record.lengths[field] as real
  }

  class Shard {
    const index: Index
    var active: u32
    var nextDoc: u32
    var totalDocs: nat
    var sumLengths: seq<real>
    var averageLengths: seq<real>

    ghost var docs: seq<Document>
    ghost var data: seq<int>
    ghost var places: seq<Place>

    /** Everything but the contents of the index. */
    ghost predicate Storage()
      reads this, index, index.tree, index.tree.pool, index.tree.pool.frames, index.tree.pool.wal, index.tree.counter
    {
      && index.Valid() && FIRST_FREE <= index.tree.counter.next
      && StorageInv(index.tree.pool.state.view, data, docs, places, |index.tree.pool.state.disk|)
      && active == data[|data| - 1]
    }

    ghost predicate Valid()
      reads this, index, index.tree, index.tree.pool, index.tree.pool.frames, index.tree.pool.wal, index.tree.counter
    {
      && Storage()
      && nextDoc == totalDocs == |docs| && |sumLengths| == |averageLengths| == 4
      && (forall i :: 0 <= i < 4 ==> sumLengths[i] == SumOfLengths(docs, i))
      && (forall i :: 0 <= i < 4 ==> averageLengths[i] == if totalDocs > 0 then sumLengths[i] / (totalDocs as real) else 10.0)
      && (forall t: int :: index.Postings(t) == Expected(docs, places, t))
    }

    /** shard_init on an empty file. */
    constructor (wal: Wal.WalManager, poolSize: nat)
      requires wal.Valid() && poolSize >= 2
      modifies wal
      ensures Valid() && docs == [] && index.tree.pool.wal == wal && index.tree.pool.state.log == old(wal.records)
      ensures active == 2 && nextDoc == totalDocs == 0 && sumLengths == [0.0, 0.0, 0.0, 0.0] && averageLengths == [10.0, 10.0, 10.0, 10.0]
      ensures forall doc: u32 :: !Deleted(doc)
      ensures index.tree.pool.peak <= 1 && index.tree.counter.next == FIRST_FREE
      ensures fresh(index) && fresh(index.tree) && fresh(index.tree.pool) && fresh(index.tree.pool.frames) && fresh(index.tree.counter)
    {
      hide State.Inv, BufferPool.Pool.Valid, Flat, TreeInv, Tombstone.IsDeleted, StorageInv, Kept, BTree.BTree.Valid, FreshView, Index.Postings,
        Index.Valid, Expected, SumOfLengths;
      var tree := FreshTree(wal, poolSize);
      FreshStorage();
      NoDocuments();
      index := new Index(tree);
      active, nextDoc, totalDocs := FIRST_DATA, 0, 0;
      sumLengths, averageLengths := [0.0, 0.0, 0.0, 0.0], [10.0, 10.0, 10.0, 10.0];
      docs, data, places := [], [FIRST_DATA], [];
      NothingDeleted(tree.pool.state.view[TOMBSTONE_PAGE as int].bits);
    }

    /** The three first pages of an empty file: the root of the tree, the tombstones, the first data page. */
    static method FreshTree(wal: Wal.WalManager, poolSize: nat) returns (tree: BTree.BTree)
      requires wal.Valid() && poolSize >= 2
      modifies wal
      ensures fresh(tree) && fresh(tree.pool) && fresh(tree.pool.frames) && fresh(tree.counter) && tree.pool.wal == wal
      ensures tree.Valid() && tree.Entries() == [] && tree.counter.next == |tree.pool.state.disk| == FIRST_FREE && tree.pool.peak <= 1
      ensures tree.pool.state.view == FreshView() && tree.pool.state.log == old(wal.records)
    {
      hide State.Inv, BufferPool.Pool.Valid, Flat, Justified, TreeInv, FreshView;
      var pool := FreshPool(wal, poolSize);
      var counter := new BTree.PageCounter(FIRST_FREE);
      tree := new BTree.BTree(pool, counter, []);
    }

    static method FreshPool(wal: Wal.WalManager, poolSize: nat) returns (pool: BufferPool.Pool)
      requires wal.Valid() && poolSize >= 2
      modifies wal
      ensures fresh(pool) && fresh(pool.frames) && pool.wal == wal && pool.Valid() && Quiet(pool.state) && pool.peak <= 1
      ensures |pool.state.disk| == FIRST_FREE && pool.state.log == old(wal.records)
      ensures (forall p: int :: p in pool.state.view) && pool.state.view[ROOT as int := Leaf(0, INVALID, [])] == FreshView()
      ensures forall p: int :: p in pool.state.view ==> !pool.state.view[p].Leaf?
    {
      hide State.Inv, BufferPool.Pool.Valid, Justified;
      FreshPages(wal.records);
      PlainJustified(wal.records[..wal.durableRecords]);
      pool := new BufferPool.Pool(wal, [Blank, Blank, Blank], poolSize);
      FillPage(pool, TOMBSTONE_PAGE, Tombstones(seq(Tombstone.BITSET_BYTES, _ => 0)));
      FillPage(pool, FIRST_DATA, Data([]));
    }

    static ghost function FreshView(): View {
      imap p: int :: if p == ROOT then Leaf(0, INVALID, []) else if p == TOMBSTONE_PAGE then Tombstones(seq(Tombstone.BITSET_BYTES, _ => 0))
                     else if p == FIRST_DATA then Data([]) else OnDisk([Blank, Blank, Blank], p)
    }

    static lemma FreshStorage()
      ensures StorageInv(FreshView(), [FIRST_DATA], [], [], FIRST_FREE)
      ensures var view := FreshView(); forall p: int :: p in view ==> !view[p].Postings?
      ensures (TOMBSTONE_PAGE as int) in FreshView() && FreshView()[TOMBSTONE_PAGE as int] == Tombstones(seq(Tombstone.BITSET_BYTES, _ => 0))
    {
      var view := FreshView();
      var data := [FIRST_DATA];
      assert data[..0] == [] && FlatData(view, []) == [];
      assert FlatData(view, data) == [];
      assert FIRST_DATA in data;
    }

    static lemma NoDocuments()
      ensures forall t: int :: Expected([], [], t) == []
      ensures SumOfLengths([], 0) == SumOfLengths([], 1) == SumOfLengths([], 2) == SumOfLengths([], 3) == 0.0
    {}

    static lemma NothingDeleted(bits: seq<bv8>)
      requires bits == seq(Tombstone.BITSET_BYTES, _ => 0)
      ensures forall doc: u32 :: !Tombstone.IsDeleted(bits, doc)
    {}

    static method FillPage(pool: BufferPool.Pool, p: u32, page: Page)
      requires pool.Valid() && Quiet(pool.state) && p < |pool.state.disk| && p != INVALID
      requires Justified(p, page, pool.state.log)
      modifies pool, pool.frames, pool.wal
      ensures pool.Valid() && Quiet(pool.state) && pool.state.view == old(pool.state).view[p as int := page]
      ensures |pool.state.disk| == |old(pool.state).disk| && pool.state.log == old(pool.state).log
      ensures pool.peak <= if old(pool.peak) > 1 then old(pool.peak) else 1
      ensures pool.wal.currentLsn == old(pool.wal.currentLsn)
    {
      hide State.Inv, BufferPool.Pool.Valid, FetchStep, Kept, Justified;
      var f := BTree.BTree.FetchOne(pool, p);
      pool.Modify(f, p, page);
      pool.Unpin(p, true, BufferPool.Normal);
      assert pool.state.pins == multiset{};
    }

    static lemma FreshPages(log: seq<Wal.Record>)
      ensures Justified(TOMBSTONE_PAGE, Tombstones(seq(Tombstone.BITSET_BYTES, _ => 0)), log)
      ensures Justified(FIRST_DATA, Data([]), log)
    {}

    ghost function Bits(): (bits: seq<bv8>)
      requires Storage()
      reads this, index, index.tree, index.tree.pool, index.tree.pool.frames, index.tree.pool.wal, index.tree.counter
      ensures |bits| == Tombstone.BITSET_BYTES
    {
      index.tree.pool.state.view[TOMBSTONE_PAGE as int].bits
    }

    ghost predicate Deleted(doc: u32)
      requires Storage()
      reads this, index, index.tree, index.tree.pool, index.tree.pool.frames, index.tree.pool.wal, index.tree.counter
    {
      Tombstone.IsDeleted(Bits(), doc)
    }

    /** The record of the next document goes into the data pages; the index does not change. */
    method StoreRecord(doc: Document) returns (place: Place)
      requires Storage() && doc.record.doc == |docs| && |docs| < 0xFFFF_FFFF && |doc.terms| < 0x1_0000_0000
      requires index.tree.counter.next < INVALID && index.tree.pool.wal.currentLsn + 1 < 0x1_0000_0000_0000_0000
      modifies this, index.tree.pool, index.tree.pool.frames, index.tree.pool.wal, index.tree.counter
      ensures Storage() && docs == old(docs) + [doc] && places == old(places) + [place] && Bits() == old(Bits())
      ensures forall t: int :: index.Postings(t) == old(index.Postings(t))
      ensures nextDoc == old(nextDoc) && totalDocs == old(totalDocs) && sumLengths == old(sumLengths) && averageLengths == old(averageLengths)
      ensures old(index.tree.counter.next) <= index.tree.counter.next <= old(index.tree.counter.next) + 1
      ensures index.tree.pool.wal.currentLsn == old(index.tree.pool.wal.currentLsn) + 1
      ensures index.tree.pool.state.log == old(index.tree.pool.state).log + [Wal.Record(index.tree.pool.wal.currentLsn, DocRequest(old(active), doc.record))]
      ensures InsertsRecord(DocRequest(old(active), doc.record), doc.record)
      ensures index.tree.pool.peak <= if old(index.tree.pool.peak) > 2 then old(index.tree.pool.peak) else 2
    {
      hide State.Inv, BufferPool.Pool.Valid, TreeInv, IndexInv, Flat, IndexOf, StorageInv, DocRequest, HasRoom;
      ghost var pool, chain, posts := index.tree.pool, index.tree.chain, index.posts;
      ghost var view, size := pool.state.view, |pool.state.disk|;
      pool.Facts();
      ViewTotal(pool.state);
      StorageFacts(view, chain, posts, data, docs, places, size);
      var newId := index.tree.counter.next;
      var grown, slot := PutRecord(index.tree.pool, active, newId, doc.record);
      StorageStored(view, pool.state.view, data, docs, places, size, doc, grown);
      IndexUnaffected(view, pool.state.view, chain, posts, size, |pool.state.disk|, if grown then newId else active);
      if grown {
        index.tree.counter.next := newId + 1;
        active := newId;
        data := data + [newId as int];
      }
      place := Place(active, slot);
      docs, places := docs + [doc], places + [place];
    }

    static lemma StorageFacts(view: View, chain: seq<int>, posts: map<int, seq<int>>, data: seq<int>, docs: seq<Document>, places: seq<Place>, size: int)
      requires StorageInv(view, data, docs, places, size)
      requires TreeInv(view, chain, size) && IndexInv(view, posts, Flat(view, chain), size) && size in view
      ensures |data| > 0 && 0 <= data[|data| - 1] < size && data[|data| - 1] in view && view[data[|data| - 1]].Data?
      ensures !view[size].Leaf? && !view[size].Postings? && !view[size].Data?
    {
      hide FlatData, Holds, TreeInv, IndexInv, Flat;
      NewPageIsFree(view, chain, posts, data, docs, places, size);
      assert data[0] == FIRST_DATA;
      assert data[|data| - 1] >= data[0];
    }

    /** The last document's record is stored and the occurrences `hits` of it are indexed. */
    ghost predicate Pending(hits: seq<Hit>)
      requires Storage()
      reads this, index, index.tree, index.tree.pool, index.tree.pool.frames, index.tree.pool.wal, index.tree.counter
    {
      docs != [] && forall t: int :: index.Postings(t) == ExpectedWith(docs, places, hits, t)
    }

    /** One more occurrence of the last document. */
    method AddHit(hit: Hit, place: Place, ghost hits: seq<Hit>)
      requires Storage() && Pending(hits) && place == places[|docs| - 1] && nextDoc == |docs|
      requires index.tree.counter.next + 1 < INVALID && index.tree.pool.wal.currentLsn + 2 < 0x1_0000_0000_0000_0000
      modifies index, index.tree, index.tree.pool, index.tree.pool.frames, index.tree.pool.wal, index.tree.counter
      ensures Storage() && Pending(hits + [hit]) && Bits() == old(Bits())
      ensures old(index.tree.counter.next) <= index.tree.counter.next <= old(index.tree.counter.next) + 2
      ensures old(index.tree.pool.wal.currentLsn) <= index.tree.pool.wal.currentLsn <= old(index.tree.pool.wal.currentLsn) + 2
      ensures old(index.tree.pool.state).log <= index.tree.pool.state.log
      ensures index.tree.pool.peak <= if old(index.tree.pool.peak) > 2 then old(index.tree.pool.peak) else 2
    {
      hide State.Inv, BufferPool.Pool.Valid, TreeInv, IndexInv, Flat, IndexOf, StorageInv, ExpectedWith, OthersKept, ExtendBy, Index.Valid, Index.Postings;
      ghost var view, size := index.tree.pool.state.view, |index.tree.pool.state.disk|;
      IndexSize();
      StoredTerms();
      var o := Occurrence(hit.term, nextDoc - 1, place.page, place.slot, hit.position);
      index.AddPosting(o);
      IndexSize();
      StorageKept(view, index.tree.pool.state.view, data, docs, places, size, |index.tree.pool.state.disk|);
      ExpectedGrows(docs, places, hits, hit, o);
    }

    lemma IndexSize()
      requires index.Valid()
      ensures index.tree.counter.next == |index.tree.pool.state.disk| && index.tree.pool.Valid()
    {}

    lemma TombstonesThere()
      requires Storage()
      ensures HasTombstones(index.tree.pool.state.view)
    {
      hide Index.Valid;
    }

    lemma Facts()
      requires Valid()
      ensures Storage() && index.Valid() && |places| == |docs| && Terms32(docs)
    {
      hide Index.Valid, Index.Postings, Expected;
    }

    lemma StoredTerms()
      requires Storage()
      ensures |places| == |docs| && Terms32(docs)
    {
      hide Index.Valid;
    }

    /** shard_insert_document: what the log and the data page then hold, field by field, and the new statistics. */
    method InsertDocument(node: NodeId, frequencies: Fields, lengths: Fields, embedding: Embedding, terms: Terms)
      requires Valid() && nextDoc < 0xFFFF_FFFF
      requires index.tree.counter.next + 2 * |terms| + 3 < INVALID
      requires index.tree.pool.wal.currentLsn + 2 * |terms| + 3 < 0x1_0000_0000_0000_0000
      modifies this, index, index.tree, index.tree.pool, index.tree.pool.frames, index.tree.pool.wal, index.tree.counter
      ensures Valid() && docs == old(docs) + [Document(DocRecord(node, frequencies, lengths, embedding, old(nextDoc)), terms)]
      ensures old(index.tree.pool.state).log < index.tree.pool.state.log
      ensures var record := index.tree.pool.state.log[|old(index.tree.pool.state).log|];
        var b := record.request.payload;
        && record.lsn == old(index.tree.pool.wal.currentLsn) + 1
        && record.request.txn == 0 && record.request.kind == 1 && record.request.page == old(active) && record.request.slot == 0
        && |b| == 1588 && b[0..16] == node
        && (forall i :: 0 <= i < 4 ==> Decode(b[16 + 4 * i..20 + 4 * i]) == frequencies[i])
        && (forall i :: 0 <= i < 4 ==> Decode(b[32 + 4 * i..36 + 4 * i]) == lengths[i])
        && b[48..1584] == embedding && Decode(b[1584..1588]) == old(nextDoc)
      ensures old(places) <= places && |places| == |old(places)| + 1 && Bits() == old(Bits())
      ensures var place, view := places[|old(places)|], index.tree.pool.state.view;
        && (place.page as int) in view && view[place.page as int].Data? && place.slot < |view[place.page as int].tuples|
        && view[place.page as int].tuples[place.slot] == DocRecord(node, frequencies, lengths, embedding, old(nextDoc))
      ensures nextDoc == old(nextDoc) + 1 && totalDocs == old(totalDocs) + 1 && |sumLengths| == |averageLengths| == |old(sumLengths)| == 4
      ensures forall i :: 0 <= i < 4 ==>
        sumLengths[i] == old(sumLengths)[i] + lengths[i] as real && averageLengths[i] == sumLengths[i] / (totalDocs as real)
      ensures index.tree.pool.peak <= if old(index.tree.pool.peak) > 2 then old(index.tree.pool.peak) else 2
      ensures index.tree.counter.next <= old(index.tree.counter.next) + 2 * |terms| + 3
    {
      hide Valid, Storage, Index.Valid, Decode, DocRequest, State.Inv;
      Counts();
      ghost var n, active0 := |docs|, active;
      var record := DocRecord(node, frequencies, lengths, embedding, nextDoc);
      AddDocument(Document(record, terms));
      Counts();
      Stored(n);
      RequestFields(active0, record);
    }

    lemma Counts()
      requires Valid()
      ensures Storage() && nextDoc == totalDocs == |docs| == |places| && |sumLengths| == |averageLengths| == 4
    {
      hide Index.Valid, Index.Postings, Expected, SumOfLengths;
    }

    /** The record of document `d` is at its place. */
    lemma Stored(d: nat)
      requires Valid() && d < |docs|
      ensures d < |places| && Holds(index.tree.pool.state.view, places[d], docs[d].record)
    {
      hide Index.Valid, Index.Postings, Expected, SumOfLengths, FlatData, Rising;
    }

    /** The record is stored, counted and indexed. */
    method AddDocument(doc: Document)
      requires Valid() && nextDoc < 0xFFFF_FFFF && doc.record.doc == nextDoc && |doc.terms| < 0x1_0000_0000
      requires index.tree.counter.next + 2 * |doc.terms| + 3 < INVALID
      requires index.tree.pool.wal.currentLsn + 2 * |doc.terms| + 3 < 0x1_0000_0000_0000_0000
      modifies this, index, index.tree, index.tree.pool, index.tree.pool.frames, index.tree.pool.wal, index.tree.counter
      ensures Valid() && docs == old(docs) + [doc]
      ensures old(index.tree.pool.state.log) + [Wal.Record(old(index.tree.pool.wal.currentLsn) + 1, DocRequest(old(active), doc.record))] <= index.tree.pool.state.log
      ensures old(places) <= places && Bits() == old(Bits())
      ensures |sumLengths| == |averageLengths| == |old(sumLengths)| == 4 && forall i :: 0 <= i < 4 ==>
        sumLengths[i] == old(sumLengths)[i] + doc.record.lengths[i] as real && averageLengths[i] == sumLengths[i] / (totalDocs as real)
      ensures index.tree.pool.peak <= if old(index.tree.pool.peak) > 2 then old(index.tree.pool.peak) else 2
      ensures index.tree.counter.next <= old(index.tree.counter.next) + 2 * |doc.terms| + 3
    {
      hide State.Inv, BufferPool.Pool.Valid, TreeInv, IndexInv, Flat, IndexOf, StorageInv, Expected, ExpectedWith, Index.Valid, Index.Postings, DocRequest;
      ghost var docs0, places0 := docs, places;
      StoredTerms();
      nextDoc := nextDoc + 1;
      var place := StoreRecord(doc);
      StoredTerms();
      UpdateStatistics(doc.record.lengths);
      NothingPending(docs0, places0, doc, place);
      IndexTerms(doc.terms, place);
      AllPending(docs, places);
    }

    /** The postings of the last document: its terms, then term 0. */
    method IndexTerms(terms: Terms, place: Place)
      requires Storage() && Pending([]) && place == places[|docs| - 1] && nextDoc == |docs|
      requires index.tree.counter.next + 2 * |terms| + 2 < INVALID
      requires index.tree.pool.wal.currentLsn + 2 * |terms| + 2 < 0x1_0000_0000_0000_0000
      modifies index, index.tree, index.tree.pool, index.tree.pool.frames, index.tree.pool.wal, index.tree.counter
      ensures Storage() && Pending(Hits(terms)) && Bits() == old(Bits())
      ensures index.tree.counter.next <= old(index.tree.counter.next) + 2 * |terms| + 2
      ensures old(index.tree.pool.state).log <= index.tree.pool.state.log
      ensures index.tree.pool.peak <= if old(index.tree.pool.peak) > 2 then old(index.tree.pool.peak) else 2
    {
      hide *;
      assert TermHits(terms)[..0] == [];
      for i := 0 to |terms|
        invariant Storage() && Pending(TermHits(terms)[..i]) && Bits() == old(Bits())
        invariant index.tree.counter.next <= old(index.tree.counter.next) + 2 * i
        invariant index.tree.pool.wal.currentLsn <= old(index.tree.pool.wal.currentLsn) + 2 * i
        invariant old(index.tree.pool.state).log <= index.tree.pool.state.log
        invariant index.tree.pool.peak <= if old(index.tree.pool.peak) > 2 then old(index.tree.pool.peak) else 2
      {
        AddHit(Hit(terms[i], i), place, TermHits(terms)[..i]);
        NextHit(terms, i);
      }
      assert TermHits(terms)[..|terms|] == TermHits(terms);
      AddHit(Hit(0, 0), place, TermHits(terms));
      HitsEnd(terms);
    }

    static lemma NextHit(terms: Terms, i: u32)
      requires i < |terms|
      ensures TermHits(terms)[..i + 1] == TermHits(terms)[..i] + [Hit(terms[i], i)]
    {}

    static lemma HitsEnd(terms: Terms)
      ensures Hits(terms) == TermHits(terms) + [Hit(0, 0)]
    {}

    method UpdateStatistics(lengths: Fields)
      requires docs != [] && totalDocs + 1 == |docs| && lengths == docs[|docs| - 1].record.lengths
      requires |sumLengths| == |averageLengths| == 4 && forall i :: 0 <= i < 4 ==> sumLengths[i] == SumOfLengths(docs[..|docs| - 1], i)
      modifies this`totalDocs, this`sumLengths, this`averageLengths
      ensures totalDocs == |docs| && |sumLengths| == |averageLengths| == 4
      ensures forall i :: 0 <= i < 4 ==> sumLengths[i] == SumOfLengths(docs, i) && averageLengths[i] == sumLengths[i] / (totalDocs as real)
      ensures forall i :: 0 <= i < 4 ==> sumLengths[i] == old(sumLengths)[i] + lengths[i] as real
    {
      hide SumOfLengths;
      totalDocs := totalDocs + 1;
      for i := 0 to 4
        invariant |sumLengths| == |averageLengths| == 4 && totalDocs == |docs| > 0
        invariant forall j :: i <= j < 4 ==> sumLengths[j] == SumOfLengths(docs[..|docs| - 1], j)
        invariant forall j :: 0 <= j < 4 ==> sumLengths[j] == old(sumLengths)[j] + if j < i then lengths[j] as real else 0.0
        invariant forall j :: 0 <= j < i ==> sumLengths[j] == SumOfLengths(docs, j) && averageLengths[j] == sumLengths[j] / (totalDocs as real)
      {
        OneMoreLength(docs, i);
        sumLengths := sumLengths[i := sumLengths[i] + lengths[i] as real];
        averageLengths := averageLengths[i := sumLengths[i] / (totalDocs as real)];
      }
    }

    static lemma OneMoreLength(docs: seq<Document>, field: nat)
      requires docs != [] && field < 4
      ensures SumOfLengths(docs, field) == SumOfLengths(docs[..|docs| - 1], field) + docs[|docs| - 1].record.lengths[field] as real
    {}

    /** shard_delete_document */
    method DeleteDocument(doc: u32)
      requires Valid() && index.tree.pool.wal.currentLsn + 1 < 0x1_0000_0000_0000_0000
      modifies index.tree.pool, index.tree.pool.frames, index.tree.pool.wal
      ensures Valid() && Bits() == Tombstone.Marked(old(Bits()), doc)
      ensures forall other: u32 :: Deleted(other) <==> old(Deleted(other)) || (other % 32768 == doc % 32768 && doc % 32768 < 32576)
      ensures index.tree.pool.peak <= if old(index.tree.pool.peak) > 1 then old(index.tree.pool.peak) else 1
      ensures old(index.tree.pool.state).log < index.tree.pool.state.log && |index.tree.pool.state.log| == |old(index.tree.pool.state).log| + 1
      ensures var record := index.tree.pool.state.log[|old(index.tree.pool.state).log|];
        && record.lsn == old(index.tree.pool.wal.currentLsn) + 1
        && record.request.txn == 0 && record.request.kind == 6 && record.request.page == 1 && record.request.slot == 0
        && |record.request.payload| == 4 && Decode(record.request.payload) == doc
    {
      hide State.Inv, BufferPool.Pool.Valid, TreeInv, IndexInv, Flat, IndexOf, StorageInv, Expected, TombstoneRequest, Decode;
      ghost var pool, chain, posts := index.tree.pool, index.tree.chain, index.posts;
      ghost var view, size := pool.state.view, |pool.state.disk|;
      pool.Facts();
      ViewTotal(pool.state);
      DeletionFields(doc);
      TombstoneFacts(view, data, docs, places, size);
      var lsn := MarkPage(index.tree.pool, doc);
      TombstonesWritten(view, pool.state.view, data, docs, places, size);
      IndexUnaffected(view, pool.state.view, chain, posts, size, size, TOMBSTONE_PAGE);
      hide Tombstone.IsDeleted, Tombstone.Marked;
      forall other: u32 ensures Deleted(other) <==> old(Deleted(other)) || (other % TOMBSTONE_BITS == doc % TOMBSTONE_BITS && doc % TOMBSTONE_BITS < Tombstone.COVERED) {
        Tombstone.MarkedDeletes(view[TOMBSTONE_PAGE as int].bits, doc, other);
      }
    }

    static function TombstoneRequest(doc: u32): Wal.Request {
      Wal.Request(0, Wal.FTS_TOMBSTONE, TOMBSTONE_PAGE, 0, Encode(doc, 4))
    }

    static lemma DeletionFields(doc: u32)
      ensures var request := TombstoneRequest(doc);
        && request.txn == 0 && request.kind == 6 && request.page == 1 && request.slot == 0
        && |request.payload| == 4 && Decode(request.payload) == doc
    {
      hide Encode, Decode;
      Powers();
      DecodeEncode(doc, 4);
    }

    /** The bit is set before the deletion is logged, but the page is dirty only after that. */
    static method MarkPage(pool: BufferPool.Pool, doc: u32) returns (lsn: u64)
      requires pool.Valid() && Quiet(pool.state) && TOMBSTONE_PAGE < |pool.state.disk|
      requires HasTombstones(pool.state.view)
      requires pool.wal.currentLsn + 1 < 0x1_0000_0000_0000_0000
      modifies pool, pool.frames, pool.wal
      ensures pool.Valid() && Quiet(pool.state) && |pool.state.disk| == |old(pool.state).disk|
      ensures pool.state.view == old(pool.state).view[TOMBSTONE_PAGE as int := Tombstones(Tombstone.Marked(old(pool.state).view[TOMBSTONE_PAGE as int].bits, doc))]
      ensures pool.state.log == old(pool.state).log + [Wal.Record(lsn, TombstoneRequest(doc))] && lsn == old(pool.wal.currentLsn) + 1
      ensures pool.peak <= if old(pool.peak) > 1 then old(pool.peak) else 1
    {
      hide State.Inv, BufferPool.Pool.Valid, FetchStep, Kept, Justified, TombstoneRequest, Tombstone.Marked;
      pool.Facts();
      ViewJustified(pool.state, TOMBSTONE_PAGE);
      ghost var log := pool.state.log;
      var f := BTree.BTree.FetchOne(pool, TOMBSTONE_PAGE);
      var page := pool.PageAt(f, TOMBSTONE_PAGE);
      pool.Modify(f, TOMBSTONE_PAGE, Tombstones(Tombstone.Marked(page.bits, doc)));
      lsn := pool.Log(TombstoneRequest(doc));
      MarkJustified(page.bits, doc, lsn, log, pool.state.log);
      pool.Unpin(TOMBSTONE_PAGE, true, BufferPool.Normal);
      assert pool.state.pins == multiset{};
    }

    static lemma MarkJustified(bits: seq<bv8>, doc: u32, lsn: u64, log: seq<Wal.Record>, log': seq<Wal.Record>)
      requires |bits| == Tombstone.BITSET_BYTES && Justified(TOMBSTONE_PAGE, Tombstones(bits), log)
      requires log' == log + [Wal.Record(lsn, TombstoneRequest(doc))]
      ensures Justified(TOMBSTONE_PAGE, Tombstones(Tombstone.Marked(bits, doc)), log')
    {
      JustifiedMonotone(TOMBSTONE_PAGE, Tombstones(bits), log, log');
      assert log'[|log|].request.payload == Encode(doc, 4);
      assert Has(log', Wal.FTS_TOMBSTONE, Encode(doc, 4));
      assert HasTombstone(log', doc % TOMBSTONE_BITS);
      hide HasTombstone, Has, BitSet, Tombstone.Marked;
      forall b: nat | b / 8 < |bits| && BitSet(Tombstone.Marked(bits, doc), b)
        ensures HasTombstone(log', b)
      {
        Tombstone.MarkedBits(bits, doc, b);
      }
    }

    static lemma TombstoneFacts(view: View, data: seq<int>, docs: seq<Document>, places: seq<Place>, size: int)
      requires StorageInv(view, data, docs, places, size)
      ensures HasTombstones(view) && TOMBSTONE_PAGE < size
    {
      hide FlatData, Holds;
      assert data[0] == FIRST_DATA;
    }

    static lemma TombstonesWritten(view: View, view': View, data: seq<int>, docs: seq<Document>, places: seq<Place>, size: int)
      requires StorageInv(view, data, docs, places, size)
      requires HasTombstones(view') && view' == view[TOMBSTONE_PAGE as int := view'[TOMBSTONE_PAGE as int]]
      ensures StorageInv(view', data, docs, places, size)
    {
      hide FlatData, Holds;
      DataKept(view, view', data, docs, places, size, size);
    }

    /** shard_is_deleted */
    method IsDeleted(doc: u32) returns (deleted: bool)
      requires Valid()
      modifies index.tree.pool, index.tree.pool.frames, index.tree.pool.wal
      ensures Valid() && deleted == Deleted(doc) && Seen(old(index.tree.pool.state), index.tree.pool.state)
      ensures index.tree.pool.peak <= if old(index.tree.pool.peak) > 1 then old(index.tree.pool.peak) else 1
    {
      hide State.Inv, BufferPool.Pool.Valid, TreeInv, IndexInv, Flat, IndexOf, StorageInv, Expected, Tombstone.IsDeleted, Kept;
      ghost var view, size := index.tree.pool.state.view, |index.tree.pool.state.disk|;
      TombstoneFacts(view, data, docs, places, size);
      var page := index.tree.pool.Read(TOMBSTONE_PAGE, BufferPool.Normal);
      return Tombstone.IsDeleted(page.bits, doc);
    }

    static function DocRequest(active: u32, r: DocRecord): Wal.Request {
      Wal.Request(0, Wal.REC_INSERT, active, 0, DocBytes(r))
    }

    static lemma RequestFields(active: u32, r: DocRecord)
      ensures var request := DocRequest(active, r);
        request.txn == 0 && request.kind == 1 && request.page == active && request.slot == 0 && InsertsRecord(request, r)
    {
      hide DocBytes;
      InsertRequest(DocRequest(active, r), r);
    }

    /** Logs the record, then inserts it into the active data page, or into a new one if that is full. */
    static method PutRecord(pool: BufferPool.Pool, active: u32, newId: u32, r: DocRecord) returns (grown: bool, slot: u16)
      requires pool.Valid() && Quiet(pool.state) && active < |pool.state.disk| == newId && newId < INVALID
      requires (active as int) in pool.state.view && pool.state.view[active as int].Data?
      requires pool.wal.currentLsn + 1 < 0x1_0000_0000_0000_0000
      modifies pool, pool.frames, pool.wal
      ensures pool.Valid() && Quiet(pool.state)
      ensures var tuples := old(pool.state).view[active as int].tuples;
        && grown == !HasRoom(tuples)
        && (if grown then
              slot == 0 && pool.state.view == old(pool.state).view[newId as int := Data([r])] && |pool.state.disk| == newId + 1
            else
              slot == |tuples| && pool.state.view == old(pool.state).view[active as int := Data(tuples + [r])] && |pool.state.disk| == newId)
      ensures pool.state.log == old(pool.state).log + [Wal.Record(pool.wal.currentLsn, DocRequest(active, r))] && InsertsRecord(DocRequest(active, r), r)
      ensures pool.peak <= if old(pool.peak) > 1 then old(pool.peak) else 1
      ensures pool.wal.currentLsn == old(pool.wal.currentLsn) + 1
    {
      hide State.Inv, BufferPool.Pool.Valid, FetchStep, Kept, Justified, DocRequest;
      pool.Facts();
      ViewJustified(pool.state, active);
      RequestFields(active, r);
      ghost var page0, log0 := pool.state.view[active as int], pool.state.log;
      var lsn := pool.Log(DocRequest(active, r));
      RecordJustified(active, newId, page0, r, lsn, log0, pool.state.log);
      var f := BTree.BTree.FetchOne(pool, active);
      var page := pool.PageAt(f, active);
      if !HasRoom(page.tuples) {
        pool.Unpin(active, false, BufferPool.Normal);
        assert pool.state.pins == multiset{};
        pool.NewPage(newId, Data([r]));
        return true, 0;
      }
      pool.Modify(f, active, Data(page.tuples + [r]));
      pool.Unpin(active, true, BufferPool.Normal);
      assert pool.state.pins == multiset{};
      return false, |page.tuples|;
    }

    static lemma RecordJustified(active: u32, newId: u32, page: Page, r: DocRecord, lsn: u64, log: seq<Wal.Record>, log': seq<Wal.Record>)
      requires page.Data? && Justified(active, page, log) && log' == log + [Wal.Record(lsn, DocRequest(active, r))]
      ensures Justified(active, Data(page.tuples + [r]), log') && Justified(newId, Data([r]), log')
    {
      hide DocBytes;
      JustifiedMonotone(active, page, log, log');
      assert log'[|log|].request.payload == DocBytes(r);
      assert Has(log', Wal.REC_INSERT, DocBytes(r));
      hide Has;
    }
  }
}
