/** The bytes behind the tagged pages, as far as a scan reads them: posting pages have no page header, so the fields a
    scan reads there are parts of the first posting. */
module PageBytes {
  import opened Bytes
  import opened Pages
  import opened PostingChain
  import SlottedPage
  import DataPages
  import Search

  const POSTING_SIZE := 44

  /** Where posting `k` of a page begins. */
  function PostingAt(k: nat): nat {
    12 + POSTING_SIZE * k
  }

  ghost predicate PostingBytes(b: seq<bv8>, at: nat, p: Posting)
    requires at + POSTING_SIZE <= |b| && |p.positions| <= MAX_POSITIONS
  {
    && b[at..at + 4] == Encode(p.doc, 4)
    && b[at + 4..at + 8] == Encode(p.page, 4)
    && b[at + 8..at + 10] == Encode(p.slot, 2)
    && b[at + 10..at + 12] == Encode(|p.positions|, 2)
    && forall s :: 0 <= s < |p.positions| ==> b[at + 12 + 4 * s..at + 16 + 4 * s] == Encode(p.positions[s], 4)
  }

  /** The packed layout of InvertedIndexPage. */
  ghost predicate PostingPageBytes(b: seq<bv8>, page: Page)
    requires page.Postings?
  {
    && |b| == SlottedPage.PAGE_SIZE && |page.postings| <= MAX_POSTINGS
    && b[0..4] == Encode(page.term, 4) && b[4..8] == Encode(|page.postings|, 4) && b[8..12] == Encode(page.next, 4)
    && forall k :: 0 <= k < |page.postings| ==>
      |page.postings[k].positions| <= MAX_POSITIONS && PostingBytes(b, PostingAt(k), page.postings[k])
  }

  lemma Halves(v: u32)
    ensures Encode(v, 4)[0..2] == Encode(v % 0x1_0000, 2) && Encode(v, 4)[2..4] == Encode(v / 0x1_0000, 2)
  {
    hide Encode, ToByte;
    var a := v / 256;
    EncodeStep(v, 4);
    EncodeStep(a, 3);
    assert a / 256 == v / 0x1_0000;
    var low := v % 0x1_0000;
    EncodeStep(low, 2);
    EncodeStep(low / 256, 1);
    assert low % 256 == v % 256 && low / 256 % 256 == a % 256;
  }

  lemma SubSlice(b: seq<bv8>, i: nat, j: nat, k: nat, m: nat)
    requires i <= j <= |b| && k <= m <= j - i
    ensures b[i..j][k..m] == b[i + k..i + m]
  {
    assert forall x :: 0 <= x < m - k ==> b[i..j][k..m][x] == b[i + k + x] == b[i + k..i + m][x];
  }

  /** What a scan reads as page type, slot count and slot lengths of a posting page. */
  lemma ScanReadsPosting(b: seq<bv8>, page: Page, s: nat)
    requires page.Postings? && page.postings != [] && PostingPageBytes(b, page)
    ensures SlottedPage.Field(b, 16, 2) == Search.PageType(page) && SlottedPage.Count(b) == Search.SlotCount(page)
    ensures s < Search.SlotCount(page) ==>
      SlottedPage.HEADER_SIZE + SlottedPage.SLOT_SIZE * (s + 1) <= SlottedPage.PAGE_SIZE && SlottedPage.SlotLength(b, s) == Search.SlotLength(page, s)
  {
    hide Encode, Decode;
    var p := page.postings[0];
    assert PostingBytes(b, PostingAt(0), p);
    Halves(p.page);
    SubSlice(b, 16, 20, 0, 2);
    SlottedPage.Field16(p.page % 0x1_0000);
    SlottedPage.Field16(|p.positions|);
    if s < |p.positions| {
      var at := 24 + 4 * s;
      assert b[at..at + 4] == Encode(p.positions[s], 4);
      Halves(p.positions[s]);
      SubSlice(b, at, at + 4, 2, 4);
      SlottedPage.Field16(p.positions[s] / 0x1_0000);
    }
  }

  /** The bytes of a data page: a slotted page of the records' bytes, with the type of vector data. */
  ghost predicate DataPageBytes(b: seq<bv8>, tuples: seq<DocRecord>) {
    SlottedPage.WellFormed(b) && SlottedPage.Tuples(b) == DataPages.TupleBytes(tuples) && SlottedPage.Field(b, 16, 2) == Search.VECTOR_DATA
  }

  /** How a shard starts a data page. */
  method InitDataPage(page: array<bv8>, pageId: u32)
    requires page.Length == SlottedPage.PAGE_SIZE
    modifies page
    ensures DataPageBytes(page[..], [])
    ensures var p := page[..]; Decode(p[8..12]) == pageId && Decode(p[16..18]) == 7
  {
    hide SlottedPage.WellFormed, SlottedPage.Tuples, Decode;
    SlottedPage.Init(page, pageId, Search.VECTOR_DATA);
  }

  /** How it adds a record: there is room exactly if `HasRoom` says so. */
  method AddRecord(page: array<bv8>, r: DocRecord, ghost tuples: seq<DocRecord>) returns (ok: bool)
    requires page.Length == SlottedPage.PAGE_SIZE && DataPageBytes(page[..], tuples)
    modifies page
    ensures ok == DataPages.HasRoom(tuples)
    ensures if ok then DataPageBytes(page[..], tuples + [r]) else page[..] == old(page[..])
    ensures ok ==>
      var p := page[..];
      var at := Decode(p[20..22]);
      && at + 1588 <= 4096 && p[at..at + 16] == r.node
      && (forall i :: 0 <= i < 4 ==> Decode(p[at + 16 + 4 * i..at + 20 + 4 * i]) == r.frequencies[i])
      && (forall i :: 0 <= i < 4 ==> Decode(p[at + 32 + 4 * i..at + 36 + 4 * i]) == r.lengths[i])
      && p[at + 48..at + 1584] == r.embedding && Decode(p[at + 1584..at + 1588]) == r.doc
  {
    hide SlottedPage.WellFormed, SlottedPage.Used, DocBytes, SlottedPage.Tuples, Decode;
    ghost var b := page[..];
    DataPages.HasRoomIsFit(tuples, r);
    ok := SlottedPage.InsertTuple(page, DocBytes(r));
    if ok {
      SameHeader(b, page[..]);
      StoredFields(page[..], Decode(page[..][20..22]), r);
      assert DataPages.TupleBytes(tuples + [r]) == DataPages.TupleBytes(tuples) + [DocBytes(r)];
    }
  }

  lemma StoredFields(p: seq<bv8>, at: nat, r: DocRecord)
    requires at + 1588 <= |p| && p[at..at + 1588] == DocBytes(r)
    ensures p[at..at + 16] == r.node
    ensures forall i :: 0 <= i < 4 ==> Decode(p[at + 16 + 4 * i..at + 20 + 4 * i]) == r.frequencies[i]
    ensures forall i :: 0 <= i < 4 ==> Decode(p[at + 32 + 4 * i..at + 36 + 4 * i]) == r.lengths[i]
    ensures p[at + 48..at + 1584] == r.embedding && Decode(p[at + 1584..at + 1588]) == r.doc
  {
    hide DocBytes, Decode;
    DocLayout(r);
    SubSlice(p, at, at + 1588, 0, 16);
    SubSlice(p, at, at + 1588, 48, 1584);
    SubSlice(p, at, at + 1588, 1584, 1588);
    forall i | 0 <= i < 4
      ensures Decode(p[at + 16 + 4 * i..at + 20 + 4 * i]) == r.frequencies[i] && Decode(p[at + 32 + 4 * i..at + 36 + 4 * i]) == r.lengths[i]
    {
      SubSlice(p, at, at + 1588, 16 + 4 * i, 20 + 4 * i);
      SubSlice(p, at, at + 1588, 32 + 4 * i, 36 + 4 * i);
    }
  }

  lemma SameHeader(b: seq<bv8>, b': seq<bv8>)
    requires |b| == |b'| == SlottedPage.PAGE_SIZE && b[0..18] == b'[0..18]
    ensures SlottedPage.Field(b, 16, 2) == SlottedPage.Field(b', 16, 2)
  {
    SubSlice(b, 0, 18, 16, 18);
    SubSlice(b', 0, 18, 16, 18);
  }

  /** In a data page they are the type of vector data and one slot of record length per record. */
  lemma ScanReadsData(b: seq<bv8>, tuples: seq<DocRecord>, s: nat)
    requires DataPageBytes(b, tuples)
    ensures SlottedPage.Field(b, 16, 2) == Search.PageType(Data(tuples)) && SlottedPage.Count(b) == Search.SlotCount(Data(tuples))
    ensures s < |tuples| ==>
      SlottedPage.HEADER_SIZE + SlottedPage.SLOT_SIZE * (s + 1) <= SlottedPage.PAGE_SIZE
      && SlottedPage.SlotLength(b, s) == RECORD_SIZE && SlottedPage.Tuple(b, s) == DocBytes(tuples[s])
      && DecodeDoc(SlottedPage.Tuple(b, s)) == tuples[s]
  {
    hide SlottedPage.Field, DocBytes, SlottedPage.Used, DecodeDoc;
    if s < |tuples| {
      DecodedDoc(tuples[s]);
      assert SlottedPage.Tuples(b)[s] == DataPages.TupleBytes(tuples)[s];
    }
  }
}
