/** The data pages of a shard: slotted pages of document records, filled one after the other. */
module DataPages {
  import opened Pages
  import opened LeafChain
  import opened Documents
  import SlottedPage

  const FIRST_DATA := 2

  /** Whether slotted_page_insert_tuple has room for one more record. */
  predicate HasRoom(tuples: seq<DocRecord>) {
    SlottedPage.HEADER_SIZE + (SlottedPage.SLOT_SIZE + RECORD_SIZE) * (|tuples| + 1) <= SlottedPage.PAGE_SIZE
  }

  function TupleBytes(tuples: seq<DocRecord>): seq<seq<bv8>> {
    seq(|tuples|, i requires 0 <= i < |tuples| => DocBytes(tuples[i]))
  }

  lemma {:induction false} UsedByRecords(tuples: seq<DocRecord>)
    ensures SlottedPage.Used(TupleBytes(tuples)) == (SlottedPage.SLOT_SIZE + RECORD_SIZE) * |tuples|
  {
    if tuples != [] {
      var n := |tuples| - 1;
      UsedByRecords(tuples[..n]);
      assert TupleBytes(tuples)[..n] == TupleBytes(tuples[..n]);
    }
  }

  /** `HasRoom` is the test of the byte-level page whose tuples are the records' bytes. */
  lemma HasRoomIsFit(tuples: seq<DocRecord>, r: DocRecord)
    ensures HasRoom(tuples) <==>
      SlottedPage.HEADER_SIZE + SlottedPage.Used(TupleBytes(tuples) + [DocBytes(r)]) <= SlottedPage.PAGE_SIZE
  {
    UsedByRecords(tuples);
    SlottedPage.UsedAppend(TupleBytes(tuples), DocBytes(r));
  }

  ghost predicate AllData(view: View, data: seq<int>) {
    forall k :: 0 <= k < |data| ==> data[k] in view && view[data[k]].Data?
  }

  /** All records, in the order of the pages. */
  ghost function FlatData(view: View, data: seq<int>): seq<DocRecord>
    requires AllData(view, data)
  {
    if data == [] then [] else FlatData(view, data[..|data| - 1]) + view[data[|data| - 1]].tuples
  }

  ghost predicate Holds(view: View, place: Place, r: DocRecord) {
    && (place.page as int) in view && view[place.page as int].Data?
    && place.slot < |view[place.page as int].tuples| && view[place.page as int].tuples[place.slot] == r
  }

  ghost predicate Rising(data: seq<int>) {
    forall i, j :: 0 <= i < j < |data| ==> data[i] < data[j]
  }

  /** What every state keeps: the data pages in rising order hold the records in order, every record sits at its
      place, and no other page of the file is a data page. */
  ghost predicate DataInv(view: View, data: seq<int>, docs: seq<Document>, places: seq<Place>, size: int) {
    && |data| > 0 && data[0] == FIRST_DATA && Rising(data)
    && (forall k :: 0 <= k < |data| ==> data[k] < size && data[k] < INVALID)
    && AllData(view, data)
    && FlatData(view, data) == Records(docs)
    && |places| == |docs| && (forall d :: 0 <= d < |docs| ==> docs[d].record.doc == d && Holds(view, places[d], docs[d].record))
    && (forall p: int :: p in view && view[p].Data? ==> p in data)
  }

  ghost function Records(docs: seq<Document>): seq<DocRecord> {
    seq(|docs|, d requires 0 <= d < |docs| => docs[d].record)
  }

  lemma {:induction false} FlatDataSame(view: View, view': View, data: seq<int>)
    requires AllData(view, data) && forall k :: 0 <= k < |data| ==> data[k] in view' && view'[data[k]] == view[data[k]]
    ensures AllData(view', data) && FlatData(view', data) == FlatData(view, data)
  {
    if data != [] {
      FlatDataSame(view, view', data[..|data| - 1]);
    }
  }

  /** Changes elsewhere keep the data pages. */
  lemma DataKept(view: View, view': View, data: seq<int>, docs: seq<Document>, places: seq<Place>, size: int, size': int)
    requires DataInv(view, data, docs, places, size) && size <= size'
    requires forall p: int :: p in view && view[p].Data? ==> p in view' && view'[p] == view[p]
    requires forall p: int :: p in view' && view'[p].Data? ==> p in view && view[p].Data?
    ensures DataInv(view', data, docs, places, size')
  {
    FlatDataSame(view, view', data);
  }

  /** The next record goes into the last data page. */
  lemma RecordAppended(view: View, view': View, data: seq<int>, docs: seq<Document>, places: seq<Place>, size: int, doc: Document)
    requires DataInv(view, data, docs, places, size) && doc.record.doc == |docs|
    requires var p := data[|data| - 1];
      |view[p].tuples| < 0x1_0000 && view' == view[p := Data(view[p].tuples + [doc.record])]
    ensures var p := data[|data| - 1];
      0 <= p && DataInv(view', data, docs + [doc], places + [Place(p, |view[p].tuples|)], size)
  {
    var n := |data| - 1;
    var p := data[n];
    FlatDataSame(view, view', data[..n]);
    assert Records(docs + [doc]) == Records(docs) + [doc.record];
    assert FlatData(view', data) == FlatData(view, data) + [doc.record];
    var docs', places' := docs + [doc], places + [Place(p, |view[p].tuples|)];
    forall d | 0 <= d < |docs'| ensures docs'[d].record.doc == d && Holds(view', places'[d], docs'[d].record) {
      if d < |docs| {
        assert docs'[d] == docs[d] && places'[d] == places[d] && Holds(view, places[d], docs[d].record);
      }
    }
  }

  /** The next record starts a new data page at the end of the file. */
  lemma PageStarted(view: View, view': View, data: seq<int>, docs: seq<Document>, places: seq<Place>, size: int, doc: Document)
    requires DataInv(view, data, docs, places, size) && doc.record.doc == |docs| && 0 <= size < INVALID
    requires size in view && view' == view[size := Data([doc.record])]
    ensures DataInv(view', data + [size], docs + [doc], places + [Place(size, 0)], size + 1)
  {
    FlatStarted(view, view', data, size, doc.record);
    assert Records(docs + [doc]) == Records(docs) + [doc.record];
    PlacesKept(view, view', data, docs, places, size, doc);
    forall p: int | p in view' && view'[p].Data? ensures p in data + [size] {
      assert p == size || p in data;
      assert (data + [size])[|data|] == size;
    }
  }

  lemma FlatStarted(view: View, view': View, data: seq<int>, size: int, r: DocRecord)
    requires AllData(view, data) && size in view && view' == view[size := Data([r])] && forall k :: 0 <= k < |data| ==> data[k] < size
    ensures AllData(view', data + [size]) && FlatData(view', data + [size]) == FlatData(view, data) + [r]
  {
    assert (data + [size])[..|data|] == data;
    FlatDataSame(view, view', data);
  }

  lemma PlacesKept(view: View, view': View, data: seq<int>, docs: seq<Document>, places: seq<Place>, size: int, doc: Document)
    requires DataInv(view, data, docs, places, size) && doc.record.doc == |docs| && 0 <= size < INVALID
    requires size in view && view' == view[size := Data([doc.record])]
    ensures var docs', places' := docs + [doc], places + [Place(size, 0)];
      forall d :: 0 <= d < |docs'| ==> docs'[d].record.doc == d && Holds(view', places'[d], docs'[d].record)
  {
    hide FlatData, Records;
    var docs', places' := docs + [doc], places + [Place(size, 0)];
    forall d | 0 <= d < |docs'| ensures docs'[d].record.doc == d && Holds(view', places'[d], docs'[d].record) {
      if d < |docs| {
        assert docs'[d] == docs[d] && places'[d] == places[d] && Holds(view, places[d], docs[d].record);
        assert (places[d].page as int) in data;
      }
    }
  }
}
