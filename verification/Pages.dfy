/** The contents of a page above the byte layout, as a tagged union, and what the write-ahead rule
    asks of each kind: which log records a page's contents presuppose. */
module Pages {
  import opened Bytes
  import Wal

  const INVALID: u32 := 0xFFFF_FFFF
  const ROOT: u32 := 0
  const RECORD_SIZE := 1588
  const TOMBSTONE_BITS := 32768

  // ---------- Contents ----------

  /** BTreeLeafEntry */
  datatype Entry = Entry(key: u64, page: u32, slot: u16)

  /** InvertedPosting; pos_count is the length of `positions`. */
  datatype Posting = Posting(doc: u32, page: u32, slot: u16, positions: seq<u32>)

  type NodeId = s: seq<bv8> | |s| == 16 witness seq(16, _ => 0)
  type Fields = s: seq<u32> | |s| == 4 witness [0, 0, 0, 0]
  type Embedding = s: seq<bv8> | |s| == 1536 witness seq(1536, _ => 0)

  /** UnifiedDocRecord; the floats of the embedding are kept as their bytes. */
  datatype DocRecord = DocRecord(node: NodeId, frequencies: Fields, lengths: Fields, embedding: Embedding, doc: u32)

  function FieldBytes(f: Fields): (s: seq<bv8>)
    ensures |s| == 16
  {
    Encode(f[0], 4) + Encode(f[1], 4) + Encode(f[2], 4) + Encode(f[3], 4)
  }

  function DocBytes(r: DocRecord): (s: seq<bv8>)
    ensures |s| == RECORD_SIZE
  {
    r.node + FieldBytes(r.frequencies) + FieldBytes(r.lengths) + r.embedding + Encode(r.doc, 4)
  }

  /** Where each field of a record lies in its bytes, as the packed struct UnifiedDocRecord has them. */
  lemma DocLayout(r: DocRecord)
    ensures var b := DocBytes(r);
      && |b| == 1588 && b[0..16] == r.node
      && (forall i :: 0 <= i < 4 ==> Decode(b[16 + 4 * i..20 + 4 * i]) == r.frequencies[i])
      && (forall i :: 0 <= i < 4 ==> Decode(b[32 + 4 * i..36 + 4 * i]) == r.lengths[i])
      && b[48..1584] == r.embedding && Decode(b[1584..1588]) == r.doc
  {
    hide Encode, Decode, FieldBytes;
    var b, f, l := DocBytes(r), FieldBytes(r.frequencies), FieldBytes(r.lengths);
    assert b[0..16] == r.node && b[16..32] == f && b[32..48] == l && b[48..1584] == r.embedding && b[1584..1588] == Encode(r.doc, 4);
    Powers();
    DecodeEncode(r.doc, 4);
    forall i | 0 <= i < 4
      ensures Decode(b[16 + 4 * i..20 + 4 * i]) == r.frequencies[i] && Decode(b[32 + 4 * i..36 + 4 * i]) == r.lengths[i]
    {
      FieldAt(r.frequencies, i);
      FieldAt(r.lengths, i);
      assert b[16 + 4 * i..20 + 4 * i] == b[16..32][4 * i..4 * i + 4] && b[32 + 4 * i..36 + 4 * i] == b[32..48][4 * i..4 * i + 4];
    }
  }

  lemma FieldAt(f: Fields, i: nat)
    requires i < 4
    ensures Decode(FieldBytes(f)[4 * i..4 * i + 4]) == f[i]
  {
    hide Encode, Decode;
    Powers();
    DecodeEncode(f[i], 4);
    assert FieldBytes(f)[4 * i..4 * i + 4] == Encode(f[i], 4);
  }

  function Word(b: seq<bv8>, at: nat): u32
    requires at + 4 <= |b|
  {
    Wal.Bound(b, at, at + 4);
    Decode(b[at..at + 4])
  }

  /** The record in 1588 bytes: what a cast to UnifiedDocRecord reads. */
  function DecodeDoc(b: seq<bv8>): DocRecord
    requires |b| == 1588
  {
    DocRecord(b[0..16], [Word(b, 16), Word(b, 20), Word(b, 24), Word(b, 28)], [Word(b, 32), Word(b, 36), Word(b, 40), Word(b, 44)],
              b[48..1584], Word(b, 1584))
  }

  /** Records and strings of 1588 bytes are the same thing. */
  lemma DecodedDoc(r: DocRecord)
    ensures DecodeDoc(DocBytes(r)) == r
  {
    hide Decode, DocBytes;
    DocLayout(r);
    var b, d := DocBytes(r), DecodeDoc(DocBytes(r));
    assert forall i :: 0 <= i < 4 ==> d.frequencies[i] == Decode(b[16 + 4 * i..20 + 4 * i]);
    assert forall i :: 0 <= i < 4 ==> d.lengths[i] == Decode(b[32 + 4 * i..36 + 4 * i]);
  }

  lemma EncodedDoc(b: seq<bv8>)
    requires |b| == 1588
    ensures DocBytes(DecodeDoc(b)) == b
  {
    hide Decode, Encode;
    FourWords(b, 16);
    FourWords(b, 32);
    Wal.EncodeDecode(b[1584..1588]);
    assert b == b[0..16] + b[16..32] + b[32..48] + b[48..1584] + b[1584..1588];
  }

  lemma FourWords(b: seq<bv8>, at: nat)
    requires at + 16 <= |b|
    ensures FieldBytes([Word(b, at), Word(b, at + 4), Word(b, at + 8), Word(b, at + 12)]) == b[at..at + 16]
  {
    hide Decode, Encode;
    Wal.EncodeDecode(b[at..at + 4]);
    Wal.EncodeDecode(b[at + 4..at + 8]);
    Wal.EncodeDecode(b[at + 8..at + 12]);
    Wal.EncodeDecode(b[at + 12..at + 16]);
    assert b[at..at + 16] == b[at..at + 4] + b[at + 4..at + 8] + b[at + 8..at + 12] + b[at + 12..at + 16];
  }

  datatype Page =
    | Blank                                                     // zero-filled
    | Row                                                       // freshly initialized slotted page
    | Leaf(lsn: u64, next: u32, entries: seq<Entry>)            // BTreeLeafNode
    | Postings(term: u32, next: u32, postings: seq<Posting>)    // InvertedIndexPage
    | Data(tuples: seq<DocRecord>)                              // slotted page of document records
    | Tombstones(bits: seq<bv8>)                                // the 4072 bytes behind the header

  /** Page `p` of a file: a read past its end leaves a fresh row page in the frame. */
  function OnDisk(disk: seq<Page>, p: int): Page {
    if 0 <= p < |disk| then disk[p] else Row
  }

  // ---------- What the log says, byte by byte ----------

  /** The insertion of this very record: its fields lie at the offsets of the packed struct. */
  ghost predicate InsertsRecord(request: Wal.Request, r: DocRecord) {
    var b := request.payload;
    && request.kind == 1 && |b| == 1588
    && b[0..16] == r.node
    && (forall i :: 0 <= i < 4 ==> Decode(b[16 + 4 * i..20 + 4 * i]) == r.frequencies[i])
    && (forall i :: 0 <= i < 4 ==> Decode(b[32 + 4 * i..36 + 4 * i]) == r.lengths[i])
    && b[48..1584] == r.embedding && Decode(b[1584..1588]) == r.doc
  }

  ghost predicate InsertsKey(request: Wal.Request, key: u64) {
    request.kind == 1 && |request.payload| == 8 && Decode(request.payload) == key
  }

  /** The split that made leaf `p`. */
  ghost predicate SplitsOff(request: Wal.Request, p: int) {
    request.kind == 5 && |request.payload| == 16 && Decode(request.payload[8..16]) == p
  }

  ghost predicate Deletes(request: Wal.Request, bit: nat) {
    request.kind == 6 && |request.payload| == 4 && Decode(request.payload) % 32768 == bit
  }

  lemma InsertRequest(request: Wal.Request, r: DocRecord)
    requires request.kind == Wal.REC_INSERT && request.payload == DocBytes(r)
    ensures InsertsRecord(request, r)
  {
    hide DocBytes, Decode;
    DocLayout(r);
  }

  // ---------- The log records a page presupposes ----------

  ghost predicate Has(log: seq<Wal.Record>, kind: Wal.Byte, payload: seq<bv8>) {
    exists k :: 0 <= k < |log| && log[k].request.kind == kind && log[k].request.payload == payload
  }

  ghost predicate HasLsn(log: seq<Wal.Record>, lsn: u64) {
    exists k :: 0 <= k < |log| && log[k].lsn == lsn
  }

  function SplitPayload(old': int, new': int): seq<bv8>
    requires old' >= 0 && new' >= 0
  {
    Encode(old', 8) + Encode(new', 8)
  }

  ghost predicate HasSplit(log: seq<Wal.Record>, new': int) {
    new' >= 0 && exists old': u32 :: Has(log, Wal.BTREE_SPLIT, SplitPayload(old', new'))
  }

  function Mask(bit: nat): bv8
    requires bit < 8
  {
    1 << bit
  }

  predicate BitSet(bits: seq<bv8>, b: nat)
    requires b / 8 < |bits|
  {
    bits[b / 8] & Mask(b % 8) != 0
  }

  ghost predicate HasTombstone(log: seq<Wal.Record>, b: nat) {
    exists doc: u32 :: doc % TOMBSTONE_BITS == b && Has(log, Wal.FTS_TOMBSTONE, Encode(doc, 4))
  }

  ghost predicate Justified(p: int, page: Page, log: seq<Wal.Record>) {
    match page
    case Leaf(lsn, next, entries) =>
      && (lsn == 0 || HasLsn(log, lsn))
      && (forall i :: 0 <= i < |entries| ==> Has(log, Wal.REC_INSERT, Encode(entries[i].key, 8)))
      && (p == ROOT || HasSplit(log, p))
      && (next == INVALID || HasSplit(log, next))
    case Data(tuples) =>
      forall i :: 0 <= i < |tuples| ==> Has(log, Wal.REC_INSERT, DocBytes(tuples[i]))
    case Tombstones(bits) =>
      forall b: nat :: b / 8 < |bits| && BitSet(bits, b) ==> HasTombstone(log, b)
    case _ => true
  }

  lemma HasMonotone(log: seq<Wal.Record>, log': seq<Wal.Record>, kind: Wal.Byte, payload: seq<bv8>)
    requires log <= log' && Has(log, kind, payload)
    ensures Has(log', kind, payload)
  {
    var k :| 0 <= k < |log| && log[k].request.kind == kind && log[k].request.payload == payload;
    assert log'[k] == log[k];
  }

  lemma HasSplitMonotone(log: seq<Wal.Record>, log': seq<Wal.Record>, new': int)
    requires log <= log' && HasSplit(log, new')
    ensures HasSplit(log', new')
  {
    var old': u32 :| Has(log, Wal.BTREE_SPLIT, SplitPayload(old', new'));
    HasMonotone(log, log', Wal.BTREE_SPLIT, SplitPayload(old', new'));
  }

  /** A longer log justifies whatever a shorter one did. */
  lemma JustifiedMonotone(p: int, page: Page, log: seq<Wal.Record>, log': seq<Wal.Record>)
    requires log <= log' && Justified(p, page, log)
    ensures Justified(p, page, log')
  {
    hide Has, HasSplit, Encode, DocBytes, BitSet;
    match page
    case Leaf(lsn, next, entries) =>
      if lsn != 0 {
        var k :| 0 <= k < |log| && log[k].lsn == lsn;
        assert log'[k].lsn == lsn;
      }
      forall i | 0 <= i < |entries| ensures Has(log', Wal.REC_INSERT, Encode(entries[i].key, 8)) {
        HasMonotone(log, log', Wal.REC_INSERT, Encode(entries[i].key, 8));
      }
      if p != ROOT { HasSplitMonotone(log, log', p); }
      if next != INVALID { HasSplitMonotone(log, log', next); }
    case Data(tuples) =>
      forall i | 0 <= i < |tuples| ensures Has(log', Wal.REC_INSERT, DocBytes(tuples[i])) {
        HasMonotone(log, log', Wal.REC_INSERT, DocBytes(tuples[i]));
      }
    case Tombstones(bits) =>
      forall b: nat | b / 8 < |bits| && BitSet(bits, b) ensures HasTombstone(log', b) {
        var doc: u32 :| doc % TOMBSTONE_BITS == b && Has(log, Wal.FTS_TOMBSTONE, Encode(doc, 4));
        HasMonotone(log, log', Wal.FTS_TOMBSTONE, Encode(doc, 4));
      }
    case _ =>
  }
}
