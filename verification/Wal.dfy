/** The write-ahead log of src/wal.c: an append-only byte file with a durable prefix. */
module Wal {
  import opened Bytes
  import opened Common

  const HEADER_SIZE := 23

  // WALRecordType
  const REC_INSERT := 1
  const BTREE_SPLIT := 5
  const FTS_TOMBSTONE := 6

  /** What a caller of wal_append_record supplies. */
  datatype Request = Request(txn: u32, kind: Byte, page: u32, slot: u16, payload: Payload)

  datatype Record = Record(lsn: u64, request: Request)

  type Byte = x: int | 0 <= x < 256

  type Payload = s: seq<bv8> | |s| < 0x1_0000_0000

  // ---------- The file format ----------

  function HeaderBytes(r: Record): (s: seq<bv8>)
    ensures |s| == HEADER_SIZE
  {
    Encode(r.lsn, 8) + Encode(r.request.txn, 4) + Encode(r.request.kind, 1) + Encode(r.request.page, 4)
    + Encode(r.request.slot, 2) + Encode(|r.request.payload|, 4)
  }

  function RecordBytes(r: Record): seq<bv8> {
    HeaderBytes(r) + r.request.payload
  }

  function LogBytes(rs: seq<Record>): seq<bv8> {
    if rs == [] then [] else RecordBytes(rs[0]) + LogBytes(rs[1..])
  }

  function PayloadLength(header: seq<bv8>): (n: int)
    requires |header| == HEADER_SIZE
    ensures 0 <= n < 0x1_0000_0000
  {
    Bound(header, 19, 23);
    Decode(header[19..23])
  }

  lemma Bound(header: seq<bv8>, i: nat, j: nat)
    requires i <= j <= |header| && (j - i == 1 || j - i == 2 || j - i == 4 || j - i == 8)
    ensures Decode(header[i..j]) < (match j - i case 1 => 0x100 case 2 => 0x1_0000 case 4 => 0x1_0000_0000 case _ => 0x1_0000_0000_0000_0000)
  {
    hide Decode;
    DecodeBound(header[i..j]);
    Powers();
  }

  function HeaderRecord(header: seq<bv8>, payload: Payload): Record
    requires |header| == HEADER_SIZE
  {
    Bound(header, 0, 8); Bound(header, 8, 12); Bound(header, 12, 13); Bound(header, 13, 17); Bound(header, 17, 19);
    Record(Decode(header[0..8]),
           Request(Decode(header[8..12]), Decode(header[12..13]), Decode(header[13..17]), Decode(header[17..19]), payload))
  }

  lemma HeaderRoundTrip(r: Record)
    ensures PayloadLength(HeaderBytes(r)) == |r.request.payload|
    ensures HeaderRecord(HeaderBytes(r), r.request.payload) == r
  {
    hide Encode, Decode;
    Powers();
    DecodeEncode(r.lsn, 8);
    DecodeEncode(r.request.txn, 4);
    DecodeEncode(r.request.kind, 1);
    DecodeEncode(r.request.page, 4);
    DecodeEncode(r.request.slot, 2);
    DecodeEncode(|r.request.payload|, 4);
    var h := HeaderBytes(r);
    assert h[0..8] == Encode(r.lsn, 8);
    assert h[8..12] == Encode(r.request.txn, 4);
    assert h[12..13] == Encode(r.request.kind, 1);
    assert h[13..17] == Encode(r.request.page, 4);
    assert h[17..19] == Encode(r.request.slot, 2);
    assert h[19..23] == Encode(|r.request.payload|, 4);
  }

  /** Where each field of a record lies in its bytes, as the packed struct WALHeader has them. */
  lemma RecordLayout(r: Record)
    ensures var b := RecordBytes(r);
      && |b| == 23 + |r.request.payload|
      && Decode(b[0..8]) == r.lsn && Decode(b[8..12]) == r.request.txn && b[12] as int == r.request.kind
      && Decode(b[13..17]) == r.request.page && Decode(b[17..19]) == r.request.slot
      && Decode(b[19..23]) == |r.request.payload| && b[23..] == r.request.payload
  {
    hide Encode, Decode;
    var h, b := HeaderBytes(r), RecordBytes(r);
    Powers();
    DecodeEncode(r.lsn, 8);
    DecodeEncode(r.request.txn, 4);
    DecodeEncode(r.request.kind, 1);
    DecodeEncode(r.request.page, 4);
    DecodeEncode(r.request.slot, 2);
    DecodeEncode(|r.request.payload|, 4);
    assert b[0..8] == h[0..8] == Encode(r.lsn, 8);
    assert b[8..12] == h[8..12] == Encode(r.request.txn, 4);
    assert b[12..13] == h[12..13] == Encode(r.request.kind, 1);
    assert b[13..17] == h[13..17] == Encode(r.request.page, 4);
    assert b[17..19] == h[17..19] == Encode(r.request.slot, 2);
    assert b[19..23] == h[19..23] == Encode(|r.request.payload|, 4);
    LittleEndian(b[12..13]);
  }

  /** The same behind the bytes of a log. */
  lemma LayoutBehind(before: seq<bv8>, r: Record)
    ensures var log, n := before + RecordBytes(r), |before|;
      && |log| == n + 23 + |r.request.payload| && log[..n] == before
      && Decode(log[n..n + 8]) == r.lsn && Decode(log[n + 8..n + 12]) == r.request.txn && log[n + 12] as int == r.request.kind
      && Decode(log[n + 13..n + 17]) == r.request.page && Decode(log[n + 17..n + 19]) == r.request.slot
      && Decode(log[n + 19..n + 23]) == |r.request.payload| && log[n + 23..] == r.request.payload
  {
    hide Decode, RecordBytes;
    RecordLayout(r);
    var log, b, n := before + RecordBytes(r), RecordBytes(r), |before|;
    assert log[n..n + 8] == b[0..8] && log[n + 8..n + 12] == b[8..12] && log[n + 13..n + 17] == b[13..17];
    assert log[n + 17..n + 19] == b[17..19] && log[n + 19..n + 23] == b[19..23] && log[n + 23..] == b[23..];
  }

  // ---------- Replay ----------

  /** The header variable after a read of up to 23 bytes: a short read leaves its other bytes as they were. */
  function ReadHeader(file: seq<bv8>, stale: seq<bv8>): (h: seq<bv8>)
    requires |stale| == HEADER_SIZE
    ensures |h| == HEADER_SIZE
  {
    if |file| >= HEADER_SIZE then file[..HEADER_SIZE] else file + stale[|file|..]
  }

  /** The records handed to the callback when the rest of the file is `file`. */
  function Replayed(file: seq<bv8>, stale: seq<bv8>): seq<Record>
    requires |stale| == HEADER_SIZE
    decreases |file|
  {
    if file == [] then [] else
    var header := ReadHeader(file, stale);
    var rest := if |file| >= HEADER_SIZE then file[HEADER_SIZE..] else [];
    var n := PayloadLength(header);
    if n > |rest| then [] else [HeaderRecord(header, rest[..n])] + Replayed(rest[n..], stale)
  }

  /** The header variable after reading at `position`. */
  function HeaderAt(file: seq<bv8>, position: nat, stale: seq<bv8>): (h: seq<bv8>)
    requires |stale| == HEADER_SIZE && position <= |file|
    ensures |h| == HEADER_SIZE
  {
    var n := Min(|file| - position, HEADER_SIZE);
    file[position..position + n] + stale[n..]
  }

  lemma ReplayUnfold(rest: seq<bv8>, header: seq<bv8>, tail: seq<bv8>, stale: seq<bv8>)
    requires |stale| == HEADER_SIZE && rest != []
    requires header == ReadHeader(rest, stale)
    requires tail == if |rest| >= HEADER_SIZE then rest[HEADER_SIZE..] else []
    ensures PayloadLength(header) > |tail| ==> Replayed(rest, stale) == []
    ensures PayloadLength(header) <= |tail| ==>
      Replayed(rest, stale) == [HeaderRecord(header, tail[..PayloadLength(header)])] + Replayed(tail[PayloadLength(header)..], stale)
  {
    hide PayloadLength, HeaderRecord, ReadHeader;
  }

  lemma HeaderOfRest(file: seq<bv8>, position: nat, start: nat, stale: seq<bv8>)
    requires |stale| == HEADER_SIZE && position < |file|
    requires start == position + Min(|file| - position, HEADER_SIZE)
    ensures start <= |file|
    ensures var rest := file[position..];
      && HeaderAt(file, position, stale) == ReadHeader(rest, stale)
      && file[start..] == (if |rest| >= HEADER_SIZE then rest[HEADER_SIZE..] else [])
  {}

  /** One round of the read loop, in positions of the whole file. */
  lemma ReplayStep(file: seq<bv8>, position: nat, start: nat, stale: seq<bv8>)
    requires |stale| == HEADER_SIZE && position < |file|
    requires start == position + Min(|file| - position, HEADER_SIZE)
    ensures var header := HeaderAt(file, position, stale);
      var length := PayloadLength(header);
      if length > |file| - start then Replayed(file[position..], stale) == []
      else Replayed(file[position..], stale) ==
           [HeaderRecord(header, file[start..start + length])] + Replayed(file[start + length..], stale)
  {
    hide PayloadLength, HeaderRecord, ReadHeader, HeaderAt, Min, Replayed;
    HeaderOfRest(file, position, start, stale);
    var rest, tail := file[position..], file[start..];
    var header := HeaderAt(file, position, stale);
    ReplayUnfold(rest, header, tail, stale);
    var length := PayloadLength(header);
    if length <= |tail| {
      assert tail[..length] == file[start..start + length];
      assert tail[length..] == file[start + length..];
    }
  }

  method Replay(file: seq<bv8>, stale: seq<bv8>) returns (applied: seq<Record>)
    requires |stale| == HEADER_SIZE
    ensures applied == Replayed(file, stale)
    ensures |file| >= 23 && 23 + Decode(file[19..23]) <= |file| ==>
      && applied != []
      && applied[0].lsn == Decode(file[0..8]) && applied[0].request.txn == Decode(file[8..12])
      && applied[0].request.kind == file[12] as int && applied[0].request.page == Decode(file[13..17])
      && applied[0].request.slot == Decode(file[17..19]) && applied[0].request.payload == file[23..23 + Decode(file[19..23])]
      && applied[1..] == Replayed(file[23 + Decode(file[19..23])..], stale)
  {
    hide PayloadLength, HeaderRecord, ReadHeader, HeaderAt, Replayed, Decode;
    FirstReplayed(file, stale);
    applied := [];
    var position := 0;
    assert file[0..] == file;
    while true
      invariant 0 <= position <= |file|
      invariant Replayed(file, stale) == applied + Replayed(file[position..], stale)
      decreases |file| - position
    {
      var n := Min(|file| - position, HEADER_SIZE);
      if n <= 0 {
        assert file[position..] == [];
        EmptyReplay(stale);
        break;
      }
      ReplayStep(file, position, position + n, stale);
      var header := HeaderAt(file, position, stale);
      position := position + n;
      var length := PayloadLength(header);
      if length > |file| - position {
        break;
      }
      var r := HeaderRecord(header, file[position..position + length]);
      position := position + length;
      Associative(applied, r, Replayed(file[position..], stale));
      applied := applied + [r];
    }
  }

  /** The first record of a file that holds it whole, read at the offsets of the packed struct. */
  lemma FirstReplayed(file: seq<bv8>, stale: seq<bv8>)
    requires |stale| == HEADER_SIZE
    ensures |file| >= 23 && 23 + Decode(file[19..23]) <= |file| ==>
      var applied := Replayed(file, stale);
      && applied != []
      && applied[0].lsn == Decode(file[0..8]) && applied[0].request.txn == Decode(file[8..12])
      && applied[0].request.kind == file[12] as int && applied[0].request.page == Decode(file[13..17])
      && applied[0].request.slot == Decode(file[17..19]) && applied[0].request.payload == file[23..23 + Decode(file[19..23])]
      && applied[1..] == Replayed(file[23 + Decode(file[19..23])..], stale)
  {
    hide Decode, Replayed;
    if |file| >= 23 && 23 + Decode(file[19..23]) <= |file| {
      var h, tail := file[..23], file[23..];
      var n := Decode(file[19..23]);
      SameFields(file);
      ReplayUnfold(file, h, tail, stale);
      LittleEndian(h[12..13]);
      assert tail[..n] == file[23..23 + n] && tail[n..] == file[23 + n..];
    }
  }

  lemma SameFields(file: seq<bv8>)
    requires |file| >= 23
    ensures var h := file[..23];
      && h[0..8] == file[0..8] && h[8..12] == file[8..12] && h[12..13] == file[12..13] && h[13..17] == file[13..17]
      && h[17..19] == file[17..19] && h[19..23] == file[19..23]
  {}

  lemma Associative(a: seq<Record>, r: Record, b: seq<Record>)
    ensures a + ([r] + b) == (a + [r]) + b
  {}

  lemma ReplayOne(r: Record, tail: seq<bv8>, stale: seq<bv8>)
    requires |stale| == HEADER_SIZE
    ensures Replayed(RecordBytes(r) + tail, stale) == [r] + Replayed(tail, stale)
  {
    hide HeaderBytes, PayloadLength, HeaderRecord;
    var file := RecordBytes(r) + tail;
    HeaderRoundTrip(r);
    assert file[..HEADER_SIZE] == HeaderBytes(r);
    assert file[HEADER_SIZE..] == r.request.payload + tail;
    assert file[HEADER_SIZE..][..|r.request.payload|] == r.request.payload;
    assert file[HEADER_SIZE..][|r.request.payload|..] == tail;
  }

  lemma {:induction false} ReplayPrefix(rs: seq<Record>, tail: seq<bv8>, stale: seq<bv8>)
    requires |stale| == HEADER_SIZE
    ensures Replayed(LogBytes(rs) + tail, stale) == rs + Replayed(tail, stale)
  {
    hide Replayed, RecordBytes;
    if rs == [] {
      assert LogBytes(rs) + tail == tail;
    } else {
      assert LogBytes(rs) + tail == RecordBytes(rs[0]) + (LogBytes(rs[1..]) + tail);
      ReplayOne(rs[0], LogBytes(rs[1..]) + tail, stale);
      ReplayPrefix(rs[1..], tail, stale);
    }
  }

  /** Replaying a whole log yields exactly its records, in order. */
  lemma ReplayRoundTrip(rs: seq<Record>, stale: seq<bv8>)
    requires |stale| == HEADER_SIZE
    ensures Replayed(LogBytes(rs), stale) == rs
  {
    hide Replayed, LogBytes;
    ReplayPrefix(rs, [], stale);
    assert LogBytes(rs) + [] == LogBytes(rs);
    EmptyReplay(stale);
  }

  lemma EmptyReplay(stale: seq<bv8>)
    requires |stale| == HEADER_SIZE
    ensures Replayed([], stale) == []
  {}

  // ---------- Torn logs ----------

  /** The first `cut` bytes of `rs + [torn]`'s log, cut strictly inside the last record. */
  function TornLog(rs: seq<Record>, torn: Record, cut: nat): seq<bv8>
    requires cut < |RecordBytes(torn)|
  {
    LogBytes(rs) + RecordBytes(torn)[..cut]
  }

  /** A torn log replays to its whole records exactly when the cut is not inside a header, or the
      length read from the header's stale bytes is not zero; otherwise one bogus record follows. */
  lemma TornReplay(rs: seq<Record>, torn: Record, cut: nat, stale: seq<bv8>)
    requires |stale| == HEADER_SIZE && cut < |RecordBytes(torn)|
    ensures var header := ReadHeader(RecordBytes(torn)[..cut], stale);
      if cut == 0 || cut >= HEADER_SIZE || PayloadLength(header) != 0
      then Replayed(TornLog(rs, torn, cut), stale) == rs
      else Replayed(TornLog(rs, torn, cut), stale) == rs + [HeaderRecord(header, [])]
  {
    var tail := RecordBytes(torn)[..cut];
    ReplayPrefix(rs, tail, stale);
    hide HeaderBytes, PayloadLength, HeaderRecord, LogBytes;
    if cut == 0 {
      EmptyReplay(stale);
    } else if cut >= HEADER_SIZE {
      HeaderRoundTrip(torn);
      assert tail[..HEADER_SIZE] == HeaderBytes(torn);
      assert Replayed(tail, stale) == [];
    } else {
      EmptyReplay(stale);
    }
  }

  // ---------- Logs reopened after a cut ----------

  lemma {:induction false} EncodeDecode(s: seq<bv8>)
    ensures Encode(Decode(s), |s|) == s
  {
    hide FromByte, ToByte, Decode, Encode;
    if s == [] {
      NothingEncoded();
    } else {
      DecodeStep(s);
      EncodeStep(Decode(s), |s|);
      EncodeDecode(s[1..]);
      ByteBack(s[0]);
    }
  }

  lemma NothingEncoded()
    ensures Encode(Decode([]), 0) == []
  {}

  lemma HeaderBack(header: seq<bv8>, payload: seq<bv8>)
    requires |header| == HEADER_SIZE && |payload| == PayloadLength(header)
    ensures RecordBytes(HeaderRecord(header, payload)) == header + payload
  {
    hide Encode, Decode;
    EncodeDecode(header[0..8]);
    EncodeDecode(header[8..12]);
    EncodeDecode(header[12..13]);
    EncodeDecode(header[13..17]);
    EncodeDecode(header[17..19]);
    EncodeDecode(header[19..23]);
  }

  /** Bytes left over from an earlier read that can pass for the end of a header only with a payload of 2^24 bytes. */
  predicate LoudStale(stale: seq<bv8>) {
    |stale| == HEADER_SIZE && stale[HEADER_SIZE - 1] != 0
  }

  lemma LoudLength(header: seq<bv8>)
    requires LoudStale(header)
    ensures PayloadLength(header) > 0
  {
    LoudDecode(header[19..23]);
  }

  lemma {:induction false} LoudDecode(s: seq<bv8>)
    requires s != [] && s[|s| - 1] != 0
    ensures Decode(s) > 0
  {
    if |s| == 1 {
      NotZero(s[0]);
    } else {
      LoudDecode(s[1..]);
    }
  }

  lemma NotZero(b: bv8)
    requires b != 0
    ensures FromByte(b) > 0
  {}

  lemma LoudShort(file: seq<bv8>, stale: seq<bv8>)
    requires LoudStale(stale) && |file| < HEADER_SIZE
    ensures Replayed(file, stale) == []
  {
    if file != [] {
      LoudLength(ReadHeader(file, stale));
    }
  }

  lemma {:induction false} LoudIsPrefix(file: seq<bv8>, stale: seq<bv8>)
    requires LoudStale(stale)
    ensures LogBytes(Replayed(file, stale)) <= file
    decreases |file|
  {
    hide PayloadLength, HeaderRecord, RecordBytes, Replayed, LogBytes;
    if |file| < HEADER_SIZE {
      LoudShort(file, stale);
      NoBytes(file);
    } else {
      var header, rest := file[..HEADER_SIZE], file[HEADER_SIZE..];
      ReplayUnfold(file, header, rest, stale);
      var n := PayloadLength(header);
      if n <= |rest| {
        HeaderBack(header, rest[..n]);
        LoudIsPrefix(rest[n..], stale);
        FirstRecord(HeaderRecord(header, rest[..n]), Replayed(rest[n..], stale));
        assert file == header + rest[..n] + rest[n..];
      } else {
        NoBytes(file);
      }
    }
  }

  lemma NoBytes(file: seq<bv8>)
    ensures LogBytes([]) <= file
  {}

  lemma FirstRecord(r: Record, more: seq<Record>)
    ensures LogBytes([r] + more) == RecordBytes(r) + LogBytes(more)
  {
    assert ([r] + more)[1..] == more;
  }

  function Loud(stale: seq<bv8>): (loud: seq<bv8>)
    requires |stale| == HEADER_SIZE
    ensures LoudStale(loud)
  {
    stale[HEADER_SIZE - 1 := 1]
  }

  /** `rs` is `before`, or `before` and one record without payload. */
  ghost predicate OneMoreAtMost(rs: seq<Record>, before: seq<Record>) {
    rs == before || (|rs| == |before| + 1 && rs[..|before|] == before && rs[|before|].request.payload == [])
  }

  /** Other bytes left over from an earlier read can only add a last record, without payload. */
  lemma {:induction false} StaleAddsOne(file: seq<bv8>, stale: seq<bv8>)
    requires |stale| == HEADER_SIZE
    ensures OneMoreAtMost(Replayed(file, stale), Replayed(file, Loud(stale)))
    decreases |file|
  {
    hide PayloadLength, HeaderRecord;
    if 0 < |file| < HEADER_SIZE {
      LoudShort(file, Loud(stale));
      ShortReplay(file, stale);
    } else if |file| >= HEADER_SIZE {
      var header, rest := file[..HEADER_SIZE], file[HEADER_SIZE..];
      var n := PayloadLength(header);
      if n <= |rest| {
        StaleAddsOne(rest[n..], stale);
        var r := HeaderRecord(header, rest[..n]);
        OneMoreBehind(r, Replayed(rest[n..], stale), Replayed(rest[n..], Loud(stale)));
      }
    }
  }

  lemma OneMoreBehind(r: Record, rs: seq<Record>, before: seq<Record>)
    requires OneMoreAtMost(rs, before)
    ensures OneMoreAtMost([r] + rs, [r] + before)
  {
    if |rs| == |before| + 1 {
      assert ([r] + rs)[..|before| + 1] == [r] + rs[..|before|];
    }
  }

  /** What is read where less than a header is left. */
  lemma ShortReplay(file: seq<bv8>, stale: seq<bv8>)
    requires |stale| == HEADER_SIZE && 0 < |file| < HEADER_SIZE
    ensures var header := ReadHeader(file, stale);
      && Replayed(file, stale) == (if PayloadLength(header) != 0 then [] else [HeaderRecord(header, [])])
      && HeaderRecord(header, []).request.payload == []
  {
    hide PayloadLength;
    EmptyReplay(stale);
  }

  /** Replay invents nothing but, at most, a last record without payload: the bytes of the others begin the file. */
  lemma ReplayedIsPrefix(file: seq<bv8>, stale: seq<bv8>)
    requires |stale| == HEADER_SIZE
    ensures var rs := Replayed(file, stale);
      LogBytes(rs) <= file || (rs != [] && rs[|rs| - 1].request.payload == [] && LogBytes(rs[..|rs| - 1]) <= file)
  {
    hide Replayed, LogBytes;
    StaleAddsOne(file, stale);
    LoudIsPrefix(file, Loud(stale));
  }

  ghost predicate EndsWith(rs: seq<Record>, later: seq<Record>) {
    |later| <= |rs| && rs[|rs| - |later|..] == later
  }

  /** The records that follow in a log whose last record was cut, and behind which `later` was appended. */
  function Behind(torn: Record, cut: nat, later: seq<Record>): seq<bv8>
    requires cut < |RecordBytes(torn)|
  {
    RecordBytes(torn)[..cut] + LogBytes(later)
  }

  /** What was left of the cut record happens to continue itself: the new records' bytes, put behind it, begin with the new
      records' bytes, and what is then left over does not read as one more record. */
  ghost predicate ContinuesItself(torn: Record, cut: nat, later: seq<Record>, stale: seq<bv8>)
    requires |stale| == HEADER_SIZE && cut < |RecordBytes(torn)|
  {
    var tail, all := Behind(torn, cut, later), LogBytes(later);
    all <= tail && PayloadLength(ReadHeader(tail[|all|..], stale)) != 0
  }

  /** A log that was cut inside a record and reopened still replays the records appended then exactly if nothing was left of
      the record, or what was left continues itself. No record of the engine is without payload. */
  lemma ReopenedReplay(rs: seq<Record>, torn: Record, cut: nat, later: seq<Record>, stale: seq<bv8>)
    requires |stale| == HEADER_SIZE && cut < |RecordBytes(torn)| && later != [] && later[|later| - 1].request.payload != []
    requires cut >= 8 ==> torn.lsn != later[0].lsn
    ensures Replayed(TornLog(rs, torn, cut) + LogBytes(later), stale) == rs + Replayed(Behind(torn, cut, later), stale)
    ensures EndsWith(Replayed(Behind(torn, cut, later), stale), later) <==> cut == 0 || ContinuesItself(torn, cut, later, stale)
    ensures cut >= 8 ==> !ContinuesItself(torn, cut, later, stale)
  {
    hide Replayed, LogBytes, RecordBytes, ReadHeader, PayloadLength;
    var tail := Behind(torn, cut, later);
    assert TornLog(rs, torn, cut) + LogBytes(later) == LogBytes(rs) + tail;
    ReplayPrefix(rs, tail, stale);
    if cut >= 8 {
      NotAgain(torn, cut, later);
    }
    if cut == 0 {
      assert tail == LogBytes(later);
      ReplayRoundTrip(later, stale);
    } else if LogBytes(later) <= tail {
      LeftOver(torn, cut, later, stale);
    } else {
      NotReplayed(torn, cut, later, Loud(stale));
      StaleAddsOne(tail, stale);
      OneMoreEnds(Replayed(tail, stale), Replayed(tail, Loud(stale)), later);
    }
  }

  lemma OneMoreEnds(rs: seq<Record>, before: seq<Record>, later: seq<Record>)
    requires OneMoreAtMost(rs, before) && later != [] && later[|later| - 1].request.payload != []
    ensures EndsWith(rs, later) ==> EndsWith(before, later)
  {
    if rs != before {
      assert rs == before + [rs[|before|]];
      BogusEnd(before, rs[|before|], later);
    }
  }

  /** With its LSN left, the cut record cannot pass for a new one. */
  lemma NotAgain(torn: Record, cut: nat, later: seq<Record>)
    requires 8 <= cut < |RecordBytes(torn)| && later != [] && torn.lsn != later[0].lsn
    ensures !(LogBytes(later) <= Behind(torn, cut, later))
  {
    hide LogBytes, Encode, Decode;
    var tail, all := Behind(torn, cut, later), LogBytes(later);
    FirstBytes(later);
    Powers();
    DecodeEncode(torn.lsn, 8);
    DecodeEncode(later[0].lsn, 8);
    assert tail[..8] == RecordBytes(torn)[..8] == Encode(torn.lsn, 8);
    HeadsDiffer(all, tail, 8);
  }

  lemma HeadsDiffer(a: seq<bv8>, b: seq<bv8>, n: nat)
    requires n <= |a| && n <= |b| && a[..n] != b[..n]
    ensures !(a <= b)
  {
    var i :| 0 <= i < n && a[..n][i] != b[..n][i];
    assert a[i] != b[i];
  }

  lemma LeftOver(torn: Record, cut: nat, later: seq<Record>, stale: seq<bv8>)
    requires |stale| == HEADER_SIZE && 0 < cut < |RecordBytes(torn)| && cut < 8
    requires later != [] && later[|later| - 1].request.payload != [] && LogBytes(later) <= Behind(torn, cut, later)
    ensures EndsWith(Replayed(Behind(torn, cut, later), stale), later) <==> ContinuesItself(torn, cut, later, stale)
  {
    hide Replayed, LogBytes, RecordBytes, PayloadLength, HeaderRecord, ReadHeader, EndsWith;
    var tail, all := Behind(torn, cut, later), LogBytes(later);
    var rest := tail[|all|..];
    assert tail == all + rest;
    ReplayPrefix(later, rest, stale);
    ShortReplay(rest, stale);
    var header := ReadHeader(rest, stale);
    if PayloadLength(header) != 0 {
      EndsItself(later);
    } else {
      BogusEnd(later, HeaderRecord(header, []), later);
    }
  }

  lemma EndsItself(later: seq<Record>)
    ensures EndsWith(later + [], later)
  {
    assert later + [] == later && later[0..] == later;
  }

  lemma BogusEnd(before: seq<Record>, bogus: Record, later: seq<Record>)
    requires later != [] && later[|later| - 1].request.payload != [] && bogus.request.payload == []
    ensures !EndsWith(before + [bogus], later)
  {
    var rs := before + [bogus];
    if |later| <= |rs| {
      assert rs[|rs| - |later|..][|later| - 1] == bogus;
    }
  }

  /** A deletion cut one byte before its end, and a deletion logged after reopening: the second is lost in every replay. */
  lemma LostDeletion(stale: seq<bv8>)
    requires |stale| == HEADER_SIZE
    ensures var torn, next := Record(1, Request(0, FTS_TOMBSTONE, 1, 0, [7, 0, 0, 0])), Record(27, Request(0, FTS_TOMBSTONE, 1, 0, [9, 0, 0, 0]));
      && |TornLog([], torn, 26)| == 26
      && !EndsWith(Replayed(TornLog([], torn, 26) + RecordBytes(next), stale), [next])
  {
    hide Replayed, HeaderBytes;
    var torn, next := Record(1, Request(0, FTS_TOMBSTONE, 1, 0, [7, 0, 0, 0])), Record(27, Request(0, FTS_TOMBSTONE, 1, 0, [9, 0, 0, 0]));
    ReopenedReplay([], torn, 26, [next], stale);
    OneRecord(next);
    var read := Replayed(Behind(torn, 26, [next]), stale);
    assert [] + read == read;
  }

  lemma OneRecord(r: Record)
    ensures LogBytes([r]) == RecordBytes(r)
  {
    assert [r][1..] == [];
  }

  lemma FirstBytes(later: seq<Record>)
    requires later != []
    ensures |LogBytes(later)| >= HEADER_SIZE && LogBytes(later)[..8] == Encode(later[0].lsn, 8)
  {}

  lemma NotReplayed(torn: Record, cut: nat, later: seq<Record>, stale: seq<bv8>)
    requires LoudStale(stale) && 0 < cut < |RecordBytes(torn)| && later != []
    requires !(LogBytes(later) <= Behind(torn, cut, later))
    ensures !EndsWith(Replayed(Behind(torn, cut, later), stale), later)
  {
    hide PayloadLength, HeaderRecord, LogBytes, HeaderBytes;
    var tail := Behind(torn, cut, later);
    FirstBytes(later);
    var header, rest := tail[..HEADER_SIZE], tail[HEADER_SIZE..];
    var n := PayloadLength(header);
    LoudIsPrefix(tail, stale);
    var all := Replayed(tail, stale);
    if n <= |rest| {
      LengthRead(torn, cut, later);
      LoudIsPrefix(rest[n..], stale);
      NotSuffix(all, Replayed(rest[n..], stale), later, tail);
    }
  }

  lemma NotSuffix(all: seq<Record>, more: seq<Record>, later: seq<Record>, tail: seq<bv8>)
    requires all != [] && all[1..] == more && LogBytes(all) <= tail && !(LogBytes(later) <= tail)
    requires |LogBytes(more)| < |LogBytes(later)|
    ensures !EndsWith(all, later)
  {
    hide LogBytes;
    assert all[0..] == all;
    if EndsWith(all, later) && |later| < |all| {
      SuffixBytes(more, later);
    }
  }

  /** The record read first reaches beyond the cut. */
  lemma LengthRead(torn: Record, cut: nat, later: seq<Record>)
    requires cut < |RecordBytes(torn)| && later != []
    ensures |Behind(torn, cut, later)| >= HEADER_SIZE
    ensures HEADER_SIZE + PayloadLength(Behind(torn, cut, later)[..HEADER_SIZE]) > cut
  {
    hide LogBytes, PayloadLength;
    FirstBytes(later);
    if cut >= HEADER_SIZE {
      HeaderRoundTrip(torn);
      assert Behind(torn, cut, later)[..HEADER_SIZE] == HeaderBytes(torn);
    }
  }

  lemma {:induction false} SuffixBytes(rs: seq<Record>, later: seq<Record>)
    requires |later| <= |rs| && rs[|rs| - |later|..] == later
    ensures |LogBytes(later)| <= |LogBytes(rs)|
  {
    hide RecordBytes;
    if |later| < |rs| {
      assert rs[1..][|rs[1..]| - |later|..] == later;
      SuffixBytes(rs[1..], later);
    } else {
      assert rs == later;
    }
  }

  // ---------- Sessions ----------

  ghost predicate Increasing(rs: seq<Record>) {
    forall i, j :: 0 <= i < j < |rs| ==> rs[i].lsn < rs[j].lsn
  }

  ghost predicate Numbered(rs: seq<Record>, lsn: int) {
    Increasing(rs) && forall i :: 0 <= i < |rs| ==> rs[i].lsn <= lsn
  }

  /** What every state of an open log keeps: the last LSN never exceeds the file size, which is
      where the next session starts to count. */
  ghost predicate Counted(rs: seq<Record>, lsn: int) {
    Numbered(rs, lsn) && lsn <= |LogBytes(rs)|
  }

  lemma {:induction false} LogAppend(rs: seq<Record>, r: Record)
    ensures LogBytes(rs + [r]) == LogBytes(rs) + RecordBytes(r)
  {
    hide RecordBytes;
    if rs == [] {
      assert rs + [r] == [r];
      assert [r][1..] == [];
      assert LogBytes([r]) == RecordBytes(r) + LogBytes([]);
    } else {
      assert (rs + [r])[1..] == rs[1..] + [r];
      LogAppend(rs[1..], r);
    }
  }

  lemma CountedAppend(rs: seq<Record>, lsn: int, r: Record)
    requires Counted(rs, lsn) && r.lsn == lsn + 1
    ensures Counted(rs + [r], lsn + 1)
    ensures |LogBytes(rs + [r])| >= |LogBytes(rs)| + HEADER_SIZE
  {
    hide LogBytes, HeaderBytes;
    LogAppend(rs, r);
  }

  /** The records after one more session, whose first LSN follows `lsn`. */
  function Session(rs: seq<Record>, lsn: u64, requests: seq<Request>): seq<Record>
    requires lsn + |requests| < 0x1_0000_0000_0000_0000
    decreases |requests|
  {
    if requests == [] then rs
    else Session(rs + [Record(lsn + 1, requests[0])], lsn + 1, requests[1..])
  }

  lemma {:induction false} SessionCounted(rs: seq<Record>, lsn: u64, requests: seq<Request>)
    requires lsn + |requests| < 0x1_0000_0000_0000_0000 && Counted(rs, lsn)
    ensures var all := Session(rs, lsn, requests);
      Counted(all, |LogBytes(all)|) && rs <= all && Appended(all[|rs|..]) == requests
    decreases |requests|
  {
    hide LogBytes;
    if requests != [] {
      var r := Record(lsn + 1, requests[0]);
      CountedAppend(rs, lsn, r);
      SessionCounted(rs + [r], lsn + 1, requests[1..]);
      var all := Session(rs, lsn, requests);
      assert all[|rs|..] == [r] + all[|rs| + 1..];
    }
  }

  function Appended(rs: seq<Record>): seq<Request> {
    if rs == [] then [] else [rs[0].request] + Appended(rs[1..])
  }

  /** The records of the log file after any number of open/append/close sessions. */
  function Sessions(rs: seq<Record>, sessions: seq<seq<Request>>): seq<Record>
    requires Fit(rs, sessions)
    decreases |sessions|
  {
    if sessions == [] then rs
    else Sessions(Session(rs, |LogBytes(rs)|, sessions[0]), sessions[1..])
  }

  /** Every LSN handed out stays below 2^64. */
  predicate Fit(rs: seq<Record>, sessions: seq<seq<Request>>)
    decreases |sessions|
  {
    sessions != [] ==>
      && |LogBytes(rs)| + |sessions[0]| < 0x1_0000_0000_0000_0000
      && Fit(Session(rs, |LogBytes(rs)|, sessions[0]), sessions[1..])
  }

  function Flattened(sessions: seq<seq<Request>>): seq<Request> {
    if sessions == [] then [] else sessions[0] + Flattened(sessions[1..])
  }

  lemma {:induction false} AppendedConcat(a: seq<Record>, b: seq<Record>)
    ensures Appended(a + b) == Appended(a) + Appended(b)
  {
    if a == [] {
      assert a + b == b;
    } else {
      assert (a + b)[1..] == a[1..] + b;
      AppendedConcat(a[1..], b);
    }
  }

  /** Over any sessions, the log replays to exactly the appended records, in order, under strictly increasing LSNs. */
  lemma {:induction false} SessionsReplay(rs: seq<Record>, sessions: seq<seq<Request>>, stale: seq<bv8>)
    requires Fit(rs, sessions) && Counted(rs, |LogBytes(rs)|) && |stale| == HEADER_SIZE
    ensures var all := Sessions(rs, sessions);
      && Replayed(LogBytes(all), stale) == all && Increasing(all)
      && Appended(all) == Appended(rs) + Flattened(sessions)
    decreases |sessions|
  {
    hide LogBytes, Replayed, Session;
    if sessions == [] {
      ReplayRoundTrip(rs, stale);
    } else {
      var next := Session(rs, |LogBytes(rs)|, sessions[0]);
      SessionCounted(rs, |LogBytes(rs)|, sessions[0]);
      AppendedBehind(rs, next);
      SessionsReplay(next, sessions[1..], stale);
      assert Flattened(sessions) == sessions[0] + Flattened(sessions[1..]);
    }
  }

  lemma AppendedBehind(rs: seq<Record>, next: seq<Record>)
    requires rs <= next
    ensures Appended(next) == Appended(rs) + Appended(next[|rs|..])
  {
    AppendedConcat(rs, next[|rs|..]);
    assert next == rs + next[|rs|..];
  }

  /** Records numbered one after the other are those of a session. */
  lemma {:induction false} NumberedIsSession(rs: seq<Record>, lsn: u64, added: seq<Record>)
    requires lsn + |added| < 0x1_0000_0000_0000_0000
    requires forall k :: 0 <= k < |added| ==> added[k].lsn == lsn + k + 1
    ensures |Appended(added)| == |added|
    ensures rs + added == Session(rs, lsn, Appended(added))
    decreases |added|
  {
    if added == [] {
      assert rs + added == rs;
    } else {
      var r := added[0];
      assert r == Record(lsn + 1, r.request);
      NumberedIsSession(rs + [r], lsn + 1, added[1..]);
      assert rs + added == rs + [r] + added[1..];
    }
  }

  /** A file of whole records, of which the first `found` were followed by `damage` when the file was opened. */
  function FileBytes(records: seq<Record>, found: nat, damage: seq<bv8>): seq<bv8>
    requires found <= |records|
  {
    LogBytes(records[..found]) + damage + LogBytes(records[found..])
  }

  lemma {:induction false} LogConcat(a: seq<Record>, b: seq<Record>)
    ensures LogBytes(a + b) == LogBytes(a) + LogBytes(b)
  {
    hide RecordBytes;
    if a == [] {
      assert a + b == b;
    } else {
      assert (a + b)[1..] == a[1..] + b;
      LogConcat(a[1..], b);
    }
  }

  lemma UndamagedFile(records: seq<Record>, found: nat)
    requires found <= |records|
    ensures FileBytes(records, found, []) == LogBytes(records)
  {
    hide LogBytes;
    var a, b := records[..found], records[found..];
    assert records == a + b;
    LogConcat(a, b);
    assert LogBytes(a) + [] == LogBytes(a);
  }

  lemma FileAppend(records: seq<Record>, found: nat, damage: seq<bv8>, r: Record)
    requires found <= |records|
    ensures FileBytes(records + [r], found, damage) == FileBytes(records, found, damage) + RecordBytes(r)
  {
    hide LogBytes, RecordBytes;
    LogAppend(records[found..], r);
    assert (records + [r])[..found] == records[..found];
    assert (records + [r])[found..] == records[found..] + [r];
  }

  class WalManager {
    var log: seq<bv8>
    var durable: nat
    var currentLsn: u64
    ghost var records: seq<Record>       // found in the file, then appended
    ghost var durableRecords: nat
    ghost var found: nat                // how many were found
    ghost var damage: seq<bv8>           // what the file held behind them
    ghost var startLsn: nat

    ghost predicate Valid()
      reads this
    {
      && found <= durableRecords <= |records|
      && log == FileBytes(records, found, damage)
      && durable == |FileBytes(records[..durableRecords], found, damage)|
      && startLsn == |FileBytes(records[..found], found, damage)|
      && (forall k :: found <= k < |records| ==> records[k].lsn == startLsn + (k - found) + 1)
      && currentLsn == startLsn + (|records| - found) && currentLsn <= |log|
      && Numbered(records, currentLsn)
    }

    /** wal_init on any file: whole records, then `behind`, which is empty unless the last record was cut. The LSN starts at
        the file size. */
    constructor (file: seq<bv8>, ghost history: seq<Record>, ghost behind: seq<bv8>)
      requires file == LogBytes(history) + behind && |file| < 0x1_0000_0000_0000_0000
      requires Numbered(history, |file|)
      ensures Valid() && records == history && durableRecords == found == |history| && damage == behind
      ensures log == file && currentLsn == startLsn == |file|
    {
      log, durable, currentLsn := file, |file|, |file|;
      records, durableRecords, found, damage, startLsn := history, |history|, |history|, behind, |file|;
      assert history[..|history|] == history && history[|history|..] == [];
    }

    method Append(request: Request) returns (lsn: u64)
      requires Valid() && currentLsn + 1 < 0x1_0000_0000_0000_0000
      modifies this
      ensures Valid()
      ensures lsn == currentLsn == old(currentLsn) + 1
      ensures records == old(records) + [Record(lsn, request)] && log == old(log) + RecordBytes(Record(lsn, request))
      ensures var n := |old(log)|;
        && |log| == n + 23 + |request.payload| && log[..n] == old(log)
        && Decode(log[n..n + 8]) == lsn && Decode(log[n + 8..n + 12]) == request.txn && log[n + 12] as int == request.kind
        && Decode(log[n + 13..n + 17]) == request.page && Decode(log[n + 17..n + 19]) == request.slot
        && Decode(log[n + 19..n + 23]) == |request.payload| && log[n + 23..] == request.payload
      ensures durableRecords == old(durableRecords) && durable == old(durable)
      ensures found == old(found) && damage == old(damage) && startLsn == old(startLsn)
    {
      hide LogBytes, HeaderBytes, FileBytes, Decode;
      lsn := currentLsn + 1;
      var r := Record(lsn, request);
      LayoutBehind(log, r);
      FileAppend(records, found, damage, r);
      assert (records + [r])[..durableRecords] == records[..durableRecords];
      assert (records + [r])[..found] == records[..found];
      log := log + HeaderBytes(r);
      if |request.payload| > 0 {
        log := log + request.payload;
      }
      currentLsn := lsn;
      records := records + [r];
    }

    method Flush()
      requires Valid()
      modifies this
      ensures Valid() && durableRecords == |records| && durable == |log|
      ensures records == old(records) && log == old(log) && currentLsn == old(currentLsn)
      ensures found == old(found) && damage == old(damage) && startLsn == old(startLsn)
    {
      hide LogBytes, FileBytes;
      durable := |log|;
      durableRecords := |records|;
      assert records[..|records|] == records;
    }

    /** Replay of the open file calls back with what the file reads as: exactly the records found and appended, in order, if
        the file held whole records when it was opened. */
    method ReplayRecovery(stale: seq<bv8>) returns (applied: seq<Record>)
      requires Valid() && |stale| == HEADER_SIZE
      ensures applied == Replayed(log, stale)
      ensures damage == [] ==> applied == records && Increasing(applied)
    {
      hide LogBytes, Replayed, FileBytes;
      applied := Replay(log, stale);
      if damage == [] {
        UndamagedFile(records, found);
        ReplayRoundTrip(records, stale);
      }
    }

    /** What a session appends are the records of `Session`, behind those found. */
    lemma IsSession()
      requires Valid()
      ensures startLsn + |Appended(records[found..])| < 0x1_0000_0000_0000_0000
      ensures records == Session(records[..found], startLsn, Appended(records[found..]))
    {
      hide FileBytes, Session;
      NumberedIsSession(records[..found], startLsn, records[found..]);
      assert records == records[..found] + records[found..];
    }
  }
}
