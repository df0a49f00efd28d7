/** The byte layout of src/slotted_page.c: a 24-byte header, a slot array that grows
    upward behind it and tuples that grow downward from the end of the page. */
module SlottedPage {
  import opened Bytes

  const PAGE_SIZE := 4096
  const HEADER_SIZE := 24
  const SLOT_SIZE := 4

  // ---------- Reading a page as a list of tuples ----------

  function Field(p: seq<bv8>, at: nat, size: nat): nat
    requires at + size <= |p|
  {
    Decode(p[at..at + size])
  }

  function Lower(p: seq<bv8>): nat
    requires |p| == PAGE_SIZE
  {
    Field(p, 18, 2)
  }

  function Upper(p: seq<bv8>): nat
    requires |p| == PAGE_SIZE
  {
    Field(p, 20, 2)
  }

  function Count(p: seq<bv8>): nat
    requires |p| == PAGE_SIZE
  {
    Field(p, 22, 2)
  }

  function SlotOffset(p: seq<bv8>, i: nat): nat
    requires |p| == PAGE_SIZE && HEADER_SIZE + SLOT_SIZE * (i + 1) <= PAGE_SIZE
  {
    Field(p, HEADER_SIZE + SLOT_SIZE * i, 2)
  }

  function SlotLength(p: seq<bv8>, i: nat): nat
    requires |p| == PAGE_SIZE && HEADER_SIZE + SLOT_SIZE * (i + 1) <= PAGE_SIZE
  {
    Field(p, HEADER_SIZE + SLOT_SIZE * i + 2, 2)
  }

  /** The space `tuples` take, slots included. */
  function Used(tuples: seq<seq<bv8>>): nat {
    if tuples == [] then 0 else Used(tuples[..|tuples| - 1]) + SLOT_SIZE + |tuples[|tuples| - 1]|
  }

  /** The slot array ends where the header says, and slots name disjoint pieces of the tuple area. */
  ghost predicate Layout(p: seq<bv8>) {
    && |p| == PAGE_SIZE
    && Lower(p) == HEADER_SIZE + SLOT_SIZE * Count(p)
    && Lower(p) <= Upper(p) <= PAGE_SIZE
    && (forall i: nat :: i < Count(p) ==> Upper(p) <= SlotOffset(p, i) && SlotOffset(p, i) + SlotLength(p, i) <= PAGE_SIZE)
    && (forall i: nat, j: nat :: i < j < Count(p) ==> SlotOffset(p, j) + SlotLength(p, j) <= SlotOffset(p, i))
  }

  function Tuple(p: seq<bv8>, i: nat): seq<bv8>
    requires Layout(p) && i < Count(p)
  {
    p[SlotOffset(p, i)..SlotOffset(p, i) + SlotLength(p, i)]
  }

  ghost function Tuples(p: seq<bv8>): seq<seq<bv8>>
    requires Layout(p)
  {
    seq(Count(p), i requires 0 <= i < Count(p) => Tuple(p, i))
  }

  ghost predicate WellFormed(p: seq<bv8>) {
    Layout(p) && Upper(p) - Lower(p) == PAGE_SIZE - HEADER_SIZE - Used(Tuples(p))
  }

  // ---------- Stores into a page ----------

  datatype Write = Write(at: nat, bytes: seq<bv8>) {
    predicate Inside() { at + |bytes| <= PAGE_SIZE }

    predicate Misses(i: nat, j: nat) { j <= at || at + |bytes| <= i }

    function On(p: seq<bv8>): (q: seq<bv8>)
      requires |p| == PAGE_SIZE && Inside()
      ensures |q| == PAGE_SIZE
    {
      p[..at] + bytes + p[at + |bytes|..]
    }
  }

  ghost predicate AllInside(writes: seq<Write>) {
    forall k :: 0 <= k < |writes| ==> writes[k].Inside()
  }

  ghost function Apply(p: seq<bv8>, writes: seq<Write>): (q: seq<bv8>)
    requires |p| == PAGE_SIZE && AllInside(writes)
    ensures |q| == PAGE_SIZE
  {
    if writes == [] then p else writes[|writes| - 1].On(Apply(p, writes[..|writes| - 1]))
  }

  lemma OnSlice(w: Write, p: seq<bv8>, i: nat, j: nat)
    requires |p| == PAGE_SIZE && w.Inside() && i <= j <= PAGE_SIZE
    ensures w.Misses(i, j) ==> w.On(p)[i..j] == p[i..j]
    ensures w.On(p)[w.at..w.at + |w.bytes|] == w.bytes
  {}

  lemma {:induction false} Untouched(p: seq<bv8>, writes: seq<Write>, i: nat, j: nat)
    requires |p| == PAGE_SIZE && i <= j <= PAGE_SIZE
    requires AllInside(writes) && forall k :: 0 <= k < |writes| ==> writes[k].Misses(i, j)
    ensures Apply(p, writes)[i..j] == p[i..j]
  {
    if writes != [] {
      var w, rest := writes[|writes| - 1], writes[..|writes| - 1];
      Untouched(p, rest, i, j);
      OnSlice(w, Apply(p, rest), i, j);
    }
  }

  lemma {:induction false} Written(p: seq<bv8>, writes: seq<Write>, m: nat)
    requires |p| == PAGE_SIZE && m < |writes|
    requires AllInside(writes)
    requires forall k :: m < k < |writes| ==> writes[k].Misses(writes[m].at, writes[m].at + |writes[m].bytes|)
    ensures Apply(p, writes)[writes[m].at..writes[m].at + |writes[m].bytes|] == writes[m].bytes
  {
    var w, rest := writes[|writes| - 1], writes[..|writes| - 1];
    if m < |writes| - 1 {
      Written(p, rest, m);
    }
    OnSlice(w, Apply(p, rest), writes[m].at, writes[m].at + |writes[m].bytes|);
  }

  method Store(page: array<bv8>, at: nat, bytes: seq<bv8>, ghost p: seq<bv8>, ghost writes: seq<Write>)
    returns (ghost done: seq<Write>)
    requires page.Length == PAGE_SIZE && at + |bytes| <= PAGE_SIZE && |p| == PAGE_SIZE
    requires AllInside(writes)
    requires page[..] == Apply(p, writes)
    modifies page
    ensures done == writes + [Write(at, bytes)]
    ensures AllInside(done)
    ensures page[..] == Apply(p, done)
  {
    hide Apply;
    ghost var q := page[..];
    CopyBytes(page, at, bytes);
    done := writes + [Write(at, bytes)];
    OneMoreWrite(p, writes, Write(at, bytes));
    assert page[..] == Write(at, bytes).On(q);
  }

  lemma OneMoreWrite(p: seq<bv8>, writes: seq<Write>, w: Write)
    requires |p| == PAGE_SIZE && AllInside(writes) && w.Inside()
    ensures AllInside(writes + [w]) && Apply(p, writes + [w]) == w.On(Apply(p, writes))
  {
    assert (writes + [w])[..|writes|] == writes;
  }

  method CopyBytes(page: array<bv8>, at: nat, bytes: seq<bv8>)
    requires at + |bytes| <= page.Length
    modifies page
    ensures page[..] == old(page[..at]) + bytes + old(page[at + |bytes|..])
  {
    for i := 0 to |bytes|
      invariant forall k :: 0 <= k < i ==> page[at + k] == bytes[k]
      invariant forall k :: 0 <= k < at || at + i <= k < page.Length ==> page[k] == old(page[k])
    {
      page[at + i] := bytes[i];
    }
  }

  lemma Field16(v: u16)
    ensures |Encode(v, 2)| == 2 && Decode(Encode(v, 2)) == v
  {
    Powers();
    DecodeEncode(v, 2);
  }

  // ---------- The operations ----------

  function InitWrites(pageId: u32, pageType: u16): (writes: seq<Write>)
    ensures AllInside(writes)
  {
    [Write(8, Encode(pageId, 4)), Write(16, Encode(pageType, 2)), Write(18, Encode(HEADER_SIZE, 2)), Write(20, Encode(PAGE_SIZE, 2))]
  }

  method Init(page: array<bv8>, pageId: u32, pageType: u16)
    requires page.Length == PAGE_SIZE
    modifies page
    ensures WellFormed(page[..]) && Tuples(page[..]) == []
    ensures var p := page[..];
      && Decode(p[0..8]) == 0 && Decode(p[8..12]) == pageId && Decode(p[12..16]) == 0 && Decode(p[16..18]) == pageType
      && Decode(p[18..20]) == 24 && Decode(p[20..22]) == 4096 && Decode(p[22..24]) == 0
  {
    forall i | 0 <= i < PAGE_SIZE {
      page[i] := 0;
    }
    ghost var zero := page[..];
    ghost var done := Store(page, 8, Encode(pageId, 4), zero, []);
    done := Store(page, 16, Encode(pageType, 2), zero, done);
    done := Store(page, 18, Encode(HEADER_SIZE, 2), zero, done);
    done := Store(page, 20, Encode(PAGE_SIZE, 2), zero, done);
    assert done == InitWrites(pageId, pageType);
    InitFields(zero, pageId, pageType);
  }

  lemma InitFields(zero: seq<bv8>, pageId: u32, pageType: u16)
    requires |zero| == PAGE_SIZE && forall i :: 0 <= i < PAGE_SIZE ==> zero[i] == 0
    ensures var q := Apply(zero, InitWrites(pageId, pageType));
      && WellFormed(q) && Tuples(q) == []
      && Decode(q[0..8]) == 0 && Decode(q[8..12]) == pageId && Decode(q[12..16]) == 0 && Decode(q[16..18]) == pageType
      && Decode(q[18..20]) == 24 && Decode(q[20..22]) == 4096 && Decode(q[22..24]) == 0
  {
    hide Apply, Encode, Decode;
    var writes := InitWrites(pageId, pageType);
    Powers();
    DecodeEncode(pageId, 4);
    Field16(pageType);
    Field16(HEADER_SIZE);
    Field16(PAGE_SIZE);
    Written(zero, writes, 0);
    Written(zero, writes, 1);
    Written(zero, writes, 2);
    Written(zero, writes, 3);
    Untouched(zero, writes, 22, 24);
    Untouched(zero, writes, 0, 8);
    Untouched(zero, writes, 12, 16);
    ZeroDecodes(zero[22..24]);
    ZeroDecodes(zero[0..8]);
    ZeroDecodes(zero[12..16]);
  }

  lemma {:induction false} ZeroDecodes(s: seq<bv8>)
    requires forall i :: 0 <= i < |s| ==> s[i] == 0
    ensures Decode(s) == 0
  {
    if s != [] {
      ZeroDecodes(s[1..]);
    }
  }

  /** The stores of slotted_page_insert_tuple, in their order. */
  function InsertWrites(lower: nat, upper: nat, count: nat, data: seq<bv8>): seq<Write>
    requires |data| <= upper
  {
    [ Write(20, Encode(upper - |data|, 2)),
      Write(upper - |data|, data),
      Write(lower, Encode(upper - |data|, 2)),
      Write(lower + 2, Encode(|data|, 2)),
      Write(18, Encode(lower + SLOT_SIZE, 2)),
      Write(22, Encode(count + 1, 2)) ]
  }

  /** What those stores leave behind: `q` is `p` with one more slot and one more tuple. */
  ghost predicate Extended(p: seq<bv8>, q: seq<bv8>, data: seq<bv8>)
    requires WellFormed(p)
  {
    var lower, upper, count := Lower(p), Upper(p), Count(p);
    && |q| == PAGE_SIZE
    && lower + SLOT_SIZE + |data| <= upper
    && Lower(q) == lower + SLOT_SIZE && Upper(q) == upper - |data| && Count(q) == count + 1
    && q[HEADER_SIZE..lower] == p[HEADER_SIZE..lower]
    && Field(q, lower, 2) == upper - |data| && Field(q, lower + 2, 2) == |data|
    && q[upper - |data|..upper] == data
    && q[upper..PAGE_SIZE] == p[upper..PAGE_SIZE]
    && q[0..18] == p[0..18]
  }

  /** One more slot and tuple, byte by byte: the offsets are those of the structs PageHeader and Slot. */
  ghost predicate OneMore(p: seq<bv8>, q: seq<bv8>, data: seq<bv8>)
    requires |p| == |q| == 4096
  {
    var n, top := Decode(p[22..24]), Decode(p[20..22]);
    var slot, at := 24 + 4 * n, top - |data|;
    && slot + 4 <= at && top <= 4096
    && Decode(q[18..20]) == slot + 4 && Decode(q[20..22]) == at && Decode(q[22..24]) == n + 1
    && Decode(q[slot..slot + 2]) == at && Decode(q[slot + 2..slot + 4]) == |data| && q[at..top] == data
    && forall i :: 0 <= i < 18 || 24 <= i < slot || top <= i < 4096 ==> q[i] == p[i]
  }

  lemma ExtendedBytes(p: seq<bv8>, q: seq<bv8>, data: seq<bv8>)
    requires WellFormed(p) && Extended(p, q, data)
    ensures OneMore(p, q, data)
  {
    hide Decode, Used, Tuples;
    var lower, upper := Lower(p), Upper(p);
    forall i | 0 <= i < 18 || 24 <= i < lower || upper <= i < 4096 ensures q[i] == p[i] {
      assert i < 18 ==> q[0..18][i] == p[0..18][i];
      assert 24 <= i < lower ==> q[HEADER_SIZE..lower][i - 24] == p[HEADER_SIZE..lower][i - 24];
      assert upper <= i ==> q[upper..PAGE_SIZE][i - upper] == p[upper..PAGE_SIZE][i - upper];
    }
  }

  lemma HeaderWritten(p: seq<bv8>, data: seq<bv8>, lower: nat, upper: nat, count: nat)
    requires |p| == PAGE_SIZE && HEADER_SIZE <= lower && lower + SLOT_SIZE + |data| <= upper <= PAGE_SIZE
    requires AllInside(InsertWrites(lower, upper, count, data))
    ensures var q := Apply(p, InsertWrites(lower, upper, count, data));
      q[18..20] == Encode(lower + SLOT_SIZE, 2) && q[20..22] == Encode(upper - |data|, 2) && q[22..24] == Encode(count + 1, 2)
  {
    hide Apply, Encode, AllInside;
    var writes := InsertWrites(lower, upper, count, data);
    Written(p, writes, 0);
    Written(p, writes, 4);
    Written(p, writes, 5);
  }

  lemma TupleWritten(p: seq<bv8>, data: seq<bv8>, lower: nat, upper: nat, count: nat)
    requires |p| == PAGE_SIZE && HEADER_SIZE <= lower && lower + SLOT_SIZE + |data| <= upper <= PAGE_SIZE
    requires AllInside(InsertWrites(lower, upper, count, data))
    ensures var q := Apply(p, InsertWrites(lower, upper, count, data));
      q[upper - |data|..upper] == data &&
      q[lower..lower + 2] == Encode(upper - |data|, 2) && q[lower + 2..lower + 4] == Encode(|data|, 2)
  {
    hide Apply, Encode, AllInside;
    var writes := InsertWrites(lower, upper, count, data);
    Written(p, writes, 1);
    Written(p, writes, 2);
    Written(p, writes, 3);
  }

  lemma InsertMisses(data: seq<bv8>, lower: nat, upper: nat, count: nat, i: nat, j: nat)
    requires HEADER_SIZE <= lower && lower + SLOT_SIZE + |data| <= upper <= PAGE_SIZE
    requires j <= 18 || (HEADER_SIZE <= i && j <= lower) || upper <= i
    ensures var writes := InsertWrites(lower, upper, count, data);
      forall k :: 0 <= k < |writes| ==> writes[k].Misses(i, j)
  {
    hide Encode;
  }

  lemma RestUntouched(p: seq<bv8>, data: seq<bv8>, lower: nat, upper: nat, count: nat)
    requires |p| == PAGE_SIZE && HEADER_SIZE <= lower && lower + SLOT_SIZE + |data| <= upper <= PAGE_SIZE
    requires AllInside(InsertWrites(lower, upper, count, data))
    ensures var q := Apply(p, InsertWrites(lower, upper, count, data));
      q[0..18] == p[0..18] && q[HEADER_SIZE..lower] == p[HEADER_SIZE..lower] && q[upper..PAGE_SIZE] == p[upper..PAGE_SIZE]
  {
    hide Apply, AllInside, InsertWrites;
    var writes := InsertWrites(lower, upper, count, data);
    InsertMisses(data, lower, upper, count, 0, 18);
    InsertMisses(data, lower, upper, count, HEADER_SIZE, lower);
    InsertMisses(data, lower, upper, count, upper, PAGE_SIZE);
    Untouched(p, writes, 0, 18);
    Untouched(p, writes, HEADER_SIZE, lower);
    Untouched(p, writes, upper, PAGE_SIZE);
  }

  lemma WritesExtend(p: seq<bv8>, data: seq<bv8>)
    requires WellFormed(p) && Lower(p) + SLOT_SIZE + |data| <= Upper(p)
    requires AllInside(InsertWrites(Lower(p), Upper(p), Count(p), data))
    ensures Extended(p, Apply(p, InsertWrites(Lower(p), Upper(p), Count(p), data)), data)
  {
    hide Apply, InsertWrites, Encode, Decode, Used, Tuples, AllInside;
    var lower, upper, count := Lower(p), Upper(p), Count(p);
    Field16(upper - |data|);
    Field16(|data|);
    Field16(lower + SLOT_SIZE);
    Field16(count + 1);
    HeaderWritten(p, data, lower, upper, count);
    TupleWritten(p, data, lower, upper, count);
    RestUntouched(p, data, lower, upper, count);
  }

  lemma ExtendedSlots(p: seq<bv8>, q: seq<bv8>, data: seq<bv8>, i: nat)
    requires WellFormed(p) && Extended(p, q, data) && i < Count(p)
    ensures SlotOffset(q, i) == SlotOffset(p, i) && SlotLength(q, i) == SlotLength(p, i)
    ensures Upper(p) <= SlotOffset(p, i) && SlotOffset(p, i) + SlotLength(p, i) <= PAGE_SIZE
    ensures q[SlotOffset(p, i)..SlotOffset(p, i) + SlotLength(p, i)] == Tuple(p, i)
  {
    hide Decode, Used, Tuples;
    var at := HEADER_SIZE + SLOT_SIZE * i;
    SameInside(p, q, HEADER_SIZE, Lower(p), at, at + 2);
    SameInside(p, q, HEADER_SIZE, Lower(p), at + 2, at + 4);
    SameInside(p, q, Upper(p), PAGE_SIZE, SlotOffset(p, i), SlotOffset(p, i) + SlotLength(p, i));
  }

  lemma SameInside(p: seq<bv8>, q: seq<bv8>, a: nat, b: nat, i: nat, j: nat)
    requires |p| == |q| && a <= i <= j <= b <= |p|
    requires p[a..b] == q[a..b]
    ensures p[i..j] == q[i..j]
  {
    forall k | i <= k < j
      ensures p[k] == q[k]
    {
      assert p[a..b][k - a] == q[a..b][k - a];
    }
  }

  lemma ExtendedPage(p: seq<bv8>, q: seq<bv8>, data: seq<bv8>)
    requires WellFormed(p) && Extended(p, q, data)
    ensures WellFormed(q) && Tuples(q) == Tuples(p) + [data]
  {
    hide Decode, Field, Used;
    forall i: nat | i < Count(p)
      ensures SlotOffset(q, i) == SlotOffset(p, i) && SlotLength(q, i) == SlotLength(p, i)
      ensures Upper(p) <= SlotOffset(p, i) && SlotOffset(p, i) + SlotLength(p, i) <= PAGE_SIZE
      ensures q[SlotOffset(p, i)..SlotOffset(p, i) + SlotLength(p, i)] == Tuple(p, i)
    {
      ExtendedSlots(p, q, data, i);
    }
    ExtendedLayout(p, q, data);
    assert Tuples(q) == Tuples(p) + [data];
    UsedAppend(Tuples(p), data);
  }

  lemma ExtendedLayout(p: seq<bv8>, q: seq<bv8>, data: seq<bv8>)
    requires WellFormed(p) && Extended(p, q, data)
    ensures Layout(q)
    ensures SlotOffset(q, Count(p)) == Upper(p) - |data| && SlotLength(q, Count(p)) == |data|
  {
    hide Decode, Used, Tuples;
    forall i: nat | i < Count(p)
      ensures SlotOffset(q, i) == SlotOffset(p, i) && SlotLength(q, i) == SlotLength(p, i)
      ensures Upper(p) <= SlotOffset(p, i)
    {
      ExtendedSlots(p, q, data, i);
    }
  }

  lemma UsedAppend(tuples: seq<seq<bv8>>, data: seq<bv8>)
    ensures Used(tuples + [data]) == Used(tuples) + SLOT_SIZE + |data|
  {
    assert (tuples + [data])[..|tuples|] == tuples;
  }

  /** Succeeds exactly when header, slots and tuples still fit in the page; the tuple becomes the last one. */
  method InsertTuple(page: array<bv8>, data: seq<bv8>) returns (ok: bool)
    requires page.Length == PAGE_SIZE && WellFormed(page[..]) && |data| < 0x1_0000
    modifies page
    ensures ok <==> HEADER_SIZE + Used(old(Tuples(page[..])) + [data]) <= PAGE_SIZE
    ensures ok ==> WellFormed(page[..]) && Tuples(page[..]) == old(Tuples(page[..])) + [data]
    ensures ok ==> page[0..18] == old(page[0..18])
    ensures ok ==> OneMore(old(page[..]), page[..], data)
    ensures !ok ==> page[..] == old(page[..])
  {
    ghost var p := page[..];
    UsedAppend(Tuples(p), data);
    var upper, lower, count := Upper(page[..]), Lower(page[..]), Count(page[..]);
    if upper - lower < SLOT_SIZE + |data| {
      return false;
    }
    StoreTuple(page, data, lower, upper, count);
    WritesExtend(p, data);
    ExtendedPage(p, page[..], data);
    ExtendedBytes(p, page[..], data);
    assert page[0..18] == page[..][0..18];
    return true;
  }

  method StoreTuple(page: array<bv8>, data: seq<bv8>, lower: nat, upper: nat, count: nat)
    requires page.Length == PAGE_SIZE && lower + SLOT_SIZE + |data| <= upper <= PAGE_SIZE
    modifies page
    ensures AllInside(InsertWrites(lower, upper, count, data))
    ensures page[..] == Apply(old(page[..]), InsertWrites(lower, upper, count, data))
  {
    hide Apply, AllInside, Encode;
    ghost var p := page[..];
    NoWrites(p);
    var offset := upper - |data|;
    ghost var done := Store(page, 20, Encode(offset, 2), p, []);
    done := Store(page, offset, data, p, done);
    done := Store(page, lower, Encode(offset, 2), p, done);
    done := Store(page, lower + 2, Encode(|data|, 2), p, done);
    done := Store(page, 18, Encode(lower + SLOT_SIZE, 2), p, done);
    done := Store(page, 22, Encode(count + 1, 2), p, done);
    SixWrites(done, lower, upper, count, data);
  }

  lemma NoWrites(p: seq<bv8>)
    requires |p| == PAGE_SIZE
    ensures AllInside([]) && Apply(p, []) == p
  {}

  lemma SixWrites(done: seq<Write>, lower: nat, upper: nat, count: nat, data: seq<bv8>)
    requires |data| <= upper
    requires done == [] + [Write(20, Encode(upper - |data|, 2))] + [Write(upper - |data|, data)] + [Write(lower, Encode(upper - |data|, 2))]
      + [Write(lower + 2, Encode(|data|, 2))] + [Write(18, Encode(lower + SLOT_SIZE, 2))] + [Write(22, Encode(count + 1, 2))]
    ensures done == InsertWrites(lower, upper, count, data)
  {
    hide Encode;
  }

  method GetTuple(page: array<bv8>, slot: u16) returns (at: int, length: nat)
    requires page.Length == PAGE_SIZE && WellFormed(page[..])
    ensures at < 0 <==> slot >= |Tuples(page[..])|
    ensures at >= 0 ==> at + length <= PAGE_SIZE && page[at..at + length] == Tuples(page[..])[slot]
    ensures var p := page[..];
      && (at >= 0 <==> slot < Decode(p[22..24]))
      && (at >= 0 ==> 28 + 4 * slot <= 4096 && at == Decode(p[24 + 4 * slot..26 + 4 * slot]) && length == Decode(p[26 + 4 * slot..28 + 4 * slot]))
  {
    hide Decode, Used;
    if slot >= Count(page[..]) {
      return -1, 0;
    }
    return SlotOffset(page[..], slot), SlotLength(page[..], slot);
  }
}
