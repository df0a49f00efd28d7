/** The deletion bitset of src/fts_indexer.c: one page, a bit per document id, behind a 24-byte header. */
module Tombstone {
  import opened Bytes
  import opened Pages

  const PAGE_SIZE := 4096
  const HEADER_SIZE := 24
  const BITSET_BYTES := 4072          // PAGE_SIZE - HEADER_SIZE
  const COVERED := 32576              // 8 * BITSET_BYTES: ids with a bit of their own

  // ---------- The bitset behind the header ----------

  predicate IsDeleted(bits: seq<bv8>, doc: u32)
    requires |bits| == BITSET_BYTES
  {
    var offset := doc % TOMBSTONE_BITS;
    offset / 8 < BITSET_BYTES && BitSet(bits, offset)
  }

  function Marked(bits: seq<bv8>, doc: u32): (r: seq<bv8>)
    requires |bits| == BITSET_BYTES
    ensures |r| == BITSET_BYTES
  {
    var offset := doc % TOMBSTONE_BITS;
    if offset / 8 < BITSET_BYTES then bits[offset / 8 := bits[offset / 8] | Mask(offset % 8)] else bits
  }

  lemma OneBit(x: bv8, i: nat, j: nat)
    requires i < 8 && j < 8
    ensures (x | Mask(i)) & Mask(j) != 0 <==> x & Mask(j) != 0 || i == j
  {}

  /** Marking `doc` deletes exactly the ids that share its bit, and none at all if it has no bit. */
  lemma MarkedDeletes(bits: seq<bv8>, doc: u32, other: u32)
    requires |bits| == BITSET_BYTES
    ensures IsDeleted(Marked(bits, doc), other) <==>
      IsDeleted(bits, other) || (other % TOMBSTONE_BITS == doc % TOMBSTONE_BITS && doc % TOMBSTONE_BITS < COVERED)
  {
    var i, j := doc % TOMBSTONE_BITS, other % TOMBSTONE_BITS;
    hide Mask;
    if i / 8 < BITSET_BYTES && i / 8 == j / 8 {
      OneBit(bits[i / 8], i % 8, j % 8);
    }
  }

  /** Marking acts as insertion into the set of deleted ids below `n`, whatever is deleted already, exactly when `doc`
      has a bit and either is deleted already or shares the bit with no other id below `n`. */
  lemma DeletesExactly(bits: seq<bv8>, doc: u32, n: u32)
    requires |bits| == BITSET_BYTES && doc < n
    ensures (forall other: u32 :: other < n ==> (IsDeleted(Marked(bits, doc), other) <==> IsDeleted(bits, other) || other == doc)) <==>
      (doc % TOMBSTONE_BITS < COVERED && (IsDeleted(bits, doc) || (doc < TOMBSTONE_BITS && doc + TOMBSTONE_BITS >= n)))
  {
    forall other: u32
      ensures IsDeleted(Marked(bits, doc), other) <==>
        IsDeleted(bits, other) || (other % TOMBSTONE_BITS == doc % TOMBSTONE_BITS && doc % TOMBSTONE_BITS < COVERED)
    {
      MarkedDeletes(bits, doc, other);
    }
    forall other: u32 | other % TOMBSTONE_BITS == doc % TOMBSTONE_BITS ensures IsDeleted(bits, other) == IsDeleted(bits, doc) {
      SameBit(bits, doc, other);
    }
    hide IsDeleted, Marked;
    if doc % TOMBSTONE_BITS < COVERED {
      if doc >= TOMBSTONE_BITS {
        var lower: u32 := doc - TOMBSTONE_BITS;
        assert lower % TOMBSTONE_BITS == doc % TOMBSTONE_BITS;
        assert IsDeleted(Marked(bits, doc), lower);
      }
      if doc + TOMBSTONE_BITS < n {
        var upper: u32 := doc + TOMBSTONE_BITS;
        assert upper % TOMBSTONE_BITS == doc % TOMBSTONE_BITS;
        assert IsDeleted(Marked(bits, doc), upper);
      }
      if doc < TOMBSTONE_BITS && doc + TOMBSTONE_BITS >= n {
        forall other: u32 | other < n && other % TOMBSTONE_BITS == doc % TOMBSTONE_BITS
          ensures other == doc
        {
          SameResidue(doc, other);
        }
      }
    } else {
      NoBit(bits, doc);
      assert !IsDeleted(Marked(bits, doc), doc);
    }
  }

  lemma SameBit(bits: seq<bv8>, doc: u32, other: u32)
    requires |bits| == BITSET_BYTES && other % TOMBSTONE_BITS == doc % TOMBSTONE_BITS
    ensures IsDeleted(bits, other) == IsDeleted(bits, doc)
  {}

  lemma NoBit(bits: seq<bv8>, doc: u32)
    requires |bits| == BITSET_BYTES && doc % TOMBSTONE_BITS >= COVERED
    ensures !IsDeleted(bits, doc)
  {}

  lemma SameResidue(doc: u32, other: u32)
    requires doc < TOMBSTONE_BITS && other % TOMBSTONE_BITS == doc % TOMBSTONE_BITS && other < doc + TOMBSTONE_BITS
    ensures other == doc
  {
    assert other == TOMBSTONE_BITS * (other / TOMBSTONE_BITS) + other % TOMBSTONE_BITS;
  }

  /** Marking sets one bit: the one of `doc`. */
  lemma MarkedBits(bits: seq<bv8>, doc: u32, b: nat)
    requires |bits| == BITSET_BYTES && b / 8 < BITSET_BYTES && BitSet(Marked(bits, doc), b)
    ensures BitSet(bits, b) || b == doc % TOMBSTONE_BITS
  {
    var i := doc % TOMBSTONE_BITS;
    hide Mask;
    if i / 8 == b / 8 {
      OneBit(bits[i / 8], i % 8, b % 8);
    }
  }

  // ---------- The operations on a page buffer ----------

  lemma LowBits(doc: u32)
    ensures doc % 32768 % 8 == doc % 8 && doc % 32768 / 8 < 4096
  {
    assert doc == 8 * (4096 * (doc / 32768)) + doc % 32768;
  }

  /** Which bit of which byte says that `doc` is deleted. */
  lemma BitOf(bits: seq<bv8>, doc: u32)
    requires |bits| == 4072
    ensures IsDeleted(bits, doc) <==> doc % 32768 < 32576 && (bits[doc % 32768 / 8] >> (doc % 8)) & 1 == 1
  {
    LowBits(doc);
    hide Mask;
    if doc % 32768 < 32576 {
      ShiftedDown(bits[doc % 32768 / 8], doc % 8);
    }
  }

  lemma ShiftedDown(x: bv8, i: nat)
    requires i < 8
    ensures x & Mask(i) != 0 <==> (x >> i) & 1 == 1
  {}

  method MarkDeleted(page: array<bv8>, doc: u32)
    requires page.Length == PAGE_SIZE
    modifies page
    ensures forall i :: 0 <= i < 4096 ==>
      page[i] == if i == 24 + doc % 32768 / 8 then old(page[i]) | (1 << (doc % 8)) else old(page[i])
    ensures page[HEADER_SIZE..] == Marked(old(page[HEADER_SIZE..]), doc)
    ensures page[..HEADER_SIZE] == old(page[..HEADER_SIZE])
  {
    LowBits(doc);
    var offset := doc % TOMBSTONE_BITS;
    var at := HEADER_SIZE + offset / 8;
    if at < PAGE_SIZE {
      page[at] := page[at] | (1 << (offset % 8));
    }
  }

  method ReadDeleted(page: array<bv8>, doc: u32) returns (deleted: bool)
    requires page.Length == PAGE_SIZE
    ensures deleted == IsDeleted(page[HEADER_SIZE..], doc)
    ensures deleted <==> doc % 32768 < 32576 && (page[24 + doc % 32768 / 8] >> (doc % 8)) & 1 == 1
  {
    LowBits(doc);
    BitOf(page[HEADER_SIZE..], doc);
    var offset := doc % TOMBSTONE_BITS;
    var at := HEADER_SIZE + offset / 8;
    if at < PAGE_SIZE {
      return page[at] & (1 << (offset % 8)) != 0;
    }
    return false;
  }
}
