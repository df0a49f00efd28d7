/** slotted_page_compute_checksum and slotted_page_verify_checksum. */
module PageChecksum {
  import opened Crc32

  const PAGE_SIZE := 4096

  /** The page with its checksum field (bytes 12 to 15) cleared. */
  function Cleared(p: seq<bv8>): (q: seq<bv8>)
    requires |p| == PAGE_SIZE
    ensures |q| == PAGE_SIZE
  {
    p[..12] + [0, 0, 0, 0] + p[16..]
  }

  function Low(crc: bv32, k: nat): bv8
    requires k < 4
  {
    if k == 0 then (crc & 0xFF) as bv8
    else if k == 1 then ((crc >> 8) & 0xFF) as bv8
    else if k == 2 then ((crc >> 16) & 0xFF) as bv8
    else ((crc >> 24) & 0xFF) as bv8
  }

  function Word(a: bv8, b: bv8, c: bv8, d: bv8): bv32 {
    (a as bv32) | ((b as bv32) << 8) | ((c as bv32) << 16) | ((d as bv32) << 24)
  }

  /** Four bytes as a word, the first the least significant. */
  function LittleWord(b: seq<bv8>): bv32
    requires |b| == 4
  {
    b[0] as bv32 + 0x100 * (b[1] as bv32) + 0x1_0000 * (b[2] as bv32) + 0x100_0000 * (b[3] as bv32)
  }

  lemma WordIsLittle(b: seq<bv8>)
    requires |b| == 4
    ensures Word(b[0], b[1], b[2], b[3]) == LittleWord(b)
  {}

  lemma WordOfBytes(crc: bv32)
    ensures Word(Low(crc, 0), Low(crc, 1), Low(crc, 2), Low(crc, 3)) == crc
  {}

  lemma BytesOfWord(a: bv8, b: bv8, c: bv8, d: bv8)
    ensures var w := Word(a, b, c, d);
      Low(w, 0) == a && Low(w, 1) == b && Low(w, 2) == c && Low(w, 3) == d
  {}

  function Stored(p: seq<bv8>): bv32
    requires |p| == PAGE_SIZE
  {
    Word(p[12], p[13], p[14], p[15])
  }

  ghost function Expected(p: seq<bv8>): bv32
    requires |p| == PAGE_SIZE
  {
    Not(StandardCrc32(Cleared(p)))
  }

  ghost predicate Accepted(p: seq<bv8>)
    requires |p| == PAGE_SIZE
  {
    Stored(p) == Expected(p)
  }

  /** Accepted is a page whose bytes 12 to 15 are the complement of the standard CRC-32 of the page with these bytes cleared. */
  lemma AcceptedExactly(p: seq<bv8>)
    requires |p| == PAGE_SIZE
    ensures Accepted(p) <==> LittleWord(p[12..16]) == !StandardCrc32(p[..12] + [0, 0, 0, 0] + p[16..])
  {
    hide StandardCrc32, LittleWord, Word;
    WordIsLittle(p[12..16]);
  }

  method ComputeChecksum(page: array<bv8>, crc: Calculator)
    requires page.Length == PAGE_SIZE && crc.Valid() && page as object != crc.table
    modifies page, crc, crc.table
    ensures crc.Valid() && Accepted(page[..])
    ensures var p := page[..]; LittleWord(p[12..16]) == !StandardCrc32(p[..12] + [0, 0, 0, 0] + p[16..])
    ensures Cleared(page[..]) == Cleared(old(page[..]))
  {
    page[12], page[13], page[14], page[15] := 0, 0, 0, 0;
    assert page[..] == Cleared(old(page[..]));
    var checksum := crc.CalculateCrc32(page);
    assert page[..] == Cleared(old(page[..]));
    hide StandardCrc32, Not, Low, Word, LittleWord;
    page[12], page[13], page[14], page[15] := Low(checksum, 0), Low(checksum, 1), Low(checksum, 2), Low(checksum, 3);
    WordOfBytes(checksum);
    AcceptedExactly(page[..]);
    assert Cleared(page[..]) == Cleared(old(page[..]));
  }

  method VerifyChecksum(page: array<bv8>, crc: Calculator) returns (ok: bool)
    requires page.Length == PAGE_SIZE && crc.Valid() && page as object != crc.table
    modifies crc, crc.table
    ensures crc.Valid()
    ensures ok <==> Accepted(page[..])
    ensures var p := page[..]; ok <==> LittleWord(p[12..16]) == !StandardCrc32(p[..12] + [0, 0, 0, 0] + p[16..])
  {
    hide StandardCrc32, Not, Word, LittleWord;
    AcceptedExactly(page[..]);
    var stored := Word(page[12], page[13], page[14], page[15]);
    var temp := new bv8[PAGE_SIZE](i requires 0 <= i < PAGE_SIZE reads page => page[i]);
    temp[12], temp[13], temp[14], temp[15] := 0, 0, 0, 0;
    assert temp[..] == Cleared(page[..]);
    var calculated := crc.CalculateCrc32(temp);
    return calculated == stored;
  }

  lemma NotIsInjective(a: bv32, b: bv32)
    requires Not(a) == Not(b)
    ensures a == b
  {}

  /** A page that passes the test no longer does after a change to exactly one byte, wherever it is. */
  lemma OneByteIsDetected(p: seq<bv8>, q: seq<bv8>, i: nat)
    requires |p| == |q| == PAGE_SIZE && i < PAGE_SIZE && p[i] != q[i]
    requires forall k :: 0 <= k < PAGE_SIZE && k != i ==> p[k] == q[k]
    requires Accepted(p)
    ensures !Accepted(q)
  {
    hide Register, Not, Low, Word;
    if 12 <= i < 16 {
      assert Cleared(p) == Cleared(q);
      BytesOfWord(p[12], p[13], p[14], p[15]);
      BytesOfWord(q[12], q[13], q[14], q[15]);
    } else {
      OneByteChangesRegister(0xFFFF_FFFF, Cleared(p), Cleared(q), i);
      if Expected(p) == Expected(q) {
        NotIsInjective(StandardCrc32(Cleared(p)), StandardCrc32(Cleared(q)));
        NotIsInjective(Register(0xFFFF_FFFF, Cleared(p)), Register(0xFFFF_FFFF, Cleared(q)));
      }
    }
  }
}
