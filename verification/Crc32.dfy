/** The page checksum of src/slotted_page.c: a table-driven CRC whose table entries,
    start value and result are all complemented, compared with the bit-at-a-time
    CRC-32 of clause 3.2.9 of IEEE 802.3. The word operations have names so that the
    inductions below can hide them from the solver. */
module Crc32 {

  function Xor(a: bv32, b: bv32): bv32 { a ^ b }
  function Not(a: bv32): bv32 { !a }
  function Half(a: bv32): bv32 { a >> 1 }
  function ShiftByte(a: bv32): bv32 { a >> 8 }
  predicate Odd(a: bv32) { a & 1 == 1 }
  function Widen(b: bv8): bv32 { b as bv32 }

  // ---------- Reference definition: one bit at a time ----------

  function BitStep(r: bv32): bv32 {
    if Odd(r) then Xor(0xEDB8_8320, Half(r)) else Half(r)
  }

  function Steps(r: bv32, n: nat): bv32 {
    if n == 0 then r else BitStep(Steps(r, n - 1))
  }

  /** The CRC register after feeding `data`, starting from `r`. */
  function Register(r: bv32, data: seq<bv8>): bv32 {
    if data == [] then r
    else Steps(Xor(Register(r, data[..|data| - 1]), Widen(data[|data| - 1])), 8)
  }

  function StandardCrc32(data: seq<bv8>): bv32 {
    Not(Register(0xFFFF_FFFF, data))
  }

  // ---------- The check value ----------

  lemma CheckStep1()
    ensures Steps(Xor(0xFFFF_FFFF, Widen(49)), 8) == 0x7C23_1048
  {}

  lemma CheckStep2()
    ensures Steps(Xor(0x7C23_1048, Widen(50)), 8) == 0xB0AC_BB32
  {}

  lemma CheckStep3()
    ensures Steps(Xor(0xB0AC_BB32, Widen(51)), 8) == 0x77B7_9C2D
  {}

  lemma CheckStep4()
    ensures Steps(Xor(0x77B7_9C2D, Widen(52)), 8) == 0x641C_1F5C
  {}

  lemma CheckStep5()
    ensures Steps(Xor(0x641C_1F5C, Widen(53)), 8) == 0x340A_C5E3
  {}

  lemma CheckStep6()
    ensures Steps(Xor(0x340A_C5E3, Widen(54)), 8) == 0xF68D_2C9E
  {}

  lemma CheckStep7()
    ensures Steps(Xor(0xF68D_2C9E, Widen(55)), 8) == 0xAFFC_9660
  {}

  lemma CheckStep8()
    ensures Steps(Xor(0xAFFC_9660, Widen(56)), 8) == 0x651F_2550
  {}

  lemma CheckStep9()
    ensures Steps(Xor(0x651F_2550, Widen(57)), 8) == 0x340B_C6D9
  {}

  lemma Fed(data: seq<bv8>, k: nat)
    requires k < |data|
    ensures Register(0xFFFF_FFFF, data[..k + 1]) == Steps(Xor(Register(0xFFFF_FFFF, data[..k]), Widen(data[k])), 8)
    ensures data[..0] == [] && data[..|data|] == data
  {
    assert data[..k + 1][..k] == data[..k];
  }

  /** The digits from 1 to 9 have the published check value of CRC-32. */
  lemma CheckValue()
    ensures StandardCrc32([49, 50, 51, 52, 53, 54, 55, 56, 57]) == 0xCBF4_3926
  {
    hide Steps, Xor, Widen, Register;
    var digits: seq<bv8> := [49, 50, 51, 52, 53, 54, 55, 56, 57];
    NothingFed();
    CheckStep1();
    Fed(digits, 0);
    CheckStep2();
    Fed(digits, 1);
    CheckStep3();
    Fed(digits, 2);
    CheckStep4();
    Fed(digits, 3);
    CheckStep5();
    Fed(digits, 4);
    CheckStep6();
    Fed(digits, 5);
    CheckStep7();
    Fed(digits, 6);
    CheckStep8();
    Fed(digits, 7);
    CheckStep9();
    Fed(digits, 8);
  }

  lemma NothingFed()
    ensures Register(0xFFFF_FFFF, []) == 0xFFFF_FFFF
  {}

  // ---------- The table of the source ----------

  /** The bit step of crc32_for_byte: it tests the inverted bit. */
  function InvertedBitStep(r: bv32): bv32 {
    Xor(if Odd(r) then 0 else 0xEDB8_8320, Half(r))
  }

  function InvertedSteps(r: bv32, n: nat): bv32 {
    if n == 0 then r else InvertedBitStep(InvertedSteps(r, n - 1))
  }

  function TableEntry(b: bv8): bv32 {
    Xor(InvertedSteps(Widen(b), 8), 0xFF00_0000)
  }

  function Index(crc: bv32, b: bv8): bv8 { ((crc & 0xFF) as bv8) ^ b }

  function TableStep(crc: bv32, b: bv8): bv32 {
    Xor(TableEntry(Index(crc, b)), ShiftByte(crc))
  }

  // ---------- One table step is eight bit steps ----------

  function Shifted(y: bv32, n: nat): bv32 {
    if n == 0 then y else Half(Shifted(y, n - 1))
  }

  lemma HalfOfXor(a: bv32, y: bv32)
    ensures Half(Xor(a, y)) == Xor(Half(a), Half(y))
  {}

  lemma LowBitOfXor(a: bv32, y: bv32)
    ensures (a ^ y) & 1 == (a & 1) ^ (y & 1)
  {}

  lemma LowBit(a: bv32)
    ensures a & 1 == 1 || a & 1 == 0
  {}

  lemma OddXor(a: bv32, y: bv32)
    ensures Odd(Xor(a, y)) <==> Odd(a) != Odd(y)
  {
    LowBitOfXor(a, y);
    LowBit(a);
    LowBit(y);
  }

  lemma XorAssociates(p: bv32, a: bv32, y: bv32)
    ensures Xor(p, Xor(a, y)) == Xor(Xor(p, a), y)
  {}

  lemma XorZero(a: bv32)
    ensures Xor(0, a) == a
  {}

  /** A part of the register whose low bit is clear is only shifted. */
  lemma BitStepOver(a: bv32, y: bv32)
    requires !Odd(y)
    ensures BitStep(Xor(a, y)) == Xor(BitStep(a), Half(y))
  {
    hide Xor, Half, Odd;
    HalfOfXor(a, y);
    OddXor(a, y);
    XorAssociates(0xEDB8_8320, Half(a), Half(y));
  }

  lemma {:induction false} StepsOver(a: bv32, y: bv32, n: nat)
    requires forall k: nat :: k < n ==> !Odd(Shifted(y, k))
    ensures Steps(Xor(a, y), n) == Xor(Steps(a, n), Shifted(y, n))
  {
    hide BitStep, Xor, Half, Odd;
    if n > 0 {
      StepsOver(a, y, n - 1);
      BitStepOver(Steps(a, n - 1), Shifted(y, n - 1));
    }
  }

  lemma InvertedBitStepIsBitStep(r: bv32, mask: bv32)
    requires Odd(mask)
    ensures Xor(InvertedBitStep(r), Half(mask)) == BitStep(Xor(r, mask))
  {
    hide Xor, Half, Odd;
    HalfOfXor(r, mask);
    OddXor(r, mask);
    XorZero(Half(r));
    XorAssociates(0xEDB8_8320, Half(r), Half(mask));
  }

  lemma LowByteShifted()
    ensures forall n: nat :: n < 8 ==> Odd(Shifted(0xFF, n))
    ensures Shifted(0xFF, 8) == 0
  {
    assert Shifted(0xFF, 1) == 0x7F;
    assert Shifted(0xFF, 2) == 0x3F;
    assert Shifted(0xFF, 3) == 0x1F;
    assert Shifted(0xFF, 4) == 0x0F;
    assert Shifted(0xFF, 5) == 0x07;
    assert Shifted(0xFF, 6) == 0x03;
    assert Shifted(0xFF, 7) == 0x01;
  }

  lemma {:induction false} InvertedStepsAreSteps(r: bv32, n: nat)
    requires n <= 8
    ensures Xor(InvertedSteps(r, n), Shifted(0xFF, n)) == Steps(Xor(r, 0xFF), n)
  {
    hide BitStep, InvertedBitStep, Xor, Half, Odd;
    if n > 0 {
      InvertedStepsAreSteps(r, n - 1);
      LowByteShifted();
      InvertedBitStepIsBitStep(InvertedSteps(r, n - 1), Shifted(0xFF, n - 1));
    }
  }

  function HighBytes(x: bv32): bv32 { x & 0xFFFF_FF00 }

  /** `y >> k`, for k at most 8. */
  function Down(y: bv32, k: nat): bv32 {
    match k
    case 0 => y
    case 1 => y >> 1
    case 2 => y >> 2
    case 3 => y >> 3
    case 4 => y >> 4
    case 5 => y >> 5
    case 6 => y >> 6
    case 7 => y >> 7
    case _ => y >> 8
  }

  lemma HalfTwice(y: bv32)
    ensures Half(y) == y >> 1 && Half(y >> 1) == y >> 2 && Half(y >> 2) == y >> 3
    ensures Half(y >> 3) == y >> 4 && Half(y >> 4) == y >> 5 && Half(y >> 5) == y >> 6
    ensures Half(y >> 6) == y >> 7 && Half(y >> 7) == y >> 8
  {}

  lemma HalfDown(y: bv32, k: nat)
    requires k < 8
    ensures Half(Down(y, k)) == Down(y, k + 1)
  {
    hide Half;
    HalfTwice(y);
  }

  lemma HighBytesDown(x: bv32, k: nat)
    requires k < 8
    ensures !Odd(Down(HighBytes(x), k))
  {}

  lemma HighBytesGone(x: bv32)
    ensures Down(HighBytes(x), 8) == ShiftByte(x)
  {}

  lemma {:induction false} ShiftedIsDown(y: bv32, k: nat)
    requires k <= 8
    ensures Shifted(y, k) == Down(y, k)
  {
    if k > 0 {
      hide Half, Down;
      ShiftedIsDown(y, k - 1);
      HalfDown(y, k - 1);
    }
  }

  lemma HighBytesShifted(x: bv32)
    ensures Shifted(HighBytes(x), 8) == ShiftByte(x)
    ensures forall k: nat :: k < 8 ==> !Odd(Shifted(HighBytes(x), k))
  {
    hide *;
    HighBytesGone(x);
    ShiftedIsDown(HighBytes(x), 8);
    forall k: nat | k < 8
      ensures !Odd(Shifted(HighBytes(x), k))
    {
      ShiftedIsDown(HighBytes(x), k);
      HighBytesDown(x, k);
    }
  }

  lemma SplitRegister(r: bv32, b: bv8)
    ensures var x := Xor(r, Widen(b));
      x == Xor(Xor(Widen(Index(Not(r), b)), 0xFF), HighBytes(x)) && ShiftByte(x) == ShiftByte(r)
  {}

  lemma Complement(t: bv32, r: bv32)
    ensures Xor(Xor(t, 0xFF00_0000), ShiftByte(Not(r))) == Not(Xor(Xor(t, 0), ShiftByte(r)))
  {}

  /** One table step on the complemented register feeds one byte to the standard register. */
  lemma TableStepIsRegisterStep(r: bv32, b: bv8)
    ensures TableStep(Not(r), b) == Not(Steps(Xor(r, Widen(b)), 8))
  {
    hide Not, Xor, Half, Odd, Index, Widen, HighBytes, ShiftByte, BitStep;
    var x := Xor(r, Widen(b));
    var index := Index(Not(r), b);
    SplitRegister(r, b);
    HighBytesShifted(x);
    LowByteShifted();
    StepsOver(Xor(Widen(index), 0xFF), HighBytes(x), 8);
    InvertedStepsAreSteps(Widen(index), 8);
    Complement(InvertedSteps(Widen(index), 8), r);
  }

  // ---------- Injectivity ----------

  lemma BitStepIsInjective(x: bv32, y: bv32)
    requires BitStep(x) == BitStep(y)
    ensures x == y
  {}

  lemma {:induction false} StepsAreInjective(x: bv32, y: bv32, n: nat)
    requires Steps(x, n) == Steps(y, n)
    ensures x == y
  {
    hide BitStep;
    if n > 0 {
      BitStepIsInjective(Steps(x, n - 1), Steps(y, n - 1));
      StepsAreInjective(x, y, n - 1);
    }
  }

  lemma XorCancels(r: bv32, w: bv32)
    ensures Xor(r, Xor(r, w)) == w && Xor(Xor(r, w), w) == r
  {}

  lemma WidenIsInjective(b: bv8, b': bv8)
    ensures Widen(b) == Widen(b') <==> b == b'
  {}

  lemma XorIsInjective(r: bv32, r': bv32, b: bv8, b': bv8)
    requires Xor(r, Widen(b)) == Xor(r', Widen(b'))
    ensures r == r' <==> b == b'
  {
    hide Widen, Xor;
    WidenIsInjective(b, b');
    XorCancels(r, Widen(b));
    XorCancels(r', Widen(b'));
  }

  /** Two inputs that differ in one byte only leave different registers behind. */
  lemma {:induction false} OneByteChangesRegister(r: bv32, p: seq<bv8>, q: seq<bv8>, i: nat)
    requires |p| == |q| && i < |p| && p[i] != q[i]
    requires forall k :: 0 <= k < |p| && k != i ==> p[k] == q[k]
    ensures Register(r, p) != Register(r, q)
  {
    hide Xor, Widen, BitStep, Steps;
    var n := |p| - 1;
    var rp, rq := Register(r, p[..n]), Register(r, q[..n]);
    if i == n {
      assert p[..n] == q[..n];
    } else {
      OneByteChangesRegister(r, p[..n], q[..n], i);
    }
    assert rp == rq <==> p[n] != q[n];
    if Register(r, p) == Register(r, q) {
      StepsAreInjective(Xor(rp, Widen(p[n])), Xor(rq, Widen(q[n])), 8);
      XorIsInjective(rp, rq, p[n], q[n]);
    }
  }

  // ---------- The algorithm of the source ----------

  method Crc32ForByte(b: bv32) returns (r: bv32)
    ensures r == Xor(InvertedSteps(b, 8), 0xFF00_0000)
  {
    hide Xor, Odd, Half;
    r := b;
    for j := 0 to 8
      invariant r == InvertedSteps(b, j)
    {
      r := Xor(if Odd(r) then 0 else 0xEDB8_8320, Half(r));
    }
    r := Xor(r, 0xFF00_0000);
  }

  lemma ByteAsWord(i: int)
    requires 0 <= i < 256
    ensures i as bv32 == Widen(i as bv8)
    ensures (i as bv8) as int == i
    ensures forall b: bv8 :: b as int == i ==> TableEntry(b) == TableEntry(i as bv8)
  {}

  /** calculate_crc32 with its two static variables. */
  class Calculator {
    const table: array<bv32>
    var initialized: bool

    ghost predicate Valid()
      reads this, table
    {
      table.Length == 256 &&
      (initialized ==> forall b: bv8 :: table[b as int] == TableEntry(b))
    }

    constructor ()
      ensures Valid() && fresh(table)
    {
      table := new bv32[256];
      initialized := false;
    }

    method FillTable()
      requires Valid()
      modifies this, table
      ensures Valid() && initialized
    {
      hide Xor, Widen, InvertedSteps;
      for i := 0 to 256
        invariant forall b: bv8 :: b as int < i ==> table[b as int] == TableEntry(b)
      {
        var entry := Crc32ForByte(i as bv32);
        ByteAsWord(i);
        table[i] := entry;
        assert entry == TableEntry(i as bv8);
      }
      initialized := true;
    }

    /** The result is the bitwise complement of the standard CRC-32. */
    method CalculateCrc32(data: array<bv8>) returns (crc: bv32)
      requires Valid() && data as object != table
      modifies this, table
      ensures Valid()
      ensures crc == Not(StandardCrc32(data[..]))
    {
      hide Xor, Widen, Steps, BitStep, InvertedSteps, ShiftByte, Index, TableEntry;
      crc := 0;
      if !initialized {
        FillTable();
      }
      ghost var r: bv32 := 0xFFFF_FFFF;
      for i := 0 to data.Length
        invariant Valid() && initialized
        invariant r == Register(0xFFFF_FFFF, data[..i]) && crc == Not(r)
      {
        assert data[..i + 1][..i] == data[..i];
        TableStepIsRegisterStep(r, data[i]);
        crc := NextCrc(crc, data[i]);
        r := Register(0xFFFF_FFFF, data[..i + 1]);
      }
      assert data[..data.Length] == data[..];
      crc := !crc;
    }

    method NextCrc(crc: bv32, b: bv8) returns (next: bv32)
      requires Valid() && initialized
      ensures next == TableStep(crc, b)
    {
      next := table[(((crc & 0xFF) as bv8) ^ b) as int] ^ (crc >> 8);
    }
  }
}
