/** Machine integers and their little-endian byte strings. */
module Bytes {
  type u16 = x: int | 0 <= x < 0x1_0000
  type u32 = x: int | 0 <= x < 0x1_0000_0000
  type u64 = x: int | 0 <= x < 0x1_0000_0000_0000_0000

  function ToByte(v: int): bv8
    requires 0 <= v < 256
  {
    v as bv8
  }

  function FromByte(b: bv8): (v: int)
    ensures 0 <= v < 256
  {
    b as int
  }

  lemma CastRoundTrip(v: int)
    requires 0 <= v < 256
    ensures (v as bv8) as int == v
  {
    assert v as bv16 == (v as bv8) as bv16;
  }

  lemma FromCast(v: int)
    requires 0 <= v < 256
    ensures FromByte(v as bv8) == v
  {
    CastRoundTrip(v);
  }

  lemma ByteRoundTrip(v: int)
    requires 0 <= v < 256
    ensures FromByte(ToByte(v)) == v
  {
    hide FromByte;
    FromCast(v);
  }

  lemma ByteBack(b: bv8)
    ensures ToByte(FromByte(b)) == b
  {}

  function Power256(n: nat): (p: int)
    ensures p > 0
  {
    if n == 0 then 1 else 256 * Power256(n - 1)
  }

  /** `v` as `n` bytes, least significant first. */
  function Encode(v: int, n: nat): (s: seq<bv8>)
    requires 0 <= v
    ensures |s| == n
  {
    if n == 0 then [] else [ToByte(v % 256)] + Encode(v / 256, n - 1)
  }

  function Decode(s: seq<bv8>): (v: int)
    ensures 0 <= v
  {
    if s == [] then 0 else FromByte(s[0]) + 256 * Decode(s[1..])
  }

  lemma EncodeStep(v: nat, n: nat)
    requires n > 0
    ensures Encode(v, n) == [ToByte(v % 256)] + Encode(v / 256, n - 1)
  {}

  lemma DecodeStep(s: seq<bv8>)
    requires s != []
    ensures Decode(s) % 256 == FromByte(s[0]) && Decode(s) / 256 == Decode(s[1..])
  {
    hide FromByte;
    assert Decode(s) == FromByte(s[0]) + 256 * Decode(s[1..]);
  }

  lemma {:induction false} DecodeEncode(v: int, n: nat)
    requires 0 <= v < Power256(n)
    ensures Decode(Encode(v, n)) == v
  {
    if n > 0 {
      hide ToByte, FromByte;
      ByteRoundTrip(v % 256);
      assert v / 256 < Power256(n - 1) by { assert v < 256 * Power256(n - 1); }
      DecodeEncode(v / 256, n - 1);
      var s := Encode(v, n);
      assert s[1..] == Encode(v / 256, n - 1);
    }
  }

  lemma Powers()
    ensures Power256(1) == 0x100 && Power256(2) == 0x1_0000 && Power256(4) == 0x1_0000_0000
    ensures Power256(8) == 0x1_0000_0000_0000_0000
  {
    assert Power256(3) == 0x100_0000;
    assert Power256(5) == 0x100_0000_0000;
    assert Power256(6) == 0x1_0000_0000_0000;
    assert Power256(7) == 0x100_0000_0000_0000;
  }

  lemma {:induction false} DecodeBound(s: seq<bv8>)
    ensures Decode(s) < Power256(|s|)
  {
    if s != [] {
      hide FromByte;
      DecodeBound(s[1..]);
    }
  }

  /** The first byte is the least significant one. */
  lemma LittleEndian(s: seq<bv8>)
    ensures |s| == 1 ==> Decode(s) == s[0] as int
    ensures |s| == 2 ==> Decode(s) == s[0] as int + 0x100 * (s[1] as int)
    ensures |s| == 4 ==> Decode(s) == s[0] as int + 0x100 * (s[1] as int) + 0x1_0000 * (s[2] as int) + 0x100_0000 * (s[3] as int)
    ensures |s| == 8 ==> Decode(s) == Decode(s[..4]) + 0x1_0000_0000 * Decode(s[4..])
  {
    hide FromByte;
    FirstByte(s);
    if |s| == 2 || |s| == 4 {
      FirstByte(s[1..]);
    }
    if |s| == 4 {
      FirstByte(s[2..]);
      FirstByte(s[3..]);
      assert s[1..][1..] == s[2..] && s[2..][1..] == s[3..];
    }
    if |s| == 8 {
      DecodeConcat(s[..4], s[4..]);
      Powers();
      assert s == s[..4] + s[4..];
    }
  }

  lemma FirstByte(s: seq<bv8>)
    ensures s != [] ==> Decode(s) == s[0] as int + 256 * Decode(s[1..])
    ensures s == [] ==> Decode(s) == 0
    ensures |s| == 1 ==> Decode(s[1..]) == 0
  {
    if s != [] {
      assert FromByte(s[0]) == s[0] as int;
      hide FromByte;
      if |s| == 1 {
        assert s[1..] == [];
      }
    }
  }

  lemma {:induction false} DecodeConcat(a: seq<bv8>, b: seq<bv8>)
    ensures Decode(a + b) == Decode(a) + Power256(|a|) * Decode(b)
  {
    hide FromByte, Decode;
    FirstByte(a);
    FirstByte(a + b);
    if a == [] {
      assert a + b == b;
    } else {
      assert (a + b)[1..] == a[1..] + b;
      DecodeConcat(a[1..], b);
      Shifted(Power256(|a| - 1), Decode(b));
    }
  }

  lemma Shifted(p: int, d: int)
    ensures 256 * (p * d) == (256 * p) * d
  {}
}
