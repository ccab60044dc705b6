/**
 * Fixed-width unsigned and signed integers and their little-endian byte
 * layout, as written and read by the `byteorder` calls of the codec.
 */
module Bytes {

  type Byte = x: int | 0 <= x < 0x100
  type U16 = x: int | 0 <= x < 0x1_0000
  type U32 = x: int | 0 <= x < 0x1_0000_0000
  type U64 = x: int | 0 <= x < 0x1_0000_0000_0000_0000
  type I64 = x: int | -0x8000_0000_0000_0000 <= x < 0x8000_0000_0000_0000

  /** 256 to the power n: the number of distinct values n bytes can hold. */
  function Pow256(n: nat): (r: nat)
    ensures r > 0
  {
    if n == 0 then 1 else 256 * Pow256(n - 1)
  }

  lemma Pow256Widths()
    ensures Pow256(2) == 0x1_0000
    ensures Pow256(4) == 0x1_0000_0000
    ensures Pow256(8) == 0x1_0000_0000_0000_0000
  {
    assert Pow256(1) == 0x100;
    assert Pow256(2) == 0x1_0000;
    assert Pow256(3) == 0x100_0000;
    assert Pow256(4) == 0x1_0000_0000;
    assert Pow256(5) == 0x100_0000_0000;
    assert Pow256(6) == 0x1_0000_0000_0000;
    assert Pow256(7) == 0x100_0000_0000_0000;
  }

  /** The n-byte little-endian representation of v (least significant byte first). */
  function LittleEndian(v: nat, n: nat): (bs: seq<Byte>)
    requires v < Pow256(n)
    ensures |bs| == n
  {
    if n == 0 then [] else [v % 256] + LittleEndian(v / 256, n - 1)
  }

  /** The number whose little-endian representation is bs. */
  function FromLittleEndian(bs: seq<Byte>): (v: nat)
    ensures v < Pow256(|bs|)
  {
    if bs == [] then 0 else bs[0] + 256 * FromLittleEndian(bs[1..])
  }

  /** Reading back what was written gives the original number. */
  lemma {:induction false} LittleEndianRoundTrip(v: nat, n: nat)
    requires v < Pow256(n)
    ensures FromLittleEndian(LittleEndian(v, n)) == v
  {
    if n > 0 {
      LittleEndianRoundTrip(v / 256, n - 1);
      assert LittleEndian(v, n)[1..] == LittleEndian(v / 256, n - 1);
    }
  }

  /** Every byte string is the representation of the number it denotes: the layout has no redundancy. */
  lemma {:induction false} FromLittleEndianRoundTrip(bs: seq<Byte>)
    ensures LittleEndian(FromLittleEndian(bs), |bs|) == bs
  {
    if bs != [] {
      FromLittleEndianRoundTrip(bs[1..]);
      var v := FromLittleEndian(bs);
      assert v % 256 == bs[0] && v / 256 == FromLittleEndian(bs[1..]);
    }
  }

  function U16Bytes(v: U16): (bs: seq<Byte>)
    ensures |bs| == 2 && FromLittleEndian(bs) == v
  {
    Pow256Widths();
    LittleEndianRoundTrip(v, 2);
    LittleEndian(v, 2)
  }

  function U32Bytes(v: U32): (bs: seq<Byte>)
    ensures |bs| == 4 && FromLittleEndian(bs) == v
  {
    Pow256Widths();
    LittleEndianRoundTrip(v, 4);
    LittleEndian(v, 4)
  }

  function U64Bytes(v: U64): (bs: seq<Byte>)
    ensures |bs| == 8 && FromLittleEndian(bs) == v
  {
    Pow256Widths();
    LittleEndianRoundTrip(v, 8);
    LittleEndian(v, 8)
  }

  /** Two's-complement bit pattern of a signed 64-bit integer and back. */
  function I64Bits(i: I64): (u: U64)
    ensures I64FromBits(u) == i
    ensures (u < 0x8000_0000_0000_0000) == (i >= 0)
  {
    if i < 0 then i + 0x1_0000_0000_0000_0000 else i
  }

  function I64FromBits(u: U64): I64
  {
    if u < 0x8000_0000_0000_0000 then u else u - 0x1_0000_0000_0000_0000
  }

  /** Every 64-bit pattern is the two's-complement pattern of the integer it denotes. */
  lemma I64BitsRoundTrip(u: U64)
    ensures I64Bits(I64FromBits(u)) == u
  {
  }

  /** A length below 2^32 survives the cast to u32 unchanged. */
  lemma U32CastOfSmall(n: nat)
    requires n < 0x1_0000_0000
    ensures n % 0x1_0000_0000 == n
  {
  }

  /** Two bytes read as a u16 and written back are the same two bytes. */
  lemma U16BytesOf(bs: seq<Byte>)
    requires |bs| == 2
    ensures FromLittleEndian(bs) < 0x1_0000 && U16Bytes(FromLittleEndian(bs)) == bs
  {
    Pow256Widths();
    FromLittleEndianRoundTrip(bs);
  }

  /** Four bytes read as a u32 and written back are the same four bytes. */
  lemma U32BytesOf(bs: seq<Byte>)
    requires |bs| == 4
    ensures FromLittleEndian(bs) < 0x1_0000_0000 && U32Bytes(FromLittleEndian(bs)) == bs
  {
    Pow256Widths();
    FromLittleEndianRoundTrip(bs);
  }

  /** Eight bytes read as a u64 and written back are the same eight bytes. */
  lemma U64BytesOf(bs: seq<Byte>)
    requires |bs| == 8
    ensures FromLittleEndian(bs) < 0x1_0000_0000_0000_0000 && U64Bytes(FromLittleEndian(bs)) == bs
  {
    Pow256Widths();
    FromLittleEndianRoundTrip(bs);
  }

  /** Appending two pieces one after another is appending them together. */
  lemma Concat3(a: seq<Byte>, b: seq<Byte>, c: seq<Byte>)
    ensures (a + b) + c == a + (b + c)
  {
  }

  /** Appending three pieces one after another is appending them together. */
  lemma Regroup(a: seq<Byte>, b: seq<Byte>, c: seq<Byte>, d: seq<Byte>)
    ensures a + b + c + d == a + (b + c + d)
  {
  }
}
