/**
 * Little-endian signed 32-bit integers, as Python's `struct.unpack("<i", ...)`
 * reads them: four bytes, least significant first, two's complement.
 *
 * DecodeI32LE is the decoder the classifier uses. UnsignedLE and ToSigned32
 * are an independent reference definition of the same reading, and
 * EncodeI32LE (what `struct.pack("<i", v)` would produce) is its inverse.
 */
module LittleEndian {
  import opened Bytes

  const TWO_TO_31: int := 0x8000_0000
  const TWO_TO_32: int := 0x1_0000_0000

  /** `v` is representable by struct format code "i" (a C `int32_t`). */
  predicate IsInt32(v: int)
  {
    -TWO_TO_31 <= v < TWO_TO_31
  }

  /** 256 to the power `n`. */
  function Pow256(n: nat): (p: nat)
    ensures p > 0
  {
    if n == 0 then 1 else 0x100 * Pow256(n - 1)
  }

  /** Unsigned little-endian value of `bs`: byte i has weight 256^i. */
  function UnsignedLE(bs: seq<Byte>): (u: nat)
    ensures u < Pow256(|bs|)
  {
    if bs == [] then 0 else bs[0] + 0x100 * UnsignedLE(bs[1..])
  }

  /** The `n` low-order bytes of `u`, least significant first. */
  function ToBytesLE(u: nat, n: nat): (bs: seq<Byte>)
    ensures |bs| == n
  {
    if n == 0 then [] else [u % 0x100] + ToBytesLE(u / 0x100, n - 1)
  }

  /** Reading back the bytes of a number that fits in them gives the number. */
  lemma {:induction false} UnsignedOfToBytes(u: nat, n: nat)
    requires u < Pow256(n)
    ensures UnsignedLE(ToBytesLE(u, n)) == u
  {
    if n > 0 {
      UnsignedOfToBytes(u / 0x100, n - 1);
      assert ToBytesLE(u, n)[1..] == ToBytesLE(u / 0x100, n - 1);
    }
  }

  /** Writing out the value of a byte string gives back the byte string. */
  lemma {:induction false} ToBytesOfUnsigned(bs: seq<Byte>)
    ensures ToBytesLE(UnsignedLE(bs), |bs|) == bs
  {
    if bs != [] {
      ToBytesOfUnsigned(bs[1..]);
      var u := UnsignedLE(bs);
      assert u % 0x100 == bs[0] && u / 0x100 == UnsignedLE(bs[1..]);
    }
  }

  lemma FourBytesSpanInt32()
    ensures Pow256(4) == TWO_TO_32
  {
    assert Pow256(2) == 0x1_0000;
  }

  /** Two's-complement reading of a 32-bit unsigned number: the one int32 congruent to it. */
  function ToSigned32(u: nat): (v: int)
    requires u < TWO_TO_32
    ensures IsInt32(v) && (u - v) % TWO_TO_32 == 0
  {
    if u < TWO_TO_31 then u else u - TWO_TO_32
  }

  /** Two's-complement bit pattern of an int32, as an unsigned number. */
  function FromSigned32(v: int): (u: nat)
    requires IsInt32(v)
    ensures u < TWO_TO_32 && (u - v) % TWO_TO_32 == 0
  {
    if v < 0 then v + TWO_TO_32 else v
  }

  /** Two int32 values that agree modulo 2^32 are equal. */
  lemma Int32Unique(v: int, w: int)
    requires IsInt32(v) && IsInt32(w) && (v - w) % TWO_TO_32 == 0
    ensures v == w
  {
  }

  /**
   * `struct.unpack("<i", bytes([b0, b1, b2, b3]))[0]`: the unsigned value
   * b0 + 2^8 b1 + 2^16 b2 + 2^24 b3, less 2^32 when the sign bit (bit 7 of b3)
   * is set.
   */
  function DecodeI32LE(b0: Byte, b1: Byte, b2: Byte, b3: Byte): (v: int)
    ensures IsInt32(v)
    ensures v < 0 <==> b3 >= 0x80
  {
    var u := b0 + 0x100 * b1 + 0x1_0000 * b2 + 0x100_0000 * b3;
    if b3 < 0x80 then u else u - TWO_TO_32
  }

  /** DecodeI32LE agrees with the reference reading: unsigned little-endian, then two's complement. */
  lemma DecodeIsTwosComplement(b0: Byte, b1: Byte, b2: Byte, b3: Byte)
    ensures UnsignedLE([b0, b1, b2, b3]) < TWO_TO_32
    ensures DecodeI32LE(b0, b1, b2, b3) == ToSigned32(UnsignedLE([b0, b1, b2, b3]))
  {
    FourBytesSpanInt32();
    assert [b0, b1, b2, b3][1..] == [b1, b2, b3];
    assert [b1, b2, b3][1..] == [b2, b3];
    assert [b2, b3][1..] == [b3];
    assert [b3][1..] == [];
    assert UnsignedLE([b3]) == b3;
    assert UnsignedLE([b2, b3]) == b2 + 0x100 * b3;
    assert UnsignedLE([b1, b2, b3]) == b1 + 0x100 * b2 + 0x1_0000 * b3;
  }

  /** The four little-endian two's-complement bytes of an int32 (`struct.pack("<i", v)`). */
  function EncodeI32LE(v: int): (bs: seq<Byte>)
    requires IsInt32(v)
    ensures |bs| == 4
  {
    ToBytesLE(FromSigned32(v), 4)
  }

  /** Every int32, negative ones included, survives encoding and decoding. */
  lemma DecodeEncode(v: int)
    requires IsInt32(v)
    ensures var bs := EncodeI32LE(v); DecodeI32LE(bs[0], bs[1], bs[2], bs[3]) == v
  {
    var u := FromSigned32(v);
    var bs := EncodeI32LE(v);
    FourBytesSpanInt32();
    UnsignedOfToBytes(u, 4);
    DecodeIsTwosComplement(bs[0], bs[1], bs[2], bs[3]);
    assert [bs[0], bs[1], bs[2], bs[3]] == bs;
    Int32Unique(ToSigned32(u), v);
  }

  /** Every four bytes survive decoding and encoding. */
  lemma EncodeDecode(b0: Byte, b1: Byte, b2: Byte, b3: Byte)
    ensures EncodeI32LE(DecodeI32LE(b0, b1, b2, b3)) == [b0, b1, b2, b3]
  {
    var bs := [b0, b1, b2, b3];
    DecodeIsTwosComplement(b0, b1, b2, b3);
    ToBytesOfUnsigned(bs);
    var u := UnsignedLE(bs);
    assert FromSigned32(ToSigned32(u)) == u;
  }

  /** Different byte strings decode to different versions. */
  lemma DecodeInjective(a0: Byte, a1: Byte, a2: Byte, a3: Byte, b0: Byte, b1: Byte, b2: Byte, b3: Byte)
    requires DecodeI32LE(a0, a1, a2, a3) == DecodeI32LE(b0, b1, b2, b3)
    ensures [a0, a1, a2, a3] == [b0, b1, b2, b3]
  {
    EncodeDecode(a0, a1, a2, a3);
    EncodeDecode(b0, b1, b2, b3);
  }
}
