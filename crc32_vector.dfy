/**
  A known-answer vector for the CRC-32 of module Crc32: the one-byte input
  "a" (0x61) has CRC-32 0xE8B7BE43, the value zlib's crc32 and Python's
  binascii.crc32 give for it. The generic lemmas of Crc32 (linearity,
  streaming, change detection) hold for any reflected polynomial; this
  vector ties the register model to the IEEE 802.3 polynomial, preset and
  final complement.

  The proof follows the register through the eight shifts of the byte.
  Each shift is checked eight bits at a time, to keep every proof
  obligation small.
 */
module Crc32Vector {
  import opened Crc32

  /** The register after `crc ^= 0x61` on the all-ones preset, and after each of the eight shifts. */
  const A0: Register := [false, true, true, true, true, false, false, true, true, true, true, true, true, true, true, true, true, true, true, true, true, true, true, true, true, true, true, true, true, true, true, true]  // 0xffffff9e
  const A1: Register := [true, true, true, true, false, false, true, true, true, true, true, true, true, true, true, true, true, true, true, true, true, true, true, true, true, true, true, true, true, true, true, false]  // 0x7fffffcf
  const A2: Register := [true, true, true, false, false, false, true, true, false, false, true, true, true, true, true, false, true, true, true, false, false, false, true, false, false, true, false, false, true, false, true, true]  // 0xd2477cc7
  const A3: Register := [true, true, false, false, false, false, true, false, true, false, true, true, true, true, false, false, true, true, false, true, true, false, false, true, false, false, true, false, false, false, false, true]  // 0x849b3d43
  const A4: Register := [true, false, false, false, false, false, false, true, true, false, true, true, true, false, false, false, true, false, true, false, true, true, true, true, true, true, true, true, false, true, false, true]  // 0xaff51d81
  const A5: Register := [false, false, false, false, false, true, true, true, true, false, true, true, false, false, false, false, false, true, false, false, false, false, true, false, false, true, false, true, true, true, false, true]  // 0xba420de0
  const A6: Register := [false, false, false, false, true, true, true, true, false, true, true, false, false, false, false, false, true, false, false, false, false, true, false, false, true, false, true, true, true, false, true, false]  // 0x5d2106f0
  const A7: Register := [false, false, false, true, true, true, true, false, true, true, false, false, false, false, false, true, false, false, false, false, true, false, false, true, false, true, true, true, false, true, false, false]  // 0x2e908378
  const A8: Register := [false, false, true, true, true, true, false, true, true, false, false, false, false, false, true, false, false, false, false, true, false, false, true, false, true, true, true, false, true, false, false, false]  // 0x174841bc

  /** The bits of 0xE8B7BE43, least significant first, one byte at a time. */
  const C0: seq<bool> := [true, true, false, false, false, false, true, false]  // 0x43
  const C1: seq<bool> := [false, true, true, true, true, true, false, true]  // 0xbe
  const C2: seq<bool> := [true, true, true, false, true, true, false, true]  // 0xb7
  const C3: seq<bool> := [false, false, false, true, false, true, true, true]  // 0xe8

  lemma ByteBits()
    ensures Bits(0x61, 8) == [true, false, false, false, false, true, true, false]
  {
  }

  lemma FedIn()
    ensures XorIn(Preset(), 0x61) == A0
  {
    ByteBits();
  }

  lemma Shift0Bits0()
    ensures forall i | 0 <= i < 8 :: Step(A0)[i] == A1[i]
  {
  }

  lemma Shift0Bits8()
    ensures forall i | 8 <= i < 16 :: Step(A0)[i] == A1[i]
  {
  }

  lemma Shift0Bits16()
    ensures forall i | 16 <= i < 24 :: Step(A0)[i] == A1[i]
  {
  }

  lemma Shift0Bits24()
    ensures forall i | 24 <= i < 32 :: Step(A0)[i] == A1[i]
  {
  }

  lemma Shift0()
    ensures Step(A0) == A1
  {
    Shift0Bits0(); Shift0Bits8(); Shift0Bits16(); Shift0Bits24();
  }

  lemma Shift1Bits0()
    ensures forall i | 0 <= i < 8 :: Step(A1)[i] == A2[i]
  {
  }

  lemma Shift1Bits8()
    ensures forall i | 8 <= i < 16 :: Step(A1)[i] == A2[i]
  {
  }

  lemma Shift1Bits16()
    ensures forall i | 16 <= i < 24 :: Step(A1)[i] == A2[i]
  {
  }

  lemma Shift1Bits24()
    ensures forall i | 24 <= i < 32 :: Step(A1)[i] == A2[i]
  {
  }

  lemma Shift1()
    ensures Step(A1) == A2
  {
    Shift1Bits0(); Shift1Bits8(); Shift1Bits16(); Shift1Bits24();
  }

  lemma Shift2Bits0()
    ensures forall i | 0 <= i < 8 :: Step(A2)[i] == A3[i]
  {
  }

  lemma Shift2Bits8()
    ensures forall i | 8 <= i < 16 :: Step(A2)[i] == A3[i]
  {
  }

  lemma Shift2Bits16()
    ensures forall i | 16 <= i < 24 :: Step(A2)[i] == A3[i]
  {
  }

  lemma Shift2Bits24()
    ensures forall i | 24 <= i < 32 :: Step(A2)[i] == A3[i]
  {
  }

  lemma Shift2()
    ensures Step(A2) == A3
  {
    Shift2Bits0(); Shift2Bits8(); Shift2Bits16(); Shift2Bits24();
  }

  lemma Shift3Bits0()
    ensures forall i | 0 <= i < 8 :: Step(A3)[i] == A4[i]
  {
  }

  lemma Shift3Bits8()
    ensures forall i | 8 <= i < 16 :: Step(A3)[i] == A4[i]
  {
  }

  lemma Shift3Bits16()
    ensures forall i | 16 <= i < 24 :: Step(A3)[i] == A4[i]
  {
  }

  lemma Shift3Bits24()
    ensures forall i | 24 <= i < 32 :: Step(A3)[i] == A4[i]
  {
  }

  lemma Shift3()
    ensures Step(A3) == A4
  {
    Shift3Bits0(); Shift3Bits8(); Shift3Bits16(); Shift3Bits24();
  }

  lemma Shift4Bits0()
    ensures forall i | 0 <= i < 8 :: Step(A4)[i] == A5[i]
  {
  }

  lemma Shift4Bits8()
    ensures forall i | 8 <= i < 16 :: Step(A4)[i] == A5[i]
  {
  }

  lemma Shift4Bits16()
    ensures forall i | 16 <= i < 24 :: Step(A4)[i] == A5[i]
  {
  }

  lemma Shift4Bits24()
    ensures forall i | 24 <= i < 32 :: Step(A4)[i] == A5[i]
  {
  }

  lemma Shift4()
    ensures Step(A4) == A5
  {
    Shift4Bits0(); Shift4Bits8(); Shift4Bits16(); Shift4Bits24();
  }

  lemma Shift5Bits0()
    ensures forall i | 0 <= i < 8 :: Step(A5)[i] == A6[i]
  {
  }

  lemma Shift5Bits8()
    ensures forall i | 8 <= i < 16 :: Step(A5)[i] == A6[i]
  {
  }

  lemma Shift5Bits16()
    ensures forall i | 16 <= i < 24 :: Step(A5)[i] == A6[i]
  {
  }

  lemma Shift5Bits24()
    ensures forall i | 24 <= i < 32 :: Step(A5)[i] == A6[i]
  {
  }

  lemma Shift5()
    ensures Step(A5) == A6
  {
    Shift5Bits0(); Shift5Bits8(); Shift5Bits16(); Shift5Bits24();
  }

  lemma Shift6Bits0()
    ensures forall i | 0 <= i < 8 :: Step(A6)[i] == A7[i]
  {
  }

  lemma Shift6Bits8()
    ensures forall i | 8 <= i < 16 :: Step(A6)[i] == A7[i]
  {
  }

  lemma Shift6Bits16()
    ensures forall i | 16 <= i < 24 :: Step(A6)[i] == A7[i]
  {
  }

  lemma Shift6Bits24()
    ensures forall i | 24 <= i < 32 :: Step(A6)[i] == A7[i]
  {
  }

  lemma Shift6()
    ensures Step(A6) == A7
  {
    Shift6Bits0(); Shift6Bits8(); Shift6Bits16(); Shift6Bits24();
  }

  lemma Shift7Bits0()
    ensures forall i | 0 <= i < 8 :: Step(A7)[i] == A8[i]
  {
  }

  lemma Shift7Bits8()
    ensures forall i | 8 <= i < 16 :: Step(A7)[i] == A8[i]
  {
  }

  lemma Shift7Bits16()
    ensures forall i | 16 <= i < 24 :: Step(A7)[i] == A8[i]
  {
  }

  lemma Shift7Bits24()
    ensures forall i | 24 <= i < 32 :: Step(A7)[i] == A8[i]
  {
  }

  lemma Shift7()
    ensures Step(A7) == A8
  {
    Shift7Bits0(); Shift7Bits8(); Shift7Bits16(); Shift7Bits24();
  }

  lemma Shifts()
    ensures Steps(A0, 8) == A8
  {
    Shift0(); Shift1(); Shift2(); Shift3(); Shift4(); Shift5(); Shift6(); Shift7();
  }

  lemma Complemented()
    ensures XorReg(A8, Preset()) == C0 + (C1 + (C2 + C3))
  {
  }

  lemma Byte0Value()
    ensures FromBits(C0) == 0x43
  {
  }

  lemma Byte1Value()
    ensures FromBits(C1) == 0xBE
  {
  }

  lemma Byte2Value()
    ensures FromBits(C2) == 0xB7
  {
  }

  lemma Byte3Value()
    ensures FromBits(C3) == 0xE8
  {
  }

  /** Four bytes of bits, least significant byte first, denote their little-endian number. */
  lemma FromBitsBytes(b0: seq<bool>, b1: seq<bool>, b2: seq<bool>, b3: seq<bool>)
    requires |b0| == |b1| == |b2| == 8
    ensures FromBits(b0 + (b1 + (b2 + b3)))
         == FromBits(b0) + 0x100 * FromBits(b1) + 0x1_0000 * FromBits(b2) + 0x100_0000 * FromBits(b3)
  {
    var x0, x1, x2, x3 := FromBits(b0), FromBits(b1), FromBits(b2), FromBits(b3);
    Pow2Values();
    assert FromBits(b2 + b3) == x2 + 0x100 * x3 by { FromBitsAppend(b2, b3); }
    assert FromBits(b1 + (b2 + b3)) == x1 + 0x100 * (x2 + 0x100 * x3) by { FromBitsAppend(b1, b2 + b3); }
    assert FromBits(b0 + (b1 + (b2 + b3))) == x0 + 0x100 * (x1 + 0x100 * (x2 + 0x100 * x3)) by {
      FromBitsAppend(b0, b1 + (b2 + b3));
    }
  }

  /** binascii.crc32(b"a") == 0xE8B7BE43. */
  lemma KnownAnswer()
    ensures ChecksumValue([0x61]) == 0xE8B7BE43
  {
    FedIn();
    Shifts();
    assert UpdateByte(Preset(), 0x61) == A8;
    assert Update(Preset(), [0x61]) == A8;
    Complemented();
    Byte0Value(); Byte1Value(); Byte2Value(); Byte3Value();
    FromBitsBytes(C0, C1, C2, C3);
  }
}
