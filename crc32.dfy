/**
  The CRC-32 used by zlib and binascii.crc32: the frame check sequence of
  IEEE 802.3 (clause 3.2.9). The 32-bit shift register is reflected (bit 0,
  the least significant bit, leaves first), the generator polynomial is
  0xEDB88320 in that bit order, the register starts as all ones and the
  result is complemented.

  The register is a sequence of 32 bits, index i holding the coefficient of
  2^i, so that its linear algebra over GF(2) is plain boolean reasoning.
 */
module Crc32 {

  /** A byte as Python's `bytes` holds it: an integer in 0..255. */
  type byte = x: int | 0 <= x < 256

  type Register = r: seq<bool> | |r| == 32 witness seq(32, _ => false)

  function Pow2(k: nat): (p: nat)
    ensures p >= 1
  {
    if k == 0 then 1 else 2 * Pow2(k - 1)
  }

  /** The low `k` bits of `n`, least significant first. */
  function Bits(n: nat, k: nat): (s: seq<bool>)
    ensures |s| == k
    decreases k
  {
    if k == 0 then [] else [n % 2 == 1] + Bits(n / 2, k - 1)
  }

  /** The number whose bits, least significant first, are `s`. */
  function FromBits(s: seq<bool>): (n: nat)
    decreases |s|
  {
    if |s| == 0 then 0 else (if s[0] then 1 else 0) + 2 * FromBits(s[1..])
  }

  lemma {:induction false} BitsOfFromBits(s: seq<bool>)
    ensures Bits(FromBits(s), |s|) == s
    decreases |s|
  {
    if |s| > 0 {
      var n, m := FromBits(s), FromBits(s[1..]);
      assert n == (if s[0] then 1 else 0) + 2 * m;
      LowBit(s[0], m);
      assert Bits(n, |s|) == [n % 2 == 1] + Bits(m, |s| - 1);
      BitsOfFromBits(s[1..]);
      assert [s[0]] + s[1..] == s;
    }
  }

  /** A number made of a low bit and a rest splits back into them. */
  lemma LowBit(b: bool, m: nat)
    ensures ((if b then 1 else 0) + 2 * m) % 2 == (if b then 1 else 0)
    ensures ((if b then 1 else 0) + 2 * m) / 2 == m
  {
  }

  lemma {:induction false} FromBitsOfBits(n: nat, k: nat)
    requires n < Pow2(k)
    ensures FromBits(Bits(n, k)) == n
    decreases k
  {
    if k > 0 {
      FromBitsOfBits(n / 2, k - 1);
      assert Bits(n, k)[1..] == Bits(n / 2, k - 1);
    }
  }

  lemma {:induction false} FromBitsBound(s: seq<bool>)
    ensures FromBits(s) < Pow2(|s|)
    decreases |s|
  {
    if |s| > 0 {
      FromBitsBound(s[1..]);
    }
  }

  /** The bits of `a + b` denote `a`'s number plus `b`'s shifted past `a`. */
  lemma {:induction false} FromBitsAppend(a: seq<bool>, b: seq<bool>)
    ensures FromBits(a + b) == FromBits(a) + Pow2(|a|) * FromBits(b)
    decreases |a|
  {
    if |a| == 0 {
      assert a + b == b;
    } else {
      assert (a + b)[0] == a[0];
      assert (a + b)[1..] == a[1..] + b;
      FromBitsAppend(a[1..], b);
      Doubled(FromBits(a[1..]), Pow2(|a| - 1), FromBits(b));
    }
  }

  lemma Doubled(x: nat, p: nat, y: nat)
    ensures 2 * (x + p * y) == 2 * x + (2 * p) * y
  {
  }

  lemma {:induction false} Pow2Add(a: nat, b: nat)
    ensures Pow2(a + b) == Pow2(a) * Pow2(b)
    decreases a
  {
    if a > 0 {
      Pow2Add(a - 1, b);
    }
  }

  lemma Pow2Values()
    ensures Pow2(8) == 0x100 && Pow2(16) == 0x1_0000 && Pow2(32) == 0x1_0000_0000
  {
    assert Pow2(2) == 4;
    assert Pow2(4) == 16 by { Pow2Add(2, 2); }
    assert Pow2(8) == 0x100 by { Pow2Add(4, 4); }
    assert Pow2(16) == 0x1_0000 by { Pow2Add(8, 8); }
    assert Pow2(32) == 0x1_0000_0000 by { Pow2Add(16, 16); }
  }

  /** Different numbers below 2^k differ in one of their low `k` bits. */
  lemma BitsDifferAt(x: nat, y: nat, k: nat) returns (i: nat)
    requires x < Pow2(k) && y < Pow2(k) && x != y
    ensures i < k && Bits(x, k)[i] != Bits(y, k)[i]
  {
    FromBitsOfBits(x, k);
    FromBitsOfBits(y, k);
    var xBits, yBits := Bits(x, k), Bits(y, k);
    assert xBits != yBits;
    i :| 0 <= i < k && xBits[i] != yBits[i];
  }

  /** Different bytes have different bits. */
  lemma BitsDiffer(x: byte, y: byte) returns (i: nat)
    requires x != y
    ensures i < 8 && Bits(x, 8)[i] != Bits(y, 8)[i]
  {
    Pow2Values();
    i := BitsDifferAt(x, y, 8);
  }

  /** 0xEDB88320, least significant bit first. */
  const POLY: Register := [
    false, false, false, false, false, true,  false, false,   // 0x20
    true,  true,  false, false, false, false, false, true,    // 0x83
    false, false, false, true,  true,  true,  false, true,    // 0xB8
    true,  false, true,  true,  false, true,  true,  true     // 0xED
  ]

  /** The register before the first byte: all ones. */
  function Preset(): Register {
    seq(32, _ => true)
  }

  function XorReg(a: Register, b: Register): Register {
    seq(32, i requires 0 <= i < 32 => a[i] != b[i])
  }

  predicate IsZero(r: Register) {
    forall i :: 0 <= i < 32 ==> !r[i]
  }

  /** One shift of the register: the bit leaving at 0 decides whether the polynomial is added. */
  function Step(r: Register): Register {
    seq(32, i requires 0 <= i < 32 => (i < 31 && r[i + 1]) != (r[0] && POLY[i]))
  }

  /** `n` shifts of the register. */
  function Steps(r: Register, n: nat): Register
    decreases n
  {
    if n == 0 then r else Steps(Step(r), n - 1)
  }

  /** `crc ^= byte`: the byte enters the low eight bits of the register. */
  function XorIn(r: Register, b: byte): Register {
    var bits := Bits(b, 8);
    seq(32, i requires 0 <= i < 32 => r[i] != (i < 8 && bits[i]))
  }

  /** Feeds one byte into the register. */
  function UpdateByte(r: Register, b: byte): Register {
    Steps(XorIn(r, b), 8)
  }

  /** Feeds `data` into the register, first byte first. */
  function Update(r: Register, data: seq<byte>): Register
    decreases |data|
  {
    if |data| == 0 then r else Update(UpdateByte(r, data[0]), data[1..])
  }

  /** The bits of binascii.crc32(data) & 0xFFFFFFFF: the final register, complemented. */
  function Checksum(data: seq<byte>): Register {
    XorReg(Update(Preset(), data), Preset())
  }

  /** binascii.crc32(data) & 0xFFFFFFFF as an integer. */
  function ChecksumValue(data: seq<byte>): (n: nat)
    ensures n < 0x1_0000_0000
  {
    FromBitsBound(Checksum(data));
    Pow2Values();
    FromBits(Checksum(data))
  }

  /** `n` zero bytes. */
  function Zeros(n: nat): seq<byte> {
    seq(n, _ => 0)
  }

  lemma XorRegZero(a: Register, b: Register)
    ensures IsZero(XorReg(a, b)) <==> a == b
  {
    if IsZero(XorReg(a, b)) {
      forall i | 0 <= i < 32 ensures a[i] == b[i] {
        assert !XorReg(a, b)[i];
      }
    }
  }

  lemma StepLinear(a: Register, b: Register)
    ensures Step(XorReg(a, b)) == XorReg(Step(a), Step(b))
  {
  }

  /** A shift never clears a non-zero register, because the polynomial's top bit is set. */
  lemma StepNonZero(r: Register)
    requires !IsZero(r)
    ensures !IsZero(Step(r))
  {
    if r[0] {
      assert Step(r)[31];
    } else {
      var i :| 0 <= i < 32 && r[i];
      assert Step(r)[i - 1];
    }
  }

  lemma {:induction false} StepsLinear(a: Register, b: Register, n: nat)
    ensures Steps(XorReg(a, b), n) == XorReg(Steps(a, n), Steps(b, n))
    decreases n
  {
    if n > 0 {
      StepLinear(a, b);
      StepsLinear(Step(a), Step(b), n - 1);
    }
  }

  lemma {:induction false} StepsNonZero(r: Register, n: nat)
    requires !IsZero(r)
    ensures !IsZero(Steps(r, n))
    decreases n
  {
    if n > 0 {
      StepNonZero(r);
      StepsNonZero(Step(r), n - 1);
    }
  }

  lemma UpdateByteSame(a: Register, b: Register, x: byte)
    ensures XorReg(UpdateByte(a, x), UpdateByte(b, x)) == Steps(XorReg(a, b), 8)
  {
    assert XorReg(XorIn(a, x), XorIn(b, x)) == XorReg(a, b);
    StepsLinear(XorIn(a, x), XorIn(b, x), 8);
  }

  /** Feeding the same bytes into two different registers keeps them different. */
  lemma {:induction false} UpdateSameDataInjective(a: Register, b: Register, d: seq<byte>)
    requires a != b
    ensures Update(a, d) != Update(b, d)
    decreases |d|
  {
    if |d| > 0 {
      var a', b' := UpdateByte(a, d[0]), UpdateByte(b, d[0]);
      XorRegZero(a, b);
      UpdateByteSame(a, b, d[0]);
      StepsNonZero(XorReg(a, b), 8);
      XorRegZero(a', b');
      UpdateSameDataInjective(a', b', d[1..]);
    }
  }

  lemma {:induction false} UpdateConcat(r: Register, a: seq<byte>, b: seq<byte>)
    ensures Update(r, a + b) == Update(Update(r, a), b)
    decreases |a|
  {
    if |a| > 0 {
      assert (a + b)[0] == a[0];
      assert (a + b)[1..] == a[1..] + b;
      UpdateConcat(UpdateByte(r, a[0]), a[1..], b);
    } else {
      assert a + b == b;
    }
  }

  /** Two different bytes fed into the same register leave different registers. */
  lemma UpdateByteDistinct(r: Register, x: byte, y: byte)
    requires x != y
    ensures !IsZero(XorReg(UpdateByte(r, x), UpdateByte(r, y)))
  {
    var i := BitsDiffer(x, y);
    var diff := XorReg(XorIn(r, x), XorIn(r, y));
    assert diff[i];
    StepsNonZero(diff, 8);
    StepsLinear(XorIn(r, x), XorIn(r, y), 8);
  }

  /** Feeding data is feeding what comes before byte `k`, then byte `k`, then the rest. */
  lemma UpdateAround(r: Register, data: seq<byte>, k: nat)
    requires k < |data|
    ensures Update(r, data) == Update(UpdateByte(Update(r, data[..k]), data[k]), data[k + 1..])
  {
    var prefix, suffix := data[..k], data[k + 1..];
    assert data == (prefix + [data[k]]) + suffix;
    UpdateConcat(r, prefix + [data[k]], suffix);
    UpdateConcat(r, prefix, [data[k]]);
    assert [data[k]][1..] == [];
  }

  /** Complementing two different registers leaves them different. */
  lemma XorInjective(a: Register, b: Register, c: Register)
    requires a != b
    ensures XorReg(a, c) != XorReg(b, c)
  {
    var i :| 0 <= i < 32 && a[i] != b[i];
    assert XorReg(a, c)[i] != XorReg(b, c)[i];
  }

  /**
    Any change confined to a single byte changes the checksum; in particular
    every single-bit error is detected.
   */
  lemma SingleByteChangeDetected(data: seq<byte>, k: nat, v: byte)
    requires k < |data| && v != data[k]
    ensures Checksum(data[k := v]) != Checksum(data)
    ensures ChecksumValue(data[k := v]) != ChecksumValue(data)
  {
    var changed := data[k := v];
    assert changed[..k] == data[..k] && changed[k + 1..] == data[k + 1..] && changed[k] == v;
    var p := Update(Preset(), data[..k]);
    UpdateAround(Preset(), data, k);
    UpdateAround(Preset(), changed, k);
    var ra, rb := UpdateByte(p, data[k]), UpdateByte(p, v);
    UpdateByteDistinct(p, data[k], v);
    XorRegZero(ra, rb);
    UpdateSameDataInjective(ra, rb, data[k + 1..]);
    XorInjective(Update(Preset(), data), Update(Preset(), changed), Preset());
    BitsOfFromBits(Checksum(data));
    BitsOfFromBits(Checksum(changed));
  }
}
