/** The CRC-32 shift register of forcecrc32.c:157-182 as a function of the bytes fed to it, and the
    linearity that makes patching possible. */
module CrcRegister {
  import opened Gf2Poly
  import opened CrcField
  import opened Arith

  type Byte = b: nat | b < 0x100

  /** ~x on 32-bit words. */
  function Not32(x: Word32): Word32 {
    0xFFFF_FFFF - x
  }

  /** What one message bit does to the register: multiply by x, modulo the generator, after the
      bit has been added at the top. */
  function BitStep(crc: Word32, bit: nat): Word32
    requires bit < 2
  {
    AddTopBitBound(crc, bit);
    ReduceBound(2 * Xor(crc, bit * 0x8000_0000));
    Reduce(2 * Xor(crc, bit * 0x8000_0000))
  }

  lemma AddTopBitBound(crc: Word32, bit: nat)
    requires bit < 2
    ensures Xor(crc, bit * 0x8000_0000) < 0x1_0000_0000
  {
    Pow2Values();
    XorBound(crc, bit * 0x8000_0000, 32);
  }

  /** The low n bits of a byte, least significant first. */
  function FeedBits(crc: Word32, b: nat, n: nat): Word32
    decreases n, crc, b
  {
    if n == 0 then crc else BitStep(FeedBits(crc, b, n - 1), Bit(b, n - 1))
  }

  function FeedBytes(crc: Word32, s: seq<Byte>): Word32 {
    if |s| == 0 then crc else FeedBits(FeedBytes(crc, s[..|s| - 1]), s[|s| - 1], 8)
  }

  /** The CRC the tool reports (before its final bit reversal). */
  function Crc(s: seq<Byte>): Word32 {
    Not32(FeedBytes(0xFFFF_FFFF, s))
  }

  function XorBytes(s: seq<Byte>, t: seq<Byte>): (r: seq<Byte>)
    requires |s| == |t|
    ensures |r| == |s|
  {
    seq(|s|, i requires 0 <= i < |s| => XorByte(s[i], t[i]))
  }

  function XorByte(a: Byte, b: Byte): Byte {
    Pow2Values();
    XorBound(a, b, 8);
    Xor(a, b)
  }

  function Zeros(n: nat): (z: seq<Byte>)
    ensures |z| == n
  {
    seq(n, _ => 0)
  }

  lemma {:induction false} ShrBit(a: nat, k: nat)
    ensures Shr(a, k) == 2 * Shr(a, k + 1) + Bit(a, k)
  {
    if k > 0 {
      ShrBit(a / 2, k - 1);
    } else {
      assert Shr(a, 1) == Shr(a / 2, 0);
    }
  }

  lemma {:induction false} ShrAll(a: nat, k: nat)
    requires a < Pow2(k)
    ensures Shr(a, k) == 0
  {
    if k > 0 {
      ShrAll(a / 2, k - 1);
    }
  }

  lemma {:induction false} BitOfShr(a: nat, k: nat, j: nat)
    ensures Bit(Shr(a, k), j) == Bit(a, k + j)
  {
    if k > 0 {
      BitOfShr(a / 2, k - 1, j);
    }
  }

  lemma {:induction false} BitOfMod(a: nat, k: nat, j: nat)
    requires j < k
    ensures Bit(a % Pow2(k), j) == Bit(a, j)
  {
    ModHalves(a, Pow2(k - 1));
    if j > 0 {
      BitOfMod(a / 2, k - 1, j - 1);
    }
  }

  lemma ModHalves(a: nat, p: nat)
    requires p > 0
    ensures (a % (2 * p)) % 2 == a % 2
    ensures (a % (2 * p)) / 2 == (a / 2) % p
  {
    var q, r := (a / 2) / p, (a / 2) % p;
    assert a / 2 == p * q + r;
    var m := 2 * r + a % 2;
    assert a == (2 * p) * q + m by {
      assert a == 2 * (a / 2) + a % 2;
      assert 2 * (p * q) == (2 * p) * q;
    }
    DivModUnique(a, 2 * p, q, m);
  }

  lemma BitStepIsRem(crc: Word32, bit: nat)
    requires bit < 2
    ensures BitStep(crc, bit) == Rem(2 * Xor(crc, bit * 0x8000_0000))
  {
    hide Xor, Rem, Reduce;
    var c := Xor(crc, bit * 0x8000_0000);
    AddTopBitBound(crc, bit);
    RemSmall(c);
    RemDouble(c, 2 * c);
  }

  lemma WordXor(a: Word32, b: Word32)
    ensures Xor(a, b) < 0x1_0000_0000
  {
    Pow2Values();
    XorBound(a, b, 32);
  }

  lemma BitStepLinear(c: Word32, d: Word32, b: nat, e: nat)
    requires b < 2 && e < 2
    ensures Xor(c, d) < 0x1_0000_0000
    ensures BitStep(Xor(c, d), (b + e) % 2) == Xor(BitStep(c, b), BitStep(d, e))
  {
    hide Xor, Reduce;
    var h := 0x8000_0000;
    WordXor(c, d);
    XorSwapMiddle(c, b * h, d, e * h);
    ScaledBits(b, e, h);
    AddTopBitBound(c, b);
    AddTopBitBound(d, e);
    XorDouble(Xor(c, b * h), Xor(d, e * h));
    ReduceLinear(2 * Xor(c, b * h), 2 * Xor(d, e * h));
  }

  lemma ScaledBits(b: nat, e: nat, h: nat)
    requires b < 2 && e < 2
    ensures Xor(b * h, e * h) == ((b + e) % 2) * h
  {
    hide *;
    XorSelf(h);
    XorZero(h);
    XorZero(0);
    if b == 0 {
      assert b * h == 0;
    } else {
      assert b * h == h;
    }
    if e == 0 {
      assert e * h == 0;
    } else {
      assert e * h == h;
    }
  }

  lemma {:induction false} FeedBitsLinear(c: Word32, d: Word32, b: nat, e: nat, n: nat)
    ensures Xor(c, d) < 0x1_0000_0000
    ensures FeedBits(Xor(c, d), Xor(b, e), n) == Xor(FeedBits(c, b, n), FeedBits(d, e, n))
  {
    hide Xor, Bit, BitStep;
    WordXor(c, d);
    if n > 0 {
      FeedBitsLinear(c, d, b, e, n - 1);
      XorBit(b, e, n - 1);
      BitStepLinear(FeedBits(c, b, n - 1), FeedBits(d, e, n - 1), Bit(b, n - 1), Bit(e, n - 1));
    }
  }

  /** The register is linear in its start value and its input together. */
  lemma {:induction false} FeedBytesLinear(c: Word32, d: Word32, s: seq<Byte>, t: seq<Byte>)
    requires |s| == |t|
    ensures Xor(c, d) < 0x1_0000_0000
    ensures FeedBytes(Xor(c, d), XorBytes(s, t)) == Xor(FeedBytes(c, s), FeedBytes(d, t))
  {
    hide Xor, FeedBits;
    WordXor(c, d);
    if |s| > 0 {
      var n := |s| - 1;
      FeedBytesLinear(c, d, s[..n], t[..n]);
      assert XorBytes(s, t)[..n] == XorBytes(s[..n], t[..n]);
      FeedBitsLinear(FeedBytes(c, s[..n]), FeedBytes(d, t[..n]), s[n], t[n], 8);
    }
  }

  lemma {:induction false} FeedBytesConcat(c: Word32, s: seq<Byte>, t: seq<Byte>)
    ensures FeedBytes(c, s + t) == FeedBytes(FeedBytes(c, s), t)
    decreases |t|
  {
    hide FeedBits;
    if |t| == 0 {
      assert s + t == s;
    } else {
      var n := |t| - 1;
      FeedBytesConcat(c, s, t[..n]);
      assert (s + t)[..|s + t| - 1] == s + t[..n];
    }
  }

  lemma {:induction false} FeedZeroBits(c: Word32, n: nat)
    ensures FeedBits(c, 0, n) == MulMod(Pow2(n), c)
  {
    hide MulMod, BitStep, Bit, Xor, Rem;
    if n == 0 {
      MulModOne(c);
    } else {
      FeedZeroBits(c, n - 1);
      BitOfZero(n - 1);
      ShiftInBit(Pow2(n - 1), c, 0, 0);
      RemZero();
      XorZero(MulMod(Pow2(n), c));
    }
  }

  /** Multiplying the register by x and adding a bit at the top: the register held p * m. */
  lemma ShiftInBit(p: nat, m: nat, bit: nat, hi: nat)
    requires bit < 2 && hi == bit * 0x8000_0000
    ensures BitStep(MulMod(p, m), bit) == Xor(MulMod(2 * p, m), Rem(2 * hi))
  {
    hide Mul, BitStep, Rem, Reduce, Xor;
    var r: nat := MulMod(p, m);
    BitStepIsRem(r, bit);
    XorDouble(r, hi);
    RemXor(2 * r, 2 * hi);
    RemDouble(r, 2 * r);
    RemSmall(r);
    RemDouble(Mul(p, m), 2 * Mul(p, m));
    MulDoubleLeft(p, m);
  }

  lemma {:induction false} BitOfZero(k: nat)
    ensures Bit(0, k) == 0
  {
    if k > 0 {
      BitOfZero(k - 1);
    }
  }

  /** n zero bytes multiply the register by x^(8n). */
  lemma {:induction false} FeedZeroBytes(c: Word32, n: nat)
    ensures FeedBytes(c, Zeros(n)) == MulMod(Pow2(8 * n), c)
  {
    hide MulMod, FeedBits;
    if n == 0 {
      MulModOne(c);
    } else {
      FeedZeroBytes(c, n - 1);
      FeedOneMoreZero(c, n, Zeros(n));
      FeedZeroBits(FeedBytes(c, Zeros(n - 1)), 8);
      ShiftTwice(8, 8 * (n - 1), c);
    }
  }

  lemma FeedOneMoreZero(c: Word32, n: nat, z: seq<Byte>)
    requires n > 0 && z == Zeros(n)
    ensures FeedBytes(c, z) == FeedBits(FeedBytes(c, Zeros(n - 1)), 0, 8)
  {
    hide FeedBits;
    assert z[..n - 1] == Zeros(n - 1);
  }

  lemma ShiftTwice(j: nat, k: nat, c: nat)
    ensures MulMod(Pow2(j), MulMod(Pow2(k), c)) == MulMod(Pow2(j + k), c)
  {
    hide Mul, Rem, Pow2;
    MulModReduceRight(Pow2(j), Mul(Pow2(k), c));
    MulAssoc(Pow2(j), Pow2(k), c);
    MulPow2(Pow2(j), k);
    Pow2Add(j, k);
  }

  /** Feeding the bits of delta from bit k - 1 down to bit k - n, after the register already holds
      the higher ones. */
  lemma {:induction false} FeedTopBits(delta: nat, k: nat, b: nat, n: nat)
    requires n <= k
    requires forall j: nat :: j < n ==> Bit(b, j) == Bit(delta, k - 1 - j)
    ensures FeedBits(MulMod(0x1_0000_0000, Shr(delta, k)), b, n)
         == MulMod(0x1_0000_0000, Shr(delta, k - n))
  {
    hide MulMod, BitStep, Shr, Bit;
    if n > 0 {
      FeedTopBits(delta, k, b, n - 1);
      ShrBit(delta, k - n);
      assert Bit(b, n - 1) == Bit(delta, k - n);
      AppendBit(Shr(delta, k - n + 1), Bit(delta, k - n), 0x1_0000_0000);
    }
  }

  lemma AppendBit(t: nat, bit: nat, p: nat)
    requires bit < 2 && p == 0x1_0000_0000
    ensures BitStep(MulMod(p, t), bit) == MulMod(p, 2 * t + bit)
  {
    hide *;
    ShiftInBit(p, t, bit, bit * 0x8000_0000);
    TopBitAsProduct(p, bit);
    AppendedProduct(p, t, bit);
  }

  lemma TopBitAsProduct(p: nat, bit: nat)
    requires bit < 2
    ensures p * bit == Mul(p, bit)
  {
    hide *;
    MulOne(p);
    MulZero(p);
  }

  lemma AppendedProduct(p: nat, t: nat, bit: nat)
    requires bit < 2
    ensures MulMod(p, 2 * t + bit) == Xor(MulMod(2 * p, t), Rem(Mul(p, bit)))
  {
    hide Mul, Rem, Xor;
    MulDoubleLeft(p, t);
    MulDoubleRight(p, t);
    ShiftInLinear(t, 0, 0, bit);
    XorZero(t);
    MulDistRight(p, 2 * t, bit);
    RemXor(Mul(p, 2 * t), Mul(p, bit));
  }

  /** Complementing is adding all ones. */
  lemma {:induction false} AllOnesMinus(a: nat, k: nat)
    requires a < Pow2(k)
    ensures Xor(a, Pow2(k) - 1) == Pow2(k) - 1 - a
  {
    if k > 0 {
      AllOnesMinus(a / 2, k - 1);
      XorStep(a, Pow2(k) - 1);
      XorParity(a, Pow2(k) - 1);
      ParityOfSum(a, Pow2(k) - 1);
    }
  }

  lemma NotXor(a: Word32, b: Word32)
    ensures Xor(a, b) < 0x1_0000_0000
    ensures Not32(Xor(a, b)) == Xor(Not32(a), b)
  {
    Pow2Values();
    hide Xor, Pow2;
    WordXor(a, b);
    AllOnesMinus(a, 32);
    AllOnesMinus(Xor(a, b), 32);
    var ones := 0xFFFF_FFFF;
    XorAssoc(a, b, ones);
    XorComm(b, ones);
    XorAssoc(a, ones, b);
  }

  /** Byte k of the four patch bytes carries bits 31 - 8k down to 24 - 8k of delta, the highest in
      its least significant bit, which is the order the register reads them in. */
  ghost predicate CarriesDelta(p: seq<Byte>, delta: nat) {
    |p| == 4 &&
    forall k: nat, j: nat :: k < 4 && j < 8 ==> Bit(p[k], j) == Bit(delta, 31 - 8 * k - j)
  }

  lemma WordShr(delta: Word32)
    ensures Shr(delta, 32) == 0
  {
    Pow2Values();
    ShrAll(delta, 32);
  }

  lemma FeedPatchByte(p: seq<Byte>, delta: Word32, k: nat)
    requires CarriesDelta(p, delta) && k < 4
    ensures FeedBits(MulMod(0x1_0000_0000, Shr(delta, 32 - 8 * k)), p[k], 8)
         == MulMod(0x1_0000_0000, Shr(delta, 24 - 8 * k))
  {
    hide FeedBits, MulMod, Shr, Bit;
    FeedTopBits(delta, 32 - 8 * k, p[k], 8);
  }

  lemma FeedPatch(p: seq<Byte>, delta: Word32)
    requires CarriesDelta(p, delta)
    ensures FeedBytes(0, p) == MulMod(0x1_0000_0000, delta)
  {
    assert Shr(delta, 0) == delta && |p| == 4;
    WordShr(delta);
    hide *;
    MulModZero(0x1_0000_0000);
    FeedPatchByte(p, delta, 0);
    FeedPatchByte(p, delta, 1);
    FeedPatchByte(p, delta, 2);
    FeedPatchByte(p, delta, 3);
    FeedFour(p);
  }

  lemma FeedFour(p: seq<Byte>)
    requires |p| == 4
    ensures FeedBytes(0, p)
         == FeedBits(FeedBits(FeedBits(FeedBits(0, p[0], 8), p[1], 8), p[2], 8), p[3], 8)
  {
    hide FeedBits;
    assert p[..1][..0] == [] && p[..2][..1] == p[..1] && p[..3][..2] == p[..2];
    assert FeedBytes(0, p[..1]) == FeedBits(0, p[0], 8);
    assert FeedBytes(0, p[..2]) == FeedBits(FeedBytes(0, p[..1]), p[1], 8);
    assert FeedBytes(0, p[..3]) == FeedBits(FeedBytes(0, p[..2]), p[2], 8);
  }

  /** Where the four bytes sit in a file of n bytes. */
  function PatchMask(n: nat, offset: nat, p: seq<Byte>): (m: seq<Byte>)
    requires offset + 4 <= n && |p| == 4
    ensures |m| == n
  {
    Zeros(offset) + p + Zeros(n - offset - 4)
  }

  lemma FeedMask(n: nat, offset: nat, p: seq<Byte>, delta: Word32)
    requires offset + 4 <= n && CarriesDelta(p, delta)
    ensures FeedBytes(0, PatchMask(n, offset, p)) == MulMod(delta, PowMod(2, 8 * (n - offset)))
  {
    Pow2Values();
    hide FeedBytes, MulMod, PowMod, Pow2, Rem;
    var tail := n - offset - 4;
    FeedBytesConcat(0, Zeros(offset) + p, Zeros(tail));
    FeedBytesConcat(0, Zeros(offset), p);
    FeedZeroBytes(0, offset);
    MulModZero(Pow2(8 * offset));
    FeedPatch(p, delta);
    FeedZeroBytes(FeedBytes(0, p), tail);
    ShiftTwice(8 * tail, 32, delta);
    assert 8 * tail + 32 == 8 * (n - offset);
    PowModOfX(8 * tail + 32);
    MulModComm(delta, Pow2(8 * tail + 32));
    MulModReduceRight(delta, Pow2(8 * tail + 32));
  }

  /** Adding the patch adds delta * x^(8(n - offset)) to the CRC: this is the equation the tool
      solves for delta. */
  lemma PatchEffect(s: seq<Byte>, offset: nat, p: seq<Byte>, delta: Word32)
    requires offset + 4 <= |s| && CarriesDelta(p, delta)
    ensures Crc(XorBytes(s, PatchMask(|s|, offset, p)))
         == Xor(Crc(s), MulMod(delta, PowMod(2, 8 * (|s| - offset))))
  {
    hide FeedBytes, MulMod, PowMod, PatchMask, XorBytes, Xor;
    var m := PatchMask(|s|, offset, p);
    XorZero(0xFFFF_FFFF);
    FeedBytesLinear(0xFFFF_FFFF, 0, s, m);
    NotXor(FeedBytes(0xFFFF_FFFF, s), FeedBytes(0, m));
    FeedMask(|s|, offset, p, delta);
  }
}
