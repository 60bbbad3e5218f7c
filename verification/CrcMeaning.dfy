/** What the CRC is, without the shift register: the generator's terms, and the remainder of the message
    polynomial (the check sequence of IEEE 802.3, clause 3.2.9). */
module CrcMeaning {
  import opened Gf2Poly
  import opened CrcField
  import opened CrcRegister

  // ---- the generator ----

  predicate GeneratorTerm(k: nat) {
    k in {0, 1, 2, 4, 5, 7, 8, 10, 11, 12, 16, 22, 23, 26, 32}
  }

  /** x^32 + x^26 + x^23 + x^22 + x^16 + x^12 + x^11 + x^10 + x^8 + x^7 + x^5 + x^4 + x^2 + x + 1. */
  lemma GeneratorBits(k: nat)
    ensures Bit(POLYNOMIAL, k) == 1 <==> GeneratorTerm(k)
  {
    hide Bit;
    if k < 16 {
      LowGeneratorBits(k);
    } else {
      BitOfShr(POLYNOMIAL, 16, k - 16);
      SixteenOff(POLYNOMIAL);
      HighGeneratorBits(k - 16);
    }
  }

  lemma LowGeneratorBits(k: nat)
    requires k < 16
    ensures Bit(POLYNOMIAL, k) == 1 <==> GeneratorTerm(k)
  {
    if k < 8 {
      LowBitsOf(POLYNOMIAL, k);
    } else {
      BitOfShr(POLYNOMIAL, 8, k - 8);
      EightOff(POLYNOMIAL);
      LowBitsOf(0x1_04C1_1D, k - 8);
    }
  }

  lemma HighGeneratorBits(k: nat)
    ensures Bit(0x1_04C1, k) == 1 <==> GeneratorTerm(k + 16)
  {
    if k < 8 {
      LowBitsOf(0x1_04C1, k);
    } else if k < 16 {
      BitOfShr(0x1_04C1, 8, k - 8);
      EightOff(0x1_04C1);
      LowBitsOf(0x1_04, k - 8);
    } else {
      BitOfShr(0x1_04C1, 16, k - 16);
      SixteenOff(0x1_04C1);
      if k > 16 {
        BitOfZero(k - 17);
      }
    }
  }

  /** The eight lowest bits, by division. */
  lemma LowBitsOf(a: nat, k: nat)
    requires k < 8
    ensures Bit(a, k) == (if k == 0 then a else if k == 1 then a / 2 else if k == 2 then a / 4 else if k == 3 then a / 8
                          else if k == 4 then a / 16 else if k == 5 then a / 32 else if k == 6 then a / 64 else a / 128) % 2
  {
    var (b, c) := (a / 2, a / 4);
    assert Bit(a, 0) == a % 2 && Bit(a, 1) == Bit(b, 0) && Bit(a, 2) == Bit(b, 1) == Bit(b / 2, 0);
    Halvings(a);
    BitOfShr(a, 3, k - (if k >= 3 then 3 else k));
    if k >= 3 {
      var d := a / 8;
      assert Bit(d, 0) == d % 2 && Bit(d, 1) == Bit(d / 2, 0) && Bit(d, 2) == Bit(d / 2, 1) == Bit(d / 2 / 2, 0);
      assert Bit(d, 3) == Bit(d / 2, 2) == Bit(d / 2 / 2, 1) == Bit(d / 2 / 2 / 2, 0);
      assert Bit(d, 4) == Bit(d / 2, 3) == Bit(d / 2 / 2, 2) == Bit(d / 2 / 2 / 2, 1) == Bit(d / 2 / 2 / 2 / 2, 0);
    }
  }

  lemma Halvings(a: nat)
    ensures a / 2 / 2 == a / 4 && a / 4 / 2 == a / 8 && a / 8 / 2 == a / 16 && a / 16 / 2 == a / 32
    ensures a / 32 / 2 == a / 64 && a / 64 / 2 == a / 128 && a / 128 / 2 == a / 256
    ensures Shr(a, 3) == a / 8
  {
    assert Shr(a, 3) == Shr(a / 2, 2) == Shr(a / 2 / 2, 1) == Shr(a / 2 / 2 / 2, 0);
  }

  lemma EightOff(a: nat)
    ensures Shr(a, 8) == a / 0x100
  {
    Halvings(a);
    assert Shr(a, 8) == Shr(a / 2, 7) == Shr(a / 4, 6) == Shr(a / 8, 5) == Shr(a / 16, 4);
    assert Shr(a / 16, 4) == Shr(a / 32, 3) == Shr(a / 64, 2) == Shr(a / 128, 1) == Shr(a / 256, 0);
  }

  lemma SixteenOff(a: nat)
    ensures Shr(a, 16) == a / 0x1_0000
  {
    EightOff(a);
    EightOff(a / 0x100);
    ShrTwice(a, 8, 8);
  }

  lemma {:induction false} ShrTwice(a: nat, j: nat, k: nat)
    ensures Shr(a, j + k) == Shr(Shr(a, j), k)
  {
    if j > 0 {
      ShrTwice(a / 2, j - 1, k);
    }
  }

  // ---- the message as a polynomial ----

  /** The bits of a byte in the opposite order: the least significant one is sent first. */
  function ReversedByte(b: Byte): nat {
    128 * Bit(b, 0) + 64 * Bit(b, 1) + 32 * Bit(b, 2) + 16 * Bit(b, 3) + 8 * Bit(b, 4) + 4 * Bit(b, 5) + 2 * Bit(b, 6) + Bit(b, 7)
  }

  /** The message polynomial: its highest coefficient is the first bit sent. */
  function Message(s: seq<Byte>): nat {
    if |s| == 0 then 0 else 0x100 * Message(s[..|s| - 1]) + ReversedByte(s[|s| - 1])
  }

  /** Bit j of byte i is coefficient 8 * n - 1 - (8 * i + j) of the message. */
  lemma {:induction false} MessageBit(s: seq<Byte>, i: nat, j: nat)
    requires i < |s| && j < 8
    ensures Bit(Message(s), 8 * (|s| - 1 - i) + (7 - j)) == Bit(s[i], j)
  {
    var n := |s| - 1;
    var m := Message(s);
    MessageByte(s);
    if i == n {
      ReversedBit(s[n], Message(s[..n]), j);
    } else {
      MessageBit(s[..n], i, j);
      BitOfShr(m, 8, 8 * (n - 1 - i) + (7 - j));
      assert 8 + (8 * (n - 1 - i) + (7 - j)) == 8 * (n - i) + (7 - j);
    }
  }

  lemma MessageByte(s: seq<Byte>)
    requires |s| > 0
    ensures ReversedByte(s[|s| - 1]) < 0x100 && Shr(Message(s), 8) == Message(s[..|s| - 1])
  {
    hide Bit;
    EightOff(Message(s));
  }

  lemma ReversedBit(b: Byte, m: nat, j: nat)
    requires j < 8
    ensures Bit(0x100 * m + ReversedByte(b), 7 - j) == Bit(b, j)
  {
    LowBitsOf(0x100 * m + ReversedByte(b), 7 - j);
    ReversedDivision(b, m);
    hide Bit;
  }

  lemma ReversedDivision(b: Byte, m: nat)
    ensures var a := 0x100 * m + ReversedByte(b);
            && a % 2 == Bit(b, 7) && a / 2 % 2 == Bit(b, 6) && a / 4 % 2 == Bit(b, 5) && a / 8 % 2 == Bit(b, 4)
            && a / 16 % 2 == Bit(b, 3) && a / 32 % 2 == Bit(b, 2) && a / 64 % 2 == Bit(b, 1) && a / 128 % 2 == Bit(b, 0)
  {
    hide Bit;
    var h := 16 * m + (8 * Bit(b, 0) + 4 * Bit(b, 1) + 2 * Bit(b, 2) + Bit(b, 3));
    var a := 16 * h + (8 * Bit(b, 4) + 4 * Bit(b, 5) + 2 * Bit(b, 6) + Bit(b, 7));
    FourBits(h, Bit(b, 4), Bit(b, 5), Bit(b, 6), Bit(b, 7), a);
    FourBits(m, Bit(b, 0), Bit(b, 1), Bit(b, 2), Bit(b, 3), h);
    Halvings(a);
    Halvings(h);
  }

  lemma FourBits(x: nat, b0: nat, b1: nat, b2: nat, b3: nat, a: nat)
    requires b0 < 2 && b1 < 2 && b2 < 2 && b3 < 2 && a == 16 * x + (8 * b0 + 4 * b1 + 2 * b2 + b3)
    ensures a % 2 == b3 && a / 2 % 2 == b2 && a / 4 % 2 == b1 && a / 8 % 2 == b0 && a / 16 == x
  {
    var (c, d, e) := (2 * x + b0, 4 * x + 2 * b0 + b1, 8 * x + 4 * b0 + 2 * b1 + b2);
    BitBelow(e, b3);
    BitBelow(d, b2);
    BitBelow(c, b1);
    BitBelow(x, b0);
    Halvings(a);
  }

  lemma BitBelow(x: nat, b: nat)
    requires b < 2
    ensures (2 * x + b) / 2 == x && (2 * x + b) % 2 == b
  {
  }

  // ---- the CRC as a remainder ----

  /** r is what division by the generator leaves of a. */
  ghost predicate IsRemainderOf(a: nat, r: nat) {
    r < 0x1_0000_0000 && exists q: nat :: a == Xor(Mul(POLYNOMIAL, q), r)
  }

  lemma RemainderUnique(a: nat, r: nat)
    requires IsRemainderOf(a, r)
    ensures r == Rem(a)
  {
    var q: nat :| a == Xor(Mul(POLYNOMIAL, q), r);
    hide Rem, Mul, Xor;
    RemXor(Mul(POLYNOMIAL, q), r);
    RemSmall(r);
    MulModReduceLeft(POLYNOMIAL, q);
    RemGenerator();
    ZeroTimes(q);
    XorComm(0, r);
    XorZero(r);
  }

  lemma ZeroTimes(q: nat)
    ensures MulMod(0, q) == 0
  {
    MulZero(q);
    RemZero();
  }

  /** A register of zeros ends as the remainder of the message times x^32. */
  lemma {:induction false} FeedMessage(s: seq<Byte>)
    ensures FeedBytes(0, s) == MulMod(0x1_0000_0000, Message(s))
  {
    hide MulMod, FeedBits, Shr, Bit, ReversedByte;
    if |s| == 0 {
      NothingTimes();
    } else {
      var n := |s| - 1;
      FeedMessage(s[..n]);
      MessageByte(s);
      forall j: nat | j < 8
        ensures Bit(s[n], j) == Bit(Message(s), 8 - 1 - j)
      {
        MessageBit(s, n, j);
        assert 8 * (|s| - 1 - n) + (7 - j) == 8 - 1 - j;
      }
      FeedTopBits(Message(s), 8, s[n], 8);
      NoShiftLeft(Message(s));
    }
  }

  lemma NoShiftLeft(a: nat)
    ensures Shr(a, 8 - 8) == a
  {
  }

  lemma NothingTimes()
    ensures MulMod(0x1_0000_0000, 0) == 0
  {
    RemZero();
  }

  /** The dividend: the message times x^32, its first 32 bits complemented. */
  function Dividend(s: seq<Byte>): nat {
    Xor(Mul(Message(s), Pow2(32)), Mul(0xFFFF_FFFF, Pow2(8 * |s|)))
  }

  /** The CRC is the complement of what division by the generator leaves of the dividend. */
  lemma CrcIsRemainder(s: seq<Byte>)
    ensures IsRemainderOf(Dividend(s), Not32(Crc(s))) && Not32(Crc(s)) == Rem(Dividend(s))
  {
    hide Rem, Mul, Xor, Pow2, FeedBytes, Message;
    var (n, ones, m) := (|s|, 0xFFFF_FFFF, Message(s));
    Pow2Values();
    FeedBytesLinear(ones, 0, CrcRegister.Zeros(n), s);
    ZerosAnd(s);
    XorZero(ones);
    FeedZeroBytes(ones, n);
    FeedMessage(s);
    MulComm(Pow2(8 * n), ones);
    MulComm(Pow2(32), m);
    RemXor(Mul(ones, Pow2(8 * n)), Mul(m, Pow2(32)));
    XorComm(Mul(ones, Pow2(8 * n)), Mul(m, Pow2(32)));
    QuoRem(Dividend(s));
  }

  lemma ZerosAnd(s: seq<Byte>)
    ensures XorBytes(CrcRegister.Zeros(|s|), s) == s
  {
    hide Xor;
    forall i: nat | i < |s|
      ensures XorByte(0, s[i]) == s[i]
    {
      XorComm(0, s[i]);
      XorZero(s[i]);
    }
  }
}
