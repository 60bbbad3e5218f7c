/** The check value: the CRC of the nine characters 123456789, computed in machine words. */
module CrcCheckValue {
  import opened Gf2Poly
  import opened CrcField
  import opened CrcRegister
  import opened Crc32Forcer
  import opened CrcMeaning

  // ---- machine words as numbers ----

  // The word operations, so that proofs about numbers can leave their bits alone.
  function Half(a: bv32): bv32 { a >> 1 }

  function LowBit(a: bv32): bool { a & 1 == 1 }

  function Exor(a: bv32, b: bv32): bv32 { a ^ b }

  function Mask(a: bv32, m: bv32): bv32 { a & m }

  function Doubled(a: bv32): bv32 { a << 1 }

  function TopSet(a: bv32): bool { a >> 31 == 1 }

  lemma ExorHalf(a: bv32, b: bv32)
    ensures Half(Exor(a, b)) == Exor(Half(a), Half(b)) && (LowBit(Exor(a, b)) <==> LowBit(a) != LowBit(b))
  {
  }

  lemma MaskHalf(a: bv32, m: bv32)
    ensures Half(Mask(a, m)) == Mask(Half(a), Half(m)) && (LowBit(m) ==> (LowBit(Mask(a, m)) <==> LowBit(a)))
  {
  }

  lemma DoubledHalf(a: bv32)
    ensures Half(Doubled(a)) == Mask(a, 0x7FFF_FFFF) && !LowBit(Doubled(a))
  {
  }

  function Unit(b: bool): nat {
    if b then 1 else 0
  }

  /** The number in the low k bits. */
  function Number(a: bv32, k: nat): nat
    decreases k
  {
    if k == 0 then 0 else 2 * Number(Half(a), k - 1) + Unit(LowBit(a))
  }

  /** The low k bits of m are all set. */
  predicate Ones(m: bv32, k: nat)
    decreases k
  {
    k == 0 || (LowBit(m) && Ones(Half(m), k - 1))
  }

  lemma {:induction false} NumberBound(a: bv32, k: nat)
    ensures Number(a, k) < Pow2(k)
    decreases k
  {
    hide Half, LowBit;
    if k > 0 {
      NumberBound(Half(a), k - 1);
    }
  }

  lemma {:induction false} NumberXor(a: bv32, b: bv32, k: nat)
    ensures Number(Exor(a, b), k) == Xor(Number(a, k), Number(b, k))
    decreases k
  {
    hide Xor, Half, LowBit, Exor;
    if k == 0 {
      XorZero(0);
    } else {
      NumberXor(Half(a), Half(b), k - 1);
      ExorHalf(a, b);
      XorBits(Number(Half(a), k - 1), Number(Half(b), k - 1), Unit(LowBit(a)), Unit(LowBit(b)));
    }
  }

  lemma XorBits(x: nat, y: nat, p: nat, q: nat)
    requires p < 2 && q < 2
    ensures Xor(2 * x + p, 2 * y + q) == 2 * Xor(x, y) + (if p == q then 0 else 1)
  {
    hide Xor;
    XorStep(2 * x + p, 2 * y + q);
    BitBelow(x, p);
    BitBelow(y, q);
    ParityOfSum(2 * x + p, 2 * y + q);
  }

  lemma {:induction false} NumberMasked(a: bv32, m: bv32, k: nat)
    requires Ones(m, k)
    ensures Number(Mask(a, m), k) == Number(a, k)
    decreases k
  {
    hide Half, LowBit, Mask;
    if k > 0 {
      NumberMasked(Half(a), Half(m), k - 1);
      MaskHalf(a, m);
    }
  }

  /** a halved j times. */
  function Down(a: bv32, j: nat): bv32
    decreases j
  {
    if j == 0 then a else Down(Half(a), j - 1)
  }

  lemma {:induction false} NumberTop(a: bv32, j: nat)
    ensures Number(a, j + 1) == Number(a, j) + Pow2(j) * Unit(LowBit(Down(a, j)))
    decreases j
  {
    hide Half, LowBit;
    if j > 0 {
      NumberTop(Half(a), j - 1);
    }
  }

  lemma {:induction false} DownTwice(a: bv32, j: nat, k: nat)
    ensures Down(a, j + k) == Down(Down(a, j), k)
    decreases j
  {
    hide Half;
    if j > 0 {
      DownTwice(Half(a), j - 1, k);
    }
  }

  lemma DownTwo(a: bv32)
    ensures Down(a, 1) == Half(a) && Down(a, 2) == Half(Half(a))
  {
    hide Half;
    assert Down(a, 2) == Down(Half(a), 1) == Down(Half(Half(a)), 0);
  }

  function Quarter(a: bv32): bv32 { a >> 4 }

  lemma FourHalves(a: bv32)
    ensures Half(Half(Half(Half(a)))) == Quarter(a)
  {
  }

  lemma DownFour(a: bv32)
    ensures Down(a, 4) == Quarter(a)
  {
    FourHalves(a);
    hide Half, Quarter;
    DownTwo(a);
    DownTwo(Half(Half(a)));
    DownTwice(a, 2, 2);
  }

  function Strides(a: bv32, n: nat): bv32
    decreases n
  {
    if n == 0 then a else Quarter(Strides(a, n - 1))
  }

  lemma {:induction false} DownStrides(a: bv32, n: nat)
    ensures Down(a, 4 * n) == Strides(a, n)
    decreases n
  {
    hide Half, Quarter;
    if n > 0 {
      DownStrides(a, n - 1);
      DownTwice(a, 4 * (n - 1), 4);
      DownFour(Strides(a, n - 1));
      assert 4 * (n - 1) + 4 == 4 * n;
    }
  }

  lemma SevenStrides(a: bv32)
    ensures Strides(a, 1) == Quarter(a) && Strides(a, 2) == Quarter(Quarter(a)) && Strides(a, 7) == a >> 28
  {
    assert Strides(a, 1) == a >> 4;
    assert Strides(a, 2) == a >> 8;
    assert Strides(a, 3) == a >> 12;
    assert Strides(a, 4) == a >> 16;
    assert Strides(a, 5) == a >> 20;
    assert Strides(a, 6) == a >> 24;
  }

  lemma TopAfterStrides(a: bv32)
    ensures LowBit(Half(Half(Half(a >> 28)))) <==> TopSet(a)
  {
  }

  lemma DownTop(a: bv32)
    ensures LowBit(Down(a, 31)) <==> TopSet(a)
  {
    hide Down, Half, LowBit, TopSet, Strides, Quarter;
    DownStrides(a, 7);
    SevenStrides(a);
    TopAfterStrides(a);
    var b := a >> 28;
    DownTwice(a, 28, 3);
    DownTwice(b, 2, 1);
    DownTwo(b);
    DownTwo(Half(Half(b)));
  }

  /** The word with its top bit apart. */
  lemma TopBit(a: bv32)
    ensures Number(a, 32) == Number(a, 31) + (if TopSet(a) then 0x8000_0000 else 0) && Number(a, 31) < 0x8000_0000
  {
    hide Number, Pow2, Down, TopSet, LowBit;
    NumberTop(a, 31);
    DownTop(a);
    Pow2Values();
    NumberBound(a, 31);
  }

  lemma OnesFour(m: bv32, k: nat)
    requires LowBit(m) && LowBit(Half(m)) && LowBit(Half(Half(m))) && LowBit(Half(Half(Half(m)))) && Ones(Half(Half(Half(Half(m)))), k)
    ensures Ones(m, k + 4)
  {
    hide LowBit, Half;
    assert Ones(Half(Half(Half(m))), k + 1) && Ones(Half(Half(m)), k + 2) && Ones(Half(m), k + 3);
  }

  lemma MaskOnes()
    ensures Ones(0x7FFF_FFFF, 31)
  {
    assert Ones(0, 0) && Ones(1, 1) && Ones(3, 2) && Ones(7, 3);
    hide Ones;
    OnesFour(0x7F, 3);
    OnesFour(0x7FF, 7);
    OnesFour(0x7FFF, 11);
    OnesFour(0x7_FFFF, 15);
    OnesFour(0x7F_FFFF, 19);
    OnesFour(0x7FF_FFFF, 23);
    OnesFour(0x7FFF_FFFF, 27);
  }

  /** Shifted left, the word loses its top bit. */
  lemma NumberDoubled(a: bv32)
    ensures Number(Doubled(a), 32) == 2 * Number(a, 31)
  {
    DoubledHalf(a);
    hide Half, LowBit, Doubled, Mask, Ones;
    assert Number(Doubled(a), 32) == 2 * Number(Half(Doubled(a)), 31) + Unit(LowBit(Doubled(a)));
    MaskOnes();
    NumberMasked(a, 0x7FFF_FFFF, 31);
  }

  function Nibble(a: bv32): nat {
    8 * Unit(LowBit(Half(Half(Half(a))))) + 4 * Unit(LowBit(Half(Half(a)))) + 2 * Unit(LowBit(Half(a))) + Unit(LowBit(a))
  }

  lemma NumberFour(a: bv32, k: nat)
    ensures Number(a, k + 4) == 16 * Number(Quarter(a), k) + Nibble(a)
  {
    FourHalves(a);
    hide Half, LowBit, Quarter;
    var (b, c, d) := (Half(a), Half(Half(a)), Half(Half(Half(a))));
    assert Number(d, k + 1) == 2 * Number(Half(d), k) + Unit(LowBit(d));
    assert Number(c, k + 2) == 2 * Number(d, k + 1) + Unit(LowBit(c));
    assert Number(b, k + 3) == 2 * Number(c, k + 2) + Unit(LowBit(b));
    assert Number(a, k + 4) == 2 * Number(b, k + 3) + Unit(LowBit(a));
  }

  /** A word from its hexadecimal digits. */
  function Hex(a: bv32, n: nat): nat
    decreases n
  {
    if n == 0 then 0 else 16 * Hex(Quarter(a), n - 1) + Nibble(a)
  }

  lemma {:induction false} NumberIsHex(a: bv32, n: nat)
    ensures Number(a, 4 * n) == Hex(a, n)
    decreases n
  {
    hide Nibble, Quarter;
    if n > 0 {
      NumberIsHex(Quarter(a), n - 1);
      NumberFour(a, 4 * (n - 1));
      assert 4 * (n - 1) + 4 == 4 * n;
    }
  }

  lemma HexFour(a: bv32)
    ensures Hex(a, 8) == 0x1_0000 * Hex(a >> 16, 4) + Hex(a, 4)
    ensures Hex(a, 4) == 0x1000 * Nibble(a >> 12) + 0x100 * Nibble(a >> 8) + 0x10 * Nibble(a >> 4) + Nibble(a)
  {
    assert Quarter(a) == a >> 4 && Quarter(a >> 4) == a >> 8 && Quarter(a >> 8) == a >> 12 && Quarter(a >> 12) == a >> 16;
    hide Nibble, Quarter;
    assert Hex(a >> 12, 1) == 16 * Hex(a >> 16, 0) + Nibble(a >> 12);
    assert Hex(a >> 8, 2) == 16 * Hex(a >> 12, 1) + Nibble(a >> 8);
    assert Hex(a >> 4, 3) == 16 * Hex(a >> 8, 2) + Nibble(a >> 4);
    assert Hex(a >> 12, 5) == 16 * Hex(a >> 16, 4) + Nibble(a >> 12);
    assert Hex(a >> 8, 6) == 16 * Hex(a >> 12, 5) + Nibble(a >> 8);
    assert Hex(a >> 4, 7) == 16 * Hex(a >> 8, 6) + Nibble(a >> 4);
  }

  lemma ShiftsAdd(a: bv32)
    ensures a >> 16 >> 12 == a >> 28 && a >> 16 >> 8 == a >> 24 && a >> 16 >> 4 == a >> 20
  {
  }

  lemma WordOf(a: bv32, h: nat, l: nat)
    requires h == 0x1000 * Nibble(a >> 28) + 0x100 * Nibble(a >> 24) + 0x10 * Nibble(a >> 20) + Nibble(a >> 16)
    requires l == 0x1000 * Nibble(a >> 12) + 0x100 * Nibble(a >> 8) + 0x10 * Nibble(a >> 4) + Nibble(a)
    ensures Number(a, 32) == 0x1_0000 * h + l
  {
    hide *;
    ShiftsAdd(a);
    NumberIsHex(a, 8);
    HexFour(a);
    HexFour(a >> 16);
  }

  lemma WordsUsed()
    ensures Number(0x8000_0000, 32) == 0x8000_0000 && Number(0xFFFF_FFFF, 32) == 0xFFFF_FFFF
    ensures Number(0x04C1_1DB7, 32) == 0x04C1_1DB7 && Number(0x9B63_D02C, 32) == 0x9B63_D02C
  {
    hide Number;
    WordOf(0x8000_0000, 0x8000, 0);
    WordOf(0xFFFF_FFFF, 0xFFFF, 0xFFFF);
    WordOf(0x04C1_1DB7, 0x04C1, 0x1DB7);
    WordOf(0x9B63_D02C, 0x9B63, 0xD02C);
  }

  // ---- the register in machine words ----

  function Step(c: bv32, bit: bool): bv32 {
    var x := if bit then Exor(c, 0x8000_0000) else c;
    if TopSet(x) then Exor(Doubled(x), 0x04C1_1DB7) else Doubled(x)
  }

  lemma StepIs(c: bv32, bit: nat)
    requires bit < 2
    ensures Number(c, 32) < 0x1_0000_0000 && BitStep(Number(c, 32), bit) == Number(Step(c, bit == 1), 32)
  {
    hide Number, Xor, BitStep, Exor, TopSet, Doubled;
    WordsUsed();
    TopBit(c);
    RegisterStep(Number(c, 32), bit);
    NumberXor(c, 0x8000_0000, 32);
    XorZero(Number(c, 32));
    var x := if bit == 1 then Exor(c, 0x8000_0000) else c;
    TopBit(x);
    NumberDoubled(x);
    NumberXor(Doubled(x), 0x04C1_1DB7, 32);
    TopOrLow(Number(x, 32), Number(x, 31), TopSet(x));
  }

  lemma TopOrLow(n: nat, low: nat, top: bool)
    requires n == low + (if top then 0x8000_0000 else 0) && low < 0x8000_0000
    ensures (n / 0x8000_0000 != 0 <==> top) && (n % 0x8000_0000) * 2 == 2 * low
  {
  }

  function Steps(c: bv32, b: nat, n: nat): bv32
    decreases n
  {
    if n == 0 then c else Step(Steps(c, b, n - 1), Bit(b, n - 1) == 1)
  }

  lemma {:induction false} StepsAre(c: bv32, b: nat, n: nat)
    ensures Number(c, 32) < 0x1_0000_0000 && FeedBits(Number(c, 32), b, n) == Number(Steps(c, b, n), 32)
    decreases n
  {
    hide Number, Step, BitStep, Bit;
    StepIs(c, 0);
    if n > 0 {
      StepsAre(c, b, n - 1);
      StepIs(Steps(c, b, n - 1), Bit(b, n - 1));
    }
  }

  /** Eight steps, the bits of the byte given. */
  lemma EightSteps(c: bv32, b: Byte, bits: seq<bool>, r: bv32)
    requires |bits| == 8 && (bits[0] <==> b % 2 == 1) && (bits[1] <==> b / 2 % 2 == 1) && (bits[2] <==> b / 4 % 2 == 1)
    requires (bits[3] <==> b / 8 % 2 == 1) && (bits[4] <==> b / 16 % 2 == 1) && (bits[5] <==> b / 32 % 2 == 1)
    requires (bits[6] <==> b / 64 % 2 == 1) && (bits[7] <==> b / 128 % 2 == 1)
    requires r == Step(Step(Step(Step(Step(Step(Step(Step(c, bits[0]), bits[1]), bits[2]), bits[3]), bits[4]), bits[5]), bits[6]), bits[7])
    ensures Number(c, 32) < 0x1_0000_0000 && FeedBits(Number(c, 32), b, 8) == Number(r, 32)
  {
    hide Number, Step, Bit, FeedBits;
    StepsAre(c, b, 8);
    forall k: nat | k < 8
      ensures Bit(b, k) == (if k == 0 then b else if k == 1 then b / 2 else if k == 2 then b / 4 else if k == 3 then b / 8
                            else if k == 4 then b / 16 else if k == 5 then b / 32 else if k == 6 then b / 64 else b / 128) % 2
    {
      LowBitsOf(b, k);
    }
    assert Steps(c, b, 1) == Step(Steps(c, b, 0), Bit(b, 0) == 1) && Steps(c, b, 2) == Step(Steps(c, b, 1), Bit(b, 1) == 1);
    assert Steps(c, b, 3) == Step(Steps(c, b, 2), Bit(b, 2) == 1) && Steps(c, b, 4) == Step(Steps(c, b, 3), Bit(b, 3) == 1);
    assert Steps(c, b, 5) == Step(Steps(c, b, 4), Bit(b, 4) == 1) && Steps(c, b, 6) == Step(Steps(c, b, 5), Bit(b, 5) == 1);
    assert Steps(c, b, 7) == Step(Steps(c, b, 6), Bit(b, 6) == 1) && Steps(c, b, 8) == Step(Steps(c, b, 7), Bit(b, 7) == 1);
  }

  // ---- the check value ----

  /** The characters 123456789. */
  const CHECK: seq<Byte> := [0x31, 0x32, 0x33, 0x34, 0x35, 0x36, 0x37, 0x38, 0x39]

  /** The register after each character. */
  function Register(n: nat): bv32
    requires n <= 9
  {
    match n
    case 0 => 0xFFFF_FFFF
    case 1 => 0x1208_C43E
    case 2 => 0x4CDD_350D
    case 3 => 0xB439_EDEE
    case 4 => 0x3AF8_3826
    case 5 => 0xC7A3_502C
    case 6 => 0x7934_B16F
    case 7 => 0x0669_3FF5
    case 8 => 0x0AA4_F8A6
    case _ => 0x9B63_D02C
  }

  lemma {:induction false} RegisterIs(n: nat)
    requires n <= 9
    ensures FeedBytes(0xFFFF_FFFF, CHECK[..n]) == Number(Register(n), 32)
  {
    hide Number, Step, FeedBits;
    if n == 0 {
      WordsUsed();
    } else {
      RegisterIs(n - 1);
      CheckStep(n - 1);
      assert CHECK[..n][..n - 1] == CHECK[..n - 1];
    }
  }

  lemma Character1()
    ensures Number(0xFFFF_FFFF, 32) < 0x1_0000_0000 && FeedBits(Number(0xFFFF_FFFF, 32), 0x31, 8) == Number(0x1208_C43E, 32)
  {
    hide Number, FeedBits, Xor;
    assert Step(0xFFFF_FFFF, true) == 0xFFFF_FFFE && Step(0xFFFF_FFFE, false) == 0xFB3E_E24B;
    assert Step(0xFB3E_E24B, false) == 0xF2BC_D921 && Step(0xF2BC_D921, false) == 0xE1B8_AFF5;
    assert Step(0xE1B8_AFF5, true) == 0xC371_5FEA && Step(0xC371_5FEA, true) == 0x86E2_BFD4;
    assert Step(0x86E2_BFD4, false) == 0x0904_621F && Step(0x0904_621F, false) == 0x1208_C43E;
    hide *;
    EightSteps(0xFFFF_FFFF, 0x31, [true, false, false, false, true, true, false, false], 0x1208_C43E);
  }

  lemma Character2()
    ensures Number(0x1208_C43E, 32) < 0x1_0000_0000 && FeedBits(Number(0x1208_C43E, 32), 0x32, 8) == Number(0x4CDD_350D, 32)
  {
    hide Number, FeedBits, Xor;
    assert Step(0x1208_C43E, false) == 0x2411_887C && Step(0x2411_887C, true) == 0x4CE2_0D4F;
    assert Step(0x4CE2_0D4F, false) == 0x99C4_1A9E && Step(0x99C4_1A9E, false) == 0x3749_288B;
    assert Step(0x3749_288B, true) == 0x6A53_4CA1 && Step(0x6A53_4CA1, true) == 0xD067_84F5;
    assert Step(0xD067_84F5, false) == 0xA40E_145D && Step(0xA40E_145D, false) == 0x4CDD_350D;
    hide *;
    EightSteps(0x1208_C43E, 0x32, [false, true, false, false, true, true, false, false], 0x4CDD_350D);
  }

  lemma Character3()
    ensures Number(0x4CDD_350D, 32) < 0x1_0000_0000 && FeedBits(Number(0x4CDD_350D, 32), 0x33, 8) == Number(0xB439_EDEE, 32)
  {
    hide Number, FeedBits, Xor;
    assert Step(0x4CDD_350D, true) == 0x9D7B_77AD && Step(0x9D7B_77AD, true) == 0x3AF6_EF5A;
    assert Step(0x3AF6_EF5A, false) == 0x75ED_DEB4 && Step(0x75ED_DEB4, false) == 0xEBDB_BD68;
    assert Step(0xEBDB_BD68, true) == 0xD7B7_7AD0 && Step(0xD7B7_7AD0, true) == 0xAF6E_F5A0;
    assert Step(0xAF6E_F5A0, false) == 0x5A1C_F6F7 && Step(0x5A1C_F6F7, false) == 0xB439_EDEE;
    hide *;
    EightSteps(0x4CDD_350D, 0x33, [true, true, false, false, true, true, false, false], 0xB439_EDEE);
  }

  lemma Character4()
    ensures Number(0xB439_EDEE, 32) < 0x1_0000_0000 && FeedBits(Number(0xB439_EDEE, 32), 0x34, 8) == Number(0x3AF8_3826, 32)
  {
    hide Number, FeedBits, Xor;
    assert Step(0xB439_EDEE, false) == 0x6CB2_C66B && Step(0x6CB2_C66B, false) == 0xD965_8CD6;
    assert Step(0xD965_8CD6, true) == 0xB2CB_19AC && Step(0xB2CB_19AC, false) == 0x6157_2EEF;
    assert Step(0x6157_2EEF, true) == 0xC66F_4069 && Step(0xC66F_4069, true) == 0x8CDE_80D2;
    assert Step(0x8CDE_80D2, false) == 0x1D7C_1C13 && Step(0x1D7C_1C13, false) == 0x3AF8_3826;
    hide *;
    EightSteps(0xB439_EDEE, 0x34, [false, false, true, false, true, true, false, false], 0x3AF8_3826);
  }

  lemma Character5()
    ensures Number(0x3AF8_3826, 32) < 0x1_0000_0000 && FeedBits(Number(0x3AF8_3826, 32), 0x35, 8) == Number(0xC7A3_502C, 32)
  {
    hide Number, FeedBits, Xor;
    assert Step(0x3AF8_3826, true) == 0x7131_6DFB && Step(0x7131_6DFB, false) == 0xE262_DBF6;
    assert Step(0xE262_DBF6, true) == 0xC4C5_B7EC && Step(0xC4C5_B7EC, false) == 0x8D4A_726F;
    assert Step(0x8D4A_726F, true) == 0x1A94_E4DE && Step(0x1A94_E4DE, true) == 0x31E8_D40B;
    assert Step(0x31E8_D40B, false) == 0x63D1_A816 && Step(0x63D1_A816, false) == 0xC7A3_502C;
    hide *;
    EightSteps(0x3AF8_3826, 0x35, [true, false, true, false, true, true, false, false], 0xC7A3_502C);
  }

  lemma Character6()
    ensures Number(0xC7A3_502C, 32) < 0x1_0000_0000 && FeedBits(Number(0xC7A3_502C, 32), 0x36, 8) == Number(0x7934_B16F, 32)
  {
    hide Number, FeedBits, Xor;
    assert Step(0xC7A3_502C, false) == 0x8B87_BDEF && Step(0x8B87_BDEF, true) == 0x170F_7BDE;
    assert Step(0x170F_7BDE, true) == 0x2ADF_EA0B && Step(0x2ADF_EA0B, false) == 0x55BF_D416;
    assert Step(0x55BF_D416, true) == 0xAFBE_B59B && Step(0xAFBE_B59B, true) == 0x5F7D_6B36;
    assert Step(0x5F7D_6B36, false) == 0xBEFA_D66C && Step(0xBEFA_D66C, false) == 0x7934_B16F;
    hide *;
    EightSteps(0xC7A3_502C, 0x36, [false, true, true, false, true, true, false, false], 0x7934_B16F);
  }

  lemma Character7()
    ensures Number(0x7934_B16F, 32) < 0x1_0000_0000 && FeedBits(Number(0x7934_B16F, 32), 0x37, 8) == Number(0x0669_3FF5, 32)
  {
    hide Number, FeedBits, Xor;
    assert Step(0x7934_B16F, true) == 0xF6A8_7F69 && Step(0xF6A8_7F69, true) == 0xED50_FED2;
    assert Step(0xED50_FED2, true) == 0xDAA1_FDA4 && Step(0xDAA1_FDA4, false) == 0xB182_E6FF;
    assert Step(0xB182_E6FF, true) == 0x6305_CDFE && Step(0x6305_CDFE, true) == 0xC2CA_864B;
    assert Step(0xC2CA_864B, false) == 0x8154_1121 && Step(0x8154_1121, false) == 0x0669_3FF5;
    hide *;
    EightSteps(0x7934_B16F, 0x37, [true, true, true, false, true, true, false, false], 0x0669_3FF5);
  }

  lemma Character8()
    ensures Number(0x0669_3FF5, 32) < 0x1_0000_0000 && FeedBits(Number(0x0669_3FF5, 32), 0x38, 8) == Number(0x0AA4_F8A6, 32)
  {
    hide Number, FeedBits, Xor;
    assert Step(0x0669_3FF5, false) == 0x0CD2_7FEA && Step(0x0CD2_7FEA, false) == 0x19A4_FFD4;
    assert Step(0x19A4_FFD4, false) == 0x3349_FFA8 && Step(0x3349_FFA8, true) == 0x6252_E2E7;
    assert Step(0x6252_E2E7, true) == 0xC064_D879 && Step(0xC064_D879, true) == 0x80C9_B0F2;
    assert Step(0x80C9_B0F2, false) == 0x0552_7C53 && Step(0x0552_7C53, false) == 0x0AA4_F8A6;
    hide *;
    EightSteps(0x0669_3FF5, 0x38, [false, false, false, true, true, true, false, false], 0x0AA4_F8A6);
  }

  lemma Character9()
    ensures Number(0x0AA4_F8A6, 32) < 0x1_0000_0000 && FeedBits(Number(0x0AA4_F8A6, 32), 0x39, 8) == Number(0x9B63_D02C, 32)
  {
    hide Number, FeedBits, Xor;
    assert Step(0x0AA4_F8A6, true) == 0x1188_ECFB && Step(0x1188_ECFB, false) == 0x2311_D9F6;
    assert Step(0x2311_D9F6, false) == 0x4623_B3EC && Step(0x4623_B3EC, true) == 0x8886_7A6F;
    assert Step(0x8886_7A6F, true) == 0x110C_F4DE && Step(0x110C_F4DE, true) == 0x26D8_F40B;
    assert Step(0x26D8_F40B, false) == 0x4DB1_E816 && Step(0x4DB1_E816, false) == 0x9B63_D02C;
    hide *;
    EightSteps(0x0AA4_F8A6, 0x39, [true, false, false, true, true, true, false, false], 0x9B63_D02C);
  }

  lemma CheckStep(n: nat)
    requires n < 9
    ensures Number(Register(n), 32) < 0x1_0000_0000 && FeedBits(Number(Register(n), 32), CHECK[n], 8) == Number(Register(n + 1), 32)
  {
    hide Number, FeedBits;
    StepIs(Register(n), 0);
    match n
    case 0 => Character1();
    case 1 => Character2();
    case 2 => Character3();
    case 3 => Character4();
    case 4 => Character5();
    case 5 => Character6();
    case 6 => Character7();
    case 7 => Character8();
    case _ => Character9();
  }

  /** The CRC of 123456789, before the bits are reversed; reversed it is 0xCBF4_3926. */
  lemma CheckValue()
    ensures Crc(CHECK) == 0x649C_2FD3
  {
    hide Number, FeedBytes;
    RegisterIs(9);
    WordsUsed();
    assert CHECK[..9] == CHECK;
  }
}
