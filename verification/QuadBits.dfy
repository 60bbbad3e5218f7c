/** A decQuad's words from digits, and digits from words (decFloatFromBCD and decFloatToBCD,
    decCommon.c:580-649 and 1194-1210, with DECCOMBFROM 152-161 and GETCOEFF decNumberLocal.h:615-632). */
module QuadBits {
  import opened Arith
  import opened DecFloats
  import opened Bcd
  import opened Words
  import opened Gf2Poly
  import opened BitFields
  import opened Declets
  import opened Dpd
  import opened Interchange
  import opened Decimal128

  const DECFLOAT_SIGN := 0x8000_0000
  const DECFLOAT_INF := 0x7800_0000
  const DECFLOAT_QNAN := 0x7c00_0000
  const DECFLOAT_SNAN := 0x7e00_0000

  // The rows of DECCOMBFROM, one for each value of the leading exponent bits.
  const ROW0: seq<nat> := [
    0x0000_0000, 0x0400_0000, 0x0800_0000, 0x0C00_0000, 0x1000_0000, 0x1400_0000, 0x1800_0000, 0x1C00_0000,
    0x6000_0000, 0x6400_0000, 0, 0, 0, 0, 0, 0]
  const ROW1: seq<nat> := [
    0x2000_0000, 0x2400_0000, 0x2800_0000, 0x2C00_0000, 0x3000_0000, 0x3400_0000, 0x3800_0000, 0x3C00_0000,
    0x6800_0000, 0x6C00_0000, 0, 0, 0, 0, 0, 0]
  const ROW2: seq<nat> := [
    0x4000_0000, 0x4400_0000, 0x4800_0000, 0x4C00_0000, 0x5000_0000, 0x5400_0000, 0x5800_0000, 0x5C00_0000,
    0x7000_0000, 0x7400_0000, 0, 0, 0, 0, 0, 0]
  const DECCOMBFROM: seq<nat> := ROW0 + ROW1 + ROW2

  lemma CombFromTable(top: nat, msd: nat)
    requires top <= 2 && msd <= 9
    ensures |DECCOMBFROM| == 48 && DECCOMBFROM[16 * top + msd] == 0x400_0000 * CombOf(top, msd)
  {
    Rows();
    CombFromRow(msd);
    hide ROW0, ROW1, ROW2;
    TableRow(ROW0, ROW1, ROW2, top, msd);
  }

  lemma Rows()
    ensures |ROW0| == |ROW1| == |ROW2| == 16
  {
  }

  lemma TableRow(a: seq<nat>, b: seq<nat>, c: seq<nat>, top: nat, msd: nat)
    requires |a| == |b| == |c| == 16 && top <= 2 && msd <= 9
    ensures (a + b + c)[16 * top + msd] == if top == 0 then a[msd] else if top == 1 then b[msd] else c[msd]
  {
  }

  lemma CombFromRow(msd: nat)
    requires msd <= 9
    ensures |ROW0| == |ROW1| == |ROW2| == 16
    ensures ROW0[msd] == 0x400_0000 * CombOf(0, msd)
    ensures ROW1[msd] == 0x400_0000 * CombOf(1, msd)
    ensures ROW2[msd] == 0x400_0000 * CombOf(2, msd)
  {
  }

  // ---- or-ing words together ----

  lemma {:induction false} ShrIsQuotient(a: nat, k: nat)
    ensures Shr(a, k) == a / Pow2(k)
  {
    hide Shr, Pow2;
    SplitBits(a, k);
    ShlIsProduct(Shr(a, k), k);
    DivModUnique(a, Pow2(k), Shr(a, k), LowBits(a, k));
  }

  /** Or-ing what fits below the last set bit. */
  lemma OrOnto(a: nat, h: nat, p: nat, k: nat, b: nat)
    requires p == Pow2(k) && a == p * h && b < p
    ensures Or(a, b) == a + b
  {
    hide Or, Shl, Pow2;
    ShlIsProduct(h, k);
    OrDisjoint(b, h, k);
    OrComm(a, b);
  }

  /** Four parts of a word, two declets between the ends. */
  lemma WordParts(k: nat, p: nat, h: nat, x: nat, y: nat, z: nat)
    requires p == Pow2(k) && x < 1024 && y < 1024 && z < p
    ensures Or(Or(Or(p * 1024 * 1024 * h, p * 1024 * x), p * y), z) == p * 1024 * 1024 * h + p * 1024 * x + p * y + z
  {
    hide Or, Pow2;
    TenBits();
    Pow2Add(k, 10);
    Pow2Add(k + 10, 10);
    var a := p * 1024 * 1024 * h;
    Fits(p, x, y);
    OrOnto(a, h, p * 1024 * 1024, k + 20, p * 1024 * x);
    Factor(p, h, x, y);
    OrOnto(a + p * 1024 * x, 1024 * h + x, p * 1024, k + 10, p * y);
    OrOnto(a + p * 1024 * x + p * y, (1024 * h + x) * 1024 + y, p, k, z);
  }

  lemma Fits(p: nat, x: nat, y: nat)
    requires x < 1024 && y < 1024 && p > 0
    ensures p * 1024 * x < p * 1024 * 1024 && p * y < p * 1024
  {
    MulStrict(y, 1024, p);
    MulStrict(x, 1024, p * 1024);
  }

  lemma Factor(p: nat, h: nat, x: nat, y: nat)
    ensures p * 1024 * 1024 * h + p * 1024 * x == p * 1024 * (1024 * h + x)
    ensures p * 1024 * 1024 * h + p * 1024 * x + p * y == p * ((1024 * h + x) * 1024 + y)
  {
  }

  // ---- digits to declets ----

  /** BCD2DPD of three digits. */
  function Bcd2Dpd(n: nat): nat {
    n % 16 + 10 * (n / 16 % 16) + 100 * (n / 256)
  }

  function ZeroCells(n: nat): (z: seq<nat>)
    ensures |z| == n && AllEqual(z, 0)
  {
    seq(n, _ => 0)
  }

  /** Digits with zeros in front, to full length. */
  function Padded(s: seq<nat>): (p: seq<nat>)
    requires |s| <= 34
    ensures |p| == 34
  {
    ZeroCells(34 - |s|) + s
  }

  /** getDPDt: declet n of the digits, in which some or all digits may be missing. With all 34 there, the middle
      branch is always taken, and that is getDPDb. */
  method GetDeclet(s: seq<nat>, n: nat) returns (dpd: nat)
    requires |s| <= 34 && Digits(s) && n <= 10
    ensures dpd == DecletOf(Padded(s), n) < 1000
  {
    var ub := |s| - 1 - 3 * n - 2;
    ghost var p := Padded(s);
    assert forall k: nat :: k < 34 ==> p[k] == if k < 34 - |s| then 0 else s[k - (34 - |s|)];
    if ub < -2 {
      dpd := 0;
    } else if ub >= 0 {
      dpd := Bcd2Dpd(s[ub] * 256 + s[ub + 1] * 16 + s[ub + 2]);
      ThreeNibbles(s[ub], s[ub + 1], s[ub + 2]);
    } else {
      dpd := s[ub + 2];
      if ub + 1 == 0 {
        dpd := dpd + s[ub + 1] * 16;
        ThreeNibbles(0, s[ub + 1], s[ub + 2]);
      } else {
        ThreeNibbles(0, 0, s[ub + 2]);
      }
      dpd := Bcd2Dpd(dpd);
    }
  }

  lemma ThreeNibbles(a: nat, b: nat, c: nat)
    requires a <= 9 && b <= 9 && c <= 9
    ensures Bcd2Dpd(a * 256 + b * 16 + c) == 100 * a + 10 * b + c
  {
    var n := a * 256 + b * 16 + c;
    DivModUnique(n, 256, a, b * 16 + c);
    DivModUnique(n, 16, a * 16 + b, c);
    DivModUnique(a * 16 + b, 16, a, b);
  }

  /** The three digits of a declet. */
  function DecletOf(s: seq<nat>, n: nat): nat
    requires 3 * n + 3 <= |s|
  {
    100 * s[|s| - 3 - 3 * n] + 10 * s[|s| - 2 - 3 * n] + s[|s| - 1 - 3 * n]
  }

  /** The declets of the last 3 * n digits, lowest first. */
  function DecletsOf(s: seq<nat>, n: nat): seq<nat>
    requires 3 * n <= |s|
  {
    seq(n, k requires 0 <= k < n => DecletOf(s, k))
  }

  lemma {:induction false} DecletsOfDigits(s: seq<nat>, n: nat)
    requires |s| == 3 * n && Digits(s)
    ensures Thousands(DecletsOf(s, n)) && NumThou(DecletsOf(s, n)) == Val(s)
  {
    if n > 0 {
      var m := |s| - 3;
      var t := s[..m];
      var d := DecletsOf(s, n);
      DecletsOfDigits(t, n - 1);
      assert d[1..] == DecletsOf(t, n - 1);
      LastThree(s);
      assert forall k: nat :: k < |d| ==> d[k] == if k == 0 then d[0] else d[1..][k - 1];
    }
  }

  lemma LastThree(s: seq<nat>)
    requires |s| >= 3 && Digits(s)
    ensures Val(s) == 1000 * Val(s[..|s| - 3]) + DecletOf(s, 0) && DecletOf(s, 0) < 1000
  {
    var n := |s|;
    assert s[..n - 1][..n - 2] == s[..n - 2] && s[..n - 2][..n - 3] == s[..n - 3];
    assert Val(s[..n - 1]) == 10 * Val(s[..n - 2]) + s[n - 2];
    assert Val(s[..n - 2]) == 10 * Val(s[..n - 3]) + s[n - 3];
  }

  /** The declets of a full coefficient after its leading digit. */
  function ElevenDeclets(s: seq<nat>): seq<nat>
    requires |s| == 34
  {
    DecletsOf(s[1..], 11)
  }

  lemma ElevenIs(s: seq<nat>)
    requires |s| == 34 && Digits(s)
    ensures |ElevenDeclets(s)| == 11 && Packed(ElevenDeclets(s)) == ToDeclets(Val(s[1..])) && Thousands(ElevenDeclets(s))
    ensures forall n: nat :: n <= 10 ==> ElevenDeclets(s)[n] == DecletOf(s, n)
  {
    DecletsOfDigits(s[1..], 11);
    PackedUnits(ElevenDeclets(s));
  }

  /** Eleven declets in four words. */
  lemma PackedInWords(d: seq<nat>, top: nat, w: seq<nat>)
    requires |d| == 11 && Thousands(d) && |w| == 4
    requires w[3] == 0x4000 * top + 16 * d[10] + d[9] / 64
    requires w[2] == 0x400_0000 * (d[9] % 64) + 0x1_0000 * d[8] + 64 * d[7] + d[6] / 16
    requires w[1] == 0x1000_0000 * (d[6] % 16) + 0x4_0000 * d[5] + 256 * d[4] + d[3] / 4
    requires w[0] == 0x4000_0000 * (d[3] % 4) + 0x10_0000 * d[2] + 1024 * d[1] + d[0]
    ensures WordsVal(w) == Packed(d) + COEFFICIENT_BITS * top
  {
    hide WordsVal;
    FourWords(w);
    PackedEleven(d);
  }

  lemma PackedFour(d: seq<nat>)
    requires |d| >= 4
    ensures Packed(d) == d[0] + 0x400 * d[1] + 0x10_0000 * d[2] + 0x4000_0000 * d[3] + 0x100_0000_0000 * Packed(d[4..])
  {
    assert d[1..][1..] == d[2..] && d[2..][1..] == d[3..] && d[3..][1..] == d[4..];
    assert Packed(d[3..]) == d[3] + 1024 * Packed(d[4..]);
    assert Packed(d[2..]) == d[2] + 1024 * Packed(d[3..]);
    assert Packed(d[1..]) == d[1] + 1024 * Packed(d[2..]);
  }

  lemma PackedEleven(d: seq<nat>)
    requires |d| == 11
    ensures Packed(d) == d[0] + 0x400 * d[1] + 0x10_0000 * d[2] + 0x4000_0000 * d[3]
      + 0x100_0000_0000 * (d[4] + 0x400 * d[5] + 0x10_0000 * d[6] + 0x4000_0000 * d[7]
      + 0x100_0000_0000 * (d[8] + 0x400 * d[9] + 0x10_0000 * d[10]))
  {
    hide Packed;
    PackedFour(d);
    PackedFour(d[4..]);
    assert d[4..][4..] == d[8..];
    PackedThree(d[8..]);
  }

  lemma PackedThree(d: seq<nat>)
    requires |d| == 3
    ensures Packed(d) == d[0] + 0x400 * d[1] + 0x10_0000 * d[2]
  {
    assert d[1..][1..] == d[2..] && d[2..][1..] == [];
    assert Packed(d[2..]) == d[2] + 1024 * Packed([]);
    assert Packed(d[1..]) == d[1] + 1024 * Packed(d[2..]);
  }

  // ---- from digits ----

  predicate ValidExponent(exp: int) {
    exp == DECFLOAT_INF || exp == DECFLOAT_QNAN || exp == DECFLOAT_SNAN || -BIAS <= exp <= EHIGH - BIAS
  }

  /** The datum that an exponent, or special value, and digits stand for. */
  function DatumOf(exp: int, s: seq<nat>, sign: bool): DecFloat
    requires |s| == 34
  {
    if exp == DECFLOAT_INF then Infinity(sign)
    else if exp == DECFLOAT_QNAN then NaN(sign, false, Val(s[1..]))
    else if exp == DECFLOAT_SNAN then NaN(sign, true, Val(s[1..]))
    else Finite(sign, Val(s), exp)
  }

  /** The fields above the declets. */
  function HighFields(exp: int, msd: nat, sign: bool): Fields
    requires ValidExponent(exp)
  {
    if exp == DECFLOAT_INF then Fields(sign, 30, 0, 0)
    else if exp == DECFLOAT_QNAN then Fields(sign, 31, 0, 0)
    else if exp == DECFLOAT_SNAN then Fields(sign, 31, 2048, 0)
    else Fields(sign, CombOf((exp + BIAS) / 4096, msd), (exp + BIAS) % 4096, 0)
  }

  /** The sign, combination field and exponent continuation. */
  method EncodeTop(exp: int, msd: nat, sig: nat) returns (encode: nat)
    requires ValidExponent(exp) && msd <= 9 && (sig == 0 || sig == DECFLOAT_SIGN)
    ensures encode == TopWord(0, HighFields(exp, msd, sig != 0))
  {
    hide Or, CombOf;
    if exp >= DECFLOAT_INF {
      encode := Or(exp, sig);
      SignBit(exp, sig);
    } else {
      var uexp: nat := exp + BIAS;
      var code := uexp / 0x1000 * 16;
      code := code + msd;
      CombFromTable(uexp / 0x1000, msd);
      CombParts(uexp / 0x1000, msd);
      encode := Or(DECCOMBFROM[code], sig);
      SignBit(DECCOMBFROM[code], sig);
      ContinuationBits(uexp);
      OrContinuation(encode, CombOf(uexp / 0x1000, msd), sig, uexp % 0x1000);
      encode := Or(encode, uexp * 0x4000 % 0x400_0000);
    }
  }

  lemma SignBit(a: nat, sig: nat)
    requires a < DECFLOAT_SIGN && (sig == 0 || sig == DECFLOAT_SIGN)
    ensures Or(a, sig) == a + sig
  {
    hide Or;
    if sig == 0 {
      OrZero(a);
    } else {
      OrSign(a);
    }
  }

  lemma ContinuationBits(uexp: nat)
    ensures uexp * 0x4000 % 0x400_0000 == uexp % 0x1000 * 0x4000
  {
    DivModUnique(uexp * 0x4000, 0x400_0000, uexp / 0x1000, uexp % 0x1000 * 0x4000);
  }

  lemma OrContinuation(a: nat, comb: nat, sig: nat, econ: nat)
    requires a == 0x400_0000 * comb + sig && (sig == 0 || sig == DECFLOAT_SIGN) && econ < 0x1000
    ensures Or(a, econ * 0x4000) == a + econ * 0x4000
  {
    hide Or, Pow2;
    PowersUsed();
    OrOnto(a, comb + (if sig == 0 then 0 else 32), 0x400_0000, 26, econ * 0x4000);
  }

  /** The shifts of declets to and over the ends of words. */
  lemma DecletShifts(d: nat)
    requires d < 1024
    ensures Shl(d, 4) == 16 * d && Shl(d, 16) == 0x1_0000 * d && Shl(d, 6) == 64 * d
    ensures Shl(d, 18) == 0x4_0000 * d && Shl(d, 8) == 256 * d && Shl(d, 20) == 0x10_0000 * d && Shl(d, 10) == 1024 * d
    ensures Shr(d, 6) == d / 64 && Shr(d, 4) == d / 16 && Shr(d, 2) == d / 4
    ensures Low32(Shl(d, 26)) == 0x400_0000 * (d % 64)
    ensures Low32(Shl(d, 28)) == 0x1000_0000 * (d % 16)
    ensures Low32(Shl(d, 30)) == 0x4000_0000 * (d % 4)
  {
    hide Shl, Shr, Pow2;
    SmallSpans();
    ShlIsProduct(d, 4);
    ShlIsProduct(d, 6);
    ShlIsProduct(d, 8);
    ShlIsProduct(d, 10);
    ShlIsProduct(d, 16);
    ShlIsProduct(d, 18);
    ShlIsProduct(d, 20);
    ShlIsProduct(d, 26);
    ShlIsProduct(d, 28);
    ShlIsProduct(d, 30);
    ShrIsQuotient(d, 2);
    ShrIsQuotient(d, 4);
    ShrIsQuotient(d, 6);
    TopBits(d, 64, 0x400_0000);
    TopBits(d, 16, 0x1000_0000);
    TopBits(d, 4, 0x4000_0000);
  }

  /** The bits that a shift keeps in the word. */
  lemma TopBits(d: nat, n: nat, p: nat)
    requires n > 0 && n * p == 0x1_0000_0000
    ensures Low32(p * d) == p * (d % n)
  {
    assert p * (n * (d / n)) == n * p * (d / n);
    assert d == n * (d / n) + d % n;
    assert p * d == p * (n * (d / n)) + p * (d % n);
    MulStrict(d % n, n, p);
    DivModUnique(p * d, 0x1_0000_0000, d / n, p * (d % n));
  }

  lemma SmallSpans()
    ensures Pow2(2) == 4 && Pow2(4) == 16 && Pow2(6) == 64 && Pow2(8) == 256 && Pow2(10) == 0x400 && Pow2(16) == 0x1_0000
    ensures Pow2(18) == 0x4_0000 && Pow2(20) == 0x10_0000 && Pow2(26) == 0x400_0000
    ensures Pow2(28) == 0x1000_0000 && Pow2(30) == 0x4000_0000
  {
    hide Pow2;
    TenBits();
    TwoAndFour();
    Pow2Add(4, 4);
    Pow2Add(4, 2);
    Pow2Add(10, 6);
    Pow2Add(16, 2);
    Pow2Add(10, 10);
    Pow2Add(20, 6);
    Pow2Add(26, 2);
    Pow2Add(28, 2);
  }

  lemma TwoAndFour()
    ensures Pow2(2) == 4 && Pow2(4) == 16
  {
    assert Pow2(1) == 2;
  }

  lemma WordZero(encode: nat, top: nat, d10: nat, d9: nat)
    requires encode == 0x4000 * top < 0x1_0000_0000 && d10 < 1000 && d9 < 1000
    ensures Or(Or(encode, Shl(d10, 4)), Shr(d9, 6)) == 0x4000 * top + 16 * d10 + d9 / 64 < 0x1_0000_0000
  {
    hide Or, Shl, Shr, Pow2;
    assert Pow2(4) == 16 && Pow2(14) == 0x4000 by { SmallSpans(); PowersUsed(); }
    assert Shl(d10, 4) == 16 * d10 by { DecletShifts(d10); }
    assert Shr(d9, 6) == d9 / 64 by { DecletShifts(d9); }
    SixteenBelow(d10);
    OrOnto(encode, top, 0x4000, 14, 16 * d10);
    OrOnto(encode + 16 * d10, 1024 * top + d10, 16, 4, d9 / 64);
  }

  lemma SixteenBelow(d: nat)
    requires d < 1000
    ensures 16 * d < 0x4000
  {
  }

  lemma WordOne(d9: nat, d8: nat, d7: nat, d6: nat)
    requires d9 < 1000 && d8 < 1000 && d7 < 1000 && d6 < 1000
    ensures Or(Or(Or(Low32(Shl(d9, 26)), Shl(d8, 16)), Shl(d7, 6)), Shr(d6, 4))
         == 0x400_0000 * (d9 % 64) + 0x1_0000 * d8 + 64 * d7 + d6 / 16 < 0x1_0000_0000
  {
    hide Or, Shl, Shr, Pow2;
    SmallSpans();
    DecletShifts(d9);
    DecletShifts(d8);
    DecletShifts(d7);
    DecletShifts(d6);
    WordParts(6, 64, d9 % 64, d8, d7, d6 / 16);
  }

  lemma WordTwo(d6: nat, d5: nat, d4: nat, d3: nat)
    requires d6 < 1000 && d5 < 1000 && d4 < 1000 && d3 < 1000
    ensures Or(Or(Or(Low32(Shl(d6, 28)), Shl(d5, 18)), Shl(d4, 8)), Shr(d3, 2))
         == 0x1000_0000 * (d6 % 16) + 0x4_0000 * d5 + 256 * d4 + d3 / 4 < 0x1_0000_0000
  {
    hide Or, Shl, Shr, Pow2;
    SmallSpans();
    DecletShifts(d6);
    DecletShifts(d5);
    DecletShifts(d4);
    DecletShifts(d3);
    WordParts(8, 256, d6 % 16, d5, d4, d3 / 4);
  }

  lemma WordThree(d3: nat, d2: nat, d1: nat, d0: nat)
    requires d3 < 1000 && d2 < 1000 && d1 < 1000 && d0 < 1000
    ensures Or(Or(Or(Low32(Shl(d3, 30)), Shl(d2, 20)), Shl(d1, 10)), d0)
         == 0x4000_0000 * (d3 % 4) + 0x10_0000 * d2 + 1024 * d1 + d0 < 0x1_0000_0000
  {
    hide Or, Shl, Shr, Pow2;
    SmallSpans();
    DecletShifts(d3);
    DecletShifts(d2);
    DecletShifts(d1);
    WordParts(10, 1024, d3 % 4, d2, d1, d0);
  }

  /** Places the declets in the words; the first word, DFWORD 0, is stored last. */
  method PutDeclets(df: array<nat>, top14: nat, s: seq<nat>, ghost top: nat)
    requires df.Length == 4 && |s| <= 34 && Digits(s) && top14 == 0x4000 * top < 0x1_0000_0000
    modifies df
    ensures Words32(df[..]) && WordsVal(df[..]) == Packed(ElevenDeclets(Padded(s))) + COEFFICIENT_BITS * top
  {
    hide Or, Shl, Shr, Pow2, WordsVal, Packed, DecletOf, ElevenDeclets, Low32, Padded;
    ghost var d := ElevenDeclets(Padded(s));
    PaddedDigits(s);
    ElevenIs(Padded(s));
    var encode := top14;
    var dpd := GetDeclet(s, 10);
    encode := Or(encode, Shl(dpd, 4));
    dpd := GetDeclet(s, 9);
    encode := Or(encode, Shr(dpd, 6));
    WordZero(top14, top, d[10], d[9]);
    df[3] := encode;
    encode := Low32(Shl(dpd, 26));
    dpd := GetDeclet(s, 8);
    encode := Or(encode, Shl(dpd, 16));
    dpd := GetDeclet(s, 7);
    encode := Or(encode, Shl(dpd, 6));
    dpd := GetDeclet(s, 6);
    encode := Or(encode, Shr(dpd, 4));
    WordOne(d[9], d[8], d[7], d[6]);
    df[2] := encode;
    encode := Low32(Shl(dpd, 28));
    dpd := GetDeclet(s, 5);
    encode := Or(encode, Shl(dpd, 18));
    dpd := GetDeclet(s, 4);
    encode := Or(encode, Shl(dpd, 8));
    dpd := GetDeclet(s, 3);
    encode := Or(encode, Shr(dpd, 2));
    WordTwo(d[6], d[5], d[4], d[3]);
    df[1] := encode;
    encode := Low32(Shl(dpd, 30));
    dpd := GetDeclet(s, 2);
    encode := Or(encode, Shl(dpd, 20));
    dpd := GetDeclet(s, 1);
    encode := Or(encode, Shl(dpd, 10));
    dpd := GetDeclet(s, 0);
    encode := Or(encode, dpd);
    WordThree(d[3], d[2], d[1], d[0]);
    df[0] := encode;
    PackedInWords(d, top, df[..]);
  }

  lemma PaddedDigits(s: seq<nat>)
    requires |s| <= 34 && Digits(s)
    ensures Digits(Padded(s)) && Val(Padded(s)) == Val(s)
    ensures |s| == 34 ==> Padded(s) == s
    ensures |s| < 34 ==> Padded(s)[0] == 0 && Val(Padded(s)[1..]) == Val(s)
  {
    hide Val, Digits;
    ZerosInFront(ZeroCells(34 - |s|), s, Padded(s));
  }

  lemma ZerosInFront(z: seq<nat>, s: seq<nat>, p: seq<nat>)
    requires p == z + s && AllEqual(z, 0) && Digits(s)
    ensures Digits(p) && Val(p) == Val(s)
    ensures |z| == 0 ==> p == s
    ensures |z| > 0 ==> p[0] == 0 && Val(p[1..]) == Val(s)
  {
    hide Val;
    assert p[..|z|] == z && p[|z|..] == s;
    ValSkipZeros(p, |z|);
    if |z| > 0 {
      var q := p[1..];
      assert q[..|z| - 1] == z[1..] && q[|z| - 1..] == s;
      ValSkipZeros(q, |z| - 1);
    }
  }

  /** decFloatFromBCD, for a decQuad: the datum, whatever the digits of an infinity; the word is canonical
      unless those are not all zero. */
  method DecFloatFromBCD(df: array<nat>, exp: int, bcdar: array<nat>, sig: nat)
    requires df.Length == 4 && df != bcdar && bcdar.Length == 34 && Digits(bcdar[..])
    requires ValidExponent(exp) && (sig == 0 || sig == DECFLOAT_SIGN)
    modifies df
    ensures Words32(df[..]) && Decode128(WordsVal(df[..])) == DatumOf(exp, bcdar[..], sig != 0)
    ensures Canonical128(WordsVal(df[..])) <==> (exp == DECFLOAT_INF ==> AllEqual(bcdar[1..], 0))
  {
    hide WordsVal, TopWord, HighFields, Packed, ElevenDeclets, DatumOf, Canonical128, Decode128, Layout;
    ghost var x := HighFields(exp, bcdar[0], sig != 0);
    assert bcdar[0] == bcdar[..][0] && bcdar[1..] == bcdar[..][1..];
    var encode := EncodeTop(exp, bcdar[0], sig);
    ghost var top := TopOf(exp, bcdar[..], sig);
    PaddedDigits(bcdar[..]);
    PutDeclets(df, encode, bcdar[..], top);
    EncodedDatum(exp, bcdar[..], sig, WordsVal(df[..]));
  }

  /** The bits above the declets. */
  function TopOf(exp: int, s: seq<nat>, sig: nat): (t: nat)
    requires |s| == 34 && ValidExponent(exp) && Digits(s) && (sig == 0 || sig == DECFLOAT_SIGN)
    ensures TopWord(0, HighFields(exp, s[0], sig != 0)) == 0x4000 * t < 0x1_0000_0000
  {
    var x := HighFields(exp, s[0], sig != 0);
    HighFieldsWithin(exp, s[0], sig != 0);
    x.econ + 4096 * (x.comb + (if x.sign then 32 else 0))
  }

  lemma HighFieldsWithin(exp: int, msd: nat, sign: bool)
    requires ValidExponent(exp) && msd <= 9
    ensures var x := HighFields(exp, msd, sign); x.econ < 4096 && x.comb < 32 && x.declets == 0
    ensures -BIAS <= exp <= EHIGH - BIAS ==> (exp + BIAS) / 4096 <= 2
  {
    if -BIAS <= exp <= EHIGH - BIAS {
      CombParts((exp + BIAS) / 4096, msd);
    }
  }

  lemma EncodedDatum(exp: int, s: seq<nat>, sig: nat, v: nat)
    requires |s| == 34 && Digits(s) && ValidExponent(exp) && (sig == 0 || sig == DECFLOAT_SIGN)
    requires v == Packed(ElevenDeclets(s)) + COEFFICIENT_BITS * TopOf(exp, s, sig)
    ensures Decode128(v) == DatumOf(exp, s, sig != 0)
    ensures Canonical128(v) <==> (exp == DECFLOAT_INF ==> AllEqual(s[1..], 0))
  {
    hide Packed, ToDeclets, FromDeclets, ElevenDeclets, Val, Pow10, Pow2, CombOf, CombMsd, CombTop, Canonical, DecletSpan, ExpSpan, FieldsOf, Shift,
         Decode128, TopOf, Join;
    var x := EncodedFields(exp, s, sig, v);
    DecodedFields(v);
    LayoutsValid();
    JoinZero(x.declets);
    if exp == DECFLOAT_INF {
      ValZeroIff(s[1..]);
      ZeroDeclets(Val(s[1..]));
    } else if exp < DECFLOAT_INF {
      CombParts((exp + BIAS) / 4096, s[0]);
      LeadingDigit(QUAD, x.declets, s[0]);
      ValLeading(s);
    }
  }

  lemma EncodedFields(exp: int, s: seq<nat>, sig: nat, v: nat) returns (x: Fields)
    requires |s| == 34 && Digits(s) && ValidExponent(exp) && (sig == 0 || sig == DECFLOAT_SIGN)
    requires v == Packed(ElevenDeclets(s)) + COEFFICIENT_BITS * TopOf(exp, s, sig)
    ensures x == HighFields(exp, s[0], sig != 0).(declets := ToDeclets(Val(s[1..])))
    ensures Layout(QUAD) && FieldsOf(QUAD, v) == x && v < WordSpan(QUAD) && x.declets < COEFFICIENT_BITS
    ensures Canonical(x.declets) && FromDeclets(x.declets) == Val(s[1..])
    ensures -BIAS <= exp <= EHIGH - BIAS ==> (exp + BIAS) / 4096 <= 2
  {
    hide Packed, ToDeclets, FromDeclets, ElevenDeclets, Val, Pow10, Pow2, CombOf, Canonical, DecletSpan, ExpSpan, FieldsOf, Shift;
    LayoutsValid();
    ElevenIs(s);
    ValBound(s[1..]);
    DecletsBelow(Val(s[1..]), 11);
    Spans();
    DecletsRoundTrip(Val(s[1..]));
    HighFieldsWithin(exp, s[0], sig != 0);
    x := HighFields(exp, s[0], sig != 0).(declets := ToDeclets(Val(s[1..])));
    assert v == Assemble(QUAD, x);
    FieldsAssembled(QUAD, x);
  }

  /** An infinity given with the digit 1 is an infinity, but its word is not canonical. */
  lemma InfinityWithDigit()
    ensures var s: seq<nat> := seq(33, _ => 0) + [1];
            && |s| == 34 && Digits(s)
            && var v := Packed(ElevenDeclets(s)) + COEFFICIENT_BITS * TopOf(DECFLOAT_INF, s, 0);
               Decode128(v) == Infinity(false) && !Canonical128(v)
  {
    hide Packed, ElevenDeclets, Decode128, Canonical128;
    var s: seq<nat> := seq(33, _ => 0) + [1];
    EncodedDatum(DECFLOAT_INF, s, 0, Packed(ElevenDeclets(s)) + COEFFICIENT_BITS * TopOf(DECFLOAT_INF, s, 0));
    assert s[1..][32] == 1;
  }

  lemma ZeroDeclets(c: nat)
    ensures ToDeclets(c) == 0 <==> c == 0
  {
    DecletsRoundTrip(c);
  }

  // ---- to digits ----

  /** DPD2BCD8: the three digits of a declet, and in a fourth cell their count. */
  method PlaceDeclet(bcdar: array<nat>, at: nat, dpd: nat, cells: nat, ghost c: nat)
    requires 1 <= at && at + cells <= bcdar.Length && dpd < 1000 && 3 <= cells <= 4
    requires Digits(bcdar[..at]) && Val(bcdar[1..at]) == c
    modifies bcdar
    ensures Digits(bcdar[..at + 3]) && Val(bcdar[1..at + 3]) == 1000 * c + dpd && bcdar[0] == old(bcdar[0])
  {
    hide Val;
    ghost var s, t := bcdar[..at], bcdar[1..at];
    bcdar[at] := dpd / 100;
    bcdar[at + 1] := dpd / 10 % 10;
    bcdar[at + 2] := dpd % 10;
    if cells == 4 {
      bcdar[at + 3] := if dpd / 100 != 0 then 3 else if dpd / 10 % 10 != 0 then 2 else if dpd % 10 != 0 then 1 else 0;
    }
    ghost var three: seq<nat> := [dpd / 100, dpd / 10 % 10, dpd % 10];
    assert bcdar[..at + 3] == s + three;
    assert bcdar[1..at + 3] == t + three;
    ThreeDigits(t, dpd);
  }

  lemma ThreeDigits(t: seq<nat>, dpd: nat)
    requires dpd < 1000
    ensures Val(t + [dpd / 100, dpd / 10 % 10, dpd % 10]) == 1000 * Val(t) + dpd
  {
    var (a, b, c) := (dpd / 100, dpd / 10 % 10, dpd % 10);
    var s := t + [a, b, c];
    assert s[..|t| + 2] == t + [a, b] && (t + [a, b])[..|t| + 1] == t + [a] && (t + [a])[..|t|] == t;
    assert Val(t + [a]) == 10 * Val(t) + a;
    assert Val(t + [a, b]) == 10 * Val(t + [a]) + b;
    assert Val(s) == 10 * Val(t + [a, b]) + c;
  }

  /** The number of the declets from n on, of the eleven. */
  function Above(v: nat, n: nat): nat {
    FromDeclets(Shr(v % COEFFICIENT_BITS, 10 * n))
  }

  lemma {:induction false} CanonicalAboveDeclets(u: nat, n: nat)
    requires Canonical(u)
    ensures Canonical(Shr(u, 10 * n))
  {
    hide Shr, Pow2;
    if n == 0 {
      NoShift(u);
    } else {
      CanonicalAboveDeclets(u, n - 1);
      NextShift(u, n - 1, 10 * n);
    }
  }

  lemma NoShift(u: nat)
    ensures Shr(u, 0) == u
  {
  }

  lemma NextShift(u: nat, n: nat, p: nat)
    requires p == 10 * n + 10
    ensures Shr(u, p) == Shr(u, 10 * n) / 1024
  {
    hide Shr, Pow2;
    ShrAdd(u, 10 * n, 10);
    ShrIsQuotient(Shr(u, 10 * n), 10);
    TenBits();
  }

  /** The bits above the coefficient continuation do not matter to its declets. */
  lemma FieldBelow(v: nat, p: nat)
    requires p <= 100
    ensures FieldAt(v, p) == FieldAt(v % COEFFICIENT_BITS, p)
  {
    hide Shr, Shl, Pow2, LowBits;
    var (u, q) := (v % COEFFICIENT_BITS, v / COEFFICIENT_BITS);
    Spans();
    ShlIsProduct(q, 110);
    ShlAdd(q, 110 - p, p);
    SplitBits(u, p);
    ShlSum(Shr(u, p), Shl(q, 110 - p), p);
    UniqueBits(v, p, Shr(u, p) + Shl(q, 110 - p), LowBits(u, p));
    TenZeroBits(q, 110 - p);
    SumMod(Shr(u, p), Shl(q, 110 - p));
  }

  lemma DecletAbove(v: nat, n: nat, n': nat)
    requires Canonical(v % COEFFICIENT_BITS) && n <= 10 && n' == n + 1
    ensures FieldAt(v, 10 * n) < 1000 && Above(v, n) == 1000 * Above(v, n') + FieldAt(v, 10 * n)
  {
    hide Shr, Canonical, FromDeclets;
    var u := v % COEFFICIENT_BITS;
    FieldBelow(v, 10 * n);
    CanonicalAboveDeclets(u, n);
    NextShift(u, n, 10 * n');
    NextDeclet(Shr(u, 10 * n));
  }

  /** Nothing is above the eleven declets. */
  lemma NothingAboveDeclets(v: nat)
    ensures Above(v, 11) == 0 && Above(v, 0) == FromDeclets(v % COEFFICIENT_BITS)
  {
    hide Shr, Pow2;
    Spans();
    ShrIsQuotient(v % COEFFICIENT_BITS, 110);
    NoShift(v % COEFFICIENT_BITS);
  }

  const DECCOMBMSD: seq<nat> := COMBMSDROW + COMBMSDROW
  const COMBMSDROW: seq<nat> := [
    0, 1, 2, 3, 4, 5, 6, 7, 0, 1, 2, 3, 4, 5, 6, 7, 0, 1, 2, 3, 4, 5, 6, 7, 8, 9, 8, 9, 8, 9, 0, 0]

  lemma CombMsdTable(code: nat)
    requires code < 64
    ensures |DECCOMBMSD| == 64 && DECCOMBMSD[code] == CombMsd(code % 32) <= 9
  {
    hide COMBMSDROW, CombMsd;
    CombMsdRow(code % 32);
    TwoRows(COMBMSDROW, code);
  }

  lemma TwoRows(row: seq<nat>, code: nat)
    requires |row| == 32 && code < 64
    ensures (row + row)[code] == row[code % 32]
  {
  }

  lemma CombMsdRow(comb: nat)
    requires comb < 32
    ensures |COMBMSDROW| == 32 && COMBMSDROW[comb] == CombMsd(comb) <= 9
  {
  }

  /** Places declet n, after those above it. */
  method PlaceNext(bcdar: array<nat>, at: nat, dpd: nat, cells: nat, ghost v: nat, ghost n: nat)
    requires bcdar.Length == 34 && n <= 10 && at == 31 - 3 * n && cells == if n == 0 then 3 else 4
    requires Canonical(v % COEFFICIENT_BITS) && dpd == FieldAt(v, 10 * n)
    requires Digits(bcdar[..at]) && Val(bcdar[1..at]) == Above(v, n + 1)
    modifies bcdar
    ensures Digits(bcdar[..at + 3]) && Val(bcdar[1..at + 3]) == Above(v, n) && bcdar[0] == old(bcdar[0])
  {
    hide Val, Canonical, Above, FieldAt, Digits;
    DecletAbove(v, n, n + 1);
    PlaceDeclet(bcdar, at, dpd, cells, Above(v, n + 1));
  }

  lemma HighReads(w: seq<nat>)
    requires |w| == 4 && Words32(w)
    ensures var v := WordsVal(w);
            && Shr(w[3], 4) % 1024 == FieldAt(v, 100)
            && Or(Low32(Shl(w[3], 6)), Shr(w[2], 26)) % 1024 == FieldAt(v, 90)
            && Shr(w[2], 16) % 1024 == FieldAt(v, 80)
            && Shr(w[2], 6) % 1024 == FieldAt(v, 70)
            && Or(Low32(Shl(w[2], 4)), Shr(w[1], 28)) % 1024 == FieldAt(v, 60)
  {
    hide Shr, Shl, Or, WordsVal, FieldAt, Low32;
    FieldInWord(w, 3, 4);
    FieldAcrossWords(w, 2, 26);
    OrComm(Low32(Shl(w[3], 6)), Shr(w[2], 26));
    FieldInWord(w, 2, 16);
    FieldInWord(w, 2, 6);
    FieldAcrossWords(w, 1, 28);
    OrComm(Low32(Shl(w[2], 4)), Shr(w[1], 28));
  }

  lemma LowReads(w: seq<nat>)
    requires |w| == 4 && Words32(w)
    ensures var v := WordsVal(w);
            && Shr(w[1], 18) % 1024 == FieldAt(v, 50)
            && Shr(w[1], 8) % 1024 == FieldAt(v, 40)
            && Or(Low32(Shl(w[1], 2)), Shr(w[0], 30)) % 1024 == FieldAt(v, 30)
            && Shr(w[0], 20) % 1024 == FieldAt(v, 20)
            && Shr(w[0], 10) % 1024 == FieldAt(v, 10)
            && w[0] % 1024 == FieldAt(v, 0)
  {
    NoShift(w[0]);
    hide Shr, Shl, Or, WordsVal, FieldAt, Low32;
    FieldInWord(w, 1, 18);
    FieldInWord(w, 1, 8);
    FieldAcrossWords(w, 0, 30);
    OrComm(Low32(Shl(w[1], 2)), Shr(w[0], 30));
    FieldInWord(w, 0, 20);
    FieldInWord(w, 0, 10);
    FieldInWord(w, 0, 0);
  }

  method GetHighDeclets(df: array<nat>, bcdar: array<nat>)
    requires df.Length == 4 && Words32(df[..]) && bcdar.Length == 34 && df != bcdar
    requires Canonical(WordsVal(df[..]) % COEFFICIENT_BITS) && bcdar[0] <= 9
    modifies bcdar
    ensures Digits(bcdar[..16]) && Val(bcdar[1..16]) == Above(WordsVal(df[..]), 6) && bcdar[0] == old(bcdar[0])
  {
    hide Val, Canonical, WordsVal, Shr, Shl, Or, Above, FieldAt, Low32;
    ghost var v := WordsVal(df[..]);
    NothingAboveDeclets(v);
    EmptyDigits(bcdar[1..1]);
    HighReads(df[..]);
    var (hi, mh, ml) := (df[3], df[2], df[1]);
    PlaceNext(bcdar, 1, Shr(hi, 4) % 1024, 4, v, 10);
    PlaceNext(bcdar, 4, Or(Low32(Shl(hi, 6)), Shr(mh, 26)) % 1024, 4, v, 9);
    PlaceNext(bcdar, 7, Shr(mh, 16) % 1024, 4, v, 8);
    PlaceNext(bcdar, 10, Shr(mh, 6) % 1024, 4, v, 7);
    PlaceNext(bcdar, 13, Or(Low32(Shl(mh, 4)), Shr(ml, 28)) % 1024, 4, v, 6);
  }

  lemma EmptyDigits(s: seq<nat>)
    requires s == []
    ensures Val(s) == 0
  {
  }

  method GetLowDeclets(df: array<nat>, bcdar: array<nat>)
    requires df.Length == 4 && Words32(df[..]) && bcdar.Length == 34 && df != bcdar
    requires Canonical(WordsVal(df[..]) % COEFFICIENT_BITS)
    requires Digits(bcdar[..16]) && Val(bcdar[1..16]) == Above(WordsVal(df[..]), 6)
    modifies bcdar
    ensures Digits(bcdar[..34]) && Val(bcdar[1..34]) == Above(WordsVal(df[..]), 0) && bcdar[0] == old(bcdar[0])
  {
    hide Val, Canonical, WordsVal, Shr, Shl, Or, Above, FieldAt, Low32, Digits;
    ghost var v := WordsVal(df[..]);
    LowReads(df[..]);
    var (ml, lo) := (df[1], df[0]);
    PlaceNext(bcdar, 16, Shr(ml, 18) % 1024, 4, v, 5);
    PlaceNext(bcdar, 19, Shr(ml, 8) % 1024, 4, v, 4);
    PlaceNext(bcdar, 22, Or(Low32(Shl(ml, 2)), Shr(lo, 30)) % 1024, 4, v, 3);
    PlaceNext(bcdar, 25, Shr(lo, 20) % 1024, 4, v, 2);
    PlaceNext(bcdar, 28, Shr(lo, 10) % 1024, 4, v, 1);
    PlaceNext(bcdar, 31, lo % 1024, 3, v, 0);
  }

  /** GETCOEFF: the leading digit and eleven declets. */
  method GetCoeff(df: array<nat>, bcdar: array<nat>)
    requires df.Length == 4 && Words32(df[..]) && bcdar.Length == 34 && df != bcdar
    requires Canonical(WordsVal(df[..]) % COEFFICIENT_BITS)
    modifies bcdar
    ensures Digits(bcdar[..]) && bcdar[0] == CombMsd(df[3] / 0x400_0000 % 32)
    ensures Val(bcdar[1..]) == FromDeclets(WordsVal(df[..]) % COEFFICIENT_BITS)
  {
    hide Val, FromDeclets, Canonical, WordsVal, Above, CombMsd;
    assert df[3] / 0x400_0000 < 64 by {
      assert df[..][3] < 0x1_0000_0000;
    }
    CombMsdTable(df[3] / 0x400_0000);
    bcdar[0] := DECCOMBMSD[df[3] / 0x400_0000];
    GetHighDeclets(df, bcdar);
    GetLowDeclets(df, bcdar);
    NothingAboveDeclets(WordsVal(df[..]));
    assert bcdar[..34] == bcdar[..] && bcdar[1..34] == bcdar[1..];
  }

  const COMBEXPROW: seq<nat> := [
    0, 0, 0, 0, 0, 0, 0, 0, 0x1000, 0x1000, 0x1000, 0x1000, 0x1000, 0x1000, 0x1000, 0x1000,
    0x2000, 0x2000, 0x2000, 0x2000, 0x2000, 0x2000, 0x2000, 0x2000, 0, 0, 0x1000, 0x1000, 0x2000, 0x2000,
    DECFLOAT_INF, DECFLOAT_QNAN]
  const DECCOMBEXP: seq<nat> := COMBEXPROW + COMBEXPROW

  lemma CombExpTable(code: nat)
    requires code < 64
    ensures |DECCOMBEXP| == 64 && (code % 32 < 30 ==> DECCOMBEXP[code] == 0x1000 * CombTop(code % 32))
  {
    hide COMBEXPROW, CombTop;
    CombExpRow(code % 32);
    TwoRows(COMBEXPROW, code);
  }

  lemma CombExpRow(comb: nat)
    requires comb < 32
    ensures |COMBEXPROW| == 32 && (comb < 30 ==> COMBEXPROW[comb] == 0x1000 * CombTop(comb))
  {
  }

  /** An infinity in whose top word the bit is set that tells the two kinds of NaN apart. */
  predicate StrayInfinity(h: nat) {
    h / 0x400_0000 % 0x20 == 30 && h / 0x200_0000 % 2 == 1
  }

  /** decFloatToBCD, for a decQuad: the datum held; only an infinity with a stray bit shows it in the exponent. */
  method DecFloatToBCD(df: array<nat>, bcdar: array<nat>) returns (exp: int, sig: nat)
    requires df.Length == 4 && Words32(df[..]) && bcdar.Length == 34 && df != bcdar
    requires Canonical(WordsVal(df[..]) % COEFFICIENT_BITS)
    modifies bcdar
    ensures Digits(bcdar[..]) && (sig == 0 || sig == DECFLOAT_SIGN)
    ensures !StrayInfinity(df[3]) ==> ValidExponent(exp) && DatumOf(exp, bcdar[..], sig != 0) == Decode128(WordsVal(df[..]))
    ensures StrayInfinity(df[3])
        ==> && exp == DECFLOAT_INF + 0x200_0000 && AllEqual(bcdar[..], 0) && Decode128(WordsVal(df[..])) == Infinity(sig != 0)
            && !Canonical128(WordsVal(df[..]))
  {
    hide Val, FromDeclets, Canonical, WordsVal, CombMsd, CombTop, Digits, DatumOf, Decode128, Canonical128, ValidExponent, AllEqual;
    ghost var v := WordsVal(df[..]);
    var w := df[3];
    HeadBits(df[..]);
    if w / 0x400_0000 % 0x20 == 30 {
      ClearDigits(bcdar);
      exp := w / 0x200_0000 % 0x40 * 0x200_0000;
    } else {
      GetCoeff(df, bcdar);
      if w / 0x400_0000 % 0x20 == 31 {
        ghost var s := bcdar[..];
        bcdar[0] := 0;
        assert bcdar[..] == s[0 := 0] && bcdar[1..] == s[1..];
        ClearedFirst(s);
        exp := w / 0x200_0000 % 0x40 * 0x200_0000;
      } else {
        CombExpTable(w / 0x400_0000);
        exp := DECCOMBEXP[w / 0x400_0000] + w % 0x400_0000 / 0x4000 - BIAS;
      }
    }
    sig := w / 0x8000_0000 * 0x8000_0000;
    ReadDatum(df[..], exp, bcdar[..], sig);
  }

  lemma HeadBits(w: seq<nat>)
    requires |w| == 4 && Words32(w)
    ensures w[3] / 0x400_0000 < 64 && w[3] / 0x400_0000 % 0x20 < 0x20 && (w[3] / 0x8000_0000 == 0 || w[3] / 0x8000_0000 == 1)
    ensures w[3] % 0x400_0000 / 0x4000 == w[3] / 0x4000 % 0x1000
  {
    assert w[3] < 0x1_0000_0000;
  }

  method ClearDigits(bcdar: array<nat>)
    requires bcdar.Length == 34
    modifies bcdar
    ensures Digits(bcdar[..]) && AllEqual(bcdar[..], 0)
  {
    for i := 0 to 34
      invariant forall k: nat :: k < i ==> bcdar[k] == 0
    {
      bcdar[i] := 0;
    }
  }

  lemma ClearedFirst(s: seq<nat>)
    requires |s| == 34 && Digits(s)
    ensures Digits(s[0 := 0])
  {
  }

  /** What was read is the datum. */
  lemma ReadDatum(w: seq<nat>, exp: int, s: seq<nat>, sig: nat)
    requires |w| == 4 && Words32(w) && |s| == 34 && Digits(s) && Canonical(WordsVal(w) % COEFFICIENT_BITS)
    requires sig == w[3] / 0x8000_0000 * 0x8000_0000
    requires var comb := w[3] / 0x400_0000 % 0x20;
             && (comb != 30 ==> Val(s[1..]) == FromDeclets(WordsVal(w) % COEFFICIENT_BITS))
             && (comb < 30 ==> s[0] == CombMsd(comb) && exp == 0x1000 * CombTop(comb) + w[3] / 0x4000 % 0x1000 - BIAS)
             && (comb >= 30 ==> exp == w[3] / 0x200_0000 % 0x40 * 0x200_0000)
    ensures !StrayInfinity(w[3]) ==> ValidExponent(exp) && DatumOf(exp, s, sig != 0) == Decode128(WordsVal(w))
    ensures StrayInfinity(w[3])
        ==> exp == DECFLOAT_INF + 0x200_0000 && Decode128(WordsVal(w)) == Infinity(sig != 0) && !Canonical128(WordsVal(w))
  {
    hide Val, FromDeclets, Canonical, WordsVal, CombMsd, CombTop, Digits, Decode128, FieldsOf, Canonical128, DatumOf, ValidExponent;
    FieldsOfWord(w);
    SpecialExponent(w[3]);
    var (h, sign) := (w[3], sig != 0);
    assert sign == (h / 0x8000_0000 == 1) by { assert h < 0x1_0000_0000; }
    var (comb, econ, odd) := (h / 0x400_0000 % 0x20, h / 0x4000 % 0x1000, h / 0x200_0000 % 2 == 1);
    if comb == 30 && odd {
      StrayRead(WordsVal(w), econ, sign);
    } else {
      FieldsRead(WordsVal(w), comb, econ, odd, sign, exp, s);
    }
  }

  /** An infinity with a bit in its continuation is not canonical. */
  lemma StrayRead(v: nat, econ: nat, sign: bool)
    requires Layout(QUAD) && FieldsOf(QUAD, v) == Fields(sign, 30, econ, v % COEFFICIENT_BITS) && econ >= 2048
    ensures Decode128(v) == Infinity(sign) && !Canonical128(v)
  {
    hide Canonical, FieldsOf, DecletSpan, ExpSpan, Decode128;
    DecodedFields(v);
  }

  lemma CoefficientRead(d: nat, comb: nat, s: seq<nat>)
    requires |s| == 34 && Canonical(d) && d < COEFFICIENT_BITS && comb < 30
    requires s[0] == CombMsd(comb) && Val(s[1..]) == FromDeclets(d)
    ensures FromDeclets(Join(d, COEFFICIENT_BITS, CombMsd(comb))) == Val(s)
  {
    hide Val, FromDeclets, Canonical, CombMsd, CombTop, DecletSpan, ExpSpan, Join, Shift, ToDeclets;
    LayoutsValid();
    PartsComb(comb);
    LeadingDigit(QUAD, d, CombMsd(comb));
    ValLeading(s);
  }

  /** What was read is the datum, from the fields alone. */
  lemma FieldsRead(v: nat, comb: nat, econ: nat, odd: bool, sign: bool, exp: int, s: seq<nat>)
    requires |s| == 34 && Digits(s) && Canonical(v % COEFFICIENT_BITS) && comb < 0x20 && econ < 0x1000 && (econ >= 2048 <==> odd)
    requires !(comb == 30 && odd)
    requires Layout(QUAD) && FieldsOf(QUAD, v) == Fields(sign, comb, econ, v % COEFFICIENT_BITS)
    requires comb != 30 ==> Val(s[1..]) == FromDeclets(v % COEFFICIENT_BITS)
    requires comb < 30 ==> s[0] == CombMsd(comb) && exp == 0x1000 * CombTop(comb) + econ - BIAS
    requires comb >= 30 ==> exp == 0x400_0000 * comb + (if odd then 0x200_0000 else 0)
    ensures ValidExponent(exp) && DatumOf(exp, s, sign) == Decode128(v)
  {
    hide Val, FromDeclets, Canonical, CombMsd, CombTop, Digits, Decode128, FieldsOf, DecletSpan, ExpSpan, Join, Shift, ToDeclets;
    DecodedFields(v);
    if comb < 30 {
      PartsComb(comb);
      CoefficientRead(v % COEFFICIENT_BITS, comb, s);
    } else {
      JoinZero(v % COEFFICIENT_BITS);
    }
  }

  lemma JoinZero(d: nat)
    ensures Join(d, COEFFICIENT_BITS, 0) == d
  {
  }

  /** DFWORD & 0x7e000000, for the specials. */
  lemma SpecialExponent(h: nat)
    requires h < 0x1_0000_0000
    ensures var (comb, exp) := (h / 0x400_0000 % 0x20, h / 0x200_0000 % 0x40 * 0x200_0000);
            && exp == 0x400_0000 * comb + (if h / 0x4000 % 0x1000 >= 2048 then 0x200_0000 else 0)
  {
    TopShifts(h);
  }
}
