/** The 128-bit interchange format to and from a decNumber (decimal128.c:77-256, with COMBEXP and COMBMSD
    of decimal64.c:572-579). */
module Decimal128 {
  import opened Arith
  import opened TenPowers
  import opened DecFloats
  import opened RoundingSpec
  import opened Truncation
  import opened Gf2Poly
  import opened BitFields
  import opened Declets
  import opened DecNumbers
  import opened Dpd
  import opened Interchange

  const COMBEXP: seq<nat> := [0, 0, 0, 0, 0, 0, 0, 0, 1, 1, 1, 1, 1, 1, 1, 1, 2, 2, 2, 2, 2, 2, 2, 2, 0, 0, 1, 1, 2, 2, 3, 3]
  const COMBMSD: seq<nat> := [0, 1, 2, 3, 4, 5, 6, 7, 0, 1, 2, 3, 4, 5, 6, 7, 0, 1, 2, 3, 4, 5, 6, 7, 8, 9, 8, 9, 8, 9, 0, 1]

  const BIAS := 6176
  const EHIGH := 12287

  lemma CombTables(comb: nat)
    requires comb < 32
    ensures |COMBEXP| == |COMBMSD| == 32
    ensures COMBEXP[comb] == CombTop(comb) <= 3
    ensures COMBMSD[comb] == if comb == 31 then 1 else CombMsd(comb)
  {
  }

  function Encode128(x: DecFloat): nat
    requires x.Fits(QUAD)
  {
    LayoutsValid();
    Encode(QUAD, x)
  }

  function Decode128(v: nat): DecFloat {
    LayoutsValid();
    Decode(QUAD, v)
  }

  predicate Canonical128(v: nat) {
    LayoutsValid();
    CanonicalWord(QUAD, v)
  }

  /** What is kept of a datum: exponents out of range are folded down or clamped, and a payload must be
      shorter than a coefficient. */
  function Stored(f: Format, x: DecFloat): DecFloat
    requires f.Valid()
  {
    match x
    case Finite(s, c, e) =>
      if c == 0 then Finite(s, 0, if e < f.Qtiny() then f.Qtiny() else if e > f.Etop() then f.Etop() else e)
      else if e > f.Etop() then Finite(s, Shift(c, e - f.Etop()), f.Etop())
      else x
    case Infinity(_) => x
    case NaN(s, signaling, p) => NaN(s, signaling, if p < Pow10(f.pmax - 1) then p else 0)
  }

  /** A datum within the precision and range of a format. */
  predicate InRange(f: Format, x: DecFloat)
    requires f.Valid()
  {
    match x
    case Finite(_, c, e) => c == 0 || (f.Qtiny() <= e && NumDigits(c) <= f.pmax && e + NumDigits(c) - 1 <= f.emax)
    case Infinity(_) => true
    case NaN(_, _, p) => NumDigits(p) <= f.pmax
  }

  lemma StoredFits(f: Format, x: DecFloat)
    requires f.Valid() && InRange(f, x)
    ensures Stored(f, x).Fits(f)
  {
    hide Pow10, Shift, NumDigits;
    match x
    case Finite(s, c, e) =>
      Pow10Mono(0, f.pmax);
      NumDigitsIsLength(c);
      if c > 0 && e > f.Etop() {
        var k := e - f.Etop();
        ShiftMono(c, Pow10(NumDigits(c)), k);
        ShiftOfPow10(NumDigits(c), k);
        Pow10Mono(NumDigits(c) + k, f.pmax);
      } else if c > 0 {
        Pow10Mono(NumDigits(c), f.pmax);
      }
    case _ =>
      Pow10Mono(0, f.pmax - 1);
  }

  /** Folding down and clamping keep the value and the sign. */
  lemma StoredKeepsValue(f: Format, x: DecFloat)
    requires f.Valid() && x.Finite?
    ensures Stored(f, x).Finite? && Stored(f, x).Value() == x.Value() && Stored(f, x).sign == x.sign
    ensures x.coeff > 0 && x.exp <= f.Etop() ==> Stored(f, x) == x
    ensures f.Qtiny() <= x.exp <= f.Etop() ==> Stored(f, x) == x
    ensures x.exp > f.Etop() ==> Stored(f, x).exp == f.Etop()
    ensures x.coeff == 0 && x.exp < f.Qtiny() ==> Stored(f, x) == Finite(x.sign, 0, f.Qtiny())
  {
    hide Shift, Scale;
    if x.coeff == 0 {
      ZeroScale(x.exp);
      ZeroScale(Stored(f, x).exp);
    } else if x.exp > f.Etop() {
      ScaledShift(x.coeff, f.Etop(), x.exp - f.Etop());
    }
  }

  // ---- the top word ----

  const COEFFICIENT_BITS := 0x4000_0000_0000_0000_0000_0000_0000

  lemma FourWords(w: seq<nat>)
    requires |w| == 4
    ensures WordsVal(w) == w[0] + 0x1_0000_0000 * w[1] + 0x1_0000_0000_0000_0000 * w[2]
                         + 0x1_0000_0000_0000_0000_0000_0000 * w[3]
  {
    assert w[1..][1..] == w[2..] && w[2..][1..] == w[3..] && w[3..][1..] == [];
    assert WordsVal(w[3..]) == w[3] + 0x1_0000_0000 * WordsVal([]);
    assert WordsVal(w[2..]) == w[2] + 0x1_0000_0000 * WordsVal(w[3..]);
    assert WordsVal(w[1..]) == w[1] + 0x1_0000_0000 * WordsVal(w[2..]);
  }

  function TopWord(m: nat, x: Fields): nat {
    m + 0x4000 * x.econ + 0x400_0000 * x.comb + (if x.sign then 0x8000_0000 else 0)
  }

  /** Four words are the fields that their top word holds. */
  lemma WordOfFields(w: seq<nat>, m: nat, x: Fields)
    requires |w| == 4 && w[3] == TopWord(m, x) && WordsVal(w[3 := m]) == x.declets
    ensures QUAD.Valid() && WordsVal(w) == Assemble(QUAD, x)
  {
    LayoutsValid();
    hide WordsVal, ExpSpan, DecletSpan;
    FourWords(w);
    FourWords(w[3 := m]);
  }

  /** The bits above the coefficient continuation of unpacked declets are the leading digit. */
  lemma TopPart(w: seq<nat>)
    requires |w| == 4 && Words32(w)
    ensures WordsVal(w) / COEFFICIENT_BITS == w[3] / 0x4000
    ensures WordsVal(w) % COEFFICIENT_BITS == WordsVal(w[3 := w[3] % 0x4000])
  {
    hide WordsVal;
    FourWords(w);
    FourWords(w[3 := w[3] % 0x4000]);
    assert w[0] < 0x1_0000_0000 && w[1] < 0x1_0000_0000 && w[2] < 0x1_0000_0000;
    DivModUnique(WordsVal(w), COEFFICIENT_BITS, w[3] / 0x4000, WordsVal(w[3 := w[3] % 0x4000]));
  }

  /** (exp >> 9) & 0x18: the two leading exponent bits, in place for the combination field. */
  function HighBits(exp: nat): nat {
    exp / 0x200 % 0x20 / 8 * 8
  }

  /** (exp >> 11) & 0x06. */
  function MiddleBits(exp: nat): nat {
    exp / 0x800 % 8 / 2 * 2
  }

  lemma CombCode(exp: nat, msd: nat)
    requires exp <= EHIGH && msd <= 9
    ensures msd >= 8 ==> Or(Or(0x18, MiddleBits(exp)), msd % 2) == CombOf(exp / 4096, msd)
    ensures msd < 8 ==> Or(HighBits(exp), msd) == CombOf(exp / 4096, msd)
    ensures HighBits(exp) == CombOf(exp / 4096, 0)
    ensures CombOf(exp / 4096, msd) < 30
  {
    hide Or;
    var t := exp / 4096;
    assert MiddleBits(exp) == 2 * t by { Halfway(exp); }
    assert HighBits(exp) == 8 * t by { Eighths(exp); }
    if msd < 8 {
      OrAtThree(msd, t);
    } else {
      OrAboveThree(t, msd % 2);
    }
  }

  lemma Halfway(exp: nat)
    requires exp <= EHIGH
    ensures MiddleBits(exp) == 2 * (exp / 4096)
  {
  }

  lemma Eighths(exp: nat)
    requires exp <= EHIGH
    ensures HighBits(exp) == 8 * (exp / 4096)
  {
  }

  lemma ThreeBits(t: nat)
    ensures Shl(t, 3) == 8 * t && Pow2(3) == 8
  {
    assert Shl(t, 1) == 2 * t && Shl(t, 2) == 4 * t;
    assert Pow2(2) == 4;
  }

  lemma OrAtThree(msd: nat, t: nat)
    requires msd < 8
    ensures Or(8 * t, msd) == 8 * t + msd
  {
    ThreeBits(t);
    hide Or, Shl, Pow2;
    OrDisjoint(msd, t, 3);
    OrComm(msd, 8 * t);
  }

  lemma OrAboveThree(t: nat, b: nat)
    requires t <= 2 && b <= 1
    ensures Or(Or(0x18, 2 * t), b) == 24 + 2 * t + b
  {
    OrAtThree(2 * t, 3);
    OrAtOne(12 + t, b);
  }

  lemma OrAtOne(a: nat, b: nat)
    requires b <= 1
    ensures Or(2 * a, b) == 2 * a + b
  {
    OrZero(a);
    OrStep(2 * a, b);
  }

  /** Or-ing fields into the top word. */
  lemma {:induction false} OrSwap(a: nat, b: nat, c: nat)
    ensures Or(Or(a, b), c) == Or(Or(a, c), b)
    decreases a + b + c
  {
    if a != 0 || b != 0 || c != 0 {
      OrStep(a, b);
      OrStep(a, c);
      OrSwap(a / 2, b / 2, c / 2);
      OrBit(a, b, c);
      OrBit(a, c, b);
    }
  }

  lemma OrBit(a: nat, b: nat, c: nat)
    ensures Or(Or(a, b), c) == 2 * Or(Or(a / 2, b / 2), c / 2) + (if a % 2 == 1 || b % 2 == 1 || c % 2 == 1 then 1 else 0)
  {
    hide Or;
    OrParts(a, b);
    OrStep(Or(a, b), c);
  }

  lemma OrParts(a: nat, b: nat)
    ensures Or(a, b) / 2 == Or(a / 2, b / 2)
    ensures Or(a, b) % 2 == if a % 2 == 1 || b % 2 == 1 then 1 else 0
  {
    hide Or;
    OrStep(a, b);
    var t := if a % 2 == 1 || b % 2 == 1 then 1 else 0;
    Halves(Or(a / 2, b / 2), t);
  }

  lemma OrFields(m: nat, comb: nat, econ: nat)
    requires m < 0x4000 && comb < 32 && econ < 0x1000
    ensures Or(Or(m, Shl(comb, 26)), Shl(econ, 14)) == TopWord(m, Fields(false, comb, econ, 0)) < 0x8000_0000
  {
    hide Or, Shl, Pow2;
    OrSwap(m, Shl(comb, 26), Shl(econ, 14));
    ShlIsProduct(econ, 14);
    ShlIsProduct(comb, 26);
    PowersUsed();
    OrDisjoint(m, econ, 14);
    OrDisjoint(m + Shl(econ, 14), comb, 26);
  }

  lemma PowersUsed()
    ensures Pow2(14) == 0x4000 && Pow2(26) == 0x400_0000 && Pow2(31) == 0x8000_0000 && Pow2(25) == 0x200_0000
  {
    hide Pow2;
    TenBits();
    FourBits();
    Pow2Add(10, 4);
    Pow2Add(14, 1);
    Pow2Add(15, 10);
    Pow2Add(25, 1);
    Pow2Add(26, 4);
    Pow2Add(30, 1);
  }

  lemma FourBits()
    ensures Pow2(1) == 2 && Pow2(4) == 16
  {
  }

  lemma OrSign(a: nat)
    requires a < 0x8000_0000
    ensures Or(a, 0x8000_0000) == a + 0x8000_0000
  {
    hide Or, Shl, Pow2;
    PowersUsed();
    ShlIsProduct(1, 31);
    OrDisjoint(a, 1, 31);
  }

  lemma OrSpecial(m: nat, signaling: bool)
    requires m < 0x4000
    ensures Or(m, if signaling then 0x7e00_0000 else 0x7c00_0000)
         == TopWord(m, Fields(false, 31, if signaling then 2048 else 0, 0)) < 0x8000_0000
  {
    hide Or, Shl, Pow2;
    PowersUsed();
    var k := if signaling then 63 else 62;
    ShlIsProduct(k, 25);
    OrDisjoint(m, k, 25);
  }

  // ---- to the format ----

  /** The fields of what is stored, without the sign. */
  function StoredFields(x: DecFloat): Fields
    requires InRange(QUAD, x)
  {
    LayoutsValid();
    StoredFits(QUAD, x);
    DatumFields(QUAD, Stored(QUAD, x)).(sign := false)
  }

  /** Words that hold fields; m is the part of the top word below the exponent continuation. */
  ghost predicate Held(w: seq<nat>, m: nat, x: Fields) {
    |w| == 4 && Words32(w) && w[3] == TopWord(m, x) < 0x8000_0000 && WordsVal(w[3 := m]) == x.declets
  }

  /** decNumberIsZero */
  lemma ZeroTest(dn: DecNumber)
    requires dn.Valid()
    ensures dn.lsu[0] == 0 && dn.digits == 1 <==> dn.Coefficient() == 0
    ensures NumDigits(dn.Coefficient()) == dn.digits
  {
    var s := dn.lsu[..UnitsFor(dn.digits)];
    assert NumThou(s) == s[0] + 1000 * NumThou(s[1..]);
    if dn.digits == 1 {
      assert s[1..] == [];
    }
  }

  lemma HeldWord(w: seq<nat>, m: nat, x: DecFloat, w': seq<nat>)
    requires InRange(QUAD, x) && Held(w, m, StoredFields(x))
    requires |w| == 4 && w' == if x.sign then w[3 := w[3] + 0x8000_0000] else w
    ensures w[3] < 0x8000_0000 && Words32(w')
    ensures Stored(QUAD, x).Fits(QUAD) && WordsVal(w') == Encode128(Stored(QUAD, x))
  {
    hide WordsVal, Assemble, DatumFields;
    LayoutsValid();
    StoredFits(QUAD, x);
    var y := DatumFields(QUAD, Stored(QUAD, x));
    SignOfFields(Stored(QUAD, x));
    assert w'[3 := m] == w[3 := m];
    WordOfFields(w', m, y);
  }

  lemma SignOfFields(x: DecFloat)
    requires x.Fits(QUAD)
    ensures QUAD.Valid() && Layout(QUAD) && DatumFields(QUAD, x).sign == x.sign
  {
    LayoutsValid();
  }

  /** An infinity or a NaN, but for the sign. */
  method StoreSpecial(dn: DecNumber, targar: array<nat>) returns (ghost m: nat)
    requires dn.Valid() && dn.kind != FiniteNumber && QUAD.Valid() && InRange(QUAD, dn.View()) && dn.lsu != targar
    requires targar.Length == 4 && forall k: nat :: k < 4 ==> targar[k] == 0
    modifies targar
    ensures Held(targar[..], m, StoredFields(dn.View()))
  {
    hide WordsVal, ToDeclets, NumThou, NumDigits, Thousands, Shl, Or, Held, StoredFields, Stored;
    ghost var x := dn.View();
    m := 0;
    if dn.kind == InfiniteNumber {
      targar[3] := 0x7800_0000;
      InfinityHeld(targar[..], x);
      return;
    }
    ClearHolds(targar[..]);
    if (dn.lsu[0] != 0 || dn.digits > 1) && dn.digits < 34 {
      ShiftZero(dn.Coefficient());
      DecDigitsToDPD(dn, targar, 0);
    }
    ZeroTest(dn);
    ghost var w := targar[..];
    PayloadHeld(w, x);
    m := targar[3];
    OrSpecial(targar[3], dn.kind == SignalingNaN);
    if dn.kind == QuietNaN {
      targar[3] := Or(targar[3], 0x7c00_0000);
    } else {
      targar[3] := Or(targar[3], 0x7e00_0000);
    }
    assert targar[..] == w[3 := targar[3]] && targar[..][3 := m] == w;
    HeldFields(w, m, targar[..], x);
  }

  lemma InfinityHeld(w: seq<nat>, x: DecFloat)
    requires x.Infinity? && w == [0, 0, 0, 0x7800_0000] && QUAD.Valid() && InRange(QUAD, x)
    ensures Held(w, 0, StoredFields(x))
  {
    hide WordsVal, ExpSpan, DecletSpan;
    LayoutsValid();
    FourWords(w[3 := 0]);
  }

  lemma ClearHolds(w: seq<nat>)
    requires |w| == 4 && forall k: nat :: k < 4 ==> w[k] == 0
    ensures Words32(w) && WordsVal(w) == 0 == ToDeclets(0)
  {
    hide WordsVal;
    FourWords(w);
  }

  /** A payload, before the bits that say NaN. */
  lemma PayloadHeld(w: seq<nat>, x: DecFloat)
    requires x.NaN? && QUAD.Valid() && InRange(QUAD, x) && |w| == 4 && Words32(w)
    requires WordsVal(w) == if x.payload != 0 && NumDigits(x.payload) < 34 then ToDeclets(x.payload) else ToDeclets(0)
    ensures w[3] < 0x4000 && StoredFields(x) == Fields(false, 31, if x.signaling then 2048 else 0, WordsVal(w))
  {
    hide WordsVal, ExpSpan, DecletSpan, ToDeclets, NumDigits, Pow10;
    LayoutsValid();
    StoredFits(QUAD, x);
    ShortPayload(x.payload);
    Pow10Mono(33, 34);
    CoefficientDeclets(QUAD, Stored(QUAD, x).payload);
    NoDigits();
    TopPart(w);
  }

  lemma NoDigits()
    ensures ToDeclets(0) == 0
  {
  }

  lemma ShortPayload(p: nat)
    ensures p < Pow10(33) <==> NumDigits(p) <= 33
  {
    hide Pow10, NumDigits;
    NumDigitsIsLength(p);
    if p > 0 && NumDigits(p) > 33 {
      Pow10Mono(33, NumDigits(p) - 1);
    } else if p > 0 {
      Pow10Mono(NumDigits(p), 33);
    } else {
      Pow10Mono(0, 33);
      ZeroDigits();
    }
  }

  lemma ZeroDigits()
    ensures NumDigits(0) == 1 && Pow10(0) == 1
  {
  }

  /** A finite number, but for the sign. */
  method StoreFinite(dn: DecNumber, targar: array<nat>) returns (ghost m: nat, clamped: bool)
    requires dn.Valid() && dn.kind == FiniteNumber && QUAD.Valid() && InRange(QUAD, dn.View()) && dn.lsu != targar
    requires targar.Length == 4 && forall k: nat :: k < 4 ==> targar[k] == 0
    modifies targar
    ensures Held(targar[..], m, StoredFields(dn.View()))
    ensures clamped <==> Stored(QUAD, dn.View()) != dn.View()
  {
    hide WordsVal, ToDeclets, NumThou, NumDigits, Thousands, Shl, Or, Held, StoredFields, Stored, InRange, HighBits;
    ghost var x := dn.View();
    var exp, comb: nat;
    ZeroTest(dn);
    if dn.lsu[0] == 0 && dn.digits == 1 {
      clamped := false;
      if dn.exponent < -BIAS {
        exp, clamped := 0, true;
      } else {
        exp := dn.exponent + BIAS;
        if exp > EHIGH {
          exp, clamped := EHIGH, true;
        }
      }
      comb := HighBits(exp);
      ClearHolds(targar[..]);
      CombCode(exp, 0);
      assert targar[..][3 := 0] == targar[..];
      ZeroFields(x, exp, clamped);
    } else {
      exp, comb, clamped := StoreCoefficient(dn, targar);
    }
    ghost var w := targar[..];
    m := w[3];
    CombWithin(x, exp, comb, WordsVal(w));
    OrFields(m, comb, exp % 0x1000);
    targar[3] := Or(targar[3], Shl(comb, 26));
    targar[3] := Or(targar[3], Shl(exp % 0x1000, 14));
    assert targar[..] == w[3 := targar[3]] && targar[..][3 := m] == w;
    HeldFields(w, m, targar[..], x);
  }

  /** The fields but for the sign: what the words hold before the combination field goes in. */
  ghost predicate Placed(x: DecFloat, exp: nat, comb: nat, v: nat)
    requires QUAD.Valid()
  {
    exp <= EHIGH && InRange(QUAD, x) && StoredFields(x) == Fields(false, comb, exp % 0x1000, v) && comb < 30
  }

  lemma CombWithin(x: DecFloat, exp: nat, comb: nat, v: nat)
    requires QUAD.Valid() && Placed(x, exp, comb, v)
    ensures comb < 32 && exp % 0x1000 < 0x1000
  {
  }

  lemma HeldFields(w: seq<nat>, m: nat, t: seq<nat>, x: DecFloat)
    requires QUAD.Valid() && |w| == |t| == 4 && Words32(w) && InRange(QUAD, x) && t[3 := m] == w
    requires var y := StoredFields(x); WordsVal(w) == y.declets && t[3] == TopWord(m, y) < 0x8000_0000 && !y.sign
    ensures Held(t, m, StoredFields(x))
  {
    forall k: nat | k < 4
      ensures t[k] < 0x1_0000_0000
    {
      assert k < 3 ==> t[k] == w[k];
    }
  }

  lemma ZeroFields(x: DecFloat, exp: nat, clamped: bool)
    requires QUAD.Valid() && InRange(QUAD, x) && x.IsZero()
    requires exp == if x.exp < -BIAS then 0 else if x.exp + BIAS > EHIGH then EHIGH else x.exp + BIAS
    requires clamped <==> x.exp < -BIAS || x.exp + BIAS > EHIGH
    ensures Placed(x, exp, CombOf(exp / 4096, 0), 0)
    ensures clamped <==> Stored(QUAD, x) != x
  {
    LayoutsValid();
    hide ExpSpan, DecletSpan, CombOf;
    FormatsValid();
    CombParts(exp / 4096, 0);
    assert ToDeclets(0) == 0;
  }

  /** The coefficient's declets, and the combination field they leave the leading digit to. */
  method StoreCoefficient(dn: DecNumber, targar: array<nat>) returns (exp: nat, comb: nat, clamped: bool)
    requires dn.Valid() && dn.kind == FiniteNumber && dn.Coefficient() > 0 && NumDigits(dn.Coefficient()) == dn.digits
    requires QUAD.Valid() && InRange(QUAD, dn.View()) && dn.lsu != targar
    requires targar.Length == 4 && forall k: nat :: k < 4 ==> targar[k] == 0
    modifies targar
    ensures Words32(targar[..]) && targar[3] < 0x4000 && Placed(dn.View(), exp, comb, WordsVal(targar[..]))
    ensures clamped <==> Stored(QUAD, dn.View()) != dn.View()
  {
    hide WordsVal, ToDeclets, NumThou, NumDigits, Thousands, Shl, Or, Stored, CombOf, HighBits, MiddleBits, StoredFields;
    ghost var x := dn.View();
    FormatsValid();
    var pad := 0;
    clamped := false;
    exp := dn.exponent + BIAS;
    if exp > EHIGH {
      pad := exp - EHIGH;
      exp, clamped := EHIGH, true;
    }
    DecDigitsToDPD(dn, targar, pad);
    ghost var w := targar[..];
    TopPart(w);
    CoefficientFields(x, exp, pad, WordsVal(w));
    var msd := targar[3] / 0x4000;
    targar[3] := targar[3] % 0x4000;
    assert targar[..] == w[3 := w[3] % 0x4000];
    CombCode(exp, msd);
    if msd >= 8 {
      comb := Or(Or(0x18, MiddleBits(exp)), msd % 2);
    } else {
      comb := Or(HighBits(exp), msd);
    }
  }

  lemma CoefficientFields(x: DecFloat, exp: nat, pad: nat, v: nat)
    requires QUAD.Valid() && InRange(QUAD, x) && x.Finite? && x.coeff > 0 && exp <= EHIGH
    requires exp + pad == x.exp + BIAS && (pad > 0 ==> exp == EHIGH) && v == ToDeclets(Shift(x.coeff, pad))
    ensures v / COEFFICIENT_BITS <= 9
    ensures Placed(x, exp, CombOf(exp / 4096, v / COEFFICIENT_BITS), v % COEFFICIENT_BITS)
    ensures pad > 0 <==> Stored(QUAD, x) != x
  {
    LayoutsValid();
    FormatsValid();
    StoredFits(QUAD, x);
    hide ExpSpan, DecletSpan, CombOf, ToDeclets, Pow10, NumDigits, Shift, Canonical, Layout, DecFloats.Format.Basic;
    ShiftZero(x.coeff);
    CoefficientDeclets(QUAD, Stored(QUAD, x).coeff);
    CombParts(exp / 4096, v / COEFFICIENT_BITS);
  }

  /** decimal128FromNumber, for numbers that need no rounding. */
  method Decimal128FromNumber(dn: DecNumber, set': DecContext) returns (d128: array<nat>)
    requires dn.Valid() && QUAD.Valid() && InRange(QUAD, dn.View())
    modifies set'`status
    ensures fresh(d128) && d128.Length == 4 && Words32(d128[..])
    ensures Stored(QUAD, dn.View()).Fits(QUAD) && WordsVal(d128[..]) == Encode128(Stored(QUAD, dn.View()))
    ensures set'.status == old(set'.status) +
                          (if dn.kind == FiniteNumber && Stored(QUAD, dn.View()) != dn.View() then {Clamped} else {})
  {
    hide Stored, InRange, Encode128, Words32, WordsVal;
    d128 := new nat[4](_ => 0);
    var clamped := StoreNumber(dn, d128);
    if clamped {
      set'.status := set'.status + {Clamped};
    }
  }

  /** The words of a number. */
  method StoreNumber(dn: DecNumber, targar: array<nat>) returns (clamped: bool)
    requires dn.Valid() && QUAD.Valid() && InRange(QUAD, dn.View()) && dn.lsu != targar
    requires targar.Length == 4 && forall k: nat :: k < 4 ==> targar[k] == 0
    modifies targar
    ensures Words32(targar[..])
    ensures Stored(QUAD, dn.View()).Fits(QUAD) && WordsVal(targar[..]) == Encode128(Stored(QUAD, dn.View()))
    ensures clamped <==> dn.kind == FiniteNumber && Stored(QUAD, dn.View()) != dn.View()
  {
    hide Held, StoredFields, Stored, InRange, Encode128, Words32, WordsVal, Or;
    ghost var x := dn.View();
    ghost var m;
    clamped := false;
    if dn.kind != FiniteNumber {
      m := StoreSpecial(dn, targar);
    } else {
      m, clamped := StoreFinite(dn, targar);
    }
    ghost var w := targar[..];
    HeldWord(w, m, x, if x.sign then w[3 := w[3] + 0x8000_0000] else w);
    if dn.negative {
      OrSign(targar[3]);
      targar[3] := Or(targar[3], 0x8000_0000);
      assert targar[..] == w[3 := w[3] + 0x8000_0000];
    }
  }

  // ---- from the format ----

  /** The fields as the shifts and masks of the code read them. */
  lemma FieldsOfWord(w: seq<nat>)
    requires |w| == 4 && Words32(w)
    ensures Layout(QUAD)
    ensures FieldsOf(QUAD, WordsVal(w))
         == Fields(w[3] / 0x8000_0000 == 1, w[3] / 0x400_0000 % 0x20, w[3] / 0x4000 % 0x1000,
                   WordsVal(w) % COEFFICIENT_BITS)
    ensures w[3] / 0x4000 % 0x1000 >= 2048 <==> w[3] / 0x200_0000 % 2 == 1
    ensures w[3] / 0x400_0000 % 0x20 < 0x20
  {
    LayoutsValid();
    hide WordsVal, ExpSpan, DecletSpan;
    TopPart(w);
    TopShifts(w[3]);
  }

  lemma TopShifts(h: nat)
    requires h < 0x1_0000_0000
    ensures h / 0x4000 / 4096 == h / 0x400_0000 && h / 0x400_0000 / 32 == h / 0x8000_0000 <= 1
    ensures h / 0x8000_0000 % 2 == h / 0x8000_0000
    ensures h / 0x4000 % 0x1000 >= 2048 <==> h / 0x200_0000 % 2 == 1
  {
  }

  /** decimal128ToNumber */
  method Decimal128ToNumber(d128: array<nat>, dn: DecNumber)
    requires d128.Length == 4 && Words32(d128[..]) && dn.lsu.Length >= 12 && dn.lsu != d128
    requires Canonical(WordsVal(d128[..]) % COEFFICIENT_BITS)
    modifies dn, dn.lsu
    ensures dn.Valid() && dn.View() == Decode128(WordsVal(d128[..]))
  {
    hide WordsVal, ToDeclets, FromDeclets, Canonical, NumThou, NumDigits, Thousands, FieldsOf, CombTop, CombMsd, Words32, Decode128, UnitsFor, Join, Layout;
    FieldsOfWord(d128[..]);
    DecodedFields(WordsVal(d128[..]));
    ghost var comb := d128[3] / 0x400_0000 % 0x20;
    CombTables(comb);
    dn.Zero();
    var msd, done := LoadFields(d128[3], dn);
    if done {
      return;
    }
    LoadCoefficient(d128, dn, msd);
  }

  /** Everything but the coefficient; done when there is none. */
  method LoadFields(sourhi: nat, dn: DecNumber) returns (msd: nat, done: bool)
    requires dn.kind == FiniteNumber && !dn.negative && dn.exponent == 0
    modifies dn`kind, dn`negative, dn`exponent
    ensures var comb := sourhi / 0x400_0000 % 0x20;
            && dn.negative == (sourhi / 0x8000_0000 == 1) && (done <==> comb == 30) && msd <= 9
            && dn.kind == (if comb < 30 then FiniteNumber
                           else if comb == 30 then InfiniteNumber
                           else if sourhi / 0x200_0000 % 2 == 1 then SignalingNaN
                           else QuietNaN)
            && (comb < 30 ==> msd == CombMsd(comb)
                              && dn.exponent == CombTop(comb) * 0x1000 + sourhi / 0x4000 % 0x1000 - BIAS)
            && (comb == 31 ==> msd == 0)
  {
    var comb := sourhi / 0x400_0000 % 0x20;
    hide CombTop, CombMsd;
    CombTables(comb);
    SpecialCombs(comb);
    done := false;
    if sourhi / 0x8000_0000 == 1 {
      dn.negative := true;
    }
    msd := COMBMSD[comb];
    var exp := COMBEXP[comb];
    if exp == 3 {
      if msd == 0 {
        dn.kind := InfiniteNumber;
        return msd, true;
      }
      dn.kind := if sourhi / 0x200_0000 % 2 == 1 then SignalingNaN else QuietNaN;
      msd := 0;
    } else {
      dn.exponent := exp * 0x1000 + sourhi / 0x4000 % 0x1000 - BIAS;
    }
  }

  lemma SpecialCombs(comb: nat)
    requires comb < 32
    ensures CombTop(comb) == 3 <==> comb >= 30
    ensures CombMsd(comb) <= 9 && (comb == 30 ==> CombMsd(comb) == 0)
  {
  }

  /** The coefficient continuation, with the leading digit put before it. */
  method LoadCoefficient(d128: array<nat>, dn: DecNumber, msd: nat)
    requires d128.Length == 4 && Words32(d128[..]) && dn.lsu.Length >= 12 && dn.lsu != d128 && msd <= 9
    requires dn.Valid() && dn.Coefficient() == 0 && Canonical(WordsVal(d128[..]) % COEFFICIENT_BITS)
    modifies dn`digits, dn.lsu
    ensures dn.Valid()
    ensures dn.Coefficient() == FromDeclets(Join(WordsVal(d128[..]) % COEFFICIENT_BITS, COEFFICIENT_BITS, msd))
  {
    hide WordsVal, ToDeclets, FromDeclets, Canonical, NumThou, NumDigits, Thousands, Join, Or, Shl, LowBits;
    ghost var v := Join(WordsVal(d128[..]) % COEFFICIENT_BITS, COEFFICIENT_BITS, msd);
    var sourar := new nat[4](i requires 0 <= i < 4 reads d128 => d128[i]);
    ghost var w := d128[..];
    assert sourar[..] == w;
    TopPart(w);
    sourar[3] := sourar[3] % 0x4000;
    ghost var w1 := sourar[..];
    assert w1 == w[3 := w[3] % 0x4000];
    PrefixedDigit(w1, msd);
    var need: nat;
    if msd != 0 {
      sourar[3] := Or(sourar[3], Shl(msd, 14));
      assert sourar[..] == w1[3 := w1[3] + 0x4000 * msd];
      need := 12;
    } else {
      assert sourar[..] == w1[3 := w1[3] + 0x4000 * msd];
      if sourar[3] != 0 {
        need := 11;
      } else if sourar[2] != 0 {
        need := 10;
      } else if sourar[1] != 0 {
        need := 7;
      } else if sourar[0] != 0 {
        need := 4;
      } else {
        EmptyCoefficient(w1);
        return;
      }
    }
    EnoughDeclets(sourar[..], msd, need);
    DecDigitsFromDPD(dn, sourar, need);
  }

  lemma DecodedFields(v: nat)
    ensures Layout(QUAD)
    ensures var x := FieldsOf(QUAD, v);
            && (x.comb < 30 ==> Decode128(v) == Finite(x.sign,
                  FromDeclets(Join(x.declets, COEFFICIENT_BITS, CombMsd(x.comb))), CombTop(x.comb) * 0x1000 + x.econ - BIAS))
            && (x.comb == 30 ==> Decode128(v) == Infinity(x.sign))
            && (x.comb > 30 ==> Decode128(v) == NaN(x.sign, x.econ >= 2048, FromDeclets(Join(x.declets, COEFFICIENT_BITS, 0))))
  {
    LayoutsValid();
    FormatsValid();
    hide ExpSpan, DecletSpan, FromDeclets, CombMsd, CombTop, FieldsOf;
  }

  /** The leading digit in place. */
  lemma PrefixedDigit(w: seq<nat>, msd: nat)
    requires |w| == 4 && Words32(w) && w[3] < 0x4000 && msd <= 9 && Canonical(WordsVal(w))
    ensures Or(w[3], Shl(msd, 14)) == w[3] + 0x4000 * msd
    ensures var t := w[3 := w[3] + 0x4000 * msd];
            && Words32(t) && WordsVal(t) == Join(WordsVal(w), COEFFICIENT_BITS, msd) && Canonical(WordsVal(t))
  {
    hide WordsVal, Or, Shl, Pow2, Canonical, DecletSpan;
    PowersUsed();
    ShlIsProduct(msd, 14);
    OrDisjoint(w[3], msd, 14);
    FourWords(w);
    FourWords(w[3 := w[3] + 0x4000 * msd]);
    LayoutsValid();
    assert w[0] < 0x1_0000_0000 && w[1] < 0x1_0000_0000 && w[2] < 0x1_0000_0000;
    LeadingDigit(QUAD, WordsVal(w), msd);
  }

  lemma EmptyCoefficient(w: seq<nat>)
    requires |w| == 4 && w[0] == w[1] == w[2] == w[3] == 0
    ensures FromDeclets(Join(WordsVal(w), COEFFICIENT_BITS, 0)) == 0
  {
    hide WordsVal;
    FourWords(w);
  }

  /** The declets processed reach the top of the number. */
  lemma EnoughDeclets(w: seq<nat>, msd: nat, need: nat)
    requires |w| == 4 && Words32(w) && w[3] < 0x4000 + 0x4000 * msd && msd <= 9 && need <= 12
    requires msd > 0 ==> need == 12
    requires msd == 0 ==> need == if w[3] != 0 then 11 else if w[2] != 0 then 10 else if w[1] != 0 then 7 else 4
    ensures LowBits(WordsVal(w), 10 * need) == WordsVal(w)
  {
    hide WordsVal, LowBits, Pow2;
    FourWords(w);
    assert w[0] < 0x1_0000_0000 && w[1] < 0x1_0000_0000 && w[2] < 0x1_0000_0000;
    WidePowers();
    assert WordsVal(w) < Pow2(10 * need);
    ShlZero(10 * need);
    UniqueBits(WordsVal(w), 10 * need, 0, WordsVal(w));
  }

  lemma WidePowers()
    ensures Pow2(40) >= 0x1_0000_0000 && Pow2(70) >= 0x1_0000_0000_0000_0000
    ensures Pow2(100) >= 0x1_0000_0000_0000_0000_0000_0000 && Pow2(110) == COEFFICIENT_BITS
    ensures Pow2(120) == 1024 * COEFFICIENT_BITS
  {
    hide Pow2;
    TenBits();
    Spans();
    Pow2Add(110, 10);
    Pow2Add(10, 10);
    Pow2Add(20, 20);
    Pow2Add(40, 10);
    Pow2Add(50, 20);
    Pow2Add(70, 30);
    Pow2Add(20, 10);
  }

  // ---- there and back ----

  /** A number stored and loaded again is the number as stored, of the same value. */
  lemma Decimal128RoundTrip(x: DecFloat)
    requires QUAD.Valid() && InRange(QUAD, x)
    ensures Stored(QUAD, x).Fits(QUAD) && Decode128(Encode128(Stored(QUAD, x))) == Stored(QUAD, x)
    ensures Canonical(Encode128(Stored(QUAD, x)) % COEFFICIENT_BITS)
    ensures x.Finite? ==> Stored(QUAD, x).Finite? && Stored(QUAD, x).Value() == x.Value() && Stored(QUAD, x).sign == x.sign
  {
    LayoutsValid();
    StoredFits(QUAD, x);
    DecodeOfEncode(QUAD, Stored(QUAD, x));
    if x.Finite? {
      StoredKeepsValue(QUAD, x);
    }
  }

  /** A canonical word loaded and stored again is the same word. */
  lemma Decimal128WordRoundTrip(v: nat)
    requires Layout(QUAD) && CanonicalWord(QUAD, v)
    ensures var x := Decode128(v); InRange(QUAD, x) && Stored(QUAD, x) == x && x.Fits(QUAD) && Encode128(x) == v
  {
    hide CanonicalWord, Encode, Decode, Pow10, NumDigits;
    EncodeOfDecode(QUAD, v);
    FittingIsStored(Decode128(v));
  }

  lemma FittingIsStored(x: DecFloat)
    requires x.Fits(QUAD)
    ensures QUAD.Valid() && InRange(QUAD, x) && Stored(QUAD, x) == x
  {
    hide Pow10, NumDigits, Shift;
    FormatsValid();
    match x
    case Finite(_, c, e) =>
      if c > 0 {
        NumDigitsIsLength(c);
        if NumDigits(c) > 34 {
          Pow10Mono(34, NumDigits(c) - 1);
        }
      }
    case Infinity(_) =>
    case NaN(_, _, p) => ShortPayload(p);
  }
}
