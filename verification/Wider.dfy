/** A decDouble as a decQuad, and back (decFloatToWider and decFloatFromWider, decCommon.c:1021-1044 and
    1717-1743). */
module Wider {
  import opened Arith
  import opened DecFloats
  import opened RoundingSpec
  import opened Bcd
  import opened Gf2Poly
  import opened BitFields
  import opened Dpd
  import opened Interchange
  import opened Decimal128
  import opened QuadBits
  import opened Finalize
  import opened Add

  const DOUBLE_BIAS := 398

  function Decode64(v: nat): DecFloat {
    LayoutsValid();
    Decode(DOUBLE, v)
  }

  predicate Canonical64(v: nat) {
    LayoutsValid();
    CanonicalWord(DOUBLE, v)
  }

  lemma TwoWords(w: seq<nat>)
    requires |w| == 2
    ensures WordsVal(w) == w[0] + 0x1_0000_0000 * w[1]
  {
    assert w[1..][1..] == [];
    assert WordsVal(w[1..]) == w[1] + 0x1_0000_0000 * WordsVal([]);
  }

  /** The fields of a decDouble, as the code reads them from its top word. */
  lemma DoubleFields(w: seq<nat>)
    requires |w| == 2 && Words32(w)
    ensures Layout(DOUBLE)
    ensures FieldsOf(DOUBLE, WordsVal(w))
         == Fields(w[1] / 0x8000_0000 == 1, w[1] / 0x400_0000 % 0x20, w[1] / 0x4_0000 % 0x100,
                   w[0] + 0x1_0000_0000 * (w[1] % 0x4_0000))
    ensures w[1] / 0x400_0000 % 0x20 < 0x20 && w[1] / 0x8000_0000 <= 1 && w[1] / 0x400_0000 < 64
  {
    LayoutsValid();
    hide WordsVal, ExpSpan, DecletSpan;
    TwoWords(w);
    assert w[0] < 0x1_0000_0000 && w[1] < 0x1_0000_0000;
    DoubleShifts(w[1]);
    var v := WordsVal(w);
    DivModUnique(v, 0x4_0000_0000_0000, w[1] / 0x4_0000, w[0] + 0x1_0000_0000 * (w[1] % 0x4_0000));
  }

  lemma DoubleShifts(h: nat)
    requires h < 0x1_0000_0000
    ensures h / 0x4_0000 / 0x100 == h / 0x400_0000 && h / 0x400_0000 / 32 == h / 0x8000_0000 <= 1
    ensures h / 0x8000_0000 % 2 == h / 0x8000_0000 && h / 0x400_0000 < 64
  {
  }

  lemma Decoded64(v: nat)
    ensures Layout(DOUBLE)
    ensures var x := FieldsOf(DOUBLE, v);
            && (x.comb < 30 ==> Decode64(v) == Finite(x.sign,
                  FromDeclets(x.declets + 0x4_0000_0000_0000 * CombMsd(x.comb)),
                  CombTop(x.comb) * 0x100 + x.econ - DOUBLE_BIAS))
            && (x.comb == 30 ==> Decode64(v) == Infinity(x.sign))
            && (x.comb > 30 ==> Decode64(v) == NaN(x.sign, x.econ >= 0x80, FromDeclets(x.declets)))
  {
    LayoutsValid();
    FormatsValid();
    hide ExpSpan, DecletSpan, FromDeclets, CombMsd, CombTop, FieldsOf;
  }

  // DECCOMBEXP of decDouble: the two leading exponent bits, in place.
  const DOUBLEEXPROW: seq<nat> := [
    0, 0, 0, 0, 0, 0, 0, 0, 0x100, 0x100, 0x100, 0x100, 0x100, 0x100, 0x100, 0x100,
    0x200, 0x200, 0x200, 0x200, 0x200, 0x200, 0x200, 0x200, 0, 0, 0x100, 0x100, 0x200, 0x200,
    DECFLOAT_INF, DECFLOAT_QNAN]
  const DECCOMBEXP64: seq<nat> := DOUBLEEXPROW + DOUBLEEXPROW

  lemma DoubleExpTable(code: nat)
    requires code < 64
    ensures |DECCOMBEXP64| == 64 && (code % 32 < 30 ==> DECCOMBEXP64[code] == 0x100 * CombTop(code % 32))
  {
    hide DOUBLEEXPROW, CombTop;
    DoubleExpRow(code % 32);
    TwoRows(DOUBLEEXPROW, code);
  }

  lemma DoubleExpRow(comb: nat)
    requires comb < 32
    ensures |DOUBLEEXPROW| == 32 && (comb < 30 ==> DOUBLEEXPROW[comb] == 0x100 * CombTop(comb))
  {
  }

  /** The top word of the wider number, and the leading digit. */
  method WiderTop(sourhi: nat) returns (code: nat, msd: nat)
    requires sourhi < 0x1_0000_0000
    ensures var comb := sourhi / 0x400_0000 % 0x20;
            && msd == (if comb < 30 then CombMsd(comb) else 0)
            && code == TopWord(0, WideFields(sourhi)) < 0x1_0000_0000
  {
    hide CombMsd, CombTop, Or, Shl, WideFields;
    ghost var comb := sourhi / 0x400_0000 % 0x20;
    DoubleShifts(sourhi);
    SpecialTop(sourhi);
    msd := 0;
    if sourhi / 0x800_0000 % 0x10 == 15 {
      code := sourhi / 0x200_0000 * 0x200_0000;
    } else {
      PartsComb(comb);
      DoubleExpTable(sourhi / 0x400_0000);
      var exp := DECCOMBEXP64[sourhi / 0x400_0000] + sourhi % 0x400_0000 / 0x4_0000 - DOUBLE_BIAS + BIAS;
      Rebiased(sourhi, exp);
      code := Shl(exp / 0x1000, 29);
      code := Or(code, exp * 0x4000 % 0x400_0000);
      code := Or(code, sourhi / 0x8000_0000 * 0x8000_0000);
      CombMsdTable(sourhi / 0x400_0000);
      msd := DECCOMBMSD[sourhi / 0x400_0000];
    }
  }

  /** The fields of the wider number, but for the coefficient. */
  function WideFields(sourhi: nat): Fields {
    var comb := sourhi / 0x400_0000 % 0x20;
    var sign := sourhi / 0x8000_0000 == 1;
    if comb < 30 then Fields(sign, 8, CombTop(comb) * 0x100 + sourhi / 0x4_0000 % 0x100 + BIAS - DOUBLE_BIAS - 0x1000, 0)
    else Fields(sign, comb, if sourhi / 0x4_0000 % 0x100 >= 0x80 then 0x800 else 0, 0)
  }

  lemma SpecialTop(h: nat)
    requires h < 0x1_0000_0000
    ensures h / 0x800_0000 % 0x10 == 15 <==> h / 0x400_0000 % 0x20 >= 30
    ensures h / 0x400_0000 % 0x20 >= 30 ==> h / 0x200_0000 * 0x200_0000 == TopWord(0, WideFields(h)) < 0x1_0000_0000
  {
  }

  /** The exponent, biased again: its leading bits are 01. */
  lemma Rebiased(h: nat, exp: nat)
    requires h < 0x1_0000_0000
    requires var comb := h / 0x400_0000 % 0x20;
             comb < 30 && exp == 0x100 * CombTop(comb) + h % 0x400_0000 / 0x4_0000 - DOUBLE_BIAS + BIAS && CombTop(comb) <= 2
    ensures Or(Or(Shl(exp / 0x1000, 29), exp * 0x4000 % 0x400_0000), h / 0x8000_0000 * 0x8000_0000)
         == TopWord(0, WideFields(h)) < 0x1_0000_0000
  {
    hide Or, Shl, CombTop, Pow2;
    DoubleShifts(h);
    EconBits(h);
    assert exp / 0x1000 == 1 && exp % 0x1000 == exp - 0x1000;
    ShlIsProduct(1, 29);
    PowersUsed();
    TwentyNine();
    ContinuationBits(exp);
    OrOnto(0x2000_0000, 8, 0x400_0000, 26, exp % 0x1000 * 0x4000);
    SignBit(0x2000_0000 + exp % 0x1000 * 0x4000, h / 0x8000_0000 * 0x8000_0000);
  }

  lemma TwentyNine()
    ensures Pow2(29) == 0x2000_0000
  {
    hide Pow2;
    PowersUsed();
    assert Pow2(3) == 8 by { Eight(); }
    Pow2Add(26, 3);
  }

  lemma Eight()
    ensures Pow2(3) == 8
  {
    assert Pow2(2) == 4;
  }

  lemma EconBits(h: nat)
    ensures h % 0x400_0000 / 0x4_0000 == h / 0x4_0000 % 0x100
  {
  }

  /** decFloatToWider: the same datum, exactly, whatever the bits; canonical when the source is. */
  method DecFloatToWider(source: array<nat>, wider: array<nat>)
    requires source.Length == 2 && wider.Length == 4 && source != wider && Words32(source[..])
    modifies wider
    ensures Words32(wider[..]) && Decode128(WordsVal(wider[..])) == Decode64(WordsVal(source[..]))
    ensures Canonical(WordsVal(source[..]) % 0x4_0000_0000_0000) ==> Canonical(WordsVal(wider[..]) % COEFFICIENT_BITS)
    ensures Canonical64(WordsVal(source[..])) ==> Canonical128(WordsVal(wider[..]))
  {
    hide WordsVal, Decode128, Decode64, Canonical, Canonical64, Canonical128, CombMsd, CombTop, Or, Shl, FieldsOf, WideFields, TopWord;
    assert source[..][1] < 0x1_0000_0000 && source[..][0] < 0x1_0000_0000;
    var sourhi := source[1];
    DoubleFields(source[..]);
    var code, msd := WiderTop(sourhi);
    LeadingAbove(sourhi, msd);
    wider[3] := code;
    wider[1] := Or(sourhi % 0x4_0000, Shl(msd, 18));
    wider[0] := source[0];
    wider[2] := 0;
    WideDatum(source[..], wider[..], msd);
    WideCanonical(source[..], wider[..], msd);
  }

  lemma LeadingAbove(h: nat, msd: nat)
    requires msd == if h / 0x400_0000 % 0x20 < 30 then CombMsd(h / 0x400_0000 % 0x20) else 0
    ensures msd <= 9 && Or(h % 0x4_0000, Shl(msd, 18)) == h % 0x4_0000 + 0x4_0000 * msd < 0x1_0000_0000
  {
    hide Or, Shl, Pow2;
    SmallSpans();
    ShlIsProduct(msd, 18);
    OrDisjoint(h % 0x4_0000, msd, 18);
  }

  lemma WideDatum(n: seq<nat>, w: seq<nat>, msd: nat)
    requires |n| == 2 && |w| == 4 && Words32(n) && Words32(w)
    requires w[3] == TopWord(0, WideFields(n[1])) && w[2] == 0 && w[1] == n[1] % 0x4_0000 + 0x4_0000 * msd && w[0] == n[0]
    requires msd == if n[1] / 0x400_0000 % 0x20 < 30 then CombMsd(n[1] / 0x400_0000 % 0x20) else 0
    ensures Decode128(WordsVal(w)) == Decode64(WordsVal(n))
    ensures Layout(QUAD) && FieldsOf(QUAD, WordsVal(w))
         == WideFields(n[1]).(declets := n[0] + 0x1_0000_0000 * (n[1] % 0x4_0000) + 0x4_0000_0000_0000 * msd)
    ensures QUAD.Valid() && WordsVal(w) < WordSpan(QUAD)
  {
    hide WordsVal, Decode128, Decode64, CombMsd, CombTop, FieldsOf, FromDeclets, ExpSpan, DecletSpan;
    DoubleFields(n);
    Decoded64(WordsVal(n));
    var x := WideFields(n[1]);
    LayoutsValid();
    FourWords(w[3 := 0]);
    var d := n[0] + 0x1_0000_0000 * (n[1] % 0x4_0000) + 0x4_0000_0000_0000 * msd;
    assert WordsVal(w[3 := 0]) == d;
    WideFieldsFit(n[1]);
    assert n[0] < 0x1_0000_0000;
    WordOfFields(w, 0, x.(declets := d));
    FieldsAssembled(QUAD, x.(declets := d));
    DecodedFields(WordsVal(w));
    EightIs();
    assert Join(d, COEFFICIENT_BITS, 0) == d;
  }

  /** Canonical declets stay so with the leading digit before them, and nothing else is left in a special. */
  lemma WideCanonical(n: seq<nat>, w: seq<nat>, msd: nat)
    requires |n| == 2 && |w| == 4 && Words32(n) && Words32(w)
    requires w[3] == TopWord(0, WideFields(n[1])) && w[2] == 0 && w[1] == n[1] % 0x4_0000 + 0x4_0000 * msd && w[0] == n[0]
    requires msd == if n[1] / 0x400_0000 % 0x20 < 30 then CombMsd(n[1] / 0x400_0000 % 0x20) else 0
    ensures Canonical(WordsVal(n) % 0x4_0000_0000_0000) ==> Canonical(WordsVal(w) % COEFFICIENT_BITS)
    ensures Canonical64(WordsVal(n)) ==> Canonical128(WordsVal(w))
  {
    hide WordsVal, CombMsd, CombTop, FromDeclets, ToDeclets, Canonical, ExpSpan, DecletSpan, Shift, Pow10, WordSpan;
    DoubleFields(n);
    LayoutsValid();
    WideDatum(n, w, msd);
    var (comb, d) := (n[1] / 0x400_0000 % 0x20, n[0] + 0x1_0000_0000 * (n[1] % 0x4_0000));
    if comb < 30 {
      PartsComb(comb);
    }
    assert n[0] < 0x1_0000_0000;
    if Canonical(d) {
      LeadingDigit(DOUBLE, d, msd);
      assert Join(d, 0x4_0000_0000_0000, msd) == d + 0x4_0000_0000_0000 * msd;
    }
  }

  lemma EightIs()
    ensures CombMsd(8) == 0 && CombTop(8) == 1
  {
  }

  lemma WideFieldsFit(h: nat)
    requires h < 0x1_0000_0000
    ensures var x := WideFields(h); x.comb < 32 && x.econ < 0x1000
  {
    if h / 0x400_0000 % 0x20 < 30 {
      PartsComb(h / 0x400_0000 % 0x20);
    }
  }

  // ---- narrowing ----

  /** The datum narrowed: a finite one is rounded, a payload keeps its last digits. */
  ghost function Narrowed(mode: Rounding, x: DecFloat): Outcome {
    FormatsValid();
    match x
    case Finite(s, c, e) => RoundScaled(DOUBLE, mode, s, c, e)
    case Infinity(_) => Outcome(x, {})
    case NaN(s, signaling, p) => Outcome(NaN(s, signaling, Low(p, DOUBLE.pmax - 1)), {})
  }

  /** Widening and narrowing again changes nothing, in any rounding mode. */
  lemma WidenNarrow(mode: Rounding, x: DecFloat)
    requires x.Fits(DOUBLE)
    ensures x.Fits(QUAD) && Narrowed(mode, x) == Outcome(x, {})
  {
    hide RoundScaled, Pow10, Low;
    FormatsValid();
    match x
    case Finite(s, c, e) =>
      AlreadyRounded(DOUBLE, mode, s, c, e);
      Pow10Mono(16, 34);
    case Infinity(_) =>
    case NaN(_, _, p) =>
      Pow10Mono(15, 33);
      ShiftZero(15);
      HighLowUnique(p, 15, 0, p);
  }

  /** decFloatFromWider */
  method DecFloatFromWider(wider: array<nat>, set': DecContext) returns (r: DecFloat)
    requires wider.Length == 4 && Words32(wider[..]) && Canonical(WordsVal(wider[..]) % COEFFICIENT_BITS)
    modifies set'
    ensures var o := Narrowed(old(set'.round), Decode128(WordsVal(wider[..])));
            r == o.value && set'.status == old(set'.status) + o.flags && set'.round == old(set'.round)
  {
    hide WordsVal, Decode128, Val, FromDeclets, Canonical, CombMsd, CombTop, FieldsOf, Low, RoundScaled, Digits, Join, Pow10;
    var bcdar := new nat[34](_ => 0);
    GetCoeff(wider, bcdar);
    HeadBits(wider[..]);
    var widerhi := wider[3];
    var sign := widerhi / 0x8000_0000 == 1;
    CombExpTable(widerhi / 0x400_0000);
    WideRead(wider[..], bcdar[..]);
    assert bcdar[0..33 + 1] == bcdar[..];
    if widerhi / 0x400_0000 % 0x20 < 30 {
      var exp := DECCOMBEXP[widerhi / 0x400_0000] + widerhi % 0x400_0000 / 0x4000 - BIAS;
      FormatsValid();
      r := DecFinalize(DOUBLE, bcdar, 0, 33, sign, exp, set');
    } else {
      r := NarrowSpecial(bcdar, widerhi, sign);
    }
  }

  /** The sign, combination and selector bits kept, with the last five declets. */
  method NarrowSpecial(bcdar: array<nat>, widerhi: nat, sign: bool) returns (r: DecFloat)
    requires bcdar.Length == 34 && Digits(bcdar[..]) && widerhi / 0x400_0000 % 0x20 >= 30
    ensures r == if widerhi / 0x400_0000 % 0x20 == 30 then Infinity(sign)
                 else NaN(sign, widerhi / 0x200_0000 % 2 == 1, Low(Val(bcdar[1..]), 15))
  {
    hide Val, Low, High;
    if widerhi / 0x400_0000 % 0x20 == 30 {
      return Infinity(sign);
    }
    assert bcdar[19..34] == bcdar[1..][33 - 15..];
    TailDigits(bcdar[..]);
    return NaN(sign, widerhi / 0x200_0000 % 2 == 1, Val(bcdar[19..34]));
  }

  lemma TailDigits(s: seq<nat>)
    requires |s| == 34 && Digits(s)
    ensures Low(Val(s[1..]), 15) == Val(s[1..][33 - 15..])
  {
    ValDrop(s[1..], 15);
  }

  /** The digits and fields of the wider number. */
  lemma WideRead(w: seq<nat>, s: seq<nat>)
    requires |w| == 4 && Words32(w) && |s| == 34 && Digits(s) && Canonical(WordsVal(w) % COEFFICIENT_BITS)
    requires s[0] == CombMsd(w[3] / 0x400_0000 % 32) && Val(s[1..]) == FromDeclets(WordsVal(w) % COEFFICIENT_BITS)
    ensures var (comb, sign) := (w[3] / 0x400_0000 % 0x20, w[3] / 0x8000_0000 == 1);
            Decode128(WordsVal(w)) ==
              if comb < 30 then Finite(sign, Val(s), 0x1000 * CombTop(comb) + w[3] / 0x4000 % 0x1000 - BIAS)
              else if comb == 30 then Infinity(sign)
              else NaN(sign, w[3] / 0x200_0000 % 2 == 1, Val(s[1..]))
  {
    hide Val, FromDeclets, Canonical, WordsVal, CombMsd, CombTop, Digits, Decode128, FieldsOf, DecletSpan, ExpSpan, Join, Shift, ToDeclets;
    FieldsOfWord(w);
    DecodedFields(WordsVal(w));
    LayoutsValid();
    var comb := w[3] / 0x400_0000 % 0x20;
    JoinZero(WordsVal(w) % COEFFICIENT_BITS);
    if comb < 30 {
      PartsComb(comb);
      LeadingDigit(QUAD, WordsVal(w) % COEFFICIENT_BITS, CombMsd(comb));
      ValLeading(s);
    }
  }

  /** decFloatToWider and decFloatFromWider one after the other, on a canonical decDouble. */
  method WidenThenNarrow(source: array<nat>, set': DecContext) returns (r: DecFloat)
    requires source.Length == 2 && Words32(source[..]) && Canonical64(WordsVal(source[..]))
    modifies set'
    ensures r == Decode64(WordsVal(source[..])) && set'.status == old(set'.status) && set'.round == old(set'.round)
  {
    hide WordsVal, Canonical64, Decode64, Decode128, Narrowed;
    var wider := new nat[4](_ => 0);
    DecFloatToWider(source, wider);
    CanonicalFits(WordsVal(source[..]), WordsVal(wider[..]));
    WidenNarrow(set'.round, Decode64(WordsVal(source[..])));
    r := DecFloatFromWider(wider, set');
  }

  lemma CanonicalFits(v: nat, w: nat)
    requires Canonical64(v) && Canonical128(w)
    ensures Decode64(v).Fits(DOUBLE) && Canonical(w % COEFFICIENT_BITS)
  {
    LayoutsValid();
    hide Pow10, DecletSpan, ExpSpan, Decode;
    EncodeOfDecode(DOUBLE, v);
  }
}
