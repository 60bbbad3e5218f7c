/** The decimal interchange formats (IEEE 754-2008, section 3.5): sign, five-bit combination field,
    exponent continuation, and declets, from the top of the word down. */
module Interchange {
  import opened Arith
  import opened DecFloats
  import opened RoundingSpec
  import opened Gf2Poly
  import opened BitFields
  import opened Dpd

  /** 2 to the number of bits below the exponent continuation. */
  function DecletSpan(f: Format): nat {
    Pow2(10 * (f.pmax / 3))
  }

  /** 2 to the number of bits in the exponent continuation. */
  function ExpSpan(f: Format): nat
    requires f.Valid()
  {
    2 * f.emax / 3
  }

  /** Formats whose biased exponents just fill three values of the two leading exponent bits. */
  predicate Layout(f: Format): (r: bool)
    ensures r ==> f.Valid() && DecletSpan(f) > 0 && ExpSpan(f) > 1
  {
    f.Basic() && 2 * f.emax == 3 * ExpSpan(f) && ExpSpan(f) % 2 == 0
  }

  lemma LayoutDigits(f: Format)
    requires Layout(f)
    ensures f.pmax == 3 * (f.pmax / 3) + 1
  {
  }

  lemma LayoutsValid()
    ensures Layout(DOUBLE) && ExpSpan(DOUBLE) == 256 && DecletSpan(DOUBLE) == 0x4_0000_0000_0000
    ensures Layout(QUAD) && ExpSpan(QUAD) == 4096 && DecletSpan(QUAD) == 0x4000_0000_0000_0000_0000_0000_0000
  {
    FormatsValid();
    Spans();
  }

  lemma Spans()
    ensures Pow2(50) == 0x4_0000_0000_0000 && Pow2(110) == 0x4000_0000_0000_0000_0000_0000_0000
  {
    hide Pow2;
    TenBits();
    Pow2Add(10, 10);
    Pow2Add(20, 20);
    Pow2Add(40, 10);
    Pow2Add(50, 50);
    Pow2Add(100, 10);
  }

  // ---- the combination field ----

  function CombOf(top: nat, msd: nat): nat {
    if msd >= 8 then 24 + 2 * top + msd % 2 else 8 * top + msd
  }

  function CombMsd(comb: nat): nat {
    if comb < 24 then comb % 8 else if comb < 30 then 8 + comb % 2 else 0
  }

  function CombTop(comb: nat): nat {
    if comb < 24 then comb / 8 else if comb < 30 then (comb - 24) / 2 else 3
  }

  lemma CombParts(top: nat, msd: nat)
    requires top <= 2 && msd <= 9
    ensures CombOf(top, msd) < 30 && CombMsd(CombOf(top, msd)) == msd && CombTop(CombOf(top, msd)) == top
  {
    if msd >= 8 {
      assert msd == 8 || msd == 9;
    }
  }

  lemma PartsComb(comb: nat)
    requires comb < 30
    ensures CombTop(comb) <= 2 && CombMsd(comb) <= 9 && CombOf(CombTop(comb), CombMsd(comb)) == comb
  {
  }

  // ---- the fields of a word ----

  /** low below high, which starts at span. */
  function Join(low: nat, span: nat, high: nat): nat {
    low + span * high
  }

  lemma JoinSplit(low: nat, span: nat, high: nat, n: nat)
    requires low < span
    ensures Join(low, span, high) / span == high && Join(low, span, high) % span == low
    ensures high < n ==> Join(low, span, high) < Join(0, span, n)
  {
    DivModUnique(Join(low, span, high), span, high, low);
    if high < n {
      MulMono(high + 1, n, span);
    }
  }

  lemma SplitJoin(v: nat, span: nat, n: nat)
    requires span > 0
    ensures v == Join(v % span, span, v / span)
    ensures v < Join(0, span, n) ==> v / span < n
  {
    if v / span >= n {
      MulMono(n, v / span, span);
    }
  }

  datatype Fields = Fields(sign: bool, comb: nat, econ: nat, declets: nat) {
    predicate Within(f: Format)
      requires f.Valid()
    {
      comb < 32 && econ < ExpSpan(f) && declets < DecletSpan(f)
    }
  }

  function Assemble(f: Format, x: Fields): nat
    requires f.Valid()
  {
    Join(x.declets, DecletSpan(f), Join(x.econ, ExpSpan(f), Join(x.comb, 32, if x.sign then 1 else 0)))
  }

  /** A bound of the words of a format: 2 to its width. */
  function WordSpan(f: Format): nat
    requires f.Valid()
  {
    Join(0, DecletSpan(f), Join(0, ExpSpan(f), 64))
  }

  function FieldsOf(f: Format, v: nat): Fields
    requires Layout(f)
  {
    var t := v / DecletSpan(f);
    var h := t / ExpSpan(f);
    Fields(h / 32 % 2 == 1, h % 32, t % ExpSpan(f), v % DecletSpan(f))
  }

  lemma FieldsAssembled(f: Format, x: Fields)
    requires Layout(f) && x.Within(f)
    ensures FieldsOf(f, Assemble(f, x)) == x && Assemble(f, x) < WordSpan(f)
  {
    hide DecletSpan, ExpSpan, Layout, Join;
    var (d, e, s) := (DecletSpan(f), ExpSpan(f), if x.sign then 1 else 0);
    JoinSplit(x.comb, 32, s, 2);
    JoinSplit(x.econ, e, Join(x.comb, 32, s), 64);
    JoinSplit(x.declets, d, Join(x.econ, e, Join(x.comb, 32, s)), Join(0, e, 64));
    SixtyFour();
  }

  lemma SixtyFour()
    ensures Join(0, 32, 2) == 64
  {
  }

  lemma AssembledFields(f: Format, v: nat)
    requires Layout(f) && v < WordSpan(f)
    ensures Assemble(f, FieldsOf(f, v)) == v && FieldsOf(f, v).Within(f)
  {
    hide DecletSpan, ExpSpan, Layout, Join;
    var (d, e) := (DecletSpan(f), ExpSpan(f));
    SplitJoin(v, d, Join(0, e, 64));
    SplitJoin(v / d, e, 64);
    SplitJoin(v / d / e, 32, 2);
    SixtyFour();
  }

  // ---- data as words ----

  function Encode(f: Format, x: DecFloat): nat
    requires Layout(f) && x.Fits(f)
  {
    Assemble(f, DatumFields(f, x))
  }

  function DatumFields(f: Format, x: DecFloat): Fields
    requires Layout(f) && x.Fits(f)
  {
    match x
    case Finite(s, c, e) => FiniteFields(s, ToDeclets(c), DecletSpan(f), e - f.Qtiny(), ExpSpan(f))
    case Infinity(s) => Fields(s, 30, 0, 0)
    case NaN(s, signaling, p) => Fields(s, 31, if signaling then ExpSpan(f) / 2 else 0, ToDeclets(p))
  }

  /** The leading digit and the two leading exponent bits share the combination field. */
  function FiniteFields(s: bool, d: nat, dspan: nat, b: nat, espan: nat): Fields
    requires dspan > 0 && espan > 0
  {
    Fields(s, CombOf(b / espan, d / dspan), b % espan, d % dspan)
  }

  function Decode(f: Format, v: nat): DecFloat
    requires Layout(f)
  {
    FieldsDatum(f, FieldsOf(f, v))
  }

  function FieldsDatum(f: Format, x: Fields): DecFloat
    requires f.Valid()
  {
    if x.comb < 30 then
      Finite(x.sign, FromDeclets(Join(x.declets, DecletSpan(f), CombMsd(x.comb))),
             CombTop(x.comb) * ExpSpan(f) + x.econ + f.Qtiny())
    else if x.comb == 30 then Infinity(x.sign)
    else NaN(x.sign, x.econ >= ExpSpan(f) / 2, FromDeclets(x.declets))
  }

  /** The canonical words: declets up to 999, and nothing in the bits without a meaning. */
  predicate CanonicalWord(f: Format, v: nat)
    requires Layout(f)
  {
    v < WordSpan(f) && CanonicalFields(f, FieldsOf(f, v))
  }

  predicate CanonicalFields(f: Format, x: Fields)
    requires f.Valid()
  {
    && Canonical(x.declets)
    && (x.comb == 30 ==> x.econ == 0 && x.declets == 0)
    && (x.comb == 31 ==> x.econ == 0 || x.econ == ExpSpan(f) / 2)
  }

  /** A coefficient's declets: the leading digit, and the rest. */
  lemma CoefficientDeclets(f: Format, c: nat)
    requires Layout(f) && c < Pow10(f.pmax)
    ensures DecletSpan(f) > 0 && ToDeclets(c) / DecletSpan(f) <= 9
    ensures Canonical(ToDeclets(c) % DecletSpan(f))
    ensures c < Pow10(f.pmax - 1) ==> ToDeclets(c) < DecletSpan(f)
  {
    hide Pow10, Pow2, ToDeclets, Canonical;
    var n := f.pmax / 3;
    LayoutDigits(f);
    HighLow(c, 3 * n);
    HighBelow(c, 3 * n, 1);
    var (h, l) := (High(c, 3 * n), Low(c, 3 * n));
    Pow10One();
    assert 3 * n + 1 == f.pmax;
    DecletsSplit(l, h, n, c);
    DecletsBelow(l, n);
    OneDeclet(h);
    ShlIsProduct(h, 10 * n);
    DivModUnique(ToDeclets(c), DecletSpan(f), h, ToDeclets(l));
    DecletsRoundTrip(l);
    if c < Pow10(3 * n) {
      DecletsBelow(c, n);
    }
  }

  lemma OneDeclet(h: nat)
    requires h < 1000
    ensures ToDeclets(h) == h
  {
  }

  lemma {:induction false} ShlIsProduct(a: nat, k: nat)
    ensures Shl(a, k) == Pow2(k) * a
  {
    if k > 0 {
      ShlIsProduct(a, k - 1);
    }
  }

  /** Encoding loses nothing. */
  lemma DecodeOfEncode(f: Format, x: DecFloat)
    requires Layout(f) && x.Fits(f)
    ensures CanonicalWord(f, Encode(f, x)) && Decode(f, Encode(f, x)) == x
  {
    hide Layout, Pow10, DecletSpan, ExpSpan, ToDeclets, FromDeclets, Canonical, Join, CombOf, CombMsd, CombTop;
    DatumOfFields(f, x);
    FieldsAssembled(f, DatumFields(f, x));
  }

  lemma DatumOfFields(f: Format, x: DecFloat)
    requires Layout(f) && x.Fits(f)
    ensures var y := DatumFields(f, x); y.Within(f) && CanonicalFields(f, y) && FieldsDatum(f, y) == x
  {
    hide Pow10, Layout, DecletSpan, ExpSpan, ToDeclets, FromDeclets, Canonical, Join, CombOf, CombMsd, CombTop;
    match x
    case Finite(s, c, e) =>
      CoefficientDeclets(f, c);
      DecletsRoundTrip(c);
      ThreeSpans(f, e - f.Qtiny());
      FiniteRoundTrip(s, ToDeclets(c), DecletSpan(f), e - f.Qtiny(), ExpSpan(f));
    case Infinity(s) =>
      EmptyDeclets();
    case NaN(s, signaling, p) =>
      Pow10Mono(f.pmax - 1, f.pmax);
      CoefficientDeclets(f, p);
      DecletsRoundTrip(p);
  }

  lemma FiniteRoundTrip(s: bool, d: nat, dspan: nat, b: nat, espan: nat)
    requires dspan > 0 && espan > 0 && d / dspan <= 9 && b < Join(0, espan, 3)
    ensures var y := FiniteFields(s, d, dspan, b, espan);
            && y.comb < 30 && y.econ < espan && y.declets < dspan && y.sign == s
            && Join(y.declets, dspan, CombMsd(y.comb)) == d && CombTop(y.comb) * espan + y.econ == b
  {
    SplitJoin(d, dspan, 0);
    SplitJoin(b, espan, 3);
    hide Join, CombMsd, CombTop, CombOf;
    CombParts(b / espan, d / dspan);
    SplitDigits(b, espan);
  }

  lemma SplitDigits(b: nat, espan: nat)
    requires espan > 0
    ensures b / espan * espan + b % espan == b
  {
  }

  lemma EmptyDeclets()
    ensures Canonical(0)
  {
  }

  lemma ThreeSpans(f: Format, b: int)
    requires Layout(f) && b <= f.Etop() - f.Qtiny()
    ensures b < Join(0, ExpSpan(f), 3)
  {
  }

  /** A canonical word is the encoding of what it decodes to: no two words encode one datum. */
  lemma EncodeOfDecode(f: Format, v: nat)
    requires Layout(f) && CanonicalWord(f, v)
    ensures Decode(f, v).Fits(f) && Encode(f, Decode(f, v)) == v
  {
    hide Layout, Pow10, DecletSpan, ExpSpan, ToDeclets, FromDeclets, Canonical, Join, CombOf, CombMsd, CombTop;
    AssembledFields(f, v);
    FieldsOfDatum(f, FieldsOf(f, v));
  }

  lemma FieldsOfDatum(f: Format, x: Fields)
    requires Layout(f) && x.Within(f) && CanonicalFields(f, x)
    ensures FieldsDatum(f, x).Fits(f) && DatumFields(f, FieldsDatum(f, x)) == x
  {
    hide Pow10, Layout, DecletSpan, ExpSpan, ToDeclets, FromDeclets, Canonical, Join, CombOf, CombMsd, CombTop;
    if x.comb < 30 {
      PartsComb(x.comb);
      LeadingDigit(f, x.declets, CombMsd(x.comb));
      BiasedWithin(f, CombTop(x.comb), x.econ);
      FieldsRoundTrip(x, DecletSpan(f), ExpSpan(f));
    } else if x.comb == 31 {
      LeadingDigit(f, x.declets, 0);
      HalfSpan(f);
    }
  }

  lemma HalfSpan(f: Format)
    requires Layout(f)
    ensures 0 < ExpSpan(f) / 2 < ExpSpan(f) && f.pmax >= 1
  {
  }

  lemma BiasedWithin(f: Format, top: nat, econ: nat)
    requires Layout(f) && top <= 2 && econ < ExpSpan(f)
    ensures 0 <= top * ExpSpan(f) + econ <= f.Etop() - f.Qtiny()
  {
    MulMono(top, 2, ExpSpan(f));
  }

  lemma FieldsRoundTrip(x: Fields, dspan: nat, espan: nat)
    requires x.comb < 30 && x.econ < espan && x.declets < dspan
    ensures CombTop(x.comb) * espan + x.econ >= 0
    ensures FiniteFields(x.sign, Join(x.declets, dspan, CombMsd(x.comb)), dspan, CombTop(x.comb) * espan + x.econ, espan) == x
  {
    PartsComb(x.comb);
    hide CombMsd, CombTop, CombOf;
    JoinSplit(x.declets, dspan, CombMsd(x.comb), 0);
    MulMono(0, CombTop(x.comb), espan);
    DivModUnique(CombTop(x.comb) * espan + x.econ, espan, CombTop(x.comb), x.econ);
  }

  /** Declets with a leading digit above them. */
  lemma LeadingDigit(f: Format, declets: nat, msd: nat)
    requires Layout(f) && Canonical(declets) && declets < DecletSpan(f) && msd <= 9
    ensures Canonical(Join(declets, DecletSpan(f), msd))
    ensures ToDeclets(FromDeclets(Join(declets, DecletSpan(f), msd))) == Join(declets, DecletSpan(f), msd)
    ensures FromDeclets(Join(declets, DecletSpan(f), msd)) == FromDeclets(declets) + Shift(msd, f.pmax - 1) < Pow10(f.pmax)
    ensures ToDeclets(FromDeclets(declets)) == declets && FromDeclets(declets) < Pow10(f.pmax - 1)
  {
    hide Pow10, Pow2, ToDeclets, FromDeclets, Canonical, DecletSpan;
    var n := f.pmax / 3;
    LayoutDigits(f);
    SpanIs(f, n, msd);
    var v := Join(declets, DecletSpan(f), msd);
    CanonicalAbove(declets, msd, n, v, Shl(msd, 10 * n));
    DecletsBack(declets);
    DecletsBack(v);
    HighLowUnique(FromDeclets(v), 3 * n, msd, FromDeclets(declets));
    HighBelow(FromDeclets(v), 3 * n, 1);
    Pow10One();
    assert 3 * n + 1 == f.pmax;
  }

  lemma SpanIs(f: Format, n: nat, msd: nat)
    requires n == f.pmax / 3
    ensures DecletSpan(f) == Pow2(10 * n) && forall d: nat {:trigger Join(d, DecletSpan(f), msd)} ::
              Join(d, DecletSpan(f), msd) == d + Shl(msd, 10 * n)
  {
    ShlIsProduct(msd, 10 * n);
  }

  lemma {:induction false} CanonicalAbove(l: nat, h: nat, n: nat, v: nat, s: nat)
    requires Canonical(l) && l < Pow2(10 * n) && h < 1000 && v == l + s && s == Shl(h, 10 * n)
    ensures Canonical(v) && FromDeclets(l) < Pow10(3 * n)
    ensures FromDeclets(v) == FromDeclets(l) + Shift(h, 3 * n)
    decreases n
  {
    if n == 0 {
      NothingAbove(l, h, v);
    } else {
      hide Pow10, Shift, Shl, Pow2, FromDeclets, Canonical;
      TenPerDeclet(n - 1, 10 * n, 3 * n);
      ShiftPerDeclet(h, n - 1, 3 * n);
      ShlPerDeclet(h, n - 1, 10 * n);
      DecletBelow(l, Pow2(10 * (n - 1)), 0);
      NextDeclet(l);
      var s1 := Shl(h, 10 * (n - 1));
      CanonicalAbove(l / 1024, h, n - 1, l / 1024 + s1, s1);
      CanonicalStep(l, s1, Shift(h, 3 * (n - 1)), v);
    }
  }

  lemma CanonicalStep(l: nat, s: nat, t: nat, v: nat)
    requires v == l + 1024 * s
    requires l % 1024 <= 999 && Canonical(l / 1024 + s) && FromDeclets(l / 1024 + s) == FromDeclets(l / 1024) + t
    ensures Canonical(v) && FromDeclets(v) == FromDeclets(l) + 1000 * t
  {
    hide FromDeclets, Canonical;
    NextDeclet(l);
    NextDeclet(v);
    DecletBelow(l, 0, s);
  }

  lemma NothingAbove(l: nat, h: nat, v: nat)
    requires l < Pow2(0) && h < 1000 && v == l + Shl(h, 0)
    ensures Canonical(v) && FromDeclets(l) < Pow10(0) && FromDeclets(v) == FromDeclets(l) + Shift(h, 0)
  {
  }

  lemma NextDeclet(v: nat)
    ensures FromDeclets(v) == v % 1024 + 1000 * FromDeclets(v / 1024)
    ensures Canonical(v) <==> v % 1024 <= 999 && Canonical(v / 1024)
  {
  }

  lemma DecletBelow(l: nat, p: nat, h: nat)
    ensures l < 1024 * p <==> l / 1024 < p
    ensures (l + 1024 * h) / 1024 == l / 1024 + h && (l + 1024 * h) % 1024 == l % 1024
  {
  }

  // ---- some words ----

  lemma DoubleWord(s: bool, comb: nat, econ: nat, d: nat)
    requires comb < 32 && econ < 0x100 && d < 0x4_0000_0000_0000
    ensures Layout(DOUBLE) && FieldsOf(DOUBLE, (if s then 0x8000_0000_0000_0000 else 0) + 0x400_0000_0000_0000 * comb + 0x4_0000_0000_0000 * econ + d)
         == Fields(s, comb, econ, d)
  {
    LayoutsValid();
    hide DecletSpan, ExpSpan;
    FieldsAssembled(DOUBLE, Fields(s, comb, econ, d));
  }

  /** Words of decDouble: zero, small numbers, a leading nine, infinities and NaNs. */
  lemma DoubleWords()
    ensures Layout(DOUBLE)
    ensures Decode(DOUBLE, 0x2238_0000_0000_0000) == Finite(false, 0, 0)
    ensures Decode(DOUBLE, 0xA238_0000_0000_0001) == Finite(true, 1, 0)
    ensures Decode(DOUBLE, 0x2234_0000_0000_0001) == Finite(false, 1, -1)
    ensures Decode(DOUBLE, 0x6E38_0000_0000_0000) == Finite(false, 9_000_000_000_000_000, 0)
    ensures Decode(DOUBLE, 0x7800_0000_0000_0000) == Infinity(false) && Decode(DOUBLE, 0xF800_0000_0000_0000) == Infinity(true)
    ensures Decode(DOUBLE, 0x7C00_0000_0000_0000) == NaN(false, false, 0)
    ensures Decode(DOUBLE, 0x7E00_0000_0000_0001) == NaN(false, true, 1)
  {
    LayoutsValid();
    FormatsValid();
    SmallDeclets();
    NineLeads();
    hide DecletSpan, ExpSpan, FromDeclets, FieldsOf;
    DoubleWord(false, 8, 0x8E, 0);
    DoubleWord(true, 8, 0x8E, 1);
    DoubleWord(false, 8, 0x8D, 1);
    DoubleWord(false, 27, 0x8E, 0);
    DoubleWord(false, 30, 0, 0);
    DoubleWord(true, 30, 0, 0);
    DoubleWord(false, 31, 0, 0);
    DoubleWord(false, 31, 0x80, 1);
  }

  lemma SmallDeclets()
    ensures FromDeclets(0) == 0 && FromDeclets(1) == 1
  {
    assert FromDeclets(0) == 0;
  }

  lemma NineLeads()
    ensures FromDeclets(9 * 0x4_0000_0000_0000) == 9_000_000_000_000_000
  {
    assert FromDeclets(9) == 9;
    hide FromDeclets;
    ZeroDeclet(9);
    ZeroDeclet(9 * 0x400);
    ZeroDeclet(9 * 0x10_0000);
    ZeroDeclet(9 * 0x4000_0000);
    ZeroDeclet(9 * 0x100_0000_0000);
  }

  lemma ZeroDeclet(v: nat)
    ensures FromDeclets(0x400 * v) == 1000 * FromDeclets(v)
  {
  }

  lemma QuadWord(s: bool, comb: nat, econ: nat, d: nat)
    requires comb < 32 && econ < 0x1000 && d < 0x4000_0000_0000_0000_0000_0000_0000
    ensures Layout(QUAD) && FieldsOf(QUAD, (if s then 0x8000_0000_0000_0000_0000_0000_0000_0000 else 0)
                                           + 0x400_0000_0000_0000_0000_0000_0000_0000 * comb
                                           + 0x4000_0000_0000_0000_0000_0000_0000 * econ + d)
         == Fields(s, comb, econ, d)
  {
    LayoutsValid();
    hide DecletSpan, ExpSpan;
    FieldsAssembled(QUAD, Fields(s, comb, econ, d));
  }

  /** The same of decQuad. */
  lemma QuadWords()
    ensures Layout(QUAD)
    ensures Decode(QUAD, 0x2208_0000_0000_0000_0000_0000_0000_0000) == Finite(false, 0, 0)
    ensures Decode(QUAD, 0xA207_C000_0000_0000_0000_0000_0000_0001) == Finite(true, 1, -1)
    ensures Decode(QUAD, 0xF800_0000_0000_0000_0000_0000_0000_0000) == Infinity(true)
    ensures Decode(QUAD, 0x7C00_0000_0000_0000_0000_0000_0000_0000) == NaN(false, false, 0)
    ensures Decode(QUAD, 0xFE00_0000_0000_0000_0000_0000_0000_0001) == NaN(true, true, 1)
  {
    LayoutsValid();
    FormatsValid();
    SmallDeclets();
    hide DecletSpan, ExpSpan, FromDeclets, FieldsOf;
    QuadWord(false, 8, 0x820, 0);
    QuadWord(true, 8, 0x81F, 1);
    QuadWord(true, 30, 0, 0);
    QuadWord(false, 31, 0, 0);
    QuadWord(true, 31, 0x800, 1);
  }
}
