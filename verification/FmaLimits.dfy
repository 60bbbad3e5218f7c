/** Exactly where decFloatFMA (decBasic.c:2128-2161) is a correctly rounded fused multiply-add: the
    shapes of operands, lengths and distance of their exponents, for which it always is, and a wrong
    result for every other shape. */
module FmaLimits {
  import opened Arith
  import opened TenPowers
  import opened DecFloats
  import opened RoundingSpec
  import opened RoundingLaws
  import opened Truncation
  import opened BaseBillion
  import opened Multiply
  import opened Add
  import opened Fma

  /** Finite operands of the format whose high term has h digits, whose low one has n, and whose
      exponents are gap apart. */
  predicate HasShape(f: Format, l: DecFloat, r: DecFloat, a: DecFloat, h: nat, gap: nat, n: nat) {
    && l.Finite? && r.Finite? && a.Finite? && l.Fits(f) && r.Fits(f) && a.Fits(f)
    && HighTerm(l, r, a).coeff > 0
    && NumDigits(HighTerm(l, r, a).coeff) == h && NumDigits(LowTerm(l, r, a).coeff) == n
    && HighTerm(l, r, a).exp - LowTerm(l, r, a).exp == gap
  }

  /** The code delivers the reference result. */
  ghost predicate FmaExact(f: Format, mode: Rounding, l: DecFloat, r: DecFloat, a: DecFloat)
    requires f.Valid() && l.Finite? && r.Finite? && a.Finite?
  {
    SumComputed(f, mode, HighTerm(l, r, a), LowTerm(l, r, a)) == FmaSpec(f, mode, l, r, a)
  }

  /** The code delivers it for all operands of a shape, in all modes. */
  ghost predicate ShapeExact(f: Format, h: nat, gap: nat, n: nat)
    requires f.Valid()
  {
    forall mode: Rounding, l: DecFloat, r: DecFloat, a: DecFloat ::
      HasShape(f, l, r, a, h, gap, n) ==> FmaExact(f, mode, l, r, a)
  }

  /** The guard of the reduction is false, or the low term ends before the high one begins. */
  predicate ShapeClear(f: Format, h: nat, gap: nat, n: nat) {
    gap == 0 || h + gap - n <= f.pmax + 2 || n <= gap
  }

  // ---- a high term whose discarded digits are all nines ----

  /** 66...67 with k digits: one third of 2 * 10^k + 1. */
  function Sixes(k: nat): nat {
    if k == 0 then 1 else 10 * Sixes(k - 1) - 3
  }

  lemma {:induction false} SixesTimesThree(k: nat)
    ensures 3 * Sixes(k) == 2 * Pow10(k) + 1
  {
    if k > 0 {
      SixesTimesThree(k - 1);
    }
  }

  /** The product of 99...97 and 66...67, of i and j digits, is one less than a multiple of 10^j. */
  function Rest(i: nat, j: nat): int
    requires j <= i
  {
    Sixes(i) - 2 * Pow10(i - j)
  }

  lemma NinesProduct(i: nat, j: nat)
    requires 1 <= j <= i
    ensures Pow10(i - 1) < Rest(i, j) < Pow10(i)
    ensures Pow10(j) > 3 && Prod(Pow10(j) - 3, Sixes(i)) + 1 == Shift(Rest(i, j), j)
  {
    var (p, c) := (Pow10(i - j), Rest(i, j));
    SixesTimesThree(i);
    assert Pow10(i) == 10 * Pow10(i - 1) && Pow10(1) == 10;
    Pow10Mono(i - j, i - 1);
    Pow10Mono(1, j);
    hide Pow10, Shift, Prod, Sixes;
    ShiftSum(2 * p, c, j);
    ShiftSum(p, p, j);
    ShiftOfPow10(i - j, j);
    ShiftIsProd(Sixes(i), j);
    ProdLaws(Pow10(j) - 3, 3, Sixes(i));
    ProdThree(Sixes(i));
  }

  lemma ShiftIsProd(a: nat, k: nat)
    ensures Shift(a, k) == Prod(Pow10(k), a)
  {
    ShiftIsProduct(a, k);
  }

  lemma ProdThree(a: nat)
    ensures Prod(3, a) == 3 * a
  {
  }

  /** The length of the product. */
  lemma ProductLength(i: nat, j: nat, H: nat)
    requires 1 <= j <= i && Pow10(i - 1) < Rest(i, j) < Pow10(i) && H + 1 == Shift(Rest(i, j), j)
    ensures HasLength(H, i + j) && NumDigits(H) == i + j
  {
    hide Pow10, Shift, NumDigits, Rest;
    var c := Rest(i, j);
    ShiftMono(Pow10(i - 1), c, j);
    ShiftMono(c, Pow10(i), j);
    ShiftOfPow10(i - 1, j);
    ShiftOfPow10(i, j);
    SameLength(H, i + j);
  }

  /** Cutting the product at precision p leaves nines, and the next number up is on the grid. */
  lemma NextOfProduct(f: Format, i: nat, j: nat, H: nat)
    requires f.Valid() && 1 <= j <= i <= f.pmax && i + j > f.pmax && f.Etop() >= f.pmax
    requires 0 < Rest(i, j) < Pow10(i) && H + 1 == Shift(Rest(i, j), j)
    ensures OnGrid(f, Scaled(H + 1, 0)) && Scaled(H + 1, 0) <= Nmax(f)
  {
    var (d, c) := (i + j - f.pmax, Rest(i, j));
    var k := Shift(c, f.pmax - i);
    hide Pow10, Shift, Scale, Rest;
    ShiftMono(c, Pow10(i), f.pmax - i);
    ShiftOfPow10(i, f.pmax - i);
    ShiftAdd(c, f.pmax - i, d);
    ScaledShift(k, 0, d);
    assert GridPoint(f, Scaled(H + 1, 0), k, d);
    NmaxCovers(f, k, d);
  }

  // ---- the wrong result ----

  /** Rounding down two magnitudes with a number of the grid between them. */
  lemma DownDiffers(f: Format, m: real, m': real, g: real, pref: int, pref': int)
    requires f.Valid() && 0.0 < m' < g <= m && OnGrid(f, g) && g <= Nmax(f)
    ensures Round(f, Down, false, m, pref) != Round(f, Down, false, m', pref')
  {
    RoundCorrect(f, Down, false, m, pref);
    RoundCorrect(f, Down, false, m', pref');
    var (o, o') := (Round(f, Down, false, m, pref), Round(f, Down, false, m', pref'));
    var v: real :| Correct(f, Down, false, m, v) && Delivers(f, Down, false, m, v, o);
    var v': real :| Correct(f, Down, false, m', v') && Delivers(f, Down, false, m', v', o');
    hide Round, OnGrid, Scaled, Pow10;
    assert v >= g > v';
  }

  /** A high term H whose kept part is about to step, a low term of at least one unit that is reduced to
      less than one: the step is missed. */
  lemma StepMissed(f: Format, H: nat, n: nat, gap: nat)
    requires f.Valid() && H > 0 && 1 <= gap < n && NumDigits(H) > f.pmax + 2
    requires NumDigits(H) + gap - n > f.pmax + 2
    requires OnGrid(f, Scaled(H + 1, 0)) && Scaled(H + 1, 0) <= Nmax(f)
    ensures var (hi, lo) := (Term(false, H, 0), Term(false, Pow10(n - 1), 0 - gap));
            SumComputed(f, Down, hi, lo) != SumRounded(f, Down, hi, lo)
  {
    var (hi, lo) := (Term(false, H, 0), Term(false, Pow10(n - 1), 0 - gap));
    var lo' := ReducedPower(f, hi, lo, n);
    hide Scale, Round, Pow10, OnGrid, NumDigits, LowUsed, Reduces;
    StepValues(H, n, gap);
    var (s, s') := (Scaled(Pow10(n - 1), 0 - gap), Scaled(1, -3));
    PositiveSum(f, hi, lo, Scaled(H, 0) + s);
    PositiveSum(f, hi, lo', Scaled(H, 0) + s');
    DownDiffers(f, Scaled(H, 0) + s, Scaled(H, 0) + s', Scaled(H + 1, 0), 0 - gap, -3);
  }

  lemma PositiveSum(f: Format, hi: Term, lo: Term, m: real)
    requires f.Valid() && !hi.sign && !lo.sign && hi.Magnitude() + lo.Magnitude() == m > 0.0
    ensures SumRounded(f, Down, hi, lo) == Round(f, Down, false, m, lo.exp)
  {
    hide Scale, Round;
  }

  /** The low term reaches the next unit of the high one, its substitute does not. */
  lemma StepValues(H: nat, n: nat, gap: nat)
    requires 1 <= gap < n
    ensures 0.0 < Scaled(H, 0) + Scaled(1, -3) < Scaled(H + 1, 0) <= Scaled(H, 0) + Scaled(Pow10(n - 1), 0 - gap)
  {
    Pow10One();
    hide Scale, Pow10, Ten;
    ScaledSum(H, 1, 0);
    UnitOrder(-3, 0);
    ScaledOfPow10(n - 1, 0 - gap);
    ScaledOfPow10(0, 0);
    TenMono(0 + 0, n - 1 + (0 - gap));
    ScaledOrder(1, 9, -3);
    ScaledNonNegative(H, 0);
  }

  /** The power of ten is reduced to a one, three places below the high term. */
  lemma ReducedPower(f: Format, hi: Term, lo: Term, n: nat) returns (lo': Term)
    requires f.Valid() && hi.exp == 0 && n >= 1 && lo.coeff == Pow10(n - 1) && NumDigits(hi.coeff) > f.pmax + 2
    requires lo.exp < 0 && NumDigits(hi.coeff) - lo.exp - n > f.pmax + 2
    ensures Reduces(f, hi, lo) && lo' == LowUsed(f, hi, lo) == Term(lo.sign, 1, -3)
  {
    hide NumDigits, High;
    lo' := LowUsed(f, hi, lo);
    assert Pow10(n) == 10 * Pow10(n - 1);
    SameLength(lo.coeff, n);
    hide Pow10;
    ShiftOne(0, n - 1);
    Pow10Positive(n - 1);
    HighLowUnique(lo.coeff, n - 1, 1, 0);
  }

  /** For every shape that is not clear there are operands of the format with a wrong result. */
  lemma ShapeFails(f: Format, h: nat, gap: nat, n: nat) returns (l: DecFloat, r: DecFloat, a: DecFloat)
    requires f.Basic() && h <= 2 * f.pmax && n <= f.pmax && !ShapeClear(f, h, gap, n)
    ensures l == Finite(false, Pow10(h / 2) - 3, 0) && r == Finite(false, Sixes((h + 1) / 2), 0)
    ensures a == Finite(false, Pow10(n - 1), 0 - gap)
    ensures HasShape(f, l, r, a, h, gap, n) && !FmaExact(f, Down, l, r, a)
  {
    var (i, j) := ((h + 1) / 2, h / 2);
    NinesProduct(i, j);
    l, r, a := Finite(false, Pow10(j) - 3, 0), Finite(false, Sixes(i), 0), Finite(false, Pow10(n - 1), 0 - gap);
    WitnessFits(f, i, j, n, gap);
    hide Pow10, Shift, Sixes, NumDigits, Prod, SumComputed, SumRounded;
    var H := Prod(Pow10(j) - 3, Sixes(i));
    ProductLength(i, j, H);
    NextOfProduct(f, i, j, H);
    StepMissed(f, H, n, gap);
    SameLength(a.coeff, n);
    FmaIsSum(f, Down, l, r, a);
  }

  lemma SixteenShifts()
    ensures Shift(1, 16) == 10_000_000_000_000_000
  {
    NineShifts(1, 7);
    ThreeShifts(1, 4);
    ThreeShifts(1, 1);
    assert Shift(1, 1) == 10;
  }

  /** A wrong result in the 16-digit format, rounding towards zero: 9999999999999997 * 6666666666666667 + 1. */
  lemma DoubleExample()
    ensures !FmaExact(DOUBLE, Down, Finite(false, 9999999999999997, 0), Finite(false, 6666666666666667, 0), Finite(false, 10, -1))
  {
    FormatsValid();
    Literals();
    hide Pow10, Sixes, FmaExact, HasShape;
    var l, r, a := ShapeFails(DOUBLE, 32, 1, 2);
  }

  lemma Literals()
    ensures Pow10(16) == 10_000_000_000_000_000 && Sixes(16) == 6_666_666_666_666_667 && Pow10(1) == 10
  {
    SixesTimesThree(16);
    ShiftOne(0, 16);
    Pow10One();
    hide Pow10, Shift, Sixes;
    SixteenShifts();
  }

  lemma WitnessFits(f: Format, i: nat, j: nat, n: nat, gap: nat)
    requires f.Valid() && 1 <= j <= i <= f.pmax && 1 <= n <= f.pmax && gap < n && f.emax >= 2 * f.pmax
    ensures Pow10(j) >= 3 && Pow10(j) - 3 < Pow10(f.pmax) && Sixes(i) < Pow10(f.pmax)
    ensures HasLength(Pow10(n - 1), n) && Pow10(n - 1) < Pow10(f.pmax)
    ensures f.Qtiny() <= 0 - gap && 0 <= f.Etop()
  {
    Pow10One();
    Pow10Mono(1, j);
    Pow10Mono(j, f.pmax);
    Pow10Mono(i, f.pmax);
    Pow10Mono(1, i);
    Pow10Strict(n - 1, f.pmax);
    Pow10Strict(n - 1, n);
    SixesTimesThree(i);
    hide Pow10, Sixes;
  }

  /** The lengths that the terms of operands can have: one of them is the addend's. */
  predicate PossibleLengths(f: Format, h: nat, n: nat) {
    (h <= f.pmax && n <= 2 * f.pmax) || (h <= 2 * f.pmax && n <= f.pmax)
  }

  lemma ShapesArePossible(f: Format, l: DecFloat, r: DecFloat, a: DecFloat, h: nat, gap: nat, n: nat)
    requires f.Basic() && HasShape(f, l, r, a, h, gap, n)
    ensures PossibleLengths(f, h, n)
  {
    hide Pow10, NumDigits, Prod;
    ProductBound(f, r.coeff, l.coeff);
    NumDigitsBound(a.coeff, f.pmax);
    NumDigitsBound(Prod(l.coeff, r.coeff), 2 * f.pmax);
  }

  /** The fused multiply-add is right for all operands of a shape if and only if the shape is clear. */
  lemma FmaCorrectIff(f: Format, h: nat, gap: nat, n: nat)
    requires f.Basic() && PossibleLengths(f, h, n)
    ensures ShapeExact(f, h, gap, n) <==> ShapeClear(f, h, gap, n)
  {
    if ShapeClear(f, h, gap, n) {
      forall mode: Rounding, l: DecFloat, r: DecFloat, a: DecFloat | HasShape(f, l, r, a, h, gap, n)
        ensures FmaExact(f, mode, l, r, a)
      {
        hide SumComputed, SumRounded, FmaSpec, NumDigits, Prod;
        ClearIsExact(f, mode, HighTerm(l, r, a), LowTerm(l, r, a));
        FmaIsSum(f, mode, l, r, a);
      }
    } else {
      var l, r, a := ShapeFails(f, h, gap, n);
      assert HasShape(f, l, r, a, h, gap, n) && !FmaExact(f, Down, l, r, a);
    }
  }
}
