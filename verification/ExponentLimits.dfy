/** When a string's exponent may be replaced. An exponent of more significant digits than the format's greatest is
    taken as twice that one (decCommon.c:779-1005), so a number whose coefficient makes up for it is misread. */
module ExponentLimits {
  import opened Arith
  import opened TenPowers
  import opened DecFloats
  import opened RoundingSpec
  import opened RoundingLaws
  import opened Truncation
  import opened Bcd
  import opened Add
  import opened Text
  import opened Grammar

  // ---- numbers of one coefficient and two exponents ----

  lemma OneScaled(e: int)
    ensures Scaled(1, e) == Ten(e)
  {
    hide Ten;
    TimesOne(Ten(e));
  }

  lemma TimesOne(x: real)
    ensures Times(1.0, x) == x
  {
  }

  lemma ScaledPlaces(c: nat, q: int, k: nat)
    ensures Scaled(Shift(1, k), q) == Ten(q + k) && Scaled(c, q) <= Scaled(c, q + k)
    ensures k > 0 ==> 10.0 * Scaled(c, q) <= Scaled(c, q + k)
  {
    hide Scale, Shift, Ten;
    ScaledShift(1, q, k);
    OneScaled(q + k);
    ScaledShift(c, q, k);
    ShiftGrows(c, k);
    ScaledOrder(Shift(c, k), c, q);
    if k > 0 {
      ScaledShift(c, q + k - 1, 1);
      TenTimes(c, q + k - 1);
      ScaledShift(c, q, k - 1);
      ShiftGrows(c, k - 1);
      ScaledOrder(Shift(c, k - 1), c, q);
    }
  }

  lemma TenTimes(c: nat, q: int)
    ensures Scaled(Shift(c, 1), q) == 10.0 * Scaled(c, q)
  {
    hide Ten;
    assert Shift(c, 1) == 10 * c by { ShiftOne(c, 1); ShiftZero(c); }
    TimesTenOf(c as real, Ten(q));
  }

  lemma TimesTenOf(x: real, y: real)
    ensures Times(10.0 * x, y) == 10.0 * Times(x, y)
  {
    TimesTen(y, x);
    TimesComm(10.0 * x, y);
    TimesComm(x, y);
  }

  /** The digits of a number and its exponent place it between powers of ten. */
  lemma Adjusted(c: nat, e: int)
    requires c > 0
    ensures Ten(NumDigits(c) + e - 1) <= Scaled(c, e) < Ten(NumDigits(c) + e)
  {
    hide Scale, Shift, Ten, Pow10, NumDigits;
    NumDigitsIsLength(c);
    var n := NumDigits(c);
    ShiftOne(0, n - 1);
    ShiftOne(0, n);
    ScaledPlaces(0, e, n - 1);
    ScaledPlaces(0, e, n);
    ScaledOrder(c, Pow10(n - 1), e);
    ScaledOrder(c, Pow10(n), e);
  }

  /** The last digit falls beyond the greatest place exactly from the first power of ten that is too great. */
  lemma PlaceBeyond(f: Format, m: real, c: nat, q: int)
    requires f.Valid() && Truncates(f, m, c, q)
    ensures q > f.Etop() <==> m >= Ten(f.emax + 1)
  {
    hide Scale, Shift, Ten, Pow10;
    var (p, t) := (f.pmax, f.Etop());
    if q > t {
      ShiftOne(0, p - 1);
      ScaledPlaces(0, q, p - 1);
      ScaledOrder(c, Pow10(p - 1), q);
      TenMono(t + p, q + p - 1);
      QtinyBelowEtop(f);
    } else {
      ShiftOne(0, p);
      ScaledPlaces(0, t, p);
      ScaledPlaces(c + 1, q, t - q);
      ScaledOrder(c + 1, Pow10(p), t);
    }
  }

  lemma Overflowing(f: Format, mode: Rounding, sign: bool, m: real, pref: int)
    requires f.Valid() && m > 0.0 && m >= Ten(f.emax + 1)
    ensures Round(f, mode, sign, m, pref) == Overflowed(f, mode, sign)
  {
    hide Scale, Ten, Pow10, Overflowed;
    TruncationExists(f, m);
    var c: nat, q: int :| Truncates(f, m, c, q);
    RoundTruncated(f, mode, sign, m, pref, c, q);
    PlaceBeyond(f, m, c, q);
  }

  /** Less than half of the least positive number. */
  lemma Vanishing(f: Format, mode: Rounding, sign: bool, m: real, pref: int)
    requires f.Valid() && m > 0.0 && 2.0 * m < Ten(f.Qtiny())
    ensures Round(f, mode, sign, m, pref) == RoundAt(f, mode, sign, 0, f.Qtiny(), BelowHalf, true, 0)
  {
    hide Scale, Ten, Pow10;
    BelowTiny(f, m);
    RoundTruncated(f, mode, sign, m, pref, 0, f.Qtiny());
    ResidueDistance(f, m, 0, f.Qtiny(), ResidueOf(Discarded(m, 0, f.Qtiny())));
    TenMono(f.Qtiny(), f.Emin());
  }

  lemma BelowTiny(f: Format, m: real)
    requires f.Valid() && 0.0 < m < Ten(f.Qtiny())
    ensures Truncates(f, m, 0, f.Qtiny()) && Scaled(0, f.Qtiny()) == 0.0 && Scaled(1, f.Qtiny()) == Ten(f.Qtiny())
  {
    hide Scale, Ten;
    Pow10Positive(f.pmax);
    ZeroScale(f.Qtiny());
    OneScaled(f.Qtiny());
  }

  /** What rounding down leaves. */
  lemma DownLeaves(f: Format, sign: bool, m: real, pref: int, c: nat, q: int)
    requires f.Valid() && m > 0.0 && Truncates(f, m, c, q) && q <= f.Etop()
    ensures var o := Round(f, Down, sign, m, pref);
            Overflow !in o.flags && o.value.Finite? && o.value.Magnitude() == Scaled(c, q)
  {
    hide Scale, Ten, Pow10, Toward;
    RoundTruncated(f, Down, sign, m, pref, c, q);
    ResidueDistance(f, m, c, q, ResidueOf(Discarded(m, c, q)));
    ScaledNonNegative(c, q);
    if c > 0 {
      TowardValue(c, q, if pref < f.Etop() then pref else f.Etop());
    }
  }

  /** Two magnitudes a power of ten apart round apart in mode Down or HalfUp, unless both overflow or both vanish. */
  lemma RoundApart(f: Format, sign: bool, m1: real, m2: real, p1: int, p2: int)
    requires f.Valid() && 0.0 < m1 && 10.0 * m1 <= m2 && m1 < Ten(f.emax + 1) && 2.0 * m2 >= Ten(f.Qtiny())
    ensures Round(f, Down, sign, m1, p1) != Round(f, Down, sign, m2, p2)
         || Round(f, HalfUp, sign, m1, p1) != Round(f, HalfUp, sign, m2, p2)
  {
    if m2 < Ten(f.Qtiny()) {
      HalfApart(f, sign, m1, m2, p1, p2);
    } else {
      DownApart(f, sign, m1, m2, p1, p2);
    }
  }

  lemma HalfApart(f: Format, sign: bool, m1: real, m2: real, p1: int, p2: int)
    requires f.Valid() && 0.0 < m1 && 10.0 * m1 <= m2 < Ten(f.Qtiny()) && 2.0 * m2 >= Ten(f.Qtiny())
    ensures Round(f, HalfUp, sign, m1, p1) != Round(f, HalfUp, sign, m2, p2)
  {
    hide Scale, Ten;
    var q := f.Qtiny();
    Vanishing(f, HalfUp, sign, m1, p1);
    BelowTiny(f, m2);
    RoundTruncated(f, HalfUp, sign, m2, p2, 0, q);
    ResidueDistance(f, m2, 0, q, ResidueOf(Discarded(m2, 0, q)));
    QtinyBelowEtop(f);
    Pow10Mono(1, f.pmax);
    Pow10One();
    hide Pow10;
  }

  lemma DownApart(f: Format, sign: bool, m1: real, m2: real, p1: int, p2: int)
    requires f.Valid() && 0.0 < m1 && 10.0 * m1 <= m2 && m1 < Ten(f.emax + 1) && m2 >= Ten(f.Qtiny())
    ensures Round(f, Down, sign, m1, p1) != Round(f, Down, sign, m2, p2)
  {
    hide Scale, Ten, Pow10, Truncates, RoundAt;
    TruncationExists(f, m1);
    TruncationExists(f, m2);
    var c1: nat, q1: int :| Truncates(f, m1, c1, q1);
    var c2: nat, q2: int :| Truncates(f, m2, c2, q2);
    PlaceBeyond(f, m1, c1, q1);
    PlaceBeyond(f, m2, c2, q2);
    DownLeaves(f, sign, m1, p1, c1, q1);
    HalfKept(f, m2, c2, q2);
    assert Scaled(c1, q1) <= m1 by { TruncationBelow(f, m1, c1, q1); }
    if q2 <= f.Etop() {
      DownLeaves(f, sign, m2, p2, c2, q2);
    } else {
      Overflowing(f, Down, sign, m2, p2);
      assert Overflow in Overflowed(f, Down, sign).flags;
    }
  }

  lemma TruncationBelow(f: Format, m: real, c: nat, q: int)
    requires Truncates(f, m, c, q)
    ensures Scaled(c, q) <= m
  {
  }

  /** A truncation that is not zero keeps more than half. */
  lemma HalfKept(f: Format, m: real, c: nat, q: int)
    requires f.Valid() && Truncates(f, m, c, q) && m >= Ten(f.Qtiny())
    ensures 2.0 * Scaled(c, q) > m
  {
    hide Scale, Ten;
    assert c > 0 by {
      if c == 0 {
        Pow10Positive(f.pmax - 1);
        OneScaled(q);
        assert q == f.Qtiny();
      }
    }
    hide Pow10;
    SumScaled(c, q);
    ScaledOrder(1, c, q);
  }

  lemma SumScaled(c: nat, q: int)
    ensures Scaled(c + 1, q) == Scaled(c, q) + Scaled(1, q)
  {
    hide Scale;
    ScaleSum(c as real, 1.0, q);
    assert (c + 1) as real == c as real + 1.0;
  }

  // ---- exponents that are replaced ----

  /** One coefficient at either of two exponents is the same to the format. */
  predicate Alike(f: Format, c: nat, lo: int, hi: int) {
    || lo == hi
    || (if c == 0 then lo >= f.Etop() || hi <= f.Qtiny()
        else NumDigits(c) + lo - 1 > f.emax || (hi < f.Qtiny() && 2 * c < Pow10(f.Qtiny() - hi)))
  }

  lemma AlikeZero(f: Format, sign: bool, lo: int, hi: int)
    requires f.Valid() && lo < hi
    ensures (forall mode :: RoundScaled(f, mode, sign, 0, lo) == RoundScaled(f, mode, sign, 0, hi)) <==> Alike(f, 0, lo, hi)
  {
    ZeroScale(lo);
    ZeroScale(hi);
    QtinyBelowEtop(f);
    hide Scale;
    forall mode: Rounding
      ensures RoundScaled(f, mode, sign, 0, lo) == Outcome(Finite(sign, 0, Clamp(f, lo)), {})
      ensures RoundScaled(f, mode, sign, 0, hi) == Outcome(Finite(sign, 0, Clamp(f, hi)), {})
    {
    }
    assert RoundScaled(f, Down, sign, 0, lo) == Outcome(Finite(sign, 0, Clamp(f, lo)), {});
  }

  lemma TooSmall(f: Format, c: nat, hi: int)
    requires f.Valid() && c > 0
    ensures hi < f.Qtiny() && 2 * c < Pow10(f.Qtiny() - hi) <==> 2.0 * Scaled(c, hi) < Ten(f.Qtiny())
  {
    hide Scale, Ten, Pow10, Shift;
    var q := f.Qtiny();
    DoubleScaled(c, hi);
    if hi < q {
      ShiftOne(0, q - hi);
      ScaledPlaces(0, hi, q - hi);
      ScaledOrder(2 * c, Pow10(q - hi), hi);
    } else {
      OneScaled(q);
      ScaledPlaces(2 * c, q, hi - q);
      ScaledOrder(2 * c, 1, q);
    }
  }

  lemma DoubleScaled(c: nat, q: int)
    ensures Scaled(2 * c, q) == 2.0 * Scaled(c, q)
  {
    hide Scale;
    ScaleSum(c as real, c as real, q);
    assert (2 * c) as real == c as real + c as real;
  }

  lemma AlikePositive(f: Format, sign: bool, c: nat, lo: int, hi: int)
    requires f.Valid() && c > 0 && lo < hi
    ensures (forall mode :: RoundScaled(f, mode, sign, c, lo) == RoundScaled(f, mode, sign, c, hi)) <==> Alike(f, c, lo, hi)
  {
    hide Scale, Ten, Pow10, NumDigits, Overflowed, Round, RoundAt;
    var (m1, m2) := (Scaled(c, lo), Scaled(c, hi));
    ScaledNonNegative(c, lo);
    ScaledPlaces(c, lo, hi - lo);
    Adjusted(c, lo);
    TooSmall(f, c, hi);
    var n := NumDigits(c);
    if n + lo - 1 > f.emax {
      TenMono(f.emax + 1, n + lo - 1);
      forall mode
        ensures RoundScaled(f, mode, sign, c, lo) == RoundScaled(f, mode, sign, c, hi)
      {
        Overflowing(f, mode, sign, m1, lo);
        Overflowing(f, mode, sign, m2, hi);
      }
    } else if 2.0 * m2 < Ten(f.Qtiny()) {
      forall mode
        ensures RoundScaled(f, mode, sign, c, lo) == RoundScaled(f, mode, sign, c, hi)
      {
        Vanishing(f, mode, sign, m1, lo);
        Vanishing(f, mode, sign, m2, hi);
      }
    } else {
      TenMono(n + lo, f.emax + 1);
      RoundApart(f, sign, m1, m2, lo, hi);
      assert RoundScaled(f, Down, sign, c, lo) == Round(f, Down, sign, m1, lo);
      assert RoundScaled(f, HalfUp, sign, c, lo) == Round(f, HalfUp, sign, m1, lo);
    }
  }

  /** The number a numeral spells, with its exponent as it stands, rounded once. */
  ghost function WrittenNumber(f: Format, mode: Rounding, p: Spelling): Outcome
    requires f.Valid() && p.Numeral? && WellFormed(f, p)
  {
    RoundScaled(f, mode, p.sgn == "-", Val(DigitsOf(p.whole + p.fraction)), Written(p.esgn, p.power) - |p.fraction|)
  }

  /** A numeral is read as the number it spells, in every mode, exactly when its exponent is kept or its coefficient at
      the lesser of the two exponents still overflows, or at the greater still vanishes. */
  lemma ReadAsWrittenIff(f: Format, p: Spelling)
    requires f.Valid() && p.Numeral? && WellFormed(f, p)
    ensures (forall mode :: FromStringSpec(f, mode, Spelled(p)) == WrittenNumber(f, mode, p))
       <==> var (t, w, k) := (Taken(f, p.esgn, p.power), Written(p.esgn, p.power), |p.fraction|);
            Alike(f, Val(DigitsOf(p.whole + p.fraction)), (if t < w then t else w) - k, (if t < w then w else t) - k)
  {
    hide Denotes, Spelled, Alike, RoundScaled, Val, Taken, Written;
    SpellingMeaning(f, p);
    var c := Val(DigitsOf(p.whole + p.fraction));
    var (t, w, k) := (Taken(f, p.esgn, p.power), Written(p.esgn, p.power), |p.fraction|);
    var (lo, hi) := ((if t < w then t else w) - k, (if t < w then w else t) - k);
    var sign := p.sgn == "-";
    if forall mode :: FromStringSpec(f, mode, Spelled(p)) == WrittenNumber(f, mode, p) {
      forall mode
        ensures RoundScaled(f, mode, sign, c, lo) == RoundScaled(f, mode, sign, c, hi)
      {
        assert FromStringSpec(f, mode, Spelled(p)) == WrittenNumber(f, mode, p);
      }
    }
    if lo == hi {
      assert Alike(f, c, lo, hi) by { AlikeSelf(f, c, lo); }
    } else if c == 0 {
      AlikeZero(f, sign, lo, hi);
    } else {
      AlikePositive(f, sign, c, lo, hi);
    }
  }

  lemma AlikeSelf(f: Format, c: nat, e: int)
    ensures Alike(f, c, e, e)
  {
  }

  /** Numerals of few enough digits (368 for decDouble, 3822 for decQuad) are read as written, whatever their
      exponents. */
  lemma ShortNumerals(f: Format, mode: Rounding, p: Spelling)
    requires f.Basic() && p.Numeral? && WellFormed(f, p)
    requires var n := |p.whole| + |p.fraction|; n + f.pmax <= f.emax && n + f.emax + f.pmax <= Pow10(Emaxd(f))
    ensures FromStringSpec(f, mode, Spelled(p)) == WrittenNumber(f, mode, p)
  {
    hide Val, NumDigits, Emaxd, WrittenNumber, FromStringSpec, Spelled, Alike, Pow10;
    ReadAsWrittenIff(f, p);
    var d := DigitsOf(p.whole + p.fraction);
    ValBound(d);
    var v := Val(DigitsOf(p.power));
    if v >= Pow10(Emaxd(f)) {
      ShortAlike(f, Val(d), |d|, v, |p.fraction|, p.esgn == "-");
    } else {
      AlikeSelf(f, Val(d), Written(p.esgn, p.power) - |p.fraction|);
    }
  }

  lemma ShortAlike(f: Format, c: nat, n: nat, v: nat, k: nat, negative: bool)
    requires f.Basic() && c < Pow10(n) && k <= n && n + f.pmax <= f.emax && n + f.emax + f.pmax <= v
    ensures var (t, w) := if negative then (-2 * f.emax, 0 - v) else (2 * f.emax, v);
            Alike(f, c, (if t < w then t else w) - k, (if t < w then w else t) - k)
  {
    hide Pow10, NumDigits;
    var (t, w) := if negative then (-2 * f.emax, 0 - v) else (2 * f.emax, v);
    var hi := (if t < w then w else t) - k;
    if negative {
      Pow10Mono(n + 1, f.Qtiny() - hi);
      TenTimesPower(n);
    } else {
      LongEnough(c);
    }
  }

  lemma TenTimesPower(n: nat)
    ensures Pow10(n + 1) == 10 * Pow10(n)
  {
  }

  lemma LongEnough(c: nat)
    ensures NumDigits(c) >= 1
  {
  }

  lemma ShortEnough()
    ensures Pow10(Emaxd(DOUBLE)) == 1000 && Pow10(Emaxd(QUAD)) == 10_000
  {
    EmaxdOfFormats();
  }

  // ---- a number misread ----

  /** A point, 700 zeros, and 1E+1000: 1E+299, read as 1E+67 by decDouble. */
  lemma MisreadExample(mode: Rounding)
    ensures DOUBLE.Valid() && var p := Numeral("", "", true, Zeros(700) + "1", "E", "+", "1000");
            && WellFormed(DOUBLE, p)
            && FromStringSpec(DOUBLE, mode, Spelled(p)) == Outcome(Finite(false, 1, 67), {})
            && WrittenNumber(DOUBLE, mode, p) == Outcome(Finite(false, 1, 299), {})
  {
    hide Val, RoundScaled, Denotes, Spelled, Zeros, Pow10;
    FormatsValid();
    var p := Numeral("", "", true, Zeros(700) + "1", "E", "+", "1000");
    OneAfterZeros(700);
    Thousand();
    SpellingMeaning(DOUBLE, p);
    AlreadyRounded(DOUBLE, mode, false, 1, 67);
    AlreadyRounded(DOUBLE, mode, false, 1, 299);
  }

  lemma OneAfterZeros(n: nat)
    ensures var t := "" + (Zeros(n) + "1"); |t| == n + 1 && AllDigits(t) && AllDigits(Zeros(n) + "1") && Val(DigitsOf(t)) == 1
  {
    hide Val;
    var t := "" + (Zeros(n) + "1");
    var d := DigitsOf(t);
    assert AllEqual(d[..n], 0) && d[n..] == [1];
    ValSkipZeros(d, n);
    ValSingle(1);
  }

  lemma Thousand()
    ensures AllDigits("1000") && Val(DigitsOf("1000")) == 1000 == Pow10(Emaxd(DOUBLE)) && 1 < Pow10(16)
  {
    ShortEnough();
    assert DigitsOf("1000") == [1, 0, 0, 0];
    assert Val([1, 0, 0, 0]) == 1000 by {
      ValSingle(1);
      ValAppendZeros([1], [0, 0, 0]);
      assert [1] + [0, 0, 0] == [1, 0, 0, 0];
      ThreePlaces();
    }
    Pow10Mono(1, 16);
    Pow10One();
  }

  lemma ThreePlaces()
    ensures Shift(1, 3) == 1000
  {
    ShiftOne(0, 3);
  }
}
