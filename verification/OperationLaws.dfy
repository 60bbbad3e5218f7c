/** What the reference operations mean for signed values, and how they hang together: the laws that fix signs,
    exponents and special cases without looking into the definitions (sections 5.4.1, 6 and 7 of
    IEEE 754-2008). */
module OperationLaws {
  import opened Arith
  import opened TenPowers
  import opened DecFloats
  import opened RoundingSpec
  import opened RoundingLaws
  import opened Specials
  import opened Divide
  import opened Multiply
  import opened Add
  import opened Fma
  import opened IntegerDivision
  import opened Next
  import opened Quantize
  import opened Remainder

  // ---- rounding signed values ----

  /** Nothing raised: the result is the number itself. */
  lemma NoFlagsExact(f: Format, mode: Rounding, zeroSign: bool, v: real, pref: int)
    requires f.Valid()
    ensures var o := RoundSigned(f, mode, zeroSign, v, pref);
            o.flags == {} ==> o.value.Finite? && o.value.Value() == v
  {
    hide Scaled, Round, Correct;
    if v == 0.0 {
      ZeroRounded(f, mode, zeroSign, pref);
    } else {
      RoundCorrect(f, mode, v < 0.0, if v < 0.0 then -v else v, pref);
    }
  }

  lemma ZeroRounded(f: Format, mode: Rounding, sign: bool, pref: int)
    requires f.Valid()
    ensures Round(f, mode, sign, 0.0, pref) == Outcome(Finite(sign, 0, Clamp(f, pref)), {})
    ensures Finite(sign, 0, Clamp(f, pref)).Value() == 0.0
  {
    ScaledZero(Clamp(f, pref));
  }

  /** A number of the format is the result, nothing is raised, and no datum with its value has an exponent
      nearer the wanted one. */
  lemma RepresentableIsExact(f: Format, mode: Rounding, zeroSign: bool, v: real, pref: int, d: DecFloat)
    requires f.Valid() && d.Finite? && d.Fits(f) && d.Value() == v
    ensures var o := RoundSigned(f, mode, zeroSign, v, pref);
            && o.flags == {} && o.value.Finite? && o.value.Value() == v
            && o.value.sign == (if v == 0.0 then zeroSign else v < 0.0)
            && Gap(o.value.exp, pref) <= Gap(d.exp, pref)
  {
    hide Scaled, Round, Pow10;
    ScaledNonNegative(d.coeff, d.exp);
    if v == 0.0 {
      ZeroRounded(f, mode, zeroSign, pref);
    } else {
      PreferredExponent(f, mode, v < 0.0, if v < 0.0 then -v else v, pref, d.coeff, d.exp);
    }
  }

  /** A NaN that an operation makes has no sign to negate. */
  function Flipped(o: Outcome): Outcome {
    if o.value.NaN? then o else FlipOutcome(o)
  }

  /** Negative exactly when one of two is. */
  predicate OneOf(a: bool, b: bool) {
    (a && !b) || (b && !a)
  }

  // ---- division ----

  /** The quotient is the number v with v * r == l, rounded once. */
  lemma DivideSigned(f: Format, mode: Rounding, l: DecFloat, r: DecFloat, v: real)
    requires f.Valid() && l.Finite? && r.Finite? && !r.IsZero() && Times(v, r.Value()) == l.Value()
    ensures DivideSpec(f, mode, l, r) == RoundSigned(f, mode, OneOf(l.sign, r.sign), v, l.exp - r.exp)
  {
    QuotientNonNegative(l, r);
    var (a, b) := (l.Magnitude(), r.Magnitude());
    RatioTimes(a, b);
    hide Scaled, Ratio, Round, RoundSigned, Times;
    SignedQuotient(OneOf(l.sign, r.sign), l.sign, r.sign, Ratio(a, b), a, b, v);
    RoundSignedOf(f, mode, OneOf(l.sign, r.sign), OneOf(l.sign, r.sign), Ratio(a, b), l.exp - r.exp);
  }

  lemma SignedQuotient(sign: bool, sl: bool, sr: bool, m: real, a: real, b: real, v: real)
    requires b > 0.0 && Times(m, b) == a && Times(v, Signed(sr, b)) == Signed(sl, a) && sign == OneOf(sl, sr)
    ensures v == Signed(sign, m)
  {
    var w := Signed(sign, m);
    assert Times(w, Signed(sr, b)) == Signed(sl, a);
    assert Times(Signed(sr, v), b) == Signed(sl, a) && Times(Signed(sr, w), b) == Signed(sl, a);
    hide Times;
    TimesOrder(Signed(sr, v), Signed(sr, w), b);
  }

  /** Nothing raised: multiplied back, the quotient is the dividend. */
  lemma DivideExact(f: Format, mode: Rounding, l: DecFloat, r: DecFloat)
    requires f.Valid() && l.Finite? && r.Finite? && !r.IsZero()
    ensures var o := DivideSpec(f, mode, l, r);
            o.flags == {} ==> o.value.Finite? && Times(o.value.Value(), r.Value()) == l.Value()
  {
    var v := QuotientOf(l, r);
    hide Times, RoundSigned, DivideSpec;
    DivideSigned(f, mode, l, r, v);
    NoFlagsExact(f, mode, OneOf(l.sign, r.sign), v, l.exp - r.exp);
  }

  /** There is a quotient. */
  lemma QuotientOf(l: DecFloat, r: DecFloat) returns (v: real)
    requires l.Finite? && r.Finite? && !r.IsZero()
    ensures Times(v, r.Value()) == l.Value()
  {
    QuotientNonNegative(l, r);
    RatioTimes(l.Magnitude(), r.Magnitude());
    hide Scaled, Ratio;
    v := Signed(OneOf(l.sign, r.sign), Ratio(l.Magnitude(), r.Magnitude()));
  }

  /** When a datum is the quotient, nothing is raised, and the exponent is the representable one nearest the
      difference of the exponents. */
  lemma DivideRepresentable(f: Format, mode: Rounding, l: DecFloat, r: DecFloat, d: DecFloat)
    requires f.Valid() && l.Finite? && r.Finite? && !r.IsZero() && d.Finite? && d.Fits(f)
    requires Times(d.Value(), r.Value()) == l.Value()
    ensures var o := DivideSpec(f, mode, l, r);
            && o.flags == {} && o.value.Finite? && o.value.Value() == d.Value()
            && o.value.sign == OneOf(l.sign, r.sign) && Gap(o.value.exp, l.exp - r.exp) <= Gap(d.exp, l.exp - r.exp)
  {
    hide Scaled, Times, DivideSpec, RoundSigned, OneOf;
    DivideSigned(f, mode, l, r, d.Value());
    RepresentableIsExact(f, mode, OneOf(l.sign, r.sign), d.Value(), l.exp - r.exp, d);
    ScaledNonNegative(l.coeff, l.exp);
    ScaledNonNegative(r.coeff, r.exp);
    if d.Value() != 0.0 {
      ProductSign(d.Value(), l, r);
    }
  }

  /** The sign of a quotient that is not zero. */
  lemma ProductSign(v: real, l: DecFloat, r: DecFloat)
    requires l.Finite? && r.Finite? && Times(v, r.Value()) == l.Value() && l.Magnitude() >= 0.0 && r.Magnitude() >= 0.0 && v != 0.0
    requires !r.IsZero()
    ensures v < 0.0 <==> OneOf(l.sign, r.sign)
  {
    ScaledOrder(0, r.coeff, r.exp);
    ZeroScale(r.exp);
    hide Scaled;
    assert Times(v, r.Value()) == Signed(r.sign, Times(v, r.Magnitude()));
    if v > 0.0 {
      TimesOrder(0.0, v, r.Magnitude());
    } else {
      TimesOrder(v, 0.0, r.Magnitude());
    }
  }

  /** Negating either operand negates the result. */
  lemma DivideFlip(f: Format, mode: Rounding, l: DecFloat, r: DecFloat)
    requires f.Valid() && !l.NaN? && !r.NaN?
    ensures DivideSpec(f, Mirror(mode), Flip(l), r) == Flipped(DivideSpec(f, mode, l, r))
    ensures DivideSpec(f, Mirror(mode), l, Flip(r)) == Flipped(DivideSpec(f, mode, l, r))
  {
    if l.Finite? && r.Finite? && !r.IsZero() {
      hide Ratio, Round, Scaled, Mirror;
      QuotientNonNegative(l, r);
      QuotientNonNegative(Flip(l), r);
      QuotientNonNegative(l, Flip(r));
      RoundMirror(f, mode, l.sign == r.sign, Ratio(l.Magnitude(), r.Magnitude()), l.exp - r.exp);
      RoundNotNaN(f, mode, l.sign != r.sign, Ratio(l.Magnitude(), r.Magnitude()), l.exp - r.exp);
    } else {
      hide Round, Mirror;
    }
  }

  lemma RoundNotNaN(f: Format, mode: Rounding, sign: bool, m: real, pref: int)
    requires f.Valid() && m >= 0.0
    ensures !Round(f, mode, sign, m, pref).value.NaN?
  {
    hide Truncates, Toward, Discarded;
  }

  /** Infinities and zero divisors. */
  lemma DivideSpecials(f: Format, mode: Rounding, l: DecFloat, r: DecFloat)
    requires f.Valid() && !l.NaN? && !r.NaN?
    ensures var o := DivideSpec(f, mode, l, r); var s := OneOf(l.sign, r.sign);
            && (l.Infinity? && r.Infinity? ==> o == Outcome(NaN(false, false, 0), {InvalidOperation}))
            && (l.Infinity? && r.Finite? ==> o == Outcome(Infinity(s), {}))
            && (l.Finite? && r.Infinity? ==> o == Outcome(Finite(s, 0, 2 - f.emax - f.pmax), {}))
            && (l.Finite? && l.coeff > 0 && r.IsZero() ==> o == Outcome(Infinity(s), {DivisionByZero}))
            && (l.IsZero() && r.IsZero() ==> o == Outcome(NaN(false, false, 0), {DivisionUndefined}))
            && (l.IsZero() && r.Finite? && r.coeff > 0 ==> o.flags == {} && o.value.IsZero() && o.value.sign == s)
  {
    hide Round, Ratio, Scaled;
    if l.IsZero() && r.Finite? && r.coeff > 0 {
      QuotientNonNegative(l, r);
      ZeroRounded(f, mode, l.sign != r.sign, l.exp - r.exp);
    }
  }

  // ---- multiplication ----

  /** The product of the values, rounded once; a zero is negative when one operand is. */
  lemma MultiplySigned(f: Format, mode: Rounding, l: DecFloat, r: DecFloat)
    requires f.Valid() && l.Finite? && r.Finite?
    ensures MultiplySpec(f, mode, l, r)
         == RoundSigned(f, mode, OneOf(l.sign, r.sign), Times(l.Value(), r.Value()), l.exp + r.exp)
  {
    ProductNonNegative(l, r);
    hide Scaled, Round, RoundSigned, Times;
    TimesSigned(l.sign, r.sign, l.Magnitude(), r.Magnitude());
    RoundSignedOf(f, mode, OneOf(l.sign, r.sign), OneOf(l.sign, r.sign), Times(l.Magnitude(), r.Magnitude()), l.exp + r.exp);
  }

  lemma MultiplyExact(f: Format, mode: Rounding, l: DecFloat, r: DecFloat)
    requires f.Valid() && l.Finite? && r.Finite?
    ensures var o := MultiplySpec(f, mode, l, r);
            o.flags == {} ==> o.value.Finite? && o.value.Value() == Times(l.Value(), r.Value())
  {
    hide Times, RoundSigned, MultiplySpec;
    MultiplySigned(f, mode, l, r);
    NoFlagsExact(f, mode, OneOf(l.sign, r.sign), Times(l.Value(), r.Value()), l.exp + r.exp);
  }

  lemma MultiplyFlip(f: Format, mode: Rounding, l: DecFloat, r: DecFloat)
    requires f.Valid() && !l.NaN? && !r.NaN?
    ensures MultiplySpec(f, Mirror(mode), Flip(l), r) == Flipped(MultiplySpec(f, mode, l, r))
    ensures MultiplySpec(f, mode, l, r) == MultiplySpec(f, mode, r, l)
  {
    hide Round, Scaled, Mirror, Times;
    if l.Finite? && r.Finite? {
      ProductNonNegative(l, r);
      ProductNonNegative(r, l);
      ProductNonNegative(Flip(l), r);
      TimesComm(l.Magnitude(), r.Magnitude());
      RoundMirror(f, mode, l.sign == r.sign, Times(l.Magnitude(), r.Magnitude()), l.exp + r.exp);
      RoundNotNaN(f, mode, l.sign != r.sign, Times(l.Magnitude(), r.Magnitude()), l.exp + r.exp);
    }
  }

  lemma MultiplySpecials(f: Format, mode: Rounding, l: DecFloat, r: DecFloat)
    requires f.Valid() && !l.NaN? && !r.NaN? && l.Infinity?
    ensures var o := MultiplySpec(f, mode, l, r);
            o == if r.IsZero() then Outcome(NaN(false, false, 0), {InvalidOperation})
                 else Outcome(Infinity(OneOf(l.sign, r.sign)), {})
  {
  }

  // ---- addition ----

  /** A sum that is exactly zero: of like zeros their sign, otherwise plus except when rounding down. */
  lemma AddZeroSum(f: Format, mode: Rounding, l: DecFloat, r: DecFloat)
    requires f.Valid() && l.Finite? && r.Finite? && l.Value() + r.Value() == 0.0
    ensures var o := AddSpec(f, mode, l, r);
            && o.flags == {} && o.value.IsZero()
            && (l.sign && r.sign ==> o.value.sign) && (!l.sign && !r.sign ==> !o.value.sign)
            && (OneOf(l.sign, r.sign) ==> (o.value.sign <==> mode == Floor))
  {
    hide Scaled;
    ZeroRounded(f, mode, ZeroSign(mode, l.sign, r.sign), Least(l.exp, r.exp));
  }

  /** An exact sum is the sum, at the representable exponent nearest the lower one of the operands. */
  lemma AddRepresentable(f: Format, mode: Rounding, l: DecFloat, r: DecFloat, d: DecFloat)
    requires f.Valid() && l.Finite? && r.Finite? && d.Finite? && d.Fits(f) && d.Value() == l.Value() + r.Value()
    ensures var o := AddSpec(f, mode, l, r); var e := if l.exp < r.exp then l.exp else r.exp;
            && o.flags == {} && o.value.Finite? && o.value.Value() == l.Value() + r.Value()
            && Gap(o.value.exp, e) <= Gap(d.exp, e)
  {
    hide Scaled, RoundSigned;
    RepresentableIsExact(f, mode, ZeroSign(mode, l.sign, r.sign), d.Value(), Least(l.exp, r.exp), d);
  }

  /** Negating both operands negates the sum; the operands may be exchanged. */
  lemma AddFlip(f: Format, mode: Rounding, l: DecFloat, r: DecFloat)
    requires f.Valid() && !l.NaN? && !r.NaN?
    ensures AddSpec(f, mode, l, r) == AddSpec(f, mode, r, l)
    ensures !(l.Finite? && r.Finite? && l.Value() + r.Value() == 0.0)
        ==> AddSpec(f, Mirror(mode), Flip(l), Flip(r)) == Flipped(AddSpec(f, mode, l, r))
  {
    hide Scaled, Mirror, Round, RoundSigned, FlipOutcome;
    if l.Finite? && r.Finite? {
      FlipValue(l);
      FlipValue(r);
      if l.Value() + r.Value() != 0.0 {
        var v := l.Value() + r.Value();
        NonZeroMirror(f, mode, ZeroSign(Mirror(mode), !l.sign, !r.sign), ZeroSign(mode, l.sign, r.sign), v, Least(l.exp, r.exp));
      }
    } else {
      SpecialMirror(l, r);
    }
  }

  lemma NonZeroMirror(f: Format, mode: Rounding, zs: bool, zs': bool, v: real, pref: int)
    requires f.Valid() && v != 0.0
    ensures RoundSigned(f, Mirror(mode), zs, -v, pref) == Flipped(RoundSigned(f, mode, zs', v, pref))
  {
    hide Round, Mirror;
    RoundMirror(f, mode, v > 0.0, if v < 0.0 then -v else v, pref);
    RoundNotNaN(f, mode, v < 0.0, if v < 0.0 then -v else v, pref);
  }

  lemma SpecialMirror(l: DecFloat, r: DecFloat)
    requires !l.NaN? && !r.NaN?
    ensures Flipped(Invalid()) == Invalid() && Flipped(Outcome(Infinity(l.sign), {})) == Outcome(Infinity(!l.sign), {})
    ensures Flipped(Outcome(Infinity(r.sign), {})) == Outcome(Infinity(!r.sign), {})
  {
  }

  lemma AddSpecials(f: Format, mode: Rounding, l: DecFloat, r: DecFloat)
    requires f.Valid() && l.Infinity? && !r.NaN?
    ensures AddSpec(f, mode, l, r)
         == if r == Infinity(!l.sign) then Outcome(NaN(false, false, 0), {InvalidOperation}) else Outcome(l, {})
  {
  }

  // ---- fused multiply-add ----

  /** Multiplying by one first is adding: for all operands, NaNs and infinities too. */
  lemma FmaOfOne(f: Format, mode: Rounding, l: DecFloat, a: DecFloat)
    requires f.Valid()
    ensures FmaSpec(f, mode, l, Finite(false, 1, 0), a) == AddSpec(f, mode, l, a)
  {
    hide Scaled, RoundSigned, Times, FmaSpecial, PropagateNaN;
    if l.Finite? && a.Finite? {
      OneValue();
      TimesOne(l.Value());
    } else {
      FmaOfOneSpecial(l, a);
    }
  }

  lemma OneValue()
    ensures Finite(false, 1, 0).Value() == 1.0
  {
    ScaleZero(1.0);
  }

  lemma FmaOfOneSpecial(l: DecFloat, a: DecFloat)
    requires !(l.Finite? && a.Finite?)
    ensures FmaSpecial(l, Finite(false, 1, 0), a)
         == if l.NaN? || a.NaN? then PropagateNaN(l, a)
            else if l.Infinity? then if a.Infinity? && l.sign != a.sign then Invalid() else Outcome(Infinity(l.sign), {})
            else Outcome(Infinity(a.sign), {})
  {
  }

  /** Adding a zero of the sign of the product and no lower exponent is multiplying. */
  lemma FmaOfZero(f: Format, mode: Rounding, l: DecFloat, r: DecFloat, a: DecFloat)
    requires f.Valid() && !l.NaN? && !r.NaN? && a.IsZero() && a.sign == OneOf(l.sign, r.sign)
    requires l.Finite? && r.Finite? ==> l.exp + r.exp <= a.exp
    ensures FmaSpec(f, mode, l, r, a) == MultiplySpec(f, mode, l, r)
  {
    ScaledZero(a.exp);
    assert a.Value() == 0.0;
    if l.Finite? && r.Finite? {
      hide Scaled, RoundSigned, MultiplySpec, Times;
      MultiplySigned(f, mode, l, r);
    }
  }

  /** An invalid product is invalid whatever is added. */
  lemma FmaInvalidProduct(f: Format, mode: Rounding, l: DecFloat, r: DecFloat, a: DecFloat)
    requires f.Valid() && !a.NaN? && ((l.Infinity? && r.IsZero()) || (l.IsZero() && r.Infinity?))
    ensures FmaSpec(f, mode, l, r, a) == Outcome(NaN(false, false, 0), {InvalidOperation})
  {
    hide Round, RoundSigned, Scaled;
  }

  /** Only the addend infinite: it is the result. */
  lemma FmaInfiniteAddend(f: Format, mode: Rounding, l: DecFloat, r: DecFloat, a: DecFloat)
    requires f.Valid() && l.Finite? && r.Finite? && a.Infinity?
    ensures FmaSpec(f, mode, l, r, a) == Outcome(a, {})
  {
    hide Round, RoundSigned, Scaled;
  }

  /** An infinite product is added like any infinity of its sign. */
  lemma FmaInfiniteProduct(f: Format, mode: Rounding, l: DecFloat, r: DecFloat, a: DecFloat)
    requires f.Valid() && !l.NaN? && !r.NaN? && !a.NaN? && (l.Infinity? || r.Infinity?) && !l.IsZero() && !r.IsZero()
    ensures FmaSpec(f, mode, l, r, a) == AddSpec(f, mode, Infinity(OneOf(l.sign, r.sign)), a)
  {
    hide Round, RoundSigned, Scaled;
  }

  // ---- integer division and remainders ----

  /** The integer quotient is the integer between zero and the quotient that is nearest to it: multiplied back
      it leaves less than one divisor, with the sign of the dividend. */
  lemma IntegerQuotientValue(f: Format, l: DecFloat, r: DecFloat)
    requires f.Valid() && l.Finite? && r.Finite? && !r.IsZero() && DivideIntegerSpec(f, l, r).flags == {}
    ensures var q := DivideIntegerSpec(f, l, r).value;
            && q.Finite? && q.exp == 0 && q.sign == OneOf(l.sign, r.sign)
            && var d := l.Value() - Times(q.Value(), r.Value());
               if l.sign then -r.Magnitude() < d <= 0.0 else 0.0 <= d < r.Magnitude()
  {
    QuotientNonNegative(l, r);
    var (a, b) := (l.Magnitude(), r.Magnitude());
    var m := Ratio(a, b);
    RatioTimes(a, b);
    var n := m.Floor;
    ScaleZero(n as real);
    hide Scaled, Ratio, Times, Pow10;
    var s := OneOf(l.sign, r.sign);
    assert Finite(s, n, 0).Value() == Signed(s, n as real);
    SignedTimes(l.sign, r.sign, n as real, b);
    FloorTimesDivisor(m, n, a, b);
  }

  lemma SignedTimes(sl: bool, sr: bool, x: real, b: real)
    ensures Times(Signed(OneOf(sl, sr), x), Signed(sr, b)) == Signed(sl, Times(x, b))
  {
  }

  lemma FloorTimesDivisor(m: real, n: int, a: real, b: real)
    requires b > 0.0 && Times(m, b) == a && n as real <= m < n as real + 1.0
    ensures 0.0 <= a - Times(n as real, b) < b
  {
    TimesOrder(n as real, m, b);
    TimesOrder(m, n as real + 1.0, b);
    TimesSum(n as real, 1.0, b);
    TimesOne(b);
    hide Times;
  }

  /** It is impossible exactly when the quotient has more than pmax digits before its point. */
  lemma IntegerQuotientImpossible(f: Format, l: DecFloat, r: DecFloat)
    requires f.Valid() && l.Finite? && r.Finite? && !r.IsZero()
    ensures DivideIntegerSpec(f, l, r).flags == (if l.Magnitude() >= Times(Pow10(f.pmax) as real, r.Magnitude())
                                                 then {DivisionImpossible} else {})
  {
    QuotientNonNegative(l, r);
    RatioTimes(l.Magnitude(), r.Magnitude());
    hide Scaled, Ratio, Times, Pow10;
    TimesOrder(Ratio(l.Magnitude(), r.Magnitude()), Pow10(f.pmax) as real, r.Magnitude());
  }

  /** Specials of the integer division are those of the division, but for the exponent of a zero. */
  lemma IntegerQuotientSpecials(f: Format, mode: Rounding, l: DecFloat, r: DecFloat)
    requires f.Valid() && !(l.Finite? && r.Finite? && !r.IsZero())
    ensures DivideIntegerSpec(f, l, r)
         == if !l.NaN? && r.Infinity? && !l.Infinity? then Outcome(Finite(OneOf(l.sign, r.sign), 0, 0), {})
            else DivideSpec(f, mode, l, r)
  {
  }

  lemma RemainderSpecials(f: Format, l: DecFloat, r: DecFloat)
    requires !l.NaN? && !r.NaN?
    ensures l.Infinity? ==> RemainderSpecial(f, l, r) == Outcome(NaN(false, false, 0), {InvalidOperation})
    ensures l.Finite? && r.Infinity? ==> RemainderSpecial(f, l, r) == Outcome(l, {})
    ensures l.Finite? && l.coeff > 0 && r.IsZero() ==> RemainderSpecial(f, l, r) == Outcome(NaN(false, false, 0), {InvalidOperation})
    ensures l.IsZero() && r.IsZero() ==> RemainderSpecial(f, l, r) == Outcome(NaN(false, false, 0), {DivisionUndefined})
    ensures l.IsZero() && r.Finite? && r.coeff > 0
        ==> RemainderSpecial(f, l, r) == Outcome(Finite(l.sign, 0, if l.exp < r.exp then l.exp else r.exp), {})
  {
  }

  // ---- NaNs ----

  /** A NaN operand gives a quiet NaN with its sign and payload: the first signalling one, otherwise the first;
      invalid exactly when one signals. */
  lemma NaNPropagation(l: DecFloat, r: DecFloat)
    requires l.NaN? || r.NaN?
    ensures var o := PropagateNaN(l, r);
            && (l.NaN? && (l.signaling || !(r.NaN? && r.signaling)) ==> o.value == NaN(l.sign, false, l.payload))
            && (!(l.NaN? && l.signaling) && r.NaN? && (r.signaling || !l.NaN?) ==> o.value == NaN(r.sign, false, r.payload))
            && o.flags == if (l.NaN? && l.signaling) || (r.NaN? && r.signaling) then {InvalidOperation} else {}
  {
  }

  // ---- quantize ----

  /** Ties and the sign, and the mode that rounds away only from 0 and 5. */
  lemma QuantizeTies(f: Format, mode: Rounding, sign: bool, m: real, q: int)
    requires m >= 0.0 && QuantizeTo(f, mode, sign, m, q).value.Finite?
    ensures var o := QuantizeTo(f, mode, sign, m, q); var u := Scaled(1, q); var d := o.value.Magnitude() - m;
            && o.value.sign == sign
            && (mode == HalfUp ==> d + d != -u) && (mode == HalfDown ==> d + d != u)
            && (mode == ZeroFiveUp ==> (d > 0.0 ==> (o.value.coeff - 1) % 5 == 0) && (d < 0.0 ==> o.value.coeff % 5 != 0))
  {
    hide Scale, Pow10;
    ScaledDownNonNegative(m, q);
    var y := Scale(m, -q);
    var c := y.Floor;
    var r := ResidueOf(Discarded(m, c, q));
    var c1 := if Increments(mode, sign, c, r) then c + 1 else c;
    var x := c1 as real - y;
    ScaleInverse(m, q);
    ScaleSum(c1 as real, y, q);
    ScaleSum(x, x, q);
    ScaleSum(0.0, 1.0, q);
    ZeroScale(q);
    OrderAround(x, q);
    ScaleOrder(x + x, -1.0, q);
    ScaleOrder(x + x, 1.0, q);
    ScaleSum(0.0, 1.0, q);
    ScaleSum(0.0, 0.0, q);
  }

  /** Invalid exactly when the coefficient, were there precision enough, would have more than pmax digits. */
  lemma QuantizeWide(f: Format, g: Format, mode: Rounding, sign: bool, m: real, q: int)
    requires m >= 0.0 && g.pmax >= f.pmax && QuantizeTo(g, mode, sign, m, q).value.Finite?
    ensures var o := QuantizeTo(g, mode, sign, m, q);
            QuantizeTo(f, mode, sign, m, q)
            == if o.value.coeff < Pow10(f.pmax) then o else Outcome(NaN(false, false, 0), {InvalidOperation})
  {
    hide Scale, Pow10;
    Pow10Mono(f.pmax, g.pmax);
  }

  lemma QuantizeSpecials(f: Format, mode: Rounding, l: DecFloat, r: DecFloat)
    requires !l.NaN? && !r.NaN? && (l.Infinity? || r.Infinity?)
    ensures QuantizeSpec(f, mode, l, r)
         == if l.Infinity? && r.Infinity? then Outcome(l, {}) else Outcome(NaN(false, false, 0), {InvalidOperation})
  {
  }
}
