/** Remainders (decDivide with op REMAINDER and REMNEAR, decBasic.c:600-667): the integer quotient is
    multiplied back with a fused multiply-add, which never rounds. */
module Remainder {
  import opened Arith
  import opened TenPowers
  import opened DecFloats
  import opened RoundingSpec
  import opened Truncation
  import opened Specials
  import opened Bcd
  import opened Finalize
  import opened BaseBillion
  import opened Divide
  import opened Multiply
  import opened Add
  import opened Next
  import opened Fma
  import opened IntegerDivision

  /** What a remainder is: l - n * r for an integer n, truncated or nearest; below r with the sign of l, or
      at most half of r and with even n when exactly half. A zero has the sign of l. The exponent is the lower
      one of the operands, except that a nearest n of pmax + 1 digits counts r one place higher. */
  ghost predicate IsRemainder(f: Format, l: DecFloat, r: DecFloat, near: bool, result: DecFloat)
    requires l.Finite? && r.Finite?
  {
    result.Finite? && exists n: nat :: RemainderBy(f, l, r, near, result, n)
  }

  ghost predicate RemainderBy(f: Format, l: DecFloat, r: DecFloat, near: bool, result: DecFloat, n: nat)
    requires l.Finite? && r.Finite? && result.Finite?
  {
    && result.Value() == l.Value() - Times(Signed(l.sign != r.sign, n as real), r.Value())
    && (near ==> result.Magnitude() + result.Magnitude() <= r.Magnitude())
    && (near && result.Magnitude() + result.Magnitude() == r.Magnitude() ==> n % 2 == 0)
    && (!near ==> result.Magnitude() < r.Magnitude() && result.sign == l.sign)
    && (result.coeff == 0 ==> result.sign == l.sign)
    && result.exp == Least(l.exp, if n < Pow10(f.pmax) then r.exp else r.exp + 1)
  }

  // ---- the integer quotient as a decFloat ----

  /** The quotient n laid out: at most pmax digits, but a nearest one can round up to 10^pmax. */
  function QuotientDatum(f: Format, sign: bool, n: nat): DecFloat {
    if n < Pow10(f.pmax) then Finite(sign, n, 0) else Finite(sign, n / 10, 1)
  }

  lemma QuotientLaidOut(f: Format, mode: Rounding, sign: bool, n: nat)
    requires f.Basic() && n <= Pow10(f.pmax)
    ensures RoundScaled(f, mode, sign, n, 0) == Outcome(QuotientDatum(f, sign, n), {})
    ensures QuotientDatum(f, sign, n).Fits(f) && QuotientDatum(f, sign, n).Magnitude() == n as real
  {
    ZeroExponent(f);
    hide Scale, RoundScaled;
    if n < Pow10(f.pmax) {
      ScaleZero(n as real);
      AlreadyRounded(f, mode, sign, n, 0);
    } else {
      PowerLaidOut(f, mode, sign, n);
    }
  }

  lemma PowerLaidOut(f: Format, mode: Rounding, sign: bool, n: nat)
    requires f.Basic() && n == Pow10(f.pmax)
    ensures RoundScaled(f, mode, sign, n, 0) == Outcome(Finite(sign, n / 10, 1), {})
    ensures n / 10 < Pow10(f.pmax) && Scaled(n / 10, 1) == n as real
  {
    ZeroExponent(f);
    var h := Pow10(f.pmax - 1);
    assert n == 10 * h && Pow10(f.pmax + 1) == 10 * n;
    ShiftOne(h, 1);
    ShiftZero(h);
    TowardBack(h, 1, 0);
    ZeroRemainderClass();
    hide Scale, Pow10, Shift, Round, High, Low, RemainderClass;
    Pow10One();
    HighLowUnique(n, 1, h, 0);
    ScaledNat(h, 1);
    FinishDropped(f, mode, sign, n, f.pmax + 1, 0, 1);
  }

  lemma ZeroRemainderClass()
    ensures RemainderClass(0, Pow10(1)) == Zero
  {
  }

  // ---- how large things are ----

  /** A term of at most twice the size of another has at most one digit more in front. */
  lemma LengthsClose(x: Term, z: Term)
    requires x.coeff > 0 && z.coeff > 0 && x.Magnitude() <= z.Magnitude() + z.Magnitude()
    ensures NumDigits(x.coeff) + x.exp <= NumDigits(z.coeff) + z.exp + 1
  {
    NumDigitsIsLength(x.coeff);
    var (a, b) := (NumDigits(x.coeff) + x.exp, NumDigits(z.coeff) + z.exp);
    hide Scale, NumDigits, Pow10, Ten;
    AtLeastLeading(x.coeff, NumDigits(x.coeff), x.exp);
    BelowLength(z.coeff, z.exp);
    if a > b + 1 {
      UnitOrder(b, b + 1);
      UnitOrder(b + 1, a - 1);
      ScaledOrder(2, 9, b);
      ScaledSum(1, 1, b);
    }
  }

  /** Terms of about the same size are clear. */
  lemma CloseIsClear(f: Format, hi: Term, lo: Term)
    requires hi.exp >= lo.exp && hi.coeff > 0
    requires lo.coeff > 0 ==> hi.Magnitude() <= lo.Magnitude() + lo.Magnitude()
    ensures Clear(f, hi, lo)
  {
    hide Scaled;
    if lo.coeff > 0 {
      LengthsClose(hi, lo);
      hide NumDigits;
    } else {
      NumDigitsOfZero();
    }
  }

  lemma NumDigitsOfZero()
    ensures NumDigits(0) == 1
  {
  }

  /** Bounds of the quotient n of a by b > 0, multiplied back. */
  lemma QuotientBounds(a: real, b: real, m: real, near: bool, n: nat, p: real)
    requires a >= 0.0 && b > 0.0 && m >= 0.0 && Times(m, b) == a && n == IntegerOf(m, near) && p == Times(n as real, b)
    ensures !near ==> p <= a < p + b
    ensures near ==> p + p <= a + a + b && a + a <= p + p + b
    ensures near && (p + p == a + a + b || a + a == p + p + b) ==> n % 2 == 0
    ensures n >= 1 ==> b <= p
  {
    TimesOrder(n as real, m, b);
    TimesOrder(m, n as real, b);
    TimesSum(n as real, 1.0, b);
    TimesOne(b);
    TimesOrder(m, n as real + 1.0, b);
    if near {
      NearestEvenIsNearest(m);
      var (x, y) := (n as real + n as real, m + m);
      TimesSum(n as real, n as real, b);
      TimesSum(m, m, b);
      TimesSum(x, 1.0, b);
      TimesSum(y, 1.0, b);
      TimesOrder(x, y + 1.0, b);
      TimesOrder(y + 1.0, x, b);
      TimesOrder(y, x + 1.0, b);
      TimesOrder(x + 1.0, y, b);
    }
    if n >= 1 {
      TimesOrder(n as real, 1.0, b);
      TimesOrder(1.0, n as real, b);
    }
    hide Times, IntegerOf;
  }

  // ---- the exact difference ----

  /** The product of the quotient and r, against l, in units of the lower exponent. */
  lemma DifferenceFits(f: Format, l: DecFloat, r: DecFloat, near: bool, q: DecFloat, n: nat, e: int) returns (d: nat)
    requires f.Valid() && l.Finite? && r.Finite? && q.Finite? && l.Fits(f) && r.Fits(f)
    requires q.exp >= 0 && q.Magnitude() == n as real && e == Least(q.exp + r.exp, l.exp)
    requires var p := Times(n as real, r.Magnitude()); var a := l.Magnitude(); var b := r.Magnitude();
             if near then p + p <= a + a + b && a + a <= p + p + b && (n >= 1 ==> b <= p)
             else p <= a < p + b
    ensures d < Pow10(f.pmax) && f.Qtiny() <= e <= f.Etop()
    ensures var p := Times(n as real, r.Magnitude()); var a := l.Magnitude();
            Scaled(d, e) == if p <= a then a - p else p - a
  {
    var (x, y) := (Shift(Prod(q.coeff, r.coeff), q.exp + r.exp - e), Shift(l.coeff, l.exp - e));
    d := if x <= y then y - x else x - y;
    hide Scale, Pow10, Shift, Prod, Times;
    ProductNonNegative(q, r);
    ScaledShift(Prod(q.coeff, r.coeff), e, q.exp + r.exp - e);
    ScaledShift(l.coeff, e, l.exp - e);
    ScaledOrder(x, y, e);
    ScaledOrder(y, x, e);
    ScaledSum(d, if x <= y then x else y, e);
    var (p, a, b, s) := (Times(n as real, r.Magnitude()), l.Magnitude(), r.Magnitude(), Scaled(d, e));
    NoQuotient(n, r.Magnitude());
    SmallerOfTwo(near, n, a, b, p, s);
    ScaledNonNegative(d, e);
    if e == l.exp {
      ScaledOrder(l.coeff, d, e);
    } else {
      LowerExponent(d, r.exp, e);
      ScaledOrder(r.coeff, d, r.exp);
    }
  }

  lemma NoQuotient(n: nat, b: real)
    ensures n == 0 ==> Times(n as real, b) == 0.0
  {
  }

  lemma SmallerOfTwo(near: bool, n: nat, a: real, b: real, p: real, s: real)
    requires a >= 0.0 && b >= 0.0 && p >= 0.0 && (n == 0 ==> p == 0.0)
    requires s == if p <= a then a - p else p - a
    requires if near then p + p <= a + a + b && a + a <= p + p + b && (n >= 1 ==> b <= p) else p <= a < p + b
    ensures s <= a && s <= b
  {
  }

  lemma LowerExponent(d: nat, e: int, e': int)
    requires e <= e'
    ensures Scaled(d, e) <= Scaled(d, e')
  {
    hide Scale, Shift;
    ScaledShift(d, e, e' - e);
    ShiftGrowing(d, e' - e);
    ScaledOrder(Shift(d, e' - e), d, e);
  }

  lemma {:induction false} ShiftGrowing(c: nat, k: nat)
    ensures c <= Shift(c, k)
  {
    if k > 0 {
      ShiftGrowing(c, k - 1);
    }
  }

  /** An exact result rounds to itself. */
  lemma ExactSum(f: Format, mode: Rounding, zeroSign: bool, v: real, d: nat, e: int)
    requires f.Valid() && d < Pow10(f.pmax) && f.Qtiny() <= e <= f.Etop()
    requires Scaled(d, e) == if v < 0.0 then -v else v
    ensures var o := RoundSigned(f, mode, zeroSign, v, e);
            o.flags == {} && o.value.Finite? && o.value.Value() == v && o.value.Magnitude() == Scaled(d, e)
            && (o.value.coeff == 0 <==> v == 0.0) && o.value.exp == e
            && (v != 0.0 ==> o.value.sign == (v < 0.0))
  {
    hide Scale, Pow10, Round;
    ScaledNonNegative(d, e);
    AlreadyRounded(f, mode, v < 0.0, d, e);
    AlreadyRounded(f, mode, zeroSign, d, e);
    ScaledZero(e);
  }

  // ---- the fused multiply-add that forms the remainder ----

  /** It is clear: product and left operand have about the same size. */
  lemma RemainderClear(f: Format, l: DecFloat, r: DecFloat, q: DecFloat, n: nat, near: bool)
    requires f.Valid() && l.Finite? && r.Finite? && q.Finite? && l.coeff > 0
    requires q.Magnitude() == n as real
    requires var p := Times(n as real, r.Magnitude()); var a := l.Magnitude(); var b := r.Magnitude();
             n >= 1 ==> p <= a + a && a <= p + p
    ensures FmaClear(f, q, r, l)
  {
    hide Scaled, Prod, Times, Clear;
    ProductNonNegative(q, r);
    var (x, z) := (ProductTerm(q, r), TermOf(l));
    if n == 0 {
      NoQuotient(0, r.Magnitude());
      ScaledNonNegative(x.coeff, x.exp);
      ZeroTermClear(f, x, z);
    } else if x.coeff == 0 {
      ScaledNonNegative(x.coeff, x.exp);
      ScaledNonNegative(z.coeff, z.exp);
    } else if x.exp >= z.exp {
      CloseIsClear(f, x, z);
    } else {
      CloseIsClear(f, z, x);
    }
  }

  lemma ZeroTermClear(f: Format, x: Term, z: Term)
    requires x.coeff == 0
    ensures x.exp >= z.exp ==> Clear(f, x, z)
    ensures x.exp < z.exp ==> Clear(f, z, x)
  {
    NumDigitsOfZero();
  }

  /** Size relations of product and left operand. */
  lemma SizesClose(near: bool, n: nat, a: real, b: real, p: real)
    requires b > 0.0 && n >= 1 && b <= p
    requires if near then p + p <= a + a + b && a + a <= p + p + b else p <= a < p + b
    ensures p <= a + a && a <= p + p
  {
  }

  /** The signs: the product has the sign of l. */
  lemma SignsMatch(sl: bool, sr: bool, n: real, b: real)
    ensures Times(Signed(sl != sr, n), Signed(sr, b)) == Signed(sl, Times(n, b))
    ensures Times(Signed(!(sl != sr), n), Signed(sr, b)) == -Signed(sl, Times(n, b))
  {
    TimesSigned(sl != sr, sr, n, b);
    TimesSigned(!(sl != sr), sr, n, b);
  }

  /** Replaces the sign of a zero. */
  function ZeroSigned(x: DecFloat, sign: bool): DecFloat {
    if x.IsZero() then Finite(sign, x.coeff, x.exp) else x
  }

  /** What the quotient n of l and r is, as q. */
  predicate IsQuotient(f: Format, l: DecFloat, r: DecFloat, near: bool, m: real, n: nat, q: DecFloat) {
    && l.Finite? && r.Finite? && l.Fits(f) && r.Fits(f) && l.coeff > 0 && r.coeff > 0
    && m >= 0.0 && Times(m, r.Magnitude()) == l.Magnitude() && n == IntegerOf(m, near)
    && q.Finite? && q.exp == (if n < Pow10(f.pmax) then 0 else 1) && q.Magnitude() == n as real && q.sign == !(l.sign != r.sign)
  }

  lemma RemainderIsClear(f: Format, l: DecFloat, r: DecFloat, near: bool, m: real, n: nat, q: DecFloat)
    requires f.Valid() && IsQuotient(f, l, r, near, m, n, q)
    ensures FmaClear(f, q, r, l)
  {
    var (a, b) := (l.Magnitude(), r.Magnitude());
    var p := Times(n as real, b);
    hide Scaled, Times, IntegerOf, FmaClear;
    ScaledNonNegative(l.coeff, l.exp);
    ScaledNonNegative(r.coeff, r.exp);
    QuotientBounds(a, b, m, near, n, p);
    if n >= 1 {
      SizesClose(near, n, a, b, p);
    }
    RemainderClear(f, l, r, q, n, near);
  }

  /** Sum and product in terms of magnitudes. */
  lemma RemainderValues(l: DecFloat, r: DecFloat, n: nat, q: DecFloat)
    requires l.Finite? && r.Finite? && q.Finite? && q.Magnitude() == n as real && q.sign == !(l.sign != r.sign)
    ensures var v := Signed(l.sign, l.Magnitude()) - Signed(l.sign, Times(n as real, r.Magnitude()));
            && Times(q.Value(), r.Value()) + l.Value() == v
            && l.Value() - Times(Signed(l.sign != r.sign, n as real), r.Value()) == v
  {
    assert l.Value() == Signed(l.sign, l.Magnitude()) && r.Value() == Signed(r.sign, r.Magnitude());
    assert q.Value() == Signed(q.sign, n as real);
    hide Scaled, Times;
    SignsMatch(l.sign, r.sign, n as real, r.Magnitude());
  }

  /** The rounded sum is the remainder, and nothing was rounded. */
  lemma RemainderSum(f: Format, mode: Rounding, l: DecFloat, r: DecFloat, near: bool, m: real, n: nat, q: DecFloat)
    requires f.Valid() && IsQuotient(f, l, r, near, m, n, q)
    ensures var o := FmaSpec(f, mode, q, r, l);
            o.flags == {} && IsRemainder(f, l, r, near, ZeroSigned(o.value, l.sign))
  {
    hide Scaled, Times, IntegerOf, RoundSigned, Pow10, IsRemainder, ZeroSigned, ZeroSign;
    var (a, b) := (l.Magnitude(), r.Magnitude());
    var p := Times(n as real, b);
    ScaledNonNegative(l.coeff, l.exp);
    ScaledNonNegative(r.coeff, r.exp);
    QuotientBounds(a, b, m, near, n, p);
    var e := Least(q.exp + r.exp, l.exp);
    var d := DifferenceFits(f, l, r, near, q, n, e);
    RemainderValues(l, r, n, q);
    var v := Signed(l.sign, a) - Signed(l.sign, p);
    ExactSum(f, mode, ZeroSign(mode, q.sign != r.sign, l.sign), v, d, e);
    RemainderDatum(f, l, r, near, n, RoundSigned(f, mode, ZeroSign(mode, q.sign != r.sign, l.sign), v, e).value, v, p);
  }

  /** A datum with the exact value is the remainder once a zero has its sign. */
  lemma RemainderDatum(f: Format, l: DecFloat, r: DecFloat, near: bool, n: nat, x: DecFloat, v: real, p: real)
    requires l.Finite? && r.Finite? && x.Finite? && x.Value() == v && (x.coeff == 0 <==> v == 0.0)
    requires v == Signed(l.sign, l.Magnitude()) - Signed(l.sign, p)
    requires v == l.Value() - Times(Signed(l.sign != r.sign, n as real), r.Value())
    requires v != 0.0 ==> x.sign == (v < 0.0)
    requires x.exp == Least(l.exp, if n < Pow10(f.pmax) then r.exp else r.exp + 1)
    requires var (a, b) := (l.Magnitude(), r.Magnitude());
             if near then p + p <= a + a + b && a + a <= p + p + b && (p + p == a + a + b || a + a == p + p + b ==> n % 2 == 0)
             else p <= a < p + b
    ensures IsRemainder(f, l, r, near, ZeroSigned(x, l.sign))
  {
    ScaledNonNegative(x.coeff, x.exp);
    hide Scaled, Times;
    FinalSign(x, l.sign);
    assert RemainderBy(f, l, r, near, ZeroSigned(x, l.sign), n);
  }

  lemma FinalSign(x: DecFloat, sign: bool)
    requires x.Finite?
    ensures var y := ZeroSigned(x, sign);
            y.Finite? && y.Value() == x.Value() && y.Magnitude() == x.Magnitude() && y.coeff == x.coeff
            && (x.coeff == 0 ==> y.sign == sign) && (x.coeff != 0 ==> y == x)
  {
    ScaledZero(x.exp);
  }

  // ---- the operation ----

  /** The remainder of two decFloats, for operands that are not special: exact, with no flag but
      division-impossible when the integer quotient is too long. */
  method FiniteRemainder(f: Format, l: DecFloat, r: DecFloat, near: bool, set': DecContext) returns (result: DecFloat)
    requires f.Basic() && l.Finite? && r.Finite? && l.Fits(f) && r.Fits(f) && l.coeff > 0 && r.coeff > 0
    modifies set'
    ensures r.Magnitude() > 0.0 && Ratio(l.Magnitude(), r.Magnitude()) >= 0.0
    ensures set'.round == old(set'.round)
    ensures if Ratio(l.Magnitude(), r.Magnitude()) >= Pow10(f.pmax) as real
            then result == NaN(false, false, 0) && set'.status == old(set'.status) + {DivisionImpossible}
            else IsRemainder(f, l, r, near, result) && set'.status == old(set'.status)
  {
    hide Pow10, Scaled, Ratio, Val, IntegerOf, RoundScaled, Times, IsRemainder, FmaSpec, FmaClear, SumComputed;
    var sign := l.sign != r.sign;
    QuotientNonNegative(l, r);
    ghost var m := Ratio(l.Magnitude(), r.Magnitude());
    RatioTimes(l.Magnitude(), r.Magnitude());
    RatioOfScaled(l.coeff, l.exp, r.coeff, r.exp);
    var bcdacc := new nat[9 * (f.Units() + 1) + 2];
    var fits, msd, lsd := IntegerQuotient(f, l.coeff, r.coeff, l.exp - r.exp, near, bcdacc);
    if !fits {
      set'.status := set'.status + {DivisionImpossible};
      return NaN(false, false, 0);
    }
    ghost var n := IntegerOf(m, near);
    AtMostPower(m, near, Pow10(f.pmax));
    QuotientLaidOut(f, set'.round, sign, n);
    var quotient := DecFinalize(f, bcdacc, msd, lsd, sign, 0, set');
    quotient := Flip(quotient);
    assert IsQuotient(f, l, r, near, m, n, quotient);
    RemainderIsClear(f, l, r, near, m, n, quotient);
    RemainderSum(f, set'.round, l, r, near, m, n, quotient);
    result := DecFloatFMA(f, quotient, r, l, set');
    if result.IsZero() {
      result := Finite(l.sign, result.coeff, result.exp);
    }
  }

  lemma AtMostPower(m: real, near: bool, p: nat)
    requires 0.0 <= m < p as real
    ensures IntegerOf(m, near) <= p
  {
  }

  /** Remainders with a special or zero operand. */
  function RemainderSpecial(f: Format, l: DecFloat, r: DecFloat): Outcome
    requires !(l.Finite? && r.Finite?) || l.IsZero() || r.IsZero()
  {
    if l.NaN? || r.NaN? then PropagateNaN(l, r)
    else if l.Infinity? then Invalid()
    else if r.Infinity? then Outcome(l, {})
    else if r.IsZero() then
      if l.IsZero() then Outcome(NaN(false, false, 0), {DivisionUndefined}) else Invalid()
    else
      Outcome(Finite(l.sign, 0, Least(l.exp, r.exp)), {})
  }

  /** decFloatRemainder and decFloatRemainderNear. */
  method DecFloatRemainder(f: Format, l: DecFloat, r: DecFloat, near: bool, set': DecContext) returns (result: DecFloat)
    requires f.Basic() && l.Fits(f) && r.Fits(f)
    modifies set'
    ensures set'.round == old(set'.round)
    ensures if l.Finite? && r.Finite? && !l.IsZero() && !r.IsZero() then
              && r.Magnitude() > 0.0
              && if Ratio(l.Magnitude(), r.Magnitude()) >= Pow10(f.pmax) as real
                 then result == NaN(false, false, 0) && set'.status == old(set'.status) + {DivisionImpossible}
                 else IsRemainder(f, l, r, near, result) && set'.status == old(set'.status)
            else
              var o := RemainderSpecial(f, l, r);
              result == o.value && set'.status == old(set'.status) + o.flags
  {
    hide Pow10, Scaled, Ratio, Val, IsRemainder, RoundScaled;
    if l.NaN? || r.NaN? {
      result := Deliver(PropagateNaN(l, r), set');
    } else if l.Infinity? {
      result := Deliver(Invalid(), set');
    } else if r.Infinity? {
      result := l;
    } else if r.IsZero() {
      result := Deliver(if l.IsZero() then Outcome(NaN(false, false, 0), {DivisionUndefined}) else Invalid(), set');
    } else if l.IsZero() {
      var digit := new nat[1](_ => 0);
      assert digit[0..1] == [0];
      ValSingle(0);
      Pow10Positive(f.pmax);
      AlreadyRounded(f, set'.round, l.sign, 0, Least(l.exp, r.exp));
      result := DecFinalize(f, digit, 0, 0, l.sign, Least(l.exp, r.exp), set');
    } else {
      result := FiniteRemainder(f, l, r, near, set');
    }
  }
}
