/** Addition and subtraction (decFloatAdd, decBasic.c:1107-1571): the exact sum rounded once, with the
    sign rules for zero. */
module Add {
  import opened Arith
  import opened TenPowers
  import opened DecFloats
  import opened RoundingSpec
  import opened Truncation
  import opened Specials
  import opened Bcd
  import opened BcdCells
  import opened AddDigits
  import opened Declets
  import opened Finalize

  function Least(a: int, b: int): int {
    if a < b then a else b
  }

  /** The sign of a sum that is exactly zero (section 6.3 of IEEE 754-2008). */
  function ZeroSign(mode: Rounding, signl: bool, signr: bool): bool {
    if signl == signr then signl else mode == Floor
  }

  /** The reference: addition by section 5.4.1 of IEEE 754-2008. */
  ghost function AddSpec(f: Format, mode: Rounding, l: DecFloat, r: DecFloat): Outcome
    requires f.Valid()
  {
    if l.NaN? || r.NaN? then
      PropagateNaN(l, r)
    else if l.Infinity? then
      if r.Infinity? && l.sign != r.sign then Invalid() else Outcome(Infinity(l.sign), {})
    else if r.Infinity? then
      Outcome(Infinity(r.sign), {})
    else
      RoundSigned(f, mode, ZeroSign(mode, l.sign, r.sign), l.Value() + r.Value(), Least(l.exp, r.exp))
  }

  // ---- values ----

  lemma SignedSum(signl: bool, signr: bool, h: real, z: real)
    requires h >= 0.0 && z >= 0.0
    ensures var v := Signed(signl, h) + Signed(signr, z);
            && (signl == signr ==> v == Signed(signl, h + z))
            && (signl != signr && z < h ==> v == Signed(signl, h - z))
            && (signl != signr && z >= h ==> v == Signed(signr, z - h))
  {
  }

  lemma RoundSignedOf(f: Format, mode: Rounding, zeroSign: bool, sign: bool, m: real, pref: int)
    requires f.Valid() && m >= 0.0 && (m == 0.0 ==> sign == zeroSign)
    ensures RoundSigned(f, mode, zeroSign, Signed(sign, m), pref) == Round(f, mode, sign, m, pref)
  {
  }

  /** The low operand laid out in full: the digits are the sum. */
  lemma SumExact(f: Format, mode: Rounding, signl: bool, signr: bool, x: nat, gap: nat, y: nat, e: int, d: nat, sign: bool)
    requires f.Valid() && x > 0
    requires SumResult(signl != signr, signl, signr, mode == Floor, x, gap, y, d, sign)
    ensures RoundSigned(f, mode, ZeroSign(mode, signl, signr),
                        Signed(signl, Scaled(x, e + gap)) + Signed(signr, Scaled(y, e)), e)
         == RoundScaled(f, mode, sign, d, e)
  {
    hide Scale, Round, Shift, RoundSigned;
    var h := Shift(x, gap);
    ScaledShift(x, e, gap);
    ScaledNonNegative(x, e + gap);
    ScaledNonNegative(h, e);
    ScaledNonNegative(y, e);
    ScaledNonNegative(d, e);
    SignedSum(signl, signr, Scaled(h, e), Scaled(y, e));
    ScaledSum(h, y, e);
    ScaledSum(d, if y < h then y else h, e);
    ScaledOrder(y, h, e);
    ScaledOrder(h, y, e);
    RoundSignedOf(f, mode, ZeroSign(mode, signl, signr), sign, Scaled(d, e), e);
  }

  lemma ScaledSum(a: nat, b: nat, e: int)
    ensures Scaled(a + b, e) == Scaled(a, e) + Scaled(b, e)
  {
    hide Scale;
    ScaleSum(a as real, b as real, e);
  }

  /** An operand out of reach is less than one unit of the sticky digit. */
  lemma OutOfReach(p: nat, y: nat, er: int, e: int)
    requires y < Pow10(p) && er + p <= e
    ensures 0.0 <= Scaled(y, er) < Scaled(1, e)
    ensures y > 0 ==> Scaled(y, er) > 0.0
  {
    hide Scale, Pow10, Ten;
    ScaledNonNegative(y, er);
    ScaledOfPow10(p, er);
    ScaledOfPow10(0, e);
    Pow10One();
    ScaledOrder(y, Pow10(p), er);
    TenMono(p + er, e);
  }

  /** The low operand replaced by a sticky digit: rounding does not notice. */
  lemma SumSticky(f: Format, mode: Rounding, signl: bool, signr: bool, x: nat, el: int, y: nat, er: int, d: nat, sign: bool)
    requires f.Valid() && x > 0 && y < Pow10(f.pmax) && el - er > 2 * f.pmax
    requires SumResult(signl != signr, signl, signr, mode == Floor, x, f.pmax + 1, if y == 0 then 0 else 1, d, sign)
    ensures RoundSigned(f, mode, ZeroSign(mode, signl, signr), Signed(signl, Scaled(x, el)) + Signed(signr, Scaled(y, er)), er)
         == RoundScaled(f, mode, sign, d, el - f.pmax - 1)
  {
    hide Scale, Round, Shift, RoundSigned, Pow10;
    var e := el - f.pmax - 1;
    var h := Shift(x, f.pmax + 1);
    ScaledShift(x, e, f.pmax + 1);
    ScaledNonNegative(x, el);
    OutOfReach(f.pmax, y, er, e);
    ScaledOrder(1, h, e);
    AtLeastPower(x, f.pmax);
    var s := Scaled(y, er);
    SignedSum(signl, signr, Scaled(h, e), s);
    if y == 0 {
      ScaledZero(er);
      RoundSignedOf(f, mode, ZeroSign(mode, signl, signr), signl, Scaled(h, e), er);
      ScaledOrder(1, x, el);
      FarPrefs(f, mode, signl, Scaled(h, e), el, er, e);
    } else if signl == signr {
      RoundSignedOf(f, mode, ZeroSign(mode, signl, signr), signl, Scaled(h, e) + s, er);
      StickyAbove(f, mode, signl, Shift(x, f.pmax), h, e, s, er);
    } else {
      RoundSignedOf(f, mode, ZeroSign(mode, signl, signr), signl, Scaled(h, e) - s, er);
      StickyBelow(f, mode, signl, Shift(x, f.pmax), h, e, s, er);
    }
  }

  lemma ScaledZero(e: int)
    ensures Scaled(0, e) == 0.0
  {
    ZeroScale(e);
  }

  lemma AtLeastPower(x: nat, p: nat)
    requires x > 0
    ensures Shift(x, p) >= Pow10(p) && Shift(x, p + 1) == 10 * Shift(x, p) && Shift(x, p + 1) > 1
  {
    ShiftMono(1, x, p);
    ShiftOne(x, p);
  }

  /** Something positive but less than a unit, on top of k * 10 units. */
  lemma StickyAbove(f: Format, mode: Rounding, sign: bool, k: nat, h: nat, e: int, s: real, pref: int)
    requires f.Valid() && k >= Pow10(f.pmax) && h == 10 * k && 0.0 < s < Scaled(1, e)
    ensures Scaled(h, e) + s > 0.0
    ensures Round(f, mode, sign, Scaled(h, e) + s, pref) == RoundScaled(f, mode, sign, h + 1, e)
  {
    hide Scale, Pow10, Round;
    var m := Scaled(h, e) + s;
    var (x, y) := (Scale(m, -(e + 1)), Scale(Scaled(h + 1, e), -(e + 1)));
    ScaledSum(h, 1, e);
    ScaledOrder(h, h + 1, e);
    ScaledOrder(h + 1, h + 10, e);
    InCell(k, e, m, x);
    InCell(k, e, Scaled(h + 1, e), y);
    SameOpenCell(f, mode, sign, x, y, k, e + 1, pref, e);
  }

  /** A number within the ten units k * 10 .. k * 10 + 10. */
  lemma InCell(k: nat, e: int, m: real, x: real)
    requires Scaled(10 * k, e) < m < Scaled(10 * k + 10, e) && x == Scale(m, -(e + 1))
    ensures k as real < x < (k + 1) as real && Scale(x, e + 1) == m
  {
    hide Scale;
    ScaleInverse(m, e + 1);
    TenUnits(k, e);
    TenUnits(k + 1, e);
    ScaleOrder(k as real, x, e + 1);
    ScaleOrder(x, (k + 1) as real, e + 1);
  }

  lemma TenUnits(k: nat, e: int)
    ensures Scaled(k, e + 1) == Scaled(10 * k, e)
  {
    hide Scale;
    ScaledShift(k, e, 1);
    ShiftOne(k, 1);
    ShiftZero(k);
  }

  /** Something positive but less than a unit, taken off k * 10 units. */
  lemma StickyBelow(f: Format, mode: Rounding, sign: bool, k: nat, h: nat, e: int, s: real, pref: int)
    requires f.Valid() && k >= Pow10(f.pmax) && h == 10 * k && h > 1 && 0.0 < s < Scaled(1, e)
    ensures Scaled(h, e) - s > 0.0
    ensures Round(f, mode, sign, Scaled(h, e) - s, pref) == RoundScaled(f, mode, sign, h - 1, e)
  {
    NextLowerPower(f.pmax, k);
    hide Scale, Pow10, Round, ResidueOf;
    var m := Scaled(h, e) - s;
    var (x, y) := (Scale(m, -(e + 1)), Scale(Scaled(h - 1, e), -(e + 1)));
    ScaledSum(h - 1, 1, e);
    ScaledOrder(10 * (k - 1), h - 1, e);
    ScaledOrder(h - 5, h - 1, e);
    ScaledOrder(h - 1, h, e);
    InCell(k - 1, e, m, x);
    InCell(k - 1, e, Scaled(h - 1, e), y);
    AboveMiddle(k - 1, e, m, x);
    AboveMiddle(k - 1, e, Scaled(h - 1, e), y);
    SameClass(f, mode, sign, x, y, k - 1, e + 1, pref, e);
  }

  lemma NextLowerPower(p: nat, k: nat)
    requires p >= 1 && k >= Pow10(p)
    ensures k >= 1 && k - 1 >= Pow10(p - 1)
  {
  }

  lemma AboveMiddle(k: nat, e: int, m: real, x: real)
    requires Scaled(10 * k + 5, e) < m && x == Scale(m, -(e + 1)) && k as real < x < (k + 1) as real
    ensures ResidueOf(x - k as real) == AboveHalf
  {
    hide Scale;
    var w := k as real + 0.5;
    ScaleInverse(m, e + 1);
    ScaleAdd(w, e, 1);
    ScaleTen(w);
    assert 10.0 * w == (10 * k + 5) as real;
    ScaleOrder(w, x, e + 1);
  }

  lemma ScaleTen(w: real)
    ensures Scale(w, 1) == 10.0 * w
  {
    TenNat(1);
    Pow10One();
  }

  // ---- the operation ----

  /** A coefficient in range at an exponent in range is its own rounding. */
  lemma AlreadyRounded(f: Format, mode: Rounding, sign: bool, c: nat, e: int)
    requires f.Valid() && c < Pow10(f.pmax) && f.Qtiny() <= e <= f.Etop()
    ensures RoundScaled(f, mode, sign, c, e) == Outcome(Finite(sign, c, e), {})
  {
    hide Scale, Pow10, Round;
    if c == 0 {
      FinishZero(f, mode, sign, e, e);
    } else {
      NumDigitsIsLength(c);
      LengthUpTo(c, NumDigits(c), f.pmax);
      FinishExact(f, mode, sign, c, NumDigits(c), e);
    }
  }

  lemma LengthUpTo(c: nat, len: nat, p: nat)
    requires HasLength(c, len) && c < Pow10(p)
    ensures len <= p
  {
    if len > p {
      Pow10Mono(p, len - 1);
    }
  }

  lemma NumDigitsBound(c: nat, p: nat)
    requires c < Pow10(p) && p >= 1
    ensures 1 <= NumDigits(c) <= p
  {
    NumDigitsIsLength(c);
    if c > 0 {
      LengthUpTo(c, NumDigits(c), p);
    }
  }

  /** The most significant digit of a coefficient. */
  function Msd(f: Format, c: nat): nat {
    High(c, if f.pmax >= 1 then f.pmax - 1 else 0)
  }

  lemma MsdSum(f: Format, cl: nat, cr: nat)
    requires f.Valid() && Msd(f, cl) + Msd(f, cr) <= 8
    ensures cl + cr < Pow10(f.pmax)
  {
    var k := f.pmax - 1;
    assert Pow10(f.pmax) == 10 * Pow10(k);
    hide Pow10, Shift, High, Low;
    var (a, b) := (Msd(f, cl), Msd(f, cr));
    HighLow(cl, k);
    HighLow(cr, k);
    ShiftSum(a, b, k);
    ShiftMono(a + b, 8, k);
    ShiftIsProduct(8, k);
    ShiftOfPow10(0, k);
  }

  /** The fast path, base 1000: exponents equal, signs equal, no carry out of the top. */
  method FastAdd(f: Format, sign: bool, cl: nat, cr: nat, exp: int, ghost mode: Rounding) returns (result: DecFloat)
    requires f.Basic() && cl < Pow10(f.pmax) && cr < Pow10(f.pmax) && f.Qtiny() <= exp <= f.Etop()
    requires Msd(f, cl) + Msd(f, cr) <= 8
    ensures Outcome(result, {})
         == RoundSigned(f, mode, sign, Signed(sign, Scaled(cl, exp)) + Signed(sign, Scaled(cr, exp)), exp)
  {
    hide NumThou, Pow10, Round, Scaled, RoundSigned, Msd;
    var n := (f.pmax - 1) / 3;
    assert 3 * n + 1 == f.pmax;
    var tac := GetCoeffThou(cl, n);
    AddCoeffThou(cr, n, tac);
    MsdSum(f, cl, cr);
    result := Finite(sign, NumThou(tac[..]), exp);
    AlreadyRounded(f, mode, sign, cl + cr, exp);
    ScaledSum(cl, cr, exp);
    ScaledNonNegative(cl + cr, exp);
    RoundSignedOf(f, mode, sign, sign, Scaled(cl + cr, exp), exp);
  }

  /** The slow path: x is the coefficient with the greater exponent. */
  method SlowAdd(f: Format, signl: bool, x: nat, el: int, signr: bool, y: nat, er: int, set': DecContext)
    returns (result: DecFloat)
    requires f.Basic() && 0 < x < Pow10(f.pmax) && y < Pow10(f.pmax) && el >= er
    modifies set'
    ensures var o := RoundSigned(f, old(set'.round), ZeroSign(old(set'.round), signl, signr),
                                 Signed(signl, Scaled(x, el)) + Signed(signr, Scaled(y, er)), er);
            result == o.value && set'.status == old(set'.status) + o.flags
    ensures set'.round == old(set'.round)
  {
    hide Pow10, Round, Scaled, RoundSigned, Val, Shift, SumResult, RoundScaled;
    var acc := new nat[3 * f.pmax + 14](_ => 0);
    var mode := set'.round;
    var umsd, ulsd, sign, clamp;
    ghost var t, z;
    umsd, ulsd, sign, clamp, t, z := SlowDigits(f.pmax, x, y, el - er, signl, signr, mode == Floor, acc);
    CellDigits(acc, umsd, ulsd + 1);
    ghost var d := Val(acc[umsd..ulsd + 1]);
    if t == el - er && z == y {
      SumExact(f, mode, signl, signr, x, t, y, er, d, sign);
    } else {
      SumSticky(f, mode, signl, signr, x, el, y, er, d, sign);
    }
    result := DecFinalize(f, acc, umsd, ulsd, sign, er + clamp, set');
  }

  lemma ValueSigned(x: DecFloat)
    requires x.Finite?
    ensures x.Value() == Signed(x.sign, Scaled(x.coeff, x.exp))
  {
  }

  /** Adding zero to an operand with a lower exponent gives that operand, clean. */
  lemma AddToZero(f: Format, mode: Rounding, zeroSign: bool, r: DecFloat)
    requires f.Valid() && r.Finite? && r.Fits(f)
    ensures RoundSigned(f, mode, zeroSign, r.Value(), r.exp)
         == Outcome(Finite(if r.coeff == 0 then zeroSign else r.sign, r.coeff, r.exp), {})
  {
    hide Scale, Pow10, Round;
    ScaledNonNegative(r.coeff, r.exp);
    AlreadyRounded(f, mode, r.sign, r.coeff, r.exp);
    AlreadyRounded(f, mode, zeroSign, r.coeff, r.exp);
  }

  /** Finite operands, the one with the greater exponent first. */
  method AddAligned(f: Format, l: DecFloat, r: DecFloat, set': DecContext) returns (result: DecFloat)
    requires f.Basic() && l.Finite? && r.Finite? && l.Fits(f) && r.Fits(f) && l.exp >= r.exp
    modifies set'
    ensures var o := RoundSigned(f, old(set'.round), ZeroSign(old(set'.round), l.sign, r.sign), l.Value() + r.Value(), r.exp);
            result == o.value && set'.status == old(set'.status) + o.flags
    ensures set'.round == old(set'.round)
  {
    hide Pow10, Round, Scaled, RoundSigned;
    ValueSigned(l);
    ValueSigned(r);
    if l.coeff == 0 {
      ScaledZero(l.exp);
      AddToZero(f, set'.round, ZeroSign(set'.round, l.sign, r.sign), r);
      result := r;
      if l.sign != r.sign && r.coeff == 0 {
        result := Finite(set'.round == Floor, 0, r.exp);
      }
      return;
    }
    result := SlowAdd(f, l.sign, l.coeff, l.exp, r.sign, r.coeff, r.exp, set');
  }

  lemma AddSpecFinite(f: Format, mode: Rounding, l: DecFloat, r: DecFloat)
    requires f.Valid() && l.Finite? && r.Finite?
    ensures AddSpec(f, mode, l, r)
         == RoundSigned(f, mode, ZeroSign(mode, l.sign, r.sign), l.Value() + r.Value(), Least(l.exp, r.exp))
    ensures l.Value() + r.Value() == r.Value() + l.Value()
    ensures ZeroSign(mode, l.sign, r.sign) == ZeroSign(mode, r.sign, l.sign)
  {
  }

  /** The sum of two decFloats: for all operands and modes the exact sum rounded once. */
  method DecFloatAdd(f: Format, l: DecFloat, r: DecFloat, set': DecContext) returns (result: DecFloat)
    requires f.Basic() && l.Fits(f) && r.Fits(f)
    modifies set'
    ensures var o := AddSpec(f, old(set'.round), l, r);
            result == o.value && set'.status == old(set'.status) + o.flags
    ensures set'.round == old(set'.round)
  {
    hide Pow10, Round, Scaled, RoundSigned, Msd;
    if l.NaN? || r.NaN? {
      var o := PropagateNaN(l, r);
      set'.status := set'.status + o.flags;
      return o.value;
    }
    if l.Infinity? && r.Infinity? && l.sign != r.sign {
      set'.status := set'.status + {InvalidOperation};
      return Invalid().value;
    }
    if l.Infinity? {
      return Infinity(l.sign);
    }
    if r.Infinity? {
      return Infinity(r.sign);
    }
    AddSpecFinite(f, set'.round, l, r);
    if Msd(f, l.coeff) + Msd(f, r.coeff) <= 8 && l.exp == r.exp && l.sign == r.sign {
      ValueSigned(l);
      ValueSigned(r);
      result := FastAdd(f, l.sign, l.coeff, r.coeff, l.exp, set'.round);
      return;
    }
    if r.exp <= l.exp {
      result := AddAligned(f, l, r, set');
    } else {
      result := AddAligned(f, r, l, set');
    }
  }
}
