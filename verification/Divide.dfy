/** Division of decFloats (decDivide, decBasic.c:166-667, with op DIVIDE): the exact quotient,
    rounded once. */
module Divide {
  import opened Arith
  import opened TenPowers
  import opened DecFloats
  import opened RoundingSpec
  import opened Truncation
  import opened Specials
  import opened Bcd
  import opened BaseBillion
  import opened LongDivision
  import opened LongDivisionLoop
  import opened Conversion
  import opened Finalize

  // ---- what a division is ----

  function Ratio(x: real, y: real): real
    requires y > 0.0
  {
    x / y
  }

  lemma RatioTimes(x: real, y: real)
    requires y > 0.0
    ensures Times(Ratio(x, y), y) == x
  {
  }

  /** The quotient of two decimals as a scaled ratio of their coefficients. */
  lemma RatioOfScaled(cl: nat, el: int, cr: nat, er: int)
    requires cr > 0
    ensures Scaled(cr, er) > 0.0
    ensures Ratio(Scaled(cl, el), Scaled(cr, er)) == Scale(Ratio(cl as real, cr as real), el - er)
  {
    hide Ratio, Ten, Times;
    ScaledNonNegative(cr, er);
    var y := Ratio(cl as real, cr as real);
    var t := Scale(y, el - er);
    RatioTimes(cl as real, cr as real);
    RatioTimes(Scaled(cl, el), Scaled(cr, er));
    assert Times(t, Scaled(cr, er)) == Scaled(cl, el) by {
      TimesComm(cr as real, Ten(er));
      TimesAssoc(y, Ten(el - er), Times(Ten(er), cr as real));
      TimesAssoc(Ten(el - er), Ten(er), cr as real);
      TenAdd(el - er, er);
      TimesComm(Ten(el), cr as real);
      TimesAssoc(y, cr as real, Ten(el));
    }
    TimesOrder(t, Ratio(Scaled(cl, el), Scaled(cr, er)), Scaled(cr, er));
  }

  /** The reference: division by section 5.4.1 of IEEE 754-2008, specials by sections 6 and 7. */
  ghost function DivideSpec(f: Format, mode: Rounding, l: DecFloat, r: DecFloat): Outcome
    requires f.Valid()
  {
    if l.NaN? || r.NaN? then
      PropagateNaN(l, r)
    else
      var sign := l.sign != r.sign;
      if l.Infinity? then
        if r.Infinity? then Invalid() else Outcome(Infinity(sign), {})
      else if r.Infinity? then
        Outcome(Finite(sign, 0, f.Qtiny()), {})
      else if r.IsZero() then
        if l.IsZero() then Outcome(NaN(false, false, 0), {DivisionUndefined})
        else Outcome(Infinity(sign), {DivisionByZero})
      else
        QuotientNonNegative(l, r);
        Round(f, mode, sign, Ratio(l.Magnitude(), r.Magnitude()), l.exp - r.exp)
  }

  lemma QuotientNonNegative(l: DecFloat, r: DecFloat)
    requires l.Finite? && r.Finite? && !r.IsZero()
    ensures r.Magnitude() > 0.0 && Ratio(l.Magnitude(), r.Magnitude()) >= 0.0
    ensures l.IsZero() <==> Ratio(l.Magnitude(), r.Magnitude()) == 0.0
  {
    ScaledNonNegative(l.coeff, l.exp);
    ScaledNonNegative(r.coeff, r.exp);
    RatioTimes(l.Magnitude(), r.Magnitude());
    TimesSign(Ratio(l.Magnitude(), r.Magnitude()), r.Magnitude());
    hide Scaled, Ratio;
  }

  // ---- what the quotient digits must say ----

  /** Digits c at exponent e describe m well enough for rounding: exactly, with no trailing zeros
      beyond the wanted exponent; or to the last digit but one, followed by something non-zero. */
  ghost predicate Describes(f: Format, c: nat, e: int, m: real, pref: int) {
    || (c > 0 && m == Scaled(c, e) && (e == pref || (e < pref && c % 10 != 0)))
    || (var k := c / 10;
        && k >= Pow10(f.pmax) && c % 10 != 0
        && Scaled(k, e + 1) < m < Scaled(k + 1, e + 1))
  }

  /** Rounding the digits rounds the number. */
  lemma DescribedRounds(f: Format, mode: Rounding, sign: bool, c: nat, e: int, m: real, pref: int)
    requires f.Valid() && Describes(f, c, e, m, pref)
    ensures m > 0.0 && Round(f, mode, sign, m, pref) == RoundScaled(f, mode, sign, c, e)
  {
    if c > 0 && m == Scaled(c, e) && (e == pref || (e < pref && c % 10 != 0)) {
      ScaledNonNegative(c, e);
      if e < pref {
        MinimalIgnoresPref(f, mode, sign, c, e, m, pref);
      }
    } else {
      var k := c / 10;
      BracketedDigits(c, e, k);
      var y := Scale(m, -(e + 1));
      var x := Scale(Scaled(c, e), -(e + 1));
      ScaleInverse(m, e + 1);
      ScaleInverse(Scaled(c, e), e + 1);
      hide Scale, Pow10, Round;
      assert k as real < y < (k + 1) as real by {
        ScaleOrder(k as real, y, e + 1);
        ScaleOrder(y, (k + 1) as real, e + 1);
      }
      assert k as real < x < (k + 1) as real by {
        ScaleOrder(k as real, x, e + 1);
        ScaleOrder(x, (k + 1) as real, e + 1);
      }
      SameOpenCell(f, mode, sign, y, x, k, e + 1, pref, e);
    }
  }

  lemma BracketedDigits(c: nat, e: int, k: nat)
    requires c % 10 != 0 && k == c / 10
    ensures Scaled(k, e + 1) < Scaled(c, e) < Scaled(k + 1, e + 1)
  {
    ScaledShift(k, e, 1);
    ScaledShift(k + 1, e, 1);
    ShiftOne(k, 1);
    ShiftOne(k + 1, 1);
    ShiftZero(k);
    ShiftZero(k + 1);
    hide Scale, Shift;
    ScaledOrder(10 * k, c, e);
    ScaledOrder(c, 10 * k + 10, e);
  }

  /** Digits without a trailing zero have the greatest exponent there is for them already. */
  lemma MinimalIgnoresPref(f: Format, mode: Rounding, sign: bool, c: nat, e: int, m: real, pref: int)
    requires f.Valid() && c > 0 && c % 10 != 0 && m == Scaled(c, e) > 0.0 && e <= pref
    ensures Round(f, mode, sign, m, pref) == Round(f, mode, sign, m, e)
  {
    hide Scale, Pow10, Round, Truncates, Discarded, Toward, Shift;
    TruncationExists(f, m);
    var c0: nat, q0: int :| Truncates(f, m, c0, q0);
    RoundTruncated(f, mode, sign, m, pref, c0, q0);
    RoundTruncated(f, mode, sign, m, e, c0, q0);
    if ResidueOf(Discarded(m, c0, q0)) == Zero && q0 <= f.Etop() {
      ExactTruncation(f, c, e, c0, q0);
      TowardMinimal(c, e, c0, q0, if pref < f.Etop() then pref else f.Etop(), if e < f.Etop() then e else f.Etop());
    }
  }

  lemma ExactTruncation(f: Format, c: nat, e: int, c0: nat, q0: int)
    requires f.Valid() && c > 0 && c % 10 != 0 && Truncates(f, Scaled(c, e), c0, q0)
    requires ResidueOf(Discarded(Scaled(c, e), c0, q0)) == Zero
    ensures q0 <= e && c0 == Shift(c, e - q0)
  {
    NothingDiscarded(Scaled(c, e), c0, q0);
    hide *;
    TruncatedNonZero(f, Scaled(c, e), c0, q0);
    if q0 > e {
      ShiftedEndsInZero(c0, q0 - e);
      ScaledShift(c0, e, q0 - e);
      ScaledOrder(c, Shift(c0, q0 - e), e);
    } else {
      ScaledShift(c, q0, e - q0);
      ScaledOrder(Shift(c, e - q0), c0, q0);
    }
  }

  lemma ShiftedEndsInZero(c: nat, k: nat)
    requires k >= 1
    ensures Shift(c, k) % 10 == 0
  {
  }

  lemma NothingDiscarded(m: real, c0: nat, q0: int)
    requires ResidueOf(Discarded(m, c0, q0)) == Zero
    ensures m == Scaled(c0, q0)
  {
    hide Scale;
    ScaleInverse(m, q0);
  }

  lemma TruncatedNonZero(f: Format, m: real, c0: nat, q0: int)
    requires Truncates(f, m, c0, q0)
    ensures q0 >= f.Qtiny() && Scaled(c0, q0) <= m < Scaled(c0 + 1, q0)
  {
  }

  lemma TowardMinimal(c: nat, e: int, c0: nat, q0: int, t: int, t': int)
    requires c > 0 && c % 10 != 0 && q0 <= e && c0 == Shift(c, e - q0)
    requires t == t' || (t >= e && t' >= e)
    ensures Toward(c0, q0, t) == Toward(c0, q0, t')
  {
    if t >= e && t' >= e {
      TowardPadded(c, q0, e - q0, t);
      TowardPadded(c, q0, e - q0, t');
      TowardStays(c, e, t);
      TowardStays(c, e, t');
    }
  }

  lemma TowardStays(c: nat, e: int, t: int)
    requires c % 10 != 0
    ensures Toward(c, e, t) == (c, e)
  {
  }

  // ---- from the long division to the quotient digits ----

  /** x |= 1 on a unit. */
  function OrOne(x: nat): nat {
    if x % 2 == 0 then x + 1 else x
  }

  /** The value of the quotient against its integer part. */
  lemma QuotientCell(cl: nat, cr: nat, e0: int, Q: nat, W: nat, J: nat)
    requires cr > 0 && Prod(Q, cr) + W == Raise(cl, J) && W < cr
    ensures var m := Scale(Ratio(cl as real, cr as real), e0);
            && (W == 0 ==> m == Scaled(Q, e0 - 9 * J))
            && (W > 0 ==> Scaled(Q, e0 - 9 * J) < m < Scaled(Q + 1, e0 - 9 * J))
  {
    hide Ratio, Ten, Times, Prod, Raise, Shift;
    var r := Ratio(cl as real, cr as real);
    var y := Scale(r, 9 * J);
    RatioTimes(cl as real, cr as real);
    ScaleAdd(r, e0 - 9 * J, 9 * J);
    assert Times(y, cr as real) == (Prod(Q, cr) + W) as real by {
      TimesComm(r, Ten(9 * J));
      TimesAssoc(Ten(9 * J), r, cr as real);
      TimesComm(Ten(9 * J), cl as real);
      RaiseIsShift(cl, J);
      ScaledNat(cl, 9 * J);
    }
    ProdReal(Q, cr);
    ProdReal(Q + 1, cr);
    ProdLaws(Q, 1, cr);
    TimesOrder(y, Q as real, cr as real);
    TimesOrder(Q as real, y, cr as real);
    TimesOrder(y, (Q + 1) as real, cr as real);
    hide Scale;
    ScaleOrder(Q as real, y, e0 - 9 * J);
    ScaleOrder(y, (Q + 1) as real, e0 - 9 * J);
  }

  lemma ProdReal(a: nat, b: nat)
    ensures Prod(a, b) as real == Times(a as real, b as real)
  {
    ProductAsReal(a, b);
  }

  /** An exact quotient, as delivered. */
  lemma ExactDescribes(f: Format, cl: nat, cr: nat, e0: int, Q: nat, J: nat, c: nat, z: nat)
    requires cl > 0 && cr > 0 && Prod(Q, cr) == Raise(cl, J) && Q == Shift(c, z)
    requires if J == 0 then z == 0 else c % 10 != 0 && z <= 8
    ensures Describes(f, c, e0 - 9 * J + z, Scale(Ratio(cl as real, cr as real), e0), e0)
  {
    hide Ratio, Scale, Prod, Raise, Shift, Pow10;
    QuotientCell(cl, cr, e0, Q, 0, J);
    ScaledShift(c, e0 - 9 * J, z);
    RaisePositive(cl, J);
    if c == 0 {
      ShiftZero(z);
      ProdLaws(0, 0, cr);
    }
  }

  /** An inexact quotient, as delivered with its sticky bit. */
  lemma InexactDescribes(f: Format, cl: nat, cr: nat, e0: int, Q: nat, W: nat, J: nat)
    requires cl > 0 && cr > 0 && Prod(Q, cr) + W == Raise(cl, J) && 0 < W < cr
    requires Q >= Pow10(f.pmax + 1)
    ensures Describes(f, OrOne(Q), e0 - 9 * J, Scale(Ratio(cl as real, cr as real), e0), e0)
  {
    assert Pow10(f.pmax + 1) == 10 * Pow10(f.pmax);
    hide Ratio, Scale, Prod, Raise, Shift, Pow10;
    var (k, e) := (Q / 10, e0 - 9 * J);
    QuotientCell(cl, cr, e0, Q, W, J);
    ShiftOne(k, 1);
    ShiftOne(k + 1, 1);
    ShiftZero(k);
    ShiftZero(k + 1);
    ScaledShift(k, e, 1);
    ScaledShift(k + 1, e, 1);
    ScaledOrder(Q, 10 * k, e);
    ScaledOrder(10 * k + 10, Q + 1, e);
    OrOneTens(Q);
  }

  lemma OrOneTens(Q: nat)
    ensures OrOne(Q) / 10 == Q / 10 && OrOne(Q) % 10 != 0
  {
    var (t, d) := (Q / 10, Q % 10);
    EvenTens(t, d);
    if Q % 2 == 0 {
      DivModUnique(Q + 1, 10, t, d + 1);
    }
  }

  lemma EvenTens(t: nat, d: nat)
    ensures (10 * t + d) % 2 == d % 2
  {
  }

  lemma OrOneLength(Q: nat, digits: nat)
    requires HasLength(Q, digits)
    ensures HasLength(OrOne(Q), digits)
  {
    Pow10Even(digits);
  }

  /** Or-ing the last unit is or-ing the number. */
  lemma OrOneUnit(q: seq<nat>)
    requires |q| >= 1 && Units(q)
    ensures var q' := q[0 := OrOne(q[0])]; Units(q') && Num(q') == OrOne(Num(q))
  {
    var q' := q[0 := OrOne(q[0])];
    assert q'[1..] == q[1..];
    EvenBase(q[0], Num(q[1..]));
  }

  lemma EvenBase(a: nat, b: nat)
    ensures (a + 1_000_000_000 * b) % 2 == a % 2
  {
  }

  // ---- the operation ----

  lemma CoefficientFits(f: Format, c: nat)
    requires f.Valid() && c < Pow10(f.pmax)
    ensures c < Raise(1, f.Units())
  {
    hide Pow10, Raise;
    RaiseIsShift(1, f.Units());
    ShiftOne(0, 9 * f.Units());
    Pow10Mono(f.pmax, 9 * f.Units());
  }

  /** Lays out the divisor and prepares the estimator. */
  method SetUpDivisor(f: Format, cr: nat) returns (div: array<nat>, divunits: nat, divtop: nat)
    requires f.Valid() && 0 < cr < Pow10(f.pmax)
    ensures fresh(div) && div.Length == f.Units()
    ensures Divisor(div, divunits, divtop) && Num(div[..divunits]) == cr
  {
    hide Num, Raise, Pow10;
    var L := f.Units();
    div := new nat[L];
    CoefficientFits(f, cr);
    GetCoeffBill(cr, div, 0, L);
    assert div[0..0 + L] == div[..L];
    divunits := L;
    while divunits > 0 && div[divunits - 1] == 0
      invariant divunits <= L && Num(div[..divunits]) == cr && Units(div[..divunits])
    {
      NumZeroTop(div[..divunits]);
      assert div[..divunits][..divunits - 1] == div[..divunits - 1];
      divunits := divunits - 1;
    }
    NumEmpty(div[..divunits]);
    divtop := DivTop(div, divunits);
  }

  lemma NumEmpty(s: seq<nat>)
    ensures |s| == 0 ==> Num(s) == 0
  {
  }

  method SetUpDividend(f: Format, cl: nat) returns (acc: array<nat>)
    requires f.Valid() && 0 < cl < Pow10(f.pmax)
    ensures fresh(acc) && acc.Length == 3 * f.Units() && Dividend(acc[..], f.Units(), cl)
  {
    hide Num, Raise, Pow10;
    var L := f.Units();
    acc := new nat[3 * L](_ => 0);
    CoefficientFits(f, cl);
    GetCoeffBill(cl, acc, 2 * L, L);
    ghost var a := acc[..];
    assert acc[2 * L..2 * L + L] == a[2 * L..];
    forall k: nat | k < |a|
      ensures a[k] < 1_000_000_000
    {
      assert k >= 2 * L ==> a[k] == a[2 * L..][k - 2 * L];
    }
  }

  /** Drops trailing zero digits. */
  method StripTrailing(buf: array<nat>, msd: nat, lsd: nat) returns (ub: nat)
    requires msd <= lsd < buf.Length && Digits(buf[msd..lsd + 1]) && Val(buf[msd..lsd + 1]) > 0
    ensures msd <= ub <= lsd && Digits(buf[msd..ub + 1])
    ensures Val(buf[msd..lsd + 1]) == Shift(Val(buf[msd..ub + 1]), lsd - ub)
    ensures Val(buf[msd..ub + 1]) % 10 != 0
  {
    hide Val, Shift;
    ghost var s := buf[msd..lsd + 1];
    ub := lsd;
    ShiftZero(Val(s));
    while buf[ub] == 0
      invariant msd <= ub <= lsd
      invariant Val(s) == Shift(Val(buf[msd..ub + 1]), lsd - ub) > 0
      decreases ub
    {
      ghost var t := buf[msd..ub + 1];
      assert t == t[..|t| - 1] + [0] && t[..|t| - 1] == buf[msd..ub];
      DropZero(t[..|t| - 1], lsd - ub);
      if ub == msd {
        EmptyShift(buf[msd..ub], lsd - ub + 1);
        assert false;
      }
      ub := ub - 1;
    }
    DigitsPrefix(s, buf[msd..ub + 1]);
    LastDigit(buf[msd..ub + 1]);
  }

  lemma DigitsPrefix(s: seq<nat>, t: seq<nat>)
    requires Digits(s) && t <= s
    ensures Digits(t)
  {
  }

  lemma DropZero(t: seq<nat>, z: nat)
    ensures Shift(Val(t + [0]), z) == Shift(Val(t), z + 1)
  {
    hide Val, Shift;
    ValAppendOne(t, 0);
    ShiftAdd(Val(t), 1, z);
    ShiftOne(Val(t), 1);
    ShiftZero(Val(t));
  }

  lemma EmptyShift(s: seq<nat>, z: nat)
    requires |s| == 0
    ensures Shift(Val(s), z) == 0
  {
    ShiftZero(z);
  }

  /** At most eight zeros can be dropped from a unit that is not zero. */
  lemma AtMostEight(q: seq<nat>, c: nat, z: nat)
    requires |q| >= 1 && Units(q) && q[0] != 0 && Num(q) == Shift(c, z)
    ensures z <= 8
  {
    if z >= 9 {
      var h := Shift(c, z - 9);
      hide Shift, Num;
      NineShifts(c, z - 9);
      NumLow(q);
      LowUnit(q[0], Num(q[1..]), h);
    }
  }

  lemma LowUnit(a: nat, b: nat, h: nat)
    requires a < 1_000_000_000
    ensures a + 1_000_000_000 * b == 1_000_000_000 * h ==> a == 0
  {
  }

  /** The quotient digits are the last quodigits of those laid out; the rest are leading zeros. */
  lemma SignificantDigits(s: seq<nat>, digits: nat)
    requires Digits(s) && HasLength(Val(s), digits) && digits <= |s|
    ensures Val(s[|s| - digits..]) == Val(s) && Digits(s[|s| - digits..])
  {
    hide Val, Pow10;
    var k := |s| - digits;
    ValSplit(s, k);
    ValDrop(s, digits);
    HighLow(Val(s), digits);
    ShiftZero(digits);
    HighLowUnique(Val(s), digits, 0, Val(s));
  }

  /** The digits of cl / cr at the exponent wanted for an exact quotient, or below it. */
  method FiniteQuotient(f: Format, cl: nat, cr: nat, e0: int, buf: array<nat>)
    returns (msd: nat, lsd: nat, exponent: int)
    requires f.Basic() && 0 < cl < Pow10(f.pmax) && 0 < cr < Pow10(f.pmax)
    requires buf.Length == 9 * (f.Units() + 1) + 2
    modifies buf
    ensures 1 <= msd <= 9 && msd <= lsd < buf.Length && Digits(buf[msd..lsd + 1])
    ensures HasLength(Val(buf[msd..lsd + 1]), lsd + 1 - msd)
    ensures Describes(f, Val(buf[msd..lsd + 1]), exponent, Scale(Ratio(cl as real, cr as real), e0), e0)
  {
    hide *;
    BasicFacts(f);
    var L := f.Units();
    var acc := SetUpDividend(f, cl);
    var div, divunits, divtop := SetUpDivisor(f, cr);
    var quo := new nat[L + 1];
    UnitsSuffice(f);
    var lsua, msua, lsuq, quodigits := DivideUnits(f.pmax, L, cl, acc, div, divunits, divtop, quo);
    ghost var q, W, J := quo[lsuq..], Num(acc[lsua..msua + 1]), 2 * L - lsua;
    ghost var c := if W == 0 then Num(q) else OrOne(Num(q));
    QuotientFacts(f.pmax, q, cl, cr, J, W, quodigits);
    if acc[msua] != 0 {
      quo[lsuq] := OrOne(quo[lsuq]);
      assert quo[lsuq..] == q[0 := OrOne(q[0])];
      OrOneUnit(q);
      OrOneLength(Num(q), quodigits);
      InexactDescribes(f, cl, cr, e0, Num(q), W, J);
    }
    assert quo[lsuq..L + 1] == quo[lsuq..];
    UnitsToBcd(quo, lsuq, L, buf, 1);
    ghost var s := buf[1..1 + 9 * (L + 1 - lsuq)];
    msd := 1 + 9 * (L + 1 - lsuq) - quodigits;
    lsd := 9 * (L + 1 - lsuq);
    SignificantDigits(s, quodigits);
    assert s[|s| - quodigits..] == buf[msd..lsd + 1];
    exponent := e0;
    if lsua < 2 * L {
      exponent := exponent - 9 * (2 * L - lsua);
    }
    if acc[msua] == 0 {
      if lsua < 2 * L {
        HasLengthPositive(c, quodigits);
        var ub := StripTrailing(buf, msd, lsd);
        AtMostEight(q, Val(buf[msd..ub + 1]), lsd - ub);
        LengthWithoutZeros(Val(buf[msd..ub + 1]), c, lsd - ub, quodigits, ub + 1 - msd);
        ExactDescribes(f, cl, cr, e0, c, J, Val(buf[msd..ub + 1]), lsd - ub);
        exponent := exponent + (lsd - ub);
        lsd := ub;
      } else {
        ShiftZero(c);
        ExactDescribes(f, cl, cr, e0, c, J, c, 0);
      }
    }
  }

  lemma LengthWithoutZeros(c: nat, d: nat, z: nat, digits: nat, rest: nat)
    requires d == Shift(c, z) && HasLength(d, digits) && rest >= 1 && digits == rest + z
    ensures HasLength(c, rest)
  {
    hide Pow10, Shift;
    ShiftOfPow10(rest, z);
    ShiftOfPow10(rest - 1, z);
    ShiftMono(c, Pow10(rest), z);
    ShiftMono(Pow10(rest - 1), c, z);
  }

  lemma HasLengthPositive(c: nat, digits: nat)
    requires HasLength(c, digits)
    ensures c > 0
  {
  }

  lemma BasicFacts(f: Format)
    requires f.Basic()
    ensures f.Valid() && 8 <= f.pmax
  {
  }

  lemma UnitsSuffice(f: Format)
    requires f.Valid()
    ensures f.pmax < 9 * f.Units()
  {
  }

  lemma QuotientFacts(pmax: nat, q: seq<nat>, cl: nat, D: nat, J: nat, W: nat, quodigits: nat)
    requires Divided(pmax, q, cl, D, J, W, quodigits)
    ensures |q| >= 1 && Units(q) && HasLength(Num(q), quodigits) && 9 * (|q| - 1) + 1 <= quodigits <= 9 * |q|
    ensures Prod(Num(q), D) + W == Raise(cl, J) && W < D
    ensures W != 0 ==> Num(q) >= Pow10(pmax + 1)
    ensures J > 0 && W == 0 ==> q[0] != 0
  {
    if W != 0 {
      Pow10Mono(pmax + 1, quodigits - 1);
    }
  }

  /** Delivers an outcome that needs no computation. */
  method Deliver(o: Outcome, set': DecContext) returns (r: DecFloat)
    modifies set'
    ensures r == o.value && set'.status == old(set'.status) + o.flags && set'.round == old(set'.round)
  {
    r := o.value;
    set'.status := set'.status + o.flags;
  }

  /** The quotient of two decFloats: for all operands, rounding modes and formats the reference
      division, flags included. */
  method DecFloatDivide(f: Format, l: DecFloat, r: DecFloat, set': DecContext) returns (result: DecFloat)
    requires f.Basic() && l.Fits(f) && r.Fits(f)
    modifies set'
    ensures var o := DivideSpec(f, old(set'.round), l, r);
            result == o.value && set'.status == old(set'.status) + o.flags
    ensures set'.round == old(set'.round)
  {
    hide Pow10, Scale, Scaled, Ratio, Round, Val, Describes, RoundScaled;
    if l.NaN? || r.NaN? {
      result := Deliver(PropagateNaN(l, r), set');
      return;
    }
    var sign := l.sign != r.sign;
    if l.Infinity? {
      result := Deliver(if r.Infinity? then Invalid() else Outcome(Infinity(sign), {}), set');
      return;
    }
    if r.Infinity? {
      result := Deliver(Outcome(Finite(sign, 0, f.Qtiny()), {}), set');
      return;
    }
    if r.IsZero() {
      result := Deliver(if l.IsZero() then Outcome(NaN(false, false, 0), {DivisionUndefined})
                        else Outcome(Infinity(sign), {DivisionByZero}), set');
      return;
    }
    var exponent := l.exp - r.exp;
    QuotientNonNegative(l, r);
    if l.IsZero() {
      var digit := new nat[1](_ => 0);
      assert digit[0..1] == [0];
      ValSingle(0);
      ZeroRounds(f, set'.round, sign, exponent);
      result := DecFinalize(f, digit, 0, 0, sign, exponent, set');
      return;
    }
    var bcdacc := new nat[9 * (f.Units() + 1) + 2];
    var msd, lsd, e := FiniteQuotient(f, l.coeff, r.coeff, exponent, bcdacc);
    RatioOfScaled(l.coeff, l.exp, r.coeff, r.exp);
    DescribedRounds(f, set'.round, sign, Val(bcdacc[msd..lsd + 1]), e, Ratio(l.Magnitude(), r.Magnitude()), exponent);
    result := DecFinalize(f, bcdacc, msd, lsd, sign, e, set');
  }

  lemma ZeroRounds(f: Format, mode: Rounding, sign: bool, e: int)
    requires f.Valid()
    ensures RoundScaled(f, mode, sign, 0, e) == Round(f, mode, sign, 0.0, e)
  {
    ScaledNonNegative(0, e);
  }
}
