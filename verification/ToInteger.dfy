/** Conversions to integers (decToInt32 and decToIntegral, decBasic.c:3780-3905), built on Quantize. */
module ToInteger {
  import opened Arith
  import opened TenPowers
  import opened DecFloats
  import opened RoundingSpec
  import opened Specials
  import opened Words
  import opened Quantize

  const ZERO := Finite(false, 0, 0)

  /** Rounding to an integral value, with or without signalling Inexact. */
  method DecToIntegral(f: Format, x: DecFloat, rmode: Rounding, exact: bool, set': DecContext) returns (result: DecFloat)
    requires f.Basic() && x.Fits(f)
    modifies set'
    ensures set'.round == old(set'.round)
    ensures x.NaN? ==> var o := PropagateNaN(x, x);
                       result == o.value && set'.status == old(set'.status) + o.flags
    ensures x.Infinity? ==> result == x && set'.status == old(set'.status)
    ensures x.Finite? && x.exp >= 0 ==> result == x && set'.status == old(set'.status)
    ensures x.Finite? && x.exp < 0
        ==> && x.Magnitude() >= 0.0
            && var o := QuantizeTo(f, rmode, x.sign, x.Magnitude(), 0);
               o != Invalid() && result == o.value && set'.status == old(set'.status) + if exact then o.flags else {}
  {
    if x.NaN? {
      set'.status := set'.status + PropagateNaN(x, x).flags;
      return PropagateNaN(x, x).value;
    }
    if x.Infinity? || x.exp >= 0 {
      return x;
    }
    var saveround, savestatus := set'.round, set'.status;
    set'.round := rmode;
    result := Rescale(f, x, set');
    set'.round := saveround;
    if !exact {
      set'.status := savestatus;
    }
    Integrates(f, rmode, x.sign, x.coeff, x.exp);
  }

  /** Quantizing against 0E+0. */
  method Rescale(f: Format, x: DecFloat, set': DecContext) returns (result: DecFloat)
    requires f.Basic() && x.Finite? && x.Fits(f)
    modifies set'
    ensures x.Magnitude() >= 0.0 && set'.round == old(set'.round)
    ensures var o := QuantizeTo(f, old(set'.round), x.sign, x.Magnitude(), 0);
            result == o.value && set'.status == old(set'.status) + o.flags
  {
    ZeroFits(f);
    hide QuantizeTo, Scaled, Pow10;
    MagnitudeNonNegative(x);
    result := DecFloatQuantize(f, x, ZERO, set');
  }

  lemma ZeroFits(f: Format)
    requires f.Basic()
    ensures ZERO.Fits(f)
  {
  }

  /** Dropping digits to reach exponent zero cannot fail. */
  lemma Integrates(f: Format, mode: Rounding, sign: bool, c: nat, e: int)
    requires f.Basic() && c < Pow10(f.pmax) && e < 0
    ensures Scaled(c, e) >= 0.0 && QuantizeTo(f, mode, sign, Scaled(c, e), 0) != Invalid()
  {
    hide QuantizeTo, Scaled, Pow10, High;
    var c1 := if Increments(mode, sign, High(c, -e), Truncation.RemainderClass(Low(c, -e), Pow10(-e)))
              then High(c, -e) + 1 else High(c, -e);
    QuantizeDown(f, mode, sign, c, e, -e, c1);
  }

  /** The integers an Int or a uInt can hold. */
  predicate InRange(unsign: bool, sign: bool, n: nat) {
    if unsign then n <= 0xffff_ffff && (n == 0 || !sign)
    else if sign then n <= 0x8000_0000
    else n <= 0x7fff_ffff
  }

  /** The rounded integer, when it is in range, as a 32-bit word in two's complement; otherwise zero and an
      invalid operation. */
  method DecToInt32(f: Format, x: DecFloat, rmode: Rounding, exact: bool, unsign: bool, set': DecContext) returns (r: nat)
    requires f.Basic() && x.Fits(f)
    modifies set'
    ensures set'.round == old(set'.round)
    ensures !x.Finite? ==> r == 0 && set'.status == old(set'.status) + {InvalidOperation}
    ensures x.Finite?
        ==> && x.Magnitude() >= 0.0
            && var o := QuantizeTo(f, rmode, x.sign, x.Magnitude(), 0);
               var ok := o.value.Finite? && InRange(unsign, x.sign, o.value.coeff);
               && r == (if ok then Low32(SignedInt(x.sign, o.value.coeff)) else 0)
               && set'.status == old(set'.status) + (if exact then o.flags else {}) + if ok then {} else {InvalidOperation}
  {
    hide QuantizeTo, Scaled, Pow10, InRange, SignedInt, Low32;
    if !x.Finite? {
      set'.status := set'.status + {InvalidOperation};
      return 0;
    }
    var result := x;
    if x.exp == 0 {
      UnchangedAtZero(f, rmode, x.sign, x.coeff);
    } else {
      var saveround, savestatus := set'.round, set'.status;
      set'.round := rmode;
      set'.status := {};
      result := Rescale(f, x, set');
      SignKept(f, rmode, x.sign, x.Magnitude());
      set'.round := saveround;
      set'.status := if exact then set'.status + savestatus else savestatus;
    }
    if !result.Finite? {
      set'.status := set'.status + {InvalidOperation};
      return 0;
    }
    var ok;
    ok, r := ToWord(result.sign, result.coeff, unsign);
    if !ok {
      set'.status := set'.status + {InvalidOperation};
    }
  }

  function SignedInt(sign: bool, n: nat): int {
    if sign then 0 - n else n
  }

  /** The range check on the last twelve digits, split at 10^9, and the word. */
  method ToWord(sign: bool, coeff: nat, unsign: bool) returns (ok: bool, r: nat)
    ensures ok <==> InRange(unsign, sign, coeff)
    ensures r == if ok then Low32(SignedInt(sign, coeff)) else 0
  {
    if coeff >= 1_000_000_000_000 {
      return false, 0;
    }
    var lo, hi := coeff % 1_000_000_000, coeff / 1_000_000_000;
    if unsign {
      if hi > 4 || (hi == 4 && lo > 294967295) || (hi + lo != 0 && sign) {
        return false, 0;
      }
      return true, Low32(hi * 1_000_000_000 + lo);
    }
    if hi > 2 || (hi == 2 && lo > 147483647) {
      if lo == 147483648 && hi == 2 && sign {
        return true, 0x8000_0000;
      }
      return false, 0;
    }
    var i: int := hi * 1_000_000_000 + lo;
    if sign {
      i := -i;
    }
    return true, Low32(i);
  }

  /** The integers of 32 bits, with a sign or without one. */
  lemma InRangeIff(unsign: bool, sign: bool, n: nat)
    ensures InRange(unsign, sign, n) <==> if unsign then 0 <= SignedInt(sign, n) <= 4294967295
                                          else -2147483648 <= SignedInt(sign, n) <= 2147483647
  {
  }

  lemma UnchangedAtZero(f: Format, mode: Rounding, sign: bool, c: nat)
    requires f.Basic() && c < Pow10(f.pmax)
    ensures Scaled(c, 0) >= 0.0
    ensures QuantizeTo(f, mode, sign, Scaled(c, 0), 0) == Outcome(Finite(sign, c, 0), {})
  {
    hide QuantizeTo, Scaled, Pow10;
    QuantizeUp(f, mode, sign, c, 0, 0);
    ShiftZero(c);
  }

  lemma SignKept(f: Format, mode: Rounding, sign: bool, m: real)
    requires m >= 0.0
    ensures var o := QuantizeTo(f, mode, sign, m, 0); o.value.Finite? ==> o.value.sign == sign
  {
    hide Scale, Pow10;
  }
}
