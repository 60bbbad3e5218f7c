/** Fused multiply-add (decFloatFMA, decBasic.c:1994-2267). The addend with the lower exponent is
    replaced by its leading digit when it seems far enough below the other; the module proves for
    which operands that is harmless, and so when the result is the exact l * r + a rounded once. */
module Fma {
  import opened Arith
  import opened TenPowers
  import opened DecFloats
  import opened RoundingSpec
  import opened Truncation
  import opened Specials
  import opened Bcd
  import opened BcdCells
  import opened AddDigits
  import opened FmaDigits
  import opened Add
  import opened BaseBillion
  import opened Divide
  import opened Multiply
  import opened Finalize

  /** A finite number, not confined to the format (bcdnum). */
  datatype Term = Term(sign: bool, coeff: nat, exp: int) {
    function Magnitude(): real {
      Scaled(coeff, exp)
    }

    function Value(): real {
      Signed(sign, Magnitude())
    }
  }

  /** The digit a low operand is reduced to. */
  function Leading(c: nat): nat {
    High(c, NumDigits(c) - 1)
  }

  /** The test in the code: the leading digits are more than pmax + 2 places apart. */
  predicate Reduces(f: Format, hi: Term, lo: Term) {
    hi.exp != lo.exp && NumDigits(hi.coeff) + (hi.exp - lo.exp) - NumDigits(lo.coeff) > f.pmax + 2
  }

  function ReducedExp(f: Format, hi: Term): int {
    Least(hi.exp, hi.exp + NumDigits(hi.coeff) - f.pmax) - 3
  }

  /** The low operand as it enters the addition. */
  function LowUsed(f: Format, hi: Term, lo: Term): Term {
    if Reduces(f, hi, lo) then Term(lo.sign, Leading(lo.coeff), ReducedExp(f, hi)) else lo
  }

  /** The exact sum of two terms, rounded once; the wanted exponent is that of the low one. */
  ghost function SumRounded(f: Format, mode: Rounding, hi: Term, lo: Term): Outcome
    requires f.Valid()
  {
    RoundSigned(f, mode, ZeroSign(mode, hi.sign, lo.sign), hi.Value() + lo.Value(), lo.exp)
  }

  /** What the code delivers for two terms, the one with the higher exponent first. */
  ghost function SumComputed(f: Format, mode: Rounding, hi: Term, lo: Term): Outcome
    requires f.Valid()
  {
    if hi.coeff == 0 then SumRounded(f, mode, hi, lo) else SumRounded(f, mode, hi, LowUsed(f, hi, lo))
  }

  /** The reduction is not made, or the low operand lies wholly below the last digit of the high one. */
  predicate Clear(f: Format, hi: Term, lo: Term) {
    hi.coeff == 0 || !Reduces(f, hi, lo) || lo.exp + NumDigits(lo.coeff) <= hi.exp
  }

  // ---- a low operand that is clear may be replaced ----

  /** Two small amounts s and s' added to, or taken off, k units at exponent e round alike. */
  lemma SmallAmounts(f: Format, mode: Rounding, sign: bool, k: nat, e: int, s: real, s': real, pref: int, pref': int, minus: bool)
    requires f.Valid() && k >= Pow10(f.pmax)
    requires 0.0 < s < Scaled(1, e) && 0.0 < s' < Scaled(1, e)
    requires k == Pow10(f.pmax) ==> s < Scaled(1, e - 1) && s' < Scaled(1, e - 1)
    ensures var (m, m') := if minus then (Scaled(k, e) - s, Scaled(k, e) - s') else (Scaled(k, e) + s, Scaled(k, e) + s');
            m > 0.0 && m' > 0.0 && Round(f, mode, sign, m, pref) == Round(f, mode, sign, m', pref')
  {
    NextLowerPower(f.pmax, k);
    hide Scale, Pow10, Round, ResidueOf;
    if minus {
      ScaledSum(k - 1, 1, e);
      var (m, m') := (Scaled(k, e) - s, Scaled(k, e) - s');
      CellOf(k - 1, e, m);
      CellOf(k - 1, e, m');
      if k == Pow10(f.pmax) {
        UpperHalf(k - 1, e, m);
        UpperHalf(k - 1, e, m');
        SameClass(f, mode, sign, Scale(m, -e), Scale(m', -e), k - 1, e, pref, pref');
      } else {
        SameOpenCell(f, mode, sign, Scale(m, -e), Scale(m', -e), k - 1, e, pref, pref');
      }
    } else {
      ScaledSum(k, 1, e);
      var (m, m') := (Scaled(k, e) + s, Scaled(k, e) + s');
      CellOf(k, e, m);
      CellOf(k, e, m');
      SameOpenCell(f, mode, sign, Scale(m, -e), Scale(m', -e), k, e, pref, pref');
    }
  }

  lemma CellOf(k: nat, e: int, m: real)
    requires Scaled(k, e) < m < Scaled(k + 1, e)
    ensures k as real < Scale(m, -e) < (k + 1) as real && Scale(Scale(m, -e), e) == m
  {
    hide Scale;
    ScaleInverse(m, e);
    ScaleOrder(k as real, Scale(m, -e), e);
    ScaleOrder(Scale(m, -e), (k + 1) as real, e);
  }

  lemma UpperHalf(k: nat, e: int, m: real)
    requires Scaled(k + 1, e) - Scaled(1, e - 1) < m < Scaled(k + 1, e)
    requires k as real < Scale(m, -e) < (k + 1) as real
    ensures ResidueOf(Scale(m, -e) - k as real) == AboveHalf
  {
    hide Scale, ResidueOf;
    TenUnits(k + 1, e - 1);
    ScaledSum(10 * k + 9, 1, e - 1);
    ScaledOrder(10 * k + 5, 10 * k + 9, e - 1);
    AboveMiddle(k, e - 1, m, Scale(m, -e));
  }

  lemma SumSigns(f: Format, mode: Rounding, hi: Term, lo: Term)
    requires f.Valid() && hi.Magnitude() > lo.Magnitude() > 0.0
    ensures var m := if hi.sign == lo.sign then hi.Magnitude() + lo.Magnitude() else hi.Magnitude() - lo.Magnitude();
            m > 0.0 && SumRounded(f, mode, hi, lo) == Round(f, mode, hi.sign, m, lo.exp)
  {
    hide Scale, Round, RoundSigned;
    SignedSum(hi.sign, lo.sign, hi.Magnitude(), lo.Magnitude());
    var m := if hi.sign == lo.sign then hi.Magnitude() + lo.Magnitude() else hi.Magnitude() - lo.Magnitude();
    RoundSignedOf(f, mode, ZeroSign(mode, hi.sign, lo.sign), hi.sign, m, lo.exp);
  }

  /** A number is less than ten to its length. */
  lemma BelowLength(c: nat, e: int)
    ensures Scaled(c, e) < Scaled(1, e + NumDigits(c))
  {
    NumDigitsIsLength(c);
    hide Scale, Pow10, Ten;
    ScaledOfPow10(NumDigits(c), e);
    ScaledOfPow10(0, e + NumDigits(c));
    Pow10One();
    ScaledOrder(c, Pow10(NumDigits(c)), e);
  }

  lemma LeadingIsDigit(c: nat)
    ensures Leading(c) <= 9 && (c == 0 <==> Leading(c) == 0)
  {
    var n := NumDigits(c) - 1;
    NumDigitsIsLength(c);
    Pow10One();
    HighBelow(c, n, 1);
    HighBelow(c, n, 0);
    HighOfZero(n);
    hide Pow10, High;
  }

  lemma HighOfZero(n: nat)
    ensures High(0, n) == 0
  {
    if n > 0 {
      HighOfZero(n - 1);
    }
  }

  lemma UnitOrder(a: int, b: int)
    ensures a <= b ==> Scaled(1, a) <= Scaled(1, b)
    ensures a < b ==> Scaled(9, a) < Scaled(1, b)
    ensures Scaled(1, a) > 0.0
  {
    hide Scale, Ten, Pow10;
    Pow10One();
    ScaledOfPow10(0, a);
    ScaledOfPow10(0, b);
    ScaledOfPow10(1, a);
    ScaledOrder(9, 10, a);
    if a <= b {
      TenMono(a, b);
    }
    if a < b {
      TenMono(a + 1, b);
    }
  }

  /** The exponent at which both the low operand and its substitute are less than a unit. */
  function CellExp(f: Format, hi: Term): int {
    if NumDigits(hi.coeff) <= f.pmax then ReducedExp(f, hi) + 1 else hi.exp
  }

  lemma LowsAreSmall(f: Format, hi: Term, lo: Term)
    requires f.Valid() && hi.coeff > 0 && lo.coeff > 0 && Reduces(f, hi, lo)
    requires lo.exp + NumDigits(lo.coeff) <= hi.exp
    ensures var (lo', e) := (LowUsed(f, hi, lo), CellExp(f, hi));
            && 0.0 < lo.Magnitude() < Scaled(1, e) && 0.0 < lo'.Magnitude() < Scaled(1, e)
            && (NumDigits(hi.coeff) == f.pmax + 1
                ==> lo.Magnitude() < Scaled(1, e - 1) && lo'.Magnitude() < Scaled(1, e - 1))
  {
    var (lo', e) := (LowUsed(f, hi, lo), CellExp(f, hi));
    LeadingIsDigit(lo.coeff);
    hide Scale, NumDigits, Leading;
    BelowLength(lo.coeff, lo.exp);
    UnitOrder(lo.exp + NumDigits(lo.coeff), e);
    UnitOrder(lo.exp + NumDigits(lo.coeff), e - 1);
    UnitOrder(lo'.exp, e - 1);
    UnitOrder(lo'.exp, e);
    ScaledOrder(lo'.coeff, 9, lo'.exp);
    ScaledNonNegative(lo.coeff, lo.exp);
    ScaledNonNegative(lo'.coeff, lo'.exp);
  }

  lemma CellFacts(f: Format, hi: Term, lo: Term)
    ensures LowUsed(f, hi, lo).sign == lo.sign
    ensures var (len, e) := (NumDigits(hi.coeff), CellExp(f, hi));
            e <= hi.exp && if len <= f.pmax then e == hi.exp + len - f.pmax - 2 else e == hi.exp
  {
    hide NumDigits;
  }

  /** The reduction of a non-zero low operand that is clear. */
  lemma ReductionSound(f: Format, mode: Rounding, hi: Term, lo: Term)
    requires f.Valid() && hi.coeff > 0 && lo.coeff > 0 && Reduces(f, hi, lo)
    requires lo.exp + NumDigits(lo.coeff) <= hi.exp
    ensures SumRounded(f, mode, hi, LowUsed(f, hi, lo)) == SumRounded(f, mode, hi, lo)
  {
    hide *;
    var lo' := LowUsed(f, hi, lo);
    var len, e := NumDigits(hi.coeff), CellExp(f, hi);
    CellFacts(f, hi, lo);
    NumDigitsIsLength(hi.coeff);
    LowsAreSmall(f, hi, lo);
    var k := HighCell(f, hi, len, e);
    SmallAmounts(f, mode, hi.sign, k, e, lo.Magnitude(), lo'.Magnitude(), lo.exp, lo'.exp, hi.sign != lo.sign);
    SumSigns(f, mode, hi, lo);
    SumSigns(f, mode, hi, lo');
  }

  /** The high operand as k units at exponent e, with digits enough for rounding to ignore smaller ones. */
  lemma HighCell(f: Format, hi: Term, len: nat, e: int) returns (k: nat)
    requires f.Valid() && HasLength(hi.coeff, len) && e <= hi.exp
    requires if len <= f.pmax then e == hi.exp + len - f.pmax - 2 else e == hi.exp
    ensures hi.Magnitude() == Scaled(k, e) >= Scaled(1, e) && k >= Pow10(f.pmax)
    ensures k == Pow10(f.pmax) ==> len == f.pmax + 1
  {
    Pow10Strict(f.pmax, f.pmax + 1);
    Pow10Strict(0, f.pmax);
    Pow10One();
    hide Pow10, Shift, Scale;
    var n := hi.exp - e;
    k := Shift(hi.coeff, n);
    ShiftMono(Pow10(len - 1), hi.coeff, n);
    ShiftOfPow10(len - 1, n);
    ScaledShift(hi.coeff, e, n);
    if len > f.pmax {
      ShiftZero(hi.coeff);
      Pow10Mono(f.pmax, len - 1);
      if len > f.pmax + 1 {
        Pow10Strict(f.pmax, len - 1);
      }
    }
    ScaledOrder(1, k, e);
  }

  /** A zero low operand changes at most the wanted exponent, beyond what can be met. */
  lemma ReductionOfZero(f: Format, mode: Rounding, hi: Term, lo: Term)
    requires f.Valid() && hi.coeff > 0 && lo.coeff == 0 && Reduces(f, hi, lo)
    ensures SumRounded(f, mode, hi, LowUsed(f, hi, lo)) == SumRounded(f, mode, hi, lo)
  {
    var lo' := LowUsed(f, hi, lo);
    var e := hi.exp + NumDigits(hi.coeff) - 1;
    LeadingIsDigit(0);
    NumDigitsIsLength(hi.coeff);
    hide Scale, Round, NumDigits, RoundSigned;
    ScaledZero(lo.exp);
    ScaledZero(lo'.exp);
    AtLeastLeading(hi.coeff, NumDigits(hi.coeff), hi.exp);
    RoundSignedOf(f, mode, ZeroSign(mode, hi.sign, lo.sign), hi.sign, hi.Magnitude(), lo.exp);
    RoundSignedOf(f, mode, ZeroSign(mode, hi.sign, lo.sign), hi.sign, hi.Magnitude(), lo'.exp);
    FarPrefs(f, mode, hi.sign, hi.Magnitude(), e, lo.exp, lo'.exp);
  }

  lemma AtLeastLeading(c: nat, len: nat, e: int)
    requires HasLength(c, len)
    ensures Scaled(1, e + len - 1) <= Scaled(c, e) && Scaled(c, e) > 0.0
  {
    hide Scale, Pow10, Ten;
    ScaledOfPow10(len - 1, e);
    ScaledOfPow10(0, e + len - 1);
    Pow10One();
    ScaledOrder(c, Pow10(len - 1), e);
    UnitOrder(e + len - 1, e + len - 1);
  }

  /** Whenever the operands are clear, the exact sum is rounded. */
  lemma ClearIsExact(f: Format, mode: Rounding, hi: Term, lo: Term)
    requires f.Valid() && hi.exp >= lo.exp && Clear(f, hi, lo)
    ensures SumComputed(f, mode, hi, lo) == SumRounded(f, mode, hi, lo)
  {
    hide SumRounded;
    if hi.coeff != 0 && Reduces(f, hi, lo) {
      if lo.coeff == 0 {
        ReductionOfZero(f, mode, hi, lo);
      } else {
        ReductionSound(f, mode, hi, lo);
      }
    }
  }

  // ---- the computation ----

  function RoundUp4(i: nat): nat {
    (i + 3) / 4 * 4
  }

  /** FMALEN: cells for the product, a carry, and the addend with round and sticky digits. */
  function FmaLen(f: Format): nat {
    RoundUp4(1 + (18 * f.Units() + 1) + f.pmax + 2)
  }

  /** Two operands in cells, one of them, the product, in acc itself. */
  ghost predicate Placed(f: Format, acc: array<nat>, hi: array<nat>, hmsd: nat, hlsd: nat, x: nat, lo: array<nat>, lmsd: nat, llsd: nat, z: nat)
    reads acc, hi, lo
  {
    && acc.Length == FmaLen(f) && hi != lo
    && hmsd <= hlsd < hi.Length && Digits(hi[hmsd..hlsd + 1]) && Val(hi[hmsd..hlsd + 1]) == x
    && lmsd <= llsd < lo.Length && Digits(lo[lmsd..llsd + 1]) && Val(lo[lmsd..llsd + 1]) == z
    && (if hi == acc
        then 1 <= hmsd && hlsd <= 18 * f.Units() && hlsd <= NumDigits(x) + 8 && llsd - lmsd < f.pmax
        else lo == acc && 1 <= lmsd && llsd <= 18 * f.Units() && hlsd - hmsd < f.pmax)
  }

  /** Digits without leading zeros are as many as the number has. */
  lemma MinimalLength(s: seq<nat>)
    requires |s| >= 1 && Digits(s) && (s[0] != 0 || |s| == 1)
    ensures NumDigits(Val(s)) == |s|
    ensures s[0] == Leading(Val(s))
    ensures Val(s) == 0 <==> s[0] == 0
  {
    hide Val, Pow10, NumDigits, High;
    ZeroIsSingle(s);
    NumDigitsIsLength(Val(s));
    SameLength(Val(s), |s|);
    ValDrop(s, |s| - 1);
    assert s[..|s| - (|s| - 1)] == [s[0]];
    ValSingle(s[0]);
  }

  lemma SameLength(c: nat, len: nat)
    requires c == 0 ==> len == 1
    requires c > 0 ==> HasLength(c, len)
    ensures NumDigits(c) == len
  {
    if c > 0 {
      hide Pow10;
      NumDigitsIsLength(c);
      var n := NumDigits(c);
      if n < len {
        Pow10Mono(n, len - 1);
      } else if len < n {
        Pow10Mono(len, n - 1);
      }
    }
  }

  /** Everything fits: the sum in the accumulator, and the product, read in place, to the left of what
      is written. */
  lemma Capacity(f: Format, hilen: nat, padding: nat, lolen: nat, hlsd: nat, hiInAcc: bool, gap: nat)
    requires f.Valid() && 1 <= hilen && 1 <= lolen
    requires if hiInAcc then hilen <= 18 * f.Units() && hlsd <= 18 * f.Units() && hlsd <= hilen + 8 && lolen <= f.pmax
             else hilen <= f.pmax && lolen <= 18 * f.Units()
    requires || padding == 0
             || (padding == gap && hilen + gap - lolen <= f.pmax + 2)
             || (padding == 3 + (if hilen < f.pmax then f.pmax - hilen else 0) && lolen == 1)
    ensures SumLength(hilen, padding, lolen) < FmaLen(f)
    ensures hiInAcc ==> hlsd + padding < FmaLen(f)
  {
  }

  /** Adds two aligned terms and rounds: padding is the distance of their last digits. */
  method AddAndFinish(f: Format, acc: array<nat>, hi: array<nat>, hmsd: nat, hlsd: nat, ghost x: Term, lo: array<nat>,
                      lmsd: nat, llsd: nat, ghost z: Term, padding: nat, lexp: int, signhi: bool, signlo: bool, set': DecContext)
    returns (result: DecFloat)
    requires f.Valid() && hi != lo && hmsd <= hlsd < hi.Length && lmsd <= llsd < lo.Length
    requires Digits(hi[hmsd..hlsd + 1]) && Digits(lo[lmsd..llsd + 1])
    requires Val(hi[hmsd..hlsd + 1]) == x.coeff > 0 && Val(lo[lmsd..llsd + 1]) == z.coeff
    requires x.sign == signhi && z.sign == signlo && z.exp == lexp && x.exp == lexp + padding
    requires SumLength(hlsd + 1 - hmsd, padding, llsd + 1 - lmsd) < acc.Length
    requires hi == acc ==> hlsd + padding < acc.Length
    modifies acc, hi, set'
    ensures var o := SumRounded(f, old(set'.round), x, z);
            result == o.value && set'.status == old(set'.status) + o.flags
    ensures set'.round == old(set'.round)
  {
    hide *;
    var mode := set'.round;
    var msd, sign := AlignedSum(acc, hi, hmsd, hlsd, x.coeff, lo, lmsd, llsd, z.coeff, padding, signhi, signlo, mode == Floor);
    SumExact(f, mode, signhi, signlo, x.coeff, padding, z.coeff, lexp, Val(acc[msd..]), sign);
    SumRoundedOf(f, mode, x, z, lexp, padding);
    assert acc[msd..acc.Length - 1 + 1] == acc[msd..];
    result := DecFinalize(f, acc, msd, acc.Length - 1, sign, lexp, set');
  }

  /** The digits and the sign of the aligned sum. */
  method AlignedSum(acc: array<nat>, hi: array<nat>, hmsd: nat, hlsd: nat, ghost x: nat, lo: array<nat>, lmsd: nat, llsd: nat,
                    ghost z: nat, padding: nat, signhi: bool, signlo: bool, toFloor: bool)
    returns (msd: nat, sign: bool)
    requires hi != lo && hmsd <= hlsd < hi.Length && lmsd <= llsd < lo.Length
    requires Digits(hi[hmsd..hlsd + 1]) && Digits(lo[lmsd..llsd + 1])
    requires Val(hi[hmsd..hlsd + 1]) == x && Val(lo[lmsd..llsd + 1]) == z
    requires SumLength(hlsd + 1 - hmsd, padding, llsd + 1 - lmsd) < acc.Length
    requires hi == acc ==> hlsd + padding < acc.Length
    modifies acc, hi
    ensures msd < acc.Length && Digits(acc[msd..])
    ensures SumResult(signhi != signlo, signhi, signlo, toFloor, x, padding, z, Val(acc[msd..]), sign)
  {
    SumLengthBounds(hlsd + 1 - hmsd, padding, llsd + 1 - lmsd);
    hide *;
    var diffsign := signhi != signlo;
    ghost var N := SumLength(hlsd + 1 - hmsd, padding, llsd + 1 - lmsd);
    CoefficientBelow(hi[hmsd..hlsd + 1], x, N - padding);
    var ub, carry := AddSigned(acc, hi, hmsd, hlsd, lo, lmsd, llsd, padding, diffsign);
    msd, sign := FinishFma(acc, ub, x, padding, z, diffsign, signhi, signlo, toFloor, carry, N);
  }

  lemma SumLengthBounds(hlen: nat, padding: nat, llen: nat)
    ensures SumLength(hlen, padding, llen) >= hlen + padding && SumLength(hlen, padding, llen) >= llen
  {
  }

  lemma CoefficientBelow(s: seq<nat>, c: nat, n: nat)
    requires Digits(s) && Val(s) == c && |s| <= n
    ensures c < Pow10(n)
  {
    ValBound(s);
    Pow10Mono(|s|, n);
  }

  lemma SumRoundedOf(f: Format, mode: Rounding, x: Term, z: Term, lexp: int, padding: nat)
    requires f.Valid() && x.exp == lexp + padding && z.exp == lexp
    ensures SumRounded(f, mode, x, z)
         == RoundSigned(f, mode, ZeroSign(mode, x.sign, z.sign),
                        Signed(x.sign, Scaled(x.coeff, lexp + padding)) + Signed(z.sign, Scaled(z.coeff, lexp)), lexp)
  {
    hide RoundSigned, Scaled;
  }

  /** The cells of the low operand that are used: all, or the first. */
  lemma UsedCells(lo: array<nat>, lmsd: nat, llsd: nat, z: nat)
    requires lmsd <= llsd < lo.Length && Digits(lo[lmsd..llsd + 1]) && Val(lo[lmsd..llsd + 1]) == z
    requires lo[lmsd] != 0 || lmsd == llsd
    ensures NumDigits(z) == llsd + 1 - lmsd
    ensures Digits(lo[lmsd..lmsd + 1]) && Val(lo[lmsd..lmsd + 1]) == Leading(z)
    ensures z == 0 <==> lo[lmsd] == 0
  {
    hide Val, Leading;
    var s := lo[lmsd..llsd + 1];
    MinimalLength(s);
    assert lo[lmsd..lmsd + 1] == [s[0]];
    ValSingle(s[0]);
  }

  /** Two terms without leading zeros, the high one not zero: reduced if the test says so, added and
      rounded. */
  method SumTerms(f: Format, acc: array<nat>, hi: array<nat>, hmsd: nat, hlsd: nat, ghost x: Term, lo: array<nat>, lmsd: nat,
                  llsd: nat, ghost z: Term, hiexp: int, loexp: int, signhi: bool, signlo: bool, set': DecContext)
    returns (result: DecFloat)
    requires f.Valid() && Placed(f, acc, hi, hmsd, hlsd, x.coeff, lo, lmsd, llsd, z.coeff)
    requires hi[hmsd] != 0 && (lo[lmsd] != 0 || lmsd == llsd)
    requires x.sign == signhi && x.exp == hiexp && z.sign == signlo && z.exp == loexp && hiexp >= loexp
    modifies acc, hi, set'
    ensures var o := SumRounded(f, old(set'.round), x, LowUsed(f, x, z));
            result == o.value && set'.status == old(set'.status) + o.flags
    ensures set'.round == old(set'.round)
  {
    hide Val, Pow10, NumDigits, Leading, SumLength, Digits, FmaLen, Scaled, SumRounded;
    UsedCells(hi, hmsd, hlsd, x.coeff);
    UsedCells(lo, lmsd, llsd, z.coeff);
    var padding, ulsd, lexp := hiexp - loexp, llsd, loexp;
    if padding != 0 {
      var hilen, lolen := hlsd - hmsd + 1, llsd - lmsd + 1;
      if hilen + padding - lolen > f.pmax + 2 {
        lexp := Least(hiexp, hiexp + hilen - f.pmax) - 3;
        ulsd := lmsd;
        padding := hiexp - lexp;
      }
    }
    Capacity(f, hlsd - hmsd + 1, padding, ulsd - lmsd + 1, hlsd, hi == acc, hiexp - loexp);
    result := AddAndFinish(f, acc, hi, hmsd, hlsd, x, lo, lmsd, ulsd, LowUsed(f, x, z), padding, lexp, signhi, signlo, set');
  }

  /** The high operand is zero: the low one is the sum. */
  method LowAlone(f: Format, lo: array<nat>, lmsd: nat, llsd: nat, ghost x: Term, ghost z: Term, loexp: int,
                  signhi: bool, signlo: bool, set': DecContext)
    returns (result: DecFloat)
    requires f.Valid() && lmsd <= llsd < lo.Length && Digits(lo[lmsd..llsd + 1]) && Val(lo[lmsd..llsd + 1]) == z.coeff
    requires x.coeff == 0 && x.sign == signhi && z.sign == signlo && z.exp == loexp && (lo[lmsd] != 0 || lmsd == llsd)
    modifies lo, set'
    ensures var o := SumRounded(f, old(set'.round), x, z);
            result == o.value && set'.status == old(set'.status) + o.flags
    ensures set'.round == old(set'.round)
  {
    hide Val, Pow10, NumDigits, Leading, Digits, Scaled, Round, RoundSigned;
    UsedCells(lo, lmsd, llsd, z.coeff);
    var sign := signlo;
    if signhi != signlo && lo[lmsd] == 0 {
      sign := set'.round == Floor;
    }
    ScaledZero(x.exp);
    ScaledNonNegative(z.coeff, z.exp);
    RoundSignedOf(f, set'.round, ZeroSign(set'.round, signhi, signlo), sign, Scaled(z.coeff, loexp), loexp);
    ZeroSigned(z.sign, sign, z.coeff, loexp);
    result := DecFinalize(f, lo, lmsd, llsd, sign, loexp, set');
  }

  lemma ZeroSigned(a: bool, b: bool, c: nat, e: int)
    ensures c == 0 ==> Signed(a, Scaled(c, e)) == Signed(b, Scaled(c, e)) == 0.0
  {
    ScaledZero(e);
  }

  /** Strips leading zeros, then adds. */
  method AddTerms(f: Format, acc: array<nat>, hi: array<nat>, hmsd0: nat, hlsd: nat, ghost x: Term, lo: array<nat>, lmsd0: nat,
                  llsd: nat, ghost z: Term, hiexp: int, loexp: int, signhi: bool, signlo: bool, set': DecContext)
    returns (result: DecFloat)
    requires f.Valid() && Placed(f, acc, hi, hmsd0, hlsd, x.coeff, lo, lmsd0, llsd, z.coeff)
    requires x.sign == signhi && x.exp == hiexp && z.sign == signlo && z.exp == loexp && hiexp >= loexp
    modifies acc, hi, lo, set'
    ensures var o := SumComputed(f, old(set'.round), x, z);
            result == o.value && set'.status == old(set'.status) + o.flags
    ensures set'.round == old(set'.round)
  {
    hide Val, Pow10, NumDigits, Leading, Digits, Scaled, SumRounded, AllEqual;
    var hmsd := SkipZeros(hi, hmsd0, hlsd);
    var lmsd := SkipZeros(lo, lmsd0, llsd);
    Stripped(hi, hmsd0, hlsd, hmsd);
    Stripped(lo, lmsd0, llsd, lmsd);
    UsedCells(hi, hmsd, hlsd, x.coeff);
    if hi[hmsd] == 0 {
      result := LowAlone(f, lo, lmsd, llsd, x, z, loexp, signhi, signlo, set');
    } else {
      result := SumTerms(f, acc, hi, hmsd, hlsd, x, lo, lmsd, llsd, z, hiexp, loexp, signhi, signlo, set');
    }
  }

  lemma Stripped(buf: array<nat>, msd: nat, lsd: nat, m: nat)
    requires msd <= m <= lsd < buf.Length && Digits(buf[msd..lsd + 1]) && AllEqual(buf[msd..m], 0)
    ensures Digits(buf[m..lsd + 1]) && Val(buf[m..lsd + 1]) == Val(buf[msd..lsd + 1])
  {
    hide Val;
    SliceOfSlice(buf, msd, lsd + 1, m);
    ValSkipZeros(buf[msd..lsd + 1], m - msd);
    DigitsSuffix(buf[msd..lsd + 1], m - msd);
  }

  // ---- the operation ----

  function ProductTerm(l: DecFloat, r: DecFloat): Term
    requires l.Finite? && r.Finite?
  {
    Term(l.sign != r.sign, Prod(l.coeff, r.coeff), l.exp + r.exp)
  }

  function TermOf(a: DecFloat): Term
    requires a.Finite?
  {
    Term(a.sign, a.coeff, a.exp)
  }

  /** The addend with the higher exponent, the product when they are equal, and the other one. */
  function HighTerm(l: DecFloat, r: DecFloat, a: DecFloat): Term
    requires l.Finite? && r.Finite? && a.Finite?
  {
    if ProductTerm(l, r).exp >= a.exp then ProductTerm(l, r) else TermOf(a)
  }

  function LowTerm(l: DecFloat, r: DecFloat, a: DecFloat): Term
    requires l.Finite? && r.Finite? && a.Finite?
  {
    if ProductTerm(l, r).exp >= a.exp then TermOf(a) else ProductTerm(l, r)
  }

  /** Special operands. */
  function FmaSpecial(l: DecFloat, r: DecFloat, a: DecFloat): Outcome
    requires !(l.Finite? && r.Finite? && a.Finite?)
  {
    if IsSignaling(l) || IsSignaling(r) then PropagateNaN(l, r)
    else if IsSignaling(a) then PropagateNaN(a, a)
    else if l.NaN? || r.NaN? then PropagateNaN(l, r)
    else if a.NaN? then PropagateNaN(a, a)
    else if (l.Infinity? && r.IsZero()) || (r.Infinity? && l.IsZero()) then Invalid()
    else
      var sign := l.sign != r.sign;
      if l.Infinity? || r.Infinity? then
        if a.Infinity? && a.sign != sign then Invalid() else Outcome(Infinity(sign), {})
      else
        Outcome(Infinity(a.sign), {})
  }

  /** The reference: fused multiply-add by section 5.4.1 of IEEE 754-2008. */
  ghost function FmaSpec(f: Format, mode: Rounding, l: DecFloat, r: DecFloat, a: DecFloat): Outcome
    requires f.Valid()
  {
    if l.Finite? && r.Finite? && a.Finite? then
      RoundSigned(f, mode, ZeroSign(mode, l.sign != r.sign, a.sign),
                  Times(l.Value(), r.Value()) + a.Value(), Least(l.exp + r.exp, a.exp))
    else
      FmaSpecial(l, r, a)
  }

  /** The operands for which the code is exact before rounding. */
  predicate FmaClear(f: Format, l: DecFloat, r: DecFloat, a: DecFloat) {
    l.Finite? && r.Finite? && a.Finite? ==> Clear(f, HighTerm(l, r, a), LowTerm(l, r, a))
  }

  /** The value of the product term. */
  lemma ProductValue(l: DecFloat, r: DecFloat)
    requires l.Finite? && r.Finite?
    ensures ProductTerm(l, r).Value() == Times(l.Value(), r.Value())
  {
    ProductNonNegative(l, r);
    hide Scaled, Prod, Times;
    TimesSigned(l.sign, r.sign, l.Magnitude(), r.Magnitude());
  }

  lemma TimesSigned(a: bool, b: bool, x: real, y: real)
    ensures Times(Signed(a, x), Signed(b, y)) == Signed(a != b, Times(x, y))
  {
  }

  /** The sum of the two terms is the fused result. */
  lemma FmaIsSum(f: Format, mode: Rounding, l: DecFloat, r: DecFloat, a: DecFloat)
    requires f.Valid() && l.Finite? && r.Finite? && a.Finite?
    ensures SumRounded(f, mode, HighTerm(l, r, a), LowTerm(l, r, a)) == FmaSpec(f, mode, l, r, a)
  {
    ProductValue(l, r);
    ValueSigned(a);
    hide Scaled, RoundSigned, Times, Prod;
  }

  /** The product and the addend, finite. */
  method FmaFinite(f: Format, l: DecFloat, r: DecFloat, a: DecFloat, set': DecContext) returns (result: DecFloat)
    requires f.Basic() && l.Finite? && r.Finite? && a.Finite? && l.Fits(f) && r.Fits(f) && a.Fits(f)
    modifies set'
    ensures var o := SumComputed(f, old(set'.round), HighTerm(l, r, a), LowTerm(l, r, a));
            result == o.value && set'.status == old(set'.status) + o.flags
    ensures set'.round == old(set'.round)
  {
    assert f.Valid() && f.Units() <= 4 && a.coeff < Pow10(f.pmax) && l.coeff < Pow10(f.pmax) && r.coeff < Pow10(f.pmax);
    hide Val, Pow10, NumDigits, Digits, SumComputed, Scaled;
    BufferSizes(f);
    var acc := new nat[FmaLen(f)](_ => 0);
    var mmsd, mlsd := FiniteMultiply(f, l.coeff, r.coeff, acc, 1);
    var coe := new nat[RoundUp4(f.pmax)](_ => 0);
    GetCoeff(a.coeff, coe, 0, f.pmax);
    CellDigits(coe, 0, f.pmax);
    var msign, mexp := l.sign != r.sign, l.exp + r.exp;
    ghost var p := ProductTerm(l, r);
    assert coe[0..f.pmax - 1 + 1] == coe[0..f.pmax];
    if mexp >= a.exp {
      assert Placed(f, acc, acc, mmsd, mlsd, p.coeff, coe, 0, f.pmax - 1, a.coeff);
      hide Placed;
      result := AddTerms(f, acc, acc, mmsd, mlsd, p, coe, 0, f.pmax - 1, TermOf(a), mexp, a.exp, msign, a.sign, set');
    } else {
      assert Placed(f, acc, coe, 0, f.pmax - 1, a.coeff, acc, mmsd, mlsd, p.coeff);
      hide Placed;
      result := AddTerms(f, acc, coe, 0, f.pmax - 1, TermOf(a), acc, mmsd, mlsd, p, a.exp, mexp, a.sign, msign, set');
    }
  }

  lemma BufferSizes(f: Format)
    requires f.Valid()
    ensures FmaLen(f) > 1 + 18 * f.Units() && RoundUp4(f.pmax) >= f.pmax && f.pmax >= 1
  {
  }

  /** l * r + a with a single rounding: exactly so whenever the operands are clear, and always the sum
      that is left when the low term has been reduced. */
  method DecFloatFMA(f: Format, l: DecFloat, r: DecFloat, a: DecFloat, set': DecContext) returns (result: DecFloat)
    requires f.Basic() && l.Fits(f) && r.Fits(f) && a.Fits(f)
    modifies set'
    ensures FmaClear(f, l, r, a)
        ==> var o := FmaSpec(f, old(set'.round), l, r, a);
            result == o.value && set'.status == old(set'.status) + o.flags
    ensures l.Finite? && r.Finite? && a.Finite?
        ==> var o := SumComputed(f, old(set'.round), HighTerm(l, r, a), LowTerm(l, r, a));
            result == o.value && set'.status == old(set'.status) + o.flags
    ensures set'.round == old(set'.round)
  {
    hide Pow10, Scaled, RoundSigned, Clear, SumComputed, SumRounded, Times;
    if l.Finite? && r.Finite? && a.Finite? {
      var mode := set'.round;
      result := FmaFinite(f, l, r, a, set');
      if FmaClear(f, l, r, a) {
        ClearIsExact(f, mode, HighTerm(l, r, a), LowTerm(l, r, a));
        FmaIsSum(f, mode, l, r, a);
      }
      return;
    }
    if IsSignaling(l) || IsSignaling(r) {
      result := Deliver(PropagateNaN(l, r), set');
    } else if IsSignaling(a) {
      result := Deliver(PropagateNaN(a, a), set');
    } else if l.NaN? || r.NaN? {
      result := Deliver(PropagateNaN(l, r), set');
    } else if a.NaN? {
      result := Deliver(PropagateNaN(a, a), set');
    } else {
      var infinite := false;
      if l.Infinity? {
        if r.IsZero() {
          result := Deliver(Invalid(), set');
          return;
        }
        infinite := true;
      } else if r.Infinity? {
        if l.IsZero() {
          result := Deliver(Invalid(), set');
          return;
        }
        infinite := true;
      }
      var sign := l.sign != r.sign;
      if !a.Infinity? {
        result := Infinity(sign);
      } else if !infinite {
        result := Infinity(a.sign);
      } else if a.sign != sign {
        result := Deliver(Invalid(), set');
      } else {
        result := Infinity(sign);
      }
    }
  }
}
