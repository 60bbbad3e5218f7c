/** From digit counts to the reference rounding: where an integer coefficient, with or without more
    digits known only to be there, is cut off by a format. */
module Truncation {
  import opened Arith
  import opened TenPowers
  import opened DecFloats
  import opened RoundingSpec

  /** How a discarded remainder r of p = 10^k compares with one half. */
  function RemainderClass(r: nat, p: nat): Residue {
    if r == 0 then Zero else if 2 * r < p then BelowHalf else if 2 * r == p then Half else AboveHalf
  }

  /** The same, when some non-zero digits below r are discarded too. */
  function StickyClass(r: nat, p: nat): Residue {
    if 2 * r < p then BelowHalf else AboveHalf
  }

  predicate HasLength(c: nat, len: nat) {
    len >= 1 && Pow10(len - 1) <= c < Pow10(len)
  }

  /** The place where a coefficient of len digits at exponent e is cut off. */
  predicate CutsAt(f: Format, len: nat, e: int, drop: nat) {
    f.Qtiny() <= e + drop && len <= f.pmax + drop && (e + drop == f.Qtiny() || len == f.pmax + drop)
  }

  /** Cutting y * 10^e, where c is the integer part of y, at the place drop above e. */
  lemma TruncatesScaled(f: Format, y: real, c: nat, e: int, drop: nat, len: nat)
    requires f.Valid() && c as real <= y < (c + 1) as real
    requires c < Pow10(len) && CutsAt(f, len, e, drop)
    requires e + drop == f.Qtiny() || HasLength(c, len)
    ensures Truncates(f, Scale(y, e), High(c, drop), e + drop)
  {
    hide Pow10, Scale, High;
    CutBrackets(y, c, e, drop);
    Pow10Mono(len, f.pmax + drop);
    HighBelow(c, drop, f.pmax);
    if e + drop != f.Qtiny() {
      HighBelow(c, drop, f.pmax - 1);
    }
  }

  lemma CutBrackets(y: real, c: nat, e: int, drop: nat)
    requires c as real <= y < (c + 1) as real
    ensures Scaled(High(c, drop), e + drop) <= Scale(y, e) < Scaled(High(c, drop) + 1, e + drop)
  {
    hide Scale, Pow10, Shift, High, Low;
    var q := High(c, drop);
    HighLow(c, drop);
    ShiftSum(q, 1, drop);
    ShiftOne(0, drop);
    ScaledShift(q, e, drop);
    ScaledShift(q + 1, e, drop);
    ScaleOrder(y, Shift(q, drop) as real, e);
    ScaleOrder(y, Shift(q + 1, drop) as real, e);
  }

  /** What is discarded there. */
  lemma DiscardedScaled(y: real, e: int, drop: nat, q: nat)
    ensures Times(Discarded(Scale(y, e), q, e + drop), Pow10(drop) as real)
         == y - (Shift(q, drop) as real)
  {
    hide Scale, Pow10, Times, Shift;
    var m := Scale(y, e);
    var p := Pow10(drop) as real;
    var d := Scale(m, -(e + drop));
    TimesSum(d, q as real, p);
    ShiftIsProduct(q, drop);
    ProductAsReal(q, Pow10(drop));
    assert Times(d, p) == y by {
      assert p == Ten(drop) by { TenNat(drop); }
      ScaleAdd(m, drop, -(e + drop));
      assert Scale(m, -e) == Scale(d, drop);
      ScaleInverse(y, e);
      ScaleDefinition(d, drop);
    }
  }

  lemma ScaleDefinition(y: real, q: int)
    ensures Scale(y, q) == Times(y, Ten(q))
  {
  }

  /** Classifying the discarded part: exact digits only. */
  lemma ResidueExact(c: nat, e: int, drop: nat)
    ensures ResidueOf(Discarded(Scaled(c, e), High(c, drop), e + drop))
         == RemainderClass(Low(c, drop), Pow10(drop))
  {
    hide Discarded, Scale, Pow10, High, Low, Shift, Times;
    var q := High(c, drop);
    HighLow(c, drop);
    DiscardedScaled(c as real, e, drop, q);
    ResidueByProduct(Discarded(Scaled(c, e), q, e + drop), Pow10(drop), Low(c, drop) as real);
  }

  lemma ResidueByProduct(d: real, p: nat, r: real)
    requires p >= 1 && Times(d, p as real) == r
    ensures d == 0.0 <==> r == 0.0
    ensures d < 0.5 <==> 2.0 * r < p as real
    ensures d == 0.5 <==> 2.0 * r == p as real
  {
    TimesOrder(d, 0.0, p as real);
    TimesOrder(d, 0.5, p as real);
  }

  /** Classifying the discarded part: c is followed by non-zero digits. */
  lemma ResidueSticky(y: real, c: nat, e: int, drop: nat)
    requires drop >= 1 && (c as real) < y < (c + 1) as real
    ensures ResidueOf(Discarded(Scale(y, e), High(c, drop), e + drop))
         == StickyClass(Low(c, drop), Pow10(drop))
  {
    Pow10Even(drop);
    hide Discarded, Scale, Pow10, High, Low, Shift, Times;
    var q := High(c, drop);
    HighLow(c, drop);
    DiscardedScaled(y, e, drop, q);
    var rest := y - (Shift(q, drop) as real);
    ResidueByProduct(Discarded(Scale(y, e), q, e + drop), Pow10(drop), rest);
    StickyCompare(rest, Low(c, drop), Pow10(drop));
  }

  lemma StickyCompare(y: real, r: nat, p: nat)
    requires p % 2 == 0 && r as real < y < (r + 1) as real
    ensures y > 0.0 && 2.0 * y != p as real
    ensures 2.0 * y < p as real <==> 2 * r < p
  {
    var h := p / 2;
    assert p as real == 2.0 * (h as real);
    if r < h {
      assert (r + 1) as real <= h as real;
    } else {
      assert r as real >= h as real;
    }
  }

  /** Padding a short coefficient with zeros down to its truncation place. */
  lemma TruncatesPadded(f: Format, c: nat, e: int, pad: nat, len: nat)
    requires f.Valid() && HasLength(c, len)
    requires f.Qtiny() <= e - pad && len + pad <= f.pmax && (e - pad == f.Qtiny() || len + pad == f.pmax)
    ensures Truncates(f, Scaled(c, e), Shift(c, pad), e - pad)
    ensures ResidueOf(Discarded(Scaled(c, e), Shift(c, pad), e - pad)) == Zero
  {
    hide Pow10, Shift, Scale;
    var c' := Shift(c, pad);
    ScaledShift(c, e - pad, pad);
    ShiftMono(Pow10(len - 1), c, pad);
    ShiftMono(c, Pow10(len), pad);
    ShiftOfPow10(len - 1, pad);
    ShiftOfPow10(len, pad);
    ScaledOrder(c', c' + 1, e - pad);
    Pow10Mono(len + pad, f.pmax);
    ScaleInverse(c' as real, e - pad);
  }

  /** Tiny, before rounding, means that the truncated coefficient has no leading digit to show. */
  lemma TinyByCoefficient(f: Format, m: real, c: nat, q: int)
    requires f.Valid() && Truncates(f, m, c, q)
    ensures m < Ten(f.Emin()) <==> c < Pow10(f.pmax - 1)
  {
    hide Scaled, Pow10, Ten;
    var p := Pow10(f.pmax - 1);
    ScaledOfPow10(f.pmax - 1, q);
    ScaledOrder(c, p, q);
    ScaledOrder(c + 1, p, q);
    if q != f.Qtiny() {
      TenStrict(f.Emin(), f.pmax - 1 + q);
    }
  }

  /** Removing the zeros that padding put there. */
  lemma {:induction false} TowardPadded(c: nat, q: int, k: nat, target: int)
    requires c > 0 && q + k <= target
    ensures Toward(Shift(c, k), q, target) == Toward(c, q + k, target)
    decreases k
  {
    hide Shift, Toward;
    if k == 0 {
      ShiftZero(c);
    } else {
      ShiftOne(c, k);
      ShiftZero(k - 1);
      ShiftMono(0, c, k - 1);
      TowardStep(Shift(c, k), Shift(c, k - 1), q, target);
      TowardPadded(c, q + 1, k - 1, target);
    }
  }

  lemma TowardStep(x: nat, c: nat, q: int, target: int)
    requires x == 10 * c && c > 0 && q < target
    ensures Toward(x, q, target) == Toward(c, q + 1, target)
  {
  }

  function NumDigits(c: nat): nat {
    if c < 10 then 1 else 1 + NumDigits(c / 10)
  }

  lemma {:induction false} NumDigitsIsLength(c: nat)
    ensures c < Pow10(NumDigits(c))
    ensures c > 0 ==> HasLength(c, NumDigits(c))
  {
    Pow10One();
    if c >= 10 {
      NumDigitsIsLength(c / 10);
      var n := NumDigits(c / 10);
      assert Pow10(n + 1) == 10 * Pow10(n) && Pow10(n) == 10 * Pow10(n - 1);
    }
  }

  lemma LengthAbove(c: nat, len: nat, p: nat)
    requires HasLength(c, len) && c >= Pow10(p)
    ensures len > p
  {
    if len <= p {
      Pow10Mono(len, p);
    }
  }

  /** Numbers strictly between the same two neighbouring digit strings round alike, provided a digit
      of those strings is itself going to be discarded. Whatever is known about such a number beyond
      that digit, and whether it is known exactly, does not matter. */
  lemma SameOpenCell(f: Format, mode: Rounding, sign: bool, x: real, y: real, k: nat, e: int, pref: int, pref': int)
    requires f.Valid() && (k >= Pow10(f.pmax) || e < f.Qtiny())
    requires k as real < x < (k + 1) as real && k as real < y < (k + 1) as real
    ensures Scale(x, e) > 0.0 && Scale(y, e) > 0.0
    ensures Round(f, mode, sign, Scale(x, e), pref) == Round(f, mode, sign, Scale(y, e), pref')
  {
    hide Scale, Pow10, Round, High, Low;
    var len := NumDigits(k);
    NumDigitsIsLength(k);
    var drop := if len - f.pmax > f.Qtiny() - e then len - f.pmax else f.Qtiny() - e;
    if k >= Pow10(f.pmax) {
      Pow10Positive(f.pmax);
      LengthAbove(k, len, f.pmax);
    }
    ShortLength(k, f.pmax);
    RoundsByCell(f, mode, sign, x, k, len, e, drop, pref);
    RoundsByCell(f, mode, sign, y, k, len, e, drop, pref');
  }

  lemma Pow10Positive(k: nat)
    ensures Pow10(k) >= 1
  {
  }

  lemma ShortLength(k: nat, p: nat)
    requires p >= 1
    ensures k == 0 ==> NumDigits(k) <= p
  {
  }

  /** What the cell alone determines. */
  lemma RoundsByCell(f: Format, mode: Rounding, sign: bool, y: real, c: nat, len: nat, e: int, drop: nat, pref: int)
    requires f.Valid() && drop >= 1 && CutsAt(f, len, e, drop) && c < Pow10(len)
    requires e + drop == f.Qtiny() || HasLength(c, len)
    requires c as real < y < (c + 1) as real
    ensures Scale(y, e) > 0.0
    ensures Round(f, mode, sign, Scale(y, e), pref)
         == RoundAt(f, mode, sign, High(c, drop), e + drop, StickyClass(Low(c, drop), Pow10(drop)),
                    High(c, drop) < Pow10(f.pmax - 1), 0)
  {
    hide Scale, Pow10, Round, RoundAt, Discarded, ResidueOf, High, Low, Truncates, CutsAt, HasLength;
    TruncatesScaled(f, y, c, e, drop, len);
    ResidueSticky(y, c, e, drop);
    TinyByCoefficient(f, Scale(y, e), High(c, drop), e + drop);
    assert Scale(y, e) > 0.0 by {
      ScaleOrder(0.0, y, e);
      ZeroScale(e);
    }
    RoundTruncated(f, mode, sign, Scale(y, e), pref, High(c, drop), e + drop);
    InexactIgnoresPref(f, mode, sign, High(c, drop), e + drop, StickyClass(Low(c, drop), Pow10(drop)),
                       High(c, drop) < Pow10(f.pmax - 1), pref);
  }

  lemma InexactIgnoresPref(f: Format, mode: Rounding, sign: bool, c: nat, q: int, r: Residue, tiny: bool, pref: int)
    requires r != Zero
    ensures RoundAt(f, mode, sign, c, q, r, tiny, pref) == RoundAt(f, mode, sign, c, q, r, tiny, 0)
  {
  }

  /** One digit earlier, the class of the rest decides. */
  lemma SameClass(f: Format, mode: Rounding, sign: bool, x: real, y: real, k: nat, e: int, pref: int, pref': int)
    requires f.Valid() && k >= Pow10(f.pmax - 1)
    requires k as real < x < (k + 1) as real && k as real < y < (k + 1) as real
    requires ResidueOf(x - k as real) == ResidueOf(y - k as real)
    ensures Scale(x, e) > 0.0 && Scale(y, e) > 0.0
    ensures Round(f, mode, sign, Scale(x, e), pref) == Round(f, mode, sign, Scale(y, e), pref')
  {
    if k >= Pow10(f.pmax) || e < f.Qtiny() {
      SameOpenCell(f, mode, sign, x, y, k, e, pref, pref');
    } else {
      RoundsByClass(f, mode, sign, x, k, e, pref);
      RoundsByClass(f, mode, sign, y, k, e, pref');
    }
  }

  lemma RoundsByClass(f: Format, mode: Rounding, sign: bool, y: real, c: nat, e: int, pref: int)
    requires f.Valid() && HasLength(c, f.pmax) && e >= f.Qtiny()
    requires c as real < y < (c + 1) as real
    ensures Scale(y, e) > 0.0
    ensures Round(f, mode, sign, Scale(y, e), pref)
         == RoundAt(f, mode, sign, c, e, ResidueOf(y - c as real), c < Pow10(f.pmax - 1), 0)
  {
    hide Scale, Pow10, Round, RoundAt, Discarded, ResidueOf;
    NothingDropped(c);
    TruncatesScaled(f, y, c, e, 0, f.pmax);
    TinyByCoefficient(f, Scale(y, e), c, e);
    assert Scale(y, e) > 0.0 by {
      ScaleOrder(0.0, y, e);
      ZeroScale(e);
    }
    DiscardedFraction(y, c, e);
    RoundTruncated(f, mode, sign, Scale(y, e), pref, c, e);
    InexactIgnoresPref(f, mode, sign, c, e, ResidueOf(y - c as real), c < Pow10(f.pmax - 1), pref);
  }

  lemma NothingDropped(c: nat)
    ensures High(c, 0) == c
  {
  }

  lemma DiscardedFraction(y: real, c: nat, e: int)
    requires y != c as real
    ensures Discarded(Scale(y, e), c, e) == y - c as real
    ensures ResidueOf(y - c as real) != Zero
  {
    hide Scale;
    ScaleInverse(y, e);
  }

  /** Where the truncation of m lies when m is at least one unit at exponent e. */
  lemma TruncationNear(f: Format, m: real, c0: nat, q0: int, e: int)
    requires f.Valid() && Truncates(f, m, c0, q0) && Scaled(1, e) <= m
    ensures e < f.pmax + q0
  {
    hide Scale, Pow10, Ten;
    ScaledOfPow10(f.pmax, q0);
    ScaledOrder(c0 + 1, Pow10(f.pmax), q0);
    ScaledOfPow10(0, e);
    Pow10One();
    if e >= f.pmax + q0 {
      TenMono(f.pmax + q0, e);
    }
  }

  /** A wanted exponent far below the value cannot be met: all such wishes come to the same. */
  lemma FarPrefs(f: Format, mode: Rounding, sign: bool, m: real, e: int, pref: int, pref': int)
    requires f.Valid() && m > 0.0 && Scaled(1, e) <= m && pref <= e - f.pmax && pref' <= e - f.pmax
    ensures Round(f, mode, sign, m, pref) == Round(f, mode, sign, m, pref')
  {
    hide Scale, Pow10, Round, Truncates, Discarded, Toward;
    TruncationExists(f, m);
    var c0: nat, q0: int :| Truncates(f, m, c0, q0);
    TruncationNear(f, m, c0, q0, e);
    RoundTruncated(f, mode, sign, m, pref, c0, q0);
    RoundTruncated(f, mode, sign, m, pref', c0, q0);
    TowardKeeps(c0, q0, if pref < f.Etop() then pref else f.Etop());
    TowardKeeps(c0, q0, if pref' < f.Etop() then pref' else f.Etop());
  }

  lemma TowardKeeps(c: nat, q: int, target: int)
    ensures target <= q ==> Toward(c, q, target) == (c, q)
  {
  }
}
