/** Subtraction, and the neighbours of a number (decFloatSubtract, decFloatNextPlus and
    decFloatNextMinus, decBasic.c:2692-2770 and 3455-3475): nextUp and nextDown of section 5.3.1 of
    IEEE 754-2008, computed by adding the least positive number under a directed rounding mode. */
module Next {
  import opened Arith
  import opened TenPowers
  import opened DecFloats
  import opened RoundingSpec
  import opened RoundingLaws
  import opened Specials
  import opened Add

  /** up is the least representable number above x. */
  ghost predicate NextAbove(f: Format, x: real, up: real) {
    Representable(f, up) && x < up && forall w: real :: Representable(f, w) && x < w ==> up <= w
  }

  /** down is the greatest representable number below x. */
  ghost predicate NextBelow(f: Format, x: real, down: real) {
    Representable(f, down) && down < x && forall w: real :: Representable(f, w) && w < x ==> w <= down
  }

  // ---- everything is a multiple of the least positive number ----

  /** The datum in units of the least positive number. */
  function InTiny(f: Format, d: DecFloat): int
    requires d.Finite? && d.Fits(f)
  {
    var n: int := Shift(d.coeff, d.exp - f.Qtiny());
    if d.sign then -n else n
  }

  lemma TinyMultiple(f: Format, d: DecFloat)
    requires d.Finite? && d.Fits(f)
    ensures d.Value() == Scaled(InTiny(f, d), f.Qtiny())
  {
    var n := Shift(d.coeff, d.exp - f.Qtiny());
    hide Scale, Shift;
    ScaledShift(d.coeff, f.Qtiny(), d.exp - f.Qtiny());
    ScaledNegative(n, f.Qtiny());
  }

  lemma ScaledNegative(n: int, q: int)
    ensures Scaled(-n, q) == -Scaled(n, q)
  {
    hide Scale;
    ScaleSum(0.0, n as real, q);
    ZeroScale(q);
  }

  lemma TinyStep(n: int, q: int)
    ensures Scaled(n + 1, q) == Scaled(n, q) + Scaled(1, q) && Scaled(1, q) > 0.0
  {
    hide Scale;
    ScaleSum(n as real, 1.0, q);
    ScaledNonNegative(1, q);
  }

  /** Greater means greater by at least the least positive number. */
  lemma GreaterByTiny(f: Format, x: DecFloat, w: real)
    requires x.Finite? && x.Fits(f) && Representable(f, w)
    ensures x.Value() < w <==> x.Value() + Scaled(1, f.Qtiny()) <= w
  {
    var d: DecFloat :| d.Finite? && d.Fits(f) && d.Value() == w;
    TinyMultiple(f, x);
    TinyMultiple(f, d);
    var (a, b) := (InTiny(f, x), InTiny(f, d));
    hide Scaled, InTiny;
    TinyStep(a, f.Qtiny());
    ScaledOrder(a, b, f.Qtiny());
    ScaledOrder(b, a + 1, f.Qtiny());
  }

  lemma MirrorRepresentable(f: Format, w: real)
    requires Representable(f, w)
    ensures Representable(f, -w)
  {
    var d: DecFloat :| d.Finite? && d.Fits(f) && d.Value() == w;
    var d' := Finite(!d.sign, d.coeff, d.exp);
    assert d'.Finite? && d'.Fits(f) && d'.Value() == -w;
  }

  /** Representable numbers and the grid, and the greatest one. */
  lemma RepresentableOnGrid(f: Format, w: real)
    requires f.Valid() && Representable(f, w)
    ensures OnGrid(f, if w < 0.0 then -w else w)
    ensures -Nmax(f) <= w <= Nmax(f)
  {
    var d: DecFloat :| d.Finite? && d.Fits(f) && d.Value() == w;
    ScaledNonNegative(d.coeff, d.exp);
    assert GridPoint(f, d.Magnitude(), d.coeff, d.exp);
    NmaxCovers(f, d.coeff, d.exp);
  }

  // ---- the sum with the least positive number, rounded up ----

  function Tiny(f: Format, sign: bool): DecFloat {
    Finite(sign, 1, f.Qtiny())
  }

  lemma TinyFits(f: Format, sign: bool)
    requires f.Valid()
    ensures Tiny(f, sign).Fits(f) && Tiny(f, sign).Value() == Signed(sign, Scaled(1, f.Qtiny()))
  {
    Pow10Strict(0, f.pmax);
    assert Pow10(0) == 1;
  }

  /** r is the least datum from s on, or Infinity when there is none. */
  ghost predicate LeastFrom(f: Format, s: real, r: DecFloat) {
    && (r.Finite? ==> r.Fits(f) && s <= r.Value() && forall w: real :: Representable(f, w) && s <= w ==> r.Value() <= w)
    && (!r.Finite? ==> r == Infinity(false) && forall w: real :: Representable(f, w) ==> w < s)
    && (r.Finite? && r.coeff == 0 ==> s == 0.0)
  }

  lemma CeilingPositive(f: Format, s: real, pref: int)
    requires f.Valid() && s > 0.0
    ensures LeastFrom(f, s, Round(f, Ceiling, false, s, pref).value)
  {
    var o := Round(f, Ceiling, false, s, pref);
    RoundCorrect(f, Ceiling, false, s, pref);
    var v: real :| Correct(f, Ceiling, false, s, v) && Delivers(f, Ceiling, false, s, v, o);
    forall w: real | Representable(f, w)
      ensures s <= w ==> v <= w
      ensures w <= Nmax(f)
    {
      RepresentableOnGrid(f, w);
    }
    if o.value.Finite? {
      ScaledNonNegative(o.value.coeff, o.value.exp);
    }
    hide Round, Representable, OnGrid, Scaled;
  }

  lemma CeilingNegative(f: Format, s: real, pref: int, x: DecFloat)
    requires f.Valid() && s < 0.0 && Representable(f, -Scaled(1, f.Qtiny())) && s <= -Scaled(1, f.Qtiny())
    requires x.Finite? && x.Fits(f) && x.Value() <= s
    ensures LeastFrom(f, s, Round(f, Ceiling, true, -s, pref).value)
  {
    var m := -s;
    var o := Round(f, Ceiling, true, m, pref);
    RoundCorrect(f, Ceiling, true, m, pref);
    var v: real :| Correct(f, Ceiling, true, m, v) && Delivers(f, Ceiling, true, m, v, o);
    forall w: real | Representable(f, w)
      ensures s <= w ==> -v <= w
      ensures -Nmax(f) <= w
    {
      RepresentableOnGrid(f, w);
      if w >= 0.0 {
        BelowNonNegative(f, m, v);
      }
    }
    assert Representable(f, x.Value());
    if o.value.Finite? {
      ScaledNonNegative(o.value.coeff, o.value.exp);
      TinyPositive(f);
    }
    hide Round, Representable, OnGrid, Scaled;
  }

  lemma TinyPositive(f: Format)
    ensures Scaled(1, f.Qtiny()) > 0.0
  {
    ScaledNonNegative(1, f.Qtiny());
  }

  lemma BelowNonNegative(f: Format, m: real, v: real)
    requires f.Valid() && m >= 0.0 && Below(f, m, v)
    ensures v >= 0.0
  {
    ZeroScale(f.Qtiny());
    Pow10Strict(0, f.pmax);
    assert GridPoint(f, 0.0, 0, f.Qtiny());
  }

  /** The sum of a finite datum and the least positive number, rounded towards plus infinity. */
  lemma CeilingSum(f: Format, x: DecFloat)
    requires f.Valid() && x.Finite? && x.Fits(f)
    ensures LeastFrom(f, x.Value() + Scaled(1, f.Qtiny()), AddSpec(f, Ceiling, x, Tiny(f, false)).value)
    ensures x.Value() + Scaled(1, f.Qtiny()) == 0.0 ==> AddSpec(f, Ceiling, x, Tiny(f, false)).value == Finite(false, 0, f.Qtiny())
  {
    var t := Scaled(1, f.Qtiny());
    var s := x.Value() + t;
    TinyFits(f, false);
    TinyFits(f, true);
    TinyPositive(f);
    assert Tiny(f, true).Value() == -t;
    hide Scaled, Round, InTiny;
    AddSpecFinite(f, Ceiling, x, Tiny(f, false));
    if s > 0.0 {
      CeilingPositive(f, s, Least(x.exp, f.Qtiny()));
    } else if s < 0.0 {
      NoneBetween(f, x);
      assert Representable(f, -t);
      CeilingNegative(f, s, Least(x.exp, f.Qtiny()), x);
    } else {
      ZeroLeast(f);
      assert x.sign by { NegativeValue(x); }
      ExactZero(f, Ceiling, Least(x.exp, f.Qtiny()));
    }
  }

  lemma NegativeValue(x: DecFloat)
    requires x.Finite? && x.Value() < 0.0
    ensures x.sign
  {
    ScaledNonNegative(x.coeff, x.exp);
  }

  lemma ExactZero(f: Format, mode: Rounding, pref: int)
    requires f.Valid() && pref <= f.Qtiny()
    ensures Round(f, mode, false, 0.0, pref) == Outcome(Finite(false, 0, f.Qtiny()), {})
  {
  }

  lemma ZeroLeast(f: Format)
    requires f.Valid()
    ensures LeastFrom(f, 0.0, Finite(false, 0, f.Qtiny()))
  {
    var z := Finite(false, 0, f.Qtiny());
    ZeroScale(f.Qtiny());
    Pow10Strict(0, f.pmax);
    assert z.Value() == 0.0;
  }

  /** No number of the format lies strictly between minus the least positive number and zero. */
  lemma NoneBetween(f: Format, x: DecFloat)
    requires f.Valid() && x.Finite? && x.Fits(f) && x.Value() + Scaled(1, f.Qtiny()) < 0.0
    ensures x.Value() + Scaled(1, f.Qtiny()) <= -Scaled(1, f.Qtiny())
  {
    TinyFits(f, true);
    assert Representable(f, Tiny(f, true).Value());
    GreaterByTiny(f, x, Tiny(f, true).Value());
  }

  /** Flips the sign of a datum. */
  function Flip(x: DecFloat): DecFloat {
    x.(sign := !x.sign)
  }

  /** What the neighbour above must be. */
  ghost predicate IsNextPlus(f: Format, x: DecFloat, r: DecFloat) {
    if x.Finite? then
      && (r.Finite? ==> r.Fits(f) && NextAbove(f, x.Value(), r.Value()) && (r.coeff == 0 ==> r.sign))
      && (!r.Finite? ==> r == Infinity(false) && forall w: real :: Representable(f, w) ==> w <= x.Value())
    else if x.Infinity? then
      r == if x.sign then Finite(true, Pow10(f.pmax) - 1, f.Etop()) else x
    else
      r == NaN(x.sign, false, x.payload)
  }

  /** From the rounded sum to the neighbour; a zero is reached from below and gets its sign. */
  lemma SumIsNext(f: Format, x: DecFloat, a: DecFloat)
    requires f.Valid() && x.Finite? && x.Fits(f)
    requires LeastFrom(f, x.Value() + Scaled(1, f.Qtiny()), a)
    requires a.Finite? && a.coeff == 0 ==> !a.sign
    ensures IsNextPlus(f, x, if a.IsZero() then Flip(a) else a)
  {
    var r := if a.IsZero() then Flip(a) else a;
    var s := x.Value() + Scaled(1, f.Qtiny());
    TinyPositive(f);
    forall w: real | Representable(f, w)
      ensures x.Value() < w <==> s <= w
    {
      GreaterByTiny(f, x, w);
    }
    if a.Finite? {
      SameValue(a, r);
      assert r.Fits(f);
      assert Representable(f, r.Value());
    }
    hide Scaled;
  }

  lemma SameValue(a: DecFloat, r: DecFloat)
    requires a.Finite? && (r == a || (a.coeff == 0 && r == Flip(a)))
    ensures r.Finite? && r.Value() == a.Value()
  {
    ZeroScale(a.exp);
  }

  /** nextUp: the least number above x, Infinity above the greatest, minus zero above the greatest
      negative; the mode is restored and only an invalid operation adds a flag. */
  method DecFloatNextPlus(f: Format, x: DecFloat, set': DecContext) returns (r: DecFloat)
    requires f.Basic() && x.Fits(f)
    modifies set'
    ensures IsNextPlus(f, x, r)
    ensures set'.round == old(set'.round)
    ensures set'.status == old(set'.status) + if IsSignaling(x) then {InvalidOperation} else {}
  {
    hide Pow10, Scaled, Round, LeastFrom;
    if x.Infinity? && x.sign {
      return Finite(true, Pow10(f.pmax) - 1, f.Etop());
    }
    var delta := Tiny(f, false);
    TinyFits(f, false);
    var saveround, savestat := set'.round, set'.status;
    set'.round := Ceiling;
    r := DecFloatAdd(f, x, delta, set');
    ghost var a := r;
    if r.IsZero() {
      r := Flip(r);
    }
    set'.status := set'.status * {InvalidOperation};
    set'.status := set'.status + savestat;
    set'.round := saveround;
    if x.Finite? {
      CeilingSum(f, x);
      ZeroSum(f, x);
      SumIsNext(f, x, a);
      SumFlags(f, x);
    }
  }

  /** A zero result is positive before the correction. */
  lemma ZeroSum(f: Format, x: DecFloat)
    requires f.Valid() && x.Finite? && x.Fits(f)
    ensures var a := AddSpec(f, Ceiling, x, Tiny(f, false)).value;
            a.Finite? && a.coeff == 0 ==> !a.sign
  {
    CeilingSum(f, x);
    hide Scaled, AddSpec;
  }

  /** Finite operands never make an addition invalid. */
  lemma SumFlags(f: Format, x: DecFloat)
    requires f.Valid() && x.Finite?
    ensures InvalidOperation !in AddSpec(f, Ceiling, x, Tiny(f, false)).flags
  {
    hide Scaled, Truncates, Toward, Pow10;
    RoundFlags(f, Ceiling, x.Value() + Tiny(f, false).Value(), Least(x.exp, f.Qtiny()));
  }

  lemma RoundFlags(f: Format, mode: Rounding, v: real, pref: int)
    requires f.Valid()
    ensures InvalidOperation !in RoundSigned(f, mode, false, v, pref).flags
    ensures InvalidOperation !in RoundSigned(f, mode, true, v, pref).flags
  {
    hide Scaled, Truncates, Toward, Pow10;
  }

  // ---- the mirror image ----

  function FlipOutcome(o: Outcome): Outcome {
    Outcome(Flip(o.value), o.flags)
  }

  /** The rounding attribute as it looks from the other side of zero. */
  function Mirror(mode: Rounding): Rounding {
    match mode
    case Ceiling => Floor
    case Floor => Ceiling
    case _ => mode
  }

  /** Rounding the negated number in the mirrored mode is negating the rounded number. */
  lemma RoundMirror(f: Format, mode: Rounding, sign: bool, m: real, pref: int)
    requires f.Valid() && m >= 0.0
    ensures Round(f, Mirror(mode), sign, m, pref) == FlipOutcome(Round(f, mode, !sign, m, pref))
  {
    if m > 0.0 {
      hide Scaled, Pow10, Truncates, Discarded, RoundAt, Mirror, FlipOutcome;
      TruncationExists(f, m);
      var c: nat, q: int :| Truncates(f, m, c, q);
      RoundTruncated(f, Mirror(mode), sign, m, pref, c, q);
      RoundTruncated(f, mode, !sign, m, pref, c, q);
      RoundAtMirror(f, mode, sign, c, q, ResidueOf(Discarded(m, c, q)), m < Ten(f.Emin()), pref);
    }
  }

  lemma RoundAtMirror(f: Format, mode: Rounding, sign: bool, c: nat, q: int, r: Residue, tiny: bool, pref: int)
    ensures RoundAt(f, Mirror(mode), sign, c, q, r, tiny, pref) == FlipOutcome(RoundAt(f, mode, !sign, c, q, r, tiny, pref))
  {
    IncrementsMirror(mode, sign, c, r);
    OverflowMirror(f, mode, sign);
    hide Mirror, Increments, Overflowed, Toward, Pow10;
  }

  lemma IncrementsMirror(mode: Rounding, sign: bool, c: nat, r: Residue)
    ensures Increments(Mirror(mode), sign, c, r) == Increments(mode, !sign, c, r)
  {
  }

  lemma OverflowMirror(f: Format, mode: Rounding, sign: bool)
    ensures Overflowed(f, Mirror(mode), sign) == FlipOutcome(Overflowed(f, mode, !sign))
  {
  }

  lemma FlipValue(x: DecFloat)
    requires x.Finite?
    ensures Flip(x).Finite? && Flip(x).Value() == -x.Value()
  {
  }

  lemma SumMirror(f: Format, x: DecFloat)
    requires f.Valid() && x.Finite?
    ensures AddSpec(f, Floor, x, Tiny(f, true)) == FlipOutcome(AddSpec(f, Ceiling, Flip(x), Tiny(f, false)))
  {
    var s := Flip(x).Value() + Tiny(f, false).Value();
    FlipValue(x);
    FlipValue(Tiny(f, true));
    hide Scaled, Round;
    var pref := Least(x.exp, f.Qtiny());
    RoundMirror(f, Ceiling, s > 0.0, if s > 0.0 then s else -s, pref);
    if s == 0.0 {
      NotBothPositive(f, x);
      RoundMirror(f, Ceiling, true, 0.0, pref);
    }
  }

  lemma NotBothPositive(f: Format, x: DecFloat)
    requires x.Finite? && Flip(x).Value() + Tiny(f, false).Value() == 0.0
    ensures !x.sign
  {
    ScaledNonNegative(x.coeff, x.exp);
    TinyPositive(f);
  }

  /** What the neighbour below must be. */
  ghost predicate IsNextMinus(f: Format, x: DecFloat, r: DecFloat) {
    if x.Finite? then
      && (r.Finite? ==> r.Fits(f) && NextBelow(f, x.Value(), r.Value()) && (r.coeff == 0 ==> !r.sign))
      && (!r.Finite? ==> r == Infinity(true) && forall w: real :: Representable(f, w) ==> x.Value() <= w)
    else if x.Infinity? then
      r == if x.sign then x else Finite(false, Pow10(f.pmax) - 1, f.Etop())
    else
      r == NaN(x.sign, false, x.payload)
  }

  lemma NextMirror(f: Format, x: DecFloat, r: DecFloat)
    requires f.Valid() && x.Finite? && x.Fits(f) && IsNextPlus(f, Flip(x), r)
    ensures IsNextMinus(f, x, Flip(r))
  {
    FlipValue(x);
    forall w: real | Representable(f, w)
      ensures Representable(f, -w)
    {
      MirrorRepresentable(f, w);
    }
    if r.Finite? {
      FlipValue(r);
      hide Scaled, Representable;
      assert Representable(f, -r.Value());
      forall w: real | Representable(f, w) && w < x.Value()
        ensures w <= -r.Value()
      {
        assert Representable(f, -w);
      }
    } else {
      hide Scaled, Representable;
      forall w: real | Representable(f, w)
        ensures x.Value() <= w
      {
        assert Representable(f, -w);
      }
    }
  }

  /** nextDown: the mirror image of nextUp. */
  method DecFloatNextMinus(f: Format, x: DecFloat, set': DecContext) returns (r: DecFloat)
    requires f.Basic() && x.Fits(f)
    modifies set'
    ensures IsNextMinus(f, x, r)
    ensures set'.round == old(set'.round)
    ensures set'.status == old(set'.status) + if IsSignaling(x) then {InvalidOperation} else {}
  {
    hide Pow10, Scaled, Round, LeastFrom;
    if x.Infinity? && !x.sign {
      return Finite(false, Pow10(f.pmax) - 1, f.Etop());
    }
    var delta := Tiny(f, true);
    TinyFits(f, true);
    var saveround, savestat := set'.round, set'.status;
    set'.round := Floor;
    r := DecFloatAdd(f, x, delta, set');
    ghost var a := r;
    if r.IsZero() {
      r := Flip(r);
    }
    set'.status := set'.status * {InvalidOperation};
    set'.status := set'.status + savestat;
    set'.round := saveround;
    if x.Finite? {
      hide AddSpec;
      MinusFacts(f, x, a);
    }
  }

  /** The rounded sum going down, through its mirror image. */
  lemma MinusFacts(f: Format, x: DecFloat, a: DecFloat)
    requires f.Valid() && x.Finite? && x.Fits(f) && a == AddSpec(f, Floor, x, Tiny(f, true)).value
    ensures IsNextMinus(f, x, if a.IsZero() then Flip(a) else a)
    ensures InvalidOperation !in AddSpec(f, Floor, x, Tiny(f, true)).flags
  {
    hide Pow10, Scaled, Round, LeastFrom, AddSpec, IsNextPlus, IsNextMinus;
    SumMirror(f, x);
    CeilingSum(f, Flip(x));
    ZeroSum(f, Flip(x));
    SumFlags(f, Flip(x));
    var b := Flip(a);
    SumIsNext(f, Flip(x), b);
    NextMirror(f, x, if b.IsZero() then Flip(b) else b);
  }

  // ---- subtraction ----

  /** The difference of two decFloats: for finite operands the exact difference rounded once. */
  method DecFloatSubtract(f: Format, l: DecFloat, r: DecFloat, set': DecContext) returns (result: DecFloat)
    requires f.Basic() && l.Fits(f) && r.Fits(f)
    modifies set'
    ensures var o := if r.NaN? then AddSpec(f, old(set'.round), l, r) else AddSpec(f, old(set'.round), l, Flip(r));
            result == o.value && set'.status == old(set'.status) + o.flags
    ensures l.Finite? && r.Finite? ==>
            var o := RoundSigned(f, old(set'.round), ZeroSign(old(set'.round), l.sign, !r.sign), l.Value() - r.Value(),
                                 Least(l.exp, r.exp));
            result == o.value && set'.status == old(set'.status) + o.flags
    ensures set'.round == old(set'.round)
  {
    hide Pow10, Scaled, Round, RoundSigned;
    if r.NaN? {
      result := DecFloatAdd(f, l, r, set');
    } else {
      if r.Finite? {
        FlipValue(r);
      }
      result := DecFloatAdd(f, l, Flip(r), set');
    }
  }
}
