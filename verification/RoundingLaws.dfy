/** What the reference rounding means: the choice it makes among the numbers of the format, stated
    without coefficients and digits (sections 4.3, 5.1 and 7.4 of IEEE 754-2008). */
module RoundingLaws {
  import opened Arith
  import opened TenPowers
  import opened DecFloats
  import opened RoundingSpec
  import opened Truncation

  /** A number of the format, were there no greatest exponent. */
  ghost predicate OnGrid(f: Format, w: real) {
    exists c: nat, q: int :: GridPoint(f, w, c, q)
  }

  predicate GridPoint(f: Format, w: real, c: nat, q: int) {
    c < Pow10(f.pmax) && f.Qtiny() <= q && w == Scaled(c, q)
  }

  /** The greatest number of the grid up to m. */
  ghost predicate Below(f: Format, m: real, v: real) {
    OnGrid(f, v) && v <= m && forall w: real :: OnGrid(f, w) && w <= m ==> w <= v
  }

  /** The least number of the grid from m on. */
  ghost predicate Above(f: Format, m: real, v: real) {
    OnGrid(f, v) && m <= v && forall w: real :: OnGrid(f, w) && m <= w ==> v <= w
  }

  function Distance(m: real, w: real): real {
    if w < m then m - w else w - m
  }

  /** As near to m as any number of the grid. */
  ghost predicate Nearest(f: Format, m: real, v: real) {
    OnGrid(f, v) && forall w: real :: OnGrid(f, w) ==> Distance(m, v) <= Distance(m, w)
  }

  /** Another number of the grid is just as near. */
  ghost predicate Tie(f: Format, m: real, v: real) {
    exists w: real :: OnGrid(f, w) && w != v && Distance(m, v) == Distance(m, w)
  }

  /** v is what the rounding attribute asks for, c its last kept digits at full precision. */
  ghost predicate Correct(f: Format, mode: Rounding, sign: bool, m: real, v: real) {
    match mode
    case Down => Below(f, m, v)
    case Up => Above(f, m, v)
    case Ceiling => if sign then Below(f, m, v) else Above(f, m, v)
    case Floor => if sign then Above(f, m, v) else Below(f, m, v)
    case HalfUp => Nearest(f, m, v) && (Tie(f, m, v) ==> Above(f, m, v))
    case HalfDown => Nearest(f, m, v) && (Tie(f, m, v) ==> Below(f, m, v))
    case HalfEven => Nearest(f, m, v) && (Tie(f, m, v) ==> EvenAt(f, m, v))
    case ZeroFiveUp => (Below(f, m, v) || Above(f, m, v)) && (v != m ==> (Above(f, m, v) <==> FivesBelow(f, m)))
  }

  /** v has an even last digit at the place where m is cut off. */
  ghost predicate EvenAt(f: Format, m: real, v: real) {
    exists c: nat, q: int, h: nat :: Truncates(f, m, c, q) && v == Scaled(h, q) && h % 2 == 0
  }

  /** m cut off ends in 0 or 5. */
  ghost predicate FivesBelow(f: Format, m: real) {
    exists c: nat, q: int :: Truncates(f, m, c, q) && c % 5 == 0
  }

  /** Between a truncation and the next coefficient there is nothing. */
  lemma NothingBetween(f: Format, m: real, c: nat, q: int, w: real)
    requires f.Valid() && Truncates(f, m, c, q) && OnGrid(f, w)
    ensures w <= Scaled(c, q) || w >= Scaled(c + 1, q)
  {
    var c': nat, q' :| GridPoint(f, w, c', q');
    hide Scale, Pow10, Shift;
    if q' >= q {
      ScaledShift(c', q, q' - q);
      ScaledOrder(Shift(c', q' - q), c, q);
      ScaledOrder(Shift(c', q' - q), c + 1, q);
    } else {
      FullPrecisionShift(f.pmax, c, q - q');
      ScaledShift(c, q', q - q');
      ScaledOrder(c', Shift(c, q - q'), q');
    }
  }

  /** The two neighbours of m. */
  lemma Neighbours(f: Format, m: real, c: nat, q: int)
    requires f.Valid() && Truncates(f, m, c, q)
    ensures Below(f, m, Scaled(c, q))
    ensures OnGrid(f, Scaled(c + 1, q))
    ensures m > Scaled(c, q) ==> Above(f, m, Scaled(c + 1, q))
    ensures m == Scaled(c, q) ==> Above(f, m, m)
  {
    assert GridPoint(f, Scaled(c, q), c, q);
    NextOnGrid(f, c, q);
    forall w: real | OnGrid(f, w)
      ensures w <= Scaled(c, q) || w >= Scaled(c + 1, q)
    {
      NothingBetween(f, m, c, q, w);
    }
    hide Truncates, Scaled, OnGrid;
    assert Scaled(c, q) <= m < Scaled(c + 1, q) by { TruncatesBrackets(f, m, c, q); }
  }

  lemma TruncatesBrackets(f: Format, m: real, c: nat, q: int)
    requires Truncates(f, m, c, q)
    ensures Scaled(c, q) <= m < Scaled(c + 1, q)
  {
  }

  lemma NextOnGrid(f: Format, c: nat, q: int)
    requires f.Valid() && c < Pow10(f.pmax) && f.Qtiny() <= q
    ensures OnGrid(f, Scaled(c + 1, q))
  {
    if c + 1 < Pow10(f.pmax) {
      assert GridPoint(f, Scaled(c + 1, q), c + 1, q);
    } else {
      var t := Pow10(f.pmax - 1);
      assert c + 1 == 10 * t;
      Carried(f, t, q);
    }
  }

  lemma Carried(f: Format, t: nat, q: int)
    requires f.Valid() && t < Pow10(f.pmax) && f.Qtiny() <= q
    ensures Scaled(t, q + 1) == Scaled(10 * t, q) && GridPoint(f, Scaled(10 * t, q), t, q + 1)
  {
    hide Scale, Pow10;
    ScaledShift(t, q, 1);
    ShiftOne(t, 1);
    ShiftZero(t);
  }

  /** How the discarded part compares, in terms of values. */
  lemma ResidueDistance(f: Format, m: real, c: nat, q: int, r: Residue)
    requires f.Valid() && Truncates(f, m, c, q) && r == ResidueOf(Discarded(m, c, q))
    ensures var (a, b) := (Scaled(c, q), Scaled(c + 1, q));
            && (r == Zero <==> m == a)
            && (r == BelowHalf <==> a < m && m - a < b - m)
            && (r == Half <==> m - a == b - m)
            && (r == AboveHalf <==> m - a > b - m)
  {
    hide Scale, Pow10;
    var d := Discarded(m, c, q);
    var y := Scale(m, -q);
    ScaleInverse(m, q);
    ScaleOrder(y, c as real, q);
    ScaleOrder(c as real, y, q);
    ScaleSum(y, y, q);
    ScaleSum(c as real, (c + 1) as real, q);
    ScaleOrder(y + y, c as real + (c + 1) as real, q);
    ScaleOrder(c as real + (c + 1) as real, y + y, q);
    assert d == y - c as real;
    assert y + y < c as real + (c + 1) as real <==> d < 0.5;
    assert y + y == c as real + (c + 1) as real <==> d == 0.5;
  }

  /** Rounding up or not by the rule of the mode is correct. */
  lemma ChoiceCorrect(f: Format, mode: Rounding, sign: bool, m: real, c: nat, q: int, r: Residue)
    requires f.Valid() && Truncates(f, m, c, q) && r == ResidueOf(Discarded(m, c, q))
    ensures Correct(f, mode, sign, m, Scaled(if Increments(mode, sign, c, r) then c + 1 else c, q))
  {
    Neighbours(f, m, c, q);
    ResidueDistance(f, m, c, q, r);
    var (a, b) := (Scaled(c, q), Scaled(c + 1, q));
    assert a <= m < b by { TruncatesBrackets(f, m, c, q); }
    var up := Increments(mode, sign, c, r);
    if mode == HalfUp || mode == HalfDown || mode == HalfEven {
      HalfCorrect(f, mode, sign, m, c, q, r, up);
    } else if mode == ZeroFiveUp {
      FivesCorrect(f, m, c, q, a, b);
    } else {
      hide Truncates, Scaled, OnGrid, Below, Above, Discarded;
      if m == a {
        BelowOnGrid(f, m);
      }
    }
  }

  lemma BelowOnGrid(f: Format, m: real)
    requires OnGrid(f, m)
    ensures Below(f, m, m) && Above(f, m, m)
  {
    hide OnGrid;
  }

  lemma HalfCorrect(f: Format, mode: Rounding, sign: bool, m: real, c: nat, q: int, r: Residue, up: bool)
    requires f.Valid() && Truncates(f, m, c, q) && r == ResidueOf(Discarded(m, c, q))
    requires mode == HalfUp || mode == HalfDown || mode == HalfEven
    requires up == Increments(mode, sign, c, r)
    ensures Correct(f, mode, sign, m, Scaled(if up then c + 1 else c, q))
  {
    hide Truncates, Scaled, OnGrid, Discarded, EvenAt, Nearest, Tie, Below, Above, ResidueOf, Distance, Correct;
    var (a, b) := (Scaled(c, q), Scaled(c + 1, q));
    Neighbours(f, m, c, q);
    ResidueDistance(f, m, c, q, r);
    TruncatesBrackets(f, m, c, q);
    NearestOfTwo(f, m, c, q);
    if mode == HalfEven && r == Half {
      EvenNeighbour(f, m, c, q, if up then c + 1 else c);
    }
    HalfChoice(f, mode, sign, m, a, b, if up then b else a);
  }

  lemma HalfChoice(f: Format, mode: Rounding, sign: bool, m: real, a: real, b: real, v: real)
    requires mode == HalfUp || mode == HalfDown || mode == HalfEven
    requires v == a || v == b
    requires v == a ==> m - a <= b - m && Below(f, m, a)
    requires v == b ==> m - a >= b - m && Above(f, m, b)
    requires v == a && m - a == b - m ==> mode != HalfUp
    requires v == b && m - a == b - m ==> mode != HalfDown
    requires Nearest(f, m, v) && (m - a != b - m ==> !Tie(f, m, v)) && (mode == HalfEven && m - a == b - m ==> EvenAt(f, m, v))
    ensures Correct(f, mode, sign, m, v)
  {
    hide Nearest, Tie, Below, Above, EvenAt;
  }

  lemma EvenNeighbour(f: Format, m: real, c: nat, q: int, h: nat)
    requires Truncates(f, m, c, q) && c <= h <= c + 1 && h % 2 == 0
    ensures EvenAt(f, m, Scaled(h, q))
  {
    hide Truncates, Scaled;
  }

  /** The nearer neighbour is the nearest of all, and only the midpoint ties. */
  lemma NearestOfTwo(f: Format, m: real, c: nat, q: int)
    requires f.Valid() && Truncates(f, m, c, q)
    ensures var (a, b) := (Scaled(c, q), Scaled(c + 1, q));
            && (m - a <= b - m ==> Nearest(f, m, a))
            && (m - a >= b - m ==> Nearest(f, m, b))
            && (m - a != b - m ==> (Nearest(f, m, a) ==> !Tie(f, m, a)) && (Nearest(f, m, b) ==> !Tie(f, m, b)))
  {
    Neighbours(f, m, c, q);
    var (a, b) := (Scaled(c, q), Scaled(c + 1, q));
    assert a <= m < b by { TruncatesBrackets(f, m, c, q); }
    forall w: real | OnGrid(f, w)
      ensures w <= a || w >= b
    {
      NothingBetween(f, m, c, q, w);
    }
    hide Truncates, Scaled, OnGrid;
    assert OnGrid(f, a) && OnGrid(f, b);
  }

  lemma FivesCorrect(f: Format, m: real, c: nat, q: int, a: real, b: real)
    requires f.Valid() && Truncates(f, m, c, q) && a == Scaled(c, q) && b == Scaled(c + 1, q)
    ensures Correct(f, ZeroFiveUp, false, m, if m != a && c % 5 == 0 then b else a)
    ensures Correct(f, ZeroFiveUp, true, m, if m != a && c % 5 == 0 then b else a)
  {
    Neighbours(f, m, c, q);
    assert a <= m < b by { TruncatesBrackets(f, m, c, q); }
    if FivesBelow(f, m) {
      var c': nat, q' :| Truncates(f, m, c', q') && c' % 5 == 0;
      TruncationUnique(f, m, c, q, c', q');
    }
    assert c % 5 == 0 ==> FivesBelow(f, m);
    hide Truncates, Scaled, OnGrid, FivesBelow;
  }

  /** Removing trailing zeros moves towards the target and changes neither the value nor the fit. */
  lemma {:induction false} TowardValue(c: nat, q: int, target: int)
    requires c > 0
    ensures var (c', q') := Toward(c, q, target);
            Scaled(c', q') == Scaled(c, q) && 0 < c' <= c && q <= q' && (q' <= target || q' == q)
    decreases c
  {
    if q < target && c % 10 == 0 {
      TowardValue(c / 10, q + 1, target);
      hide Scale, Toward;
      ScaledShift(c / 10, q, 1);
      ShiftOne(c / 10, 1);
      ShiftZero(c / 10);
    }
  }

  function Nmax(f: Format): real {
    Scaled(Pow10(f.pmax) - 1, f.Etop())
  }

  /** Up to the greatest number or beyond it, by the place of the last digit. */
  lemma WithinNmax(f: Format, c: nat, q: int)
    requires f.Valid() && c < Pow10(f.pmax)
    requires q <= f.Etop() || Pow10(f.pmax - 1) <= c
    ensures Scaled(c, q) <= Nmax(f) <==> q <= f.Etop()
  {
    var e := f.Etop();
    if q <= e {
      NmaxCovers(f, c, q);
    } else {
      hide Scale, Pow10, Shift;
      FullPrecisionShift(f.pmax, c, q - e);
      ScaledShift(c, e, q - e);
      ScaledOrder(Pow10(f.pmax) - 1, Shift(c, q - e), e);
    }
  }

  lemma NmaxCovers(f: Format, c: nat, q: int)
    requires f.Valid() && c < Pow10(f.pmax) && q <= f.Etop()
    ensures Scaled(c, q) <= Nmax(f)
  {
    hide Scale, Pow10, Shift;
    var k := f.Etop() - q;
    ScaledShift(Pow10(f.pmax) - 1, q, k);
    ShiftGrows(Pow10(f.pmax) - 1, k);
    ScaledOrder(Shift(Pow10(f.pmax) - 1, k), c, q);
  }

  lemma {:induction false} ShiftGrows(c: nat, k: nat)
    ensures c <= Shift(c, k)
  {
    if k > 0 {
      ShiftGrows(c, k - 1);
    }
  }

  /** A number that a finite datum of the format has. */
  ghost predicate Representable(f: Format, w: real) {
    exists d: DecFloat :: d.Finite? && d.Fits(f) && d.Value() == w
  }

  /** The least of the representable numbers and the infinities that is not below x. */
  ghost predicate LeastNotBelow(f: Format, x: real, d: DecFloat) {
    match d
    case Finite(_, _, _) => d.Fits(f) && x <= d.Value() && forall w: real :: Representable(f, w) && x <= w ==> d.Value() <= w
    case Infinity(sign) => !sign && forall w: real :: Representable(f, w) ==> w < x
    case NaN(_, _, _) => false
  }

  /** The greatest of them that is not above x. */
  ghost predicate GreatestNotAbove(f: Format, x: real, d: DecFloat) {
    match d
    case Finite(_, _, _) => d.Fits(f) && d.Value() <= x && forall w: real :: Representable(f, w) && w <= x ==> w <= d.Value()
    case Infinity(sign) => sign && forall w: real :: Representable(f, w) ==> x < w
    case NaN(_, _, _) => false
  }

  /** What an overflow delivers (section 7.4 of IEEE 754-2008): the nearest and away modes an infinity, the
      modes towards zero the greatest number, the directed ones the next number on their side, an infinity
      being one. */
  ghost predicate OverflowsTo(f: Format, mode: Rounding, sign: bool, m: real, d: DecFloat) {
    match mode
    case Up => d == Infinity(sign)
    case HalfUp => d == Infinity(sign)
    case HalfDown => d == Infinity(sign)
    case HalfEven => d == Infinity(sign)
    case Down => d.Finite? && d.Fits(f) && d.sign == sign && d.Magnitude() == Nmax(f)
    case ZeroFiveUp => d.Finite? && d.Fits(f) && d.sign == sign && d.Magnitude() == Nmax(f)
    case Ceiling => LeastNotBelow(f, Signed(sign, m), d) && d.sign == sign
    case Floor => GreatestNotAbove(f, Signed(sign, m), d) && d.sign == sign
  }

  lemma OverflowedIsRight(f: Format, mode: Rounding, sign: bool, m: real)
    requires f.Valid() && m > Nmax(f)
    ensures OverflowsTo(f, mode, sign, m, Overflowed(f, mode, sign).value)
    ensures Overflowed(f, mode, sign).flags == {Overflow, Inexact}
  {
    hide Scaled, Pow10;
    GreatestFits(f, sign);
    forall w: real | Representable(f, w)
      ensures -Nmax(f) <= w <= Nmax(f)
    {
      WithinGreatest(f, w);
    }
  }

  /** The greatest number of either sign. */
  lemma GreatestFits(f: Format, sign: bool)
    requires f.Valid()
    ensures Pow10(f.pmax) >= 1
    ensures var d := Finite(sign, Pow10(f.pmax) - 1, f.Etop());
            d.Fits(f) && d.Magnitude() == Nmax(f) && d.Value() == Signed(sign, Nmax(f)) && Representable(f, d.Value())
  {
    hide Scaled, Pow10;
    QtinyBelowEtop(f);
    Pow10Positive(f.pmax);
    assert Finite(sign, Pow10(f.pmax) - 1, f.Etop()).Fits(f);
  }

  lemma WithinGreatest(f: Format, w: real)
    requires f.Valid() && Representable(f, w)
    ensures -Nmax(f) <= w <= Nmax(f)
  {
    hide Scaled, Pow10;
    var d: DecFloat :| d.Finite? && d.Fits(f) && d.Value() == w;
    ScaledNonNegative(d.coeff, d.exp);
    NmaxCovers(f, d.coeff, d.exp);
  }

  /** The outcome for a chosen number v of the grid. */
  ghost predicate Delivers(f: Format, mode: Rounding, sign: bool, m: real, v: real, o: Outcome) {
    if v > Nmax(f) then
      OverflowsTo(f, mode, sign, m, o.value) && o.flags == {Overflow, Inexact}
    else
      && o.value.Finite? && o.value.sign == sign && o.value.Fits(f) && o.value.Magnitude() == v
      && o.flags == (if v == m && OnGrid(f, m) then {}
                     else {Inexact} + if m < Ten(f.Emin()) then {Underflow} else {})
  }

  /** The reference rounding chooses correctly, for every magnitude, mode and sign; the outcome is
      that number, or an overflow exactly when it exceeds the greatest finite one; it is Inexact
      exactly when it differs from m. */
  lemma RoundCorrect(f: Format, mode: Rounding, sign: bool, m: real, pref: int)
    requires f.Valid() && m > 0.0
    ensures exists v: real :: Correct(f, mode, sign, m, v)
                           && Delivers(f, mode, sign, m, v, Round(f, mode, sign, m, pref))
  {
    TruncationExists(f, m);
    var c: nat, q: int :| Truncates(f, m, c, q);
    RoundTruncated(f, mode, sign, m, pref, c, q);
    var r := ResidueOf(Discarded(m, c, q));
    ChoiceCorrect(f, mode, sign, m, c, q, r);
    ResidueDistance(f, m, c, q, r);
    Neighbours(f, m, c, q);
    var c1 := if Increments(mode, sign, c, r) then c + 1 else c;
    var v := Scaled(c1, q);
    if r == Zero {
      DeliversExact(f, mode, sign, m, pref, c, q);
    } else {
      DeliversInexact(f, mode, sign, m, pref, c, q, r);
    }
  }

  lemma DeliversExact(f: Format, mode: Rounding, sign: bool, m: real, pref: int, c: nat, q: int)
    requires f.Valid() && m > 0.0 && Truncates(f, m, c, q) && m == Scaled(c, q) && OnGrid(f, m)
    ensures Delivers(f, mode, sign, m, m, RoundAt(f, mode, sign, c, q, Zero, m < Ten(f.Emin()), pref))
  {
    WithinNmax(f, c, q);
    ScaledNonNegative(c, q);
    TowardValue(c, q, if pref < f.Etop() then pref else f.Etop());
    if m > Nmax(f) {
      OverflowedIsRight(f, mode, sign, m);
    }
    hide Scale, Pow10, Toward, OnGrid, OverflowsTo, Overflowed;
  }

  lemma DeliversInexact(f: Format, mode: Rounding, sign: bool, m: real, pref: int, c: nat, q: int, r: Residue)
    requires f.Valid() && m > 0.0 && Truncates(f, m, c, q) && r != Zero
    requires Scaled(c, q) < m < Scaled(c + 1, q)
    ensures Delivers(f, mode, sign, m, Scaled(if Increments(mode, sign, c, r) then c + 1 else c, q),
                     RoundAt(f, mode, sign, c, q, r, m < Ten(f.Emin()), pref))
  {
    var c1 := if Increments(mode, sign, c, r) then c + 1 else c;
    if c1 == Pow10(f.pmax) {
      var t := Pow10(f.pmax - 1);
      assert c1 == 10 * t && c1 / 10 == t;
      Carried(f, t, q);
      hide Scale, Pow10, Increments, OverflowsTo, Overflowed;
      WithinNmax(f, t, q + 1);
      BeyondNmax(f, mode, sign, m, c, q);
    } else {
      hide Scale, Pow10, Increments, OverflowsTo, Overflowed;
      QtinyBelowEtop(f);
      WithinNmax(f, c1, q);
      BeyondNmax(f, mode, sign, m, c, q);
    }
  }

  /** A magnitude that overflows is beyond the greatest number. */
  lemma BeyondNmax(f: Format, mode: Rounding, sign: bool, m: real, c: nat, q: int)
    requires f.Valid() && Truncates(f, m, c, q) && Scaled(c, q) < m
    ensures q > f.Etop() || (q == f.Etop() && c + 1 == Pow10(f.pmax)) ==>
      && OverflowsTo(f, mode, sign, m, Overflowed(f, mode, sign).value)
      && Overflowed(f, mode, sign).flags == {Overflow, Inexact}
  {
    QtinyBelowEtop(f);
    hide Scale, Pow10, OverflowsTo, Overflowed;
    WithinNmax(f, c, q);
    if m > Nmax(f) {
      OverflowedIsRight(f, mode, sign, m);
    }
  }

  /** An inexact result keeps every digit there is room for. */
  lemma InexactIsFull(f: Format, mode: Rounding, sign: bool, m: real, pref: int)
    requires f.Valid() && m > 0.0
    ensures var o := Round(f, mode, sign, m, pref);
            Inexact in o.flags && o.value.Finite? ==> o.value.exp == f.Qtiny() || Pow10(f.pmax - 1) <= o.value.coeff
  {
    TruncationExists(f, m);
    var c: nat, q: int :| Truncates(f, m, c, q);
    RoundTruncated(f, mode, sign, m, pref, c, q);
    var r := ResidueOf(Discarded(m, c, q));
    hide Pow10, Scale, Toward, Discarded, ResidueOf, Increments, Overflowed;
    if q != f.Qtiny() {
      Pow10Mono(f.pmax - 1, f.pmax);
    }
    TenthOfPower(f.pmax - 1);
    FullAt(f, mode, sign, c, q, r, m < Ten(f.Emin()), pref);
  }

  lemma FullAt(f: Format, mode: Rounding, sign: bool, c: nat, q: int, r: Residue, tiny: bool, pref: int)
    requires f.Valid() && (q == f.Qtiny() || Pow10(f.pmax - 1) <= c) && Pow10(f.pmax) / 10 == Pow10(f.pmax - 1)
    ensures var o := RoundAt(f, mode, sign, c, q, r, tiny, pref);
            Inexact in o.flags && o.value.Finite? ==> o.value.exp == f.Qtiny() || Pow10(f.pmax - 1) <= o.value.coeff
  {
    hide Pow10, Toward, Increments;
    if r == Zero && q > f.Etop() {
      assert Overflowed(f, mode, sign).value.Finite? ==> Overflowed(f, mode, sign).value.coeff == Pow10(f.pmax) - 1;
    }
  }

  lemma TenthOfPower(k: nat)
    ensures Pow10(k + 1) / 10 == Pow10(k)
  {
  }

  lemma QtinyBelowEtop(f: Format)
    requires f.Valid()
    ensures f.Qtiny() < f.Etop()
  {
  }

  /** A number of the format is returned unchanged, and of all its representations the result is
      the one whose exponent is nearest to the one wanted (section 5.2 of IEEE 754-2008). */
  lemma PreferredExponent(f: Format, mode: Rounding, sign: bool, m: real, pref: int, c: nat, q: int)
    requires f.Valid() && m > 0.0 && GridPoint(f, m, c, q) && q <= f.Etop()
    ensures var o := Round(f, mode, sign, m, pref);
            && o.flags == {} && o.value.Finite? && o.value.sign == sign && o.value.Magnitude() == m
            && Gap(o.value.exp, pref) <= Gap(q, pref)
  {
    TruncationExists(f, m);
    var c0: nat, q0: int :| Truncates(f, m, c0, q0);
    RoundTruncated(f, mode, sign, m, pref, c0, q0);
    ResidueDistance(f, m, c0, q0, ResidueOf(Discarded(m, c0, q0)));
    LowestPlace(f, m, c0, q0, c, q);
    var target := if pref < f.Etop() then pref else f.Etop();
    TowardValue(c0, q0, target);
    TowardReaches(c, q, c0, q0, target);
    hide Scale, Pow10, Toward, Shift, Discarded;
  }

  function Gap(a: int, b: int): nat {
    if a < b then b - a else a - b
  }

  /** The truncation has the least exponent a number of the format can have. */
  lemma LowestPlace(f: Format, m: real, c0: nat, q0: int, c: nat, q: int)
    requires f.Valid() && m > 0.0 && Truncates(f, m, c0, q0) && GridPoint(f, m, c, q)
    ensures q0 <= q && c0 == Shift(c, q - q0) && m == Scaled(c0, q0) && c0 > 0
  {
    hide Scale, Pow10, Shift;
    if q < q0 {
      FullPrecisionShift(f.pmax, c0, q0 - q);
      ScaledShift(c0, q, q0 - q);
      ScaledOrder(c, Shift(c0, q0 - q), q);
      assert false;
    } else {
      ScaledShift(c, q0, q - q0);
      ScaledOrder(Shift(c, q - q0), c0, q0);
      ScaledOrder(Shift(c, q - q0), c0 + 1, q0);
      ScaledNonNegative(c0, q0);
    }
  }

  lemma TowardReaches(c: nat, q: int, c0: nat, q0: int, target: int)
    requires c0 > 0 && q0 <= q && c0 == Shift(c, q - q0)
    ensures q0 <= target ==> Toward(c0, q0, target).1 >= if q < target then q else target
    ensures q0 >= target ==> Toward(c0, q0, target) == (c0, q0)
  {
    if q0 < target {
      ShiftZero(q - q0);
      assert c > 0;
      if q <= target {
        TowardPadded(c, q0, q - q0, target);
        TowardValue(c, q, target);
      } else {
        hide Shift, Toward;
        ShiftAdd(c, q - target, target - q0);
        ShiftZero(target - q0);
        TowardPadded(Shift(c, q - target), q0, target - q0, target);
        TowardValue(Shift(c, q - target), target, target);
      }
    }
  }
}
