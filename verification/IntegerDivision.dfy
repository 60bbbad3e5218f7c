/** Integer division (decDivide with op DIVIDEINT, and the integer quotient inside the remainders,
    decBasic.c:580-656). */
module IntegerDivision {
  import opened Arith
  import opened TenPowers
  import opened DecFloats
  import opened RoundingSpec
  import opened Truncation
  import opened Specials
  import opened Bcd
  import opened Finalize
  import opened Divide
  import opened Add

  /** The integer nearest to m >= 0, the even one of two. */
  function NearestEven(m: real): nat
    requires m >= 0.0
  {
    var n: nat := m.Floor;
    if Increments(HalfEven, false, n, ResidueOf(m - n as real)) then n + 1 else n
  }

  /** The integer quotient: truncated, or nearest. */
  function IntegerOf(m: real, near: bool): nat
    requires m >= 0.0
  {
    if near then NearestEven(m) else m.Floor
  }

  /** Nearest, and even when halfway. */
  lemma NearestEvenIsNearest(m: real)
    requires m >= 0.0
    ensures var n := NearestEven(m) as real;
            -0.5 <= m - n <= 0.5 && (m - n == 0.5 || m - n == -0.5 ==> NearestEven(m) % 2 == 0)
  {
  }

  // ---- integers from digits ----

  /** Pads with zeros up to exponent 0. */
  method PadToInteger(buf: array<nat>, msd: nat, lsd: nat, exponent: nat) returns (newlsd: nat)
    requires msd <= lsd && lsd + exponent < buf.Length && Digits(buf[msd..lsd + 1])
    modifies buf
    ensures newlsd == lsd + exponent && Digits(buf[msd..newlsd + 1])
    ensures Val(buf[msd..newlsd + 1]) == Shift(old(Val(buf[msd..lsd + 1])), exponent)
  {
    hide Val, Shift;
    ghost var s := buf[msd..lsd + 1];
    var ub := lsd + 1;
    while ub <= lsd + exponent
      invariant lsd + 1 <= ub <= lsd + exponent + 1
      invariant forall k: nat :: lsd < k < ub ==> buf[k] == 0
      invariant buf[msd..lsd + 1] == s
    {
      buf[ub] := 0;
      ub := ub + 1;
    }
    newlsd := lsd + exponent;
    ghost var z := buf[lsd + 1..newlsd + 1];
    assert buf[msd..newlsd + 1] == s + z;
    ValAppendZeros(s, z);
  }

  /** Cuts off the last drop digits. */
  method TruncateDigits(buf: array<nat>, msd: nat, lsd: nat, drop: nat) returns (newlsd: nat)
    requires msd <= lsd < buf.Length && Digits(buf[msd..lsd + 1])
    modifies buf
    ensures msd <= newlsd <= lsd && Digits(buf[msd..newlsd + 1])
    ensures Val(buf[msd..newlsd + 1]) == High(old(Val(buf[msd..lsd + 1])), drop)
  {
    hide Val, High;
    ghost var s := buf[msd..lsd + 1];
    if drop <= lsd && msd <= lsd - drop {
      newlsd := lsd - drop;
      ValDrop(s, drop);
      assert s[..|s| - drop] == buf[msd..newlsd + 1];
    } else {
      newlsd := msd;
      buf[msd] := 0;
      assert buf[msd..msd + 1] == [0];
      ValSingle(0);
      AllDropped(s, drop);
    }
  }

  lemma AllDropped(s: seq<nat>, drop: nat)
    requires Digits(s) && |s| <= drop
    ensures High(Val(s), drop) == 0
  {
    hide Val, High, Pow10;
    ValBound(s);
    Pow10Mono(|s|, drop);
    HighBelow(Val(s), drop, 0);
    Pow10One();
  }

  /** Adds one to digits that start with a zero. */
  method Bump(buf: array<nat>, lo: nat, lsd: nat)
    requires lo <= lsd < buf.Length && Digits(buf[lo..lsd + 1]) && buf[lo] == 0
    modifies buf
    ensures Digits(buf[lo..lsd + 1]) && Val(buf[lo..lsd + 1]) == old(Val(buf[lo..lsd + 1])) + 1
  {
    hide Val;
    ghost var s := buf[lo..lsd + 1];
    FirstNotNine(s);
    var allNines := AddOne(buf, lo, lsd);
  }

  lemma FirstNotNine(s: seq<nat>)
    requires |s| >= 1 && s[0] == 0
    ensures !AllEqual(s, 9)
  {
  }

  /** Rounds half-even at the units digit, in place; the cell before the digits takes a carry. */
  method RoundDigits(buf: array<nat>, msd: nat, lsd: nat, drop: nat) returns (newmsd: nat, newlsd: nat)
    requires 1 <= msd <= lsd < buf.Length && Digits(buf[msd..lsd + 1]) && drop >= 1
    modifies buf
    ensures newmsd <= newlsd < buf.Length && Digits(buf[newmsd..newlsd + 1])
    ensures var c := old(Val(buf[msd..lsd + 1]));
            var up := Increments(HalfEven, false, High(c, drop), RemainderClass(Low(c, drop), Pow10(drop)));
            Val(buf[newmsd..newlsd + 1]) == High(c, drop) + if up then 1 else 0
  {
    hide Val, High, Low, Pow10, RemainderClass, DigitClass, Increments, Digits;
    ghost var c := Val(buf[msd..lsd + 1]);
    var reround;
    newmsd, newlsd, reround := Cut(buf, msd, lsd, drop);
    ghost var h := Val(buf[newmsd..newlsd + 1]);
    assert h == High(c, drop);
    NearestDigit(buf[newmsd..newlsd + 1], reround);
    var bump := reround > 5 || (reround == 5 && buf[newlsd] % 2 == 1);
    if bump {
      LeadingZeroCell(buf, msd - 1, newmsd, newlsd);
      Bump(buf, msd - 1, newlsd);
      newmsd := FindStart(buf, msd - 1, newmsd, newlsd);
    }
  }

  /** Where the digits start after a possible carry to the left. */
  method FindStart(buf: array<nat>, lo: nat, msd: nat, lsd: nat) returns (m: nat)
    requires lo <= msd <= lo + 1 && msd <= lsd < buf.Length && Digits(buf[lo..lsd + 1])
    ensures lo <= m <= lsd && Digits(buf[m..lsd + 1]) && Val(buf[m..lsd + 1]) == Val(buf[lo..lsd + 1])
  {
    hide Val;
    m := if buf[lo] != 0 then lo else msd;
    if m > lo {
      assert buf[lo..lsd + 1] == [0] + buf[m..lsd + 1];
      ValSkipZeros([0] + buf[m..lsd + 1], 1);
      assert ([0] + buf[m..lsd + 1])[1..] == buf[m..lsd + 1];
      TailDigits(0, buf[m..lsd + 1]);
    }
  }

  lemma TailDigits(d: nat, s: seq<nat>)
    requires Digits([d] + s)
    ensures Digits(s)
  {
    forall k: nat | k < |s|
      ensures s[k] <= 9
    {
      assert ([d] + s)[k + 1] == s[k];
    }
  }

  lemma LeadingZeroCell(buf: array<nat>, lo: nat, msd: nat, lsd: nat)
    requires lo <= msd <= lo + 1 && msd <= lsd < buf.Length && buf[lo] == 0 && Digits(buf[msd..lsd + 1])
    ensures Digits(buf[lo..lsd + 1]) && Val(buf[lo..lsd + 1]) == Val(buf[msd..lsd + 1])
  {
    hide Val;
    if msd > lo {
      assert buf[lo..lsd + 1] == [0] + buf[msd..lsd + 1];
      ValSkipZeros([0] + buf[msd..lsd + 1], 1);
      assert ([0] + buf[msd..lsd + 1])[1..] == buf[msd..lsd + 1];
    }
  }

  /** The decision by re-round digit and last digit is the half-even rule. */
  lemma NearestDigit(s: seq<nat>, reround: nat)
    requires |s| >= 1 && Digits(s)
    ensures (reround > 5 || (reround == 5 && s[|s| - 1] % 2 == 1))
        <==> Increments(HalfEven, false, Val(s), DigitClass(reround))
  {
    LastDigit(s);
    LastDigitParity(Val(s));
    hide Val;
  }

  /** Finds the re-round digit and the last digit kept; nothing kept leaves the zero before the digits. */
  method Cut(buf: array<nat>, msd: nat, lsd: nat, drop: nat) returns (newmsd: nat, newlsd: nat, reround: nat)
    requires 1 <= msd <= lsd < buf.Length && Digits(buf[msd..lsd + 1]) && drop >= 1
    modifies buf
    ensures msd - 1 <= newmsd <= msd && newmsd <= newlsd < buf.Length && buf[msd - 1] == 0
    ensures Digits(buf[newmsd..newlsd + 1])
    ensures var c := old(Val(buf[msd..lsd + 1]));
            Val(buf[newmsd..newlsd + 1]) == High(c, drop)
            && DigitClass(reround) == RemainderClass(Low(c, drop), Pow10(drop))
  {
    hide Val, High, Low, Pow10, RemainderClass, DigitClass, Sticky, Digits, AllEqual;
    ghost var s := buf[msd..lsd + 1];
    DigitsPart(s);
    var length := lsd - msd + 1;
    buf[msd - 1] := 0;
    assert buf[msd..lsd + 1] == s;
    if drop < length {
      var roundat := lsd - drop + 1;
      reround := CheckStickies(buf, roundat + 1, lsd, buf[roundat]);
      newmsd, newlsd := msd, roundat - 1;
      CutSlices(buf, msd, lsd, roundat);
      CutInside(s, drop, reround);
    } else {
      reround := CheckAll(buf, msd, lsd, drop);
      newmsd, newlsd := msd - 1, msd - 1;
      assert buf[msd - 1..msd] == [0];
      ValSingle(0);
    }
  }

  lemma DigitsPart(s: seq<nat>)
    requires Digits(s)
    ensures forall i: nat :: i <= |s| ==> Digits(s[..i])
    ensures Digits([0])
  {
  }

  lemma CutSlices(buf: array<nat>, msd: nat, lsd: nat, at: nat)
    requires msd < at <= lsd < buf.Length
    ensures var (s, i) := (buf[msd..lsd + 1], at - msd);
            s[..i] == buf[msd..at - 1 + 1] && s[i] == buf[at] && s[i..][1..] == buf[at + 1..lsd + 1]
  {
    var (s, i) := (buf[msd..lsd + 1], at - msd);
    assert s[i..] == buf[at..lsd + 1];
  }

  // ---- the integer quotient ----

  /** Whether the integer part fits, and what it is, from the quotient digits. */
  lemma IntegerPart(f: Format, c: nat, len: nat, e: int, m: real, pref: int)
    requires f.Valid() && Describes(f, c, e, m, pref) && HasLength(c, len)
    ensures m >= 0.0 && (len + e > f.pmax <==> m >= Pow10(f.pmax) as real)
    ensures len + e <= f.pmax && e >= 0 ==> m == Shift(c, e) as real
    ensures len + e <= f.pmax && e < 0
        ==> m.Floor == High(c, -e) && ResidueOf(m - High(c, -e) as real) == RemainderClass(Low(c, -e), Pow10(-e))
  {
    hide Scale, Pow10, Shift, High, Low, ResidueOf, RemainderClass, HasLength;
    if c > 0 && m == Scaled(c, e) && (e == pref || (e < pref && c % 10 != 0)) {
      ExactInteger(c, len, e, f.pmax, m);
    } else {
      InexactInteger(c, len, e, f.pmax, m);
    }
  }

  lemma ExactInteger(c: nat, len: nat, e: int, p: nat, m: real)
    requires HasLength(c, len) && m == Scaled(c, e)
    ensures m >= 0.0 && (len + e > p <==> m >= Pow10(p) as real)
    ensures e >= 0 ==> m == Shift(c, e) as real
    ensures e < 0 ==> m.Floor == High(c, -e) && ResidueOf(m - High(c, -e) as real) == RemainderClass(Low(c, -e), Pow10(-e))
  {
    hide Scale, Pow10, Shift, High, Low, ResidueOf, RemainderClass;
    ScaledNonNegative(c, e);
    ScaledOrder(c, c + 1, e);
    MagnitudeByLength(c, len, e, p, m);
    if e >= 0 {
      ScaledNat(c, e);
    } else {
      FloorByCut(c as real, c, e, m);
      ResidueExact(c, e, -e);
      DiscardedAtUnits(m, High(c, -e), e);
    }
  }

  /** m lies between two powers of ten. */
  lemma MagnitudeByLength(c: nat, len: nat, e: int, p: nat, m: real)
    requires HasLength(c, len) && Scaled(c, e) <= m < Scaled(c + 1, e)
    ensures len + e > p <==> m >= Pow10(p) as real
  {
    hide Scale, Ten, Pow10;
    ScaledOfPow10(len - 1, e);
    ScaledOfPow10(len, e);
    ScaledOrder(c, Pow10(len - 1), e);
    ScaledOrder(Pow10(len), c + 1, e);
    TenNat(p);
    if len + e > p {
      TenMono(p, len - 1 + e);
    } else {
      TenMono(len + e, p);
    }
  }

  /** Cutting at the units place is taking the floor. */
  lemma FloorByCut(y: real, c: nat, e: int, m: real)
    requires e < 0 && c as real <= y < (c + 1) as real && m == Scale(y, e)
    ensures m.Floor == High(c, -e)
  {
    hide Scale, High;
    CutBrackets(y, c, e, -e);
    ScaleZero(High(c, -e) as real);
    ScaleZero((High(c, -e) + 1) as real);
  }

  lemma DiscardedAtUnits(m: real, q: nat, e: int)
    requires e < 0
    ensures Discarded(m, q, e + -e) == m - q as real
  {
    hide Scale;
    ScaleZero(m);
  }

  lemma InexactInteger(c: nat, len: nat, e: int, p: nat, m: real)
    requires HasLength(c, len) && c / 10 >= Pow10(p) && c % 10 != 0
    requires Scaled(c / 10, e + 1) < m < Scaled(c / 10 + 1, e + 1)
    ensures m >= 0.0 && (len + e > p <==> m >= Pow10(p) as real)
    ensures len + e <= p ==> e <= -2
    ensures e <= -2 ==> m.Floor == High(c, -e) && ResidueOf(m - High(c, -e) as real) == RemainderClass(Low(c, -e), Pow10(-e))
  {
    var k := c / 10;
    TensLength(c, len, p);
    hide Scale, Pow10, Shift, High, Low, ResidueOf, RemainderClass;
    ScaledNonNegative(k, e + 1);
    MagnitudeByLength(k, len - 1, e + 1, p, m);
    if e <= -2 {
      var y := Scale(m, -(e + 1));
      ScaleInverse(m, e + 1);
      ScaleOrder(k as real, y, e + 1);
      ScaleOrder(y, (k + 1) as real, e + 1);
      FloorByCut(y, k, e + 1, m);
      ResidueSticky(y, k, e + 1, -(e + 1));
      DiscardedAtUnits(m, High(k, -(e + 1)), e + 1);
      TensClass(c, k, -(e + 1));
    }
  }

  lemma TensLength(c: nat, len: nat, p: nat)
    requires HasLength(c, len) && c / 10 >= Pow10(p)
    ensures len >= 2 && HasLength(c / 10, len - 1) && len >= p + 2
  {
    Pow10Positive(p);
    Pow10One();
    assert len >= 2;
    assert Pow10(len) == 10 * Pow10(len - 1) && Pow10(len - 1) == 10 * Pow10(len - 2);
    LengthAbove(c / 10, len - 1, p);
  }

  /** A last digit that is not zero stands for anything non-zero behind the digits before it. */
  lemma TensClass(c: nat, k: nat, n: nat)
    requires k == c / 10 && c % 10 != 0 && n >= 1
    ensures High(c, n + 1) == High(k, n)
    ensures RemainderClass(Low(c, n + 1), Pow10(n + 1)) == StickyClass(Low(k, n), Pow10(n))
  {
    var l := Low(k, n);
    assert Low(c, n + 1) == 10 * l + c % 10;
    assert Pow10(n + 1) == 10 * Pow10(n);
    Pow10Even(n);
    hide Pow10, Low, High;
    HalfClass(l, c % 10, Pow10(n));
  }

  lemma HalfClass(l: nat, d: nat, p: nat)
    requires 1 <= d <= 9 && p % 2 == 0
    ensures RemainderClass(10 * l + d, 10 * p) == StickyClass(l, p)
  {
    var h := p / 2;
    assert p == 2 * h;
  }

  /** The integer quotient of two coefficients at distance e0, in digits with exponent 0; false when it has
      more than pmax digits before rounding. */
  method IntegerQuotient(f: Format, cl: nat, cr: nat, e0: int, near: bool, buf: array<nat>)
    returns (fits: bool, msd: nat, lsd: nat)
    requires f.Basic() && 0 < cl < Pow10(f.pmax) && 0 < cr < Pow10(f.pmax)
    requires buf.Length == 9 * (f.Units() + 1) + 2
    modifies buf
    ensures var m := Scale(Ratio(cl as real, cr as real), e0);
            && m >= 0.0 && (fits <==> m < Pow10(f.pmax) as real)
            && (fits ==> msd <= lsd < buf.Length && Digits(buf[msd..lsd + 1])
                         && Val(buf[msd..lsd + 1]) == IntegerOf(m, near))
  {
    hide *;
    BasicFacts(f);
    UnitsSuffice(f);
    ghost var m := Scale(Ratio(cl as real, cr as real), e0);
    var exponent;
    msd, lsd, exponent := FiniteQuotient(f, cl, cr, e0, buf);
    ghost var c := Val(buf[msd..lsd + 1]);
    var length := lsd - msd + 1;
    IntegerPart(f, c, length, exponent, m, e0);
    fits := length + exponent <= f.pmax;
    if fits {
      if exponent >= 0 {
        lsd := PadToInteger(buf, msd, lsd, exponent);
        WholeNumber(Shift(c, exponent), m, near);
      } else {
        var drop := -exponent;
        CutNumber(High(c, drop), m, near, RemainderClass(Low(c, drop), Pow10(drop)));
        if near {
          msd, lsd := RoundDigits(buf, msd, lsd, drop);
        } else {
          lsd := TruncateDigits(buf, msd, lsd, drop);
        }
      }
    }
  }

  lemma WholeNumber(n: nat, m: real, near: bool)
    requires m == n as real
    ensures IntegerOf(m, near) == n
  {
  }

  lemma CutNumber(n: nat, m: real, near: bool, r: Residue)
    requires m >= 0.0 && m.Floor == n && r == ResidueOf(m - n as real)
    ensures IntegerOf(m, near) == n + if near && Increments(HalfEven, false, n, r) then 1 else 0
  {
  }

  // ---- the operation ----

  /** The reference: the quotient truncated to an integer, provided it has at most pmax digits. */
  ghost function DivideIntegerSpec(f: Format, l: DecFloat, r: DecFloat): Outcome
    requires f.Valid()
  {
    if l.NaN? || r.NaN? then
      PropagateNaN(l, r)
    else
      var sign := l.sign != r.sign;
      if l.Infinity? then
        if r.Infinity? then Invalid() else Outcome(Infinity(sign), {})
      else if r.Infinity? then
        Outcome(Finite(sign, 0, 0), {})
      else if r.IsZero() then
        if l.IsZero() then Outcome(NaN(false, false, 0), {DivisionUndefined})
        else Outcome(Infinity(sign), {DivisionByZero})
      else
        QuotientNonNegative(l, r);
        var m := Ratio(l.Magnitude(), r.Magnitude());
        if m >= Pow10(f.pmax) as real then Outcome(NaN(false, false, 0), {DivisionImpossible})
        else Outcome(Finite(sign, m.Floor, 0), {})
  }

  lemma ZeroExponent(f: Format)
    requires f.Basic()
    ensures f.Valid() && f.Qtiny() <= 0 <= f.Etop() && 1 <= f.Etop()
  {
  }

  lemma IntegerFits(f: Format, mode: Rounding, sign: bool, m: real)
    requires f.Basic() && 0.0 <= m < Pow10(f.pmax) as real
    ensures RoundScaled(f, mode, sign, m.Floor, 0) == Outcome(Finite(sign, m.Floor, 0), {})
  {
    hide Pow10, RoundScaled;
    ZeroExponent(f);
    AlreadyRounded(f, mode, sign, m.Floor, 0);
  }

  /** The truncated quotient of two decFloats. */
  method DecFloatDivideInteger(f: Format, l: DecFloat, r: DecFloat, set': DecContext) returns (result: DecFloat)
    requires f.Basic() && l.Fits(f) && r.Fits(f)
    modifies set'
    ensures var o := DivideIntegerSpec(f, l, r);
            result == o.value && set'.status == old(set'.status) + o.flags
    ensures set'.round == old(set'.round)
  {
    hide Pow10, Scale, Scaled, Ratio, Round, Val, Describes, RoundScaled;
    if l.NaN? || r.NaN? {
      result := Deliver(PropagateNaN(l, r), set');
      return;
    }
    var sign := l.sign != r.sign;
    if l.Infinity? {
      result := Deliver(if r.Infinity? then Invalid() else Outcome(Infinity(sign), {}), set');
      return;
    }
    if r.Infinity? {
      return Finite(sign, 0, 0);
    }
    if r.IsZero() {
      result := Deliver(if l.IsZero() then Outcome(NaN(false, false, 0), {DivisionUndefined})
                        else Outcome(Infinity(sign), {DivisionByZero}), set');
      return;
    }
    QuotientNonNegative(l, r);
    if l.IsZero() {
      Pow10Positive(f.pmax);
      return Finite(sign, 0, 0);
    }
    var bcdacc := new nat[9 * (f.Units() + 1) + 2];
    RatioOfScaled(l.coeff, l.exp, r.coeff, r.exp);
    var fits, msd, lsd := IntegerQuotient(f, l.coeff, r.coeff, l.exp - r.exp, false, bcdacc);
    if !fits {
      result := Deliver(Outcome(NaN(false, false, 0), {DivisionImpossible}), set');
      return;
    }
    IntegerFits(f, set'.round, sign, Ratio(l.Magnitude(), r.Magnitude()));
    result := DecFinalize(f, bcdacc, msd, lsd, sign, 0, set');
  }
}
