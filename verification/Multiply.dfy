/** Multiplication (decFiniteMultiply and decFloatMultiply, decBasic.c:671-1057 and 2660-2683):
    products are accumulated in columns without carrying, and the carries resolved afterwards by
    reciprocal estimates. */
module Multiply {
  import opened Arith
  import opened TenPowers
  import opened DecFloats
  import opened RoundingSpec
  import opened Truncation
  import opened Specials
  import opened Bcd
  import opened BaseBillion
  import opened Words
  import opened Conversion
  import opened Finalize
  import opened Divide

  // ---- lazy columns ----

  /** Adding x to column k. */
  lemma {:induction false} NumAddAt(s: seq<nat>, k: nat, x: nat)
    requires k < |s|
    ensures Num(s[k := s[k] + x]) == Num(s) + Raise(x, k)
  {
    var t := s[k := s[k] + x];
    if k == 0 {
      assert t[1..] == s[1..];
    } else {
      assert t[1..] == s[1..][k - 1 := s[1..][k - 1] + x];
      NumAddAt(s[1..], k - 1, x);
    }
  }

  lemma UnitProduct(a: nat, b: nat)
    requires a < 1_000_000_000 && b < 1_000_000_000
    ensures a * b == Prod(a, b) <= 999_999_998_000_000_001
  {
    MulMono(a, 999_999_999, b);
  }

  lemma RowStep(a: nat, s: seq<nat>, j: nat, i: nat)
    requires j < |s|
    ensures Raise(Prod(a, Num(s[..j + 1])), i) == Raise(Prod(a, Num(s[..j])), i) + Raise(Prod(a, s[j]), i + j)
  {
    hide Num, Prod, Raise;
    assert s[..j + 1][..j] == s[..j];
    NumTop(s[..j + 1]);
    ProdLaws(Num(s[..j]), Raise(s[j], j), a);
    RaiseSum(Prod(a, Num(s[..j])), Prod(a, Raise(s[j], j)), i);
    RaiseProd(a, s[j], j);
    RaiseAdd(Prod(a, s[j]), j, i);
  }

  /** One row: the left operand times one unit of the right, added in at column i. */
  method AddRow(accl: array<nat>, i: nat, a: nat, bufl: array<nat>, L: nat, ghost bound: nat)
    requires accl != bufl && bufl.Length == L && i + L <= accl.Length
    requires Units(bufl[..]) && a < 1_000_000_000
    requires forall k: nat :: k < accl.Length ==> accl[k] <= bound
    modifies accl
    ensures Num(accl[..]) == old(Num(accl[..])) + Raise(Prod(a, Num(bufl[..])), i)
    ensures forall k: nat :: k < accl.Length ==> accl[k] <= bound + 999_999_998_000_000_001
  {
    hide Num, Raise, Prod;
    ghost var s := bufl[..];
    RowStart(a, s, i);
    var j := 0;
    while j < L
      invariant 0 <= j <= L
      invariant Num(accl[..]) == old(Num(accl[..])) + Raise(Prod(a, Num(s[..j])), i)
      invariant forall k: nat :: k < accl.Length ==>
        accl[k] <= if i <= k < i + j then bound + 999_999_998_000_000_001 else bound
    {
      UnitProduct(a, s[j]);
      RowStep(a, s, j, i);
      NumAddAt(accl[..], i + j, Prod(a, s[j]));
      ghost var t := accl[..];
      accl[i + j] := accl[i + j] + a * bufl[j];
      assert accl[..] == t[i + j := t[i + j] + Prod(a, s[j])];
      j := j + 1;
    }
    assert s[..L] == s;
  }

  lemma RowStart(a: nat, s: seq<nat>, i: nat)
    ensures Raise(Prod(a, Num(s[..0])), i) == 0
  {
    RaiseZero(i);
  }

  /** All rows; rows for zero units are skipped. */
  method AddRows(accl: array<nat>, bufl: array<nat>, bufr: array<nat>, L: nat)
    requires accl != bufl && accl != bufr && bufl.Length == bufr.Length == L && accl.Length == 2 * L
    requires Units(bufl[..]) && Units(bufr[..])
    requires forall k: nat :: k < accl.Length ==> accl[k] == 0
    modifies accl
    ensures Num(accl[..]) == Prod(Num(bufr[..]), Num(bufl[..]))
    ensures forall k: nat :: k < accl.Length ==> accl[k] <= L * 999_999_998_000_000_001
  {
    hide Num, Raise, Prod;
    ghost var s, D := bufr[..], Num(bufl[..]);
    var i := 0;
    NumZeros(accl[..]);
    RowsStart(s, D);
    while i < L
      invariant 0 <= i <= L && D == Num(bufl[..])
      invariant Num(accl[..]) == Prod(Num(s[..i]), D)
      invariant forall k: nat :: k < accl.Length ==> accl[k] <= i * 999_999_998_000_000_001
    {
      RowsStep(s, i, D);
      if bufr[i] != 0 {
        AddRow(accl, i, bufr[i], bufl, L, i * 999_999_998_000_000_001);
      }
      i := i + 1;
    }
    assert s[..L] == s;
  }

  lemma RowsStart(s: seq<nat>, D: nat)
    ensures Prod(Num(s[..0]), D) == 0
  {
    ProdLaws(0, 0, D);
  }

  lemma RowsStep(s: seq<nat>, i: nat, D: nat)
    requires i < |s|
    ensures Prod(Num(s[..i + 1]), D) == Prod(Num(s[..i]), D) + Raise(Prod(s[i], D), i)
    ensures s[i] == 0 ==> Raise(Prod(s[i], D), i) == 0
  {
    hide Num, Raise, Prod;
    assert s[..i + 1][..i] == s[..i];
    NumTop(s[..i + 1]);
    ProdLaws(Num(s[..i]), Raise(s[i], i), D);
    ProdLaws(0, 0, D);
    ProdSwap(Raise(s[i], i), D);
    ProdSwap(s[i], D);
    RaiseProd(D, s[i], i);
    RaiseZero(i);
  }

  lemma ProdSwap(a: nat, b: nat)
    ensures Prod(a, b) == Prod(b, a)
  {
  }

  // ---- resolving the carries ----

  /** Splits a column into a unit and the carry, by the reciprocal of 10^9 (L tells the width). */
  method SplitColumn(x: nat, L: nat) returns (lo: nat, est: nat)
    requires 1 <= L <= 4 && x < L * 1_000_000_000_000_000_000
    ensures x == lo + 1_000_000_000 * est && lo < 1_000_000_000
  {
    if x < 1_000_000_000 {
      return x, 0;
    }
    if L <= 2 {
      hide Shr29, HighWord;
      ReciprocalEstimate29(x, Shr29(x), HighWord(Shr29(x) * 2305843009));
      var hop := Low32(Shr29(x));
      est := Low32(HighWord(hop * 2305843009));
      lo := Low32(x - est * 1_000_000_000);
      if lo >= 1_000_000_000 {
        lo, est := lo - 1_000_000_000, est + 1;
      }
    } else {
      lo, est := SplitWide(x);
    }
  }

  method SplitWide(x: nat) returns (lo: nat, est: nat)
    requires x < 4_000_000_000_000_000_000
    ensures x == lo + 1_000_000_000 * est && lo < 1_000_000_000
  {
    hide Shr30, Shr31;
    ReciprocalEstimate30(x, Shr30(x), Shr31(Shr30(x) * 2305843009));
    var hop := Low32(Shr30(x));
    est := Low32(Shr31(hop * 2305843009));
    lo := Low32(x - est * 1_000_000_000);
    if lo >= 1_000_000_000 {
      lo, est := lo - 1_000_000_000, est + 1;
      if lo >= 1_000_000_000 {
        lo, est := lo - 1_000_000_000, est + 1;
      }
    }
  }

  /** Column i gives its unit and passes the carry on. */
  lemma CarryStep(done: seq<nat>, t: seq<nat>, lo: nat, est: nat)
    requires |t| >= 1 && t[0] == lo + 1_000_000_000 * est
    ensures |t| >= 2
        ==> Num(done + [lo]) + Raise(Num(t[1..][0 := t[1] + est]), |done| + 1) == Num(done) + Raise(Num(t), |done|)
    ensures |t| == 1 && est == 0 ==> Num(done + [lo]) == Num(done) + Raise(Num(t), |done|)
  {
    hide Num, Raise;
    NumConcat(done, [lo]);
    NumSingle(lo);
    NumLow(t);
    if |t| >= 2 {
      NumAddAt(t[1..], 0, est);
      RaiseZeroPlace(est);
      RaiseStep(Num(t[1..]) + est, |done|);
      RaiseSum(lo, 1_000_000_000 * (Num(t[1..]) + est), |done|);
    } else {
      assert t == [t[0]];
      NumSingle(t[0]);
    }
  }

  lemma RaiseZeroPlace(a: nat)
    ensures Raise(a, 0) == a
  {
  }

  /** The last column is less than 10^9 and needs no split. */
  lemma LastColumnFits(done: seq<nat>, x: nat, P: nat)
    requires Num(done) + Raise(x, |done|) == P < Raise(1, |done| + 1)
    ensures x < 1_000_000_000
  {
    hide Num, Raise;
    RaiseStep(1, |done|);
    RaiseMono(x, 1_000_000_000, |done|);
  }

  /** Resolves the lazy columns to units of base 10^9. */
  method ResolveCarries(accl: array<nat>, L: nat) returns (acc: array<nat>)
    requires 1 <= L <= 4 && accl.Length == 2 * L
    requires forall k: nat :: k < accl.Length ==> accl[k] <= L * 999_999_998_000_000_001
    requires Num(accl[..]) < Raise(1, 2 * L)
    modifies accl
    ensures fresh(acc) && acc.Length == 2 * L && Units(acc[..]) && Num(acc[..]) == old(Num(accl[..]))
  {
    hide Num, Raise;
    acc := new nat[2 * L];
    ghost var P := Num(accl[..]);
    assert acc[..0] == [] && accl[0..] == accl[..];
    EmptyStart(accl[..]);
    var i := 0;
    while i < 2 * L
      invariant 0 <= i <= 2 * L && Units(acc[..i])
      invariant forall k: nat :: i < k < 2 * L ==> accl[k] <= L * 999_999_998_000_000_001
      invariant i < 2 * L ==> accl[i] < L * 1_000_000_000_000_000_000
      invariant Num(acc[..i]) + Raise(Num(accl[i..]), i) == P
    {
      ghost var done, t := acc[..i], accl[i..];
      if i == 2 * L - 1 {
        assert t == [accl[i]];
        NumSingle(accl[i]);
        LastColumnFits(done, accl[i], P);
      }
      var lo, est := SplitColumn(accl[i], L);
      CarryStep(done, t, lo, est);
      acc[i] := lo;
      assert acc[..i + 1] == done + [lo];
      if i < 2 * L - 1 {
        accl[i + 1] := accl[i + 1] + est;
        assert accl[i + 1..] == t[1..][0 := t[1] + est];
      } else {
        assert accl[i + 1..] == [];
        RaiseEmpty(i + 1);
      }
      i := i + 1;
    }
    assert acc[..2 * L] == acc[..] && accl[2 * L..] == [];
    RaiseEmpty(2 * L);
  }

  lemma EmptyStart(s: seq<nat>)
    ensures Num([]) == 0 && Raise(Num(s), 0) == Num(s)
  {
  }

  lemma RaiseEmpty(k: nat)
    ensures Raise(Num([]), k) == 0
  {
    RaiseZero(k);
  }

  // ---- the product as digits ----

  /** LEADZEROS: digits that are zero in any product. */
  function LeadZeros(f: Format): int {
    18 * f.Units() - 2 * f.pmax
  }

  /** Fewer digits than cells: the rest are leading zeros. */
  lemma KnownLeadingZeros(s: seq<nat>, digits: nat)
    requires Digits(s) && Val(s) < Pow10(digits) && digits <= |s|
    ensures Val(s[|s| - digits..]) == Val(s) && Digits(s[|s| - digits..])
  {
    hide Val, Pow10;
    ValDrop(s, digits);
    ShiftZero(digits);
    HighLowUnique(Val(s), digits, 0, Val(s));
  }

  lemma ProductBound(f: Format, cl: nat, cr: nat)
    requires f.Valid() && cl < Pow10(f.pmax) && cr < Pow10(f.pmax)
    ensures Prod(cr, cl) < Pow10(2 * f.pmax) <= Raise(1, 2 * f.Units())
  {
    hide Pow10, Raise, Prod;
    RaiseIsShift(1, 2 * f.Units());
    ShiftOne(0, 18 * f.Units());
    Pow10Mono(2 * f.pmax, 18 * f.Units());
    Pow10Add(f.pmax, f.pmax);
    ProductMono(cr, cl, Pow10(f.pmax));
  }

  lemma ProductMono(a: nat, b: nat, p: nat)
    requires a < p && b < p
    ensures Prod(a, b) < p * p
  {
    MulMono(a, p, b);
    MulStrict(b, p, p);
  }

  /** The exact product of two coefficients as BCD digits, from cell at on. There are at most eight
      leading zeros beyond those skipped. */
  method FiniteMultiply(f: Format, cl: nat, cr: nat, bcdacc: array<nat>, at: nat) returns (msd: nat, lsd: nat)
    requires f.Valid() && f.Units() <= 4 && cl < Pow10(f.pmax) && cr < Pow10(f.pmax)
    requires bcdacc.Length > at + 18 * f.Units()
    modifies bcdacc
    ensures at <= msd <= lsd < at + 18 * f.Units() && Digits(bcdacc[msd..lsd + 1])
    ensures Val(bcdacc[msd..lsd + 1]) == Prod(cl, cr)
    ensures lsd + 1 - at <= NumDigits(Prod(cl, cr)) + 8
  {
    hide *;
    var L := f.Units();
    PositiveUnits(f);
    CoefficientFits(f, cl);
    CoefficientFits(f, cr);
    ProductBound(f, cl, cr);
    var bufl, bufr, accl := new nat[L], new nat[L], new nat[2 * L](_ => 0);
    GetCoeffBill(cl, bufl, 0, L);
    GetCoeffBill(cr, bufr, 0, L);
    assert bufl[0..0 + L] == bufl[..] && bufr[0..0 + L] == bufr[..];
    AddRows(accl, bufl, bufr, L);
    var acc := ResolveCarries(accl, L);
    ProdSwap(cl, cr);
    var pa := 2 * L - 1;
    if acc[pa] != 0 {
      assert acc[..pa + 1] == acc[..];
      UnitsToBcdPrefix(acc, pa, bcdacc, at);
      lsd := at + 18 * L - 1;
      msd := at + LeadZeros(f);
      KnownLeadingZeros(bcdacc[at..at + 18 * L], 2 * f.pmax);
      assert bcdacc[at..at + 18 * L][LeadZeros(f)..] == bcdacc[msd..lsd + 1];
    } else {
      pa := pa - 1;
      assert acc[..] == acc[..pa + 1] + [0];
      DropTopZero(acc[..pa + 1]);
      while acc[pa] == 0 && pa != 0
        invariant 0 <= pa < 2 * L && Units(acc[..]) && Num(acc[..pa + 1]) == Prod(cr, cl)
      {
        assert acc[..pa + 1] == acc[..pa] + [0];
        DropTopZero(acc[..pa]);
        pa := pa - 1;
      }
      UnitsToBcdPrefix(acc, pa, bcdacc, at);
      msd, lsd := at, at + 9 * (pa + 1) - 1;
    }
  }

  /** A leading unit that is not zero accounts for the length. */
  lemma LeadingUnitLength(s: seq<nat>)
    requires |s| >= 1 && (s[|s| - 1] != 0 || |s| == 1)
    ensures 9 * |s| <= NumDigits(Num(s)) + 8
  {
    if |s| > 1 {
      NumLeading(s);
      RaiseIsShift(1, |s| - 1);
      ShiftOne(0, 9 * (|s| - 1));
      NumDigitsIsLength(Num(s));
      LengthAbove(Num(s), NumDigits(Num(s)), 9 * (|s| - 1));
    }
  }

  lemma PositiveUnits(f: Format)
    requires f.Valid()
    ensures f.pmax >= 1 && f.Units() >= 1 && 0 <= LeadZeros(f) && LeadZeros(f) == 18 * f.Units() - 2 * f.pmax
  {
  }

  lemma DropTopZero(s: seq<nat>)
    ensures Num(s + [0]) == Num(s)
  {
    NumZeroTop(s + [0]);
    assert (s + [0])[..|s|] == s;
  }

  method UnitsToBcdPrefix(acc: array<nat>, pa: nat, bcdacc: array<nat>, at: nat)
    requires acc != bcdacc && pa < acc.Length && at + 9 * (pa + 1) < bcdacc.Length && Units(acc[..])
    requires acc[pa] != 0 || pa == 0
    modifies bcdacc
    ensures Digits(bcdacc[at..at + 9 * (pa + 1)]) && Val(bcdacc[at..at + 9 * (pa + 1)]) == Num(acc[..pa + 1])
    ensures 9 * (pa + 1) <= NumDigits(Num(acc[..pa + 1])) + 8
  {
    hide Num, Val;
    assert acc[0..pa + 1] == acc[..pa + 1];
    LeadingUnitLength(acc[..pa + 1]);
    UnitsToBcd(acc, 0, pa, bcdacc, at);
  }

  // ---- the operation ----

  /** The reference: multiplication by section 5.4.1 of IEEE 754-2008. */
  ghost function MultiplySpec(f: Format, mode: Rounding, l: DecFloat, r: DecFloat): Outcome
    requires f.Valid()
  {
    if l.NaN? || r.NaN? then
      PropagateNaN(l, r)
    else if (l.Infinity? && r.IsZero()) || (r.Infinity? && l.IsZero()) then
      Invalid()
    else if l.Infinity? || r.Infinity? then
      Outcome(Infinity(l.sign != r.sign), {})
    else
      ProductNonNegative(l, r);
      Round(f, mode, l.sign != r.sign, Times(l.Magnitude(), r.Magnitude()), l.exp + r.exp)
  }

  lemma ProductNonNegative(l: DecFloat, r: DecFloat)
    requires l.Finite? && r.Finite?
    ensures Times(l.Magnitude(), r.Magnitude()) == Scaled(Prod(l.coeff, r.coeff), l.exp + r.exp) >= 0.0
  {
    ScaledNonNegative(Prod(l.coeff, r.coeff), l.exp + r.exp);
    hide Ten, Times, Prod;
    var (a, b, s, t) := (l.coeff as real, r.coeff as real, Ten(l.exp), Ten(r.exp));
    ProdReal(l.coeff, r.coeff);
    TenAdd(l.exp, r.exp);
    TimesAssoc(a, s, Times(b, t));
    TimesComm(b, t);
    TimesAssoc(s, t, b);
    TimesComm(Times(s, t), b);
    TimesAssoc(a, b, Times(s, t));
  }

  /** The product of two decFloats: for all operands and modes the exact product rounded once. */
  method DecFloatMultiply(f: Format, l: DecFloat, r: DecFloat, set': DecContext) returns (result: DecFloat)
    requires f.Basic() && l.Fits(f) && r.Fits(f)
    modifies set'
    ensures var o := MultiplySpec(f, old(set'.round), l, r);
            result == o.value && set'.status == old(set'.status) + o.flags
    ensures set'.round == old(set'.round)
  {
    hide Pow10, Scaled, Round, Val, Times;
    if l.NaN? || r.NaN? {
      result := Deliver(PropagateNaN(l, r), set');
    } else if (l.Infinity? && r.IsZero()) || (r.Infinity? && l.IsZero()) {
      result := Deliver(Invalid(), set');
    } else if l.Infinity? || r.Infinity? {
      result := Deliver(Outcome(Infinity(l.sign != r.sign), {}), set');
    } else {
      var bcdacc := new nat[18 * f.Units() + 1];
      var msd, lsd := FiniteMultiply(f, l.coeff, r.coeff, bcdacc, 0);
      ProductNonNegative(l, r);
      result := DecFinalize(f, bcdacc, msd, lsd, l.sign != r.sign, l.exp + r.exp, set');
    }
  }
}
