/** The outer loop of decDivide (decBasic.c:325-516): quotient units, one for each input position,
    until the division comes out even or there are digits enough to round. */
module LongDivisionLoop {
  import opened Arith
  import opened Truncation
  import opened BaseBillion
  import opened LongDivision

  /** Counts the digits of the first unit against the table of powers. */
  method CountDigits(unit: nat) returns (digits: nat)
    requires unit < 1_000_000_000
    ensures digits <= 9
    ensures if unit == 0 then digits == 0 else HasLength(unit, digits)
  {
    digits := 0;
    assert Pow10(9) == 1_000_000_000 by { NinePowers(); }
    hide Pow10;
    while digits < 10 && unit >= Pow10(digits)
      invariant digits <= 9
      invariant digits > 0 ==> Pow10(digits - 1) <= unit
    {
      digits := digits + 1;
    }
    Pow10Steps(unit);
  }

  lemma Pow10Steps(unit: nat)
    ensures Pow10(0) == 1
  {
  }

  lemma NinePowers()
    ensures Pow10(9) == 1_000_000_000
  {
    ShiftOne(0, 9);
    NineShifts(1, 0);
  }

  /** What the loop knows between two positions: n units of quotient Q, with remainder W, of the
      leading part C of the dividend. */
  ghost predicate Progress(Q: nat, D: nat, W: nat, C: nat, n: nat, quodigits: nat) {
    && Prod(Q, D) + W == C && W < D
    && (n == 0 <==> quodigits == 0)
    && (n == 0 ==> Q == 0)
    && (n > 0 ==> HasLength(Q, quodigits) && 9 * (n - 1) + 1 <= quodigits <= 9 * n)
  }

  /** One more unit u of quotient, at the next unit a of the dividend. */
  lemma NextUnit(Q: nat, D: nat, W: nat, C: nat, n: nat, quodigits: nat, u: nat, a: nat, W': nat)
    requires Progress(Q, D, W, C, n, quodigits) && n > 0 && u < 1_000_000_000
    requires Prod(u, D) + W' == a + 1_000_000_000 * W && W' < D
    ensures Progress(u + 1_000_000_000 * Q, D, W', a + 1_000_000_000 * C, n + 1, quodigits + 9)
  {
    NineMoreDigits(Q, u, quodigits);
    hide Prod, HasLength;
    ProdLaws(u, 1_000_000_000 * Q, D);
    ProdBillion(Q, D);
  }

  lemma NineMoreDigits(Q: nat, u: nat, digits: nat)
    requires HasLength(Q, digits) && u < 1_000_000_000
    ensures HasLength(u + 1_000_000_000 * Q, digits + 9)
  {
    ShiftOne(0, digits);
    ShiftOne(0, digits - 1);
    ShiftOne(0, digits + 9);
    ShiftOne(0, digits + 8);
    hide Pow10, Shift;
    NineShifts(1, digits);
    NineShifts(1, digits - 1);
  }

  /** The first unit, or still none. */
  lemma FirstUnit(D: nat, W: nat, C: nat, u: nat, a: nat, W': nat, quodigits: nat)
    requires Progress(0, D, W, C, 0, 0) && u < 1_000_000_000
    requires Prod(u, D) + W' == a + 1_000_000_000 * W && W' < D
    requires quodigits <= 9 && if u == 0 then quodigits == 0 else HasLength(u, quodigits)
    ensures Progress(u, D, W', a + 1_000_000_000 * C, if u == 0 then 0 else 1, quodigits)
  {
    hide HasLength, Prod;
    ProdLaws(0, 0, D);
    LengthPositive(u, quodigits);
  }

  lemma LengthPositive(u: nat, digits: nat)
    ensures HasLength(u, digits) ==> digits >= 1
  {
  }

  /** The dividend: the units of cl on top of an accumulator of 3 * L units, zeros below. */
  ghost predicate Dividend(a: seq<nat>, L: nat, cl: nat) {
    && |a| == 3 * L && Units(a) && Num(a[2 * L..]) == cl > 0
    && forall k: nat :: k < 2 * L ==> a[k] == 0
  }

  /** The part of the dividend from unit i on. */
  lemma DividendBelow(a: seq<nat>, L: nat, cl: nat, i: nat)
    requires Dividend(a, L, cl) && i <= 2 * L
    ensures Num(a[i..]) == Raise(cl, 2 * L - i)
  {
    hide Num, Raise;
    var s := a[i..];
    NumSplit(s, 2 * L - i);
    NumZeros(s[..2 * L - i]);
    assert s[2 * L - i..] == a[2 * L..];
  }

  lemma DividendAbove(a: seq<nat>, L: nat, cl: nat, i: nat)
    requires Dividend(a, L, cl) && 2 * L <= i <= 3 * L
    ensures Num(a[i..]) <= cl
  {
    hide Num, Raise;
    var s := a[2 * L..];
    NumSplit(s, i - 2 * L);
    assert s[i - 2 * L..] == a[i..];
    RaiseIsLarger(Num(a[i..]), i - 2 * L);
  }

  lemma {:induction false} RaiseIsLarger(a: nat, k: nat)
    ensures a <= Raise(a, k)
  {
    if k > 0 {
      RaiseIsLarger(a, k - 1);
    }
  }

  /** As long as there is no quotient digit, there is room below. */
  lemma NoDigitYet(a: seq<nat>, L: nat, cl: nat, d: seq<nat>, W: nat, lsua: int)
    requires Dividend(a, L, cl) && Units(d) && 1 <= |d| <= L && -1 <= lsua < 3 * L
    requires Num(a[lsua + 1..]) == W < Num(d)
    ensures lsua + |d| >= 2 * L
  {
    if lsua + 1 + |d| <= 2 * L {
      hide Num, Raise;
      var k := 2 * L - lsua - 1;
      DividendBelow(a, L, cl, lsua + 1);
      NumBound(d);
      RaiseMono(1, cl, k);
      RaiseGrows(|d|, k);
      assert false;
    }
  }

  /** Once there are digits enough, the whole dividend has been covered. */
  lemma Covered(a: seq<nat>, L: nat, cl: nat, Q: nat, D: nat, W: nat, lsua: nat, p: nat, digits: nat)
    requires Dividend(a, L, cl) && cl < Pow10(p) && lsua <= 3 * L
    requires Prod(Q, D) + W == Num(a[lsua..]) && D >= 1 && HasLength(Q, digits) && digits > p + 1
    ensures lsua <= 2 * L
  {
    hide Num, Raise, Pow10, Prod;
    if lsua > 2 * L {
      DividendAbove(a, L, cl, lsua);
      ProdMono(1, D, Q);
      ProdLaws(0, 0, Q);
      Pow10Mono(p, digits - 1);
      assert false;
    }
  }

  /** The quotient as delivered: n units from lsuq on, J units below the original dividend. */
  ghost predicate Divided(pmax: nat, q: seq<nat>, cl: nat, D: nat, J: nat, W: nat, quodigits: nat) {
    && |q| >= 1 && Units(q) && q[|q| - 1] > 0
    && Prod(Num(q), D) + W == Raise(cl, J) && W < D
    && HasLength(Num(q), quodigits) && 9 * (|q| - 1) + 1 <= quodigits <= 9 * |q|
    && (W != 0 ==> quodigits > pmax + 1)
    && (J > 0 && W == 0 ==> q[0] != 0)
  }

  /** The state at the top of the outer loop, before input position lsua. */
  ghost predicate Ready(pmax: nat, L: nat, a: seq<nat>, acc: array<nat>, div: array<nat>, divunits: nat, divtop: nat,
                        quo: array<nat>, lsua: int, msua: nat, lsuq: int, quodigits: nat)
    requires |a| == 3 * L
    reads acc, div, quo
  {
    && acc.Length == 3 * L && div.Length == L && quo.Length == L + 1 && acc != div && acc != quo && div != quo
    && Divisor(div, divunits, divtop)
    && -1 <= lsua <= msua < 3 * L && 0 <= lsuq <= L && quodigits <= pmax + 1 < 9 * L + 1
    && (forall k: nat :: k <= lsua ==> acc[k] == a[k])
    && Units(acc[lsua + 1..msua + 1]) && Units(quo[lsuq + 1..])
    && Progress(Num(quo[lsuq + 1..]), Num(div[..divunits]), Num(acc[lsua + 1..msua + 1]), Num(a[lsua + 1..]),
                L - lsuq, quodigits)
    && (lsuq < L ==> quo[L] > 0 && lsua + (L - lsuq) + divunits >= 2 * L)
    && (lsua < 2 * L ==> Num(acc[lsua + 1..msua + 1]) > 0)
  }

  /** The next position is always inside the accumulator. */
  lemma RoomBelow(pmax: nat, L: nat, a: seq<nat>, cl: nat, acc: array<nat>, div: array<nat>, divunits: nat, divtop: nat,
                  quo: array<nat>, lsua: int, msua: nat, lsuq: int, quodigits: nat)
    requires |a| == 3 * L && Dividend(a, L, cl)
    requires Ready(pmax, L, a, acc, div, divunits, divtop, quo, lsua, msua, lsuq, quodigits)
    ensures 0 <= lsua && 0 <= lsuq <= L && lsua + (L - lsuq) + divunits >= 2 * L
  {
    hide Num, Raise, Units, Dividend, Prod, Progress;
    ghost var (Q, D, W, C) := (Num(quo[lsuq + 1..]), Num(div[..divunits]), Num(acc[lsua + 1..msua + 1]), Num(a[lsua + 1..]));
    ProgressCount(Q, D, W, C, L - lsuq, quodigits);
    if quodigits == 0 {
      NoDigitYet(a, L, cl, div[..divunits], W, lsua);
    }
  }

  lemma ProgressCount(Q: nat, D: nat, W: nat, C: nat, n: nat, quodigits: nat)
    requires Progress(Q, D, W, C, n, quodigits)
    ensures n == 0 <==> quodigits == 0
    ensures n == 0 ==> W == C && W < D
    ensures n > 0 ==> 9 * (n - 1) + 1 <= quodigits
  {
    ProdLaws(0, 0, D);
    hide Prod;
  }

  /** One input position: the quotient unit there, and the remainder it leaves. */
  method OnePosition(pmax: nat, L: nat, ghost a: seq<nat>, acc: array<nat>, div: array<nat>, divunits: nat, divtop: nat,
                     quo: array<nat>, lsua: nat, msua0: nat, lsuq: nat, quodigits: nat)
    returns (msua: nat)
    requires |a| == 3 * L && Units(a)
    requires Ready(pmax, L, a, acc, div, divunits, divtop, quo, lsua, msua0, lsuq, quodigits)
    modifies acc, quo
    ensures lsua <= msua < 3 * L
    ensures forall k: nat :: k < lsua ==> acc[k] == a[k]
    ensures Units(acc[lsua..msua + 1])
    ensures quo[..] == old(quo[..])[lsuq := quo[lsuq]] && quo[lsuq] < 1_000_000_000
    ensures Num(acc[lsua..msua + 1]) < Num(div[..divunits])
    ensures Prod(quo[lsuq], Num(div[..divunits])) + Num(acc[lsua..msua + 1])
         == a[lsua] + 1_000_000_000 * old(Num(acc[lsua + 1..msua0 + 1]))
    ensures acc[msua] == 0 <==> Num(acc[lsua..msua + 1]) == 0
    ensures acc[msua] == 0 ==> msua == lsua
  {
    hide Num, Raise, Prod, Divisor, HasLength;
    ghost var s := acc[lsua..msua0 + 1];
    assert s[0] == a[lsua] && s[1..] == acc[lsua + 1..msua0 + 1] && s == [a[lsua]] + s[1..];
    DivisorPositive(div, divunits, divtop);
    assert Num(s[1..]) < Num(div[..divunits]);
    hide Progress;
    NumLow(s);
    quo[lsuq], msua := QuotientUnit(acc, lsua, msua0, div, divunits, divtop);
  }

  /** One input position and what becomes of the quotient: leading zero units are not kept. */
  method Position(pmax: nat, L: nat, ghost a: seq<nat>, ghost cl: nat, acc: array<nat>, div: array<nat>, divunits: nat,
                  divtop: nat, quo: array<nat>, lsua: nat, msua0: nat, lsuq0: nat, quodigits0: nat)
    returns (msua: nat, lsuq: int, quodigits: nat)
    requires |a| == 3 * L && Dividend(a, L, cl)
    requires Ready(pmax, L, a, acc, div, divunits, divtop, quo, lsua, msua0, lsuq0, quodigits0)
    modifies acc, quo
    ensures Divisor(div, divunits, divtop)
    ensures lsua <= msua < 3 * L && -1 <= lsuq <= lsuq0 <= L
    ensures forall k: nat :: k < lsua ==> acc[k] == a[k]
    ensures Units(acc[lsua..msua + 1]) && Units(quo[lsuq + 1..])
    ensures Progress(Num(quo[lsuq + 1..]), Num(div[..divunits]), Num(acc[lsua..msua + 1]), Num(a[lsua..]),
                     L - lsuq, quodigits)
    ensures lsuq < L ==> quo[L] > 0 && lsua - 1 + (L - lsuq) + divunits >= 2 * L
    ensures quodigits0 == 0 ==> quodigits <= 9
    ensures quodigits0 > 0 ==> quodigits == quodigits0 + 9
    ensures acc[msua] == 0 <==> Num(acc[lsua..msua + 1]) == 0
    ensures lsua < 2 * L && acc[msua] == 0 ==> lsuq < L && quo[lsuq + 1] != 0
  {
    hide Num, Raise, Prod, Divisor, HasLength, Dividend, Units;
    RoomBelow(pmax, L, a, cl, acc, div, divunits, divtop, quo, lsua, msua0, lsuq0, quodigits0);
    DivisorPositive(div, divunits, divtop);
    ghost var W, Q := Num(acc[lsua + 1..msua0 + 1]), Num(quo[lsuq0 + 1..]);
    ghost var C, D, q0 := Num(a[lsua + 1..]), Num(div[..divunits]), quo[lsuq0 + 1..];
    DividendUnits(a, L, cl);
    ProgressCount(Q, D, W, C, L - lsuq0, quodigits0);
    msua := OnePosition(pmax, L, a, acc, div, divunits, divtop, quo, lsua, msua0, lsuq0, quodigits0);
    var unit := quo[lsuq0];
    ghost var W' := Num(acc[lsua..msua + 1]);
    assert quo[lsuq0 + 1..] == q0 && quo[lsuq0..] == [unit] + q0;
    OneMoreUnit(q0, unit);
    assert a[lsua..] == [a[lsua]] + a[lsua + 1..];
    OneMoreUnit(a[lsua + 1..], a[lsua]);
    lsuq, quodigits := lsuq0, quodigits0;
    if lsua < 2 * L {
      DividendZero(a, L, cl, lsua);
      LastUnitIf(unit, D, W, W');
    }
    hide Progress;
    if quodigits > 0 {
      NextUnit(Q, D, W, C, L - lsuq0, quodigits0, unit, a[lsua], W');
      quodigits := quodigits + 9;
      lsuq := lsuq - 1;
    } else {
      FirstPosition(q0, Q, D, W, C, quodigits0);
      quodigits := CountDigits(unit);
      FirstUnit(D, W, C, unit, a[lsua], W', quodigits);
      if unit != 0 {
        lsuq := lsuq - 1;
      }
    }
  }

  lemma DividendUnits(a: seq<nat>, L: nat, cl: nat)
    requires Dividend(a, L, cl)
    ensures Units(a)
  {
  }

  lemma DividendZero(a: seq<nat>, L: nat, cl: nat, i: nat)
    requires Dividend(a, L, cl) && i < 2 * L
    ensures a[i] == 0
  {
  }

  lemma OneMoreUnit(s: seq<nat>, u: nat)
    ensures Num([u] + s) == u + 1_000_000_000 * Num(s)
    ensures Units(s) && u < 1_000_000_000 ==> Units([u] + s)
  {
    assert ([u] + s)[1..] == s;
  }

  lemma LastUnitIf(u: nat, D: nat, W: nat, W': nat)
    requires Prod(u, D) + W' == 1_000_000_000 * W && W' < D
    ensures W > 0 && W' == 0 ==> u > 0
  {
    ProdLaws(0, 0, D);
  }

  lemma FirstPosition(q: seq<nat>, Q: nat, D: nat, W: nat, C: nat, quodigits: nat)
    requires Progress(Q, D, W, C, |q|, quodigits) && quodigits == 0 && Q == Num(q)
    ensures |q| == 0 && Q == 0
  {
  }

  /** The outer loop. Afterwards quo[lsuq..] holds the units of the quotient Q, acc[lsua..msua + 1]
      the remainder W, and the dividend extended by J = 2 * L - lsua zero units is Q times the
      divisor plus W. It stops with W = 0, or with at least pmax + 2 digits in Q. */
  method DivideUnits(pmax: nat, L: nat, ghost cl: nat, acc: array<nat>, div: array<nat>, divunits: nat, divtop: nat,
                     quo: array<nat>)
    returns (lsua: int, msua: nat, lsuq: int, quodigits: nat)
    requires acc.Length == 3 * L && div.Length == L && quo.Length == L + 1 && acc != div && acc != quo && div != quo
    requires 8 <= pmax < 9 * L && cl < Pow10(pmax) && Dividend(acc[..], L, cl) && Divisor(div, divunits, divtop)
    modifies acc, quo
    ensures 0 <= lsua <= 2 * L && lsua <= msua < 3 * L && 0 <= lsuq <= L && divunits <= L
    ensures Divided(pmax, quo[lsuq..], cl, Num(div[..divunits]), 2 * L - lsua, Num(acc[lsua..msua + 1]), quodigits)
    ensures acc[msua] == 0 <==> Num(acc[lsua..msua + 1]) == 0
  {
    hide *;
    DivisorPositive(div, divunits, divtop);
    ghost var a, D := acc[..], Num(div[..divunits]);
    msua, lsua, lsuq, quodigits := 3 * L - 1, 3 * L - divunits, L, 0;
    ReadyAtStart(pmax, L, cl, acc, div, divunits, divtop, quo);
    while true
      invariant Ready(pmax, L, a, acc, div, divunits, divtop, quo, lsua, msua, lsuq, quodigits)
      decreases lsua + 1
    {
      RoomBelow(pmax, L, a, cl, acc, div, divunits, divtop, quo, lsua, msua, lsuq, quodigits);
      var had := quodigits > 0;
      msua, lsuq, quodigits := Position(pmax, L, a, cl, acc, div, divunits, divtop, quo, lsua, msua, lsuq, quodigits);
      if had && quodigits > pmax + 1 {
        break;
      }
      if acc[msua] == 0 && lsua <= 2 * L {
        break;
      }
      ReadyAgain(pmax, L, a, acc, div, divunits, divtop, quo, lsua, msua, lsuq, quodigits);
      lsua := lsua - 1;
    }
    lsuq := lsuq + 1;
    AllDone(pmax, L, a, cl, D, acc[lsua..msua + 1], quo[lsuq..], lsua, quodigits);
  }

  lemma ReadyAtStart(pmax: nat, L: nat, cl: nat, acc: array<nat>, div: array<nat>, divunits: nat, divtop: nat,
                     quo: array<nat>)
    requires acc.Length == 3 * L && div.Length == L && quo.Length == L + 1 && acc != div && acc != quo && div != quo
    requires pmax < 9 * L && Dividend(acc[..], L, cl) && Divisor(div, divunits, divtop)
    ensures Ready(pmax, L, acc[..], acc, div, divunits, divtop, quo, 3 * L - divunits, 3 * L - 1, L, 0)
  {
    DivisorPositive(div, divunits, divtop);
    var a, lsua := acc[..], 3 * L - divunits;
    assert acc[lsua + 1..3 * L - 1 + 1] == a[lsua + 1..];
    assert quo[L + 1..] == [];
    NumSingle(0);
    ProdLaws(0, 0, Num(div[..divunits]));
    ShorterIsLess(a[lsua + 1..], div[..divunits]);
    hide Num, Prod;
  }

  lemma ReadyAgain(pmax: nat, L: nat, a: seq<nat>, acc: array<nat>, div: array<nat>, divunits: nat, divtop: nat,
                   quo: array<nat>, lsua: nat, msua: nat, lsuq: int, quodigits: nat)
    requires acc.Length == 3 * L && div.Length == L && quo.Length == L + 1 && acc != div && acc != quo && div != quo
    requires |a| == 3 * L && Divisor(div, divunits, divtop)
    requires lsua <= msua < 3 * L && -1 <= lsuq <= L
    requires forall k: nat :: k < lsua ==> acc[k] == a[k]
    requires Units(acc[lsua..msua + 1]) && Units(quo[lsuq + 1..])
    requires Progress(Num(quo[lsuq + 1..]), Num(div[..divunits]), Num(acc[lsua..msua + 1]), Num(a[lsua..]),
                      L - lsuq, quodigits)
    requires lsuq < L ==> quo[L] > 0 && lsua - 1 + (L - lsuq) + divunits >= 2 * L
    requires quodigits <= pmax + 1 < 9 * L + 1
    requires acc[msua] == 0 <==> Num(acc[lsua..msua + 1]) == 0
    requires acc[msua] != 0 || lsua > 2 * L
    ensures Ready(pmax, L, a, acc, div, divunits, divtop, quo, lsua - 1, msua, lsuq, quodigits)
  {
    ProgressCount(Num(quo[lsuq + 1..]), Num(div[..divunits]), Num(acc[lsua..msua + 1]), Num(a[lsua..]),
                  L - lsuq, quodigits);
    hide Num, Prod, Raise, Progress, Divisor, Units;
  }

  lemma AllDone(pmax: nat, L: nat, a: seq<nat>, cl: nat, D: nat, w: seq<nat>, q: seq<nat>, lsua: nat, quodigits: nat)
    requires Dividend(a, L, cl) && cl < Pow10(pmax) && lsua <= |a| && D >= 1
    requires Units(q) && Progress(Num(q), D, Num(w), Num(a[lsua..]), |q|, quodigits)
    requires quodigits > pmax + 1 || (Num(w) == 0 && lsua <= 2 * L)
    requires |q| > 0 ==> q[|q| - 1] > 0
    requires lsua < 2 * L && Num(w) == 0 ==> |q| > 0 && q[0] != 0
    ensures lsua <= 2 * L && |q| >= 1
    ensures Divided(pmax, q, cl, D, 2 * L - lsua, Num(w), quodigits)
  {
    hide Num, Raise, Pow10, Prod, Units, HasLength;
    ProgressCount(Num(q), D, Num(w), Num(a[lsua..]), |q|, quodigits);
    if quodigits > pmax + 1 {
      Covered(a, L, cl, Num(q), D, Num(w), lsua, pmax, quodigits);
    }
    DividendBelow(a, L, cl, lsua);
    RaisePositive(cl, 2 * L - lsua);
    ProdLaws(0, 0, D);
  }

  lemma RaisePositive(c: nat, k: nat)
    requires c > 0
    ensures Raise(c, k) > 0
  {
    RaiseMono(0, c, k);
    RaiseZero(k);
  }
}
