/** The base-10^9 long division inside decDivide (decBasic.c:277-516): multiplier estimates,
    multiply-and-subtract with a reciprocal split, and the loops over quotient units. */
module LongDivision {
  import opened Arith
  import opened BaseBillion
  import opened Words

  // ---- subtraction of a multiple of the divisor ----

  /** Splits a product plus carry into a unit and the carry out of it, without dividing. */
  method SplitUnit(sub: nat) returns (lo: nat, carry: nat)
    requires sub < 2_000_000_000_000_000_000
    ensures sub == lo + 1_000_000_000 * carry && lo < 1_000_000_000
  {
    if sub < 1_000_000_000 {
      lo, carry := sub, 0;
    } else {
      hide Shr29, HighWord;
      ReciprocalEstimate29(sub, Shr29(sub), HighWord(Shr29(sub) * 2305843009));
      var hop := Low32(Shr29(sub));
      carry := Low32(HighWord(hop * 2305843009));
      Low32Difference(sub, carry * 1_000_000_000);
      lo := Low32(sub);
      lo := Low32(lo - Low32(carry * 1_000_000_000));
      if lo >= 1_000_000_000 {
        lo := lo - 1_000_000_000;
        carry := carry + 1;
      }
    }
  }

  /** One unit of the subtraction: what is left, and the borrow included in the carry. */
  method SubtractUnit(ua: nat, ud: nat, m: nat, carry: nat) returns (r: nat, carry': nat)
    requires ua < 1_000_000_000 && ud < 1_000_000_000 && 1 <= m < 1_000_000_000 && carry <= m
    ensures r < 1_000_000_000 && carry' <= m
    ensures Prod(m, ud) + carry + r == ua + 1_000_000_000 * carry'
  {
    UnitProductBound(m, ud);
    var p := m * ud;
    assert Prod(m, ud) == p;
    hide Prod;
    var lo;
    lo, carry' := SplitUnit(p + carry);
    r := ua;
    if lo > r {
      r := r + 1_000_000_000;
      carry' := carry' + 1;
    }
    r := r - lo;
  }

  lemma UnitProductBound(m: nat, ud: nat)
    requires ud < 1_000_000_000
    ensures m * ud <= 1_000_000_000 * m - m
  {
    MulMono(ud, 999_999_999, m);
  }

  lemma SubtractStep(S: nat, T: nat, D: nat, s: nat, t: nat, d: nat, m: nat, carry: nat, carry': nat, i: nat)
    requires S + Raise(carry, i) == T + Prod(m, D)
    requires Prod(m, d) + carry + t == s + 1_000_000_000 * carry'
    ensures S + Raise(s, i) + Raise(carry', i + 1) == T + Raise(t, i) + Prod(m, D + Raise(d, i))
  {
    hide Raise, Prod;
    RaiseProd(m, d, i);
    RaiseSum(Prod(m, d), carry, i);
    RaiseSum(Prod(m, d) + carry, t, i);
    RaiseStep(carry', i);
    RaiseSum(s, 1_000_000_000 * carry', i);
    ProdLaws(D, Raise(d, i), m);
  }

  lemma SubtractPrefix(s: seq<nat>, t: seq<nat>, t': seq<nat>, d: seq<nat>, m: nat, carry: nat, carry': nat, i: nat)
    requires i < |s| == |t| == |t'| && i < |d|
    requires t'[..i] == t[..i]
    requires Num(s[..i]) + Raise(carry, i) == Num(t[..i]) + Prod(m, Num(d[..i]))
    requires Prod(m, d[i]) + carry + t'[i] == s[i] + 1_000_000_000 * carry'
    ensures Num(s[..i + 1]) + Raise(carry', i + 1) == Num(t'[..i + 1]) + Prod(m, Num(d[..i + 1]))
  {
    hide Raise, Prod, Num;
    assert s[..i + 1][..i] == s[..i] && t'[..i + 1][..i] == t'[..i] && d[..i + 1][..i] == d[..i];
    NumTop(s[..i + 1]);
    NumTop(t'[..i + 1]);
    NumTop(d[..i + 1]);
    SubtractStep(Num(s[..i]), Num(t[..i]), Num(d[..i]), s[i], t'[i], d[i], m, carry, carry', i);
  }

  /** acc - m * div, unit by unit; the caller knows that it does not go below zero. */
  method SubtractMultiple(acc: array<nat>, lsua: nat, accunits: nat, div: array<nat>, divunits: nat, m: nat)
    requires acc != div && lsua + accunits <= acc.Length
    requires 1 <= divunits <= div.Length && divunits <= accunits <= divunits + 1
    requires Units(acc[lsua..lsua + accunits]) && Units(div[..divunits]) && 1 <= m < 1_000_000_000
    requires Prod(m, Num(div[..divunits])) <= Num(acc[lsua..lsua + accunits])
    modifies acc
    ensures forall k: nat :: k < acc.Length && !(lsua <= k < lsua + accunits) ==> acc[k] == old(acc[k])
    ensures Units(acc[lsua..lsua + accunits])
    ensures Num(acc[lsua..lsua + accunits]) + Prod(m, Num(div[..divunits]))
         == old(Num(acc[lsua..lsua + accunits]))
  {
    hide Num, Raise, Prod;
    ghost var s, d := acc[lsua..lsua + accunits], div[..divunits];
    var carry: nat := 0;
    var i: nat := 0;
    PrefixesEmpty(m);
    while i < divunits
      invariant 0 <= i <= divunits && carry <= m
      invariant forall k: nat :: k < acc.Length && !(lsua <= k < lsua + i) ==> acc[k] == old(acc[k])
      invariant Units(acc[lsua..lsua + accunits])
      invariant Num(s[..i]) + Raise(carry, i) == Num(acc[lsua..lsua + accunits][..i]) + Prod(m, Num(d[..i]))
    {
      ghost var t, c := acc[lsua..lsua + accunits], carry;
      assert t[i] == s[i] && d[i] < 1_000_000_000;
      acc[lsua + i], carry := SubtractUnit(acc[lsua + i], div[i], m, carry);
      assert acc[lsua..lsua + accunits] == t[i := acc[lsua + i]];
      SubtractPrefix(s, t, acc[lsua..lsua + accunits], d, m, c, carry, i);
      i := i + 1;
    }
    ghost var t := acc[lsua..lsua + accunits];
    assert d[..divunits] == d;
    FinalCarry(s, t, carry, Prod(m, Num(d)), divunits);
    if carry > 0 {
      acc[lsua + divunits] := acc[lsua + divunits] - carry;
      assert acc[lsua..lsua + accunits] == t[..divunits] + [t[divunits] - carry];
      assert t == t[..divunits] + [t[divunits]];
      TakeCarry(t[..divunits], t[divunits], carry);
    } else {
      RaiseZero(divunits);
    }
  }

  lemma PrefixesEmpty(m: nat)
    ensures Num([]) == 0 && Raise(0, 0) == 0 && Prod(m, 0) == 0
  {
  }

  /** There is no borrow out of the top. */
  lemma FinalCarry(s: seq<nat>, t: seq<nat>, carry: nat, p: nat, n: nat)
    requires 1 <= n <= |s| == |t| <= n + 1 && Units(t) && t[n..] == s[n..] && p <= Num(s)
    requires Num(s[..n]) + Raise(carry, n) == Num(t[..n]) + p
    ensures carry > 0 ==> |s| == n + 1 && t[n] >= carry
    ensures Num(t) + p == Num(s) + Raise(carry, n)
  {
    hide Num, Raise;
    NumBound(t[..n]);
    if |s| == n {
      assert s[..n] == s && t[..n] == t;
      if carry > 0 {
        RaiseMono(1, carry, n);
        assert false;
      }
    } else {
      assert s[..|s| - 1] == s[..n] && t[..|s| - 1] == t[..n] && s[n] == s[n..][0] == t[n];
      NumTop(s);
      NumTop(t);
      RaiseSum(t[n], 1, n);
      RaiseMono(carry, t[n] + 1, n);
    }
  }

  lemma TakeCarry(t: seq<nat>, top: nat, carry: nat)
    requires carry <= top
    ensures Num(t + [top - carry]) + Raise(carry, |t|) == Num(t + [top])
  {
    hide Num, Raise;
    NumConcat(t, [top - carry]);
    NumConcat(t, [top]);
    NumSingle(top - carry);
    NumSingle(top);
    RaiseSum(top - carry, carry, |t|);
  }

  // ---- multiplier estimates ----

  /** Four times the top unit of the divisor, two more bits from the next unit, rounded up. */
  method DivTop(div: array<nat>, divunits: nat) returns (divtop: nat)
    requires 1 <= divunits <= div.Length && Units(div[..divunits]) && div[divunits - 1] > 0
    ensures 4 <= divtop && 4 * Num(div[..divunits]) <= Raise(divtop, divunits - 1)
  {
    hide Num, Raise;
    ghost var s := div[..divunits];
    var msu := div[divunits - 1];
    divtop := 4 * msu;
    assert s[divunits - 1] == msu;
    if divunits > 1 {
      var um := divunits - 2;
      var d := div[um];
      assert s[um] == d;
      if d >= 750_000_000 {
        divtop, d := divtop + 3, d - 750_000_000;
      } else if d >= 500_000_000 {
        divtop, d := divtop + 2, d - 500_000_000;
      } else if d >= 250_000_000 {
        divtop, d := divtop + 1, d - 250_000_000;
      }
      ghost var q := divtop - 4 * msu;
      assert 4 * s[um] == 1_000_000_000 * q + 4 * d && d < 250_000_000;
      var more := d != 0;
      if !more {
        more := AnyNonZero(div, um);
      }
      if more {
        divtop := divtop + 1;
      }
      assert s[..um] == div[..um];
      TopBound(s, divtop - 4 * msu, more);
    } else {
      TopBoundSingle(s);
    }
  }

  method AnyNonZero(div: array<nat>, n: nat) returns (found: bool)
    requires n <= div.Length
    ensures !found ==> Num(div[..n]) == 0
  {
    hide Num;
    var i := n - 1;
    while i >= 0
      invariant -1 <= i < n
      invariant forall k: nat :: i < k < n ==> div[k] == 0
    {
      if div[i] != 0 {
        return true;
      }
      i := i - 1;
    }
    NumZeros(div[..n]);
    return false;
  }

  lemma TopBoundSingle(s: seq<nat>)
    requires |s| == 1
    ensures 4 * Num(s) <= Raise(4 * s[0], 0)
  {
    assert s == [s[0]];
    NumSingle(s[0]);
  }

  lemma RaiseFour(a: nat, k: nat)
    ensures Raise(4 * a, k) == 4 * Raise(a, k)
  {
    hide Raise;
    RaiseSum(a, a, k);
    RaiseSum(2 * a, 2 * a, k);
  }

  lemma TopBound(s: seq<nat>, x: nat, more: bool)
    requires |s| >= 2 && Units(s)
    requires if more then 4 * s[|s| - 2] + 4 <= 1_000_000_000 * x
             else Num(s[..|s| - 2]) == 0 && 4 * s[|s| - 2] <= 1_000_000_000 * x
    ensures 4 * Num(s) <= Raise(4 * s[|s| - 1] + x, |s| - 1)
  {
    hide Num, Raise;
    var j := |s| - 2;
    var low := s[..j];
    assert s[..j + 1][..j] == low && s[..j + 1][j] == s[j];
    NumTop(s);
    NumTop(s[..j + 1]);
    NumBound(low);
    RaiseFour(s[j + 1], j + 1);
    RaiseFour(s[j], j);
    RaiseFour(1, j);
    RaiseSum(4 * s[j], 4, j);
    RaiseSum(4 * s[j + 1], x, j + 1);
    RaiseStep(x, j);
    if more {
      RaiseMono(4 * s[j] + 4, 1_000_000_000 * x, j);
    } else {
      RaiseMono(4 * s[j], 1_000_000_000 * x, j);
    }
  }

  /** A quotient that proofs keep folded. */
  function Quotient(a: nat, b: nat): nat
    requires b > 0
  {
    a / b
  }

  /** An estimate from below: est * den <= num, with the divisor at most den and the dividend at
      least num at the same scale. */
  lemma EstimateSafe(est: nat, num: nat, den: nat, j: nat, W: nat, D: nat)
    requires den > 0 && est == Quotient(num, den)
    requires D <= Raise(den, j) && Raise(num, j) <= W
    ensures Prod(est, D) <= W
  {
    assert Prod(est, den) <= num by { FloorTimes(num, den); }
    hide Prod, Raise;
    ProdMono(D, Raise(den, j), est);
    RaiseProd(est, den, j);
    RaiseMono(Prod(est, den), num, j);
  }

  lemma FloorTimes(num: nat, den: nat)
    requires den > 0
    ensures Prod(Quotient(num, den), den) <= num
  {
  }

  lemma TopTwo(s: seq<nat>)
    requires |s| >= 2 && Units(s)
    ensures var n := |s| - 2; var top := s[n + 1] * 1_000_000_000 + s[n];
            && Raise(top, n) <= Num(s) < Raise(top + 1, n)
            && (n == 0 ==> Num(s) == top)
  {
    hide Num, Raise;
    var n := |s| - 2;
    assert s[..n + 1][..n] == s[..n];
    NumTop(s);
    NumTop(s[..n + 1]);
    NumBound(s[..n]);
    var top := s[n + 1] * 1_000_000_000 + s[n];
    RaiseStep(s[n + 1], n);
    RaiseSum(1_000_000_000 * s[n + 1], s[n], n);
    RaiseSum(top, 1, n);
    if n == 0 {
      assert s[..0] == [];
      NumSingle(0);
      RaiseOfZero(top);
    }
  }

  lemma RaiseOfZero(a: nat)
    ensures Raise(a, 0) == a
  {
  }

  lemma TopThree(s: seq<nat>)
    requires |s| >= 3 && Units(s)
    ensures var n := |s| - 3;
            Raise(s[n + 2] * 1_000_000_000_000_000_000 + s[n + 1] * 1_000_000_000 + s[n], n) <= Num(s)
  {
    hide Num, Raise;
    var n := |s| - 3;
    var two := s[n + 2] * 1_000_000_000 + s[n + 1];
    TopTwo(s[1..]);
    NumTopThree(s, two);
  }

  lemma NumTopThree(s: seq<nat>, two: nat)
    requires |s| >= 3 && two == s[|s| - 1] * 1_000_000_000 + s[|s| - 2]
    ensures Raise(two * 1_000_000_000 + s[|s| - 3], |s| - 3) <= Num(s)
  {
    hide Num, Raise;
    var n := |s| - 3;
    assert s[..n + 2][..n + 1] == s[..n + 1] && s[..n + 1][..n] == s[..n];
    NumTop(s);
    NumTop(s[..n + 2]);
    NumTop(s[..n + 1]);
    RaiseStep(s[n + 2], n + 1);
    RaiseSum(1_000_000_000 * s[n + 2], s[n + 1], n + 1);
    RaiseStep(two, n);
    RaiseSum(1_000_000_000 * two, s[n], n);
  }

  /** Accumulator and divisor of equal length: from the top two units of both. */
  method EstimateEqual(acc: array<nat>, lsua: nat, div: array<nat>, divunits: nat) returns (multiplier: nat)
    requires 1 <= divunits <= div.Length && lsua + divunits <= acc.Length
    requires Units(acc[lsua..lsua + divunits]) && Units(div[..divunits]) && div[divunits - 1] > 0
    ensures Prod(multiplier, Num(div[..divunits])) <= Num(acc[lsua..lsua + divunits])
  {
    hide Num, Raise, Prod, Quotient;
    var msua := lsua + divunits - 1;
    ghost var s, d := acc[lsua..lsua + divunits], div[..divunits];
    if divunits > 1 {
      var n := divunits - 2;
      var mul := acc[msua] * 1_000_000_000 + acc[msua - 1];
      var dv := div[divunits - 1] * 1_000_000_000 + div[divunits - 2];
      if divunits > 2 {
        dv := dv + 1;
      }
      TopTwo(s);
      TopTwo(d);
      RaiseOfZero(dv);
      assert s[n + 1] == acc[msua] && s[n] == acc[msua - 1] && d[n + 1] == div[n + 1] && d[n] == div[n];
      EstimateSafe(Quotient(mul, dv), mul, dv, n, Num(s), Num(d));
      multiplier := Quotient(mul, dv);
    } else {
      assert s == [acc[msua]] && d == [div[0]];
      NumSingle(acc[msua]);
      NumSingle(div[0]);
      RaiseOfZero(acc[msua]);
      RaiseOfZero(div[0]);
      EstimateSafe(Quotient(acc[msua], div[0]), acc[msua], div[0], 0, Num(s), Num(d));
      multiplier := Quotient(acc[msua], div[0]);
    }
  }

  /** Accumulator one unit longer than the divisor. The product in the second case is formed in 32
      bits and may wrap, which only makes the estimate lower. */
  method EstimateLonger(acc: array<nat>, lsua: nat, div: array<nat>, divunits: nat, divtop: nat)
    returns (multiplier: nat)
    requires 1 <= divunits <= div.Length && lsua + divunits + 1 <= acc.Length
    requires Units(acc[lsua..lsua + divunits + 1]) && Units(div[..divunits]) && div[divunits - 1] > 0
    requires divtop >= 4 && 4 * Num(div[..divunits]) <= Raise(divtop, divunits - 1)
    ensures Prod(multiplier, Num(div[..divunits])) <= Num(acc[lsua..lsua + divunits + 1])
  {
    hide Num, Raise, Prod, Quotient;
    var msua := lsua + divunits;
    if divunits > 1 && acc[msua] < 1_000_000 && div[divunits - 1] < 1_000_000 {
      multiplier := EstimateSmall(acc, lsua, div, divunits);
    } else if divunits == 1 {
      ghost var s, d := acc[lsua..lsua + 2], div[..1];
      assert s[1] == acc[msua] && s[0] == acc[msua - 1] && d == [div[0]];
      TopTwo(s);
      NumSingle(div[0]);
      var mul := acc[msua] * 1_000_000_000 + acc[msua - 1];
      RaiseOfZero(mul);
      RaiseOfZero(div[0]);
      EstimateSafe(Quotient(mul, div[0]), mul, div[0], 0, Num(s), Num(d));
      multiplier := Quotient(mul, div[0]);
    } else {
      multiplier := EstimateByTop(acc, lsua, div, divunits, divtop);
    }
  }

  method EstimateByTop(acc: array<nat>, lsua: nat, div: array<nat>, divunits: nat, divtop: nat)
    returns (multiplier: nat)
    requires 1 <= divunits <= div.Length && lsua + divunits + 1 <= acc.Length
    requires Units(acc[lsua..lsua + divunits + 1])
    requires divtop >= 4 && 4 * Num(div[..divunits]) <= Raise(divtop, divunits - 1)
    ensures Prod(multiplier, Num(div[..divunits])) <= Num(acc[lsua..lsua + divunits + 1])
  {
    hide Num, Raise, Prod, Quotient;
    var msua := lsua + divunits;
    ghost var s, d := acc[lsua..lsua + divunits + 1], div[..divunits];
    var mul := acc[msua] * 4_000_000_000 + Low32(acc[msua - 1] * 4);
    multiplier := Quotient(mul, divtop);
    assert s[divunits] == acc[msua] && s[divunits - 1] == acc[msua - 1];
    TopTwo(s);
    RaiseFour(s[divunits] * 1_000_000_000 + s[divunits - 1], divunits - 1);
    EstimateSafe(multiplier, mul, divtop, divunits - 1, 4 * Num(s), 4 * Num(d));
    ProdFour(multiplier, Num(d));
  }

  lemma ProdFour(a: nat, b: nat)
    ensures Prod(a, 4 * b) == 4 * Prod(a, b)
  {
  }

  method EstimateSmall(acc: array<nat>, lsua: nat, div: array<nat>, divunits: nat) returns (multiplier: nat)
    requires 2 <= divunits <= div.Length && lsua + divunits + 1 <= acc.Length
    requires Units(acc[lsua..lsua + divunits + 1]) && Units(div[..divunits])
    requires acc[lsua + divunits] < 1_000_000 && div[divunits - 1] < 1_000_000
    ensures Prod(multiplier, Num(div[..divunits])) <= Num(acc[lsua..lsua + divunits + 1])
  {
    hide Num, Raise, Prod, Quotient;
    var msua := lsua + divunits;
    var n := divunits - 2;
    ghost var s, d := acc[lsua..lsua + divunits + 1], div[..divunits];
    var mul := acc[msua] * 1_000_000_000_000 + Low32(acc[msua - 1] * 1_000) + acc[msua - 2] / 1_000_000;
    var dv := Low32(div[divunits - 1] * 1_000 + div[divunits - 2] / 1_000_000 + 1);
    multiplier := Quotient(mul, dv);
    assert s[n + 2] == acc[msua] && s[n + 1] == acc[msua - 1] && s[n] == acc[msua - 2];
    assert d[n + 1] == div[n + 1] && d[n] == div[n];
    TopThree(s);
    TopTwo(d);
    SmallScale(s, d, mul, dv, n);
    EstimateSafeMillion(multiplier, mul, dv, n, Num(s), Num(d));
  }

  lemma EstimateSafeMillion(est: nat, num: nat, den: nat, j: nat, W: nat, D: nat)
    requires den > 0 && est == Quotient(num, den)
    requires D <= Raise(1_000_000 * den, j) && Raise(1_000_000 * num, j) <= W
    ensures Prod(est, D) <= W
  {
    assert Prod(est, 1_000_000 * den) <= 1_000_000 * num by {
      FloorTimes(num, den);
      ProdMillion(est, den);
    }
    hide Prod, Raise;
    ProdMono(D, Raise(1_000_000 * den, j), est);
    RaiseProd(est, 1_000_000 * den, j);
    RaiseMono(Prod(est, 1_000_000 * den), 1_000_000 * num, j);
  }

  lemma ProdMillion(a: nat, b: nat)
    ensures Prod(a, 1_000_000 * b) == 1_000_000 * Prod(a, b)
  {
  }

  lemma SmallScale(s: seq<nat>, d: seq<nat>, mul: nat, dv: nat, n: nat)
    requires |s| == n + 3 && |d| == n + 2 && Units(s) && Units(d) && d[n + 1] < 1_000_000
    requires mul == s[n + 2] * 1_000_000_000_000 + Low32(s[n + 1] * 1_000) + s[n] / 1_000_000
    requires dv == Low32(d[n + 1] * 1_000 + d[n] / 1_000_000 + 1)
    ensures dv > 0
    ensures Raise(1_000_000 * mul, n)
         <= Raise(s[n + 2] * 1_000_000_000_000_000_000 + s[n + 1] * 1_000_000_000 + s[n], n)
    ensures Raise(d[n + 1] * 1_000_000_000 + d[n] + 1, n) <= Raise(1_000_000 * dv, n)
  {
    hide Raise;
    LowerByWrap(s[n + 1] * 1_000);
    RaiseMono(1_000_000 * mul, s[n + 2] * 1_000_000_000_000_000_000 + s[n + 1] * 1_000_000_000 + s[n], n);
    RaiseMono(d[n + 1] * 1_000_000_000 + d[n] + 1, 1_000_000 * dv, n);
  }

  lemma LowerByWrap(x: nat)
    ensures Low32(x) <= x
  {
  }

  // ---- quotient units ----

  /** Drops leading zero units of the accumulator; m is lsua - 1 when nothing is left. */
  method StripZeros(acc: array<nat>, lsua: nat, msua: nat) returns (m: int)
    requires lsua <= msua < acc.Length
    ensures lsua - 1 <= m <= msua
    ensures m >= lsua ==> acc[m] != 0
    ensures forall k: nat :: m < k <= msua ==> acc[k] == 0
    ensures Num(acc[lsua..m + 1]) == Num(acc[lsua..msua + 1])
  {
    hide Num;
    m := msua;
    while m >= lsua && acc[m] == 0
      invariant lsua - 1 <= m <= msua
      invariant forall k: nat :: m < k <= msua ==> acc[k] == 0
      invariant Num(acc[lsua..m + 1]) == Num(acc[lsua..msua + 1])
    {
      ghost var s := acc[lsua..m + 1];
      NumZeroTop(s);
      assert s[..|s| - 1] == acc[lsua..m];
      m := m - 1;
    }
  }

  /** The highest place where accumulator and divisor differ, or the lowest place. */
  method FirstMismatch(acc: array<nat>, lsua: nat, div: array<nat>, divunits: nat) returns (i: nat)
    requires 1 <= divunits <= div.Length && lsua + divunits <= acc.Length
    ensures i < divunits && acc[lsua + i + 1..lsua + divunits] == div[i + 1..divunits]
    ensures i == 0 || acc[lsua + i] != div[i]
  {
    i := divunits - 1;
    while i > 0 && div[i] == acc[lsua + i]
      invariant i < divunits
      invariant forall k: nat :: i < k < divunits ==> acc[lsua + k] == div[k]
    {
      i := i - 1;
    }
  }

  /** Compares equally long accumulator and divisor: negative, zero or positive. */
  method Compare(acc: array<nat>, lsua: nat, div: array<nat>, divunits: nat) returns (c: int)
    requires 1 <= divunits <= div.Length && lsua + divunits <= acc.Length
    requires Units(acc[lsua..lsua + divunits]) && Units(div[..divunits])
    ensures c < 0 <==> Num(acc[lsua..lsua + divunits]) < Num(div[..divunits])
    ensures c == 0 <==> Num(acc[lsua..lsua + divunits]) == Num(div[..divunits])
  {
    hide Num;
    var i := FirstMismatch(acc, lsua, div, divunits);
    ghost var s, d := acc[lsua..lsua + divunits], div[..divunits];
    assert s[i] == acc[lsua + i] && d[i] == div[i];
    assert s[i + 1..] == acc[lsua + i + 1..lsua + divunits] && d[i + 1..] == div[i + 1..divunits];
    if div[i] > acc[lsua + i] {
      NumCompare(s, d, i);
      return -1;
    } else if div[i] == acc[lsua + i] {
      assert s == [s[0]] + s[1..] && d == [d[0]] + d[1..];
      return 0;
    } else {
      NumCompare(d, s, i);
      return 1;
    }
  }

  /** A dividend below 10^9 times the divisor has at most one unit more. */
  lemma AtMostOneLonger(s: seq<nat>, d: seq<nat>)
    requires |s| >= 1 && s[|s| - 1] > 0 && Units(d) && Num(s) < 1_000_000_000 * Num(d)
    ensures |s| <= |d| + 1
  {
    hide Num, Raise;
    NumLeading(s);
    NumBound(d);
    RaiseStep(1, |d|);
    if |s| > |d| + 1 {
      RaiseGrows(|d| + 1, |s| - 1);
    }
  }

  /** A longer accumulator is never below the divisor. */
  lemma LongerIsGreater(s: seq<nat>, d: seq<nat>)
    requires |s| > |d| && s[|s| - 1] > 0 && Units(d)
    ensures Num(s) > Num(d)
  {
    hide Num, Raise;
    NumLeading(s);
    NumBound(d);
    RaiseGrows(|d|, |s| - 1);
  }

  lemma ShorterIsLess(s: seq<nat>, d: seq<nat>)
    requires |s| < |d| && d[|d| - 1] > 0 && Units(s)
    ensures Num(s) < Num(d)
  {
    LongerIsGreater(d, s);
  }

  /** One multiplier: at least one, never too much. */
  method Estimate(acc: array<nat>, lsua: nat, accunits: nat, div: array<nat>, divunits: nat, divtop: nat)
    returns (multiplier: nat)
    requires 1 <= divunits <= div.Length && divunits <= accunits <= divunits + 1 && lsua + accunits <= acc.Length
    requires Units(acc[lsua..lsua + accunits]) && Units(div[..divunits]) && div[divunits - 1] > 0
    requires divtop >= 4 && 4 * Num(div[..divunits]) <= Raise(divtop, divunits - 1)
    requires Num(div[..divunits]) <= Num(acc[lsua..lsua + accunits]) < 1_000_000_000 * Num(div[..divunits])
    ensures 1 <= multiplier < 1_000_000_000
    ensures Prod(multiplier, Num(div[..divunits])) <= Num(acc[lsua..lsua + accunits])
  {
    hide Num, Raise, Prod;
    if accunits == divunits {
      multiplier := EstimateEqual(acc, lsua, div, divunits);
    } else {
      multiplier := EstimateLonger(acc, lsua, div, divunits, divtop);
    }
    if multiplier == 0 {
      multiplier := 1;
    }
    ProdLaws(0, 0, Num(div[..divunits]));
    MultiplierBelowBase(multiplier, Num(div[..divunits]), Num(acc[lsua..lsua + accunits]));
  }

  lemma MultiplierBelowBase(m: nat, D: nat, W: nat)
    requires Prod(m, D) <= W < 1_000_000_000 * D
    ensures m < 1_000_000_000
  {
    if m >= 1_000_000_000 {
      ProdMono(1_000_000_000, m, D);
    }
  }

  /** The divisor as set up before the loops: its units, the highest of them not zero, and the
      estimator divtop. */
  ghost predicate Divisor(div: array<nat>, divunits: nat, divtop: nat)
    reads div
  {
    && 1 <= divunits <= div.Length && Units(div[..divunits]) && div[divunits - 1] > 0
    && divtop >= 4 && 4 * Num(div[..divunits]) <= Raise(divtop, divunits - 1)
  }

  /** One pass of the inner loop after a non-negative comparison: subtracts a multiple. */
  method Reduce(acc: array<nat>, lsua: nat, msua: nat, div: array<nat>, divunits: nat, divtop: nat)
    returns (multiplier: nat)
    requires acc != div && Divisor(div, divunits, divtop)
    requires lsua <= msua < acc.Length && Units(acc[lsua..msua + 1]) && acc[msua] > 0
    requires divunits <= msua + 1 - lsua
    requires Num(div[..divunits]) <= Num(acc[lsua..msua + 1]) < 1_000_000_000 * Num(div[..divunits])
    modifies acc
    ensures multiplier >= 1
    ensures Units(acc[lsua..msua + 1])
    ensures Num(acc[lsua..msua + 1]) + Prod(multiplier, Num(div[..divunits])) == old(Num(acc[lsua..msua + 1]))
    ensures forall k: nat :: k < acc.Length && !(lsua <= k <= msua) ==> acc[k] == old(acc[k])
  {
    hide Num, Raise, Prod;
    var accunits := msua + 1 - lsua;
    AtMostOneLonger(acc[lsua..msua + 1], div[..divunits]);
    assert acc[lsua..lsua + accunits] == acc[lsua..msua + 1];
    multiplier := Estimate(acc, lsua, accunits, div, divunits, divtop);
    SubtractMultiple(acc, lsua, accunits, div, divunits, multiplier);
    assert acc[lsua..lsua + accunits] == acc[lsua..msua + 1];
  }

  /** What the inner loop decides before each subtraction. */
  datatype Step = TooSmall | Same | Subtract

  method Decide(acc: array<nat>, lsua: nat, m: int, div: array<nat>, divunits: nat, ghost divtop: nat)
    returns (step: Step)
    requires Divisor(div, divunits, divtop)
    requires lsua - 1 <= m < acc.Length && Units(acc[lsua..m + 1]) && (m >= lsua ==> acc[m] > 0)
    ensures step == TooSmall <==> Num(acc[lsua..m + 1]) < Num(div[..divunits])
    ensures step == Same <==> Num(acc[lsua..m + 1]) == Num(div[..divunits])
    ensures step != TooSmall ==> divunits <= m + 1 - lsua
  {
    hide Num, Raise;
    var accunits := m + 1 - lsua;
    if accunits < divunits {
      ShorterIsLess(acc[lsua..m + 1], div[..divunits]);
      return TooSmall;
    }
    if accunits == divunits {
      assert acc[lsua..lsua + divunits] == acc[lsua..m + 1];
      var c := Compare(acc, lsua, div, divunits);
      return if c < 0 then TooSmall else if c == 0 then Same else Subtract;
    }
    LongerIsGreater(acc[lsua..m + 1], div[..divunits]);
    return Subtract;
  }

  /** The inner loop: one quotient unit. The accumulator is reduced below the divisor, in place, and
      what was taken off is the unit times the divisor. */
  method QuotientUnit(acc: array<nat>, lsua: nat, msua0: nat, div: array<nat>, divunits: nat, divtop: nat)
    returns (unit: nat, msua: nat)
    requires acc != div && Divisor(div, divunits, divtop)
    requires lsua <= msua0 < acc.Length && Units(acc[lsua..msua0 + 1])
    requires Num(acc[lsua..msua0 + 1]) < 1_000_000_000 * Num(div[..divunits])
    modifies acc
    ensures lsua <= msua <= msua0 && Units(acc[lsua..msua + 1])
    ensures Prod(unit, Num(div[..divunits])) + Num(acc[lsua..msua + 1]) == old(Num(acc[lsua..msua0 + 1]))
    ensures Num(acc[lsua..msua + 1]) < Num(div[..divunits]) && unit < 1_000_000_000
    ensures acc[msua] == 0 <==> Num(acc[lsua..msua + 1]) == 0
    ensures acc[msua] == 0 ==> msua == lsua
    ensures forall k: nat :: k < acc.Length && !(lsua <= k <= msua0) ==> acc[k] == old(acc[k])
  {
    hide Num, Raise, Prod, Units, Divisor;
    DivisorPositive(div, divunits, divtop);
    ghost var D := Num(div[..divunits]);
    unit, msua := 0, msua0;
    ProdLaws(0, 0, D);
    while true
      invariant 1 <= divunits <= div.Length
      invariant lsua <= msua <= msua0 && Units(acc[lsua..msua + 1]) && Divisor(div, divunits, divtop)
      invariant D == Num(div[..divunits])
      invariant Prod(unit, D) + Num(acc[lsua..msua + 1]) == old(Num(acc[lsua..msua0 + 1]))
      invariant forall k: nat :: k < acc.Length && !(lsua <= k <= msua0) ==> acc[k] == old(acc[k])
      decreases Num(acc[lsua..msua + 1])
    {
      var m := StripZeros(acc, lsua, msua);
      UnitsPrefix(acc[lsua..msua + 1], acc[lsua..m + 1]);
      var step := Decide(acc, lsua, m, div, divunits, divtop);
      if step == TooSmall {
        msua := if m < lsua then lsua else m;
        Restored(acc, lsua, msua, m);
        break;
      }
      msua := m;
      if step == Same {
        unit := unit + 1;
        ProdLaws(unit - 1, 1, D);
        msua := lsua;
        acc[msua] := 0;
        Restored(acc, lsua, msua, m);
        break;
      }
      ghost var W := Num(acc[lsua..msua + 1]);
      var multiplier := Reduce(acc, lsua, msua, div, divunits, divtop);
      ProdLaws(unit, multiplier, D);
      ProdLaws(0, 0, D);
      ProdMono(1, multiplier, D);
      unit := unit + multiplier;
    }
    MultiplierBelowBase(unit, D, old(Num(acc[lsua..msua0 + 1])));
  }

  lemma DivisorPositive(div: array<nat>, divunits: nat, divtop: nat)
    requires Divisor(div, divunits, divtop)
    ensures 1 <= divunits <= div.Length && Num(div[..divunits]) > 0
  {
    NumLeading(div[..divunits]);
  }

  lemma UnitsPrefix(s: seq<nat>, t: seq<nat>)
    requires Units(s) && t <= s
    ensures Units(t)
  {
  }

  /** The accumulator when nothing, or a single zero unit, is left of it. */
  lemma Restored(acc: array<nat>, lsua: nat, msua: nat, m: int)
    requires lsua <= msua < acc.Length && (msua == m || msua == lsua)
    requires (m >= lsua && msua == m && acc[msua] != 0) || (acc[msua] == 0 && msua == lsua)
    ensures acc[msua] == 0 ==> Num(acc[lsua..msua + 1]) == 0 && Units(acc[lsua..msua + 1])
    ensures acc[msua] != 0 ==> Num(acc[lsua..msua + 1]) > 0
    ensures Num(acc[lsua..lsua]) == 0
  {
    if acc[msua] == 0 {
      assert acc[lsua..msua + 1] == [0];
      NumSingle(0);
    } else {
      NumLeading(acc[lsua..msua + 1]);
    }
  }
}
