/** Small facts about natural arithmetic that the solver does not find by itself. */
module Arith {

  lemma MulMono(a: int, b: int, c: int)
    requires a <= b && 0 <= c
    ensures a * c <= b * c
  {
  }

  lemma MulStrict(a: int, b: int, c: int)
    requires a < b && 0 < c
    ensures a * c < b * c
  {
  }

  /** Quotient and remainder are the only numbers that fit their equation. */
  lemma DivModUnique(a: int, d: int, q: int, r: int)
    requires 0 <= r < d && a == d * q + r
    ensures a / d == q && a % d == r
  {
    var e := a / d - q;
    assert d * e == d * (a / d) - d * q;
    assert d * e == r - a % d;
    if e >= 1 {
      MulMono(1, e, d);
      assert false;
    }
    if e <= -1 {
      MulMono(e, -1, d);
      assert false;
    }
  }

  function Pow10(k: nat): (p: nat)
    ensures p >= 1
  {
    if k == 0 then 1 else 10 * Pow10(k - 1)
  }

  lemma {:induction false} Pow10Add(j: nat, k: nat)
    ensures Pow10(j + k) == Pow10(j) * Pow10(k)
  {
    if j > 0 {
      Pow10Add(j - 1, k);
    }
  }

  lemma {:induction false} Pow10Mono(j: nat, k: nat)
    requires j <= k
    ensures Pow10(j) <= Pow10(k)
  {
    if j < k {
      Pow10Mono(j, k - 1);
    }
  }

  lemma Pow10Strict(j: nat, k: nat)
    requires j < k
    ensures Pow10(j) < Pow10(k)
  {
    Pow10Mono(j + 1, k);
  }

  lemma {:induction false} Pow10Exceeds(k: nat)
    ensures Pow10(k) > k
  {
    if k > 0 {
      Pow10Exceeds(k - 1);
    }
  }

  /** c followed by k zeros. */
  function Shift(c: nat, k: nat): nat
    decreases k, c
  {
    if k == 0 then c else 10 * Shift(c, k - 1)
  }

  /** c without its last k digits. */
  function High(c: nat, k: nat): nat
    decreases k, c
  {
    if k == 0 then c else High(c / 10, k - 1)
  }

  /** The last k digits of c. */
  function Low(c: nat, k: nat): nat
    decreases k, c
  {
    if k == 0 then 0 else 10 * Low(c / 10, k - 1) + c % 10
  }

  lemma {:induction false} HighLow(c: nat, k: nat)
    ensures c == Shift(High(c, k), k) + Low(c, k) && Low(c, k) < Pow10(k)
  {
    if k > 0 {
      HighLow(c / 10, k - 1);
    }
  }

  lemma {:induction false} HighLowUnique(c: nat, k: nat, h: nat, l: nat)
    requires c == Shift(h, k) + l && l < Pow10(k)
    ensures High(c, k) == h && Low(c, k) == l
  {
    if k > 0 {
      TensAndUnits(Shift(h, k - 1), l);
      HighLowUnique(c / 10, k - 1, h, l / 10);
    }
  }

  lemma TensAndUnits(a: nat, l: nat)
    ensures (10 * a + l) / 10 == a + l / 10 && (10 * a + l) % 10 == l % 10
  {
  }

  lemma {:induction false} ShiftMono(a: nat, b: nat, k: nat)
    ensures a < b <==> Shift(a, k) < Shift(b, k)
    ensures a <= b <==> Shift(a, k) <= Shift(b, k)
  {
    if k > 0 {
      ShiftMono(a, b, k - 1);
    }
  }

  lemma {:induction false} ShiftSum(a: nat, b: nat, k: nat)
    ensures Shift(a + b, k) == Shift(a, k) + Shift(b, k)
  {
    if k > 0 {
      ShiftSum(a, b, k - 1);
    }
  }

  lemma {:induction false} ShiftOfPow10(j: nat, k: nat)
    ensures Shift(Pow10(j), k) == Pow10(j + k)
  {
    if k > 0 {
      ShiftOfPow10(j, k - 1);
    }
  }

  lemma {:induction false} ShiftAdd(a: nat, j: nat, k: nat)
    ensures Shift(a, j + k) == Shift(Shift(a, j), k)
  {
    if k > 0 {
      ShiftAdd(a, j, k - 1);
    }
  }

  lemma {:induction false} ShiftZero(a: nat)
    ensures Shift(a, 0) == a && Shift(0, a) == 0
  {
    if a > 0 {
      ShiftZero(a - 1);
    }
  }

  lemma {:induction false} ShiftOne(a: nat, k: nat)
    ensures Shift(1, k) == Pow10(k)
    ensures k > 0 ==> Shift(a, k) == 10 * Shift(a, k - 1)
  {
    if k > 0 {
      ShiftOne(a, k - 1);
    }
  }

  /** Shifting is multiplying by a power of ten. */
  lemma {:induction false} ShiftIsProduct(a: nat, k: nat)
    ensures Shift(a, k) == a * Pow10(k)
  {
    if k > 0 {
      ShiftIsProduct(a, k - 1);
      TenTimes(a, Pow10(k - 1));
    }
  }

  lemma TenTimes(a: nat, p: nat)
    ensures a * (10 * p) == 10 * (a * p)
  {
  }

  /** Cutting keeps digit counts. */
  lemma HighBelow(c: nat, k: nat, n: nat)
    ensures c < Pow10(n + k) <==> High(c, k) < Pow10(n)
  {
    HighLow(c, k);
    ShiftOfPow10(n, k);
    hide Pow10, Shift, High, Low;
    ShiftMono(High(c, k), Pow10(n), k);
    ShiftMono(High(c, k) + 1, Pow10(n), k);
    ShiftSum(High(c, k), 1, k);
    ShiftOne(0, k);
  }

  lemma Pow10Even(k: nat)
    requires k >= 1
    ensures Pow10(k) % 2 == 0
  {
    assert Pow10(k) == 10 * Pow10(k - 1);
  }

  lemma TenTenTen(c: nat)
    ensures c / 10 / 10 / 10 == c / 1000
  {
  }
}
