/** Powers of ten as real numbers, with exponents of either sign: the scale of every decimal
    value. Products of reals go through Times so that proofs can keep them folded. */
module TenPowers {
  import opened Arith

  function Times(x: real, y: real): real {
    x * y
  }

  function Ten(e: int): (t: real)
    ensures t > 0.0
  {
    if e >= 0 then Pow10(e) as real else 1.0 / (Pow10(-e) as real)
  }

  lemma TenSucc(e: int)
    ensures Ten(e + 1) == 10.0 * Ten(e)
  {
    if e < -1 {
      assert Pow10(-e) == 10 * Pow10(-e - 1);
    } else if e == -1 {
      assert Pow10(1) == 10 * Pow10(0);
    }
  }

  lemma {:induction false} TenAddNat(a: int, b: nat)
    ensures Ten(a + b) == Times(Ten(a), Ten(b))
  {
    hide Ten, Times;
    if b == 0 {
      TenZero();
      TimesOne(Ten(a));
    } else {
      TenAddNat(a, b - 1);
      TenSucc(a + b - 1);
      TenSucc(b - 1);
      TimesTen(Ten(a), Ten(b - 1));
    }
  }

  /** Exponents add. */
  lemma TenAdd(a: int, b: int)
    ensures Ten(a + b) == Times(Ten(a), Ten(b))
  {
    hide Ten, Times;
    if b >= 0 {
      TenAddNat(a, b);
    } else {
      TenAddNat(a + b, -b);
      TenAddNat(b, -b);
      TenZero();
      TimesAssoc(Ten(a + b), Ten(-b), Ten(b));
      TimesComm(Ten(-b), Ten(b));
      TimesOne(Ten(a + b));
    }
  }

  lemma TenZero()
    ensures Ten(0) == 1.0
  {
  }

  lemma TenNat(k: nat)
    ensures Ten(k) == Pow10(k) as real
  {
  }

  lemma TenMono(a: int, b: int)
    requires a <= b
    ensures Ten(a) <= Ten(b)
    decreases b - a
  {
    if a < b {
      hide Ten;
      TenMono(a, b - 1);
      TenSucc(b - 1);
    }
  }

  lemma TenStrict(a: int, b: int)
    requires a < b
    ensures Ten(a) < Ten(b)
  {
    hide Ten;
    TenMono(a + 1, b);
    TenSucc(a);
  }

  lemma TimesOne(x: real)
    ensures Times(x, 1.0) == x == Times(1.0, x)
  {
  }

  lemma TimesTen(x: real, y: real)
    ensures Times(x, 10.0 * y) == 10.0 * Times(x, y)
  {
  }

  lemma TimesComm(x: real, y: real)
    ensures Times(x, y) == Times(y, x)
  {
  }

  lemma TimesAssoc(x: real, y: real, z: real)
    ensures Times(Times(x, y), z) == Times(x, Times(y, z))
  {
  }

  lemma TimesSum(x: real, y: real, t: real)
    ensures Times(x + y, t) == Times(x, t) + Times(y, t)
    ensures Times(x - y, t) == Times(x, t) - Times(y, t)
  {
  }

  /** Multiplying by a positive number keeps and reflects order. */
  lemma TimesOrder(x: real, y: real, t: real)
    requires t > 0.0
    ensures x < y <==> Times(x, t) < Times(y, t)
    ensures x == y <==> Times(x, t) == Times(y, t)
  {
    TimesSum(y, x, t);
    TimesSign(y - x, t);
  }

  lemma TimesSign(x: real, t: real)
    requires t > 0.0
    ensures x > 0.0 <==> Times(x, t) > 0.0
    ensures x == 0.0 <==> Times(x, t) == 0.0
  {
  }

  /** y times ten to the q. */
  function Scale(y: real, q: int): real {
    Times(y, Ten(q))
  }

  /** A coefficient times ten to the q: the value of a decimal. */
  function Scaled(c: int, q: int): real {
    Scale(c as real, q)
  }

  lemma ScaleAdd(y: real, q: int, k: int)
    ensures Scale(y, q + k) == Scale(Scale(y, k), q)
  {
    hide Ten, Times;
    TenAdd(k, q);
    TimesAssoc(y, Ten(k), Ten(q));
  }

  lemma ScaleOrder(x: real, y: real, q: int)
    ensures x < y <==> Scale(x, q) < Scale(y, q)
    ensures x == y <==> Scale(x, q) == Scale(y, q)
  {
    hide Ten, Times;
    TimesOrder(x, y, Ten(q));
  }

  lemma ScaleSum(x: real, y: real, q: int)
    ensures Scale(x + y, q) == Scale(x, q) + Scale(y, q)
    ensures Scale(x - y, q) == Scale(x, q) - Scale(y, q)
  {
    hide Ten, Times;
    TimesSum(x, y, Ten(q));
  }

  lemma ScaleZero(x: real)
    ensures Scale(x, 0) == x
  {
    hide Ten, Times;
    TenZero();
    TimesOne(x);
  }

  /** Scaling down undoes scaling up. */
  lemma ScaleInverse(x: real, q: int)
    ensures Scale(Scale(x, -q), q) == x == Scale(Scale(x, q), -q)
  {
    hide Scale;
    ScaleAdd(x, q, -q);
    ScaleAdd(x, -q, q);
    ScaleZero(x);
  }

  /** The same value at a lower exponent. */
  lemma ScaledShift(c: nat, q: int, k: nat)
    ensures Scaled(c, q + k) == Scaled(Shift(c, k), q)
  {
    hide Scale, Shift;
    ScaleAdd(c as real, q, k);
    ScaledNat(c, k);
  }

  lemma ScaledNat(c: nat, k: nat)
    ensures Scaled(c, k) == Shift(c, k) as real
  {
    hide Ten, Times, Pow10, Shift;
    TenNat(k);
    ShiftIsProduct(c, k);
    ProductAsReal(c, Pow10(k));
  }

  lemma ProductAsReal(c: int, p: int)
    ensures (c * p) as real == Times(c as real, p as real)
  {
  }

  lemma ScaledOrder(a: int, b: int, q: int)
    ensures a < b <==> Scaled(a, q) < Scaled(b, q)
    ensures a == b <==> Scaled(a, q) == Scaled(b, q)
  {
    hide Scale;
    ScaleOrder(a as real, b as real, q);
  }
}
