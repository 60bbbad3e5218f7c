/** Polynomials over GF(2), coded as naturals: bit i of the natural is the coefficient of x^i.
    This is the coding forcecrc32.c uses in its machine words; here it has no width.
    Addition is exclusive or, so every polynomial is its own negative. */
module Gf2Poly {

  function Pow2(k: nat): (p: nat)
    ensures p >= 1
  {
    if k == 0 then 1 else 2 * Pow2(k - 1)
  }

  /** Bit k of a. */
  function Bit(a: nat, k: nat): (b: nat)
    ensures b < 2
  {
    if k == 0 then a % 2 else Bit(a / 2, k - 1)
  }

  /** a shifted left by k, without a width. */
  function Shl(a: nat, k: nat): nat {
    if k == 0 then a else 2 * Shl(a, k - 1)
  }

  /** a shifted right by k. */
  function Shr(a: nat, k: nat): nat {
    if k == 0 then a else Shr(a / 2, k - 1)
  }

  /** Exclusive or of two naturals, bit by bit. */
  function Xor(a: nat, b: nat): nat
    decreases a + b
  {
    if a == 0 && b == 0 then 0 else 2 * Xor(a / 2, b / 2) + (a + b) % 2
  }

  /** Inclusive or of two naturals, bit by bit. */
  function Or(a: nat, b: nat): nat
    decreases a + b
  {
    if a == 0 && b == 0 then 0 else 2 * Or(a / 2, b / 2) + (if a % 2 == 1 || b % 2 == 1 then 1 else 0)
  }

  /** The product of two polynomials (no carries, no reduction). */
  function Mul(a: nat, b: nat): nat
    decreases b, a
  {
    if b == 0 then 0 else Xor(if b % 2 == 1 then a else 0, 2 * Mul(a, b / 2))
  }

  /** One unfolding of Xor, valid for zero operands too. */
  lemma XorStep(a: nat, b: nat)
    ensures Xor(a, b) == 2 * Xor(a / 2, b / 2) + (a + b) % 2
    ensures Xor(a, b) / 2 == Xor(a / 2, b / 2)
  {
  }

  /** The lowest bit. */
  lemma XorParity(a: nat, b: nat)
    ensures Xor(a, b) % 2 == if a % 2 == b % 2 then 0 else 1
  {
    hide Xor;
    XorStep(a, b);
    ParityOfSum(a, b);
    ParityOfDouble(Xor(a / 2, b / 2), (a + b) % 2);
  }

  lemma ParityOfDouble(x: nat, r: nat)
    requires r < 2
    ensures (2 * x + r) % 2 == r
  {
  }

  lemma ParityOfSum(a: nat, b: nat)
    ensures (a + b) % 2 == if a % 2 == b % 2 then 0 else 1
  {
  }

  /** Xor is exactly the bitwise exclusive or. */
  lemma {:induction false} XorBit(a: nat, b: nat, k: nat)
    ensures Bit(Xor(a, b), k) == (Bit(a, k) + Bit(b, k)) % 2
  {
    XorStep(a, b);
    XorParity(a, b);
    if k > 0 {
      XorBit(a / 2, b / 2, k - 1);
    }
  }

  lemma {:induction false} XorComm(a: nat, b: nat)
    ensures Xor(a, b) == Xor(b, a)
    decreases a + b
  {
    if a + b > 0 {
      XorComm(a / 2, b / 2);
    }
  }

  lemma SameHalves(x: nat, y: nat)
    requires x / 2 == y / 2 && x % 2 == y % 2
    ensures x == y
  {
  }

  lemma {:induction false} XorAssoc(a: nat, b: nat, c: nat)
    ensures Xor(Xor(a, b), c) == Xor(a, Xor(b, c))
    decreases a + b + c
  {
    if a + b + c > 0 {
      XorAssoc(a / 2, b / 2, c / 2);
      var ab, bc := Xor(a, b), Xor(b, c);
      XorStep(a, b);
      XorParity(a, b);
      XorStep(b, c);
      XorParity(b, c);
      XorStep(ab, c);
      XorParity(ab, c);
      XorStep(a, bc);
      XorParity(a, bc);
      SameHalves(Xor(ab, c), Xor(a, bc));
    }
  }

  lemma {:induction false} XorZero(a: nat)
    ensures Xor(a, 0) == a && Xor(0, a) == a
  {
    if a > 0 {
      XorZero(a / 2);
    }
  }

  lemma {:induction false} XorSelf(a: nat)
    ensures Xor(a, a) == 0
  {
    if a > 0 {
      XorSelf(a / 2);
    }
  }

  /** A number is its lowest bit plus the rest. */
  lemma XorLowBit(a: nat)
    ensures Xor(a % 2, 2 * (a / 2)) == a
  {
    XorStep(a % 2, 2 * (a / 2));
    XorParity(a % 2, 2 * (a / 2));
    XorZero(a / 2);
  }

  lemma XorDouble(a: nat, b: nat)
    ensures Xor(2 * a, 2 * b) == 2 * Xor(a, b)
  {
    XorStep(2 * a, 2 * b);
    XorParity(2 * a, 2 * b);
  }

  /** Regroups (a + b) + (c + d) as (a + c) + (b + d). */
  lemma XorSwapMiddle(a: nat, b: nat, c: nat, d: nat)
    ensures Xor(Xor(a, b), Xor(c, d)) == Xor(Xor(a, c), Xor(b, d))
  {
    XorAssoc(a, b, Xor(c, d));
    XorAssoc(b, c, d);
    XorComm(b, c);
    XorAssoc(c, b, d);
    XorAssoc(a, c, Xor(b, d));
  }

  /** Adding b twice to a gives a back. */
  lemma XorCancel(a: nat, b: nat)
    ensures Xor(Xor(a, b), b) == a
  {
    XorAssoc(a, b, b);
    XorSelf(b);
    XorZero(a);
  }

  /** Where the top bit of a sum lands, for operands of at most k + 1 bits. */
  lemma {:induction false} XorTop(a: nat, b: nat, k: nat)
    requires a < 2 * Pow2(k) && b < 2 * Pow2(k)
    ensures Xor(a, b) < 2 * Pow2(k)
    ensures (Xor(a, b) >= Pow2(k)) <==> ((a >= Pow2(k)) != (b >= Pow2(k)))
  {
    XorStep(a, b);
    XorParity(a, b);
    if k == 0 {
      XorZero(0);
      assert a / 2 == 0 && b / 2 == 0;
    } else {
      XorTop(a / 2, b / 2, k - 1);
    }
  }

  lemma {:induction false} XorBound(a: nat, b: nat, k: nat)
    requires a < Pow2(k) && b < Pow2(k)
    ensures Xor(a, b) < Pow2(k)
  {
    XorTop(a, b, k);
  }

  /** Adding a single high bit to a shorter number is ordinary addition. */
  lemma {:induction false} XorDisjoint(a: nat, k: nat)
    requires a < Pow2(k)
    ensures Xor(a, Pow2(k)) == a + Pow2(k)
  {
    XorStep(a, Pow2(k));
    XorParity(a, Pow2(k));
    if k == 0 {
      XorZero(0);
    } else {
      XorDisjoint(a / 2, k - 1);
    }
  }

  /** Or-ing in a bit below all the others also is their exclusive or. */
  lemma {:induction false} OrLowBit(k: nat, i: nat)
    ensures Or(Shl(2 * k, i), Shl(1, i)) == Shl(2 * k + 1, i) == Xor(Shl(2 * k, i), Shl(1, i))
  {
    if i == 0 {
      XorStep(2 * k, 1);
      XorParity(2 * k, 1);
      XorZero(k);
      OrZero(k);
    } else {
      OrLowBit(k, i - 1);
      XorDouble(Shl(2 * k, i - 1), Shl(1, i - 1));
    }
  }

  lemma {:induction false} OrZero(a: nat)
    ensures Or(a, 0) == a
  {
    if a > 0 {
      OrZero(a / 2);
    }
  }

  /** The top bit of a number of k + 1 bits. */
  lemma {:induction false} BitTop(a: nat, k: nat)
    requires a < 2 * Pow2(k)
    ensures Bit(a, k) == 1 <==> a >= Pow2(k)
  {
    if k > 0 {
      BitTop(a / 2, k - 1);
    }
  }

  lemma MulStep(a: nat, b: nat)
    ensures Mul(a, b) == Xor(if b % 2 == 1 then a else 0, 2 * Mul(a, b / 2))
  {
    XorZero(0);
  }

  lemma {:induction false} MulZero(b: nat)
    ensures Mul(0, b) == 0 && Mul(b, 0) == 0
  {
    XorZero(0);
    if b > 0 {
      MulZero(b / 2);
    }
  }

  lemma MulOne(a: nat)
    ensures Mul(a, 1) == a
  {
    MulStep(a, 1);
    XorZero(a);
  }

  lemma MulDoubleRight(a: nat, b: nat)
    ensures Mul(a, 2 * b) == 2 * Mul(a, b)
  {
    MulStep(a, 2 * b);
    XorZero(2 * Mul(a, b));
  }

  lemma {:induction false} MulDoubleLeft(a: nat, b: nat)
    ensures Mul(2 * a, b) == 2 * Mul(a, b)
  {
    if b > 0 {
      MulDoubleLeft(a, b / 2);
      MulStep(a, b);
      MulStep(2 * a, b);
      XorDouble(if b % 2 == 1 then a else 0, 2 * Mul(a, b / 2));
    }
  }

  /** Multiplication distributes over addition on the left. */
  lemma {:induction false} MulDistLeft(a: nat, b: nat, c: nat)
    ensures Mul(Xor(a, b), c) == Xor(Mul(a, c), Mul(b, c))
    decreases c
  {
    XorZero(0);
    if c > 0 {
      MulDistLeft(a, b, c / 2);
      XorDouble(Mul(a, c / 2), Mul(b, c / 2));
      var a0, b0 := if c % 2 == 1 then a else 0, if c % 2 == 1 then b else 0;
      XorSwapMiddle(a0, 2 * Mul(a, c / 2), b0, 2 * Mul(b, c / 2));
    }
  }

  /** Multiplication distributes over addition on the right. */
  lemma {:induction false} MulDistRight(a: nat, b: nat, c: nat)
    ensures Mul(a, Xor(b, c)) == Xor(Mul(a, b), Mul(a, c))
    decreases b + c
  {
    XorZero(0);
    if b + c > 0 {
      MulDistRight(a, b / 2, c / 2);
      XorStep(b, c);
      XorParity(b, c);
      var s := Xor(b, c);
      assert s / 2 == Xor(b / 2, c / 2) && s % 2 == (b + c) % 2;
      MulStep(a, s);
      MulStep(a, b);
      MulStep(a, c);
      XorDouble(Mul(a, b / 2), Mul(a, c / 2));
      var b0, c0 := if b % 2 == 1 then a else 0, if c % 2 == 1 then a else 0;
      XorSwapMiddle(b0, 2 * Mul(a, b / 2), c0, 2 * Mul(a, c / 2));
      assert Xor(b0, c0) == if s % 2 == 1 then a else 0 by {
        XorZero(a);
        XorSelf(a);
      }
    }
  }

  /** Peeling the lowest coefficient off the left factor. */
  lemma {:induction false} MulStepLeft(a: nat, b: nat)
    ensures Mul(a, b) == Xor(if a % 2 == 1 then b else 0, 2 * Mul(a / 2, b))
  {
    MulDoubleLeft(a / 2, b);
    XorLowBit(a);
    MulDistLeft(a % 2, 2 * (a / 2), b);
    MulZero(b);
    MulOneLeft(b);
  }

  lemma {:induction false} MulOneLeft(b: nat)
    ensures Mul(1, b) == b
  {
    if b > 0 {
      MulOneLeft(b / 2);
      XorLowBit(b);
    }
  }

  lemma {:induction false} MulComm(a: nat, b: nat)
    ensures Mul(a, b) == Mul(b, a)
    decreases b
  {
    MulZero(a);
    if b > 0 {
      MulStepLeft(b, a);
      MulComm(a, b / 2);
    }
  }

  lemma {:induction false} MulAssoc(a: nat, b: nat, c: nat)
    ensures Mul(Mul(a, b), c) == Mul(a, Mul(b, c))
    decreases c
  {
    MulZero(a);
    if c > 0 {
      MulAssoc(a, b, c / 2);
      MulDoubleRight(a, Mul(b, c / 2));
      MulDistRight(a, if c % 2 == 1 then b else 0, 2 * Mul(b, c / 2));
    }
  }

  /** Multiplying by x^k shifts left by k. */
  lemma {:induction false} MulPow2(a: nat, k: nat)
    ensures Mul(a, Pow2(k)) == a * Pow2(k)
  {
    if k == 0 {
      MulOne(a);
    } else {
      MulPow2(a, k - 1);
      MulDoubleRight(a, Pow2(k - 1));
      DoubleRight(a, Pow2(k - 1));
    }
  }

  lemma DoubleRight(a: nat, p: nat)
    ensures a * (2 * p) == 2 * (a * p)
  {
  }

  lemma {:induction false} MulShl(a: nat, b: nat, k: nat)
    ensures Mul(Shl(a, k), b) == Mul(a, Shl(b, k))
  {
    if k > 0 {
      MulShl(a, b, k - 1);
      MulDoubleLeft(Shl(a, k - 1), b);
      MulDoubleRight(a, Shl(b, k - 1));
    }
  }

  lemma {:induction false} ShlBounds(a: nat, j: nat, k: nat)
    requires Pow2(j) <= a < 2 * Pow2(j)
    ensures Pow2(j + k) <= Shl(a, k) < 2 * Pow2(j + k)
  {
    if k > 0 {
      ShlBounds(a, j, k - 1);
    }
  }

  lemma {:induction false} ShlZero(k: nat)
    ensures Shl(0, k) == 0
  {
    if k > 0 {
      ShlZero(k - 1);
    }
  }

  lemma {:induction false} ShlOdd(k: nat, i: nat)
    ensures Shl(2 * k, i) == Shl(k, i + 1)
  {
    if i > 0 {
      ShlOdd(k, i - 1);
    }
  }

  lemma {:induction false} Pow2Add(j: nat, k: nat)
    ensures Pow2(j + k) == Pow2(j) * Pow2(k)
  {
    if j > 0 {
      Pow2Add(j - 1, k);
    }
  }

  /** Degrees add under multiplication. */
  lemma {:induction false} MulDegree(a: nat, j: nat, b: nat, k: nat)
    requires Pow2(j) <= a < 2 * Pow2(j) && Pow2(k) <= b < 2 * Pow2(k)
    ensures Pow2(j + k) <= Mul(a, b) < 2 * Pow2(j + k)
  {
    if k == 0 {
      MulOne(a);
    } else {
      MulDegree(a, j, b / 2, k - 1);
      Pow2Monotone(j + 1, j + k);
      XorTop(if b % 2 == 1 then a else 0, 2 * Mul(a, b / 2), j + k);
    }
  }

  lemma {:induction false} Pow2Monotone(j: nat, k: nat)
    requires j <= k
    ensures Pow2(j) <= Pow2(k)
  {
    if j < k {
      Pow2Monotone(j, k - 1);
    }
  }

  /** Every non-zero polynomial has a degree. */
  lemma {:induction false} DegreeExists(a: nat) returns (k: nat)
    requires a > 0
    ensures Pow2(k) <= a < 2 * Pow2(k)
  {
    if a == 1 {
      k := 0;
    } else {
      k := DegreeExists(a / 2);
      k := k + 1;
    }
  }

  /** d divides a. */
  ghost predicate Divides(d: nat, a: nat) {
    exists q: nat :: Mul(d, q) == a
  }

  /** Only the constant 1 divides 1. */
  lemma DividesOne(d: nat)
    requires Divides(d, 1)
    ensures d == 1
  {
    var q: nat :| Mul(d, q) == 1;
    MulZero(q);
    MulZero(d);
    var j := DegreeExists(d);
    var k := DegreeExists(q);
    MulDegree(d, j, q, k);
  }

  lemma DividesMultiple(d: nat, a: nat, q: nat)
    requires Divides(d, a)
    ensures Divides(d, Mul(a, q))
  {
    var u: nat :| Mul(d, u) == a;
    MulAssoc(d, u, q);
  }

  /** A common divisor of a and b divides a + b*q. */
  lemma DividesCombination(d: nat, a: nat, b: nat, q: nat)
    requires Divides(d, a) && Divides(d, b)
    ensures Divides(d, Xor(a, Mul(b, q)))
  {
    var u: nat :| Mul(d, u) == a;
    var v: nat :| Mul(d, v) == b;
    MulAssoc(d, v, q);
    MulDistRight(d, u, Mul(v, q));
    assert Mul(d, Xor(u, Mul(v, q))) == Xor(a, Mul(b, q));
  }
}
