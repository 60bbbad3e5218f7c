/** Arithmetic modulo the CRC-32 generator polynomial: the quotient ring of GF(2)[x] in which
    forcecrc32.c multiplies, exponentiates and inverts. */
module CrcField {
  import opened Gf2Poly

  /** The generator, of degree 32 (forcecrc32.c:154). */
  const POLYNOMIAL: nat := 0x1_04C1_1DB7

  type Word32 = w: nat | w < 0x1_0000_0000
  type Word64 = w: nat | w < 0x1_0000_0000_0000_0000

  /** What a 32-bit word keeps of a value. */
  function Wrap32(x: nat): (w: Word32)
    ensures x < 0x1_0000_0000 ==> w == x
  {
    x % 0x1_0000_0000
  }

  /** What a 64-bit word keeps of a value. */
  function Wrap64(x: nat): (w: Word64)
    ensures x < 0x1_0000_0000_0000_0000 ==> w == x
  {
    x % 0x1_0000_0000_0000_0000
  }

  lemma Pow2Values()
    ensures Pow2(7) == 0x80 && Pow2(8) == 0x100 && Pow2(16) == 0x1_0000
    ensures Pow2(31) == 0x8000_0000 && Pow2(32) == 0x1_0000_0000
    ensures Pow2(64) == 0x1_0000_0000_0000_0000
  {
    assert Pow2(7) == 0x80 && Pow2(8) == 0x100;
    Pow2Add(8, 8);
    Pow2Add(16, 8);
    Pow2Add(24, 7);
    Pow2Add(16, 16);
    Pow2Add(32, 32);
  }

  /** Cancelling the bit of weight 2^32, when it is there. */
  function Reduce(t: nat): nat {
    if t >= 0x1_0000_0000 then Xor(t, POLYNOMIAL) else t
  }

  lemma ReduceBound(t: nat)
    requires t < 0x2_0000_0000
    ensures Reduce(t) < 0x1_0000_0000
  {
    Pow2Values();
    XorTop(t, POLYNOMIAL, 32);
  }

  /** The remainder of a modulo the generator, one coefficient at a time from the top. */
  function Rem(a: nat): Word32 {
    if a == 0 then
      0
    else
      ReduceBound(2 * Rem(a / 2) + a % 2);
      Reduce(2 * Rem(a / 2) + a % 2)
  }

  /** The quotient of a by the generator. */
  ghost function Quo(a: nat): nat {
    if a == 0 then
      0
    else
      2 * Quo(a / 2) + (if 2 * Rem(a / 2) + a % 2 >= 0x1_0000_0000 then 1 else 0)
  }

  function MulMod(a: nat, b: nat): Word32 {
    Rem(Mul(a, b))
  }

  /** x multiplied by itself n times, one factor at a time. */
  function PowMod(x: nat, n: nat): Word32 {
    if n == 0 then 1 else MulMod(PowMod(x, n - 1), x)
  }

  ghost predicate IsInverse(u: nat, x: nat) {
    MulMod(u, x) == 1
  }

  ghost predicate Invertible(x: nat) {
    exists u: nat :: IsInverse(u, x)
  }

  /** One unfolding of Rem, valid for zero too. */
  lemma RemStep(a: nat)
    ensures Rem(a) == Reduce(2 * Rem(a / 2) + a % 2)
  {
    hide Reduce;
    if a == 0 {
      ReduceSmall(0);
    }
  }

  lemma ReduceSmall(t: nat)
    requires t < 0x1_0000_0000
    ensures Reduce(t) == t
  {
  }

  lemma RemDouble(a: nat, t: nat)
    requires t == 2 * a
    ensures Rem(t) == Reduce(2 * Rem(a))
  {
    hide *;
    RemStep(t);
  }

  lemma {:induction false} RemSmall(a: nat)
    requires a < 0x1_0000_0000
    ensures Rem(a) == a
  {
    hide *;
    RemStep(a);
    if a > 0 {
      RemSmall(a / 2);
    } else {
      RemZero();
    }
    ReduceSmall(a);
  }

  lemma RemZero()
    ensures Rem(0) == 0
  {
  }

  lemma RemGenerator()
    ensures Rem(POLYNOMIAL) == 0
  {
    hide Rem, Xor;
    RemStep(POLYNOMIAL);
    RemSmall(POLYNOMIAL / 2);
    XorSelf(POLYNOMIAL);
  }

  lemma ReduceLinear(t: nat, u: nat)
    requires t < 0x2_0000_0000 && u < 0x2_0000_0000
    ensures Reduce(Xor(t, u)) == Xor(Reduce(t), Reduce(u))
  {
    Pow2Values();
    hide Xor, Pow2;
    XorTop(t, u, 32);
    var p := POLYNOMIAL;
    if t >= 0x1_0000_0000 && u >= 0x1_0000_0000 {
      XorSwapMiddle(t, p, u, p);
      XorSelf(p);
      XorZero(Xor(t, u));
    } else if t >= 0x1_0000_0000 {
      XorAssoc(t, p, u);
      XorComm(p, u);
      XorAssoc(t, u, p);
    } else if u >= 0x1_0000_0000 {
      XorAssoc(t, u, p);
    }
  }

  lemma ShiftInLinear(r: nat, s: nat, b: nat, c: nat)
    requires b < 2 && c < 2
    ensures Xor(2 * r + b, 2 * s + c) == 2 * Xor(r, s) + (b + c) % 2
  {
    hide *;
    var t, u := 2 * r + b, 2 * s + c;
    XorStep(t, u);
    XorParity(t, u);
    assert t / 2 == r && u / 2 == s;
    ParityOfSum(t, u);
    ParityOfSum(b, c);
  }

  /** Reduction is linear. */
  lemma {:induction false} RemXor(a: nat, b: nat)
    ensures Rem(Xor(a, b)) == Xor(Rem(a), Rem(b))
    decreases a + b
  {
    hide *;
    if a + b == 0 {
      XorZero(0);
      RemZero();
    } else {
      RemXor(a / 2, b / 2);
      XorStep(a, b);
      XorParity(a, b);
      RemStep(a);
      RemStep(b);
      RemStep(Xor(a, b));
      ParityOfSum(a, b);
      ParityOfSum(a % 2, b % 2);
      ShiftInLinear(Rem(a / 2), Rem(b / 2), a % 2, b % 2);
      ReduceLinear(2 * Rem(a / 2) + a % 2, 2 * Rem(b / 2) + b % 2);
    }
  }

  lemma MulModStep(a: nat, b: nat)
    ensures MulMod(a, b) == Xor(if b % 2 == 1 then Rem(a) else 0, Reduce(2 * MulMod(a, b / 2)))
  {
    hide Rem, Mul, Xor, Reduce;
    MulStep(a, b);
    RemZero();
    var m := Mul(a, b / 2);
    RemXor(if b % 2 == 1 then a else 0, 2 * m);
    RemDouble(m, 2 * m);
  }

  /** A factor may be reduced before multiplying. */
  lemma {:induction false} MulModReduceLeft(a: nat, b: nat)
    ensures MulMod(a, b) == MulMod(Rem(a), b)
    decreases b
  {
    hide *;
    if b == 0 {
      MulModZero(a);
      MulModZero(Rem(a));
    } else {
      MulModReduceLeft(a, b / 2);
      MulModStep(a, b);
      MulModStep(Rem(a), b);
      RemSmall(Rem(a));
    }
  }

  lemma MulModZero(a: nat)
    ensures MulMod(a, 0) == 0 && MulMod(0, a) == 0
  {
    MulZero(a);
  }

  lemma MulModReduceRight(a: nat, b: nat)
    ensures MulMod(a, b) == MulMod(a, Rem(b))
  {
    hide *;
    MulModComm(a, b);
    MulModReduceLeft(b, a);
    MulModComm(Rem(b), a);
  }

  lemma MulModAssoc(a: nat, b: nat, c: nat)
    ensures MulMod(MulMod(a, b), c) == MulMod(a, MulMod(b, c))
  {
    hide Rem, Mul;
    MulModReduceLeft(Mul(a, b), c);
    MulAssoc(a, b, c);
    MulModReduceRight(a, Mul(b, c));
  }

  lemma MulModComm(a: nat, b: nat)
    ensures MulMod(a, b) == MulMod(b, a)
  {
    hide Rem, Mul;
    MulComm(a, b);
  }

  lemma MulModXor(a: nat, b: nat, c: nat)
    ensures MulMod(Xor(a, b), c) == Xor(MulMod(a, c), MulMod(b, c))
  {
    hide Rem, Mul, Xor;
    MulDistLeft(a, b, c);
    RemXor(Mul(a, c), Mul(b, c));
  }

  /** Quo and Rem are a division: a = P * Quo(a) + Rem(a). */
  lemma {:induction false} QuoRem(a: nat)
    ensures a == Xor(Mul(POLYNOMIAL, Quo(a)), Rem(a))
  {
    hide Rem, Mul, Xor, Reduce;
    if a == 0 {
      XorZero(0);
      MulZero(POLYNOMIAL);
      RemZero();
    } else {
      QuoRem(a / 2);
      RemStep(a);
      QuoRemShift(POLYNOMIAL, Quo(a / 2), Rem(a / 2), a);
      ReduceAsCombination(2 * Rem(a / 2) + a % 2, Quo(a / 2), POLYNOMIAL);
    }
  }

  lemma QuoRemShift(p: nat, q: nat, r: nat, a: nat)
    requires a / 2 == Xor(Mul(p, q), r)
    ensures a == Xor(2 * Mul(p, q), 2 * r + a % 2)
  {
    hide *;
    ShiftInLinear(Mul(p, q), r, 0, a % 2);
  }

  lemma ReduceAsCombination(t: nat, q: nat, p: nat)
    requires p == POLYNOMIAL
    ensures Xor(2 * Mul(p, q), t)
         == Xor(Mul(p, 2 * q + if t >= 0x1_0000_0000 then 1 else 0), Reduce(t))
  {
    hide Mul, Xor;
    if t >= 0x1_0000_0000 {
      QuoRemCarry(p, q, t);
    } else {
      MulDoubleRight(p, q);
    }
  }

  lemma QuoRemCarry(p: nat, q: nat, t: nat)
    ensures Xor(2 * Mul(p, q), t) == Xor(Mul(p, 2 * q + 1), Xor(t, p))
  {
    hide *;
    var m := 2 * Mul(p, q);
    MulStep(p, 2 * q + 1);
    XorSwapMiddle(p, m, p, t);
    XorComm(t, p);
    XorSelf(p);
    XorZero(Xor(m, t));
  }

  /** A common divisor of x and the generator other than 1 leaves x without an inverse. */
  lemma CommonDivisorBlocksInverse(g: nat, x: nat)
    requires Divides(g, x) && Divides(g, POLYNOMIAL) && g != 1
    ensures !Invertible(x)
  {
    if Invertible(x) {
      var u: nat :| IsInverse(u, x);
      var m := Mul(u, x);
      hide Mul, Xor, Rem, Quo, Divides;
      QuoRem(m);
      XorComm(Mul(POLYNOMIAL, Quo(m)), 1);
      XorCancel(1, Mul(POLYNOMIAL, Quo(m)));
      DividesMultiple(g, x, u);
      MulComm(u, x);
      DividesCombination(g, m, POLYNOMIAL, Quo(m));
      DividesOne(g);
    }
  }

  /** Exponents add. */
  lemma {:induction false} PowModAdd(x: nat, m: nat, n: nat)
    ensures PowMod(x, m + n) == MulMod(PowMod(x, m), PowMod(x, n))
    decreases n
  {
    hide MulMod;
    if n == 0 {
      MulModOne(PowMod(x, m));
    } else {
      PowModAdd(x, m, n - 1);
      MulModAssoc(PowMod(x, m), PowMod(x, n - 1), x);
    }
  }

  lemma MulModOne(a: Word32)
    ensures MulMod(a, 1) == a && MulMod(1, a) == a
  {
    hide Rem, Mul;
    MulOne(a);
    MulOneLeft(a);
    RemSmall(a);
  }

  /** Squaring the base halves the exponent. */
  lemma {:induction false} PowModSquare(x: nat, n: nat)
    ensures PowMod(MulMod(x, x), n) == PowMod(x, 2 * n)
  {
    hide MulMod;
    if n > 0 {
      PowModSquare(x, n - 1);
      MulModAssoc(PowMod(x, 2 * n - 2), x, x);
      assert PowMod(x, 2 * n - 1) == MulMod(PowMod(x, 2 * n - 2), x);
    }
  }

  /** The powers of x (coded 2) are the reduced single-term polynomials. */
  lemma {:induction false} PowModOfX(n: nat)
    ensures PowMod(2, n) == Rem(Pow2(n))
  {
    hide MulMod, Rem;
    if n == 0 {
      RemSmall(1);
    } else {
      PowModOfX(n - 1);
      MulModReduceLeft(Pow2(n - 1), 2);
      TimesX(Pow2(n - 1));
    }
  }

  lemma TimesX(a: nat)
    ensures MulMod(a, 2) == Rem(2 * a)
  {
    hide Rem;
    MulDoubleRight(a, 1);
    MulOne(a);
  }

  /** The constant term of the generator is 1, so x has an inverse and hence so has every power
      of x: the patcher never asks for a reciprocal that does not exist. */
  lemma {:induction false} PowersOfXInvertible(n: nat)
    ensures Invertible(PowMod(2, n))
  {
    hide MulMod;
    if n == 0 {
      MulModOne(1);
      assert IsInverse(1, PowMod(2, 0));
    } else {
      PowersOfXInvertible(n - 1);
      var w := PowMod(2, n - 1);
      var u: nat :| IsInverse(u, w);
      var h := POLYNOMIAL / 2;
      XInverse();
      // (u*h) * (w*x) = (u*w) * (h*x) = 1
      MulModAssoc(MulMod(u, h), w, 2);
      MulModAssoc(u, h, w);
      MulModComm(h, w);
      MulModAssoc(u, w, h);
      MulModOne(h);
      assert IsInverse(MulMod(u, h), PowMod(2, n));
    }
  }

  lemma XInverse()
    ensures MulMod(POLYNOMIAL / 2, 2) == 1
  {
    hide Rem;
    var h := POLYNOMIAL / 2;
    TimesX(h);
    RemDouble(h, 2 * h);
    RemSmall(h);
    XorStep(2 * h, POLYNOMIAL);
    XorParity(2 * h, POLYNOMIAL);
    XorSelf(h);
  }
}
