/** The CRC-32 forcer of forcecrc32.c: patches four bytes of a file so that the whole file gets a
    chosen CRC. The file is an array of bytes; machine words are naturals below 2^32 or 2^64 with
    every wrap written out. */
module Crc32Forcer {
  import opened Gf2Poly
  import opened CrcField
  import opened CrcRegister

  datatype Option<T> = None | Some(value: T)

  datatype PatchResult = Patched | OffsetTooLarge | ReciprocalMissing | VerifyFailed

  /** The degree of a polynomial, -1 for zero. */
  function Degree(x: nat): int {
    if x == 0 then -1 else 1 + Degree(x / 2)
  }

  lemma {:induction false} DegreeBounds(x: nat)
    requires x > 0
    ensures Degree(x) >= 0 && Pow2(Degree(x)) <= x < 2 * Pow2(Degree(x))
  {
    if x > 1 {
      DegreeBounds(x / 2);
    }
  }

  lemma {:induction false} DegreeBelow(x: nat, k: nat)
    ensures x < Pow2(k) <==> Degree(x) < k
  {
    if x > 0 {
      DegreeNonNegative(x);
      if k > 0 {
        DegreeBelow(x / 2, k - 1);
      }
    }
  }

  lemma DegreeOfZero()
    ensures Degree(0) == -1
  {
  }

  lemma {:induction false} DegreeNonNegative(x: nat)
    requires x > 0
    ensures Degree(x) >= 0
  {
    if x > 1 {
      DegreeNonNegative(x / 2);
    }
  }

  method GetDegree(x: Word64) returns (result: int)
    ensures result == Degree(x)
  {
    result := -1;
    var y := x;
    while y != 0
      invariant result + Degree(y) + 1 == Degree(x)
    {
      result := result + 1;
      y := y / 2;
    }
  }

  /** The low i bits of r are the low i bits of x in the opposite order. */
  predicate IsReversed(r: nat, x: nat, i: nat) {
    forall k: nat :: k < i ==> Bit(r, k) == Bit(x, i - 1 - k)
  }

  /** Every bit of the word, in the opposite order. */
  method ReverseBits(x: Word32) returns (result: Word32)
    ensures IsReversed(result, x, 32)
  {
    result := 0;
    assert IsReversed(0, x, 0) && result < Pow2(0);
    hide *;
    for i := 0 to 32
      invariant result < Pow2(i)
      invariant IsReversed(result, x, i)
    {
      ReverseStep(result, x, i);
      // the shifted word has a zero low bit, so or-ing a bit in is adding it
      result := Wrap32(2 * result) + Bit(x, i);
    }
  }

  lemma BitOfDoubled(r: nat, b: nat, k: nat)
    requires b < 2
    ensures Bit(2 * r + b, k) == if k == 0 then b else Bit(r, k - 1)
  {
    assert (2 * r + b) / 2 == r;
  }

  lemma ReverseStep(r: nat, x: nat, i: nat)
    requires i < 32 && r < Pow2(i) && IsReversed(r, x, i)
    ensures 2 * r + Bit(x, i) < Pow2(i + 1) <= 0x1_0000_0000
    ensures IsReversed(2 * r + Bit(x, i), x, i + 1)
  {
    ReverseFits(r, Bit(x, i), i);
    hide Pow2, Bit;
    var t := 2 * r + Bit(x, i);
    forall k: nat | k < i + 1
      ensures Bit(t, k) == Bit(x, i - k)
    {
      BitOfDoubled(r, Bit(x, i), k);
    }
  }

  lemma ReverseFits(r: nat, b: nat, i: nat)
    requires i < 32 && r < Pow2(i) && b < 2
    ensures 2 * r + b < Pow2(i + 1) <= 0x1_0000_0000
  {
    Pow2Double(i);
    Pow2Values();
    hide Pow2;
    Pow2Monotone(i + 1, 32);
  }

  /** x << 1 in a 64-bit word. */
  function ShiftLeftOne(x: Word64): Word64 {
    Wrap64(2 * x)
  }

  /** ((x >> 32) & 1) != 0. */
  predicate HasBit32(x: Word64) {
    (x / 0x1_0000_0000) % 2 != 0
  }

  /** Russian peasant multiplication modulo the generator. */
  method MultiplyMod(x0: Word64, y0: Word64) returns (z: Word64)
    ensures x0 < 0x1_0000_0000 ==> z == MulMod(x0, y0)
  {
    hide *;
    var x: Word64, y: Word64 := x0, y0;
    z := 0;
    XorZero(MulMod(x0, y0));
    while y != 0
      invariant x0 < 0x1_0000_0000 ==>
        x < 0x1_0000_0000 && z < 0x1_0000_0000 && Xor(z, MulMod(x, y)) == MulMod(x0, y0)
    {
      ghost var x', y', z' := x, y, z;
      SelectByBit(x, y);
      XorFits(z, x * (y % 2));
      z := Xor(z, x * (y % 2));
      y := y / 2;
      x := ShiftLeftOne(x);
      if HasBit32(x) {
        GeneratorFits();
        XorFits(x, POLYNOMIAL);
        x := Xor(x, POLYNOMIAL);
      }
      if x0 < 0x1_0000_0000 {
        MultiplyStep(x', y', z');
      }
    }
    if x0 < 0x1_0000_0000 {
      MulModZero(x);
      XorZero(z);
    }
  }

  lemma GeneratorFits()
    ensures POLYNOMIAL < 0x1_0000_0000_0000_0000
  {
  }

  lemma XorFits(a: Word64, b: Word64)
    ensures Xor(a, b) < 0x1_0000_0000_0000_0000
  {
    Pow2Values();
    XorBound(a, b, 64);
  }

  /** One turn of the multiplication loop keeps z + x*y. */
  lemma MultiplyStep(x: Word32, y: nat, z: Word32)
    ensures Xor(z, x * (y % 2)) < 0x1_0000_0000 && Reduce(2 * x) < 0x1_0000_0000
    ensures Reduce(2 * x)
         == if HasBit32(ShiftLeftOne(x)) then Xor(ShiftLeftOne(x), POLYNOMIAL) else ShiftLeftOne(x)
    ensures Xor(Xor(z, x * (y % 2)), MulMod(Reduce(2 * x), y / 2)) == Xor(z, MulMod(x, y))
  {
    hide *;
    ReduceBound(2 * x);
    ReduceAsShift(x);
    RemSmall(x);
    RemDouble(x, 2 * x);
    MulModReduceLeft(2 * x, y / 2);
    MulModStep(x, y);
    DoubledFactor(x, y / 2);
    SelectByBit(x, y);
    WordXor(z, x * (y % 2));
    XorAssoc(z, x * (y % 2), MulMod(Reduce(2 * x), y / 2));
  }

  lemma SelectByBit(x: nat, y: nat)
    ensures x * (y % 2) == if y % 2 == 1 then x else 0
  {
  }

  lemma ReduceAsShift(x: Word32)
    ensures Reduce(2 * x)
         == if HasBit32(ShiftLeftOne(x)) then Xor(ShiftLeftOne(x), POLYNOMIAL) else ShiftLeftOne(x)
  {
    hide Xor;
  }

  lemma DoubledFactor(x: nat, y: nat)
    ensures MulMod(2 * x, y) == Reduce(2 * MulMod(x, y))
  {
    hide Mul, Rem, Reduce;
    MulDoubleLeft(x, y);
    RemDouble(Mul(x, y), 2 * Mul(x, y));
  }

  /** Exponentiation by squaring. */
  method PowerMod(x0: Word64, y0: Word64) returns (z: Word64)
    ensures x0 < 0x1_0000_0000 ==> z == PowMod(x0, y0)
  {
    var x: Word64, y: Word64 := x0, y0;
    z := 1;
    if x0 < 0x1_0000_0000 {
      MulModOne(PowMod(x0, y0));
    }
    while y != 0
      invariant x0 < 0x1_0000_0000 ==>
        x < 0x1_0000_0000 && z < 0x1_0000_0000 && MulMod(z, PowMod(x, y)) == PowMod(x0, y0)
    {
      if x0 < 0x1_0000_0000 {
        PowerStep(x, y, z);
      }
      if y % 2 != 0 {
        z := MultiplyMod(z, x);
      }
      x := MultiplyMod(x, x);
      y := y / 2;
    }
    if x0 < 0x1_0000_0000 {
      MulModOne(z);
    }
  }

  lemma PowerStep(x: Word32, y: nat, z: Word32)
    requires y > 0
    ensures y % 2 == 0 ==> MulMod(z, PowMod(MulMod(x, x), y / 2)) == MulMod(z, PowMod(x, y))
    ensures y % 2 == 1 ==>
      MulMod(MulMod(z, x), PowMod(MulMod(x, x), y / 2)) == MulMod(z, PowMod(x, y))
  {
    hide MulMod;
    PowModSquare(x, y / 2);
    if y % 2 == 1 {
      var w := PowMod(x, 2 * (y / 2));
      assert y == 2 * (y / 2) + 1;
      assert PowMod(x, y) == MulMod(w, x);
      MulModComm(w, x);
      MulModAssoc(z, x, w);
    }
  }

  /** What a division with remainder means. */
  predicate IsDivision(x: nat, y: nat, q: nat, r: nat) {
    x == Xor(Mul(q, y), r) && Degree(r) < Degree(y)
  }

  /** Schoolbook division of polynomials; None where the program stops with an error message. */
  method DivideAndRemainder(x0: Word64, y: Word64) returns (res: Option<(Word64, Word64)>)
    ensures res.None? <==> y == 0
    ensures res.Some? ==> IsDivision(x0, y, res.value.0, res.value.1)
  {
    if y == 0 {
      return None;
    }
    hide *;
    if x0 == 0 {
      ZeroDivision(y);
      return Some((0, 0));
    }
    var ydeg := GetDegree(y);
    var x: Word64, z: Word64 := x0, 0;
    var xdeg := GetDegree(x0);
    var i := xdeg - ydeg;
    ghost var zk: nat := 0;
    DivisionStart(x0, y);
    while i >= 0
      invariant ydeg == Degree(y) >= 0
      invariant i >= -1 ==> Dividing(x0, y, x, z, zk, i)
      invariant i < -1 ==> IsDivision(x0, y, z, x)
    {
      if Bit(x, i + ydeg) != 0 {
        DivideStep(x0, y, x, z, zk, i);
        x := Xor(x, Wrap64(Shl(y, i)));
        z := Or(z, Wrap64(Shl(1, i)));
        zk := 2 * zk + 1;
      } else {
        SkipStep(x0, y, x, z, zk, i);
        zk := 2 * zk;
      }
      i := i - 1;
    }
    if i == -1 {
      DivisionEnd(x0, y, x, z, zk);
    }
    res := Some((z, x));
  }

  /** The state of the division loop before it looks at quotient bit i: the equation holds, the
      remainder has no bits above i + deg y, and the quotient none below i + 1. */
  ghost predicate Dividing(x0: nat, y: nat, x: nat, z: nat, zk: nat, i: int) {
    && y > 0 && -1 <= i && 0 <= Degree(y)
    && i + Degree(y) < 64
    && x0 == Xor(Mul(z, y), x)
    && x < Pow2(i + 1 + Degree(y))
    && z == Shl(zk, i + 1)
  }

  lemma ZeroDivision(y: nat)
    requires y > 0
    ensures IsDivision(0, y, 0, 0)
  {
    MulZero(y);
    XorZero(0);
    DegreeNonNegative(y);
  }

  lemma DivisionStart(x0: Word64, y: Word64)
    requires x0 > 0 && y > 0
    ensures 0 <= Degree(y)
    ensures Degree(x0) - Degree(y) >= -1 ==> Dividing(x0, y, x0, 0, 0, Degree(x0) - Degree(y))
    ensures Degree(x0) - Degree(y) < 0 ==> IsDivision(x0, y, 0, x0)
  {
    hide Degree, Mul, Xor, Shl, Pow2;
    DegreeNonNegative(x0);
    DegreeNonNegative(y);
    WordDegree(x0);
    DegreeBelow(x0, Degree(x0) + 1);
    MulZero(y);
    XorZero(x0);
    if Degree(x0) - Degree(y) >= -1 {
      ShlZero(Degree(x0) - Degree(y) + 1);
    }
  }

  lemma DivisionEnd(x0: nat, y: nat, x: nat, z: nat, zk: nat)
    requires Dividing(x0, y, x, z, zk, -1)
    ensures IsDivision(x0, y, z, x)
  {
    hide Degree, Mul, Xor, Shl, Pow2;
    DegreeBelow(x, Degree(y));
  }

  lemma WordDegree(x: Word64)
    ensures Degree(x) < 64
  {
    Pow2Values();
    DegreeBelow(x, 64);
  }

  lemma SkipStep(x0: nat, y: nat, x: nat, z: nat, zk: nat, i: nat)
    requires Dividing(x0, y, x, z, zk, i) && Bit(x, i + Degree(y)) == 0
    ensures Dividing(x0, y, x, z, 2 * zk, i - 1)
  {
    assert Pow2(i + 1 + Degree(y)) == 2 * Pow2(i + Degree(y));
    hide Bit, Shl, Pow2, Mul, Xor, Degree;
    BitTop(x, i + Degree(y));
    ShlOdd(zk, i);
  }

  /** One subtraction of the division loop: the top bit of x goes, the equation stays. */
  lemma DivideStep(x0: nat, y: Word64, x: Word64, z: Word64, zk: nat, i: nat)
    requires Dividing(x0, y, x, z, zk, i) && Bit(x, i + Degree(y)) != 0
    ensures Shl(1, i) < 0x1_0000_0000_0000_0000 && Shl(y, i) < 0x1_0000_0000_0000_0000
    ensures Xor(x, Shl(y, i)) < 0x1_0000_0000_0000_0000
    ensures Or(z, Shl(1, i)) < 0x1_0000_0000_0000_0000
    ensures Dividing(x0, y, Xor(x, Shl(y, i)), Or(z, Shl(1, i)), 2 * zk + 1, i - 1)
  {
    hide Bit, Shl, Pow2, Mul, Xor, Degree, Or;
    ShiftedFits(x, y, i, Degree(y));
    ShlOdd(zk, i);
    OrLowBit(zk, i);
    XorFits(z, Shl(1, i));
    XorFits(x, Shl(y, i));
    SubtractionKeepsEquation(x, y, z, i);
  }

  lemma ShiftedFits(x: Word64, y: Word64, i: nat, ydeg: nat)
    requires i + ydeg < 64 && y > 0 && ydeg == Degree(y)
    requires x < Pow2(i + 1 + ydeg) && Bit(x, i + ydeg) != 0
    ensures Shl(1, i) < 0x1_0000_0000_0000_0000 && Shl(y, i) < 0x1_0000_0000_0000_0000
    ensures Xor(x, Shl(y, i)) < Pow2(i + ydeg)
  {
    hide Bit, Shl, Pow2, Xor, Degree;
    Doublings(i, ydeg);
    Pow2Values();
    DegreeBounds(y);
    BitTop(x, i + ydeg);
    ShlBounds(y, ydeg, i);
    ShlBounds(1, 0, i);
    Pow2Monotone(i + ydeg + 1, 64);
    Pow2Monotone(i + 1, 64);
    XorTop(x, Shl(y, i), i + ydeg);
  }

  lemma Doublings(i: nat, ydeg: nat)
    ensures Pow2(i + 1 + ydeg) == 2 * Pow2(i + ydeg) && Pow2(i + 1) == 2 * Pow2(i) && Pow2(0) == 1
  {
  }

  lemma SubtractionKeepsEquation(x: nat, y: nat, z: nat, i: nat)
    ensures Xor(Mul(Xor(z, Shl(1, i)), y), Xor(x, Shl(y, i))) == Xor(Mul(z, y), x)
  {
    hide *;
    var p, t := Shl(1, i), Shl(y, i);
    MulDistLeft(z, p, y);
    MulShl(1, y, i);
    MulOneLeft(t);
    XorSwapMiddle(Mul(z, y), t, x, t);
    XorSelf(t);
    XorZero(Xor(Mul(z, y), x));
  }

  /** The state of the extended Euclidean loop: both remainders are known multiples of x0 modulo the
      generator, and their common divisors are those of the generator and x0. */
  ghost predicate Reducing(x0: nat, x: nat, y: nat, a: nat, b: nat) {
    && a < 0x1_0000_0000 && MulMod(a, x0) == Rem(x)
    && (y != 0 ==> b < 0x1_0000_0000 && MulMod(b, x0) == Rem(y))
    && (forall g: nat :: Divides(g, x) && Divides(g, y) ==> Divides(g, POLYNOMIAL) && Divides(g, x0))
    && (Degree(x) == 32 || (Degree(x) <= 32 && Degree(y) <= 32) || Degree(y) == 32)
  }

  lemma ReducingStart(x0: Word64)
    ensures Reducing(x0, POLYNOMIAL, x0, 0, 1)
  {
    hide Rem, MulMod, Divides, Degree;
    RemGenerator();
    MulModZero(x0);
    MulModOneLeft(x0);
    GeneratorDegree();
  }

  lemma GeneratorDegree()
    ensures Degree(POLYNOMIAL) == 32
  {
    Pow2Values();
    DegreeBelow(POLYNOMIAL, 33);
    DegreeBelow(POLYNOMIAL, 32);
  }

  lemma MulModOneLeft(a: nat)
    ensures MulMod(1, a) == Rem(a)
  {
    hide Mul, Rem;
    MulOneLeft(a);
  }

  /** The inverse of x0 modulo the generator; None where the program stops because there is none. */
  method ReciprocalMod(x0: Word64) returns (res: Option<Word64>)
    ensures res.Some? <==> Invertible(x0)
    ensures res.Some? ==> res.value < 0x1_0000_0000 && IsInverse(res.value, x0)
  {
    hide *;
    GeneratorFits();
    var x: Word64, y: Word64 := POLYNOMIAL, x0;
    var a: Word64, b: Word64 := 0, 1;
    ReducingStart(x0);
    while y != 0
      invariant Reducing(x0, x, y, a, b)
      decreases Degree(y) + 1
    {
      var division := DivideAndRemainder(x, y);
      var (q, r) := division.value;
      var product := MultiplyMod(q, b);
      ReducingStep(x0, x, y, a, b, q, r, product);
      XorFits(a, product);
      var c := Xor(a, product);
      x := y;
      y := r;
      a := b;
      b := c;
    }
    ReducingEnd(x0, x, a, b);
    res := if x == 1 then Some(a) else None;
  }

  /** The degree of a non-zero quotient. */
  lemma QuotientDegree(x: nat, y: nat, q: nat, r: nat)
    requires IsDivision(x, y, q, r) && y > 0
    ensures q == 0 ==> x == r
    ensures q > 0 ==> Degree(x) == Degree(q) + Degree(y)
  {
    hide Mul, Xor, Degree, Pow2;
    if q == 0 {
      MulZero(y);
      XorZero(r);
    } else {
      DegreeBounds(q);
      DegreeBounds(y);
      var k := Degree(q) + Degree(y);
      MulDegree(q, Degree(q), y, Degree(y));
      DegreeBelow(r, Degree(y));
      Pow2Monotone(Degree(y), k);
      XorTop(Mul(q, y), r, k);
      DegreeBelow(x, k);
      DegreeBelow(x, k + 1);
      Pow2Double(k);
    }
  }

  lemma Pow2Double(k: nat)
    ensures Pow2(k + 1) == 2 * Pow2(k)
  {
  }

  /** Wherever another turn follows, the quotient is short enough for the multiplication. */
  lemma QuotientFits(x: Word64, y: nat, q: nat, r: nat)
    requires IsDivision(x, y, q, r) && y > 0 && r > 0
    requires Degree(x) <= 32 || Degree(y) == 32
    ensures q < 0x1_0000_0000
  {
    hide Mul, Xor, Degree, Pow2;
    DegreeNonNegative(r);
    QuotientDegree(x, y, q, r);
    WordDegree(x);
    DegreeBelow(q, 32);
    if q > 0 {
      DegreeNonNegative(q);
    }
    assert q < Pow2(32) ==> q < 0x1_0000_0000 by {
      Pow2Values();
    }
  }

  /** The new coefficient belongs to the new remainder. */
  lemma CoefficientStep(x0: nat, x: nat, y: nat, a: nat, b: nat, q: nat, r: nat)
    requires x == Xor(Mul(q, y), r)
    requires MulMod(a, x0) == Rem(x) && MulMod(b, x0) == Rem(y)
    ensures MulMod(Xor(a, MulMod(q, b)), x0) == Rem(r)
  {
    hide Xor, Rem, Mul, MulMod;
    MulModXor(a, MulMod(q, b), x0);
    MulModAssoc(q, b, x0);
    MulModReduceRight(q, y);
    RemOfProduct(q, y);
    RemXor(x, Mul(q, y));
    XorComm(Mul(q, y), r);
    XorCancel(r, Mul(q, y));
  }

  lemma RemOfProduct(a: nat, b: nat)
    ensures MulMod(a, b) == Rem(Mul(a, b))
  {
  }

  lemma CommonDivisorStep(g: nat, x: nat, y: nat, q: nat, r: nat)
    requires x == Xor(Mul(q, y), r) && Divides(g, y) && Divides(g, r)
    ensures Divides(g, x)
  {
    hide Xor, Mul, Divides;
    MulComm(q, y);
    XorComm(Mul(q, y), r);
    DividesCombination(g, r, y, q);
  }

  lemma ReducingStep(x0: nat, x: Word64, y: nat, a: nat, b: nat, q: nat, r: nat, product: nat)
    requires y > 0 && Reducing(x0, x, y, a, b) && IsDivision(x, y, q, r)
    requires q < 0x1_0000_0000 ==> product == MulMod(q, b)
    ensures -1 <= Degree(r) < Degree(y)
    ensures Reducing(x0, y, r, b, Xor(a, product))
  {
    hide Xor, Mul, MulMod, Rem, Divides, Degree;
    QuotientDegree(x, y, q, r);
    DegreeAtLeast(r);
    if q != 0 {
      DegreeNonNegative(q);
    }
    if r != 0 {
      QuotientFits(x, y, q, r);
      CoefficientStep(x0, x, y, a, b, q, r);
      WordXor(a, product);
    }
    forall g: nat | Divides(g, y) && Divides(g, r)
      ensures Divides(g, POLYNOMIAL) && Divides(g, x0)
    {
      CommonDivisorStep(g, x, y, q, r);
    }
  }

  lemma DegreeAtLeast(x: nat)
    ensures Degree(x) >= -1
  {
    DegreeOfZero();
    if x > 0 {
      DegreeNonNegative(x);
    }
  }

  lemma ReducingEnd(x0: nat, x: nat, a: nat, b: nat)
    requires Reducing(x0, x, 0, a, b)
    ensures x == 1 ==> a < 0x1_0000_0000 && IsInverse(a, x0) && Invertible(x0)
    ensures x != 1 ==> !Invertible(x0)
  {
    hide Xor, Mul, MulMod, Rem, Divides, Degree;
    RemSmall(1);
    SelfDivides(x);
    if x != 1 {
      CommonDivisorBlocksInverse(x, x0);
    }
  }

  lemma SelfDivides(x: nat)
    ensures Divides(x, x) && Divides(x, 0)
  {
    hide Mul;
    MulOne(x);
    MulZero(x);
    assert Mul(x, 1) == x && Mul(x, 0) == 0;
  }

  /** The CRC of a file and its length, as the program counts it. */
  method GetCrc32AndLength(f: array<Byte>) returns (crc: Word32, length: Word64)
    ensures crc == Crc(f[..])
    ensures length == Wrap64(f.Length)
  {
    crc := 0xFFFF_FFFF;
    length := 0;
    for i := 0 to f.Length
      invariant crc == FeedBytes(0xFFFF_FFFF, f[..i])
      invariant length == Wrap64(i)
    {
      ghost var start := crc;
      for j := 0 to 8
        invariant crc == FeedBits(start, f[i], j)
      {
        RegisterStep(crc, Bit(f[i], j));
        crc := Xor(crc, Bit(f[i], j) * 0x8000_0000);
        var carry := crc / 0x8000_0000 != 0;
        crc := (crc % 0x8000_0000) * 2;
        if carry {
          crc := Xor(crc, POLYNOMIAL % 0x1_0000_0000);
        }
      }
      assert f[..i + 1][..i] == f[..i];
      LengthStep(i);
      length := Wrap64(length + 1);
    }
    assert f[..f.Length] == f[..];
    crc := Not32(crc);
  }

  lemma LengthStep(i: nat)
    ensures Wrap64(Wrap64(i) + 1) == Wrap64(i + 1)
  {
  }

  /** The inner loop of the register update computes BitStep, in 32 bits. */
  lemma RegisterStep(crc: Word32, bit: nat)
    requires bit < 2
    ensures Xor(crc, bit * 0x8000_0000) < 0x1_0000_0000
    ensures var c := Xor(crc, bit * 0x8000_0000);
            BitStep(crc, bit) == if c / 0x8000_0000 != 0
                                 then Xor((c % 0x8000_0000) * 2, POLYNOMIAL % 0x1_0000_0000)
                                 else (c % 0x8000_0000) * 2
  {
    hide Xor;
    AddTopBitBound(crc, bit);
    var c := Xor(crc, bit * 0x8000_0000);
    if c >= 0x8000_0000 {
      DropTopBits(2 * c - 0x1_0000_0000, POLYNOMIAL - 0x1_0000_0000);
    }
  }

  lemma DropTopBits(a: Word32, b: Word32)
    ensures Xor(a + 0x1_0000_0000, b + 0x1_0000_0000) == Xor(a, b)
  {
    Pow2Values();
    hide Xor, Pow2;
    var top := 0x1_0000_0000;
    XorDisjoint(a, 32);
    XorDisjoint(b, 32);
    XorSwapMiddle(a, top, b, top);
    XorSelf(top);
    XorZero(Xor(a, b));
  }

  /** The file with the four patch bytes added in at the offset. */
  function Patched4(s: seq<Byte>, offset: nat, p: seq<Byte>): (r: seq<Byte>)
    requires offset + 4 <= |s| && |p| == 4
  {
    XorBytes(s, PatchMask(|s|, offset, p))
  }

  /** Makes the CRC of the file newcrc by adding a 32-bit difference into four of its bytes. */
  method ModifyFileCrc32(f: array<Byte>, offset: Word64, newcrc: Word32) returns (res: PatchResult)
    requires f.Length < 0x1_0000_0000_0000_0000
    modifies f
    ensures offset + 4 > f.Length <==> res == OffsetTooLarge
    ensures offset + 4 > f.Length ==> f[..] == old(f[..])
    ensures forall k: nat :: k < f.Length && !(offset <= k < offset + 4) ==> f[k] == old(f[k])
    ensures res != ReciprocalMissing
    ensures res == VerifyFailed <==> (offset + 4 <= f.Length && Crc(f[..]) != newcrc)
    ensures offset + 4 <= f.Length && f.Length - offset < 0x2000_0000_0000_0000 ==>
      res == Patched && Crc(f[..]) == newcrc
  {
    var crc, length := GetCrc32AndLength(f);
    if offset > 0xFFFF_FFFF_FFFF_FFFF - 4 || offset + 4 > length {
      return OffsetTooLarge;
    }
    XorFits(crc, newcrc);
    var delta := Xor(crc, newcrc);
    var power := PowerMod(2, Wrap64((length - offset) * 8));
    PowersOfXInvertible(Wrap64((length - offset) * 8));
    var inverse := ReciprocalMod(power);
    if inverse.None? {
      return ReciprocalMissing;
    }
    var d := MultiplyMod(inverse.value, delta);
    delta := Wrap32(d);

    ghost var before := f[..];
    var reversed := ReverseBits(delta);
    ghost var p := seq(4, k requires 0 <= k < 4 => PatchByte(reversed, k));
    PatchFour(f, offset, reversed, p);
    PatchBytesCarry(reversed, delta, p);
    PatchEffect(before, offset, p, delta);
    if length - offset < 0x2000_0000_0000_0000 {
      DeltaSolves(before, newcrc, offset, power, inverse.value, delta);
    }
    var crc', length' := GetCrc32AndLength(f);
    res := if crc' == newcrc then Patched else VerifyFailed;
  }

  /** Exclusive-ors the four bytes at offset with those of reversed. */
  method PatchFour(f: array<Byte>, offset: nat, reversed: Word32, ghost p: seq<Byte>)
    requires offset + 4 <= f.Length && |p| == 4 && forall k: nat :: k < 4 ==> p[k] == PatchByte(reversed, k)
    modifies f
    ensures f[..] == Patched4(old(f[..]), offset, p)
    ensures forall k: nat :: k < f.Length && !(offset <= k < offset + 4) ==> f[k] == old(f[k])
  {
    ghost var before := f[..];
    for i := 0 to 4
      invariant forall k: nat :: k < f.Length ==>
        f[k] == if offset <= k < offset + i then XorByte(before[k], p[k - offset]) else before[k]
    {
      f[offset + i] := XorByte(f[offset + i], PatchByte(reversed, i));
    }
    PatchedContents(before, f[..], offset, p);
  }

  /** (reversed >> (i * 8)) & 0xFF */
  function PatchByte(reversed: Word32, i: nat): Byte
    requires i < 4
  {
    Shr(reversed, 8 * i) % 0x100
  }

  lemma PatchedContents(before: seq<Byte>, after: seq<Byte>, offset: nat, p: seq<Byte>)
    requires |after| == |before| && offset + 4 <= |before| && |p| == 4
    requires forall k: nat :: k < |before| ==>
      after[k] == if offset <= k < offset + 4 then XorByte(before[k], p[k - offset]) else before[k]
    ensures after == Patched4(before, offset, p)
  {
    hide XorByte;
    var m := PatchMask(|before|, offset, p);
    forall k: nat | k < |before|
      ensures after[k] == XorByte(before[k], m[k])
    {
      if !(offset <= k < offset + 4) {
        assert m[k] == 0;
        XorByteZero(before[k]);
      }
    }
  }

  lemma XorByteZero(b: Byte)
    ensures XorByte(b, 0) == b
  {
    XorZero(b);
  }

  lemma PatchBytesCarry(reversed: Word32, delta: Word32, p: seq<Byte>)
    requires IsReversed(reversed, delta, 32)
    requires |p| == 4 && forall k: nat :: k < 4 ==> p[k] == PatchByte(reversed, k)
    ensures CarriesDelta(p, delta)
  {
    hide Bit, Shr;
    forall k: nat, j: nat | k < 4 && j < 8
      ensures Bit(p[k], j) == Bit(delta, 31 - 8 * k - j)
    {
      PatchByteBit(reversed, k, j);
    }
  }

  lemma PatchByteBit(reversed: Word32, k: nat, j: nat)
    requires k < 4 && j < 8
    ensures Bit(PatchByte(reversed, k), j) == Bit(reversed, 8 * k + j)
  {
    Pow2Values();
    hide Bit, Shr, Pow2;
    BitOfMod(Shr(reversed, 8 * k), 8, j);
    BitOfShr(reversed, 8 * k, j);
  }

  /** delta times the shift is the difference of the two CRCs. */
  lemma DeltaSolves(s: seq<Byte>, newcrc: Word32, offset: nat, power: Word32, inverse: nat, delta: Word32)
    requires offset <= |s|
    requires power == PowMod(2, 8 * (|s| - offset)) && IsInverse(inverse, power)
    requires delta == MulMod(inverse, Xor(Crc(s), newcrc))
    ensures Xor(Crc(s), MulMod(delta, power)) == newcrc
  {
    hide Xor, MulMod, PowMod, Crc, Rem;
    var difference := Xor(Crc(s), newcrc);
    WordXor(Crc(s), newcrc);
    MulModComm(inverse, difference);
    MulModAssoc(difference, inverse, power);
    MulModOne(difference);
    XorComm(Crc(s), newcrc);
    XorComm(Crc(s), difference);
    XorCancel(newcrc, Crc(s));
  }
}
