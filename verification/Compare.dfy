/** Numeric comparison and total ordering of decFloats (decNumCompare, decBasic.c:3619-3776). */
module Compare {
  import opened Arith
  import opened TenPowers
  import opened DecFloats
  import opened RoundingSpec
  import opened Bcd
  import opened AddDigits
  import opened Quantize

  // ---- the orders ----

  /** Numeric order, infinities included; zeros of either sign are equal. */
  ghost predicate NumLess(l: DecFloat, r: DecFloat)
    requires !l.NaN? && !r.NaN?
  {
    if l.Infinity? then l.sign && !(r.Infinity? && r.sign)
    else if r.Infinity? then !r.sign
    else l.Value() < r.Value()
  }

  /** The same number, and then: minus zero first; the greater exponent is farther from zero. */
  predicate TieLess(l: DecFloat, r: DecFloat)
    requires !l.NaN? && !r.NaN?
  {
    if l.sign != r.sign then l.sign
    else l.Finite? && r.Finite? && if l.sign then r.exp < l.exp else l.exp < r.exp
  }

  ghost predicate NumEqual(l: DecFloat, r: DecFloat)
    requires !l.NaN? && !r.NaN?
  {
    !NumLess(l, r) && !NumLess(r, l)
  }

  /** The total order (section 5.10 of IEEE 754-2008), without NaNs. */
  ghost predicate Precedes(l: DecFloat, r: DecFloat)
    requires !l.NaN? && !r.NaN?
  {
    NumLess(l, r) || (NumEqual(l, r) && TieLess(l, r))
  }

  /** Exactly one of: before, the same datum, after. */
  lemma PrecedesTotal(l: DecFloat, r: DecFloat)
    requires !l.NaN? && !r.NaN?
    ensures Precedes(l, r) || l == r || Precedes(r, l)
    ensures !(Precedes(l, r) && Precedes(r, l)) && !Precedes(l, l)
  {
    if l.Finite? && r.Finite? && l.Value() == r.Value() && l.sign == r.sign && l.exp == r.exp {
      ScaledOrder(l.coeff, r.coeff, l.exp);
    }
    hide Scaled;
  }

  lemma PrecedesTransitive(x: DecFloat, y: DecFloat, z: DecFloat)
    requires !x.NaN? && !y.NaN? && !z.NaN? && Precedes(x, y) && Precedes(y, z)
    ensures Precedes(x, z)
  {
    ZeroOrSigned(x);
    ZeroOrSigned(y);
    ZeroOrSigned(z);
    hide Scaled;
  }

  /** Two data of one value: minus zero before zero; of positive data and zeros the lesser exponent first, of
      negative ones the greater (1.0 before 1, -1 before -1.0). */
  lemma SameValueOrder(l: DecFloat, r: DecFloat)
    requires l.Finite? && r.Finite? && l.Value() == r.Value()
    ensures l.sign && !r.sign ==> Precedes(l, r) && !Precedes(r, l)
    ensures !l.sign && !r.sign && l.exp < r.exp ==> Precedes(l, r) && !Precedes(r, l)
    ensures l.sign && r.sign && l.exp < r.exp ==> Precedes(r, l) && !Precedes(l, r)
  {
    hide Scaled;
  }

  /** Two data of different value, and the infinities at the ends. */
  lemma ValueOrder(l: DecFloat, r: DecFloat)
    requires !l.NaN? && !r.NaN?
    ensures l.Finite? && r.Finite? && l.Value() < r.Value() ==> Precedes(l, r) && NumLess(l, r) && !NumLess(r, l)
    ensures l == Infinity(true) && r != l ==> Precedes(l, r) && NumLess(l, r)
    ensures r == Infinity(false) && r != l ==> Precedes(l, r) && NumLess(l, r)
  {
    hide Scaled;
  }

  /** A sign is visible in the value, except for zeros. */
  lemma ZeroOrSigned(x: DecFloat)
    requires !x.NaN?
    ensures x.Finite? ==> (x.sign ==> x.Value() <= 0.0) && (!x.sign ==> x.Value() >= 0.0)
    ensures x.Finite? ==> (x.Value() == 0.0 <==> x.coeff == 0)
  {
    if x.Finite? {
      ScaledNonNegative(x.coeff, x.exp);
    }
  }

  // ---- comparing digits ----

  /** The first difference from the left decides. */
  lemma FirstDifference(s: seq<nat>, t: seq<nat>, i: nat)
    requires |s| == |t| && i < |s| && Digits(s) && Digits(t) && s[..i] == t[..i] && s[i] < t[i]
    ensures Val(s) < Val(t)
  {
    hide Val, Shift, Pow10;
    var n := |s| - i - 1;
    var (a, b) := (s[i..], t[i..]);
    ValSplit(s, i);
    ValSplit(t, i);
    ValLeading(a);
    ValLeading(b);
    assert Digits(a[1..]);
    ValBound(a[1..]);
    ShiftSum(s[i], 1, n);
    ShiftOne(0, n);
    ShiftMono(s[i] + 1, t[i], n);
  }

  /** The first of n cells that differ, by fours and then cell by cell; n when none do. */
  method FindDifference(a: array<nat>, ai: nat, b: array<nat>, bi: nat, n: nat) returns (i: nat)
    requires ai + n <= a.Length && bi + n <= b.Length && n % 4 == 0
    ensures i <= n && a[ai..ai + n][..i] == b[bi..bi + n][..i] && (i < n ==> a[ai + i] != b[bi + i])
  {
    i := 0;
    while i < n
      invariant i <= n && i % 4 == 0 && a[ai..ai + n][..i] == b[bi..bi + n][..i]
    {
      if a[ai + i] != b[bi + i] || a[ai + i + 1] != b[bi + i + 1] || a[ai + i + 2] != b[bi + i + 2] || a[ai + i + 3] != b[bi + i + 3] {
        var j := Mismatch(a, ai + i, b, bi + i);
        SamePrefix(a, ai, b, bi, n, i, j);
        return i + j;
      }
      FourEqual(a, ai + i, b, bi + i);
      SamePrefix(a, ai, b, bi, n, i, 4);
      i := i + 4;
    }
  }

  lemma FourEqual(a: array<nat>, ai: nat, b: array<nat>, bi: nat)
    requires ai + 4 <= a.Length && bi + 4 <= b.Length
    requires a[ai] == b[bi] && a[ai + 1] == b[bi + 1] && a[ai + 2] == b[bi + 2] && a[ai + 3] == b[bi + 3]
    ensures a[ai..ai + 4] == b[bi..bi + 4]
  {
  }

  /** Compares n cells. */
  method CompareCells(a: array<nat>, ai: nat, b: array<nat>, bi: nat, n: nat) returns (c: int)
    requires ai + n <= a.Length && bi + n <= b.Length && n % 4 == 0
    requires Digits(a[ai..ai + n]) && Digits(b[bi..bi + n])
    ensures c < 0 <==> Val(a[ai..ai + n]) < Val(b[bi..bi + n])
    ensures c == 0 <==> Val(a[ai..ai + n]) == Val(b[bi..bi + n])
  {
    hide Val, Digits;
    ghost var s, t := a[ai..ai + n], b[bi..bi + n];
    var i := FindDifference(a, ai, b, bi, n);
    if i == n {
      assert s == s[..n] && t == t[..n];
      return 0;
    }
    assert s[i] == a[ai + i] && t[i] == b[bi + i];
    if a[ai + i] > b[bi + i] {
      FirstDifference(t, s, i);
      return 1;
    }
    FirstDifference(s, t, i);
    return -1;
  }

  /** Goes by bytes inside a word that differs. */
  method Mismatch(a: array<nat>, ai: nat, b: array<nat>, bi: nat) returns (j: nat)
    requires ai + 4 <= a.Length && bi + 4 <= b.Length
    requires a[ai] != b[bi] || a[ai + 1] != b[bi + 1] || a[ai + 2] != b[bi + 2] || a[ai + 3] != b[bi + 3]
    ensures j < 4 && a[ai + j] != b[bi + j] && a[ai..ai + j] == b[bi..bi + j]
  {
    j := 0;
    while a[ai + j] == b[bi + j]
      invariant j < 4 && a[ai..ai + j] == b[bi..bi + j]
      invariant j == 3 ==> a[ai + 3] != b[bi + 3]
      invariant j == 2 ==> a[ai + 2] != b[bi + 2] || a[ai + 3] != b[bi + 3]
      invariant j == 1 ==> a[ai + 1] != b[bi + 1] || a[ai + 2] != b[bi + 2] || a[ai + 3] != b[bi + 3]
      decreases 4 - j
    {
      assert a[ai..ai + j + 1] == a[ai..ai + j] + [a[ai + j]] && b[bi..bi + j + 1] == b[bi..bi + j] + [b[bi + j]];
      j := j + 1;
    }
  }

  /** m more equal cells make a longer equal prefix. */
  lemma SamePrefix(a: array<nat>, ai: nat, b: array<nat>, bi: nat, n: nat, i: nat, m: nat)
    requires ai + n <= a.Length && bi + n <= b.Length && i + m <= n && a[ai..ai + n][..i] == b[bi..bi + n][..i]
    requires a[ai + i..ai + i + m] == b[bi + i..bi + i + m]
    ensures a[ai..ai + n][..i + m] == b[bi..bi + n][..i + m]
  {
    var (s, t) := (a[ai..ai + n], b[bi..bi + n]);
    assert s[..i + m] == s[..i] + a[ai + i..ai + i + m];
    assert t[..i + m] == t[..i] + b[bi + i..bi + i + m];
  }

  // ---- aligned and shifted coefficients ----

  /** The coefficient in n = pad + p cells of a fresh buffer, zeros first. */
  method LayPadded(c: nat, p: nat) returns (buf: array<nat>)
    requires p >= 4 && c < Pow10(p)
    ensures fresh(buf) && buf.Length == 2 * p + 2 * Pad(p) + 4
    ensures Digits(buf[0..Pad(p) + p]) && Val(buf[0..Pad(p) + p]) == c
  {
    hide Val, Pow10;
    var pad := Pad(p);
    buf := new nat[2 * p + 2 * pad + 4];
    if pad > 0 {
      FourZeros(buf, 0);
    }
    LayDigits(c, buf, pad, p);
    ghost var s, z := buf[pad..pad + p], buf[0..pad];
    assert buf[0..pad + p] == z + s;
    assert AllEqual(z, 0);
    ZerosFirst(z, s);
  }

  lemma ZerosFirst(z: seq<nat>, s: seq<nat>)
    requires AllEqual(z, 0) && Digits(s)
    ensures Digits(z + s) && Val(z + s) == Val(s)
  {
    hide Val;
    assert (z + s)[..|z|] == z && (z + s)[|z|..] == s;
    ValSkipZeros(z + s, |z|);
  }

  /** Pads shift zeros to the right of n cells: eight at once, more in a loop. */
  method PadZeros(buf: array<nat>, n: nat, shift: nat)
    requires n + 8 <= buf.Length && n + shift + 3 < buf.Length && Digits(buf[0..n])
    modifies buf
    ensures Digits(buf[0..n + shift]) && Val(buf[0..n + shift]) == Shift(old(Val(buf[0..n])), shift)
  {
    hide Val, Shift;
    ghost var s := buf[0..n];
    FourZeros(buf, n);
    FourZeros(buf, n + 4);
    var up := n + 8;
    while up < n + shift
      invariant n + 8 <= up && (up <= n + shift + 3 || up == n + 8) && up <= buf.Length
      invariant forall k: nat :: n <= k < up ==> buf[k] == 0
      invariant buf[0..n] == s
    {
      FourZeros(buf, up);
      up := up + 4;
    }
    ghost var z := buf[n..n + shift];
    assert buf[0..n + shift] == s + z;
    ValAppendZeros(s, z);
    DigitsAppend(s, z);
  }

  lemma DigitsAppend(s: seq<nat>, z: seq<nat>)
    requires Digits(s) && AllEqual(z, 0)
    ensures Digits(s + z)
  {
  }

  /** Whether the first n cells are zeros: by fours when there are more than eight, and the rest singly. */
  method LeadingZeros(buf: array<nat>, n: nat) returns (zero: bool)
    requires n <= buf.Length
    ensures zero <==> AllEqual(buf[0..n], 0)
  {
    var ub: nat := 0;
    if n > 8 {
      while true
        invariant ub + 4 <= n
        invariant forall k: nat :: k < ub ==> buf[k] == 0
        decreases n - ub
      {
        if buf[ub] != 0 || buf[ub + 1] != 0 || buf[ub + 2] != 0 || buf[ub + 3] != 0 {
          SomeNonZero(buf, ub, n);
          return false;
        }
        if ub + 4 > n - 4 {
          break;
        }
        ub := ub + 4;
      }
    }
    while ub < n
      invariant ub <= n
      invariant forall k: nat :: k < ub ==> buf[k] == 0
    {
      if buf[ub] != 0 {
        assert buf[0..n][ub] != 0;
        return false;
      }
      ub := ub + 1;
    }
    return true;
  }

  lemma SomeNonZero(buf: array<nat>, at: nat, n: nat)
    requires at + 4 <= n <= buf.Length && (buf[at] != 0 || buf[at + 1] != 0 || buf[at + 2] != 0 || buf[at + 3] != 0)
    ensures !AllEqual(buf[0..n], 0)
  {
    var s := buf[0..n];
    assert s[at] == buf[at] && s[at + 1] == buf[at + 1] && s[at + 2] == buf[at + 2] && s[at + 3] == buf[at + 3];
  }

  /** Digits beyond the length of another number make the greater one. */
  lemma LongerIsMore(s: seq<nat>, shift: nat, n: nat, y: nat)
    requires |s| == shift + n && Digits(s) && y < Pow10(n)
    ensures !AllEqual(s[..shift], 0) ==> Val(s) > y
    ensures AllEqual(s[..shift], 0) ==> Val(s[shift..]) == Val(s)
  {
    hide Val, Pow10, Shift;
    ValSplit(s, shift);
    ValZeroIff(s[..shift]);
    ShiftMono(1, Val(s[..shift]), n);
    ShiftOne(0, n);
    if AllEqual(s[..shift], 0) {
      ValSkipZeros(s, shift);
    }
  }

  /** Compares x * 10^shift with y. */
  method CompareShifted(p: nat, x: nat, y: nat, shift: nat) returns (c: int)
    requires p >= 4 && x < Pow10(p) && y < Pow10(p) && shift < p
    ensures c < 0 <==> Shift(x, shift) < y
    ensures c == 0 <==> Shift(x, shift) == y
  {
    hide Val, Pow10, Shift, Digits, AllEqual;
    var n := Pad(p) + p;
    PadMultiple(p);
    var bufl := LayPadded(x, p);
    var bufr := LayPadded(y, p);
    ShiftZero(x);
    if shift > 0 {
      PadZeros(bufl, n, shift);
      Pow10Mono(p, n);
      LongerIsMore(bufl[0..n + shift], shift, n, y);
      SliceOfSlice(bufl, 0, n + shift, shift);
      var clear := LeadingZeros(bufl, shift);
      if !clear {
        return 1;
      }
      SuffixDigits(bufl[0..n + shift], shift);
    }
    assert shift + n == n + shift && bufr[0..0 + n] == bufr[0..n];
    c := CompareCells(bufl, shift, bufr, 0, n);
  }

  lemma SuffixDigits(s: seq<nat>, i: nat)
    requires i <= |s| && Digits(s)
    ensures Digits(s[i..])
  {
  }

  // ---- the comparison ----

  /** Finite numbers without sign at different exponents, by their coefficients. */
  lemma MagnitudeOrder(cl: nat, el: int, cr: nat, er: int)
    requires el >= er
    ensures Scaled(cl, el) < Scaled(cr, er) <==> Shift(cl, el - er) < cr
    ensures Scaled(cl, el) == Scaled(cr, er) <==> Shift(cl, el - er) == cr
  {
    hide Scale, Shift;
    ScaledShift(cl, er, el - er);
    ScaledOrder(Shift(cl, el - er), cr, er);
  }

  /** Without overlap the greater exponent wins. */
  lemma NoOverlapOrder(p: nat, cl: nat, el: int, cr: nat, er: int)
    requires 0 < cl && cr < Pow10(p) && el - er >= p
    ensures Scaled(cl, el) > Scaled(cr, er)
  {
    hide Scale, Shift, Pow10;
    MagnitudeOrder(cl, el, cr, er);
    ShiftMono(1, cl, el - er);
    ShiftOne(0, el - er);
    Pow10Mono(p, el - er);
  }

  /** Compares the magnitudes of two non-zero finite numbers. */
  method CompareMagnitudes(f: Format, l: DecFloat, r: DecFloat) returns (c: int)
    requires f.Basic() && l.Finite? && r.Finite? && l.Fits(f) && r.Fits(f) && l.coeff > 0 && r.coeff > 0
    ensures c < 0 <==> l.Magnitude() < r.Magnitude()
    ensures c == 0 <==> l.Magnitude() == r.Magnitude()
    ensures l.exp - r.exp >= f.pmax || r.exp - l.exp >= f.pmax ==> c != 0
  {
    hide Scaled, Shift, Pow10;
    var shift := l.exp - r.exp;
    if shift >= f.pmax {
      NoOverlapOrder(f.pmax, l.coeff, l.exp, r.coeff, r.exp);
      return 1;
    }
    if -shift >= f.pmax {
      NoOverlapOrder(f.pmax, r.coeff, r.exp, l.coeff, l.exp);
      return -1;
    }
    if shift >= 0 {
      MagnitudeOrder(l.coeff, l.exp, r.coeff, r.exp);
      c := CompareShifted(f.pmax, l.coeff, r.coeff, shift);
    } else {
      MagnitudeOrder(r.coeff, r.exp, l.coeff, l.exp);
      c := CompareShifted(f.pmax, r.coeff, l.coeff, -shift);
      c := -c;
    }
  }

  lemma OrderByMagnitude(l: DecFloat, r: DecFloat)
    requires l.Finite? && r.Finite?
    ensures l.Magnitude() >= 0.0 && r.Magnitude() >= 0.0
    ensures l.coeff == 0 <==> l.Magnitude() == 0.0
    ensures r.coeff == 0 <==> r.Magnitude() == 0.0
  {
    ScaledNonNegative(l.coeff, l.exp);
    ScaledNonNegative(r.coeff, r.exp);
  }

  /** -1, 0 or 1: numerically when tot is false, in the total order when it is true. */
  method DecNumCompare(f: Format, l: DecFloat, r: DecFloat, tot: bool) returns (c: int)
    requires f.Basic() && !l.NaN? && !r.NaN? && l.Fits(f) && r.Fits(f)
    ensures -1 <= c <= 1
    ensures !tot ==> (c < 0 <==> NumLess(l, r)) && (c > 0 <==> NumLess(r, l))
    ensures tot ==> (c < 0 <==> Precedes(l, r)) && (c > 0 <==> Precedes(r, l)) && (c == 0 <==> l == r)
  {
    hide Scaled, Pow10;
    PrecedesTotal(l, r);
    if l.Finite? && r.Finite? {
      OrderByMagnitude(l, r);
    }
    var sigl := 1;
    if l.sign {
      if !r.sign {
        if l.IsZero() && r.IsZero() && !tot {
          return 0;
        }
        return -1;
      }
      sigl := -1;
    }
    if r.sign && !l.sign {
      if l.IsZero() && r.IsZero() && !tot {
        return 0;
      }
      return 1;
    }
    var sigr := -sigl;
    if l.Infinity? {
      return if r.Infinity? then 0 else sigl;
    }
    if r.Infinity? {
      return sigr;
    }
    var shift := l.exp - r.exp;
    if l.IsZero() {
      if !r.IsZero() {
        return sigr;
      }
      if shift == 0 || !tot {
        return 0;
      }
      return if shift > 0 then sigl else sigr;
    }
    if r.IsZero() {
      return sigl;
    }
    var m := CompareMagnitudes(f, l, r);
    if m != 0 {
      return if m > 0 then sigl else sigr;
    }
    if !tot {
      return 0;
    }
    return if shift > 0 then sigl else if shift < 0 then sigr else 0;
  }
}
