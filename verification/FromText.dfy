/** Reading numbers (decFloatFromString, decCommon.c:779-1005): syntax check, digits into a buffer,
    or, for coefficients of any length, the leading ones and a sticky digit. */
module FromText {
  import opened Arith
  import opened TenPowers
  import opened DecFloats
  import opened RoundingSpec
  import opened Truncation
  import opened Bcd
  import opened Finalize
  import opened Add
  import opened Text
  import opened TextRoundTrip

  // ---- coefficients as digits ----

  /** Digits and points only. */
  predicate IsCoefficient(t: string) {
    forall k: nat :: k < |t| ==> IsDigit(t[k]) || t[k] == '.'
  }

  /** The digits of a coefficient, points left out. */
  function DigitsIn(t: string): (d: seq<nat>)
    requires IsCoefficient(t)
    ensures |d| <= |t| && Digits(d)
  {
    if |t| == 0 then [] else if t[0] == '.' then DigitsIn(t[1..]) else [DigitOf(t[0])] + DigitsIn(t[1..])
  }

  lemma {:induction false} DigitsInConcat(a: string, b: string)
    requires IsCoefficient(a) && IsCoefficient(b)
    ensures IsCoefficient(a + b) && DigitsIn(a + b) == DigitsIn(a) + DigitsIn(b)
  {
    if |a| == 0 {
      assert a + b == b;
    } else {
      assert (a + b)[1..] == a[1..] + b;
      DigitsInConcat(a[1..], b);
    }
  }

  lemma {:induction false} DigitsInDigits(t: string)
    requires AllDigits(t)
    ensures IsCoefficient(t) && DigitsIn(t) == DigitsOf(t)
  {
    if |t| > 0 {
      DigitsInDigits(t[1..]);
      assert DigitsOf(t) == [DigitOf(t[0])] + DigitsOf(t[1..]);
    }
  }

  /** What the scan accepts: digits, with at most one point among them. */
  lemma {:induction false} ScanShape(s: string, i: nat, dot: bool)
    requires i <= |s|
    ensures var t := s[i..CoefficientEnd(s, i, dot)]; var p := DotPlace(t);
            && IsCoefficient(t)
            && (p == |t| ==> AllDigits(t))
            && (p < |t| ==> !dot && AllDigits(t[..p]) && t[p] == '.' && AllDigits(t[p + 1..]))
    decreases |s| - i
  {
    var n := CoefficientEnd(s, i, dot);
    var t := s[i..n];
    if i < |s| && IsDigit(s[i]) {
      ScanShape(s, i + 1, dot);
      assert t[1..] == s[i + 1..n] && t[0] == s[i];
      FirstDigit(t);
    } else if i < |s| && s[i] == '.' && !dot {
      ScanShape(s, i + 1, true);
      assert t[1..] == s[i + 1..n] && t[0] == '.';
    } else {
      assert t == "";
    }
  }

  /** A digit in front of an accepted coefficient. */
  lemma FirstDigit(t: string)
    requires |t| > 0 && IsDigit(t[0])
    requires var u := t[1..]; var p := DotPlace(u);
             && IsCoefficient(u) && (p == |u| ==> AllDigits(u))
             && (p < |u| ==> AllDigits(u[..p]) && u[p] == '.' && AllDigits(u[p + 1..]))
    ensures var p := DotPlace(t);
            && IsCoefficient(t) && (p == |t| ==> AllDigits(t))
            && (p < |t| ==> AllDigits(t[..p]) && t[p] == '.' && AllDigits(t[p + 1..]))
    ensures DotPlace(t) == 1 + DotPlace(t[1..])
  {
    var u := t[1..];
    var p := DotPlace(u);
    assert t[0] != '.' && DotPlace(t) == 1 + p;
    hide DotPlace;
    if p < |u| {
      assert t[..p + 1][1..] == u[..p] && t[p + 2..] == u[p + 1..] && t[p + 1] == u[p];
      PrependedDigits(t[..p + 1]);
      CoefficientWithPoint(t, p + 1);
    } else {
      PrependedDigits(t);
      DigitsInDigits(t);
    }
  }

  lemma PrependedDigits(t: string)
    requires |t| > 0 && IsDigit(t[0]) && AllDigits(t[1..])
    ensures AllDigits(t)
  {
    forall k: nat | k < |t|
      ensures IsDigit(t[k])
    {
      assert k > 0 ==> t[1..][k - 1] == t[k];
    }
  }

  lemma CoefficientWithPoint(t: string, p: nat)
    requires p < |t| && t[p] == '.' && AllDigits(t[..p]) && AllDigits(t[p + 1..])
    ensures IsCoefficient(t)
  {
    forall k: nat | k < |t|
      ensures IsDigit(t[k]) || t[k] == '.'
    {
      if k < p {
        assert t[..p][k] == t[k];
      } else if k > p {
        assert t[p + 1..][k - p - 1] == t[k];
      }
    }
  }

  /** The digits of an accepted coefficient are those of the text without its point. */
  lemma DigitsWithoutDot(s: string)
    ensures var m := s[..CoefficientEnd(s, 0, false)]; var d := WithoutDot(m);
            && IsCoefficient(m) && AllDigits(d) && DigitsIn(m) == DigitsOf(d)
            && |d| == |m| - if DotPlace(m) < |m| then 1 else 0
  {
    hide CoefficientEnd, DotPlace, DigitsIn, DigitsOf, AllDigits, IsCoefficient;
    var n := CoefficientEnd(s, 0, false);
    var m := s[..n];
    assert m == s[0..n];
    ScanShape(s, 0, false);
    if DotPlace(m) < |m| {
      JoinedDigits(m, DotPlace(m));
    } else {
      DigitsInDigits(m);
    }
  }

  lemma JoinedDigits(m: string, p: nat)
    requires p < |m| && m[p] == '.' && AllDigits(m[..p]) && AllDigits(m[p + 1..])
    ensures IsCoefficient(m) && AllDigits(m[..p] + m[p + 1..]) && DigitsIn(m) == DigitsOf(m[..p] + m[p + 1..])
  {
    var (a, b) := (m[..p], m[p + 1..]);
    assert m == a + ("." + b);
    DigitsOfJoin(a, b);
    hide DigitsIn, DigitsOf, AllDigits;
    DigitsInDigits(a);
    DigitsInDigits(b);
    DotOnly(b);
    DigitsInConcat(a, "." + b);
  }

  lemma DigitsOfJoin(a: string, b: string)
    requires AllDigits(a) && AllDigits(b)
    ensures AllDigits(a + b) && DigitsOf(a + b) == DigitsOf(a) + DigitsOf(b)
  {
  }

  lemma DotOnly(b: string)
    requires IsCoefficient(b)
    ensures IsCoefficient("." + b) && DigitsIn("." + b) == DigitsIn(b)
  {
    assert ("." + b)[1..] == b;
  }

  // ---- copying digits ----

  /** One character more. */
  lemma OneMore(s: string, from: nat, c: nat)
    requires from <= c < |s| && IsCoefficient(s[from..c]) && (IsDigit(s[c]) || s[c] == '.')
    ensures IsCoefficient(s[from..c + 1])
    ensures DigitsIn(s[from..c + 1]) == DigitsIn(s[from..c]) + if s[c] == '.' then [] else [DigitOf(s[c])]
  {
    assert s[from..c + 1] == s[from..c] + [s[c]];
    DigitsInConcat(s[from..c], [s[c]]);
    assert [s[c]][1..] == "";
  }

  /** The test by mask: the high nibble of a digit is 3, of a point it is not. */
  function HighNibble(c: char): nat {
    c as int / 16 % 16
  }

  lemma MaskTellsDigits(c: char)
    requires IsDigit(c) || c == '.'
    ensures HighNibble(c) == 3 <==> IsDigit(c)
  {
  }

  /** Whether four characters are all digits. */
  method FourDigits(s: string, c: nat) returns (yes: bool)
    requires c + 4 <= |s| && IsCoefficient(s[c..c + 4])
    ensures yes <==> AllDigits(s[c..c + 4])
  {
    var t := s[c..c + 4];
    MaskTellsDigits(t[0]);
    MaskTellsDigits(t[1]);
    MaskTellsDigits(t[2]);
    MaskTellsDigits(t[3]);
    yes := HighNibble(t[0]) == 3 && HighNibble(t[1]) == 3 && HighNibble(t[2]) == 3 && HighNibble(t[3]) == 3;
  }

  /** Copies four digits at once. */
  method PutFour(s: string, from: nat, c: nat, buf: array<nat>, ub: nat)
    requires from <= c && c + 4 <= |s| && AllDigits(s[c..c + 4]) && ub + 4 <= buf.Length
    requires IsCoefficient(s[from..c]) && buf[..ub] == DigitsIn(s[from..c])
    modifies buf
    ensures IsCoefficient(s[from..c + 4]) && buf[..ub + 4] == DigitsIn(s[from..c + 4])
  {
    var t := s[c..c + 4];
    ghost var done := buf[..ub];
    buf[ub], buf[ub + 1], buf[ub + 2], buf[ub + 3] := DigitOf(t[0]), DigitOf(t[1]), DigitOf(t[2]), DigitOf(t[3]);
    assert buf[..ub + 4] == done + DigitsOf(t);
    assert s[from..c + 4] == s[from..c] + t;
    DigitsInDigits(t);
    DigitsInConcat(s[from..c], t);
  }

  method PutOne(s: string, from: nat, c: nat, buf: array<nat>, ub: nat)
    requires from <= c < |s| && IsDigit(s[c]) && ub < buf.Length
    requires IsCoefficient(s[from..c]) && buf[..ub] == DigitsIn(s[from..c])
    modifies buf
    ensures IsCoefficient(s[from..c + 1]) && buf[..ub + 1] == DigitsIn(s[from..c + 1])
  {
    ghost var done := buf[..ub];
    OneMore(s, from, c);
    assert s[c] != '.';
    buf[ub] := DigitOf(s[c]);
    assert buf[..ub + 1] == done + [DigitOf(s[c])];
  }

  /** Cells of a coefficient, from any place on. */
  lemma PartOfCoefficient(s: string, from: nat, end: nat, c: nat, d: nat)
    requires from <= c <= d <= end <= |s| && IsCoefficient(s[from..end])
    ensures IsCoefficient(s[c..d])
    ensures forall k: nat :: c <= k < d ==> IsDigit(s[k]) || s[k] == '.'
  {
    forall k: nat | c <= k < d
      ensures IsDigit(s[k]) || s[k] == '.'
    {
      assert s[from..end][k - from] == s[k];
    }
  }

  /** Up to the point, or the end: by fours where four digits come, singly otherwise. */
  method CopyToDot(s: string, from: nat, c0: nat, end: nat, buf: array<nat>, ub0: nat) returns (c: nat, ub: nat)
    requires from <= c0 <= end <= |s| && IsCoefficient(s[from..end]) && IsCoefficient(s[from..c0])
    requires ub0 <= buf.Length && buf[..ub0] == DigitsIn(s[from..c0]) && ub0 + (end - c0) <= buf.Length
    modifies buf
    ensures c0 <= c <= end && IsCoefficient(s[from..c]) && ub <= ub0 + (c - c0) && buf[..ub] == DigitsIn(s[from..c])
    ensures c < end ==> c > c0 && s[c - 1] == '.'
  {
    hide DigitsIn, IsCoefficient;
    c, ub := c0, ub0;
    while c < end
      invariant c0 <= c <= end && IsCoefficient(s[from..c]) && ub <= ub0 + (c - c0) && buf[..ub] == DigitsIn(s[from..c])
      decreases end - c
    {
      var four := false;
      if c + 4 <= end {
        PartOfCoefficient(s, from, end, c, c + 4);
        four := FourDigits(s, c);
      }
      if four {
        PutFour(s, from, c, buf, ub);
        c, ub := c + 4, ub + 4;
      } else {
        PartOfCoefficient(s, from, end, c, c + 1);
        OneMore(s, from, c);
        if s[c] == '.' {
          c := c + 1;
          return;
        }
        PutOne(s, from, c, buf, ub);
        c, ub := c + 1, ub + 1;
      }
    }
  }

  /** Where no point is left: by fours, then singly. */
  method CopyRest(s: string, from: nat, c0: nat, end: nat, buf: array<nat>, ub0: nat) returns (ub: nat)
    requires from <= c0 <= end <= |s| && IsCoefficient(s[from..c0]) && AllDigits(s[c0..end])
    requires ub0 <= buf.Length && buf[..ub0] == DigitsIn(s[from..c0]) && ub0 + (end - c0) <= buf.Length
    modifies buf
    ensures IsCoefficient(s[from..end]) && ub == ub0 + (end - c0) && buf[..ub] == DigitsIn(s[from..end])
  {
    hide DigitsIn, IsCoefficient;
    var c := c0;
    ub := ub0;
    while c + 4 <= end
      invariant c0 <= c <= end && ub == ub0 + (c - c0) && IsCoefficient(s[from..c]) && buf[..ub] == DigitsIn(s[from..c])
    {
      PartDigits(s, c0, end, c, c + 4);
      PutFour(s, from, c, buf, ub);
      c, ub := c + 4, ub + 4;
    }
    while c < end
      invariant c0 <= c <= end && ub == ub0 + (c - c0) && IsCoefficient(s[from..c]) && buf[..ub] == DigitsIn(s[from..c])
    {
      PartDigits(s, c0, end, c, c + 1);
      PutOne(s, from, c, buf, ub);
      c, ub := c + 1, ub + 1;
    }
  }

  lemma PartDigits(s: string, from: nat, end: nat, c: nat, d: nat)
    requires from <= c < d <= end <= |s| && AllDigits(s[from..end])
    ensures AllDigits(s[c..d]) && IsDigit(s[c])
  {
    forall k: nat | c <= k < d
      ensures IsDigit(s[k])
    {
      assert s[from..end][k - from] == s[k];
    }
  }

  // ---- leading digits and a sticky one ----

  /** A digit followed by something non-zero, made sticky: rounding does not notice. */
  lemma StickyDigit(f: Format, mode: Rounding, sign: bool, a: nat, d: nat, v: nat, q: int, m: real, pref: int)
    requires f.Valid() && a >= Pow10(f.pmax - 1) && d <= 9 && v == 10 * a + d
    requires Scaled(v, q) < m < Scaled(v + 1, q)
    ensures m > 0.0 && Round(f, mode, sign, m, pref) == RoundScaled(f, mode, sign, 10 * a + Sticky(d), q)
  {
    hide Scale, Pow10, Round, ResidueOf;
    var c := 10 * a + Sticky(d);
    var (x, y) := (Scale(m, -(q + 1)), Scale(Scaled(c, q), -(q + 1)));
    ScaledOrder(10 * a, v, q);
    ScaledOrder(v + 1, 10 * a + 10, q);
    ScaledOrder(10 * a, c, q);
    ScaledOrder(c, 10 * a + 10, q);
    InCell(a, q, m, x);
    InCell(a, q, Scaled(c, q), y);
    Middle(a, q, m, x);
    Middle(a, q, Scaled(c, q), y);
    ScaledOrder(10 * a + 5, v, q);
    ScaledOrder(v + 1, 10 * a + 5, q);
    ScaledOrder(10 * a + 5, c, q);
    ScaledOrder(c, 10 * a + 5, q);
    ScaledNonNegative(c, q);
    ScaledNonNegative(10 * a, q);
    SameClass(f, mode, sign, x, y, a, q + 1, pref, q);
  }

  /** On which side of the middle of ten units. */
  lemma Middle(k: nat, e: int, m: real, x: real)
    requires x == Scale(m, -(e + 1)) && k as real < x < (k + 1) as real
    ensures ResidueOf(x - k as real)
         == if m < Scaled(10 * k + 5, e) then BelowHalf else if m == Scaled(10 * k + 5, e) then Half else AboveHalf
  {
    hide Scale;
    var w := k as real + 0.5;
    ScaleInverse(m, e + 1);
    ScaleAdd(w, e, 1);
    ScaleTen(w);
    assert 10.0 * w == (10 * k + 5) as real;
    ScaleOrder(w, x, e + 1);
    ScaleOrder(x, w, e + 1);
  }

  /** The digits kept, K, of which the last is sticky when something non-zero follows. */
  function Kept(K: seq<nat>, sticky: bool): (s: seq<nat>)
    requires |K| >= 1 && Digits(K)
    ensures |s| == |K| && Digits(s)
  {
    if sticky then K[|K| - 1 := Sticky(K[|K| - 1])] else K
  }

  /** Rounding the kept digits is rounding the whole number. */
  lemma KeptRounds(f: Format, mode: Rounding, sign: bool, K: seq<nat>, R: seq<nat>, e: int)
    requires f.Valid() && |K| >= 1 && Digits(K) && Digits(R)
    requires |R| > 0 ==> |K| > f.pmax && K[0] != 0
    ensures RoundScaled(f, mode, sign, Val(K + R), e)
         == RoundScaled(f, mode, sign, Val(Kept(K, !AllEqual(R, 0))), e + |R|)
  {
    hide Scale, Pow10, Round, Val, Shift;
    var (q, v) := (e + |R|, Val(K));
    ValConcat(K, R);
    ValZeroIff(R);
    if |R| == 0 {
      assert K + R == K;
    } else {
      ValLeading(K);
      Pow10Mono(f.pmax, |K| - 1);
      Pow10Positive(f.pmax);
      if AllEqual(R, 0) {
        ScaledShift(v, e, |R|);
        ScaledNonNegative(v, q);
        SameFarPref(f, mode, sign, v, q, e);
      } else {
        ValBound(R);
        LastOfKept(K);
        StickyNumber(f, mode, sign, v, Val(R), |R|, Val(K + R), e);
      }
    }
  }

  /** Digits v followed by n more that are not all zeros. */
  lemma StickyNumber(f: Format, mode: Rounding, sign: bool, v: nat, r: nat, n: nat, whole: nat, e: int)
    requires f.Valid() && v >= Pow10(f.pmax) && 0 < r < Pow10(n) && whole == Shift(v, n) + r
    ensures RoundScaled(f, mode, sign, whole, e) == RoundScaled(f, mode, sign, 10 * (v / 10) + Sticky(v % 10), e + n)
  {
    hide *;
    ValidPrecision(f);
    TensOf(v, f.pmax);
    WholeBetween(v, r, n, whole, e);
    StickyDigit(f, mode, sign, v / 10, v % 10, v, e + n, Scaled(whole, e), e);
    RoundScaledUnfold(f, mode, sign, whole, e);
  }

  lemma ValidPrecision(f: Format)
    requires f.Valid()
    ensures f.pmax >= 1
  {
  }

  lemma RoundScaledUnfold(f: Format, mode: Rounding, sign: bool, c: nat, e: int)
    requires f.Valid()
    ensures Scaled(c, e) >= 0.0 && RoundScaled(f, mode, sign, c, e) == Round(f, mode, sign, Scaled(c, e), e)
  {
    ScaledNonNegative(c, e);
  }

  lemma WholeBetween(v: nat, r: nat, n: nat, whole: nat, e: int)
    requires 0 < r < Pow10(n) && whole == Shift(v, n) + r
    ensures Scaled(v, e + n) < Scaled(whole, e) < Scaled(v + 1, e + n)
  {
    hide Scale, Pow10, Shift;
    ShiftSum(v, 1, n);
    ShiftOne(0, n);
    ScaledShift(v, e, n);
    ScaledShift(v + 1, e, n);
    ScaledOrder(Shift(v, n), whole, e);
    ScaledOrder(whole, Shift(v + 1, n), e);
  }

  lemma TensOf(v: nat, p: nat)
    requires v >= Pow10(p) && p >= 1
    ensures v / 10 >= Pow10(p - 1) && v == 10 * (v / 10) + v % 10 && v % 10 <= 9
  {
  }

  lemma LastOfKept(K: seq<nat>)
    requires |K| >= 1 && Digits(K)
    ensures Val(Kept(K, true)) == 10 * (Val(K) / 10) + Sticky(Val(K) % 10)
  {
    var s := Kept(K, true);
    assert s[..|s| - 1] == K[..|K| - 1];
    DivModUnique(Val(K), 10, Val(K[..|K| - 1]), K[|K| - 1]);
  }

  /** Zeros dropped from a long coefficient: only the wanted exponent changes, out of reach anyway. */
  lemma SameFarPref(f: Format, mode: Rounding, sign: bool, v: nat, q: int, e: int)
    requires f.Valid() && v >= Pow10(f.pmax) && q >= e && Scaled(v, q) >= 0.0
    ensures Round(f, mode, sign, Scaled(v, q), e) == Round(f, mode, sign, Scaled(v, q), q)
  {
    hide Scale, Pow10, Round, Ten;
    Pow10One();
    Pow10Positive(f.pmax);
    ScaledNonNegative(v, q);
    ScaledOfPow10(f.pmax, q);
    ScaledOfPow10(0, f.pmax + q);
    ScaledOrder(v, Pow10(f.pmax), q);
    FarPrefs(f, mode, sign, Scaled(v, q), f.pmax + q, e, q);
  }

  // ---- coefficients of any length ----

  /** The first character of the rest of a coefficient. */
  lemma HeadOfRest(s: string, c: nat, end: nat)
    requires c < end <= |s| && IsCoefficient(s[c..end])
    ensures IsCoefficient(s[c + 1..end]) && (IsDigit(s[c]) || s[c] == '.')
    ensures DigitsIn(s[c..end]) == (if s[c] == '.' then [] else [DigitOf(s[c])]) + DigitsIn(s[c + 1..end])
  {
    var t := s[c..end];
    assert t[0] == s[c] && t[1..] == s[c + 1..end];
    PartOfCoefficient(s, c, end, c + 1, end);
  }

  lemma NoMoreThanOne(s: string, c: nat, end: nat)
    requires c < end <= |s| && IsCoefficient(s[c..end]) && c + 1 == end
    ensures |DigitsIn(s[c..end])| <= 1
  {
    HeadOfRest(s, c, end);
  }

  /** z zeros. */
  function ZeroDigits(z: nat): (d: seq<nat>)
    ensures |d| == z && AllEqual(d, 0)
  {
    seq(z, _ => 0)
  }

  /** D is what is left of D0 after z zeros. */
  predicate AfterZeros(D0: seq<nat>, z: nat, D: seq<nat>) {
    D0 == ZeroDigits(z) + D
  }

  lemma NoZerosYet(D: seq<nat>)
    ensures AfterZeros(D, 0, D)
  {
  }

  lemma OneZeroLess(D0: seq<nat>, z: nat, d: seq<nat>)
    requires AfterZeros(D0, z, [0] + d)
    ensures AfterZeros(D0, z + 1, d)
  {
    assert ZeroDigits(z) + ([0] + d) == ZeroDigits(z + 1) + d;
  }

  /** Strips leading zeros, and a point in front or among them, but not the last character. */
  method StripLeadingZeros(s: string, cfirst0: nat, end: nat, digits0: nat) returns (cfirst: nat, digits: nat)
    requires cfirst0 < end <= |s| && IsCoefficient(s[cfirst0..end]) && digits0 == |DigitsIn(s[cfirst0..end])| >= 1
    requires s[cfirst0] == '.' ==> cfirst0 + 1 < end
    ensures cfirst0 <= cfirst < end && IsCoefficient(s[cfirst..end]) && digits <= digits0
    ensures AfterZeros(DigitsIn(s[cfirst0..end]), digits0 - digits, DigitsIn(s[cfirst..end]))
    ensures digits == |DigitsIn(s[cfirst..end])|
    ensures (s[cfirst0] != '.' || IsDigit(s[cfirst0 + 1])) && (digits >= 2 || cfirst + 1 != end)
        ==> digits >= 1 && DigitsIn(s[cfirst..end])[0] != 0
  {
    hide IsCoefficient, DigitsIn, AfterZeros;
    cfirst, digits := cfirst0, digits0;
    ghost var D0 := DigitsIn(s[cfirst0..end]);
    NoZerosYet(D0);
    HeadOfRest(s, cfirst, end);
    if s[cfirst] == '.' {
      NothingInFront(D0, DigitsIn(s[cfirst + 1..end]));
      cfirst := cfirst + 1;
      HeadOfRest(s, cfirst, end);
    }
    if s[cfirst] == '0' {
      cfirst, digits := StripZeroDigits(s, cfirst, end, digits0);
    } else if IsDigit(s[cfirst]) {
      FirstOf(DigitOf(s[cfirst]), DigitsIn(s[cfirst + 1..end]));
    }
  }

  lemma NothingInFront(D: seq<nat>, r: seq<nat>)
    requires D == [] + r
    ensures D == r
  {
  }

  lemma FirstOf(d: nat, r: seq<nat>)
    ensures ([d] + r)[0] == d
  {
  }

  method StripZeroDigits(s: string, cfirst0: nat, end: nat, digits0: nat) returns (cfirst: nat, digits: nat)
    requires cfirst0 < end <= |s| && IsCoefficient(s[cfirst0..end]) && digits0 == |DigitsIn(s[cfirst0..end])|
    ensures cfirst0 <= cfirst < end && IsCoefficient(s[cfirst..end]) && digits <= digits0
    ensures AfterZeros(DigitsIn(s[cfirst0..end]), digits0 - digits, DigitsIn(s[cfirst..end]))
    ensures digits == |DigitsIn(s[cfirst..end])|
    ensures digits >= 2 || cfirst + 1 != end ==> digits >= 1 && DigitsIn(s[cfirst..end])[0] != 0
  {
    hide IsCoefficient, DigitsIn, AfterZeros;
    cfirst, digits := cfirst0, digits0;
    ghost var D0 := DigitsIn(s[cfirst0..end]);
    NoZerosYet(D0);
    while cfirst + 1 < end
      invariant cfirst0 <= cfirst < end && IsCoefficient(s[cfirst..end]) && digits <= digits0
      invariant AfterZeros(D0, digits0 - digits, DigitsIn(s[cfirst..end]))
      invariant digits == |DigitsIn(s[cfirst..end])|
      decreases end - cfirst
    {
      HeadOfRest(s, cfirst, end);
      ghost var r := DigitsIn(s[cfirst + 1..end]);
      if s[cfirst] != '0' {
        if s[cfirst] != '.' {
          FirstOf(DigitOf(s[cfirst]), r);
          return;
        }
        NothingInFront(DigitsIn(s[cfirst..end]), r);
      } else {
        OneZeroLess(D0, digits0 - digits, r);
        digits := digits - 1;
      }
      cfirst := cfirst + 1;
    }
    NoMoreThanOne(s, cfirst, end);
  }

  /** Copies digits until more than pmax are there, or the end: by fours where four digits come. */
  method CopyLeading(p: nat, s: string, cfirst: nat, end: nat, buf: array<nat>) returns (c: nat, ub: nat)
    requires cfirst <= end <= |s| && IsCoefficient(s[cfirst..end]) && p + 4 <= buf.Length
    modifies buf
    ensures cfirst <= c <= end && IsCoefficient(s[cfirst..c]) && ub <= p + 4 && buf[..ub] == DigitsIn(s[cfirst..c])
    ensures c < end ==> ub > p
  {
    c, ub := cfirst, 0;
    assert s[cfirst..cfirst] == "";
    while c < end && ub <= p
      invariant cfirst <= c <= end && IsCoefficient(s[cfirst..c]) && ub <= p + 4 && buf[..ub] == DigitsIn(s[cfirst..c])
      decreases end - c
    {
      var four := false;
      if c + 4 <= end {
        PartOfCoefficient(s, cfirst, end, c, c + 4);
        four := FourDigits(s, c);
      }
      if four {
        PutFour(s, cfirst, c, buf, ub);
        c, ub := c + 4, ub + 4;
      } else {
        PartOfCoefficient(s, cfirst, end, c, c + 1);
        OneMore(s, cfirst, c);
        if s[c] == '.' {
          c := c + 1;
        } else {
          PutOne(s, cfirst, c, buf, ub);
          c, ub := c + 1, ub + 1;
        }
      }
    }
  }

  /** Makes the last digit sticky if anything but zeros and a point follows. */
  method StickyRest(s: string, c0: nat, end: nat, buf: array<nat>, ub: nat)
    requires c0 <= end <= |s| && IsCoefficient(s[c0..end]) && 1 <= ub <= buf.Length && Digits(buf[..ub])
    modifies buf
    ensures buf[..ub] == Kept(old(buf[..ub]), !AllEqual(DigitsIn(s[c0..end]), 0))
  {
    hide DigitsIn, IsCoefficient, AllEqual;
    ghost var K := buf[..ub];
    var c := c0;
    EmptyEnd(s, end);
    while c < end
      invariant c0 <= c <= end && buf[..ub] == K && IsCoefficient(s[c..end])
      invariant AllEqual(DigitsIn(s[c0..end]), 0) <==> AllEqual(DigitsIn(s[c..end]), 0)
    {
      HeadOfRest(s, c, end);
      if s[c] != '0' {
        if s[c] == '.' {
          NothingInFront(DigitsIn(s[c..end]), DigitsIn(s[c + 1..end]));
        } else {
          NonZeroHead(DigitOf(s[c]), DigitsIn(s[c + 1..end]));
          buf[ub - 1] := Sticky(buf[ub - 1]);
          assert buf[..ub] == K[ub - 1 := Sticky(K[ub - 1])];
          return;
        }
      } else {
        ZeroHead(DigitsIn(s[c + 1..end]));
      }
      c := c + 1;
    }
  }

  lemma EmptyEnd(s: string, end: nat)
    requires end <= |s|
    ensures IsCoefficient(s[end..end]) && AllEqual(DigitsIn(s[end..end]), 0)
  {
  }

  lemma NonZeroHead(d: nat, r: seq<nat>)
    requires d != 0
    ensures !AllEqual([d] + r, 0)
  {
    assert ([d] + r)[0] == d;
  }

  lemma ZeroHead(r: seq<nat>)
    ensures AllEqual([0] + r, 0) <==> AllEqual(r, 0)
  {
    if AllEqual([0] + r, 0) {
      forall k: nat | k < |r|
        ensures r[k] == 0
      {
        assert ([0] + r)[k + 1] == r[k];
      }
    }
  }

  /** The accepted coefficient at cells cfirst..end of a string, dotat the place of its point or -1. */
  predicate Scanned(s: string, cfirst: nat, end: nat, dotat: int) {
    && cfirst < end <= |s| && IsCoefficient(s[cfirst..end])
    && (dotat == -1 ==> AllDigits(s[cfirst..end]))
    && (dotat != -1 ==> cfirst <= dotat < end && s[dotat] == '.' && AllDigits(s[cfirst..dotat]) && AllDigits(s[dotat + 1..end]))
  }

  /** DECSTRING + 11, rounded up: cells for most coefficients. */
  function BufferSize(f: Format): nat {
    (f.pmax + 20 + 7) / 8 * 8
  }

  /** Only one point: everything else is a digit. */
  lemma OnlyPoint(s: string, cfirst: nat, end: nat, dotat: int, k: nat)
    requires Scanned(s, cfirst, end, dotat) && cfirst <= k < end
    ensures k != dotat ==> IsDigit(s[k])
  {
    if dotat == -1 {
      assert s[cfirst..end][k - cfirst] == s[k];
    } else if k < dotat {
      assert s[cfirst..dotat][k - cfirst] == s[k];
    } else if k > dotat {
      assert s[dotat + 1..end][k - dotat - 1] == s[k];
    }
  }

  /** A coefficient that fits the buffer. */
  method ReadShort(s: string, cfirst: nat, end: nat, dotat: int, buf: array<nat>) returns (ub: nat)
    requires Scanned(s, cfirst, end, dotat) && end - cfirst <= buf.Length
    modifies buf
    ensures ub <= buf.Length && buf[..ub] == DigitsIn(s[cfirst..end])
  {
    var c := cfirst;
    ub := 0;
    assert s[cfirst..cfirst] == "" && buf[..0] == [];
    if dotat != -1 {
      hide Scanned;
      ScannedFacts(s, cfirst, end, dotat);
      if dotat == cfirst + 1 {
        hide DigitsIn, IsCoefficient;
        PutOne(s, cfirst, c, buf, ub);
        OneMore(s, cfirst, c + 1);
        c, ub := c + 2, 1;
        assert buf[..1] == DigitsIn(s[cfirst..c]);
      } else {
        hide DigitsIn, IsCoefficient;
        c, ub := CopyToDot(s, cfirst, c, end, buf, ub);
        if c < end {
          OnlyPoint(s, cfirst, end, dotat, c - 1);
        } else {
          assert AllDigits(s[end..end]);
        }
      }
    }
    hide DigitsIn, IsCoefficient;
    ub := CopyRest(s, cfirst, c, end, buf, ub);
  }

  lemma ScannedFacts(s: string, cfirst: nat, end: nat, dotat: int)
    requires Scanned(s, cfirst, end, dotat) && dotat != -1
    ensures cfirst <= dotat < end <= |s| && IsCoefficient(s[cfirst..end]) && s[dotat] == '.' && AllDigits(s[dotat + 1..end])
    ensures dotat == cfirst + 1 ==> IsDigit(s[cfirst])
  {
    if dotat == cfirst + 1 {
      assert s[cfirst..dotat][0] == s[cfirst];
    }
  }

  /** A coefficient too long for the buffer: its leading digits, at least pmax + 1 of them, the last one
      sticky. Nothing is delivered when all digits are zeros and the point comes last. */
  method ReadLong(f: Format, s: string, cfirst0: nat, end: nat, dotat: int, digits0: nat, buf: array<nat>)
    returns (ub: nat, dropped: nat, ghost K: seq<nat>, ghost R: seq<nat>, ghost z: nat)
    requires Scanned(s, cfirst0, end, dotat) && digits0 == |DigitsIn(s[cfirst0..end])| >= 2 && f.pmax + 4 <= buf.Length
    modifies buf
    ensures Digits(K) && Digits(R) && AfterZeros(DigitsIn(s[cfirst0..end]), z, K + R)
    ensures ub == |K| <= buf.Length && dropped == |R| && (|R| > 0 ==> |K| > f.pmax && K[0] != 0)
    ensures ub > 0 ==> buf[..ub] == Kept(K, !AllEqual(R, 0))
    ensures ub == 0 ==> R == []
    ensures ub == 0 <==> AllEqual(DigitsIn(s[cfirst0..end]), 0) && s[end - 1] == '.'
  {
    hide DigitsIn, IsCoefficient, AfterZeros, Digits, AllEqual;
    PointThenDigit(s, cfirst0, end, dotat);
    var cfirst, digits := StripLeadingZeros(s, cfirst0, end, digits0);
    var c;
    c, ub := CopyLeading(f.pmax, s, cfirst, end, buf);
    SplitDigits(s, cfirst, c, end);
    K, R := DigitsIn(s[cfirst..c]), DigitsIn(s[c..end]);
    z := digits0 - digits;
    if ub > 0 {
      StickyRest(s, c, end, buf, ub);
    }
    dropped := digits - ub;
    PartsKept(f.pmax, s, cfirst, c, end, DigitsIn(s[cfirst0..end]), z, K, R);
  }

  /** What the digits copied and those behind them say of the whole. */
  lemma PartsKept(p: nat, s: string, cfirst: nat, c: nat, end: nat, D0: seq<nat>, z: nat, K: seq<nat>, R: seq<nat>)
    requires cfirst <= c <= end <= |s| && cfirst < end && IsCoefficient(s[cfirst..end]) && IsCoefficient(s[cfirst..c])
    requires K == DigitsIn(s[cfirst..c]) && R == DigitsIn(s[c..end]) && DigitsIn(s[cfirst..end]) == K + R
    requires AfterZeros(D0, z, K + R) && (c < end ==> |K| > p)
    requires |K + R| >= 2 || cfirst + 1 != end ==> |K + R| >= 1 && (K + R)[0] != 0
    ensures |K| == 0 ==> R == []
    ensures |R| > 0 ==> |K| > p && K[0] != 0
    ensures |K| == 0 <==> AllEqual(D0, 0) && s[end - 1] == '.'
  {
    hide DigitsIn, IsCoefficient, AfterZeros, AllEqual;
    if c == end {
      NothingLeft(s, end);
    }
    FirstOfParts(K, R);
    OnlyZeros(D0, z, K + R);
    if |K| == 0 {
      NoDigitsAtAll(s, cfirst, end);
    } else if cfirst + 1 == end {
      HeadOfRest(s, cfirst, end);
      NothingLeft(s, end);
    }
  }

  /** When nothing but zeros is left of zeros. */
  lemma OnlyZeros(D0: seq<nat>, z: nat, D: seq<nat>)
    requires AfterZeros(D0, z, D)
    ensures D == [] ==> AllEqual(D0, 0)
    ensures |D| > 0 && D[0] != 0 ==> !AllEqual(D0, 0)
  {
    if |D| > 0 {
      assert D0[z] == D[0];
    }
  }

  /** Without digits there are only points. */
  lemma {:induction false} NoDigitsAtAll(s: string, c: nat, end: nat)
    requires c < end <= |s| && IsCoefficient(s[c..end]) && DigitsIn(s[c..end]) == []
    ensures s[end - 1] == '.'
    decreases end - c
  {
    HeadOfRest(s, c, end);
    if c + 1 < end {
      NoDigitsAtAll(s, c + 1, end);
    }
  }

  lemma FirstOfParts(K: seq<nat>, R: seq<nat>)
    ensures |K| > 0 ==> (K + R)[0] == K[0]
    ensures R == [] ==> K + R == K
  {
  }

  lemma NothingLeft(s: string, end: nat)
    requires end <= |s|
    ensures IsCoefficient(s[end..end]) && DigitsIn(s[end..end]) == []
  {
  }

  lemma SplitDigits(s: string, from: nat, c: nat, end: nat)
    requires from <= c <= end <= |s| && IsCoefficient(s[from..end])
    ensures IsCoefficient(s[from..c]) && IsCoefficient(s[c..end])
    ensures DigitsIn(s[from..end]) == DigitsIn(s[from..c]) + DigitsIn(s[c..end])
    ensures Digits(DigitsIn(s[from..c])) && Digits(DigitsIn(s[c..end]))
  {
    PartOfCoefficient(s, from, end, from, c);
    PartOfCoefficient(s, from, end, c, end);
    assert s[from..end] == s[from..c] + s[c..end];
    DigitsInConcat(s[from..c], s[c..end]);
  }

  lemma PointThenDigit(s: string, cfirst: nat, end: nat, dotat: int)
    requires Scanned(s, cfirst, end, dotat) && |DigitsIn(s[cfirst..end])| >= 2
    ensures IsCoefficient(s[cfirst..end])
    ensures s[cfirst] == '.' ==> cfirst + 1 < end && IsDigit(s[cfirst + 1])
  {
    OnlyPoint(s, cfirst, end, dotat, cfirst);
    if cfirst + 1 == end {
      NoMoreThanOne(s, cfirst, end);
    } else {
      OnlyPoint(s, cfirst, end, dotat, cfirst + 1);
    }
  }

  // ---- scanning ----

  lemma {:induction false} EndShift(s: string, k: nat, i: nat, dot: bool)
    requires k + i <= |s|
    ensures CoefficientEnd(s[k..], i, dot) + k == CoefficientEnd(s, k + i, dot)
    decreases |s| - i - k
  {
    if k + i < |s| {
      assert s[k..][i] == s[k + i];
      if IsDigit(s[k + i]) {
        EndShift(s, k, i + 1, dot);
      } else if s[k + i] == '.' && !dot {
        EndShift(s, k, i + 1, true);
      }
    }
  }

  /** The part scanned so far. */
  predicate ScannedSoFar(s: string, cfirst: nat, c: nat, dotat: int) {
    && cfirst <= c <= |s|
    && (dotat == -1 ==> AllDigits(s[cfirst..c]))
    && (dotat != -1 ==> cfirst <= dotat < c && s[dotat] == '.' && AllDigits(s[cfirst..dotat]) && AllDigits(s[dotat + 1..c]))
  }

  lemma OneMoreDigit(s: string, from: nat, c: nat)
    requires from <= c < |s| && AllDigits(s[from..c]) && IsDigit(s[c])
    ensures AllDigits(s[from..c + 1])
  {
    assert s[from..c + 1] == s[from..c] + [s[c]];
  }

  /** The scan loop: an optional sign, then digits and at most one point. */
  method Scan(s: string) returns (sign: bool, cfirst: nat, c: nat, dotat: int)
    ensures cfirst == (if |s| > 0 && (s[0] == '-' || s[0] == '+') then 1 else 0) && sign == (|s| > 0 && s[0] == '-')
    ensures cfirst <= c <= |s| && c == cfirst + CoefficientEnd(s[cfirst..], 0, false)
    ensures ScannedSoFar(s, cfirst, c, dotat)
  {
    sign, cfirst, dotat := false, 0, -1;
    if |s| > 0 && (s[0] == '-' || s[0] == '+') {
      sign, cfirst := s[0] == '-', 1;
    }
    c := cfirst;
    EndShift(s, cfirst, 0, false);
    assert s[cfirst..cfirst] == "";
    while c < |s|
      invariant ScannedSoFar(s, cfirst, c, dotat)
      invariant CoefficientEnd(s, cfirst, false) == CoefficientEnd(s, c, dotat != -1)
    {
      if IsDigit(s[c]) {
        OneMoreDigit(s, if dotat == -1 then cfirst else dotat + 1, c);
      } else if s[c] == '.' && dotat == -1 {
        dotat := c;
        assert s[dotat + 1..c + 1] == "";
      } else {
        break;
      }
      c := c + 1;
    }
  }

  /** What was scanned, in the terms of the grammar. */
  lemma ScanResult(s: string, cfirst: nat, c: nat, dotat: int)
    requires cfirst < c <= |s| && ScannedSoFar(s, cfirst, c, dotat) && c == cfirst + CoefficientEnd(s[cfirst..], 0, false)
    ensures var m := s[cfirst..][..c - cfirst]; var d := WithoutDot(m);
            && m == s[cfirst..c] && Scanned(s, cfirst, c, dotat) && AllDigits(d) && DigitsIn(m) == DigitsOf(d)
            && |d| == c - cfirst - (if dotat != -1 then 1 else 0)
            && FractionLength(m) == if dotat != -1 then c - 1 - dotat else 0
  {
    var m := s[cfirst..c];
    assert m == s[cfirst..][..c - cfirst];
    DigitsWithoutDot(s[cfirst..]);
    hide CoefficientEnd, DigitsIn, DotPlace;
    if dotat == -1 {
      DotPlaceAfter(m, "");
      assert m + "" == m;
      NoDot();
    } else {
      var (a, b) := (s[cfirst..dotat], s[dotat + 1..c]);
      assert m == a + ("." + b);
      DotPlaceAfter(a, "." + b);
      DotFirst(b);
    }
  }

  lemma NoDot()
    ensures DotPlace("") == 0
  {
  }

  // ---- exponents ----

  /** Skips leading zeros of an exponent, even the last. */
  method SkipZerosFrom(s: string, c1: nat) returns (c: nat)
    requires c1 <= |s|
    ensures c1 <= c <= |s| && AllDigits(s[c1..c]) && SkipZeroChars(s[c1..]) == s[c..]
  {
    c := c1;
    while c < |s| && s[c] == '0'
      invariant c1 <= c <= |s| && SkipZeroChars(s[c1..]) == SkipZeroChars(s[c..]) && AllDigits(s[c1..c])
    {
      assert s[c..][1..] == s[c + 1..];
      OneMoreDigit(s, c1, c);
      c := c + 1;
    }
  }

  /** Gathers exponent digits. */
  method GatherDigits(s: string, c1: nat) returns (c: nat, exp: nat)
    requires c1 <= |s|
    ensures c1 <= c <= |s| && AllDigits(s[c1..c]) && exp == Val(DigitsOf(s[c1..c])) && (c < |s| ==> !IsDigit(s[c]))
  {
    hide Val, DigitsOf, AllDigits;
    c, exp := c1, 0;
    assert s[c1..c1] == "";
    EmptyDigits();
    while c < |s| && IsDigit(s[c])
      invariant c1 <= c <= |s| && AllDigits(s[c1..c]) && exp == Val(DigitsOf(s[c1..c]))
    {
      NextExponentDigit(s, c1, c);
      exp := exp * 10 + DigitOf(s[c]);
      c := c + 1;
    }
  }

  /** The exponent part, from the character after the coefficient on. */
  method ReadExponent(f: Format, s: string, c0: nat) returns (good: bool, exp: int)
    requires c0 < |s|
    ensures good == ((s[c0] == 'E' || s[c0] == 'e') && ExponentOf(f, s[c0 + 1..]).0)
    ensures good ==> exp == ExponentOf(f, s[c0 + 1..]).1
  {
    exp := 0;
    if s[c0] != 'E' && s[c0] != 'e' {
      return false, 0;
    }
    var c1 := c0 + 1;
    if c1 < |s| && (s[c1] == '-' || s[c1] == '+') {
      c1 := c1 + 1;
    }
    if c1 == |s| {
      ExponentIs(f, s, c0 + 1, c1, 0, |s|, |s|);
      return false, 0;
    }
    var firstexp := SkipZerosFrom(s, c1);
    var c;
    c, exp := GatherDigits(s, firstexp);
    ExponentIs(f, s, c0 + 1, c1, exp, firstexp, c);
    good := c == |s|;
    if c > firstexp + Emaxd(f) {
      exp := f.emax * 2;
    }
    if s[c0 + 1] == '-' {
      exp := -exp;
    }
  }

  /** What was read, in the terms of the grammar. */
  lemma ExponentIs(f: Format, s: string, a: nat, c1: nat, v: nat, firstexp: nat, c: nat)
    requires a <= |s| && c1 == if a < |s| && (s[a] == '-' || s[a] == '+') then a + 1 else a
    requires c1 <= firstexp <= c <= |s| && AllDigits(s[c1..firstexp]) && SkipZeroChars(s[c1..]) == s[firstexp..]
    requires AllDigits(s[firstexp..c]) && v == Val(DigitsOf(s[firstexp..c])) && (c < |s| ==> !IsDigit(s[c]))
    ensures ExponentOf(f, s[a..]).0 <==> c1 < |s| && c == |s|
    ensures c1 < |s| && c == |s|
        ==> var m := if c > firstexp + Emaxd(f) then f.emax * 2 else v;
            ExponentOf(f, s[a..]).1 == if s[a] == '-' then -m else m
  {
    hide Val, DigitsOf, AllDigits, SkipZeroChars, Emaxd;
    ExponentTail(s, a, c1);
    DigitsOrNot(s, c1, firstexp, c);
    if c == |s| {
      assert s[firstexp..c] == s[firstexp..];
    }
  }

  lemma EmptyDigits()
    ensures AllDigits("") && Val(DigitsOf("")) == 0
  {
  }

  lemma NextExponentDigit(s: string, from: nat, c: nat)
    requires from <= c < |s| && AllDigits(s[from..c]) && IsDigit(s[c])
    ensures AllDigits(s[from..c + 1])
    ensures Val(DigitsOf(s[from..c + 1])) == 10 * Val(DigitsOf(s[from..c])) + DigitOf(s[c])
  {
    hide Val;
    assert s[from..c + 1] == s[from..c] + [s[c]];
    assert DigitsOf(s[from..c + 1]) == DigitsOf(s[from..c]) + [DigitOf(s[c])];
    ValAppendOne(DigitsOf(s[from..c]), DigitOf(s[c]));
  }

  lemma ExponentTail(s: string, a: nat, c: nat)
    requires a <= |s| && c == if a < |s| && (s[a] == '-' || s[a] == '+') then a + 1 else a
    ensures var x := s[a..]; var t := if |x| > 0 && (x[0] == '-' || x[0] == '+') then x[1..] else x; t == s[c..]
    ensures var x := s[a..]; |x| > 0 && x[0] == '-' <==> a < |s| && s[a] == '-'
  {
    if a < |s| {
      assert s[a..][0] == s[a];
    }
  }

  /** The text is all digits exactly when the scan reached its end. */
  lemma DigitsOrNot(s: string, c1: nat, firstexp: nat, c: nat)
    requires c1 <= firstexp <= c <= |s| && AllDigits(s[c1..firstexp]) && AllDigits(s[firstexp..c])
    requires c < |s| ==> !IsDigit(s[c])
    ensures AllDigits(s[c1..]) <==> c == |s|
    ensures AllDigits(s[firstexp..]) <==> c == |s|
  {
    if c == |s| {
      assert s[c1..] == s[c1..firstexp] + s[firstexp..c] && s[firstexp..] == s[firstexp..c];
    } else {
      assert s[c1..][c - c1] == s[c] && s[firstexp..][c - firstexp] == s[c];
    }
  }

  // ---- infinities and NaNs ----

  /** decBiStr: equal to one of two strings in each place. */
  method BiStr(targ: string, str1: string, str2: string) returns (same: bool)
    requires |str1| == |str2|
    ensures same <==> |targ| == |str1| && forall k: nat :: k < |targ| ==> targ[k] == str1[k] || targ[k] == str2[k]
  {
    var i := 0;
    while true
      invariant 0 <= i <= |targ| && i <= |str1|
      invariant forall k: nat :: k < i ==> targ[k] == str1[k] || targ[k] == str2[k]
      decreases |targ| - i
    {
      if i == |targ| || i == |str1| {
        return |targ| == |str1|;
      }
      if targ[i] != str1[i] && targ[i] != str2[i] {
        return false;
      }
      i := i + 1;
    }
  }

  /** Comparing without case. */
  lemma Caseless(targ: string, str1: string, str2: string)
    requires |str1| == |str2| && forall k: nat :: k < |str1| ==> 'a' <= str1[k] <= 'z' && Lower(str2[k]) == str1[k] && 'A' <= str2[k] <= 'Z'
    ensures (|targ| == |str1| && forall k: nat :: k < |targ| ==> targ[k] == str1[k] || targ[k] == str2[k])
        <==> LowerAll(targ) == str1
  {
    if |targ| == |str1| && forall k: nat :: k < |targ| ==> targ[k] == str1[k] || targ[k] == str2[k] {
      assert LowerAll(targ) == str1;
    }
    if LowerAll(targ) == str1 {
      forall k: nat | k < |targ|
        ensures targ[k] == str1[k] || targ[k] == str2[k]
      {
        assert LowerAll(targ)[k] == Lower(targ[k]) == str1[k];
        LowerOfLetter(targ[k], str1[k], str2[k]);
      }
    }
  }

  lemma LowerOfLetter(c: char, low: char, up: char)
    requires 'a' <= low <= 'z' && 'A' <= up <= 'Z' && Lower(up) == low && Lower(c) == low
    ensures c == low || c == up
  {
  }

  /** An infinity or a NaN; wrong syntax otherwise. */
  method ReadSpecial(f: Format, s: string, c0: nat, sign: bool) returns (good: bool, value: DecFloat)
    requires c0 <= |s| && 1 <= f.pmax
    ensures SpecialOf(f, sign, s[c0..]) == if good then Special(value) else BadSyntax
  {
    value := Infinity(sign);
    ghost var t := s[c0..];
    var c := c0;
    Words();
    var inf := BiStr(s[c..], "infinity", "INFINITY");
    Caseless(t, "infinity", "INFINITY");
    if !inf {
      inf := BiStr(s[c..], "inf", "INF");
      Caseless(t, "inf", "INF");
    }
    if inf {
      return true, value;
    }
    var signaling := c < |s| && (s[c] == 's' || s[c] == 'S');
    LeadingS(t);
    if signaling {
      c := c + 1;
    }
    assert (if signaling then t[1..] else t) == s[c..];
    NaNWord(s[c..]);
    hide LowerAll;
    if c + 3 > |s| || (s[c] != 'N' && s[c] != 'n') || (s[c + 1] != 'a' && s[c + 1] != 'A') || (s[c + 2] != 'N' && s[c + 2] != 'n') {
      SpecialIs(f, sign, t, signaling, s[c..]);
      return false, value;
    }
    var payload;
    good, payload := ReadPayload(f, s, c + 3);
    assert s[c..][3..] == s[c + 3..];
    SpecialIs(f, sign, t, signaling, s[c..]);
    value := NaN(sign, signaling, payload);
  }

  lemma Words()
    ensures forall k: nat :: k < 8 ==> 'a' <= "infinity"[k] <= 'z' && Lower("INFINITY"[k]) == "infinity"[k] && 'A' <= "INFINITY"[k] <= 'Z'
    ensures forall k: nat :: k < 3 ==> 'a' <= "inf"[k] <= 'z' && Lower("INF"[k]) == "inf"[k] && 'A' <= "INF"[k] <= 'Z'
  {
  }

  lemma LeadingS(t: string)
    ensures (|t| > 0 && (t[0] == 's' || t[0] == 'S')) <==> (|LowerAll(t)| > 0 && LowerAll(t)[0] == 's')
    ensures |t| > 0 ==> LowerAll(t)[1..] == LowerAll(t[1..])
  {
  }

  lemma NaNWord(u: string)
    ensures (|u| >= 3 && (u[0] == 'N' || u[0] == 'n') && (u[1] == 'a' || u[1] == 'A') && (u[2] == 'N' || u[2] == 'n'))
        <==> (|LowerAll(u)| >= 3 && LowerAll(u)[..3] == "nan")
  {
    var l := LowerAll(u);
    if |u| >= 3 {
      assert l[..3] == [Lower(u[0]), Lower(u[1]), Lower(u[2])];
      assert "nan" == ['n', 'a', 'n'];
    }
  }

  /** The grammar of specials, once the words have been told apart. */
  lemma SpecialIs(f: Format, sign: bool, t: string, signaling: bool, u: string)
    requires LowerAll(t) != "infinity" && LowerAll(t) != "inf"
    requires signaling <==> |LowerAll(t)| > 0 && LowerAll(t)[0] == 's'
    requires |t| > 0 ==> LowerAll(t)[1..] == LowerAll(t[1..])
    requires u == (if signaling then t[1..] else t)
    ensures SpecialOf(f, sign, t)
         == (if |LowerAll(u)| < 3 || LowerAll(u)[..3] != "nan" then BadSyntax
             else var z := SkipZeroChars(u[3..]);
                  if !AllDigits(z) || |z| >= f.pmax then BadSyntax else Special(NaN(sign, signaling, Val(DigitsOf(z)))))
  {
    hide SkipZeroChars, AllDigits, DigitsOf, Val;
  }

  /** A payload of at most pmax - 1 digits, or nothing. */
  method ReadPayload(f: Format, s: string, c0: nat) returns (good: bool, payload: nat)
    requires c0 <= |s| && 1 <= f.pmax
    ensures var z := SkipZeroChars(s[c0..]); good <==> AllDigits(z) && |z| < f.pmax
    ensures good ==> payload == Val(DigitsOf(SkipZeroChars(s[c0..])))
  {
    hide Val, DigitsOf, SkipZeroChars;
    var cfirst := SkipZerosFrom(s, c0);
    var c: nat := cfirst;
    payload := 0;
    assert s[cfirst..cfirst] == "";
    EmptyDigits();
    while c < |s| && IsDigit(s[c]) && c - cfirst != f.pmax - 1
      invariant cfirst <= c <= |s| && c - cfirst <= f.pmax - 1
      invariant AllDigits(s[cfirst..c]) && payload == Val(DigitsOf(s[cfirst..c]))
    {
      NextExponentDigit(s, cfirst, c);
      payload := 10 * payload + DigitOf(s[c]);
      c := c + 1;
    }
    good := c == |s|;
    if good {
      assert s[cfirst..c] == s[cfirst..];
    } else if !IsDigit(s[c]) {
      assert s[cfirst..][c - cfirst] == s[c];
    }
  }

  // ---- the conversion ----

  /** The coefficient part of a string, without its sign. */
  function CoefficientPart(s: string): string {
    var body := if |s| > 0 && (s[0] == '-' || s[0] == '+') then s[1..] else s;
    body[..CoefficientEnd(body, 0, false)]
  }

  /** A coefficient too long for the buffer, all zeros, with its point at the very end: stripping leaves no
      digit at all for decFinalize. */
  ghost predicate PointAfterZeros(f: Format, s: string) {
    var m := CoefficientPart(s);
    Denotes(f, s).Number? && |m| > 0 && m[|m| - 1] == '.' && AllEqual(DigitsOfText(m), 0) && |DigitsOfText(m)| > BufferSize(f) - 3
  }

  ghost function DigitsOfText(m: string): seq<nat> {
    if IsCoefficient(m) then DigitsIn(m) else []
  }

  /** What a string is converted to: what it denotes, rounded once, but a number left without digits is
      finished as such. */
  ghost function Converted(f: Format, mode: Rounding, s: string): Outcome
    requires f.Valid()
  {
    if PointAfterZeros(f, s) then var n := Denotes(f, s); NothingEnd(f, mode, n.sign, n.exponent)
    else FromStringSpec(f, mode, s)
  }

  /** The conversion is right for all strings but zeros that do not fit the buffer, end with their point, and
      have an exponent beyond emax + 1; these overflow. */
  lemma ConvertedIff(f: Format, mode: Rounding, s: string)
    requires f.Valid()
    ensures Converted(f, mode, s) == FromStringSpec(f, mode, s)
       <==> !(PointAfterZeros(f, s) && Denotes(f, s).exponent > f.emax + 1)
    ensures PointAfterZeros(f, s) && Denotes(f, s).exponent > f.emax + 1
        ==> && Converted(f, mode, s) == Overflowed(f, mode, Denotes(f, s).sign)
            && FromStringSpec(f, mode, s) == Outcome(Finite(Denotes(f, s).sign, 0, f.Etop()), {})
  {
    hide CoefficientEnd, DigitsIn, Val, RoundScaled, NumberOf, SpecialOf;
    if PointAfterZeros(f, s) {
      var n := Denotes(f, s);
      DenotedDigits(f, s);
      ValZeros(n.digits);
      NothingIsZero(f, mode, n.sign, n.exponent);
    }
  }

  /** The digits denoted are those of the coefficient part. */
  lemma DenotedDigits(f: Format, s: string)
    requires Denotes(f, s).Number?
    ensures Denotes(f, s).digits == DigitsOfText(CoefficientPart(s))
  {
    var body := if |s| > 0 && (s[0] == '-' || s[0] == '+') then s[1..] else s;
    DigitsWithoutDot(body);
    hide CoefficientEnd, DigitsIn, ExponentOf, SpecialOf;
  }

  /** A number whose coefficient and exponent have been read: the digits are laid out and rounded. */
  method FinishNumber(f: Format, s: string, cfirst: nat, c: nat, dotat: int, digits: nat, exp: int, sign: bool, set': DecContext)
    returns (result: DecFloat)
    requires f.Valid() && Scanned(s, cfirst, c, dotat) && digits == |DigitsIn(s[cfirst..c])| >= 1
    modifies set'
    ensures set'.round == old(set'.round)
    ensures var o := if digits > BufferSize(f) - 3 && AllEqual(DigitsIn(s[cfirst..c]), 0) && s[c - 1] == '.'
                     then NothingEnd(f, old(set'.round), sign, exp)
                     else RoundScaled(f, old(set'.round), sign, Val(DigitsIn(s[cfirst..c])), exp);
            result == o.value && set'.status == old(set'.status) + o.flags
  {
    hide DigitsIn, Val, RoundScaled, Scanned, AfterZeros, NothingEnd;
    ScannedLength(s, cfirst, c, dotat);
    var buffer := new nat[BufferSize(f)];
    var D := DigitsIn(s[cfirst..c]);
    if digits <= BufferSize(f) - 3 {
      var ub := ReadShort(s, cfirst, c, dotat, buffer);
      assert buffer[0..digits - 1 + 1] == buffer[..ub];
      result := DecFinalize(f, buffer, 0, digits - 1, sign, exp, set');
    } else {
      var ub, dropped;
      ghost var K, R, z;
      ub, dropped, K, R, z := ReadLong(f, s, cfirst, c, dotat, digits, buffer);
      StrippedNumber(D, z, K, R);
      if ub > 0 {
        KeptRounds(f, set'.round, sign, K, R, exp);
      }
      var lsd := ub as int - 1;
      assert buffer[0..lsd + 1] == buffer[..ub];
      result := DecFinalize(f, buffer, 0, lsd, sign, exp + dropped, set');
    }
  }

  lemma ScannedLength(s: string, cfirst: nat, c: nat, dotat: int)
    requires Scanned(s, cfirst, c, dotat)
    ensures cfirst < c <= |s| && IsCoefficient(s[cfirst..c])
    ensures c - cfirst <= |DigitsIn(s[cfirst..c])| + 1
  {
    if dotat == -1 {
      DigitsInDigits(s[cfirst..c]);
    } else {
      var (a, b) := (s[cfirst..dotat], s[dotat + 1..c]);
      assert s[cfirst..c] == a + ("." + b);
      DigitsInDigits(a);
      DigitsInDigits(b);
      DotOnly(b);
      DigitsInConcat(a, "." + b);
    }
  }

  /** Leading zeros do not matter. */
  lemma StrippedNumber(D: seq<nat>, z: nat, K: seq<nat>, R: seq<nat>)
    requires AfterZeros(D, z, K + R)
    ensures Val(D) == Val(K + R)
    ensures |K| == 0 && |R| == 0 ==> AllEqual(D, 0)
  {
    hide Val;
    assert D[..z] == ZeroDigits(z) && D[z..] == K + R;
    ValSkipZeros(D, z);
  }

  /** A string that denotes a number, in the grammar's terms. */
  lemma NumberDenoted(f: Format, s: string, sign: bool, cfirst: nat, c: nat, dotat: int, good: bool, exp: int)
    requires cfirst == (if |s| > 0 && (s[0] == '-' || s[0] == '+') then 1 else 0) && sign == (|s| > 0 && s[0] == '-')
    requires cfirst < c <= |s| && ScannedSoFar(s, cfirst, c, dotat) && c == cfirst + CoefficientEnd(s[cfirst..], 0, false)
    requires if c == |s| then good && exp == 0
             else good == ((s[c] == 'E' || s[c] == 'e') && ExponentOf(f, s[c + 1..]).0)
                  && (good ==> exp == ExponentOf(f, s[c + 1..]).1)
    ensures Scanned(s, cfirst, c, dotat) && IsCoefficient(s[cfirst..c])
    ensures |DigitsIn(s[cfirst..c])| == c - cfirst - (if dotat != -1 then 1 else 0)
    ensures CoefficientPart(s) == s[cfirst..c]
    ensures Denotes(f, s)
         == (if !good || |DigitsIn(s[cfirst..c])| == 0 then BadSyntax
             else Number(sign, DigitsIn(s[cfirst..c]), exp - if dotat != -1 then c - 1 - dotat else 0))
  {
    hide Denotes, NumberOf, CoefficientEnd, CoefficientPart, DigitsIn, ExponentOf, ScannedSoFar, Scanned, IsCoefficient;
    ScanResult(s, cfirst, c, dotat);
    WithoutSign(f, s, sign, cfirst);
    NumberRead(f, s, sign, cfirst, c, dotat, good, exp);
  }

  /** The sign and the rest. */
  lemma WithoutSign(f: Format, s: string, sign: bool, cfirst: nat)
    requires cfirst == (if |s| > 0 && (s[0] == '-' || s[0] == '+') then 1 else 0) && sign == (|s| > 0 && s[0] == '-')
    ensures var body := s[cfirst..];
            && CoefficientPart(s) == body[..CoefficientEnd(body, 0, false)]
            && Denotes(f, s) == if CoefficientEnd(body, 0, false) > 0 then NumberOf(f, sign, body) else SpecialOf(f, sign, body)
  {
    hide CoefficientEnd, NumberOf, SpecialOf;
    assert s[cfirst..] == if |s| > 0 && (s[0] == '-' || s[0] == '+') then s[1..] else s;
  }

  lemma NumberRead(f: Format, s: string, sign: bool, cfirst: nat, c: nat, dotat: int, good: bool, exp: int)
    requires cfirst < c <= |s| && ScannedSoFar(s, cfirst, c, dotat) && c == cfirst + CoefficientEnd(s[cfirst..], 0, false)
    requires if c == |s| then good && exp == 0
             else good == ((s[c] == 'E' || s[c] == 'e') && ExponentOf(f, s[c + 1..]).0)
                  && (good ==> exp == ExponentOf(f, s[c + 1..]).1)
    ensures IsCoefficient(s[cfirst..c])
    ensures |DigitsIn(s[cfirst..c])| == c - cfirst - (if dotat != -1 then 1 else 0)
    ensures NumberOf(f, sign, s[cfirst..])
         == (if !good || |DigitsIn(s[cfirst..c])| == 0 then BadSyntax
             else Number(sign, DigitsIn(s[cfirst..c]), exp - if dotat != -1 then c - 1 - dotat else 0))
  {
    hide CoefficientEnd, DigitsIn, ExponentOf, WithoutDot, FractionLength, DigitsOf, AllDigits, ScannedSoFar;
    ScanResult(s, cfirst, c, dotat);
    var body := s[cfirst..];
    assert body[c - cfirst..] == s[c..];
    if c < |s| {
      assert s[c..][0] == s[c] && s[c..][1..] == s[c + 1..];
    }
    assert body[..c - cfirst] == s[cfirst..c];
  }

  /** Conversion from a string: what the string denotes, rounded once; a coefficient may have any length.
      For the one exception see ConvertedIff. */
  method DecFloatFromString(f: Format, s: string, set': DecContext) returns (result: DecFloat)
    requires f.Basic()
    modifies set'
    ensures set'.round == old(set'.round)
    ensures var o := Converted(f, old(set'.round), s);
            result == o.value && set'.status == old(set'.status) + o.flags
  {
    hide CoefficientEnd, DigitsIn, Denotes, ExponentOf, SpecialOf, RoundScaled, ScannedSoFar, Scanned, Val, IsCoefficient, BufferSize,
         CoefficientPart, NothingEnd;
    var sign, cfirst, c, dotat := Scan(s);
    var good;
    if c == cfirst {
      WithoutSign(f, s, sign, cfirst);
      good, result := ReadSpecial(f, s, c, sign);
    } else {
      var exp := 0;
      good := true;
      if c < |s| {
        good, exp := ReadExponent(f, s, c);
      }
      NumberDenoted(f, s, sign, cfirst, c, dotat, good, exp);
      var digits := c - cfirst;
      if dotat != -1 {
        digits := digits - 1;
        exp := exp - (c - 1 - dotat);
      }
      good := good && digits > 0;
      if good {
        result := FinishNumber(f, s, cfirst, c, dotat, digits, exp, sign, set');
        LastCharacter(s, cfirst, c);
        return;
      }
    }
    if !good {
      set'.status := set'.status + {ConversionSyntax};
      result := NaN(false, false, 0);
    }
  }

  lemma LastCharacter(s: string, cfirst: nat, c: nat)
    requires cfirst < c <= |s|
    ensures |s[cfirst..c]| > 0 && s[cfirst..c][|s[cfirst..c]| - 1] == s[c - 1]
  {
  }
}
