/** Reading back what was printed: the scientific form gives the very datum, the engineering form its
    value. */
module TextRoundTrip {
  import opened Arith
  import opened TenPowers
  import opened DecFloats
  import opened RoundingSpec
  import opened RoundingLaws
  import opened Truncation
  import opened Bcd
  import opened Add
  import opened Text

  // ---- scanning ----

  /** Digits are passed over. */
  lemma {:induction false} EndAfterDigits(s: string, i: nat, j: nat, dot: bool)
    requires i <= j <= |s| && AllDigits(s[i..j])
    ensures CoefficientEnd(s, i, dot) == CoefficientEnd(s, j, dot)
    decreases j - i
  {
    if i < j {
      assert s[i..j][0] == s[i];
      assert s[i..j][1..] == s[i + 1..j];
      EndAfterDigits(s, i + 1, j, dot);
    }
  }

  lemma {:induction false} DotPlaceAfter(a: string, rest: string)
    requires AllDigits(a)
    ensures DotPlace(a + rest) == |a| + DotPlace(rest)
  {
    if |a| > 0 {
      assert a[0] != '.';
      assert (a + rest)[1..] == a[1..] + rest;
      DotPlaceAfter(a[1..], rest);
    } else {
      assert a + rest == rest;
    }
  }

  /** What follows a coefficient: nothing that could belong to it. */
  predicate Follows(x: string) {
    |x| > 0 ==> !IsDigit(x[0]) && x[0] != '.'
  }

  lemma WholeCoefficient(a: string, x: string)
    requires AllDigits(a) && Follows(x)
    ensures CoefficientEnd(a + x, 0, false) == |a|
    ensures DotPlace(a) == |a|
  {
    var s := a + x;
    assert s[0..|a|] == a;
    EndAfterDigits(s, 0, |a|, false);
    StopsAt(s, |a|, false);
    DotPlaceAfter(a, "");
    assert a + "" == a;
  }

  lemma StopsAt(s: string, i: nat, dot: bool)
    requires i <= |s| && (i < |s| ==> !IsDigit(s[i]) && s[i] != '.')
    ensures CoefficientEnd(s, i, dot) == i
  {
  }

  lemma DottedParts(a: string, b: string, x: string)
    ensures var s := a + "." + b + x;
            && |s| == |a| + 1 + |b| + |x| && s[0..|a|] == a && s[|a|] == '.'
            && s[|a| + 1..|a| + 1 + |b|] == b && s[|a| + 1 + |b|..] == x
    ensures a + "." + b == a + ("." + b)
  {
  }

  lemma DottedCoefficient(a: string, b: string, x: string)
    requires AllDigits(a) && AllDigits(b) && Follows(x)
    ensures CoefficientEnd(a + "." + b + x, 0, false) == |a| + 1 + |b|
    ensures DotPlace(a + "." + b) == |a|
  {
    hide CoefficientEnd, DotPlace, AllDigits;
    var s := a + "." + b + x;
    DottedParts(a, b, x);
    if |x| > 0 {
      FirstOfSuffix(s, |a| + 1 + |b|);
    }
    ScanDotted(s, |a|, |a| + 1 + |b|);
    DotFirst(b);
    DotPlaceAfter(a, "." + b);
  }

  lemma FirstOfSuffix(s: string, i: nat)
    requires i < |s|
    ensures s[i..][0] == s[i]
  {
  }

  lemma ScanDotted(s: string, i: nat, j: nat)
    requires i < j <= |s| && AllDigits(s[0..i]) && s[i] == '.' && AllDigits(s[i + 1..j]) && (j < |s| ==> !IsDigit(s[j]) && s[j] != '.')
    ensures CoefficientEnd(s, 0, false) == j
  {
    hide CoefficientEnd, AllDigits;
    EndAfterDigits(s, 0, i, false);
    PassesDot(s, i);
    EndAfterDigits(s, i + 1, j, true);
    StopsAt(s, j, true);
  }

  lemma DotFirst(b: string)
    ensures DotPlace("." + b) == 0
  {
  }

  lemma PassesDot(s: string, i: nat)
    requires i < |s| && s[i] == '.'
    ensures CoefficientEnd(s, i, false) == CoefficientEnd(s, i + 1, true)
  {
  }

  // ---- exponents ----

  lemma {:induction false} LeadingNotZero(c: nat)
    requires c > 0
    ensures CoefficientDigits(c)[0] != 0
  {
    if c >= 10 {
      LeadingNotZero(c / 10);
    }
  }

  lemma SmallerExponent(f: Format, e: int)
    requires f.Basic() && f.Qtiny() <= e <= f.emax
    ensures NumDigits(Absolute(e)) <= Emaxd(f)
  {
    NumDigitsMono(Absolute(e), f.emax + f.pmax);
  }

  lemma {:induction false} NumDigitsMono(a: nat, b: nat)
    requires a <= b
    ensures NumDigits(a) <= NumDigits(b)
  {
    if a >= 10 {
      NumDigitsMono(a / 10, b / 10);
    }
  }

  /** Reading an exponent back. */
  lemma ExponentReads(f: Format, e: int)
    requires e != 0 && NumDigits(Absolute(e)) <= Emaxd(f)
    ensures var x := ExponentText(e); |x| > 0 && x[0] == 'E' && ExponentOf(f, x[1..]) == (true, e)
  {
    hide *;
    var v := Absolute(e);
    var d := CoefficientDigits(v);
    AbsoluteOf(e);
    CoefficientDigitsValue(v);
    LeadingNotZero(v);
    DigitsOfChars(d);
    ExponentParts(e, Chars(d));
    NoZeroFirst(d);
    ExponentOfText(f, e < 0, Chars(d), v);
  }

  lemma AbsoluteOf(e: int)
    ensures e == (if e < 0 then 0 - Absolute(e) else Absolute(e)) && (e != 0 ==> Absolute(e) > 0)
  {
  }

  lemma ExponentParts(e: int, t: string)
    requires e != 0 && t == Chars(CoefficientDigits(Absolute(e)))
    ensures var x := ExponentText(e); |x| > 0 && x[0] == 'E' && x[1..] == (if e < 0 then "-" else "+") + t
  {
    hide CoefficientDigits, Absolute, Chars;
    ConcatExponent("-", t);
    ConcatExponent("+", t);
  }

  lemma ConcatExponent(sgn: string, t: string)
    ensures var x := "E" + sgn + t; |x| > 0 && x[0] == 'E' && x[1..] == sgn + t
  {
  }

  lemma NoZeroFirst(d: seq<nat>)
    requires |d| >= 1 && Digits(d) && d[0] != 0
    ensures var t := Chars(d); |t| == |d| && AllDigits(t) && SkipZeroChars(t) == t
  {
  }

  lemma ExponentOfText(f: Format, negative: bool, t: string, v: nat)
    requires |t| >= 1 && AllDigits(t) && SkipZeroChars(t) == t && |t| <= Emaxd(f) && Val(DigitsOf(t)) == v
    ensures ExponentOf(f, (if negative then "-" else "+") + t) == (true, if negative then 0 - v else v)
  {
    hide Val, Emaxd, SkipZeroChars;
    var y := (if negative then "-" else "+") + t;
    assert y[1..] == t;
  }

  // ---- numbers ----

  /** The text of a number in its four forms, by integer and fraction part. */
  lemma NumberReads(f: Format, sign: bool, a: string, b: string, dot: bool, e: int)
    requires |a| >= 1 && AllDigits(a) && AllDigits(b) && (dot || b == "")
    requires NumDigits(Absolute(e)) <= Emaxd(f)
    ensures var s := a + (if dot then "." + b else "") + ExponentText(e);
            && NumberOf(f, sign, s) == Number(sign, DigitsOf(a + b), e - |b|)
            && CoefficientEnd(s, 0, false) == |a| + (if dot then 1 + |b| else 0) && s[0] == a[0]
            && (dot ==> s[..|a| + 1 + |b|] == a + ("." + b)) && (!dot ==> s[..|a|] == a)
            && (var n := CoefficientEnd(s, 0, false); s[n..] == ExponentText(e) && DotPlace(s[..n]) == |a|)
  {
    var x := ExponentText(e);
    var m := a + if dot then "." + b else "";
    var s := m + x;
    if e != 0 {
      ExponentReads(f, e);
    }
    hide ExponentText, ExponentOf;
    if dot {
      DottedCoefficient(a, b, x);
      assert s == a + "." + b + x && m == a + "." + b;
      assert m[..|a|] == a && m[|a| + 1..] == b;
    } else {
      WholeCoefficient(a, x);
      assert m == a && a + b == a;
    }
    assert s[..|m|] == m && s[|m|..] == x;
    NumberParts(f, sign, s, m, x, a, b, dot, e);
  }

  /** A number from its parts; e is what its exponent part stands for. */
  lemma NumberParts(f: Format, sign: bool, s: string, m: string, x: string, a: string, b: string, dot: bool, e: int)
    requires CoefficientEnd(s, 0, false) == |m| <= |s| && s[..|m|] == m && s[|m|..] == x && |a| + |b| >= 1
    requires AllDigits(a) && AllDigits(b) && (dot || b == "")
    requires DotPlace(m) == |a| && if dot then |m| == |a| + 1 + |b| && m[..|a|] == a && m[|a| + 1..] == b else m == a && a + b == a
    requires if x == "" then e == 0 else (x[0] == 'E' || x[0] == 'e') && ExponentOf(f, x[1..]) == (true, e)
    ensures NumberOf(f, sign, s) == Number(sign, DigitsOf(a + b), e - |b|)
  {
    hide ExponentOf, CoefficientEnd, DotPlace;
    assert WithoutDot(m) == a + b;
  }

  /** The coefficient a string starts with does not end with its point. */
  predicate EndsInDigit(s: string) {
    var n := CoefficientEnd(s, 0, false);
    n > 0 && IsDigit(s[n - 1])
  }

  /** Laid-out digits read back: the same digits at the exponent they stand for, or with zeros appended. */
  lemma LaidReads(f: Format, sign: bool, d: seq<nat>, pre: int, e: int)
    requires |d| >= 1 && Digits(d) && NumDigits(Absolute(e)) <= Emaxd(f)
    ensures var s := Laid(Chars(d), pre, e); var n := NumberOf(f, sign, s);
            && |s| > 0 && IsDigit(s[0]) && EndsInDigit(s) && n.Number? && n.sign == sign
            && (pre <= |d| ==> Val(n.digits) == Val(d) && n.exponent == e + pre - |d|)
            && (pre > |d| ==> Val(n.digits) == Shift(Val(d), pre - |d|) && n.exponent == e)
  {
    hide Val, NumDigits, Emaxd, NumberOf, CoefficientEnd, ExponentText;
    var t := Chars(d);
    DigitsOfChars(d);
    if pre > |d| {
      ZerosRead(f, sign, d, pre - |d|, e);
    } else if pre == |d| {
      NumberReads(f, sign, t, "", false, e);
      assert t + "" == t;
      assert Laid(t, pre, e) == t + "" + ExponentText(e);
    } else if pre > 0 {
      NumberReads(f, sign, t[..pre], t[pre..], true, e);
      assert t[..pre] + t[pre..] == t;
      assert Laid(t, pre, e) == t[..pre] + ("." + t[pre..]) + ExponentText(e);
    } else {
      SmallReads(f, sign, d, pre, e);
    }
  }

  /** Zeros behind the digits. */
  lemma ZerosRead(f: Format, sign: bool, d: seq<nat>, k: nat, e: int)
    requires |d| >= 1 && Digits(d) && NumDigits(Absolute(e)) <= Emaxd(f)
    ensures var s := Chars(d) + Zeros(k) + ExponentText(e); var n := NumberOf(f, sign, s);
            && |s| > 0 && IsDigit(s[0]) && EndsInDigit(s) && n.Number? && n.sign == sign
            && Val(n.digits) == Shift(Val(d), k) && n.exponent == e
  {
    hide Val, NumDigits, Emaxd, NumberOf, CoefficientEnd, ExponentText, Shift;
    DigitsOfChars(d);
    var t := Chars(d) + Zeros(k);
    NumberReads(f, sign, t, "", false, e);
    assert t + "" == t;
    assert DigitsOf(t) == d + seq(k, _ => 0);
    ValAppendZeros(d, seq(k, _ => 0));
  }

  lemma SmallReads(f: Format, sign: bool, d: seq<nat>, pre: int, e: int)
    requires |d| >= 1 && Digits(d) && NumDigits(Absolute(e)) <= Emaxd(f) && pre <= 0
    ensures var s := Laid(Chars(d), pre, e); var n := NumberOf(f, sign, s);
            && |s| > 0 && IsDigit(s[0]) && EndsInDigit(s) && n.Number? && n.sign == sign
            && Val(n.digits) == Val(d) && n.exponent == e + pre - |d|
  {
    hide Val, NumDigits, Emaxd, NumberOf, CoefficientEnd, ExponentText, Chars, DigitsOf, Laid, Zeros, AllDigits, Digits;
    var b := Zeros(-pre) + Chars(d);
    SmallLaid(d, pre, e, b);
    NumberReads(f, sign, "0", b, true, e);
    PointDigits(d, 1 - pre);
  }

  lemma SmallLaid(d: seq<nat>, pre: int, e: int, b: string)
    requires |d| >= 1 && Digits(d) && pre <= 0 && b == Zeros(-pre) + Chars(d)
    ensures Laid(Chars(d), pre, e) == "0" + ("." + b) + ExponentText(e)
    ensures AllDigits("0") && AllDigits(b) && |b| == |d| - pre && IsDigit("0"[0])
  {
    hide ExponentText;
    DigitsOfChars(d);
  }

  /** The digits of a number with zeros about the point. */
  lemma PointDigits(d: seq<nat>, k: nat)
    requires k >= 1 && Digits(d)
    ensures Val(DigitsOf("0" + (Zeros(k - 1) + Chars(d)))) == Val(d)
  {
    hide Val;
    DigitsOfChars(d);
    var zeros := seq(k, _ => 0);
    assert DigitsOf("0" + (Zeros(k - 1) + Chars(d))) == zeros + d;
    assert (zeros + d)[..k] == zeros && (zeros + d)[k..] == d;
    ValSkipZeros(zeros + d, k);
  }

  // ---- the round trips ----

  /** A sign in front. */
  lemma SignedText(f: Format, sign: bool, body: string)
    requires |body| > 0 && body[0] != '-' && body[0] != '+'
    ensures var s := (if sign then "-" else "") + body;
            Denotes(f, s) == if CoefficientEnd(body, 0, false) > 0 then NumberOf(f, sign, body) else SpecialOf(f, sign, body)
  {
    hide CoefficientEnd, NumberOf, SpecialOf;
    var s := (if sign then "-" else "") + body;
    if sign {
      assert s[1..] == body;
    } else {
      assert s == body;
    }
  }

  lemma PlainPlacing(len: nat, exp: int, zero: bool)
    ensures var (pre, e) := Placing(len, exp, zero, false);
            len >= 1 ==> pre <= len && e + pre - len == exp && (e == 0 || e == len + exp - 1)
  {
  }

  lemma PlainExponent(f: Format, c: nat, exp: int, e: int)
    requires f.Basic() && c < Pow10(f.pmax) && f.Qtiny() <= exp <= f.Etop() && (e == 0 || e == NumDigits(c) + exp - 1)
    ensures NumDigits(Absolute(e)) <= Emaxd(f)
  {
    NumDigitsIsLength(c);
    NumDigitsBound(c, f.pmax);
    SmallerExponent(f, e);
  }

  /** What is printed for a finite datum reads back as its sign, coefficient and exponent. */
  lemma FiniteRoundTrip(f: Format, x: DecFloat)
    requires f.Basic() && x.Finite? && x.Fits(f)
    ensures var n := Denotes(f, TextOf(x, false));
            n.Number? && n.sign == x.sign && Val(n.digits) == x.coeff && n.exponent == x.exp
  {
    hide Val, NumDigits, Emaxd, NumberOf, CoefficientEnd, Laid, CoefficientDigits, Placing, Denotes, Pow10, SpecialOf, Absolute;
    var d := CoefficientDigits(x.coeff);
    CoefficientDigitsValue(x.coeff);
    var (pre, e) := Placing(|d|, x.exp, x.coeff == 0, false);
    PlainPlacing(|d|, x.exp, x.coeff == 0);
    PlainExponent(f, x.coeff, x.exp, e);
    LaidReads(f, x.sign, d, pre, e);
    SignedText(f, x.sign, Laid(Chars(d), pre, e));
  }

  lemma InfinityReads(f: Format, sign: bool)
    ensures CoefficientEnd("Infinity", 0, false) == 0
    ensures SpecialOf(f, sign, "Infinity") == Special(Infinity(sign))
  {
    assert LowerAll("Infinity") == "infinity";
  }

  lemma NaNReads(f: Format, sign: bool, signaling: bool, p: nat)
    requires f.Basic() && p < Pow10(f.pmax - 1)
    ensures var s := (if signaling then "s" else "") + "NaN" + if p == 0 then "" else Chars(CoefficientDigits(p));
            && |s| > 0 && s[0] != '-' && s[0] != '+' && CoefficientEnd(s, 0, false) == 0
            && SpecialOf(f, sign, s) == Special(NaN(sign, signaling, p))
  {
    hide Val, Pow10, NumDigits, CoefficientDigits;
    var t := if p == 0 then "" else Chars(CoefficientDigits(p));
    if p > 0 {
      CoefficientDigitsValue(p);
      LeadingNotZero(p);
      DigitsOfChars(CoefficientDigits(p));
      NoZeroFirst(CoefficientDigits(p));
      NumDigitsBound(p, f.pmax - 1);
    } else {
      EmptyValue();
    }
    var s := (if signaling then "s" else "") + "NaN" + t;
    NaNShape(s, signaling, t);
    hide LowerAll;
  }

  lemma EmptyValue()
    ensures SkipZeroChars("") == "" && AllDigits("") && DigitsOf("") == [] && Val([]) == 0
  {
  }

  lemma NaNShape(s: string, signaling: bool, t: string)
    requires s == (if signaling then "s" else "") + "NaN" + t
    ensures var l := LowerAll(s); var (l1, s1) := if signaling then (l[1..], s[1..]) else (l, s);
            && |l| == |s| >= 3 && (signaling <==> l[0] == 's') && |l1| >= 3 && l1[..3] == "nan" && s1[3..] == t
            && l != "infinity" && l != "inf" && (s[0] == 's' || s[0] == 'N')
  {
    var l := LowerAll(s);
    var (l1, s1) := if signaling then (l[1..], s[1..]) else (l, s);
    assert s1 == "NaN" + t;
    assert l1[0] == 'n' && l1[1] == 'a' && l1[2] == 'n';
    assert l1[..3] == "nan" && s1[3..] == t;
    assert l[0] != 'i' && "infinity"[0] == 'i' && "inf"[0] == 'i';
  }

  /** Reading back what was printed gives the datum again, raising no flag, in every rounding mode: finite
      numbers with their exponents and signed zeros, infinities, and NaNs with their payloads. */
  lemma StringRoundTrip(f: Format, mode: Rounding, x: DecFloat)
    requires f.Basic() && x.Fits(f)
    ensures FromStringSpec(f, mode, TextOf(x, false)) == Outcome(x, {})
  {
    hide Val, Pow10, Denotes, CoefficientEnd, NumberOf, SpecialOf, RoundScaled, Placing, Laid, CoefficientDigits;
    match x
    case Finite(sign, c, e) =>
      FiniteRoundTrip(f, x);
      AlreadyRounded(f, mode, sign, c, e);
    case Infinity(sign) =>
      InfinityReads(f, sign);
      SignedText(f, sign, "Infinity");
    case NaN(sign, signaling, p) =>
      NaNReads(f, sign, signaling, p);
      SignedText(f, sign, (if signaling then "s" else "") + "NaN" + if p == 0 then "" else Chars(CoefficientDigits(p)));
      AssocText(sign, (if signaling then "s" else "") + "NaN", if p == 0 then "" else Chars(CoefficientDigits(p)));
  }

  lemma AssocText(sign: bool, a: string, b: string)
    ensures (if sign then "-" else "") + (a + b) == (if sign then "-" else "") + a + b
  {
  }

  // ---- engineering form ----

  lemma EngineeringPlacing(len: nat, exp: int, zero: bool)
    requires len >= 1 && (zero ==> len == 1)
    ensures var (pre, e) := Placing(len, exp, zero, true);
            && e + pre - len == exp && (!zero ==> e == 0 || (len + exp - 1) - 2 <= e <= len + exp - 1)
            && (zero ==> pre <= len && (e == 0 || exp <= e <= exp + 3))
  {
  }

  lemma EngineeringExponent(f: Format, c: nat, exp: int, e: int)
    requires f.Basic() && c < Pow10(f.pmax) && f.Qtiny() <= exp <= f.Etop()
    requires e == 0 || NumDigits(c) + exp - 3 <= e <= NumDigits(c) + exp - 1 || exp <= e <= exp + 3
    ensures NumDigits(Absolute(e)) <= Emaxd(f)
  {
    hide Pow10, NumDigits;
    NumDigitsIsLength(c);
    NumDigitsBound(c, f.pmax);
    NumDigitsMono(Absolute(e), f.emax + f.pmax);
  }

  /** A different representation of a number in range rounds to that number. */
  lemma SameNumber(f: Format, mode: Rounding, sign: bool, c: nat, exp: int, c': nat, exp': int)
    requires f.Basic() && c < Pow10(f.pmax) && f.Qtiny() <= exp <= f.Etop() && Scaled(c', exp') == Scaled(c, exp)
    ensures var o := RoundScaled(f, mode, sign, c', exp');
            o.flags == {} && o.value.Finite? && o.value.sign == sign && o.value.Magnitude() == Scaled(c, exp)
  {
    ScaledNonNegative(c, exp);
    if c > 0 {
      PreferredExponent(f, mode, sign, Scaled(c, exp), exp', c, exp);
    } else {
      ZeroScale(exp);
      ZeroScale(Clamp(f, exp'));
      hide Scale;
    }
  }

  /** Going through the engineering form keeps the value of a finite datum. */
  lemma EngineeringKeepsValue(f: Format, mode: Rounding, x: DecFloat)
    requires f.Basic() && x.Finite? && x.Fits(f)
    ensures var o := FromStringSpec(f, mode, TextOf(x, true));
            && o.flags == {} && o.value.Finite? && o.value.sign == x.sign && o.value.Magnitude() == x.Magnitude()
            && (x.coeff == 0 ==> o.value == x)
  {
    hide Val, NumDigits, Emaxd, NumberOf, CoefficientEnd, Laid, CoefficientDigits, Placing, Denotes, Pow10, SpecialOf,
         Absolute, RoundScaled, Scaled;
    var d := CoefficientDigits(x.coeff);
    CoefficientDigitsValue(x.coeff);
    OneDigitZero();
    var (pre, e) := Placing(|d|, x.exp, x.coeff == 0, true);
    EngineeringPlacing(|d|, x.exp, x.coeff == 0);
    EngineeringExponent(f, x.coeff, x.exp, e);
    LaidReads(f, x.sign, d, pre, e);
    SignedText(f, x.sign, Laid(Chars(d), pre, e));
    var n := Denotes(f, TextOf(x, true));
    SameMagnitude(x.coeff, x.exp, Val(n.digits), n.exponent, pre - |d|, e);
    SameNumber(f, mode, x.sign, x.coeff, x.exp, Val(n.digits), n.exponent);
    if x.coeff == 0 {
      AlreadyRounded(f, mode, x.sign, 0, x.exp);
    }
  }

  lemma OneDigitZero()
    ensures NumDigits(0) == 1
  {
  }

  lemma SameMagnitude(c: nat, exp: int, v: nat, q: int, shift: int, e: int)
    requires c > 0 ==> e + shift == exp
    requires shift <= 0 ==> v == c && q == e + shift
    requires shift > 0 ==> v == Shift(c, shift) && q == e
    ensures Scaled(v, q) == Scaled(c, exp)
  {
    hide Scale, Shift;
    ZeroScale(q);
    ZeroScale(exp);
    if shift > 0 {
      ScaledShift(c, e, shift);
      ShiftZero(shift);
    }
  }
}
