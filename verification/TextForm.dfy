/** What printed numbers look like (decFloatToString and decFloatToEngString, decCommon.c:1503-1701 and
    1224-1441): when an exponent is shown, where the point is, and what makes the engineering form one. The
    text is taken apart from the outside: sign, digits and point, exponent part. */
module TextForm {
  import opened Arith
  import opened DecFloats
  import opened Truncation
  import opened Bcd
  import opened Text
  import opened TextRoundTrip
  import opened PrintAndRead

  /** The parts of a numeric text. */
  function Unsigned(s: string): string {
    if |s| > 0 && s[0] == '-' then s[1..] else s
  }

  function CoefficientText(s: string): string {
    Unsigned(s)[..CoefficientEnd(Unsigned(s), 0, false)]
  }

  function ExponentPart(s: string): string {
    Unsigned(s)[CoefficientEnd(Unsigned(s), 0, false)..]
  }

  /** Digits before and after the point. */
  function DigitsBefore(s: string): nat {
    DotPlace(CoefficientText(s))
  }

  function DigitsAfter(s: string): nat {
    FractionLength(CoefficientText(s))
  }

  predicate HasE(s: string) {
    exists k: nat :: k < |s| && s[k] == 'E'
  }

  /** The exponent of the number in the form with one digit before the point. */
  function Adjusted(x: DecFloat): int
    requires x.Finite?
  {
    x.exp + NumDigits(x.coeff) - 1
  }

  /** The parts of laid-out digits. */
  lemma LaidParts(f: Format, d: seq<nat>, pre: int, e: int)
    requires |d| >= 1 && Digits(d) && NumDigits(Absolute(e)) <= Emaxd(f)
    ensures var s := Laid(Chars(d), pre, e); var n := CoefficientEnd(s, 0, false);
            && |s| > 0 && IsDigit(s[0]) && s[n..] == ExponentText(e)
            && DotPlace(s[..n]) == (if pre > 0 then pre else 1)
            && FractionLength(s[..n]) == (if pre < |d| then |d| - pre else 0)
            && (pre > 0 ==> s[0] == Chars(d)[0]) && forall k: nat :: k < n ==> s[k] != 'E'
  {
    hide NumDigits, Emaxd, CoefficientEnd, ExponentText, DotPlace, FractionLength;
    var t := Chars(d);
    DigitsOfChars(d);
    var s := Laid(t, pre, e);
    if pre > |d| {
      PartsOf(f, t + Zeros(pre - |d|), "", false, e);
      assert s == t + Zeros(pre - |d|) + "" + ExponentText(e);
    } else if pre == |d| {
      PartsOf(f, t, "", false, e);
      assert s == t + "" + ExponentText(e);
    } else if pre > 0 {
      PartsOf(f, t[..pre], t[pre..], true, e);
      assert s == t[..pre] + ("." + t[pre..]) + ExponentText(e);
    } else {
      PartsOf(f, "0", Zeros(-pre) + t, true, e);
      assert s == "0" + ("." + (Zeros(-pre) + t)) + ExponentText(e);
    }
  }

  /** The parts of a text made of them. */
  lemma PartsOf(f: Format, a: string, b: string, dot: bool, e: int)
    requires AllDigits(a) && AllDigits(b) && |a| >= 1 && (dot ==> |b| >= 1) && (!dot ==> b == "")
    requires NumDigits(Absolute(e)) <= Emaxd(f)
    ensures var s := a + (if dot then "." + b else "") + ExponentText(e); var n := CoefficientEnd(s, 0, false);
            && |s| > 0 && s[0] == a[0] && IsDigit(s[0]) && s[n..] == ExponentText(e)
            && DotPlace(s[..n]) == |a| && FractionLength(s[..n]) == |b| && forall k: nat :: k < n ==> s[k] != 'E'
  {
    hide NumDigits, Emaxd, NumberOf, CoefficientEnd, ExponentText, DotPlace, FractionLength;
    NumberReads(f, false, a, b, dot, e);
    PointParts(a + (if dot then "." + b else "") + ExponentText(e), a, b, dot);
  }

  lemma PointParts(s: string, a: string, b: string, dot: bool)
    requires AllDigits(a) && AllDigits(b) && |a| >= 1 && (dot ==> |b| >= 1)
    requires var n := CoefficientEnd(s, 0, false);
             && n == |a| + (if dot then 1 + |b| else 0) && DotPlace(s[..n]) == |a|
             && (if dot then s[..n] == a + ("." + b) else s[..n] == a)
    ensures var n := CoefficientEnd(s, 0, false);
            && FractionLength(s[..n]) == (if dot then |b| else 0) && s[0] == a[0]
            && forall k: nat :: k < n ==> s[k] != 'E'
  {
    hide CoefficientEnd, DotPlace;
    var n := CoefficientEnd(s, 0, false);
    var m := s[..n];
    forall k: nat | k < n
      ensures s[k] != 'E'
    {
      assert s[k] == m[k];
      if k < |a| {
        assert m[k] == a[k];
      } else if k > |a| {
        assert m[k] == b[k - |a| - 1];
      }
    }
    assert m[0] == s[0];
  }

  /** The parts of the text of a finite datum. */
  lemma TextParts(f: Format, x: DecFloat, eng: bool) returns (pre: int, e: int)
    requires f.Basic() && x.Finite? && x.Fits(f)
    ensures (pre, e) == Placing(NumDigits(x.coeff), x.exp, x.coeff == 0, eng)
    ensures var s := TextOf(x, eng);
            && ExponentPart(s) == ExponentText(e) && NumDigits(Absolute(e)) <= Emaxd(f)
            && DigitsBefore(s) == (if pre > 0 then pre else 1)
            && DigitsAfter(s) == (if pre < NumDigits(x.coeff) then NumDigits(x.coeff) - pre else 0)
            && (HasE(s) <==> e != 0)
  {
    hide NumDigits, Emaxd, NumberOf, CoefficientEnd, Laid, CoefficientDigits, Placing, Denotes, Pow10, SpecialOf, Absolute, TextOf,
         DotPlace, FractionLength, ExponentText, Digits;
    var d := CoefficientDigits(x.coeff);
    CoefficientDigitsValue(x.coeff);
    OneDigitZero();
    pre, e := Placing(|d|, x.exp, x.coeff == 0, eng).0, Placing(|d|, x.exp, x.coeff == 0, eng).1;
    if eng {
      EngineeringPlacing(|d|, x.exp, x.coeff == 0);
      EngineeringExponent(f, x.coeff, x.exp, e);
    } else {
      PlainPlacing(|d|, x.exp, x.coeff == 0);
      PlainExponent(f, x.coeff, x.exp, e);
    }
    LaidParts(f, d, pre, e);
    TextBody(x, eng);
    var (s, body) := (TextOf(x, eng), Body(x, eng));
    assert Unsigned(s) == body;
    EInText(s, body, x.sign, CoefficientEnd(body, 0, false), e);
  }

  lemma EInText(s: string, body: string, sign: bool, n: nat, e: int)
    requires s == (if sign then "-" else "") + body && n <= |body| && body[n..] == ExponentText(e)
    requires forall k: nat :: k < n ==> body[k] != 'E'
    ensures HasE(s) <==> e != 0
  {
    hide ExponentText;
    ExponentTextShape(e);
    if e != 0 {
      assert body[n..][0] == body[n];
      assert s[n + (if sign then 1 else 0)] == 'E';
    } else {
      assert |body| == n;
    }
  }

  /** The letter, the sign, and digits without a leading zero. */
  lemma ExponentTextShape(e: int)
    ensures e == 0 <==> ExponentText(e) == ""
    ensures e != 0 ==> var t := ExponentText(e);
            |t| >= 3 && t[0] == 'E' && t[1] == (if e < 0 then '-' else '+') && IsDigit(t[2]) && t[2] != '0'
  {
    if e != 0 {
      LeadingNotZero(Absolute(e));
    }
  }

  /** The scientific form shows an exponent exactly when the datum has a positive one, or the first digit is more
      than six places behind the point; then one digit stands before the point. */
  lemma ScientificForm(f: Format, x: DecFloat)
    requires f.Basic() && x.Finite? && x.Fits(f)
    ensures var s := TextOf(x, false);
            && (HasE(s) <==> x.exp > 0 || Adjusted(x) < -6)
            && (HasE(s) ==> |ExponentPart(s)| >= 3 && DigitsBefore(s) == 1 && ExponentOf(f, ExponentPart(s)[1..]) == (true, Adjusted(x)))
            && (!HasE(s) ==> ExponentPart(s) == "" && DigitsAfter(s) == -x.exp)
  {
    hide NumDigits, Emaxd, ExponentOf, Absolute, TextOf, HasE, Pow10, ExponentPart, DigitsBefore, DigitsAfter, ExponentText;
    var pre, e := TextParts(f, x, false);
    AtLeastOneDigit(x.coeff);
    ExponentTextShape(e);
    if e != 0 {
      ExponentReads(f, e);
    }
  }

  lemma AtLeastOneDigit(c: nat)
    ensures NumDigits(c) >= 1
  {
  }

  /** The engineering form shows an exponent only then, and it is a multiple of three; one to three digits stand
      before the point, unless the number is zero. */
  lemma EngineeringForm(f: Format, x: DecFloat)
    requires f.Basic() && x.Finite? && x.Fits(f)
    ensures var s := TextOf(x, true);
            && (HasE(s) ==> && (x.exp > 0 || Adjusted(x) < -6)
                            && |ExponentPart(s)| >= 3 && ExponentOf(f, ExponentPart(s)[1..]).0
                            && ExponentOf(f, ExponentPart(s)[1..]).1 % 3 == 0 && ExponentOf(f, ExponentPart(s)[1..]).1 != 0
                            && (x.coeff > 0 ==> 1 <= DigitsBefore(s) <= 3) && (x.coeff == 0 ==> DigitsBefore(s) == 1))
            && (!HasE(s) ==> ExponentPart(s) == "" && DigitsAfter(s) == if x.exp < 0 then -x.exp else 0)
            && (x.exp <= 0 && Adjusted(x) >= -6 ==> s == TextOf(x, false))
  {
    hide NumDigits, Emaxd, ExponentOf, Absolute, TextOf, HasE, Pow10, ExponentPart, DigitsBefore, DigitsAfter, ExponentText, Laid;
    var pre, e := TextParts(f, x, true);
    AtLeastOneDigit(x.coeff);
    OneDigitZero();
    ExponentTextShape(e);
    if e != 0 {
      ExponentReads(f, e);
    }
    if x.exp <= 0 && Adjusted(x) >= -6 {
      SameForm(x);
    }
  }

  lemma SameForm(x: DecFloat)
    requires x.Finite? && x.exp <= 0 && Adjusted(x) >= -6
    ensures TextOf(x, true) == TextOf(x, false)
  {
    hide NumDigits, Laid;
    CoefficientDigitsValue(x.coeff);
  }

  /** Some texts in scientific form. */
  lemma ScientificExamples()
    ensures TextOf(Finite(false, 123, -5), false) == "0.00123"
    ensures TextOf(Finite(true, 123, -10), false) == "-1.23E-8"
    ensures TextOf(Finite(false, 12, 3), false) == "1.2E+4"
  {
    ThreeDigitTexts();
    assert Chars(CoefficientDigits(8)) == "8" && Chars(CoefficientDigits(4)) == "4";
    assert Zeros(2) == "00";
  }

  /** And in engineering form. */
  lemma EngineeringExamples()
    ensures TextOf(Finite(false, 123, -10), true) == "12.3E-9"
    ensures TextOf(Finite(false, 12, 3), true) == "12E+3"
    ensures TextOf(Finite(false, 0, 1), true) == "0.00E+3"
  {
    hide Placing;
    PlacingExamples();
    ThreeDigitTexts();
    assert Chars(CoefficientDigits(9)) == "9" && Chars(CoefficientDigits(3)) == "3" && Chars(CoefficientDigits(0)) == "0";
    assert Zeros(1) == "0";
    assert "123"[..2] == "12" && "123"[2..] == "3";
  }

  lemma PlacingExamples()
    ensures Placing(3, -10, false, true) == (2, -9) && Placing(2, 3, false, true) == (2, 3) && Placing(1, 1, true, true) == (-1, 3)
  {
  }

  lemma ThreeDigitTexts()
    ensures Chars(CoefficientDigits(123)) == "123" && Chars(CoefficientDigits(12)) == "12"
  {
    assert CoefficientDigits(1) == [1] && CoefficientDigits(12) == [1, 2] && CoefficientDigits(123) == [1, 2, 3];
  }
}
