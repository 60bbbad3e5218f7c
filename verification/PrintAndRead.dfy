/** Printing and reading together (decFloatToString, decFloatToEngString and decFloatFromString,
    decCommon.c:1503-1701, 1224-1441 and 779-1005), and the strings that are not read right. */
module PrintAndRead {
  import opened Arith
  import opened DecFloats
  import opened RoundingSpec
  import opened Truncation
  import opened Bcd
  import opened Text
  import opened TextRoundTrip
  import opened ToText
  import opened FromText

  /** Printed text is never of the kind that the conversion gets wrong: its coefficient ends in a digit. */
  lemma PrintedIsDetermined(f: Format, x: DecFloat, eng: bool)
    requires f.Basic() && x.Fits(f)
    ensures !PointAfterZeros(f, TextOf(x, eng))
  {
    hide Val, Pow10, Denotes, CoefficientEnd, NumberOf, SpecialOf, Placing, Laid, CoefficientDigits, CoefficientPart, TextOf;
    TextBody(x, eng);
    match x
    case Finite(sign, c, e) =>
      PrintedEnd(f, x, eng);
    case Infinity(sign) =>
      InfinityReads(f, sign);
      SignedText(f, sign, "Infinity");
    case NaN(sign, signaling, p) =>
      NaNReads(f, sign, signaling, p);
      SignedText(f, sign, Body(x, eng));
  }

  /** The text without its sign. */
  function Body(x: DecFloat, eng: bool): string {
    match x
    case Infinity(_) => "Infinity"
    case NaN(_, signaling, p) => (if signaling then "s" else "") + "NaN" + if p == 0 then "" else Chars(CoefficientDigits(p))
    case Finite(_, c, exp) =>
      var d := Chars(CoefficientDigits(c));
      var (pre, e) := Placing(|d|, exp, c == 0, eng);
      Laid(d, pre, e)
  }

  lemma TextBody(x: DecFloat, eng: bool)
    ensures TextOf(x, eng) == (if x.sign then "-" else "") + Body(x, eng)
  {
    hide Placing, Laid, CoefficientDigits;
    if x.NaN? {
      AssocText(x.sign, (if x.signaling then "s" else "") + "NaN", if x.payload == 0 then "" else Chars(CoefficientDigits(x.payload)));
    }
  }

  lemma PrintedEnd(f: Format, x: DecFloat, eng: bool)
    requires f.Basic() && x.Finite? && x.Fits(f)
    ensures !PointAfterZeros(f, TextOf(x, eng))
  {
    hide Val, NumDigits, Emaxd, NumberOf, CoefficientEnd, Laid, CoefficientDigits, Placing, Denotes, Pow10, SpecialOf, Absolute,
         CoefficientPart, TextOf;
    var d := CoefficientDigits(x.coeff);
    CoefficientDigitsValue(x.coeff);
    OneDigitZero();
    var (pre, e) := Placing(|d|, x.exp, x.coeff == 0, eng);
    if eng {
      EngineeringPlacing(|d|, x.exp, x.coeff == 0);
      EngineeringExponent(f, x.coeff, x.exp, e);
    } else {
      PlainPlacing(|d|, x.exp, x.coeff == 0);
      PlainExponent(f, x.coeff, x.exp, e);
    }
    LaidReads(f, x.sign, d, pre, e);
    TextBody(x, eng);
    DigitAtEnd(x.sign, Body(x, eng), TextOf(x, eng));
  }

  lemma DigitAtEnd(sign: bool, body: string, s: string)
    requires |body| > 0 && IsDigit(body[0]) && EndsInDigit(body) && s == (if sign then "-" else "") + body
    ensures var m := CoefficientPart(s); |m| > 0 && m[|m| - 1] != '.'
  {
    hide CoefficientEnd;
    assert body == if |s| > 0 && (s[0] == '-' || s[0] == '+') then s[1..] else s;
  }

  /** A datum printed and read back. */
  method PrintAndRead(f: Format, x: DecFloat, eng: bool, set': DecContext) returns (r: DecFloat)
    requires f.Basic() && Emaxd(f) <= 4 && x.Fits(f)
    modifies set'
    ensures set'.round == old(set'.round) && set'.status == old(set'.status)
    ensures !eng || !x.Finite? ==> r == x
    ensures x.Finite? ==> r.Finite? && r.sign == x.sign && r.Magnitude() == x.Magnitude()
  {
    hide TextOf, Emaxd, PointAfterZeros, FromStringSpec, DecString, Pow10;
    var str := new char[DecString(f)](_ => '\0');
    var len := DecFloatToText(f, x, str, eng);
    PrintedIsDetermined(f, x, eng);
    if eng && x.Finite? {
      EngineeringKeepsValue(f, set'.round, x);
    } else {
      StringRoundTrip(f, set'.round, x);
      SpecialsAlike(x, eng);
    }
    r := DecFloatFromString(f, str[..len], set');
  }

  /** The engineering form of an infinity or a NaN is the plain one. */
  lemma SpecialsAlike(x: DecFloat, eng: bool)
    requires !x.Finite? || !eng
    ensures TextOf(x, eng) == TextOf(x, false)
  {
  }

  // ---- zeros that overflow ----

  /** n zeros, a point, and a great exponent: read as an overflow. */
  lemma ZerosOverflow(f: Format, mode: Rounding, sign: bool, n: nat, e: int)
    requires f.Basic() && n > BufferSize(f) - 3 && e > f.emax + 1 && NumDigits(Absolute(e)) <= Emaxd(f)
    ensures var s := (if sign then "-" else "") + (Zeros(n) + "." + ExponentText(e));
            && PointAfterZeros(f, s) && Denotes(f, s) == Number(sign, seq(n, _ => 0), e)
            && Converted(f, mode, s) == Overflowed(f, mode, sign)
            && FromStringSpec(f, mode, s) == Outcome(Finite(sign, 0, f.Etop()), {})
  {
    hide Denotes, NumberOf, CoefficientEnd, CoefficientPart, SpecialOf, ExponentText, Emaxd, NumDigits, Absolute, Overflowed, Converted,
         FromStringSpec, DigitsIn, PointAfterZeros, Val, RoundScaled, DigitsOfText;
    var body := Zeros(n) + ("." + "") + ExponentText(e);
    var s := (if sign then "-" else "") + body;
    assert body == Zeros(n) + "." + ExponentText(e) && Zeros(n) + "" == Zeros(n);
    NumberReads(f, sign, Zeros(n), "", true, e);
    SignedText(f, sign, body);
    DigitsOfZeros(n);
    PointAtEnd(f, sign, n, body, s);
    ConvertedIff(f, mode, s);
  }

  lemma DigitsOfZeros(n: nat)
    ensures DigitsOf(Zeros(n)) == seq(n, _ => 0)
  {
  }

  lemma PointAtEnd(f: Format, sign: bool, n: nat, body: string, s: string)
    requires n > BufferSize(f) - 3 && n > 0 && s == (if sign then "-" else "") + body && |body| > n && body[0] == '0'
    requires CoefficientEnd(body, 0, false) == n + 1 && body[..n + 1] == Zeros(n) + "."
    requires Denotes(f, s).Number? && Denotes(f, s).digits == seq(n, _ => 0)
    ensures PointAfterZeros(f, s)
  {
    hide Denotes, CoefficientEnd, DigitsIn, DigitsOfText, BufferSize;
    assert body == if |s| > 0 && (s[0] == '-' || s[0] == '+') then s[1..] else s;
    DenotedDigits(f, s);
    assert CoefficientPart(s) == Zeros(n) + ".";
  }

  /** 38 zeros, a point and E+400 are read as Infinity by decDouble, with Overflow and Inexact, not as 0E+369. */
  lemma ZerosExample()
    ensures var s := Zeros(38) + "." + "E+400";
            && Converted(DOUBLE, HalfEven, s) == Outcome(Infinity(false), {Overflow, Inexact})
            && FromStringSpec(DOUBLE, HalfEven, s) == Outcome(Finite(false, 0, 369), {})
  {
    FormatsValid();
    FourHundred();
    hide Converted, FromStringSpec, Zeros, ExponentText, PointAfterZeros, Denotes;
    ZerosOverflow(DOUBLE, HalfEven, false, 38, 400);
    assert "" + (Zeros(38) + "." + "E+400") == Zeros(38) + "." + "E+400";
  }

  lemma FourHundred()
    ensures ExponentText(400) == "E+400" && NumDigits(Absolute(400)) <= Emaxd(DOUBLE) && BufferSize(DOUBLE) == 40
  {
    assert CoefficientDigits(4) == [4] && CoefficientDigits(40) == [4, 0] && CoefficientDigits(400) == [4, 0, 0];
    assert Chars([4, 0, 0]) == "400";
    EmaxdOfFormats();
    assert NumDigits(400) == 3;
  }
}
