/** Numeric strings: what a string denotes, and the string a datum is printed as. The grammar is the one
    decFloatFromString accepts (decCommon.c:779-1005), the form the one decFloatToString and
    decFloatToEngString choose (decCommon.c:1224-1441 and 1503-1701). */
module Text {
  import opened DecFloats
  import opened RoundingSpec
  import opened Truncation
  import opened Bcd

  predicate IsDigit(c: char) {
    '0' <= c <= '9'
  }

  function DigitOf(c: char): (d: nat)
    requires IsDigit(c)
    ensures d <= 9
  {
    c as int - '0' as int
  }

  function CharOf(d: nat): (c: char)
    requires d <= 9
    ensures IsDigit(c) && DigitOf(c) == d
  {
    ('0' as int + d) as char
  }

  predicate AllDigits(s: string) {
    forall k: nat :: k < |s| ==> IsDigit(s[k])
  }

  /** The digits of a string of digit characters. */
  function DigitsOf(s: string): (d: seq<nat>)
    requires AllDigits(s)
    ensures |d| == |s| && Digits(d)
    ensures forall k: nat :: k < |s| ==> d[k] == DigitOf(s[k])
  {
    seq(|s|, k requires 0 <= k < |s| => DigitOf(s[k]))
  }

  function Chars(d: seq<nat>): (s: string)
    requires Digits(d)
    ensures |s| == |d| && AllDigits(s)
    ensures forall k: nat :: k < |d| ==> s[k] == CharOf(d[k])
  {
    seq(|d|, k requires 0 <= k < |d| => CharOf(d[k]))
  }

  lemma DigitsOfChars(d: seq<nat>)
    requires Digits(d)
    ensures DigitsOf(Chars(d)) == d
  {
  }

  // ---- what a string denotes ----

  /** The meaning of a numeric string. */
  datatype Denotation =
    | BadSyntax
    | Number(sign: bool, digits: seq<nat>, exponent: int)
    | Special(value: DecFloat)

  /** How much of s, from place i on, can be coefficient: digits, and one point unless there was one. */
  function CoefficientEnd(s: string, i: nat, dot: bool): (n: nat)
    requires i <= |s|
    ensures i <= n <= |s|
    decreases |s| - i
  {
    if i == |s| then i
    else if IsDigit(s[i]) then CoefficientEnd(s, i + 1, dot)
    else if s[i] == '.' && !dot then CoefficientEnd(s, i + 1, true)
    else i
  }

  /** The place of the point, or the length when there is none. */
  function DotPlace(m: string): (n: nat)
    ensures n <= |m|
  {
    if |m| == 0 then 0 else if m[0] == '.' then 0 else 1 + DotPlace(m[1..])
  }

  /** A coefficient without its point. */
  function WithoutDot(m: string): string {
    var p := DotPlace(m);
    if p < |m| then m[..p] + m[p + 1..] else m
  }

  /** Digits after the point. */
  function FractionLength(m: string): nat {
    var p := DotPlace(m);
    if p < |m| then |m| - p - 1 else 0
  }

  function SkipZeroChars(s: string): string {
    if |s| > 0 && s[0] == '0' then SkipZeroChars(s[1..]) else s
  }

  /** DECEMAXD: digits in the greatest exponent. */
  function Emaxd(f: Format): nat {
    if f.emax + f.pmax < 0 then 1 else NumDigits(f.emax + f.pmax)
  }

  lemma EmaxdOfFormats()
    ensures Emaxd(DOUBLE) == 3 && Emaxd(QUAD) == 4
  {
  }

  /** The value of an exponent part after its letter: nothing when the syntax is wrong; a fixed great value
      when it has too many digits. */
  function ExponentOf(f: Format, s: string): (r: (bool, int)) {
    var negative := |s| > 0 && s[0] == '-';
    var t := if |s| > 0 && (s[0] == '-' || s[0] == '+') then s[1..] else s;
    if |t| == 0 || !AllDigits(t) then (false, 0)
    else
      var z := SkipZeroChars(t);
      var v := if |z| > Emaxd(f) || !AllDigits(z) then f.emax * 2 else Val(DigitsOf(z));
      (true, if negative then 0 - v else v)
  }

  /** A number, from its unsigned text. */
  function NumberOf(f: Format, sign: bool, s: string): Denotation {
    var n := CoefficientEnd(s, 0, false);
    var (m, rest) := (s[..n], s[n..]);
    var (good, exp) := if rest == [] then (true, 0)
                       else if rest[0] == 'E' || rest[0] == 'e' then ExponentOf(f, rest[1..])
                       else (false, 0);
    var d := WithoutDot(m);
    if !good || |d| == 0 || !AllDigits(d) then BadSyntax
    else Number(sign, DigitsOf(d), exp - FractionLength(m))
  }

  function Lower(c: char): char {
    if 'A' <= c <= 'Z' then (c as int + 32) as char else c
  }

  function LowerAll(s: string): string {
    seq(|s|, k requires 0 <= k < |s| => Lower(s[k]))
  }

  /** Infinities and NaNs; a payload has at most pmax - 1 digits. */
  function SpecialOf(f: Format, sign: bool, s: string): Denotation {
    var t := LowerAll(s);
    if t == "infinity" || t == "inf" then Special(Infinity(sign))
    else
      var signaling := |t| > 0 && t[0] == 's';
      var (t1, s1) := if signaling then (t[1..], s[1..]) else (t, s);
      if |t1| < 3 || t1[..3] != "nan" then BadSyntax
      else
        var z := SkipZeroChars(s1[3..]);
        if !AllDigits(z) || |z| >= f.pmax then BadSyntax
        else Special(NaN(sign, signaling, Val(DigitsOf(z))))
  }

  function Denotes(f: Format, s: string): Denotation {
    var signed := |s| > 0 && (s[0] == '-' || s[0] == '+');
    var sign := |s| > 0 && s[0] == '-';
    var body := if signed then s[1..] else s;
    if CoefficientEnd(body, 0, false) > 0 then NumberOf(f, sign, body) else SpecialOf(f, sign, body)
  }

  /** The reference conversion: the number denoted, rounded once (section 5.12 of IEEE 754-2008). */
  ghost function FromStringSpec(f: Format, mode: Rounding, s: string): Outcome
    requires f.Valid()
  {
    match Denotes(f, s)
    case BadSyntax => Outcome(NaN(false, false, 0), {ConversionSyntax})
    case Number(sign, digits, exponent) => RoundScaled(f, mode, sign, Val(digits), exponent)
    case Special(v) => Outcome(v, {})
  }

  // ---- printing ----

  /** The digits of c without leading zeros. */
  function CoefficientDigits(c: nat): (d: seq<nat>)
    ensures |d| >= 1 && Digits(d)
  {
    if c < 10 then [c] else CoefficientDigits(c / 10) + [c % 10]
  }

  lemma {:induction false} CoefficientDigitsValue(c: nat)
    ensures Val(CoefficientDigits(c)) == c && |CoefficientDigits(c)| == NumDigits(c)
  {
    if c < 10 {
      ValSingle(c);
    } else {
      CoefficientDigitsValue(c / 10);
      var d := CoefficientDigits(c / 10);
      assert (d + [c % 10])[..|d|] == d;
    }
  }

  function Zeros(n: nat): (s: string)
    ensures |s| == n && AllDigits(s)
  {
    seq(n, _ => '0')
  }

  function Absolute(e: int): nat {
    if e < 0 then -e else e
  }

  function ExponentText(e: int): string {
    if e == 0 then "" else "E" + (if e < 0 then "-" else "+") + Chars(CoefficientDigits(Absolute(e)))
  }

  /** Coefficient digits d with pre of them before the point, and an exponent: the four forms. */
  function Laid(d: string, pre: int, e: int): string {
    if pre > |d| then d + Zeros(pre - |d|) + ExponentText(e)
    else if pre == |d| then d + ExponentText(e)
    else if pre > 0 then d[..pre] + "." + d[pre..] + ExponentText(e)
    else "0." + Zeros(-pre) + d + ExponentText(e)
  }

  /** Where the point goes and what exponent is shown. */
  function Placing(len: nat, exp: int, zero: bool, eng: bool): (int, int) {
    var pre := len + exp;
    if exp == 0 || !(exp > 0 || pre < -5) then (pre, 0)
    else
      var e := pre - 1;
      if !eng || e == 0 then (1, e)
      else
        var adj := e % 3;
        if !zero then (1 + adj, e - adj)
        else if adj != 0 then (adj - 2, e - adj + 3)
        else (1, e)
  }

  /** The text of a datum. */
  function TextOf(x: DecFloat, eng: bool): string {
    (if x.sign then "-" else "") +
    match x
    case Infinity(_) => "Infinity"
    case NaN(_, signaling, p) =>
      (if signaling then "s" else "") + "NaN" + if p == 0 then "" else Chars(CoefficientDigits(p))
    case Finite(_, c, exp) =>
      var d := Chars(CoefficientDigits(c));
      var (pre, e) := Placing(|d|, exp, c == 0, eng);
      Laid(d, pre, e)
  }
}
