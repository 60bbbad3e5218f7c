/** The strings that are numbers, spelled out from their parts, and what each means (the syntax decNumber's
    conversions follow, decCommon.c:779-1005; section 5.12 of IEEE 754-2008): built from sign, digits, point and
    exponent rather than scanned. */
module Grammar {
  import opened Arith
  import opened DecFloats
  import opened RoundingSpec
  import opened Bcd
  import opened Text
  import opened TextRoundTrip

  // ---- the strings ----

  datatype Spelling =
    | Numeral(sgn: string, whole: string, point: bool, fraction: string, letter: string, esgn: string, power: string)
    | Named(sgn: string, name: string)
    | NotANumber(sgn: string, name: string, payload: string)

  predicate IsSign(t: string) {
    t == "" || t == "+" || t == "-"
  }

  predicate WellFormed(f: Format, p: Spelling)
    requires f.Valid()
  {
    IsSign(p.sgn) &&
    match p
    case Numeral(_, whole, point, fraction, letter, esgn, power) =>
      && AllDigits(whole) && AllDigits(fraction) && |whole| + |fraction| >= 1 && (point || fraction == "")
      && (if letter == "" then esgn == "" && power == ""
          else (letter == "E" || letter == "e") && IsSign(esgn) && AllDigits(power) && power != "")
    case Named(_, name) => LowerAll(name) == "inf" || LowerAll(name) == "infinity"
    case NotANumber(_, name, payload) =>
      && (LowerAll(name) == "nan" || LowerAll(name) == "snan")
      && AllDigits(payload) && Val(DigitsOf(payload)) < Pow10(f.pmax - 1)
  }

  function Spelled(p: Spelling): string {
    match p
    case Numeral(sgn, whole, point, fraction, letter, esgn, power) => sgn + Unsigned(whole, point, fraction, letter + esgn + power)
    case Named(sgn, name) => sgn + name
    case NotANumber(sgn, name, payload) => sgn + (name + payload)
  }

  function Unsigned(whole: string, point: bool, fraction: string, rest: string): string {
    whole + (if point then "." + fraction else "") + rest
  }

  /** The exponent as it stands. */
  function Written(esgn: string, power: string): int
    requires AllDigits(power)
  {
    if esgn == "-" then 0 - Val(DigitsOf(power)) else Val(DigitsOf(power))
  }

  /** The exponent as it is taken: one with more significant digits than any of the format is replaced. */
  function Taken(f: Format, esgn: string, power: string): int
    requires AllDigits(power)
  {
    if Val(DigitsOf(power)) < Pow10(Emaxd(f)) then Written(esgn, power)
    else if esgn == "-" then -2 * f.emax else 2 * f.emax
  }

  /** The meaning of a string, from its parts. */
  function Meaning(f: Format, p: Spelling): Denotation
    requires f.Valid() && WellFormed(f, p)
  {
    match p
    case Numeral(sgn, whole, _, fraction, _, esgn, power) =>
      Number(sgn == "-", DigitsOf(whole + fraction), Taken(f, esgn, power) - |fraction|)
    case Named(sgn, _) => Special(Infinity(sgn == "-"))
    case NotANumber(sgn, name, payload) => Special(NaN(sgn == "-", LowerAll(name) == "snan", Val(DigitsOf(payload))))
  }

  // ---- digits without leading zeros ----

  lemma {:induction false} SkipZerosValue(t: string)
    requires AllDigits(t)
    ensures var z := SkipZeroChars(t); AllDigits(z) && Val(DigitsOf(z)) == Val(DigitsOf(t))
    ensures var z := SkipZeroChars(t); |z| > 0 ==> Pow10(|z| - 1) <= Val(DigitsOf(z)) < Pow10(|z|)
  {
    hide Val, Pow10;
    if |t| > 0 && t[0] == '0' {
      SkipZerosValue(t[1..]);
      assert DigitsOf(t)[1..] == DigitsOf(t[1..]) && AllEqual(DigitsOf(t)[..1], 0);
      ValSkipZeros(DigitsOf(t), 1);
    } else if |t| > 0 {
      ValLeading(DigitsOf(t));
    }
  }

  /** More than k digits are left exactly when the value needs more. */
  lemma SignificantDigits(t: string, k: nat)
    requires AllDigits(t)
    ensures |SkipZeroChars(t)| > k <==> Val(DigitsOf(t)) >= Pow10(k)
  {
    hide Val, Pow10;
    SkipZerosValue(t);
    var z := SkipZeroChars(t);
    if z == "" {
      EmptyValue();
      Pow10Mono(0, k);
      Pow10One();
    } else if |z| > k {
      Pow10Mono(k, |z| - 1);
    } else {
      Pow10Mono(|z|, k);
    }
  }

  // ---- meaning of the strings ----

  lemma ExponentMeaning(f: Format, esgn: string, power: string)
    requires IsSign(esgn) && AllDigits(power) && power != ""
    ensures ExponentOf(f, esgn + power) == (true, Taken(f, esgn, power))
  {
    hide Val, Pow10, SkipZeroChars, Emaxd;
    var s := esgn + power;
    SkipZerosValue(power);
    SignificantDigits(power, Emaxd(f));
    if esgn == "" {
      assert s == power && power[0] != '-' && power[0] != '+';
    } else {
      assert s[1..] == power;
    }
  }

  /** A sign in front of what has none. */
  lemma SignTaken(f: Format, sgn: string, body: string)
    requires IsSign(sgn) && |body| > 0 && body[0] != '-' && body[0] != '+'
    ensures Denotes(f, sgn + body) == if CoefficientEnd(body, 0, false) > 0 then NumberOf(f, sgn == "-", body)
                                      else SpecialOf(f, sgn == "-", body)
  {
    hide CoefficientEnd, NumberOf, SpecialOf;
    var s := sgn + body;
    if sgn == "" {
      assert s == body;
    } else {
      assert s[1..] == body && s[0] == sgn[0];
    }
  }

  lemma NumeralMeaning(f: Format, p: Spelling)
    requires f.Valid() && p.Numeral? && WellFormed(f, p)
    ensures Denotes(f, Spelled(p)) == Meaning(f, p)
  {
    hide Val, Pow10, CoefficientEnd, NumberOf, SpecialOf, ExponentOf, Denotes, DotPlace, Taken;
    var (a, b, x) := (p.whole, p.fraction, p.letter + p.esgn + p.power);
    var m := a + if p.point then "." + b else "";
    var body := Unsigned(a, p.point, b, x);
    ExponentPart(f, p.letter, p.esgn, p.power);
    if p.point {
      DottedCoefficient(a, b, x);
      assert body == a + "." + b + x && m == a + "." + b;
      assert m[..|a|] == a && m[|a| + 1..] == b;
    } else {
      WholeCoefficient(a, x);
      assert m == a && a + b == a;
    }
    assert body == m + x && body[..|m|] == m && body[|m|..] == x;
    NumberParts(f, p.sgn == "-", body, m, x, a, b, p.point, Taken(f, p.esgn, p.power));
    assert body[0] == m[0] && (IsDigit(m[0]) || m[0] == '.');
    SignTaken(f, p.sgn, body);
  }

  lemma ExponentPart(f: Format, letter: string, esgn: string, power: string)
    requires AllDigits(power)
    requires if letter == "" then esgn == "" && power == "" else (letter == "E" || letter == "e") && IsSign(esgn) && power != ""
    ensures var x := letter + esgn + power;
            && Follows(x)
            && if x == "" then Taken(f, esgn, power) == 0
               else (x[0] == 'E' || x[0] == 'e') && ExponentOf(f, x[1..]) == (true, Taken(f, esgn, power))
  {
    hide Val, Pow10, ExponentOf;
    if letter == "" {
      EmptyValue();
    } else {
      assert (letter + esgn + power)[1..] == esgn + power;
      ExponentMeaning(f, esgn, power);
    }
  }

  /** A name is read without regard to case. */
  lemma NamedMeaning(f: Format, p: Spelling)
    requires f.Valid() && p.Named? && WellFormed(f, p)
    ensures Denotes(f, Spelled(p)) == Meaning(f, p)
  {
    hide CoefficientEnd, NumberOf, Denotes;
    FirstLetter(p.name, 'i');
    SignTaken(f, p.sgn, p.name);
  }

  /** A text that starts with a letter is no number. */
  lemma FirstLetter(s: string, c: char)
    requires |s| > 0 && LowerAll(s)[0] == c && 'a' <= c <= 'z'
    ensures s[0] != '-' && s[0] != '+' && CoefficientEnd(s, 0, false) == 0
  {
  }

  lemma NaNMeaning(f: Format, p: Spelling)
    requires f.Valid() && p.NotANumber? && WellFormed(f, p)
    ensures Denotes(f, Spelled(p)) == Meaning(f, p)
  {
    hide CoefficientEnd, NumberOf, Denotes, Val, Pow10, SkipZeroChars, LowerAll;
    var (s, x) := (p.name + p.payload, p.payload);
    var signaling := LowerAll(p.name) == "snan";
    NaNName(p.name, x);
    FirstLetter(s, LowerAll(s)[0]);
    SignTaken(f, p.sgn, s);
    SkipZerosValue(x);
    SignificantDigits(x, f.pmax - 1);
  }

  lemma NaNName(name: string, x: string)
    requires LowerAll(name) == "nan" || LowerAll(name) == "snan"
    ensures var s := name + x; var l := LowerAll(s); var signaling := LowerAll(name) == "snan";
            && |s| == |l| >= 3 && (signaling <==> l[0] == 's') && (!signaling ==> l[0] == 'n')
            && l != "infinity" && l != "inf"
            && (var (l1, s1) := if signaling then (l[1..], s[1..]) else (l, s); |l1| >= 3 && l1[..3] == "nan" && s1[3..] == x)
  {
    var s := name + x;
    var l := LowerAll(s);
    assert l[..|name|] == LowerAll(name);
    assert forall k: nat :: k < |name| ==> l[k] == LowerAll(name)[k];
    if LowerAll(name) == "snan" {
      assert |name| == 4 && l[1] == 'n' && l[2] == 'a' && l[3] == 'n';
      assert l[1..][..3] == "nan" && s[1..][3..] == x;
    } else {
      assert |name| == 3 && l[..3] == "nan" && s[3..] == x;
    }
    assert "infinity"[0] == 'i' && "inf"[0] == 'i';
  }

  /** Every well-formed spelling means what its parts say, whatever the case of its letters. */
  lemma SpellingMeaning(f: Format, p: Spelling)
    requires f.Valid() && WellFormed(f, p)
    ensures Denotes(f, Spelled(p)) == Meaning(f, p)
  {
    match p
    case Numeral(_, _, _, _, _, _, _) => NumeralMeaning(f, p);
    case Named(_, _) => NamedMeaning(f, p);
    case NotANumber(_, _, _) => NaNMeaning(f, p);
  }

  // ---- nothing else is a number ----

  lemma {:induction false} SkippedDigits(t: string)
    requires AllDigits(SkipZeroChars(t))
    ensures AllDigits(t)
  {
    if |t| > 0 && t[0] == '0' {
      SkippedDigits(t[1..]);
      assert forall k: nat :: 0 < k < |t| ==> t[k] == t[1..][k - 1];
    }
  }

  /** The parts of a string that denotes something. */
  lemma Parsed(f: Format, s: string) returns (p: Spelling)
    requires f.Valid() && Denotes(f, s) != BadSyntax
    ensures WellFormed(f, p) && Spelled(p) == s
  {
    hide CoefficientEnd, NumberOf, SpecialOf, WellFormed;
    var signed := |s| > 0 && (s[0] == '-' || s[0] == '+');
    var sgn := if signed then s[..1] else "";
    var body := if signed then s[1..] else s;
    assert s == sgn + body && IsSign(sgn);
    if CoefficientEnd(body, 0, false) > 0 {
      p := ParsedNumber(f, s[0] == '-', sgn, body);
    } else {
      p := ParsedName(f, |s| > 0 && s[0] == '-', sgn, body);
    }
  }

  lemma ParsedNumber(f: Format, sign: bool, sgn: string, s: string) returns (p: Spelling)
    requires f.Valid() && IsSign(sgn) && NumberOf(f, sign, s) != BadSyntax
    ensures WellFormed(f, p) && Spelled(p) == sgn + s
  {
    hide CoefficientEnd, DotPlace, ExponentOf;
    var n := CoefficientEnd(s, 0, false);
    var (m, rest) := (s[..n], s[n..]);
    assert s == m + rest;
    var k := DotPlace(m);
    var (a, b) := (m[..k], if k < |m| then m[k + 1..] else "");
    CoefficientParts(m, k, a, b);
    DigitsOfBoth(a, b);
    hide WithoutDot;
    if rest == "" {
      p := Numeral(sgn, a, k < |m|, b, "", "", "");
      assert "" + "" + "" == "";
      assert Unsigned(a, k < |m|, b, "" + "" + "") == s;
    } else {
      var esgn, power := ParsedExponent(f, rest[1..]);
      p := Numeral(sgn, a, k < |m|, b, rest[..1], esgn, power);
      assert rest[..1] + esgn + power == rest;
    }
  }

  lemma CoefficientParts(m: string, k: nat, a: string, b: string)
    requires k == DotPlace(m) && a == m[..k] && b == if k < |m| then m[k + 1..] else ""
    ensures WithoutDot(m) == a + b && m == a + if k < |m| then "." + b else ""
  {
    hide DotPlace;
    PointAt(m);
  }

  lemma DigitsOfBoth(a: string, b: string)
    requires AllDigits(a + b)
    ensures AllDigits(a) && AllDigits(b)
  {
    assert forall i: nat :: i < |a| ==> a[i] == (a + b)[i];
    assert forall i: nat :: i < |b| ==> b[i] == (a + b)[|a| + i];
  }

  lemma {:induction false} PointAt(m: string)
    ensures DotPlace(m) < |m| ==> m[DotPlace(m)] == '.'
  {
    if |m| > 0 && m[0] != '.' {
      PointAt(m[1..]);
    }
  }

  lemma ParsedExponent(f: Format, s: string) returns (esgn: string, power: string)
    requires ExponentOf(f, s).0
    ensures IsSign(esgn) && AllDigits(power) && power != "" && esgn + power == s
  {
    if |s| > 0 && (s[0] == '-' || s[0] == '+') {
      return s[..1], s[1..];
    }
    return "", s;
  }

  lemma ParsedName(f: Format, sign: bool, sgn: string, s: string) returns (p: Spelling)
    requires f.Valid() && IsSign(sgn) && SpecialOf(f, sign, s) != BadSyntax
    ensures WellFormed(f, p) && Spelled(p) == sgn + s
  {
    hide Val, Pow10, SkipZeroChars;
    var t := LowerAll(s);
    if t == "infinity" || t == "inf" {
      return Named(sgn, s);
    }
    var n := if t[0] == 's' then 4 else 3;
    p := NotANumber(sgn, s[..n], s[n..]);
    assert s[..n] + s[n..] == s;
    assert (if n == 4 then s[1..] else s)[3..] == s[n..];
    LowerStart(s, n);
    SkippedDigits(s[n..]);
    SkipZerosValue(s[n..]);
    SignificantDigits(s[n..], f.pmax - 1);
  }

  lemma LowerStart(s: string, n: nat)
    requires 3 <= n <= 4 && n <= |s|
    requires var t := LowerAll(s); if n == 4 then t[0] == 's' && t[1..][..3] == "nan" else t[..3] == "nan"
    ensures LowerAll(s[..n]) == if n == 4 then "snan" else "nan"
  {
    var t := LowerAll(s);
    assert LowerAll(s[..n]) == t[..n];
    if n == 4 {
      assert t[..4] == [t[0]] + t[1..][..3];
    }
  }

  /** A string has a meaning exactly when it can be spelled out from parts. */
  lemma NumericSyntax(f: Format, s: string)
    requires f.Valid()
    ensures Denotes(f, s) != BadSyntax <==> exists p: Spelling :: WellFormed(f, p) && Spelled(p) == s
  {
    hide Denotes, WellFormed, Spelled, Meaning;
    if Denotes(f, s) != BadSyntax {
      var p := Parsed(f, s);
    } else {
      forall p: Spelling | WellFormed(f, p)
        ensures Spelled(p) != s
      {
        SpellingMeaning(f, p);
        MeansSomething(f, p);
      }
    }
  }

  lemma MeansSomething(f: Format, p: Spelling)
    requires f.Valid() && WellFormed(f, p)
    ensures Meaning(f, p) != BadSyntax
  {
  }
}
