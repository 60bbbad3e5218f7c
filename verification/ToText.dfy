/** Printing (decFloatToString and decFloatToEngString, decCommon.c:1224-1441 and 1503-1701): digits are
    laid down first, then shifted inside the buffer to make room for a point and leading zeros. */
module ToText {
  import opened Arith
  import opened DecFloats
  import opened RoundingSpec
  import opened Truncation
  import opened Add
  import opened Conversion
  import opened Text
  import opened TextRoundTrip

  /** DECSTRING: cells for the longest text and its terminator. */
  function DecString(f: Format): nat {
    f.pmax + 9
  }

  // ---- coefficient digits ----

  lemma AppendDigit(y: nat, u: nat)
    requires u < 10
    ensures y > 0 ==> CoefficientDigits(10 * y + u) == CoefficientDigits(y) + [u]
    ensures CoefficientDigits(u) == [u]
  {
    DivModUnique(10 * y + u, 10, y, u);
  }

  /** Three more digits. */
  lemma MoreDigits(h: nat, a: nat, b: nat, u: nat)
    requires a < 10 && b < 10 && u < 10
    ensures h > 0 ==> CoefficientDigits(1000 * h + 100 * a + 10 * b + u) == CoefficientDigits(h) + [a, b, u]
    ensures a > 0 ==> CoefficientDigits(100 * a + 10 * b + u) == [a, b, u]
    ensures b > 0 ==> CoefficientDigits(10 * b + u) == [b, u]
    ensures CoefficientDigits(u) == [u]
  {
    hide CoefficientDigits;
    AppendDigit(h, a);
    AppendDigit(10 * h + a, b);
    AppendDigit(100 * h + 10 * a + b, u);
    AppendDigit(a, b);
    AppendDigit(10 * a + b, u);
    AppendDigit(b, u);
  }

  /** The text of the leading part of a coefficient: nothing for zero. */
  function Leads(h: nat): string {
    if h == 0 then "" else Chars(CoefficientDigits(h))
  }

  /** The characters of a declet, and the cell behind it. */
  function DecletChars(d: nat): (s: string)
    requires d < 1000
    ensures |s| == 3
  {
    HundredsTensUnits(d);
    Chars([d / 100, d / 10 % 10, d % 10])
  }

  /** How many digits of a declet are significant. */
  function DecletLength(d: nat): nat {
    if d >= 100 then 3 else if d >= 10 then 2 else if d >= 1 then 1 else 0
  }

  lemma LeadsStep(h: nat, d: nat)
    requires d < 1000
    ensures Leads(1000 * h + d)
         == if h > 0 then Leads(h) + DecletChars(d) else DecletChars(d)[3 - DecletLength(d)..]
  {
    HundredsTensUnits(d);
    var (a, b, u) := (d / 100, d / 10 % 10, d % 10);
    assert d == 100 * a + 10 * b + u;
    MoreDigits(h, a, b, u);
    DecletLengthBy(d, a, b, u);
    hide CoefficientDigits, DecletLength;
    if h > 0 {
      assert Chars(CoefficientDigits(h) + [a, b, u]) == Chars(CoefficientDigits(h)) + Chars([a, b, u]);
    } else if a > 0 {
      assert Chars([a, b, u])[0..] == Chars([a, b, u]);
    } else if b > 0 {
      assert Chars([a, b, u])[1..] == Chars([b, u]);
    } else if u > 0 {
      assert Chars([a, b, u])[2..] == Chars([u]);
    }
  }

  lemma DecletLengthBy(d: nat, a: nat, b: nat, u: nat)
    requires d == 100 * a + 10 * b + u && a < 10 && b < 10 && u < 10
    ensures DecletLength(d) == if a > 0 then 3 else if b > 0 then 2 else if u > 0 then 1 else 0
  {
  }

  /** Writes the significant characters of a declet, four cells at a time; what follows them is junk. */
  method PutDeclet(str: array<char>, c: nat, d: nat, skip: nat)
    requires d < 1000 && skip <= 3 && c + 4 <= str.Length
    modifies str
    ensures str[..c] == old(str[..c])
    ensures str[c..c + 3 - skip] == DecletChars(d)[skip..]
  {
    var u := DecletChars(d) + [' '];
    var w := u[skip..] + seq(skip, _ => ' ');
    str[c], str[c + 1], str[c + 2], str[c + 3] := w[0], w[1], w[2], w[3];
    assert str[c..c + 4] == w;
    assert str[c..c + 3 - skip] == str[c..c + 4][..3 - skip];
  }

  /** Declet n of a coefficient. */
  function Declet(c: nat, n: nat): (d: nat)
    ensures d < 1000
  {
    High(c, 3 * n) % 1000
  }

  lemma DecletStep(c: nat, n: nat)
    ensures High(c, 3 * n) == 1000 * High(c, 3 * n + 3) + Declet(c, n)
  {
    var k := 3 * n;
    HighAgain(c, k, 3);
    ThreeHigh(High(c, k));
  }

  lemma {:induction false} HighAgain(c: nat, j: nat, k: nat)
    ensures High(c, j + k) == High(High(c, j), k)
  {
    if j > 0 {
      HighAgain(c / 10, j - 1, k);
    }
  }

  lemma ThreeHigh(h: nat)
    ensures h == 1000 * High(h, 3) + h % 1000
  {
    assert High(h, 3) == High(h / 10, 2) == High(h / 10 / 10, 1) == High(h / 10 / 10 / 10, 0);
    TenTenTen(h);
  }

  /** The next declet, in full or, when it is the first with digits, without leading zeros. */
  method NextDeclet(str: array<char>, at: nat, c0: nat, d: nat, ghost h: nat) returns (c: nat)
    requires d < 1000 && at <= c0 && c0 + 4 <= str.Length && str[at..c0] == Leads(h)
    modifies str
    ensures c0 <= c <= c0 + 3 && str[..at] == old(str[..at])
    ensures str[at..c] == Leads(1000 * h + d)
  {
    hide *;
    LeadsStep(h, d);
    LeadsEmpty(h);
    LengthAtMostThree(d);
    ghost var before := str[..c0];
    ghost var done := str[at..c0];
    c := c0;
    if c0 != at {
      PutDeclet(str, c0, d, 0);
      assert str[..at] == before[..at] && str[at..c0] == before[at..] == done;
      assert str[at..c0 + 3] == done + str[c0..c0 + 3];
      c := c0 + 3;
    } else {
      var len := DecletLength(d);
      if len > 0 {
        PutDeclet(str, c0, d, 3 - len);
        assert str[..at] == before;
        c := c0 + len;
      }
    }
  }

  /** Lays the significant digits of the coefficient down from cell at on; a zero is one digit. */
  method PutCoefficient(f: Format, coeff: nat, str: array<char>, at: nat) returns (c: nat)
    requires f.Basic() && coeff < Pow10(f.pmax) && at + f.pmax + 4 <= str.Length
    modifies str
    ensures at < c <= at + f.pmax && str[..at] == old(str[..at])
    ensures str[at..c] == Chars(CoefficientDigits(coeff))
  {
    hide CoefficientDigits, Pow10, High, DecletChars, DecletLength;
    var n: nat := (f.pmax - 1) / 3;
    assert 3 * n + 1 == f.pmax;
    ghost var pre := str[..at];
    var msd := High(coeff, 3 * n);
    TopIsDigit(coeff, n);
    c := at;
    if msd != 0 {
      str[c] := CharOf(msd);
      c := c + 1;
    }
    assert str[at..c] == Leads(msd);
    while n > 0
      invariant at <= c <= at + f.pmax - 3 * n && str[..at] == pre
      invariant str[at..c] == Leads(High(coeff, 3 * n))
    {
      n := n - 1;
      DecletStep(coeff, n);
      c := NextDeclet(str, at, c, Declet(coeff, n), High(coeff, 3 * n + 3));
    }
    LeadsEmpty(coeff);
    WholeHigh(coeff);
    if c == at {
      str[c] := '0';
      c := c + 1;
      ZeroDigit();
    }
  }

  lemma LeadsEmpty(h: nat)
    ensures Leads(h) == "" <==> h == 0
    ensures h > 0 ==> Leads(h) == Chars(CoefficientDigits(h))
  {
  }

  lemma LengthAtMostThree(d: nat)
    ensures DecletLength(d) <= 3
    ensures d < 1000 && DecletLength(d) == 0 ==> DecletChars(d)[3..] == ""
  {
  }

  lemma WholeHigh(c: nat)
    ensures High(c, 3 * 0) == c
  {
  }

  lemma ZeroDigit()
    ensures Chars(CoefficientDigits(0)) == "0"
  {
  }

  lemma TopIsDigit(c: nat, n: nat)
    requires c < Pow10(3 * n + 1)
    ensures High(c, 3 * n) <= 9
    ensures High(c, 3 * n) > 0 ==> [CharOf(High(c, 3 * n))] == Leads(High(c, 3 * n))
  {
    HighBelow(c, 3 * n, 1);
    Pow10One();
  }

  // ---- shifting characters ----

  /** Copies four cells from s to t, s < t, at once. */
  method CopyUp(str: array<char>, s: nat, t: nat)
    requires s < t && t + 4 <= str.Length
    modifies str
    ensures forall k: nat :: k < str.Length ==> str[k] == if t <= k < t + 4 then old(str[k - t + s]) else old(str[k])
  {
    str[t], str[t + 1], str[t + 2], str[t + 3] := str[s], str[s + 1], str[s + 2], str[s + 3];
  }

  /** Moves the characters from cell dotat on one place up, by fours from the right. */
  method OpenGap(str: array<char>, dotat: nat, c: nat)
    requires dotat < c && c + 5 <= str.Length
    modifies str
    ensures str[..dotat] == old(str[..dotat]) && str[dotat + 1..c + 1] == old(str[dotat..c])
  {
    var s: int := dotat + (c - dotat) / 4 * 4;
    ghost var end := s + 4;
    while s >= dotat
      invariant (s - dotat) % 4 == 0 && dotat - 4 <= s <= c && c <= end && s + 4 <= end
      invariant forall k: nat :: k < s + 5 && k < str.Length ==> str[k] == old(str[k])
      invariant forall k: nat :: s + 4 <= k < end && k + 1 < str.Length ==> str[k + 1] == old(str[k])
      decreases s + 4
    {
      CopyUp(str, s, s + 1);
      s := s - 4;
    }
    assert s == dotat - 4;
  }

  /** The part of a shift done by fours: from cell s0 down to the left end, as far as whole groups go. */
  method ShiftFours(str: array<char>, s0: nat, gap: nat) returns (s: int)
    requires 2 <= gap && s0 + 4 + gap <= str.Length
    modifies str
    ensures -4 <= s < 0
    ensures forall k: nat :: s + 4 + gap <= k < s0 + 4 + gap ==> str[k] == old(str[k - gap])
    ensures forall k: nat :: k < s + 4 + gap ==> str[k] == old(str[k])
  {
    s := s0;
    while s >= 0
      invariant -4 <= s <= s0
      invariant forall k: nat :: s + 4 + gap <= k < s0 + 4 + gap ==> str[k] == old(str[k - gap])
      invariant forall k: nat :: k < s + 4 + gap ==> str[k] == old(str[k])
      decreases s + 4
    {
      CopyUp(str, s, s + gap);
      s := s - 4;
    }
  }

  /** The rest, singly. */
  method ShiftSingles(str: array<char>, s0: int, cstart: nat, gap: nat)
    requires -1 <= s0 && 2 <= gap && s0 + gap < str.Length
    modifies str
    ensures forall k: nat :: k < str.Length ==> str[k] == if cstart + gap <= k <= s0 + gap then old(str[k - gap]) else old(str[k])
  {
    var s := s0;
    while s >= cstart
      invariant -1 <= s <= s0
      invariant forall k: nat :: k < str.Length && s + gap < k <= s0 + gap && cstart + gap <= k ==> str[k] == old(str[k - gap])
      invariant forall k: nat :: k < str.Length && !(s + gap < k <= s0 + gap && cstart + gap <= k) ==> str[k] == old(str[k])
      decreases s + 1
    {
      str[s + gap] := str[s];
      s := s - 1;
    }
  }

  /** Moves the characters cstart..c gap places up: by fours from the right, the first group moved back so
      that it does not touch the last cells, and singly at the left end. */
  method ShiftRight(str: array<char>, cstart: nat, c: nat, gap: nat)
    requires cstart <= 2 && cstart < c && 2 <= gap && c + gap < str.Length && str.Length >= 5 + gap
    modifies str
    ensures str[..cstart] == old(str[..cstart]) && str[cstart + gap..c + gap] == old(str[cstart..c])
  {
    var t := cstart + (c - cstart) / 4 * 4 + gap;
    if t > str.Length - 5 {
      t := str.Length - 5;
    }
    ghost var before := str[..];
    var s := ShiftFours(str, t - gap, gap);
    ghost var mid := str[..];
    ShiftSingles(str, s + 3, cstart, gap);
    forall k: nat | cstart + gap <= k < c + gap
      ensures str[k] == before[k - gap]
    {
      if k <= s + 3 + gap {
        assert str[k] == mid[k - gap] == before[k - gap];
      } else {
        assert str[k] == mid[k];
      }
    }
    assert str[cstart + gap..c + gap] == before[cstart..c];
    assert str[..cstart] == before[..cstart];
  }

  // ---- the parts of a number ----

  /** e / 1000 without dividing. */
  lemma Thousands(e: nat)
    requires e < 10000
    ensures e / 8 * 1049 / 0x2_0000 == e / 1000
  {
    var (q, r) := (e / 1000, e / 8 % 125);
    EighthOfThousand(e);
    DivModUnique(e / 8 * 1049, 0x2_0000, q, 53 * q + 1049 * r);
  }

  lemma EighthOfThousand(e: nat)
    ensures e / 8 == 125 * (e / 1000) + e / 8 % 125
  {
    var k := e / 8;
    DivModUnique(e, 1000, k / 125, k % 125 * 8 + e % 8);
  }

  /** The exponent, with at most four digits. */
  method PutExponent(str: array<char>, c0: nat, e: int) returns (c: nat)
    requires e != 0 && -10000 < e < 10000 && c0 + 7 <= str.Length
    modifies str
    ensures c0 <= c <= c0 + 6 && str[..c] == old(str[..c0]) + ExponentText(e)
  {
    hide *;
    ghost var before := str[..c0];
    str[c0], str[c0 + 1] := 'E', '+';
    var v: int := e;
    if e < 0 {
      str[c0 + 1] := '-';
      v := -e;
    }
    ghost var start := str[..c0 + 2];
    TwoMore(before, start, e);
    c := PutNumber(str, c0 + 2, v);
    SplitAt(str, c0 + 2, c);
    ExponentParts(before, e, Chars(CoefficientDigits(v)), v);
  }

  lemma TwoMore(before: string, start: string, e: int)
    requires |start| == |before| + 2 && start[..|before|] == before && start[|before|] == 'E'
    requires start[|before| + 1] == if e < 0 then '-' else '+'
    ensures start == before + ("E" + if e < 0 then "-" else "+")
  {
  }

  lemma ExponentParts(before: string, e: int, t: string, v: nat)
    requires e != 0 && v == (if e < 0 then -e else e) && t == Chars(CoefficientDigits(v))
    ensures before + ("E" + if e < 0 then "-" else "+") + t == before + ExponentText(e)
  {
    hide CoefficientDigits, Chars;
    var sgn := if e < 0 then "-" else "+";
    assert ExponentText(e) == "E" + sgn + t;
    assert before + ("E" + sgn) + t == before + ("E" + sgn + t);
  }

  /** A number below 10000 without leading zeros. */
  method PutNumber(str: array<char>, c0: nat, v: nat) returns (c: nat)
    requires 0 < v < 10000 && c0 + 5 <= str.Length
    modifies str
    ensures c0 <= c <= c0 + 4 && str[..c0] == old(str[..c0]) && str[c0..c] == Chars(CoefficientDigits(v))
  {
    hide CoefficientDigits, DecletChars, DecletLength, Leads;
    LeadsEmpty(v);
    LeadsEmpty(0);
    if v < 1000 {
      LeadsStep(0, v);
      LengthAtMostThree(v);
      var len := DecletLength(v);
      PutDeclet(str, c0, v, 3 - len);
      c := c0 + len;
    } else {
      Thousands(v);
      var thou := v / 8 * 1049 / 0x2_0000;
      var rem := v - 1000 * thou;
      ghost var before := str[..c0];
      SmallLeads(thou);
      LeadsStep(thou, rem);
      LeadsEmpty(thou);
      str[c0] := CharOf(thou);
      ghost var first := str[..c0 + 1];
      PutDeclet(str, c0 + 1, rem, 0);
      assert str[..c0] == first[..c0] == before && str[c0] == first[c0];
      assert str[c0..c0 + 4] == [str[c0]] + str[c0 + 1..c0 + 4];
      c := c0 + 4;
    }
  }

  lemma SmallLeads(d: nat)
    requires 0 < d < 10
    ensures Leads(d) == [CharOf(d)]
  {
  }

  /** 0. or 0.0 .. 0.00000 in front, by overlapping copies. */
  method FillZeroPoint(str: array<char>, cstart: nat, gap: nat)
    requires 2 <= gap <= 7 && cstart + gap <= str.Length && cstart + 4 <= str.Length
    modifies str
    ensures str[cstart..cstart + gap] == "0." + Zeros(gap - 2)
    ensures forall k: nat :: k < str.Length && !(cstart <= k < cstart + gap) ==> str[k] == old(str[k])
  {
    if gap >= 4 {
      var at := cstart + gap - 4;
      str[at], str[at + 1], str[at + 2], str[at + 3] := '0', '0', '0', '0';
      str[cstart], str[cstart + 1], str[cstart + 2], str[cstart + 3] := '0', '.', '0', '0';
    } else {
      str[cstart + gap - 1] := '0';
      str[cstart], str[cstart + 1] := '0', '.';
    }
  }

  /** The coefficient before the exponent: a point inside, zeros behind, or zeros and a point in front. */
  function Pointed(d: string, pre: int): string {
    if pre > |d| then d + Zeros(pre - |d|)
    else if pre == |d| then d
    else if pre > 0 then d[..pre] + "." + d[pre..]
    else "0." + Zeros(-pre) + d
  }

  lemma LaidIsPointed(d: string, pre: int, e: int)
    ensures Laid(d, pre, e) == Pointed(d, pre) + ExponentText(e)
  {
    hide ExponentText;
  }

  /** A point inside the digits. */
  method PointInside(str: array<char>, cstart: nat, c: nat, pre: nat)
    requires 1 <= pre && cstart + pre < c && c + 5 <= str.Length
    modifies str
    ensures str[..cstart] == old(str[..cstart])
    ensures str[cstart..c + 1] == old(str[cstart..c])[..pre] + "." + old(str[cstart..c])[pre..]
  {
    var dotat := cstart + pre;
    ghost var head, left, right := str[..dotat], str[cstart..dotat], str[dotat..c];
    ghost var d := str[cstart..c];
    assert left == d[..pre] && right == d[pre..];
    OpenGap(str, dotat, c);
    assert str[dotat + 1..c + 1] == right;
    str[dotat] := '.';
    assert str[..dotat] == head && str[dotat + 1..c + 1] == right;
    assert str[cstart..dotat] == head[cstart..] == left && str[..cstart] == head[..cstart];
    JoinParts(str, cstart, dotat, c + 1);
  }

  lemma JoinParts(str: array<char>, lo: nat, mid: nat, hi: nat)
    requires lo <= mid < hi <= str.Length && str[mid] == '.'
    ensures str[lo..hi] == str[lo..mid] + "." + str[mid + 1..hi]
  {
  }

  /** Zeros behind the digits. */
  method ZerosBehind(str: array<char>, cstart: nat, c0: nat, dotat: nat) returns (c: nat)
    requires cstart <= c0 <= dotat <= str.Length
    modifies str
    ensures c == dotat && str[..cstart] == old(str[..cstart])
    ensures str[cstart..c] == old(str[cstart..c0]) + Zeros(dotat - c0)
  {
    ghost var before, d := str[..c0], str[cstart..c0];
    c := c0;
    while c < dotat
      invariant c0 <= c <= dotat && str[..c0] == before
      invariant forall k: nat :: c0 <= k < c ==> str[k] == '0'
    {
      str[c] := '0';
      c := c + 1;
    }
    assert str[cstart..c0] == before[cstart..] == d && str[..cstart] == before[..cstart];
    assert str[c0..c] == Zeros(dotat - c0);
    assert str[cstart..c] == str[cstart..c0] + str[c0..c];
  }

  /** Zeros and a point in front of the digits. */
  method PointInFront(str: array<char>, cstart: nat, c: nat, gap: nat)
    requires cstart <= 1 && cstart < c && 2 <= gap <= 7 && c + gap < str.Length && str.Length >= 12
    modifies str
    ensures str[..cstart] == old(str[..cstart])
    ensures str[cstart..c + gap] == "0." + Zeros(gap - 2) + old(str[cstart..c])
  {
    ShiftRight(str, cstart, c, gap);
    ghost var head, tail := str[..cstart], str[cstart + gap..c + gap];
    FillZeroPoint(str, cstart, gap);
    assert str[..cstart] == head && str[cstart + gap..c + gap] == tail;
    assert str[cstart..c + gap] == str[cstart..cstart + gap] + str[cstart + gap..c + gap];
  }

  method PlacePoint(str: array<char>, cstart: nat, c0: nat, pre: int) returns (c: nat)
    requires cstart <= 1 && cstart < c0 && c0 + 8 <= str.Length && -5 <= pre && str.Length >= 12
    requires pre <= c0 - cstart || pre <= 3
    modifies str
    ensures c == cstart + |Pointed(old(str[cstart..c0]), pre)| < str.Length
    ensures str[..cstart] == old(str[..cstart]) && str[cstart..c] == Pointed(old(str[cstart..c0]), pre)
  {
    c := c0;
    if pre > 0 {
      var dotat := cstart + pre;
      if dotat < c {
        PointInside(str, cstart, c, pre);
        c := c + 1;
      } else {
        c := ZerosBehind(str, cstart, c, dotat);
      }
    } else {
      PointInFront(str, cstart, c, 2 - pre);
      c := c + (2 - pre);
    }
  }

  // ---- the whole text ----

  /** Copies a literal. */
  method PutLiteral(str: array<char>, c0: nat, s: string) returns (c: nat)
    requires c0 + |s| <= str.Length
    modifies str
    ensures c == c0 + |s| && str[..c] == old(str[..c0]) + s
  {
    ghost var before := str[..c0];
    var i := 0;
    while i < |s|
      invariant 0 <= i <= |s| && str[..c0 + i] == before + s[..i]
    {
      ghost var t := str[..c0 + i];
      str[c0 + i] := s[i];
      assert str[..c0 + i + 1] == t + [s[i]];
      i := i + 1;
    }
    c := c0 + |s|;
    assert s[..|s|] == s;
  }

  lemma PlacingBounds(f: Format, c: nat, exp: int, eng: bool)
    requires f.Basic() && Emaxd(f) <= 4 && c < Pow10(f.pmax) && f.Qtiny() <= exp <= f.Etop()
    ensures var len := NumDigits(c); var (pre, e) := Placing(len, exp, c == 0, eng);
            && 1 <= len <= f.pmax && -5 <= pre && (pre <= len || pre <= 3) && -10000 < e < 10000
            && (e != 0 ==> 1 <= pre <= 3 || (len == 1 && -1 <= pre <= 0))
  {
    NumDigitsBound(c, f.pmax);
    OneDigitZero();
    SmallEnough(f);
    hide NumDigits, Pow10;
  }

  lemma SmallEnough(f: Format)
    requires f.Basic() && Emaxd(f) <= 4
    ensures f.emax + f.pmax < 10000
  {
    NumDigitsIsLength(f.emax + f.pmax);
    Pow10Mono(Emaxd(f), 4);
    assert Pow10(4) == 10 * Pow10(3) && Pow10(3) == 10 * Pow10(2) && Pow10(2) == 10 * Pow10(1) && Pow10(1) == 10 * Pow10(0);
    hide Pow10, NumDigits;
  }

  lemma PointedLength(d: string, pre: int)
    requires |d| >= 1
    ensures |Pointed(d, pre)| <= (if pre > 0 then (if pre <= 3 && |d| <= 3 then 4 else |d| + 1) else |d| + 2 - pre) || pre > |d|
    ensures pre > |d| ==> |Pointed(d, pre)| == pre
  {
  }

  /** A finite datum, after its sign. */
  method PutFinite(f: Format, coeff: nat, exp: int, str: array<char>, cstart: nat, eng: bool) returns (c: nat)
    requires f.Basic() && Emaxd(f) <= 4 && coeff < Pow10(f.pmax) && f.Qtiny() <= exp <= f.Etop()
    requires cstart <= 1 && str.Length == DecString(f)
    modifies str
    ensures var d := Chars(CoefficientDigits(coeff)); var (pre, e) := Placing(|d|, exp, coeff == 0, eng);
            c < str.Length && str[..c] == old(str[..cstart]) + Laid(d, pre, e)
  {
    hide *;
    ghost var d := Chars(CoefficientDigits(coeff));
    CoefficientDigitsValue(coeff);
    PlacingBounds(f, coeff, exp, eng);
    DecStringIs(f);
    c := PutCoefficient(f, coeff, str, cstart);
    assert str[cstart..c] == d;
    var pre, e := PlaceOf(c - cstart, exp, coeff == 0, eng);
    c := LayOut(str, cstart, c, pre, e);
  }

  lemma DecStringIs(f: Format)
    requires f.Basic()
    ensures DecString(f) == f.pmax + 9 && f.pmax >= 8
  {
  }

  /** Where the point goes and what exponent is shown, step by step. */
  method PlaceOf(len: nat, exp: int, zero: bool, eng: bool) returns (pre: int, e: int)
    ensures (pre, e) == Placing(len, exp, zero, eng)
  {
    pre, e := len + exp, 0;
    if exp != 0 && (exp > 0 || pre < -5) {
      e := pre - 1;
      pre := 1;
      if eng && e != 0 {
        var adj := if e < 0 then (-e) % 3 else e % 3;
        if e < 0 && adj != 0 {
          adj := 3 - adj;
        }
        Remainders(e);
        e := e - adj;
        if !zero {
          pre := pre + adj;
        } else if adj != 0 {
          e := e + 3;
          pre := -(2 - adj);
        }
      }
    }
  }

  /** Point and exponent. */
  method LayOut(str: array<char>, cstart: nat, c0: nat, pre: int, e: int) returns (c: nat)
    requires cstart <= 1 && cstart < c0 && c0 + 8 <= str.Length && -5 <= pre && str.Length >= 17
    requires (pre <= c0 - cstart || pre <= 3) && -10000 < e < 10000
    requires e != 0 ==> 1 <= pre <= 3 || (c0 - cstart == 1 && -1 <= pre <= 0)
    modifies str
    ensures c < str.Length && str[..c] == old(str[..cstart]) + Laid(old(str[cstart..c0]), pre, e)
  {
    ghost var before, d := str[..cstart], str[cstart..c0];
    hide ExponentText, Pointed;
    PointedLength(d, pre);
    LaidIsPointed(d, pre, e);
    hide Laid;
    c := PlacePoint(str, cstart, c0, pre);
    SplitAt(str, cstart, c);
    Associate(before, Pointed(d, pre), ExponentText(e));
    if e != 0 {
      c := PutExponent(str, c, e);
    } else {
      NoExponent();
    }
  }

  lemma Remainders(e: int)
    ensures e < 0 ==> e % 3 == if (-e) % 3 == 0 then 0 else 3 - (-e) % 3
  {
  }

  lemma NoExponent()
    ensures ExponentText(0) == ""
  {
  }

  lemma SplitAt(str: array<char>, i: nat, c: nat)
    requires i <= c <= str.Length
    ensures str[..c] == str[..i] + str[i..c]
  {
  }

  lemma Associate(a: string, b: string, x: string)
    ensures a + b + x == a + (b + x)
    ensures x == "" ==> a + b + x == a + b
  {
  }

  /** The text of a datum, terminated. */
  method DecFloatToText(f: Format, x: DecFloat, str: array<char>, eng: bool) returns (len: nat)
    requires f.Basic() && Emaxd(f) <= 4 && x.Fits(f) && str.Length == DecString(f)
    modifies str
    ensures len < str.Length && str[..len] == TextOf(x, eng) && str[len] == '\0'
  {
    var c := 0;
    assert str[..0] == "";
    if x.sign {
      c := PutLiteral(str, c, "-");
    }
    ghost var front := str[..c];
    assert front == if x.sign then "-" else "";
    hide CoefficientDigits, Placing, Laid, Emaxd, Pow10;
    match x {
      case Finite(_, coeff, exp) =>
        len := PutFinite(f, coeff, exp, str, c, eng);
      case Infinity(_) =>
        len := PutLiteral(str, c, "Infinity");
      case NaN(_, signaling, p) =>
        len := PutNaN(f, str, c, signaling, p);
    }
    ghost var text := str[..len];
    str[len] := '\0';
    assert str[..len] == text;
  }

  /** A NaN, after its sign: its payload, unless zero, as an integer. */
  method PutNaN(f: Format, str: array<char>, c0: nat, signaling: bool, p: nat) returns (c: nat)
    requires f.Basic() && p < Pow10(f.pmax - 1) && c0 <= 1 && str.Length == DecString(f)
    modifies str
    ensures c < str.Length
    ensures str[..c] == old(str[..c0]) + ((if signaling then "s" else "") + "NaN" + if p == 0 then "" else Chars(CoefficientDigits(p)))
  {
    ghost var before := str[..c0];
    c := c0;
    if signaling {
      c := PutLiteral(str, c, "s");
    }
    c := PutLiteral(str, c, "NaN");
    ghost var word := (if signaling then "s" else "") + "NaN";
    assert str[..c] == before + word;
    if p != 0 {
      var cstart := c;
      Pow10Mono(f.pmax - 1, f.pmax);
      hide CoefficientDigits, Chars, Pow10;
      c := PutCoefficient(f, p, str, cstart);
      SplitAt(str, cstart, c);
      Associate(before, word, Chars(CoefficientDigits(p)));
    } else {
      Associate(before, word, "");
    }
  }
}
