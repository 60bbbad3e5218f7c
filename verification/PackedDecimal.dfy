/** Packed decimal (two digits a byte, a sign nibble last) to and from a decNumber (decPacked.c:59-219). */
module PackedDecimal {
  import opened Arith
  import opened DecFloats
  import opened Truncation
  import opened Declets
  import opened DecNumbers
  import opened Gf2Poly
  import opened BitFields

  const DECPMINUSALT := 0x0B
  const DECPPLUS := 0x0C
  const DECPMINUS := 0x0D
  const DECNUMMAXE := 999_999_999

  // ---- nibbles ----

  /** A coefficient with a digit in each nibble. */
  function Nibbles(c: nat): nat {
    if c == 0 then 0 else c % 10 + 16 * Nibbles(c / 10)
  }

  function FromNibbles(h: nat): nat {
    if h == 0 then 0 else h % 16 + 10 * FromNibbles(h / 16)
  }

  predicate AllDigits(h: nat) {
    h == 0 || (h % 16 <= 9 && AllDigits(h / 16))
  }

  function NibbleCount(h: nat): nat {
    if h == 0 then 0 else 1 + NibbleCount(h / 16)
  }

  lemma {:induction false} NibblesRoundTrip(c: nat)
    ensures AllDigits(Nibbles(c)) && FromNibbles(Nibbles(c)) == c
    ensures c > 0 ==> Nibbles(c) > 0 && NibbleCount(Nibbles(c)) == NumDigits(c)
  {
    if c > 0 {
      NibblesRoundTrip(c / 10);
      DivModUnique(Nibbles(c), 16, Nibbles(c / 10), c % 10);
    }
  }

  lemma {:induction false} DigitsOfNibbles(h: nat)
    requires AllDigits(h) && h > 0
    ensures FromNibbles(h) > 0 && NumDigits(FromNibbles(h)) == NibbleCount(h)
    ensures Nibbles(FromNibbles(h)) == h
  {
    DivModUnique(FromNibbles(h), 10, FromNibbles(h / 16), h % 16);
    if h >= 16 {
      DigitsOfNibbles(h / 16);
    } else {
      assert h / 16 == 0;
    }
  }

  /** A byte string as a number, the last byte lowest. */
  function BytesVal(s: seq<nat>): nat {
    if |s| == 0 then 0 else 0x100 * BytesVal(s[..|s| - 1]) + s[|s| - 1]
  }

  predicate Bytes(s: seq<nat>) {
    forall k: nat :: k < |s| ==> s[k] < 0x100
  }

  /** The packed form of a number. */
  function Packed10(negative: bool, c: nat): nat {
    16 * Nibbles(c) + if negative then DECPMINUS else DECPPLUS
  }

  /** The digits and scale are within the range of adjusted exponents. */
  predicate AdjustedInRange(digits: nat, scale: int) {
    if scale >= 0 then digits - scale - 1 >= -DECNUMMAXE
    else scale >= -DECNUMMAXE && digits - scale - 1 <= DECNUMMAXE
  }

  datatype Unpacking = Bad | Good(value: DecFloat)

  /** What packed bytes mean: a sign nibble above 9, and digits. */
  function Unpacked(v: nat, scale: int): Unpacking {
    var (h, sign) := (v / 16, v % 16);
    if sign <= 9 || !AllDigits(h) || !AdjustedInRange(if h == 0 then 1 else NibbleCount(h), scale) then Bad
    else Good(Finite(sign == DECPMINUS || sign == DECPMINUSALT, FromNibbles(h), -scale))
  }

  /** Unpacking undoes packing, for any number whose adjusted exponent is in range. */
  lemma PackedRoundTrip(negative: bool, c: nat, e: int)
    requires AdjustedInRange(NumDigits(c), -e)
    ensures Unpacked(Packed10(negative, c), -e) == Good(Finite(negative, c, e))
  {
    NibblesRoundTrip(c);
    hide Nibbles, AllDigits, FromNibbles;
    DivModUnique(Packed10(negative, c), 16, Nibbles(c), if negative then DECPMINUS else DECPPLUS);
    if c == 0 {
      ZeroNibbles();
    }
  }

  /** Every sign nibble: digits are none, 0xB and 0xD are minus, the others plus. */
  lemma SignNibbles(h: nat, n: nat, scale: int)
    requires n < 16 && AllDigits(h) && AdjustedInRange(if h == 0 then 1 else NibbleCount(h), scale)
    ensures var u := Unpacked(16 * h + n, scale);
            && (n == 0xA || n == 0xC || n == 0xE || n == 0xF ==> u == Good(Finite(false, FromNibbles(h), -scale)))
            && (n == 0xB || n == 0xD ==> u == Good(Finite(true, FromNibbles(h), -scale)))
            && (n <= 9 ==> u == Bad)
  {
    hide AllDigits, FromNibbles, NibbleCount, AdjustedInRange;
    var v := 16 * h + n;
    assert v / 16 == h && v % 16 == n by { DivModUnique(v, 16, h, n); }
  }

  /** The bytes 0x12 and 0x3D, with scale 1, are -12.3. */
  lemma PackedExample()
    ensures BytesVal([0x12, 0x3D]) == 0x123D == Packed10(true, 123)
    ensures Unpacked(0x123D, 1) == Good(Finite(true, 123, -1))
  {
    assert [0x12, 0x3D][..1] == [0x12] && [0x12][..0] == [];
    assert BytesVal([0x12]) == 0x12;
    assert Nibbles(1) == 1 && Nibbles(12) == 0x12 && Nibbles(123) == 0x123;
    assert FromNibbles(1) == 1 && FromNibbles(0x12) == 12 && FromNibbles(0x123) == 123;
    assert AllDigits(1) && AllDigits(0x12) && NibbleCount(0x12) == 2;
  }

  lemma ZeroNibbles()
    ensures Nibbles(0) == 0 && NumDigits(0) == 1
  {
  }

  // ---- packing ----

  /** u / 10 by a multiplication and a shift. */
  lemma TenthOfUnit(u: nat)
    requires u < 1000
    ensures u * 6554 / 0x1_0000 == u / 10
  {
    DivModUnique(u * 6554, 0x1_0000, u / 10, 4 * (u / 10) + 6554 * (u % 10));
  }

  /** Where the digits are taken from: cut digits left in u, and the units above. */
  ghost predicate Taken(s: seq<nat>, up: nat, u: nat, cut: nat, rest: nat) {
    up < |s| && cut <= 3 && u < Pow10(cut) && rest == u + Shift(NumThou(s[up + 1..]), cut)
  }

  /** The next digit, and the number without it. */
  method TakeDigit(lsu: array<nat>, ghost m: nat, up: nat, u: nat, cut: nat, ghost rest: nat) returns (nib: nat, up': nat, u': nat, cut': nat)
    requires m <= lsu.Length && Thousands(lsu[..m]) && Taken(lsu[..m], up, u, cut, rest) && (cut == 0 ==> up + 1 < m)
    ensures nib == rest % 10 && Taken(lsu[..m], up', u', cut', rest / 10) && 3 * (up' + 1) - cut' == 3 * (up + 1) - cut + 1
  {
    hide NumThou, Shift, Pow10, Thousands;
    ghost var s := lsu[..m];
    up', u', cut' := up, u, cut;
    if cut == 0 {
      up' := up + 1;
      u' := lsu[up'];
      cut' := 3;
      NextUnit(s, up, u, rest);
    }
    DigitOff(s, up', u', cut', rest);
    var temp := u' * 6554 / 0x1_0000;
    nib := u' - 10 * temp;
    u' := temp;
    cut' := cut' - 1;
  }

  lemma NextUnit(s: seq<nat>, up: nat, u: nat, rest: nat)
    requires Thousands(s) && Taken(s, up, u, 0, rest) && up + 1 < |s|
    ensures Taken(s, up + 1, s[up + 1], 3, rest)
  {
    assert s[up + 1..][1..] == s[up + 2..];
    assert NumThou(s[up + 1..]) == s[up + 1] + 1000 * NumThou(s[up + 2..]);
    hide NumThou;
    ThreeTens(NumThou(s[up + 2..]));
  }

  lemma ThreeTens(a: nat)
    ensures Shift(a, 3) == 1000 * a && Pow10(3) == 1000 && Pow10(0) == 1
  {
    ShiftThree(a, 0);
    PowThree(0);
  }

  lemma DigitOff(s: seq<nat>, up: nat, u: nat, cut: nat, rest: nat)
    requires Taken(s, up, u, cut, rest) && cut >= 1
    ensures u < 1000 && u * 6554 / 0x1_0000 == u / 10
    ensures u - 10 * (u / 10) == rest % 10 && Taken(s, up, u / 10, cut - 1, rest / 10)
  {
    hide NumThou;
    var a := NumThou(s[up + 1..]);
    assert Shift(a, cut) == 10 * Shift(a, cut - 1) && Pow10(cut) == 10 * Pow10(cut - 1);
    Pow10Mono(cut, 3);
    ThreeTens(0);
    hide Shift, Pow10;
    TenthOfUnit(u);
    TensAndUnits(Shift(a, cut - 1), u);
  }

  /** The state of the digits: indigs of them are left. */
  ghost predicate Packing(s: seq<nat>, up: nat, u: nat, cut: nat, rest: nat, indigs: nat, digits: nat) {
    && Thousands(s) && Taken(s, up, u, cut, rest) && rest < Pow10(indigs) && indigs <= digits <= 3 * |s|
    && (indigs > 0 ==> 3 * (up + 1) - cut == digits - indigs)
  }

  /** The next nibble, zero when there are no more digits. */
  method NextNibble(lsu: array<nat>, ghost m: nat, up: nat, u: nat, cut: nat, indigs: nat, ghost rest: nat, ghost digits: nat)
    returns (nib: nat, up': nat, u': nat, cut': nat, indigs': nat)
    requires m <= lsu.Length && Packing(lsu[..m], up, u, cut, rest, indigs, digits)
    ensures nib == rest % 10 && Packing(lsu[..m], up', u', cut', rest / 10, indigs', digits)
    ensures indigs' == if indigs > 0 then indigs - 1 else 0
  {
    hide Thousands, Taken, Pow10;
    nib, up', u', cut', indigs' := 0, up, u, cut, indigs;
    BelowTen(rest, indigs);
    if indigs > 0 {
      nib, up', u', cut' := TakeDigit(lsu, m, up, u, cut, rest);
      indigs' := indigs - 1;
    }
  }

  lemma BelowTen(rest: nat, n: nat)
    requires rest < Pow10(n)
    ensures n == 0 ==> rest == 0 == rest / 10 == rest % 10
    ensures n > 0 ==> rest / 10 < Pow10(n - 1)
  {
    if n > 0 {
      assert Pow10(n) == 10 * Pow10(n - 1);
    }
  }

  /** x at byte position n. */
  function Up(x: nat, n: nat): nat {
    if n == 0 then x else 0x100 * Up(x, n - 1)
  }

  lemma {:induction false} UpSum(x: nat, y: nat, n: nat)
    ensures Up(x + y, n) == Up(x, n) + Up(y, n)
  {
    if n > 0 {
      UpSum(x, y, n - 1);
    }
  }

  lemma {:induction false} UpNext(x: nat, n: nat)
    ensures Up(0x100 * x, n) == Up(x, n + 1)
  {
    if n > 0 {
      UpNext(x, n - 1);
    }
  }

  lemma {:induction false} BytesPrepend(b: nat, t: seq<nat>)
    ensures BytesVal([b] + t) == Up(b, |t|) + BytesVal(t)
  {
    if |t| == 0 {
      assert [b] + t == [b] && [b][..0] == [];
      assert BytesVal([b]) == 0x100 * BytesVal([]) + b;
    } else {
      var n := |t| - 1;
      assert ([b] + t)[..n + 1] == [b] + t[..n];
      BytesPrepend(b, t[..n]);
    }
  }

  /** One byte written: its two nibbles leave the digits. */
  lemma ByteStep(t: seq<nat>, t': seq<nat>, obyte: nat, rest: nat, nib: nat, next: nat)
    requires obyte < 16 && nib == rest % 10 && next == rest / 10 % 10 && t' == [Or(obyte, Shl(nib, 4))] + t
    ensures Or(obyte, Shl(nib, 4)) == obyte + 16 * nib < 0x100
    ensures BytesVal(t') + Up(next + 16 * Nibbles(rest / 10 / 10), |t| + 1)
         == BytesVal(t) + Up(obyte + 16 * Nibbles(rest), |t|)
  {
    hide Or, Shl, Pow2, BytesVal, Up, Nibbles;
    FourBitField(obyte, nib);
    BytesPrepend(obyte + 16 * nib, t);
    NibbleOff(rest);
    NibbleOff(rest / 10);
    var x := next + 16 * Nibbles(rest / 10 / 10);
    UpNext(x, |t|);
    UpSum(obyte + 16 * nib, 0x100 * x, |t|);
  }

  lemma FourBitField(obyte: nat, nib: nat)
    requires obyte < 16
    ensures Or(obyte, Shl(nib, 4)) == obyte + 16 * nib
  {
    hide Or;
    NibbleShift(nib, 0);
    assert Pow2(4) == 16;
    OrDisjoint(obyte, nib, 4);
  }

  lemma NibbleOff(c: nat)
    ensures Nibbles(c) == c % 10 + 16 * Nibbles(c / 10)
  {
  }

  /** decPackedFromNumber */
  method DecPackedFromNumber(bcd: array<nat>, scale0: int, dn: DecNumber) returns (ok: bool, scale: int)
    requires dn.Valid() && dn.lsu != bcd
    modifies bcd
    ensures ok <==> dn.kind == FiniteNumber && dn.digits <= 2 * bcd.Length - 1
    ensures !ok ==> bcd[..] == old(bcd[..]) && scale == scale0
    ensures ok ==> Bytes(bcd[..]) && BytesVal(bcd[..]) == Packed10(dn.negative, dn.Coefficient()) && scale == -dn.exponent
  {
    hide NumThou, NumDigits, BytesVal, Nibbles;
    if dn.digits > bcd.Length * 2 - 1 || dn.kind != FiniteNumber {
      return false, scale0;
    }
    var obyte := if dn.negative then DECPMINUS else DECPPLUS;
    PackBytes(bcd, dn, obyte);
    return true, -dn.exponent;
  }

  method PackBytes(bcd: array<nat>, dn: DecNumber, sign: nat)
    requires dn.Valid() && dn.lsu != bcd && sign < 16 && dn.digits <= 2 * bcd.Length - 1
    modifies bcd
    ensures Bytes(bcd[..]) && BytesVal(bcd[..]) == 16 * Nibbles(dn.Coefficient()) + sign
  {
    hide NumThou, NumDigits, BytesVal, Nibbles, Up, Packing, Or, Shl, Pow10, Thousands;
    ghost var m, c := UnitsFor(dn.digits), dn.Coefficient();
    var up: nat, u: nat, cut: nat, indigs: nat, obyte: nat := 0, dn.lsu[0], 3, dn.digits, sign;
    ghost var rest := c;
    FirstDigits(dn.lsu[..m], dn.digits);
    var i := bcd.Length;
    NoBytes(bcd[i..], sign + 16 * Nibbles(c));
    while i > 0
      invariant 0 <= i <= bcd.Length && obyte < 16 && Bytes(bcd[i..])
      invariant Packing(dn.lsu[..m], up, u, cut, rest, indigs, dn.digits)
      invariant indigs == if dn.digits > 2 * (bcd.Length - i) then dn.digits - 2 * (bcd.Length - i) else 0
      invariant 2 * (bcd.Length - i) > dn.digits ==> obyte == 0
      invariant BytesVal(bcd[i..]) + Up(obyte + 16 * Nibbles(rest), bcd.Length - i) == sign + 16 * Nibbles(c)
    {
      i := i - 1;
      ghost var t, before, old_rest := bcd[i + 1..], obyte, rest;
      var nib, next: nat;
      nib, up, u, cut, indigs := NextNibble(dn.lsu, m, up, u, cut, indigs, rest, dn.digits);
      obyte := Or(obyte, Shl(nib, 4));
      bcd[i] := obyte;
      assert bcd[i..] == [obyte] + t;
      PackingLeft(dn.lsu[..m], up, u, cut, rest / 10, indigs, dn.digits);
      next, up, u, cut, indigs := NextNibble(dn.lsu, m, up, u, cut, indigs, rest / 10, dn.digits);
      obyte := next;
      ByteStep(t, bcd[i..], before, old_rest, nib, next);
      ByteFirst(bcd[i], t, bcd[i..]);
      rest := rest / 10 / 10;
    }
    PackingLeft(dn.lsu[..m], up, u, cut, rest, indigs, dn.digits);
    NoNibbles(bcd.Length);
    assert bcd[0..] == bcd[..];
  }

  lemma FirstDigits(s: seq<nat>, digits: nat)
    requires Thousands(s) && |s| == UnitsFor(digits) >= 1 && NumDigits(NumThou(s)) == digits
    ensures Packing(s, 0, s[0], 3, NumThou(s), digits, digits)
  {
    hide NumDigits;
    NumDigitsIsLength(NumThou(s));
    assert NumThou(s) == s[0] + 1000 * NumThou(s[1..]);
    ThreeTens(NumThou(s[1..]));
  }

  lemma NoBytes(t: seq<nat>, x: nat)
    requires t == []
    ensures Bytes(t) && BytesVal(t) + Up(x, 0) == x
  {
  }

  lemma ByteFirst(b: nat, t: seq<nat>, t': seq<nat>)
    requires b < 0x100 && Bytes(t) && t' == [b] + t
    ensures Bytes(t')
  {
  }

  lemma PackingLeft(s: seq<nat>, up: nat, u: nat, cut: nat, rest: nat, indigs: nat, digits: nat)
    requires Packing(s, up, u, cut, rest, indigs, digits)
    ensures indigs == 0 ==> rest == 0 && rest % 10 == 0
  {
    BelowTen(rest, indigs);
  }

  lemma {:induction false} NoNibbles(n: nat)
    ensures Nibbles(0) == 0 && Up(0, n) == 0
  {
    if n > 0 {
      NoNibbles(n - 1);
    }
  }

  // ---- unpacking ----

  /** Leading zero bytes add nothing. */
  lemma {:induction false} LeadingZeroBytes(s: seq<nat>, first: nat)
    requires first <= |s| && forall k: nat :: k < first ==> s[k] == 0
    ensures BytesVal(s[first..]) == BytesVal(s)
  {
    if first == |s| {
      AllZeroBytes(s);
    } else {
      var t := s[..|s| - 1];
      assert t[first..] == s[first..][..|s| - first - 1];
      LeadingZeroBytes(t, first);
    }
  }

  lemma {:induction false} AllZeroBytes(s: seq<nat>)
    requires forall k: nat :: k < |s| ==> s[k] == 0
    ensures BytesVal(s) == 0
  {
    if |s| > 0 {
      AllZeroBytes(s[..|s| - 1]);
    }
  }

  /** How many nibbles bytes have, from the first one that is not zero. */
  lemma {:induction false} CountNibbles(s: seq<nat>)
    requires |s| > 0 && Bytes(s) && s[0] != 0
    ensures BytesVal(s) > 0 && NibbleCount(BytesVal(s)) == 2 * |s| - (if s[0] < 16 then 1 else 0)
  {
    var t := s[..|s| - 1];
    assert BytesVal(s) == 0x100 * BytesVal(t) + s[|s| - 1];
    if |s| == 1 {
      assert BytesVal(t) == 0;
      ByteNibbles(s[0]);
    } else {
      assert t[0] == s[0];
      CountNibbles(t);
      TwoNibbles(BytesVal(t), s[|s| - 1]);
    }
  }

  lemma ByteNibbles(b: nat)
    requires 0 < b < 0x100
    ensures NibbleCount(b) == if b < 16 then 1 else 2
  {
    assert NibbleCount(b) == 1 + NibbleCount(b / 16);
    assert b >= 16 ==> NibbleCount(b / 16) == 1 + NibbleCount(b / 16 / 16);
  }

  lemma TwoNibbles(h: nat, b: nat)
    requires h > 0 && b < 0x100
    ensures NibbleCount(0x100 * h + b) == NibbleCount(h) + 2
  {
    var v := 0x100 * h + b;
    assert v / 16 / 16 == h;
    assert NibbleCount(v) == 1 + NibbleCount(v / 16) == 2 + NibbleCount(v / 16 / 16);
  }

  /** The two nibbles of the last byte. */
  lemma LastByte(s: seq<nat>, n: nat)
    requires n < |s| && Bytes(s)
    ensures var v := BytesVal(s[..n + 1]);
            v % 16 == s[n] % 16 && v / 16 % 16 == s[n] / 16 && v / 16 / 16 == BytesVal(s[..n])
    ensures s[n] < 0x100
  {
    assert s[..n + 1][..n] == s[..n];
    assert BytesVal(s[..n + 1]) == 0x100 * BytesVal(s[..n]) + s[n];
  }

  /** decPackedToNumber */
  method DecPackedToNumber(bcd: array<nat>, scale: int, dn: DecNumber) returns (ok: bool)
    requires bcd.Length >= 1 && Bytes(bcd[..]) && dn.lsu != bcd && 2 * bcd.Length - 1 <= 3 * dn.lsu.Length
    modifies dn, dn.lsu
    ensures dn.Valid() && ok == Unpacked(BytesVal(bcd[..]), scale).Good?
    ensures dn.View() == if ok then Unpacked(BytesVal(bcd[..]), scale).value else Finite(false, 0, 0)
  {
    hide BytesVal, NibbleCount, NumThou, NumDigits, Thousands, AllDigits, FromNibbles;
    ghost var v := BytesVal(bcd[..]);
    ghost var h := v / 16;
    var last := bcd.Length - 1;
    assert bcd[..last + 1] == bcd[..];
    LastByte(bcd[..], last);
    dn.Zero();
    var nib := bcd[last] % 16;
    if nib == DECPMINUS || nib == DECPMINUSALT {
      dn.negative := true;
    } else if nib <= 9 {
      return false;
    }
    var digits := CountDigits(bcd);
    NoNibble(h);
    dn.exponent := -scale;
    var inRange := CheckExponent(if digits != 0 then digits else 1, scale);
    if !inRange {
      dn.Zero();
      return false;
    }
    if digits == 0 {
      return true;
    }
    ok := UnpackDigits(bcd, dn, digits);
    if !ok {
      dn.Zero();
    }
  }

  lemma NoNibble(h: nat)
    ensures h == 0 <==> NibbleCount(h) == 0
    ensures h == 0 ==> AllDigits(h) && FromNibbles(h) == 0
  {
  }

  /** The count of digit nibbles after leading zeros. */
  method CountDigits(bcd: array<nat>) returns (digits: nat)
    requires bcd.Length >= 1 && Bytes(bcd[..]) && bcd[bcd.Length - 1] % 16 > 9
    ensures digits == NibbleCount(BytesVal(bcd[..]) / 16) <= 2 * bcd.Length - 1
  {
    hide BytesVal, NibbleCount;
    var first: nat := 0;
    while bcd[first] == 0
      invariant first < bcd.Length && forall k: nat :: k < first ==> bcd[k] == 0
      decreases bcd.Length - first
    {
      first := first + 1;
    }
    digits := (bcd.Length - 1 - first) * 2 + 1;
    if bcd[first] < 16 {
      digits := digits - 1;
    }
    ghost var s := bcd[first..];
    LeadingZeroBytes(bcd[..], first);
    assert s == bcd[..][first..] && s[0] == bcd[first];
    CountNibbles(s);
    OneNibbleLess(BytesVal(s));
  }

  lemma OneNibbleLess(v: nat)
    requires v > 0
    ensures NibbleCount(v) == 1 + NibbleCount(v / 16)
  {
  }

  /** The checks of the adjusted exponent. */
  method CheckExponent(digits: nat, scale: int) returns (ok: bool)
    ensures ok == AdjustedInRange(digits, scale)
  {
    if scale >= 0 {
      if digits - scale - 1 < -DECNUMMAXE {
        return false;
      }
    } else if scale < -DECNUMMAXE || digits - scale - 1 > DECNUMMAXE {
      return false;
    }
    return true;
  }

  /** Where digits go: j of them are stored, and g is what is left. */
  ghost predicate Storing(s: seq<nat>, up: nat, cut: nat, j: nat, g: nat, h: nat) {
    && j == 3 * up + cut && cut < 3 && up + (if cut > 0 then 1 else 0) == |s| && Thousands(s)
    && (cut > 0 ==> s[up] < Pow10(cut))
    && (AllDigits(h) <==> AllDigits(g))
    && FromNibbles(h) == NumThou(s) + Shift(FromNibbles(g), j)
  }

  /** Stores a digit at position cut of unit up. */
  method PutDigit(lsu: array<nat>, up: nat, cut: nat, nib: nat, ghost j: nat, ghost g: nat, ghost h: nat)
    returns (up': nat, cut': nat)
    requires up < lsu.Length && cut < 3 && nib <= 9 && nib == g % 16
    requires Storing(lsu[..up + (if cut > 0 then 1 else 0)], up, cut, j, g, h)
    modifies lsu
    ensures up' <= lsu.Length && cut' < 3 && (cut' > 0 ==> up' < lsu.Length)
    ensures Storing(lsu[..up' + (if cut' > 0 then 1 else 0)], up', cut', j + 1, g / 16, h)
  {
    hide NumThou, Thousands, AllDigits, FromNibbles, Shift, Pow10;
    ghost var s := lsu[..up + (if cut > 0 then 1 else 0)];
    if cut == 0 {
      lsu[up] := nib;
    } else {
      lsu[up] := lsu[up] + nib * (if cut == 1 then 10 else 100);
    }
    ghost var t := lsu[..up + 1];
    assert t == (if cut == 0 then s + [nib] else s[..up] + [s[up] + nib * (if cut == 1 then 10 else 100)]);
    DigitStored(s, up, cut, nib, j, g, h, t);
    up', cut' := up, cut + 1;
    if cut' == 3 {
      up', cut' := up + 1, 0;
    }
  }

  /** One digit more. */
  lemma DigitStored(s: seq<nat>, up: nat, cut: nat, nib: nat, j: nat, g: nat, h: nat, t: seq<nat>)
    requires Storing(s, up, cut, j, g, h) && nib <= 9 && nib == g % 16
    requires t == if cut == 0 then s + [nib] else s[..up] + [s[up] + nib * (if cut == 1 then 10 else 100)]
    ensures if cut == 2 then Storing(t, up + 1, 0, j + 1, g / 16, h) else Storing(t, up, cut + 1, j + 1, g / 16, h)
  {
    hide NumThou, AllDigits, FromNibbles, Shift, Pow10;
    UnitGrows(s, up, cut, nib, t);
    NibbleLeft(g);
    var r := FromNibbles(g / 16);
    ShiftSum(nib, 10 * r, j);
    TenShift(r, j);
    assert |t| == up + 1;
  }

  lemma TenShift(r: nat, j: nat)
    ensures Shift(10 * r, j) == Shift(r, j + 1)
  {
    hide Shift;
    ShiftAdd(r, 1, j);
    assert Shift(r, 1) == 10 * r by { OneShift(r); }
  }

  lemma OneShift(r: nat)
    ensures Shift(r, 1) == 10 * r
  {
    assert Shift(r, 0) == r;
  }

  lemma NibbleLeft(g: nat)
    ensures FromNibbles(g) == g % 16 + 10 * FromNibbles(g / 16)
    ensures g % 16 <= 9 ==> (AllDigits(g) <==> AllDigits(g / 16))
    ensures g % 16 > 9 ==> !AllDigits(g)
  {
  }

  /** A digit into a unit. */
  lemma UnitGrows(s: seq<nat>, up: nat, cut: nat, nib: nat, t: seq<nat>)
    requires cut < 3 && |s| == up + (if cut > 0 then 1 else 0) && Thousands(s) && nib <= 9 && (cut > 0 ==> s[up] < Pow10(cut))
    requires t == if cut == 0 then s + [nib] else s[..up] + [s[up] + nib * (if cut == 1 then 10 else 100)]
    ensures |t| == up + 1 && t[up] < Pow10(cut + 1) && Thousands(t)
    ensures NumThou(t) == NumThou(s) + Shift(nib, 3 * up + cut)
  {
    hide NumThou, Shift;
    var p := if cut == 0 then 1 else if cut == 1 then 10 else 100;
    SmallPowers(nib, cut);
    var u := if cut == 0 then 0 else s[up];
    NumThouAppend(s[..up], t[up]);
    if cut > 0 {
      NumThouAppend(s[..up], s[up]);
      assert s[..up] + [s[up]] == s;
    } else {
      assert s[..up] == s;
    }
    assert t == s[..up] + [t[up]];
    ShiftSum(u, nib * p, 3 * up);
    ShiftAdd(nib, cut, 3 * up);
    assert cut + 3 * up == 3 * up + cut;
    ShiftZero(3 * up);
  }

  lemma SmallPowers(nib: nat, cut: nat)
    requires cut < 3
    ensures var p := if cut == 0 then 1 else if cut == 1 then 10 else 100;
            Pow10(cut) == p && Pow10(cut + 1) == 10 * p && Shift(nib, cut) == nib * p
  {
    assert Pow10(1) == 10 && Pow10(2) == 100 && Pow10(3) == 1000;
    assert Shift(nib, 1) == 10 * nib && Shift(nib, 2) == 10 * Shift(nib, 1);
  }

  lemma StoringStart(s: seq<nat>, h: nat)
    requires s == []
    ensures Storing(s, 0, 0, 0, h, h)
  {
  }

  lemma StoringDone(s: seq<nat>, up: nat, cut: nat, j: nat, g: nat, h: nat)
    requires Storing(s, up, cut, j, g, h) && NibbleCount(g) == 0 && j == NibbleCount(h) > 0
    ensures AllDigits(h) && Thousands(s) && NumThou(s) == FromNibbles(h) && |s| == UnitsFor(j) && NumDigits(NumThou(s)) == j
  {
    NoNibble(g);
    assert Shift(0, j) == 0 by { ShiftZero(j); }
    hide NumDigits, NumThou, FromNibbles;
    NoNibble(h);
    DigitsOfNibbles(h);
  }

  /** A step down the nibbles. */
  lemma CountStep(g: nat)
    requires NibbleCount(g) > 0
    ensures NibbleCount(g / 16) == NibbleCount(g) - 1
  {
  }

  lemma NoBytesLeft(s: seq<nat>)
    ensures |s| == 0 ==> BytesVal(s) == 0 && NibbleCount(BytesVal(s)) == 0
  {
  }

  /** One nibble stored; ok when it is a digit. */
  method StoreNibble(lsu: array<nat>, up: nat, cut: nat, nib: nat, ghost j: nat, ghost g: nat, ghost h: nat)
    returns (ok: bool, up': nat, cut': nat)
    requires up < lsu.Length && cut < 3 && nib == g % 16 && NibbleCount(g) > 0
    requires Storing(lsu[..up + (if cut > 0 then 1 else 0)], up, cut, j, g, h)
    modifies lsu
    ensures up' <= lsu.Length && cut' < 3 && (cut' > 0 ==> up' < lsu.Length) && NibbleCount(g / 16) == NibbleCount(g) - 1
    ensures if ok then Storing(lsu[..up' + (if cut' > 0 then 1 else 0)], up', cut', j + 1, g / 16, h) else !AllDigits(h)
    ensures ok ==> j + 1 == 3 * up' + cut'
  {
    hide NumThou, Thousands, AllDigits, FromNibbles, Shift, Pow10, NibbleCount;
    CountStep(g);
    if nib > 9 {
      NibbleLeft(g);
      return false, 0, 0;
    }
    up', cut' := PutDigit(lsu, up, cut, nib, j, g, h);
    ok := true;
  }

  method UnpackDigits(bcd: array<nat>, dn: DecNumber, digits: nat) returns (ok: bool)
    requires bcd.Length >= 1 && Bytes(bcd[..]) && dn.lsu != bcd && digits <= 3 * dn.lsu.Length
    requires digits == NibbleCount(BytesVal(bcd[..]) / 16) > 0
    modifies dn`digits, dn.lsu
    ensures ok == AllDigits(BytesVal(bcd[..]) / 16)
    ensures ok ==> dn.Valid() && dn.Coefficient() == FromNibbles(BytesVal(bcd[..]) / 16)
  {
    hide BytesVal, NibbleCount, NumThou, NumDigits, Thousands, AllDigits, FromNibbles, Shift, Pow10, Storing;
    ghost var h := BytesVal(bcd[..]) / 16;
    ghost var j: nat, g: nat := 0, h;
    var last: nat, left: nat, up: nat, cut: nat := bcd.Length - 1, digits, 0, 0;
    dn.digits := digits;
    assert bcd[..last + 1] == bcd[..];
    StoringStart(dn.lsu[..0], h);
    while true
      invariant last < bcd.Length && g == BytesVal(bcd[..last + 1]) / 16
      invariant left == NibbleCount(g) > 0 && j + left == digits == dn.digits
      invariant cut < 3 && j == 3 * up + cut && up + (if cut > 0 then 1 else 0) <= dn.lsu.Length
      invariant Storing(dn.lsu[..up + (if cut > 0 then 1 else 0)], up, cut, j, g, h)
      decreases left
    {
      LastByte(bcd[..], last);
      assert bcd[..][..last + 1] == bcd[..last + 1] && bcd[..][..last] == bcd[..last];
      ok, up, cut := StoreNibble(dn.lsu, up, cut, bcd[last] / 16, j, g, h);
      if !ok {
        return;
      }
      left, j, g := left - 1, j + 1, g / 16;
      if left == 0 {
        break;
      }
      NoBytesLeft(bcd[..last]);
      last := last - 1;
      LastByte(bcd[..], last);
      assert bcd[..][..last + 1] == bcd[..last + 1];
      ok, up, cut := StoreNibble(dn.lsu, up, cut, bcd[last] % 16, j, g, h);
      if !ok {
        return;
      }
      left, j, g := left - 1, j + 1, g / 16;
      if left == 0 {
        break;
      }
    }
    StoringDone(dn.lsu[..up + (if cut > 0 then 1 else 0)], up, cut, j, g, h);
  }
}
