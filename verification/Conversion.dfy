/** Coefficients to base-10^9 units and units back to BCD digits (GETCOEFFBILL in decNumberLocal.h,
    and the conversion loops of decBasic.c:518-551 and 1017-1041). */
module Conversion {
  import opened Arith
  import opened Bcd
  import opened BaseBillion

  /** Lays a coefficient out in n units, least significant first. */
  method GetCoeffBill(c: nat, buf: array<nat>, at: nat, n: nat)
    requires at + n <= buf.Length && c < Raise(1, n)
    modifies buf
    ensures Units(buf[at..at + n]) && Num(buf[at..at + n]) == c
    ensures forall k: nat :: k < buf.Length && !(at <= k < at + n) ==> buf[k] == old(buf[k])
  {
    hide Num, Raise;
    var rest, i := c, 0;
    RaiseStart(rest);
    assert buf[at..at + i] == [];
    while i < n
      invariant 0 <= i <= n && Units(buf[at..at + i])
      invariant Num(buf[at..at + i]) + Raise(rest, i) == c
      invariant forall k: nat :: k < buf.Length && !(at <= k < at + i) ==> buf[k] == old(buf[k])
    {
      ghost var s, r := buf[at..at + i], rest;
      buf[at + i] := rest % 1_000_000_000;
      rest := rest / 1_000_000_000;
      assert buf[at..at + i + 1] == s + [buf[at + i]];
      AppendUnit(s, buf[at + i], rest);
      i := i + 1;
    }
    RaiseMono(1, rest, n);
    if rest >= 1 {
      assert false;
    }
    RaiseZero(n);
  }

  lemma RaiseStart(c: nat)
    ensures Num([]) == 0 && Raise(c, 0) == c
  {
  }

  lemma AppendUnit(s: seq<nat>, u: nat, rest: nat)
    ensures Num(s + [u]) + Raise(rest, |s| + 1) == Num(s) + Raise(u + 1_000_000_000 * rest, |s|)
  {
    hide Num, Raise;
    NumConcat(s, [u]);
    NumSingle(u);
    RaiseStep(rest, |s|);
    RaiseSum(u, 1_000_000_000 * rest, |s|);
  }

  /** BIN2BCD8: three digits and their significant length. */
  function Bin2Bcd8(n: nat): (r: seq<nat>)
    requires n < 1000
    ensures |r| == 4
  {
    var (h, t, u) := (n / 100, n / 10 % 10, n % 10);
    [h, t, u, if h != 0 then 3 else if t != 0 then 2 else if u != 0 then 1 else 0]
  }

  lemma Bin2Bcd8Digits(n: nat)
    requires n < 1000
    ensures var r := Bin2Bcd8(n); Digits(r[..3]) && Val(r[..3]) == n
  {
    var r := Bin2Bcd8(n);
    ValThree(r[..3]);
    HundredsTensUnits(n);
  }

  lemma ValThree(s: seq<nat>)
    requires |s| == 3
    ensures Val(s) == 100 * s[0] + 10 * s[1] + s[2]
  {
    var (one, two) := (s[..1], s[..2]);
    assert one == [s[0]] && two[..1] == one;
    ValSingle(s[0]);
    assert Val(two) == 10 * Val(one) + s[1];
  }

  lemma HundredsTensUnits(n: nat)
    requires n < 1000
    ensures n == 100 * (n / 100) + 10 * (n / 10 % 10) + n % 10 && n / 100 <= 9
  {
    TenTens(n);
  }

  lemma TenTens(n: nat)
    ensures n / 100 == n / 10 / 10
  {
  }

  /** Stores four cells at once. */
  method StoreFour(buf: array<nat>, at: nat, four: seq<nat>)
    requires |four| == 4 && at + 4 <= buf.Length
    modifies buf
    ensures buf[at..at + 4] == four
    ensures forall k: nat :: k < buf.Length && !(at <= k < at + 4) ==> buf[k] == old(buf[k])
  {
    buf[at], buf[at + 1], buf[at + 2], buf[at + 3] := four[0], four[1], four[2], four[3];
  }

  /** Nine BCD digits for a unit; the cell after them may be overwritten, too. */
  method UnitToBcd(unit: nat, buf: array<nat>, ub: nat)
    requires unit < 1_000_000_000 && ub + 10 <= buf.Length
    modifies buf
    ensures Digits(buf[ub..ub + 9]) && Val(buf[ub..ub + 9]) == unit
    ensures forall k: nat :: k < buf.Length && !(ub <= k < ub + 10) ==> buf[k] == old(buf[k])
  {
    hide Val, Bin2Bcd8;
    if unit == 0 {
      StoreFour(buf, ub, [0, 0, 0, 0]);
      StoreFour(buf, ub + 4, [0, 0, 0, 0]);
      buf[ub + 8] := 0;
      ghost var s := buf[ub..ub + 9];
      assert s == [0, 0, 0, 0] + [0, 0, 0, 0] + [0];
      ValZeros(s);
      return;
    }
    var top, rem := unit / 1_000_000, unit % 1_000_000;
    var mid, low := rem / 1_000, rem % 1_000;
    var (a, b, c) := (Bin2Bcd8(top), Bin2Bcd8(mid), Bin2Bcd8(low));
    Bin2Bcd8Digits(top);
    Bin2Bcd8Digits(mid);
    Bin2Bcd8Digits(low);
    LayNine(buf, ub, a, b, c);
    ValNine(a[..3], b[..3], c[..3]);
  }

  method LayNine(buf: array<nat>, ub: nat, a: seq<nat>, b: seq<nat>, c: seq<nat>)
    requires |a| == |b| == |c| == 4 && ub + 10 <= buf.Length
    modifies buf
    ensures buf[ub..ub + 9] == a[..3] + b[..3] + c[..3]
    ensures forall k: nat :: k < buf.Length && !(ub <= k < ub + 10) ==> buf[k] == old(buf[k])
  {
    StoreFour(buf, ub, a);
    assert buf[ub..ub + 3] == a[..3];
    StoreFour(buf, ub + 3, b);
    assert buf[ub..ub + 3] == a[..3];
    assert buf[ub + 3..ub + 6] == b[..3];
    ghost var six := buf[ub..ub + 6];
    assert six == a[..3] + b[..3];
    StoreFour(buf, ub + 6, c);
    assert buf[ub..ub + 6] == six;
    assert buf[ub + 6..ub + 9] == c[..3];
    assert buf[ub..ub + 9] == buf[ub..ub + 6] + buf[ub + 6..ub + 9];
  }

  lemma ValNine(a: seq<nat>, b: seq<nat>, c: seq<nat>)
    requires |a| == |b| == |c| == 3 && Digits(a) && Digits(b) && Digits(c)
    ensures Val(a + b + c) == 1_000_000 * Val(a) + 1_000 * Val(b) + Val(c) && Digits(a + b + c)
  {
    hide Val;
    ValConcat(a + b, c);
    ValConcat(a, b);
    hide Shift;
    ThreeShifts(Val(a), 0);
    ThreeShifts(Val(a + b), 0);
    ShiftZero(Val(a));
    ShiftZero(Val(a + b));
  }

  /** Converts units lsu..msu to BCD digits, most significant first, from cell at on. */
  method UnitsToBcd(units: array<nat>, lsu: nat, msu: nat, buf: array<nat>, at: nat)
    requires units != buf && lsu <= msu < units.Length && at + 9 * (msu + 1 - lsu) < buf.Length
    requires Units(units[lsu..msu + 1])
    modifies buf
    ensures var end := at + 9 * (msu + 1 - lsu);
            Digits(buf[at..end]) && Val(buf[at..end]) == Num(units[lsu..msu + 1])
    ensures forall k: nat :: k < at ==> buf[k] == old(buf[k])
  {
    hide Val, Num, Units;
    var uq: int, ub := msu, at;
    assert buf[at..at] == [] && units[msu + 1..msu + 1] == [];
    EmptyValues();
    while uq >= lsu
      invariant lsu - 1 <= uq <= msu && ub == at + 9 * (msu - uq)
      invariant Digits(buf[at..ub]) && Val(buf[at..ub]) == Num(units[uq + 1..msu + 1])
      invariant forall k: nat :: k < at ==> buf[k] == old(buf[k])
    {
      ghost var s := buf[at..ub];
      UnitBelow(units[lsu..msu + 1], uq - lsu);
      UnitToBcd(units[uq], buf, ub);
      assert buf[at..ub] == s;
      assert buf[at..ub + 9] == s + buf[ub..ub + 9];
      assert units[uq..msu + 1] == [units[uq]] + units[uq + 1..msu + 1];
      NineMore(s, buf[ub..ub + 9], units[uq + 1..msu + 1], units[uq]);
      uq := uq - 1;
      ub := ub + 9;
    }
  }

  lemma EmptyValues()
    ensures Val([]) == 0 == Num([])
  {
  }

  lemma UnitBelow(s: seq<nat>, i: nat)
    requires Units(s) && i < |s|
    ensures s[i] < 1_000_000_000
  {
  }

  lemma NineMore(s: seq<nat>, t: seq<nat>, u: seq<nat>, x: nat)
    requires |t| == 9 && Digits(s) && Digits(t) && Val(s) == Num(u) && Val(t) == x
    ensures Val(s + t) == Num([x] + u) && Digits(s + t)
  {
    hide Val;
    ValConcat(s, t);
    assert ([x] + u)[1..] == u;
    hide Shift;
    NineShifts(Val(s), 0);
    ShiftZero(Val(s));
  }
}
