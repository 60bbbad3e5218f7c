/** Operations on runs of BCD cells: decoding a coefficient, aligned addition by fours, and
    complements. */
module BcdCells {
  import opened Arith
  import opened Bcd
  import opened BcdWords
  import opened Finalize

  /** A run of cells. */
  predicate Cells(buf: array<nat>)
    reads buf
  {
    forall k: nat :: k < buf.Length ==> buf[k] <= 9
  }

  lemma CellDigits(buf: array<nat>, lo: nat, hi: nat)
    requires Cells(buf) && lo <= hi <= buf.Length
    ensures Digits(buf[lo..hi])
  {
  }

  /** Decodes a coefficient into n cells (GETCOEFF). */
  method GetCoeff(c: nat, buf: array<nat>, at: nat, n: nat)
    requires at + n <= buf.Length && c < Pow10(n) && Cells(buf)
    modifies buf
    ensures Cells(buf) && Val(buf[at..at + n]) == c
    ensures forall k: nat :: k < buf.Length && !(at <= k < at + n) ==> buf[k] == old(buf[k])
  {
    hide Val, Pow10, Shift;
    var rest, i: nat := c, n;
    assert buf[at + n..at + n] == [];
    NothingBelow(c);
    while i > 0
      invariant i <= n && Cells(buf)
      invariant Shift(rest, n - i) + Val(buf[at + i..at + n]) == c
      invariant forall k: nat :: k < buf.Length && !(at + i <= k < at + n) ==> buf[k] == old(buf[k])
    {
      ghost var t := buf[at + i..at + n];
      buf[at + i - 1] := rest % 10;
      PrependDigit(t, rest);
      assert buf[at + i - 1..at + n] == [rest % 10] + t;
      rest := rest / 10;
      i := i - 1;
    }
    ShiftOne(0, n);
    ShiftMono(1, rest, n);
    ShiftZero(n);
  }

  lemma NothingBelow(c: nat)
    ensures Shift(c, 0) + Val([]) == c
  {
  }

  lemma PrependDigit(t: seq<nat>, rest: nat)
    ensures Shift(rest / 10, |t| + 1) + Val([rest % 10] + t) == Shift(rest, |t|) + Val(t)
  {
    hide Val, Shift;
    ValConcat([rest % 10], t);
    ValSingle(rest % 10);
    ShiftAdd(rest / 10, 1, |t|);
    ShiftOne(rest / 10, 1);
    ShiftZero(rest / 10);
    ShiftSum(10 * (rest / 10), rest % 10, |t|);
  }

  lemma ValFour(s: seq<nat>)
    requires |s| == 4
    ensures Val(s) == Fours((s[0], s[1], s[2], s[3]))
  {
    var (a, b, c) := (s[..1], s[..2], s[..3]);
    assert a == [s[0]] && b[..1] == a && c[..2] == b && s[..3] == c;
    ValSingle(s[0]);
    assert Val(b) == 10 * Val(a) + s[1];
    assert Val(c) == 10 * Val(b) + s[2];
  }

  /** Four more digits on the left of a sum. */
  lemma SumStep(s: seq<nat>, t: seq<nat>, d: seq<nat>, s': seq<nat>, t': seq<nat>, d': seq<nat>,
                carry: nat, carry': nat, carry0: nat)
    requires |s| == |t| == |d| == 4 && |s'| == |t'| == |d'|
    requires Val(d) + 10_000 * carry' == Val(s) + Val(t) + carry
    requires Val(d') + Shift(carry, |d'|) == Val(s') + Val(t') + carry0
    ensures Val(d + d') + Shift(carry', |d'| + 4) == Val(s + s') + Val(t + t') + carry0
  {
    hide Val, Shift;
    var n := |d'|;
    ValConcat(s, s');
    ValConcat(t, t');
    ValConcat(d, d');
    TenThousand(carry', n);
    ShiftSum(Val(d), 10_000 * carry', n);
    ShiftSum(Val(s), Val(t), n);
    ShiftSum(Val(s) + Val(t), carry, n);
  }

  lemma TenThousand(a: nat, n: nat)
    ensures Shift(a, n + 4) == Shift(10_000 * a, n)
  {
    hide Shift;
    ShiftAdd(a, 4, n);
    ThreeMore(a);
  }

  lemma ThreeMore(a: nat)
    ensures Shift(a, 4) == 10_000 * a
  {
    assert Shift(a, 1) == 10 * a;
    assert Shift(a, 2) == 100 * a;
    assert Shift(a, 3) == 1000 * a;
  }

  /** The cells at as a group of four. */
  function FourAt(buf: array<nat>, at: nat): (nat, nat, nat, nat)
    requires at + 4 <= buf.Length
    reads buf
  {
    (buf[at], buf[at + 1], buf[at + 2], buf[at + 3])
  }

  lemma FourAtVal(buf: array<nat>, at: nat)
    requires at + 4 <= buf.Length && Cells(buf)
    ensures FourDigits(FourAt(buf, at)) && Val(buf[at..at + 4]) == Fours(FourAt(buf, at))
  {
    ValFour(buf[at..at + 4]);
  }

  function CarryDigit(carry: nat): nat {
    if carry == 0 then 0 else 1
  }

  /** One word of the addition. */
  method AddFour(acc: array<nat>, buf: array<nat>, at: nat, carry0: nat) returns (carry: nat)
    requires acc != buf && at + 4 <= acc.Length && at + 4 <= buf.Length && Cells(acc) && Cells(buf)
    requires carry0 == 0 || carry0 == 0x100_0000
    modifies acc
    ensures Cells(acc) && (carry == 0 || carry == 0x100_0000)
    ensures Val(acc[at..at + 4]) + 10_000 * CarryDigit(carry)
         == old(Val(acc[at..at + 4])) + Val(buf[at..at + 4]) + CarryDigit(carry0)
    ensures forall k: nat :: k < acc.Length && !(at <= k < at + 4) ==> acc[k] == old(acc[k])
  {
    hide Val, Fours;
    FourAtVal(acc, at);
    FourAtVal(buf, at);
    var d;
    d, carry := AddWord(FourAt(buf, at), FourAt(acc, at), carry0);
    acc[at], acc[at + 1], acc[at + 2], acc[at + 3] := d.0, d.1, d.2, d.3;
    FourAtVal(acc, at);
  }

  /** Adds the cells lo..hi of buf to the same cells of acc, four at a time from the right; the
      carry into the last digit, and the carry out of the first, are words. */
  method AddFours(acc: array<nat>, buf: array<nat>, lo: nat, hi: nat, carry0: nat) returns (carry: nat)
    requires acc != buf && lo <= hi <= acc.Length && hi <= buf.Length && (hi - lo) % 4 == 0
    requires Cells(acc) && Cells(buf) && (carry0 == 0 || carry0 == 0x100_0000)
    modifies acc
    ensures Cells(acc) && (carry == 0 || carry == 0x100_0000)
    ensures Val(acc[lo..hi]) + Shift(CarryDigit(carry), hi - lo)
         == old(Val(acc[lo..hi])) + Val(buf[lo..hi]) + CarryDigit(carry0)
    ensures forall k: nat :: k < acc.Length && !(lo <= k < hi) ==> acc[k] == old(acc[k])
  {
    hide Val, Shift, CarryDigit;
    carry := carry0;
    ghost var a, b := acc[..hi], buf[..hi];
    var ut: nat := hi;
    SumStart(CarryDigit(carry));
    assert a[hi..] == [] && b[hi..] == [] && acc[hi..hi] == [];
    while ut >= lo + 4
      invariant lo <= ut <= hi && (ut - lo) % 4 == 0 && Cells(acc) && (carry == 0 || carry == 0x100_0000)
      invariant Val(acc[ut..hi]) + Shift(CarryDigit(carry), hi - ut) == Val(a[ut..]) + Val(b[ut..]) + CarryDigit(carry0)
      invariant forall k: nat :: k < acc.Length && !(ut <= k < hi) ==> acc[k] == old(acc[k])
    {
      ghost var d', c := acc[ut..hi], carry;
      ghost var s := acc[ut - 4..ut];
      assert s == a[ut - 4..ut] && buf[ut - 4..ut] == b[ut - 4..ut];
      carry := AddFour(acc, buf, ut - 4, carry);
      assert ut - 4 + 4 == ut;
      SumStep(s, buf[ut - 4..ut], acc[ut - 4..ut], a[ut..], b[ut..], d', CarryDigit(c), CarryDigit(carry), CarryDigit(carry0));
      assert acc[ut - 4..hi] == acc[ut - 4..ut] + d';
      assert a[ut - 4..] == s + a[ut..] && b[ut - 4..] == b[ut - 4..ut] + b[ut..];
      ut := ut - 4;
    }
    assert a[lo..] == old(acc[lo..hi]) && b[lo..] == buf[lo..hi];
  }

  lemma SumStart(c: nat)
    ensures Val([]) == 0 && Shift(c, 0) == c
  {
  }

  // ---- complements ----

  predicate Nines(s: seq<nat>, t: seq<nat>) {
    |s| == |t| && forall k: nat :: k < |s| ==> s[k] + t[k] == 9
  }

  lemma {:induction false} NinesComplement(s: seq<nat>, t: seq<nat>)
    requires Nines(s, t)
    ensures Val(s) + Val(t) + 1 == Pow10(|s|)
  {
    if |s| > 0 {
      NinesComplement(s[..|s| - 1], t[..|t| - 1]);
    }
  }

  /** Subtracts cells lo..hi, and up to three more, from nines, four at a time. */
  method InvertFours(buf: array<nat>, lo: nat, hi: nat) returns (end: nat)
    requires lo <= hi && hi + 3 < buf.Length && Cells(buf)
    modifies buf
    ensures Cells(buf) && hi <= end <= hi + 3 && ((hi - lo) % 4 == 0 ==> end == hi)
    ensures Nines(old(buf[lo..hi]), buf[lo..hi])
    ensures forall k: nat :: k < buf.Length && !(lo <= k < end) ==> buf[k] == old(buf[k])
  {
    end := lo;
    while end < hi
      invariant lo <= end <= hi + 3 && (end - lo) % 4 == 0 && Cells(buf)
      invariant forall k: nat :: lo <= k < end ==> buf[k] == 9 - old(buf[k])
      invariant forall k: nat :: k < buf.Length && !(lo <= k < end) ==> buf[k] == old(buf[k])
    {
      buf[end], buf[end + 1], buf[end + 2], buf[end + 3] :=
        9 - buf[end], 9 - buf[end + 1], 9 - buf[end + 2], 9 - buf[end + 3];
      end := end + 4;
    }
  }

  /** Adds one to the digits lo..ulsd, which are not all nines. */
  method AddOneIn(buf: array<nat>, lo: nat, ulsd: nat)
    requires lo <= ulsd < buf.Length && Digits(buf[lo..ulsd + 1]) && Val(buf[lo..ulsd + 1]) + 1 < Pow10(ulsd + 1 - lo)
    modifies buf
    ensures Digits(buf[lo..ulsd + 1]) && Val(buf[lo..ulsd + 1]) == old(Val(buf[lo..ulsd + 1])) + 1
    ensures forall k: nat :: k < buf.Length && !(lo <= k <= ulsd) ==> buf[k] == old(buf[k])
  {
    hide Val, Pow10;
    ghost var s := buf[lo..ulsd + 1];
    NotAllNines(s);
    ghost var j: nat :| j < |s| && s[j] != 9;
    assert buf[lo + j] == s[j];
    assert forall k: nat :: k < |s| ==> buf[lo + k] == s[k];
    var ub := ulsd;
    while buf[ub] == 9
      invariant lo + j <= ub <= ulsd
      invariant forall k: nat :: k < buf.Length && !(ub < k <= ulsd) ==> buf[k] == old(buf[k])
      invariant forall k: nat :: k <= ub - lo ==> buf[lo + k] == s[k]
      invariant forall k: nat :: ub < k <= ulsd ==> buf[k] == 0 && s[k - lo] == 9
      decreases ub
    {
      buf[ub] := 0;
      ub := ub - 1;
    }
    ghost var i := ub - lo;
    assert s[i] == buf[ub];
    buf[ub] := buf[ub] + 1;
    ghost var t := buf[lo..ulsd + 1];
    assert t[i] == s[i] + 1;
    forall k: nat | k < |s| && k != i
      ensures if k < i then t[k] == s[k] else s[k] == 9 && t[k] == 0
    {
      assert t[k] == buf[lo + k];
    }
    CarryStops(s, t, i);
  }

  /** The same in an array of digits. */
  method AddOneFrom(buf: array<nat>, lo: nat, ulsd: nat)
    requires lo <= ulsd < buf.Length && Cells(buf) && Val(buf[lo..ulsd + 1]) + 1 < Pow10(ulsd + 1 - lo)
    modifies buf
    ensures Cells(buf) && Val(buf[lo..ulsd + 1]) == old(Val(buf[lo..ulsd + 1])) + 1
    ensures forall k: nat :: k < buf.Length && !(lo <= k <= ulsd) ==> buf[k] == old(buf[k])
  {
    hide Val, Pow10;
    CellDigits(buf, lo, ulsd + 1);
    AddOneIn(buf, lo, ulsd);
    forall k: nat | k < buf.Length
      ensures buf[k] <= 9
    {
      assert lo <= k <= ulsd ==> buf[lo..ulsd + 1][k - lo] <= 9;
    }
  }

  /** Subtracts exactly the cells lo..hi from nines, four at a time and then singly. */
  method InvertExact(buf: array<nat>, lo: nat, hi: nat)
    requires lo < hi <= buf.Length && Digits(buf[lo..hi])
    modifies buf
    ensures Digits(buf[lo..hi]) && Nines(old(buf[lo..hi]), buf[lo..hi])
    ensures forall k: nat :: k < buf.Length && !(lo <= k < hi) ==> buf[k] == old(buf[k])
  {
    ghost var s := buf[lo..hi];
    assert forall k: nat :: lo <= k < hi ==> buf[k] == s[k - lo] && buf[k] <= 9;
    var uh := lo;
    while uh + 4 < hi
      invariant lo <= uh <= hi
      invariant forall k: nat :: lo <= k < hi ==> buf[k] <= 9 && buf[k] == if k < uh then 9 - s[k - lo] else s[k - lo]
      invariant forall k: nat :: k < buf.Length && !(lo <= k < hi) ==> buf[k] == old(buf[k])
    {
      buf[uh], buf[uh + 1], buf[uh + 2], buf[uh + 3] := 9 - buf[uh], 9 - buf[uh + 1], 9 - buf[uh + 2], 9 - buf[uh + 3];
      uh := uh + 4;
    }
    while uh < hi
      invariant lo <= uh <= hi
      invariant forall k: nat :: lo <= k < hi ==> buf[k] <= 9 && buf[k] == if k < uh then 9 - s[k - lo] else s[k - lo]
      invariant forall k: nat :: k < buf.Length && !(lo <= k < hi) ==> buf[k] == old(buf[k])
    {
      buf[uh] := 9 - buf[uh];
      uh := uh + 1;
    }
  }

  lemma NotAllNines(s: seq<nat>)
    requires Val(s) + 1 < Pow10(|s|)
    ensures exists j: nat :: j < |s| && s[j] != 9
  {
    if forall j: nat :: j < |s| ==> s[j] == 9 {
      ValNines(s);
    }
  }
}
