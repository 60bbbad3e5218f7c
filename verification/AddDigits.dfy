/** The digits of a sum (decFloatAdd, slow path, decBasic.c:1216-1571): operands aligned in an
    accumulator, subtraction by ten's complement, addition by fours, a far-away operand clamped to a
    sticky digit. */
module AddDigits {
  import opened Arith
  import opened Bcd
  import opened BcdCells
  import opened Finalize

  /** Cells before the coefficient that make the aligned part a multiple of four. */
  function Pad(p: nat): nat {
    (4 - p % 4) % 4
  }

  /** COFF: where the coefficient starts. */
  function Coff(p: nat): nat {
    4 + Pad(p)
  }

  /** The low operand as it is laid out: in full at distance t below the high one, or, when it is out
      of reach, as one sticky digit. */
  predicate Aligned(p: nat, gap: nat, y: nat, t: nat, z: nat) {
    || (t == gap && z == y)
    || (gap > 2 * p && t == p + 1 && z == if y == 0 then 0 else 1)
  }

  /** What the cells acc[4..ulsd + 1], N of them with value v, and the carry amount to. */
  predicate SumState(diffsign: bool, x: nat, t: nat, z: nat, v: nat, carry: nat, N: nat) {
    if diffsign then v + Shift(carry, N) + Shift(x, t) == Pow10(N) + z
    else v + Shift(carry, N) == Shift(x, t) + z
  }

  /** The high operand, or its nines' complement, in cells 4.. of acc. */
  method LayOutHigh(p: nat, x: nat, diffsign: bool, acc: array<nat>)
    requires p >= 4 && x < Pow10(p) && Cells(acc) && acc.Length == 3 * p + 14
    requires forall k: nat :: k < acc.Length ==> acc[k] == 0
    modifies acc
    ensures Cells(acc)
    ensures var v := Val(acc[4..Coff(p) + p]);
            if diffsign then v + x + 1 == Pow10(Pad(p) + p) else v == x
  {
    hide Val, Pow10;
    var coff := Coff(p);
    GetCoeff(x, acc, coff, p);
    ghost var s := acc[4..coff + p];
    assert AllEqual(s[..coff - 4], 0);
    ValSkipZeros(s, coff - 4);
    assert s[coff - 4..] == acc[coff..coff + p];
    if diffsign {
      var end := InvertFours(acc, 4, coff + p);
      NinesComplement(s, acc[4..coff + p]);
    }
  }

  /** Fills cells from..to, and up to three more, with zeros. */
  method FillZeros(buf: array<nat>, from: nat, to: nat)
    requires from <= to && to + 3 < buf.Length && Cells(buf)
    modifies buf
    ensures Cells(buf) && forall k: nat :: from <= k < to ==> buf[k] == 0
    ensures forall k: nat :: k < from || to + 3 <= k < buf.Length ==> buf[k] == old(buf[k])
  {
    var ut := from;
    while ut < to
      invariant from <= ut <= to + 3 && Cells(buf)
      invariant forall k: nat :: from <= k < ut ==> buf[k] == 0
      invariant forall k: nat :: k < from || ut <= k < buf.Length ==> buf[k] == old(buf[k])
    {
      buf[ut], buf[ut + 1], buf[ut + 2], buf[ut + 3] := 0, 0, 0, 0;
      ut := ut + 4;
    }
  }

  lemma GapValue(s: seq<nat>, zeros: seq<nat>, d: seq<nat>)
    requires AllEqual(zeros, 0)
    ensures Val(s + zeros + d) == Shift(Val(s), |zeros| + |d|) + Val(d)
  {
    hide Val, Shift;
    ValConcat(s + zeros, d);
    ValAppendZeros(s, zeros);
    ShiftAdd(Val(s), |zeros|, |d|);
  }

  /** Fills a gap after cell end and puts the low operand, or a sticky digit for it, behind. */
  method PlaceLow(p: nat, y: nat, gap: nat, acc: array<nat>, end: nat)
    returns (ulsd: nat, clamp: nat, ghost t: nat, ghost z: nat)
    requires p >= 1 && 4 <= end && end + 2 * p + 3 < acc.Length && y < Pow10(p) && gap >= p && Cells(acc)
    modifies acc
    ensures Cells(acc) && ulsd + 1 == end + t && ulsd < end + 2 * p && t >= 1
    ensures Aligned(p, gap, y, t, z) && t + clamp == gap
    ensures Val(acc[4..ulsd + 1]) == Shift(old(Val(acc[4..end])), t) + z
  {
    hide Val, Pow10, Shift;
    var space := gap - p;
    clamp := 0;
    if space > p {
      clamp := space - 1;
      space := p;
    }
    var ub := end + space;
    ghost var s := acc[4..end];
    FillZeros(acc, end, ub);
    ghost var zeros := acc[end..ub];
    if gap - p > p {
      acc[ub] := if y == 0 then 0 else 1;
      assert acc[ub..ub + 1] == [acc[ub]];
      ValSingle(acc[ub]);
      ulsd := ub;
      t, z := space + 1, acc[ub];
    } else {
      GetCoeff(y, acc, ub, p);
      ulsd := ub + p - 1;
      t, z := gap, y;
    }
    assert acc[4..ulsd + 1] == s + zeros + acc[ub..ulsd + 1];
    GapValue(s, zeros, acc[ub..ulsd + 1]);
  }

  /** No digit of the low operand reaches the high one: no addition, only a gap to fill. */
  method NoOverlap(p: nat, ghost x: nat, y: nat, gap: nat, diffsign: bool, acc: array<nat>)
    returns (ulsd: nat, clamp: nat, ghost t: nat, ghost z: nat)
    requires p >= 4 && 0 < x < Pow10(p) && y < Pow10(p) && gap >= p && Cells(acc) && acc.Length == 3 * p + 14
    requires var v := Val(acc[4..Coff(p) + p]);
             if diffsign then v + x + 1 == Pow10(Pad(p) + p) else v == x
    modifies acc
    ensures Cells(acc) && ulsd + 1 == Coff(p) + p + t && ulsd + 4 < acc.Length && t >= 1
    ensures Aligned(p, gap, y, t, z) && t + clamp == gap
    ensures SumState(diffsign, x, t, z, Val(acc[4..ulsd + 1]), 0, Pad(p) + p + t)
  {
    hide Val, Pow10, Shift, SumState, Aligned;
    var end := Coff(p) + p;
    if diffsign {
      AddOneFrom(acc, 4, end - 1);
    }
    ghost var v := Val(acc[4..end]);
    ulsd, clamp, t, z := PlaceLow(p, y, gap, acc, end);
    GapState(diffsign, x, v, t, z, Pad(p) + p);
  }

  lemma GapState(diffsign: bool, x: nat, v: nat, t: nat, z: nat, n: nat)
    requires if diffsign then v + x == Pow10(n) else v == x
    ensures SumState(diffsign, x, t, z, Shift(v, t) + z, 0, n + t)
  {
    hide Pow10, Shift;
    ShiftZero(n + t);
    ShiftSum(v, x, t);
    ShiftOfPow10(n, t);
  }

  /** Copies cells from..to, and some more, to the same places. */
  method CopyFours(src: array<nat>, dst: array<nat>, from: nat, to: nat)
    requires src != dst && from <= to && to + 3 < src.Length && to + 3 < dst.Length
    requires from + 8 <= src.Length && from + 8 <= dst.Length && Cells(src) && Cells(dst)
    modifies dst
    ensures Cells(dst) && dst[from..to] == src[from..to]
    ensures forall k: nat :: k < from ==> dst[k] == old(dst[k])
  {
    var ut := from;
    while ut < from + 8 || ut < to
      invariant from <= ut && (ut <= from + 8 || ut <= to + 3) && (ut - from) % 4 == 0 && ut <= dst.Length && Cells(dst)
      invariant forall k: nat :: from <= k < ut ==> k < src.Length && dst[k] == src[k]
      invariant forall k: nat :: k < from ==> dst[k] == old(dst[k])
      decreases from + to + 8 - ut
    {
      dst[ut], dst[ut + 1], dst[ut + 2], dst[ut + 3] := src[ut], src[ut + 1], src[ut + 2], src[ut + 3];
      ut := ut + 4;
    }
  }

  lemma OverlapState(diffsign: bool, x: nat, y: nat, t: nat, n: nat, a: nat, r: nat, c: nat)
    requires if diffsign then a + x + 1 == Pow10(n) else a == x
    requires r + Shift(c, n) == a + High(y, t) + if diffsign then 1 else 0
    ensures SumState(diffsign, x, t, y, Shift(r, t) + Low(y, t), c, n + t)
  {
    hide Pow10, Shift, High, Low;
    HighLow(y, t);
    var h := High(y, t);
    ShiftAdd(c, n, t);
    ShiftSum(r, Shift(c, n), t);
    ShiftOfPow10(n, t);
    if diffsign {
      ShiftSum(r + Shift(c, n), x, t);
      ShiftSum(Pow10(n), h, t);
    } else {
      ShiftSum(x, h, t);
    }
  }

  /** Lays the low operand out at its distance from the high one, and moves its tail over. */
  method LayOutLow(p: nat, y: nat, gap: nat, acc: array<nat>) returns (buf: array<nat>)
    requires p >= 4 && y < Pow10(p) && gap < p && Cells(acc) && acc.Length == 3 * p + 14
    modifies acc
    ensures Cells(acc) && fresh(buf) && buf.Length == 2 * p + 14 && Cells(buf)
    ensures acc[4..Coff(p) + p] == old(acc[4..Coff(p) + p])
    ensures Val(buf[4..Coff(p) + p]) == High(y, gap)
    ensures Val(acc[Coff(p) + p..Coff(p) + p + gap]) == Low(y, gap)
  {
    hide Val, Pow10, High, Low;
    var end := Coff(p) + p;
    buf := new nat[2 * p + 14](_ => 0);
    GetCoeff(y, buf, Coff(p) + gap, p);
    SplitLow(p, y, gap, buf);
    if gap > 0 {
      CopyFours(buf, acc, end, end + gap);
    }
    assert acc[end..end + gap] == buf[end..end + gap];
  }

  /** The coefficients overlap: the tail of the low one moves into the accumulator, the rest of it is
      added in. */
  method Overlap(p: nat, ghost x: nat, y: nat, gap: nat, diffsign: bool, acc: array<nat>)
    returns (ulsd: nat, carry: nat)
    requires p >= 4 && x < Pow10(p) && y < Pow10(p) && gap < p && Cells(acc) && acc.Length == 3 * p + 14
    requires var v := Val(acc[4..Coff(p) + p]);
             if diffsign then v + x + 1 == Pow10(Pad(p) + p) else v == x
    modifies acc
    ensures Cells(acc) && ulsd + 1 == Coff(p) + p + gap && carry <= 1
    ensures SumState(diffsign, x, gap, y, Val(acc[4..ulsd + 1]), carry, Pad(p) + p + gap)
  {
    hide Val, Pow10, Shift, High, Low, SumState;
    var end := Coff(p) + p;
    ghost var s := acc[4..end];
    var buf := LayOutLow(p, y, gap, acc);
    ghost var tail, a := acc[end..end + gap], Val(s);
    PadMultiple(p);
    var pattern := AddFours(acc, buf, 4, end, if diffsign then 0x100_0000 else 0);
    carry := CarryDigit(pattern);
    ulsd := end + gap - 1;
    OverlapState(diffsign, x, y, gap, Pad(p) + p, a, Val(acc[4..end]), carry);
    assert acc[4..end + gap] == acc[4..end] + tail;
    ValConcat(acc[4..end], tail);
  }

  lemma PadMultiple(p: nat)
    ensures (Coff(p) + p - 4) % 4 == 0
  {
  }

  /** The low operand in buf: what is above the last digit of the high one, and the tail. */
  lemma SplitLow(p: nat, y: nat, gap: nat, buf: array<nat>)
    requires buf.Length == 2 * p + 14 && gap < p && Cells(buf) && p >= 4
    requires Val(buf[Coff(p) + gap..Coff(p) + gap + p]) == y
    requires forall k: nat :: k < Coff(p) + gap ==> buf[k] == 0
    ensures Val(buf[4..Coff(p) + p]) == High(y, gap)
    ensures Val(buf[Coff(p) + p..Coff(p) + p + gap]) == Low(y, gap)
  {
    hide Val, High, Low;
    var coff := Coff(p);
    var s := buf[4..coff + p + gap];
    assert s[coff + gap - 4..] == buf[coff + gap..coff + gap + p];
    assert AllEqual(s[..coff + gap - 4], 0);
    ValSkipZeros(s, coff + gap - 4);
    ValDrop(s, gap);
    assert s[..|s| - gap] == buf[4..coff + p];
    assert s[|s| - gap..] == buf[coff + p..coff + p + gap];
  }

  // ---- from the state to sign and magnitude ----

  /** The sum as a sign and a magnitude; an exact zero from unlike signs is negative only when rounding
      towards minus infinity. */
  predicate SumResult(diffsign: bool, signl: bool, signr: bool, toFloor: bool, x: nat, t: nat, z: nat, d: nat, sign: bool) {
    var h := Shift(x, t);
    if !diffsign then d == h + z && sign == signl
    else if z < h then d == h - z && sign == signl
    else d == z - h && sign == if z == h then toFloor else signr
  }

  lemma HighBound(x: nat, p: nat, t: nat, z: nat)
    requires x < Pow10(p) && z < Pow10(p)
    ensures Shift(x, t) < Pow10(p + t) && z < Pow10(p + t)
    ensures Shift(x, t) + z < Pow10(p + t + 1)
  {
    assert Pow10(p + t + 1) == 10 * Pow10(p + t);
    hide Pow10, Shift;
    ShiftMono(x, Pow10(p), t);
    ShiftOfPow10(p, t);
    Pow10Mono(p, p + t);
  }

  /** No carry out of a subtraction: the ten's complement is the difference the other way. */
  method Borrowed(p: nat, ghost x: nat, ghost t: nat, ghost z: nat, acc: array<nat>, ulsd: nat)
    requires x < Pow10(p) && 4 <= ulsd && ulsd + 4 < acc.Length && Cells(acc) && ulsd + 1 - 4 >= p + t
    requires SumState(true, x, t, z, Val(acc[4..ulsd + 1]), 0, ulsd + 1 - 4)
    modifies acc
    ensures Cells(acc) && z < Shift(x, t) && Val(acc[4..ulsd + 1]) == Shift(x, t) - z
  {
    hide Val, Pow10, Shift;
    ghost var s := acc[4..ulsd + 1];
    CellDigits(acc, 4, ulsd + 1);
    ValBound(s);
    ShiftZero(|s|);
    assert Shift(x, t) < Pow10(|s|) by {
      Pow10Mono(p + t, |s|);
      ShiftMono(x, Pow10(p), t);
      ShiftOfPow10(p, t);
    }
    var end := InvertFours(acc, 4, ulsd + 1);
    NinesComplement(s, acc[4..ulsd + 1]);
    AddOneFrom(acc, 4, ulsd);
  }

  method AllZero(buf: array<nat>, from: nat, n: nat) returns (zero: bool)
    requires from + n <= buf.Length
    ensures zero <==> AllEqual(buf[from..from + n], 0)
  {
    var i := 0;
    while i < n
      invariant 0 <= i <= n
      invariant forall k: nat :: from <= k < from + i ==> buf[k] == 0
    {
      if buf[from + i] != 0 {
        assert buf[from..from + n][i] != 0;
        return false;
      }
      i := i + 1;
    }
    return true;
  }

  /** The leading cells of a number that fits below them are zeros. */
  lemma LeadingCellsZero(s: seq<nat>, k: nat, m: nat)
    requires Digits(s) && Val(s) < Pow10(m) && m <= |s| && k <= |s| - m
    ensures AllEqual(s[..k], 0)
  {
    hide Val, Pow10, High, Low, Shift;
    ValDrop(s, m);
    ShiftZero(m);
    HighLowUnique(Val(s), m, 0, Val(s));
    ValZeroIff(s[..|s| - m]);
    assert s[..k] == s[..|s| - m][..k];
  }

  /** Skips the coefficient area, known to be zero, and what else is zero behind it. */
  method SkipArea(p: nat, acc: array<nat>, ulsd: nat) returns (umsd: nat)
    requires p >= 4 && Coff(p) + p - 1 <= ulsd < acc.Length
    requires AllEqual(acc[4..Coff(p)], 0) && AllEqual(acc[Coff(p)..Coff(p) + p], 0)
    ensures 4 <= umsd <= ulsd && AllEqual(acc[4..umsd], 0) && (acc[umsd] != 0 || umsd == ulsd)
  {
    umsd := Coff(p) + p - 1;
    if ulsd > umsd {
      umsd := SkipZeros(acc, umsd + 1, ulsd);
    } else {
      assert acc[Coff(p)..Coff(p) + p][p - 1] == 0;
    }
    ZerosBelow(acc, Coff(p), p, umsd);
  }

  /** A carry out: the difference is there. Leading zeros are stripped while testing for zero. */
  method NotBorrowed(p: nat, acc: array<nat>, ulsd: nat) returns (umsd: nat, zero: bool)
    requires p >= 4 && Cells(acc) && Coff(p) + p - 1 <= ulsd < acc.Length
    requires Val(acc[4..ulsd + 1]) < Pow10(ulsd + 1 - Coff(p))
    ensures 4 <= umsd <= ulsd && Val(acc[umsd..ulsd + 1]) == Val(acc[4..ulsd + 1])
    ensures zero <==> Val(acc[4..ulsd + 1]) == 0
  {
    hide Val, Pow10, AllEqual, Cells;
    umsd, zero := 4, false;
    LeadingAreaZero(acc, 4, ulsd + 1, Coff(p));
    var clear := AllZero(acc, Coff(p), p);
    if clear {
      umsd := SkipArea(p, acc, ulsd);
      StrippedValue(acc, 4, ulsd + 1, umsd);
      zero := acc[umsd] == 0;
    } else {
      NotClear(acc, 4, ulsd + 1, Coff(p), Coff(p) + p);
    }
  }

  /** Cells above the length of the number are zeros. */
  lemma LeadingAreaZero(buf: array<nat>, lo: nat, hi: nat, m: nat)
    requires lo <= m <= hi <= buf.Length && Cells(buf) && Val(buf[lo..hi]) < Pow10(hi - m)
    ensures AllEqual(buf[lo..m], 0)
  {
    hide Val, Pow10, AllEqual;
    CellDigits(buf, lo, hi);
    LeadingCellsZero(buf[lo..hi], m - lo, hi - m);
    SliceOfSlice(buf, lo, hi, m);
  }

  /** Skipping zeros keeps the value, and what is found tells whether it is zero. */
  lemma StrippedValue(buf: array<nat>, lo: nat, hi: nat, m: nat)
    requires lo <= m < hi <= buf.Length && AllEqual(buf[lo..m], 0) && (buf[m] != 0 || m == hi - 1)
    ensures Val(buf[m..hi]) == Val(buf[lo..hi])
    ensures buf[m] == 0 <==> Val(buf[lo..hi]) == 0
  {
    hide Val, AllEqual;
    SliceOfSlice(buf, lo, hi, m);
    ValSkipZeros(buf[lo..hi], m - lo);
    ZeroIffFirst(buf[m..hi]);
  }

  lemma NotClear(buf: array<nat>, lo: nat, hi: nat, a: nat, b: nat)
    requires lo <= a <= b <= hi <= buf.Length && !AllEqual(buf[a..b], 0)
    ensures Val(buf[lo..hi]) != 0
  {
    hide Val;
    ValZeroIff(buf[lo..hi]);
    var k: nat :| k < b - a && buf[a..b][k] != 0;
    assert buf[lo..hi][a - lo + k] != 0;
  }

  lemma ZeroIffFirst(s: seq<nat>)
    requires |s| >= 1 && (s[0] != 0 || |s| == 1)
    ensures Val(s) == 0 <==> s[0] == 0
  {
    hide Val;
    ValZeroIff(s);
  }

  lemma SliceOfSlice(buf: array<nat>, lo: nat, hi: nat, i: nat)
    requires lo <= i <= hi <= buf.Length
    ensures buf[lo..hi][..i - lo] == buf[lo..i] && buf[lo..hi][i - lo..] == buf[i..hi]
  {
  }

  lemma ZerosBelow(acc: array<nat>, coff: nat, p: nat, umsd: nat)
    requires 4 <= coff && coff + p <= acc.Length && 1 <= p && coff + p - 1 <= umsd < acc.Length
    requires AllEqual(acc[4..coff], 0) && AllEqual(acc[coff..coff + p], 0)
    requires umsd >= coff + p ==> AllEqual(acc[coff + p..umsd], 0)
    ensures AllEqual(acc[4..umsd], 0)
  {
    forall k: nat | k < umsd - 4
      ensures acc[4..umsd][k] == 0
    {
      var i := k + 4;
      if i < coff {
        assert acc[4..coff][k] == 0;
      } else if i < coff + p {
        assert acc[coff..coff + p][i - coff] == 0;
      } else {
        assert acc[coff + p..umsd][i - coff - p] == 0;
      }
    }
  }

  lemma CarryFits(p: nat, x: nat, t: nat, z: nat, v: nat, carry: nat)
    requires x < Pow10(p) && z < Pow10(p) && SumState(false, x, t, z, v, carry, Pad(p) + p + t)
    ensures carry > 0 ==> Pad(p) == 0
  {
    hide Pow10, Shift;
    var N := Pad(p) + p + t;
    HighBound(x, p, t, z);
    if carry > 0 && Pad(p) >= 1 {
      Pow10Mono(p + t + 1, N);
      ShiftMono(1, carry, N);
      ShiftOne(0, N);
    }
  }

  lemma CarryPrefix(s: seq<nat>)
    ensures Val([1] + s) == Val(s) + Shift(1, |s|)
  {
    hide Val;
    ValConcat([1], s);
    ValSingle(1);
  }

  lemma CarryOutBound(p: nat, x: nat, t: nat, z: nat, v: nat, N: nat)
    requires x < Pow10(p) && z < Pow10(p) && SumState(true, x, t, z, v, 1, N)
    ensures v + Shift(x, t) == z && v < Pow10(p + t)
  {
    hide Pow10, Shift;
    HighBound(x, p, t, z);
    ShiftOne(0, N);
  }

  lemma NoCarry(x: nat, t: nat, z: nat, v: nat, N: nat)
    requires SumState(false, x, t, z, v, 0, N)
    ensures v == Shift(x, t) + z
  {
    ShiftZero(N);
  }

  /** Decides sign and magnitude from the carry. */
  method FinishSum(p: nat, diffsign: bool, signl: bool, signr: bool, toFloor: bool, ghost x: nat, ghost t: nat, ghost z: nat,
                   acc: array<nat>, ulsd: nat, carry: nat)
    returns (umsd: nat, sign: bool)
    requires p >= 4 && x < Pow10(p) && z < Pow10(p) && Cells(acc) && carry <= 1
    requires ulsd + 1 == Coff(p) + p + t && ulsd + 4 < acc.Length
    requires SumState(diffsign, x, t, z, Val(acc[4..ulsd + 1]), carry, Pad(p) + p + t)
    modifies acc
    ensures Cells(acc) && 3 <= umsd <= ulsd
    ensures SumResult(diffsign, signl, signr, toFloor, x, t, z, Val(acc[umsd..ulsd + 1]), sign)
  {
    hide Val, Pow10, Shift, SumState;
    umsd := 4;
    sign := signl;
    if diffsign {
      if carry == 0 {
        Borrowed(p, x, t, z, acc, ulsd);
      } else {
        CarryOutBound(p, x, t, z, Val(acc[4..ulsd + 1]), Pad(p) + p + t);
        var zero;
        umsd, zero := NotBorrowed(p, acc, ulsd);
        sign := if zero then toFloor else signr;
      }
    } else {
      CarryFits(p, x, t, z, Val(acc[4..ulsd + 1]), carry);
      if Pad(p) == 0 && carry != 0 {
        ghost var s := acc[4..ulsd + 1];
        acc[3] := 1;
        umsd := 3;
        assert acc[3..ulsd + 1] == [1] + s;
        CarryPrefix(s);
        SumStateUnfold(x, t, z, Val(s), |s|);
      } else {
        NoCarry(x, t, z, Val(acc[4..ulsd + 1]), Pad(p) + p + t);
      }
    }
  }

  lemma SumStateUnfold(x: nat, t: nat, z: nat, v: nat, N: nat)
    requires SumState(false, x, t, z, v, 1, N)
    ensures v + Shift(1, N) == Shift(x, t) + z
  {
  }

  /** The slow path: the sum of x * 10^gap and y with their signs, as digits; clamp is what the exponent
      of y has to grow by when y was too far away. */
  method SlowDigits(p: nat, x: nat, y: nat, gap: nat, signl: bool, signr: bool, toFloor: bool, acc: array<nat>)
    returns (umsd: nat, ulsd: nat, sign: bool, clamp: nat, ghost t: nat, ghost z: nat)
    requires p >= 4 && 0 < x < Pow10(p) && y < Pow10(p) && Cells(acc) && acc.Length == 3 * p + 14
    requires forall k: nat :: k < acc.Length ==> acc[k] == 0
    modifies acc
    ensures Cells(acc) && 3 <= umsd <= ulsd < acc.Length
    ensures Aligned(p, gap, y, t, z) && t + clamp == gap
    ensures SumResult(signl != signr, signl, signr, toFloor, x, t, z, Val(acc[umsd..ulsd + 1]), sign)
  {
    hide Val, Pow10, Shift, SumState, SumResult;
    var diffsign := signl != signr;
    LayOutHigh(p, x, diffsign, acc);
    var carry := 0;
    if gap >= p {
      ulsd, clamp, t, z := NoOverlap(p, x, y, gap, diffsign, acc);
      SmallSticky(p, y);
    } else {
      ulsd, carry := Overlap(p, x, y, gap, diffsign, acc);
      clamp, t, z := 0, gap, y;
    }
    umsd, sign := FinishSum(p, diffsign, signl, signr, toFloor, x, t, z, acc, ulsd, carry);
  }

  lemma SmallSticky(p: nat, y: nat)
    requires p >= 1
    ensures Pow10(p) > 1
  {
    Pow10Strict(0, p);
  }
}
