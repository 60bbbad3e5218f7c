/** The multiplication again, in 32-bit words only (LONGMUL32HI in decNumberLocal.h:174-182 and the
    second path of decFiniteMultiply, decBasic.c:862-1009): it yields the same units. */
module Multiply32 {
  import opened Arith
  import opened BaseBillion
  import opened Words
  import opened Multiply

  /** A product of 16-bit halves. */
  lemma HalfProduct(a: nat, b: nat)
    requires a < 0x1_0000 && b < 0x1_0000
    ensures a * b <= 0xfffe_0001
  {
    MulMono(a, 0xffff, b);
  }

  lemma HalvesProduct(u0: nat, u1: nat, v0: nat, v1: nat)
    ensures (u1 * 0x1_0000 + u0) * (v1 * 0x1_0000 + v0)
         == (u1 * v1) * 0x1_0000_0000 + (u1 * v0 + u0 * v1) * 0x1_0000 + u0 * v0
  {
  }

  /** The high word of a 64-bit product, from 16-bit halves; no intermediate exceeds 32 bits. */
  method LongMul32Hi(u: nat, v: nat) returns (w: nat)
    requires u < 0x1_0000_0000 && v < 0x1_0000_0000
    ensures w == HighWord(u * v)
  {
    var u0, u1, v0, v1 := u % 0x1_0000, u / 0x1_0000, v % 0x1_0000, v / 0x1_0000;
    HalfProduct(u0, v0);
    HalfProduct(u1, v0);
    HalfProduct(u0, v1);
    HalfProduct(u1, v1);
    HalvesProduct(u0, u1, v0, v1);
    w := CombineHalves(u0 * v0, u1 * v0, u0 * v1, u1 * v1, u * v);
  }

  method CombineHalves(p00: nat, p10: nat, p01: nat, p11: nat, ghost uv: nat) returns (w: nat)
    requires p00 <= 0xfffe_0001 && p10 <= 0xfffe_0001 && p01 <= 0xfffe_0001 && p11 <= 0xfffe_0001
    requires uv == p11 * 0x1_0000_0000 + (p10 + p01) * 0x1_0000 + p00
    ensures w == HighWord(uv)
  {
    var w0 := p00;
    var t := Low32(p10 + w0 / 0x1_0000);
    var w1, w2 := t % 0x1_0000, t / 0x1_0000;
    w1 := Low32(p01 + w1);
    w := p11 + w2 + w1 / 0x1_0000;
    DivModUnique(uv, 0x1_0000_0000, w, w1 % 0x1_0000 * 0x1_0000 + w0 % 0x1_0000);
  }

  /** Low word of a product. */
  function LowProduct(a: nat, b: nat): nat {
    Low32(a * b)
  }

  lemma WordsOf(x: nat)
    ensures x == HighWord(x) * 0x1_0000_0000 + Low32(x)
  {
  }

  // ---- columns held as two words ----

  /** The columns, low words first, high words L2 cells further on. */
  ghost function Columns(acc: array<nat>, n: nat): (s: seq<nat>)
    requires acc.Length == 2 * n
    reads acc
    ensures |s| == n && forall k: nat :: k < n ==> s[k] == acc[n + k] * 0x1_0000_0000 + acc[k]
  {
    seq(n, k requires 0 <= k < n reads acc => acc[n + k] * 0x1_0000_0000 + acc[k])
  }

  predicate WordCells(acc: array<nat>)
    reads acc
  {
    forall k: nat :: k < acc.Length ==> acc[k] < 0x1_0000_0000
  }

  /** Adds a two-word number to a two-word number. */
  method AddWords(hi0: nat, lo0: nat, hi: nat, lo: nat) returns (hi': nat, lo': nat)
    requires lo0 < 0x1_0000_0000 && lo < 0x1_0000_0000
    requires (hi0 + hi) * 0x1_0000_0000 + lo0 + lo < 0x1_0000_0000_0000_0000
    ensures hi' < 0x1_0000_0000 && lo' < 0x1_0000_0000
    ensures hi' * 0x1_0000_0000 + lo' == (hi0 + hi) * 0x1_0000_0000 + lo0 + lo
  {
    lo' := Low32(lo0 + lo);
    hi' := hi0 + hi + if lo' < lo then 1 else 0;
  }

  /** Adds the product of two units into a column. */
  method AddProduct(acc: array<nat>, n: nat, k: nat, a: nat, b: nat)
    requires acc.Length == 2 * n && k < n && WordCells(acc) && a < 1_000_000_000 && b < 1_000_000_000
    requires Columns(acc, n)[k] <= 4_000_000_000_000_000_000
    modifies acc
    ensures WordCells(acc) && Columns(acc, n) == old(Columns(acc, n))[k := old(Columns(acc, n))[k] + Prod(a, b)]
  {
    ghost var s := Columns(acc, n);
    UnitProduct(a, b);
    var hi := LongMul32Hi(a, b);
    var lo := LowProduct(a, b);
    WordsOf(a * b);
    hide Prod, LowProduct;
    var h, l := AddWords(acc[n + k], acc[k], hi, lo);
    acc[k] := l;
    acc[n + k] := h;
  }

  function RowBound(bound: nat, added: bool): nat {
    if added then bound + 999_999_998_000_000_001 else bound
  }

  /** One row. */
  method AddRow32(acc: array<nat>, n: nat, i: nat, a: nat, bufl: array<nat>, L: nat, ghost bound: nat)
    requires acc != bufl && acc.Length == 2 * n && bufl.Length == L && i + L <= n
    requires Units(bufl[..]) && a < 1_000_000_000 && WordCells(acc) && bound <= 3_000_000_000_000_000_000
    requires forall k: nat :: k < n ==> Columns(acc, n)[k] <= bound
    modifies acc
    ensures WordCells(acc) && Num(Columns(acc, n)) == old(Num(Columns(acc, n))) + Raise(Prod(a, Num(bufl[..])), i)
    ensures forall k: nat :: k < n ==> Columns(acc, n)[k] <= bound + 999_999_998_000_000_001
  {
    hide Num, Raise, Prod;
    ghost var s := bufl[..];
    RowStart(a, s, i);
    var j := 0;
    while j < L
      invariant 0 <= j <= L && WordCells(acc)
      invariant Num(Columns(acc, n)) == old(Num(Columns(acc, n))) + Raise(Prod(a, Num(s[..j])), i)
      invariant forall k: nat :: k < n ==> Columns(acc, n)[k] <= RowBound(bound, i <= k < i + j)
    {
      UnitProduct(a, s[j]);
      RowStep(a, s, j, i);
      NumAddAt(Columns(acc, n), i + j, Prod(a, s[j]));
      AddProduct(acc, n, i + j, a, bufl[j]);
      j := j + 1;
    }
    assert s[..L] == s;
  }

  /** All rows; zero units are not skipped here. */
  method AddRows32(acc: array<nat>, bufl: array<nat>, bufr: array<nat>, L: nat)
    requires acc != bufl && acc != bufr && bufl.Length == bufr.Length == L && acc.Length == 4 * L && 1 <= L <= 4
    requires Units(bufl[..]) && Units(bufr[..])
    requires forall k: nat :: k < acc.Length ==> acc[k] == 0
    modifies acc
    ensures WordCells(acc) && Num(Columns(acc, 2 * L)) == Prod(Num(bufr[..]), Num(bufl[..]))
    ensures forall k: nat :: k < 2 * L ==> Columns(acc, 2 * L)[k] <= L * 999_999_998_000_000_001
  {
    hide Num, Raise, Prod;
    ghost var s, D, n := bufr[..], Num(bufl[..]), 2 * L;
    var i := 0;
    NumZeros(Columns(acc, n));
    RowsStart(s, D);
    while i < L
      invariant 0 <= i <= L && D == Num(bufl[..]) && WordCells(acc)
      invariant Num(Columns(acc, n)) == Prod(Num(s[..i]), D)
      invariant forall k: nat :: k < n ==> Columns(acc, n)[k] <= i * 999_999_998_000_000_001
    {
      RowsStep(s, i, D);
      AddRow32(acc, 2 * L, i, bufr[i], bufl, L, i * 999_999_998_000_000_001);
      i := i + 1;
    }
    assert s[..L] == s;
  }

  // ---- splitting columns ----

  /** x shifted down, from its two words. */
  lemma HopFromWords29(hi: nat, lo: nat)
    requires lo < 0x1_0000_0000 && hi < 0x2000_0000
    ensures Low32(hi * 8) + Shr29(lo) == Shr29(hi * 0x1_0000_0000 + lo)
    ensures Low32(hi * 0x1_0000_0000 + lo) == lo
  {
    DivModUnique(hi * 0x1_0000_0000 + lo, 0x2000_0000, hi * 8 + lo / 0x2000_0000, lo % 0x2000_0000);
    DivModUnique(hi * 0x1_0000_0000 + lo, 0x1_0000_0000, hi, lo);
  }

  lemma HopFromWords30(hi: nat, lo: nat)
    requires lo < 0x1_0000_0000 && hi < 0x4000_0000
    ensures Low32(hi * 4) + Shr30(lo) == Shr30(hi * 0x1_0000_0000 + lo)
    ensures Low32(hi * 0x1_0000_0000 + lo) == lo
  {
    DivModUnique(hi * 0x1_0000_0000 + lo, 0x4000_0000, hi * 4 + lo / 0x4000_0000, lo % 0x4000_0000);
    DivModUnique(hi * 0x1_0000_0000 + lo, 0x1_0000_0000, hi, lo);
  }

  /** Shifting a two-word product down by 31. */
  lemma ShiftedDown31(p: nat)
    ensures Shr31(p) == HighWord(p) * 2 + Shr31(Low32(p))
  {
    WordsOf(p);
    DivModUnique(p, 0x8000_0000, HighWord(p) * 2 + Low32(p) / 0x8000_0000, Low32(p) % 0x8000_0000);
  }

  /** Splits a column given as two words: always, however small it is. */
  method SplitWords(hi: nat, lo0: nat, L: nat) returns (lo: nat, est: nat)
    requires 1 <= L <= 4 && lo0 < 0x1_0000_0000 && hi * 0x1_0000_0000 + lo0 < L * 1_000_000_000_000_000_000
    ensures hi * 0x1_0000_0000 + lo0 == lo + 1_000_000_000 * est && lo < 1_000_000_000
  {
    if L <= 2 {
      lo, est := SplitWords29(hi, lo0);
    } else {
      lo, est := SplitWords30(hi, lo0);
    }
  }

  method SplitWords29(hi: nat, lo0: nat) returns (lo: nat, est: nat)
    requires lo0 < 0x1_0000_0000 && hi * 0x1_0000_0000 + lo0 < 2_000_000_000_000_000_000
    ensures hi * 0x1_0000_0000 + lo0 == lo + 1_000_000_000 * est && lo < 1_000_000_000
  {
    hide Shr29, HighWord, Low32;
    ghost var x := hi * 0x1_0000_0000 + lo0;
    HopFromWords29(hi, lo0);
    ReciprocalEstimate29(x, Shr29(x), HighWord(Shr29(x) * 2305843009));
    var hop := Low32(hi * 8) + Shr29(lo0);
    est := LongMul32Hi(hop, 2305843009);
    lo := SubtractLow(lo0, est, x);
    if lo >= 1_000_000_000 {
      lo, est := lo - 1_000_000_000, est + 1;
    }
  }

  /** The low word of x - est * 10^9 is all of it. */
  method SubtractLow(lo0: nat, est: nat, ghost x: nat) returns (lo: nat)
    requires lo0 == Low32(x) && 0 <= x - est * 1_000_000_000 < 0x1_0000_0000
    ensures lo == x - est * 1_000_000_000
  {
    Low32Difference(x, est * 1_000_000_000);
    lo := Low32(lo0 - Low32(est * 1_000_000_000));
  }

  method SplitWords30(hi: nat, lo0: nat) returns (lo: nat, est: nat)
    requires lo0 < 0x1_0000_0000 && hi * 0x1_0000_0000 + lo0 < 4_000_000_000_000_000_000
    ensures hi * 0x1_0000_0000 + lo0 == lo + 1_000_000_000 * est && lo < 1_000_000_000
  {
    hide Shr30, Shr31, HighWord, Low32;
    ghost var x := hi * 0x1_0000_0000 + lo0;
    HopFromWords30(hi, lo0);
    ReciprocalEstimate30(x, Shr30(x), Shr31(Shr30(x) * 2305843009));
    var hop := Low32(hi * 4) + Shr30(lo0);
    ShiftedDown31(hop * 2305843009);
    var esthi := LongMul32Hi(hop, 2305843009);
    est := LowProduct(hop, 2305843009);
    est := esthi * 2 + Shr31(est);
    lo := SubtractLow(lo0, est, x);
    if lo >= 1_000_000_000 {
      lo, est := lo - 1_000_000_000, est + 1;
    }
    if lo >= 1_000_000_000 {
      lo, est := lo - 1_000_000_000, est + 1;
    }
  }

  /** Puts a unit in the low word of column k; the columns behind it stay. */
  method SetLow(acc: array<nat>, n: nat, k: nat, lo: nat)
    requires acc.Length == 2 * n && k < n && WordCells(acc) && lo < 0x1_0000_0000
    modifies acc
    ensures WordCells(acc) && acc[..k + 1] == old(acc[..k]) + [lo]
    ensures Columns(acc, n)[k + 1..] == old(Columns(acc, n)[k + 1..])
  {
    acc[k] := lo;
  }

  /** Adds the carry to column k, a carry between its words included. */
  method PassOn(acc: array<nat>, n: nat, k: nat, est: nat)
    requires acc.Length == 2 * n && k < n && WordCells(acc) && est < 0x1_0000_0000
    requires Columns(acc, n)[k] + est < 0x1_0000_0000_0000_0000
    modifies acc
    ensures WordCells(acc) && acc[..k] == old(acc[..k])
    ensures Columns(acc, n)[k..] == old(Columns(acc, n)[k..])[0 := old(Columns(acc, n)[k]) + est]
  {
    ghost var s := Columns(acc, n);
    var h, l := AddWords(acc[n + k], acc[k], 0, est);
    acc[k] := l;
    acc[n + k] := h;
    assert Columns(acc, n) == s[k := s[k] + est];
  }

  /** Resolves all columns but the last, which fits; the low words are then the units. */
  method ResolveCarries32(acc: array<nat>, L: nat)
    requires 1 <= L <= 4 && acc.Length == 4 * L && WordCells(acc)
    requires forall k: nat :: k < 2 * L ==> Columns(acc, 2 * L)[k] <= L * 999_999_998_000_000_001
    requires Num(Columns(acc, 2 * L)) < Raise(1, 2 * L)
    modifies acc
    ensures Units(acc[..2 * L]) && Num(acc[..2 * L]) == old(Num(Columns(acc, 2 * L)))
  {
    hide Num, Raise, Columns;
    var n := 2 * L;
    ghost var P := Num(Columns(acc, n));
    var i := 0;
    EmptyStart(Columns(acc, n));
    assert acc[..0] == [] && Columns(acc, n)[0..] == Columns(acc, n);
    while i < n - 1
      invariant 0 <= i <= n - 1 && WordCells(acc) && Units(acc[..i])
      invariant forall k: nat :: i < k < n ==> Columns(acc, n)[k] <= L * 999_999_998_000_000_001
      invariant Columns(acc, n)[i] < L * 1_000_000_000_000_000_000
      invariant Num(acc[..i]) + Raise(Num(Columns(acc, n)[i..]), i) == P
    {
      ghost var c := Columns(acc, n);
      ResolveOne(acc, n, L, i);
      UnitsMore(acc[..i + 1], i);
      TailBound(c, Columns(acc, n), i + 2, L * 999_999_998_000_000_001);
      i := i + 1;
    }
    LastLowWord(acc, n, P);
  }

  lemma UnitsMore(s: seq<nat>, i: nat)
    requires |s| == i + 1 && Units(s[..i]) && s[i] < 1_000_000_000
    ensures Units(s)
  {
    forall k: nat | k < |s|
      ensures s[k] < 1_000_000_000
    {
      assert k < i ==> s[..i][k] == s[k];
    }
  }

  lemma TailBound(c: seq<nat>, d: seq<nat>, k: nat, bound: nat)
    requires k <= |c| == |d| && d[k..] == c[k..] && forall i: nat :: k <= i < |c| ==> c[i] <= bound
    ensures forall i: nat :: k <= i < |d| ==> d[i] <= bound
  {
    forall i: nat | k <= i < |d|
      ensures d[i] <= bound
    {
      assert d[k..][i - k] == c[k..][i - k];
    }
  }

  /** One column: its unit goes to the low word. */
  method ResolveOne(acc: array<nat>, n: nat, L: nat, i: nat)
    requires 1 <= L <= 4 && n == 2 * L && acc.Length == 2 * n && WordCells(acc) && i < n - 1
    requires Columns(acc, n)[i] < L * 1_000_000_000_000_000_000
    requires Columns(acc, n)[i + 1] <= L * 999_999_998_000_000_001
    modifies acc
    ensures WordCells(acc) && acc[i] < 1_000_000_000 && acc[..i] == old(acc[..i])
    ensures Columns(acc, n)[i + 2..] == old(Columns(acc, n)[i + 2..])
    ensures Columns(acc, n)[i + 1] < L * 1_000_000_000_000_000_000
    ensures Num(acc[..i + 1]) + Raise(Num(Columns(acc, n)[i + 1..]), i + 1)
         == old(Num(acc[..i]) + Raise(Num(Columns(acc, n)[i..]), i))
  {
    hide Num, Raise;
    ghost var s, done := Columns(acc, n)[i..], acc[..i];
    var lo, est := SplitWords(acc[n + i], acc[i], L);
    CarryStep(done, s, lo, est);
    assert s[1..] == Columns(acc, n)[i + 1..];
    SetLow(acc, n, i, lo);
    ghost var kept := acc[..i + 1];
    PassOn(acc, n, i + 1, est);
    FirstOfTail(Columns(acc, n), s[1..][0 := s[1] + est], i + 1);
    assert acc[..i] == kept[..i] && acc[i] == kept[i];
  }

  lemma FirstOfTail(c: seq<nat>, t: seq<nat>, k: nat)
    requires k < |c| && c[k..] == t
    ensures c[k] == t[0] && c[k + 1..] == t[1..]
  {
  }

  /** The last column is less than 10^9: its high word is zero. */
  lemma LastLowWord(acc: array<nat>, n: nat, P: nat)
    requires n >= 1 && acc.Length == 2 * n && WordCells(acc) && Units(acc[..n - 1])
    requires Num(acc[..n - 1]) + Raise(Num(Columns(acc, n)[n - 1..]), n - 1) == P < Raise(1, n)
    ensures Units(acc[..n]) && Num(acc[..n]) == P
  {
    hide Num, Raise;
    var (done, x) := (acc[..n - 1], Columns(acc, n)[n - 1]);
    assert Columns(acc, n)[n - 1..] == [x];
    NumSingle(x);
    LastColumnFits(done, x, P);
    assert acc[n - 1] == x;
    assert acc[..n] == done + [x];
    NumConcat(done, [x]);
  }

  /** Units determine the number and the number the units: both paths leave the same digits. */
  lemma {:induction false} UnitsUnique(s: seq<nat>, t: seq<nat>)
    requires |s| == |t| && Units(s) && Units(t) && Num(s) == Num(t)
    ensures s == t
  {
    if |s| > 0 {
      assert s[0] == t[0] && Num(s[1..]) == Num(t[1..]);
      UnitsUnique(s[1..], t[1..]);
      assert s == [s[0]] + s[1..] && t == [t[0]] + t[1..];
    }
  }

  /** The product of two coefficients in units, by either path. */
  method ProductUnits(bufl: array<nat>, bufr: array<nat>, L: nat, use64: bool) returns (acc: array<nat>)
    requires 1 <= L <= 4 && bufl.Length == bufr.Length == L && Units(bufl[..]) && Units(bufr[..])
    ensures fresh(acc) && acc.Length >= 2 * L && Units(acc[..2 * L])
    ensures Num(acc[..2 * L]) == Prod(Num(bufr[..]), Num(bufl[..]))
  {
    hide Num, Raise, Prod;
    ProductFits(bufl[..], bufr[..], L);
    if use64 {
      var accl := new nat[2 * L](_ => 0);
      AddRows(accl, bufl, bufr, L);
      acc := ResolveCarries(accl, L);
      assert acc[..2 * L] == acc[..];
    } else {
      acc := new nat[4 * L](_ => 0);
      AddRows32(acc, bufl, bufr, L);
      ResolveCarries32(acc, L);
    }
  }

  lemma ProductFits(s: seq<nat>, t: seq<nat>, L: nat)
    requires |s| == |t| == L && Units(s) && Units(t)
    ensures Prod(Num(t), Num(s)) < Raise(1, 2 * L)
  {
    hide Num, Raise;
    NumBound(s);
    NumBound(t);
    ProductMono(Num(t), Num(s), Raise(1, L));
    RaiseAdd(1, L, L);
    RaiseProd(Raise(1, L), 1, L);
    ProdLaws(0, 0, Raise(1, L));
  }
}
