/** The coefficient of a decQuad taken from its words, in units of base 1000 and of base 10^9 (GETCOEFFTHOU,
    ADDCOEFFTHOU and GETCOEFFBILL, decNumberLocal.h:668-688, 715-733 and 767-796). */
module QuadUnits {
  import opened Arith
  import opened DecFloats
  import opened Words
  import opened Gf2Poly
  import opened BitFields
  import opened Declets
  import opened Dpd
  import opened Interchange
  import opened Decimal128
  import opened QuadBits
  import opened BaseBillion

  /** The coefficient of the finite datum in words with the top word h. */
  function CoefficientOf(v: nat, h: nat): nat {
    FromDeclets(Join(v % COEFFICIENT_BITS, COEFFICIENT_BITS, CombMsd(h / 0x400_0000 % 32)))
  }

  /** It is the coefficient of the datum. */
  lemma CoefficientOfDatum(w: seq<nat>)
    requires |w| == 4 && Words32(w) && w[3] / 0x400_0000 % 32 < 30
    ensures Decode128(WordsVal(w)).Finite? && Decode128(WordsVal(w)).coeff == CoefficientOf(WordsVal(w), w[3])
  {
    hide WordsVal, Decode128, FromDeclets, CombMsd, CombTop, FieldsOf, Join;
    FieldsOfWord(w);
    DecodedFields(WordsVal(w));
  }

  /** n fields from the lowest on. */
  function FieldSeq(v: nat, n: nat): (s: seq<nat>)
    ensures |s| == n && forall k: nat :: k < n ==> s[k] < 1024
  {
    seq(n, k requires 0 <= k < n => FieldAt(v, 10 * k))
  }

  lemma {:induction false} FieldSeqPacked(v: nat, n: nat)
    ensures Packed(FieldSeq(v, n)) == LowBits(v, 10 * n)
  {
    hide Packed, LowBits, FieldAt, Shl;
    if n == 0 {
      NoFields(v);
      assert FieldSeq(v, 0) == [];
    } else {
      FieldSeqPacked(v, n - 1);
      assert FieldSeq(v, n) == FieldSeq(v, n - 1) + [FieldAt(v, 10 * (n - 1))];
      PackedAppend(FieldSeq(v, n - 1), FieldAt(v, 10 * (n - 1)));
      FieldInLow(v, 10 * (n - 1), 10 * n);
    }
  }

  /** Eleven declets and the leading digit are the units of the coefficient. */
  lemma UnitsOfFields(v: nat, msd: nat, s: seq<nat>)
    requires Canonical(v % COEFFICIENT_BITS) && msd <= 9 && s == FieldSeq(v, 11) + [msd]
    ensures Thousands(FieldSeq(v, 11))
    ensures NumThou(s) == FromDeclets(Join(v % COEFFICIENT_BITS, COEFFICIENT_BITS, msd))
  {
    hide Packed, LowBits, Canonical, FromDeclets, NumThou, Join, Shift, Shl, Pow2, Thousands, ToDeclets, DecletSpan, FieldAt;
    Spans();
    LayoutsValid();
    SplitBits(v, 110);
    ShlIsProduct(Shr(v, 110), 110);
    DivModUnique(v, COEFFICIENT_BITS, Shr(v, 110), LowBits(v, 110));
    FieldSeqPacked(v, 11);
    UnpackedUnits(FieldSeq(v, 11));
    NumThouAppend(FieldSeq(v, 11), msd);
    LeadingDigit(QUAD, v % COEFFICIENT_BITS, msd);
  }

  lemma TopDigitOf(w: seq<nat>)
    requires |w| == 4 && Words32(w)
    ensures w[3] / 0x400_0000 < 64 && |DECCOMBMSD| == 64
    ensures DECCOMBMSD[w[3] / 0x400_0000] == CombMsd(w[3] / 0x400_0000 % 32) <= 9
  {
    hide CombMsd;
    assert w[3] < 0x1_0000_0000;
    CombMsdTable(w[3] / 0x400_0000);
  }

  /** The declets and the leading digit, as the macros read them. */
  method ReadUnits(df: array<nat>) returns (s: seq<nat>)
    requires df.Length == 4 && Words32(df[..])
    ensures |s| == 12 && s == FieldSeq(WordsVal(df[..]), 11) + [CombMsd(df[3] / 0x400_0000 % 32)] && s[11] <= 9
  {
    hide Or, Shl, Shr, WordsVal, CombMsd, Low32, FieldAt;
    ghost var v := WordsVal(df[..]);
    TopDigitOf(df[..]);
    LowReads(df[..]);
    HighReads(df[..]);
    var (hi, mh, ml, lo) := (df[3], df[2], df[1], df[0]);
    var low := [
      lo % 1024,
      Shr(lo, 10) % 1024,
      Shr(lo, 20) % 1024,
      Or(Low32(Shl(ml, 2)), Shr(lo, 30)) % 1024,
      Shr(ml, 8) % 1024,
      Shr(ml, 18) % 1024];
    var high := [
      Or(Low32(Shl(mh, 4)), Shr(ml, 28)) % 1024,
      Shr(mh, 6) % 1024,
      Shr(mh, 16) % 1024,
      Or(Low32(Shl(hi, 6)), Shr(mh, 26)) % 1024,
      Shr(hi, 4) % 1024];
    ReadsAre(v, low, high);
    s := low + high + [DECCOMBMSD[hi / 0x400_0000]];
  }

  lemma ReadsAre(v: nat, low: seq<nat>, high: seq<nat>)
    requires low == [FieldAt(v, 0), FieldAt(v, 10), FieldAt(v, 20), FieldAt(v, 30), FieldAt(v, 40), FieldAt(v, 50)]
    requires high == [FieldAt(v, 60), FieldAt(v, 70), FieldAt(v, 80), FieldAt(v, 90), FieldAt(v, 100)]
    ensures low + high == FieldSeq(v, 11)
  {
    hide FieldAt;
  }

  /** GETCOEFFTHOU: the units of base 1000 of the coefficient. */
  method CoeffThou(df: array<nat>) returns (tac: array<nat>)
    requires df.Length == 4 && Words32(df[..]) && Canonical(WordsVal(df[..]) % COEFFICIENT_BITS)
    ensures fresh(tac) && tac.Length == 12 && Thousands(tac[..11]) && tac[11] <= 9
    ensures NumThou(tac[..]) == CoefficientOf(WordsVal(df[..]), df[3])
  {
    hide WordsVal, CombMsd, FromDeclets, Canonical, NumThou, Join, FieldSeq, Thousands;
    var s := ReadUnits(df);
    UnitsOfFields(WordsVal(df[..]), CombMsd(df[3] / 0x400_0000 % 32), s);
    tac := new nat[12](k requires 0 <= k < 12 => s[k]);
    assert tac[..] == s && tac[..11] == s[..11] == FieldSeq(WordsVal(df[..]), 11);
  }

  /** GETCOEFFBILL: three units of base 1000 in each unit of base 10^9. */
  method CoeffBill(df: array<nat>) returns (buf: array<nat>)
    requires df.Length == 4 && Words32(df[..]) && Canonical(WordsVal(df[..]) % COEFFICIENT_BITS)
    ensures fresh(buf) && buf.Length == 4 && Units(buf[..]) && Num(buf[..]) == CoefficientOf(WordsVal(df[..]), df[3])
  {
    hide WordsVal, CombMsd, FromDeclets, Canonical, NumThou, Join, FieldSeq, Num;
    var s := ReadUnits(df);
    UnitsOfFields(WordsVal(df[..]), CombMsd(df[3] / 0x400_0000 % 32), s);
    assert forall k: nat :: k < 12 ==> s[k] < 1000 by {
      assert forall k: nat :: k < 11 ==> s[k] == FieldSeq(WordsVal(df[..]), 11)[k];
    }
    buf := new nat[4](k requires 0 <= k < 4 => s[3 * k] + 1000 * s[3 * k + 1] + 1_000_000 * s[3 * k + 2]);
    Billions(s, buf[..], 4);
  }

  lemma {:induction false} Billions(s: seq<nat>, b: seq<nat>, n: nat)
    requires |b| == n && |s| == 3 * n && forall k: nat :: k < |s| ==> s[k] < 1000
    requires forall k: nat :: k < n ==> b[k] == s[3 * k] + 1000 * s[3 * k + 1] + 1_000_000 * s[3 * k + 2]
    ensures Num(b) == NumThou(s) && Units(b)
  {
    if n > 0 {
      var t := s[3..];
      assert s[1..][1..] == s[2..] && s[2..][1..] == t;
      assert NumThou(s[1..]) == s[1] + 1000 * NumThou(s[2..]) && NumThou(s[2..]) == s[2] + 1000 * NumThou(t);
      Billions(t, b[1..], n - 1);
      assert forall k: nat :: k < n ==> b[k] < 1_000_000_000;
    }
  }

  /** One step of ADDCOEFFTHOU: d holds the units to add, those from i on are still to come. */
  method AddUnit(tac: array<nat>, i: nat, ghost d: seq<nat>, dpd: nat, ghost total: nat)
    requires tac.Length == |d| == 12 && i < 11 && Thousands(d[..11]) && dpd == d[i]
    requires Adding(tac[..], d, i, total)
    modifies tac
    ensures Adding(tac[..], d, i + 1, total)
  {
    hide NumThou;
    ghost var t := tac[..];
    assert d[..11][i] == d[i];
    tac[i] := tac[i] + dpd;
    if tac[i] > 999 {
      tac[i], tac[i + 1] := tac[i] - 1000, tac[i + 1] + 1;
    }
    UnitAdded(t, tac[..], d, i, total);
  }

  /** The units below i are done; what is left of the sum is in the rest of tac and in the rest of d. */
  ghost predicate Adding(t: seq<nat>, d: seq<nat>, i: nat, total: nat) {
    && |t| == |d| == 12 && i <= 11 && Thousands(t[..i])
    && t[i] <= (if i < 11 then 1000 else 10) && (forall k: nat :: i < k < 11 ==> t[k] < 1000) && (i < 11 ==> t[11] <= 9)
    && NumThou(t[..i]) + Shift(NumThou(t[i..]) + NumThou(d[i..]), 3 * i) == total
  }

  lemma UnitAdded(t: seq<nat>, u: seq<nat>, d: seq<nat>, i: nat, total: nat)
    requires Adding(t, d, i, total) && i < 11 && d[i] < 1000 && |u| == 12
    requires var x := t[i] + d[i];
             u == if x > 999 then t[i := x - 1000][i + 1 := t[i + 1] + 1] else t[i := x]
    ensures Adding(u, d, i + 1, total)
  {
    var (s, rest) := (t[..i], NumThou(d[i..]));
    assert d[i..][1..] == d[i + 1..];
    assert rest == d[i] + 1000 * NumThou(d[i + 1..]);
    hide NumThou, Shift;
    DivModUnique(rest, 1000, NumThou(d[i + 1..]), d[i]);
    UnitStep(s, t[i..], u[i..], d[i], NumThou(d[i + 1..]));
    assert u[..i + 1] == s + [u[i]] && u[i..][1..] == u[i + 1..] && u[i..][0] == u[i];
  }

  /** The value before and after a step. */
  lemma UnitStep(s: seq<nat>, a: seq<nat>, b: seq<nat>, x: nat, rest: nat)
    requires |a| == |b| >= 2 && b[2..] == a[2..] && b[1] >= a[1] && a[0] + x == b[0] + 1000 * (b[1] - a[1])
    ensures NumThou(s + [b[0]]) + Shift(NumThou(b[1..]) + rest, 3 * (|s| + 1))
         == NumThou(s) + Shift(NumThou(a) + (x + 1000 * rest), 3 * |s|)
  {
    hide Shift;
    assert b[1..][1..] == a[1..][1..];
    assert NumThou(b[1..]) == NumThou(a[1..]) + (b[1] - a[1]);
    assert NumThou(a) == a[0] + 1000 * NumThou(a[1..]);
    hide NumThou;
    var w := NumThou(b[1..]) + rest;
    NumThouAppend(s, b[0]);
    ShiftThree(w, 3 * |s|);
    ThouShift(w, 3 * |s|);
    ShiftSum(b[0], 1000 * w, 3 * |s|);
  }

  /** ADDCOEFFTHOU: adds the coefficient to the units, carrying as it goes. */
  method AddCoeff(df: array<nat>, tac: array<nat>)
    requires df.Length == 4 && Words32(df[..]) && Canonical(WordsVal(df[..]) % COEFFICIENT_BITS) && df != tac
    requires tac.Length == 12 && Thousands(tac[..11]) && tac[11] <= 9
    modifies tac
    ensures Thousands(tac[..11]) && tac[11] <= 19
    ensures NumThou(tac[..]) == old(NumThou(tac[..])) + CoefficientOf(WordsVal(df[..]), df[3])
  {
    hide WordsVal, CombMsd, FromDeclets, Canonical, NumThou, Join, FieldSeq, Thousands, Adding;
    var d := ReadUnits(df);
    UnitsOfFields(WordsVal(df[..]), CombMsd(df[3] / 0x400_0000 % 32), d);
    assert d[..11] == FieldSeq(WordsVal(df[..]), 11);
    ghost var total := NumThou(tac[..]) + NumThou(d);
    StartAdding(tac[..], d, total);
    for i := 0 to 11
      invariant Adding(tac[..], d, i, total)
    {
      AddUnit(tac, i, d, d[i], total);
    }
    ghost var t := tac[..];
    tac[11] := tac[11] + d[11];
    DoneAdding(t, tac[..], d, total);
  }

  lemma StartAdding(t: seq<nat>, d: seq<nat>, total: nat)
    requires |t| == |d| == 12 && Thousands(t[..11]) && t[11] <= 9 && total == NumThou(t) + NumThou(d)
    ensures Adding(t, d, 0, total)
  {
    hide NumThou;
    assert t[0..] == t && d[0..] == d && t[..0] == [];
    NoUnits();
    assert forall k: nat :: k < 11 ==> t[k] == t[..11][k];
  }

  lemma NoUnits()
    ensures NumThou([]) == 0
  {
  }

  lemma DoneAdding(t: seq<nat>, u: seq<nat>, d: seq<nat>, total: nat)
    requires Adding(t, d, 11, total) && d[11] <= 9 && u == t[11 := t[11] + d[11]]
    ensures Thousands(u[..11]) && u[11] <= 19 && NumThou(u) == total
  {
    assert t[11..] == [t[11]] && d[11..] == [d[11]];
    assert NumThou([t[11]]) == t[11] && NumThou([d[11]]) == d[11];
    hide NumThou, Shift;
    assert u == t[..11] + [t[11] + d[11]] && u[..11] == t[..11];
    NumThouAppend(t[..11], t[11] + d[11]);
  }
}
