/** Three-digit units to and from ten-bit declets in words (decDigitsToDPD and decDigitsFromDPD,
    decimal64.c:611-842, with units of three digits), padding included. */
module Dpd {
  import opened Arith
  import opened Truncation
  import opened Declets
  import opened DecNumbers
  import opened BitFields
  import opened Gf2Poly

  // ---- shifting units ----

  /** QUOT10: u / 10^n by a multiplication and shifts. */
  function Quot10(u: nat, n: nat): nat {
    if n == 1 then u / 2 * 26215 / 0x2_0000 else u / 4 * 5243 / 0x2_0000
  }

  function Power(n: nat): (p: nat)
    ensures p > 0
  {
    if n == 1 then 10 else 100
  }

  lemma Quot10IsQuotient(u: nat, n: nat)
    requires u < 1000 && 1 <= n <= 2
    ensures Quot10(u, n) == u / Power(n)
    ensures u == Power(n) * (u / Power(n)) + u % Power(n) && u % Power(n) < Power(n)
  {
    if n == 1 {
      HalfTens(u);
      var (q, r) := (u / 10, u / 2 % 5);
      DivModUnique(u / 2 * 26215, 0x2_0000, q, 3 * q + 26215 * r);
    } else {
      QuarterHundreds(u);
      var (q, r) := (u / 100, u / 4 % 25);
      DivModUnique(u / 4 * 5243, 0x2_0000, q, 3 * q + 5243 * r);
    }
  }

  lemma HalfTens(u: nat)
    ensures u / 2 == 5 * (u / 10) + u / 2 % 5
  {
    var k := u / 2;
    DivModUnique(u, 10, k / 5, k % 5 * 2 + u % 2);
  }

  lemma QuarterHundreds(u: nat)
    ensures u / 4 == 25 * (u / 100) + u / 4 % 25
  {
    var k := u / 4;
    DivModUnique(u, 100, k / 25, k % 25 * 4 + u % 4);
  }

  // One step of a shift: powers of ten up to the unit.
  lemma PowerIsShift(a: nat, n: nat)
    requires 1 <= n <= 2
    ensures Power(n) == Pow10(n) && Power(n) * a == Shift(a, n)
  {
    assert Pow10(1) == 10 * Pow10(0) && Shift(a, 1) == 10 * Shift(a, 0);
    assert Pow10(2) == 10 * Pow10(1) && Shift(a, 2) == 10 * Shift(a, 1);
  }

  /** One unit split and moved up: y are the units written, next what is carried down. */
  lemma SplitStep(x: nat, y: nat, next: nat, u: nat, n: nat)
    requires 1 <= n <= 2 && u < 1000 && Power(3 - n) * x == 1000 * y + next
    requires next % Power(3 - n) == 0 && next < 1000
    ensures var (q, r) := (u / Power(n), u % Power(n));
            && next + q < 1000 && r * Power(3 - n) < 1000 && r * Power(3 - n) % Power(3 - n) == 0
            && Power(3 - n) * (u + 1000 * x) == 1000 * (next + q + 1000 * y) + r * Power(3 - n)
  {
    Quot10IsQuotient(u, n);
  }

  /** MSUDIGITS: digits in the most significant unit. */
  function MsuDigits(d: nat): nat
    requires d >= 1
  {
    d - 3 * (UnitsFor(d) - 1)
  }

  /** When the shifted number needs no extra unit, the top unit is within the part cut off. */
  lemma TopUnitFits(dn: DecNumber, shift: nat)
    requires dn.Valid() && shift >= 1 && MsuDigits(shift) < 3
    requires UnitsFor(dn.digits + shift) < UnitsFor(dn.digits) + UnitsFor(shift)
    ensures dn.lsu[UnitsFor(dn.digits) - 1] < Power(3 - MsuDigits(shift))
  {
    hide Pow10, NumThou, NumDigits, Power, Thousands;
    var m, cut := UnitsFor(dn.digits), 3 - MsuDigits(shift);
    TopUnitBelow(dn.lsu[..m], dn.digits, m - 1);
    CutDigits(dn.digits, shift);
    PowerIsShift(1, cut);
    Pow10Mono(dn.digits - 3 * (m - 1), cut);
  }

  lemma CutDigits(d: nat, shift: nat)
    requires d >= 1 && shift >= 1 && MsuDigits(shift) < 3 && UnitsFor(d + shift) < UnitsFor(d) + UnitsFor(shift)
    ensures 1 <= 3 - MsuDigits(shift) <= 2 && d - 3 * (UnitsFor(d) - 1) <= 3 - MsuDigits(shift)
  {
  }

  /** The top unit holds the digits above the other units. */
  lemma TopUnitBelow(u: seq<nat>, d: nat, k: nat)
    requires Thousands(u) && |u| == k + 1 && d >= 3 * k && NumDigits(NumThou(u)) == d
    ensures u[k] < Pow10(d - 3 * k)
  {
    hide Pow10, High, NumDigits;
    UnitAt(u, k);
    assert NumThou(u[k + 1..]) == 0;
    NumDigitsIsLength(NumThou(u));
    var (a, b) := (d - 3 * k, 3 * k);
    HighBelow(NumThou(u), b, a);
  }

  /** Moves the units up by whole units. */
  method MoveAligned(lsu: array<nat>, m: nat, k: nat, uar: array<nat>)
    requires m <= lsu.Length && m + k <= uar.Length && lsu != uar
    modifies uar
    ensures uar[k..k + m] == lsu[..m]
  {
    var i: nat := m;
    while i > 0
      invariant i <= m && uar[k + i..k + m] == lsu[i..m]
    {
      ghost var t := uar[k + i..k + m];
      uar[k + i - 1] := lsu[i - 1];
      i := i - 1;
      assert uar[k + i..k + m] == [lsu[i]] + t && lsu[i..m] == [lsu[i]] + lsu[i + 1..m];
    }
    assert lsu[0..m] == lsu[..m];
  }

  /** Moves the units up by cut digits less than k units, splitting each; next is what is left for the
      unit below. */
  method MoveSplit(dn: DecNumber, k: nat, top: nat, cut: nat, uar: array<nat>) returns (next: nat)
    requires dn.Valid() && 1 <= cut <= 2 && k >= 1 && top <= uar.Length && dn.lsu != uar
    requires UnitsFor(dn.digits) + k - 1 <= top <= UnitsFor(dn.digits) + k
    requires top < UnitsFor(dn.digits) + k ==> dn.lsu[UnitsFor(dn.digits) - 1] < Power(cut)
    modifies uar
    ensures Thousands(uar[k..top]) && next < 1000
    ensures Power(3 - cut) * dn.Coefficient() == 1000 * NumThou(uar[k..top]) + next
  {
    hide NumThou, Thousands, Quot10, Power, NumDigits;
    ghost var m := UnitsFor(dn.digits);
    var i: nat := UnitsFor(dn.digits);
    ghost var u := dn.lsu[..m];
    next := 0;
    SplitStart(u, uar[top..top], cut);
    while i > 0
      invariant i <= m && next < 1000 && next % Power(3 - cut) == 0
      invariant i == m ==> next == 0
      invariant Thousands(uar[Least(k + i, top)..top])
      invariant Power(3 - cut) * NumThou(u[i..]) == 1000 * NumThou(uar[Least(k + i, top)..top]) + next
    {
      ghost var y, x := uar[Least(k + i, top)..top], u[i..];
      i := i - 1;
      assert u[i..] == [dn.lsu[i]] + x && dn.lsu[i] == u[i];
      UnitBelow(u, i);
      ghost var was := next;
      SplitUnits(dn.lsu[i], x, y, was, cut);
      var quot := Quot10(dn.lsu[i], cut);
      var rem := dn.lsu[i] - quot * Power(cut);
      next := next + quot;
      if k + i < top {
        uar[k + i] := next;
        assert uar[k + i..top] == [next] + y;
      } else {
        assert y == [];
        NothingCut(dn.lsu[i], x, cut);
      }
      next := rem * Power(3 - cut);
    }
    assert u[0..] == u;
  }

  function Least(a: nat, b: nat): nat {
    if a < b then a else b
  }

  lemma SplitStart(u: seq<nat>, e: seq<nat>, cut: nat)
    requires e == [] && 1 <= cut <= 2
    ensures 0 % Power(3 - cut) == 0 && Thousands(e) && Power(3 - cut) * NumThou(u[|u|..]) == 1000 * NumThou(e)
  {
  }

  lemma UnitBelow(u: seq<nat>, i: nat)
    requires Thousands(u) && i < |u|
    ensures u[i] < 1000
  {
  }

  lemma SplitUnits(u: nat, x: seq<nat>, y: seq<nat>, next: nat, cut: nat)
    requires 1 <= cut <= 2 && u < 1000 && Power(3 - cut) * NumThou(x) == 1000 * NumThou(y) + next
    requires next % Power(3 - cut) == 0 && next < 1000 && Thousands(y)
    ensures Power(3 - cut) > 0 && Quot10(u, cut) * Power(cut) <= u
    ensures var (q, r) := (Quot10(u, cut), u - Quot10(u, cut) * Power(cut));
            && next + q < 1000 && r * Power(3 - cut) < 1000 && r * Power(3 - cut) % Power(3 - cut) == 0
            && Thousands([next + q] + y)
            && Power(3 - cut) * NumThou([u] + x) == 1000 * NumThou([next + q] + y) + r * Power(3 - cut)
  {
    Quot10IsQuotient(u, cut);
    SplitStep(NumThou(x), NumThou(y), next, u, cut);
    assert ([u] + x)[1..] == x && ([next + Quot10(u, cut)] + y)[1..] == y;
  }

  /** A top unit below the cut adds nothing above it. */
  lemma NothingCut(u: nat, x: seq<nat>, cut: nat)
    requires 1 <= cut <= 2 && u < Power(cut) && u < 1000 && x == []
    ensures Quot10(u, cut) == 0 && NumThou(x) == 0
    ensures Power(3 - cut) * NumThou([u] + x) == (u - Quot10(u, cut) * Power(cut)) * Power(3 - cut)
  {
    Quot10IsQuotient(u, cut);
    assert ([u] + x)[1..] == x;
  }

  /** The value of the shifted units, from its parts: zeros, one unit, the units moved. */
  lemma ShiftedValue(c: nat, s: nat, k: nat, w: seq<nat>, next: nat, y: seq<nat>)
    requires k >= 1 && 1 <= s <= 3 && Shift(c, s) == 1000 * NumThou(y) + next
    requires |w| == k && w[k - 1] == next && forall j: nat :: j < k - 1 ==> w[j] == 0
    ensures NumThou(w + y) == Shift(c, s + 3 * (k - 1))
  {
    var z := w[..k - 1];
    assert w == z + [next];
    assert w + y == z + ([next] + y);
    assert ([next] + y)[1..] == y;
    assert NumThou([next] + y) == next + 1000 * NumThou(y);
    hide NumThou, Shift;
    ZeroUnits(z);
    NumThouConcat(z, [next] + y);
    ShiftAdd(c, s, 3 * (k - 1));
  }

  lemma {:induction false} ZeroUnits(z: seq<nat>)
    requires forall j: nat :: j < |z| ==> z[j] == 0
    ensures NumThou(z) == 0
  {
    if |z| > 0 {
      ZeroUnits(z[1..]);
    }
  }

  /** The units moved; next is for the unit below them. */
  method MoveUnits(dn: DecNumber, k: nat, top: nat, cut: nat, uar: array<nat>) returns (next: nat)
    requires dn.Valid() && cut <= 2 && k >= 1 && top <= uar.Length && dn.lsu != uar
    requires UnitsFor(dn.digits) + k - 1 <= top <= UnitsFor(dn.digits) + k
    requires cut == 0 ==> top == UnitsFor(dn.digits) + k
    requires top < UnitsFor(dn.digits) + k ==> dn.lsu[UnitsFor(dn.digits) - 1] < Power(cut)
    modifies uar
    ensures Thousands(uar[k..top]) && next < 1000
    ensures Shift(dn.Coefficient(), 3 - cut) == 1000 * NumThou(uar[k..top]) + next
  {
    hide NumThou, NumDigits, Shift;
    next := 0;
    if cut == 0 {
      MoveAligned(dn.lsu, UnitsFor(dn.digits), k, uar);
      assert uar[k..top] == dn.lsu[..UnitsFor(dn.digits)];
      ShiftThree(dn.Coefficient(), 0);
      ShiftZero(dn.Coefficient());
    } else {
      next := MoveSplit(dn, k, top, cut, uar);
      PowerIsShift(dn.Coefficient(), 3 - cut);
    }
  }

  /** The coefficient with zeros appended, in a new array of units. */
  method ShiftUnits(dn: DecNumber, shift: nat) returns (uar: array<nat>)
    requires dn.Valid() && shift >= 1 && dn.digits + shift <= 34
    ensures fresh(uar) && UnitsFor(dn.digits + shift) <= uar.Length && Thousands(uar[..UnitsFor(dn.digits + shift)])
    ensures NumThou(uar[..UnitsFor(dn.digits + shift)]) == Shift(dn.Coefficient(), shift)
  {
    hide NumThou, NumDigits, Thousands, Shift, UnitsFor, MsuDigits, Power;
    ShiftLayout(dn.digits, shift);
    uar := new nat[12](_ => 0);
    var k, top: nat, cut: nat := UnitsFor(shift), UnitsFor(dn.digits + shift), 3 - MsuDigits(shift);
    if top < UnitsFor(dn.digits) + k {
      TopUnitFits(dn, shift);
    }
    ghost var c := dn.Coefficient();
    var next := MoveUnits(dn, k, top, cut, uar);
    ghost var y := uar[k..top];
    ClearBelow(uar, k, next);
    assert uar[k..top] == y;
    ShiftedValue(c, 3 - cut, k, uar[..k], next, y);
    assert uar[..top] == uar[..k] + y;
    AllUnits(uar[..k], y);
  }

  /** Where the units go. */
  lemma ShiftLayout(d: nat, shift: nat)
    requires d >= 1 && shift >= 1 && d + shift <= 34
    ensures var (m, k, top, s) := (UnitsFor(d), UnitsFor(shift), UnitsFor(d + shift), MsuDigits(shift));
            && m >= 1 && k >= 1 && 1 <= s <= 3 && m + k - 1 <= top <= m + k && top <= 12
            && (s == 3 ==> top == m + k) && s + 3 * (k - 1) == shift
  {
  }

  lemma AllUnits(s: seq<nat>, t: seq<nat>)
    requires Thousands(t) && forall k: nat :: k < |s| ==> s[k] < 1000
    ensures Thousands(s + t)
  {
  }

  /** The remainder goes one below, and the rest is cleared. */
  method ClearBelow(uar: array<nat>, k: nat, next: nat)
    requires 1 <= k <= uar.Length && next < 1000
    modifies uar
    ensures uar[k - 1] == next && forall j: nat :: j < k - 1 ==> uar[j] == 0
    ensures forall j: nat :: k <= j < uar.Length ==> uar[j] == old(uar[j])
  {
    var i: nat, r := k, next;
    while i > 0
      invariant i <= k && (i == k ==> r == next) && (i < k ==> r == 0 && uar[k - 1] == next)
      invariant forall j: nat :: i <= j < k - 1 ==> uar[j] == 0
      invariant forall j: nat :: k <= j < uar.Length ==> uar[j] == old(uar[j])
    {
      i := i - 1;
      uar[i] := r;
      r := 0;
    }
  }

  // ---- coefficients as declets ----

  /** The declets of a coefficient, ten bits each. */
  function ToDeclets(c: nat): nat {
    if c == 0 then 0 else c % 1000 + 1024 * ToDeclets(c / 1000)
  }

  /** The coefficient that declets stand for. */
  function FromDeclets(v: nat): nat {
    if v == 0 then 0 else v % 1024 + 1000 * FromDeclets(v / 1024)
  }

  /** Every declet is at most 999. */
  predicate Canonical(v: nat) {
    v == 0 || (v % 1024 <= 999 && Canonical(v / 1024))
  }

  lemma {:induction false} DecletsRoundTrip(c: nat)
    ensures Canonical(ToDeclets(c)) && FromDeclets(ToDeclets(c)) == c
  {
    if c > 0 {
      DecletsRoundTrip(c / 1000);
      var r := ToDeclets(c / 1000);
      DivModUnique(c % 1000 + 1024 * r, 1024, r, c % 1000);
    }
  }

  lemma {:induction false} DecletsBack(v: nat)
    requires Canonical(v)
    ensures ToDeclets(FromDeclets(v)) == v
  {
    if v > 0 {
      DecletsBack(v / 1024);
      var r := FromDeclets(v / 1024);
      DivModUnique(v % 1024 + 1000 * r, 1000, r, v % 1024);
    }
  }

  /** Units pack to the declets of their number. */
  lemma {:induction false} PackedUnits(s: seq<nat>)
    requires Thousands(s)
    ensures Packed(s) == ToDeclets(NumThou(s))
  {
    if |s| > 0 {
      PackedUnits(s[1..]);
      var r := NumThou(s[1..]);
      DivModUnique(s[0] + 1000 * r, 1000, r, s[0]);
    }
  }

  /** Canonical declets unpack to units of three digits. */
  lemma {:induction false} UnpackedUnits(s: seq<nat>)
    requires Canonical(Packed(s)) && forall k: nat :: k < |s| ==> s[k] < 1024
    ensures Thousands(s) && FromDeclets(Packed(s)) == NumThou(s)
  {
    if |s| > 0 {
      var r := Packed(s[1..]);
      DivModUnique(s[0] + 1024 * r, 1024, r, s[0]);
      UnpackedUnits(s[1..]);
      forall k: nat | k < |s|
        ensures s[k] < 1000
      {
        assert k > 0 ==> s[1..][k - 1] == s[k];
      }
    }
  }

  /** n declets hold 3 * n digits. */
  lemma {:induction false} DecletsBelow(c: nat, n: nat)
    requires c < Pow10(3 * n)
    ensures ToDeclets(c) < Pow2(10 * n)
    decreases n
  {
    if n == 0 {
      assert Pow10(0) == 1 && Pow2(0) == 1;
    } else {
      hide Pow10, Pow2, ToDeclets;
      TenPerDeclet(n - 1, 10 * n, 3 * n);
      ThousandBelow(c, Pow10(3 * (n - 1)));
      DecletsBelow(c / 1000, n - 1);
      DecletsStep(c);
    }
  }

  lemma TenPerDeclet(n: nat, b: nat, d: nat)
    requires b == 10 * n + 10 && d == 3 * n + 3
    ensures Pow2(b) == 1024 * Pow2(10 * n) && Pow10(d) == 1000 * Pow10(3 * n)
  {
    PowThree(3 * n);
    FieldShift(1, 10 * n);
    ShlOne(b);
    ShlOne(10 * n);
  }

  lemma DecletsStep(c: nat)
    ensures ToDeclets(c) == c % 1000 + 1024 * ToDeclets(c / 1000)
  {
  }

  lemma ThousandBelow(c: nat, p: nat)
    ensures c < 1000 * p <==> c / 1000 < p
  {
  }

  /** A coefficient cut at a declet boundary. */
  lemma {:induction false} DecletsSplit(l: nat, h: nat, n: nat, c: nat)
    requires l < Pow10(3 * n) && c == l + Shift(h, 3 * n)
    ensures ToDeclets(c) == ToDeclets(l) + Shl(ToDeclets(h), 10 * n)
    decreases n
  {
    if n == 0 {
      assert l == 0;
    } else {
      hide Pow10, Shift, Shl, Pow2, ToDeclets;
      TenPerDeclet(n - 1, 10 * n, 3 * n);
      ThousandBelow(l, Pow10(3 * (n - 1)));
      DecletsSplit(l / 1000, h, n - 1, l / 1000 + Shift(h, 3 * (n - 1)));
      ShiftPerDeclet(h, n - 1, 3 * n);
      DecletsStep(l);
      DecletsStep(c);
      ThousandSum(l, Shift(h, 3 * (n - 1)));
      ShlPerDeclet(ToDeclets(h), n - 1, 10 * n);
    }
  }

  lemma ShiftPerDeclet(h: nat, n: nat, d: nat)
    requires d == 3 * n + 3
    ensures Shift(h, d) == 1000 * Shift(h, 3 * n)
  {
    ShiftThree(h, 3 * n);
  }

  lemma ShlPerDeclet(h: nat, n: nat, b: nat)
    requires b == 10 * n + 10
    ensures Shl(h, b) == 1024 * Shl(h, 10 * n)
  {
    FieldShift(h, 10 * n);
  }

  lemma ThousandSum(l: nat, h: nat)
    ensures (l + 1000 * h) / 1000 == l / 1000 + h && (l + 1000 * h) % 1000 == l % 1000
  {
  }

  // ---- units to declets ----

  /** decDigitsToDPD: ors the declets of the coefficient, followed by shift zeros, into clear words. */
  method DecDigitsToDPD(dn: DecNumber, targ: array<nat>, shift: nat)
    requires dn.Valid() && dn.digits + shift <= 34 && dn.lsu != targ
    requires 10 * UnitsFor(dn.digits + shift) < 32 * targ.Length && forall k: nat :: k < targ.Length ==> targ[k] == 0
    modifies targ
    ensures Words32(targ[..]) && WordsVal(targ[..]) == ToDeclets(Shift(dn.Coefficient(), shift))
  {
    hide NumThou, Thousands, Shift, NumDigits, WordsVal, ToDeclets;
    var inu, digits := dn.lsu, dn.digits;
    if shift != 0 {
      inu := ShiftUnits(dn, shift);
      digits := digits + shift;
    } else {
      ShiftZero(dn.Coefficient());
    }
    PackUnits(inu, digits, targ);
    PackedUnits(inu[..UnitsFor(digits)]);
  }

  method PackUnits(inu: array<nat>, digits: nat, targ: array<nat>)
    requires UnitsFor(digits) <= inu.Length && Thousands(inu[..UnitsFor(digits)]) && inu != targ
    requires 10 * UnitsFor(digits) < 32 * targ.Length && forall k: nat :: k < targ.Length ==> targ[k] == 0
    modifies targ
    ensures Words32(targ[..]) && WordsVal(targ[..]) == Packed(inu[..UnitsFor(digits)])
  {
    hide WordsVal, Packed, Shl, Pow2;
    ghost var s := inu[..UnitsFor(digits)];
    var left: int, n: nat, wi: nat, off: nat := digits, 0, 0, 0;
    ClearWords(targ[..]);
    while left > 0
      invariant left == digits - 3 * n && n <= UnitsFor(digits)
      invariant 32 * wi + off == 10 * n && off < 32 && wi < targ.Length && Words32(targ[..])
      invariant targ[wi] < Pow2(off) && forall k: nat :: wi < k < targ.Length ==> targ[k] == 0
      invariant WordsVal(targ[..]) == Packed(s[..n])
    {
      assert s[n] == inu[n] < 1000;
      var bin := inu[n];
      left := left - 3;
      PackedAppend(s[..n], bin);
      assert s[..n + 1] == s[..n] + [bin];
      assert |s[..n]| == n;
      wi, off := PutField(targ, wi, off, bin);
      n := n + 1;
    }
    assert s[..n] == s;
  }

  lemma ClearWords(w: seq<nat>)
    requires forall k: nat :: k < |w| ==> w[k] == 0
    ensures Words32(w) && WordsVal(w) == 0 == Packed([]) && (|w| > 0 ==> w[0] < Pow2(0))
  {
    if |w| > 0 {
      ClearWords(w[1..]);
    }
  }

  // ---- declets to units ----

  /** decDigitsFromDPD: the coefficient and its digit count from so many declets. */
  method DecDigitsFromDPD(dn: DecNumber, sour: array<nat>, declets: nat)
    requires 1 <= declets <= dn.lsu.Length && declets <= 16 && 10 * declets <= 32 * sour.Length && dn.lsu != sour
    requires Words32(sour[..]) && Canonical(LowBits(WordsVal(sour[..]), 10 * declets))
    modifies dn`digits, dn.lsu
    ensures dn.Valid() && dn.Coefficient() == FromDeclets(LowBits(WordsVal(sour[..]), 10 * declets))
  {
    hide Canonical, LowBits, WordsVal, Packed, FromDeclets, NumThou, Thousands, NumDigits;
    var last := UnpackUnits(dn.lsu, sour, declets);
    ghost var s := dn.lsu[..declets];
    UnpackedUnits(s);
    DigitsOfUnits(s, last);
    assert s[..last + 1] == dn.lsu[..last + 1];
    dn.digits := 3 * last + 1;
    if dn.lsu[last] < 10 {
      return;
    }
    dn.digits := dn.digits + 1;
    if dn.lsu[last] < 100 {
      return;
    }
    dn.digits := dn.digits + 1;
  }

  /** Unpacks the declets into units; last is the highest one that is not zero, or the first. */
  method UnpackUnits(lsu: array<nat>, sour: array<nat>, declets: nat) returns (last: nat)
    requires 1 <= declets <= lsu.Length && declets <= 16 && 10 * declets <= 32 * sour.Length && lsu != sour
    requires Words32(sour[..])
    modifies lsu
    ensures Packed(lsu[..declets]) == LowBits(WordsVal(sour[..]), 10 * declets)
    ensures forall k: nat :: k < declets ==> lsu[..declets][k] < 1024
    ensures last < declets && (last > 0 ==> lsu[last] > 0) && forall k: nat :: last < k < declets ==> lsu[k] == 0
  {
    hide WordsVal, Packed, LowBits, FieldAt, Shl;
    last := 0;
    var n: nat, wi: nat, off: nat := 0, 0, 0;
    ghost var v := WordsVal(sour[..]);
    NoFields(v);
    while n < declets
      invariant n <= declets && 32 * wi + off == 10 * n && off <= 32 && (off == 32 ==> n == 16)
      invariant Packed(lsu[..n]) == LowBits(v, 10 * n)
      invariant forall k: nat :: k < n ==> lsu[k] < 1024
      invariant last <= n && (last == n ==> n == 0) && (last > 0 ==> lsu[last] > 0)
      invariant forall k: nat :: last < k < n ==> lsu[k] == 0
    {
      ghost var s := lsu[..n];
      var dpd;
      dpd, wi, off := GetField(sour, wi, off);
      FieldInLow(v, 10 * n, 10 * (n + 1));
      PackedAppend(s, dpd);
      FieldSmall(v, 10 * n);
      if dpd == 0 {
        lsu[n] := 0;
      } else {
        lsu[n] := dpd;
        last := n;
      }
      assert lsu[..n + 1] == s + [dpd];
      n := n + 1;
      WordEdge(n, wi, off);
    }
  }

  lemma WordEdge(n: nat, wi: nat, off: nat)
    requires 32 * wi + off == 10 * n && off <= 32 && 1 <= n <= 16
    ensures off == 32 ==> n == 16
  {
    if off == 32 {
      assert 16 * (wi + 1) == 5 * n;
      assert wi + 1 <= 5;
    }
  }

  lemma FieldSmall(v: nat, p: nat)
    ensures FieldAt(v, p) < 1024
  {
  }

  lemma NoFields(v: nat)
    ensures Packed([]) == LowBits(v, 0) == 0
  {
  }

  /** One field more. */
  lemma FieldInLow(v: nat, p: nat, p': nat)
    requires p' == p + 10
    ensures LowBits(v, p') == LowBits(v, p) + Shl(FieldAt(v, p), p)
  {
    hide LowBits, Shl, Shr, Pow2;
    var (q, f, l) := (Shr(v, p) / 1024, FieldAt(v, p), LowBits(v, p));
    SplitBits(v, p);
    ShlSum(1024 * q, f, p);
    FieldShift(q, 0);
    ZeroShift(q);
    ShlAdd(q, 10, p);
    TenBits();
    ShlMono(f, 1024, p);
    ShlSum(f, 1, p);
    ShlOne(p);
    ShlMono(f + 1, 1025, p);
    ShlOne(10);
    ShlOne(p');
    ShlAdd(1, 10, p);
    FieldRoom(f, l, p);
    UniqueBits(v, p', q, Shl(f, p) + l);
  }

  lemma FieldRoom(f: nat, l: nat, p: nat)
    requires f < 1024 && l < Pow2(p)
    ensures Shl(f, p) + l < Pow2(p + 10)
  {
    hide Shl, Pow2;
    ShlMono(f, 1023, p);
    ShlMono(1023, f, p);
    ShlSum(1023, 1, p);
    ShlOne(p);
    TenBits();
    ShlOne(10);
    ShlAdd(1, 10, p);
    ShlOne(p + 10);
  }

  /** How many digits units have, from the highest one that is not zero. */
  lemma {:induction false} DigitsOfUnits(s: seq<nat>, last: nat)
    requires Thousands(s) && last < |s| && (last > 0 ==> s[last] > 0) && forall k: nat :: last < k < |s| ==> s[k] == 0
    ensures NumDigits(NumThou(s))
         == 3 * last + 1 + (if s[last] >= 10 then 1 else 0) + (if s[last] >= 100 then 1 else 0)
    ensures NumThou(s[..last + 1]) == NumThou(s) && Thousands(s[..last + 1])
  {
    hide NumDigits;
    if last == 0 {
      ZeroUnits(s[1..]);
      assert s[..1][1..] == [];
      UnitDigits(s[0]);
    } else {
      DigitsOfUnits(s[1..], last - 1);
      assert s[..last + 1][1..] == s[1..][..last];
      PositiveUnits(s[1..], last - 1);
      MoreDigits(s[0], NumThou(s[1..]));
    }
  }

  lemma UnitDigits(u: nat)
    requires u < 1000
    ensures NumDigits(u) == 1 + (if u >= 10 then 1 else 0) + (if u >= 100 then 1 else 0)
  {
    assert u >= 10 ==> NumDigits(u) == 1 + NumDigits(u / 10);
    assert u >= 100 ==> NumDigits(u / 10) == 1 + NumDigits(u / 10 / 10);
  }

  lemma MoreDigits(u: nat, r: nat)
    requires u < 1000 && r > 0
    ensures NumDigits(u + 1000 * r) == 3 + NumDigits(r)
  {
    var c := u + 1000 * r;
    UnitOff(u, r);
    assert NumDigits(c) == 1 + NumDigits(c / 10) == 2 + NumDigits(c / 10 / 10) == 3 + NumDigits(c / 10 / 10 / 10);
  }

  lemma {:induction false} PositiveUnits(s: seq<nat>, k: nat)
    requires k < |s| && s[k] > 0
    ensures NumThou(s) > 0
  {
    if k > 0 {
      PositiveUnits(s[1..], k - 1);
    }
  }
}
