/** Coefficients in base 1000, a declet to a unit, least significant first (GETCOEFFTHOU and
    ADDCOEFFTHOU in decNumberLocal.h:695-796). */
module Declets {
  import opened Arith

  function NumThou(s: seq<nat>): nat {
    if |s| == 0 then 0 else s[0] + 1000 * NumThou(s[1..])
  }

  predicate Thousands(s: seq<nat>) {
    forall k: nat :: k < |s| ==> s[k] < 1000
  }

  lemma ShiftThree(a: nat, n: nat)
    ensures Shift(a, n + 3) == 1000 * Shift(a, n)
  {
    assert Shift(a, n + 1) == 10 * Shift(a, n);
    assert Shift(a, n + 2) == 10 * Shift(a, n + 1);
  }

  lemma {:induction false} NumThouConcat(s: seq<nat>, t: seq<nat>)
    ensures NumThou(s + t) == NumThou(s) + Shift(NumThou(t), 3 * |s|)
  {
    if |s| == 0 {
      assert s + t == t;
    } else {
      assert (s + t)[1..] == s[1..] + t;
      NumThouConcat(s[1..], t);
      ShiftThree(NumThou(t), 3 * (|s| - 1));
    }
  }

  lemma NumThouAppend(s: seq<nat>, d: nat)
    ensures NumThou(s + [d]) == NumThou(s) + Shift(d, 3 * |s|)
  {
    NumThouConcat(s, [d]);
    assert NumThou([d]) == d;
  }

  lemma {:induction false} NumThouBound(s: seq<nat>)
    requires Thousands(s)
    ensures NumThou(s) < Pow10(3 * |s|)
  {
    if |s| > 0 {
      NumThouBound(s[1..]);
      PowThree(3 * (|s| - 1));
    }
  }

  lemma PowThree(n: nat)
    ensures Pow10(n + 3) == 1000 * Pow10(n)
  {
    assert Pow10(n + 1) == 10 * Pow10(n);
    assert Pow10(n + 2) == 10 * Pow10(n + 1);
  }

  /** The base-1000 units of a coefficient: n declets and the leading digit on top. */
  method GetCoeffThou(c: nat, n: nat) returns (tac: array<nat>)
    requires c < Pow10(3 * n + 1)
    ensures fresh(tac) && tac.Length == n + 1 && NumThou(tac[..]) == c
    ensures Thousands(tac[..n]) && tac[n] <= 9
  {
    hide NumThou, Shift, Pow10;
    tac := new nat[n + 1](_ => 0);
    var rest, i := c, 0;
    ThouStart(c);
    while i < n
      invariant 0 <= i <= n && Thousands(tac[..i]) && NumThou(tac[..i]) + Shift(rest, 3 * i) == c
    {
      ghost var s := tac[..i];
      tac[i] := rest % 1000;
      assert tac[..i + 1] == s + [tac[i]];
      ThouStep(s, rest);
      rest := rest / 1000;
      i := i + 1;
    }
    tac[n] := rest;
    assert tac[..] == tac[..n] + [rest];
    NumThouAppend(tac[..n], rest);
    TopDigit(rest, n, c);
  }

  lemma ThouStart(c: nat)
    ensures NumThou([]) + Shift(c, 0) == c
  {
  }

  lemma ThouStep(s: seq<nat>, rest: nat)
    ensures NumThou(s + [rest % 1000]) + Shift(rest / 1000, 3 * (|s| + 1)) == NumThou(s) + Shift(rest, 3 * |s|)
  {
    hide NumThou, Shift;
    NumThouAppend(s, rest % 1000);
    ShiftThree(rest / 1000, 3 * |s|);
    ThouShift(rest / 1000, 3 * |s|);
    ShiftSum(rest % 1000, 1000 * (rest / 1000), 3 * |s|);
  }

  lemma ThouShift(a: nat, n: nat)
    ensures Shift(1000 * a, n) == 1000 * Shift(a, n)
  {
    hide Shift;
    ShiftThree(a, n);
    ShiftThree(a, 0);
    ShiftZero(a);
    ShiftAdd(a, 3, n);
  }

  lemma TopDigit(d: nat, n: nat, c: nat)
    requires Shift(d, 3 * n) <= c < Pow10(3 * n + 1)
    ensures d <= 9
  {
    assert Pow10(1) == 10 * Pow10(0);
    hide Pow10, Shift;
    ShiftOfPow10(1, 3 * n);
    ShiftMono(10, d, 3 * n);
  }

  /** Adds a coefficient to the units, carrying as it goes. */
  method AddCoeffThou(c: nat, n: nat, tac: array<nat>)
    requires c < Pow10(3 * n + 1) && tac.Length == n + 1 && Thousands(tac[..n]) && tac[n] <= 9
    modifies tac
    ensures NumThou(tac[..]) == old(NumThou(tac[..])) + c
    ensures Thousands(tac[..n]) && tac[n] <= 19
  {
    hide NumThou, Shift, Pow10;
    var rest, i: nat := c, 0;
    ghost var t := tac[..];
    ThouStartTail(tac[0..], c);
    assert tac[0..] == t;
    while i < n
      invariant i <= n && Thousands(tac[..i]) && (forall k: nat :: i < k <= n ==> tac[k] == t[k])
      invariant if i < n then tac[i] <= 1000 else tac[n] <= 10
      invariant NumThou(tac[..i]) + Shift(NumThou(tac[i..]) + rest, 3 * i) == NumThou(t) + c
      invariant Shift(rest, 3 * i) <= c
    {
      ghost var s, u, r := tac[..i], tac[i..], rest;
      tac[i] := tac[i] + rest % 1000;
      assert i + 1 < n ==> tac[i + 1] < 1000 by {
        if i + 1 < n {
          assert t[..n][i + 1] < 1000;
        }
      }
      if tac[i] > 999 {
        tac[i], tac[i + 1] := tac[i] - 1000, tac[i + 1] + 1;
      }
      rest := rest / 1000;
      AddStep(s, u, tac[i..], r, c);
      assert tac[..i + 1] == s + [tac[i]] && tac[i..][1..] == tac[i + 1..] && tac[i..][0] == tac[i];
      i := i + 1;
    }
    TopDigit(rest, n, c);
    ghost var s := tac[..n];
    ghost var u := tac[n];
    assert tac[n..] == [u];
    tac[n] := tac[n] + rest;
    assert tac[..] == s + [u + rest];
    TopSum(s, u, rest);
  }

  lemma ThouStartTail(s: seq<nat>, c: nat)
    ensures NumThou([]) + Shift(NumThou(s) + c, 0) == NumThou(s) + c && Shift(c, 0) == c
  {
  }

  /** One unit of the addition: u becomes v, a carry included. */
  lemma AddStep(s: seq<nat>, u: seq<nat>, v: seq<nat>, rest: nat, c: nat)
    requires |u| == |v| >= 2
    requires v[1] >= u[1] && u[0] + rest % 1000 == v[0] + 1000 * (v[1] - u[1]) && v[2..] == u[2..]
    requires Shift(rest, 3 * |s|) <= c
    ensures NumThou(s + [v[0]]) + Shift(NumThou(v[1..]) + rest / 1000, 3 * (|s| + 1))
         == NumThou(s) + Shift(NumThou(u) + rest, 3 * |s|)
    ensures Shift(rest / 1000, 3 * (|s| + 1)) <= c
  {
    hide Shift;
    assert v[1..][1..] == u[1..][1..];
    assert NumThou(v[1..]) == NumThou(u[1..]) + (v[1] - u[1]);
    assert NumThou(u) == u[0] + 1000 * NumThou(u[1..]);
    hide NumThou;
    var w := NumThou(v[1..]) + rest / 1000;
    NumThouAppend(s, v[0]);
    ShiftThree(w, 3 * |s|);
    ThouShift(w, 3 * |s|);
    ShiftSum(v[0], 1000 * w, 3 * |s|);
    ShiftThree(rest / 1000, 3 * |s|);
    ThouShift(rest / 1000, 3 * |s|);
    ShiftMono(1000 * (rest / 1000), rest, 3 * |s|);
  }

  lemma TopSum(s: seq<nat>, u: nat, rest: nat)
    ensures NumThou(s + [u + rest]) == NumThou(s) + Shift(NumThou([u]) + rest, 3 * |s|)
  {
    assert NumThou([u]) == u;
    NumThouAppend(s, u + rest);
  }
}
