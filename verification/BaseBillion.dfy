/** Natural numbers as units of base 10^9, least significant unit first: the form in which operands
    are divided and multiplied. */
module BaseBillion {
  import opened Arith

  predicate Units(s: seq<nat>) {
    forall k: nat :: k < |s| ==> s[k] < 1_000_000_000
  }

  /** The number a sequence of units stands for. */
  function Num(s: seq<nat>): nat {
    if |s| == 0 then 0 else s[0] + 1_000_000_000 * Num(s[1..])
  }

  /** c moved up by k units. */
  function Raise(c: nat, k: nat): nat
    decreases k, c
  {
    if k == 0 then c else 1_000_000_000 * Raise(c, k - 1)
  }

  /** A product that proofs keep folded. */
  function Prod(a: nat, b: nat): nat {
    a * b
  }

  lemma ProdLaws(a: nat, b: nat, c: nat)
    ensures Prod(a + b, c) == Prod(a, c) + Prod(b, c)
    ensures Prod(c, a + b) == Prod(c, a) + Prod(c, b)
    ensures Prod(0, c) == 0 == Prod(c, 0) && Prod(1, c) == c == Prod(c, 1)
  {
  }

  lemma ProdMono(a: nat, b: nat, c: nat)
    requires a <= b
    ensures Prod(a, c) <= Prod(b, c) && Prod(c, a) <= Prod(c, b)
  {
  }

  lemma ProdBillion(a: nat, b: nat)
    ensures Prod(a, 1_000_000_000 * b) == 1_000_000_000 * Prod(a, b)
    ensures Prod(1_000_000_000 * a, b) == 1_000_000_000 * Prod(a, b)
  {
  }

  lemma {:induction false} RaiseSum(a: nat, b: nat, k: nat)
    ensures Raise(a + b, k) == Raise(a, k) + Raise(b, k)
  {
    if k > 0 {
      RaiseSum(a, b, k - 1);
    }
  }

  lemma {:induction false} RaiseMono(a: nat, b: nat, k: nat)
    ensures a < b <==> Raise(a, k) < Raise(b, k)
    ensures a <= b <==> Raise(a, k) <= Raise(b, k)
  {
    if k > 0 {
      RaiseMono(a, b, k - 1);
    }
  }

  lemma {:induction false} RaiseZero(k: nat)
    ensures Raise(0, k) == 0
  {
    if k > 0 {
      RaiseZero(k - 1);
    }
  }

  lemma {:induction false} RaiseAdd(a: nat, j: nat, k: nat)
    ensures Raise(a, j + k) == Raise(Raise(a, j), k)
  {
    if k > 0 {
      RaiseAdd(a, j, k - 1);
    }
  }

  lemma {:induction false} RaiseProd(m: nat, a: nat, k: nat)
    ensures Raise(Prod(m, a), k) == Prod(m, Raise(a, k))
  {
    hide Prod;
    if k > 0 {
      RaiseProd(m, a, k - 1);
      ProdBillion(m, Raise(a, k - 1));
    }
  }

  /** One more unit. */
  lemma {:induction false} RaiseStep(a: nat, k: nat)
    ensures Raise(a, k + 1) == 1_000_000_000 * Raise(a, k) == Raise(1_000_000_000 * a, k)
  {
    if k > 0 {
      RaiseStep(a, k - 1);
    }
  }

  lemma {:induction false} RaiseGrows(j: nat, k: nat)
    requires j <= k
    ensures 1 <= Raise(1, j) <= Raise(1, k)
    decreases k
  {
    if j < k {
      RaiseGrows(j, k - 1);
    } else if k > 0 {
      RaiseGrows(j - 1, k - 1);
    }
  }

  /** Nine digits to a unit. */
  lemma {:induction false} RaiseIsShift(a: nat, k: nat)
    ensures Raise(a, k) == Shift(a, 9 * k)
  {
    if k > 0 {
      RaiseIsShift(a, k - 1);
      NineShifts(a, 9 * (k - 1));
    }
  }

  lemma NineShifts(a: nat, n: nat)
    ensures Shift(a, n + 9) == 1_000_000_000 * Shift(a, n)
  {
    ThreeShifts(a, n);
    ThreeShifts(a, n + 3);
    ThreeShifts(a, n + 6);
  }

  lemma ThreeShifts(a: nat, n: nat)
    ensures Shift(a, n + 3) == 1_000 * Shift(a, n)
  {
    assert Shift(a, n + 1) == 10 * Shift(a, n);
    assert Shift(a, n + 2) == 10 * Shift(a, n + 1);
  }

  lemma {:induction false} NumConcat(s: seq<nat>, t: seq<nat>)
    ensures Num(s + t) == Num(s) + Raise(Num(t), |s|)
  {
    if |s| == 0 {
      assert s + t == t;
    } else {
      assert (s + t)[1..] == s[1..] + t;
      NumConcat(s[1..], t);
    }
  }

  lemma NumSplit(s: seq<nat>, i: nat)
    requires i <= |s|
    ensures Num(s) == Num(s[..i]) + Raise(Num(s[i..]), i)
  {
    hide Num, Raise;
    assert s == s[..i] + s[i..];
    NumConcat(s[..i], s[i..]);
  }

  lemma NumSingle(d: nat)
    ensures Num([d]) == d && Num([]) == 0
  {
  }

  /** The most significant unit. */
  lemma NumTop(s: seq<nat>)
    requires |s| > 0
    ensures Num(s) == Num(s[..|s| - 1]) + Raise(s[|s| - 1], |s| - 1)
  {
    hide Num, Raise;
    NumSplit(s, |s| - 1);
    assert s[|s| - 1..] == [s[|s| - 1]];
    NumSingle(s[|s| - 1]);
  }

  /** The least significant unit. */
  lemma NumLow(s: seq<nat>)
    requires |s| > 0
    ensures Num(s) == s[0] + 1_000_000_000 * Num(s[1..])
  {
  }

  lemma {:induction false} NumBound(s: seq<nat>)
    requires Units(s)
    ensures Num(s) < Raise(1, |s|)
  {
    if |s| > 0 {
      NumBound(s[1..]);
    }
  }

  /** A non-zero leading unit gives the length away. */
  lemma NumLeading(s: seq<nat>)
    requires |s| > 0 && s[|s| - 1] > 0
    ensures Num(s) >= Raise(1, |s| - 1) && Num(s) > 0
  {
    hide Num, Raise;
    NumTop(s);
    RaiseMono(1, s[|s| - 1], |s| - 1);
    RaiseGrows(0, |s| - 1);
  }

  lemma NumZeroTop(s: seq<nat>)
    requires |s| > 0 && s[|s| - 1] == 0
    ensures Num(s) == Num(s[..|s| - 1])
  {
    hide Num, Raise;
    NumTop(s);
    RaiseZero(|s| - 1);
  }

  lemma {:induction false} NumZeros(s: seq<nat>)
    requires forall k: nat :: k < |s| ==> s[k] == 0
    ensures Num(s) == 0
  {
    if |s| > 0 {
      NumZeros(s[1..]);
    }
  }

  /** Comparing from the top: the first difference decides. */
  lemma NumCompare(s: seq<nat>, t: seq<nat>, i: nat)
    requires |s| == |t| && i < |s| && s[i + 1..] == t[i + 1..] && s[i] < t[i] && Units(s) && Units(t)
    ensures Num(s) < Num(t)
  {
    hide Num, Raise;
    assert Units(s[..i]);
    NumSplit(s, i + 1);
    NumSplit(t, i + 1);
    assert s[..i + 1][..i] == s[..i] && t[..i + 1][..i] == t[..i];
    NumTop(s[..i + 1]);
    NumTop(t[..i + 1]);
    NumBound(s[..i]);
    RaiseSum(s[i], 1, i);
    RaiseMono(s[i] + 1, t[i], i);
  }
}
