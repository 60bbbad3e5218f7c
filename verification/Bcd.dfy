/** Strings of decimal digits, one digit per cell (BCD8), most significant digit first. */
module Bcd {
  import opened Arith

  /** The number a digit string stands for. */
  function Val(s: seq<nat>): nat {
    if |s| == 0 then 0 else 10 * Val(s[..|s| - 1]) + s[|s| - 1]
  }

  predicate Digits(s: seq<nat>) {
    forall k: nat :: k < |s| ==> s[k] <= 9
  }

  predicate AllEqual(s: seq<nat>, d: nat) {
    forall k: nat :: k < |s| ==> s[k] == d
  }

  lemma {:induction false} ValConcat(s: seq<nat>, t: seq<nat>)
    ensures Val(s + t) == Shift(Val(s), |t|) + Val(t)
    decreases |t|
  {
    hide Shift;
    if |t| == 0 {
      assert s + t == s;
      ShiftZero(Val(s));
    } else {
      var n := |t| - 1;
      assert (s + t)[..|s + t| - 1] == s + t[..n];
      ValConcat(s, t[..n]);
      ShiftOne(Val(s), |t|);
    }
  }

  lemma {:induction false} ValBound(s: seq<nat>)
    requires Digits(s)
    ensures Val(s) < Pow10(|s|)
  {
    if |s| > 0 {
      ValBound(s[..|s| - 1]);
    }
  }

  lemma {:induction false} ValZeros(s: seq<nat>)
    requires AllEqual(s, 0)
    ensures Val(s) == 0
  {
    if |s| > 0 {
      ValZeros(s[..|s| - 1]);
    }
  }

  lemma {:induction false} ValZeroIff(s: seq<nat>)
    ensures Val(s) == 0 <==> AllEqual(s, 0)
  {
    if |s| > 0 {
      var n := |s| - 1;
      ValZeroIff(s[..n]);
      if Val(s) == 0 {
        forall k: nat | k < |s|
          ensures s[k] == 0
        {
          if k < n {
            assert s[..n][k] == 0;
          }
        }
      }
    }
  }

  lemma {:induction false} ValNines(s: seq<nat>)
    requires AllEqual(s, 9)
    ensures Val(s) + 1 == Pow10(|s|)
  {
    if |s| > 0 {
      ValNines(s[..|s| - 1]);
    }
  }

  lemma ValSingle(d: nat)
    ensures Val([d]) == d
  {
    assert [d][..0] == [];
  }

  /** Splitting a string at place i. */
  lemma ValSplit(s: seq<nat>, i: nat)
    requires i <= |s|
    ensures Val(s) == Shift(Val(s[..i]), |s| - i) + Val(s[i..])
  {
    hide Shift, Val;
    assert s == s[..i] + s[i..];
    ValConcat(s[..i], s[i..]);
  }

  /** The leading digit carries the weight of the whole length. */
  lemma ValLeading(s: seq<nat>)
    requires |s| > 0
    ensures Val(s) == Shift(s[0], |s| - 1) + Val(s[1..])
    ensures Digits(s) && s[0] != 0 ==> Pow10(|s| - 1) <= Val(s) < Pow10(|s|)
  {
    hide Shift, Val, Pow10;
    ValSplit(s, 1);
    assert s[..1] == [s[0]];
    ValSingle(s[0]);
    if Digits(s) && s[0] != 0 {
      ValBound(s);
      ShiftMono(1, s[0], |s| - 1);
      ShiftOne(0, |s| - 1);
    }
  }

  /** Leading zeros change nothing. */
  lemma ValSkipZeros(s: seq<nat>, i: nat)
    requires i <= |s| && AllEqual(s[..i], 0)
    ensures Val(s) == Val(s[i..])
  {
    hide Shift, Val;
    ValSplit(s, i);
    ValZeros(s[..i]);
    ShiftZero(|s| - i);
  }

  /** Dropping the last k digits: what stays and what goes. */
  lemma ValDrop(s: seq<nat>, k: nat)
    requires k <= |s| && Digits(s)
    ensures High(Val(s), k) == Val(s[..|s| - k])
    ensures Low(Val(s), k) == Val(s[|s| - k..])
  {
    var i := |s| - k;
    assert Digits(s[i..]);
    hide Val, Pow10, Shift, High, Low;
    ValSplit(s, i);
    ValBound(s[i..]);
    HighLowUnique(Val(s), k, Val(s[..i]), Val(s[i..]));
  }

  /** Appending zeros multiplies. */
  lemma ValAppendZeros(s: seq<nat>, z: seq<nat>)
    requires AllEqual(z, 0)
    ensures Val(s + z) == Shift(Val(s), |z|)
  {
    hide Val, Shift;
    ValConcat(s, z);
    ValZeros(z);
  }
}
