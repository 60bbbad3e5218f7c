/** decFinalize (decCommon.c:231-556): the one routine that rounds, clamps, folds down or overflows
    a string of BCD digits into a decFloat. The digits live in cells msd..lsd of an array and are
    worked on in place. */
module Finalize {
  import opened Arith
  import opened TenPowers
  import opened DecFloats
  import opened RoundingSpec
  import opened Truncation
  import opened Bcd

  /** DECSTICKYTAB: a re-round digit when non-zero digits follow it (decContext.c:36). */
  function Sticky(d: nat): nat {
    if d == 0 then 1 else if d == 5 then 6 else d
  }

  /** What a re-round digit says about the discarded part. */
  function DigitClass(d: nat): Residue {
    if d == 0 then Zero else if d < 5 then BelowHalf else if d == 5 then Half else AboveHalf
  }

  /** Whether to increment, decided from the re-round digit and the last digit kept. */
  function NeedsIncrement(mode: Rounding, sign: bool, reround: nat, lsd: nat): bool {
    match mode
    case HalfEven => if reround > 5 then true else if reround == 5 then lsd % 2 == 1 else false
    case Down => false
    case HalfDown => reround > 5
    case HalfUp => reround >= 5
    case Up => reround > 0
    case Ceiling => !sign && reround > 0
    case Floor => sign && reround > 0
    case ZeroFiveUp => reround > 0 && (lsd == 0 || lsd == 5)
  }

  lemma NeedsIncrementIsIncrements(mode: Rounding, sign: bool, reround: nat, c: nat, r: Residue)
    requires DigitClass(reround) == r
    ensures NeedsIncrement(mode, sign, reround, c % 10) == Increments(mode, sign, c, r)
  {
    LastDigitParity(c);
    LastDigitFives(c);
  }

  lemma LastDigitParity(c: nat)
    ensures (c % 10) % 2 == c % 2
  {
  }

  lemma LastDigitFives(c: nat)
    ensures (c % 10 == 0 || c % 10 == 5) <==> c % 5 == 0
  {
  }

  /** The dropped digits d, as re-round digit plus stickiness. */
  lemma ReroundClass(d: seq<nat>, rest: nat)
    requires |d| >= 1 && Digits(d) && rest == Val(d[1..])
    ensures DigitClass(if rest == 0 then d[0] else Sticky(d[0])) == RemainderClass(Val(d), Pow10(|d|))
  {
    var k := |d| - 1;
    var h := d[0];
    assert h <= 9 && Digits(d[1..]);
    ValLeading(d);
    ValBound(d[1..]);
    assert Pow10(|d|) == 10 * Pow10(k);
    hide Val, Pow10, Shift;
    ShiftIsProduct(h, k);
    TimesFive(h, Pow10(k));
  }

  lemma TimesFive(h: nat, p: nat)
    requires p >= 1
    ensures h == 0 ==> h * p == 0
    ensures h == 5 ==> h * p == 5 * p
    ensures h < 5 ==> h * p + p <= 5 * p
    ensures h > 5 ==> h * p >= 5 * p + p
    ensures h >= 1 ==> h * p >= p
  {
    if h < 5 {
      MulMono(h + 1, 5, p);
    }
    if h > 5 {
      MulMono(6, h, p);
    }
    if h >= 1 {
      MulMono(1, h, p);
    }
  }

  /** When the whole string lies below the re-round place. */
  lemma FarBelowClass(c: nat, len: nat, drop: nat)
    requires c < Pow10(len) && len < drop
    ensures DigitClass(if c == 0 then 0 else Sticky(0)) == RemainderClass(c, Pow10(drop))
  {
    assert Pow10(drop) == 10 * Pow10(drop - 1);
    hide Pow10;
    Pow10Mono(len, drop - 1);
  }

  /** Skips leading zero digits, four at a time and then singly. */
  method SkipZeros(buf: array<nat>, msd: nat, lsd: nat) returns (m: nat)
    requires msd <= lsd < buf.Length
    ensures msd <= m <= lsd
    ensures AllEqual(buf[msd..m], 0)
    ensures buf[m] != 0 || m == lsd
  {
    m := msd;
    if buf[m] == 0 {
      while m + 3 < lsd && buf[m] == 0 && buf[m + 1] == 0 && buf[m + 2] == 0 && buf[m + 3] == 0
        invariant msd <= m <= lsd
        invariant forall k: nat :: msd <= k < m ==> buf[k] == 0
      {
        m := m + 4;
      }
      while m < lsd && buf[m] == 0
        invariant msd <= m <= lsd
        invariant forall k: nat :: msd <= k < m ==> buf[k] == 0
      {
        m := m + 1;
      }
    }
  }

  /** Applies stickiness to a re-round digit if any of the cells from..ulsd is non-zero. */
  method CheckStickies(buf: array<nat>, from: nat, ulsd: nat, digit: nat) returns (reround: nat)
    requires from <= ulsd + 1 <= buf.Length
    ensures reround == if AllEqual(buf[from..ulsd + 1], 0) then digit else Sticky(digit)
  {
    reround := digit;
    var ub := from;
    while ub <= ulsd
      invariant from <= ub <= ulsd + 1
      invariant AllEqual(buf[from..ub], 0) && reround == digit
    {
      if buf[ub] != 0 {
        reround := Sticky(reround);
        assert buf[from..ulsd + 1][ub - from] != 0;
        return;
      }
      ub := ub + 1;
    }
  }

  /** Cuts the last drop digits off the coefficient: the re-round digit says what they amounted to.
      A coefficient that disappears altogether becomes a single zero. */
  method DropDigits(buf: array<nat>, umsd: nat, ulsd: nat, drop: nat) returns (reround: nat, newlsd: nat)
    requires umsd <= ulsd < buf.Length && Digits(buf[umsd..ulsd + 1]) && drop >= 1
    modifies buf
    ensures umsd <= newlsd <= ulsd
    ensures var c := old(Val(buf[umsd..ulsd + 1]));
            Val(buf[umsd..newlsd + 1]) == High(c, drop)
            && DigitClass(reround) == RemainderClass(Low(c, drop), Pow10(drop))
    ensures drop <= ulsd - umsd ==> newlsd == ulsd - drop && buf[umsd] == old(buf[umsd])
    ensures drop > ulsd - umsd ==> newlsd == umsd && buf[umsd] == 0
    ensures Digits(buf[umsd..newlsd + 1])
    ensures forall k: nat :: k < buf.Length && k != umsd ==> buf[k] == old(buf[k])
  {
    hide Val, Pow10, High, Low, RemainderClass, DigitClass;
    ghost var s := buf[umsd..ulsd + 1];
    var length := ulsd - umsd + 1;
    if drop < length {
      var roundat := umsd + length - drop;
      reround := CheckStickies(buf, roundat + 1, ulsd, buf[roundat]);
      newlsd := roundat - 1;
      CutInside(s, drop, reround);
      assert buf[umsd..newlsd + 1] == s[..length - drop];
      assert buf[roundat + 1..ulsd + 1] == s[length - drop..][1..];
    } else {
      reround := CheckAll(buf, umsd, ulsd, drop);
      buf[umsd] := 0;
      newlsd := umsd;
      assert buf[umsd..umsd + 1] == [0];
      ValSingle(0);
    }
  }

  /** The edge cases: no digit of the coefficient stays. */
  method CheckAll(buf: array<nat>, umsd: nat, ulsd: nat, drop: nat) returns (reround: nat)
    requires umsd <= ulsd < buf.Length && Digits(buf[umsd..ulsd + 1]) && drop >= ulsd - umsd + 1
    ensures var c := Val(buf[umsd..ulsd + 1]);
            High(c, drop) == 0 && DigitClass(reround) == RemainderClass(Low(c, drop), Pow10(drop))
  {
    hide Val, Pow10, High, Low, RemainderClass, DigitClass;
    ghost var s := buf[umsd..ulsd + 1];
    if drop == ulsd - umsd + 1 {
      reround := CheckStickies(buf, umsd + 1, ulsd, buf[umsd]);
      assert buf[umsd + 1..ulsd + 1] == s[1..];
      CutAtLength(s, reround);
    } else {
      reround := CheckStickies(buf, umsd, ulsd, 0);
      CutBeyond(s, drop, reround);
    }
  }

  lemma CutInside(s: seq<nat>, drop: nat, reround: nat)
    requires Digits(s) && 1 <= drop < |s|
    requires var d := s[|s| - drop..]; reround == if AllEqual(d[1..], 0) then d[0] else Sticky(d[0])
    ensures Val(s[..|s| - drop]) == High(Val(s), drop)
    ensures DigitClass(reround) == RemainderClass(Low(Val(s), drop), Pow10(drop))
  {
    hide Val, Pow10, High, Low, RemainderClass, DigitClass;
    var d := s[|s| - drop..];
    ValDrop(s, drop);
    ValZeroIff(d[1..]);
    ReroundClass(d, Val(d[1..]));
  }

  lemma CutAtLength(s: seq<nat>, reround: nat)
    requires Digits(s) && |s| >= 1
    requires reround == if AllEqual(s[1..], 0) then s[0] else Sticky(s[0])
    ensures High(Val(s), |s|) == 0
    ensures DigitClass(reround) == RemainderClass(Low(Val(s), |s|), Pow10(|s|))
  {
    hide Pow10, High, Low, RemainderClass, DigitClass;
    ValDrop(s, |s|);
    assert s[0..] == s;
    ValZeroIff(s[1..]);
    ReroundClass(s, Val(s[1..]));
  }

  lemma CutBeyond(s: seq<nat>, drop: nat, reround: nat)
    requires Digits(s) && |s| < drop
    requires reround == if AllEqual(s, 0) then 0 else Sticky(0)
    ensures High(Val(s), drop) == 0
    ensures DigitClass(reround) == RemainderClass(Low(Val(s), drop), Pow10(drop))
  {
    hide Val, Pow10, High, Low, RemainderClass, DigitClass;
    ValZeroIff(s);
    ValBound(s);
    Pow10Mono(|s|, drop);
    ShiftZero(drop);
    HighLowUnique(Val(s), drop, 0, Val(s));
    FarBelowClass(Val(s), |s|, drop);
  }

  /** Turns trailing nines into zeros, four at a time where possible, and stops at the first digit
      from the right that can take the carry. */
  method TurnNines(buf: array<nat>, umsd: nat, ulsd: nat) returns (ub: int)
    requires umsd <= ulsd < buf.Length
    modifies buf
    ensures umsd - 1 <= ub <= ulsd
    ensures forall k: nat :: k < buf.Length && !(ub < k <= ulsd) ==> buf[k] == old(buf[k])
    ensures forall k: nat :: ub < k <= ulsd ==> buf[k] == 0 && old(buf[k]) == 9
    ensures ub >= umsd ==> buf[ub] != 9
  {
    ub := ulsd;
    while ub - 3 >= umsd && buf[ub - 3] == 9 && buf[ub - 2] == 9 && buf[ub - 1] == 9 && buf[ub] == 9
      invariant umsd - 1 <= ub <= ulsd
      invariant forall k: nat :: k < buf.Length && !(ub < k <= ulsd) ==> buf[k] == old(buf[k])
      invariant forall k: nat :: ub < k <= ulsd ==> buf[k] == 0 && old(buf[k]) == 9
    {
      buf[ub - 3], buf[ub - 2], buf[ub - 1], buf[ub] := 0, 0, 0, 0;
      ub := ub - 4;
    }
    while ub >= umsd && buf[ub] == 9
      invariant umsd - 1 <= ub <= ulsd
      invariant forall k: nat :: k < buf.Length && !(ub < k <= ulsd) ==> buf[k] == old(buf[k])
      invariant forall k: nat :: ub < k <= ulsd ==> buf[k] == 0 && old(buf[k]) == 9
    {
      buf[ub] := 0;
      ub := ub - 1;
    }
  }

  /** Adds one to the coefficient in place; true when it was all nines, which become zeros. */
  method AddOne(buf: array<nat>, umsd: nat, ulsd: nat) returns (allNines: bool)
    requires umsd <= ulsd < buf.Length && Digits(buf[umsd..ulsd + 1])
    modifies buf
    ensures Digits(buf[umsd..ulsd + 1])
    ensures !allNines ==> Val(buf[umsd..ulsd + 1]) == old(Val(buf[umsd..ulsd + 1])) + 1
    ensures !allNines && (old(buf[umsd]) != 0 || umsd == ulsd) ==> buf[umsd] != 0
    ensures allNines ==> AllEqual(old(buf[umsd..ulsd + 1]), 9) && AllEqual(buf[umsd..ulsd + 1], 0)
  {
    hide Val;
    ghost var s := buf[umsd..ulsd + 1];
    var ub := TurnNines(buf, umsd, ulsd);
    allNines := ub < umsd;
    if !allNines {
      buf[ub] := buf[ub] + 1;
      CarryStops(s, buf[umsd..ulsd + 1], ub - umsd);
    }
  }

  lemma CarryStops(s: seq<nat>, t: seq<nat>, i: nat)
    requires |t| == |s| && i < |s| && t[i] == s[i] + 1 && s[i] != 9 && Digits(s)
    requires forall k: nat :: k < i ==> t[k] == s[k]
    requires forall k: nat :: i < k < |s| ==> s[k] == 9 && t[k] == 0
    ensures Val(t) == Val(s) + 1
    ensures Digits(t)
  {
    hide Val;
    assert t[..i] == s[..i];
    var n := |s| - i - 1;
    assert s[i..][1..] == s[i + 1..] && t[i..][1..] == t[i + 1..];
    CarryTail(s[i..], t[i..]);
    hide Shift;
    ValSplit(s, i);
    ValSplit(t, i);
  }

  lemma CarryTail(s: seq<nat>, t: seq<nat>)
    requires |t| == |s| >= 1 && t[0] == s[0] + 1
    requires AllEqual(s[1..], 9) && AllEqual(t[1..], 0)
    ensures Val(t) == Val(s) + 1
  {
    hide Val, Shift, Pow10;
    var n := |s| - 1;
    ValLeading(s);
    ValLeading(t);
    ValNines(s[1..]);
    ValZeros(t[1..]);
    ShiftSum(s[0], 1, n);
    ShiftOne(0, n);
  }

  /** A coefficient without leading zeros. */
  predicate Minimal(s: seq<nat>) {
    |s| >= 1 && Digits(s) && (s[0] != 0 || |s| == 1)
  }

  /** Increments the coefficient; an all-nines one becomes 1000..., one place up at full length and
      one digit longer below it. */
  method IncrementCoefficient(f: Format, buf: array<nat>, umsd: nat, ulsd: nat, exponent: int)
    returns (newlsd: nat, newexp: int)
    requires f.Valid() && umsd <= ulsd < buf.Length && Minimal(buf[umsd..ulsd + 1])
    requires ulsd - umsd + 1 <= f.pmax
    requires ulsd - umsd + 1 == f.pmax || ulsd + 1 < buf.Length || buf[umsd] == 0
    modifies buf
    ensures ulsd <= newlsd < buf.Length && newlsd - umsd + 1 <= f.pmax
    ensures Minimal(buf[umsd..newlsd + 1])
    ensures var c := old(Val(buf[umsd..ulsd + 1])) + 1;
            if c == Pow10(f.pmax)
            then 10 * Val(buf[umsd..newlsd + 1]) == c && newexp == exponent + 1
            else Val(buf[umsd..newlsd + 1]) == c && newexp == exponent
  {
    hide Val, Pow10;
    newlsd, newexp := ulsd, exponent;
    ghost var s := buf[umsd..ulsd + 1];
    var allNines := AddOne(buf, umsd, ulsd);
    if allNines {
      buf[umsd] := 1;
      AfterAllNines(s, buf[umsd..ulsd + 1]);
      if ulsd - umsd + 1 == f.pmax {
        newexp := exponent + 1;
      } else {
        Pow10Strict(|s|, f.pmax);
        newlsd := ulsd + 1;
        buf[newlsd] := 0;
        assert buf[umsd..newlsd + 1] == buf[umsd..ulsd + 1] + [0];
        ValAppendOne(buf[umsd..ulsd + 1], 0);
      }
    } else {
      ValBound(buf[umsd..ulsd + 1]);
      Pow10Mono(|s|, f.pmax);
    }
  }

  lemma AfterAllNines(s: seq<nat>, t: seq<nat>)
    requires |t| == |s| >= 1 && AllEqual(s, 9) && t[0] == 1 && AllEqual(t[1..], 0)
    ensures 10 * Val(t) == 10 * Pow10(|s| - 1) == Pow10(|s|) == Val(s) + 1
  {
    ValNines(s);
    ValLeading(t);
    ValZeros(t[1..]);
    ShiftOne(0, |s| - 1);
  }

  lemma ValAppendOne(s: seq<nat>, d: nat)
    ensures Val(s + [d]) == 10 * Val(s) + d
  {
    assert (s + [d])[..|s|] == s;
  }

  /** The end of the routine as a function of the rounded coefficient v of len digits: clamping a
      zero, overflow, fold-down, or nothing. */
  function HighEnd(f: Format, mode: Rounding, sign: bool, v: nat, len: nat, exponent: int): Outcome {
    if exponent > f.Etop() then
      if v == 0 then
        Outcome(Finite(sign, 0, f.Etop()), {})
      else if exponent + len - 1 > f.emax then
        Overflowed(f, mode, sign)
      else
        Outcome(Finite(sign, Shift(v, exponent - f.Etop()), f.Etop()), {})
    else
      Outcome(Finite(sign, v, exponent), {})
  }

  /** A zero takes the exponent asked for, as far as there is one. */
  lemma FinishZero(f: Format, mode: Rounding, sign: bool, e: int, e': int)
    requires f.Valid() && e' == if e < f.Qtiny() then f.Qtiny() else e
    ensures Scaled(0, e) == 0.0
    ensures HighEnd(f, mode, sign, 0, 1, e') == Round(f, mode, sign, Scaled(0, e), e)
  {
    assert Scaled(0, e) == 0.0 by {
      ZeroScale(e);
    }
  }

  /** A coefficient that needs no rounding keeps its exponent, or is folded down to the top one. */
  lemma FinishExact(f: Format, mode: Rounding, sign: bool, c: nat, len: nat, e: int)
    requires f.Valid() && HasLength(c, len) && len <= f.pmax && f.Qtiny() <= e
    ensures Scaled(c, e) > 0.0
    ensures HighEnd(f, mode, sign, c, len, e) == Round(f, mode, sign, Scaled(c, e), e)
  {
    var pad := if f.pmax - len < e - f.Qtiny() then f.pmax - len else e - f.Qtiny();
    PositiveScaled(c, e);
    TruncatesPadded(f, c, e, pad, len);
    hide Scale, Round, Toward, Shift, Pow10, Truncates;
    RoundTruncated(f, mode, sign, Scaled(c, e), e, Shift(c, pad), e - pad);
    if e > f.Etop() && e - pad <= f.Etop() {
      var fold := e - f.Etop();
      ShiftAdd(c, fold, pad - fold);
      ShiftPositive(c, fold);
      TowardPadded(Shift(c, fold), e - pad, pad - fold, f.Etop());
      TowardStop(Shift(c, fold), f.Etop());
    } else if e <= f.Etop() {
      TowardPadded(c, e - pad, pad, e);
      TowardStop(c, e);
    }
  }

  lemma PositiveScaled(c: nat, e: int)
    requires c > 0
    ensures Scaled(c, e) > 0.0
  {
    ScaledOrder(0, c, e);
    ZeroScale(e);
  }

  lemma ShiftPositive(c: nat, k: nat)
    requires c > 0
    ensures Shift(c, k) > 0
  {
    ShiftMono(0, c, k);
    ShiftZero(k);
  }

  lemma TowardStop(c: nat, q: int)
    ensures Toward(c, q, q) == (c, q)
  {
  }

  /** A coefficient cut at place q = e + drop is rounded there. */
  lemma FinishDropped(f: Format, mode: Rounding, sign: bool, c: nat, len: nat, e: int, drop: nat)
    requires f.Valid() && HasLength(c, len) && CutsAt(f, len, e, drop)
    ensures Scaled(c, e) > 0.0
    ensures Round(f, mode, sign, Scaled(c, e), e)
         == RoundAt(f, mode, sign, High(c, drop), e + drop, RemainderClass(Low(c, drop), Pow10(drop)),
                    High(c, drop) < Pow10(f.pmax - 1), e)
  {
    hide Scale, Round, Truncates, Pow10, High, Low, RoundAt, ResidueOf, Discarded, RemainderClass;
    Pow10Positive(len - 1);
    PositiveScaled(c, e);
    TruncatesScaled(f, c as real, c, e, drop, len);
    ResidueExact(c, e, drop);
    TinyByCoefficient(f, Scaled(c, e), High(c, drop), e + drop);
    RoundTruncated(f, mode, sign, Scaled(c, e), e, High(c, drop), e + drop);
  }

  /** The digits left after dropping, rounded up or not, and the high end of the routine together
      are RoundAt. */
  lemma FinishRounded(f: Format, mode: Rounding, sign: bool, c: nat, len: nat, q: int, r: Residue,
                      v: nat, len': nat, q': int, pref: int)
    requires f.Valid() && q >= f.Qtiny() && pref <= q && c < Pow10(f.pmax)
    requires q != f.Qtiny() ==> len == f.pmax && Pow10(f.pmax - 1) <= c
    requires r == Zero ==> c > 0 && v == c && len' == len && q' == q
    requires r != Zero ==> var c1 := if Increments(mode, sign, c, r) then c + 1 else c;
                           if c1 == Pow10(f.pmax) then 10 * v == c1 && q' == q + 1 else v == c1 && q' == q
    requires q' > f.Etop() ==> len' == f.pmax && v > 0
    ensures var flags := if r == Zero then {}
                         else {Inexact} + if c < Pow10(f.pmax - 1) then {Underflow} else {};
            var o := HighEnd(f, mode, sign, v, len', q');
            RoundAt(f, mode, sign, c, q, r, c < Pow10(f.pmax - 1), pref) == o.(flags := flags + o.flags)
  {
    hide Pow10, Toward, Increments, Shift;
    if r == Zero && q <= f.Etop() {
      TowardBack(c, q, if pref < f.Etop() then pref else f.Etop());
    }
  }

  lemma TowardBack(c: nat, q: int, target: int)
    requires target <= q
    ensures Toward(c, q, target) == (c, q)
  {
  }

  /** What becomes of a number without any digit: a zero, but one that the test for zero does not see, so that
      beyond emax + 1 it overflows. */
  function NothingEnd(f: Format, mode: Rounding, sign: bool, e: int): Outcome {
    if e - 1 > f.emax then Overflowed(f, mode, sign) else Outcome(Finite(sign, 0, Clamp(f, e)), {})
  }

  /** A number without any digit is rounded as a zero exactly up to exponent emax + 1. */
  lemma NothingIsZero(f: Format, mode: Rounding, sign: bool, e: int)
    requires f.Valid()
    ensures RoundScaled(f, mode, sign, 0, e) == Outcome(Finite(sign, 0, Clamp(f, e)), {})
    ensures NothingEnd(f, mode, sign, e) == RoundScaled(f, mode, sign, 0, e) <==> e <= f.emax + 1
  {
    ZeroScale(e);
  }

  /** The datum that is encoded: its digits and exponent, or an infinity. */
  function Datum(sign: bool, digits: seq<nat>, exp: int, infinite: bool): DecFloat {
    if infinite then Infinity(sign) else Finite(sign, Val(digits), exp)
  }

  /** It fits the encoding. */
  predicate Encodable(f: Format, digits: seq<nat>, exp: int, infinite: bool) {
    |digits| <= f.pmax && Digits(digits) && if infinite then digits == [0] else f.Qtiny() <= exp <= f.Etop()
  }

  /** Clamps, overflows or folds down the rounded coefficient and lays out the result. There may be no digit:
      then the test for a single zero fails, and folding down leaves zeros. */
  method LayOut(f: Format, buf: array<nat>, umsd: nat, ulsd: int, sign: bool, exponent: int, set': DecContext)
    returns (digits: seq<nat>, exp: int, infinite: bool)
    requires f.Valid() && umsd <= ulsd + 1 <= buf.Length && (umsd <= ulsd ==> Minimal(buf[umsd..ulsd + 1]))
    requires f.Qtiny() <= exponent && ulsd + 1 - umsd <= f.pmax
    modifies set'
    ensures var o := if ulsd < umsd then NothingEnd(f, old(set'.round), sign, exponent)
                     else HighEnd(f, old(set'.round), sign, Val(buf[umsd..ulsd + 1]), ulsd - umsd + 1, exponent);
            Datum(sign, digits, exp, infinite) == o.value && set'.status == old(set'.status) + o.flags
    ensures set'.round == old(set'.round) && Encodable(f, digits, exp, infinite)
  {
    hide Val, Pow10, Shift;
    var length := ulsd - umsd + 1;
    ghost var s := buf[umsd..ulsd + 1];
    if umsd <= ulsd {
      ZeroIsSingle(s);
    } else {
      NoDigitsShifted(s, exponent - f.Etop());
    }
    digits, exp, infinite := buf[umsd..ulsd + 1], exponent, false;
    if exponent > f.Etop() {
      if ulsd == umsd && buf[ulsd] == 0 {
        exp := f.Etop();
      } else if exponent + length - 1 > f.emax {
        set'.status := set'.status + {Overflow, Inexact};
        var needmax := match set'.round
          case Down => true
          case ZeroFiveUp => true
          case Ceiling => sign
          case Floor => !sign
          case _ => false;
        if !needmax {
          digits, infinite := [0], true;
        } else {
          digits, exp := seq(f.pmax, _ => 9), f.Etop();
          ValNines(digits);
        }
      } else {
        var shift := exponent - f.Etop();
        digits, exp := digits + seq(shift, _ => 0), exponent - shift;
        ValAppendZeros(s, seq(shift, _ => 0));
      }
    }
  }

  lemma NoDigitsShifted(s: seq<nat>, k: int)
    requires s == []
    ensures Val(s) == 0 && (k >= 0 ==> Shift(Val(s), k) == 0)
  {
    if k >= 0 {
      ShiftZero(k);
    }
  }

  lemma ZeroIsSingle(s: seq<nat>)
    requires Minimal(s)
    ensures Val(s) == 0 <==> |s| == 1 && s[0] == 0
    ensures Val(s) != 0 ==> HasLength(Val(s), |s|)
  {
    hide Val, Pow10, Shift;
    if s[0] != 0 {
      ValLeading(s);
    } else {
      assert s == [0];
      ValSingle(0);
    }
  }

  /** The state after rounding: the high end of the routine will deliver the reference result. */
  ghost predicate Rounded(f: Format, mode: Rounding, sign: bool, c: nat, e: int, flags: set<Flag>,
                          v: nat, len: nat, exponent: int)
    requires f.Valid()
  {
    var o := HighEnd(f, mode, sign, v, len, exponent);
    RoundScaled(f, mode, sign, c, e) == o.(flags := flags + o.flags)
  }

  /** The kept digits v, before any increment, at the place they were cut. */
  ghost predicate Kept(f: Format, c: nat, len: nat, e: int, drop: nat, reround: nat, v: nat, kept: nat) {
    && drop >= 1 && CutsAt(f, len, e, drop)
    && (if c == 0 then len == 1 else HasLength(c, len))
    && v == High(c, drop)
    && DigitClass(reround) == RemainderClass(Low(c, drop), Pow10(drop))
    && kept == (if drop < len then len - drop else 1)
    && (if v == 0 then kept == 1 else HasLength(v, kept))
    && (drop >= len ==> v == 0)
  }

  /** Nothing but zeros was dropped. */
  lemma RoundedExactly(f: Format, mode: Rounding, sign: bool, c: nat, len: nat, e: int, drop: nat, v: nat, kept: nat)
    requires f.Valid() && Kept(f, c, len, e, drop, 0, v, kept)
    ensures Rounded(f, mode, sign, c, e, {}, v, kept, e + drop)
  {
    hide RemainderClass, Scale, Round, High, Low, Shift, HighEnd, Pow10, RoundAt;
    HighLow(c, drop);
    if c == 0 {
      ShiftZero(drop);
      HighLowUnique(0, drop, 0, 0);
      FinishZero(f, mode, sign, e, e + drop);
    } else {
      ZeroRemainder(c, drop);
      FinishDropped(f, mode, sign, c, len, e, drop);
      KeptPrecision(f, c, len, e, drop, 0, v, kept);
      FinishRounded(f, mode, sign, v, kept, e + drop, Zero, v, kept, e + drop, e);
    }
  }

  lemma ZeroRemainder(c: nat, drop: nat)
    requires c > 0 && RemainderClass(Low(c, drop), Pow10(drop)) == Zero
    ensures High(c, drop) > 0
  {
    HighLow(c, drop);
    ShiftZero(drop);
  }

  /** How many digits are kept, and when they show that the result is tiny. */
  lemma KeptPrecision(f: Format, c: nat, len: nat, e: int, drop: nat, reround: nat, v: nat, kept: nat)
    requires f.Valid() && Kept(f, c, len, e, drop, reround, v, kept)
    ensures kept <= f.pmax && v < Pow10(f.pmax)
    ensures e + drop >= f.Qtiny() && drop >= 1
    ensures e + drop != f.Qtiny() ==> kept == f.pmax && Pow10(f.pmax - 1) <= v
    ensures v < Pow10(f.pmax - 1) <==> e + drop < f.Emin() && e + drop + kept - 1 < f.Emin()
    ensures c == 0 ==> reround == 0
  {
    hide High, Low, Pow10, RemainderClass;
    Pow10Mono(kept, f.pmax);
    if kept < f.pmax {
      Pow10Mono(kept, f.pmax - 1);
    }
    Pow10Positive(f.pmax - 1);
    if v == 0 {
      Pow10Positive(kept);
    }
    if c == 0 {
      ShiftZero(drop);
      Pow10Positive(drop);
      HighLowUnique(0, drop, 0, 0);
      ZeroClass(drop);
    }
  }

  lemma ZeroClass(drop: nat)
    ensures RemainderClass(0, Pow10(drop)) == Zero
  {
  }

  /** Something non-zero was dropped; v' is the coefficient after any increment. */
  lemma RoundedInexactly(f: Format, mode: Rounding, sign: bool, c: nat, len: nat, e: int, drop: nat, reround: nat,
                         v: nat, kept: nat, v': nat, len': nat, q': int, flags: set<Flag>)
    requires f.Valid() && Kept(f, c, len, e, drop, reround, v, kept) && reround != 0
    requires flags == {Inexact} + if e + drop < f.Emin() && e + drop + kept - 1 < f.Emin() then {Underflow} else {}
    requires var c1 := if NeedsIncrement(mode, sign, reround, v % 10) then v + 1 else v;
             if c1 == Pow10(f.pmax) then 10 * v' == c1 && q' == e + drop + 1 else v' == c1 && q' == e + drop
    requires kept <= len' <= f.pmax
    ensures Rounded(f, mode, sign, c, e, flags, v', len', q')
  {
    var r := DigitClass(reround);
    NeedsIncrementIsIncrements(mode, sign, reround, v, r);
    KeptPrecision(f, c, len, e, drop, reround, v, kept);
    FinishDropped(f, mode, sign, c, len, e, drop);
    Pow10Positive(f.pmax - 1);
    hide NeedsIncrement, Increments, RemainderClass, Scale, Round, High, Low, HighEnd, Pow10, RoundAt;
    InexactPlaces(f, e + drop, q');
    FinishRounded(f, mode, sign, v, kept, e + drop, r, v', len', q', e);
  }

  lemma InexactPlaces(f: Format, q: int, q': int)
    requires f.Valid() && q' <= q + 1
    ensures q' > f.Etop() ==> q > f.Qtiny()
  {
  }

  /** The rounding half of the routine: drops digits, raises Inexact and Underflow, increments. */
  method RoundCoefficient(f: Format, buf: array<nat>, umsd: nat, ulsd: nat, sign: bool, exponent: int,
                          drop: nat, set': DecContext)
    returns (newlsd: nat, newexp: int, ghost flags: set<Flag>)
    requires f.Valid() && umsd <= ulsd < buf.Length && Minimal(buf[umsd..ulsd + 1])
    requires drop >= 1 && CutsAt(f, ulsd - umsd + 1, exponent, drop)
    modifies buf, set'
    ensures umsd <= newlsd < buf.Length && Minimal(buf[umsd..newlsd + 1])
    ensures newlsd + 1 - umsd <= f.pmax && f.Qtiny() <= newexp
    ensures set'.status == old(set'.status) + flags && set'.round == old(set'.round)
    ensures Rounded(f, old(set'.round), sign, old(Val(buf[umsd..ulsd + 1])), exponent, flags,
                    Val(buf[umsd..newlsd + 1]), newlsd - umsd + 1, newexp)
  {
    hide Val, Pow10, High, Low, Rounded, RemainderClass, DigitClass, NeedsIncrement;
    ghost var c, len := Val(buf[umsd..ulsd + 1]), ulsd - umsd + 1;
    ZeroIsSingle(buf[umsd..ulsd + 1]);
    newexp := exponent + drop;
    flags := {};
    var reround;
    reround, newlsd := DropDigits(buf, umsd, ulsd, drop);
    ghost var v, kept := Val(buf[umsd..newlsd + 1]), newlsd - umsd + 1;
    ZeroIsSingle(buf[umsd..newlsd + 1]);
    assert Kept(f, c, len, exponent, drop, reround, v, kept);
    KeptPrecision(f, c, len, exponent, drop, reround, v, kept);
    if reround != 0 {
      set'.status := set'.status + {Inexact};
      flags := {Inexact};
      if newexp < f.Emin() && newexp + (newlsd - umsd + 1) - 1 < f.Emin() {
        set'.status := set'.status + {Underflow};
        flags := flags + {Underflow};
      }
      var increment := NeedsIncrement(set'.round, sign, reround, buf[newlsd]);
      LastDigit(buf[umsd..newlsd + 1]);
      if increment {
        newlsd, newexp := IncrementCoefficient(f, buf, umsd, newlsd, newexp);
      }
      RoundedInexactly(f, set'.round, sign, c, len, exponent, drop, reround, v, kept,
                       Val(buf[umsd..newlsd + 1]), newlsd - umsd + 1, newexp, flags);
    } else {
      RoundedExactly(f, set'.round, sign, c, len, exponent, drop, v, kept);
    }
  }

  lemma LastDigit(s: seq<nat>)
    requires |s| >= 1 && Digits(s)
    ensures Val(s) % 10 == s[|s| - 1]
  {
  }

  /** How many digits have to go. */
  function DropCount(f: Format, length: nat, exponent: int): int {
    if length - f.pmax > f.Qtiny() - exponent then length - f.pmax else f.Qtiny() - exponent
  }

  /** Rounds the number sign, buf[msd..lsd], exponent to the format: any length of digits, any exponent, any
      mode. A number without any digit is finished as NothingEnd says. */
  method DecFinalize(f: Format, buf: array<nat>, msd: nat, lsd: int, sign: bool, exponent: int, set': DecContext)
    returns (r: DecFloat)
    requires f.Valid() && msd <= lsd + 1 <= buf.Length && msd < buf.Length && Digits(buf[msd..lsd + 1])
    modifies buf, set'
    ensures var o := if lsd < msd then NothingEnd(f, old(set'.round), sign, exponent)
                     else RoundScaled(f, old(set'.round), sign, old(Val(buf[msd..lsd + 1])), exponent);
            r == o.value && set'.status == old(set'.status) + o.flags
    ensures set'.round == old(set'.round)
  {
    hide Val, RoundScaled, NothingEnd;
    var digits, exp, infinite := FinalDigits(f, buf, msd, lsd, sign, exponent, set');
    r := Datum(sign, digits, exp, infinite);
  }

  /** The same, up to the digits and the exponent to be encoded. */
  method FinalDigits(f: Format, buf: array<nat>, msd: nat, lsd: int, sign: bool, exponent: int, set': DecContext)
    returns (digits: seq<nat>, exp: int, infinite: bool)
    requires f.Valid() && msd <= lsd + 1 <= buf.Length && msd < buf.Length && Digits(buf[msd..lsd + 1])
    modifies buf, set'
    ensures var o := if lsd < msd then NothingEnd(f, old(set'.round), sign, exponent)
                     else RoundScaled(f, old(set'.round), sign, old(Val(buf[msd..lsd + 1])), exponent);
            Datum(sign, digits, exp, infinite) == o.value && set'.status == old(set'.status) + o.flags
    ensures set'.round == old(set'.round) && Encodable(f, digits, exp, infinite)
  {
    hide Val, Scaled, Round, HighEnd, Pow10, HasLength, Datum;
    var drop := DropCount(f, lsd - msd + 1, exponent);
    if lsd >= msd {
      digits, exp, infinite := FinalizeDigits(f, buf, msd, lsd, sign, exponent, set');
    } else if drop > 0 {
      // nothing is dropped that is not zero; the coefficient becomes a zero
      buf[msd] := 0;
      SingleZero(f, set'.round, sign, buf[msd..msd + 1], exponent + drop);
      digits, exp, infinite := LayOut(f, buf, msd, msd, sign, exponent + drop, set');
    } else {
      digits, exp, infinite := LayOut(f, buf, msd, lsd, sign, exponent, set');
    }
  }

  lemma SingleZero(f: Format, mode: Rounding, sign: bool, s: seq<nat>, e: int)
    requires f.Valid() && s == [0] && e == f.Qtiny()
    ensures Minimal(s) && HighEnd(f, mode, sign, Val(s), 1, e) == Outcome(Finite(sign, 0, e), {})
  {
    ValSingle(0);
  }

  method FinalizeDigits(f: Format, buf: array<nat>, msd: nat, lsd: nat, sign: bool, exponent: int, set': DecContext)
    returns (digits: seq<nat>, exp: int, infinite: bool)
    requires f.Valid() && msd <= lsd < buf.Length && Digits(buf[msd..lsd + 1])
    modifies buf, set'
    ensures var o := RoundScaled(f, old(set'.round), sign, old(Val(buf[msd..lsd + 1])), exponent);
            Datum(sign, digits, exp, infinite) == o.value && set'.status == old(set'.status) + o.flags
    ensures set'.round == old(set'.round) && Encodable(f, digits, exp, infinite)
  {
    hide Val, Scaled, Round, HighEnd, Pow10, HasLength, Datum;
    var umsd := SkipZeros(buf, msd, lsd);
    assert buf[msd..lsd + 1][umsd - msd..] == buf[umsd..lsd + 1];
    assert buf[msd..lsd + 1][..umsd - msd] == buf[msd..umsd];
    ValSkipZeros(buf[msd..lsd + 1], umsd - msd);
    ghost var c := Val(buf[umsd..lsd + 1]);
    var drop := DropCount(f, lsd - umsd + 1, exponent);
    if drop > 0 {
      var ulsd, newexp;
      ghost var flags;
      ulsd, newexp, flags := RoundCoefficient(f, buf, umsd, lsd, sign, exponent, drop, set');
      digits, exp, infinite := LayOut(f, buf, umsd, ulsd, sign, newexp, set');
    } else {
      FinishWhole(f, set'.round, sign, c, lsd - umsd + 1, exponent, buf[umsd..lsd + 1]);
      digits, exp, infinite := LayOut(f, buf, umsd, lsd, sign, exponent, set');
    }
  }

  lemma FinishWhole(f: Format, mode: Rounding, sign: bool, c: nat, len: nat, e: int, s: seq<nat>)
    requires f.Valid() && Minimal(s) && Val(s) == c && |s| == len && DropCount(f, len, e) <= 0
    ensures HighEnd(f, mode, sign, c, len, e) == RoundScaled(f, mode, sign, c, e)
  {
    hide Val, HighEnd, Scale, Pow10, Round;
    ZeroIsSingle(s);
    if c == 0 {
      FinishZero(f, mode, sign, e, e);
    } else {
      FinishExact(f, mode, sign, c, len, e);
    }
  }
}
