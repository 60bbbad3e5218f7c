/** Rescaling to a given exponent (decFloatQuantize, decBasic.c:2893-3178). */
module Quantize {
  import opened Arith
  import opened TenPowers
  import opened DecFloats
  import opened RoundingSpec
  import opened Truncation
  import opened Specials
  import opened Bcd
  import opened BcdCells
  import opened AddDigits
  import opened Finalize
  import opened Divide
  import opened IntegerDivision

  /** The multiple of 10^q that the rounding mode picks for the magnitude m, or invalid when its
      coefficient is too long (section 5.3.2 of IEEE 754-2008). */
  ghost function QuantizeTo(f: Format, mode: Rounding, sign: bool, m: real, q: int): Outcome
    requires m >= 0.0
  {
    ScaledDownNonNegative(m, q);
    var c := Scale(m, -q).Floor;
    var r := ResidueOf(Discarded(m, c, q));
    var c1 := if Increments(mode, sign, c, r) then c + 1 else c;
    if c1 >= Pow10(f.pmax) then Invalid()
    else Outcome(Finite(sign, c1, q), if r == Zero then {} else {Inexact})
  }

  lemma ScaledDownNonNegative(m: real, q: int)
    requires m >= 0.0
    ensures Scale(m, -q) >= 0.0
  {
    ScaleOrder(m, 0.0, -q);
    ZeroScale(-q);
  }

  /** The reference for all operands. */
  ghost function QuantizeSpec(f: Format, mode: Rounding, l: DecFloat, r: DecFloat): Outcome {
    if l.NaN? || r.NaN? then PropagateNaN(l, r)
    else if l.Infinity? != r.Infinity? then Invalid()
    else if l.Infinity? then Outcome(Infinity(l.sign), {})
    else
      MagnitudeNonNegative(l);
      QuantizeTo(f, mode, l.sign, l.Magnitude(), r.exp)
  }

  lemma MagnitudeNonNegative(x: DecFloat)
    requires x.Finite?
    ensures x.Magnitude() >= 0.0
  {
    ScaledNonNegative(x.coeff, x.exp);
  }

  /** Less than one unit away; at most half a unit in the nearest modes; on the right side in the directed
      ones; unchanged exactly when no flag is raised. */
  lemma QuantizeIsClose(f: Format, mode: Rounding, sign: bool, m: real, q: int)
    requires m >= 0.0 && QuantizeTo(f, mode, sign, m, q) != Invalid()
    ensures var o := QuantizeTo(f, mode, sign, m, q); var u := Scaled(1, q);
            && o.value.Finite? && o.value.exp == q && o.value.coeff < Pow10(f.pmax)
            && (var d := o.value.Magnitude() - m;
                && -u < d < u
                && (d == 0.0 <==> o.flags == {})
                && (mode == HalfEven || mode == HalfUp || mode == HalfDown ==> -u <= d + d <= u)
                && (mode == HalfEven && (d + d == u || d + d == -u) ==> o.value.coeff % 2 == 0)
                && (mode == Down || (mode == Floor && !sign) || (mode == Ceiling && sign) ==> d <= 0.0)
                && (mode == Up || (mode == Floor && sign) || (mode == Ceiling && !sign) ==> d >= 0.0))
  {
    hide Scale, Pow10;
    ScaledDownNonNegative(m, q);
    var y := Scale(m, -q);
    var c := y.Floor;
    var r := ResidueOf(Discarded(m, c, q));
    var c1 := if Increments(mode, sign, c, r) then c + 1 else c;
    var x := c1 as real - y;
    ScaleInverse(m, q);
    ScaleSum(c1 as real, y, q);
    ScaleSum(x, x, q);
    ZeroScale(q);
    ScaleSum(0.0, 1.0, q);
    OrderAround(x, q);
    OrderAround(x + x, q);
  }

  lemma OrderAround(x: real, q: int)
    ensures x < 1.0 <==> Scale(x, q) < Scale(1.0, q)
    ensures x == 1.0 <==> Scale(x, q) == Scale(1.0, q)
    ensures x < 0.0 <==> Scale(x, q) < 0.0
    ensures x == 0.0 <==> Scale(x, q) == 0.0
    ensures x > -1.0 <==> Scale(x, q) > -Scale(1.0, q)
    ensures x == -1.0 <==> Scale(x, q) == -Scale(1.0, q)
  {
    ZeroScale(q);
    hide Scale;
    ScaleSum(0.0, 1.0, q);
    ScaleOrder(x, 1.0, q);
    ScaleOrder(x, 0.0, q);
    ScaleOrder(-1.0, x, q);
  }

  // ---- from coefficients to the reference ----

  lemma FloorOfQuotient(c: nat, e: int, drop: nat)
    ensures Scale(Scaled(c, e), -(e + drop)).Floor == High(c, drop)
  {
    hide Scale, High;
    CutBrackets(c as real, c, e, drop);
    var m := Scaled(c, e);
    var y := Scale(m, -(e + drop));
    ScaleInverse(m, e + drop);
    ScaleOrder(y, High(c, drop) as real, e + drop);
    ScaleOrder(y, (High(c, drop) + 1) as real, e + drop);
  }

  lemma QuantizeDown(f: Format, mode: Rounding, sign: bool, c: nat, e: int, drop: nat, c1: nat)
    requires drop >= 1 && c < Pow10(f.pmax) && f.pmax >= 1
    requires var r := RemainderClass(Low(c, drop), Pow10(drop));
             c1 == if Increments(mode, sign, High(c, drop), r) then High(c, drop) + 1 else High(c, drop)
    ensures c1 < Pow10(f.pmax) && Scaled(c, e) >= 0.0
    ensures QuantizeTo(f, mode, sign, Scaled(c, e), e + drop)
         == Outcome(Finite(sign, c1, e + drop), if RemainderClass(Low(c, drop), Pow10(drop)) == Zero then {} else {Inexact})
  {
    hide *;
    ScaledNonNegative(c, e);
    FloorOfQuotient(c, e, drop);
    ResidueExact(c, e, drop);
    CutShortens(c, drop, f.pmax);
    QuantizeToUnfold(f, mode, sign, Scaled(c, e), e + drop, High(c, drop), RemainderClass(Low(c, drop), Pow10(drop)));
  }

  /** A number that loses digits has room for a carry. */
  lemma CutShortens(c: nat, drop: nat, p: nat)
    requires c < Pow10(p) && drop >= 1 && p >= 1
    ensures High(c, drop) + 1 < Pow10(p)
  {
    assert Pow10(p) == 10 * Pow10(p - 1);
    Pow10Positive(p - 1);
    hide Pow10, High;
    Pow10Mono(p, p - 1 + drop);
    HighBelow(c, drop, p - 1);
  }

  lemma QuantizeToUnfold(f: Format, mode: Rounding, sign: bool, m: real, q: int, c: nat, r: Residue)
    requires m >= 0.0 && Scale(m, -q).Floor == c && r == ResidueOf(Discarded(m, c, q)) && c + 1 < Pow10(f.pmax)
    ensures QuantizeTo(f, mode, sign, m, q)
         == Outcome(Finite(sign, if Increments(mode, sign, c, r) then c + 1 else c, q), if r == Zero then {} else {Inexact})
  {
    hide Scale, Increments, ResidueOf, Discarded;
  }

  lemma QuantizeUp(f: Format, mode: Rounding, sign: bool, c: nat, e: int, pad: nat)
    ensures Scaled(c, e) >= 0.0
    ensures QuantizeTo(f, mode, sign, Scaled(c, e), e - pad)
         == if Shift(c, pad) >= Pow10(f.pmax) then Invalid() else Outcome(Finite(sign, Shift(c, pad), e - pad), {})
  {
    hide Scale, Pow10, Shift;
    ScaledNonNegative(c, e);
    ScaledShift(c, e - pad, pad);
    ScaleInverse(Shift(c, pad) as real, e - pad);
  }

  /** When padding overflows the precision. */
  lemma PadFits(c: nat, pad: nat, p: nat)
    ensures pad <= p ==> (Shift(c, pad) < Pow10(p) <==> c < Pow10(p - pad))
    ensures pad > p ==> (Shift(c, pad) < Pow10(p) <==> c == 0)
  {
    hide Pow10, Shift;
    ShiftZero(pad);
    if pad <= p {
      ShiftOfPow10(p - pad, pad);
      ShiftMono(c, Pow10(p - pad), pad);
    } else if c > 0 {
      ShiftOne(c, pad);
      ShiftMono(1, c, pad);
      Pow10Mono(p, pad);
    } else {
      Pow10Positive(p);
    }
  }

  // ---- the buffer ----

  /** Rounds away the last drop digits of the coefficient at cells off..off + p, in place; zeros to the
      left make it pmax digits again, ending at the cell returned. */
  method RoundAway(p: nat, buf: array<nat>, off: nat, drop: nat, sign: bool, set': DecContext) returns (ulsd: nat)
    requires p >= 8 && off == 4 + p && buf.Length >= off + p && drop >= 1
    requires Digits(buf[off..off + p])
    modifies buf, set'
    ensures p <= ulsd + 1 <= buf.Length && set'.round == old(set'.round)
    ensures var c := old(Val(buf[off..off + p]));
            var r := RemainderClass(Low(c, drop), Pow10(drop));
            && Val(buf[ulsd + 1 - p..ulsd + 1]) == High(c, drop) + (if Increments(old(set'.round), sign, High(c, drop), r) then 1 else 0)
            && set'.status == old(set'.status) + (if r == Zero then {} else {Inexact})
  {
    hide Val, Pow10, High, Low, RemainderClass, DigitClass, NeedsIncrement, Increments, Digits;
    ghost var c := Val(buf[off..off + p]);
    ghost var s := buf[off..off + p];
    FourZeros(buf, off - 4);
    assert buf[off..off + p - 1 + 1] == s;
    var reround;
    reround, ulsd := DropDigits(buf, off, off + p - 1, drop);
    var increment := Decide(buf, off, ulsd, reround, sign, set'.round);
    LeadingZeroCell(buf, off - 1, off, ulsd);
    if reround != 0 {
      set'.status := set'.status + {Inexact};
    }
    if increment {
      RoomForOne(buf, off - 1, ulsd);
      AddOneIn(buf, off - 1, ulsd);
    }
    ghost var t := buf[off - 1..ulsd + 1];
    ClearLeft(buf, off, ulsd, drop, p);
    assert buf[off - 1..ulsd + 1] == t;
    LeftZeros(buf, ulsd + 1 - p, off - 1, ulsd + 1);
  }

  /** The rounding decision. */
  method Decide(buf: array<nat>, lo: nat, hi: nat, reround: nat, sign: bool, mode: Rounding) returns (increment: bool)
    requires lo <= hi < buf.Length && Digits(buf[lo..hi + 1])
    ensures increment == Increments(mode, sign, Val(buf[lo..hi + 1]), DigitClass(reround))
    ensures reround == 0 <==> DigitClass(reround) == Zero
    ensures reround == 0 ==> !increment
  {
    LastDigit(buf[lo..hi + 1]);
    NeedsIncrementIsIncrements(mode, sign, reround, Val(buf[lo..hi + 1]), DigitClass(reround));
    hide Val;
    increment := reround != 0 && NeedsIncrement(mode, sign, reround, buf[hi]);
  }

  /** A leading zero leaves room for a carry. */
  lemma RoomForOne(buf: array<nat>, lo: nat, hi: nat)
    requires lo <= hi < buf.Length && Digits(buf[lo..hi + 1]) && buf[lo] == 0
    ensures Val(buf[lo..hi + 1]) + 1 < Pow10(hi + 1 - lo)
  {
    var s := buf[lo..hi + 1];
    assert Pow10(|s|) == 10 * Pow10(|s| - 1);
    hide Val, Pow10;
    TailDigits(0, s[1..]);
    assert s == [0] + s[1..];
    ValSkipZeros(s, 1);
    ValBound(s[1..]);
  }

  method FourZeros(buf: array<nat>, at: nat)
    requires at + 4 <= buf.Length
    modifies buf
    ensures forall k: nat :: k < buf.Length ==> buf[k] == if at <= k < at + 4 then 0 else old(buf[k])
  {
    buf[at], buf[at + 1], buf[at + 2], buf[at + 3] := 0, 0, 0, 0;
  }

  /** Clears what is needed to the left, by fours; the four cells before off are already in order. */
  method ClearLeft(buf: array<nat>, off: nat, ulsd: nat, drop: nat, p: nat)
    requires p >= 8 && off == 4 + p && off <= ulsd < buf.Length && drop >= 1
    requires ulsd == if drop < p then off + p - 1 - drop else off
    requires forall k: nat :: off - 4 <= k < off - 1 ==> buf[k] == 0
    modifies buf
    ensures forall k: nat :: ulsd + 1 - p <= k < off - 1 ==> buf[k] == 0
    ensures forall k: nat :: off - 1 <= k < buf.Length ==> buf[k] == old(buf[k])
  {
    if drop > 4 {
      FourZeros(buf, off - 8);
      var uc := off - 12;
      while uc > ulsd - p - 3
        invariant uc >= ulsd - p - 6 && (off - uc) % 4 == 0 && uc <= off - 12
        invariant forall k: nat :: uc + 4 <= k < off - 1 ==> buf[k] == 0
        invariant forall k: nat :: off - 1 <= k < buf.Length ==> buf[k] == old(buf[k])
      {
        FourZeros(buf, uc);
        uc := uc - 4;
      }
    }
  }

  /** Zeros to the left do not change the value. */
  lemma LeftZeros(buf: array<nat>, lo: nat, mid: nat, hi: nat)
    requires lo <= hi <= buf.Length && mid <= hi
    requires forall k: nat :: lo <= k < mid ==> buf[k] == 0
    requires lo > mid ==> lo == mid + 1 && buf[mid] == 0
    ensures Val(buf[lo..hi]) == Val(buf[mid..hi])
  {
    hide Val;
    if lo <= mid {
      SliceOfSlice(buf, lo, hi, mid);
      ValSkipZeros(buf[lo..hi], mid - lo);
    } else {
      SliceOfSlice(buf, mid, hi, lo);
      ValSkipZeros(buf[mid..hi], 1);
    }
  }

  /** Whether the first n of four cells are zeros. */
  predicate ZerosAt(buf: array<nat>, at: int, n: int)
    requires 0 <= at && n <= 4 && at + 4 <= buf.Length
    reads buf
  {
    (n > 0 ==> buf[at] == 0) && (n > 1 ==> buf[at + 1] == 0) && (n > 2 ==> buf[at + 2] == 0) && (n > 3 ==> buf[at + 3] == 0)
  }

  /** Pads with zeros by fours, and looks whether the digits pushed out on the left are zeros; false when
      they are not. */
  method PadByFours(p: nat, buf: array<nat>, off: nat, pad: nat) returns (fits: bool)
    requires 1 <= pad < p && p >= 4 && off + p + pad + 3 < buf.Length
    modifies buf
    ensures fits <==> forall k: nat :: off <= k < off + pad ==> old(buf[k]) == 0
    ensures forall k: nat :: k < off + p ==> buf[k] == old(buf[k])
    ensures fits ==> forall k: nat :: off + p <= k < off + p + pad ==> buf[k] == 0
  {
    var uc := off + p;
    while true
      invariant off + p <= uc < off + p + pad && (uc - off - p) % 4 == 0
      invariant forall k: nat :: off + p <= k < uc ==> buf[k] == 0
      invariant forall k: nat :: off <= k < uc - p ==> buf[k] == 0
      invariant forall k: nat :: k < off + p ==> buf[k] == old(buf[k])
      decreases off + p + pad - uc
    {
      FourZeros(buf, uc);
      if !ZerosAt(buf, uc - p, 4) {
        if uc <= off + p + pad - 4 {
          return false;
        }
        if !ZerosAt(buf, uc - p, pad % 4) {
          return false;
        }
        break;
      }
      if uc >= off + p + pad - 4 {
        break;
      }
      uc := uc + 4;
    }
    return true;
  }

  /** A finite coefficient moved to another exponent. */
  method QuantizeFinite(f: Format, l: DecFloat, q: int, set': DecContext) returns (result: DecFloat)
    requires f.Basic() && l.Finite? && l.Fits(f)
    modifies set'
    ensures l.Magnitude() >= 0.0 && set'.round == old(set'.round)
    ensures var o := QuantizeTo(f, old(set'.round), l.sign, l.Magnitude(), q);
            result == o.value && set'.status == old(set'.status) + o.flags
  {
    hide Val, Pow10, High, Low, Shift, Digits, Scaled, QuantizeTo, RemainderClass, Increments;
    MagnitudeNonNegative(l);
    var p, drop := f.pmax, q - l.exp;
    if drop == 0 {
      QuantizeUp(f, set'.round, l.sign, l.coeff, l.exp, 0);
      ShiftZero(l.coeff);
      return l;
    }
    var buf, off := new nat[7 + 3 * p], 4 + p;
    LayDigits(l.coeff, buf, off, p);
    if drop > 0 {
      var ulsd := RoundAway(p, buf, off, drop, l.sign, set');
      result := Finite(l.sign, Val(buf[ulsd + 1 - p..ulsd + 1]), q);
      QuantizeDown(f, old(set'.round), l.sign, l.coeff, l.exp, drop, result.coeff);
    } else {
      QuantizeUp(f, set'.round, l.sign, l.coeff, l.exp, -drop);
      PadFits(l.coeff, -drop, p);
      result := QuantizePad(f, l, buf, off, -drop, set');
    }
  }

  /** Decodes the coefficient into cells that may hold anything before. */
  method LayDigits(c: nat, buf: array<nat>, at: nat, n: nat)
    requires at + n <= buf.Length && c < Pow10(n)
    modifies buf
    ensures Digits(buf[at..at + n]) && Val(buf[at..at + n]) == c
    ensures forall k: nat :: k < buf.Length && !(at <= k < at + n) ==> buf[k] == old(buf[k])
  {
    hide Val, Pow10, Shift;
    var rest, i: nat := c, n;
    assert buf[at + n..at + n] == [];
    NothingBelow(c);
    while i > 0
      invariant i <= n && Digits(buf[at + i..at + n])
      invariant Shift(rest, n - i) + Val(buf[at + i..at + n]) == c
      invariant forall k: nat :: k < buf.Length && !(at + i <= k < at + n) ==> buf[k] == old(buf[k])
    {
      ghost var t := buf[at + i..at + n];
      buf[at + i - 1] := rest % 10;
      PrependDigit(t, rest);
      assert buf[at + i - 1..at + n] == [rest % 10] + t;
      rest := rest / 10;
      i := i - 1;
    }
    ShiftOne(0, n);
    ShiftMono(1, rest, n);
    ShiftZero(n);
  }

  /** Padding on the right: invalid when the coefficient does not fit any more. */
  method QuantizePad(f: Format, l: DecFloat, buf: array<nat>, off: nat, pad: nat, set': DecContext) returns (result: DecFloat)
    requires f.Basic() && l.Finite? && l.Fits(f) && pad >= 1 && off == 4 + f.pmax && buf.Length == 7 + 3 * f.pmax
    requires Digits(buf[off..off + f.pmax]) && Val(buf[off..off + f.pmax]) == l.coeff
    modifies buf, set'
    ensures set'.round == old(set'.round)
    ensures var o := if Shift(l.coeff, pad) >= Pow10(f.pmax) then Invalid()
                     else Outcome(Finite(l.sign, Shift(l.coeff, pad), l.exp - pad), {});
            result == o.value && set'.status == old(set'.status) + o.flags
  {
    hide Val, Pow10, Shift, Digits;
    var p := f.pmax;
    PadFits(l.coeff, pad, p);
    ghost var s := buf[off..off + p];
    if pad > p - 1 {
      var zero := AllZero(buf, off, p);
      ValZeroIff(s);
      if !zero {
        AtPrecision(l.coeff, pad, p);
        result := Deliver(Invalid(), set');
      } else {
        ShiftZero(pad);
        result := Finite(l.sign, Val(buf[off..off + p]), l.exp - pad);
      }
      return;
    }
    var fits := PadByFours(p, buf, off, pad);
    assert buf[off..off + p] == s;
    PushedOut(buf, off, p, pad);
    if !fits {
      result := Deliver(Invalid(), set');
    } else {
      PaddedShift(buf, off, p, pad);
      var ulsd := off + p + pad - 1;
      result := Finite(l.sign, Val(buf[ulsd + 1 - p..ulsd + 1]), l.exp - pad);
    }
  }

  lemma AtPrecision(c: nat, pad: nat, p: nat)
    requires c > 0 && pad >= p
    ensures Shift(c, pad) >= Pow10(p)
  {
    hide Pow10, Shift;
    ShiftOne(c, pad);
    ShiftMono(1, c, pad);
    Pow10Mono(p, pad);
  }

  /** The digits pushed out decide whether the number fits. */
  lemma PushedOut(buf: array<nat>, off: nat, p: nat, pad: nat)
    requires pad <= p && off + p <= buf.Length && Digits(buf[off..off + p])
    ensures (forall k: nat :: off <= k < off + pad ==> buf[k] == 0) <==> Val(buf[off..off + p]) < Pow10(p - pad)
  {
    hide Val, Pow10, High;
    var s := buf[off..off + p];
    var top := s[..pad];
    ValDrop(s, p - pad);
    ValZeroIff(top);
    HighBelow(Val(s), p - pad, 0);
    Pow10One();
    assert |top| == pad && forall k: nat :: k < pad ==> top[k] == buf[off + k];
    if AllEqual(top, 0) {
      forall k: nat | off <= k < off + pad
        ensures buf[k] == 0
      {
        assert top[k - off] == 0;
      }
    }
  }

  /** Those that stay, with the padding, are the shifted coefficient. */
  lemma PaddedShift(buf: array<nat>, off: nat, p: nat, pad: nat)
    requires pad <= p && off + p + pad <= buf.Length
    requires forall k: nat :: off <= k < off + pad ==> buf[k] == 0
    requires forall k: nat :: off + p <= k < off + p + pad ==> buf[k] == 0
    ensures Val(buf[off + pad..off + p + pad]) == Shift(Val(buf[off..off + p]), pad)
  {
    hide Val, Shift;
    var z := buf[off + p..off + p + pad];
    LeftZeros(buf, off, off + pad, off + p);
    assert buf[off + pad..off + p + pad] == buf[off + pad..off + p] + z;
    ValAppendZeros(buf[off + pad..off + p], z);
  }

  /** Rescaling a decFloat to the exponent of another. */
  method DecFloatQuantize(f: Format, l: DecFloat, r: DecFloat, set': DecContext) returns (result: DecFloat)
    requires f.Basic() && l.Fits(f) && r.Fits(f)
    modifies set'
    ensures var o := QuantizeSpec(f, old(set'.round), l, r);
            result == o.value && set'.status == old(set'.status) + o.flags
    ensures set'.round == old(set'.round)
  {
    hide Scaled, QuantizeTo, Pow10;
    if l.NaN? || r.NaN? {
      result := Deliver(PropagateNaN(l, r), set');
    } else if l.Infinity? != r.Infinity? {
      result := Deliver(Invalid(), set');
    } else if l.Infinity? {
      result := Infinity(l.sign);
    } else {
      result := QuantizeFinite(f, l, r.exp, set');
    }
  }
}
