/** Correct rounding of a real number to a decimal format, as section 4.3 of IEEE 754-2008 defines
    it: the reference against which every operation is proved. */
module RoundingSpec {
  import opened Arith
  import opened TenPowers
  import opened DecFloats

  /** Where the discarded part of a coefficient lies in [0, 1). */
  datatype Residue = Zero | BelowHalf | Half | AboveHalf

  /** What an operation delivers: the datum and the flags it raises. */
  datatype Outcome = Outcome(value: DecFloat, flags: set<Flag>)

  function ResidueOf(y: real): Residue {
    if y == 0.0 then Zero else if y < 0.5 then BelowHalf else if y == 0.5 then Half else AboveHalf
  }

  /** Whether the coefficient c of the truncated magnitude goes up by one. */
  predicate Increments(mode: Rounding, sign: bool, c: nat, r: Residue) {
    match mode
    case Down => false
    case Up => r != Zero
    case Ceiling => r != Zero && !sign
    case Floor => r != Zero && sign
    case HalfUp => r == Half || r == AboveHalf
    case HalfDown => r == AboveHalf
    case HalfEven => r == AboveHalf || (r == Half && c % 2 == 1)
    case ZeroFiveUp => r != Zero && c % 5 == 0
  }

  /** c * 10^q is m cut off at the precision of the format: at full precision, or at the least
      exponent there is. */
  predicate Truncates(f: Format, m: real, c: nat, q: int) {
    && f.Qtiny() <= q
    && c < Pow10(f.pmax)
    && (q == f.Qtiny() || (f.pmax >= 1 && Pow10(f.pmax - 1) <= c))
    && Scaled(c, q) <= m < Scaled(c + 1, q)
  }

  /** Moves trailing zeros of a coefficient into the exponent, as far as the exponent wanted. */
  function Toward(c: nat, q: int, target: int): (nat, int)
    decreases c
  {
    if q < target && c > 0 && c % 10 == 0 then Toward(c / 10, q + 1, target) else (c, q)
  }

  /** The result of an overflow: Infinity, or the greatest finite number where the mode rounds
      towards zero. */
  function Overflowed(f: Format, mode: Rounding, sign: bool): Outcome {
    var finite := mode == Down || mode == ZeroFiveUp || (mode == Ceiling && sign) || (mode == Floor && !sign);
    Outcome(if finite then Finite(sign, Pow10(f.pmax) - 1, f.Etop()) else Infinity(sign),
            {Overflow, Inexact})
  }

  /** The part of the magnitude m beyond c * 10^q, in units of 10^q. */
  function Discarded(m: real, c: nat, q: int): real {
    Scale(m, -q) - c as real
  }

  /** Rounding once the place q of the last digit is known. */
  function RoundAt(f: Format, mode: Rounding, sign: bool, c: nat, q: int, r: Residue, tiny: bool, pref: int): Outcome {
    if r == Zero then
      if q > f.Etop() then
        Overflowed(f, mode, sign)
      else
        var (c', q') := Toward(c, q, if pref < f.Etop() then pref else f.Etop());
        Outcome(Finite(sign, c', q'), {})
    else
      var c1 := if Increments(mode, sign, c, r) then c + 1 else c;
      var (c2, q2) := if c1 == Pow10(f.pmax) then (c1 / 10, q + 1) else (c1, q);
      if q2 > f.Etop() then
        Overflowed(f, mode, sign)
      else
        Outcome(Finite(sign, c2, q2), {Inexact} + if tiny then {Underflow} else {})
  }

  function Clamp(f: Format, q: int): int {
    if q < f.Qtiny() then f.Qtiny() else if q > f.Etop() then f.Etop() else q
  }

  /** The magnitude m >= 0 with a sign, rounded once; pref is the exponent wanted when the result
      is exact. */
  ghost function Round(f: Format, mode: Rounding, sign: bool, m: real, pref: int): Outcome
    requires f.Valid() && m >= 0.0
  {
    if m == 0.0 then
      Outcome(Finite(sign, 0, Clamp(f, pref)), {})
    else
      TruncationExists(f, m);
      var c: nat, q: int :| Truncates(f, m, c, q);
      RoundAt(f, mode, sign, c, q, ResidueOf(Discarded(m, c, q)), m < Ten(f.Emin()), pref)
  }

  /** Truncating is unambiguous. */
  lemma TruncationUnique(f: Format, m: real, c: nat, q: int, c': nat, q': int)
    requires f.Valid() && Truncates(f, m, c, q) && Truncates(f, m, c', q')
    ensures c == c' && q == q'
  {
    TruncationPlace(f, m, c, q, c', q');
    TruncationPlace(f, m, c', q', c, q);
    hide Scaled, Pow10;
    ScaledOrder(c, c' + 1, q);
    ScaledOrder(c', c + 1, q);
  }

  /** A full-precision coefficient at a higher place is beyond the reach of any lower place. */
  lemma TruncationPlace(f: Format, m: real, c: nat, q: int, c': nat, q': int)
    requires f.Valid() && Truncates(f, m, c, q) && Truncates(f, m, c', q')
    ensures q' <= q
  {
    if q < q' {
      hide Scaled, Pow10;
      var k := q' - q;
      ScaledShift(c', q, k);
      ScaledOrder(Shift(c', k), c + 1, q);
      FullPrecisionShift(f.pmax, c', k);
    }
  }

  lemma FullPrecisionShift(p: nat, c: nat, k: nat)
    requires p >= 1 && k >= 1 && c >= Pow10(p - 1)
    ensures Shift(c, k) >= Pow10(p)
  {
    hide Pow10, Shift;
    ShiftMono(Pow10(p - 1), c, k);
    ShiftOfPow10(p - 1, k);
    Pow10Mono(p, p - 1 + k);
  }

  lemma Pow10One()
    ensures Pow10(0) == 1 && Pow10(1) == 10
  {
  }

  /** Every positive magnitude has a truncation. */
  lemma TruncationExists(f: Format, m: real)
    requires f.Valid() && m > 0.0
    ensures exists c: nat, q: int :: Truncates(f, m, c, q)
  {
    hide Truncates;
    var n := m.Floor + 1;
    var q := (if n > f.Qtiny() then n else f.Qtiny());
    assert m < Ten(f.pmax + q) by {
      LargeTen(m, n);
      TenMono(n, f.pmax + q);
    }
    TruncationFrom(f, m, q);
  }

  lemma LargeTen(m: real, n: int)
    requires m > 0.0 && n == m.Floor + 1
    ensures m < Ten(n)
  {
    TenNat(n);
    Pow10Exceeds(n);
  }

  /** Walks down from a place above the truncation. */
  lemma {:induction false} TruncationFrom(f: Format, m: real, q: int)
    requires f.Valid() && m > 0.0 && q >= f.Qtiny() && m < Ten(f.pmax + q)
    ensures exists c: nat, q: int :: Truncates(f, m, c, q)
    decreases q - f.Qtiny()
  {
    var c := Scale(m, -q).Floor;
    FloorOfScaled(m, q, f.pmax, c);
    if q > f.Qtiny() && c < Pow10(f.pmax - 1) {
      assert m < Ten(f.pmax + (q - 1)) by {
        ScaledOfPow10(f.pmax - 1, q);
        ScaledOrder(c + 1, Pow10(f.pmax - 1), q);
      }
      TruncationFrom(f, m, q - 1);
    } else {
      assert Truncates(f, m, c, q);
    }
  }

  lemma ScaledOfPow10(k: nat, q: int)
    ensures Scaled(Pow10(k), q) == Ten(k + q)
  {
    hide Ten, Times;
    TenNat(k);
    TenAdd(k, q);
  }

  /** Cutting m off at place q. */
  lemma FloorOfScaled(m: real, q: int, p: nat, c: int)
    requires m > 0.0 && m < Ten(p + q) && c == Scale(m, -q).Floor
    ensures 0 <= c < Pow10(p)
    ensures Scaled(c, q) <= m < Scaled(c + 1, q)
  {
    hide Scale, Pow10;
    var y := Scale(m, -q);
    ScaleInverse(m, q);
    ScaleOrder(0.0, y, q);
    ZeroScale(q);
    ScaleOrder(y, c as real, q);
    ScaleOrder(y, (c + 1) as real, q);
    ScaledOfPow10(p, q);
    ScaledOrder(c, Pow10(p), q);
  }

  lemma ZeroScale(q: int)
    ensures Scale(0.0, q) == 0.0
  {
  }

  /** Round, once a truncation is known. */
  lemma RoundTruncated(f: Format, mode: Rounding, sign: bool, m: real, pref: int, c: nat, q: int)
    requires f.Valid() && m > 0.0 && Truncates(f, m, c, q)
    ensures Round(f, mode, sign, m, pref)
         == RoundAt(f, mode, sign, c, q, ResidueOf(Discarded(m, c, q)), m < Ten(f.Emin()), pref)
  {
    hide Truncates, RoundAt, Discarded;
    TruncationExists(f, m);
    var c': nat, q': int :| Truncates(f, m, c', q')
      && Round(f, mode, sign, m, pref)
         == RoundAt(f, mode, sign, c', q', ResidueOf(Discarded(m, c', q')), m < Ten(f.Emin()), pref);
    TruncationUnique(f, m, c, q, c', q');
  }

  lemma ScaledNonNegative(c: nat, e: int)
    ensures Scaled(c, e) >= 0.0
    ensures c > 0 <==> Scaled(c, e) > 0.0
  {
    ScaledOrder(0, c, e);
    ZeroScale(e);
  }

  /** The number c * 10^e rounded; e is also the exponent wanted. */
  ghost function RoundScaled(f: Format, mode: Rounding, sign: bool, c: nat, e: int): Outcome
    requires f.Valid()
  {
    ScaledNonNegative(c, e);
    Round(f, mode, sign, Scaled(c, e), e)
  }

  /** A real number of either sign rounded once; zeroSign is the sign of an exact zero. */
  ghost function RoundSigned(f: Format, mode: Rounding, zeroSign: bool, v: real, pref: int): Outcome
    requires f.Valid()
  {
    if v == 0.0 then Round(f, mode, zeroSign, 0.0, pref)
    else if v < 0.0 then Round(f, mode, true, -v, pref)
    else Round(f, mode, false, v, pref)
  }

  function Signed(sign: bool, m: real): real {
    if sign then -m else m
  }
}
