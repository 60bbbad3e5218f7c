/** The variable-length decNumber: digits in units of three, least significant first (decNumber.h:66-89). */
module DecNumbers {
  import opened Arith
  import opened Truncation
  import opened DecFloats
  import opened Declets

  datatype Kind = FiniteNumber | InfiniteNumber | QuietNaN | SignalingNaN

  /** D2U: units for that many digits. */
  function UnitsFor(digits: nat): nat {
    (digits + 2) / 3
  }

  class DecNumber {
    var digits: nat
    var exponent: int
    var negative: bool
    var kind: Kind
    const lsu: array<nat>

    constructor (units: nat)
      requires units >= 1
      ensures fresh(lsu) && lsu.Length == units
      ensures Valid() && Coefficient() == 0 && exponent == 0 && !negative && kind == FiniteNumber
    {
      digits, exponent, negative, kind := 1, 0, false, FiniteNumber;
      lsu := new nat[units](_ => 0);
      new;
      ZeroUnit(lsu);
    }

    /** Units of three digits, and no leading zeros: the digit count is that of the number. */
    ghost predicate Valid()
      reads this, lsu
    {
      && 1 <= digits && UnitsFor(digits) <= lsu.Length
      && Thousands(lsu[..UnitsFor(digits)])
      && NumDigits(NumThou(lsu[..UnitsFor(digits)])) == digits
    }

    ghost function Coefficient(): nat
      requires UnitsFor(digits) <= lsu.Length
      reads this, lsu
    {
      NumThou(lsu[..UnitsFor(digits)])
    }

    /** The number held, as a datum. */
    ghost function View(): DecFloat
      requires UnitsFor(digits) <= lsu.Length
      reads this, lsu
    {
      match kind
      case FiniteNumber => Finite(negative, Coefficient(), exponent)
      case InfiniteNumber => Infinity(negative)
      case QuietNaN => NaN(negative, false, Coefficient())
      case SignalingNaN => NaN(negative, true, Coefficient())
    }

    /** decNumberZero */
    method Zero()
      requires lsu.Length >= 1
      modifies this, lsu
      ensures Valid() && Coefficient() == 0 && exponent == 0 && !negative && kind == FiniteNumber && digits == 1
    {
      digits, exponent, negative, kind := 1, 0, false, FiniteNumber;
      lsu[0] := 0;
      ZeroUnit(lsu);
    }
  }

  lemma ZeroUnit(lsu: array<nat>)
    requires lsu.Length >= 1 && lsu[0] == 0
    ensures UnitsFor(1) == 1 && Thousands(lsu[..1]) && NumThou(lsu[..1]) == 0 && NumDigits(0) == 1
  {
    assert lsu[..1] == [0];
    assert NumThou([0]) == 0 + 1000 * NumThou([]);
  }

  /** Unit i holds digits 3 * i .. 3 * i + 2. */
  lemma {:induction false} UnitAt(s: seq<nat>, i: nat)
    requires Thousands(s) && i < |s|
    ensures High(NumThou(s), 3 * i) == s[i] + 1000 * NumThou(s[i + 1..])
  {
    if i == 0 {
      assert NumThou(s) == s[0] + 1000 * NumThou(s[1..]);
    } else {
      UnitAt(s[1..], i - 1);
      assert s[1..][i - 1 + 1..] == s[i + 1..];
      ThreeOff(s[0], NumThou(s[1..]), 3 * i - 3);
    }
  }

  /** Dropping a whole unit. */
  lemma ThreeOff(u: nat, rest: nat, k: nat)
    requires u < 1000
    ensures High(u + 1000 * rest, k + 3) == High(rest, k)
  {
    var c := u + 1000 * rest;
    assert High(c, k + 3) == High(c / 10, k + 2) == High(c / 10 / 10, k + 1) == High(c / 10 / 10 / 10, k);
    UnitOff(u, rest);
  }

  lemma UnitOff(u: nat, rest: nat)
    requires u < 1000
    ensures (u + 1000 * rest) / 10 / 10 / 10 == rest
  {
    var c := u + 1000 * rest;
    TenTenTen(c);
    DivModUnique(c, 1000, rest, u);
  }
}
