/** The decimal formats, the values a decFloat can hold, and the context an operation runs in. */
module DecFloats {
  import opened Arith
  import opened TenPowers

  /** The eight rounding attributes (decContext.h:61-70). */
  datatype Rounding = Ceiling | Up | HalfUp | HalfEven | HalfDown | Down | Floor | ZeroFiveUp

  datatype Flag =
    | Clamped
    | ConversionSyntax
    | DivisionByZero
    | DivisionImpossible
    | DivisionUndefined
    | Inexact
    | InvalidOperation
    | Overflow
    | Underflow

  /** The parameters of a fixed-size format: precision and greatest adjusted exponent. */
  datatype Format = Format(pmax: nat, emax: int) {
    predicate Valid() {
      2 <= pmax && 1 <= emax && pmax < 9 * Units()
    }

    /** What decDouble and decQuad have in common, and the code relies on. */
    predicate Basic() {
      Valid() && 8 <= pmax && pmax % 3 == 1 && Units() <= 4 && 2 * pmax <= emax
    }

    /** DECPMAX9: base-billion units in an operand. */
    function Units(): nat {
      (pmax + 8) / 9
    }

    function Emin(): int {
      1 - emax
    }

    /** The least exponent of a coefficient, DECQTINY. */
    function Qtiny(): int {
      Emin() - (pmax - 1)
    }

    /** The greatest exponent of a coefficient. */
    function Etop(): int {
      emax - (pmax - 1)
    }
  }

  const DOUBLE := Format(16, 384)
  const QUAD := Format(34, 6144)

  lemma FormatsValid()
    ensures DOUBLE.Basic() && DOUBLE.Emin() == -383 && DOUBLE.Qtiny() == -398 && DOUBLE.Units() == 2
    ensures QUAD.Basic() && QUAD.Emin() == -6143 && QUAD.Qtiny() == -6176 && QUAD.Units() == 4
  {
  }

  /** A decFloat, decoded. */
  datatype DecFloat =
    | Finite(sign: bool, coeff: nat, exp: int)
    | Infinity(sign: bool)
    | NaN(sign: bool, signaling: bool, payload: nat)
  {
    /** The datum fits the format. */
    predicate Fits(f: Format) {
      match this
      case Finite(_, c, e) => c < Pow10(f.pmax) && f.Qtiny() <= e <= f.Etop()
      case Infinity(_) => true
      case NaN(_, _, p) => f.pmax >= 1 && p < Pow10(f.pmax - 1)
    }

    predicate IsZero() {
      Finite? && coeff == 0
    }

    /** The magnitude of a finite datum. */
    function Magnitude(): real
      requires Finite?
    {
      Scaled(coeff, exp)
    }

    /** The value of a finite datum. */
    function Value(): real
      requires Finite?
    {
      if sign then -Magnitude() else Magnitude()
    }
  }

  /** decContext: the rounding mode and the sticky status bits. */
  class DecContext {
    var round: Rounding
    var status: set<Flag>

    constructor (mode: Rounding)
      ensures round == mode && status == {}
    {
      round := mode;
      status := {};
    }
  }
}
