/** NaN operands and invalid operations (decInvalid and decNaNs, decBasic.c:3561-3617). */
module Specials {
  import opened DecFloats
  import opened RoundingSpec

  function Invalid(): Outcome {
    Outcome(NaN(false, false, 0), {InvalidOperation})
  }

  predicate IsSignaling(x: DecFloat) {
    x.NaN? && x.signaling
  }

  /** A signalling NaN comes first, the left one before the right one, and is quieted. */
  function PropagateNaN(l: DecFloat, r: DecFloat): Outcome
    requires l.NaN? || r.NaN?
  {
    var pick := if IsSignaling(r) && !IsSignaling(l) then r else if IsSignaling(l) || l.NaN? then l else r;
    Outcome(NaN(pick.sign, false, pick.payload), if pick.signaling then {InvalidOperation} else {})
  }
}
