/** 32-bit words: wrap-around, the high half of a product, and the division of a double word by
    10^9 by multiplication with a reciprocal (Clark and Cowlishaw). */
module Words {

  /** The low 32 bits, of negative numbers too (two's complement). */
  function Low32(x: int): (r: nat)
    ensures r < 0x1_0000_0000
    ensures 0 <= x < 0x1_0000_0000 ==> r == x
  {
    x % 0x1_0000_0000
  }

  lemma Low32Difference(a: int, b: int)
    ensures Low32(Low32(a) - Low32(b)) == Low32(a - b)
  {
  }

  /** Shifts to the right. */
  function Shr29(x: nat): nat { x / 0x2000_0000 }

  function Shr30(x: nat): nat { x / 0x4000_0000 }

  function Shr31(x: nat): nat { x / 0x8000_0000 }

  /** The high word of a double word. */
  function HighWord(x: nat): nat { x / 0x1_0000_0000 }

  /** hop is x/2^29, the estimate hop * floor(2^61/10^9) / 2^32: it is low by at most one. */
  lemma ReciprocalEstimate29(x: nat, hop: nat, est: nat)
    requires x < 4_000_000_000_000_000_000
    requires hop == Shr29(x) && est == HighWord(hop * 2305843009)
    ensures 0 <= x - est * 1_000_000_000 < 2_000_000_000
    ensures x < 2_000_000_000_000_000_000 ==> hop < 0x1_0000_0000 && est < 0x1_0000_0000
  {
  }

  /** The same with the shifts for four-unit operands: low by at most two. */
  lemma ReciprocalEstimate30(x: nat, hop: nat, est: nat)
    requires x < 4_000_000_000_000_000_000
    requires hop == Shr30(x) && est == Shr31(hop * 2305843009)
    ensures 0 <= x - est * 1_000_000_000 < 3_000_000_000
    ensures hop < 0x1_0000_0000 && est < 0x1_0000_0000
  {
  }
}
