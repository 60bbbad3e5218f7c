# Decimal arithmetic and the CRC-32 forcer: a Dafny model

This project models two components of the calculator and proves what they compute.

**The fixed-size decimal core.** `decBasic.c` and `decCommon.c` implement decFloat, the 16- and 34-digit
decimal floating-point types of IEEE 754-2008, and beside them stand the converters `decimal64.c`,
`decimal128.c` and `decPacked.c`. The model has three layers.

1. `RoundingSpec` is the reference: `Round` takes a real magnitude, a sign, one of eight rounding modes and
   a wanted exponent, and says which datum results and which flags are raised. `RoundingLaws` shows that this
   is the rounding of section 4.3 of IEEE 754-2008, by comparison with all numbers of the format, and that
   exact results have the exponent nearest the wanted one.
2. The routines are methods over arrays, as in C: digit cells (`Bcd`, `BcdCells`, `BcdWords`), units of base
   10^9 (`BaseBillion`, `LongDivision`, `LongDivisionLoop`, `Multiply`, `Multiply32`), units of base 1000
   (`Declets`), characters (`ToText`, `FromText`), words and bytes (`BitFields`, `Dpd`, `Decimal128`,
   `PackedDecimal`, `QuadBits`, `QuadUnits`, `FinalizeQuad`, `Wider`). Each method states the value it leaves behind.
3. The operations (`Divide`, `Add`, `Fma`, `Remainder`, `Quantize`, ...) are proved to deliver the reference
   rounding of the exact result, for all operands, all modes and both formats. Lemmas connect the two, above
   all those that say when a sticky digit may stand for what is discarded. `OperationLaws` states the results on
   signed values, `TextForm` what printed numbers look like, and `Grammar` which strings are numbers.

A `Format` gives precision and exponent range; `DOUBLE` and `QUAD` are its two instances, and the operations
are proved for both at once. A `DecFloat` is the decoded datum; `Interchange`, `QuadBits`, `FinalizeQuad` and `Wider`
relate it to the bits. `DecContext` holds the rounding mode and the sticky status.

**The CRC-32 forcer.** `forcecrc32.c` changes four bytes of a file so that its CRC becomes a given one.
Polynomials over GF(2) are naturals (`Gf2Poly`), reduced modulo the generator in `CrcField`; `CrcRegister`
shows that the shift register is linear, `CrcMeaning` and `CrcCheckValue` that it computes the CRC-32;
`Crc32Forcer` holds the routines.

Four results say where the code is not what it promises.

- `FmaLimits.FmaCorrectIff`: the fused multiply-add reduces a far addend to one digit when the leading digits
  are more than pmax + 2 places apart. A product may be longer than that, and then the addend can still
  overlap it. For every combination of lengths and distance the lemma says whether results are right, and
  `ShapeFails` gives wrong ones for every other combination.
- `FromText.ConvertedIff`: a coefficient too long for the buffer that consists of zeros and ends with its point
  leaves no digit at all. The test for zero at the end of decFinalize does not see it, and at an exponent
  beyond emax + 1 the zero becomes an overflow. `PrintAndRead.ZerosExample` shows such a string; all others are
  converted correctly.
- `ExponentLimits.ReadAsWrittenIff`: an exponent of more significant digits than any of the format is replaced by
  twice the greatest one, "definitely" an overflow or underflow. It need not be one after hundreds of zeros:
  `MisreadExample` is a number read 232 powers of ten too small. The lemma says exactly when the number read is
  the number written.
- `QuadBits.DecFloatFromBCD`: the digits of an infinity are said to be ignored and the result to be canonical,
  but the digits are stored. The result is canonical exactly when they are all zero.

## Model

| member | source | states |
|---|---|---|
| `DecFloats.FormatsValid` | upstream/dep/decNumberICU/decQuad.h:30-40 | decDouble and decQuad are instances of the parametric format, with their least exponents and unit counts |
| `RoundingSpec.TruncationUnique` | upstream/dep/decNumberICU/decCommon.c:271-280 | every positive real magnitude has at most one cut-off coefficient at full precision or at the least exponent, so the reference rounding is unambiguous |
| `RoundingSpec.TruncationExists` | upstream/dep/decNumberICU/decCommon.c:271-280 | and it has one: the reference rounding is defined for every magnitude |
| `RoundingLaws.RoundCorrect` | upstream/dep/decNumberICU/decCommon.c:231-556 | for every magnitude, mode and sign the reference delivers the number the rounding attribute asks for among all numbers of the grid (greatest below, least above, nearest with the tie rule, or away only from 0 and 5), overflows exactly beyond the greatest number, and raises Inexact, Underflow and Overflow exactly when they are due |
| `RoundingLaws.ChoiceCorrect` | upstream/dep/decNumberICU/decCommon.c:319-372 | the truncated coefficient, incremented or not by the rule of the mode, is the number the mode asks for |
| `RoundingLaws.NothingBetween` | upstream/dep/decNumberICU/decCommon.c:271-317 | no number of the format lies strictly between a truncation and the next coefficient |
| `RoundingLaws.Neighbours` | upstream/dep/decNumberICU/decCommon.c:271-317 | the truncation and its successor are the neighbours of the number on the grid |
| `RoundingLaws.PreferredExponent` | upstream/dep/decNumberICU/decCommon.c:418-473 | a representable result is delivered unchanged and without flags, and of all its representations the one whose exponent is nearest the wanted one |
| `RoundingLaws.OverflowedIsRight` | upstream/dep/decNumberICU/decCommon.c:423-453 | what a magnitude beyond the greatest number delivers: an infinity in the nearest and away modes, the greatest number in the modes towards zero, and in the directed modes the least (greatest) of the representable numbers and infinities that is not below (above) it; flags Overflow and Inexact |
| `RoundingLaws.InexactIsFull` | upstream/dep/decNumberICU/decCommon.c:271-317 | an inexact result has a coefficient of full precision, or the least exponent there is |
| `Truncation.SameOpenCell` | upstream/dep/decNumberICU/decBasic.c:511-516 | two numbers strictly between the same neighbouring digit strings of full precision round to the same result in every mode: why a sticky digit is enough |
| `Truncation.SameClass` | upstream/dep/decNumberICU/decBasic.c:1349-1370 | one digit earlier, two numbers with the same discarded class (below, at, above the middle) round alike |
| `Truncation.FarPrefs` | upstream/dep/decNumberICU/decBasic.c:1349-1370 | a wanted exponent far below the value makes no difference |
| `Finalize.SkipZeros` | upstream/dep/decNumberICU/decCommon.c:266-270 | skipping leading zeros by fours and singly keeps the value and stops at the first digit that is not zero, or at the last |
| `Finalize.DropDigits` | upstream/dep/decNumberICU/decCommon.c:289-317 | the digits kept are the quotient, and the re-round digit, made sticky, classifies exactly the remainder, also when the whole string or more is dropped |
| `Finalize.NeedsIncrementIsIncrements` | upstream/dep/decNumberICU/decCommon.c:328-369 | the increment decided from the re-round digit and the last digit is the one the rounding mode asks for, in all eight modes |
| `Finalize.AddOne` | upstream/dep/decNumberICU/decCommon.c:372-387 | the in-place increment with its by-fours run over nines adds one, or reports that all digits were nines |
| `Finalize.IncrementCoefficient` | upstream/dep/decNumberICU/decCommon.c:372-408 | the coefficient goes up by one without leading zeros; at full precision 99...9 becomes 10...0 with the exponent up by one |
| `Finalize.RoundCoefficient` | upstream/dep/decNumberICU/decCommon.c:273-412 | drop, flags and increment together: what is left will round to the reference result, and Inexact and Underflow are raised exactly as the reference raises them |
| `Finalize.FinishExact` | upstream/dep/decNumberICU/decCommon.c:418-473 | a coefficient that needs no rounding is kept, clamped, folded down or overflows as the reference demands |
| `Finalize.FinishRounded` | upstream/dep/decNumberICU/decCommon.c:418-473 | the same after rounding, with the carry into a new digit |
| `Finalize.LayOut` | upstream/dep/decNumberICU/decCommon.c:418-496 | zero clamping, fold-down with padding, and overflow to Infinity or the greatest number by mode and sign |
| `Finalize.NothingIsZero` | upstream/dep/decNumberICU/decCommon.c:266-474 | a number without any digit, which the parser can pass, is finished as the zero it is exactly up to exponent emax + 1, and overflows beyond, because the test for zero looks for one digit |
| `Finalize.DecFinalize` | upstream/dep/decNumberICU/decCommon.c:231-474 | a digit string of any length and any exponent delivers exactly the number rounded once, with the flags of that rounding and the mode untouched, in all eight modes; the empty string included |
| `FinalizeQuad.EncodeShort` | upstream/dep/decNumberICU/decCommon.c:489-556 | a coefficient of less than 34 digits, or of none, is encoded with its missing digits as zeros |
| `FinalizeQuad.DecFinalizeQuad` | upstream/dep/decNumberICU/decCommon.c:231-556 | the same down to the four words of a decQuad: they decode to the number rounded once, and are canonical |
| `Add.AlreadyRounded` | upstream/dep/decNumberICU/decCommon.c:262-474 | a datum of the format is its own rounding |
| `LongDivision.SplitUnit` | upstream/dep/decNumberICU/decBasic.c:437-453 | a product plus carry below 2 * 10^18 is split into a unit and a carry exactly, though the estimate may be one too low |
| `Words.ReciprocalEstimate29` | upstream/dep/decNumberICU/decBasic.c:802-815 | the reciprocal estimate with shifts 29 and 32 is never high and low by at most one below 2 * 10^18 |
| `Words.ReciprocalEstimate30` | upstream/dep/decNumberICU/decBasic.c:802-815 | with shifts 30 and 31 it is never high and low by at most two below 4 * 10^18 |
| `LongDivision.SubtractMultiple` | upstream/dep/decNumberICU/decBasic.c:433-482 | acc becomes acc - m * div unit by unit, all units below 10^9, and nothing else changes |
| `LongDivision.FinalCarry` | upstream/dep/decNumberICU/decBasic.c:476-482 | the carry left after the last unit fits the unit above: there is no borrow out of the top |
| `LongDivision.DivTop` | upstream/dep/decNumberICU/decBasic.c:290-305 | four times the top divisor unit with two bits of the next, rounded up, is never below the divisor |
| `LongDivision.EstimateEqual` | upstream/dep/decNumberICU/decBasic.c:374-386 | the estimate from two units of both operands is not more than the true multiplier |
| `LongDivision.EstimateLonger` | upstream/dep/decNumberICU/decBasic.c:398-414 | nor is the one for a longer accumulator, although a product is formed in 32 bits and may wrap |
| `LongDivision.Estimate` | upstream/dep/decNumberICU/decBasic.c:351-420 | every multiplier used is at least one, below 10^9, and takes off no more than is there |
| `LongDivision.QuotientUnit` | upstream/dep/decNumberICU/decBasic.c:331-483 | the inner loop terminates with unit * divisor + remainder equal to the old accumulator and the remainder below the divisor |
| `LongDivisionLoop.DivideUnits` | upstream/dep/decNumberICU/decBasic.c:315-516 | the outer loop terminates with its pointers inside the arrays: dividend * 10^(9k) = quotient * divisor + remainder, with more than pmax + 1 digits or an exact result |
| `Conversion.UnitsToBcd` | upstream/dep/decNumberICU/decBasic.c:529-551 | the base-10^9 units are laid out as decimal digits of the same number, the stray fourth byte of each move overwritten |
| `Conversion.GetCoeffBill` | upstream/dep/decNumberICU/decNumberLocal.h:645-693 | the base-10^9 units of a coefficient, given as a number, have its value |
| `Divide.FiniteQuotient` | upstream/dep/decNumberICU/decBasic.c:246-582 | the digits delivered describe the exact quotient: equal to it at the ideal exponent or without spare zeros, or one sticky digit away from it with precision enough |
| `Divide.DescribedRounds` | upstream/dep/decNumberICU/decBasic.c:510-582 | digits that describe a number round to what the number rounds to; so the sticky or-ing of the last unit never changes a result, a flag, or the exponent chosen |
| `Divide.DecFloatDivide` | upstream/dep/decNumberICU/decBasic.c:167-582 | for all operands and modes the quotient is the exact quotient rounded once, Inexact is raised exactly when something is discarded, an exact quotient has the representable exponent nearest the ideal one, and special and zero operands give the values and flags of the standard |
| `OperationLaws.DivideSigned` | upstream/dep/decNumberICU/decBasic.c:167-246 | with signs: the result is the number v with v * dfr = dfl rounded once; a zero is negative when one operand is, and the wanted exponent is the difference |
| `OperationLaws.DivideExact` | upstream/dep/decNumberICU/decBasic.c:167-246 | when nothing is raised, the result times the divisor is the dividend |
| `OperationLaws.DivideRepresentable` | upstream/dep/decNumberICU/decBasic.c:167-246 | when a datum is the quotient, nothing is raised and the exponent is the representable one nearest the wanted one |
| `OperationLaws.DivideFlip` | upstream/dep/decNumberICU/decBasic.c:167-246 | negating either operand negates the result in the mirrored mode, infinities and zero divisors included |
| `OperationLaws.DivideSpecials` | upstream/dep/decNumberICU/decBasic.c:190-245 | infinities, zero divisors and undefined quotients: kind, sign and flags |
| `Multiply.AddRows` | upstream/dep/decNumberICU/decBasic.c:771-778 | the lazy columns add up to the product of the operands, each column below four products |
| `Multiply.ResolveCarries` | upstream/dep/decNumberICU/decBasic.c:833-865 | the columns become units below 10^9 of the same number, with the reciprocal estimate corrected at most once or twice |
| `Multiply.LastColumnFits` | upstream/dep/decNumberICU/decBasic.c:856-860 | the last column is below 10^9 and never needs a split |
| `Multiply.KnownLeadingZeros` | upstream/dep/decNumberICU/decBasic.c:1014-1020 | the digits skipped as known leading zeros are zeros in every product |
| `Multiply.FiniteMultiply` | upstream/dep/decNumberICU/decBasic.c:712-1057 | the digits delivered are the exact product |
| `Multiply.DecFloatMultiply` | upstream/dep/decNumberICU/decBasic.c:2663-2683 | for all operands and modes the exact product rounded once, specials as the standard has them |
| `OperationLaws.MultiplySigned` | upstream/dep/decNumberICU/decBasic.c:727-731 | with signs: the product of the two values rounded once; a zero is negative when one operand is, and the wanted exponent is the sum |
| `OperationLaws.MultiplyExact` | upstream/dep/decNumberICU/decBasic.c:712-1057 | when nothing is raised, the result is the product of the values |
| `OperationLaws.MultiplyFlip` | upstream/dep/decNumberICU/decBasic.c:2663-2683 | negating an operand negates the result in the mirrored mode, and operands may be exchanged, infinities included |
| `OperationLaws.MultiplySpecials` | upstream/dep/decNumberICU/decBasic.c:2663-2683 | an infinity times a number: kind, sign and flags |
| `Multiply32.LongMul32Hi` | upstream/dep/decNumberICU/decNumberLocal.h:174-182 | the high word of a 32-bit product, from four 16-bit products whose sums never overflow a word |
| `Multiply32.AddRows32` | upstream/dep/decNumberICU/decBasic.c:885-896 | the columns kept as two words each add up to the same product |
| `Multiply32.ResolveCarries32` | upstream/dep/decNumberICU/decBasic.c:949-1001 | the second path splits every column but the last with LONGMUL32HI and ends with the units of the same number |
| `Multiply32.UnitsUnique` | upstream/dep/decNumberICU/decBasic.c:1003-1005 | units below 10^9 with the same value are the same units: both paths leave the same digits |
| `Multiply32.ProductUnits` | upstream/dep/decNumberICU/decBasic.c:750-1005 | by either path the units of the product |
| `BcdWords.AddWord` | upstream/dep/decNumberICU/decBasic.c:1439-1456 | the word with bias, ripple and adjustment is the sum of two groups of four digits with carry in and out |
| `BcdCells.AddFours` | upstream/dep/decNumberICU/decBasic.c:1423-1457 | over any multiple of four digits the loop is schoolbook addition, with the carry out of the top |
| `BcdCells.NinesComplement` | upstream/dep/decNumberICU/decBasic.c:1314-1328 | subtracting every digit from nine is subtracting the number from 10^n - 1 |
| `AddDigits.NoOverlap` | upstream/dep/decNumberICU/decBasic.c:1340-1371 | operands that do not overlap: the gap is filled, or a sticky digit put in, and the complement completed, so that the cells hold the sum |
| `AddDigits.Overlap` | upstream/dep/decNumberICU/decBasic.c:1373-1468 | overlapping operands: the tail is moved, the rest is added, and cells and carry hold the sum |
| `AddDigits.FinishSum` | upstream/dep/decNumberICU/decBasic.c:1472-1560 | from the final carry the sign and magnitude of L + R, L - R or R - L, with the standard sign of an exact zero |
| `AddDigits.SlowDigits` | upstream/dep/decNumberICU/decBasic.c:1267-1564 | the whole slow path: the digits of the sum of the aligned operands, or of the left operand and a sticky digit |
| `Add.SumExact` | upstream/dep/decNumberICU/decBasic.c:1363-1371 | if the operand was laid out in full the digits round to the rounded exact sum |
| `Add.SumSticky` | upstream/dep/decNumberICU/decBasic.c:1349-1370 | replacing a far operand by one sticky digit changes neither result nor flags, for like and unlike signs, in any mode |
| `Declets.GetCoeffThou` | upstream/dep/decNumberICU/decNumberLocal.h:695-737 | the base-1000 units of a coefficient, given as a number, have its value |
| `Declets.AddCoeffThou` | upstream/dep/decNumberICU/decNumberLocal.h:741-796 | adding a coefficient, given as a number, to the units in place gives the sum, each unit below 1000 |
| `Add.FastAdd` | upstream/dep/decNumberICU/decBasic.c:1169-1230 | the base-1000 path delivers the exact sum rounded once, the very result of the slow path |
| `Add.DecFloatAdd` | upstream/dep/decNumberICU/decBasic.c:1106-1571 | for all operands and modes the exact sum rounded once, with the sign of zero the standard prescribes |
| `OperationLaws.AddZeroSum` | upstream/dep/decNumberICU/decBasic.c:1251-1551 | an exact zero sum: of like zeros their sign, otherwise plus but for the mode that rounds down |
| `OperationLaws.AddRepresentable` | upstream/dep/decNumberICU/decBasic.c:1106-1571 | an exact sum is delivered without flags, at the representable exponent nearest the lower one |
| `OperationLaws.AddFlip` | upstream/dep/decNumberICU/decBasic.c:1106-1571 | negating both operands negates the sum in the mirrored mode, unless it is zero; operands may be exchanged |
| `OperationLaws.AddSpecials` | upstream/dep/decNumberICU/decBasic.c:1165-1180 | an infinity plus a number or infinity |
| `Next.DecFloatSubtract` | upstream/dep/decNumberICU/decBasic.c:3461-3469 | the exact difference rounded once; a NaN operand keeps its sign |
| `Next.GreaterByTiny` | upstream/dep/decNumberICU/decBasic.c:2739-2770 | a greater representable number is greater by at least the least positive number |
| `Next.CeilingSum` | upstream/dep/decNumberICU/decBasic.c:2739-2770 | adding the least positive number with rounding upward reaches the least representable number above |
| `Next.RoundMirror` | upstream/dep/decNumberICU/decBasic.c:2696-2726 | rounding the negated number in the mirrored mode is negating the rounded one, in all eight modes |
| `Next.DecFloatNextPlus` | upstream/dep/decNumberICU/decBasic.c:2739-2770 | the least representable number above x for every finite x, Infinity above the greatest, minus zero above the negative number nearest zero; mode and status are as before, but for a signalling NaN |
| `Next.DecFloatNextMinus` | upstream/dep/decNumberICU/decBasic.c:2696-2726 | the mirror image |
| `FmaDigits.AddInPlace` | upstream/dep/decNumberICU/decBasic.c:2127-2220 | the aligned addition from the right leaves the digits of the sum, and no cell is written before the digit of an operand that stands in it has been read, though product and sum share the accumulator |
| `FmaDigits.FinishFma` | upstream/dep/decNumberICU/decBasic.c:2222-2266 | carry, borrow and ten's complement turned into sign and magnitude of the sum |
| `Fma.Capacity` | upstream/dep/decNumberICU/decBasic.c:2128-2175 | the sum always fits the accumulator, and the product read in place ends to the left of what is written |
| `Fma.ReductionSound` | upstream/dep/decNumberICU/decBasic.c:2138-2166 | reducing the low operand to one digit is harmless when it lies wholly below the last digit of the high one |
| `Fma.ClearIsExact` | upstream/dep/decNumberICU/decBasic.c:2138-2166 | what the code computes is the exact sum rounded once whenever the reduction is not made or the low operand is clear of the high one |
| `Fma.FmaIsSum` | upstream/dep/decNumberICU/decBasic.c:2052-2072 | the sum of the two terms is dfl * dfr + dff |
| `Fma.DecFloatFMA` | upstream/dep/decNumberICU/decBasic.c:2000-2267 | for clear operands the exact dfl * dfr + dff rounded once; for all finite ones the sum of the terms as they enter the addition, rounded once; specials as the standard has them |
| `OperationLaws.FmaOfOne` | upstream/dep/decNumberICU/decBasic.c:2000-2072 | with a factor of one the reference is addition, for all operands |
| `OperationLaws.FmaOfZero` | upstream/dep/decNumberICU/decBasic.c:2000-2072 | with a zero addend of the sign of the product it is multiplication |
| `OperationLaws.FmaInvalidProduct` | upstream/dep/decNumberICU/decBasic.c:2020-2050 | infinity times zero is invalid whatever is added |
| `OperationLaws.FmaInfiniteAddend` | upstream/dep/decNumberICU/decBasic.c:2020-2050 | an infinite addend is the result when both factors are finite |
| `OperationLaws.FmaInfiniteProduct` | upstream/dep/decNumberICU/decBasic.c:2020-2050 | an infinite product is added like an infinity of its sign |
| `FmaLimits.FmaCorrectIff` | upstream/dep/decNumberICU/decBasic.c:2128-2166 | for every length the two terms of operands can have and every distance of their exponents: the result is right for all operands in all modes if and only if the guard of the reduction is false or the low term ends before the high one |
| `FmaLimits.ShapesArePossible` | upstream/dep/decNumberICU/decBasic.c:2052-2072 | which lengths the two terms can have: one of them is that of the addend |
| `FmaLimits.ShapeFails` | upstream/dep/decNumberICU/decBasic.c:2128-2166 | for each remaining shape, operands of the format for which the result is wrong |
| `FmaLimits.DoubleExample` | upstream/dep/decNumberICU/decBasic.c:2128-2166 | a case with sixteen digits: 9999999999999997 * 6666666666666667 + 1, rounded down, is wrong |
| `IntegerDivision.NearestEvenIsNearest` | upstream/dep/decNumberICU/decBasic.c:615-651 | the integer chosen is within one half, and even when exactly half-way |
| `IntegerDivision.IntegerQuotient` | upstream/dep/decNumberICU/decBasic.c:584-656 | the digits of the truncated or nearest-even integer quotient, or the news that it has too many |
| `IntegerDivision.DecFloatDivideInteger` | upstream/dep/decNumberICU/decBasic.c:1983-1987 | the truncated quotient with exponent zero, DivisionImpossible exactly when it needs more than pmax digits |
| `OperationLaws.IntegerQuotientValue` | upstream/dep/decNumberICU/decBasic.c:584-656 | the result times the divisor is the dividend but for less than one divisor, on the side of zero; exponent zero |
| `OperationLaws.IntegerQuotientImpossible` | upstream/dep/decNumberICU/decBasic.c:584-656 | DivisionImpossible exactly when the quotient has more than pmax digits before its point |
| `OperationLaws.IntegerQuotientSpecials` | upstream/dep/decNumberICU/decBasic.c:190-245 | special operands are treated as by the division |
| `OperationLaws.RemainderSpecials` | upstream/dep/decNumberICU/decBasic.c:190-245 | infinite dividends, infinite and zero divisors: value and flags of the remainder |
| `Remainder.RemainderIsClear` | upstream/dep/decNumberICU/decBasic.c:658-667 | the product of the integer quotient and the divisor is so close to the dividend that the fused operation is never reduced wrongly |
| `Remainder.RemainderSum` | upstream/dep/decNumberICU/decBasic.c:658-667 | the fused sum is the remainder, and nothing is rounded |
| `Remainder.DecFloatRemainder` | upstream/dep/decNumberICU/decBasic.c:3230-3255 | when a number is returned for finite non-zero operands, dfl = n * dfr + r exactly for an integer n: r is below dfr in size with the sign of dfl, or at most half of dfr with n even on a tie; its exponent is the lower one of the operands, but for a nearest n of pmax + 1 digits; no flag is raised |
| `Quantize.RoundAway` | upstream/dep/decNumberICU/decBasic.c:2963-3084 | the coefficient cut at the wanted place and rounded there in place, Inexact exactly when a digit that is not zero goes |
| `Quantize.PadByFours` | upstream/dep/decNumberICU/decBasic.c:3086-3121 | padding by fours reports exactly whether the digits pushed out are zeros |
| `Quantize.QuantizeIsClose` | upstream/dep/decNumberICU/decBasic.c:2903-3178 | a quantized number is less than one unit away, at most half a unit in the nearest modes with ties to even, and on the right side in the directed modes; no flag means equality |
| `Quantize.DecFloatQuantize` | upstream/dep/decNumberICU/decBasic.c:2903-3178 | dfl rounded to the exponent of dfr, invalid exactly when the rescaled coefficient does not fit; specials included |
| `OperationLaws.QuantizeTies` | upstream/dep/decNumberICU/decBasic.c:2963-3084 | ties, the sign, and the mode that rounds away only from 0 and 5 |
| `OperationLaws.QuantizeWide` | upstream/dep/decNumberICU/decBasic.c:3086-3121 | what a wider format would deliver, exactly when its coefficient fits this one |
| `OperationLaws.QuantizeSpecials` | upstream/dep/decNumberICU/decBasic.c:2928-2935 | two infinities give the first, one is invalid |
| `OperationLaws.NaNPropagation` | upstream/dep/decNumberICU/decBasic.c:3561-3617 | a NaN operand gives a quiet NaN with its sign and payload, the first signalling one before the first quiet one, and InvalidOperation exactly for a signalling one |
| `ToInteger.DecToIntegral` | upstream/dep/decNumberICU/decBasic.c:3878-3911 | the number rounded to an integer in the mode given; the mode of the context is restored and Inexact raised only when asked for |
| `ToInteger.ToWord` | upstream/dep/decNumberICU/decBasic.c:3841-3865 | the split check on the last digits accepts exactly the integers in range and gives their 32-bit word |
| `ToInteger.InRangeIff` | upstream/dep/decNumberICU/decBasic.c:3841-3865 | in range are exactly the integers of 32 bits, with a sign or without one |
| `ToInteger.DecToInt32` | upstream/dep/decNumberICU/decBasic.c:3791-3866 | the rounded integer as a 32-bit word exactly when it is in range, otherwise zero and InvalidOperation |
| `Compare.NoOverlapOrder` | upstream/dep/decNumberICU/decBasic.c:3676-3680 | when the exponents differ by more than the precision the greater exponent wins |
| `Compare.CompareShifted` | upstream/dep/decNumberICU/decBasic.c:3684-3768 | the padded comparison by fours, doing without the digits that cannot matter, orders the shifted coefficients |
| `Compare.DecNumCompare` | upstream/dep/decNumberICU/decBasic.c:3625-3776 | without tot the sign of the difference for all numbers and infinities; with tot the total order, equal only for identical data |
| `Compare.PrecedesTotal` | upstream/dep/decNumberICU/decBasic.c:3634-3776 | any two data are ordered one way, or are the same |
| `Compare.PrecedesTransitive` | upstream/dep/decNumberICU/decBasic.c:3634-3776 | and the order is transitive |
| `Compare.ValueOrder` | upstream/dep/decNumberICU/decBasic.c:3634-3776 | data of different value come in the order of their values, the infinities at the ends |
| `Compare.SameValueOrder` | upstream/dep/decNumberICU/decBasic.c:3634-3776 | of data of one value minus zero comes first; of positive ones the lesser exponent does, of negative ones the greater |
| `TextRoundTrip.StringRoundTrip` | upstream/dep/decNumberICU/decCommon.c:779-1005 | the number that the scientific text denotes, rounded in any mode, is the very datum, with no flag: every finite number with its exponent, infinities, every NaN payload |
| `TextRoundTrip.EngineeringKeepsValue` | upstream/dep/decNumberICU/decCommon.c:1224-1441 | the number that the engineering text denotes rounds to the same sign and value; a zero comes back with its exponent |
| `TextRoundTrip.FiniteRoundTrip` | upstream/dep/decNumberICU/decCommon.c:1503-1701 | the printed text of a finite number denotes its sign, coefficient and exponent |
| `ToText.PutCoefficient` | upstream/dep/decNumberICU/decCommon.c:1558-1601 | the declets are laid down as the digits of the coefficient without leading zeros |
| `ToText.ShiftRight` | upstream/dep/decNumberICU/decCommon.c:1680-1689 | the overlapping move by fours and singly carries every character to its new place |
| `ToText.DecFloatToText` | upstream/dep/decNumberICU/decCommon.c:1503-1701 | the buffer ends up with exactly the scientific or engineering text and its terminator, never beyond its length |
| `TextForm.ScientificForm` | upstream/dep/decNumberICU/decCommon.c:1606-1669 | E is shown exactly when the exponent is positive or the adjusted one below -6; then one digit stands before the point and the exponent shown is the adjusted one; otherwise the digits after the point number minus the exponent |
| `TextForm.EngineeringForm` | upstream/dep/decNumberICU/decCommon.c:1328-1400 | E is shown only then; the exponent shown is a multiple of three and one to three digits stand before the point, one for a zero; otherwise both forms agree or the number is an integer |
| `TextForm.ScientificExamples` | upstream/dep/decNumberICU/decCommon.c:1606-1669 | 0.00123, -1.23E-8 and 1.2E+4 |
| `TextForm.EngineeringExamples` | upstream/dep/decNumberICU/decCommon.c:1328-1400 | 12.3E-9, 12E+3 and 0.00E+3 |
| `Grammar.SpellingMeaning` | upstream/dep/decNumberICU/decCommon.c:779-1005 | a string built from sign, digits, point, fraction and exponent, or a name in any case with sign and payload, denotes what its parts say |
| `Grammar.NumericSyntax` | upstream/dep/decNumberICU/decCommon.c:779-1005 | and no other string denotes anything |
| `FromText.Scan` | upstream/dep/decNumberICU/decCommon.c:804-824 | the scan accepts the longest run of digits with one point, and finds sign and point |
| `FromText.ReadExponent` | upstream/dep/decNumberICU/decCommon.c:829-859 | the exponent part is accepted and valued as in the grammar |
| `FromText.ReadSpecial` | upstream/dep/decNumberICU/decCommon.c:951-986 | infinities and NaNs are recognised in any case, with payloads of at most pmax - 1 digits, and nothing else is |
| `FromText.ReadLong` | upstream/dep/decNumberICU/decCommon.c:908-948 | from a coefficient too long for the buffer more than pmax leading digits are kept and the last is made sticky exactly when something that is not zero follows |
| `FromText.KeptRounds` | upstream/dep/decNumberICU/decCommon.c:922-947 | rounding the kept digits is rounding the whole number, however long |
| `FromText.DecFloatFromString` | upstream/dep/decNumberICU/decCommon.c:779-1005 | the result and flags for any string, syntax errors included: what the string denotes, rounded once, but for zeros left without any digit, which are finished as such |
| `FromText.ConvertedIff` | upstream/dep/decNumberICU/decCommon.c:908-948 | the conversion is what the string denotes, rounded once, if and only if it is not a coefficient of zeros too long for the buffer and ending with its point, at an exponent beyond emax + 1; those overflow |
| `ExponentLimits.ReadAsWrittenIff` | upstream/dep/decNumberICU/decCommon.c:829-859 | a numeral denotes the number it spells, rounded once, in every mode if and only if its exponent is kept, or its coefficient overflows even at the lesser of the two exponents or vanishes even at the greater |
| `ExponentLimits.ShortNumerals` | upstream/dep/decNumberICU/decCommon.c:829-859 | numerals of up to 368 digits in decDouble and 3822 in decQuad are read as they are written, whatever the exponent |
| `ExponentLimits.MisreadExample` | upstream/dep/decNumberICU/decCommon.c:829-859 | a longer one that is not: a point, 700 zeros and 1E+1000 is 1E+299, and decDouble takes 1E+67 for it |
| `PrintAndRead.ZerosOverflow` | upstream/dep/decNumberICU/decCommon.c:908-948 | strings of that kind, for every number of zeros beyond the buffer and every such exponent: read as an overflow instead of a zero |
| `PrintAndRead.ZerosExample` | upstream/dep/decNumberICU/decCommon.c:908-948 | one of them: 38 zeros, a point and E+400 give decDouble Infinity, not 0E+369 |
| `PrintAndRead.PrintedIsDetermined` | upstream/dep/decNumberICU/decCommon.c:1224-1701 | no printed text is of that kind, in either form |
| `PrintAndRead.PrintAndRead` | upstream/dep/decNumberICU/decCommon.c:779-1701 | the printer and the parser one after the other: the scientific form gives the very datum, the engineering form its sign and value, and no flag is raised |
| `Gf2Poly.MulAssoc` | upstream/dep/forcecrc32.c:208-219 | multiplication of polynomials over GF(2) is associative |
| `Gf2Poly.MulComm` | upstream/dep/forcecrc32.c:208-219 | and commutative |
| `Gf2Poly.MulDistLeft` | upstream/dep/forcecrc32.c:208-219 | and distributes over exclusive or |
| `Gf2Poly.MulDegree` | upstream/dep/forcecrc32.c:262-283 | degrees add |
| `CrcField.RemXor` | upstream/dep/forcecrc32.c:208-219 | reduction modulo the generator is linear |
| `CrcField.QuoRem` | upstream/dep/forcecrc32.c:237-258 | reduction is a division with remainder by the generator |
| `CrcField.MulModAssoc` | upstream/dep/forcecrc32.c:208-219 | multiplication modulo the generator is associative |
| `CrcField.PowersOfXInvertible` | upstream/dep/forcecrc32.c:110-112 | every power of x has an inverse, so the exit for a missing reciprocal is out of reach of the patcher |
| `CrcField.CommonDivisorBlocksInverse` | upstream/dep/forcecrc32.c:262-283 | a factor shared with the generator rules an inverse out |
| `CrcRegister.FeedBytesLinear` | upstream/dep/forcecrc32.c:157-182 | the register is linear in its start value and the bytes together |
| `CrcMeaning.GeneratorBits` | upstream/dep/forcecrc32.c:154 | the generator has exactly the terms of CRC-32: x^32, x^26, x^23, x^22, x^16, x^12, x^11, x^10, x^8, x^7, x^5, x^4, x^2, x and 1 |
| `CrcMeaning.MessageBit` | upstream/dep/forcecrc32.c:157-182 | the message polynomial has the bits of the bytes in the order they are sent, the least significant of a byte first |
| `CrcMeaning.CrcIsRemainder` | upstream/dep/forcecrc32.c:157-182 | the CRC is the complement of the remainder, by the generator, of the message times x^32 with its first 32 bits complemented |
| `CrcMeaning.RemainderUnique` | upstream/dep/forcecrc32.c:157-182 | there is only one such remainder |
| `CrcCheckValue.CheckValue` | upstream/dep/forcecrc32.c:157-182 | the CRC of 123456789 is 0x649C2FD3 (0xCBF43926 with its bits reversed) |
| `CrcRegister.FeedZeroBytes` | upstream/dep/forcecrc32.c:157-182 | n zero bytes multiply it by x^(8n) |
| `CrcRegister.PatchEffect` | upstream/dep/forcecrc32.c:110-133 | adding four patch bytes at an offset adds delta * x^(8(length - offset)) to the CRC |
| `Crc32Forcer.GetDegree` | upstream/dep/forcecrc32.c:286-291 | the degree of a polynomial, -1 for zero |
| `Crc32Forcer.ReverseBits` | upstream/dep/forcecrc32.c:197-202 | bit k of the result is bit 31 - k of the argument |
| `Crc32Forcer.MultiplyMod` | upstream/dep/forcecrc32.c:208-219 | the loop with doubling and reduction is the product modulo the generator |
| `Crc32Forcer.PowerMod` | upstream/dep/forcecrc32.c:223-233 | squaring and multiplying is n-fold multiplication |
| `Crc32Forcer.DivideAndRemainder` | upstream/dep/forcecrc32.c:237-258 | quotient and remainder satisfy the division equation with the remainder of lower degree; only division by zero fails |
| `Crc32Forcer.ReciprocalMod` | upstream/dep/forcecrc32.c:262-283 | terminates, and returns an inverse if and only if there is one |
| `Crc32Forcer.GetCrc32AndLength` | upstream/dep/forcecrc32.c:157-182 | the bit-by-bit register is the CRC of the file, the length counted modulo 2^64 |
| `Crc32Forcer.ModifyFileCrc32` | upstream/dep/forcecrc32.c:93-148 | only the four bytes change; the CRC becomes the wanted one whenever length - offset is below 2^61, so the assertion is then unreachable; the length check and the reciprocal exit are exact |
| `BitFields.PutField` | upstream/dep/decNumberICU/decimal64.c:704-709 | or-ing a shifted declet into one or two neighbouring words adds it at its bit position |
| `BitFields.GetField` | upstream/dep/decNumberICU/decimal64.c:758-765 | the field read from one or two words is the ten bits at that position |
| `DecNumbers.DecNumber.Zero` | upstream/dep/decNumberICU/decNumber.h:66-89 | the number is a canonical +0 |
| `Dpd.Quot10IsQuotient` | upstream/dep/decNumberICU/decimal64.c:607-609 | the multiplication and shifts of QUOT10 are division by ten or a hundred, for every unit |
| `Dpd.ShiftUnits` | upstream/dep/decNumberICU/decimal64.c:625-662 | the units moved up, split where need be, are the coefficient with zeros appended |
| `Dpd.DecDigitsToDPD` | upstream/dep/decNumberICU/decimal64.c:611-712 | the words hold the declets of the coefficient followed by shift zeros |
| `Dpd.DecDigitsFromDPD` | upstream/dep/decNumberICU/decimal64.c:737-842 | the units hold the coefficient of the declets and the digit count is that of the number |
| `Dpd.DecletsRoundTrip` | upstream/dep/decNumberICU/decimal64.c:611-842 | a coefficient of any length comes back from its declets, which are canonical |
| `Dpd.DecletsBack` | upstream/dep/decNumberICU/decimal64.c:611-842 | canonical declets come back from their coefficient |
| `Interchange.DecodeOfEncode` | upstream/dep/decNumberICU/decimal128.c:106-194 | in both interchange formats encoding loses nothing and produces a canonical word |
| `Interchange.EncodeOfDecode` | upstream/dep/decNumberICU/decimal128.c:206-256 | every canonical word is the encoding of the datum it decodes to: data and canonical words correspond one to one |
| `Interchange.DoubleWords` | upstream/dep/decNumberICU/decCommon.c:106-161 | eight words of decDouble and what they stand for |
| `Interchange.QuadWords` | upstream/dep/decNumberICU/decCommon.c:106-161 | five of decQuad |
| `Decimal128.CombTables` | upstream/dep/decNumberICU/decimal64.c:572-579 | the tables COMBEXP and COMBMSD hold the exponent bits and leading digit of each combination field |
| `Decimal128.StoredKeepsValue` | upstream/dep/decNumberICU/decimal128.c:131-160 | clamping and fold-down keep sign and value, take the nearest exponent there is, and change nothing in range |
| `Decimal128.StoreCoefficient` | upstream/dep/decNumberICU/decimal128.c:150-173 | pad, declets, leading digit and combination field of a non-zero number |
| `Decimal128.Decimal128FromNumber` | upstream/dep/decNumberICU/decimal128.c:77-199 | the words encode the number as stored; Clamped is raised exactly when that differs from the number given |
| `Decimal128.Decimal128ToNumber` | upstream/dep/decNumberICU/decimal128.c:206-256 | every word with canonical declets decodes to a valid number, the one the format defines, with the digit count found from as few declets as are in use |
| `Decimal128.Decimal128RoundTrip` | upstream/dep/decNumberICU/decimal128.c:77-256 | what was stored is loaded again, with the value of the number given |
| `Decimal128.Decimal128WordRoundTrip` | upstream/dep/decNumberICU/decimal128.c:77-256 | a canonical word loaded and stored is the same word |
| `PackedDecimal.DecPackedFromNumber` | upstream/dep/decNumberICU/decPacked.c:59-123 | the bytes are the packed digits and sign, NULL with nothing changed exactly for specials and numbers too long |
| `PackedDecimal.CountDigits` | upstream/dep/decNumberICU/decPacked.c:162-167 | the digit count after leading zero bytes and nibble |
| `PackedDecimal.DecPackedToNumber` | upstream/dep/decNumberICU/decPacked.c:155-219 | accepts exactly a sign nibble after digits with an adjusted exponent in range, and then yields that number; otherwise zero |
| `PackedDecimal.PackedRoundTrip` | upstream/dep/decNumberICU/decPacked.c:59-219 | unpacking undoes packing for every finite number of any digit count whose adjusted exponent is in range |
| `PackedDecimal.SignNibbles` | upstream/dep/decNumberICU/decPacked.c:155-219 | of the sixteen sign nibbles 0xB and 0xD are minus, 0xA, 0xC, 0xE and 0xF plus, and the digits are refused |
| `PackedDecimal.PackedExample` | upstream/dep/decNumberICU/decPacked.c:59-219 | the bytes 0x12 and 0x3D with scale 1 are -12.3 |
| `QuadBits.CombFromTable` | upstream/dep/decNumberICU/decCommon.c:152-161 | DECCOMBFROM holds the combination field of each exponent top and leading digit |
| `QuadBits.DecFloatFromBCD` | upstream/dep/decNumberICU/decCommon.c:580-649 | the words decode to the datum given; they are canonical if and only if an infinity comes without digits, although the description promises that always |
| `QuadBits.InfinityWithDigit` | upstream/dep/decNumberICU/decCommon.c:580-649 | a case: an infinity given with the digit 1 decodes to the infinity, from a word that is not canonical |
| `QuadBits.GetCoeff` | upstream/dep/decNumberICU/decNumberLocal.h:615-632 | the cells hold the leading digit and the digits of the eleven declets, the stray fourth cell of each move overwritten |
| `QuadBits.DecFloatToBCD` | upstream/dep/decNumberICU/decCommon.c:1194-1210 | digits, exponent and sign of the datum held, for every word but an infinity with its bit 0x02000000 set; that one yields zeros and sign, with the bit in the exponent |
| `QuadUnits.CoeffThou` | upstream/dep/decNumberICU/decNumberLocal.h:715-733 | the declets and leading digit read from the words are the base-1000 units of the coefficient of the datum |
| `QuadUnits.CoeffBill` | upstream/dep/decNumberICU/decNumberLocal.h:668-688 | likewise for the units of base 10^9 |
| `QuadUnits.AddCoeff` | upstream/dep/decNumberICU/decNumberLocal.h:767-796 | the coefficient read from the words is added to units in place, the carry chain keeping each below 1000 |
| `QuadUnits.CoefficientOfDatum` | upstream/dep/decNumberICU/decNumberLocal.h:668-733 | what these macros read is the coefficient of the finite datum in the words |
| `Wider.DecFloatToWider` | upstream/dep/decNumberICU/decCommon.c:1717-1743 | any 64-bit decDouble and its 128-bit image decode to the same datum, and the image is canonical when the decDouble is |
| `Wider.DecFloatFromWider` | upstream/dep/decNumberICU/decCommon.c:1021-1044 | a finite decQuad is rounded once to decDouble, specials keep their kind and the last digits of a payload |
| `Wider.WidenNarrow` | upstream/dep/decNumberICU/decCommon.c:1021-1044 | a datum of decDouble is narrowed to itself, with no flag, in any mode |
| `Wider.WidenThenNarrow` | upstream/dep/decNumberICU/decCommon.c:1021-1743 | the two routines one after the other on a canonical decDouble give its datum back and leave status and mode alone |

## Left out

- FmaLimits.FmaCorrectIff: is an equivalence over shapes (lengths and exponent distance), the quantities the guard in the code looks at; in a shape that is not clear some operands still come out right.
- Fma.DecFloatFMA: promises the correctly rounded result only for clear operands, because the code does not deliver it for others; for those it says what is delivered instead.
- FromText.DecFloatFromString: an exponent with more than DECEMAXD significant digits denotes the fixed great exponent that the code puts in its place; `ExponentLimits.ReadAsWrittenIff` says when that is the number written.
- Conversion.GetCoeffBill: takes the coefficient as a number, as the operations on decoded data do; `QuadUnits.CoeffBill` takes it from the words of a decQuad, and the macro for decDouble is not repeated.
- Declets.GetCoeffThou: likewise; see `QuadUnits.CoeffThou`.
- Declets.AddCoeffThou: likewise; see `QuadUnits.AddCoeff`.
- Finalize.DecFinalize: delivers the decoded datum; `FinalizeQuad.DecFinalizeQuad` continues to the words of a decQuad, and the layout of a decDouble result is not repeated.
- Crc32Forcer.ModifyFileCrc32: promises the wanted CRC when length - offset is below 2^61; beyond that 8 * (length - offset) wraps in 64 bits, and the file model is bounded by 2^64 bytes.
- Decimal128.Decimal128FromNumber: starts after the reduction by decNumberPlus, that is with a number of at most 34 digits whose exponent is in range; decNumberPlus and the rest of decNumber.c are not part of this model.
- Remainder.DecFloatRemainder: a nearest quotient that rounds up to 10^pmax is held as 10^(pmax-1) with exponent 1, as the code does; the exponent of the remainder then counts that of dfr one higher, as the clause says.
- ToText.DecFloatToText: asks for formats whose exponents have at most four digits, which the C code asserts at compile time.
- File handles, seeking, printing and argument parsing of forcecrc32.c: a file is an array of bytes.
- True densely packed decimal: a declet is the binary number 0..999, as in the codec used when the tables are off (decNumberLocal.h:137-155), and every declet of an operand is at most 999. Everything bound to real bit patterns goes with it: digit-wise And, Or, Xor and Invert, canonical tests, DFSETNMAX, and with the latter nextUp of minus Infinity and nextDown of Infinity as words.
- The bits of operands and results: the operations take and deliver decoded data. For decQuad the words are related to them in `QuadBits`, `QuadUnits` and `FinalizeQuad`; decDouble words occur only as a source in `Wider`.
- Access by fours is modelled as four cells in one step; uninitialised work cells are zero in the addition, where the code clears or overwrites them.
- NaN payload ordering in decFloatCompareTotal; NaN propagation is modelled as a choice of operand, without payload truncation between formats other than `Wider`.
- decSingle and decimal32, decimal64 as a separate converter, scaleB, logB, shift, rotate, min, max, reduce, class tests, copy and sign operations: instances of the same code, or easy.
- Traps and SIGFPE, byte order variants, tracing and checking code; an invalid rounding mode in the context.
- bufferize.c, the interface files and the build files.
