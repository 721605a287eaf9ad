# Correct rounding in the soft-fp64 arithmetic core

soft-fp64 computes IEEE 754 arithmetic on binary64 and binary256 with integer instructions only. This
project models that core in Dafny and proves that what it returns is the exact rational (or square-root)
result rounded once, in each of the five rounding modes, over the whole finite domain: subnormals, massive
cancellation, and overflow to the largest finite number or to infinity.

## How the model is built

**Values.** A finite magnitude of a format is named by its *code*, the encoding without the sign bit
(`Rounding.Format`, `Rounding.Decode`). `Decode` gives the exact real number; codes are ordered as their
values are, and the code after the largest finite one is the code of infinity. The same specification
serves binary32, binary64 and binary256.

**Correct rounding.** `Rounding.Rounds` says what the five modes mean by order alone: a directed mode takes
the nearest code on one side, a nearest mode the code whose two midpoints enclose the exact result, with
the tie rule. It does not mention guard or sticky bits. `RoundsUnique` and `RoundsExists` make it a function,
`RoundCode`; `Deliver` is overflow and `RoundFlags` the flags of sections 7.4 to 7.6 of IEEE 754-2008. The exact
result is a real number or the square root of one (`Rounding.Exact`), so irrational roots need no approximation.

**Sticky alignment.** `Cells.SameCell(m, e, x, k)` says that the working significand `m` tells the same as
the exact result `x` about every grid of spacing 2^k units or coarser: the same grid cell, and on a grid point
exactly when `x` is. Jamming shifts, additions and subtractions keep it (`JamCell`, `AddCell`, `SubCell`), and
one lemma (`Rounding.RoundFromCell`) turns it into a correct rounding decision. The rounding operations
below are proved through this one argument, except the one-step path of binary256 addition (`Add256.FarRounding`).

**Machine words.** `uint64_t` is a bounded natural number; each wrapping operation is written out and its
wrap-around proved harmless. A limb array is a sequence of words with its value in base 2^64. Loops of the source
are loops here, with their invariants; the flag accumulator is a class whose one operation is `Raise`.

**Files.** `Powers`, `Shifts`, `Rounding`, `Tininess`, `Cells`, `Frames`, `ExactResults`, `Integers`, `Remainders` and `Roots` hold the
specification and the lemmas common to both widths. `Fenv`, `Words`, `Wide`, `Binary64`, `Pack64`, `Arithmetic64`,
`Sqrt64`, `Fma64`, `Rne64`, `Convert64`, `Convert32`, `Round64`, `Scale64`, `Rem64`, `IeeeRem64`, `ErrorFree`,
`Meaning64` and `Special64` are binary64. `BigUint`, `Binary256`, `Pack256`, `Add256`, `Arithmetic256`, `Fma256`,
`Remainder256`, `Convert256`, `Meaning256` and `Special256` are binary256. `dafny verify dfyconfig.toml` checks all of
them.

**What the specifications mean.** The specification functions (`Binary64.Sum`, `Fma256.FusedSum` and the like) are
tables of special operands around one correct rounding. What they say is proved without naming them: `Meaning64` and
`Meaning256` for the rounded results, in terms of real numbers, and `Special64` and `Special256` for NaNs, infinities,
zeros and flags, in terms of the fields of the returned encoding.

## Findings

In each of these places the code does not do what its own comment or the standard says. The model keeps the code and
proves exactly when the two differ, for all operands, with operands for which they do. Other comments of the source are
not compared with the code.

- **Missed OVERFLOW.** The distant path of binary256 addition raises only INEXACT, also when it steps from the largest
  finite number to infinity (src/fp256/soft_f256.cpp:267-268). The returned value is always right. By `Add256.AddImpl`
  and `Add256.MissedOverflowFlags` the flags are right if and only if `MissedOverflow` does not hold;
  `Add256.MissedOverflowExample` gives operands.
- **Missed UNDERFLOW.** Binary256 operations, and narrowing binary256 to binary64, decide underflow by the encoding that
  is returned; the comment there speaks of tininess after rounding (src/fp256/soft_f256.cpp:178-182). Against tininess
  before rounding, which binary64 uses, the flags differ if and only if the exact result lies on the band
  `RisesToNormal` just below the smallest normal number (`Tininess.FinalAgainstBefore`); against tininess after rounding,
  if and only if it lies on the narrower band `RisesTwice` (`Tininess.FinalAgainstAfter`). In both cases UNDERFLOW is
  missing, never raised in addition (`Meaning256.UnderflowMeaning`). The midpoint that the comment names is on both
  bands; `Meaning256.MissedUnderflowExample` is a product that hits it. For the narrowing `Convert256.NarrowUnderflow` is
  the same statement and `Convert256.NarrowUnderflowExample` the operand.
- **Missed INVALID.** A binary256 fused multiply-add does not signal for a signaling NaN addend if and only if a factor
  is a NaN and no factor is signaling (src/fp256/soft_f256.cpp:369-372): `Fma256.MissedInvalid`, with
  `Fma256.MissedInvalidExample`.
- **INVALID together with INEXACT.** A conversion to an integer type raises both (src/convert.cpp:220-222, 267-270,
  304-306) if and only if the operand is no integer, is below 2^64 in magnitude, and lies past a bound of the type by
  the mode's margin: `Convert64.BothFlags`, with `Convert64.BothFlagsExample`.
- **Step toward zero.** `next_integer_away` is documented as one step in the given direction (src/rounding.cpp:88-135).
  Away from zero and from zero itself it is (`Round64.NextInteger`, `Round64.FromZero`); toward zero, which no caller asks
  for, it is if and only if the integer is not a power of two (`Round64.TowardZeroStep`, `Round64.TowardZeroExample`).
- **Half of the smallest subnormal lost.** The 128-bit packing of the fused multiply-add treats a retained position of
  128 as "smaller than half" (src/sqrt_fma.cpp:416-429). For a magnitude with bit 127 set that is wrong in the nearest
  modes if and only if `LostHalf` holds (`Fma64.RoundAndPack128`, `Fma64.LostHalfExample`). No caller sets bit 127.
- **Product error.** The fused product error of `ddmul_dd_d_d` is exact, when the product does not overflow, if and only
  if the exact product is a multiple of the smallest subnormal (`ErrorFree.TwoProduct`, `ErrorFree.ProductExact`);
  `ErrorFree.LostProduct` gives operands for which it is not.
- **Spurious overflow of TwoSum.** `ddadd2_dd_d_d` can overflow although the sum does not: if and only if the second
  operand has the largest finite magnitude and the first one, of the opposite sign and below 2^1023, is 3, 7, 11, ...
  times 2^970 (`ErrorFree.Spurious`, `ErrorFree.SpuriousOverflow`); `ErrorFree.TwoSumSpurious` is the first instance.
  `ddadd_dd_d_d` overflows only with its sum (`ErrorFree.FastTwoSum`).
- **Preferred NaN.** `propagate_nan` is documented to prefer the NaN of a signaling operand (src/internal.h:381-395); the
  code takes the first one. The result differs if and only if a quiet NaN comes before a signaling one that does not
  become the same NaN (`Binary64.NanPreference`, `Binary64.NanPreferenceExample`).
- **NaN addend.** The comment at src/sqrt_fma.cpp:533-534 says that fma(inf, 0, NaN) returns the NaN operand. The code
  returns the NaN of an invalid operation first, with INVALID (src/sqrt_fma.cpp:524-529); a NaN addend is returned if
  and only if the factors are not infinity and zero, or the two NaNs are the same (`Special64.NanAddend`,
  `Special64.NanAddendExample`). Binary256 returns the addend and does not raise INVALID (`Special256.FusedNan`).

## Model

| member | source | states |
|---|---|---|
| Rounding.Decision | src/internal.h:427-442 | the decision of `sf64_internal_should_round_up` on guard, sticky and odd bits is correct rounding in every mode and sign, and the result is exact if and only if both bits are clear |
| Rounding.RoundFromCell | src/internal.h:427-442 | once the exact result is located on the grid of half quanta, kept bits plus decision are the correct rounding, across a carry into the exponent too |
| Rounding.RoundPacked | src/arithmetic.cpp:74-143 | the same with the flags: overflow by the unbounded rounding, underflow by the exact result being below the smallest normal number |
| Rounding.RoundsUnique | src/internal.h:427-442 | correct rounding, defined by order alone, determines its result |
| Rounding.RoundNearest | src/internal.h:427-442 | in the two nearest modes no code is closer to the exact result |
| Rounding.RoundDirected | src/internal.h:427-442 | in a directed mode the result is the closest code on the prescribed side |
| Rounding.RoundExact | src/internal.h:427-442 | a representable result is returned unchanged in every mode |
| Rounding.RoundTie | src/internal.h:427-442 | of two equally near codes RNE returns the even one and RNA the one farther from zero |
| Rounding.Sterbenz | src/sleef/sleef_inv_hyp_pow.cpp:116-121 | the difference of two numbers within a factor of two is representable |
| Tininess.FinalAgainstBefore | src/fp256/soft_f256.cpp:176-184 | for every format, mode, sign and exact result: underflow by the returned encoding differs from tininess before rounding iff the result is tiny and rounds to the smallest normal number, given also as a band of values per mode |
| Tininess.FinalAgainstAfter | src/fp256/soft_f256.cpp:176-184 | it differs from tininess after rounding at full precision iff the result lies on a narrower band, whatever the extra exponent range |
| Tininess.MissedUnderflow | src/fp256/soft_f256.cpp:176-184 | where the flags differ UNDERFLOW is missing, never raised in addition, and the narrower band is part of the wider one |
| Roots.RootInRange | src/sqrt_fma.cpp:284-288 | for every format with enough exponent range: the root of a positive finite number is in the normal range in every mode |
| Roots.RootPlace | src/sqrt_fma.cpp:269-282 | against any other number the rounded root is extreme on the prescribed side, or in a nearest mode the root is on its side of their mean |
| Meaning64.FlagsMeaning | src/arithmetic.cpp:74-143 | for every exact result: INEXACT iff the returned value differs from it, OVERFLOW iff the unbounded rounding is out of range, UNDERFLOW iff inexact and below 2^-1022; no other flag |
| Meaning64.OverflowThreshold | src/arithmetic.cpp:74-109 | in the nearest modes overflow starts exactly at 2^1024 - 2^970 |
| Meaning64.NearestMeaning | src/arithmetic.cpp:51-146 | no finite binary64 number is closer to the exact value than a finite result |
| Meaning64.UpwardMeaning | src/arithmetic.cpp:51-146 | RUP returns the least finite number that is at least the exact value |
| Meaning64.DownwardMeaning | src/arithmetic.cpp:51-146 | RDN returns the greatest finite number that is at most the exact value |
| Meaning64.TruncationMeaning | src/arithmetic.cpp:51-146 | RTZ always returns a finite number, the largest magnitude that is at most the exact one |
| Meaning64.RootMeaning | src/sqrt_fma.cpp:284-291 | the root of a positive number is finite; INEXACT iff its square is not the operand; OVERFLOW and UNDERFLOW never |
| Meaning64.RootBest | src/sqrt_fma.cpp:116-315 | no other binary64 number is the root that the mode demands |
| Meaning64.TieMeaning | src/arithmetic.cpp:51-146 | half way between neighbouring finite numbers RNE returns the one with the even encoding and RNA the one farther from zero |
| Meaning64.DeliveryMeaning | src/arithmetic.cpp:51-146 | an arithmetic result is never a NaN, has the sign of the exact value, or the prescribed one for zero, and is infinite only with OVERFLOW, which the mode turns into an infinity or the largest finite number |
| Special64.PropagatedNan | src/internal.h:381-395 | the first NaN operand is returned with its sign and payload and with the top fraction bit set |
| Special64.SumSpecial | src/arithmetic.cpp:397-453 | the sum is a NaN iff an operand is one or opposite infinities meet, then positive with only the top fraction bit set and INVALID; an infinite operand decides sign and value without flags; the sign of a zero sum; finite operands give an infinity only with OVERFLOW |
| Special64.SubtractionSpecial | src/arithmetic.cpp:481-497 | the same for subtraction, with the sign of the subtrahend reversed |
| Special64.ProductSpecial | src/arithmetic.cpp:506-536 | a NaN iff an operand is one or infinity meets zero; infinite and zero products carry the product of the signs and raise nothing |
| Special64.QuotientSpecial | src/arithmetic.cpp:552-597 | a NaN iff an operand is one, or inf / inf, or 0 / 0; DIVBYZERO iff a finite nonzero number is divided by zero, and then an infinity with the sign of the quotient and no other flag; infinite operands give an infinity or a zero without flags |
| Special64.RootSpecial | src/sqrt_fma.cpp:116-149 | INVALID iff the operand is a signaling NaN or a negative number other than zero, which gives a quiet NaN; zeros keep their sign and +infinity stays, without flags |
| Special64.FusedSpecial | src/sqrt_fma.cpp:497-577 | a NaN iff an operand is one, infinity meets zero, or an infinite product meets the opposite infinity; each with its flags; the sign of infinite and zero results |
| Special64.FusedNan | src/sqrt_fma.cpp:531-545 | the first NaN operand is returned quiet, unless infinity times zero comes before it |
| Special64.NanAddend | src/sqrt_fma.cpp:524-545 | a NaN addend is returned iff the factors are not infinity and zero or it becomes the same NaN; INVALID iff they are or it is signaling |
| Special64.NanAddendExample | src/sqrt_fma.cpp:533-534 | infinity times zero plus a quiet NaN returns another NaN, with INVALID |
| Special64.RemainderSpecial | src/arithmetic.cpp:632-659 | INVALID with a quiet NaN iff the dividend is infinite or the divisor is zero; an infinite divisor leaves the dividend |
| Fenv.FeAcc.Raise | src/internal_fenv.h:108 | flags accumulate and are never cleared |
| Shifts.ShrDivides | src/internal.h:134-141 | a right shift is floor division, and a bit is lost iff the division leaves a remainder |
| Shifts.JamWithin | src/internal.h:134-141 | jamming by s is invisible to any further shift by at least one place, in the kept bits and in stickiness |
| Shifts.JamCompose | src/internal.h:134-141 | jamming by a and then by b is jamming by a + b |
| Words.ShiftRightJamming | src/internal.h:134-141 | for every count, 64 and beyond included, the word is the jammed shift of the number |
| Words.Clz64 | src/internal.h:149-176 | shifting left by the count puts the top bit at position 63; 64 for zero |
| Words.ClzPosition | src/internal.h:149-176 | the count places the operand between neighbouring powers of two |
| Convert32.Clz32 | src/internal.h:179-202 | the 32-bit count places its operand between neighbouring powers of two; 32 for zero |
| Cells.JamCell | src/internal.h:134-141 | jamming keeps everything the exact result says about grids of at least two units |
| Cells.AddCell | src/arithmetic.cpp:207-240 | adding an exactly held operand to a jammed one keeps the cell of the exact sum |
| Cells.SubCell | src/arithmetic.cpp:247-304 | subtracting a jammed operand from an exactly held one keeps the cell of the exact difference |
| Cells.RoundThree | src/fp256/soft_f256.cpp:145-189 | three extra bits (guard, two sticky) suffice for correct rounding |
| Wide.Mul64x64To128 | src/internal.h:219-252 | the two words hold the exact product, for all inputs |
| Wide.Less | src/internal.h:274-276 | the order of the numbers |
| Wide.Add | src/internal.h:291-294 | addition modulo 2^128 |
| Wide.Sub | src/internal.h:295-298 | subtraction modulo 2^128 |
| Wide.ShiftLeft | src/internal.h:299-307 | multiplication by a power of two modulo 2^128, for every count |
| Wide.ShiftRight | src/internal.h:308-316 | floor division by a power of two, for every count |
| Wide.HighestBit | src/internal.h:321-325 | the position of the leading one, -1 for zero |
| Wide.DigitTest | src/internal.h:345-353 | the loop's test holds exactly while the digit guess is too large |
| Wide.QuotientDigit | src/internal.h:345-353 | the corrected guess is the true quotient digit, and its loop ends |
| Wide.DigitAndRest | src/internal.h:345-356 | the wrapped difference is the true partial remainder |
| Wide.DivMod | src/internal.h:332-369 | quotient * denominator + remainder = numerator with remainder < denominator, despite the wrap-around |
| Binary64.Code | src/internal.h:79-89 | the fields make up the encoding |
| Binary64.Pack | src/internal.h:95-98 | packing sign, exponent and fraction in range gives the encoding of that code |
| Binary64.RoundOfCode | src/internal.h:79-98 | every finite number is its own rounding, without flags |
| Binary64.SubtractionIsSum | src/arithmetic.cpp:481-497 | adding the operand with its sign flipped is subtraction of the values, specials and zero sign included |
| Binary64.NanPreference | src/internal.h:381-395 | the NaN returned differs from the documented preference iff a quiet NaN comes first, a signaling one second, and they do not become the same |
| Binary64.NanPreferenceExample | src/internal.h:381-395 | two such NaNs |
| Pack64.EncodeRounded | src/arithmetic.cpp:99-131 | carry out of the significand and promotion of a subnormal give the encoding of the rounded code, or overflow |
| Pack64.RoundBit9 | src/arithmetic.cpp:87-145 | bits and flags of the correct rounding, from 9 low bits |
| Pack64.RoundAndPack | src/arithmetic.cpp:51-146 | bits and flags of the correct rounding of the exact result, for every exponent |
| Arithmetic64.NormaliseSubnormal | src/arithmetic.cpp:160-172 | the significand's leading bit is at 52 and the shift accounts for it |
| Arithmetic64.UnpackFiniteNonzero | src/arithmetic.cpp:187-204 | significand and exponent whose value is exactly the operand's magnitude |
| Arithmetic64.AlignedSum | src/arithmetic.cpp:207-240 | with the smaller operand jammed by any distance, the sum keeps the cell of the exact sum |
| Arithmetic64.AddMagnitudes | src/arithmetic.cpp:207-240 | the correctly rounded sum of the magnitudes, with its flags |
| Arithmetic64.AlignedDifference | src/arithmetic.cpp:247-304 | either nothing was jammed or at most one leading bit cancels, so the normalized difference keeps the cell of the exact one |
| Arithmetic64.SubMagnitudes | src/arithmetic.cpp:247-304 | the correctly rounded difference, with its flags; the given zero sign on exact cancellation |
| Arithmetic64.NormalizeProduct | src/arithmetic.cpp:323-344 | the leading bit of the 105- or 106-bit product is brought to bit 61 without losing what rounding needs |
| Arithmetic64.MulImpl | src/arithmetic.cpp:307-347 | the correctly rounded product, with its flags |
| Arithmetic64.QuotientCell | src/arithmetic.cpp:350-379 | the integer quotient with the remainder as sticky bit keeps the cell of the exact quotient |
| Arithmetic64.QuotientSig | src/arithmetic.cpp:350-379 | the quotient's leading bit is fixed and it keeps the cell of the exact quotient |
| Arithmetic64.DivImpl | src/arithmetic.cpp:350-379 | the correctly rounded quotient, with its flags |
| Arithmetic64.AddR | src/arithmetic.cpp:397-453 | all operands, all modes: the correct rounding of the exact sum with its flags, NaN and infinity rules, -0 on cancellation only in RDN |
| Arithmetic64.SubR | src/arithmetic.cpp:481-497 | all operands, all modes: the correct rounding of the exact difference Value(a) - Value(b) with its flags; a NaN subtrahend comes back with its sign flipped |
| Arithmetic64.MulR | src/arithmetic.cpp:506-536 | the same for the product |
| Arithmetic64.DivR | src/arithmetic.cpp:552-597 | the same for the quotient, with DIVBYZERO |
| ExactResults.RatioCell | src/arithmetic.cpp:350-379 | integer quotient and remainder locate the real quotient |
| ExactResults.RootStep | src/sqrt_fma.cpp:55-108 | one digit step keeps root^2 + rem equal to the consumed radicand and rem at most 2 root |
| ExactResults.RootCell | src/sqrt_fma.cpp:116-315 | integer root and remainder locate the real root |
| Sqrt64.Digit | src/sqrt_fma.cpp:89-101 | the loop body keeps the invariant on the two 128-bit registers, without overflow |
| Sqrt64.IsqrtBits | src/sqrt_fma.cpp:55-108 | the integer square root and its remainder |
| Sqrt64.IntegerRoot | src/sqrt_fma.cpp:152-267 | a 54-bit root whose radicand is exactly the operand's magnitude, up to an even power of two |
| Sqrt64.RootRounded | src/sqrt_fma.cpp:272-314 | rounding the 54-bit root at its last bit is correct rounding of the real root; INEXACT iff it is not the exact root |
| Sqrt64.SqrtR | src/sqrt_fma.cpp:116-315 | all operands, all modes: the correctly rounded root with its flags |
| Frames.FrameSum | src/sqrt_fma.cpp:648-699 | a jammed operand added in the frame leaves the bits rounding needs |
| Frames.FrameDiff | src/sqrt_fma.cpp:648-714 | cancelling against a jammed operand costs at most one leading bit |
| Fma64.RoundTarget | src/sqrt_fma.cpp:430-448 | the significand kept above the target bit, rounded by the bits below, is the rounded code |
| Fma64.EncodeMant | src/sqrt_fma.cpp:450-494 | carry and subnormal promotion give the encoding of the code, or overflow |
| Fma64.FrameTooSmall | src/sqrt_fma.cpp:416-429 | with nothing kept only a directed mode away from zero must return a nonzero result, except where half of the smallest subnormal is lost |
| Fma64.RoundAndPack128 | src/sqrt_fma.cpp:356-495 | for every 128-bit magnitude: flags of the correct rounding always, bits of it unless half of the smallest subnormal is lost, and then zero |
| Fma64.LostHalfExample | src/sqrt_fma.cpp:416-429 | a magnitude for which it is lost |
| Fma64.PlaceInFrame | src/sqrt_fma.cpp:652-694 | an operand moved into the frame is held exactly or jammed below the other's bits |
| Fma64.Combine | src/sqrt_fma.cpp:696-714 | the signed sum in the frame keeps what rounding needs; exact cancellation is detected exactly |
| Fma64.ExactFused | src/sqrt_fma.cpp:579-714 | product and addend in one frame stand for the exact a*b + c |
| Fma64.FmaR | src/sqrt_fma.cpp:497-722 | all operands, all modes: the single correct rounding of the exact a*b + c with its flags |
| Rne64.RoundAndPackRne | src/internal_arith.h:87-145 | the specialized packing is RNE rounding, bits and flags |
| Rne64.AddMagnitudesRne | src/internal_arith.h:148-177 | the RNE sum of the magnitudes |
| Rne64.SubMagnitudesRne | src/internal_arith.h:180-226 | the RNE difference, +0 on cancellation |
| Rne64.MulCoreRne | src/internal_arith.h:228-263 | the RNE product |
| Rne64.AddRne | src/internal_arith.h:312-358 | the specialized addition meets the specification of the mode-parametric one in RNE |
| Rne64.SubRne | src/internal_arith.h:360-380 | the specialized subtraction delivers the RNE rounding of Value(a) - Value(b), as the mode-parametric one |
| Rne64.MulRne | src/internal_arith.h:382-411 | likewise multiplication |
| Rne64.DivRne | src/internal_arith.h:413-455 | likewise division |
| Rne64.SqrtRne | src/internal_arith.h:499-593 | likewise square root |
| Rne64.FmaRoundAndPackRne | src/internal_arith.h:605-685 | for every 128-bit magnitude: RNE flags always, RNE bits unless half of the smallest subnormal is lost, and then zero |
| Rne64.FmaRne | src/internal_arith.h:687-849 | likewise fused multiply-add |
| Rne64.Agree | src/internal_arith.h:312-849 | both forms of each operation return the same bits and flags on all operands |
| Integers.RoundIntMeans | src/convert.cpp:143-234 | the integer a mode demands: nearest, tie rule, or the prescribed side, within one |
| Convert64.U64MagnitudeToBits | src/convert.cpp:53-103 | a 64-bit magnitude is correctly rounded under its sign |
| Convert64.I64ToFp64 | src/convert.cpp:106-127 | the correct rounding of every signed integer, the most negative one included |
| Convert64.U64ToFp64 | src/convert.cpp:130-135 | the correct rounding of every unsigned integer |
| Convert64.ToU64Magnitude | src/convert.cpp:143-234 | the mode-rounded integer of the magnitude, or exactly when it is a NaN or too large |
| Convert64.ToSigned | src/convert.cpp:239-287 | for every signed width the mode-rounded integer clamped to the range, with exact flags |
| Convert64.ToUnsigned | src/convert.cpp:290-319 | for every unsigned width likewise |
| Convert64.RoundedRange | src/convert.cpp:239-319 | the rounded integer is past a bound of the type iff the operand is past it by the mode's margin, ties by the parity of the bound |
| Convert64.RoundedMeans | src/convert.cpp:143-234 | the rounded integer of a number below 2^64 is the one its mode demands, ties included, with its sign |
| Convert64.SaturatedMeans | src/convert.cpp:239-319 | for every range around zero: a NaN gives 0, a value rounded past a bound gives that bound, an infinity or a magnitude of at least 2^64 the bound of its sign, and everything else the integer the mode demands |
| Convert64.ConvertFlagsMean | src/convert.cpp:220-319 | INVALID iff NaN, infinite, at least 2^64 in magnitude or rounded past a bound; INEXACT iff below 2^64 and no integer; nothing else |
| Convert64.BothFlags | src/convert.cpp:220-319 | INVALID and INEXACT come together iff the operand is no integer, below 2^64, and past a bound by the mode's margin |
| Convert64.BothFlagsExample | src/convert.cpp:267-270 | 2^31 + 1/2 to 32 bits raises both in every mode |
| Convert64.RoundTripI64 | src/convert.cpp:106-287 | integers up to 2^53 survive the trip through binary64 in every pair of modes, without flags |
| Convert32.FromF32 | src/convert.cpp:330-379 | widening keeps the value of every finite number and the payload of a NaN |
| Convert32.OverflowBits32 | src/convert.cpp:392-407 | the overflow result each mode prescribes |
| Convert32.ToF32 | src/convert.cpp:409-540 | narrowing is correct rounding with its flags in every mode, through the subnormal range |
| Convert32.NarrowPayloadBits | src/convert.cpp:425-427 | a narrowed NaN is quiet and keeps the top 22 bits of the payload below the quiet bit |
| Convert32.RoundTripF32 | src/convert.cpp:330-540 | f32 to f64 to f32 is the identity on every pattern, in every mode, except that a NaN returns quiet |
| Round64.TruncValue | src/rounding.cpp:40-67 | clearing the fraction bits leaves the integer part |
| Round64.NextInteger | src/rounding.cpp:88-135 | for every operand below 2^52: the bit increment on its truncation, zero included, gives the first integer beyond it, carrying into the exponent where it must |
| Round64.FromZero | src/rounding.cpp:98-104 | from a zero of either sign the step goes to one in the given direction |
| Round64.TowardZeroStep | src/rounding.cpp:88-135 | the step toward zero is right if and only if the integer is not a power of two |
| Round64.TowardZeroExample | src/rounding.cpp:128-133 | two steps to one and a half |
| Round64.RintCorrect | src/rounding.cpp:142-326 | trunc, floor, ceil, round and rint return the integer their mode demands, with the operand's sign, for every finite operand |
| Round64.RintSpecial | src/rounding.cpp:312-326 | infinities and NaNs pass through |
| Scale64.Clamped | src/rounding.cpp:397-496 | clamping the scale to 2100 changes no result |
| Scale64.Ldexp | src/rounding.cpp:397-496 | the RNE rounding of x * 2^n for every integer n |
| Scale64.Frexp | src/rounding.cpp:501-542 | a fraction in [1/2, 1) and an exponent whose product is the operand |
| Scale64.Reassemble | src/rounding.cpp:397-542 | ldexp of frexp returns every finite operand bit for bit |
| Remainders.TruncatedUnique | src/arithmetic.cpp:613-739 | the truncating remainder is determined by its operands |
| Remainders.NearestUnique | src/sleef/sleef_inv_hyp_pow.cpp:134-175 | the nearest-even remainder is determined by its operands |
| Rem64.LongRemainder | src/arithmetic.cpp:685-706 | the loop computes the integer remainder of the shifted significand, also when it leaves early |
| Rem64.PackRemainder | src/arithmetic.cpp:715-738 | the final pack never rounds and raises nothing |
| Rem64.Rem | src/arithmetic.cpp:613-739 | x - trunc(x/y)*y exactly, with x's sign; the special operands |
| Rem64.ScaleAndSubtract | src/sleef/sleef_inv_hyp_pow.cpp:106-121 | every subtraction of the loop is exact, and what is left is below the divisor |
| Rem64.Fmod | src/sleef/sleef_inv_hyp_pow.cpp:82-125 | the same remainder by scaling and subtracting |
| Rem64.RemUnique | src/arithmetic.cpp:613-739 | value, sign and range determine the bits |
| Rem64.SameRemainder | src/sleef/sleef_inv_hyp_pow.cpp:82-125 | both algorithms return the same bits and flags on all operands that are not NaNs |
| IeeeRem64.HalfTest | src/sleef/sleef_inv_hyp_pow.cpp:156-164 | comparing the remainder with the rounded rest of the divisor classifies below, tie and above a half correctly |
| IeeeRem64.TieIsShort | src/sleef/sleef_inv_hyp_pow.cpp:166-171 | on a tie the multiple of the divisor and the quotient are representable |
| IeeeRem64.IsOddInt | src/sleef/sleef_internal.h:95-101 | for every operand, NaNs and infinities included: true iff it is finite and an odd integer |
| IeeeRem64.Remainder | src/sleef/sleef_inv_hyp_pow.cpp:134-175 | x - n*y exactly with n the nearest integer, ties to even, and magnitude at most half of y, without flags |
| ErrorFree.ErrorRep | src/sleef/sleef_common.h:221-226 | what an RNE addition loses is representable |
| ErrorFree.TopExact | src/sleef/sleef_common.h:334-339 | the larger operand subtracts exactly from the rounded sum |
| ErrorFree.TwoSumExact | src/sleef/sleef_common.h:221-226 | six rounded operations recover the error of a sum, whatever the order of the operands |
| ErrorFree.FastTwoSumExact | src/sleef/sleef_common.h:334-339 | three suffice when the first operand is the larger one |
| ErrorFree.ProductExact | src/sleef/sleef_common.h:243-247 | rounded product plus fused remainder is the exact product if and only if that is a multiple of 2^-1074 |
| ErrorFree.TwoSum | src/sleef/sleef_common.h:221-226 | on the modelled addition: OVERFLOW is raised iff the sum is out of range or the operands are spurious; otherwise s + e = a + b |
| ErrorFree.SpuriousOverflow | src/sleef/sleef_common.h:221-226 | when the sum is in range, TwoSum overflows iff b has the largest finite magnitude and a, of the opposite sign and below 2^1023, is 4 i + 3 times 2^970 |
| ErrorFree.TwoSumSafe | src/sleef/sleef_common.h:221-226 | so unless b has the largest finite magnitude TwoSum overflows only with the sum |
| ErrorFree.TwoSumSpurious | src/sleef/sleef_common.h:221-226 | the instance i = 0, which does overflow |
| ErrorFree.FastTwoSum | src/sleef/sleef_common.h:334-339 | with the larger operand first: OVERFLOW is raised iff the sum is out of range; otherwise s + e = a + b |
| ErrorFree.TwoProduct | src/sleef/sleef_common.h:243-247 | on the modelled multiplication and fma: OVERFLOW is raised iff the product is out of range; otherwise hi + lo = a*b iff a*b is a multiple of 2^-1074 |
| ErrorFree.LostProduct | src/sleef/sleef_common.h:243-247 | the condition can fail: the square of the smallest subnormal |
| BigUint.AllZero | src/fp256/big_uint.h:12-17 | whether the value is zero |
| BigUint.CompareLimbs | src/fp256/big_uint.h:18-26 | the order of the values |
| BigUint.BitAt | src/fp256/big_uint.h:27-29 | a bit of the value |
| BigUint.SetBit | src/fp256/big_uint.h:30-33 | adds the power of two exactly when the index is in range and the bit was clear |
| BigUint.Highest | src/fp256/big_uint.h:34-45 | the position of the leading one, -1 for zero |
| BigUint.AddLimbs | src/fp256/big_uint.h:46-56 | addition modulo 2^(64 N), for every N |
| BigUint.SubLimbs | src/fp256/big_uint.h:57-67 | subtraction modulo 2^(64 N), for every N |
| BigUint.ShlLimbs | src/fp256/big_uint.h:68-79 | left shift modulo 2^(64 N), for every count |
| BigUint.ShrLimbs | src/fp256/big_uint.h:80-91 | floor division by a power of two, for every count |
| BigUint.AnyLowLimbs | src/fp256/big_uint.h:92-100 | true if and only if the shift loses a set bit |
| BigUint.JamLimbs | src/fp256/big_uint.h:101-108 | the jammed shift of the value |
| BigUint.Widen | src/fp256/big_uint.h:109-114 | keeps the value, modulo the new width |
| BigUint.AddRow | src/fp256/big_uint.h:129-134 | the inner loop adds one digit times the other operand, with no 64-bit overflow |
| BigUint.Ripple | src/fp256/big_uint.h:135-140 | the carry loop leaves nothing over when the total fits |
| BigUint.Multiply | src/fp256/big_uint.h:115-146 | the exact product, for all lengths |
| BigUint.Increment | src/fp256/soft_f256.cpp:119-125 | adds one modulo the width and reports the wrap exactly |
| BigUint.Decrement | src/fp256/soft_f256.cpp:98-104 | subtracts one modulo the width |
| Binary256.DecodeWord | src/fp256/soft_f256.cpp:39-62 | class, and for a finite nonzero operand a normalized significand with exactly its magnitude |
| Binary256.Raw | src/fp256/soft_f256.cpp:64-72 | the encoding with the given sign, exponent field and fraction |
| Binary256.EncodingUnique | src/fp256/soft_f256.cpp:64-72 | sign and code determine the four words |
| Binary256.DefaultNan | src/fp256/soft_f256.cpp:80-84 | the default quiet NaN |
| Binary256.QuietNan | src/fp256/soft_f256.cpp:85-88 | sets the quiet bit and keeps sign and payload |
| Pack256.RoundUp | src/fp256/soft_f256.cpp:127-143 | the decision agrees with the one of the binary64 code |
| Pack256.RoundExtended | src/fp256/soft_f256.cpp:154-159 | dropping three bits and incrementing gives the rounded significand; INEXACT iff a dropped bit was set |
| Pack256.PackExtended | src/fp256/soft_f256.cpp:145-189 | encoding and flags of the correct rounding of the exact result |
| Pack256.PackScaled | src/fp256/soft_f256.cpp:191-200 | the same from a magnitude of any length |
| Add256.Adjacent | src/fp256/soft_f256.cpp:90-106 | for every encoding the next or previous 256-bit word, wrapping; between the zeros and NaNs the neighbouring code toward the given infinity |
| Add256.AddNear | src/fp256/soft_f256.cpp:228-252 | exponent gap at most 274: the aligned sum fits in 512 bits and is correctly rounded |
| Add256.FarSum | src/fp256/soft_f256.cpp:253-269 | a distant operand of the same sign moves the rounding by at most the mode's step |
| Add256.StepDominant | src/fp256/soft_f256.cpp:253-269 | the step or its absence is the correct rounding in every mode |
| Add256.AddFar | src/fp256/soft_f256.cpp:253-269 | exponent gap above 274: the value of the correct rounding, only INEXACT raised |
| Add256.AddImpl | src/fp256/soft_f256.cpp:210-269 | all operands, all modes: the correct rounding of the exact sum on both paths; its flags, unless an overflow is missed |
| Add256.MissedOverflowFlags | src/fp256/soft_f256.cpp:267-268 | where the exception applies the flags are wrong |
| Add256.MissedOverflowExample | src/fp256/soft_f256.cpp:267-268 | operands for which it applies |
| Arithmetic256.MulImpl | src/fp256/soft_f256.cpp:271-288 | all operands, all modes: the correctly rounded product with its flags |
| Arithmetic256.ProductMeans | src/fp256/soft_f256.cpp:271-288 | for finite operands that is the rounded product of the values |
| Arithmetic256.Divide | src/fp256/soft_f256.cpp:316-324 | restoring division: q*den + rem = num * 2^239 with rem < den |
| Arithmetic256.QuotientTop | src/fp256/soft_f256.cpp:310-327 | the quotient's leading bit is at 239 |
| Arithmetic256.QuotientFramed | src/fp256/soft_f256.cpp:316-327 | the quotient with its sticky bit rounds as the exact one |
| Arithmetic256.DivImpl | src/fp256/soft_f256.cpp:290-328 | all operands, all modes: the correctly rounded quotient with its flags |
| Arithmetic256.QuotientMeans | src/fp256/soft_f256.cpp:290-328 | for finite operands that is the rounded quotient of the values |
| Fma256.IntegerRoot | src/fp256/soft_f256.cpp:345-360 | 240 digits of the root of a 480-bit radicand, with the remainder |
| Fma256.SqrtImpl | src/fp256/soft_f256.cpp:330-364 | all operands, all modes: the correctly rounded root with its flags |
| Fma256.PlaceInFrame | src/fp256/soft_f256.cpp:202-208 | the operand at the common scale, jammed if it must lose bits |
| Fma256.Combine | src/fp256/soft_f256.cpp:397-414 | with the leading bit at 509, the joined operands round as the exact sum |
| Fma256.FmaImpl | src/fp256/soft_f256.cpp:366-415 | all operands, all modes: the single correct rounding of a*b + c with its flags |
| Fma256.FusedMeans | src/fp256/soft_f256.cpp:366-415 | for finite operands that is the rounded a*b + c of the values |
| Fma256.MissedInvalid | src/fp256/soft_f256.cpp:369-372 | INVALID is missing for a signaling NaN operand iff that is only the addend and a factor is a quiet NaN |
| Fma256.MissedInvalidExample | src/fp256/soft_f256.cpp:369-372 | operands for which it is |
| Remainder256.RoundedInteger | src/fp256/soft_f256.cpp:473-485 | the integer the mode demands, modulo 2^512 above the exponents its callers pass, and whether that changed the value |
| Remainder256.RintImpl | src/fp256/soft_f256.cpp:487-501 | the integer the mode demands, with the operand's sign, for every finite operand; INEXACT iff it differs |
| Remainder256.LongDivide | src/fp256/soft_f256.cpp:517-524 | remainder and quotient parity for every exponent gap |
| Remainder256.DividedNearest | src/fp256/soft_f256.cpp:525-546 | complementing the remainder past a half, or on an odd tie, gives the nearest-even remainder |
| Remainder256.HalfNearest | src/fp256/soft_f256.cpp:528-546 | exponent gap -1: the dividend or one divisor less |
| Remainder256.SmallNearest | src/fp256/soft_f256.cpp:532-533 | exponent gap at most -2: the dividend is its own remainder |
| Remainder256.RemainderImpl | src/fp256/soft_f256.cpp:503-547 | the exact nearest-even remainder for every exponent gap, without flags; the special operands |
| Convert256.ToF64Impl | src/fp256/soft_f256.cpp:428-471 | narrowing is correct rounding in every mode, through the subnormal range, with the flags of the returned encoding |
| Convert256.NarrowUnderflow | src/fp256/soft_f256.cpp:463-467 | the flags are those of a binary64 result, except that UNDERFLOW is missing exactly on the band below the smallest normal number |
| Convert256.NarrowUnderflowExample | src/fp256/soft_f256.cpp:463-467 | an operand half way between the largest subnormal and the smallest normal binary64 number, on both bands |
| Convert256.FromF64 | src/fp256/soft_f256.cpp:629-657 | widening keeps the value of every finite number; a NaN keeps sign and payload, moved to the top, and becomes quiet |
| Convert256.RoundTripF64 | src/fp256/soft_f256.cpp:428-657 | binary64 to binary256 and back is the identity on every pattern that is not a NaN, in every mode, without flags |
| Meaning256.FlagsMeaning | src/fp256/soft_f256.cpp:145-189 | for every exact result: INEXACT iff the returned value differs from it, OVERFLOW iff the unbounded rounding is out of range, UNDERFLOW iff inexact and returned below the smallest normal number |
| Meaning256.UnderflowMeaning | src/fp256/soft_f256.cpp:176-184 | UNDERFLOW is missing against tininess before and after rounding exactly on the two bands, and never raised in addition |
| Meaning256.MissedUnderflowExample | src/fp256/soft_f256.cpp:178-182 | a product, half way between the largest subnormal and the smallest normal number, on both bands |
| Meaning256.OverflowThreshold | src/fp256/soft_f256.cpp:164-175 | in the nearest modes overflow starts exactly at 2^262144 - 2^261906 |
| Meaning256.NearestMeaning | src/fp256/soft_f256.cpp:145-189 | no finite binary256 number is closer to the exact value than a finite result |
| Meaning256.UpwardMeaning | src/fp256/soft_f256.cpp:145-189 | RUP returns the least finite number that is at least the exact value |
| Meaning256.DownwardMeaning | src/fp256/soft_f256.cpp:145-189 | RDN returns the greatest finite number that is at most the exact value |
| Meaning256.TruncationMeaning | src/fp256/soft_f256.cpp:145-189 | RTZ always returns a finite number, the largest magnitude that is at most the exact one |
| Meaning256.RootMeaning | src/fp256/soft_f256.cpp:330-364 | the root of a positive number is finite; INEXACT iff its square is not the operand; OVERFLOW and UNDERFLOW never |
| Meaning256.RootBest | src/fp256/soft_f256.cpp:330-364 | no other binary256 number is the root that the mode demands |
| Meaning256.TieMeaning | src/fp256/soft_f256.cpp:122-189 | half way between neighbouring finite numbers RNE returns the one with the even encoding and RNA the one farther from zero |
| Meaning256.DeliveryMeaning | src/fp256/soft_f256.cpp:145-189 | an arithmetic result is never a NaN, has the sign of the exact value, or the prescribed one for zero, and is infinite only with OVERFLOW |
| Special256.Signaling | src/fp256/soft_f256.cpp:85-88 | a NaN is signaling iff bit 43 of its top limb is clear |
| Special256.InvalidNan | src/fp256/soft_f256.cpp:80-84 | the result of an invalid operation, limb by limb: positive, with only the quiet bit set |
| Special256.PropagatedNan | src/fp256/soft_f256.cpp:108-117 | the first NaN operand is returned with its sign and payload and quiet; INVALID iff an operand is signaling |
| Special256.SumSpecial | src/fp256/soft_f256.cpp:210-227 | a NaN iff an operand is one or opposite infinities meet, with exactly INVALID; an infinite operand decides sign and value without flags, in the flags the code raises too; the sign of a zero sum |
| Special256.ProductSpecial | src/fp256/soft_f256.cpp:271-284 | a NaN iff an operand is one or infinity meets zero; infinite and zero products carry the product of the signs and raise nothing |
| Special256.QuotientSpecial | src/fp256/soft_f256.cpp:290-309 | a NaN iff an operand is one, or inf / inf, or 0 / 0; DIVBYZERO iff a finite nonzero number is divided by zero, and then an infinity with the sign of the quotient; infinite operands give an infinity or a zero without flags |
| Special256.RootSpecial | src/fp256/soft_f256.cpp:330-339 | INVALID iff the operand is a signaling NaN or a negative number other than zero, which gives the default NaN; zeros keep their sign and +infinity stays |
| Special256.FusedSpecial | src/fp256/soft_f256.cpp:373-391 | for operands that are not NaNs: a NaN, with INVALID, iff infinity meets zero or an infinite product the opposite infinity; the sign of infinite and zero results |
| Special256.FusedNan | src/fp256/soft_f256.cpp:369-372 | the first NaN operand is returned quiet; INVALID by the factors alone if one of them is a NaN, otherwise by the addend |

## Left out

- The thread-local flag state, the `_ex` and null-state entry points and the three floating-point-environment builds: every operation here adds to an accumulator that the caller passes.
- The alternative signaling-NaN builds: the model has the default one, where an operation quiets a NaN operand. Subtraction flips the sign of the subtrahend before it looks for NaNs, as the code does.
- Updates of limb arrays in place: `set_bit`, `increment` and the loops of `adjacent` take a sequence and return a new one, so aliasing is not modelled; `multiply` works on arrays.
- Scale64.Ldexp: takes any integer, where the source takes a 32-bit `int`; exponents inside the routines are unbounded integers too.
- Comparisons, minimum and maximum: the comparison of two non-negative numbers inside the remainder algorithms is the comparison of their encodings; the comparison functions of `classify.cpp` are not part of this model.
- Binary256 subtraction (addition of the operand with its sign flipped), conversions between binary256 and 64-bit integers, and binary256 comparisons.
- `sf64_fract`, `sf64_modf`, `sf64_ilogb` and `sf64_logb`.
- `sf64_hypot` and `sf64_rsqrt`, which compose the operations above and are not single roundings.
- The transcendental functions, whose accuracy is a sampled error budget.
- Binary128, OpenCL wrappers, SIMD packs, optimization barriers, benchmarks, fuzzers and tests.
