/** The round-to-nearest-even specializations of src/internal_arith.h: the mode switch folded away. Each returns the
    bits and raises the flags that the mode-parametric code is specified by, in mode RNE. */
module Rne64 {
  import opened Powers
  import opened Shifts
  import opened Rounding
  import opened Cells
  import opened ExactResults
  import opened Frames
  import opened Words
  import opened Wide
  import opened Binary64
  import opened Fenv
  import opened Pack64
  import opened Arithmetic64
  import opened Sqrt64
  import opened Fma64

  /** The folded decision. */
  predicate GoesUp(roundBit: bool, sticky: bool, lsb: bool)
    ensures GoesUp(roundBit, sticky, lsb) <==> ShouldRoundUp(true, roundBit, sticky, lsb, RNE)
    ensures GoesUp(roundBit, sticky, lsb) <==> ShouldRoundUp(false, roundBit, sticky, lsb, RNE)
  {
    roundBit && (sticky || lsb)
  }

  // ----- rounding and encoding -----

  /** `arith_round_and_pack_rne`. */
  method RoundAndPackRne(neg: bool, exp0: int, sig0: u64, fe: FeAcc, ghost x: Exact) returns (r: u64)
    requires 0x2000_0000_0000_0000 <= sig0 < 0x4000_0000_0000_0000
    requires x.v >= 0.0 && SameCell(sig0, exp0 - 1084, x, 8)
    modifies fe
    ensures r == RoundSigned(RNE, neg, x).bits
    ensures fe.bits == old(fe.bits) + RoundSigned(RNE, neg, x).flags
  {
    if exp0 >= 0x7FF {
      TooLarge(RNE, neg, exp0, sig0, x);
      OutOfRange(RNE, neg, x);
      fe.Raise({Overflow, Inexact});
      return Pack(neg, 0x7FF, 0);
    }
    var exp, sig := exp0, sig0;
    if exp <= 0 {
      JamCell(sig, exp - 1084, x, 8, 1 - exp, 8);
      JamHalves(sig, 1 - exp);
      sig := ShiftRightJamming(sig, 1 - exp);
      exp := 0;
    }
    r := RoundBit9Rne(neg, exp, sig, fe, x);
  }

  method RoundBit9Rne(neg: bool, exp: nat, sig: u64, fe: FeAcc, ghost x: Exact) returns (r: u64)
    requires sig < 0x4000_0000_0000_0000 && exp < 0x7FF
    requires exp == 0 <==> sig < 0x2000_0000_0000_0000
    requires x.v >= 0.0 && SameCell(sig, (if exp == 0 then 1 else exp) - 1084, x, 8)
    modifies fe
    ensures r == RoundSigned(RNE, neg, x).bits
    ensures fe.bits == old(fe.bits) + RoundSigned(RNE, neg, x).flags
  {
    var roundBit := sig / 0x100 % 2 != 0;
    var sticky := sig % 0x100 != 0;
    var lsb := sig / 0x200 % 2 != 0;
    var rounded: nat := sig;
    if GoesUp(roundBit, sticky, lsb) {
      rounded := rounded + 0x200;
    }
    Rounded(RNE, neg, x, sig, if exp == 0 then 0 else exp - 1, rounded);
    var overflow;
    overflow, r := EncodeRounded(neg, exp, rounded);
    if overflow {
      OutOfRange(RNE, neg, x);
      fe.Raise({Overflow, Inexact});
      return Pack(neg, 0x7FF, 0);
    }
    InRange(RNE, neg, x, rounded / 0x200 + (if exp == 0 then 0 else exp - 1) * IMPLICIT);
    if roundBit || sticky {
      fe.Raise(if exp == 0 then {Underflow, Inexact} else {Inexact});
    }
  }

  // ----- addition and subtraction -----

  method RoundSumRne(neg: bool, exp: int, sigA: u64, sigB: u64, fe: FeAcc, ghost x: Exact) returns (r: u64)
    requires 0x2000_0000_0000_0000 <= sigA + sigB < 0x8000_0000_0000_0000
    requires x.v >= 0.0 && SameCell(sigA + sigB, exp - 1084, x, 8)
    modifies fe
    ensures r == RoundSigned(RNE, neg, x).bits
    ensures fe.bits == old(fe.bits) + RoundSigned(RNE, neg, x).flags
  {
    var sum: u64 := sigA + sigB;
    if sum / 0x4000_0000_0000_0000 % 2 != 0 {
      JamCell(sum, exp - 1084, x, 8, 1, 8);
      JamOne(sum);
      sum := ShiftRightJamming(sum, 1);
      r := RoundAndPackRne(neg, exp + 1, sum, fe, x);
    } else {
      r := RoundAndPackRne(neg, exp, sum, fe, x);
    }
  }

  /** `arith_add_magnitudes_rne`. */
  method AddMagnitudesRne(neg: bool, a: u64, b: u64, fe: FeAcc) returns (r: u64)
    requires IsFinite(a) && !IsZero(a) && IsFinite(b) && !IsZero(b)
    modifies fe
    ensures Magnitude(a) + Magnitude(b) >= 0.0
    ensures r == RoundSigned(RNE, neg, Num(Magnitude(a) + Magnitude(b))).bits
    ensures fe.bits == old(fe.bits) + RoundSigned(RNE, neg, Num(Magnitude(a) + Magnitude(b))).flags
  {
    var ua := UnpackFiniteNonzero(a);
    var ub := UnpackFiniteNonzero(b);
    ghost var x := Num(Magnitude(a) + Magnitude(b));
    DecodeNonNegative(F64, Code(a));
    DecodeNonNegative(F64, Code(b));
    var diff := ua.exp - ub.exp;
    if diff > 0 {
      AlignedSum(ua.sig, ub.sig, diff, ua.exp - 1084, Magnitude(a), Magnitude(b));
      var sigB := ShiftRightJamming(ub.sig, diff);
      r := RoundSumRne(neg, ua.exp, ua.sig, sigB, fe, x);
    } else if diff < 0 {
      AlignedSum(ub.sig, ua.sig, -diff, ub.exp - 1084, Magnitude(b), Magnitude(a));
      var sigA := ShiftRightJamming(ua.sig, -diff);
      r := RoundSumRne(neg, ub.exp, sigA, ub.sig, fe, x);
    } else {
      AlignedSum(ua.sig, ub.sig, 0, ua.exp - 1084, Magnitude(a), Magnitude(b));
      NoJam(ub.sig);
      r := RoundSumRne(neg, ua.exp, ua.sig, ub.sig, fe, x);
    }
  }

  method RoundDifferenceRne(neg: bool, exp: int, sigA: u64, sigB: u64, fe: FeAcc,
                            ghost small: nat, ghost d: nat, ghost x: Exact)
    returns (r: u64)
    requires 0x2000_0000_0000_0000 <= sigA < 0x4000_0000_0000_0000 && sigA % 0x200 == 0
    requires small < 0x4000_0000_0000_0000 && small % 0x200 == 0
    requires sigB == ShrJam(small, d) && sigB < sigA
    requires x == Num(Dyadic(sigA, exp - 1084) - Dyadic(small, exp - 1084 - d)) && x.v >= 0.0
    modifies fe
    ensures r == RoundSigned(RNE, neg, x).bits
    ensures fe.bits == old(fe.bits) + RoundSigned(RNE, neg, x).flags
  {
    var diff: u64 := sigA - sigB;
    var lz := Clz64(diff);
    LeadingRoom(diff, lz);
    var shift := lz - 2;
    ShlShl(diff, shift, 2);
    FourTimes(Shl(diff, shift));
    AlignedDifference(sigA, small, d, exp - 1084, Dyadic(sigA, exp - 1084),
                      Dyadic(small, exp - 1084 - d), shift);
    diff := Shl(diff, shift);
    r := RoundAndPackRne(neg, exp - shift, diff, fe, x);
  }

  /** `arith_sub_magnitudes_rne`: exact cancellation gives +0. */
  method SubMagnitudesRne(aNeg: bool, a: u64, b: u64, fe: FeAcc) returns (r: u64)
    requires IsFinite(a) && !IsZero(a) && IsFinite(b) && !IsZero(b)
    modifies fe
    ensures r == Difference(RNE, aNeg, Magnitude(a), Magnitude(b), false).bits
    ensures fe.bits == old(fe.bits) + Difference(RNE, aNeg, Magnitude(a), Magnitude(b), false).flags
  {
    var ua := UnpackFiniteNonzero(a);
    var ub := UnpackFiniteNonzero(b);
    var diff := ua.exp - ub.exp;
    if diff > 0 {
      LargerExponent(ua.sig, ub.sig, diff, ua.exp - 1084);
      var sigB := ShiftRightJamming(ub.sig, diff);
      r := RoundDifferenceRne(aNeg, ua.exp, ua.sig, sigB, fe, ub.sig, diff, Num(Magnitude(a) - Magnitude(b)));
    } else if diff < 0 {
      LargerExponent(ub.sig, ua.sig, -diff, ub.exp - 1084);
      var sigB := ShiftRightJamming(ua.sig, -diff);
      r := RoundDifferenceRne(!aNeg, ub.exp, ub.sig, sigB, fe, ua.sig, -diff, Num(Magnitude(b) - Magnitude(a)));
    } else if ua.sig > ub.sig {
      DyadicMono(ub.sig, ua.sig, ua.exp - 1084);
      NoJam(ub.sig);
      r := RoundDifferenceRne(aNeg, ua.exp, ua.sig, ub.sig, fe, ub.sig, 0, Num(Magnitude(a) - Magnitude(b)));
    } else if ua.sig < ub.sig {
      DyadicMono(ua.sig, ub.sig, ua.exp - 1084);
      NoJam(ua.sig);
      r := RoundDifferenceRne(!aNeg, ua.exp, ub.sig, ua.sig, fe, ua.sig, 0, Num(Magnitude(b) - Magnitude(a)));
    } else {
      r := SignedZero(false);
    }
  }

  /** `sf64_internal_add_rne`. */
  method AddRne(a: u64, b: u64, fe: FeAcc) returns (r: u64)
    modifies fe
    ensures r == Sum(RNE, a, b).bits && fe.bits == old(fe.bits) + Sum(RNE, a, b).flags
  {
    if IsNan(a) || IsNan(b) {
      if IsSnan(a) || IsSnan(b) {
        fe.Raise({Invalid});
      }
      return PropagateNan(a, b);
    }
    if ExtractExp(a) == EXP_MAX || ExtractExp(b) == EXP_MAX {
      var aInf, bInf := ExtractExp(a) == EXP_MAX, ExtractExp(b) == EXP_MAX;
      if aInf && bInf {
        if Negative(a) == Negative(b) {
          return SignedInf(Negative(a));
        }
        fe.Raise({Invalid});
        return CANONICAL_NAN;
      }
      return if aInf then SignedInf(Negative(a)) else SignedInf(Negative(b));
    }
    SumWithZero(RNE, a, b);
    if IsZero(a) && IsZero(b) {
      if Negative(a) == Negative(b) {
        return SignedZero(Negative(a));
      }
      return SignedZero(false);
    }
    if IsZero(a) {
      return b;
    }
    if IsZero(b) {
      return a;
    }
    SumOfMagnitudes(RNE, a, b);
    if Negative(a) == Negative(b) {
      r := AddMagnitudesRne(Negative(a), a, b, fe);
    } else {
      r := SubMagnitudesRne(Negative(a), a, b, fe);
    }
  }

  /** `sf64_internal_sub_rne`. */
  method SubRne(a: u64, b: u64, fe: FeAcc) returns (r: u64)
    modifies fe
    ensures r == Sum(RNE, a, Negated(b)).bits && fe.bits == old(fe.bits) + Sum(RNE, a, Negated(b)).flags
    ensures r == Subtraction(RNE, a, b).bits && fe.bits == old(fe.bits) + Subtraction(RNE, a, b).flags
  {
    SubtractionIsSum(RNE, a, b);
    r := AddRne(a, Negated(b), fe);
  }

  // ----- multiplication and division -----

  /** `arith_mul_core_rne`. */
  method MulCoreRne(a: u64, b: u64, neg: bool, fe: FeAcc) returns (r: u64)
    requires IsFinite(a) && !IsZero(a) && IsFinite(b) && !IsZero(b)
    modifies fe
    ensures Magnitude(a) * Magnitude(b) >= 0.0
    ensures r == RoundSigned(RNE, neg, Num(Magnitude(a) * Magnitude(b))).bits
    ensures fe.bits == old(fe.bits) + RoundSigned(RNE, neg, Num(Magnitude(a) * Magnitude(b))).flags
  {
    var ua := UnpackFiniteNonzero(a);
    var ub := UnpackFiniteNonzero(b);
    DropNine(a, ua);
    DropNine(b, ub);
    var sigA: u64, sigB: u64 := ua.sig / 0x200, ub.sig / 0x200;
    var product := Mul64x64To128(sigA, sigB);
    ProductRange(sigA, sigB);
    ghost var x := Num(Magnitude(a) * Magnitude(b));
    ExactProduct(sigA, ua.exp - 1075, sigB, ub.exp - 1075, Nat(product));
    var sig, carry := NormalizeProduct(product, ua.exp + ub.exp - 2150, x);
    r := RoundAndPackRne(neg, ua.exp + ub.exp - 1023 + carry, sig, fe, x);
  }

  /** `sf64_internal_mul_rne`. */
  method MulRne(a: u64, b: u64, fe: FeAcc) returns (r: u64)
    modifies fe
    ensures r == Product(RNE, a, b).bits && fe.bits == old(fe.bits) + Product(RNE, a, b).flags
  {
    var neg := Negative(a) != Negative(b);
    if IsNan(a) || IsNan(b) {
      if IsSnan(a) || IsSnan(b) {
        fe.Raise({Invalid});
      }
      return PropagateNan(a, b);
    }
    if ExtractExp(a) == EXP_MAX || ExtractExp(b) == EXP_MAX {
      InfIsNotZero(a);
      InfIsNotZero(b);
      if IsZero(a) || IsZero(b) {
        fe.Raise({Invalid});
        return CANONICAL_NAN;
      }
      return SignedInf(neg);
    }
    ProductOfMagnitudes(RNE, a, b);
    if IsZero(a) || IsZero(b) {
      return SignedZero(neg);
    }
    r := MulCoreRne(a, b, neg, fe);
  }

  /** `sf64_internal_div_rne`, with `arith_div_core_rne`. */
  method DivRne(a: u64, b: u64, fe: FeAcc) returns (r: u64)
    modifies fe
    ensures r == Quotient(RNE, a, b).bits && fe.bits == old(fe.bits) + Quotient(RNE, a, b).flags
  {
    var neg := Negative(a) != Negative(b);
    if IsNan(a) || IsNan(b) {
      if IsSnan(a) || IsSnan(b) {
        fe.Raise({Invalid});
      }
      return PropagateNan(a, b);
    }
    var aInf, bInf := ExtractExp(a) == EXP_MAX, ExtractExp(b) == EXP_MAX;
    if aInf && bInf {
      fe.Raise({Invalid});
      return CANONICAL_NAN;
    }
    InfIsNotZero(a);
    InfIsNotZero(b);
    if aInf {
      return SignedInf(neg);
    }
    if bInf {
      return SignedZero(neg);
    }
    if IsZero(a) && IsZero(b) {
      fe.Raise({Invalid});
      return CANONICAL_NAN;
    }
    if IsZero(b) {
      fe.Raise({DivByZero});
      return SignedInf(neg);
    }
    QuotientOfMagnitudes(RNE, a, b);
    if IsZero(a) {
      return SignedZero(neg);
    }
    var sig, exp := QuotientSig(a, b);
    r := RoundAndPackRne(neg, exp, sig, fe, Num(Magnitude(a) / Magnitude(b)));
  }

  // ----- square root -----

  /** `sf64_internal_sqrt_rne`. */
  method SqrtRne(a: u64, fe: FeAcc) returns (r: u64)
    modifies fe
    ensures r == SquareRoot(RNE, a).bits && fe.bits == old(fe.bits) + SquareRoot(RNE, a).flags
  {
    if ExtractExp(a) == EXP_MAX {
      if ExtractFrac(a) != 0 {
        if IsSnan(a) {
          fe.Raise({Invalid});
        }
        return Quieted(a);
      }
      InfIsNotZero(a);
      if Negative(a) {
        fe.Raise({Invalid});
        return CANONICAL_NAN;
      }
      return a;
    }
    if IsZero(a) {
      return a;
    }
    if Negative(a) {
      fe.Raise({Invalid});
      return CANONICAL_NAN;
    }
    var root, rem, half, radicand := IntegerRoot(a);
    r := RoundRootRne(root, rem, half, fe, radicand);
  }

  method RoundRootRne(root: u64, rem: U128, half: int, fe: FeAcc, ghost radicand: nat) returns (r: u64)
    requires root * root + Nat(rem) == radicand && Nat(rem) <= 2 * root
    requires 2 * IMPLICIT <= root < 4 * IMPLICIT && -537 <= half <= 511
    modifies fe
    ensures Dyadic(radicand, 2 * (half - 53)) >= 0.0
    ensures var spec := RoundSigned(RNE, false, Root(Dyadic(radicand, 2 * (half - 53))));
            r == spec.bits && fe.bits == old(fe.bits) + spec.flags
  {
    var guardBit := root % 2 != 0;
    var root53 := root / 2;
    var sticky := Nat(rem) != 0;
    var rounded := root53;
    if GoesUp(guardBit, sticky, root53 % 2 != 0) {
      rounded := root53 + 1;
    }
    RootRounded(RNE, root, Nat(rem), radicand, half, rounded);
    if guardBit || sticky {
      fe.Raise({Inexact});
    }
    var biased := half + 1023;
    CarryFields(rounded);
    if rounded / (2 * IMPLICIT) % 2 != 0 {
      rounded := rounded / 2;
      biased := biased + 1;
    }
    if biased >= 0x7FF || biased <= 0 {
      assert false;
    }
    r := Pack(false, biased, rounded % IMPLICIT);
  }

  // ----- fused multiply-add -----

  /** The kept significand of `arith_fma_round_and_pack_rne`. */
  method RoundTargetRne(neg: bool, mag: U128, frameExp: int, msb: nat, target: int, biased: int, ghost x: Exact)
    returns (mant: u64, inexact: bool, ghost c: nat)
    requires x.v >= 0.0 && Framed(60, Nat(mag), frameExp, x) && Pow2(msb) <= Nat(mag) < Pow2(msb + 1)
    requires biased == frameExp + msb + 1023 && target == Target(msb, frameExp) && 1 <= target < 128
    ensures c == RoundCode(F64, RNE, neg, x)
    ensures c == mant + (if biased < 1 then 0 else biased - 1) * IMPLICIT
    ensures if biased < 1 then mant <= IMPLICIT else IMPLICIT <= mant <= 2 * IMPLICIT
    ensures RoundFlags(F64, RNE, neg, x) == if c >= F64.InfCode() then {Overflow, Inexact}
                                            else if !inexact then {}
                                            else if biased < 1 then {Underflow, Inexact} else {Inexact}
  {
    ghost var h := Shr(Nat(mag), target - 1);
    TargetBits(Nat(mag), msb, target, biased >= 1);
    var roundBit := ShiftRight(mag, target - 1).lo % 2 != 0;
    LowBit(ShiftRight(mag, target - 1));
    var sticky := if target >= 2 then AnyLow(Nat(mag), target - 1) else false;
    inexact := roundBit || sticky;
    var trunc := ShiftRight(mag, target);
    LowWord(trunc);
    mant := trunc.lo;
    if GoesUp(roundBit, sticky, mant % 2 != 0) {
      mant := mant + 1;
    }
    c := mant + (if biased < 1 then 0 else biased - 1) * IMPLICIT;
    RoundKept(RNE, neg, x, Nat(mag), frameExp, msb, target, h, c);
    KeptFlags(c, h, sticky, biased < 1);
  }

  /** `arith_fma_round_and_pack_rne`. */
  method FmaRoundAndPackRne(neg: bool, mag: U128, frameExp: int, fe: FeAcc, ghost x: Exact) returns (r: u64)
    requires x.v >= 0.0 && Framed(60, Nat(mag), frameExp, x)
    modifies fe
    ensures LostHalf(RNE, Nat(mag), frameExp) ==>
              r == SignedZero(neg) && RoundSigned(RNE, neg, x).bits == Bits(neg, 1)
    ensures !LostHalf(RNE, Nat(mag), frameExp) ==> r == RoundSigned(RNE, neg, x).bits
    ensures fe.bits == old(fe.bits) + RoundSigned(RNE, neg, x).flags
  {
    if mag == U128(0, 0) {
      RoundZero(RNE, neg, x, frameExp);
      return SignedZero(neg);
    }
    var msb := HighestBit(mag);
    Largest(RNE, Nat(mag), msb, frameExp);
    var biased := frameExp + msb + 1023;
    if biased >= EXP_MAX {
      FrameTooLarge(RNE, neg, x, Nat(mag), frameExp, msb);
      fe.Raise({Overflow, Inexact});
      return SignedInf(neg);
    }
    var top: int := msb;
    var target := if biased >= 1 then top - 52 else -1074 - frameExp;
    var inexact := false;
    var mant: u64;
    ghost var c;
    if target <= 0 {
      mant, c := KeepWhole(neg, mag, frameExp, msb, target, biased, RNE, x);
    } else if target >= 128 {
      FrameTooSmall(RNE, neg, x, Nat(mag), frameExp, msb);
      fe.Raise({Underflow, Inexact});
      return SignedZero(neg);
    } else {
      mant, inexact, c := RoundTargetRne(neg, mag, frameExp, msb, target, biased, x);
    }
    r := FinishMantRne(neg, biased, mant, inexact, fe, x, c);
  }

  method FinishMantRne(neg: bool, biased: int, mant: u64, inexact: bool, fe: FeAcc, ghost x: Exact, ghost c: nat)
    returns (r: u64)
    requires biased < 0x7FF && x.v >= 0.0 && c == RoundCode(F64, RNE, neg, x)
    requires c == mant + (if biased < 1 then 0 else biased - 1) * IMPLICIT
    requires if biased < 1 then mant <= IMPLICIT else IMPLICIT <= mant <= 2 * IMPLICIT
    requires RoundFlags(F64, RNE, neg, x) == if c >= F64.InfCode() then {Overflow, Inexact}
                                             else if !inexact then {}
                                             else if biased < 1 then {Underflow, Inexact} else {Inexact}
    modifies fe
    ensures r == RoundSigned(RNE, neg, x).bits
    ensures fe.bits == old(fe.bits) + RoundSigned(RNE, neg, x).flags
  {
    FormatConstants();
    if inexact {
      fe.Raise(if biased < 1 then {Underflow, Inexact} else {Inexact});
    }
    var overflow;
    overflow, r := EncodeMant(neg, biased, mant, biased < 1);
    if overflow {
      OutOfRange(RNE, neg, x);
      fe.Raise({Overflow, Inexact});
      return SignedInf(neg);
    }
    InRange(RNE, neg, x, c);
  }

  /** `sf64_internal_fma_rne`. */
  method FmaRne(a: u64, b: u64, c: u64, fe: FeAcc) returns (r: u64)
    modifies fe
    ensures r == FusedSum(RNE, a, b, c).bits && fe.bits == old(fe.bits) + FusedSum(RNE, a, b, c).flags
  {
    var neg := Negative(a) != Negative(b);
    if (IsInf(a) && IsZero(b)) || (IsZero(a) && IsInf(b)) {
      fe.Raise({Invalid});
      return CANONICAL_NAN;
    }
    if IsNan(a) || IsNan(b) || IsNan(c) {
      if IsSnan(a) || IsSnan(b) || IsSnan(c) {
        fe.Raise({Invalid});
      }
      if IsNan(a) {
        return Quieted(a);
      }
      if IsNan(b) {
        return Quieted(b);
      }
      return Quieted(c);
    }
    if IsInf(a) || IsInf(b) {
      if IsInf(c) {
        if neg == Negative(c) {
          return SignedInf(neg);
        }
        fe.Raise({Invalid});
        return CANONICAL_NAN;
      }
      return SignedInf(neg);
    }
    if IsInf(c) {
      return SignedInf(Negative(c));
    }
    FusedMagnitudes(RNE, a, b, c);
    if IsZero(a) || IsZero(b) {
      if IsZero(c) {
        if neg == Negative(c) {
          return SignedZero(neg);
        }
        return SignedZero(false);
      }
      return c;
    }
    r := FmaFiniteRne(a, b, c, neg, fe);
  }

  method FmaFiniteRne(a: u64, b: u64, c: u64, neg: bool, fe: FeAcc) returns (r: u64)
    requires IsFinite(a) && IsFinite(b) && IsFinite(c) && !IsZero(a) && !IsZero(b)
    requires Magnitude(a) * Magnitude(b) > 0.0 && Magnitude(c) >= 0.0 && (Magnitude(c) == 0.0 <==> IsZero(c))
    modifies fe
    ensures var spec := Fused(RNE, neg, Magnitude(a) * Magnitude(b), Negative(c), Magnitude(c));
            r == spec.bits && fe.bits == old(fe.bits) + spec.flags
  {
    ghost var p := Magnitude(a) * Magnitude(b);
    var cancelled, sign, mag, e := ExactFused(a, b, c, neg, p);
    FusedResult(RNE, neg, p, Negative(c), Magnitude(c), cancelled, sign);
    if cancelled {
      return SignedZero(false);
    }
    r := FmaRoundAndPackRne(sign, mag, e, fe, Num(ExactMagnitude(neg, p, Negative(c), Magnitude(c))));
  }

  // ----- the specializations and the mode-parametric code agree -----

  /** Running both forms of an operation on the same operands gives the same bits and the same flags. */
  method Agree(op: nat, a: u64, b: u64, c: u64) returns (x: u64, y: u64, f: set<Flag>, g: set<Flag>)
    requires op < 6
    ensures x == y && f == g
  {
    var fast := new FeAcc();
    var slow := new FeAcc();
    match op {
      case 0 =>
        x := AddRne(a, b, fast);
        y := AddR(RNE, a, b, slow);
      case 1 =>
        x := SubRne(a, b, fast);
        y := SubR(RNE, a, b, slow);
      case 2 =>
        x := MulRne(a, b, fast);
        y := MulR(RNE, a, b, slow);
      case 3 =>
        x := DivRne(a, b, fast);
        y := DivR(RNE, a, b, slow);
      case 4 =>
        x := SqrtRne(a, fast);
        y := SqrtR(RNE, a, slow);
      case _ =>
        x := FmaRne(a, b, c, fast);
        y := FmaR(RNE, a, b, c, slow);
    }
    f, g := fast.bits, slow.bits;
  }
}
