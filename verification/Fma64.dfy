/** Fused multiply-add of src/sqrt_fma.cpp: the exact product and the addend meet in one 128-bit
    frame, and the result is rounded once. */
module Fma64 {
  import opened Powers
  import opened Shifts
  import opened Rounding
  import opened Cells
  import opened ExactResults
  import opened Frames
  import opened Words
  import opened Wide
  import opened Binary64
  import opened Fenv
  import opened Pack64
  import opened Arithmetic64
  import opened Sqrt64

  // ----- rounding a 128-bit magnitude -----

  /** Position of the retained last bit and the quantum it stands for. */
  ghost function Target(msb: nat, frameExp: int): int {
    if frameExp + msb + 1023 >= 1 then msb - 52 else -1074 - frameExp
  }

  ghost function TargetQuantum(msb: nat, frameExp: int): nat {
    if frameExp + msb + 1023 >= 1 then frameExp + msb + 1022 else 0
  }

  /** The kept bits of a magnitude whose last retained bit is `target`, at least 1. */
  lemma KeptRange(mag: nat, msb: nat, target: nat, normal: bool)
    requires target >= 1 && Pow2(msb) <= mag < Pow2(msb + 1)
    requires if normal then target == msb - 52 else target > msb - 52
    ensures Shr(mag, target - 1) / 2 < 2 * IMPLICIT
    ensures normal ==> Shr(mag, target - 1) / 2 >= IMPLICIT
    ensures !normal ==> Shr(mag, target - 1) / 2 < IMPLICIT
  {
    Pow2Table();
    Pow2Step(53);
    if target - 1 <= msb {
      ShrRange(mag, target - 1, msb);
      ShrRange(mag, target - 1, msb + 1);
      Pow2Mono(msb + 2 - target, 54);
      if !normal {
        Pow2Mono(msb + 2 - target, 53);
      }
    } else {
      ShrAll(mag, msb + 1, target - 1);
    }
  }

  /** Value and flags, from the bits at and below the retained last bit. */
  lemma RoundKept(mode: Mode, neg: bool, x: Exact, mag: nat, frameExp: int, msb: nat, target: nat, h: nat, c: nat)
    requires x.v >= 0.0 && Framed(60, mag, frameExp, x) && Pow2(msb) <= mag < Pow2(msb + 1)
    requires target == Target(msb, frameExp) && target >= 1 && h == Shr(mag, target - 1)
    requires c == h / 2 + TargetQuantum(msb, frameExp) * IMPLICIT
               + if ShouldRoundUp(neg, h % 2 == 1, AnyLow(mag, target - 1), h / 2 % 2 == 1, mode) then 1 else 0
    ensures RoundCode(F64, mode, neg, x) == c
    ensures RoundFlags(F64, mode, neg, x) == PackFlags(F64, c, h, !AnyLow(mag, target - 1))
    ensures h / 2 < IMPLICIT <==> frameExp + msb + 1023 < 1
    ensures h / 2 < 2 * IMPLICIT
  {
    FormatConstants();
    var normal := frameExp + msb + 1023 >= 1;
    KeptRange(mag, msb, target, normal);
    KeptCell(mag, frameExp, x, msb, target);
    RoundPacked(F64, mode, neg, x, h, !AnyLow(mag, target - 1), TargetQuantum(msb, frameExp), c);
  }

  lemma KeptCell(mag: nat, e: int, x: Exact, msb: nat, target: nat)
    requires Framed(60, mag, e, x) && Pow2(msb) <= mag < Pow2(msb + 1)
    requires target >= 1 && target >= msb - 52
    ensures SameCell(mag, e, x, target - 1)
  {
    if target == 1 && mag >= Pow2(60) {
      Pow2Mono(msb + 1, 60);
    }
    FramedCell(60, mag, e, x, target - 1);
  }

  /** Nothing is dropped: the magnitude is the significand, shifted left. */
  lemma RoundWhole(mode: Mode, neg: bool, x: Exact, mag: nat, frameExp: int, msb: nat, target: int, n: nat)
    requires x.v >= 0.0 && Framed(60, mag, frameExp, x) && Pow2(msb) <= mag < Pow2(msb + 1)
    requires target == Target(msb, frameExp) && target <= 0 && n == Shl(mag, -target)
    ensures mag < 2 * IMPLICIT && n < 2 * IMPLICIT
    ensures n < IMPLICIT <==> frameExp + msb + 1023 < 1
    ensures RoundCode(F64, mode, neg, x) == n + TargetQuantum(msb, frameExp) * IMPLICIT
    ensures RoundFlags(F64, mode, neg, x) == PackFlags(F64, n + TargetQuantum(msb, frameExp) * IMPLICIT, 2 * n, true)
  {
    FormatConstants();
    Pow2Table();
    var s := -target;
    var q := TargetQuantum(msb, frameExp);
    Pow2Mono(msb + 1, 53);
    Pow2Mono(53, 60);
    FramedCell(60, mag, frameExp, x, 0);
    ShlRange(mag, s, msb);
    ShlRange(mag, s, msb + 1);
    Pow2Mono(msb + 1 + s, 53);
    if frameExp + msb + 1023 < 1 {
      Pow2Mono(msb + 1 + s, 52);
    }
    ShlMultiplies(mag, s);
    DyadicShift(mag, frameExp - s, s);
    DyadicTwice(n, frameExp - s - 1);
    assert Shr(mag, 0) == mag && !AnyLow(mag, 0);
    assert Cell(2 * n, true, F64.e0 + q - 1, x);
    RoundPacked(F64, mode, neg, x, 2 * n, true, q, n + q * IMPLICIT);
  }

  /** Encodes a rounded significand: 53 bits, one more after a carry, or a subnormal that may have
      reached the implicit bit. */
  method EncodeMant(neg: bool, biased0: int, mant0: u64, subnormal: bool) returns (overflow: bool, r: u64)
    requires if subnormal then mant0 <= IMPLICIT else IMPLICIT <= mant0 <= 2 * IMPLICIT
    requires subnormal || 1 <= biased0 < 0x7FF
    ensures var c := mant0 + (if subnormal then 0 else biased0 - 1) * IMPLICIT;
            if c < 0x7FF0_0000_0000_0000 then !overflow && r == Bits(neg, c) else overflow
  {
    var biased, mant := biased0, mant0;
    if subnormal {
      if mant / IMPLICIT % 2 != 0 {
        return false, Pack(neg, 1, mant % IMPLICIT);
      }
      return false, Pack(neg, 0, mant);
    }
    CarryFields(mant);
    if mant / (2 * IMPLICIT) % 2 != 0 {
      mant := mant / 2;
      biased := biased + 1;
      if biased >= EXP_MAX {
        return true, 0;
      }
    }
    return false, Pack(neg, biased, mant % IMPLICIT);
  }

  /** Too large before rounding. */
  lemma FrameTooLarge(mode: Mode, neg: bool, x: Exact, mag: nat, frameExp: int, msb: nat)
    requires x.v >= 0.0 && Framed(60, mag, frameExp, x) && Pow2(msb) <= mag
    requires frameExp + msb + 1023 >= 0x7FF
    ensures RoundSigned(mode, neg, x) == Outcome(OverflowResult(neg, mode), {Overflow, Inexact})
  {
    var k := if mag < Pow2(60) then 0 else 1;
    FramedCell(60, mag, frameExp, x, k);
    if k == 1 && msb == 0 {
      Pow2Mono(1, 60);
      Pow2Table();
      ShrRange(mag, 1, 60);
      Pow2Mono(0, 59);
      RoundTooLarge(F64, mode, neg, x, Shr(mag, 1), !AnyLow(mag, 1), frameExp + 1, 59);
    } else {
      ShrRange(mag, k, msb);
      RoundTooLarge(F64, mode, neg, x, Shr(mag, k), !AnyLow(mag, k), frameExp + k, msb - k);
    }
    OutOfRange(mode, neg, x);
  }

  /** The one place where nothing is kept and yet a nearest mode must not return zero: a magnitude with bit 127 set
      whose retained last bit is bit 128. No caller sets bit 127. */
  ghost predicate LostHalf(mode: Mode, mag: nat, frameExp: int) {
    frameExp == -1202 && ((mode == RNE && mag > Pow2(127)) || (mode == RNA && mag >= Pow2(127)))
  }

  /** Nothing is kept: only a directed mode away from zero returns a nonzero result, which is right except where half
      of the smallest subnormal is lost. */
  lemma FrameTooSmall(mode: Mode, neg: bool, x: Exact, mag: nat, frameExp: int, msb: nat)
    requires x.v >= 0.0 && Framed(60, mag, frameExp, x) && Pow2(msb) <= mag < Pow2(msb + 1) && msb <= 127
    requires Target(msb, frameExp) >= 128
    ensures RoundSigned(mode, neg, x)
         == Outcome(if (mode == RUP && !neg) || (mode == RDN && neg) || LostHalf(mode, mag, frameExp) then Bits(neg, 1)
                    else SignedZero(neg),
                    {Underflow, Inexact})
  {
    FormatConstants();
    var target := Target(msb, frameExp);
    var c := if (mode == RUP && !neg) || (mode == RDN && neg) || LostHalf(mode, mag, frameExp) then 1 else 0;
    LostBits(mode, neg, mag, frameExp, msb, target);
    RoundKept(mode, neg, x, mag, frameExp, msb, target, Shr(mag, target - 1), c);
    InRange(mode, neg, x, c);
  }

  /** The decision on what is lost. */
  lemma LostBits(mode: Mode, neg: bool, mag: nat, frameExp: int, msb: nat, target: nat)
    requires Pow2(msb) <= mag < Pow2(msb + 1) && msb <= 127 && target >= 128
    requires target == -1074 - frameExp
    ensures var h, sticky := Shr(mag, target - 1), AnyLow(mag, target - 1);
            && h <= 1 && (h == 1 || sticky)
            && (ShouldRoundUp(neg, h % 2 == 1, sticky, h / 2 % 2 == 1, mode)
                <==> (mode == RUP && !neg) || (mode == RDN && neg) || LostHalf(mode, mag, frameExp))
  {
    Largest(mode, mag, msb, frameExp);
    if msb + 1 < target {
      ShrAll(mag, msb + 1, target - 1);
    } else {
      TopHalf(mag, target - 1);
      assert LostHalf(mode, mag, frameExp) <==> mode == RNA || (mode == RNE && mag != Pow2(target - 1));
    }
  }

  lemma TopHalf(mag: nat, k: nat)
    requires Pow2(k) <= mag < Pow2(k + 1)
    ensures Shr(mag, k) == 1 && (AnyLow(mag, k) <==> mag != Pow2(k))
  {
    Pow2Step(k);
    ShrUnique(mag, k, 1);
  }

  lemma RoundZero(mode: Mode, neg: bool, x: Exact, frameExp: int)
    requires x.v >= 0.0 && Framed(60, 0, frameExp, x)
    ensures RoundSigned(mode, neg, x) == Outcome(SignedZero(neg), {})
  {
    FormatConstants();
    DecodeZero(F64);
    DyadicZero(frameExp);
    assert Shr(0, 0) == 0 && !AnyLow(0, 0);
    RoundExact(F64, mode, neg, x, 0);
    InRange(mode, neg, x, 0);
  }

  /** The U128 `round_and_pack`: the value is `mag` * 2^`frameExp`, up to what `Framed` allows. */
  method RoundAndPack128(neg: bool, mag: U128, frameExp: int, mode: Mode, fe: FeAcc, ghost x: Exact)
    returns (r: u64)
    requires x.v >= 0.0 && Framed(60, Nat(mag), frameExp, x)
    modifies fe
    ensures LostHalf(mode, Nat(mag), frameExp) ==>
              r == SignedZero(neg) && RoundSigned(mode, neg, x).bits == Bits(neg, 1)
    ensures !LostHalf(mode, Nat(mag), frameExp) ==> r == RoundSigned(mode, neg, x).bits
    ensures fe.bits == old(fe.bits) + RoundSigned(mode, neg, x).flags
  {
    if mag == U128(0, 0) {
      RoundZero(mode, neg, x, frameExp);
      return SignedZero(neg);
    }
    var msb := HighestBit(mag);
    Largest(mode, Nat(mag), msb, frameExp);
    var biased := frameExp + msb + 1023;
    if biased >= EXP_MAX {
      FrameTooLarge(mode, neg, x, Nat(mag), frameExp, msb);
      fe.Raise({Overflow, Inexact});
      return OverflowResult(neg, mode);
    }
    var top: int := msb;
    var target, subnormal := top - 52, false;
    if biased < 1 {
      target := -1074 - frameExp;
      subnormal := true;
    }
    var inexact := false;
    var mant: u64;
    ghost var c;
    if target <= 0 {
      mant, c := KeepWhole(neg, mag, frameExp, msb, target, biased, mode, x);
    } else if target >= 128 {
      FrameTooSmall(mode, neg, x, Nat(mag), frameExp, msb);
      fe.Raise({Underflow, Inexact});
      if (mode == RUP && !neg) || (mode == RDN && neg) {
        return Pack(neg, 0, 1);
      }
      return SignedZero(neg);
    } else {
      mant, inexact, c := RoundTarget(neg, mag, frameExp, msb, target, biased, mode, x);
    }
    r := FinishMant(neg, biased, mant, subnormal, inexact, mode, fe, x, c);
  }

  lemma Largest(mode: Mode, mag: nat, msb: nat, frameExp: int)
    requires Pow2(msb) <= mag < Pow2(msb + 1) && msb <= 127
    ensures LostHalf(mode, mag, frameExp) ==> msb == 127 && Target(msb, frameExp) == 128
  {
    if msb < 127 {
      Pow2Mono(msb + 1, 127);
    }
  }

  /** Where it is lost: 2^127 + 1 times 2^-1202, just above half of the smallest subnormal number. */
  lemma LostHalfExample(neg: bool, mag: U128)
    requires mag == U128(0x8000_0000_0000_0000, 1)
    ensures LostHalf(RNE, Nat(mag), -1202) && LostHalf(RNA, Nat(mag), -1202)
    ensures Framed(60, Nat(mag), -1202, Num(Dyadic(Nat(mag), -1202)))
    ensures Dyadic(Nat(mag), -1202) >= 0.0
    ensures RoundSigned(RNE, neg, Num(Dyadic(Nat(mag), -1202))).bits == Bits(neg, 1)
  {
    var x := Num(Dyadic(Nat(mag), -1202));
    Pow2Table();
    Pow2Times(63, 64, 0x8000_0000_0000_0000, TWO64, 0x8000_0000_0000_0000 * TWO64);
    Pow2Step(127);
    DyadicPositive(Nat(mag), -1202);
    ExactCell(Nat(mag), -1202, x, 0);
    FrameTooSmall(RNE, neg, x, Nat(mag), -1202, 127);
  }

  /** A magnitude that fits is its own significand. */
  method KeepWhole(neg: bool, mag: U128, frameExp: int, msb: nat, target: int, biased: int, mode: Mode, ghost x: Exact)
    returns (mant: u64, ghost c: nat)
    requires x.v >= 0.0 && Framed(60, Nat(mag), frameExp, x) && Pow2(msb) <= Nat(mag) < Pow2(msb + 1)
    requires biased == frameExp + msb + 1023 && target == Target(msb, frameExp) && target <= 0
    ensures c == RoundCode(F64, mode, neg, x)
    ensures c == mant + (if biased < 1 then 0 else biased - 1) * IMPLICIT
    ensures if biased < 1 then mant <= IMPLICIT else IMPLICIT <= mant <= 2 * IMPLICIT
    ensures RoundFlags(F64, mode, neg, x) == if c >= F64.InfCode() then {Overflow, Inexact} else {}
  {
    ghost var n := Shl(Nat(mag), -target);
    RoundWhole(mode, neg, x, Nat(mag), frameExp, msb, target, n);
    LowWord(mag);
    mant := Shl(mag.lo, -target);
    c := mant + (if biased < 1 then 0 else biased - 1) * IMPLICIT;
    WholeFlags(mode, neg, x, n, biased, c);
  }

  /** A significand that fits is exact, so it raises nothing unless it is out of range. */
  lemma WholeFlags(mode: Mode, neg: bool, x: Exact, n: nat, biased: int, c: nat)
    requires x.v >= 0.0 && n < 2 * IMPLICIT && (n < IMPLICIT <==> biased < 1)
    requires c == n + (if biased < 1 then 0 else biased - 1) * IMPLICIT
    requires RoundFlags(F64, mode, neg, x) == PackFlags(F64, c, 2 * n, true)
    ensures RoundFlags(F64, mode, neg, x) == if c >= F64.InfCode() then {Overflow, Inexact} else {}
    ensures if biased < 1 then n <= IMPLICIT else IMPLICIT <= n <= 2 * IMPLICIT
  {
    KeptFlags(c, 2 * n, false, biased < 1);
  }

  /** The significand kept above bit `target`, rounded by the bits below it. */
  method RoundTarget(neg: bool, mag: U128, frameExp: int, msb: nat, target: int, biased: int, mode: Mode,
                     ghost x: Exact)
    returns (mant: u64, inexact: bool, ghost c: nat)
    requires x.v >= 0.0 && Framed(60, Nat(mag), frameExp, x) && Pow2(msb) <= Nat(mag) < Pow2(msb + 1)
    requires biased == frameExp + msb + 1023 && target == Target(msb, frameExp) && 1 <= target < 128
    ensures c == RoundCode(F64, mode, neg, x)
    ensures c == mant + (if biased < 1 then 0 else biased - 1) * IMPLICIT
    ensures if biased < 1 then mant <= IMPLICIT else IMPLICIT <= mant <= 2 * IMPLICIT
    ensures RoundFlags(F64, mode, neg, x) == if c >= F64.InfCode() then {Overflow, Inexact}
                                             else if !inexact then {}
                                             else if biased < 1 then {Underflow, Inexact} else {Inexact}
  {
    ghost var h := Shr(Nat(mag), target - 1);
    TargetBits(Nat(mag), msb, target, biased >= 1);
    var roundBit := ShiftRight(mag, target - 1).lo % 2 != 0;
    LowBit(ShiftRight(mag, target - 1));
    var sticky := if target >= 2 then AnyLow(Nat(mag), target - 1) else false;
    inexact := roundBit || sticky;
    var trunc := ShiftRight(mag, target);
    LowWord(trunc);
    mant := trunc.lo;
    if ShouldRoundUp(neg, roundBit, sticky, mant % 2 != 0, mode) {
      mant := mant + 1;
    }
    c := mant + (if biased < 1 then 0 else biased - 1) * IMPLICIT;
    RoundKept(mode, neg, x, Nat(mag), frameExp, msb, target, h, c);
    KeptFlags(c, h, sticky, biased < 1);
  }

  lemma TargetBits(mag: nat, msb: nat, target: int, normal: bool)
    requires target >= 1 && Pow2(msb) <= mag < Pow2(msb + 1)
    requires if normal then target == msb - 52 else target > msb - 52
    ensures var h := Shr(mag, target - 1);
            && Shr(mag, target) == h / 2 && h / 2 < 2 * IMPLICIT
            && (if normal then h / 2 >= IMPLICIT else h / 2 < IMPLICIT)
    ensures !AnyLow(mag, 0)
  {
    KeptRange(mag, msb, target, normal);
  }

  lemma KeptFlags(c: nat, h: nat, sticky: bool, tiny: bool)
    requires tiny <==> h / 2 < IMPLICIT
    ensures PackFlags(F64, c, h, !sticky) == if c >= F64.InfCode() then {Overflow, Inexact}
                                             else if h % 2 == 0 && !sticky then {}
                                             else if tiny then {Underflow, Inexact} else {Inexact}
  {
    FormatConstants();
  }

  lemma LowBit(a: U128)
    ensures a.lo % 2 == Nat(a) % 2
  {
    EvenPart(a.hi, a.lo);
  }

  lemma EvenPart(hi: nat, lo: nat)
    ensures (hi * TWO64 + lo) % 2 == lo % 2
  {
    DivUnique(hi * TWO64 + lo, 2, hi * 0x8000_0000_0000_0000 + lo / 2, lo % 2);
  }

  /** Flags and encoding of the rounded significand. */
  method FinishMant(neg: bool, biased: int, mant: u64, subnormal: bool, inexact: bool, mode: Mode, fe: FeAcc,
                    ghost x: Exact, ghost c: nat)
    returns (r: u64)
    requires subnormal <==> biased < 1
    requires biased < 0x7FF && x.v >= 0.0 && c == RoundCode(F64, mode, neg, x)
    requires c == mant + (if biased < 1 then 0 else biased - 1) * IMPLICIT
    requires if biased < 1 then mant <= IMPLICIT else IMPLICIT <= mant <= 2 * IMPLICIT
    requires RoundFlags(F64, mode, neg, x) == if c >= F64.InfCode() then {Overflow, Inexact}
                                              else if !inexact then {}
                                              else if biased < 1 then {Underflow, Inexact} else {Inexact}
    modifies fe
    ensures r == RoundSigned(mode, neg, x).bits
    ensures fe.bits == old(fe.bits) + RoundSigned(mode, neg, x).flags
  {
    FormatConstants();
    if subnormal {
      if inexact {
        fe.Raise({Underflow, Inexact});
      }
    } else if inexact {
      fe.Raise({Inexact});
    }
    var overflow;
    overflow, r := EncodeMant(neg, biased, mant, subnormal);
    if overflow {
      OutOfRange(mode, neg, x);
      fe.Raise({Overflow, Inexact});
      return OverflowResult(neg, mode);
    }
    InRange(mode, neg, x, c);
  }

  // ----- one frame for product and addend -----

  method PlaceInFrame(n: U128, shift: int) returns (r: U128)
    requires shift >= 0 ==> Shl(Nat(n), shift) < TWO128
    ensures Nat(r) == FrameNat(Nat(n), shift)
  {
    if shift >= 0 {
      DivUnique(Shl(Nat(n), shift), TWO128, 0, Shl(Nat(n), shift));
      r := ShiftLeft(n, shift);
    } else {
      var s := -shift;
      if s >= 128 {
        AllLost(n, s);
        r := if n != U128(0, 0) then U128(0, 1) else U128(0, 0);
      } else {
        r := JamRight(n, s);
      }
    }
  }

  lemma AllLost(n: U128, s: nat)
    requires s >= 128
    ensures ShrJam(Nat(n), s) == if n != U128(0, 0) then 1 else 0
  {
    Pow2Table();
    Pow2Times(64, 64, TWO64, TWO64, TWO128);
    ShrAll(Nat(n), 128, s);
  }

  /** A right shift with the lost bits, selected by a mask, ORed into bit 0. */
  method JamRight(n: U128, s: nat) returns (r: U128)
    ensures Nat(r) == ShrJam(Nat(n), s)
  {
    var lost := AnyLow(Nat(n), s);
    r := ShiftRight(n, s);
    LowBit(r);
    if lost && r.lo % 2 == 0 {
      r := U128(r.hi, r.lo + 1);
    }
  }

  // ----- fused multiply-add -----

  /** Sections 5.4.1, 6.1 to 6.3 and 7.2 of IEEE 754-2008: fused multiply-add. An infinity times a zero
      is invalid whatever the addend is. */
  ghost function FusedSum(mode: Mode, a: u64, b: u64, c: u64): Outcome {
    var neg := Negative(a) != Negative(b);
    if (IsInf(a) && IsZero(b)) || (IsZero(a) && IsInf(b)) then Outcome(CANONICAL_NAN, {Invalid})
    else if IsNan(a) || IsNan(b) || IsNan(c) then
      Outcome(Quieted(if IsNan(a) then a else if IsNan(b) then b else c),
              if IsSnan(a) || IsSnan(b) || IsSnan(c) then {Invalid} else {})
    else if (IsInf(a) || IsInf(b)) && IsInf(c) && neg != Negative(c) then Outcome(CANONICAL_NAN, {Invalid})
    else if IsInf(a) || IsInf(b) then Outcome(SignedInf(neg), {})
    else if IsInf(c) then Outcome(SignedInf(Negative(c)), {})
    else RoundReal(mode, Value(a) * Value(b) + Value(c), if neg == Negative(c) then neg else mode == RDN)
  }

  /** The exact result in terms of magnitudes. */
  lemma FusedMagnitudes(mode: Mode, a: u64, b: u64, c: u64)
    requires IsFinite(a) && IsFinite(b) && IsFinite(c)
    ensures var neg, p, m := Negative(a) != Negative(b), Magnitude(a) * Magnitude(b), Magnitude(c);
            && p >= 0.0 && m >= 0.0 && (p == 0.0 <==> IsZero(a) || IsZero(b)) && (m == 0.0 <==> IsZero(c))
            && FusedSum(mode, a, b, c)
            == if p == 0.0 && m == 0.0 then Outcome(SignedZero(if neg == Negative(c) then neg else mode == RDN), {})
               else if p == 0.0 then Outcome(c, {})
               else if neg == Negative(c) then RoundSigned(mode, neg, Num(p + m))
               else Difference(mode, neg, p, m, mode == RDN)
  {
    FiniteCodes(a);
    FiniteCodes(b);
    FiniteCodes(c);
    DecodeNonNegative(F64, Code(a));
    DecodeNonNegative(F64, Code(b));
    DecodeNonNegative(F64, Code(c));
    var neg, p, m := Negative(a) != Negative(b), Magnitude(a) * Magnitude(b), Magnitude(c);
    ProductSign(a, b);
    if p == 0.0 && m != 0.0 {
      RoundOfCode(mode, c);
    }
  }

  /** `sf64_fma_r`. */
  method FmaR(mode: Mode, a: u64, b: u64, c: u64, fe: FeAcc) returns (r: u64)
    modifies fe
    ensures r == FusedSum(mode, a, b, c).bits && fe.bits == old(fe.bits) + FusedSum(mode, a, b, c).flags
  {
    var neg := Negative(a) != Negative(b);
    if (IsInf(a) && IsZero(b)) || (IsZero(a) && IsInf(b)) {
      fe.Raise({Invalid});
      return CANONICAL_NAN;
    }
    if IsNan(a) || IsNan(b) || IsNan(c) {
      if IsSnan(a) || IsSnan(b) || IsSnan(c) {
        fe.Raise({Invalid});
      }
      if IsNan(a) {
        return Quieted(a);
      }
      if IsNan(b) {
        return Quieted(b);
      }
      return Quieted(c);
    }
    if IsInf(a) || IsInf(b) {
      if IsInf(c) {
        if neg == Negative(c) {
          return SignedInf(neg);
        }
        fe.Raise({Invalid});
        return CANONICAL_NAN;
      }
      return SignedInf(neg);
    }
    if IsInf(c) {
      return SignedInf(Negative(c));
    }
    FusedMagnitudes(mode, a, b, c);
    if IsZero(a) || IsZero(b) {
      if IsZero(c) {
        if neg == Negative(c) {
          return SignedZero(neg);
        }
        return SignedZero(mode == RDN);
      }
      return c;
    }
    r := FmaFinite(mode, a, b, c, neg, fe);
  }

  /** What finite operands with a nonzero product must deliver, for product magnitude `p` and addend
      magnitude `m`. */
  ghost function Fused(mode: Mode, neg: bool, p: real, cNeg: bool, m: real): Outcome
    requires p >= 0.0 && m >= 0.0
  {
    if neg == cNeg then RoundSigned(mode, neg, Num(p + m)) else Difference(mode, neg, p, m, mode == RDN)
  }

  /** The magnitude of the exact result. */
  ghost function ExactMagnitude(neg: bool, p: real, cNeg: bool, m: real): (v: real)
    requires p >= 0.0 && m >= 0.0
    ensures v >= 0.0
  {
    if neg == cNeg then p + m else if p > m then p - m else m - p
  }

  /** Exact cancellation is detected, and otherwise `sign` is the sign of the exact result. */
  ghost predicate FusedBy(neg: bool, p: real, cNeg: bool, m: real, cancelled: bool, sign: bool) {
    && (cancelled <==> neg != cNeg && p == m)
    && (!cancelled ==> sign == if p > m || neg == cNeg then neg else cNeg)
  }

  lemma FusedResult(mode: Mode, neg: bool, p: real, cNeg: bool, m: real, cancelled: bool, sign: bool)
    requires p >= 0.0 && m >= 0.0 && FusedBy(neg, p, cNeg, m, cancelled, sign)
    ensures Fused(mode, neg, p, cNeg, m)
         == if cancelled then Outcome(SignedZero(mode == RDN), {})
            else RoundSigned(mode, sign, Num(ExactMagnitude(neg, p, cNeg, m)))
  {
  }

  method FmaFinite(mode: Mode, a: u64, b: u64, c: u64, neg: bool, fe: FeAcc) returns (r: u64)
    requires IsFinite(a) && IsFinite(b) && IsFinite(c) && !IsZero(a) && !IsZero(b)
    requires Magnitude(a) * Magnitude(b) > 0.0 && Magnitude(c) >= 0.0 && (Magnitude(c) == 0.0 <==> IsZero(c))
    modifies fe
    ensures var spec := Fused(mode, neg, Magnitude(a) * Magnitude(b), Negative(c), Magnitude(c));
            r == spec.bits && fe.bits == old(fe.bits) + spec.flags
  {
    ghost var p := Magnitude(a) * Magnitude(b);
    var cancelled, sign, mag, e := ExactFused(a, b, c, neg, p);
    FusedResult(mode, neg, p, Negative(c), Magnitude(c), cancelled, sign);
    if cancelled {
      return SignedZero(mode == RDN);
    }
    r := RoundAndPack128(sign, mag, e, mode, fe, Num(ExactMagnitude(neg, p, Negative(c), Magnitude(c))));
  }

  /** The part of `fma_r_impl` before rounding: the exact product and the addend in one frame. */
  method ExactFused(a: u64, b: u64, c: u64, neg: bool, ghost p: real)
    returns (cancelled: bool, sign: bool, mag: U128, e: int)
    requires IsFinite(a) && IsFinite(b) && IsFinite(c) && !IsZero(a) && !IsZero(b)
    requires p == Magnitude(a) * Magnitude(b) > 0.0 && Magnitude(c) >= 0.0 && (Magnitude(c) == 0.0 <==> IsZero(c))
    ensures FusedBy(neg, p, Negative(c), Magnitude(c), cancelled, sign)
    ensures !cancelled ==>
              Nat(mag) < Pow2(127) && Framed(60, Nat(mag), e, Num(ExactMagnitude(neg, p, Negative(c), Magnitude(c))))
  {
    var ma, expA := Normalise(a);
    var mb, expB := Normalise(b);
    var prod := Mul64x64To128(ma, mb);
    var prodExp := expA + expB - 104;
    ProductRange(ma, mb);
    ProductPowers();
    Pow2Step(105);
    Pow2Mono(106, 127);
    ExactProduct(ma, expA - 52, mb, expB - 52, Nat(prod));
    DyadicMul(ma, expA - 52, mb, expB - 52);
    if IsZero(c) {
      return false, neg, prod, prodExp;
    }
    var mc, expC := Normalise(c);
    cancelled, sign, mag, e := MeetInFrame(neg, prod, prodExp, Negative(c), mc, expC, p, Magnitude(c));
  }

  method MeetInFrame(neg: bool, prod: U128, prodExp: int, cNeg: bool, mc: u64, expC: int, ghost p: real, ghost m: real)
    returns (cancelled: bool, sign: bool, mag: U128, e: int)
    requires Pow2(104) <= Nat(prod) < Pow2(106) && IMPLICIT <= mc < 2 * IMPLICIT
    requires p == Dyadic(Nat(prod), prodExp) && m == Dyadic(mc, expC - 52) && p >= 0.0 && m >= 0.0
    ensures p >= 0.0 && m >= 0.0 && FusedBy(neg, p, cNeg, m, cancelled, sign)
    ensures !cancelled ==> Nat(mag) < Pow2(127) && Framed(60, Nat(mag), e, Num(ExactMagnitude(neg, p, cNeg, m)))
  {
    var msb := HighestBit(prod);
    ProductMsb(Nat(prod), msb);
    Pow2Table();
    var prodTop := prodExp + msb;
    var frameTop := (if prodTop > expC then prodTop else expC) + 2;
    e := frameTop - 127;
    var prodShift := prodExp - e;
    var cShift := expC - 52 - e;
    FramePlaced(125, Nat(prod), msb, prodExp, prodShift, e, p);
    FramePlaced(125, mc, 52, expC - 52, cShift, e, m);
    FrameFits(Nat(prod), prodShift);
    FrameFits(mc, cShift);
    var pf := PlaceInFrame(prod, prodShift);
    var cf := PlaceInFrame(U128(0, mc), cShift);
    cancelled, sign, mag := Combine(neg, pf, prodShift, cNeg, cf, cShift, e, p, m);
  }

  lemma ProductMsb(n: nat, msb: nat)
    requires Pow2(104) <= n < Pow2(106) && Pow2(msb) <= n < Pow2(msb + 1)
    ensures 104 <= msb <= 105
  {
    if msb < 104 {
      Pow2Mono(msb + 1, 104);
    } else if msb > 105 {
      Pow2Mono(106, msb);
    }
  }

  lemma FrameFits(n: nat, shift: int)
    requires FrameNat(n, shift) < Pow2(126)
    ensures shift >= 0 ==> Shl(n, shift) < TWO128
  {
    Pow2Table();
    Pow2Times(64, 64, TWO64, TWO64, TWO128);
    Pow2Mono(126, 128);
  }

  lemma FrameWidth()
    ensures Pow2(126) + Pow2(126) == Pow2(127) < TWO128
  {
    Pow2Step(126);
    Pow2Table();
    Pow2Times(64, 64, TWO64, TWO64, TWO128);
    Pow2Mono(127, 128);
  }

  lemma SumFramed(pf: nat, prodShift: int, cf: nat, cShift: int, e: int, p: real, m: real)
    requires Placed(125, pf, prodShift, e, p) && Placed(125, cf, cShift, e, m)
    requires Dominance(125, pf, prodShift, cf, cShift)
    ensures pf + cf < Pow2(127) && Framed(60, pf + cf, e, Num(p + m))
  {
    assert cf + pf == pf + cf && Num(m + p) == Num(p + m);
    if prodShift >= 0 {
      FrameSum(125, 60, pf, prodShift, cf, cShift, e, p, m);
    } else {
      FrameSum(125, 60, cf, cShift, pf, prodShift, e, m, p);
    }
  }

  lemma AddFits(a: U128, b: U128)
    requires Nat(a) + Nat(b) < TWO128
    ensures Nat(Add(a, b)) == Nat(a) + Nat(b)
  {
  }

  method AddFrames(pf: U128, ghost prodShift: int, cf: U128, ghost cShift: int, ghost e: int,
                   ghost p: real, ghost m: real)
    returns (mag: U128)
    requires Placed(125, Nat(pf), prodShift, e, p) && Placed(125, Nat(cf), cShift, e, m)
    requires Dominance(125, Nat(pf), prodShift, Nat(cf), cShift)
    ensures Nat(mag) < Pow2(127) && Framed(60, Nat(mag), e, Num(p + m))
  {
    FrameWidth();
    SumFramed(Nat(pf), prodShift, Nat(cf), cShift, e, p, m);
    AddFits(pf, cf);
    mag := Add(pf, cf);
  }

  method SubtractFrames(big: U128, ghost bigShift: int, small: U128, ghost smallShift: int, ghost e: int,
                        ghost vb: real, ghost vs: real)
    returns (mag: U128)
    requires Placed(125, Nat(big), bigShift, e, vb) && Placed(125, Nat(small), smallShift, e, vs)
    requires Nat(big) >= Nat(small) && Dominance(125, Nat(big), bigShift, Nat(small), smallShift)
    ensures Nat(mag) < Pow2(127) && Framed(60, Nat(mag), e, Num(vb - vs))
    ensures vb >= vs && (vb == vs <==> mag == U128(0, 0))
  {
    FrameWidth();
    FrameDiff(125, 60, Nat(big), bigShift, Nat(small), smallShift, e, vb, vs);
    mag := Sub(big, small);
  }

  /** Adds or subtracts the placed operands. */
  method Combine(neg: bool, pf: U128, ghost prodShift: int, cNeg: bool, cf: U128, ghost cShift: int, ghost e: int,
                 ghost p: real, ghost m: real)
    returns (cancelled: bool, sign: bool, mag: U128)
    requires Placed(125, Nat(pf), prodShift, e, p) && Placed(125, Nat(cf), cShift, e, m)
    requires Dominance(125, Nat(pf), prodShift, Nat(cf), cShift)
    ensures p >= 0.0 && m >= 0.0 && FusedBy(neg, p, cNeg, m, cancelled, sign)
    ensures !cancelled ==> Nat(mag) < Pow2(127) && Framed(60, Nat(mag), e, Num(ExactMagnitude(neg, p, cNeg, m)))
  {
    if neg == cNeg {
      mag := AddFrames(pf, prodShift, cf, cShift, e, p, m);
      return false, neg, mag;
    }
    if !Less(pf, cf) {
      mag := SubtractFrames(pf, prodShift, cf, cShift, e, p, m);
      sign := neg;
    } else {
      mag := SubtractFrames(cf, cShift, pf, prodShift, e, m, p);
      sign := cNeg;
    }
    cancelled := mag == U128(0, 0);
  }
}
