/** Conversions between binary256 and binary64 of src/fp256/soft_f256.cpp. */
module Convert256 {
  import opened Powers
  import opened Shifts
  import opened Rounding
  import opened Tininess
  import opened Cells
  import opened Words
  import opened BigUint
  import opened Fenv
  import opened Binary256
  import opened Pack256
  import opened Remainder256
  import B64 = Binary64

  const FRAC_MASK: nat := 0x10_0000_0000_0000

  // ----- narrowing -----

  /** The encoding of a binary64 significand rounded to at most 53 bits, or one more after a carry. */
  lemma NarrowCode(n: nat, q: nat)
    requires n < 0x20_0000_0000_0000 && (q == 0 || 0x10_0000_0000_0000 <= n)
    ensures n + q * B64.IMPLICIT >= 0x7FF0_0000_0000_0000 <==> q > 2045
    ensures n + q * B64.IMPLICIT < B64.IMPLICIT <==> q == 0 && n < B64.IMPLICIT
    ensures n % FRAC_MASK == if n >= B64.IMPLICIT then n - B64.IMPLICIT else n
  {
  }

  /** Jammed to 56 bits, and further when below the normal range. */
  method NarrowExtended(sig: Big8, exponent0: int, ghost x: Exact) returns (ext: Big8, exponent: int)
    requires Pow2(236) <= Value(sig) < Pow2(237) && SameCell(Value(sig), exponent0 - 236, x, 0)
    ensures exponent >= -1022 && SameCell(Value(ext), exponent - 55, x, 2)
    ensures Value(ext) < Pow2(56) && (exponent == -1022 || Value(ext) >= Pow2(55))
  {
    exponent := exponent0;
    JamCell(Value(sig), exponent - 236, x, 0, 181, 2);
    Pow2Step(236);
    Pow2Step(55);
    JamRange(Value(sig), 181, 236);
    ext := JamLimbs(sig, 236 - 55);
    if exponent < -1022 {
      ext := NarrowTiny(ext, exponent, x);
      exponent := -1022;
    }
  }

  method NarrowTiny(ext0: Big8, exponent: int, ghost x: Exact) returns (ext: Big8)
    requires exponent < -1022 && Value(ext0) < Pow2(56) && SameCell(Value(ext0), exponent - 55, x, 2)
    ensures Value(ext) < Pow2(56) && SameCell(Value(ext), -1022 - 55, x, 2)
  {
    JamCell(Value(ext0), exponent - 55, x, 2, -1022 - exponent, 2);
    JamBelow(Value(ext0), -1022 - exponent, 55);
    Pow2Mono(55, 56);
    ext := JamLimbs(ext0, -1022 - exponent);
  }

  lemma NarrowRange(v: nat)
    ensures v < Pow2(56) ==> Shr(v, 3) < 0x20_0000_0000_0000
    ensures v >= Pow2(55) ==> Shr(v, 3) >= 0x10_0000_0000_0000
  {
    Pow2Table();
    ShrRange(v, 3, 56);
    ShrRange(v, 3, 55);
  }

  method LowWord(a: Big8) returns (w: u64)
    requires Value(a) < TWO64
    ensures w == Value(a)
  {
    TailShift(a);
    DivUnique(Value(a), TWO64, 0, Value(a));
    w := a[0];
  }

  /** Encodes the rounded significand, with the flags decided by the final encoding. */
  method FinishNarrow(sign: bool, sig0: Big8, exponent0: int, inexact: bool, mode: Mode, fe: FeAcc,
                      ghost x: Exact, ghost c: nat)
    returns (r: u64)
    requires exponent0 >= -1022 && Value(sig0) <= 0x20_0000_0000_0000
    requires exponent0 == -1022 || 0x10_0000_0000_0000 <= Value(sig0)
    requires c == Value(sig0) + (exponent0 + 1022) * B64.IMPLICIT
    requires x.v >= 0.0 && c == RoundCode(B64.F64, mode, sign, x) && (inexact <==> !Is(Decode(B64.F64, c), x))
    modifies fe
    ensures r == B64.RoundSigned(mode, sign, x).bits
    ensures fe.bits == old(fe.bits) + FinalFlags(B64.F64, mode, sign, x)
  {
    B64.RoundSignedIs(mode, sign, x, c);
    B64.FormatConstants();
    var sig, exponent := NarrowCarry(sig0, exponent0);
    NarrowCode(Value(sig), exponent + 1022);
    if exponent > 1023 {
      fe.Raise({Overflow, Inexact});
      var inf := ShouldBeInf(mode, sign);
      return (if sign then 0x8000_0000_0000_0000 else 0)
             + if inf then 0x7FF0_0000_0000_0000 else 0x7FEF_FFFF_FFFF_FFFF;
    }
    r := EncodeNarrow(sign, sig, exponent, inexact, fe, c);
  }

  method EncodeNarrow(sign: bool, sig: Big8, exponent: int, inexact: bool, fe: FeAcc, ghost c: nat) returns (r: u64)
    requires -1022 <= exponent <= 1023 && Value(sig) < 0x20_0000_0000_0000
    requires exponent == -1022 || 0x10_0000_0000_0000 <= Value(sig)
    requires c == Value(sig) + (exponent + 1022) * B64.IMPLICIT < B64.SIGN
    modifies fe
    ensures r == B64.Bits(sign, c)
    ensures fe.bits == old(fe.bits)
              + if !inexact then {} else if c < 0x10_0000_0000_0000 then {Underflow, Inexact} else {Inexact}
  {
    Pow2Table();
    NarrowCode(Value(sig), exponent + 1022);
    BitTop(Value(sig), 52);
    var subnormal := exponent == -1022 && !BitAt(sig, 52);
    if inexact {
      fe.Raise(if subnormal then {Inexact, Underflow} else {Inexact});
    }
    var field := if subnormal then 0 else exponent + 1023;
    var low := LowWord(sig);
    r := (if sign then 0x8000_0000_0000_0000 else 0) + field * FRAC_MASK + low % FRAC_MASK;
  }

  method NarrowCarry(sig0: Big8, exponent0: int) returns (sig: Big8, exponent: int)
    requires Value(sig0) <= 0x20_0000_0000_0000
    ensures Value(sig) + (exponent + 1022) * B64.IMPLICIT == Value(sig0) + (exponent0 + 1022) * B64.IMPLICIT
    ensures Value(sig) < 0x20_0000_0000_0000
    ensures (sig == sig0 && exponent == exponent0) || (B64.IMPLICIT <= Value(sig) && exponent == exponent0 + 1)
  {
    sig, exponent := sig0, exponent0;
    Pow2Table();
    Pow2Step(53);
    BitTop(Value(sig), 53);
    if BitAt(sig, 53) {
      assert Shr(Value(sig), 0) == Value(sig);
      sig := ShrLimbs(sig, 1);
      exponent := exponent + 1;
    }
  }

  /** `to_f64_impl`: correct rounding in every mode, through the subnormal range. */
  method ToF64Impl(mode: Mode, x: Word256, fe: FeAcc) returns (r: u64)
    modifies fe
    ensures IsNan(x) ==> r == (if Negative(x) then B64.SIGN else 0) + 0x7FF8_0000_0000_0000 + x[3] % TWO44 / TWO32
                         && fe.bits == old(fe.bits) + if IsSnan(x) then {Invalid} else {}
    ensures IsInf(x) ==> r == B64.SignedInf(Negative(x)) && fe.bits == old(fe.bits)
    ensures IsFinite(x) ==> Magnitude(x) >= 0.0
    ensures IsFinite(x) ==> r == B64.RoundSigned(mode, Negative(x), Num(Magnitude(x))).bits
    ensures IsFinite(x) ==> fe.bits == old(fe.bits) + FinalFlags(B64.F64, mode, Negative(x), Num(Magnitude(x)))
  {
    var d := DecodeWord(x);
    if d.nan {
      if d.snan {
        fe.Raise({Invalid});
      }
      return (if d.sign then 0x8000_0000_0000_0000 else 0) + 0x7FF8_0000_0000_0000 + x[3] % TWO44 / TWO32;
    }
    if d.inf {
      return (if d.sign then 0x8000_0000_0000_0000 else 0) + 0x7FF0_0000_0000_0000;
    }
    FiniteCodes(x);
    if d.zero {
      NarrowZero(mode, d.sign, Magnitude(x));
      return if d.sign then 0x8000_0000_0000_0000 else 0;
    }
    r := NarrowFinite(mode, d, fe, Magnitude(x));
  }

  lemma NarrowZero(mode: Mode, neg: bool, v: real)
    requires v == 0.0
    ensures B64.RoundSigned(mode, neg, Num(v)).bits == B64.SignedZero(neg)
    ensures FinalFlags(B64.F64, mode, neg, Num(v)) == {}
  {
    DecodeZero(B64.F64);
    B64.FormatConstants();
    RoundExact(B64.F64, mode, neg, Num(v), 0);
    B64.RoundSignedIs(mode, neg, Num(v), 0);
  }

  method NarrowFinite(mode: Mode, d: Decoded, fe: FeAcc, ghost v: real) returns (r: u64)
    requires Pow2(236) <= Value(d.sig) < Pow2(237) && v == Dyadic(Value(d.sig), d.exponent - 236) && v >= 0.0
    modifies fe
    ensures r == B64.RoundSigned(mode, d.sign, Num(v)).bits
    ensures fe.bits == old(fe.bits) + FinalFlags(B64.F64, mode, d.sign, Num(v))
  {
    ExactCell(Value(d.sig), d.exponent - 236, Num(v), 0);
    var ext, exponent := NarrowExtended(d.sig, d.exponent, Num(v));
    var sig, inexact := RoundExtended(d.sign, ext, mode);
    NarrowRounded(mode, d.sign, Num(v), Value(ext), exponent, Value(sig));
    r := FinishNarrow(d.sign, sig, exponent, inexact, mode, fe, Num(v), Value(sig) + (exponent + 1022) * B64.IMPLICIT);
  }

  lemma NarrowRounded(mode: Mode, sign: bool, x: Exact, ext: nat, exponent: int, n: nat)
    requires x.v >= 0.0 && exponent >= -1022 && SameCell(ext, exponent - 55, x, 2)
    requires ext < Pow2(56) && (exponent == -1022 || ext >= Pow2(55))
    requires n == Shr(ext, 3)
               + if ShouldRoundUp(sign, Bit(ext, 2), Bit(ext, 1) || Bit(ext, 0), Bit(Shr(ext, 3), 0), mode)
                 then 1 else 0
    ensures n <= 0x20_0000_0000_0000 && (exponent == -1022 || 0x10_0000_0000_0000 <= n)
    ensures var c := n + (exponent + 1022) * B64.IMPLICIT;
            c == RoundCode(B64.F64, mode, sign, x)
            && (Is(Decode(B64.F64, c), x) <==> !Bit(ext, 2) && !Bit(ext, 1) && !Bit(ext, 0))
  {
    NarrowRange(ext);
    B64.FormatConstants();
    RoundThree(B64.F64, mode, sign, x, ext, exponent + 1022, n);
  }

  // ----- widening -----

  lemma WordLimbs(w: u64)
    ensures Value([w, 0, 0, 0, 0, 0, 0, 0]) == w
  {
    var s: seq<u64> := [w, 0, 0, 0, 0, 0, 0, 0];
    TrailingZeros(s, 1);
    assert s[..1] == [] + [w];
    DigitsAppend(64, [], w);
    Pow2Zero();
  }

  /** The narrowing raises the flags of a binary64 result, except that UNDERFLOW is missing on the band just below the
      smallest normal number. */
  lemma NarrowUnderflow(mode: Mode, x: Word256)
    requires IsFinite(x)
    ensures Magnitude(x) >= 0.0
    ensures var v := Num(Magnitude(x));
            if RisesToNormal(B64.F64, mode, Negative(x), v)
            then FinalFlags(B64.F64, mode, Negative(x), v) == {Inexact}
                 && B64.RoundSigned(mode, Negative(x), v).flags == {Underflow, Inexact}
            else FinalFlags(B64.F64, mode, Negative(x), v) == B64.RoundSigned(mode, Negative(x), v).flags
  {
    FiniteCodes(x);
    var v := Num(Magnitude(x));
    MissedUnderflow(B64.F64, 1, mode, Negative(x), v);
    B64.RoundSignedIs(mode, Negative(x), v, RoundCode(B64.F64, mode, Negative(x), v));
  }

  /** An operand on it, and on the band of tininess after rounding: half way between the largest subnormal and the
      smallest normal binary64 number. */
  lemma NarrowUnderflowExample(x: Word256, k: nat)
    requires x == [0, 0, 0xFF00_0000_0000_0000, 0x3FC0_0FFF_FFFF_FFFF] && k >= 1
    ensures IsFinite(x) && !Negative(x) && Magnitude(x) == Two(-1022) - Two(-1075) > 0.0
    ensures var v := Num(Magnitude(x));
            && FinalFlags(B64.F64, RNE, false, v) == {Inexact}
            && RoundFlags(B64.F64, RNE, false, v) == {Underflow, Inexact} == AfterFlags(B64.F64, k, RNE, false, v)
            && B64.RoundSigned(RNE, false, v).bits == 0x10_0000_0000_0000
  {
    NarrowOperand(x);
    JustBelowNormal();
    var v := Num(Magnitude(x));
    MissedUnderflow(B64.F64, k, RNE, false, v);
    B64.FormatConstants();
    B64.RoundSignedIs(RNE, false, v, 0x10_0000_0000_0000);
  }

  lemma JustBelowNormal()
    ensures Dyadic(0x1F_FFFF_FFFF_FFFF, -1075) == Two(-1022) - Two(-1075) > 0.0
    ensures RisesTwice(B64.F64, RNE, false, Num(Two(-1022) - Two(-1075)))
  {
    Pow2Table();
    DyadicPositive(0x1F_FFFF_FFFF_FFFF, -1075);
    DyadicAdd(0x20_0000_0000_0000, 1, -1075);
    DyadicShift(1, -1075, 53);
    DyadicDef(1, -1022);
    DyadicDef(1, -1075);
    TwoStep(-1076);
  }

  lemma NarrowOperand(x: Word256)
    requires x == [0, 0, 0xFF00_0000_0000_0000, 0x3FC0_0FFF_FFFF_FFFF]
    ensures IsFinite(x) && !Negative(x) && Magnitude(x) == Dyadic(0x1F_FFFF_FFFF_FFFF, -1075)
  {
    var c := 0xFF00_0000_0000_0000 * Pow2(128) + 0x3FC0_0FFF_FFFF_FFFF * Pow2(192);
    ThirdLimb(x[..3], 0xFF00_0000_0000_0000);
    PositiveCode(x, 0x3FC0_0FFF_FFFF_FFFF);
    assert Code(x) == c;
    NarrowUnits(Pow2(184));
    NarrowSplit(Pow2(184));
    NarrowValue(c, Pow2(184));
  }

  lemma PositiveCode(x: Word256, top: nat)
    requires x[3] == top < TWO63
    ensures Code(x) == Value(x[..3]) + top * Pow2(192) && !Negative(x)
  {
  }

  lemma NarrowValue(c: nat, p: nat)
    requires p == Pow2(184) && Pow2(236) == 0x10_0000_0000_0000 * p
    requires c == 0x1F_FFFF_FFFF_FFFF * p + 0x3FBFF * Pow2(236)
    ensures Decode(F256, c) == Dyadic(0x1F_FFFF_FFFF_FFFF, -1075)
  {
    DyadicShift(0x1F_FFFF_FFFF_FFFF, -1259, 184);
    DecodeGrid(F256, 0x1F_FFFF_FFFF_FFFF * p, 0x3FBFF, c);
  }

  lemma ThirdLimb(s: seq<u64>, w: u64)
    requires s == [0, 0, w]
    ensures Value(s) == w * Pow2(128)
  {
    assert s == [0, 0] + [w];
    DigitsAppend(64, [0, 0], w);
    ZeroDigits(64, [0, 0]);
  }

  /** Limbs and fraction in units of the lowest fraction bit that is set. */
  lemma NarrowUnits(p: nat)
    requires p == Pow2(184)
    ensures 0xFF00_0000_0000_0000 * Pow2(128) == 0xFF * p
    ensures 0x3FC0_0FFF_FFFF_FFFF * Pow2(192) == 0x3FC00FFFFFFFFFFF00 * p
    ensures Pow2(236) == 0x10_0000_0000_0000 * p && F256.InfCode() == 0x7FFFF0000000000000 * p
  {
    Pow2Table();
    Pow2Times(32, 16, 0x1_0000_0000, 0x1_0000, 0x1_0000_0000_0000);
    Pow2Times(48, 8, 0x1_0000_0000_0000, 0x100, 0x100_0000_0000_0000);
    Pow2Add(56, 128);
    Pow2Add(8, 184);
    Pow2Add(52, 184);
  }

  lemma NarrowSplit(p: nat)
    requires p == Pow2(184) && Pow2(236) == 0x10_0000_0000_0000 * p
    ensures 0xFF * p + 0x3FC00FFFFFFFFFFF00 * p == 0x1F_FFFF_FFFF_FFFF * p + 0x3FBFF * Pow2(236)
  {
  }

  /** The 53-bit significand of a finite nonzero binary64 operand and its unbiased exponent. */
  method WideSignificand(e: nat, f: nat, ghost x: u64) returns (m: Big8, ex: int)
    requires e == B64.ExtractExp(x) && f == B64.ExtractFrac(x) && e < 0x7FF && (e != 0 || f != 0)
    ensures Value(m) < Pow2(53) && -1074 <= ex <= 1023
    ensures B64.Magnitude(x) == Dyadic(Value(m), ex - 52)
  {
    Pow2Table();
    if e != 0 {
      WordLimbs(f + FRAC_MASK);
      m := [f + FRAC_MASK, 0, 0, 0, 0, 0, 0, 0];
      ex := e - 1023;
      DecodeGrid(B64.F64, f + FRAC_MASK, e - 1, B64.Code(x));
    } else {
      WordLimbs(f);
      m := [f, 0, 0, 0, 0, 0, 0, 0];
      var top := Highest(m);
      HighestBelow(f, top, 52);
      var sh := 52 - top;
      ShlRange(f, sh, top + 1);
      ShlMultiplies(f, sh);
      DyadicShift(f, -1074 - sh, sh);
      DecodeGrid(B64.F64, f, 0, f);
      m := ShlExact(m, sh, 53);
      ex := -1022 - sh;
    }
  }

  /** `sf256_from_f64`: exact. */
  method FromF64(x: u64, fe: FeAcc) returns (r: Word256)
    modifies fe
    ensures Negative(r) == B64.Negative(x) && fe.bits == old(fe.bits)
    ensures B64.IsNan(x) ==> IsNan(r) && !IsSnan(r)
    ensures B64.IsNan(x) ==> Code(r) == QuietedCode(F256.InfCode() + Shl(B64.ExtractFrac(x), 184))
    ensures B64.IsInf(x) ==> IsInf(r)
    ensures B64.IsFinite(x) ==> IsFinite(r) && Magnitude(r) == B64.Magnitude(x)
  {
    InfLimit();
    var s := B64.Negative(x);
    var e, f := B64.ExtractExp(x), B64.ExtractFrac(x);
    if e == 0x7FF {
      if f == 0 {
        r := InfValue(s);
        return;
      }
      r := WideNan(s, f);
      return;
    }
    if e == 0 && f == 0 {
      r := ZeroValue(s);
      DecodeZero(F256);
      DecodeZero(B64.F64);
      return;
    }
    var m, ex := WideSignificand(e, f, x);
    Pow2Mono(53, 237);
    DyadicShift(Value(m), F256.e0, ex - 52 - F256.e0);
    r := PackExact(s, m, ex - 52, RNE, fe, Value(m) * Pow2(ex - 52 - F256.e0));
  }

  lemma InfLimit()
    ensures 0 < F256.InfCode() && F256.InfCode() == 0x7FFFF * Pow2(236)
  {
    MulMono(1, 0x7FFFF, Pow2(236));
  }

  /** The payload moves to the top of the wider fraction, and the quiet bit is set. */
  method WideNan(s: bool, f: nat) returns (r: Word256)
    requires 0 < f < FRAC_MASK
    ensures Negative(r) == s && IsNan(r) && !IsSnan(r) && Code(r) == QuietedCode(F256.InfCode() + Shl(f, 184))
  {
    var p := WidePayload(f);
    r := Raw(s, EXP_MAX, p);
    BitBelow(Value(p), EXP_MAX, 235, 1);
    BitBelow(Shl(f, 184), EXP_MAX, 235, 1);
  }

  method WidePayload(f: nat) returns (p: Big8)
    requires 0 < f < FRAC_MASK
    ensures 0 < Value(p) < Pow2(236) && Bit(Value(p), 235)
    ensures Value(p) == Shl(f, 184) + if Bit(Shl(f, 184), 235) then 0 else Pow2(235)
  {
    Pow2Table();
    WordLimbs(f);
    ShlRange(f, 184, 52);
    p := ShlExact([f, 0, 0, 0, 0, 0, 0, 0], 236 - 52, 236);
    QuietSet(Value(p));
    p := SetBit(p, 235);
  }

  lemma QuietSet(v: nat)
    requires v < Pow2(236)
    ensures var w := v + if Bit(v, 235) then 0 else Pow2(235);
            && 0 < w < Pow2(236) && Bit(w, 235)
  {
    if Bit(v, 235) {
      LimbHolds(v, 235);
    } else {
      RoomForBit(v, 235, 236);
      BitTop(v + Pow2(235), 235);
    }
  }

  /** binary64 to binary256 and back is the identity on everything but NaNs, in every mode, without flags. */
  method RoundTripF64(mode: Mode, x: u64, fe: FeAcc) returns (y: u64)
    requires !B64.IsNan(x)
    modifies fe
    ensures y == x && fe.bits == old(fe.bits)
  {
    var wide := FromF64(x, fe);
    if B64.IsFinite(x) {
      NarrowExact(mode, x);
    } else {
      InfBits(x);
    }
    y := ToF64Impl(mode, wide, fe);
  }

  lemma InfBits(x: u64)
    requires B64.IsInf(x)
    ensures x == B64.SignedInf(B64.Negative(x))
  {
  }

  /** A binary64 number narrows to itself. */
  lemma NarrowExact(mode: Mode, x: u64)
    requires B64.IsFinite(x)
    ensures B64.Magnitude(x) >= 0.0
    ensures B64.RoundSigned(mode, B64.Negative(x), Num(B64.Magnitude(x))).bits == x
    ensures FinalFlags(B64.F64, mode, B64.Negative(x), Num(B64.Magnitude(x))) == {}
  {
    var c := B64.Code(x);
    DecodeNonNegative(B64.F64, c);
    B64.FiniteCodes(x);
    B64.FormatConstants();
    RoundExact(B64.F64, mode, B64.Negative(x), Num(B64.Magnitude(x)), c);
    B64.RoundSignedIs(mode, B64.Negative(x), Num(B64.Magnitude(x)), c);
  }
}
