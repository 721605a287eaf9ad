/** Conversions of src/convert.cpp between binary32 and binary64. */
module Convert32 {
  import opened Powers
  import opened Shifts
  import opened Rounding
  import opened Cells
  import opened Words
  import opened Binary64
  import opened Fenv
  import opened Convert64

  const F32: Format := Format(23, -149, 0xFF)
  const SIGN32: nat := 0x8000_0000
  const IMPLICIT32: nat := 0x80_0000
  const QUIET32: nat := 0x40_0000
  const INF32: nat := 0x7F80_0000

  // ----- binary32 encodings -----

  predicate Negative32(b: u32) {
    b / SIGN32 != 0
  }

  function Code32(b: u32): (c: nat)
    ensures c < SIGN32 && b == c + if Negative32(b) then SIGN32 else 0
  {
    b % SIGN32
  }

  function Bits32(neg: bool, code: nat): (b: u32)
    requires code < SIGN32
    ensures Negative32(b) == neg && Code32(b) == code
  {
    code + if neg then SIGN32 else 0
  }

  predicate IsNan32(b: u32) {
    Code32(b) > INF32
  }

  ghost function Magnitude32(b: u32): real {
    Decode(F32, Code32(b))
  }

  lemma Constants32()
    ensures Pow2(23) == IMPLICIT32 && Pow2(24) == 2 * IMPLICIT32 && F32.InfCode() == INF32
    ensures Pow2(28) == 0x1000_0000 && Pow2(29) == 0x2000_0000
  {
    Pow2Table();
    Pow2Times(16, 4, 0x1_0000, 0x10, 0x10_0000);
    Pow2Times(20, 3, 0x10_0000, 8, IMPLICIT32);
    Pow2Step(23);
    Pow2Times(24, 4, 0x100_0000, 0x10, 0x1000_0000);
    Pow2Step(28);
  }

  // ----- widening -----

  /** `from_f32_impl`: exact; a NaN keeps its payload and becomes quiet. */
  method FromF32(b: u32, fe: FeAcc) returns (r: u64)
    modifies fe
    ensures IsNan32(b) ==>
              r == Pack(Negative32(b), EXP_MAX,
                        b % IMPLICIT32 * 0x2000_0000 + if b / QUIET32 % 2 == 0 then QUIET else 0)
    ensures Code32(b) == INF32 ==> r == SignedInf(Negative32(b))
    ensures Code32(b) < INF32 ==> IsFinite(r) && Negative(r) == Negative32(b) && Magnitude(r) == Magnitude32(b)
    ensures fe.bits == old(fe.bits) + if IsNan32(b) && b / QUIET32 % 2 == 0 then {Invalid} else {}
  {
    var sign := Negative32(b);
    var exp32, frac32 := b / IMPLICIT32 % 0x100, b % IMPLICIT32;
    Constants32();
    Fields32(b);
    if exp32 == 0 {
      if frac32 == 0 {
        DecodeZero(F32);
        DecodeZero(F64);
        FormatConstants();
        return if sign then SIGN else 0;
      }
      r := WidenSubnormal(sign, frac32);
      return;
    }
    if exp32 == 0xFF {
      if frac32 == 0 {
        return Pack(sign, EXP_MAX, 0);
      }
      if frac32 / QUIET32 % 2 == 0 {
        fe.Raise({Invalid});
      }
      PayloadFits(frac32);
      return Pack(sign, EXP_MAX,
                  if frac32 / QUIET32 % 2 == 0 then frac32 * 0x2000_0000 + QUIET else frac32 * 0x2000_0000);
    }
    WidenNormal(sign, exp32, frac32);
    return Pack(sign, exp32 + (1023 - 127), frac32 * 0x2000_0000);
  }

  lemma Fields32(b: u32)
    ensures var e, f := b / IMPLICIT32 % 0x100, b % IMPLICIT32;
            && Code32(b) == e * IMPLICIT32 + f && f / QUIET32 % 2 == b / QUIET32 % 2
            && (IsNan32(b) <==> e == 0xFF && f != 0) && (Code32(b) < INF32 <==> e < 0xFF)
  {
  }

  lemma PayloadFits(f: nat)
    requires f < IMPLICIT32
    ensures f * 0x2000_0000 < IMPLICIT
    ensures f / QUIET32 % 2 == 0 ==> f * 0x2000_0000 + QUIET < IMPLICIT
  {
  }

  lemma WidenNormal(sign: bool, e: nat, f: nat)
    requires 0 < e < 0xFF && f < IMPLICIT32
    ensures var r := Pack(sign, e + 896, f * 0x2000_0000);
            && IsFinite(r) && Negative(r) == sign && Magnitude(r) == Decode(F32, e * IMPLICIT32 + f)
  {
    Constants32();
    FormatConstants();
    DecodeGrid(F32, f + IMPLICIT32, e - 1, e * IMPLICIT32 + f);
    DyadicShift(f + IMPLICIT32, e - 1 - 149 - 29, 29);
    DecodeGrid(F64, f * 0x2000_0000 + IMPLICIT, e + 895, (e + 896) * IMPLICIT + f * 0x2000_0000);
  }

  /** `clz32`, the 32-bit leading-zero count, in terms of the 64-bit one. */
  method Clz32(x: u32) returns (count: nat)
    ensures x == 0 ==> count == 32
    ensures x != 0 ==> count <= 31 && Pow2(31 - count) <= x < Pow2(32 - count)
  {
    if x == 0 {
      return 32;
    }
    var c := Clz64(x);
    ClzPosition(x, c);
    Pow2Table();
    if c < 32 {
      Pow2Mono(32, 63 - c);
    }
    count := c - 32;
  }

  /** A subnormal becomes a normal number. */
  method WidenSubnormal(sign: bool, frac32: u32) returns (r: u64)
    requires 0 < frac32 < IMPLICIT32
    ensures IsFinite(r) && Negative(r) == sign && Magnitude(r) == Decode(F32, frac32)
  {
    var lz := Clz32(frac32);
    var p := 31 - lz;
    Constants32();
    if p >= 23 {
      Pow2Mono(23, p);
    }
    var left := 52 - p;
    NormalizedFraction(frac32, p);
    r := Pack(sign, 905 - lz, Shl(frac32, left) % IMPLICIT);
  }

  lemma NormalizedFraction(f: nat, p: nat)
    requires p <= 22 && Pow2(p) <= f < Pow2(p + 1) && f < IMPLICIT32
    ensures var m := Shl(f, 52 - p);
            && IMPLICIT <= m < 2 * IMPLICIT && m % IMPLICIT == m - IMPLICIT
            && Decode(F64, (874 + p) * IMPLICIT + (m - IMPLICIT)) == Decode(F32, f)
            && (874 + p) * IMPLICIT + (m - IMPLICIT) < 0x7FF0_0000_0000_0000
  {
    Constants32();
    FormatConstants();
    Pow2Table();
    var m := Shl(f, 52 - p);
    ShlRange(f, 52 - p, p);
    ShlRange(f, 52 - p, p + 1);
    ShlMultiplies(f, 52 - p);
    DyadicShift(f, p - 201, 52 - p);
    DecodeGrid(F32, f, 0, f);
    DecodeGrid(F64, m, 873 + p, (874 + p) * IMPLICIT + (m - IMPLICIT));
  }

  // ----- narrowing -----

  /** `f32_overflow_bits`. */
  function OverflowBits32(sign: bool, mode: Mode): (b: u32)
    ensures b == Bits32(sign, if TowardZero(mode, sign) then INF32 - 1 else INF32)
  {
    var inf: u32 := (if sign then SIGN32 else 0) + INF32;
    match mode
    case RTZ => (if sign then SIGN32 else 0) + 0x7F7F_FFFF
    case RUP => if !sign then inf else SIGN32 + 0x7F7F_FFFF
    case RDN => if sign then inf else 0x7F7F_FFFF
    case RNE => inf
    case RNA => inf
  }

  /** What narrowing magnitude `v` under a sign must deliver: its correct rounding to binary32, with the
      flags of section 7 of IEEE 754-2008, tininess detected before rounding. */
  ghost predicate Narrowed(mode: Mode, sign: bool, v: real, r: u32, flags: set<Flag>)
    requires v >= 0.0
  {
    && Negative32(r) == sign && Code32(r) == RoundMag(F32, mode, sign, Num(v))
    && flags == RoundFlags(F32, mode, sign, Num(v))
  }

  /** From the half-quantum cell, as in `RoundPacked`. */
  lemma NarrowedBy(mode: Mode, sign: bool, v: real, mant: nat, e: int, shift: nat, q: nat, c: nat)
    requires v == Dyadic(mant, e) && shift >= 1 && e + shift == q - 149
    requires Shr(mant, shift) < 2 * IMPLICIT32 && (q == 0 || IMPLICIT32 <= Shr(mant, shift))
    requires c == Shr(mant, shift) + q * IMPLICIT32
               + if ShouldRoundUp(sign, Bit(mant, shift - 1), AnyLow(mant, shift - 1), Shr(mant, shift) % 2 == 1, mode)
                 then 1 else 0
    ensures v >= 0.0
    ensures RoundMag(F32, mode, sign, Num(v))
         == if c < INF32 then c else if TowardZero(mode, sign) then INF32 - 1 else INF32
    ensures RoundFlags(F32, mode, sign, Num(v))
         == if c >= INF32 then {Overflow, Inexact}
            else if !Bit(mant, shift - 1) && !AnyLow(mant, shift - 1) then {}
            else if Shr(mant, shift) < IMPLICIT32 then {Underflow, Inexact} else {Inexact}
  {
    Constants32();
    DyadicPositive(mant, e);
    ExactCell(mant, e, Num(v), shift - 1);
    RoundPacked(F32, mode, sign, Num(v), Shr(mant, shift - 1), !AnyLow(mant, shift - 1), q, c);
  }

  /** Far below the smallest binary32 subnormal. */
  lemma NarrowedTiny(mode: Mode, sign: bool, v: real, mant: nat, e: int)
    requires v == Dyadic(mant, e) && 0 < mant < 2 * IMPLICIT && e <= -203
    ensures v >= 0.0
    ensures Narrowed(mode, sign, v, Bits32(sign, if AwayFromZero(mode, sign) then 1 else 0), {Underflow, Inexact})
  {
    var shift: nat := -149 - e;
    Pow2Table();
    Constants32();
    ShrAll(mant, 53, shift);
    ShrAll(mant, 53, shift - 1);
    NarrowedBy(mode, sign, v, mant, e, shift, 0, if AwayFromZero(mode, sign) then 1 else 0);
  }

  /** `to_f32_impl`: correct rounding in every mode, through the subnormal range. */
  method ToF32(b: u64, mode: Mode, fe: FeAcc) returns (r: u32)
    modifies fe
    ensures IsNan(b) ==> r == Bits32(Negative(b), INF32 + NarrowPayload(ExtractFrac(b)))
                         && fe.bits == old(fe.bits) + if IsSnan(b) then {Invalid} else {}
    ensures IsInf(b) ==> r == Bits32(Negative(b), INF32) && fe.bits == old(fe.bits)
    ensures IsFinite(b) ==> Magnitude(b) >= 0.0 && Code32(r) == RoundMag(F32, mode, Negative(b), Num(Magnitude(b)))
    ensures IsFinite(b) ==> Negative32(r) == Negative(b)
    ensures IsFinite(b) ==> fe.bits == old(fe.bits) + RoundFlags(F32, mode, Negative(b), Num(Magnitude(b)))
  {
    var sign := Negative(b);
    var exp64, frac64 := ExtractExp(b), ExtractFrac(b);
    if exp64 == EXP_MAX {
      if frac64 == 0 {
        return (if sign then SIGN32 else 0) + INF32;
      }
      if IsSnan(b) {
        fe.Raise({Invalid});
      }
      return (if sign then SIGN32 else 0) + INF32 + NarrowPayload(frac64);
    }
    DecodeNonNegative(F64, Code(b));
    if exp64 == 0 {
      if frac64 == 0 {
        NarrowZero(mode, b);
        return if sign then SIGN32 else 0;
      }
      FormatConstants();
      DecodeGrid(F64, frac64, 0, frac64);
      NarrowedTiny(mode, sign, Magnitude(b), frac64, -1074);
      fe.Raise({Underflow, Inexact});
      r := TinyBits(mode, sign);
      return;
    }
    NormalMagnitude(b, frac64 + IMPLICIT, ExponentOf(exp64));
    r := NarrowNormal(mode, sign, frac64 + IMPLICIT, ExponentOf(exp64), fe, Magnitude(b));
  }

  /** The top payload bits, with the quiet bit set. */
  function NarrowPayload(frac64: nat): (p: nat)
    requires frac64 < IMPLICIT
    ensures QUIET32 <= p < IMPLICIT32
  {
    var payload := frac64 / 0x2000_0000 % IMPLICIT32;
    if payload / QUIET32 % 2 == 0 then payload + QUIET32 else payload
  }

  /** The 22 bits below the quiet bit are the top ones of the wider payload; the rest of it is dropped. */
  lemma NarrowPayloadBits(frac64: nat)
    requires frac64 < IMPLICIT
    ensures NarrowPayload(frac64) == 0x40_0000 + frac64 / 0x2000_0000 % 0x40_0000
  {
  }

  function ExponentOf(exp64: int): int {
    exp64 - 1023
  }

  method TinyBits(mode: Mode, sign: bool) returns (r: u32)
    ensures r == Bits32(sign, if AwayFromZero(mode, sign) then 1 else 0)
  {
    if (mode == RUP && !sign) || (mode == RDN && sign) {
      return (if sign then SIGN32 else 0) + 1;
    }
    return if sign then SIGN32 else 0;
  }

  lemma NarrowZero(mode: Mode, b: u64)
    requires IsZero(b)
    ensures Magnitude(b) == 0.0
    ensures RoundMag(F32, mode, Negative(b), Num(Magnitude(b))) == 0
    ensures RoundFlags(F32, mode, Negative(b), Num(Magnitude(b))) == {}
  {
    Constants32();
    DecodeZero(F64);
    DecodeZero(F32);
    RoundExact(F32, mode, Negative(b), Num(Magnitude(b)), 0);
  }

  /** A normal operand with significand `mant` and unbiased exponent `unbiased`. */
  method NarrowNormal(mode: Mode, sign: bool, mant: u64, unbiased: int, fe: FeAcc, ghost v: real) returns (r: u32)
    requires IMPLICIT <= mant < 2 * IMPLICIT && v == Dyadic(mant, unbiased - 52) && v >= 0.0
    modifies fe
    ensures Negative32(r) == sign && Code32(r) == RoundMag(F32, mode, sign, Num(v))
    ensures fe.bits == old(fe.bits) + RoundFlags(F32, mode, sign, Num(v))
  {
    var newExp := unbiased + 127;
    if newExp >= 0xFF {
      NarrowedLarge(mode, sign, v, mant, unbiased);
      fe.Raise({Overflow, Inexact});
      return OverflowBits32(sign, mode);
    }
    if newExp > 0 {
      r := NarrowInRange(mode, sign, mant, newExp, fe, v);
      return;
    }
    var shift := 30 - newExp;
    if shift > 53 {
      NarrowedTiny(mode, sign, v, mant, unbiased - 52);
      fe.Raise({Underflow, Inexact});
      r := TinyBits(mode, sign);
      return;
    }
    r := NarrowSubnormal(mode, sign, mant, shift, fe, v);
  }

  lemma NarrowedLarge(mode: Mode, sign: bool, v: real, mant: nat, unbiased: int)
    requires IMPLICIT <= mant && v == Dyadic(mant, unbiased - 52) && unbiased >= 128 && v >= 0.0
    ensures RoundMag(F32, mode, sign, Num(v)) == if TowardZero(mode, sign) then INF32 - 1 else INF32
    ensures RoundFlags(F32, mode, sign, Num(v)) == {Overflow, Inexact}
  {
    Constants32();
    Pow2Table();
    RoundTooLarge(F32, mode, sign, Num(v), mant, true, unbiased - 52, 52);
  }

  /** Rounds to 24 bits. */
  method NarrowInRange(mode: Mode, sign: bool, mant: u64, newExp: nat, fe: FeAcc, ghost v: real) returns (r: u32)
    requires IMPLICIT <= mant < 2 * IMPLICIT && 0 < newExp < 0xFF && v == Dyadic(mant, newExp - 179) && v >= 0.0
    modifies fe
    ensures Negative32(r) == sign && Code32(r) == RoundMag(F32, mode, sign, Num(v))
    ensures fe.bits == old(fe.bits) + RoundFlags(F32, mode, sign, Num(v))
  {
    Constants32();
    ShrIsDiv(mant, 29, 0x2000_0000);
    ShrIsDiv(mant, 28, 0x1000_0000);
    var top24 := mant / 0x2000_0000;
    var roundBit := mant / 0x1000_0000 % 2 != 0;
    var sticky := mant % 0x1000_0000 != 0;
    var rounded := top24;
    if ShouldRoundUp(sign, roundBit, sticky, top24 % 2 != 0, mode) {
      rounded := rounded + 1;
    }
    NarrowedBy(mode, sign, v, mant, newExp - 179, 29, newExp - 1, rounded + (newExp - 1) * IMPLICIT32);
    var overflow;
    overflow, r := Encode24(sign, rounded, newExp);
    if overflow {
      fe.Raise({Overflow, Inexact});
      return OverflowBits32(sign, mode);
    }
    if roundBit || sticky {
      fe.Raise({Inexact});
    }
  }

  /** The fields of a significand rounded to 24 bits, or one more after a carry. */
  method Encode24(sign: bool, rounded: nat, newExp: nat) returns (overflow: bool, r: u32)
    requires IMPLICIT32 <= rounded <= 2 * IMPLICIT32 && 0 < newExp < 0xFF
    ensures var c := rounded + (newExp - 1) * IMPLICIT32;
            if c >= INF32 then overflow else !overflow && r == Bits32(sign, c)
  {
    var expOut, fracOut := newExp, rounded % IMPLICIT32;
    if rounded / 0x100_0000 % 2 != 0 {
      expOut := expOut + 1;
      if expOut >= 0xFF {
        return true, 0;
      }
      fracOut := 0;
    }
    return false, (if sign then SIGN32 else 0) + expOut * IMPLICIT32 + fracOut;
  }

  /** Rounds to fewer than 24 bits; the result may reach the smallest normal number. */
  method NarrowSubnormal(mode: Mode, sign: bool, mant: u64, shift: nat, fe: FeAcc, ghost v: real) returns (r: u32)
    requires IMPLICIT <= mant < 2 * IMPLICIT && 30 <= shift <= 53 && v == Dyadic(mant, -149 - shift) && v >= 0.0
    modifies fe
    ensures Negative32(r) == sign && Code32(r) == RoundMag(F32, mode, sign, Num(v))
    ensures fe.bits == old(fe.bits) + RoundFlags(F32, mode, sign, Num(v))
  {
    Constants32();
    Pow2Table();
    ShrRange(mant, shift, 53);
    Pow2Mono(53 - shift, 23);
    var top := Shr(mant, shift);
    var roundBit := Bit(mant, shift - 1);
    var sticky := shift >= 2 && AnyLow(mant, shift - 1);
    var rounded := top;
    if ShouldRoundUp(sign, roundBit, sticky, top % 2 != 0, mode) {
      rounded := rounded + 1;
    }
    NarrowedBy(mode, sign, v, mant, -149 - shift, shift, 0, rounded);
    if roundBit || sticky {
      fe.Raise({Underflow, Inexact});
    }
    if rounded / IMPLICIT32 % 2 != 0 {
      return (if sign then SIGN32 else 0) + IMPLICIT32;
    }
    return (if sign then SIGN32 else 0) + rounded % IMPLICIT32;
  }

  // ----- round trip -----

  /** binary32 to binary64 and back, in every mode: the identity, except that a NaN returns quiet. */
  method RoundTripF32(mode: Mode, b: u32, fe: FeAcc) returns (r: u32)
    modifies fe
    ensures r == if IsNan32(b) && b / QUIET32 % 2 == 0 then b + QUIET32 else b
    ensures fe.bits == old(fe.bits) + if IsNan32(b) && b / QUIET32 % 2 == 0 then {Invalid} else {}
  {
    var x := FromF32(b, fe);
    if IsNan32(b) {
      PayloadBack(b);
    } else if Code32(b) < INF32 {
      NarrowBack(mode, b);
    }
    r := ToF32(x, mode, fe);
  }

  lemma PayloadBack(b: u32)
    requires IsNan32(b)
    ensures var f := b % IMPLICIT32;
            var x := Pack(Negative32(b), EXP_MAX, f * 0x2000_0000 + if b / QUIET32 % 2 == 0 then QUIET else 0);
            && IsNan(x) && !IsSnan(x) && Negative(x) == Negative32(b)
            && INF32 + NarrowPayload(ExtractFrac(x)) == Code32(b) + if b / QUIET32 % 2 == 0 then QUIET32 else 0
  {
    var f := b % IMPLICIT32;
    Fields32(b);
    PayloadKept(f);
    NanFields(Negative32(b), f * 0x2000_0000 + if f / QUIET32 % 2 == 0 then QUIET else 0);
  }

  lemma NanFields(neg: bool, g: nat)
    requires 0 < g < IMPLICIT
    ensures var x := Pack(neg, EXP_MAX, g);
            IsNan(x) && Negative(x) == neg && ExtractFrac(x) == g && x / QUIET % 2 == g / QUIET % 2
  {
  }

  lemma PayloadKept(f: nat)
    requires 0 < f < IMPLICIT32
    ensures var g := f * 0x2000_0000 + if f / QUIET32 % 2 == 0 then QUIET else 0;
            && 0 < g < IMPLICIT && g / QUIET % 2 == 1
            && NarrowPayload(g) == f + if f / QUIET32 % 2 == 0 then QUIET32 else 0
  {
  }

  lemma NarrowBack(mode: Mode, b: u32)
    requires Code32(b) < INF32
    ensures Magnitude32(b) >= 0.0
    ensures RoundMag(F32, mode, Negative32(b), Num(Magnitude32(b))) == Code32(b)
    ensures RoundFlags(F32, mode, Negative32(b), Num(Magnitude32(b))) == {}
  {
    Constants32();
    DecodeNonNegative(F32, Code32(b));
    RoundExact(F32, mode, Negative32(b), Num(Magnitude32(b)), Code32(b));
  }
}
