/** Conversions of src/convert.cpp between binary64 and 64-bit integers. */
module Convert64 {
  import opened Powers
  import opened Shifts
  import opened Rounding
  import opened Cells
  import opened Integers
  import opened Words
  import opened Binary64
  import opened Fenv
  import opened Pack64
  import opened Wide

  type i64 = x: int | -0x8000_0000_0000_0000 <= x < 0x8000_0000_0000_0000

  // ----- integers to binary64 -----

  /** A magnitude of at most 53 bits is representable. */
  lemma FitsExactly(mode: Mode, sign: bool, mag: nat, msb: nat, n: nat)
    requires msb <= 52 && Pow2(msb) <= mag < Pow2(msb + 1) && n == Shl(mag, 52 - msb)
    ensures IMPLICIT <= n < 2 * IMPLICIT
    ensures RoundSigned(mode, sign, Num(mag as real)) == Outcome(Bits(sign, n + (msb + 1022) * IMPLICIT), {})
  {
    Pow2Table();
    FormatConstants();
    ShlRange(mag, 52 - msb, msb);
    ShlRange(mag, 52 - msb, msb + 1);
    ShlMultiplies(mag, 52 - msb);
    DyadicShift(mag, msb - 52, 52 - msb);
    Units(mag);
    DyadicPositive(mag, 0);
    var c := n + (msb + 1022) * IMPLICIT;
    DecodeGrid(F64, n, msb + 1022, c);
    RoundExact(F64, mode, sign, Num(mag as real), c);
    InRange(mode, sign, Num(mag as real), c);
  }

  /** A longer one rounds at bit `shift`. */
  lemma RoundsAt(mode: Mode, sign: bool, mag: nat, msb: nat, shift: nat, rounded: nat)
    requires 53 <= msb <= 63 && Pow2(msb) <= mag < Pow2(msb + 1) && shift == msb - 52
    requires rounded == Shr(mag, shift)
               + if ShouldRoundUp(sign, Bit(mag, shift - 1), AnyLow(mag, shift - 1), Shr(mag, shift) % 2 == 1, mode)
                 then 1 else 0
    ensures IMPLICIT <= rounded <= 2 * IMPLICIT
    ensures RoundSigned(mode, sign, Num(mag as real))
         == Outcome(Bits(sign, rounded + (msb + 1022) * IMPLICIT),
                    if !Bit(mag, shift - 1) && !AnyLow(mag, shift - 1) then {} else {Inexact})
  {
    Pow2Table();
    FormatConstants();
    ShrRange(mag, shift, msb);
    ShrRange(mag, shift, msb + 1);
    Units(mag);
    ExactCell(mag, 0, Num(mag as real), shift - 1);
    var h := Shr(mag, shift - 1);
    var c := rounded + (msb + 1022) * IMPLICIT;
    RoundPacked(F64, mode, sign, Num(mag as real), h, !AnyLow(mag, shift - 1), msb + 1022, c);
    InRange(mode, sign, Num(mag as real), c);
  }

  /** `u64_magnitude_to_fp64_bits`: correct rounding under the given sign. */
  method U64MagnitudeToBits(mag: u64, sign: bool, mode: Mode, fe: FeAcc) returns (r: u64)
    requires mag != 0
    modifies fe
    ensures r == RoundSigned(mode, sign, Num(mag as real)).bits
    ensures fe.bits == old(fe.bits) + RoundSigned(mode, sign, Num(mag as real)).flags
  {
    var lz := Clz64(mag);
    ClzPosition(mag, lz);
    var msbPos := 63 - lz;
    var exp := msbPos + 1023;
    if msbPos <= 52 {
      var shift := 52 - msbPos;
      FitsExactly(mode, sign, mag, msbPos, Shl(mag, shift));
      return Pack(sign, exp, Shl(mag, shift) % IMPLICIT);
    }
    var shift := msbPos - 52;
    ShrJamBound(mag, shift);
    var mantissa: u64 := Shr(mag, shift);
    var roundBit := Bit(mag, shift - 1);
    var sticky := shift >= 2 && AnyLow(mag, shift - 1);
    assert !AnyLow(mag, 0);
    var rounded: nat := mantissa;
    if ShouldRoundUp(sign, roundBit, sticky, mantissa % 2 != 0, mode) {
      rounded := rounded + 1;
    }
    RoundsAt(mode, sign, mag, msbPos, shift, rounded);
    if roundBit || sticky {
      fe.Raise({Inexact});
    }
    CarryFields(rounded);
    if rounded / (2 * IMPLICIT) % 2 != 0 {
      return Pack(sign, exp + 1, 0);
    }
    return Pack(sign, exp, rounded % IMPLICIT);
  }

  /** `i64_to_fp64`, on the two's complement word. */
  method I64ToFp64(x: i64, mode: Mode, fe: FeAcc) returns (r: u64)
    modifies fe
    ensures r == RoundReal(mode, x as real, false).bits
    ensures fe.bits == old(fe.bits) + RoundReal(mode, x as real, false).flags
  {
    if x == 0 {
      return 0;
    }
    var raw: u64 := x % TWO64;
    var sign := raw / SIGN != 0;
    var mag := if sign then WSub(0, raw) else raw;
    r := U64MagnitudeToBits(mag, sign, mode, fe);
  }

  /** `u64_to_fp64`. */
  method U64ToFp64(x: u64, mode: Mode, fe: FeAcc) returns (r: u64)
    modifies fe
    ensures r == RoundReal(mode, x as real, false).bits
    ensures fe.bits == old(fe.bits) + RoundReal(mode, x as real, false).flags
  {
    if x == 0 {
      return 0;
    }
    r := U64MagnitudeToBits(x, false, mode, fe);
  }

  // ----- binary64 to integers -----

  /** Signed integer that `b` rounds to. */
  ghost function Rounded(mode: Mode, b: u64): int
    requires IsFinite(b)
  {
    DecodeNonNegative(F64, Code(b));
    var n: int := RoundInt(mode, Negative(b), Magnitude(b));
    if Negative(b) then -n else n
  }

  ghost predicate Changed(mode: Mode, b: u64)
    requires IsFinite(b)
  {
    Rounded(mode, b) as real != Value(b)
  }

  /** A normal operand: its significand, and the position of its binary point. */
  lemma NormalMagnitude(b: u64, mant: nat, e: int)
    requires ExtractExp(b) != 0 && mant == ExtractFrac(b) + IMPLICIT && e == ExtractExp(b) - 1023
    ensures Magnitude(b) == Dyadic(mant, e - 52) && IMPLICIT <= mant < 2 * IMPLICIT
  {
    FormatConstants();
    DecodeGrid(F64, mant, ExtractExp(b) - 1, Code(b));
  }

  lemma Large()
    ensures TWO64 * IMPLICIT <= Pow2(300000)
  {
    Pow2Table();
    Pow2Times(64, 52, TWO64, IMPLICIT, TWO64 * IMPLICIT);
    Pow2Mono(116, 300000);
  }

  /** Integers: nothing is dropped. */
  lemma WholeMagnitude(mode: Mode, neg: bool, mant: nat, shift: nat, v: real)
    requires mant < 2 * IMPLICIT && shift <= 11 && v == Dyadic(mant, shift)
    ensures Shl(mant, shift) < TWO64
    ensures v == Shl(mant, shift) as real && RoundInt(mode, neg, v) == Shl(mant, shift)
  {
    Large();
    Pow2Table();
    ShlRange(mant, shift, 53);
    Pow2Mono(53 + shift, 64);
    ShlMultiplies(mant, shift);
    DyadicShift(mant, 0, shift);
    Units(Shl(mant, shift));
    RoundIntExact(mode, neg, Shl(mant, shift));
  }

  /** Fraction bits are dropped. */
  lemma FractionMagnitude(mode: Mode, neg: bool, mant: nat, e: int, shift: nat, v: real)
    requires mant < 2 * IMPLICIT && shift >= 1 && e + shift == 0 && v == Dyadic(mant, e)
    ensures v >= 0.0
    ensures RoundInt(mode, neg, v) == Shr(mant, shift)
              + if ShouldRoundUp(neg, Bit(mant, shift - 1), AnyLow(mant, shift - 1), Shr(mant, shift) % 2 == 1, mode)
                then 1 else 0
    ensures RoundInt(mode, neg, v) as real == v <==> !Bit(mant, shift - 1) && !AnyLow(mant, shift - 1)
    ensures Shr(mant, shift) <= mant
  {
    Large();
    ShrJamBound(mant, shift);
    RoundIntShifted(mode, neg, mant, e, shift, v);
  }

  /** Less than a half: zero, or one away from zero. */
  lemma BelowHalf(mode: Mode, neg: bool, mant: nat, e: int, v: real)
    requires 0 < mant < 2 * IMPLICIT && e <= -54 && v == Dyadic(mant, e)
    ensures v >= 0.0
    ensures RoundInt(mode, neg, v) == if AwayFromZero(mode, neg) then 1 else 0
    ensures RoundInt(mode, neg, v) as real != v
  {
    Pow2Table();
    var shift: nat := -e;
    ShrAll(mant, 53, shift);
    ShrAll(mant, 53, shift - 1);
    FractionMagnitude(mode, neg, mant, e, shift, v);
  }

  /** Between a half and one: only the implicit bit is the guard bit. */
  lemma HalfToOne(mode: Mode, neg: bool, mant: nat, v: real)
    requires IMPLICIT <= mant < 2 * IMPLICIT && v == Dyadic(mant, -53)
    ensures v >= 0.0
    ensures RoundInt(mode, neg, v) == if ShouldRoundUp(neg, true, mant != IMPLICIT, false, mode) then 1 else 0
    ensures RoundInt(mode, neg, v) as real != v
  {
    HalfBits(mant);
    FractionMagnitude(mode, neg, mant, -53, 53, v);
  }

  lemma HalfBits(mant: nat)
    requires IMPLICIT <= mant < 2 * IMPLICIT
    ensures Shr(mant, 53) == 0 && Bit(mant, 52) && (AnyLow(mant, 52) <==> mant != IMPLICIT)
  {
    Pow2Table();
    ShrAll(mant, 53, 53);
    ShrUnique(mant, 52, 1);
  }

  /** At or above 2^64. */
  lemma TooBig(mant: nat, e: int, v: real)
    requires IMPLICIT <= mant && e >= 12 && v == Dyadic(mant, e)
    ensures v >= TWO64 as real
  {
    Pow2Table();
    Pow2Times(8, 4, 0x100, 0x10, 0x1000);
    DyadicShift(mant, 12, e - 12);
    DyadicShift(mant, 0, 12);
    MulMono(1, Pow2(e - 12), mant);
    if mant < mant * Pow2(e - 12) {
      DyadicMono(mant, mant * Pow2(e - 12), 12);
    }
    Units(mant * 0x1000);
  }

  /** `fp64_to_u64_magnitude`: the integer that the magnitude rounds to, unless that is a NaN or at least 2^64. */
  method ToU64Magnitude(b: u64, mode: Mode, fe: FeAcc) returns (mag: u64, tooLarge: bool, isNan: bool)
    modifies fe
    ensures isNan <==> IsNan(b)
    ensures tooLarge <==> IsInf(b) || (IsFinite(b) && Magnitude(b) >= TWO64 as real)
    ensures Magnitude(b) >= 0.0
    ensures isNan ==> mag == 0
    ensures tooLarge ==> mag != 0
    ensures !isNan && !tooLarge ==> mag == RoundInt(mode, Negative(b), Magnitude(b))
    ensures fe.bits == old(fe.bits)
              + if isNan || tooLarge then {Invalid}
                else if RoundInt(mode, Negative(b), Magnitude(b)) as real == Magnitude(b) then {} else {Inexact}
  {
    var sign := Negative(b);
    var exp, frac := ExtractExp(b), ExtractFrac(b);
    DecodeNonNegative(F64, Code(b));
    FiniteCodes(b);
    if exp == EXP_MAX {
      fe.Raise({Invalid});
      if frac != 0 {
        return 0, false, true;
      }
      return 0xFFFF_FFFF_FFFF_FFFF, true, false;
    }
    mag, tooLarge := FiniteMagnitude(b, mode, fe);
    isNan := false;
  }

  method FiniteMagnitude(b: u64, mode: Mode, fe: FeAcc) returns (mag: u64, tooLarge: bool)
    requires IsFinite(b) && Magnitude(b) >= 0.0
    modifies fe
    ensures tooLarge <==> Magnitude(b) >= TWO64 as real
    ensures tooLarge ==> mag != 0
    ensures !tooLarge ==> mag == RoundInt(mode, Negative(b), Magnitude(b))
    ensures fe.bits == old(fe.bits)
              + if tooLarge then {Invalid}
                else if RoundInt(mode, Negative(b), Magnitude(b)) as real == Magnitude(b) then {} else {Inexact}
  {
    var sign := Negative(b);
    var exp: int, frac := ExtractExp(b), ExtractFrac(b);
    var e := exp - 1023;
    if exp == 0 || e < -1 {
      mag := TinyMagnitude(b, mode, fe);
      return mag, false;
    }
    var mant := frac + IMPLICIT;
    NormalMagnitude(b, mant, e);
    if e == -1 {
      HalfToOne(mode, sign, mant, Magnitude(b));
      SmallerThan(mant, -53, Magnitude(b));
      fe.Raise({Inexact});
      if ShouldRoundUp(sign, true, frac != 0, false, mode) {
        return 1, false;
      }
      return 0, false;
    }
    if e > 63 {
      TooBig(mant, e - 52, Magnitude(b));
      fe.Raise({Invalid});
      return 0xFFFF_FFFF_FFFF_FFFF, true;
    }
    if e >= 52 {
      WholeMagnitude(mode, sign, mant, e - 52, Magnitude(b));
      return Shl(mant, e - 52), false;
    }
    mag := TruncatedMagnitude(b, mant, 52 - e, mode, fe);
    return mag, false;
  }

  lemma SmallerThan(mant: nat, e: int, v: real)
    requires mant < 2 * IMPLICIT && e <= 0 && v == Dyadic(mant, e)
    ensures v < TWO64 as real
  {
    DyadicShift(mant, e, 0 - e);
    DyadicPositive(mant, e);
    MulMono(1, Pow2(0 - e), mant);
    if mant < mant * Pow2(0 - e) {
      DyadicMono(mant, mant * Pow2(0 - e), e);
    }
    Units(mant);
  }

  method TinyMagnitude(b: u64, mode: Mode, fe: FeAcc) returns (mag: u64)
    requires ExtractExp(b) == 0 || ExtractExp(b) < 1022
    requires Magnitude(b) >= 0.0
    modifies fe
    ensures Magnitude(b) < TWO64 as real && mag == RoundInt(mode, Negative(b), Magnitude(b))
    ensures fe.bits == old(fe.bits)
              + if RoundInt(mode, Negative(b), Magnitude(b)) as real == Magnitude(b) then {} else {Inexact}
  {
    var sign := Negative(b);
    var exp: int, frac := ExtractExp(b), ExtractFrac(b);
    FormatConstants();
    if exp == 0 && frac == 0 {
      DecodeZero(F64);
      RoundIntExact(mode, sign, 0);
      return 0;
    }
    if exp == 0 {
      DecodeGrid(F64, frac, 0, frac);
      BelowHalf(mode, sign, frac, -1074, Magnitude(b));
      SmallerThan(frac, -1074, Magnitude(b));
    } else {
      NormalMagnitude(b, frac + IMPLICIT, exp - 1023);
      BelowHalf(mode, sign, frac + IMPLICIT, exp - 1075, Magnitude(b));
      SmallerThan(frac + IMPLICIT, exp - 1075, Magnitude(b));
    }
    fe.Raise({Inexact});
    if (mode == RUP && !sign) || (mode == RDN && sign) {
      return 1;
    }
    return 0;
  }

  /** The last branch; the source's carry out of 64 bits cannot occur. */
  method TruncatedMagnitude(b: u64, mant: u64, shift: nat, mode: Mode, fe: FeAcc) returns (mag: u64)
    requires IMPLICIT <= mant < 2 * IMPLICIT && 1 <= shift <= 52 && Magnitude(b) == Dyadic(mant, 0 - shift)
    requires Magnitude(b) >= 0.0
    modifies fe
    ensures Magnitude(b) < TWO64 as real && mag == RoundInt(mode, Negative(b), Magnitude(b))
    ensures fe.bits == old(fe.bits)
              + if RoundInt(mode, Negative(b), Magnitude(b)) as real == Magnitude(b) then {} else {Inexact}
  {
    FractionMagnitude(mode, Negative(b), mant, 0 - shift, shift, Magnitude(b));
    SmallerThan(mant, 0 - shift, Magnitude(b));
    var trunc: u64 := Shr(mant, shift);
    var roundBit := Bit(mant, shift - 1);
    var sticky := shift >= 2 && AnyLow(mant, shift - 1);
    assert !AnyLow(mant, 0);
    if roundBit || sticky {
      fe.Raise({Inexact});
    }
    var rounded: nat := trunc;
    if ShouldRoundUp(Negative(b), roundBit, sticky, trunc % 2 != 0, mode) {
      rounded := rounded + 1;
    }
    return rounded;
  }

  function Clamp(n: int, lo: int, hi: int): int {
    if n < lo then lo else if n > hi then hi else n
  }

  /** Conversion to an integer type with bounds `lo` and `hi`: NaN gives zero, infinities and integers out of
      range the nearer bound. */
  ghost function Saturated(mode: Mode, b: u64, lo: int, hi: int): int {
    if IsNan(b) then 0
    else if IsInf(b) then (if Negative(b) then lo else hi)
    else Clamp(Rounded(mode, b), lo, hi)
  }

  /** Invalid when the rounded integer is out of range, inexact when rounding changed the value; beyond 2^64 only
      invalid. */
  ghost function ConvertFlags(mode: Mode, b: u64, lo: int, hi: int): set<Flag> {
    if !IsFinite(b) || Magnitude(b) >= TWO64 as real then {Invalid}
    else (if Changed(mode, b) then {Inexact} else {})
         + (if Rounded(mode, b) < lo || Rounded(mode, b) > hi then {Invalid} else {})
  }

  /** Beyond 2^64 the rounded integer is out of range of every type. */
  lemma RoundedLarge(mode: Mode, b: u64)
    requires IsFinite(b) && Magnitude(b) >= TWO64 as real
    ensures if Negative(b) then Rounded(mode, b) + TWO64 <= 0 else Rounded(mode, b) >= TWO64
  {
    Large();
    Pow2Table();
    Pow2Mono(64, 300000);
    IntegerCode(TWO64);
    DecodeNonNegative(F64, Code(b));
    RoundAtLeast(INTEGERS, mode, Negative(b), Num(Magnitude(b)), TWO64);
  }

  lemma ChangedMagnitude(mode: Mode, b: u64)
    requires IsFinite(b) && Magnitude(b) >= 0.0
    ensures Changed(mode, b) <==> RoundInt(mode, Negative(b), Magnitude(b)) as real != Magnitude(b)
    ensures Rounded(mode, b)
         == if Negative(b) then 0 - RoundInt(mode, true, Magnitude(b)) else RoundInt(mode, false, Magnitude(b))
  {
  }

  /** The values that a mode rounds to an integer below `lo`, which is not positive. */
  ghost predicate RoundsBelow(mode: Mode, v: real, lo: int) {
    match mode
    case RTZ => v <= lo as real - 1.0
    case RUP => v <= lo as real - 1.0
    case RDN => v < lo as real
    case RNE => v < lo as real - 0.5 || (v == lo as real - 0.5 && lo % 2 != 0)
    case RNA => v <= lo as real - 0.5
  }

  /** The values that a mode rounds to an integer above `hi`, which is not negative. */
  ghost predicate RoundsAbove(mode: Mode, v: real, hi: int) {
    match mode
    case RTZ => v >= hi as real + 1.0
    case RUP => v > hi as real
    case RDN => v >= hi as real + 1.0
    case RNE => v > hi as real + 0.5 || (v == hi as real + 0.5 && hi % 2 != 0)
    case RNA => v >= hi as real + 0.5
  }

  /** The magnitudes that a mode rounds past `k`. */
  ghost predicate RoundsPast(mode: Mode, neg: bool, v: real, k: nat) {
    if TowardZero(mode, neg) then v >= k as real + 1.0
    else if AwayFromZero(mode, neg) then v > k as real
    else v > k as real + 0.5 || (v == k as real + 0.5 && (mode == RNA || k % 2 != 0))
  }

  lemma RoundedPast(mode: Mode, neg: bool, v: real, k: nat)
    requires 0.0 <= v < Pow2(300000) as real
    ensures RoundInt(mode, neg, v) > k <==> RoundsPast(mode, neg, v, k)
  {
    RoundIntMeans(mode, neg, v);
    PastMeans(mode, neg, v, RoundInt(mode, neg, v), k);
  }

  lemma PastMeans(mode: Mode, neg: bool, v: real, n: nat, k: nat)
    requires TowardZero(mode, neg) ==> n as real <= v < n as real + 1.0
    requires AwayFromZero(mode, neg) ==> n as real - 1.0 < v <= n as real
    requires mode in {RNE, RNA} ==> -0.5 <= v - n as real <= 0.5
    requires mode == RNE && v - n as real in {-0.5, 0.5} ==> n % 2 == 0
    requires mode == RNA ==> v - n as real != 0.5
    ensures n > k <==> RoundsPast(mode, neg, v, k)
  {
    if n > k {
      assert n as real >= k as real + 1.0;
    } else {
      assert n as real <= k as real;
    }
  }

  lemma RoundedRange(mode: Mode, b: u64, lo: int, hi: int)
    requires IsFinite(b) && Magnitude(b) < TWO64 as real && lo <= 0 <= hi
    ensures Rounded(mode, b) < lo <==> RoundsBelow(mode, Value(b), lo)
    ensures Rounded(mode, b) > hi <==> RoundsAbove(mode, Value(b), hi)
  {
    DecodeNonNegative(F64, Code(b));
    Large();
    Pow2Table();
    Pow2Mono(64, 300000);
    RoundedPast(mode, Negative(b), Magnitude(b), if Negative(b) then -lo else hi);
  }

  lemma ChangedFraction(mode: Mode, b: u64)
    requires IsFinite(b) && Magnitude(b) < TWO64 as real
    ensures Changed(mode, b) <==> Value(b).Floor as real != Value(b)
  {
    DecodeNonNegative(F64, Code(b));
    Pow2Table();
    Pow2Mono(64, 300000);
    if Value(b).Floor as real == Value(b) {
      RoundIntExact(mode, Negative(b), if Negative(b) then -Value(b).Floor else Value(b).Floor);
    }
  }

  /** A conversion raises INVALID and INEXACT together exactly when the operand is no integer, below 2^64 in
      magnitude, and beyond a bound by enough to be rounded past it. */
  lemma BothFlags(mode: Mode, b: u64, lo: int, hi: int)
    requires lo <= 0 <= hi
    ensures {Invalid, Inexact} <= ConvertFlags(mode, b, lo, hi)
       <==> IsFinite(b) && Magnitude(b) < TWO64 as real && Value(b).Floor as real != Value(b)
            && (RoundsBelow(mode, Value(b), lo) || RoundsAbove(mode, Value(b), hi))
  {
    if IsFinite(b) && Magnitude(b) < TWO64 as real {
      RoundedRange(mode, b, lo, hi);
      ChangedFraction(mode, b);
    }
  }

  /** The integer that a mode makes of a number: section 4.3 of IEEE 754-2008. */
  ghost predicate RoundedTo(mode: Mode, v: real, n: int) {
    var d := v - n as real;
    match mode
    case RTZ => if v >= 0.0 then 0.0 <= d < 1.0 else -1.0 < d <= 0.0
    case RUP => -1.0 < d <= 0.0
    case RDN => 0.0 <= d < 1.0
    case RNE => -0.5 <= d <= 0.5 && (d in {-0.5, 0.5} ==> n % 2 == 0)
    case RNA => -0.5 <= d <= 0.5 && (d == 0.5 ==> v < 0.0) && (d == -0.5 ==> v > 0.0)
  }

  lemma RoundedMeans(mode: Mode, b: u64)
    requires IsFinite(b) && Magnitude(b) < TWO64 as real
    ensures RoundedTo(mode, Value(b), Rounded(mode, b))
  {
    DecodeNonNegative(F64, Code(b));
    Large();
    Pow2Table();
    Pow2Mono(64, 300000);
    RoundIntMeans(mode, Negative(b), Magnitude(b));
    SignedRounding(mode, Negative(b), Magnitude(b), RoundInt(mode, Negative(b), Magnitude(b)));
  }

  lemma SignedRounding(mode: Mode, neg: bool, v: real, n: nat)
    requires v >= 0.0
    requires TowardZero(mode, neg) ==> n as real <= v < n as real + 1.0
    requires AwayFromZero(mode, neg) ==> n as real - 1.0 < v <= n as real
    requires mode in {RNE, RNA} ==> -0.5 <= v - n as real <= 0.5
    requires mode == RNE && v - n as real in {-0.5, 0.5} ==> n % 2 == 0
    requires mode == RNA ==> v - n as real != 0.5
    ensures RoundedTo(mode, if neg then -v else v, if neg then 0 - n else n)
  {
    var m: int := if neg then 0 - n else n;
    assert m as real == if neg then -(n as real) else n as real;
    assert m % 2 == n % 2;
  }

  /** What a conversion returns: the bound that the operand is rounded past, the bound of its sign when it is
      infinite or at least 2^64 in magnitude, zero for a NaN, and otherwise the rounded integer. */
  lemma SaturatedMeans(mode: Mode, b: u64, lo: int, hi: int)
    requires lo <= 0 <= hi < TWO64 && lo + TWO64 > 0
    ensures var n := Saturated(mode, b, lo, hi);
            && (IsNan(b) ==> n == 0)
            && (IsInf(b) || (IsFinite(b) && Magnitude(b) >= TWO64 as real) ==> n == if Negative(b) then lo else hi)
            && (IsFinite(b) && Magnitude(b) < TWO64 as real ==>
                  && (RoundsBelow(mode, Value(b), lo) ==> n == lo)
                  && (RoundsAbove(mode, Value(b), hi) ==> n == hi)
                  && (!RoundsBelow(mode, Value(b), lo) && !RoundsAbove(mode, Value(b), hi) ==>
                        lo <= n <= hi && RoundedTo(mode, Value(b), n)))
  {
    if IsFinite(b) {
      if Magnitude(b) >= TWO64 as real {
        RoundedLarge(mode, b);
      } else {
        RoundedRange(mode, b, lo, hi);
        RoundedMeans(mode, b);
      }
    }
  }

  /** INVALID exactly for a NaN, an infinity, a magnitude of at least 2^64 and a value rounded past a bound; INEXACT
      exactly for numbers below 2^64 that are no integers; nothing else. */
  lemma ConvertFlagsMean(mode: Mode, b: u64, lo: int, hi: int)
    requires lo <= 0 <= hi
    ensures var flags, small := ConvertFlags(mode, b, lo, hi), IsFinite(b) && Magnitude(b) < TWO64 as real;
            && (Invalid in flags <==>
                  !small || RoundsBelow(mode, Value(b), lo) || RoundsAbove(mode, Value(b), hi))
            && (Inexact in flags <==> small && Value(b).Floor as real != Value(b))
            && flags <= {Invalid, Inexact}
  {
    if IsFinite(b) && Magnitude(b) < TWO64 as real {
      RoundedRange(mode, b, lo, hi);
      ChangedFraction(mode, b);
    }
  }

  /** So it does, in every mode, for 2^31 + 1/2 and a signed 32-bit result. */
  lemma BothFlagsExample(mode: Mode)
    ensures Value(0x41E0_0000_0010_0000) == 0x8000_0000 as real + 0.5
    ensures ConvertFlags(mode, 0x41E0_0000_0010_0000, -0x8000_0000, 0x7FFF_FFFF) == {Invalid, Inexact}
  {
    FormatConstants();
    DecodeGrid(F64, 0x10_0000_0010_0000, 1053, 0x41E0_0000_0010_0000);
    Pow2Table();
    DyadicShift(0x1_0000_0001, -21, 20);
    Pow2Times(16, 4, 0x1_0000, 0x10, 0x10_0000);
    DyadicTwice(0x8000_0000, -1);
    DyadicAdd(0x1_0000_0000, 1, -1);
    DyadicDef(0x8000_0000, 0);
    DyadicDef(1, -1);
    TwoZero();
    TwoStep(-1);
    BothFlags(mode, 0x41E0_0000_0010_0000, -0x8000_0000, 0x7FFF_FFFF);
  }

  /** `fp64_to_signed`: section 5.8 of IEEE 754-2008, saturating, for every signed width. */
  method ToSigned(b: u64, imin: i64, imax: i64, mode: Mode, fe: FeAcc) returns (r: i64)
    requires imin < 0 <= imax
    modifies fe
    ensures r == Saturated(mode, b, imin, imax)
    ensures fe.bits == old(fe.bits) + ConvertFlags(mode, b, imin, imax)
  {
    var sign := Negative(b);
    var mag, tooLarge, isNan := ToU64Magnitude(b, mode, fe);
    if isNan {
      return 0;
    }
    if tooLarge {
      if IsFinite(b) {
        RoundedLarge(mode, b);
      }
      return if sign then imin else imax;
    }
    ChangedMagnitude(mode, b);
    if sign {
      var negCap: nat := if imin == -0x8000_0000_0000_0000 then 0x8000_0000_0000_0000 else 0 - imin;
      if mag > negCap {
        fe.Raise({Invalid});
        return imin;
      }
      if mag == 0x8000_0000_0000_0000 {
        return -0x8000_0000_0000_0000;
      }
      return 0 - mag;
    }
    if mag > imax {
      fe.Raise({Invalid});
      return imax;
    }
    return mag;
  }

  /** `fp64_to_unsigned`. */
  method ToUnsigned(b: u64, umax: u64, mode: Mode, fe: FeAcc) returns (r: u64)
    modifies fe
    ensures r == Saturated(mode, b, 0, umax)
    ensures fe.bits == old(fe.bits) + ConvertFlags(mode, b, 0, umax)
  {
    var sign := Negative(b);
    var mag, tooLarge, isNan := ToU64Magnitude(b, mode, fe);
    if isNan {
      return 0;
    }
    if tooLarge && IsFinite(b) {
      RoundedLarge(mode, b);
    }
    if !tooLarge {
      ChangedMagnitude(mode, b);
    }
    if sign {
      if mag != 0 {
        fe.Raise({Invalid});
      }
      return 0;
    }
    if tooLarge {
      return umax;
    }
    if mag > umax {
      fe.Raise({Invalid});
      return umax;
    }
    return mag;
  }

  // ----- round trips -----

  /** Integers of at most 53 bits survive the trip to binary64 and back, in every pair of modes, without flags. */
  method RoundTripI64(i: i64, mode: Mode, back: Mode, fe: FeAcc) returns (r: i64)
    requires -0x20_0000_0000_0000 <= i <= 0x20_0000_0000_0000
    modifies fe
    ensures r == i && fe.bits == old(fe.bits)
  {
    SmallInteger(mode, i);
    var x := I64ToFp64(i, mode, fe);
    IntegerBack(back, x, i);
    r := ToSigned(x, -0x8000_0000_0000_0000, 0x7FFF_FFFF_FFFF_FFFF, back, fe);
  }

  /** Integers of at most 53 bits are binary64 numbers. */
  lemma SmallInteger(mode: Mode, i: int)
    requires -0x20_0000_0000_0000 <= i <= 0x20_0000_0000_0000
    ensures var o := RoundReal(mode, i as real, false);
            o.flags == {} && IsFinite(o.bits) && Value(o.bits) == i as real
  {
    var n: nat := if i < 0 then -i else i;
    FormatConstants();
    DecodeZero(F64);
    if n != 0 {
      var c := SmallCode(n);
      assert Abs(i as real) == n as real;
      RoundExact(F64, mode, i < 0, Num(n as real), c);
      InRange(mode, i < 0, Num(n as real), c);
    }
  }

  lemma SmallCode(n: nat) returns (c: nat)
    requires n <= 2 * IMPLICIT
    ensures Decode(F64, c) == n as real && c < 0x7FF0_0000_0000_0000
  {
    FormatConstants();
    Units(n);
    DecodeGrid(F64, IMPLICIT, 2046, 0x7FF0_0000_0000_0000);
    if n == 2 * IMPLICIT {
      c := ExactCode(F64, IMPLICIT, 1);
      DyadicTwice(IMPLICIT, 0);
    } else {
      c := ExactCode(F64, n, 0);
    }
    DyadicShift(IMPLICIT, 2, 970);
    DyadicShift(IMPLICIT, 0, 2);
    Pow2Table();
    MulMono(1, Pow2(970), IMPLICIT);
    if IMPLICIT < IMPLICIT * Pow2(970) {
      DyadicMono(IMPLICIT, IMPLICIT * Pow2(970), 2);
    }
    DyadicMono(n, 4 * IMPLICIT, 0);
    if c > 0x7FF0_0000_0000_0000 {
      DecodeMono(F64, 0x7FF0_0000_0000_0000, c);
    }
  }

  lemma IntegerBack(mode: Mode, x: u64, i: int)
    requires -0x20_0000_0000_0000 <= i <= 0x20_0000_0000_0000
    requires IsFinite(x) && Value(x) == i as real
    ensures Rounded(mode, x) == i && !Changed(mode, x) && Magnitude(x) < TWO64 as real
  {
    DecodeNonNegative(F64, Code(x));
    Large();
    RoundIntExact(mode, Negative(x), if Negative(x) then -i else i);
  }
}
