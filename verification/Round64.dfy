/** Rounding to integers in src/rounding.cpp: bit operations on the encoding. */
module Round64 {
  import opened Powers
  import opened Shifts
  import opened Rounding
  import opened Integers
  import opened Words
  import opened Wide
  import opened Binary64
  import opened Convert64

  function Unbiased(b: u64): int {
    ExtractExp(b) as int - 1023
  }

  /** Clears the low `s` bits. */
  function ClearLow(b: u64, s: nat): (r: u64)
    ensures r <= b
  {
    ShrDivides(b, s);
    ShlMultiplies(Shr(b, s), s);
    Shl(Shr(b, s), s)
  }

  /** `trunc_bits`. */
  function TruncBits(b: u64): u64 {
    if ExtractExp(b) == EXP_MAX then b
    else if Unbiased(b) < 0 then SignedZero(Negative(b))
    else if Unbiased(b) >= 52 then b
    else ClearLow(b, 52 - Unbiased(b))
  }

  /** `has_fractional_part`. */
  predicate HasFraction(b: u64) {
    if ExtractExp(b) == EXP_MAX then false
    else if Unbiased(b) >= 52 then false
    else if Unbiased(b) < 0 then b % SIGN != 0
    else AnyLow(b, 52 - Unbiased(b))
  }

  /** `next_integer_away`: one unit of the integer part added to or taken from the whole encoding. */
  function NextIntegerAway(t: u64, directionNeg: bool): u64
    requires IsZero(t) || 0 <= Unbiased(t) <= 51
  {
    if t % SIGN == 0 then Pack(directionNeg, 1023, 0)
    else
      var oneUlp := ShlWord(1, 52 - Unbiased(t));
      if Negative(t) == directionNeg then WAdd(t, oneUlp) else WSub(t, oneUlp)
  }

  /** The operand's significand, with its binary point `s` places up, for 1 <= |b| < 2^52. */
  ghost function Mant(b: u64): nat {
    ExtractFrac(b) + IMPLICIT
  }

  /** Above the fraction field the encoding only carries multiples of 2^52. */
  lemma EncodingBits(b: u64, s: nat)
    requires 1 <= s <= 52 && ExtractExp(b) != 0
    ensures Shr(b, s) == Shr(Mant(b), s) + Shl(b / IMPLICIT - 1, 52 - s)
    ensures AnyLow(b, s) <==> AnyLow(Mant(b), s)
    ensures AnyLow(b, s - 1) <==> AnyLow(Mant(b), s - 1)
    ensures Bit(b, s - 1) <==> Bit(Mant(b), s - 1)
    ensures s < 52 ==> (Bit(b, s) <==> Bit(Mant(b), s))
  {
    LiftedBits(Mant(b), b / IMPLICIT - 1, s, b);
  }

  lemma LiftedBits(m: nat, d: nat, s: nat, b: nat)
    requires 1 <= s <= 52 && b == m + d * IMPLICIT
    ensures Shr(b, s) == Shr(m, s) + Shl(d, 52 - s)
    ensures AnyLow(b, s) <==> AnyLow(m, s)
    ensures AnyLow(b, s - 1) <==> AnyLow(m, s - 1)
    ensures Bit(b, s - 1) <==> Bit(m, s - 1)
    ensures s < 52 ==> (Bit(b, s) <==> Bit(m, s))
  {
    Pow2Table();
    Lifted(m, d, s);
    Lifted(m, d, s - 1);
    BitBelow(m, d, s - 1, 53 - s);
    if s < 52 {
      BitBelow(m, d, s, 52 - s);
    }
  }

  lemma Lifted(m: nat, d: nat, s: nat)
    requires s <= 52
    ensures Shr(m + d * IMPLICIT, s) == Shr(m, s) + Shl(d, 52 - s)
    ensures AnyLow(m + d * IMPLICIT, s) <==> AnyLow(m, s)
  {
    Pow2Table();
    ShlMultiplies(d, 52);
    ShlShl(d, 52 - s, s);
    ShlAdd(m, Shl(d, 52 - s), s);
  }

  /** The integer part of a 53-bit significand, and one more. */
  lemma IntegerPart(m: nat, s: nat)
    requires 1 <= s <= 52 && IMPLICIT <= m < 2 * IMPLICIT
    ensures var n := Shr(m, s);
            && n >= 1 && IMPLICIT <= n * Pow2(s) <= m && (n + 1) * Pow2(s) <= 2 * IMPLICIT
            && (n * Pow2(s) == IMPLICIT || IMPLICIT + Pow2(s) <= n * Pow2(s))
  {
    Pow2Table();
    ShrDivides(m, s);
    ShrRange(m, s, 52);
    ShrRange(m, s, 53);
    Pow2Add(52 - s, s);
    Pow2Add(53 - s, s);
    Between(Shr(m, s), Pow2(52 - s), Pow2(53 - s), Pow2(s));
  }

  lemma Between(n: nat, lo: nat, hi: nat, p: nat)
    requires 1 <= lo <= n < hi
    ensures lo * p <= n * p && (n + 1) * p <= hi * p && (n == lo || lo * p + p <= n * p)
  {
    MulMono(lo, n, p);
    MulMono(n + 1, hi, p);
    if lo < n {
      MulMono(lo + 1, n, p);
      Distribute(0, lo, p);
    }
  }

  lemma ClearedBits(b: u64, s: nat)
    requires 1 <= s <= 52 && ExtractExp(b) != 0
    ensures ClearLow(b, s) == Shr(Mant(b), s) * Pow2(s) + (b / IMPLICIT - 1) * IMPLICIT
  {
    EncodingBits(b, s);
    ClearedParts(b, s, Shr(Mant(b), s), b / IMPLICIT - 1);
  }

  lemma ClearedParts(b: u64, s: nat, n: nat, d: nat)
    requires s <= 52 && Shr(b, s) == n + Shl(d, 52 - s)
    ensures ClearLow(b, s) == n * Pow2(s) + d * IMPLICIT
  {
    ShiftBack(n, d, s);
  }

  lemma ShiftBack(n: nat, d: nat, s: nat)
    requires s <= 52
    ensures Shl(n + Shl(d, 52 - s), s) == n * Pow2(s) + d * IMPLICIT
  {
    Pow2Table();
    ShlMultiplies(n + Shl(d, 52 - s), s);
    ShlMultiplies(Shl(d, 52 - s), s);
    ShlShl(d, 52 - s, s);
    ShlMultiplies(d, 52);
    Distribute(n, Shl(d, 52 - s), Pow2(s));
  }

  lemma UnitWord(s: nat)
    requires s <= 52
    ensures ShlWord(1, s) == Pow2(s) <= IMPLICIT
  {
    Pow2Table();
    Pow2Mono(s, 52);
    ShlMultiplies(1, s);
    DivUnique(Pow2(s), TWO64, 0, Pow2(s));
  }

  /** A code whose significand is a multiple `n` of the unit is the integer `n`. */
  lemma IntegerValue(n: nat, s: nat, q: nat, r: u64)
    requires s <= 52 && q + s == 1074 && IMPLICIT <= n * Pow2(s) <= 2 * IMPLICIT
    requires Code(r) == n * Pow2(s) + q * IMPLICIT
    ensures Magnitude(r) == n as real && IsFinite(r)
  {
    FormatConstants();
    DecodeGrid(F64, n * Pow2(s), q, Code(r));
    DyadicShift(n, 0 - s, s);
    Units(n);
    FiniteCodes(r);
  }

  /** Truncation of an operand with integer and fraction bits. */
  lemma TruncValue(b: u64, s: nat)
    requires s == 52 - Unbiased(b) && 1 <= s <= 52
    ensures var t, n := TruncBits(b), Shr(Mant(b), s);
            && n >= 1 && IsFinite(t) && Negative(t) == Negative(b) && ExtractExp(t) == ExtractExp(b)
            && Magnitude(t) == n as real
            && Code(t) == n * Pow2(s) + (ExtractExp(b) - 1) * IMPLICIT
            && IMPLICIT <= n * Pow2(s) && (n + 1) * Pow2(s) <= 2 * IMPLICIT
            && (n * Pow2(s) == IMPLICIT || IMPLICIT + Pow2(s) <= n * Pow2(s))
  {
    IntegerPart(Mant(b), s);
    ClearedBits(b, s);
    var n := Shr(Mant(b), s);
    Distribute(0, n, Pow2(s));
    SameFields(b, TruncBits(b), n * Pow2(s));
    IntegerValue(n, s, ExtractExp(b) - 1, TruncBits(b));
  }

  /** Replacing the significand keeps sign and exponent. */
  lemma SameFields(b: u64, t: u64, m: nat)
    requires ExtractExp(b) != 0 && IMPLICIT <= m < 2 * IMPLICIT
    requires t == m + (b / IMPLICIT - 1) * IMPLICIT
    ensures Negative(t) == Negative(b) && ExtractExp(t) == ExtractExp(b)
    ensures Code(t) == m + (ExtractExp(b) - 1) * IMPLICIT
  {
    assert t / IMPLICIT == b / IMPLICIT;
    assert t % IMPLICIT == m - IMPLICIT;
    assert b / IMPLICIT == ExtractExp(b) + ExtractSign(b) * 0x800;
  }

  /** Moving away from zero reaches the next integer, whatever carries into the exponent. */
  lemma AwayValue(b: u64, s: nat)
    requires s == 52 - Unbiased(b) && 1 <= s <= 52
    ensures var t, n := TruncBits(b), Shr(Mant(b), s);
            && !IsZero(t) && Unbiased(t) == 52 - s
            && IsFinite(NextIntegerAway(t, Negative(b))) && Negative(NextIntegerAway(t, Negative(b))) == Negative(b)
            && Magnitude(NextIntegerAway(t, Negative(b))) == (n + 1) as real
  {
    TruncValue(b, s);
    var t, n := TruncBits(b), Shr(Mant(b), s);
    var p := Pow2(s);
    UnitWord(s);
    FormatConstants();
    FiniteCodes(t);
    var r := NextIntegerAway(t, Negative(b));
    Distribute(0, n, p);
    CodePlus(t, p, r);
    IntegerValue(n + 1, s, ExtractExp(b) - 1, r);
  }

  lemma CodePlus(t: u64, p: nat, r: u64)
    requires Code(t) + p <= 0x7FF0_0000_0000_0000 && r == WAdd(t, p) && p < TWO64
    ensures Negative(r) == Negative(t) && Code(r) == Code(t) + p
  {
  }

  // ----- the integer roundings -----

  /** `sf64_trunc`, `sf64_floor`, `sf64_ceil`. */
  function Trunc(b: u64): u64 {
    TruncBits(b)
  }

  lemma TruncSteps(b: u64)
    ensures ExtractExp(b) != EXP_MAX && HasFraction(b) ==> IsZero(TruncBits(b)) || 0 <= Unbiased(TruncBits(b)) <= 51
  {
    if ExtractExp(b) != EXP_MAX && 0 <= Unbiased(b) < 52 {
      AwayValue(b, 52 - Unbiased(b));
    }
  }

  function Floor(b: u64): u64 {
    if ExtractExp(b) == EXP_MAX then b
    else if !HasFraction(b) then TruncBits(b)
    else if !Negative(b) then TruncBits(b)
    else
      TruncSteps(b);
      NextIntegerAway(TruncBits(b), true)
  }

  function Ceil(b: u64): u64 {
    if ExtractExp(b) == EXP_MAX then b
    else if !HasFraction(b) then TruncBits(b)
    else if Negative(b) then TruncBits(b)
    else
      TruncSteps(b);
      NextIntegerAway(TruncBits(b), false)
  }

  /** `sf64_round`: halves away from zero. */
  function Round(b: u64): u64 {
    var unbiased, sign := Unbiased(b), Negative(b);
    if ExtractExp(b) == EXP_MAX then b
    else if unbiased < 0 then
      if unbiased == -1 then Pack(sign, 1023, 0) else SignedZero(sign)
    else if unbiased >= 52 then b
    else if !AnyLow(b, 52 - unbiased) then b
    else if Bit(b, 51 - unbiased) then
      TruncSteps(b);
      NextIntegerAway(TruncBits(b), sign)
    else TruncBits(b)
  }

  /** `sf64_rint`: halves to even. */
  function Rint(b: u64): u64 {
    var unbiased, sign := Unbiased(b), Negative(b);
    if ExtractExp(b) == EXP_MAX then b
    else if unbiased < 0 then
      if unbiased == -1 && ExtractFrac(b) == 0 then SignedZero(sign)
      else if unbiased == -1 then Pack(sign, 1023, 0)
      else SignedZero(sign)
    else if unbiased >= 52 then b
    else if !AnyLow(b, 52 - unbiased) then b
    else
      TruncSteps(b);
      var t := TruncBits(b);
      if !Bit(b, 51 - unbiased) then t
      else if AnyLow(b, 51 - unbiased) then NextIntegerAway(t, sign)
      else if unbiased == 0 || Bit(t, 52 - unbiased) then NextIntegerAway(t, sign)
      else t
  }

  /** `sf64_rint_r`. */
  function RintR(mode: Mode, b: u64): u64 {
    match mode
    case RTZ => Trunc(b)
    case RUP => Ceil(b)
    case RDN => Floor(b)
    case RNA => Round(b)
    case RNE => Rint(b)
  }

  // ----- correctness -----

  /** `r` is the integer that `b` rounds to, under the sign of `b`. */
  ghost predicate IntegerOf(mode: Mode, b: u64, r: u64) {
    && Magnitude(b) >= 0.0 && IsFinite(r) && Negative(r) == Negative(b)
    && Magnitude(r) == RoundInt(mode, Negative(b), Magnitude(b)) as real
  }

  /** Operands below one. */
  lemma SmallRounding(mode: Mode, b: u64)
    requires ExtractExp(b) < 1023
    ensures Magnitude(b) >= 0.0
    ensures RoundInt(mode, Negative(b), Magnitude(b))
         == if IsZero(b) then 0
            else if Unbiased(b) == -1
            then (if ShouldRoundUp(Negative(b), true, ExtractFrac(b) != 0, false, mode) then 1 else 0)
            else if AwayFromZero(mode, Negative(b)) then 1 else 0
  {
    FormatConstants();
    DecodeZero(F64);
    DecodeNonNegative(F64, Code(b));
    var frac := ExtractFrac(b);
    if IsZero(b) {
      RoundIntExact(mode, Negative(b), 0);
    } else if ExtractExp(b) == 0 {
      DecodeGrid(F64, frac, 0, frac);
      BelowHalf(mode, Negative(b), frac, -1074, Magnitude(b));
    } else {
      NormalMagnitude(b, frac + IMPLICIT, Unbiased(b));
      if Unbiased(b) == -1 {
        HalfToOne(mode, Negative(b), frac + IMPLICIT, Magnitude(b));
      } else {
        BelowHalf(mode, Negative(b), frac + IMPLICIT, Unbiased(b) - 52, Magnitude(b));
      }
    }
  }

  lemma One(neg: bool)
    ensures Magnitude(Pack(neg, 1023, 0)) == 1.0 && IsFinite(Pack(neg, 1023, 0)) && Negative(Pack(neg, 1023, 0)) == neg
    ensures Magnitude(SignedZero(neg)) == 0.0 && IsFinite(SignedZero(neg)) && Negative(SignedZero(neg)) == neg
  {
    Pow2Table();
    DecodeZero(F64);
    IntegerValue(1, 52, 1022, Pack(neg, 1023, 0));
  }

  /** Operands with an integer part and a fraction part. */
  lemma MiddleRounding(mode: Mode, b: u64, s: nat)
    requires s == 52 - Unbiased(b) && 1 <= s <= 52
    ensures Magnitude(b) >= 0.0
    ensures RoundInt(mode, Negative(b), Magnitude(b)) == Shr(Mant(b), s)
              + if ShouldRoundUp(Negative(b), Bit(b, s - 1), AnyLow(b, s - 1), Shr(Mant(b), s) % 2 == 1, mode)
                then 1 else 0
    ensures AnyLow(b, s) <==> Bit(b, s - 1) || AnyLow(b, s - 1)
    ensures Shr(Mant(b), s) % 2 == 1 <==> s == 52 || Bit(TruncBits(b), s)
    ensures !AnyLow(b, s) ==> Magnitude(b) == Shr(Mant(b), s) as real
  {
    EncodingBits(b, s);
    NormalMagnitude(b, Mant(b), Unbiased(b));
    FractionMagnitude(mode, Negative(b), Mant(b), 0 - s, s, Magnitude(b));
    Large();
    TruncParity(b, s);
    if !AnyLow(b, s) {
      FractionMagnitude(RTZ, false, Mant(b), 0 - s, s, Magnitude(b));
    }
  }

  lemma TruncParity(b: u64, s: nat)
    requires s == 52 - Unbiased(b) && 1 <= s <= 52
    ensures Shr(Mant(b), s) % 2 == 1 <==> s == 52 || Bit(TruncBits(b), s)
  {
    EncodingBits(b, s);
    if s == 52 {
      Pow2Table();
      ShrUnique(Mant(b), 52, 1);
    } else {
      ShrOfShl(Shr(b, s), s, 0);
      assert Shr(Shr(b, s), 0) == Shr(b, s);
    }
  }

  /** `sf64_rint_r`: every mode returns the integer that section 4.3 of IEEE 754-2008 prescribes, with the
      operand's sign, for every finite operand. */
  lemma RintCorrect(mode: Mode, b: u64)
    requires IsFinite(b)
    ensures IntegerOf(mode, b, RintR(mode, b))
  {
    if Unbiased(b) < 0 {
      SmallRounding(mode, b);
      One(Negative(b));
    } else if Unbiased(b) >= 52 {
      LargeRounding(mode, b);
    } else {
      MiddleCorrect(mode, b, 52 - Unbiased(b));
    }
  }

  lemma MiddleCorrect(mode: Mode, b: u64, s: nat)
    requires s == 52 - Unbiased(b) && 1 <= s <= 52
    ensures IntegerOf(mode, b, RintR(mode, b))
  {
    MiddleRounding(mode, b, s);
    TruncValue(b, s);
    AwayValue(b, s);
  }

  lemma LargeRounding(mode: Mode, b: u64)
    requires IsFinite(b) && Unbiased(b) >= 52
    ensures IntegerOf(mode, b, b)
  {
    NormalMagnitude(b, Mant(b), Unbiased(b));
    WholeRounding(mode, Negative(b), Mant(b), Unbiased(b) - 52, Magnitude(b));
  }

  lemma WholeRounding(mode: Mode, neg: bool, m: nat, e: nat, v: real)
    requires m < 2 * IMPLICIT && e <= 1000 && v == Dyadic(m, e)
    ensures v >= 0.0 && RoundInt(mode, neg, v) as real == v
  {
    Pow2Table();
    ShlMultiplies(m, e);
    DyadicShift(m, 0, e);
    Units(Shl(m, e));
    ShlRange(m, e, 53);
    Pow2Mono(53 + e, 300000);
    RoundIntExact(mode, neg, Shl(m, e));
  }

  /** `next_integer_away` on a truncated operand, zero included, and in its own direction: one more than the integer
      part, so the first integer beyond the operand. */
  lemma NextInteger(b: u64)
    requires Unbiased(b) <= 51
    ensures IsZero(TruncBits(b)) || 0 <= Unbiased(TruncBits(b)) <= 51
    ensures var t := TruncBits(b); var r := NextIntegerAway(t, Negative(b));
            && IsFinite(r) && Negative(r) == Negative(b)
            && Magnitude(r) == Magnitude(t) + 1.0 && Magnitude(t) <= Magnitude(b) < Magnitude(r)
  {
    RintCorrect(RTZ, b);
    One(Negative(b));
    if 0 <= Unbiased(b) {
      AwayValue(b, 52 - Unbiased(b));
      TruncValue(b, 52 - Unbiased(b));
    }
    IntegerPartBound(b);
  }

  lemma IntegerPartBound(b: u64)
    requires Unbiased(b) <= 51
    ensures Magnitude(b) >= 0.0
    ensures var n := RoundInt(RTZ, Negative(b), Magnitude(b)) as real; n <= Magnitude(b) < n + 1.0
  {
    if Unbiased(b) < 0 {
      SmallRounding(RTZ, b);
    } else {
      var s := 52 - Unbiased(b);
      MiddleRounding(RTZ, b, s);
      ShrDivides(Mant(b), s);
      MulMono(1, Pow2(s), Shr(Mant(b), s));
    }
    var n := RoundInt(RTZ, Negative(b), Magnitude(b));
    Pow2Table();
    Pow2Mono(64, 300000);
    IntegerCode(n);
    IntegerCode(n + 1);
  }

  /** From a zero of either sign the step goes to one in the given direction. */
  lemma FromZero(t: u64, directionNeg: bool)
    requires IsZero(t)
    ensures Value(NextIntegerAway(t, directionNeg)) == if directionNeg then -1.0 else 1.0
  {
    One(directionNeg);
  }

  /** Infinities and NaNs pass through. */
  lemma RintSpecial(mode: Mode, b: u64)
    requires !IsFinite(b)
    ensures RintR(mode, b) == b
  {
  }

  // ----- the unused direction -----

  /** No caller moves towards zero. There the step is right exactly when the integer is not a power of two;
      from a power of two it goes half a unit only. */
  lemma TowardZeroStep(t: u64, n: nat)
    requires 0 <= Unbiased(t) <= 51 && Magnitude(t) == n as real && !AnyLow(t, 52 - Unbiased(t))
    ensures Magnitude(NextIntegerAway(t, !Negative(t))) == (n as real) - 1.0 <==> ExtractFrac(t) != 0
  {
    var s := 52 - Unbiased(t);
    var p := Pow2(s);
    UnitWord(s);
    TruncIsSelf(t, s);
    TruncValue(t, s);
    var k := Shr(Mant(t), s);
    var r := NextIntegerAway(t, !Negative(t));
    CodeMinus(t, p, r);
    if k * p > IMPLICIT {
      Distribute(k, 1, p);
      IntegerValue(k - 1, s, ExtractExp(t) - 1, r);
    } else {
      HalfStep(t, s, r);
    }
  }

  /** Two steps to one and a half. */
  lemma TowardZeroExample()
    ensures NextIntegerAway(0x4000_0000_0000_0000, true) == 0x3FF8_0000_0000_0000
    ensures Magnitude(0x4000_0000_0000_0000) == 2.0 && Magnitude(0x3FF8_0000_0000_0000) == 1.5
  {
    var t := 0x4000_0000_0000_0000;
    Pow2Table();
    UnitWord(51);
    Pow2Step(51);
    IntegerValue(2, 51, 1023, t);
    HalfStep(t, 51, 0x3FF8_0000_0000_0000);
  }

  lemma TruncIsSelf(t: u64, s: nat)
    requires s == 52 - Unbiased(t) && 1 <= s <= 52 && !AnyLow(t, s)
    ensures TruncBits(t) == t
  {
    ShrDivides(t, s);
    ShlMultiplies(Shr(t, s), s);
  }

  lemma CodeMinus(t: u64, p: nat, r: u64)
    requires p <= Code(t) && r == WSub(t, p) && p < TWO64
    ensures Code(r) == Code(t) - p
  {
  }

  lemma HalfStep(t: u64, s: nat, r: u64)
    requires s == 52 - Unbiased(t) && 1 <= s <= 52 && ExtractFrac(t) == 0 && Code(r) == Code(t) - Pow2(s)
    ensures Magnitude(r) == Magnitude(t) - 0.5
  {
    FormatConstants();
    Pow2Table();
    Pow2Mono(s, 52);
    var q := ExtractExp(t) - 1;
    DecodeGrid(F64, IMPLICIT, q, Code(t));
    DecodeGrid(F64, 2 * IMPLICIT - Pow2(s), q - 1, Code(r));
    DyadicTwice(IMPLICIT, q - 1075);
    DyadicAdd(2 * IMPLICIT, Pow2(s), q - 1075);
    DyadicShift(1, q - 1075, s);
    DyadicTwice(1, -1);
    Units(1);
    DyadicAdd(1, 1, -1);
  }
}
