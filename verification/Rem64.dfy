/** The truncating remainder, twice: `sf64_rem` of src/arithmetic.cpp by integer long division, and `sf64_fmod`
    of src/sleef/sleef_inv_hyp_pow.cpp by scaling and subtracting. They return the same bits. */
module Rem64 {
  import opened Powers
  import opened Shifts
  import opened Rounding
  import opened Cells
  import opened ExactResults
  import opened Remainders
  import opened Words
  import opened Binary64
  import opened Fenv
  import opened Pack64
  import opened Arithmetic64
  import opened Scale64
  import opened Rne64

  // ----- what both must return -----

  /** The exact truncating remainder of finite operands, with the sign of the dividend even when zero. */
  ghost predicate IsRem(a: u64, b: u64, r: u64) {
    IsFinite(r) && Negative(r) == Negative(a) && TruncatedRemainder(Value(a), Value(b), Value(r))
  }

  /** That determines the bits. */
  lemma RemUnique(a: u64, b: u64, r: u64, s: u64)
    requires IsRem(a, b, r) && IsRem(a, b, s) && Value(b) != 0.0
    ensures r == s
  {
    TruncatedUnique(Value(a), Value(b), Value(r), Value(s));
    SameMagnitude(Code(r), Code(s));
  }

  lemma SameMagnitude(c: nat, d: nat)
    requires Decode(F64, c) == Decode(F64, d)
    ensures c == d
  {
    if c < d {
      DecodeMono(F64, c, d);
    } else if d < c {
      DecodeMono(F64, d, c);
    }
  }

  lemma CodeOrder(c: nat, d: nat)
    ensures c < d <==> Decode(F64, c) < Decode(F64, d)
  {
    if c < d {
      DecodeMono(F64, c, d);
    } else if d < c {
      DecodeMono(F64, d, c);
    }
  }

  /** A remainder of magnitudes, under the dividend's sign. */
  lemma RemFromMagnitudes(a: u64, b: u64, r: u64, n: int)
    requires IsFinite(r) && Negative(r) == Negative(a)
    requires Magnitude(r) == Magnitude(a) - n as real * Magnitude(b) && 0.0 <= Magnitude(r) < Magnitude(b)
    requires Magnitude(r) <= Magnitude(a)
    ensures IsRem(a, b, r)
  {
    SignedTruncated(Negative(a), Magnitude(a), Negative(b), Magnitude(b), Magnitude(r), n);
  }

  /** A dividend smaller than the divisor is its own remainder. */
  lemma RemOfSmall(a: u64, b: u64)
    requires IsFinite(a) && IsFinite(b) && Magnitude(a) < Magnitude(b)
    ensures IsRem(a, b, a)
  {
    DecodeNonNegative(F64, Code(a));
    RemFromMagnitudes(a, b, a, 0);
  }

  /** What both return when there is no finite remainder to compute; only their NaN differs. */
  ghost function SpecialRem(a: u64, b: u64, nan: u64): Outcome {
    if IsNan(a) || IsNan(b) then Outcome(nan, NanFlags(a, b))
    else if IsInf(a) || IsZero(b) then Outcome(CANONICAL_NAN, {Invalid})
    else Outcome(a, {})
  }

  /** The contract of both: exact and without flags on finite operands. */
  ghost predicate RemResult(a: u64, b: u64, nan: u64, r: u64, flags: set<Flag>) {
    if IsFinite(a) && IsFinite(b) && !IsZero(b) then IsRem(a, b, r) && flags == {}
    else Outcome(r, flags) == SpecialRem(a, b, nan)
  }

  /** Any two such results of operands that are not NaNs are the same bits and flags. */
  lemma RemResultUnique(a: u64, b: u64, r: u64, f: set<Flag>, s: u64, g: set<Flag>)
    requires !IsNan(a) && !IsNan(b)
    requires RemResult(a, b, PropagateNan(a, b), r, f) && RemResult(a, b, CANONICAL_NAN, s, g)
    ensures r == s && f == g
  {
    if IsFinite(a) && IsFinite(b) && !IsZero(b) {
      FiniteCodes(b);
      RemUnique(a, b, r, s);
    }
  }

  // ----- long division -----

  /** The loop: one exponent position per iteration, leaving at once when the remainder vanishes. */
  method LongRemainder(sigA0: u64, sigB: u64, k0: nat) returns (sigA: u64, ghost q: nat)
    requires IMPLICIT <= sigA0 < 2 * IMPLICIT && IMPLICIT <= sigB < 2 * IMPLICIT
    ensures Shl(sigA0, k0) == q * sigB + sigA && sigA < sigB
  {
    sigA, q := sigA0, 0;
    var k := k0;
    assert Shl(sigA0, 0) == sigA0;
    while true
      invariant 0 <= k <= k0
      invariant Partial(sigA0, sigB, k0 - k, q, sigA)
      decreases k
    {
      QuotientBit(sigA0, sigB, k0 - k, q, sigA);
      q := 2 * q;
      if sigA >= sigB {
        sigA := sigA - sigB;
        q := q + 1;
      }
      if sigA == 0 {
        ExactMultiple(sigA0, sigB, k0 - k, k, q);
        q := Shl(q, k);
        return;
      }
      if k != 0 {
        NextBit(sigA0, sigB, k0 - k, q, sigA);
        sigA := 2 * sigA;
        k := k - 1;
      } else {
        break;
      }
    }
  }

  /** A vanished remainder stays zero. */
  lemma ExactMultiple(num: nat, den: nat, steps: nat, k: nat, q: nat)
    requires Shl(num, steps) == q * den
    ensures Shl(num, steps + k) == Shl(q, k) * den
  {
    ShlShl(num, steps, k);
    ShlMultiplies(q * den, k);
    ShlMultiplies(q, k);
    Assoc(q, den, Pow2(k));
    Assoc(q, Pow2(k), den);
  }

  /** The remainder significand brought back to 53 bits packs without rounding. */
  method PackRemainder(neg: bool, sig: u64, exp: int, fe: FeAcc, ghost k: int) returns (r: u64)
    requires 0 < sig < 2 * IMPLICIT && exp <= 2046 && Dyadic(sig, exp - 1075) == Dyadic(k, F64.e0)
    modifies fe
    ensures IsFinite(r) && Negative(r) == neg && Magnitude(r) == Dyadic(sig, exp - 1075)
    ensures fe.bits == old(fe.bits)
  {
    FormatConstants();
    var lz := Clz64(sig);
    ClzPosition(sig, lz);
    Pow2Table();
    if lz < 11 {
      Pow2Mono(53, 63 - lz);
    }
    var lshift := lz - 11;
    ShlRange(sig, lshift, 63 - lz);
    ShlRange(sig, lshift, 64 - lz);
    var sigR: u64 := Shl(sig, lshift);
    ghost var c := RemainderCode(sig, exp, lshift, k);
    r := RoundAndPack(neg, exp - lshift, sigR * 0x200, RNE, fe, Num(Dyadic(sig, exp - 1075)));
    RoundExact(F64, RNE, neg, Num(Dyadic(sig, exp - 1075)), c);
    InRange(RNE, neg, Num(Dyadic(sig, exp - 1075)), c);
    FiniteCodes(r);
  }

  lemma RemainderCode(sig: nat, exp: int, lshift: nat, k: int) returns (c: nat)
    requires 0 < sig < 2 * IMPLICIT && exp <= 2046 && Dyadic(sig, exp - 1075) == Dyadic(k, F64.e0)
    ensures Decode(F64, c) == Dyadic(sig, exp - 1075) >= 0.0 && c < 0x7FF0_0000_0000_0000
    ensures SameCell(Shl(sig, lshift) * 0x200, exp - lshift - 1084, Num(Dyadic(sig, exp - 1075)), 8)
  {
    FormatConstants();
    Pow2Table();
    c := MultipleCode(F64, sig, exp - 1075, k);
    BelowInf(sig, exp - 1075, c);
    DyadicPositive(sig, exp - 1075);
    ShlMultiplies(sig, lshift);
    DyadicShift(sig, exp - lshift - 1075, lshift);
    DyadicShift(Shl(sig, lshift), exp - lshift - 1084, 9);
    ExactCell(Shl(sig, lshift) * 0x200, exp - lshift - 1084, Num(Dyadic(sig, exp - 1075)), 8);
  }

  /** 53 bits at a scale in range are below infinity. */
  lemma BelowInf(n: nat, e: int, c: nat)
    requires n < 2 * IMPLICIT && e <= 971 && Decode(F64, c) == Dyadic(n, e)
    ensures c < 0x7FF0_0000_0000_0000
  {
    FormatConstants();
    DecodeGrid(F64, IMPLICIT, 0x7FE, 0x7FF0_0000_0000_0000);
    DyadicTwice(IMPLICIT, 971);
    DyadicMono(n, 2 * IMPLICIT, e);
    DyadicShift(2 * IMPLICIT, e, 971 - e);
    MulMono(1, Pow2(971 - e), 2 * IMPLICIT);
    if 2 * IMPLICIT < 2 * IMPLICIT * Pow2(971 - e) {
      DyadicMono(2 * IMPLICIT, 2 * IMPLICIT * Pow2(971 - e), e);
    }
    CodeOrder(c, 0x7FF0_0000_0000_0000);
  }

  /** The result of long division as a remainder of magnitudes. */
  lemma LongQuotient(ma: real, mb: real, sa: nat, sb: nat, e: int, k: nat, q: nat, rem: nat)
    requires ma == Dyadic(sa, e + k) && mb == Dyadic(sb, e) && Shl(sa, k) == q * sb + rem && rem < sb
    ensures Dyadic(rem, e) == ma - q as real * mb && 0.0 <= Dyadic(rem, e) < mb && Dyadic(rem, e) <= ma
  {
    ShlMultiplies(sa, k);
    DyadicShift(sa, e, k);
    DyadicAdd(q * sb, rem, e);
    DyadicTimes(q, sb, e);
    DyadicPositive(rem, e);
    DyadicPositive(q * sb, e);
    DyadicMono(rem, sb, e);
  }

  /** `sf64_rem`. */
  method Rem(a: u64, b: u64) returns (r: u64, flags: set<Flag>)
    ensures RemResult(a, b, PropagateNan(a, b), r, flags)
  {
    var fe := new FeAcc();
    if IsNan(a) || IsNan(b) {
      return PropagateNan(a, b), if IsSnan(a) || IsSnan(b) then {Invalid} else {};
    }
    if ExtractExp(a) == EXP_MAX {
      return CANONICAL_NAN, {Invalid};
    }
    if IsZero(b) {
      return CANONICAL_NAN, {Invalid};
    }
    if ExtractExp(b) == EXP_MAX {
      return a, {};
    }
    FiniteCodes(a);
    FiniteCodes(b);
    DecodeNonNegative(F64, Code(b));
    if IsZero(a) {
      RemOfSmall(a, b);
      return a, {};
    }
    r := RemFinite(a, b, fe);
    flags := fe.bits;
  }

  method RemFinite(a: u64, b: u64, fe: FeAcc) returns (r: u64)
    requires IsFinite(a) && !IsZero(a) && IsFinite(b) && !IsZero(b)
    modifies fe
    ensures IsRem(a, b, r) && fe.bits == old(fe.bits)
  {
    var ua := UnpackFiniteNonzero(a);
    var ub := UnpackFiniteNonzero(b);
    DropNine(a, ua);
    DropNine(b, ub);
    var sigA: u64, sigB: u64 := ua.sig / 0x200, ub.sig / 0x200;
    if ua.exp < ub.exp || (ua.exp == ub.exp && sigA < sigB) {
      SmallerDividend(sigA, ua.exp, sigB, ub.exp);
      RemOfSmall(a, b);
      return a;
    }
    r := RemLarge(a, b, sigA, ua.exp, sigB, ub.exp, fe);
  }

  lemma SmallerDividend(sa: nat, ea: int, sb: nat, eb: int)
    requires sa < 2 * IMPLICIT && IMPLICIT <= sb
    requires ea < eb || (ea == eb && sa < sb)
    ensures Dyadic(sa, ea - 1075) < Dyadic(sb, eb - 1075)
  {
    if ea == eb {
      DyadicMono(sa, sb, ea - 1075);
    } else {
      DyadicMono(sa, 2 * IMPLICIT, ea - 1075);
      DyadicShift(sb, ea - 1075, eb - ea);
      Pow2Table();
      Pow2Mono(1, eb - ea);
      MulMono(2, Pow2(eb - ea), sb);
      if 2 * IMPLICIT < sb * Pow2(eb - ea) {
        DyadicMono(2 * IMPLICIT, sb * Pow2(eb - ea), ea - 1075);
      }
    }
  }

  method RemLarge(a: u64, b: u64, sigA: u64, expA: int, sigB: u64, expB: int, fe: FeAcc) returns (r: u64)
    requires IMPLICIT <= sigA < 2 * IMPLICIT && IMPLICIT <= sigB < 2 * IMPLICIT && expB <= expA && expB <= 2046
    requires Magnitude(a) == Dyadic(sigA, expA - 1075) && Magnitude(b) == Dyadic(sigB, expB - 1075)
    modifies fe
    ensures IsRem(a, b, r) && fe.bits == old(fe.bits)
  {
    var sig, q := LongRemainder(sigA, sigB, expA - expB);
    LongQuotient(Magnitude(a), Magnitude(b), sigA, sigB, expB - 1075, expA - expB, q, sig);
    if sig == 0 {
      FiniteCodes(SignedZero(Negative(a)));
      DyadicZero(expB - 1075);
      RemFromMagnitudes(a, b, SignedZero(Negative(a)), q);
      return SignedZero(Negative(a));
    }
    ghost var k := QuantumMultiple(F64, Code(a), Code(b), q);
    r := PackRemainder(Negative(a), sig, expB, fe, k);
    RemFromMagnitudes(a, b, r, q);
  }

  // ----- scaling and subtracting -----

  function AbsBits(b: u64): (r: u64)
    ensures Code(r) == Code(b) && !Negative(r)
  {
    Bits(false, Code(b))
  }

  /** Subtracting non-negative numbers whose difference is representable is exact. */
  lemma ExactDifference(a: u64, b: u64, c: nat)
    requires IsFinite(a) && IsFinite(b) && !Negative(a) && !Negative(b) && c <= Code(a)
    requires Decode(F64, c) == Magnitude(a) - Magnitude(b)
    ensures Sum(RNE, a, Negated(b)) == Outcome(Bits(false, c), {})
  {
    FormatConstants();
    FiniteCodes(a);
    FiniteCodes(b);
    DecodeZero(F64);
    DecodeNonNegative(F64, c);
    var v := Magnitude(a) - Magnitude(b);
    if c == 0 {
    } else {
      RoundExact(F64, RNE, false, Num(v), c);
      InRange(RNE, false, Num(v), c);
    }
  }

  /** `sf64_frexp` bounds a magnitude between neighbouring powers of two. */
  lemma FrexpBinade(b: u64, f: u64, e: int)
    requires 0.5 <= Magnitude(f) < 1.0 && Scaled(f, e) == Magnitude(b)
    ensures Two(e - 1) <= Magnitude(b) < Two(e)
  {
    TwoStep(e - 1);
    assert Two(e) == 2.0 * Two(e - 1);
    HalfToWhole(Magnitude(f), Two(e));
  }

  lemma HalfToWhole(m: real, t: real)
    requires 0.5 <= m < 1.0 && t > 0.0
    ensures Times(m, t) < t <= 2.0 * Times(m, t)
  {
    TimesDef(m, t);
    Fraction(m, t);
  }

  lemma Fraction(m: real, t: real)
    requires 0.5 <= m < 1.0 && t > 0.0
    ensures m * t < t <= 2.0 * (m * t)
  {
    RealMono(m, 1.0, t);
    RealMono(1.0, 2.0 * m, t);
    RealAssoc(2.0, m, t);
  }

  lemma TwoMono(a: int, b: int)
    requires a <= b
    ensures Two(a) <= Two(b)
  {
    DyadicDef(1, a);
    DyadicDef(1, b);
    DyadicUnits(a, b - a);
  }

  lemma TwoOrder(a: int, b: int)
    requires Two(a) < Two(b)
    ensures a < b
  {
    if b <= a {
      TwoMono(b, a);
    }
  }

  /** A finite number is below 2^1024. */
  lemma FiniteBelow(b: u64)
    requires IsFinite(b)
    ensures Magnitude(b) < Two(1024) == Decode(F64, 0x7FF0_0000_0000_0000)
  {
    FormatConstants();
    FiniteCodes(b);
    DecodeGrid(F64, IMPLICIT, 0x7FE, 0x7FF0_0000_0000_0000);
    Pow2Table();
    DyadicShift(1, 972, 52);
    DyadicDef(1, 1024);
    DecodeMono(F64, Code(b), 0x7FF0_0000_0000_0000);
  }

  /** The divisor moved up by `k` places, while below 2^1024, is a number. */
  lemma ScaledCode(y: u64, k: nat) returns (c: nat)
    requires IsFinite(y) && Scaled(y, k) < Two(1024)
    ensures Decode(F64, c) == Scaled(y, k) && c < 0x7FF0_0000_0000_0000
  {
    var r, n, q := DecodeExists(F64, Code(y));
    ScaledDyadic(y, k, n, F64.e0 + q);
    c := ExactCode(F64, n, F64.e0 + q + k);
    FiniteBelow(SignedZero(false));
    CodeOrder(c, 0x7FF0_0000_0000_0000);
  }

  lemma ScaledTwice(y: u64, k: int)
    ensures Scaled(y, k + 1) == 2.0 * Scaled(y, k)
  {
    TimesDef(Magnitude(y), Two(k + 1));
    TimesDef(Magnitude(y), Two(k));
    TwoStep(k);
    RealDouble(Magnitude(y), Two(k));
  }

  lemma ScaledNat(y: u64, k: nat)
    ensures Scaled(y, k) == Pow2(k) as real * Magnitude(y)
  {
    TimesDef(Magnitude(y), Two(k));
    TwoNat(k);
  }

  /** `sf64_ldexp` of a positive operand, when the result is a number. */
  method LdexpExact(y: u64, k: nat, ghost c: nat) returns (s: u64)
    requires IsFinite(y) && !IsZero(y) && !Negative(y)
    requires Decode(F64, c) == Scaled(y, k) && c < 0x7FF0_0000_0000_0000
    ensures IsFinite(s) && !Negative(s) && Code(s) == c
  {
    s := Ldexp(y, k);
    RoundExact(F64, RNE, false, Num(Scaled(y, k)), c);
    InRange(RNE, false, Num(Scaled(y, k)), c);
    FormatConstants();
    FiniteCodes(s);
  }

  /** The loop of `fmod_impl`: at each place subtract the scaled divisor if it fits. Every subtraction is
      exact, because the operands are within a factor of two. */
  method ScaleAndSubtract(absx: u64, absy: u64, diff0: nat, fe: FeAcc) returns (r: u64, ghost n: int)
    requires IsFinite(absx) && !Negative(absx) && IsFinite(absy) && !Negative(absy) && !IsZero(absy)
    requires Scaled(absy, diff0) < Two(1024) && Magnitude(absx) < 2.0 * Scaled(absy, diff0)
    modifies fe
    ensures IsFinite(r) && !Negative(r) && Code(r) <= Code(absx) && Magnitude(r) < Magnitude(absy)
    ensures Magnitude(r) == Magnitude(absx) - n as real * Magnitude(absy)
    ensures fe.bits == old(fe.bits)
  {
    r, n := absx, 0;
    var diff: int := diff0;
    ScaledTwice(absy, diff0);
    while diff >= 0
      invariant -1 <= diff <= diff0 && IsFinite(r) && !Negative(r) && Code(r) <= Code(absx)
      invariant Magnitude(r) == Magnitude(absx) - n as real * Magnitude(absy)
      invariant Magnitude(r) < Scaled(absy, diff + 1)
      invariant diff >= 0 ==> Scaled(absy, diff) < Two(1024)
      invariant fe.bits == old(fe.bits)
      decreases diff
    {
      r, n := SubtractScaled(absx, absy, r, diff, fe, n);
      diff := diff - 1;
      ScaledTwice(absy, diff);
    }
    ScaledNat(absy, 0);
    Pow2Zero();
  }

  method SubtractScaled(ghost absx: u64, absy: u64, r0: u64, diff: nat, fe: FeAcc, ghost n0: int)
    returns (r: u64, ghost n: int)
    requires IsFinite(r0) && !Negative(r0) && IsFinite(absy) && !Negative(absy) && !IsZero(absy)
    requires Magnitude(r0) == Magnitude(absx) - n0 as real * Magnitude(absy)
    requires Magnitude(r0) < Scaled(absy, diff + 1) && Scaled(absy, diff) < Two(1024)
    modifies fe
    ensures IsFinite(r) && !Negative(r) && Code(r) <= Code(r0) && Magnitude(r) < Scaled(absy, diff)
    ensures Magnitude(r) == Magnitude(absx) - n as real * Magnitude(absy)
    ensures fe.bits == old(fe.bits)
  {
    ghost var c := ScaledCode(absy, diff);
    var s := LdexpExact(absy, diff, c);
    CodeOrder(Code(r0), Code(s));
    ScaledTwice(absy, diff);
    r, n := r0, n0;
    if Code(r0) >= Code(s) {
      ghost var d := Sterbenz(F64, Code(r0), Code(s));
      SterbenzBelow(Code(r0), Code(s), d);
      ExactDifference(r0, s, d);
      r := SubRne(r0, s, fe);
      FormatConstants();
      FiniteCodes(r0);
      FiniteCodes(r);
      n := n0 + Pow2(diff);
      ScaledNat(absy, diff);
      RealDistribute(n0 as real, Pow2(diff) as real, Magnitude(absy));
    }
  }

  lemma SterbenzBelow(c: nat, d: nat, e: nat)
    requires Decode(F64, e) == Decode(F64, c) - Decode(F64, d)
    ensures e <= c
  {
    DecodeNonNegative(F64, d);
    CodeOrder(c, e);
  }

  /** `sf64_fmod`. The comparisons of non-negative numbers are comparisons of their encodings. */
  method Fmod(x: u64, y: u64) returns (r: u64, flags: set<Flag>)
    ensures RemResult(x, y, CANONICAL_NAN, r, flags)
  {
    var fe := new FeAcc();
    if IsNan(x) || IsNan(y) {
      return CANONICAL_NAN, if IsSnan(x) || IsSnan(y) then {Invalid} else {};
    }
    if IsInf(x) || IsZero(y) {
      return CANONICAL_NAN, {Invalid};
    }
    if IsInf(y) {
      return x, {};
    }
    CodeOrder(Code(x), Code(y));
    if Code(x) < Code(y) {
      RemOfSmall(x, y);
      return x, {};
    }
    r := FmodLarge(x, y, fe);
    flags := {};
  }

  method FmodLarge(x: u64, y: u64, fe: FeAcc) returns (r: u64)
    requires IsFinite(x) && IsFinite(y) && !IsZero(y) && Magnitude(y) <= Magnitude(x) && Code(y) <= Code(x)
    modifies fe
    ensures IsRem(x, y, r) && fe.bits == old(fe.bits)
  {
    var absx, absy := AbsBits(x), AbsBits(y);
    AbsOperands(x, y);
    var diff := FirstScale(absx, absy);
    ghost var n;
    r, n := ScaleAndSubtract(absx, absy, diff, fe);
    r := WithSignOf(x, y, r, n);
  }

  /** The difference of the exponents. */
  method FirstScale(absx: u64, absy: u64) returns (diff: nat)
    requires IsFinite(absx) && !IsZero(absx) && IsFinite(absy) && !IsZero(absy) && Magnitude(absy) <= Magnitude(absx)
    ensures Scaled(absy, diff) < Two(1024) && Magnitude(absx) < 2.0 * Scaled(absy, diff)
  {
    var fx, ex := Frexp(absx);
    var fy, ey := Frexp(absy);
    FrexpBinade(absx, fx, ex);
    FrexpBinade(absy, fy, ey);
    StartScale(absx, absy, ex, ey);
    diff := ex - ey;
  }

  /** The last step: the dividend's sign. */
  method WithSignOf(x: u64, ghost y: u64, positive: u64, ghost n: int) returns (r: u64)
    requires IsFinite(positive) && !Negative(positive) && Code(positive) <= Code(x)
    requires Magnitude(positive) == Magnitude(x) - n as real * Magnitude(y) && Magnitude(positive) < Magnitude(y)
    ensures IsRem(x, y, r)
  {
    r := if Negative(x) then Negated(positive) else positive;
    SignRestored(x, y, positive, r, n);
  }

  lemma AbsOperands(x: u64, y: u64)
    requires IsFinite(x) && IsFinite(y) && !IsZero(y) && Code(y) <= Code(x)
    ensures var absx, absy := AbsBits(x), AbsBits(y);
            && IsFinite(absx) && !IsZero(absx) && IsFinite(absy) && !IsZero(absy)
            && Magnitude(absx) == Magnitude(x) && Magnitude(absy) == Magnitude(y)
  {
    FormatConstants();
    FiniteCodes(x);
    FiniteCodes(y);
    FiniteCodes(AbsBits(x));
    FiniteCodes(AbsBits(y));
  }

  lemma SignRestored(x: u64, y: u64, positive: u64, r: u64, n: int)
    requires IsFinite(positive) && !Negative(positive) && Code(positive) <= Code(x)
    requires r == if Negative(x) then Negated(positive) else positive
    requires Magnitude(positive) == Magnitude(x) - n as real * Magnitude(y) && Magnitude(positive) < Magnitude(y)
    ensures IsRem(x, y, r)
  {
    FiniteCodes(r);
    FiniteCodes(positive);
    DecodeNonNegative(F64, Code(r));
    CodeOrder(Code(x), Code(positive));
    RemFromMagnitudes(x, y, r, n);
  }

  /** The first scale: above half of the dividend, below 2^1024. */
  lemma StartScale(x: u64, y: u64, ex: int, ey: int)
    requires IsFinite(x) && Magnitude(y) <= Magnitude(x)
    requires Two(ex - 1) <= Magnitude(x) < Two(ex) && Two(ey - 1) <= Magnitude(y) < Two(ey)
    ensures ex >= ey
    ensures Scaled(y, ex - ey) < Two(1024) && Magnitude(x) < 2.0 * Scaled(y, ex - ey)
  {
    TwoOrder(ey - 1, ex);
    var k := ex - ey;
    assert Two(ex - 1) <= Scaled(y, k) < Two(ex) by {
      TwoAdd(ey, k);
      TwoAdd(ey - 1, k);
      TimesDef(Two(ey), Two(k));
      TimesDef(Two(ey - 1), Two(k));
      ScaledBetween(Magnitude(y), Two(ey - 1), Two(ey), Two(k));
    }
    FiniteBelow(x);
    TwoOrder(ex - 1, 1024);
    TwoMono(ex, 1024);
    TwoStep(ex - 1);
    assert Two(ex) == 2.0 * Two(ex - 1);
  }

  lemma ScaledBetween(m: real, h: real, t: real, p: real)
    requires h <= m < t && p > 0.0
    ensures Times(h, p) <= Times(m, p) < Times(t, p)
  {
    TimesDef(h, p);
    TimesDef(m, p);
    TimesDef(t, p);
    RealMono(h, m, p);
    RealMono(m, t, p);
  }

  /** Both remainders return the same bits and the same flags for all operands that are not NaNs. */
  method SameRemainder(a: u64, b: u64) returns (r: u64, flags: set<Flag>, s: u64, other: set<Flag>)
    requires !IsNan(a) && !IsNan(b)
    ensures r == s && flags == other && RemResult(a, b, CANONICAL_NAN, s, other)
  {
    r, flags := Rem(a, b);
    s, other := Fmod(a, b);
    RemResultUnique(a, b, r, flags, s, other);
  }
}
