/** `ldexp` and `frexp` of src/rounding.cpp. */
module Scale64 {
  import opened Powers
  import opened Shifts
  import opened Rounding
  import opened Cells
  import opened ExactResults
  import opened Words
  import opened Binary64
  import opened Pack64
  import opened Sqrt64

  /** The magnitude of `b` times 2^n. */
  ghost function Scaled(b: u64, n: int): (v: real)
    ensures v >= 0.0
  {
    ScaledPositive(Code(b), n);
    Times(Magnitude(b), Two(n))
  }

  lemma ScaledPositive(c: nat, n: int)
    ensures Times(Decode(F64, c), Two(n)) >= 0.0
  {
    TimesDef(Decode(F64, c), Two(n));
    DecodeNonNegative(F64, c);
    RealMono(0.0, Decode(F64, c), Two(n));
  }

  lemma ScaledDyadic(b: u64, n: int, m: nat, e: int)
    requires Magnitude(b) == Dyadic(m, e)
    ensures Scaled(b, n) == Dyadic(m, e + n)
  {
    TimesDef(Magnitude(b), Two(n));
    DyadicDef(1, n);
    DyadicMul(m, e, 1, n);
  }

  /** What scaling must deliver: the correct rounding of the scaled magnitude, to nearest even. */
  ghost function ScaledBits(neg: bool, m: nat, e: int): u64 {
    DyadicPositive(m, e);
    RoundSigned(RNE, neg, Num(Dyadic(m, e))).bits
  }

  /** Too large for any finite number. */
  lemma ScaledLarge(neg: bool, mant: nat, e: int)
    requires IMPLICIT <= mant && e > 1023
    ensures ScaledBits(neg, mant, e - 52) == SignedInf(neg)
  {
    Pow2Table();
    DyadicPositive(mant, e - 52);
    RoundTooLarge(F64, RNE, neg, Num(Dyadic(mant, e - 52)), mant, true, e - 52, 52);
    OutOfRange(RNE, neg, Num(Dyadic(mant, e - 52)));
  }

  /** In the normal range scaling is exact. */
  lemma ScaledNormal(neg: bool, mant: nat, e: int)
    requires IMPLICIT <= mant < 2 * IMPLICIT && -1022 <= e <= 1023
    ensures ScaledBits(neg, mant, e - 52) == Bits(neg, mant + (e + 1022) * IMPLICIT)
  {
    FormatConstants();
    DyadicPositive(mant, e - 52);
    var c := mant + (e + 1022) * IMPLICIT;
    DecodeGrid(F64, mant, e + 1022, c);
    RoundExact(F64, RNE, neg, Num(Dyadic(mant, e - 52)), c);
    InRange(RNE, neg, Num(Dyadic(mant, e - 52)), c);
  }

  /** Below it, the significand is shifted right and rounded. */
  lemma ScaledSubnormal(neg: bool, mant: nat, e: int, shift: nat, c: nat)
    requires IMPLICIT <= mant < 2 * IMPLICIT && shift >= 1 && e + shift == -1022
    requires c == Shr(mant, shift)
               + if Bit(mant, shift - 1) && (AnyLow(mant, shift - 1) || Shr(mant, shift) % 2 == 1) then 1 else 0
    ensures c <= IMPLICIT
    ensures ScaledBits(neg, mant, e - 52) == Bits(neg, c)
  {
    FormatConstants();
    SubnormalRange(mant, shift);
    DyadicPositive(mant, e - 52);
    var x := Num(Dyadic(mant, e - 52));
    ExactCell(mant, e - 52, x, shift - 1);
    RoundPacked(F64, RNE, neg, x, Shr(mant, shift - 1), !AnyLow(mant, shift - 1), 0, c);
    InRange(RNE, neg, x, c);
  }

  lemma SubnormalRange(mant: nat, shift: nat)
    requires mant < 2 * IMPLICIT && shift >= 1
    ensures Shr(mant, shift) < IMPLICIT && Shr(mant, shift - 1) / 2 == Shr(mant, shift)
  {
    Pow2Table();
    ShrShr(mant, 1, shift - 1);
    ShrRange(mant, 1, 53);
    ShrJamBound(Shr(mant, 1), shift - 1);
  }

  /** Far below, the result is zero. */
  lemma ScaledTiny(neg: bool, mant: nat, e: int)
    requires IMPLICIT <= mant < 2 * IMPLICIT && e <= -1077
    ensures ScaledBits(neg, mant, e - 52) == SignedZero(neg)
  {
    var shift: nat := -1022 - e;
    Pow2Table();
    ShrAll(mant, 53, shift);
    ShrAll(mant, 53, shift - 1);
    ScaledSubnormal(neg, mant, e, shift, 0);
  }

  /** Clamping the scale changes nothing. */
  lemma Clamped(neg: bool, mant: nat, exp: int, n: int, n': int)
    requires IMPLICIT <= mant < 2 * IMPLICIT && -1074 <= exp <= 1023
    requires n' == if n > 2100 then 2100 else if n < -2100 then -2100 else n
    ensures ScaledBits(neg, mant, exp + n' - 52) == ScaledBits(neg, mant, exp + n - 52)
  {
    if n > 2100 {
      ScaledLarge(neg, mant, exp + n);
      ScaledLarge(neg, mant, exp + n');
    } else if n < -2100 {
      ScaledTiny(neg, mant, exp + n);
      ScaledTiny(neg, mant, exp + n');
    }
  }

  /** `sf64_ldexp`: for every integer `n`, the correct rounding of the operand times 2^n. */
  method Ldexp(b: u64, n0: int) returns (r: u64)
    ensures IsNan(b) ==> r == Quieted(b)
    ensures IsInf(b) || IsZero(b) ==> r == b
    ensures IsFinite(b) && !IsZero(b) ==> r == RoundSigned(RNE, Negative(b), Num(Scaled(b, n0))).bits
  {
    if IsNan(b) {
      return Quieted(b);
    }
    if IsInf(b) || IsZero(b) {
      return b;
    }
    var n := n0;
    if n > 2100 {
      n := 2100;
    }
    if n < -2100 {
      n := -2100;
    }
    var mant, exp := Normalise(b);
    ScaledDyadic(b, n0, mant, exp - 52);
    Clamped(Negative(b), mant, exp, n0, n);
    r := LdexpParts(Negative(b), mant, exp + n);
  }

  /** `scaled` significand and unbiased exponent, encoded. */
  method LdexpParts(sign: bool, mant: u64, newExp: int) returns (r: u64)
    requires IMPLICIT <= mant < 2 * IMPLICIT
    ensures r == ScaledBits(sign, mant, newExp - 52)
  {
    if newExp > 1023 {
      ScaledLarge(sign, mant, newExp);
      return SignedInf(sign);
    }
    if newExp >= -1022 {
      ScaledNormal(sign, mant, newExp);
      return Pack(sign, newExp + 1023, mant % IMPLICIT);
    }
    var rshift := -1022 - newExp;
    if rshift >= 64 {
      ScaledTiny(sign, mant, newExp);
      return SignedZero(sign);
    }
    r := LdexpSubnormal(sign, mant, newExp, rshift);
  }

  method LdexpSubnormal(sign: bool, mant: u64, ghost newExp: int, rshift: nat) returns (r: u64)
    requires IMPLICIT <= mant < 2 * IMPLICIT && rshift >= 1 && newExp + rshift == -1022
    ensures r == ScaledBits(sign, mant, newExp - 52)
  {
    SubnormalRange(mant, rshift);
    var retained := Shr(mant, rshift);
    var roundBit := Bit(mant, rshift - 1);
    var stickyBit := rshift >= 2 && AnyLow(mant, rshift - 1);
    assert !AnyLow(mant, 0);
    if roundBit && (stickyBit || retained % 2 != 0) {
      retained := retained + 1;
    }
    ScaledSubnormal(sign, mant, newExp, rshift, retained);
    if retained / IMPLICIT % 2 != 0 {
      return Pack(sign, 1, retained % IMPLICIT);
    }
    return Pack(sign, 0, retained % IMPLICIT);
  }

  /** `sf64_frexp`: a fraction in [1/2, 1) and an exponent whose product is the operand. */
  method Frexp(b: u64) returns (r: u64, exp: int)
    ensures IsNan(b) ==> r == Quieted(b) && exp == 0
    ensures IsInf(b) || IsZero(b) ==> r == b && exp == 0
    ensures IsFinite(b) && !IsZero(b) ==>
              IsFinite(r) && !IsZero(r) && Negative(r) == Negative(b) && 0.5 <= Magnitude(r) < 1.0
              && Scaled(r, exp) == Magnitude(b)
  {
    if IsNan(b) {
      return Quieted(b), 0;
    }
    if IsInf(b) || IsZero(b) {
      return b, 0;
    }
    var mant, expUnbiased := Normalise(b);
    FractionRange(Negative(b), mant);
    r := Pack(Negative(b), 1022, mant % IMPLICIT);
    exp := expUnbiased + 1;
    ScaledDyadic(r, exp, mant, -53);
  }

  lemma FractionRange(neg: bool, mant: nat)
    requires IMPLICIT <= mant < 2 * IMPLICIT
    ensures var r := Pack(neg, 1022, mant % IMPLICIT);
            && IsFinite(r) && !IsZero(r) && Negative(r) == neg
            && Magnitude(r) == Dyadic(mant, -53) && 0.5 <= Magnitude(r) < 1.0
  {
    FormatConstants();
    var c := mant + 1021 * IMPLICIT;
    DecodeGrid(F64, mant, 1021, c);
    Pow2Table();
    DyadicShift(1, -53, 52);
    DyadicShift(1, -53, 53);
    DyadicDef(1, 0);
    DyadicDef(1, -1);
    TwoZero();
    TwoStep(-1);
    if IMPLICIT < mant {
      DyadicMono(IMPLICIT, mant, -53);
    }
    DyadicMono(mant, 2 * IMPLICIT, -53);
  }

  /** Taking a finite number apart and putting it together again returns it, bit for bit. */
  method Reassemble(b: u64) returns (r: u64)
    requires IsFinite(b)
    ensures r == b
  {
    var f, exp := Frexp(b);
    r := Ldexp(f, exp);
    if !IsZero(b) {
      RoundOfCode(RNE, b);
      FiniteCodes(b);
      DecodeNonNegative(F64, Code(b));
    }
  }
}
