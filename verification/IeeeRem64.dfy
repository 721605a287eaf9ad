/** `sf64_remainder` of src/sleef/sleef_inv_hyp_pow.cpp: the nearest remainder from the truncating one, with the
    tie decided by the parity of a floating-point quotient. */
module IeeeRem64 {
  import opened Powers
  import opened Shifts
  import opened Rounding
  import opened ExactResults
  import opened Integers
  import opened Remainders
  import opened Words
  import opened Binary64
  import opened Fenv
  import opened Pack64
  import opened Arithmetic64
  import opened Convert64
  import opened Round64
  import opened Rem64
  import opened Rne64

  const HALF: u64 := 0x3FE0_0000_0000_0000

  // ----- exact sums -----

  /** A nonzero representable sum is returned as it is. */
  lemma ExactSum(a: u64, b: u64, neg: bool, c: nat)
    requires IsFinite(a) && IsFinite(b) && 0 < c < 0x7FF0_0000_0000_0000
    requires Value(a) + Value(b) == if neg then -Decode(F64, c) else Decode(F64, c)
    ensures Sum(RNE, a, b) == Outcome(Bits(neg, c), {})
  {
    var v := Value(a) + Value(b);
    FormatConstants();
    DecodeNonNegative(F64, c);
    assert (v < 0.0 <==> neg) && v != 0.0 && Abs(v) == Decode(F64, c);
    RoundExact(F64, RNE, neg, Num(Decode(F64, c)), c);
    InRange(RNE, neg, Num(Decode(F64, c)), c);
    assert Sum(RNE, a, b) == RoundReal(RNE, v, if Negative(a) == Negative(b) then Negative(a) else false);
  }

  /** A zero sum of opposite operands is positive. */
  lemma ZeroSum(a: u64, b: u64)
    requires IsFinite(a) && IsFinite(b) && Value(a) + Value(b) == 0.0 && Negative(a) != Negative(b)
    ensures Sum(RNE, a, b) == Outcome(SignedZero(false), {})
  {
  }

  // ----- comparing twice the remainder with the divisor -----

  /** Twice a number is a number, with no smaller quantum. */
  lemma TwiceCode(c: nat) returns (twice: nat)
    ensures Decode(F64, twice) == 2.0 * Decode(F64, c)
    ensures Decode(F64, twice + 1) - Decode(F64, twice) >= Decode(F64, c + 1) - Decode(F64, c)
  {
    var v, n, q := DecodeExists(F64, c);
    DecodeGap(F64, c, n, q);
    var e := F64.e0 + q;
    DyadicTwice(n, e);
    DyadicAdd(n, n, e);
    twice := ExactCode(F64, n, e + 1);
    DecodeNonNegative(F64, c);
    CodeOrder(twice, c);
    var w, m, p := DecodeExists(F64, twice);
    DecodeGap(F64, twice, m, p);
    QuantumOrder(F64, twice, m, p, c, n, q);
    DyadicUnits(e, p - q);
  }

  /** More than twice a code is at least one quantum more than twice it. */
  lemma BeyondTwice(cr: nat, cy: nat)
    requires Decode(F64, cy) > 2.0 * Decode(F64, cr)
    ensures Decode(F64, cy) - Decode(F64, cr) >= Decode(F64, cr + 1)
  {
    var twice := TwiceCode(cr);
    CodeOrder(twice, cy);
    CodeOrder(cy, twice + 1);
  }

  /** Comparing a remainder with the rounded rest of the divisor tells on which side of one half it is. */
  lemma HalfTest(cr: nat, cy: nat) returns (d: nat)
    requires Decode(F64, cr) < Decode(F64, cy)
    ensures d == RoundCode(F64, RNE, false, Num(Decode(F64, cy) - Decode(F64, cr))) && d <= cy
    ensures 2.0 * Decode(F64, cr) > Decode(F64, cy) <==> cr > d
    ensures 2.0 * Decode(F64, cr) == Decode(F64, cy) <==> cr == d
    ensures cr >= d ==> Decode(F64, d) == Decode(F64, cy) - Decode(F64, cr) > 0.0
  {
    var rest := Decode(F64, cy) - Decode(F64, cr);
    DecodeNonNegative(F64, cr);
    d := RoundCode(F64, RNE, false, Num(rest));
    RoundAtMost(F64, RNE, false, Num(rest), cy);
    if 2.0 * Decode(F64, cr) >= Decode(F64, cy) {
      var c := Sterbenz(F64, cy, cr);
      RoundExact(F64, RNE, false, Num(rest), c);
      CodeOrder(c, cr);
      CodeOrder(cr, c);
    } else {
      BeyondTwice(cr, cy);
      RoundAtLeast(F64, RNE, false, Num(rest), cr + 1);
    }
  }

  /** The subtraction the source compares against. */
  method RestOfDivisor(absy: u64, absr: u64, fe: FeAcc) returns (d: u64)
    requires IsFinite(absy) && IsFinite(absr) && !Negative(absy) && !Negative(absr) && Magnitude(absr) < Magnitude(absy)
    modifies fe
    ensures IsFinite(d) && !Negative(d)
    ensures 2.0 * Magnitude(absr) > Magnitude(absy) <==> Code(absr) > Code(d)
    ensures 2.0 * Magnitude(absr) == Magnitude(absy) <==> Code(absr) == Code(d)
    ensures Code(absr) >= Code(d) ==> Magnitude(d) == Magnitude(absy) - Magnitude(absr) > 0.0
  {
    ghost var c := HalfTest(Code(absr), Code(absy));
    NegatedValue(absr);
    d := SubRne(absy, absr, fe);
    FormatConstants();
    FiniteCodes(absy);
    InRange(RNE, false, Num(Magnitude(absy) - Magnitude(absr)), c);
    FiniteCodes(d);
  }

  // ----- the parity of the quotient -----

  /** A positive number is an odd number times a power of two. */
  lemma {:induction false} OddPart(m: nat) returns (o: nat, j: nat)
    requires m > 0
    ensures o % 2 == 1 && m == o * Pow2(j)
  {
    if m % 2 == 1 {
      Pow2Zero();
      o, j := m, 0;
    } else {
      var h, i := OddPart(m / 2);
      Pow2Step(i);
      Expand(h, Pow2(i));
      o, j := h, i + 1;
    }
  }

  /** An odd significand is the shortest. */
  lemma OddBound(p: nat, t: int, m: nat, e: int)
    requires p % 2 == 1 && Dyadic(p, t) == Dyadic(m, e)
    ensures p <= m
  {
    if e <= t {
      DyadicShift(p, e, t - e);
      MulMono(1, Pow2(t - e), p);
      if m < p * Pow2(t - e) {
        DyadicMono(m, p * Pow2(t - e), e);
      }
    } else {
      DyadicShift(m, t, e - t);
      Pow2Step(e - t - 1);
      var g := m * Pow2(e - t - 1);
      Expand(m, Pow2(e - t - 1));
      assert m * Pow2(e - t) == 2 * g;
      if p < 2 * g {
        DyadicMono(p, 2 * g, t);
      } else if p > 2 * g {
        DyadicMono(2 * g, p, t);
      }
    }
  }

  /** On a tie the dividend is an odd multiple of the remainder; so both the multiple of the divisor and the
      quotient itself are short enough to be exact. */
  lemma TieIsShort(cx: nat, cy: nat, cr: nat, n: nat) returns (c: nat)
    requires Decode(F64, cx) == Decode(F64, cr) + n as real * Decode(F64, cy)
    requires 2.0 * Decode(F64, cr) == Decode(F64, cy) > 0.0
    ensures Decode(F64, c) == n as real * Decode(F64, cy) && c <= cx && n < 2 * IMPLICIT
  {
    FormatConstants();
    var r, m, q := DecodeExists(F64, cr);
    var x, mx, qx := DecodeExists(F64, cx);
    DyadicPositive(m, F64.e0 + q);
    if m == 0 {
      DyadicZero(F64.e0 + q);
    }
    var o, j := OddPart(m);
    var t := F64.e0 + q + j;
    DyadicShift(o, F64.e0 + q, j);
    DyadicTimes(2 * n, o, t);
    DyadicAdd(2 * n * o, o, t);
    OddProduct(n, o);
    TwiceOver(n, Decode(F64, cr));
    OddBound(2 * n * o + o, t, mx, F64.e0 + qx);
    c := ExactCode(F64, 2 * n * o, t);
    DecodeNonNegative(F64, cr);
    CodeOrder(cx, c);
  }

  lemma OddProduct(n: nat, o: nat)
    requires o % 2 == 1
    ensures (2 * n * o + o) % 2 == 1 && n < 2 * n * o + o && 0 <= 2 * n * o < 2 * n * o + o
  {
    MulMono(1, o, 2 * n);
    var k := n * o;
    assert 2 * n * o == 2 * k by { Assoc(2, n, o); }
  }

  lemma TwiceOver(n: nat, r: real)
    ensures n as real * (2.0 * r) == (2 * n) as real * r
  {
    RealAssoc(n as real, 2.0, r);
  }

  /** `x` is finite and an odd integer. */
  ghost predicate IsOdd(x: u64) {
    IsFinite(x) && Magnitude(x).Floor as real == Magnitude(x) && Magnitude(x).Floor % 2 == 1
  }

  /** `is_odd_int`. */
  method IsOddInt(x: u64, fe: FeAcc) returns (odd: bool)
    modifies fe
    ensures odd <==> IsOdd(x)
  {
    FractionPart(x);
    var fraction := SubRne(x, TruncBits(x), fe);
    if !IsZero(fraction) {
      return false;
    }
    DecodeNonNegative(F64, Code(x));
    ghost var n: nat := Magnitude(x).Floor;
    HalfProduct(x, n);
    var half := MulRne(x, HALF, fe);
    HalfFraction(half, n);
    var rest := SubRne(half, TruncBits(half), fe);
    odd := !IsZero(rest);
  }

  /** The difference from the truncation vanishes exactly for integers. */
  lemma FractionPart(x: u64)
    ensures IsZero(Sum(RNE, x, Negated(TruncBits(x))).bits)
       <==> IsFinite(x) && Magnitude(x).Floor as real == Magnitude(x)
  {
    var t := TruncBits(x);
    NegatedValue(t);
    if IsFinite(x) {
      DecodeNonNegative(F64, Code(x));
      RintCorrect(RTZ, x);
      if Magnitude(x).Floor as real == Magnitude(x) {
        IntegerTrunc(x, Magnitude(x).Floor);
        ZeroSum(x, Negated(t));
        One(false);
      } else {
        NonzeroDifference(x, t);
      }
    }
  }

  /** Different numbers have a difference that does not round to zero. */
  lemma NonzeroDifference(a: u64, b: u64)
    requires IsFinite(a) && IsFinite(b) && Negative(a) == Negative(b) && Magnitude(a) != Magnitude(b)
    ensures !IsZero(Sum(RNE, a, Negated(b)).bits)
  {
    NegatedValue(b);
    var v := Value(a) - Value(b);
    var k := QuantumMultiple(F64, Code(a), Code(b), 1);
    DyadicZero(-1074);
    DyadicPositive(k, -1074);
    DyadicPositive(-k, -1074);
    AtLeastQuantum(Abs(v), if k < 0 then -k else k);
    RoundAtLeast(F64, RNE, v < 0.0, Num(Abs(v)), 1);
    FormatConstants();
    RoundSignedIs(RNE, v < 0.0, Num(Abs(v)), RoundCode(F64, RNE, v < 0.0, Num(Abs(v))));
  }

  lemma AtLeastQuantum(v: real, k: nat)
    requires v == Dyadic(k, -1074) && v != 0.0
    ensures Decode(F64, 1) <= v
  {
    FormatConstants();
    DyadicZero(-1074);
    DecodeGrid(F64, 1, 0, 1);
    if k > 1 {
      DyadicMono(1, k, -1074);
    }
  }

  /** An integer is its own truncation. */
  lemma IntegerTrunc(x: u64, n: nat)
    requires IsFinite(x) && Magnitude(x) == n as real
    ensures TruncBits(x) == x
  {
    IntegerBelow(x, n);
    RintCorrect(RTZ, x);
    RoundIntExact(RTZ, Negative(x), n);
    SameMagnitude(Code(TruncBits(x)), Code(x));
  }

  lemma IntegerBelow(x: u64, n: nat)
    requires IsFinite(x) && Magnitude(x) == n as real
    ensures n < Pow2(300000)
  {
    FiniteBelow(x);
    TwoNat(1024);
    Pow2Mono(1024, 300000);
  }

  /** Halving an integer is exact. */
  lemma HalfProduct(x: u64, n: nat)
    requires IsFinite(x) && Magnitude(x) == n as real
    ensures var o := Product(RNE, x, HALF);
            && IsFinite(o.bits) && Negative(o.bits) == Negative(x)
            && 2.0 * Magnitude(o.bits) == n as real
  {
    FormatConstants();
    FiniteCodes(x);
    One(false);
    HalfValue();
    ProductOfMagnitudes(RNE, x, HALF);
    if n == 0 {
      One(Negative(x));
    } else {
      var c := HalfCode(x, n);
      Halved(Magnitude(x));
      RoundExact(F64, RNE, Negative(x), Num(Magnitude(x) * Magnitude(HALF)), c);
      InRange(RNE, Negative(x), Num(Magnitude(x) * Magnitude(HALF)), c);
      FiniteCodes(Bits(Negative(x), c));
    }
  }

  lemma Halved(v: real)
    ensures 2.0 * (v * 0.5) == v
  {
  }

  lemma HalfValue()
    ensures IsFinite(HALF) && !Negative(HALF) && !IsZero(HALF) && Magnitude(HALF) == 0.5 && Code(HALF) == HALF
  {
    FormatConstants();
    Pow2Table();
    DecodeGrid(F64, IMPLICIT, 1021, HALF);
    DyadicShift(1, -53, 52);
    DyadicTwice(1, -1);
    Units(1);
    DyadicAdd(1, 1, -1);
  }

  lemma HalfCode(x: u64, n: nat) returns (c: nat)
    requires IsFinite(x) && Magnitude(x) == n as real && n > 0
    ensures 2.0 * Decode(F64, c) == Magnitude(x) && c < 0x7FF0_0000_0000_0000
  {
    FormatConstants();
    FiniteCodes(x);
    var v, m, q := DecodeExists(F64, Code(x));
    if q == 0 {
      SubnormalBelowOne(m);
    }
    var e := F64.e0 + q - 1;
    c := ExactCode(F64, m, e);
    DyadicTwice(m, e);
    DyadicAdd(m, m, e);
    DecodeNonNegative(F64, c);
    CodeOrder(Code(x), c);
  }

  lemma SubnormalBelowOne(m: nat)
    requires m < 2 * IMPLICIT
    ensures Dyadic(m, -1074) < 1.0
  {
    Pow2Table();
    DyadicMono(m, 2 * IMPLICIT, -1074);
    DyadicShift(1, -1074, 53);
    DyadicShift(1, -1074, 1074);
    Pow2Mono(53, 1074);
    DyadicMono(2 * IMPLICIT, Pow2(1074), -1074);
    Units(1);
  }

  /** The fraction of half an integer is zero or one half. */
  lemma HalfFraction(half: u64, n: nat)
    requires IsFinite(half) && 2.0 * Magnitude(half) == n as real
    ensures IsZero(Sum(RNE, half, Negated(TruncBits(half))).bits) <==> n % 2 == 0
  {
    var t := TruncBits(half);
    RintCorrect(RTZ, half);
    HalfBelow(half, n);
    RoundIntMeans(RTZ, Negative(half), Magnitude(half));
    var k := RoundInt(RTZ, Negative(half), Magnitude(half));
    assert k == n / 2;
    NegatedValue(t);
    if n % 2 == 0 {
      ZeroSum(half, Negated(t));
      One(false);
    } else {
      HalfValue();
      ExactSum(half, Negated(t), Negative(half), HALF);
    }
  }

  lemma HalfBelow(half: u64, n: nat)
    requires IsFinite(half) && 2.0 * Magnitude(half) == n as real
    ensures 0.0 <= Magnitude(half) < Pow2(300000) as real
  {
    DecodeNonNegative(F64, Code(half));
    FiniteBelow(half);
    TwoNat(1024);
    Pow2Mono(1024, 300000);
  }

  // ----- the remainder -----

  /** The exact nearest remainder, a zero with the sign of the dividend. */
  ghost predicate IsRemainder(x: u64, y: u64, r: u64) {
    && IsFinite(r) && NearestRemainder(Value(x), Value(y), Value(r))
    && (Magnitude(r) == 0.0 ==> Negative(r) == Negative(x))
  }

  /** The truncating remainder in terms of magnitudes. */
  lemma TruncatedQuotient(x: u64, y: u64, r: u64) returns (n: nat)
    requires IsRem(x, y, r) && Magnitude(y) > 0.0
    ensures Magnitude(x) == Magnitude(r) + n as real * Magnitude(y) && Magnitude(r) < Magnitude(y)
  {
    DecodeNonNegative(F64, Code(r));
    DecodeNonNegative(F64, Code(x));
    var k: int :| Multiple(Value(x), Value(y), Value(r), k);
    SignedMultiple(Negative(x), Value(x), Negative(y), Value(y), Value(r), k);
    var q := if Negative(x) == Negative(y) then k else -k;
    if q < 0 {
      RealMono(q as real, 0.0, Magnitude(y));
      NegativeMultiple(q, Magnitude(y));
    }
    n := q;
  }

  lemma NegativeMultiple(q: int, y: real)
    requires q < 0 && y > 0.0
    ensures q as real * y < 0.0
  {
    RealMono(q as real, 0.0, y);
  }

  /** One divisor less, on the other side of zero. */
  method OneLess(r0: u64, absy: u64, fe: FeAcc, ghost d: nat) returns (r: u64)
    requires IsFinite(r0) && IsFinite(absy) && !Negative(absy) && 0 < d < 0x7FF0_0000_0000_0000
    requires Decode(F64, d) == Magnitude(absy) - Magnitude(r0)
    modifies fe
    ensures IsFinite(r) && Negative(r) == !Negative(r0) && Magnitude(r) == Magnitude(absy) - Magnitude(r0)
  {
    FormatConstants();
    FiniteCodes(Bits(!Negative(r0), d));
    if Negative(r0) {
      ExactSum(r0, absy, false, d);
      r := AddRne(r0, absy, fe);
    } else {
      NegatedValue(absy);
      ExactSum(r0, Negated(absy), true, d);
      r := SubRne(r0, absy, fe);
    }
  }

  /** The floating-point quotient of a tie is the integer quotient. */
  method TieQuotient(x: u64, y: u64, r: u64, fe: FeAcc, ghost n: nat) returns (q: u64)
    requires IsFinite(x) && IsFinite(y) && IsFinite(r) && Negative(r) == Negative(x)
    requires Magnitude(x) == Magnitude(r) + n as real * Magnitude(y) && 2.0 * Magnitude(r) == Magnitude(y) > 0.0
    modifies fe
    ensures IsFinite(q) && Magnitude(q) == n as real
  {
    ghost var c := TieIsShort(Code(x), Code(y), Code(r), n);
    MultipleBits(x, r, c);
    var multiple := SubRne(x, r, fe);
    FiniteCodes(y);
    ExactQuotient(multiple, y, n);
    q := DivRne(multiple, y, fe);
  }

  lemma MultipleBits(x: u64, r: u64, c: nat)
    requires IsFinite(x) && IsFinite(r) && Negative(r) == Negative(x) && c <= Code(x)
    requires Decode(F64, c) == Magnitude(x) - Magnitude(r)
    ensures var m := Sum(RNE, x, Negated(r)).bits;
            IsFinite(m) && Magnitude(m) == Decode(F64, c)
  {
    FormatConstants();
    FiniteCodes(x);
    NegatedValue(r);
    DecodeNonNegative(F64, c);
    DecodeZero(F64);
    if c == 0 {
      ZeroSum(x, Negated(r));
      One(false);
    } else {
      ExactSum(x, Negated(r), Negative(x), c);
      FiniteCodes(Bits(Negative(x), c));
    }
  }

  lemma ExactQuotient(m: u64, y: u64, n: nat)
    requires IsFinite(m) && IsFinite(y) && !IsZero(y) && n < 2 * IMPLICIT
    requires Magnitude(m) == n as real * Magnitude(y)
    ensures var q := Quotient(RNE, m, y).bits;
            IsFinite(q) && Magnitude(q) == n as real
  {
    FormatConstants();
    ExactRatio(m, y, n);
    QuotientOfMagnitudes(RNE, m, y);
    var neg := Negative(m) != Negative(y);
    if n == 0 {
      One(neg);
    } else {
      var c := SmallCode(n);
      RoundExact(F64, RNE, neg, Num(n as real), c);
      RoundOfInteger(neg, n, c);
    }
  }

  lemma ExactRatio(m: u64, y: u64, n: nat)
    requires IsFinite(m) && IsFinite(y) && !IsZero(y) && Magnitude(m) == n as real * Magnitude(y)
    ensures Magnitude(y) > 0.0 && Magnitude(m) / Magnitude(y) == n as real && (IsZero(m) <==> n == 0)
  {
    FiniteCodes(m);
    FiniteCodes(y);
    DecodeNonNegative(F64, Code(y));
    RatioUnique(Magnitude(m), Magnitude(y), n as real);
    if n != 0 {
      NonzeroMultiple(n, Magnitude(y));
    }
  }

  lemma NonzeroMultiple(n: nat, y: real)
    requires n > 0 && y > 0.0
    ensures n as real * y > 0.0
  {
    RealMono(0.0, n as real, y);
  }

  lemma RoundOfInteger(neg: bool, n: nat, c: nat)
    requires 0 < n && Decode(F64, c) == n as real && c < 0x7FF0_0000_0000_0000
    requires RoundCode(F64, RNE, neg, Num(n as real)) == c
    ensures var q := RoundSigned(RNE, neg, Num(n as real)).bits;
            IsFinite(q) && Magnitude(q) == n as real
  {
    FormatConstants();
    RoundSignedIs(RNE, neg, Num(n as real), c);
    FiniteCodes(Bits(neg, c));
  }

  /** `remainder_impl`: section 5.3.1 of IEEE 754-2008, exact and without flags on finite operands. */
  method Remainder(x: u64, y: u64) returns (r: u64, flags: set<Flag>)
    ensures if IsFinite(x) && IsFinite(y) && !IsZero(y) then IsRemainder(x, y, r) && flags == {}
            else Outcome(r, flags) == SpecialRem(x, y, CANONICAL_NAN)
  {
    if IsNan(x) || IsNan(y) {
      return CANONICAL_NAN, if IsSnan(x) || IsSnan(y) then {Invalid} else {};
    }
    if IsInf(x) || IsZero(y) {
      return CANONICAL_NAN, {Invalid};
    }
    if IsInf(y) {
      return x, {};
    }
    var truncated, none := Fmod(x, y);
    FiniteCodes(y);
    DecodeNonNegative(F64, Code(y));
    ghost var n := TruncatedQuotient(x, y, truncated);
    r := Nearest(x, y, truncated, n);
    flags := {};
  }

  method Nearest(x: u64, y: u64, r0: u64, ghost n: nat) returns (r: u64)
    requires IsFinite(x) && IsFinite(y) && !IsZero(y) && Magnitude(y) > 0.0
    requires IsFinite(r0) && Negative(r0) == Negative(x)
    requires Magnitude(x) == Magnitude(r0) + n as real * Magnitude(y) && Magnitude(r0) < Magnitude(y)
    ensures IsRemainder(x, y, r)
  {
    var fe := new FeAcc();
    var absy, absr := AbsBits(y), AbsBits(r0);
    AbsFinite(y);
    AbsFinite(r0);
    var d := RestOfDivisor(absy, absr, fe);
    r := r0;
    if Code(absr) > Code(d) {
      r := OneLessFinite(r0, absy, d, fe);
      CorrectedNearest(x, y, r0, r, n);
    } else if Code(absr) == Code(d) {
      var q := TieQuotient(x, y, r0, fe, n);
      var odd := IsOddInt(q, fe);
      if odd {
        r := OneLessFinite(r0, absy, d, fe);
        CorrectedNearest(x, y, r0, r, n);
      } else {
        KeptNearest(x, y, r0, n);
      }
    } else {
      KeptNearest(x, y, r0, n);
    }
  }

  lemma AbsFinite(b: u64)
    requires IsFinite(b)
    ensures IsFinite(AbsBits(b)) && Magnitude(AbsBits(b)) == Magnitude(b)
  {
    FormatConstants();
    FiniteCodes(b);
    FiniteCodes(AbsBits(b));
  }

  method OneLessFinite(r0: u64, absy: u64, d: u64, fe: FeAcc) returns (r: u64)
    requires IsFinite(r0) && IsFinite(absy) && !Negative(absy) && IsFinite(d)
    requires Magnitude(d) == Magnitude(absy) - Magnitude(r0) > 0.0
    modifies fe
    ensures IsFinite(r) && Negative(r) == !Negative(r0) && Magnitude(r) == Magnitude(absy) - Magnitude(r0)
  {
    FormatConstants();
    FiniteCodes(d);
    r := OneLess(r0, absy, fe, Code(d));
  }

  /** No correction: at most half of the divisor, an even quotient on a tie. */
  lemma KeptNearest(x: u64, y: u64, r: u64, n: nat)
    requires IsFinite(r) && Negative(r) == Negative(x) && Magnitude(y) > 0.0
    requires Magnitude(x) == Magnitude(r) + n as real * Magnitude(y)
    requires 2.0 * Magnitude(r) <= Magnitude(y) && (2.0 * Magnitude(r) == Magnitude(y) ==> n % 2 == 0)
    ensures IsRemainder(x, y, r)
  {
    DecodeNonNegative(F64, Code(r));
    SignedNearest(Negative(x), Magnitude(x), Negative(y), Magnitude(y), Magnitude(r), n);
  }

  /** One divisor less: at least half of the divisor, an odd truncated quotient on a tie. */
  lemma CorrectedNearest(x: u64, y: u64, r0: u64, r: u64, n: nat)
    requires IsFinite(r) && Negative(r) == !Negative(x)
    requires Magnitude(x) == Magnitude(r0) + n as real * Magnitude(y)
    requires Magnitude(r) == Magnitude(y) - Magnitude(r0) > 0.0
    requires 2.0 * Magnitude(r0) >= Magnitude(y) > 0.0 && (2.0 * Magnitude(r0) == Magnitude(y) ==> n % 2 == 1)
    ensures IsRemainder(x, y, r)
  {
    RealDistribute(n as real, 1.0, Magnitude(y));
    SignedNearest(Negative(x), Magnitude(x), Negative(y), Magnitude(y), Magnitude(r0) - Magnitude(y), n + 1);
  }
}
