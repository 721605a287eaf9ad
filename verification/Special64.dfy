/** What the binary64 operations deliver for NaNs, infinities and zeros, in terms of the fields of the encodings:
    sections 6.1, 6.2, 7.2 and 7.3 of IEEE 754-2008. */
module Special64 {
  import opened Rounding
  import opened Words
  import opened Binary64
  import opened Sqrt64
  import opened Fma64
  import opened Rem64
  import opened Meaning64

  // ----- classes by fields -----

  /** A NaN with the top fraction bit set. */
  predicate QuietNan(r: u64) {
    ExtractExp(r) == 2047 && ExtractFrac(r) >= IMPLICIT / 2
  }

  /** The NaN of an invalid operation: positive, with no other fraction bit. */
  predicate DefaultNan(r: u64) {
    r < SIGN && ExtractExp(r) == 2047 && ExtractFrac(r) == IMPLICIT / 2
  }

  /** The NaN `a`, made quiet. */
  predicate SameNan(r: u64, a: u64) {
    && QuietNan(r) && ExtractSign(r) == ExtractSign(a)
    && ExtractFrac(r) % (IMPLICIT / 2) == ExtractFrac(a) % (IMPLICIT / 2)
  }

  predicate Infinite(r: u64, neg: bool) {
    ExtractExp(r) == 2047 && ExtractFrac(r) == 0 && ExtractSign(r) == if neg then 1 else 0
  }

  predicate ZeroOf(r: u64, neg: bool) {
    ExtractExp(r) == 0 && ExtractFrac(r) == 0 && ExtractSign(r) == if neg then 1 else 0
  }

  lemma Signaling(b: u64)
    ensures IsSnan(b) <==> ExtractExp(b) == 2047 && 0 < ExtractFrac(b) < IMPLICIT / 2
  {
  }

  lemma QuietedFields(b: u64)
    requires IsNan(b)
    ensures SameNan(Quieted(b), b)
  {
    Signaling(b);
    if IsSnan(b) {
      SetTop(b, Quieted(b));
    }
  }

  lemma SetTop(b: u64, r: u64)
    requires IsSnan(b) && r == b + IMPLICIT / 2
    ensures ExtractFrac(r) == ExtractFrac(b) + IMPLICIT / 2
    ensures ExtractExp(r) == ExtractExp(b) && ExtractSign(r) == ExtractSign(b)
  {
    Signaling(b);
  }

  /** The first NaN operand comes back quiet. */
  lemma PropagatedNan(a: u64, b: u64)
    requires IsNan(a) || IsNan(b)
    ensures SameNan(PropagateNan(a, b), if IsNan(a) then a else b) && IsNan(PropagateNan(a, b))
  {
    QuietedFields(if IsNan(a) then a else b);
  }

  /** The classes exclude each other. */
  lemma Classes(b: u64)
    ensures IsZero(b) ==> IsFinite(b)
    ensures IsInf(b) ==> !IsZero(b) && !IsNan(b) && !IsFinite(b)
    ensures IsNan(b) ==> !IsZero(b) && !IsFinite(b)
    ensures IsNan(b) || IsInf(b) || IsFinite(b)
  {
  }

  lemma Fixed()
    ensures DefaultNan(CANONICAL_NAN)
    ensures Infinite(SignedInf(false), false) && Infinite(SignedInf(true), true)
    ensures ZeroOf(SignedZero(false), false) && ZeroOf(SignedZero(true), true)
  {
  }

  /** Results that come from the table of special operands: no flag but INVALID, and that exactly if `invalid`. */
  predicate Settled(o: Outcome, invalid: bool) {
    o.flags == if invalid then {Invalid} else {}
  }

  // ----- addition and subtraction -----

  ghost predicate SumRule(a: u64, aNeg: bool, b: u64, bNeg: bool, o: Outcome) {
    var clash := IsInf(a) && IsInf(b) && aNeg != bNeg;
    && (IsNan(o.bits) <==> IsNan(a) || IsNan(b) || clash)
    && (clash ==> DefaultNan(o.bits))
    && (IsNan(o.bits) ==> Settled(o, IsSnan(a) || IsSnan(b) || clash))
    && (!IsNan(o.bits) && IsInf(a) ==> Infinite(o.bits, aNeg) && Settled(o, false))
    && (!IsNan(o.bits) && IsInf(b) ==> Infinite(o.bits, bNeg) && Settled(o, false))
    && (IsFinite(a) && IsFinite(b) ==>
          o.flags <= {Overflow, Underflow, Inexact} && (IsInf(o.bits) ==> Overflow in o.flags))
  }

  /** Section 6.3 of IEEE 754-2008: the sign of an exact zero sum. */
  predicate ZeroSum(mode: Mode, aNeg: bool, bNeg: bool) {
    if aNeg == bNeg then aNeg else mode == RDN
  }

  lemma SumSpecial(mode: Mode, a: u64, b: u64)
    ensures SumRule(a, Negative(a), b, Negative(b), Sum(mode, a, b))
    ensures IsFinite(a) && IsFinite(b) && Value(a) + Value(b) == 0.0 ==>
              ZeroOf(Sum(mode, a, b).bits, ZeroSum(mode, Negative(a), Negative(b))) && Settled(Sum(mode, a, b), false)
    ensures IsNan(a) || IsNan(b) ==> SameNan(Sum(mode, a, b).bits, if IsNan(a) then a else b)
  {
    Fixed();
    if IsNan(a) || IsNan(b) {
      PropagatedNan(a, b);
    } else if IsFinite(a) && IsFinite(b) {
      DeliveryMeaning(mode, Value(a) + Value(b), ZeroSum(mode, Negative(a), Negative(b)));
    }
  }

  lemma SubtractionSpecial(mode: Mode, a: u64, b: u64)
    ensures SumRule(a, Negative(a), b, !Negative(b), Subtraction(mode, a, b))
    ensures IsFinite(a) && IsFinite(b) && Value(a) - Value(b) == 0.0 ==>
              && ZeroOf(Subtraction(mode, a, b).bits, ZeroSum(mode, Negative(a), !Negative(b)))
              && Settled(Subtraction(mode, a, b), false)
    ensures IsNan(a) || IsNan(b) ==> SameNan(Subtraction(mode, a, b).bits, if IsNan(a) then a else Negated(b))
  {
    SubtractionIsSum(mode, a, b);
    NegatedValue(b);
    SumSpecial(mode, a, Negated(b));
  }

  // ----- multiplication and division -----

  lemma ProductSpecial(mode: Mode, a: u64, b: u64)
    ensures var o, neg := Product(mode, a, b), Negative(a) != Negative(b);
            var clash := (IsInf(a) && IsZero(b)) || (IsZero(a) && IsInf(b));
            && (IsNan(o.bits) <==> IsNan(a) || IsNan(b) || clash)
            && (clash ==> DefaultNan(o.bits))
            && (IsNan(o.bits) ==> Settled(o, IsSnan(a) || IsSnan(b) || clash))
            && (!IsNan(o.bits) && (IsInf(a) || IsInf(b)) ==> Infinite(o.bits, neg) && Settled(o, false))
            && (!IsNan(o.bits) && (IsZero(a) || IsZero(b)) ==> ZeroOf(o.bits, neg) && Settled(o, false))
            && (IsFinite(a) && IsFinite(b) ==>
                  o.flags <= {Overflow, Underflow, Inexact} && (IsInf(o.bits) ==> Overflow in o.flags))
    ensures IsNan(a) || IsNan(b) ==> SameNan(Product(mode, a, b).bits, if IsNan(a) then a else b)
  {
    Classes(a);
    Classes(b);
    Classes(Product(mode, a, b).bits);
    if IsNan(a) || IsNan(b) {
      PropagatedNan(a, b);
    } else if IsFinite(a) && IsFinite(b) {
      FiniteProduct(mode, a, b);
    } else {
      Fixed();
    }
  }

  lemma FiniteProduct(mode: Mode, a: u64, b: u64)
    requires IsFinite(a) && IsFinite(b)
    ensures var o := Product(mode, a, b);
            && !IsNan(o.bits) && o.flags <= {Overflow, Underflow, Inexact} && (IsInf(o.bits) ==> Overflow in o.flags)
            && (IsZero(a) || IsZero(b) ==> ZeroOf(o.bits, Negative(a) != Negative(b)) && o.flags == {})
  {
    FiniteCodes(a);
    FiniteCodes(b);
    DeliveryMeaning(mode, Value(a) * Value(b), Negative(a) != Negative(b));
  }

  lemma QuotientSpecial(mode: Mode, a: u64, b: u64)
    ensures var o, neg := Quotient(mode, a, b), Negative(a) != Negative(b);
            var clash := (IsInf(a) && IsInf(b)) || (IsZero(a) && IsZero(b));
            && (IsNan(o.bits) <==> IsNan(a) || IsNan(b) || clash)
            && (clash ==> DefaultNan(o.bits))
            && (IsNan(o.bits) ==> Settled(o, IsSnan(a) || IsSnan(b) || clash))
            && (DivByZero in o.flags <==> IsFinite(a) && !IsZero(a) && IsZero(b))
            && (DivByZero in o.flags ==> Infinite(o.bits, neg) && o.flags == {DivByZero})
            && (IsInf(a) && IsFinite(b) ==> Infinite(o.bits, neg) && Settled(o, false))
            && (IsFinite(a) && IsInf(b) ==> ZeroOf(o.bits, neg) && Settled(o, false))
            && (IsZero(a) && IsFinite(b) && !IsZero(b) ==> ZeroOf(o.bits, neg) && Settled(o, false))
            && (IsFinite(a) && IsFinite(b) && !IsZero(b) ==>
                  o.flags <= {Overflow, Underflow, Inexact} && (IsInf(o.bits) ==> Overflow in o.flags))
    ensures IsNan(a) || IsNan(b) ==> SameNan(Quotient(mode, a, b).bits, if IsNan(a) then a else b)
  {
    Classes(a);
    Classes(b);
    Classes(Quotient(mode, a, b).bits);
    if IsNan(a) || IsNan(b) {
      PropagatedNan(a, b);
    } else if IsFinite(a) && IsFinite(b) && !IsZero(b) {
      FiniteQuotient(mode, a, b);
    } else {
      Fixed();
    }
  }

  lemma FiniteQuotient(mode: Mode, a: u64, b: u64)
    requires IsFinite(a) && IsFinite(b) && !IsZero(b)
    ensures var o := Quotient(mode, a, b);
            && !IsNan(o.bits) && o.flags <= {Overflow, Underflow, Inexact} && (IsInf(o.bits) ==> Overflow in o.flags)
            && (IsZero(a) ==> ZeroOf(o.bits, Negative(a) != Negative(b)) && o.flags == {})
  {
    FiniteCodes(a);
    FiniteCodes(b);
    DeliveryMeaning(mode, Value(a) / Value(b), Negative(a) != Negative(b));
  }

  // ----- square root -----

  lemma RootSpecial(mode: Mode, a: u64)
    ensures var o := SquareRoot(mode, a);
            var below := Negative(a) && !IsZero(a) && !IsNan(a);
            && (IsNan(o.bits) <==> IsNan(a) || below)
            && (Invalid in o.flags <==> IsSnan(a) || below)
            && (below ==> DefaultNan(o.bits))
            && (IsNan(o.bits) ==> Settled(o, IsSnan(a) || below))
            && (IsNan(a) ==> SameNan(o.bits, a))
            && (IsZero(a) ==> ZeroOf(o.bits, Negative(a)) && Settled(o, false))
            && (IsInf(a) && !Negative(a) ==> Infinite(o.bits, false) && Settled(o, false))
            && o.flags <= {Invalid, Inexact}
  {
    Fixed();
    if IsNan(a) {
      QuietedFields(a);
    } else if IsFinite(a) && !IsZero(a) && !Negative(a) {
      RootMeaning(mode, a);
    }
  }

  // ----- fused multiply-add -----

  lemma FusedSpecial(mode: Mode, a: u64, b: u64, c: u64)
    ensures var o, neg := FusedSum(mode, a, b, c), Negative(a) != Negative(b);
            var nan := IsNan(a) || IsNan(b) || IsNan(c);
            var lost := (IsInf(a) && IsZero(b)) || (IsZero(a) && IsInf(b));
            var clash := !nan && !lost && (IsInf(a) || IsInf(b)) && IsInf(c) && neg != Negative(c);
            && (IsNan(o.bits) <==> nan || lost || clash)
            && (lost || clash ==> DefaultNan(o.bits))
            && (IsNan(o.bits) ==> Settled(o, lost || clash || IsSnan(a) || IsSnan(b) || IsSnan(c)))
            && (!IsNan(o.bits) && (IsInf(a) || IsInf(b)) ==> Infinite(o.bits, neg) && Settled(o, false))
            && (!IsNan(o.bits) && IsInf(c) ==> Infinite(o.bits, Negative(c)) && Settled(o, false))
            && (IsFinite(a) && IsFinite(b) && IsFinite(c) ==>
                  o.flags <= {Overflow, Underflow, Inexact} && (IsInf(o.bits) ==> Overflow in o.flags))
            && (IsFinite(a) && IsFinite(b) && IsFinite(c) && Value(a) * Value(b) + Value(c) == 0.0 ==>
                  ZeroOf(o.bits, ZeroSum(mode, neg, Negative(c))) && Settled(o, false))
  {
    Fixed();
    FusedNan(mode, a, b, c);
    if IsFinite(a) && IsFinite(b) && IsFinite(c) {
      DeliveryMeaning(mode, Value(a) * Value(b) + Value(c),
                      ZeroSum(mode, Negative(a) != Negative(b), Negative(c)));
    }
  }

  /** The first NaN operand comes back quiet, unless infinity times zero hides a NaN addend. */
  lemma FusedNan(mode: Mode, a: u64, b: u64, c: u64)
    ensures IsNan(a) ==> SameNan(FusedSum(mode, a, b, c).bits, a)
    ensures !IsNan(a) && IsNan(b) ==> SameNan(FusedSum(mode, a, b, c).bits, b)
    ensures !IsNan(a) && !IsNan(b) && IsNan(c) && !(IsInf(a) && IsZero(b)) && !(IsZero(a) && IsInf(b)) ==>
              SameNan(FusedSum(mode, a, b, c).bits, c)
  {
    if IsNan(a) {
      QuietedFields(a);
    } else if IsNan(b) {
      QuietedFields(b);
    } else if IsNan(c) {
      QuietedFields(c);
    }
  }

  /** A NaN addend is returned if and only if it does not meet infinity times zero, or if it becomes the NaN of an
      invalid operation anyway. */
  lemma NanAddend(mode: Mode, a: u64, b: u64, c: u64)
    requires !IsNan(a) && !IsNan(b) && IsNan(c)
    ensures var lost := (IsInf(a) && IsZero(b)) || (IsZero(a) && IsInf(b));
            && (FusedSum(mode, a, b, c).bits == Quieted(c) <==> !lost || Quieted(c) == CANONICAL_NAN)
            && (Invalid in FusedSum(mode, a, b, c).flags <==> lost || IsSnan(c))
  {
    Classes(c);
  }

  lemma NanAddendExample(mode: Mode)
    ensures var inf, c := 0x7FF0_0000_0000_0000, 0x7FF8_0000_0000_0001;
            && IsInf(inf) && IsNan(c) && !IsSnan(c) && Quieted(c) == c
            && FusedSum(mode, inf, 0, c).bits != c && FusedSum(mode, inf, 0, c).flags == {Invalid}
  {
    NanAddend(mode, 0x7FF0_0000_0000_0000, 0, 0x7FF8_0000_0000_0001);
  }

  // ----- remainders -----

  /** The special operands of the remainders: without NaNs, INVALID exactly for an infinite dividend or a zero divisor,
      and an infinite divisor leaves the dividend. */
  lemma RemainderSpecial(a: u64, b: u64, nan: u64)
    ensures var o := SpecialRem(a, b, nan);
            && (IsNan(a) || IsNan(b) ==> o.bits == nan && Settled(o, IsSnan(a) || IsSnan(b)))
            && (!IsNan(a) && !IsNan(b) && (IsInf(a) || IsZero(b)) ==> DefaultNan(o.bits) && Settled(o, true))
            && (IsFinite(a) && IsInf(b) ==> o.bits == a && Settled(o, false))
    ensures DefaultNan(CANONICAL_NAN)
  {
    Fixed();
  }
}
