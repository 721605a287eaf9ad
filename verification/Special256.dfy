/** What the binary256 operations deliver for NaNs, infinities and zeros, in terms of the returned words: sections 6.1,
    6.2, 7.2 and 7.3 of IEEE 754-2008. */
module Special256 {
  import opened Powers
  import opened Shifts
  import opened Rounding
  import opened Words
  import opened BigUint
  import opened Binary256
  import opened Pack256
  import opened Add256
  import opened Arithmetic256
  import opened Fma256
  import opened Meaning256

  // ----- classes -----

  /** The NaN of an invalid operation, word by word. */
  predicate DefaultNan(r: Word256) {
    r == [0, 0, 0, 0x7FFF_F800_0000_0000]
  }

  /** The NaN `a`, with the top fraction bit set. */
  ghost predicate SameNan(r: Word256, a: Word256) {
    && IsNan(r) && !IsSnan(r) && Negative(r) == Negative(a)
    && Code(r) == Code(a) + if IsSnan(a) then Pow2(235) else 0
  }

  ghost predicate Infinite(r: Word256, neg: bool) {
    IsInf(r) && Negative(r) == neg
  }

  ghost predicate ZeroOf(r: Word256, neg: bool) {
    IsZero(r) && Negative(r) == neg
  }

  predicate Settled(o: Outcome, invalid: bool) {
    o.flags == if invalid then {Invalid} else {}
  }

  /** A NaN is signaling if the top one of the 44 fraction bits in its top limb is clear. */
  lemma Signaling(x: Word256)
    ensures IsSnan(x) <==> IsNan(x) && x[3] % TWO44 < TWO43
  {
    WordValue(x);
    NanField(1, TWO43);
    TopBit(x[3], x[3] % TWO63 / TWO43, x[3] % TWO63 % TWO43);
    QuietBit(Value(x[..3]), x[3] % TWO63, x[3] % TWO63 / TWO43, x[3] % TWO63 % TWO43, Pow2(192), Pow2(235), 235);
  }

  lemma QuietBit(low: nat, w: nat, q: nat, t: nat, p: nat, h: nat, k: nat)
    requires low < p && w == q * TWO43 + t && t < TWO43 && h == TWO43 * p == Pow2(k)
    ensures Bit(low + w * p, k) <==> q % 2 == 1
  {
    FieldBound(low, t, TWO43, p);
    Distribute(q * TWO43, t, p);
    Regroup(q, TWO43, p);
    Distribute(q, 0, h);
    ShrUnique(low + t * p + q * h, k, q);
  }

  lemma Regroup(q: nat, m: nat, p: nat)
    ensures q * m * p == q * (m * p)
  {
  }

  lemma TopBit(w: nat, q: nat, t: nat)
    requires w < 2 * TWO63 && q == w % TWO63 / TWO43 && t == w % TWO63 % TWO43
    ensures q % 2 == 1 <==> w % TWO44 >= TWO43
    ensures w % TWO63 == q * TWO43 + t && t < TWO43
  {
  }

  lemma DefaultFields(r: Word256)
    requires !Negative(r) && Code(r) == NanCode()
    ensures DefaultNan(r) && IsNan(r) && !IsSnan(r)
  {
    var d: Word256 := [0, 0, 0, 0x7FFF_F800_0000_0000];
    ShortWord(d, 0, 0xFFFFF * TWO43);
    NanField(0xFFFFF, 0xFFFFF * TWO43);
    Distribute1(0xFFFFE, Pow2(235));
    EncodingUnique(r, d);
    HighPart(0, 0xFFFFF, Pow2(235));
  }

  lemma QuietedNan(r: Word256, a: Word256)
    requires IsNan(a) && Negative(r) == Negative(a) && Code(r) == QuietedCode(Code(a))
    ensures SameNan(r, a)
  {
    if !Bit(Code(a), 235) {
      SetQuiet(Code(a), 235);
    }
  }

  lemma SetQuiet(c: nat, k: nat)
    requires !Bit(c, k)
    ensures Bit(c + Pow2(k), k)
  {
    Pow2Mono(0, k);
    ShrUnique(Pow2(k), k, 1);
    ShrAdd(Pow2(k), c, k);
  }

  /** The first NaN operand comes back quiet. */
  lemma PropagatedNan(a: Word256, b: Word256, r: Word256)
    requires (IsNan(a) || IsNan(b)) && Encodes(r, NanResult(a, b))
    ensures SameNan(r, if IsNan(a) then a else b) && Settled(NanResult(a, b), IsSnan(a) || IsSnan(b))
  {
    QuietedNan(r, if IsNan(a) then a else b);
  }

  /** An invalid operation. */
  lemma InvalidNan(r: Word256)
    requires Encodes(r, InvalidResult())
    ensures DefaultNan(r) && IsNan(r) && !IsSnan(r) && Settled(InvalidResult(), true)
  {
    DefaultFields(r);
  }

  // ----- addition -----

  lemma SumSpecial(mode: Mode, a: Word256, b: Word256, r: Word256)
    requires Encodes(r, Sum(mode, a, b))
    ensures var o, clash := Sum(mode, a, b), IsInf(a) && IsInf(b) && Negative(a) != Negative(b);
            && (IsNan(r) <==> IsNan(a) || IsNan(b) || clash)
            && (clash ==> DefaultNan(r))
            && (IsNan(r) ==> Settled(o, IsSnan(a) || IsSnan(b) || clash))
            && (!IsNan(r) && IsInf(a) ==> Infinite(r, Negative(a)) && Settled(o, false))
            && (!IsNan(r) && IsInf(b) ==> Infinite(r, Negative(b)) && Settled(o, false))
            && (IsFinite(a) && IsFinite(b) ==>
                  o.flags <= {Overflow, Underflow, Inexact} && (IsInf(r) ==> Overflow in o.flags))
            && (IsFinite(a) && IsFinite(b) && Real(a) + Real(b) == 0.0 ==>
                  ZeroOf(r, if Negative(a) == Negative(b) then Negative(a) else mode == RDN) && Settled(o, false))
    ensures IsNan(a) || IsNan(b) ==> SameNan(r, if IsNan(a) then a else b)
    ensures !IsFinite(a) || !IsFinite(b) ==> AddFlags(mode, a, b) == Sum(mode, a, b).flags
  {
    if IsNan(a) || IsNan(b) {
      PropagatedNan(a, b, r);
    } else if IsInf(a) && IsInf(b) && Negative(a) != Negative(b) {
      InvalidNan(r);
    } else if IsFinite(a) && IsFinite(b) {
      DeliveryMeaning(mode, Real(a) + Real(b), if Negative(a) == Negative(b) then Negative(a) else mode == RDN, r);
    }
  }

  // ----- multiplication and division -----

  lemma ProductSpecial(mode: Mode, a: Word256, b: Word256, r: Word256)
    requires Encodes(r, Product(mode, a, b))
    ensures var o, neg := Product(mode, a, b), Negative(a) != Negative(b);
            var clash := (IsInf(a) && IsZero(b)) || (IsZero(a) && IsInf(b));
            && (IsNan(r) <==> IsNan(a) || IsNan(b) || clash)
            && (clash ==> DefaultNan(r))
            && (IsNan(r) ==> Settled(o, IsSnan(a) || IsSnan(b) || clash))
            && (!IsNan(r) && (IsInf(a) || IsInf(b)) ==> Infinite(r, neg) && Settled(o, false))
            && (!IsNan(r) && (IsZero(a) || IsZero(b)) ==> ZeroOf(r, neg) && Settled(o, false))
            && (IsFinite(a) && IsFinite(b) ==>
                  o.flags <= {Overflow, Underflow, Inexact} && (IsInf(r) ==> Overflow in o.flags))
    ensures IsNan(a) || IsNan(b) ==> SameNan(r, if IsNan(a) then a else b)
  {
    InfPositive();
    if IsNan(a) || IsNan(b) {
      PropagatedNan(a, b, r);
    } else if (IsInf(a) && IsZero(b)) || (IsZero(a) && IsInf(b)) {
      InvalidNan(r);
    } else if IsFinite(a) && IsFinite(b) {
      ProductMeans(mode, a, b);
      DeliveryMeaning(mode, Real(a) * Real(b), Negative(a) != Negative(b), r);
    }
  }

  lemma QuotientSpecial(mode: Mode, a: Word256, b: Word256, r: Word256)
    requires Encodes(r, Quotient(mode, a, b))
    ensures var o, neg := Quotient(mode, a, b), Negative(a) != Negative(b);
            var clash := (IsInf(a) && IsInf(b)) || (IsZero(a) && IsZero(b));
            && (IsNan(r) <==> IsNan(a) || IsNan(b) || clash)
            && (clash ==> DefaultNan(r))
            && (IsNan(r) ==> Settled(o, IsSnan(a) || IsSnan(b) || clash))
            && (DivByZero in o.flags <==> IsFinite(a) && !IsZero(a) && IsZero(b))
            && (DivByZero in o.flags ==> Infinite(r, neg) && o.flags == {DivByZero})
            && (IsInf(a) && IsFinite(b) ==> Infinite(r, neg) && Settled(o, false))
            && (IsFinite(a) && IsInf(b) ==> ZeroOf(r, neg) && Settled(o, false))
            && (IsZero(a) && IsFinite(b) && !IsZero(b) ==> ZeroOf(r, neg) && Settled(o, false))
            && (IsFinite(a) && IsFinite(b) && !IsZero(b) ==>
                  o.flags <= {Overflow, Underflow, Inexact} && (IsInf(r) ==> Overflow in o.flags))
    ensures IsNan(a) || IsNan(b) ==> SameNan(r, if IsNan(a) then a else b)
  {
    InfPositive();
    if IsNan(a) || IsNan(b) {
      PropagatedNan(a, b, r);
    } else if (IsInf(a) && IsInf(b)) || (IsZero(a) && IsZero(b)) {
      InvalidNan(r);
    } else if IsFinite(a) && IsFinite(b) && !IsZero(b) {
      QuotientMeans(mode, a, b);
      DeliveryMeaning(mode, Real(a) / Real(b), Negative(a) != Negative(b), r);
    }
  }

  // ----- square root -----

  lemma RootSpecial(mode: Mode, a: Word256, r: Word256)
    requires Encodes(r, SquareRoot(mode, a))
    ensures var o, below := SquareRoot(mode, a), Negative(a) && !IsZero(a) && !IsNan(a);
            && (IsNan(r) <==> IsNan(a) || below)
            && (Invalid in o.flags <==> IsSnan(a) || below)
            && (below ==> DefaultNan(r))
            && (IsNan(r) ==> Settled(o, IsSnan(a) || below))
            && (IsNan(a) ==> SameNan(r, a))
            && (IsZero(a) ==> ZeroOf(r, Negative(a)) && Settled(o, false))
            && (IsInf(a) && !Negative(a) ==> Infinite(r, false) && Settled(o, false))
            && o.flags <= {Invalid, Inexact}
  {
    InfPositive();
    if IsNan(a) {
      PropagatedNan(a, a, r);
    } else if Negative(a) && !IsZero(a) {
      InvalidNan(r);
    } else if IsFinite(a) && !IsZero(a) {
      RootMeaning(mode, a, r);
    }
  }

  // ----- fused multiply-add -----

  /** A product of infinity and zero. */
  ghost predicate Undefined(a: Word256, b: Word256) {
    (IsInf(a) && IsZero(b)) || (IsZero(a) && IsInf(b))
  }

  /** An infinite product meets the opposite infinity. */
  ghost predicate Clash(a: Word256, b: Word256, c: Word256) {
    (IsInf(a) || IsInf(b)) && IsInf(c) && (Negative(a) != Negative(b)) != Negative(c)
  }

  lemma FusedNan(mode: Mode, a: Word256, b: Word256, c: Word256, r: Word256)
    requires Encodes(r, FusedSum(mode, a, b, c)) && (IsNan(a) || IsNan(b) || IsNan(c))
    ensures IsNan(r)
    ensures IsNan(a) || IsNan(b) ==>
              SameNan(r, if IsNan(a) then a else b) && Settled(FusedSum(mode, a, b, c), IsSnan(a) || IsSnan(b))
    ensures !IsNan(a) && !IsNan(b) ==> SameNan(r, c) && Settled(FusedSum(mode, a, b, c), IsSnan(c))
  {
    if IsNan(a) || IsNan(b) {
      PropagatedNan(a, b, r);
    } else {
      PropagatedNan(c, c, r);
    }
  }

  lemma FusedFinite(mode: Mode, a: Word256, b: Word256, c: Word256, r: Word256)
    requires Encodes(r, FusedSum(mode, a, b, c)) && IsFinite(a) && IsFinite(b) && IsFinite(c)
    ensures var o, neg := FusedSum(mode, a, b, c), Negative(a) != Negative(b);
            && !IsNan(r) && o.flags <= {Overflow, Underflow, Inexact} && (IsInf(r) ==> Overflow in o.flags)
            && (Real(a) * Real(b) + Real(c) == 0.0 ==>
                  ZeroOf(r, if neg == Negative(c) then neg else mode == RDN) && Settled(o, false))
  {
    FusedMeans(mode, a, b, c);
    DeliveryMeaning(mode, Real(a) * Real(b) + Real(c),
                    if (Negative(a) != Negative(b)) == Negative(c) then Negative(c) else mode == RDN, r);
  }

  lemma FusedInfinite(mode: Mode, a: Word256, b: Word256, c: Word256, r: Word256)
    requires Encodes(r, FusedSum(mode, a, b, c)) && !IsNan(a) && !IsNan(b) && !IsNan(c)
    requires !Undefined(a, b) && !Clash(a, b, c) && !(IsFinite(a) && IsFinite(b) && IsFinite(c))
    ensures Infinite(r, if IsInf(c) then Negative(c) else Negative(a) != Negative(b))
    ensures Settled(FusedSum(mode, a, b, c), false)
  {
    InfPositive();
  }

  /** Operands that are no NaNs. */
  lemma FusedSpecial(mode: Mode, a: Word256, b: Word256, c: Word256, r: Word256)
    requires Encodes(r, FusedSum(mode, a, b, c)) && !IsNan(a) && !IsNan(b) && !IsNan(c)
    ensures var o, neg := FusedSum(mode, a, b, c), Negative(a) != Negative(b);
            var invalid := Undefined(a, b) || Clash(a, b, c);
            && (IsNan(r) <==> invalid)
            && (Invalid in o.flags <==> invalid)
            && (invalid ==> DefaultNan(r) && Settled(o, true))
            && (!invalid && (IsInf(a) || IsInf(b)) ==> Infinite(r, neg) && Settled(o, false))
            && (!invalid && IsInf(c) ==> Infinite(r, Negative(c)) && Settled(o, false))
            && (IsFinite(a) && IsFinite(b) && IsFinite(c) ==>
                  o.flags <= {Overflow, Underflow, Inexact} && (IsInf(r) ==> Overflow in o.flags))
            && (IsFinite(a) && IsFinite(b) && IsFinite(c) && Real(a) * Real(b) + Real(c) == 0.0 ==>
                  ZeroOf(r, if neg == Negative(c) then neg else mode == RDN) && Settled(o, false))
  {
    if Undefined(a, b) || Clash(a, b, c) {
      InvalidNan(r);
    } else if IsFinite(a) && IsFinite(b) && IsFinite(c) {
      FusedFinite(mode, a, b, c, r);
    } else {
      FusedInfinite(mode, a, b, c, r);
    }
  }
}
