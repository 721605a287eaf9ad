/** Addition, subtraction, multiplication and division of src/arithmetic.cpp, in every rounding
    mode: each method returns the exact result rounded once and raises exactly the flags of that
    rounding. */
module Arithmetic64 {
  import opened Powers
  import opened Shifts
  import opened Rounding
  import opened Cells
  import opened ExactResults
  import opened Words
  import opened Wide
  import opened Binary64
  import opened Fenv
  import opened Pack64

  /** A finite nonzero operand: its significand has bit 61 set and 9 zero bits below the fraction;
      `exp` is the biased exponent, at or below zero for subnormals. */
  datatype Unpacked = Unpacked(neg: bool, exp: int, sig: u64)

  ghost predicate Unpacks(b: u64, u: Unpacked) {
    && u.neg == Negative(b)
    && 0x2000_0000_0000_0000 <= u.sig < 0x4000_0000_0000_0000 && u.sig % 0x200 == 0
    && Magnitude(b) == Dyadic(u.sig, u.exp - 1084)
    && u.exp <= 2046
  }

  method NormaliseSubnormal(frac: nat) returns (sig: u64, shift: int)
    requires 0 < frac < IMPLICIT
    ensures shift >= 0 && sig == Shl(frac, shift) && IMPLICIT <= sig < 2 * IMPLICIT
  {
    var lz := Clz64(frac);
    ClzPosition(frac, lz);
    NormalisedRange(frac, lz);
    shift := lz - 11;
    sig := Shl(frac, shift);
  }

  lemma NormalisedRange(frac: nat, lz: nat)
    requires frac < IMPLICIT && lz <= 63 && Pow2(63 - lz) <= frac < Pow2(64 - lz)
    ensures lz >= 11 && IMPLICIT <= Shl(frac, lz - 11) < 2 * IMPLICIT
  {
    Pow2Table();
    if lz <= 11 {
      Pow2Mono(52, 63 - lz);
    }
    ShlRange(frac, lz - 11, 63 - lz);
    ShlRange(frac, lz - 11, 64 - lz);
  }

  method UnpackFiniteNonzero(b: u64) returns (u: Unpacked)
    requires IsFinite(b) && !IsZero(b)
    ensures Unpacks(b, u)
  {
    var rawExp: int, frac := ExtractExp(b), ExtractFrac(b);
    if rawExp == 0 {
      var sig, shift := NormaliseSubnormal(frac);
      SubnormalValue(frac, shift, sig);
      u := Unpacked(Negative(b), 1 - shift, sig * 0x200);
    } else {
      NormalValue(frac, rawExp);
      u := Unpacked(Negative(b), rawExp, (frac + IMPLICIT) * 0x200);
    }
  }

  lemma SubnormalValue(frac: nat, shift: nat, sig: nat)
    requires sig == Shl(frac, shift) && frac < IMPLICIT
    ensures Decode(F64, frac) == Dyadic(sig * 0x200, -1083 - shift)
  {
    Pow2Table();
    DecodeGrid(F64, frac, 0, frac);
    ShlMultiplies(frac, shift);
    DyadicShift(frac, -1074 - shift, shift);
    DyadicShift(sig, -1083 - shift, 9);
  }

  lemma NormalValue(frac: nat, rawExp: nat)
    requires frac < IMPLICIT && rawExp >= 1
    ensures Decode(F64, rawExp * IMPLICIT + frac) == Dyadic((frac + IMPLICIT) * 0x200, rawExp - 1084)
  {
    Pow2Table();
    DecodeGrid(F64, frac + IMPLICIT, rawExp - 1, rawExp * IMPLICIT + frac);
    DyadicShift(frac + IMPLICIT, rawExp - 1084, 9);
  }

  // ----- addition of magnitudes -----

  lemma LowNine(sig: nat)
    requires sig % 0x200 == 0
    ensures !AnyLow(sig, 9) && !AnyLow(sig, 8) && !AnyLow(sig, 1) && sig % 2 == 0
  {
    Pow2Table();
    ShrIsDiv(sig, 9, 0x200);
    ShrIsDiv(sig, 8, 0x100);
    ShrIsDiv(sig, 1, 2);
  }

  /** The sum with the smaller operand jammed right by `d` is in the cell of the exact sum. */
  lemma AlignedSum(sigA: nat, sigB: nat, d: nat, e: int, ma: real, mb: real)
    requires sigA % 0x200 == 0
    requires ma == Dyadic(sigA, e) && mb == Dyadic(sigB, e - d)
    ensures SameCell(sigA + ShrJam(sigB, d), e, Num(ma + mb), 8)
  {
    DyadicPositive(sigB, e - d);
    LowNine(sigA);
    ExactCell(sigB, e - d, Num(mb), 0);
    JamCell(sigB, e - d, Num(mb), 0, d, 1);
    AddCell(sigA, ShrJam(sigB, d), e, mb, 1);
    Coarsen(sigA + ShrJam(sigB, d), e, Num(ma + mb), 1, 7);
  }

  /** Adds aligned significands, renormalizes a carry and rounds. */
  method RoundSum(neg: bool, exp: int, sigA: u64, sigB: u64, mode: Mode, fe: FeAcc, ghost x: Exact)
    returns (r: u64)
    requires 0x2000_0000_0000_0000 <= sigA + sigB < 0x8000_0000_0000_0000
    requires x.v >= 0.0 && SameCell(sigA + sigB, exp - 1084, x, 8)
    modifies fe
    ensures r == RoundSigned(mode, neg, x).bits
    ensures fe.bits == old(fe.bits) + RoundSigned(mode, neg, x).flags
  {
    var sum: u64 := sigA + sigB;
    if sum / 0x4000_0000_0000_0000 % 2 != 0 {
      JamCell(sum, exp - 1084, x, 8, 1, 8);
      JamOne(sum);
      sum := ShiftRightJamming(sum, 1);
      r := RoundAndPack(neg, exp + 1, sum, mode, fe, x);
    } else {
      r := RoundAndPack(neg, exp, sum, mode, fe, x);
    }
  }

  method AddMagnitudes(neg: bool, a: u64, b: u64, mode: Mode, fe: FeAcc) returns (r: u64)
    requires IsFinite(a) && !IsZero(a) && IsFinite(b) && !IsZero(b)
    modifies fe
    ensures Magnitude(a) + Magnitude(b) >= 0.0
    ensures r == RoundSigned(mode, neg, Num(Magnitude(a) + Magnitude(b))).bits
    ensures fe.bits == old(fe.bits) + RoundSigned(mode, neg, Num(Magnitude(a) + Magnitude(b))).flags
  {
    var ua := UnpackFiniteNonzero(a);
    var ub := UnpackFiniteNonzero(b);
    ghost var x := Num(Magnitude(a) + Magnitude(b));
    DecodeNonNegative(F64, Code(a));
    DecodeNonNegative(F64, Code(b));
    var diff := ua.exp - ub.exp;
    if diff > 0 {
      AlignedSum(ua.sig, ub.sig, diff, ua.exp - 1084, Magnitude(a), Magnitude(b));
      var sigB := ShiftRightJamming(ub.sig, diff);
      r := RoundSum(neg, ua.exp, ua.sig, sigB, mode, fe, x);
    } else if diff < 0 {
      AlignedSum(ub.sig, ua.sig, -diff, ub.exp - 1084, Magnitude(b), Magnitude(a));
      var sigA := ShiftRightJamming(ua.sig, -diff);
      r := RoundSum(neg, ub.exp, sigA, ub.sig, mode, fe, x);
    } else {
      AlignedSum(ua.sig, ub.sig, 0, ua.exp - 1084, Magnitude(a), Magnitude(b));
      NoJam(ub.sig);
      r := RoundSum(neg, ua.exp, ua.sig, ub.sig, mode, fe, x);
    }
  }

  lemma JamOne(m: nat)
    ensures ShrJam(m, 1) == m / 2 + if m % 4 == 1 then 1 else 0
  {
    assert Shr(m, 0) == m && !AnyLow(m, 0);
    var h := m / 2;
    DivUnique(m, 4, h / 2, 2 * (h % 2) + m % 2);
  }

  // ----- subtraction of magnitudes -----

  /** A jammed subordinate is at most half as wide as the dominant operand. */
  lemma JamQuarter(sig: nat, d: nat)
    requires sig < 0x4000_0000_0000_0000 && d >= 2
    ensures ShrJam(sig, d) <= 0x1000_0000_0000_0000
  {
    Pow2Table();
    Pow2Add(60, 2);
    Pow2Times(52, 8, IMPLICIT, 0x100, 0x1000_0000_0000_0000);
    ShrShr(sig, 2, d - 2);
    ShrRange(sig, 2, 62);
    ShrJamBound(Shr(sig, 2), d - 2);
  }

  /** The normalized difference is in the cell of the exact difference: either nothing was jammed,
      or at most one leading bit was cancelled. */
  lemma AlignedDifference(sigA: nat, sigB: nat, d: nat, e: int, ma: real, mb: real, w: nat)
    requires 0x2000_0000_0000_0000 <= sigA < 0x4000_0000_0000_0000 && sigA % 0x200 == 0
    requires sigB < 0x4000_0000_0000_0000 && sigB % 0x200 == 0
    requires ma == Dyadic(sigA, e) && mb == Dyadic(sigB, e - d) && ma >= mb
    requires ShrJam(sigB, d) <= sigA
    requires Shl(sigA - ShrJam(sigB, d), w) < 0x4000_0000_0000_0000
    ensures SameCell(Shl(sigA - ShrJam(sigB, d), w), e - w, Num(ma - mb), 8)
  {
    var m := ShrJam(sigB, d);
    var diff := sigA - m;
    LowNine(sigA);
    LowNine(sigB);
    DyadicPositive(sigB, e - d);
    if d <= 1 {
      ShrKeeps(sigB, d);
      MultipleOf(sigB, e - d, d);
      DyadicAdd(sigA, m, e);
      ShlMultiplies(diff, w);
      DyadicShift(diff, e - w, w);
      DyadicPositive(diff, e);
      ExactCell(Shl(diff, w), e - w, Num(ma - mb), 8);
    } else {
      JamQuarter(sigB, d);
      if w >= 2 {
        ShlTwice(diff, w);
      }
      ExactCell(sigB, e - d, Num(mb), 0);
      JamCell(sigB, e - d, Num(mb), 0, d, 1);
      SubCell(sigA, m, e, mb, 1);
      ShiftLeftCell(diff, e, Num(ma - mb), 1, w);
      Coarsen(Shl(diff, w), e - w, Num(ma - mb), w + 1, 7 - w);
    }
  }

  lemma ShrKeeps(sig: nat, d: nat)
    requires d <= 1 && !AnyLow(sig, 1)
    ensures !AnyLow(sig, d) && ShrJam(sig, d) == Shr(sig, d)
  {
  }

  lemma ShlTwice(m: nat, w: nat)
    requires w >= 2
    ensures Shl(m, w) >= 4 * m
  {
    ShlShl(m, 2, w - 2);
    assert Shl(m, 0) == m && Shl(m, 1) == 2 * m && Shl(m, 2) == 4 * m;
    ShlMultiplies(4 * m, w - 2);
    MulMono(1, Pow2(w - 2), 4 * m);
  }

  /** A larger exponent is a larger magnitude. */
  lemma LargerExponent(sigA: nat, sigB: nat, d: nat, e: int)
    requires 0x2000_0000_0000_0000 <= sigA && sigB < 0x4000_0000_0000_0000 && d >= 1
    ensures Dyadic(sigA, e) > Dyadic(sigB, e - d)
    ensures sigB % 0x200 == 0 ==> ShrJam(sigB, d) < sigA
  {
    var half := 0x2000_0000_0000_0000;
    DyadicMono(sigB, 2 * half, e - d);
    DyadicTwice(half, e - 1);
    DyadicShift(2 * half, e - d, d - 1);
    MulMono(1, Pow2(d - 1), 2 * half);
    if Pow2(d - 1) > 1 {
      DyadicMono(2 * half, 2 * half * Pow2(d - 1), e - d);
    }
    if half < sigA {
      DyadicMono(half, sigA, e);
    }
    JamOne(sigB);
    if d >= 2 {
      JamQuarter(sigB, d);
    }
  }

  /** What subtracting magnitude `mb` from `ma` under sign `neg` must deliver. */
  ghost function Difference(mode: Mode, neg: bool, ma: real, mb: real, zeroNeg: bool): Outcome {
    if ma == mb then Outcome(SignedZero(zeroNeg), {})
    else if ma > mb then RoundSigned(mode, neg, Num(ma - mb))
    else RoundSigned(mode, !neg, Num(mb - ma))
  }

  /** Subtracts the aligned smaller significand, normalizes and rounds. The aligned significand is
      strictly smaller, so the source's second test for a zero difference never succeeds. */
  method RoundDifference(neg: bool, exp: int, sigA: u64, sigB: u64, mode: Mode, fe: FeAcc,
                         ghost small: nat, ghost d: nat, ghost x: Exact)
    returns (r: u64)
    requires 0x2000_0000_0000_0000 <= sigA < 0x4000_0000_0000_0000 && sigA % 0x200 == 0
    requires small < 0x4000_0000_0000_0000 && small % 0x200 == 0
    requires sigB == ShrJam(small, d) && sigB < sigA
    requires x == Num(Dyadic(sigA, exp - 1084) - Dyadic(small, exp - 1084 - d)) && x.v >= 0.0
    modifies fe
    ensures r == RoundSigned(mode, neg, x).bits
    ensures fe.bits == old(fe.bits) + RoundSigned(mode, neg, x).flags
  {
    var diff: u64 := sigA - sigB;
    var lz := Clz64(diff);
    LeadingRoom(diff, lz);
    var shift := lz - 2;
    ShlShl(diff, shift, 2);
    FourTimes(Shl(diff, shift));
    AlignedDifference(sigA, small, d, exp - 1084, Dyadic(sigA, exp - 1084),
                      Dyadic(small, exp - 1084 - d), shift);
    diff := Shl(diff, shift);
    r := RoundAndPack(neg, exp - shift, diff, mode, fe, x);
  }

  method SubMagnitudes(aNeg: bool, a: u64, b: u64, zeroNeg: bool, mode: Mode, fe: FeAcc) returns (r: u64)
    requires IsFinite(a) && !IsZero(a) && IsFinite(b) && !IsZero(b)
    modifies fe
    ensures r == Difference(mode, aNeg, Magnitude(a), Magnitude(b), zeroNeg).bits
    ensures fe.bits == old(fe.bits) + Difference(mode, aNeg, Magnitude(a), Magnitude(b), zeroNeg).flags
  {
    var ua := UnpackFiniteNonzero(a);
    var ub := UnpackFiniteNonzero(b);
    var diff := ua.exp - ub.exp;
    if diff > 0 {
      LargerExponent(ua.sig, ub.sig, diff, ua.exp - 1084);
      var sigB := ShiftRightJamming(ub.sig, diff);
      r := RoundDifference(aNeg, ua.exp, ua.sig, sigB, mode, fe, ub.sig, diff,
                           Num(Magnitude(a) - Magnitude(b)));
    } else if diff < 0 {
      LargerExponent(ub.sig, ua.sig, -diff, ub.exp - 1084);
      var sigB := ShiftRightJamming(ua.sig, -diff);
      r := RoundDifference(!aNeg, ub.exp, ub.sig, sigB, mode, fe, ua.sig, -diff,
                           Num(Magnitude(b) - Magnitude(a)));
    } else if ua.sig > ub.sig {
      DyadicMono(ub.sig, ua.sig, ua.exp - 1084);
      NoJam(ub.sig);
      r := RoundDifference(aNeg, ua.exp, ua.sig, ub.sig, mode, fe, ub.sig, 0,
                           Num(Magnitude(a) - Magnitude(b)));
    } else if ua.sig < ub.sig {
      DyadicMono(ua.sig, ub.sig, ua.exp - 1084);
      NoJam(ua.sig);
      r := RoundDifference(!aNeg, ua.exp, ub.sig, ua.sig, mode, fe, ua.sig, 0,
                           Num(Magnitude(b) - Magnitude(a)));
    } else {
      r := SignedZero(zeroNeg);
    }
  }

  lemma NoJam(m: nat)
    ensures ShrJam(m, 0) == m
  {
  }

  lemma FourTimes(m: nat)
    ensures Shl(m, 2) == 4 * m
  {
    assert Shl(m, 0) == m && Shl(m, 1) == 2 * m;
  }

  lemma LeadingRoom(diff: u64, lz: nat)
    requires 0 < diff < 0x4000_0000_0000_0000
    requires TWO64 / 2 <= Shl(diff, lz)
    ensures lz >= 2
  {
    assert Shl(diff, 0) == diff && Shl(diff, 1) == 2 * diff;
  }

  // ----- multiplication and division -----

  /** The 53-bit significand, for the product and the quotient. */
  lemma DropNine(b: u64, u: Unpacked)
    requires Unpacks(b, u)
    ensures IMPLICIT <= u.sig / 0x200 < 2 * IMPLICIT
    ensures Magnitude(b) == Dyadic(u.sig / 0x200, u.exp - 1075)
  {
    Pow2Table();
    DyadicShift(u.sig / 0x200, u.exp - 1084, 9);
  }

  lemma ProductRange(a: nat, b: nat)
    requires IMPLICIT <= a < 2 * IMPLICIT && IMPLICIT <= b < 2 * IMPLICIT
    ensures IMPLICIT * IMPLICIT <= a * b < 4 * (IMPLICIT * IMPLICIT)
  {
    MulMono(IMPLICIT, b, a);
    MulMono(IMPLICIT, a, IMPLICIT);
    MulMono(b, 2 * IMPLICIT, a);
    MulMono(a, 2 * IMPLICIT - 1, 2 * IMPLICIT);
  }

  lemma ProductPowers()
    ensures Pow2(104) == IMPLICIT * IMPLICIT && Pow2(105) == 2 * (IMPLICIT * IMPLICIT)
    ensures Pow2(105 - 44) == Pow2(104 - 43) == 0x2000_0000_0000_0000
  {
    Pow2Table();
    Pow2Times(52, 52, IMPLICIT, IMPLICIT, IMPLICIT * IMPLICIT);
    Pow2Step(104);
  }

  method MulImpl(a: u64, b: u64, neg: bool, mode: Mode, fe: FeAcc) returns (r: u64)
    requires IsFinite(a) && !IsZero(a) && IsFinite(b) && !IsZero(b)
    modifies fe
    ensures Magnitude(a) * Magnitude(b) >= 0.0
    ensures r == RoundSigned(mode, neg, Num(Magnitude(a) * Magnitude(b))).bits
    ensures fe.bits == old(fe.bits) + RoundSigned(mode, neg, Num(Magnitude(a) * Magnitude(b))).flags
  {
    var ua := UnpackFiniteNonzero(a);
    var ub := UnpackFiniteNonzero(b);
    DropNine(a, ua);
    DropNine(b, ub);
    var sigA: u64, sigB: u64 := ua.sig / 0x200, ub.sig / 0x200;
    var product := Mul64x64To128(sigA, sigB);
    ProductRange(sigA, sigB);
    ghost var x := Num(Magnitude(a) * Magnitude(b));
    ExactProduct(sigA, ua.exp - 1075, sigB, ub.exp - 1075, Nat(product));
    var sig, carry := NormalizeProduct(product, ua.exp + ub.exp - 2150, x);
    r := RoundAndPack(neg, ua.exp + ub.exp - 1023 + carry, sig, mode, fe, x);
  }

  /** Brings the leading bit of a 105- or 106-bit product to bit 61, jamming the rest. */
  method NormalizeProduct(product: U128, ghost e: int, ghost x: Exact) returns (sig: u64, carry: nat)
    requires IMPLICIT * IMPLICIT <= Nat(product) < 4 * (IMPLICIT * IMPLICIT)
    requires SameCell(Nat(product), e, x, 0)
    ensures 0x2000_0000_0000_0000 <= sig < 0x4000_0000_0000_0000
    ensures SameCell(sig, e + 43 + carry, x, 8)
  {
    ghost var p := Nat(product);
    ProductPowers();
    TopBit(p);
    if ShiftRight(product, 105).lo % 2 != 0 {
      JamRange(p, 44, 105);
      JamCell(p, e, x, 0, 44, 8);
      sig := JamLow(product, 44);
      carry := 1;
    } else {
      JamRange(p, 43, 104);
      JamCell(p, e, x, 0, 43, 8);
      sig := JamLow(product, 43);
      carry := 0;
    }
  }

  lemma TopBit(p: nat)
    requires IMPLICIT * IMPLICIT <= p < 4 * (IMPLICIT * IMPLICIT)
    ensures Shr(p, 105) == if p >= 2 * (IMPLICIT * IMPLICIT) then 1 else 0
  {
    ProductPowers();
    Pow2Step(105);
    ShrUnique(p, 105, if p >= 2 * (IMPLICIT * IMPLICIT) then 1 else 0);
  }

  /** The low word of the shifted product with the lost bits, selected by a mask, jammed in. */
  method JamLow(product: U128, shift: nat) returns (sig: u64)
    requires shift < 128 && ShrJam(Nat(product), shift) < TWO64
    ensures sig == ShrJam(Nat(product), shift)
  {
    var sticky := AnyLow(Nat(product), shift);
    sig := ShiftRight(product, shift).lo;
    if sticky && sig % 2 == 0 {
      sig := sig + 1;
    }
  }

  /** The scaled quotient with its remainder as sticky bit is in the cell of the exact quotient. */
  lemma QuotientCell(sa: nat, sb: nat, ea: int, eb: int, q: nat, rem: nat, ma: real, mb: real)
    requires ma == Dyadic(sa, ea) && mb == Dyadic(sb, eb)
    requires 0 < sb && q * sb + rem == Shl(sa, 55) && rem < sb
    ensures mb > 0.0
    ensures SameCell(q * 0x40 + if rem != 0 then 1 else 0, ea - eb - 61, Num(ma / mb), 8)
  {
    var e := ea - eb - 55;
    ShlMultiplies(sa, 55);
    DyadicShift(sa, ea - 55, 55);
    RatioCell(Shl(sa, 55), sb, e, eb, q, rem);
    var m := q * 0x40 + if rem != 0 then 1 else 0;
    Pow2Table();
    Pow2Times(4, 2, 0x10, 4, 0x40);
    ShrIsDiv(m, 6, 0x40);
    Coarsen(m, e - 6, Num(ma / mb), 6, 2);
  }

  /** The quotient to 62 bits, the last one sticky, before rounding. */
  method QuotientSig(a: u64, b: u64) returns (sig: u64, exp: int)
    requires IsFinite(a) && !IsZero(a) && IsFinite(b) && !IsZero(b)
    ensures Magnitude(b) > 0.0 && Magnitude(a) / Magnitude(b) >= 0.0
    ensures 0x2000_0000_0000_0000 <= sig < 0x4000_0000_0000_0000
    ensures SameCell(sig, exp - 1084, Num(Magnitude(a) / Magnitude(b)), 8)
  {
    var ua := UnpackFiniteNonzero(a);
    var ub := UnpackFiniteNonzero(b);
    DropNine(a, ua);
    DropNine(b, ub);
    var sigA: u64, sigB: u64 := ua.sig / 0x200, ub.sig / 0x200;
    exp := ua.exp - ub.exp + 1023;
    ghost var ea := ua.exp - 1075;
    if sigA < sigB {
      DyadicTwice(sigA, ea - 1);
      ea := ea - 1;
      sigA := 2 * sigA;
      exp := exp - 1;
    }
    DyadicPositive(sigB, ub.exp - 1075);
    DecodeNonNegative(F64, Code(a));
    PositiveRatio(Magnitude(a), Magnitude(b));
    DividendFits(sigA);
    var num := ShiftLeft(U128(0, sigA), 55);
    var q, rem := DivMod(num, sigB);
    QuotientRange(sigA, sigB, q, rem);
    QuotientCell(sigA, sigB, ea, ub.exp - 1075, q, rem, Magnitude(a), Magnitude(b));
    LeadingBitFixed(q);
    sig := q * 0x40;
    if rem != 0 {
      sig := sig + 1;
    }
    if sig / 0x4000_0000_0000_0000 % 2 != 0 {
      assert false; // the quotient's leading bit is fixed, so the source's last shift is not needed
    }
  }

  method DivImpl(a: u64, b: u64, neg: bool, mode: Mode, fe: FeAcc) returns (r: u64)
    requires IsFinite(a) && !IsZero(a) && IsFinite(b) && !IsZero(b)
    modifies fe
    ensures Magnitude(b) > 0.0 && Magnitude(a) / Magnitude(b) >= 0.0
    ensures r == RoundSigned(mode, neg, Num(Magnitude(a) / Magnitude(b))).bits
    ensures fe.bits == old(fe.bits) + RoundSigned(mode, neg, Num(Magnitude(a) / Magnitude(b))).flags
  {
    var sig, exp := QuotientSig(a, b);
    r := RoundAndPack(neg, exp, sig, mode, fe, Num(Magnitude(a) / Magnitude(b)));
  }

  lemma DividendFits(sigA: nat)
    requires sigA < 4 * IMPLICIT
    ensures Shl(sigA, 55) == sigA * 0x80_0000_0000_0000
    ensures ShiftLeft(U128(0, sigA), 55).hi < IMPLICIT
    ensures Nat(ShiftLeft(U128(0, sigA), 55)) == Shl(sigA, 55)
  {
    Pow2Table();
    Pow2Times(52, 3, IMPLICIT, 8, 0x80_0000_0000_0000);
    ShlMultiplies(sigA, 55);
    SmallMod(Shl(sigA, 55), ShiftLeft(U128(0, sigA), 55));
  }

  lemma SmallMod(n: nat, r: U128)
    requires n < IMPLICIT * TWO64 && Nat(r) == n % TWO128
    ensures Nat(r) == n && r.hi < IMPLICIT
  {
    DivUnique(n, TWO128, 0, n);
  }

  lemma LeadingBitFixed(q: nat)
    requires q < 0x100_0000_0000_0000
    ensures (q * 0x40) / 0x4000_0000_0000_0000 % 2 == 0 && (q * 0x40 + 1) / 0x4000_0000_0000_0000 % 2 == 0
  {
  }

  lemma QuotientRange(sa: nat, sb: nat, q: nat, rem: nat)
    requires 0 < sb <= sa < 2 * sb && rem < sb
    requires q * sb + rem == sa * 0x80_0000_0000_0000
    ensures 0x80_0000_0000_0000 <= q < 0x100_0000_0000_0000
  {
    if q < 0x80_0000_0000_0000 {
      MulMono(q + 1, 0x80_0000_0000_0000, sb);
      Distribute(0, q, sb);
    } else if q >= 0x100_0000_0000_0000 {
      MulMono(0x100_0000_0000_0000, q, sb);
    }
  }

  // ----- the public operations -----

  /** For finite nonzero operands the exact sum is a sum or a difference of magnitudes. */
  lemma SumOfMagnitudes(mode: Mode, a: u64, b: u64)
    requires IsFinite(a) && !IsZero(a) && IsFinite(b) && !IsZero(b)
    ensures Magnitude(a) + Magnitude(b) >= 0.0
    ensures Sum(mode, a, b)
         == if Negative(a) == Negative(b) then RoundSigned(mode, Negative(a), Num(Magnitude(a) + Magnitude(b)))
            else Difference(mode, Negative(a), Magnitude(a), Magnitude(b), mode == RDN)
  {
    FiniteCodes(a);
    FiniteCodes(b);
    DecodeNonNegative(F64, Code(a));
    DecodeNonNegative(F64, Code(b));
  }

  /** Section 6.3 of IEEE 754-2008: the sign of an exact zero sum. */
  predicate ZeroSign(mode: Mode, a: u64, b: u64) {
    if Negative(a) == Negative(b) then Negative(a) else mode == RDN
  }

  /** A zero operand leaves the other one. */
  lemma SumWithZero(mode: Mode, a: u64, b: u64)
    requires IsFinite(a) && IsFinite(b)
    ensures IsZero(a) && !IsZero(b) ==> Sum(mode, a, b) == Outcome(b, {})
    ensures IsZero(b) && !IsZero(a) ==> Sum(mode, a, b) == Outcome(a, {})
    ensures IsZero(a) && IsZero(b) ==> Sum(mode, a, b) == Outcome(SignedZero(ZeroSign(mode, a, b)), {})
  {
    FiniteCodes(a);
    FiniteCodes(b);
    if !IsZero(a) {
      RoundOfCode(mode, a);
    }
    if !IsZero(b) {
      RoundOfCode(mode, b);
    }
  }

  /** `sf64_add_r`. */
  method AddR(mode: Mode, a: u64, b: u64, fe: FeAcc) returns (r: u64)
    modifies fe
    ensures r == Sum(mode, a, b).bits && fe.bits == old(fe.bits) + Sum(mode, a, b).flags
  {
    if IsNan(a) || IsNan(b) {
      if IsSnan(a) || IsSnan(b) {
        fe.Raise({Invalid});
      }
      return PropagateNan(a, b);
    }
    if ExtractExp(a) == EXP_MAX || ExtractExp(b) == EXP_MAX {
      var aInf, bInf := ExtractExp(a) == EXP_MAX, ExtractExp(b) == EXP_MAX;
      if aInf && bInf {
        if Negative(a) == Negative(b) {
          return SignedInf(Negative(a));
        }
        fe.Raise({Invalid});
        return CANONICAL_NAN;
      }
      return if aInf then SignedInf(Negative(a)) else SignedInf(Negative(b));
    }
    SumWithZero(mode, a, b);
    if IsZero(a) && IsZero(b) {
      if Negative(a) == Negative(b) {
        return SignedZero(Negative(a));
      }
      return SignedZero(mode == RDN);
    }
    if IsZero(a) {
      return b;
    }
    if IsZero(b) {
      return a;
    }
    SumOfMagnitudes(mode, a, b);
    if Negative(a) == Negative(b) {
      r := AddMagnitudes(Negative(a), a, b, mode, fe);
    } else {
      r := SubMagnitudes(Negative(a), a, b, mode == RDN, mode, fe);
    }
  }

  /** `sf64_sub_r`: the sign of the subtrahend is flipped. */
  method SubR(mode: Mode, a: u64, b: u64, fe: FeAcc) returns (r: u64)
    modifies fe
    ensures r == Sum(mode, a, Negated(b)).bits && fe.bits == old(fe.bits) + Sum(mode, a, Negated(b)).flags
    ensures r == Subtraction(mode, a, b).bits && fe.bits == old(fe.bits) + Subtraction(mode, a, b).flags
  {
    SubtractionIsSum(mode, a, b);
    r := AddR(mode, a, Negated(b), fe);
  }

  /** `sf64_mul_r`. */
  method MulR(mode: Mode, a: u64, b: u64, fe: FeAcc) returns (r: u64)
    modifies fe
    ensures r == Product(mode, a, b).bits && fe.bits == old(fe.bits) + Product(mode, a, b).flags
  {
    var neg := Negative(a) != Negative(b);
    if IsNan(a) || IsNan(b) {
      if IsSnan(a) || IsSnan(b) {
        fe.Raise({Invalid});
      }
      return PropagateNan(a, b);
    }
    if ExtractExp(a) == EXP_MAX || ExtractExp(b) == EXP_MAX {
      InfIsNotZero(a);
      InfIsNotZero(b);
      if IsZero(a) || IsZero(b) {
        fe.Raise({Invalid});
        return CANONICAL_NAN;
      }
      return SignedInf(neg);
    }
    ProductOfMagnitudes(mode, a, b);
    if IsZero(a) || IsZero(b) {
      return SignedZero(neg);
    }
    r := MulImpl(a, b, neg, mode, fe);
  }

  lemma InfIsNotZero(a: u64)
    ensures IsZero(a) ==> IsFinite(a)
  {
  }

  lemma ProductOfMagnitudes(mode: Mode, a: u64, b: u64)
    requires IsFinite(a) && IsFinite(b)
    ensures Magnitude(a) * Magnitude(b) >= 0.0
    ensures Product(mode, a, b)
         == if IsZero(a) || IsZero(b) then Outcome(SignedZero(Negative(a) != Negative(b)), {})
            else RoundSigned(mode, Negative(a) != Negative(b), Num(Magnitude(a) * Magnitude(b)))
  {
    FiniteCodes(a);
    FiniteCodes(b);
    ProductSign(a, b);
    RoundWithSign(mode, Negative(a) != Negative(b), Value(a) * Value(b), Magnitude(a) * Magnitude(b));
  }

  lemma ProductSign(a: u64, b: u64)
    ensures var p := Magnitude(a) * Magnitude(b);
            && p >= 0.0 && (p == 0.0 <==> Magnitude(a) == 0.0 || Magnitude(b) == 0.0)
            && Value(a) * Value(b) == if Negative(a) != Negative(b) then -p else p
  {
    DecodeNonNegative(F64, Code(a));
    DecodeNonNegative(F64, Code(b));
    SignOfProduct(Magnitude(a), Magnitude(b));
  }

  lemma RoundWithSign(mode: Mode, neg: bool, v: real, m: real)
    requires m >= 0.0 && v == if neg then -m else m
    ensures RoundReal(mode, v, neg) == if m == 0.0 then Outcome(SignedZero(neg), {}) else RoundSigned(mode, neg, Num(m))
  {
  }

  /** `sf64_div_r`. */
  method DivR(mode: Mode, a: u64, b: u64, fe: FeAcc) returns (r: u64)
    modifies fe
    ensures r == Quotient(mode, a, b).bits && fe.bits == old(fe.bits) + Quotient(mode, a, b).flags
  {
    var neg := Negative(a) != Negative(b);
    if IsNan(a) || IsNan(b) {
      if IsSnan(a) || IsSnan(b) {
        fe.Raise({Invalid});
      }
      return PropagateNan(a, b);
    }
    var aInf, bInf := ExtractExp(a) == EXP_MAX, ExtractExp(b) == EXP_MAX;
    if aInf && bInf {
      fe.Raise({Invalid});
      return CANONICAL_NAN;
    }
    InfIsNotZero(a);
    InfIsNotZero(b);
    if aInf {
      return SignedInf(neg);
    }
    if bInf {
      return SignedZero(neg);
    }
    if IsZero(a) && IsZero(b) {
      fe.Raise({Invalid});
      return CANONICAL_NAN;
    }
    if IsZero(b) {
      fe.Raise({DivByZero});
      return SignedInf(neg);
    }
    QuotientOfMagnitudes(mode, a, b);
    if IsZero(a) {
      return SignedZero(neg);
    }
    r := DivImpl(a, b, neg, mode, fe);
  }

  lemma QuotientOfMagnitudes(mode: Mode, a: u64, b: u64)
    requires IsFinite(a) && IsFinite(b) && !IsZero(b)
    ensures Magnitude(b) > 0.0 && Magnitude(a) / Magnitude(b) >= 0.0
    ensures Quotient(mode, a, b)
         == if IsZero(a) then Outcome(SignedZero(Negative(a) != Negative(b)), {})
            else RoundSigned(mode, Negative(a) != Negative(b), Num(Magnitude(a) / Magnitude(b)))
  {
    FiniteCodes(a);
    FiniteCodes(b);
    DecodeNonNegative(F64, Code(a));
    DecodeNonNegative(F64, Code(b));
    SignOfRatio(Magnitude(a), Magnitude(b));
    RoundWithSign(mode, Negative(a) != Negative(b), Value(a) / Value(b), Magnitude(a) / Magnitude(b));
  }
}
