/** Square root of src/sqrt_fma.cpp: digit-by-digit extraction and one rounding. */
module Sqrt64 {
  import opened Powers
  import opened Shifts
  import opened Rounding
  import opened ExactResults
  import opened Words
  import opened Wide
  import opened Binary64
  import opened Fenv
  import opened Arithmetic64

  // ----- integer square root -----

  /** The top pair of a left-aligned radicand, and what is left of it. */
  lemma PairStep(low: nat, k: nat, rad: nat) returns (pair: nat, rest: nat)
    requires 2 <= k <= 128 && low < Pow2(k) && rad == Shl(low, 128 - k)
    ensures pair < 4 && pair == Shr(rad, 126)
    ensures rest < Pow2(k - 2) && low == Shl(pair, k - 2) + rest
    ensures Shl(rad, 2) % TWO128 == Shl(rest, 130 - k)
  {
    ShrOfShl(low, 128 - k, k - 2);
    pair, rest := SplitPair(low, k);
    ShlShl(low, 128 - k, 2);
    ShlSplit(pair, rest, k - 2, 130 - k);
    DropPair(pair, rest, k - 2, 130 - k);
  }

  lemma SplitPair(low: nat, k: nat) returns (pair: nat, rest: nat)
    requires 2 <= k && low < Pow2(k)
    ensures pair < 4 && pair == Shr(low, k - 2)
    ensures rest < Pow2(k - 2) && low == Shl(pair, k - 2) + rest
  {
    pair := Shr(low, k - 2);
    Pow2Table();
    ShrRange(low, k - 2, k);
    ShrDivides(low, k - 2);
    ShlMultiplies(pair, k - 2);
    Distribute(0, pair, Pow2(k - 2));
    rest := low - Shl(pair, k - 2);
  }

  lemma DropPair(pair: nat, rest: nat, j: nat, s: nat)
    requires j + s == 128 && rest < Pow2(j)
    ensures (pair * TWO128 + Shl(rest, s)) % TWO128 == Shl(rest, s)
  {
    Pow2Table();
    ShlRange(rest, s, j);
    Pow2Times(64, 64, TWO64, TWO64, TWO128);
    DivUnique(pair * TWO128 + Shl(rest, s), TWO128, pair, Shl(rest, s));
  }

  lemma PairJoin(t: nat, pair: nat, k: nat, low: nat, rest: nat, full: nat)
    requires k >= 2 && low == Shl(pair, k - 2) + rest && Shl(t, k) + low == full
    ensures Shl(4 * t + pair, k - 2) + rest == full
  {
    var p := Pow2(k - 2);
    ShlMultiplies(t, k);
    ShlMultiplies(pair, k - 2);
    ShlMultiplies(4 * t + pair, k - 2);
    Pow2Step(k - 2);
    Pow2Step(k - 1);
    Distribute(4 * t, pair, p);
    Assoc(t, 4, p);
  }

  /** `k` bits of the radicand `full` are left, left-aligned in `rad`; `t` is the part consumed. */
  ghost predicate Remaining(rad: nat, t: nat, low: nat, k: nat, full: nat) {
    k <= 128 && low < Pow2(k) && rad == Shl(low, 128 - k) && Shl(t, k) + low == full
  }

  lemma NextPair(rad: nat, t: nat, low: nat, k: nat, full: nat) returns (pair: nat, rest: nat)
    requires k >= 2 && Remaining(rad, t, low, k, full)
    ensures pair < 4 && pair == Shr(rad, 126)
    ensures Remaining(Shl(rad, 2) % TWO128, 4 * t + pair, rest, k - 2, full)
  {
    pair, rest := PairStep(low, k, rad);
    PairJoin(t, pair, k, low, rest, full);
  }

  lemma ShlSplit(hi: nat, lo: nat, j: nat, s: nat)
    requires j + s == 128
    ensures Shl(Shl(hi, j) + lo, s) == hi * TWO128 + Shl(lo, s)
  {
    Pow2Table();
    Pow2Times(64, 64, TWO64, TWO64, TWO128);
    ShlMultiplies(Shl(hi, j) + lo, s);
    ShlMultiplies(Shl(hi, j), s);
    ShlMultiplies(lo, s);
    ShlShl(hi, j, s);
    ShlMultiplies(hi, 128);
    Distribute(Shl(hi, j), lo, Pow2(s));
  }

  /** The two-limb registers never overflow: shifting left by at most 2 is exact on them. */
  lemma SmallShift(a: U128)
    requires Nat(a) < 0x1_0000_0000_0000_0000_0000
    ensures Nat(ShiftLeft(a, 1)) == 2 * Nat(a) && ShiftLeft(a, 1).lo % 2 == 0
    ensures Nat(ShiftLeft(a, 2)) == 4 * Nat(a) && ShiftLeft(a, 2).lo % 4 == 0
  {
    assert Shl(Nat(a), 0) == Nat(a) && Shl(Nat(a), 1) == 2 * Nat(a) && Shl(Nat(a), 2) == 4 * Nat(a);
    LowBitsClear(ShiftLeft(a, 1), Nat(a), 2);
    LowBitsClear(ShiftLeft(a, 2), Nat(a), 4);
  }

  lemma LowBitsClear(r: U128, n: nat, p: nat)
    requires p == 2 || p == 4
    requires n < 0x1_0000_0000_0000_0000_0000 && Nat(r) == (p * n) % TWO128
    ensures Nat(r) == p * n && r.lo % p == 0
  {
    DivUnique(p * n, TWO128, 0, p * n);
    assert r.lo == p * (n - r.hi * (TWO64 / p));
  }

  /** `isqrt_bits`: after `i` steps `root`^2 plus the remainder is the top 2i bits of the radicand,
      and the remainder is at most twice the root. */
  method IsqrtBits(radicand: U128, n: nat) returns (root: u64, rem: U128)
    requires n < 64 && Nat(radicand) < Pow2(2 * n)
    ensures Extracted(Nat(radicand), root, Nat(rem), n)
  {
    var rad := ShiftLeft(radicand, 128 - 2 * n);
    Aligned(Nat(radicand), n, Shl(Nat(radicand), 128 - 2 * n));
    var root128;
    root128, rem := ExtractRoot(rad, n, Nat(radicand));
    RootFits(Nat(root128), n);
    LowWord(root128);
    root := root128.lo;
  }

  method ExtractRoot(rad0: U128, n: nat, ghost radicand: nat) returns (root: U128, rem: U128)
    requires n < 64
    requires Remaining(Nat(rad0), 0, Shl(radicand, 128 - 2 * n), 128, Shl(radicand, 128 - 2 * n))
    ensures Extracted(radicand, Nat(root), Nat(rem), n)
  {
    ghost var full := Shl(radicand, 128 - 2 * n);
    ghost var t: nat, low: nat, k: nat := 0, full, 128;
    var rad := rad0;
    root, rem := U128(0, 0), U128(0, 0);
    Pow2Zero();
    for i := 0 to n
      invariant k == 128 - 2 * i && Remaining(Nat(rad), t, low, k, full)
      invariant Extracted(t, Nat(root), Nat(rem), i)
    {
      ghost var p, rest := NextPair(Nat(rad), t, low, k, full);
      var pair := ShiftRight(rad, 126).lo % 4;
      SmallPair(ShiftRight(rad, 126));
      root, rem := Digit(root, rem, pair, i, t);
      rad := ShiftLeft(rad, 2);
      t, low, k := 4 * t + p, rest, k - 2;
    }
    AllConsumed(t, low, k, radicand);
  }

  lemma LowWord(a: U128)
    ensures Nat(a) < TWO64 ==> a.lo == Nat(a)
  {
  }

  lemma SmallPair(a: U128)
    ensures Nat(a) < 4 ==> a.lo % 4 == Nat(a)
  {
  }

  /** The body of the loop on the two registers. */
  method Digit(root0: U128, rem0: U128, pair: nat, ghost i: nat, ghost t: nat) returns (root: U128, rem: U128)
    requires pair < 4 && i < 64 && Extracted(t, Nat(root0), Nat(rem0), i)
    ensures Extracted(4 * t + pair, Nat(root), Nat(rem), i + 1)
  {
    NextDigit(t, Nat(root0), Nat(rem0), i, pair);
    RootFits(Nat(root0), i);
    SmallShift(rem0);
    SmallShift(root0);
    rem := OrLow(ShiftLeft(rem0, 2), pair);
    var test := OrLow(ShiftLeft(root0, 2), 1);
    if !Less(rem, test) {
      rem := Sub(rem, test);
      root := OrLow(ShiftLeft(root0, 1), 1);
    } else {
      root := ShiftLeft(root0, 1);
    }
  }

  /** ORing a pair of bits into a number that is a multiple of 4 (or a bit into an even one) adds it. */
  function OrLow(a: U128, bits: nat): (r: U128)
    requires bits < 4 && (a.lo % 4 == 0 || (bits == 1 && a.lo % 2 == 0))
    ensures Nat(r) == Nat(a) + bits
  {
    U128(a.hi, a.lo + bits)
  }

  lemma ShlZero(k: nat)
    ensures Shl(0, k) == 0
  {
    ShlMultiplies(0, k);
  }

  lemma RootFits(root: nat, i: nat)
    requires root < Pow2(i) && i <= 64
    ensures root < TWO64
  {
    Pow2Table();
    Pow2Mono(i, 64);
  }

  lemma Aligned(r: nat, n: nat, full: nat)
    requires n < 64 && r < Pow2(2 * n) && full == Shl(r, 128 - 2 * n)
    ensures Remaining(full % TWO128, 0, full, 128, full)
  {
    Pow2Table();
    Pow2Times(64, 64, TWO64, TWO64, TWO128);
    ShlRange(r, 128 - 2 * n, 2 * n);
    DivUnique(full, TWO128, 0, full);
    ShlZero(128);
    assert Shl(full, 0) == full;
  }

  lemma AllConsumed(t: nat, low: nat, k: nat, r: nat)
    requires low < Pow2(k) && Shl(t, k) + low == Shl(r, k)
    ensures t == r
  {
    ShlMultiplies(t, k);
    ShlMultiplies(r, k);
    Distribute(0, t, Pow2(k));
    if t < r {
      MulMono(t + 1, r, Pow2(k));
    } else if r < t {
      MulStrict(r, t, Pow2(k));
    }
  }

  // ----- square root -----

  /** Section 5.4.1 of IEEE 754-2008: square root. */
  ghost function SquareRoot(mode: Mode, a: u64): Outcome {
    if IsNan(a) then Outcome(Quieted(a), if IsSnan(a) then {Invalid} else {})
    else if IsZero(a) then Outcome(a, {})
    else if Negative(a) then Outcome(CANONICAL_NAN, {Invalid})
    else if IsInf(a) then Outcome(a, {})
    else
      DecodeNonNegative(F64, Code(a));
      RoundSigned(mode, false, Root(Value(a)))
  }

  /** A finite nonzero operand as a 53-bit significand with its unbiased exponent. */
  method Normalise(b: u64) returns (mant: u64, exp: int)
    requires IsFinite(b) && !IsZero(b)
    ensures IMPLICIT <= mant < 2 * IMPLICIT && -1074 <= exp <= 1023
    ensures Magnitude(b) == Dyadic(mant, exp - 52)
  {
    var rawExp: int, frac := ExtractExp(b), ExtractFrac(b);
    Pow2Table();
    if rawExp == 0 {
      var shift;
      mant, shift := NormaliseSubnormal(frac);
      exp := -1022 - shift;
      DecodeGrid(F64, frac, 0, frac);
      ShlMultiplies(frac, shift);
      DyadicShift(frac, -1074 - shift, shift);
      if shift > 52 {
        ShlRange(frac, shift, 0);
        Pow2Mono(53, shift);
      }
    } else {
      mant := frac + IMPLICIT;
      exp := rawExp - 1023;
      DecodeGrid(F64, mant, rawExp - 1, Code(b));
    }
  }

  /** A radicand of 107 or 108 bits has a root of 54 bits. */
  lemma RootRange(root: nat, rem: nat, r: nat)
    requires root * root + rem == r && rem <= 2 * root
    requires 4 * (IMPLICIT * IMPLICIT) <= r < 16 * (IMPLICIT * IMPLICIT)
    ensures 2 * IMPLICIT <= root < 4 * IMPLICIT
  {
    var p := IMPLICIT;
    if root < 2 * p {
      MulMono(root, 2 * p - 1, root);
      MulMono(root, 2 * p - 1, 2 * p - 1);
    }
    if root >= 4 * p {
      MulMono(4 * p, root, root);
    }
  }

  /** The radicand of `sqrt_r_impl`: 54 or 55 zero bits after the significand. */
  lemma Radicand(mant: nat, shift: nat, hi: nat, lo: nat)
    requires IMPLICIT <= mant < 2 * IMPLICIT && (shift == 54 || shift == 55)
    requires hi == Shr(mant, 64 - shift) && lo == ShlWord(mant, shift)
    ensures hi < TWO64 && hi * TWO64 + lo == Shl(mant, shift)
    ensures Shl(mant, shift) == mant * (if shift == 54 then 4 * IMPLICIT else 8 * IMPLICIT)
    ensures Pow2(108) == 16 * (IMPLICIT * IMPLICIT)
  {
    Pow2Table();
    ShlWordSplit(mant, shift);
    ShrJamBound(mant, 64 - shift);
    ShlMultiplies(mant, shift);
    Pow2Step(53);
    Pow2Step(54);
    Pow2Times(52, 52, IMPLICIT, IMPLICIT, IMPLICIT * IMPLICIT);
    Pow2Times(104, 4, IMPLICIT * IMPLICIT, 0x10, 16 * (IMPLICIT * IMPLICIT));
  }

  /** The exact result in terms of the radicand. */
  lemma RadicandValue(mant: nat, exp: int, shift: nat, half: int)
    requires shift == 54 || shift == 55
    requires exp == 2 * half + (shift - 54)
    ensures Dyadic(mant, exp - 52) == Dyadic(Shl(mant, shift), 2 * (half - 53))
  {
    ShlMultiplies(mant, shift);
    DyadicShift(mant, 2 * (half - 53), shift);
  }

  /** The 54-bit root rounds at its last bit. */
  lemma RootRounded(mode: Mode, root: nat, rem: nat, r: nat, half: int, rounded: nat)
    requires root * root + rem == r && rem <= 2 * root
    requires 2 * IMPLICIT <= root < 4 * IMPLICIT && -537 <= half <= 511
    requires rounded == root / 2
               + if ShouldRoundUp(false, root % 2 != 0, rem != 0, root / 2 % 2 != 0, mode) then 1 else 0
    ensures Dyadic(r, 2 * (half - 53)) >= 0.0
    ensures RoundSigned(mode, false, Root(Dyadic(r, 2 * (half - 53))))
         == Outcome(Bits(false, rounded + (half + 1022) * IMPLICIT),
                    if root % 2 == 0 && rem == 0 then {} else {Inexact})
  {
    FormatConstants();
    var x := Root(Dyadic(r, 2 * (half - 53)));
    DyadicPositive(r, 2 * (half - 53));
    RootCell(root, rem, r, half - 53);
    var c := rounded + (half + 1022) * IMPLICIT;
    RoundPacked(F64, mode, false, x, root, rem == 0, half + 1022, c);
    RoundSignedIs(mode, false, x, c);
  }

  /** `sf64_sqrt_r`. */
  method SqrtR(mode: Mode, a: u64, fe: FeAcc) returns (r: u64)
    modifies fe
    ensures r == SquareRoot(mode, a).bits && fe.bits == old(fe.bits) + SquareRoot(mode, a).flags
  {
    if ExtractExp(a) == EXP_MAX {
      if ExtractFrac(a) != 0 {
        if IsSnan(a) {
          fe.Raise({Invalid});
        }
        return Quieted(a);
      }
      InfIsNotZero(a);
      if Negative(a) {
        fe.Raise({Invalid});
        return CANONICAL_NAN;
      }
      return a;
    }
    if IsZero(a) {
      return a;
    }
    if Negative(a) {
      fe.Raise({Invalid});
      return CANONICAL_NAN;
    }
    var root, rem, half, radicand := IntegerRoot(a);
    r := RoundRoot(mode, root, rem, half, fe, radicand);
  }

  /** The 54-bit integer root of a finite nonzero operand's significand, and the exponent it stands at. */
  method IntegerRoot(a: u64) returns (root: u64, rem: U128, half: int, ghost radicand: nat)
    requires IsFinite(a) && !IsZero(a)
    ensures root * root + Nat(rem) == radicand && Nat(rem) <= 2 * root
    ensures 2 * IMPLICIT <= root < 4 * IMPLICIT && -537 <= half <= 511
    ensures Magnitude(a) == Dyadic(radicand, 2 * (half - 53))
  {
    var mant, exp := Normalise(a);
    var odd := exp % 2 != 0;
    half := if odd then (exp - 1) / 2 else exp / 2;
    var shift := if odd then 55 else 54;
    var rad := U128(Shr54(mant, shift), ShlWord(mant, shift));
    Radicand(mant, shift, rad.hi, rad.lo);
    RadicandValue(mant, exp, shift, half);
    root, rem := IsqrtBits(rad, 54);
    RootRange(root, Nat(rem), Nat(rad));
    radicand := Nat(rad);
  }

  function Shr54(mant: u64, shift: nat): (r: u64)
    requires 54 <= shift <= 55
    ensures r == Shr(mant, 64 - shift)
  {
    ShrJamBound(mant, 64 - shift);
    Shr(mant, 64 - shift)
  }

  /** Rounds the 54-bit root to 53 bits; the defensive range clamps of the source are never taken. */
  method RoundRoot(mode: Mode, root: u64, rem: U128, half: int, fe: FeAcc, ghost radicand: nat) returns (r: u64)
    requires root * root + Nat(rem) == radicand && Nat(rem) <= 2 * root
    requires 2 * IMPLICIT <= root < 4 * IMPLICIT && -537 <= half <= 511
    modifies fe
    ensures Dyadic(radicand, 2 * (half - 53)) >= 0.0
    ensures var spec := RoundSigned(mode, false, Root(Dyadic(radicand, 2 * (half - 53))));
            r == spec.bits && fe.bits == old(fe.bits) + spec.flags
  {
    var guard := root % 2 != 0;
    var root53 := root / 2;
    var sticky := Nat(rem) != 0;
    var rounded := root53;
    if ShouldRoundUp(false, guard, sticky, root53 % 2 != 0, mode) {
      rounded := root53 + 1;
    }
    RootRounded(mode, root, Nat(rem), radicand, half, rounded);
    if guard || sticky {
      fe.Raise({Inexact});
    }
    var biased := half + 1023;
    CarryFields(rounded);
    if rounded / (2 * IMPLICIT) % 2 != 0 {
      rounded := rounded / 2;
      biased := biased + 1;
    }
    if biased >= 0x7FF || biased <= 0 {
      assert false;
    }
    r := Pack(false, biased, rounded % IMPLICIT);
  }
}
