/** Rounding to integers and the exact remainder of src/fp256/soft_f256.cpp. */
module Remainder256 {
  import opened Powers
  import opened Shifts
  import opened Rounding
  import opened Cells
  import opened ExactResults
  import opened Words
  import opened BigUint
  import opened Fenv
  import opened Integers
  import opened Remainders
  import opened Binary256
  import opened Pack256
  import opened Add256
  import opened Arithmetic256

  // ----- exact results -----

  /** 237 bits at a scale in range are below infinity. */
  lemma BelowInfinity(n: nat, e: int, c: nat)
    requires n < Pow2(237) && e <= BIAS - 236 && Decode(F256, c) == Dyadic(n, e)
    ensures c < F256.InfCode()
  {
    var p := Pow2(236);
    Pow2Step(236);
    Distribute1(0x7FFFE, p);
    DecodeGrid(F256, p, 0x7FFFE, F256.InfCode());
    DyadicTwice(p, BIAS - 236);
    DyadicMono(n, 2 * p, e);
    DyadicShift(2 * p, e, BIAS - 236 - e);
    MulMono(1, Pow2(BIAS - 236 - e), 2 * p);
    if 2 * p < 2 * p * Pow2(BIAS - 236 - e) {
      DyadicMono(2 * p, 2 * p * Pow2(BIAS - 236 - e), e);
    }
    if F256.InfCode() < c {
      DecodeMono(F256, F256.InfCode(), c);
    }
  }

  /** Packing a representable value returns it, without flags, in every mode. */
  method PackExact(sign: bool, mag: Big8, scale: int, mode: Mode, fe: FeAcc, ghost k: int) returns (r: Word256)
    requires Value(mag) < Pow2(237) && scale <= BIAS - 236 && Dyadic(Value(mag), scale) == Dyadic(k, F256.e0)
    modifies fe
    ensures Negative(r) == sign && IsFinite(r) && Magnitude(r) == Dyadic(Value(mag), scale)
    ensures fe.bits == old(fe.bits)
  {
    Pow2Step(236);
    ghost var c := MultipleCode(F256, Value(mag), scale, k);
    BelowInfinity(Value(mag), scale, c);
    DyadicPositive(Value(mag), scale);
    ExactCell(Value(mag), scale, Num(Dyadic(Value(mag), scale)), 0);
    RoundOfCode(mode, sign, c);
    r := PackScaled(sign, mag, scale, mode, fe, Num(Dyadic(Value(mag), scale)));
  }

  // ----- rounding to an integer -----

  /** A significand at a non-negative scale is an integer. */
  lemma WholeNumber(sig: nat, e: nat)
    requires sig < Pow2(237) && 237 + e <= 300000
    ensures Dyadic(sig, e) == Shl(sig, e) as real && Shl(sig, e) <= Pow2(300000)
  {
    ShlMultiplies(sig, e);
    DyadicShift(sig, 0, e);
    Units(Shl(sig, e));
    ShlRange(sig, e, 237);
    Pow2Mono(237 + e, 300000);
  }

  lemma WholeRounding(mode: Mode, neg: bool, sig: nat, e: nat, v: real)
    requires sig < Pow2(237) && 237 + e <= 300000 && v == Dyadic(sig, e)
    ensures v >= 0.0 && RoundInt(mode, neg, v) == Shl(sig, e) && Shl(sig, e) as real == v
  {
    WholeNumber(sig, e);
    RoundIntExact(mode, neg, Shl(sig, e));
  }

  /** `rounded_integer`. */
  method RoundedInteger(d: Decoded, mode: Mode, ghost v: real) returns (mag: Big8, inexact: bool)
    requires Value(d.sig) < Pow2(237) && v == Dyadic(Value(d.sig), d.exponent - 236) && d.exponent <= BIAS
    ensures v >= 0.0 && Value(mag) == RoundInt(mode, d.sign, v) % Width(8)
    ensures d.exponent <= 511 ==> Value(mag) == RoundInt(mode, d.sign, v)
    ensures inexact <==> RoundInt(mode, d.sign, v) as real != v
    ensures d.exponent < 236 ==> Value(mag) <= Pow2(236)
  {
    if d.exponent >= 236 {
      WholeRounding(mode, d.sign, Value(d.sig), d.exponent - 236, v);
      WholeFits(Value(d.sig), d.exponent - 236);
      mag := ShlLimbs(d.sig, d.exponent - 236);
      inexact := false;
    } else {
      mag, inexact := DropFraction(d, 236 - d.exponent, mode, v);
      Pow2Mono(236, 512);
      FitsBig(Value(mag), 512);
    }
  }

  lemma WholeFits(sig: nat, e: nat)
    requires sig < Pow2(237)
    ensures e <= 275 ==> Shl(sig, e) % Width(8) == Shl(sig, e)
  {
    if e <= 275 {
      ShlRange(sig, e, 237);
      Pow2Mono(237 + e, 512);
      FitsBig(Shl(sig, e), 512);
    }
  }

  method DropFraction(d: Decoded, shift: nat, mode: Mode, ghost v: real) returns (mag: Big8, inexact: bool)
    requires Value(d.sig) < Pow2(237) && v == Dyadic(Value(d.sig), d.exponent - 236)
    requires shift >= 1 && d.exponent - 236 + shift == 0
    ensures v >= 0.0 && Value(mag) == RoundInt(mode, d.sign, v) && Value(mag) <= Pow2(236)
    ensures inexact <==> RoundInt(mode, d.sign, v) as real != v
  {
    ShiftedBelow(Value(d.sig), shift);
    RoundIntShifted(mode, d.sign, Value(d.sig), d.exponent - 236, shift, v);
    mag := ShrLimbs(d.sig, shift);
    var guard := shift > 0 && BitAt(d.sig, shift - 1);
    var low := AnyLowLimbs(d.sig, shift - 1);
    var sticky := shift > 1 && low;
    assert !AnyLow(Value(d.sig), 0);
    assert Shr(Value(mag), 0) == Value(mag);
    inexact := guard || sticky;
    mag := Bump(mag, RoundUp(d.sign, guard, sticky, BitAt(mag, 0), mode));
  }

  method Bump(mag: Big8, up: bool) returns (r: Big8)
    requires Value(mag) < Pow2(236)
    ensures Value(r) == Value(mag) + if up then 1 else 0
  {
    r := mag;
    if up {
      RoomAbove(Value(mag));
      var next, wrapped := Increment(mag);
      r := next;
    }
  }

  lemma ShiftedBelow(sig: nat, shift: nat)
    requires sig < Pow2(237) && shift >= 1
    ensures Shr(sig, shift) < Pow2(236) <= Pow2(300000)
  {
    Pow2Mono(236, 300000);
    ShrShr(sig, 1, shift - 1);
    ShrRange(sig, 1, 237);
    ShrJamBound(Shr(sig, 1), shift - 1);
  }

  lemma RoomAbove(n: nat)
    requires n < Pow2(236)
    ensures (n + 1) % Width(8) == n + 1
  {
    Pow2Mono(236, 512);
    DivUnique(n + 1, Width(8), 0, n + 1);
  }

  /** `r` is the integer that `x` rounds to, under the sign of `x`. */
  ghost predicate IntegerOf(mode: Mode, x: Word256, r: Word256) {
    && Magnitude(x) >= 0.0 && IsFinite(r) && Negative(r) == Negative(x)
    && Magnitude(r) == RoundInt(mode, Negative(x), Magnitude(x)) as real
  }

  /** `rint_impl`: the integer the mode demands, with the sign of the operand. */
  method RintImpl(mode: Mode, x: Word256, fe: FeAcc) returns (r: Word256)
    modifies fe
    ensures IsNan(x) ==> Encodes(r, Outcome(Negative(x), QuietedCode(Code(x)), {}))
                         && fe.bits == old(fe.bits) + if IsSnan(x) then {Invalid} else {}
    ensures IsInf(x) ==> r == x && fe.bits == old(fe.bits)
    ensures IsFinite(x) ==> IntegerOf(mode, x, r)
    ensures IsFinite(x) ==> fe.bits == old(fe.bits) + if Magnitude(r) == Magnitude(x) then {} else {Inexact}
  {
    var d := DecodeWord(x);
    if d.nan {
      if d.snan {
        fe.Raise({Invalid});
      }
      r := QuietNan(x);
      return;
    }
    FiniteCodes(x);
    if d.inf || d.zero || d.exponent >= 236 {
      if IsFinite(x) {
        AlreadyInteger(mode, x, d);
      }
      return x;
    }
    var mag, inexact := RoundedInteger(d, mode, Magnitude(x));
    if inexact {
      fe.Raise({Inexact});
    }
    Pow2Mono(236, 237);
    Units(Value(mag));
    DyadicShift(Value(mag), F256.e0, 262378);
    r := PackExact(d.sign, mag, 0, RNE, fe, Value(mag) * Pow2(262378));
  }

  lemma AlreadyInteger(mode: Mode, x: Word256, d: Decoded)
    requires IsFinite(x) && Decodes(x, d) && (IsZero(x) || d.exponent >= 236) && Magnitude(x) >= 0.0
    ensures RoundInt(mode, Negative(x), Magnitude(x)) as real == Magnitude(x)
  {
    if IsZero(x) {
      FiniteCodes(x);
      RoundIntExact(mode, Negative(x), 0);
    } else {
      WholeRounding(mode, Negative(x), Value(d.sig), d.exponent - 236, Magnitude(x));
    }
  }

  // ----- remainder -----

  /** The loop of `remainder_impl`: long division that keeps the remainder and the quotient's parity. */
  method LongDivide(a: Big8, b: Big8, difference: nat) returns (rem: Big8, odd: bool, ghost q: nat)
    requires Pow2(236) <= Value(a) < Pow2(237) && Pow2(236) <= Value(b) < Pow2(237)
    ensures Shl(Value(a), difference) == q * Value(b) + Value(rem) && Value(rem) < Value(b)
    ensures odd <==> q % 2 == 1
  {
    rem, odd, q := a, false, 0;
    Pow2Step(236);
    assert Shl(Value(a), 0) == Value(a);
    for i := difference + 1 downto 0
      invariant i > 0 ==> Partial(Value(a), Value(b), difference + 1 - i, q, Value(rem))
      invariant i == 0 ==> Shl(Value(a), difference) == q * Value(b) + Value(rem) && Value(rem) < Value(b)
      invariant odd <==> q % 2 == 1
    {
      rem, odd, q := LongStep(rem, b, Value(a), difference - i, q);
      if i != 0 {
        NextBit(Value(a), Value(b), difference - i, q, Value(rem));
        rem := Twice(rem, 237);
      }
    }
  }

  method LongStep(rem0: Big8, b: Big8, ghost num: nat, ghost steps: nat, ghost qh: nat)
    returns (rem: Big8, odd: bool, ghost q: nat)
    requires Partial(num, Value(b), steps, qh, Value(rem0))
    ensures Shl(num, steps) == q * Value(b) + Value(rem) && Value(rem) < Value(b)
    ensures odd <==> q % 2 == 1
  {
    QuotientBit(num, Value(b), steps, qh, Value(rem0));
    rem, q := rem0, 2 * qh;
    var cmp := CompareLimbs(rem, b);
    odd := cmp >= 0;
    if odd {
      rem := SubExact(rem, b);
      q := 2 * qh + 1;
    }
  }

  /** `t` is the remainder of the magnitudes with quotient `n`. */
  ghost predicate Nearest(ma: real, mb: real, t: real, n: int) {
    t == ma - n as real * mb && 2.0 * Abs(t) <= mb && (2.0 * Abs(t) == mb ==> n % 2 == 0)
  }

  /** Operands with exponents at most one apart downwards: the division result, or its complement. */
  lemma DividedNearest(va: nat, vb: nat, e: int, d: nat, q: nat, rem: nat, complement: bool)
    requires Shl(va, d) == q * vb + rem && rem < vb
    requires complement <==> 2 * rem > vb || (2 * rem == vb && q % 2 == 1)
    ensures var u := if complement then Dyadic(vb - rem, e) else Dyadic(rem, e);
            && u >= 0.0
            && Nearest(Dyadic(va, e + d), Dyadic(vb, e),
                       if complement then -u else u, if complement then q + 1 else q)
  {
    DividedMultiple(va, vb, e, d, q, rem);
    DyadicAdd(vb, rem, e);
    Halves(rem, vb, e);
    if complement {
      OneMore(q, Dyadic(vb, e));
    }
  }

  lemma DividedMultiple(va: nat, vb: nat, e: int, d: nat, q: nat, rem: nat)
    requires Shl(va, d) == q * vb + rem
    ensures Dyadic(va, e + d) == q as real * Dyadic(vb, e) + Dyadic(rem, e)
  {
    ShlMultiplies(va, d);
    DyadicShift(va, e, d);
    DyadicAdd(q * vb, rem, e);
    DyadicTimes(q, vb, e);
  }

  lemma OneMore(q: nat, v: real)
    ensures (q + 1) as real * v == q as real * v + v
  {
    RealDistribute(q as real, 1.0, v);
  }

  lemma Halves(rem: nat, vb: nat, e: int)
    requires rem < vb
    ensures 0.0 <= Dyadic(rem, e) < Dyadic(vb, e)
    ensures 2 * rem > vb ==> 2.0 * Dyadic(rem, e) > Dyadic(vb, e)
    ensures 2 * rem < vb ==> 2.0 * Dyadic(rem, e) < Dyadic(vb, e)
    ensures 2 * rem == vb ==> 2.0 * Dyadic(rem, e) == Dyadic(vb, e)
  {
    DyadicPositive(rem, e);
    DyadicMono(rem, vb, e);
    DyadicAdd(rem, rem, e);
    assert Dyadic(2 * rem, e) == 2.0 * Dyadic(rem, e);
    if 2 * rem > vb {
      DyadicMono(vb, 2 * rem, e);
    } else if 2 * rem < vb {
      DyadicMono(2 * rem, vb, e);
    }
  }

  /** The dividend one binade below the divisor: itself, or one divisor less. */
  lemma HalfNearest(va: nat, vb: nat, e: int, complement: bool)
    requires va < 2 * vb && (complement <==> va > vb)
    ensures var u := if complement then Dyadic(2 * vb - va, e) else Dyadic(va, e);
            && u >= 0.0
            && Nearest(Dyadic(va, e), Dyadic(vb, e + 1),
                       if complement then -u else u, if complement then 1 else 0)
  {
    DyadicTwice(vb, e);
    DyadicAdd(2 * vb, va, e);
    DyadicAdd(vb, vb, e);
    DyadicPositive(va, e);
    Halves(va, 2 * vb, e);
  }

  /** A smaller dividend is its own remainder. */
  lemma SmallNearest(a: Word256, ea: int, sa: nat, b: Word256, eb: int, sb: nat)
    requires Unpacked(a, ea, sa) && Unpacked(b, eb, sb) && ea - eb <= -2
    ensures Nearest(Magnitude(a), Magnitude(b), Magnitude(a), 0)
  {
    Binade(a, ea, sa);
    Binade(b, eb, sb);
    DyadicPositive(1, ea);
    DyadicUnits(ea + 2, eb - (ea + 2));
    DyadicTwice(1, ea + 1);
    DyadicAdd(1, 1, ea + 1);
  }

  /** What the remainder of finite operands must be. */
  ghost predicate IsRemainder(a: Word256, b: Word256, r: Word256) {
    && IsFinite(r) && NearestRemainder(Real(a), Real(b), Real(r))
    && (IsZero(r) ==> Negative(r) == Negative(a))
  }

  method PackRemainder(a: Word256, b: Word256, rem: Big8, scale: int, complement: bool, fe: FeAcc, ghost n: int)
    returns (r: Word256)
    requires Value(rem) < Pow2(237) && scale <= BIAS - 236
    requires var u := Dyadic(Value(rem), scale);
             && u >= 0.0
             && Nearest(Magnitude(a), Magnitude(b), if complement then -u else u, n)
             && (complement ==> Value(rem) > 0)
    modifies fe
    ensures IsRemainder(a, b, r) && fe.bits == old(fe.bits)
  {
    ghost var u := Dyadic(Value(rem), scale);
    ghost var k := QuantumMultiple(F256, Code(a), Code(b), n);
    FiniteCodes(b);
    DyadicPositive(Value(rem), scale);
    SignedNearest(Negative(a), Magnitude(a), Negative(b), Magnitude(b), if complement then -u else u, n);
    var sign := if complement then !Negative(a) else Negative(a);
    r := PackExact(sign, rem, scale, RNE, fe, if complement then -k else k);
    FiniteCodes(r);
  }

  /** `remainder_impl` on finite operands, the divisor nonzero. */
  method RemainderFinite(a: Word256, b: Word256, da: Decoded, db: Decoded, fe: FeAcc) returns (r: Word256)
    requires IsFinite(a) && IsFinite(b) && !IsZero(a) && !IsZero(b) && Decodes(a, da) && Decodes(b, db)
    modifies fe
    ensures IsRemainder(a, b, r) && fe.bits == old(fe.bits)
  {
    var difference := da.exponent - db.exponent;
    if difference >= 0 {
      r := RemainderAbove(a, b, da, db, difference, fe);
    } else if difference == -1 {
      r := RemainderHalf(a, b, da, db, fe);
    } else {
      SmallNearest(a, da.exponent, Value(da.sig), b, db.exponent, Value(db.sig));
      SignedNearest(Negative(a), Magnitude(a), Negative(b), Magnitude(b), Magnitude(a), 0);
      return a;
    }
  }

  method RemainderAbove(a: Word256, b: Word256, da: Decoded, db: Decoded, difference: nat, fe: FeAcc)
    returns (r: Word256)
    requires Unpacked(a, da.exponent, Value(da.sig)) && Unpacked(b, db.exponent, Value(db.sig))
    requires difference == da.exponent - db.exponent
    modifies fe
    ensures IsRemainder(a, b, r) && fe.bits == old(fe.bits)
  {
    var rem, odd, q := LongDivide(da.sig, db.sig, difference);
    var twice := Twice(rem, 237);
    var half := CompareLimbs(twice, db.sig);
    var complement := half > 0 || (half == 0 && odd);
    DividedNearest(Value(da.sig), Value(db.sig), db.exponent - 236, difference, q, Value(rem), complement);
    if complement {
      rem := SubExact(db.sig, rem);
    }
    r := PackRemainder(a, b, rem, db.exponent - 236, complement, fe, if complement then q + 1 else q);
  }

  method RemainderHalf(a: Word256, b: Word256, da: Decoded, db: Decoded, fe: FeAcc) returns (r: Word256)
    requires Unpacked(a, da.exponent, Value(da.sig)) && Unpacked(b, db.exponent, Value(db.sig))
    requires da.exponent - db.exponent == -1
    modifies fe
    ensures IsRemainder(a, b, r) && fe.bits == old(fe.bits)
  {
    Pow2Step(236);
    var half := CompareLimbs(da.sig, db.sig);
    HalfNearest(Value(da.sig), Value(db.sig), da.exponent - 236, half > 0);
    var rem := da.sig;
    if half > 0 {
      var divisor := Twice(db.sig, 237);
      rem := SubExact(divisor, rem);
    }
    r := PackRemainder(a, b, rem, da.exponent - 236, half > 0, fe, if half > 0 then 1 else 0);
  }

  /** `remainder_impl`: section 5.3.1 of IEEE 754-2008, exact for every exponent gap. */
  method RemainderImpl(a: Word256, b: Word256, fe: FeAcc) returns (r: Word256)
    modifies fe
    ensures IsNan(a) || IsNan(b) ==> Encodes(r, NanResult(a, b)) && fe.bits == old(fe.bits) + NanResult(a, b).flags
    ensures !IsNan(a) && !IsNan(b) && (IsInf(a) || IsZero(b)) ==>
              Encodes(r, InvalidResult()) && fe.bits == old(fe.bits) + {Invalid}
    ensures IsFinite(a) && IsInf(b) ==> r == a && fe.bits == old(fe.bits)
    ensures IsFinite(a) && IsFinite(b) && !IsZero(b) ==> IsRemainder(a, b, r) && fe.bits == old(fe.bits)
  {
    InfPositive();
    var da := DecodeWord(a);
    var db := DecodeWord(b);
    if da.nan || db.nan {
      r := PropagateNan(a, b, da, db, fe);
      return;
    }
    if da.inf || db.zero {
      fe.Raise({Invalid});
      r := DefaultNan();
      return;
    }
    if da.zero || db.inf {
      ZeroDividend(a, b);
      return a;
    }
    r := RemainderFinite(a, b, da, db, fe);
  }

  lemma ZeroDividend(a: Word256, b: Word256)
    ensures IsZero(a) && IsFinite(a) ==> IsRemainder(a, b, a) || IsZero(b)
  {
    FiniteCodes(a);
    FiniteCodes(b);
    SignedNearest(Negative(a), 0.0, Negative(b), Magnitude(b), 0.0, 0);
  }
}
