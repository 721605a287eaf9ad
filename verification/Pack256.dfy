/** Rounding of extended significands in src/fp256/soft_f256.cpp: `pack_extended` on three extra bits
    and `pack_scaled` on any 512-bit magnitude. */
module Pack256 {
  import opened Powers
  import opened Shifts
  import opened Rounding
  import opened Cells
  import opened Frames
  import opened Words
  import opened BigUint
  import opened Fenv
  import opened Binary256

  /** `round_up`, which looks at the dropped bits first. */
  predicate RoundUp(sign: bool, guard: bool, sticky: bool, odd: bool, mode: Mode)
    ensures RoundUp(sign, guard, sticky, odd, mode) <==> ShouldRoundUp(sign, guard, sticky, odd, mode)
  {
    if !guard && !sticky then false
    else match mode
      case RTZ => false
      case RUP => !sign
      case RDN => sign
      case RNA => guard
      case RNE => guard && (sticky || odd)
  }

  /** 512 bits leave room. */
  lemma FitsBig(n: nat, k: nat)
    requires k <= 512 && n < Pow2(k)
    ensures n % Width(8) == n && n < Width(8)
  {
    Pow2Mono(k, 512);
    DivUnique(n, Width(8), 0, n);
  }

  /** Limb operations whose result fits. */
  method ShlExact(a: Big8, shift: nat, ghost k: nat) returns (r: Big8)
    requires k <= 512 && Shl(Value(a), shift) < Pow2(k)
    ensures Value(r) == Shl(Value(a), shift)
  {
    FitsBig(Shl(Value(a), shift), k);
    r := ShlLimbs(a, shift);
  }

  method AddExact(a: Big8, b: Big8, ghost k: nat) returns (r: Big8)
    requires k <= 512 && Value(a) + Value(b) < Pow2(k)
    ensures Value(r) == Value(a) + Value(b)
  {
    FitsBig(Value(a) + Value(b), k);
    r := AddLimbs(a, b);
  }

  method SubExact(a: Big8, b: Big8) returns (r: Big8)
    requires Value(a) >= Value(b)
    ensures Value(r) == Value(a) - Value(b)
  {
    ValueBound(a);
    FitsBig(Value(a) - Value(b), 512);
    r := SubLimbs(a, b);
  }

  /** Drops the three extra bits and rounds; shared by `pack_extended` and `to_f64_impl`. */
  method RoundExtended(sign: bool, ext: Big8, mode: Mode) returns (sig: Big8, inexact: bool)
    ensures var v := Value(ext);
            var up := ShouldRoundUp(sign, Bit(v, 2), Bit(v, 1) || Bit(v, 0), Bit(Shr(v, 3), 0), mode);
            Value(sig) == Shr(v, 3) + if up then 1 else 0
    ensures inexact <==> Bit(Value(ext), 2) || Bit(Value(ext), 1) || Bit(Value(ext), 0)
  {
    var guard := BitAt(ext, 2);
    var sticky := BitAt(ext, 1) || BitAt(ext, 0);
    sig := ShrLimbs(ext, 3);
    inexact := guard || sticky;
    if RoundUp(sign, guard, sticky, BitAt(sig, 0), mode) {
      ValueBound(ext);
      ThirdRoom(Value(ext), Width(8));
      DivUnique(Value(sig) + 1, Width(8), 0, Value(sig) + 1);
      var next, wrapped := Increment(sig);
      sig := next;
    }
  }

  lemma ThirdRoom(v: nat, w: nat)
    requires v < w && w >= 2
    ensures Shr(v, 3) + 1 < w
  {
    assert Shr(v, 0) == v && Shr(v, 1) == v / 2 && Shr(v, 2) == v / 2 / 2 && Shr(v, 3) == v / 2 / 2 / 2;
  }

  method ShouldBeInf(mode: Mode, sign: bool) returns (toInf: bool)
    ensures toInf <==> !TowardZero(mode, sign)
  {
    toInf := mode == RNE || mode == RNA || (mode == RUP && !sign) || (mode == RDN && sign);
  }

  lemma BitTop(n: nat, k: nat)
    requires n < Pow2(k + 1)
    ensures Bit(n, k) <==> n >= Pow2(k)
  {
    Pow2Table();
    ShrRange(n, k, k);
    ShrRange(n, k, k + 1);
  }

  /** What a code says about its significand `n` at quantum `q`. */
  lemma CodeRange(n: nat, q: nat, p: nat)
    requires n < 2 * p && (q == 0 || p <= n)
    ensures n + q * p >= 0x7FFFF * p <==> q > 524285
    ensures n + q * p < p <==> q == 0 && n < p
    ensures n >= p ==> n + q * p == (n - p) + (q + 1) * p
  {
    Distribute1(q, p);
    if q > 524285 {
      MulMono(524287, q + 1, p);
    } else {
      MulMono(q, 524285, p);
    }
    if q > 0 {
      MulMono(1, q, p);
    }
  }

  lemma MaxFraction(f: Big8)
    requires f == [0xFFFF_FFFF_FFFF_FFFF, 0xFFFF_FFFF_FFFF_FFFF, 0xFFFF_FFFF_FFFF_FFFF, TWO44 - 1, 0, 0, 0, 0]
    ensures Value(f) == Pow2(236) - 1
  {
    assert Digits(64, f[..3]) == Pow2(192) - 1 by { AllOnes(f, 3); }
    assert Value(f) == Digits(64, f[..3]) + (TWO44 - 1) * Pow2(192) by {
      LowDigits(f, 3);
      TrailingZeros(f, 4);
    }
    Pow2Field();
    Distribute(TWO44, 1, Pow2(192));
  }

  lemma {:induction false} TrailingZeros(f: seq<u64>, n: nat)
    requires n <= |f| && forall i :: n <= i < |f| ==> f[i] == 0
    ensures Value(f) == Digits(64, f[..n])
    decreases |f| - n
  {
    LowDigits(f, n);
    if n < |f| {
      TrailingZeros(f, n + 1);
    }
  }

  lemma {:induction false} AllOnes(f: seq<u64>, n: nat)
    requires n <= |f| && forall i :: 0 <= i < n ==> f[i] == 0xFFFF_FFFF_FFFF_FFFF
    ensures Digits(64, f[..n]) == Pow2(64 * n) - 1
  {
    if n == 0 {
      Pow2Zero();
    } else {
      AllOnes(f, n - 1);
      LowDigits(f, n - 1);
      NextLimb(n - 1);
      Distribute(TWO64, 1, Pow2(64 * (n - 1)));
    }
  }

  /** An encoding with two zero limbs in the middle. */
  lemma ShortWord(b: Word256, low: u64, top: u64)
    requires b == [low, 0, 0, top] && top < TWO63
    ensures !Negative(b) && Code(b) == low + top * Pow2(192)
  {
    var s := b[..3];
    assert s[..1] == [] + [low] && s[1] == 0 && s[2] == 0;
    TrailingZeros(s, 1);
    DigitsAppend(64, [], low);
    Pow2Zero();
  }

  /** The overflow result: infinity, or the largest finite number. */
  method Overflowed(sign: bool, mode: Mode) returns (r: Word256)
    ensures Negative(r) == sign
    ensures Code(r) == if TowardZero(mode, sign) then F256.InfCode() - 1 else F256.InfCode()
  {
    var toInf := ShouldBeInf(mode, sign);
    if toInf {
      r := InfValue(sign);
    } else {
      var max: Big8 := [0xFFFF_FFFF_FFFF_FFFF, 0xFFFF_FFFF_FFFF_FFFF, 0xFFFF_FFFF_FFFF_FFFF, TWO44 - 1, 0, 0, 0, 0];
      MaxFraction(max);
      Distribute1(0x7FFFF, Pow2(236));
      r := Raw(sign, EXP_MAX - 1, max);
    }
  }

  /** Clears the implicit bit. */
  method ClearImplicit(sig: Big8) returns (r: Big8)
    requires Pow2(236) <= Value(sig) < Pow2(237)
    ensures Value(r) == Value(sig) - Pow2(236)
  {
    ImplicitLimb(sig);
    r := sig[3 := sig[3] - TWO44];
  }

  lemma ImplicitLimb(sig: Big8)
    requires Pow2(236) <= Value(sig) < Pow2(237)
    ensures sig[3] >= TWO44
    ensures Value(sig[3 := sig[3] - TWO44]) == Value(sig) - Pow2(236)
  {
    assert sig[3] >= TWO44 by {
      BitTop(Value(sig), 236);
      BitOfLimb(sig, 236);
      LimbHolds(sig[3], 44);
      Pow2Limb();
    }
    var x: nat := sig[3] - TWO44;
    DigitsUpdate(64, sig, 3, x);
    Pow2Field();
    Dropped(Value(sig), Value(sig[3 := x]), sig[3], x, TWO44, Pow2(192));
  }

  lemma Dropped(v: int, v': int, w: int, x: int, k: int, p: int)
    requires v' == v + (x - w) * p && x == w - k
    ensures v' == v - k * p
  {
  }

  lemma LimbHolds(w: nat, b: nat)
    requires Bit(w, b)
    ensures w >= Pow2(b)
  {
    ShrDivides(w, b);
    MulMono(1, Shr(w, b), Pow2(b));
  }

  /** Encodes a rounded significand: 237 bits, one more after a carry, or fewer for a subnormal. */
  method FinishPack(sign: bool, sig0: Big8, exponent0: int, inexact: bool, mode: Mode, fe: FeAcc,
                    ghost x: Exact, ghost c: nat)
    returns (r: Word256)
    requires exponent0 >= EMIN && Value(sig0) <= Pow2(237)
    requires exponent0 == EMIN || Pow2(236) <= Value(sig0)
    requires c == Value(sig0) + (exponent0 - EMIN) * Pow2(236)
    requires x.v >= 0.0 && c == RoundCode(F256, mode, sign, x) && (inexact <==> !Is(Decode(F256, c), x))
    modifies fe
    ensures Encodes(r, RoundSigned(mode, sign, x))
    ensures fe.bits == old(fe.bits) + RoundSigned(mode, sign, x).flags
  {
    RoundSignedIs(mode, sign, x, c);
    var sig, exponent := CarryOut(sig0, exponent0);
    CodeRange(Value(sig), exponent - EMIN, Pow2(236));
    if exponent > BIAS {
      fe.Raise({Overflow, Inexact});
      r := Overflowed(sign, mode);
    } else {
      r := EncodeFinite(sign, sig, exponent, inexact, fe, c);
    }
  }

  /** A carry into bit 237 moves into the exponent. */
  method CarryOut(sig0: Big8, exponent0: int) returns (sig: Big8, exponent: int)
    requires Value(sig0) <= Pow2(237)
    ensures Value(sig) + (exponent - EMIN) * Pow2(236) == Value(sig0) + (exponent0 - EMIN) * Pow2(236)
    ensures Value(sig) < 2 * Pow2(236) == Pow2(237)
    ensures (sig == sig0 && exponent == exponent0) || (Pow2(236) <= Value(sig) && exponent == exponent0 + 1)
  {
    sig, exponent := sig0, exponent0;
    Pow2Step(236);
    Pow2Step(237);
    BitTop(Value(sig), 237);
    if BitAt(sig, 237) {
      assert Shr(Value(sig), 0) == Value(sig);
      Distribute1(exponent - EMIN, Pow2(236));
      sig := ShrLimbs(sig, 1);
      exponent := exponent + 1;
    }
  }

  method EncodeFinite(sign: bool, sig: Big8, exponent: int, inexact: bool, fe: FeAcc, ghost c: nat) returns (r: Word256)
    requires EMIN <= exponent <= BIAS && Value(sig) < Pow2(237)
    requires exponent == EMIN || Pow2(236) <= Value(sig)
    requires c == Value(sig) + (exponent - EMIN) * Pow2(236)
    modifies fe
    ensures Negative(r) == sign && Code(r) == c
    ensures fe.bits == old(fe.bits) + if !inexact then {} else if c < Pow2(236) then {Underflow, Inexact} else {Inexact}
  {
    Pow2Step(236);
    CodeRange(Value(sig), exponent - EMIN, Pow2(236));
    BitTop(Value(sig), 236);
    var subnormal := exponent == EMIN && !BitAt(sig, 236);
    if inexact {
      var flags := {Inexact};
      if subnormal {
        flags := flags + {Underflow};
      }
      fe.Raise(flags);
    }
    if subnormal {
      r := Raw(sign, 0, sig);
    } else {
      var fraction := ClearImplicit(sig);
      r := Raw(sign, exponent + BIAS, fraction);
    }
  }

  /** Jamming at least one place right. */
  lemma JamBelow(v: nat, s: nat, k: nat)
    requires v < Pow2(k + 1) && s >= 1 && k >= 1
    ensures ShrJam(v, s) < Pow2(k)
  {
    Pow2Step(k);
    Pow2Step(k - 1);
    ShrShr(v, 1, s - 1);
    ShrJamBound(Shr(v, 1), s - 1);
    assert Shr(v, 0) == v && Shr(v, 1) == v / 2;
  }

  lemma ExtRange(v: nat)
    ensures v < Pow2(240) ==> Shr(v, 3) < Pow2(237)
    ensures v >= Pow2(239) ==> Shr(v, 3) >= Pow2(236)
  {
    ShrRange(v, 3, 240);
    ShrRange(v, 3, 239);
  }

  /** A result below the normal range is shifted down to the smallest exponent. */
  method Denormalize(ext0: Big8, exponent0: int, ghost x: Exact) returns (ext: Big8, exponent: int)
    requires Pow2(239) <= Value(ext0) < Pow2(240) && SameCell(Value(ext0), exponent0 - 239, x, 2)
    ensures exponent >= EMIN && Value(ext) < Pow2(240) && SameCell(Value(ext), exponent - 239, x, 2)
    ensures exponent == EMIN || Pow2(239) <= Value(ext)
  {
    ext, exponent := ext0, exponent0;
    if exponent < EMIN {
      JamCell(Value(ext), exponent - 239, x, 2, EMIN - exponent, 2);
      JamBelow(Value(ext), EMIN - exponent, 239);
      Pow2Mono(239, 240);
      ext := JamLimbs(ext, EMIN - exponent);
      exponent := EMIN;
    }
  }

  /** `pack_extended`: `ext` holds 237 significant bits, a guard bit and two sticky bits. */
  method PackExtended(sign: bool, ext0: Big8, exponent0: int, mode: Mode, fe: FeAcc, ghost x: Exact)
    returns (r: Word256)
    requires Value(ext0) == 0 || Pow2(239) <= Value(ext0) < Pow2(240)
    requires x.v >= 0.0 && SameCell(Value(ext0), exponent0 - 239, x, 2)
    modifies fe
    ensures Encodes(r, RoundSigned(mode, sign, x))
    ensures fe.bits == old(fe.bits) + RoundSigned(mode, sign, x).flags
  {
    var empty := AllZero(ext0);
    if empty {
      ZeroExtended(mode, sign, x, exponent0 - 239);
      r := ZeroValue(sign);
      return;
    }
    var ext, exponent := Denormalize(ext0, exponent0, x);
    ExtRange(Value(ext));
    Pow2Step(236);
    var sig, inexact := RoundExtended(sign, ext, mode);
    RoundThree(F256, mode, sign, x, Value(ext), exponent - EMIN, Value(sig));
    r := FinishPack(sign, sig, exponent, inexact, mode, fe, x, Value(sig) + (exponent - EMIN) * Pow2(236));
  }

  lemma ZeroExtended(mode: Mode, sign: bool, x: Exact, e: int)
    requires x.v >= 0.0 && SameCell(0, e, x, 2)
    ensures RoundSigned(mode, sign, x) == Outcome(sign, 0, {})
  {
    ShrZero(2);
    DyadicZero(e + 2);
    DyadicZero(e);
    assert Shr(0, 0) == 0 && !AnyLow(0, 0);
    ZeroResult(mode, sign, x, e);
  }

  /** Up to a power of two that is exact, or known up to its last bit. */
  lemma ScaledUp(v: nat, e: int, x: Exact, msb: nat)
    requires Framed(238, v, e, x) && Pow2(msb) <= v < Pow2(msb + 1) && msb <= 239
    ensures Pow2(239) <= Shl(v, 239 - msb) < Pow2(240)
    ensures SameCell(Shl(v, 239 - msb), e - (239 - msb), x, 2)
  {
    var w := 239 - msb;
    ShlRange(v, w, msb);
    ShlRange(v, w, msb + 1);
    if SameCell(v, e, x, 0) {
      assert Shr(v, 0) == v && !AnyLow(v, 0);
      ShlMultiplies(v, w);
      DyadicShift(v, e - w, w);
      ExactCell(Shl(v, w), e - w, x, 2);
    } else {
      if msb < 238 {
        Pow2Mono(msb + 1, 238);
      }
      ShiftLeftCell(v, e, x, 1, w);
      Coarsen(Shl(v, w), e - w, x, 1 + w, 1 - w);
    }
  }

  lemma ScaledDown(v: nat, e: int, x: Exact, msb: nat)
    requires Framed(238, v, e, x) && Pow2(msb) <= v < Pow2(msb + 1) && msb > 239
    ensures Pow2(239) <= ShrJam(v, msb - 239) < Pow2(240)
    ensures SameCell(ShrJam(v, msb - 239), e + (msb - 239), x, 2)
  {
    FramedCell(238, v, e, x, 1);
    JamCell(v, e, x, 1, msb - 239, 2);
    Pow2Step(msb);
    Pow2Step(239);
    JamRange(v, msb - 239, msb);
  }

  /** `pack_scaled`: the value is `mag` * 2^`scale`, up to what `Framed` allows. */
  method PackScaled(sign: bool, mag: Big8, scale: int, mode: Mode, fe: FeAcc, ghost x: Exact) returns (r: Word256)
    requires x.v >= 0.0 && Framed(238, Value(mag), scale, x)
    modifies fe
    ensures Encodes(r, RoundSigned(mode, sign, x))
    ensures fe.bits == old(fe.bits) + RoundSigned(mode, sign, x).flags
  {
    var msb := Highest(mag);
    if msb < 0 {
      ZeroResult(mode, sign, x, scale);
      r := ZeroValue(sign);
      return;
    }
    var target := 236 + 3;
    var ext: Big8;
    if msb > target {
      ScaledDown(Value(mag), scale, x, msb);
      ext := JamLimbs(mag, msb - target);
    } else {
      ScaledUp(Value(mag), scale, x, msb);
      ext := ShlExact(mag, target - msb, 240);
    }
    r := PackExtended(sign, ext, scale + msb, mode, fe, x);
  }

  lemma ZeroResult(mode: Mode, sign: bool, x: Exact, e: int)
    requires x.v >= 0.0 && Framed(238, 0, e, x)
    ensures RoundSigned(mode, sign, x) == Outcome(sign, 0, {})
  {
    DyadicZero(e);
    DecodeZero(F256);
    assert Shr(0, 0) == 0 && !AnyLow(0, 0);
    MulMono(1, 0x7FFFF, Pow2(236));
    RoundExact(F256, mode, sign, x, 0);
    RoundSignedIs(mode, sign, x, 0);
  }
}
