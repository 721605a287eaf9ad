/** What the specified result of a binary256 operation means, in terms of the values and the encodings alone, and
    when its underflow flag is the one of section 7.5 of IEEE 754-2008. */
module Meaning256 {
  import opened Powers
  import opened Shifts
  import opened Rounding
  import opened Tininess
  import opened BigUint
  import opened Binary256
  import opened Pack256
  import opened Arithmetic256
  import opened Roots

  /** The pieces of a nonzero result `r`. */
  lemma Pieces(mode: Mode, v: real, zeroNeg: bool, r: Word256) returns (c: nat)
    requires v != 0.0 && Encodes(r, RoundReal(mode, v, zeroNeg))
    ensures c == RoundCode(F256, mode, v < 0.0, Num(Abs(v)))
    ensures Negative(r) == (v < 0.0) && Code(r) == Deliver(F256, mode, v < 0.0, c)
    ensures RoundReal(mode, v, zeroNeg).flags == FinalFlags(F256, mode, v < 0.0, Num(Abs(v)))
    ensures 0 < F256.InfCode() && (IsFinite(r) <==> c < F256.InfCode() || TowardZero(mode, v < 0.0))
  {
    InfPositive();
    c := RoundCode(F256, mode, v < 0.0, Num(Abs(v)));
    RoundSignedIs(mode, v < 0.0, Num(Abs(v)), c);
  }

  /** INEXACT exactly when the result is not the exact value; OVERFLOW exactly when rounding with an unbounded
      exponent leaves the finite range; UNDERFLOW exactly when an inexact result is returned as a subnormal or a zero.
      No other flag is raised. */
  lemma FlagsMeaning(mode: Mode, v: real, zeroNeg: bool, r: Word256)
    requires Encodes(r, RoundReal(mode, v, zeroNeg))
    ensures var flags := RoundReal(mode, v, zeroNeg).flags;
            && (Inexact in flags <==> !IsFinite(r) || Real(r) != v)
            && (Overflow in flags <==> RoundCode(F256, mode, v < 0.0, Num(Abs(v))) >= F256.InfCode())
            && (Underflow in flags <==> Inexact in flags && Code(r) < Pow2(236))
            && flags <= {Inexact, Overflow, Underflow}
  {
    DecodeZero(F256);
    SmallestNormal();
    if v == 0.0 {
      InfPositive();
      RoundExact(F256, mode, false, Num(0.0), 0);
    } else {
      var c := Pieces(mode, v, zeroNeg, r);
      var x := Num(Abs(v));
      DecodeNonNegative(F256, c);
      if c >= F256.InfCode() && Abs(v) == Decode(F256, F256.InfCode() - 1) {
        RoundExact(F256, mode, v < 0.0, x, F256.InfCode() - 1);
      }
    }
  }

  lemma SmallestNormal()
    ensures Pow2(236) < F256.InfCode() - 1
  {
    Pow2Mono(2, 236);
    Pow2Table();
    MulMono(2, 0x7FFFF, Pow2(236));
  }

  /** Against tininess before rounding, as binary64 has it, and against tininess after rounding: UNDERFLOW is missing
      exactly on the two bands below the smallest normal number, and is never raised in addition. */
  lemma UnderflowMeaning(mode: Mode, v: real, zeroNeg: bool, k: nat)
    requires v != 0.0 && k >= 1
    ensures var flags, x := RoundReal(mode, v, zeroNeg).flags, Num(Abs(v));
            && (if RisesToNormal(F256, mode, v < 0.0, x)
                then flags == {Inexact} && RoundFlags(F256, mode, v < 0.0, x) == {Underflow, Inexact}
                else flags == RoundFlags(F256, mode, v < 0.0, x))
            && (if RisesTwice(F256, mode, v < 0.0, x)
                then flags == {Inexact} && AfterFlags(F256, k, mode, v < 0.0, x) == {Underflow, Inexact}
                else flags == AfterFlags(F256, k, mode, v < 0.0, x))
  {
    var x := Num(Abs(v));
    RoundSignedIs(mode, v < 0.0, x, RoundCode(F256, mode, v < 0.0, x));
    MissedUnderflow(F256, k, mode, v < 0.0, x);
  }

  /** A binary256 product without UNDERFLOW that is tiny before rounding and after it: the largest number of the lowest
      normal binade times one half lies half way between the largest subnormal and the smallest normal number. */
  lemma MissedUnderflowExample(a: Word256, b: Word256, k: nat)
    requires a == [0xFFFF_FFFF_FFFF_FFFF, 0xFFFF_FFFF_FFFF_FFFF, 0xFFFF_FFFF_FFFF_FFFF, 0x1FFF_FFFF_FFFF]
    requires b == [0, 0, 0, 0x3FFF_E000_0000_0000]
    requires k >= 1
    ensures var x := Num(Abs(Real(a) * Real(b)));
            && Product(RNE, a, b) == Outcome(false, Pow2(236), {Inexact})
            && RoundFlags(F256, RNE, false, x) == {Underflow, Inexact} == AfterFlags(F256, k, RNE, false, x)
  {
    LongOperand(a);
    HalfOperand(b);
    var v := Real(a) * Real(b);
    HalfWay(v);
    MulMono(1, 0x7FFFF, Pow2(236));
    SmallestNormal();
    Pow2Mono(1, 236);
    ProductMeans(RNE, a, b);
    MissedUnderflow(F256, k, RNE, false, Num(v));
    RoundSignedIs(RNE, false, Num(v), Pow2(236));
  }

  lemma LongOperand(a: Word256)
    requires a == [0xFFFF_FFFF_FFFF_FFFF, 0xFFFF_FFFF_FFFF_FFFF, 0xFFFF_FFFF_FFFF_FFFF, 0x1FFF_FFFF_FFFF]
    ensures !Negative(a) && IsFinite(a) && Real(a) == Dyadic(2 * Pow2(236) - 1, -262378)
  {
    AllOnes(a, 3);
    Pow2Field();
    var p, w := Pow2(192), 0x1FFF_FFFF_FFFF;
    assert a[3] % TWO63 == w && w + 1 == 2 * TWO44;
    Distribute(w, 1, p);
    Assoc(2, TWO44, p);
    DecodeGrid(F256, 2 * Pow2(236) - 1, 0, 2 * Pow2(236) - 1);
    SmallestNormal();
    MulMono(2, 0x7FFFF, Pow2(236));
  }

  lemma HalfOperand(b: Word256)
    requires b == [0, 0, 0, 0x3FFF_E000_0000_0000]
    ensures !Negative(b) && IsFinite(b) && Real(b) == 0.5
  {
    TopField(b, 0x3FFFE);
    HalfCode(Pow2(236));
    DyadicShift(1, -237, 236);
    DyadicDef(1, -1);
    TwoStep(-1);
    MulStrict(0x3FFFE, 0x7FFFF, Pow2(236));
  }

  /** An encoding without fraction bits. */
  lemma TopField(b: Word256, field: nat)
    requires field < 0x8_0000 && b == [0, 0, 0, field * TWO44]
    ensures !Negative(b) && Code(b) == field * Pow2(236)
  {
    ShortWord(b, 0, field * TWO44);
    Pow2Field();
    Assoc(field, TWO44, Pow2(192));
  }

  lemma HalfCode(p: nat)
    requires p == Pow2(236)
    ensures Decode(F256, 0x3FFFE * p) == Dyadic(p, -237)
  {
    Distribute1(0x3FFFE, p);
    DecodeGrid(F256, p, 0x3FFFD, 0x3FFFE * p);
  }

  lemma HalfWay(v: real)
    requires v == Dyadic(2 * Pow2(236) - 1, -262378) * 0.5
    ensures v == Two(EMIN) - Two(-262379) > 0.0
    ensures RisesToNormal(F256, RNE, false, Num(v)) && RisesTwice(F256, RNE, false, Num(v))
  {
    var p := Pow2(236);
    DyadicAdd(2 * p, 1, -262378);
    DyadicTwice(p, -262378);
    DyadicShift(1, -262377, 236);
    DyadicDef(1, EMIN + 1);
    DyadicDef(1, -262378);
    TwoStep(EMIN);
    TwoStep(-262379);
    TwoStep(-262380);
    AroundNormal(F256, 0);
    assert Lowered(F256, 0) == F256;
    MidRange(F256, p - 1);
  }

  /** To nearest: no finite number is closer to the exact value than a finite result. */
  lemma NearestMeaning(mode: Mode, v: real, zeroNeg: bool, r: Word256, d: Word256)
    requires mode in {RNE, RNA} && IsFinite(d) && IsFinite(r) && Encodes(r, RoundReal(mode, v, zeroNeg))
    ensures Distance(Real(r), v) <= Distance(Real(d), v)
  {
    DecodeZero(F256);
    if v != 0.0 {
      var c := Pieces(mode, v, zeroNeg, r);
      RoundNearest(F256, mode, v < 0.0, Abs(v), Code(d));
      RoundNearest(F256, mode, v < 0.0, Abs(v), 0);
      DecodeNonNegative(F256, Code(d));
    }
  }

  /** Upwards: a finite result is the least finite number that is at least the exact value. */
  lemma UpwardMeaning(v: real, zeroNeg: bool, r: Word256, d: Word256)
    requires IsFinite(d) && IsFinite(r) && Encodes(r, RoundReal(RUP, v, zeroNeg))
    ensures v <= Real(r) && (v <= Real(d) ==> Real(r) <= Real(d))
  {
    OneSided(RUP, v, zeroNeg, r, d);
  }

  /** Downwards: a finite result is the greatest finite number that is at most the exact value. */
  lemma DownwardMeaning(v: real, zeroNeg: bool, r: Word256, d: Word256)
    requires IsFinite(d) && IsFinite(r) && Encodes(r, RoundReal(RDN, v, zeroNeg))
    ensures Real(r) <= v && (Real(d) <= v ==> Real(d) <= Real(r))
  {
    OneSided(RDN, v, zeroNeg, r, d);
  }

  /** Toward zero: a result is the largest finite magnitude that is at most the exact one. */
  lemma TruncationMeaning(v: real, zeroNeg: bool, r: Word256, d: Word256)
    requires IsFinite(d) && Encodes(r, RoundReal(RTZ, v, zeroNeg))
    ensures IsFinite(r) && Magnitude(r) <= Abs(v) && (Magnitude(d) <= Abs(v) ==> Magnitude(d) <= Magnitude(r))
  {
    OneSided(RTZ, v, zeroNeg, r, d);
  }

  lemma OneSided(mode: Mode, v: real, zeroNeg: bool, r: Word256, d: Word256)
    requires mode in {RTZ, RUP, RDN} && IsFinite(d) && Encodes(r, RoundReal(mode, v, zeroNeg))
    ensures TowardZero(mode, v < 0.0) ==> IsFinite(r)
    ensures v != 0.0 && TowardZero(mode, v < 0.0) ==>
              Magnitude(r) <= Abs(v) && (Magnitude(d) <= Abs(v) ==> Magnitude(d) <= Magnitude(r))
    ensures v != 0.0 && !TowardZero(mode, v < 0.0) && IsFinite(r) ==>
              Magnitude(r) >= Abs(v) && (Magnitude(d) >= Abs(v) ==> Magnitude(d) >= Magnitude(r))
    ensures v != 0.0 ==> Negative(r) == (v < 0.0)
    ensures v == 0.0 ==> IsFinite(r) && Magnitude(r) == 0.0
    ensures Magnitude(r) >= 0.0 && Magnitude(d) >= 0.0
  {
    DecodeZero(F256);
    InfPositive();
    DecodeNonNegative(F256, Code(d));
    DecodeNonNegative(F256, Code(r));
    if v != 0.0 {
      var c := Pieces(mode, v, zeroNeg, r);
      RoundDirected(F256, mode, v < 0.0, Abs(v), Code(d));
      if Code(r) < c {
        DecodeMono(F256, Code(r), c);
      }
      if Code(d) < Code(r) {
        DecodeMono(F256, Code(d), Code(r));
      } else if Code(r) < Code(d) {
        DecodeMono(F256, Code(r), Code(d));
      }
    }
  }

  /** In the nearest modes overflow starts half a unit above the largest finite number. */
  lemma OverflowThreshold(mode: Mode, v: real, zeroNeg: bool, r: Word256)
    requires mode in {RNE, RNA} && Encodes(r, RoundReal(mode, v, zeroNeg))
    ensures Overflow in RoundReal(mode, v, zeroNeg).flags <==> Abs(v) >= Two(262144) - Two(261906)
  {
    FlagsMeaning(mode, v, zeroNeg, r);
    TopMidpoint();
    ReachesOrFalls(F256, mode, v < 0.0, Num(Abs(v)), F256.InfCode());
  }

  lemma TopMidpoint()
    ensures F256.InfCode() > 0 && F256.InfCode() % 2 == 0
    ensures Mid(F256, F256.InfCode() - 1) == Two(262144) - Two(261906)
  {
    var p := Pow2(236);
    SmallestNormal();
    CodeParity(F256, 0, 0x7FFFF);
    Distribute1(0x7FFFF, p);
    Distribute1(0x7FFFE, p);
    DecodeGrid(F256, 2 * p - 1, 524285, F256.InfCode() - 1);
    DecodeGrid(F256, p, 524286, F256.InfCode());
    DyadicTwice(p, 261907);
    DyadicAdd(2 * p, 1, 261907);
    DyadicShift(1, 261908, 236);
    DyadicDef(1, 262144);
    DyadicDef(1, 261907);
    TwoStep(261906);
  }


  /** The square root of a positive number is finite and positive; INEXACT says exactly that its square is not the
      operand, and no other flag is raised. */
  lemma RootMeaning(mode: Mode, a: Word256, r: Word256)
    requires IsFinite(a) && !IsZero(a) && !Negative(a) && Encodes(r, SquareRoot(mode, a))
    ensures var flags := SquareRoot(mode, a).flags;
            && IsFinite(r) && Real(r) > 0.0 && flags <= {Inexact}
            && (Inexact in flags <==> Real(r) * Real(r) != Real(a))
  {
    RootPieces(mode, a, r);
    RootFlags(F256, mode, Code(a), Real(a), Real(r));
  }

  lemma RootPieces(mode: Mode, a: Word256, r: Word256)
    requires IsFinite(a) && !IsZero(a) && !Negative(a) && Encodes(r, SquareRoot(mode, a))
    ensures Real(a) > 0.0 && Real(a) == Decode(F256, Code(a))
    ensures IsFinite(r) && !Negative(r) && Code(r) == RoundCode(F256, mode, false, Root(Real(a))) && Real(r) > 0.0
    ensures SquareRoot(mode, a).flags == FinalFlags(F256, mode, false, Root(Real(a)))
  {
    RootInRange(F256, mode, Code(a));
    RoundSignedIs(mode, false, Root(Real(a)), RoundCode(F256, mode, false, Root(Real(a))));
    DecodeNonNegative(F256, Code(r));
  }

  /** Its place among the other non-negative numbers. */
  lemma RootBest(mode: Mode, a: Word256, r: Word256, d: Word256)
    requires IsFinite(a) && !IsZero(a) && !Negative(a) && Encodes(r, SquareRoot(mode, a))
    requires IsFinite(d) && !Negative(d)
    ensures BestRoot(mode, Real(a), Real(r), Real(d))
  {
    RootPieces(mode, a, r);
    RootPlace(F256, mode, Real(a), Code(d));
  }

  /** A tie between two numbers goes to the even encoding in RNE, to the larger magnitude in RNA. */
  lemma TieMeaning(mode: Mode, v: real, zeroNeg: bool, r: Word256, d: Word256)
    requires mode in {RNE, RNA} && IsFinite(d) && IsFinite(r) && Encodes(r, RoundReal(mode, v, zeroNeg))
    requires Real(d) != Real(r) && Distance(Real(r), v) == Distance(Real(d), v)
    ensures if mode == RNE then Code(r) % 2 == 0 else Magnitude(r) > Magnitude(d)
  {
    DecodeZero(F256);
    DecodeNonNegative(F256, Code(d));
    if v != 0.0 {
      var c := Pieces(mode, v, zeroNeg, r);
      DecodeNonNegative(F256, c);
      var e := if Negative(d) == (v < 0.0) then Code(d) else 0;
      RoundNearest(F256, mode, v < 0.0, Abs(v), 0);
      RoundTie(F256, mode, v < 0.0, Abs(v), e);
      if e < c {
        DecodeMono(F256, e, c);
      }
    }
  }

  /** What is delivered: never a NaN; an exact zero under the sign given for it and any other result under its own sign;
      an infinity only with OVERFLOW; and on OVERFLOW an infinity or the largest finite number, as the mode demands. */
  lemma DeliveryMeaning(mode: Mode, v: real, zeroNeg: bool, r: Word256)
    requires Encodes(r, RoundReal(mode, v, zeroNeg))
    ensures !IsNan(r)
    ensures v == 0.0 ==> IsZero(r) && Negative(r) == zeroNeg && RoundReal(mode, v, zeroNeg).flags == {}
    ensures v != 0.0 ==> Negative(r) == (v < 0.0)
    ensures var flags := RoundReal(mode, v, zeroNeg).flags;
            && (IsInf(r) ==> Overflow in flags)
            && (Overflow in flags ==>
                  if mode in {RNE, RNA} || (mode == RUP && v > 0.0) || (mode == RDN && v < 0.0) then IsInf(r)
                  else Code(r) + 1 == F256.InfCode())
            && flags <= {Overflow, Underflow, Inexact}
  {
    FlagsMeaning(mode, v, zeroNeg, r);
    if v == 0.0 {
      InfPositive();
    } else {
      var c := Pieces(mode, v, zeroNeg, r);
    }
  }
}
