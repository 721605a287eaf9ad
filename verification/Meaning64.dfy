/** What the specified result of a binary64 operation means, in terms of the values and the encodings alone:
    sections 4.3 and 7.4 to 7.6 of IEEE 754-2008. */
module Meaning64 {
  import opened Powers
  import opened Rounding
  import opened Words
  import opened Binary64
  import opened Roots
  import opened Sqrt64

  /** The pieces of a nonzero result. */
  lemma Pieces(mode: Mode, v: real, zeroNeg: bool) returns (c: nat)
    requires v != 0.0
    ensures c == RoundCode(F64, mode, v < 0.0, Num(Abs(v)))
    ensures var o := RoundReal(mode, v, zeroNeg);
            && Negative(o.bits) == (v < 0.0) && Code(o.bits) == Deliver(F64, mode, v < 0.0, c)
            && o.flags == RoundFlags(F64, mode, v < 0.0, Num(Abs(v)))
            && (IsFinite(o.bits) <==> c < F64.InfCode() || TowardZero(mode, v < 0.0))
  {
    FormatConstants();
    c := RoundCode(F64, mode, v < 0.0, Num(Abs(v)));
    RoundSignedIs(mode, v < 0.0, Num(Abs(v)), c);
    FiniteCodes(RoundReal(mode, v, zeroNeg).bits);
  }

  lemma SmallestNormal()
    ensures Decode(F64, IMPLICIT) == Two(-1022) && IMPLICIT < F64.InfCode()
  {
    FormatConstants();
    DecodeGrid(F64, IMPLICIT, 0, IMPLICIT);
    Pow2Table();
    DyadicShift(1, -1074, 52);
    DyadicDef(1, -1022);
  }

  /** INEXACT exactly when the result is not the exact value; OVERFLOW exactly when rounding with an unbounded
      exponent leaves the finite range; UNDERFLOW exactly when the exact value is below the smallest normal number
      and the result is inexact. No other flag is raised. */
  lemma FlagsMeaning(mode: Mode, v: real, zeroNeg: bool)
    ensures var o := RoundReal(mode, v, zeroNeg);
            && (Inexact in o.flags <==> !IsFinite(o.bits) || Value(o.bits) != v)
            && (Overflow in o.flags <==> RoundCode(F64, mode, v < 0.0, Num(Abs(v))) >= F64.InfCode())
            && (Underflow in o.flags <==> Inexact in o.flags && Abs(v) < Two(-1022))
            && o.flags <= {Inexact, Overflow, Underflow}
  {
    FormatConstants();
    DecodeZero(F64);
    if v == 0.0 {
      FiniteCodes(SignedZero(zeroNeg));
      RoundExact(F64, mode, false, Num(0.0), 0);
    } else {
      var c := Pieces(mode, v, zeroNeg);
      var x := Num(Abs(v));
      SmallestNormal();
      if Abs(v) <= Decode(F64, IMPLICIT) {
        RoundAtMost(F64, mode, v < 0.0, x, IMPLICIT);
      }
      DecodeNonNegative(F64, c);
      if c >= F64.InfCode() && Abs(v) == Decode(F64, F64.InfCode() - 1) {
        RoundExact(F64, mode, v < 0.0, x, F64.InfCode() - 1);
      }
    }
  }

  /** In the nearest modes overflow starts half a unit above the largest finite number. */
  lemma OverflowThreshold(mode: Mode, v: real, zeroNeg: bool)
    requires mode in {RNE, RNA}
    ensures Overflow in RoundReal(mode, v, zeroNeg).flags <==> Abs(v) >= Two(1024) - Two(970)
  {
    FormatConstants();
    var max, inf := 0x7FEF_FFFF_FFFF_FFFF, 0x7FF0_0000_0000_0000;
    Threshold();
    FlagsMeaning(mode, v, zeroNeg);
    var x := Num(Abs(v));
    var c := RoundCode(F64, mode, v < 0.0, x);
    MidRange(F64, max);
    if c < inf {
      MidRange(F64, c);
      if c < max {
        MidMono(F64, c, max);
      }
    } else {
      MidRange(F64, c - 1);
      if inf < c {
        MidMono(F64, max, c - 1);
      }
    }
  }

  lemma Threshold()
    ensures Mid(F64, 0x7FEF_FFFF_FFFF_FFFF) == Two(1024) - Two(970)
  {
    FormatConstants();
    DecodeGrid(F64, 2 * IMPLICIT - 1, 2045, 0x7FEF_FFFF_FFFF_FFFF);
    DecodeGrid(F64, 2 * IMPLICIT, 2045, 0x7FF0_0000_0000_0000);
    DyadicAdd(2 * IMPLICIT, 1, 971);
    Pow2Table();
    DyadicShift(1, 971, 53);
    DyadicTwice(1, 970);
    DyadicAdd(1, 1, 970);
    DyadicDef(1, 1024);
    DyadicDef(1, 970);
  }

  /** To nearest: no finite number is closer to the exact value than a finite result. */
  lemma NearestMeaning(mode: Mode, v: real, zeroNeg: bool, d: u64)
    requires mode in {RNE, RNA} && IsFinite(d) && IsFinite(RoundReal(mode, v, zeroNeg).bits)
    ensures Distance(Value(RoundReal(mode, v, zeroNeg).bits), v) <= Distance(Value(d), v)
  {
    DecodeZero(F64);
    FormatConstants();
    if v == 0.0 {
      FiniteCodes(SignedZero(zeroNeg));
    } else {
      var c := Pieces(mode, v, zeroNeg);
      RoundNearest(F64, mode, v < 0.0, Abs(v), Code(d));
      RoundNearest(F64, mode, v < 0.0, Abs(v), 0);
      DecodeNonNegative(F64, Code(d));
    }
  }

  /** Upwards: a finite result is the least finite number that is at least the exact value. */
  lemma UpwardMeaning(v: real, zeroNeg: bool, d: u64)
    requires IsFinite(d) && IsFinite(RoundReal(RUP, v, zeroNeg).bits)
    ensures var r := Value(RoundReal(RUP, v, zeroNeg).bits);
            v <= r && (v <= Value(d) ==> r <= Value(d))
  {
    OneSided(RUP, v, zeroNeg, d);
  }

  /** Downwards: a finite result is the greatest finite number that is at most the exact value. */
  lemma DownwardMeaning(v: real, zeroNeg: bool, d: u64)
    requires IsFinite(d) && IsFinite(RoundReal(RDN, v, zeroNeg).bits)
    ensures var r := Value(RoundReal(RDN, v, zeroNeg).bits);
            r <= v && (Value(d) <= v ==> Value(d) <= r)
  {
    OneSided(RDN, v, zeroNeg, d);
  }

  /** Toward zero: a result is the largest finite magnitude that is at most the exact one. */
  lemma TruncationMeaning(v: real, zeroNeg: bool, d: u64)
    requires IsFinite(d)
    ensures var r := RoundReal(RTZ, v, zeroNeg).bits;
            && IsFinite(r) && Magnitude(r) <= Abs(v)
            && (Magnitude(d) <= Abs(v) ==> Magnitude(d) <= Magnitude(r))
  {
    OneSided(RTZ, v, zeroNeg, d);
  }

  lemma OneSided(mode: Mode, v: real, zeroNeg: bool, d: u64)
    requires mode in {RTZ, RUP, RDN} && IsFinite(d)
    ensures var o := RoundReal(mode, v, zeroNeg);
            && (TowardZero(mode, v < 0.0) ==> IsFinite(o.bits))
            && (v != 0.0 && TowardZero(mode, v < 0.0) ==>
                  Magnitude(o.bits) <= Abs(v) && (Magnitude(d) <= Abs(v) ==> Magnitude(d) <= Magnitude(o.bits)))
            && (v != 0.0 && !TowardZero(mode, v < 0.0) && IsFinite(o.bits) ==>
                  Magnitude(o.bits) >= Abs(v) && (Magnitude(d) >= Abs(v) ==> Magnitude(d) >= Magnitude(o.bits)))
            && (v != 0.0 ==> Negative(o.bits) == (v < 0.0))
            && (v == 0.0 ==> IsFinite(o.bits) && Magnitude(o.bits) == 0.0)
            && Magnitude(o.bits) >= 0.0 && Magnitude(d) >= 0.0
  {
    DecodeZero(F64);
    FormatConstants();
    FiniteCodes(d);
    DecodeNonNegative(F64, Code(d));
    DecodeNonNegative(F64, Code(RoundReal(mode, v, zeroNeg).bits));
    if v == 0.0 {
      FiniteCodes(SignedZero(zeroNeg));
    } else {
      var c := Pieces(mode, v, zeroNeg);
      RoundDirected(F64, mode, v < 0.0, Abs(v), Code(d));
      var r := Deliver(F64, mode, v < 0.0, c);
      if r < c {
        DecodeMono(F64, r, c);
      }
      if Code(d) < r {
        DecodeMono(F64, Code(d), r);
      } else if r < Code(d) {
        DecodeMono(F64, r, Code(d));
      }
    }
  }

  /** The square root of a positive number is finite and positive; INEXACT says exactly that its square is not the
      operand, and no other flag is raised. */
  lemma RootMeaning(mode: Mode, a: u64)
    requires IsFinite(a) && !IsZero(a) && !Negative(a)
    ensures var o := SquareRoot(mode, a);
            && IsFinite(o.bits) && Value(o.bits) > 0.0 && o.flags <= {Inexact}
            && (Inexact in o.flags <==> Value(o.bits) * Value(o.bits) != Value(a))
  {
    var c := RootPieces(mode, a);
    RootFlags(F64, mode, Code(a), Value(a), Value(SquareRoot(mode, a).bits));
  }

  lemma RootPieces(mode: Mode, a: u64) returns (c: nat)
    requires IsFinite(a) && !IsZero(a) && !Negative(a)
    ensures Value(a) > 0.0 && Value(a) == Decode(F64, Code(a)) && 0 < Code(a) < F64.InfCode()
    ensures c == RoundCode(F64, mode, false, Root(Value(a)))
    ensures var o := SquareRoot(mode, a);
            && IsFinite(o.bits) && !Negative(o.bits) && Code(o.bits) == c && Value(o.bits) == Decode(F64, c) > 0.0
            && o.flags == RoundFlags(F64, mode, false, Root(Value(a)))
  {
    FormatConstants();
    FiniteCodes(a);
    RootInRange(F64, mode, Code(a));
    c := RoundCode(F64, mode, false, Root(Value(a)));
    RoundSignedIs(mode, false, Root(Value(a)), c);
    FiniteCodes(SquareRoot(mode, a).bits);
    DecodeNonNegative(F64, c);
  }

  /** Its place among the other non-negative numbers. */
  lemma RootBest(mode: Mode, a: u64, d: u64)
    requires IsFinite(a) && !IsZero(a) && !Negative(a) && IsFinite(d) && !Negative(d)
    ensures BestRoot(mode, Value(a), Value(SquareRoot(mode, a).bits), Value(d))
  {
    var c := RootPieces(mode, a);
    RootPlace(F64, mode, Value(a), Code(d));
  }

  /** A tie between two numbers goes to the even encoding in RNE, to the larger magnitude in RNA. */
  lemma TieMeaning(mode: Mode, v: real, zeroNeg: bool, d: u64)
    requires mode in {RNE, RNA} && IsFinite(d) && IsFinite(RoundReal(mode, v, zeroNeg).bits)
    requires Value(d) != Value(RoundReal(mode, v, zeroNeg).bits)
    requires Distance(Value(RoundReal(mode, v, zeroNeg).bits), v) == Distance(Value(d), v)
    ensures var r := RoundReal(mode, v, zeroNeg).bits;
            if mode == RNE then Code(r) % 2 == 0 else Magnitude(r) > Magnitude(d)
  {
    DecodeZero(F64);
    FormatConstants();
    DecodeNonNegative(F64, Code(d));
    if v == 0.0 {
      FiniteCodes(SignedZero(zeroNeg));
    } else {
      var c := Pieces(mode, v, zeroNeg);
      DecodeNonNegative(F64, c);
      var e := if Negative(d) == (v < 0.0) then Code(d) else 0;
      RoundNearest(F64, mode, v < 0.0, Abs(v), 0);
      RoundTie(F64, mode, v < 0.0, Abs(v), e);
      if e < c {
        DecodeMono(F64, e, c);
      }
    }
  }

  /** What is delivered: never a NaN; an exact zero under the sign given for it and any other result under its own sign;
      an infinity only with OVERFLOW; and on OVERFLOW an infinity or the largest finite number, as the mode demands. */
  lemma DeliveryMeaning(mode: Mode, v: real, zeroNeg: bool)
    ensures var o := RoundReal(mode, v, zeroNeg);
            && !IsNan(o.bits)
            && (if v == 0.0 then IsZero(o.bits) && Negative(o.bits) == zeroNeg && o.flags == {}
                else Negative(o.bits) == (v < 0.0))
            && (IsInf(o.bits) ==> Overflow in o.flags)
            && (Overflow in o.flags ==>
                  if mode in {RNE, RNA} || (mode == RUP && v > 0.0) || (mode == RDN && v < 0.0) then IsInf(o.bits)
                  else ExtractExp(o.bits) == 2046 && ExtractFrac(o.bits) == IMPLICIT - 1)
            && o.flags <= {Overflow, Underflow, Inexact}
  {
    FormatConstants();
    FlagsMeaning(mode, v, zeroNeg);
    if v == 0.0 {
      FiniteCodes(SignedZero(zeroNeg));
    } else {
      var c := Pieces(mode, v, zeroNeg);
    }
  }
}
