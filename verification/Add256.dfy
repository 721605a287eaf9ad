/** Addition of src/fp256/soft_f256.cpp: an exact 512-bit path for close exponents and a one-step path
    for distant ones, both delivering the correct rounding. */
module Add256 {
  import opened Powers
  import opened Shifts
  import opened Rounding
  import opened Cells
  import opened Frames
  import opened Words
  import opened BigUint
  import opened Fenv
  import opened Binary256
  import opened Pack256

  // ----- what addition must deliver -----

  ghost function NanResult(a: Word256, b: Word256): Outcome {
    var flags := if IsSnan(a) || IsSnan(b) then {Invalid} else {};
    if IsNan(a) then Outcome(Negative(a), QuietedCode(Code(a)), flags)
    else if IsNan(b) then Outcome(Negative(b), QuietedCode(Code(b)), flags)
    else Outcome(false, NanCode(), flags)
  }

  ghost function InvalidResult(): Outcome {
    Outcome(false, NanCode(), {Invalid})
  }

  /** Addition: sections 5.4.1, 6.1 to 6.3 and 7.2 of IEEE 754-2008. */
  ghost function Sum(mode: Mode, a: Word256, b: Word256): Outcome {
    if IsNan(a) || IsNan(b) then NanResult(a, b)
    else if IsInf(a) && IsInf(b) && Negative(a) != Negative(b) then InvalidResult()
    else if IsInf(a) then Outcome(Negative(a), Code(a), {})
    else if IsInf(b) then Outcome(Negative(b), Code(b), {})
    else RoundReal(mode, Real(a) + Real(b),
                   if Negative(a) == Negative(b) then Negative(a) else mode == RDN)
  }

  /** What subtracting magnitude `mb` from `ma` under sign `neg` must deliver. */
  ghost function Difference(mode: Mode, neg: bool, ma: real, mb: real): Outcome {
    if ma == mb then Outcome(mode == RDN, 0, {})
    else if ma > mb then RoundSigned(mode, neg, Num(ma - mb))
    else RoundSigned(mode, !neg, Num(mb - ma))
  }

  /** Magnitudes joined under their signs. */
  ghost function Joined(mode: Mode, aNeg: bool, ma: real, bNeg: bool, mb: real): Outcome
    requires ma >= 0.0 && mb >= 0.0
  {
    if aNeg == bNeg then RoundSigned(mode, aNeg, Num(ma + mb)) else Difference(mode, aNeg, ma, mb)
  }

  lemma SumOfMagnitudes(mode: Mode, a: Word256, b: Word256)
    requires IsFinite(a) && IsFinite(b)
    ensures Magnitude(a) >= 0.0 && Magnitude(b) >= 0.0
    ensures !IsZero(a) && !IsZero(b) ==>
              Sum(mode, a, b) == Joined(mode, Negative(a), Magnitude(a), Negative(b), Magnitude(b))
    ensures IsZero(a) && !IsZero(b) ==> Sum(mode, a, b) == Outcome(Negative(b), Code(b), {})
    ensures IsZero(b) && !IsZero(a) ==> Sum(mode, a, b) == Outcome(Negative(a), Code(a), {})
    ensures IsZero(a) && IsZero(b) ==>
              Sum(mode, a, b) == Outcome(if Negative(a) == Negative(b) then Negative(a) else mode == RDN, 0, {})
  {
    FiniteCodes(a);
    FiniteCodes(b);
    RoundOfCode(mode, Negative(a), Code(a));
    RoundOfCode(mode, Negative(b), Code(b));
  }

  // ----- distant exponents -----

  /** `y` is below `x` by more than 274 binades. */
  ghost predicate Far(x: Word256, y: Word256) {
    exists e: int :: Dyadic(1, e) <= Magnitude(x) && Magnitude(y) < Dyadic(1, e - 274)
  }

  lemma Binade(x: Word256, exponent: int, sig: nat)
    requires Unpacked(x, exponent, sig)
    ensures Dyadic(1, exponent) <= Magnitude(x) < Dyadic(1, exponent + 1)
  {
    DyadicShift(1, exponent - 236, 236);
    DyadicShift(1, exponent - 236, 237);
    if Pow2(236) < sig {
      DyadicMono(Pow2(236), sig, exponent - 236);
    }
    DyadicMono(sig, Pow2(237), exponent - 236);
  }

  lemma BinadeOrder(e: int, g: int)
    requires Dyadic(1, e) < Dyadic(1, g)
    ensures e < g
  {
    if g <= e {
      DyadicUnits(g, e - g);
    }
  }

  /** The exponents tell which path is taken. */
  lemma FarExponents(x: Word256, ex: int, sx: nat, y: Word256, ey: int, sy: nat)
    requires Unpacked(x, ex, sx) && Unpacked(y, ey, sy)
    ensures Far(x, y) <==> ex - ey > 274
  {
    Binade(x, ex, sx);
    Binade(y, ey, sy);
    if ex - ey > 274 {
      DyadicUnits(ey + 1, ex - 274 - (ey + 1));
    }
    if e: int :| Dyadic(1, e) <= Magnitude(x) && Magnitude(y) < Dyadic(1, e - 274) {
      BinadeOrder(e, ex + 1);
      BinadeOrder(ey, e - 274);
    }
  }

  /** The step between neighbouring codes below `c` is at least half of the one above. */
  lemma GapBelow(c: nat, n: nat, q: nat)
    requires Splits(F256, c, n, q) && q >= 1
    ensures c >= 1 && Decode(F256, c) - Decode(F256, c - 1) >= Dyadic(1, F256.e0 + q - 1)
  {
    var p := Pow2(236);
    Distribute1(q, p);
    MulMono(1, q, p);
    if n > p {
      DecodeGap(F256, c - 1, n - 1, q);
      DyadicUnits(F256.e0 + q - 1, 1);
    } else {
      DecodeGap(F256, c - 1, 2 * p - 1, q - 1);
    }
  }

  /** The distant operand is less than a quarter of the dominant operand's quantum. */
  lemma Quarter(m: real, ey: int, q: nat)
    requires m < Dyadic(1, ey + 1) && ey + 1 <= F256.e0 + q - 2
    ensures 4.0 * m < Dyadic(1, F256.e0 + q) == 2.0 * Dyadic(1, F256.e0 + q - 1)
  {
    var g := F256.e0 + q - 2;
    DyadicUnits(ey + 1, g - (ey + 1));
    DyadicTwice(1, g);
    DyadicTwice(1, g + 1);
    DyadicAdd(1, 1, g);
    DyadicAdd(1, 1, g + 1);
  }

  /** The sum with a distant operand rounds to the dominant operand's code or a neighbour. */
  lemma FarSum(mode: Mode, neg: bool, c: nat, n: nat, q: nat, m: real)
    requires Splits(F256, c, n, q)
    requires 0.0 < m && 4.0 * m < Dyadic(1, F256.e0 + q)
    ensures Decode(F256, c) + m >= 0.0
    ensures var r := c + if ShouldRoundUp(neg, false, true, c % 2 == 1, mode) then 1 else 0;
            && RoundCode(F256, mode, neg, Num(Decode(F256, c) + m)) == r
            && !Is(Decode(F256, r), Num(Decode(F256, c) + m))
  {
    var x := Num(Decode(F256, c) + m);
    DecodeNonNegative(F256, c);
    assert Located(F256, c, false, true, x) by { DecodeGap(F256, c, n, q); }
    Decision(F256, mode, neg, x, c, false, true);
    var r := c + if ShouldRoundUp(neg, false, true, c % 2 == 1, mode) then 1 else 0;
    RoundsUnique(F256, mode, neg, x, r, RoundCode(F256, mode, neg, x));
  }

  lemma FarDifference(mode: Mode, neg: bool, c: nat, n: nat, q: nat, m: real)
    requires Splits(F256, c, n, q) && q >= 1
    requires 0.0 < m && 4.0 * m < Dyadic(1, F256.e0 + q) == 2.0 * Dyadic(1, F256.e0 + q - 1)
    ensures c >= 1 && Decode(F256, c) - m >= 0.0
    ensures var r := c - 1 + if ShouldRoundUp(neg, true, true, (c - 1) % 2 == 1, mode) then 1 else 0;
            && RoundCode(F256, mode, neg, Num(Decode(F256, c) - m)) == r
            && !Is(Decode(F256, r), Num(Decode(F256, c) - m))
  {
    var x := Num(Decode(F256, c) - m);
    GapBelow(c, n, q);
    DecodeNonNegative(F256, c - 1);
    assert Located(F256, c - 1, true, true, x);
    Decision(F256, mode, neg, x, c - 1, true, true);
    var r := c - 1 + if ShouldRoundUp(neg, true, true, (c - 1) % 2 == 1, mode) then 1 else 0;
    RoundsUnique(F256, mode, neg, x, r, RoundCode(F256, mode, neg, x));
  }

  /** `adjacent`: the neighbouring encoding, by incrementing or decrementing all four limbs. */
  method Adjacent(x: Word256, towardPositive: bool) returns (r: Word256)
    ensures Value(r) == (Value(x) + if towardPositive != Negative(x) then 1 else -1) % Width(4)
    ensures 1 <= Code(x) && Code(x) + 1 < Pow2(255) ==>
              && Negative(r) == Negative(x)
              && Code(r) == if towardPositive != Negative(x) then Code(x) + 1 else Code(x) - 1
  {
    var sign := Negative(x);
    var incrementBits := towardPositive != sign;
    if incrementBits {
      var next, wrapped := Increment(x);
      r := next;
    } else {
      r := Decrement(x);
    }
    AdjacentCode(x, r, if incrementBits then 1 else -1);
  }

  lemma AdjacentCode(x: Word256, r: Word256, step: int)
    requires step in {-1, 1} && Value(r) == (Value(x) + step) % Width(4)
    ensures 1 <= Code(x) && Code(x) + 1 < Pow2(255) ==> Negative(r) == Negative(x) && Code(r) == Code(x) + step
  {
    SignAndCode(x);
    Pow2Step(255);
    if 1 <= Code(x) && Code(x) + 1 < Pow2(255) {
      DivUnique(Value(x) + step, Width(4), 0, Value(x) + step);
      CodeOf(r, Negative(x), Code(x) + step);
    }
  }

  lemma CodeRoom(c: nat)
    requires c < F256.InfCode()
    ensures c + 1 < Pow2(255)
  {
    Pow2Table();
    Pow2Times(16, 3, 0x1_0000, 8, 0x8_0000);
    Pow2Add(19, 236);
    Distribute(0, 0x7FFFF, Pow2(236));
    Pow2Mono(1, 236);
  }

  /** The largest finite number, about to be rounded away from zero. */
  ghost predicate AtTheEdge(mode: Mode, dominant: Word256, deltaSign: bool) {
    Code(dominant) + 1 == F256.InfCode() && Negative(dominant) == deltaSign && AwayFromZero(mode, deltaSign)
  }

  /** One step of the dominant operand, or none. */
  method StepDominant(mode: Mode, dominant: Word256, dominantSign: bool, deltaSign: bool, fe: FeAcc, ghost m: real,
                      ghost n: nat, ghost q: nat)
    returns (r: Word256)
    requires dominantSign == Negative(dominant) && IsFinite(dominant)
    requires Splits(F256, Code(dominant), n, q) && q >= 2
    requires 0.0 < m && 4.0 * m < Dyadic(1, F256.e0 + q) == 2.0 * Dyadic(1, F256.e0 + q - 1)
    modifies fe
    ensures Magnitude(dominant) > m
    ensures var o := if dominantSign == deltaSign then RoundSigned(mode, dominantSign, Num(Magnitude(dominant) + m))
                     else RoundSigned(mode, dominantSign, Num(Magnitude(dominant) - m));
            && Negative(r) == o.neg && Code(r) == o.code
            && o.flags == if AtTheEdge(mode, dominant, deltaSign) then {Overflow, Inexact} else {Inexact}
    ensures fe.bits == old(fe.bits) + {Inexact}
  {
    ghost var c := Code(dominant);
    var step := false;
    var towardPositive := !deltaSign;
    if mode == RUP {
      step := !deltaSign;
    } else if mode == RDN {
      step := deltaSign;
    } else if mode == RTZ {
      step := dominantSign != deltaSign;
      towardPositive := dominantSign;
    }
    fe.Raise({Inexact});
    FarRounding(mode, dominantSign, dominantSign == deltaSign, c, n, q, m);
    CodeRoom(c);
    if step {
      r := Adjacent(dominant, towardPositive);
    } else {
      r := dominant;
    }
  }

  /** The dominant code, or a neighbour. */
  ghost function Stepped(mode: Mode, neg: bool, same: bool, c: nat): Outcome
    requires c >= 1
  {
    var r := if same then c + (if ShouldRoundUp(neg, false, true, c % 2 == 1, mode) then 1 else 0)
             else c - 1 + (if ShouldRoundUp(neg, true, true, (c - 1) % 2 == 1, mode) then 1 else 0);
    Outcome(neg, r, if r == F256.InfCode() then {Overflow, Inexact} else {Inexact})
  }

  lemma FarRounding(mode: Mode, neg: bool, same: bool, c: nat, n: nat, q: nat, m: real)
    requires Splits(F256, c, n, q) && q >= 2 && c < F256.InfCode()
    requires 0.0 < m && 4.0 * m < Dyadic(1, F256.e0 + q) == 2.0 * Dyadic(1, F256.e0 + q - 1)
    ensures c >= 1 && Decode(F256, c) > m
    ensures RoundSigned(mode, neg, Num(if same then Decode(F256, c) + m else Decode(F256, c) - m))
         == Stepped(mode, neg, same, c)
  {
    MulMono(2, q, Pow2(236));
    GapBelow(c, n, q);
    DecodeNonNegative(F256, c - 1);
    if same {
      FarSum(mode, neg, c, n, q, m);
      FarDelivered(mode, neg, c, Num(Decode(F256, c) + m));
    } else {
      FarDifference(mode, neg, c, n, q, m);
      FarDelivered(mode, neg, c, Num(Decode(F256, c) - m));
    }
  }

  /** A rounding next to the dominant code, never exact. */
  lemma FarDelivered(mode: Mode, neg: bool, c: nat, x: Exact)
    requires x.v >= 0.0 && Pow2(236) < c < F256.InfCode()
    requires var r := RoundCode(F256, mode, neg, x);
             c - 1 <= r <= c + 1 && !Is(Decode(F256, r), x) && (r == F256.InfCode() ==> !TowardZero(mode, neg))
    ensures var r := RoundCode(F256, mode, neg, x);
            RoundSigned(mode, neg, x) == Outcome(neg, r, if r == F256.InfCode() then {Overflow, Inexact} else {Inexact})
  {
    RoundSignedIs(mode, neg, x, RoundCode(F256, mode, neg, x));
  }

  // ----- close exponents -----

  lemma Align(sig: nat, exponent: int, common: int)
    requires sig < Pow2(237) && 0 <= exponent - common <= 274
    ensures Shl(sig, exponent - common) < Pow2(511)
    ensures Dyadic(Shl(sig, exponent - common), common - 236) == Dyadic(sig, exponent - 236)
  {
    var w := exponent - common;
    ShlRange(sig, w, 237);
    Pow2Mono(237 + w, 511);
    ShlMultiplies(sig, w);
    DyadicShift(sig, common - 236, w);
  }

  /** Exact sums and differences of aligned operands. */
  lemma ExactFrame(va: nat, vb: nat, e: int)
    ensures Dyadic(va, e) + Dyadic(vb, e) >= 0.0
    ensures Framed(238, va + vb, e, Num(Dyadic(va, e) + Dyadic(vb, e)))
    ensures va > vb ==> Dyadic(va, e) > Dyadic(vb, e) && Framed(238, va - vb, e, Num(Dyadic(va, e) - Dyadic(vb, e)))
  {
    DyadicAdd(va, vb, e);
    DyadicPositive(va, e);
    DyadicPositive(vb, e);
    ExactCell(va + vb, e, Num(Dyadic(va, e) + Dyadic(vb, e)), 0);
    if va > vb {
      DyadicMono(vb, va, e);
      ExactCell(va - vb, e, Num(Dyadic(va, e) - Dyadic(vb, e)), 0);
    }
  }

  /** The exact path: both operands on a common scale of at most 511 bits. */
  method AddNear(mode: Mode, da: Decoded, db: Decoded, fe: FeAcc, ghost ma: real, ghost mb: real) returns (r: Word256)
    requires Value(da.sig) < Pow2(237) && Value(db.sig) < Pow2(237)
    requires -274 <= da.exponent - db.exponent <= 274
    requires ma == Dyadic(Value(da.sig), da.exponent - 236) && mb == Dyadic(Value(db.sig), db.exponent - 236)
    requires ma >= 0.0 && mb >= 0.0
    modifies fe
    ensures Encodes(r, Joined(mode, da.sign, ma, db.sign, mb))
    ensures fe.bits == old(fe.bits) + Joined(mode, da.sign, ma, db.sign, mb).flags
  {
    var common := if da.exponent < db.exponent then da.exponent else db.exponent;
    Align(Value(da.sig), da.exponent, common);
    Align(Value(db.sig), db.exponent, common);
    var ea := ShlExact(da.sig, da.exponent - common, 511);
    var eb := ShlExact(db.sig, db.exponent - common, 511);
    if da.sign == db.sign {
      r := SumNear(mode, da.sign, ea, eb, common - 236, fe, ma, mb);
    } else {
      r := SubtractNear(mode, da.sign, ea, eb, common - 236, fe, ma, mb);
    }
  }

  method SumNear(mode: Mode, sign: bool, ea: Big8, eb: Big8, scale: int, fe: FeAcc, ghost ma: real, ghost mb: real)
    returns (r: Word256)
    requires Value(ea) < Pow2(511) && Value(eb) < Pow2(511) && ma + mb >= 0.0
    requires ma == Dyadic(Value(ea), scale) && mb == Dyadic(Value(eb), scale)
    modifies fe
    ensures Encodes(r, RoundSigned(mode, sign, Num(ma + mb)))
    ensures fe.bits == old(fe.bits) + RoundSigned(mode, sign, Num(ma + mb)).flags
  {
    ExactFrame(Value(ea), Value(eb), scale);
    Pow2Step(511);
    var exact := AddExact(ea, eb, 512);
    r := PackScaled(sign, exact, scale, mode, fe, Num(ma + mb));
  }

  /** The difference of two aligned magnitudes under the sign of the larger one. */
  method SubtractNear(mode: Mode, sign: bool, ea: Big8, eb: Big8, scale: int, fe: FeAcc, ghost ma: real, ghost mb: real)
    returns (r: Word256)
    requires ma == Dyadic(Value(ea), scale) && mb == Dyadic(Value(eb), scale)
    modifies fe
    ensures Encodes(r, Difference(mode, sign, ma, mb))
    ensures fe.bits == old(fe.bits) + Difference(mode, sign, ma, mb).flags
  {
    ExactFrame(Value(ea), Value(eb), scale);
    ExactFrame(Value(eb), Value(ea), scale);
    var cmp := CompareLimbs(ea, eb);
    if cmp == 0 {
      r := ZeroValue(mode == RDN);
    } else if cmp > 0 {
      var exact := SubExact(ea, eb);
      r := PackScaled(sign, exact, scale, mode, fe, Num(ma - mb));
    } else {
      var exact := SubExact(eb, ea);
      r := PackScaled(!sign, exact, scale, mode, fe, Num(mb - ma));
    }
  }

  // ----- addition -----

  /** The distant path steps past the largest finite number but raises no overflow. */
  ghost predicate MissedOverflow(mode: Mode, a: Word256, b: Word256) {
    && IsFinite(a) && IsFinite(b) && !IsZero(a) && !IsZero(b)
    && ((Far(a, b) && AtTheEdge(mode, a, Negative(b))) || (Far(b, a) && AtTheEdge(mode, b, Negative(a))))
  }

  ghost function AddFlags(mode: Mode, a: Word256, b: Word256): set<Flag> {
    if MissedOverflow(mode, a, b) then {Inexact} else Sum(mode, a, b).flags
  }

  method PropagateNan(a: Word256, b: Word256, da: Decoded, db: Decoded, fe: FeAcc) returns (r: Word256)
    requires Decodes(a, da) && Decodes(b, db)
    modifies fe
    ensures Encodes(r, NanResult(a, b)) && fe.bits == old(fe.bits) + NanResult(a, b).flags
  {
    if da.snan || db.snan {
      fe.Raise({Invalid});
    }
    if da.nan {
      r := QuietNan(a);
    } else if db.nan {
      r := QuietNan(b);
    } else {
      r := DefaultNan();
    }
  }

  /** The path for distant exponents, `dominant` being the operand of the larger one. */
  method AddFar(mode: Mode, dominant: Word256, d: Decoded, other: Word256, o: Decoded, fe: FeAcc) returns (r: Word256)
    requires IsFinite(dominant) && IsFinite(other) && !IsZero(dominant) && !IsZero(other)
    requires Decodes(dominant, d) && Decodes(other, o) && d.exponent - o.exponent > 274
    modifies fe
    ensures Magnitude(dominant) > Magnitude(other) > 0.0
    ensures var s := Joined(mode, d.sign, Magnitude(dominant), o.sign, Magnitude(other));
            && Negative(r) == s.neg && Code(r) == s.code
            && s.flags == if AtTheEdge(mode, dominant, o.sign) then {Overflow, Inexact} else {Inexact}
    ensures fe.bits == old(fe.bits) + {Inexact}
  {
    ghost var q := d.exponent - EMIN;
    Binade(other, o.exponent, Value(o.sig));
    DyadicPositive(1, o.exponent);
    Quarter(Magnitude(other), o.exponent, q);
    r := StepDominant(mode, dominant, d.sign, o.sign, fe, Magnitude(other), Value(d.sig), q);
  }

  /** `add_impl`. The value is always the correct rounding; the flags are, except in `MissedOverflow`. */
  method AddImpl(mode: Mode, a: Word256, b: Word256, fe: FeAcc) returns (r: Word256)
    modifies fe
    ensures Encodes(r, Sum(mode, a, b))
    ensures fe.bits == old(fe.bits) + AddFlags(mode, a, b)
  {
    var da := DecodeWord(a);
    var db := DecodeWord(b);
    if da.nan || db.nan {
      r := PropagateNan(a, b, da, db, fe);
      return;
    }
    if da.inf || db.inf {
      if da.inf && db.inf && da.sign != db.sign {
        fe.Raise({Invalid});
        r := DefaultNan();
        return;
      }
      return if da.inf then a else b;
    }
    SumOfMagnitudes(mode, a, b);
    if da.zero && db.zero {
      r := ZeroValue(if da.sign == db.sign then da.sign else mode == RDN);
      return;
    }
    if da.zero {
      return b;
    }
    if db.zero {
      return a;
    }
    r := AddFinite(mode, a, b, da, db, fe);
  }

  method AddFinite(mode: Mode, a: Word256, b: Word256, da: Decoded, db: Decoded, fe: FeAcc) returns (r: Word256)
    requires IsFinite(a) && IsFinite(b) && !IsZero(a) && !IsZero(b) && Decodes(a, da) && Decodes(b, db)
    requires Magnitude(a) >= 0.0 && Magnitude(b) >= 0.0
    requires Sum(mode, a, b) == Joined(mode, Negative(a), Magnitude(a), Negative(b), Magnitude(b))
    modifies fe
    ensures Encodes(r, Sum(mode, a, b))
    ensures fe.bits == old(fe.bits) + AddFlags(mode, a, b)
  {
    FarExponents(a, da.exponent, Value(da.sig), b, db.exponent, Value(db.sig));
    FarExponents(b, db.exponent, Value(db.sig), a, da.exponent, Value(da.sig));
    var difference := if da.exponent > db.exponent then da.exponent - db.exponent else db.exponent - da.exponent;
    if difference <= 274 {
      r := AddNear(mode, da, db, fe, Magnitude(a), Magnitude(b));
    } else if da.exponent > db.exponent {
      r := AddFar(mode, a, da, b, db, fe);
    } else {
      JoinedSwaps(mode, da.sign, Magnitude(a), db.sign, Magnitude(b));
      r := AddFar(mode, b, db, a, da, fe);
    }
  }

  lemma JoinedSwaps(mode: Mode, aNeg: bool, ma: real, bNeg: bool, mb: real)
    requires ma >= 0.0 && mb >= 0.0
    ensures Joined(mode, aNeg, ma, bNeg, mb) == Joined(mode, bNeg, mb, aNeg, ma)
  {
    assert ma + mb == mb + ma;
  }

  /** Wherever the flags differ from those of the correct rounding, an overflow is missed. */
  lemma MissedOverflowFlags(mode: Mode, a: Word256, b: Word256)
    requires MissedOverflow(mode, a, b)
    ensures Sum(mode, a, b).flags == {Overflow, Inexact} != AddFlags(mode, a, b)
  {
    SumOfMagnitudes(mode, a, b);
    if Far(a, b) && AtTheEdge(mode, a, Negative(b)) {
      MissedStep(mode, a, b);
    } else {
      MissedStep(mode, b, a);
      JoinedSwaps(mode, Negative(a), Magnitude(a), Negative(b), Magnitude(b));
    }
  }

  lemma MissedStep(mode: Mode, a: Word256, b: Word256)
    requires IsFinite(a) && IsFinite(b) && !IsZero(b) && Far(a, b) && AtTheEdge(mode, a, Negative(b))
    requires Magnitude(a) >= 0.0 && Magnitude(b) >= 0.0
    ensures Joined(mode, Negative(a), Magnitude(a), Negative(b), Magnitude(b)).flags == {Overflow, Inexact}
  {
    var n, q := 2 * Pow2(236) - 1, BIAS - EMIN;
    FiniteCodes(b);
    LargestFinite(a);
    var e: int :| Dyadic(1, e) <= Magnitude(a) && Magnitude(b) < Dyadic(1, e - 274);
    Binade(a, BIAS, n);
    BinadeOrder(e, BIAS + 1);
    Quarter(Magnitude(b), e - 275, q);
    FarRounding(mode, Negative(a), true, Code(a), n, q, Magnitude(b));
  }

  lemma LargestFinite(a: Word256)
    requires Code(a) + 1 == F256.InfCode()
    ensures Unpacked(a, BIAS, 2 * Pow2(236) - 1)
  {
    var p := Pow2(236);
    Pow2Step(236);
    Pow2Mono(1, 236);
    Distribute1(0x7FFFF, p);
    Distribute(0, 524285, p);
    DecodeGrid(F256, 2 * p - 1, 524285, Code(a));
  }

  /** The condition is met: the largest finite number plus the smallest subnormal, rounded up. */
  lemma MissedOverflowExample(a: Word256, b: Word256)
    requires a == [0xFFFF_FFFF_FFFF_FFFF, 0xFFFF_FFFF_FFFF_FFFF, 0xFFFF_FFFF_FFFF_FFFF, 0x7FFF_EFFF_FFFF_FFFF]
    requires b == [1, 0, 0, 0]
    ensures MissedOverflow(RUP, a, b)
  {
    LargestOperand(a);
    SmallestOperand(b);
    LargestFinite(a);
    FarExponents(a, BIAS, 2 * Pow2(236) - 1, b, EMIN - 236, Pow2(236));
  }

  lemma LargestOperand(a: Word256)
    requires a == [0xFFFF_FFFF_FFFF_FFFF, 0xFFFF_FFFF_FFFF_FFFF, 0xFFFF_FFFF_FFFF_FFFF, 0x7FFF_EFFF_FFFF_FFFF]
    ensures !Negative(a) && Code(a) == F256.InfCode() - 1
  {
    AllOnes(a, 3);
    Pow2Field();
    var p, w := Pow2(192), 0x7FFF_EFFF_FFFF_FFFF;
    assert a[3] % TWO63 == w;
    Distribute(w, 1, p);
    Assoc(0x7FFFF, TWO44, p);
  }

  lemma SmallestOperand(b: Word256)
    requires b == [1, 0, 0, 0]
    ensures !Negative(b) && Code(b) == 1 && 1 < F256.InfCode() && Unpacked(b, EMIN - 236, Pow2(236))
  {
    TrailingZeros(b[..3], 1);
    assert b[..3][..1] == [] + [1];
    DigitsAppend(64, [], 1);
    Pow2Zero();
    Pow2Step(236);
    Pow2Mono(1, 236);
    MulMono(1, 0x7FFFF, Pow2(236));
    DecodeGrid(F256, 1, 0, 1);
    DyadicShift(1, EMIN - 236 - 236, 236);
  }
}
