/** Multiplication, division and square root of src/fp256/soft_f256.cpp, in every rounding mode. */
module Arithmetic256 {
  import opened Powers
  import opened Shifts
  import opened Rounding
  import opened ExactResults
  import opened Frames
  import opened Words
  import opened BigUint
  import opened Fenv
  import opened Binary256
  import opened Pack256
  import opened Add256

  // ----- what the operations must deliver -----

  ghost function Product(mode: Mode, a: Word256, b: Word256): Outcome {
    var neg := Negative(a) != Negative(b);
    if IsNan(a) || IsNan(b) then NanResult(a, b)
    else if (IsInf(a) && IsZero(b)) || (IsInf(b) && IsZero(a)) then InvalidResult()
    else if IsInf(a) || IsInf(b) then Outcome(neg, F256.InfCode(), {})
    else if IsZero(a) || IsZero(b) then Outcome(neg, 0, {})
    else
      TimesNonNegative(a, b);
      RoundSigned(mode, neg, Num(Times(Magnitude(a), Magnitude(b))))
  }

  ghost function Quotient(mode: Mode, a: Word256, b: Word256): Outcome {
    var neg := Negative(a) != Negative(b);
    if IsNan(a) || IsNan(b) then NanResult(a, b)
    else if (IsInf(a) && IsInf(b)) || (IsZero(a) && IsZero(b)) then InvalidResult()
    else if IsInf(a) then Outcome(neg, F256.InfCode(), {})
    else if IsInf(b) then Outcome(neg, 0, {})
    else if IsZero(b) then Outcome(neg, F256.InfCode(), {DivByZero})
    else if IsZero(a) then Outcome(neg, 0, {})
    else
      QuotientSign(a, b);
      RoundSigned(mode, neg, Num(Magnitude(a) / Magnitude(b)))
  }

  ghost function SquareRoot(mode: Mode, a: Word256): Outcome {
    if IsNan(a) then NanResult(a, a)
    else if IsZero(a) then Outcome(Negative(a), 0, {})
    else if Negative(a) then InvalidResult()
    else if IsInf(a) then Outcome(false, Code(a), {})
    else
      FiniteCodes(a);
      RoundSigned(mode, false, Root(Real(a)))
  }

  lemma RoundWithSign(mode: Mode, neg: bool, v: real, m: real)
    requires m >= 0.0 && v == if neg then -m else m
    ensures RoundReal(mode, v, neg) == if m == 0.0 then Outcome(neg, 0, {}) else RoundSigned(mode, neg, Num(m))
  {
  }

  lemma InfPositive()
    ensures 0 < F256.InfCode()
  {
    MulMono(1, 0x7FFFF, Pow2(236));
  }

  /** The product is the rounded product of the values. */
  lemma ProductMeans(mode: Mode, a: Word256, b: Word256)
    requires IsFinite(a) && IsFinite(b)
    ensures Product(mode, a, b) == RoundReal(mode, Real(a) * Real(b), Negative(a) != Negative(b))
  {
    InfPositive();
    ProductSign(a, b);
    MagnitudeProduct(a, b);
    RoundWithSign(mode, Negative(a) != Negative(b), Real(a) * Real(b), Times(Magnitude(a), Magnitude(b)));
  }

  /** The quotient is the rounded quotient of the values. */
  lemma QuotientMeans(mode: Mode, a: Word256, b: Word256)
    requires IsFinite(a) && IsFinite(b) && !IsZero(b)
    ensures Real(b) != 0.0
    ensures Quotient(mode, a, b) == RoundReal(mode, Real(a) / Real(b), Negative(a) != Negative(b))
  {
    QuotientSign(a, b);
    RoundWithSign(mode, Negative(a) != Negative(b), Real(a) / Real(b), Magnitude(a) / Magnitude(b));
  }

  lemma ProductSign(a: Word256, b: Word256)
    ensures var p := Magnitude(a) * Magnitude(b);
            && p >= 0.0 && (p == 0.0 <==> IsZero(a) || IsZero(b))
            && Real(a) * Real(b) == if Negative(a) != Negative(b) then -p else p
  {
    FiniteCodes(a);
    FiniteCodes(b);
    SignOfProduct(Magnitude(a), Magnitude(b));
  }

  lemma QuotientSign(a: Word256, b: Word256)
    requires !IsZero(b)
    ensures Magnitude(b) > 0.0 && Real(b) != 0.0
    ensures var p := Magnitude(a) / Magnitude(b);
            && p >= 0.0 && (p == 0.0 <==> IsZero(a))
            && Real(a) / Real(b) == if Negative(a) != Negative(b) then -p else p
  {
    FiniteCodes(a);
    FiniteCodes(b);
    SignOfRatio(Magnitude(a), Magnitude(b));
  }

  // ----- multiplication -----

  /** The exact product of two significands. */
  method SigProduct(a: Big8, b: Big8) returns (r: Big8)
    requires Value(a) < Pow2(237) && Value(b) < Pow2(237)
    ensures Value(r) == Value(a) * Value(b)
  {
    Pow2Mono(237, 64 * 4);
    DivUnique(Value(a), Width(4), 0, Value(a));
    DivUnique(Value(b), Width(4), 0, Value(b));
    var x := Widen(a, 4);
    var y := Widen(b, 4);
    r := Multiply(x, y);
  }

  /** `mul_impl`. */
  method MulImpl(mode: Mode, a: Word256, b: Word256, fe: FeAcc) returns (r: Word256)
    modifies fe
    ensures Encodes(r, Product(mode, a, b)) && fe.bits == old(fe.bits) + Product(mode, a, b).flags
  {
    InfPositive();
    var da := DecodeWord(a);
    var db := DecodeWord(b);
    var sign := da.sign != db.sign;
    if da.nan || db.nan {
      r := PropagateNan(a, b, da, db, fe);
      return;
    }
    if (da.inf && db.zero) || (db.inf && da.zero) {
      fe.Raise({Invalid});
      r := DefaultNan();
      return;
    }
    if da.inf || db.inf {
      r := InfValue(sign);
      return;
    }
    if da.zero || db.zero {
      r := ZeroValue(sign);
      return;
    }
    TimesNonNegative(a, b);
    r := MulFinite(mode, sign, da, db, fe, Magnitude(a), Magnitude(b));
  }

  lemma MagnitudeProduct(a: Word256, b: Word256)
    ensures Times(Magnitude(a), Magnitude(b)) == Magnitude(a) * Magnitude(b) >= 0.0
  {
    TimesDef(Magnitude(a), Magnitude(b));
    ProductSign(a, b);
  }

  lemma TimesNonNegative(a: Word256, b: Word256)
    ensures Times(Magnitude(a), Magnitude(b)) >= 0.0
  {
    MagnitudeProduct(a, b);
  }

  method MulFinite(mode: Mode, sign: bool, da: Decoded, db: Decoded, fe: FeAcc, ghost ma: real, ghost mb: real)
    returns (r: Word256)
    requires Value(da.sig) < Pow2(237) && Value(db.sig) < Pow2(237)
    requires ma == Dyadic(Value(da.sig), da.exponent - 236) && mb == Dyadic(Value(db.sig), db.exponent - 236)
    requires Times(ma, mb) >= 0.0
    modifies fe
    ensures Encodes(r, RoundSigned(mode, sign, Num(Times(ma, mb))))
    ensures fe.bits == old(fe.bits) + RoundSigned(mode, sign, Num(Times(ma, mb))).flags
  {
    TimesDef(ma, mb);
    var product := SigProduct(da.sig, db.sig);
    ExactProduct(Value(da.sig), da.exponent - 236, Value(db.sig), db.exponent - 236, Value(product));
    r := PackScaled(sign, product, da.exponent + db.exponent - 2 * 236, mode, fe, Num(Times(ma, mb)));
  }

  // ----- division -----

  /** The quotient's bit `pos` is still clear, and setting it continues the prefix. */
  lemma PrefixBit(qh: nat, pos: nat)
    ensures !Bit(Shl(qh, pos + 1), pos)
    ensures Shl(qh, pos + 1) == Shl(2 * qh, pos)
    ensures Shl(qh, pos + 1) + Pow2(pos) == Shl(2 * qh + 1, pos)
  {
    ShlMultiplies(qh, pos + 1);
    ShlMultiplies(2 * qh, pos);
    ShlMultiplies(2 * qh + 1, pos);
    Pow2Step(pos);
    Expand(qh, Pow2(pos));
    ShrOfShl(2 * qh, pos, 0);
    assert Shr(2 * qh, 0) == 2 * qh;
  }

  /** One quotient bit: subtract if the divisor fits. */
  method DivideStep(q0: Big8, rem0: Big8, den: Big8, pos: nat, ghost num: nat, ghost steps: nat, ghost qh0: nat)
    returns (q: Big8, rem: Big8, ghost qh: nat)
    requires pos < 240 && Value(q0) == Shl(qh0, pos + 1) && Partial(num, Value(den), steps, qh0, Value(rem0))
    ensures Value(q) == Shl(qh, pos)
    ensures Shl(num, steps) == qh * Value(den) + Value(rem) && Value(rem) < Value(den)
  {
    QuotientBit(num, Value(den), steps, qh0, Value(rem0));
    PrefixBit(qh0, pos);
    q, rem, qh := q0, rem0, 2 * qh0;
    var cmp := CompareLimbs(rem, den);
    if cmp >= 0 {
      rem := SubExact(rem, den);
      q := SetBit(q, pos);
      qh := 2 * qh0 + 1;
    }
  }

  /** The restoring division loop of `div_impl`: 240 quotient bits and the last remainder. */
  method Divide(num: Big8, den: Big8) returns (q: Big8, rem: Big8)
    requires Pow2(236) <= Value(den) < Pow2(237) && Value(den) <= Value(num) < 2 * Value(den)
    ensures Value(q) * Value(den) + Value(rem) == Shl(Value(num), 239) && Value(rem) < Value(den)
  {
    rem, q := num, [0, 0, 0, 0, 0, 0, 0, 0];
    ZeroDigits(64, q);
    ghost var qh: nat := 0;
    ShlMultiplies(0, 240);
    assert Shl(Value(num), 0) == Value(num);
    for pos := 240 downto 0
      invariant Value(q) == Shl(qh, pos)
      invariant pos > 0 ==> Partial(Value(num), Value(den), 240 - pos, qh, Value(rem))
      invariant pos == 0 ==> Shl(Value(num), 239) == qh * Value(den) + Value(rem) && Value(rem) < Value(den)
    {
      q, rem, qh := DivideStep(q, rem, den, pos, Value(num), 239 - pos, qh);
      if pos != 0 {
        NextBit(Value(num), Value(den), 239 - pos, qh, Value(rem));
        rem := Twice(rem, 237);
      }
    }
    assert Shl(qh, 0) == qh;
  }

  method Twice(a: Big8, ghost k: nat) returns (r: Big8)
    requires k < 512 && Value(a) < Pow2(k)
    ensures Value(r) == 2 * Value(a)
  {
    ShlRange(Value(a), 1, k);
    assert Shl(Value(a), 0) == Value(a) && Shl(Value(a), 1) == 2 * Value(a);
    r := ShlExact(a, 1, k + 1);
  }

  /** ORs a sticky bit into bit 0. */
  method Sticky(a: Big8, rem: Big8) returns (r: Big8)
    ensures Value(r) == Value(a) + if Value(rem) != 0 && Value(a) % 2 == 0 then 1 else 0
  {
    var exact := AllZero(rem);
    r := a;
    if !exact {
      r := OrOne(a);
    }
  }

  /** The quotient has its leading bit at 239. */
  lemma QuotientTop(num: nat, den: nat, q: nat, rem: nat)
    requires den <= num < 2 * den && q * den + rem == Shl(num, 239) && rem < den
    ensures Pow2(239) <= q < 2 * Pow2(239)
  {
    var p := Pow2(239);
    ShlMultiplies(num, 239);
    MulMono(den, num, p);
    MulStrict(num, 2 * den, p);
    Assoc(2, den, p);
    if q < p {
      MulStrict(q, p, den);
      Distribute(0, q, den);
    }
    if q >= 2 * p {
      MulMono(2 * p, q, den);
      Assoc(2, p, den);
    }
  }

  /** `div_impl`. */
  method DivImpl(mode: Mode, a: Word256, b: Word256, fe: FeAcc) returns (r: Word256)
    modifies fe
    ensures Encodes(r, Quotient(mode, a, b)) && fe.bits == old(fe.bits) + Quotient(mode, a, b).flags
  {
    InfPositive();
    var da := DecodeWord(a);
    var db := DecodeWord(b);
    var sign := da.sign != db.sign;
    if da.nan || db.nan {
      r := PropagateNan(a, b, da, db, fe);
      return;
    }
    if (da.inf && db.inf) || (da.zero && db.zero) {
      fe.Raise({Invalid});
      r := DefaultNan();
      return;
    }
    if da.inf {
      r := InfValue(sign);
      return;
    }
    if db.inf {
      r := ZeroValue(sign);
      return;
    }
    if db.zero {
      fe.Raise({DivByZero});
      r := InfValue(sign);
      return;
    }
    QuotientSign(a, b);
    if da.zero {
      r := ZeroValue(sign);
      return;
    }
    r := DivFinite(mode, sign, da, db, fe, Magnitude(a), Magnitude(b));
  }

  method DivFinite(mode: Mode, sign: bool, da: Decoded, db: Decoded, fe: FeAcc, ghost ma: real, ghost mb: real)
    returns (r: Word256)
    requires Pow2(236) <= Value(da.sig) < Pow2(237) && Pow2(236) <= Value(db.sig) < Pow2(237)
    requires ma == Dyadic(Value(da.sig), da.exponent - 236) && mb == Dyadic(Value(db.sig), db.exponent - 236)
    requires mb > 0.0 && ma / mb >= 0.0
    modifies fe
    ensures Encodes(r, RoundSigned(mode, sign, Num(ma / mb)))
    ensures fe.bits == old(fe.bits) + RoundSigned(mode, sign, Num(ma / mb)).flags
  {
    var exponent := da.exponent - db.exponent;
    var num := da.sig;
    Pow2Step(236);
    var cmp := CompareLimbs(num, db.sig);
    if cmp < 0 {
      DyadicTwice(Value(num), da.exponent - 237);
      num := Twice(num, 237);
      exponent := exponent - 1;
    }
    var q, rem := Divide(num, db.sig);
    QuotientFramed(Value(num), Value(db.sig), exponent, db.exponent - 236, Value(q), Value(rem));
    q := Sticky(q, rem);
    r := PackScaled(sign, q, exponent - 236 - 3, mode, fe, Num(ma / mb));
  }

  /** The 240-bit quotient with its sticky bit rounds as the exact one. */
  lemma QuotientFramed(num: nat, den: nat, exponent: int, eb: int, q: nat, rem: nat)
    requires 0 < den <= num < 2 * den && q * den + rem == Shl(num, 239) && rem < den
    ensures Dyadic(den, eb) > 0.0
    ensures Framed(238, q + if rem != 0 && q % 2 == 0 then 1 else 0, exponent - 239,
                   Num(Dyadic(num, exponent + eb) / Dyadic(den, eb)))
  {
    QuotientTop(num, den, q, rem);
    ShlMultiplies(num, 239);
    DyadicShift(num, exponent + eb - 239, 239);
    RatioCell(Shl(num, 239), den, exponent - 239, eb, q, rem);
    Pow2Mono(238, 239);
    StickyFramed(238, q, rem == 0, exponent - 239, Num(Dyadic(num, exponent + eb) / Dyadic(den, eb)));
  }
}
