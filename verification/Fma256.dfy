/** Square root and fused multiply-add of src/fp256/soft_f256.cpp, in every rounding mode. */
module Fma256 {
  import opened Powers
  import opened Shifts
  import opened Rounding
  import opened Cells
  import opened ExactResults
  import opened Frames
  import opened Words
  import opened BigUint
  import opened Fenv
  import opened Binary256
  import opened Pack256
  import opened Add256
  import opened Arithmetic256

  // ----- square root -----

  /** The radicand loses two bits per step. */
  lemma TopPair(rad: nat, i: nat)
    ensures Shr(rad, 2 * i)
         == 4 * Shr(rad, 2 * (i + 1)) + (if Bit(rad, 2 * i + 1) then 2 else 0) + (if Bit(rad, 2 * i) then 1 else 0)
  {
    assert Shr(rad, 2 * i + 1) == Shr(rad, 2 * i) / 2;
    assert Shr(rad, 2 * i + 2) == Shr(rad, 2 * i + 1) / 2;
  }

  method FourTimes(a: Big8, ghost k: nat) returns (r: Big8)
    requires k <= 510 && Value(a) < Pow2(k)
    ensures Value(r) == 4 * Value(a) && !Bit(Value(r), 0) && !Bit(Value(r), 1)
  {
    ShlRange(Value(a), 2, k);
    Quadruple(Value(a));
    r := ShlExact(a, 2, k + 2);
  }

  lemma Quadruple(n: nat)
    ensures Shl(n, 2) == 4 * n && !Bit(4 * n, 0) && !Bit(4 * n, 1)
  {
    assert Shl(n, 0) == n && Shl(n, 1) == 2 * n;
    assert Shr(4 * n, 0) == 4 * n && Shr(4 * n, 1) == 2 * n;
  }

  lemma EvenPair(n: nat)
    ensures (4 * n) % 2 == 0 && (4 * n + 2) % 2 == 0
  {
    DivUnique(4 * n, 2, 2 * n, 0);
    DivUnique(4 * n + 2, 2, 2 * n + 1, 0);
  }

  /** Shifts the next pair of radicand bits into the remainder. */
  method TakePair(rem0: Big8, rad: Big8, i: nat) returns (rem: Big8)
    requires Value(rem0) < Pow2(300)
    ensures Value(rem)
         == 4 * Value(rem0) + (if Bit(Value(rad), 2 * i + 1) then 2 else 0) + (if Bit(Value(rad), 2 * i) then 1 else 0)
  {
    Pow2Table();
    rem := FourTimes(rem0, 300);
    EvenPair(Value(rem0));
    if BitAt(rad, i * 2 + 1) {
      rem := SetBit(rem, 1);
    }
    if BitAt(rad, i * 2) {
      rem := OrOne(rem);
    }
  }

  /** One digit of the root. */
  method RootDigit(root0: Big8, rem0: Big8, rad: Big8, i: nat, ghost t: nat, ghost n: nat)
    returns (root: Big8, rem: Big8)
    requires n < 240 && Extracted(t, Value(root0), Value(rem0), n)
    requires t == Shr(Value(rad), 2 * (i + 1))
    ensures Extracted(Shr(Value(rad), 2 * i), Value(root), Value(rem), n + 1)
  {
    RootBounds(Value(root0), Value(rem0), n);
    TopPair(Value(rad), i);
    NextDigit(t, Value(root0), Value(rem0), n, Shr(Value(rad), 2 * i) - 4 * t);
    rem := TakePair(rem0, rad, i);
    var trial := FourTimes(root0, 240);
    trial := OrOne(trial);
    var cmp := CompareLimbs(rem, trial);
    root := Twice(root0, 240);
    if cmp >= 0 {
      rem := SubExact(rem, trial);
      root := OrOne(root);
    }
  }

  lemma RootBounds(root: nat, rem: nat, n: nat)
    requires n < 240 && root < Pow2(n) && rem <= 2 * root
    ensures root < Pow2(240) && rem < Pow2(300)
  {
    Pow2Mono(n, 240);
    Pow2Step(240);
    Pow2Mono(241, 300);
  }

  /** The loop of `sqrt_impl`: 240 digits of the root of a 480-bit radicand. */
  method IntegerRoot(rad: Big8) returns (root: Big8, rem: Big8)
    requires Value(rad) < Pow2(480)
    ensures Extracted(Value(rad), Value(root), Value(rem), 240)
  {
    rem, root := [0, 0, 0, 0, 0, 0, 0, 0], [0, 0, 0, 0, 0, 0, 0, 0];
    ZeroDigits(64, rem);
    ShrAll(Value(rad), 480, 480);
    Pow2Zero();
    for i := 240 downto 0
      invariant Extracted(Shr(Value(rad), 2 * i), Value(root), Value(rem), 240 - i)
    {
      root, rem := RootDigit(root, rem, rad, i, Shr(Value(rad), 2 * (i + 1)), 239 - i);
    }
    assert Shr(Value(rad), 0) == Value(rad);
  }

  lemma NextSquare(n: nat)
    ensures (n + 1) * (n + 1) == n * n + 2 * n + 1
  {
  }

  lemma RootTop(root: nat, rem: nat, rad: nat, k: nat)
    requires root * root + rem == rad && rem <= 2 * root && rad >= Pow2(2 * k)
    ensures root >= Pow2(k)
  {
    if root < Pow2(k) {
      Pow2Add(k, k);
      NextSquare(root);
      MulMono(root + 1, Pow2(k), root + 1);
      MulMono(root + 1, Pow2(k), Pow2(k));
    }
  }

  /** `sqrt_impl`. */
  method SqrtImpl(mode: Mode, x: Word256, fe: FeAcc) returns (r: Word256)
    modifies fe
    ensures Encodes(r, SquareRoot(mode, x)) && fe.bits == old(fe.bits) + SquareRoot(mode, x).flags
  {
    InfPositive();
    var d := DecodeWord(x);
    if d.nan {
      r := PropagateNan(x, x, d, d, fe);
      return;
    }
    if d.sign && !d.zero {
      fe.Raise({Invalid});
      r := DefaultNan();
      return;
    }
    if d.inf || d.zero {
      return x;
    }
    FiniteCodes(x);
    r := SqrtFinite(mode, d, fe, Magnitude(x));
  }

  method SqrtFinite(mode: Mode, d: Decoded, fe: FeAcc, ghost v: real) returns (r: Word256)
    requires Pow2(236) <= Value(d.sig) < Pow2(237) && v == Dyadic(Value(d.sig), d.exponent - 236) && v >= 0.0
    modifies fe
    ensures Encodes(r, RoundSigned(mode, false, Root(v)))
    ensures fe.bits == old(fe.bits) + RoundSigned(mode, false, Root(v)).flags
  {
    var sig, half := EvenExponent(d, v);
    Radicand(Value(sig), half);
    var rad := ShlExact(sig, 236 + 6, 480);
    r := RoundRoot(mode, rad, half, fe, v);
  }

  /** An odd exponent gives one place to the significand; then it is halved. */
  method EvenExponent(d: Decoded, ghost v: real) returns (sig: Big8, half: int)
    requires Pow2(236) <= Value(d.sig) < Pow2(237) && v == Dyadic(Value(d.sig), d.exponent - 236)
    ensures Pow2(236) <= Value(sig) < Pow2(238) && v == Dyadic(Value(sig), 2 * half - 236)
  {
    sig, half := d.sig, d.exponent / 2;
    Pow2Step(237);
    if d.exponent % 2 != 0 {
      DyadicTwice(Value(sig), d.exponent - 237);
      sig := Twice(sig, 237);
      half := (d.exponent - 1) / 2;
    }
  }

  lemma Radicand(sig: nat, half: int)
    requires Pow2(236) <= sig < Pow2(238)
    ensures Pow2(478) <= Shl(sig, 242) < Pow2(480)
    ensures Dyadic(Shl(sig, 242), 2 * (half - 239)) == Dyadic(sig, 2 * half - 236)
  {
    ShlRange(sig, 242, 236);
    ShlRange(sig, 242, 238);
    ShlMultiplies(sig, 242);
    DyadicShift(sig, 2 * (half - 239), 242);
  }

  /** The integer root of a 479- or 480-bit radicand, with its remainder as sticky bit, rounds as the
      real root. */
  method RoundRoot(mode: Mode, rad: Big8, half: int, fe: FeAcc, ghost v: real) returns (r: Word256)
    requires Pow2(478) <= Value(rad) < Pow2(480) && v == Dyadic(Value(rad), 2 * (half - 239)) && v >= 0.0
    modifies fe
    ensures Encodes(r, RoundSigned(mode, false, Root(v)))
    ensures fe.bits == old(fe.bits) + RoundSigned(mode, false, Root(v)).flags
  {
    var root, rem := IntegerRoot(rad);
    RootTop(Value(root), Value(rem), Value(rad), 239);
    RootCell(Value(root), Value(rem), Value(rad), half - 239);
    Pow2Mono(238, 239);
    StickyFramed(238, Value(root), Value(rem) == 0, half - 239, Root(v));
    root := Sticky(root, rem);
    r := PackScaled(false, root, half - 236 - 3, mode, fe, Root(v));
  }

  // ----- fused multiply-add -----

  /** Fused multiply-add, in terms of the product of the magnitudes. */
  ghost function FusedSum(mode: Mode, a: Word256, b: Word256, c: Word256): Outcome {
    var neg := Negative(a) != Negative(b);
    if IsNan(a) || IsNan(b) then NanResult(a, b)
    else if IsNan(c) then NanResult(c, c)
    else if (IsInf(a) && IsZero(b)) || (IsInf(b) && IsZero(a)) then InvalidResult()
    else if (IsInf(a) || IsInf(b)) && IsInf(c) && Negative(c) != neg then InvalidResult()
    else if IsInf(a) || IsInf(b) then Outcome(neg, F256.InfCode(), {})
    else if IsInf(c) then Outcome(Negative(c), Code(c), {})
    else if (IsZero(a) || IsZero(b)) && IsZero(c) then Outcome(if neg == Negative(c) then neg else mode == RDN, 0, {})
    else
      TimesNonNegative(a, b);
      FiniteCodes(c);
      Joined(mode, neg, Times(Magnitude(a), Magnitude(b)), Negative(c), Magnitude(c))
  }

  /** For finite operands that is the exact a * b + c rounded once. */
  lemma FusedMeans(mode: Mode, a: Word256, b: Word256, c: Word256)
    requires IsFinite(a) && IsFinite(b) && IsFinite(c)
    ensures FusedSum(mode, a, b, c)
         == RoundReal(mode, Real(a) * Real(b) + Real(c),
                      if (Negative(a) != Negative(b)) == Negative(c) then Negative(c) else mode == RDN)
  {
    ProductSign(a, b);
    MagnitudeProduct(a, b);
    FiniteCodes(c);
    InfPositive();
    JoinedMeans(mode, Negative(a) != Negative(b), Times(Magnitude(a), Magnitude(b)), Negative(c), Magnitude(c));
  }

  lemma JoinedMeans(mode: Mode, aNeg: bool, ma: real, bNeg: bool, mb: real)
    requires ma >= 0.0 && mb >= 0.0
    ensures (if ma == 0.0 && mb == 0.0 then Outcome(if aNeg == bNeg then aNeg else mode == RDN, 0, {})
             else Joined(mode, aNeg, ma, bNeg, mb))
         == RoundReal(mode, (if aNeg then -ma else ma) + (if bNeg then -mb else mb),
                      if aNeg == bNeg then aNeg else mode == RDN)
  {
  }

  /** INVALID is missing, although an operand is a signaling NaN, exactly when that operand is only the addend and a
      factor is a quiet NaN: the propagation of a NaN factor looks at the factors alone. */
  lemma MissedInvalid(mode: Mode, a: Word256, b: Word256, c: Word256)
    ensures (IsSnan(a) || IsSnan(b) || IsSnan(c)) && Invalid !in FusedSum(mode, a, b, c).flags
       <==> IsSnan(c) && (IsNan(a) || IsNan(b)) && !IsSnan(a) && !IsSnan(b)
    ensures IsNan(a) || IsNan(b) || IsNan(c) ==> FusedSum(mode, a, b, c).flags <= {Invalid}
  {
  }

  /** Operands for which it is: a quiet NaN times one plus a signaling NaN raises nothing. */
  lemma MissedInvalidExample(mode: Mode, a: Word256, b: Word256, c: Word256)
    requires a == [0, 0, 0, 0x7FFF_F800_0000_0000]
    requires b == [0, 0, 0, 0x3FFF_F000_0000_0000]
    requires c == [1, 0, 0, 0x7FFF_F000_0000_0000]
    ensures IsSnan(c) && FusedSum(mode, a, b, c).flags == {}
  {
    NanWord(a, 0, 1);
    NanWord(c, 1, 0);
    OneWord(b);
  }

  /** The NaN with quiet bit `quiet` and payload `low`. */
  lemma NanWord(x: Word256, low: u64, quiet: nat)
    requires low + quiet == 1 && x == [low, 0, 0, (0xFFFFE + quiet) * TWO43]
    ensures IsNan(x) && (IsSnan(x) <==> quiet == 0)
  {
    ShortWord(x, low, x[3]);
    NanField(0xFFFFE + quiet, x[3]);
    NanBits(Code(x), 0xFFFFE, low, quiet, Pow2(235));
  }

  lemma NanField(r: nat, top: nat)
    requires top == r * TWO43
    ensures top * Pow2(192) == r * Pow2(235) && F256.InfCode() == 0xFFFFE * Pow2(235) && 2 <= Pow2(235)
  {
    Pow2Limb();
    Pow2Add(43, 192);
    Pow2Step(235);
    Pow2Zero();
    Pow2Mono(0, 235);
    Assoc(r, TWO43, Pow2(192));
    Assoc(0x7FFFF, 2, Pow2(235));
  }

  lemma NanBits(code: nat, k: nat, low: nat, quiet: nat, h: nat)
    requires low + quiet == 1 && k % 2 == 0 && h == Pow2(235) >= 2 && code == low + (k + quiet) * h
    ensures code > k * h && (Bit(code, 235) <==> quiet == 1)
  {
    Distribute1(k, h);
    HighPart(low, k + quiet, h);
  }

  lemma HighPart(low: nat, r: nat, h: nat)
    requires low < h == Pow2(235)
    ensures Bit(low + r * h, 235) <==> r % 2 == 1
  {
    Distribute(r, 0, h);
    ShrUnique(low + r * h, 235, r);
  }

  lemma OneWord(b: Word256)
    requires b == [0, 0, 0, 0x3FFF_F000_0000_0000]
    ensures !IsNan(b)
  {
    ShortWord(b, 0, 0x3FFFF * TWO44);
    Pow2Field();
    Assoc(0x3FFFF, TWO44, Pow2(192));
    MulMono(0x3FFFF, 0x7FFFF, Pow2(236));
  }

  /** `frame`. */
  method PlaceInFrame(value: Big8, scale: int, commonScale: int) returns (r: Big8)
    requires FrameNat(Value(value), scale - commonScale) < Pow2(510)
    ensures Value(r) == FrameNat(Value(value), scale - commonScale)
  {
    var empty := AllZero(value);
    if empty {
      ZeroInFrame(scale - commonScale);
      return value;
    }
    var shift := scale - commonScale;
    if shift >= 0 {
      r := ShlExact(value, shift, 510);
    } else {
      r := JamLimbs(value, -shift);
    }
  }

  lemma ZeroInFrame(shift: int)
    ensures FrameNat(0, shift) == 0
  {
    if shift >= 0 {
      ShlMultiplies(0, shift);
    } else {
      ShrJamBound(0, -shift);
    }
  }

  lemma SigTop(n: nat, msb: int, k: nat)
    requires Pow2(k) <= n < Pow2(k + 1) && msb >= 0 && Pow2(msb) <= n < Pow2(msb + 1)
    ensures msb == k
  {
    if msb < k {
      Pow2Mono(msb + 1, k);
    } else if msb > k {
      Pow2Mono(k + 1, msb);
    }
  }

  /** A product of two significands has 473 or 474 bits. */
  lemma ProductTop(x: nat, y: nat, msb: int)
    requires Pow2(236) <= x < Pow2(237) && Pow2(236) <= y < Pow2(237)
    requires msb >= 0 && Pow2(msb) <= x * y < Pow2(msb + 1)
    ensures 472 <= msb <= 473
  {
    Pow2Add(236, 236);
    Pow2Add(237, 237);
    MulMono(Pow2(236), x, Pow2(236));
    MulMono(Pow2(236), y, x);
    MulMono(x, Pow2(237), y);
    MulStrict(y, Pow2(237), Pow2(237));
    if msb < 472 {
      Pow2Mono(msb + 1, 472);
    } else if msb > 473 {
      Pow2Mono(474, msb);
    }
  }

  /** `fma_impl`. */
  method FmaImpl(mode: Mode, a: Word256, b: Word256, c: Word256, fe: FeAcc) returns (r: Word256)
    modifies fe
    ensures Encodes(r, FusedSum(mode, a, b, c)) && fe.bits == old(fe.bits) + FusedSum(mode, a, b, c).flags
  {
    InfPositive();
    var da := DecodeWord(a);
    var db := DecodeWord(b);
    var dc := DecodeWord(c);
    if da.nan || db.nan || dc.nan {
      if da.nan || db.nan {
        r := PropagateNan(a, b, da, db, fe);
      } else {
        r := PropagateNan(c, c, dc, dc, fe);
      }
      return;
    }
    if (da.inf && db.zero) || (db.inf && da.zero) {
      fe.Raise({Invalid});
      r := DefaultNan();
      return;
    }
    var productSign := da.sign != db.sign;
    if da.inf || db.inf {
      if dc.inf && dc.sign != productSign {
        fe.Raise({Invalid});
        r := DefaultNan();
        return;
      }
      r := InfValue(productSign);
      return;
    }
    if dc.inf {
      return c;
    }
    r := FmaWords(mode, productSign, a, b, c, da, db, dc, fe);
  }

  method FmaWords(mode: Mode, productSign: bool, a: Word256, b: Word256, c: Word256,
                  da: Decoded, db: Decoded, dc: Decoded, fe: FeAcc)
    returns (r: Word256)
    requires IsFinite(a) && IsFinite(b) && IsFinite(c) && 0 < F256.InfCode()
    requires Decodes(a, da) && Decodes(b, db) && Decodes(c, dc) && productSign == (Negative(a) != Negative(b))
    modifies fe
    ensures Encodes(r, FusedSum(mode, a, b, c)) && fe.bits == old(fe.bits) + FusedSum(mode, a, b, c).flags
  {
    if da.zero || db.zero {
      r := AddZeroProduct(mode, productSign, a, b, c, fe);
      return;
    }
    NonzeroProduct(mode, a, b, c);
    r := FmaFinite(mode, productSign, da, db, dc, fe, Magnitude(a), Magnitude(b), Magnitude(c));
  }

  lemma NonzeroProduct(mode: Mode, a: Word256, b: Word256, c: Word256)
    requires IsFinite(a) && IsFinite(b) && IsFinite(c) && !IsZero(a) && !IsZero(b) && 0 < F256.InfCode()
    ensures Times(Magnitude(a), Magnitude(b)) >= 0.0 && Magnitude(c) >= 0.0 && (IsZero(c) ==> Magnitude(c) == 0.0)
    ensures var neg := Negative(a) != Negative(b);
            (FusedSum(mode, a, b, c)
             == if IsZero(c) then RoundSigned(mode, neg, Num(Times(Magnitude(a), Magnitude(b))))
                else Joined(mode, neg, Times(Magnitude(a), Magnitude(b)), Negative(c), Magnitude(c)))
  {
    ProductSign(a, b);
    MagnitudeProduct(a, b);
    FiniteCodes(c);
  }

  /** A zero product leaves the addend, or an exact zero sum. */
  method AddZeroProduct(mode: Mode, productSign: bool, ghost a: Word256, ghost b: Word256, c: Word256, fe: FeAcc)
    returns (r: Word256)
    requires IsFinite(a) && IsFinite(b) && IsFinite(c) && (IsZero(a) || IsZero(b)) && 0 < F256.InfCode()
    requires productSign == (Negative(a) != Negative(b))
    modifies fe
    ensures Encodes(r, FusedSum(mode, a, b, c)) && fe.bits == old(fe.bits) + FusedSum(mode, a, b, c).flags
  {
    ZeroProduct(mode, a, b, c);
    var z := ZeroValue(productSign);
    SumOfMagnitudes(mode, z, c);
    r := AddImpl(mode, z, c, fe);
  }

  lemma ZeroProduct(mode: Mode, a: Word256, b: Word256, c: Word256)
    requires IsFinite(a) && IsFinite(b) && IsFinite(c) && (IsZero(a) || IsZero(b)) && 0 < F256.InfCode()
    ensures var neg := Negative(a) != Negative(b);
            (FusedSum(mode, a, b, c)
             == if IsZero(c) then Outcome(if neg == Negative(c) then neg else mode == RDN, 0, {})
                else Outcome(Negative(c), Code(c), {}))
  {
    ProductSign(a, b);
    MagnitudeProduct(a, b);
    FiniteCodes(c);
    RoundOfCode(mode, Negative(c), Code(c));
  }

  /** Product and addend of nonzero operands meet in one 512-bit frame. The source's separate return for a
      zero addend is the first branch. */
  method FmaFinite(mode: Mode, productSign: bool, da: Decoded, db: Decoded, dc: Decoded, fe: FeAcc,
                   ghost ma: real, ghost mb: real, ghost mc: real)
    returns (r: Word256)
    requires Pow2(236) <= Value(da.sig) < Pow2(237) && Pow2(236) <= Value(db.sig) < Pow2(237)
    requires ma == Dyadic(Value(da.sig), da.exponent - 236) && mb == Dyadic(Value(db.sig), db.exponent - 236)
    requires if dc.zero then mc == 0.0
             else Pow2(236) <= Value(dc.sig) < Pow2(237) && mc == Dyadic(Value(dc.sig), dc.exponent - 236)
    requires Times(ma, mb) >= 0.0 && mc >= 0.0
    modifies fe
    ensures var o := if dc.zero then RoundSigned(mode, productSign, Num(Times(ma, mb)))
                     else Joined(mode, productSign, Times(ma, mb), dc.sign, mc);
            Encodes(r, o) && fe.bits == old(fe.bits) + o.flags
  {
    var product := SigProduct(da.sig, db.sig);
    var ps := da.exponent + db.exponent - 2 * 236;
    ghost var p := Times(ma, mb);
    ProductPlace(Value(da.sig), da.exponent - 236, Value(db.sig), db.exponent - 236);
    var top := Highest(product);
    ProductTop(Value(da.sig), Value(db.sig), top);
    if dc.zero {
      ExactCell(Value(product), ps, Num(p), 0);
      r := PackScaled(productSign, product, ps, mode, fe, Num(p));
      return;
    }
    r := FmaFrames(mode, productSign, product, ps, top, dc, fe, p, mc);
  }

  lemma ProductPlace(x: nat, ex: int, y: nat, ey: int)
    requires x >= 1 && y >= 1
    ensures x * y >= 1 && Times(Dyadic(x, ex), Dyadic(y, ey)) == Dyadic(x * y, ex + ey)
  {
    MulMono(1, x, y);
    TimesDef(Dyadic(x, ex), Dyadic(y, ey));
    DyadicMul(x, ex, y, ey);
  }

  method FmaFrames(mode: Mode, productSign: bool, product: Big8, ps: int, productTop: nat, dc: Decoded, fe: FeAcc,
                   ghost p: real, ghost mc: real)
    returns (r: Word256)
    requires 472 <= productTop <= 473 && Pow2(productTop) <= Value(product) < Pow2(productTop + 1)
    requires p == Dyadic(Value(product), ps) && p >= 0.0 && mc >= 0.0
    requires Pow2(236) <= Value(dc.sig) < Pow2(237) && mc == Dyadic(Value(dc.sig), dc.exponent - 236)
    modifies fe
    ensures var o := Joined(mode, productSign, p, dc.sign, mc);
            Encodes(r, o) && fe.bits == old(fe.bits) + o.flags
  {
    var cs := dc.exponent - 236;
    var cTop := Highest(dc.sig);
    SigTop(Value(dc.sig), cTop, 236);
    var top := if ps + productTop > cs + cTop then ps + productTop else cs + cTop;
    var common := top - 509;
    FramePlaced(509, Value(product), productTop, ps, ps - common, common, p);
    FramePlaced(509, Value(dc.sig), 236, cs, cs - common, common, mc);
    var pf := PlaceInFrame(product, ps, common);
    var cf := PlaceInFrame(dc.sig, cs, common);
    r := Combine(mode, productSign, pf, ps - common, dc.sign, cf, cs - common, common, fe, p, mc);
  }

  /** Adds or subtracts the placed operands and rounds once. */
  method Combine(mode: Mode, productSign: bool, pf: Big8, ghost pShift: int, cSign: bool, cf: Big8, ghost cShift: int,
                 common: int, fe: FeAcc, ghost p: real, ghost mc: real)
    returns (r: Word256)
    requires Placed(509, Value(pf), pShift, common, p) && Placed(509, Value(cf), cShift, common, mc)
    requires Dominance(509, Value(pf), pShift, Value(cf), cShift)
    modifies fe
    ensures var o := Joined(mode, productSign, p, cSign, mc);
            Encodes(r, o) && fe.bits == old(fe.bits) + o.flags
  {
    if productSign == cSign {
      Pow2Step(510);
      if pShift >= 0 {
        FrameSum(509, 238, Value(pf), pShift, Value(cf), cShift, common, p, mc);
      } else {
        FrameSum(509, 238, Value(cf), cShift, Value(pf), pShift, common, mc, p);
      }
      var mag := AddExact(pf, cf, 511);
      r := PackScaled(productSign, mag, common, mode, fe, Num(p + mc));
    } else {
      var cmp := CompareLimbs(pf, cf);
      if cmp >= 0 {
        r := SubtractFrames(mode, productSign, pf, pShift, cf, cShift, common, fe, p, mc);
      } else {
        r := SubtractFrames(mode, cSign, cf, cShift, pf, pShift, common, fe, mc, p);
      }
    }
  }

  method SubtractFrames(mode: Mode, sign: bool, big: Big8, ghost bigShift: int, small: Big8, ghost smallShift: int,
                        common: int, fe: FeAcc, ghost vb: real, ghost vs: real)
    returns (r: Word256)
    requires Placed(509, Value(big), bigShift, common, vb) && Placed(509, Value(small), smallShift, common, vs)
    requires Value(big) >= Value(small) && Dominance(509, Value(big), bigShift, Value(small), smallShift)
    modifies fe
    ensures vb >= vs && (vb == vs <==> Value(big) == Value(small))
    ensures Encodes(r, Difference(mode, sign, vb, vs))
    ensures fe.bits == old(fe.bits) + Difference(mode, sign, vb, vs).flags
  {
    FrameDiff(509, 238, Value(big), bigShift, Value(small), smallShift, common, vb, vs);
    var cmp := CompareLimbs(big, small);
    if cmp == 0 {
      r := ZeroValue(mode == RDN);
      return;
    }
    var mag := SubExact(big, small);
    r := PackScaled(sign, mag, common, mode, fe, Num(vb - vs));
  }
}
