/** The binary256 encoding of src/fp256/soft_f256.cpp, the values it encodes, and the rounding every
    operation on them must deliver. */
module Binary256 {
  import opened Powers
  import opened Shifts
  import opened Rounding
  import opened Words
  import opened BigUint

  const F256: Format := Format(236, -262378, 0x7FFFF)
  const BIAS: int := 262143
  const EMIN: int := -262142
  const EXP_MAX: nat := 0x7FFFF
  const TWO43: nat := 0x800_0000_0000
  const TWO44: nat := 0x1000_0000_0000

  /** An encoding: four limbs, least significant first. */
  type Word256 = s: seq<u64> | |s| == 4 witness [0, 0, 0, 0]

  /** The working significand. */
  type Big8 = s: seq<u64> | |s| == 8 witness [0, 0, 0, 0, 0, 0, 0, 0]

  // ----- encodings -----

  predicate Negative(x: Word256) {
    x[3] / TWO63 != 0
  }

  /** The encoding without its sign bit. */
  ghost function Code(x: Word256): nat {
    Value(x[..3]) + x[3] % TWO63 * Pow2(192)
  }

  ghost predicate IsNan(x: Word256) {
    Code(x) > F256.InfCode()
  }

  ghost predicate IsSnan(x: Word256) {
    IsNan(x) && !Bit(Code(x), 235)
  }

  ghost predicate IsInf(x: Word256) {
    Code(x) == F256.InfCode()
  }

  ghost predicate IsZero(x: Word256) {
    Code(x) == 0
  }

  ghost predicate IsFinite(x: Word256) {
    Code(x) < F256.InfCode()
  }

  ghost function Magnitude(x: Word256): real {
    Decode(F256, Code(x))
  }

  ghost function Real(x: Word256): real {
    if Negative(x) then -Magnitude(x) else Magnitude(x)
  }

  lemma Pow2Limb()
    ensures Pow2(43) == TWO43 && Pow2(44) == TWO44 && Pow2(63) == TWO63 && Pow2(64) == TWO64
  {
    Pow2Table();
    Pow2Times(32, 8, 0x1_0000_0000, 0x100, 0x100_0000_0000);
    Pow2Times(40, 3, 0x100_0000_0000, 8, TWO43);
    Pow2Step(43);
  }

  lemma Pow2Field()
    ensures Pow2(236) == TWO44 * Pow2(192) && Pow2(255) == TWO63 * Pow2(192)
  {
    Pow2Limb();
    Pow2Add(44, 192);
    Pow2Add(63, 192);
  }

  lemma WordValue(x: Word256)
    ensures Value(x) == Value(x[..3]) + x[3] * Pow2(192)
    ensures Value(x[..3]) < Pow2(192)
  {
    LowDigits(x, 3);
    assert x[..4] == x;
  }

  /** Sign and code make up the encoding. */
  lemma SignAndCode(x: Word256)
    ensures Code(x) < Pow2(255)
    ensures Value(x) == Code(x) + if Negative(x) then Pow2(255) else 0
  {
    WordValue(x);
    Pow2Field();
    FieldBound(Value(x[..3]), x[3] % TWO63, TWO63, Pow2(192));
    SignSplit(x[3], Pow2(192));
  }

  lemma SignSplit(w: u64, p: nat)
    ensures w * p == w % TWO63 * p + if w / TWO63 != 0 then TWO63 * p else 0
  {
    assert w == w % TWO63 + if w / TWO63 != 0 then TWO63 else 0;
    Distribute(w % TWO63, TWO63, p);
  }

  lemma FieldBound(low: nat, w: nat, k: nat, p: nat)
    requires low < p && w < k
    ensures low + w * p < k * p
  {
    MulStrict(w, k, p);
    Distribute(0, w, p);
  }

  /** Sign and code determine the limbs. */
  lemma EncodingUnique(x: Word256, y: Word256)
    requires Negative(x) == Negative(y) && Code(x) == Code(y)
    ensures x == y
  {
    SignAndCode(x);
    SignAndCode(y);
    ValueLimbs(x);
    ValueLimbs(y);
    assert forall i :: 0 <= i < 4 ==> x[i] == Limb(Value(x), i) == y[i];
  }

  // ----- results -----

  datatype Outcome = Outcome(neg: bool, code: nat, flags: set<Flag>)

  /** `r` is the encoding that `o` describes. */
  ghost predicate Encodes(r: Word256, o: Outcome) {
    Negative(r) == o.neg && Code(r) == o.code
  }

  ghost predicate Delivers(mode: Mode, neg: bool, x: Exact, o: Outcome)
    requires x.v >= 0.0
  {
    forall c: nat :: Rounds(F256, mode, neg, x, c) ==>
      o == Outcome(neg, Deliver(F256, mode, neg, c), FinalFlags(F256, mode, neg, x))
  }

  lemma DeliversExists(mode: Mode, neg: bool, x: Exact) returns (o: Outcome)
    requires x.v >= 0.0
    ensures Delivers(mode, neg, x, o)
  {
    var c := RoundCode(F256, mode, neg, x);
    o := Outcome(neg, Deliver(F256, mode, neg, c), FinalFlags(F256, mode, neg, x));
    forall d: nat | Rounds(F256, mode, neg, x, d)
      ensures d == c
    {
      RoundsUnique(F256, mode, neg, x, c, d);
    }
  }

  /** The correct rounding of a non-negative magnitude under a sign. */
  ghost function RoundSigned(mode: Mode, neg: bool, x: Exact): Outcome
    requires x.v >= 0.0
  {
    assert exists o: Outcome :: Delivers(mode, neg, x, o) by { var w := DeliversExists(mode, neg, x); }
    var o: Outcome :| Delivers(mode, neg, x, o);
    o
  }

  lemma RoundSignedIs(mode: Mode, neg: bool, x: Exact, c: nat)
    requires x.v >= 0.0 && c == RoundCode(F256, mode, neg, x)
    ensures RoundSigned(mode, neg, x)
         == Outcome(neg, Deliver(F256, mode, neg, c), FinalFlags(F256, mode, neg, x))
  {
    assert Delivers(mode, neg, x, RoundSigned(mode, neg, x));
  }

  /** The correct rounding of the real number `v`; an exact zero takes the sign `zeroNeg`. */
  ghost function RoundReal(mode: Mode, v: real, zeroNeg: bool): Outcome {
    if v == 0.0 then Outcome(zeroNeg, 0, {})
    else RoundSigned(mode, v < 0.0, Num(Abs(v)))
  }

  lemma RoundOfCode(mode: Mode, neg: bool, c: nat)
    requires c < F256.InfCode()
    ensures Decode(F256, c) >= 0.0
    ensures RoundSigned(mode, neg, Num(Decode(F256, c))) == Outcome(neg, c, {})
  {
    DecodeNonNegative(F256, c);
    RoundExact(F256, mode, neg, Num(Decode(F256, c)), c);
    RoundSignedIs(mode, neg, Num(Decode(F256, c)), c);
  }

  lemma FiniteCodes(x: Word256)
    ensures IsZero(x) <==> Magnitude(x) == 0.0
    ensures Magnitude(x) >= 0.0
  {
    DecodeZero(F256);
    DecodeNonNegative(F256, Code(x));
  }

  // ----- unpacking -----

  datatype Decoded = Decoded(sign: bool, field: nat, exponent: int, sig: Big8,
                             zero: bool, inf: bool, nan: bool, snan: bool)

  ghost predicate Decodes(x: Word256, d: Decoded) {
    && d.sign == Negative(x)
    && (d.zero <==> IsZero(x)) && (d.inf <==> IsInf(x)) && (d.nan <==> IsNan(x)) && (d.snan <==> IsSnan(x))
    && (IsFinite(x) && !IsZero(x) ==> Unpacked(x, d.exponent, Value(d.sig)))
  }

  /** A finite nonzero operand: 237 significant bits, the top one set. */
  ghost predicate Unpacked(x: Word256, exponent: int, sig: nat) {
    && Pow2(236) <= sig < Pow2(237)
    && Magnitude(x) == Dyadic(sig, exponent - 236)
    && EMIN - 236 <= exponent <= BIAS
    && (exponent >= EMIN ==> Splits(F256, Code(x), sig, exponent - EMIN))
  }

  lemma LimbFields(w: u64)
    ensures w == w % TWO44 + w / TWO44 % 0x8_0000 * TWO44 + w / TWO63 * TWO63
    ensures w % TWO63 == w % TWO44 + w / TWO44 % 0x8_0000 * TWO44
  {
    DivDiv(w, TWO44, 0x8_0000);
    assert TWO44 * 0x8_0000 == TWO63;
  }

  /** Exponent field and fraction of an encoding. */
  lemma Fields(x: Word256, frac: Big8)
    requires Value(frac) == Value(x[..3]) + x[3] % TWO44 * Pow2(192)
    ensures Value(frac) < Pow2(236)
    ensures Code(x) == Value(frac) + x[3] / TWO44 % 0x8_0000 * Pow2(236)
  {
    WordValue(x);
    Pow2Field();
    FieldBound(Value(x[..3]), x[3] % TWO44, TWO44, Pow2(192));
    LimbFields(x[3]);
    var f := x[3] / TWO44 % 0x8_0000;
    Distribute(x[3] % TWO44, f * TWO44, Pow2(192));
    Assoc(f, TWO44, Pow2(192));
  }

  lemma Classes(m: nat, field: nat, p: nat)
    requires m < p && field <= 0x7FFFF
    ensures m + field * p == 0 <==> field == 0 && m == 0
    ensures m + field * p == 0x7FFFF * p <==> field == 0x7FFFF && m == 0
    ensures m + field * p > 0x7FFFF * p <==> field == 0x7FFFF && m != 0
  {
    if field > 0 {
      MulMono(1, field, p);
    }
    if field < 0x7FFFF {
      MulMono(field + 1, 0x7FFFF, p);
      Distribute(0, field, p);
    }
  }

  /** The fraction bits as a working significand. */
  method Fraction(x: Word256) returns (frac: Big8)
    ensures Value(frac) == Value(x[..3]) + x[3] % TWO44 * Pow2(192)
  {
    var wide := Widen(x, 8);
    ValueBound(x);
    Pow2Mono(64 * 4, 64 * 8);
    DivUnique(Value(x), Width(8), 0, Value(x));
    ValueLimb(wide, 3);
    ValueLimb(x, 3);
    frac := wide[3 := wide[3] % TWO44];
    DigitsUpdate(64, wide, 3, wide[3] % TWO44);
    WordValue(x);
    Distribute(x[3] % TWO44, x[3], Pow2(192));
  }

  /** `decode`. */
  method DecodeWord(x: Word256) returns (d: Decoded)
    ensures Decodes(x, d)
  {
    var field := x[3] / TWO44 % 0x8_0000;
    var frac := Fraction(x);
    Fields(x, frac);
    Classes(Value(frac), field, Pow2(236));
    BitBelow(Value(frac), field, 235, 1);
    var fractionZero := AllZero(frac);
    var zero := field == 0 && fractionZero;
    var inf := field == EXP_MAX && fractionZero;
    var nan := field == EXP_MAX && !fractionZero;
    d := Decoded(Negative(x), field, 0, frac, zero, inf, nan, nan && !BitAt(frac, 235));
    if !zero && !inf && !nan {
      var sig, exponent := Normalize(x, field, frac);
      d := d.(sig := sig, exponent := exponent);
    }
  }

  /** The significand with its leading bit at 236. */
  method Normalize(ghost x: Word256, field: nat, frac: Big8) returns (sig: Big8, exponent: int)
    requires Value(frac) < Pow2(236) && Code(x) == Value(frac) + field * Pow2(236)
    requires field < 0x7FFFF && Code(x) != 0
    ensures Unpacked(x, exponent, Value(sig))
  {
    if field == 0 {
      sig, exponent := NormalizeSubnormal(x, frac);
    } else {
      ShrAll(Value(frac), 236, 236);
      NormalSig(Value(frac), field, Code(x));
      sig := SetBit(frac, 236);
      exponent := field - BIAS;
    }
  }

  method NormalizeSubnormal(ghost x: Word256, frac: Big8) returns (sig: Big8, exponent: int)
    requires 0 < Value(frac) < Pow2(236) && Code(x) == Value(frac)
    ensures Unpacked(x, exponent, Value(sig))
  {
    var top := Highest(frac);
    HighestBelow(Value(frac), top, 236);
    SubnormalSig(Value(frac), top);
    DecodeGrid(F256, Value(frac), 0, Code(x));
    sig := ShlLimbs(frac, 236 - top);
    exponent := EMIN - (236 - top);
  }

  lemma NormalSig(m: nat, field: nat, c: nat)
    requires m < Pow2(236) && field >= 1 && c == m + field * Pow2(236)
    ensures m + Pow2(236) < Pow2(237) && Splits(F256, c, m + Pow2(236), field - 1)
    ensures Decode(F256, c) == Dyadic(m + Pow2(236), field - 262379)
  {
    Pow2Step(236);
    Distribute1(field, Pow2(236));
    DecodeGrid(F256, m + Pow2(236), field - 1, c);
  }

  lemma HighestBelow(m: nat, top: int, k: nat)
    requires m < Pow2(k) && top >= 0 && Pow2(top) <= m
    ensures top < k
  {
    if top >= k {
      Pow2Mono(k, top);
    }
  }

  lemma SubnormalSig(m: nat, top: nat)
    requires top < 236 && Pow2(top) <= m < Pow2(top + 1)
    ensures Shl(m, 236 - top) % Width(8) == Shl(m, 236 - top)
    ensures Pow2(236) <= Shl(m, 236 - top) < Pow2(237)
    ensures Dyadic(m, -262378) == Dyadic(Shl(m, 236 - top), -262378 - (236 - top))
  {
    ShlRange(m, 236 - top, top);
    ShlRange(m, 236 - top, top + 1);
    Pow2Mono(237, 64 * 8);
    DivUnique(Shl(m, 236 - top), Width(8), 0, Shl(m, 236 - top));
    ShlMultiplies(m, 236 - top);
    DyadicShift(m, -262378 - (236 - top), 236 - top);
  }

  // ----- encoding -----

  /** A fraction occupies four limbs. */
  lemma FractionLimbs(fraction: Big8)
    requires Value(fraction) < Pow2(236)
    ensures Value(fraction[..3]) + fraction[3] * Pow2(192) == Value(fraction) && fraction[3] < TWO44
  {
    var v := Value(fraction);
    var low: seq<u64> := fraction[..4];
    ValueLimbs(fraction);
    FromLimbs(low, v);
    Pow2Mono(236, 64 * 4);
    DivUnique(v, Width(4), 0, v);
    WordValue(low);
    assert low[..3] == fraction[..3];
    Pow2Limb();
    ShrRange(v, 192, 236);
    LowLimb(0, Shr(v, 192), Shr(v, 192));
    assert fraction[3] == Limb(v, 3);
  }

  /** `raw`. */
  method Raw(sign: bool, exponent: nat, fraction: Big8) returns (r: Word256)
    requires exponent <= EXP_MAX && Value(fraction) < Pow2(236)
    ensures Negative(r) == sign && Code(r) == Value(fraction) + exponent * Pow2(236)
  {
    FractionLimbs(fraction);
    var out: seq<u64> := fraction[..4];
    var low := out[3] % TWO44;
    TopLimb(low, exponent, sign);
    out := out[3 := low];
    out := out[3 := out[3] + exponent * TWO44];
    out := out[3 := out[3] + if sign then TWO63 else 0];
    assert out[..3] == fraction[..3];
    r := out;
    RawCode(r, low, exponent, sign, Value(fraction[..3]), Value(fraction));
  }

  lemma RawCode(r: Word256, low: nat, exponent: nat, sign: bool, rest: nat, v: nat)
    requires low < TWO44 && exponent <= EXP_MAX
    requires r[3] == low + exponent * TWO44 + if sign then TWO63 else 0
    requires Value(r[..3]) == rest && rest + low * Pow2(192) == v
    ensures Negative(r) == sign && Code(r) == v + exponent * Pow2(236)
  {
    TopLimb(low, exponent, sign);
    Pow2Field();
    Distribute(low, exponent * TWO44, Pow2(192));
    Assoc(exponent, TWO44, Pow2(192));
  }

  lemma TopLimb(low: nat, exponent: nat, sign: bool)
    requires low < TWO44 && exponent <= EXP_MAX
    ensures var w := low + exponent * TWO44;
            && w < TWO63
            && (w + if sign then TWO63 else 0) % TWO63 == w
            && ((w + if sign then TWO63 else 0) / TWO63 != 0 <==> sign)
  {
  }

  method ZeroValue(sign: bool) returns (r: Word256)
    ensures Negative(r) == sign && Code(r) == 0
  {
    ZeroDigits(64, [0, 0, 0, 0, 0, 0, 0, 0]);
    r := Raw(sign, 0, [0, 0, 0, 0, 0, 0, 0, 0]);
  }

  method InfValue(sign: bool) returns (r: Word256)
    ensures Negative(r) == sign && Code(r) == F256.InfCode()
  {
    ZeroDigits(64, [0, 0, 0, 0, 0, 0, 0, 0]);
    r := Raw(sign, EXP_MAX, [0, 0, 0, 0, 0, 0, 0, 0]);
  }

  /** The default NaN: positive, only the quiet bit set. */
  ghost function NanCode(): nat {
    F256.InfCode() + Pow2(235)
  }

  method DefaultNan() returns (r: Word256)
    ensures !Negative(r) && Code(r) == NanCode()
  {
    var f: Big8 := [0, 0, 0, 0, 0, 0, 0, 0];
    ZeroDigits(64, f);
    ShrZero(235);
    f := SetBit(f, 235);
    Pow2Mono(235, 236);
    r := Raw(false, EXP_MAX, f);
  }

  /** `quiet_nan` sets bit 235. */
  ghost function QuietedCode(c: nat): nat {
    if Bit(c, 235) then c else c + Pow2(235)
  }

  method QuietNan(x: Word256) returns (r: Word256)
    ensures Negative(r) == Negative(x) && Code(r) == QuietedCode(Code(x))
  {
    SignAndCode(x);
    BitBelow(Code(x), if Negative(x) then 1 else 0, 235, 20);
    r := SetBit(x, 235);
    if !Bit(Code(x), 235) {
      RoomForBit(Code(x), 235, 255);
    }
    CodeOf(r, Negative(x), QuietedCode(Code(x)));
  }

  /** Sign and code can be read off the value. */
  lemma CodeOf(r: Word256, neg: bool, c: nat)
    requires c < Pow2(255) && Value(r) == c + if neg then Pow2(255) else 0
    ensures Negative(r) == neg && Code(r) == c
  {
    SignAndCode(r);
  }
}
