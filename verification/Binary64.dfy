/** The binary64 encoding of src/internal.h, the values it encodes, and the result every operation
    on them must deliver. */
module Binary64 {
  import opened Powers
  import opened Rounding
  import opened Words

  const SIGN: nat := 0x8000_0000_0000_0000
  const IMPLICIT: nat := 0x10_0000_0000_0000
  const EXP_MAX: nat := 0x7FF
  const QUIET: nat := 0x8_0000_0000_0000
  const CANONICAL_NAN: u64 := 0x7FF8_0000_0000_0000

  const F64: Format := Format(52, -1074, 0x7FF)

  // ----- fields -----

  function ExtractExp(b: u64): (e: nat)
    ensures e <= EXP_MAX
  {
    b / IMPLICIT % 0x800
  }

  function ExtractFrac(b: u64): (f: nat)
    ensures f < IMPLICIT
  {
    b % IMPLICIT
  }

  function ExtractSign(b: u64): (s: nat)
    ensures s <= 1
  {
    b / SIGN
  }

  predicate Negative(b: u64) {
    ExtractSign(b) != 0
  }

  /** The encoding without its sign bit. */
  function Code(b: u64): (c: nat)
    ensures c < SIGN
    ensures c == ExtractExp(b) * IMPLICIT + ExtractFrac(b)
    ensures b == c + ExtractSign(b) * SIGN
  {
    b % SIGN
  }

  function Bits(neg: bool, code: nat): (b: u64)
    requires code < SIGN
    ensures Negative(b) == neg && Code(b) == code
  {
    code + if neg then SIGN else 0
  }

  /** `pack`: the fields are masked to their widths. */
  function Pack(neg: bool, exp: nat, frac: nat): (b: u64)
    ensures exp <= EXP_MAX && frac < IMPLICIT ==> b == Bits(neg, exp * IMPLICIT + frac)
  {
    (if neg then SIGN else 0) + exp % 0x800 * IMPLICIT + frac % IMPLICIT
  }

  /** The fields of a 53-bit significand that rounding may have carried into bit 53. */
  lemma CarryFields(rounded: nat)
    requires IMPLICIT <= rounded <= 2 * IMPLICIT
    ensures rounded / (2 * IMPLICIT) % 2 == if rounded == 2 * IMPLICIT then 1 else 0
    ensures if rounded == 2 * IMPLICIT then rounded / 2 % IMPLICIT == 0 else rounded % IMPLICIT == rounded - IMPLICIT
  {
  }

  predicate IsNan(b: u64) {
    ExtractExp(b) == EXP_MAX && ExtractFrac(b) != 0
  }

  predicate IsSnan(b: u64) {
    IsNan(b) && b / QUIET % 2 == 0
  }

  predicate IsInf(b: u64) {
    ExtractExp(b) == EXP_MAX && ExtractFrac(b) == 0
  }

  predicate IsZero(b: u64) {
    b % SIGN == 0
  }

  predicate IsFinite(b: u64) {
    ExtractExp(b) != EXP_MAX
  }

  function Quieted(b: u64): u64 {
    if b / QUIET % 2 == 0 then
      assert b % SIGN + QUIET < SIGN || b + QUIET < TWO64;
      b + QUIET
    else b
  }

  function PropagateNan(a: u64, b: u64): u64 {
    if IsNan(a) then Quieted(a) else if IsNan(b) then Quieted(b) else CANONICAL_NAN
  }

  /** The NaN that the comment of `propagate_nan` promises: that of a signaling operand, otherwise the first one. */
  function PromisedNan(a: u64, b: u64): u64 {
    if IsSnan(a) then Quieted(a) else if IsSnan(b) then Quieted(b) else PropagateNan(a, b)
  }

  /** The code takes another one exactly when a quiet NaN comes before a signaling one that does not become the same. */
  lemma NanPreference(a: u64, b: u64)
    ensures PropagateNan(a, b) != PromisedNan(a, b) <==> IsNan(a) && !IsSnan(a) && IsSnan(b) && a != Quieted(b)
  {
  }

  lemma NanPreferenceExample()
    ensures PropagateNan(0x7FF8_0000_0000_0000, 0x7FF0_0000_0000_0001) == 0x7FF8_0000_0000_0000
    ensures PromisedNan(0x7FF8_0000_0000_0000, 0x7FF0_0000_0000_0001) == 0x7FF8_0000_0000_0001
  {
  }

  function SignedZero(neg: bool): u64 {
    Bits(neg, 0)
  }

  function SignedInf(neg: bool): u64 {
    Pack(neg, EXP_MAX, 0)
  }

  // ----- values -----

  ghost function Magnitude(b: u64): real {
    Decode(F64, Code(b))
  }

  ghost function Value(b: u64): real {
    if Negative(b) then -Magnitude(b) else Magnitude(b)
  }

  lemma FormatConstants()
    ensures Pow2(F64.frac) == IMPLICIT
    ensures F64.InfCode() == 0x7FF0_0000_0000_0000
  {
    Pow2Table();
  }

  lemma FiniteCodes(b: u64)
    ensures IsFinite(b) <==> Code(b) < F64.InfCode()
    ensures IsZero(b) <==> Code(b) == 0
    ensures IsZero(b) <==> Magnitude(b) == 0.0
  {
    FormatConstants();
    DecodeZero(F64);
    DecodeNonNegative(F64, Code(b));
  }

  // ----- results -----

  /** What an operation returns and the flags it raises. */
  datatype Outcome = Outcome(bits: u64, flags: set<Flag>)

  lemma DeliverFits(mode: Mode, neg: bool, c: nat)
    ensures Deliver(F64, mode, neg, c) <= 0x7FF0_0000_0000_0000
  {
    FormatConstants();
  }

  /** `o` delivers magnitude `x` under sign `neg`: the unbounded rounding `c` of `x` fixes it. */
  ghost predicate Delivers(mode: Mode, neg: bool, x: Exact, o: Outcome)
    requires x.v >= 0.0
  {
    forall c: nat :: Rounds(F64, mode, neg, x, c) ==>
      && o.bits == Deliver(F64, mode, neg, c) + (if neg then SIGN else 0)
      && o.flags == RoundFlags(F64, mode, neg, x)
  }

  lemma DeliversExists(mode: Mode, neg: bool, x: Exact) returns (o: Outcome)
    requires x.v >= 0.0
    ensures Delivers(mode, neg, x, o)
  {
    var c := RoundCode(F64, mode, neg, x);
    DeliverFits(mode, neg, c);
    o := Outcome(Bits(neg, Deliver(F64, mode, neg, c)), RoundFlags(F64, mode, neg, x));
    forall d: nat | Rounds(F64, mode, neg, x, d)
      ensures d == c
    {
      RoundsUnique(F64, mode, neg, x, c, d);
    }
  }

  /** The correct rounding of a non-negative magnitude under a sign. */
  ghost function RoundSigned(mode: Mode, neg: bool, x: Exact): Outcome
    requires x.v >= 0.0
  {
    assert exists o: Outcome :: Delivers(mode, neg, x, o) by { var w := DeliversExists(mode, neg, x); }
    var o: Outcome :| Delivers(mode, neg, x, o);
    o
  }

  lemma RoundSignedIs(mode: Mode, neg: bool, x: Exact, c: nat)
    requires x.v >= 0.0 && c == RoundCode(F64, mode, neg, x)
    ensures Deliver(F64, mode, neg, c) < SIGN
    ensures RoundSigned(mode, neg, x)
         == Outcome(Bits(neg, Deliver(F64, mode, neg, c)), RoundFlags(F64, mode, neg, x))
  {
    DeliverFits(mode, neg, c);
    assert Delivers(mode, neg, x, RoundSigned(mode, neg, x));
  }

  /** The correct rounding of the real number `v`; an exact zero takes the sign `zeroNeg`. */
  ghost function RoundReal(mode: Mode, v: real, zeroNeg: bool): Outcome {
    if v == 0.0 then Outcome(SignedZero(zeroNeg), {})
    else RoundSigned(mode, v < 0.0, Num(Abs(v)))
  }

  function NanFlags(a: u64, b: u64): set<Flag> {
    if IsSnan(a) || IsSnan(b) then {Invalid} else {}
  }

  /** Sections 5.4.1, 6.1 to 6.3 and 7.2 of IEEE 754-2008: addition. */
  ghost function Sum(mode: Mode, a: u64, b: u64): Outcome {
    if IsNan(a) || IsNan(b) then Outcome(PropagateNan(a, b), NanFlags(a, b))
    else if IsInf(a) && IsInf(b) && Negative(a) != Negative(b) then Outcome(CANONICAL_NAN, {Invalid})
    else if IsInf(a) then Outcome(SignedInf(Negative(a)), {})
    else if IsInf(b) then Outcome(SignedInf(Negative(b)), {})
    else RoundReal(mode, Value(a) + Value(b),
                   if Negative(a) == Negative(b) then Negative(a) else mode == RDN)
  }

  function Negated(b: u64): u64 {
    Bits(!Negative(b), Code(b))
  }

  lemma NegatedValue(b: u64)
    ensures Value(Negated(b)) == -Value(b) && Magnitude(Negated(b)) == Magnitude(b)
    ensures (IsNan(Negated(b)) <==> IsNan(b)) && (IsSnan(Negated(b)) <==> IsSnan(b))
    ensures IsInf(Negated(b)) <==> IsInf(b)
    ensures Negative(Negated(b)) != Negative(b) && (IsFinite(Negated(b)) <==> IsFinite(b))
  {
    NegatedFields(b, Negated(b));
  }

  lemma NegatedFields(b: u64, n: u64)
    requires n == if b < SIGN then b + SIGN else b - SIGN
    ensures Code(n) == Code(b) && Negative(n) != Negative(b)
    ensures ExtractExp(n) == ExtractExp(b) && ExtractFrac(n) == ExtractFrac(b) && n / QUIET % 2 == b / QUIET % 2
  {
  }

  /** Subtraction. A NaN subtrahend is returned with its sign flipped. */
  ghost function Subtraction(mode: Mode, a: u64, b: u64): Outcome {
    if IsNan(a) || IsNan(b) then Outcome(PropagateNan(a, Negated(b)), NanFlags(a, b))
    else if IsInf(a) && IsInf(b) && Negative(a) == Negative(b) then Outcome(CANONICAL_NAN, {Invalid})
    else if IsInf(a) then Outcome(SignedInf(Negative(a)), {})
    else if IsInf(b) then Outcome(SignedInf(!Negative(b)), {})
    else RoundReal(mode, Value(a) - Value(b),
                   if Negative(a) != Negative(b) then Negative(a) else mode == RDN)
  }

  /** Adding the operand with its sign flipped is that. */
  lemma SubtractionIsSum(mode: Mode, a: u64, b: u64)
    ensures Sum(mode, a, Negated(b)) == Subtraction(mode, a, b)
  {
    NegatedValue(b);
  }

  /** Multiplication. */
  ghost function Product(mode: Mode, a: u64, b: u64): Outcome {
    var neg := Negative(a) != Negative(b);
    if IsNan(a) || IsNan(b) then Outcome(PropagateNan(a, b), NanFlags(a, b))
    else if (IsInf(a) && IsZero(b)) || (IsInf(b) && IsZero(a)) then Outcome(CANONICAL_NAN, {Invalid})
    else if IsInf(a) || IsInf(b) then Outcome(SignedInf(neg), {})
    else RoundReal(mode, Value(a) * Value(b), neg)
  }

  /** Division. */
  ghost function Quotient(mode: Mode, a: u64, b: u64): Outcome {
    var neg := Negative(a) != Negative(b);
    if IsNan(a) || IsNan(b) then Outcome(PropagateNan(a, b), NanFlags(a, b))
    else if (IsInf(a) && IsInf(b)) || (IsZero(a) && IsZero(b)) then Outcome(CANONICAL_NAN, {Invalid})
    else if IsInf(a) then Outcome(SignedInf(neg), {})
    else if IsInf(b) then Outcome(SignedZero(neg), {})
    else if IsZero(b) then Outcome(SignedInf(neg), {DivByZero})
    else
      FiniteCodes(b);
      RoundReal(mode, Value(a) / Value(b), neg)
  }

  /** A representable number is its own rounding, without flags. */
  lemma RoundOfCode(mode: Mode, b: u64)
    requires IsFinite(b) && !IsZero(b)
    ensures RoundReal(mode, Value(b), false) == Outcome(b, {})
  {
    FiniteCodes(b);
    DecodeNonNegative(F64, Code(b));
    RoundExact(F64, mode, Negative(b), Num(Magnitude(b)), Code(b));
    RoundSignedIs(mode, Negative(b), Num(Magnitude(b)), Code(b));
  }
}
