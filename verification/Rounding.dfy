/** Binary interchange formats and correct rounding, section 4.3 of IEEE 754-2008.

    A finite magnitude of a format is named by its code: the encoding without the sign bit,
    read as a natural number. Codes are ordered as their values are, and the code after
    the largest finite one is the code of infinity. Rounding with an unbounded exponent range
    is rounding to codes without that limit. */
module Rounding {
  import opened Powers

  datatype Mode = RNE | RTZ | RUP | RDN | RNA

  datatype Flag = Invalid | DivByZero | Overflow | Underflow | Inexact

  /** `frac` stored fraction bits, quantum 2^`e0` (the smallest subnormal), and `expMax`,
      the exponent field of infinities and NaNs. */
  datatype Format = Format(frac: nat, e0: int, expMax: nat) {
    ghost function InfCode(): nat {
      expMax * Pow2(frac)
    }

    /** Exponent of the smallest normal number. */
    ghost function Emin(): int {
      e0 + frac
    }
  }

  /** Code `c` stands for integer significand `n` (with the implicit bit) at quantum 2^(e0 + q). */
  ghost predicate Splits(f: Format, c: nat, n: nat, q: nat) {
    c == n + q * Pow2(f.frac) && n < 2 * Pow2(f.frac) && (q == 0 || Pow2(f.frac) <= n)
  }

  /** The fields of an encoding: exponent field `c / 2^frac`, fraction `c % 2^frac`. */
  lemma SplitFields(f: Format, c: nat, e: nat, m: nat)
    requires e == c / Pow2(f.frac) && m == c % Pow2(f.frac)
    ensures e == 0 ==> Splits(f, c, m, 0)
    ensures e != 0 ==> Splits(f, c, Pow2(f.frac) + m, e - 1)
  {
    assert c == e * Pow2(f.frac) + m;
    Distribute1(e, Pow2(f.frac));
  }

  lemma Distribute1(e: int, p: int)
    ensures (e - 1) * p == e * p - p && (e + 1) * p == e * p + p
  {
  }

  lemma SplitUnique(f: Format, c: nat, n: nat, q: nat, n': nat, q': nat)
    requires Splits(f, c, n, q) && Splits(f, c, n', q')
    ensures n == n' && q == q'
  {
    var p := Pow2(f.frac);
    Distribute1(q, p);
    Distribute1(q', p);
    if q < q' {
      MulMono(q + 1, q', p);
    } else if q' < q {
      MulMono(q' + 1, q, p);
    }
  }

  /** The value of `c`, however it is split. */
  ghost predicate DecodesTo(f: Format, c: nat, r: real) {
    forall n: nat, q: nat :: Splits(f, c, n, q) ==> r == Dyadic(n, f.e0 + q)
  }

  lemma DecodeExists(f: Format, c: nat) returns (r: real, n: nat, q: nat)
    ensures DecodesTo(f, c, r) && Splits(f, c, n, q)
  {
    var p := Pow2(f.frac);
    MulMono(0, c / p + 1, p);
    SplitFields(f, c, c / p, c % p);
    if c / p == 0 {
      n, q := c % p, 0;
    } else {
      n, q := p + c % p, c / p - 1;
    }
    r := Dyadic(n, f.e0 + q);
    forall n': nat, q': nat | Splits(f, c, n', q')
      ensures r == Dyadic(n', f.e0 + q')
    {
      SplitUnique(f, c, n, q, n', q');
    }
  }

  /** The value of a code. */
  ghost function Decode(f: Format, c: nat): real {
    assert exists r: real :: DecodesTo(f, c, r) by { var w, n, q := DecodeExists(f, c); }
    var r: real :| DecodesTo(f, c, r);
    r
  }

  /** A significand and a quantum name a code and its value; a significand that has carried
      into the next binade still does. */
  lemma DecodeGrid(f: Format, n: nat, q: nat, c: nat)
    requires n <= 2 * Pow2(f.frac)
    requires q == 0 || Pow2(f.frac) <= n
    requires c == n + q * Pow2(f.frac)
    ensures Decode(f, c) == Dyadic(n, f.e0 + q)
  {
    var p := Pow2(f.frac);
    if n < 2 * p {
      assert Splits(f, c, n, q);
    } else {
      Distribute1(q, p);
      assert Splits(f, c, p, q + 1);
      DyadicTwice(p, f.e0 + q);
    }
  }

  /** Neighbouring codes are one quantum apart. */
  lemma DecodeGap(f: Format, c: nat, n: nat, q: nat)
    requires Splits(f, c, n, q)
    ensures Decode(f, c + 1) == Decode(f, c) + Dyadic(1, f.e0 + q)
  {
    DecodeGrid(f, n, q, c);
    DecodeGrid(f, n + 1, q, c + 1);
    DyadicAdd(n, 1, f.e0 + q);
  }

  lemma DecodeZero(f: Format)
    ensures Decode(f, 0) == 0.0
  {
    DecodeGrid(f, 0, 0, 0);
    DyadicZero(f.e0);
  }

  lemma {:induction false} DecodeMono(f: Format, c: nat, d: nat)
    requires c < d
    ensures Decode(f, c) < Decode(f, d)
    decreases d - c
  {
    var r, n, q := DecodeExists(f, d - 1);
    DecodeGap(f, d - 1, n, q);
    DyadicPositive(1, f.e0 + q);
    if c < d - 1 {
      DecodeMono(f, c, d - 1);
    }
  }

  lemma DecodeNonNegative(f: Format, c: nat)
    ensures Decode(f, c) >= 0.0
    ensures c > 0 ==> Decode(f, c) > 0.0
  {
    DecodeZero(f);
    if c > 0 {
      DecodeMono(f, 0, c);
    }
  }

  // ----- exact results -----

  /** An exact non-negative result: a real number, or the square root of one. */
  datatype Exact = Num(v: real) | Root(v: real)

  /** The non-negative number `t` is less than `x`. */
  ghost predicate Below(t: real, x: Exact) {
    if x.Num? then t < x.v else t * t < x.v
  }

  /** The non-negative number `t` is greater than `x`. */
  ghost predicate Above(t: real, x: Exact) {
    if x.Num? then t > x.v else t * t > x.v
  }

  ghost predicate Is(t: real, x: Exact) {
    t >= 0.0 && !Below(t, x) && !Above(t, x)
  }

  lemma Square(s: real, t: real)
    requires 0.0 <= s < t
    ensures s * s < t * t
  {
    var d := t - s;
    assert t * t == s * s + 2.0 * (s * d) + d * d;
    assert d * d > 0.0 && s * d >= 0.0;
  }

  /** Anything under a number that is not above `x` is below `x`; and the mirror image. */
  lemma Order(s: real, t: real, x: Exact)
    requires 0.0 <= s < t
    ensures !Above(t, x) ==> Below(s, x)
    ensures !Below(s, x) ==> Above(t, x)
  {
    Square(s, t);
  }

  // ----- correct rounding -----

  ghost function Mid(f: Format, c: nat): real {
    (Decode(f, c) + Decode(f, c + 1)) / 2.0
  }

  lemma MidRange(f: Format, c: nat)
    ensures 0.0 <= Decode(f, c) < Mid(f, c) < Decode(f, c + 1)
  {
    DecodeMono(f, c, c + 1);
    DecodeNonNegative(f, c);
  }

  predicate TowardZero(mode: Mode, neg: bool) {
    mode == RTZ || (mode == RUP && neg) || (mode == RDN && !neg)
  }

  predicate AwayFromZero(mode: Mode, neg: bool) {
    (mode == RUP && !neg) || (mode == RDN && neg)
  }

  /** `c` is the code `x` rounds to in an unbounded exponent range: the nearest one below or
      above in the directed modes, the nearest one otherwise, where a midpoint belongs to the
      even code (RNE) or to the larger one (RNA). */
  ghost predicate Rounds(f: Format, mode: Mode, neg: bool, x: Exact, c: nat) {
    if TowardZero(mode, neg) then
      !Above(Decode(f, c), x) && Above(Decode(f, c + 1), x)
    else if AwayFromZero(mode, neg) then
      !Below(Decode(f, c), x) && (c > 0 ==> Below(Decode(f, c - 1), x))
    else
      && !Below(Mid(f, c), x)
      && (Is(Mid(f, c), x) ==> mode == RNE && c % 2 == 0)
      && (c > 0 ==> !Above(Mid(f, c - 1), x))
      && (c > 0 && Is(Mid(f, c - 1), x) ==> mode == RNA || c % 2 == 0)
  }

  lemma RoundsOrdered(f: Format, mode: Mode, neg: bool, x: Exact, c: nat, d: nat)
    requires Rounds(f, mode, neg, x, c) && Rounds(f, mode, neg, x, d)
    ensures c >= d
  {
    if c < d {
      DecodeNonNegative(f, c);
      if TowardZero(mode, neg) {
        if c + 1 < d {
          DecodeMono(f, c + 1, d);
          DecodeNonNegative(f, c + 1);
          Order(Decode(f, c + 1), Decode(f, d), x);
        }
      } else if AwayFromZero(mode, neg) {
        if c < d - 1 {
          DecodeMono(f, c, d - 1);
          Order(Decode(f, c), Decode(f, d - 1), x);
        }
      } else {
        MidRange(f, c);
        MidRange(f, d - 1);
        if c < d - 1 {
          MidMono(f, c, d - 1);
          Order(Mid(f, c), Mid(f, d - 1), x);
        }
      }
    }
  }

  lemma MidMono(f: Format, c: nat, d: nat)
    requires c < d
    ensures Mid(f, c) < Mid(f, d)
  {
    DecodeMono(f, c, d);
    DecodeMono(f, c + 1, d + 1);
  }

  /** Correct rounding determines its result. */
  lemma RoundsUnique(f: Format, mode: Mode, neg: bool, x: Exact, c: nat, d: nat)
    requires Rounds(f, mode, neg, x, c) && Rounds(f, mode, neg, x, d)
    ensures c == d
  {
    RoundsOrdered(f, mode, neg, x, c, d);
    RoundsOrdered(f, mode, neg, x, d, c);
  }

  /** The rounding decision of `sf64_internal_should_round_up`: whether a truncated significand
      goes up by one, from the first dropped bit and the union of the rest. */
  predicate ShouldRoundUp(neg: bool, guard: bool, sticky: bool, odd: bool, mode: Mode) {
    match mode
    case RTZ => false
    case RUP => !neg && (guard || sticky)
    case RDN => neg && (guard || sticky)
    case RNA => guard
    case RNE => guard && (sticky || odd)
  }

  /** `x` lies on point `t` of the grid with spacing 2^`e`, or strictly between that point and
      the next. */
  ghost predicate Cell(t: nat, on: bool, e: int, x: Exact) {
    if on then Is(Dyadic(t, e), x) else Below(Dyadic(t, e), x) && Above(Dyadic(t + 1, e), x)
  }

  /** Where `x` lies between code `c` and the next, as the guard and sticky bits tell it. */
  ghost predicate Located(f: Format, c: nat, guard: bool, sticky: bool, x: Exact) {
    if guard then
      if sticky then Below(Mid(f, c), x) && Above(Decode(f, c + 1), x) else Is(Mid(f, c), x)
    else
      if sticky then Below(Decode(f, c), x) && Above(Mid(f, c), x) else Is(Decode(f, c), x)
  }

  /** The rounding decision is correct rounding. */
  lemma Decision(f: Format, mode: Mode, neg: bool, x: Exact, c: nat, guard: bool, sticky: bool)
    requires Located(f, c, guard, sticky, x)
    ensures var up := ShouldRoundUp(neg, guard, sticky, c % 2 == 1, mode);
            && Rounds(f, mode, neg, x, c + if up then 1 else 0)
            && (Is(Decode(f, c + if up then 1 else 0), x) <==> !guard && !sticky)
  {
    if ShouldRoundUp(neg, guard, sticky, c % 2 == 1, mode) {
      DecisionUp(f, mode, neg, x, c, guard, sticky);
    } else {
      DecisionStay(f, mode, neg, x, c, guard, sticky);
    }
  }

  lemma DecisionUp(f: Format, mode: Mode, neg: bool, x: Exact, c: nat, guard: bool, sticky: bool)
    requires Located(f, c, guard, sticky, x) && ShouldRoundUp(neg, guard, sticky, c % 2 == 1, mode)
    ensures Rounds(f, mode, neg, x, c + 1) && !Is(Decode(f, c + 1), x)
  {
    MidRange(f, c);
    Order(Decode(f, c), Mid(f, c), x);
    Order(Mid(f, c), Decode(f, c + 1), x);
    MidRange(f, c + 1);
    Order(Decode(f, c + 1), Mid(f, c + 1), x);
  }

  lemma DecisionStay(f: Format, mode: Mode, neg: bool, x: Exact, c: nat, guard: bool, sticky: bool)
    requires Located(f, c, guard, sticky, x) && !ShouldRoundUp(neg, guard, sticky, c % 2 == 1, mode)
    ensures Rounds(f, mode, neg, x, c) && (Is(Decode(f, c), x) <==> !guard && !sticky)
  {
    MidRange(f, c);
    Order(Decode(f, c), Mid(f, c), x);
    Order(Decode(f, c), Decode(f, c + 1), x);
    Order(Mid(f, c), Decode(f, c + 1), x);
    if c > 0 {
      MidRange(f, c - 1);
      Order(Mid(f, c - 1), Decode(f, c), x);
      Order(Decode(f, c - 1), Decode(f, c), x);
    }
  }

  /** Significand `n` at quantum `q`, with its midpoint and successor, on the grid of half quanta. */
  lemma GridPoints(f: Format, n: nat, q: nat, c: nat)
    requires n < 2 * Pow2(f.frac)
    requires q == 0 || Pow2(f.frac) <= n
    requires c == n + q * Pow2(f.frac)
    ensures Decode(f, c) == Dyadic(2 * n, f.e0 + q - 1)
    ensures Mid(f, c) == Dyadic(2 * n + 1, f.e0 + q - 1)
    ensures Decode(f, c + 1) == Dyadic(2 * n + 2, f.e0 + q - 1)
  {
    var e := f.e0 + q - 1;
    DecodeGrid(f, n, q, c);
    DecodeGrid(f, n + 1, q, c + 1);
    DyadicTwice(n, e);
    DyadicTwice(n + 1, e);
    DyadicAdd(2 * n + 1, 1, e);
  }

  lemma CodeParity(f: Format, n: nat, q: nat)
    requires 1 <= f.frac
    ensures (n + q * Pow2(f.frac)) % 2 == n % 2
  {
    var h := Pow2(f.frac - 1);
    Pow2Step(f.frac - 1);
    Assoc(q, 2, h);
    assert q * (2 * h) == 2 * (q * h);
  }

  lemma LocatedFromCell(f: Format, x: Exact, h: nat, on: bool, q: nat, c: nat)
    requires h / 2 < 2 * Pow2(f.frac) && (q == 0 || Pow2(f.frac) <= h / 2)
    requires c == h / 2 + q * Pow2(f.frac)
    requires Cell(h, on, f.e0 + q - 1, x)
    ensures Located(f, c, h % 2 == 1, !on, x)
  {
    var n := h / 2;
    GridPoints(f, n, q, c);
    if h % 2 == 0 {
      assert h == 2 * n;
    } else {
      assert h == 2 * n + 1;
    }
  }

  /** The heart of every rounding routine: once `x` is located on the grid of half quanta, with
      point `h` (kept significand and guard bit) and `on` (no sticky bit), incrementing the kept
      code by the rounding decision is correct rounding. */
  lemma RoundFromCell(f: Format, mode: Mode, neg: bool, x: Exact, h: nat, on: bool, q: nat, c: nat)
    requires 1 <= f.frac
    requires h / 2 < 2 * Pow2(f.frac) && (q == 0 || Pow2(f.frac) <= h / 2)
    requires c == h / 2 + q * Pow2(f.frac)
    requires Cell(h, on, f.e0 + q - 1, x)
    ensures var up := ShouldRoundUp(neg, h % 2 == 1, !on, h / 2 % 2 == 1, mode);
            && Rounds(f, mode, neg, x, c + if up then 1 else 0)
            && (Is(Decode(f, c + if up then 1 else 0), x) <==> on && h % 2 == 0)
  {
    LocatedFromCell(f, x, h, on, q, c);
    CodeParity(f, h / 2, q);
    Decision(f, mode, neg, x, c, h % 2 == 1, !on);
  }

  // ----- the rounding function -----

  lemma {:induction false} DecodeGrows(f: Format, c: nat)
    ensures Decode(f, c) >= Dyadic(c, f.e0)
  {
    if c == 0 {
      DecodeZero(f);
      DyadicZero(f.e0);
    } else {
      DecodeGrows(f, c - 1);
      var r, n, q := DecodeExists(f, c - 1);
      DecodeGap(f, c - 1, n, q);
      DyadicAdd(c - 1, 1, f.e0);
      DyadicUnits(f.e0, q);
    }
  }

  lemma {:induction false} DyadicUnits(e: int, q: nat)
    ensures Dyadic(1, e + q) >= Dyadic(1, e)
  {
    DyadicShift(1, e, q);
    if Pow2(q) > 1 {
      DyadicMono(1, Pow2(q), e);
    }
  }

  lemma CodeAboveNum(f: Format, v: real) returns (c: nat)
    requires v >= 0.0
    ensures Decode(f, c) > v
  {
    c := (v / Two(f.e0)).Floor + 1;
    DecodeGrows(f, c);
    DyadicDef(c, f.e0);
    ScaledAbove(v, c as real, Two(f.e0));
  }

  lemma CodeAbove(f: Format, x: Exact) returns (c: nat)
    requires x.v >= 0.0
    ensures Above(Decode(f, c), x)
  {
    if x.Num? {
      c := CodeAboveNum(f, x.v);
    } else {
      c := CodeAboveNum(f, x.v + 1.0);
      assert Decode(f, c) * Decode(f, c) >= Decode(f, c);
    }
  }

  lemma ScaledAbove(v: real, n: real, t: real)
    requires t > 0.0 && n > v / t
    ensures n * t > v
  {
    RealMono(v / t, n, t);
  }

  lemma {:induction false} FloorBelow(f: Format, x: Exact, above: nat) returns (c: nat)
    requires x.v >= 0.0 && Above(Decode(f, above), x)
    ensures !Above(Decode(f, c), x) && Above(Decode(f, c + 1), x)
  {
    if above == 0 {
      DecodeZero(f);
      assert false;
    } else if Above(Decode(f, above - 1), x) {
      c := FloorBelow(f, x, above - 1);
    } else {
      c := above - 1;
    }
  }

  /** Every exact result has a correct rounding. */
  lemma RoundsExists(f: Format, mode: Mode, neg: bool, x: Exact) returns (c: nat)
    requires x.v >= 0.0
    ensures Rounds(f, mode, neg, x, c)
  {
    var above := CodeAbove(f, x);
    var lo := FloorBelow(f, x, above);
    MidRange(f, lo);
    var guard := !Above(Mid(f, lo), x);
    var sticky := !Is(if guard then Mid(f, lo) else Decode(f, lo), x);
    Decision(f, mode, neg, x, lo, guard, sticky);
    c := lo + if ShouldRoundUp(neg, guard, sticky, lo % 2 == 1, mode) then 1 else 0;
  }

  /** Rounding of `x`, the magnitude of a result with sign `neg`, in an unbounded exponent range. */
  ghost function RoundCode(f: Format, mode: Mode, neg: bool, x: Exact): (c: nat)
    requires x.v >= 0.0
    ensures Rounds(f, mode, neg, x, c)
  {
    assert exists c: nat :: Rounds(f, mode, neg, x, c) by {
      var w := RoundsExists(f, mode, neg, x);
    }
    var c: nat :| Rounds(f, mode, neg, x, c);
    c
  }

  /** What section 7.4 of IEEE 754-2008 delivers for an unbounded rounding `c`. */
  ghost function Deliver(f: Format, mode: Mode, neg: bool, c: nat): nat {
    if c < f.InfCode() then c
    else if TowardZero(mode, neg) && f.InfCode() > 0 then f.InfCode() - 1
    else f.InfCode()
  }

  /** The code delivered for a magnitude `x`. */
  ghost function RoundMag(f: Format, mode: Mode, neg: bool, x: Exact): nat
    requires x.v >= 0.0
  {
    Deliver(f, mode, neg, RoundCode(f, mode, neg, x))
  }

  /** Sections 7.4 to 7.6: overflow by the unbounded rounding, inexact when the result differs
      from `x`, underflow when moreover `x` is below the smallest normal number (tininess is
      detected before rounding). */
  ghost function RoundFlags(f: Format, mode: Mode, neg: bool, x: Exact): set<Flag>
    requires x.v >= 0.0
  {
    var c := RoundCode(f, mode, neg, x);
    if c >= f.InfCode() then {Overflow, Inexact}
    else if Is(Decode(f, c), x) then {}
    else if Above(Two(f.Emin()), x) then {Underflow, Inexact}
    else {Inexact}
  }

  /** The flags when underflow is decided by the encoding that is returned instead: subnormal or
      zero, and inexact. */
  ghost function FinalFlags(f: Format, mode: Mode, neg: bool, x: Exact): set<Flag>
    requires x.v >= 0.0
  {
    var c := RoundCode(f, mode, neg, x);
    if c >= f.InfCode() then {Overflow, Inexact}
    else if Is(Decode(f, c), x) then {}
    else if c < Pow2(f.frac) then {Underflow, Inexact}
    else {Inexact}
  }

  /** A representable result is returned as it is, in every mode. */
  lemma RoundExact(f: Format, mode: Mode, neg: bool, x: Exact, c: nat)
    requires x.v >= 0.0 && Is(Decode(f, c), x)
    ensures RoundCode(f, mode, neg, x) == c
  {
    Decision(f, mode, neg, x, c, false, false);
    RoundsUnique(f, mode, neg, x, c, RoundCode(f, mode, neg, x));
  }

  /** Nothing below a number that is not above `x` is its rounding. */
  lemma NotBelow(f: Format, mode: Mode, neg: bool, x: Exact, c: nat, d: nat)
    requires d < c && !Above(Decode(f, c), x)
    ensures !Rounds(f, mode, neg, x, d)
  {
    MidRange(f, d);
    if d + 1 < c {
      DecodeMono(f, d + 1, c);
      Order(Decode(f, d + 1), Decode(f, c), x);
    }
    DecodeMono(f, d, c);
    Order(Decode(f, d), Decode(f, c), x);
    Order(Mid(f, d), Decode(f, c), x);
  }

  /** Nothing above a number that is not below `x` is its rounding. */
  lemma NotAbove(f: Format, mode: Mode, neg: bool, x: Exact, c: nat, d: nat)
    requires c < d && !Below(Decode(f, c), x)
    ensures !Rounds(f, mode, neg, x, d)
  {
    MidRange(f, d - 1);
    DecodeNonNegative(f, c);
    if c < d - 1 {
      DecodeMono(f, c, d - 1);
      Order(Decode(f, c), Decode(f, d - 1), x);
    }
    DecodeMono(f, c, d);
    Order(Decode(f, c), Decode(f, d), x);
    Order(Decode(f, c), Mid(f, d - 1), x);
  }

  /** At least `c` when not below it. */
  lemma RoundAtLeast(f: Format, mode: Mode, neg: bool, x: Exact, c: nat)
    requires x.v >= 0.0 && !Above(Decode(f, c), x)
    ensures RoundCode(f, mode, neg, x) >= c
  {
    var d := RoundCode(f, mode, neg, x);
    if d < c {
      NotBelow(f, mode, neg, x, c, d);
    }
  }

  /** At most `c` when not above it. */
  lemma RoundAtMost(f: Format, mode: Mode, neg: bool, x: Exact, c: nat)
    requires x.v >= 0.0 && !Below(Decode(f, c), x)
    ensures RoundCode(f, mode, neg, x) <= c
  {
    var d := RoundCode(f, mode, neg, x);
    if c < d {
      NotAbove(f, mode, neg, x, c, d);
    }
  }

  /** Comparison with a grid point. */
  lemma CellCompare(t: nat, on: bool, e: int, x: Exact, p: nat)
    requires Cell(t, on, e, x)
    ensures Above(Dyadic(p, e), x) <==> t < p
    ensures Below(Dyadic(p, e), x) <==> p < t || (p == t && !on)
  {
    DyadicPositive(t, e);
    DyadicPositive(p, e);
    if p < t {
      DyadicMono(p, t, e);
      Order(Dyadic(p, e), Dyadic(t, e), x);
    } else if t + 1 < p {
      DyadicMono(t, t + 1, e);
      DyadicMono(t + 1, p, e);
      Order(Dyadic(t + 1, e), Dyadic(p, e), x);
      Order(Dyadic(t, e), Dyadic(p, e), x);
    } else if t < p {
      DyadicMono(t, p, e);
      Order(Dyadic(t, e), Dyadic(p, e), x);
    }
  }

  /** A result with bit `j` of a grid of spacing 2^`e` set, at or above the first power of two out of
      range, overflows. */
  lemma RoundTooLarge(f: Format, mode: Mode, neg: bool, x: Exact, t: nat, on: bool, e: int, j: nat)
    requires x.v >= 0.0 && 1 <= f.expMax
    requires Cell(t, on, e, x) && t >= Pow2(j)
    requires j + e >= f.e0 + f.expMax - 1 + f.frac
    ensures RoundCode(f, mode, neg, x) >= f.InfCode()
  {
    var p, g := Pow2(f.frac), f.e0 + f.expMax - 1;
    assert (f.expMax - 1) * p + p == f.expMax * p;
    MulMono(0, f.expMax, p);
    DecodeGrid(f, p, f.expMax - 1, f.InfCode());
    var k := j + e - g - f.frac;
    Pow2Add(f.frac, k);
    DyadicShift(1, e, j);
    DyadicShift(1, g, f.frac + k);
    assert Dyadic(Pow2(j), e) == Dyadic(p * Pow2(k), g);
    MulMono(1, Pow2(k), p);
    CellCompare(t, on, e, x, Pow2(j));
    if p < p * Pow2(k) {
      DyadicMono(p, p * Pow2(k), g);
      DyadicPositive(p, g);
      Order(Dyadic(p, g), Dyadic(Pow2(j), e), x);
    }
    RoundAtLeast(f, mode, neg, x, f.InfCode());
  }

  /** The flags of a result whose kept code before rounding is `h / 2 + q * 2^frac`. */
  ghost function PackFlags(f: Format, c: nat, h: nat, on: bool): set<Flag> {
    if c >= f.InfCode() then {Overflow, Inexact}
    else if on && h % 2 == 0 then {}
    else if h < 2 * Pow2(f.frac) then {Underflow, Inexact}
    else {Inexact}
  }

  /** Value and flags of a rounding, from the half-quantum cell of the exact result. */
  lemma RoundPacked(f: Format, mode: Mode, neg: bool, x: Exact, h: nat, on: bool, q: nat, c: nat)
    requires 1 <= f.frac && x.v >= 0.0
    requires h / 2 < 2 * Pow2(f.frac) && (q == 0 || Pow2(f.frac) <= h / 2)
    requires Cell(h, on, f.e0 + q - 1, x)
    requires c == h / 2 + q * Pow2(f.frac)
               + if ShouldRoundUp(neg, h % 2 == 1, !on, h / 2 % 2 == 1, mode) then 1 else 0
    ensures RoundCode(f, mode, neg, x) == c
    ensures RoundFlags(f, mode, neg, x) == PackFlags(f, c, h, on)
  {
    assert Rounds(f, mode, neg, x, c) && (Is(Decode(f, c), x) <==> on && h % 2 == 0) by {
      MulMono(0, q, Pow2(f.frac));
      RoundFromCell(f, mode, neg, x, h, on, q, h / 2 + q * Pow2(f.frac));
    }
    RoundsUnique(f, mode, neg, x, c, RoundCode(f, mode, neg, x));
    Tiny(f, x, h, on, q);
  }

  lemma Tiny(f: Format, x: Exact, h: nat, on: bool, q: nat)
    requires q == 0 || 2 * Pow2(f.frac) <= h
    requires Cell(h, on, f.e0 + q - 1, x)
    ensures Above(Two(f.Emin()), x) <==> h < 2 * Pow2(f.frac)
  {
    var p := 2 * Pow2(f.frac);
    Pow2Step(f.frac);
    DyadicDef(1, f.e0 + f.frac);
    DyadicShift(1, f.e0 - 1, f.frac + 1);
    assert Two(f.Emin()) == Dyadic(p, f.e0 - 1);
    if q == 0 {
      CellCompare(h, on, f.e0 - 1, x, p);
    } else {
      CellCompare(h, on, f.e0 + q - 1, x, p);
      DyadicPositive(p, f.e0 - 1);
      DyadicShift(p, f.e0 - 1, q);
      MulMono(1, Pow2(q), p);
      if p < p * Pow2(q) {
        DyadicMono(p, p * Pow2(q), f.e0 - 1);
        Order(Dyadic(p, f.e0 - 1), Dyadic(p, f.e0 + q - 1), x);
      }
    }
  }

  // ----- representable numbers -----

  /** A significand that fits, at or above the smallest quantum, has a code. */
  lemma {:induction false} ExactCode(f: Format, n: nat, e: int) returns (c: nat)
    requires n < 2 * Pow2(f.frac) && e >= f.e0
    ensures Decode(f, c) == Dyadic(n, e)
    decreases e - f.e0
  {
    if e == f.e0 || n >= Pow2(f.frac) {
      MulMono(0, e - f.e0, Pow2(f.frac));
      c := n + (e - f.e0) * Pow2(f.frac);
      DecodeGrid(f, n, e - f.e0, c);
    } else {
      DyadicTwice(n, e - 1);
      c := ExactCode(f, 2 * n, e - 1);
    }
  }

  /** Every code is a multiple of the smallest subnormal. */
  lemma CodeMultiple(f: Format, c: nat) returns (k: nat)
    ensures Decode(f, c) == Dyadic(k, f.e0)
  {
    var r, n, q := DecodeExists(f, c);
    DyadicShift(n, f.e0, q);
    MulMono(0, n, Pow2(q));
    k := n * Pow2(q);
  }

  /** A significand that fits is representable even below the smallest quantum, if its value is a
      multiple of the smallest subnormal. */
  lemma MultipleCode(f: Format, n: nat, e: int, k: int) returns (c: nat)
    requires n < 2 * Pow2(f.frac) && Dyadic(n, e) == Dyadic(k, f.e0)
    ensures Decode(f, c) == Dyadic(n, e)
  {
    if e >= f.e0 {
      c := ExactCode(f, n, e);
    } else {
      DyadicPositive(n, e);
      if k < 0 {
        DyadicMono(k, 0, f.e0);
        DyadicZero(f.e0);
      }
      DyadicShift(k, e, f.e0 - e);
      MulMono(1, Pow2(f.e0 - e), k);
      if n < k * Pow2(f.e0 - e) {
        DyadicMono(n, k * Pow2(f.e0 - e), e);
      } 
      c := ExactCode(f, k, f.e0);
    }
  }

  /** A remainder of two codes is a multiple of the smallest subnormal, as they are. */
  lemma QuantumMultiple(f: Format, ca: nat, cb: nat, n: int) returns (k: int)
    ensures Dyadic(k, f.e0) == Decode(f, ca) - n as real * Decode(f, cb)
    ensures Dyadic(-k, f.e0) == n as real * Decode(f, cb) - Decode(f, ca)
  {
    var ka := CodeMultiple(f, ca);
    var kb := CodeMultiple(f, cb);
    DyadicTimes(n, kb, f.e0);
    k := ka - n * kb;
    DyadicAdd(ka, n * kb, f.e0);
    DyadicAdd(0, k, f.e0);
    DyadicZero(f.e0);
  }

  lemma QuantumOrder(f: Format, ca: nat, na: nat, qa: nat, cb: nat, nb: nat, qb: nat)
    requires Splits(f, ca, na, qa) && Splits(f, cb, nb, qb) && cb <= ca
    ensures qb <= qa
  {
    if qa < qb {
      MulMono(qa + 1, qb, Pow2(f.frac));
      Distribute1(qa, Pow2(f.frac));
    }
  }

  /** The difference of two numbers within a factor of two of each other is representable. */
  lemma Sterbenz(f: Format, ca: nat, cb: nat) returns (c: nat)
    requires Decode(f, cb) <= Decode(f, ca) <= 2.0 * Decode(f, cb)
    ensures Decode(f, c) == Decode(f, ca) - Decode(f, cb) && c <= cb
  {
    if ca < cb {
      DecodeMono(f, ca, cb);
    }
    var ra, na, qa := DecodeExists(f, ca);
    var rb, nb, qb := DecodeExists(f, cb);
    QuantumOrder(f, ca, na, qa, cb, nb, qb);
    var e, m := f.e0 + qb, na * Pow2(qa - qb);
    DyadicShift(na, e, qa - qb);
    DyadicAdd(m, nb, e);
    DyadicAdd(nb, nb, e);
    if m < nb {
      DyadicMono(m, nb, e);
    }
    if m > nb + nb {
      DyadicMono(nb + nb, m, e);
    }
    c := ExactCode(f, m - nb, e);
    if cb < c {
      DecodeMono(f, cb, c);
    }
  }

  // ----- what correct rounding means -----

  ghost function Abs(v: real): (r: real)
    ensures r >= 0.0
  {
    if v < 0.0 then -v else v
  }

  ghost function Distance(a: real, b: real): real {
    if a < b then b - a else a - b
  }

  /** In the two nearest modes no code is closer to the exact result than the one returned. */
  lemma RoundNearest(f: Format, mode: Mode, neg: bool, v: real, d: nat)
    requires v >= 0.0 && mode in {RNE, RNA}
    ensures Distance(Decode(f, RoundCode(f, mode, neg, Num(v))), v) <= Distance(Decode(f, d), v)
  {
    var c := RoundCode(f, mode, neg, Num(v));
    if c < d {
      MidRange(f, c);
      if c + 1 < d {
        DecodeMono(f, c + 1, d);
      }
    } else if d < c {
      MidRange(f, c - 1);
      if d < c - 1 {
        DecodeMono(f, d, c - 1);
      }
    }
  }

  /** In a directed mode the result is the closest code on the prescribed side. */
  lemma RoundDirected(f: Format, mode: Mode, neg: bool, v: real, d: nat)
    requires v >= 0.0 && mode in {RTZ, RUP, RDN}
    ensures var c := RoundCode(f, mode, neg, Num(v));
            if TowardZero(mode, neg)
            then Decode(f, c) <= v && (Decode(f, d) <= v ==> d <= c)
            else Decode(f, c) >= v && (Decode(f, d) >= v ==> d >= c)
  {
    var c := RoundCode(f, mode, neg, Num(v));
    if c + 1 < d {
      DecodeMono(f, c + 1, d);
    }
    if d < c - 1 {
      DecodeMono(f, d, c - 1);
    }
  }

  /** Between two codes equally near, RNE has taken the even one and RNA the larger one. */
  lemma RoundTie(f: Format, mode: Mode, neg: bool, v: real, d: nat)
    requires v >= 0.0 && mode in {RNE, RNA} && d != RoundCode(f, mode, neg, Num(v))
    requires Distance(Decode(f, RoundCode(f, mode, neg, Num(v))), v) == Distance(Decode(f, d), v)
    ensures if mode == RNE then RoundCode(f, mode, neg, Num(v)) % 2 == 0 else d < RoundCode(f, mode, neg, Num(v))
  {
    var c := RoundCode(f, mode, neg, Num(v));
    if c < d {
      MidRange(f, c);
      if c + 1 < d {
        DecodeMono(f, c + 1, d);
      }
    } else {
      MidRange(f, c - 1);
      if d < c - 1 {
        DecodeMono(f, d, c - 1);
      }
    }
  }
}
