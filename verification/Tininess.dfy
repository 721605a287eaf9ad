/** When a result underflows: section 7.5 of IEEE 754-2008 lets an implementation decide before or after rounding;
    the binary256 code decides by the encoding it returns. The three differ only just below the smallest normal
    number, on bands given here exactly. */
module Tininess {
  import opened Powers
  import opened Rounding

  /** The format with `k` more binades of normal numbers below its smallest normal number. */
  ghost function Lowered(f: Format, k: nat): Format {
    Format(f.frac, f.e0 - k, f.expMax)
  }

  /** Tiny after rounding: rounded to full precision, as if the exponent range went further down, the result is below
      the smallest normal number. */
  ghost predicate TinyAfter(f: Format, k: nat, mode: Mode, neg: bool, x: Exact)
    requires x.v >= 0.0
  {
    Decode(Lowered(f, k), RoundCode(Lowered(f, k), mode, neg, x)) < Two(f.Emin())
  }

  /** The flags when tininess is detected after rounding. */
  ghost function AfterFlags(f: Format, k: nat, mode: Mode, neg: bool, x: Exact): set<Flag>
    requires x.v >= 0.0
  {
    var c := RoundCode(f, mode, neg, x);
    if c >= f.InfCode() then {Overflow, Inexact}
    else if Is(Decode(f, c), x) then {}
    else if TinyAfter(f, k, mode, neg, x) then {Underflow, Inexact}
    else {Inexact}
  }

  /** Tiny before rounding, yet returned as the smallest normal number: at least half a quantum, or any part of one in a
      mode away from zero, above the largest subnormal number. */
  ghost predicate RisesToNormal(f: Format, mode: Mode, neg: bool, x: Exact) {
    && Above(Two(f.Emin()), x)
    && !TowardZero(mode, neg)
    && if AwayFromZero(mode, neg) then Below(Two(f.Emin()) - Two(f.e0), x)
       else !Above(Two(f.Emin()) - Two(f.e0 - 1), x)
  }

  /** Tiny after rounding as well, at full precision, yet returned as the smallest normal number. */
  ghost predicate RisesTwice(f: Format, mode: Mode, neg: bool, x: Exact) {
    && !TowardZero(mode, neg)
    && if AwayFromZero(mode, neg)
       then Below(Two(f.Emin()) - Two(f.e0), x) && !Below(Two(f.Emin()) - Two(f.e0 - 1), x)
       else !Above(Two(f.Emin()) - Two(f.e0 - 1), x) && Above(Two(f.Emin()) - Two(f.e0 - 2), x)
  }

  /** What rounds to an even code or above it. */
  ghost predicate Reaches(f: Format, mode: Mode, neg: bool, x: Exact, c: nat)
    requires c > 0
  {
    if TowardZero(mode, neg) then !Above(Decode(f, c), x)
    else if AwayFromZero(mode, neg) then Below(Decode(f, c - 1), x)
    else !Above(Mid(f, c - 1), x)
  }

  lemma ReachesOrFalls(f: Format, mode: Mode, neg: bool, x: Exact, c: nat)
    requires x.v >= 0.0 && c > 0 && c % 2 == 0
    ensures RoundCode(f, mode, neg, x) >= c <==> Reaches(f, mode, neg, x, c)
  {
    var d := RoundCode(f, mode, neg, x);
    MidRange(f, c - 1);
    MidRange(f, d);
    if d >= c {
      StaysAbove(f, mode, neg, x, c, d);
    } else {
      if d + 1 < c {
        DecodeMono(f, d + 1, c);
        MidMono(f, d, c - 1);
        Order(Decode(f, d + 1), Decode(f, c), x);
        Order(Mid(f, d), Mid(f, c - 1), x);
        DecodeMono(f, d, c - 1);
        Order(Decode(f, d), Decode(f, c - 1), x);
      }
    }
  }

  lemma StaysAbove(f: Format, mode: Mode, neg: bool, x: Exact, c: nat, d: nat)
    requires c > 0 && d >= c && Rounds(f, mode, neg, x, d)
    ensures Reaches(f, mode, neg, x, c)
  {
    MidRange(f, c - 1);
    if d > c {
      DecodeMono(f, c, d);
      Order(Decode(f, c), Decode(f, d), x);
      DecodeMono(f, c - 1, d - 1);
      Order(Decode(f, c - 1), Decode(f, d - 1), x);
      MidRange(f, d - 1);
      MidMono(f, c - 1, d - 1);
      Order(Mid(f, c - 1), Mid(f, d - 1), x);
    }
  }

  /** The largest subnormal number, the smallest normal one and the point half way, with `k` binades added below. */
  lemma AroundNormal(f: Format, k: nat)
    requires 1 <= f.frac
    ensures var l, c := Lowered(f, k), (k + 1) * Pow2(f.frac);
            && c > 0 && c % 2 == 0
            && Decode(l, c) == Two(f.Emin())
            && (k == 0 ==> Decode(l, c - 1) == Two(f.Emin()) - Two(f.e0))
            && (k == 0 ==> Mid(l, c - 1) == Two(f.Emin()) - Two(f.e0 - 1))
            && (k >= 1 ==> Decode(l, c - 1) == Two(f.Emin()) - Two(f.e0 - 1))
            && (k >= 1 ==> Mid(l, c - 1) == Two(f.Emin()) - Two(f.e0 - 2))
  {
    var l, p := Lowered(f, k), Pow2(f.frac);
    Distribute1(k, p);
    MulMono(0, k, p);
    CodeParity(l, 0, k + 1);
    DecodeGrid(l, p, k, (k + 1) * p);
    DyadicShift(1, f.e0, f.frac);
    DyadicDef(1, f.Emin());
    if k == 0 {
      DecodeGrid(l, p - 1, 0, p - 1);
      DyadicAdd(p, 1, f.e0);
      HalfUnit(f.e0);
    } else {
      Distribute1(k, p);
      DecodeGrid(l, 2 * p - 1, k - 1, 2 * p - 1 + (k - 1) * p);
      DyadicTwice(p, f.e0 - 1);
      DyadicAdd(2 * p, 1, f.e0 - 1);
      HalfUnit(f.e0 - 1);
    }
  }

  lemma HalfUnit(e: int)
    ensures Dyadic(1, e) == Two(e) == 2.0 * Two(e - 1)
  {
    DyadicDef(1, e);
    TwoStep(e - 1);
  }

  /** The encoding that is returned against the exact result: for every format, mode and sign the flags differ exactly
      when a result that is tiny is returned as the smallest normal number. */
  lemma FinalAgainstBefore(f: Format, mode: Mode, neg: bool, x: Exact)
    requires x.v >= 0.0 && 1 <= f.frac && 2 <= f.expMax
    ensures FinalFlags(f, mode, neg, x) != RoundFlags(f, mode, neg, x)
       <==> Above(Two(f.Emin()), x) && RoundCode(f, mode, neg, x) == Pow2(f.frac)
    ensures FinalFlags(f, mode, neg, x) != RoundFlags(f, mode, neg, x) <==> RisesToNormal(f, mode, neg, x)
  {
    var p, c := Pow2(f.frac), RoundCode(f, mode, neg, x);
    AroundNormal(f, 0);
    assert Lowered(f, 0) == f;
    MulMono(2, f.expMax, p);
    ReachesOrFalls(f, mode, neg, x, p);
    if Above(Two(f.Emin()), x) {
      RoundAtMost(f, mode, neg, x, p);
    } else {
      RoundAtLeast(f, mode, neg, x, p);
    }
  }

  /** Where rounding to full precision reaches the smallest normal number. */
  lemma TinyAfterReaches(f: Format, k: nat, mode: Mode, neg: bool, x: Exact)
    requires x.v >= 0.0 && 1 <= f.frac && k >= 1
    ensures !TinyAfter(f, k, mode, neg, x)
       <==> if TowardZero(mode, neg) then !Above(Two(f.Emin()), x)
            else if AwayFromZero(mode, neg) then Below(Two(f.Emin()) - Two(f.e0 - 1), x)
            else !Above(Two(f.Emin()) - Two(f.e0 - 2), x)
  {
    var l, c := Lowered(f, k), (k + 1) * Pow2(f.frac);
    AroundNormal(f, k);
    ReachesOrFalls(l, mode, neg, x, c);
    var d := RoundCode(l, mode, neg, x);
    if d < c {
      DecodeMono(l, d, c);
    } else if c < d {
      DecodeMono(l, c, d);
    }
  }

  /** The thresholds in their order. */
  lemma Thresholds(f: Format, x: Exact)
    requires 1 <= f.frac
    ensures Below(Two(f.Emin()) - Two(f.e0 - 1), x) ==> Below(Two(f.Emin()) - Two(f.e0), x)
    ensures !Above(Two(f.Emin()) - Two(f.e0 - 2), x) ==> !Above(Two(f.Emin()) - Two(f.e0 - 1), x)
    ensures !Below(Two(f.Emin()) - Two(f.e0 - 1), x) ==> Above(Two(f.Emin()), x)
    ensures Above(Two(f.Emin()) - Two(f.e0 - 2), x) ==> Above(Two(f.Emin()), x)
    ensures !Above(Two(f.Emin()), x) ==> Below(Two(f.Emin()) - Two(f.e0 - 1), x)
  {
    AroundNormal(f, 0);
    MidRange(f, Pow2(f.frac) - 1);
    TwoStep(f.e0 - 1);
    TwoStep(f.e0 - 2);
    var t, u := Two(f.Emin()), Two(f.e0 - 2);
    assert 0.0 <= t - 4.0 * u && Lowered(f, 0) == f;
    Order(t - 4.0 * u, t - 2.0 * u, x);
    Order(t - 2.0 * u, t - u, x);
    Order(t - u, t, x);
    Order(t - 2.0 * u, t, x);
  }

  /** The encoding that is returned against tininess after rounding, however far down the full precision is kept. */
  lemma FinalAgainstAfter(f: Format, k: nat, mode: Mode, neg: bool, x: Exact)
    requires x.v >= 0.0 && 1 <= f.frac && 2 <= f.expMax && k >= 1
    ensures FinalFlags(f, mode, neg, x) != AfterFlags(f, k, mode, neg, x) <==> RisesTwice(f, mode, neg, x)
  {
    var p, c := Pow2(f.frac), RoundCode(f, mode, neg, x);
    AroundNormal(f, 0);
    assert Lowered(f, 0) == f;
    MulMono(2, f.expMax, p);
    ReachesOrFalls(f, mode, neg, x, p);
    TinyAfterReaches(f, k, mode, neg, x);
    Thresholds(f, x);
    if Above(Two(f.Emin()), x) {
      RoundAtMost(f, mode, neg, x, p);
    } else {
      RoundAtLeast(f, mode, neg, x, p);
    }
  }

  /** In both comparisons UNDERFLOW is missing where the flags differ, and never raised in addition. */
  lemma MissedUnderflow(f: Format, k: nat, mode: Mode, neg: bool, x: Exact)
    requires x.v >= 0.0 && 1 <= f.frac && 2 <= f.expMax && k >= 1
    ensures if RisesToNormal(f, mode, neg, x)
            then FinalFlags(f, mode, neg, x) == {Inexact} && RoundFlags(f, mode, neg, x) == {Underflow, Inexact}
            else FinalFlags(f, mode, neg, x) == RoundFlags(f, mode, neg, x)
    ensures if RisesTwice(f, mode, neg, x)
            then FinalFlags(f, mode, neg, x) == {Inexact} && AfterFlags(f, k, mode, neg, x) == {Underflow, Inexact}
            else FinalFlags(f, mode, neg, x) == AfterFlags(f, k, mode, neg, x)
    ensures RisesTwice(f, mode, neg, x) ==> RisesToNormal(f, mode, neg, x)
    ensures RisesToNormal(f, mode, neg, x) ==> RoundCode(f, mode, neg, x) == Pow2(f.frac) < f.InfCode()
  {
    FinalAgainstBefore(f, mode, neg, x);
    FinalAgainstAfter(f, k, mode, neg, x);
    Thresholds(f, x);
    MulMono(2, f.expMax, Pow2(f.frac));
    AroundNormal(f, 0);
    assert Lowered(f, 0) == f;
  }
}
