/** What the correct rounding of a square root means in terms of squares, for every format. */
module Roots {
  import opened Powers
  import opened Rounding

  lemma TwoMono(i: int, j: int)
    requires i <= j
    ensures Two(i) <= Two(j)
  {
    DyadicUnits(i, j - i);
    DyadicDef(1, i);
    DyadicDef(1, j);
  }

  /** The largest power of two of the format, and the code of infinity. */
  lemma TopBinade(f: Format)
    requires 1 <= f.frac && 3 <= f.expMax
    ensures 0 < (f.expMax - 1) * Pow2(f.frac) < f.InfCode()
    ensures Decode(f, (f.expMax - 1) * Pow2(f.frac)) == Two(f.Emin() + f.expMax - 2)
    ensures Decode(f, f.InfCode()) == Two(f.Emin() + f.expMax - 1)
  {
    var p := Pow2(f.frac);
    Distribute1(f.expMax, p);
    Distribute1(f.expMax - 1, p);
    MulMono(1, f.expMax - 1, p);
    DecodeGrid(f, p, f.expMax - 2, (f.expMax - 1) * p);
    DecodeGrid(f, p, f.expMax - 1, f.InfCode());
    DyadicShift(1, f.e0 + f.expMax - 2, f.frac);
    DyadicShift(1, f.e0 + f.expMax - 1, f.frac);
    DyadicDef(1, f.Emin() + f.expMax - 2);
    DyadicDef(1, f.Emin() + f.expMax - 1);
  }

  lemma Smallest(f: Format, a: nat)
    requires 1 <= f.frac && 0 < a
    ensures Decode(f, a) >= Two(f.e0) > 0.0
    ensures Decode(f, Pow2(f.frac)) == Two(f.Emin())
  {
    var p := Pow2(f.frac);
    DecodeGrid(f, 1, 0, 1);
    DyadicDef(1, f.e0);
    if 1 < a {
      DecodeMono(f, 1, a);
    }
    DecodeGrid(f, p, 0, p);
    DyadicShift(1, f.e0, f.frac);
    DyadicDef(1, f.Emin());
  }

  /** A format whose exponent range is wide enough that square roots of its numbers are normal numbers of it. */
  predicate WideRange(f: Format) {
    1 <= f.frac && 3 <= f.expMax && 2 * f.e0 + 2 * f.frac <= f.e0 && 1 <= f.e0 + f.frac + f.expMax - 2
  }

  /** The square root of a positive finite number neither overflows nor underflows. */
  lemma RootInRange(f: Format, mode: Mode, a: nat)
    requires WideRange(f) && 0 < a < f.InfCode()
    ensures Decode(f, a) > 0.0
    ensures Pow2(f.frac) <= RoundCode(f, mode, false, Root(Decode(f, a))) < f.InfCode()
    ensures !Above(Two(f.Emin()), Root(Decode(f, a)))
  {
    var x := Root(Decode(f, a));
    Smallest(f, a);
    LowSquare(f, a);
    RoundAtLeast(f, mode, false, x, Pow2(f.frac));
    TopBinade(f);
    HighSquare(f, a, Two(f.Emin() + f.expMax - 2));
    RoundAtMost(f, mode, false, x, (f.expMax - 1) * Pow2(f.frac));
  }

  lemma LowSquare(f: Format, a: nat)
    requires WideRange(f) && 0 < a
    ensures Two(f.Emin()) * Two(f.Emin()) <= Decode(f, a)
  {
    Smallest(f, a);
    TwoAdd(f.Emin(), f.Emin());
    TwoMono(f.Emin() + f.Emin(), f.e0);
  }

  lemma HighSquare(f: Format, a: nat, top: real)
    requires WideRange(f) && a < f.InfCode() && top == Two(f.Emin() + f.expMax - 2)
    ensures top * top > Decode(f, a)
  {
    var e := f.Emin() + f.expMax - 2;
    TopBinade(f);
    DecodeMono(f, a, f.InfCode());
    TwoAdd(e, e);
    TwoMono(e + 1, e + e);
  }

  /** INEXACT exactly when the square of the result is not the operand; nothing else, however underflow is decided. */
  lemma RootFlags(f: Format, mode: Mode, a: nat, v: real, r: real)
    requires WideRange(f) && 0 < a < f.InfCode() && v == Decode(f, a) >= 0.0
    requires r == Decode(f, RoundCode(f, mode, false, Root(v)))
    ensures RoundFlags(f, mode, false, Root(v)) == if r * r == v then {} else {Inexact}
    ensures FinalFlags(f, mode, false, Root(v)) == if r * r == v then {} else {Inexact}
  {
    RootInRange(f, mode, a);
    DecodeNonNegative(f, RoundCode(f, mode, false, Root(v)));
  }

  /** In a directed mode the result is the extreme number whose square is on the prescribed side. */
  lemma RootDirected(f: Format, mode: Mode, v: real, d: nat)
    requires v >= 0.0 && mode in {RTZ, RUP, RDN}
    ensures var c := RoundCode(f, mode, false, Root(v));
            var r, s := Decode(f, c), Decode(f, d);
            if mode == RUP then r * r >= v && (s * s >= v ==> c <= d) else r * r <= v && (s * s <= v ==> d <= c)
  {
    var c := RoundCode(f, mode, false, Root(v));
    DecodeNonNegative(f, d);
    DecodeNonNegative(f, c);
    if c < d {
      Ordered(f, c + 1, d);
    }
    if d < c {
      Ordered(f, d, c - 1);
    }
  }

  /** In the nearest modes the root is on the result's side of its mean with any other number. */
  lemma RootNearest(f: Format, mode: Mode, v: real, d: nat)
    requires v >= 0.0 && mode in {RNE, RNA}
    ensures var c := RoundCode(f, mode, false, Root(v));
            var mean := (Decode(f, c) + Decode(f, d)) / 2.0;
            (c < d ==> v <= mean * mean) && (d < c ==> mean * mean <= v)
  {
    var c := RoundCode(f, mode, false, Root(v));
    var mean := (Decode(f, c) + Decode(f, d)) / 2.0;
    if c < d {
      MidRange(f, c);
      if c + 1 < d {
        DecodeMono(f, c + 1, d);
        Square(Mid(f, c), mean);
      }
    } else if d < c {
      MidRange(f, c - 1);
      DecodeNonNegative(f, d);
      if d < c - 1 {
        DecodeMono(f, d, c - 1);
        Square(mean, Mid(f, c - 1));
      }
    }
  }

  lemma Ordered(f: Format, c: nat, d: nat)
    requires c <= d
    ensures Decode(f, c) * Decode(f, c) <= Decode(f, d) * Decode(f, d)
  {
    if c < d {
      DecodeNonNegative(f, c);
      DecodeMono(f, c, d);
      Square(Decode(f, c), Decode(f, d));
    }
  }

  /** Against any other non-negative number `s`, `r` is the root of `v` that the mode demands: extreme on the prescribed
      side in a directed mode, and in a nearest mode the root is on its side of the mean of the two. */
  ghost predicate BestRoot(mode: Mode, v: real, r: real, s: real) {
    match mode
    case RTZ => r * r <= v && (s * s <= v ==> s <= r)
    case RDN => r * r <= v && (s * s <= v ==> s <= r)
    case RUP => r * r >= v && (s * s >= v ==> r <= s)
    case _ =>
      var mean := (r + s) / 2.0;
      (r < s ==> v <= mean * mean) && (s < r ==> mean * mean <= v)
  }

  lemma RootPlace(f: Format, mode: Mode, v: real, d: nat)
    requires v >= 0.0
    ensures BestRoot(mode, v, Decode(f, RoundCode(f, mode, false, Root(v))), Decode(f, d))
  {
    var c := RoundCode(f, mode, false, Root(v));
    if c < d {
      DecodeMono(f, c, d);
    } else if d < c {
      DecodeMono(f, d, c);
    }
    if mode in {RNE, RNA} {
      RootNearest(f, mode, v, d);
    } else {
      RootDirected(f, mode, v, d);
    }
  }
}
