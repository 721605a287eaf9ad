/** Rounding to an integer, as rounding to a format whose codes are the integers. */
module Integers {
  import opened Powers
  import opened Shifts
  import opened Rounding
  import opened Cells

  /** Quantum one, and more significant bits than any operand has integer bits. */
  const INTEGERS: Format := Format(300000, 0, 2)

  /** The integer that magnitude `v` under sign `neg` rounds to. */
  ghost function RoundInt(mode: Mode, neg: bool, v: real): nat
    requires v >= 0.0
  {
    RoundCode(INTEGERS, mode, neg, Num(v))
  }

  lemma IntegerCode(n: nat)
    requires n <= 2 * Pow2(300000)
    ensures Decode(INTEGERS, n) == n as real
  {
    DecodeGrid(INTEGERS, n, 0, n);
    Units(n);
  }

  /** What the modes of section 4.3 of IEEE 754-2008 mean for integers. */
  lemma RoundIntMeans(mode: Mode, neg: bool, v: real)
    requires 0.0 <= v < Pow2(300000) as real
    ensures var n := RoundInt(mode, neg, v) as real;
            && (TowardZero(mode, neg) ==> n <= v < n + 1.0)
            && (AwayFromZero(mode, neg) ==> n - 1.0 < v <= n)
            && (mode in {RNE, RNA} ==> 2.0 * Distance(n, v) <= 1.0)
            && (mode == RNE && 2.0 * Distance(n, v) == 1.0 ==> RoundInt(mode, neg, v) % 2 == 0)
            && (mode == RNA && 2.0 * Distance(n, v) == 1.0 ==> v < n)
  {
    var c := RoundInt(mode, neg, v);
    RoundIntBound(mode, neg, v);
    IntegerCode(c);
    IntegerCode(c + 1);
    if c > 0 {
      IntegerCode(c - 1);
    }
  }

  lemma RoundIntBound(mode: Mode, neg: bool, v: real)
    requires 0.0 <= v < Pow2(300000) as real
    ensures RoundInt(mode, neg, v) <= Pow2(300000)
  {
    var c := RoundInt(mode, neg, v);
    var p := Pow2(300000);
    if c > p {
      IntegerCode(p);
      MidRange(INTEGERS, p);
      MidRange(INTEGERS, c - 1);
      if p < c - 1 {
        DecodeMono(INTEGERS, p, c - 1);
      }
      DecodeMono(INTEGERS, p, c);
    }
  }

  /** Truncated bits, guard and sticky decide the integer. */
  lemma RoundIntFromCell(mode: Mode, neg: bool, v: real, h: nat, on: bool)
    requires v >= 0.0 && h / 2 <= Pow2(300000) && Cell(h, on, -1, Num(v))
    ensures RoundInt(mode, neg, v) == h / 2 + if ShouldRoundUp(neg, h % 2 == 1, !on, h / 2 % 2 == 1, mode) then 1 else 0
    ensures RoundInt(mode, neg, v) as real == v <==> on && h % 2 == 0
  {
    var c := h / 2 + if ShouldRoundUp(neg, h % 2 == 1, !on, h / 2 % 2 == 1, mode) then 1 else 0;
    RoundFromCell(INTEGERS, mode, neg, Num(v), h, on, 0, h / 2);
    RoundsUnique(INTEGERS, mode, neg, Num(v), c, RoundInt(mode, neg, v));
    IntegerCode(c);
  }

  /** The dropped part of a significand whose point is `shift` places up. */
  lemma RoundIntShifted(mode: Mode, neg: bool, sig: nat, e: int, shift: nat, v: real)
    requires shift >= 1 && e + shift == 0 && v == Dyadic(sig, e) && Shr(sig, shift) <= Pow2(300000)
    ensures v >= 0.0
    ensures RoundInt(mode, neg, v) == Shr(sig, shift)
              + if ShouldRoundUp(neg, Bit(sig, shift - 1), AnyLow(sig, shift - 1), Shr(sig, shift) % 2 == 1, mode)
                then 1 else 0
    ensures RoundInt(mode, neg, v) as real == v <==> !Bit(sig, shift - 1) && !AnyLow(sig, shift - 1)
  {
    DyadicPositive(sig, e);
    ExactCell(sig, e, Num(v), shift - 1);
    RoundIntFromCell(mode, neg, v, Shr(sig, shift - 1), !AnyLow(sig, shift - 1));
  }

  /** An integer is its own rounding. */
  lemma RoundIntExact(mode: Mode, neg: bool, n: nat)
    requires n <= Pow2(300000)
    ensures RoundInt(mode, neg, n as real) == n
  {
    IntegerCode(n);
    RoundExact(INTEGERS, mode, neg, Num(n as real), n);
  }
}
