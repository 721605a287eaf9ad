/** Truncation with sticky bits. A significand that has lost low bits still rounds as the exact
    result does, as long as both lie in the same cell of a fine enough grid. */
module Cells {
  import opened Powers
  import opened Shifts
  import opened Rounding

  /** No multiple of 2^k separates `m` from `x` / 2^e: both are that multiple, or both lie strictly
      between the same two. */
  ghost predicate SameCell(m: nat, e: int, x: Exact, k: nat) {
    Cell(Shr(m, k), !AnyLow(m, k), e + k, x)
  }

  /** Between grid points of a coarser grid. */
  lemma CoarserCell(fine: nat, on: bool, e: int, x: Exact, k: nat)
    requires Cell(fine, on, e, x)
    ensures Cell(Shr(fine, k), on && !AnyLow(fine, k), e + k, x)
  {
    var t := Shr(fine, k);
    ShrDivides(fine, k);
    DyadicShift(t, e, k);
    DyadicShift(t + 1, e, k);
    MulMono(0, t, Pow2(k));
    CellCompare(fine, on, e, x, t * Pow2(k));
    CellCompare(fine, on, e, x, (t + 1) * Pow2(k));
    DyadicPositive(t, e + k);
  }

  /** An exactly held result is in every cell it should be in. */
  lemma ExactCell(m: nat, e: int, x: Exact, k: nat)
    requires Is(Dyadic(m, e), x)
    ensures SameCell(m, e, x, k)
  {
    CoarserCell(m, true, e, x, k);
  }

  lemma Coarsen(m: nat, e: int, x: Exact, k: nat, j: nat)
    requires SameCell(m, e, x, k)
    ensures SameCell(m, e, x, k + j)
  {
    CoarserCell(Shr(m, k), !AnyLow(m, k), e + k, x, j);
    ShrShr(m, k, j);
  }

  /** Shifting left refines the units. */
  lemma ShiftLeftCell(m: nat, e: int, x: Exact, k: nat, w: nat)
    requires SameCell(m, e, x, k)
    ensures SameCell(Shl(m, w), e - w, x, w + k)
  {
    ShrOfShl(m, w, k);
  }

  /** Right shifts with jamming keep the cell, at size 2 or the original size, whichever is larger. */
  lemma JamCell(m: nat, e: int, x: Exact, k: nat, s: nat, j: nat)
    requires SameCell(m, e, x, k)
    requires 1 <= j && k <= s + j
    ensures SameCell(ShrJam(m, s), e + s, x, j)
  {
    Coarsen(m, e, x, k, s + j - k);
    JamWithin(m, s, j);
  }

  lemma MultipleOf(a: nat, e: int, k: nat)
    requires !AnyLow(a, k)
    ensures Dyadic(a, e) == Dyadic(Shr(a, k), e + k)
  {
    ShrDivides(a, k);
    DyadicShift(Shr(a, k), e, k);
  }

  /** Adding an exactly held multiple of the cell size moves the cell. */
  lemma AddCell(a: nat, m: nat, e: int, v: real, k: nat)
    requires !AnyLow(a, k) && v >= 0.0
    requires SameCell(m, e, Num(v), k)
    ensures SameCell(a + m, e, Num(Dyadic(a, e) + v), k)
  {
    var d, t := Shr(a, k), Shr(m, k);
    MultipleOf(a, e, k);
    ShrAdd(a, m, k);
    DyadicAdd(d, t, e + k);
    DyadicAdd(d, t + 1, e + k);
    DyadicPositive(d, e + k);
  }

  /** Subtracting from an exactly held multiple of the cell size mirrors the cell. */
  lemma SubCell(a: nat, m: nat, e: int, v: real, k: nat)
    requires !AnyLow(a, k) && m <= a && v >= 0.0
    requires SameCell(m, e, Num(v), k)
    ensures SameCell(a - m, e, Num(Dyadic(a, e) - v), k)
  {
    var d, t := Shr(a, k), Shr(m, k);
    MultipleOf(a, e, k);
    ShrSub(a, m, k);
    DyadicAdd(d, t, e + k);
    DyadicAdd(d, t + 1, e + k);
    DyadicPositive(Shr(a - m, k), e + k);
  }

  /** A significand with three extra bits: the guard bit is bit 2, the sticky bits are bits 1 and 0. */
  lemma RoundThree(f: Format, mode: Mode, neg: bool, x: Exact, ext: nat, q: nat, n: nat)
    requires 1 <= f.frac && x.v >= 0.0
    requires Shr(ext, 3) < 2 * Pow2(f.frac) && (q == 0 || Pow2(f.frac) <= Shr(ext, 3))
    requires SameCell(ext, f.e0 + q - 3, x, 2)
    requires n == Shr(ext, 3)
               + if ShouldRoundUp(neg, Bit(ext, 2), Bit(ext, 1) || Bit(ext, 0), Bit(Shr(ext, 3), 0), mode) then 1 else 0
    ensures RoundCode(f, mode, neg, x) == n + q * Pow2(f.frac)
    ensures Is(Decode(f, n + q * Pow2(f.frac)), x) <==> !Bit(ext, 2) && !Bit(ext, 1) && !Bit(ext, 0)
  {
    var h := Shr(ext, 2);
    assert Shr(ext, 3) == h / 2;
    assert AnyLow(ext, 2) <==> Bit(ext, 1) || Bit(ext, 0) by {
      assert AnyLow(ext, 1) <==> Bit(ext, 0);
    }
    assert Bit(Shr(ext, 3), 0) <==> h / 2 % 2 == 1;
    var c := h / 2 + q * Pow2(f.frac);
    RoundFromCell(f, mode, neg, x, h, !AnyLow(ext, 2), q, c);
    RoundsUnique(f, mode, neg, x, n + q * Pow2(f.frac), RoundCode(f, mode, neg, x));
  }
}
