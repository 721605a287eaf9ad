/** Two operands brought to one exponent: the dominant one exactly, with its leading bit at a fixed
    position, the other one exactly or jammed. Both fused multiply-adds work in such a frame. */
module Frames {
  import opened Powers
  import opened Shifts
  import opened Rounding
  import opened Cells
  import opened Words

  /** A magnitude that may have been jammed keeps enough bits to be rounded: it is exact, or its
      leading bit is at `kept` or above. */
  ghost predicate Framed(kept: nat, mag: nat, e: int, x: Exact) {
    SameCell(mag, e, x, 0) || (SameCell(mag, e, x, 1) && mag >= Pow2(kept))
  }

  lemma FramedCell(kept: nat, mag: nat, e: int, x: Exact, k: nat)
    requires Framed(kept, mag, e, x)
    requires k >= 1 || mag < Pow2(kept)
    ensures SameCell(mag, e, x, k)
  {
    if SameCell(mag, e, x, 0) {
      Coarsen(mag, e, x, 0, k);
    } else {
      Coarsen(mag, e, x, 1, k - 1);
    }
  }

  /** A digit-by-digit result with its remainder as sticky bit. */
  lemma StickyFramed(kept: nat, t: nat, on: bool, e: int, x: Exact)
    requires Cell(t, on, e, x) && t >= Pow2(kept)
    ensures Framed(kept, t + if !on && t % 2 == 0 then 1 else 0, e, x)
  {
    var m := t + if !on && t % 2 == 0 then 1 else 0;
    assert Shr(t, 0) == t && !AnyLow(t, 0) && Shr(m, 0) == m && !AnyLow(m, 0);
    if !on {
      CoarserCell(t, on, e, x, 1);
    }
  }

  /** A value moved into the frame by `shift` places, jammed when that is to the right. */
  ghost function FrameNat(n: nat, shift: int): nat {
    if shift >= 0 then Shl(n, shift) else ShrJam(n, -shift)
  }

  /** `v` in the frame: exactly and, if moved up, with a clear bit 0; or jammed to at most a quarter
      of the dominant operand. */
  ghost predicate Placed(top: nat, n: nat, shift: int, e: int, v: real)
    requires top >= 2
  {
    && v > 0.0 && n < Pow2(top + 1)
    && if shift >= 0 then Dyadic(n, e) == v && (shift >= 1 ==> n % 2 == 0)
       else SameCell(n, e, Num(v), 1) && n <= Pow2(top - 2)
  }

  lemma FramePlaced(top: nat, n: nat, msb: nat, e0: int, shift: int, e: int, v: real)
    requires Pow2(msb) <= n < Pow2(msb + 1) && msb + 3 <= top && msb + shift <= top
    requires e == e0 - shift && v == Dyadic(n, e0)
    ensures Placed(top, FrameNat(n, shift), shift, e, v)
    ensures msb + shift == top ==> shift >= 1 && FrameNat(n, shift) >= Pow2(top)
  {
    DyadicPositive(n, e0);
    if shift >= 0 {
      ShiftPlaced(top, n, msb, shift, e);
    } else {
      JamPlaced(top, n, msb, e0, -shift, v);
    }
  }

  lemma ShlEven(n: nat, shift: nat)
    ensures shift >= 1 ==> Shl(n, shift) % 2 == 0
  {
  }

  lemma ShiftPlaced(top: nat, n: nat, msb: nat, shift: nat, e: int)
    requires Pow2(msb) <= n < Pow2(msb + 1) && msb + shift <= top
    ensures Shl(n, shift) < Pow2(top + 1) && (msb + shift == top ==> Shl(n, shift) >= Pow2(top))
    ensures Dyadic(Shl(n, shift), e) == Dyadic(n, e + shift)
    ensures shift >= 1 ==> Shl(n, shift) % 2 == 0
  {
    ShlEven(n, shift);
    ShlMultiplies(n, shift);
    DyadicShift(n, e, shift);
    ShlRange(n, shift, msb);
    ShlRange(n, shift, msb + 1);
    Pow2Mono(msb + 1 + shift, top + 1);
  }

  lemma JamPlaced(top: nat, n: nat, msb: nat, e0: int, s: nat, v: real)
    requires n < Pow2(msb + 1) && msb + 3 <= top && v == Dyadic(n, e0) && v >= 0.0
    ensures SameCell(ShrJam(n, s), e0 + s, Num(v), 1)
    ensures ShrJam(n, s) <= Pow2(top - 2) < Pow2(top + 1)
  {
    ExactCell(n, e0, Num(v), 0);
    JamCell(n, e0, Num(v), 0, s, 1);
    ShrJamBound(n, s);
    Pow2Mono(msb + 1, top - 2);
    Pow2Mono(top - 2, top + 1);
  }

  /** At most one of the two was jammed, and then the other is dominant. */
  ghost predicate Dominance(top: nat, p: nat, pShift: int, c: nat, cShift: int) {
    && (pShift < 0 ==> cShift >= 1 && c >= Pow2(top))
    && (cShift < 0 ==> pShift >= 1 && p >= Pow2(top))
  }

  lemma FrameSum(top: nat, kept: nat, big: nat, bigShift: int, small: nat, smallShift: int, e: int, vb: real, vs: real)
    requires 2 <= top && kept < top
    requires Placed(top, big, bigShift, e, vb) && Placed(top, small, smallShift, e, vs)
    requires bigShift >= 0 && Dominance(top, big, bigShift, small, smallShift)
    ensures Framed(kept, big + small, e, Num(vb + vs)) && big + small < Pow2(top + 2)
  {
    Pow2Step(top + 1);
    if smallShift >= 0 {
      DyadicAdd(big, small, e);
      ExactCell(big + small, e, Num(vb + vs), 0);
    } else {
      assert Shr(big, 0) == big && !AnyLow(big, 0) && !AnyLow(big, 1);
      AddCell(big, small, e, vs, 1);
      Pow2Mono(kept, top);
    }
  }

  /** Cancelling against a jammed operand costs at most one leading bit. */
  lemma FrameDiff(top: nat, kept: nat, big: nat, bigShift: int, small: nat, smallShift: int, e: int, vb: real, vs: real)
    requires 2 <= top && kept < top
    requires Placed(top, big, bigShift, e, vb) && Placed(top, small, smallShift, e, vs)
    requires big >= small && Dominance(top, big, bigShift, small, smallShift)
    ensures Framed(kept, big - small, e, Num(vb - vs)) && vb >= vs && (vb == vs <==> big == small)
  {
    Pow2Step(top - 2);
    Pow2Step(top - 1);
    Pow2Mono(kept, top - 1);
    if smallShift >= 0 {
      if bigShift < 0 {
        assert false;
      }
      DyadicAdd(big, small, e);
      DyadicPositive(big - small, e);
      ExactCell(big - small, e, Num(vb - vs), 0);
    } else {
      assert Shr(big, 0) == big && !AnyLow(big, 0) && !AnyLow(big, 1);
      SubCell(big, small, e, vs, 1);
      var t := Shr(big - small, 1);
      assert Shr(big - small, 0) == big - small;
      DyadicPositive(t, e + 1);
    }
  }
}
