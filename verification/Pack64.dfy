/** Rounding and encoding of a 62-bit significand: `round_and_pack` of src/arithmetic.cpp. */
module Pack64 {
  import opened Powers
  import opened Shifts
  import opened Rounding
  import opened Cells
  import opened Words
  import opened Binary64
  import opened Fenv

  function OverflowResult(neg: bool, mode: Mode): (b: u64)
    ensures b == Bits(neg, if TowardZero(mode, neg) then 0x7FEF_FFFF_FFFF_FFFF else 0x7FF0_0000_0000_0000)
  {
    match mode
    case RTZ => Pack(neg, 0x7FE, IMPLICIT - 1)
    case RUP => if !neg then Pack(false, 0x7FF, 0) else Pack(true, 0x7FE, IMPLICIT - 1)
    case RDN => if neg then Pack(true, 0x7FF, 0) else Pack(false, 0x7FE, IMPLICIT - 1)
    case RNE => Pack(neg, 0x7FF, 0)
    case RNA => Pack(neg, 0x7FF, 0)
  }

  /** An exponent field of 2047 or more is out of range before rounding. */
  lemma TooLarge(mode: Mode, neg: bool, exp: int, sig: nat, x: Exact)
    requires exp >= 0x7FF && 0x2000_0000_0000_0000 <= sig && x.v >= 0.0
    requires SameCell(sig, exp - 1084, x, 8)
    ensures RoundCode(F64, mode, neg, x) >= F64.InfCode()
  {
    Pow2Table();
    ShrRange(sig, 8, 61);
    RoundTooLarge(F64, mode, neg, x, Shr(sig, 8), !AnyLow(sig, 8), exp - 1076, 53);
  }

  /** The 9 low bits of the working significand: guard, sticky and the bit above them. */
  lemma LowBits(sig: nat)
    ensures Shr(sig, 8) == sig / 0x100
    ensures AnyLow(sig, 8) <==> sig % 0x100 != 0
  {
    Pow2Table();
    ShrIsDiv(sig, 8, 0x100);
  }

  /** The fields of the rounded significand, with a carry into bit 62 renormalized and a subnormal
      that has reached the implicit bit promoted. */
  method EncodeRounded(neg: bool, exp0: nat, rounded0: nat) returns (overflow: bool, r: u64)
    requires exp0 < 0x7FF
    requires if exp0 == 0 then rounded0 < 0x2000_0000_0000_0200
             else 0x2000_0000_0000_0000 <= rounded0 < 0x4000_0000_0000_0200
    ensures var c := rounded0 / 0x200 + (if exp0 == 0 then 0 else exp0 - 1) * IMPLICIT;
            if c < 0x7FF0_0000_0000_0000 then !overflow && r == Bits(neg, c) else overflow
  {
    var exp, rounded := exp0, rounded0;
    if rounded / 0x4000_0000_0000_0000 % 2 != 0 {
      CarryOut(rounded);
      rounded := ShiftRightJamming(rounded, 1);
      exp := exp + 1;
      if exp >= 0x7FF {
        return true, 0;
      }
    }
    var mantissa := rounded / 0x200 % IMPLICIT;
    var implicitSet := rounded / 0x2000_0000_0000_0000 % 2 != 0;
    Fields(rounded, rounded / 0x200);
    var finalExp := exp;
    if exp == 0 {
      finalExp := if implicitSet then 1 else 0;
    } else if !implicitSet && mantissa == 0 {
      assert false; // the source's defensive zero exponent: a normal significand keeps its implicit bit
    }
    return false, Pack(neg, finalExp, mantissa);
  }

  lemma Fields(rounded: nat, kept: nat)
    requires kept == rounded / 0x200 && kept < 2 * IMPLICIT
    ensures kept < IMPLICIT ==> kept % IMPLICIT == kept && rounded / 0x2000_0000_0000_0000 % 2 == 0
    ensures kept >= IMPLICIT ==> kept % IMPLICIT == kept - IMPLICIT && rounded / 0x2000_0000_0000_0000 % 2 == 1
  {
  }

  lemma OutOfRange(mode: Mode, neg: bool, x: Exact)
    requires x.v >= 0.0 && RoundCode(F64, mode, neg, x) >= F64.InfCode()
    ensures RoundSigned(mode, neg, x) == Outcome(OverflowResult(neg, mode), {Overflow, Inexact})
  {
    RoundSignedIs(mode, neg, x, RoundCode(F64, mode, neg, x));
    FormatConstants();
  }

  lemma InRange(mode: Mode, neg: bool, x: Exact, c: nat)
    requires x.v >= 0.0 && c == RoundCode(F64, mode, neg, x)
    requires c < 0x7FF0_0000_0000_0000
    ensures RoundSigned(mode, neg, x) == Outcome(Bits(neg, c), RoundFlags(F64, mode, neg, x))
  {
    RoundSignedIs(mode, neg, x, c);
    FormatConstants();
  }

  /** Rounds `sig` at bit 9 (bit 61 is the implicit bit at biased exponent `exp`). The ghost
      argument `x` is the caller's exact result; `sig` may have lost everything below bit 8 of it
      except stickiness. */
  method RoundAndPack(neg: bool, exp: int, sig: u64, mode: Mode, fe: FeAcc, ghost x: Exact)
    returns (r: u64)
    requires 0x2000_0000_0000_0000 <= sig < 0x4000_0000_0000_0000
    requires x.v >= 0.0 && SameCell(sig, exp - 1084, x, 8)
    modifies fe
    ensures r == RoundSigned(mode, neg, x).bits
    ensures fe.bits == old(fe.bits) + RoundSigned(mode, neg, x).flags
  {
    if exp >= 0x7FF {
      TooLarge(mode, neg, exp, sig, x);
      OutOfRange(mode, neg, x);
      fe.Raise({Overflow, Inexact});
      r := OverflowResult(neg, mode);
    } else if exp <= 0 {
      JamCell(sig, exp - 1084, x, 8, 1 - exp, 8);
      JamHalves(sig, 1 - exp);
      var shifted := ShiftRightJamming(sig, 1 - exp);
      r := RoundBit9(neg, 0, shifted, true, mode, fe, x);
    } else {
      r := RoundBit9(neg, exp, sig, false, mode, fe, x);
    }
  }

  /** The rounding step proper; `exp` is 0 for a result that was tiny before rounding. */
  method RoundBit9(neg: bool, exp: nat, sig: u64, wasTiny: bool, mode: Mode, fe: FeAcc, ghost x: Exact)
    returns (r: u64)
    requires sig < 0x4000_0000_0000_0000 && exp < 0x7FF && wasTiny == (exp == 0)
    requires wasTiny <==> sig < 0x2000_0000_0000_0000
    requires x.v >= 0.0 && SameCell(sig, (if wasTiny then 1 else exp) - 1084, x, 8)
    modifies fe
    ensures r == RoundSigned(mode, neg, x).bits
    ensures fe.bits == old(fe.bits) + RoundSigned(mode, neg, x).flags
  {
    var guard := sig / 0x100 % 2 != 0;
    var sticky := sig % 0x100 != 0;
    var lsb := sig / 0x200 % 2 != 0;
    var inexact := guard || sticky;
    var rounded: nat := sig;
    if ShouldRoundUp(neg, guard, sticky, lsb, mode) {
      rounded := rounded + 0x200;
    }
    Rounded(mode, neg, x, sig, if wasTiny then 0 else exp - 1, rounded);
    var overflow;
    overflow, r := EncodeRounded(neg, exp, rounded);
    if overflow {
      OutOfRange(mode, neg, x);
      fe.Raise({Overflow, Inexact});
      return OverflowResult(neg, mode);
    }
    InRange(mode, neg, x, rounded / 0x200 + (if wasTiny then 0 else exp - 1) * IMPLICIT);
    if inexact {
      if wasTiny {
        fe.Raise({Underflow, Inexact});
      } else {
        fe.Raise({Inexact});
      }
    }
  }

  /** The rounded significand holds the correct rounding. */
  lemma Rounded(mode: Mode, neg: bool, x: Exact, sig: nat, q: nat, rounded: nat)
    requires x.v >= 0.0 && sig < 0x4000_0000_0000_0000
    requires q == 0 || sig >= 0x2000_0000_0000_0000
    requires SameCell(sig, q - 1083, x, 8)
    ensures F64.InfCode() == 0x7FF0_0000_0000_0000
    requires rounded == sig + if ShouldRoundUp(neg, sig / 0x100 % 2 != 0, sig % 0x100 != 0, sig / 0x200 % 2 != 0, mode)
                              then 0x200 else 0
    ensures RoundCode(F64, mode, neg, x) == rounded / 0x200 + q * IMPLICIT
    ensures RoundFlags(F64, mode, neg, x)
         == if RoundCode(F64, mode, neg, x) >= 0x7FF0_0000_0000_0000 then {Overflow, Inexact}
            else if sig / 0x100 % 2 == 0 && sig % 0x100 == 0 then {}
            else if sig < 0x2000_0000_0000_0000 then {Underflow, Inexact}
            else {Inexact}
  {
    FormatConstants();
    LowBits(sig);
    var h := sig / 0x100;
    assert h / 2 == sig / 0x200;
    RoundPacked(F64, mode, neg, x, h, sig % 0x100 == 0, q, rounded / 0x200 + q * IMPLICIT);
  }

  /** Jamming at least one place right leaves the implicit bit clear. */
  lemma JamHalves(sig: nat, s: nat)
    requires sig < 0x4000_0000_0000_0000 && s >= 1
    ensures ShrJam(sig, s) < 0x2000_0000_0000_0000
  {
    ShrShr(sig, 1, s - 1);
    ShrJamBound(Shr(sig, 1), s - 1);
    assert Shr(sig, 1) == sig / 2 by {
      assert Shr(sig, 0) == sig;
    }
    assert 0x1FFF_FFFF_FFFF_FFFF % 2 == 1;
  }

  /** Rounding has carried into bit 62: the kept bits are a power of two. */
  lemma CarryOut(rounded: nat)
    requires 0x4000_0000_0000_0000 <= rounded < 0x4000_0000_0000_0200
    ensures ShrJam(rounded, 1) / 0x200 == IMPLICIT && rounded / 0x200 == 2 * IMPLICIT
  {
    assert Shr(rounded, 0) == rounded;
    assert Shr(rounded, 1) == rounded / 2;
  }
}
