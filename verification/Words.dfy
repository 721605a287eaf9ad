/** 64-bit words and the word helpers of src/internal.h. A `uint64_t` is a natural number below
    2^64; where the C++ relies on wraparound the model takes the remainder explicitly. */
module Words {
  import opened Powers
  import opened Shifts

  const TWO32: nat := 0x1_0000_0000
  const TWO64: nat := 0x1_0000_0000_0000_0000
  const TWO128: nat := 0x1_0000_0000_0000_0000_0000_0000_0000_0000

  type u64 = x: nat | x < 0x1_0000_0000_0000_0000
  type u32 = x: nat | x < 0x1_0000_0000

  /** A number below 2^k, given its shifted position. */
  lemma ShrRange(m: nat, s: nat, k: nat)
    requires s <= k
    ensures m < Pow2(k) ==> Shr(m, s) < Pow2(k - s)
    ensures m >= Pow2(k) ==> Shr(m, s) >= Pow2(k - s)
  {
    ShrDivides(m, s);
    Pow2Add(k - s, s);
    Pow2Zero();
    if m < Pow2(k) {
      if Shr(m, s) >= Pow2(k - s) {
        MulMono(Pow2(k - s), Shr(m, s), Pow2(s));
      }
    } else if Shr(m, s) < Pow2(k - s) {
      MulMono(Shr(m, s) + 1, Pow2(k - s), Pow2(s));
    }
  }

  /** A number below 2^k disappears when shifted by `k` or more. */
  lemma ShrAll(m: nat, k: nat, s: nat)
    requires m < Pow2(k) && k <= s
    ensures Shr(m, s) == 0
    ensures AnyLow(m, s) <==> m != 0
  {
    Pow2Mono(k, s);
    ShrUnique(m, s, 0);
  }

  lemma ShlRange(m: nat, s: nat, k: nat)
    ensures m < Pow2(k) ==> Shl(m, s) < Pow2(k + s)
    ensures m >= Pow2(k) ==> Shl(m, s) >= Pow2(k + s)
  {
    ShlMultiplies(m, s);
    Pow2Add(k, s);
    if m < Pow2(k) {
      MulStrict(m, Pow2(k), Pow2(s));
    } else {
      MulMono(Pow2(k), m, Pow2(s));
    }
  }

  /** A jammed shift keeps the leading bit in place. */
  lemma JamRange(m: nat, s: nat, k: nat)
    requires s < k && Pow2(k) <= m < 2 * Pow2(k)
    ensures Pow2(k - s) <= ShrJam(m, s) < 2 * Pow2(k - s)
  {
    Pow2Step(k);
    Pow2Step(k - s);
    Pow2Step(k - s - 1);
    ShrRange(m, s, k);
    ShrRange(m, s, k + 1);
  }

  /** `shift_right_jamming`, total in `count`. */
  function ShiftRightJamming(x: u64, count: nat): (r: u64)
    ensures r == ShrJam(x, count)
    ensures r <= x
  {
    if count == 0 then
      assert ShrJam(x, 0) == x;
      x
    else if count >= 64 then
      Pow2Table();
      ShrAll(x, 64, count);
      if x != 0 then 1 else 0
    else
      ShrJamBound(x, count);
      ShrJam(x, count)
  }

  lemma {:induction false} ShrJamBound(x: nat, s: nat)
    ensures ShrJam(x, s) <= x
    ensures Shr(x, s) <= x
  {
    if s == 0 {
    } else {
      ShrJamBound(x, s - 1);
      if x == 0 {
        ShrZero(s);
      } else if s == 1 {
        assert Shr(x, 0) == x && !AnyLow(x, 0);
      } else {
        JamCompose(x, s - 1, 1);
        assert Shr(ShrJam(x, s - 1), 0) == ShrJam(x, s - 1);
        assert !AnyLow(ShrJam(x, s - 1), 0);
      }
    }
  }

  lemma {:induction false} ShrZero(s: nat)
    ensures Shr(0, s) == 0 && !AnyLow(0, s)
  {
    if s != 0 {
      ShrZero(s - 1);
    }
  }

  /** One step of the leading-zero count: shift left by `k` if the top `k` bits are clear. */
  method ClzStep(ghost x0: nat, x: u64, count: nat, k: nat) returns (y: u64, n: nat)
    requires 1 <= k <= 32
    requires x == Shl(x0, count) && x >= Pow2(64 - 2 * k)
    ensures y == Shl(x0, n) && n <= count + k
    ensures y >= Pow2(64 - k)
  {
    y, n := x, count;
    Pow2Table();
    ShrRange(x, 64 - k, 64 - k);
    if Shr(x, 64 - k) == 0 {
      ShlRange(x, k, 64 - k);
      ShlRange(x, k, 64 - 2 * k);
      ShlShl(x0, count, k);
      y, n := Shl(x, k), count + k;
    }
  }

  /** `clz64`: shifting out the leading zeros puts the top bit at position 63. */
  method Clz64(x0: u64) returns (count: nat)
    ensures x0 == 0 ==> count == 64
    ensures x0 != 0 ==> count < 64 && TWO64 / 2 <= Shl(x0, count) < TWO64
  {
    if x0 == 0 {
      return 64;
    }
    Pow2Zero();
    var x := x0;
    x, count := ClzStep(x0, x, 0, 32);
    x, count := ClzStep(x0, x, count, 16);
    x, count := ClzStep(x0, x, count, 8);
    x, count := ClzStep(x0, x, count, 4);
    x, count := ClzStep(x0, x, count, 2);
    x, count := ClzStep(x0, x, count, 1);
    Pow2Table();
  }

  /** The position a leading-zero count stands for. */
  lemma ClzPosition(x: nat, count: nat)
    requires count <= 63 && TWO64 / 2 <= Shl(x, count) < TWO64
    ensures Pow2(63 - count) <= x < Pow2(64 - count)
  {
    Pow2Table();
    if x >= Pow2(64 - count) {
      ShlRange(x, count, 64 - count);
    }
    if x < Pow2(63 - count) {
      ShlRange(x, count, 63 - count);
    }
  }
}
