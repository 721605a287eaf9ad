/** Right shifts of naturals, the bits they lose, and shifts that jam those bits into bit 0. */
module Shifts {
  import opened Powers

  /** `m >> s`. */
  function Shr(m: nat, s: nat): nat {
    if s == 0 then m else Shr(m, s - 1) / 2
  }

  /** `m << s`, before any truncation to a word. */
  function Shl(m: nat, s: nat): nat {
    if s == 0 then m else 2 * Shl(m, s - 1)
  }

  /** Bit `i` of `m`. */
  predicate Bit(m: nat, i: nat) {
    Shr(m, i) % 2 == 1
  }

  /** Whether `m >> s` loses a set bit. */
  predicate AnyLow(m: nat, s: nat) {
    s > 0 && (AnyLow(m, s - 1) || Bit(m, s - 1))
  }

  /** Right shift that ORs the lost bits into bit 0. */
  function ShrJam(m: nat, s: nat): nat {
    Shr(m, s) + if AnyLow(m, s) && Shr(m, s) % 2 == 0 then 1 else 0
  }

  lemma Expand(h: int, p: int)
    ensures (2 * h) * p == h * (2 * p) == 2 * (h * p)
    ensures (2 * h + 1) * p == 2 * (h * p) + p
    ensures (2 * h + 2) * p == (h + 1) * (2 * p) == 2 * (h * p) + 2 * p
  {
  }

  lemma HalveBounds(m: nat, t: nat, p: nat)
    requires p > 0 && t * p <= m < (t + 1) * p
    ensures (t / 2) * (2 * p) <= m < (t / 2 + 1) * (2 * p)
    ensures (t / 2) * (2 * p) != m <==> t * p != m || t % 2 == 1
  {
    var h := t / 2;
    Expand(h, p);
    if t % 2 == 0 {
      assert t == 2 * h;
    } else {
      assert t == 2 * h + 1;
    }
  }

  /** Shifting is division by a power of two; a bit is lost exactly when a remainder is left. */
  lemma {:induction false} ShrDivides(m: nat, s: nat)
    ensures Shr(m, s) * Pow2(s) <= m < (Shr(m, s) + 1) * Pow2(s)
    ensures AnyLow(m, s) <==> Shr(m, s) * Pow2(s) != m
  {
    if s == 0 {
      Pow2Zero();
    } else {
      ShrDivides(m, s - 1);
      Pow2Step(s - 1);
      HalveBounds(m, Shr(m, s - 1), Pow2(s - 1));
    }
  }

  lemma {:induction false} ShlMultiplies(m: nat, s: nat)
    ensures Shl(m, s) == m * Pow2(s)
  {
    if s == 0 {
      Pow2Zero();
    } else {
      ShlMultiplies(m, s - 1);
      Pow2Step(s - 1);
      Expand(m, Pow2(s - 1));
    }
  }

  lemma ShrUnique(m: nat, s: nat, t: nat)
    requires t * Pow2(s) <= m < (t + 1) * Pow2(s)
    ensures Shr(m, s) == t
    ensures AnyLow(m, s) <==> t * Pow2(s) != m
  {
    ShrDivides(m, s);
    var u, p := Shr(m, s), Pow2(s);
    if u < t {
      MulMono(u + 1, t, p);
    } else if t < u {
      MulMono(t + 1, u, p);
    }
  }

  /** With the power as a number. */
  lemma ShrIsDiv(m: nat, s: nat, p: nat)
    requires p == Pow2(s)
    ensures Shr(m, s) == m / p
    ensures AnyLow(m, s) <==> m % p != 0
  {
    var d := m / p;
    assert m == d * p + m % p;
    assert (d + 1) * p == d * p + p;
    if d < 0 {
      MulMono(d + 1, 0, p);
    }
    ShrUnique(m, s, d);
  }

  lemma {:induction false} ShrShr(m: nat, s: nat, j: nat)
    ensures Shr(m, s + j) == Shr(Shr(m, s), j)
    ensures AnyLow(m, s + j) <==> AnyLow(m, s) || AnyLow(Shr(m, s), j)
  {
    if j != 0 {
      ShrShr(m, s, j - 1);
    }
  }

  /** A shift left before a longer shift right. */
  lemma ShrOfShl(m: nat, w: nat, k: nat)
    ensures Shr(Shl(m, w), w + k) == Shr(m, k)
    ensures AnyLow(Shl(m, w), w + k) <==> AnyLow(m, k)
  {
    ShlMultiplies(m, w);
    Distribute(0, m, Pow2(w));
    ShrUnique(Shl(m, w), w, m);
    ShrShr(Shl(m, w), w, k);
  }

  lemma {:induction false} ShlShl(x: nat, a: nat, b: nat)
    ensures Shl(Shl(x, a), b) == Shl(x, a + b)
  {
    if b != 0 {
      ShlShl(x, a, b - 1);
    }
  }

  /** Higher bits do not touch bit `i`. */
  lemma BitBelow(m: nat, d: nat, i: nat, w: nat)
    requires w >= 1
    ensures Bit(m + d * Pow2(i + w), i) <==> Bit(m, i)
  {
    ShlMultiplies(d, i + w);
    ShlShl(d, w, i);
    ShlAdd(m, Shl(d, w), i);
    assert Shl(d, w) == 2 * Shl(d, w - 1);
  }

  lemma ShlAdd(m: nat, d: nat, i: nat)
    ensures Shr(m + Shl(d, i), i) == Shr(m, i) + d
    ensures AnyLow(m + Shl(d, i), i) <==> AnyLow(m, i)
  {
    ShrOfShl(d, i, 0);
    assert Shr(d, 0) == d && !AnyLow(d, 0);
    ShrAdd(Shl(d, i), m, i);
  }

  lemma Distribute(a: int, b: int, p: int)
    ensures (a + b) * p == a * p + b * p
    ensures (a - b) * p == a * p - b * p
    ensures (a + b + 1) * p == a * p + b * p + p
    ensures (a - b - 1) * p == a * p - b * p - p
    ensures (a - b + 1) * p == a * p - b * p + p
    ensures (b + 1) * p == b * p + p
  {
  }

  /** Adding a multiple of 2^k adds the shifted values. */
  lemma ShrAdd(a: nat, m: nat, k: nat)
    requires !AnyLow(a, k)
    ensures Shr(a + m, k) == Shr(a, k) + Shr(m, k)
    ensures AnyLow(a + m, k) <==> AnyLow(m, k)
  {
    ShrDivides(a, k);
    ShrDivides(m, k);
    Distribute(Shr(a, k), Shr(m, k), Pow2(k));
    ShrUnique(a + m, k, Shr(a, k) + Shr(m, k));
  }

  /** Subtracting from a multiple of 2^k borrows when a bit is lost. */
  lemma ShrSub(a: nat, m: nat, k: nat)
    requires !AnyLow(a, k) && m <= a
    ensures Shr(a - m, k) == Shr(a, k) - Shr(m, k) - if AnyLow(m, k) then 1 else 0
    ensures AnyLow(a - m, k) <==> AnyLow(m, k)
  {
    ShrDivides(a, k);
    ShrDivides(m, k);
    var d, t, p := Shr(a, k), Shr(m, k), Pow2(k);
    Distribute(d, t, p);
    if d < t {
      MulStrict(d, t, p);
    }
    if AnyLow(m, k) {
      ShrUnique(a - m, k, d - t - 1);
    } else {
      ShrUnique(a - m, k, d - t);
    }
  }

  /** Jamming by `s` changes nothing that a further shift by `j`, at least 1, can see. */
  lemma JamWithin(m: nat, s: nat, j: nat)
    requires j >= 1
    ensures Shr(ShrJam(m, s), j) == Shr(m, s + j)
    ensures AnyLow(ShrJam(m, s), j) <==> AnyLow(m, s + j)
  {
    ShrShr(m, s, j);
    var q, q' := Shr(m, s), ShrJam(m, s);
    ShrShr(q, 1, j - 1);
    ShrShr(q', 1, j - 1);
    assert Shr(q, 1) == q / 2 == q' / 2 == Shr(q', 1) by {
      assert Shr(q, 0) == q && Shr(q', 0) == q';
    }
    assert AnyLow(q, 1) == (q % 2 == 1) && AnyLow(q', 1) == (q' % 2 == 1) by {
      assert !AnyLow(q, 0) && !AnyLow(q', 0) && Shr(q, 0) == q && Shr(q', 0) == q';
    }
  }

  /** Jamming by `a` and then by `b` is jamming by `a + b`. */
  lemma JamCompose(m: nat, a: nat, b: nat)
    ensures ShrJam(ShrJam(m, a), b) == ShrJam(m, a + b)
  {
    if b == 0 {
      assert ShrJam(ShrJam(m, a), 0) == ShrJam(m, a);
    } else {
      JamWithin(m, a, b);
    }
  }
}
