/** Integer products and quotients, and powers of two as naturals and as reals. */
module Powers {

  lemma MulMono(a: int, b: int, p: int)
    requires a <= b && 0 <= p
    ensures a * p <= b * p
  {
  }

  lemma MulStrict(a: int, b: int, p: int)
    requires a < b && 0 < p
    ensures a * p < b * p && (a + 1) * p <= b * p
  {
    MulMono(a + 1, b, p);
  }

  lemma DivUnique(c: int, p: int, a: int, r: int)
    requires 0 <= r < p && c == a * p + r
    ensures c / p == a && c % p == r
  {
    var d, m := c / p, c % p;
    assert c == d * p + m;
    assert (d - a) * p == r - m;
    if d - a >= 1 {
      MulMono(1, d - a, p);
    } else if d - a <= -1 {
      MulMono(d - a, -1, p);
    }
  }

  lemma DivNat(n: nat, p: nat)
    requires p > 0
    ensures n / p >= 0 && n == n / p * p + n % p
  {
  }

  /** Dividing twice is dividing by the product, and the low part splits the same way. */
  lemma DivDiv(x: nat, p: nat, q: nat)
    requires 0 < p && 0 < q
    ensures p * q > 0
    ensures (x / p) / q == x / (p * q)
    ensures x % (p * q) == ((x / p) % q) * p + x % p
  {
    var d, r := x / p, x % p;
    var a, b := d / q, d % q;
    MulMono(1, p, q);
    MulMono(b + 1, q, p);
    assert d == a * q + b;
    assert x == d * p + r;
    assert (a * q) * p == a * (p * q) by { Assoc(a, q, p); }
    assert (a * q + b) * p == (a * q) * p + b * p;
    DivUnique(x, p * q, a, b * p + r);
  }

  lemma Assoc(a: int, b: int, c: int)
    ensures (a * b) * c == a * (b * c) == a * (c * b)
  {
  }

  /** `r` is 2 to the power `n`: halving it `n` times, without remainder, gives one. */
  ghost predicate IsPow2(n: nat, r: nat)
    decreases n, r
  {
    if n == 0 then r == 1 else r % 2 == 0 && IsPow2(n - 1, r / 2)
  }

  lemma {:induction false} IsPow2Unique(n: nat, r: nat, s: nat)
    requires IsPow2(n, r) && IsPow2(n, s)
    ensures r == s && r >= 1
  {
    if n != 0 {
      IsPow2Unique(n - 1, r / 2, s / 2);
    }
  }

  lemma {:induction false} IsPow2Exists(n: nat) returns (r: nat)
    ensures IsPow2(n, r)
  {
    if n == 0 {
      r := 1;
    } else {
      var h := IsPow2Exists(n - 1);
      r := 2 * h;
    }
  }

  /** Two to a natural power. Choosing the value by its property, rather than computing it,
      keeps the verifier from unrolling the power inside products. */
  ghost function Pow2(n: nat): (r: nat)
    ensures r >= 1
  {
    assert exists r: nat :: IsPow2(n, r) by { var w := IsPow2Exists(n); }
    var r: nat :| IsPow2(n, r);
    IsPow2Unique(n, r, r);
    r
  }

  lemma Pow2Zero()
    ensures Pow2(0) == 1
  {
  }

  lemma Pow2Step(n: nat)
    ensures Pow2(n + 1) == 2 * Pow2(n)
  {
    IsPow2Unique(n, Pow2(n + 1) / 2, Pow2(n));
  }

  lemma {:induction false} Pow2Add(a: nat, b: nat)
    ensures Pow2(a + b) == Pow2(a) * Pow2(b)
  {
    if a == 0 {
      Pow2Zero();
    } else {
      Pow2Add(a - 1, b);
      Pow2Step(a + b - 1);
      Pow2Step(a - 1);
      Assoc(2, Pow2(a - 1), Pow2(b));
    }
  }

  lemma {:induction false} Pow2Mono(a: nat, b: nat)
    requires a <= b
    ensures Pow2(a) <= Pow2(b)
    ensures a < b ==> 2 * Pow2(a) <= Pow2(b)
  {
    if a < b {
      Pow2Mono(a, b - 1);
      Pow2Step(b - 1);
    }
  }

  lemma Pow2Times(a: nat, b: nat, x: nat, y: nat, z: nat)
    requires Pow2(a) == x && Pow2(b) == y && z == x * y
    ensures Pow2(a + b) == z
  {
    Pow2Add(a, b);
  }

  /** The powers that appear as constants of the binary64 code. */
  lemma Pow2Table()
    ensures Pow2(0) == 1 && Pow2(1) == 2 && Pow2(2) == 4 && Pow2(3) == 8 && Pow2(4) == 0x10
    ensures Pow2(8) == 0x100 && Pow2(9) == 0x200 && Pow2(16) == 0x1_0000 && Pow2(32) == 0x1_0000_0000
    ensures Pow2(52) == 0x10_0000_0000_0000 && Pow2(53) == 0x20_0000_0000_0000
    ensures Pow2(61) == 0x2000_0000_0000_0000 && Pow2(62) == 0x4000_0000_0000_0000
    ensures Pow2(63) == 0x8000_0000_0000_0000 && Pow2(64) == 0x1_0000_0000_0000_0000
  {
    Pow2Zero();
    Pow2Step(0);
    Pow2Step(1);
    Pow2Step(2);
    Pow2Step(3);
    Pow2Times(4, 4, 0x10, 0x10, 0x100);
    Pow2Step(8);
    Pow2Times(8, 8, 0x100, 0x100, 0x1_0000);
    Pow2Times(16, 16, 0x1_0000, 0x1_0000, 0x1_0000_0000);
    Pow2Times(32, 16, 0x1_0000_0000, 0x1_0000, 0x1_0000_0000_0000);
    Pow2Times(48, 4, 0x1_0000_0000_0000, 0x10, 0x10_0000_0000_0000);
    Pow2Step(52);
    Pow2Times(52, 9, 0x10_0000_0000_0000, 0x200, 0x2000_0000_0000_0000);
    Pow2Step(61);
    Pow2Step(62);
    Pow2Step(63);
  }

  /** `r` is 2 to the power `e`: halving or doubling it `e` times gives one. */
  ghost predicate IsTwo(e: int, r: real)
    decreases if e < 0 then -e else e, r
  {
    if e == 0 then r == 1.0 else if e > 0 then IsTwo(e - 1, r / 2.0) else IsTwo(e + 1, 2.0 * r)
  }

  lemma {:induction false} IsTwoUnique(e: int, r: real, s: real)
    requires IsTwo(e, r) && IsTwo(e, s)
    ensures r == s && r > 0.0
    decreases if e < 0 then -e else e
  {
    if e > 0 {
      IsTwoUnique(e - 1, r / 2.0, s / 2.0);
    } else if e < 0 {
      IsTwoUnique(e + 1, 2.0 * r, 2.0 * s);
    }
  }

  lemma {:induction false} IsTwoExists(e: int) returns (r: real)
    ensures IsTwo(e, r)
    decreases if e < 0 then -e else e
  {
    if e == 0 {
      r := 1.0;
    } else if e > 0 {
      var h := IsTwoExists(e - 1);
      r := 2.0 * h;
    } else {
      var d := IsTwoExists(e + 1);
      r := d / 2.0;
    }
  }

  /** Two to any integer power. Choosing the value by its property, rather than computing it,
      keeps the verifier from unrolling the power inside products. */
  ghost function Two(e: int): (r: real)
    ensures r > 0.0
  {
    assert exists r: real :: IsTwo(e, r) by { var w := IsTwoExists(e); }
    var r: real :| IsTwo(e, r);
    IsTwoUnique(e, r, r);
    r
  }

  lemma TwoZero()
    ensures Two(0) == 1.0
  {
  }

  lemma TwoStep(e: int)
    ensures Two(e + 1) == 2.0 * Two(e)
  {
    if e >= 0 {
      IsTwoUnique(e, Two(e + 1) / 2.0, Two(e));
    } else {
      IsTwoUnique(e + 1, 2.0 * Two(e), Two(e + 1));
    }
  }

  lemma RealAssoc(a: real, b: real, c: real)
    ensures (a * b) * c == a * (b * c)
  {
  }

  lemma RealDouble(p: real, t: real)
    ensures p * (2.0 * t) == 2.0 * (p * t)
  {
  }

  lemma {:induction false} TwoAdd(a: int, b: int)
    ensures Two(a + b) == Two(a) * Two(b)
    decreases if b < 0 then -b else b
  {
    if b > 0 {
      TwoAdd(a, b - 1);
      TwoStep(a + b - 1);
      TwoStep(b - 1);
      RealDouble(Two(a), Two(b - 1));
    } else if b < 0 {
      TwoAdd(a, b + 1);
      TwoStep(a + b);
      TwoStep(b);
      RealDouble(Two(a), Two(b));
    }
  }

  lemma {:induction false} TwoNat(k: nat)
    ensures Two(k) == Pow2(k) as real
  {
    if k != 0 {
      TwoNat(k - 1);
      TwoStep(k - 1);
      Pow2Step(k - 1);
    }
  }

  // ----- dyadic numbers -----

  ghost predicate Scale(e: int, t: real) {
    t == Two(e)
  }

  ghost predicate IsDyadic(m: int, e: int, r: real) {
    forall t: real :: Scale(e, t) ==> r == m as real * t
  }

  /** The number m * 2^e. Like the powers, it is chosen by its property, so that products show up
      only where a lemma below asks for them. */
  ghost function Dyadic(m: int, e: int): real {
    assert IsDyadic(m, e, m as real * Two(e));
    var r: real :| IsDyadic(m, e, r);
    r
  }

  lemma DyadicDef(m: int, e: int)
    ensures Dyadic(m, e) == m as real * Two(e)
  {
    assert Scale(e, Two(e));
  }

  lemma DyadicMono(a: int, b: int, e: int)
    requires a < b
    ensures Dyadic(a, e) < Dyadic(b, e)
  {
    DyadicDef(a, e);
    DyadicDef(b, e);
    RealMono(a as real, b as real, Two(e));
  }

  lemma DyadicZero(e: int)
    ensures Dyadic(0, e) == 0.0
  {
    DyadicDef(0, e);
  }

  lemma DyadicPositive(m: int, e: int)
    ensures m >= 0 ==> Dyadic(m, e) >= 0.0
    ensures m > 0 ==> Dyadic(m, e) > 0.0
  {
    DyadicZero(e);
    if m > 0 {
      DyadicMono(0, m, e);
    }
  }

  lemma DyadicAdd(a: int, b: int, e: int)
    ensures Dyadic(a + b, e) == Dyadic(a, e) + Dyadic(b, e)
    ensures Dyadic(a - b, e) == Dyadic(a, e) - Dyadic(b, e)
  {
    DyadicDef(a, e);
    DyadicDef(b, e);
    DyadicDef(a + b, e);
    DyadicDef(a - b, e);
    RealDistribute(a as real, b as real, Two(e));
  }

  lemma RealDistribute(a: real, b: real, t: real)
    ensures (a + b) * t == a * t + b * t
    ensures (a - b) * t == a * t - b * t
  {
  }

  /** Places move between significand and exponent. */
  lemma DyadicShift(m: int, e: int, k: nat)
    ensures Dyadic(m * Pow2(k), e) == Dyadic(m, e + k)
  {
    DyadicDef(m * Pow2(k), e);
    DyadicDef(m, e + k);
    TwoAdd(e, k);
    TwoNat(k);
    RealProduct(m, Pow2(k));
    RealAssoc(m as real, Pow2(k) as real, Two(e));
  }

  lemma Units(n: nat)
    ensures Dyadic(n, 0) == n as real
  {
    DyadicDef(n, 0);
    TwoZero();
  }

  lemma DyadicTwice(m: int, e: int)
    ensures Dyadic(2 * m, e) == Dyadic(m, e + 1)
  {
    DyadicShift(m, e, 1);
    Pow2Step(0);
  }

  lemma DyadicMul(a: int, e: int, b: int, g: int)
    ensures Dyadic(a, e) * Dyadic(b, g) == Dyadic(a * b, e + g)
  {
    DyadicDef(a, e);
    DyadicDef(b, g);
    DyadicDef(a * b, e + g);
    TwoAdd(e, g);
    RealProduct(a, b);
    RealShuffle(a as real, Two(e), b as real, Two(g));
  }

  lemma DyadicTimes(n: int, m: int, e: int)
    ensures n as real * Dyadic(m, e) == Dyadic(n * m, e)
  {
    DyadicDef(m, e);
    DyadicDef(n * m, e);
    RealProduct(n, m);
    RealAssoc(n as real, m as real, Two(e));
  }

  lemma RealShuffle(a: real, s: real, b: real, t: real)
    ensures (a * s) * (b * t) == (a * b) * (s * t)
  {
  }

  lemma RealProduct(a: int, b: int)
    ensures (a * b) as real == a as real * b as real
  {
  }

  /** Order is kept by a positive factor. */
  lemma RealMono(a: real, b: real, t: real)
    requires t > 0.0
    ensures a < b ==> a * t < b * t
    ensures a <= b ==> a * t <= b * t
  {
  }
}
