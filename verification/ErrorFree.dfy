/** The error-free transforms of src/sleef/sleef_common.h over the rounded operations: what rounding loses is itself
    a floating-point number, and these sequences compute it. */
module ErrorFree {
  import opened Powers
  import opened Rounding
  import opened Words
  import opened Binary64
  import opened Fenv
  import opened Rne64
  import opened Rem64
  import opened Meaning64

  // ----- representable numbers and their roundings -----

  /** `v` is a number of the format, its exponent unbounded above. */
  ghost predicate Rep(v: real) {
    exists c: nat :: IsCode(v, c)
  }

  ghost predicate IsCode(v: real, c: nat) {
    Abs(v) == Decode(F64, c)
  }

  /** Rounding to nearest even, exponent unbounded above. */
  ghost function Near(v: real): real {
    if v < 0.0 then -Decode(F64, RoundCode(F64, RNE, true, Num(-v)))
    else Decode(F64, RoundCode(F64, RNE, false, Num(v)))
  }

  /** The code of a rounding does not depend on the sign. */
  lemma NearCode(v: real) returns (c: nat)
    ensures c == RoundCode(F64, RNE, false, Num(Abs(v))) == RoundCode(F64, RNE, true, Num(Abs(v)))
    ensures IsCode(Near(v), c) && (v >= 0.0 ==> Near(v) >= 0.0) && (v <= 0.0 ==> Near(v) <= 0.0)
  {
    c := RoundCode(F64, RNE, false, Num(Abs(v)));
    RoundsUnique(F64, RNE, true, Num(Abs(v)), c, RoundCode(F64, RNE, true, Num(Abs(v))));
    DecodeNonNegative(F64, c);
    if v == 0.0 {
      DecodeZero(F64);
      RoundExact(F64, RNE, false, Num(0.0), 0);
    }
  }

  lemma NearRep(v: real)
    ensures Rep(Near(v)) && Near(-v) == -Near(v)
  {
    var c := NearCode(v);
    var d := NearCode(-v);
  }

  /** A representable number is its own rounding. */
  lemma NearExact(v: real)
    requires Rep(v)
    ensures Near(v) == v
  {
    var c: nat :| IsCode(v, c);
    var d := NearCode(v);
    RoundExact(F64, RNE, false, Num(Abs(v)), c);
  }

  /** No representable number is nearer. */
  lemma NearNearest(v: real, w: real)
    requires Rep(w)
    ensures Abs(v - Near(v)) <= Abs(v - w)
  {
    var c := NearCode(v);
    var d: nat :| IsCode(w, d);
    RoundNearest(F64, RNE, false, Abs(v), d);
    DecodeNonNegative(F64, d);
  }

  /** Rounding keeps order with representable numbers. */
  lemma NearBetween(v: real, lo: real, hi: real)
    requires Rep(lo) && Rep(hi) && 0.0 <= lo <= v <= hi
    ensures lo <= Near(v) <= hi
  {
    var c := NearCode(v);
    var l: nat :| IsCode(lo, l);
    var h: nat :| IsCode(hi, h);
    RoundAtLeast(F64, RNE, false, Num(v), l);
    RoundAtMost(F64, RNE, false, Num(v), h);
    CodeOrder(c, l);
    CodeOrder(h, c);
  }

  lemma RepZero()
    ensures Rep(0.0)
  {
    DecodeZero(F64);
    assert IsCode(0.0, 0);
  }

  lemma RepNeg(v: real)
    requires Rep(v)
    ensures Rep(-v)
  {
    var c: nat :| IsCode(v, c);
    assert IsCode(-v, c);
  }

  /** The significand and quantum of a representable number. */
  lemma RepSplit(v: real) returns (n: nat, q: nat)
    requires Rep(v)
    ensures Abs(v) == Dyadic(n, F64.e0 + q) && n < 2 * IMPLICIT && (q == 0 || IMPLICIT <= n)
  {
    FormatConstants();
    var c: nat :| IsCode(v, c);
    var r;
    r, n, q := DecodeExists(F64, c);
  }

  lemma RepDyadic(v: real, n: nat, q: nat)
    requires Abs(v) == Dyadic(n, F64.e0 + q) && n < 2 * IMPLICIT
    ensures Rep(v)
  {
    FormatConstants();
    var c := ExactCode(F64, n, F64.e0 + q);
    assert IsCode(v, c);
  }

  lemma RepTwice(v: real)
    requires Rep(v)
    ensures Rep(2.0 * v)
  {
    var n, q := RepSplit(v);
    DyadicTwice(n, F64.e0 + q);
    DyadicAdd(n, n, F64.e0 + q);
    RepDyadic(2.0 * v, n, q + 1);
  }

  // ----- grids -----

  /** `v` is a multiple of 2^(e0 + q). */
  ghost predicate Grid(v: real, q: nat) {
    exists k: int :: OnGrid(v, k, q)
  }

  ghost predicate OnGrid(v: real, k: int, q: nat) {
    v == Dyadic(k, F64.e0 + q)
  }

  lemma GridSum(v: real, w: real, q: nat)
    requires Grid(v, q) && Grid(w, q)
    ensures Grid(v + w, q) && Grid(v - w, q)
  {
    var k: int :| OnGrid(v, k, q);
    var m: int :| OnGrid(w, m, q);
    DyadicAdd(k, m, F64.e0 + q);
    assert OnGrid(v + w, k + m, q) && OnGrid(v - w, k - m, q);
  }

  lemma GridNeg(v: real, q: nat)
    requires Grid(v, q)
    ensures Grid(-v, q)
  {
    var k: int :| OnGrid(v, k, q);
    DyadicAdd(0, k, F64.e0 + q);
    DyadicZero(F64.e0 + q);
    assert OnGrid(-v, -k, q);
  }

  /** A representable number lies on every grid up to its own quantum. */
  lemma RepGrid(v: real, n: nat, q: nat, p: nat)
    requires Abs(v) == Dyadic(n, F64.e0 + q) && p <= q
    ensures Grid(v, p)
  {
    DyadicShift(n, F64.e0 + p, q - p);
    assert OnGrid(Abs(v), n * Pow2(q - p), p);
    GridNeg(Abs(v), p);
  }

  /** A grid point that is short enough is representable. */
  lemma GridRep(v: real, q: nat, n: nat)
    requires Grid(v, q) && Abs(v) <= Dyadic(n, F64.e0 + q) && n < 2 * IMPLICIT
    ensures Rep(v)
  {
    GridNeg(v, q);
    var k: int :| OnGrid(Abs(v), k, q);
    if k < 0 {
      DyadicMono(k, 0, F64.e0 + q);
      DyadicZero(F64.e0 + q);
    }
    if n < k {
      DyadicMono(n, k, F64.e0 + q);
    }
    RepDyadic(v, k, q);
  }

  /** Rounding stays on the grid. */
  lemma NearGrid(v: real, q: nat)
    requires Grid(v, q)
    ensures Grid(Near(v), q)
  {
    FormatConstants();
    GridNeg(v, q);
    var k: int :| OnGrid(Abs(v), k, q);
    if k < 0 {
      DyadicMono(k, 0, F64.e0 + q);
      DyadicZero(F64.e0 + q);
    }
    if k < 2 * IMPLICIT {
      RepDyadic(v, k, q);
      NearExact(v);
    } else {
      var c := NearCode(v);
      LongOnGrid(Abs(v), k, q, c);
      GridNeg(Abs(Near(v)), q);
    }
  }

  lemma LongOnGrid(v: real, k: nat, q: nat, c: nat)
    requires v == Dyadic(k, F64.e0 + q) && k >= 2 * IMPLICIT && v >= 0.0 && c == RoundCode(F64, RNE, false, Num(v))
    ensures Grid(Decode(F64, c), q)
  {
    FormatConstants();
    var e := F64.e0 + q;
    var low := IMPLICIT + (q + 1) * IMPLICIT;
    DecodeGrid(F64, IMPLICIT, q + 1, low);
    DyadicTwice(IMPLICIT, e);
    if 2 * IMPLICIT < k {
      DyadicMono(2 * IMPLICIT, k, e);
    }
    RoundAtLeast(F64, RNE, false, Num(v), low);
    var r, n, p := DecodeExists(F64, c);
    assert Splits(F64, low, IMPLICIT, q + 1);
    QuantumOrder(F64, c, n, p, low, IMPLICIT, q + 1);
    DecodeNonNegative(F64, c);
    RepGrid(Decode(F64, c), n, p, q);
  }

  /** The difference of two representable numbers within a factor of two is representable. */
  lemma RepSterbenz(v: real, w: real)
    requires Rep(v) && Rep(w) && 0.0 <= w <= v <= 2.0 * w
    ensures Rep(v - w) && Rep(w - v)
  {
    var c: nat :| IsCode(v, c);
    var d: nat :| IsCode(w, d);
    var e := Sterbenz(F64, c, d);
    assert IsCode(v - w, e);
    RepNeg(v - w);
  }

  // ----- the two facts behind every transform -----

  /** What an addition loses is representable. */
  lemma ErrorRep(a: real, b: real)
    requires Rep(a) && Rep(b)
    ensures Rep(a + b - Near(a + b))
  {
    var na, qa := RepSplit(a);
    var nb, qb := RepSplit(b);
    if qb <= qa {
      ErrorOnGrid(a, b, na, qa, nb, qb);
    } else {
      assert b + a == a + b;
      ErrorOnGrid(b, a, nb, qb, na, qa);
    }
  }

  lemma ErrorOnGrid(a: real, b: real, na: nat, qa: nat, nb: nat, qb: nat)
    requires Rep(a) && Abs(a) == Dyadic(na, F64.e0 + qa) && Abs(b) == Dyadic(nb, F64.e0 + qb)
    requires qb <= qa && nb < 2 * IMPLICIT
    ensures Rep(a + b - Near(a + b))
  {
    RepGrid(a, na, qa, qb);
    RepGrid(b, nb, qb, qb);
    GridSum(a, b, qb);
    NearGrid(a + b, qb);
    GridSum(a + b, Near(a + b), qb);
    NearNearest(a + b, a);
    GridRep(a + b - Near(a + b), qb, nb);
  }

  /** The larger operand subtracts exactly from the rounded sum. */
  lemma TopExact(a: real, b: real)
    requires Rep(a) && Rep(b) && Abs(b) <= Abs(a)
    ensures Rep(Near(a + b) - a) && Rep(a - Near(a + b))
  {
    if a >= 0.0 {
      TopExactPositive(a, b);
    } else {
      RepNeg(a);
      RepNeg(b);
      NearRep(a + b);
      assert -a + -b == -(a + b);
      TopExactPositive(-a, -b);
    }
    RepNeg(Near(a + b) - a);
  }

  lemma TopExactPositive(a: real, b: real)
    requires Rep(a) && Rep(b) && Abs(b) <= a
    ensures Rep(Near(a + b) - a) && Rep(a - Near(a + b))
  {
    NearRep(a + b);
    RepNeg(b);
    if b >= 0.0 {
      RepTwice(a);
      NearBetween(a + b, a, 2.0 * a);
      RepSterbenz(Near(a + b), a);
    } else if -2.0 * b >= a {
      RepSterbenz(a, -b);
      NearExact(a + b);
    } else {
      TopExactSmall(a, b);
    }
  }

  lemma TopExactSmall(a: real, b: real)
    requires Rep(a) && Rep(b) && b < 0.0 && -2.0 * b < a
    ensures Rep(Near(a + b) - a) && Rep(a - Near(a + b))
  {
    var n, q := RepSplit(a);
    NearRep(a + b);
    RepNeg(b);
    if q == 0 {
      var nb, qb := RepSplit(b);
      RepGrid(a, n, 0, 0);
      RepGrid(b, nb, qb, 0);
      GridSum(a, b, 0);
      GridRep(a + b, 0, n);
      NearExact(a + b);
    } else {
      HalfRep(a, n, q);
      NearBetween(a + b, a / 2.0, a);
      RepSterbenz(a, Near(a + b));
    }
  }

  lemma HalfRep(a: real, n: nat, q: nat)
    requires Abs(a) == Dyadic(n, F64.e0 + q) && n < 2 * IMPLICIT && q >= 1
    ensures Rep(a / 2.0)
  {
    DyadicTwice(n, F64.e0 + q - 1);
    DyadicAdd(n, n, F64.e0 + q - 1);
    RepDyadic(a / 2.0, n, q - 1);
  }

  // ----- the sum of two numbers and its error -----

  /** FastTwoSum: with the larger operand first, three operations. */
  lemma FastTwoSumExact(a: real, b: real)
    requires Rep(a) && Rep(b) && Abs(b) <= Abs(a)
    ensures var s := Near(a + b); var v := Near(s - a);
            s + Near(b - v) == a + b
  {
    TopExact(a, b);
    NearExact(Near(a + b) - a);
    ErrorRep(a, b);
    NearExact(a + b - Near(a + b));
  }

  /** The steps of TwoSum: the rounded sum, the part of it that came from b, the part that came from a,
      and what each operand lost. */
  ghost function TwoSumError(a: real, b: real): real {
    var s := Near(a + b);
    var bb := Near(s - a);
    var aa := Near(s - bb);
    Near(Near(a - aa) + Near(b - bb))
  }

  /** TwoSum: no condition on the operands' order. */
  lemma TwoSumExact(a: real, b: real)
    requires Rep(a) && Rep(b)
    ensures Near(a + b) + TwoSumError(a, b) == a + b
  {
    var s := Near(a + b);
    var bb := Near(s - a);
    NearRep(a + b);
    ErrorRep(a, b);
    if Abs(b) <= Abs(a) {
      TopExact(a, b);
    }
    if Rep(s - a) {
      NearExact(s - a);
      NearExact(a);
      RepZero();
      NearExact(0.0);
      NearExact(a + b - s);
    } else {
      Recover(a, b);
      NearExact(s - bb);
      NearExact(a - (s - bb));
      NearExact(b - bb);
      NearExact(a + b - s);
    }
  }

  /** Otherwise b dominates, and each difference is exact although the first is not. */
  lemma Recover(a: real, b: real)
    requires Rep(a) && Rep(b) && Abs(a) < Abs(b) && !Rep(Near(a + b) - a)
    ensures var s := Near(a + b); var bb := Near(s - a);
            Rep(s - bb) && Rep(a - (s - bb)) && Rep(b - bb)
  {
    var s := Near(a + b);
    var bb := Near(s - a);
    NearRep(a + b);
    RepNeg(a);
    if b >= 0.0 {
      RecoverPositive(a, b);
    } else {
      RepNeg(b);
      assert -a + -b == -(a + b) && -s - -a == -(s - a);
      NearRep(s - a);
      if Rep(-s - -a) {
        RepNeg(-s - -a);
      }
      RecoverPositive(-a, -b);
      RepNeg(-b - -bb);
    }
    assert s + -a == s - a;
    TopExact(s, -a);
    ErrorRep(s, -a);
    RepNeg(s - a - bb);
    assert -(s - a - bb) == a - (s - bb);
  }

  lemma RecoverPositive(a: real, b: real)
    requires Rep(a) && Rep(b) && Abs(a) < b && !Rep(Near(a + b) - a)
    ensures Abs(a) <= Abs(Near(a + b)) && Rep(b - Near(Near(a + b) - a))
  {
    var s := Near(a + b);
    NearNearest(a + b, b);
    if a >= 0.0 {
      RepTwice(b);
      NearBetween(a + b, b, 2.0 * b);
      NearNearest(a + b, 2.0 * b);
    } else {
      RepNeg(a);
      if -2.0 * a >= b {
        CloseSum(a, b);
        assert false;
      }
      NearBetween(a + b, -a, b);
    }
    PartOfB(a, b, s);
  }

  /** Operands of opposite signs within a factor of two of each other add exactly. */
  lemma CloseSum(a: real, b: real)
    requires Rep(-a) && Rep(b) && 0.0 <= -a <= b <= -2.0 * a
    ensures Rep(Near(a + b) - a)
  {
    RepSterbenz(b, -a);
    assert b - -a == a + b;
    NearExact(a + b);
    assert Near(a + b) - a == b;
  }

  /** The part of the sum that came from b is within a factor of two of b. */
  lemma PartOfB(a: real, b: real, s: real)
    requires Rep(a) && Rep(b) && Abs(a) < b && s == Near(a + b) && 2.0 * Abs(a + b - s) <= b
    ensures Rep(b - Near(s - a))
  {
    var y, bb := s - a, Near(s - a);
    var n, q := RepSplit(b);
    if q == 0 {
      var na, qa := RepSplit(a);
      RepGrid(a, na, qa, 0);
      RepGrid(b, n, 0, 0);
      GridSum(a, b, 0);
      NearGrid(a + b, 0);
      GridSum(s, a, 0);
      NearGrid(y, 0);
      GridSum(b, bb, 0);
      NearNearest(y, b);
      GridRep(b - bb, 0, n);
    } else {
      HalfRep(b, n, q);
      RepTwice(b);
      NearBetween(y, b / 2.0, 2.0 * b);
      NearRep(y);
      if bb >= b {
        RepSterbenz(bb, b);
      } else {
        RepSterbenz(b, bb);
      }
    }
  }

  // ----- the product of two numbers and its error -----

  /** An exact product of two 53-bit significands loses at most 53 bits. */
  lemma ProductError(v: real, p: nat, q: nat)
    requires Abs(v) == Dyadic(p, F64.e0 + q) && p < 4 * (IMPLICIT * IMPLICIT)
    ensures Rep(v - Near(v))
  {
    var e := F64.e0 + q;
    var h, l := p / (2 * IMPLICIT), p % (2 * IMPLICIT);
    var w := Truncated(v, p, q, h, l);
    NearNearest(v, w);
    RepGrid(v, p, q, q);
    NearGrid(v, q);
    GridSum(v, Near(v), q);
    GridRep(v - Near(v), q, l);
  }

  /** The product cut off after 53 bits. */
  lemma Truncated(v: real, p: nat, q: nat, h: nat, l: nat) returns (w: real)
    requires Abs(v) == Dyadic(p, F64.e0 + q) && p == h * (2 * IMPLICIT) + l && h < 2 * IMPLICIT
    ensures Rep(w) && Abs(v - w) == Dyadic(l, F64.e0 + q)
  {
    var e := F64.e0 + q;
    Pow2Table();
    DyadicShift(h, e, 53);
    DyadicAdd(h * (2 * IMPLICIT), l, e);
    DyadicPositive(h, e + 53);
    DyadicPositive(l, e);
    RepDyadic(Dyadic(h, e + 53), h, q + 53);
    w := Dyadic(h, e + 53);
    if v < 0.0 {
      RepNeg(w);
      w := -w;
    }
  }

  /** The exact product as a significand and a quantum, if it is a multiple of the smallest subnormal. */
  lemma ProductSplit(a: real, b: real) returns (p: nat, q: nat)
    requires Rep(a) && Rep(b) && Grid(a * b, 0)
    ensures Abs(a * b) == Dyadic(p, F64.e0 + q) && p < 4 * (IMPLICIT * IMPLICIT)
  {
    var na, qa := RepSplit(a);
    var nb, qb := RepSplit(b);
    var e := (F64.e0 + qa) + (F64.e0 + qb);
    DyadicMul(na, F64.e0 + qa, nb, F64.e0 + qb);
    AbsTimes(a, b);
    SmallProduct(na, nb);
    p := na * nb;
    if e >= F64.e0 {
      q := e - F64.e0;
    } else {
      q := 0;
      p := ShorterMultiple(Abs(a * b), na * nb, e, a * b);
    }
  }

  lemma AbsTimes(a: real, b: real)
    ensures Abs(a * b) == Abs(a) * Abs(b)
  {
  }

  lemma SmallProduct(x: nat, y: nat)
    requires x < 2 * IMPLICIT && y < 2 * IMPLICIT
    ensures 0 <= x * y < 4 * (IMPLICIT * IMPLICIT)
  {
    MulMono(0, x, y);
    MulMono(x, 2 * IMPLICIT - 1, y);
    MulMono(y, 2 * IMPLICIT - 1, 2 * IMPLICIT);
  }

  lemma ShorterMultiple(v: real, m: nat, e: int, w: real) returns (k: nat)
    requires v == Dyadic(m, e) == Abs(w) && e < F64.e0 && Grid(w, 0)
    ensures v == Dyadic(k, F64.e0) && k <= m
  {
    GridNeg(w, 0);
    var j: int :| OnGrid(Abs(w), j, 0);
    DyadicZero(F64.e0);
    if j < 0 {
      DyadicMono(j, 0, F64.e0);
    }
    k := j;
    DyadicShift(k, e, F64.e0 - e);
    MulMono(1, Pow2(F64.e0 - e), k);
    if m < k * Pow2(F64.e0 - e) {
      DyadicMono(m, k * Pow2(F64.e0 - e), e);
    }
  }

  /** The fused product recovers the error exactly when the exact product is a multiple of the smallest subnormal. */
  lemma ProductExact(a: real, b: real)
    requires Rep(a) && Rep(b)
    ensures Near(a * b) + Near(a * b - Near(a * b)) == a * b <==> Grid(a * b, 0)
  {
    var v := a * b;
    if Grid(v, 0) {
      var p, q := ProductSplit(a, b);
      ProductError(v, p, q);
      NearExact(v - Near(v));
    }
    NearRep(v);
    NearRep(v - Near(v));
    var n, q := RepSplit(Near(v));
    var m, r := RepSplit(Near(v - Near(v)));
    RepGrid(Near(v), n, q, 0);
    RepGrid(Near(v - Near(v)), m, r, 0);
    GridSum(Near(v), Near(v - Near(v)), 0);
  }

  // ----- overflow -----

  /** What rounds to nearest even beyond the largest finite number. */
  ghost predicate Overflows(v: real) {
    Abs(v) >= Two(1024) - Two(970)
  }

  lemma TopPowers()
    ensures Two(1024) >= 8.0 * Two(971) && Two(971) == 2.0 * Two(970)
  {
    TwoStep(970);
    TwoStep(971);
    TwoStep(972);
    TwoStep(973);
    DyadicUnits(974, 50);
    DyadicDef(1, 974);
    DyadicDef(1, 1024);
  }

  /** Neighbouring finite numbers are at most 2^971 apart. */
  lemma GapBound(c: nat)
    requires c < F64.InfCode()
    ensures Decode(F64, c + 1) - Decode(F64, c) <= Two(971)
  {
    FormatConstants();
    var r, n, q := DecodeExists(F64, c);
    DecodeGap(F64, c, n, q);
    DyadicUnits(F64.e0 + q, 2045 - q);
    DyadicDef(1, 971);
  }

  /** Without overflow rounding loses at most 2^970. */
  lemma NearError(v: real)
    requires !Overflows(v)
    ensures Abs(v - Near(v)) <= Two(970)
  {
    TopPowers();
    var c := NearCode(v);
    OverflowThreshold(RNE, Abs(v), false);
    FlagsMeaning(RNE, Abs(v), false);
    assert Abs(Abs(v)) == Abs(v);
    GapBound(c);
    MidRange(F64, c);
    DecodeZero(F64);
    if c > 0 {
      GapBound(c - 1);
      MidRange(F64, c - 1);
    }
  }

  lemma FiniteMagnitude(b: u64)
    requires IsFinite(b)
    ensures Abs(Value(b)) <= Two(1024) - Two(971)
  {
    FormatConstants();
    var max := 0x7FEF_FFFF_FFFF_FFFF;
    DecodeNonNegative(F64, Code(b));
    if Code(b) < max {
      DecodeMono(F64, Code(b), max);
    }
    LargestFinite();
  }

  lemma LargestFinite()
    ensures Decode(F64, 0x7FEF_FFFF_FFFF_FFFF) == Two(1024) - Two(971)
  {
    FormatConstants();
    DecodeGrid(F64, 2 * IMPLICIT - 1, 2045, 0x7FEF_FFFF_FFFF_FFFF);
    DyadicAdd(2 * IMPLICIT, 1, 971);
    Pow2Table();
    DyadicShift(1, 971, 53);
    DyadicDef(1, 1024);
    DyadicDef(1, 971);
  }

  /** FastTwoSum overflows in its first step or not at all. */
  lemma FastTwoSumRange(a: real, b: real)
    requires Rep(a) && Rep(b) && Abs(b) <= Abs(a) <= Two(1024) - Two(971) && !Overflows(a + b)
    ensures var s := Near(a + b); var v := Near(s - a);
            !Overflows(s - a) && !Overflows(b - v)
  {
    TopPowers();
    NearError(a + b);
    TopExact(a, b);
    NearExact(Near(a + b) - a);
    if Abs(b) == Two(1024) - Two(971) {
      assert a + b == 0.0;
      RepZero();
      NearExact(0.0);
    }
  }

  /** TwoSum overflows in its first two steps or not at all. */
  lemma TwoSumRange(a: real, b: real, s: real, bb: real, aa: real)
    requires Rep(a) && Rep(b) && Abs(a) <= Two(1024) - Two(971) && Abs(b) <= Two(1024) - Two(971)
    requires !Overflows(a + b) && s == Near(a + b) && bb == Near(s - a) && aa == Near(s - bb)
    ensures !Overflows(s - bb) && !Overflows(a - aa) && !Overflows(b - bb) && !Overflows(Near(a - aa) + Near(b - bb))
  {
    NearRep(a + b);
    NearError(a + b);
    if Rep(s - a) {
      NearExact(s - a);
      WholeRange(a, b, s);
    } else {
      SplitRange(a, b, s, bb);
    }
  }

  lemma TailSteps(a: real, b: real, s: real, bb: real, aa: real)
    requires Rep(a) && Rep(b) && Abs(a) <= Two(1024) - Two(971) && Abs(b) <= Two(1024) - Two(971)
    requires !Overflows(a + b) && s == Near(a + b) && bb == Near(s - a) && aa == Near(s - bb)
    ensures !Overflows(s - bb) && !Overflows(a - aa) && !Overflows(b - bb) && !Overflows(Near(a - aa) + Near(b - bb))
    ensures s + Near(Near(a - aa) + Near(b - bb)) == a + b
  {
    TwoSumExact(a, b);
    TwoSumRange(a, b, s, bb, aa);
  }

  lemma WholeRange(a: real, b: real, s: real)
    requires Rep(a) && Rep(b) && Abs(a) <= Two(1024) - Two(971) && s == Near(a + b) && Abs(a + b - s) <= Two(970)
    ensures Near(a) == a && Near(0.0) == 0.0 && Near(b - (s - a)) == b - (s - a) == a + b - s
    ensures !Overflows(a) && !Overflows(0.0) && !Overflows(a + b - s)
  {
    TopPowers();
    ErrorRep(a, b);
    assert b - (s - a) == a + b - s;
    NearExact(a + b - s);
    NearExact(a);
    RepZero();
    NearExact(0.0);
  }

  lemma SplitRange(a: real, b: real, s: real, bb: real)
    requires Rep(a) && Rep(b) && Abs(b) <= Two(1024) - Two(971)
    requires s == Near(a + b) && bb == Near(s - a) && Abs(a + b - s) <= Two(970) && !Rep(s - a)
    ensures Near(s - bb) == s - bb && Near(a - (s - bb)) == a - (s - bb) && Near(b - bb) == b - bb
    ensures !Overflows(s - bb) && !Overflows(a - (s - bb)) && !Overflows(b - bb)
    ensures a - (s - bb) + (b - bb) == a + b - s && !Overflows(a + b - s)
  {
    if Abs(b) <= Abs(a) {
      TopExact(a, b);
    }
    NearNearest(s - a, b);
    Recover(a, b);
    NearExact(s - bb);
    NearExact(a - (s - bb));
    NearExact(b - bb);
    TopPowers();
    SplitBounds(a, b, s, bb, Two(970), Two(1024));
  }

  lemma SplitBounds(a: real, b: real, s: real, bb: real, u: real, w: real)
    requires w >= 16.0 * u > 0.0 && Abs(a) < Abs(b) <= w - 2.0 * u
    requires Abs(a + b - s) <= u && Abs(s - a - bb) <= Abs(s - a - b)
    ensures Abs(s - bb) < w - u && Abs(a - (s - bb)) < w - u && Abs(b - bb) < w - u && Abs(a + b - s) < w - u
  {
    assert Abs(s - a - b) == Abs(a + b - s);
    assert Abs(b - bb) <= 2.0 * u && Abs(a - (s - bb)) <= u;
  }

  /** When the second step of TwoSum overflows although the sum does not: the second operand has the largest finite
      magnitude, and the first one, of the opposite sign, is below 2^1023 and 3, 7, 11, ... times 2^970. */
  ghost predicate Spurious(a: real, b: real) {
    exists i: nat :: SpuriousAt(i, a, b)
  }

  ghost predicate SpuriousAt(i: nat, a: real, b: real) {
    && 4 * i + 3 < 2 * IMPLICIT - 1
    && ((b == Two(1024) - Two(971) && a == -Dyadic(4 * i + 3, 970))
        || (-b == Two(1024) - Two(971) && -a == -Dyadic(4 * i + 3, 970)))
  }

  /** Exactly then, for all operands. */
  lemma SpuriousOverflow(a: real, b: real)
    requires Abs(a) <= Two(1024) - Two(971) && Abs(b) <= Two(1024) - Two(971) && !Overflows(a + b)
    ensures Overflows(Near(a + b) - a) <==> Spurious(a, b)
  {
    if Overflows(Near(a + b) - a) {
      TwoSumLargest(a, b);
      var i := SpuriousFound(a, b, Two(1024) - Two(971));
      assert SpuriousAt(i, a, b);
    }
    if Spurious(a, b) {
      var i: nat :| SpuriousAt(i, a, b);
      SpuriousMirror(a, b);
      if b == Two(1024) - Two(971) && a == -Dyadic(4 * i + 3, 970) {
        SpuriousStep(i, a, b);
      } else {
        SpuriousStep(i, -a, -b);
      }
    }
  }

  lemma SpuriousMirror(a: real, b: real)
    ensures Overflows(Near(-a + -b) - -a) <==> Overflows(Near(a + b) - a)
    ensures Overflows(-a + -b) <==> Overflows(a + b)
  {
    NearRep(a + b);
    assert -a + -b == -(a + b);
  }

  lemma SpuriousFound(a: real, b: real, max: real) returns (i: nat)
    requires max == Two(1024) - Two(971) && Abs(a) <= max && Abs(b) == max
    requires !Overflows(a + b) && Overflows(Near(a + b) - a)
    ensures 4 * i + 3 < 2 * IMPLICIT - 1
    ensures (b == max && a == -Dyadic(4 * i + 3, 970)) || (-b == max && -a == -Dyadic(4 * i + 3, 970))
  {
    if b == max {
      i := SpuriousOnly(a, b);
    } else {
      SpuriousMirror(a, b);
      i := SpuriousOnly(-a, -b);
    }
  }

  lemma TwoSumLargest(a: real, b: real)
    requires Abs(b) <= Two(1024) - Two(971) && !Overflows(a + b) && Overflows(Near(a + b) - a)
    ensures Abs(b) == Two(1024) - Two(971)
  {
    TopPowers();
    NearError(a + b);
  }

  /** The largest powers in units of 2^970. */
  lemma TopUnits()
    ensures Two(1024) == Dyadic(4 * IMPLICIT, 970) && Two(971) == Dyadic(2, 970) && Two(970) == Dyadic(1, 970)
  {
    Pow2Table();
    Pow2Step(53);
    DyadicShift(1, 970, 54);
    DyadicDef(1, 1024);
    DyadicTwice(1, 970);
    DyadicDef(1, 971);
    DyadicDef(1, 970);
  }

  /** Half way between two numbers at the top, the upper one even. */
  lemma TopTie(n: nat)
    requires IMPLICIT <= n < 2 * IMPLICIT && n % 2 == 1
    ensures Near(Dyadic(2 * n + 1, 970)) == Dyadic(2 * n + 2, 970)
  {
    var v, c := Dyadic(2 * n + 1, 970), n + 2045 * IMPLICIT;
    FormatConstants();
    DyadicPositive(2 * n + 1, 970);
    GridPoints(F64, n, 2045, c);
    Decision(F64, RNE, false, Num(v), c, true, false);
    RoundsUnique(F64, RNE, false, Num(v), c + 1, RoundCode(F64, RNE, false, Num(v)));
  }

  lemma SpuriousStep(i: nat, a: real, b: real)
    requires 4 * i + 3 < 2 * IMPLICIT - 1 && b == Two(1024) - Two(971) && a == -Dyadic(4 * i + 3, 970)
    ensures Overflows(Near(a + b) - a)
  {
    var n: nat := 2 * IMPLICIT - 2 * i - 3;
    TopUnits();
    DyadicAdd(4 * IMPLICIT, 2, 970);
    DyadicAdd(4 * IMPLICIT - 2, 4 * i + 3, 970);
    TopTie(n);
    DyadicAdd(2 * n + 2, 4 * i + 3, 970);
    DyadicAdd(4 * IMPLICIT, 1, 970);
  }

  lemma SpuriousOnly(a: real, b: real) returns (i: nat)
    requires b == Two(1024) - Two(971) && Abs(a) <= b && !Overflows(a + b) && Overflows(Near(a + b) - a)
    ensures 4 * i + 3 < 2 * IMPLICIT - 1 && a == -Dyadic(4 * i + 3, 970)
  {
    TopPowers();
    NearError(a + b);
    var n := LostUnit(a + b, Near(a + b));
    if n == 2 * IMPLICIT - 1 {
      TopUnits();
      DyadicAdd(4 * IMPLICIT, 1, 970);
      assert false;
    }
    i := (4 * IMPLICIT - 2 * n - 6) / 4;
    FirstOperand(a, b, n, 4 * i + 3);
  }

  lemma FirstOperand(a: real, b: real, n: nat, k: nat)
    requires b == Two(1024) - Two(971) && a + b == Dyadic(2 * n + 1, 970) && k == 4 * IMPLICIT - 2 * n - 3
    ensures a == -Dyadic(k, 970)
  {
    TopUnits();
    DyadicAdd(4 * IMPLICIT, 2, 970);
    DyadicAdd(4 * IMPLICIT - 2, k, 970);
  }

  /** Only such a tie loses as much as 2^970. */
  lemma LostUnit(v: real, s: real) returns (n: nat)
    requires v >= 0.0 && !Overflows(v) && s == Near(v) == v + Two(970)
    ensures IMPLICIT <= n < 2 * IMPLICIT && n % 2 == 1 && v == Dyadic(2 * n + 1, 970)
  {
    var c := NearCode(v);
    OverflowThreshold(RNE, v, false);
    FlagsMeaning(RNE, v, false);
    LostTie(v, c);
    FormatConstants();
    var q;
    n, q := TopGap(c - 1);
    GridPoints(F64, n, 2045, c - 1);
  }

  lemma LostTie(v: real, c: nat)
    requires 0.0 <= v && Rounds(F64, RNE, false, Num(v), c) && c < F64.InfCode() && Decode(F64, c) == v + Two(970)
    ensures c > 0 && c % 2 == 0 && v == Mid(F64, c - 1) && Decode(F64, c) - Decode(F64, c - 1) == Two(971)
  {
    TopPowers();
    DecodeZero(F64);
    GapBound(c - 1);
  }

  lemma TopGap(c: nat) returns (n: nat, q: nat)
    requires c < F64.InfCode() && Decode(F64, c + 1) - Decode(F64, c) == Two(971)
    ensures q == 2045 && IMPLICIT <= n < 2 * IMPLICIT && c == n + q * IMPLICIT
  {
    FormatConstants();
    TopPowers();
    var r;
    r, n, q := DecodeExists(F64, c);
    DecodeGap(F64, c, n, q);
    if q < 2045 {
      DyadicUnits(F64.e0 + q, 2044 - q);
      DyadicDef(1, 970);
    }
  }

  /** So TwoSum overflows in its first step alone unless b has the largest finite magnitude. */
  lemma TwoSumSafe(a: real, b: real)
    requires !Overflows(a + b) && Abs(b) < Two(1024) - Two(971)
    ensures !Overflows(Near(a + b) - a) && !Spurious(a, b)
  {
    TopPowers();
    NearError(a + b);
  }

  /** The exception is real: -3 * 2^970 and the largest finite number. */
  lemma TwoSumSpurious()
    ensures var a, b := Value(0xFCA8_0000_0000_0000), Value(0x7FEF_FFFF_FFFF_FFFF);
            !Overflows(a + b) && SpuriousAt(0, a, b) && Overflows(Near(a + b) - a)
  {
    SpuriousOperands();
    FirstSpurious(Value(0xFCA8_0000_0000_0000), Value(0x7FEF_FFFF_FFFF_FFFF));
  }

  lemma SpuriousOperands()
    ensures Value(0xFCA8_0000_0000_0000) == -Dyadic(3, 970)
    ensures Value(0x7FEF_FFFF_FFFF_FFFF) == Two(1024) - Two(971)
  {
    FormatConstants();
    LargestFinite();
    DecodeGrid(F64, 0x18_0000_0000_0000, 1993, 0x7CA8_0000_0000_0000);
    Pow2Table();
    DyadicShift(3, 919, 51);
    Pow2Step(51);
  }

  lemma FirstSpurious(a: real, b: real)
    requires a == -Dyadic(3, 970) && b == Two(1024) - Two(971)
    ensures !Overflows(a + b) && SpuriousAt(0, a, b) && Overflows(Near(a + b) - a)
  {
    DyadicDef(3, 970);
    TopPowers();
    SpuriousStep(0, a, b);
  }

  // ----- the operations -----

  lemma ValueRep(b: u64)
    ensures Rep(Value(b))
  {
    DecodeNonNegative(F64, Code(b));
    assert IsCode(Value(b), Code(b));
  }

  /** A rounded real result is `Near`, or overflows. */
  lemma NearStep(v: real, zeroNeg: bool)
    ensures Overflow in RoundReal(RNE, v, zeroNeg).flags <==> Overflows(v)
    ensures !Overflows(v) ==>
              IsFinite(RoundReal(RNE, v, zeroNeg).bits) && Value(RoundReal(RNE, v, zeroNeg).bits) == Near(v)
  {
    OverflowThreshold(RNE, v, zeroNeg);
    FormatConstants();
    var c := NearCode(v);
    DecodeZero(F64);
    if v == 0.0 {
      FiniteCodes(SignedZero(zeroNeg));
    } else {
      RoundSignedIs(RNE, v < 0.0, Num(Abs(v)), c);
      FiniteCodes(RoundReal(RNE, v, zeroNeg).bits);
    }
  }

  /** `add_` and `sub_`. */
  method AddStep(a: u64, b: u64, fe: FeAcc) returns (r: u64)
    modifies fe
    ensures old(fe.bits) <= fe.bits
    ensures IsFinite(a) && IsFinite(b) ==>
              (Overflow in fe.bits <==> Overflow in old(fe.bits) || Overflows(Value(a) + Value(b)))
    ensures IsFinite(a) && IsFinite(b) && !Overflows(Value(a) + Value(b)) ==>
              IsFinite(r) && Value(r) == Near(Value(a) + Value(b))
  {
    r := AddRne(a, b, fe);
    if IsFinite(a) && IsFinite(b) {
      NearStep(Value(a) + Value(b), if Negative(a) == Negative(b) then Negative(a) else false);
    }
  }

  method SubStep(a: u64, b: u64, fe: FeAcc) returns (r: u64)
    modifies fe
    ensures old(fe.bits) <= fe.bits
    ensures IsFinite(a) && IsFinite(b) ==>
              (Overflow in fe.bits <==> Overflow in old(fe.bits) || Overflows(Value(a) - Value(b)))
    ensures IsFinite(a) && IsFinite(b) && !Overflows(Value(a) - Value(b)) ==>
              IsFinite(r) && Value(r) == Near(Value(a) - Value(b))
  {
    NegatedValue(b);
    r := AddStep(a, Negated(b), fe);
  }

  /** `ddadd_dd_d_d`, the first operand being the larger one: it overflows exactly when the sum does, and otherwise is
      exact, whatever flags were raised before. */
  method FastTwoSum(a: u64, b: u64, fe: FeAcc) returns (s: u64, e: u64)
    requires IsFinite(a) && IsFinite(b) && Abs(Value(b)) <= Abs(Value(a))
    modifies fe
    ensures Overflow in fe.bits <==> Overflow in old(fe.bits) || Overflows(Value(a) + Value(b))
    ensures !Overflows(Value(a) + Value(b)) ==>
              && IsFinite(s) && IsFinite(e) && Value(s) == Near(Value(a) + Value(b))
              && Value(s) + Value(e) == Value(a) + Value(b)
  {
    ValueRep(a);
    ValueRep(b);
    FiniteMagnitude(a);
    FastTwoSumExact(Value(a), Value(b));
    if !Overflows(Value(a) + Value(b)) {
      FastTwoSumRange(Value(a), Value(b));
    }
    s := AddStep(a, b, fe);
    var v := SubStep(s, a, fe);
    e := SubStep(b, v, fe);
  }

  /** `ddadd2_dd_d_d`: it overflows exactly when the sum does or the operands are `Spurious`, and otherwise is exact,
      whatever flags were raised before. */
  method TwoSum(a: u64, b: u64, fe: FeAcc) returns (s: u64, err: u64)
    requires IsFinite(a) && IsFinite(b)
    modifies fe
    ensures Overflow in fe.bits <==>
              Overflow in old(fe.bits) || Overflows(Value(a) + Value(b)) || Spurious(Value(a), Value(b))
    ensures !Overflows(Value(a) + Value(b)) && !Spurious(Value(a), Value(b)) ==>
              && IsFinite(s) && IsFinite(err) && Value(s) == Near(Value(a) + Value(b))
              && Value(s) + Value(err) == Value(a) + Value(b)
  {
    if !Overflows(Value(a) + Value(b)) {
      FiniteMagnitude(a);
      FiniteMagnitude(b);
      SpuriousOverflow(Value(a), Value(b));
    }
    s := AddStep(a, b, fe);
    var bb := SubStep(s, a, fe);
    ghost var fits := !Overflows(Value(a) + Value(b)) && !Spurious(Value(a), Value(b));
    err := TwoSumTail(a, b, s, bb, fe, fits);
  }

  /** The last four steps; `fits` if the first two have not overflowed. */
  method TwoSumTail(a: u64, b: u64, s: u64, bb: u64, fe: FeAcc, ghost fits: bool) returns (err: u64)
    requires IsFinite(a) && IsFinite(b)
    requires fits ==> !Overflows(Value(a) + Value(b)) && IsFinite(s) && Value(s) == Near(Value(a) + Value(b))
    requires fits ==> IsFinite(bb) && Value(bb) == Near(Value(s) - Value(a))
    modifies fe
    ensures old(fe.bits) <= fe.bits
    ensures fits ==> (Overflow in fe.bits <==> Overflow in old(fe.bits))
    ensures fits ==> IsFinite(err) && Value(s) + Value(err) == Value(a) + Value(b)
  {
    if fits {
      ValueRep(a);
      ValueRep(b);
      FiniteMagnitude(a);
      FiniteMagnitude(b);
      TailSteps(Value(a), Value(b), Value(s), Value(bb), Near(Value(s) - Value(bb)));
    }
    var aa := SubStep(s, bb, fe);
    var da := SubStep(a, aa, fe);
    var db := SubStep(b, bb, fe);
    err := AddStep(da, db, fe);
  }

  /** `ddmul_dd_d_d`: the fused remainder of a product. It overflows exactly when the product does; otherwise it is
      exact if and only if the exact product is a multiple of the smallest subnormal. */
  method TwoProduct(a: u64, b: u64, fe: FeAcc) returns (hi: u64, lo: u64)
    requires IsFinite(a) && IsFinite(b)
    modifies fe
    ensures Overflow in fe.bits <==> Overflow in old(fe.bits) || Overflows(Value(a) * Value(b))
    ensures !Overflows(Value(a) * Value(b)) ==>
              && IsFinite(hi) && IsFinite(lo) && Value(hi) == Near(Value(a) * Value(b))
              && (Value(hi) + Value(lo) == Value(a) * Value(b) <==> Grid(Value(a) * Value(b), 0))
  {
    ValueRep(a);
    ValueRep(b);
    ProductExact(Value(a), Value(b));
    RepZero();
    NearNearest(Value(a) * Value(b), 0.0);
    hi := MulStep(a, b, fe);
    lo := FmaStep(a, b, hi, fe);
  }

  /** `mul_`. */
  method MulStep(a: u64, b: u64, fe: FeAcc) returns (r: u64)
    requires IsFinite(a) && IsFinite(b)
    modifies fe
    ensures Overflow in fe.bits <==> Overflow in old(fe.bits) || Overflows(Value(a) * Value(b))
    ensures !Overflows(Value(a) * Value(b)) ==> IsFinite(r) && Value(r) == Near(Value(a) * Value(b))
  {
    r := MulRne(a, b, fe);
    NearStep(Value(a) * Value(b), Negative(a) != Negative(b));
  }

  /** `fma_` with the rounded product subtracted. */
  method FmaStep(a: u64, b: u64, hi: u64, fe: FeAcc) returns (r: u64)
    requires IsFinite(a) && IsFinite(b)
    modifies fe
    ensures old(fe.bits) <= fe.bits
    ensures IsFinite(hi) ==>
              (Overflow in fe.bits <==> Overflow in old(fe.bits) || Overflows(Value(a) * Value(b) - Value(hi)))
    ensures IsFinite(hi) && !Overflows(Value(a) * Value(b) - Value(hi)) ==>
              IsFinite(r) && Value(r) == Near(Value(a) * Value(b) - Value(hi))
  {
    NegatedValue(hi);
    var c := Negated(hi);
    r := FmaRne(a, b, c, fe);
    if IsFinite(hi) {
      var neg := Negative(a) != Negative(b);
      NearStep(Value(a) * Value(b) + Value(c), if neg == Negative(c) then neg else false);
    }
  }

  /** Below that the error is lost: the square of the smallest subnormal. */
  lemma LostProduct()
    ensures !Grid(Value(1) * Value(1), 0)
  {
    FormatConstants();
    DecodeGrid(F64, 1, 0, 1);
    DyadicMul(1, -1074, 1, -1074);
    DyadicPositive(1, -2148);
    DyadicShift(1, -2148, 1074);
    Pow2Mono(1, 1074);
    Pow2Table();
    DyadicMono(1, Pow2(1074), -2148);
    if Grid(Value(1) * Value(1), 0) {
      var k: int :| OnGrid(Value(1) * Value(1), k, 0);
      DyadicZero(-1074);
      if k <= 0 {
        if k < 0 {
          DyadicMono(k, 0, -1074);
        }
      } else if k > 1 {
        DyadicMono(1, k, -1074);
      }
      assert false;
    }
  }
}
