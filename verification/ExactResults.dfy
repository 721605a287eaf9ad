/** Products, quotients and square roots of dyadic numbers, located on a grid by integer arithmetic. */
module ExactResults {
  import opened Powers
  import opened Shifts
  import opened Rounding
  import opened Cells

  lemma ExactProduct(sa: nat, ea: int, sb: nat, eb: int, p: nat)
    requires p == sa * sb
    ensures Dyadic(sa, ea) * Dyadic(sb, eb) >= 0.0
    ensures SameCell(p, ea + eb, Num(Dyadic(sa, ea) * Dyadic(sb, eb)), 0)
  {
    DyadicMul(sa, ea, sb, eb);
    DyadicPositive(p, ea + eb);
    ExactCell(p, ea + eb, Num(Dyadic(p, ea + eb)), 0);
  }

  /** The integer quotient locates the exact one. */
  lemma RatioCell(sa: nat, sb: nat, e: int, eb: int, q: nat, rem: nat)
    requires 0 < sb && q * sb + rem == sa && rem < sb
    ensures Dyadic(sb, eb) > 0.0
    ensures Cell(q, rem == 0, e, Num(Dyadic(sa, e + eb) / Dyadic(sb, eb)))
  {
    var ma, mb := Dyadic(sa, e + eb), Dyadic(sb, eb);
    DyadicPositive(sb, eb);
    DyadicPositive(q, e);
    DyadicMul(q, e, sb, eb);
    DyadicMul(q + 1, e, sb, eb);
    Distribute(0, q, sb);
    RatioOrder(ma, mb, Dyadic(q, e));
    RatioOrder(ma, mb, Dyadic(q + 1, e));
    if rem != 0 {
      DyadicMono(q * sb, sa, e + eb);
    }
    DyadicMono(sa, (q + 1) * sb, e + eb);
  }

  lemma RatioOrder(a: real, b: real, t: real)
    requires b > 0.0
    ensures t < a / b <==> t * b < a
    ensures t == a / b <==> t * b == a
  {
    var v := a / b;
    assert v * b == a;
    RealMono(t, v, b);
    RealMono(v, t, b);
  }

  lemma PositiveRatio(a: real, b: real)
    requires a >= 0.0 && b > 0.0
    ensures a / b >= 0.0
  {
    RatioOrder(a, b, 0.0);
  }

  lemma SignOfProduct(a: real, b: real)
    requires a >= 0.0 && b >= 0.0
    ensures a * b >= 0.0 && (a * b == 0.0 <==> a == 0.0 || b == 0.0)
    ensures (-a) * b == -(a * b) && a * (-b) == -(a * b) && (-a) * (-b) == a * b
  {
    if a > 0.0 && b > 0.0 {
      RealMono(0.0, a, b);
    }
  }

  lemma SignOfRatio(a: real, b: real)
    requires a >= 0.0 && b > 0.0
    ensures a / b >= 0.0 && (a / b == 0.0 <==> a == 0.0)
    ensures (-a) / b == -(a / b) && a / (-b) == -(a / b) && (-a) / (-b) == a / b
  {
    RatioOrder(a, b, 0.0);
    RatioUnique(-a, b, -(a / b));
    RatioUnique(a, -b, -(a / b));
    RatioUnique(-a, -b, a / b);
  }

  ghost predicate Factor(a: real, t: real) {
    t == a
  }

  ghost predicate IsTimes(a: real, b: real, r: real) {
    forall t: real :: Factor(b, t) ==> r == a * t
  }

  /** The product of two real numbers, chosen by its property so that it stays a product only where a
      lemma asks for it. */
  ghost function Times(a: real, b: real): real {
    assert IsTimes(a, b, a * b);
    var r: real :| IsTimes(a, b, r);
    r
  }

  lemma TimesDef(a: real, b: real)
    ensures Times(a, b) == a * b
  {
    assert Factor(b, b);
  }

  lemma RatioUnique(a: real, b: real, t: real)
    requires b != 0.0 && t * b == a
    ensures a / b == t
  {
  }

  /** The integer root with its remainder as sticky bit is in the cell of the real root. */
  lemma RootCell(root: nat, rem: nat, r: nat, e: int)
    requires root * root + rem == r && rem <= 2 * root
    ensures Cell(root, rem == 0, e, Root(Dyadic(r, 2 * e)))
  {
    DyadicPositive(root, e);
    DyadicMul(root, e, root, e);
    DyadicMul(root + 1, e, root + 1, e);
    assert (root + 1) * (root + 1) == root * root + 2 * root + 1;
    DyadicMono(r, (root + 1) * (root + 1), 2 * e);
    if rem != 0 {
      DyadicMono(root * root, r, 2 * e);
    }
  }

  /** Two more bits of the radicand: the root doubles, and grows by one if the remainder allows. */
  lemma RootStep(root: nat, rem: nat, t: nat, pair: nat)
    requires root * root + rem == t && rem <= 2 * root && pair < 4
    ensures var rem4, test := 4 * rem + pair, 4 * root + 1;
            if rem4 >= test
            then (2 * root + 1) * (2 * root + 1) + (rem4 - test) == 4 * t + pair && rem4 - test <= 2 * (2 * root + 1)
            else (2 * root) * (2 * root) + rem4 == 4 * t + pair && rem4 <= 2 * (2 * root)
  {
    assert (2 * root) * (2 * root) == 4 * (root * root);
    assert (2 * root + 1) * (2 * root + 1) == 4 * (root * root) + 4 * root + 1;
  }

  /** What `i` steps have extracted: `t` is the part of the radicand consumed. */
  ghost predicate Extracted(t: nat, root: nat, rem: nat, i: nat) {
    root * root + rem == t && rem <= 2 * root && root < Pow2(i)
  }

  lemma NextDigit(t: nat, root: nat, rem: nat, i: nat, pair: nat)
    requires Extracted(t, root, rem, i) && pair < 4
    ensures if 4 * rem + pair >= 4 * root + 1
            then Extracted(4 * t + pair, 2 * root + 1, 4 * rem + pair - (4 * root + 1), i + 1)
            else Extracted(4 * t + pair, 2 * root, 4 * rem + pair, i + 1)
  {
    RootStep(root, rem, t, pair);
    Pow2Step(i);
  }

  /** Restoring division after `steps` places: `num` scaled by the steps taken is `2 qh` times the divisor plus
      the remainder, `qh` being the quotient bits found so far. */
  ghost predicate Partial(num: nat, den: nat, steps: nat, qh: nat, rem: nat) {
    Shl(num, steps) == 2 * qh * den + rem && rem < 2 * den
  }

  lemma QuotientBit(num: nat, den: nat, steps: nat, qh: nat, rem: nat)
    requires Partial(num, den, steps, qh, rem)
    ensures if rem >= den then Shl(num, steps) == (2 * qh + 1) * den + (rem - den) && rem - den < den
            else Shl(num, steps) == 2 * qh * den + rem && rem < den
  {
    Distribute(0, 2 * qh, den);
  }

  lemma NextBit(num: nat, den: nat, steps: nat, qh: nat, rem: nat)
    requires Shl(num, steps) == qh * den + rem && rem < den
    ensures Partial(num, den, steps + 1, qh, 2 * rem)
  {
    Assoc(2, qh, den);
  }
}
