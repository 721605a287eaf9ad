/** The remainder of section 5.3.1 of IEEE 754-2008 and the truncating remainder of C's `fmod`. */
module Remainders {
  import opened Powers
  import opened Rounding

  /** `r` is x - n * y for the integer n nearest x / y, the even one of two. */
  ghost predicate NearestRemainder(x: real, y: real, r: real) {
    exists n: int :: Multiple(x, y, r, n) && 2.0 * Abs(r) <= Abs(y) && (2.0 * Abs(r) == Abs(y) ==> n % 2 == 0)
  }

  ghost predicate Multiple(x: real, y: real, r: real, n: int) {
    r == x - n as real * y
  }

  /** `r` is x - n * y for the integer n that x / y truncates to: shorter than y, on the side of x. */
  ghost predicate TruncatedRemainder(x: real, y: real, r: real) {
    (exists n: int :: Multiple(x, y, r, n)) && Abs(r) < Abs(y) && (r == 0.0 || (r < 0.0 <==> x < 0.0))
        && Abs(r) <= Abs(x)
  }

  lemma Apart(x: real, y: real, r: real, s: real, n: int, m: int)
    requires Multiple(x, y, r, n) && Multiple(x, y, s, m)
    ensures r - s == (m - n) as real * y
    ensures m - n >= 2 || m - n <= -2 ==> Abs(r - s) >= 2.0 * Abs(y)
    ensures m - n == 1 || m - n == -1 ==> Abs(r - s) == Abs(y)
    ensures m == n ==> r == s
  {
    RealDistribute(m as real, n as real, y);
    var d := (m - n) as real;
    assert r - s == d * y;
    if d >= 2.0 || d <= -2.0 {
      TwiceOver(d, y);
    }
  }

  lemma TwiceOver(d: real, y: real)
    requires d >= 2.0 || d <= -2.0
    ensures Abs(d * y) >= 2.0 * Abs(y)
  {
    var z := Abs(y);
    if d >= 2.0 {
      RealScale(d - 2.0, z);
    } else {
      RealScale(-2.0 - d, z);
    }
  }

  lemma RealScale(a: real, t: real)
    requires t >= 0.0 && a >= 0.0
    ensures a * t >= 0.0
  {
  }

  /** The nearest remainder is determined by its operands. */
  lemma NearestUnique(x: real, y: real, r: real, s: real)
    requires y != 0.0 && NearestRemainder(x, y, r) && NearestRemainder(x, y, s)
    ensures r == s
  {
    var n: int :| Multiple(x, y, r, n) && 2.0 * Abs(r) <= Abs(y) && (2.0 * Abs(r) == Abs(y) ==> n % 2 == 0);
    var m: int :| Multiple(x, y, s, m) && 2.0 * Abs(s) <= Abs(y) && (2.0 * Abs(s) == Abs(y) ==> m % 2 == 0);
    Apart(x, y, r, s, n, m);
  }

  /** So is the truncated one. */
  lemma TruncatedUnique(x: real, y: real, r: real, s: real)
    requires y != 0.0 && TruncatedRemainder(x, y, r) && TruncatedRemainder(x, y, s)
    ensures r == s
  {
    var n: int :| Multiple(x, y, r, n);
    var m: int :| Multiple(x, y, s, m);
    Apart(x, y, r, s, n, m);
  }

  /** A remainder of magnitudes, under the signs of the operands. */
  lemma SignedNearest(xNeg: bool, mx: real, yNeg: bool, my: real, t: real, n: int)
    requires my >= 0.0 && t == mx - n as real * my
    requires 2.0 * Abs(t) <= my && (2.0 * Abs(t) == my ==> n % 2 == 0)
    ensures NearestRemainder(if xNeg then -mx else mx, if yNeg then -my else my, if xNeg then -t else t)
  {
    SignedMultiple(xNeg, mx, yNeg, my, t, n);
  }

  lemma SignedMultiple(xNeg: bool, mx: real, yNeg: bool, my: real, t: real, n: int)
    requires t == mx - n as real * my
    ensures Multiple(if xNeg then -mx else mx, if yNeg then -my else my,
                     if xNeg then -t else t, if xNeg == yNeg then n else -n)
  {
    var k := n as real;
    assert (-n) as real == -k;
    assert k * (-my) == -(k * my) && (-k) * my == -(k * my) && (-k) * (-my) == k * my;
  }

  lemma SignedTruncated(xNeg: bool, mx: real, yNeg: bool, my: real, t: real, n: int)
    requires my >= 0.0 && t == mx - n as real * my && 0.0 <= t < my && t <= mx
    ensures TruncatedRemainder(if xNeg then -mx else mx, if yNeg then -my else my, if xNeg then -t else t)
  {
    SignedMultiple(xNeg, mx, yNeg, my, t, n);
  }
}
