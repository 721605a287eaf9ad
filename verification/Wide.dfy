/** Two-limb 128-bit arithmetic of src/internal.h: the 64x64 product, the `U128` operators and
    Knuth's two-digit division. */
module Wide {
  import opened Powers
  import opened Shifts
  import opened Words

  /** Addition and subtraction of words wrap; the carry or borrow shows in the comparison the C++
      makes. */
  function WAdd(a: u64, b: u64): (r: u64)
    ensures r == if a + b < TWO64 then a + b else a + b - TWO64
    ensures r < a <==> a + b >= TWO64
    ensures r < b <==> a + b >= TWO64
  {
    (a + b) % TWO64
  }

  function WSub(a: u64, b: u64): (r: u64)
    ensures r == if a >= b then a - b else a - b + TWO64
  {
    (a - b) % TWO64
  }

  datatype U128 = U128(hi: u64, lo: u64)

  function Nat(x: U128): (n: nat)
    ensures n < TWO128
  {
    x.hi * TWO64 + x.lo
  }

  lemma LimbProduct(ah: nat, al: nat, bh: nat, bl: nat)
    requires ah < TWO32 && al < TWO32 && bh < TWO32 && bl < TWO32
    ensures (ah * TWO32 + al) * (bh * TWO32 + bl)
         == ah * bh * TWO64 + (ah * bl + al * bh) * TWO32 + al * bl
    ensures 0 <= ah * bh <= 0xFFFF_FFFE_0000_0001 && 0 <= ah * bl <= 0xFFFF_FFFE_0000_0001
    ensures 0 <= al * bh <= 0xFFFF_FFFE_0000_0001 && 0 <= al * bl <= 0xFFFF_FFFE_0000_0001
  {
    DigitProduct(ah, bh);
    DigitProduct(ah, bl);
    DigitProduct(al, bh);
    DigitProduct(al, bl);
    ProductExpand(ah, al, bh, bl, TWO32);
  }

  lemma DigitProduct(a: nat, b: nat)
    requires a < TWO32 && b < TWO32
    ensures 0 <= a * b <= 0xFFFF_FFFE_0000_0001
  {
    MulMono(a, TWO32 - 1, b);
  }

  lemma ProductExpand(ah: int, al: int, bh: int, bl: int, s: int)
    ensures (ah * s + al) * (bh * s + bl)
         == ah * bh * (s * s) + (ah * bl + al * bh) * s + al * bl
  {
    var b := bh * s + bl;
    assert (ah * s + al) * b == (ah * s) * b + al * b;
    assert (ah * s) * b == (ah * s) * (bh * s) + (ah * s) * bl;
    assert (ah * s) * (bh * s) == ah * bh * (s * s);
    assert al * b == al * (bh * s) + al * bl;
  }

  /** `mul64x64_to_128`: four 32-bit partial products with explicit carries, exact for all inputs. */
  method Mul64x64To128(a: u64, b: u64) returns (r: U128)
    ensures Nat(r) == a * b
  {
    var al, ah := a % TWO32, a / TWO32;
    var bl, bh := b % TWO32, b / TWO32;
    LimbProduct(ah, al, bh, bl);
    var ll: u64 := al * bl;
    var hl: u64 := ah * bl;
    var lh: u64 := al * bh;
    var hh: u64 := ah * bh;
    var mid := WAdd(hl, lh);
    var midCarry := if mid < hl then TWO32 else 0;
    MulBound(a, b);
    assert a * b == hh * TWO64 + (midCarry * TWO32 + mid) * TWO32 + ll;
    var midHi, midLow := mid / TWO32, mid % TWO32;
    assert a * b == (hh + midCarry + midHi) * TWO64 + midLow * TWO32 + ll;
    var midLo: u64 := midLow * TWO32;
    var lo := WAdd(ll, midLo);
    var hi: u64 := hh + midCarry + midHi;
    if lo < midLo {
      hi := hi + 1;
    }
    r := U128(hi, lo);
  }

  lemma MulBound(a: u64, b: u64)
    ensures a * b < TWO128
  {
    MulMono(a, TWO64 - 1, b);
  }

  // ----- operators -----

  predicate Less(a: U128, b: U128)
    ensures Less(a, b) <==> Nat(a) < Nat(b)
  {
    a.hi < b.hi || (a.hi == b.hi && a.lo < b.lo)
  }

  function Add(a: U128, b: U128): (r: U128)
    ensures Nat(r) == if Nat(a) + Nat(b) < TWO128 then Nat(a) + Nat(b) else Nat(a) + Nat(b) - TWO128
  {
    var lo := WAdd(a.lo, b.lo);
    U128(WAdd(WAdd(a.hi, b.hi), if lo < a.lo then 1 else 0), lo)
  }

  function Sub(a: U128, b: U128): (r: U128)
    ensures Nat(r) == if Nat(a) >= Nat(b) then Nat(a) - Nat(b) else Nat(a) - Nat(b) + TWO128
  {
    var borrow := if a.lo < b.lo then 1 else 0;
    U128(WSub(WSub(a.hi, b.hi), borrow), WSub(a.lo, b.lo))
  }

  /** `x << s` in one word: the bits pushed out are `x >> (64 - s)`. */
  function ShlWord(x: u64, s: nat): u64 {
    Shl(x, s) % TWO64
  }

  lemma ShlWordSplit(x: u64, s: nat)
    requires s <= 64
    ensures Shl(x, s) == Shr(x, 64 - s) * TWO64 + ShlWord(x, s)
    ensures ShlWord(x, s) + Pow2(s) <= TWO64
    ensures Shr(x, 64 - s) < Pow2(s)
  {
    Pow2Table();
    ShrOfShl(x, s, 64 - s);
    ShrDivides(Shl(x, s), 64);
    ShrRange(x, 64 - s, 64);
    DivUnique(Shl(x, s), TWO64, Shr(x, 64 - s), Shl(x, s) - Shr(x, 64 - s) * TWO64);
    ShlRoom(x, s);
  }

  lemma ShlRoom(x: nat, s: nat)
    requires s <= 64
    ensures Shl(x, s) - Shr(x, 64 - s) * TWO64 + Pow2(s) <= TWO64
  {
    Pow2Table();
    ShlMultiplies(x, s);
    ShrDivides(x, 64 - s);
    Pow2Add(64 - s, s);
    MultipleBelow(x, Pow2(s), Pow2(64 - s), Shr(x, 64 - s));
  }

  lemma MultipleBelow(x: nat, p: nat, q: nat, d: nat)
    requires d * q <= x < (d + 1) * q && p > 0
    ensures x * p - d * (q * p) + p <= q * p
  {
    MulMono(x + 1, (d + 1) * q, p);
    Distribute(x, 0, p);
    Distribute(0, d, q);
    Assoc(d + 1, q, p);
    Distribute(0, d, q * p);
  }

  lemma ShlNat(hi: nat, lo: nat, s: nat)
    ensures Shl(hi * TWO64 + lo, s) == Shl(hi, s) * TWO64 + Shl(lo, s)
  {
    ShlMultiplies(hi * TWO64 + lo, s);
    ShlMultiplies(hi, s);
    ShlMultiplies(lo, s);
    Distribute(hi * TWO64, lo, Pow2(s));
    Assoc(hi, TWO64, Pow2(s));
    Assoc(hi, Pow2(s), TWO64);
  }

  /** Left shift, dropping what leaves the 128 bits. The halves joined by `|` in the C++ have no bit
      in common, so `|` is addition. */
  function ShiftLeft(a: U128, s: nat): (r: U128)
    ensures Nat(r) == Shl(Nat(a), s) % TWO128
  {
    if s == 0 then
      assert Shl(Nat(a), 0) == Nat(a);
      a
    else if s >= 128 then
      ShlAllOut(Nat(a), s);
      U128(0, 0)
    else if s >= 64 then
      ShlFar(a.hi, a.lo, s);
      U128(ShlWord(a.lo, s - 64), 0)
    else
      ShlNear(a.hi, a.lo, s);
      U128(ShlWord(a.hi, s) + Shr(a.lo, 64 - s), ShlWord(a.lo, s))
  }

  lemma ShlNear(hi: u64, lo: u64, s: nat)
    requires 0 < s < 64
    ensures ShlWord(hi, s) + Shr(lo, 64 - s) < TWO64
    ensures Shl(hi * TWO64 + lo, s) % TWO128 == (ShlWord(hi, s) + Shr(lo, 64 - s)) * TWO64 + ShlWord(lo, s)
  {
    ShlNat(hi, lo, s);
    ShlWordSplit(lo, s);
    ShlWordSplit(hi, s);
    DropHigh(Shr(hi, 64 - s), ShlWord(hi, s) + Shr(lo, 64 - s), ShlWord(lo, s));
  }

  lemma DropHigh(d: nat, h: u64, l: u64)
    ensures (d * TWO128 + h * TWO64 + l) % TWO128 == h * TWO64 + l
  {
    DivUnique(d * TWO128 + h * TWO64 + l, TWO128, d, h * TWO64 + l);
  }

  lemma ShlFar(hi: u64, lo: u64, s: nat)
    requires 64 <= s < 128
    ensures Shl(hi * TWO64 + lo, s) % TWO128 == ShlWord(lo, s - 64) * TWO64
  {
    ShlNat(hi, lo, s);
    ShlByWord(hi, s - 64);
    ShlByWord(lo, s - 64);
    ShlWordSplit(lo, s - 64);
    DropHigh(Shl(hi, s - 64) + Shr(lo, 128 - s), ShlWord(lo, s - 64), 0);
  }

  lemma ShlByWord(x: nat, s: nat)
    ensures Shl(x, 64 + s) == Shl(x, s) * TWO64
  {
    Pow2Table();
    ShlMultiplies(x, 64 + s);
    ShlMultiplies(x, s);
    Pow2Add(64, s);
    Assoc(x, Pow2(s), TWO64);
  }

  lemma ShlAllOut(x: nat, s: nat)
    requires s >= 128
    ensures Shl(x, s) % TWO128 == 0
  {
    ShlByWord(x, s - 64);
    ShlByWord(x, s - 128);
    DivUnique(Shl(x, s), TWO128, Shl(x, s - 128), 0);
  }

  /** Right shift. */
  function ShiftRight(a: U128, s: nat): (r: U128)
    ensures Nat(r) == Shr(Nat(a), s)
  {
    if s == 0 then a
    else if s >= 128 then
      ShrFar(a.hi, a.lo, s);
      ShrGone(a.hi, s - 64);
      U128(0, 0)
    else if s >= 64 then
      ShrFar(a.hi, a.lo, s);
      ShrJamBound(a.hi, s - 64);
      U128(0, Shr(a.hi, s - 64))
    else
      ShrNear(a.hi, a.lo, s);
      ShrJamBound(a.hi, s);
      U128(Shr(a.hi, s), Shr(a.lo, s) + ShlWord(a.hi, 64 - s))
  }

  lemma ShrFar(hi: u64, lo: u64, s: nat)
    requires s >= 64
    ensures Shr(hi * TWO64 + lo, s) == Shr(hi, s - 64)
  {
    Pow2Table();
    ShrUnique(hi * TWO64 + lo, 64, hi);
    ShrShr(hi * TWO64 + lo, 64, s - 64);
  }

  lemma ShrGone(x: u64, s: nat)
    requires s >= 64
    ensures Shr(x, s) == 0
  {
    Pow2Table();
    ShrAll(x, 64, s);
  }

  lemma ShrNear(hi: u64, lo: u64, s: nat)
    requires 0 < s < 64
    ensures Shr(lo, s) + ShlWord(hi, 64 - s) < TWO64
    ensures Shr(hi * TWO64 + lo, s) == Shr(hi, s) * TWO64 + Shr(lo, s) + ShlWord(hi, 64 - s)
  {
    Pow2Table();
    ShlMultiplies(hi, 64);
    ShlShl(hi, 64 - s, s);
    ShrOfShl(Shl(hi, 64 - s), s, 0);
    assert Shr(Shl(hi, 64 - s), 0) == Shl(hi, 64 - s) && !AnyLow(Shl(hi, 64 - s), 0);
    ShrAdd(Shl(hi, 64), lo, s);
    ShlWordSplit(hi, 64 - s);
    ShrRange(lo, s, 64);
  }

  /** `highest_bit`: position of the leading one, -1 for zero. */
  method HighestBit(a: U128) returns (k: int)
    ensures Nat(a) == 0 ==> k == -1
    ensures Nat(a) > 0 ==> 0 <= k < 128 && Pow2(k) <= Nat(a) < Pow2(k + 1)
  {
    Pow2Table();
    if a.hi != 0 {
      var z := Clz64(a.hi);
      ClzPosition(a.hi, z);
      k := 127 - z;
      Pow2Add(63 - z, 64);
      Pow2Add(64 - z, 64);
    } else if a.lo == 0 {
      k := -1;
    } else {
      var z := Clz64(a.lo);
      ClzPosition(a.lo, z);
      k := 63 - z;
    }
  }

  // ----- division -----

  /** While the guess is too large the loop's test says so, and only then. */
  lemma DigitTest(n: nat, digit: nat, d: nat, dh: nat, dl: nat, q: nat, rhat: nat)
    requires dh < TWO32 && dl < TWO32 && digit < TWO32 && d == dh * TWO32 + dl
    requires q * dh + rhat == n
    ensures q * dl > TWO32 * rhat + digit <==> q * d > n * TWO32 + digit
    ensures q <= TWO32 && rhat >= TWO32 ==> q * d <= n * TWO32 + digit
    ensures q >= TWO32 && n < d ==> q * d > n * TWO32 + digit
  {
    Assoc(q, dh, TWO32);
    assert q * d == q * (dh * TWO32) + q * dl;
    if q <= TWO32 {
      MulMono(q, TWO32, dl);
    }
    if q >= TWO32 && n < d {
      MulMono(TWO32, q, d);
    }
  }

  /** A guess `q` that is not too small, with its partial remainder `rhat`. */
  ghost predicate Guess(n: nat, digit: nat, d: nat, dh: nat, q: nat, rhat: nat) {
    q <= TWO32 + 1 && q * dh + rhat == n && n * TWO32 + digit < (q + 1) * d
  }

  lemma GuessDown(n: nat, digit: nat, d: nat, dh: nat, q: nat, rhat: nat)
    requires q > 0 && Guess(n, digit, d, dh, q, rhat)
    requires q * d > n * TWO32 + digit
    ensures Guess(n, digit, d, dh, q - 1, rhat + dh)
  {
    Distribute(q, 1, dh);
    Distribute(q, 1, d);
  }

  lemma FirstGuess(n: nat, digit: nat, d: nat, dh: nat, dl: nat, q: nat, rhat: nat)
    requires TWO32 / 2 <= dh < TWO32 && dl < TWO32 && digit < TWO32 && d == dh * TWO32 + dl
    requires n < d && q * dh + rhat == n && rhat < dh
    ensures Guess(n, digit, d, dh, q, rhat)
  {
    if q >= TWO32 + 2 {
      MulMono(TWO32 + 2, q, dh);
    }
    Distribute(0, q, dh);
    NextGuess(n, digit, d, dh, dl, q + 1);
  }

  lemma NextGuess(n: nat, digit: nat, d: nat, dh: nat, dl: nat, q: nat)
    requires digit < TWO32 && d == dh * TWO32 + dl && n < q * dh
    ensures n * TWO32 + digit < q * d
  {
    Assoc(q, dh, TWO32);
    MulMono(0, q, dl);
    assert q * d == q * (dh * TWO32) + q * dl;
  }

  /** The loop's test, on a partial remainder of one digit. */
  predicate TooBig(q: nat, dl: nat, rhat: nat, digit: nat) {
    q >= TWO32 || q * dl > TWO32 * rhat + digit
  }

  lemma NotTooBig(n: nat, digit: nat, d: nat, dh: nat, dl: nat, q: nat, rhat: nat)
    requires dh < TWO32 && dl < TWO32 && digit < TWO32 && d == dh * TWO32 + dl && n < d
    requires Guess(n, digit, d, dh, q, rhat)
    ensures rhat >= TWO32 && q <= TWO32 ==> IsDigit(n, digit, d, q)
    ensures !TooBig(q, dl, rhat, digit) ==> IsDigit(n, digit, d, q)
    ensures rhat < TWO32 && TooBig(q, dl, rhat, digit) ==> q > 0 && Guess(n, digit, d, dh, q - 1, rhat + dh)
  {
    DigitTest(n, digit, d, dh, dl, q, rhat);
    if q * d > n * TWO32 + digit {
      GuessDown(n, digit, d, dh, q, rhat);
    }
  }

  /** `q` is the quotient digit of `n * 2^32 + digit` by `d`. */
  ghost predicate IsDigit(n: nat, digit: nat, d: nat, q: nat) {
    q < TWO32 && q * d <= n * TWO32 + digit < (q + 1) * d
  }

  /** One digit of Knuth's algorithm: a guess from the top half of the divisor, corrected at most
      twice. The product in the test is evaluated only for a one-digit guess, so nothing wraps. */
  method QuotientDigit(n: u64, digit: u32, d: u64) returns (q: nat)
    requires TWO64 / 2 <= d && n < d
    ensures IsDigit(n, digit, d, q)
  {
    var dh, dl := d / TWO32, d % TWO32;
    DivNat(n, dh);
    q := n / dh;
    var rhat: nat := n - q * dh;
    FirstGuess(n, digit, d, dh, dl, q, rhat);
    while TooBig(q, dl, rhat, digit)
      invariant Guess(n, digit, d, dh, q, rhat) && rhat < TWO32
      decreases q
    {
      NotTooBig(n, digit, d, dh, dl, q, rhat);
      q := q - 1;
      rhat := rhat + dh;
      if rhat >= TWO32 {
        break;
      }
    }
    NotTooBig(n, digit, d, dh, dl, q, rhat);
  }

  /** `divmod_u128_u64`: the two wrapped differences are the true partial remainders, because these
      are below the divisor. */
  method DivMod(numerator: U128, denominator: u64) returns (quotient: u64, remainder: u64)
    requires TWO32 <= denominator < TWO64 / 2
    requires numerator.hi < denominator
    ensures quotient * denominator + remainder == Nat(numerator)
    ensures remainder < denominator
  {
    var shift := Clz64(denominator);
    assert shift > 0 by {
      assert Shl(denominator, 0) == denominator;
    }
    var d: u64 := Shl(denominator, shift);
    NormalizedNumerator(numerator.hi, numerator.lo, denominator, shift);
    var n1: u64 := ShlWord(numerator.hi, shift) + Shr(numerator.lo, 64 - shift);
    var n0 := ShlWord(numerator.lo, shift);
    var rest;
    quotient, rest := DivideNormalized(n1, n0, d);
    Denormalize(Nat(numerator), denominator, shift, quotient, rest);
    ShrJamBound(rest, shift);
    remainder := Shr(rest, shift);
  }

  method DivideNormalized(n1: u64, n0: u64, d: u64) returns (quotient: u64, rest: u64)
    requires TWO64 / 2 <= d && n1 < d
    ensures quotient * d + rest == n1 * TWO64 + n0 && rest < d
  {
    var digit1, digit0 := n0 / TWO32, n0 % TWO32;
    var q1, middle := DigitAndRest(n1, digit1, d);
    var q0;
    q0, rest := DigitAndRest(middle, digit0, d);
    quotient := q1 * TWO32 + q0;
    JoinDigits(n1, digit1, digit0, d, q1, q0, middle, rest);
  }

  /** A quotient digit and the partial remainder, whose subtraction may wrap on both sides. */
  method DigitAndRest(n: u64, digit: u32, d: u64) returns (q: nat, rest: u64)
    requires TWO64 / 2 <= d && n < d
    ensures q < TWO32 && rest < d && rest == n * TWO32 + digit - q * d
  {
    q := QuotientDigit(n, digit, d);
    rest := WSub(Wrap(n * TWO32 + digit), Wrap(q * d));
    PartialRemainder(n, digit, d, q);
  }

  function Wrap(x: nat): u64 {
    x % TWO64
  }

  lemma PartialRemainder(n: u64, digit: u32, d: u64, q: nat)
    requires IsDigit(n, digit, d, q)
    ensures WSub(Wrap(n * TWO32 + digit), Wrap(q * d)) == n * TWO32 + digit - q * d < d
  {
    Distribute(0, q, d);
    WrappedDifference(n * TWO32 + digit, q * d);
  }

  lemma WrappedDifference(x: nat, y: nat)
    requires y <= x < y + TWO64
    ensures WSub(Wrap(x), Wrap(y)) == x - y
  {
  }

  lemma NormalizedNumerator(hi: u64, lo: u64, den: u64, s: nat)
    requires 0 < s < 64 && hi < den
    requires Shl(den, s) < TWO64
    ensures ShlWord(hi, s) + Shr(lo, 64 - s) < Shl(den, s)
    ensures (ShlWord(hi, s) + Shr(lo, 64 - s)) * TWO64 + ShlWord(lo, s) == Shl(hi * TWO64 + lo, s)
  {
    ShlBelow(hi, den, s);
    ShlWordSplit(lo, s);
    ShlNat(hi, lo, s);
  }

  lemma ShlBelow(hi: nat, den: nat, s: nat)
    requires hi < den
    ensures Shl(hi, s) + Pow2(s) <= Shl(den, s)
  {
    ShlMultiplies(hi, s);
    ShlMultiplies(den, s);
    MulStrict(hi, den, Pow2(s));
    Distribute(0, hi, Pow2(s));
  }

  lemma JoinDigits(n1: u64, digit1: u32, digit0: u32, d: u64, q1: nat, q0: nat, middle: u64, rest: u64)
    requires middle == n1 * TWO32 + digit1 - q1 * d
    requires rest == middle * TWO32 + digit0 - q0 * d
    ensures (q1 * TWO32 + q0) * d + rest == n1 * TWO64 + digit1 * TWO32 + digit0
  {
    Distribute(q1 * TWO32, q0, d);
    Assoc(q1, TWO32, d);
    Assoc(q1, d, TWO32);
  }

  lemma Denormalize(n: nat, den: nat, s: nat, q: nat, rest: nat)
    requires q * Shl(den, s) + rest == Shl(n, s) && rest < Shl(den, s)
    ensures q * den + Shr(rest, s) == n && Shr(rest, s) < den
  {
    var p := Pow2(s);
    ShlMultiplies(den, s);
    ShlMultiplies(n, s);
    Assoc(q, den, p);
    Distribute(n, q * den, p);
    var r := n - q * den;
    assert r * p == rest;
    if r < 0 {
      MulMono(r, -1, p);
    }
    Distribute(0, r, p);
    ShrUnique(rest, s, r);
    if r >= den {
      MulMono(den, r, p);
    }
  }
}
