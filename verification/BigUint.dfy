/** The fixed-width multi-limb integers of src/fp256/big_uint.h, for every limb count. A `Big<N>` is
    passed and returned by value, so it is a sequence of limbs, least significant first. */
module BigUint {
  import opened Powers
  import opened Shifts
  import opened Words
  import opened Wide

  const TWO63: nat := 0x8000_0000_0000_0000

  // ----- digits -----

  /** The number written with base-2^`k` digits `s`. */
  ghost function Digits(k: nat, s: seq<nat>): nat {
    if s == [] then 0 else s[0] + Pow2(k) * Digits(k, s[1..])
  }

  ghost function Value(s: seq<u64>): nat {
    Digits(64, s)
  }

  /** The first number that does not fit in `n` limbs. */
  ghost function Width(n: nat): nat {
    Pow2(64 * n)
  }

  lemma {:induction false} DigitsAppend(k: nat, s: seq<nat>, x: nat)
    ensures Digits(k, s + [x]) == Digits(k, s) + x * Pow2(k * |s|)
  {
    if s == [] {
      Pow2Zero();
      assert s + [x] == [x] && [x][1..] == [];
    } else {
      var t := s[1..];
      assert (s + [x])[1..] == t + [x];
      DigitsAppend(k, t, x);
      Pow2Add(k, k * |t|);
      AppendAlgebra(k, |t|, Pow2(k), Digits(k, t), x, Pow2(k * |t|));
    }
  }

  lemma AppendAlgebra(k: nat, n: nat, p: nat, v: nat, x: nat, w: nat)
    ensures k * (n + 1) == k + k * n
    ensures p * (v + x * w) == p * v + x * (p * w)
  {
    assert p * (x * w) == x * (p * w);
  }

  /** The digits below position `i`, and one more. */
  lemma DigitsPrefix(k: nat, s: seq<nat>, i: nat)
    requires i < |s|
    ensures Digits(k, s[..i + 1]) == Digits(k, s[..i]) + s[i] * Pow2(k * i)
  {
    assert s[..i + 1] == s[..i] + [s[i]];
    DigitsAppend(k, s[..i], s[i]);
  }

  lemma {:induction false} DigitsBound(k: nat, s: seq<nat>)
    requires forall i :: 0 <= i < |s| ==> s[i] < Pow2(k)
    ensures Digits(k, s) < Pow2(k * |s|)
  {
    if s == [] {
      Pow2Zero();
    } else {
      DigitsBound(k, s[1..]);
      Pow2Add(k, k * |s[1..]|);
      AppendAlgebra(k, |s[1..]|, 0, 0, 0, 0);
      BoundAlgebra(s[0], Pow2(k), Digits(k, s[1..]), Pow2(k * |s[1..]|));
    }
  }

  lemma BoundAlgebra(x: nat, p: nat, v: nat, w: nat)
    requires x < p && v < w
    ensures x + p * v < p * w
  {
    MulMono(v + 1, w, p);
    Distribute(0, v, p);
  }

  lemma ValueBound(s: seq<u64>)
    ensures Value(s) < Width(|s|)
  {
    Pow2Table();
    DigitsBound(64, s);
  }

  // ----- limbs -----

  /** Limb `i` of a number. */
  ghost function Limb(n: nat, i: nat): nat {
    Shr(n, 64 * i) % TWO64
  }

  lemma TailShift(s: seq<u64>)
    requires s != []
    ensures Shr(Value(s), 64) == Value(s[1..]) && Value(s) % TWO64 == s[0]
  {
    Pow2Table();
    DivUnique(Value(s), TWO64, Value(s[1..]), s[0]);
    ShrIsDiv(Value(s), 64, TWO64);
  }

  /** The limbs of a sequence are the limbs of its value. */
  lemma {:induction false} ValueLimb(s: seq<u64>, i: nat)
    requires i < |s|
    ensures Limb(Value(s), i) == s[i]
  {
    TailShift(s);
    if i == 0 {
      assert Shr(Value(s), 0) == Value(s);
    } else {
      ValueLimb(s[1..], i - 1);
      ShrShr(Value(s), 64, 64 * (i - 1));
    }
  }

  lemma ValueLimbs(s: seq<u64>)
    ensures forall i :: 0 <= i < |s| ==> Limb(Value(s), i) == s[i]
  {
    forall i | 0 <= i < |s|
      ensures Limb(Value(s), i) == s[i]
    {
      ValueLimb(s, i);
    }
  }

  /** Limbs determine the value, up to what lies above them. */
  lemma {:induction false} FromLimbs(s: seq<u64>, n: nat)
    requires forall i :: 0 <= i < |s| ==> s[i] == Limb(n, i)
    ensures Value(s) == n % Width(|s|)
  {
    if s == [] {
      Pow2Zero();
    } else {
      var m := Shr(n, 64);
      Pow2Table();
      ShrIsDiv(n, 64, TWO64);
      assert Shr(n, 0) == n;
      forall i | 0 <= i < |s[1..]|
        ensures s[1..][i] == Limb(m, i)
      {
        ShrShr(n, 64, 64 * i);
        assert s[1..][i] == s[i + 1] == Limb(n, i + 1);
      }
      FromLimbs(s[1..], m);
      Pow2Add(64, 64 * |s[1..]|);
      DivDiv(n, TWO64, Width(|s[1..]|));
      assert s[0] == Limb(n, 0);
      Commute(m % Width(|s[1..]|), TWO64);
    }
  }

  lemma Commute(a: int, b: int)
    ensures a * b == b * a
  {
  }

  /** Above all its limbs a number has nothing. */
  lemma LimbAbove(n: nat, k: nat, i: nat)
    requires n < Width(k) && i >= k
    ensures Shr(n, 64 * i) == 0 && Limb(n, i) == 0
  {
    ShrAll(n, 64 * k, 64 * i);
  }

  /** What lies above two limbs stays above them, and is a multiple of 2^64 after the shift. */
  lemma ShrAboveTwo(top: nat, w: nat, b: nat)
    requires b < 64
    ensures Shr(top * TWO128 + w, b) == Shl(top, 64 - b) * TWO64 + Shr(w, b)
  {
    Pow2Table();
    Pow2Times(64, 64, TWO64, TWO64, TWO128);
    ShlMultiplies(top, 128);
    ShlShl(top, 128 - b, b);
    ShrOfShl(Shl(top, 128 - b), b, 0);
    assert Shr(Shl(top, 128 - b), 0) == Shl(top, 128 - b) && !AnyLow(Shl(top, 128 - b), 0);
    ShrAdd(Shl(top, 128), w, b);
    ShlByWord(top, 64 - b);
  }

  lemma TwoLimbs(x: nat) returns (top: nat)
    ensures x == top * TWO128 + Shr(x, 64) % TWO64 * TWO64 + x % TWO64
  {
    Pow2Table();
    ShrIsDiv(x, 64, TWO64);
    top := Shr(x, 64) / TWO64;
  }

  /** Two neighbouring limbs, shifted right by `b`, give one limb of the shifted number. */
  lemma LimbOfShift(x: nat, b: nat)
    requires 0 < b < 64
    ensures Shr(x % TWO64, b) + ShlWord(Shr(x, 64) % TWO64, 64 - b) == Shr(x, b) % TWO64
  {
    var lo: u64, hi: u64 := x % TWO64, Shr(x, 64) % TWO64;
    var top := TwoLimbs(x);
    ShrNear(hi, lo, b);
    ShrAboveTwo(top, hi * TWO64 + lo, b);
    LowLimb(Shl(top, 64 - b) + Shr(hi, b), Shr(lo, b) + ShlWord(hi, 64 - b), Shr(x, b));
  }

  lemma LowLimb(d: nat, r: nat, n: nat)
    requires r < TWO64 && n == d * TWO64 + r
    ensures n % TWO64 == r
  {
    DivUnique(n, TWO64, d, r);
  }

  /** Changing one digit. */
  lemma {:induction false} DigitsUpdate(k: nat, s: seq<nat>, i: nat, x: nat)
    requires i < |s|
    ensures Digits(k, s[i := x]) == Digits(k, s) + (x - s[i]) * Pow2(k * i)
  {
    var p := Pow2(k);
    if i == 0 {
      Pow2Zero();
      assert s[0 := x][1..] == s[1..];
    } else {
      var t := s[1..];
      assert s[i := x][1..] == t[i - 1 := x];
      DigitsUpdate(k, t, i - 1, x);
      Pow2Add(k, k * (i - 1));
      UpdateAlgebra(k, i - 1, p, Digits(k, t), x - s[i], Pow2(k * (i - 1)));
    }
  }

  lemma UpdateAlgebra(k: nat, n: nat, p: nat, v: int, d: int, w: nat)
    ensures k * (n + 1) == k + k * n
    ensures p * (v + d * w) == p * v + d * (p * w)
  {
    assert p * (d * w) == d * (p * w);
  }

  // ----- inspection -----

  lemma LowDigits(s: seq<u64>, i: nat)
    requires i <= |s|
    ensures Digits(64, s[..i]) < Pow2(64 * i)
    ensures i < |s| ==> Digits(64, s[..i + 1]) == Digits(64, s[..i]) + s[i] * Pow2(64 * i)
    ensures s[..|s|] == s
  {
    ValueBound(s[..i]);
    if i < |s| {
      DigitsPrefix(64, s, i);
    }
    assert s[..|s|] == s;
  }

  lemma NonzeroLimb(a: seq<u64>, i: nat)
    requires i < |a| && a[i] != 0
    ensures Value(a) != 0
  {
    ValueLimb(a, i);
    if Value(a) == 0 {
      ShrZero(64 * i);
    }
  }

  /** `zero`. */
  method AllZero(a: seq<u64>) returns (z: bool)
    ensures z <==> Value(a) == 0
  {
    for i := 0 to |a|
      invariant Digits(64, a[..i]) == 0
    {
      LowDigits(a, i);
      if a[i] != 0 {
        NonzeroLimb(a, i);
        return false;
      }
    }
    LowDigits(a, |a|);
    return true;
  }

  /** The numbers order as their highest different limbs do. */
  lemma LimbOrder(va: int, vb: int, la: nat, lb: nat, x: nat, y: nat, p: nat)
    requires la < p && lb < p && x < y
    requires va - (la + x * p) == vb - (lb + y * p)
    ensures va < vb
  {
    MulStrict(x, y, p);
    Distribute(0, x, p);
  }

  /** `compare`. */
  method CompareLimbs(a: seq<u64>, b: seq<u64>) returns (c: int)
    requires |a| == |b|
    ensures c == if Value(a) < Value(b) then -1 else if Value(a) > Value(b) then 1 else 0
  {
    LowDigits(a, |a|);
    LowDigits(b, |b|);
    for i := |a| downto 0
      invariant Value(a) - Digits(64, a[..i]) == Value(b) - Digits(64, b[..i])
    {
      LowDigits(a, i);
      LowDigits(b, i);
      if a[i] < b[i] {
        LimbOrder(Value(a), Value(b), Digits(64, a[..i]), Digits(64, b[..i]), a[i], b[i], Pow2(64 * i));
        return -1;
      }
      if a[i] > b[i] {
        LimbOrder(Value(b), Value(a), Digits(64, b[..i]), Digits(64, a[..i]), b[i], a[i], Pow2(64 * i));
        return 1;
      }
    }
    return 0;
  }

  /** Limb `i` with everything above it. */
  lemma UpperLimbs(s: seq<u64>, i: nat) returns (top: nat)
    requires i < |s|
    ensures Shr(Value(s), 64 * i) == top * TWO64 + s[i]
  {
    ValueLimb(s, i);
    top := Shr(Value(s), 64 * i) / TWO64;
  }

  lemma WordBit(top: nat, x: u64, b: nat)
    requires b < 64
    ensures Shr(top * TWO64 + x, b) == Shl(top, 64 - b) + Shr(x, b)
    ensures Shr(top * TWO64 + x, b) % 2 == Shr(x, b) % 2
    ensures AnyLow(top * TWO64 + x, b) <==> AnyLow(x, b)
  {
    Pow2Table();
    ShlMultiplies(top, 64);
    ShlShl(top, 64 - b, b);
    ShrOfShl(Shl(top, 64 - b), b, 0);
    assert Shr(Shl(top, 64 - b), 0) == Shl(top, 64 - b) && !AnyLow(Shl(top, 64 - b), 0);
    ShrAdd(Shl(top, 64), x, b);
  }

  /** `bit`. */
  predicate BitAt(a: seq<u64>, index: nat)
    ensures BitAt(a, index) <==> Bit(Value(a), index)
  {
    if index < |a| * 64 then
      BitOfLimb(a, index);
      Bit(a[index / 64], index % 64)
    else
      ValueBound(a);
      ShrAll(Value(a), 64 * |a|, index);
      false
  }

  lemma BitOfLimb(a: seq<u64>, index: nat)
    requires index < |a| * 64
    ensures Bit(a[index / 64], index % 64) <==> Bit(Value(a), index)
  {
    var i, b := index / 64, index % 64;
    var top := UpperLimbs(a, i);
    WordBit(top, a[i], b);
    ShrShr(Value(a), 64 * i, b);
  }

  /** `highest`: position of the leading one, -1 for zero. */
  method Highest(a: seq<u64>) returns (h: int)
    ensures Value(a) == 0 ==> h == -1
    ensures Value(a) > 0 ==> h >= 0 && Pow2(h) <= Value(a) < Pow2(h + 1)
  {
    LowDigits(a, |a|);
    for i := |a| downto 0
      invariant Value(a) == Digits(64, a[..i])
    {
      LowDigits(a, i);
      if a[i] != 0 {
        var position := TopPosition(a[i]);
        HighestOf(Value(a), Digits(64, a[..i]), a[i], 64 * i, position);
        return i * 64 + position;
      }
    }
    return -1;
  }

  /** The inner loop of `highest`: halve until nothing is left. */
  method TopPosition(x: u64) returns (position: nat)
    requires x != 0
    ensures Pow2(position) <= x < Pow2(position + 1)
  {
    var word := x;
    position := 0;
    while word / 2 != 0
      invariant word == Shr(x, position) && word != 0
      decreases word
    {
      word := word / 2;
      position := position + 1;
    }
    ShrDivides(x, position);
    Pow2Step(position);
  }

  lemma HighestOf(v: nat, low: nat, x: nat, i: nat, position: nat)
    requires v == low + x * Pow2(i) && low < Pow2(i)
    requires Pow2(position) <= x < Pow2(position + 1)
    ensures v > 0 && Pow2(i + position) <= v < Pow2(i + position + 1)
  {
    Pow2Add(position, i);
    Pow2Add(position + 1, i);
    MulMono(Pow2(position), x, Pow2(i));
    MulStrict(x, Pow2(position + 1), Pow2(i));
    Distribute(0, x, Pow2(i));
  }

  // ----- addition and subtraction -----

  /** One limb with carry. */
  lemma CarryStep(x: u64, y: u64, carry: nat)
    requires carry <= 1
    ensures var t := WAdd(x, carry); var r := WAdd(t, y);
            r + (if t < x || r < t then TWO64 else 0) == x + y + carry
  {
  }

  lemma CarryAlgebra(r: int, c: int, a: int, b: int, x: int, y: int, z: int, c': int, p: int)
    requires r + c * p == a + b && z + c' * TWO64 == x + y + c
    ensures (r + z * p) + c' * (TWO64 * p) == (a + x * p) + (b + y * p)
  {
    assert (z + c' * TWO64) * p == (x + y + c) * p;
    assert (z + c' * TWO64) * p == z * p + c' * (TWO64 * p);
    assert (x + y + c) * p == x * p + y * p + c * p;
  }

  lemma NextLimb(i: nat)
    ensures Pow2(64 * (i + 1)) == TWO64 * Pow2(64 * i)
  {
    Pow2Table();
    Pow2Add(64, 64 * i);
  }

  /** `add`: exact modulo 2^(64 N). */
  method AddLimbs(a: seq<u64>, b: seq<u64>) returns (r: seq<u64>)
    requires |a| == |b|
    ensures |r| == |a| && Value(r) == (Value(a) + Value(b)) % Width(|a|)
  {
    r := [];
    var carry := 0;
    Pow2Zero();
    for i := 0 to |a|
      invariant |r| == i && carry <= 1
      invariant Value(r) + carry * Pow2(64 * i) == Digits(64, a[..i]) + Digits(64, b[..i])
    {
      var x := WAdd(a[i], carry);
      var y := WAdd(x, b[i]);
      var next := if x < a[i] || y < x then 1 else 0;
      CarryStep(a[i], b[i], carry);
      LowDigits(a, i);
      LowDigits(b, i);
      DigitsAppend(64, r, y);
      NextLimb(i);
      CarryAlgebra(Value(r), carry, Digits(64, a[..i]), Digits(64, b[..i]), a[i], b[i], y, next, Pow2(64 * i));
      r, carry := r + [y], next;
    }
    LowDigits(a, |a|);
    LowDigits(b, |b|);
    ValueBound(r);
    DivUnique(Value(a) + Value(b), Width(|a|), carry, Value(r));
  }

  lemma BorrowStep(x: u64, y: u64, borrow: nat)
    requires borrow <= 1
    ensures var t := WSub(x, borrow); var r := WSub(t, y);
            r - (if x < borrow || t < y then TWO64 else 0) == x - y - borrow
  {
  }

  lemma BorrowAlgebra(r: int, c: int, a: int, b: int, x: int, y: int, z: int, c': int, p: int)
    requires r - c * p == a - b && z - c' * TWO64 == x - y - c
    ensures (r + z * p) - c' * (TWO64 * p) == (a + x * p) - (b + y * p)
  {
    CarryAlgebra(r, -c, a, -b, x, -y, z, -c', p);
  }

  /** `sub`: exact modulo 2^(64 N). */
  method SubLimbs(a: seq<u64>, b: seq<u64>) returns (r: seq<u64>)
    requires |a| == |b|
    ensures |r| == |a| && Value(r) == (Value(a) - Value(b)) % Width(|a|)
  {
    r := [];
    var borrow := 0;
    Pow2Zero();
    for i := 0 to |a|
      invariant |r| == i && borrow <= 1
      invariant Value(r) - borrow * Pow2(64 * i) == Digits(64, a[..i]) - Digits(64, b[..i])
    {
      var x := WSub(a[i], borrow);
      var y := WSub(x, b[i]);
      var next := if a[i] < borrow || x < b[i] then 1 else 0;
      BorrowStep(a[i], b[i], borrow);
      LowDigits(a, i);
      LowDigits(b, i);
      DigitsAppend(64, r, y);
      NextLimb(i);
      BorrowAlgebra(Value(r), borrow, Digits(64, a[..i]), Digits(64, b[..i]), a[i], b[i], y, next, Pow2(64 * i));
      r, borrow := r + [y], next;
    }
    LowDigits(a, |a|);
    LowDigits(b, |b|);
    ValueBound(r);
    DivUnique(Value(a) - Value(b), Width(|a|), -borrow, Value(r));
  }

  // ----- shifts -----

  /** Limb `i` of `a << shift`: zero below the whole-word part, then two neighbouring limbs joined. */
  function UpLimb(a: seq<u64>, words: nat, bits: nat, i: nat): (r: nat)
    requires bits < 64 && i < |a|
    ensures r == Limb(Shl(Value(a), 64 * words + bits), i)
  {
    if i < words then
      EmptyLimb(Value(a), words, bits, i);
      0
    else
      SkipWords(Shl(Value(a), bits), words, i - words);
      ShlShl(Value(a), bits, 64 * words);
      JoinedLimb(a, bits, i - words);
      ShlWord(a[i - words], bits) + if bits != 0 && i > words then Shr(a[i - words - 1], 64 - bits) else 0
  }

  lemma EmptyLimb(v: nat, words: nat, bits: nat, i: nat)
    requires i < words
    ensures Limb(Shl(v, 64 * words + bits), i) == 0
  {
    var up := Shl(v, 64 * words + bits - 64 * i);
    ShlShl(v, 64 * words + bits - 64 * i, 64 * i);
    ShrOfShl(up, 64 * i, 0);
    assert Shr(up, 0) == up;
    ShlByWord(v, 64 * words + bits - 64 * i - 64);
    LowLimb(Shl(v, 64 * words + bits - 64 * i - 64), 0, up);
  }

  lemma SkipWords(n: nat, words: nat, j: nat)
    ensures Limb(Shl(n, 64 * words), words + j) == Limb(n, j)
  {
    ShrOfShl(n, 64 * words, 64 * j);
  }

  lemma JoinedLimb(a: seq<u64>, bits: nat, j: nat)
    requires bits < 64 && j < |a|
    ensures ShlWord(a[j], bits) + (if bits != 0 && j > 0 then Shr(a[j - 1], 64 - bits) else 0)
         == Limb(Shl(Value(a), bits), j)
  {
    var v := Value(a);
    ValueLimb(a, j);
    if bits == 0 {
      assert Shl(v, 0) == v && Shl(a[j], 0) == a[j];
    } else if j == 0 {
      var top := UpperLimbs(a, 0);
      assert Shr(v, 0) == v && Shr(Shl(v, bits), 0) == Shl(v, bits);
      ShlNat(top, a[0], bits);
      SameLow(Shl(top, bits), Shl(a[0], bits), Shl(v, bits));
    } else {
      var x := Shr(v, 64 * (j - 1));
      ValueLimb(a, j - 1);
      ShrShr(v, 64 * (j - 1), 64);
      LimbOfShift(x, 64 - bits);
      ShrOfShl(v, bits, (64 - bits) + 64 * (j - 1));
      ShrShr(v, 64 * (j - 1), 64 - bits);
    }
  }

  lemma SameLow(d: nat, x: nat, n: nat)
    requires n == d * TWO64 + x
    ensures n % TWO64 == x % TWO64
  {
    LowLimb(d + x / TWO64, x % TWO64, n);
  }

  /** `shl`: exact modulo 2^(64 N). */
  method ShlLimbs(a: seq<u64>, shift: nat) returns (r: seq<u64>)
    ensures |r| == |a| && Value(r) == Shl(Value(a), shift) % Width(|a|)
  {
    r := seq(|a|, _ => 0);
    var words, bits := shift / 64, shift % 64;
    if shift >= |a| * 64 {
      forall i | 0 <= i < |a|
        ensures r[i] == Limb(Shl(Value(a), shift), i)
      {
        EmptyLimb(Value(a), words, bits, i);
      }
    } else {
      forall i | 0 <= i < words
        ensures r[i] == Limb(Shl(Value(a), shift), i)
      {
        EmptyLimb(Value(a), words, bits, i);
      }
      for i := |a| downto words
        invariant |r| == |a|
        invariant forall j :: 0 <= j < words || i <= j < |a| ==> r[j] == Limb(Shl(Value(a), shift), j)
      {
        r := r[i := UpLimb(a, words, bits, i)];
      }
    }
    FromLimbs(r, Shl(Value(a), shift));
  }

  /** Limb `i` of `a >> shift`: two neighbouring limbs joined. */
  function DownLimb(a: seq<u64>, words: nat, bits: nat, i: nat): (r: nat)
    requires bits < 64 && i + words < |a|
    ensures r == Limb(Shr(Value(a), 64 * words + bits), i)
  {
    DownJoined(a, words, bits, i);
    Shr(a[i + words], bits) + if bits != 0 && i + words + 1 < |a| then ShlWord(a[i + words + 1], 64 - bits) else 0
  }

  lemma DownJoined(a: seq<u64>, words: nat, bits: nat, i: nat)
    requires bits < 64 && i + words < |a|
    ensures Shr(a[i + words], bits)
              + (if bits != 0 && i + words + 1 < |a| then ShlWord(a[i + words + 1], 64 - bits) else 0)
         == Limb(Shr(Value(a), 64 * words + bits), i)
  {
    var v, j := Value(a), i + words;
    ShrShr(v, 64 * words + bits, 64 * i);
    ShrShr(v, 64 * j, bits);
    ValueLimb(a, j);
    var x := Shr(v, 64 * j);
    if bits == 0 {
      assert Shr(a[j], 0) == a[j];
    } else {
      LimbOfShift(x, bits);
      ShrShr(v, 64 * j, 64);
      if j + 1 < |a| {
        ValueLimb(a, j + 1);
      } else {
        ValueBound(a);
        LimbAbove(v, |a|, j + 1);
        ShlMultiplies(0, 64 - bits);
      }
    }
  }

  /** `shr`: floor division by a power of two. */
  method ShrLimbs(a: seq<u64>, shift: nat) returns (r: seq<u64>)
    ensures |r| == |a| && Value(r) == Shr(Value(a), shift)
  {
    ghost var v := Shr(Value(a), shift);
    r := seq(|a|, _ => 0);
    ValueBound(a);
    ShrJamBound(Value(a), shift);
    forall i | 0 <= i < |a| && |a| <= i + shift / 64
      ensures r[i] == Limb(v, i)
    {
      ShrShr(Value(a), shift, 64 * i);
      ShrAll(Value(a), 64 * |a|, shift + 64 * i);
    }
    if shift < |a| * 64 {
      var words, bits := shift / 64, shift % 64;
      for i := 0 to |a| - words
        invariant |r| == |a|
        invariant forall j :: 0 <= j < i || |a| - words <= j < |a| ==> r[j] == Limb(v, j)
      {
        r := r[i := DownLimb(a, words, bits, i)];
      }
    }
    FromLimbs(r, v);
    DivUnique(v, Width(|a|), 0, v);
  }

  /** Bits below a whole number of limbs. */
  lemma LowWords(a: seq<u64>, words: nat)
    requires words <= |a|
    ensures AnyLow(Value(a), 64 * words) <==> exists i :: 0 <= i < words && a[i] != 0
  {
    if i :| 0 <= i < words && a[i] != 0 {
      var top := UpperLimbs(a, i);
      Pow2Table();
      ShrShr(Value(a), 64 * i, 64);
      LowLimb(top, a[i], top * TWO64 + a[i]);
      ShrIsDiv(top * TWO64 + a[i], 64, TWO64);
      ShrShr(Value(a), 64 * (i + 1), 64 * (words - i - 1));
    } else {
      LowClear(a, words);
    }
  }

  lemma {:induction false} LowClear(a: seq<u64>, words: nat)
    requires words <= |a| && forall i :: 0 <= i < words ==> a[i] == 0
    ensures !AnyLow(Value(a), 64 * words)
  {
    if words != 0 {
      LowClear(a, words - 1);
      var top := UpperLimbs(a, words - 1);
      Pow2Table();
      ShrShr(Value(a), 64 * (words - 1), 64);
      LowLimb(top, 0, top * TWO64);
      ShrIsDiv(top * TWO64, 64, TWO64);
    }
  }

  /** `any_low`: whether a right shift by `count` loses a set bit. */
  method AnyLowLimbs(a: seq<u64>, count: nat) returns (lost: bool)
    ensures lost <==> AnyLow(Value(a), count)
  {
    if count >= |a| * 64 {
      ValueBound(a);
      ShrAll(Value(a), 64 * |a|, count);
      var z := AllZero(a);
      return !z;
    }
    var words, bits := count / 64, count % 64;
    LowWords(a, words);
    ShrShr(Value(a), 64 * words, bits);
    for i := 0 to words
      invariant forall j :: 0 <= j < i ==> a[j] == 0
    {
      if a[i] != 0 {
        return true;
      }
    }
    ghost var top := UpperLimbs(a, words);
    WordBit(top, a[words], bits);
    return bits != 0 && AnyLow(a[words], bits);
  }

  /** `shr_jam`. */
  method JamLimbs(a: seq<u64>, shift: nat) returns (r: seq<u64>)
    requires |a| > 0
    ensures |r| == |a| && Value(r) == ShrJam(Value(a), shift)
  {
    if shift == 0 {
      return a;
    }
    r := ShrLimbs(a, shift);
    var lost := AnyLowLimbs(a, shift);
    if lost {
      r := OrOne(r);
    }
  }

  /** `v[0] |= 1`. */
  method OrOne(a: seq<u64>) returns (r: seq<u64>)
    requires |a| > 0
    ensures |r| == |a| && Value(r) == Value(a) + if Value(a) % 2 == 0 then 1 else 0
  {
    r := a;
    LowParity(a);
    if a[0] % 2 == 0 {
      EvenWord(a[0]);
      DigitsUpdate(64, a, 0, a[0] + 1);
      Pow2Zero();
      r := a[0 := a[0] + 1];
    }
  }

  lemma EvenWord(w: u64)
    requires w % 2 == 0
    ensures w + 1 < TWO64
  {
  }

  lemma LowParity(a: seq<u64>)
    requires |a| > 0
    ensures Value(a) % 2 == a[0] % 2
  {
    Pow2Table();
    var t := Value(a[1..]);
    assert Value(a) == a[0] + TWO64 * t;
    DivUnique(Value(a), 2, a[0] / 2 + TWO63 * t, a[0] % 2);
  }

  /** `widen`: limbs above the narrower width are zero or dropped. */
  method Widen(a: seq<u64>, to: nat) returns (r: seq<u64>)
    ensures |r| == to && Value(r) == Value(a) % Width(to)
  {
    r := seq(to, _ => 0);
    ValueBound(a);
    forall i | |a| <= i < to
      ensures Limb(Value(a), i) == 0
    {
      LimbAbove(Value(a), |a|, i);
    }
    for i := 0 to if to < |a| then to else |a|
      invariant |r| == to
      invariant forall j :: 0 <= j < i || |a| <= j < to ==> r[j] == Limb(Value(a), j)
    {
      ValueLimb(a, i);
      r := r[i := a[i]];
    }
    FromLimbs(r, Value(a));
  }

  /** `set_bit`. */
  method SetBit(a: seq<u64>, index: nat) returns (r: seq<u64>)
    ensures |r| == |a|
    ensures Value(r) == Value(a) + if index >= |a| * 64 || Bit(Value(a), index) then 0 else Pow2(index)
  {
    if index >= |a| * 64 {
      return a;
    }
    BitOfLimb(a, index);
    if Bit(a[index / 64], index % 64) {
      return a;
    }
    var i, b := index / 64, index % 64;
    Pow2Table();
    RoomForBit(a[i], b, 64);
    ShlMultiplies(1, b);
    DigitsUpdate(64, a, i, a[i] + Shl(1, b));
    Pow2Add(b, 64 * i);
    r := a[i := a[i] + Shl(1, b)];
  }

  /** A clear bit can be set without carrying. */
  lemma RoomForBit(x: nat, b: nat, k: nat)
    requires b < k && x < Pow2(k) && !Bit(x, b)
    ensures x + Pow2(b) < Pow2(k)
  {
    ShrDivides(x, b);
    Pow2Add(k - b, b);
    EvenRoom(x, b, k);
    NextMultiple(x, Shr(x, b), Pow2(b), Pow2(k - b));
  }

  lemma EvenRoom(x: nat, b: nat, k: nat)
    requires b < k && x < Pow2(k) && !Bit(x, b)
    ensures Shr(x, b) + 2 <= Pow2(k - b)
  {
    ShrRange(x, b, k);
    Pow2Step(k - b - 1);
  }

  lemma NextMultiple(x: int, t: nat, p: nat, q: nat)
    requires x < (t + 1) * p && t + 2 <= q
    ensures x + p < q * p
  {
    MulMono(t + 2, q, p);
    Distribute(0, t + 1, p);
  }

  /** `increment`: stops at the first limb that does not wrap. */
  method Increment(a: seq<u64>) returns (r: seq<u64>, wrapped: bool)
    ensures |r| == |a| && Value(r) == (Value(a) + 1) % Width(|a|)
    ensures wrapped <==> Value(a) + 1 == Width(|a|)
  {
    r := a;
    ValueBound(a);
    Pow2Zero();
    for i := 0 to |a|
      invariant |r| == |a| && r[i..] == a[i..]
      invariant Value(r) + Pow2(64 * i) == Value(a) + 1
    {
      var x := WAdd(r[i], 1);
      DigitsUpdate(64, r, i, x);
      NextLimb(i);
      r := r[i := x];
      if x != 0 {
        ValueBound(r);
        DivUnique(Value(a) + 1, Width(|a|), 0, Value(r));
        return r, false;
      }
      WrapAlgebra(Pow2(64 * i));
    }
    ValueBound(r);
    DivUnique(Value(a) + 1, Width(|a|), 1, Value(r));
    return r, true;
  }

  lemma WrapAlgebra(p: int)
    ensures (0 - 0xFFFF_FFFF_FFFF_FFFF) * p == p - TWO64 * p
    ensures (0xFFFF_FFFF_FFFF_FFFF - 0) * p == TWO64 * p - p
  {
  }

  lemma DownStep(limb: u64, p: int)
    ensures (WSub(limb, 1) - limb) * p == if limb == 0 then TWO64 * p - p else -p
  {
    WrapAlgebra(p);
  }

  lemma WrapDown(n: int, w: nat, r: nat)
    requires r < w && n == r - w
    ensures n % w == r
  {
    DivUnique(n, w, -1, r);
  }

  /** The borrow loop of `adjacent`: stops at the first limb that was not zero. */
  method Decrement(a: seq<u64>) returns (r: seq<u64>)
    ensures |r| == |a| && Value(r) == (Value(a) - 1) % Width(|a|)
  {
    r := a;
    ValueBound(a);
    Pow2Zero();
    for i := 0 to |a|
      invariant |r| == |a| && r[i..] == a[i..]
      invariant Value(r) == Value(a) - 1 + Pow2(64 * i)
    {
      var limb := r[i];
      var x := WSub(limb, 1);
      DigitsUpdate(64, r, i, x);
      NextLimb(i);
      DownStep(limb, Pow2(64 * i));
      r := r[i := x];
      if limb != 0 {
        ValueBound(r);
        DivUnique(Value(a) - 1, Width(|a|), 0, Value(r));
        return;
      }
    }
    ValueBound(r);
    WrapDown(Value(a) - 1, Width(|a|), Value(r));
  }

  // ----- multiplication -----

  /** `d` holds the base-2^32 digits of `a`, two to a limb. */
  ghost predicate Halves(a: seq<u64>, d: seq<u32>) {
    |d| == 2 * |a| && forall i :: 0 <= i < |a| ==> a[i] == d[2 * i] + d[2 * i + 1] * TWO32
  }

  lemma {:induction false} HalvesValue(a: seq<u64>, d: seq<u32>)
    requires Halves(a, d)
    ensures Digits(32, d) == Value(a)
  {
    if a != [] {
      var t, u := a[1..], d[2..];
      assert d[1..][1..] == u;
      forall i | 0 <= i < |t|
        ensures t[i] == u[2 * i] + u[2 * i + 1] * TWO32
      {
        assert t[i] == a[i + 1] && u[2 * i] == d[2 * (i + 1)];
      }
      HalvesValue(t, u);
      Pow2Table();
      assert a[0] == d[2 * 0] + d[2 * 0 + 1] * TWO32;
      HalvesAlgebra(d[0], d[1], Digits(32, u));
    }
  }

  lemma HalvesAlgebra(x: nat, y: nat, v: nat)
    ensures x + TWO32 * (y + TWO32 * v) == (x + y * TWO32) + TWO64 * v
  {
  }

  /** A limb array split into half-limb digits. */
  method Split(a: seq<u64>) returns (d: array<u32>)
    ensures fresh(d) && d.Length == 2 * |a| && Digits(32, d[..]) == Value(a)
  {
    d := new u32[2 * |a|](_ => 0);
    for i := 0 to |a|
      invariant forall j :: 0 <= j < i ==> a[j] == d[2 * j] + d[2 * j + 1] * TWO32
    {
      d[2 * i] := a[i] % TWO32;
      d[2 * i + 1] := a[i] / TWO32;
    }
    HalvesValue(a, d[..]);
  }

  /** A digit product plus a digit plus a carry fits in a word. */
  lemma DigitFits(x: u32, y: u32, z: u32, carry: u32)
    ensures x * y + z + carry < TWO64
    ensures x * y >= 0
  {
    MulMono(x, TWO32 - 1, y);
    MulMono(0, x, y);
  }

  /** What one inner step adds: the digit written, the carry passed on. */
  lemma RowStep(v: int, v': int, total: int, x: nat, y: nat, z: nat, carry: nat, current: nat, low: nat,
                pi: nat, pj: nat, p: nat)
    requires current == x * y + z + carry && p == pi * pj
    requires v' == v + (current % TWO32 - z) * p
    requires v + carry * p == total + x * low * pi
    ensures v' + current / TWO32 * (TWO32 * p) == total + x * (low + y * pj) * pi
  {
    var c, r := current / TWO32, current % TWO32;
    assert current == c * TWO32 + r;
    assert (r - z) * p + c * (TWO32 * p) == (r - z + c * TWO32) * p;
    assert (x * y + carry) * p == x * y * p + carry * p;
    assert x * (low + y * pj) * pi == x * low * pi + x * y * (pi * pj) by {
      assert x * (low + y * pj) == x * low + x * y * pj;
      assert (x * low + x * y * pj) * pi == x * low * pi + x * y * pj * pi;
      Assoc(x * y, pj, pi);
    }
  }

  lemma NextDigitPower(i: nat)
    ensures Pow2(32 * (i + 1)) == TWO32 * Pow2(32 * i)
  {
    Pow2Table();
    Pow2Add(32, 32 * i);
  }

  /** The inner loop of `multiply`: adds `x` times `bd`, moved up by `i` digits, leaving a carry for
      digit `i + |bd|`. */
  method AddRow(out: array<u32>, x: u32, bd: array<u32>, i: nat) returns (carry: u32)
    requires out != bd && i + bd.Length <= out.Length
    modifies out
    ensures Digits(32, out[..]) + carry * Pow2(32 * (i + bd.Length))
         == old(Digits(32, out[..])) + x * Digits(32, bd[..]) * Pow2(32 * i)
  {
    ghost var total := Digits(32, out[..]);
    carry := 0;
    for j := 0 to bd.Length
      invariant Digits(32, out[..]) + carry * Pow2(32 * (i + j))
             == total + x * Digits(32, bd[..j]) * Pow2(32 * i)
    {
      DigitFits(x, bd[j], out[i + j], carry);
      var current: u64 := x * bd[j] + out[i + j] + carry;
      var digit: u32 := current % TWO32;
      ghost var before := out[..];
      DigitsUpdate(32, before, i + j, digit);
      DigitsPrefix(32, bd[..], j);
      assert bd[..][..j + 1] == bd[..j + 1] && bd[..][..j] == bd[..j];
      Pow2Add(32 * i, 32 * j);
      NextDigitPower(i + j);
      RowStep(Digits(32, before), Digits(32, before[i + j := digit]), total, x, bd[j], out[i + j], carry,
              current, Digits(32, bd[..j]), Pow2(32 * i), Pow2(32 * j), Pow2(32 * (i + j)));
      out[i + j] := digit;
      assert out[..] == before[i + j := digit];
      carry := current / TWO32;
    }
    assert bd[..bd.Length] == bd[..];
  }

  lemma CarryUp(v: int, v': int, z: nat, carry: nat, current: nat, p: nat)
    requires current == z + carry && v' == v + (current % TWO32 - z) * p
    ensures v' + current / TWO32 * (TWO32 * p) == v + carry * p
  {
    RowStep(v, v', v + carry * p, 0, 0, z, carry, current, 0, 1, p, p);
  }

  /** The carry of a row, rippled up. A total that fits leaves none over. */
  method Ripple(out: array<u32>, carry0: u32, k0: nat)
    requires k0 <= out.Length
    requires Digits(32, out[..]) + carry0 * Pow2(32 * k0) < Pow2(32 * out.Length)
    modifies out
    ensures Digits(32, out[..]) == old(Digits(32, out[..])) + carry0 * Pow2(32 * k0)
  {
    ghost var total := Digits(32, out[..]) + carry0 * Pow2(32 * k0);
    var carry: u32, k: nat := carry0, k0;
    while carry != 0 && k < out.Length
      invariant k <= out.Length
      invariant Digits(32, out[..]) + carry * Pow2(32 * k) == total
      decreases out.Length - k
    {
      var current: u64 := out[k] + carry;
      var digit: u32 := current % TWO32;
      ghost var before := out[..];
      DigitsUpdate(32, before, k, digit);
      NextDigitPower(k);
      CarryUp(Digits(32, before), Digits(32, before[k := digit]), out[k], carry, current, Pow2(32 * k));
      out[k] := digit;
      assert out[..] == before[k := digit];
      k := k + 1;
      carry := current / TWO32;
    }
    if k == out.Length {
      NoCarry(Digits(32, out[..]), carry, Pow2(32 * k));
    }
  }

  lemma NoCarry(v: nat, carry: nat, p: nat)
    requires v + carry * p < p
    ensures carry == 0
  {
    if carry >= 1 {
      MulMono(1, carry, p);
    }
  }

  /** A partial product fits in all the digits. */
  lemma PartialFits(ad: seq<u32>, bd: seq<u32>, i: nat)
    requires i <= |ad|
    ensures Digits(32, ad[..i]) * Digits(32, bd) < Pow2(32 * (|ad| + |bd|))
  {
    Pow2Table();
    DigitsBound(32, ad[..i]);
    DigitsBound(32, bd);
    Pow2Mono(32 * i, 32 * |ad|);
    Pow2Add(32 * |ad|, 32 * |bd|);
    ProductBelow(Digits(32, ad[..i]), Digits(32, bd), Pow2(32 * |ad|), Pow2(32 * |bd|));
  }

  lemma ProductBelow(x: nat, y: nat, p: nat, q: nat)
    requires x < p && y < q
    ensures 0 <= x * y < p * q
  {
    MulMono(x, p, y);
    MulStrict(y, q, p);
    MulMono(0, x, y);
  }

  lemma {:induction false} ZeroDigits(k: nat, s: seq<nat>)
    requires forall i :: 0 <= i < |s| ==> s[i] == 0
    ensures Digits(k, s) == 0
  {
    if s != [] {
      ZeroDigits(k, s[1..]);
    }
  }

  /** `multiply`: the schoolbook product in base 2^32, exact for all lengths. */
  method Multiply(a: seq<u64>, b: seq<u64>) returns (r: seq<u64>)
    ensures |r| == |a| + |b| && Value(r) == Value(a) * Value(b)
  {
    var ad := Split(a);
    var bd := Split(b);
    var out := new u32[2 * (|a| + |b|)](_ => 0);
    ZeroDigits(32, out[..]);
    for i := 0 to ad.Length
      invariant Digits(32, ad[..]) == Value(a) && Digits(32, bd[..]) == Value(b)
      invariant Digits(32, out[..]) == Digits(32, ad[..i]) * Value(b)
    {
      PartialFits(ad[..], bd[..], i + 1);
      NextPartial(ad[..], i, Value(b));
      assert ad[..][..i + 1] == ad[..i + 1] && ad[..][..i] == ad[..i];
      var carry := AddRow(out, ad[i], bd, i);
      Ripple(out, carry, i + bd.Length);
    }
    assert ad[..ad.Length] == ad[..];
    r := Join(out, |a| + |b|);
  }

  lemma NextPartial(ad: seq<u32>, i: nat, vb: nat)
    requires i < |ad|
    ensures Digits(32, ad[..i + 1]) * vb == Digits(32, ad[..i]) * vb + ad[i] * vb * Pow2(32 * i)
  {
    DigitsPrefix(32, ad, i);
    Distribute(Digits(32, ad[..i]), ad[i] * Pow2(32 * i), vb);
    Assoc(ad[i], Pow2(32 * i), vb);
    Assoc(ad[i], vb, Pow2(32 * i));
  }

  /** Digits joined back into limbs. */
  method Join(out: array<u32>, n: nat) returns (r: seq<u64>)
    requires out.Length == 2 * n
    ensures |r| == n && Value(r) == Digits(32, out[..])
  {
    r := [];
    for i := 0 to n
      invariant |r| == i
      invariant forall j :: 0 <= j < i ==> r[j] == out[2 * j] + out[2 * j + 1] * TWO32
    {
      r := r + [out[2 * i] + out[2 * i + 1] * TWO32];
    }
    HalvesValue(r, out[..]);
  }
}
