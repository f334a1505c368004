/** Machine words as natural numbers: bitwise operators defined bit by bit, the
    align-down mask idiom `x & ~(2^k - 1)`, and the number of set bits. */
module Bits {

  function Pow2(k: nat): (p: nat)
    ensures p > 0
  {
    if k == 0 then 1 else 2 * Pow2(k - 1)
  }

  /** Bit `i` of `x`, the least significant bit being bit 0. */
  function Bit(x: nat, i: nat): nat {
    if i == 0 then x % 2 else Bit(x / 2, i - 1)
  }

  function And(a: nat, b: nat): nat {
    if a == 0 || b == 0 then 0
    else (if a % 2 == 1 && b % 2 == 1 then 1 else 0) + 2 * And(a / 2, b / 2)
  }

  function Or(a: nat, b: nat): nat
    decreases a + b
  {
    if a == 0 then b else if b == 0 then a
    else (if a % 2 == 1 || b % 2 == 1 then 1 else 0) + 2 * Or(a / 2, b / 2)
  }

  /** `~x` in a word of `w` bits. */
  function Complement(x: nat, w: nat): nat
    requires x < Pow2(w)
  {
    Pow2(w) - 1 - x
  }

  /** The number of set bits. */
  function BitCount(x: nat): nat {
    if x == 0 then 0 else x % 2 + BitCount(x / 2)
  }

  /** The position of the lowest set bit. */
  function LowestSet(x: nat): nat
    requires x > 0
  {
    if x % 2 == 1 then 0 else 1 + LowestSet(x / 2)
  }

  /** floor(log2 x). */
  function Log2(x: nat): nat
    requires x > 0
  {
    if x == 1 then 0 else 1 + Log2(x / 2)
  }

  /** Bit `i` is the binary digit of weight 2^i. */
  lemma {:induction false} BitIsDigit(x: nat, i: nat)
    ensures Bit(x, i) == x / Pow2(i) % 2
  {
    if i > 0 {
      BitIsDigit(x / 2, i - 1);
      QuotientOfHalf(x, Pow2(i - 1));
    }
  }

  lemma QuotientOfHalf(x: nat, m: nat)
    requires m > 0
    ensures x / 2 / m == x / (2 * m)
  {
    var q, r := x / 2 / m, (x / 2) % m;
    assert x == (2 * m) * q + (2 * r + x % 2) by { assert x / 2 == m * q + r; }
    EuclidUnique(x, 2 * m, q, 2 * r + x % 2);
  }

  lemma {:induction false} Log2Bounds(x: nat)
    requires x > 0
    ensures Pow2(Log2(x)) <= x < 2 * Pow2(Log2(x))
  {
    if x > 1 { Log2Bounds(x / 2); }
  }

  lemma {:induction false} BitOfZero(i: nat)
    ensures Bit(0, i) == 0
  {
    if i > 0 { BitOfZero(i - 1); }
  }

  /** Pow2 values used as word sizes. */
  lemma Pow2Values()
    ensures Pow2(2) == 4 && Pow2(3) == 8 && Pow2(8) == 0x100 && Pow2(16) == 0x1_0000
    ensures Pow2(24) == 0x100_0000 && Pow2(32) == 0x1_0000_0000
    ensures Pow2(64) == 0x1_0000_0000_0000_0000
  {
    assert Pow2(8) == 0x100;
    assert Pow2(16) == 0x1_0000;
    assert Pow2(24) == 0x100_0000;
    assert Pow2(32) == 0x1_0000_0000;
    assert Pow2(40) == 0x100_0000_0000;
    assert Pow2(48) == 0x1_0000_0000_0000;
    assert Pow2(56) == 0x100_0000_0000_0000;
  }

  lemma {:induction false} BitIsBinary(x: nat, i: nat)
    ensures Bit(x, i) == 0 || Bit(x, i) == 1
  {
    if i > 0 { BitIsBinary(x / 2, i - 1); }
  }

  /** `And` is conjunction on every bit. */
  lemma {:induction false} AndBit(a: nat, b: nat, i: nat)
    ensures Bit(And(a, b), i) == if Bit(a, i) == 1 && Bit(b, i) == 1 then 1 else 0
  {
    if a == 0 || b == 0 {
      BitOfZero(i);
    } else if i > 0 {
      assert And(a, b) / 2 == And(a / 2, b / 2);
      AndBit(a / 2, b / 2, i - 1);
    }
  }

  /** `Or` is disjunction on every bit. */
  lemma {:induction false} OrBit(a: nat, b: nat, i: nat)
    ensures Bit(Or(a, b), i) == if Bit(a, i) == 1 || Bit(b, i) == 1 then 1 else 0
    decreases i
  {
    if a == 0 || b == 0 {
      BitOfZero(i);
      BitIsBinary(a, i);
      BitIsBinary(b, i);
    } else {
      OrHalves(a, b);
      if i > 0 { OrBit(a / 2, b / 2, i - 1); }
    }
  }

  lemma OrHalves(a: nat, b: nat)
    requires a > 0 && b > 0
    ensures Or(a, b) / 2 == Or(a / 2, b / 2)
    ensures Or(a, b) % 2 == if a % 2 == 1 || b % 2 == 1 then 1 else 0
  {
  }

  /** Words that agree on every bit are equal. */
  lemma {:induction false} BitsDetermine(a: nat, b: nat)
    requires forall i: nat :: Bit(a, i) == Bit(b, i)
    ensures a == b
  {
    assert Bit(a, 0) == Bit(b, 0);
    if a != 0 || b != 0 {
      forall i: nat ensures Bit(a / 2, i) == Bit(b / 2, i) {
        assert Bit(a, i + 1) == Bit(b, i + 1);
      }
      BitsDetermine(a / 2, b / 2);
    }
  }

  lemma {:induction false} AndAtMost(a: nat, b: nat)
    ensures And(a, b) <= a && And(a, b) <= b
  {
    if a > 0 && b > 0 {
      AndAtMost(a / 2, b / 2);
    }
  }

  /** Splitting off the low bit of a remainder. */
  lemma ModDouble(x: nat, m: nat)
    requires m > 0
    ensures x % (2 * m) == 2 * ((x / 2) % m) + x % 2
  {
    var q, r := x / 2 / m, (x / 2) % m;
    assert x == (2 * m) * q + (2 * r + x % 2) by { assert x / 2 == m * q + r; }
    EuclidUnique(x, 2 * m, q, 2 * r + x % 2);
  }

  lemma QuotientsAgree(d: nat, q: int, r: nat, q': int, r': nat)
    requires d > 0 && r < d && r' < d
    requires d * q + r == d * q' + r'
    ensures q == q' && r == r'
  {
    if q > q' {
      MulAtLeast(d, q - q');
    } else if q < q' {
      MulAtLeast(d, q' - q);
    }
  }

  lemma {:induction false} MulAtLeast(d: nat, k: nat)
    requires k > 0
    ensures d * k >= d
  {
    if k > 1 {
      MulAtLeast(d, k - 1);
      assert d * k == d * (k - 1) + d;
    }
  }

  lemma MulDouble(a: nat, b: nat)
    ensures a * (2 * b) == 2 * (a * b)
  {
  }

  lemma MulAdd(a: nat, b: nat, c: nat)
    ensures a * (b + c) == a * b + a * c
  {
  }

  /** Rows of `a` cells: row `b` ends where a later row `c` starts, or before. */
  lemma RowsInOrder(a: nat, b: nat, c: nat)
    requires b < c
    ensures a * b + a <= a * c
  {
    MulAdd(a, b, c - b);
    MulAtLeast(a, c - b);
  }

  /** A quotient and a remainder in range are the quotient and the remainder. */
  lemma EuclidUnique(x: int, d: nat, q: int, r: nat)
    requires d > 0 && x == d * q + r && r < d
    ensures x / d == q && x % d == r
  {
    assert x == d * (x / d) + x % d;
    QuotientsAgree(d, q, r, x / d, x % d);
  }

  lemma ModSmall(x: nat, m: nat)
    requires x < m
    ensures x % m == x
  {
  }

  lemma {:induction false} AndOnes(x: nat, w: nat)
    requires x < Pow2(w)
    ensures And(x, Pow2(w) - 1) == x
  {
    if x > 0 { AndOnes(x / 2, w - 1); }
  }

  /** `x & ~(2^k - 1)` in a `w`-bit word rounds `x` down to a multiple of `2^k`. */
  lemma {:induction false} MaskAlignsDown(x: nat, k: nat, w: nat)
    requires k <= w && x < Pow2(w) && Pow2(k) <= Pow2(w)
    ensures And(x, Complement(Pow2(k) - 1, w)) == x - x % Pow2(k)
  {
    if k == 0 {
      AndOnes(x, w);
    } else {
      ModDouble(x, Pow2(k - 1));
      MaskAlignsDown(x / 2, k - 1, w - 1);
      var mask := Complement(Pow2(k) - 1, w);
      assert mask / 2 == Complement(Pow2(k - 1) - 1, w - 1);
      if mask == 0 { assert x / 2 < Pow2(w - 1); }
    }
  }

  lemma {:induction false} Pow2Monotone(k: nat, w: nat)
    requires k <= w
    ensures Pow2(k) <= Pow2(w)
  {
    if k < w { Pow2Monotone(k, w - 1); }
  }

  /** Multiples of `p` that differ, differ by at least `p`. */
  lemma MultiplesApart(p: nat, a: nat, b: nat)
    requires p > 0 && a % p == 0 && b % p == 0 && a < b
    ensures a + p <= b
  {
    assert a == p * (a / p) && b == p * (b / p);
    var i, j := a / p, b / p;
    if i < j { RowsInOrder(p, i, j); } else { MulAdd(p, j, i - j); }
  }

  lemma AlignedIsMultiple(s: nat, p: nat)
    requires p > 0
    ensures s % p <= s && (s - s % p) % p == 0
  {
    assert s == p * (s / p) + s % p;
    EuclidUnique(s - s % p, p, s / p, 0);
  }

  lemma {:induction false} AndSelf(x: nat)
    ensures And(x, x) == x
  {
    if x > 0 { AndSelf(x / 2); }
  }

  /** `x & (x - 1)` clears the lowest set bit and nothing else. */
  lemma {:induction false} AndPredecessor(x: nat)
    requires x > 0
    ensures And(x, x - 1) == x - Pow2(LowestSet(x))
    ensures BitCount(And(x, x - 1)) == BitCount(x) - 1
    ensures And(x, x - 1) < x
  {
    if x % 2 == 1 {
      AndSelf(x / 2);
      assert (x - 1) / 2 == x / 2;
      assert And(x, x - 1) == x - 1;
      if x > 1 { assert BitCount(x - 1) == BitCount(x / 2); }
    } else {
      AndPredecessor(x / 2);
      assert (x - 1) / 2 == x / 2 - 1 && (x - 1) % 2 == 1;
      var r := And(x / 2, x / 2 - 1);
      assert And(x, x - 1) == 2 * r;
      if r > 0 { assert BitCount(2 * r) == BitCount(r); }
    }
  }

  /** The lowest set bit is set and no lower bit is. */
  lemma {:induction false} LowestSetBit(x: nat, i: nat)
    requires x > 0 && i <= LowestSet(x)
    ensures Bit(x, i) == if i == LowestSet(x) then 1 else 0
  {
    if x % 2 == 0 && i > 0 { LowestSetBit(x / 2, i - 1); }
  }

  /** `x << k`. */
  function ShiftLeft(x: nat, k: nat): nat {
    if k == 0 then x else 2 * ShiftLeft(x, k - 1)
  }

  lemma {:induction false} ShiftLeftIsProduct(x: nat, k: nat)
    ensures ShiftLeft(x, k) == x * Pow2(k)
  {
    if k > 0 {
      ShiftLeftIsProduct(x, k - 1);
      MulDouble(x, Pow2(k - 1));
    }
  }

  lemma {:induction false} BitCountShifted(hi: nat, lo: nat, k: nat)
    requires lo < Pow2(k)
    ensures BitCount(ShiftLeft(hi, k) + lo) == BitCount(hi) + BitCount(lo)
  {
    if k > 0 {
      BitCountShifted(hi, lo / 2, k - 1);
      BitCountDouble(ShiftLeft(hi, k - 1), lo);
    }
  }

  /** A set-bit count over a split word is the sum over its halves. */
  lemma BitCountSplit(hi: nat, lo: nat, k: nat)
    requires lo < Pow2(k)
    ensures BitCount(hi * Pow2(k) + lo) == BitCount(hi) + BitCount(lo)
  {
    ShiftLeftIsProduct(hi, k);
    BitCountShifted(hi, lo, k);
  }

  lemma BitCountDouble(h: nat, lo: nat)
    ensures BitCount(2 * h + lo) == BitCount(h + lo / 2) + lo % 2
    ensures BitCount(lo) == BitCount(lo / 2) + lo % 2
  {
  }

  /** Inclusion and exclusion on set bits. */
  lemma {:induction false} BitCountAndOr(a: nat, b: nat)
    ensures BitCount(Or(a, b)) + BitCount(And(a, b)) == BitCount(a) + BitCount(b)
    decreases a + b
  {
    if a > 0 && b > 0 {
      BitCountAndOr(a / 2, b / 2);
      var o, n := Or(a, b), And(a, b);
      assert o / 2 == Or(a / 2, b / 2) && n / 2 == And(a / 2, b / 2);
      assert o % 2 + n % 2 == a % 2 + b % 2;
      assert BitCount(o) == o % 2 + BitCount(o / 2);
      assert BitCount(n) == n % 2 + BitCount(n / 2);
    }
  }

  lemma {:induction false} BitCountBound(x: nat, w: nat)
    requires x < Pow2(w)
    ensures BitCount(x) <= w
  {
    if x > 0 { BitCountBound(x / 2, w - 1); }
  }

  /** One set bit means a power of two. */
  lemma {:induction false} SingleBit(x: nat)
    requires x > 0
    ensures And(x, x - 1) == 0 <==> x == Pow2(LowestSet(x))
    ensures And(x, x - 1) == 0 <==> BitCount(x) == 1
  {
    AndPredecessor(x);
    var r := And(x, x - 1);
    if r > 0 { BitCountPositive(r); }
  }

  lemma {:induction false} BitCountPositive(x: nat)
    requires x > 0
    ensures BitCount(x) > 0
  {
    if x % 2 == 0 { BitCountPositive(x / 2); }
  }
}
