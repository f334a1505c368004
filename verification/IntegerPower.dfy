/** The `_Pow_int` template: square and multiply for any type whose product is
    associative and has a unit, with the exact number of products it performs. */
module IntegerPower {
  import opened Bits
  import opened Bytes

  type Int32 = y: int | -0x8000_0000 <= y < 0x8000_0000

  /** What the template needs of `_Ty`: an associative product with unit `_Ty(1)`. */
  ghost predicate Monoid<T(!new)>(mul: (T, T) -> T, one: T) {
    && (forall a :: Unit(mul, one, a))
    && (forall a, b, c :: Associates(mul, a, b, c))
  }

  ghost predicate Unit<T>(mul: (T, T) -> T, one: T, a: T) {
    mul(one, a) == a && mul(a, one) == a
  }

  ghost predicate Associates<T>(mul: (T, T) -> T, a: T, b: T, c: T) {
    mul(mul(a, b), c) == mul(a, mul(b, c))
  }

  ghost function Power<T(!new)>(mul: (T, T) -> T, one: T, x: T, n: nat): T {
    if n == 0 then one else mul(Power(mul, one, x, n - 1), x)
  }

  function Abs(y: int): nat {
    if y < 0 then -y else y
  }

  lemma {:induction false} PowerAdds<T(!new)>(mul: (T, T) -> T, one: T, x: T, m: nat, n: nat)
    requires Monoid(mul, one)
    ensures Power(mul, one, x, m + n) == mul(Power(mul, one, x, m), Power(mul, one, x, n))
  {
    if n > 0 {
      PowerAdds(mul, one, x, m, n - 1);
      assert m + n - 1 == m + (n - 1);
      assert Associates(mul, Power(mul, one, x, m), Power(mul, one, x, n - 1), x);
    } else {
      assert Unit(mul, one, Power(mul, one, x, m));
    }
  }

  /** A power of the square has twice the exponent. */
  lemma {:induction false} PowerOfSquare<T(!new)>(mul: (T, T) -> T, one: T, x: T, n: nat)
    requires Monoid(mul, one)
    ensures Power(mul, one, mul(x, x), n) == Power(mul, one, x, 2 * n)
  {
    if n > 0 {
      PowerOfSquare(mul, one, x, n - 1);
      var p := Power(mul, one, x, 2 * (n - 1));
      assert Power(mul, one, x, 2 * n - 1) == mul(p, x);
      assert Power(mul, one, x, 2 * n) == mul(mul(p, x), x);
      assert Associates(mul, p, x, x);
    }
  }

  /** What one round of the loop keeps: `z * base^n`. */
  lemma RoundKeeps<T(!new)>(mul: (T, T) -> T, one: T, z: T, base: T, n: nat)
    requires Monoid(mul, one)
    ensures var z' := if n % 2 != 0 then mul(z, base) else z;
            mul(z, Power(mul, one, base, n)) == mul(z', Power(mul, one, mul(base, base), n / 2))
  {
    PowerOfSquare(mul, one, base, n / 2);
    if n % 2 != 0 {
      PowerAdds(mul, one, base, 1, 2 * (n / 2));
      assert Unit(mul, one, base);
      assert Power(mul, one, base, 1) == mul(Power(mul, one, base, 0), base) == base;
      assert Associates(mul, z, base, Power(mul, one, base, 2 * (n / 2)));
    }
  }

  lemma Exponent0<T(!new)>(mul: (T, T) -> T, one: T, z: T, base: T, p: T)
    requires Monoid(mul, one)
    ensures mul(z, Power(mul, one, base, 0)) == z && mul(one, p) == p
  {
    assert Unit(mul, one, z) && Unit(mul, one, p);
  }

  /** The loop. `-y` is taken in 32 bits, so the least `int` is raised to 2^31. */
  method PowInt<T(!new)>(x: T, y: Int32, mul: (T, T) -> T, div: (T, T) --> T, one: T)
    returns (r: T, ghost squarings: nat, ghost accumulations: nat)
    requires Monoid(mul, one)
    requires y < 0 ==> div.requires(one, Power(mul, one, x, Abs(y)))
    ensures r == if y < 0 then div(one, Power(mul, one, x, Abs(y))) else Power(mul, one, x, y)
    ensures accumulations == BitCount(Abs(y))
    ensures squarings == if y == 0 then 0 else Log2(Abs(y))
  {
    var n: nat := if y >= 0 then y else Abs(y) % 0x1_0000_0000;
    ghost var whole := n;
    ghost var target := Power(mul, one, x, n);
    var base, z := x, one;
    squarings, accumulations := 0, 0;
    Exponent0(mul, one, z, base, target);
    while true
      invariant mul(z, Power(mul, one, base, n)) == target
      invariant accumulations + BitCount(n) == BitCount(whole)
      invariant if whole == 0 then n == 0 && squarings == 0
                else n > 0 && squarings + Log2(n) == Log2(whole)
      decreases n
    {
      RoundKeeps(mul, one, z, base, n);
      if n % 2 != 0 {
        z := mul(z, base);
        accumulations := accumulations + 1;
      }
      n := n / 2;
      if n == 0 { break; }
      base := mul(base, base);
      squarings := squarings + 1;
    }
    Exponent0(mul, one, z, mul(base, base), target);
    r := if y < 0 then div(one, z) else z;
  }

  // ----- Unsigned words

  function WordProduct(a: nat, b: nat): Word {
    (a * b) % 0x1_0000_0000
  }

  const WordMul: (Word, Word) -> Word := (a, b) => WordProduct(a, b)

  function IntPow(x: nat, n: nat): nat {
    if n == 0 then 1 else IntPow(x, n - 1) * x
  }

  lemma ModAbsorbs(a: nat, b: nat, m: nat)
    requires m > 0
    ensures ((a % m) * b) % m == (a * b) % m
  {
    var q, r := a / m, a % m;
    assert a == m * q + r;
    var s, t := (r * b) / m, (r * b) % m;
    assert r * b == m * s + t;
    calc {
      a * b;
      (m * q + r) * b;
      m * q * b + r * b;
      m * (q * b) + m * s + t;
      m * (q * b + s) + t;
    }
    EuclidUnique(a * b, m, q * b + s, t);
  }

  lemma WordProductAssociative(a: nat, b: nat, c: nat)
    ensures WordProduct(WordProduct(a, b), c) == WordProduct(a, WordProduct(b, c))
  {
    var m := 0x1_0000_0000;
    ModAbsorbs(a * b, c, m);
    ModAbsorbs(b * c, a, m);
    assert (a * b) * c == (b * c) * a;
    assert ((b * c) % m) * a == a * ((b * c) % m);
  }

  lemma WordsAreAMonoid()
    ensures Monoid(WordMul, 1)
  {
    forall a: Word, b: Word, c: Word ensures Associates(WordMul, a, b, c) {
      WordProductAssociative(a, b, c);
    }
  }

  /** On unsigned words the template computes `x^n` modulo 2^32. */
  lemma {:induction false} WordPower(x: Word, n: nat)
    ensures Power(WordMul, 1, x, n) == IntPow(x, n) % 0x1_0000_0000
  {
    if n > 0 {
      WordPower(x, n - 1);
      ModAbsorbs(IntPow(x, n - 1), x, 0x1_0000_0000);
    }
  }

  // ----- Exact reals

  const RealMul: (real, real) -> real := (a, b) => a * b

  lemma RealsAreAMonoid()
    ensures Monoid(RealMul, 1.0)
  {
    forall a: real, b: real, c: real ensures Associates(RealMul, a, b, c) {
      assert (a * b) * c == a * (b * c);
    }
  }

  /** A negative exponent over the nonzero reals is the power of the inverse, and the
      division of the template is always defined. */
  lemma {:induction false} RealInversePower(x: real, n: nat)
    requires x != 0.0
    ensures Power(RealMul, 1.0, x, n) != 0.0
    ensures 1.0 / Power(RealMul, 1.0, x, n) == Power(RealMul, 1.0, 1.0 / x, n)
  {
    if n > 0 {
      RealInversePower(x, n - 1);
      var p := Power(RealMul, 1.0, x, n - 1);
      assert (1.0 / p) * (1.0 / x) == 1.0 / (p * x);
    }
  }
}
