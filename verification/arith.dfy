/**
  Unbounded integer arithmetic shared by the number-theory modules: powers,
  powers of two, Euclidean remainders and divisibility, with the algebra the
  proofs about modular exponentiation and primality lean on.
*/
module Arith {

  /** `x ** e`. */
  function Pow(x: int, e: nat): int {
    if e == 0 then 1 else x * Pow(x, e - 1)
  }

  /** `1n << e`. */
  function Pow2(e: nat): (r: nat)
    ensures r >= 1
  {
    if e == 0 then 1 else 2 * Pow2(e - 1)
  }

  /** `d` divides `x`, for a positive `d`. */
  predicate Divides(d: int, x: int)
    requires d >= 1
  {
    x % d == 0
  }

  /** A prime: at least two, and no divisor strictly between one and itself. */
  ghost predicate Prime(n: int) {
    n >= 2 && forall d :: 2 <= d < n ==> !Divides(d, n)
  }

  // ---------------------------------------------------------------------------
  // Powers

  lemma {:induction false} PowNonNegative(x: int, e: nat)
    requires x >= 0
    ensures Pow(x, e) >= 0
    decreases e
  {
    if e > 0 {
      PowNonNegative(x, e - 1);
    }
  }

  lemma {:induction false} PowAdd(x: int, a: nat, b: nat)
    ensures Pow(x, a + b) == Pow(x, a) * Pow(x, b)
    decreases a
  {
    if a > 0 {
      PowAdd(x, a - 1, b);
      assert Pow(x, a + b) == x * Pow(x, a - 1 + b);
      assert x * (Pow(x, a - 1) * Pow(x, b)) == (x * Pow(x, a - 1)) * Pow(x, b);
    }
  }

  lemma {:induction false} PowOfProduct(x: int, y: int, e: nat)
    ensures Pow(x * y, e) == Pow(x, e) * Pow(y, e)
    decreases e
  {
    if e > 0 {
      PowOfProduct(x, y, e - 1);
      calc {
        Pow(x * y, e);
        (x * y) * (Pow(x, e - 1) * Pow(y, e - 1));
        (x * Pow(x, e - 1)) * (y * Pow(y, e - 1));
      }
    }
  }

  lemma {:induction false} PowMul(x: int, a: nat, b: nat)
    ensures Pow(x, a * b) == Pow(Pow(x, a), b)
    decreases b
  {
    if b > 0 {
      PowMul(x, a, b - 1);
      assert a * b == a + a * (b - 1);
      PowAdd(x, a, a * (b - 1));
    }
  }

  /** Squaring the base halves the exponent. */
  lemma PowSquare(x: int, e: nat)
    ensures Pow(x, 2 * e) == Pow(x * x, e)
    ensures Pow(x, 2 * e + 1) == x * Pow(x * x, e)
  {
    assert Pow(x, 1) == x;
    assert Pow(x, 2) == x * x;
    PowMul(x, 2, e);
    assert Pow(x, 2 * e + 1) == x * Pow(x, 2 * e);
  }

  lemma {:induction false} Pow2Add(a: nat, b: nat)
    ensures Pow2(a + b) == Pow2(a) * Pow2(b)
    decreases a
  {
    if a > 0 {
      Pow2Add(a - 1, b);
    }
  }

  lemma Pow2Monotone(a: nat, b: nat)
    requires a <= b
    ensures Pow2(a) <= Pow2(b)
  {
    Pow2Add(a, b - a);
  }

  lemma {:induction false} Pow2IsPow(e: nat)
    ensures Pow2(e) == Pow(2, e)
    decreases e
  {
    if e > 0 {
      Pow2IsPow(e - 1);
    }
  }

  // ---------------------------------------------------------------------------
  // Euclidean remainders

  lemma MulPositive(a: int, b: int)
    requires a >= 1 && b >= 1
    ensures a * b >= b
  {
  }

  /** Multiplying by a non-negative number keeps order. */
  lemma MulLe(a: int, b: int, c: int)
    requires a <= b && c >= 0
    ensures a * c <= b * c
  {
    assert b * c - a * c == (b - a) * c;
  }

  /** Multiplying by a positive number keeps strict order. */
  lemma MulLt(a: int, b: int, c: int)
    requires a < b && c >= 1
    ensures a * c < b * c
  {
    MulPositive(b - a, c);
    assert b * c - a * c == (b - a) * c;
  }

  /** The quotient and remainder of Euclidean division are unique. */
  lemma DivModUnique(x: int, m: int, q: int, r: int)
    requires m >= 1 && 0 <= r < m && x == q * m + r
    ensures x / m == q && x % m == r
  {
    var q0, r0 := x / m, x % m;
    assert x == q0 * m + r0;
    assert (q - q0) * m == r0 - r;
    if q - q0 >= 1 {
      MulPositive(q - q0, m);
    } else if q0 - q >= 1 {
      MulPositive(q0 - q, m);
    }
  }

  lemma ModAddMultiple(x: int, k: int, m: int)
    requires m >= 1
    ensures (x + k * m) % m == x % m
  {
    DivModUnique(x + k * m, m, x / m + k, x % m);
  }

  lemma ModMulLeft(a: int, b: int, m: int)
    requires m >= 1
    ensures (a * b) % m == ((a % m) * b) % m
  {
    var q := a / m;
    assert a == q * m + a % m;
    assert a * b == (a % m) * b + (q * b) * m;
    ModAddMultiple((a % m) * b, q * b, m);
  }

  lemma ModMul(a: int, b: int, m: int)
    requires m >= 1
    ensures (a * b) % m == ((a % m) * (b % m)) % m
  {
    ModMulLeft(a, b, m);
    ModMulLeft(b, a % m, m);
    assert (a % m) * b == b * (a % m);
    assert (b % m) * (a % m) == (a % m) * (b % m);
  }

  lemma ModMod(x: int, m: int)
    requires m >= 1
    ensures (x % m) % m == x % m
  {
    DivModUnique(x % m, m, 0, x % m);
  }

  lemma ModSmall(x: int, m: int)
    requires 0 <= x < m
    ensures x % m == x
  {
    DivModUnique(x, m, 0, x);
  }

  /** Reducing the base first does not change a modular power. */
  lemma {:induction false} PowMod(x: int, e: nat, m: int)
    requires m >= 1
    ensures Pow(x % m, e) % m == Pow(x, e) % m
    decreases e
  {
    if e > 0 {
      PowMod(x, e - 1, m);
      calc {
        Pow(x % m, e) % m;
        ((x % m) * Pow(x % m, e - 1)) % m;
        { ModMul(x % m, Pow(x % m, e - 1), m); }
        (((x % m) % m) * (Pow(x % m, e - 1) % m)) % m;
        { ModMod(x, m); }
        ((x % m) * (Pow(x, e - 1) % m)) % m;
        { ModMul(x, Pow(x, e - 1), m); }
        (x * Pow(x, e - 1)) % m;
      }
    }
  }

  // ---------------------------------------------------------------------------
  // Divisibility

  lemma DividesLinear(d: int, x: int, y: int, k: int)
    requires d >= 1 && Divides(d, x) && Divides(d, y)
    ensures Divides(d, x + k * y)
  {
    var i, j := x / d, y / d;
    assert x == i * d && y == j * d;
    assert x + k * y == (i + k * j) * d;
    ModAddMultiple(0, i + k * j, d);
  }

  lemma DividesProduct(d: int, x: int, k: int)
    requires d >= 1 && Divides(d, x)
    ensures Divides(d, k * x)
  {
    DividesLinear(d, 0, x, k);
  }

  lemma DividesSelf(d: int, k: int)
    requires d >= 1
    ensures Divides(d, k * d)
  {
    ModAddMultiple(0, k, d);
  }

  /** A positive multiple is at least the divisor. */
  lemma DivisorBound(d: int, x: int)
    requires d >= 1 && x >= 1 && Divides(d, x)
    ensures d <= x
  {
    var q := x / d;
    assert x == q * d;
    if q >= 1 {
      MulPositive(q, d);
    }
  }

  /** A lower bound on a quotient from a lower bound on the dividend. */
  lemma DivLowerBound(n: nat, m: nat, c: nat)
    requires m >= 1 && c * m <= n
    ensures n / m >= c
  {
    var q := n / m;
    assert n == q * m + n % m;
    if q < c {
      MulPositive(c - q, m);
    }
  }

  /** An upper bound on a quotient from an upper bound on the dividend. */
  lemma DivUpperBound(n: nat, m: nat, c: nat)
    requires m >= 1 && n < c * m
    ensures n / m < c
  {
    var q := n / m;
    assert n == q * m + n % m;
  }
}
