/**
  Euclid's algorithm as a reference definition: the greatest common divisor, its
  Bezout coefficients, and Euclid's lemma for primes that the Fermat argument needs.
*/
module Euclid {
  import opened Arith

  /** The remainder sequence of Euclid's algorithm, run to a zero divisor. */
  function Gcd(a: nat, b: nat): nat
    decreases b
  {
    if b == 0 then a else Gcd(b, a % b)
  }

  /** `Gcd(a, b)` is a positive common divisor when one of the inputs is positive. */
  lemma {:induction false} GcdDivides(a: nat, b: nat)
    requires a > 0 || b > 0
    ensures Gcd(a, b) >= 1
    ensures Divides(Gcd(a, b), a) && Divides(Gcd(a, b), b)
    decreases b
  {
    if b == 0 {
      DividesSelf(a, 1);
      DividesSelf(a, 0);
    } else {
      GcdDivides(b, a % b);
      var g := Gcd(b, a % b);
      assert a == a % b + (a / b) * b;
      DividesLinear(g, a % b, b, a / b);
    }
  }

  /** Every common divisor divides `Gcd(a, b)`. */
  lemma {:induction false} GcdGreatest(a: nat, b: nat, c: int)
    requires c >= 1 && Divides(c, a) && Divides(c, b)
    ensures Divides(c, Gcd(a, b))
    decreases b
  {
    if b > 0 {
      assert a % b == a + (-(a / b)) * b;
      DividesLinear(c, a, b, -(a / b));
      GcdGreatest(b, a % b, c);
    }
  }

  /** Coefficients `x, y` with `x * a + y * b == Gcd(a, b)`. */
  function Bezout(a: nat, b: nat): (xy: (int, int))
    ensures xy.0 * a + xy.1 * b == Gcd(a, b)
    decreases b
  {
    if b == 0 then (1, 0)
    else
      var (x, y) := Bezout(b, a % b);
      BezoutStep(a, b, a / b, a % b, x, y);
      (y, x - y * (a / b))
  }

  /** Coefficients for `(b, a % b)` give coefficients for `(a, b)`. */
  lemma BezoutStep(a: int, b: int, q: int, r: int, x: int, y: int)
    requires a == q * b + r
    ensures y * a + (x - y * q) * b == x * b + y * r
  {
    calc {
      y * a + (x - y * q) * b;
      y * (q * b + r) + (x - y * q) * b;
      y * (q * b) + y * r + x * b - (y * q) * b;
      { assert y * (q * b) == (y * q) * b; }
      x * b + y * r;
    }
  }

  /** Euclid's lemma: a prime dividing a product divides one of the factors. */
  lemma EuclidLemma(p: int, a: int, b: int)
    requires Prime(p) && Divides(p, a * b)
    ensures Divides(p, a) || Divides(p, b)
  {
    if !Divides(p, a) {
      var r := a % p;
      PrimeCoprime(p, r);
      var (x, y) := Bezout(r, p);
      ModMulLeft(a, b, p);
      CoprimeCancel(p, r, b, x, y);
    }
  }

  /** A prime shares no divisor above one with a smaller positive number. */
  lemma PrimeCoprime(p: int, r: int)
    requires Prime(p) && 1 <= r < p
    ensures Gcd(r, p) == 1
  {
    GcdDivides(r, p);
    DivisorBound(Gcd(r, p), r);
  }

  /** With `x * r + y * p == 1`, p dividing `r * b` divides `b`. */
  lemma CoprimeCancel(p: int, r: int, b: int, x: int, y: int)
    requires p >= 1 && x * r + y * p == 1 && Divides(p, r * b)
    ensures Divides(p, b)
  {
    DividesProduct(p, r * b, x);
    DividesLinear(p, x * (r * b), p, y * b) by {
      DividesSelf(p, 1);
    }
    assert b == x * (r * b) + (y * b) * p by {
      assert b == (x * r + y * p) * b;
    }
  }
}
