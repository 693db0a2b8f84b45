/**
  Fermat's little theorem and the square roots of one modulo a prime: the two facts
  that make a prime pass every Miller–Rabin round. The route is the binomial theorem,
  the prime's divisibility of the inner binomial coefficients, and Euclid's lemma.
*/
module Fermat {
  import opened Arith
  import opened Euclid

  // ---------------------------------------------------------------------------
  // Binomial coefficients

  /** Pascal's triangle. */
  function Binom(n: nat, k: nat): nat {
    if k == 0 then 1
    else if n == 0 then 0
    else Binom(n - 1, k - 1) + Binom(n - 1, k)
  }

  lemma {:induction false} BinomAbove(n: nat, k: nat)
    requires k > n
    ensures Binom(n, k) == 0
    decreases n
  {
    if n > 0 {
      BinomAbove(n - 1, k - 1);
      BinomAbove(n - 1, k);
    }
  }

  lemma {:induction false} BinomDiagonal(n: nat)
    ensures Binom(n, n) == 1
    decreases n
  {
    if n > 0 {
      BinomDiagonal(n - 1);
      BinomAbove(n - 1, n);
    }
  }

  /** The absorption identity `k * C(n, k) == n * C(n - 1, k - 1)`. */
  lemma {:induction false} Absorption(n: nat, k: nat)
    requires n >= 1 && k >= 1
    ensures k * Binom(n, k) == n * Binom(n - 1, k - 1)
    decreases n
  {
    if n == 1 {
      if k >= 2 {
        assert Binom(0, k - 1) == 0 && Binom(0, k) == 0;
      }
    } else if k == 1 {
      Absorption(n - 1, 1);
      assert Binom(n - 2, 0) == 1;
    } else {
      Absorption(n - 1, k - 1);
      Absorption(n - 1, k);
      AbsorptionStep(n, k, Binom(n - 2, k - 2), Binom(n - 2, k - 1), Binom(n - 1, k - 1), Binom(n - 1, k));
    }
  }

  /** The algebra of one absorption step, over plain numbers. */
  lemma AbsorptionStep(n: int, k: int, a: int, b: int, c: int, d: int)
    requires c == a + b && (k - 1) * c == (n - 1) * a && k * d == (n - 1) * b
    ensures k * (c + d) == n * c
  {
    calc {
      k * (c + d);
      (k - 1) * c + c + k * d;
      (n - 1) * a + c + (n - 1) * b;
      (n - 1) * (a + b) + c;
      n * c;
    }
  }

  /** A prime divides every binomial coefficient strictly inside its row. */
  lemma PrimeDividesBinom(p: nat, k: nat)
    requires Prime(p) && 1 <= k < p
    ensures Divides(p, Binom(p, k))
  {
    Absorption(p, k);
    DividesSelf(p, Binom(p - 1, k - 1));
    assert Binom(p - 1, k - 1) * p == k * Binom(p, k);
    EuclidLemma(p, k, Binom(p, k));
    if Divides(p, k) {
      DivisorBound(p, k);
    }
  }

  // ---------------------------------------------------------------------------
  // The binomial theorem

  /** The first `j` terms of `sum C(n, k) * a^k`. */
  function BinomSum(n: nat, a: int, j: nat): int {
    if j == 0 then 0 else BinomSum(n, a, j - 1) + Binom(n, j - 1) * Pow(a, j - 1)
  }

  /** Pascal's rule, summed: row n + 1 is row n shifted by one power of `a` plus row n. */
  lemma {:induction false} PascalSum(n: nat, a: int, j: nat)
    requires j >= 1
    ensures BinomSum(n + 1, a, j) == a * BinomSum(n, a, j - 1) + BinomSum(n, a, j)
    decreases j
  {
    if j > 1 {
      PascalSum(n, a, j - 1);
      assert Binom(n + 1, j - 1) == Binom(n, j - 2) + Binom(n, j - 1);
      PascalStep(a, BinomSum(n, a, j - 2), Binom(n, j - 2), Binom(n, j - 1), Pow(a, j - 2));
    }
  }

  /** The algebra of one step of `PascalSum`, over plain numbers. */
  lemma PascalStep(a: int, s: int, b1: int, b2: int, q: int)
    ensures (a * s + (s + b1 * q)) + (b1 + b2) * (a * q)
         == a * (s + b1 * q) + ((s + b1 * q) + b2 * (a * q))
  {
    assert a * (s + b1 * q) == a * s + b1 * (a * q);
  }

  /** `(a + 1)^n == sum_{k <= n} C(n, k) * a^k`. */
  lemma {:induction false} BinomialTheorem(n: nat, a: int)
    ensures Pow(a + 1, n) == BinomSum(n, a, n + 1)
    decreases n
  {
    if n > 0 {
      var m := n - 1;
      BinomialTheorem(m, a);
      PascalSum(m, a, n + 1);
      BinomAbove(m, n);
      assert BinomSum(m, a, n + 1) == BinomSum(m, a, n);
      calc {
        Pow(a + 1, n);
        (a + 1) * BinomSum(m, a, n);
        a * BinomSum(m, a, n) + BinomSum(m, a, n);
        BinomSum(n, a, n + 1);
      }
    }
  }

  /** Modulo a prime, the inner terms of row p vanish. */
  lemma {:induction false} InnerTermsVanish(p: nat, a: int, j: nat)
    requires Prime(p) && 1 <= j <= p
    ensures Divides(p, BinomSum(p, a, j) - 1)
    decreases j
  {
    if j == 1 {
      DividesSelf(p, 0);
    } else {
      InnerTermsVanish(p, a, j - 1);
      PrimeDividesBinom(p, j - 1);
      DividesProduct(p, Binom(p, j - 1), Pow(a, j - 1));
      assert Pow(a, j - 1) * Binom(p, j - 1) == Binom(p, j - 1) * Pow(a, j - 1);
      DividesLinear(p, BinomSum(p, a, j - 1) - 1, Binom(p, j - 1) * Pow(a, j - 1), 1);
    }
  }

  /** Numbers with a difference the modulus divides have the same remainder. */
  lemma SameRemainder(x: int, y: int, m: int)
    requires m >= 1 && Divides(m, x - y)
    ensures x % m == y % m
  {
    var k := (x - y) / m;
    assert x - y == k * m;
    ModAddMultiple(y, k, m);
  }

  /** And conversely. */
  lemma DifferenceDivides(x: int, y: int, m: int)
    requires m >= 1 && x % m == y % m
    ensures Divides(m, x - y)
  {
    assert x == (x / m) * m + x % m && y == (y / m) * m + y % m;
    assert x - y == (x / m - y / m) * m;
    DividesSelf(m, x / m - y / m);
  }

  /** `(a + 1)^p == a^p + 1 (mod p)`. */
  lemma FreshmansDream(p: nat, a: int)
    requires Prime(p)
    ensures Pow(a + 1, p) % p == (Pow(a, p) + 1) % p
  {
    BinomialTheorem(p, a);
    InnerTermsVanish(p, a, p);
    BinomDiagonal(p);
    assert Pow(a + 1, p) - (Pow(a, p) + 1) == BinomSum(p, a, p) - 1;
    SameRemainder(Pow(a + 1, p), Pow(a, p) + 1, p);
  }

  // ---------------------------------------------------------------------------
  // Fermat's little theorem

  /** `a^p == a (mod p)` for every natural `a`. */
  lemma {:induction false} FermatPower(p: nat, a: nat)
    requires Prime(p)
    ensures Pow(a, p) % p == a % p
    decreases a
  {
    if a == 0 {
      assert Pow(0, p) == 0 * Pow(0, p - 1);
    } else {
      FermatPower(p, a - 1);
      FreshmansDream(p, a - 1);
      DifferenceDivides(Pow(a - 1, p), a - 1, p);
      assert Pow(a - 1, p) + 1 - a == Pow(a - 1, p) - (a - 1);
      SameRemainder(Pow(a - 1, p) + 1, a, p);
    }
  }

  /** Fermat's little theorem: `a^(p-1) == 1 (mod p)` when p does not divide a. */
  lemma FermatLittle(p: nat, a: nat)
    requires Prime(p) && !Divides(p, a)
    ensures Pow(a, p - 1) % p == 1
  {
    FermatPower(p, a);
    DifferenceDivides(Pow(a, p), a, p);
    assert Pow(a, p) - a == a * (Pow(a, p - 1) - 1);
    EuclidLemma(p, a, Pow(a, p - 1) - 1);
    SameRemainder(Pow(a, p - 1), 1, p);
    ModSmall(1, p);
  }

  /** Modulo a prime, the only square roots of one are 1 and p - 1. */
  lemma SquareRootOfOne(p: nat, x: nat)
    requires Prime(p) && x < p && (x * x) % p == 1
    ensures x == 1 || x == p - 1
  {
    ModSmall(1, p);
    DifferenceDivides(x * x, 1, p);
    assert x * x - 1 == (x - 1) * (x + 1);
    EuclidLemma(p, x - 1, x + 1);
    if Divides(p, x - 1) {
      if x > 1 {
        DivisorBound(p, x - 1);
      }
    } else {
      DivisorBound(p, x + 1);
    }
  }
}
