/**
  The probabilistic primality test the login quiz relies on: square-and-multiply
  modular exponentiation, bit length, the rejection sampler for witnesses, the
  Miller–Rabin round (in the structure of FIPS 186-4 Appendix C.3.1) and the
  repeated test, with the random bytes supplied as a stream.
*/
module Primality {
  import opened Arith
  import opened Random
  import opened Fermat

  // ---------------------------------------------------------------------------
  // power

  /** One loop step of `power` keeps `res * x^y mod p` fixed. */
  lemma SquareStep(r: int, b: int, k: nat, p: int)
    requires p >= 1
    ensures (((r * b) % p) * Pow((b * b) % p, k)) % p == (r * Pow(b, 2 * k + 1)) % p
    ensures (r * Pow((b * b) % p, k)) % p == (r * Pow(b, 2 * k)) % p
  {
    PowSquare(b, k);
    PowMod(b * b, k, p);
    var c := Pow(b * b, k);
    calc {
      (((r * b) % p) * Pow((b * b) % p, k)) % p;
      { ModMul((r * b) % p, Pow((b * b) % p, k), p); ModMod(r * b, p); }
      (((r * b) % p) * (c % p)) % p;
      { ModMul(r * b, c, p); }
      ((r * b) * c) % p;
      { assert (r * b) * c == r * (b * c); }
      (r * Pow(b, 2 * k + 1)) % p;
    }
    calc {
      (r * Pow((b * b) % p, k)) % p;
      { ModMul(r, Pow((b * b) % p, k), p); }
      ((r % p) * (Pow((b * b) % p, k) % p)) % p;
      ((r % p) * (c % p)) % p;
      { ModMul(r, c, p); }
      (r * c) % p;
    }
  }

  /** The loop body of `power` as a whole: multiply in the low bit, then square and halve. */
  lemma PowerStep(r: nat, b: nat, e: nat, p: nat, target: int)
    requires p >= 1 && e > 0 && (r * Pow(b, e)) % p == target
    ensures var r' := if e % 2 == 1 then (r * b) % p else r;
            (r' * Pow((b * b) % p, e / 2)) % p == target
  {
    SquareStep(r, b, e / 2, p);
    if e % 2 == 1 {
      assert e == 2 * (e / 2) + 1;
    } else {
      assert e == 2 * (e / 2);
    }
  }

  /**
    `power(x, y, p)`: square-and-multiply. For y > 0 the result is x^y mod p; for
    y = 0 it is 1 even when p = 1.
  */
  method Power(x: nat, y: nat, p: nat) returns (r: nat)
    requires p >= 1
    ensures r == if y == 0 then 1 else Pow(x, y) % p
  {
    r := 1;
    var b: nat := x % p;
    var e: nat := y;
    ghost var target := Pow(x, y) % p;
    PowMod(x, y, p);
    while e > 0
      invariant e <= y && b < p
      invariant (r * Pow(b, e)) % p == target
      invariant r < p || (r == 1 && (e > 0 || y == 0))
      invariant y == 0 ==> r == 1
      decreases e
    {
      PowerStep(r, b, e, p, target);
      var r': nat := if e % 2 == 1 then (r * b) % p else r;
      var e': nat := e / 2;
      var b': nat := (b * b) % p;
      assert (r' * Pow(b', e')) % p == target;
      r, e, b := r', e', b';
    }
    assert r * Pow(b, e) == r;
    if y > 0 {
      ModSmall(r, p);
    }
  }

  // ---------------------------------------------------------------------------
  // getBitLength

  /** The number of binary digits of `n`: the least `i` with `n < 2^i`. */
  function BitLength(n: nat): (i: nat)
    ensures n < Pow2(i)
    ensures i == 0 || Pow2(i - 1) <= n
    ensures i == 0 <==> n == 0
  {
    if n == 0 then 0 else 1 + BitLength(n / 2)
  }

  /** `BitLength(n)` is exactly the least exponent whose power of two exceeds `n`. */
  lemma BitLengthLeast(n: nat, j: nat)
    ensures n < Pow2(j) <==> BitLength(n) <= j
  {
    var i := BitLength(n);
    if i <= j {
      Pow2Monotone(i, j);
    } else {
      Pow2Monotone(j, i - 1);
    }
  }

  /** `getBitLength(n)`: shift right until zero, counting the shifts. */
  method GetBitLength(n: nat) returns (i: nat)
    ensures n < Pow2(i)
    ensures i == 0 || Pow2(i - 1) <= n
  {
    i := 0;
    var m := n;
    while m != 0
      invariant BitLength(n) == i + BitLength(m)
      decreases m
    {
      m := m / 2;
      i := i + 1;
    }
  }

  // ---------------------------------------------------------------------------
  // getRandomBigInt

  /**
    One sample of `getRandomBigInt(max)` from the big-endian block `n`: shifted down to
    bl bits when it is longer, bl being one more than the bit length of `max`.
  */
  function Shape(max: nat, n: nat): nat {
    var bl := BitLength(max) + 1;
    var newBl := BitLength(n);
    if newBl > bl then n / Pow2(newBl - bl) else n
  }

  /** Sample bytes per draw of `getRandomBigInt(max)`: ceil(bl / 8). */
  function SampleBytes(max: nat): (bytes: nat)
    ensures bytes >= 1
  {
    (BitLength(max) + 1 + 7) / 8
  }

  /**
    `getRandomBigInt(max)`: fill the sample bytes, shape the block, and draw again
    until the sample is at most `max`.
  */
  function GetRandomBigInt(max: nat, stream: seq<byte>): (r: Drawn<nat>)
    ensures r.Drawn? ==> r.value <= max && |r.rest| < |stream|
    ensures !r.Failed?
    decreases |stream|
  {
    var bytes := SampleBytes(max);
    if |stream| < bytes then Exhausted
    else
      var sample := Shape(max, BigEndian(stream[..bytes]));
      if sample <= max then Drawn(sample, stream[bytes..])
      else GetRandomBigInt(max, stream[bytes..])
  }

  /**
    The shift never yields an accepted sample: a shifted sample has its top bit at
    position bl-1, above every bit of `max`. So shaping accepts exactly the blocks
    that are already at most `max`, unchanged.
  */
  lemma ShapeAcceptsUnshifted(max: nat, n: nat)
    ensures Shape(max, n) <= max <==> n <= max
    ensures Shape(max, n) <= max ==> Shape(max, n) == n
  {
    var bl := BitLength(max) + 1;
    var nl := BitLength(n);
    assert max < Pow2(bl - 1);
    if nl > bl {
      ShiftedKeepsTopBit(n, nl, bl);
      Pow2Monotone(bl - 1, nl - 1);
    }
  }

  /** Shifting an nl-bit number right by nl - bl bits leaves at least 2^(bl-1). */
  lemma ShiftedKeepsTopBit(n: nat, nl: nat, bl: nat)
    requires 1 <= bl < nl && Pow2(nl - 1) <= n
    ensures n / Pow2(nl - bl) >= Pow2(bl - 1)
  {
    var k := nl - bl;
    Pow2Add(bl - 1, k);
    assert bl - 1 + k == nl - 1;
    DivLowerBound(n, Pow2(k), Pow2(bl - 1));
  }

  /**
    Plain rejection sampling: take big-endian blocks of `SampleBytes(max)` bytes until
    one is at most `max`.
  */
  function RejectionSample(max: nat, stream: seq<byte>): Drawn<nat>
    decreases |stream|
  {
    var bytes := SampleBytes(max);
    if |stream| < bytes then Exhausted
    else if BigEndian(stream[..bytes]) <= max then Drawn(BigEndian(stream[..bytes]), stream[bytes..])
    else RejectionSample(max, stream[bytes..])
  }

  /** `getRandomBigInt` is plain rejection sampling on the raw blocks. */
  lemma {:induction false} GetRandomBigIntIsRejection(max: nat, stream: seq<byte>)
    ensures GetRandomBigInt(max, stream) == RejectionSample(max, stream)
    decreases |stream|
  {
    var bytes := SampleBytes(max);
    if |stream| >= bytes {
      ShapeAcceptsUnshifted(max, BigEndian(stream[..bytes]));
      GetRandomBigIntIsRejection(max, stream[bytes..]);
    }
  }

  /** For n >= 5 the witness `2 + getRandomBigInt(n - 4)` lies in [2, n - 2]. */
  lemma WitnessRange(n: nat, stream: seq<byte>)
    requires n >= 5
    ensures var r := GetRandomBigInt(n - 4, stream);
            r.Drawn? ==> 2 <= 2 + r.value <= n - 2
  {
  }

  // ---------------------------------------------------------------------------
  // Miller–Rabin

  /** `d` after `while (d % 2n == 0n) d /= 2n`, started from `m`. */
  function OddPart(m: nat): (d: nat)
    requires m >= 1
    ensures d % 2 == 1 && 1 <= d <= m
  {
    if m % 2 == 0 then OddPart(m / 2) else m
  }

  /** How many times that loop halves. */
  function Halvings(m: nat): nat
    requires m >= 1
  {
    if m % 2 == 0 then 1 + Halvings(m / 2) else 0
  }

  /** After halving, d is odd and m = d * 2^s. */
  lemma {:induction false} OddPartDecomposes(m: nat)
    requires m >= 1
    ensures m == OddPart(m) * Pow2(Halvings(m))
    decreases m
  {
    if m % 2 == 0 {
      OddPartDecomposes(m / 2);
      assert OddPart(m) * Pow2(Halvings(m)) == 2 * (OddPart(m / 2) * Pow2(Halvings(m / 2)));
    }
  }

  /**
    The squaring loop of `miillerTest`, from `x` at exponent `d` with `s` doublings
    left before `d` reaches `n - 1`: square, stop with false at 1 and with true at
    `n - 1`, and give false when the doublings run out.
  */
  function Squarings(x: nat, d: nat, n: nat, s: nat): bool
    requires n >= 5 && n - 1 == d * Pow2(s)
    decreases s
  {
    if d == n - 1 then false
    else
      var y := (x * x) % n;
      assert s >= 1 && n - 1 == (2 * d) * Pow2(s - 1);
      if y == 1 then false
      else if y == n - 1 then true
      else Squarings(y, 2 * d, n, s - 1)
  }

  /** `miillerTest(d, n)` for the witness `a`, with n - 1 = d * 2^s. */
  function MillerTest(d: nat, n: nat, a: nat, s: nat): bool
    requires n >= 5 && n - 1 == d * Pow2(s)
  {
    var x := Pow(a, d) % n;
    if x == 1 || x == n - 1 then true else Squarings(x, d, n, s)
  }

  /** `x` squared `i` times modulo `n`. */
  function Sq(x: nat, n: nat, i: nat): nat
    requires n >= 1
    decreases i
  {
    if i == 0 then x else Sq((x * x) % n, n, i - 1)
  }

  /** Once the squares reach 1 they stay there. */
  lemma {:induction false} SqOne(n: nat, i: nat)
    requires n >= 2
    ensures Sq(1, n, i) == 1
    decreases i
  {
    if i > 0 {
      ModSmall(1, n);
      SqOne(n, i - 1);
    }
  }

  /** Squaring `x mod n` i times is raising `x` to the 2^i-th power modulo n. */
  lemma {:induction false} SqPow(x: int, n: nat, i: nat)
    requires n >= 1
    ensures Sq(x % n, n, i) == Pow(x, Pow2(i)) % n
    decreases i
  {
    if i == 0 {
      assert Pow(x, 1) == x * Pow(x, 0);
    } else {
      ModMul(x, x, n);
      SqPow(x * x, n, i - 1);
      PowSquare(x, Pow2(i - 1));
    }
  }

  /** The exponent reaches n - 1 exactly when no doubling is left. */
  lemma ExponentStep(e: nat, n: nat, s: nat)
    requires n >= 5 && n - 1 == e * Pow2(s)
    ensures e == n - 1 <==> s == 0
    ensures s >= 1 ==> n - 1 == (2 * e) * Pow2(s - 1)
  {
    if s >= 1 {
      var h := Pow2(s - 1);
      assert Pow2(s) == 2 * h;
      assert e * (2 * h) == (2 * e) * h;
      assert e >= 1;
      MulPositive(h, 2 * e);
      MulLe(1, h, 2 * e);
    }
  }

  /**
    The squaring loop answers true exactly when one of the next s squares of `x`
    is n - 1: a square that reaches 1 first stays 1 and never gets there.
  */
  lemma {:induction false} SquaringsIff(x: nat, e: nat, n: nat, s: nat)
    requires n >= 5 && n - 1 == e * Pow2(s)
    ensures Squarings(x, e, n, s) <==> exists i :: 1 <= i <= s && Sq(x, n, i) == n - 1
    decreases s
  {
    ExponentStep(e, n, s);
    if s >= 1 {
      var y := (x * x) % n;
      assert forall i :: 1 <= i <= s ==> Sq(x, n, i) == Sq(y, n, i - 1);
      if y == 1 {
        forall i | 1 <= i <= s ensures Sq(x, n, i) != n - 1 {
          SqOne(n, i - 1);
        }
      } else if y != n - 1 {
        SquaringsIff(y, 2 * e, n, s - 1);
        if Squarings(x, e, n, s) {
          var i :| 1 <= i <= s - 1 && Sq(y, n, i) == n - 1;
          assert Sq(x, n, i + 1) == n - 1;
        }
        if exists i :: 1 <= i <= s && Sq(x, n, i) == n - 1 {
          var i :| 1 <= i <= s && Sq(x, n, i) == n - 1;
          assert i != 1;
          assert Sq(y, n, i - 1) == n - 1;
        }
      } else {
        assert Sq(x, n, 1) == n - 1;
      }
    }
  }

  /**
    `miillerTest` accepts the witness `a` exactly when a^d = 1 or a^(d * 2^r) = n - 1
    (mod n) for some r from 0 to s. The textbook condition stops at r = s - 1; the loop
    also tries r = s, where a^(n - 1) would have to be n - 1.
  */
  lemma MillerTestIff(d: nat, n: nat, a: nat, s: nat)
    requires n >= 5 && n - 1 == d * Pow2(s)
    ensures MillerTest(d, n, a, s) <==>
              Pow(a, d) % n == 1 || exists r :: 0 <= r <= s && Pow(a, d * Pow2(r)) % n == n - 1
  {
    PowNonNegative(a, d);
    var x := Pow(a, d) % n;
    SquaringsIff(x, d, n, s);
    SqIsPower(a, d, n, 0);
    if Squarings(x, d, n, s) {
      var i :| 1 <= i <= s && Sq(x, n, i) == n - 1;
      SqIsPower(a, d, n, i);
    }
    if exists r :: 0 <= r <= s && Pow(a, d * Pow2(r)) % n == n - 1 {
      var r :| 0 <= r <= s && Pow(a, d * Pow2(r)) % n == n - 1;
      SqIsPower(a, d, n, r);
    }
  }

  lemma SqIsPower(a: nat, d: nat, n: nat, i: nat)
    requires n >= 1
    ensures Pow(a, d) % n >= 0
    ensures Sq(Pow(a, d) % n, n, i) == Pow(a, d * Pow2(i)) % n
  {
    SqPow(Pow(a, d), n, i);
    PowMul(a, d, Pow2(i));
  }

  /**
    The loop of `miillerTest` as written, with `Power` for the first power. It runs
    the squaring loop at most s times.
  */
  method MillerLoop(d: nat, n: nat, a: nat, ghost s: nat) returns (result: bool, ghost squarings: nat)
    requires n >= 5 && n - 1 == d * Pow2(s)
    ensures result == MillerTest(d, n, a, s)
    ensures squarings <= s
  {
    PowNonNegative(a, d);
    var x: nat := Power(a, d, n);
    assert d >= 1;
    squarings := 0;
    if x == 1 || x == n - 1 {
      return true, squarings;
    }
    var e: nat := d;
    ghost var left: nat := s;
    while e != n - 1
      invariant n - 1 == e * Pow2(left) && squarings + left == s
      invariant x < n
      invariant Squarings(x, e, n, left) == MillerTest(d, n, a, s)
      decreases left
    {
      assert left >= 1;
      assert n - 1 == (2 * e) * Pow2(left - 1);
      x := (x * x) % n;
      e := 2 * e;
      left := left - 1;
      squarings := squarings + 1;
      if x == 1 {
        return false, squarings;
      }
      if x == n - 1 {
        return true, squarings;
      }
    }
    return false, squarings;
  }

  /** `isPrime`'s default number of rounds. */
  const DefaultRounds: nat := 50

  /**
    `isPrime(n, k)`: 0, 1 and 4 are not prime, 2 and 3 are; otherwise `k` rounds,
    each with a fresh witness, and false at the first round that fails.
  */
  function IsPrime(n: int, k: nat, stream: seq<byte>): (r: Drawn<bool>)
    ensures n <= 1 || n == 4 ==> r == Drawn(false, stream)
    ensures n == 2 || n == 3 ==> r == Drawn(true, stream)
    ensures r.Drawn? ==> |r.rest| <= |stream|
    ensures !r.Failed?
  {
    if n <= 1 || n == 4 then Drawn(false, stream)
    else if n <= 3 then Drawn(true, stream)
    else
      OddPartDecomposes(n - 1);
      Rounds(OddPart(n - 1), n, Halvings(n - 1), k, stream)
  }

  /** The `for` loop of `isPrime`. */
  function Rounds(d: nat, n: nat, s: nat, k: nat, stream: seq<byte>): (r: Drawn<bool>)
    requires n >= 5 && n - 1 == d * Pow2(s)
    ensures r.Drawn? ==> |r.rest| <= |stream|
    ensures !r.Failed?
    decreases k
  {
    if k == 0 then Drawn(true, stream)
    else match GetRandomBigInt(n - 4, stream)
      case Drawn(w, rest) =>
        if !MillerTest(d, n, 2 + w, s) then Drawn(false, rest)
        else
          var r := Rounds(d, n, s, k - 1, rest);
          r
      case Exhausted => Exhausted
  }

  // ---------------------------------------------------------------------------
  // Soundness: a prime passes every round

  /**
    Squaring from an `x` that is neither 1 nor n - 1 but reaches 1 within the remaining
    doublings: modulo a prime the last value before 1 must be n - 1, so the loop
    answers true.
  */
  lemma {:induction false} SquaringsSound(x: nat, e: nat, n: nat, s: nat)
    requires n >= 5 && n - 1 == e * Pow2(s) && Prime(n)
    requires x < n && x != 1 && x != n - 1
    requires Pow(x, Pow2(s)) % n == 1
    ensures Squarings(x, e, n, s)
    decreases s
  {
    if s == 0 {
      ModSmall(x, n);
    } else {
      SquaringStep(x, e, n, s);
      var y := (x * x) % n;
      if y == 1 {
        SquareRootOfOne(n, x);
      } else if y != n - 1 {
        SquaringsSound(y, 2 * e, n, s - 1);
      }
    }
  }

  /**
    One squaring with doublings left: the exponent has not reached n - 1, one doubling
    is used up, and the square still reaches 1 within the doublings that remain.
  */
  lemma SquaringStep(x: nat, e: nat, n: nat, s: nat)
    requires n >= 5 && s >= 1 && n - 1 == e * Pow2(s)
    requires Pow(x, Pow2(s)) % n == 1
    ensures e != n - 1
    ensures n - 1 == (2 * e) * Pow2(s - 1)
    ensures Pow((x * x) % n, Pow2(s - 1)) % n == 1
  {
    var h := Pow2(s - 1);
    assert Pow2(s) == 2 * h;
    assert e * (2 * h) == 2 * (e * h);
    assert e >= 1;
    MulPositive(h, e);
    SquareThenPower(x, h, n);
  }

  /** Squaring modulo n, then raising to `h`, is raising to `2 * h`. */
  lemma SquareThenPower(x: nat, h: nat, n: nat)
    requires n >= 1
    ensures Pow((x * x) % n, h) % n == Pow(x, 2 * h) % n
  {
    PowMod(x * x, h, n);
    PowSquare(x, h);
  }

  /** For a prime n every witness in [2, n - 2] passes `miillerTest`. */
  lemma MillerTestSound(d: nat, n: nat, a: nat, s: nat)
    requires n >= 5 && n - 1 == d * Pow2(s) && Prime(n)
    requires 2 <= a <= n - 2
    ensures MillerTest(d, n, a, s)
  {
    PowNonNegative(a, d);
    var x := Pow(a, d) % n;
    ModSmall(a, n);
    FermatLittle(n, a);
    PowMod(Pow(a, d), Pow2(s), n);
    PowMul(a, d, Pow2(s));
    if x != 1 && x != n - 1 {
      SquaringsSound(x, d, n, s);
    }
  }

  /** Every witness in [2, n - 2] passes `miillerTest`. */
  predicate AllWitnessesPass(d: nat, n: nat, s: nat)
    requires n >= 5 && n - 1 == d * Pow2(s)
  {
    forall a :: 2 <= a <= n - 2 ==> MillerTest(d, n, a, s)
  }

  /** When every witness passes, the rounds never answer false. */
  lemma {:induction false} RoundsSound(d: nat, n: nat, s: nat, k: nat, stream: seq<byte>)
    requires n >= 5 && n - 1 == d * Pow2(s) && AllWitnessesPass(d, n, s)
    ensures Rounds(d, n, s, k, stream).Drawn? ==> Rounds(d, n, s, k, stream).value
    decreases k
  {
    var w := GetRandomBigInt(n - 4, stream);
    if k > 0 && w.Drawn? {
      assert MillerTest(d, n, 2 + w.value, s);
      RoundsPass(d, n, s, k, stream);
      RoundsSound(d, n, s, k - 1, w.rest);
    }
  }

  /** A round whose witness passes hands the rest of the stream to the next round. */
  lemma RoundsPass(d: nat, n: nat, s: nat, k: nat, stream: seq<byte>)
    requires n >= 5 && n - 1 == d * Pow2(s) && k > 0
    requires GetRandomBigInt(n - 4, stream).Drawn?
    requires MillerTest(d, n, 2 + GetRandomBigInt(n - 4, stream).value, s)
    ensures Rounds(d, n, s, k, stream) == Rounds(d, n, s, k - 1, GetRandomBigInt(n - 4, stream).rest)
  {
  }

  /**
    `isPrime` never rejects a prime, whatever bytes the witnesses are drawn from:
    a false answer certifies that `n` is composite.
  */
  lemma IsPrimeSound(n: int, k: nat, stream: seq<byte>)
    requires Prime(n)
    ensures IsPrime(n, k, stream).Drawn? ==> IsPrime(n, k, stream).value
  {
    if n == 4 {
      assert Divides(2, n);
    } else if n >= 5 {
      OddPartDecomposes(n - 1);
      var d, s := OddPart(n - 1), Halvings(n - 1);
      forall a | 2 <= a <= n - 2
        ensures MillerTest(d, n, a, s)
      {
        MillerTestSound(d, n, a, s);
      }
      RoundsSound(d, n, s, k, stream);
    }
  }
}
