/**
  The factorisation quiz of the login page: two random 48-bit numbers that pass the
  Miller–Rabin test, and their product, all written in decimal. Random 64-bit words
  come from the byte stream; a word too short for the requested length is drawn again.
*/
module FactorQuiz {
  import opened Arith
  import opened Random
  import opened Decimal
  import opened Primality
  import Text
  import Routes

  /** Bit length of each prime factor (`PRIME_BITS`). */
  const PrimeBits: nat := 48

  // ---------------------------------------------------------------------------
  // generateRandomNumber

  /** Keeping the top `k` bits of a number at least `k` bits long gives a k-bit number. */
  lemma ShiftToWidth(v: nat, k: nat)
    requires 1 <= k <= BitLength(v)
    ensures Pow2(k - 1) <= v / Pow2(BitLength(v) - k) < Pow2(k)
  {
    var bl := BitLength(v);
    if k < bl {
      ShiftedKeepsTopBit(v, bl, k);
    }
    Pow2Add(k, bl - k);
    DivUpperBound(v, Pow2(bl - k), Pow2(k));
  }

  /** Shifting by at least the bit length leaves nothing. */
  lemma ShiftPastWidth(v: nat, k: int)
    requires k <= 0
    ensures v / Pow2(BitLength(v) - k) == 0
  {
    Pow2Monotone(BitLength(v), BitLength(v) - k);
    DivModUnique(v, Pow2(BitLength(v) - k), 0, v);
  }

  /** `n >> BigInt(bl - bitLength)`: the top `k` bits of a word at least `k` bits long. */
  function KeepTop(v: nat, k: int): (r: nat)
    requires k <= BitLength(v)
    ensures k >= 1 ==> Pow2(k - 1) <= r < Pow2(k)
    ensures k <= 0 ==> r == 0
  {
    var shift := BitLength(v) - k;
    if k >= 1 then
      ShiftToWidth(v, k);
      v / Pow2(shift)
    else
      ShiftPastWidth(v, k);
      v / Pow2(shift)
  }

  /**
    The `do … while (bl < bitLength)` loop and the final shift: draw 64-bit words until
    one has at least `k` bits, then keep its top `k` bits.
  */
  function DrawOfLength(k: int, stream: seq<byte>): (r: Drawn<nat>)
    ensures !r.Failed?
    ensures r.Drawn? ==> |r.rest| + 8 <= |stream|
    ensures r.Drawn? && k >= 1 ==> Pow2(k - 1) <= r.value < Pow2(k)
    ensures r.Drawn? && k <= 0 ==> r.value == 0
    decreases |stream|
  {
    if |stream| < 8 then Exhausted
    else
      var word := Uint64(stream);
      if BitLength(word.value) < k then DrawOfLength(k, word.rest)
      else Drawn(KeepTop(word.value, k), word.rest)
  }

  /**
    `generateRandomNumber(bitLength)`: throws above 64 bits; otherwise a number of
    exactly `bitLength` bits (zero for a non-positive length).
  */
  function GenerateRandomNumber(bitLength: int, stream: seq<byte>): (r: Drawn<nat>)
    ensures r.Failed? <==> bitLength > 64
    ensures r.Drawn? ==> |r.rest| < |stream|
    ensures r.Drawn? && bitLength >= 1 ==> Pow2(bitLength - 1) <= r.value < Pow2(bitLength)
    ensures r.Drawn? && bitLength <= 0 ==> r.value == 0
  {
    if bitLength > 64 then Failed("generateRandomNumber: bitLength > 64")
    else DrawOfLength(bitLength, stream)
  }

  /** A product of bounded naturals is bounded by the product of the bounds. */
  lemma MulBounds(a: nat, b: nat, lo1: nat, hi1: nat, lo2: nat, hi2: nat)
    requires lo1 <= a < hi1 && lo2 <= b < hi2
    ensures lo1 * lo2 <= a * b < hi1 * hi2
  {
    MulLe(lo1, a, lo2);
    MulLe(lo2, b, a);
    if a == 0 {
      MulPositive(hi1, hi2);
    } else {
      MulLt(b, hi2, a);
      MulLt(a, hi1, hi2);
    }
  }

  /**
    Every k-bit number is reachable: the word `m * 2^(64-k)` has 64 bits, and its top
    `k` bits are `m`.
  */
  lemma GenerateRandomNumberReaches(k: nat, m: nat)
    requires 1 <= k <= 64 && Pow2(k - 1) <= m < Pow2(k)
    ensures exists bs: seq<byte> :: |bs| == 8 && GenerateRandomNumber(k, bs) == Drawn(m, [])
  {
    var v := m * Pow2(64 - k);
    TopBits(k, m, 64);
    LittleEndianOnto(8, v);
    var bs: seq<byte> :| |bs| == 8 && LittleEndian(bs) == v;
    WordGivesTopBits(k, bs, m);
  }

  /** A 64-bit word read from eight bytes gives its top `k` bits. */
  lemma WordGivesTopBits(k: nat, bs: seq<byte>, m: nat)
    requires 1 <= k <= 64 && |bs| == 8
    requires BitLength(LittleEndian(bs)) == 64 && LittleEndian(bs) / Pow2(64 - k) == m
    ensures GenerateRandomNumber(k, bs) == Drawn(m, [])
  {
    assert bs[..8] == bs;
    assert Uint64(bs) == Drawn(LittleEndian(bs), []);
  }

  /** The w-bit number whose top `k` bits are the k-bit number `m`, and zeros below. */
  lemma TopBits(k: nat, m: nat, w: nat)
    requires 1 <= k <= w && Pow2(k - 1) <= m < Pow2(k)
    ensures BitLength(m * Pow2(w - k)) == w
    ensures (m * Pow2(w - k)) / Pow2(w - k) == m
    ensures m * Pow2(w - k) < Pow2(w)
  {
    var shift := Pow2(w - k);
    var v := m * shift;
    TopBitsBounds(k, m, w);
    BitLengthLeast(v, w);
    BitLengthLeast(v, w - 1);
    DivModUnique(v, shift, m, 0);
  }

  lemma TopBitsBounds(k: nat, m: nat, w: nat)
    requires 1 <= k <= w && Pow2(k - 1) <= m < Pow2(k)
    ensures Pow2(w - 1) <= m * Pow2(w - k) < Pow2(w)
  {
    var shift := Pow2(w - k);
    Pow2Add(k - 1, w - k);
    Pow2Add(k, w - k);
    MulLe(Pow2(k - 1), m, shift);
    MulLt(m, Pow2(k), shift);
  }

  // ---------------------------------------------------------------------------
  // generateRandomPrime

  /**
    `generateRandomPrime(bitLength)`: draw numbers of that length until `isPrime`
    (50 rounds, witnesses drawn after the number) accepts one.
  */
  function GenerateRandomPrime(bitLength: int, stream: seq<byte>): (r: Drawn<nat>)
    ensures r.Failed? <==> bitLength > 64
    ensures r.Drawn? && bitLength >= 1 ==> Pow2(bitLength - 1) <= r.value < Pow2(bitLength)
    ensures r.Drawn? ==> exists from :: IsPrime(r.value, DefaultRounds, from) == Drawn(true, r.rest)
    decreases |stream|
  {
    match GenerateRandomNumber(bitLength, stream)
    case Failed(message) => Failed(message)
    case Exhausted => Exhausted
    case Drawn(n, rest) =>
      match IsPrime(n, DefaultRounds, rest)
      case Drawn(true, after) => Drawn(n, after)
      case Drawn(false, after) => GenerateRandomPrime(bitLength, after)
      case _ => Exhausted
  }

  /**
    A drawn prime is kept: `isPrime` never rejects it, so the first prime drawn is
    the result once the stream covers its rounds.
  */
  lemma FirstPrimeKept(bitLength: int, stream: seq<byte>)
    requires GenerateRandomNumber(bitLength, stream).Drawn?
    requires Prime(GenerateRandomNumber(bitLength, stream).value)
    ensures var d := GenerateRandomNumber(bitLength, stream);
            var test := IsPrime(d.value, DefaultRounds, d.rest);
            test.Drawn? ==> GenerateRandomPrime(bitLength, stream) == Drawn(d.value, test.rest)
  {
    var d := GenerateRandomNumber(bitLength, stream);
    IsPrimeSound(d.value, DefaultRounds, d.rest);
  }

  // ---------------------------------------------------------------------------
  // generatePrimeQuiz

  datatype FactorizationQuiz = FactorizationQuiz(p: string, q: string, n: string)

  /**
    `generatePrimeQuiz()`: two 48-bit numbers accepted by `isPrime`, and their
    product, as decimal strings. The product has 95 or 96 bits.
  */
  function GeneratePrimeQuiz(stream: seq<byte>): (r: Drawn<FactorizationQuiz>)
    ensures !r.Failed?
    ensures r.Drawn? ==> Canonical(r.value.p) && Canonical(r.value.q) && Canonical(r.value.n)
    ensures r.Drawn? ==> Value(r.value.n) == Value(r.value.p) * Value(r.value.q)
    ensures r.Drawn? ==> Pow2(PrimeBits - 1) <= Value(r.value.p) < Pow2(PrimeBits)
    ensures r.Drawn? ==> Pow2(PrimeBits - 1) <= Value(r.value.q) < Pow2(PrimeBits)
    ensures r.Drawn? ==> Pow2(2 * PrimeBits - 2) <= Value(r.value.n) < Pow2(2 * PrimeBits)
  {
    match GenerateRandomPrime(PrimeBits, stream)
    case Failed(message) => Failed(message)
    case Exhausted => Exhausted
    case Drawn(p, rest) =>
      match GenerateRandomPrime(PrimeBits, rest)
      case Failed(message) => Failed(message)
      case Exhausted => Exhausted
      case Drawn(q, after) => Drawn(MakeQuiz(p, q, PrimeBits), after)
  }

  /** The quiz for two b-bit factors: both and their product, in decimal. */
  function MakeQuiz(p: nat, q: nat, b: nat): (quiz: FactorizationQuiz)
    requires b >= 1
    requires Pow2(b - 1) <= p < Pow2(b) && Pow2(b - 1) <= q < Pow2(b)
    ensures Canonical(quiz.p) && Canonical(quiz.q) && Canonical(quiz.n)
    ensures Value(quiz.p) == p && Value(quiz.q) == q && Value(quiz.n) == p * q
    ensures Value(quiz.n) == Value(quiz.p) * Value(quiz.q)
    ensures Pow2(b - 1) <= Value(quiz.p) < Pow2(b) && Pow2(b - 1) <= Value(quiz.q) < Pow2(b)
    ensures Pow2(2 * b - 2) <= Value(quiz.n) < Pow2(2 * b)
  {
    QuizNumbers(p, q, b);
    FactorizationQuiz(ToDecimal(p), ToDecimal(q), ToDecimal(p * q))
  }

  /** The decimals of two b-bit numbers and of their product, read back. */
  lemma QuizNumbers(p: nat, q: nat, b: nat)
    requires b >= 1
    requires Pow2(b - 1) <= p < Pow2(b) && Pow2(b - 1) <= q < Pow2(b)
    ensures Value(ToDecimal(p)) == p && Value(ToDecimal(q)) == q && Value(ToDecimal(p * q)) == p * q
    ensures Pow2(2 * b - 2) <= p * q < Pow2(2 * b)
  {
    DecimalsOf(p, q, p * q);
    ProductBounds(p, q, b);
  }

  lemma DecimalsOf(p: nat, q: nat, n: nat)
    ensures Value(ToDecimal(p)) == p && Value(ToDecimal(q)) == q && Value(ToDecimal(n)) == n
  {
    DecimalRoundTrip(p);
    DecimalRoundTrip(q);
    DecimalRoundTrip(n);
  }

  /** The product of two b-bit numbers has 2b - 1 or 2b bits. */
  lemma ProductBounds(p: nat, q: nat, b: nat)
    requires b >= 1
    requires Pow2(b - 1) <= p < Pow2(b) && Pow2(b - 1) <= q < Pow2(b)
    ensures Pow2(2 * b - 2) <= p * q < Pow2(2 * b)
  {
    Pow2Add(b - 1, b - 1);
    Pow2Add(b, b);
    assert (b - 1) + (b - 1) == 2 * b - 2 && b + b == 2 * b;
    MulBounds(p, q, Pow2(b - 1), Pow2(b), Pow2(b - 1), Pow2(b));
  }

  /** Decimal digits never contain the comma the answer is split at. */
  lemma CanonicalCommaFree(s: string)
    requires Canonical(s)
    ensures s != "" && Text.Free(s, Text.IsComma)
  {
    assert forall i :: 0 <= i < |s| ==> IsDigit(s[i]);
  }

  /**
    A generated quiz can be answered: issuing its factors as the challenge and posting
    them back in either order, with the password, logs the user in.
  */
  lemma GeneratedQuizAnswerable(stream: seq<byte>, s: Routes.Session, token: string, fieldId: string,
                                user: string, password: string, now: nat, swap: bool)
    requires GeneratePrimeQuiz(stream).Drawn?
    requires s.username == "" && Routes.SafeReturnTo(Routes.ReturnTarget(s)) && !Routes.Locked(s, now)
    requires token != ""
    ensures var quiz := GeneratePrimeQuiz(stream).value;
            var c := Routes.IssueChallenge(s, token, quiz.p, quiz.q, fieldId);
            var answer := if swap then quiz.q + "," + quiz.p else quiz.p + "," + quiz.q;
            Routes.Authenticate(c, Routes.LoginForm(user, token, fieldId, password, answer), now, true)
              == Routes.Transition(Routes.Fresh.(username := user), Routes.LoggedIn(Routes.ReturnTarget(s)))
  {
    var quiz := GeneratePrimeQuiz(stream).value;
    CanonicalCommaFree(quiz.p);
    CanonicalCommaFree(quiz.q);
    Routes.ChallengeThenLogin(s, token, quiz.p, quiz.q, fieldId, user, password, now, swap);
  }
}
