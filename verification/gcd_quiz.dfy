/**
  The older arithmetic quiz: two random 64-bit-and-a-bit integers, their greatest
  common divisor by Euclid's loop, and their sum, all in decimal.
*/
module GcdQuiz {
  import opened Wrappers
  import opened Arith
  import opened Random
  import opened Decimal
  import opened Euclid

  /**
    `bigIntGcd(a, b)`: throws unless both inputs are positive; otherwise Euclid's
    remainder loop, which gives the greatest common divisor.
  */
  method BigIntGcd(a: int, b: int) returns (r: Result<nat, string>)
    ensures r.Err? <==> a <= 0 || b <= 0
    ensures r.Ok? ==> r.value == Gcd(a, b)
    ensures r.Ok? ==> 1 <= r.value <= a && r.value <= b
    ensures r.Ok? ==> Divides(r.value, a) && Divides(r.value, b)
    ensures r.Ok? ==> forall c :: c >= 1 && Divides(c, a) && Divides(c, b) ==> Divides(c, r.value)
  {
    if a <= 0 || b <= 0 {
      return Err("bigIntGcd: nonpositive");
    }
    var x: nat, y: nat := a, b;
    while y != 0
      invariant x > 0
      invariant Gcd(x, y) == Gcd(a, b)
      decreases y
    {
      var rem := x % y;
      x := y;
      y := rem;
    }
    GcdDivides(a, b);
    DivisorBound(x, a);
    DivisorBound(x, b);
    forall c | c >= 1 && Divides(c, a) && Divides(c, b)
      ensures Divides(c, x)
    {
      GcdGreatest(a, b, c);
    }
    return Ok(x);
  }

  /** `1n << 63n`, the offset every quiz number carries. */
  const Offset: nat := Pow2(63)

  /** `generateRandomInteger()`: a 64-bit draw plus 2^63. */
  function GenerateRandomInteger(stream: seq<byte>): (r: Drawn<nat>)
    ensures r.Drawn? <==> |stream| >= 8
    ensures r.Drawn? ==> Offset <= r.value < Pow2(64) + Offset && r.rest == stream[8..]
  {
    if |stream| < 8 then Exhausted
    else
      var word := Uint64(stream);
      Drawn(word.value + Offset, word.rest)
  }

  datatype AuthQuiz = AuthQuiz(a: string, b: string, gcdAnswer: string, sumAnswer: string)

  /**
    `generateQuiz()`: never throws, since both numbers are positive; the answers are
    the decimals of their gcd and of their sum.
  */
  method GenerateQuiz(stream: seq<byte>) returns (r: Drawn<AuthQuiz>)
    ensures !r.Failed?
    ensures r.Drawn? <==> |stream| >= 16
    ensures r.Drawn? ==> r.rest == stream[16..]
    ensures r.Drawn? ==> Canonical(r.value.a) && Canonical(r.value.b)
                         && Canonical(r.value.gcdAnswer) && Canonical(r.value.sumAnswer)
    ensures r.Drawn? ==> Offset <= Value(r.value.a) && Offset <= Value(r.value.b)
    ensures r.Drawn? ==> Value(r.value.gcdAnswer) == Gcd(Value(r.value.a), Value(r.value.b))
    ensures r.Drawn? ==> Value(r.value.sumAnswer) == Value(r.value.a) + Value(r.value.b)
  {
    var first := GenerateRandomInteger(stream);
    if !first.Drawn? {
      return Exhausted;
    }
    var second := GenerateRandomInteger(first.rest);
    if !second.Drawn? {
      return Exhausted;
    }
    var a, b := first.value, second.value;
    var answer := BigIntGcd(a, b);
    assert answer.Ok?;
    r := Drawn(QuizOf(a, b, answer.value), second.rest);
  }

  /** The quiz shown for `a` and `b`, given their gcd: every field in decimal. */
  function QuizOf(a: nat, b: nat, g: nat): (quiz: AuthQuiz)
    requires g == Gcd(a, b)
    ensures Canonical(quiz.a) && Canonical(quiz.b) && Canonical(quiz.gcdAnswer) && Canonical(quiz.sumAnswer)
    ensures Value(quiz.a) == a && Value(quiz.b) == b
    ensures Value(quiz.gcdAnswer) == Gcd(Value(quiz.a), Value(quiz.b))
    ensures Value(quiz.sumAnswer) == Value(quiz.a) + Value(quiz.b)
  {
    DecimalRoundTrip(a);
    DecimalRoundTrip(b);
    DecimalRoundTrip(g);
    DecimalRoundTrip(a + b);
    AuthQuiz(ToDecimal(a), ToDecimal(b), ToDecimal(g), ToDecimal(a + b))
  }
}
