/**
 * The pieces of the Java runtime the service relies on: 32-bit `int`
 * arithmetic, `Long.toString` for messages, and the exceptions that
 * escape from a call.
 */
module JavaLang {

  const MIN_INT: int := -0x8000_0000
  const MAX_INT: int := 0x7fff_ffff
  const TWO_32: int := 0x1_0000_0000

  /** Values of a Java `int` / `Integer`. */
  type Int32 = x: int | MIN_INT <= x <= MAX_INT

  /** Two's-complement truncation of a mathematical integer to 32 bits. */
  function Wrap32(x: int): (r: Int32)
    ensures MIN_INT <= x <= MAX_INT ==> r == x
    ensures (x - r) % TWO_32 == 0
  {
    (x - MIN_INT) % TWO_32 + MIN_INT
  }

  /** Java's `a - b` on two `int`s, which wraps around on overflow. */
  function Sub32(a: Int32, b: Int32): (r: Int32)
    ensures MIN_INT <= a - b <= MAX_INT ==> r == a - b
    ensures (a - b - r) % TWO_32 == 0
  {
    Wrap32(a - b)
  }

  /** Truncation only depends on the residue modulo 2^32. */
  lemma {:induction false} Wrap32Congruent(x: int, y: int)
    requires (x - y) % TWO_32 == 0
    ensures Wrap32(x) == Wrap32(y)
  {
    var k := (x - y) / TWO_32;
    assert x - MIN_INT == (y - MIN_INT) + k * TWO_32;
    ModShift(y - MIN_INT, k);
  }

  lemma {:induction false} ModShift(a: int, k: int)
    ensures (a + k * TWO_32) % TWO_32 == a % TWO_32
  {
    var q := a / TWO_32;
    var r := a % TWO_32;
    assert a == q * TWO_32 + r;
    assert a + k * TWO_32 == (q + k) * TWO_32 + r;
  }

  /**
   * Subtracting twice with wrap-around is subtracting the sum once with
   * wrap-around: a stock level decremented line by line ends where one
   * decrement by the total would put it.
   */
  lemma {:induction false} Wrap32SubAssoc(a: int, b: int, c: int)
    ensures Wrap32(Wrap32(a - b) - c) == Wrap32(a - (b + c))
  {
    var w := Wrap32(a - b);
    assert (w - c) - (a - (b + c)) == -((a - b) - w);
    var k := ((a - b) - w) / TWO_32;
    assert (a - b) - w == k * TWO_32;
    assert (w - c) - (a - (b + c)) == (-k) * TWO_32;
    Wrap32Congruent(w - c, a - (b + c));
  }

  /**
   * Decimal rendering of a `long`, as string concatenation produces it:
   * `Long.parseLong` reads the number back, so distinct ids give distinct
   * messages.
   */
  function Decimal(n: int): (s: string)
    ensures |s| > 0
    ensures s[0] == '-' <==> n < 0
    ensures forall i :: 1 <= i < |s| ==> IsDigit(s[i])
  {
    if n < 0 then "-" + Digits(-n) else Digits(n)
  }

  function Digits(n: nat): (s: string)
    ensures |s| > 0
    ensures forall i :: 0 <= i < |s| ==> IsDigit(s[i])
    decreases n
  {
    if n < 10 then [Digit(n)] else Digits(n / 10) + [Digit(n % 10)]
  }

  predicate IsDigit(c: char) {
    '0' <= c <= '9'
  }

  function Digit(d: nat): (c: char)
    requires d < 10
    ensures IsDigit(c) && DigitValue(c) == d
  {
    ('0' as int + d) as char
  }

  function DigitValue(c: char): (d: int) {
    c as int - '0' as int
  }

  /** `Long.parseLong` on a string of decimal digits with an optional leading minus. */
  function ParseDecimal(s: string): (n: int) {
    if |s| > 0 && s[0] == '-' then -ParseDigits(s[1..]) else ParseDigits(s)
  }

  function ParseDigits(s: string): (n: int)
    decreases |s|
  {
    if s == [] then 0 else 10 * ParseDigits(s[..|s| - 1]) + DigitValue(s[|s| - 1])
  }

  lemma {:induction false} ParseDigitsRoundTrip(n: nat)
    ensures ParseDigits(Digits(n)) == n
    decreases n
  {
    if n >= 10 {
      var s := Digits(n);
      assert s[..|s| - 1] == Digits(n / 10);
      ParseDigitsRoundTrip(n / 10);
    }
  }

  /** Reading a rendered number back gives the number. */
  lemma {:induction false} DecimalRoundTrip(n: int)
    ensures ParseDecimal(Decimal(n)) == n
  {
    if n < 0 {
      assert Decimal(n)[1..] == Digits(-n);
      ParseDigitsRoundTrip(-n);
    } else {
      ParseDigitsRoundTrip(n);
    }
  }

  /** Distinct numbers are rendered as distinct strings. */
  lemma {:induction false} DecimalInjective(m: int, n: int)
    ensures Decimal(m) == Decimal(n) ==> m == n
  {
    DecimalRoundTrip(m);
    DecimalRoundTrip(n);
  }

  /** The exceptions that escape from the modelled code. */
  datatype Exception =
    | RuntimeError(message: string)   // `new RuntimeException(message)`
    | NullPointer                     // a method called on a null reference
    | DataIntegrityViolation          // the database refused a write (unique constraint)
    | IncorrectResultSize             // a single-result finder matched more than one row

  /** What a Java call does: return normally with a value, or throw. */
  datatype Outcome<+T> = Returned(value: T) | Raised(exception: Exception)
}
