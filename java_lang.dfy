/**
 * The parts of the Java runtime that the ICSS compiler relies on: the exceptions its
 * operations throw, nullable references, 32-bit `int` arithmetic, and the decimal text of
 * an `int` as written by `Integer.toString` and read by `Integer.parseInt`.
 */
module JavaLang {

  /** The Java exceptions that the modelled code can throw. */
  datatype JavaException =
    | IllegalArgument
    | IllegalState
    | UnsupportedOperation
    | ClassCast
    | NullPointer
    | IndexOutOfBounds
    | StringIndexOutOfBounds
    | NoSuchElement
    | NumberFormat

  /**
   * The outcome of a Java call: a value, a thrown exception, or `Unmodelled` when the outcome
   * is decided by a class that is not part of this model (such as `PercentageLiteral`).
   */
  datatype Result<+T> = Ok(value: T) | Throws(exception: JavaException) | Unmodelled
  {
    predicate IsFailure() {
      !Ok?
    }

    function PropagateFailure<U>(): Result<U>
      requires IsFailure()
    {
      if Throws? then Throws(exception) else Unmodelled
    }

    function Extract(): T
      requires Ok?
    {
      value
    }
  }

  /** Whether a call completed normally, keeping the exception when it did not. */
  function Status<T>(r: Result<T>): Result<()> {
    if r.Ok? then Ok(()) else r.PropagateFailure()
  }

  /** A Java reference that may be `null` (`None`). */
  datatype Option<+T> = None | Some(value: T)

  const INT_MIN: int := -0x8000_0000
  const INT_MAX: int := 0x7FFF_FFFF
  const TWO_POW_32: int := 0x1_0000_0000

  /** Java's `int`. */
  type int32 = x: int | INT_MIN <= x <= INT_MAX

  /** The `int` that Java's two's-complement arithmetic yields for the mathematical value `x`. */
  function Wrap32(x: int): (r: int32)
    ensures (r - x) % TWO_POW_32 == 0
    ensures INT_MIN <= x <= INT_MAX ==> r == x
  {
    (x - INT_MIN) % TWO_POW_32 + INT_MIN
  }

  /** Two values that differ by a multiple of 2^32 wrap to the same `int`. */
  lemma WrapCongruent(x: int, y: int)
    requires (x - y) % TWO_POW_32 == 0
    ensures Wrap32(x) == Wrap32(y)
  {
    var k := (x - y) / TWO_POW_32;
    assert x - INT_MIN == (y - INT_MIN) + k * TWO_POW_32;
    ModAddMultiple(y - INT_MIN, k);
  }

  lemma ModAddMultiple(a: int, k: int)
    ensures (a + k * TWO_POW_32) % TWO_POW_32 == a % TWO_POW_32
  {
  }

  /** Java's unary minus on an `int`: `-Integer.MIN_VALUE` is `Integer.MIN_VALUE` again. */
  lemma NegateMinValue()
    ensures Wrap32(-INT_MIN) == INT_MIN
  {
  }

  predicate IsDigit(c: char) {
    '0' <= c <= '9'
  }

  predicate AllDigits(s: string) {
    forall i :: 0 <= i < |s| ==> IsDigit(s[i])
  }

  function DigitChar(d: nat): (c: char)
    requires d < 10
    ensures IsDigit(c) && c as int - '0' as int == d
  {
    ('0' as int + d) as char
  }

  /** The decimal digits of `n`, most significant first, without leading zeros. */
  function DigitsOf(n: nat): (s: string)
    ensures |s| > 0 && AllDigits(s)
    ensures |s| > 1 ==> s[0] != '0'
  {
    if n < 10 then [DigitChar(n)] else DigitsOf(n / 10) + [DigitChar(n % 10)]
  }

  /** The number that a string of decimal digits denotes. */
  function DigitsValue(s: string): nat
    requires AllDigits(s)
  {
    if |s| == 0 then 0 else DigitsValue(s[..|s| - 1]) * 10 + (s[|s| - 1] as int - '0' as int)
  }

  /** `Integer.toString(v)`, which is also what `"" + v` yields. */
  function IntToString(v: int): string {
    if v < 0 then "-" + DigitsOf(0 - v) else DigitsOf(v)
  }

  /**
   * `Integer.parseInt(s)`: an optional sign followed by at least one decimal digit, whose value
   * must fit in an `int`; anything else throws `NumberFormatException`.
   */
  function ParseInt(s: string): Result<int32> {
    if |s| == 0 then Throws(NumberFormat)
    else
      var signed := s[0] == '-' || s[0] == '+';
      var digits := if signed then s[1..] else s;
      if |digits| == 0 || !AllDigits(digits) then Throws(NumberFormat)
      else
        var v: int := if s[0] == '-' then 0 - DigitsValue(digits) as int else DigitsValue(digits);
        if INT_MIN <= v <= INT_MAX then Ok(v) else Throws(NumberFormat)
  }

  lemma {:induction false} DigitsRoundTrip(n: nat)
    ensures DigitsValue(DigitsOf(n)) == n
  {
    if n >= 10 {
      var s := DigitsOf(n);
      assert s[..|s| - 1] == DigitsOf(n / 10);
      DigitsRoundTrip(n / 10);
    }
  }

  lemma ParseUnsigned(d: string)
    requires |d| > 0 && AllDigits(d) && DigitsValue(d) <= INT_MAX
    ensures ParseInt(d) == Ok(DigitsValue(d))
  {
    assert IsDigit(d[0]);
  }

  lemma ParseNegative(d: string)
    requires |d| > 0 && AllDigits(d) && DigitsValue(d) <= -INT_MIN
    ensures ParseInt("-" + d) == Ok(0 - DigitsValue(d))
  {
    var s := "-" + d;
    assert s[0] == '-' && s[1..] == d;
  }

  /** Parsing the text that `Integer.toString` writes gives back the same `int`. */
  lemma IntTextRoundTrip(v: int32)
    ensures ParseInt(IntToString(v)) == Ok(v)
  {
    if v < 0 {
      var n: nat := 0 - v as int;
      DigitsRoundTrip(n);
      ParseNegative(DigitsOf(n));
    } else {
      DigitsRoundTrip(v);
      ParseUnsigned(DigitsOf(v));
    }
  }

  /** Every text that `Integer.parseInt` accepts is non-empty and ends in a digit. */
  lemma ParsedTextShape(s: string)
    requires ParseInt(s).Ok?
    ensures |s| > 0 && IsDigit(s[|s| - 1])
  {
  }
}
