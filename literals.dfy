/**
 * The literal values of ICSS (`BoolLiteral`, `ColorLiteral`, `PixelLiteral`, `ScalarLiteral`
 * and the `PercentageLiteral` they sit beside): their text constructors, `toString`, node
 * labels, the typed comparison `evaluate(other, operator)` and `getNumericValue`.
 *
 * `PercentageLiteral` is not part of this model: every operation on it yields `Unmodelled`.
 */
module Literals {
  import opened JavaLang
  import opened ComparisonOperators

  datatype Literal =
    | BoolLiteral(b: bool)
    | ColorLiteral(color: string)
    | PercentageLiteral(percentage: int32)
    | PixelLiteral(pixels: int32)
    | ScalarLiteral(scalar: int32)

  /** True when both literals are of the same class. */
  predicate SameKind(a: Literal, b: Literal) {
    (a.BoolLiteral? && b.BoolLiteral?)
    || (a.ColorLiteral? && b.ColorLiteral?)
    || (a.PercentageLiteral? && b.PercentageLiteral?)
    || (a.PixelLiteral? && b.PixelLiteral?)
    || (a.ScalarLiteral? && b.ScalarLiteral?)
  }

  // ---------------------------------------------------------------- text constructors

  /** `new BoolLiteral(text)`: true exactly for the text `TRUE`. */
  function BoolFromText(text: string): Literal {
    BoolLiteral(text == "TRUE")
  }

  /** `new ScalarLiteral(text)`: the whole text is parsed with `Integer.parseInt`. */
  function ScalarFromText(text: string): Result<Literal> {
    var v :- ParseInt(text);
    Ok(ScalarLiteral(v))
  }

  /** `new PixelLiteral(text)`: everything but the last two characters is parsed as an `int`. */
  function PixelFromText(text: string): Result<Literal> {
    if |text| < 2 then Throws(StringIndexOutOfBounds)
    else
      var v :- ParseInt(text[..|text| - 2]);
      Ok(PixelLiteral(v))
  }

  // ---------------------------------------------------------------- text

  /** `toString()`. */
  function ToString(l: Literal): Result<string> {
    match l
    case BoolLiteral(b) => Ok(if b then "true" else "false")
    case ColorLiteral(c) => Ok(c)
    case PercentageLiteral(_) => Unmodelled
    case PixelLiteral(v) => Ok(IntToString(v) + "px")
    case ScalarLiteral(v) => Ok(IntToString(v))
  }

  /** `getNodeLabel()`: the kind's name and, in brackets, the value; a boolean in upper case. */
  function NodeLabel(l: Literal): (r: Result<string>)
    ensures r.Ok? <==> !l.PercentageLiteral?
    ensures l.BoolLiteral? ==>
              r.Ok? && |r.value| > 15 && r.value[..14] == "Bool Literal ("
              && r.value[14..|r.value| - 1] == (if l.b then "TRUE" else "FALSE") && r.value[|r.value| - 1] == ')'
    ensures l.ColorLiteral? ==> r == Ok("Color literal (" + l.color + ")")
    ensures l.PixelLiteral? ==> r.Ok? && |r.value| > 16 && r.value[..15] == "Pixel literal (" && r.value[|r.value| - 1] == ')'
    ensures l.ScalarLiteral? ==> r.Ok? && |r.value| > 17 && r.value[..16] == "Scalar literal (" && r.value[|r.value| - 1] == ')'
  {
    match l
    case BoolLiteral(b) => Ok("Bool Literal (" + (if b then "TRUE" else "FALSE") + ")")
    case ColorLiteral(c) => Ok("Color literal (" + c + ")")
    case PercentageLiteral(_) => Unmodelled
    case PixelLiteral(v) => Ok("Pixel literal (" + IntToString(v) + ")")
    case ScalarLiteral(v) => Ok("Scalar literal (" + IntToString(v) + ")")
  }

  /** A boolean's label spells the value in upper case, while `toString` gives it in lower case,
      so the label never contains the `toString` text. */
  lemma BoolLabelUpperToStringLower(b: bool)
    ensures ToString(BoolLiteral(b)) == Ok(if b then "true" else "false")
    ensures NodeLabel(BoolLiteral(b)) == Ok("Bool Literal (" + (if b then "TRUE" else "FALSE") + ")")
    ensures NodeLabel(BoolLiteral(b)).value != "Bool Literal (" + ToString(BoolLiteral(b)).value + ")"
  {
    var shown := NodeLabel(BoolLiteral(b)).value;
    assert shown[14] != ToString(BoolLiteral(b)).value[0];
  }

  /** A pixel's label shows the bare number, its `toString` text without the `px` suffix; a
      scalar's label shows its `toString` text. Between the brackets, either parses back as the
      value. */
  lemma NumericLabelShowsValue(v: int32)
    ensures var t := ToString(PixelLiteral(v)).value;
            NodeLabel(PixelLiteral(v)) == Ok("Pixel literal (" + t[..|t| - 2] + ")")
    ensures NodeLabel(ScalarLiteral(v)) == Ok("Scalar literal (" + ToString(ScalarLiteral(v)).value + ")")
    ensures var p := NodeLabel(PixelLiteral(v)).value; ParseInt(p[15..|p| - 1]) == Ok(v)
    ensures var q := NodeLabel(ScalarLiteral(v)).value; ParseInt(q[16..|q| - 1]) == Ok(v)
  {
    var t := ToString(PixelLiteral(v)).value;
    assert t[..|t| - 2] == IntToString(v);
    var p := NodeLabel(PixelLiteral(v)).value;
    assert p[15..|p| - 1] == IntToString(v);
    var q := NodeLabel(ScalarLiteral(v)).value;
    assert q[16..|q| - 1] == IntToString(v);
    IntTextRoundTrip(v);
  }

  /** `ColorLiteral.equals(o)`: another `ColorLiteral` with an equal string. */
  function ColorEquals(self: string, o: Option<Literal>): bool {
    o.Some? && o.value.ColorLiteral? && o.value.color == self
  }

  // ---------------------------------------------------------------- evaluate

  /** `BoolLiteral.evaluate(other, operator)`. */
  function EvaluateBool(value: bool, other: Option<Literal>, op: ComparisonOperator): Result<bool> {
    if !(other.Some? && other.value.BoolLiteral?) then Throws(IllegalArgument)
    else
      var o := other.value.b;
      match op
      case EQ => Ok(value == o)
      case NQ => Ok(value != o)
      case AND => Ok(value && o)
      case OR => Ok(value || o)
      case LT | LET | GET | GT => Throws(IllegalArgument)
  }

  /** `ColorLiteral.evaluate(other, operator)`. */
  function EvaluateColor(value: string, other: Option<Literal>, op: ComparisonOperator): Result<bool> {
    if !(other.Some? && other.value.ColorLiteral?) then Throws(IllegalArgument)
    else
      var o := other.value.color;
      match op
      case EQ => Ok(value == o)
      case NQ => Ok(value != o)
      case LT | LET | GET | GT => Throws(IllegalArgument)
      case AND | OR => Throws(IllegalState)
  }

  /**
   * The operator chain that `PixelLiteral.evaluate` and `ScalarLiteral.evaluate` both use once
   * the other literal has the right class. `NQ` computes `<`, as both classes are written.
   */
  function CompareInts(a: int32, b: int32, op: ComparisonOperator): Result<bool> {
    match op
    case LT => Ok(a < b)
    case LET => Ok(a <= b)
    case EQ => Ok(a == b)
    case NQ => Ok(a < b)
    case GET => Ok(a >= b)
    case GT => Ok(a > b)
    case AND | OR => Throws(IllegalState)
  }

  /** `PixelLiteral.evaluate(other, operator)`. */
  function EvaluatePixel(value: int32, other: Option<Literal>, op: ComparisonOperator): Result<bool> {
    if !(other.Some? && other.value.PixelLiteral?) then Throws(IllegalArgument)
    else CompareInts(value, other.value.pixels, op)
  }

  /** `ScalarLiteral.evaluate(other, operator)`. */
  function EvaluateScalar(value: int32, other: Option<Literal>, op: ComparisonOperator): Result<bool> {
    if !(other.Some? && other.value.ScalarLiteral?) then Throws(IllegalArgument)
    else CompareInts(value, other.value.scalar, op)
  }

  /**
   * `Literal.evaluate(other, operator)`, dispatched on the receiver's class; `other == None`
   * is a `null` argument. A comparison yields a value only between two literals of one class.
   */
  function Evaluate(self: Literal, other: Option<Literal>, op: ComparisonOperator): (r: Result<bool>)
    ensures r.Ok? ==> other.Some? && SameKind(self, other.value)
    ensures r.Unmodelled? <==> self.PercentageLiteral?
  {
    match self
    case BoolLiteral(b) => EvaluateBool(b, other, op)
    case ColorLiteral(c) => EvaluateColor(c, other, op)
    case PercentageLiteral(_) => Unmodelled
    case PixelLiteral(v) => EvaluatePixel(v, other, op)
    case ScalarLiteral(v) => EvaluateScalar(v, other, op)
  }

  /**
   * `getNumericValue()`. Bool and Color throw; Scalar gives its value. `PixelLiteral` declares
   * no such method in this revision: the model assumes it gives the pixel value.
   */
  function GetNumericValue(l: Literal): Result<int32> {
    match l
    case BoolLiteral(_) => Throws(UnsupportedOperation)
    case ColorLiteral(_) => Throws(UnsupportedOperation)
    case PercentageLiteral(_) => Unmodelled
    case PixelLiteral(v) => Ok(v)
    case ScalarLiteral(v) => Ok(v)
  }

  // ---------------------------------------------------------------- properties

  /** The node label's TRUE/FALSE reads back as the same value, but `toString` writes lower case,
      which the text constructor reads back as false. */
  lemma BoolTextRoundTrip(b: bool)
    ensures BoolFromText(if b then "TRUE" else "FALSE") == BoolLiteral(b)
    ensures ToString(BoolLiteral(b)).Ok?
    ensures BoolFromText(ToString(BoolLiteral(b)).value) == BoolLiteral(false)
  {
  }

  /** Parsing a scalar's `toString` gives back the same scalar. */
  lemma ScalarTextRoundTrip(v: int32)
    ensures ToString(ScalarLiteral(v)).Ok?
    ensures ScalarFromText(ToString(ScalarLiteral(v)).value) == Ok(ScalarLiteral(v))
  {
    IntTextRoundTrip(v);
  }

  /** Parsing a pixel literal's `toString` gives back the same pixel literal. */
  lemma PixelTextRoundTrip(v: int32)
    ensures ToString(PixelLiteral(v)).Ok?
    ensures PixelFromText(ToString(PixelLiteral(v)).value) == Ok(PixelLiteral(v))
  {
    var t := IntToString(v) + "px";
    assert t[..|t| - 2] == IntToString(v);
    IntTextRoundTrip(v);
  }

  /** The pixel text constructor never looks at the last two characters: any two-character
      suffix, `px` or not, gives the same result. */
  lemma PixelTextIgnoresSuffix(digits: string, suffix: string)
    requires |suffix| == 2
    ensures PixelFromText(digits + suffix) == PixelFromText(digits + "px")
    ensures PixelFromText(digits + suffix).Ok? <==> ParseInt(digits).Ok?
  {
    var t, u := digits + suffix, digits + "px";
    assert t[..|t| - 2] == digits && u[..|u| - 2] == digits;
  }

  /** A pixel text shorter than its two-character unit throws. */
  lemma PixelTextTooShort(text: string)
    requires |text| < 2
    ensures PixelFromText(text) == Throws(StringIndexOutOfBounds)
  {
  }

  /** `ColorLiteral.toString` returns the stored text unchanged, and `equals` holds exactly
      between colour literals with equal text. */
  lemma ColorTextAndEquality(s: string, o: Option<Literal>)
    ensures ToString(ColorLiteral(s)) == Ok(s)
    ensures ColorEquals(s, o) <==> o == Some(ColorLiteral(s))
  {
  }

  /**
   * The shared pixel and scalar operator chain is a consistent ordering: exactly one of `<`,
   * `==`, `>` holds, `<=` and `>=` are their unions, and swapping the operands swaps `<` and
   * `>`. `NumericComparisonValues` states which integer relation each operator answers.
   */
  lemma NumericOrderingConsistent(a: int32, b: int32)
    ensures CompareInts(a, b, LT).Ok? && CompareInts(a, b, EQ).Ok? && CompareInts(a, b, GT).Ok?
    ensures CompareInts(a, b, LET).Ok? && CompareInts(a, b, GET).Ok?
    ensures CompareInts(a, b, LT).value || CompareInts(a, b, EQ).value || CompareInts(a, b, GT).value
    ensures !(CompareInts(a, b, LT).value && CompareInts(a, b, EQ).value)
    ensures !(CompareInts(a, b, LT).value && CompareInts(a, b, GT).value)
    ensures !(CompareInts(a, b, EQ).value && CompareInts(a, b, GT).value)
    ensures CompareInts(a, b, LET).value == (CompareInts(a, b, LT).value || CompareInts(a, b, EQ).value)
    ensures CompareInts(a, b, GET).value == (CompareInts(a, b, GT).value || CompareInts(a, b, EQ).value)
    ensures CompareInts(a, b, LT) == CompareInts(b, a, GT)
  {
  }

  /** A scalar or pixel comparison of two literals of its own class answers the integer
      `<`, `<=`, `==`, `>=` and `>` for `LT`, `LET`, `EQ`, `GET` and `GT`. */
  lemma NumericComparisonValues(a: int32, b: int32)
    ensures EvaluateScalar(a, Some(ScalarLiteral(b)), LT) == Ok(a < b)
    ensures EvaluateScalar(a, Some(ScalarLiteral(b)), LET) == Ok(a <= b)
    ensures EvaluateScalar(a, Some(ScalarLiteral(b)), EQ) == Ok(a == b)
    ensures EvaluateScalar(a, Some(ScalarLiteral(b)), GET) == Ok(a >= b)
    ensures EvaluateScalar(a, Some(ScalarLiteral(b)), GT) == Ok(a > b)
    ensures EvaluatePixel(a, Some(PixelLiteral(b)), LT) == Ok(a < b)
    ensures EvaluatePixel(a, Some(PixelLiteral(b)), LET) == Ok(a <= b)
    ensures EvaluatePixel(a, Some(PixelLiteral(b)), EQ) == Ok(a == b)
    ensures EvaluatePixel(a, Some(PixelLiteral(b)), GET) == Ok(a >= b)
    ensures EvaluatePixel(a, Some(PixelLiteral(b)), GT) == Ok(a > b)
  {
  }

  /** For pixels and scalars `!=` is computed as `<`: it is false on equal values, as `!=`
      should be, but also for any greater left operand, although the two values differ. */
  lemma NotEqualIsLessThan(a: int32, b: int32)
    ensures EvaluateScalar(a, Some(ScalarLiteral(b)), NQ) == Ok(a < b)
    ensures EvaluatePixel(a, Some(PixelLiteral(b)), NQ) == Ok(a < b)
    ensures a == b ==> EvaluateScalar(a, Some(ScalarLiteral(b)), NQ) == Ok(false)
    ensures a > b ==> a != b && EvaluateScalar(a, Some(ScalarLiteral(b)), NQ) == Ok(false)
                      && EvaluatePixel(a, Some(PixelLiteral(b)), NQ) == Ok(false)
  {
  }

  /** Comparing a literal with a literal of another class (or with `null`) throws
      IllegalArgumentException, whatever the operator. */
  lemma MismatchedKindsThrow(self: Literal, other: Option<Literal>, op: ComparisonOperator)
    requires !self.PercentageLiteral?
    requires other.None? || !SameKind(self, other.value)
    ensures Evaluate(self, other, op) == Throws(IllegalArgument)
  {
  }

  /** Ordering operators throw IllegalArgumentException on Bool and Color literals; the logic
      operators are defined on Bool only, and throw IllegalStateException on the other classes. */
  lemma OperatorDomains(self: Literal, other: Literal, op: ComparisonOperator)
    requires SameKind(self, other) && !self.PercentageLiteral?
    ensures IsOrdering(op) && (self.BoolLiteral? || self.ColorLiteral?) ==>
              Evaluate(self, Some(other), op) == Throws(IllegalArgument)
    ensures (op.AND? || op.OR?) ==>
              (Evaluate(self, Some(other), op).Ok? <==> self.BoolLiteral?)
    ensures (op.AND? || op.OR?) && !self.BoolLiteral? ==>
              Evaluate(self, Some(other), op) == Throws(IllegalState)
    ensures (op.EQ? || op.NQ?) ==> Evaluate(self, Some(other), op).Ok?
  {
  }

  /** On Bool and Color literals `==` and `!=` are each other's negation; on Bool `&&` and `||`
      are the boolean connectives. */
  lemma EqualityOperatorsComplementary(self: Literal, other: Literal)
    requires SameKind(self, other) && (self.BoolLiteral? || self.ColorLiteral?)
    ensures Evaluate(self, Some(other), EQ).Ok? && Evaluate(self, Some(other), NQ).Ok?
    ensures Evaluate(self, Some(other), NQ).value == !Evaluate(self, Some(other), EQ).value
    ensures Evaluate(self, Some(other), EQ).value <==> self == other
    ensures self.BoolLiteral? ==>
              Evaluate(self, Some(other), AND) == Ok(self.b && other.b)
              && Evaluate(self, Some(other), OR) == Ok(self.b || other.b)
  {
  }

  /** Only Bool and Color literals refuse a numeric value; a scalar's is its value. */
  lemma NumericValueDomain(l: Literal)
    requires !l.PercentageLiteral?
    ensures GetNumericValue(l).Throws? <==> (l.BoolLiteral? || l.ColorLiteral?)
    ensures GetNumericValue(l).Throws? ==> GetNumericValue(l).exception == UnsupportedOperation
    ensures l.ScalarLiteral? ==> GetNumericValue(l) == Ok(l.scalar)
  {
  }
}
