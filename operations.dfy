/**
 * `AddOperation`, `SubtractOperation` and `MultiplyOperation`: their node labels and
 * `evaluate()`, which casts both operands to `Literal` and combines their numeric values
 * with Java `int` arithmetic.
 */
module Operations {
  import opened JavaLang
  import opened Literals
  import opened Ast

  /** `getNodeLabel()`: the operation's name. */
  function NodeLabel(k: OperationKind): (r: string)
    ensures k.Add? <==> r == "Add"
    ensures k.Subtract? <==> r == "Subtract"
    ensures k.Multiply? <==> r == "Multiply"
  {
    match k
    case Add => "Add"
    case Subtract => "Subtract"
    case Multiply => "Multiply"
  }

  /** `((Literal) e).getNumericValue()`: a cast, then the literal's numeric value. */
  function OperandValue(e: Expression): Result<int32> {
    match e
    case Lit(l) => GetNumericValue(l)
    case Null => Throws(NullPointer)
    case _ => Throws(ClassCast)
  }

  /** The mathematical value of the operator applied to two `int`s, before wrapping. */
  function Exact(k: OperationKind, a: int, b: int): int {
    match k
    case Add => a + b
    case Subtract => a - b
    case Multiply => a * b
  }

  /**
   * `evaluate()`: the left operand is cast and asked for its value first, then the right one;
   * the result is the `int` that Java's 32-bit arithmetic gives.
   */
  function Evaluate(k: OperationKind, lhs: Expression, rhs: Expression): (r: Result<int32>)
    ensures r.Ok? <==> OperandValue(lhs).Ok? && OperandValue(rhs).Ok?
    ensures r.Ok? ==> (r.value - Exact(k, OperandValue(lhs).value, OperandValue(rhs).value)) % TWO_POW_32 == 0
    ensures OperandValue(lhs).IsFailure() ==> r == OperandValue(lhs).PropagateFailure()
  {
    var a :- OperandValue(lhs);
    var b :- OperandValue(rhs);
    Ok(Wrap32(Exact(k, a, b)))
  }

  // ---------------------------------------------------------------- properties

  /** Without overflow the result is the exact sum, difference or product. */
  lemma EvaluateExactInRange(k: OperationKind, a: int32, b: int32)
    requires INT_MIN <= Exact(k, a, b) <= INT_MAX
    ensures Evaluate(k, Lit(ScalarLiteral(a)), Lit(ScalarLiteral(b))) == Ok(Exact(k, a, b))
  {
  }

  /** Past the range of an `int` the sum wraps around, as in Java. */
  lemma AddOverflowWraps()
    ensures Evaluate(Add, Lit(ScalarLiteral(INT_MAX)), Lit(ScalarLiteral(1))) == Ok(INT_MIN)
  {
  }

  /** Addition and multiplication do not depend on operand order when both operands have a value. */
  lemma Commutative(k: OperationKind, lhs: Expression, rhs: Expression)
    requires k.Add? || k.Multiply?
    requires OperandValue(lhs).Ok? && OperandValue(rhs).Ok?
    ensures Evaluate(k, lhs, rhs) == Evaluate(k, rhs, lhs)
  {
    var a, b := OperandValue(lhs).value, OperandValue(rhs).value;
    assert Exact(k, a, b) == Exact(k, b, a);
  }

  /** Swapping the operands of a subtraction negates the result (in `int` arithmetic). */
  lemma SubtractAntisymmetric(lhs: Expression, rhs: Expression)
    requires OperandValue(lhs).Ok? && OperandValue(rhs).Ok?
    ensures Evaluate(Subtract, lhs, rhs).Ok? && Evaluate(Subtract, rhs, lhs).Ok?
    ensures Evaluate(Subtract, lhs, rhs).value == Wrap32(0 - Evaluate(Subtract, rhs, lhs).value)
  {
    var a, b := OperandValue(lhs).value, OperandValue(rhs).value;
    var ba := Wrap32(b - a);
    assert (ba - (b - a)) % TWO_POW_32 == 0;
    assert ((0 - ba) - (a - b)) % TWO_POW_32 == 0 by {
      assert (0 - ba) - (a - b) == 0 - (ba - (b - a));
      NegatedMultiple(ba - (b - a));
    }
    WrapCongruent(0 - ba, a - b);
  }

  lemma NegatedMultiple(x: int)
    requires x % TWO_POW_32 == 0
    ensures (0 - x) % TWO_POW_32 == 0
  {
    var k := x / TWO_POW_32;
    assert 0 - x == (0 - k) * TWO_POW_32;
  }

  /** Subtracting an operand from itself gives 0. */
  lemma SubtractSelfIsZero(e: Expression)
    requires OperandValue(e).Ok?
    ensures Evaluate(Subtract, e, e) == Ok(0)
  {
  }

  /** Multiplying by an operand whose value is 1 leaves the other value unchanged. */
  lemma MultiplyByOne(lhs: Expression, rhs: Expression)
    requires OperandValue(lhs).Ok? && OperandValue(rhs) == Ok(1)
    ensures Evaluate(Multiply, lhs, rhs) == OperandValue(lhs)
    ensures Evaluate(Multiply, rhs, lhs) == OperandValue(lhs)
  {
  }

  /** A Bool or Color operand has no numeric value: `evaluate` throws
      UnsupportedOperationException, unless the left operand has already thrown. */
  lemma NonNumericOperandThrows(k: OperationKind, lhs: Expression, rhs: Expression)
    requires (lhs.Lit? && (lhs.value.BoolLiteral? || lhs.value.ColorLiteral?))
          || (OperandValue(lhs).Ok? && rhs.Lit? && (rhs.value.BoolLiteral? || rhs.value.ColorLiteral?))
    ensures Evaluate(k, lhs, rhs) == Throws(UnsupportedOperation)
  {
  }

  /** An operand that is not a literal fails the cast; a `null` operand throws
      NullPointerException. */
  lemma NonLiteralOperandThrows(k: OperationKind, lhs: Expression, rhs: Expression)
    requires !lhs.Lit?
    ensures Evaluate(k, lhs, rhs) == Throws(if lhs.Null? then NullPointer else ClassCast)
  {
  }
}
