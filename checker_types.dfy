/**
 * The typing rules of the ICSS checker (`Checker.java`) as pure functions over the scope
 * stack: variable lookup, the type of an expression, and the work-stack algorithm that decides
 * whether an arithmetic operation is legal, with a recursive reference definition of legality
 * that the work-stack algorithm is proved to agree with.
 *
 * The scope stack is a sequence of maps whose element 0 is the innermost scope, as the Java
 * `LinkedList` is filled with `addFirst` and searched from its first element.
 */
module CheckerTypes {
  import opened JavaLang
  import opened Literals
  import opened Ast

  datatype ExpressionType = Undefined | Bool | Color | Percentage | Pixel | Scalar

  /** The text that `String.format("%s", type)` gives: the enum constant's name. */
  function TypeName(t: ExpressionType): string {
    match t
    case Undefined => "UNDEFINED"
    case Bool => "BOOL"
    case Color => "COLOR"
    case Percentage => "PERCENTAGE"
    case Pixel => "PIXEL"
    case Scalar => "SCALAR"
  }

  type Scope = map<string, ExpressionType>

  // ---------------------------------------------------------------- variable lookup

  /** True when some scope binds `name` (`isVariableInScope`). */
  predicate InScope(scopes: seq<Scope>, name: string) {
    exists i :: 0 <= i < |scopes| && name in scopes[i]
  }

  /**
   * `getVariableExpressionType(name)`: the type bound in the innermost scope that binds `name`,
   * or `Undefined` when no scope does.
   */
  function VariableType(scopes: seq<Scope>, name: string): ExpressionType {
    if |scopes| == 0 then Undefined
    else if name in scopes[0] then scopes[0][name]
    else VariableType(scopes[1..], name)
  }

  /** The index of the innermost scope that binds `name`. */
  predicate InnermostBinder(scopes: seq<Scope>, name: string, i: int) {
    0 <= i < |scopes| && name in scopes[i] && forall j :: 0 <= j < i ==> name !in scopes[j]
  }

  /** Lookup returns the binding of the innermost scope that binds the name, and `Undefined`
      exactly when no scope binds it or that binding is itself `Undefined`. */
  lemma {:induction false} VariableTypeInnermost(scopes: seq<Scope>, name: string)
    ensures !InScope(scopes, name) ==> VariableType(scopes, name) == Undefined
    ensures InScope(scopes, name) ==>
              exists i :: InnermostBinder(scopes, name, i) && VariableType(scopes, name) == scopes[i][name]
  {
    if |scopes| > 0 && name !in scopes[0] {
      var tail := scopes[1..];
      VariableTypeInnermost(tail, name);
      if InScope(scopes, name) {
        var i :| 0 <= i < |scopes| && name in scopes[i];
        assert i > 0 && name in tail[i - 1];
        var k :| InnermostBinder(tail, name, k) && VariableType(tail, name) == tail[k][name];
        assert InnermostBinder(scopes, name, k + 1) by {
          forall j | 0 <= j < k + 1
            ensures name !in scopes[j]
          {
            if j > 0 {
              assert scopes[j] == tail[j - 1];
            }
          }
        }
      } else {
        assert !InScope(tail, name);
      }
    } else if |scopes| > 0 {
      assert InnermostBinder(scopes, name, 0);
    }
  }

  /** A binding in the innermost scope hides every outer binding of the same name. */
  lemma InnermostBindingWins(scopes: seq<Scope>, name: string, t: ExpressionType)
    requires |scopes| > 0
    ensures VariableType([scopes[0][name := t]] + scopes[1..], name) == t
  {
  }

  // ---------------------------------------------------------------- expression types

  function LiteralType(l: Literal): (t: ExpressionType)
    ensures t != Undefined
  {
    match l
    case BoolLiteral(_) => Bool
    case ColorLiteral(_) => Color
    case PercentageLiteral(_) => Percentage
    case PixelLiteral(_) => Pixel
    case ScalarLiteral(_) => Scalar
  }

  /**
   * `determineOperationExpressionType`: a Percentage literal on either side wins, then a Pixel
   * literal, then two Scalar literals; otherwise the left operand's type if it is an operation,
   * else the right operand's, else `Undefined`. It never yields Bool or Color.
   */
  function DetermineOperationExpressionType(lhs: Expression, rhs: Expression): (t: ExpressionType)
    ensures t != Bool && t != Color
    ensures t == Scalar ==> (lhs.Lit? && lhs.value.ScalarLiteral? && rhs.Lit? && rhs.value.ScalarLiteral?)
                            || lhs.Operation? || rhs.Operation?
    decreases ExprSize(lhs) + ExprSize(rhs)
  {
    if IsLiteralOf(lhs, Percentage) || IsLiteralOf(rhs, Percentage) then Percentage
    else if IsLiteralOf(lhs, Pixel) || IsLiteralOf(rhs, Pixel) then Pixel
    else if IsLiteralOf(lhs, Scalar) && IsLiteralOf(rhs, Scalar) then Scalar
    else if lhs.Operation? then DetermineOperationExpressionType(lhs.lhs, lhs.rhs)
    else if rhs.Operation? then DetermineOperationExpressionType(rhs.lhs, rhs.rhs)
    else Undefined
  }

  predicate IsLiteralOf(e: Expression, t: ExpressionType) {
    e.Lit? && LiteralType(e.value) == t
  }

  /** `determineExpressionType`. */
  function DetermineExpressionType(e: Expression, scopes: seq<Scope>): (t: ExpressionType)
    ensures t == Bool <==> IsLiteralOf(e, Bool) || e.BooleanExpression? || e.BooleanComparison?
                           || (e.VariableReference? && VariableType(scopes, e.name) == Bool)
    ensures t == Color <==> IsLiteralOf(e, Color)
                            || (e.VariableReference? && VariableType(scopes, e.name) == Color)
    ensures e.Null? ==> t == Undefined
  {
    match e
    case Lit(l) => LiteralType(l)
    case BooleanExpression(_, _) => Bool
    case BooleanComparison(_, _, _, _) => Bool
    case VariableReference(name) => VariableType(scopes, name)
    case Operation(_, l, r) => DetermineOperationExpressionType(l, r)
    case Null => Undefined
  }

  // ---------------------------------------------------------------- operation legality

  /** `hasIllegalExpressionTypes`. */
  predicate HasIllegalExpressionTypes(a: ExpressionType, b: ExpressionType) {
    a == Color || b == Color || a == Bool || b == Bool
  }

  /** A step of the work-stack algorithm: whether the operation is illegal so far, and the
      work stack after it. */
  datatype Step = Step(illegal: bool, work: seq<ExpressionType>)

  /**
   * `addExpressionTypeToList(e)`: an operation is validated recursively, a bound variable or a
   * literal pushes its type, an unbound variable makes the operation illegal, and any other
   * expression pushes nothing.
   */
  function AddOperand(e: Expression, scopes: seq<Scope>, work: seq<ExpressionType>): Result<Step>
    decreases ExprSize(e), 1
  {
    match e
    case Operation(k, l, r) =>
      ValidateOperation(k, l, r, scopes, work)
    case VariableReference(name) =>
      var t := VariableType(scopes, name);
      if t != Undefined then Ok(Step(false, [t] + work)) else Ok(Step(true, work))
    case Lit(l) => Ok(Step(false, [LiteralType(l)] + work))
    case _ => Ok(Step(false, work))
  }

  /**
   * `validateOperation`: pushes the operand types (left, then right), then checks the top two
   * entries. In the returned `Step`, `illegal` is the negation of Java's boolean result:
   * `Step(false, w)` means the operation is legal.
   */
  function ValidateOperation(k: OperationKind, lhs: Expression, rhs: Expression,
                             scopes: seq<Scope>, work: seq<ExpressionType>): Result<Step>
    decreases 1 + ExprSize(lhs) + ExprSize(rhs), 0
  {
    var left :- AddOperand(lhs, scopes, work);
    if left.illegal then Ok(Step(true, left.work))
    else
      var right :- AddOperand(rhs, scopes, left.work);
      if right.illegal then Ok(Step(true, right.work))
      else ValidateOperationExpressionTypes(k, right.work)
  }

  /**
   * `validateOperationExpressionTypes`: removes the top two entries. The first one removed,
   * which the source calls `leftType`, is the type pushed last, i.e. the right operand's.
   * An empty stack throws NoSuchElementException.
   */
  function ValidateOperationExpressionTypes(k: OperationKind, work: seq<ExpressionType>): Result<Step> {
    if |work| < 2 then Throws(NoSuchElement)
    else
      var leftType, rightType, rest := work[0], work[1], work[2..];
      if HasIllegalExpressionTypes(leftType, rightType) then Ok(Step(true, rest))
      else if k.Add? || k.Subtract? then ValidateAddSubtract(leftType, rightType, rest)
      else ValidateMultiply(leftType, rightType, rest)
  }

  /** `validateAddSubtractOperationExpressionTypes`. */
  function ValidateAddSubtract(leftType: ExpressionType, rightType: ExpressionType,
                               rest: seq<ExpressionType>): Result<Step> {
    if leftType == rightType then Ok(Step(false, [leftType] + rest)) else Ok(Step(true, rest))
  }

  /** `validateMultiplyExpressionTypes`. */
  function ValidateMultiply(leftType: ExpressionType, rightType: ExpressionType,
                            rest: seq<ExpressionType>): Result<Step> {
    var hasAtLeastOneScalar := leftType == Scalar || rightType == Scalar;
    var hasValidExpressionType := leftType == Pixel || rightType == Pixel
                                  || leftType == Percentage || rightType == Percentage
                                  || rightType == Scalar;
    if hasAtLeastOneScalar && hasValidExpressionType then
      Ok(Step(false, [if leftType != Scalar then leftType else rightType] + rest))
    else Ok(Step(true, rest))
  }

  /** `isOperationAllowed`: the work stack is cleared first. */
  function IsOperationAllowed(k: OperationKind, lhs: Expression, rhs: Expression, scopes: seq<Scope>): Result<Step> {
    ValidateOperation(k, lhs, rhs, scopes, [])
  }

  // ---------------------------------------------------------------- reference definition

  /** Operands built from literals, variable references and operations only. */
  predicate Simple(e: Expression) {
    match e
    case Lit(_) => true
    case VariableReference(_) => true
    case Operation(_, l, r) => Simple(l) && Simple(r)
    case _ => false
  }

  /** The type of a simple operand, or `None` when it is illegal. */
  function OperandType(e: Expression, scopes: seq<Scope>): Option<ExpressionType>
    decreases ExprSize(e), 1
  {
    match e
    case Lit(l) => Some(LiteralType(l))
    case VariableReference(name) =>
      var t := VariableType(scopes, name);
      if t == Undefined then None else Some(t)
    case Operation(k, l, r) => OperationType(k, l, r, scopes)
    case _ => None
  }

  /**
   * The arithmetic typing rules: no Color or Bool operand and no unbound variable; addition
   * and subtraction need equal operand types and keep that type; multiplication needs a
   * Scalar operand and has the other operand's type.
   */
  function OperationType(k: OperationKind, lhs: Expression, rhs: Expression, scopes: seq<Scope>): (r: Option<ExpressionType>)
    decreases 1 + ExprSize(lhs) + ExprSize(rhs), 0
    ensures r.Some? ==> r.value in {Percentage, Pixel, Scalar}
  {
    var lt, rt := OperandType(lhs, scopes), OperandType(rhs, scopes);
    if lt.None? || rt.None? then None
    else if HasIllegalExpressionTypes(lt.value, rt.value) || lt.value == Undefined || rt.value == Undefined then None
    else if k.Add? || k.Subtract? then (if lt.value == rt.value then Some(lt.value) else None)
    else if lt.value == Scalar then Some(rt.value)
    else if rt.value == Scalar then Some(lt.value)
    else None
  }

  /** Operand types that can sit on the work stack of a simple operation. */
  lemma OperandTypeRange(e: Expression, scopes: seq<Scope>)
    ensures OperandType(e, scopes).Some? ==> OperandType(e, scopes).value != Undefined
  {
  }

  /**
   * For a simple operand, `addExpressionTypeToList` never throws; it reports the operand
   * illegal exactly when the reference definition gives no type, and otherwise pushes that type.
   */
  lemma {:induction false} AddOperandAgrees(e: Expression, scopes: seq<Scope>, work: seq<ExpressionType>)
    requires Simple(e)
    ensures AddOperand(e, scopes, work).Ok?
    ensures AddOperand(e, scopes, work).value.illegal <==> OperandType(e, scopes).None?
    ensures OperandType(e, scopes).Some? ==>
              AddOperand(e, scopes, work).value.work == [OperandType(e, scopes).value] + work
    decreases ExprSize(e), 1
  {
    match e
    case Operation(k, l, r) =>
      ValidateOperationAgrees(k, l, r, scopes, work);
    case _ =>
  }

  /**
   * For simple operands the work-stack algorithm agrees with the reference definition: it
   * never throws, accepts exactly the operations that have a type, and leaves exactly that
   * type on top of the work stack it was given.
   */
  lemma {:induction false} ValidateOperationAgrees(k: OperationKind, lhs: Expression, rhs: Expression,
                                                   scopes: seq<Scope>, work: seq<ExpressionType>)
    requires Simple(lhs) && Simple(rhs)
    ensures ValidateOperation(k, lhs, rhs, scopes, work).Ok?
    ensures !ValidateOperation(k, lhs, rhs, scopes, work).value.illegal <==> OperationType(k, lhs, rhs, scopes).Some?
    ensures OperationType(k, lhs, rhs, scopes).Some? ==>
              ValidateOperation(k, lhs, rhs, scopes, work).value.work == [OperationType(k, lhs, rhs, scopes).value] + work
    decreases 1 + ExprSize(lhs) + ExprSize(rhs), 0
  {
    AddOperandAgrees(lhs, scopes, work);
    OperandTypeRange(lhs, scopes);
    OperandTypeRange(rhs, scopes);
    var left := AddOperand(lhs, scopes, work).value;
    if !left.illegal {
      AddOperandAgrees(rhs, scopes, left.work);
      var right := AddOperand(rhs, scopes, left.work).value;
      if !right.illegal {
        var lt, rt := OperandType(lhs, scopes).value, OperandType(rhs, scopes).value;
        assert right.work == [rt, lt] + work;
      }
    }
  }

  /** `isOperationAllowed` on a simple operation answers the reference definition. */
  lemma IsOperationAllowedAgrees(k: OperationKind, lhs: Expression, rhs: Expression, scopes: seq<Scope>)
    requires Simple(lhs) && Simple(rhs)
    ensures IsOperationAllowed(k, lhs, rhs, scopes).Ok?
    ensures !IsOperationAllowed(k, lhs, rhs, scopes).value.illegal <==> OperationType(k, lhs, rhs, scopes).Some?
  {
    ValidateOperationAgrees(k, lhs, rhs, scopes, []);
  }

  /** Arithmetic with a Color or Bool operand, or with an unbound variable, is illegal. */
  lemma IllegalOperands(k: OperationKind, lhs: Expression, rhs: Expression, scopes: seq<Scope>)
    requires Simple(lhs) && Simple(rhs)
    requires OperandType(lhs, scopes) in {Some(Color), Some(Bool), None}
             || OperandType(rhs, scopes) in {Some(Color), Some(Bool), None}
    ensures IsOperationAllowed(k, lhs, rhs, scopes).Ok? && IsOperationAllowed(k, lhs, rhs, scopes).value.illegal
  {
    IsOperationAllowedAgrees(k, lhs, rhs, scopes);
  }

  /** Addition and subtraction of two typed operands are legal exactly when the types agree;
      multiplication exactly when one side is Scalar, and it takes the other side's type. */
  lemma ArithmeticTypeRules(k: OperationKind, lhs: Expression, rhs: Expression, scopes: seq<Scope>, lt: ExpressionType, rt: ExpressionType)
    requires OperandType(lhs, scopes) == Some(lt) && OperandType(rhs, scopes) == Some(rt)
    requires lt in {Percentage, Pixel, Scalar} && rt in {Percentage, Pixel, Scalar}
    ensures (k.Add? || k.Subtract?) ==> OperationType(k, lhs, rhs, scopes) == (if lt == rt then Some(lt) else None)
    ensures k.Multiply? ==> (OperationType(k, lhs, rhs, scopes).Some? <==> lt == Scalar || rt == Scalar)
    ensures k.Multiply? && lt == Scalar ==> OperationType(k, lhs, rhs, scopes) == Some(rt)
    ensures k.Multiply? && rt == Scalar ==> OperationType(k, lhs, rhs, scopes) == Some(lt)
  {
  }

  /** An operand that is neither a literal, a variable nor an operation pushes nothing, so the
      check reads past it: with nothing else on the work stack it throws NoSuchElementException. */
  lemma NonArithmeticOperandUnderflows(k: OperationKind, scopes: seq<Scope>, l: Literal)
    ensures IsOperationAllowed(k, Null, Null, scopes) == Throws(NoSuchElement)
    ensures IsOperationAllowed(k, Lit(l), BooleanExpression(false, Lit(BoolLiteral(true))), scopes) == Throws(NoSuchElement)
  {
    assert AddOperand(Null, scopes, []) == Ok(Step(false, []));
    assert ValidateOperationExpressionTypes(k, []) == Throws(NoSuchElement);
    var w := [LiteralType(l)];
    assert [LiteralType(l)] + [] == w;
    assert AddOperand(Lit(l), scopes, []) == Ok(Step(false, w));
    assert AddOperand(BooleanExpression(false, Lit(BoolLiteral(true))), scopes, w) == Ok(Step(false, w));
    assert ValidateOperationExpressionTypes(k, w) == Throws(NoSuchElement);
  }

  /** The declared type of an operation of two literals is the reference type whenever the
      operation is legal. */
  lemma DeterminedTypeOfLegalLiteralOperation(k: OperationKind, a: Literal, b: Literal, scopes: seq<Scope>)
    requires OperationType(k, Lit(a), Lit(b), scopes).Some?
    ensures DetermineOperationExpressionType(Lit(a), Lit(b)) == OperationType(k, Lit(a), Lit(b), scopes).value
  {
  }

  /** The literal rules of `determineOperationExpressionType`, in the source's order: a
      Percentage literal on either side wins, then a Pixel literal on either side, then two
      Scalar literals. */
  lemma DeterminedTypeLiteralRules(lhs: Expression, rhs: Expression)
    ensures IsLiteralOf(lhs, Percentage) || IsLiteralOf(rhs, Percentage) ==>
              DetermineOperationExpressionType(lhs, rhs) == Percentage
    ensures !IsLiteralOf(lhs, Percentage) && !IsLiteralOf(rhs, Percentage)
            && (IsLiteralOf(lhs, Pixel) || IsLiteralOf(rhs, Pixel)) ==>
              DetermineOperationExpressionType(lhs, rhs) == Pixel
    ensures IsLiteralOf(lhs, Scalar) && IsLiteralOf(rhs, Scalar) ==>
              DetermineOperationExpressionType(lhs, rhs) == Scalar
  {
  }

  /** When no literal rule applies, a left operand that is an operation decides the declared
      type, whatever the right operand is. */
  lemma DeterminedTypeFollowsLeftOperation(lhs: Expression, rhs: Expression)
    requires lhs.Operation?
    requires !IsLiteralOf(rhs, Percentage) && !IsLiteralOf(rhs, Pixel)
    ensures DetermineOperationExpressionType(lhs, rhs) == DetermineOperationExpressionType(lhs.lhs, lhs.rhs)
  {
  }

  /** Only when the left operand is not an operation does a right operand that is one decide. */
  lemma DeterminedTypeFollowsRightOperation(lhs: Expression, rhs: Expression)
    requires !lhs.Operation? && rhs.Operation?
    requires !IsLiteralOf(lhs, Percentage) && !IsLiteralOf(lhs, Pixel)
    ensures DetermineOperationExpressionType(lhs, rhs) == DetermineOperationExpressionType(rhs.lhs, rhs.rhs)
  {
  }

  /** With no literal rule and no operation operand the declared type is `Undefined`; in
      particular `$w * 2` is declared `Undefined` whatever `$w` is bound to. */
  lemma DeterminedTypeUndefinedFallback(lhs: Expression, rhs: Expression, name: string, v: int32)
    ensures !lhs.Operation? && !rhs.Operation?
            && !IsLiteralOf(lhs, Percentage) && !IsLiteralOf(rhs, Percentage)
            && !IsLiteralOf(lhs, Pixel) && !IsLiteralOf(rhs, Pixel)
            && !(IsLiteralOf(lhs, Scalar) && IsLiteralOf(rhs, Scalar)) ==>
              DetermineOperationExpressionType(lhs, rhs) == Undefined
    ensures DetermineOperationExpressionType(VariableReference(name), Lit(ScalarLiteral(v))) == Undefined
  {
  }

  /** Following the left operation can contradict the operation's real type:
      `(2 * 3) * (4px * 5)` is declared Scalar although it is a legal Pixel product. */
  lemma DeclaredTypeCanDisagree(scopes: seq<Scope>)
    ensures var lhs := Operation(Multiply, Lit(ScalarLiteral(2)), Lit(ScalarLiteral(3)));
            var rhs := Operation(Multiply, Lit(PixelLiteral(4)), Lit(ScalarLiteral(5)));
            DetermineOperationExpressionType(lhs, rhs) == Scalar
            && OperationType(Multiply, lhs, rhs, scopes) == Some(Pixel)
  {
  }
}
