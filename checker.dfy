/**
 * `Checker`: the object that walks the tree with its two stacks, the scope stack
 * `variableTypes` (innermost first) and the work stack `expressionTypes`. Every method is
 * proved to do what the corresponding function of `CheckerSpec` or `CheckerTypes` says;
 * `errors` is the log of the `setError` calls made on the nodes.
 */
module TypeChecker {
  import opened JavaLang
  import opened ComparisonOperators
  import opened Literals
  import opened Ast
  import opened CheckerTypes
  import CheckerSpec

  /** A method's outcome against a `Step` of the specification: the same exception, or
      Java's boolean (`valid`, or `illegal` when `flagsIllegal`) with the work stack `work`. */
  predicate Answers(r: Result<bool>, s: Result<Step>, flagsIllegal: bool, work: seq<ExpressionType>) {
    match s
    case Ok(step) => r == Ok(if flagsIllegal then step.illegal else !step.illegal) && work == step.work
    case Throws(e) => r == Throws(e)
    case Unmodelled => r == Unmodelled
  }

  class Checker {
    var variableTypes: seq<Scope>
    var expressionTypes: seq<ExpressionType>
    var errors: seq<CheckerSpec.Error>

    function State(): CheckerSpec.CheckState
      reads this
    {
      CheckerSpec.CheckState(variableTypes, expressionTypes, errors)
    }

    constructor ()
      ensures State() == CheckerSpec.CheckState([], [], [])
    {
      variableTypes := [];
      expressionTypes := [];
      errors := [];
    }

    /** `check(ast)`: both stacks start empty; errors already recorded on nodes stay. */
    method Check(root: Node) returns (r: Result<()>)
      requires root.Stylesheet?
      modifies this
      ensures var spec := CheckerSpec.CheckNode(root, CheckerSpec.CheckState([], [], old(errors)));
              r == Status(spec) && (r.Ok? ==> State() == spec.value && variableTypes == [])
    {
      variableTypes := [];
      expressionTypes := [];
      r := CheckChildren(root);
    }

    /** `checkChildren(node)`. */
    method CheckChildren(n: Node) returns (r: Result<()>)
      modifies this
      decreases Size(n), 0
      ensures r == Status(CheckerSpec.CheckNode(n, old(State())))
      ensures r.Ok? ==> State() == CheckerSpec.CheckNode(n, old(State())).value
    {
      ghost var st := State();
      var children := Children(n);
      var entered := EnterNode(n);
      if !entered.Ok? {
        return entered.PropagateFailure();
      }
      ghost var s4 := State();
      assert CheckerSpec.EnterNode(n, st) == Ok(s4);
      var visited := CheckEach(children);
      if !visited.Ok? {
        return visited;
      }
      ghost var s5 := State();
      assert CheckerSpec.CheckList(children, s4) == Ok(s5);
      if entered.value {
        assert |s5.scopes| == |s4.scopes| == |st.scopes| + 1;
        variableTypes := variableTypes[1..];
        assert CheckerSpec.CheckNode(n, st) == Ok(s5.(scopes := s5.scopes[1..]));
      } else {
        assert CheckerSpec.CheckNode(n, st) == Ok(s5);
      }
      return Ok(());
    }

    /** The steps of `checkChildren` before the children: `generateScope`,
        `registerVariables`, `checkScope` and `checkSemantic`. The result says whether a scope
        was opened. */
    method EnterNode(n: Node) returns (r: Result<bool>)
      modifies this
      ensures Status(r) == Status(CheckerSpec.EnterNode(n, old(State())))
      ensures r.Ok? ==> r.value == IsScopeNode(n) && State() == CheckerSpec.EnterNode(n, old(State())).value
    {
      ghost var st := State();
      var scopeCreated := GenerateScope(n);
      var registered := RegisterVariables(n);
      if !registered.Ok? {
        return registered.PropagateFailure();
      }
      CheckScope(n);
      var checked := CheckSemantic(n);
      if !checked.Ok? {
        return checked.PropagateFailure();
      }
      assert CheckerSpec.EnterNode(n, st) == Ok(State());
      return Ok(scopeCreated);
    }

    /** `children.forEach(this::checkChildren)`: stops at the first exception. */
    method CheckEach(children: seq<Node>) returns (r: Result<()>)
      modifies this
      decreases SizeList(children), 1
      ensures r == Status(CheckerSpec.CheckList(children, old(State())))
      ensures r.Ok? ==> State() == CheckerSpec.CheckList(children, old(State())).value
    {
      ghost var s0 := State();
      var i := 0;
      while i < |children|
        invariant 0 <= i <= |children|
        invariant CheckerSpec.CheckList(children[..i], s0) == Ok(State())
      {
        SizeListElement(children, i);
        assert children[..i + 1][..i] == children[..i];
        var c := CheckChildren(children[i]);
        if !c.Ok? {
          CheckerSpec.CheckListPrefixFailure(children, i + 1, s0);
          return c;
        }
        i := i + 1;
      }
      assert children[..i] == children;
      return Ok(());
    }

    /** `generateScope`: pushes an empty scope for a scope node and says whether it did. */
    method GenerateScope(n: Node) returns (created: bool)
      modifies this
      ensures created == IsScopeNode(n)
      ensures variableTypes == CheckerSpec.GenerateScope(n, old(variableTypes))
      ensures expressionTypes == old(expressionTypes) && errors == old(errors)
    {
      if IsScopeNode(n) {
        variableTypes := [map[]] + variableTypes;
        return true;
      }
      return false;
    }

    /** `node.setError(message)`. */
    method SetError(n: Node, message: string)
      modifies this
      ensures State() == CheckerSpec.AddError(old(State()), n, message)
    {
      errors := errors + [CheckerSpec.Error(n, message)];
    }

    /** `currentScope.put(name, t)`. */
    method Put(name: string, t: ExpressionType)
      requires |variableTypes| > 0
      modifies this
      ensures State() == CheckerSpec.Bind(old(State()), name, t)
    {
      variableTypes := [variableTypes[0][name := t]] + variableTypes[1..];
    }

    /** `registerVariables`. */
    method RegisterVariables(n: Node) returns (r: Result<()>)
      modifies this
      ensures r == Status(CheckerSpec.RegisterVariables(n, old(State())))
      ensures r.Ok? ==> State() == CheckerSpec.RegisterVariables(n, old(State())).value
    {
      if !n.VariableAssignment? {
        return Ok(());
      }
      if |variableTypes| == 0 {
        return Throws(NoSuchElement);
      }
      var existing := GetVariableExpressionType(n.name);
      var t := DetermineExpressionType(n.expression);
      var doesNotExistYet := existing == Undefined;
      var referencingUndefinedVariable := doesNotExistYet && t == Undefined;
      if !referencingUndefinedVariable && doesNotExistYet {
        Put(n.name, t);
      } else if !doesNotExistYet {
        var newValueIsOfSameType := t != Undefined && existing == t;
        if newValueIsOfSameType {
          Put(n.name, t);
        } else {
          SetError(n, "You can not change the data type of an existing variable! Expected type: "
                      + TypeName(existing) + " Actual type: " + TypeName(t));
        }
      } else {
        Put(n.name, Undefined);
      }
      return Ok(());
    }

    /** `checkScope`. */
    method CheckScope(n: Node)
      modifies this
      ensures State() == CheckerSpec.CheckScope(n, old(State()))
    {
      if n.Expr? && n.e.VariableReference? {
        var found := IsVariableInScope(n.e.name);
        if !found {
          SetError(n, n.e.name + " variable has not been initialized!");
        }
      }
    }

    /** `isVariableInScope`: scans the scopes from the innermost outwards. */
    method IsVariableInScope(name: string) returns (found: bool)
      ensures found == InScope(variableTypes, name)
    {
      var i := 0;
      while i < |variableTypes|
        invariant 0 <= i <= |variableTypes|
        invariant forall j :: 0 <= j < i ==> name !in variableTypes[j]
      {
        if name in variableTypes[i] {
          return true;
        }
        i := i + 1;
      }
      return false;
    }

    /** `getVariableExpressionType`: the first scope, from the innermost, that binds `name`. */
    method GetVariableExpressionType(name: string) returns (t: ExpressionType)
      ensures t == VariableType(variableTypes, name)
    {
      var i := 0;
      while i < |variableTypes|
        invariant 0 <= i <= |variableTypes|
        invariant VariableType(variableTypes[i..], name) == VariableType(variableTypes, name)
      {
        if name in variableTypes[i] {
          return variableTypes[i][name];
        }
        assert variableTypes[i..][1..] == variableTypes[i + 1..];
        i := i + 1;
      }
      return Undefined;
    }

    /** `determineExpressionType`. */
    method DetermineExpressionType(e: Expression) returns (t: ExpressionType)
      ensures t == CheckerTypes.DetermineExpressionType(e, variableTypes)
    {
      match e
      case Lit(l) => t := LiteralType(l);
      case BooleanExpression(_, _) => t := Bool;
      case BooleanComparison(_, _, _, _) => t := Bool;
      case VariableReference(name) => t := GetVariableExpressionType(name);
      case Operation(_, lhs, rhs) => t := DetermineOperationExpressionType(lhs, rhs);
      case Null => t := Undefined;
    }

    // ------------------------------------------------------------ semantic checks

    /** `checkSemantic`. */
    method CheckSemantic(n: Node) returns (r: Result<()>)
      modifies this
      ensures r == Status(CheckerSpec.CheckSemantic(n, old(State())))
      ensures r.Ok? ==> State() == CheckerSpec.CheckSemantic(n, old(State())).value
    {
      if n.Expr? && n.e.Operation? {
        r := CheckOperationSemantic(n);
      } else if n.Declaration? {
        r := CheckDeclarationSemantic(n);
      } else if n.IfClause? {
        CheckIfClauseSemantic(n);
        r := Ok(());
      } else if n.Expr? && n.e.BooleanComparison? {
        CheckBooleanComparisonSemantic(n);
        r := Ok(());
      } else if n.Expr? && n.e.BooleanExpression? {
        CheckBooleanExpressionSemantic(n);
        r := Ok(());
      } else {
        r := Ok(());
      }
    }

    /** `checkBooleanExpressionSemantic`. */
    method CheckBooleanExpressionSemantic(n: Node)
      requires n.Expr? && n.e.BooleanExpression?
      modifies this
      ensures State() == CheckerSpec.CheckConditionSemantic(n, old(State()))
    {
      var t := DetermineExpressionType(n.e.expression);
      if t != Bool {
        SetError(n, "BooleanExpression: Expected type: BOOL, Actual type: " + TypeName(t));
      }
    }

    /** `checkBooleanComparisonSemantic`. */
    method CheckBooleanComparisonSemantic(n: Node)
      requires n.Expr? && n.e.BooleanComparison?
      modifies this
      ensures State() == CheckerSpec.CheckBooleanComparisonSemantic(n, old(State()))
    {
      var left := DetermineExpressionType(n.e.left);
      var right := DetermineExpressionType(n.e.right);
      var bothSidesSameType := left == right;
      if bothSidesSameType {
        CheckValidityOperatorWithExpressionType(n, left, right, n.e.operator);
      } else {
        SetError(n, "BooleanComparison: Both sides must be of the same data type!");
      }
    }

    /** `checkValidityOperatorWithExpressionType`. */
    method CheckValidityOperatorWithExpressionType(n: Node, left: ExpressionType, right: ExpressionType,
                                                   op: ComparisonOperator)
      modifies this
      ensures var illegal := IsOrdering(op) && (left == Color || right == Bool);
              State() == if illegal then CheckerSpec.AddError(old(State()), n,
                             "BooleanComparison: Non numeric literals can not be used with the " + Symbol(op) + " operator")
                         else old(State())
    {
      var isNotEqualityOperator := op != EQ && op != NQ;
      var isNotLogicOperator := op != AND && op != OR;
      var isNonNumericExpressionType := left == Color || right == Bool;
      var isIllegalBooleanComparison := (isNotEqualityOperator && isNotLogicOperator) && isNonNumericExpressionType;
      assert isNotEqualityOperator && isNotLogicOperator <==> IsOrdering(op);
      if isIllegalBooleanComparison {
        SetError(n, "BooleanComparison: Non numeric literals can not be used with the " + Symbol(op) + " operator");
      }
    }

    /** `checkOperationSemantic`. */
    method CheckOperationSemantic(n: Node) returns (r: Result<()>)
      requires n.Expr? && n.e.Operation?
      modifies this
      ensures r == Status(CheckerSpec.CheckOperationSemantic(n, old(State())))
      ensures r.Ok? ==> State() == CheckerSpec.CheckOperationSemantic(n, old(State())).value
    {
      var allowed := IsOperationAllowed(n.e.kind, n.e.lhs, n.e.rhs);
      if !allowed.Ok? {
        return allowed.PropagateFailure();
      }
      if !allowed.value {
        SetError(n, "Illegal operation");
      }
      return Ok(());
    }

    /** `checkDeclarationSemantic`. */
    method CheckDeclarationSemantic(n: Node) returns (r: Result<()>)
      requires n.Declaration?
      modifies this
      ensures r == Status(CheckerSpec.CheckDeclarationSemantic(n, old(State())))
      ensures r.Ok? ==> State() == CheckerSpec.CheckDeclarationSemantic(n, old(State())).value
    {
      var propertyName := n.property;
      if CheckerSpec.IsPropertyIllegal(propertyName) {
        SetError(n, propertyName + " is not a legal property name!");
      }
      var allowed := IsPropertyValueTypeAllowed(propertyName, n.expression);
      if !allowed.Ok? {
        return allowed.PropagateFailure();
      }
      if !allowed.value {
        SetError(n, propertyName + " has an illegal value type or expression!");
      }
      return Ok(());
    }

    /** `checkIfClauseSemantic`. */
    method CheckIfClauseSemantic(n: Node)
      requires n.IfClause?
      modifies this
      ensures State() == CheckerSpec.CheckConditionSemantic(n, old(State()))
    {
      var t := DetermineExpressionType(n.condition);
      if t != Bool {
        SetError(n, "If Clause: Expected type: BOOL. Actual type: " + TypeName(t));
      }
    }

    /** `isPropertyValueTypeAllowed`. */
    method IsPropertyValueTypeAllowed(propertyName: string, e: Expression) returns (r: Result<bool>)
      modifies this
      ensures variableTypes == old(variableTypes) && errors == old(errors)
      ensures var s := CheckerSpec.IsPropertyValueTypeAllowed(propertyName, e, variableTypes, old(expressionTypes));
              (s.Ok? ==> r == Ok(s.value.0) && expressionTypes == s.value.1)
              && (!s.Ok? ==> r == s.PropagateFailure())
    {
      var t := DetermineExpressionType(e);
      var isExpression := t == Undefined;
      if propertyName == "background-color" || propertyName == "color" {
        if isExpression {
          if e.VariableReference? {
            t := GetVariableExpressionType(e.name);
          } else if e.Operation? {
            r := IsOperationAllowed(e.kind, e.lhs, e.rhs);
            return;
          }
        }
        return Ok(t == Color);
      } else {
        if isExpression {
          if e.VariableReference? {
            t := GetVariableExpressionType(e.name);
          } else if e.Operation? {
            r := IsOperationAllowed(e.kind, e.lhs, e.rhs);
            return;
          }
        }
        return Ok(t == Percentage || t == Pixel);
      }
    }

    // ------------------------------------------------------------ the work stack

    /** `isOperationAllowed`: clears the work stack, then validates. */
    method IsOperationAllowed(k: OperationKind, lhs: Expression, rhs: Expression) returns (r: Result<bool>)
      modifies this
      ensures variableTypes == old(variableTypes) && errors == old(errors)
      ensures Answers(r, CheckerTypes.IsOperationAllowed(k, lhs, rhs, variableTypes), false, expressionTypes)
    {
      expressionTypes := [];
      r := ValidateOperation(k, lhs, rhs);
    }

    /** `validateOperation`. */
    method ValidateOperation(k: OperationKind, lhs: Expression, rhs: Expression) returns (r: Result<bool>)
      modifies this
      decreases 1 + ExprSize(lhs) + ExprSize(rhs), 0
      ensures variableTypes == old(variableTypes) && errors == old(errors)
      ensures Answers(r, CheckerTypes.ValidateOperation(k, lhs, rhs, variableTypes, old(expressionTypes)),
                      false, expressionTypes)
    {
      var leftIllegal := AddExpressionTypeToList(lhs);
      if !leftIllegal.Ok? {
        return leftIllegal;
      }
      if leftIllegal.value {
        return Ok(false);
      }
      var rightIllegal := AddExpressionTypeToList(rhs);
      if !rightIllegal.Ok? {
        return rightIllegal;
      }
      if rightIllegal.value {
        return Ok(false);
      }
      r := ValidateOperationExpressionTypes(k);
    }

    /** `addExpressionTypeToList`: `Ok(true)` when the operand makes the operation illegal. */
    method AddExpressionTypeToList(e: Expression) returns (r: Result<bool>)
      modifies this
      decreases ExprSize(e), 1
      ensures variableTypes == old(variableTypes) && errors == old(errors)
      ensures Answers(r, AddOperand(e, variableTypes, old(expressionTypes)), true, expressionTypes)
    {
      if e.Operation? {
        var valid := ValidateOperation(e.kind, e.lhs, e.rhs);
        if !valid.Ok? {
          return valid;
        }
        return Ok(!valid.value);
      } else if e.VariableReference? {
        var t := GetVariableExpressionType(e.name);
        if t != Undefined {
          expressionTypes := [t] + expressionTypes;
        } else {
          return Ok(true);
        }
      } else if e.Lit? {
        var t := DetermineExpressionType(e);
        if t != Undefined {
          expressionTypes := [t] + expressionTypes;
        }
      }
      return Ok(false);
    }

    /** `validateOperationExpressionTypes`: pops two types; `removeFirst` on an empty stack
        throws NoSuchElementException. */
    method ValidateOperationExpressionTypes(k: OperationKind) returns (r: Result<bool>)
      modifies this
      ensures variableTypes == old(variableTypes) && errors == old(errors)
      ensures Answers(r, CheckerTypes.ValidateOperationExpressionTypes(k, old(expressionTypes)), false, expressionTypes)
    {
      if |expressionTypes| == 0 {
        return Throws(NoSuchElement);
      }
      var leftType := expressionTypes[0];
      expressionTypes := expressionTypes[1..];
      if |expressionTypes| == 0 {
        return Throws(NoSuchElement);
      }
      var rightType := expressionTypes[0];
      expressionTypes := expressionTypes[1..];
      if HasIllegalExpressionTypes(leftType, rightType) {
        return Ok(false);
      }
      if k.Add? || k.Subtract? {
        r := ValidateAddSubtractOperationExpressionTypes(leftType, rightType);
      } else {
        r := ValidateMultiplyExpressionTypes(leftType, rightType);
      }
    }

    /** `validateMultiplyExpressionTypes`. */
    method ValidateMultiplyExpressionTypes(leftType: ExpressionType, rightType: ExpressionType) returns (r: Result<bool>)
      modifies this
      ensures variableTypes == old(variableTypes) && errors == old(errors)
      ensures Answers(r, ValidateMultiply(leftType, rightType, old(expressionTypes)), false, expressionTypes)
    {
      var hasAtLeastOneScalar := leftType == Scalar || rightType == Scalar;
      var hasValidExpressionType := (leftType == Pixel || rightType == Pixel)
                                    || (leftType == Percentage || rightType == Percentage)
                                    || rightType == Scalar;
      if hasAtLeastOneScalar && hasValidExpressionType {
        if leftType != Scalar {
          expressionTypes := [leftType] + expressionTypes;
        } else {
          expressionTypes := [rightType] + expressionTypes;
        }
        return Ok(true);
      }
      return Ok(false);
    }

    /** `validateAddSubtractOperationExpressionTypes`. */
    method ValidateAddSubtractOperationExpressionTypes(leftType: ExpressionType, rightType: ExpressionType)
      returns (r: Result<bool>)
      modifies this
      ensures variableTypes == old(variableTypes) && errors == old(errors)
      ensures Answers(r, ValidateAddSubtract(leftType, rightType, old(expressionTypes)), false, expressionTypes)
    {
      var isMatchingExpressionType := leftType == rightType;
      if isMatchingExpressionType {
        expressionTypes := [leftType] + expressionTypes;
        return Ok(true);
      }
      return Ok(false);
    }
  }
}
