/**
 * `EvalExpressions`: the evaluator object with its scope stack `variableValues` (innermost
 * last). Each method is proved to do what the corresponding function of `EvalSpec` says. The
 * methods return the rewritten node instead of assigning its fields in place.
 */
module EvalTransform {
  import opened JavaLang
  import opened ComparisonOperators
  import opened Literals
  import opened Ast
  import opened EvalSpec

  class EvalExpressions {
    var variableValues: seq<ValueScope>

    /** `new EvalExpressions()`. */
    constructor ()
      ensures variableValues == []
    {
      variableValues := [];
    }

    /** `apply(ast)`: evaluates the tree from its root and returns the rewritten tree. */
    method Apply(root: Node) returns (r: Result<Node>)
      requires root.Stylesheet?
      modifies this
      ensures var spec := EvalSpec.Apply(root, old(variableValues));
              (spec.Ok? ==> r == Ok(spec.value.node) && variableValues == old(variableValues))
              && (!spec.Ok? ==> r == spec.PropagateFailure())
    {
      r := TraverseTreeAndEvaluate(root);
    }

    /** `traverseTreeAndEvaluate(node)`. */
    method TraverseTreeAndEvaluate(n: Node) returns (r: Result<Node>)
      modifies this
      decreases Size(n), 0
      ensures var spec := EvalNode(n, old(variableValues));
              (spec.Ok? ==> r == Ok(spec.value.node) && variableValues == spec.value.scopes)
              && (!spec.Ok? ==> r == spec.PropagateFailure())
    {
      ghost var s0 := variableValues;
      EvalNodeSteps(n, s0);
      var children := Children(n);
      var scopeCreated := GenerateScope(n);
      var own := EvaluateNode(n);
      if !own.Ok? {
        return own.PropagateFailure();
      }
      var visited := TraverseEach(children);
      if !visited.Ok? {
        return visited.PropagateFailure();
      }
      if scopeCreated {
        variableValues := variableValues[..|variableValues| - 1];
      }
      return Ok(Rebuild(n, own.value, visited.value));
    }

    /** The node's own rewrite in `traverseTreeAndEvaluate`, after `generateScope`: an
        assignment is evaluated and bound, an if-clause gets its condition evaluated, a
        declaration its value; any other node is kept. */
    method EvaluateNode(n: Node) returns (r: Result<Node>)
      modifies this
      ensures var spec := EvaluateOwn(n, old(variableValues));
              (spec.Ok? ==> r == Ok(spec.value.node) && variableValues == spec.value.scopes)
              && (!spec.Ok? ==> r == spec.PropagateFailure())
    {
      if n.VariableAssignment? {
        var v := EvaluateVariableAssignment(n.name, n.expression);
        if !v.Ok? {
          return v.PropagateFailure();
        }
        return Ok(v.value);
      } else if n.IfClause? {
        var c := EvaluateIfClause(n.condition);
        if !c.Ok? {
          return c.PropagateFailure();
        }
        return Ok(IfClause(c.value, n.body, n.elseClause));
      } else if n.Declaration? {
        var x := EvaluateDeclaration(n.expression);
        return Ok(Declaration(n.property, x));
      }
      return Ok(n);
    }

    /** `children.forEach(this::traverseTreeAndEvaluate)`: stops at the first exception. */
    method TraverseEach(children: seq<Node>) returns (r: Result<seq<Node>>)
      modifies this
      decreases SizeList(children), 1
      ensures var spec := EvalList(children, old(variableValues));
              (spec.Ok? ==> r == Ok(spec.value.nodes) && variableValues == spec.value.scopes)
              && (!spec.Ok? ==> r == spec.PropagateFailure())
    {
      ghost var s0 := variableValues;
      var nodes: seq<Node> := [];
      var i := 0;
      while i < |children|
        invariant 0 <= i <= |children|
        invariant EvalList(children[..i], s0) == Ok(ListVisit(nodes, variableValues))
      {
        SizeListElement(children, i);
        assert children[..i + 1][..i] == children[..i];
        var c := TraverseTreeAndEvaluate(children[i]);
        if !c.Ok? {
          EvalListPrefixFailure(children, i + 1, s0);
          return c.PropagateFailure();
        }
        nodes := nodes + [c.value];
        i := i + 1;
      }
      assert children[..i] == children;
      return Ok(nodes);
    }

    /** `generateScope`: appends an empty scope for a scope node and says whether it did. */
    method GenerateScope(n: Node) returns (created: bool)
      modifies this
      ensures created == IsScopeNode(n)
      ensures variableValues == EvalSpec.GenerateScope(n, old(variableValues))
    {
      if IsScopeNode(n) {
        variableValues := variableValues + [map[]];
        return true;
      }
      return false;
    }

    /** `evaluateIfClause`: the new condition. */
    method EvaluateIfClause(c: Expression) returns (r: Result<Expression>)
      ensures r == EvaluateCondition(c, variableValues)
    {
      if c.VariableReference? {
        var v := GetVariableValue(c.name);
        return Ok(ToExpr(v));
      } else if c.BooleanExpression? {
        var v := EvaluateBooleanExpression(c.negated, c.expression);
        return Ok(ToExpr(v));
      } else if c.BooleanComparison? {
        var v := EvaluateBooleanComparison(c.operator, c.left, c.right);
        if !v.Ok? {
          return v.PropagateFailure();
        }
        return Ok(Lit(v.value));
      }
      return Ok(c);
    }

    /** `evaluateVariableAssignment`: the rewritten assignment node. */
    method EvaluateVariableAssignment(name: string, x: Expression) returns (r: Result<Node>)
      modifies this
      ensures var spec := EvalSpec.EvaluateVariableAssignment(name, x, old(variableValues));
              (spec.Ok? ==> r == Ok(spec.value.node) && variableValues == spec.value.scopes)
              && (!spec.Ok? ==> r == spec.PropagateFailure() && variableValues == old(variableValues))
    {
      if |variableValues| == 0 {
        return Throws(NoSuchElement);
      }
      var variableValue: Option<Literal> := None;
      if x.Operation? {
        variableValue := EvaluateVariableAssignmentOperation(x.lhs, x.rhs);
      } else if x.Lit? {
        variableValues := Put(variableValues, name, x.value);
        return Ok(VariableAssignment(name, x));
      } else if x.VariableReference? {
        variableValue := EvaluateVariableReference(x.name);
      } else if x.BooleanExpression? {
        variableValue := EvaluateBooleanExpression(x.negated, x.expression);
      } else if x.BooleanComparison? {
        var v := EvaluateBooleanComparison(x.operator, x.left, x.right);
        if !v.Ok? {
          return v.PropagateFailure();
        }
        variableValue := Some(v.value);
      }
      if variableValue.Some? {
        variableValues := Put(variableValues, name, variableValue.value);
      }
      return Ok(VariableAssignment(name, ToExpr(variableValue)));
    }

    /** `evaluateBooleanComparison`: variable sides are looked up, both sides cast to `Literal`,
        and the left one evaluated against the right one. */
    method EvaluateBooleanComparison(op: ComparisonOperator, left: Expression, right: Expression)
      returns (r: Result<Literal>)
      ensures r == EvalSpec.EvaluateBooleanComparison(op, left, right, variableValues)
      ensures r.Ok? ==> r.value.BoolLiteral?
    {
      var leftExpression := left;
      var rightExpression := right;
      if leftExpression.VariableReference? {
        var v := GetVariableValue(leftExpression.name);
        leftExpression := ToExpr(v);
      }
      if rightExpression.VariableReference? {
        var v := GetVariableValue(rightExpression.name);
        rightExpression := ToExpr(v);
      }
      if !(leftExpression.Lit? || leftExpression.Null?) || !(rightExpression.Lit? || rightExpression.Null?) {
        return Throws(ClassCast);
      }
      if leftExpression.Null? {
        return Throws(NullPointer);
      }
      var rightLiteral := if rightExpression.Lit? then Some(rightExpression.value) else None;
      var b := Literals.Evaluate(leftExpression.value, rightLiteral, op);
      if !b.Ok? {
        return b.PropagateFailure();
      }
      return Ok(BoolLiteral(b.value));
    }

    /** `evaluateBooleanExpression`. */
    method EvaluateBooleanExpression(negated: bool, x: Expression) returns (r: Option<Literal>)
      ensures r == EvalSpec.EvaluateBooleanExpression(negated, x, variableValues)
      ensures r.Some? && (x.VariableReference? || x.value.BoolLiteral?) ==> r.value.BoolLiteral?
    {
      if x.VariableReference? {
        var v := GetVariableValue(x.name);
        r := CopyLiteral(v);
        r := if negated then NegateValue(r) else r;
        return r;
      } else if x.Lit? {
        r := if negated then NegateValue(Some(x.value)) else Some(x.value);
        return r;
      }
      return None;
    }

    /** `evaluateVariableReference`. */
    method EvaluateVariableReference(name: string) returns (r: Option<Literal>)
      ensures r == LookupValue(variableValues, name)
    {
      r := GetVariableValue(name);
    }

    /** `evaluateVariableAssignmentOperation`. */
    method EvaluateVariableAssignmentOperation(lhs: Expression, rhs: Expression) returns (r: Option<Literal>)
      ensures r == EvalSpec.EvaluateOperation(lhs, rhs, variableValues)
    {
      r := EvaluateOperation(lhs, rhs);
    }

    /** `evaluateDeclaration`: the new value of the declaration. */
    method EvaluateDeclaration(x: Expression) returns (r: Expression)
      ensures r == EvalSpec.EvaluateDeclaration(x, variableValues)
      ensures !x.VariableReference? ==> r == x
    {
      if x.VariableReference? {
        var v := GetVariableValue(x.name);
        return ToExpr(v);
      }
      return x;
    }

    /** `evaluateOperation`: folds nested operations and variables, then returns the first
        operand that is a literal. */
    method EvaluateOperation(lhs: Expression, rhs: Expression) returns (r: Option<Literal>)
      decreases ExprSize(lhs) + ExprSize(rhs) + 1
      ensures r == EvalSpec.EvaluateOperation(lhs, rhs, variableValues)
    {
      var l := lhs;
      var rt := rhs;
      if l.Operation? {
        var v := EvaluateOperation(l.lhs, l.rhs);
        l := ToExpr(v);
      }
      if rt.Operation? {
        var v := EvaluateOperation(rt.lhs, rt.rhs);
        rt := ToExpr(v);
      }
      if l.VariableReference? {
        var v := GetVariableValue(l.name);
        l := ToExpr(v);
      }
      if rt.VariableReference? {
        var v := GetVariableValue(rt.name);
        rt := ToExpr(v);
      }
      if l.Lit? {
        return Some(l.value);
      } else if rt.Lit? {
        return Some(rt.value);
      }
      return None;
    }

    /** `getVariableValue`: walks the scopes from the innermost (last) one outwards. */
    method GetVariableValue(name: string) returns (r: Option<Literal>)
      ensures r == LookupValue(variableValues, name)
    {
      var i := |variableValues|;
      assert variableValues[..i] == variableValues;
      while i > 0
        invariant 0 <= i <= |variableValues|
        invariant LookupValue(variableValues[..i], name) == LookupValue(variableValues, name)
      {
        var currentScope := variableValues[i - 1];
        if name in currentScope {
          return Some(currentScope[name]);
        }
        assert variableValues[..i][..i - 1] == variableValues[..i - 1];
        i := i - 1;
      }
      return None;
    }
  }
}
