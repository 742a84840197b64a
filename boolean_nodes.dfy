/**
 * The two mutable condition nodes `BooleanComparison` and `BooleanExpression`: their
 * constructors, `addChild`, `getChildren`, `getNodeLabel` and accessors. A `null` expression
 * field is `Ast.Null`; a `null` operator is `None`.
 */
module BooleanNodes {
  import opened JavaLang
  import opened ComparisonOperators
  import Ast

  /** `"" + operator`: the operator's symbol, or `null`. */
  function OperatorText(op: Option<ComparisonOperator>): string {
    if op.Some? then Symbol(op.value) else "null"
  }

  /** `isNegated ? "Negated" : ""`. */
  function NegationPrefix(negated: bool): string {
    if negated then "Negated" else ""
  }

  lemma PrefixOfConcat(a: string, b: string)
    ensures (a + b)[..|a|] == a
  {
  }

  /** The two spellings of a comparison's label around the operator text `op`. */
  lemma ComparisonLabelText(op: string)
    ensures NegationPrefix(false) + ("BooleanComparison (" + op + ")") == "BooleanComparison (" + op + ")"
    ensures NegationPrefix(true) + ("BooleanComparison (" + op + ")") == "NegatedBooleanComparison (" + op + ")"
  {
    assert "Negated" + "BooleanComparison (" == "NegatedBooleanComparison (";
  }

  class BooleanComparison {
    var isNegated: bool
    var operator: Option<ComparisonOperator>
    var left: Ast.Expression
    var right: Ast.Expression

    /** `new BooleanComparison(isNegated)`. */
    constructor WithNegation(isNegated: bool)
      ensures this.isNegated == isNegated && operator == None
      ensures left == Ast.Null && right == Ast.Null
    {
      this.isNegated := isNegated;
      operator := None;
      left := Ast.Null;
      right := Ast.Null;
    }

    /** `new BooleanComparison(operator)`. */
    constructor WithOperator(operator: Option<ComparisonOperator>)
      ensures !isNegated && this.operator == operator
      ensures left == Ast.Null && right == Ast.Null
    {
      isNegated := false;
      this.operator := operator;
      left := Ast.Null;
      right := Ast.Null;
    }

    /** `new BooleanComparison(isNegated, operator, left, right)`. */
    constructor (isNegated: bool, operator: Option<ComparisonOperator>, left: Ast.Expression, right: Ast.Expression)
      ensures this.isNegated == isNegated && this.operator == operator
      ensures this.left == left && this.right == right
    {
      this.isNegated := isNegated;
      this.operator := operator;
      this.left := left;
      this.right := right;
    }

    /** `getNodeLabel()`: carries the `Negated` prefix exactly when the comparison is negated. */
    function GetNodeLabel(): (r: string)
      reads this
      ensures |r| > 7 && r[|r| - 1] == ')'
      ensures isNegated ==> r[..7] == "Negated"
      ensures !isNegated ==> r == "BooleanComparison (" + OperatorText(operator) + ")"
      ensures isNegated ==> r == "NegatedBooleanComparison (" + OperatorText(operator) + ")"
    {
      var tail := "BooleanComparison (" + OperatorText(operator) + ")";
      PrefixOfConcat(NegationPrefix(isNegated), tail);
      ComparisonLabelText(OperatorText(operator));
      NegationPrefix(isNegated) + tail
    }

    /** `getChildren()`: the non-null sides, left before right. */
    function GetChildren(): (r: seq<Ast.Node>)
      reads this
      ensures |r| == (if left.Null? then 0 else 1) + (if right.Null? then 0 else 1)
      ensures !left.Null? ==> r[0] == Ast.Expr(left)
      ensures !right.Null? ==> r[|r| - 1] == Ast.Expr(right)
      ensures forall c :: c in r ==> c.Expr? && !c.e.Null?
    {
      Ast.Field(left) + Ast.Field(right)
    }

    /** The comparison as an expression value, once it has an operator. */
    function AsExpression(): (r: Ast.Expression)
      reads this
      requires operator.Some?
      ensures Ast.Children(Ast.Expr(r)) == GetChildren()
    {
      Ast.BooleanComparison(isNegated, operator.value, left, right)
    }

    /**
     * `addChild(child)`: fills `left` if it is `null`, else `right` if it is `null`, else does
     * nothing. Filling a side casts the child to `Expression`.
     */
    method AddChild(child: Ast.Node) returns (r: Result<()>)
      modifies this
      ensures isNegated == old(isNegated) && operator == old(operator)
      ensures old(left).Null? ==>
                (if child.Expr? then r.Ok? && left == child.e && right == old(right)
                 else r == Throws(ClassCast) && left == old(left) && right == old(right))
      ensures !old(left).Null? && old(right).Null? ==>
                left == old(left) &&
                (if child.Expr? then r.Ok? && right == child.e
                 else r == Throws(ClassCast) && right == old(right))
      ensures !old(left).Null? && !old(right).Null? ==> r.Ok? && left == old(left) && right == old(right)
    {
      if left.Null? {
        if !child.Expr? {
          return Throws(ClassCast);
        }
        left := child.e;
      } else if right.Null? {
        if !child.Expr? {
          return Throws(ClassCast);
        }
        right := child.e;
      }
      return Ok(());
    }

    function GetOperator(): Option<ComparisonOperator>
      reads this
    {
      operator
    }

    method SetOperator(operator: Option<ComparisonOperator>)
      modifies this
      ensures this.operator == operator
      ensures isNegated == old(isNegated) && left == old(left) && right == old(right)
    {
      this.operator := operator;
    }

    function GetLeft(): Ast.Expression
      reads this
    {
      left
    }

    method SetLeft(left: Ast.Expression)
      modifies this
      ensures this.left == left
      ensures isNegated == old(isNegated) && operator == old(operator) && right == old(right)
    {
      this.left := left;
    }

    function GetRight(): Ast.Expression
      reads this
    {
      right
    }

    method SetRight(right: Ast.Expression)
      modifies this
      ensures this.right == right
      ensures isNegated == old(isNegated) && operator == old(operator) && left == old(left)
    {
      this.right := right;
    }

    function IsNegated(): bool
      reads this
    {
      isNegated
    }

    method SetNegated(negated: bool)
      modifies this
      ensures isNegated == negated
      ensures operator == old(operator) && left == old(left) && right == old(right)
    {
      isNegated := negated;
    }
  }

  class BooleanExpression {
    var isNegated: bool
    var expression: Ast.Expression

    /** `new BooleanExpression()`. */
    constructor Empty()
      ensures !isNegated && expression == Ast.Null
    {
      isNegated := false;
      expression := Ast.Null;
    }

    /** `new BooleanExpression(isNegated)`. */
    constructor WithNegation(isNegated: bool)
      ensures this.isNegated == isNegated && expression == Ast.Null
    {
      this.isNegated := isNegated;
      expression := Ast.Null;
    }

    /** `new BooleanExpression(isNegated, expression)`. */
    constructor (isNegated: bool, expression: Ast.Expression)
      ensures this.isNegated == isNegated && this.expression == expression
    {
      this.isNegated := isNegated;
      this.expression := expression;
    }

    /** `addChild(child)`: a non-null `Expression` child replaces the inner expression; any
        other child is ignored. */
    method AddChild(child: Ast.Node)
      modifies this
      ensures isNegated == old(isNegated)
      ensures expression == (if child.Expr? && !child.e.Null? then child.e else old(expression))
    {
      if child.Expr? && !child.e.Null? {
        expression := child.e;
      }
    }

    /** `getNodeLabel()`: carries the `Negated` prefix exactly when the expression is negated. */
    function GetNodeLabel(): (r: string)
      reads this
      ensures |r| >= 17 && r[|r| - 17..] == "BooleanExpression"
      ensures isNegated <==> r[..|r| - 17] == "Negated"
      ensures r == (if isNegated then "NegatedBooleanExpression" else "BooleanExpression")
    {
      NegationPrefix(isNegated) + "BooleanExpression"
    }

    /** `getChildren()`: the inner expression, when it is not `null`. */
    function GetChildren(): (r: seq<Ast.Node>)
      reads this
      ensures |r| <= 1
      ensures |r| == 1 <==> !expression.Null?
      ensures |r| == 1 ==> r[0] == Ast.Expr(expression)
    {
      Ast.Field(expression)
    }

    /** The boolean expression as an expression value. */
    function AsExpression(): (r: Ast.Expression)
      reads this
      ensures Ast.Children(Ast.Expr(r)) == GetChildren()
    {
      Ast.BooleanExpression(isNegated, expression)
    }

    function IsNegated(): bool
      reads this
    {
      isNegated
    }

    method SetNegated(negated: bool)
      modifies this
      ensures isNegated == negated && expression == old(expression)
    {
      isNegated := negated;
    }

    function GetExpression(): Ast.Expression
      reads this
    {
      expression
    }

    method SetExpression(expression: Ast.Expression)
      modifies this
      ensures this.expression == expression && isNegated == old(isNegated)
    {
      this.expression := expression;
    }
  }
}
