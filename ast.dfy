/**
 * The ICSS abstract syntax tree, as values.
 *
 * `Expression` holds the Java `Expression` subclasses (literals, variable references,
 * operations, boolean expressions and comparisons) and `Null` for a `null` expression field;
 * `Node` holds the statement-level nodes and wraps an expression with `Expr`.
 *
 * `Children` is `getChildren()`. For `BooleanComparison` and `BooleanExpression` it is the
 * Java code itself (non-null fields in order). The other node classes are not part of this
 * model; their child lists are taken to be the fields in declaration order with `null`
 * fields left out, and without the selectors of a rule and the property name of a
 * declaration, which no modelled pass acts on.
 */
module Ast {
  import opened JavaLang
  import opened Literals
  import opened ComparisonOperators

  datatype OperationKind = Add | Subtract | Multiply

  datatype Expression =
    | Lit(value: Literal)
    | VariableReference(name: string)
    | Operation(kind: OperationKind, lhs: Expression, rhs: Expression)
    | BooleanExpression(negated: bool, expression: Expression)
    | BooleanComparison(negated: bool, operator: ComparisonOperator, left: Expression, right: Expression)
    | Null

  /** A statement-level node. `selectors` holds the text of each selector of a rule. */
  datatype Node =
    | Stylesheet(body: seq<Node>)
    | Stylerule(selectors: seq<string>, body: seq<Node>)
    | Declaration(property: string, expression: Expression)
    | VariableAssignment(name: string, expression: Expression)
    | IfClause(condition: Expression, body: seq<Node>, elseClause: Option<Node>)
    | ElseClause(body: seq<Node>)
    | Expr(e: Expression)

  /** The nodes that open a variable scope in the checker and in the evaluator. */
  predicate IsScopeNode(n: Node) {
    n.Stylesheet? || n.Stylerule? || n.IfClause? || n.ElseClause?
  }

  /** The child list entry for an expression field: nothing when the field is `null`. */
  function Field(e: Expression): seq<Node> {
    if e.Null? then [] else [Expr(e)]
  }

  function ExprChildren(e: Expression): seq<Node> {
    match e
    case Lit(_) => []
    case VariableReference(_) => []
    case Operation(_, l, r) => Field(l) + Field(r)
    case BooleanExpression(_, x) => Field(x)
    case BooleanComparison(_, _, l, r) => Field(l) + Field(r)
    case Null => []
  }

  /** `getChildren()`. */
  function Children(n: Node): (r: seq<Node>)
    ensures SizeList(r) < Size(n)
  {
    ChildrenSmaller(n);
    ChildList(n)
  }

  function ChildList(n: Node): seq<Node> {
    match n
    case Stylesheet(b) => b
    case Stylerule(_, b) => b
    case Declaration(_, x) => Field(x)
    case VariableAssignment(v, x) => [Expr(VariableReference(v))] + Field(x)
    case IfClause(c, b, e) => Field(c) + b + (if e.Some? then [e.value] else [])
    case ElseClause(b) => b
    case Expr(x) => ExprChildren(x)
  }

  // ---------------------------------------------------------------- sizes, for termination

  function ExprSize(e: Expression): nat {
    match e
    case Operation(_, l, r) => 1 + ExprSize(l) + ExprSize(r)
    case BooleanExpression(_, x) => 1 + ExprSize(x)
    case BooleanComparison(_, _, l, r) => 1 + ExprSize(l) + ExprSize(r)
    case _ => 1
  }

  function Size(n: Node): nat
    decreases n
  {
    match n
    case Stylesheet(b) => 1 + SizeList(b)
    case Stylerule(_, b) => 1 + SizeList(b)
    case Declaration(_, x) => 1 + ExprSize(x)
    case VariableAssignment(_, x) => 2 + ExprSize(x)
    case IfClause(c, b, e) => 1 + ExprSize(c) + SizeList(b) + (if e.Some? then Size(e.value) else 0)
    case ElseClause(b) => 1 + SizeList(b)
    case Expr(x) => ExprSize(x)
  }

  function SizeList(ns: seq<Node>): nat
    decreases ns
  {
    if |ns| == 0 then 0 else SizeList(ns[..|ns| - 1]) + Size(ns[|ns| - 1])
  }

  lemma {:induction false} SizeListAppend(a: seq<Node>, b: seq<Node>)
    ensures SizeList(a + b) == SizeList(a) + SizeList(b)
    decreases |b|
  {
    if |b| > 0 {
      var ab := a + b;
      assert ab[..|ab| - 1] == a + b[..|b| - 1];
      assert ab[|ab| - 1] == b[|b| - 1];
      SizeListAppend(a, b[..|b| - 1]);
    } else {
      assert a + b == a;
    }
  }

  /** Every element of a list is no larger than the list. */
  lemma {:induction false} SizeListElement(ns: seq<Node>, i: nat)
    requires i < |ns|
    ensures Size(ns[i]) <= SizeList(ns)
    ensures SizeList(ns[..i]) + Size(ns[i]) <= SizeList(ns)
    decreases |ns|
  {
    if i < |ns| - 1 {
      var p := ns[..|ns| - 1];
      assert p[..i] == ns[..i] && p[i] == ns[i];
      SizeListElement(p, i);
    } else {
      assert ns[..i] == ns[..|ns| - 1];
    }
  }

  /** A proper prefix of a list is smaller than the list. */
  lemma SizeListPrefix(ns: seq<Node>, k: nat)
    requires k < |ns|
    ensures SizeList(ns[..k]) < SizeList(ns)
  {
    SizeListElement(ns, k);
    assert Size(ns[k]) >= 1 by { SizePositive(ns[k]); }
  }

  lemma SizeListSingleton(n: Node)
    ensures SizeList([n]) == Size(n)
  {
    assert [n][..0] == [];
  }

  lemma FieldSize(e: Expression)
    ensures SizeList(Field(e)) <= ExprSize(e)
  {
    if !e.Null? {
      SizeListSingleton(Expr(e));
    }
  }

  lemma ChildrenSmaller(n: Node)
    ensures SizeList(ChildList(n)) < Size(n)
  {
    match n
    case Declaration(_, x) =>
      FieldSize(x);
    case VariableAssignment(v, x) =>
      SizeListAppend([Expr(VariableReference(v))], Field(x));
      SizeListSingleton(Expr(VariableReference(v)));
      FieldSize(x);
    case IfClause(c, b, e) =>
      SizeListAppend(Field(c), b);
      SizeListAppend(Field(c) + b, if e.Some? then [e.value] else []);
      FieldSize(c);
      if e.Some? {
        SizeListSingleton(e.value);
      }
    case Expr(x) =>
      match x {
        case Operation(_, l, r) =>
          SizeListAppend(Field(l), Field(r));
          FieldSize(l);
          FieldSize(r);
        case BooleanExpression(_, y) =>
          FieldSize(y);
        case BooleanComparison(_, _, l, r) =>
          SizeListAppend(Field(l), Field(r));
          FieldSize(l);
          FieldSize(r);
        case _ =>
      }
    case _ =>
  }

  lemma SizePositive(n: Node)
    ensures Size(n) >= 1
  {
  }
}
