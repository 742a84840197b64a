/**
 * The ICSS evaluator (`EvalExpressions`) as functions: the value lookup, the rules that turn
 * variable references, boolean expressions, comparisons and operations into literals, and the
 * walk over the tree that applies them with a stack of name-to-literal scopes. Unlike the
 * checker's, this stack keeps its innermost scope LAST (`add`, `getLast`, `removeLast`,
 * `descendingIterator`).
 */
module EvalSpec {
  import opened JavaLang
  import opened ComparisonOperators
  import opened Literals
  import opened Ast

  type ValueScope = map<string, Literal>

  /** A literal reference as an expression field: `null` becomes `Null`. */
  function ToExpr(v: Option<Literal>): (e: Expression)
    ensures e.Null? <==> v.None?
    ensures v.Some? ==> e == Lit(v.value)
  {
    if v.Some? then Lit(v.value) else Null
  }

  // ---------------------------------------------------------------- lookup

  /** `getVariableValue(name)`: the binding of the innermost (last) scope that binds `name`. */
  function LookupValue(scopes: seq<ValueScope>, name: string): Option<Literal> {
    if |scopes| == 0 then None
    else if name in scopes[|scopes| - 1] then Some(scopes[|scopes| - 1][name])
    else LookupValue(scopes[..|scopes| - 1], name)
  }

  /** `i` is the index of the innermost scope binding `name`: no later scope binds it. */
  predicate InnermostValueBinder(scopes: seq<ValueScope>, name: string, i: int) {
    0 <= i < |scopes| && name in scopes[i] && forall j :: i < j < |scopes| ==> name !in scopes[j]
  }

  /** The lookup finds nothing exactly when no scope binds the name, and otherwise returns the
      binding of the innermost scope that binds it. */
  lemma {:induction false} LookupInnermost(scopes: seq<ValueScope>, name: string)
    ensures LookupValue(scopes, name).None? <==> forall i :: 0 <= i < |scopes| ==> name !in scopes[i]
    ensures LookupValue(scopes, name).Some? ==>
              exists i :: InnermostValueBinder(scopes, name, i) && LookupValue(scopes, name).value == scopes[i][name]
  {
    if |scopes| > 0 {
      var last := |scopes| - 1;
      var init := scopes[..last];
      if name in scopes[last] {
        assert InnermostValueBinder(scopes, name, last);
      } else {
        LookupInnermost(init, name);
        if LookupValue(init, name).Some? {
          var i :| InnermostValueBinder(init, name, i) && LookupValue(init, name).value == init[i][name];
          assert InnermostValueBinder(scopes, name, i);
        } else {
          forall i | 0 <= i < |scopes|
            ensures name !in scopes[i]
          {
            if i < last {
              assert scopes[i] == init[i];
            }
          }
        }
      }
    }
  }

  /** A binding in the innermost scope hides every outer binding of the same name. */
  lemma InnermostValueWins(scopes: seq<ValueScope>, name: string, l: Literal)
    requires |scopes| > 0
    ensures LookupValue(Put(scopes, name, l), name) == Some(l)
  {
  }

  /** `after` is `before` with only the innermost scope's bindings possibly changed. */
  predicate OuterScopesKept(before: seq<ValueScope>, after: seq<ValueScope>) {
    |after| == |before| && forall i :: 0 <= i < |before| - 1 ==> after[i] == before[i]
  }

  /** `currentScope.put(name, l)` on the innermost scope. */
  function Put(scopes: seq<ValueScope>, name: string, l: Literal): (r: seq<ValueScope>)
    requires |scopes| > 0
    ensures OuterScopesKept(scopes, r)
  {
    scopes[..|scopes| - 1] + [scopes[|scopes| - 1][name := l]]
  }

  // ---------------------------------------------------------------- expression rules

  /** `copyLiteral`: a fresh copy of a Bool literal; anything else gives `null`. */
  function CopyLiteral(l: Option<Literal>): (r: Option<Literal>)
    ensures r.Some? <==> l.Some? && l.value.BoolLiteral?
    ensures r.Some? ==> r == l
  {
    if l.Some? && l.value.BoolLiteral? then Some(BoolLiteral(l.value.b)) else None
  }

  /** `negateValue`: a Bool literal's value is flipped; any other literal is returned as is. */
  function NegateValue(l: Option<Literal>): (r: Option<Literal>)
    ensures r.Some? <==> l.Some?
    ensures l.Some? && l.value.BoolLiteral? ==> r == Some(BoolLiteral(!l.value.b))
    ensures l.Some? && !l.value.BoolLiteral? ==> r == l
  {
    if l.Some? && l.value.BoolLiteral? then Some(BoolLiteral(!l.value.b)) else l
  }

  /** Negating twice gives back the literal. */
  lemma NegateInvolution(l: Option<Literal>)
    ensures NegateValue(NegateValue(l)) == l
  {
  }

  /**
   * `evaluateBooleanExpression`: a variable operand is looked up and copied (so only Bool
   * values survive), a literal operand is used directly, and either is negated when the
   * expression is; any other operand gives `null`.
   */
  function EvaluateBooleanExpression(negated: bool, x: Expression, scopes: seq<ValueScope>): Option<Literal> {
    if x.VariableReference? then
      var v := CopyLiteral(LookupValue(scopes, x.name));
      if negated then NegateValue(v) else v
    else if x.Lit? then
      if negated then NegateValue(Some(x.value)) else Some(x.value)
    else None
  }

  /** A variable side of a comparison is replaced by its value (`null` when unbound). */
  function ResolveSide(e: Expression, scopes: seq<ValueScope>): Expression {
    if e.VariableReference? then ToExpr(LookupValue(scopes, e.name)) else e
  }

  /**
   * `evaluateBooleanComparison`: both sides resolved, cast to `Literal` (left first), and the
   * left literal's `evaluate(right, operator)` wrapped in a new Bool literal. A side that is
   * neither a literal nor `null` fails the cast; a `null` left side throws
   * NullPointerException. The comparison's negation flag is not read.
   */
  function EvaluateBooleanComparison(op: ComparisonOperator, left: Expression, right: Expression,
                                     scopes: seq<ValueScope>): (r: Result<Literal>)
    ensures r.Ok? ==> r.value.BoolLiteral?
  {
    var l := ResolveSide(left, scopes);
    var rt := ResolveSide(right, scopes);
    if !(l.Lit? || l.Null?) || !(rt.Lit? || rt.Null?) then Throws(ClassCast)
    else if l.Null? then Throws(NullPointer)
    else
      var b :- Literals.Evaluate(l.value, if rt.Lit? then Some(rt.value) else None, op);
      Ok(BoolLiteral(b))
  }

  /** One operand of an operation, folded: a nested operation is evaluated, a variable looked
      up, a literal kept; anything else is not a literal. */
  function OperandLiteral(e: Expression, scopes: seq<ValueScope>): Option<Literal>
    decreases ExprSize(e), 1
  {
    match e
    case Operation(_, l, r) => EvaluateOperation(l, r, scopes)
    case VariableReference(name) => LookupValue(scopes, name)
    case Lit(v) => Some(v)
    case _ => None
  }

  /** `evaluateOperation(lhs op rhs)`: the left operand if it folds to a literal, else the
      right operand if it does, else `null`. The operator is never applied. */
  function EvaluateOperation(lhs: Expression, rhs: Expression, scopes: seq<ValueScope>): Option<Literal>
    decreases ExprSize(lhs) + ExprSize(rhs) + 1, 0
  {
    var l := OperandLiteral(lhs, scopes);
    if l.Some? then l else OperandLiteral(rhs, scopes)
  }

  /** The first literal of a list, reading left to right. */
  function FirstLiteral(vs: seq<Option<Literal>>): Option<Literal> {
    if |vs| == 0 then None
    else if vs[0].Some? then vs[0]
    else FirstLiteral(vs[1..])
  }

  /** The leaves of an operand tree from left to right, with each variable replaced by its
      value and each non-literal leaf by `null`. */
  function Leaves(e: Expression, scopes: seq<ValueScope>): seq<Option<Literal>> {
    match e
    case Operation(_, l, r) => Leaves(l, scopes) + Leaves(r, scopes)
    case VariableReference(name) => [LookupValue(scopes, name)]
    case Lit(v) => [Some(v)]
    case _ => [None]
  }

  lemma {:induction false} FirstLiteralAppend(a: seq<Option<Literal>>, b: seq<Option<Literal>>)
    ensures FirstLiteral(a + b) == if FirstLiteral(a).Some? then FirstLiteral(a) else FirstLiteral(b)
    decreases |a|
  {
    if |a| > 0 {
      assert (a + b)[0] == a[0];
      assert (a + b)[1..] == a[1..] + b;
      FirstLiteralAppend(a[1..], b);
    } else {
      assert a + b == b;
    }
  }

  /**
   * `evaluateOperation` returns the first literal among the operation's leaves, read left to
   * right with variables resolved, whatever the operators are: no arithmetic is done.
   */
  lemma {:induction false} OperationIsFirstLeaf(k: OperationKind, lhs: Expression, rhs: Expression,
                                                scopes: seq<ValueScope>)
    ensures EvaluateOperation(lhs, rhs, scopes) == FirstLiteral(Leaves(Operation(k, lhs, rhs), scopes))
    decreases ExprSize(lhs) + ExprSize(rhs)
  {
    OperandIsFirstLeaf(lhs, scopes);
    OperandIsFirstLeaf(rhs, scopes);
    FirstLiteralAppend(Leaves(lhs, scopes), Leaves(rhs, scopes));
  }

  lemma {:induction false} OperandIsFirstLeaf(e: Expression, scopes: seq<ValueScope>)
    ensures OperandLiteral(e, scopes) == FirstLiteral(Leaves(e, scopes))
    decreases ExprSize(e)
  {
    match e
    case Operation(k, l, r) =>
      OperationIsFirstLeaf(k, l, r, scopes);
    case _ =>
      assert Leaves(e, scopes)[1..] == [];
  }

  /** `1px + 2px` evaluates to `1px`. */
  lemma NoArithmetic()
    ensures EvaluateOperation(Lit(PixelLiteral(1)), Lit(PixelLiteral(2)), []) == Some(PixelLiteral(1))
  {
  }

  /** A negated Bool operand is flipped; a variable operand is read through a copy, so only a
      Bool binding gives a value; other operands give `null`. */
  lemma BooleanExpressionRules(negated: bool, x: Expression, scopes: seq<ValueScope>)
    ensures x.Lit? && x.value.BoolLiteral? ==>
              EvaluateBooleanExpression(negated, x, scopes) == Some(BoolLiteral(x.value.b != negated))
    ensures x.Lit? && !x.value.BoolLiteral? ==> EvaluateBooleanExpression(negated, x, scopes) == Some(x.value)
    ensures x.VariableReference? ==>
              var v := LookupValue(scopes, x.name);
              EvaluateBooleanExpression(negated, x, scopes)
              == if v.Some? && v.value.BoolLiteral? then Some(BoolLiteral(v.value.b != negated)) else None
    ensures !x.Lit? && !x.VariableReference? ==> EvaluateBooleanExpression(negated, x, scopes) == None
  {
  }

  /** On two literal sides a comparison is the left literal's `evaluate`, and resolving a
      bound variable side is the same as writing its value there. */
  lemma ComparisonRules(op: ComparisonOperator, a: Literal, b: Literal, scopes: seq<ValueScope>, name: string)
    ensures var v := Literals.Evaluate(a, Some(b), op);
            EvaluateBooleanComparison(op, Lit(a), Lit(b), scopes)
            == if v.Ok? then Ok(BoolLiteral(v.value)) else v.PropagateFailure()
    ensures LookupValue(scopes, name) == Some(b) ==>
              EvaluateBooleanComparison(op, Lit(a), VariableReference(name), scopes)
              == EvaluateBooleanComparison(op, Lit(a), Lit(b), scopes)
    ensures LookupValue(scopes, name).None? ==>
              EvaluateBooleanComparison(op, VariableReference(name), Lit(b), scopes) == Throws(NullPointer)
  {
  }

  // ---------------------------------------------------------------- the node rules

  /** The value of a non-literal assignment (`variableValue`). */
  function AssignedValue(x: Expression, scopes: seq<ValueScope>): Result<Option<Literal>> {
    match x
    case Operation(_, l, r) => Ok(EvaluateOperation(l, r, scopes))
    case VariableReference(name) => Ok(LookupValue(scopes, name))
    case BooleanExpression(negated, y) => Ok(EvaluateBooleanExpression(negated, y, scopes))
    case BooleanComparison(_, op, l, r) =>
      var v :- EvaluateBooleanComparison(op, l, r, scopes);
      Ok(Some(v))
    case _ => Ok(None)
  }

  /** A node together with the scope stack after visiting it. */
  datatype Visit = Visit(node: Node, scopes: seq<ValueScope>)

  /**
   * `evaluateVariableAssignment`: a literal is bound as is; any other expression is replaced
   * by its value, which is bound only when it is not `null`. With no scope at all, `getLast`
   * throws NoSuchElementException.
   */
  function EvaluateVariableAssignment(name: string, x: Expression, scopes: seq<ValueScope>): (r: Result<Visit>)
    ensures r.Ok? ==> OuterScopesKept(scopes, r.value.scopes)
  {
    if |scopes| == 0 then Throws(NoSuchElement)
    else if x.Lit? then Ok(Visit(VariableAssignment(name, x), Put(scopes, name, x.value)))
    else
      var v :- AssignedValue(x, scopes);
      Ok(Visit(VariableAssignment(name, ToExpr(v)), if v.Some? then Put(scopes, name, v.value) else scopes))
  }

  /** `evaluateIfClause`: the new condition. */
  function EvaluateCondition(c: Expression, scopes: seq<ValueScope>): Result<Expression> {
    match c
    case VariableReference(name) => Ok(ToExpr(LookupValue(scopes, name)))
    case BooleanExpression(negated, x) => Ok(ToExpr(EvaluateBooleanExpression(negated, x, scopes)))
    case BooleanComparison(_, op, l, r) =>
      var v :- EvaluateBooleanComparison(op, l, r, scopes);
      Ok(Lit(v))
    case _ => Ok(c)
  }

  /** `evaluateDeclaration`: only a variable reference is replaced, by its value. */
  function EvaluateDeclaration(x: Expression, scopes: seq<ValueScope>): Expression {
    if x.VariableReference? then ToExpr(LookupValue(scopes, x.name)) else x
  }

  /** The evaluation of the node's own fields, before its children are visited. */
  function EvaluateOwn(n: Node, scopes: seq<ValueScope>): (r: Result<Visit>)
    ensures r.Ok? ==> OuterScopesKept(scopes, r.value.scopes)
    ensures r.Ok? && !n.VariableAssignment? ==> r.value.scopes == scopes
  {
    match n
    case VariableAssignment(name, x) => EvaluateVariableAssignment(name, x, scopes)
    case IfClause(c, b, e) =>
      var c' :- EvaluateCondition(c, scopes);
      Ok(Visit(IfClause(c', b, e), scopes))
    case Declaration(p, x) => Ok(Visit(Declaration(p, EvaluateDeclaration(x, scopes)), scopes))
    case _ => Ok(Visit(n, scopes))
  }

  /** `generateScope`: a new innermost scope (at the end) for the four scope node kinds. */
  function GenerateScope(n: Node, scopes: seq<ValueScope>): seq<ValueScope> {
    if IsScopeNode(n) then scopes + [map[]] else scopes
  }

  /**
   * The node after its own fields (`own`) were evaluated and its original children were
   * visited (`cs`, in the order of `getChildren()`): the statement children are replaced by
   * their visited versions. Expression children are not put back: visiting them changes
   * nothing (`ExpressionVisitIsIdentity`).
   */
  function Rebuild(n: Node, own: Node, cs: seq<Node>): Node
    requires |cs| == |Children(n)|
  {
    match n
    case Stylesheet(_) => Stylesheet(cs)
    case Stylerule(sel, _) => Stylerule(sel, cs)
    case ElseClause(_) => ElseClause(cs)
    case IfClause(c, b, e) =>
      var k := |Field(c)|;
      if own.IfClause? then
        IfClause(own.condition, cs[k..k + |b|], if e.Some? then Some(cs[|cs| - 1]) else None)
      else own
    case _ => own
  }

  /** Visited children and the scope stack after them. */
  datatype ListVisit = ListVisit(nodes: seq<Node>, scopes: seq<ValueScope>)

  /**
   * `traverseTreeAndEvaluate(node)`: the children are taken before anything changes, a scope
   * is opened, the node's own fields are evaluated, the children are visited in order, and
   * the scope opened here is removed again. A scope node leaves the stack exactly as it found
   * it; any other node can change only bindings of the innermost scope.
   */
  function EvalNode(n: Node, scopes: seq<ValueScope>): (r: Result<Visit>)
    decreases Size(n), 0
    ensures r.Ok? ==> OuterScopesKept(scopes, r.value.scopes)
    ensures r.Ok? && IsScopeNode(n) ==> r.value.scopes == scopes
  {
    var own :- EvaluateOwn(n, GenerateScope(n, scopes));
    var cs :- EvalList(Children(n), own.scopes);
    var node := Rebuild(n, own.node, cs.nodes);
    if IsScopeNode(n) then Ok(Visit(node, cs.scopes[..|cs.scopes| - 1])) else Ok(Visit(node, cs.scopes))
  }

  /** The children visited in order (`children.forEach(this::traverseTreeAndEvaluate)`). */
  function EvalList(ns: seq<Node>, scopes: seq<ValueScope>): (r: Result<ListVisit>)
    decreases SizeList(ns), 1
    ensures r.Ok? ==> |r.value.nodes| == |ns|
    ensures r.Ok? ==> OuterScopesKept(scopes, r.value.scopes)
  {
    if |ns| == 0 then Ok(ListVisit([], scopes))
    else
      SizeListElement(ns, |ns| - 1);
      SizeListPrefix(ns, |ns| - 1);
      var init :- EvalList(ns[..|ns| - 1], scopes);
      var last :- EvalNode(ns[|ns| - 1], init.scopes);
      Ok(ListVisit(init.nodes + [last.node], last.scopes))
  }

  /** Once a prefix of the children throws, the whole list throws the same exception. */
  lemma {:induction false} EvalListPrefixFailure(ns: seq<Node>, k: nat, scopes: seq<ValueScope>)
    requires k <= |ns| && !EvalList(ns[..k], scopes).Ok?
    ensures Status(EvalList(ns, scopes)) == Status(EvalList(ns[..k], scopes))
    decreases |ns| - k
  {
    if k < |ns| {
      assert ns[..k + 1][..k] == ns[..k];
      EvalListPrefixFailure(ns, k + 1, scopes);
    } else {
      assert ns[..k] == ns;
    }
  }

  /** The three ways a node's visit ends: its own rewrite throws, a child throws, or the
      rebuilt node with the scope opened for it dropped again. */
  lemma EvalNodeSteps(n: Node, scopes: seq<ValueScope>)
    ensures var own := EvaluateOwn(n, GenerateScope(n, scopes));
            (!own.Ok? ==> EvalNode(n, scopes) == own.PropagateFailure())
            && (own.Ok? ==>
                  var cs := EvalList(Children(n), own.value.scopes);
                  (!cs.Ok? ==> EvalNode(n, scopes) == cs.PropagateFailure())
                  && (cs.Ok? ==>
                        EvalNode(n, scopes) ==
                        Ok(Visit(Rebuild(n, own.value.node, cs.value.nodes),
                                 if IsScopeNode(n) then cs.value.scopes[..|cs.value.scopes| - 1] else cs.value.scopes))))
  {
  }

  /** `apply(ast)`: the walk from the root. */
  function Apply(root: Node, scopes: seq<ValueScope>): Result<Visit> {
    EvalNode(root, scopes)
  }

  // ---------------------------------------------------------------- properties of the walk

  /**
   * Visiting an expression node (a child of a declaration, an assignment, a condition or an
   * operation) changes neither the node nor the scopes: the walk descends into expressions but
   * only statement nodes are evaluated.
   */
  lemma {:induction false} ExpressionVisitIsIdentity(x: Expression, scopes: seq<ValueScope>)
    ensures EvalNode(Expr(x), scopes) == Ok(Visit(Expr(x), scopes))
    decreases Size(Expr(x)), 0
  {
    var cs := Children(Expr(x));
    assert forall c :: c in cs ==> c.Expr?;
    ExpressionListIsIdentity(cs, scopes);
  }

  lemma {:induction false} ExpressionListIsIdentity(ns: seq<Node>, scopes: seq<ValueScope>)
    requires forall c :: c in ns ==> c.Expr?
    ensures EvalList(ns, scopes).Ok? && EvalList(ns, scopes).value.scopes == scopes
    decreases SizeList(ns), 1
  {
    if |ns| > 0 {
      SizeListElement(ns, |ns| - 1);
      SizeListPrefix(ns, |ns| - 1);
      var init := ns[..|ns| - 1];
      assert forall c :: c in init ==> c in ns;
      ExpressionListIsIdentity(init, scopes);
      assert ns[|ns| - 1] in ns;
      ExpressionVisitIsIdentity(ns[|ns| - 1].e, scopes);
    }
  }

  /** A whole pass leaves the scope stack as it found it. */
  lemma ApplyBalancesScopes(root: Node, scopes: seq<ValueScope>)
    requires root.Stylesheet? && Apply(root, scopes).Ok?
    ensures Apply(root, scopes).value.scopes == scopes
  {
  }

  /** A literal assignment is stored as is and the node keeps its literal; any other
      assignment's expression becomes its value, which is stored only when not `null`. */
  lemma AssignmentRules(name: string, x: Expression, scopes: seq<ValueScope>)
    requires |scopes| > 0
    ensures x.Lit? ==> EvaluateVariableAssignment(name, x, scopes)
                       == Ok(Visit(VariableAssignment(name, x), Put(scopes, name, x.value)))
    ensures !x.Lit? && AssignedValue(x, scopes) == Ok(None) ==>
              EvaluateVariableAssignment(name, x, scopes) == Ok(Visit(VariableAssignment(name, Null), scopes))
    ensures !x.Lit? && AssignedValue(x, scopes).Ok? && AssignedValue(x, scopes).value.Some? ==>
              var v := AssignedValue(x, scopes).value.value;
              EvaluateVariableAssignment(name, x, scopes) == Ok(Visit(VariableAssignment(name, Lit(v)), Put(scopes, name, v)))
              && LookupValue(Put(scopes, name, v), name) == Some(v)
  {
  }

  /** A declaration's value changes only when it is a variable reference. */
  lemma DeclarationRules(p: string, x: Expression, scopes: seq<ValueScope>)
    ensures !x.VariableReference? ==> EvaluateOwn(Declaration(p, x), scopes) == Ok(Visit(Declaration(p, x), scopes))
    ensures x.VariableReference? ==>
              EvaluateOwn(Declaration(p, x), scopes)
              == Ok(Visit(Declaration(p, ToExpr(LookupValue(scopes, x.name))), scopes))
  {
  }

  /** A variable, boolean-expression or comparison condition becomes a literal (or `null` when
      it has no value); a comparison condition becomes a Bool literal; other conditions stay. */
  lemma ConditionRules(c: Expression, scopes: seq<ValueScope>)
    ensures EvaluateCondition(c, scopes).Ok? && (c.VariableReference? || c.BooleanExpression?) ==>
              EvaluateCondition(c, scopes).value.Lit? || EvaluateCondition(c, scopes).value.Null?
    ensures EvaluateCondition(c, scopes).Ok? && c.BooleanComparison? ==>
              EvaluateCondition(c, scopes).value.Lit? && EvaluateCondition(c, scopes).value.value.BoolLiteral?
    ensures !(c.VariableReference? || c.BooleanExpression? || c.BooleanComparison?) ==>
              EvaluateCondition(c, scopes) == Ok(c)
    ensures !c.BooleanComparison? ==> EvaluateCondition(c, scopes).Ok?
  {
  }

  /** The negation flag of a comparison does not change its value. */
  lemma ComparisonNegationIgnored(op: ComparisonOperator, l: Expression, r: Expression, scopes: seq<ValueScope>)
    ensures EvaluateCondition(BooleanComparison(true, op, l, r), scopes)
            == EvaluateCondition(BooleanComparison(false, op, l, r), scopes)
  {
  }
}
