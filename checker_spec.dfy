/**
 * The ICSS checker's walk over the tree (`Checker.checkChildren` and the checks it calls) as
 * functions from one checker state to the next. The checker state is the scope stack
 * `variableTypes`, the work stack `expressionTypes`, and the `setError` calls made so far.
 */
module CheckerSpec {
  import opened JavaLang
  import opened ComparisonOperators
  import opened Ast
  import opened CheckerTypes

  /** One `setError` call: the node it was made on and the message. */
  datatype Error = Error(node: Node, message: string)

  datatype CheckState = CheckState(scopes: seq<Scope>, work: seq<ExpressionType>, errors: seq<Error>)

  function AddError(st: CheckState, n: Node, message: string): CheckState {
    st.(errors := st.errors + [Error(n, message)])
  }

  /** `currentScope.put(name, t)` on the innermost scope. */
  function Bind(st: CheckState, name: string, t: ExpressionType): CheckState
    requires |st.scopes| > 0
  {
    st.(scopes := [st.scopes[0][name := t]] + st.scopes[1..])
  }

  /** `after` is `before` with only the innermost scope's bindings possibly changed. */
  predicate OuterScopesKept(before: seq<Scope>, after: seq<Scope>) {
    |after| == |before| && forall i :: 1 <= i < |before| ==> after[i] == before[i]
  }

  /** The state after a step: errors only appended, outer scopes kept. */
  predicate Extends(before: CheckState, after: CheckState) {
    OuterScopesKept(before.scopes, after.scopes) && before.errors <= after.errors
  }

  // ---------------------------------------------------------------- the steps of one node

  /** `generateScope`: a new innermost scope for the four scope node kinds. */
  function GenerateScope(n: Node, scopes: seq<Scope>): seq<Scope> {
    if IsScopeNode(n) then [map[]] + scopes else scopes
  }

  /** `registerVariables`. With no scope at all, `getFirst` throws NoSuchElementException. */
  function RegisterVariables(n: Node, st: CheckState): (r: Result<CheckState>)
    ensures r.Ok? ==> Extends(st, r.value) && r.value.work == st.work
  {
    if !n.VariableAssignment? then Ok(st)
    else if |st.scopes| == 0 then Throws(NoSuchElement)
    else
      var existing := VariableType(st.scopes, n.name);
      var t := DetermineExpressionType(n.expression, st.scopes);
      var doesNotExistYet := existing == Undefined;
      var referencingUndefinedVariable := doesNotExistYet && t == Undefined;
      if !referencingUndefinedVariable && doesNotExistYet then Ok(Bind(st, n.name, t))
      else if !doesNotExistYet then
        if t != Undefined && existing == t then Ok(Bind(st, n.name, t))
        else Ok(AddError(st, n, "You can not change the data type of an existing variable! Expected type: "
                                + TypeName(existing) + " Actual type: " + TypeName(t)))
      else Ok(Bind(st, n.name, Undefined))
  }

  /** `checkScope`: a variable reference bound in no scope. */
  function CheckScope(n: Node, st: CheckState): CheckState {
    if n.Expr? && n.e.VariableReference? && !InScope(st.scopes, n.e.name) then
      AddError(st, n, n.e.name + " variable has not been initialized!")
    else st
  }

  /** `isPropertyIllegal`: the allow-list of property names. */
  predicate IsPropertyIllegal(name: string) {
    name !in ["background-color", "color", "width", "height"]
  }

  /**
   * `isPropertyValueTypeAllowed`, with the work stack it leaves. An `Undefined`-typed operation
   * is answered by `isOperationAllowed`; otherwise colour properties need a Color value and all
   * others a Percentage or Pixel value. (The Java code repeats the same steps in its two
   * branches; they are shared here.)
   */
  function IsPropertyValueTypeAllowed(property: string, e: Expression, scopes: seq<Scope>,
                                      work: seq<ExpressionType>): Result<(bool, seq<ExpressionType>)>
  {
    var t := DetermineExpressionType(e, scopes);
    var isExpression := t == Undefined;
    if isExpression && e.Operation? then
      var v :- IsOperationAllowed(e.kind, e.lhs, e.rhs, scopes);
      Ok((!v.illegal, v.work))
    else
      var valueType := if isExpression && e.VariableReference? then VariableType(scopes, e.name) else t;
      if property == "background-color" || property == "color" then Ok((valueType == Color, work))
      else Ok((valueType == Percentage || valueType == Pixel, work))
  }

  /** `checkDeclarationSemantic`: the property name, then the value's type. */
  function CheckDeclarationSemantic(n: Node, st: CheckState): (r: Result<CheckState>)
    requires n.Declaration?
    ensures r.Ok? ==> r.value.scopes == st.scopes && st.errors <= r.value.errors
  {
    var p := n.property;
    var st1 := if IsPropertyIllegal(p) then AddError(st, n, p + " is not a legal property name!") else st;
    var v :- IsPropertyValueTypeAllowed(p, n.expression, st1.scopes, st1.work);
    var st2 := st1.(work := v.1);
    Ok(if !v.0 then AddError(st2, n, p + " has an illegal value type or expression!") else st2)
  }

  /** `checkBooleanComparisonSemantic` with `checkValidityOperatorWithExpressionType`. */
  function CheckBooleanComparisonSemantic(n: Node, st: CheckState): (r: CheckState)
    requires n.Expr? && n.e.BooleanComparison?
    ensures r.scopes == st.scopes && r.work == st.work
    ensures st.errors <= r.errors && |r.errors| <= |st.errors| + 1
  {
    var op := n.e.operator;
    var left := DetermineExpressionType(n.e.left, st.scopes);
    var right := DetermineExpressionType(n.e.right, st.scopes);
    if left == right then
      var isNotEqualityOperator := op != EQ && op != NQ;
      var isNotLogicOperator := op != AND && op != OR;
      var isNonNumericExpressionType := left == Color || right == Bool;
      if isNotEqualityOperator && isNotLogicOperator && isNonNumericExpressionType then
        AddError(st, n, "BooleanComparison: Non numeric literals can not be used with the " + Symbol(op) + " operator")
      else st
    else AddError(st, n, "BooleanComparison: Both sides must be of the same data type!")
  }

  /** `checkOperationSemantic`: an operation that `isOperationAllowed` rejects. */
  function CheckOperationSemantic(n: Node, st: CheckState): (r: Result<CheckState>)
    requires n.Expr? && n.e.Operation?
    ensures r.Ok? ==> r.value.scopes == st.scopes && st.errors <= r.value.errors
  {
    var v :- IsOperationAllowed(n.e.kind, n.e.lhs, n.e.rhs, st.scopes);
    var st1 := st.(work := v.work);
    Ok(if v.illegal then AddError(st1, n, "Illegal operation") else st1)
  }

  /** `checkIfClauseSemantic` and `checkBooleanExpressionSemantic`: the condition, or the
      operand, must be Bool-typed. */
  function CheckConditionSemantic(n: Node, st: CheckState): (r: CheckState)
    requires n.IfClause? || (n.Expr? && n.e.BooleanExpression?)
    ensures r.scopes == st.scopes && r.work == st.work
    ensures st.errors <= r.errors && |r.errors| <= |st.errors| + 1
  {
    var t := DetermineExpressionType(if n.IfClause? then n.condition else n.e.expression, st.scopes);
    if t == Bool then st
    else if n.IfClause? then AddError(st, n, "If Clause: Expected type: BOOL. Actual type: " + TypeName(t))
    else AddError(st, n, "BooleanExpression: Expected type: BOOL, Actual type: " + TypeName(t))
  }

  /** `checkSemantic`: dispatches on the node's class. */
  function CheckSemantic(n: Node, st: CheckState): (r: Result<CheckState>)
    ensures r.Ok? ==> r.value.scopes == st.scopes && st.errors <= r.value.errors
  {
    if n.Expr? && n.e.Operation? then CheckOperationSemantic(n, st)
    else if n.Declaration? then CheckDeclarationSemantic(n, st)
    else if n.IfClause? || (n.Expr? && n.e.BooleanExpression?) then Ok(CheckConditionSemantic(n, st))
    else if n.Expr? && n.e.BooleanComparison? then Ok(CheckBooleanComparisonSemantic(n, st))
    else Ok(st)
  }

  // ---------------------------------------------------------------- the walk

  /**
   * `checkChildren(n)`: open a scope for a scope node, register a variable, check scope and
   * semantics, check the children in order, then drop the scope opened here. The scope stack
   * is left balanced: a scope node restores it exactly, and any other node can only change
   * bindings of the innermost scope.
   */
  function CheckNode(n: Node, st: CheckState): (r: Result<CheckState>)
    decreases Size(n), 0
    ensures r.Ok? ==> Extends(st, r.value)
    ensures r.Ok? && IsScopeNode(n) ==> r.value.scopes == st.scopes
  {
    var s4 :- EnterNode(n, st);
    var s5 :- CheckList(Children(n), s4);
    if IsScopeNode(n) then Ok(s5.(scopes := s5.scopes[1..])) else Ok(s5)
  }

  /** The steps of `checkChildren` before the children are visited. */
  function EnterNode(n: Node, st: CheckState): (r: Result<CheckState>)
    ensures r.Ok? ==> OuterScopesKept(GenerateScope(n, st.scopes), r.value.scopes) && st.errors <= r.value.errors
  {
    var s1 := st.(scopes := GenerateScope(n, st.scopes));
    var s2 :- RegisterVariables(n, s1);
    var s3 := CheckScope(n, s2);
    CheckSemantic(n, s3)
  }

  /** The children checked in order (`children.forEach(this::checkChildren)`). */
  function CheckList(ns: seq<Node>, st: CheckState): (r: Result<CheckState>)
    decreases SizeList(ns), 1
    ensures r.Ok? ==> Extends(st, r.value)
  {
    if |ns| == 0 then Ok(st)
    else
      SizeListElement(ns, |ns| - 1);
      SizeListPrefix(ns, |ns| - 1);
      var s :- CheckList(ns[..|ns| - 1], st);
      CheckNode(ns[|ns| - 1], s)
  }

  /** Once a prefix of the children throws, the whole list throws the same exception. */
  lemma {:induction false} CheckListPrefixFailure(ns: seq<Node>, k: nat, st: CheckState)
    requires k <= |ns| && !CheckList(ns[..k], st).Ok?
    ensures CheckList(ns, st) == CheckList(ns[..k], st)
    decreases |ns| - k
  {
    if k < |ns| {
      assert ns[..k + 1][..k] == ns[..k];
      CheckListPrefixFailure(ns, k + 1, st);
    } else {
      assert ns[..k] == ns;
    }
  }

  /** `check(ast)`: the walk from the root with empty stacks. */
  function Check(root: Node): Result<CheckState> {
    CheckNode(root, CheckState([], [], []))
  }

  // ---------------------------------------------------------------- properties

  /** A whole check leaves the scope stack empty again. */
  lemma CheckBalancesScopes(root: Node)
    requires root.Stylesheet? && Check(root).Ok?
    ensures Check(root).value.scopes == []
  {
  }

  /** A declaration whose property name is not on the allow-list gets the "not a legal
      property name" error as its first error. */
  lemma IllegalPropertyReported(n: Node, st: CheckState)
    requires n.Declaration? && IsPropertyIllegal(n.property)
    requires CheckSemantic(n, st).Ok?
    ensures |CheckSemantic(n, st).value.errors| > |st.errors|
    ensures CheckSemantic(n, st).value.errors[|st.errors|] == Error(n, n.property + " is not a legal property name!")
  {
    var p := n.property;
    var st1 := AddError(st, n, p + " is not a legal property name!");
    var v := IsPropertyValueTypeAllowed(p, n.expression, st1.scopes, st1.work);
    assert v.Ok?;
    assert st1.errors[|st.errors|] == Error(n, p + " is not a legal property name!");
  }

  /** An operation node: `isOperationAllowed` decides the outcome and the new work stack, and
      a rejected operation gets exactly one error, "Illegal operation". */
  lemma OperationErrorRules(n: Node, st: CheckState)
    requires n.Expr? && n.e.Operation?
    ensures var v := IsOperationAllowed(n.e.kind, n.e.lhs, n.e.rhs, st.scopes);
            v.Ok? ==>
              CheckSemantic(n, st)
              == Ok(if v.value.illegal then AddError(st.(work := v.value.work), n, "Illegal operation")
                    else st.(work := v.value.work))
    ensures var v := IsOperationAllowed(n.e.kind, n.e.lhs, n.e.rhs, st.scopes);
            !v.Ok? ==> Status(CheckSemantic(n, st)) == Status(v)
  {
  }

  /** A declaration whose value type `isPropertyValueTypeAllowed` rejects gets the error
      "<property> has an illegal value type or expression!" as its last one, after the
      property-name error if there is one; an accepted value adds no error of its own. */
  lemma DeclarationValueReported(n: Node, st: CheckState)
    requires n.Declaration?
    ensures var v := IsPropertyValueTypeAllowed(n.property, n.expression, st.scopes, st.work);
            !v.Ok? ==> Status(CheckSemantic(n, st)) == Status(v)
    ensures var v := IsPropertyValueTypeAllowed(n.property, n.expression, st.scopes, st.work);
            var r := CheckSemantic(n, st);
            v.Ok? ==>
              r.Ok? && r.value.work == v.value.1
              && |r.value.errors| == |st.errors| + (if IsPropertyIllegal(n.property) then 1 else 0) + (if v.value.0 then 0 else 1)
              && (!v.value.0 ==> r.value.errors[|r.value.errors| - 1] == Error(n, n.property + " has an illegal value type or expression!"))
  {
  }

  /** Colour properties accept exactly a Color-typed value, the others exactly Pixel or
      Percentage; an operation whose declared type is `Undefined` is accepted exactly when
      `isOperationAllowed` holds, and an unbound variable is never accepted. */
  lemma PropertyValueRules(property: string, e: Expression, scopes: seq<Scope>, work: seq<ExpressionType>)
    ensures var t := DetermineExpressionType(e, scopes);
            t != Undefined ==>
              IsPropertyValueTypeAllowed(property, e, scopes, work)
              == Ok((if property in {"background-color", "color"} then t == Color else t in {Percentage, Pixel}, work))
    ensures var t := DetermineExpressionType(e, scopes);
            t == Undefined && e.Operation? ==>
              (IsPropertyValueTypeAllowed(property, e, scopes, work).Ok? <==> IsOperationAllowed(e.kind, e.lhs, e.rhs, scopes).Ok?)
              && (IsOperationAllowed(e.kind, e.lhs, e.rhs, scopes).Ok? ==>
                    IsPropertyValueTypeAllowed(property, e, scopes, work).value.0
                    == !IsOperationAllowed(e.kind, e.lhs, e.rhs, scopes).value.illegal)
    ensures e.VariableReference? && VariableType(scopes, e.name) == Undefined ==>
              IsPropertyValueTypeAllowed(property, e, scopes, work) == Ok((false, work))
  {
  }

  /**
   * `registerVariables` on an assignment whose name is already bound to a type: the same
   * defined type rebinds it in the innermost scope; a different or `Undefined` type leaves the
   * scopes alone and records the "can not change the data type" error.
   */
  lemma ReassignmentRules(n: Node, st: CheckState)
    requires n.VariableAssignment? && |st.scopes| > 0
    requires VariableType(st.scopes, n.name) != Undefined
    ensures var existing, t := VariableType(st.scopes, n.name), DetermineExpressionType(n.expression, st.scopes);
            RegisterVariables(n, st)
            == Ok(if t == existing then Bind(st, n.name, t)
                  else AddError(st, n, "You can not change the data type of an existing variable! Expected type: "
                                       + TypeName(existing) + " Actual type: " + TypeName(t)))
  {
  }

  /** An assignment to a name no scope types binds the value's type (possibly `Undefined`) in
      the innermost scope, and the name then looks up to that type. */
  lemma FreshAssignmentBinds(n: Node, st: CheckState)
    requires n.VariableAssignment? && |st.scopes| > 0
    requires VariableType(st.scopes, n.name) == Undefined
    ensures RegisterVariables(n, st).Ok?
    ensures var t := DetermineExpressionType(n.expression, st.scopes);
            RegisterVariables(n, st) == Ok(Bind(st, n.name, t))
            && VariableType(RegisterVariables(n, st).value.scopes, n.name) == t
  {
  }

  /** Comparisons: sides of different types are an error; with equal sides, an ordering
      operator on a Color left side or a Bool right side is an error; `==`, `!=`, `&&` and `||`
      are never rejected for the operand types. */
  lemma ComparisonRules(n: Node, st: CheckState)
    requires n.Expr? && n.e.BooleanComparison?
    ensures var left, right := DetermineExpressionType(n.e.left, st.scopes), DetermineExpressionType(n.e.right, st.scopes);
            var after := CheckBooleanComparisonSemantic(n, st);
            (left != right ==> after == AddError(st, n, "BooleanComparison: Both sides must be of the same data type!"))
            && (left == right && IsOrdering(n.e.operator) && (left == Color || left == Bool) ==>
                  after == AddError(st, n, "BooleanComparison: Non numeric literals can not be used with the "
                                           + Symbol(n.e.operator) + " operator"))
            && (left == right && !IsOrdering(n.e.operator) ==> after == st)
            && (left == right && !(left == Color || left == Bool) ==> after == st)
  {
  }

  /** An if-clause whose condition is not Bool-typed, and a boolean expression whose operand is
      not Bool-typed, get an error; Bool-typed ones do not. */
  lemma ConditionRules(n: Node, st: CheckState)
    requires n.IfClause? || (n.Expr? && n.e.BooleanExpression?)
    ensures var x := if n.IfClause? then n.condition else n.e.expression;
            CheckSemantic(n, st).Ok?
            && (CheckSemantic(n, st).value == st <==> DetermineExpressionType(x, st.scopes) == Bool)
  {
  }

  /** A variable reference bound in no scope is reported as not initialized. */
  lemma UninitializedReported(name: string, st: CheckState)
    requires !InScope(st.scopes, name)
    ensures CheckScope(Expr(VariableReference(name)), st)
            == AddError(st, Expr(VariableReference(name)), name + " variable has not been initialized!")
    ensures VariableType(st.scopes, name) == Undefined
  {
    VariableTypeInnermost(st.scopes, name);
  }
}
