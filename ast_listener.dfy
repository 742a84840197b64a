/**
 * The parts of `ASTListener` that do not depend on the parser's contexts: choosing the
 * operation for an operator symbol, classifying the text of a value, and the edits of the
 * container stack when a chained sub-calculation starts and when the stylesheet ends. The
 * text a callback reads from its parse context is a parameter here.
 */
module AstListeners {
  import opened JavaLang
  import opened Literals
  import opened Ast
  import HanStacks

  // ---------------------------------------------------------------- operators

  /** `determineOperator(operator)`. */
  function DetermineOperator(operator: string): (r: Result<OperationKind>)
    ensures r == Ok(Multiply) <==> operator == "*"
    ensures r == Ok(Add) <==> operator == "+"
    ensures r == Ok(Subtract) <==> operator == "-"
    ensures !r.Ok? <==> r == Throws(IllegalArgument)
  {
    if operator == "*" then Ok(Multiply)
    else if operator == "+" then Ok(Add)
    else if operator == "-" then Ok(Subtract)
    else Throws(IllegalArgument)
  }

  /** The symbol the grammar uses for each operation. */
  function OperatorSymbol(k: OperationKind): string {
    match k
    case Add => "+"
    case Subtract => "-"
    case Multiply => "*"
  }

  /** Every operation is recovered from its symbol. */
  lemma OperatorSymbolRoundTrip(k: OperationKind)
    ensures DetermineOperator(OperatorSymbol(k)) == Ok(k)
  {
  }

  // ---------------------------------------------------------------- values

  predicate StartsWith(s: string, prefix: string) {
    |prefix| <= |s| && s[..|prefix|] == prefix
  }

  predicate EndsWith(s: string, suffix: string) {
    |suffix| <= |s| && s[|s| - |suffix|..] == suffix
  }

  /** `isPositiveNumber(value)`: `Integer.parseInt` succeeds with a value of at least zero. */
  function IsPositiveNumber(value: string): bool {
    match ParseInt(value)
    case Ok(v) => v >= 0
    case _ => false
  }

  datatype ValueKind = ColorValue | PercentageValue | PixelValue | BoolValue | ScalarValue | NoValue

  /** The rules of `determineValueAndPushToContainer`, tried in this order. */
  function ValueKindOf(value: string): ValueKind {
    if StartsWith(value, "#") then ColorValue
    else if EndsWith(value, "%") then PercentageValue
    else if EndsWith(value, "px") then PixelValue
    else if value == "TRUE" || value == "FALSE" then BoolValue
    else if IsPositiveNumber(value) then ScalarValue
    else NoValue
  }

  /** The literal that `determineValueAndPushToContainer` pushes for `value`, if any. The
      constructor of `PercentageLiteral` is not part of this model. */
  function ValueLiteral(value: string): Result<Option<Literal>> {
    match ValueKindOf(value)
    case ColorValue => Ok(Some(ColorLiteral(value)))
    case PercentageValue => Unmodelled
    case PixelValue =>
      var l :- PixelFromText(value);
      Ok(Some(l))
    case BoolValue => Ok(Some(BoolFromText(value)))
    case ScalarValue =>
      var l :- ScalarFromText(value);
      Ok(Some(l))
    case NoValue => Ok(None)
  }

  /**
   * The printed form of every literal is classified as that kind of literal again and, apart
   * from a Bool (whose text is lower case and so matches no rule), read back as the same
   * literal: a colour text starting with '#', a pixel amount, and a non-negative scalar.
   */
  lemma ValueTextRoundTrip(l: Literal)
    requires l.ColorLiteral? ==> StartsWith(l.color, "#")
    requires l.ScalarLiteral? ==> l.scalar >= 0
    requires !l.PercentageLiteral?
    ensures ToString(l).Ok?
    ensures !l.BoolLiteral? ==> ValueLiteral(ToString(l).value) == Ok(Some(l))
    ensures l.BoolLiteral? ==> ValueLiteral(ToString(l).value) == Ok(None)
  {
    match l
    case ColorLiteral(c) =>
      assert ToString(l).value == c;
    case PixelLiteral(v) =>
      PixelTextRoundTrip(v);
      PixelTextKind(v);
    case ScalarLiteral(v) =>
      ScalarTextRoundTrip(v);
      ScalarTextKind(v);
    case BoolLiteral(b) => BoolTextKind(b);
  }

  lemma PixelTextKind(v: int32)
    ensures ValueKindOf(IntToString(v) + "px") == PixelValue
  {
    var digits := IntToString(v);
    var text := digits + "px";
    assert digits[0] == '-' || IsDigit(digits[0]);
    assert text[|text| - 2..] == "px";
    assert !EndsWith(text, "%") by {
      assert text[|text| - 1] == 'x';
    }
    assert !StartsWith(text, "#") by {
      assert text[0] == digits[0];
    }
  }

  lemma ScalarTextKind(v: int32)
    requires v >= 0
    ensures ValueKindOf(IntToString(v)) == ScalarValue
  {
    var text := IntToString(v);
    IntTextRoundTrip(v);
    assert AllDigits(text);
    assert IsPositiveNumber(text);
    assert !StartsWith(text, "#") && !EndsWith(text, "%") && !EndsWith(text, "px") by {
      assert IsDigit(text[0]) && IsDigit(text[|text| - 1]);
    }
    assert text != "TRUE" && text != "FALSE" by {
      assert IsDigit(text[0]);
    }
  }

  lemma BoolTextKind(b: bool)
    ensures ValueKindOf(if b then "true" else "false") == NoValue
  {
    var text := if b then "true" else "false";
    assert !StartsWith(text, "#") && !EndsWith(text, "%") && !EndsWith(text, "px") by {
      assert text[0] == 't' || text[0] == 'f';
      assert text[|text| - 1] == 'e';
    }
    assert !IsPositiveNumber(text) by {
      assert !IsDigit(text[0]) && text[0] != '-' && text[0] != '+';
    }
  }

  /** A non-negative number is a scalar, a negative one matches no rule, and zero counts as
      non-negative. */
  lemma PositiveNumberRules(v: int32)
    ensures IsPositiveNumber(IntToString(v)) <==> v >= 0
    ensures IsPositiveNumber("0")
  {
    IntTextRoundTrip(v);
    IntTextRoundTrip(0);
  }

  // ---------------------------------------------------------------- the container stack

  /**
   * `enterConsecutiveSubCalculation(operator)` on the stack `c` (top first): under a
   * Declaration whose value is an operation, a new operation takes the old right operand as
   * its first operand and becomes the new right operand; it is also pushed.
   */
  function SubCalculation(c: seq<Node>, operator: string): (r: Result<seq<Node>>)
    ensures r.Ok? && c != [] && c[0].Declaration? ==> |r.value| == |c| + 1 && r.value[2..] == c[1..]
    ensures r.Ok? && !(c != [] && c[0].Declaration?) ==> r.value == c
  {
    if c == [] then Throws(NullPointer)
    else if !c[0].Declaration? then Ok(c)
    else
      var x := c[0].expression;
      if !(x.Operation? || x.Null?) then Throws(ClassCast)
      else
        var kind :- DetermineOperator(operator);
        if x.Null? then Throws(NullPointer)
        else
          var newRightHand := Operation(kind, x.rhs, Null);
          Ok([Expr(newRightHand), Declaration(c[0].property, Operation(x.kind, x.lhs, newRightHand))] + c[1..])
  }

  /** The declaration keeps its operation and left operand; its right operand is now the new
      operation, applied to the old right operand; the new operation is on top. Errors come in
      the order of the source: a value that is not an operation, then the operator, then a
      missing value. */
  lemma SubCalculationRules(p: string, k: OperationKind, lhs: Expression, rhs: Expression, other: Expression, rest: seq<Node>, operator: string)
    ensures var c := [Declaration(p, Operation(k, lhs, rhs))] + rest;
            var r := SubCalculation(c, operator);
            (r.Ok? <==> DetermineOperator(operator).Ok?)
            && (r.Ok? ==>
                  var op := Operation(DetermineOperator(operator).value, rhs, Null);
                  r.value[0] == Expr(op) && r.value[1] == Declaration(p, Operation(k, lhs, op)))
    ensures !(other.Operation? || other.Null?) ==> SubCalculation([Declaration(p, other)] + rest, operator) == Throws(ClassCast)
    ensures var r := SubCalculation([Declaration(p, Null)] + rest, operator);
            (DetermineOperator(operator).Ok? ==> r == Throws(NullPointer))
            && (!DetermineOperator(operator).Ok? ==> r == Throws(IllegalArgument))
    ensures SubCalculation([], operator) == Throws(NullPointer)
  {
  }

  class ASTListener {
    var root: Option<Node>
    var currentContainer: HanStacks.HANStack<Node>
    ghost var Repr: set<object>

    ghost predicate Valid()
      reads this, Repr
    {
      this in Repr && currentContainer in Repr && currentContainer.Repr <= Repr
      && this !in currentContainer.Repr && currentContainer.Valid()
    }

    /** The container stack, top first. */
    ghost function Container(): seq<Node>
      reads this, currentContainer
    {
      currentContainer.Contents
    }

    /** `new ASTListener()`: no root yet and an empty container stack. */
    constructor ()
      ensures Valid() && fresh(Repr)
      ensures root == None && Container() == []
    {
      root := None;
      currentContainer := new HanStacks.HANStack();
      new;
      Repr := {this} + currentContainer.Repr;
    }

    /** `enterStylesheet(ctx)`: an empty Stylesheet goes on top of the stack. */
    method EnterStylesheet()
      requires Valid()
      modifies Repr
      ensures Valid() && fresh(Repr - old(Repr)) && root == old(root)
      ensures Container() == [Stylesheet([])] + old(Container())
    {
      currentContainer.Push(Stylesheet([]));
      Repr := Repr + currentContainer.Repr;
    }

    /** `exitStylesheet()`: the Stylesheet on top of the stack becomes the root; anything else
        on top is an error. */
    method ExitStylesheet() returns (r: Result<()>)
      requires Valid()
      modifies Repr
      ensures Valid() && fresh(Repr - old(Repr))
      ensures old(Container()) == [] ==> r == Throws(NullPointer) && root == old(root) && Container() == old(Container())
      ensures old(Container()) != [] && old(Container())[0].Stylesheet? ==>
                r == Ok(()) && root == Some(old(Container())[0]) && Container() == old(Container())[1..]
      ensures old(Container()) != [] && !old(Container())[0].Stylesheet? ==>
                r == Throws(IllegalState) && root == old(root) && Container() == old(Container())
    {
      var top := currentContainer.Peek();
      if !top.Ok? {
        return top.PropagateFailure();
      }
      if top.value.Stylesheet? {
        var sheet := currentContainer.Pop();
        root := Some(sheet.value);
        return Ok(());
      }
      return Throws(IllegalState);
    }

    /** `determineValueAndPushToContainer(value)`: pushes the literal for `value`; text that
        matches no rule pushes nothing. */
    method DetermineValueAndPushToContainer(value: string) returns (r: Result<()>)
      requires Valid()
      modifies Repr
      ensures Valid() && fresh(Repr - old(Repr)) && root == old(root)
      ensures var v := ValueLiteral(value);
              r == Status(v)
              && (v.Ok? && v.value.Some? ==> Container() == [Expr(Lit(v.value.value))] + old(Container()))
              && (!(v.Ok? && v.value.Some?) ==> Container() == old(Container()))
    {
      var v := ValueLiteral(value);
      if !v.Ok? {
        return v.PropagateFailure();
      }
      if v.value.Some? {
        currentContainer.Push(Expr(Lit(v.value.value)));
        Repr := Repr + currentContainer.Repr;
      }
      return Ok(());
    }

    /** `determineOperatorAndPushToContainer(operator)`: pushes a new operation without
        operands; an unknown operator throws and pushes nothing. */
    method DetermineOperatorAndPushToContainer(operator: string) returns (r: Result<()>)
      requires Valid()
      modifies Repr
      ensures Valid() && fresh(Repr - old(Repr)) && root == old(root)
      ensures var k := DetermineOperator(operator);
              r == Status(k)
              && (k.Ok? ==> Container() == [Expr(Operation(k.value, Null, Null))] + old(Container()))
              && (!k.Ok? ==> Container() == old(Container()))
    {
      var k := DetermineOperator(operator);
      if !k.Ok? {
        return k.PropagateFailure();
      }
      PushNode(Expr(Operation(k.value, Null, Null)));
      return Ok(());
    }

    /** `currentContainer.push(n)`. */
    method PushNode(n: Node)
      requires Valid()
      modifies Repr
      ensures Valid() && fresh(Repr - old(Repr)) && root == old(root)
      ensures Container() == [n] + old(Container())
    {
      currentContainer.Push(n);
      Repr := Repr + currentContainer.Repr;
    }

    /** `currentContainer.pop()` on a non-empty stack, dropping the value. */
    method DropTop()
      requires Valid() && Container() != []
      modifies Repr
      ensures Valid() && Repr == old(Repr) && root == old(root)
      ensures Container() == old(Container())[1..]
    {
      var _ := currentContainer.Pop();
    }

    /** The edit of `enterConsecutiveSubCalculation` once the operator is known: the operation
        of the Declaration on top gets a new right operand, an operation of kind `kind` on the
        old right operand, which is pushed as well. */
    method ChainRightHand(kind: OperationKind)
      requires Valid() && Container() != []
      requires Container()[0].Declaration? && Container()[0].expression.Operation?
      modifies Repr
      ensures Valid() && fresh(Repr - old(Repr)) && root == old(root)
      ensures var d := old(Container())[0];
              var newRightHand := Operation(kind, d.expression.rhs, Null);
              Container() == [Expr(newRightHand), Declaration(d.property, Operation(d.expression.kind, d.expression.lhs, newRightHand))]
                             + old(Container())[1..]
    {
      var top := currentContainer.Peek();
      var currentDeclaration := top.value;
      var currentOperation := currentDeclaration.expression;
      var newRightHandOperation := Operation(kind, currentOperation.rhs, Null);
      DropTop();
      PushNode(Declaration(currentDeclaration.property,
        Operation(currentOperation.kind, currentOperation.lhs, newRightHandOperation)));
      PushNode(Expr(newRightHandOperation));
    }

    /** `enterConsecutiveSubCalculation(operator)`. The declaration on top is edited in place
        in the source; here it is replaced on the stack by its edited value. */
    method EnterConsecutiveSubCalculation(operator: string) returns (r: Result<()>)
      requires Valid()
      modifies Repr
      ensures Valid() && fresh(Repr - old(Repr)) && root == old(root)
      ensures var spec := SubCalculation(old(Container()), operator);
              r == Status(spec)
              && (spec.Ok? ==> Container() == spec.value)
              && (!spec.Ok? ==> Container() == old(Container()))
    {
      var top := currentContainer.Peek();
      if !top.Ok? {
        return top.PropagateFailure();
      }
      if !top.value.Declaration? {
        return Ok(());
      }
      var currentDeclaration := top.value;
      var currentOperation := currentDeclaration.expression;
      if !(currentOperation.Operation? || currentOperation.Null?) {
        return Throws(ClassCast);
      }
      var kind := DetermineOperator(operator);
      if !kind.Ok? {
        return kind.PropagateFailure();
      }
      if currentOperation.Null? {
        return Throws(NullPointer);
      }
      ghost var after := [Expr(Operation(kind.value, currentOperation.rhs, Null)),
        Declaration(currentDeclaration.property,
          Operation(currentOperation.kind, currentOperation.lhs, Operation(kind.value, currentOperation.rhs, Null)))]
        + old(Container())[1..];
      assert SubCalculation(old(Container()), operator) == Ok(after);
      assert Status(Ok(after)) == Ok(());
      ChainRightHand(kind.value);
      return Ok(());
    }
  }

  /** A listener that enters and then leaves a stylesheet, with nothing in between, ends with
      that empty stylesheet as its root and the stack as it was. */
  method EmptyStylesheet(listener: ASTListener) returns (r: Result<()>)
    requires listener.Valid()
    modifies listener.Repr
    ensures listener.Valid() && r == Ok(())
    ensures listener.root == Some(Stylesheet([]))
    ensures listener.Container() == old(listener.Container())
  {
    listener.EnterStylesheet();
    r := listener.ExitStylesheet();
  }
}
