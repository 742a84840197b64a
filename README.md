# ICSS compiler core, modelled in Dafny

ICSS ("I CSS") is a small teaching language that compiles to CSS. A stylesheet holds:

- variable assignments (`Name := value;`);
- style rules with declarations (`width: 10px;`);
- `if [cond] { ... } else { ... }` clauses inside rule bodies;
- expressions: pixel, percentage, scalar, colour and boolean literals, `+ - *` operations, variable references, boolean expressions and comparisons.

The compiler runs in this order:

1. An ANTLR listener (`ASTListener`) builds the abstract syntax tree on a stack of nodes (`HANStack`, over `HANLinkedList`).
2. `Checker` walks the tree with a scope stack of variable types. It reports semantic errors on the nodes and checks operation operands on a work stack of expression types.
3. `EvalExpressions` replaces variable references and conditions by literal values, using a scope stack of variable values.
4. `RemoveIf` copies the children of `if` clauses whose condition is a boolean literal into the enclosing node.
5. `Generator` prints the CSS text.

The model keeps the compiler's own structure:

- **Values.** The tree, literals, operators and expression types are datatypes (`Ast.Node`, `Ast.Expression`, `Literals.Literal`, ...). Java `null` in an expression slot is the constructor `Null`.
- **Failures.** Every Java exception the code can raise is an explicit outcome, `Throws(e)` of `JavaLang.Result`. Behaviour of classes that are not part of this model is the outcome `Unmodelled`.
- **Integers.** Java `int` is `JavaLang.int32`, with explicit 32-bit wrap-around (`Wrap32`).
- **Stateful objects are classes.** These are the linked list, its iterator and nodes, the stack, the listener, the checker, the evaluator, the if-remover, the generator and the two boolean AST node classes. Their fields are updated in place.
- **Specifications.** Each tree walk is proved against a recursive specification function over values: `CheckerSpec.CheckNode`, `EvalSpec.EvalNode`, `RemoveIfSpec.Traverse` and `CssGenerator.SheetOutput`. The properties the compiler promises are then proved as lemmas about those functions.

## Model

| member | source | states |
|---|---|---|
| JavaLang.Wrap32 | startcode/src/main/java/nl/han/ica/icss/ast/operations/AddOperation.java:14 | a Java `int` result is congruent to the exact result modulo 2^32, and equal to it when it is in range |
| JavaLang.NegateMinValue | startcode/src/main/java/nl/han/ica/icss/ast/operations/SubtractOperation.java:15 | negating `Integer.MIN_VALUE` wraps back to `Integer.MIN_VALUE` |
| JavaLang.IntTextRoundTrip | startcode/src/main/java/nl/han/ica/icss/ast/literals/ScalarLiteral.java:15-17 | `Integer.parseInt` of the decimal text of any `int` gives back that `int` |
| ComparisonOperators.EnumHasSixMembers | startcode/src/main/java/nl/han/ica/icss/ast/ComparisonOperator.java:3-9 | the enum declares exactly six distinct operators |
| ComparisonOperators.SymbolInjective | startcode/src/main/java/nl/han/ica/icss/ast/ComparisonOperator.java:4-9 | distinct operators have distinct source symbols |
| Literals.Evaluate | startcode/src/main/java/nl/han/ica/icss/ast/literals/BoolLiteral.java:45-66 | a comparison succeeds only between two literals of the same kind; only a percentage literal, whose class is not part of this model, has an unmodelled outcome |
| Literals.BoolTextRoundTrip | startcode/src/main/java/nl/han/ica/icss/ast/literals/BoolLiteral.java:15-37 | `TRUE`/`FALSE` text gives the literal; the lower-case `toString` text parses back as `false` |
| Literals.ScalarTextRoundTrip | startcode/src/main/java/nl/han/ica/icss/ast/literals/ScalarLiteral.java:15-36 | the text constructor inverts `toString` for every scalar |
| Literals.PixelTextRoundTrip | startcode/src/main/java/nl/han/ica/icss/ast/literals/PixelLiteral.java:15-36 | the text constructor inverts `toString` for every pixel value |
| Literals.PixelTextIgnoresSuffix | startcode/src/main/java/nl/han/ica/icss/ast/literals/PixelLiteral.java:15-17 | the pixel text constructor drops any two-character suffix unchecked, and succeeds exactly when the rest parses |
| Literals.PixelTextTooShort | startcode/src/main/java/nl/han/ica/icss/ast/literals/PixelLiteral.java:16 | text shorter than two characters throws `StringIndexOutOfBoundsException` |
| Literals.ColorTextAndEquality | startcode/src/main/java/nl/han/ica/icss/ast/literals/ColorLiteral.java:22-32 | a colour prints as its text, and is equal exactly to a colour with the same text |
| Literals.NodeLabel | startcode/src/main/java/nl/han/ica/icss/ast/literals/BoolLiteral.java:20-23 | a label names the literal's kind and brackets its value; a boolean's value is `TRUE` or `FALSE`; only a percentage literal, whose class is not part of this model, has an unmodelled label |
| Literals.BoolLabelUpperToStringLower | startcode/src/main/java/nl/han/ica/icss/ast/literals/BoolLiteral.java:20-37 | a boolean's label spells the value in upper case while `toString` gives it in lower case, so the label is not built from the `toString` text |
| Literals.NumericLabelShowsValue | startcode/src/main/java/nl/han/ica/icss/ast/literals/PixelLiteral.java:20-36 | a pixel's label shows its `toString` text without `px`, a scalar's label its `toString` text; the bracketed text parses back as the value |
| Literals.NumericOrderingConsistent | startcode/src/main/java/nl/han/ica/icss/ast/literals/ScalarLiteral.java:48-59 | on numbers, exactly one of `<`, `==`, `>` holds; `<=` and `>=` are their unions; `<` is the mirror of `>` |
| Literals.NumericComparisonValues | startcode/src/main/java/nl/han/ica/icss/ast/literals/ScalarLiteral.java:48-59 | for two scalars, and for two pixels, `LT`, `LET`, `EQ`, `GET` and `GT` answer the integer `<`, `<=`, `==`, `>=` and `>` |
| Literals.NotEqualIsLessThan | startcode/src/main/java/nl/han/ica/icss/ast/literals/PixelLiteral.java:54-55 | for scalar and pixel literals, `!=` answers the integer `<` on all inputs: false on equal values, but also false when the left is greater |
| Literals.MismatchedKindsThrow | startcode/src/main/java/nl/han/ica/icss/ast/literals/BoolLiteral.java:46-47 | comparing literals of different kinds, or with null, throws `IllegalArgumentException` |
| Literals.OperatorDomains | startcode/src/main/java/nl/han/ica/icss/ast/literals/BoolLiteral.java:50-65 | ordering operators throw `IllegalArgumentException` on booleans and colours; `AND`/`OR` answer on booleans only and throw `IllegalStateException` on other kinds; `==`/`!=` always answer on equal kinds |
| Literals.EqualityOperatorsComplementary | startcode/src/main/java/nl/han/ica/icss/ast/literals/ColorLiteral.java:46-49 | on booleans and colours `==` is value equality and `!=` its negation; on booleans `AND`/`OR` are the logical connectives |
| Literals.NumericValueDomain | startcode/src/main/java/nl/han/ica/icss/ast/literals/BoolLiteral.java:68-71 | only boolean and colour literals refuse a numeric value, with `UnsupportedOperationException`; a scalar gives its value |
| Operations.Evaluate | startcode/src/main/java/nl/han/ica/icss/ast/operations/AddOperation.java:14 | an operation succeeds iff both operands have a numeric value; its result is the exact sum/difference/product modulo 2^32; a failing left operand's exception is the one raised |
| Operations.EvaluateExactInRange | startcode/src/main/java/nl/han/ica/icss/ast/operations/MultiplyOperation.java:15 | when the exact result fits in an `int`, it is the result |
| Operations.AddOverflowWraps | startcode/src/main/java/nl/han/ica/icss/ast/operations/AddOperation.java:14 | `MAX_VALUE + 1` gives `MIN_VALUE` |
| Operations.Commutative | startcode/src/main/java/nl/han/ica/icss/ast/operations/MultiplyOperation.java:15 | addition and multiplication of two numeric operands do not depend on operand order |
| Operations.SubtractAntisymmetric | startcode/src/main/java/nl/han/ica/icss/ast/operations/SubtractOperation.java:15 | `a - b` is the wrapped negation of `b - a` |
| Operations.SubtractSelfIsZero | startcode/src/main/java/nl/han/ica/icss/ast/operations/SubtractOperation.java:15 | an operand minus itself is zero |
| Operations.MultiplyByOne | startcode/src/main/java/nl/han/ica/icss/ast/operations/MultiplyOperation.java:15 | one is a unit on either side of `*` |
| Operations.NonNumericOperandThrows | startcode/src/main/java/nl/han/ica/icss/ast/operations/AddOperation.java:14 | a boolean or colour operand throws `UnsupportedOperationException` |
| Operations.NonLiteralOperandThrows | startcode/src/main/java/nl/han/ica/icss/ast/operations/AddOperation.java:14 | a null operand throws `NullPointerException`; a non-literal operand throws `ClassCastException` |
| Operations.NodeLabel | startcode/src/main/java/nl/han/ica/icss/ast/operations/AddOperation.java:8-10 | an operation's label is `Add`, `Subtract` or `Multiply` exactly for its kind |
| BooleanNodes.BooleanComparison.constructor | startcode/src/main/java/nl/han/ica/icss/ast/BooleanComparison.java:19-24 | the full constructor stores negation, operator and both sides |
| BooleanNodes.BooleanComparison.WithNegation | startcode/src/main/java/nl/han/ica/icss/ast/BooleanComparison.java:11-13 | a new comparison with the given negation has no operator and no sides |
| BooleanNodes.BooleanComparison.WithOperator | startcode/src/main/java/nl/han/ica/icss/ast/BooleanComparison.java:15-17 | a new comparison with the given operator is not negated and has no sides |
| BooleanNodes.BooleanComparison.GetNodeLabel | startcode/src/main/java/nl/han/ica/icss/ast/BooleanComparison.java:27-29 | the label is `BooleanComparison (` + the operator's symbol (or `null`) + `)`, prefixed with `Negated` exactly for negated comparisons |
| BooleanNodes.BooleanComparison.GetChildren | startcode/src/main/java/nl/han/ica/icss/ast/BooleanComparison.java:32-39 | the children are the non-null sides, left before right |
| BooleanNodes.BooleanComparison.AsExpression | startcode/src/main/java/nl/han/ica/icss/ast/BooleanComparison.java:32-39 | the value form of the node has the same children as the object |
| BooleanNodes.BooleanComparison.AddChild | startcode/src/main/java/nl/han/ica/icss/ast/BooleanComparison.java:42-49 | a child fills the left side first, then the right, then is ignored; a non-expression child throws `ClassCastException` |
| BooleanNodes.BooleanComparison.SetOperator | startcode/src/main/java/nl/han/ica/icss/ast/BooleanComparison.java:55-57 | only the operator changes |
| BooleanNodes.BooleanComparison.SetLeft | startcode/src/main/java/nl/han/ica/icss/ast/BooleanComparison.java:63-65 | only the left side changes |
| BooleanNodes.BooleanComparison.SetRight | startcode/src/main/java/nl/han/ica/icss/ast/BooleanComparison.java:71-73 | only the right side changes |
| BooleanNodes.BooleanComparison.SetNegated | startcode/src/main/java/nl/han/ica/icss/ast/BooleanComparison.java:79-81 | only the negation flag changes |
| BooleanNodes.BooleanExpression.Empty | startcode/src/main/java/nl/han/ica/icss/ast/BooleanExpression.java:9-11 | a new boolean expression is not negated and empty |
| BooleanNodes.BooleanExpression.WithNegation | startcode/src/main/java/nl/han/ica/icss/ast/BooleanExpression.java:13-15 | a new boolean expression with the given negation is empty |
| BooleanNodes.BooleanExpression.constructor | startcode/src/main/java/nl/han/ica/icss/ast/BooleanExpression.java:17-20 | the full constructor stores negation and operand |
| BooleanNodes.BooleanExpression.AddChild | startcode/src/main/java/nl/han/ica/icss/ast/BooleanExpression.java:23-28 | an expression child replaces the operand; anything else leaves the node as it was |
| BooleanNodes.BooleanExpression.GetNodeLabel | startcode/src/main/java/nl/han/ica/icss/ast/BooleanExpression.java:31-33 | the label is `BooleanExpression`, prefixed with `Negated` exactly when negated |
| BooleanNodes.BooleanExpression.GetChildren | startcode/src/main/java/nl/han/ica/icss/ast/BooleanExpression.java:36-41 | the only child is the operand, if it is not null |
| BooleanNodes.BooleanExpression.AsExpression | startcode/src/main/java/nl/han/ica/icss/ast/BooleanExpression.java:36-41 | the value form of the node has the same children as the object |
| BooleanNodes.BooleanExpression.SetNegated | startcode/src/main/java/nl/han/ica/icss/ast/BooleanExpression.java:47-49 | only the negation flag changes |
| BooleanNodes.BooleanExpression.SetExpression | startcode/src/main/java/nl/han/ica/icss/ast/BooleanExpression.java:55-57 | only the operand changes |
| LinkedNodes.Node.constructor | startcode/src/main/java/nl/han/ica/datastructures/Node.java:7-10 | a new node holds its value and has no successor |
| LinkedNodes.Node.GetData | startcode/src/main/java/nl/han/ica/datastructures/Node.java:12-14 | returns the stored value |
| LinkedNodes.Node.SetData | startcode/src/main/java/nl/han/ica/datastructures/Node.java:16-18 | only the value changes |
| LinkedNodes.Node.GetNext | startcode/src/main/java/nl/han/ica/datastructures/Node.java:20-22 | returns the successor |
| LinkedNodes.Node.SetNext | startcode/src/main/java/nl/han/ica/datastructures/Node.java:24-26 | only the successor changes |
| LinkedNodes.ChainInsert | startcode/src/main/java/nl/han/ica/datastructures/HANLinkedList.java:58-60 | linking a fresh node between two neighbours of a chain gives a chain with its value at that position |
| HanLinkedLists.InsertRules | startcode/src/main/java/nl/han/ica/datastructures/HANLinkedList.java:35-63 | on a list whose counter bounds its cells, `insert` throws on an index at or past the counter or on a negative index; index 0 on a non-empty list puts the value in front; any other success puts the value before the last element, which stays last, and keeps the other elements in order |
| HanLinkedLists.InsertLandsOnePastIndex | startcode/src/main/java/nl/han/ica/datastructures/HANLinkedList.java:45-60 | on an index strictly between the first and the last position of a list whose counter equals its length, `insert(i, v)` puts `v` at position `i + 1`, not `i` |
| HanLinkedLists.DeleteRules | startcode/src/main/java/nl/han/ica/datastructures/HANLinkedList.java:66-94 | `delete` on an empty list does nothing; past the counter it throws; at 0 it drops the head; further in it drops everything from the position on, while decrementing the counter by one |
| HanLinkedLists.DeleteLosesTail | startcode/src/main/java/nl/han/ica/datastructures/HANLinkedList.java:84-88 | deleting an inner position leaves only the elements before it |
| HanLinkedLists.ElementAfterInsertAtHead | startcode/src/main/java/nl/han/ica/datastructures/HANLinkedList.java:97-123 | after adding a value in front, `get(0)` is that value and `get(i + 1)` is the old `get(i)` |
| HanLinkedLists.HANLinkedList.constructor | startcode/src/main/java/nl/han/ica/datastructures/HANLinkedList.java:9-12 | a new list is empty with counter 0 |
| HanLinkedLists.HANLinkedList.AddFirst | startcode/src/main/java/nl/han/ica/datastructures/HANLinkedList.java:14-26 | the value is prepended and the counter grows by one |
| HanLinkedLists.HANLinkedList.Clear | startcode/src/main/java/nl/han/ica/datastructures/HANLinkedList.java:28-32 | the list becomes empty with counter 0 |
| HanLinkedLists.HANLinkedList.Insert | startcode/src/main/java/nl/han/ica/datastructures/HANLinkedList.java:34-63 | the outcome and the new contents and counter are those of the reference function `Inserted` |
| HanLinkedLists.HANLinkedList.LinkBetween | startcode/src/main/java/nl/han/ica/datastructures/HANLinkedList.java:58-62 | a new node lands between the two given neighbours and the counter grows by one |
| HanLinkedLists.HANLinkedList.Delete | startcode/src/main/java/nl/han/ica/datastructures/HANLinkedList.java:65-94 | the outcome and the new contents and counter are those of the reference function `Deleted` |
| HanLinkedLists.HANLinkedList.Get | startcode/src/main/java/nl/han/ica/datastructures/HANLinkedList.java:96-123 | returns the element at the index, or the exception the walk raises (reference function `Element`) |
| HanLinkedLists.HANLinkedList.RemoveFirst | startcode/src/main/java/nl/han/ica/datastructures/HANLinkedList.java:125-133 | drops the head and decrements the counter, or throws `IllegalStateException` on an empty list |
| HanLinkedLists.HANLinkedList.GetFirst | startcode/src/main/java/nl/han/ica/datastructures/HANLinkedList.java:135-138 | returns the head value, or throws `NullPointerException` on an empty list |
| HanLinkedLists.HANLinkedList.GetSize | startcode/src/main/java/nl/han/ica/datastructures/HANLinkedList.java:140-143 | returns the counter, which is never below the number of elements |
| HanLinkedLists.HANLinkedList.IsEmpty | startcode/src/main/java/nl/han/ica/datastructures/HANLinkedList.java:146-148 | true iff the counter is 0, in which case the list is empty |
| HanLinkedLists.HANLinkedList.Iterator | startcode/src/main/java/nl/han/ica/datastructures/HANLinkedList.java:154-157 | a fresh iterator whose remaining elements are the whole list |
| HanLinkedLists.LinkedListIterator.constructor | startcode/src/main/java/nl/han/ica/datastructures/LinkedListIterator.java:8-10 | the iterator starts at the given node |
| HanLinkedLists.LinkedListIterator.HasNext | startcode/src/main/java/nl/han/ica/datastructures/LinkedListIterator.java:13-15 | true iff elements remain |
| HanLinkedLists.LinkedListIterator.Next | startcode/src/main/java/nl/han/ica/datastructures/LinkedListIterator.java:18-22 | returns the next remaining element and advances; at the end it throws `NullPointerException` |
| HanLinkedLists.Elements | startcode/src/main/java/nl/han/ica/datastructures/LinkedListIterator.java:13-22 | iterating with `hasNext`/`next` visits exactly the list's elements, in order |
| HanStacks.PopsReversePushes | startcode/src/main/java/nl/han/ica/datastructures/HANStack.java:11-21 | values pushed in order sit on the stack in reverse order, above what was there |
| HanStacks.Reverse | startcode/src/main/java/nl/han/ica/datastructures/HANStack.java:11-21 | element `i` of the reversal is element `n - 1 - i` of the input |
| HanStacks.HANStack.constructor | startcode/src/main/java/nl/han/ica/datastructures/HANStack.java:6-8 | a new stack is empty |
| HanStacks.HANStack.Push | startcode/src/main/java/nl/han/ica/datastructures/HANStack.java:11-13 | the value becomes the top |
| HanStacks.HANStack.Pop | startcode/src/main/java/nl/han/ica/datastructures/HANStack.java:16-21 | returns and removes the top; on an empty stack it throws `NullPointerException` and changes nothing |
| HanStacks.HANStack.Peek | startcode/src/main/java/nl/han/ica/datastructures/HANStack.java:24-26 | returns the top, or throws `NullPointerException` on an empty stack |
| HanStacks.HANStack.Empty | startcode/src/main/java/nl/han/ica/datastructures/HANStack.java:28-30 | true iff the stack holds nothing, which is when the list counter is 0 |
| HanStacks.PushThenPop | startcode/src/main/java/nl/han/ica/datastructures/HANStack.java:11-21 | a pop right after a push returns the pushed value and restores the stack |
| AstListeners.DetermineOperator | startcode/src/main/java/nl/han/ica/icss/parser/ASTListener.java:326-336 | `*`, `+` and `-` select multiply, add and subtract; every other text throws `IllegalArgumentException` |
| AstListeners.OperatorSymbolRoundTrip | startcode/src/main/java/nl/han/ica/icss/parser/ASTListener.java:326-336 | every operation kind is selected by its own symbol |
| AstListeners.ValueTextRoundTrip | startcode/src/main/java/nl/han/ica/icss/parser/ASTListener.java:338-350 | the value text of a pixel, scalar or colour literal is read back as that literal; boolean text gives no literal |
| AstListeners.PositiveNumberRules | startcode/src/main/java/nl/han/ica/icss/parser/ASTListener.java:352-361 | the decimal text of an `int` counts as a positive number iff the `int` is not negative |
| AstListeners.SubCalculation | startcode/src/main/java/nl/han/ica/icss/parser/ASTListener.java:156-171 | on a declaration on top, a consecutive sub-calculation adds exactly one node and keeps the rest of the stack |
| AstListeners.SubCalculationRules | startcode/src/main/java/nl/han/ica/icss/parser/ASTListener.java:156-171 | the new operation takes the old right-hand side as its left operand; a non-null, non-operation value throws `ClassCastException`; a null value throws `NullPointerException`, or `IllegalArgumentException` for an unknown operator; an empty stack throws `NullPointerException` |
| AstListeners.ASTListener.constructor | startcode/src/main/java/nl/han/ica/icss/parser/ASTListener.java:25-28 | a new listener has no tree and an empty container |
| AstListeners.ASTListener.EnterStylesheet | startcode/src/main/java/nl/han/ica/icss/parser/ASTListener.java:30-33 | an empty stylesheet is pushed |
| AstListeners.ASTListener.ExitStylesheet | startcode/src/main/java/nl/han/ica/icss/parser/ASTListener.java:35-42 | the top stylesheet becomes the tree's root; an empty container throws `NullPointerException`; any other top throws `IllegalStateException` |
| AstListeners.ASTListener.DetermineValueAndPushToContainer | startcode/src/main/java/nl/han/ica/icss/parser/ASTListener.java:338-350 | pushes the literal the value text denotes, pushes nothing for other text, and propagates a parse failure |
| AstListeners.ASTListener.DetermineOperatorAndPushToContainer | startcode/src/main/java/nl/han/ica/icss/parser/ASTListener.java:322-324 | pushes an operation of the selected kind with no operands, or throws on an unknown operator and pushes nothing |
| AstListeners.ASTListener.ChainRightHand | startcode/src/main/java/nl/han/ica/icss/parser/ASTListener.java:165-169 | the declaration on top now holds a new operation whose left operand is its old right-hand side, and that operation is pushed |
| AstListeners.ASTListener.EnterConsecutiveSubCalculation | startcode/src/main/java/nl/han/ica/icss/parser/ASTListener.java:156-171 | the outcome and the new container are those of the reference function `SubCalculation` |
| AstListeners.EmptyStylesheet | startcode/src/main/java/nl/han/ica/icss/parser/ASTListener.java:30-42 | entering and leaving a stylesheet with nothing inside yields an empty stylesheet as root and leaves the container as it was |
| TreePaths.AppendAtContent | startcode/src/main/java/nl/han/ica/icss/transforms/RemoveIf.java:30 | appending children at a path changes the node there by exactly that append, and the path still leads to a node |
| TreePaths.AppendAtGrows | startcode/src/main/java/nl/han/ica/icss/transforms/RemoveIf.java:30 | appending at a path only adds nodes: every node keeps its children and gains some at the end |
| TreePaths.GrowsTransitive | startcode/src/main/java/nl/han/ica/icss/transforms/RemoveIf.java:20-46 | "only adds nodes" composes over successive appends |
| TreePaths.GrowsAt | startcode/src/main/java/nl/han/ica/icss/transforms/RemoveIf.java:20-46 | a path that leads to a node in a tree still does so after the tree grows |
| RemoveIfSpec.AddAllContent | startcode/src/main/java/nl/han/ica/icss/transforms/RemoveIf.java:30-34 | adding nodes one by one to the parent is the same as appending them all at once |
| RemoveIfSpec.AddAllGrows | startcode/src/main/java/nl/han/ica/icss/transforms/RemoveIf.java:30-34 | adding nodes to the parent only adds nodes |
| RemoveIfSpec.TraverseOnlyAppends | startcode/src/main/java/nl/han/ica/icss/transforms/RemoveIf.java:20-46 | the walk only ever appends nodes to the tree, and the remembered parent always names a node that exists |
| RemoveIfSpec.TraverseListOnlyAppends | startcode/src/main/java/nl/han/ica/icss/transforms/RemoveIf.java:45 | the same, for the walk over a list of children |
| RemoveIfSpec.ApplyOnlyAppends | startcode/src/main/java/nl/han/ica/icss/transforms/RemoveIf.java:14-18 | the transform's result contains the original tree, grown, and its parent path is valid |
| RemoveIfSpec.BranchRules | startcode/src/main/java/nl/han/ica/icss/transforms/RemoveIf.java:26-37 | a true literal condition copies the if clause's children to the parent; a false one copies the else clause's children, or nothing; other clauses are walked into |
| RemoveIfTransform.RemoveIf.constructor | startcode/src/main/java/nl/han/ica/icss/transforms/RemoveIf.java:14-18 | the transform starts on the given tree with the root as parent |
| RemoveIfTransform.RemoveIf.Apply | startcode/src/main/java/nl/han/ica/icss/transforms/RemoveIf.java:14-18 | the final state is the specification's, so the tree only grew and the parent is valid |
| RemoveIfTransform.RemoveIf.TraverseTree | startcode/src/main/java/nl/han/ica/icss/transforms/RemoveIf.java:20-46 | the new tree and parent are those of the recursive specification `Traverse` |
| RemoveIfTransform.RemoveIf.TraverseEach | startcode/src/main/java/nl/han/ica/icss/transforms/RemoveIf.java:45 | the new state is that of the specification walk over the children |
| RemoveIfTransform.RemoveIf.AddEachToParent | startcode/src/main/java/nl/han/ica/icss/transforms/RemoveIf.java:30 | the nodes are appended, in order, to the parent node; the parent path is kept |
| CssGenerator.DeclarationLine | startcode/src/main/java/nl/han/ica/icss/generator/Generator.java:43-49 | a declaration prints as a tab, the property, `: ` and the value text, and fails iff the value has no known text |
| CssGenerator.RuleOutput | startcode/src/main/java/nl/han/ica/icss/generator/Generator.java:22-36 | a rule with no selector throws `IndexOutOfBoundsException` and prints nothing; otherwise it prints the first selector, a braced block of declaration lines and a blank line |
| CssGenerator.Declarations | startcode/src/main/java/nl/han/ica/icss/generator/Generator.java:41-42 | the filtered children are all declarations |
| CssGenerator.Rules | startcode/src/main/java/nl/han/ica/icss/generator/Generator.java:15-17 | the filtered children are all style rules |
| CssGenerator.HasDeclarationFiltered | startcode/src/main/java/nl/han/ica/icss/generator/Generator.java:41-42 | a body has a declaration iff the declaration filter keeps something |
| CssGenerator.DeclarationsAreJoinedLines | startcode/src/main/java/nl/han/ica/icss/generator/Generator.java:38-53 | a rule body prints as its declaration lines joined by the line separator, other children ignored |
| CssGenerator.OnlyRulesEmitted | startcode/src/main/java/nl/han/ica/icss/generator/Generator.java:14-17 | children of the stylesheet other than style rules contribute no output |
| CssGenerator.SheetOutputAppend | startcode/src/main/java/nl/han/ica/icss/generator/Generator.java:14-17 | the output for two runs of children is the output of the first followed by that of the second, unless the first fails |
| CssGenerator.RuleWithoutSelectorsStops | startcode/src/main/java/nl/han/ica/icss/generator/Generator.java:23 | a rule without selectors ends generation with the output printed so far |
| CssGenerator.Generator.constructor | startcode/src/main/java/nl/han/ica/icss/generator/Generator.java:9 | the buffer starts empty |
| CssGenerator.Generator.Generate | startcode/src/main/java/nl/han/ica/icss/generator/Generator.java:11-20 | the buffer gains exactly the specification's output for the stylesheet, and the text returned is the whole buffer |
| CssGenerator.Generator.GenerateChild | startcode/src/main/java/nl/han/ica/icss/generator/Generator.java:15-17 | the buffer gains the output of one stylesheet child |
| CssGenerator.Generator.GenerateStyleRule | startcode/src/main/java/nl/han/ica/icss/generator/Generator.java:22-36 | the buffer gains the specification's output for the rule |
| CssGenerator.Generator.GenerateDeclarations | startcode/src/main/java/nl/han/ica/icss/generator/Generator.java:38-53 | the buffer gains the specification's output for the body's declarations |
| CheckerTypes.VariableTypeInnermost | startcode/src/main/java/nl/han/ica/icss/checker/Checker.java:328-340 | an unknown variable is `UNDEFINED`; otherwise the type is the one in the innermost scope that binds the name |
| CheckerTypes.InnermostBindingWins | startcode/src/main/java/nl/han/ica/icss/checker/Checker.java:64-77 | after binding a name in the innermost scope, its type is the bound one |
| CheckerTypes.LiteralType | startcode/src/main/java/nl/han/ica/icss/checker/Checker.java:342-361 | every literal has a defined type |
| CheckerTypes.DetermineOperationExpressionType | startcode/src/main/java/nl/han/ica/icss/checker/Checker.java:288-302 | an operation is never boolean or colour; it is scalar only through two scalar literal operands or a nested operation |
| CheckerTypes.DetermineExpressionType | startcode/src/main/java/nl/han/ica/icss/checker/Checker.java:342-361 | the type is `BOOL` exactly for boolean literals, boolean expressions, comparisons and references to variables typed `BOOL`; `COLOR` exactly for colour literals and references to variables typed `COLOR`; null is `UNDEFINED` |
| CheckerTypes.OperationType | startcode/src/main/java/nl/han/ica/icss/checker/Checker.java:198-286 | the reference typing of an operation: only pixel, percentage or scalar results |
| CheckerTypes.OperandTypeRange | startcode/src/main/java/nl/han/ica/icss/checker/Checker.java:218-235 | an accepted operand never has type `UNDEFINED` |
| CheckerTypes.AddOperandAgrees | startcode/src/main/java/nl/han/ica/icss/checker/Checker.java:218-235 | pushing an operand's type on the work stack flags it illegal iff the reference typing rejects it, and otherwise pushes that type |
| CheckerTypes.ValidateOperationAgrees | startcode/src/main/java/nl/han/ica/icss/checker/Checker.java:203-216 | the work-stack validation of an operation agrees with the reference typing, result type included |
| CheckerTypes.IsOperationAllowedAgrees | startcode/src/main/java/nl/han/ica/icss/checker/Checker.java:198-201 | an operation over simple operands is allowed iff the reference typing gives it a type |
| CheckerTypes.IllegalOperands | startcode/src/main/java/nl/han/ica/icss/checker/Checker.java:254-258 | colour, boolean and undefined operands are rejected |
| CheckerTypes.ArithmeticTypeRules | startcode/src/main/java/nl/han/ica/icss/checker/Checker.java:260-286 | `+`/`-` need equal operand types and keep them; `*` needs a scalar on one side and takes the other side's type |
| CheckerTypes.NonArithmeticOperandUnderflows | startcode/src/main/java/nl/han/ica/icss/checker/Checker.java:237-239 | an operand that is neither literal, reference nor operation leaves the work stack short, and popping it throws `NoSuchElementException` |
| CheckerTypes.DeterminedTypeOfLegalLiteralOperation | startcode/src/main/java/nl/han/ica/icss/checker/Checker.java:288-294 | on a legal operation of two literals, the expression type agrees with the reference typing |
| CheckerTypes.DeterminedTypeLiteralRules | startcode/src/main/java/nl/han/ica/icss/checker/Checker.java:288-294 | a percentage literal on either side makes the operation `PERCENTAGE`; otherwise a pixel literal on either side makes it `PIXEL`; two scalar literals make it `SCALAR` |
| CheckerTypes.DeterminedTypeFollowsLeftOperation | startcode/src/main/java/nl/han/ica/icss/checker/Checker.java:295-296 | when no literal rule applies, a left operand that is an operation decides the type, whatever the right operand |
| CheckerTypes.DeterminedTypeFollowsRightOperation | startcode/src/main/java/nl/han/ica/icss/checker/Checker.java:297-298 | only when the left operand is not an operation does a right operation decide the type |
| CheckerTypes.DeterminedTypeUndefinedFallback | startcode/src/main/java/nl/han/ica/icss/checker/Checker.java:288-302 | with no literal rule and no operation operand the type is `UNDEFINED`; so `$w * 2` is `UNDEFINED` whatever `$w` is bound to |
| CheckerTypes.DeclaredTypeCanDisagree | startcode/src/main/java/nl/han/ica/icss/checker/Checker.java:295-296 | following the left operation can contradict the real type: `(2 * 3) * (4px * 5)` is declared `SCALAR` although it is a legal pixel product |
| CheckerSpec.RegisterVariables | startcode/src/main/java/nl/han/ica/icss/checker/Checker.java:54-82 | registering an assignment keeps the outer scopes, only adds errors, and leaves the work stack alone |
| CheckerSpec.CheckDeclarationSemantic | startcode/src/main/java/nl/han/ica/icss/checker/Checker.java:141-151 | checking a declaration leaves the scopes alone and only adds errors |
| CheckerSpec.CheckBooleanComparisonSemantic | startcode/src/main/java/nl/han/ica/icss/checker/Checker.java:108-133 | checking a comparison adds at most one error and changes nothing else |
| CheckerSpec.CheckOperationSemantic | startcode/src/main/java/nl/han/ica/icss/checker/Checker.java:135-139 | checking an operation leaves the scopes alone and only adds errors |
| CheckerSpec.CheckConditionSemantic | startcode/src/main/java/nl/han/ica/icss/checker/Checker.java:153-160 | checking a condition adds at most one error and changes nothing else |
| CheckerSpec.CheckSemantic | startcode/src/main/java/nl/han/ica/icss/checker/Checker.java:84-96 | the per-node check leaves the scopes alone and only adds errors |
| CheckerSpec.CheckNode | startcode/src/main/java/nl/han/ica/icss/checker/Checker.java:27-40 | a node's check keeps the outer scopes and only adds errors; a node that opens a scope closes it again |
| CheckerSpec.EnterNode | startcode/src/main/java/nl/han/ica/icss/checker/Checker.java:27-33 | entering a node keeps the scopes as opened for it and only adds errors |
| CheckerSpec.CheckList | startcode/src/main/java/nl/han/ica/icss/checker/Checker.java:35 | checking the children keeps the outer scopes and only adds errors |
| CheckerSpec.CheckListPrefixFailure | startcode/src/main/java/nl/han/ica/icss/checker/Checker.java:35 | once a child's check throws, later children are not checked |
| CheckerSpec.CheckBalancesScopes | startcode/src/main/java/nl/han/ica/icss/checker/Checker.java:17-21 | a successful check of a stylesheet ends with no scope open |
| CheckerSpec.IllegalPropertyReported | startcode/src/main/java/nl/han/ica/icss/checker/Checker.java:141-146 | a declaration of an unknown property gets the error `<name> is not a legal property name!` |
| CheckerSpec.DeclarationValueReported | startcode/src/main/java/nl/han/ica/icss/checker/Checker.java:141-151 | a declaration whose value type is rejected gets `<name> has an illegal value type or expression!` as its last error, after the property-name error when there is one; an accepted value adds no error, and a thrown exception is passed on |
| CheckerSpec.OperationErrorRules | startcode/src/main/java/nl/han/ica/icss/checker/Checker.java:135-139 | an operation node gets exactly the error `Illegal operation` when `isOperationAllowed` rejects it and no error when it accepts it; the work stack is the one validation leaves, and a thrown exception is passed on |
| CheckerSpec.PropertyValueRules | startcode/src/main/java/nl/han/ica/icss/checker/Checker.java:168-196 | colour properties take colours only, size properties take pixels or percentages; an undefined variable is rejected |
| CheckerSpec.ReassignmentRules | startcode/src/main/java/nl/han/ica/icss/checker/Checker.java:66-77 | reassigning a variable with a value of another type is an error and keeps the old binding; the same type rebinds |
| CheckerSpec.FreshAssignmentBinds | startcode/src/main/java/nl/han/ica/icss/checker/Checker.java:64-65 | assigning a new variable binds it in the innermost scope to the value's type |
| CheckerSpec.ComparisonRules | startcode/src/main/java/nl/han/ica/icss/checker/Checker.java:114-132 | sides of different types get the error `BooleanComparison: Both sides must be of the same data type!`; on equal colour or boolean sides an ordering operator gets `BooleanComparison: Non numeric literals can not be used with the <op> operator`; otherwise no error |
| CheckerSpec.ConditionRules | startcode/src/main/java/nl/han/ica/icss/checker/Checker.java:153-160 | a condition that is not boolean gets exactly one error |
| CheckerSpec.UninitializedReported | startcode/src/main/java/nl/han/ica/icss/checker/Checker.java:309-316 | a reference to a variable in no scope gets an error |
| TypeChecker.Checker.constructor | startcode/src/main/java/nl/han/ica/icss/checker/Checker.java:13-15 | a new checker has no scopes, no work stack and no errors |
| TypeChecker.Checker.Check | startcode/src/main/java/nl/han/ica/icss/checker/Checker.java:17-21 | the outcome and the errors recorded are those of the specification walk from empty scopes |
| TypeChecker.Checker.CheckChildren | startcode/src/main/java/nl/han/ica/icss/checker/Checker.java:27-40 | the outcome and new state are those of the recursive specification `CheckNode` |
| TypeChecker.Checker.EnterNode | startcode/src/main/java/nl/han/ica/icss/checker/Checker.java:27-33 | reports whether the node opened a scope; outcome and state follow the specification |
| TypeChecker.Checker.CheckEach | startcode/src/main/java/nl/han/ica/icss/checker/Checker.java:35 | outcome and state are those of checking the children in order |
| TypeChecker.Checker.GenerateScope | startcode/src/main/java/nl/han/ica/icss/checker/Checker.java:42-52 | a new empty scope is opened exactly for scope nodes |
| TypeChecker.Checker.SetError | startcode/src/main/java/nl/han/ica/icss/checker/Checker.java:104 | the error is recorded against the node |
| TypeChecker.Checker.Put | startcode/src/main/java/nl/han/ica/icss/checker/Checker.java:65 | the name is bound in the innermost scope |
| TypeChecker.Checker.RegisterVariables | startcode/src/main/java/nl/han/ica/icss/checker/Checker.java:54-82 | outcome and state follow the specification of variable registration |
| TypeChecker.Checker.CheckScope | startcode/src/main/java/nl/han/ica/icss/checker/Checker.java:309-316 | state follows the specification: an undefined reference gets an error |
| TypeChecker.Checker.IsVariableInScope | startcode/src/main/java/nl/han/ica/icss/checker/Checker.java:318-326 | true iff some scope binds the name |
| TypeChecker.Checker.GetVariableExpressionType | startcode/src/main/java/nl/han/ica/icss/checker/Checker.java:328-340 | the scan from the innermost scope gives the innermost binding's type |
| TypeChecker.Checker.DetermineExpressionType | startcode/src/main/java/nl/han/ica/icss/checker/Checker.java:342-361 | returns the specification's type of the expression |
| TypeChecker.Checker.CheckSemantic | startcode/src/main/java/nl/han/ica/icss/checker/Checker.java:84-96 | outcome and state follow the specification of the per-node check |
| TypeChecker.Checker.CheckBooleanExpressionSemantic | startcode/src/main/java/nl/han/ica/icss/checker/Checker.java:98-106 | state follows the specification of a condition check |
| TypeChecker.Checker.CheckBooleanComparisonSemantic | startcode/src/main/java/nl/han/ica/icss/checker/Checker.java:108-121 | state follows the specification of a comparison check |
| TypeChecker.Checker.CheckValidityOperatorWithExpressionType | startcode/src/main/java/nl/han/ica/icss/checker/Checker.java:123-133 | an error is added iff the operator is an ordering and the left side is a colour or the right side a boolean |
| TypeChecker.Checker.CheckOperationSemantic | startcode/src/main/java/nl/han/ica/icss/checker/Checker.java:135-139 | outcome and state follow the specification of an operation check |
| TypeChecker.Checker.CheckDeclarationSemantic | startcode/src/main/java/nl/han/ica/icss/checker/Checker.java:141-151 | outcome and state follow the specification of a declaration check |
| TypeChecker.Checker.CheckIfClauseSemantic | startcode/src/main/java/nl/han/ica/icss/checker/Checker.java:153-160 | state follows the specification of a condition check |
| TypeChecker.Checker.IsPropertyValueTypeAllowed | startcode/src/main/java/nl/han/ica/icss/checker/Checker.java:168-196 | answers the specification's verdict on the property's value and leaves scopes and errors alone |
| TypeChecker.Checker.IsOperationAllowed | startcode/src/main/java/nl/han/ica/icss/checker/Checker.java:198-201 | answers the specification's verdict on the operation |
| TypeChecker.Checker.ValidateOperation | startcode/src/main/java/nl/han/ica/icss/checker/Checker.java:203-216 | answers the specification's verdict, with the work stack it leaves |
| TypeChecker.Checker.AddExpressionTypeToList | startcode/src/main/java/nl/han/ica/icss/checker/Checker.java:218-235 | pushes the operand's type on the work stack, or flags it illegal, as the specification says |
| TypeChecker.Checker.ValidateOperationExpressionTypes | startcode/src/main/java/nl/han/ica/icss/checker/Checker.java:237-252 | pops two operand types and validates them as the specification says |
| TypeChecker.Checker.ValidateMultiplyExpressionTypes | startcode/src/main/java/nl/han/ica/icss/checker/Checker.java:260-276 | validates `*` operand types as the specification says |
| TypeChecker.Checker.ValidateAddSubtractOperationExpressionTypes | startcode/src/main/java/nl/han/ica/icss/checker/Checker.java:278-286 | validates `+`/`-` operand types as the specification says |
| EvalSpec.ToExpr | startcode/src/main/java/nl/han/ica/icss/transforms/EvalExpressions.java:150-156 | a missing value becomes null; a value becomes its literal |
| EvalSpec.LookupInnermost | startcode/src/main/java/nl/han/ica/icss/transforms/EvalExpressions.java:227-244 | a lookup fails iff no scope binds the name; otherwise it gives the innermost binding |
| EvalSpec.InnermostValueWins | startcode/src/main/java/nl/han/ica/icss/transforms/EvalExpressions.java:69-81 | after storing a value, looking the name up gives that value |
| EvalSpec.Put | startcode/src/main/java/nl/han/ica/icss/transforms/EvalExpressions.java:69-81 | storing a value keeps the outer scopes |
| EvalSpec.CopyLiteral | startcode/src/main/java/nl/han/ica/icss/transforms/EvalExpressions.java:125-131 | only boolean literals are copied; anything else gives no value |
| EvalSpec.NegateValue | startcode/src/main/java/nl/han/ica/icss/transforms/EvalExpressions.java:142-148 | negation flips a boolean literal and leaves other values unchanged |
| EvalSpec.NegateInvolution | startcode/src/main/java/nl/han/ica/icss/transforms/EvalExpressions.java:142-148 | negating twice gives back the original value |
| EvalSpec.EvaluateBooleanComparison | startcode/src/main/java/nl/han/ica/icss/transforms/EvalExpressions.java:85-104 | a comparison that succeeds yields a boolean literal |
| EvalSpec.FirstLiteralAppend | startcode/src/main/java/nl/han/ica/icss/transforms/EvalExpressions.java:170-225 | the first value of a concatenation is from its first part if that has one |
| EvalSpec.OperationIsFirstLeaf | startcode/src/main/java/nl/han/ica/icss/transforms/EvalExpressions.java:170-225 | evaluating an operation gives the value of its first operand leaf, left to right, that has one |
| EvalSpec.OperandIsFirstLeaf | startcode/src/main/java/nl/han/ica/icss/transforms/EvalExpressions.java:170-225 | the same for a single operand |
| EvalSpec.NoArithmetic | startcode/src/main/java/nl/han/ica/icss/transforms/EvalExpressions.java:189-224 | `1px + 2px` evaluates to `1px`: the evaluator does no arithmetic |
| EvalSpec.BooleanExpressionRules | startcode/src/main/java/nl/han/ica/icss/transforms/EvalExpressions.java:107-123 | a boolean literal operand is negated when the expression is; other literals pass through; references are looked up; anything else gives no value |
| EvalSpec.ComparisonRules | startcode/src/main/java/nl/han/ica/icss/transforms/EvalExpressions.java:85-102 | a comparison of literals, or of a literal with a bound reference, is the literals' comparison; an unbound reference throws |
| EvalSpec.EvaluateVariableAssignment | startcode/src/main/java/nl/han/ica/icss/transforms/EvalExpressions.java:60-83 | an assignment keeps the outer scopes |
| EvalSpec.EvaluateOwn | startcode/src/main/java/nl/han/ica/icss/transforms/EvalExpressions.java:29-35 | evaluating one node keeps the outer scopes, and only an assignment changes them |
| EvalSpec.EvalNode | startcode/src/main/java/nl/han/ica/icss/transforms/EvalExpressions.java:24-42 | a subtree's evaluation keeps the outer scopes; a node that opens a scope closes it again |
| EvalSpec.EvalList | startcode/src/main/java/nl/han/ica/icss/transforms/EvalExpressions.java:37 | evaluating the children gives one node per child and keeps the outer scopes |
| EvalSpec.EvalListPrefixFailure | startcode/src/main/java/nl/han/ica/icss/transforms/EvalExpressions.java:37 | once a child's evaluation throws, later children do not change the outcome |
| EvalSpec.EvalNodeSteps | startcode/src/main/java/nl/han/ica/icss/transforms/EvalExpressions.java:24-42 | a node's evaluation is its own step, then its children's, then the scope pop, each failure stopping the walk |
| EvalSpec.ExpressionVisitIsIdentity | startcode/src/main/java/nl/han/ica/icss/transforms/EvalExpressions.java:24-42 | an expression subtree visited on its own is left unchanged, scopes included |
| EvalSpec.ExpressionListIsIdentity | startcode/src/main/java/nl/han/ica/icss/transforms/EvalExpressions.java:37 | a list of expression subtrees leaves the scopes unchanged |
| EvalSpec.ApplyBalancesScopes | startcode/src/main/java/nl/han/ica/icss/transforms/EvalExpressions.java:20-22 | a successful evaluation of a stylesheet ends with the scopes it started with |
| EvalSpec.AssignmentRules | startcode/src/main/java/nl/han/ica/icss/transforms/EvalExpressions.java:60-83 | a literal is stored as is; an expression with no value stores nothing; otherwise its value is stored and replaces the expression |
| EvalSpec.DeclarationRules | startcode/src/main/java/nl/han/ica/icss/transforms/EvalExpressions.java:150-156 | only a declaration whose value is a reference changes, to the referenced value |
| EvalSpec.ConditionRules | startcode/src/main/java/nl/han/ica/icss/transforms/EvalExpressions.java:44-58 | references and boolean expressions become their value; comparisons become their result; other conditions stay |
| EvalSpec.ComparisonNegationIgnored | startcode/src/main/java/nl/han/ica/icss/transforms/EvalExpressions.java:85-104 | the negation flag of a comparison does not affect its result |
| EvalTransform.EvalExpressions.constructor | startcode/src/main/java/nl/han/ica/icss/transforms/EvalExpressions.java:15-17 | a new evaluator has no scopes |
| EvalTransform.EvalExpressions.Apply | startcode/src/main/java/nl/han/ica/icss/transforms/EvalExpressions.java:20-22 | outcome, new tree and scopes are those of the specification |
| EvalTransform.EvalExpressions.TraverseTreeAndEvaluate | startcode/src/main/java/nl/han/ica/icss/transforms/EvalExpressions.java:24-42 | outcome, new subtree and scopes are those of the recursive specification `EvalNode` |
| EvalTransform.EvalExpressions.EvaluateNode | startcode/src/main/java/nl/han/ica/icss/transforms/EvalExpressions.java:29-35 | evaluates one node as the specification says |
| EvalTransform.EvalExpressions.TraverseEach | startcode/src/main/java/nl/han/ica/icss/transforms/EvalExpressions.java:37 | evaluates the children in order as the specification says |
| EvalTransform.EvalExpressions.GenerateScope | startcode/src/main/java/nl/han/ica/icss/transforms/EvalExpressions.java:158-168 | a new empty scope is opened exactly for scope nodes |
| EvalTransform.EvalExpressions.EvaluateIfClause | startcode/src/main/java/nl/han/ica/icss/transforms/EvalExpressions.java:44-58 | returns the specification's value of the condition |
| EvalTransform.EvalExpressions.EvaluateVariableAssignment | startcode/src/main/java/nl/han/ica/icss/transforms/EvalExpressions.java:60-83 | outcome, new node and scopes follow the specification |
| EvalTransform.EvalExpressions.EvaluateBooleanComparison | startcode/src/main/java/nl/han/ica/icss/transforms/EvalExpressions.java:85-104 | returns the specification's result, a boolean literal on success |
| EvalTransform.EvalExpressions.EvaluateBooleanExpression | startcode/src/main/java/nl/han/ica/icss/transforms/EvalExpressions.java:107-123 | returns the specification's value, boolean for boolean or reference operands |
| EvalTransform.EvalExpressions.EvaluateVariableReference | startcode/src/main/java/nl/han/ica/icss/transforms/EvalExpressions.java:133-136 | returns the innermost value bound to the name |
| EvalTransform.EvalExpressions.EvaluateVariableAssignmentOperation | startcode/src/main/java/nl/han/ica/icss/transforms/EvalExpressions.java:138-140 | returns the specification's value of the operation |
| EvalTransform.EvalExpressions.EvaluateDeclaration | startcode/src/main/java/nl/han/ica/icss/transforms/EvalExpressions.java:150-156 | only a reference value is replaced |
| EvalTransform.EvalExpressions.EvaluateOperation | startcode/src/main/java/nl/han/ica/icss/transforms/EvalExpressions.java:170-225 | the loop-free recursion over operands returns the specification's value, the first leaf value |
| EvalTransform.EvalExpressions.GetVariableValue | startcode/src/main/java/nl/han/ica/icss/transforms/EvalExpressions.java:227-244 | the scan from the innermost scope returns the innermost value bound to the name |

## Left out

- I/O, the ANTLR parser itself, the `Pipeline` that chains the phases, and the GUI are not part of this model.
- `System.lineSeparator()` is the parameter `sep` of the generator.
- JavaLang.ParseInt: only ASCII digits; `Integer.parseInt` also accepts other Unicode decimal digits. The lexer supplies only ASCII digits.
- The parse-tree context of each listener callback is passed in as the text it holds.
- Only the listener callbacks `enterStylesheet`, `exitStylesheet` and `enterConsecutiveSubCalculation` are modelled, with the helpers `determineValueAndPushToContainer`, `determineOperatorAndPushToContainer`, `determineOperator` and `isPositiveNumber`. The other callbacks push or pop one node in the same way.
- In-place updates of shared AST nodes are modelled on values, so aliasing is not captured. The evaluator, `RemoveIf` and the listener's right-hand-side rewrite all return or store new values. `negateValue` mutates a literal that other nodes may share, and that sharing is not modelled.
- `PercentageLiteral` is not part of this model. Its comparison, numeric value and text constructor have the outcome `Unmodelled`.
- The source of the AST classes `Stylesheet`, `Stylerule`, `Declaration`, `VariableAssignment`, `IfClause`, `ElseClause`, `Operation` and the selectors is not part of this model. Their children are assumed to be:
  - `IfClause`: condition, body, else clause;
  - `Stylerule`: the body;
  - `Declaration`: the value;
  - `VariableAssignment`: the name reference and the value;
  - `Operation`: left and right operand.

  Null fields are left out, as in `BooleanComparison.getChildren`. Selectors and property names are fields only.
- The generator's text for an expression that is not a literal is `Unmodelled`, because those classes' `toString` is not part of this model.
- Literals.NumericValueDomain: `PixelLiteral` declares no `getNumericValue`. The model gives a pixel its value, and the lemma states only the scalar case.
- `ComparisonOperator.java` declares six operators, but `BoolLiteral.evaluate` also names `AND` and `OR`. Both are added to the model's operator type. `ComparisonOperators.EnumHasSixMembers` states which six the enum declares.
- Literals.NotEqualIsLessThan: the scalar and pixel `!=` are modelled as written, computing `<`.
- EvalSpec.NoArithmetic: the evaluator is modelled as written. An operation evaluates to its first operand literal, and no arithmetic is done.
- RemoveIfSpec.TraverseOnlyAppends: `RemoveIf` as written never removes the `if` clause it copies from, and never restores the parent after a rule body. The properties proved are that it only appends and that the parent is valid, not that `if` clauses disappear.
- HanLinkedLists.InsertRules and HanLinkedLists.DeleteRules: the quirks of `insert` and `delete` (a value inserted before the last element rather than at the index, losing the tail, the counter drifting from the length) are kept as written.
- CheckerSpec.IllegalPropertyReported, CheckerSpec.DeclarationValueReported: every `setError` call is kept in a log of errors. `ASTNode` is not part of this model. If `setError` keeps only one message per node, a declaration with both an illegal name and an illegal value keeps only the value error.
- The `elseClause` slot of `Ast.IfClause` accepts any node, while the Java field is typed `ElseClause`. Trees the listener builds hold only an `ElseClause` there. `RemoveIf` copies that node's children, which for an `ElseClause` is its body.
- HanLinkedLists.HANLinkedList.AddFirst: the `int` size counter is unbounded; overflow past `Integer.MAX_VALUE` elements is not modelled.
