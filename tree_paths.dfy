/**
 * Positions in a tree and the one edit `RemoveIf` makes: appending children to the body of
 * a Stylesheet or Stylerule somewhere in the tree. A position is the list of `getChildren()`
 * indices leading to a node from the root. Appending only ever lengthens bodies, so every
 * position that exists keeps pointing at the same place (`Grows`).
 */
module TreePaths {
  import opened JavaLang
  import opened Ast

  type Path = seq<nat>

  /** The node at position `p`, if there is one. */
  function At(t: Node, p: Path): Option<Node>
    decreases |p|
  {
    if |p| == 0 then Some(t)
    else if p[0] < |Children(t)| then At(Children(t)[p[0]], p[1..])
    else None
  }

  /** Position `p` holds a node whose `addChild` appends to its body. */
  predicate IsTarget(t: Node, p: Path) {
    At(t, p).Some? && (At(t, p).value.Stylesheet? || At(t, p).value.Stylerule?)
  }

  /** `addChild(c)` for each `c` of `cs` on a Stylesheet or Stylerule: the body grows at its end. */
  function AddChildren(n: Node, cs: seq<Node>): Node {
    match n
    case Stylesheet(b) => Stylesheet(b + cs)
    case Stylerule(s, b) => Stylerule(s, b + cs)
    case _ => n
  }

  /** `n` with its `i`-th child replaced by `c`, for the children a statement holds; the
      expression slots of a node are left as they are. */
  function WithChild(n: Node, i: nat, c: Node): Node
    requires i < |Children(n)|
  {
    match n
    case Stylesheet(b) => Stylesheet(b[i := c])
    case Stylerule(s, b) => Stylerule(s, b[i := c])
    case ElseClause(b) => ElseClause(b[i := c])
    case IfClause(cond, b, e) =>
      var k := |Field(cond)|;
      if i < k then n
      else if i < k + |b| then IfClause(cond, b[i - k := c], e)
      else IfClause(cond, b, Some(c))
    case _ => n
  }

  /** The tree after `cs` was appended, in order, to the node at position `p`. */
  function AppendAt(t: Node, p: Path, cs: seq<Node>): Node
    decreases |p|
  {
    if |p| == 0 then AddChildren(t, cs)
    else if p[0] < |Children(t)| then WithChild(t, p[0], AppendAt(Children(t)[p[0]], p[1..], cs))
    else t
  }

  /**
   * `b` is `a` with zero or more nodes appended to the bodies of Stylesheets and Stylerules,
   * at any depth. Nothing is removed, reordered or replaced.
   */
  predicate Grows(a: Node, b: Node)
    decreases a
  {
    match a
    case Stylesheet(x) =>
      b.Stylesheet? && |x| <= |b.body| && forall i :: 0 <= i < |x| ==> Grows(x[i], b.body[i])
    case Stylerule(s, x) =>
      b.Stylerule? && b.selectors == s && |x| <= |b.body| && forall i :: 0 <= i < |x| ==> Grows(x[i], b.body[i])
    case IfClause(c, x, e) =>
      b.IfClause? && b.condition == c && |x| == |b.body| && (forall i :: 0 <= i < |x| ==> Grows(x[i], b.body[i]))
      && (b.elseClause.Some? <==> e.Some?) && (e.Some? ==> Grows(e.value, b.elseClause.value))
    case ElseClause(x) =>
      b.ElseClause? && |x| == |b.body| && forall i :: 0 <= i < |x| ==> Grows(x[i], b.body[i])
    case _ => b == a
  }

  // ---------------------------------------------------------------- growth

  lemma {:induction false} GrowsReflexive(a: Node)
    ensures Grows(a, a)
    decreases a
  {
    match a
    case Stylesheet(x) =>
      forall i | 0 <= i < |x| ensures Grows(x[i], x[i]) { GrowsReflexive(x[i]); }
    case Stylerule(_, x) =>
      forall i | 0 <= i < |x| ensures Grows(x[i], x[i]) { GrowsReflexive(x[i]); }
    case IfClause(_, x, e) =>
      forall i | 0 <= i < |x| ensures Grows(x[i], x[i]) { GrowsReflexive(x[i]); }
      if e.Some? {
        GrowsReflexive(e.value);
      }
    case ElseClause(x) =>
      forall i | 0 <= i < |x| ensures Grows(x[i], x[i]) { GrowsReflexive(x[i]); }
    case _ =>
  }

  lemma {:induction false} GrowsTransitive(a: Node, b: Node, c: Node)
    requires Grows(a, b) && Grows(b, c)
    ensures Grows(a, c)
    decreases a
  {
    match a
    case Stylesheet(x) =>
      forall i | 0 <= i < |x| ensures Grows(x[i], c.body[i]) { GrowsTransitive(x[i], b.body[i], c.body[i]); }
    case Stylerule(_, x) =>
      forall i | 0 <= i < |x| ensures Grows(x[i], c.body[i]) { GrowsTransitive(x[i], b.body[i], c.body[i]); }
    case IfClause(_, x, e) =>
      forall i | 0 <= i < |x| ensures Grows(x[i], c.body[i]) { GrowsTransitive(x[i], b.body[i], c.body[i]); }
      if e.Some? {
        GrowsTransitive(e.value, b.elseClause.value, c.elseClause.value);
      }
    case ElseClause(x) =>
      forall i | 0 <= i < |x| ensures Grows(x[i], c.body[i]) { GrowsTransitive(x[i], b.body[i], c.body[i]); }
    case _ =>
  }

  /** A grown node keeps its children in their places, each grown. */
  lemma GrowsChildren(a: Node, b: Node)
    requires Grows(a, b)
    ensures |Children(a)| <= |Children(b)|
    ensures forall i :: 0 <= i < |Children(a)| ==> Grows(Children(a)[i], Children(b)[i])
  {
    match a
    case IfClause(_, _, _) =>
      forall i | 0 <= i < |Children(a)|
        ensures Grows(Children(a)[i], Children(b)[i])
      {
        GrowsIfChild(a, b, i);
      }
    case Stylesheet(_) =>
    case Stylerule(_, _) =>
    case ElseClause(_) =>
    case _ =>
      forall i | 0 <= i < |Children(a)|
        ensures Grows(Children(a)[i], Children(b)[i])
      {
        GrowsReflexive(Children(a)[i]);
      }
  }

  lemma GrowsIfChild(a: Node, b: Node, i: nat)
    requires a.IfClause? && Grows(a, b) && i < |Children(a)|
    ensures i < |Children(b)| && Grows(Children(a)[i], Children(b)[i])
  {
    var k := |Field(a.condition)|;
    assert Children(a) == Field(a.condition) + a.body + (if a.elseClause.Some? then [a.elseClause.value] else []);
    assert Children(b) == Field(a.condition) + b.body + (if b.elseClause.Some? then [b.elseClause.value] else []);
    if i < k {
      assert Children(a)[i] == Children(b)[i] == Expr(a.condition);
      GrowsReflexive(Expr(a.condition));
    } else if i < k + |a.body| {
      assert Children(a)[i] == a.body[i - k] && Children(b)[i] == b.body[i - k];
    } else {
      assert Children(a)[i] == a.elseClause.value && Children(b)[i] == b.elseClause.value;
    }
  }

  /** Every position of `a` is a position of a grown `b`, holding a grown node. */
  lemma {:induction false} GrowsAt(a: Node, b: Node, p: Path)
    requires Grows(a, b) && At(a, p).Some?
    ensures At(b, p).Some? && Grows(At(a, p).value, At(b, p).value)
    decreases |p|
  {
    if |p| > 0 {
      GrowsChildren(a, b);
      GrowsAt(Children(a)[p[0]], Children(b)[p[0]], p[1..]);
    }
  }

  /** Growth keeps the kind of node, so a target stays a target. */
  lemma TargetKept(a: Node, b: Node, p: Path)
    requires Grows(a, b) && IsTarget(a, p)
    ensures IsTarget(b, p)
    ensures At(a, p).value.Stylerule? ==> At(b, p).value.Stylerule?
  {
    GrowsAt(a, b, p);
  }

  /** Replacing one node of a body by a grown copy grows every position of the body. */
  lemma GrowsUpdated(b: seq<Node>, i: nat, c: Node)
    requires i < |b| && Grows(b[i], c)
    ensures forall j :: 0 <= j < |b| ==> Grows(b[j], b[i := c][j])
  {
    forall j | 0 <= j < |b| && j != i ensures Grows(b[j], b[i := c][j]) { GrowsReflexive(b[j]); }
  }

  lemma WithChildGrows(n: Node, i: nat, c: Node)
    requires i < |Children(n)| && Grows(Children(n)[i], c)
    ensures Grows(n, WithChild(n, i, c))
  {
    match n
    case Stylesheet(b) => GrowsUpdated(b, i, c);
    case Stylerule(_, b) => GrowsUpdated(b, i, c);
    case ElseClause(b) => GrowsUpdated(b, i, c);
    case IfClause(_, _, _) => WithIfChildGrows(n, i, c);
    case _ => GrowsReflexive(n);
  }

  lemma WithIfChildGrows(n: Node, i: nat, c: Node)
    requires n.IfClause? && i < |Children(n)| && Grows(Children(n)[i], c)
    ensures Grows(n, WithChild(n, i, c))
  {
    var k := |Field(n.condition)|;
    var b := n.body;
    assert Children(n) == Field(n.condition) + b + (if n.elseClause.Some? then [n.elseClause.value] else []);
    if i < k {
      GrowsReflexive(n);
    } else if i < k + |b| {
      assert Children(n)[i] == b[i - k];
      GrowsUpdated(b, i - k, c);
      if n.elseClause.Some? {
        GrowsReflexive(n.elseClause.value);
      }
    } else {
      assert Children(n)[i] == n.elseClause.value;
      forall j | 0 <= j < |b| ensures Grows(b[j], b[j]) { GrowsReflexive(b[j]); }
    }
  }

  lemma AddChildrenGrows(n: Node, cs: seq<Node>)
    ensures Grows(n, AddChildren(n, cs))
  {
    GrowsReflexive(n);
    match n
    case Stylesheet(b) =>
      forall j | 0 <= j < |b| ensures Grows(b[j], (b + cs)[j]) { GrowsReflexive(b[j]); }
    case Stylerule(_, b) =>
      forall j | 0 <= j < |b| ensures Grows(b[j], (b + cs)[j]) { GrowsReflexive(b[j]); }
    case _ =>
  }

  /** Appending somewhere only grows the tree. */
  lemma {:induction false} AppendAtGrows(t: Node, p: Path, cs: seq<Node>)
    ensures Grows(t, AppendAt(t, p, cs))
    decreases |p|
  {
    if |p| == 0 {
      AddChildrenGrows(t, cs);
    } else if p[0] < |Children(t)| {
      AppendAtGrows(Children(t)[p[0]], p[1..], cs);
      WithChildGrows(t, p[0], AppendAt(Children(t)[p[0]], p[1..], cs));
    } else {
      GrowsReflexive(t);
    }
  }

  // ---------------------------------------------------------------- what an append does

  /** Below an expression there are only expressions. */
  lemma {:induction false} ExpressionsBelowExpression(x: Expression, p: Path)
    requires At(Expr(x), p).Some?
    ensures At(Expr(x), p).value.Expr?
    decreases |p|
  {
    if |p| > 0 {
      var c := Children(Expr(x))[p[0]];
      assert c in Children(Expr(x));
      ExpressionsBelowExpression(c.e, p[1..]);
    }
  }

  /** Outside the body and the else slot of a statement, every child is an expression. */
  lemma ExpressionSlots(n: Node, i: nat)
    requires i < |Children(n)|
    ensures !(n.Stylesheet? || n.Stylerule? || n.ElseClause? || (n.IfClause? && i >= |Field(n.condition)|))
            ==> Children(n)[i].Expr?
  {
    match n
    case Declaration(_, x) =>
      assert Children(n) == [Expr(x)];
    case VariableAssignment(v, x) =>
      assert Children(n) == [Expr(VariableReference(v))] + Field(x);
    case Expr(x) =>
      assert Children(n)[i] in ExprChildren(x);
    case IfClause(cond, b, e) =>
      assert Children(n) == Field(cond) + b + (if e.Some? then [e.value] else []);
    case _ =>
  }

  /** Replacing a statement child puts the new node in its place. */
  lemma WithChildAt(n: Node, i: nat, c: Node)
    requires i < |Children(n)|
    requires n.Stylesheet? || n.Stylerule? || n.ElseClause? || (n.IfClause? && i >= |Field(n.condition)|)
    ensures i < |Children(WithChild(n, i, c))| && Children(WithChild(n, i, c))[i] == c
  {
    if n.IfClause? {
      var k := |Field(n.condition)|;
      var m := WithChild(n, i, c);
      assert Children(n) == Field(n.condition) + n.body + (if n.elseClause.Some? then [n.elseClause.value] else []);
      assert Children(m) == Field(m.condition) + m.body + (if m.elseClause.Some? then [m.elseClause.value] else []);
    }
  }

  /** The node at position `p` gains exactly `cs` at the end of its body, and is still a
      target. */
  lemma {:induction false} AppendAtContent(t: Node, p: Path, cs: seq<Node>)
    requires IsTarget(t, p)
    ensures At(AppendAt(t, p, cs), p) == Some(AddChildren(At(t, p).value, cs))
    ensures IsTarget(AppendAt(t, p, cs), p)
    decreases |p|
  {
    if |p| > 0 {
      var i := p[0];
      var child := Children(t)[i];
      if child.Expr? {
        ExpressionsBelowExpression(child.e, p[1..]);
        assert false;
      }
      ExpressionSlots(t, i);
      AppendAtContent(child, p[1..], cs);
      WithChildAt(t, i, AppendAt(child, p[1..], cs));
    }
  }

  // ---------------------------------------------------------------- positions

  lemma {:induction false} AtConcat(t: Node, p: Path, q: Path)
    requires At(t, p).Some?
    ensures At(t, p + q) == At(At(t, p).value, q)
    decreases |p|
  {
    if |p| > 0 {
      assert (p + q)[0] == p[0] && (p + q)[1..] == p[1..] + q;
      AtConcat(Children(t)[p[0]], p[1..], q);
    } else {
      assert p + q == q;
    }
  }

  /** The child positions of a position holding a grown copy of `n` hold grown copies of
      `n`'s children. */
  lemma ChildPositions(t: Node, p: Path, n: Node)
    requires At(t, p).Some? && Grows(n, At(t, p).value)
    ensures forall j :: 0 <= j < |Children(n)| ==>
              At(t, p + [j]).Some? && Grows(Children(n)[j], At(t, p + [j]).value)
  {
    var m := At(t, p).value;
    GrowsChildren(n, m);
    forall j | 0 <= j < |Children(n)|
      ensures At(t, p + [j]).Some? && Grows(Children(n)[j], At(t, p + [j]).value)
    {
      AtConcat(t, p, [j]);
      assert At(m, [j]) == At(Children(m)[j], []);
    }
  }
}
