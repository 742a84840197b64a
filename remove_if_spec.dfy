/**
 * The `RemoveIf` transform as functions. The state is the tree and the position of `parent`,
 * the node that spliced-in children are appended to: the root at first, then the Stylerule
 * entered most recently. The walk visits the children a node had when its visit began, each
 * at its position in the tree.
 */
module RemoveIfSpec {
  import opened JavaLang
  import opened Literals
  import opened Ast
  import opened TreePaths

  datatype RState = RState(tree: Node, parent: Path)

  /** `cs.forEach(parent::addChild)`: one `addChild` per node, in order. */
  function AddAll(t: Node, p: Path, cs: seq<Node>): Node {
    if |cs| == 0 then t else AppendAt(AddAll(t, p, cs[..|cs| - 1]), p, [cs[|cs| - 1]])
  }

  /** The condition of an if-clause that is a Bool literal. */
  predicate HasBoolCondition(n: Node) {
    n.IfClause? && n.condition.Lit? && n.condition.value.BoolLiteral?
  }

  /**
   * `traverseTree(node)` with `node` at position `path`: an if-clause whose condition is the
   * literal TRUE appends all its children to `parent` and the walk goes on into them; one whose
   * condition is FALSE appends the children of its else-clause, if any, and the walk stops
   * there. Entering a Stylerule makes it the `parent`.
   */
  function Traverse(n: Node, path: Path, st: RState): RState
    decreases Size(n), 0
  {
    var children := Children(n);
    if HasBoolCondition(n) && !n.condition.value.b then
      if n.elseClause.Some? then st.(tree := AddAll(st.tree, st.parent, Children(n.elseClause.value)))
      else st
    else
      var st1 := if HasBoolCondition(n) then st.(tree := AddAll(st.tree, st.parent, children)) else st;
      var st2 := if n.Stylerule? then st1.(parent := path) else st1;
      TraverseList(children, path, st2)
  }

  /** `children.forEach(this::traverseTree)`: child `j` sits at position `path + [j]`. */
  function TraverseList(ns: seq<Node>, path: Path, st: RState): RState
    decreases SizeList(ns), 1
  {
    if |ns| == 0 then st
    else
      SizeListElement(ns, |ns| - 1);
      SizeListPrefix(ns, |ns| - 1);
      Traverse(ns[|ns| - 1], path + [|ns| - 1], TraverseList(ns[..|ns| - 1], path, st))
  }

  /** `apply(ast)`: `parent` starts at the root. */
  function Apply(root: Node): RState {
    Traverse(root, [], RState(root, []))
  }

  // ---------------------------------------------------------------- properties

  /** Splicing appends the nodes, in order, to the end of the parent's body. */
  lemma {:induction false} AddAllContent(t: Node, p: Path, cs: seq<Node>)
    requires IsTarget(t, p)
    ensures At(AddAll(t, p, cs), p) == Some(AddChildren(At(t, p).value, cs))
    ensures IsTarget(AddAll(t, p, cs), p)
    decreases |cs|
  {
    if |cs| > 0 {
      var init := cs[..|cs| - 1];
      var last := cs[|cs| - 1];
      AddAllContent(t, p, init);
      var before := AddAll(t, p, init);
      assert AddAll(t, p, cs) == AppendAt(before, p, [last]);
      AppendAtContent(before, p, [last]);
      var target := At(t, p).value;
      assert At(before, p).value == AddChildren(target, init);
      assert init + [last] == cs;
      match target {
        case Stylesheet(b) =>
          assert (b + init) + [last] == b + cs;
          assert AddChildren(AddChildren(target, init), [last]) == AddChildren(target, cs);
        case Stylerule(sel, b) =>
          assert (b + init) + [last] == b + cs;
          assert AddChildren(AddChildren(target, init), [last]) == AddChildren(target, cs);
      }
    } else {
      var target := At(t, p).value;
      assert target.body + [] == target.body;
    }
  }

  lemma {:induction false} AddAllGrows(t: Node, p: Path, cs: seq<Node>)
    ensures Grows(t, AddAll(t, p, cs))
    decreases |cs|
  {
    if |cs| > 0 {
      AddAllGrows(t, p, cs[..|cs| - 1]);
      AppendAtGrows(AddAll(t, p, cs[..|cs| - 1]), p, [cs[|cs| - 1]]);
      GrowsTransitive(t, AddAll(t, p, cs[..|cs| - 1]), AddAll(t, p, cs));
    } else {
      GrowsReflexive(t);
    }
  }

  /** The walk's invariant: `parent` holds a node that `addChild` appends to, and a node being
      visited is (a grown copy of) what its position holds. */
  predicate Consistent(st: RState, n: Node, path: Path) {
    IsTarget(st.tree, st.parent) && At(st.tree, path).Some? && Grows(n, At(st.tree, path).value)
  }

  /** After a visit, `parent` is either unchanged or a Stylerule inside the visited subtree. */
  predicate ParentMoved(before: RState, after: RState, path: Path) {
    after.parent == before.parent
    || (|path| <= |after.parent| && after.parent[..|path|] == path
        && At(after.tree, after.parent).Some? && At(after.tree, after.parent).value.Stylerule?)
  }

  /**
   * The transform only appends: the tree after a visit has grown from the tree before it, so
   * no node (in particular no if-clause) is removed from its parent. `parent` always holds a
   * Stylesheet or Stylerule, and it changes only by entering a Stylerule.
   */
  lemma {:induction false} TraverseOnlyAppends(n: Node, path: Path, st: RState)
    requires Consistent(st, n, path)
    ensures var r := Traverse(n, path, st);
            IsTarget(r.tree, r.parent) && Grows(st.tree, r.tree) && ParentMoved(st, r, path)
    decreases Size(n), 0
  {
    var children := Children(n);
    if HasBoolCondition(n) && !n.condition.value.b {
      if n.elseClause.Some? {
        AddAllGrows(st.tree, st.parent, Children(n.elseClause.value));
        TargetKept(st.tree, AddAll(st.tree, st.parent, Children(n.elseClause.value)), st.parent);
      } else {
        GrowsReflexive(st.tree);
      }
    } else {
      var st1 := if HasBoolCondition(n) then st.(tree := AddAll(st.tree, st.parent, children)) else st;
      AddAllGrows(st.tree, st.parent, children);
      GrowsReflexive(st.tree);
      assert Grows(st.tree, st1.tree);
      TargetKept(st.tree, st1.tree, st.parent);
      GrowsAt(st.tree, st1.tree, path);
      GrowsTransitive(n, At(st.tree, path).value, At(st1.tree, path).value);
      var st2 := if n.Stylerule? then st1.(parent := path) else st1;
      ChildPositions(st2.tree, path, n);
      TraverseListOnlyAppends(children, path, st2);
      var r := TraverseList(children, path, st2);
      if n.Stylerule? && r.parent == path {
        assert r.parent[..|path|] == path;
        TargetKept(st2.tree, r.tree, path);
      }
      GrowsTransitive(st.tree, st1.tree, r.tree);
    }
  }

  lemma {:induction false} TraverseListOnlyAppends(ns: seq<Node>, path: Path, st: RState)
    requires IsTarget(st.tree, st.parent)
    requires forall j :: 0 <= j < |ns| ==> At(st.tree, path + [j]).Some? && Grows(ns[j], At(st.tree, path + [j]).value)
    ensures var r := TraverseList(ns, path, st);
            IsTarget(r.tree, r.parent) && Grows(st.tree, r.tree) && ParentMoved(st, r, path)
    decreases SizeList(ns), 1
  {
    if |ns| == 0 {
      GrowsReflexive(st.tree);
    } else {
      SizeListElement(ns, |ns| - 1);
      SizeListPrefix(ns, |ns| - 1);
      var last := |ns| - 1;
      var init := ns[..last];
      TraverseListOnlyAppends(init, path, st);
      var mid := TraverseList(init, path, st);
      var q := path + [last];
      GrowsAt(st.tree, mid.tree, q);
      GrowsTransitive(ns[last], At(st.tree, q).value, At(mid.tree, q).value);
      TraverseOnlyAppends(ns[last], q, mid);
      var r := Traverse(ns[last], q, mid);
      GrowsTransitive(st.tree, mid.tree, r.tree);
      ParentMovedCompose(st, mid, r, path, q);
    }
  }

  lemma ParentMovedCompose(st: RState, mid: RState, r: RState, path: Path, q: Path)
    requires ParentMoved(st, mid, path) && ParentMoved(mid, r, q) && Grows(mid.tree, r.tree)
    requires |q| == |path| + 1 && q[..|path|] == path
    ensures ParentMoved(st, r, path)
  {
    if r.parent == mid.parent {
      if mid.parent != st.parent {
        GrowsAt(mid.tree, r.tree, mid.parent);
        TargetKept(mid.tree, r.tree, mid.parent);
      }
    } else {
      assert r.parent[..|path|] == r.parent[..|q|][..|path|];
    }
  }

  /** A whole transform of a stylesheet only appends. */
  lemma ApplyOnlyAppends(root: Node)
    requires root.Stylesheet?
    ensures Grows(root, Apply(root).tree)
    ensures IsTarget(Apply(root).tree, Apply(root).parent)
  {
    GrowsReflexive(root);
    TraverseOnlyAppends(root, [], RState(root, []));
  }

  /** A TRUE condition appends all of the if-clause's children to `parent`, in order, and the
      walk then visits them; a FALSE condition appends the else-clause's children, or nothing,
      and visits nothing below the if-clause; any other condition appends nothing. */
  lemma BranchRules(n: Node, path: Path, st: RState)
    requires n.IfClause? && IsTarget(st.tree, st.parent)
    ensures HasBoolCondition(n) && n.condition.value.b ==>
              var spliced := AddAll(st.tree, st.parent, Children(n));
              At(spliced, st.parent) == Some(AddChildren(At(st.tree, st.parent).value, Children(n)))
              && Traverse(n, path, st) == TraverseList(Children(n), path, st.(tree := spliced))
    ensures HasBoolCondition(n) && !n.condition.value.b && n.elseClause.Some? ==>
              var spliced := AddAll(st.tree, st.parent, Children(n.elseClause.value));
              At(spliced, st.parent) == Some(AddChildren(At(st.tree, st.parent).value, Children(n.elseClause.value)))
              && Traverse(n, path, st) == st.(tree := spliced)
    ensures HasBoolCondition(n) && !n.condition.value.b && n.elseClause.None? ==> Traverse(n, path, st) == st
    ensures !HasBoolCondition(n) ==> Traverse(n, path, st) == TraverseList(Children(n), path, st)
  {
    AddAllContent(st.tree, st.parent, Children(n));
    if n.elseClause.Some? {
      AddAllContent(st.tree, st.parent, Children(n.elseClause.value));
    }
  }
}
