/**
 * `RemoveIf`: the transform object with its `parent` field. The tree it edits is held as a
 * value in `ast`, and `parent` as the position of the node it refers to; each method is proved
 * to do what the corresponding function of `RemoveIfSpec` says.
 */
module RemoveIfTransform {
  import opened JavaLang
  import opened Literals
  import opened Ast
  import opened TreePaths
  import opened RemoveIfSpec

  class RemoveIf {
    var ast: Node
    var parent: Path

    function State(): RState
      reads this
    {
      RState(ast, parent)
    }

    constructor (root: Node)
      ensures ast == root && parent == []
    {
      ast := root;
      parent := [];
    }

    /** `apply(ast)`: `parent` is the root, then the whole tree is walked. */
    method Apply(root: Node)
      requires root.Stylesheet?
      modifies this
      ensures State() == RemoveIfSpec.Apply(root)
      ensures Grows(root, ast) && IsTarget(ast, parent)
    {
      ast := root;
      parent := [];
      TraverseTree(root, []);
      ApplyOnlyAppends(root);
    }

    /** `traverseTree(currentNode)` for the node `n` at position `path`. */
    method TraverseTree(n: Node, path: Path)
      modifies this
      decreases Size(n), 0
      ensures State() == Traverse(n, path, old(State()))
    {
      var children := Children(n);
      if n.IfClause? {
        if n.condition.Lit? && n.condition.value.BoolLiteral? {
          if n.condition.value.b {
            AddEachToParent(children);
          } else {
            if n.elseClause.Some? {
              AddEachToParent(Children(n.elseClause.value));
            }
            return;
          }
        }
      }
      if n.Stylerule? {
        parent := path;
      }
      TraverseEach(children, path);
    }

    /** `children.forEach(this::traverseTree)`. */
    method TraverseEach(children: seq<Node>, path: Path)
      modifies this
      decreases SizeList(children), 1
      ensures State() == TraverseList(children, path, old(State()))
    {
      ghost var s0 := State();
      var i := 0;
      while i < |children|
        invariant 0 <= i <= |children|
        invariant State() == TraverseList(children[..i], path, s0)
      {
        SizeListElement(children, i);
        assert children[..i + 1][..i] == children[..i];
        TraverseTree(children[i], path + [i]);
        i := i + 1;
      }
      assert children[..i] == children;
    }

    /** `nodes.forEach(parent::addChild)`: the nodes are appended one by one to `parent`. */
    method AddEachToParent(nodes: seq<Node>)
      modifies this
      ensures ast == AddAll(old(ast), parent, nodes) && parent == old(parent)
    {
      ghost var t0 := ast;
      var i := 0;
      while i < |nodes|
        invariant 0 <= i <= |nodes|
        invariant ast == AddAll(t0, parent, nodes[..i])
        invariant parent == old(parent)
      {
        assert nodes[..i + 1][..i] == nodes[..i];
        ast := AppendAt(ast, parent, [nodes[i]]);
        i := i + 1;
      }
      assert nodes[..i] == nodes;
    }
  }
}
