/**
 * `Generator`: CSS text for the Stylerules at the top of a stylesheet. The object keeps one
 * growing buffer `css` across calls. `System.lineSeparator()` is the parameter `sep`.
 *
 * The functions below say what each step appends to the buffer (`Emitted.text`) and whether
 * it completed (`Emitted.outcome`); a step that throws has appended the text before the throw.
 */
module CssGenerator {
  import opened JavaLang
  import opened Literals
  import opened Ast

  datatype Emitted = Emitted(text: string, outcome: Result<()>)

  /** `String.valueOf(expression)`: `null` for a missing expression, `toString()` of a literal.
      The `toString()` of the other expression classes is not part of this model. */
  function ExpressionText(x: Expression): Result<string> {
    match x
    case Null => Ok("null")
    case Lit(l) => Literals.ToString(l)
    case _ => Unmodelled
  }

  /** The text of one declaration, without the separator before it. */
  function DeclarationLine(property: string, x: Expression): (r: Result<string>)
    ensures r.Ok? <==> ExpressionText(x).Ok?
    ensures r.Ok? ==> r.value == "\t" + property + ": " + ExpressionText(x).value
  {
    var text :- ExpressionText(x);
    Ok("\t" + property + ": " + text)
  }

  /** Some node of `ns` is a declaration. */
  predicate HasDeclaration(ns: seq<Node>) {
    |ns| > 0 && (HasDeclaration(ns[..|ns| - 1]) || ns[|ns| - 1].Declaration?)
  }

  /** `generateDeclarations(children)`: the declarations among `ns`, each on its own line;
      the separator goes before every declaration but the first. */
  function DeclarationsOutput(ns: seq<Node>, sep: string): Emitted {
    if |ns| == 0 then Emitted("", Ok(()))
    else
      var prev := DeclarationsOutput(ns[..|ns| - 1], sep);
      var n := ns[|ns| - 1];
      if !prev.outcome.Ok? || !n.Declaration? then prev
      else
        var newLine := if HasDeclaration(ns[..|ns| - 1]) then sep else "";
        match DeclarationLine(n.property, n.expression)
        case Ok(line) => Emitted(prev.text + newLine + line, Ok(()))
        case Throws(e) => Emitted(prev.text + newLine + "\t" + n.property + ": ", Throws(e))
        case Unmodelled => Emitted(prev.text + newLine + "\t" + n.property + ": ", Unmodelled)
  }

  /** `generateStyleRule(rule)`: the first selector, the declarations in braces, a blank line. */
  function RuleOutput(selectors: seq<string>, body: seq<Node>, sep: string): (r: Emitted)
    ensures |selectors| == 0 <==> r == Emitted("", Throws(IndexOutOfBounds))
    ensures r.outcome.Ok? ==> r.text == selectors[0] + " {" + sep + DeclarationsOutput(body, sep).text + sep + "}" + sep + sep
  {
    if |selectors| == 0 then Emitted("", Throws(IndexOutOfBounds))
    else
      var head := selectors[0] + " {" + sep;
      var d := DeclarationsOutput(body, sep);
      if !d.outcome.Ok? then Emitted(head + d.text, d.outcome)
      else Emitted(head + d.text + sep + "}" + sep + sep, Ok(()))
  }

  /** `generate(ast)`: one rule after another, in order, skipping every child of the root that
      is not a Stylerule and stopping at the first one that throws. */
  function SheetOutput(ns: seq<Node>, sep: string): Emitted {
    if |ns| == 0 then Emitted("", Ok(()))
    else
      var prev := SheetOutput(ns[..|ns| - 1], sep);
      var n := ns[|ns| - 1];
      if !prev.outcome.Ok? || !n.Stylerule? then prev
      else
        var rule := RuleOutput(n.selectors, n.body, sep);
        Emitted(prev.text + rule.text, rule.outcome)
  }

  // ---------------------------------------------------------------- reference definitions

  function Declarations(ns: seq<Node>): (r: seq<Node>)
    ensures forall i :: 0 <= i < |r| ==> r[i].Declaration?
    ensures Renderable(ns) ==> Renderable(r)
  {
    if |ns| == 0 then []
    else Declarations(ns[..|ns| - 1]) + (if ns[|ns| - 1].Declaration? then [ns[|ns| - 1]] else [])
  }

  function Rules(ns: seq<Node>): (r: seq<Node>)
    ensures forall i :: 0 <= i < |r| ==> r[i].Stylerule?
  {
    if |ns| == 0 then []
    else Rules(ns[..|ns| - 1]) + (if ns[|ns| - 1].Stylerule? then [ns[|ns| - 1]] else [])
  }

  predicate Renderable(ns: seq<Node>) {
    forall i :: 0 <= i < |ns| && ns[i].Declaration? ==> ExpressionText(ns[i].expression).Ok?
  }

  /** The lines of the declarations of `ds`. */
  function Lines(ds: seq<Node>): seq<string>
    requires forall i :: 0 <= i < |ds| ==> ds[i].Declaration?
    requires Renderable(ds)
  {
    if |ds| == 0 then []
    else Lines(ds[..|ds| - 1]) + [DeclarationLine(ds[|ds| - 1].property, ds[|ds| - 1].expression).value]
  }

  /** The strings of `xs` with `sep` between each two of them. */
  function Join(xs: seq<string>, sep: string): string {
    if |xs| == 0 then ""
    else if |xs| == 1 then xs[0]
    else Join(xs[..|xs| - 1], sep) + sep + xs[|xs| - 1]
  }

  // ---------------------------------------------------------------- properties

  lemma {:induction false} HasDeclarationFiltered(ns: seq<Node>)
    ensures HasDeclaration(ns) <==> |Declarations(ns)| > 0
  {
    if |ns| > 0 {
      HasDeclarationFiltered(ns[..|ns| - 1]);
    }
  }

  /**
   * When every declaration's value can be rendered, the declarations part of a rule is
   * exactly the declaration lines, in order, separated (not terminated) by the line
   * separator; nothing else in the body produces text.
   */
  lemma {:induction false} DeclarationsAreJoinedLines(ns: seq<Node>, sep: string)
    requires Renderable(ns)
    ensures DeclarationsOutput(ns, sep) == Emitted(Join(Lines(Declarations(ns)), sep), Ok(()))
  {
    if |ns| > 0 {
      var init := ns[..|ns| - 1];
      var n := ns[|ns| - 1];
      assert Renderable(init) by {
        forall i | 0 <= i < |init| && init[i].Declaration?
          ensures ExpressionText(init[i].expression).Ok?
        {
          assert init[i] == ns[i];
        }
      }
      DeclarationsAreJoinedLines(init, sep);
      if n.Declaration? {
        var ds := Declarations(ns);
        assert ds[..|ds| - 1] == Declarations(init);
        HasDeclarationFiltered(init);
        assert Lines(ds) == Lines(Declarations(init)) + [DeclarationLine(n.property, n.expression).value];
        var ls := Lines(ds);
        assert ls[..|ls| - 1] == Lines(Declarations(init));
      } else {
        assert Declarations(ns) == Declarations(init);
      }
    }
  }

  /** Only the Stylerules among the root's children produce text. */
  lemma {:induction false} OnlyRulesEmitted(ns: seq<Node>, sep: string)
    ensures SheetOutput(ns, sep) == SheetOutput(Rules(ns), sep)
  {
    if |ns| > 0 {
      var init := ns[..|ns| - 1];
      OnlyRulesEmitted(init, sep);
      var rs := Rules(ns);
      if ns[|ns| - 1].Stylerule? {
        assert rs[..|rs| - 1] == Rules(init);
      } else {
        assert rs == Rules(init);
      }
    }
  }

  /** The output for consecutive children is the output for the first part followed by the
      output for the second; once a rule has thrown, nothing more is produced. */
  lemma {:induction false} SheetOutputAppend(a: seq<Node>, b: seq<Node>, sep: string)
    ensures var left := SheetOutput(a, sep);
            var right := SheetOutput(b, sep);
            SheetOutput(a + b, sep) == (if left.outcome.Ok? then Emitted(left.text + right.text, right.outcome) else left)
    decreases |b|
  {
    if |b| == 0 {
      assert a + b == a;
      var left := SheetOutput(a, sep);
      assert left.text + "" == left.text;
      if left.outcome.Ok? {
        assert left.outcome.value == ();
      }
    } else {
      var b0 := b[..|b| - 1];
      SheetOutputAppend(a, b0, sep);
      assert (a + b)[..|a + b| - 1] == a + b0;
      var left := SheetOutput(a, sep);
      var mid := SheetOutput(b0, sep);
      if left.outcome.Ok? && mid.outcome.Ok? && b[|b| - 1].Stylerule? {
        var rule := RuleOutput(b[|b| - 1].selectors, b[|b| - 1].body, sep);
        assert left.text + mid.text + rule.text == left.text + (mid.text + rule.text);
      }
    }
  }

  /** What one child of the root contributes: a Stylerule its rule, anything else nothing. */
  function ChildOutput(n: Node, sep: string): Emitted {
    if n.Stylerule? then RuleOutput(n.selectors, n.body, sep) else Emitted("", Ok(()))
  }

  /** One more child of the root: what `generate` appends for it. */
  lemma SheetNext(ns: seq<Node>, i: nat, sep: string)
    requires i < |ns| && SheetOutput(ns[..i], sep).outcome.Ok?
    ensures var prev := SheetOutput(ns[..i], sep);
            var step := ChildOutput(ns[i], sep);
            SheetOutput(ns[..i + 1], sep) == Emitted(prev.text + step.text, step.outcome)
  {
    assert ns[..i + 1][..i] == ns[..i];
    assert ns[..i + 1][i] == ns[i];
    var prev := SheetOutput(ns[..i], sep);
    assert prev.text + "" == prev.text;
    assert prev.outcome.value == ();
  }

  /** Once a rule has thrown, the later children add nothing. */
  lemma {:induction false} SheetStopAtFailure(ns: seq<Node>, k: nat, sep: string)
    requires k <= |ns| && !SheetOutput(ns[..k], sep).outcome.Ok?
    ensures SheetOutput(ns, sep) == SheetOutput(ns[..k], sep)
    decreases |ns| - k
  {
    if k < |ns| {
      assert ns[..k + 1][..k] == ns[..k];
      SheetStopAtFailure(ns, k + 1, sep);
    } else {
      assert ns[..k] == ns;
    }
  }

  /** One more child of the body: what `generateDeclarations` appends for it. */
  lemma DeclarationsNext(ns: seq<Node>, i: nat, sep: string)
    requires i < |ns| && DeclarationsOutput(ns[..i], sep).outcome.Ok?
    ensures var prev := DeclarationsOutput(ns[..i], sep);
            var n := ns[i];
            var newLine := if HasDeclaration(ns[..i]) then sep else "";
            var next := DeclarationsOutput(ns[..i + 1], sep);
            (!n.Declaration? ==> next == prev && (HasDeclaration(ns[..i + 1]) <==> HasDeclaration(ns[..i])))
            && (n.Declaration? ==>
                  HasDeclaration(ns[..i + 1])
                  && var text := ExpressionText(n.expression);
                     var head := newLine + "\t" + n.property + ": ";
                     next == if text.Ok? then Emitted(prev.text + head + text.value, Ok(()))
                             else Emitted(prev.text + head, text.PropagateFailure()))
  {
    assert ns[..i + 1][..i] == ns[..i];
    var prev := DeclarationsOutput(ns[..i], sep);
    var n := ns[i];
    var newLine := if HasDeclaration(ns[..i]) then sep else "";
    assert ns[..i + 1][i] == n;
    if n.Declaration? {
      var text := ExpressionText(n.expression);
      var head := newLine + "\t" + n.property + ": ";
      if text.Ok? {
        assert prev.text + newLine + ("\t" + n.property + ": " + text.value) == prev.text + head + text.value;
      } else {
        assert prev.text + newLine + "\t" + n.property + ": " == prev.text + head;
      }
    }
  }

  /** Once a declaration cannot be written, the later children add nothing. */
  lemma {:induction false} DeclarationsStopAtFailure(ns: seq<Node>, k: nat, sep: string)
    requires k <= |ns| && !DeclarationsOutput(ns[..k], sep).outcome.Ok?
    ensures DeclarationsOutput(ns, sep) == DeclarationsOutput(ns[..k], sep)
    decreases |ns| - k
  {
    if k < |ns| {
      assert ns[..k + 1][..k] == ns[..k];
      DeclarationsStopAtFailure(ns, k + 1, sep);
    } else {
      assert ns[..k] == ns;
    }
  }

  /** A rule without selectors throws and appends nothing; the rules before it have been
      written out, the ones after it are not. */
  lemma RuleWithoutSelectorsStops(a: seq<Node>, body: seq<Node>, b: seq<Node>, sep: string)
    requires SheetOutput(a, sep).outcome.Ok?
    ensures SheetOutput(a + [Stylerule([], body)] + b, sep) == Emitted(SheetOutput(a, sep).text, Throws(IndexOutOfBounds))
  {
    var r := Stylerule([], body);
    assert (a + [r])[..|a + [r]| - 1] == a;
    assert SheetOutput(a + [r], sep) == Emitted(SheetOutput(a, sep).text + "", Throws(IndexOutOfBounds));
    SheetOutputAppend(a + [r], b, sep);
  }

  class Generator {
    var css: string

    constructor ()
      ensures css == ""
    {
      css := "";
    }

    /** `generate(ast)`: appends the rules' text to the buffer and returns the whole buffer,
        which still holds the output of earlier calls. */
    method Generate(root: Node, sep: string) returns (r: Result<string>)
      modifies this
      ensures var e := SheetOutput(Children(root), sep);
              css == old(css) + e.text
              && (e.outcome.Ok? ==> r == Ok(css))
              && (!e.outcome.Ok? ==> r == e.outcome.PropagateFailure())
    {
      var children := Children(root);
      ghost var c0 := css;
      ghost var out := "";
      assert c0 + out == c0;
      var i := 0;
      while i < |children|
        invariant 0 <= i <= |children|
        invariant SheetOutput(children[..i], sep) == Emitted(out, Ok(()))
        invariant css == c0 + out
      {
        SheetNext(children, i, sep);
        ghost var step := ChildOutput(children[i], sep);
        var status := GenerateChild(children[i], sep);
        assert css == c0 + (out + step.text);
        out := out + step.text;
        if !status.Ok? {
          SheetStopAtFailure(children, i + 1, sep);
          return status.PropagateFailure();
        }
        assert status.value == ();
        i := i + 1;
      }
      assert children[..i] == children;
      return Ok(css);
    }

    /** One element of the stream in `generate`: a Stylerule passes the filter and is written
        out; any other child is dropped. */
    method GenerateChild(child: Node, sep: string) returns (r: Result<()>)
      modifies this
      ensures var e := ChildOutput(child, sep);
              css == old(css) + e.text && r == e.outcome
    {
      if child.Stylerule? {
        r := GenerateStyleRule(child.selectors, child.body, sep);
      } else {
        assert css == old(css) + "";
        r := Ok(());
      }
    }

    /** `generateStyleRule(stylerule)`. */
    method GenerateStyleRule(selectors: seq<string>, body: seq<Node>, sep: string) returns (r: Result<()>)
      modifies this
      ensures var e := RuleOutput(selectors, body, sep);
              css == old(css) + e.text && r == e.outcome
    {
      if |selectors| == 0 {
        return Throws(IndexOutOfBounds);
      }
      var selector := selectors[0];
      css := css + selector + " {" + sep;
      ghost var head := selector + " {" + sep;
      assert css == old(css) + head;
      r := GenerateDeclarations(body, sep);
      ghost var d := DeclarationsOutput(body, sep);
      assert css == old(css) + (head + d.text);
      if !r.Ok? {
        return r;
      }
      assert r.value == ();
      css := css + sep + "}" + sep + sep;
    }

    /** `generateDeclarations(children)`. */
    method GenerateDeclarations(children: seq<Node>, sep: string) returns (r: Result<()>)
      modifies this
      ensures var e := DeclarationsOutput(children, sep);
              css == old(css) + e.text && r == e.outcome
    {
      ghost var c0 := css;
      ghost var out := "";
      assert children[..0] == [];
      assert c0 + out == c0;
      var newLine := "";
      var i := 0;
      while i < |children|
        invariant 0 <= i <= |children|
        invariant DeclarationsOutput(children[..i], sep) == Emitted(out, Ok(()))
        invariant css == c0 + out
        invariant newLine == if HasDeclaration(children[..i]) then sep else ""
      {
        DeclarationsNext(children, i, sep);
        var child := children[i];
        if child.Declaration? {
          var head := newLine + "\t" + child.property + ": ";
          assert (c0 + out) + head == c0 + (out + head);
          css := css + head;
          out := out + head;
          var text := ExpressionText(child.expression);
          if !text.Ok? {
            DeclarationsStopAtFailure(children, i + 1, sep);
            return text.PropagateFailure();
          }
          assert (c0 + out) + text.value == c0 + (out + text.value);
          css := css + text.value;
          out := out + text.value;
          newLine := sep;
        }
        i := i + 1;
      }
      assert children[..i] == children;
      return Ok(());
    }
  }
}
