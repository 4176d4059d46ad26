/**
 * The unit scenarios of the rule layer, restated against a stand-in for the
 * template matcher: a template matches a node whose text equals it, and a
 * template ending in the placeholder `$_` matches any node whose text
 * extends what comes before the placeholder. Each snippet is parsed into a
 * single node. The last scenarios use a stand-in that records a binding on
 * failure, to show how environments are threaded.
 */
module Scenarios {
  import opened Wrappers
  import opened SyntaxTree
  import opened Traversal
  import opened Binding
  import opened Rules
  import opened Search
  import opened Builder

  predicate TextMatches(pat: string, txt: string) {
    if |pat| >= 2 && pat[|pat| - 2..] == "$_" then
      |pat| - 2 < |txt| && txt[..|pat| - 2] == pat[..|pat| - 2]
    else pat == txt
  }

  /** The stand-in template matcher: compares text, binds nothing. */
  function TextLeaf(p: Pattern, n: Node, env: Env): Outcome {
    Outcome(if TextMatches(p.source, Syntax(n).text) then Some(n) else None, env)
  }

  /** A snippet of code as a one-node tree. */
  function Snippet(code: string): Node {
    Node(Tree(code, []), [])
  }

  predicate Finds(m: Matcher, code: string) {
    FindNode(m, TextLeaf, Snippet(code), EmptyEnv).node.Some?
  }

  lemma TestOr()
    ensures var rule := Or(Pat(Pattern("let a = 1")), Pat(Pattern("const b = 2")));
      Finds(rule, "let a = 1") && Finds(rule, "const b = 2") &&
      !Finds(rule, "let a = 2") && !Finds(rule, "const a = 1") &&
      !Finds(rule, "let b = 2") && !Finds(rule, "const b = 1")
  {
  }

  lemma TestNot()
    ensures Finds(Not(Pat(Pattern("let a = 1"))), "const b = 2")
  {
  }

  lemma TestAnd()
    ensures var rule := And(Pat(Pattern("let a = $_")), Not(Pat(Pattern("let a = 123"))));
      Finds(rule, "let a = 233") && Finds(rule, "let a = 456") && !Finds(rule, "let a = 123")
  {
  }

  lemma TestApiAnd()
    ensures var rule := Rule.All(Str("let a = $_")).And(Rule.Not(Str("let a = 123"))).Build();
      Finds(rule, "let a = 233") && Finds(rule, "let a = 456") && !Finds(rule, "let a = 123")
  {
  }

  lemma TestApiOr()
    ensures var rule := Rule.Either(Str("let a = 1")).Or(Str("const b = 2")).Build();
      Finds(rule, "let a = 1") && Finds(rule, "const b = 2") &&
      !Finds(rule, "let a = 2") && !Finds(rule, "const a = 1") &&
      !Finds(rule, "let b = 2") && !Finds(rule, "const b = 1")
  {
  }

  /** A statement nested in a function is inside the function; the function itself is not inside anything. */
  lemma TestInside()
    ensures var root := Node(Tree("function f() { let a = 1 }", [Tree("let a = 1", [])]), []);
      var rule := Inside(Pattern("function $_"));
      MatchNode(rule, TextLeaf, Child(root, 0), EmptyEnv).node == Some(Child(root, 0)) &&
      MatchNode(rule, TextLeaf, root, EmptyEnv).node.None? &&
      MatchNode(NotInside(Pattern("function $_")), TextLeaf, root, EmptyEnv).node == Some(root)
  {
    var root := Node(Tree("function f() { let a = 1 }", [Tree("let a = 1", [])]), []);
    assert Parent(Child(root, 0)) == Some(root);
  }

  /**
   * A stand-in template matcher that writes a binding for `$A` when it fails
   * and refuses to match once `$A` is bound.
   */
  function LeakyLeaf(p: Pattern, n: Node, env: Env): Outcome {
    if "$A" in env.bindings then Outcome(None, env)
    else if Syntax(n).text == p.source then Outcome(Some(n), env)
    else Outcome(None, Env(env.bindings["$A" := n]))
  }

  /**
   * Or hands its second part the environment its failed first part left: the
   * second part alone matches, the disjunction does not.
   */
  lemma OrSeesFailedBindings()
    ensures MatchNode(Pat(Pattern("x")), LeakyLeaf, Snippet("x"), EmptyEnv).node.Some?
    ensures MatchNode(Or(Pat(Pattern("q")), Pat(Pattern("x"))), LeakyLeaf, Snippet("x"), EmptyEnv).node.None?
  {
  }

  /** A root "x" with one leaf child "a". */
  function TwoNodes(): Node {
    Node(Tree("x", [Tree("a", [])]), [])
  }

  /**
   * find_node carries the binding its failed test of the root wrote into the
   * test of the child, and so finds nothing, though the child alone would match.
   */
  lemma FindNodeSeesFailedBindings()
    ensures MatchNode(Pat(Pattern("a")), LeakyLeaf, Child(TwoNodes(), 0), EmptyEnv).node.Some?
    ensures FindNode(Pat(Pattern("a")), LeakyLeaf, TwoNodes(), EmptyEnv).node.None?
  {
    var root := TwoNodes();
    var m := Pat(Pattern("a"));
    ChildSyntax(root, 0);
    var bound := Env(map["$A" := root]);
    assert MatchNode(m, LeakyLeaf, root, EmptyEnv) == Outcome(None, bound);
    assert FindInChildren(m, LeakyLeaf, root, 1, bound).node.None?;
  }

  /** A computation on the one fixed two-node tree: its level order is the root, then its child. */
  lemma TwoNodesLevelOrder()
    ensures LevelOrder(TwoNodes()) == [TwoNodes(), Child(TwoNodes(), 0)]
  {
    var root := TwoNodes();
    var kid := Child(root, 0);
    ChildSyntax(root, 0);
    assert Children(root) == [kid];
    assert Children(kid) == [];
    BfsStep([root]);
    assert [root][1..] + Children(root) == [kid];
    BfsStep([kid]);
    assert [kid][1..] + Children(kid) == [];
  }

  /**
   * find_node_vec tests every candidate afresh: on the same tree it finds
   * the child.
   */
  lemma FindNodeVecStartsAfresh()
    ensures Harvest(Pat(Pattern("a")), LeakyLeaf, LevelOrder(TwoNodes())) == [Child(TwoNodes(), 0)]
  {
    var root := TwoNodes();
    var kid := Child(root, 0);
    var m := Pat(Pattern("a"));
    ChildSyntax(root, 0);
    TwoNodesLevelOrder();
    HarvestCons(m, LeakyLeaf, root, [kid]);
    HarvestCons(m, LeakyLeaf, kid, []);
    assert Hit(m, LeakyLeaf, root) == [];
    assert Hit(m, LeakyLeaf, kid) == [kid];
  }
}
