/**
 * The matchers of the rule layer: leaves backed by a structural template,
 * the boolean combinators And, Or and Not, and the ancestor scopes Inside
 * and NotInside; their static positivity classification; and the single-node
 * test `MatchNode`, which threads one binding environment through every
 * sub-attempt.
 */
module Rules {
  import opened Wrappers
  import opened SyntaxTree
  import opened Binding

  datatype Matcher =
    | Str(text: string)                           // a template given as text, compiled at each test
    | Pat(pattern: Pattern)                       // an already compiled template
    | And(pattern1: Matcher, pattern2: Matcher)
    | Or(pattern1: Matcher, pattern2: Matcher)
    | Not(not: Matcher)
    | Inside(outer: Pattern)
    | NotInside(outer: Pattern)

  /**
   * The positive matchers: those that may anchor a complete rule. Leaves are
   * positive; a conjunction is positive when its first term is; a
   * disjunction of positives is positive; negations and scopes never are.
   */
  predicate Positive(m: Matcher) {
    match m
    case Str(_) => true
    case Pat(_) => true
    case And(a, _) => Positive(a)
    case Or(a, b) => Positive(a) && Positive(b)
    case Not(_) => false
    case Inside(_) => false
    case NotInside(_) => false
  }

  /** The bounds the combinators put on their parts: a disjunction joins positives, a negation negates a positive. */
  predicate WellFormed(m: Matcher) {
    match m
    case Str(_) => true
    case Pat(_) => true
    case And(a, b) => WellFormed(a) && WellFormed(b)
    case Or(a, b) => WellFormed(a) && WellFormed(b) && Positive(a) && Positive(b)
    case Not(p) => WellFormed(p) && Positive(p)
    case Inside(_) => true
    case NotInside(_) => true
  }

  /** The templates that a match of `m` at a node must have matched at that same node. */
  function Anchors(m: Matcher): set<Pattern> {
    match m
    case Str(s) => {Pattern(s)}
    case Pat(p) => {p}
    case And(a, _) => Anchors(a)
    case Or(a, b) => Anchors(a) + Anchors(b)
    case Not(_) => {}
    case Inside(_) => {}
    case NotInside(_) => {}
  }

  /**
   * Tests one node; the environment each part leaves is the one the next part
   * starts from. Only the templates choose which node a match returns: a
   * negation or an ancestor test that succeeds returns the node under test.
   */
  function MatchNode(m: Matcher, leaf: LeafTest, n: Node, env: Env): (r: Outcome)
    ensures (m.Not? || m.Inside? || m.NotInside?) && r.node.Some? ==> r.node == Some(n)
  {
    match m
    case Str(s) => leaf(Pattern(s), n, env)
    case Pat(p) => leaf(p, n, env)
    case And(a, b) =>
      var r := MatchNode(a, leaf, n, env);
      if r.node.None? then r else MatchNode(b, leaf, r.node.value, r.env)
    case Or(a, b) =>
      var r := MatchNode(a, leaf, n, env);
      if r.node.Some? then r else MatchNode(b, leaf, n, r.env)
    case Not(p) =>
      var r := MatchNode(p, leaf, n, env);
      Outcome(if r.node.None? then Some(n) else None, r.env)
    case Inside(p) => InsideFrom(p, leaf, n, n, env)
    case NotInside(p) => NotInsideFrom(p, leaf, n, n, env)
  }

  /** The ancestor walk of Inside, from the walker `n` upwards, on behalf of `node`. */
  function InsideFrom(outer: Pattern, leaf: LeafTest, node: Node, n: Node, env: Env): (r: Outcome)
    ensures r.node.Some? ==> r.node == Some(node)
    decreases |n.path|
  {
    match Parent(n)
    case None => Outcome(None, env)
    case Some(p) =>
      var r := leaf(outer, p, env);
      if r.node.Some? then Outcome(Some(node), r.env) else InsideFrom(outer, leaf, node, p, r.env)
  }

  /** The ancestor walk of NotInside, from the walker `n` upwards, on behalf of `node`. */
  function NotInsideFrom(outer: Pattern, leaf: LeafTest, node: Node, n: Node, env: Env): (r: Outcome)
    ensures r.node.Some? ==> r.node == Some(node)
    decreases |n.path|
  {
    match Parent(n)
    case None => Outcome(Some(node), env)
    case Some(p) =>
      var r := leaf(outer, p, env);
      if r.node.Some? then Outcome(None, r.env) else NotInsideFrom(outer, leaf, node, p, r.env)
  }

  /** One test of a template, as a probe. */
  function LeafProbe(outer: Pattern, leaf: LeafTest): Probe {
    (u: Node, e: Env) => leaf(outer, u, e)
  }

  /** One test of a matcher, as a probe. */
  function MatchProbe(m: Matcher, leaf: LeafTest): Probe {
    (u: Node, e: Env) => MatchNode(m, leaf, u, e)
  }

  /** Every match of `m1` is a match of `m2`, at the same node and environment, whatever the templates do. */
  ghost predicate Narrower(m1: Matcher, m2: Matcher) {
    forall leaf: LeafTest, n: Node, env: Env ::
      MatchNode(m1, leaf, n, env).node.Some? ==> MatchNode(m2, leaf, n, env).node.Some?
  }

  /** Inside::match_node: walks the parent chain, stopping at the first ancestor that matches. */
  method InsideMatchNode(outer: Pattern, leaf: LeafTest, node: Node, env: Env) returns (r: Outcome)
    ensures r == MatchNode(Inside(outer), leaf, node, env)
  {
    var n := node;
    var e := env;
    while Parent(n).Some?
      invariant InsideFrom(outer, leaf, node, n, e) == MatchNode(Inside(outer), leaf, node, env)
      decreases |n.path|
    {
      var p := Parent(n).value;
      var attempt := leaf(outer, p, e);
      e := attempt.env;
      if attempt.node.Some? {
        return Outcome(Some(node), e);
      }
      n := p;
    }
    return Outcome(None, e);
  }

  /** NotInside::match_node: walks the parent chain, failing at the first ancestor that matches. */
  method NotInsideMatchNode(outer: Pattern, leaf: LeafTest, node: Node, env: Env) returns (r: Outcome)
    ensures r == MatchNode(NotInside(outer), leaf, node, env)
  {
    var n := node;
    var e := env;
    while Parent(n).Some?
      invariant NotInsideFrom(outer, leaf, node, n, e) == MatchNode(NotInside(outer), leaf, node, env)
      decreases |n.path|
    {
      var p := Parent(n).value;
      var attempt := leaf(outer, p, e);
      e := attempt.env;
      if attempt.node.Some? {
        return Outcome(None, e);
      }
      n := p;
    }
    return Outcome(Some(node), e);
  }

  /**
   * A text leaf is a positive matcher anchored by the template its text
   * compiles to, and it matches exactly where that template does.
   */
  lemma StrLeafIsPattern(s: string)
    ensures Positive(Str(s)) && WellFormed(Str(s))
    ensures Anchors(Str(s)) == {Pattern(s)}
    ensures forall leaf, n, env :: MatchNode(Str(s), leaf, n, env) == MatchNode(Pat(Pattern(s)), leaf, n, env)
  {
  }

  /**
   * The And arm of `MatchNode`, read off as a statement: And fails when its
   * first part fails, leaving that part's environment; otherwise it is its
   * second part tested at the node the first returned, in the environment the
   * first left. `AndNarrows` is the property drawn from it.
   */
  lemma AndSpec(a: Matcher, b: Matcher, leaf: LeafTest, n: Node, env: Env)
    ensures var first := MatchNode(a, leaf, n, env);
      (first.node.None? ==> MatchNode(And(a, b), leaf, n, env) == Outcome(None, first.env)) &&
      (first.node.Some? ==> MatchNode(And(a, b), leaf, n, env) == MatchNode(b, leaf, first.node.value, first.env))
    ensures var first := MatchNode(a, leaf, n, env);
      MatchNode(And(a, b), leaf, n, env).node.Some? <==>
        first.node.Some? && MatchNode(b, leaf, first.node.value, first.env).node.Some?
  {
  }

  /** A conjunction never matches where its first part does not. */
  lemma AndNarrows(a: Matcher, b: Matcher)
    ensures Narrower(And(a, b), a)
  {
  }

  /**
   * The Or arm of `MatchNode`, read off as a statement: Or returns its first
   * part's success without looking at its second part; otherwise it is the
   * second part tested at the same node, in the environment the failed first
   * part left. `OrShortCircuits` and `OrWidens` are the properties drawn from it.
   */
  lemma OrSpec(a: Matcher, b: Matcher, leaf: LeafTest, n: Node, env: Env)
    ensures var first := MatchNode(a, leaf, n, env);
      (first.node.Some? ==> MatchNode(Or(a, b), leaf, n, env) == first) &&
      (first.node.None? ==> MatchNode(Or(a, b), leaf, n, env) == MatchNode(b, leaf, n, first.env))
    ensures var first := MatchNode(a, leaf, n, env);
      MatchNode(Or(a, b), leaf, n, env).node.Some? <==>
        first.node.Some? || MatchNode(b, leaf, n, first.env).node.Some?
  {
  }

  /** When the first part of Or succeeds, the second part makes no difference. */
  lemma OrShortCircuits(a: Matcher, b1: Matcher, b2: Matcher, leaf: LeafTest, n: Node, env: Env)
    requires MatchNode(a, leaf, n, env).node.Some?
    ensures MatchNode(Or(a, b1), leaf, n, env) == MatchNode(Or(a, b2), leaf, n, env)
  {
  }

  /** A disjunction matches wherever its first part matches. */
  lemma OrWidens(a: Matcher, b: Matcher)
    ensures Narrower(a, Or(a, b))
  {
  }

  /**
   * The Not arm of `MatchNode`, read off as a statement: Not succeeds exactly
   * when its inner matcher fails at that same node, and then returns that
   * node; it keeps whatever environment the inner attempt left.
   */
  lemma NotSpec(p: Matcher, leaf: LeafTest, n: Node, env: Env)
    ensures MatchNode(Not(p), leaf, n, env).node.Some? <==> MatchNode(p, leaf, n, env).node.None?
    ensures MatchNode(Not(p), leaf, n, env).node.Some? ==> MatchNode(Not(p), leaf, n, env).node == Some(n)
    ensures MatchNode(Not(p), leaf, n, env).env == MatchNode(p, leaf, n, env).env
  {
  }

  /** The walk of Inside is a scan of the proper ancestors of the walker, nearest first. */
  lemma {:induction false} InsideFromScansAncestors(outer: Pattern, leaf: LeafTest, node: Node, n: Node, env: Env)
    ensures var s := Scan(LeafProbe(outer, leaf), Ancestors(n), env);
      InsideFrom(outer, leaf, node, n, env) == Outcome(if s.node.Some? then Some(node) else None, s.env)
    decreases |n.path|
  {
    match Parent(n)
    case None =>
    case Some(p) =>
      var r := leaf(outer, p, env);
      assert Ancestors(n)[0] == p && Ancestors(n)[1..] == Ancestors(p);
      if r.node.None? {
        InsideFromScansAncestors(outer, leaf, node, p, r.env);
      }
  }

  /**
   * Inside succeeds exactly when some proper ancestor matches its template,
   * each ancestor tried in the environment the failed tries below it left;
   * then it returns the node it was given. The node itself is never tried.
   */
  lemma InsideSpec(outer: Pattern, leaf: LeafTest, n: Node, env: Env)
    ensures var chain := Ancestors(n);
      MatchNode(Inside(outer), leaf, n, env).node.Some? <==>
        exists k :: 0 <= k < |chain| && !FailsAt(LeafProbe(outer, leaf), chain, env, k)
    ensures MatchNode(Inside(outer), leaf, n, env).node.Some? ==> MatchNode(Inside(outer), leaf, n, env).node == Some(n)
    ensures n !in Ancestors(n)
  {
    InsideFromScansAncestors(outer, leaf, n, n, env);
    ScanFailsIff(LeafProbe(outer, leaf), Ancestors(n), env);
    AncestorsAreProperPrefixes(n);
  }

  /** The two walks try the same ancestors in the same environments and give opposite verdicts. */
  lemma {:induction false} NotInsideFromComplements(outer: Pattern, leaf: LeafTest, node: Node, n: Node, env: Env)
    ensures NotInsideFrom(outer, leaf, node, n, env).env == InsideFrom(outer, leaf, node, n, env).env
    ensures NotInsideFrom(outer, leaf, node, n, env).node ==
      if InsideFrom(outer, leaf, node, n, env).node.Some? then None else Some(node)
    decreases |n.path|
  {
    match Parent(n)
    case None =>
    case Some(p) =>
      var r := leaf(outer, p, env);
      if r.node.None? {
        NotInsideFromComplements(outer, leaf, node, p, r.env);
      }
  }

  /**
   * From the same node and environment, NotInside succeeds exactly when
   * Inside fails, returns the node it was given, and leaves the same environment.
   */
  lemma NotInsideSpec(outer: Pattern, leaf: LeafTest, n: Node, env: Env)
    ensures MatchNode(NotInside(outer), leaf, n, env).node.Some? <==> MatchNode(Inside(outer), leaf, n, env).node.None?
    ensures MatchNode(NotInside(outer), leaf, n, env).node.Some? ==> MatchNode(NotInside(outer), leaf, n, env).node == Some(n)
    ensures MatchNode(NotInside(outer), leaf, n, env).env == MatchNode(Inside(outer), leaf, n, env).env
  {
    NotInsideFromComplements(outer, leaf, n, n, env);
  }

  /** Every positive matcher has at least one anchor template. */
  lemma {:induction false} PositiveHasAnchor(m: Matcher)
    requires Positive(m)
    ensures Anchors(m) != {}
  {
    match m
    case Str(s) => assert Pattern(s) in Anchors(m);
    case Pat(p) => assert p in Anchors(m);
    case And(a, _) => PositiveHasAnchor(a);
    case Or(a, _) => PositiveHasAnchor(a);
  }

  /**
   * A positive matcher matches a node only if one of its anchor templates
   * matched that very node: its matches are bounded by a template's.
   */
  lemma {:induction false} PositiveMatchIsAnchored(m: Matcher, leaf: LeafTest, n: Node, env: Env)
    requires Positive(m)
    requires MatchNode(m, leaf, n, env).node.Some?
    ensures exists p, e :: p in Anchors(m) && leaf(p, n, e).node.Some?
  {
    match m
    case Str(s) =>
      assert Pattern(s) in Anchors(m) && leaf(Pattern(s), n, env).node.Some?;
    case Pat(p) =>
      assert p in Anchors(m) && leaf(p, n, env).node.Some?;
    case And(a, _) =>
      PositiveMatchIsAnchored(a, leaf, n, env);
    case Or(a, b) =>
      var first := MatchNode(a, leaf, n, env);
      if first.node.Some? {
        PositiveMatchIsAnchored(a, leaf, n, env);
      } else {
        PositiveMatchIsAnchored(b, leaf, n, first.env);
      }
  }

  /**
   * A two-step unfolding, kept as an illustration of why the builder insists
   * on a positive term: a bare negation, which is not positive, matches every
   * node once its template matches nothing.
   */
  lemma NegationMatchesEverything(p: Pattern, leaf: LeafTest, n: Node, env: Env)
    requires forall u: Node, e: Env :: leaf(p, u, e).node.None?
    ensures !Positive(Not(Pat(p)))
    ensures MatchNode(Not(Pat(p)), leaf, n, env).node == Some(n)
  {
  }
}
