/**
 * The fold-style rule builder. `Rule.All` and `Rule.Either` enter the
 * conjunction and disjunction chains from a positive matcher, `Rule.Not`
 * negates a positive matcher, `And` folds any further term onto a
 * conjunction chain, `Or` folds a further positive term onto a disjunction
 * chain, and `Build` hands out the accumulated matcher, which it accepts
 * only when that matcher is positive. Each `requires` is the trait bound the
 * corresponding operation carries.
 */
module Builder {
  import opened Rules

  /** The state Rule::all enters: a positive accumulator awaiting its first refinement term. */
  datatype AndRule = AndRule(inner: Matcher) {

    /**
     * AndRule::and: the accumulator and the new term become the two parts of
     * an And; any matcher may refine it, and the result stays positive and can
     * only narrow.
     */
    function And(other: Matcher): (r: Rule)
      requires WellFormed(inner) && Positive(inner)
      requires WellFormed(other)
      ensures r.inner == Matcher.And(inner, other)
      ensures r.AndChain()
      ensures Narrower(r.inner, inner)
    {
      Rule(Matcher.And(inner, other))
    }
  }

  /** The state Rule::either enters: a positive accumulator awaiting its first alternative. */
  datatype EitherRule = EitherRule(inner: Matcher) {

    /**
     * EitherRule::or: the accumulator and a positive alternative become the
     * two parts of an Or, which stays positive and can only widen.
     */
    function Or(other: Matcher): (r: Rule)
      requires WellFormed(inner) && Positive(inner)
      requires WellFormed(other) && Positive(other)
      ensures r.inner == Matcher.Or(inner, other)
      ensures r.OrChain()
      ensures Narrower(inner, r.inner)
    {
      Rule(Matcher.Or(inner, other))
    }
  }

  /** A rule under construction, or built. */
  datatype Rule = Rule(inner: Matcher) {

    /** A conjunction whose first term is positive: the shape Rule::and extends. */
    predicate AndChain() {
      inner.And? && WellFormed(inner) && Positive(inner.pattern1)
    }

    /** A disjunction of positives: the shape Rule::or extends. */
    predicate OrChain() {
      inner.Or? && WellFormed(inner) && Positive(inner.pattern1) && Positive(inner.pattern2)
    }

    /** Rule::all: enters a conjunction chain that behaves as the pattern until refined. */
    static function All(pattern: Matcher): (r: AndRule)
      requires WellFormed(pattern) && Positive(pattern)
      ensures r.inner == pattern
      ensures WellFormed(r.inner) && Positive(r.inner)
      ensures forall leaf, n, env :: MatchNode(r.inner, leaf, n, env) == MatchNode(pattern, leaf, n, env)
    {
      AndRule(pattern)
    }

    /** Rule::either: enters a disjunction chain that behaves as the pattern until widened. */
    static function Either(pattern: Matcher): (r: EitherRule)
      requires WellFormed(pattern) && Positive(pattern)
      ensures r.inner == pattern
      ensures WellFormed(r.inner) && Positive(r.inner)
      ensures forall leaf, n, env :: MatchNode(r.inner, leaf, n, env) == MatchNode(pattern, leaf, n, env)
    {
      EitherRule(pattern)
    }

    /** Rule::not: a negation, well formed but never positive, succeeding exactly where the pattern fails. */
    static function Not(pattern: Matcher): (r: Matcher)
      requires WellFormed(pattern) && Positive(pattern)
      ensures r == Matcher.Not(pattern)
      ensures WellFormed(r) && !Positive(r)
      ensures forall leaf, n, env :: MatchNode(r, leaf, n, env).node.Some? <==> MatchNode(pattern, leaf, n, env).node.None?
    {
      Matcher.Not(pattern)
    }

    /** Rule<And<M, N>>::and: the chain becomes the first part of an And with the new term; it stays positive and can only narrow. */
    function And(other: Matcher): (r: Rule)
      requires AndChain()
      requires WellFormed(other)
      ensures r.inner == Matcher.And(inner, other)
      ensures r.AndChain()
      ensures Narrower(r.inner, inner)
    {
      Rule(Matcher.And(inner, other))
    }

    /** Rule<Or<M, N>>::or: the chain becomes the first part of an Or with a positive alternative; it stays positive and can only widen. */
    function Or(other: Matcher): (r: Rule)
      requires OrChain()
      requires WellFormed(other) && Positive(other)
      ensures r.inner == Matcher.Or(inner, other)
      ensures r.OrChain()
      ensures Narrower(inner, r.inner)
    {
      Rule(Matcher.Or(inner, other))
    }

    /** Rule::build: hands out the accumulator itself; only a positive one can be finalised, and it always has an anchor template. */
    function Build(): (m: Matcher)
      requires WellFormed(inner) && Positive(inner)
      ensures m == inner
      ensures WellFormed(m) && Positive(m)
      ensures Anchors(m) != {}
    {
      PositiveHasAnchor(inner);
      inner
    }
  }

  /** Both chain shapes hold a positive accumulator, so every chain can be finalised. */
  lemma ChainsAreBuildable(r: Rule)
    requires r.AndChain() || r.OrChain()
    ensures WellFormed(r.inner) && Positive(r.inner)
  {
  }

  /** A rule that is only a negation can never be finalised. */
  lemma BareNegationNeverBuilds(p: Matcher)
    ensures !Positive(Rule(Matcher.Not(p)).inner)
  {
  }
}
