# Rule composition for structural code search, in Dafny

This project models the rule layer of a structural code-search engine
(`crates/core/src/rule.rs`). A rule is a boolean combination of structural
templates. The engine tests a rule against one syntax node (`match_node`),
searches a subtree for the first match (`find_node`), or lists every match
(`find_node_vec`). The model covers:

- the matchers: template leaves, given as text or as a compiled `Pattern`;
  the combinators `And`, `Or` and `Not`; and the ancestor scopes `Inside` and
  `NotInside`, which hold a `Pattern`;
- `match_node` as a function from a node and a binding environment to the
  matched node (if any) and the environment the attempt leaves. The
  environment is threaded through every sub-attempt exactly as the code
  passes its `&mut MetaVarEnv`;
- the two searches over the subtree. `find_node` keeps one environment
  across all its attempts. `find_node_vec` drives a FIFO queue and gives each
  candidate a fresh environment;
- the static positivity classification (the `PositiveMatcher` marker impls)
  and the fold-style builder `Rule::all` / `either` / `not`, `.and`, `.or`,
  `.build`.

Module layout, one file each:

- `Wrappers`: `Option`.
- `SyntaxTree`: the tree. A node handle is a root tree plus the path of child
  indices to the node. `Parent` drops the last index; `Children` appends one,
  in source order. `Ancestors` is the parent chain.
- `Traversal`: pre-order and the FIFO queue order (`Bfs`, `LevelOrder`), with
  proofs that each lists every node of the subtree exactly once, and that the
  queue order is breadth-first, left to right.
- `Binding`: the opaque environment, `Pattern`, the outcome of one attempt,
  the external template matcher as a function-typed parameter `LeafTest`,
  and `Scan`: a linear, environment-threading first-success scan that serves
  as the reference for `find_node` and for the ancestor walks.
- `Rules`: the `Matcher` datatype, `Positive`, `WellFormed`, `MatchNode`, the
  loop methods of `Inside` / `NotInside`, and the combinator properties.
- `Search`: `FindNode` (mutual recursion, as `or_else` / `find_map`) and the
  `FindNodeVec` method (a `while` loop over a `seq` queue).
- `Builder`: `AndRule`, `EitherRule` and `Rule` with their operations. Each
  `requires` is the trait bound of the Rust impl block.
- `Scenarios`: the unit tests of the file, restated against stand-in
  template matchers, plus two scenarios that show how environments are
  threaded.

Two points where the code is easy to misread, and which the model follows:

- `Or` hands its second branch the environment its failed first branch left,
  not the original one (rule.rs:100-102).
- `Inside` and `NotInside` hold a `Pattern`, not a general matcher
  (rule.rs:114, 135).

## Model

| member | source | states |
|---|---|---|
| `Rules.MatchNode` | crates/core/src/rule.rs:40-174 | every `match_node` impl, one arm per matcher, the environment threaded from part to part; a negation or an ancestor test that succeeds returns the node under test |
| `Rules.InsideFrom` | crates/core/src/rule.rs:123-130 | the parent walk of `Inside`: the first ancestor the template matches ends it; success returns the original node |
| `Rules.NotInsideFrom` | crates/core/src/rule.rs:144-151 | the parent walk of `NotInside`: the first ancestor the template matches makes it fail; success returns the original node |
| `Rules.Positive` | crates/core/src/rule.rs:51-111 | the `PositiveMatcher` marker impls: text leaves and compiled templates, an `And` whose first part is positive, an `Or` of positives; never `Not`, `Inside` or `NotInside` |
| `Rules.WellFormed` | crates/core/src/rule.rs:58-157 | the bounds the struct declarations put on their parts: an `Or` joins positives, a `Not` negates a positive |
| `Rules.StrLeafIsPattern` | crates/core/src/rule.rs:40-51 | a text leaf is positive and well formed, its only anchor is the template its text compiles to, and for every template matcher, node and environment it gives exactly the outcome of that compiled template |
| `Rules.AndSpec` | crates/core/src/rule.rs:75-82 | And fails with the first part's environment when the first part fails; otherwise it is the second part tested at the node the first returned, in the environment the first left; it succeeds iff both do under that threading |
| `Rules.AndNarrows` | crates/core/src/rule.rs:80-81 | for every template matcher, node and environment, a match of `And(a, b)` is a match of `a` |
| `Rules.OrSpec` | crates/core/src/rule.rs:95-103 | Or returns the first part's success unchanged; otherwise it is the second part at the original node in the environment the failed first part left; it succeeds iff one of the two does under that threading |
| `Rules.OrShortCircuits` | crates/core/src/rule.rs:100-102 | when the first part succeeds, the result does not depend on the second part at all |
| `Rules.OrWidens` | crates/core/src/rule.rs:100-102 | for every template matcher, node and environment, a match of `a` is a match of `Or(a, b)` |
| `Rules.NotSpec` | crates/core/src/rule.rs:163-173 | Not succeeds iff its inner matcher fails at that same node (no descent), returns that node, and keeps the inner attempt's environment |
| `Rules.InsideMatchNode` | crates/core/src/rule.rs:118-131 | the `while let` parent walk returns exactly the result and environment of `MatchNode` on `Inside` |
| `Rules.InsideFromScansAncestors` | crates/core/src/rule.rs:123-130 | the walk of Inside is a threaded first-success scan of the proper ancestors, nearest first; on success it returns the original node |
| `Rules.InsideSpec` | crates/core/src/rule.rs:113-132 | Inside succeeds iff some proper ancestor matches the template (each tried in the environment the failed tries before it left); success returns the original node; the node itself is never tried |
| `Rules.NotInsideMatchNode` | crates/core/src/rule.rs:139-152 | the `while let` parent walk returns exactly the result and environment of `MatchNode` on `NotInside` |
| `Rules.NotInsideFromComplements` | crates/core/src/rule.rs:144-151 | from any point of the walk, the NotInside walk leaves the same environment as the Inside walk and succeeds, with the original node, exactly when it fails |
| `Rules.NotInsideSpec` | crates/core/src/rule.rs:134-153 | from the same node and environment, NotInside succeeds iff Inside fails, returns the original node, and leaves the same environment |
| `Rules.PositiveHasAnchor` | crates/core/src/rule.rs:51-111 | every matcher the marker impls classify as positive (leaves; And with a positive first part; Or of positives) has at least one anchor template |
| `Rules.PositiveMatchIsAnchored` | crates/core/src/rule.rs:6-8 | a positive matcher matches a node only if one of its anchor templates matched that very node, so a positive rule is bounded by a template |
| `Rules.NegationMatchesEverything` | crates/core/src/rule.rs:155-174 | Not is never positive, and a bare negation of a template that matches nothing matches every node |
| `Binding.ScanFailsIff` | crates/core/src/rule.rs:20-23 | a threaded scan fails iff every attempt fails, each in the environment the failures before it left, and it then leaves the environment of the last attempt |
| `Binding.ScanFirstSuccess` | crates/core/src/rule.rs:20-23 | a scan that succeeds returns the outcome of some attempt, every attempt before which failed: the first success |
| `Search.FindNode` | crates/core/src/rule.rs:16-23 | `find_node`: the node itself, then (`or_else`) each child's subtree in order, one environment throughout; for a negation or an ancestor test the node found lies in the searched subtree |
| `Search.FindInChildren` | crates/core/src/rule.rs:22 | the `find_map` over the children, from the i-th on, threading one environment; the same subtree bound |
| `Search.Harvest` | crates/core/src/rule.rs:29-35 | the matches of a candidate list in order, each tested in a fresh environment; never more matches than candidates |
| `Search.FindNodeScansPreOrder` | crates/core/src/rule.rs:16-23 | `find_node` equals a single threaded first-success scan of the subtree in pre-order, starting from the caller's environment |
| `Search.FindInChildrenScansPreOrder` | crates/core/src/rule.rs:22 | `find_map` over the children equals the threaded scan of the children's pre-orders, one after the other |
| `Search.FindNodeSpec` | crates/core/src/rule.rs:20-23 | a success at the start node is the result; otherwise the result is the first success in pre-order, it is an outcome of `MatchNode` at a node of the subtree, and all earlier nodes failed; `None` iff every node of the subtree failed |
| `Search.HarvestSpec` | crates/core/src/rule.rs:29-35 | the collected matches number at most the candidates; each is the fresh-environment match of some candidate; every candidate that matches contributes its match |
| `Search.HarvestAdvance` | crates/core/src/rule.rs:29-35 | one turn of the queue loop (dequeue, enqueue the children, test in a fresh environment, append a match) keeps what was collected plus what is still to come equal to the whole harvest, and shrinks the work left |
| `Search.LevelHarvestSpec` | crates/core/src/rule.rs:25-37 | for a valid node, every collected match is the fresh-environment match of some node of its subtree, and every node of the subtree that matches contributes its match |
| `Search.FindNodeVec` | crates/core/src/rule.rs:25-37 | the queue loop returns the fresh-environment matches of the candidates in dequeue (level) order, at most one per node of the subtree; every result is the match of a node of the subtree and every matching node of the subtree contributes; no environment of the caller is involved |
| `Traversal.Bfs` | crates/core/src/rule.rs:28-35 | the dequeue order of the FIFO queue: pop the front, push its children in source order, until empty |
| `Traversal.LevelOrder` | crates/core/src/rule.rs:27-28 | the dequeue order of a queue that starts with the one search root |
| `Traversal.QueueShrinks` | crates/core/src/rule.rs:29-30 | dequeuing a node and enqueuing its children removes exactly one node from the work left, so the loop terminates |
| `Traversal.PreOrderIsSubtree` | crates/core/src/rule.rs:22 | the pre-order of a node lists exactly the nodes of its subtree (both directions) |
| `Traversal.PreOrderDistinct` | crates/core/src/rule.rs:22 | the pre-order lists each node at most once |
| `Traversal.BfsPermutesForest` | crates/core/src/rule.rs:28-35 | the queue dequeues a permutation of the pre-orders of the queued nodes |
| `Traversal.BfsBreadthFirst` | crates/core/src/rule.rs:29-30 | the queue dequeues shallower nodes first and, within a level, left to right (children enqueued in source order) |
| `Traversal.LevelOrderLength` | crates/core/src/rule.rs:26-36 | the queue dequeues as many nodes as the subtree has |
| `Traversal.LevelOrderVisitsSubtreeOnce` | crates/core/src/rule.rs:25-37 | `find_node_vec` dequeues every node of the subtree exactly once and nothing else, in breadth-first, left-to-right order, so depths never decrease |
| `SyntaxTree.AncestorsAreProperPrefixes` | crates/core/src/rule.rs:124-128 | the parent walk visits one node per strictly shorter prefix of the path, nearest first, each a valid proper ancestor, so it terminates and never visits the node itself |
| `Builder.Rule.All` | crates/core/src/rule.rs:181-185 | accepts only a positive matcher and enters the conjunction chain holding that very matcher |
| `Builder.Rule.Either` | crates/core/src/rule.rs:186-188 | accepts only a positive matcher and enters the disjunction chain holding that very matcher |
| `Builder.Rule.Not` | crates/core/src/rule.rs:189-191 | accepts only a positive matcher and wraps it in `Not`; the negation is well formed, never positive, and succeeds exactly where the matcher fails |
| `Builder.AndRule.And` | crates/core/src/rule.rs:200-209 | accepts any matcher; the result is `And` of the accumulator and the new term, a conjunction chain with a positive first term that matches only where the accumulator does |
| `Builder.Rule.And` | crates/core/src/rule.rs:210-219 | extends a conjunction chain with any matcher into `And` of the chain and the term; it stays a chain with a positive first term and can only narrow |
| `Builder.EitherRule.Or` | crates/core/src/rule.rs:224-233 | accepts only a positive matcher; the result is `Or` of the accumulator and the alternative, a disjunction of positives that matches wherever the accumulator does |
| `Builder.Rule.Or` | crates/core/src/rule.rs:235-244 | extends a disjunction chain with a positive matcher only, into `Or` of the chain and the alternative; it stays a disjunction of positives and can only widen |
| `Builder.Rule.Build` | crates/core/src/rule.rs:192-194 | finalises only a positive, well-formed accumulator, hands out that accumulator itself, and the rule has an anchor template |
| `Builder.ChainsAreBuildable` | crates/core/src/rule.rs:180-195 | every conjunction or disjunction chain holds a positive accumulator, so `build` applies to it |
| `Builder.BareNegationNeverBuilds` | crates/core/src/rule.rs:155-157 | a rule whose accumulator is a bare negation is never positive, so `build` cannot finalise it |
| `Scenarios.TestOr` | crates/core/src/rule.rs:262-274 | with text-equality templates, `Or` finds "let a = 1" and "const b = 2" and none of the four near misses |
| `Scenarios.TestNot` | crates/core/src/rule.rs:276-282 | `Not("let a = 1")` finds "const b = 2" |
| `Scenarios.TestAnd` | crates/core/src/rule.rs:284-295 | `And("let a = $_", Not("let a = 123"))` finds "let a = 233" and "let a = 456" but not "let a = 123" |
| `Scenarios.TestApiAnd` | crates/core/src/rule.rs:297-305 | the same conjunction built through `all` / `and` / `build` behaves the same |
| `Scenarios.TestApiOr` | crates/core/src/rule.rs:307-316 | the disjunction built through `either` / `or` / `build` behaves as the `Or` of the first scenario |
| `Scenarios.TestInside` | crates/core/src/rule.rs:117-153 | a statement nested in a function is Inside the function pattern; the root is not Inside anything and is NotInside it |
| `Scenarios.OrSeesFailedBindings` | crates/core/src/rule.rs:100-102 | with a template matcher that writes a binding on failure, `Or(a, b)` fails where `b` alone succeeds, because `b` sees `a`'s bindings |
| `Scenarios.FindNodeSeesFailedBindings` | crates/core/src/rule.rs:16-23 | with a template matcher that writes a binding on failure, `find_node` carries the failed root test's binding into the child's test and finds nothing, though the child alone matches |
| `Scenarios.FindNodeVecStartsAfresh` | crates/core/src/rule.rs:25-37 | on the same tree, `find_node_vec` tests each candidate in a fresh environment and finds the child |

## Left out

- The concrete template matcher (`Pattern::new`, `Pattern::match_node`) is not part of this model. It is the function-typed parameter `leaf` of every operation. The model does not capture that the text leaf recompiles its pattern on every call (the result is the same).
- `Pattern`'s own `Matcher` and `PositiveMatcher` impls are not part of this model. The model treats a compiled pattern as a positive leaf, as its use inside `Or` in the tests requires (rule.rs:264-267).
- `MetaVarEnv` internals are not part of this model. The environment is a value the rule layer only passes along, created empty by `EmptyEnv`. In-place mutation through `&mut` is modelled as returning the new environment with each outcome.
- The tree-sitter `Node` / `Root` wrappers and parsing (`Root::new`) are not part of this model. A node is a root tree plus a path, and each scenario snippet is a one-node tree matched by a text-comparing stand-in.
- Rust lifetimes, generics, the `.into()` conversion and the trait-based type-state encoding are left out. Positivity and the impl bounds are the predicates `Positive` and `WellFormed`, and each builder operation `requires` the bound its impl block carries.
- The Rust types accept only well-formed matchers. `MatchNode` is defined on every `Matcher` value, and `WellFormed` states which ones Rust can express.
