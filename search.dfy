/**
 * The two searches the matcher capability provides on top of its
 * single-node test: a pre-order first-match search that threads one
 * environment through every attempt, and an enumerate-all search that drives
 * a FIFO queue over the subtree and tests each dequeued node in a fresh
 * environment.
 */
module Search {
  import opened Wrappers
  import opened SyntaxTree
  import opened Traversal
  import opened Binding
  import opened Rules

  /**
   * find_node: the node itself first, then each child's subtree in source
   * order. A negation or an ancestor test returns the node it tested, so for
   * those the node found lies in the subtree searched.
   */
  function FindNode(m: Matcher, leaf: LeafTest, n: Node, env: Env): (r: Outcome)
    ensures (m.Not? || m.Inside? || m.NotInside?) && r.node.Some? ==>
      r.node.value.root == n.root && n.path <= r.node.value.path
    decreases Syntax(n), |Syntax(n).kids| + 1
  {
    var r := MatchNode(m, leaf, n, env);
    if r.node.Some? then r else FindInChildren(m, leaf, n, 0, r.env)
  }

  /** The first success among the subtrees of the children of `n` from the i-th on. */
  function FindInChildren(m: Matcher, leaf: LeafTest, n: Node, i: nat, env: Env): (r: Outcome)
    requires i <= |Syntax(n).kids|
    ensures (m.Not? || m.Inside? || m.NotInside?) && r.node.Some? ==>
      r.node.value.root == n.root && n.path <= r.node.value.path
    decreases Syntax(n), |Syntax(n).kids| - i
  {
    if i == |Syntax(n).kids| then Outcome(None, env)
    else
      ChildSyntax(n, i);
      var r := FindNode(m, leaf, Child(n, i), env);
      if r.node.Some? then r else FindInChildren(m, leaf, n, i + 1, r.env)
  }

  /** What one candidate contributes: its match in a fresh environment, or nothing. */
  function Hit(m: Matcher, leaf: LeafTest, c: Node): seq<Node> {
    var r := MatchNode(m, leaf, c, EmptyEnv);
    if r.node.Some? then [r.node.value] else []
  }

  /** The matches of the candidates, in candidate order, each candidate tested in a fresh environment. */
  function Harvest(m: Matcher, leaf: LeafTest, cands: seq<Node>): (r: seq<Node>)
    ensures |r| <= |cands|
  {
    if cands == [] then [] else Hit(m, leaf, cands[0]) + Harvest(m, leaf, cands[1..])
  }

  lemma HarvestCons(m: Matcher, leaf: LeafTest, c: Node, rest: seq<Node>)
    ensures Harvest(m, leaf, [c] + rest) == Hit(m, leaf, c) + Harvest(m, leaf, rest)
  {
    assert ([c] + rest)[1..] == rest;
  }

  lemma Regroup(a: seq<Node>, b: seq<Node>, c: seq<Node>)
    ensures a + (b + c) == (a + b) + c
  {
  }

  /**
   * One turn of the breadth-first loop: appending the match of the front
   * candidate, if any, keeps the harvest still to come equal to what is left
   * of the total.
   */
  lemma HarvestAdvance(m: Matcher, leaf: LeafTest, queue: seq<Node>, ret: seq<Node>, total: seq<Node>, r: Outcome)
    requires queue != [] && ret + Harvest(m, leaf, Bfs(queue)) == total
    requires r == MatchNode(m, leaf, queue[0], EmptyEnv)
    ensures (if r.node.Some? then ret + [r.node.value] else ret) +
      Harvest(m, leaf, Bfs(queue[1..] + Children(queue[0]))) == total
    ensures |QueueForest(queue[1..] + Children(queue[0]))| < |QueueForest(queue)|
  {
    HarvestStep(m, leaf, queue);
    var h := Hit(m, leaf, queue[0]);
    Regroup(ret, h, Harvest(m, leaf, Bfs(queue[1..] + Children(queue[0]))));
    if r.node.Some? {
      assert h == [r.node.value];
    } else {
      assert ret + h == ret;
    }
  }

  /** One dequeue of the breadth-first queue, seen through the harvest. */
  lemma HarvestStep(m: Matcher, leaf: LeafTest, queue: seq<Node>)
    requires queue != []
    ensures Harvest(m, leaf, Bfs(queue)) ==
      Hit(m, leaf, queue[0]) + Harvest(m, leaf, Bfs(queue[1..] + Children(queue[0])))
    ensures |QueueForest(queue[1..] + Children(queue[0]))| < |QueueForest(queue)|
  {
    BfsStep(queue);
    HarvestCons(m, leaf, queue[0], Bfs(queue[1..] + Children(queue[0])));
  }

  /** The recursive first-match search is a threaded linear scan of the subtree in pre-order. */
  lemma {:induction false} FindNodeScansPreOrder(m: Matcher, leaf: LeafTest, n: Node, env: Env)
    ensures FindNode(m, leaf, n, env) == Scan(MatchProbe(m, leaf), PreOrder(n), env)
    decreases Syntax(n), |Syntax(n).kids| + 1
  {
    var probe := MatchProbe(m, leaf);
    ScanAppend(probe, [n], PreOrderKids(n, 0), env);
    assert Scan(probe, [n], env) == (var r := MatchNode(m, leaf, n, env); if r.node.Some? then r else Outcome(None, r.env)) by {
      assert [n][1..] == [];
    }
    FindInChildrenScansPreOrder(m, leaf, n, 0, MatchNode(m, leaf, n, env).env);
  }

  lemma {:induction false} FindInChildrenScansPreOrder(m: Matcher, leaf: LeafTest, n: Node, i: nat, env: Env)
    requires i <= |Syntax(n).kids|
    ensures FindInChildren(m, leaf, n, i, env) == Scan(MatchProbe(m, leaf), PreOrderKids(n, i), env)
    decreases Syntax(n), |Syntax(n).kids| - i
  {
    if i < |Syntax(n).kids| {
      var probe := MatchProbe(m, leaf);
      ChildSyntax(n, i);
      var c := Child(n, i);
      FindNodeScansPreOrder(m, leaf, c, env);
      ScanAppend(probe, PreOrder(c), PreOrderKids(n, i + 1), env);
      FindInChildrenScansPreOrder(m, leaf, n, i + 1, FindNode(m, leaf, c, env).env);
    }
  }

  /**
   * find_node succeeds at the start node when the test does; otherwise it
   * returns the first success in pre-order, every earlier node of the
   * subtree having been tried and failed in the environment the tries
   * before it left; it fails only when every node of the subtree failed.
   */
  lemma FindNodeSpec(m: Matcher, leaf: LeafTest, n: Node, env: Env)
    requires Valid(n)
    ensures MatchNode(m, leaf, n, env).node.Some? ==> FindNode(m, leaf, n, env) == MatchNode(m, leaf, n, env)
    ensures var order := PreOrder(n);
      FindNode(m, leaf, n, env).node.None? <==>
        forall k :: 0 <= k < |order| ==> FailsAt(MatchProbe(m, leaf), order, env, k)
    ensures var order := PreOrder(n);
      FindNode(m, leaf, n, env).node.Some? ==>
        exists k :: 0 <= k < |order| && IsDescendant(n, order[k]) &&
          (forall j :: 0 <= j < k ==> FailsAt(MatchProbe(m, leaf), order, env, j)) &&
          MatchNode(m, leaf, order[k], EnvBefore(MatchProbe(m, leaf), order, env, k)) == FindNode(m, leaf, n, env)
  {
    var order := PreOrder(n);
    var probe := MatchProbe(m, leaf);
    FindNodeScansPreOrder(m, leaf, n, env);
    ScanFailsIff(probe, order, env);
    if FindNode(m, leaf, n, env).node.Some? {
      ScanFirstSuccess(probe, order, env);
      var k :| 0 <= k < |order| && (forall j :: 0 <= j < k ==> FailsAt(probe, order, env, j)) &&
        probe(order[k], EnvBefore(probe, order, env, k)) == Scan(probe, order, env);
      PreOrderIsSubtree(n, order[k]);
    }
  }

  /**
   * The harvest keeps at most one match per candidate, only matches of
   * candidates, and the match of every candidate that succeeds.
   */
  lemma {:induction false} HarvestSpec(m: Matcher, leaf: LeafTest, cands: seq<Node>)
    ensures |Harvest(m, leaf, cands)| <= |cands|
    ensures forall x :: x in Harvest(m, leaf, cands) ==>
      exists k :: 0 <= k < |cands| && MatchNode(m, leaf, cands[k], EmptyEnv).node == Some(x)
    ensures forall k :: 0 <= k < |cands| && MatchNode(m, leaf, cands[k], EmptyEnv).node.Some? ==>
      MatchNode(m, leaf, cands[k], EmptyEnv).node.value in Harvest(m, leaf, cands)
  {
    if cands != [] {
      var tail := cands[1..];
      HarvestSpec(m, leaf, tail);
      var h := Hit(m, leaf, cands[0]);
      assert Harvest(m, leaf, cands) == h + Harvest(m, leaf, tail);
      forall x | x in Harvest(m, leaf, cands)
        ensures exists k :: 0 <= k < |cands| && MatchNode(m, leaf, cands[k], EmptyEnv).node == Some(x)
      {
        if x in h {
          assert MatchNode(m, leaf, cands[0], EmptyEnv).node == Some(x);
        } else {
          var k :| 0 <= k < |tail| && MatchNode(m, leaf, tail[k], EmptyEnv).node == Some(x);
          assert cands[k + 1] == tail[k];
        }
      }
      forall k | 0 <= k < |cands| && MatchNode(m, leaf, cands[k], EmptyEnv).node.Some?
        ensures MatchNode(m, leaf, cands[k], EmptyEnv).node.value in Harvest(m, leaf, cands)
      {
        if k > 0 {
          assert cands[k] == tail[k - 1];
        }
      }
    }
  }

  /**
   * Harvesting the level order of a node collects, in a fresh environment
   * each, the matches of nodes of its subtree and of nothing else, and the
   * match of every node of the subtree that matches.
   */
  lemma LevelHarvestSpec(m: Matcher, leaf: LeafTest, node: Node)
    requires Valid(node)
    ensures forall x :: x in Harvest(m, leaf, LevelOrder(node)) ==>
      exists c :: IsDescendant(node, c) && MatchNode(m, leaf, c, EmptyEnv).node == Some(x)
    ensures forall c :: IsDescendant(node, c) && MatchNode(m, leaf, c, EmptyEnv).node.Some? ==>
      MatchNode(m, leaf, c, EmptyEnv).node.value in Harvest(m, leaf, LevelOrder(node))
  {
    var order := LevelOrder(node);
    HarvestSpec(m, leaf, order);
    forall x | x in Harvest(m, leaf, order)
      ensures exists c :: IsDescendant(node, c) && MatchNode(m, leaf, c, EmptyEnv).node == Some(x)
    {
      var k :| 0 <= k < |order| && MatchNode(m, leaf, order[k], EmptyEnv).node == Some(x);
      LevelOrderVisitsSubtreeOnce(node, order[k]);
      assert order[k] in multiset(order);
    }
    forall c | IsDescendant(node, c) && MatchNode(m, leaf, c, EmptyEnv).node.Some?
      ensures MatchNode(m, leaf, c, EmptyEnv).node.value in Harvest(m, leaf, order)
    {
      LevelOrderVisitsSubtreeOnce(node, c);
      assert c in order;
      var k :| 0 <= k < |order| && order[k] == c;
    }
  }

  /**
   * find_node_vec: every dequeued candidate is tested in a fresh environment
   * and its match, if any, is appended to the result. The result is the
   * harvest of the level order of the subtree, and so holds at most one match
   * per node of the subtree; no environment of the caller takes part.
   */
  method FindNodeVec(m: Matcher, leaf: LeafTest, node: Node) returns (ret: seq<Node>)
    ensures ret == Harvest(m, leaf, LevelOrder(node))
    ensures |ret| <= |PreOrder(node)|
    ensures Valid(node) ==> forall x :: x in ret ==>
      exists c :: IsDescendant(node, c) && MatchNode(m, leaf, c, EmptyEnv).node == Some(x)
    ensures Valid(node) ==> forall c :: IsDescendant(node, c) && MatchNode(m, leaf, c, EmptyEnv).node.Some? ==>
      MatchNode(m, leaf, c, EmptyEnv).node.value in ret
  {
    ret := [];
    var queue := [node];
    while queue != []
      invariant ret + Harvest(m, leaf, Bfs(queue)) == Harvest(m, leaf, LevelOrder(node))
      decreases |QueueForest(queue)|
    {
      var cand := queue[0];
      var env := EmptyEnv;
      var r := MatchNode(m, leaf, cand, env);
      HarvestAdvance(m, leaf, queue, ret, Harvest(m, leaf, LevelOrder(node)), r);
      queue := queue[1..] + Children(cand);
      if r.node.Some? {
        ret := ret + [r.node.value];
      }
    }
    HarvestSpec(m, leaf, LevelOrder(node));
    LevelOrderLength(node);
    if Valid(node) {
      LevelHarvestSpec(m, leaf, node);
    }
  }
}
