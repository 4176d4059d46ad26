/**
 * The two orders in which the searches of the rule layer visit a subtree:
 * pre-order (a node, then each child's subtree in source order) for the
 * first-match search, and level order (a FIFO queue seeded with the node,
 * each dequeued node's children appended in source order) for the
 * enumerate-all search.
 */
module Traversal {
  import opened Wrappers
  import opened SyntaxTree

  /** The subtree of `n` in pre-order. */
  function PreOrder(n: Node): seq<Node>
    decreases Syntax(n), |Syntax(n).kids| + 1
  {
    [n] + PreOrderKids(n, 0)
  }

  /** The pre-orders of the children of `n` from the i-th on, one after the other. */
  function PreOrderKids(n: Node, i: nat): seq<Node>
    requires i <= |Syntax(n).kids|
    decreases Syntax(n), |Syntax(n).kids| - i
  {
    if i == |Syntax(n).kids| then []
    else
      ChildSyntax(n, i);
      PreOrder(Child(n, i)) + PreOrderKids(n, i + 1)
  }

  /** The subtrees of every queued node, in pre-order, one after the other. */
  function QueueForest(queue: seq<Node>): seq<Node> {
    if queue == [] then [] else PreOrder(queue[0]) + QueueForest(queue[1..])
  }

  /**
   * The order in which a FIFO queue dequeues nodes when each dequeued node's
   * children are appended to the back of the queue.
   */
  function Bfs(queue: seq<Node>): seq<Node>
    decreases |QueueForest(queue)|
  {
    if queue == [] then []
    else
      QueueShrinks(queue);
      [queue[0]] + Bfs(queue[1..] + Children(queue[0]))
  }

  /** The subtree of `n` in the order the enumerate-all search dequeues it. */
  function LevelOrder(n: Node): seq<Node> {
    Bfs([n])
  }

  predicate Distinct(s: seq<Node>) {
    forall i, j :: 0 <= i < j < |s| ==> s[i] != s[j]
  }

  /** Every node is at least as deep as the nodes before it. */
  predicate LevelSorted(s: seq<Node>) {
    forall i, j :: 0 <= i <= j < |s| ==> Depth(s[i]) <= Depth(s[j])
  }

  lemma {:induction false} QueueForestAppend(a: seq<Node>, b: seq<Node>)
    ensures QueueForest(a + b) == QueueForest(a) + QueueForest(b)
  {
    if a != [] {
      assert (a + b)[1..] == a[1..] + b;
      QueueForestAppend(a[1..], b);
    } else {
      assert a + b == b;
    }
  }

  /** Enqueuing the children of `n` in source order enqueues the pre-order of its proper descendants. */
  lemma {:induction false} QueueForestOfChildren(n: Node, i: nat)
    requires i <= |Syntax(n).kids|
    ensures QueueForest(Children(n)[i..]) == PreOrderKids(n, i)
    decreases |Syntax(n).kids| - i
  {
    if i < |Syntax(n).kids| {
      assert Children(n)[i..][1..] == Children(n)[i + 1..];
      QueueForestOfChildren(n, i + 1);
    }
  }

  /** Dequeuing a node and enqueuing its children removes exactly one node from the work left. */
  lemma QueueShrinks(queue: seq<Node>)
    requires queue != []
    ensures |QueueForest(queue[1..] + Children(queue[0]))| + 1 == |QueueForest(queue)|
  {
    QueueForestAppend(queue[1..], Children(queue[0]));
    QueueForestOfChildren(queue[0], 0);
    assert Children(queue[0])[0..] == Children(queue[0]);
  }

  /**
   * Pre-order lists exactly the nodes of the subtree: forward, every listed
   * node is a descendant; backward, every descendant is listed.
   */
  lemma {:induction false} PreOrderIsSubtree(n: Node, u: Node)
    requires Valid(n)
    ensures u in PreOrder(n) <==> IsDescendant(n, u)
    decreases Syntax(n), |Syntax(n).kids| + 1
  {
    if u != n {
      PreOrderKidsAreSubtrees(n, 0, u);
      if IsDescendant(n, u) {
        var k := u.path[|n.path|];
        ValidPrefix(n.root, u.path, u.path[..|n.path| + 1]);
        assert u.path[..|n.path| + 1] == n.path + [k];
        assert u.path[..|n.path| + 1][..|n.path|] == n.path;
        assert k < |Syntax(n).kids|;
        assert Child(n, k).path <= u.path;
      }
    }
  }

  lemma {:induction false} PreOrderKidsAreSubtrees(n: Node, i: nat, u: Node)
    requires Valid(n)
    requires i <= |Syntax(n).kids|
    ensures u in PreOrderKids(n, i) <==>
      exists k :: i <= k < |Syntax(n).kids| && IsDescendant(Child(n, k), u)
    decreases Syntax(n), |Syntax(n).kids| - i
  {
    if i < |Syntax(n).kids| {
      ChildSyntax(n, i);
      PreOrderIsSubtree(Child(n, i), u);
      PreOrderKidsAreSubtrees(n, i + 1, u);
      if IsDescendant(Child(n, i), u) {
        assert exists k :: i <= k < |Syntax(n).kids| && IsDescendant(Child(n, k), u);
      }
      if exists k :: i <= k < |Syntax(n).kids| && IsDescendant(Child(n, k), u) {
        var k :| i <= k < |Syntax(n).kids| && IsDescendant(Child(n, k), u);
        if k != i {
          assert exists k' :: i + 1 <= k' < |Syntax(n).kids| && IsDescendant(Child(n, k'), u);
        }
      }
    }
  }

  lemma DistinctConcat(a: seq<Node>, b: seq<Node>)
    requires Distinct(a) && Distinct(b)
    requires forall x :: x in a ==> x !in b
    ensures Distinct(a + b)
  {
    forall i, j | 0 <= i < j < |a + b|
      ensures (a + b)[i] != (a + b)[j]
    {
      if i < |a| && j >= |a| {
        assert (a + b)[i] in a && (a + b)[j] == b[j - |a|];
      }
    }
  }

  /** Each node occurs at most once in the pre-order of a subtree. */
  lemma {:induction false} PreOrderDistinct(n: Node)
    requires Valid(n)
    ensures Distinct(PreOrder(n))
    decreases Syntax(n), |Syntax(n).kids| + 1
  {
    PreOrderKidsDistinct(n, 0);
    forall u | u in PreOrderKids(n, 0)
      ensures u != n
    {
      PreOrderKidsAreSubtrees(n, 0, u);
    }
    DistinctConcat([n], PreOrderKids(n, 0));
  }

  lemma {:induction false} PreOrderKidsDistinct(n: Node, i: nat)
    requires Valid(n)
    requires i <= |Syntax(n).kids|
    ensures Distinct(PreOrderKids(n, i))
    decreases Syntax(n), |Syntax(n).kids| - i
  {
    if i < |Syntax(n).kids| {
      ChildSyntax(n, i);
      PreOrderDistinct(Child(n, i));
      PreOrderKidsDistinct(n, i + 1);
      forall u | u in PreOrder(Child(n, i))
        ensures u !in PreOrderKids(n, i + 1)
      {
        PreOrderIsSubtree(Child(n, i), u);
        assert u.path[..|n.path| + 1] == n.path + [i];
        if u in PreOrderKids(n, i + 1) {
          KidsBranchIndex(n, i + 1, u);
        }
      }
      DistinctConcat(PreOrder(Child(n, i)), PreOrderKids(n, i + 1));
    }
  }

  /** A node in the pre-orders of the children from the i-th on branches off at index i or later. */
  lemma KidsBranchIndex(n: Node, i: nat, u: Node)
    requires Valid(n)
    requires i <= |Syntax(n).kids|
    requires u in PreOrderKids(n, i)
    ensures |u.path| > |n.path| && u.path[|n.path|] >= i
  {
    PreOrderKidsAreSubtrees(n, i, u);
    var k :| i <= k < |Syntax(n).kids| && IsDescendant(Child(n, k), u);
    assert u.path[..|n.path| + 1] == n.path + [k];
  }

  lemma {:induction false} DistinctMultiplicity(s: seq<Node>, x: Node)
    requires Distinct(s)
    ensures multiset(s)[x] == if x in s then 1 else 0
  {
    if s != [] {
      assert s == [s[0]] + s[1..];
      assert Distinct(s[1..]) by {
        forall i, j | 0 <= i < j < |s[1..]| ensures s[1..][i] != s[1..][j] {
          assert s[1..][i] == s[i + 1] && s[1..][j] == s[j + 1];
        }
      }
      DistinctMultiplicity(s[1..], x);
      assert s[0] !in s[1..] by {
        forall k | 0 <= k < |s[1..]| ensures s[1..][k] != s[0] {
          assert s[1..][k] == s[k + 1];
        }
      }
    }
  }

  /** The queue discipline dequeues each node of the queued subtrees once: a permutation of their pre-orders. */
  lemma {:induction false} BfsPermutesForest(queue: seq<Node>)
    ensures multiset(Bfs(queue)) == multiset(QueueForest(queue))
    decreases |QueueForest(queue)|
  {
    if queue != [] {
      var next := queue[1..] + Children(queue[0]);
      QueueShrinks(queue);
      BfsPermutesForest(next);
      QueueForestAppend(queue[1..], Children(queue[0]));
      QueueForestOfChildren(queue[0], 0);
      assert Children(queue[0])[0..] == Children(queue[0]);
    }
  }

  /** One step of the queue: the front node is dequeued and its children join the back. */
  lemma BfsStep(queue: seq<Node>)
    requires queue != []
    ensures Bfs(queue) == [queue[0]] + Bfs(queue[1..] + Children(queue[0]))
    ensures |QueueForest(queue[1..] + Children(queue[0]))| < |QueueForest(queue)|
  {
    QueueShrinks(queue);
  }

  /** The level order lists as many nodes as the pre-order. */
  lemma LevelOrderLength(n: Node)
    ensures |LevelOrder(n)| == |PreOrder(n)|
  {
    BfsPermutesForest([n]);
    assert QueueForest([n]) == PreOrder(n) by {
      assert [n][1..] == [];
    }
    assert |multiset(LevelOrder(n))| == |multiset(PreOrder(n))|;
  }

  /** `p` lies to the left of `q`: they part at an index where `p` is smaller. */
  predicate LexLess(p: Path, q: Path) {
    exists k :: 0 <= k < |p| && k < |q| && p[..k] == q[..k] && p[k] < q[k]
  }

  /** Breadth-first precedence: shallower nodes first, and left to right within a level. */
  predicate Precedes(u: Node, v: Node) {
    Depth(u) < Depth(v) || (Depth(u) == Depth(v) && LexLess(u.path, v.path))
  }

  predicate BreadthFirstSorted(s: seq<Node>) {
    forall i, j :: 0 <= i < j < |s| ==> Precedes(s[i], s[j])
  }

  /**
   * The shape of the search queue: in breadth-first order, spanning at most
   * two consecutive levels, and every queued node of the deeper level hangs
   * below a node that lies to the left of every queued node of the shallower one.
   */
  predicate Frontier(queue: seq<Node>) {
    queue != [] ==>
      var d := Depth(queue[0]);
      BreadthFirstSorted(queue) &&
      (forall k :: 0 <= k < |queue| ==> d <= Depth(queue[k]) <= d + 1) &&
      (forall x, y :: x in queue && y in queue && Depth(x) == d + 1 && Depth(y) == d ==>
        LexLess(x.path[..d], y.path))
  }

  /** Every node listed in a pre-order lies below the node it starts from. */
  lemma PreOrderExtends(n: Node, u: Node)
    requires u in PreOrder(n)
    ensures n.path <= u.path
  {
    if Valid(n) {
      PreOrderIsSubtree(n, u);
    } else {
      assert Syntax(n).kids == [];
      assert PreOrder(n) == [n];
    }
  }

  lemma {:induction false} QueueForestMember(queue: seq<Node>, u: Node)
    requires u in QueueForest(queue)
    ensures exists x :: x in queue && x.path <= u.path
  {
    if u in PreOrder(queue[0]) {
      PreOrderExtends(queue[0], u);
      assert queue[0] in queue;
    } else {
      QueueForestMember(queue[1..], u);
      var x :| x in queue[1..] && x.path <= u.path;
      assert x in queue;
    }
  }

  /** Every node dequeued after the queue's front is a later node in breadth-first order. */
  lemma BfsAfterFront(queue: seq<Node>, front: Node, u: Node)
    requires forall x :: x in queue ==> Precedes(front, x)
    requires u in Bfs(queue)
    ensures Precedes(front, u)
  {
    BfsPermutesForest(queue);
    assert u in multiset(QueueForest(queue));
    QueueForestMember(queue, u);
    var x :| x in queue && x.path <= u.path;
    if x.path != u.path {
      assert Depth(x) < Depth(u);
    } else {
      assert Depth(x) == Depth(u) && x.path == u.path;
    }
  }

  lemma LexLessChildren(n: Node, i: nat, j: nat)
    requires i < j
    ensures LexLess(Child(n, i).path, Child(n, j).path)
  {
    var k := |n.path|;
    assert Child(n, i).path[..k] == n.path == Child(n, j).path[..k];
  }

  lemma LexLessBelow(x: Node, n: Node, i: nat)
    requires Depth(x) == Depth(n) + 1
    requires LexLess(x.path[..Depth(n)], n.path)
    ensures LexLess(x.path, Child(n, i).path)
  {
    var d := Depth(n);
    var k :| 0 <= k < d && k < |n.path| && x.path[..d][..k] == n.path[..k] && x.path[..d][k] < n.path[k];
    assert x.path[..k] == x.path[..d][..k];
    assert Child(n, i).path[..k] == n.path[..k];
  }

  /** Dequeuing one node keeps the shape of the queue, and the dequeued node precedes all that remain. */
  lemma FrontierStep(queue: seq<Node>)
    requires queue != [] && Frontier(queue)
    ensures Frontier(queue[1..] + Children(queue[0]))
    ensures forall x :: x in queue[1..] + Children(queue[0]) ==> Precedes(queue[0], x)
  {
    var next := queue[1..] + Children(queue[0]);
    FrontPrecedesNext(queue);
    if next != [] {
      NextSorted(queue);
      NextSpan(queue);
      NextHangs(queue);
    }
  }

  lemma FrontPrecedesNext(queue: seq<Node>)
    requires queue != [] && Frontier(queue)
    ensures forall x :: x in queue[1..] + Children(queue[0]) ==> Precedes(queue[0], x)
  {
    var rest, kids := queue[1..], Children(queue[0]);
    forall x | x in rest + kids ensures Precedes(queue[0], x) {
      if x in rest {
        var k :| 0 <= k < |rest| && rest[k] == x;
        assert Precedes(queue[0], queue[k + 1]);
      } else {
        var k :| 0 <= k < |kids| && kids[k] == x;
      }
    }
  }

  lemma NextSorted(queue: seq<Node>)
    requires queue != [] && Frontier(queue)
    ensures BreadthFirstSorted(queue[1..] + Children(queue[0]))
  {
    var q0 := queue[0];
    var d := Depth(q0);
    var rest, kids := queue[1..], Children(q0);
    var next := rest + kids;
    forall i, j | 0 <= i < j < |next| ensures Precedes(next[i], next[j]) {
      if j < |rest| {
        assert next[i] == queue[i + 1] && next[j] == queue[j + 1];
      } else if i >= |rest| {
        assert next[i] == Child(q0, i - |rest|) && next[j] == Child(q0, j - |rest|);
        LexLessChildren(q0, i - |rest|, j - |rest|);
      } else {
        var x := next[i];
        assert x == queue[i + 1] && x in queue && next[j] == Child(q0, j - |rest|);
        if Depth(x) == d + 1 {
          assert q0 in queue;
          assert LexLess(x.path[..d], q0.path);
          LexLessBelow(x, q0, j - |rest|);
        }
      }
    }
  }

  lemma NextSpan(queue: seq<Node>)
    requires queue != [] && Frontier(queue)
    requires queue[1..] + Children(queue[0]) != []
    ensures var next := queue[1..] + Children(queue[0]);
      forall k :: 0 <= k < |next| ==> Depth(next[0]) <= Depth(next[k]) <= Depth(next[0]) + 1
  {
    var d := Depth(queue[0]);
    var rest, kids := queue[1..], Children(queue[0]);
    var next := rest + kids;
    forall k | 0 <= k < |next| ensures Depth(next[0]) <= Depth(next[k]) <= Depth(next[0]) + 1 {
      if rest != [] {
        assert next[0] == queue[1];
        if k < |rest| {
          assert next[k] == queue[k + 1];
          if k > 0 { assert Precedes(queue[1], queue[k + 1]); }
        } else {
          assert next[k] == kids[k - |rest|];
        }
      } else {
        assert next[0] == kids[0] && next[k] == kids[k];
      }
    }
  }

  lemma NextDepths(queue: seq<Node>)
    requires queue != [] && Frontier(queue)
    ensures forall z :: z in queue[1..] + Children(queue[0]) ==>
      Depth(queue[0]) <= Depth(z) <= Depth(queue[0]) + 1
  {
    var rest, kids := queue[1..], Children(queue[0]);
    forall z | z in rest + kids ensures Depth(queue[0]) <= Depth(z) <= Depth(queue[0]) + 1 {
      if z in rest {
        var k :| 0 <= k < |rest| && rest[k] == z;
        assert z == queue[k + 1];
      } else {
        var k :| 0 <= k < |kids| && kids[k] == z;
      }
    }
  }

  lemma NextHangs(queue: seq<Node>)
    requires queue != [] && Frontier(queue)
    requires queue[1..] + Children(queue[0]) != []
    ensures var next := queue[1..] + Children(queue[0]);
      var d' := Depth(next[0]);
      forall x, y :: x in next && y in next && Depth(x) == d' + 1 && Depth(y) == d' ==>
        LexLess(x.path[..d'], y.path)
  {
    var next := queue[1..] + Children(queue[0]);
    var d' := Depth(next[0]);
    NextDepths(queue);
    FrontPrecedesNext(queue);
    assert next[0] in next;
    forall x, y | x in next && y in next && Depth(x) == d' + 1 && Depth(y) == d'
      ensures LexLess(x.path[..d'], y.path)
    {
      HangsPair(queue, x, y);
    }
  }

  lemma HangsPair(queue: seq<Node>, x: Node, y: Node)
    requires queue != [] && Frontier(queue)
    requires x in queue[1..] + Children(queue[0]) && y in queue[1..] + Children(queue[0])
    requires Depth(x) == Depth(queue[0]) + 1 && Depth(y) == Depth(queue[0])
    requires Precedes(queue[0], y)
    ensures LexLess(x.path[..Depth(queue[0])], y.path)
  {
    var rest, kids := queue[1..], Children(queue[0]);
    assert forall k :: 0 <= k < |kids| ==> Depth(kids[k]) == Depth(queue[0]) + 1;
    assert y in rest;
    var ky :| 0 <= ky < |rest| && rest[ky] == y;
    assert y == queue[ky + 1];
    if x in rest {
      var kx :| 0 <= kx < |rest| && rest[kx] == x;
      assert x == queue[kx + 1];
    } else {
      var k :| 0 <= k < |kids| && kids[k] == x;
      assert x.path[..Depth(queue[0])] == queue[0].path;
    }
  }

  /** The queue discipline dequeues in breadth-first order, left to right within each level. */
  lemma {:induction false} BfsBreadthFirst(queue: seq<Node>)
    requires Frontier(queue)
    ensures BreadthFirstSorted(Bfs(queue))
    decreases |QueueForest(queue)|
  {
    if queue != [] {
      var next := queue[1..] + Children(queue[0]);
      FrontierStep(queue);
      BfsStep(queue);
      BfsBreadthFirst(next);
      forall u | u in Bfs(next) ensures Precedes(queue[0], u) {
        BfsAfterFront(next, queue[0], u);
      }
      ConsSorted(queue[0], Bfs(next));
    }
  }

  lemma ConsSorted(front: Node, s: seq<Node>)
    requires BreadthFirstSorted(s)
    requires forall u :: u in s ==> Precedes(front, u)
    ensures BreadthFirstSorted([front] + s)
  {
    forall i, j | 0 <= i < j < |[front] + s|
      ensures Precedes(([front] + s)[i], ([front] + s)[j])
    {
      if i == 0 {
        assert ([front] + s)[j] == s[j - 1];
      } else {
        assert ([front] + s)[i] == s[i - 1] && ([front] + s)[j] == s[j - 1];
      }
    }
  }

  /**
   * The enumerate-all search dequeues every node of the subtree exactly once
   * and nothing else, level by level.
   */
  lemma LevelOrderVisitsSubtreeOnce(n: Node, u: Node)
    requires Valid(n)
    ensures multiset(LevelOrder(n))[u] == if IsDescendant(n, u) then 1 else 0
    ensures BreadthFirstSorted(LevelOrder(n))
    ensures LevelSorted(LevelOrder(n))
    ensures |LevelOrder(n)| == |PreOrder(n)|
  {
    BfsPermutesForest([n]);
    assert QueueForest([n]) == PreOrder(n) by {
      assert [n][1..] == [];
    }
    PreOrderDistinct(n);
    DistinctMultiplicity(PreOrder(n), u);
    PreOrderIsSubtree(n, u);
    BfsBreadthFirst([n]);
    LevelOrderLength(n);
    var s := LevelOrder(n);
    forall i, j | 0 <= i <= j < |s| ensures Depth(s[i]) <= Depth(s[j]) {
      if i < j { assert Precedes(s[i], s[j]); }
    }
  }
}
