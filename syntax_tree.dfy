/**
 * The syntax tree the matchers walk. The real tree belongs to the parser;
 * the rule layer only asks a node for its children (in source order) and
 * for its parent. A node handle is the tree it lives in together with the
 * child indices that lead to it from the root, so the parent of a node is
 * its path without the last index and its i-th child appends i.
 */
module SyntaxTree {
  import opened Wrappers

  /** A syntax node: its source text and its children in source order. */
  datatype Tree = Tree(text: string, kids: seq<Tree>)

  type Path = seq<nat>

  /** A handle on one node of `root`. */
  datatype Node = Node(root: Tree, path: Path)

  /** The subtree of `t` that `p` leads to, if `p` is a path of `t`. */
  function SubtreeAt(t: Tree, p: Path): Option<Tree>
    decreases |p|
  {
    if p == [] then Some(t)
    else
      match SubtreeAt(t, p[..|p| - 1])
      case None => None
      case Some(s) =>
        if p[|p| - 1] < |s.kids| then Some(s.kids[p[|p| - 1]]) else None
  }

  /** The handle designates an existing node of its tree. */
  predicate Valid(n: Node) {
    SubtreeAt(n.root, n.path).Some?
  }

  /** The syntax below a node (an empty leaf for a handle that designates nothing). */
  function Syntax(n: Node): Tree {
    match SubtreeAt(n.root, n.path)
    case Some(s) => s
    case None => Tree("", [])
  }

  function Depth(n: Node): nat {
    |n.path|
  }

  function Child(n: Node, i: nat): Node {
    Node(n.root, n.path + [i])
  }

  /** The direct children of a node, in source order. */
  function Children(n: Node): seq<Node> {
    seq(|Syntax(n).kids|, i requires 0 <= i => Child(n, i))
  }

  /** The immediate parent; the root has none. */
  function Parent(n: Node): Option<Node> {
    if n.path == [] then None else Some(Node(n.root, n.path[..|n.path| - 1]))
  }

  /** `u` lies in the subtree rooted at `n` (`n` included). */
  predicate IsDescendant(n: Node, u: Node) {
    u.root == n.root && n.path <= u.path && Valid(u)
  }

  /** The proper ancestors of a node, nearest first, ending with the root. */
  function Ancestors(n: Node): seq<Node>
    decreases |n.path|
  {
    match Parent(n)
    case None => []
    case Some(p) => [p] + Ancestors(p)
  }

  /** The i-th child of a node holds the i-th subtree of the node's syntax. */
  lemma ChildSyntax(n: Node, i: nat)
    requires i < |Syntax(n).kids|
    ensures Valid(n) && Valid(Child(n, i))
    ensures Syntax(Child(n, i)) == Syntax(n).kids[i]
    ensures Depth(Child(n, i)) == Depth(n) + 1
    ensures Parent(Child(n, i)) == Some(n)
  {
    var p := n.path + [i];
    assert p[..|p| - 1] == n.path;
  }

  /** Every prefix of a valid path is a valid path. */
  lemma {:induction false} ValidPrefix(t: Tree, p: Path, q: Path)
    requires SubtreeAt(t, p).Some?
    requires q <= p
    ensures SubtreeAt(t, q).Some?
    decreases |p|
  {
    if |q| < |p| {
      assert q <= p[..|p| - 1];
      ValidPrefix(t, p[..|p| - 1], q);
    } else {
      assert q == p;
    }
  }

  /**
   * The parent walk visits exactly the proper ancestors: one per strictly
   * shorter prefix of the path, nearest first; the node itself is never in it.
   */
  lemma {:induction false} AncestorsAreProperPrefixes(n: Node)
    ensures |Ancestors(n)| == |n.path|
    ensures forall k :: 0 <= k < |Ancestors(n)| ==>
      Ancestors(n)[k] == Node(n.root, n.path[..|n.path| - 1 - k])
    ensures Valid(n) ==> forall a :: a in Ancestors(n) ==> Valid(a) && IsDescendant(a, n) && a != n
    decreases |n.path|
  {
    match Parent(n)
    case None =>
    case Some(p) =>
      AncestorsAreProperPrefixes(p);
      forall k | 0 <= k < |Ancestors(n)|
        ensures Ancestors(n)[k] == Node(n.root, n.path[..|n.path| - 1 - k])
      {
        if k > 0 {
          assert Ancestors(n)[k] == Ancestors(p)[k - 1];
          assert p.path[..|p.path| - 1 - (k - 1)] == n.path[..|n.path| - 1 - k];
        }
      }
      if Valid(n) {
        forall a | a in Ancestors(n)
          ensures Valid(a) && IsDescendant(a, n) && a != n
        {
          var k :| 0 <= k < |Ancestors(n)| && Ancestors(n)[k] == a;
          assert a.path <= n.path;
          ValidPrefix(n.root, n.path, a.path);
        }
      }
  }
}
