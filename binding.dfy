/**
 * The binding environment and the shape of one match attempt. The
 * environment's storage is opaque to the rule layer: it is created empty and
 * handed from attempt to attempt, each attempt returning the environment it
 * leaves behind together with the node it matched, if any.
 */
module Binding {
  import opened Wrappers
  import opened SyntaxTree

  /** Placeholder captures; the rule layer never looks inside. */
  datatype Env = Env(bindings: map<string, Node>)

  const EmptyEnv: Env := Env(map[])

  /** A structural template, as compiled from its source text. */
  datatype Pattern = Pattern(source: string)

  /** What one attempt returns: the matched node, if any, and the environment it leaves. */
  datatype Outcome = Outcome(node: Option<Node>, env: Env)

  /** The single-pattern matcher that lives outside the rule layer. */
  type LeafTest = (Pattern, Node, Env) -> Outcome

  /** One attempt at one node in a given environment. */
  type Probe = (Node, Env) -> Outcome

  /**
   * Attempts `probe` at each node in turn, handing each attempt the
   * environment the previous one left, and stops at the first success.
   */
  function Scan(probe: Probe, xs: seq<Node>, env: Env): Outcome {
    if xs == [] then Outcome(None, env)
    else
      var r := probe(xs[0], env);
      if r.node.Some? then r else Scan(probe, xs[1..], r.env)
  }

  /** The environment the k-th attempt of a scan starts from, once the first k have failed. */
  function EnvBefore(probe: Probe, xs: seq<Node>, env: Env, k: nat): Env
    requires k <= |xs|
    decreases k
  {
    if k == 0 then env else EnvBefore(probe, xs[1..], probe(xs[0], env).env, k - 1)
  }

  /** The k-th attempt of a scan fails, given that it is reached. */
  predicate FailsAt(probe: Probe, xs: seq<Node>, env: Env, k: nat)
    requires k < |xs|
  {
    probe(xs[k], EnvBefore(probe, xs, env, k)).node.None?
  }

  /**
   * A scan fails exactly when every attempt fails, each in the environment the
   * failed attempts before it left, and then it leaves the environment of the
   * last attempt.
   */
  lemma {:induction false} ScanFailsIff(probe: Probe, xs: seq<Node>, env: Env)
    ensures Scan(probe, xs, env).node.None? <==>
      forall k :: 0 <= k < |xs| ==> FailsAt(probe, xs, env, k)
    ensures Scan(probe, xs, env).node.None? ==>
      Scan(probe, xs, env).env == EnvBefore(probe, xs, env, |xs|)
  {
    if xs != [] {
      var r := probe(xs[0], env);
      var tail := xs[1..];
      ScanFailsIff(probe, tail, r.env);
      if r.node.Some? {
        assert !FailsAt(probe, xs, env, 0);
      } else {
        assert FailsAt(probe, xs, env, 0);
        forall k | 0 <= k < |tail|
          ensures FailsAt(probe, xs, env, k + 1) <==> FailsAt(probe, tail, r.env, k)
        {
          assert xs[k + 1] == tail[k];
        }
        if Scan(probe, tail, r.env).node.None? {
          forall k | 0 <= k < |xs| ensures FailsAt(probe, xs, env, k) {
            if k > 0 { assert FailsAt(probe, tail, r.env, k - 1); }
          }
        } else {
          var k :| 0 <= k < |tail| && !FailsAt(probe, tail, r.env, k);
          assert !FailsAt(probe, xs, env, k + 1);
        }
      }
    }
  }

  /**
   * A scan that succeeds returns the outcome of its first successful
   * attempt, every attempt before it having failed.
   */
  lemma {:induction false} ScanFirstSuccess(probe: Probe, xs: seq<Node>, env: Env)
    requires Scan(probe, xs, env).node.Some?
    ensures exists k :: 0 <= k < |xs| && (forall j :: 0 <= j < k ==> FailsAt(probe, xs, env, j)) &&
                        probe(xs[k], EnvBefore(probe, xs, env, k)) == Scan(probe, xs, env)
  {
    var r := probe(xs[0], env);
    if r.node.Some? {
      assert probe(xs[0], EnvBefore(probe, xs, env, 0)) == Scan(probe, xs, env);
    } else {
      var tail := xs[1..];
      ScanFirstSuccess(probe, tail, r.env);
      var k :| 0 <= k < |tail| && (forall j :: 0 <= j < k ==> FailsAt(probe, tail, r.env, j)) &&
        probe(tail[k], EnvBefore(probe, tail, r.env, k)) == Scan(probe, tail, r.env);
      assert xs[k + 1] == tail[k];
      assert FailsAt(probe, xs, env, 0);
      forall j | 0 <= j < k + 1 ensures FailsAt(probe, xs, env, j) {
        if j > 0 {
          assert FailsAt(probe, tail, r.env, j - 1);
          assert xs[j] == tail[j - 1];
        }
      }
      assert probe(xs[k + 1], EnvBefore(probe, xs, env, k + 1)) == Scan(probe, xs, env);
    }
  }

  /** Scanning a concatenation scans the second part only if the first found nothing. */
  lemma {:induction false} ScanAppend(probe: Probe, xs: seq<Node>, ys: seq<Node>, env: Env)
    ensures Scan(probe, xs + ys, env) ==
      var r := Scan(probe, xs, env);
      if r.node.Some? then r else Scan(probe, ys, r.env)
  {
    if xs == [] {
      assert xs + ys == ys;
    } else {
      assert (xs + ys)[1..] == xs[1..] + ys;
      ScanAppend(probe, xs[1..], ys, probe(xs[0], env).env);
    }
  }
}
