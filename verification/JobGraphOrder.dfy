/**
 The graph the scheduler works on: direct dependencies, closed under transitivity along an order
 in which every dependency comes first.
 */
module JobGraphOrder {
  import JobGraphModel

  /** In the overall order a job comes after everything it depends on. */
  ghost predicate Ordered(direct: seq<set<nat>>) {
    forall i, d :: 0 <= i < |direct| && d in direct[i] ==> d < i
  }

  function Closure(direct: seq<set<nat>>, i: nat): (r: set<nat>)
    requires Ordered(direct) && i < |direct|
    ensures forall d :: d in r ==> d < i
    decreases i
  {
    direct[i] + set d, t | d in direct[i] && t in Closure(direct, d) :: t
  }

  /** A chain of direct dependencies from its first job to its last. */
  ghost predicate IsChain(direct: seq<set<nat>>, chain: seq<nat>) {
    && |chain| >= 2
    && (forall k :: 0 <= k < |chain| ==> chain[k] < |direct|)
    && (forall k :: 0 <= k < |chain| - 1 ==> chain[k + 1] in direct[chain[k]])
  }

  lemma {:induction false} ChainFor(direct: seq<set<nat>>, i: nat, d: nat) returns (chain: seq<nat>)
    requires Ordered(direct) && i < |direct| && d in Closure(direct, i)
    ensures IsChain(direct, chain) && chain[0] == i && chain[|chain| - 1] == d
    decreases i
  {
    if d in direct[i] {
      chain := [i, d];
    } else {
      var m :| m in direct[i] && d in Closure(direct, m);
      var rest := ChainFor(direct, m, d);
      chain := [i] + rest;
    }
  }

  lemma {:induction false} ChainEndsInClosure(direct: seq<set<nat>>, chain: seq<nat>)
    requires Ordered(direct) && IsChain(direct, chain)
    ensures chain[|chain| - 1] in Closure(direct, chain[0])
    decreases |chain|
  {
    assert chain[0 + 1] in direct[chain[0]];
    if |chain| > 2 {
      var rest := chain[1..];
      forall k | 0 <= k < |rest| - 1 ensures rest[k + 1] in direct[rest[k]] {
        assert chain[(k + 1) + 1] in direct[chain[k + 1]];
      }
      ChainEndsInClosure(direct, rest);
    }
  }

  /** A job's dependencies are exactly the jobs some chain of direct dependencies leads to. */
  lemma ClosureIsReachability(direct: seq<set<nat>>, i: nat, d: nat)
    requires Ordered(direct) && i < |direct|
    ensures d in Closure(direct, i)
            <==> exists chain :: IsChain(direct, chain) && chain[0] == i && chain[|chain| - 1] == d
  {
    if d in Closure(direct, i) {
      var chain := ChainFor(direct, i, d);
    }
    if chain :| IsChain(direct, chain) && chain[0] == i && chain[|chain| - 1] == d {
      ChainEndsInClosure(direct, chain);
    }
  }

  /** The graph the scheduler works on. */
  function GraphOf(direct: seq<set<nat>>, nodes: seq<nat>, concurrency: int): (g: JobGraphModel.Graph)
    requires Ordered(direct)
    requires forall k :: 0 <= k < |nodes| ==> nodes[k] < |direct|
    requires forall i :: 0 <= i < |direct| ==> i in nodes
    ensures g.Valid() && |g.deps| == |direct|
    ensures forall i :: 0 <= i < |direct| ==> direct[i] <= g.deps[i]
    ensures forall i, d :: 0 <= i < |direct| && d in g.deps[i] ==> g.deps[d] <= g.deps[i]
  {
    forall i, d, t | 0 <= i < |direct| && d in Closure(direct, i) && t in Closure(direct, d)
      ensures t in Closure(direct, i)
    {
      ClosureIsTransitive(direct, i, d, t);
    }
    JobGraphModel.Graph(seq(|direct|, i requires 0 <= i < |direct| => Closure(direct, i)), nodes, concurrency)
  }

  lemma {:induction false} ClosureIsTransitive(direct: seq<set<nat>>, i: nat, d: nat, t: nat)
    requires Ordered(direct) && i < |direct|
    ensures d in Closure(direct, i) && t in Closure(direct, d) ==> t in Closure(direct, i)
    decreases i
  {
    if d in Closure(direct, i) && d !in direct[i] {
      var m :| m in direct[i] && d in Closure(direct, m);
      ClosureIsTransitive(direct, m, d, t);
    }
  }
}
