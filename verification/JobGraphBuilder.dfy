/**
 Finalizing a job graph: the empty jobs are taken out, and so is every dependency on them; which orders between
 the real jobs that keeps, and which it loses.
 */
module JobGraphBuilder {

  /** A registered node and the names of its direct dependencies. */
  datatype Node = Node(name: string, dependencies: set<string>, empty: bool)

  function EmptyNames(nodes: seq<Node>): (names: set<string>)
    ensures forall name :: name in names <==> exists k :: 0 <= k < |nodes| && nodes[k].empty && nodes[k].name == name
  {
    set k | 0 <= k < |nodes| && nodes[k].empty :: nodes[k].name
  }

  /** `removeDependency` at every node. */
  function Strip(nodes: seq<Node>, names: set<string>): (stripped: seq<Node>)
    ensures |stripped| == |nodes|
    ensures forall k :: 0 <= k < |nodes| ==> stripped[k] == nodes[k].(dependencies := nodes[k].dependencies - names)
  {
    seq(|nodes|, k requires 0 <= k < |nodes| => nodes[k].(dependencies := nodes[k].dependencies - names))
  }

  /** The nodes that are real jobs, in their order. */
  function Real(nodes: seq<Node>): (real_: seq<Node>)
    ensures forall node :: node in real_ <==> node in nodes && !node.empty
  {
    if nodes == [] then []
    else if nodes[|nodes| - 1].empty then Real(nodes[..|nodes| - 1])
    else Real(nodes[..|nodes| - 1]) + [nodes[|nodes| - 1]]
  }

  function Finalized(nodes: seq<Node>): seq<Node> {
    Real(Strip(nodes, EmptyNames(nodes)))
  }

  // ------------------------------------------------------------------ dependencies

  /** `a` is a registered node that names `b` among its dependencies. */
  ghost predicate DependsOn(nodes: seq<Node>, a: string, b: string) {
    exists k :: 0 <= k < |nodes| && nodes[k].name == a && b in nodes[k].dependencies
  }

  /** A chain of direct dependencies. */
  ghost predicate IsChain(nodes: seq<Node>, chain: seq<string>) {
    |chain| >= 2 && forall k :: 0 <= k < |chain| - 1 ==> DependsOn(nodes, chain[k], chain[k + 1])
  }

  /** Names are not given twice: the constructor of the graph refuses that. */
  ghost predicate DistinctNames(nodes: seq<Node>) {
    forall i, j :: 0 <= i < j < |nodes| ==> nodes[i].name != nodes[j].name
  }

  /**
   What finalizing keeps of the dependencies, direct and indirect: exactly the chains that touch no
   empty job.  So no cycle is made, and an order that went through an empty job is lost.
   */
  lemma ChainsKeptExactly(nodes: seq<Node>, chain: seq<string>)
    requires DistinctNames(nodes)
    ensures IsChain(Finalized(nodes), chain) <==>
              IsChain(nodes, chain) && forall k :: 0 <= k < |chain| ==> chain[k] !in EmptyNames(nodes)
  {
    if |chain| >= 2 {
      forall k | 0 <= k < |chain| - 1
        ensures DependsOn(Finalized(nodes), chain[k], chain[k + 1]) <==>
                  DependsOn(nodes, chain[k], chain[k + 1]) && chain[k] !in EmptyNames(nodes)
                  && chain[k + 1] !in EmptyNames(nodes)
      {
      }
      hide Finalized, EmptyNames, DependsOn;
      if IsChain(Finalized(nodes), chain) {
        forall k | 0 <= k < |chain| ensures chain[k] !in EmptyNames(nodes) {
          if k < |chain| - 1 {
            assert DependsOn(Finalized(nodes), chain[k], chain[k + 1]);
          } else {
            assert DependsOn(Finalized(nodes), chain[k - 1], chain[k - 1 + 1]);
          }
        }
      }
    }
  }

  /** Every remaining node is a real job, with all its dependencies but those on empty jobs. */
  lemma RealJobsRemain(nodes: seq<Node>, node: Node)
    ensures node in Real(nodes) ==> node.(dependencies := node.dependencies - EmptyNames(nodes)) in Finalized(nodes)
    ensures node in Finalized(nodes) ==> !node.empty && node.dependencies !! EmptyNames(nodes)
  {
    var stripped := Strip(nodes, EmptyNames(nodes));
    if node in Real(nodes) {
      var k :| 0 <= k < |nodes| && nodes[k] == node;
      assert stripped[k] in Real(stripped);
    }
    if node in Finalized(nodes) {
      var k :| 0 <= k < |stripped| && stripped[k] == node;
    }
  }

  ghost predicate Ascending(ks: seq<nat>) {
    forall i, j :: 0 <= i < j < |ks| ==> ks[i] < ks[j]
  }

  /** The positions of the real jobs. */
  function RealPositions(nodes: seq<Node>): (ks: seq<nat>)
    ensures Ascending(ks) && forall k: nat :: k in ks <==> k < |nodes| && !nodes[k].empty
    ensures forall j :: 0 <= j < |ks| ==> ks[j] < |nodes|
  {
    if nodes == [] then []
    else
      var front, last := RealPositions(nodes[..|nodes| - 1]), |nodes| - 1;
      if nodes[last].empty then front else front + [last]
  }

  /** The nodes at these positions. */
  function Picked(nodes: seq<Node>, ks: seq<nat>): (picked: seq<Node>)
    requires forall j :: 0 <= j < |ks| ==> ks[j] < |nodes|
    ensures |picked| == |ks| && forall j :: 0 <= j < |ks| ==> picked[j] == nodes[ks[j]]
  {
    seq(|ks|, j requires 0 <= j < |ks| => nodes[ks[j]])
  }

  lemma PickedBefore(nodes: seq<Node>, node: Node, ks: seq<nat>)
    requires forall j :: 0 <= j < |ks| ==> ks[j] < |nodes|
    ensures Picked(nodes + [node], ks) == Picked(nodes, ks)
    ensures Picked(nodes + [node], ks + [|nodes|]) == Picked(nodes, ks) + [node]
  {
  }

  lemma {:induction false} RealAtPositions(nodes: seq<Node>)
    ensures Real(nodes) == Picked(nodes, RealPositions(nodes))
  {
    hide Picked, Ascending;
    if nodes != [] {
      var front, last := nodes[..|nodes| - 1], nodes[|nodes| - 1];
      assert front + [last] == nodes;
      RealAtPositions(front);
      PickedBefore(front, last, RealPositions(front));
      assert RealPositions(nodes) == RealPositions(front) + if last.empty then [] else [|front|];
    }
  }

  /** The name is that of an empty job. */
  ghost predicate NamesEmpty(nodes: seq<Node>, name: string) {
    exists k :: 0 <= k < |nodes| && nodes[k].empty && nodes[k].name == name
  }

  /** `real_` is what is left of `node`: all of it, but its dependencies on empty jobs. */
  ghost predicate IsStripped(nodes: seq<Node>, node: Node, real_: Node) {
    && real_.name == node.name && real_.empty == node.empty
    && forall name :: name in real_.dependencies <==> name in node.dependencies && !NamesEmpty(nodes, name)
  }

  /** The real jobs are left, each once and in their order. */
  lemma FinalizedInOrder(nodes: seq<Node>)
    ensures |Finalized(nodes)| == |RealPositions(nodes)|
    ensures forall j :: 0 <= j < |Finalized(nodes)| ==>
      IsStripped(nodes, nodes[RealPositions(nodes)[j]], Finalized(nodes)[j])
  {
    StripReal(nodes, EmptyNames(nodes));
    RealAtPositions(nodes);
    hide Real, RealPositions;
  }

  /** An order that goes through an empty job does not outlive finalizing. */
  lemma OrderThroughEmptyJobIsLost()
    ensures var nodes := [Node("a", {"group"}, false), Node("group", {"b"}, true), Node("b", {}, false)];
      && IsChain(nodes, ["a", "group", "b"]) && DistinctNames(nodes)
      && !DependsOn(Finalized(nodes), "a", "b") && !DependsOn(Finalized(nodes), "a", "group")
  {
    var nodes := [Node("a", {"group"}, false), Node("group", {"b"}, true), Node("b", {}, false)];
    assert nodes[0].name == "a" && nodes[1].name == "group" && nodes[2].name == "b";
    assert nodes[1].empty;
    assert forall k :: 0 <= k < |nodes| && nodes[k].name == "a" ==> k == 0;
  }

  // --------------------------------------------------------------------- methods

  class Builder {
    var nodes: seq<Node>
    var finalized: bool

    constructor ()
      ensures nodes == [] && !finalized
    {
      nodes, finalized := [], false;
    }

    /** False if it throws, as it does once the graph is finalized. */
    method AddNode(node: Node) returns (ok: bool)
      modifies this
      ensures ok == !old(finalized) && finalized == old(finalized)
      ensures nodes == if ok then old(nodes) + [node] else old(nodes)
    {
      if finalized {
        return false;
      }
      nodes := nodes + [node];
      return true;
    }

    method RemoveNode(at: nat)
      requires at < |nodes| && !finalized
      modifies `nodes
      ensures nodes == Strip(old(nodes)[..at] + old(nodes)[at + 1..], {old(nodes)[at].name})
    {
      var name := nodes[at].name;
      nodes := nodes[..at] + nodes[at + 1..];
      for k := 0 to |nodes|
        invariant |nodes| == |old(nodes)| - 1
        invariant nodes[k..] == (old(nodes)[..at] + old(nodes)[at + 1..])[k..]
        invariant nodes[..k] == Strip(old(nodes)[..at] + old(nodes)[at + 1..], {name})[..k]
      {
        nodes := nodes[k := nodes[k].(dependencies := nodes[k].dependencies - {name})];
      }
    }

    /** The loop over the nodes as they were, each empty one removed in its turn. */
    method Finalize()
      modifies this
      ensures nodes == if old(finalized) then old(nodes) else Finalized(old(nodes))
      ensures finalized
    {
      if finalized {
        return;
      }
      hide Strip, Real, EmptyNames, Done, Finalized;
      var at := 0;
      ghost var all := nodes;
      NothingDone(all);
      for k := 0 to |nodes|
        invariant !finalized && k <= |all| && nodes == Done(all, k) && at == |Real(all[..k])|
        invariant |all| - k == |nodes| - at
      {
        DoneAt(all, k);
        if nodes[at].empty {
          EmptyDone(all, k);
          RemoveNode(at);
        } else {
          RealDone(all, k);
          at := at + 1;
        }
      }
      AllDone(all);
      finalized := true;
    }
  }

  /** The nodes when the loop has seen `k` of them. */
  function Done(all: seq<Node>, k: nat): seq<Node>
    requires k <= |all|
  {
    Strip(Real(all[..k]) + all[k..], EmptyNames(all[..k]))
  }

  lemma AllDone(all: seq<Node>)
    ensures Done(all, |all|) == Finalized(all)
  {
    hide Strip, Real, EmptyNames;
    assert all[..|all|] == all;
    assert Real(all) + all[|all|..] == Real(all);
    StripReal(all, EmptyNames(all));
  }

  lemma NothingDone(all: seq<Node>)
    ensures Done(all, 0) == all && Real(all[..0]) == []
  {
    assert EmptyNames(all[..0]) == {};
    assert [] + all == all;
    forall k | 0 <= k < |all| ensures Strip(all, {})[k] == all[k] {
      assert all[k].dependencies - {} == all[k].dependencies;
    }
    assert Strip(all, {}) == all;
  }

  lemma DoneAt(all: seq<Node>, k: nat)
    requires k < |all|
    ensures var at := |Real(all[..k])|; var done := Done(all, k);
      at < |done| && done[at].empty == all[k].empty && done[at].name == all[k].name
    ensures |Done(all, k)| == |Real(all[..k])| + |all| - k
  {
    assert (Real(all[..k]) + all[k..])[|Real(all[..k])|] == all[k];
  }

  lemma OneMoreReal(all: seq<Node>, k: nat)
    requires k < |all|
    ensures Real(all[..k + 1]) == if all[k].empty then Real(all[..k]) else Real(all[..k]) + [all[k]]
    ensures !all[k].empty ==> Real(all[..k + 1]) + all[k + 1..] == Real(all[..k]) + all[k..]
  {
    assert all[..k + 1][..k] == all[..k];
    assert all[k..] == [all[k]] + all[k + 1..];
  }

  lemma RealDone(all: seq<Node>, k: nat)
    requires k < |all| && !all[k].empty
    ensures |Real(all[..k + 1])| == |Real(all[..k])| + 1 && Done(all, k + 1) == Done(all, k)
  {
    hide Real, Strip, EmptyNames;
    OneMoreReal(all, k);
    OneMoreName(all, k);
    assert EmptyNames(all[..k]) + {} == EmptyNames(all[..k]);
  }

  lemma EmptyDone(all: seq<Node>, k: nat)
    requires k < |all| && all[k].empty && |Real(all[..k])| < |Done(all, k)|
    ensures Real(all[..k + 1]) == Real(all[..k])
    ensures var at := |Real(all[..k])|; var done := Done(all, k);
      Done(all, k + 1) == Strip(done[..at] + done[at + 1..], {all[k].name})
  {
    hide Real, Strip, EmptyNames;
    OneMoreReal(all, k);
    OneMoreName(all, k);
    var front := Real(all[..k]);
    WithoutOne(front, all, k);
    StripTwice(front + all[k..], |front|, EmptyNames(all[..k]), all[k].name);
  }

  lemma WithoutOne(front: seq<Node>, all: seq<Node>, k: nat)
    requires k < |all|
    ensures (front + all[k..])[..|front|] + (front + all[k..])[|front| + 1..] == front + all[k + 1..]
  {
  }

  lemma StripTwice(nodes: seq<Node>, at: nat, names: set<string>, name: string)
    requires at < |nodes|
    ensures var done := Strip(nodes, names);
      Strip(done[..at] + done[at + 1..], {name}) == Strip(nodes[..at] + nodes[at + 1..], names + {name})
  {
    var done := Strip(nodes, names);
    var left, right := Strip(done[..at] + done[at + 1..], {name}), Strip(nodes[..at] + nodes[at + 1..], names + {name});
    forall k | 0 <= k < |left| ensures left[k] == right[k] {
      var node := if k < at then nodes[k] else nodes[k + 1];
      assert node.dependencies - names - {name} == node.dependencies - (names + {name});
    }
  }

  lemma OneMoreName(nodes: seq<Node>, k: nat)
    requires k < |nodes|
    ensures EmptyNames(nodes[..k + 1]) == EmptyNames(nodes[..k]) + if nodes[k].empty then {nodes[k].name} else {}
  {
  }

  lemma {:induction false} StripReal(nodes: seq<Node>, names: set<string>)
    ensures Strip(Real(nodes), names) == Real(Strip(nodes, names))
  {
    if nodes != [] {
      StripReal(nodes[..|nodes| - 1], names);
      assert Strip(nodes, names)[..|nodes| - 1] == Strip(nodes[..|nodes| - 1], names);
    }
  }
}
