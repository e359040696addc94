/**
 The service graph of the scheduler: nodes (servlets), pipes between them, paths,
 reachability with one node removed, and the counting facts about pipes that the
 graph check, the critical-node analysis and the cancellation protocol share.
 */
module ServiceGraph {
  import opened FiniteSets
  import opened Sequences

  /** One pipe: from an output of one node to an input of another. */
  datatype Pipe = Pipe(srcNode: nat, srcPipe: nat, dstNode: nat, dstPipe: nat)

  /** Per-node pipe lists plus the entry and exit node of the service. */
  datatype Service = Service(incoming: seq<seq<Pipe>>, outgoing: seq<seq<Pipe>>, input: nat, output: nat)

  /** The error code of a node id: never a node of a graph. */
  const NO_NODE: nat := 0xFFFF_FFFF

  function NodeCount(g: Service): nat {
    |g.outgoing|
  }

  // ----- Counting pipes -----

  /** The number of pipes of `ps` that end in node `v`. */
  function CountTo(ps: seq<Pipe>, v: nat): nat {
    if |ps| == 0 then 0
    else CountTo(ps[..|ps| - 1], v) + if ps[|ps| - 1].dstNode == v then 1 else 0
  }

  /** The number of pipes of `ps` that start in node `u`. */
  function CountFrom(ps: seq<Pipe>, u: nat): nat {
    if |ps| == 0 then 0
    else CountFrom(ps[..|ps| - 1], u) + if ps[|ps| - 1].srcNode == u then 1 else 0
  }

  /** The number of pipes into `v` in the lists of those of the first `k` nodes that are in `s`. */
  function FlowUpTo(lists: seq<seq<Pipe>>, s: set<nat>, v: nat, k: nat): nat
    requires k <= |lists|
  {
    if k == 0 then 0
    else FlowUpTo(lists, s, v, k - 1) + if k - 1 in s then CountTo(lists[k - 1], v) else 0
  }

  /** The number of pipes into `v` that the nodes of `s` own. */
  function Flow(lists: seq<seq<Pipe>>, s: set<nat>, v: nat): nat {
    FlowUpTo(lists, s, v, |lists|)
  }

  /**
   What building a service from its pipe list guarantees: every pipe is filed under its
   source and under its destination, so both sides agree on the number of pipes between
   any two nodes.
   */
  ghost predicate WellFormed(g: Service) {
    && |g.incoming| == NodeCount(g) <= NO_NODE
    && g.input < NodeCount(g)
    && g.output < NodeCount(g)
    && (forall u, j :: 0 <= u < NodeCount(g) && 0 <= j < |g.outgoing[u]| ==>
          g.outgoing[u][j].dstNode < NodeCount(g))
    && (forall v, j :: 0 <= v < NodeCount(g) && 0 <= j < |g.incoming[v]| ==>
          g.incoming[v][j].srcNode < NodeCount(g))
    && (forall u, v :: 0 <= u < NodeCount(g) && 0 <= v < NodeCount(g) ==>
          CountTo(g.outgoing[u], v) == CountFrom(g.incoming[v], u))
  }

  lemma CountToStep(ps: seq<Pipe>, i: nat, v: nat)
    requires i < |ps|
    ensures CountTo(ps[..i + 1], v) == CountTo(ps[..i], v) + if ps[i].dstNode == v then 1 else 0
  {
    assert ps[..i + 1][..i] == ps[..i];
  }

  lemma {:induction false} CountToPositive(ps: seq<Pipe>, v: nat)
    ensures CountTo(ps, v) > 0 <==> exists j :: 0 <= j < |ps| && ps[j].dstNode == v
  {
    if |ps| > 0 {
      var front := ps[..|ps| - 1];
      CountToPositive(front, v);
      assert forall j :: 0 <= j < |front| ==> ps[j] == front[j];
    }
  }

  lemma {:induction false} CountFromPositive(ps: seq<Pipe>, u: nat)
    ensures CountFrom(ps, u) > 0 <==> exists j :: 0 <= j < |ps| && ps[j].srcNode == u
  {
    if |ps| > 0 {
      var front := ps[..|ps| - 1];
      CountFromPositive(front, u);
      assert forall j :: 0 <= j < |front| ==> ps[j] == front[j];
    }
  }

  /** Adding one node to the set adds exactly that node's pipes. */
  lemma {:induction false} FlowAdd(lists: seq<seq<Pipe>>, s: set<nat>, u: nat, v: nat, k: nat)
    requires k <= |lists| && u !in s
    ensures FlowUpTo(lists, s + {u}, v, k) == FlowUpTo(lists, s, v, k) + if u < k then CountTo(lists[u], v) else 0
  {
    if k > 0 {
      FlowAdd(lists, s, u, v, k - 1);
    }
  }

  lemma {:induction false} FlowDisjoint(lists: seq<seq<Pipe>>, s: set<nat>, t: set<nat>, v: nat, k: nat)
    requires k <= |lists| && s !! t
    ensures FlowUpTo(lists, s + t, v, k) == FlowUpTo(lists, s, v, k) + FlowUpTo(lists, t, v, k)
  {
    if k > 0 {
      FlowDisjoint(lists, s, t, v, k - 1);
    }
  }

  lemma {:induction false} FlowZero(lists: seq<seq<Pipe>>, s: set<nat>, v: nat, k: nat)
    requires k <= |lists|
    ensures FlowUpTo(lists, s, v, k) == 0 <==> forall u :: 0 <= u < k && u in s ==> CountTo(lists[u], v) == 0
  {
    if k > 0 {
      FlowZero(lists, s, v, k - 1);
    }
  }

  /** The nodes of the graph. */
  function Nodes(g: Service): set<nat> {
    Below(NodeCount(g))
  }

  function SumFrom(ps: seq<Pipe>, k: nat): nat {
    if k == 0 then 0 else SumFrom(ps, k - 1) + CountFrom(ps, k - 1)
  }

  lemma {:induction false} SumFromTotal(ps: seq<Pipe>, k: nat)
    requires forall j :: 0 <= j < |ps| ==> ps[j].srcNode < k
    ensures SumFrom(ps, k) == |ps|
  {
    if |ps| == 0 {
      SumFromEmpty(k);
    } else {
      SumFromTotal(ps[..|ps| - 1], k);
      SumFromLast(ps, k);
    }
  }

  lemma {:induction false} SumFromEmpty(k: nat)
    ensures SumFrom([], k) == 0
  {
    if k > 0 {
      SumFromEmpty(k - 1);
    }
  }

  lemma {:induction false} SumFromLast(ps: seq<Pipe>, k: nat)
    requires |ps| > 0
    ensures SumFrom(ps, k) == SumFrom(ps[..|ps| - 1], k) + if ps[|ps| - 1].srcNode < k then 1 else 0
  {
    if k > 0 {
      SumFromLast(ps, k - 1);
    }
  }

  lemma {:induction false} FlowIsSumFrom(g: Service, v: nat, k: nat)
    requires WellFormed(g) && v < NodeCount(g) && k <= NodeCount(g)
    ensures FlowUpTo(g.outgoing, Nodes(g), v, k) == SumFrom(g.incoming[v], k)
  {
    if k > 0 {
      FlowIsSumFrom(g, v, k - 1);
    }
  }

  /** All pipes into `v` together are its incoming list. */
  lemma FlowTotal(g: Service, v: nat)
    requires WellFormed(g) && v < NodeCount(g)
    ensures Flow(g.outgoing, Nodes(g), v) == |g.incoming[v]|
  {
    FlowIsSumFrom(g, v, NodeCount(g));
    SumFromTotal(g.incoming[v], NodeCount(g));
  }

  // ----- Edges, paths, reachability -----

  predicate Edge(g: Service, u: nat, v: nat) {
    u < NodeCount(g) && CountTo(g.outgoing[u], v) > 0
  }

  lemma EdgeSeenFromBothEnds(g: Service, u: nat, v: nat)
    requires WellFormed(g) && u < NodeCount(g) && v < NodeCount(g)
    ensures Edge(g, u, v) <==> exists j :: 0 <= j < |g.outgoing[u]| && g.outgoing[u][j].dstNode == v
    ensures Edge(g, u, v) <==> exists j :: 0 <= j < |g.incoming[v]| && g.incoming[v][j].srcNode == u
  {
    CountToPositive(g.outgoing[u], v);
    CountFromPositive(g.incoming[v], u);
  }

  ghost predicate IsPath(g: Service, p: seq<nat>) {
    && |p| > 0
    && (forall i :: 0 <= i < |p| ==> p[i] < NodeCount(g))
    && (forall i, j :: 0 <= i && j == i + 1 && j < |p| ==> Edge(g, p[i], p[j]))
  }

  ghost predicate PathTo(g: Service, p: seq<nat>, u: nat, v: nat) {
    IsPath(g, p) && p[0] == u && p[|p| - 1] == v
  }

  /** `v` is reachable from the input node on a path that does not use `removal`. */
  ghost predicate Reachable(g: Service, removal: nat, v: nat) {
    exists p :: PathTo(g, p, g.input, v) && removal !in p
  }

  ghost predicate AllReachable(g: Service) {
    forall v :: 0 <= v < NodeCount(g) ==> Reachable(g, NO_NODE, v)
  }

  /** No path of positive length returns to its start. */
  ghost predicate Acyclic(g: Service) {
    forall p :: IsPath(g, p) && |p| > 1 ==> p[0] != p[|p| - 1]
  }

  lemma PathExtend(g: Service, p: seq<nat>, v: nat)
    requires IsPath(g, p) && Edge(g, p[|p| - 1], v) && v < NodeCount(g)
    ensures IsPath(g, p + [v])
  {
  }

  lemma ReachableStep(g: Service, removal: nat, u: nat, v: nat)
    requires Reachable(g, removal, u) && Edge(g, u, v) && v < NodeCount(g) && v != removal
    ensures Reachable(g, removal, v)
  {
    var p :| PathTo(g, p, g.input, u) && removal !in p;
    assert PathTo(g, p + [v], g.input, v);
  }

  /** A reachable node other than the input has a reachable predecessor. */
  lemma ReachableBack(g: Service, removal: nat, v: nat) returns (u: nat)
    requires Reachable(g, removal, v) && v != g.input
    ensures Reachable(g, removal, u) && Edge(g, u, v) && u != removal && u < NodeCount(g)
  {
    var p :| PathTo(g, p, g.input, v) && removal !in p;
    var q := p[..|p| - 1];
    u := q[|q| - 1];
    assert p[|p| - 2] == u && u in p;
    assert PathTo(g, q, g.input, u);
  }

  lemma ReachableIsNode(g: Service, removal: nat, v: nat)
    requires Reachable(g, removal, v)
    ensures v < NodeCount(g) && v != removal
  {
  }

  // ----- Finite acyclic graphs have no infinite descent -----

  lemma {:induction false} Pigeonhole(s: seq<nat>, n: nat)
    requires Distinct(s) && forall i :: 0 <= i < |s| ==> s[i] < n
    ensures |s| <= n
  {
    assert |s| > 0 ==> s[0] < n;
    if n > 0 {
      if k :| 0 <= k < |s| && s[k] == n - 1 {
        Pigeonhole(s[..k] + s[k + 1..], n - 1);
      } else {
        Pigeonhole(s, n - 1);
      }
    }
  }

  lemma AcyclicPathsAreSimple(g: Service, p: seq<nat>)
    requires Acyclic(g) && IsPath(g, p)
    ensures Distinct(p)
  {
    forall i, j | 0 <= i < j < |p|
      ensures p[i] != p[j]
    {
      assert IsPath(g, p[i..j + 1]);
    }
  }

  ghost predicate HasPredecessorIn(g: Service, s: set<nat>, v: nat) {
    exists u :: u in s && Edge(g, u, v)
  }

  /** A set of nodes each of which has a predecessor in the set. */
  ghost predicate Retreats(g: Service, s: set<nat>) {
    && s <= Nodes(g)
    && forall u {:trigger HasPredecessorIn(g, s, u)} :: u in s ==> HasPredecessorIn(g, s, u)
  }

  /** In such a set one can walk back arbitrarily far. */
  lemma {:induction false} LongWalkBack(g: Service, s: set<nat>, v: nat, length: nat) returns (p: seq<nat>)
    requires length > 0 && Retreats(g, s) && v in s
    ensures IsPath(g, p) && |p| == length && p[length - 1] == v
    ensures forall i :: 0 <= i < |p| ==> p[i] in s
    decreases length
  {
    if length == 1 {
      p := [v];
    } else {
      assert HasPredecessorIn(g, s, v);
      var u :| u in s && Edge(g, u, v);
      var q := LongWalkBack(g, s, u, length - 1);
      PathExtend(g, q, v);
      p := q + [v];
    }
  }

  /** The descent principle: in an acyclic graph such a set is empty. */
  lemma NoEndlessRetreat(g: Service, s: set<nat>)
    requires Acyclic(g) && Retreats(g, s)
    ensures s == {}
  {
    if v :| v in s {
      var p := LongWalkBack(g, s, v, NodeCount(g) + 1);
      AcyclicPathsAreSimple(g, p);
      Pigeonhole(p, NodeCount(g));
      assert false;
    }
  }
}
