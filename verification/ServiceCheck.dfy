/**
 The well-formedness check of a freshly built service: peel nodes without pending
 inputs until none is left (or the budget of nodes to peel is used up).

 The budget is the node count minus the nodes that have no incoming pipe and are not the
 input, but peeling such a node spends the same budget. So the check decides a cardinality
 condition, and it decides acyclicity exactly when that condition does.
 */
module ServiceCheck {
  import opened FiniteSets
  import opened Sequences
  import opened ServiceGraph

  /** Nodes without incoming pipes that are not the input; the check only warns about them. */
  function Orphans(g: Service): set<nat>
    requires |g.incoming| == NodeCount(g)
  {
    set v | v in Nodes(g) && v != g.input && g.incoming[v] == []
  }

  /** `v` lies on a cycle or downstream of one: some path to `v` visits a node twice. */
  ghost predicate AfterCycle(g: Service, v: nat) {
    exists p: seq<nat> :: IsPath(g, p) && p[|p| - 1] == v && !Distinct(p)
  }

  /** The input depends on nobody, has one input pipe, and the output feeds nobody. */
  predicate EndsAreFree(g: Service, inputPins: nat)
    requires WellFormed(g)
  {
    |g.incoming[g.input]| == 0 && inputPins == 1 && |g.outgoing[g.output]| == 0
  }

  /** What the check accepts. */
  ghost predicate Accepted(g: Service, inputPins: nat)
    requires WellFormed(g)
  {
    EndsAreFree(g, inputPins) && |Blocked(g)| <= |Orphans(g)|
  }

  ghost function Blocked(g: Service): set<nat> {
    set v | v in Nodes(g) && AfterCycle(g, v)
  }

  /** An order in which every node comes after all its predecessors. */
  ghost predicate PeelOrder(g: Service, order: seq<nat>) {
    && Distinct(order)
    && (forall i :: 0 <= i < |order| ==> order[i] < NodeCount(g))
    && (forall i, u :: 0 <= i < |order| && Edge(g, u, order[i]) ==> u in order[..i])
  }

  ghost function Peeled(order: seq<nat>): set<nat> {
    set v | v in order
  }

  ghost function Rest(g: Service, order: seq<nat>): set<nat> {
    Nodes(g) - Peeled(order)
  }

  lemma {:induction false} PeeledSize(order: seq<nat>)
    requires Distinct(order)
    ensures |Peeled(order)| == |order|
  {
    if |order| > 0 {
      var front := order[..|order| - 1];
      PeeledSize(front);
      assert Peeled(order) == Peeled(front) + {order[|order| - 1]};
    }
  }

  lemma RestSize(g: Service, order: seq<nat>)
    requires PeelOrder(g, order)
    ensures |Rest(g, order)| == NodeCount(g) - |order|
  {
    PeeledSize(order);
    assert Peeled(order) <= Nodes(g);
    assert Rest(g, order) + Peeled(order) == Nodes(g);
  }

  lemma DistinctMore(q: seq<nat>, x: nat)
    requires Distinct(q) && x !in q
    ensures Distinct(q + [x])
  {
  }

  /** A path into a peeled node stays among the nodes peeled before it, and never repeats. */
  lemma {:induction false} PathsIntoPeeledNodes(g: Service, order: seq<nat>, i: nat, p: seq<nat>)
    requires PeelOrder(g, order) && i < |order|
    requires IsPath(g, p) && p[|p| - 1] == order[i]
    ensures Distinct(p)
    ensures forall x :: x in p ==> x in order[..i + 1]
    decreases |p|
  {
    hide Edge;
    if |p| > 1 {
      var q := p[..|p| - 1];
      var u := q[|q| - 1];
      assert Edge(g, p[|p| - 2], p[|p| - 1]);
      var k :| 0 <= k < i && order[k] == u;
      PathsIntoPeeledNodes(g, order, k, q);
      forall x | x in q
        ensures x in order[..i] && x != order[i]
      {
        var j :| 0 <= j < k + 1 && order[j] == x;
      }
      assert p == q + [order[i]] && order[..i + 1] == order[..i] + [order[i]];
      assert forall x :: x in p ==> x in q || x == order[i];
      DistinctMore(q, order[i]);
    }
  }

  lemma PeeledIsNotBlocked(g: Service, order: seq<nat>)
    requires PeelOrder(g, order)
    ensures Blocked(g) <= Rest(g, order)
  {
    forall v | v in Blocked(g)
      ensures v !in order
    {
      var p: seq<nat> :| IsPath(g, p) && p[|p| - 1] == v && !Distinct(p);
      if v in order {
        var i :| 0 <= i < |order| && order[i] == v;
        PathsIntoPeeledNodes(g, order, i, p);
        assert false;
      }
    }
  }

  /** When no node of the rest can be peeled, all of them are blocked by a cycle. */
  lemma StuckIsBlocked(g: Service, order: seq<nat>)
    requires Retreats(g, Rest(g, order))
    ensures Rest(g, order) <= Blocked(g)
  {
    forall v | v in Rest(g, order)
      ensures AfterCycle(g, v)
    {
      var p := LongWalkBack(g, Rest(g, order), v, NodeCount(g) + 1);
      if Distinct(p) {
        Pigeonhole(p, NodeCount(g));
        assert false;
      }
    }
  }

  /** The pending-input counts after peeling `order`. */
  ghost predicate Pending(g: Service, order: seq<nat>, deg: seq<int>) {
    && |deg| == NodeCount(g)
    && forall v :: 0 <= v < NodeCount(g) ==>
         deg[v] == if v in order then -1 else Flow(g.outgoing, Rest(g, order), v)
  }

  lemma PendingInitially(g: Service, deg: seq<int>)
    requires WellFormed(g) && |deg| == NodeCount(g)
    requires forall v :: 0 <= v < NodeCount(g) ==> deg[v] == |g.incoming[v]|
    ensures Pending(g, [], deg)
  {
    assert Rest(g, []) == Nodes(g);
    forall v | 0 <= v < NodeCount(g)
      ensures deg[v] == Flow(g.outgoing, Rest(g, []), v)
    {
      FlowTotal(g, v);
    }
  }

  /** A node with no pending input may be peeled next. */
  lemma PeelOne(g: Service, order: seq<nat>, deg: seq<int>, next: nat)
    requires WellFormed(g) && PeelOrder(g, order) && Pending(g, order, deg)
    requires next < NodeCount(g) && deg[next] == 0
    ensures PeelOrder(g, order + [next])
  {
    FlowZero(g.outgoing, Rest(g, order), next, NodeCount(g));
    var longer := order + [next];
    forall i, u | 0 <= i < |longer| && Edge(g, u, longer[i])
      ensures u in longer[..i]
    {
      if i == |order| {
        assert u in Nodes(g);
        assert u !in Rest(g, order);
        assert longer[..i] == order;
      } else {
        assert longer[..i] == order[..i];
      }
    }
  }

  /** Peeling a node takes its pipes off the counts of all the others. */
  lemma PendingAfterPeel(g: Service, order: seq<nat>, deg: seq<int>, next: nat, after: seq<int>)
    requires WellFormed(g) && PeelOrder(g, order) && Pending(g, order, deg)
    requires next < NodeCount(g) && deg[next] == 0
    requires |after| == NodeCount(g)
    requires forall v :: 0 <= v < NodeCount(g) ==>
               after[v] == if v == next then -1 else deg[v] - CountTo(g.outgoing[next], v)
    ensures Pending(g, order + [next], after)
  {
    var longer := order + [next];
    assert Rest(g, longer) + {next} == Rest(g, order);
    forall v | 0 <= v < NodeCount(g)
      ensures after[v] == if v in longer then -1 else Flow(g.outgoing, Rest(g, longer), v)
    {
      if v in order {
        var i :| 0 <= i < |order| && order[i] == v;
        assert !Edge(g, next, order[i]);
      } else if v != next {
        FlowAdd(g.outgoing, Rest(g, longer), next, v, NodeCount(g));
      }
    }
  }

  /** No node left with a pending count of zero: every node of the rest waits for the rest. */
  lemma StuckRetreats(g: Service, order: seq<nat>, deg: seq<int>)
    requires WellFormed(g) && Pending(g, order, deg)
    requires forall v :: 0 <= v < NodeCount(g) ==> deg[v] != 0
    ensures Retreats(g, Rest(g, order))
  {
    var rest := Rest(g, order);
    forall v | v in rest
      ensures HasPredecessorIn(g, rest, v)
    {
      assert deg[v] != 0;
      FlowZero(g.outgoing, rest, v, NodeCount(g));
      var u :| 0 <= u < NodeCount(g) && u in rest && CountTo(g.outgoing[u], v) != 0;
      assert Edge(g, u, v);
    }
  }

  /** Take the pipes leaving `node` off the pending counts of their destinations. */
  method Release(g: Service, deg: array<int>, node: nat)
    requires WellFormed(g) && deg.Length == NodeCount(g) && node < NodeCount(g)
    modifies deg
    ensures forall v :: 0 <= v < NodeCount(g) ==> deg[v] == old(deg[v]) - CountTo(g.outgoing[node], v)
  {
    var pipes := g.outgoing[node];
    for i := 0 to |pipes|
      invariant forall v :: 0 <= v < NodeCount(g) ==> deg[v] == old(deg[v]) - CountTo(pipes[..i], v)
    {
      forall v | 0 <= v < NodeCount(g)
        ensures CountTo(pipes[..i + 1], v) == CountTo(pipes[..i], v) + if pipes[i].dstNode == v then 1 else 0
      {
        CountToStep(pipes, i, v);
      }
      deg[pipes[i].dstNode] := deg[pipes[i].dstNode] - 1;
    }
    assert pipes[..|pipes|] == pipes;
  }

  /** Count the incoming pipes of every node and the nodes that may be peeled. */
  method InitialCounts(g: Service, deg: array<int>) returns (nz: nat)
    requires WellFormed(g) && deg.Length == NodeCount(g)
    modifies deg
    ensures Pending(g, [], deg[..])
    ensures nz == NodeCount(g) - |Orphans(g)|
  {
    hide Pending, CountTo, CountFrom, OrphansBelow;
    nz := NodeCount(g);
    assert |OrphansBelow(g, 0)| == 0 by { OrphansBelowAll(g); }
    for id := 0 to NodeCount(g)
      invariant forall v :: 0 <= v < id ==> deg[v] == |g.incoming[v]|
      invariant nz == NodeCount(g) - |OrphansBelow(g, id)| && |OrphansBelow(g, id)| <= id
    {
      OrphansStep(g, id);
      deg[id] := |g.incoming[id]|;
      if deg[id] == 0 && id != g.input {
        nz := nz - 1;
      }
    }
    OrphansBelowAll(g);
    PendingInitially(g, deg[..]);
  }

  function OrphansBelow(g: Service, k: nat): set<nat>
    requires |g.incoming| == NodeCount(g)
  {
    Orphans(g) * Below(k)
  }

  lemma OrphansStep(g: Service, k: nat)
    requires |g.incoming| == NodeCount(g) && k < NodeCount(g)
    ensures |OrphansBelow(g, k + 1)| ==
            |OrphansBelow(g, k)| + if |g.incoming[k]| == 0 && k != g.input then 1 else 0
  {
    if k in Orphans(g) {
      assert OrphansBelow(g, k + 1) == OrphansBelow(g, k) + {k};
    } else {
      assert OrphansBelow(g, k + 1) == OrphansBelow(g, k);
    }
  }

  lemma OrphansBelowAll(g: Service)
    requires |g.incoming| == NodeCount(g)
    ensures OrphansBelow(g, 0) == {} && OrphansBelow(g, NodeCount(g)) == Orphans(g)
  {
  }

  /** `next` is the node to peel next; past the end if there is none. */
  ghost predicate Candidate(deg: seq<int>, next: nat) {
    && next <= |deg|
    && (next < |deg| ==> deg[next] == 0)
    && (next == |deg| ==> forall v :: 0 <= v < |deg| ==> deg[v] != 0)
  }

  lemma InputIsPeelable(g: Service, deg: seq<int>)
    requires WellFormed(g) && Pending(g, [], deg) && |g.incoming[g.input]| == 0
    ensures Candidate(deg, g.input)
  {
    FlowTotal(g, g.input);
    assert Rest(g, []) == Nodes(g);
  }

  /** Peel `next` and find the first node that has no pending input now. */
  method Peel(g: Service, deg: array<int>, next: nat, ghost order: seq<nat>) returns (following: nat)
    requires WellFormed(g) && deg.Length == NodeCount(g)
    requires PeelOrder(g, order) && Pending(g, order, deg[..])
    requires next < NodeCount(g) && deg[next] == 0
    modifies deg
    ensures PeelOrder(g, order + [next]) && Pending(g, order + [next], deg[..])
    ensures Candidate(deg[..], following)
  {
    PeelOne(g, order, deg[..], next);
    Release(g, deg, next);
    deg[next] := -1;
    PendingAfterPeel(g, order, old(deg[..]), next, deg[..]);
    following := 0;
    while following < NodeCount(g) && deg[following] != 0
      invariant following <= NodeCount(g)
      invariant forall v :: 0 <= v < following ==> deg[v] != 0
    {
      following := following + 1;
    }
  }

  /** What is left of the budget when peeling stops tells how many nodes are blocked. */
  lemma Verdict(g: Service, order: seq<nat>, deg: seq<int>, next: nat, nz: nat)
    requires WellFormed(g) && PeelOrder(g, order) && Pending(g, order, deg) && Candidate(deg, next)
    requires nz == NodeCount(g) - |Orphans(g)| - |order|
    requires nz == 0 || next == NodeCount(g)
    ensures nz == 0 <==> |Blocked(g)| <= |Orphans(g)|
  {
    PeeledIsNotBlocked(g, order);
    SubsetSize(Blocked(g), Rest(g, order));
    RestSize(g, order);
    if next == NodeCount(g) {
      StuckRetreats(g, order, deg);
      StuckIsBlocked(g, order);
      SubsetSize(Rest(g, order), Blocked(g));
    }
  }

  /**
   The check. `inputPins` is the number of input pipes the input servlet declares.
   Beyond the local conditions, it accepts if and only if there are at least as many
   orphans as nodes on or downstream of a cycle.
   */
  method CheckServiceGraph(g: Service, inputPins: nat) returns (ok: bool)
    requires WellFormed(g)
    ensures ok <==> Accepted(g, inputPins)
    ensures ok <==>
            && |g.incoming[g.input]| == 0 && inputPins == 1 && |g.outgoing[g.output]| == 0
            && |Blocked(g)| <= |Orphans(g)|
  {
    if |g.incoming[g.input]| != 0 || inputPins != 1 || |g.outgoing[g.output]| != 0 {
      return false;
    }
    var n := NodeCount(g);
    var deg := new int[n];
    var nz := InitialCounts(g, deg);
    ghost var order: seq<nat> := [];
    var next: nat := g.input;
    InputIsPeelable(g, deg[..]);
    while nz > 0 && next < n
      invariant PeelOrder(g, order) && Pending(g, order, deg[..])
      invariant nz == n - |Orphans(g)| - |order|
      invariant Candidate(deg[..], next)
      decreases nz
    {
      ghost var peeled := next;
      next := Peel(g, deg, next, order);
      order := order + [peeled];
      nz := nz - 1;
    }
    ok := nz == 0;
    Verdict(g, order, deg[..], next, nz);
  }

  // ----- When the check decides acyclicity -----

  lemma BlockedIffCyclic(g: Service)
    ensures Blocked(g) == {} <==> Acyclic(g)
  {
    if Acyclic(g) {
      forall v | v in Blocked(g)
        ensures false
      {
        var p: seq<nat> :| IsPath(g, p) && p[|p| - 1] == v && !Distinct(p);
        AcyclicPathsAreSimple(g, p);
      }
    } else {
      var p: seq<nat> :| IsPath(g, p) && |p| > 1 && p[0] == p[|p| - 1];
      assert !Distinct(p);
      assert AfterCycle(g, p[|p| - 1]);
      assert p[|p| - 1] in Blocked(g);
    }
  }

  /** An acyclic service is accepted; without orphans, an accepted one is acyclic with every node reachable. */
  lemma AcceptedWithoutOrphans(g: Service, inputPins: nat)
    requires WellFormed(g) && EndsAreFree(g, inputPins)
    ensures Acyclic(g) ==> Accepted(g, inputPins)
    ensures Orphans(g) == {} ==> (Accepted(g, inputPins) <==> Acyclic(g) && AllReachable(g))
  {
    BlockedIffCyclic(g);
    if Orphans(g) == {} && Acyclic(g) {
      AcceptedIsReachable(g);
    }
  }

  lemma AcceptedIsReachable(g: Service)
    requires WellFormed(g) && Acyclic(g) && Orphans(g) == {}
    ensures AllReachable(g)
  {
    var lost := set v | v in Nodes(g) && !Reachable(g, NO_NODE, v);
    assert PathTo(g, [g.input], g.input, g.input) && NO_NODE !in [g.input];
    forall v | v in lost
      ensures HasPredecessorIn(g, lost, v)
    {
      assert v !in Orphans(g);
      var u := g.incoming[v][0].srcNode;
      EdgeSeenFromBothEnds(g, u, v);
      if Reachable(g, NO_NODE, u) {
        ReachableStep(g, NO_NODE, u, v);
        assert false;
      }
      assert u in lost;
    }
    NoEndlessRetreat(g, lost);
    forall v | 0 <= v < NodeCount(g)
      ensures Reachable(g, NO_NODE, v)
    {
      assert v !in lost;
    }
  }

  /** An input, `k` orphans, and one node fed only by itself. */
  function OrphansAndALoop(k: nat): Service {
    var loop := Pipe(k + 1, 0, k + 1, 1);
    var lists := seq(k + 1, i => []) + [[loop]];
    Service(lists, lists, 0, 0)
  }

  lemma LoopIsWellFormed(k: nat)
    requires k + 2 <= NO_NODE
    ensures WellFormed(OrphansAndALoop(k))
    ensures forall u, v :: Edge(OrphansAndALoop(k), u, v) <==> u == v == k + 1
  {
    var loop := Pipe(k + 1, 0, k + 1, 1);
    assert [loop][..0] == [];
    assert forall v: nat :: CountTo([loop], v) == if v == k + 1 then 1 else 0;
    assert forall u: nat :: CountFrom([loop], u) == if u == k + 1 then 1 else 0;
  }

  /** With at least one orphan the check accepts a cyclic service. */
  lemma LoopIsAccepted(k: nat)
    requires 0 < k && k + 2 <= NO_NODE
    ensures WellFormed(OrphansAndALoop(k))
    ensures |Orphans(OrphansAndALoop(k))| == k
    ensures Accepted(OrphansAndALoop(k), 1) && !Acyclic(OrphansAndALoop(k))
  {
    var g := OrphansAndALoop(k);
    LoopIsWellFormed(k);
    assert IsPath(g, [k + 1, k + 1]);
    assert !Acyclic(g);
    assert Orphans(g) == Below(k + 1) - {0};
    var order: seq<nat> := seq(k + 1, i => i);
    assert PeelOrder(g, order);
    PeeledIsNotBlocked(g, order);
    RestSize(g, order);
    SubsetSize(Blocked(g), Rest(g, order));
  }

  /** The check is sound for the services with `k` orphans if and only if `k` is zero. */
  lemma SoundExactlyWithoutOrphans(k: nat)
    requires k + 2 <= NO_NODE
    ensures (forall g :: WellFormed(g) && |Orphans(g)| == k && Accepted(g, 1) ==> Acyclic(g)) <==> k == 0
  {
    if k == 0 {
      forall g | WellFormed(g) && |Orphans(g)| == k && Accepted(g, 1)
        ensures Acyclic(g)
      {
        AcceptedWithoutOrphans(g, 1);
      }
    } else {
      LoopIsAccepted(k);
    }
  }
}
