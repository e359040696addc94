/**
 Cancellation of tasks during one request. A task is popped when all its inputs are
 ready; it is cancelled when all of them are cancelled and runs otherwise. A cancelled task
 notifies either the receivers of its own pipes, or, if the analysis has recorded a boundary
 for its node, only the receivers on the boundary of its cluster.

 Main result: whatever boundaries are used, every complete run executes the same tasks.
 */
module Cancellation {
  import opened FiniteSets
  import opened ServiceGraph
  import opened ServiceCheck
  import opened CriticalNode
  import opened Wrappers

  type Analysis = seq<Option<Boundary>>

  /**
   `done` and `popped` are the executed and the cancelled tasks taken from the ready queue,
   `dead` the nodes that the cancelled ones account for (their clusters, if a boundary was used).
   `awaiting` and `cancelled` are the per-task counters of inputs.
   */
  datatype State = State(done: set<nat>, popped: set<nat>, dead: set<nat>,
                         awaiting: seq<int>, cancelled: seq<int>)

  datatype Event = Execute(node: nat) | Cancel(node: nat)

  /** `untouched[u]` are the output pipes of `u` that its servlet leaves untouched when it runs. */
  ghost predicate Setting(g: Service, info: Analysis, untouched: seq<seq<Pipe>>) {
    && WellFormed(g) && Acyclic(g) && AllReachable(g)
    && |info| == |untouched| == NodeCount(g)
    && (forall v :: 0 <= v < NodeCount(g) ==> Recorded(g, v, info[v]))
    && IsSelection(g, untouched)
  }

  /** Between any two nodes, no more pipes are left untouched than there are. */
  ghost predicate IsSelection(g: Service, untouched: seq<seq<Pipe>>) {
    && |untouched| == NodeCount(g)
    && forall u, v :: 0 <= u < NodeCount(g) && 0 <= v < NodeCount(g) ==>
         CountTo(untouched[u], v) <= CountTo(g.outgoing[u], v)
  }

  function Initial(g: Service): State
    requires |g.incoming| == NodeCount(g)
  {
    State({}, {}, {}, seq(NodeCount(g), v requires 0 <= v < NodeCount(g) => |g.incoming[v]|),
          seq(NodeCount(g), v => 0))
  }

  /** All inputs of `v` are cancelled, and it has some. */
  predicate AllCancelled(g: Service, s: State, v: nat)
    requires v < |g.incoming| && v < |s.cancelled|
  {
    |g.incoming[v]| > 0 && s.cancelled[v] == |g.incoming[v]|
  }

  predicate Enabled(g: Service, s: State, e: Event)
    requires |g.incoming| == NodeCount(g) == |s.awaiting| == |s.cancelled|
  {
    && e.node < NodeCount(g)
    && e.node !in s.done && e.node !in s.popped
    && s.awaiting[e.node] == 0
    && (e.Cancel? <==> AllCancelled(g, s, e.node))
  }

  /** How many inputs of `w` the cancelled task `v` cancels. */
  function Notified(g: Service, info: Analysis, v: nat, w: nat): nat
    requires v < NodeCount(g) && v < |info|
  {
    if info[v].Some? then CountNode(info[v].value.dest, w) else CountTo(g.outgoing[v], w)
  }

  /** The nodes that die with the cancelled task `v`. */
  ghost function Casualties(g: Service, info: Analysis, v: nat): set<nat>
    requires v < |info|
  {
    if info[v].Some? then Cluster(g, v) else {v}
  }

  ghost function Step(g: Service, info: Analysis, untouched: seq<seq<Pipe>>, s: State, e: Event): State
    requires |info| == |untouched| == NodeCount(g) == |s.awaiting| == |s.cancelled| && e.node < NodeCount(g)
  {
    var n, v := NodeCount(g), e.node;
    match e
    case Execute(_) =>
      s.(done := s.done + {v},
         awaiting := seq(n, w requires 0 <= w < n => s.awaiting[w] - CountTo(g.outgoing[v], w)),
         cancelled := seq(n, w requires 0 <= w < n => s.cancelled[w] + CountTo(untouched[v], w)))
    case Cancel(_) =>
      s.(popped := s.popped + {v},
         dead := s.dead + Casualties(g, info, v),
         awaiting := seq(n, w requires 0 <= w < n => s.awaiting[w] - Notified(g, info, v, w)),
         cancelled := seq(n, w requires 0 <= w < n => s.cancelled[w] + Notified(g, info, v, w)))
  }

  // ----- The invariant -----

  function Resolved(s: State): set<nat> {
    s.done + s.dead
  }

  /** The number of cancelled pipes into `v`, given the executed and the dead nodes. */
  function CancelledPipes(g: Service, untouched: seq<seq<Pipe>>, done: set<nat>, dead: set<nat>, v: nat): nat {
    Flow(g.outgoing, dead, v) + Flow(untouched, done, v)
  }

  /** A node whose inputs are all cancelled, and there are some. */
  predicate Starved(g: Service, untouched: seq<seq<Pipe>>, done: set<nat>, dead: set<nat>, v: nat)
    requires v < |g.incoming|
  {
    |g.incoming[v]| > 0 && CancelledPipes(g, untouched, done, dead, v) == |g.incoming[v]|
  }

  /** A node is resolved only after all its predecessors. */
  ghost predicate PredecessorClosed(g: Service, s: set<nat>) {
    forall u, v :: v in s && Edge(g, u, v) ==> u in s
  }

  ghost predicate Counters(g: Service, untouched: seq<seq<Pipe>>, s: State) {
    && |s.awaiting| == |s.cancelled| == NodeCount(g)
    && (forall v :: v in Nodes(g) && v !in Resolved(s) ==>
          && s.awaiting[v] == Flow(g.outgoing, Nodes(g) - Resolved(s), v)
          && s.cancelled[v] == CancelledPipes(g, untouched, s.done, s.dead, v))
    && (forall v :: v in s.dead && v !in s.popped ==> v < NodeCount(g) && s.awaiting[v] > 0)
  }

  ghost predicate Inv(g: Service, untouched: seq<seq<Pipe>>, s: State)
    requires WellFormed(g)
  {
    && s.done !! s.dead && s.popped <= s.dead && Resolved(s) <= Nodes(g)
    && PredecessorClosed(g, Resolved(s))
    && Counters(g, untouched, s)
    && (forall v :: v in Resolved(s) ==> (v in s.dead <==> Starved(g, untouched, s.done, s.dead, v)))
  }

  /** All pipes may be left untouched, or none. */
  lemma SelectionsExist(g: Service)
    ensures IsSelection(g, g.outgoing) && IsSelection(g, seq(NodeCount(g), _ => []))
  {
  }

  lemma {:induction false} FlowNone(lists: seq<seq<Pipe>>, v: nat, k: nat)
    requires k <= |lists|
    ensures FlowUpTo(lists, {}, v, k) == 0
  {
    FlowZero(lists, {}, v, k);
  }

  lemma InitialInv(g: Service, untouched: seq<seq<Pipe>>)
    requires WellFormed(g)
    ensures Inv(g, untouched, Initial(g))
  {
    assert Nodes(g) - Resolved(Initial(g)) == Nodes(g);
    forall v | v in Nodes(g)
      ensures Flow(g.outgoing, Nodes(g), v) == |g.incoming[v]|
      ensures CancelledPipes(g, untouched, {}, {}, v) == 0
    {
      FlowTotal(g, v);
      FlowNone(g.outgoing, v, |g.outgoing|);
      FlowNone(untouched, v, |untouched|);
    }
  }

  /** A task that is ready has all its predecessors resolved. */
  lemma ReadyMeansPredecessorsResolved(g: Service, untouched: seq<seq<Pipe>>, s: State, v: nat)
    requires WellFormed(g) && Inv(g, untouched, s)
    requires v < NodeCount(g) && v !in s.done && v !in s.popped && s.awaiting[v] == 0
    ensures v !in Resolved(s)
    ensures forall u :: Edge(g, u, v) ==> u in Resolved(s)
  {
    assert v !in Resolved(s);
    FlowZero(g.outgoing, Nodes(g) - Resolved(s), v, NodeCount(g));
  }

  /** The cluster of an unresolved node is unresolved. */
  lemma ClusterIsUnresolved(g: Service, v: nat, resolved: set<nat>)
    requires WellFormed(g) && Acyclic(g) && AllReachable(g)
    requires PredecessorClosed(g, resolved) && v !in resolved
    ensures Cluster(g, v) !! resolved
  {
    var both := Cluster(g, v) * resolved;
    forall w | w in both
      ensures HasPredecessorIn(g, both, w)
    {
      ClusterMemberHasInput(g, v, w);
      var u := g.incoming[w][0].srcNode;
      EdgeSeenFromBothEnds(g, u, w);
      ClusterPredecessors(g, v, u, w);
      assert u in both && Edge(g, u, w);
    }
    NoEndlessRetreat(g, both);
  }

  /** The flow counts after resolving the nodes of `x`, as executed (`ran`) or as dead. */
  lemma ResolveFlows(g: Service, untouched: seq<seq<Pipe>>, s: State, x: set<nat>, w: nat)
    requires |untouched| == NodeCount(g) && x <= Nodes(g) && x !! Resolved(s)
    ensures Flow(g.outgoing, Nodes(g) - Resolved(s), w) ==
            Flow(g.outgoing, Nodes(g) - Resolved(s) - x, w) + Flow(g.outgoing, x, w)
    ensures CancelledPipes(g, untouched, s.done + x, s.dead, w) ==
            CancelledPipes(g, untouched, s.done, s.dead, w) + Flow(untouched, x, w)
    ensures CancelledPipes(g, untouched, s.done, s.dead + x, w) ==
            CancelledPipes(g, untouched, s.done, s.dead, w) + Flow(g.outgoing, x, w)
  {
    FlowDisjoint(g.outgoing, Nodes(g) - Resolved(s) - x, x, w, NodeCount(g));
    assert (Nodes(g) - Resolved(s) - x) + x == Nodes(g) - Resolved(s);
    FlowDisjoint(untouched, s.done, x, w, NodeCount(g));
    FlowDisjoint(g.outgoing, s.dead, x, w, NodeCount(g));
  }

  lemma FlowOfOne(lists: seq<seq<Pipe>>, u: nat, v: nat)
    requires u < |lists|
    ensures Flow(lists, {u}, v) == CountTo(lists[u], v)
  {
    FlowAdd(lists, {}, u, v, |lists|);
    FlowNone(lists, v, |lists|);
    assert {} + {u} == {u};
  }

  // ----- Every step keeps the invariant -----

  lemma ExecuteKeepsInv(g: Service, info: Analysis, untouched: seq<seq<Pipe>>, s: State, v: nat)
    requires Setting(g, info, untouched) && Inv(g, untouched, s) && Enabled(g, s, Execute(v))
    ensures Inv(g, untouched, Step(g, info, untouched, s, Execute(v)))
  {
    hide Flow, Acyclic, AllReachable, Recorded, CancelledPipes, Counters, Starved, IsSelection, CountTo;
    ReadyMeansPredecessorsResolved(g, untouched, s, v);
    ExecuteKeepsCounters(g, info, untouched, s, v);
    ExecuteKeepsStarved(g, info, untouched, s, v);
  }

  lemma ExecuteKeepsCounters(g: Service, info: Analysis, untouched: seq<seq<Pipe>>, s: State, v: nat)
    requires Setting(g, info, untouched) && Inv(g, untouched, s) && Enabled(g, s, Execute(v)) && v !in Resolved(s)
    ensures Counters(g, untouched, Step(g, info, untouched, s, Execute(v)))
  {
    hide Flow, Edge, Acyclic, AllReachable, Recorded, CancelledPipes, Starved, IsSelection, CountTo;
    var t := Step(g, info, untouched, s, Execute(v));
    assert Nodes(g) - Resolved(t) == Nodes(g) - Resolved(s) - {v};
    forall w | w in Nodes(g)
      ensures w !in Resolved(t) ==>
                && t.awaiting[w] == Flow(g.outgoing, Nodes(g) - Resolved(t), w)
                && t.cancelled[w] == CancelledPipes(g, untouched, t.done, t.dead, w)
      ensures w in Resolved(t) ==> t.awaiting[w] == s.awaiting[w]
    {
      ExecuteFlows(g, untouched, s, v, w);
      if w in Resolved(t) {
        NoPipesBack(g, info, untouched, s, v, w);
      }
    }
  }

  lemma ExecuteKeepsStarved(g: Service, info: Analysis, untouched: seq<seq<Pipe>>, s: State, v: nat)
    requires Setting(g, info, untouched) && Inv(g, untouched, s) && Enabled(g, s, Execute(v)) && v !in Resolved(s)
    ensures var t := Step(g, info, untouched, s, Execute(v));
            forall w :: w in Resolved(t) ==> (w in t.dead <==> Starved(g, untouched, t.done, t.dead, w))
  {
    hide Flow, Edge, Acyclic, AllReachable, Recorded, CancelledPipes, IsSelection, CountTo;
    forall w | w in Resolved(s) + {v}
      ensures CancelledPipes(g, untouched, s.done + {v}, s.dead, w) == CancelledPipes(g, untouched, s.done, s.dead, w)
    {
      ExecuteFlows(g, untouched, s, v, w);
      NoPipesBack(g, info, untouched, s, v, w);
    }
  }

  /** A task that runs has no pipes into itself or into resolved nodes. */
  lemma NoPipesBack(g: Service, info: Analysis, untouched: seq<seq<Pipe>>, s: State, v: nat, w: nat)
    requires Setting(g, info, untouched) && v < NodeCount(g) && v !in Resolved(s) && Resolved(s) <= Nodes(g)
    requires PredecessorClosed(g, Resolved(s)) && w in Resolved(s) + {v}
    ensures CountTo(g.outgoing[v], w) == 0 && CountTo(untouched[v], w) == 0
  {
    hide Recorded, AllReachable, CountTo;
    if w == v {
      NoSelfEdge(g, v);
    }
    NoEdgeMeansNoPipe(g, v, w);
  }

  /** The flow counts after executing one task. */
  lemma ExecuteFlows(g: Service, untouched: seq<seq<Pipe>>, s: State, v: nat, w: nat)
    requires |untouched| == NodeCount(g) && v in Nodes(g) && v !in Resolved(s)
    ensures Flow(g.outgoing, Nodes(g) - Resolved(s), w) ==
            Flow(g.outgoing, Nodes(g) - Resolved(s) - {v}, w) + CountTo(g.outgoing[v], w)
    ensures CancelledPipes(g, untouched, s.done + {v}, s.dead, w) ==
            CancelledPipes(g, untouched, s.done, s.dead, w) + CountTo(untouched[v], w)
  {
    hide Flow;
    ResolveFlows(g, untouched, s, {v}, w);
    FlowOfOne(g.outgoing, v, w);
    FlowOfOne(untouched, v, w);
  }

  lemma NoEdgeMeansNoPipe(g: Service, u: nat, v: nat)
    requires u < NodeCount(g)
    ensures Edge(g, u, v) <==> CountTo(g.outgoing[u], v) > 0
  {
  }

  /** What the death of the casualties of `v` means for the pipe counts. */
  ghost predicate CleanCut(g: Service, info: Analysis, v: nat, resolved: set<nat>, x: set<nat>)
    requires v < |info| == NodeCount(g) == |g.incoming|
  {
    && v in x && x <= Nodes(g) && x !! resolved
    && (forall w :: w in x && w != v ==> |g.incoming[w]| > 0)
    && (forall u, w :: w in x && w != v && Edge(g, u, w) ==> u in x)
    && (forall w :: w in Nodes(g) ==> Notified(g, info, v, w) == if w in x then 0 else Flow(g.outgoing, x, w))
  }

  lemma CasualtiesAreACleanCut(g: Service, info: Analysis, untouched: seq<seq<Pipe>>, v: nat, resolved: set<nat>)
    requires Setting(g, info, untouched) && v < NodeCount(g)
    requires PredecessorClosed(g, resolved) && v !in resolved
    ensures CleanCut(g, info, v, resolved, Casualties(g, info, v))
  {
    var x := Casualties(g, info, v);
    if info[v].Some? {
      ClusterIsClosed(g, v);
      ClusterIsUnresolved(g, v, resolved);
      forall w | w in x && w != v
        ensures |g.incoming[w]| > 0
      {
        ClusterMemberHasInput(g, v, w);
      }
      forall u, w | w in x && w != v && Edge(g, u, w)
        ensures u in x
      {
        ClusterPredecessors(g, v, u, w);
      }
      forall w | w in Nodes(g)
        ensures Notified(g, info, v, w) == if w in x then 0 else Flow(g.outgoing, x, w)
      {
        assert Recorded(g, v, info[v]);
        BoundaryCount(g.outgoing, x, w, NodeCount(g));
      }
    } else {
      NoSelfEdge(g, v);
      forall w | w in Nodes(g)
        ensures Notified(g, info, v, w) == if w in x then 0 else Flow(g.outgoing, x, w)
      {
        FlowOfOne(g.outgoing, v, w);
      }
    }
  }

  lemma NoSelfEdge(g: Service, v: nat)
    requires Acyclic(g) && v < NodeCount(g)
    ensures CountTo(g.outgoing[v], v) == 0
  {
    LoopIsPath(g, v);
    assert !Edge(g, v, v);
  }

  lemma LoopIsPath(g: Service, v: nat)
    requires v < NodeCount(g)
    ensures IsPath(g, [v, v]) <==> Edge(g, v, v)
  {
    assert [v, v][0] == v && [v, v][1] == v;
  }

  /** A node whose predecessors are all resolved gets nothing from unresolved nodes. */
  lemma NoFlowIntoSettled(g: Service, x: set<nat>, resolved: set<nat>, w: nat)
    requires x !! resolved && forall u :: Edge(g, u, w) ==> u in resolved
    ensures Flow(g.outgoing, x, w) == 0
  {
    FlowZero(g.outgoing, x, w, NodeCount(g));
    forall u | 0 <= u < NodeCount(g) && u in x
      ensures CountTo(g.outgoing[u], w) == 0
    {
      NoEdgeMeansNoPipe(g, u, w);
    }
  }

  /** A casualty other than the cancelled node itself has no input from outside the cut. */
  lemma CasualtyInputs(g: Service, info: Analysis, untouched: seq<seq<Pipe>>, v: nat, resolved: set<nat>, x: set<nat>, w: nat)
    requires Setting(g, info, untouched) && v < NodeCount(g)
    requires CleanCut(g, info, v, resolved, x) && w in x && w != v
    ensures forall s :: s !! x ==> Flow(g.outgoing, s, w) == 0 && Flow(untouched, s, w) == 0
  {
    forall u | 0 <= u < NodeCount(g) && u !in x
      ensures CountTo(g.outgoing[u], w) == 0 && CountTo(untouched[u], w) == 0
    {
      NoEdgeMeansNoPipe(g, u, w);
    }
    forall s: set<nat> | s !! x
      ensures Flow(g.outgoing, s, w) == 0 && Flow(untouched, s, w) == 0
    {
      FlowZero(g.outgoing, s, w, NodeCount(g));
      FlowZero(untouched, s, w, NodeCount(g));
    }
  }

  /** So it still waits for inputs, and all its inputs die with the cut. */
  lemma CasualtyCounts(g: Service, info: Analysis, untouched: seq<seq<Pipe>>, s: State, v: nat, x: set<nat>, w: nat)
    requires Setting(g, info, untouched) && v < NodeCount(g)
    requires CleanCut(g, info, v, Resolved(s), x) && w in x && w != v
    ensures Flow(g.outgoing, Nodes(g) - Resolved(s), w) > 0
    ensures CancelledPipes(g, untouched, s.done, s.dead + x, w) == |g.incoming[w]|
  {
    hide Flow, Edge, Acyclic, AllReachable, Recorded, Notified;
    CasualtyInputs(g, info, untouched, v, Resolved(s), x, w);
    FlowTotal(g, w);
    ResolveFlows(g, untouched, State({}, {}, {}, [], []), x, w);
    ResolveFlows(g, untouched, s, x, w);
    FlowNone(g.outgoing, w, NodeCount(g));
    assert Nodes(g) - Resolved(State({}, {}, {}, [], [])) == Nodes(g);
  }

  lemma CancelKeepsInv(g: Service, info: Analysis, untouched: seq<seq<Pipe>>, s: State, v: nat)
    requires Setting(g, info, untouched) && Inv(g, untouched, s) && Enabled(g, s, Cancel(v))
    ensures Inv(g, untouched, Step(g, info, untouched, s, Cancel(v)))
  {
    hide Flow, Edge, Acyclic, AllReachable, Recorded, Notified, Casualties;
    var x := Casualties(g, info, v);
    var t := Step(g, info, untouched, s, Cancel(v));
    ReadyMeansPredecessorsResolved(g, untouched, s, v);
    CasualtiesAreACleanCut(g, info, untouched, v, Resolved(s));
    assert Resolved(t) == Resolved(s) + x;
    assert Nodes(g) - Resolved(t) == Nodes(g) - Resolved(s) - x;
    forall w | w in Nodes(g)
      ensures w !in Resolved(t) ==>
                && t.awaiting[w] == Flow(g.outgoing, Nodes(g) - Resolved(t), w)
                && t.cancelled[w] == CancelledPipes(g, untouched, t.done, t.dead, w)
      ensures w in Resolved(s) || w == v ==>
                && t.awaiting[w] == s.awaiting[w]
                && CancelledPipes(g, untouched, t.done, t.dead, w) == CancelledPipes(g, untouched, s.done, s.dead, w)
      ensures w in x && w != v ==>
                && t.awaiting[w] > 0
                && Starved(g, untouched, t.done, t.dead, w)
    {
      ResolveFlows(g, untouched, s, x, w);
      if w in Resolved(s) || w == v {
        NoFlowIntoSettled(g, x, Resolved(s), w);
      } else if w in x {
        CasualtyCounts(g, info, untouched, s, v, x, w);
      }
    }
  }

  // ----- Runs -----

  /** The state after a run; `None` if some event was not enabled. */
  ghost function After(g: Service, info: Analysis, untouched: seq<seq<Pipe>>, trace: seq<Event>): Option<State>
    requires Setting(g, info, untouched)
    ensures After(g, info, untouched, trace).Some? ==>
              var s := After(g, info, untouched, trace).value;
              |s.awaiting| == |s.cancelled| == NodeCount(g)
  {
    if |trace| == 0 then Some(Initial(g))
    else
      var before := After(g, info, untouched, trace[..|trace| - 1]);
      var e := trace[|trace| - 1];
      if before.Some? && Enabled(g, before.value, e) then Some(Step(g, info, untouched, before.value, e))
      else None
  }

  /** The invariant holds after every run. */
  lemma {:induction false} RunsKeepInv(g: Service, info: Analysis, untouched: seq<seq<Pipe>>, trace: seq<Event>)
    requires Setting(g, info, untouched) && After(g, info, untouched, trace).Some?
    ensures Inv(g, untouched, After(g, info, untouched, trace).value)
  {
    if |trace| == 0 {
      InitialInv(g, untouched);
    } else {
      var front, e := trace[..|trace| - 1], trace[|trace| - 1];
      RunsKeepInv(g, info, untouched, front);
      var s := After(g, info, untouched, front).value;
      match e
      case Execute(v) => ExecuteKeepsInv(g, info, untouched, s, v);
      case Cancel(v) => CancelKeepsInv(g, info, untouched, s, v);
    }
  }

  /** A run is complete when no task is ready. */
  ghost predicate Complete(g: Service, s: State)
    requires |g.incoming| == NodeCount(g) == |s.awaiting| == |s.cancelled|
  {
    forall e :: !Enabled(g, s, e)
  }

  /**
   The fate of the nodes as node-by-node cancellation defines it: a node dies if and only if
   it has inputs and each of them is a pipe of a dead node or left untouched by a live one.
   */
  ghost predicate IsFate(g: Service, untouched: seq<seq<Pipe>>, dead: set<nat>)
    requires |g.incoming| == NodeCount(g)
  {
    dead <= Nodes(g) && forall v :: v in Nodes(g) ==>
      (v in dead <==> Starved(g, untouched, Nodes(g) - dead, dead, v))
  }

  /** Every complete run resolves all nodes, and kills exactly those fated to die. */
  lemma CompleteRunsMeetFate(g: Service, info: Analysis, untouched: seq<seq<Pipe>>, trace: seq<Event>)
    requires Setting(g, info, untouched) && After(g, info, untouched, trace).Some?
    requires Complete(g, After(g, info, untouched, trace).value)
    ensures var s := After(g, info, untouched, trace).value;
            s.done == Nodes(g) - s.dead && IsFate(g, untouched, s.dead)
  {
    RunsKeepInv(g, info, untouched, trace);
    var s := After(g, info, untouched, trace).value;
    var left := Nodes(g) - Resolved(s);
    forall v | v in left
      ensures HasPredecessorIn(g, left, v)
    {
      if s.awaiting[v] == 0 {
        var e := if AllCancelled(g, s, v) then Cancel(v) else Execute(v);
        assert Enabled(g, s, e);
        assert false;
      }
      FlowZero(g.outgoing, left, v, NodeCount(g));
      var u :| 0 <= u < NodeCount(g) && u in left && CountTo(g.outgoing[u], v) != 0;
      assert Edge(g, u, v);
    }
    NoEndlessRetreat(g, left);
    assert s.done == Nodes(g) - s.dead;
  }

  /** Two fates that agree on the predecessors of a node agree on the node. */
  lemma FateIsUnique(g: Service, untouched: seq<seq<Pipe>>, d1: set<nat>, d2: set<nat>)
    requires WellFormed(g) && Acyclic(g) && IsSelection(g, untouched)
    requires IsFate(g, untouched, d1) && IsFate(g, untouched, d2)
    ensures d1 == d2
  {
    hide WellFormed, IsSelection, HasPredecessorIn, Acyclic, Starved;
    var differ := (d1 - d2) + (d2 - d1);
    forall v | v in differ
      ensures HasPredecessorIn(g, differ, v)
    {
      if !HasPredecessorIn(g, differ, v) {
        SameFate(g, untouched, d1, d2, v);
        assert false;
      }
    }
    NoEndlessRetreat(g, differ);
  }

  /**
   Which tasks a complete run executes, told by the pipes alone: those of nodes without inputs, and
   those into which some executed node has not left all its pipes untouched.
   */
  lemma RunExecutes(g: Service, info: Analysis, untouched: seq<seq<Pipe>>, trace: seq<Event>, v: nat)
    requires Setting(g, info, untouched) && After(g, info, untouched, trace).Some?
    requires Complete(g, After(g, info, untouched, trace).value) && v < NodeCount(g)
    ensures var done := After(g, info, untouched, trace).value.done;
            v in done <==>
              || |g.incoming[v]| == 0
              || exists u :: u in done && u < NodeCount(g) && CountTo(untouched[u], v) < CountTo(g.outgoing[u], v)
  {
    hide Acyclic, AllReachable, Recorded, CountTo, After, Complete, Starved;
    CompleteRunsMeetFate(g, info, untouched, trace);
    LivesByUsedPipe(g, untouched, After(g, info, untouched, trace).value.dead, v);
  }

  /** Of two kinds of nodes, those of which every input is dead or untouched are exactly those without a used pipe. */
  lemma LivesByUsedPipe(g: Service, untouched: seq<seq<Pipe>>, dead: set<nat>, v: nat)
    requires WellFormed(g) && IsSelection(g, untouched) && IsFate(g, untouched, dead) && v < NodeCount(g)
    ensures v in Nodes(g) - dead <==>
              || |g.incoming[v]| == 0
              || exists u :: u in Nodes(g) - dead && u < NodeCount(g) && CountTo(untouched[u], v) < CountTo(g.outgoing[u], v)
  {
    hide CountTo, FlowUpTo, WellFormed;
    var done := Nodes(g) - dead;
    assert v in Nodes(g) && dead + done == Nodes(g);
    FlowTotal(g, v);
    FlowDisjoint(g.outgoing, dead, done, v, NodeCount(g));
    SomePipeUsed(g.outgoing, untouched, done, v, NodeCount(g));
  }

  /** The flows are equal iff no list has fewer pipes into `v` than the other. */
  lemma {:induction false} SomePipeUsed(lists: seq<seq<Pipe>>, fewer: seq<seq<Pipe>>, s: set<nat>, v: nat, k: nat)
    requires k <= |lists| == |fewer|
    requires forall u :: 0 <= u < |lists| ==> CountTo(fewer[u], v) <= CountTo(lists[u], v)
    ensures FlowUpTo(fewer, s, v, k) <= FlowUpTo(lists, s, v, k)
    ensures FlowUpTo(fewer, s, v, k) < FlowUpTo(lists, s, v, k) <==>
            exists u :: u in s && u < k && CountTo(fewer[u], v) < CountTo(lists[u], v)
  {
    hide CountTo;
    if k > 0 {
      SomePipeUsed(lists, fewer, s, v, k - 1);
    }
  }

  /** Two fates agree on a node if they agree on its predecessors. */
  lemma SameFate(g: Service, untouched: seq<seq<Pipe>>, d1: set<nat>, d2: set<nat>, v: nat)
    requires WellFormed(g) && IsSelection(g, untouched) && v < NodeCount(g)
    requires IsFate(g, untouched, d1) && IsFate(g, untouched, d2)
    requires !HasPredecessorIn(g, (d1 - d2) + (d2 - d1), v)
    ensures v in d1 <==> v in d2
  {
    hide HasPredecessorIn;
    SameVerdict(g, untouched, d1, d2, v, NodeCount(g));
  }

  lemma {:induction false} SameVerdict(g: Service, untouched: seq<seq<Pipe>>, d1: set<nat>, d2: set<nat>, v: nat, k: nat)
    requires k <= NodeCount(g) == |untouched| && v < NodeCount(g)
    requires forall u :: 0 <= u < NodeCount(g) ==> CountTo(untouched[u], v) <= CountTo(g.outgoing[u], v)
    requires !HasPredecessorIn(g, (d1 - d2) + (d2 - d1), v)
    ensures FlowUpTo(g.outgoing, d1, v, k) == FlowUpTo(g.outgoing, d2, v, k)
    ensures FlowUpTo(untouched, Nodes(g) - d1, v, k) == FlowUpTo(untouched, Nodes(g) - d2, v, k)
  {
    if k > 0 {
      SameVerdict(g, untouched, d1, d2, v, k - 1);
      var u := k - 1;
      NoEdgeMeansNoPipe(g, u, v);
      assert u in (d1 - d2) + (d2 - d1) ==> !Edge(g, u, v);
    }
  }

  /**
   Using boundaries changes nothing: any two complete runs of the same request, with whatever
   recorded boundaries each of them uses, execute exactly the same tasks.
   */
  lemma BoundariesChangeNothing(g: Service, untouched: seq<seq<Pipe>>,
                                fast: Analysis, fastRun: seq<Event>, plain: Analysis, plainRun: seq<Event>)
    requires Setting(g, fast, untouched) && Setting(g, plain, untouched)
    requires After(g, fast, untouched, fastRun).Some? && Complete(g, After(g, fast, untouched, fastRun).value)
    requires After(g, plain, untouched, plainRun).Some? && Complete(g, After(g, plain, untouched, plainRun).value)
    ensures After(g, fast, untouched, fastRun).value.done == After(g, plain, untouched, plainRun).value.done
    ensures After(g, fast, untouched, fastRun).value.dead == After(g, plain, untouched, plainRun).value.dead
  {
    CompleteRunsMeetFate(g, fast, untouched, fastRun);
    CompleteRunsMeetFate(g, plain, untouched, plainRun);
    FateIsUnique(g, untouched, After(g, fast, untouched, fastRun).value.dead,
                 After(g, plain, untouched, plainRun).value.dead);
  }

  /** A run takes every task from the ready queue at most once, so it has at most one event per node. */
  lemma {:induction false} RunsAreBounded(g: Service, info: Analysis, untouched: seq<seq<Pipe>>, trace: seq<Event>)
    requires Setting(g, info, untouched) && After(g, info, untouched, trace).Some?
    ensures var s := After(g, info, untouched, trace).value;
            |trace| == |s.done| + |s.popped| <= NodeCount(g)
  {
    EventsAreCounted(g, info, untouched, trace);
    RunsKeepInv(g, info, untouched, trace);
    var s := After(g, info, untouched, trace).value;
    SubsetSize(s.done + s.popped, Nodes(g));
    assert |s.done + s.popped| == |s.done| + |s.popped|;
  }

  lemma {:induction false} EventsAreCounted(g: Service, info: Analysis, untouched: seq<seq<Pipe>>, trace: seq<Event>)
    requires Setting(g, info, untouched) && After(g, info, untouched, trace).Some?
    ensures var s := After(g, info, untouched, trace).value; |trace| == |s.done| + |s.popped|
  {
    if |trace| > 0 {
      EventsAreCounted(g, info, untouched, trace[..|trace| - 1]);
    }
  }

  // ----- Tasks that exist -----

  /** The event gives node `w` an input pipe or cancels one of its inputs, which creates its task. */
  predicate Touches(g: Service, info: Analysis, e: Event, w: nat)
    requires |info| == NodeCount(g)
  {
    e.node < NodeCount(g) && match e case Execute(v) => CountTo(g.outgoing[v], w) > 0 case Cancel(v) => Notified(g, info, v, w) > 0
  }

  /** The nodes whose tasks have been created: those of the input and the output at the start. */
  function Created(g: Service, info: Analysis, trace: seq<Event>): set<nat>
    requires |info| == NodeCount(g)
  {
    if |trace| == 0 then {g.input, g.output}
    else
      Created(g, info, trace[..|trace| - 1]) + set w | w in Nodes(g) && Touches(g, info, trace[|trace| - 1], w)
  }

  ghost predicate HasSource(g: Service, resolved: set<nat>, w: nat) {
    exists u :: u in resolved && Edge(g, u, w)
  }

  /** What an event touches has a predecessor that is resolved afterwards. */
  lemma TouchedHasSource(g: Service, info: Analysis, untouched: seq<seq<Pipe>>, s: State, e: Event, w: nat)
    requires Setting(g, info, untouched) && Inv(g, untouched, s) && Enabled(g, s, e)
    requires w in Nodes(g) && Touches(g, info, e, w)
    ensures HasSource(g, Resolved(Step(g, info, untouched, s, e)), w)
  {
    hide Flow, Edge, Setting, Notified, Casualties, Inv;
    StepFits(g, info, untouched, s, e);
    var v := e.node;
    match e
    case Execute(_) =>
      NoEdgeMeansNoPipe(g, v, w);
      assert v in Resolved(Step(g, info, untouched, s, e));
    case Cancel(_) =>
      var x := Casualties(g, info, v);
      Unresolved(g, untouched, s, v);
      CasualtiesAreACleanCut(g, info, untouched, v, Resolved(s));
      var u := FlowSource(g, x, w);
      assert u in Resolved(Step(g, info, untouched, s, e));
  }

  lemma StepFits(g: Service, info: Analysis, untouched: seq<seq<Pipe>>, s: State, e: Event)
    requires Setting(g, info, untouched) && Inv(g, untouched, s) && Enabled(g, s, e)
    ensures |info| == |untouched| == NodeCount(g) == |s.awaiting| == |s.cancelled| && e.node < NodeCount(g)
    ensures WellFormed(g) && e.node !in s.done && e.node !in s.popped && s.awaiting[e.node] == 0
  {
    hide WellFormed, Acyclic, AllReachable, Recorded, IsSelection;
  }

  lemma InfoFits(g: Service, info: Analysis, untouched: seq<seq<Pipe>>)
    requires Setting(g, info, untouched)
    ensures |info| == |untouched| == NodeCount(g) == |g.incoming|
  {
    hide Acyclic, AllReachable, Recorded, IsSelection;
  }

  lemma Unresolved(g: Service, untouched: seq<seq<Pipe>>, s: State, v: nat)
    requires WellFormed(g) && Inv(g, untouched, s)
    requires v < NodeCount(g) && v !in s.done && v !in s.popped && s.awaiting[v] == 0
    ensures v !in Resolved(s) && PredecessorClosed(g, Resolved(s))
  {
    hide WellFormed;
  }

  lemma FlowSource(g: Service, x: set<nat>, w: nat) returns (u: nat)
    requires Flow(g.outgoing, x, w) > 0
    ensures u in x && Edge(g, u, w)
  {
    if !exists u :: u in x && Edge(g, u, w) {
      NoFlowIntoSettled(g, x, Nodes(g) - x, w);
      assert false;
    }
    u :| u in x && Edge(g, u, w);
  }

  lemma {:induction false} CreatedHasSource(g: Service, info: Analysis, untouched: seq<seq<Pipe>>, trace: seq<Event>, w: nat)
    requires Setting(g, info, untouched) && After(g, info, untouched, trace).Some?
    requires w in Created(g, info, trace) && w != g.input && w != g.output
    ensures HasSource(g, Resolved(After(g, info, untouched, trace).value), w)
  {
    hide Edge, Touches, Inv, Setting, Enabled, Step, HasSource;
    InfoFits(g, info, untouched);
    if |trace| > 0 {
      var front, e := trace[..|trace| - 1], trace[|trace| - 1];
      var s := After(g, info, untouched, front).value;
      EventIsOfNode(g, s, e);
      if w in Created(g, info, front) {
        CreatedHasSource(g, info, untouched, front, w);
        ResolvedGrows(g, info, untouched, s, e);
        SourceStays(g, Resolved(s), Resolved(Step(g, info, untouched, s, e)), w);
      } else {
        RunsKeepInv(g, info, untouched, front);
        TouchedHasSource(g, info, untouched, s, e, w);
      }
    }
  }

  /** A node has a task as soon as a predecessor has been executed, or a cancellation has come as far as to it. */
  lemma {:induction false} ReceiversAreCreated(g: Service, info: Analysis, untouched: seq<seq<Pipe>>, trace: seq<Event>, u: nat, w: nat)
    requires Setting(g, info, untouched) && After(g, info, untouched, trace).Some?
    requires u < |info| == NodeCount(g) && w < NodeCount(g)
    requires var s := After(g, info, untouched, trace).value;
             || (u in s.done && Edge(g, u, w))
             || (u in s.popped && info[u].None? && Edge(g, u, w))
             || (u in s.popped && info[u].Some? && exists d :: d in info[u].value.dest && d.node == w)
    ensures w in Created(g, info, trace)
  {
    hide Setting, Enabled, Casualties, Edge, CountTo;
    InfoFits(g, info, untouched);
    if |trace| > 0 {
      var front, e := trace[..|trace| - 1], trace[|trace| - 1];
      var s := After(g, info, untouched, front).value;
      EventIsOfNode(g, s, e);
      if u == e.node {
        NoEdgeMeansNoPipe(g, u, w);
        if info[u].Some? {
          ListedIsCounted(info[u].value.dest, w);
        }
        assert Touches(g, info, e, w) && w in Nodes(g);
      } else {
        ReceiversStay(g, info, untouched, s, e, u);
        ReceiversAreCreated(g, info, untouched, front, u, w);
      }
    }
  }

  lemma ReceiversStay(g: Service, info: Analysis, untouched: seq<seq<Pipe>>, s: State, e: Event, u: nat)
    requires |info| == |untouched| == NodeCount(g) == |s.awaiting| == |s.cancelled| && e.node < NodeCount(g)
    ensures var t := Step(g, info, untouched, s, e);
            u != e.node ==> (u in t.done <==> u in s.done) && (u in t.popped <==> u in s.popped)
  {
  }

  lemma {:induction false} ListedIsCounted(ds: seq<Dest>, w: nat)
    ensures CountNode(ds, w) > 0 <==> exists d :: d in ds && d.node == w
  {
    if |ds| > 0 {
      var front := ds[..|ds| - 1];
      ListedIsCounted(front, w);
      assert ds == front + [ds[|ds| - 1]];
    }
  }

  lemma EventIsOfNode(g: Service, s: State, e: Event)
    requires |g.incoming| == NodeCount(g) == |s.awaiting| == |s.cancelled| && Enabled(g, s, e)
    ensures e.node < NodeCount(g) && e.node !in s.done && e.node !in s.popped
  {
  }

  lemma SourceStays(g: Service, before: set<nat>, after: set<nat>, w: nat)
    requires HasSource(g, before, w) && before <= after
    ensures HasSource(g, after, w)
  {
    hide Edge;
  }

  lemma ResolvedGrows(g: Service, info: Analysis, untouched: seq<seq<Pipe>>, s: State, e: Event)
    requires |info| == |untouched| == NodeCount(g) == |s.awaiting| == |s.cancelled| && e.node < NodeCount(g)
    ensures Resolved(s) <= Resolved(Step(g, info, untouched, s, e))
  {
  }

  /**
   When a task is cancelled, no other casualty has a task yet, except the output: so nothing is left
   behind. If the boundary says that the output is among the other casualties, its task is in the
   task table: it has been created and still waits for inputs.
   */
  lemma CasualtiesHaveNoTasks(g: Service, info: Analysis, untouched: seq<seq<Pipe>>, trace: seq<Event>, v: nat)
    requires Setting(g, info, untouched) && After(g, info, untouched, trace).Some?
    requires Enabled(g, After(g, info, untouched, trace).value, Cancel(v))
    ensures v < |info| == NodeCount(g)
    ensures forall w :: w in Casualties(g, info, v) && w != v && w != g.output ==> w !in Created(g, info, trace)
    ensures info[v].Some? && info[v].value.outputCancelled && v != g.output ==>
              && g.output in Created(g, info, trace) && g.output < NodeCount(g)
              && After(g, info, untouched, trace).value.awaiting[g.output] > 0
  {
    hide Flow, Edge, Acyclic, AllReachable, Notified, Touches, Enabled, After, Cluster;
    InfoFits(g, info, untouched);
    var s := After(g, info, untouched, trace).value;
    RunsKeepInv(g, info, untouched, trace);
    CancelIsReady(g, s, v);
    var x := Casualties(g, info, v);
    Unresolved(g, untouched, s, v);
    CasualtiesAreACleanCut(g, info, untouched, v, Resolved(s));
    InputHasNoInputs(g);
    forall w | w in x && w != v && w != g.output
      ensures w !in Created(g, info, trace)
    {
      if w in Created(g, info, trace) {
        CreatedHasSource(g, info, untouched, trace, w);
        assert false;
      }
    }
    if g.output in x && v != g.output {
      CasualtyCounts(g, info, untouched, s, v, x, g.output);
      OutputIsCreated(g, info, trace);
    }
  }

  lemma CancelIsReady(g: Service, s: State, v: nat)
    requires |g.incoming| == NodeCount(g) == |s.awaiting| == |s.cancelled| && Enabled(g, s, Cancel(v))
    ensures v < NodeCount(g) && v !in s.done && v !in s.popped && s.awaiting[v] == 0
  {
  }

  lemma {:induction false} OutputIsCreated(g: Service, info: Analysis, trace: seq<Event>)
    requires |info| == NodeCount(g)
    ensures g.output in Created(g, info, trace)
  {
    if |trace| > 0 {
      OutputIsCreated(g, info, trace[..|trace| - 1]);
    }
  }

  lemma FeedsNobody(g: Service, c: nat, w: nat)
    requires WellFormed(g) && c < NodeCount(g) && |g.outgoing[c]| == 0 && w < NodeCount(g)
    ensures !SoleFeeder(g, c, w)
  {
    if SoleFeeder(g, c, w) {
      EdgeSeenFromBothEnds(g, c, w);
      NoEdgeMeansNoPipe(g, c, w);
      assert false;
    }
  }

  /**
   The last steps of building a service: check the graph, then analyze it. If every node but
   the input has an incoming pipe, the result is fit for every run.
   */
  method Prepare(g: Service, inputPins: nat) returns (info: Option<Analysis>)
    requires WellFormed(g)
    ensures info.Some? <==> Accepted(g, inputPins)
    ensures info.Some? && Orphans(g) == {} ==>
              forall untouched :: IsSelection(g, untouched) ==> Setting(g, info.value, untouched)
    ensures info.Some? ==> |info.value| == NodeCount(g) && info.value[g.output].None?
  {
    var ok := CheckServiceGraph(g, inputPins);
    if !ok {
      return None;
    }
    var result := Analyze(g);
    AcceptedWithoutOrphans(g, inputPins);
    forall w | 0 <= w < NodeCount(g)
      ensures !SoleFeeder(g, g.output, w)
    {
      FeedsNobody(g, g.output, w);
    }
    info := Some(result);
  }
}
