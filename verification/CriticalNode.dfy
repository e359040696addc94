/**
 Critical-node analysis: which nodes die with a cancelled node, which pipes leave that
 cluster, and which nodes have a cluster beyond themselves.
 */
module CriticalNode {
  import opened FiniteSets
  import opened Sequences
  import opened ServiceGraph
  import opened Bitmap
  import opened Wrappers

  /** The receiving end of a pipe that leaves a cluster. */
  datatype Dest = Dest(node: nat, pipe: nat)

  datatype Boundary = Boundary(outputCancelled: bool, dest: seq<Dest>)

  ghost function ReachSet(g: Service, removal: nat): set<nat> {
    set v | v in Nodes(g) && Reachable(g, removal, v)
  }

  /** The nodes that become unreachable when `c` is removed. */
  ghost function Cluster(g: Service, c: nat): set<nat> {
    ReachSet(g, NO_NODE) - ReachSet(g, c)
  }

  /** Removing `c` makes some other node unreachable. */
  ghost predicate Critical(g: Service, c: nat) {
    exists w :: w in Cluster(g, c) && w != c
  }

  /** All the inputs of `w`, at least one, come from `c`. */
  predicate SoleFeeder(g: Service, c: nat, w: nat)
    requires w < |g.incoming|
  {
    |g.incoming[w]| > 0 && forall j :: 0 <= j < |g.incoming[w]| ==> g.incoming[w][j].srcNode == c
  }

  // ----- The flip DFS -----

  /** All successors of `u` have been found, except for the removed node. */
  ghost predicate Expanded(g: Service, removal: nat, found: set<nat>, u: nat) {
    forall v :: Edge(g, u, v) ==> v in found || v == removal
  }

  /** What the search knows: the found nodes, those on the stack, and the one being expanded. */
  ghost predicate Searching(g: Service, removal: nat, found: set<nat>, stack: seq<nat>, open: set<nat>) {
    && found <= ReachSet(g, removal)
    && Distinct(stack)
    && (forall x :: x in stack ==> x in found && x !in open)
    && (forall u {:trigger Expanded(g, removal, found, u)} ::
          u in found && u !in stack && u !in open ==> Expanded(g, removal, found, u))
  }

  lemma {:induction false} FoundCoversPath(g: Service, removal: nat, found: set<nat>, p: seq<nat>)
    requires Searching(g, removal, found, [], {}) && g.input in found
    requires IsPath(g, p) && p[0] == g.input && removal !in p
    ensures p[|p| - 1] in found
    decreases |p|
  {
    if |p| > 1 {
      var q := p[..|p| - 1];
      FoundCoversPath(g, removal, found, q);
      assert Expanded(g, removal, found, q[|q| - 1]);
      assert Edge(g, p[|p| - 2], p[|p| - 1]);
      assert p[|p| - 1] in p;
    }
  }

  /** When the stack is empty everything reachable has been found. */
  lemma SearchComplete(g: Service, removal: nat, found: set<nat>)
    requires Searching(g, removal, found, [], {}) && g.input in found
    ensures found == ReachSet(g, removal)
  {
    forall v | v in ReachSet(g, removal)
      ensures v in found
    {
      var p :| PathTo(g, p, g.input, v) && removal !in p;
      FoundCoversPath(g, removal, found, p);
    }
  }

  /** A newly discovered node fits on the stack. */
  lemma StackHasRoom(g: Service, removal: nat, found: set<nat>, stack: seq<nat>, open: set<nat>, v: nat)
    requires Searching(g, removal, found, stack, open)
    requires v !in found && v < NodeCount(g)
    ensures |stack| < NodeCount(g)
  {
    assert v !in stack;
    assert forall i :: 0 <= i < |stack| ==> stack[i] in found;
    Pigeonhole(stack + [v], NodeCount(g));
  }

  lemma Discover(g: Service, removal: nat, found: set<nat>, stack: seq<nat>, u: nat, v: nat)
    requires Searching(g, removal, found, stack, {u}) && u in found
    requires Edge(g, u, v) && v < NodeCount(g) && v !in found && v != removal
    ensures Searching(g, removal, found + {v}, stack + [v], {u})
  {
    ReachableStep(g, removal, u, v);
    forall w | w in found + {v} && w !in stack + [v] && w !in {u}
      ensures Expanded(g, removal, found + {v}, w)
    {
      assert Expanded(g, removal, found, w);
    }
  }

  lemma Pop(g: Service, removal: nat, found: set<nat>, stack: seq<nat>)
    requires Searching(g, removal, found, stack, {}) && |stack| > 0
    ensures Searching(g, removal, found, stack[..|stack| - 1], {stack[|stack| - 1]})
    ensures stack[|stack| - 1] in found && found <= Nodes(g)
  {
  }

  lemma Close(g: Service, removal: nat, found: set<nat>, stack: seq<nat>, u: nat)
    requires Searching(g, removal, found, stack, {u}) && u < NodeCount(g)
    requires forall j :: 0 <= j < |g.outgoing[u]| ==>
               g.outgoing[u][j].dstNode in found || g.outgoing[u][j].dstNode == removal
    ensures Searching(g, removal, found, stack, {}) && found <= Nodes(g)
  {
    forall v | Edge(g, u, v)
      ensures v in found || v == removal
    {
      CountToPositive(g.outgoing[u], v);
    }
  }

  /** The bits of `visited` for a search that has found `found`. */
  ghost function VisitedSet(g: Service, removal: nat, found: set<nat>): set<nat> {
    found + if removal < NodeCount(g) then {removal} else {}
  }

  /** The arrays of a search, kept apart. */
  ghost predicate SearchArrays(g: Service, visited: BitSet, state: BitSet, stack: array<nat>, sp: nat)
    reads visited, visited.words, state, state.words
  {
    && visited.Valid() && state.Valid()
    && visited != state && visited.words != state.words
    && stack as object != visited.words as object && stack as object != state.words as object
    && visited.size == state.size == stack.Length == NodeCount(g)
    && sp <= stack.Length
  }

  lemma VisitedOrRemoved(g: Service, removal: nat, found: set<nat>, v: nat)
    requires v < NodeCount(g)
    ensures v in VisitedSet(g, removal, found) <==> v in found || v == removal
  {
  }

  lemma VisitedGrows(g: Service, removal: nat, found: set<nat>, v: nat)
    requires v !in VisitedSet(g, removal, found) && v < NodeCount(g)
    ensures VisitedSet(g, removal, found + {v}) == SymmetricDifference(VisitedSet(g, removal, found), {v})
  {
  }

  lemma FlipNothing(bits: set<nat>, found: set<nat>)
    ensures SymmetricDifference(bits, found - found) == bits
  {
  }

  /** Look at one successor `v` of the node `u` being expanded: push and flip it if it is not visited. */
  method Visit(g: Service, removal: nat, ghost u: nat, v: nat, visited: BitSet, state: BitSet,
               stack: array<nat>, sp: nat, ghost found: set<nat>)
    returns (top: nat, ghost more: set<nat>)
    requires Edge(g, u, v) && v < NodeCount(g) && SearchArrays(g, visited, state, stack, sp)
    requires u in found && Searching(g, removal, found, stack[..sp], {u})
    requires visited.bits == VisitedSet(g, removal, found)
    modifies visited, visited.words, state, state.words, stack
    ensures SearchArrays(g, visited, state, stack, top)
    ensures v in more || v == removal
    ensures more == found || more == found + {v}
    ensures more == found ==> top == sp
    ensures Searching(g, removal, more, stack[..top], {u})
    ensures visited.bits == VisitedSet(g, removal, more)
    ensures state.bits == SymmetricDifference(old(state.bits), more - found)
  {
    hide Searching, Edge, Bits, Bitmap.WordCount, SymmetricDifference, VisitedSet;
    top, more := sp, found;
    var seen := visited.Get(v);
    VisitedOrRemoved(g, removal, found, v);
    FlipNothing(state.bits, found);
    if !seen {
      StackHasRoom(g, removal, found, stack[..sp], {u}, v);
      Discover(g, removal, found, stack[..sp], u, v);
      VisitedGrows(g, removal, found, v);
      Push(g, v, visited, state, stack, sp);
      top := sp + 1;
      more := found + {v};
      assert more - found == {v};
    }
  }

  /** Put a node on the stack, mark it as visited and flip it. */
  method Push(g: Service, v: nat, visited: BitSet, state: BitSet, stack: array<nat>, sp: nat)
    requires v < NodeCount(g) && SearchArrays(g, visited, state, stack, sp) && sp < stack.Length
    modifies visited, visited.words, state, state.words, stack
    ensures SearchArrays(g, visited, state, stack, sp + 1)
    ensures stack[..sp + 1] == old(stack[..sp]) + [v]
    ensures visited.bits == SymmetricDifference(old(visited.bits), {v})
    ensures state.bits == SymmetricDifference(old(state.bits), {v})
  {
    hide Bits, Bitmap.WordCount, SymmetricDifference;
    stack[sp] := v;
    assert stack[..sp + 1] == old(stack[..sp]) + [v];
    visited.Flip(v);
    state.Flip(v);
  }

  /** Follow the pipes of the node just popped. */
  method Expand(g: Service, removal: nat, u: nat, visited: BitSet, state: BitSet,
                stack: array<nat>, sp: nat, ghost found: set<nat>)
    returns (top: nat, ghost more: set<nat>)
    requires WellFormed(g) && u < NodeCount(g) && SearchArrays(g, visited, state, stack, sp)
    requires u in found && Searching(g, removal, found, stack[..sp], {u})
    requires visited.bits == VisitedSet(g, removal, found)
    modifies visited, visited.words, state, state.words, stack
    ensures SearchArrays(g, visited, state, stack, top)
    ensures found <= more <= Nodes(g) && (more == found ==> top == sp)
    ensures Searching(g, removal, more, stack[..top], {})
    ensures visited.bits == VisitedSet(g, removal, more)
    ensures state.bits == SymmetricDifference(old(state.bits), more - found)
  {
    hide Bits, Bitmap.WordCount, Searching;
    var pipes := g.outgoing[u];
    top, more := sp, found;
    for i := 0 to |pipes|
      invariant SearchArrays(g, visited, state, stack, top)
      invariant found <= more && (more == found ==> top == sp)
      invariant Searching(g, removal, more, stack[..top], {u})
      invariant visited.bits == VisitedSet(g, removal, more)
      invariant state.bits == SymmetricDifference(old(state.bits), more - found)
      invariant forall j :: 0 <= j < i ==> pipes[j].dstNode in more || pipes[j].dstNode == removal
    {
      EdgeSeenFromBothEnds(g, u, pipes[i].dstNode);
      ghost var less := more;
      top, more := Visit(g, removal, u, pipes[i].dstNode, visited, state, stack, top, more);
      FlipTwice(old(state.bits), less - found, more - less);
      assert (less - found) + (more - less) == more - found;
    }
    Close(g, removal, more, stack[..top], u);
  }

  /** Pop nodes and expand them until the stack is empty. */
  method DrainStack(g: Service, removal: nat, visited: BitSet, state: BitSet, stack: array<nat>)
    requires WellFormed(g) && SearchArrays(g, visited, state, stack, 1)
    requires stack[..1] == [g.input] && g.input != removal
    requires visited.bits == VisitedSet(g, removal, {g.input})
    modifies visited, visited.words, state, state.words, stack
    ensures state.Valid()
    ensures state.bits == SymmetricDifference(old(state.bits), ReachSet(g, removal) - {g.input})
  {
    hide Bits, Bitmap.WordCount, Searching, WellFormed, VisitedSet, ReachSet;
    var sp: nat := 1;
    ghost var found: set<nat> := {g.input};
    StartSearch(g, removal);
    while sp > 0
      invariant SearchArrays(g, visited, state, stack, sp)
      invariant g.input in found && Searching(g, removal, found, stack[..sp], {})
      invariant visited.bits == VisitedSet(g, removal, found)
      invariant state.bits == SymmetricDifference(old(state.bits), found - {g.input})
      decreases Nodes(g) - found, sp
    {
      Pop(g, removal, found, stack[..sp]);
      sp := sp - 1;
      assert stack[..sp + 1][..sp] == stack[..sp];
      ghost var before := found;
      sp, found := Expand(g, removal, stack[sp], visited, state, stack, sp, found);
      FlipTwice(old(state.bits), before - {g.input}, found - before);
      assert (before - {g.input}) + (found - before) == found - {g.input};
      assert found != before ==> Nodes(g) - found < Nodes(g) - before;
    }
    assert stack[..0] == [];
    SearchComplete(g, removal, found);
  }

  /**
   One depth-first search with `removal` taken out of the graph (any number that is not a
   node takes out nothing). Exactly the bits of the reachable nodes flip.
   */
  method ServiceDfs(g: Service, state: BitSet, removal: nat)
    requires WellFormed(g) && state.Valid() && state.size == NodeCount(g)
    modifies state, state.words
    ensures state.Valid()
    ensures state.bits == SymmetricDifference(old(state.bits), ReachSet(g, removal))
  {
    if g.input == removal {
      NothingReachable(g);
      assert SymmetricDifference(state.bits, {}) == state.bits;
      return;
    }
    var visited := MarkStart(g, removal);
    var stack := new nat[NodeCount(g)];
    stack[0] := g.input;
    state.Flip(g.input);
    DrainStack(g, removal, visited, state, stack);
    FlipReached(g, removal, old(state.bits));
  }

  /** A fresh visited bitmap in which the removed node and the input are marked. */
  method MarkStart(g: Service, removal: nat) returns (visited: BitSet)
    requires WellFormed(g) && g.input != removal
    ensures fresh(visited) && fresh(visited.words) && visited.Valid() && visited.size == NodeCount(g)
    ensures visited.bits == VisitedSet(g, removal, {g.input})
  {
    hide Bits, Bitmap.WordCount, Edge;
    InputIsNode(g);
    visited := new BitSet(NodeCount(g));
    if removal < NodeCount(g) {
      visited.Flip(removal);
    }
    visited.Flip(g.input);
  }

  lemma InputIsNode(g: Service)
    requires WellFormed(g)
    ensures g.input < NodeCount(g)
  {
  }

  lemma FlipReached(g: Service, removal: nat, bits: set<nat>)
    requires WellFormed(g) && g.input != removal
    ensures SymmetricDifference(SymmetricDifference(bits, {g.input}), ReachSet(g, removal) - {g.input}) ==
            SymmetricDifference(bits, ReachSet(g, removal))
  {
    StartSearch(g, removal);
    FlipTwice(bits, {g.input}, ReachSet(g, removal) - {g.input});
    assert {g.input} + (ReachSet(g, removal) - {g.input}) == ReachSet(g, removal);
  }

  lemma NothingReachable(g: Service)
    ensures ReachSet(g, g.input) == {}
  {
  }

  lemma StartSearch(g: Service, removal: nat)
    requires WellFormed(g) && g.input != removal
    ensures Searching(g, removal, {g.input}, [g.input], {})
  {
    assert PathTo(g, [g.input], g.input, g.input) && removal !in [g.input];
  }


  // ----- The boundary of a cluster -----

  /** The receiving ends of the pipes of `ps` that end outside `s`, in order. */
  function Leaving(ps: seq<Pipe>, s: set<nat>): seq<Dest> {
    if |ps| == 0 then []
    else
      var last := ps[|ps| - 1];
      Leaving(ps[..|ps| - 1], s) + if last.dstNode in s then [] else [Dest(last.dstNode, last.dstPipe)]
  }

  /** The receiving ends of the pipes that leave `s` from one of the first `k` nodes. */
  function LeavingUpTo(lists: seq<seq<Pipe>>, s: set<nat>, k: nat): seq<Dest>
    requires k <= |lists|
  {
    if k == 0 then []
    else LeavingUpTo(lists, s, k - 1) + if k - 1 in s then Leaving(lists[k - 1], s) else []
  }

  /** How often node `w` occurs in a destination list. */
  function CountNode(ds: seq<Dest>, w: nat): nat {
    if |ds| == 0 then 0
    else CountNode(ds[..|ds| - 1], w) + if ds[|ds| - 1].node == w then 1 else 0
  }

  lemma {:induction false} CountNodeConcat(a: seq<Dest>, b: seq<Dest>, w: nat)
    ensures CountNode(a + b, w) == CountNode(a, w) + CountNode(b, w)
  {
    if |b| == 0 {
      assert a + b == a;
    } else {
      assert (a + b)[..|a + b| - 1] == a + b[..|b| - 1];
      CountNodeConcat(a, b[..|b| - 1], w);
    }
  }

  lemma {:induction false} LeavingCount(ps: seq<Pipe>, s: set<nat>, w: nat)
    ensures CountNode(Leaving(ps, s), w) == if w in s then 0 else CountTo(ps, w)
  {
    if |ps| > 0 {
      var rest, last := Leaving(ps[..|ps| - 1], s), ps[|ps| - 1];
      LeavingCount(ps[..|ps| - 1], s, w);
      if last.dstNode in s {
        assert Leaving(ps, s) == rest;
      } else {
        CountNodeAppend(rest, Dest(last.dstNode, last.dstPipe), w);
      }
    }
  }

  lemma CountNodeAppend(ds: seq<Dest>, d: Dest, w: nat)
    ensures CountNode(ds + [d], w) == CountNode(ds, w) + if d.node == w then 1 else 0
  {
  }

  /** Every node outside the cluster is listed once per pipe it receives from the cluster. */
  lemma {:induction false} BoundaryCount(lists: seq<seq<Pipe>>, s: set<nat>, w: nat, k: nat)
    requires k <= |lists|
    ensures CountNode(LeavingUpTo(lists, s, k), w) == if w in s then 0 else FlowUpTo(lists, s, w, k)
  {
    if k > 0 {
      BoundaryCount(lists, s, w, k - 1);
      LeavingCount(lists[k - 1], s, w);
      if k - 1 in s {
        CountNodeConcat(LeavingUpTo(lists, s, k - 1), Leaving(lists[k - 1], s), w);
      } else {
        assert LeavingUpTo(lists, s, k) == LeavingUpTo(lists, s, k - 1);
      }
    }
  }

  lemma {:induction false} LeavingMembers(ps: seq<Pipe>, s: set<nat>, d: Dest)
    ensures d in Leaving(ps, s) <==>
            exists j :: 0 <= j < |ps| && ps[j].dstNode !in s && d == Dest(ps[j].dstNode, ps[j].dstPipe)
  {
    if |ps| > 0 {
      var front := ps[..|ps| - 1];
      LeavingMembers(front, s, d);
      assert forall j :: 0 <= j < |front| ==> ps[j] == front[j];
    }
  }

  /** The pipe `outgoing[u][j]` leaves `s` towards `d`. */
  predicate Crosses(lists: seq<seq<Pipe>>, s: set<nat>, u: nat, j: nat, d: Dest) {
    && u < |lists| && u in s && j < |lists[u]|
    && lists[u][j].dstNode !in s
    && d == Dest(lists[u][j].dstNode, lists[u][j].dstPipe)
  }

  /** The boundary lists exactly the receiving ends of the pipes that leave the cluster. */
  lemma {:induction false} BoundaryMembers(lists: seq<seq<Pipe>>, s: set<nat>, d: Dest, k: nat)
    requires k <= |lists|
    ensures d in LeavingUpTo(lists, s, k) <==> exists u: nat, j: nat :: u < k && Crosses(lists, s, u, j, d)
  {
    if k > 0 {
      BoundaryMembers(lists, s, d, k - 1);
      LeavingMembers(lists[k - 1], s, d);
      if k - 1 in s {
        if d in Leaving(lists[k - 1], s) {
          var j :| 0 <= j < |lists[k - 1]| && lists[k - 1][j].dstNode !in s
                   && d == Dest(lists[k - 1][j].dstNode, lists[k - 1][j].dstPipe);
          assert Crosses(lists, s, k - 1, j, d);
        }
        if u: nat, j: nat :| u < k && Crosses(lists, s, u, j, d) {
          assert u == k - 1 ==> d in Leaving(lists[k - 1], s);
        }
      }
    }
  }

  /** The pipes of one node that leave the cluster, appended to `dest`. */
  method CollectNode(g: Service, u: nat, state: BitSet, dest: seq<Dest>) returns (more: seq<Dest>)
    requires WellFormed(g) && state.Valid() && state.size == NodeCount(g) && u < NodeCount(g)
    ensures more == dest + Leaving(g.outgoing[u], state.bits)
  {
    hide Bits, Bitmap.WordCount, Edge;
    var pipes := g.outgoing[u];
    more := dest;
    for j := 0 to |pipes|
      invariant more == dest + Leaving(pipes[..j], state.bits)
    {
      assert pipes[..j + 1][..j] == pipes[..j];
      var inside := state.Get(pipes[j].dstNode);
      if !inside {
        more := more + [Dest(pipes[j].dstNode, pipes[j].dstPipe)];
      }
    }
    assert pipes[..|pipes|] == pipes;
  }

  lemma ClusterFromFlips(g: Service, c: nat)
    requires WellFormed(g)
    ensures SymmetricDifference(SymmetricDifference({}, ReachSet(g, NO_NODE)), ReachSet(g, c)) == Cluster(g, c)
  {
  }

  /**
   Two searches, one with and one without `c`, leave the cluster of `c` in the state bits;
   the pipes that leave it are then collected node by node.
   */
  method BoundaryNew(g: Service, c: nat, state: BitSet) returns (b: Boundary)
    requires WellFormed(g) && c < NodeCount(g) && state.Valid() && state.size == NodeCount(g)
    modifies state, state.words
    ensures state.Valid()
    ensures b.dest == LeavingUpTo(g.outgoing, Cluster(g, c), NodeCount(g))
    ensures b.outputCancelled <==> g.output in Cluster(g, c)
  {
    hide Bits, Reachable;
    state.Clear();
    ServiceDfs(g, state, NO_NODE);
    ServiceDfs(g, state, c);
    ClusterFromFlips(g, c);
    var dest: seq<Dest> := [];
    for i := 0 to NodeCount(g)
      invariant state.Valid() && state.bits == Cluster(g, c)
      invariant dest == LeavingUpTo(g.outgoing, Cluster(g, c), i)
    {
      var inside := state.Get(i);
      if inside {
        dest := CollectNode(g, i, state, dest);
      }
    }
    var out := state.Get(g.output);
    b := Boundary(out, dest);
  }

  // ----- The analysis -----

  /** What the analysis records for node `c`. */
  ghost predicate Recorded(g: Service, c: nat, entry: Option<Boundary>) {
    entry.Some? ==>
      && entry.value.dest == LeavingUpTo(g.outgoing, Cluster(g, c), NodeCount(g))
      && (entry.value.outputCancelled <==> g.output in Cluster(g, c))
  }

  /** Is every input of `nid` fed by the source of its first input? */
  method SameSource(g: Service, nid: nat) returns (same: bool)
    requires WellFormed(g) && nid < NodeCount(g) && |g.incoming[nid]| > 0
    ensures same <==> SoleFeeder(g, g.incoming[nid][0].srcNode, nid)
  {
    var pipes := g.incoming[nid];
    var source := pipes[0].srcNode;
    same := true;
    var i := 0;
    while same && i < |pipes|
      invariant 0 <= i <= |pipes|
      invariant same <==> forall j :: 0 <= j < i ==> pipes[j].srcNode == source
    {
      same := source == pipes[i].srcNode;
      i := i + 1;
    }
  }

  /** A boundary is recorded for exactly the nodes that are some node's only feeder. */
  method Analyze(g: Service) returns (info: seq<Option<Boundary>>)
    requires WellFormed(g)
    ensures |info| == NodeCount(g)
    ensures forall c :: 0 <= c < NodeCount(g) ==> Recorded(g, c, info[c])
    ensures forall c :: 0 <= c < NodeCount(g) && info[c].Some? ==>
              (info[c].value.outputCancelled <==> g.output in Cluster(g, c))
    ensures forall c :: 0 <= c < NodeCount(g) ==>
              (info[c].Some? <==> exists w :: 0 <= w < NodeCount(g) && SoleFeeder(g, c, w))
    ensures Acyclic(g) && AllReachable(g) ==>
              forall c :: 0 <= c < NodeCount(g) ==> (info[c].Some? <==> Critical(g, c))
  {
    hide Bits, Reachable, Cluster, LeavingUpTo, Critical, Acyclic, AllReachable;
    var n := NodeCount(g);
    var state := new BitSet(n);
    info := seq(n, i => None);
    for nid := 0 to n
      invariant |info| == n && state.Valid() && state.size == n && fresh(state) && fresh(state.words)
      invariant forall c :: 0 <= c < n ==> Recorded(g, c, info[c])
      invariant forall c :: 0 <= c < n ==> (info[c].Some? <==> exists w :: 0 <= w < nid && SoleFeeder(g, c, w))
    {
      if |g.incoming[nid]| > 0 {
        var same := SameSource(g, nid);
        if same {
          var c := g.incoming[nid][0].srcNode;
          if info[c].None? {
            var b := BoundaryNew(g, c, state);
            info := info[c := Some(b)];
          }
        }
      }
    }
    if Acyclic(g) && AllReachable(g) {
      forall c | 0 <= c < n
        ensures info[c].Some? <==> Critical(g, c)
      {
        CriticalIffSoleFeeder(g, c);
      }
    }
  }

  // ----- The graph theory behind it -----

  /** The predecessors of a cluster member other than `c` are all in the cluster. */
  lemma ClusterPredecessors(g: Service, c: nat, u: nat, v: nat)
    requires WellFormed(g) && AllReachable(g)
    requires v in Cluster(g, c) && v != c && Edge(g, u, v)
    ensures u in Cluster(g, c)
  {
    assert Reachable(g, NO_NODE, u);
    if Reachable(g, c, u) {
      ReachableStep(g, c, u, v);
    }
  }

  /** A cluster member other than `c` is not the input, so it has an incoming pipe. */
  lemma ClusterMemberHasInput(g: Service, c: nat, v: nat)
    requires WellFormed(g) && v in Cluster(g, c) && v != c
    ensures |g.incoming[v]| > 0
  {
    if v == g.input {
      assert PathTo(g, [v], g.input, v) && c !in [v];
      assert false;
    }
    var u := ReachableBack(g, NO_NODE, v);
    EdgeSeenFromBothEnds(g, u, v);
  }

  /** Closed under cancellation: a node all of whose inputs come from `s` is in `s`. */
  ghost predicate CancellationClosed(g: Service, s: set<nat>)
    requires WellFormed(g)
  {
    forall v :: 0 <= v < NodeCount(g) && AllInputsFrom(g, s, v) ==> v in s
  }

  predicate AllInputsFrom(g: Service, s: set<nat>, v: nat)
    requires v < |g.incoming|
  {
    |g.incoming[v]| > 0 && forall j :: 0 <= j < |g.incoming[v]| ==> g.incoming[v][j].srcNode in s
  }

  /** The cluster is the least set that contains `c` and is closed under cancellation. */
  lemma ClusterIsLeast(g: Service, c: nat)
    requires WellFormed(g) && Acyclic(g) && AllReachable(g) && c < NodeCount(g)
    ensures c in Cluster(g, c) && CancellationClosed(g, Cluster(g, c))
    ensures forall s :: c in s && CancellationClosed(g, s) ==> Cluster(g, c) <= s
  {
    ClusterIsClosed(g, c);
    forall s | c in s && CancellationClosed(g, s)
      ensures Cluster(g, c) <= s
    {
      ClusterInClosed(g, c, s);
    }
  }

  lemma ClusterIsClosed(g: Service, c: nat)
    requires WellFormed(g) && Acyclic(g) && AllReachable(g) && c < NodeCount(g)
    ensures c in Cluster(g, c) && CancellationClosed(g, Cluster(g, c))
  {
    if c in ReachSet(g, c) {
      ReachableIsNode(g, c, c);
      assert false;
    }
    forall v | 0 <= v < NodeCount(g) && AllInputsFrom(g, Cluster(g, c), v)
      ensures v in Cluster(g, c)
    {
      if Reachable(g, c, v) {
        InputHasNoInputs(g);
        var u := ReachableBack(g, c, v);
        EdgeSeenFromBothEnds(g, u, v);
        assert false;
      }
    }
  }

  lemma ClusterInClosed(g: Service, c: nat, s: set<nat>)
    requires WellFormed(g) && Acyclic(g) && AllReachable(g)
    requires c in s && CancellationClosed(g, s)
    ensures Cluster(g, c) <= s
  {
    var missed := Cluster(g, c) - s;
    forall v | v in missed
      ensures HasPredecessorIn(g, missed, v)
    {
      ClusterMemberHasInput(g, c, v);
      assert !AllInputsFrom(g, s, v);
      var j :| 0 <= j < |g.incoming[v]| && g.incoming[v][j].srcNode !in s;
      var u := g.incoming[v][j].srcNode;
      EdgeSeenFromBothEnds(g, u, v);
      ClusterPredecessors(g, c, u, v);
      assert u in missed && Edge(g, u, v);
    }
    NoEndlessRetreat(g, missed);
  }

  /** In an acyclic graph with all nodes reachable nothing feeds the input. */
  lemma InputHasNoInputs(g: Service)
    requires WellFormed(g) && Acyclic(g) && AllReachable(g)
    ensures |g.incoming[g.input]| == 0
  {
    if |g.incoming[g.input]| > 0 {
      var u := g.incoming[g.input][0].srcNode;
      EdgeSeenFromBothEnds(g, u, g.input);
      assert Reachable(g, NO_NODE, u);
      var p :| PathTo(g, p, g.input, u) && NO_NODE !in p;
      PathExtend(g, p, g.input);
    }
  }

  /** The in-degree test is sound and complete: `c` is critical iff it is some node's only feeder. */
  lemma CriticalIffSoleFeeder(g: Service, c: nat)
    requires WellFormed(g) && Acyclic(g) && AllReachable(g) && c < NodeCount(g)
    ensures Critical(g, c) <==> exists w :: 0 <= w < NodeCount(g) && SoleFeeder(g, c, w)
  {
    if w :| 0 <= w < NodeCount(g) && SoleFeeder(g, c, w) {
      SoleFeederIsCritical(g, c, w);
    } else {
      NoSoleFeederNotCritical(g, c);
    }
  }

  lemma SoleFeederIsCritical(g: Service, c: nat, w: nat)
    requires WellFormed(g) && Acyclic(g) && AllReachable(g) && c < NodeCount(g)
    requires w < NodeCount(g) && SoleFeeder(g, c, w)
    ensures Critical(g, c)
  {
    ClusterIsClosed(g, c);
    assert AllInputsFrom(g, Cluster(g, c), w);
    EdgeSeenFromBothEnds(g, c, w);
    assert IsPath(g, [c, w]);
  }

  lemma NoSoleFeederNotCritical(g: Service, c: nat)
    requires WellFormed(g) && Acyclic(g) && AllReachable(g)
    requires !exists w :: 0 <= w < NodeCount(g) && SoleFeeder(g, c, w)
    ensures !Critical(g, c)
  {
    var others := Cluster(g, c) - {c};
    forall v | v in others
      ensures HasPredecessorIn(g, others, v)
    {
      ClusterMemberHasInput(g, c, v);
      assert !SoleFeeder(g, c, v);
      var j :| 0 <= j < |g.incoming[v]| && g.incoming[v][j].srcNode != c;
      var u := g.incoming[v][j].srcNode;
      EdgeSeenFromBothEnds(g, u, v);
      ClusterPredecessors(g, c, u, v);
      assert u in others && Edge(g, u, v);
    }
    NoEndlessRetreat(g, others);
  }

  /** What the header asks for: some node's only input pipe comes from `c`. */
  predicate OnlyPipe(g: Service, c: nat, w: nat)
    requires w < |g.incoming|
  {
    |g.incoming[w]| == 1 && g.incoming[w][0].srcNode == c
  }

  ghost predicate HeaderTest(g: Service, c: nat)
    requires |g.incoming| == NodeCount(g)
  {
    exists w :: 0 <= w < NodeCount(g) && OnlyPipe(g, c, w)
  }

  /** No two pipes join the same pair of nodes. */
  ghost predicate SinglePipes(g: Service) {
    forall w, i, j :: 0 <= w < |g.incoming| && 0 <= i < j < |g.incoming[w]| ==>
      g.incoming[w][i].srcNode != g.incoming[w][j].srcNode
  }

  /**
   The header's test finds only critical nodes. It finds all of them iff every node that feeds all
   inputs of some node also feeds one by a single pipe.
   */
  lemma HeaderTestIsRight(g: Service)
    requires WellFormed(g) && Acyclic(g) && AllReachable(g)
    ensures forall c :: 0 <= c < NodeCount(g) && HeaderTest(g, c) ==> Critical(g, c)
    ensures (forall c :: 0 <= c < NodeCount(g) ==> (HeaderTest(g, c) <==> Critical(g, c))) <==>
            forall c, w :: 0 <= c < NodeCount(g) && 0 <= w < NodeCount(g) && SoleFeeder(g, c, w) ==> HeaderTest(g, c)
  {
    hide Critical, Acyclic, AllReachable;
    forall c | 0 <= c < NodeCount(g)
      ensures HeaderTest(g, c) ==> Critical(g, c)
      ensures Critical(g, c) <==> exists w :: 0 <= w < NodeCount(g) && SoleFeeder(g, c, w)
    {
      CriticalIffSoleFeeder(g, c);
      if HeaderTest(g, c) {
        var w :| 0 <= w < NodeCount(g) && OnlyPipe(g, c, w);
        assert SoleFeeder(g, c, w);
      }
    }
  }

  lemma SourcesDiffer(g: Service, w: nat)
    requires SinglePipes(g) && w < |g.incoming| && |g.incoming[w]| > 1
    ensures g.incoming[w][0].srcNode != g.incoming[w][1].srcNode
  {
  }

  /** Where no two pipes join the same nodes, the header's test agrees with criticality. */
  lemma HeaderTestWithSinglePipes(g: Service, c: nat)
    requires WellFormed(g) && Acyclic(g) && AllReachable(g) && SinglePipes(g) && c < NodeCount(g)
    ensures HeaderTest(g, c) <==> Critical(g, c)
  {
    hide Critical, Acyclic, AllReachable;
    HeaderTestIsRight(g);
    forall a, w | 0 <= a < NodeCount(g) && 0 <= w < NodeCount(g) && SoleFeeder(g, a, w)
      ensures OnlyPipe(g, a, w)
    {
      if |g.incoming[w]| > 1 {
        SourcesDiffer(g, w);
      }
    }
  }

  /** Two nodes joined by two parallel pipes. */
  const PARALLEL_PIPES: Service :=
    Service([[], [Pipe(0, 0, 1, 0), Pipe(0, 1, 1, 1)]],
            [[Pipe(0, 0, 1, 0), Pipe(0, 1, 1, 1)], []], 0, 1)

  /** Two nodes joined by one pipe. */
  const ONE_PIPE: Service := Service([[], [Pipe(0, 0, 1, 0)]], [[Pipe(0, 0, 1, 0)], []], 0, 1)

  /** The in-degree of one that the header asks for is too strict: here no node has it, yet node 0 is critical. */
  lemma InDegreeOneIsTooStrict()
    ensures var g := PARALLEL_PIPES;
            && WellFormed(g) && Acyclic(g) && AllReachable(g) && Critical(g, 0)
            && forall w :: 0 <= w < NodeCount(g) ==> |g.incoming[w]| != 1
  {
    hide WellFormed, Acyclic, AllReachable, Critical, Edge, CountTo, CountFrom;
    ParallelEdges();
    TwoNodes(PARALLEL_PIPES);
    SoleFeederIsCritical(PARALLEL_PIPES, 0, 1);
  }

  /** A service on which the header's test works: one pipe, and node 0 is critical. */
  lemma InDegreeOneIsEnough()
    ensures var g := ONE_PIPE;
            && WellFormed(g) && Acyclic(g) && AllReachable(g) && SinglePipes(g) && HeaderTest(g, 0) && Critical(g, 0)
  {
    hide WellFormed, Acyclic, AllReachable, Critical, Edge, CountTo, CountFrom;
    OneEdge();
    TwoNodes(ONE_PIPE);
    SoleFeederIsCritical(ONE_PIPE, 0, 1);
    HeaderTestWithSinglePipes(ONE_PIPE, 0);
  }

  lemma TwoNodes(g: Service)
    requires NodeCount(g) == 2 && g.input == 0 && forall u, v :: Edge(g, u, v) <==> u == 0 && v == 1
    ensures Acyclic(g) && AllReachable(g)
  {
    hide Edge;
    forall p | IsPath(g, p) && |p| > 1
      ensures p[0] != p[|p| - 1]
    {
      assert Edge(g, p[0], p[1]);
      assert Edge(g, p[|p| - 2], p[|p| - 1]);
    }
    assert PathTo(g, [0], 0, 0) && NO_NODE !in [0];
    assert PathTo(g, [0, 1], 0, 1) && NO_NODE !in [0, 1];
  }

  lemma OneEdge()
    ensures WellFormed(ONE_PIPE)
    ensures forall u, v :: Edge(ONE_PIPE, u, v) <==> u == 0 && v == 1
  {
    forall v: nat
      ensures CountTo(ONE_PIPE.outgoing[0], v) == if v == 1 then 1 else 0
      ensures CountFrom(ONE_PIPE.incoming[1], v) == if v == 0 then 1 else 0
    {
      assert [Pipe(0, 0, 1, 0)][..0] == [];
    }
  }

  lemma ParallelEdges()
    ensures WellFormed(PARALLEL_PIPES)
    ensures forall u, v :: Edge(PARALLEL_PIPES, u, v) <==> u == 0 && v == 1
  {
    forall v: nat
      ensures CountTo(PARALLEL_PIPES.outgoing[0], v) == if v == 1 then 2 else 0
      ensures CountFrom(PARALLEL_PIPES.incoming[1], v) == if v == 0 then 2 else 0
    {
      CountPair(Pipe(0, 0, 1, 0), Pipe(0, 1, 1, 1), v);
    }
  }

  lemma CountPair(a: Pipe, b: Pipe, v: nat)
    ensures CountTo([a, b], v) == (if a.dstNode == v then 1 else 0) + if b.dstNode == v then 1 else 0
    ensures CountFrom([a, b], v) == (if a.srcNode == v then 1 else 0) + if b.srcNode == v then 1 else 0
  {
    assert [a, b][..1] == [a] && [a][..0] == [];
    assert CountTo([a], v) == if a.dstNode == v then 1 else 0;
    assert CountFrom([a], v) == if a.srcNode == v then 1 else 0;
  }
}
