/**
 Giving frames back: what dropping a reference and freeing a node do to the heap.
 */
module FrameRelease {
  import opened FiniteSets
  import opened FrameRange
  import opened FrameTree

  // ----- Dropping tree references -----

  /** A shared node loses one of its references. */
  function DropRef(heap: Heap, a: nat): Heap
    requires a in heap && heap[a].refcnt > 0
  {
    heap[a := heap[a].(refcnt := heap[a].refcnt - 1)]
  }

  /** The pointers a node holds. */
  function Links(node: Node): multiset<nat> {
    if node.Leaf? || node.left == NULL then multiset{} else multiset{node.left, node.right}
  }

  lemma DropRefKeepsInv(heap: Heap, level: map<nat, nat>, frames: map<nat, nat>, loose: multiset<nat>, a: nat)
    requires Inv(heap, level, frames, loose) && a in loose && a in heap && heap[a].refcnt > 1
    ensures Inv(DropRef(heap, a), level, frames, loose - multiset{a})
  {
    hide LeftRefs, RightRefs, FrameRefs;
    var after := DropRef(heap, a);
    forall b | b in after
      ensures NodeShaped(after, level, b)
    {
      assert NodeShaped(heap, level, b);
    }
    forall b | b in after
      ensures after[b].refcnt == Refs(after, frames, loose - multiset{a}, b) > 0
    {
      DropRefRefs(heap, a, b);
    }
  }

  lemma DropRefRefs(heap: Heap, a: nat, b: nat)
    requires a in heap && heap[a].refcnt > 0
    ensures LeftRefs(DropRef(heap, a), b) == LeftRefs(heap, b)
    ensures RightRefs(DropRef(heap, a), b) == RightRefs(heap, b)
  {
  }

  /** A node whose only reference is a loose one can go; what it points to becomes loose. */
  lemma RemoveKeepsInv(heap: Heap, level: map<nat, nat>, frames: map<nat, nat>, loose: multiset<nat>, a: nat)
    requires Inv(heap, level, frames, loose) && a in loose && a in heap && heap[a].refcnt == 1
    ensures Inv(heap - {a}, level, frames, loose - multiset{a} + Links(heap[a]))
  {
    NobodyElsePoints(heap, level, frames, loose, a);
    RemoveKeepsShape(heap, level, frames, loose, a);
    RemoveKeepsCounts(heap, level, frames, loose, a);
  }

  lemma NobodyElsePoints(heap: Heap, level: map<nat, nat>, frames: map<nat, nat>, loose: multiset<nat>, a: nat)
    requires Inv(heap, level, frames, loose) && a in loose && a in heap && heap[a].refcnt == 1
    ensures FrameRefs(frames, a) == {} && LeftRefs(heap, a) == {} && RightRefs(heap, a) == {} && loose[a] == 1
  {
  }

  lemma RemoveKeepsShape(heap: Heap, level: map<nat, nat>, frames: map<nat, nat>, loose: multiset<nat>, a: nat)
    requires Shaped(heap, level, frames, loose) && a in heap && loose[a] == 1
    requires FrameRefs(frames, a) == {} && LeftRefs(heap, a) == {} && RightRefs(heap, a) == {}
    ensures Shaped(heap - {a}, level, frames, loose - multiset{a} + Links(heap[a]))
  {
    var after := heap - {a};
    assert NodeShaped(heap, level, a);
    assert a !in Links(heap[a]);
    forall b | b in after
      ensures NodeShaped(after, level, b)
    {
      assert NodeShaped(heap, level, b);
      assert b !in LeftRefs(heap, a) && b !in RightRefs(heap, a);
    }
    forall f | f in frames
      ensures frames[f] != a
    {
      assert f !in FrameRefs(frames, a);
    }
  }

  lemma RemoveKeepsCounts(heap: Heap, level: map<nat, nat>, frames: map<nat, nat>, loose: multiset<nat>, a: nat)
    requires Inv(heap, level, frames, loose) && a in heap && loose[a] == 1
    ensures Counted(heap - {a}, frames, loose - multiset{a} + Links(heap[a]))
  {
    hide LeftRefs, RightRefs, FrameRefs, Links, NodeShaped;
    NodeIsShaped(heap, level, frames, loose, a);
    var after := heap - {a};
    forall b | b in after
      ensures after[b].refcnt == Refs(after, frames, loose - multiset{a} + Links(heap[a]), b) > 0
    {
      NodeIsShaped(heap, level, frames, loose, b);
      RemoveRefs(heap, a, b);
      LinksCount(heap, level, loose, a, b);
    }
  }

  lemma NodeIsShaped(heap: Heap, level: map<nat, nat>, frames: map<nat, nat>, loose: multiset<nat>, a: nat)
    requires Inv(heap, level, frames, loose) && a in heap
    ensures NodeShaped(heap, level, a) && heap[a].refcnt == Refs(heap, frames, loose, a) > 0
  {
  }

  lemma RemoveRefs(heap: Heap, a: nat, b: nat)
    requires a in heap
    ensures |LeftRefs(heap - {a}, b)| == |LeftRefs(heap, b)| - if heap[a].Inner? && heap[a].left == b then 1 else 0
    ensures |RightRefs(heap - {a}, b)| == |RightRefs(heap, b)| - if heap[a].Inner? && heap[a].right == b then 1 else 0
  {
    DifferInOne(LeftRefs(heap, b), LeftRefs(heap - {a}, b), a);
    DifferInOne(RightRefs(heap, b), RightRefs(heap - {a}, b), a);
  }

  lemma LinksCount(heap: Heap, level: map<nat, nat>, loose: multiset<nat>, a: nat, b: nat)
    requires a in heap && b in heap && a != b && NodeShaped(heap, level, a) && NodeShaped(heap, level, b)
    ensures (loose - multiset{a} + Links(heap[a]))[b] ==
            loose[b] + (if heap[a].Inner? && heap[a].left == b then 1 else 0) + if heap[a].Inner? && heap[a].right == b then 1 else 0
  {
  }

  /** `after` is what is left of `before`: surviving nodes hold the same values and links. */
  ghost predicate Remains(before: Heap, after: Heap) {
    forall a :: a in after ==> a in before && SameContents(after[a], before[a])
  }

  /** Registers of the surviving frames keep their values. */
  lemma {:induction false} RemainsKeepsValues(before: Heap, after: Heap, level: map<nat, nat>, frames: map<nat, nat>,
                                              p: nat, t: nat, i: nat)
    requires Remains(before, after) && Shaped(after, level, frames, multiset{})
    requires NULL !in before && (p == NULL || p in after)
    ensures ValueAt(after, p, t, i) == ValueAt(before, p, t, i)
    decreases HEIGHT - i
  {
    if p in after && i < HEIGHT && Mid(t, i) != t {
      assert NodeShaped(after, level, p);
      RemainsKeepsValues(before, after, level, frames, Child(after, p, t < Mid(t, i)), t, i + 1);
    }
  }

  /** Without frames there are no nodes: every node would need a holder one level higher. */
  lemma {:induction false} NoFramesNoNodes(heap: Heap, level: map<nat, nat>, a: nat)
    requires Inv(heap, level, map[], multiset{}) && a in heap && a in level
    ensures false
    decreases HEIGHT + 1 - (if a in level then level[a] else 0)
  {
    assert NodeShaped(heap, level, a);
    assert FrameRefs(map[], a) == {};
    var p :| p in LeftRefs(heap, a) + RightRefs(heap, a);
    assert NodeShaped(heap, level, p);
    NoFramesNoNodes(heap, level, p);
  }

  // ----- References held by frames -----

  /** Closing a frame leaves its root reference loose. */
  lemma CloseFrame(heap: Heap, level: map<nat, nat>, frames: map<nat, nat>, loose: multiset<nat>, f: nat)
    requires Inv(heap, level, frames, loose) && NULL !in heap && f in frames
    ensures Inv(heap, level, frames - {f}, if frames[f] == NULL then loose else loose + multiset{frames[f]})
    ensures frames[f] != NULL ==> frames[f] in level && level[frames[f]] == HEIGHT
  {
    var rest := frames - {f};
    forall b | b in heap
      ensures |FrameRefs(rest, b)| == |FrameRefs(frames, b)| - if frames[f] == b then 1 else 0
    {
      assert FrameRefs(rest, b) == FrameRefs(frames, b) - {f};
      assert f in FrameRefs(frames, b) <==> frames[f] == b;
    }
  }

  /** A new frame adds a reference to the root it shares. */
  lemma OpenFrame(heap: Heap, level: map<nat, nat>, frames: map<nat, nat>, f: nat, root: nat)
    requires Inv(heap, level, frames, multiset{}) && NULL !in heap && f !in frames
    requires Points(heap, level, root, HEIGHT)
    ensures Inv(if root in heap then heap[root := heap[root].(refcnt := heap[root].refcnt + 1)] else heap,
                level, frames[f := root], multiset{})
  {
    var after := if root in heap then heap[root := heap[root].(refcnt := heap[root].refcnt + 1)] else heap;
    forall b | b in after
      ensures NodeShaped(after, level, b)
    {
      assert NodeShaped(heap, level, b);
    }
    forall b | b in after
      ensures after[b].refcnt == Refs(after, frames[f := root], multiset{}, b) > 0
    {
      OpenFrameRefs(heap, frames, f, root, b);
    }
  }

  lemma OpenFrameRefs(heap: Heap, frames: map<nat, nat>, f: nat, root: nat, b: nat)
    requires f !in frames
    ensures |FrameRefs(frames[f := root], b)| == |FrameRefs(frames, b)| + if b == root then 1 else 0
    ensures root in heap ==>
              && LeftRefs(heap[root := heap[root].(refcnt := heap[root].refcnt + 1)], b) == LeftRefs(heap, b)
              && RightRefs(heap[root := heap[root].(refcnt := heap[root].refcnt + 1)], b) == RightRefs(heap, b)
  {
    DifferInOne(FrameRefs(frames, b), FrameRefs(frames[f := root], b), f);
    if root in heap {
      RefcntKeepsLinks(heap, root, heap[root].refcnt + 1, b);
    }
  }

  lemma RefcntKeepsLinks(heap: Heap, a: nat, count: nat, b: nat)
    requires a in heap
    ensures LeftRefs(heap[a := heap[a].(refcnt := count)], b) == LeftRefs(heap, b)
    ensures RightRefs(heap[a := heap[a].(refcnt := count)], b) == RightRefs(heap, b)
  {
  }

  /** Giving an empty frame an empty root node. */
  lemma GrowRoot(heap: Heap, level: map<nat, nat>, frames: map<nat, nat>, f: nat, n: nat)
    requires Inv(heap, level, frames, multiset{}) && NULL !in heap && f in frames && frames[f] == NULL
    requires n !in heap && n != NULL
    ensures Inv(heap[n := Fresh(false)], level[n := HEIGHT], frames[f := n], multiset{})
  {
    var after, levels, now := heap[n := Fresh(false)], level[n := HEIGHT], frames[f := n];
    forall b | b in after
      ensures NodeShaped(after, levels, b)
    {
      assert b in heap ==> NodeShaped(heap, level, b);
    }
    forall b | b in after
      ensures after[b].refcnt == Refs(after, now, multiset{}, b) > 0
    {
      GrowRootRefs(heap, frames, f, n, b);
      if b == n {
        NobodyPointsOutside(heap, level, frames, n);
      }
    }
  }

  lemma GrowRootRefs(heap: Heap, frames: map<nat, nat>, f: nat, n: nat, b: nat)
    requires f in frames && frames[f] == NULL && b != NULL && n !in heap
    ensures FrameRefs(frames[f := n], b) == FrameRefs(frames, b) + if b == n then {f} else {}
    ensures LeftRefs(heap[n := Fresh(false)], b) == LeftRefs(heap, b)
    ensures RightRefs(heap[n := Fresh(false)], b) == RightRefs(heap, b)
  {
  }

  /** An empty root holds the same values as no root, and other trees do not notice it. */
  lemma {:induction false} GrowRootKeepsValues(heap: Heap, level: map<nat, nat>, frames: map<nat, nat>, n: nat, p: nat, t: nat, i: nat)
    requires Shaped(heap, level, frames, multiset{}) && NULL !in heap && n !in heap && n != NULL
    ensures p != n ==> ValueAt(heap[n := Fresh(false)], p, t, i) == ValueAt(heap, p, t, i)
    ensures p == n ==> ValueAt(heap[n := Fresh(false)], p, t, i) == Undef
    decreases HEIGHT - i
  {
    if i < HEIGHT && p in heap && Mid(t, i) != t {
      assert NodeShaped(heap, level, p);
      GrowRootKeepsValues(heap, level, frames, n, Child(heap, p, t < Mid(t, i)), t, i + 1);
    }
  }
}
