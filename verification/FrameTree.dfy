/**
 The heap behind copy-on-write frames: tree nodes with reference counts, shared between
 frames. A heap maps the addresses of the allocated nodes to their contents; an address that
 is not in the map is free memory.
 */
module FrameTree {
  import opened FiniteSets
  import opened FrameRange

  /** A script value: reference-counted objects are named by an id. */
  datatype Value = Undef | Number(n: int) | Ref(id: nat) | Bad

  /** A leaf is allocated without room for children. */
  datatype Node =
    | Leaf(refcnt: nat, value: Value)
    | Inner(refcnt: nat, value: Value, left: nat, right: nat)

  const NULL: nat := 0

  type Heap = map<nat, Node>

  // ----- Who points where -----

  function FrameRefs(frames: map<nat, nat>, a: nat): set<nat> {
    set f | f in frames && frames[f] == a
  }

  function LeftRefs(heap: Heap, a: nat): set<nat> {
    set p | p in heap && heap[p].Inner? && heap[p].left == a
  }

  function RightRefs(heap: Heap, a: nat): set<nat> {
    set p | p in heap && heap[p].Inner? && heap[p].right == a
  }

  /** The pointers to `a`: from frames, from `loose` local variables, and from parent nodes. */
  function Refs(heap: Heap, frames: map<nat, nat>, loose: multiset<nat>, a: nat): nat {
    |FrameRefs(frames, a)| + loose[a] + |LeftRefs(heap, a)| + |RightRefs(heap, a)|
  }

  /** `a` is null or an allocated node of height `h`. */
  ghost predicate Points(heap: Heap, level: map<nat, nat>, a: nat, h: nat) {
    a != NULL ==> a in heap && a in level && level[a] == h
  }

  ghost predicate NodeShaped(heap: Heap, level: map<nat, nat>, a: nat)
    requires a in heap
  {
    && a != NULL && a in level && 0 < level[a] <= HEIGHT
    && (heap[a].Leaf? <==> level[a] == 1)
    && (heap[a].Inner? ==>
          && (heap[a].left == NULL <==> heap[a].right == NULL)
          && Points(heap, level, heap[a].left, level[a] - 1)
          && Points(heap, level, heap[a].right, level[a] - 1))
  }

  /** Every node sits at one height, leaves have height one, children come in pairs one level down. */
  ghost predicate Shaped(heap: Heap, level: map<nat, nat>, frames: map<nat, nat>, loose: multiset<nat>) {
    && (forall a {:trigger NodeShaped(heap, level, a)} :: a in heap ==> NodeShaped(heap, level, a))
    && (forall f :: f in frames ==> Points(heap, level, frames[f], HEIGHT))
    && (forall a :: a in loose ==> a in heap)
  }

  /** Reference counts are exact, and every allocated node is referenced. */
  ghost predicate Counted(heap: Heap, frames: map<nat, nat>, loose: multiset<nat>) {
    forall a :: a in heap ==> heap[a].refcnt == Refs(heap, frames, loose, a) > 0
  }

  ghost predicate Inv(heap: Heap, level: map<nat, nat>, frames: map<nat, nat>, loose: multiset<nat>) {
    Shaped(heap, level, frames, loose) && Counted(heap, frames, loose)
  }

  // ----- What a frame holds -----

  function Child(heap: Heap, p: nat, goLeft: bool): nat {
    if p in heap && heap[p].Inner? then (if goLeft then heap[p].left else heap[p].right) else NULL
  }

  /** The node that the search for register `t` below `p` visits at step `i`; null once it has left the tree. */
  function NodeAt(heap: Heap, p: nat, t: nat, i: nat): nat {
    if i == 0 then p else Child(heap, NodeAt(heap, p, t, i - 1), t < Mid(t, i - 1))
  }

  /** The value that the search for `t` finds when it goes on from node `p` at step `i`. */
  function ValueAt(heap: Heap, p: nat, t: nat, i: nat): Value
    decreases HEIGHT - i
  {
    if p !in heap || HEIGHT <= i then Undef
    else if Mid(t, i) == t then heap[p].value
    else ValueAt(heap, Child(heap, p, t < Mid(t, i)), t, i + 1)
  }

  /** The value of register `t` in the tree rooted at `p`. */
  function Register(heap: Heap, p: nat, t: nat): Value {
    ValueAt(heap, p, t, 0)
  }

  /** Following the search step by step does not change what it finds. */
  lemma {:induction false} RegisterFromStep(heap: Heap, p: nat, t: nat, i: nat)
    requires OnTheWay(t, i) && NULL !in heap
    ensures Register(heap, p, t) == ValueAt(heap, NodeAt(heap, p, t, i), t, i)
  {
    hide ValueAt, Mid, Child;
    if i > 0 {
      assert OnTheWay(t, i - 1);
      RegisterFromStep(heap, p, t, i - 1);
      RangesArePerfect(t, i);
      ValueStep(heap, NodeAt(heap, p, t, i - 1), t, i - 1);
    }
  }

  lemma ValueStep(heap: Heap, p: nat, t: nat, i: nat)
    requires i < HEIGHT && Mid(t, i) != t && NULL !in heap
    ensures ValueAt(heap, p, t, i) == ValueAt(heap, Child(heap, p, t < Mid(t, i)), t, i + 1)
  {
  }

  /** Along a search the height goes down by one in every step. */
  lemma {:induction false} LevelAt(heap: Heap, level: map<nat, nat>, frames: map<nat, nat>, loose: multiset<nat>, f: nat, t: nat, i: nat)
    requires Shaped(heap, level, frames, loose) && f in frames && i < HEIGHT
    ensures Points(heap, level, NodeAt(heap, frames[f], t, i), HEIGHT - i)
  {
    if i > 0 {
      LevelAt(heap, level, frames, loose, f, t, i - 1);
      var p := NodeAt(heap, frames[f], t, i - 1);
      assert p in heap ==> NodeShaped(heap, level, p);
    }
  }

  // ----- The three heap updates of a write -----

  function Fresh(leaf: bool): Node {
    if leaf then Leaf(1, Undef) else Inner(1, Undef, NULL, NULL)
  }

  /** Give the childless node `a` two empty children. */
  function AddChildren(heap: Heap, a: nat, l: nat, r: nat, leaf: bool): Heap
    requires a in heap && heap[a].Inner?
  {
    heap[a := heap[a].(left := l, right := r)][l := Fresh(leaf)][r := Fresh(leaf)]
  }

  /** The nodes that can be given children. */
  ghost predicate Childless(heap: Heap, a: nat, l: nat, r: nat) {
    && NULL !in heap && a in heap && heap[a].Inner? && heap[a].left == heap[a].right == NULL
    && l !in heap && r !in heap && l != r && l != NULL && r != NULL
  }

  lemma AddChildrenRefs(heap: Heap, a: nat, l: nat, r: nat, leaf: bool, b: nat)
    requires Childless(heap, a, l, r) && b != NULL
    ensures LeftRefs(AddChildren(heap, a, l, r, leaf), b) == LeftRefs(heap, b) + if b == l then {a} else {}
    ensures RightRefs(AddChildren(heap, a, l, r, leaf), b) == RightRefs(heap, b) + if b == r then {a} else {}
  {
  }

  lemma AddChildrenKeepsCounts(heap: Heap, level: map<nat, nat>, frames: map<nat, nat>, a: nat, l: nat, r: nat, leaf: bool)
    requires Inv(heap, level, frames, multiset{}) && Childless(heap, a, l, r)
    ensures Counted(AddChildren(heap, a, l, r, leaf), frames, multiset{})
  {
    hide LeftRefs, RightRefs, FrameRefs, Shaped;
    var after := AddChildren(heap, a, l, r, leaf);
    forall b | b in after
      ensures after[b].refcnt == Refs(after, frames, multiset{}, b) > 0
    {
      AddChildrenRefs(heap, a, l, r, leaf, b);
      if b !in heap {
        NobodyPointsOutside(heap, level, frames, b);
      }
    }
  }

  lemma AddChildrenKeepsShape(heap: Heap, level: map<nat, nat>, frames: map<nat, nat>, a: nat, l: nat, r: nat)
    requires Shaped(heap, level, frames, multiset{}) && Childless(heap, a, l, r)
    requires a in level && level[a] > 1
    ensures Shaped(AddChildren(heap, a, l, r, level[a] == 2), level[l := level[a] - 1][r := level[a] - 1], frames, multiset{})
  {
    var after := AddChildren(heap, a, l, r, level[a] == 2);
    var levels := level[l := level[a] - 1][r := level[a] - 1];
    forall b | b in after
      ensures NodeShaped(after, levels, b)
    {
      assert b in heap ==> NodeShaped(heap, level, b);
      assert NodeShaped(heap, level, a);
    }
  }

  lemma NobodyPointsOutside(heap: Heap, level: map<nat, nat>, frames: map<nat, nat>, b: nat)
    requires Shaped(heap, level, frames, multiset{}) && b !in heap && b != NULL
    ensures FrameRefs(frames, b) == {} && LeftRefs(heap, b) == {} && RightRefs(heap, b) == {}
  {
    forall p | p in heap
      ensures heap[p].Inner? ==> heap[p].left != b && heap[p].right != b
    {
      assert NodeShaped(heap, level, p);
    }
  }

  /** Empty children hold the same values as missing ones. */
  lemma {:induction false} AddChildrenKeepsValues(heap: Heap, a: nat, l: nat, r: nat, leaf: bool, p: nat, t: nat, i: nat)
    requires Childless(heap, a, l, r)
    ensures p != l && p != r ==> ValueAt(AddChildren(heap, a, l, r, leaf), p, t, i) == ValueAt(heap, p, t, i)
    ensures p == l || p == r ==> ValueAt(AddChildren(heap, a, l, r, leaf), p, t, i) == Undef
    decreases HEIGHT - i
  {
    if i < HEIGHT && p in AddChildren(heap, a, l, r, leaf) && Mid(t, i) != t {
      var c := Child(AddChildren(heap, a, l, r, leaf), p, t < Mid(t, i));
      AddChildrenKeepsValues(heap, a, l, r, leaf, c, t, i + 1);
    }
  }

  /** How often `node` points to `b`. */
  function LinksTo(node: Node, b: nat): nat {
    if node.Leaf? then 0 else (if node.left == b then 1 else 0) + if node.right == b then 1 else 0
  }

  /** Copy node `a` to the free address `n`; its children gain a parent. */
  function Clone(heap: Heap, a: nat, n: nat): Heap
    requires a in heap
  {
    (map b | b in heap :: heap[b].(refcnt := heap[b].refcnt + LinksTo(heap[a], b)))[n := heap[a].(refcnt := 1)]
  }

  lemma CloneRefs(heap: Heap, a: nat, n: nat, b: nat)
    requires a in heap && n !in heap
    ensures LeftRefs(Clone(heap, a, n), b) == LeftRefs(heap, b) + if heap[a].Inner? && heap[a].left == b then {n} else {}
    ensures RightRefs(Clone(heap, a, n), b) == RightRefs(heap, b) + if heap[a].Inner? && heap[a].right == b then {n} else {}
  {
  }

  lemma CloneKeepsCounts(heap: Heap, level: map<nat, nat>, frames: map<nat, nat>, a: nat, n: nat)
    requires Inv(heap, level, frames, multiset{}) && NULL !in heap && a in heap && n !in heap && n != NULL
    ensures Counted(Clone(heap, a, n), frames, multiset{n})
  {
    hide Refs, Shaped;
    var after := Clone(heap, a, n);
    NoRefsOutside(heap, level, frames, n);
    NoSelfReference(heap, level, frames, a, n);
    forall b | b in after
      ensures after[b].refcnt == Refs(after, frames, multiset{n}, b) > 0
    {
      CloneCountAt(heap, frames, a, n, b);
    }
  }

  lemma NoRefsOutside(heap: Heap, level: map<nat, nat>, frames: map<nat, nat>, n: nat)
    requires Shaped(heap, level, frames, multiset{}) && n !in heap && n != NULL
    ensures Refs(heap, frames, multiset{}, n) == 0
  {
    NobodyPointsOutside(heap, level, frames, n);
  }

  lemma CloneCountAt(heap: Heap, frames: map<nat, nat>, a: nat, n: nat, b: nat)
    requires a in heap && n !in heap && LinksTo(heap[a], n) == 0
    ensures Refs(Clone(heap, a, n), frames, multiset{n}, b) ==
            Refs(heap, frames, multiset{}, b) + LinksTo(heap[a], b) + if b == n then 1 else 0
  {
    hide LeftRefs, RightRefs, FrameRefs, Clone;
    CloneRefs(heap, a, n, b);
    NotInRefs(heap, n, b);
  }

  lemma NotInRefs(heap: Heap, n: nat, b: nat)
    requires n !in heap
    ensures n !in LeftRefs(heap, b) && n !in RightRefs(heap, b)
  {
  }

  lemma NoSelfReference(heap: Heap, level: map<nat, nat>, frames: map<nat, nat>, a: nat, n: nat)
    requires Shaped(heap, level, frames, multiset{}) && a in heap && n !in heap && n != NULL
    ensures LinksTo(heap[a], n) == 0
  {
    assert NodeShaped(heap, level, a);
  }

  lemma CloneKeepsShape(heap: Heap, level: map<nat, nat>, frames: map<nat, nat>, a: nat, n: nat)
    requires Shaped(heap, level, frames, multiset{}) && a in heap && a in level && n !in heap && n != NULL
    ensures Shaped(Clone(heap, a, n), level[n := level[a]], frames, multiset{n})
  {
    var after, levels := Clone(heap, a, n), level[n := level[a]];
    forall b | b in after
      ensures NodeShaped(after, levels, b)
    {
      assert b in heap ==> NodeShaped(heap, level, b);
      assert NodeShaped(heap, level, a);
    }
  }

  // ----- Redirecting one pointer -----

  /** The location that a parent pointer refers to: the root of the frame being written, or a child field. */
  datatype Slot = Root | LeftOf(parent: nat) | RightOf(parent: nat)

  function SlotTarget(heap: Heap, root: nat, slot: Slot): nat {
    match slot
    case Root => root
    case LeftOf(p) => Child(heap, p, true)
    case RightOf(p) => Child(heap, p, false)
  }

  function Relink(node: Node, b: nat, slot: Slot, n: nat): Node {
    if node.Leaf? then node
    else if slot == LeftOf(b) then node.(left := n)
    else if slot == RightOf(b) then node.(right := n)
    else node
  }

  /** Let `slot` point to `n` instead of `a`, which loses a reference. */
  function Redirect(heap: Heap, slot: Slot, a: nat, n: nat): Heap
    requires a in heap && heap[a].refcnt > 0
  {
    map b | b in heap ::
      Relink(heap[b], b, slot, n).(refcnt := if b == a then heap[b].refcnt - 1 else heap[b].refcnt)
  }

  function MoveIf(s: set<nat>, here: bool, from: bool, to: bool, p: nat): set<nat> {
    if here && from then s - {p} else if here && to then s + {p} else s
  }

  lemma RedirectRefs(heap: Heap, slot: Slot, a: nat, n: nat, b: nat)
    requires a in heap && heap[a].refcnt > 0 && a != n
    requires !slot.Root? ==> slot.parent in heap && heap[slot.parent].Inner? && SlotTarget(heap, NULL, slot) == a
    ensures var p := if slot.Root? then NULL else slot.parent;
            && LeftRefs(Redirect(heap, slot, a, n), b) == MoveIf(LeftRefs(heap, b), slot.LeftOf?, b == a, b == n, p)
            && RightRefs(Redirect(heap, slot, a, n), b) == MoveIf(RightRefs(heap, b), slot.RightOf?, b == a, b == n, p)
    ensures slot.LeftOf? ==> (slot.parent in LeftRefs(heap, b) <==> b == a)
    ensures slot.RightOf? ==> (slot.parent in RightRefs(heap, b) <==> b == a)
  {
  }

  lemma FrameRedirect(frames: map<nat, nat>, f: nat, a: nat, n: nat, b: nat)
    requires f in frames && frames[f] == a && a != n
    ensures FrameRefs(frames[f := n], b) == MoveIf(FrameRefs(frames, b), true, b == a, b == n, f)
    ensures f in FrameRefs(frames, b) <==> b == a
  {
  }

  /** The frames after `slot` of frame `f` has been redirected to `n`. */
  function FramesAfter(frames: map<nat, nat>, f: nat, slot: Slot, n: nat): map<nat, nat> {
    if slot.Root? then frames[f := n] else frames
  }

  /** `slot` is the root of frame `f` or a child field of an allocated node, and points to `a`. */
  ghost predicate SlotHolds(heap: Heap, frames: map<nat, nat>, f: nat, slot: Slot, a: nat) {
    && f in frames && a in heap
    && SlotTarget(heap, frames[f], slot) == a
    && (!slot.Root? ==> slot.parent in heap && heap[slot.parent].Inner?)
  }

  lemma RedirectKeepsCounts(heap: Heap, frames: map<nat, nat>, f: nat, slot: Slot, a: nat, n: nat)
    requires Counted(heap, frames, multiset{n}) && SlotHolds(heap, frames, f, slot, a)
    requires n in heap && a != n && heap[a].refcnt > 1
    ensures Counted(Redirect(heap, slot, a, n), FramesAfter(frames, f, slot, n), multiset{})
  {
    hide LeftRefs, RightRefs, FrameRefs;
    var after := Redirect(heap, slot, a, n);
    forall b | b in after
      ensures after[b].refcnt == Refs(after, FramesAfter(frames, f, slot, n), multiset{}, b) > 0
    {
      RedirectRefs(heap, slot, a, n, b);
      if slot.Root? {
        FrameRedirect(frames, f, a, n, b);
      }
    }
  }

  lemma RedirectKeepsShape(heap: Heap, level: map<nat, nat>, frames: map<nat, nat>, f: nat, slot: Slot, a: nat, n: nat)
    requires Shaped(heap, level, frames, multiset{n}) && SlotHolds(heap, frames, f, slot, a)
    requires n in heap && n in level && a in level && level[a] == level[n] && heap[a].refcnt > 1
    ensures Shaped(Redirect(heap, slot, a, n), level, FramesAfter(frames, f, slot, n), multiset{})
  {
    var after := Redirect(heap, slot, a, n);
    assert NodeShaped(heap, level, a) && NodeShaped(heap, level, n);
    forall b | b in after
      ensures NodeShaped(after, level, b)
    {
      assert NodeShaped(heap, level, b);
    }
  }

  // ----- A shared node is replaced by a private copy -----

  /** Copy `a` to `n` and let `slot` point to the copy. */
  function Unshare(heap: Heap, slot: Slot, a: nat, n: nat): Heap
    requires a in heap && heap[a].refcnt > 1 && n !in heap
  {
    Redirect(Clone(heap, a, n), slot, a, n)
  }

  lemma UnshareKeepsInv(heap: Heap, level: map<nat, nat>, frames: map<nat, nat>, f: nat, slot: Slot, a: nat, n: nat)
    requires Inv(heap, level, frames, multiset{}) && NULL !in heap && SlotHolds(heap, frames, f, slot, a)
    requires a in level && heap[a].refcnt > 1 && n !in heap && n != NULL
    ensures Inv(Unshare(heap, slot, a, n), level[n := level[a]], FramesAfter(frames, f, slot, n), multiset{})
  {
    hide Shaped, Counted, Redirect;
    CloneKeepsCounts(heap, level, frames, a, n);
    CloneKeepsShape(heap, level, frames, a, n);
    var copied := Clone(heap, a, n);
    RedirectKeepsCounts(copied, frames, f, slot, a, n);
    RedirectKeepsShape(copied, level[n := level[a]], frames, f, slot, a, n);
  }

  predicate SameContents(x: Node, y: Node) {
    x.value == y.value && x.(refcnt := 0) == y.(refcnt := 0)
  }

  lemma {:induction false} CloneKeepsValues(heap: Heap, a: nat, n: nat, p: nat, t: nat, i: nat)
    requires a in heap && n !in heap && n != NULL
    requires forall q :: q in heap ==> LinksTo(heap[q], n) == 0
    ensures p != n ==> ValueAt(Clone(heap, a, n), p, t, i) == ValueAt(heap, p, t, i)
    ensures p == n ==> ValueAt(Clone(heap, a, n), p, t, i) == ValueAt(heap, a, t, i)
    decreases HEIGHT - i
  {
    hide Clone, Mid, Child;
    CloneAt(heap, a, n, p, t < Mid(t, i));
    if i < HEIGHT && p in Clone(heap, a, n) && Mid(t, i) != t {
      CloneKeepsValues(heap, a, n, Child(Clone(heap, a, n), p, t < Mid(t, i)), t, i + 1);
    }
  }

  /** What one sees of a node after the copy: the same as before, and in the copy what is in the original. */
  lemma CloneAt(heap: Heap, a: nat, n: nat, p: nat, goLeft: bool)
    requires a in heap && n !in heap && n != NULL
    requires forall q :: q in heap ==> LinksTo(heap[q], n) == 0
    ensures var after, q := Clone(heap, a, n), if p == n then a else p;
            && (p in after <==> q in heap)
            && (p in after ==> after[p].value == heap[q].value)
            && Child(after, p, goLeft) == Child(heap, q, goLeft) != n
  {
  }

  lemma {:induction false} RedirectKeepsValues(heap: Heap, slot: Slot, a: nat, n: nat, p: nat, t: nat, i: nat)
    requires a in heap && n in heap && heap[a].refcnt > 0 && SameContents(heap[a], heap[n])
    requires !slot.Root? ==> SlotTarget(heap, NULL, slot) == a
    ensures ValueAt(Redirect(heap, slot, a, n), p, t, i) == ValueAt(heap, p, t, i)
    decreases HEIGHT - i
  {
    hide Mid;
    if i < HEIGHT && p in heap && Mid(t, i) != t {
      var c := Child(Redirect(heap, slot, a, n), p, t < Mid(t, i));
      RedirectKeepsValues(heap, slot, a, n, c, t, i + 1);
      assert ValueAt(heap, n, t, i + 1) == ValueAt(heap, a, t, i + 1);
    }
  }

  /** A private copy holds what the shared node holds, wherever one looks from. */
  lemma UnshareKeepsValues(heap: Heap, level: map<nat, nat>, frames: map<nat, nat>, f: nat, slot: Slot, a: nat, n: nat, p: nat, t: nat)
    requires Inv(heap, level, frames, multiset{}) && SlotHolds(heap, frames, f, slot, a)
    requires heap[a].refcnt > 1 && n !in heap && n != NULL
    ensures p != n ==> Register(Unshare(heap, slot, a, n), p, t) == Register(heap, p, t)
    ensures p == n ==> Register(Unshare(heap, slot, a, n), p, t) == Register(heap, a, t)
  {
    hide Counted, ValueAt, Mid, Shaped;
    forall q | q in heap
      ensures LinksTo(heap[q], n) == 0
    {
      NoSelfReference(heap, level, frames, q, n);
    }
    CloneKeepsValues(heap, a, n, p, t, 0);
    RedirectKeepsValues(Clone(heap, a, n), slot, a, n, p, t, 0);
  }

  // ----- The private path of a write -----

  /** The slot through which the search for `t` from a frame root reaches its node at step `i`. */
  function SlotAt(heap: Heap, root: nat, t: nat, i: nat): Slot {
    if i == 0 then Root
    else if t < Mid(t, i - 1) then LeftOf(NodeAt(heap, root, t, i - 1))
    else RightOf(NodeAt(heap, root, t, i - 1))
  }

  /** The nodes of the search before step `i` are allocated and have one reference each. */
  ghost predicate Private(heap: Heap, root: nat, t: nat, i: nat) {
    forall j :: 0 <= j < i ==> NodeAt(heap, root, t, j) in heap && heap[NodeAt(heap, root, t, j)].refcnt == 1
  }

  lemma SlotAtHolds(heap: Heap, level: map<nat, nat>, frames: map<nat, nat>, f: nat, t: nat, i: nat)
    requires Inv(heap, level, frames, multiset{}) && f in frames && i < HEIGHT
    requires NodeAt(heap, frames[f], t, i) in heap && Private(heap, frames[f], t, i)
    ensures SlotHolds(heap, frames, f, SlotAt(heap, frames[f], t, i), NodeAt(heap, frames[f], t, i))
  {
    hide Mid, Counted, Shaped, NodeAt, Private;
    NullIsFree(heap, level, frames);
    NodeAtStep(heap, frames[f], t, 0);
    if i > 0 {
      NodeAtStep(heap, frames[f], t, i - 1);
      PrivateNode(heap, frames[f], t, i, i - 1);
    }
  }

  lemma NullIsFree(heap: Heap, level: map<nat, nat>, frames: map<nat, nat>)
    requires Shaped(heap, level, frames, multiset{})
    ensures NULL !in heap
  {
    assert NULL in heap ==> NodeShaped(heap, level, NULL);
  }

  lemma NodeAtStep(heap: Heap, root: nat, t: nat, i: nat)
    ensures NodeAt(heap, root, t, i + 1) == Child(heap, NodeAt(heap, root, t, i), t < Mid(t, i))
    ensures NodeAt(heap, root, t, 0) == root
  {
  }

  lemma PrivateNode(heap: Heap, root: nat, t: nat, i: nat, j: nat)
    requires Private(heap, root, t, i) && j < i
    ensures NodeAt(heap, root, t, j) in heap && heap[NodeAt(heap, root, t, j)].refcnt == 1
  {
  }

  /** Adding children below the path leaves the path as it is. */
  lemma {:induction false} AddChildrenKeepsPath(heap: Heap, root: nat, t: nat, i: nat, l: nat, r: nat, leaf: bool, j: nat)
    requires j <= i && Private(heap, root, t, i) && Childless(heap, NodeAt(heap, root, t, i), l, r)
    ensures NodeAt(AddChildren(heap, NodeAt(heap, root, t, i), l, r, leaf), root, t, j) == NodeAt(heap, root, t, j)
  {
    if j > 0 {
      AddChildrenKeepsPath(heap, root, t, i, l, r, leaf, j - 1);
      assert NodeAt(heap, root, t, j) in heap;
    }
  }

  /** Nodes at different steps of a search are different. */
  lemma PathIsSimple(heap: Heap, level: map<nat, nat>, frames: map<nat, nat>, f: nat, t: nat, i: nat, j: nat)
    requires Shaped(heap, level, frames, multiset{}) && f in frames && j < i < HEIGHT
    requires NodeAt(heap, frames[f], t, i) in heap && NodeAt(heap, frames[f], t, j) in heap
    ensures NodeAt(heap, frames[f], t, i) != NodeAt(heap, frames[f], t, j)
    ensures LinksTo(heap[NodeAt(heap, frames[f], t, i)], NodeAt(heap, frames[f], t, j)) == 0
  {
    LevelAt(heap, level, frames, multiset{}, f, t, i);
    LevelAt(heap, level, frames, multiset{}, f, t, j);
    assert NodeShaped(heap, level, NodeAt(heap, frames[f], t, i));
    assert NodeShaped(heap, level, NodeAt(heap, frames[f], t, j));
  }

  /** Replacing the node at step `i` by a private copy changes the path at that step only. */
  lemma {:induction false} UnshareKeepsPath(heap: Heap, level: map<nat, nat>, frames: map<nat, nat>, f: nat, t: nat, i: nat, n: nat, j: nat)
    requires Inv(heap, level, frames, multiset{}) && NULL !in heap && f in frames && j <= i < HEIGHT
    requires var a := NodeAt(heap, frames[f], t, i); a in heap && heap[a].refcnt > 1
    requires n !in heap && n != NULL && Private(heap, frames[f], t, i)
    ensures var a := NodeAt(heap, frames[f], t, i);
            var slot := SlotAt(heap, frames[f], t, i);
            var after := Unshare(heap, slot, a, n);
            var root := FramesAfter(frames, f, slot, n)[f];
            && NodeAt(after, root, t, j) == (if j < i then NodeAt(heap, frames[f], t, j) else n)
            && (j < i ==> after[NodeAt(after, root, t, j)].refcnt == 1)
  {
    hide Unshare, Shaped, Counted, Mid;
    var a := NodeAt(heap, frames[f], t, i);
    var slot := SlotAt(heap, frames[f], t, i);
    if j < i {
      PathIsSimple(heap, level, frames, f, t, i, j);
      UnshareRefcnt(heap, slot, a, n, NodeAt(heap, frames[f], t, j));
    }
    if j > 0 {
      UnshareKeepsPath(heap, level, frames, f, t, i, n, j - 1);
      SlotAtHolds(heap, level, frames, f, t, i);
      UnshareChild(heap, slot, a, n, NodeAt(heap, frames[f], t, j - 1), t < Mid(t, j - 1));
      if j < i {
        PathIsSimple(heap, level, frames, f, t, i - 1, j - 1);
      }
    }
  }

  lemma UnshareRefcnt(heap: Heap, slot: Slot, a: nat, n: nat, b: nat)
    requires a in heap && heap[a].refcnt > 1 && n !in heap && b in heap && b != a && LinksTo(heap[a], b) == 0
    ensures b in Unshare(heap, slot, a, n) && Unshare(heap, slot, a, n)[b].refcnt == heap[b].refcnt
  {
  }

  lemma UnshareChild(heap: Heap, slot: Slot, a: nat, n: nat, p: nat, goLeft: bool)
    requires a in heap && heap[a].refcnt > 1 && n !in heap && p in heap
    requires !slot.Root? ==> slot.parent in heap && heap[slot.parent].Inner?
    ensures Child(Unshare(heap, slot, a, n), p, goLeft) ==
            if slot == (if goLeft then LeftOf(p) else RightOf(p)) then n else Child(heap, p, goLeft)
  {
  }

  // ----- A node at the end of a private path belongs to one register of one frame -----

  /** If the search of another frame or register meets a private path, it is the same frame and the same way. */
  lemma {:induction false} PrivatePathIsUnique(heap: Heap, level: map<nat, nat>, frames: map<nat, nat>,
                                               f: nat, t: nat, g: nat, u: nat, i: nat)
    requires Inv(heap, level, frames, multiset{}) && NULL !in heap && f in frames && g in frames
    requires Private(heap, frames[f], t, i + 1)
    requires NodeAt(heap, frames[g], u, i) == NodeAt(heap, frames[f], t, i)
    requires OnTheWay(t, i) && OnTheWay(u, i)
    ensures f == g && Range(u, i) == Range(t, i)
  {
    hide Shaped, Counted, Range, Mid, OnTheWay, FrameRefs;
    var a := NodeAt(heap, frames[f], t, i);
    assert heap[a].refcnt == 1;
    ExactCount(heap, level, frames, a);
    if i == 0 {
      SameFrame(heap, frames, a, f, g);
      StartingRange(t);
      StartingRange(u);
    } else {
      var p, q := NodeAt(heap, frames[f], t, i - 1), NodeAt(heap, frames[g], u, i - 1);
      SameParent(heap, frames, a, p, t < Mid(t, i - 1), q, u < Mid(u, i - 1));
      StillOnTheWay(t, i);
      StillOnTheWay(u, i);
      PrivatePathIsUnique(heap, level, frames, f, t, g, u, i - 1);
      SameTurn(t, u, i);
    }
  }

  lemma ExactCount(heap: Heap, level: map<nat, nat>, frames: map<nat, nat>, a: nat)
    requires Inv(heap, level, frames, multiset{}) && a in heap
    ensures heap[a].refcnt == Refs(heap, frames, multiset{}, a)
  {
  }

  lemma SameFrame(heap: Heap, frames: map<nat, nat>, a: nat, f: nat, g: nat)
    requires Refs(heap, frames, multiset{}, a) == 1
    requires f in frames && g in frames && frames[f] == frames[g] == a
    ensures f == g
  {
    assert f in FrameRefs(frames, a) && g in FrameRefs(frames, a);
    AtMostOne(FrameRefs(frames, a), f, g);
  }

  lemma StartingRange(t: nat)
    ensures Range(t, 0) == (0, REGISTERS)
  {
  }

  lemma NullHoldsNothing(heap: Heap, t: nat, i: nat)
    requires NULL !in heap
    ensures ValueAt(heap, NULL, t, i) == Undef
  {
  }

  lemma StillOnTheWay(t: nat, i: nat)
    requires OnTheWay(t, i) && i > 0
    ensures OnTheWay(t, i - 1) && Mid(t, i - 1) != t
  {
  }

  lemma SameTurn(t: nat, u: nat, i: nat)
    requires i > 0 && Range(t, i - 1) == Range(u, i - 1)
    requires (t < Mid(t, i - 1)) == (u < Mid(u, i - 1)) && Mid(t, i - 1) != t && Mid(u, i - 1) != u
    ensures Range(t, i) == Range(u, i)
  {
  }

  lemma SameParent(heap: Heap, frames: map<nat, nat>, a: nat, p: nat, pLeft: bool, q: nat, qLeft: bool)
    requires a in heap && NULL !in heap && heap[a].refcnt == Refs(heap, frames, multiset{}, a) == 1
    requires Child(heap, p, pLeft) == a && Child(heap, q, qLeft) == a
    ensures p == q && pLeft == qLeft
  {
    assert if pLeft then p in LeftRefs(heap, a) else p in RightRefs(heap, a);
    assert if qLeft then q in LeftRefs(heap, a) else q in RightRefs(heap, a);
    if pLeft && qLeft {
      AtMostOne(LeftRefs(heap, a), p, q);
    } else if !pLeft && !qLeft {
      AtMostOne(RightRefs(heap, a), p, q);
    }
  }

  /** Store `v` in node `x`. */
  function SetValue(heap: Heap, x: nat, v: Value): Heap
    requires x in heap
  {
    heap[x := heap[x].(value := v)]
  }

  lemma SetValueKeepsInv(heap: Heap, level: map<nat, nat>, frames: map<nat, nat>, loose: multiset<nat>, x: nat, v: Value)
    requires Inv(heap, level, frames, loose) && x in heap
    ensures Inv(SetValue(heap, x, v), level, frames, loose)
  {
    hide LeftRefs, RightRefs, FrameRefs;
    var after := SetValue(heap, x, v);
    forall b | b in after
      ensures NodeShaped(after, level, b)
      ensures after[b].refcnt == Refs(after, frames, loose, b) > 0
    {
      assert NodeShaped(heap, level, b);
      SetValueRefs(heap, x, v, b);
    }
  }

  lemma SetValueRefs(heap: Heap, x: nat, v: Value, b: nat)
    requires x in heap
    ensures LeftRefs(SetValue(heap, x, v), b) == LeftRefs(heap, b)
    ensures RightRefs(SetValue(heap, x, v), b) == RightRefs(heap, b)
  {
  }

  lemma {:induction false} SetValueKeepsPath(heap: Heap, x: nat, v: Value, p: nat, t: nat, i: nat)
    requires x in heap
    ensures NodeAt(SetValue(heap, x, v), p, t, i) == NodeAt(heap, p, t, i)
  {
    if i > 0 {
      SetValueKeepsPath(heap, x, v, p, t, i - 1);
    }
  }

  /** The value of a register is the value of the node at which its search ends. */
  lemma RegisterIsAtDepth(heap: Heap, p: nat, t: nat)
    requires t < REGISTERS && NULL !in heap
    ensures var x := NodeAt(heap, p, t, Depth(t));
            Register(heap, p, t) == if x in heap then heap[x].value else Undef
  {
    RegisterFromStep(heap, p, t, Depth(t));
  }

  /** Writing at the end of a private path changes that register of that frame, and nothing else in any frame. */
  lemma PrivateWrite(heap: Heap, level: map<nat, nat>, frames: map<nat, nat>, f: nat, t: nat, v: Value, g: nat, u: nat)
    requires Inv(heap, level, frames, multiset{}) && NULL !in heap && f in frames && g in frames
    requires t < REGISTERS && u < REGISTERS && Private(heap, frames[f], t, Depth(t) + 1)
    ensures var x := NodeAt(heap, frames[f], t, Depth(t));
            Register(SetValue(heap, x, v), frames[g], u) ==
              if f == g && t == u then v else Register(heap, frames[g], u)
  {
    hide Shaped, Counted, Range, Register, NodeAt;
    var x := NodeAt(heap, frames[f], t, Depth(t));
    RegisterIsAtDepth(heap, frames[g], u);
    RegisterIsAtDepth(SetValue(heap, x, v), frames[g], u);
    SetValueKeepsPath(heap, x, v, frames[g], u, Depth(u));
    if NodeAt(heap, frames[g], u, Depth(u)) == x {
      LevelAt(heap, level, frames, multiset{}, f, t, Depth(t));
      LevelAt(heap, level, frames, multiset{}, g, u, Depth(u));
      PrivatePathIsUnique(heap, level, frames, f, t, g, u, Depth(t));
    }
  }
}
