/**
 What giving up references frees. Tree nodes and objects are cells that refer to each other: nodes to
 their children and their value, dictionaries to the values of their entries, closures to the root of
 their frame. A cell dies when all its references come from dying cells or are given up.

 This module defines the least set of cells that die without saying how they are freed.
 */
module Reclamation {
  import opened FiniteSets
  import opened Sequences
  import opened FrameTree
  import opened ScriptObjects

  datatype Snapshot = Snapshot(heap: Heap, frames: map<nat, nat>, objects: Objects, entries: Entries)

  datatype Cell = NodeCell(a: nat) | ObjectCell(o: nat)

  function Cells(s: Snapshot): set<Cell> {
    (set a | a in s.heap :: NodeCell(a)) + (set o | o in s.objects :: ObjectCell(o))
  }

  /** The reference count of a cell. */
  function Count(s: Snapshot, c: Cell): nat
    requires c in Cells(s)
  {
    match c
    case NodeCell(a) => s.heap[a].refcnt
    case ObjectCell(o) => s.objects[o].refcnt
  }

  /** The references to a cell from the frames, nodes and entries of a state. */
  function RefsIn(s: Snapshot, c: Cell): nat {
    match c
    case NodeCell(a) => |FrameRefs(s.frames, a)| + |LeftRefs(s.heap, a)| + |RightRefs(s.heap, a)|
    case ObjectCell(o) => |Holders(s.heap, o)| + |EntriesHolding(s.entries, o)|
  }

  /** The frames of the closures of `x`. */
  function EnvsOf(s: Snapshot, x: set<Cell>): set<nat> {
    set o | o in s.objects && ObjectCell(o) in x && s.objects[o].Closure? :: s.objects[o].env
  }

  /** The cells of `x`, and what belongs to them. */
  function Part(s: Snapshot, x: set<Cell>): Snapshot {
    Snapshot(map a | a in s.heap && NodeCell(a) in x :: s.heap[a],
             map f | f in s.frames && f in EnvsOf(s, x) :: s.frames[f],
             map o | o in s.objects && ObjectCell(o) in x :: s.objects[o],
             map e | e in s.entries && ObjectCell(e.0) in x :: s.entries[e])
  }

  /** What is left without the cells of `x`. */
  function Rest(s: Snapshot, x: set<Cell>): Snapshot {
    Snapshot(map a | a in s.heap && NodeCell(a) !in x :: s.heap[a],
             map f | f in s.frames && f !in EnvsOf(s, x) :: s.frames[f],
             map o | o in s.objects && ObjectCell(o) !in x :: s.objects[o],
             map e | e in s.entries && ObjectCell(e.0) !in x :: s.entries[e])
  }

  /** A referenced cell all of whose references come from the cells of `x` or are among the dropped ones. */
  ghost predicate Due(s: Snapshot, dropped: multiset<Cell>, x: set<Cell>, c: Cell) {
    c in Cells(s) && 0 < Count(s, c) <= RefsIn(Part(s, x), c) + dropped[c]
  }

  function Among(order: seq<Cell>): set<Cell> {
    set c | c in order
  }

  /** An order in which every cell is due after those before it. */
  ghost predicate Justified(s: Snapshot, dropped: multiset<Cell>, order: seq<Cell>) {
    Distinct(order) && forall i :: 0 <= i < |order| ==> Due(s, dropped, Among(order[..i]), order[i])
  }

  /** The cell dies when the references of `dropped` are given up. */
  ghost predicate Doomed(s: Snapshot, dropped: multiset<Cell>, c: Cell) {
    exists order :: Justified(s, dropped, order) && c in order
  }

  /** All cells that die. */
  ghost function Dead(s: Snapshot, dropped: multiset<Cell>): set<Cell> {
    set c | c in Cells(s) && Doomed(s, dropped, c)
  }

  ghost predicate Closed(s: Snapshot, dropped: multiset<Cell>, x: set<Cell>) {
    forall c :: Due(s, dropped, x, c) ==> c in x
  }

  // ----- The dead cells are the least closed set -----

  /** Everything of `p` is in `q`, with the same links and values. */
  ghost predicate Within(p: Snapshot, q: Snapshot) {
    && (forall a :: a in p.heap ==> a in q.heap && SameContents(p.heap[a], q.heap[a]))
    && (forall f :: f in p.frames ==> f in q.frames && p.frames[f] == q.frames[f])
    && (forall e :: e in p.entries ==> e in q.entries && p.entries[e] == q.entries[e])
  }

  lemma RefsGrow(p: Snapshot, q: Snapshot, c: Cell)
    requires Within(p, q)
    ensures RefsIn(p, c) <= RefsIn(q, c)
  {
    match c
    case NodeCell(a) =>
      SubsetSize(FrameRefs(p.frames, a), FrameRefs(q.frames, a));
      SubsetSize(LeftRefs(p.heap, a), LeftRefs(q.heap, a));
      SubsetSize(RightRefs(p.heap, a), RightRefs(q.heap, a));
    case ObjectCell(o) =>
      SubsetSize(Holders(p.heap, o), Holders(q.heap, o));
      SubsetSize(EntriesHolding(p.entries, o), EntriesHolding(q.entries, o));
  }

  lemma PartGrows(s: Snapshot, x: set<Cell>, y: set<Cell>, c: Cell)
    requires x <= y
    ensures RefsIn(Part(s, x), c) <= RefsIn(Part(s, y), c)
  {
    hide RefsIn;
    assert EnvsOf(s, x) <= EnvsOf(s, y);
    RefsGrow(Part(s, x), Part(s, y), c);
  }

  lemma DueLater(s: Snapshot, dropped: multiset<Cell>, x: set<Cell>, y: set<Cell>, c: Cell)
    requires Due(s, dropped, x, c) && x <= y
    ensures Due(s, dropped, y, c)
  {
    hide RefsIn, Part, Count;
    PartGrows(s, x, y, c);
  }

  /** A closed set has all cells of every such order. */
  lemma {:induction false} JustifiedInClosed(s: Snapshot, dropped: multiset<Cell>, order: seq<Cell>, x: set<Cell>, i: nat)
    requires Justified(s, dropped, order) && Closed(s, dropped, x) && i <= |order|
    ensures Among(order[..i]) <= x
  {
    hide Due;
    if i > 0 {
      JustifiedInClosed(s, dropped, order, x, i - 1);
      DueLater(s, dropped, Among(order[..i - 1]), x, order[i - 1]);
      assert order[..i] == order[..i - 1] + [order[i - 1]];
    }
  }

  lemma DueIsCell(s: Snapshot, dropped: multiset<Cell>, x: set<Cell>, c: Cell)
    requires Due(s, dropped, x, c)
    ensures c in Cells(s)
  {
  }

  lemma {:induction false} OrderSize(order: seq<Cell>)
    requires Distinct(order)
    ensures |Among(order)| == |order|
  {
    if |order| > 0 {
      var front := order[..|order| - 1];
      OrderSize(front);
      assert order == front + [order[|order| - 1]];
      assert Among(order) == Among(front) + {order[|order| - 1]};
    }
  }

  lemma OrderFits(s: Snapshot, dropped: multiset<Cell>, order: seq<Cell>)
    requires Justified(s, dropped, order)
    ensures Among(order) <= Cells(s) && |order| <= |Cells(s)|
  {
    hide Due, Cells;
    forall c | c in order
      ensures c in Cells(s)
    {
      var i :| 0 <= i < |order| && order[i] == c;
      DueIsCell(s, dropped, Among(order[..i]), c);
    }
    OrderSize(order);
    SubsetSize(Among(order), Cells(s));
  }

  lemma JustifiedMore(s: Snapshot, dropped: multiset<Cell>, order: seq<Cell>, c: Cell)
    requires Justified(s, dropped, order) && c !in order && Due(s, dropped, Among(order), c)
    ensures Justified(s, dropped, order + [c])
  {
    hide Due;
    var more := order + [c];
    forall i | 0 <= i < |more|
      ensures Due(s, dropped, Among(more[..i]), more[i])
    {
      assert more[..i] == order[..i];
    }
  }

  /** Every such order goes on to one whose cells are a closed set. */
  lemma {:induction false} Complete(s: Snapshot, dropped: multiset<Cell>, order: seq<Cell>) returns (all: seq<Cell>)
    requires Justified(s, dropped, order)
    ensures Justified(s, dropped, all) && Closed(s, dropped, Among(all))
    decreases |Cells(s)| - |order|
  {
    hide Due, Cells;
    OrderFits(s, dropped, order);
    if c :| Due(s, dropped, Among(order), c) && c !in order {
      JustifiedMore(s, dropped, order, c);
      OrderFits(s, dropped, order + [c]);
      all := Complete(s, dropped, order + [c]);
    } else {
      all := order;
    }
  }

  lemma DeadIsListed(s: Snapshot, dropped: multiset<Cell>, order: seq<Cell>)
    requires Justified(s, dropped, order) && Closed(s, dropped, Among(order))
    ensures Dead(s, dropped) == Among(order)
  {
    hide Due, Cells, Justified, Closed;
    OrderFits(s, dropped, order);
    forall c | Doomed(s, dropped, c)
      ensures c in order
    {
      var other :| Justified(s, dropped, other) && c in other;
      JustifiedInClosed(s, dropped, other, Among(order), |other|);
      assert other[..|other|] == other && c in Among(other);
    }
  }

  /** The cells that die are closed, and every closed set has them. */
  lemma DeadIsLeastClosed(s: Snapshot, dropped: multiset<Cell>)
    ensures Closed(s, dropped, Dead(s, dropped))
    ensures forall x :: Closed(s, dropped, x) ==> Dead(s, dropped) <= x
  {
    hide Due, Cells, Closed, Justified;
    NothingYet(s, dropped);
    var order := Complete(s, dropped, []);
    DeadIsListed(s, dropped, order);
    forall x | Closed(s, dropped, x)
      ensures Among(order) <= x
    {
      JustifiedInClosed(s, dropped, order, x, |order|);
      assert order[..|order|] == order;
    }
  }

  lemma NothingYet(s: Snapshot, dropped: multiset<Cell>)
    ensures Justified(s, dropped, [])
  {
  }

  // ----- Following a release -----

  /** The nodes, frames and objects of `now` are those of `s` without the cells of `gone`. */
  ghost predicate Leaves(s: Snapshot, gone: set<Cell>, now: Snapshot) {
    && (forall a :: a in now.heap <==> a in s.heap && NodeCell(a) !in gone)
    && (forall a :: a in now.heap ==> SameContents(now.heap[a], s.heap[a]))
    && (forall f :: f in now.frames <==> f in s.frames && f !in EnvsOf(s, gone))
    && (forall f :: f in now.frames ==> now.frames[f] == s.frames[f])
    && (forall o :: o in now.objects <==> o in s.objects && ObjectCell(o) !in gone)
    && (forall o :: o in now.objects ==> SameObject(now.objects[o], s.objects[o]))
  }

  /** `now` is what is left of `s`, but for entries of dictionaries that are being freed. */
  ghost predicate Tracks(s: Snapshot, gone: set<Cell>, now: Snapshot) {
    && Leaves(s, gone, now)
    && CountsFell(s, now)
    && (forall e :: e in s.entries && ObjectCell(e.0) !in gone ==> e in now.entries)
    && (forall e :: e in now.entries ==> e in s.entries && now.entries[e] == s.entries[e])
  }

  ghost predicate CountsFell(s: Snapshot, now: Snapshot) {
    forall o :: o in now.objects && o in s.objects ==>
      && now.objects[o].refcnt <= s.objects[o].refcnt
      && (now.objects[o].refcnt == 0 ==> s.objects[o].refcnt == 0)
  }

  /** All counts are exact, with the references `base` from elsewhere and the dropped ones. */
  ghost predicate Exact(s: Snapshot, base: multiset<nat>, dropped: multiset<Cell>) {
    && (forall c :: c in Cells(s) ==> Count(s, c) == RefsIn(s, c) + Outside(base, c) + dropped[c])
    && (forall a :: a in s.heap ==> s.heap[a].refcnt > 0)
  }

  function Outside(base: multiset<nat>, c: Cell): nat {
    if c.ObjectCell? then base[c.o] else 0
  }

  lemma SizeSplit<T>(s: set<T>, x: set<T>, y: set<T>)
    requires s == x + y && x !! y
    ensures |s| == |x| + |y|
  {
  }

  /** `s` is made of `p` and `q`. */
  ghost predicate Divided<K, V>(s: map<K, V>, p: map<K, V>, q: map<K, V>) {
    && s.Keys == p.Keys + q.Keys && p.Keys !! q.Keys
    && (forall k :: k in p ==> p[k] == s[k])
    && (forall k :: k in q ==> q[k] == s[k])
  }

  lemma PartAndRest(s: Snapshot, x: set<Cell>)
    ensures Divided(s.heap, Part(s, x).heap, Rest(s, x).heap)
    ensures Divided(s.frames, Part(s, x).frames, Rest(s, x).frames)
    ensures Divided(s.entries, Part(s, x).entries, Rest(s, x).entries)
  {
    hide EnvsOf;
  }

  lemma SplitFrames(s: map<nat, nat>, p: map<nat, nat>, q: map<nat, nat>, a: nat)
    requires Divided(s, p, q)
    ensures |FrameRefs(s, a)| == |FrameRefs(p, a)| + |FrameRefs(q, a)|
  {
    SizeSplit(FrameRefs(s, a), FrameRefs(p, a), FrameRefs(q, a));
  }

  lemma SplitLeft(s: Heap, p: Heap, q: Heap, a: nat)
    requires Divided(s, p, q)
    ensures |LeftRefs(s, a)| == |LeftRefs(p, a)| + |LeftRefs(q, a)|
  {
    SizeSplit(LeftRefs(s, a), LeftRefs(p, a), LeftRefs(q, a));
  }

  lemma SplitRight(s: Heap, p: Heap, q: Heap, a: nat)
    requires Divided(s, p, q)
    ensures |RightRefs(s, a)| == |RightRefs(p, a)| + |RightRefs(q, a)|
  {
    SizeSplit(RightRefs(s, a), RightRefs(p, a), RightRefs(q, a));
  }

  lemma SplitHolders(s: Heap, p: Heap, q: Heap, o: nat)
    requires Divided(s, p, q)
    ensures |Holders(s, o)| == |Holders(p, o)| + |Holders(q, o)|
  {
    SizeSplit(Holders(s, o), Holders(p, o), Holders(q, o));
  }

  lemma SplitEntries(s: Entries, p: Entries, q: Entries, o: nat)
    requires Divided(s, p, q)
    ensures |EntriesHolding(s, o)| == |EntriesHolding(p, o)| + |EntriesHolding(q, o)|
  {
    SizeSplit(EntriesHolding(s, o), EntriesHolding(p, o), EntriesHolding(q, o));
  }

  lemma SplitRefs(s: Snapshot, x: set<Cell>, c: Cell)
    ensures RefsIn(s, c) == RefsIn(Part(s, x), c) + RefsIn(Rest(s, x), c)
  {
    hide Part, Rest, Divided, FrameRefs, LeftRefs, RightRefs, Holders, EntriesHolding;
    var p, q := Part(s, x), Rest(s, x);
    PartAndRest(s, x);
    match c
    case NodeCell(a) =>
      SplitFrames(s.frames, p.frames, q.frames, a);
      SplitLeft(s.heap, p.heap, q.heap, a);
      SplitRight(s.heap, p.heap, q.heap, a);
    case ObjectCell(o) =>
      SplitHolders(s.heap, p.heap, q.heap, o);
      SplitEntries(s.entries, p.entries, q.entries, o);
  }

  lemma RestIsLeft(s: Snapshot, gone: set<Cell>, now: Snapshot)
    requires Tracks(s, gone, now)
    ensures Within(Rest(s, gone), now)
    ensures EntriesOwned(now.objects, now.entries) ==> Within(now, Rest(s, gone))
  {
  }

  lemma RestOfRefs(s: Snapshot, gone: set<Cell>, now: Snapshot, c: Cell)
    requires Tracks(s, gone, now)
    ensures RefsIn(s, c) <= RefsIn(Part(s, gone), c) + RefsIn(now, c)
    ensures EntriesOwned(now.objects, now.entries) ==> RefsIn(s, c) == RefsIn(Part(s, gone), c) + RefsIn(now, c)
  {
    hide RefsIn, Part, Rest, Tracks, Within, EntriesOwned;
    SplitRefs(s, gone, c);
    RestIsLeft(s, gone, now);
    RefsGrow(Rest(s, gone), now, c);
    if EntriesOwned(now.objects, now.entries) {
      RefsGrow(now, Rest(s, gone), c);
    }
  }

  /** A node whose only reference is a loose one is due. */
  lemma NodeIsDue(s: Snapshot, base: multiset<nat>, dropped: multiset<Cell>, gone: set<Cell>, now: Snapshot,
                  loose: multiset<nat>, p: nat)
    requires Exact(s, base, dropped) && Tracks(s, gone, now)
    requires Counted(now.heap, now.frames, loose) && p in now.heap && now.heap[p].refcnt == 1 && p in loose
    ensures Due(s, dropped, gone, NodeCell(p)) && NodeCell(p) !in gone
  {
    hide Part;
    RestOfRefs(s, gone, now, NodeCell(p));
    assert NodeCell(p) in Cells(s);
  }

  /** An object whose only reference is one that is being given up is due. */
  lemma ObjectIsDue(s: Snapshot, base: multiset<nat>, dropped: multiset<Cell>, gone: set<Cell>, now: Snapshot,
                    rest: multiset<nat>, o: nat)
    requires Exact(s, base, dropped) && Tracks(s, gone, now) && base <= rest
    requires ValuesCounted(now.heap, now.objects, now.entries, rest + multiset{o})
    requires o in now.objects && now.objects[o].refcnt == 1
    ensures Due(s, dropped, gone, ObjectCell(o)) && ObjectCell(o) !in gone
  {
    hide Part, Holders, EntriesHolding;
    RestOfRefs(s, gone, now, ObjectCell(o));
    assert ObjectCell(o) in Cells(s);
    assert o !in rest && o !in base;
  }

  // ----- The end of a release -----

  /** What is left of `s` when the references of `dropped` have been given up. */
  ghost predicate Released(s: Snapshot, dropped: multiset<Cell>, now: Snapshot) {
    && Leaves(s, Dead(s, dropped), now)
    && now.entries == Rest(s, Dead(s, dropped)).entries
  }

  /** When nothing is held loosely any more, exactly the cells that die are gone. */
  lemma AllReleased(s: Snapshot, base: multiset<nat>, dropped: multiset<Cell>, order: seq<Cell>, now: Snapshot)
    requires Exact(s, base, dropped) && Justified(s, dropped, order) && Tracks(s, Among(order), now)
    requires EntriesOwned(now.objects, now.entries) && Counted(now.heap, now.frames, multiset{})
    requires ValuesCounted(now.heap, now.objects, now.entries, base)
    ensures Released(s, dropped, now)
  {
    hide Exact, Justified, Tracks, EntriesOwned, Counted, ValuesCounted, Due, RefsIn, Part, Rest;
    forall c | Due(s, dropped, Among(order), c) && c !in Among(order)
      ensures false
    {
      DueIsGone(s, base, dropped, Among(order), now, c);
    }
    DeadIsListed(s, dropped, order);
    TrackedIsReleased(s, dropped, now);
  }

  lemma TrackedIsReleased(s: Snapshot, dropped: multiset<Cell>, now: Snapshot)
    requires Tracks(s, Dead(s, dropped), now) && EntriesOwned(now.objects, now.entries)
    ensures Released(s, dropped, now)
  {
    hide Dead;
  }

  lemma DueIsGone(s: Snapshot, base: multiset<nat>, dropped: multiset<Cell>, gone: set<Cell>, now: Snapshot, c: Cell)
    requires Exact(s, base, dropped) && Tracks(s, gone, now) && Due(s, dropped, gone, c)
    requires EntriesOwned(now.objects, now.entries) && Counted(now.heap, now.frames, multiset{})
    requires ValuesCounted(now.heap, now.objects, now.entries, base)
    ensures c in gone
  {
    hide Part, Holders, EntriesHolding;
    RestOfRefs(s, gone, now, c);
  }

  // ----- The steps of a release -----

  /** A release in progress: where it started, the references kept from elsewhere, those dropped, and the cells freed so far. */
  datatype Release = Release(start: Snapshot, base: multiset<nat>, dropped: multiset<Cell>, gone: seq<Cell>)

  ghost predicate Progressing(r: Release, now: Snapshot) {
    && Exact(r.start, r.base, r.dropped) && EntriesOwned(r.start.objects, r.start.entries)
    && Justified(r.start, r.dropped, r.gone) && Tracks(r.start, Among(r.gone), now)
  }

  /** The same release, later. */
  ghost predicate Continues(r: Release, later: Release) {
    && later.start == r.start && later.base == r.base && later.dropped == r.dropped
    && |r.gone| <= |later.gone|
  }

  function Freeing(r: Release, c: Cell): Release {
    r.(gone := r.gone + [c])
  }

  /** How many cells there are still to free. */
  function Left(r: Release): nat {
    if |r.gone| <= |Cells(r.start)| then |Cells(r.start)| - |r.gone| else 0
  }

  lemma LeftFalls(r: Release, c: Cell, now: Snapshot)
    requires Progressing(Freeing(r, c), now)
    ensures Continues(r, Freeing(r, c)) && Left(Freeing(r, c)) < Left(r)
  {
    hide Exact, EntriesOwned, Justified, Tracks, Cells;
    OrderFits(r.start, r.dropped, r.gone + [c]);
  }

  /** The references that giving up `v` or the pointer `p` drops. */
  function Dropping(v: Value): multiset<Cell> {
    if v.Ref? then multiset{ObjectCell(v.id)} else multiset{}
  }

  function DroppingRoot(p: nat): multiset<Cell> {
    if p == NULL then multiset{} else multiset{NodeCell(p)}
  }

  lemma StartOfValue(s: Snapshot, base: multiset<nat>, v: Value)
    requires Counted(s.heap, s.frames, multiset{}) && ValuesCounted(s.heap, s.objects, s.entries, base + Held(v))
    requires EntriesOwned(s.objects, s.entries)
    ensures Progressing(Release(s, base, Dropping(v), []), s)
  {
    hide EntriesOwned, FrameRefs, LeftRefs, RightRefs, Holders, EntriesHolding, Tracks, Justified;
    StartTracks(s);
    NothingYet(s, Dropping(v));
  }

  lemma StartOfTree(s: Snapshot, base: multiset<nat>, p: nat)
    requires Counted(s.heap, s.frames, if p == NULL then multiset{} else multiset{p})
    requires ValuesCounted(s.heap, s.objects, s.entries, base) && EntriesOwned(s.objects, s.entries) && NULL !in s.heap
    ensures Progressing(Release(s, base, DroppingRoot(p), []), s)
  {
    hide EntriesOwned, FrameRefs, LeftRefs, RightRefs, Holders, EntriesHolding, Tracks, Justified;
    StartTracks(s);
    NothingYet(s, DroppingRoot(p));
  }

  lemma StartTracks(s: Snapshot)
    ensures Tracks(s, {}, s) && Among([]) == {}
  {
  }

  lemma AmongMore(order: seq<Cell>, c: Cell)
    ensures Among(order + [c]) == Among(order) + {c}
  {
  }

  lemma TracksNode(s: Snapshot, gone: set<Cell>, now: Snapshot, p: nat)
    requires Tracks(s, gone, now) && p in now.heap
    ensures Tracks(s, gone + {NodeCell(p)}, now.(heap := now.heap - {p}))
  {
    assert EnvsOf(s, gone + {NodeCell(p)}) == EnvsOf(s, gone);
  }

  /** What is left when object `o` is taken away, with its frame. */
  function WithoutObject(now: Snapshot, o: nat): Snapshot
    requires o in now.objects
  {
    now.(objects := now.objects - {o},
         frames := if now.objects[o].Closure? then now.frames - {now.objects[o].env} else now.frames)
  }

  lemma TracksObject(s: Snapshot, gone: set<Cell>, now: Snapshot, o: nat)
    requires Tracks(s, gone, now) && o in now.objects
    ensures Tracks(s, gone + {ObjectCell(o)}, WithoutObject(now, o))
  {
    assert EnvsOf(s, gone + {ObjectCell(o)}) ==
           EnvsOf(s, gone) + if s.objects[o].Closure? then {s.objects[o].env} else {};
  }

  lemma NodeFreed(r: Release, now: Snapshot, loose: multiset<nat>, p: nat)
    requires Progressing(r, now) && Counted(now.heap, now.frames, loose)
    requires p in now.heap && now.heap[p].refcnt == 1 && p in loose
    ensures Progressing(Freeing(r, NodeCell(p)), now.(heap := now.heap - {p}))
    ensures Continues(r, Freeing(r, NodeCell(p))) && Left(Freeing(r, NodeCell(p))) < Left(r)
  {
    hide Exact, EntriesOwned, Justified, Tracks, Counted, Due, Left;
    NodeIsDue(r.start, r.base, r.dropped, Among(r.gone), now, loose, p);
    JustifiedMore(r.start, r.dropped, r.gone, NodeCell(p));
    AmongMore(r.gone, NodeCell(p));
    TracksNode(r.start, Among(r.gone), now, p);
    LeftFalls(r, NodeCell(p), now.(heap := now.heap - {p}));
  }

  lemma ObjectFreed(r: Release, now: Snapshot, rest: multiset<nat>, o: nat)
    requires Progressing(r, now) && r.base <= rest
    requires ValuesCounted(now.heap, now.objects, now.entries, rest + multiset{o})
    requires o in now.objects && now.objects[o].refcnt == 1
    ensures Progressing(Freeing(r, ObjectCell(o)), WithoutObject(now, o))
    ensures Continues(r, Freeing(r, ObjectCell(o))) && Left(Freeing(r, ObjectCell(o))) < Left(r)
  {
    hide Exact, EntriesOwned, Justified, Tracks, ValuesCounted, Due, Left, WithoutObject;
    ObjectIsDue(r.start, r.base, r.dropped, Among(r.gone), now, rest, o);
    JustifiedMore(r.start, r.dropped, r.gone, ObjectCell(o));
    AmongMore(r.gone, ObjectCell(o));
    TracksObject(r.start, Among(r.gone), now, o);
    LeftFalls(r, ObjectCell(o), WithoutObject(now, o));
  }

  lemma NodeLowered(r: Release, now: Snapshot, heap: Heap)
    requires Progressing(r, now) && heap.Keys == now.heap.Keys
    requires forall a :: a in heap ==> SameContents(heap[a], now.heap[a])
    ensures Progressing(r, now.(heap := heap))
  {
    hide Exact, EntriesOwned, Justified, EnvsOf;
  }

  lemma ObjectLowered(r: Release, now: Snapshot, v: Value)
    requires Progressing(r, now) && (v.Ref? ==> v.id in now.objects && now.objects[v.id].refcnt > 1)
    ensures Progressing(r, now.(objects := Lowered(now.objects, v)))
  {
    hide Exact, EntriesOwned, Justified, EnvsOf, Lowered;
    LoweredObjects(now.objects, v);
  }

  lemma LoweredObjects(objects: Objects, v: Value)
    requires v.Ref? ==> v.id in objects && objects[v.id].refcnt > 1
    ensures var after := Lowered(objects, v);
            && after.Keys == objects.Keys
            && forall o :: o in objects ==>
                 && SameObject(after[o], objects[o]) && after[o].refcnt <= objects[o].refcnt
                 && (after[o].refcnt == 0 ==> objects[o].refcnt == 0)
  {
  }

  /** An entry of a dictionary that is being freed goes. */
  lemma EntryFreed(r: Release, now: Snapshot, e: Entry)
    requires Progressing(r, now) && e.0 !in now.objects
    ensures Progressing(r, now.(entries := now.entries - {e}))
  {
    hide Exact, Justified, EnvsOf;
  }

  /** Entries of live objects belong to dictionaries. */
  lemma LiveEntries(r: Release, now: Snapshot, e: Entry)
    requires Progressing(r, now) && e in now.entries && e.0 in now.objects
    ensures now.objects[e.0].Dictionary?
  {
    hide Exact, Justified;
  }

  lemma ReleaseEnds(r: Release, now: Snapshot)
    requires Progressing(r, now) && EntriesOwned(now.objects, now.entries)
    requires Counted(now.heap, now.frames, multiset{}) && ValuesCounted(now.heap, now.objects, now.entries, r.base)
    ensures Released(r.start, r.dropped, now)
  {
    hide Exact, EntriesOwned, Justified, Tracks, Counted, ValuesCounted, Released;
    AllReleased(r.start, r.base, r.dropped, r.gone, now);
  }

  // ----- Cells that hold nothing do not matter -----

  /** `after` has the nodes of `before`, some of them with new children, and new nodes that hold nothing old. */
  ghost predicate OnlyGrew(before: Heap, after: Heap) {
    && (forall a :: a in before ==> a in after && GrownNode(before, before[a], after[a]))
    && (forall a :: a in after && a !in before ==>
          after[a].value == Undef && (after[a].Inner? ==> after[a].left !in before && after[a].right !in before))
  }

  /** The same node, or one that got its first children. */
  predicate GrownNode(before: Heap, x: Node, y: Node) {
    && y.refcnt == x.refcnt && y.value == x.value && (y.Inner? <==> x.Inner?)
    && (x.Inner? ==>
          || (y.left == x.left && y.right == x.right)
          || (x.left == x.right == NULL && y.left !in before && y.right !in before))
  }

  ghost predicate Grew(s: Snapshot, t: Snapshot) {
    && NULL !in s.heap && OnlyGrew(s.heap, t.heap) && t.objects == s.objects && t.entries == s.entries
    && (forall f :: f in EnvsOf(s, Cells(s)) ==> (f in t.frames <==> f in s.frames) && (f in s.frames ==> t.frames[f] == s.frames[f]))
  }

  lemma GrewRefs(s: Snapshot, t: Snapshot, x: set<Cell>, c: Cell)
    requires Grew(s, t) && c in Cells(s)
    ensures RefsIn(Part(t, x), c) == RefsIn(Part(s, x), c)
  {
    var p, q := Part(s, x), Part(t, x);
    assert EnvsOf(s, x) <= EnvsOf(s, Cells(s)) && EnvsOf(t, x) == EnvsOf(s, x);
    assert p.frames == q.frames && p.entries == q.entries;
    match c
    case NodeCell(a) =>
      assert LeftRefs(q.heap, a) == LeftRefs(p.heap, a);
      assert RightRefs(q.heap, a) == RightRefs(p.heap, a);
    case ObjectCell(o) =>
      assert Holders(q.heap, o) == Holders(p.heap, o);
  }

  lemma GrewCount(s: Snapshot, t: Snapshot, c: Cell)
    requires Grew(s, t) && c in Cells(s)
    ensures c in Cells(t) && Count(t, c) == Count(s, c)
  {
  }

  lemma GrewDue(s: Snapshot, t: Snapshot, dropped: multiset<Cell>, x: set<Cell>, c: Cell)
    requires Grew(s, t) && c in Cells(s)
    ensures Due(t, dropped, x, c) <==> Due(s, dropped, x, c)
  {
    hide RefsIn, Part, Grew, Cells;
    GrewRefs(s, t, x, c);
    GrewCount(s, t, c);
  }

  lemma SameMembers(s: Snapshot, x: set<Cell>, y: set<Cell>)
    requires forall c :: c in Cells(s) ==> (c in x <==> c in y)
    ensures forall a :: a in s.heap ==> (NodeCell(a) in x <==> NodeCell(a) in y)
    ensures forall o :: o in s.objects ==> (ObjectCell(o) in x <==> ObjectCell(o) in y)
  {
    assert forall a :: a in s.heap ==> NodeCell(a) in Cells(s);
    assert forall o :: o in s.objects ==> ObjectCell(o) in Cells(s);
  }

  lemma SamePart(s: Snapshot, x: set<Cell>, y: set<Cell>)
    requires EntriesOwned(s.objects, s.entries) && forall c :: c in Cells(s) ==> (c in x <==> c in y)
    ensures Part(s, x) == Part(s, y)
  {
    hide Cells;
    SameMembers(s, x, y);
    assert EnvsOf(s, x) == EnvsOf(s, y);
    hide EnvsOf;
  }

  /** The same cells die. */
  lemma GrewDead(s: Snapshot, t: Snapshot, dropped: multiset<Cell>)
    requires Grew(s, t) && EntriesOwned(s.objects, s.entries)
    ensures forall c :: c in Cells(s) ==> (c in Dead(t, dropped) <==> c in Dead(s, dropped))
  {
    hide Grew, Due, Cells, Dead, EntriesOwned;
    DeadIsLeastClosed(s, dropped);
    DeadIsLeastClosed(t, dropped);
    var x := Dead(s, dropped) + (Cells(t) - Cells(s));
    forall c | Due(s, dropped, Dead(t, dropped), c)
      ensures c in Dead(t, dropped)
    {
      DueIsCell(s, dropped, Dead(t, dropped), c);
      GrewDue(s, t, dropped, Dead(t, dropped), c);
    }
    forall c | Due(t, dropped, x, c)
      ensures c in x
    {
      DueIsCell(t, dropped, x, c);
      if c in Cells(s) {
        GrewDue(s, t, dropped, x, c);
        SameDue(s, dropped, x, Dead(s, dropped), c);
      }
    }
    assert Closed(s, dropped, Dead(t, dropped));
    assert Closed(t, dropped, x);
  }

  lemma SameDue(s: Snapshot, dropped: multiset<Cell>, x: set<Cell>, y: set<Cell>, c: Cell)
    requires EntriesOwned(s.objects, s.entries) && (forall c :: c in Cells(s) ==> (c in x <==> c in y))
    requires Due(s, dropped, x, c)
    ensures Due(s, dropped, y, c)
  {
    SamePart(s, x, y);
  }

  /** Dropping a reference to an object that has others frees nothing. */
  lemma NobodyDies(s: Snapshot, v: Value)
    requires v.Ref? ==> v.id in s.objects && s.objects[v.id].refcnt > 1
    ensures Dead(s, Dropping(v)) == {}
  {
    hide Cells;
    DeadIsLeastClosed(s, Dropping(v));
    forall c | Due(s, Dropping(v), {}, c)
      ensures false
    {
      NoPart(s, c);
    }
    assert Closed(s, Dropping(v), {});
  }

  lemma NoPart(s: Snapshot, c: Cell)
    ensures RefsIn(Part(s, {}), c) == 0
  {
    var p := Part(s, {});
    assert EnvsOf(s, {}) == {};
    match c
    case NodeCell(a) => assert FrameRefs(p.frames, a) == {} && LeftRefs(p.heap, a) == {} && RightRefs(p.heap, a) == {};
    case ObjectCell(o) => assert Holders(p.heap, o) == {} && EntriesHolding(p.entries, o) == {};
  }

  // ----- Some cells that die -----

  lemma DueDies(s: Snapshot, dropped: multiset<Cell>, c: Cell)
    requires Due(s, dropped, Dead(s, dropped), c)
    ensures c in Dead(s, dropped)
  {
    hide Due, Dead;
    DeadIsLeastClosed(s, dropped);
  }

  /** An object dies when the last reference to it is given up. */
  lemma LastReferenceDies(s: Snapshot, v: Value)
    requires v.Ref? && v.id in s.objects && s.objects[v.id].refcnt == 1
    ensures ObjectCell(v.id) in Dead(s, Dropping(v))
  {
    hide RefsIn, Part, Dead;
    DueDies(s, Dropping(v), ObjectCell(v.id));
  }

  /** And so does what only one entry of a dying dictionary refers to. */
  lemma LastEntryDies(s: Snapshot, dropped: multiset<Cell>, e: Entry, o: nat)
    requires ObjectCell(e.0) in Dead(s, dropped) && e in s.entries && s.entries[e] == Ref(o)
    requires o in s.objects && s.objects[o].refcnt == 1
    ensures ObjectCell(o) in Dead(s, dropped)
  {
    hide Dead;
    var p := Part(s, Dead(s, dropped));
    assert e in EntriesHolding(p.entries, o);
    assert |EntriesHolding(p.entries, o)| > 0;
    DueDies(s, dropped, ObjectCell(o));
  }

  /** An object that holds nothing takes nothing with it. */
  lemma PlainDiesAlone(s: Snapshot, v: Value)
    requires v.Ref? && v.id in s.objects && s.objects[v.id].Plain? && EntriesOwned(s.objects, s.entries)
    ensures Dead(s, Dropping(v)) == if s.objects[v.id].refcnt == 1 then {ObjectCell(v.id)} else {}
  {
    hide Dead, RefsIn, Part;
    var c := ObjectCell(v.id);
    var x := if s.objects[v.id].refcnt == 1 then {c} else {};
    DeadIsLeastClosed(s, Dropping(v));
    forall d | Due(s, Dropping(v), x, d)
      ensures d in x
    {
      PlainRefs(s, x, v.id, d);
    }
    assert Closed(s, Dropping(v), x);
    if s.objects[v.id].refcnt == 1 {
      LastReferenceDies(s, v);
    }
  }

  lemma PlainRefs(s: Snapshot, x: set<Cell>, o: nat, d: Cell)
    requires o in s.objects && s.objects[o].Plain? && EntriesOwned(s.objects, s.entries) && x <= {ObjectCell(o)}
    ensures RefsIn(Part(s, x), d) == 0
  {
    hide RefsIn;
    assert Part(s, x).heap == map[] && EnvsOf(s, x) == {};
    assert Part(s, x).entries == map[];
    assert Part(s, x) == Part(s, {}).(objects := Part(s, x).objects);
    NoPart(s, d);
    SameRefs(Part(s, x), Part(s, {}), d);
  }

  lemma SameRefs(p: Snapshot, q: Snapshot, c: Cell)
    requires p.heap == q.heap && p.frames == q.frames && p.entries == q.entries
    ensures RefsIn(p, c) == RefsIn(q, c)
  {
  }

  // ----- Without cycles nothing is left -----

  /** `c` holds a reference to `d`. */
  predicate Refers(s: Snapshot, c: Cell, d: Cell) {
    RefsIn(Part(s, {c}), d) > 0
  }

  /** A reference is a child pointer or the value of a node, the value of an entry, or the root of a closure's frame. */
  lemma ReferenceIs(s: Snapshot, c: Cell, d: Cell)
    requires c in Cells(s) && d in Cells(s)
    ensures Refers(s, c, d) <==>
            match c
            case NodeCell(p) =>
              (match d
               case NodeCell(a) => s.heap[p].Inner? && (s.heap[p].left == a || s.heap[p].right == a)
               case ObjectCell(o) => s.heap[p].value == Ref(o))
            case ObjectCell(q) =>
              (match d
               case NodeCell(a) =>
                 s.objects[q].Closure? && s.objects[q].env in s.frames && s.frames[s.objects[q].env] == a
               case ObjectCell(o) => exists e :: e in s.entries && e.0 == q && s.entries[e] == Ref(o))
  {
    var part := Part(s, {c});
    match c
    case NodeCell(p) =>
      assert EnvsOf(s, {c}) == {} && part.entries == map[] && part.heap == map[p := s.heap[p]];
      match d {
        case NodeCell(a) =>
          assert p in LeftRefs(part.heap, a) <==> s.heap[p].Inner? && s.heap[p].left == a;
          assert p in RightRefs(part.heap, a) <==> s.heap[p].Inner? && s.heap[p].right == a;
          assert LeftRefs(part.heap, a) <= {p} && RightRefs(part.heap, a) <= {p} && FrameRefs(part.frames, a) == {};
        case ObjectCell(o) =>
          assert p in Holders(part.heap, o) <==> s.heap[p].value == Ref(o);
          assert Holders(part.heap, o) <= {p} && EntriesHolding(part.entries, o) == {};
      }
    case ObjectCell(q) =>
      assert part.heap == map[];
      match d {
        case NodeCell(a) =>
          assert LeftRefs(part.heap, a) == {} && RightRefs(part.heap, a) == {};
          assert EnvsOf(s, {c}) == if s.objects[q].Closure? then {s.objects[q].env} else {};
          assert s.objects[q].Closure? ==> FrameRefs(part.frames, a) <= {s.objects[q].env};
          assert s.objects[q].Closure? ==>
              (s.objects[q].env in FrameRefs(part.frames, a) <==>
                 s.objects[q].env in s.frames && s.frames[s.objects[q].env] == a);
          assert !s.objects[q].Closure? ==> FrameRefs(part.frames, a) == {};
        case ObjectCell(o) =>
          assert Holders(part.heap, o) == {};
          assert forall e :: e in EntriesHolding(part.entries, o) <==> e in s.entries && e.0 == q && s.entries[e] == Ref(o);
      }
  }

  /** No cell refers to itself, directly or through others: there is a rank that falls along all references. */
  ghost predicate Ranked(s: Snapshot, rank: Cell -> nat) {
    forall c, d :: c in Cells(s) && d in Cells(s) && Refers(s, c, d) ==> rank(c) > rank(d)
  }

  lemma FrameRefers(s: Snapshot, a: nat)
    requires |FrameRefs(s.frames, a)| > 0 && forall f :: f in s.frames ==> f in Envs(s.objects)
    ensures exists c :: c in Cells(s) && Refers(s, c, NodeCell(a))
  {
    var f :| f in FrameRefs(s.frames, a);
    var o :| o in s.objects && s.objects[o].Closure? && s.objects[o].env == f;
    assert f in EnvsOf(s, {ObjectCell(o)});
    assert f in FrameRefs(Part(s, {ObjectCell(o)}).frames, a);
    assert Refers(s, ObjectCell(o), NodeCell(a));
  }

  lemma LinkRefers(s: Snapshot, a: nat)
    requires |LeftRefs(s.heap, a)| + |RightRefs(s.heap, a)| > 0
    ensures exists c :: c in Cells(s) && Refers(s, c, NodeCell(a))
  {
    var p :| p in LeftRefs(s.heap, a) + RightRefs(s.heap, a);
    var part := Part(s, {NodeCell(p)});
    assert p in LeftRefs(part.heap, a) + RightRefs(part.heap, a);
    assert Refers(s, NodeCell(p), NodeCell(a));
  }

  lemma ValueRefers(s: Snapshot, o: nat)
    requires |Holders(s.heap, o)| + |EntriesHolding(s.entries, o)| > 0 && EntriesOwned(s.objects, s.entries)
    ensures exists c :: c in Cells(s) && Refers(s, c, ObjectCell(o))
  {
    if |Holders(s.heap, o)| > 0 {
      var a :| a in Holders(s.heap, o);
      assert a in Holders(Part(s, {NodeCell(a)}).heap, o);
      assert Refers(s, NodeCell(a), ObjectCell(o));
    } else {
      var e :| e in EntriesHolding(s.entries, o);
      assert e in EntriesHolding(Part(s, {ObjectCell(e.0)}).entries, o);
      assert Refers(s, ObjectCell(e.0), ObjectCell(o));
    }
  }

  lemma Referred(s: Snapshot, c: Cell)
    requires RefsIn(s, c) > 0 && EntriesOwned(s.objects, s.entries) && forall f :: f in s.frames ==> f in Envs(s.objects)
    ensures exists b :: b in Cells(s) && Refers(s, b, c)
  {
    hide Refers, Cells;
    match c
    case NodeCell(a) =>
      if |FrameRefs(s.frames, a)| > 0 {
        FrameRefers(s, a);
      } else {
        LinkRefers(s, a);
      }
    case ObjectCell(o) => ValueRefers(s, o);
  }

  lemma {:induction false} Highest(cells: set<Cell>, rank: Cell -> nat) returns (c: Cell)
    requires cells != {}
    ensures c in cells && forall d :: d in cells ==> rank(d) <= rank(c)
  {
    c :| c in cells;
    if cells != {c} {
      assert cells - {c} != {};
      var other := Highest(cells - {c}, rank);
      c := if rank(other) > rank(c) then other else c;
    }
  }

  /**
   If all frames that are left belong to closures, nothing is referred to from elsewhere, every object
   is referred to, and no references run in a circle, then nothing is left at all.
   */
  lemma NoCyclesNoLeaks(s: Snapshot, rank: Cell -> nat)
    requires Counted(s.heap, s.frames, multiset{}) && ValuesCounted(s.heap, s.objects, s.entries, multiset{})
    requires EntriesOwned(s.objects, s.entries) && forall f :: f in s.frames ==> f in Envs(s.objects)
    requires forall o :: o in s.objects ==> s.objects[o].refcnt > 0
    requires Ranked(s, rank)
    ensures s == Snapshot(map[], map[], map[], map[])
  {
    hide RefsIn, Refers, EntriesOwned, Counted, ValuesCounted;
    assert multiset{} + Held(Undef) == multiset{};
    StartOfValue(s, multiset{}, Undef);
    if Cells(s) != {} {
      var c := Highest(Cells(s), rank);
      Referred(s, c);
      assert false;
    }
    NoCells(s);
  }

  lemma NoCells(s: Snapshot)
    requires Cells(s) == {} && EntriesOwned(s.objects, s.entries) && forall f :: f in s.frames ==> f in Envs(s.objects)
    ensures s == Snapshot(map[], map[], map[], map[])
  {
    assert forall a :: a in s.heap ==> NodeCell(a) in Cells(s);
    assert forall o :: o in s.objects ==> ObjectCell(o) in Cells(s);
    assert s.objects == map[];
  }
}
