/**
 Copy-on-write register frames. Frames share tree nodes; a write makes private copies of the
 shared nodes on its path, releasing a frame frees the nodes nobody else refers to.
 */
module FrameStore {
  import opened FiniteSets
  import opened FrameRange
  import opened FrameTree
  import opened FrameRelease
  import opened ScriptObjects
  import opened Reclamation
  import opened Wrappers

  datatype Outcome = Stored | InvalidArguments | UseAfterFree

  /** Tree `p` of `heap` and tree `p'` of `heap'` hold the same values. */
  ghost predicate Agree(heap: Heap, p: nat, heap': Heap, p': nat) {
    forall u: nat :: u < REGISTERS ==> Register(heap', p', u) == Register(heap, p, u)
  }

  /** Every register of every frame has the same value in both states. */
  ghost predicate SameRegisters(heap: Heap, frames: map<nat, nat>, heap': Heap, frames': map<nat, nat>) {
    frames.Keys == frames'.Keys && forall g :: g in frames ==> Agree(heap, frames[g], heap', frames'[g])
  }

  /** The search for `t` in frame `f` is at its `i`-th node `root`, and all nodes before it are private. */
  ghost predicate Arrived(heap: Heap, frames: map<nat, nat>, f: nat, t: nat, i: nat, root: nat) {
    && f in frames && OnTheWay(t, i)
    && root in heap && root == NodeAt(heap, frames[f], t, i)
    && Private(heap, frames[f], t, i)
  }

  /** Trees have their shape, all reference counts are exact, and every closure has its frame. */
  ghost predicate Sound(s: Snapshot, level: map<nat, nat>, loose: multiset<nat>, external: multiset<nat>) {
    && NULL !in s.heap && Inv(s.heap, level, s.frames, loose)
    && ValuesCounted(s.heap, s.objects, s.entries, external) && EnvsOwned(s.objects, s.frames)
  }

  /** Entries of dictionaries that are being freed. */
  ghost function Orphans(objects: Objects, entries: Entries): set<Entry> {
    set e | e in entries && e.0 !in objects
  }

  class Store {
    var heap: Heap
    var frames: map<nat, nat>
    var objects: Objects
    var entries: Entries
    /** Object references kept outside, by local variables and the like. */
    ghost var external: multiset<nat>
    ghost var level: map<nat, nat>
    /** Node references held by local variables while references are being released. */
    ghost var loose: multiset<nat>
    /** The release in progress. */
    ghost var release: Release

    ghost predicate Consistent()
      reads this
    {
      Sound(Now(), level, loose, external)
    }

    ghost predicate Valid()
      reads this
    {
      Consistent() && loose == multiset{} && EntriesOwned(objects, entries)
    }

    /** The state that is shared by all frames. */
    ghost function Now(): Snapshot
      reads this
    {
      Snapshot(heap, frames, objects, entries)
    }

    /** In the middle of a release. */
    ghost predicate Releasing()
      reads this
    {
      Consistent() && Progressing(release, Now()) && release.base <= external
    }

    constructor ()
      ensures Valid() && heap == map[] && frames == map[] && objects == map[] && entries == map[] && external == multiset{}
    {
      heap, frames, objects, entries := map[], map[], map[], map[];
      external, level, loose := multiset{}, map[], multiset{};
    }

    /** Some address that is not in use, neither by the heap nor by the blocks just allocated. */
    method Malloc(taken: set<nat>) returns (n: nat)
      ensures n != NULL && n !in heap && n !in taken
    {
      ghost var example := FreshNumber(heap.Keys + taken);
      n :| n > 0 && n !in heap.Keys + taken;
    }

    /** Create an object that nobody refers to yet: a dictionary without entries, or an object that holds nothing. */
    method NewObject(dictionary: bool) returns (o: nat)
      requires Valid()
      modifies this`objects
      ensures Valid() && o !in old(objects)
      ensures objects == old(objects)[o := if dictionary then Dictionary(0) else Plain(0)]
    {
      hide Inv, ValuesCounted, EnvsOwned, EntriesOwned;
      ghost var example := FreshNumber(objects.Keys);
      o :| o > 0 && o !in objects.Keys;
      ObjectAdded(Now(), external, o, if dictionary then Dictionary(0) else Plain(0));
      objects := objects[o := if dictionary then Dictionary(0) else Plain(0)];
    }

    /** A new frame: empty, or sharing the tree of an existing one. */
    method NewFrame(id: nat, from: Option<nat>)
      requires Valid() && id !in frames
      requires from.Some? ==> from.value in frames
      modifies this`heap, this`frames
      ensures Valid() && frames.Keys == old(frames.Keys) + {id}
      ensures Agree(old(heap), if from.Some? then old(frames[from.value]) else NULL, heap, frames[id])
      ensures forall g :: g in old(frames) ==> Agree(old(heap), old(frames[g]), heap, frames[g])
    {
      hide Shaped, Counted, ValuesCounted, ValueAt;
      var root := if from.Some? then frames[from.value] else NULL;
      FramePoints(heap, level, frames, from);
      OpenFrame(heap, level, frames, id, root);
      if root != NULL {
        heap := heap[root := heap[root].(refcnt := heap[root].refcnt + 1)];
      }
      frames := frames[id := root];
      SameHoldersBothWays(old(heap), heap, objects, entries, external);
      RemainingTreesAgree(old(heap), heap, level, frames);
    }

    /** A new closure: an object with a frame `id` of its own that shares the tree of frame `from`. */
    method NewClosure(id: nat, from: nat) returns (o: nat)
      requires Valid() && id !in frames && from in frames
      modifies this`heap, this`frames, this`objects
      ensures Valid() && o !in old(objects) && objects == old(objects)[o := Closure(0, id)]
      ensures frames.Keys == old(frames.Keys) + {id} && Agree(old(heap), old(frames[from]), heap, frames[id])
      ensures forall g :: g in old(frames) ==> Agree(old(heap), old(frames[g]), heap, frames[g])
    {
      hide Inv, Agree, ValuesCounted, EnvsOwned, EntriesOwned;
      EnvsAreFrames(objects, frames);
      NewFrame(id, Some(from));
      ghost var example := FreshNumber(objects.Keys);
      o :| o > 0 && o !in objects.Keys;
      ObjectAdded(Now(), external, o, Closure(0, id));
      objects := objects[o := Closure(0, id)];
    }

    // ----- Releasing references -----

    /** Give up the reference to `v` that a local variable holds; the last one frees the object. */
    method ValueDecref(v: Value, ghost rest: multiset<nat>)
      requires Releasing() && external == rest + Held(v) && release.base <= rest
      modifies this`heap, this`frames, this`objects, this`entries, this`external, this`loose, this`release
      ensures Releasing() && external == rest && loose == old(loose) && Continues(old(release), release)
      ensures Orphans(objects, entries) == old(Orphans(objects, entries))
      ensures entries.Keys <= old(entries.Keys) && objects.Keys <= old(objects.Keys)
      decreases Left(release), 1
    {
      hide Inv, ValuesCounted, EnvsOwned, Progressing, Left, Orphans, Held;
      if !v.Ref? {
        HeldNothing(v, rest);
        return;
      }
      HeldIsLive(heap, v, objects, entries, rest);
      if objects[v.id].refcnt > 1 {
        LowerHeld(heap, v, objects, entries, rest);
        ObjectLowered(release, Now(), v);
        LoweredAlike(objects, entries, frames, v);
        objects := objects[v.id := objects[v.id].(refcnt := objects[v.id].refcnt - 1)];
        external := rest;
      } else {
        HeldOne(v);
        FreeObject(v.id, rest);
      }
    }

    /** Free an object whose last reference is given up, and give up the references it holds. */
    method FreeObject(o: nat, ghost rest: multiset<nat>)
      requires Releasing() && external == rest + multiset{o} && release.base <= rest
      requires o in objects && objects[o].refcnt == 1
      modifies this`heap, this`frames, this`objects, this`entries, this`external, this`loose, this`release
      ensures Releasing() && external == rest && loose == old(loose) && Continues(old(release), release)
      ensures Orphans(objects, entries) == old(Orphans(objects, entries))
      ensures entries.Keys <= old(entries.Keys) && objects.Keys <= old(objects.Keys)
      decreases Left(release), 0
    {
      hide Inv, ValuesCounted, EnvsOwned, Progressing, Left, Orphans, Perfect;
      var dying := objects[o];
      var root := TakeOut(o, rest);
      match dying {
        case Plain(_) =>
        case Dictionary(_) =>
          FreeEntries(o, rest);
        case Closure(_, _) =>
          RootIsPerfect();
          TreeDecref(root, 0, REGISTERS, HEIGHT, old(loose));
      }
    }

    /** Take an object and the frame it owns out of the state; the root of the frame becomes loose. */
    method TakeOut(o: nat, ghost rest: multiset<nat>) returns (root: nat)
      requires Releasing() && external == rest + multiset{o} && release.base <= rest
      requires o in objects && objects[o].refcnt == 1
      modifies this`frames, this`objects, this`external, this`loose, this`release
      ensures Releasing() && external == rest && release.base <= rest && release == Freeing(old(release), ObjectCell(o))
      ensures Continues(old(release), release) && Left(release) < Left(old(release))
      ensures loose == if root == NULL then old(loose) else old(loose) + multiset{root}
      ensures root != NULL ==> old(objects[o]).Closure? && root in level && level[root] == HEIGHT
      ensures objects == old(objects) - {o}
      ensures NotOf(Orphans(objects, entries), o) == old(Orphans(objects, entries))
      ensures !old(objects[o]).Dictionary? ==> Orphans(objects, entries) == old(Orphans(objects, entries))
    {
      hide Sound, Progressing, Left, Orphans, Continues, NotOf, EnvRoot;
      TakenOut(release, Now(), level, loose, rest, o);
      EnvRootIs(Now(), o);
      ghost var root0 := EnvRoot(Now(), o);
      var dying := objects[o];
      root := if dying.Closure? then frames[dying.env] else NULL;
      assert root == root0;
      objects := objects - {o};
      frames := if dying.Closure? then frames - {dying.env} else frames;
      loose := if root == NULL then loose else loose + multiset{root};
      external, release := rest, Freeing(release, ObjectCell(o));
      assert Sound(Now(), level, loose, external) && Progressing(release, Now());
    }

    /** Give up the values of a dictionary that is being freed, in any order. */
    method FreeEntries(o: nat, ghost rest: multiset<nat>)
      requires Releasing() && external == rest && release.base <= rest && o !in objects
      modifies this`heap, this`frames, this`objects, this`entries, this`external, this`loose, this`release
      ensures Releasing() && external == rest && loose == old(loose) && Continues(old(release), release)
      ensures Orphans(objects, entries) == NotOf(old(Orphans(objects, entries)), o)
      ensures entries.Keys <= old(entries.Keys) && objects.Keys <= old(objects.Keys)
      decreases Left(release), 3
    {
      hide Inv, ValuesCounted, EnvsOwned, Progressing, Left, Orphans, Held;
      while exists e :: e in entries && e.0 == o
        invariant Releasing() && external == rest && release.base <= rest && o !in objects
        invariant loose == old(loose) && Continues(old(release), release)
        invariant NotOf(Orphans(objects, entries), o) == NotOf(old(Orphans(objects, entries)), o)
        invariant entries.Keys <= old(entries.Keys) && objects.Keys <= old(objects.Keys)
        decreases |entries|
      {
        var e :| e in entries && e.0 == o;
        var v := entries[e];
        ghost var before := entries;
        EntryRemoved(heap, e, objects, entries, rest);
        EntryFreed(release, Now(), e);
        OrphanFreed(objects, entries, e);
        LeftLater(old(release), release);
        entries := entries - {e};
        external := rest + Held(v);
        ValueDecref(v, rest);
        FewerEntries(before, e, entries);
      }
      NoneOf(objects, entries, o);
    }

    /**
     Drop a loose reference to the tree `p` that covers the registers [l, r); `rest` are the other
     loose references.
     */
    method TreeDecref(p: nat, l: nat, r: nat, ghost h: nat, ghost rest: multiset<nat>)
      requires Releasing() && Perfect(l, r, h) && h <= HEIGHT
      requires loose == if p == NULL then rest else rest + multiset{p}
      requires p != NULL ==> p in level && level[p] == h
      modifies this`heap, this`frames, this`objects, this`entries, this`external, this`loose, this`release
      ensures Releasing() && external == old(external) && loose == rest && Continues(old(release), release)
      ensures Orphans(objects, entries) == old(Orphans(objects, entries))
      ensures entries.Keys <= old(entries.Keys) && objects.Keys <= old(objects.Keys)
      decreases Left(release), 1
    {
      hide Shaped, Counted, ValuesCounted, EnvsOwned, Progressing, Left, Orphans, Perfect;
      if p == NULL {
        return;
      }
      LooseIsAllocated(heap, level, frames, rest, p);
      if heap[p].refcnt > 1 {
        DropRefKeepsAll(heap, level, frames, rest, objects, entries, external, p);
        NodeLowered(release, Now(), DropRef(heap, p));
        heap := DropRef(heap, p);
        loose := rest;
      } else {
        FreeNode(p, l, r, h, rest);
      }
    }

    /** Free a node whose last reference is dropped: it leaves the heap, its children and its value lose a reference. */
    method FreeNode(p: nat, l: nat, r: nat, ghost h: nat, ghost rest: multiset<nat>)
      requires Releasing() && Perfect(l, r, h) && h <= HEIGHT
      requires loose == rest + multiset{p}
      requires p in heap && heap[p].refcnt == 1 && p in level && level[p] == h
      modifies this`heap, this`frames, this`objects, this`entries, this`external, this`loose, this`release
      ensures Releasing() && external == old(external) && loose == rest && Continues(old(release), release)
      ensures Orphans(objects, entries) == old(Orphans(objects, entries))
      ensures entries.Keys <= old(entries.Keys) && objects.Keys <= old(objects.Keys)
      decreases Left(release), 0
    {
      hide Shaped, Counted, ValuesCounted, EnvsOwned, Progressing, Left, Orphans, Perfect, Width, Middle, Held, Links;
      LooseIsAllocated(heap, level, frames, rest, p);
      HalvesArePerfect(l, r, h);
      var node := heap[p];
      NodeFreed(release, Now(), loose, p);
      RemoveKeepsAll(heap, level, frames, rest, objects, entries, external, p);
      heap := heap - {p};
      loose, release := rest + Links(node), Freeing(release, NodeCell(p));
      external := external + Held(node.value);
      if r - l > 1 {
        ChildrenDecref(node, l, r, h, rest);
      }
      LeftLater(Freeing(old(release), NodeCell(p)), release);
      ValueDecref(node.value, old(external));
    }

    /** Drop the references to both children of a node that has just left the heap. */
    method ChildrenDecref(node: Node, l: nat, r: nat, ghost h: nat, ghost rest: multiset<nat>)
      requires Releasing() && Perfect(l, r, h) && 1 < h <= HEIGHT && node.Inner?
      requires loose == rest + Links(node)
      requires (node.left == NULL <==> node.right == NULL)
      requires node.left != NULL ==> node.left in level && level[node.left] == h - 1
      requires node.right != NULL ==> node.right in level && level[node.right] == h - 1
      modifies this`heap, this`frames, this`objects, this`entries, this`external, this`loose, this`release
      ensures Releasing() && external == old(external) && loose == rest && Continues(old(release), release)
      ensures Orphans(objects, entries) == old(Orphans(objects, entries))
      ensures entries.Keys <= old(entries.Keys) && objects.Keys <= old(objects.Keys)
      decreases Left(release), 3
    {
      hide Shaped, Counted, ValuesCounted, EnvsOwned, Progressing, Left, Orphans, Perfect, Width, Middle;
      HalvesArePerfect(l, r, h);
      var mid := Middle(l, r);
      ghost var other := if node.right == NULL then rest else rest + multiset{node.right};
      assert node.left != NULL ==> rest + Links(node) == other + multiset{node.left};
      assert node.left == NULL ==> rest + Links(node) == other;
      TreeDecref(node.left, l, mid, h - 1, other);
      LeftLater(old(release), release);
      TreeDecref(node.right, mid + 1, r, h - 1, rest);
    }

    /**
     Give up a reference to `v` that has been taken from where it was held. Exactly the cells go
     that die of it, whatever they are; `rest` are the other references kept outside.
     */
    method GiveUp(v: Value, ghost rest: multiset<nat>)
      requires Consistent() && loose == multiset{} && EntriesOwned(objects, entries) && external == rest + Held(v)
      modifies this`heap, this`frames, this`objects, this`entries, this`external, this`loose, this`release
      ensures Valid() && external == rest && Released(old(Now()), Dropping(v), Now())
    {
      hide Shaped, Counted, ValuesCounted, EnvsOwned, EntriesOwned, Progressing, Orphans, Held, Released;
      release := Release(Now(), rest, Dropping(v), []);
      StartOfValue(Now(), rest, v);
      OwnedOrphans(release, Now());
      ValueDecref(v, rest);
      OwnedOrphans(release, Now());
      ReleaseEnds(release, Now());
    }

    /** Release a frame: exactly the cells go that die of it, and all other frames keep all their registers. */
    method FreeFrame(f: nat)
      requires Valid() && f in frames && f !in Envs(objects)
      modifies this`heap, this`frames, this`objects, this`entries, this`external, this`loose, this`release
      ensures Valid() && external == old(external)
      ensures Released(old(Now()).(frames := old(frames) - {f}), DroppingRoot(old(frames[f])), Now())
      ensures forall g :: g in frames ==> g in old(frames) && g != f && Agree(old(heap), old(frames[g]), heap, frames[g])
      ensures frames == map[] ==>
                heap == map[] && forall o :: o in objects ==> objects[o].refcnt == |EntriesHolding(entries, o)| + external[o]
    {
      hide Shaped, Counted, ValuesCounted, ValueAt, Perfect, EntriesOwned, Progressing, Orphans, Released;
      var root := frames[f];
      CloseFrame(heap, level, frames, loose, f);
      frames := frames - {f};
      loose := if root == NULL then multiset{} else multiset{root};
      assert multiset{} + multiset{root} == multiset{root};
      release := Release(Now(), external, DroppingRoot(root), []);
      StartOfTree(Now(), external, root);
      OwnedOrphans(release, Now());
      RootIsPerfect();
      TreeDecref(root, 0, REGISTERS, HEIGHT, multiset{});
      OwnedOrphans(release, Now());
      ReleaseEnds(release, Now());
      SurvivorsAgree(release.start, DroppingRoot(root), Now(), level);
      if frames == map[] {
        AllReclaimed(Now(), level, external);
      }
    }

    /** Read a register: the id with all bits set is not a register, a register never written is undefined. */
    method Get(f: Option<nat>, t: nat) returns (v: Value)
      requires Valid() && (f.Some? ==> f.value in frames) && t <= REGISTERS
      ensures v == if f.None? || t == REGISTERS then Bad else Register(heap, frames[f.value], t)
    {
      hide Inv, Perfect, Range, Width, ValueAt, ValuesCounted;
      if f.None? || t == REGISTERS {
        return Bad;
      }
      var root, l, r := frames[f.value], 0, REGISTERS;
      StartingRange(t);
      ghost var i := 0;
      while root != NULL
        invariant OnTheWay(t, i) && (l, r) == Range(t, i)
        invariant root == NodeAt(heap, frames[f.value], t, i)
        decreases HEIGHT - i
      {
        SearchStep(heap, level, frames, f.value, t, i);
        RangeStep(t, i);
        var mid := Middle(l, r);
        if mid == t {
          return heap[root].value;
        }
        if t < mid {
          r, root := mid, heap[root].left;
        } else {
          l, root := mid + 1, heap[root].right;
        }
        i := i + 1;
      }
      RegisterFromStep(heap, frames[f.value], t, i);
      NullHoldsNothing(heap, t, i);
      v := Undef;
    }

    /** Give frame `f` a root node if it has none. */
    method EnsureRoot(f: nat, ghost t: nat)
      requires Valid() && f in frames && t < REGISTERS
      modifies this`heap, this`frames, this`level
      ensures Valid() && f in frames && Arrived(heap, frames, f, t, 0, frames[f])
      ensures SameRegisters(old(heap), old(frames), heap, frames)
      ensures Untouched(old(heap), old(frames[f]), heap, level, frames[f], t, 0, {})
      ensures frames == old(frames)[f := frames[f]] && OnlyGrew(old(heap), heap)
    {
      hide Sound, Inv, ValueAt, Points, EntriesOwned, SameRegisters, OnlyGrew;
      SoundTrees(Now(), level, multiset{}, external);
      FramePoints(heap, level, frames, Some(f));
      OnlyItself(heap);
      SameRegistersItself(heap, frames);
      if frames[f] == NULL {
        var n := Malloc({});
        GrowRootSound(Now(), level, external, f, n);
        heap := heap[n := Fresh(false)];
        level := level[n := HEIGHT];
        frames := frames[f := n];
      }
    }

    /** Give the node that the write has arrived at a pair of empty children. */
    method GrowChildren(ghost f: nat, ghost t: nat, ghost i: nat, root: nat, leaf: bool)
      requires Valid() && Arrived(heap, frames, f, t, i, root)
      requires heap[root].Inner? && heap[root].left == NULL && root in level && level[root] > 1
      requires leaf <==> level[root] == 2
      modifies this`heap, this`level
      ensures Valid() && Arrived(heap, frames, f, t, i, root)
      ensures SameRegisters(old(heap), frames, heap, frames)
      ensures Grown(old(heap), heap, root) && old(heap[root].right) == NULL
      ensures SlotAt(heap, frames[f], t, i) == old(SlotAt(heap, frames[f], t, i))
      ensures forall a :: a in old(level) && a in old(heap) ==> a in level && level[a] == old(level[a])
    {
      hide Shaped, Counted, ValuesCounted, ValueAt, Private, NodeAt, SlotAt;
      var l := Malloc({});
      var r := Malloc({l});
      ArrivedIsShaped(heap, level, frames, root);
      GrowKeepsAll(heap, level, frames, objects, entries, external, f, t, i, root, l, r);
      heap := AddChildren(heap, root, l, r, leaf);
      level := level[l := level[root] - 1][r := level[root] - 1];
    }

    /** Take a reference to object `v`. */
    method ValueIncref(v: Value)
      requires v.Ref? ==> v.id in objects
      modifies this`objects
      ensures objects == Retained(old(objects), v)
    {
      if v.Ref? {
        objects := objects[v.id := objects[v.id].(refcnt := objects[v.id].refcnt + 1)];
      }
    }

    /** Adjust the reference count of node `a`. */
    method AddToRefcnt(a: nat, delta: int)
      requires a in heap && heap[a].refcnt + delta >= 0
      modifies this`heap
      ensures heap == Adjust(old(heap), a, delta)
    {
      heap := heap[a := heap[a].(refcnt := heap[a].refcnt + delta)];
    }

    /** Replace the shared node that the write has arrived at by a private copy. */
    method CopyNode(f: nat, ghost t: nat, ghost i: nat, parent: Slot, root: nat) returns (n: nat)
      requires Valid() && Arrived(heap, frames, f, t, i, root) && i < HEIGHT
      requires parent == SlotAt(heap, frames[f], t, i)
      requires heap[root].refcnt > 1 && (heap[root].Inner? ==> heap[root].left != NULL)
      modifies this`heap, this`frames, this`objects, this`level
      ensures Valid() && Arrived(heap, frames, f, t, i, n)
      ensures SameRegisters(old(heap), old(frames), heap, frames)
      ensures heap[n].refcnt == 1 && n != root && root in heap && heap[root].value == heap[n].value
      ensures heap[n].Inner? ==>
                && heap[n].left in heap && heap[heap[n].left].refcnt > 1
                && heap[n].right in heap && heap[heap[n].right].refcnt > 1
      ensures frames == old(frames)[f := frames[f]] && SameObjects(old(objects), objects)
    {
      hide Sound, ValueAt, Private, NodeAt, OnTheWay, Unshare, SameRegisters, EntriesOwned, Retained, SameObjects;
      n := Malloc({});
      CopySound(Now(), level, external, f, t, i, root, n);
      ValueIncref(heap[root].value);
      LinkCopy(parent, root, n);
      frames := FramesAfter(frames, f, parent, n);
      level := level[n := level[root]];
    }

    /** Allocate the copy `n` of `root`, move the reference of `parent` to it, and let it share the children. */
    method LinkCopy(parent: Slot, root: nat, n: nat)
      requires root in heap && heap[root].refcnt > 1 && n !in heap
      requires heap[root].Inner? ==>
                 heap[root].left in heap && heap[root].right in heap && heap[root].left != root && heap[root].right != root
      requires !parent.Root? ==> parent.parent in heap && heap[parent.parent].Inner? && parent.parent != root
      modifies this`heap
      ensures heap == Unshare(old(heap), parent, root, n)
    {
      hide Unshare;
      StepwiseUnshare(heap, parent, root, n);
      var node := heap[root];
      heap := heap[n := node.(refcnt := 1)];
      AddToRefcnt(root, -1);
      if node.Inner? {
        AddToRefcnt(node.left, 1);
        AddToRefcnt(node.right, 1);
      }
      match parent {
        case Root =>
        case LeftOf(p) => heap := heap[p := heap[p].(left := n)];
        case RightOf(p) => heap := heap[p := heap[p].(right := n)];
      }
    }

    /**
     Store `v` in node `x`: the old value loses its reference first, then the new value gains one.
     If that freed the new value, taking the reference touches freed memory.
     */
    method Overwrite(ghost f: nat, ghost t: nat, x: nat, v: Value) returns (ok: bool)
      requires Valid() && f in frames && f !in Envs(objects) && (v.Ref? ==> v.id in objects)
      requires t < REGISTERS && x in heap && x == NodeAt(heap, frames[f], t, Depth(t))
      modifies this`heap, this`frames, this`objects, this`entries, this`external, this`loose, this`release
      ensures ok <==> !(v.Ref? && ObjectCell(v.id) in Dead(Cleared(old(Now()), x), Dropping(old(heap[x].value))))
      ensures ok ==> Valid() && external == old(external) && x in heap && heap[x].value == v
      ensures ok ==> Released(Cleared(old(Now()), x), Dropping(old(heap[x].value)), Cleared(Now(), x))
    {
      hide Sound, Inv, EntriesOwned, Released, NodeAt, Held, Dead, Envs, Retained;
      var was := heap[x].value;
      ValueTaken(Now(), level, external, x);
      SetValueKeepsPath(heap, x, Undef, frames[f], t, Depth(t));
      heap := SetValue(heap, x, Undef);
      external := external + Held(was);
      ghost var s := Now();
      GiveUp(was, old(external));
      ReleasedRemains(s, Dropping(was), Now());
      SoundTrees(s, level, multiset{}, external + Held(was));
      PathRemains(s, Dropping(was), Now(), level, external, f, t, Depth(t));
      ReleasedObjects(s, Dropping(was), Now(), v);
      ValueStored(Now(), level, external, x, v);
      heap := heap[x := heap[x].(value := v)];
      if v.Ref? && v.id !in objects {
        return false;
      }
      ReleasedRetained(s, Dropping(was), Cleared(Now(), x), v);
      ValueIncref(v);
      ok := true;
    }

    /** Make the node that the write has arrived at ready to be passed: with children, and private. */
    method PrepareNode(f: nat, ghost t: nat, ghost i: nat, parent: Slot, root: nat, l: nat, r: nat,
                       ghost private: bool, ghost heap0: Heap, ghost root0: nat, ghost grown: set<nat>)
      returns (node: nat, ghost still: bool, ghost grew: set<nat>)
      requires Valid() && Arrived(heap, frames, f, t, i, root)
      requires (l, r) == Range(t, i) && parent == SlotAt(heap, frames[f], t, i)
      requires private ==> Untouched(heap0, root0, heap, level, root, t, i, grown) && OnlyGrew(heap0, heap)
      requires !private ==> heap[root].refcnt > 1
      modifies this`heap, this`frames, this`objects, this`level
      ensures Valid() && Arrived(heap, frames, f, t, i, node)
      ensures SameRegisters(old(heap), old(frames), heap, frames)
      ensures heap[node].refcnt == 1 && frames == old(frames)[f := frames[f]] && SameObjects(old(objects), objects)
      ensures heap[node].Inner? ==> heap[node].left in heap && heap[node].right in heap
      ensures still ==> private && objects == old(objects) && OnlyGrew(heap0, heap) && Passed(heap0, root0, heap, level, node, t, i, grew)
      ensures !still && private ==> !Private(heap0, root0, t, i + 1)
      ensures !still ==>
                && (exists a :: a in heap && a != node && heap[a].value == heap[node].value)
                && (heap[node].Inner? ==> heap[heap[node].left].refcnt > 1 && heap[heap[node].right].refcnt > 1)
    {
      hide Inv, ValuesCounted, ValueAt, Private, OnTheWay, Untouched, Passed, NodeAt, Range, Perfect, Width, OnlyGrew, SameObjects,
        EntriesOwned, SameRegisters, SlotAt, NodeShaped, Sound;
      RangeStep(t, i);
      ObjectsAreAlike(objects);
      if private && heap[root].refcnt > 1 {
        SharedIsNotPrivate(heap0, root0, heap, level, root, t, i, grown);
      }
      grew := GiveChildren(f, t, i, root, l, r, private, heap0, root0, grown);
      node, still := root, private;
      if heap[root].refcnt > 1 {
        ghost var heap1, frames1 := heap, frames;
        node := CopyNode(f, t, i, parent, root);
        SameRegistersTransitive(old(heap), old(frames), heap1, frames1, heap, frames);
        still := false;
      }
      SoundTrees(Now(), level, multiset{}, external);
      ChildrenAreLower(heap, level, frames, node);
    }

    /** Give the node that the write has arrived at children if it should have some and has none. */
    method GiveChildren(ghost f: nat, ghost t: nat, ghost i: nat, root: nat, l: nat, r: nat,
                        ghost private: bool, ghost heap0: Heap, ghost root0: nat, ghost grown: set<nat>)
      returns (ghost grew: set<nat>)
      requires Valid() && Arrived(heap, frames, f, t, i, root) && (l, r) == Range(t, i)
      requires private ==> Untouched(heap0, root0, heap, level, root, t, i, grown) && OnlyGrew(heap0, heap)
      modifies this`heap, this`level
      ensures Valid() && Arrived(heap, frames, f, t, i, root) && SameRegisters(old(heap), frames, heap, frames)
      ensures heap[root].refcnt == old(heap[root].refcnt) > 0
      ensures heap[root].Inner? ==> heap[root].left in heap && heap[root].right in heap && heap[root].left != NULL
      ensures SlotAt(heap, frames[f], t, i) == old(SlotAt(heap, frames[f], t, i))
      ensures private ==> OnlyGrew(heap0, heap)
      ensures private && heap[root].refcnt == 1 ==> Passed(heap0, root0, heap, level, root, t, i, grew)
    {
      hide Inv, ValuesCounted, ValueAt, Private, OnTheWay, Untouched, Passed, NodeAt, Range, Perfect, Width, OnlyGrew,
        EntriesOwned, SameRegisters, SlotAt, Sound;
      SoundTrees(Now(), level, multiset{}, external);
      RangeStep(t, i);
      ArrivedLevel(heap, level, frames, f, t, i, root);
      ghost var before, start := level, heap;
      grew := grown;
      SameRegistersItself(heap, frames);
      if Middle(l, r) % 2 == 1 && heap[root].left == NULL {
        GrowChildren(f, t, i, root, r - l == 3);
        if private {
          GrownOnly(heap0, start, heap, root);
          PassedAfterGrow(heap0, root0, start, before, heap, level, root, t, i, grown);
        }
        grew := grown + {root};
      } else if private && heap[root].refcnt == 1 {
        PassedAsIs(heap0, root0, heap, level, frames, root, t, i, grown);
      }
      SoundTrees(Now(), level, multiset{}, external);
      ChildrenAreLower(heap, level, frames, root);
    }

    /**
     Walk down to the node of register `t`, making children where they are missing and private
     copies of the nodes that are shared. No register of any frame changes. `private` tells that
     nothing had to be copied.
     */
    method CowPath(f: nat, t: nat) returns (x: nat, ghost private: bool)
      requires Valid() && f in frames && t < REGISTERS
      modifies this`heap, this`frames, this`objects, this`level
      ensures Valid() && f in frames && SameRegisters(old(heap), old(frames), heap, frames)
      ensures x in heap && x == NodeAt(heap, frames[f], t, Depth(t)) && Private(heap, frames[f], t, Depth(t) + 1)
      ensures frames == old(frames)[f := frames[f]] && SameObjects(old(objects), objects)
      ensures private ==> objects == old(objects) && OnlyGrew(old(heap), heap)
      ensures private ==>
                old(NodeAt(heap, frames[f], t, Depth(t))) == NULL
                || (old(Private(heap, frames[f], t, Depth(t) + 1)) && x == old(NodeAt(heap, frames[f], t, Depth(t))))
      ensures !private ==> !old(Private(heap, frames[f], t, Depth(t) + 1))
      ensures !private ==> exists a :: a in heap && a != x && heap[a].value == heap[x].value
    {
      hide Inv, ValuesCounted, ValueAt, Private, OnTheWay, Untouched, Passed, NodeAt, Range, Perfect, Width, Agree, SameRegisters,
        OnlyGrew, SameObjects, EntriesOwned, Sound, Alike, SlotAt;
      SoundTrees(Now(), level, multiset{}, external);
      ghost var s, heap0, frames0, level0 := Now(), heap, frames, level;
      EnsureRoot(f, t);
      StartsAlike(s, Now(), f);
      StartSlot(heap, frames[f], t);
      var root, l, r, parent := frames[f], 0, REGISTERS, Root;
      ghost var i, grown: set<nat> := 0, {};
      private := true;
      StartingRange(t);
      while true
        invariant Valid() && Arrived(heap, frames, f, t, i, root)
        invariant Alike(s, Now(), f, private)
        invariant (l, r) == Range(t, i) && parent == SlotAt(heap, frames[f], t, i)
        invariant private ==> Untouched(heap0, frames0[f], heap, level, root, t, i, grown)
        invariant !private ==> heap[root].refcnt > 1 && !Private(heap0, frames0[f], t, Depth(t) + 1)
        decreases HEIGHT - i
      {
        RangeStep(t, i);
        ghost var before, was := Now(), private;
        HasGrown(s, before, f, private);
        x, private, grown := PrepareNode(f, t, i, parent, root, l, r, private, heap0, frames0[f], grown);
        StillAlike(s, before, Now(), f, was, private);
        if was && !private {
          PrivateIsLonger(heap0, frames0[f], t, i);
        }
        var mid := Middle(l, r);
        if mid == t {
          break;
        }
        SoundTrees(Now(), level, multiset{}, external);
        GoDown(heap, level, frames, f, t, i, x);
        if private {
          UntouchedBelow(heap0, level0, frames0, f, heap, level, x, t, i, grown);
        }
        if t < mid {
          r, parent, root := mid, LeftOf(x), heap[x].left;
        } else {
          l, parent, root := mid + 1, RightOf(x), heap[x].right;
        }
        i := i + 1;
      }
      DepthIsUnique(t, i);
      EndOfPath(heap0, frames0[f], heap, level, frames, f, t, i, x, private, grown);
      EndsAlike(s, Now(), f, private);
    }

    /**
     Write a register. Exactly one register of one frame changes, and exactly the objects go that
     die when the old value is given up. The write touches freed memory if and only if the new
     value is among them.
     */
    method Set(f: Option<nat>, t: nat, v: Value) returns (outcome: Outcome)
      requires Valid() && (f.Some? ==> f.value in frames && f.value !in Envs(objects))
      requires t <= REGISTERS && (v.Ref? ==> v.id in objects)
      modifies this`heap, this`frames, this`objects, this`entries, this`external, this`loose, this`release, this`level
      ensures outcome.InvalidArguments? <==> f.None? || t == REGISTERS || v.Bad?
      ensures outcome.InvalidArguments? ==> Now() == old(Now()) && Valid() && external == old(external)
      ensures outcome.UseAfterFree? <==>
              !outcome.InvalidArguments? && v.Ref? && ObjectCell(v.id) in FreedByWrite(old(Now()), f.value, t)
      ensures outcome.Stored? ==>
                Valid() && external == old(external) && WrittenOnce(old(Now()), Now(), f.value, t, v)
      ensures outcome.Stored? ==>
                && f.value in frames && frames.Keys <= old(frames.Keys)
                && forall g, u: nat :: g in frames && u < REGISTERS ==>
                     Register(heap, frames[g], u) ==
                     if g == f.value && u == t then v else Register(old(heap), old(frames)[g], u)
      ensures outcome.Stored? ==>
                var freed := FreedByWrite(old(Now()), f.value, t);
                && (forall o :: o in objects <==> o in old(objects) && ObjectCell(o) !in freed)
                && (forall e :: e in entries <==> e in old(entries) && ObjectCell(e.0) !in freed)
                && (forall e :: e in entries ==> entries[e] == old(entries)[e])
    {
      hide Inv, ValuesCounted, EnvsOwned, EntriesOwned, ValueAt, Private, OnTheWay, NodeAt, Agree, SameRegisters, Register,
        Released, FreedByWrite, OnlyGrew, SameObjects, RegisterWritten, WrittenOnce, Dead, Cleared, Envs;
      if f.None? || t == REGISTERS || v.Bad? {
        return InvalidArguments;
      }
      var x, private := CowPath(f.value, t);
      ghost var s := Now();
      EnvsAlike(old(objects), objects);
      FreedAlike(old(Now()), s, external, f.value, t, x, private);
      WriteReaches(old(heap), old(frames), heap, level, frames, f.value, t, x, v);
      var ok := Overwrite(f.value, t, x, v);
      if !ok {
        return UseAfterFree;
      }
      OneWritten(old(Now()), s, Now(), level, f.value, t, x, v);
      WrittenMeans(old(Now()), Now(), f.value, t, v);
      outcome := Outcome.Stored;
    }

    /** Copy register `from` to register `to`. */
    method Move(f: Option<nat>, from: nat, to: nat) returns (outcome: Outcome)
      requires Valid() && (f.Some? ==> f.value in frames && f.value !in Envs(objects))
      requires from <= REGISTERS && to <= REGISTERS
      modifies this`heap, this`frames, this`objects, this`entries, this`external, this`loose, this`release, this`level
      ensures outcome.InvalidArguments? ==> Now() == old(Now()) && Valid() && external == old(external)
      ensures outcome.Stored? ==>
                f.Some? && from < REGISTERS && to < REGISTERS && Valid() && external == old(external)
                && WrittenOnce(old(Now()), Now(), f.value, to, old(Register(heap, frames[f.value], from)))
      ensures outcome.UseAfterFree? <==>
              f.Some? && from < REGISTERS && to < REGISTERS
              && old(Register(heap, frames[f.value], from)).Ref?
              && ObjectCell(old(Register(heap, frames[f.value], from)).id) in FreedByWrite(old(Now()), f.value, to)
    {
      hide Inv, ValuesCounted, Register, FreedByWrite, WrittenOnce;
      var value := Get(f, from);
      if f.Some? && from < REGISTERS {
        RegisterIsLive(heap, level, frames, objects, entries, external, f.value, from);
      }
      outcome := Set(f, to, value);
    }

    /**
     Set a key of dictionary `d`. Exactly the objects go that die when the old value is given up, and
     no register changes. The write touches freed memory if and only if the new value or the
     dictionary itself is among them.
     */
    method DictSet(d: nat, key: Key, v: Value) returns (outcome: Outcome)
      requires Valid() && d in objects && objects[d].Dictionary? && (v.Ref? ==> v.id in objects)
      modifies this`heap, this`frames, this`objects, this`entries, this`external, this`loose, this`release
      ensures outcome.InvalidArguments? <==> v.Bad?
      ensures outcome.InvalidArguments? ==> Now() == old(Now()) && Valid() && external == old(external)
      ensures outcome.UseAfterFree? <==>
              !v.Bad? && var freed := FreedByEntry(old(Now()), (d, key));
                         ObjectCell(d) in freed || (v.Ref? && ObjectCell(v.id) in freed)
      ensures outcome.Stored? ==>
                Valid() && external == old(external) && EntryValue(entries, (d, key)) == v
                && Released(Without(old(Now()), (d, key)), Dropping(EntryValue(old(entries), (d, key))), Without(Now(), (d, key)))
      ensures outcome.Stored? ==> forall g :: g in frames ==> g in old(frames) && Agree(old(heap), old(frames[g]), heap, frames[g])
    {
      hide Inv, ValuesCounted, EnvsOwned, EntriesOwned, Released, Agree, Held, Dead, EntryValue;
      if v.Bad? {
        return InvalidArguments;
      }
      var e := (d, key);
      var was := EntryValue(entries, e);
      EntryCleared(Now(), external, e);
      entries := entries[e := Undef];
      external := external + Held(was);
      ghost var s := Now();
      GiveUp(was, old(external));
      SurvivorsAgree(s, Dropping(was), Now(), level);
      ReleasedObjects(s, Dropping(was), Now(), v);
      ReleasedObjects(s, Dropping(was), Now(), Ref(d));
      if d !in objects {
        return UseAfterFree;
      }
      ReleasedEntry(s, Dropping(was), Now(), e);
      EntryStored(Now(), external, e, v);
      entries := entries[e := v];
      if v.Ref? && v.id !in objects {
        return UseAfterFree;
      }
      ReleasedRetained(s, Dropping(was), Without(Now(), e), v);
      ValueIncref(v);
      outcome := Outcome.Stored;
    }
  }

  // ----- What a write frees -----

  /** The node no longer holds its value. */
  function Cleared(s: Snapshot, x: nat): Snapshot
    requires x in s.heap
  {
    s.(heap := SetValue(s.heap, x, Undef))
  }

  /** The entry no longer holds a value. */
  function Without(s: Snapshot, e: Entry): Snapshot {
    s.(entries := s.entries[e := Undef])
  }

  /** What dies when register `t` of frame `f` is overwritten: nothing, if the value is shared with another frame. */
  ghost function FreedByWrite(s: Snapshot, f: nat, t: nat): set<Cell>
    requires f in s.frames && t < REGISTERS
  {
    var x := NodeAt(s.heap, s.frames[f], t, Depth(t));
    if Private(s.heap, s.frames[f], t, Depth(t) + 1) then Dead(Cleared(s, x), Dropping(s.heap[x].value)) else {}
  }

  /** What dies when an entry of a dictionary is overwritten. */
  ghost function FreedByEntry(s: Snapshot, e: Entry): set<Cell> {
    Dead(Without(s, e), Dropping(EntryValue(s.entries, e)))
  }

  /** Register `t` of frame `f` is now `v`, the objects that die of it are gone, everything else is as before. */
  ghost predicate WrittenOnce(s: Snapshot, now: Snapshot, f: nat, t: nat, v: Value)
    requires f in s.frames && t < REGISTERS
  {
    && RegisterWritten(s.heap, s.frames, now.heap, now.frames, f, t, v)
    && ObjectsLeft(s, FreedByWrite(s, f, t), now)
  }

  /** The objects of `freed` are gone, with their entries and frames. */
  ghost predicate ObjectsLeft(s: Snapshot, freed: set<Cell>, now: Snapshot) {
    && (forall o :: o in now.objects <==> o in s.objects && ObjectCell(o) !in freed)
    && (forall o :: o in now.objects ==> SameObject(now.objects[o], s.objects[o]))
    && (forall f :: f in now.frames <==> f in s.frames && f !in EnvsOf(s, freed))
    && now.entries == Rest(s, freed).entries
  }

  // ----- Writes that touch freed memory -----

  /** The entry holds the only reference to object `o`. */
  predicate HeldAlone(s: Snapshot, e: Entry, o: nat) {
    e in s.entries && s.entries[e] == Ref(o) && o in s.objects && s.objects[o].refcnt == 1
  }

  /** A write frees what the register alone holds, and what a dictionary alone holds that the register alone holds. */
  lemma FreedWithRegister(s: Snapshot, f: nat, t: nat)
    requires f in s.frames && t < REGISTERS && Private(s.heap, s.frames[f], t, Depth(t) + 1)
    requires NodeAt(s.heap, s.frames[f], t, Depth(t)) in s.heap
    ensures var v := s.heap[NodeAt(s.heap, s.frames[f], t, Depth(t))].value;
            v.Ref? && v.id in s.objects && s.objects[v.id].refcnt == 1 ==>
              && ObjectCell(v.id) in FreedByWrite(s, f, t)
              && forall key, o :: HeldAlone(s, (v.id, key), o) ==> ObjectCell(o) in FreedByWrite(s, f, t)
  {
    hide Dead, NodeAt, Private;
    var x := NodeAt(s.heap, s.frames[f], t, Depth(t));
    var v := s.heap[x].value;
    if v.Ref? && v.id in s.objects && s.objects[v.id].refcnt == 1 {
      LastReferenceDies(Cleared(s, x), v);
      forall key, o | HeldAlone(s, (v.id, key), o)
        ensures ObjectCell(o) in FreedByWrite(s, f, t)
      {
        LastEntryDies(Cleared(s, x), Dropping(v), (v.id, key), o);
      }
    }
  }

  /** One frame whose root is the only node, and holds `v`. */
  lemma OneNode(v: Value) returns (heap: Heap, level: map<nat, nat>, frames: map<nat, nat>, t: nat)
    ensures heap == map[1 := Inner(1, v, NULL, NULL)] && frames == map[0 := 1]
    ensures Inv(heap, level, frames, multiset{}) && t < REGISTERS
    ensures NodeAt(heap, frames[0], t, Depth(t)) == 1 && Private(heap, frames[0], t, Depth(t) + 1) && Register(heap, frames[0], t) == v
  {
    t := Mid(0, 0);
    heap, level, frames := map[1 := Inner(1, v, NULL, NULL)], map[1 := HEIGHT], map[0 := 1];
    assert FrameRefs(frames, 1) == {0} && LeftRefs(heap, 1) == {} && RightRefs(heap, 1) == {};
    assert NodeShaped(heap, level, 1);
    assert Mid(t, 0) == t;
    DepthIsUnique(t, 0);
  }

  lemma CountOne(v: Value, e: Entry, o: nat)
    ensures |Holders(map[], o)| == 0 && |EntriesHolding(map[], o)| == 0
    ensures |Holders(map[1 := Inner(1, v, NULL, NULL)], o)| == if v == Ref(o) then 1 else 0
    ensures |EntriesHolding(map[e := v], o)| == if v == Ref(o) then 1 else 0
  {
    assert Holders(map[1 := Inner(1, v, NULL, NULL)], o) == if v == Ref(o) then {1} else {};
    assert EntriesHolding(map[e := v], o) == if v == Ref(o) then {e} else {};
  }

  lemma CountTwo(v: Value, e: Entry, w: Value, d: Entry, o: nat)
    requires d != e
    ensures |EntriesHolding(map[e := v, d := w], o)| == (if v == Ref(o) then 1 else 0) + if w == Ref(o) then 1 else 0
  {
    CountOne(v, e, o);
    EntryCount(map[e := v], d, w, o);
    assert map[e := v, d := w] == map[e := v][d := w];
  }

  /** A register holds the only reference to an object: to write the object there again touches freed memory. */
  lemma SelfOverwriteHappens() returns (s: Snapshot, level: map<nat, nat>, t: nat)
    ensures Sound(s, level, multiset{}, multiset{}) && EntriesOwned(s.objects, s.entries)
    ensures 0 in s.frames && 0 !in Envs(s.objects) && t < REGISTERS && Register(s.heap, s.frames[0], t) == Ref(7)
    ensures 7 in s.objects && ObjectCell(7) in FreedByWrite(s, 0, t)
  {
    hide Inv, NodeAt, Private, Register, Dead, Holders, EntriesHolding;
    var heap, frames;
    heap, level, frames, t := OneNode(Ref(7));
    s := Snapshot(heap, frames, map[7 := Plain(1)], map[]);
    CountOne(Ref(7), (7, ""), 7);
    FreedWithRegister(s, 0, t);
  }

  /**
   A register holds the only reference to a dictionary, and that the only reference to an object: to
   write the object into the register touches freed memory, although the register holds something else.
   */
  lemma GetIntoItselfHappens() returns (s: Snapshot, level: map<nat, nat>, t: nat)
    ensures Sound(s, level, multiset{}, multiset{}) && EntriesOwned(s.objects, s.entries)
    ensures 0 in s.frames && 0 !in Envs(s.objects) && t < REGISTERS && Register(s.heap, s.frames[0], t) == Ref(7)
    ensures 8 in s.objects && EntryValue(s.entries, (7, "k")) == Ref(8) && ObjectCell(8) in FreedByWrite(s, 0, t)
  {
    hide Inv, NodeAt, Private, Register, Dead, Holders, EntriesHolding;
    var heap, frames;
    heap, level, frames, t := OneNode(Ref(7));
    s := Snapshot(heap, frames, map[7 := Dictionary(1), 8 := Plain(1)], map[(7, "k") := Ref(8)]);
    CountOne(Ref(7), (7, "k"), 7);
    CountOne(Ref(7), (7, "k"), 8);
    CountOne(Ref(8), (7, "k"), 7);
    CountOne(Ref(8), (7, "k"), 8);
    FreedWithRegister(s, 0, t);
    assert HeldAlone(s, (7, "k"), 8);
  }

  /** A dictionary alone holds an object: to write the object under the same key again touches freed memory. */
  lemma EntryOverwriteHappens() returns (s: Snapshot)
    ensures Sound(s, map[], multiset{}, multiset{1}) && EntriesOwned(s.objects, s.entries)
    ensures 2 in s.objects && EntryValue(s.entries, (1, "k")) == Ref(2) && ObjectCell(2) in FreedByEntry(s, (1, "k"))
  {
    hide Dead, Holders, EntriesHolding;
    var e := (1, "k");
    s := Snapshot(map[], map[], map[1 := Dictionary(1), 2 := Plain(1)], map[e := Ref(2)]);
    CountOne(Ref(2), e, 1);
    CountOne(Ref(2), e, 2);
    LastReferenceDies(Without(s, e), Ref(2));
  }

  /** Two dictionaries alone hold each other: overwriting an entry of one frees both, also the one that is written. */
  lemma DictionaryFreesItself() returns (s: Snapshot)
    ensures Sound(s, map[], multiset{}, multiset{}) && EntriesOwned(s.objects, s.entries)
    ensures 1 in s.objects && s.objects[1].Dictionary? && ObjectCell(1) in FreedByEntry(s, (1, "k"))
  {
    hide Dead, Holders, EntriesHolding;
    var e, d := (1, "k"), (2, "k");
    s := Snapshot(map[], map[], map[1 := Dictionary(1), 2 := Dictionary(1)], map[e := Ref(2), d := Ref(1)]);
    CountOne(Ref(2), e, 1);
    CountOne(Ref(2), e, 2);
    CountTwo(Ref(2), e, Ref(1), d, 1);
    CountTwo(Ref(2), e, Ref(1), d, 2);
    LastReferenceDies(Without(s, e), Ref(2));
    LastEntryDies(Without(s, e), Dropping(Ref(2)), d, 1);
  }

  /** Of the frames that are left, register `t` of frame `f` is now `v`, and all others are as before. */
  ghost predicate RegisterWritten(heap: Heap, frames: map<nat, nat>, heap': Heap, frames': map<nat, nat>, f: nat, t: nat, v: Value) {
    && f in frames && f in frames' && frames'.Keys <= frames.Keys
    && forall g, u: nat :: g in frames' && u < REGISTERS ==>
         Register(heap', frames'[g], u) == if g == f && u == t then v else Register(heap, frames[g], u)
  }

  // ----- Lemmas about releases -----

  function NotOf(orphans: set<Entry>, o: nat): set<Entry> {
    set e | e in orphans && e.0 != o
  }

  lemma NothingHolds(heap: Heap, objects: Objects, entries: Entries, external: multiset<nat>, o: nat)
    requires ValuesCounted(heap, objects, entries, external) && o !in objects
    ensures Holders(heap, o) == {} && EntriesHolding(entries, o) == {} && o !in external
  {
  }

  /** A new object that nobody refers to and that holds nothing but a frame of its own. */
  lemma ObjectAdded(s: Snapshot, external: multiset<nat>, o: nat, x: Object)
    requires ValuesCounted(s.heap, s.objects, s.entries, external) && EnvsOwned(s.objects, s.frames) && EntriesOwned(s.objects, s.entries)
    requires o !in s.objects && x.refcnt == 0 && (x.Closure? ==> x.env in s.frames && x.env !in Envs(s.objects))
    ensures ValuesCounted(s.heap, s.objects[o := x], s.entries, external)
    ensures EnvsOwned(s.objects[o := x], s.frames) && EntriesOwned(s.objects[o := x], s.entries)
  {
    hide Holders, EntriesHolding;
    NothingHolds(s.heap, s.objects, s.entries, external, o);
  }

  lemma EnvsAreFrames(objects: Objects, frames: map<nat, nat>)
    requires EnvsOwned(objects, frames)
    ensures forall f :: f in Envs(objects) ==> f in frames
  {
  }

  lemma HeldNothing(v: Value, rest: multiset<nat>)
    requires !v.Ref?
    ensures rest + Held(v) == rest
  {
  }

  lemma HeldOne(v: Value)
    requires v.Ref?
    ensures Held(v) == multiset{v.id}
  {
  }

  lemma LoweredAlike(objects: Objects, entries: Entries, frames: map<nat, nat>, v: Value)
    requires v.Ref? && v.id in objects && objects[v.id].refcnt > 0 && EnvsOwned(objects, frames)
    ensures EnvsOwned(Lowered(objects, v), frames)
    ensures Orphans(Lowered(objects, v), entries) == Orphans(objects, entries)
  {
  }

  /** The entries of a freed object. Only a dictionary has some. */
  lemma NewOrphans(r: Release, now: Snapshot, o: nat)
    requires Progressing(r, now) && o in now.objects
    ensures NotOf(Orphans(now.objects - {o}, now.entries), o) == Orphans(now.objects, now.entries)
    ensures !now.objects[o].Dictionary? ==> Orphans(now.objects - {o}, now.entries) == Orphans(now.objects, now.entries)
  {
    hide Progressing;
    forall e | e in now.entries && e.0 == o
      ensures now.objects[o].Dictionary?
    {
      LiveEntries(r, now, e);
    }
  }

  lemma EnvGone(objects: Objects, frames: map<nat, nat>, o: nat)
    requires EnvsOwned(objects, frames) && o in objects
    ensures EnvsOwned(objects - {o}, if objects[o].Closure? then frames - {objects[o].env} else frames)
    ensures objects[o].Closure? ==> objects[o].env in frames
  {
  }

  /** The root of the frame that a closure owns. */
  function EnvRoot(s: Snapshot, o: nat): nat
    requires o in s.objects
  {
    if s.objects[o].Closure? && s.objects[o].env in s.frames then s.frames[s.objects[o].env] else NULL
  }

  lemma EnvRootIs(s: Snapshot, o: nat)
    requires o in s.objects && (s.objects[o].Closure? ==> s.objects[o].env in s.frames)
    ensures EnvRoot(s, o) == if s.objects[o].Closure? then s.frames[s.objects[o].env] else NULL
  {
  }

  /** What taking object `o` out leaves. */
  lemma TakenOut(r: Release, now: Snapshot, level: map<nat, nat>, loose: multiset<nat>, rest: multiset<nat>, o: nat)
    requires Sound(now, level, loose, rest + multiset{o}) && r.base <= rest
    requires Progressing(r, now) && o in now.objects && now.objects[o].refcnt == 1
    ensures now.objects[o].Closure? ==> now.objects[o].env in now.frames
    ensures var frames := if now.objects[o].Closure? then now.frames - {now.objects[o].env} else now.frames;
            var after := Snapshot(now.heap, frames, now.objects - {o}, now.entries);
            && Sound(after, level, if EnvRoot(now, o) == NULL then loose else loose + multiset{EnvRoot(now, o)}, rest)
            && Progressing(Freeing(r, ObjectCell(o)), after)
    ensures EnvRoot(now, o) != NULL ==> EnvRoot(now, o) in level && level[EnvRoot(now, o)] == HEIGHT
    ensures Continues(r, Freeing(r, ObjectCell(o))) && Left(Freeing(r, ObjectCell(o))) < Left(r)
    ensures NotOf(Orphans(now.objects - {o}, now.entries), o) == Orphans(now.objects, now.entries)
    ensures !now.objects[o].Dictionary? ==> Orphans(now.objects - {o}, now.entries) == Orphans(now.objects, now.entries)
  {
    hide Inv, ValuesCounted, EnvsOwned, Progressing, Left, Orphans, Continues, Holders, EntriesHolding;
    RemoveObject(now.heap, o, now.objects, now.entries, rest);
    ObjectFreed(r, now, rest, o);
    NewOrphans(r, now, o);
    EnvGone(now.objects, now.frames, o);
    if now.objects[o].Closure? {
      CloseFrame(now.heap, level, now.frames, loose, now.objects[o].env);
    }
  }

  lemma OrphanFreed(objects: Objects, entries: Entries, e: Entry)
    ensures NotOf(Orphans(objects, entries - {e}), e.0) == NotOf(Orphans(objects, entries), e.0)
  {
  }

  lemma NoneOf(objects: Objects, entries: Entries, o: nat)
    requires forall e :: e in entries ==> e.0 != o
    ensures NotOf(Orphans(objects, entries), o) == Orphans(objects, entries)
  {
  }

  lemma FewerEntries(before: Entries, e: Entry, after: Entries)
    requires e in before && after.Keys <= before.Keys - {e}
    ensures |after| < |before|
  {
    SubsetSize(after.Keys, before.Keys - {e});
  }

  lemma LeftLater(r: Release, later: Release)
    requires Continues(r, later)
    ensures Left(later) <= Left(r)
  {
    hide Cells;
  }

  /** Every entry has its dictionary iff there are no orphans. */
  lemma OwnedOrphans(r: Release, now: Snapshot)
    requires Progressing(r, now)
    ensures EntriesOwned(now.objects, now.entries) <==> Orphans(now.objects, now.entries) == {}
  {
    hide Progressing;
    if Orphans(now.objects, now.entries) == {} {
      forall e | e in now.entries
        ensures e.0 in now.objects && now.objects[e.0].Dictionary?
      {
        assert e !in Orphans(now.objects, now.entries);
        LiveEntries(r, now, e);
      }
    }
  }

  lemma ReleasedRemains(s: Snapshot, dropped: multiset<Cell>, now: Snapshot)
    requires Released(s, dropped, now)
    ensures Remains(s.heap, now.heap)
    ensures forall g :: g in now.frames ==> g in s.frames && now.frames[g] == s.frames[g]
    ensures forall g :: g in s.frames && g !in Envs(s.objects) ==> g in now.frames
  {
    assert EnvsOf(s, Dead(s, dropped)) <= Envs(s.objects);
  }

  /** The frames that are left keep all their registers. */
  lemma SurvivorsAgree(s: Snapshot, dropped: multiset<Cell>, now: Snapshot, level: map<nat, nat>)
    requires Released(s, dropped, now) && Inv(now.heap, level, now.frames, multiset{}) && NULL !in s.heap
    ensures forall g :: g in now.frames ==> g in s.frames && Agree(s.heap, s.frames[g], now.heap, now.frames[g])
  {
    hide Released, Inv, Agree;
    ReleasedRemains(s, dropped, now);
    RemainingTreesAgree(s.heap, now.heap, level, now.frames);
  }

  // ----- Lemmas about writes -----

  ghost predicate SameObjects(objects: Objects, after: Objects) {
    objects.Keys == after.Keys && forall o :: o in objects ==> SameObject(objects[o], after[o])
  }

  lemma ObjectsAreAlike(objects: Objects)
    ensures SameObjects(objects, objects)
  {
  }

  lemma SameObjectsTransitive(a: Objects, b: Objects, c: Objects)
    requires SameObjects(a, b) && SameObjects(b, c)
    ensures SameObjects(a, c)
  {
  }

  lemma EnvsAlike(objects: Objects, after: Objects)
    requires SameObjects(objects, after)
    ensures Envs(after) == Envs(objects) && after.Keys == objects.Keys
  {
    forall o | o in objects
      ensures after[o].Closure? <==> objects[o].Closure?
    {
      assert SameObject(objects[o], after[o]);
    }
    assert Envs(after) <= Envs(objects) && Envs(objects) <= Envs(after);
  }

  lemma RetainedAlike(objects: Objects, entries: Entries, frames: map<nat, nat>, v: Value)
    requires EnvsOwned(objects, frames) && EntriesOwned(objects, entries) && (v.Ref? ==> v.id in objects)
    ensures SameObjects(objects, Retained(objects, v))
    ensures EntriesOwned(Retained(objects, v), entries)
    ensures forall after: map<nat, nat> :: after.Keys == frames.Keys ==> EnvsOwned(Retained(objects, v), after)
  {
  }

  /** On the way to a register nothing changes but the shape of the tree, and without copies only new nodes come. */
  ghost predicate Alike(s: Snapshot, now: Snapshot, f: nat, private: bool) {
    && f in s.frames && f in now.frames && now.frames == s.frames[f := now.frames[f]]
    && SameRegisters(s.heap, s.frames, now.heap, now.frames)
    && SameObjects(s.objects, now.objects)
    && (private ==> now.objects == s.objects && OnlyGrew(s.heap, now.heap))
  }

  lemma StartsAlike(s: Snapshot, now: Snapshot, f: nat)
    requires f in s.frames && f in now.frames && now.frames == s.frames[f := now.frames[f]] && now.objects == s.objects
    requires SameRegisters(s.heap, s.frames, now.heap, now.frames) && OnlyGrew(s.heap, now.heap)
    ensures Alike(s, now, f, true)
  {
    hide SameRegisters, OnlyGrew;
  }

  lemma StartSlot(heap: Heap, root: nat, t: nat)
    ensures SlotAt(heap, root, t, 0) == Root
  {
  }

  lemma HasGrown(s: Snapshot, now: Snapshot, f: nat, private: bool)
    requires Alike(s, now, f, private)
    ensures private ==> OnlyGrew(s.heap, now.heap)
  {
    hide SameRegisters, OnlyGrew, SameObjects;
  }

  lemma StillAlike(s: Snapshot, mid: Snapshot, now: Snapshot, f: nat, was: bool, private: bool)
    requires Alike(s, mid, f, was) && (private ==> was && now.objects == mid.objects && OnlyGrew(s.heap, now.heap))
    requires f in now.frames && now.frames == mid.frames[f := now.frames[f]]
    requires SameRegisters(mid.heap, mid.frames, now.heap, now.frames) && SameObjects(mid.objects, now.objects)
    ensures Alike(s, now, f, private)
  {
    hide SameRegisters, OnlyGrew, SameObjects;
    SameRegistersTransitive(s.heap, s.frames, mid.heap, mid.frames, now.heap, now.frames);
    SameObjectsTransitive(s.objects, mid.objects, now.objects);
  }

  lemma EndsAlike(s: Snapshot, now: Snapshot, f: nat, private: bool)
    requires Alike(s, now, f, private)
    ensures f in s.frames && f in now.frames && now.frames == s.frames[f := now.frames[f]]
    ensures SameRegisters(s.heap, s.frames, now.heap, now.frames) && SameObjects(s.objects, now.objects)
    ensures private ==> now.objects == s.objects && OnlyGrew(s.heap, now.heap)
  {
    hide SameRegisters, OnlyGrew, SameObjects;
  }

  lemma GrownOnly(heap0: Heap, before: Heap, after: Heap, a: nat)
    requires OnlyGrew(heap0, before) && Grown(before, after, a) && before[a].left == before[a].right == NULL && NULL !in before
    ensures OnlyGrew(heap0, after)
  {
  }

  /** The path to a register of a frame that no closure owns survives. */
  lemma {:induction false} PathRemains(s: Snapshot, dropped: multiset<Cell>, now: Snapshot, level: map<nat, nat>,
                                       external: multiset<nat>, f: nat, t: nat, i: nat)
    requires Released(s, dropped, now) && Sound(now, level, multiset{}, external) && NULL !in s.heap
    requires f in now.frames && f in s.frames && now.frames[f] == s.frames[f]
    requires NodeAt(s.heap, s.frames[f], t, i) in s.heap
    ensures NodeAt(now.heap, now.frames[f], t, i) == NodeAt(s.heap, s.frames[f], t, i)
    ensures NodeAt(s.heap, s.frames[f], t, i) in now.heap
  {
    hide Counted, Dead, Mid, EnvsOf, SameObject, ValuesCounted, EnvsOwned;
    if i > 0 {
      PathRemains(s, dropped, now, level, external, f, t, i - 1);
      assert NodeShaped(now.heap, level, NodeAt(now.heap, now.frames[f], t, i - 1));
    }
  }

  lemma ReleasedObjects(s: Snapshot, dropped: multiset<Cell>, now: Snapshot, v: Value)
    requires Released(s, dropped, now) && (v.Ref? ==> v.id in s.objects)
    ensures v.Ref? ==> (v.id in now.objects <==> ObjectCell(v.id) !in Dead(s, dropped))
  {
    hide Dead;
  }

  lemma ReleasedEntry(s: Snapshot, dropped: multiset<Cell>, now: Snapshot, e: Entry)
    requires Released(s, dropped, now) && e in s.entries && e.0 in now.objects
    ensures e in now.entries && now.entries[e] == s.entries[e]
    ensures SameObject(now.objects[e.0], s.objects[e.0])
  {
    hide Dead;
  }

  /** The value of a node moves into a local variable. */
  lemma ValueTaken(s: Snapshot, level: map<nat, nat>, external: multiset<nat>, x: nat)
    requires Sound(s, level, multiset{}, external) && x in s.heap
    ensures Sound(Cleared(s, x), level, multiset{}, external + Held(s.heap[x].value))
  {
    hide Inv, EnvsOwned, Held, ValuesCounted;
    HeldNothing(Undef, external);
    ValueSwapped(s.heap, x, Undef, s.objects, s.entries, external);
    SetValueKeepsInv(s.heap, level, s.frames, multiset{}, x, Undef);
  }

  /** What storing `v` in a node that holds nothing needs. */
  lemma ValueStored(s: Snapshot, level: map<nat, nat>, external: multiset<nat>, x: nat, v: Value)
    requires Sound(s, level, multiset{}, external) && EntriesOwned(s.objects, s.entries)
    requires x in s.heap && s.heap[x].value == Undef
    ensures SetValue(SetValue(s.heap, x, v), x, Undef) == s.heap
    ensures (v.Ref? ==> v.id in s.objects) ==>
              var after := s.(heap := SetValue(s.heap, x, v), objects := Retained(s.objects, v));
              Sound(after, level, multiset{}, external) && EntriesOwned(after.objects, after.entries)
  {
    hide Inv, EnvsOwned, EntriesOwned, Held, ValuesCounted;
    SetValueKeepsInv(s.heap, level, s.frames, multiset{}, x, v);
    if v.Ref? ==> v.id in s.objects {
      RetainHeld(s.heap, v, s.objects, s.entries, external);
      ValueSwapped(s.heap, x, v, Retained(s.objects, v), s.entries, external);
      HeldNothing(Undef, external);
      RetainedAlike(s.objects, s.entries, s.frames, v);
    }
  }

  lemma EntryCleared(s: Snapshot, external: multiset<nat>, e: Entry)
    requires ValuesCounted(s.heap, s.objects, s.entries, external) && EntriesOwned(s.objects, s.entries)
    requires e.0 in s.objects && s.objects[e.0].Dictionary?
    ensures ValuesCounted(s.heap, s.objects, s.entries[e := Undef], external + Held(EntryValue(s.entries, e)))
    ensures EntriesOwned(s.objects, s.entries[e := Undef])
  {
    hide ValuesCounted, Held;
    HeldNothing(Undef, external);
    EntrySwapped(s.heap, e, Undef, s.objects, s.entries, external);
  }

  /** What storing `v` in an entry that holds nothing needs. */
  lemma EntryStored(s: Snapshot, external: multiset<nat>, e: Entry, v: Value)
    requires ValuesCounted(s.heap, s.objects, s.entries, external)
    requires EnvsOwned(s.objects, s.frames) && EntriesOwned(s.objects, s.entries)
    requires e in s.entries && s.entries[e] == Undef
    ensures EntriesOwned(s.objects, s.entries[e := v]) && s.entries[e := v][e := Undef] == s.entries
    ensures EntryValue(s.entries[e := v], e) == v
    ensures (v.Ref? ==> v.id in s.objects) ==>
              && ValuesCounted(s.heap, Retained(s.objects, v), s.entries[e := v], external)
              && EnvsOwned(Retained(s.objects, v), s.frames) && EntriesOwned(Retained(s.objects, v), s.entries[e := v])
  {
    hide Held, ValuesCounted, EnvsOwned;
    if v.Ref? ==> v.id in s.objects {
      RetainHeld(s.heap, v, s.objects, s.entries, external);
      EntrySwapped(s.heap, e, v, Retained(s.objects, v), s.entries, external);
      HeldNothing(Undef, external);
      RetainedAlike(s.objects, s.entries[e := v], s.frames, v);
    }
  }

  /** The way to the register frees nothing and changes nothing of what its overwriting frees. */
  lemma FreedAlike(s: Snapshot, now: Snapshot, external: multiset<nat>, f: nat, t: nat, x: nat, private: bool)
    requires NULL !in s.heap && NULL !in now.heap && EntriesOwned(s.objects, s.entries)
    requires ValuesCounted(now.heap, now.objects, now.entries, external)
    requires f in s.frames && f in now.frames && f !in Envs(s.objects) && t < REGISTERS
    requires now.frames == s.frames[f := now.frames[f]] && now.entries == s.entries
    requires SameRegisters(s.heap, s.frames, now.heap, now.frames)
    requires x in now.heap && x == NodeAt(now.heap, now.frames[f], t, Depth(t))
    requires private ==> now.objects == s.objects && OnlyGrew(s.heap, now.heap)
    requires private ==>
               NodeAt(s.heap, s.frames[f], t, Depth(t)) == NULL
               || (Private(s.heap, s.frames[f], t, Depth(t) + 1) && x == NodeAt(s.heap, s.frames[f], t, Depth(t)))
    requires !private ==> !Private(s.heap, s.frames[f], t, Depth(t) + 1)
    requires !private ==> exists a :: a in now.heap && a != x && now.heap[a].value == now.heap[x].value
    ensures forall o :: o in s.objects ==>
              (ObjectCell(o) in Dead(Cleared(now, x), Dropping(now.heap[x].value)) <==> ObjectCell(o) in FreedByWrite(s, f, t))
  {
    hide ValuesCounted, Dead, SameRegisters, Register, OnlyGrew, EntriesOwned, NodeAt;
    var was := now.heap[x].value;
    SoleHolder(s.heap, s.frames, now.heap, now.frames, now.objects, now.entries, external, f, t, x, private);
    if Private(s.heap, s.frames[f], t, Depth(t) + 1) && private {
      PrivateEnd(s.heap, s.frames[f], t);
      GrewWhenCleared(s, now, f, x);
      GrewDead(Cleared(s, x), Cleared(now, x), Dropping(was));
    } else {
      NobodyDies(Cleared(now, x), was);
    }
  }

  lemma PrivateEnd(heap: Heap, root: nat, t: nat)
    requires t < REGISTERS && Private(heap, root, t, Depth(t) + 1) && NULL !in heap
    ensures NodeAt(heap, root, t, Depth(t)) in heap && NodeAt(heap, root, t, Depth(t)) != NULL
  {
  }

  lemma GrewWhenCleared(s: Snapshot, now: Snapshot, f: nat, x: nat)
    requires NULL !in s.heap && OnlyGrew(s.heap, now.heap) && now.objects == s.objects && now.entries == s.entries
    requires f in s.frames && f !in Envs(s.objects) && f in now.frames && now.frames == s.frames[f := now.frames[f]]
    requires x in s.heap && x in now.heap
    ensures Grew(Cleared(s, x), Cleared(now, x)) && now.heap[x].value == s.heap[x].value
  {
    assert EnvsOf(Cleared(s, x), Cells(Cleared(s, x))) <= Envs(s.objects);
  }

  /** The end of a write: what the releases have left, with the new value. */
  lemma OneWritten(s: Snapshot, mid: Snapshot, now: Snapshot, level: map<nat, nat>, f: nat, t: nat, x: nat, v: Value)
    requires NULL !in mid.heap && x in mid.heap && x in now.heap && now.heap[x].value == v
    requires f in s.frames && f !in Envs(s.objects) && t < REGISTERS && EntriesOwned(s.objects, s.entries)
    requires mid.frames.Keys == s.frames.Keys && SameObjects(s.objects, mid.objects) && mid.entries == s.entries
    requires RegisterWritten(s.heap, s.frames, SetValue(mid.heap, x, v), mid.frames, f, t, v)
    requires Released(Cleared(mid, x), Dropping(mid.heap[x].value), Cleared(now, x))
    requires Inv(now.heap, level, now.frames, multiset{})
    requires forall o :: o in s.objects ==>
               (ObjectCell(o) in Dead(Cleared(mid, x), Dropping(mid.heap[x].value)) <==> ObjectCell(o) in FreedByWrite(s, f, t))
    ensures WrittenOnce(s, now, f, t, v)
  {
    hide Inv, Register, FreedByWrite, Dead, Released, RegisterWritten, SameObjects, EntriesOwned;
    RegistersWritten(s, mid, now, level, f, t, x, v);
    ObjectsAreLeft(s, Cleared(mid, x), Dropping(mid.heap[x].value), Cleared(now, x), FreedByWrite(s, f, t));
  }

  lemma WrittenMeans(s: Snapshot, now: Snapshot, f: nat, t: nat, v: Value)
    requires f in s.frames && t < REGISTERS && WrittenOnce(s, now, f, t, v)
    ensures f in now.frames && now.frames.Keys <= s.frames.Keys
    ensures forall g, u: nat :: g in now.frames && u < REGISTERS ==>
              Register(now.heap, now.frames[g], u) == if g == f && u == t then v else Register(s.heap, s.frames[g], u)
    ensures forall o :: o in now.objects <==> o in s.objects && ObjectCell(o) !in FreedByWrite(s, f, t)
    ensures forall e :: e in now.entries <==> e in s.entries && ObjectCell(e.0) !in FreedByWrite(s, f, t)
    ensures forall e :: e in now.entries ==> now.entries[e] == s.entries[e]
  {
    hide Register, FreedByWrite;
  }

  lemma RegistersWritten(s: Snapshot, mid: Snapshot, now: Snapshot, level: map<nat, nat>, f: nat, t: nat, x: nat, v: Value)
    requires NULL !in mid.heap && x in mid.heap && x in now.heap && now.heap[x].value == v
    requires f in s.frames && f !in Envs(s.objects)
    requires mid.frames.Keys == s.frames.Keys && SameObjects(s.objects, mid.objects)
    requires RegisterWritten(s.heap, s.frames, SetValue(mid.heap, x, v), mid.frames, f, t, v)
    requires Released(Cleared(mid, x), Dropping(mid.heap[x].value), Cleared(now, x))
    requires Inv(now.heap, level, now.frames, multiset{})
    ensures RegisterWritten(s.heap, s.frames, now.heap, now.frames, f, t, v)
  {
    hide Inv, Register, Dead, Released, SameObjects, Remains;
    EnvsAlike(s.objects, mid.objects);
    ReleasedRemains(Cleared(mid, x), Dropping(mid.heap[x].value), Cleared(now, x));
    StillRemains(mid.heap, now.heap, x, v);
    RemainingTreesAgree(SetValue(mid.heap, x, v), now.heap, level, now.frames);
    forall g, u: nat | g in now.frames && u < REGISTERS
      ensures Register(now.heap, now.frames[g], u) == if g == f && u == t then v else Register(s.heap, s.frames[g], u)
    {
      assert Agree(SetValue(mid.heap, x, v), now.frames[g], now.heap, now.frames[g]);
    }
  }

  lemma ObjectsAreLeft(s: Snapshot, mid: Snapshot, dropped: multiset<Cell>, now: Snapshot, freed: set<Cell>)
    requires mid.frames.Keys == s.frames.Keys && SameObjects(s.objects, mid.objects) && mid.entries == s.entries
    requires Released(mid, dropped, now) && EntriesOwned(s.objects, s.entries)
    requires forall o :: o in s.objects ==> (ObjectCell(o) in Dead(mid, dropped) <==> ObjectCell(o) in freed)
    ensures ObjectsLeft(s, freed, now)
  {
    hide Dead;
    SameEnvs(s, mid, freed, Dead(mid, dropped));
    forall e | e in s.entries
      ensures ObjectCell(e.0) in Dead(mid, dropped) <==> ObjectCell(e.0) in freed
    {
    }
  }

  lemma ReleasedRetained(s: Snapshot, dropped: multiset<Cell>, now: Snapshot, v: Value)
    requires Released(s, dropped, now) && (v.Ref? ==> v.id in now.objects)
    ensures Released(s, dropped, now.(objects := Retained(now.objects, v)))
  {
    hide Dead;
  }

  lemma StillRemains(before: Heap, after: Heap, x: nat, v: Value)
    requires x in before && x in after && after[x].value == v
    requires Remains(SetValue(before, x, Undef), SetValue(after, x, Undef))
    ensures Remains(SetValue(before, x, v), after)
  {
    forall a | a in after
      ensures a in before && SameContents(after[a], SetValue(before, x, v)[a])
    {
      assert SameContents(SetValue(after, x, Undef)[a], SetValue(before, x, Undef)[a]);
    }
  }

  lemma SameEnvs(s: Snapshot, t: Snapshot, x: set<Cell>, y: set<Cell>)
    requires SameObjects(s.objects, t.objects)
    requires forall o :: o in s.objects ==> (ObjectCell(o) in y <==> ObjectCell(o) in x)
    ensures EnvsOf(s, x) == EnvsOf(t, y)
  {
    forall o | o in s.objects
      ensures SameObject(s.objects[o], t.objects[o])
    {
    }
  }

  lemma RegisterIsLive(heap: Heap, level: map<nat, nat>, frames: map<nat, nat>, objects: Objects, entries: Entries, external: multiset<nat>,
                       f: nat, t: nat)
    requires Inv(heap, level, frames, multiset{}) && NULL !in heap && ValuesCounted(heap, objects, entries, external)
    requires f in frames && t < REGISTERS
    ensures var v := Register(heap, frames[f], t); v.Ref? ==> v.id in objects
  {
    RegisterIsAtDepth(heap, frames[f], t);
  }

  /** At the end of the path, the new value survives unless the write overwrites itself. */
  lemma SoleHolder(heap0: Heap, frames0: map<nat, nat>, heap: Heap, frames: map<nat, nat>,
                   objects: Objects, entries: Entries, external: multiset<nat>, f: nat, t: nat, x: nat, private: bool)
    requires NULL !in heap0 && NULL !in heap && ValuesCounted(heap, objects, entries, external)
    requires f in frames0 && f in frames && t < REGISTERS && SameRegisters(heap0, frames0, heap, frames)
    requires x in heap && x == NodeAt(heap, frames[f], t, Depth(t))
    requires private ==> NodeAt(heap0, frames0[f], t, Depth(t)) == NULL || Private(heap0, frames0[f], t, Depth(t) + 1)
    requires !private ==> exists a :: a in heap && a != x && heap[a].value == heap[x].value
    ensures heap[x].value == Register(heap0, frames0[f], t)
    ensures heap[x].value.Ref? && private ==> Private(heap0, frames0[f], t, Depth(t) + 1)
    ensures heap[x].value.Ref? && !private ==> heap[x].value.id in objects && objects[heap[x].value.id].refcnt > 1
  {
    RegisterIsAtDepth(heap, frames[f], t);
    RegisterIsAtDepth(heap0, frames0[f], t);
    assert Agree(heap0, frames0[f], heap, frames[f]);
    if heap[x].value.Ref? && !private {
      var o := heap[x].value.id;
      var a :| a in heap && a != x && heap[a].value == heap[x].value;
      assert {a, x} <= Holders(heap, o);
      SubsetSize({a, x}, Holders(heap, o));
    }
  }

  lemma WriteReaches(heap0: Heap, frames0: map<nat, nat>, heap: Heap, level: map<nat, nat>, frames: map<nat, nat>,
                     f: nat, t: nat, x: nat, v: Value)
    requires Inv(heap, level, frames, multiset{}) && NULL !in heap && f in frames && t < REGISTERS
    requires SameRegisters(heap0, frames0, heap, frames)
    requires x == NodeAt(heap, frames[f], t, Depth(t)) && x in heap && Private(heap, frames[f], t, Depth(t) + 1)
    ensures RegisterWritten(heap0, frames0, SetValue(heap, x, v), frames, f, t, v)
  {
    hide Inv, Private, Register, NodeAt;
    forall g, u: nat | g in frames && u < REGISTERS
      ensures Register(SetValue(heap, x, v), frames[g], u) == if g == f && u == t then v else Register(heap0, frames0[g], u)
    {
      assert Agree(heap0, frames0[g], heap, frames[g]);
      PrivateWrite(heap, level, frames, f, t, v, g, u);
    }
  }

  lemma SameRegistersItself(heap: Heap, frames: map<nat, nat>)
    ensures SameRegisters(heap, frames, heap, frames)
  {
  }

  lemma SameRegistersTransitive(h1: Heap, f1: map<nat, nat>, h2: Heap, f2: map<nat, nat>, h3: Heap, f3: map<nat, nat>)
    requires SameRegisters(h1, f1, h2, f2) && SameRegisters(h2, f2, h3, f3)
    ensures SameRegisters(h1, f1, h3, f3)
  {
  }

  /** A path that is shared before the end of the search is shared. */
  lemma PrivateIsLonger(heap: Heap, root: nat, t: nat, i: nat)
    requires OnTheWay(t, i) && !Private(heap, root, t, i + 1)
    ensures !Private(heap, root, t, Depth(t) + 1)
  {
  }

  /** The next node of the search, below a private node with children. */
  lemma GoDown(heap: Heap, level: map<nat, nat>, frames: map<nat, nat>, f: nat, t: nat, i: nat, x: nat)
    requires Inv(heap, level, frames, multiset{}) && NULL !in heap && Arrived(heap, frames, f, t, i, x)
    requires Mid(t, i) != t && heap[x].refcnt == 1
    requires heap[x].Inner? ==> heap[x].left in heap && heap[x].right in heap
    ensures heap[x].Inner?
    ensures var c := if t < Mid(t, i) then heap[x].left else heap[x].right;
            && Arrived(heap, frames, f, t, i + 1, c)
            && SlotAt(heap, frames[f], t, i + 1) == if t < Mid(t, i) then LeftOf(x) else RightOf(x)
  {
    hide Inv, Range, Width, Perfect, Middle, Mid, OnTheWay, NodeShaped;
    RangeStep(t, i);
    ArrivedLevel(heap, level, frames, f, t, i, x);
  }

  lemma UntouchedBelow(heap0: Heap, level0: map<nat, nat>, frames0: map<nat, nat>, f: nat,
                       heap: Heap, level: map<nat, nat>, x: nat, t: nat, i: nat, grown: set<nat>)
    requires Inv(heap0, level0, frames0, multiset{}) && NULL !in heap0 && f in frames0
    requires Passed(heap0, frames0[f], heap, level, x, t, i, grown)
    requires heap[x].Inner? && heap[x].left in heap && heap[x].right in heap
    ensures var c := if t < Mid(t, i) then heap[x].left else heap[x].right;
            Untouched(heap0, frames0[f], heap, level, c, t, i + 1, grown)
  {
    if x in heap0 {
      assert NodeShaped(heap0, level0, x);
    }
  }

  lemma EndOfPath(heap0: Heap, root0: nat, heap: Heap, level: map<nat, nat>, frames: map<nat, nat>, f: nat, t: nat, i: nat, x: nat,
                  private: bool, grown: set<nat>)
    requires Arrived(heap, frames, f, t, i, x) && heap[x].refcnt == 1
    requires private ==> Passed(heap0, root0, heap, level, x, t, i, grown)
    ensures Private(heap, frames[f], t, i + 1)
    ensures private ==>
              NodeAt(heap0, root0, t, i) == NULL || (Private(heap0, root0, t, i + 1) && x == NodeAt(heap0, root0, t, i))
  {
  }

  /** What remains known when the write passes `node` without having copied anything. */
  ghost predicate Passed(heap0: Heap, root0: nat, heap: Heap, level: map<nat, nat>, node: nat, t: nat, i: nat, grown: set<nat>) {
    && node in heap && heap[node].refcnt == 1
    && (forall a :: a in grown ==> a in heap && a in level && level[a] > HEIGHT - (i + 1))
    && (forall a :: a in heap0 ==>
          && a in heap && heap[a].refcnt == heap0[a].refcnt
          && (a !in grown ==> heap[a] == heap0[a]))
    && if node in heap0
       then
         && node == NodeAt(heap0, root0, t, i) && Private(heap0, root0, t, i + 1)
         && if heap0[node].Inner? && heap0[node].left == heap0[node].right == NULL
            then FreshChildren(heap0, heap, node) else heap[node] == heap0[node]
       else NodeAt(heap0, root0, t, i) == NULL && FreshChildren(heap0, heap, node)
  }

  ghost predicate FreshChildren(heap0: Heap, heap: Heap, node: nat) {
    node in heap && (heap[node].Inner? ==>
      var l, r := heap[node].left, heap[node].right;
      && l !in heap0 && r !in heap0 && l in heap && r in heap
      && (exists leaf :: heap[l] == heap[r] == Fresh(leaf)))
  }

  function Adjust(heap: Heap, a: nat, delta: int): Heap
    requires a in heap && heap[a].refcnt + delta >= 0
  {
    heap[a := heap[a].(refcnt := heap[a].refcnt + delta)]
  }

  /** The heap updates of a copy, one after the other, amount to `Unshare`. */
  lemma StepwiseUnshare(heap: Heap, slot: Slot, a: nat, n: nat)
    requires a in heap && heap[a].refcnt > 1 && n !in heap
    requires heap[a].Inner? ==> heap[a].left in heap && heap[a].right in heap && heap[a].left != a && heap[a].right != a
    requires !slot.Root? ==> slot.parent in heap && heap[slot.parent].Inner? && slot.parent != a
    ensures var h1 := Adjust(heap[n := heap[a].(refcnt := 1)], a, -1);
            var h2 := if heap[a].Inner? then Adjust(Adjust(h1, heap[a].left, 1), heap[a].right, 1) else h1;
            var h3 := match slot
                      case Root => h2
                      case LeftOf(p) => h2[p := h2[p].(left := n)]
                      case RightOf(p) => h2[p := h2[p].(right := n)];
            h3 == Unshare(heap, slot, a, n)
  {
    hide Clone, Redirect;
    CloneSteps(heap, a, n);
    CloneKeys(heap, a, n);
    RedirectSteps(Clone(heap, a, n), slot, a, n);
  }

  lemma CloneSteps(heap: Heap, a: nat, n: nat)
    requires a in heap && heap[a].refcnt > 1 && n !in heap
    requires heap[a].Inner? ==> heap[a].left in heap && heap[a].right in heap && heap[a].left != a && heap[a].right != a
    ensures a in Clone(heap, a, n) && Clone(heap, a, n)[a].refcnt > 0
    ensures var h1 := Adjust(heap[n := heap[a].(refcnt := 1)], a, -1);
            (if heap[a].Inner? then Adjust(Adjust(h1, heap[a].left, 1), heap[a].right, 1) else h1)
            == Adjust(Clone(heap, a, n), a, -1)
  {
  }

  lemma CloneKeys(heap: Heap, a: nat, n: nat)
    requires a in heap && n !in heap
    ensures forall b :: b in heap && b != n ==> b in Clone(heap, a, n) && (Clone(heap, a, n)[b].Inner? <==> heap[b].Inner?)
  {
  }

  lemma RedirectSteps(heap: Heap, slot: Slot, a: nat, n: nat)
    requires a in heap && heap[a].refcnt > 0
    requires !slot.Root? ==> slot.parent in heap && heap[slot.parent].Inner? && slot.parent != a
    ensures var h := Adjust(heap, a, -1);
            Redirect(heap, slot, a, n) ==
            match slot
            case Root => h
            case LeftOf(p) => h[p := h[p].(left := n)]
            case RightOf(p) => h[p := h[p].(right := n)]
  {
  }

  lemma CopySound(s: Snapshot, level: map<nat, nat>, external: multiset<nat>, f: nat, t: nat, i: nat, root: nat, n: nat)
    requires Sound(s, level, multiset{}, external) && EntriesOwned(s.objects, s.entries)
    requires Arrived(s.heap, s.frames, f, t, i, root) && i < HEIGHT
    requires s.heap[root].refcnt > 1 && (s.heap[root].Inner? ==> s.heap[root].left != NULL)
    requires n !in s.heap && n != NULL
    ensures root in level && (s.heap[root].value.Ref? ==> s.heap[root].value.id in s.objects)
    ensures s.heap[root].Inner? ==>
              && s.heap[root].left in s.heap && s.heap[root].right in s.heap
              && s.heap[root].left != root && s.heap[root].right != root
    ensures var slot := SlotAt(s.heap, s.frames[f], t, i);
            var heap := Unshare(s.heap, slot, root, n);
            var frames, objects := FramesAfter(s.frames, f, slot, n), Retained(s.objects, s.heap[root].value);
            && (!slot.Root? ==> slot.parent in s.heap && s.heap[slot.parent].Inner? && slot.parent != root)
            && Sound(Snapshot(heap, frames, objects, s.entries), level[n := level[root]], multiset{}, external)
            && EntriesOwned(objects, s.entries) && SameObjects(s.objects, objects)
            && SameRegisters(s.heap, s.frames, heap, frames) && Arrived(heap, frames, f, t, i, n)
            && frames == s.frames[f := frames[f]]
            && heap[n].refcnt == 1 && root in heap && heap[root].value == heap[n].value
            && (heap[n].Inner? ==>
                  && heap[n].left in heap && heap[heap[n].left].refcnt > 1
                  && heap[n].right in heap && heap[heap[n].right].refcnt > 1)
  {
    hide Inv, ValuesCounted, EnvsOwned, EntriesOwned, ValueAt, Private, NodeAt, OnTheWay, Unshare, SameRegisters, Retained, SameObjects;
    CopyKeepsAll(s.heap, level, s.frames, s.objects, s.entries, external, f, t, i, root, n);
    RetainedAlike(s.objects, s.entries, s.frames, s.heap[root].value);
  }

  lemma CopyKeepsAll(heap: Heap, level: map<nat, nat>, frames: map<nat, nat>, objects: Objects, entries: Entries, external: multiset<nat>,
                     f: nat, t: nat, i: nat, root: nat, n: nat)
    requires Inv(heap, level, frames, multiset{}) && ValuesCounted(heap, objects, entries, external) && NULL !in heap
    requires Arrived(heap, frames, f, t, i, root) && i < HEIGHT
    requires heap[root].refcnt > 1 && (heap[root].Inner? ==> heap[root].left != NULL)
    requires n !in heap && n != NULL
    ensures root in level && (heap[root].value.Ref? ==> heap[root].value.id in objects)
    ensures heap[root].Inner? ==>
              heap[root].left in heap && heap[root].right in heap && heap[root].left != root && heap[root].right != root
    ensures var slot := SlotAt(heap, frames[f], t, i);
            var after := Unshare(heap, slot, root, n);
            var now := FramesAfter(frames, f, slot, n);
            && (!slot.Root? ==> slot.parent in heap && heap[slot.parent].Inner? && slot.parent != root)
            && Inv(after, level[n := level[root]], now, multiset{})
            && ValuesCounted(after, Retained(objects, heap[root].value), entries, external)
            && SameRegisters(heap, frames, after, now)
            && Arrived(after, now, f, t, i, n) && NULL !in after
            && after[n].refcnt == 1 && root in after && after[root].value == after[n].value
            && (after[n].Inner? ==>
                  && after[n].left in after && after[after[n].left].refcnt > 1
                  && after[n].right in after && after[after[n].right].refcnt > 1)
  {
    hide Shaped, Counted, ValuesCounted, ValueAt, NodeShaped, OnTheWay, Mid, Unshare;
    UnshareContents(heap, SlotAt(heap, frames[f], t, i), root, n);
    var slot := SlotAt(heap, frames[f], t, i);
    var after := Unshare(heap, slot, root, n);
    var now := FramesAfter(frames, f, slot, n);
    ChildrenAreLower(heap, level, frames, root);
    SlotAtHolds(heap, level, frames, f, t, i);
    UnshareKeepsInv(heap, level, frames, f, slot, root, n);
    CopyRetains(heap, after, root, n, objects, entries, external);
    if i > 0 {
      PathIsSimple(heap, level, frames, f, t, i, i - 1);
    }
    forall j | 0 <= j <= i
      ensures NodeAt(after, now[f], t, j) == (if j < i then NodeAt(heap, frames[f], t, j) else n)
      ensures j < i ==> NodeAt(after, now[f], t, j) in after && after[NodeAt(after, now[f], t, j)].refcnt == 1
    {
      UnshareKeepsPath(heap, level, frames, f, t, i, n, j);
    }
    forall g, u: nat | g in frames && u < REGISTERS
      ensures Register(after, now[g], u) == Register(heap, frames[g], u)
    {
      FramePoints(heap, level, frames, Some(g));
      UnshareKeepsValues(heap, level, frames, f, slot, root, n, now[g], u);
    }
    CopiedChildren(heap, level, frames, slot, root, n);
  }

  lemma UnshareContents(heap: Heap, slot: Slot, a: nat, n: nat)
    requires a in heap && heap[a].refcnt > 1 && n !in heap
    ensures var after := Unshare(heap, slot, a, n);
            && after.Keys == heap.Keys + {n} && after[n].value == heap[a].value && after[n].refcnt == 1
            && forall b :: b in heap ==> after[b].value == heap[b].value
  {
  }

  /** The children of a copied node are shared between the original and the copy. */
  lemma CopiedChildren(heap: Heap, level: map<nat, nat>, frames: map<nat, nat>, slot: Slot, root: nat, n: nat)
    requires Inv(heap, level, frames, multiset{}) && NULL !in heap && root in heap
    requires heap[root].refcnt > 1 && (heap[root].Inner? ==> heap[root].left != NULL) && n !in heap
    requires !slot.Root? ==> slot.parent in heap && slot.parent != root
    ensures var after := Unshare(heap, slot, root, n);
            after[n].Inner? ==>
              && after[n].left in after && after[after[n].left].refcnt > 1
              && after[n].right in after && after[after[n].right].refcnt > 1
  {
    hide Inv;
    ChildrenAreLower(heap, level, frames, root);
  }

  /** `after` is `before` with an empty pair of children below the childless node `a`. */
  ghost predicate Grown(before: Heap, after: Heap, a: nat) {
    && a in before && a in after && before[a].Inner? && after[a].Inner?
    && after[a].refcnt == before[a].refcnt && after[a].value == before[a].value
    && after.Keys == before.Keys + {after[a].left, after[a].right}
    && (forall b :: b in before && b != a ==> b in after && after[b] == before[b])
    && var l, r := after[a].left, after[a].right;
       && l != NULL && r != NULL && l !in before && r !in before && l in after && r in after
       && (exists leaf :: after[l] == after[r] == Fresh(leaf))
  }

  /**
   What a write that has copied nothing yet knows about the original tree: it still stands, and the
   search has followed a private path of it, or has left it for fresh nodes.
   */
  ghost predicate Untouched(heap0: Heap, root0: nat, heap: Heap, level: map<nat, nat>, root: nat, t: nat, i: nat, grown: set<nat>) {
    && root in heap
    && (forall a :: a in grown ==> a in heap && a in level && level[a] > HEIGHT - i)
    && (forall a :: a in heap0 ==>
          && a in heap && heap[a].refcnt == heap0[a].refcnt
          && (a !in grown ==> heap[a] == heap0[a]))
    && if root in heap0
       then root == NodeAt(heap0, root0, t, i) && Private(heap0, root0, t, i)
       else NodeAt(heap0, root0, t, i) == NULL && exists leaf :: heap[root] == Fresh(leaf)
  }

  lemma ChildrenAreLower(heap: Heap, level: map<nat, nat>, frames: map<nat, nat>, a: nat)
    requires Inv(heap, level, frames, multiset{}) && a in heap
    ensures NodeShaped(heap, level, a) && a in level && heap[a].refcnt > 0
    ensures heap[a].Inner? && heap[a].left != NULL ==>
              && heap[a].left in heap && heap[a].right in heap && heap[a].left != a && heap[a].right != a
              && heap[heap[a].left].refcnt > 0 && heap[heap[a].right].refcnt > 0
  {
    assert NodeShaped(heap, level, a);
  }

  lemma ArrivedIsShaped(heap: Heap, level: map<nat, nat>, frames: map<nat, nat>, root: nat)
    requires Inv(heap, level, frames, multiset{}) && root in heap
    ensures NodeShaped(heap, level, root)
  {
  }

  lemma GrowRootKeepsAll(heap: Heap, level: map<nat, nat>, frames: map<nat, nat>, objects: Objects, entries: Entries, external: multiset<nat>,
                         f: nat, n: nat)
    requires Inv(heap, level, frames, multiset{}) && ValuesCounted(heap, objects, entries, external)
    requires NULL !in heap && f in frames && frames[f] == NULL && n !in heap && n != NULL
    ensures Inv(heap[n := Fresh(false)], level[n := HEIGHT], frames[f := n], multiset{})
    ensures ValuesCounted(heap[n := Fresh(false)], objects, entries, external)
    ensures SameRegisters(heap, frames, heap[n := Fresh(false)], frames[f := n])
  {
    GrowRoot(heap, level, frames, f, n);
    SameHolders(heap, heap[n := Fresh(false)], objects, entries, external);
    forall g, u: nat | g in frames && u < REGISTERS
      ensures Register(heap[n := Fresh(false)], frames[f := n][g], u) == Register(heap, frames[g], u)
    {
      NullHoldsNothing(heap, u, 0);
      assert frames[g] != n by { FramePoints(heap, level, frames, Some(g)); }
      GrowRootKeepsValues(heap, level, frames, n, frames[f := n][g], u, 0);
    }
  }

  lemma GrowRootSound(s: Snapshot, level: map<nat, nat>, external: multiset<nat>, f: nat, n: nat)
    requires Sound(s, level, multiset{}, external) && f in s.frames && s.frames[f] == NULL && n !in s.heap && n != NULL
    ensures Sound(s.(heap := s.heap[n := Fresh(false)], frames := s.frames[f := n]), level[n := HEIGHT], multiset{}, external)
    ensures SameRegisters(s.heap, s.frames, s.heap[n := Fresh(false)], s.frames[f := n])
    ensures OnlyGrew(s.heap, s.heap[n := Fresh(false)])
  {
    hide Inv, ValuesCounted, SameRegisters;
    GrowRootKeepsAll(s.heap, level, s.frames, s.objects, s.entries, external, f, n);
  }

  lemma OnlyItself(heap: Heap)
    ensures OnlyGrew(heap, heap)
  {
  }

  lemma SoundTrees(s: Snapshot, level: map<nat, nat>, loose: multiset<nat>, external: multiset<nat>)
    requires Sound(s, level, loose, external)
    ensures NULL !in s.heap && Inv(s.heap, level, s.frames, loose)
  {
    hide Inv, ValuesCounted, EnvsOwned;
  }

  /** All is well after the node `root` that a write has arrived at has been given children. */
  ghost predicate WithChildren(heap: Heap, level: map<nat, nat>, frames: map<nat, nat>, objects: Objects,
                               entries: Entries, external: multiset<nat>, f: nat, t: nat, i: nat, root: nat, l: nat, r: nat)
    requires root in heap && heap[root].Inner? && root in level && level[root] > 0 && f in frames
  {
    var after := AddChildren(heap, root, l, r, level[root] == 2);
    && Inv(after, level[l := level[root] - 1][r := level[root] - 1], frames, multiset{})
    && ValuesCounted(after, objects, entries, external)
    && SameRegisters(heap, frames, after, frames)
    && Arrived(after, frames, f, t, i, root)
    && Grown(heap, after, root)
    && SlotAt(after, frames[f], t, i) == SlotAt(heap, frames[f], t, i)
  }

  lemma GrowKeepsAll(heap: Heap, level: map<nat, nat>, frames: map<nat, nat>, objects: Objects, entries: Entries, external: multiset<nat>,
                     f: nat, t: nat, i: nat, root: nat, l: nat, r: nat)
    requires Inv(heap, level, frames, multiset{}) && ValuesCounted(heap, objects, entries, external) && NULL !in heap
    requires Arrived(heap, frames, f, t, i, root) && NodeShaped(heap, level, root)
    requires heap[root].Inner? && heap[root].left == NULL
    requires l !in heap && r !in heap && l != r && l != NULL && r != NULL
    ensures root in level && level[root] > 0 && f in frames
    ensures WithChildren(heap, level, frames, objects, entries, external, f, t, i, root, l, r)
  {
    hide Shaped, Counted, ValuesCounted, ValueAt;
    var leaf := level[root] == 2;
    var after := AddChildren(heap, root, l, r, leaf);
    assert Childless(heap, root, l, r);
    AddChildrenKeepsShape(heap, level, frames, root, l, r);
    AddChildrenKeepsCounts(heap, level, frames, root, l, r, leaf);
    SameHolders(heap, after, objects, entries, external);
    forall g, u: nat | g in frames && u < REGISTERS
      ensures Register(after, frames[g], u) == Register(heap, frames[g], u)
    {
      FramePoints(heap, level, frames, Some(g));
      AddChildrenKeepsValues(heap, root, l, r, leaf, frames[g], u, 0);
    }
    forall j | 0 <= j <= i
      ensures NodeAt(after, frames[f], t, j) == NodeAt(heap, frames[f], t, j)
    {
      AddChildrenKeepsPath(heap, frames[f], t, i, l, r, leaf, j);
    }
    assert after[l] == after[r] == Fresh(leaf);
  }

  /** One step of a search: where it stands, what it finds, and where it goes. */
  lemma SearchStep(heap: Heap, level: map<nat, nat>, frames: map<nat, nat>, f: nat, t: nat, i: nat)
    requires Inv(heap, level, frames, multiset{}) && NULL !in heap && f in frames
    requires OnTheWay(t, i) && NodeAt(heap, frames[f], t, i) != NULL
    ensures i < HEIGHT
    ensures var root := NodeAt(heap, frames[f], t, i);
            && root in heap && root in level && level[root] == HEIGHT - i && NodeShaped(heap, level, root)
            && (Mid(t, i) == t ==> Register(heap, frames[f], t) == heap[root].value)
            && (Mid(t, i) != t ==>
                  && heap[root].Inner?
                  && NodeAt(heap, frames[f], t, i + 1) == if t < Mid(t, i) then heap[root].left else heap[root].right)
  {
    hide Range, Middle, Width, Perfect, Counted;
    RangeStep(t, i);
    LevelAt(heap, level, frames, multiset{}, f, t, i);
    assert NodeShaped(heap, level, NodeAt(heap, frames[f], t, i));
    if Mid(t, i) == t {
      RegisterFromStep(heap, frames[f], t, i);
    }
  }

  lemma DropRefKeepsAll(heap: Heap, level: map<nat, nat>, frames: map<nat, nat>, rest: multiset<nat>,
                        objects: Objects, entries: Entries, external: multiset<nat>, p: nat)
    requires Inv(heap, level, frames, rest + multiset{p}) && ValuesCounted(heap, objects, entries, external)
    requires p in heap && heap[p].refcnt > 1
    ensures Inv(DropRef(heap, p), level, frames, rest)
    ensures ValuesCounted(DropRef(heap, p), objects, entries, external)
    ensures Remains(heap, DropRef(heap, p))
  {
    hide Shaped, Counted;
    DropRefKeepsInv(heap, level, frames, rest + multiset{p}, p);
    assert rest + multiset{p} - multiset{p} == rest;
    SameHoldersBothWays(heap, DropRef(heap, p), objects, entries, external);
  }

  lemma RemoveKeepsAll(heap: Heap, level: map<nat, nat>, frames: map<nat, nat>, rest: multiset<nat>,
                       objects: Objects, entries: Entries, external: multiset<nat>, p: nat)
    requires Inv(heap, level, frames, rest + multiset{p}) && ValuesCounted(heap, objects, entries, external)
    requires p in heap && heap[p].refcnt == 1
    ensures Inv(heap - {p}, level, frames, rest + Links(heap[p]))
    ensures heap[p].Leaf? ==> rest + Links(heap[p]) == rest
    ensures ValuesCounted(heap - {p}, objects, entries, external + Held(heap[p].value))
    ensures Remains(heap, heap - {p})
  {
    hide Shaped, Counted, Held;
    RemoveKeepsInv(heap, level, frames, rest + multiset{p}, p);
    assert rest + multiset{p} - multiset{p} == rest;
    RemoveHolds(heap, p, objects, entries, external);
  }

  lemma LooseIsAllocated(heap: Heap, level: map<nat, nat>, frames: map<nat, nat>, rest: multiset<nat>, p: nat)
    requires Inv(heap, level, frames, rest + multiset{p})
    ensures p in heap && p in level && heap[p].refcnt > 0
    ensures heap[p].Inner? <==> level[p] > 1
    ensures heap[p].Inner? ==>
              && (heap[p].left == NULL <==> heap[p].right == NULL)
              && (heap[p].left != NULL ==> heap[p].left in level && level[heap[p].left] == level[p] - 1)
              && (heap[p].right != NULL ==> heap[p].right in level && level[heap[p].right] == level[p] - 1)
  {
    assert p in rest + multiset{p};
    assert NodeShaped(heap, level, p);
  }

  lemma RootIsPerfect()
    ensures Perfect(0, REGISTERS, HEIGHT)
  {
    RootWidth();
  }

  /** Without frames, every node has been freed and objects are referred to from entries and from outside only. */
  lemma AllReclaimed(s: Snapshot, level: map<nat, nat>, external: multiset<nat>)
    requires Sound(s, level, multiset{}, external) && s.frames == map[]
    ensures s.heap == map[]
    ensures forall o :: o in s.objects ==> s.objects[o].refcnt == |EntriesHolding(s.entries, o)| + external[o]
  {
    hide EntriesHolding, EnvsOwned;
    if a :| a in s.heap {
      assert NodeShaped(s.heap, level, a);
      NoFramesNoNodes(s.heap, level, a);
    }
    assert forall o :: Holders(s.heap, o) == {};
  }

  lemma FramePoints(heap: Heap, level: map<nat, nat>, frames: map<nat, nat>, from: Option<nat>)
    requires Inv(heap, level, frames, multiset{}) && NULL !in heap
    requires from.Some? ==> from.value in frames
    ensures var root := if from.Some? then frames[from.value] else NULL;
            Points(heap, level, root, HEIGHT) && (root != NULL ==> root in heap)
  {
  }

  /** Frames whose nodes survive with the same contents agree. */
  lemma RemainingTreesAgree(before: Heap, after: Heap, level: map<nat, nat>, frames: map<nat, nat>)
    requires Remains(before, after) && Inv(after, level, frames, multiset{}) && NULL !in before
    ensures forall g :: g in frames ==> Agree(before, frames[g], after, frames[g])
  {
    forall g, u: nat | g in frames && u < REGISTERS
      ensures Register(after, frames[g], u) == Register(before, frames[g], u)
    {
      RemainsKeepsValues(before, after, level, frames, frames[g], u, 0);
    }
  }

  lemma SameHoldersBothWays(before: Heap, after: Heap, objects: Objects, entries: Entries, external: multiset<nat>)
    requires ValuesCounted(before, objects, entries, external)
    requires before.Keys == after.Keys && forall a :: a in before ==> after[a].value == before[a].value
    ensures ValuesCounted(after, objects, entries, external)
  {
    SameHolders(before, after, objects, entries, external);
  }

  lemma ArrivedLevel(heap: Heap, level: map<nat, nat>, frames: map<nat, nat>, f: nat, t: nat, i: nat, root: nat)
    requires Inv(heap, level, frames, multiset{}) && Arrived(heap, frames, f, t, i, root) && i < HEIGHT && NULL !in heap
    ensures NodeShaped(heap, level, root) && root in level && level[root] == HEIGHT - i
    ensures heap[root].Inner? <==> HEIGHT - i > 1
  {
    LevelAt(heap, level, frames, multiset{}, f, t, i);
    assert NodeShaped(heap, level, root);
  }

  lemma PassedAfterGrow(heap0: Heap, root0: nat, heap: Heap, level: map<nat, nat>, after: Heap, levels: map<nat, nat>,
                        root: nat, t: nat, i: nat, grown: set<nat>)
    requires Untouched(heap0, root0, heap, level, root, t, i, grown) && Grown(heap, after, root)
    requires root in level && level[root] == HEIGHT - i && heap[root].Inner? && heap[root].left == heap[root].right == NULL
    requires forall a :: a in level && a in heap ==> a in levels && levels[a] == level[a]
    ensures after[root].refcnt == 1 ==> Passed(heap0, root0, after, levels, root, t, i, grown + {root})
  {
  }

  lemma PassedAsIs(heap0: Heap, root0: nat, heap: Heap, level: map<nat, nat>, frames: map<nat, nat>,
                   root: nat, t: nat, i: nat, grown: set<nat>)
    requires Untouched(heap0, root0, heap, level, root, t, i, grown)
    requires root in level && level[root] == HEIGHT - i && heap[root].refcnt == 1
    requires heap[root].Inner? ==> heap[root].left != NULL
    ensures Passed(heap0, root0, heap, level, root, t, i, grown)
  {
  }

  lemma SharedIsNotPrivate(heap0: Heap, root0: nat, heap: Heap, level: map<nat, nat>, root: nat, t: nat, i: nat, grown: set<nat>)
    requires Untouched(heap0, root0, heap, level, root, t, i, grown) && heap[root].refcnt > 1
    ensures !Private(heap0, root0, t, i + 1)
  {
  }
}
