/**
 The objects of the script language and their reference counts. An object is referred to from the
 nodes of frames, from the entries of dictionaries, and from outside; a closure owns a frame.
 */
module ScriptObjects {
  import opened FiniteSets
  import opened FrameTree
  import HashDict

  type Key = HashDict.Key

  /** A string or an exotic object holds no references, the entries of a dictionary are kept in `Entries`. */
  datatype Object =
    | Plain(refcnt: nat)
    | Dictionary(refcnt: nat)
    | Closure(refcnt: nat, env: nat)

  type Objects = map<nat, Object>

  /** An entry of a dictionary: the object and the key. */
  type Entry = (nat, Key)

  type Entries = map<Entry, Value>

  /** The same object but for its reference count. */
  predicate SameObject(x: Object, y: Object) {
    x.(refcnt := 0) == y.(refcnt := 0)
  }

  /** The frames that closures own. */
  function Envs(objects: Objects): set<nat> {
    set o | o in objects && objects[o].Closure? :: objects[o].env
  }

  /** Every closure has a frame of its own. */
  ghost predicate EnvsOwned(objects: Objects, frames: map<nat, nat>) {
    && (forall o :: o in objects && objects[o].Closure? ==> objects[o].env in frames)
    && (forall o, p :: o in objects && p in objects && o != p && objects[o].Closure? && objects[p].Closure? ==>
          objects[o].env != objects[p].env)
  }

  /** Every entry belongs to a live dictionary. */
  ghost predicate EntriesOwned(objects: Objects, entries: Entries) {
    forall e :: e in entries ==> e.0 in objects && objects[e.0].Dictionary?
  }

  // ----- Reference counts -----

  /** The nodes that hold object `o`. */
  function Holders(heap: Heap, o: nat): set<nat> {
    set a | a in heap && heap[a].value == Ref(o)
  }

  /** The entries that hold object `o`. */
  function EntriesHolding(entries: Entries, o: nat): set<Entry> {
    set e | e in entries && entries[e] == Ref(o)
  }

  /** Object counts are exact: one per node or entry that holds the object, plus the references kept elsewhere. */
  ghost predicate ValuesCounted(heap: Heap, objects: Objects, entries: Entries, external: multiset<nat>) {
    && (forall o :: o in objects ==>
          objects[o].refcnt == |Holders(heap, o)| + |EntriesHolding(entries, o)| + external[o])
    && (forall a :: a in heap && heap[a].value.Ref? ==> heap[a].value.id in objects)
    && (forall e :: e in entries && entries[e].Ref? ==> entries[e].id in objects)
    && (forall o :: o in external ==> o in objects)
  }

  /** Heap changes that neither move nor copy values keep the counts. */
  lemma SameHolders(before: Heap, after: Heap, objects: Objects, entries: Entries, external: multiset<nat>)
    requires ValuesCounted(before, objects, entries, external)
    requires forall a :: a in before ==> a in after && after[a].value == before[a].value
    requires forall a :: a in after && a !in before ==> after[a].value == Undef
    ensures ValuesCounted(after, objects, entries, external)
  {
    hide EntriesHolding;
    forall o | o in objects
      ensures Holders(after, o) == Holders(before, o)
    {
    }
  }

  /** The counts after object `v` has gained a reference. */
  function Retained(objects: Objects, v: Value): Objects
    requires v.Ref? ==> v.id in objects
  {
    if v.Ref? then objects[v.id := objects[v.id].(refcnt := objects[v.id].refcnt + 1)] else objects
  }

  /** The counts after object `v` has lost a reference that was not its last. */
  function Lowered(objects: Objects, v: Value): Objects
    requires v.Ref? ==> v.id in objects && objects[v.id].refcnt > 0
  {
    if v.Ref? then objects[v.id := objects[v.id].(refcnt := objects[v.id].refcnt - 1)] else objects
  }

  /** The object references that a value held in a local variable stands for. */
  function Held(v: Value): multiset<nat> {
    if v.Ref? then multiset{v.id} else multiset{}
  }

  lemma HeldCount(v: Value, external: multiset<nat>, o: nat)
    ensures (external + Held(v))[o] == external[o] + if v == Ref(o) then 1 else 0
    ensures o in external + Held(v) <==> o in external || v == Ref(o)
  {
  }

  lemma HolderCount(heap: Heap, x: nat, v: Value, o: nat)
    requires x in heap
    ensures |Holders(SetValue(heap, x, v), o)| ==
            |Holders(heap, o)| - (if heap[x].value == Ref(o) then 1 else 0) + if v == Ref(o) then 1 else 0
  {
    DifferInOne(Holders(heap, o), Holders(SetValue(heap, x, v), o), x);
  }

  /** A reference kept elsewhere moves into a node, and the one that was there moves out. */
  lemma ValueSwapped(heap: Heap, x: nat, v: Value, objects: Objects, entries: Entries, external: multiset<nat>)
    requires ValuesCounted(heap, objects, entries, external + Held(v)) && x in heap
    ensures ValuesCounted(SetValue(heap, x, v), objects, entries, external + Held(heap[x].value))
  {
    hide Holders, EntriesHolding, Held;
    forall o
      ensures o in external + Held(heap[x].value) ==> o in objects
      ensures v == Ref(o) ==> o in objects
      ensures o in objects ==>
                objects[o].refcnt ==
                |Holders(SetValue(heap, x, v), o)| + |EntriesHolding(entries, o)| + (external + Held(heap[x].value))[o]
    {
      HolderCount(heap, x, v, o);
      HeldCount(v, external, o);
      HeldCount(heap[x].value, external, o);
    }
  }

  lemma EntryCount(entries: Entries, e: Entry, v: Value, o: nat)
    ensures |EntriesHolding(entries[e := v], o)| ==
            |EntriesHolding(entries, o)| - (if e in entries && entries[e] == Ref(o) then 1 else 0) + if v == Ref(o) then 1 else 0
  {
    DifferInOne(EntriesHolding(entries, o), EntriesHolding(entries[e := v], o), e);
  }

  /** The value of an entry; a dictionary gives the undefined value for a key that it does not have. */
  function EntryValue(entries: Entries, e: Entry): Value {
    if e in entries then entries[e] else Undef
  }

  /** A reference kept elsewhere moves into an entry, and the one that was there moves out. */
  lemma EntrySwapped(heap: Heap, e: Entry, v: Value, objects: Objects, entries: Entries, external: multiset<nat>)
    requires ValuesCounted(heap, objects, entries, external + Held(v))
    ensures ValuesCounted(heap, objects, entries[e := v], external + Held(EntryValue(entries, e)))
  {
    hide Holders, EntriesHolding, Held;
    var was := EntryValue(entries, e);
    forall o
      ensures o in external + Held(was) ==> o in objects
      ensures v == Ref(o) ==> o in objects
      ensures o in objects ==>
                objects[o].refcnt == |Holders(heap, o)| + |EntriesHolding(entries[e := v], o)| + (external + Held(was))[o]
    {
      EntryCount(entries, e, v, o);
      HeldCount(v, external, o);
      HeldCount(was, external, o);
    }
  }

  /** Taking an entry away moves its reference into a local variable. */
  lemma EntryRemoved(heap: Heap, e: Entry, objects: Objects, entries: Entries, external: multiset<nat>)
    requires ValuesCounted(heap, objects, entries, external) && e in entries
    ensures ValuesCounted(heap, objects, entries - {e}, external + Held(entries[e]))
  {
    hide Holders;
    forall o | o in objects
      ensures |EntriesHolding(entries - {e}, o)| == |EntriesHolding(entries, o)| - if entries[e] == Ref(o) then 1 else 0
    {
      DifferInOne(EntriesHolding(entries, o), EntriesHolding(entries - {e}, o), e);
    }
  }

  /** Taking a node out of the heap moves its value reference into a local variable. */
  lemma RemoveHolds(heap: Heap, a: nat, objects: Objects, entries: Entries, external: multiset<nat>)
    requires ValuesCounted(heap, objects, entries, external) && a in heap
    ensures ValuesCounted(heap - {a}, objects, entries, external + Held(heap[a].value))
  {
    hide EntriesHolding;
    var v, after := heap[a].value, heap - {a};
    forall o | o in objects
      ensures |Holders(after, o)| == |Holders(heap, o)| - if v == Ref(o) then 1 else 0
    {
      DifferInOne(Holders(heap, o), Holders(after, o), a);
    }
  }

  /** A new node retains the value it holds. */
  lemma CopyRetains(before: Heap, after: Heap, a: nat, n: nat, objects: Objects, entries: Entries, external: multiset<nat>)
    requires ValuesCounted(before, objects, entries, external) && a in before && n !in before
    requires after.Keys == before.Keys + {n} && after[n].value == before[a].value
    requires forall b :: b in before ==> after[b].value == before[b].value
    ensures before[a].value.Ref? ==> before[a].value.id in objects
    ensures ValuesCounted(after, Retained(objects, before[a].value), entries, external)
  {
    hide EntriesHolding, Holders;
    var v, now := before[a].value, Retained(objects, before[a].value);
    forall o
      ensures |Holders(after, o)| == |Holders(before, o)| + if v == Ref(o) then 1 else 0
    {
      AddHolder(before, after, n, o);
    }
  }

  lemma AddHolder(before: Heap, after: Heap, n: nat, o: nat)
    requires n !in before && after.Keys == before.Keys + {n}
    requires forall b :: b in before ==> after[b].value == before[b].value
    ensures |Holders(after, o)| == |Holders(before, o)| + if after[n].value == Ref(o) then 1 else 0
  {
    DifferInOne(Holders(before, o), Holders(after, o), n);
  }

  /** A reference from elsewhere is taken. */
  lemma RetainHeld(heap: Heap, v: Value, objects: Objects, entries: Entries, external: multiset<nat>)
    requires ValuesCounted(heap, objects, entries, external) && (v.Ref? ==> v.id in objects)
    ensures ValuesCounted(heap, Retained(objects, v), entries, external + Held(v))
  {
    hide Holders, EntriesHolding;
  }

  lemma HeldIsLive(heap: Heap, v: Value, objects: Objects, entries: Entries, external: multiset<nat>)
    requires ValuesCounted(heap, objects, entries, external + Held(v)) && v.Ref?
    ensures v.id in objects && objects[v.id].refcnt > 0
  {
    hide Holders, EntriesHolding;
    assert v.id in external + Held(v);
  }

  /** A reference from elsewhere is given up, and it was not the last one. */
  lemma LowerHeld(heap: Heap, v: Value, objects: Objects, entries: Entries, external: multiset<nat>)
    requires ValuesCounted(heap, objects, entries, external + Held(v))
    requires v.Ref? ==> v.id in objects && objects[v.id].refcnt > 1
    ensures ValuesCounted(heap, Lowered(objects, v), entries, external)
  {
    hide Holders, EntriesHolding;
  }

  /** An object whose last reference is one from elsewhere is held by no node and no entry, and can go. */
  lemma RemoveObject(heap: Heap, o: nat, objects: Objects, entries: Entries, external: multiset<nat>)
    requires ValuesCounted(heap, objects, entries, external + multiset{o})
    requires o in objects && objects[o].refcnt == 1
    ensures Holders(heap, o) == {} && EntriesHolding(entries, o) == {} && o !in external
    ensures ValuesCounted(heap, objects - {o}, entries, external)
  {
    assert forall a :: a in heap ==> a !in Holders(heap, o);
    assert forall e :: e in entries ==> e !in EntriesHolding(entries, o);
  }
}
