/**
 The dictionary of the script language: a chained hash table that moves to a larger number of
 slots when a chain gets too long, with the keys in the order of their insertion.
 */
module HashDict {
  import opened Wrappers
  import opened Sequences

  type Key = string

  datatype Node<V> = Node(hash: nat, key: Key, value: V)

  type Chain<V> = seq<Node<V>>

  /** Chains longer than this make the table grow. */
  const MAX_CHAIN: nat := 8

  /** The hash function, the numbers of slots of the levels, and the slot of a hash at a level. */
  datatype Hashing = Hashing(hash: Key -> nat, sizes: seq<nat>, slot: (nat, nat) -> nat) {
    ghost predicate Ok() {
      && |sizes| > 0
      && forall level, h :: 0 <= level < |sizes| ==> slot(level, h) < sizes[level]
    }

    function Of(level: nat, key: Key): nat {
      slot(level, hash(key))
    }
  }

  // ----- Chains -----

  /** The position of a key in a chain. */
  function Position<V>(chain: Chain<V>, key: Key): (r: Option<nat>)
    ensures r.Some? ==> r.value < |chain| && chain[r.value].key == key
    ensures r.None? ==> forall i :: 0 <= i < |chain| ==> chain[i].key != key
  {
    if |chain| == 0 then None
    else if chain[0].key == key then Some(0)
    else
      match Position(chain[1..], key)
      case None => assert chain == [chain[0]] + chain[1..]; None
      case Some(i) => Some(i + 1)
  }

  function Lookup<V>(chain: Chain<V>, key: Key): Option<V> {
    match Position(chain, key)
    case None => None
    case Some(i) => Some(chain[i].value)
  }

  ghost predicate KeysDiffer<V>(chain: Chain<V>) {
    forall i, j :: 0 <= i < j < |chain| ==> chain[i].key != chain[j].key
  }

  lemma LookupNone<V>(chain: Chain<V>, key: Key)
    ensures Lookup(chain, key).None? <==> Position(chain, key).None?
  {
  }

  lemma LongestIsLong<V>(table: Table<V>, m: nat)
    requires Longest(table, m)
    ensures m > MAX_CHAIN <==> exists s :: 0 <= s < |table| && |table[s]| > MAX_CHAIN
  {
  }

  lemma LengthAt<V>(table: Table<V>, lengths: seq<nat>, s: nat)
    requires Counted(table, lengths) && s < |table|
    ensures s < |lengths| && lengths[s] == |table[s]|
  {
  }

  /** In a chain without repeated keys, a value is found for a key exactly when a node says so. */
  lemma LookupIffNode<V>(chain: Chain<V>, node: Node<V>)
    requires KeysDiffer(chain) && node in chain
    ensures Lookup(chain, node.key) == Some(node.value)
  {
  }

  // ----- Tables -----

  type Table<V> = seq<Chain<V>>

  /** Every node is in the slot of its hash, and no key occurs twice. */
  ghost predicate Placed<V>(h: Hashing, level: nat, table: Table<V>) {
    forall s :: 0 <= s < |table| ==> PlacedChain(h, level, s, table[s])
  }

  ghost predicate PlacedChain<V>(h: Hashing, level: nat, s: nat, chain: Chain<V>) {
    KeysDiffer(chain) && forall i :: 0 <= i < |chain| ==> PlacedNode(h, level, s, chain[i])
  }

  ghost predicate PlacedNode<V>(h: Hashing, level: nat, s: nat, node: Node<V>) {
    node.hash == h.hash(node.key) && h.slot(level, node.hash) == s
  }

  ghost predicate Longest<V>(table: Table<V>, m: nat) {
    && (forall s :: 0 <= s < |table| ==> |table[s]| <= m)
    && (m == 0 || exists s :: 0 <= s < |table| && |table[s]| == m)
  }

  ghost predicate Counted<V>(table: Table<V>, lengths: seq<nat>) {
    |lengths| == |table| && forall s :: 0 <= s < |table| ==> lengths[s] == |table[s]|
  }

  /** What a table maps a key to. */
  function Get<V>(h: Hashing, level: nat, table: Table<V>, key: Key): Option<V> {
    if h.Of(level, key) < |table| then Lookup(table[h.Of(level, key)], key) else None
  }

  /** Add a node at the head of the chain of its slot. */
  function Added<V>(table: Table<V>, s: nat, node: Node<V>): Table<V>
    requires s < |table|
  {
    table[s := [node] + table[s]]
  }

  lemma AddedIsPlaced<V>(h: Hashing, level: nat, table: Table<V>, s: nat, node: Node<V>)
    requires Placed(h, level, table) && s < |table| && PlacedNode(h, level, s, node)
    requires Position(table[s], node.key).None?
    ensures Placed(h, level, Added(table, s, node))
  {
  }

  lemma AddedIsCounted<V>(table: Table<V>, s: nat, node: Node<V>, lengths: seq<nat>, m: nat)
    requires s < |table| && Counted(table, lengths) && Longest(table, m)
    ensures var lengths' := lengths[s := lengths[s] + 1];
            && Counted(Added(table, s, node), lengths')
            && Longest(Added(table, s, node), if m < lengths'[s] then lengths'[s] else m)
  {
    var after := Added(table, s, node);
    assert |after[s]| == |table[s]| + 1 && forall t :: 0 <= t < |table| && t != s ==> after[t] == table[t];
    if m > 0 && m >= |after[s]| {
      var t :| 0 <= t < |table| && |table[t]| == m;
      assert |after[t]| == m;
    }
  }

  lemma AddedMaps<V>(h: Hashing, level: nat, table: Table<V>, s: nat, node: Node<V>, key: Key)
    requires s < |table| && h.Of(level, node.key) == s && Position(table[s], node.key).None?
    ensures Get(h, level, Added(table, s, node), key) == if key == node.key then Some(node.value) else Get(h, level, table, key)
  {
  }

  /** The node in a chain gets another value. */
  lemma ReplacedMaps<V>(h: Hashing, level: nat, table: Table<V>, s: nat, i: nat, value: V)
    requires Placed(h, level, table) && s < |table| && i < |table[s]|
    ensures var after := table[s := table[s][i := table[s][i].(value := value)]];
            && Placed(h, level, after)
            && forall key :: Get(h, level, after, key) ==
                             if key == table[s][i].key then Some(value) else Get(h, level, table, key)
  {
    var chain := table[s][i := table[s][i].(value := value)];
    var after := table[s := chain];
    assert PlacedChain(h, level, s, table[s]) && PlacedNode(h, level, s, table[s][i]);
    assert PlacedChain(h, level, s, chain);
    forall key
      ensures Get(h, level, after, key) == if key == table[s][i].key then Some(value) else Get(h, level, table, key)
    {
      if h.Of(level, key) == s {
        SamePosition(table[s], chain, key);
        if key == table[s][i].key {
          assert chain[i].key == key;
        }
      }
    }
  }

  lemma {:induction false} SamePosition<V>(a: Chain<V>, b: Chain<V>, key: Key)
    requires |a| == |b| && forall i :: 0 <= i < |a| ==> a[i].key == b[i].key
    ensures Position(a, key) == Position(b, key)
    decreases |a|
  {
    if |a| > 0 {
      SamePosition(a[1..], b[1..], key);
    }
  }

  // ----- Moving all nodes to another level -----

  /** The node has been moved when `j` nodes of the chain `i` and all of the chains before it have. */
  ghost predicate Moved<V>(h: Hashing, level: nat, table: Table<V>, i: nat, j: nat, node: Node<V>)
    requires i <= |table| && (i < |table| ==> j <= |table[i]|)
  {
    var s := h.slot(level, node.hash);
    s < |table| && (if s == i then node in table[s][..j] else s < i && node in table[s])
  }

  /** The new table holds exactly the nodes moved so far. */
  ghost predicate Partial<V(!new)>(h: Hashing, level: nat, source: Table<V>, target: Table<V>, i: nat, j: nat)
    requires i <= |source| && (i < |source| ==> j <= |source[i]|)
  {
    && Placed(h, level + 1, target)
    && (forall s, node: Node<V> :: 0 <= s < |target| && h.slot(level + 1, node.hash) == s ==>
          (node in target[s] <==> Moved(h, level, source, i, j, node)))
  }

  /** Moving one more node. */
  lemma MoveOne<V(!new)>(h: Hashing, level: nat, source: Table<V>, target: Table<V>, i: nat, j: nat)
    requires Placed(h, level, source) && i < |source| && j < |source[i]| && Partial(h, level, source, target, i, j)
    requires h.slot(level + 1, source[i][j].hash) < |target|
    ensures Partial(h, level, source, Added(target, h.slot(level + 1, source[i][j].hash), source[i][j]), i, j + 1)
  {
  }

  lemma AddedSize<V>(table: Table<V>, s: nat, node: Node<V>)
    requires s < |table|
    ensures |Added(table, s, node)| == |table|
  {
  }

  lemma PartialIsPlaced<V(!new)>(h: Hashing, level: nat, source: Table<V>, target: Table<V>, i: nat, j: nat)
    requires i <= |source| && (i < |source| ==> j <= |source[i]|) && Partial(h, level, source, target, i, j)
    ensures Placed(h, level + 1, target)
  {
  }

  /** Nothing has been moved to an empty table. */
  lemma EmptyTarget<V(!new)>(h: Hashing, level: nat, source: Table<V>, n: nat)
    ensures var target: Table<V> := seq(n, _ => []);
            && Partial(h, level, source, target, 0, 0)
            && Counted(target, seq(n, _ => 0)) && Longest(target, 0)
  {
  }

  /** Moving the chains one after another: the end of a chain is the start of the next. */
  lemma NextChain<V(!new)>(h: Hashing, level: nat, source: Table<V>, target: Table<V>, i: nat)
    requires i < |source| && Partial(h, level, source, target, i, |source[i]|)
    ensures Partial(h, level, source, target, i + 1, 0)
  {
  }

  /** Moving all nodes changes no lookup. */
  lemma PromotedMaps<V(!new)>(h: Hashing, level: nat, source: Table<V>, target: Table<V>, key: Key)
    requires Placed(h, level, source) && Partial(h, level, source, target, |source|, 0)
    requires h.Of(level, key) < |source| && h.Of(level + 1, key) < |target|
    ensures Get(h, level + 1, target, key) == Get(h, level, source, key)
  {
  }

  // ----- The dictionary -----

  class Dict<V(!new)> {
    const h: Hashing
    const undefined: V
    var level: nat
    var keys: seq<Key>
    var maxChain: nat
    var lengths: seq<nat>
    var table: Table<V>

    /** The table is exact in all its bookkeeping. */
    ghost predicate Valid()
      reads this
    {
      && h.Ok() && level < |h.sizes| && |table| == h.sizes[level]
      && Placed(h, level, table) && Counted(table, lengths) && Longest(table, maxChain)
      && Distinct(keys) && (forall key :: key in keys <==> Maps(key).Some?)
    }

    /** What the dictionary maps a key to. */
    ghost function Maps(key: Key): Option<V>
      reads this
    {
      Get(h, level, table, key)
    }

    constructor (h: Hashing, undefined: V)
      requires h.Ok()
      ensures Valid() && keys == [] && this.h == h && this.undefined == undefined
    {
      this.h, this.undefined := h, undefined;
      level, keys, maxChain := 0, [], 0;
      lengths := seq(h.sizes[0], _ => 0);
      table := seq(h.sizes[0], _ => []);
    }

    /** The value of a key. */
    method Find(key: Key) returns (r: Option<V>)
      requires Valid()
      ensures r == Maps(key) && (r.Some? <==> key in keys)
    {
      var chain := table[h.slot(level, h.hash(key))];
      var i := 0;
      while i < |chain| && !(chain[i].hash == h.hash(key) && chain[i].key == key)
        invariant i <= |chain| && forall j :: 0 <= j < i ==> chain[j].key != key
      {
        assert PlacedChain(h, level, h.Of(level, key), chain) && PlacedNode(h, level, h.Of(level, key), chain[i]);
        i := i + 1;
      }
      if i == |chain| {
        return None;
      }
      LookupIffNode(chain, chain[i]);
      return Some(chain[i].value);
    }

    /** Move all nodes to the next level. Nothing that can be looked up changes. */
    method Promote()
      requires Valid() && level + 1 < |h.sizes|
      modifies this`level, this`table, this`lengths, this`maxChain
      ensures Valid() && level == old(level) + 1
      ensures forall key :: Maps(key) == old(Maps(key))
    {
      hide Placed, Counted, Longest, Partial, Get, Added;
      var from, source := level, table;
      var next := from + 1;
      var target: Table<V> := seq(h.sizes[next], _ => []);
      var counts: seq<nat> := seq(h.sizes[next], _ => 0);
      var longest := 0;
      EmptyTarget(h, from, source, h.sizes[next]);
      var i := 0;
      while i < |source|
        invariant i <= |source| && |target| == h.sizes[next]
        invariant Partial(h, from, source, target, i, 0)
        invariant Counted(target, counts) && Longest(target, longest)
      {
        var j := 0;
        while j < |source[i]|
          invariant j <= |source[i]| && |target| == h.sizes[next]
          invariant Partial(h, from, source, target, i, j)
          invariant Counted(target, counts) && Longest(target, longest)
        {
          var node := source[i][j];
          var s := h.slot(next, node.hash);
          MoveOne(h, from, source, target, i, j);
          AddedIsCounted(target, s, node, counts, longest);
          LengthAt(target, counts, s);
          AddedSize(target, s, node);
          target := Added(target, s, node);
          counts := counts[s := counts[s] + 1];
          if longest < counts[s] {
            longest := counts[s];
          }
          j := j + 1;
        }
        NextChain(h, from, source, target, i);
        i := i + 1;
      }
      forall key
        ensures Get(h, next, target, key) == Get(h, from, source, key)
      {
        PromotedMaps(h, from, source, target, key);
      }
      PartialIsPlaced(h, from, source, target, |source|, 0);
      level, table, lengths, maxChain := next, target, counts, longest;
    }

    /** A new node makes a chain too long, and there is another level to move to. */
    predicate Crowded(key: Key)
      requires h.Of(level, key) < |table|
      reads this
    {
      (maxChain > MAX_CHAIN || |table[h.Of(level, key)]| >= MAX_CHAIN) && level + 1 < |h.sizes|
    }

    /** A new key, with an undefined value. The table is promoted iff its longest chain is then too long. */
    method Create(key: Key)
      requires Valid() && Maps(key).None?
      modifies this
      ensures Valid() && keys == old(keys) + [key]
      ensures forall k :: Maps(k) == if k == key then Some(undefined) else old(Maps(k))
      ensures old(h.Of(level, key) < |table|) && level == if old(Crowded(key)) then old(level) + 1 else old(level)
      ensures var chains, slot := old(table), h.Of(old(level), key);
              var tooLong := |chains[slot]| + 1 > 8 || exists s :: 0 <= s < |chains| && |chains[s]| > 8;
              level == old(level) + 1 <==> tooLong && old(level) + 1 < |h.sizes|
    {
      LongestIsLong(table, maxChain);
      AddNode(key);
      if maxChain > MAX_CHAIN && level + 1 < |h.sizes| {
        Promote();
      }
    }

    /** Add a node for a new key to the chain of its slot. */
    method AddNode(key: Key)
      requires Valid() && Maps(key).None?
      modifies this`table, this`lengths, this`keys, this`maxChain
      ensures Valid() && keys == old(keys) + [key]
      ensures forall k :: Maps(k) == if k == key then Some(undefined) else old(Maps(k))
      ensures var s := h.Of(level, key);
              s < |old(table)| && maxChain == if old(maxChain) <= |old(table)[s]| then |old(table)[s]| + 1 else old(maxChain)
    {
      hide Placed, Counted, Longest, Position;
      var s, node := h.slot(level, h.hash(key)), Node(h.hash(key), key, undefined);
      LookupNone(table[s], key);
      AddedIsPlaced(h, level, table, s, node);
      AddedIsCounted(table, s, node, lengths, maxChain);
      LengthAt(table, lengths, s);
      forall k
        ensures Get(h, level, Added(table, s, node), k) == if k == key then Some(undefined) else Maps(k)
      {
        AddedMaps(h, level, table, s, node, k);
      }
      assert key !in keys;
      table := Added(table, s, node);
      lengths := lengths[s := lengths[s] + 1];
      keys := keys + [key];
      if maxChain < lengths[s] {
        maxChain := lengths[s];
      }
    }

    /** Write a value into the node of a key. */
    method Assign(key: Key, value: V)
      requires Valid() && Maps(key).Some?
      modifies this`table
      ensures Valid()
      ensures forall k :: Maps(k) == if k == key then Some(value) else old(Maps(k))
    {
      var s := h.slot(level, h.hash(key));
      var i := Position(table[s], key).value;
      ReplacedMaps(h, level, table, s, i, value);
      table := table[s := table[s][i := table[s][i].(value := value)]];
    }

    /** Set the value of a key. A new key comes last in the order of keys. */
    method Set(key: Key, value: V)
      requires Valid()
      modifies this
      ensures Valid()
      ensures forall k :: Maps(k) == if k == key then Some(value) else old(Maps(k))
      ensures keys == if key in old(keys) then old(keys) else old(keys) + [key]
      ensures old(h.Of(level, key) < |table|)
              && level == if key !in old(keys) && old(Crowded(key)) then old(level) + 1 else old(level)
    {
      var found := Find(key);
      if found.None? {
        Create(key);
      }
      Assign(key, value);
    }
  }
}
