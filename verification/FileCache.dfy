/**
 The file cache of a worker thread: a table of loaded files with a least-recently-used list and a
 size limit. Handles may be closed by other threads at any point inside an open.
 */
module FileCache {
  import opened Wrappers
  import opened Sequences
  import opened PowersOfTwo
  import opened LruList
  import opened CacheEviction

  /** A slot of the cache. The reference count is kept apart, because other threads change it. */
  datatype Entry = Entry(valid: bool, key: nat, stamp: int, data: seq<int>)

  /** What the file system says about a file when it is opened. */
  datatype Disk = Missing | OnDisk(content: seq<int>, changed: int, openable: bool, readable: bool)

  datatype Handle = Cached(slot: nat) | Direct | Failed

  datatype Known = Unknown | Changed | InCache | NoFile

  datatype Match = Fresh | Expired | Other

  /** Whether an entry holds the file with this key, and whether it is too old to be believed. */
  function Matches(e: Entry, key: nat, now: int, ttl: nat): Match {
    if !e.valid || e.key != key then Other
    else if (now - e.stamp) % WORD > ttl then Expired
    else Fresh
  }

  /** The entry can be used for the file: it is fresh, or the file has not changed since it was loaded. */
  predicate Usable(e: Entry, key: nat, disk: Disk, now: int, ttl: nat) {
    match Matches(e, key, now, ttl)
    case Fresh => true
    case Expired => disk.OnDisk? && disk.changed < e.stamp
    case Other => false
  }

  /** The entry after it has been found usable. */
  function Confirmed(e: Entry, key: nat, now: int, ttl: nat): Entry {
    if Matches(e, key, now, ttl).Expired? then e.(stamp := now) else e
  }

  function Sizes(entries: seq<Entry>): (sizes: seq<nat>)
    ensures |sizes| == |entries| && forall s :: 0 <= s < |entries| ==> sizes[s] == |entries[s].data|
  {
    seq(|entries|, s requires 0 <= s < |entries| => |entries[s].data|)
  }

  /** The list holds each valid slot once, and the data size is theirs and within the limit. */
  ghost predicate Listed(entries: seq<Entry>, links: Links, order: seq<nat>, dataSize: nat, limit: nat) {
    && links.Hold(order) && |links.prev| == |entries|
    && (forall s :: 0 <= s < |entries| ==> (entries[s].valid <==> s in order))
    && dataSize == Total(order, Sizes(entries)) <= limit
  }

  /** The reference counts count the open handles, which only valid slots have. */
  ghost predicate Referenced(entries: seq<Entry>, refs: seq<nat>, handles: multiset<nat>) {
    && |refs| == |entries|
    && (forall s :: 0 <= s < |refs| ==> refs[s] == handles[s] && (handles[s] > 0 ==> entries[s].valid))
    && (forall s :: s in handles ==> s < |refs|)
  }

  /** The list is in the order of the last uses, the latest first. */
  ghost predicate Recent(order: seq<nat>, lastUse: seq<nat>, clock: nat) {
    && (forall i :: 0 <= i < |order| ==> order[i] < |lastUse| && lastUse[order[i]] < clock)
    && (forall i, j :: 0 <= i < j < |order| ==> lastUse[order[i]] > lastUse[order[j]])
  }

  /** Only the slots in the list stay valid. */
  function OnlyListed(entries: seq<Entry>, order: seq<nat>): (kept: seq<Entry>)
    ensures |kept| == |entries|
  {
    seq(|entries|, s requires 0 <= s < |entries| => entries[s].(valid := entries[s].valid && s in order))
  }

  // ----- What the operations do to the list -----

  lemma Invalidated(entries: seq<Entry>, links: Links, order: seq<nat>, dataSize: nat, limit: nat, i: nat)
    requires Listed(entries, links, order, dataSize, limit) && i < |order|
    ensures order[i] < |entries| && |links.prev| == |links.next| == |entries|
    ensures links.prev[order[i]] == At(order, i - 1) && links.next[order[i]] == At(order, i + 1)
    ensures (i > 0 ==> order[i - 1] < |links.prev|) && (i + 1 < |order| ==> order[i + 1] < |links.prev|)
    ensures dataSize >= |entries[order[i]].data|
    ensures Listed(entries[order[i] := entries[order[i]].(valid := false)], links.Remove(order[i]), Without(order, i),
                   dataSize - |entries[order[i]].data|, limit)
  {
    hide Without, Links.Hold, Links.Remove;
    InRange(links, order);
    RemoveHolds(links, order, i);
    RemoveKeepsSize(links, order[i]);
    var s := order[i];
    var after := entries[s := entries[s].(valid := false)];
    HoldIsDifferent(links, order);
    WithoutIsRest(order, i);
    TotalWithout(order, Sizes(entries), i);
    WithoutBelow(order, i, |entries|);
    TotalAgrees(Without(order, i), Sizes(entries), Sizes(after));
  }

  lemma InRange(links: Links, order: seq<nat>)
    requires links.Hold(order)
    ensures forall i :: 0 <= i < |order| ==> order[i] < |links.prev|
  {
  }

  lemma HoldIsDifferent(links: Links, order: seq<nat>)
    requires links.Hold(order)
    ensures Distinct(order) && |links.prev| == |links.next|
  {
  }

  lemma WithoutBelow(order: seq<nat>, i: nat, n: nat)
    requires i < |order| && forall k :: 0 <= k < |order| ==> order[k] < n
    ensures forall k :: 0 <= k < |Without(order, i)| ==> Without(order, i)[k] < n
  {
  }

  lemma Filled(entries: seq<Entry>, links: Links, order: seq<nat>, dataSize: nat, limit: nat, s: nat, e: Entry)
    requires Listed(entries, links, order, dataSize, limit) && s < |entries| && !entries[s].valid && e.valid
    requires dataSize + |e.data| <= limit
    ensures |links.prev| == |links.next| == |entries| && (links.first.Some? ==> links.first.value < |links.prev|)
    ensures Listed(entries[s := e], links.Add(s), [s] + order, dataSize + |e.data|, limit)
  {
    hide Links.Hold, Links.Add;
    InRange(links, order);
    HoldIsDifferent(links, order);
    AddHolds(links, order, s);
    var after := entries[s := e];
    TotalAgrees(order, Sizes(entries), Sizes(after));
    assert ([s] + order)[1..] == order;
    InRange(links.Add(s), [s] + order);
    AddKeepsSize(links, s);
  }

  lemma AddKeepsSize(links: Links, s: nat)
    requires s < |links.prev| == |links.next| && (links.first.Some? ==> links.first.value < |links.prev|)
    ensures |links.Add(s).prev| == |links.prev|
  {
  }

  lemma RemoveKeepsSize(links: Links, s: nat)
    requires s < |links.prev| == |links.next|
    requires links.prev[s].Some? ==> links.prev[s].value < |links.next|
    requires links.next[s].Some? ==> links.next[s].value < |links.prev|
    ensures |links.Remove(s).prev| == |links.prev|
  {
  }

  lemma Touched(entries: seq<Entry>, links: Links, order: seq<nat>, dataSize: nat, limit: nat, i: nat)
    requires Listed(entries, links, order, dataSize, limit) && i < |order|
    ensures order[i] < |entries| && |links.prev| == |links.next| == |entries|
    ensures links.prev[order[i]] == At(order, i - 1) && links.next[order[i]] == At(order, i + 1)
    ensures (i > 0 ==> order[i - 1] < |links.prev|) && (i + 1 < |order| ==> order[i + 1] < |links.prev|)
    ensures var less := links.Remove(order[i]);
            && |less.prev| == |less.next| == |entries| && (less.first.Some? ==> less.first.value < |less.prev|)
            && Listed(entries, less.Add(order[i]), [order[i]] + Without(order, i), dataSize, limit)
  {
    hide Listed, Links.Hold, Links.Remove, Links.Add, Total, Without;
    Invalidated(entries, links, order, dataSize, limit, i);
    var s := order[i];
    var gone := entries[s := entries[s].(valid := false)];
    ListedIsValid(entries, links, order, dataSize, limit, i);
    RemoveKeepsSize(links, s);
    Filled(gone, links.Remove(s), Without(order, i), dataSize - |entries[s].data|, limit, s, entries[s]);
    assert gone[s := entries[s]] == entries;
  }

  lemma ListedIsValid(entries: seq<Entry>, links: Links, order: seq<nat>, dataSize: nat, limit: nat, i: nat)
    requires Listed(entries, links, order, dataSize, limit) && i < |order|
    ensures order[i] < |entries| && entries[order[i]].valid && dataSize <= limit
  {
  }

  lemma PositionOf(entries: seq<Entry>, links: Links, order: seq<nat>, dataSize: nat, limit: nat, s: nat) returns (i: nat)
    requires Listed(entries, links, order, dataSize, limit) && s < |entries| && entries[s].valid
    ensures i < |order| && order[i] == s
  {
    i :| 0 <= i < |order| && order[i] == s;
  }

  lemma ListedNeighbours(entries: seq<Entry>, links: Links, order: seq<nat>, dataSize: nat, limit: nat, i: nat)
    requires Listed(entries, links, order, dataSize, limit) && i < |order|
    ensures order[i] < |entries| == |links.prev| && links.prev[order[i]] == At(order, i - 1)
  {
  }

  lemma ListedLast(entries: seq<Entry>, links: Links, order: seq<nat>, dataSize: nat, limit: nat)
    requires Listed(entries, links, order, dataSize, limit)
    ensures links.last == At(order, |order| - 1)
  {
  }

  lemma RecentWithout(order: seq<nat>, lastUse: seq<nat>, clock: nat, i: nat)
    requires Recent(order, lastUse, clock) && i < |order|
    ensures Recent(Without(order, i), lastUse, clock)
  {
    hide Without;
    WithoutSize(order, i);
    var rest := Without(order, i);
    forall a | 0 <= a < |rest|
      ensures rest[a] == order[if a < i then a else a + 1]
    {
      WithoutAt(order, i, a);
    }
  }

  lemma RecentInFront(order: seq<nat>, lastUse: seq<nat>, clock: nat, s: nat)
    requires Recent(order, lastUse, clock) && s < |lastUse| && s !in order
    ensures Recent([s] + order, lastUse[s := clock], clock + 1)
  {
    var after, now := [s] + order, lastUse[s := clock];
    assert forall i :: 0 < i < |after| ==> after[i] == order[i - 1] && after[i] in order;
    assert forall i :: 0 < i < |after| ==> now[after[i]] == lastUse[order[i - 1]];
  }

  lemma NoHandle(entries: seq<Entry>, refs: seq<nat>, handles: Handles, s: nat)
    requires Referenced(entries, refs, handles) && s >= |entries|
    ensures handles - multiset{s} == handles
  {
    assert s !in handles;
  }

  lemma References(entries: seq<Entry>, refs: seq<nat>, handles: Handles, s: nat)
    requires Referenced(entries, refs, handles) && s < |entries|
    ensures s < |refs| && (refs[s] > 0 <==> s in handles) && (s in handles ==> entries[s].valid)
  {
  }

  lemma ListedIsDistinct(entries: seq<Entry>, links: Links, order: seq<nat>, dataSize: nat, limit: nat)
    requires Listed(entries, links, order, dataSize, limit)
    ensures Distinct(order) && forall i :: 0 <= i < |order| ==> order[i] < |entries|
  {
    InRange(links, order);
  }

  lemma ListedTotal(entries: seq<Entry>, links: Links, order: seq<nat>, dataSize: nat, limit: nat)
    requires Listed(entries, links, order, dataSize, limit)
    ensures dataSize == Total(order, Sizes(entries))
  {
  }

  lemma NotListed(entries: seq<Entry>, links: Links, order: seq<nat>, dataSize: nat, limit: nat, s: nat)
    requires Listed(entries, links, order, dataSize, limit) && s < |entries| && !entries[s].valid
    ensures s !in order && |links.prev| == |links.next| == |entries|
  {
  }

  lemma SameSizes(files: seq<Entry>, entries: seq<Entry>, s: nat)
    requires s < |files| && (entries == files || entries == files[s := files[s].(valid := false)])
    ensures Sizes(entries) == Sizes(files)
  {
  }

  lemma NotLeft(order: seq<nat>, handles: Handles, others: Schedule, k: nat, s: nat)
    requires k <= |order| && s !in order
    ensures s !in LeftAfter(order, handles, others, k)
  {
    if s in LeftAfter(order, handles, others, k) {
      LeftIsListed(order, handles, others, k, s);
    }
  }

  lemma OnlyListedAgain(files: seq<Entry>, entries: seq<Entry>, order: seq<nat>, s: nat)
    requires s < |files| && entries == files[s := files[s].(valid := false)] && s !in order
    ensures OnlyListed(entries, order) == OnlyListed(files, order)
  {
  }

  lemma OnlyListedAt(files: seq<Entry>, order: seq<nat>, s: nat)
    requires s < |files| && s !in order
    ensures !OnlyListed(files, order)[s].valid
  {
  }

  lemma InFrontOnly(left: seq<nat>, s: nat)
    requires s !in left
    ensures Removed([s] + left, s) == left
  {
    assert ([s] + left)[1..] == left;
    RemovedElements(left, s);
  }

  lemma OnlyListedOf(entries: seq<Entry>, links: Links, order: seq<nat>, dataSize: nat, limit: nat)
    requires Listed(entries, links, order, dataSize, limit)
    ensures OnlyListed(entries, order) == entries
  {
  }

  /** Taking one more slot out of the list. */
  lemma OneLessListed(entries: seq<Entry>, order: seq<nat>, i: nat)
    requires i < |order| && order[i] < |entries| && Distinct(order)
    ensures OnlyListed(entries, Without(order, i)) ==
            OnlyListed(entries, order)[order[i] := OnlyListed(entries, order)[order[i]].(valid := false)]
  {
    hide Without;
    WithoutIsRest(order, i);
  }

  lemma SizesKept(entries: seq<Entry>, order: seq<nat>)
    ensures Sizes(OnlyListed(entries, order)) == Sizes(entries)
  {
  }

  /** One look of an eviction, at position `p`. */
  lemma EvictStep(files: seq<Entry>, start: seq<nat>, used: Handles, others: Schedule, p: nat)
    requires p < |start| && Distinct(LeftAfter(start, used, others, p + 1)) && |LeftAfter(start, used, others, p + 1)| > p
    requires LeftAfter(start, used, others, p + 1)[p] < |files|
    ensures AfterBatches(used, others, |start| - p) ==
            AfterClosing(AfterBatches(used, others, |start| - p - 1), others(|start| - p - 1))
    ensures var before, after := LeftAfter(start, used, others, p + 1), LeftAfter(start, used, others, p);
            var busy := before[p] in AfterBatches(used, others, |start| - p);
            && after == (if busy then before else Without(before, p))
            && OnlyListed(files, after) ==
               (if busy then OnlyListed(files, before)
                else OnlyListed(files, before)[before[p] := OnlyListed(files, before)[before[p]].(valid := false)])
            && At(after, p - 1) == At(before, p - 1) && |after| >= p
  {
    hide LeftAfter, AfterBatches, AfterClosing, InUse, OnlyListed, At, Without;
    OneBatch(used, others, |start| - p - 1);
    OneLook(start, used, others, p);
    LookedAt(start, used, others, p);
    OneLessListed(files, LeftAfter(start, used, others, p + 1), p);
    LeftIsLong(start, used, others, p);
  }

  /**
   Loading a file into a slot without handles, from the files, the list and the handles before to those
   after: the other files that nobody uses are dropped down to position `k`, the least recently used
   first. The file is cached iff it then fits and can be read.
   */
  ghost predicate Loaded(files: seq<Entry>, start: seq<nat>, used: Handles, s: nat, key: nat, disk: Disk, now: int,
                         others: Schedule, limit: nat, h: Handle, k: nat, entries: seq<Entry>, order: seq<nat>, handles: Handles)
    requires s < |files| && disk.OnDisk?
  {
    var rest := Removed(start, s);
    && EvictsDownTo(rest, Sizes(files), used, others, |disk.content|, limit, k)
    && var left, room := LeftAfter(rest, used, others, k), Fits(rest, Sizes(files), used, others, |disk.content|, limit, k);
       && h == (if !room then Direct else if disk.readable then Cached(s) else Failed)
       && order == (if h.Cached? then [s] + left else left)
       && handles == AfterBatches(used, others, |rest| - k) + (if h.Cached? then multiset{s} else multiset{})
       && entries == (if room then OnlyListed(files, left)[s := Entry(disk.readable, key, now, disk.content)]
                      else OnlyListed(files, left))
  }

  /** A file that still has a handle afterwards, other than the new one, has not been dropped or replaced. */
  lemma OpenFilesStay(files: seq<Entry>, refs: seq<nat>, links: Links, start: seq<nat>, dataSize: nat, used: Handles,
                      s: nat, key: nat, disk: Disk, now: int, others: Schedule, limit: nat, h: Handle, k: nat,
                      entries: seq<Entry>, order: seq<nat>, handles: Handles, t: nat)
    requires Listed(files, links, start, dataSize, limit) && Referenced(files, refs, used)
    requires s < |files| && s !in used && disk.OnDisk?
    requires Loaded(files, start, used, s, key, disk, now, others, limit, h, k, entries, order, handles)
    requires t in if h.Cached? then handles - multiset{s} else handles
    ensures t < |entries| == |files| && entries[t] == files[t]
  {
    hide Listed, Total, AfterBatches, LeftAfter;
    var rest := Removed(start, s);
    NoBatches(used, others);
    BatchesTakeAway(used, others, 0, |rest| - k);
    assert t in AfterBatches(used, others, |rest| - k);
    References(files, refs, used, t);
    ValidIsListed(files, links, start, dataSize, limit, t);
    RemovedElements(start, s);
    OpenSurvives(rest, used, others, k, t);
  }

  lemma ValidIsListed(entries: seq<Entry>, links: Links, order: seq<nat>, dataSize: nat, limit: nat, s: nat)
    requires Listed(entries, links, order, dataSize, limit) && s < |entries|
    ensures entries[s].valid <==> s in order
  {
  }

  class Cache {
    const slotOf: nat -> nat
    const ttl: nat
    const maxFile: nat
    const limit: nat
    var entries: seq<Entry>
    var refs: seq<nat>
    var links: Links
    var dataSize: nat
    ghost var order: seq<nat>
    ghost var handles: Handles
    /** When each slot was last used, by a clock that every use advances. */
    ghost var lastUse: seq<nat>
    ghost var clock: nat

    ghost predicate Valid()
      reads this
    {
      && Listed(entries, links, order, dataSize, limit)
      && Referenced(entries, refs, handles)
      && |lastUse| == |entries| && Recent(order, lastUse, clock)
      && (forall key :: slotOf(key) < |entries|)
    }

    /** An empty cache. */
    constructor (slots: nat, slotOf: nat -> nat, ttl: nat, maxFile: nat, limit: nat)
      requires forall key :: slotOf(key) < slots
      ensures Valid() && order == [] && handles == multiset{} && |entries| == slots
      ensures this.slotOf == slotOf && this.limit == limit && this.ttl == ttl && this.maxFile == maxFile
    {
      this.slotOf, this.ttl, this.maxFile, this.limit := slotOf, ttl, maxFile, limit;
      entries := seq(slots, _ => Entry(false, 0, 0, []));
      refs := seq(slots, _ => 0);
      links := Links(seq(slots, _ => None), seq(slots, _ => None), None, None);
      dataSize, order, handles := 0, [], multiset{};
      lastUse, clock := seq(slots, _ => 0), 0;
    }

    /** Close a handle: the reference count goes down by one, atomically. */
    method Close(s: nat) returns (ok: bool)
      requires Valid() && s < |entries|
      modifies this`refs, this`handles
      ensures Valid()
      ensures ok <==> s in old(handles)
      ensures handles == old(handles) - multiset{s}
    {
      hide Listed, Recent;
      ok := refs[s] > 0;
      if ok {
        refs := refs[s := refs[s] - 1];
        handles := handles - multiset{s};
      }
      assert !ok ==> handles - multiset{s} == handles;
    }

    /** Handles that other threads close in the meantime. */
    method OthersClose(batch: seq<nat>)
      requires Valid()
      modifies this`refs, this`handles
      ensures Valid() && handles == AfterClosing(old(handles), batch)
    {
      hide Listed, Recent, Referenced, AfterClosing;
      NoneClosed(handles, batch);
      for i := 0 to |batch|
        invariant Valid() && handles == AfterClosing(old(handles), batch[..i])
      {
        CloseOneMore(old(handles), batch, i);
        if batch[i] < |entries| {
          var ok := Close(batch[i]);
        } else {
          NoHandle(entries, refs, handles, batch[i]);
        }
      }
      assert batch[..|batch|] == batch;
    }

    /** Look at a file: drop it if nobody uses it any more. */
    method LookAt(victim: nat, batch: seq<nat>, ghost i: nat)
      requires Valid() && i < |order| && order[i] == victim < |entries|
      modifies this`entries, this`links, this`dataSize, this`order, this`refs, this`handles
      ensures Valid() && handles == AfterClosing(old(handles), batch)
      ensures order == if victim in handles then old(order) else Without(old(order), i)
      ensures entries == if victim in handles then old(entries) else old(entries)[victim := old(entries[victim]).(valid := false)]
    {
      hide Listed, Recent, Referenced, Without, AfterClosing;
      OthersClose(batch);
      References(entries, refs, handles, victim);
      if refs[victim] == 0 {
        Invalidate(victim, i);
      }
    }

    /** Drop the file in a slot that nobody uses. */
    method Invalidate(s: nat, ghost i: nat)
      requires Valid() && i < |order| && order[i] == s < |entries| && s !in handles
      modifies this`entries, this`links, this`dataSize, this`order
      ensures Valid() && entries == old(entries)[s := old(entries[s]).(valid := false)]
      ensures order == Without(old(order), i)
    {
      hide Listed, Links.Remove, Without, Recent;
      Invalidated(entries, links, order, dataSize, limit, i);
      RecentWithout(order, lastUse, clock, i);
      dataSize := dataSize - |entries[s].data|;
      entries := entries[s := entries[s].(valid := false)];
      links := links.Remove(s);
      order := Without(order, i);
    }

    /** Make a slot the most recently used one. */
    method Touch(s: nat)
      requires Valid() && s < |entries| && entries[s].valid
      modifies this`links, this`order, this`lastUse, this`clock
      ensures Valid() && order == [s] + Removed(old(order), s)
      ensures lastUse == old(lastUse)[s := old(clock)] && clock == old(clock) + 1
    {
      hide Listed, Links.Remove, Links.Add, Without, Removed, Recent;
      ghost var i := PositionOf(entries, links, order, dataSize, limit, s);
      Touched(entries, links, order, dataSize, limit, i);
      ListedIsDistinct(entries, links, order, dataSize, limit);
      WithoutIsRemoved(order, i);
      WithoutIsRest(order, i);
      RecentWithout(order, lastUse, clock, i);
      RecentInFront(Without(order, i), lastUse, clock, s);
      links := links.Remove(s).Add(s);
      order := [s] + Without(order, i);
      lastUse, clock := lastUse[s := clock], clock + 1;
    }

    /** A handle for a valid slot. */
    method CreateCached(s: nat) returns (h: Handle)
      requires Valid() && s < |entries| && entries[s].valid
      modifies this`refs, this`handles, this`links, this`order, this`lastUse, this`clock
      ensures Valid() && h == Cached(s) && handles == old(handles) + multiset{s}
      ensures order == [s] + Removed(old(order), s)
      ensures lastUse == old(lastUse)[s := old(clock)] && clock == old(clock) + 1
    {
      hide Listed, Recent, Removed;
      refs := refs[s := refs[s] + 1];
      handles := handles + multiset{s};
      Touch(s);
      h := Cached(s);
    }

    /**
     Drop unused files, the least recently used first, until `size` more bytes fit. Other threads may
     close handles before each look. The list is left as far as position `k`, behind it only the slots
     that were in use are left, and the walk stops as soon as there is room.
     */
    method Evict(size: nat, others: Schedule) returns (ghost k: nat)
      requires Valid()
      modifies this`entries, this`links, this`dataSize, this`order, this`refs, this`handles
      ensures Valid()
      ensures k <= |old(order)| && EvictsDownTo(old(order), Sizes(old(entries)), old(handles), others, size, limit, k)
      ensures order == LeftAfter(old(order), old(handles), others, k)
      ensures handles == AfterBatches(old(handles), others, |old(order)| - k)
      ensures entries == OnlyListed(old(entries), order)
    {
      hide Listed, Recent, Referenced, Without, LeftAfter, AfterBatches, AfterClosing, InUse, OnlyListed, Total, Sizes, Fits, At;
      ghost var start, used, files := order, handles, entries;
      k := |start|;
      ListedLast(entries, links, order, dataSize, limit);
      OnlyListedOf(entries, links, order, dataSize, limit);
      NothingLookedAt(start, used, others);
      NoBatches(used, others);
      var cur := links.last;
      var step := 0;
      while cur.Some? && dataSize + size > limit
        invariant Valid() && k <= |start| && k <= |order| && step == |start| - k
        invariant order == LeftAfter(start, used, others, k) && cur == At(order, k - 1)
        invariant handles == AfterBatches(used, others, |start| - k)
        invariant entries == OnlyListed(files, order)
        invariant forall j :: k < j <= |start| ==> !Fits(start, Sizes(files), used, others, size, limit, j)
        decreases k
      {
        ListedTotal(entries, links, order, dataSize, limit);
        SizesKept(files, order);
        RoomNow(start, Sizes(files), used, others, size, limit, k);
        CurrentLook(order, k);
        var victim := cur.value;
        ListedNeighbours(entries, links, order, dataSize, limit, k - 1);
        ListedIsDistinct(entries, links, order, dataSize, limit);
        cur := links.prev[victim];
        EvictStep(files, start, used, others, k - 1);
        LookAt(victim, others(step), k - 1);
        k, step := k - 1, step + 1;
      }
      ListedTotal(entries, links, order, dataSize, limit);
      SizesKept(files, order);
      RoomNow(start, Sizes(files), used, others, size, limit, k);
      CurrentLook(order, k);
    }

    /** The file in a slot was found unchanged. */
    method Refresh(s: nat, now: int)
      requires Valid() && s < |entries|
      modifies this`entries
      ensures Valid() && entries == old(entries)[s := old(entries[s]).(stamp := now)]
    {
      hide Recent, Total, Links.Hold;
      var after := entries[s := entries[s].(stamp := now)];
      assert Sizes(after) == Sizes(entries);
      entries := after;
    }

    /** An invalid slot gets other contents, still invalid. */
    method Overwrite(s: nat, e: Entry)
      requires Valid() && s < |entries| && !entries[s].valid && !e.valid
      modifies this`entries
      ensures Valid() && entries == old(entries)[s := e]
    {
      hide Recent, Links.Hold;
      var after := entries[s := e];
      TotalAgrees(order, Sizes(entries), Sizes(after));
      entries := after;
    }

    /** A file goes into an invalid slot and becomes the most recently used one. */
    method Fill(s: nat, e: Entry)
      requires Valid() && s < |entries| && !entries[s].valid && e.valid && dataSize + |e.data| <= limit
      modifies this`entries, this`refs, this`links, this`order, this`dataSize, this`lastUse, this`clock
      ensures Valid() && entries == old(entries)[s := e] && order == [s] + old(order)
      ensures lastUse == old(lastUse)[s := old(clock)] && clock == old(clock) + 1
      ensures s !in old(order)
    {
      hide Listed, Links.Add, Recent;
      NotListed(entries, links, order, dataSize, limit, s);
      Filled(entries, links, order, dataSize, limit, s, e);
      RecentInFront(order, lastUse, clock, s);
      refs := refs[s := 0];
      entries := entries[s := e];
      links := links.Add(s);
      order := [s] + order;
      dataSize := dataSize + |e.data|;
      lastUse, clock := lastUse[s := clock], clock + 1;
    }

    /** Drop the file in a slot without handles, and other unused files as far as necessary. */
    method MakeRoom(s: nat, size: nat, others: Schedule) returns (ghost k: nat)
      requires Valid() && s < |entries| && s !in handles
      modifies this`entries, this`links, this`dataSize, this`order, this`refs, this`handles
      ensures Valid() && !entries[s].valid
      ensures k <= |Removed(old(order), s)|
      ensures EvictsDownTo(Removed(old(order), s), Sizes(old(entries)), old(handles), others, size, limit, k)
      ensures order == LeftAfter(Removed(old(order), s), old(handles), others, k)
      ensures handles == AfterBatches(old(handles), others, |Removed(old(order), s)| - k)
      ensures entries == OnlyListed(old(entries), order)
    {
      hide Listed, Without, Recent, Referenced, Removed, LeftAfter, AfterBatches, OnlyListed, Fits;
      ghost var files, start := entries, order;
      OnlyListedOf(entries, links, order, dataSize, limit);
      if entries[s].valid {
        ghost var i := PositionOf(entries, links, order, dataSize, limit, s);
        ListedIsDistinct(entries, links, order, dataSize, limit);
        WithoutIsRemoved(order, i);
        Invalidate(s, i);
      } else {
        NotListed(entries, links, order, dataSize, limit, s);
        RemovedElements(order, s);
      }
      SameSizes(files, entries, s);
      ghost var rest, used := order, handles;
      k := Evict(size, others);
      RemovedElements(start, s);
      NotLeft(rest, used, others, k, s);
      OnlyListedAgain(files, files[s := files[s].(valid := false)], order, s);
      OnlyListedAt(files, order, s);
    }

    /** Load a file into a slot without handles, if there is room after dropping unused files. */
    method Load(s: nat, key: nat, disk: Disk, now: int, others: Schedule) returns (h: Handle, ghost k: nat)
      requires Valid() && s < |entries| && s !in handles && disk.OnDisk?
      modifies this
      ensures Valid()
      ensures Loaded(old(entries), old(order), old(handles), s, key, disk, now, others, limit, h, k, entries, order, handles)
      ensures |lastUse| == |old(lastUse)| && lastUse == old(lastUse)[s := lastUse[s]]
      ensures h.Cached? || lastUse == old(lastUse)
      ensures h.Cached? ==> |entries| == |old(entries)| && h == Cached(s) && entries[s] == Entry(true, key, now, disk.content)
      ensures var rest := Removed(old(order), s);
              && k <= |rest|
              && var left := LeftAfter(rest, old(handles), others, k);
                 && (h == Direct <==> Total(left, Sizes(old(entries))) + |disk.content| > limit)
                 && (h == Failed ==> !disk.readable) && (h.Cached? ==> disk.readable)
                 && order == if h.Cached? then [s] + left else left
    {
      hide Listed, Without, Recent, Referenced, Removed, LeftAfter, AfterBatches, EvictsDownTo, OnlyListed;
      var size := |disk.content|;
      ghost var files := entries;
      k := MakeRoom(s, size, others);
      ListedTotal(entries, links, order, dataSize, limit);
      SizesKept(files, order);
      if dataSize + size > limit {
        h := Direct;
      } else if !disk.readable {
        Overwrite(s, Entry(false, key, now, disk.content));
        h := Failed;
      } else {
        ghost var left := order;
        Fill(s, Entry(true, key, now, disk.content));
        InFrontOnly(left, s);
        h := CreateCached(s);
      }
    }

    /**
     Open a file. Other threads close handles before the file is looked up, before the slot is tested
     for use, and before each look of an eviction. A usable entry is always used. Otherwise the file is
     read directly iff its slot is in use, it is too large, or dropping the files that nobody uses,
     least recently used first, does not make room; and else it is loaded. The slot of a cached file
     comes first in the list, all other slots keep their order.
     */
    method Open(key: nat, disk: Disk, now: int, others: Schedule, during: Schedule) returns (h: Handle, ghost k: nat)
      requires Valid()
      modifies this
      ensures Valid() && |entries| == |old(entries)|
      ensures var s, used := slotOf(key), AfterClosing(old(handles), others(0));
              Usable(old(entries)[s], key, disk, now, ttl) ==>
                && h == Cached(s) && handles == used + multiset{s} && order == [s] + Removed(old(order), s)
                && entries == old(entries)[s := Confirmed(old(entries)[s], key, now, ttl)]
      ensures var s, used := slotOf(key), AfterClosing(old(handles), others(0));
              !Usable(old(entries)[s], key, disk, now, ttl) && (disk.Missing? || !disk.openable) ==>
                h == Failed && handles == used && order == old(order) && entries == old(entries)
      ensures var s, used := slotOf(key), AfterClosing(AfterClosing(old(handles), others(0)), others(1));
              !Usable(old(entries)[s], key, disk, now, ttl) && disk.OnDisk? && disk.openable
              && ((old(entries)[s].valid && s in used) || |disk.content| > maxFile) ==>
                h == Direct && handles == used && order == old(order) && entries == old(entries)
      ensures var s, used := slotOf(key), AfterClosing(AfterClosing(old(handles), others(0)), others(1));
              !Usable(old(entries)[s], key, disk, now, ttl) && disk.OnDisk? && disk.openable
              && !(old(entries)[s].valid && s in used) && |disk.content| <= maxFile ==>
                Loaded(old(entries), old(order), used, s, key, disk, now, during, limit, h, k, entries, order, handles)
      ensures |lastUse| == |old(lastUse)| && lastUse == old(lastUse)[slotOf(key) := lastUse[slotOf(key)]]
      ensures h.Cached? || lastUse == old(lastUse)
      ensures h.Cached? ==> h.slot == slotOf(key) && entries[h.slot].valid && entries[h.slot].key == key
      ensures var e := old(entries)[slotOf(key)];
              e.valid && e.key == key && ((now - e.stamp) % WORD <= ttl || (disk.OnDisk? && disk.changed < e.stamp)) ==>
                h == Cached(slotOf(key)) && entries[h.slot].data == e.data
                && entries[h.slot].stamp == if (now - e.stamp) % WORD <= ttl then e.stamp else now
      ensures var e := old(entries)[slotOf(key)];
              h.Cached?
              && !(e.valid && e.key == key && ((now - e.stamp) % WORD <= ttl || (disk.OnDisk? && disk.changed < e.stamp))) ==>
                disk.OnDisk? && entries[h.slot].data == disk.content && entries[h.slot].stamp == now
    {
      hide Listed, Recent, Referenced, AfterClosing, Loaded, Removed;
      k := 0;
      OthersClose(others(0));
      var s := slotOf(key);
      var found := Matches(entries[s], key, now, ttl);
      if found.Fresh? {
        h := CreateCached(s);
        return;
      }
      if disk.Missing? {
        return Failed, 0;
      }
      if found.Expired? && disk.changed < entries[s].stamp {
        Refresh(s, now);
        h := CreateCached(s);
        return;
      }
      if !disk.openable {
        return Failed, 0;
      }
      h, k := Read(s, key, disk, now, others(1), during);
    }

    /** Read a file that the cache does not have: through the cache unless its slot is in use or it is too large. */
    method Read(s: nat, key: nat, disk: Disk, now: int, batch: seq<nat>, during: Schedule) returns (h: Handle, ghost k: nat)
      requires Valid() && s < |entries| && disk.OnDisk?
      modifies this
      ensures Valid()
      ensures var used := AfterClosing(old(handles), batch);
              (old(entries)[s].valid && s in used) || |disk.content| > maxFile ==>
                h == Direct && handles == used && order == old(order) && entries == old(entries)
      ensures var used := AfterClosing(old(handles), batch);
              !(old(entries)[s].valid && s in used) && |disk.content| <= maxFile ==>
                Loaded(old(entries), old(order), used, s, key, disk, now, during, limit, h, k, entries, order, handles)
      ensures |lastUse| == |old(lastUse)| && lastUse == old(lastUse)[s := lastUse[s]]
      ensures h.Cached? || lastUse == old(lastUse)
      ensures h.Cached? ==> |entries| == |old(entries)| && h == Cached(s) && entries[s] == Entry(true, key, now, disk.content)
    {
      hide Listed, Recent, Referenced, AfterClosing, Loaded;
      k := 0;
      OthersClose(batch);
      References(entries, refs, handles, s);
      if entries[s].valid && refs[s] > 0 {
        return Direct, 0;
      }
      if |disk.content| > maxFile {
        return Direct, 0;
      }
      h, k := Load(s, key, disk, now, during);
    }

    /**
     What is known about a file without opening it: it is in the cache, it was but has changed, or it
     is not. A file found in the cache counts as used.
     */
    method Status(key: nat, disk: Disk, now: int) returns (status: Known)
      requires Valid()
      modifies this`entries, this`links, this`order, this`lastUse, this`clock
      ensures Valid()
      ensures var s := slotOf(key); var e := old(entries)[s];
              status == if Usable(e, key, disk, now, ttl) then InCache
                        else if Matches(e, key, now, ttl).Other? then Unknown
                        else if disk.Missing? then NoFile
                        else Changed
      ensures var s := slotOf(key);
              && order == (if status.InCache? then [s] + Removed(old(order), s) else old(order))
              && entries == old(entries)[s := if status.InCache? then Confirmed(old(entries)[s], key, now, ttl) else old(entries)[s]]
      ensures var e := old(entries)[slotOf(key)];
              && (status.Unknown? <==> !e.valid || e.key != key)
              && (status.InCache? <==>
                    e.valid && e.key == key && ((now - e.stamp) % WORD <= ttl || (disk.OnDisk? && disk.changed < e.stamp)))
              && (status.Changed? ==> disk.OnDisk? && disk.changed >= e.stamp)
              && (status.NoFile? ==> disk.Missing?)
      ensures var e := old(entries)[slotOf(key)];
              status.InCache? ==>
                entries[slotOf(key)] == e.(stamp := if (now - e.stamp) % WORD <= ttl then e.stamp else now)
    {
      hide Listed, Recent, Referenced, Removed;
      var s := slotOf(key);
      var found := Matches(entries[s], key, now, ttl);
      if found.Fresh? {
        Touch(s);
        return InCache;
      }
      if found.Other? {
        return Unknown;
      }
      if disk.Missing? {
        return NoFile;
      }
      if disk.changed >= entries[s].stamp {
        return Changed;
      }
      Refresh(s, now);
      Touch(s);
      return InCache;
    }
  }
}
