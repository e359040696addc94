/**
 Which files an eviction drops: the list of slots, most recently used first, is walked from its end,
 and a slot is dropped if nobody uses it at the moment it is looked at. Other threads may close
 handles before every look.
 */
module CacheEviction {
  import opened Sequences
  import opened Wrappers
  import opened LruList

  type Handles = multiset<nat>

  /** For every look, the slots of which another thread closes a handle before it. */
  type Schedule = nat -> seq<nat>

  function AfterClosing(handles: Handles, batch: seq<nat>): Handles {
    if |batch| == 0 then handles else AfterClosing(handles, batch[..|batch| - 1]) - multiset{batch[|batch| - 1]}
  }

  function AfterBatches(handles: Handles, others: Schedule, n: nat): Handles {
    if n == 0 then handles else AfterClosing(AfterBatches(handles, others, n - 1), others(n - 1))
  }

  lemma NoneClosed(handles: Handles, batch: seq<nat>)
    ensures AfterClosing(handles, batch[..0]) == handles
  {
  }

  lemma CloseOneMore(handles: Handles, batch: seq<nat>, i: nat)
    requires i < |batch|
    ensures AfterClosing(handles, batch[..i + 1]) == AfterClosing(handles, batch[..i]) - multiset{batch[i]}
  {
    assert batch[..i + 1][..i] == batch[..i];
  }

  lemma NoBatches(handles: Handles, others: Schedule)
    ensures AfterBatches(handles, others, 0) == handles
  {
  }

  lemma OneBatch(handles: Handles, others: Schedule, n: nat)
    ensures AfterBatches(handles, others, n + 1) == AfterClosing(AfterBatches(handles, others, n), others(n))
  {
  }

  lemma {:induction false} ClosingTakesAway(handles: Handles, batch: seq<nat>)
    ensures AfterClosing(handles, batch) <= handles
    decreases |batch|
  {
    if |batch| > 0 {
      ClosingTakesAway(handles, batch[..|batch| - 1]);
    }
  }

  lemma {:induction false} BatchesTakeAway(handles: Handles, others: Schedule, m: nat, n: nat)
    requires m <= n
    ensures AfterBatches(handles, others, n) <= AfterBatches(handles, others, m)
  {
    if m < n {
      BatchesTakeAway(handles, others, m, n - 1);
      ClosingTakesAway(AfterBatches(handles, others, n - 1), others(n - 1));
    }
  }

  /** The slot at position `p` had a handle when it was looked at: the last position is looked at first. */
  predicate InUse(order: seq<nat>, handles: Handles, others: Schedule, p: nat)
    requires p < |order|
  {
    order[p] in AfterBatches(handles, others, |order| - p)
  }

  lemma LookedAt(order: seq<nat>, handles: Handles, others: Schedule, p: nat)
    requires p < |order|
    ensures InUse(order, handles, others, p) <==> order[p] in AfterBatches(handles, others, |order| - p)
  {
  }

  /** The slots from position `k` on that were in use when looked at. */
  function SurvivorsFrom(order: seq<nat>, handles: Handles, others: Schedule, k: nat): seq<nat>
    requires k <= |order|
    decreases |order| - k
  {
    if k == |order| then []
    else (if InUse(order, handles, others, k) then [order[k]] else []) + SurvivorsFrom(order, handles, others, k + 1)
  }

  /** The list after the positions from `k` on have been looked at. */
  function LeftAfter(order: seq<nat>, handles: Handles, others: Schedule, k: nat): seq<nat>
    requires k <= |order|
  {
    order[..k] + SurvivorsFrom(order, handles, others, k)
  }

  /** `size` more bytes fit beside the files that are left when the positions from `k` on have been looked at. */
  predicate Fits(order: seq<nat>, sizes: seq<nat>, handles: Handles, others: Schedule, size: nat, limit: nat, k: nat)
    requires k <= |order|
  {
    Total(LeftAfter(order, handles, others, k), sizes) + size <= limit
  }

  /** The eviction stops at position `k`: there is room or nothing left to look at, and it could not stop before. */
  ghost predicate EvictsDownTo(order: seq<nat>, sizes: seq<nat>, handles: Handles, others: Schedule,
                               size: nat, limit: nat, k: nat)
  {
    && k <= |order|
    && (k == 0 || Fits(order, sizes, handles, others, size, limit, k))
    && (forall j :: k < j <= |order| ==> !Fits(order, sizes, handles, others, size, limit, j))
  }

  lemma RoomNow(order: seq<nat>, sizes: seq<nat>, handles: Handles, others: Schedule, size: nat, limit: nat, k: nat)
    requires k <= |order|
    ensures Fits(order, sizes, handles, others, size, limit, k) <==>
            Total(LeftAfter(order, handles, others, k), sizes) + size <= limit
  {
  }

  lemma CurrentLook(order: seq<nat>, k: nat)
    requires k <= |order|
    ensures At(order, k - 1) == if k == 0 then None else Some(order[k - 1])
  {
  }

  lemma LeftIsLong(order: seq<nat>, handles: Handles, others: Schedule, k: nat)
    requires k <= |order|
    ensures |LeftAfter(order, handles, others, k)| >= k
  {
  }

  lemma NothingLookedAt(order: seq<nat>, handles: Handles, others: Schedule)
    ensures LeftAfter(order, handles, others, |order|) == order
  {
  }

  /** Looking at the position before `p` keeps its slot if it is in use, and else takes it out. */
  lemma OneLook(order: seq<nat>, handles: Handles, others: Schedule, p: nat)
    requires p < |order|
    ensures var before, after := LeftAfter(order, handles, others, p + 1), LeftAfter(order, handles, others, p);
            && p < |before| && before[p] == order[p]
            && after == if InUse(order, handles, others, p) then before else Without(before, p)
    ensures At(LeftAfter(order, handles, others, p), p - 1) == At(LeftAfter(order, handles, others, p + 1), p - 1)
  {
    hide InUse;
    var rest := SurvivorsFrom(order, handles, others, p + 1);
    assert order[..p + 1] == order[..p] + [order[p]];
    FrontAndRest(order[..p], order[p], rest);
    assert (order[..p] + [order[p]]) + rest == order[..p] + ([order[p]] + rest);
    assert order[..p] + ([] + rest) == order[..p] + rest;
  }

  lemma FrontAndRest(front: seq<nat>, s: nat, rest: seq<nat>)
    ensures var all := front + [s] + rest;
            && |front| < |all| && all[|front|] == s && Without(all, |front|) == front + rest
            && At(front + rest, |front| - 1) == At(all, |front| - 1)
            && At(front + ([s] + rest), |front| - 1) == At(all, |front| - 1)
  {
  }

  /** The slot at position `p` is `s`, and it was in use when looked at. */
  predicate Survives(order: seq<nat>, handles: Handles, others: Schedule, p: nat, s: nat)
    requires p < |order|
  {
    order[p] == s && InUse(order, handles, others, p)
  }

  lemma SurvivorsStep(order: seq<nat>, handles: Handles, others: Schedule, k: nat, s: nat)
    requires k <= |order|
    ensures s in SurvivorsFrom(order, handles, others, k) <==>
            k < |order| && (Survives(order, handles, others, k, s) || s in SurvivorsFrom(order, handles, others, k + 1))
  {
    hide InUse;
  }

  lemma {:induction false} SurvivorsAreListed(order: seq<nat>, handles: Handles, others: Schedule, k: nat, s: nat)
    requires k <= |order|
    ensures s in SurvivorsFrom(order, handles, others, k) <==>
            exists p :: k <= p < |order| && Survives(order, handles, others, p, s)
    decreases |order| - k
  {
    hide InUse, SurvivorsFrom, Survives;
    SurvivorsStep(order, handles, others, k, s);
    if k < |order| {
      SurvivorsAreListed(order, handles, others, k + 1, s);
    }
  }

  lemma LeftIsListed(order: seq<nat>, handles: Handles, others: Schedule, k: nat, s: nat)
    requires k <= |order| && s in LeftAfter(order, handles, others, k)
    ensures s in order
  {
    hide InUse, SurvivorsFrom;
    SurvivorsAreListed(order, handles, others, k, s);
  }

  /** A slot that still has a handle at the end has not been dropped. */
  lemma OpenSurvives(order: seq<nat>, handles: Handles, others: Schedule, k: nat, s: nat)
    requires k <= |order| && s in order && s in AfterBatches(handles, others, |order| - k)
    ensures s in LeftAfter(order, handles, others, k)
  {
    hide AfterBatches, SurvivorsFrom;
    var p :| 0 <= p < |order| && order[p] == s;
    if p >= k {
      BatchesTakeAway(handles, others, |order| - p, |order| - k);
      assert Survives(order, handles, others, p, s);
      SurvivorsAreListed(order, handles, others, k, s);
    } else {
      assert order[..k][p] == s;
    }
  }

  // ----- What an eviction promises -----

  /** Where it stops is determined. */
  lemma EvictionIsUnique(order: seq<nat>, sizes: seq<nat>, handles: Handles, others: Schedule, size: nat, limit: nat,
                         k1: nat, k2: nat)
    requires EvictsDownTo(order, sizes, handles, others, size, limit, k1)
    requires EvictsDownTo(order, sizes, handles, others, size, limit, k2)
    ensures k1 == k2
  {
  }

  /** With enough room nothing is dropped. */
  lemma RoomKeepsAll(order: seq<nat>, sizes: seq<nat>, handles: Handles, others: Schedule, size: nat, limit: nat, k: nat)
    requires EvictsDownTo(order, sizes, handles, others, size, limit, k) && Total(order, sizes) + size <= limit
    ensures LeftAfter(order, handles, others, k) == order
  {
    hide LeftAfter, Total;
    NothingLookedAt(order, handles, others);
    assert Fits(order, sizes, handles, others, size, limit, |order|);
  }

  /** There is room in the end iff the files that were in use when looked at leave it, or not all had to be looked at. */
  lemma RoomUnlessInUse(order: seq<nat>, sizes: seq<nat>, handles: Handles, others: Schedule, size: nat, limit: nat, k: nat)
    requires EvictsDownTo(order, sizes, handles, others, size, limit, k)
    ensures Fits(order, sizes, handles, others, size, limit, k) <==>
            k > 0 || Total(SurvivorsFrom(order, handles, others, 0), sizes) + size <= limit
  {
    hide SurvivorsFrom, Total;
    assert order[..0] + SurvivorsFrom(order, handles, others, 0) == SurvivorsFrom(order, handles, others, 0);
  }
}
