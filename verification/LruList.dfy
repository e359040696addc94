/** A list of slots linked both ways by indices, most recently used slot first. */
module LruList {
  import opened Wrappers
  import opened Sequences

  type Link = Option<nat>

  function At(order: seq<nat>, i: int): Link {
    if 0 <= i < |order| then Some(order[i]) else None
  }

  /** The links of the list hold the slots in the given order. */
  datatype Links = Links(prev: seq<Link>, next: seq<Link>, first: Link, last: Link) {
    ghost predicate Hold(order: seq<nat>) {
      && |prev| == |next| && Distinct(order)
      && first == At(order, 0) && last == At(order, |order| - 1)
      && (forall i {:trigger order[i]} {:trigger InPlace(order, i)} :: 0 <= i < |order| ==> InPlace(order, i))
    }

    ghost predicate InPlace(order: seq<nat>, i: nat)
      requires i < |order|
    {
      order[i] < |prev| == |next| && HoldAt(order, i)
    }

    ghost predicate HoldAt(order: seq<nat>, i: nat)
      requires i < |order| && order[i] < |prev| && order[i] < |next|
    {
      next[order[i]] == At(order, i + 1) && prev[order[i]] == At(order, i - 1)
    }

    /** Put a slot in front. */
    function Add(s: nat): Links
      requires s < |prev| == |next| && (first.Some? ==> first.value < |prev|)
    {
      var p := prev[s := None];
      Links(if first.Some? then p[first.value := Some(s)] else p, next[s := first], Some(s),
            if first.Some? then last else Some(s))
    }

    /** Take a slot out. */
    function Remove(s: nat): Links
      requires s < |prev| == |next|
      requires (prev[s].Some? ==> prev[s].value < |next|) && (next[s].Some? ==> next[s].value < |prev|)
    {
      Links(if next[s].Some? then prev[next[s].value := prev[s]] else prev,
            if prev[s].Some? then next[prev[s].value := next[s]] else next,
            if prev[s].Some? then first else next[s],
            if next[s].Some? then last else prev[s])
    }
  }

  lemma AddHoldsAt(l: Links, order: seq<nat>, s: nat, i: nat)
    requires l.Hold(order) && s < |l.prev| == |l.next| && s !in order && (l.first.Some? ==> l.first.value < |l.prev|)
    requires i <= |order|
    ensures ([s] + order)[i] < |l.prev| && l.Add(s).HoldAt([s] + order, i)
  {
    hide Links.Hold;
    var after := [s] + order;
    assert forall k :: 0 <= k < |order| ==> after[k + 1] == order[k];
    FirstIs(l, order);
    if i > 0 {
      Neighbours(l, order, i - 1);
      assert after[i] == order[i - 1] && order[i - 1] in order;
      assert i > 1 ==> order[0] != order[i - 1] by { DifferentFirst(l, order, i - 1); }
    }
  }

  lemma FirstIs(l: Links, order: seq<nat>)
    requires l.Hold(order)
    ensures l.first == At(order, 0) && l.last == At(order, |order| - 1)
  {
  }

  lemma DifferentFirst(l: Links, order: seq<nat>, k: nat)
    requires l.Hold(order) && k < |order|
    ensures k > 0 ==> order[0] != order[k]
  {
  }

  lemma AddDifferent(order: seq<nat>, s: nat)
    requires Distinct(order) && s !in order
    ensures Distinct([s] + order)
  {
  }

  lemma AddEnds(l: Links, order: seq<nat>, s: nat)
    requires l.Hold(order) && s < |l.prev| == |l.next| && (l.first.Some? ==> l.first.value < |l.prev|)
    ensures l.Add(s).first == At([s] + order, 0) && l.Add(s).last == At([s] + order, |order|)
    ensures |l.Add(s).prev| == |l.Add(s).next| == |l.prev|
  {
    hide Links.Hold;
    FirstIs(l, order);
    var after := [s] + order;
    assert after[0] == s && (|order| > 0 ==> after[|order|] == order[|order| - 1]);
  }

  lemma FirstInRange(l: Links, order: seq<nat>)
    requires l.Hold(order)
    ensures |l.prev| == |l.next| && (l.first.Some? ==> l.first.value < |l.prev|) && Distinct(order)
  {
    assert |order| > 0 ==> order[0] < |l.prev|;
  }

  /** The list `after`, which is `order` with `s` in front, is held after the addition. */
  lemma AddedHolds(l: Links, order: seq<nat>, s: nat, after: seq<nat>)
    requires l.Hold(order) && s < |l.prev| && s !in order && after == [s] + order
    ensures |l.prev| == |l.next| && (l.first.Some? ==> l.first.value < |l.prev|)
    ensures l.Add(s).Hold(after)
  {
    hide Links.HoldAt, Distinct, At, Links.Add;
    FirstInRange(l, order);
    AddEnds(l, order, s);
    AddDifferent(order, s);
    assert |after| == |order| + 1;
    forall i {:trigger l.Add(s).InPlace(after, i)} | 0 <= i < |after|
      ensures l.Add(s).InPlace(after, i)
    {
      AddHoldsAt(l, order, s, i);
    }
  }

  lemma AddHolds(l: Links, order: seq<nat>, s: nat)
    requires l.Hold(order) && s < |l.prev| && s !in order
    ensures |l.prev| == |l.next| && (l.first.Some? ==> l.first.value < |l.prev|)
    ensures l.Add(s).Hold([s] + order)
  {
    hide Links.Hold, Links.Add;
    AddedHolds(l, order, s, [s] + order);
  }

  function Without(order: seq<nat>, i: nat): seq<nat>
    requires i < |order|
  {
    order[..i] + order[i + 1..]
  }

  lemma Neighbours(l: Links, order: seq<nat>, i: nat)
    requires l.Hold(order) && i < |order|
    ensures order[i] < |l.prev| == |l.next|
    ensures l.prev[order[i]] == At(order, i - 1) && l.next[order[i]] == At(order, i + 1)
    ensures (i > 0 ==> order[i - 1] < |l.prev|) && (i + 1 < |order| ==> order[i + 1] < |l.prev|)
  {
  }

  lemma WithoutAt(order: seq<nat>, i: nat, k: nat)
    requires i < |order| && k < |order| - 1
    ensures Without(order, i)[k] == order[if k < i then k else k + 1]
  {
  }

  lemma WithoutDifferent(order: seq<nat>, i: nat)
    requires i < |order| && Distinct(order)
    ensures Distinct(Without(order, i))
  {
  }

  lemma RemoveHoldsAt(l: Links, order: seq<nat>, i: nat, k: nat)
    requires l.Hold(order) && i < |order| && k < |order| - 1 && |l.prev| == |l.next| && order[i] < |l.prev|
    requires l.prev[order[i]] == At(order, i - 1) && l.next[order[i]] == At(order, i + 1)
    requires (i > 0 ==> order[i - 1] < |l.prev|) && (i + 1 < |order| ==> order[i + 1] < |l.prev|)
    ensures Without(order, i)[k] < |l.prev| && l.Remove(order[i]).HoldAt(Without(order, i), k)
  {
    hide Without, Links.Hold;
    var j := if k < i then k else k + 1;
    WithoutAt(order, i, k);
    Neighbours(l, order, j);
    Apart(l, order, i, j);
    assert |Without(order, i)| == |order| - 1 by { WithoutSize(order, i); }
    if k > 0 {
      WithoutAt(order, i, k - 1);
    }
    if k + 1 < |order| - 1 {
      WithoutAt(order, i, k + 1);
    }
  }

  lemma WithoutSize(order: seq<nat>, i: nat)
    requires i < |order|
    ensures |Without(order, i)| == |order| - 1
  {
  }

  lemma Apart(l: Links, order: seq<nat>, i: nat, j: nat)
    requires l.Hold(order) && i < |order| && j < |order| && i != j
    ensures order[i] != order[j]
    ensures i > 0 && j != i - 1 ==> order[i - 1] != order[j]
    ensures i + 1 < |order| && j != i + 1 ==> order[i + 1] != order[j]
  {
  }

  lemma RemoveEnds(l: Links, order: seq<nat>, i: nat)
    requires l.Hold(order) && i < |order| && |l.prev| == |l.next| && order[i] < |l.prev|
    requires l.prev[order[i]] == At(order, i - 1) && l.next[order[i]] == At(order, i + 1)
    requires (i > 0 ==> order[i - 1] < |l.prev|) && (i + 1 < |order| ==> order[i + 1] < |l.prev|)
    ensures l.Remove(order[i]).first == At(Without(order, i), 0)
    ensures l.Remove(order[i]).last == At(Without(order, i), |order| - 2)
  {
    hide Links.Hold, Without;
    FirstIs(l, order);
    WithoutSize(order, i);
    if |order| > 1 {
      WithoutAt(order, i, 0);
      WithoutAt(order, i, |order| - 2);
    }
  }

  lemma RemoveHolds(l: Links, order: seq<nat>, i: nat)
    requires l.Hold(order) && i < |order|
    ensures order[i] < |l.prev| == |l.next|
    ensures l.prev[order[i]] == At(order, i - 1) && l.next[order[i]] == At(order, i + 1)
    ensures (i > 0 ==> order[i - 1] < |l.prev|) && (i + 1 < |order| ==> order[i + 1] < |l.prev|)
    ensures l.Remove(order[i]).Hold(Without(order, i))
  {
    hide Without, Links.HoldAt, Distinct;
    Neighbours(l, order, i);
    WithoutDifferent(order, i);
    WithoutSize(order, i);
    RemoveEnds(l, order, i);
    var after, less := Without(order, i), l.Remove(order[i]);
    assert |less.prev| == |l.prev| && |less.next| == |l.next|;
    forall k {:trigger less.InPlace(after, k)} | 0 <= k < |after|
      ensures less.InPlace(after, k)
    {
      RemoveHoldsAt(l, order, i, k);
    }
    assert less.first == At(after, 0) && less.last == At(after, |after| - 1);
  }

  lemma WithoutIsRest(order: seq<nat>, i: nat)
    requires i < |order| && Distinct(order)
    ensures order[i] !in Without(order, i)
    ensures forall s :: s in order <==> s == order[i] || s in Without(order, i)
  {
  }

  /** A list without a slot. */
  function Removed(order: seq<nat>, s: nat): seq<nat> {
    if |order| == 0 then []
    else if order[0] == s then Removed(order[1..], s)
    else [order[0]] + Removed(order[1..], s)
  }

  lemma {:induction false} RemovedElements(order: seq<nat>, s: nat)
    ensures forall t :: t in Removed(order, s) <==> t in order && t != s
    ensures s !in order ==> Removed(order, s) == order
  {
    if |order| > 0 {
      RemovedElements(order[1..], s);
      assert order == [order[0]] + order[1..];
    }
  }

  lemma {:induction false} WithoutIsRemoved(order: seq<nat>, i: nat)
    requires i < |order| && Distinct(order)
    ensures Without(order, i) == Removed(order, order[i])
    decreases i
  {
    var rest := order[1..];
    if i == 0 {
      assert order[0] !in rest;
      RemovedElements(rest, order[0]);
    } else {
      WithoutIsRemoved(rest, i - 1);
      assert Without(order, i) == [order[0]] + Without(rest, i - 1);
    }
  }

  // ----- Sums over a list -----

  function SizeAt(sizes: seq<nat>, s: nat): nat {
    if s < |sizes| then sizes[s] else 0
  }

  function Total(order: seq<nat>, sizes: seq<nat>): nat {
    if |order| == 0 then 0 else SizeAt(sizes, order[0]) + Total(order[1..], sizes)
  }

  lemma {:induction false} TotalWithout(order: seq<nat>, sizes: seq<nat>, i: nat)
    requires i < |order|
    ensures Total(order, sizes) == SizeAt(sizes, order[i]) + Total(Without(order, i), sizes)
    decreases i
  {
    if i == 0 {
      assert Without(order, 0) == order[1..];
    } else {
      TotalWithout(order[1..], sizes, i - 1);
      assert Without(order, i)[1..] == Without(order[1..], i - 1);
    }
  }

  lemma {:induction false} TotalAgrees(order: seq<nat>, s1: seq<nat>, s2: seq<nat>)
    requires forall k :: 0 <= k < |order| ==> SizeAt(s1, order[k]) == SizeAt(s2, order[k])
    ensures Total(order, s1) == Total(order, s2)
    decreases |order|
  {
    if |order| > 0 {
      TotalAgrees(order[1..], s1, s2);
    }
  }
}
