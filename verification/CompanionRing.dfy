/**
 Circular doubly linked lists of pipe handles. A ring is described by the sequence of its
 members in `next` order, starting anywhere.
 */
module CompanionRing {
  import opened Sequences

  datatype Direction = Input | Output

  /** A pipe handle: its links, its status bits, its shared flags and its disabled flag. */
  datatype Handle = Handle(
    next: nat, prev: nat, direction: Direction,
    accepted: bool, error: bool, cancelled: bool, touched: bool, hold: bool,
    shared: nat, disabled: bool, owner: nat)

  /** No task owns the handle. */
  const NOBODY: nat := 0

  type Handles = map<nat, Handle>

  function Succ(i: nat, n: nat): nat
    requires i < n
  {
    if i + 1 < n then i + 1 else 0
  }

  predicate Linked(handles: Handles, a: nat, b: nat) {
    a in handles && b in handles && handles[a].next == b && handles[b].prev == a
  }

  /** The members of `s` are allocated, distinct, and linked in a circle. */
  ghost predicate Ring(handles: Handles, s: seq<nat>) {
    && |s| > 0 && Distinct(s)
    && (forall i, j :: 0 <= i < |s| && j == Succ(i, |s|) ==> Linked(handles, s[i], s[j]))
  }

  /** The same ring, starting from its `k`-th member. */
  function Rotate(s: seq<nat>, k: nat): seq<nat>
    requires k < |s|
  {
    s[k..] + s[..k]
  }

  lemma RotatedRing(handles: Handles, s: seq<nat>, k: nat)
    requires Ring(handles, s) && k < |s|
    ensures Ring(handles, Rotate(s, k))
    ensures Rotate(s, k)[0] == s[k] && |Rotate(s, k)| == |s|
    ensures forall x :: x in Rotate(s, k) <==> x in s
  {
    var t := Rotate(s, k);
    var n := |s|;
    forall i, j | 0 <= i < n && j == Succ(i, n)
      ensures Linked(handles, t[i], t[j])
    {
      var p := if k + i < n then k + i else k + i - n;
      var q := if k + j < n then k + j else k + j - n;
      assert t[i] == s[p] && t[j] == s[q];
      assert q == Succ(p, n);
    }
  }

  /** Rings only depend on the links of their members. */
  lemma SameLinksSameRing(before: Handles, after: Handles, s: seq<nat>)
    requires Ring(before, s)
    requires forall x :: x in s ==> x in before && x in after && after[x].next == before[x].next && after[x].prev == before[x].prev
    ensures Ring(after, s)
  {
  }

  /** Link the new handle `n` between `a` and its successor. */
  function LinkAfter(handles: Handles, a: nat, n: nat, node: Handle): Handles
    requires a in handles && handles[a].next in handles && n !in handles
  {
    var b := handles[a].next;
    var h1 := handles[n := node.(next := b, prev := a)];
    var h2 := h1[a := h1[a].(next := n)];
    h2[b := h2[b].(prev := n)]
  }

  lemma InsertSecond(handles: Handles, s: seq<nat>, n: nat, node: Handle)
    requires Ring(handles, s) && n !in handles
    ensures s[0] in handles && handles[s[0]].next in handles
    ensures Ring(LinkAfter(handles, s[0], n, node), [s[0], n] + s[1..])
  {
    assert Linked(handles, s[0], s[Succ(0, |s|)]);
    var after, t := LinkAfter(handles, s[0], n, node), [s[0], n] + s[1..];
    forall i | 0 <= i < |s|
      ensures s[i] in handles
    {
      assert Linked(handles, s[i], s[Succ(i, |s|)]);
    }
    forall i, j | 0 <= i < |t| && j == Succ(i, |t|)
      ensures Linked(after, t[i], t[j])
    {
      if i >= 2 {
        assert Linked(handles, s[i - 1], s[Succ(i - 1, |s|)]);
      }
    }
  }

  /** Take handle `a` out of its ring. */
  function Unlink(handles: Handles, a: nat): Handles
    requires a in handles && handles[a].next in handles && handles[a].prev in handles
  {
    var b, p := handles[a].next, handles[a].prev;
    var h1 := handles[p := handles[p].(next := b)];
    var h2 := h1[b := h1[b].(prev := p)];
    h2 - {a}
  }

  lemma RemoveFirst(handles: Handles, s: seq<nat>)
    requires Ring(handles, s)
    ensures s[0] in handles && handles[s[0]].next in handles && handles[s[0]].prev in handles
    ensures |s| > 1 ==> Ring(Unlink(handles, s[0]), s[1..])
  {
    var n := |s|;
    assert Linked(handles, s[0], s[Succ(0, n)]);
    assert Linked(handles, s[n - 1], s[Succ(n - 1, n)]);
    if n > 1 {
      var after, t := Unlink(handles, s[0]), s[1..];
      forall i, j | 0 <= i < |t| && j == Succ(i, |t|)
        ensures Linked(after, t[i], t[j])
      {
        assert Linked(handles, s[i + 1], s[Succ(i + 1, n)]);
        assert j > 0 ==> t[j] == s[Succ(i + 1, n)];
      }
    }
  }

  lemma MembersAreAllocated(handles: Handles, s: seq<nat>)
    requires Ring(handles, s)
    ensures forall x :: x in s ==> x in handles
  {
    forall i | 0 <= i < |s|
      ensures s[i] in handles
    {
      assert Linked(handles, s[i], s[Succ(i, |s|)]);
    }
  }

  /** The neighbours of a member are members. */
  lemma Neighbours(handles: Handles, s: seq<nat>, i: nat)
    requires Ring(handles, s) && i < |s|
    ensures s[i] in handles && handles[s[i]].next in s && handles[s[i]].prev in s
    ensures handles[s[i]].next in handles && handles[s[i]].prev in handles
  {
    assert Linked(handles, s[i], s[Succ(i, |s|)]);
    var p := if i == 0 then |s| - 1 else i - 1;
    assert Linked(handles, s[p], s[Succ(p, |s|)]);
  }

  /** One step around a ring from its `i`-th member. */
  lemma RingStep(handles: Handles, s: seq<nat>, i: nat)
    requires Ring(handles, s) && i < |s|
    ensures s[i] in handles && handles[s[i]].next == if i + 1 < |s| then s[i + 1] else s[0]
    ensures i > 0 ==> s[i] != s[0] && s[i] !in s[1..i]
  {
    assert Linked(handles, s[i], s[Succ(i, |s|)]);
  }
}
