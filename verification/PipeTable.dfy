/**
 The life cycle of pipe handles: allocate, accept, fork and deallocate. The handles that share
 a resource form a ring of companions; the last of them purges the resource.
 Module callbacks are taken to succeed, except for `fork`, whose failure path is modelled.
 */
module PipeTable {
  import opened FiniteSets
  import opened CompanionRing
  import opened Wrappers

  /** A call that purges a resource, with its error argument. */
  datatype Purge = Purge(resource: nat, error: bool)

  // ----- The invariant -----

  ghost predicate RingMember(ring: map<nat, seq<nat>>, home: map<nat, nat>, x: nat) {
    x in home && home[x] in ring && x in ring[home[x]]
  }

  /** Every handle is in exactly one ring, the ring of its resource. */
  ghost predicate Rings(handles: Handles, home: map<nat, nat>, ring: map<nat, seq<nat>>) {
    && (forall r :: r in ring ==> Ring(handles, ring[r]))
    && (forall r, x :: r in ring && x in ring[r] ==> x in home && home[x] == r)
    && (forall x :: x in handles ==> RingMember(ring, home, x))
  }

  ghost predicate AnyError(handles: Handles, s: seq<nat>) {
    exists x :: x in s && x in handles && handles[x].error
  }

  /** `faulty` are the resources one of whose handles has ever had an error: a live handle still knows. */
  ghost predicate ErrorsKnown(handles: Handles, ring: map<nat, seq<nat>>, faulty: set<nat>) {
    forall r :: r in ring ==> (r in faulty <==> AnyError(handles, ring[r]))
  }

  /** No handle has been notified of its cancellation twice, and a notified handle is marked. */
  ghost predicate NoticesOk(handles: Handles, notices: map<nat, nat>) {
    forall x :: x in handles ==> x in notices && notices[x] <= 1 && (notices[x] == 1 ==> handles[x].cancelled)
  }

  /** A resource is purged once, not while it has handles, and with an error iff one of its handles ever had one. */
  ghost predicate PurgesOk(ring: map<nat, seq<nat>>, purges: seq<Purge>, faulty: set<nat>) {
    && (forall i, j :: 0 <= i < j < |purges| ==> purges[i].resource != purges[j].resource)
    && (forall i :: 0 <= i < |purges| ==>
          purges[i].resource !in ring && (purges[i].error <==> purges[i].resource in faulty))
  }

  // ----- Bulk updates around a ring -----

  function WithShared(handles: Handles, targets: set<nat>, shared: nat): Handles {
    map x | x in handles :: if x in targets then handles[x].(shared := shared) else handles[x]
  }

  function WithCancelled(handles: Handles, targets: set<nat>): Handles {
    map x | x in handles :: if x in targets then handles[x].(cancelled := true) else handles[x]
  }

  /** The notices after those of `targets` that have an owner and are not cancelled yet have been told. */
  function WithNotices(handles: Handles, notices: map<nat, nat>, targets: set<nat>): map<nat, nat> {
    map x | x in notices ::
      if x in targets && x in handles && !handles[x].cancelled && handles[x].owner != NOBODY
      then notices[x] + 1 else notices[x]
  }

  ghost function Members(s: seq<nat>): set<nat> {
    set x | x in s
  }

  class Table {
    var handles: Handles
    /** The calls that told the owner of a handle about its cancellation, counted per handle. */
    var notices: map<nat, nat>
    /** The purging calls made so far. */
    ghost var purges: seq<Purge>
    ghost var home: map<nat, nat>
    ghost var ring: map<nat, seq<nat>>
    ghost var faulty: set<nat>

    ghost predicate Valid()
      reads this
    {
      && Rings(handles, home, ring)
      && ErrorsKnown(handles, ring, faulty)
      && NoticesOk(handles, notices)
      && PurgesOk(ring, purges, faulty)
    }

    constructor ()
      ensures Valid() && handles == map[] && purges == [] && ring == map[]
    {
      handles, notices, purges := map[], map[], [];
      home, ring, faulty := map[], map[], {};
    }

    /** Pass the shared flags of `h` on to all its companions. */
    method UpdateSharedFlags(h: nat, ghost s: seq<nat>)
      requires |s| > 0 && Ring(handles, s) && s[0] == h && h in handles
      modifies this`handles
      ensures handles == WithShared(old(handles), Members(s[1..]), old(handles[h].shared))
    {
      hide Ring, WithShared;
      ghost var before := handles;
      var options := handles[h].shared;
      var affected := handles[h].next;
      ghost var i := 1;
      RingStep(before, s, 0);
      SharedNone(before, options);
      assert s[1..1] == [];
      while affected != h
        invariant 1 <= i <= |s| && affected == if i < |s| then s[i] else h
        invariant handles == WithShared(before, Members(s[1..i]), options)
        decreases |s| - i
      {
        RingStep(before, s, i);
        SharedOneMore(before, s, i, options);
        handles := handles[affected := handles[affected].(shared := options)];
        affected := handles[affected].next;
        i := i + 1;
      }
      RingEnds(before, s, i);
      assert s[1..i] == s[1..];
    }

    /** Mark all companions of `h` as cancelled and tell the owners of those that were not. */
    method NotifyCancelled(h: nat, ghost s: seq<nat>)
      requires |s| > 0 && Ring(handles, s) && s[0] == h && h in handles && handles.Keys <= notices.Keys
      modifies this`handles, this`notices
      ensures handles == WithCancelled(old(handles), Members(s[1..]))
      ensures notices == WithNotices(old(handles), old(notices), Members(s[1..]))
    {
      hide Ring, WithCancelled, WithNotices;
      ghost var before, told := handles, notices;
      var affected := handles[h].next;
      ghost var i := 1;
      RingStep(before, s, 0);
      CancelledNone(before, told);
      assert s[1..1] == [];
      while affected != h
        invariant 1 <= i <= |s| && affected == if i < |s| then s[i] else h
        invariant handles == WithCancelled(before, Members(s[1..i]))
        invariant notices == WithNotices(before, told, Members(s[1..i]))
        decreases |s| - i
      {
        RingStep(before, s, i);
        CancelledOneMore(before, told, s, i);
        if !handles[affected].cancelled {
          if handles[affected].owner != NOBODY {
            notices := notices[affected := notices[affected] + 1];
          }
          handles := handles[affected := handles[affected].(cancelled := true)];
        }
        affected := handles[affected].next;
        i := i + 1;
      }
      RingEnds(before, s, i);
      assert s[1..i] == s[1..];
    }

    /** Some address that is not in use. */
    method NewAddress(taken: set<nat>) returns (n: nat)
      ensures n !in handles && n !in taken
    {
      ghost var example := FreshNumber(handles.Keys + taken);
      n :| n > 0 && n !in handles.Keys + taken;
    }

    /** A resource that has not been used before. */
    ghost method NewResource() returns (r: nat)
      ensures r !in ring && r !in faulty && forall i :: 0 <= i < |purges| ==> purges[i].resource != r
    {
      r := FreshNumber(ring.Keys + faulty + set i | 0 <= i < |purges| :: purges[i].resource);
    }

    /** One handle alone, allocated for the output or for the input end only. */
    method AllocateOne(handle: Handle) returns (h: nat, ghost r: nat)
      requires Valid() && !handle.error && !handle.cancelled
      modifies this`handles, this`notices, this`home, this`ring
      ensures Valid() && h !in old(handles)
      ensures handles == old(handles)[h := handle.(next := h, prev := h)]
      ensures r !in old(ring) && ring == old(ring)[r := [h]]
    {
      hide Rings, ErrorsKnown, NoticesOk, PurgesOk, Ring;
      h := NewAddress({});
      r := NewResource();
      SelfRing(handles, h, handle);
      AddRing(handles, notices, home, ring, faulty, purges, handles[h := handle.(next := h, prev := h)], [h], r);
      handles := handles[h := handle.(next := h, prev := h)];
      notices := notices[h := 0];
      home, ring := HomeAfter(home, [h], r), ring[r := [h]];
      assert notices == NoticesAfter(old(notices), [h]);
    }

    /** The two ends of a pipe, which an allocation or a module's accept creates together. */
    method AllocatePair(output: Handle, input: Handle) returns (o: nat, i: nat, ghost r: nat)
      requires Valid() && !output.error && !output.cancelled && !input.error && !input.cancelled
      modifies this`handles, this`notices, this`home, this`ring
      ensures Valid() && o !in old(handles) && i !in old(handles) && o != i
      ensures handles == old(handles)[o := output.(next := i, prev := i)][i := input.(next := o, prev := o)]
      ensures r !in old(ring) && ring == old(ring)[r := [o, i]]
    {
      hide Rings, ErrorsKnown, NoticesOk, PurgesOk, Ring, NoticesAfter, HomeAfter, Members;
      i := NewAddress({});
      o := NewAddress({i});
      r := NewResource();
      ghost var after := handles[o := output.(next := i, prev := i)][i := input.(next := o, prev := o)];
      PairRing(handles, o, i, output, input);
      PairNotices(notices, o, i);
      AddRing(handles, notices, home, ring, faulty, purges, after, [o, i], r);
      handles := handles[o := output.(next := i, prev := i)];
      handles := handles[i := input.(next := o, prev := o)];
      notices := notices[o := 0][i := 0];
      home, ring := HomeAfter(home, [o, i], r), ring[r := [o, i]];
    }

    /** Record an error on a handle. */
    method SetError(h: nat)
      requires Valid() && h in handles
      modifies this`handles, this`faulty
      ensures Valid() && handles == old(handles)[h := old(handles[h]).(error := true)]
      ensures h in home && faulty == old(faulty) + {home[h]}
    {
      hide ErrorsKnown, NoticesOk, PurgesOk, Ring;
      assert RingMember(ring, home, h);
      var after := handles[h := handles[h].(error := true)];
      SameLinksSameRings(handles, after, home, ring);
      ErrorSpreads(handles, ring, faulty, home, h);
      NoticesKept(handles, after, notices);
      PurgesKept(ring, purges, faulty, home[h]);
      handles := after;
      faulty := faulty + {home[h]};
    }

    /** A task becomes the owner of a handle, and will be told if the handle is cancelled. */
    method SetOwner(h: nat, owner: nat)
      requires Valid() && h in handles
      modifies this`handles
      ensures Valid() && handles == old(handles)[h := old(handles[h]).(owner := owner)]
    {
      hide Rings, ErrorsKnown, NoticesOk, PurgesOk;
      SameStatus(handles, handles[h := handles[h].(owner := owner)], home, ring, faulty, notices);
      handles := handles[h := handles[h].(owner := owner)];
    }

    /** The result of writing to a handle: an error, or how many bytes went through it. */
    method Written(h: nat, result: Option<nat>)
      requires Valid() && h in handles
      modifies this`handles, this`faulty
      ensures Valid()
      ensures handles == old(handles)[h := if result.None? then old(handles[h]).(error := true)
                                           else if result.value > 0 then old(handles[h]).(touched := true)
                                           else old(handles[h])]
      ensures h in home && faulty == if result.None? then old(faulty) + {home[h]} else old(faulty)
    {
      hide Rings, ErrorsKnown, NoticesOk, PurgesOk;
      HomeRing(handles, home, ring, h);
      if result.None? {
        SetError(h);
      } else if result.value > 0 {
        SameStatus(handles, handles[h := handles[h].(touched := true)], home, ring, faulty, notices);
        handles := handles[h := handles[h].(touched := true)];
      }
    }

    /** The ring of `h`, seen from `h`. */
    ghost method RingFrom(h: nat) returns (r: nat, s: seq<nat>)
      requires Valid() && h in handles
      modifies this`ring
      ensures Valid() && r in ring && ring[r] == s && |s| > 0 && s[0] == h && Ring(handles, s) && h in home && home[h] == r
      ensures r in old(ring) && IsRotation(old(ring[r]), s) && ring == old(ring)[r := s]
      ensures Members(s) == Members(old(ring[r]))
    {
      hide ErrorsKnown, NoticesOk, PurgesOk;
      assert RingMember(ring, home, h);
      r := home[h];
      var k :| 0 <= k < |ring[r]| && ring[r][k] == h;
      s := Rotate(ring[r], k);
      RotatedRing(handles, ring[r], k);
      RotationKeeps(handles, home, ring, faulty, purges, r, s);
      ring := ring[r := s];
    }

    /**
     Fork a handle: the new handle joins the ring next to its source, on hold. If the module's
     fork callback fails, the new handle is freed although the ring already links to it.
     */
    method Fork(h: nat, shared: nat, disabled: bool, moduleOk: bool) returns (n: nat, ghost r: nat)
      requires Valid() && h in handles
      modifies this`handles, this`notices, this`home, this`ring
      ensures n !in old(handles)
      ensures moduleOk ==>
                && Valid() && n in handles && n in home && home[n] == r && r in ring && h in ring[r] && n in ring[r]
                && handles[n].hold && handles[n].direction == Input && !handles[n].error
                && handles[n].accepted == old(handles[h].accepted) && handles[n].cancelled == old(handles[h].cancelled)
                && Linked(handles, h, n) && handles[n].next == old(handles[h].next)
      ensures moduleOk ==>
                && handles.Keys == old(handles.Keys) + {n}
                && r in old(ring) && Members(ring[r]) == Members(old(ring[r])) + {n}
                && handles[n] == Forked(old(handles[h]), h, shared, disabled)
                && (forall x :: x in old(handles) ==>
                      handles[x] == old(handles[x]).(next := if x == h then n else old(handles[x].next),
                                                     prev := if x == old(handles[h].next) then n else old(handles[x].prev)))
      ensures !moduleOk ==>
                && h in handles && handles[h].next == n && n !in handles
                && forall home', ring' :: !Rings(handles, home', ring')
    {
      hide Rings, ErrorsKnown, NoticesOk, PurgesOk, Ring, LinkAfter, HomeAfter, Forked, Members;
      ghost var s;
      r, s := RingFrom(h);
      n := NewAddress({});
      var node := Forked(handles[h], h, shared, disabled);
      ForkedFacts(handles[h], h, shared, disabled);
      InsertSecond(handles, s, n, node);
      LinkAfterFacts(handles, h, n, node);
      ForkKeeps(handles, notices, home, ring, faulty, purges, r, n, node);
      LinkNew(h, n, node);
      notices := notices[n := 0];
      if !moduleOk {
        handles := handles - {n};
        DanglingLink(handles, h, n);
        return;
      }
      home, ring := HomeAfter(home, [n], r), ring[r := [h, n] + s[1..]];
    }

    /** Link a new handle between `h` and its successor. */
    method LinkNew(h: nat, n: nat, node: Handle)
      requires h in handles && handles[h].next in handles && n !in handles
      requires node.next == handles[h].next && node.prev == h
      modifies this`handles
      ensures handles == LinkAfter(old(handles), h, n, node)
    {
      var table := handles;
      var b := table[h].next;
      table := table[n := node];
      table := table[h := table[h].(next := n)];
      handles := table[b := table[b].(prev := n)];
    }

    /** Release a forked handle from its hold: it stays in its ring, cancelled if it is disabled. */
    method ReleaseHold(h: nat) returns (ok: bool)
      requires Valid() && h in handles && handles[h].hold
      modifies this`handles, this`notices
      ensures Valid()
      ensures handles == old(handles)[h := old(handles[h]).(hold := false,
                                                             cancelled := old(handles[h].cancelled || handles[h].disabled))]
      ensures notices == if old(handles[h].disabled && !handles[h].cancelled && handles[h].owner != NOBODY)
                         then old(notices)[h := old(notices[h]) + 1] else old(notices)
      ensures ok <==> !old(handles[h].disabled && !handles[h].cancelled && handles[h].owner == NOBODY)
    {
      hide Rings, ErrorsKnown, PurgesOk, NoticesOk;
      ghost var before := handles;
      HoldNotices(handles, notices, h);
      ok := true;
      handles := handles[h := handles[h].(hold := false)];
      if handles[h].disabled && !handles[h].cancelled {
        handles := handles[h := handles[h].(cancelled := true)];
        if handles[h].owner == NOBODY {
          ok := false;
        } else {
          notices := notices[h := notices[h] + 1];
        }
      }
      assert handles == before[h := before[h].(hold := false, cancelled := before[h].cancelled || before[h].disabled)];
      SameLinksSameRings(before, handles, home, ring);
      SameErrors(before, handles, ring, faulty);
    }

    /**
     Deallocate a handle. A handle on hold is only released from its hold, which fails if it is
     cancelled by that and has no owner to be told. Any other handle leaves its ring: the upstream
     end of a pipe passes its shared flags on, an output that was never touched or has an error
     cancels its companions, the error goes to the next companion, and the last handle purges the
     resource.
     */
    method Deallocate(h: nat) returns (ok: bool, ghost r: nat)
      requires Valid() && h in handles
      modifies this`handles, this`notices, this`purges, this`ring
      ensures Valid() && r in old(ring) && h in old(ring[r])
      ensures ok <==> !old(handles[h].hold && handles[h].disabled && !handles[h].cancelled && handles[h].owner == NOBODY)
      ensures old(handles[h].hold) ==> h in handles && !handles[h].hold && ring == old(ring) && purges == old(purges)
      ensures !old(handles[h].hold) ==>
                && handles.Keys == old(handles.Keys) - {h}
                && (old(handles[h].next) == h ==>
                      ring == old(ring) - {r} && purges == old(purges) + [Purge(r, r in faulty)])
                && (old(handles[h].next) != h ==>
                      && purges == old(purges) && r in ring && |ring[r]| > 0
                      && IsRotation(old(ring[r]), [h] + ring[r]) && ring == old(ring)[r := ring[r]])
                && (forall x :: x in handles ==> Survives(old(handles), h, Members(old(ring[r])), x, handles[x]))
                && notices == WithNotices(old(handles), old(notices),
                                          if Cancels(old(handles[h])) then Members(old(ring[r])) - {h} else {})
      ensures var was := old(handles[h]);
              !was.hold && (was.accepted || was.direction == Input || (was.touched && !was.error)) ==>
                notices == old(notices) && forall x :: x in handles ==> handles[x].cancelled == old(handles)[x].cancelled
      ensures var was := old(handles[h]);
              !was.hold && !was.accepted && was.direction == Output && (!was.touched || was.error) ==>
                forall x :: x in handles ==>
                  && x in notices && x in old(notices)
                  && handles[x].cancelled == (old(handles)[x].cancelled || x in old(ring[r]))
                  && notices[x] == old(notices)[x] +
                       if x in old(ring[r]) && !old(handles)[x].cancelled && old(handles)[x].owner != NOBODY then 1 else 0
      ensures var was := old(handles[h]);
              !was.hold ==> forall x :: x in handles ==>
                handles[x].shared ==
                if x in old(ring[r]) && (was.accepted <==> was.direction == Input) then was.shared else old(handles)[x].shared
      ensures var was := old(handles[h]);
              !was.hold ==> forall x :: x in handles ==>
                && handles[x].error == (old(handles)[x].error || (x == was.next && was.error))
                && var now := handles[x];
                   now == old(handles)[x].(next := now.next, prev := now.prev, error := now.error,
                                           shared := now.shared, cancelled := now.cancelled)
    {
      hide Rings, ErrorsKnown, NoticesOk, PurgesOk, Ring, Survives, WithNotices, Cancels, IsRotation;
      if handles[h].hold {
        HomeRing(handles, home, ring, h);
        r := home[h];
        ok := ReleaseHold(h);
        return;
      }
      NoticesCover(handles, notices);
      ok := true;
      r := Depart(h);
      TellsApart(old(handles), old(notices), handles, h, Members(old(ring[r])));
    }

    /** Take a handle that is not on hold out of its ring, or purge the resource with the last one. */
    method Depart(h: nat) returns (ghost r: nat)
      requires Valid() && h in handles && !handles[h].hold
      modifies this`handles, this`notices, this`purges, this`ring
      ensures Valid() && r in old(ring) && h in old(ring[r]) && handles.Keys == old(handles.Keys) - {h}
      ensures old(handles[h].next) == h ==> ring == old(ring) - {r} && purges == old(purges) + [Purge(r, r in faulty)]
      ensures old(handles[h].next) != h ==>
                && purges == old(purges) && r in ring && |ring[r]| > 0
                && IsRotation(old(ring[r]), [h] + ring[r]) && ring == old(ring)[r := ring[r]]
      ensures forall x :: x in handles ==> Survives(old(handles), h, Members(old(ring[r])), x, handles[x])
      ensures notices == WithNotices(old(handles), old(notices),
                                     if Cancels(old(handles[h])) then Members(old(ring[r])) - {h} else {})
    {
      hide Rings, ErrorsKnown, NoticesOk, PurgesOk, Ring, Survives;
      ghost var s;
      r, s := RingFrom(h);
      if handles[h].next == h {
        LastLeaves(handles, notices, home, ring, faulty, purges, r, h);
        purges := purges + [Purge(r, handles[h].error)];
        handles := handles - {h};
        ring := ring - {r};
      } else {
        Leave(h, r, s);
      }
    }

    /** Tell the companions of `h` that it is about to leave. */
    method TellCompanions(h: nat, ghost s: seq<nat>)
      requires |s| > 0 && Ring(handles, s) && s[0] == h && h in handles && handles.Keys <= notices.Keys
      modifies this`handles, this`notices
      ensures handles == Told(old(handles), h, Members(s[1..]))
      ensures notices == WithNotices(old(handles), old(notices), if Cancels(old(handles[h])) then Members(s[1..]) else {})
      ensures var was := old(handles[h]);
              forall x :: x in handles ==>
                && x in old(handles) && x in old(notices) && x in notices
                && var alone := x !in s[1..];
                   var cancels := !was.accepted && was.direction == Output && (!was.touched || was.error);
                   && handles[x].cancelled == (old(handles)[x].cancelled || (!alone && cancels))
                   && notices[x] == old(notices)[x] +
                        (if !alone && cancels && !old(handles)[x].cancelled && old(handles)[x].owner != NOBODY then 1 else 0)
                   && handles[x].shared ==
                        if !alone && (was.accepted <==> was.direction == Input) then was.shared else old(handles)[x].shared
    {
      hide Ring;
      RingStep(handles, s, 0);
      ghost var others := Members(s[1..]);
      NoNotices(handles, notices);
      FlaggedRing(handles, s);
      if !handles[h].accepted {
        if handles[h].direction == Output {
          UpdateSharedFlags(h, s);
          if !handles[h].touched || handles[h].error {
            NotifyCancelled(h, s);
          }
        }
      } else if handles[h].direction == Input {
        UpdateSharedFlags(h, s);
      }
    }

    /** Leave a ring of several handles. */
    method Leave(h: nat, ghost r: nat, ghost s: seq<nat>)
      requires Valid() && h in handles && !handles[h].hold && handles[h].next != h
      requires r in ring && ring[r] == s && |s| > 0 && s[0] == h
      modifies this`handles, this`notices, this`ring
      ensures Valid() && ring == old(ring)[r := s[1..]] && |s| > 1 && Members(s[1..]) == Members(s) - {h}
      ensures handles.Keys == old(handles.Keys) - {h}
      ensures forall x :: x in handles ==> Survives(old(handles), h, Members(s), x, handles[x])
      ensures notices == WithNotices(old(handles), old(notices), if Cancels(old(handles[h])) then Members(s[1..]) else {})
    {
      hide Rings, ErrorsKnown, NoticesOk, PurgesOk, Ring, Survives, Told, Dismiss, WithNotices, Cancels;
      Companions(handles, home, ring, r);
      ToldKeeps(handles, notices, home, ring, faulty, h, Members(s[1..]));
      NoticesCover(handles, notices);
      TellCompanions(h, s);
      ghost var told := handles;
      LeaveKeeps(handles, notices, home, ring, faulty, purges, r);
      JoinNeighbours(h);
      ring := ring[r := s[1..]];
      SurvivorsAre(old(handles), told, h, s);
    }

    /** Link the neighbours of `h` to each other, hand its error to the next one, and free it. */
    method JoinNeighbours(h: nat)
      requires h in handles && handles[h].next in handles && handles[h].prev in handles && handles[h].next != h
      modifies this`handles
      ensures handles == Dismiss(old(handles), h) && handles.Keys == old(handles.Keys) - {h}
    {
      hide Dismiss;
      DismissKeys(handles, h);
      DismissSteps(handles, h);
      var table := handles;
      var b, p := table[h].next, table[h].prev;
      table := table[p := table[p].(next := b)];
      table := table[b := table[b].(prev := p)];
      table := table[b := table[b].(error := table[h].error || table[b].error)];
      handles := table - {h};
    }
  }

  /** What `Survives` and the notices say, bit by bit. */
  lemma TellsApart(before: Handles, notices: map<nat, nat>, after: Handles, h: nat, members: set<nat>)
    requires h in before && before.Keys <= notices.Keys
    requires forall x :: x in after ==> Survives(before, h, members, x, after[x])
    ensures before[h].accepted || before[h].direction == Input || (before[h].touched && !before[h].error) ==>
              WithNotices(before, notices, if Cancels(before[h]) then members - {h} else {}) == notices
    ensures var was := before[h];
            var told := WithNotices(before, notices, if Cancels(was) then members - {h} else {});
            forall x :: x in after ==>
              && x in before && x in told && x in notices
              && after[x] == before[x].(next := after[x].next, prev := after[x].prev, error := after[x].error,
                                        shared := after[x].shared, cancelled := after[x].cancelled)
              && after[x].error == (before[x].error || (x == was.next && was.error))
              && after[x].shared ==
                   (if x in members && (was.accepted <==> was.direction == Input) then was.shared else before[x].shared)
              && var cancels := !was.accepted && was.direction == Output && (!was.touched || was.error);
                 && after[x].cancelled == (before[x].cancelled || (x in members && cancels))
                 && told[x] == notices[x] +
                      if x in members && cancels && !before[x].cancelled && before[x].owner != NOBODY then 1 else 0
  {
    NoNotices(before, notices);
  }

  /** Pass flags and cancellation on to the companions of `h`. */
  function Told(handles: Handles, h: nat, others: set<nat>): Handles
    requires h in handles
  {
    var flagged := if PassesFlags(handles[h]) then WithShared(handles, others, handles[h].shared) else handles;
    if Cancels(handles[h]) then WithCancelled(flagged, others) else flagged
  }

  /** Link the neighbours of `h` to each other, hand its error to the next one, and free it. */
  function Dismiss(handles: Handles, h: nat): Handles
    requires h in handles && handles[h].next in handles && handles[h].prev in handles
  {
    var b, p := handles[h].next, handles[h].prev;
    var h1 := handles[p := handles[p].(next := b)];
    var h2 := h1[b := h1[b].(prev := p)];
    h2[b := h2[b].(error := h2[h].error || h2[b].error)] - {h}
  }

  /** What is left of handle `x` after `h` has left the ring of `members`, apart from the links. */
  ghost predicate Survives(before: Handles, h: nat, members: set<nat>, x: nat, now: Handle) {
    && h in before && x in before && x != h
    && now.direction == before[x].direction && now.accepted == before[x].accepted && now.touched == before[x].touched
    && now.hold == before[x].hold && now.disabled == before[x].disabled && now.owner == before[x].owner
    && now.error == (before[x].error || (x == before[h].next && before[h].error))
    && now.shared == (if x in members && PassesFlags(before[h]) then before[h].shared else before[x].shared)
    && now.cancelled == (before[x].cancelled || (x in members && Cancels(before[h])))
  }

  /** The handle that a fork creates: an input on hold that nobody owns and nothing went through. */
  function Forked(source: Handle, h: nat, shared: nat, disabled: bool): Handle {
    Handle(source.next, h, Input, source.accepted, false, source.cancelled, false, true, shared, disabled, NOBODY)
  }

  lemma ForkedFacts(source: Handle, h: nat, shared: nat, disabled: bool)
    ensures var node := Forked(source, h, shared, disabled);
            && node.next == source.next && node.prev == h && !node.error && node.hold && node.direction == Input
            && node.accepted == source.accepted && node.cancelled == source.cancelled
  {
  }

  /** Owners and the touched bits do not matter for rings, errors and notices. */
  lemma SameStatus(before: Handles, after: Handles, home: map<nat, nat>, ring: map<nat, seq<nat>>, faulty: set<nat>,
                   notices: map<nat, nat>)
    requires Rings(before, home, ring) && ErrorsKnown(before, ring, faulty) && NoticesOk(before, notices)
    requires after.Keys == before.Keys
    requires forall x :: x in before ==>
               && after[x].next == before[x].next && after[x].prev == before[x].prev
               && after[x].error == before[x].error && after[x].cancelled == before[x].cancelled
    ensures Rings(after, home, ring) && ErrorsKnown(after, ring, faulty) && NoticesOk(after, notices)
  {
    hide Ring;
    SameLinksSameRings(before, after, home, ring);
    forall r | r in ring
      ensures AnyError(after, ring[r]) <==> AnyError(before, ring[r])
    {
    }
  }

  lemma HoldNotices(handles: Handles, notices: map<nat, nat>, h: nat)
    requires NoticesOk(handles, notices) && h in handles
    ensures h in notices
    ensures NoticesOk(handles[h := handles[h].(hold := false)], notices)
    ensures NoticesOk(handles[h := handles[h].(hold := false, cancelled := true)], notices)
    ensures !handles[h].cancelled ==>
              NoticesOk(handles[h := handles[h].(hold := false, cancelled := true)], notices[h := notices[h] + 1])
  {
  }

  lemma NoNotices(handles: Handles, notices: map<nat, nat>)
    ensures WithNotices(handles, notices, {}) == notices
  {
  }

  lemma NoticesCover(handles: Handles, notices: map<nat, nat>)
    requires NoticesOk(handles, notices)
    ensures handles.Keys <= notices.Keys
  {
  }

  /** Passing flags on leaves the ring, the first member, and who is to be notified as they are. */
  lemma FlaggedRing(handles: Handles, s: seq<nat>)
    requires |s| > 0 && Ring(handles, s) && s[0] in handles
    ensures var after := WithShared(handles, Members(s[1..]), handles[s[0]].shared);
            && Ring(after, s) && after.Keys == handles.Keys && after[s[0]] == handles[s[0]]
            && forall notices, targets :: WithNotices(after, notices, targets) == WithNotices(handles, notices, targets)
  {
  }

  lemma HomeRing(handles: Handles, home: map<nat, nat>, ring: map<nat, seq<nat>>, h: nat)
    requires Rings(handles, home, ring) && h in handles
    ensures h in home && home[h] in ring && h in ring[home[h]]
  {
  }

  lemma SameErrors(before: Handles, after: Handles, ring: map<nat, seq<nat>>, faulty: set<nat>)
    requires ErrorsKnown(before, ring, faulty) && before.Keys == after.Keys
    requires forall x :: x in before ==> after[x].error == before[x].error
    ensures ErrorsKnown(after, ring, faulty)
  {
  }

  lemma ToldKeeps(handles: Handles, notices: map<nat, nat>, home: map<nat, nat>, ring: map<nat, seq<nat>>, faulty: set<nat>,
                  h: nat, others: set<nat>)
    requires Rings(handles, home, ring) && ErrorsKnown(handles, ring, faulty) && NoticesOk(handles, notices) && h in handles
    requires h !in others
    ensures var after := Told(handles, h, others);
            && Rings(after, home, ring) && ErrorsKnown(after, ring, faulty)
            && NoticesOk(after, WithNotices(handles, notices, if Cancels(handles[h]) then others else {}))
            && after.Keys == handles.Keys && after[h] == handles[h]
            && forall x :: x in handles ==> after[x].next == handles[x].next && after[x].prev == handles[x].prev
  {
    hide Rings, ErrorsKnown;
    var after := Told(handles, h, others);
    SameLinksSameRings(handles, after, home, ring);
    SameErrors(handles, after, ring, faulty);
  }

  /** The companions of the first of several members. */
  lemma Companions(handles: Handles, home: map<nat, nat>, ring: map<nat, seq<nat>>, r: nat)
    requires Rings(handles, home, ring) && r in ring
    ensures var s := ring[r];
            && |s| > 0 && Ring(handles, s) && s[0] in handles && s[0] !in s[1..]
            && (handles[s[0]].next == s[0] <==> |s| == 1)
            && (|s| > 1 ==> handles[s[0]].next == s[1] && handles[s[0]].prev == s[|s| - 1])
  {
    var s := ring[r];
    RingStep(handles, s, 0);
    assert Linked(handles, s[|s| - 1], s[Succ(|s| - 1, |s|)]);
  }

  lemma LeaveKeeps(handles: Handles, notices: map<nat, nat>, home: map<nat, nat>, ring: map<nat, seq<nat>>, faulty: set<nat>,
                   purges: seq<Purge>, r: nat)
    requires Rings(handles, home, ring) && ErrorsKnown(handles, ring, faulty)
    requires NoticesOk(handles, notices) && PurgesOk(ring, purges, faulty)
    requires r in ring && |ring[r]| > 1
    ensures var h, t := ring[r][0], ring[r][1..];
            && h in handles && handles[h].next in handles && handles[h].prev in handles
            && Rings(Dismiss(handles, h), home, ring[r := t]) && ErrorsKnown(Dismiss(handles, h), ring[r := t], faulty)
            && NoticesOk(Dismiss(handles, h), notices) && PurgesOk(ring[r := t], purges, faulty)
  {
    hide Ring, Rings, ErrorsKnown, PurgesOk, Dismiss, AnyError, NoticesOk;
    var h, t := ring[r][0], ring[r][1..];
    Companions(handles, home, ring, r);
    DismissRing(handles, ring[r]);
    var after := Dismiss(handles, h);
    OthersKept(handles, home, ring, r);
    HomesOf(handles, home, ring, r);
    ReplaceRing(handles, after, home, ring, r, t, home);
    DismissErrors(handles, ring[r]);
    ReplaceErrors(handles, after, ring, faulty, r, t);
    PurgesReplaced(ring, purges, faulty, r, t);
    DismissNotices(handles, notices, h);
  }

  lemma DismissSteps(handles: Handles, h: nat)
    requires h in handles && handles[h].next in handles && handles[h].prev in handles
    ensures var b, p := handles[h].next, handles[h].prev;
            var h1 := handles[p := handles[p].(next := b)];
            var h2 := h1[b := h1[b].(prev := p)];
            h2[b := h2[b].(error := h2[h].error || h2[b].error)] - {h} == Dismiss(handles, h)
  {
  }

  lemma DismissNotices(handles: Handles, notices: map<nat, nat>, h: nat)
    requires NoticesOk(handles, notices)
    requires h in handles && handles[h].next in handles && handles[h].prev in handles
    ensures NoticesOk(Dismiss(handles, h), notices)
  {
  }

  /** The handles of the other rings stay as they are when the first handle of ring `r` leaves. */
  lemma OthersKept(handles: Handles, home: map<nat, nat>, ring: map<nat, seq<nat>>, r: nat)
    requires Rings(handles, home, ring) && r in ring && |ring[r]| > 1
    requires ring[r][0] in handles && handles[ring[r][0]].next in handles && handles[ring[r][0]].prev in handles
    ensures var after := Dismiss(handles, ring[r][0]);
            forall q, x :: q in ring && q != r && x in ring[q] ==>
              x in handles && x !in ring[r][1..] && x in after && x in home && after[x] == handles[x]
  {
    hide Ring, Rings, Dismiss;
    var h := ring[r][0];
    Companions(handles, home, ring, r);
    RingsApart(handles, home, ring, r);
    forall q, x | q in ring && q != r && x in ring[q]
      ensures var after := Dismiss(handles, h);
              x in handles && x !in ring[r][1..] && x in after && x in home && after[x] == handles[x]
    {
      assert x !in ring[r];
      assert h in ring[r] && handles[h].next in ring[r] && handles[h].prev in ring[r];
      DismissElsewhere(handles, h, x);
    }
  }

  lemma DismissElsewhere(handles: Handles, h: nat, x: nat)
    requires h in handles && handles[h].next in handles && handles[h].prev in handles && x in handles
    ensures x in Dismiss(handles, h) <==> x != h
    ensures x != h && x != handles[h].next && x != handles[h].prev ==> Dismiss(handles, h)[x] == handles[x]
  {
  }

  /** Where the handles are at home after the first handle of ring `r` has left. */
  lemma HomesOf(handles: Handles, home: map<nat, nat>, ring: map<nat, seq<nat>>, r: nat)
    requires Rings(handles, home, ring) && r in ring && |ring[r]| > 1
    requires ring[r][0] in handles && handles[ring[r][0]].next in handles && handles[ring[r][0]].prev in handles
    ensures var after, t := Dismiss(handles, ring[r][0]), ring[r][1..];
            && (forall x :: x in t ==> x in home && home[x] == r)
            && (forall x :: x in after ==> x in t || (x in handles && x !in ring[r]))
  {
    hide Ring, Dismiss;
    var h, t := ring[r][0], ring[r][1..];
    assert forall x :: x in ring[r] <==> x == h || x in t;
    forall x | x in Dismiss(handles, h)
      ensures x in handles && x != h
    {
      DismissKeys(handles, h);
    }
  }

  lemma DismissKeys(handles: Handles, h: nat)
    requires h in handles && handles[h].next in handles && handles[h].prev in handles
    ensures Dismiss(handles, h).Keys == handles.Keys - {h}
  {
  }

  lemma PurgesReplaced(ring: map<nat, seq<nat>>, purges: seq<Purge>, faulty: set<nat>, r: nat, t: seq<nat>)
    requires PurgesOk(ring, purges, faulty) && r in ring
    ensures PurgesOk(ring[r := t], purges, faulty)
  {
  }

  lemma DismissRing(handles: Handles, s: seq<nat>)
    requires Ring(handles, s) && |s| > 1
    ensures s[0] in handles && handles[s[0]].next in handles && handles[s[0]].prev in handles
    ensures Ring(Dismiss(handles, s[0]), s[1..])
  {
    RemoveFirst(handles, s);
    RingStep(handles, s, 0);
    RingStep(handles, s, 1);
    MembersAreAllocated(Unlink(handles, s[0]), s[1..]);
    SameLinksSameRing(Unlink(handles, s[0]), Dismiss(handles, s[0]), s[1..]);
  }

  /** The error of the handle that leaves lives on in its successor. */
  lemma DismissErrors(handles: Handles, s: seq<nat>)
    requires Ring(handles, s) && |s| > 1
    requires s[0] in handles && handles[s[0]].next in handles && handles[s[0]].prev in handles
    ensures AnyError(Dismiss(handles, s[0]), s[1..]) <==> AnyError(handles, s)
  {
    hide Ring, Dismiss;
    MembersAreAllocated(handles, s);
    var after := Dismiss(handles, s[0]);
    assert s[0] in s && s[1] in s && s[1] in s[1..];
    forall x | x in s[1..]
      ensures x in s && x in handles && x in after
      ensures after[x].error == (handles[x].error || (x == s[1] && handles[s[0]].error))
    {
      assert x in s;
      DismissErrorOf(handles, s, x);
    }
    if AnyError(handles, s) {
      var x :| x in s && x in handles && handles[x].error;
      assert x == s[0] ==> after[s[1]].error;
      assert x != s[0] ==> x in s[1..];
    }
  }

  lemma DismissErrorOf(handles: Handles, s: seq<nat>, x: nat)
    requires Ring(handles, s) && |s| > 1 && x in s[1..] && x in handles
    requires s[0] in handles && handles[s[0]].next in handles && handles[s[0]].prev in handles
    ensures x in Dismiss(handles, s[0])
    ensures Dismiss(handles, s[0])[x].error == (handles[x].error || (x == s[1] && handles[s[0]].error))
  {
  }

  lemma LastLeaves(handles: Handles, notices: map<nat, nat>, home: map<nat, nat>, ring: map<nat, seq<nat>>, faulty: set<nat>,
                   purges: seq<Purge>, r: nat, h: nat)
    requires Rings(handles, home, ring) && ErrorsKnown(handles, ring, faulty)
    requires NoticesOk(handles, notices) && PurgesOk(ring, purges, faulty)
    requires r in ring && |ring[r]| > 0 && ring[r][0] == h && h in handles && handles[h].next == h
    ensures Rings(handles - {h}, home, ring - {r}) && ErrorsKnown(handles - {h}, ring - {r}, faulty)
    ensures NoticesOk(handles - {h}, notices)
    ensures PurgesOk(ring - {r}, purges + [Purge(r, handles[h].error)], faulty)
    ensures handles[h].error <==> r in faulty
    ensures Members(ring[r]) == {h}
    ensures forall x :: x in handles && x != h ==> Survives(handles, h, {h}, x, handles[x])
    ensures WithNotices(handles, notices, {}) == notices
  {
    hide Ring, Rings, AnyError;
    Companions(handles, home, ring, r);
    RingsApart(handles, home, ring, r);
    assert ring[r] == [h];
    LastRing(handles, home, ring, r, h);
    forall q | q in ring - {r}
      ensures AnyError(handles - {h}, ring[q]) <==> AnyError(handles, ring[q])
    {
      ErrorsElsewhere(handles, h, ring[q]);
    }
    OnlyError(handles, h);
  }

  lemma ErrorsElsewhere(handles: Handles, h: nat, s: seq<nat>)
    requires forall x :: x in s ==> x != h
    ensures AnyError(handles - {h}, s) <==> AnyError(handles, s)
  {
  }

  lemma OnlyError(handles: Handles, h: nat)
    requires h in handles
    ensures AnyError(handles, [h]) <==> handles[h].error
  {
    assert h in [h];
  }

  lemma LastRing(handles: Handles, home: map<nat, nat>, ring: map<nat, seq<nat>>, r: nat, h: nat)
    requires Rings(handles, home, ring) && r in ring && ring[r] == [h]
    requires forall q, x :: q in ring && x in ring[q] ==> x in handles && x in home && home[x] == q && (q != r ==> x !in ring[r])
    ensures Rings(handles - {h}, home, ring - {r})
  {
    hide Ring;
    forall q | q in ring - {r}
      ensures Ring(handles - {h}, ring[q])
    {
      assert h in ring[r];
      assert forall x :: x in ring[q] ==> x in handles && x !in ring[r];
      SameLinksSameRing(handles, handles - {h}, ring[q]);
    }
    forall x | x in handles - {h}
      ensures RingMember(ring - {r}, home, x)
    {
      assert RingMember(ring, home, x);
    }
  }

  lemma ToldAt(handles: Handles, h: nat, others: set<nat>, x: nat)
    requires h in handles && x in handles
    ensures x in Told(handles, h, others)
    ensures Told(handles, h, others)[x] ==
            handles[x].(shared := if x in others && PassesFlags(handles[h]) then handles[h].shared else handles[x].shared,
                        cancelled := handles[x].cancelled || (x in others && Cancels(handles[h])))
  {
  }

  lemma DismissAt(handles: Handles, h: nat, x: nat)
    requires h in handles && handles[h].next in handles && handles[h].prev in handles && handles[h].next != h
    requires x in Dismiss(handles, h)
    ensures x in handles && x != h
    ensures var now := Dismiss(handles, h)[x];
            now == handles[x].(next := now.next, prev := now.prev,
                               error := handles[x].error || (x == handles[h].next && handles[h].error))
  {
  }

  lemma SurvivorsAre(before: Handles, told: Handles, h: nat, s: seq<nat>)
    requires |s| > 1 && s[0] == h && h in before && h !in s[1..]
    requires before[h].next == s[1] && before[h].prev in before && s[1] in before
    requires told == Told(before, h, Members(s[1..])) && told.Keys == before.Keys && told[h] == before[h]
    ensures Members(s[1..]) == Members(s) - {h}
    ensures forall x :: x in Dismiss(told, h) ==> Survives(before, h, Members(s), x, Dismiss(told, h)[x])
  {
    hide Told, Dismiss;
    assert Members(s[1..]) == Members(s) - {h};
    assert s[1] != h by { assert s[1..][0] == s[1]; }
    forall x | x in Dismiss(told, h)
      ensures Survives(before, h, Members(s), x, Dismiss(told, h)[x])
    {
      DismissAt(told, h, x);
      ToldAt(before, h, Members(s[1..]), x);
    }
  }

  /** The upstream end of a pipe: the output of an allocated pair, the input of an accepted one. */
  predicate PassesFlags(handle: Handle) {
    if handle.accepted then handle.direction == Input else handle.direction == Output
  }

  /** An output end of an allocated pair that was never touched, or has an error, cancels its companions. */
  predicate Cancels(handle: Handle) {
    !handle.accepted && handle.direction == Output && (!handle.touched || handle.error)
  }

  ghost predicate IsRotation(s: seq<nat>, t: seq<nat>) {
    exists k :: 0 <= k < |s| && t == Rotate(s, k)
  }

  lemma RotationKeeps(handles: Handles, home: map<nat, nat>, ring: map<nat, seq<nat>>, faulty: set<nat>, purges: seq<Purge>,
                      r: nat, s: seq<nat>)
    requires Rings(handles, home, ring) && ErrorsKnown(handles, ring, faulty) && PurgesOk(ring, purges, faulty)
    requires r in ring && Ring(handles, s) && forall x :: x in s <==> x in ring[r]
    ensures Rings(handles, home, ring[r := s]) && ErrorsKnown(handles, ring[r := s], faulty)
    ensures PurgesOk(ring[r := s], purges, faulty)
  {
    hide Ring;
    forall x | x in handles
      ensures RingMember(ring[r := s], home, x)
    {
      assert RingMember(ring, home, x);
    }
    forall q | q in ring[r := s]
      ensures q in faulty <==> AnyError(handles, ring[r := s][q])
    {
      assert AnyError(handles, ring[r := s][q]) <==> AnyError(handles, ring[q]);
    }
  }

  /** A handle whose successor is free memory is in no ring. */
  lemma DanglingLink(handles: Handles, h: nat, n: nat)
    requires h in handles && handles[h].next == n && n !in handles
    ensures forall home, ring :: !Rings(handles, home, ring)
  {
    forall home, ring | Rings(handles, home, ring)
      ensures false
    {
      assert RingMember(ring, home, h);
      var i :| 0 <= i < |ring[home[h]]| && ring[home[h]][i] == h;
      Neighbours(handles, ring[home[h]], i);
    }
  }

  lemma ForkKeeps(handles: Handles, notices: map<nat, nat>, home: map<nat, nat>, ring: map<nat, seq<nat>>, faulty: set<nat>,
                  purges: seq<Purge>, r: nat, n: nat, node: Handle)
    requires Rings(handles, home, ring) && ErrorsKnown(handles, ring, faulty)
    requires NoticesOk(handles, notices) && PurgesOk(ring, purges, faulty)
    requires r in ring && n !in handles && !node.error && |ring[r]| > 0
    requires ring[r][0] in handles && handles[ring[r][0]].next in handles
    requires var h := ring[r][0]; Ring(LinkAfter(handles, h, n, node), [h, n] + ring[r][1..])
    ensures var h := ring[r][0];
            var after, t := LinkAfter(handles, h, n, node), [h, n] + ring[r][1..];
            && Rings(after, HomeAfter(home, [n], r), ring[r := t]) && ErrorsKnown(after, ring[r := t], faulty)
            && NoticesOk(after, notices[n := 0]) && PurgesOk(ring[r := t], purges, faulty)
            && Members(t) == Members(ring[r]) + {n}
            && after.Keys == handles.Keys + {n} && Linked(after, h, n) && after[n].next == handles[h].next
            && after[n] == node.(next := handles[h].next, prev := h)
            && n in HomeAfter(home, [n], r) && HomeAfter(home, [n], r)[n] == r && h in t && n in t
  {
    hide Ring, Rings, ErrorsKnown, PurgesOk, LinkAfter, AnyError, HomeAfter, NoticesOk;
    var h := ring[r][0];
    var after, t := LinkAfter(handles, h, n, node), [h, n] + ring[r][1..];
    LinkAfterFacts(handles, h, n, node);
    ForkNotices(handles, after, notices, n);
    ForkMembers(handles, home, ring, r, n, h);
    ForkElsewhere(handles, home, ring, r, n, node);
    ReplaceRing(handles, after, home, ring, r, t, HomeAfter(home, [n], r));
    ForkErrors(handles, after, ring[r], t, n);
    ReplaceErrors(handles, after, ring, faulty, r, t);
    PurgesReplaced(ring, purges, faulty, r, t);
  }

  /** The members of the ring after a fork. */
  lemma ForkMembers(handles: Handles, home: map<nat, nat>, ring: map<nat, seq<nat>>, r: nat, n: nat, h: nat)
    requires Rings(handles, home, ring) && r in ring && n !in handles && |ring[r]| > 0 && h == ring[r][0]
    ensures var t := [h, n] + ring[r][1..];
            && (forall x :: x in t <==> x in ring[r] || x == n)
            && Members(t) == Members(ring[r]) + {n}
            && (forall x :: x in ring[r] ==> x in handles)
            && (forall x :: x in t ==> x in HomeAfter(home, [n], r) && HomeAfter(home, [n], r)[x] == r)
            && (forall x :: x in handles && x !in t ==> x !in ring[r])
  {
    hide Rings;
    RingsApart(handles, home, ring, r);
    assert ring[r] == [h] + ring[r][1..];
  }

  /** The handles of the other rings stay as they are when ring `r` gets a new handle. */
  lemma ForkElsewhere(handles: Handles, home: map<nat, nat>, ring: map<nat, seq<nat>>, r: nat, n: nat, node: Handle)
    requires Rings(handles, home, ring) && r in ring && n !in handles && |ring[r]| > 0
    requires ring[r][0] in handles && handles[ring[r][0]].next in handles
    ensures var h := ring[r][0];
            var after, t, homes := LinkAfter(handles, h, n, node), [h, n] + ring[r][1..], HomeAfter(home, [n], r);
            forall q, x :: q in ring && q != r && x in ring[q] ==>
              x in handles && x !in t && x in after && x in homes && homes[x] == home[x] && after[x] == handles[x]
  {
    hide Rings, LinkAfter;
    var h := ring[r][0];
    RingsApart(handles, home, ring, r);
    FirstNeighbours(handles, home, ring, r);
    LinkAfterFacts(handles, h, n, node);
    assert ring[r] == [h] + ring[r][1..];
    forall q, x | q in ring && q != r && x in ring[q]
      ensures LinkAfter(handles, h, n, node)[x] == handles[x]
    {
      assert x !in ring[r] && h in ring[r];
    }
  }

  lemma LinkAfterFacts(handles: Handles, h: nat, n: nat, node: Handle)
    requires h in handles && handles[h].next in handles && n !in handles
    ensures var after := LinkAfter(handles, h, n, node);
            && after.Keys == handles.Keys + {n} && Linked(after, h, n)
            && after[n] == node.(next := handles[h].next, prev := h)
            && forall x :: x in handles ==>
                 after[x] == handles[x].(next := if x == h then n else handles[x].next,
                                         prev := if x == handles[h].next then n else handles[x].prev)
  {
  }

  lemma ForkErrors(handles: Handles, after: Handles, s: seq<nat>, t: seq<nat>, n: nat)
    requires n !in handles && n in after && !after[n].error && forall x :: x in t <==> x in s || x == n
    requires forall x :: x in s ==> x in handles
    requires forall x :: x in handles ==> x in after && after[x].error == handles[x].error
    ensures AnyError(after, t) <==> AnyError(handles, s)
  {
  }

  lemma ForkNotices(handles: Handles, after: Handles, notices: map<nat, nat>, n: nat)
    requires NoticesOk(handles, notices) && after.Keys == handles.Keys + {n}
    requires forall x :: x in handles ==> after[x].cancelled == handles[x].cancelled
    ensures NoticesOk(after, notices[n := 0])
  {
  }

  lemma FirstNeighbours(handles: Handles, home: map<nat, nat>, ring: map<nat, seq<nat>>, r: nat)
    requires Rings(handles, home, ring) && r in ring
    ensures var h := ring[r]; |h| > 0 && h[0] in handles && handles[h[0]].next in h && handles[h[0]].prev in h
  {
    Neighbours(handles, ring[r], 0);
  }

  /** The members of the rings are allocated, and those of other rings are not in ring `r`. */
  lemma RingsApart(handles: Handles, home: map<nat, nat>, ring: map<nat, seq<nat>>, r: nat)
    requires Rings(handles, home, ring) && r in ring
    ensures forall q, x :: q in ring && x in ring[q] ==> x in handles && x in home && home[x] == q && (q != r ==> x !in ring[r])
  {
    forall q | q in ring
      ensures forall x :: x in ring[q] ==> x in handles
    {
      MembersAreAllocated(handles, ring[q]);
    }
  }

  /** Ring `r` is replaced by `t`; the handles of the other rings keep their links. */
  lemma ReplaceRing(handles: Handles, after: Handles, home: map<nat, nat>, ring: map<nat, seq<nat>>, r: nat, t: seq<nat>,
                    homes: map<nat, nat>)
    requires Rings(handles, home, ring) && r in ring && Ring(after, t)
    requires forall q, x :: q in ring && q != r && x in ring[q] ==>
               && x in handles && x !in t && x in after && x in homes && homes[x] == home[x]
               && after[x].next == handles[x].next && after[x].prev == handles[x].prev
    requires forall x :: x in t ==> x in homes && homes[x] == r
    requires forall x :: x in after ==> x in t || (x in handles && x !in ring[r])
    ensures Rings(after, homes, ring[r := t])
  {
    hide Ring;
    forall q | q in ring && q != r
      ensures Ring(after, ring[q])
    {
      SameLinksSameRing(handles, after, ring[q]);
    }
    forall x | x in after
      ensures RingMember(ring[r := t], homes, x)
    {
      if x !in t {
        assert RingMember(ring, home, x);
      }
    }
  }

  lemma ReplaceErrors(handles: Handles, after: Handles, ring: map<nat, seq<nat>>, faulty: set<nat>, r: nat, t: seq<nat>)
    requires ErrorsKnown(handles, ring, faulty) && r in ring
    requires forall q, x :: q in ring && q != r && x in ring[q] ==> x in handles && x in after && after[x].error == handles[x].error
    requires AnyError(after, t) <==> AnyError(handles, ring[r])
    ensures ErrorsKnown(after, ring[r := t], faulty)
  {
  }

  function NoticesAfter(notices: map<nat, nat>, s: seq<nat>): map<nat, nat> {
    notices + map x | x in s :: 0
  }

  ghost function HomeAfter(home: map<nat, nat>, s: seq<nat>, r: nat): map<nat, nat> {
    home + map x | x in s :: r
  }

  lemma SelfRing(handles: Handles, h: nat, handle: Handle)
    ensures Ring(handles[h := handle.(next := h, prev := h)], [h])
  {
  }

  lemma PairRing(handles: Handles, o: nat, i: nat, output: Handle, input: Handle)
    requires o != i && o !in handles && i !in handles
    ensures var after := handles[o := output.(next := i, prev := i)][i := input.(next := o, prev := o)];
            && Ring(after, [o, i])
            && after.Keys == handles.Keys + Members([o, i]) && Members([o, i]) !! handles.Keys
            && (forall x :: x in handles ==> after[x] == handles[x])
            && (forall x :: x in [o, i] ==> after[x].error == (if x == o then output.error else input.error)
                                            && after[x].cancelled == (if x == o then output.cancelled else input.cancelled))
  {
  }

  lemma PairNotices(notices: map<nat, nat>, o: nat, i: nat)
    ensures notices[o := 0][i := 0] == NoticesAfter(notices, [o, i])
  {
  }

  /** A ring of new handles joins the table. */
  lemma AddRing(handles: Handles, notices: map<nat, nat>, home: map<nat, nat>, ring: map<nat, seq<nat>>, faulty: set<nat>,
                purges: seq<Purge>, after: Handles, s: seq<nat>, r: nat)
    requires Rings(handles, home, ring) && ErrorsKnown(handles, ring, faulty)
    requires NoticesOk(handles, notices) && PurgesOk(ring, purges, faulty)
    requires r !in ring && r !in faulty && forall i :: 0 <= i < |purges| ==> purges[i].resource != r
    requires Ring(after, s) && after.Keys == handles.Keys + Members(s) && Members(s) !! handles.Keys
    requires forall x :: x in handles ==> after[x] == handles[x]
    requires forall x :: x in s ==> !after[x].error && !after[x].cancelled
    ensures Rings(after, HomeAfter(home, s, r), ring[r := s]) && ErrorsKnown(after, ring[r := s], faulty)
    ensures NoticesOk(after, NoticesAfter(notices, s)) && PurgesOk(ring[r := s], purges, faulty)
  {
    hide Ring, Rings, ErrorsKnown, NoticesOk, PurgesOk;
    OldRingsStay(handles, after, home, ring);
    AddRingMembers(handles, home, ring, after, s, r);
    AddRingErrors(handles, ring, faulty, after, s, r);
    AddRingNotices(handles, notices, after, s);
    AddRingPurges(ring, purges, faulty, s, r);
  }

  lemma AddRingNotices(handles: Handles, notices: map<nat, nat>, after: Handles, s: seq<nat>)
    requires NoticesOk(handles, notices)
    requires after.Keys == handles.Keys + Members(s) && Members(s) !! handles.Keys
    requires forall x :: x in handles ==> after[x] == handles[x]
    ensures NoticesOk(after, NoticesAfter(notices, s))
  {
  }

  lemma AddRingPurges(ring: map<nat, seq<nat>>, purges: seq<Purge>, faulty: set<nat>, s: seq<nat>, r: nat)
    requires PurgesOk(ring, purges, faulty) && forall i :: 0 <= i < |purges| ==> purges[i].resource != r
    ensures PurgesOk(ring[r := s], purges, faulty)
  {
  }

  /** Handles with the same links form the same rings. */
  lemma OldRingsStay(handles: Handles, after: Handles, home: map<nat, nat>, ring: map<nat, seq<nat>>)
    requires Rings(handles, home, ring)
    requires forall x :: x in handles ==> x in after && after[x].next == handles[x].next && after[x].prev == handles[x].prev
    ensures forall q :: q in ring ==> Ring(after, ring[q])
    ensures forall q, x :: q in ring && x in ring[q] ==> x in handles
  {
    forall q | q in ring
      ensures Ring(after, ring[q]) && forall x :: x in ring[q] ==> x in handles
    {
      MembersAreAllocated(handles, ring[q]);
      SameLinksSameRing(handles, after, ring[q]);
    }
  }

  lemma SameLinksSameRings(handles: Handles, after: Handles, home: map<nat, nat>, ring: map<nat, seq<nat>>)
    requires Rings(handles, home, ring) && handles.Keys == after.Keys
    requires forall x :: x in handles ==> after[x].next == handles[x].next && after[x].prev == handles[x].prev
    ensures Rings(after, home, ring)
  {
  }

  lemma AddRingMembers(handles: Handles, home: map<nat, nat>, ring: map<nat, seq<nat>>, after: Handles, s: seq<nat>, r: nat)
    requires Rings(handles, home, ring) && r !in ring && Ring(after, s)
    requires after.Keys == handles.Keys + Members(s) && Members(s) !! handles.Keys
    requires forall q :: q in ring ==> Ring(after, ring[q])
    requires forall q, x :: q in ring && x in ring[q] ==> x in handles
    ensures Rings(after, HomeAfter(home, s, r), ring[r := s])
  {
    hide Ring;
    forall x | x in after
      ensures RingMember(ring[r := s], HomeAfter(home, s, r), x)
    {
      if x in handles {
        assert RingMember(ring, home, x);
      }
    }
  }

  lemma AddRingErrors(handles: Handles, ring: map<nat, seq<nat>>, faulty: set<nat>, after: Handles, s: seq<nat>, r: nat)
    requires ErrorsKnown(handles, ring, faulty) && r !in ring && r !in faulty
    requires forall x :: x in handles ==> x in after && after[x] == handles[x]
    requires forall q, x :: q in ring && x in ring[q] ==> x in handles
    requires forall x :: x in s ==> x in after && !after[x].error
    ensures ErrorsKnown(after, ring[r := s], faulty)
  {
  }

  lemma ErrorSpreads(handles: Handles, ring: map<nat, seq<nat>>, faulty: set<nat>, home: map<nat, nat>, h: nat)
    requires ErrorsKnown(handles, ring, faulty) && Rings(handles, home, ring) && h in handles && RingMember(ring, home, h)
    ensures ErrorsKnown(handles[h := handles[h].(error := true)], ring, faulty + {home[h]})
  {
  }

  lemma NoticesKept(handles: Handles, after: Handles, notices: map<nat, nat>)
    requires NoticesOk(handles, notices) && after.Keys <= handles.Keys
    requires forall x :: x in after ==> (handles[x].cancelled ==> after[x].cancelled)
    ensures NoticesOk(after, notices)
  {
  }

  lemma PurgesKept(ring: map<nat, seq<nat>>, purges: seq<Purge>, faulty: set<nat>, r: nat)
    requires PurgesOk(ring, purges, faulty) && r in ring
    ensures PurgesOk(ring, purges, faulty + {r})
  {
  }

  lemma SharedNone(handles: Handles, shared: nat)
    ensures WithShared(handles, Members([]), shared) == handles
  {
  }

  lemma SharedOneMore(handles: Handles, s: seq<nat>, i: nat, shared: nat)
    requires 1 <= i < |s| && s[i] in handles
    ensures var h := WithShared(handles, Members(s[1..i]), shared);
            && s[i] in h && h[s[i]].next == handles[s[i]].next
            && h[s[i] := h[s[i]].(shared := shared)] == WithShared(handles, Members(s[1..i + 1]), shared)
  {
  }

  lemma CancelledNone(handles: Handles, notices: map<nat, nat>)
    ensures WithCancelled(handles, Members([])) == handles
    ensures WithNotices(handles, notices, Members([])) == notices
  {
  }

  lemma CancelledOneMore(handles: Handles, notices: map<nat, nat>, s: seq<nat>, i: nat)
    requires 1 <= i < |s| && s[i] in handles && s[i] in notices && s[i] !in s[1..i]
    ensures var h, n, x := WithCancelled(handles, Members(s[1..i])), WithNotices(handles, notices, Members(s[1..i])), s[i];
            && x in h && x in n && h[x] == handles[x]
            && h[x := h[x].(cancelled := true)] == WithCancelled(handles, Members(s[1..i + 1]))
            && (handles[x].cancelled ==> h == WithCancelled(handles, Members(s[1..i + 1])))
            && (if !handles[x].cancelled && handles[x].owner != NOBODY then n[x := n[x] + 1] else n)
               == WithNotices(handles, notices, Members(s[1..i + 1]))
  {
    assert Members(s[1..i + 1]) == Members(s[1..i]) + {s[i]};
  }

  lemma RingEnds(handles: Handles, s: seq<nat>, i: nat)
    requires Ring(handles, s) && 1 <= i <= |s| && (i < |s| ==> s[i] == s[0])
    ensures i == |s|
  {
  }
}
