/**
 Interleavings of one producer and one consumer on an event queue. `front` counts what the
 consumer has taken and `rear` what the producer has put, both modulo 2^32; the slot of a
 counter is its remainder by the queue size.
 */
module QueueProtocol {
  import opened EventQueue
  import opened Wrappers
  import opened PowersOfTwo

  datatype Owner = Nobody | Producer | Consumer

  /** Where the producer is in a put. */
  datatype ProducerPc =
    | PIdle        // not putting
    | PCheck       // first test for a full queue, without the mutex
    | PLock        // about to lock the mutex
    | PRecheck     // test for a full queue, holding the mutex
    | PEnterWait   // about to wait on the condition variable
    | PWaiting     // waiting, the mutex is released
    | PReacquire   // woken up, about to lock the mutex again
    | PWoken       // back from the wait, holding the mutex
    | PGiveUp      // the thread was killed, about to unlock and drop the event
    | PUnlock      // the queue has room, about to unlock
    | PStore       // about to write the event to its slot
    | PPublish     // about to increment rear

  /** Where the consumer is in a take. */
  datatype ConsumerPc =
    | CIdle        // not taking
    | CCheck       // test whether there is another event to copy and room for it
    | CLoad        // about to copy an event
    | CAdvance     // about to add the number of copied events to front
    | CTest        // test whether the queue was full before
    | CLock        // about to lock the mutex
    | CSignal      // about to signal the condition variable, holding the mutex
    | CUnlock      // about to unlock

  /** Shared memory, the local variables of both threads, and the history of puts and takes. */
  datatype State = State(
    size: nat, front: nat, rear: nat, events: seq<Event>, mutex: Owner,
    ppc: ProducerPc, event: Event,
    cpc: ConsumerPc, room: nat, buffer: seq<Event>,
    accepted: seq<Event>, delivered: seq<Event>)

  datatype Action =
    | BeginPut(event: Event) | Check | LockPut | Recheck | EnterWait | WakeUp | Reacquire
    | AfterWait(killed: bool) | GiveUp | UnlockPut | Store | Publish
    | BeginTake(room: nat) | CheckMore | Load | Advance | TestFull | LockTake | Signal | UnlockTake

  /** The full test of the producer, in 32-bit arithmetic. */
  predicate Full(s: State) {
    s.rear == Wrap(s.front + s.size)
  }

  predicate Enabled(s: State, a: Action) {
    match a
    case BeginPut(_) => s.ppc == PIdle
    case Check => s.ppc == PCheck
    case LockPut => s.ppc == PLock && s.mutex == Nobody
    case Recheck => s.ppc == PRecheck
    case EnterWait => s.ppc == PEnterWait
    case WakeUp => s.ppc == PWaiting // the wait is timed
    case Reacquire => s.ppc == PReacquire && s.mutex == Nobody
    case AfterWait(_) => s.ppc == PWoken
    case GiveUp => s.ppc == PGiveUp
    case UnlockPut => s.ppc == PUnlock
    case Store => s.ppc == PStore && 0 < s.size == |s.events|
    case Publish => s.ppc == PPublish
    case BeginTake(_) => s.cpc == CIdle && s.front != s.rear
    case CheckMore => s.cpc == CCheck
    case Load => s.cpc == CLoad && 0 < s.size == |s.events|
    case Advance => s.cpc == CAdvance
    case TestFull => s.cpc == CTest
    case LockTake => s.cpc == CLock && s.mutex == Nobody
    case Signal => s.cpc == CSignal
    case UnlockTake => s.cpc == CUnlock
  }

  function Step(s: State, a: Action): State
    requires Enabled(s, a)
  {
    match a
    case BeginPut(e) => s.(ppc := PCheck, event := e)
    case Check => s.(ppc := if Full(s) then PLock else PStore)
    case LockPut => s.(ppc := PRecheck, mutex := Producer)
    case Recheck => s.(ppc := if Full(s) then PEnterWait else PUnlock)
    case EnterWait => s.(ppc := PWaiting, mutex := Nobody)
    case WakeUp => s.(ppc := PReacquire)
    case Reacquire => s.(ppc := PWoken, mutex := Producer)
    case AfterWait(killed) => s.(ppc := if killed then PGiveUp else PRecheck)
    case GiveUp => s.(ppc := PIdle, mutex := Nobody)
    case UnlockPut => s.(ppc := PStore, mutex := Nobody)
    case Store => s.(ppc := PPublish, events := s.events[Slot(s.rear, s.size) := s.event])
    case Publish => s.(ppc := PIdle, rear := Wrap(s.rear + 1), accepted := s.accepted + [s.event])
    case BeginTake(room) => s.(cpc := CCheck, room := room, buffer := [])
    case CheckMore =>
      s.(cpc := if |s.buffer| < s.room && Wrap(s.rear - s.front - |s.buffer|) != 0 then CLoad else CAdvance)
    case Load => s.(cpc := CCheck, buffer := s.buffer + [s.events[Slot(Wrap(s.front + |s.buffer|), s.size)]])
    case Advance =>
      s.(cpc := CTest, front := Wrap(s.front + |s.buffer|), delivered := s.delivered + s.buffer)
    case TestFull => s.(cpc := if Wrap(s.rear - s.front + |s.buffer|) == s.size then CLock else CIdle)
    case LockTake => s.(cpc := CSignal, mutex := Consumer)
    case Signal => s.(cpc := CUnlock, ppc := if s.ppc == PWaiting then PReacquire else s.ppc)
    case UnlockTake => s.(cpc := CIdle, mutex := Nobody)
  }

  ghost predicate Initial(s: State) {
    && |s.events| == s.size && s.front == s.rear == 0 && s.mutex == Nobody
    && s.ppc == PIdle && s.cpc == CIdle && s.buffer == [] && s.accepted == [] && s.delivered == []
  }

  // ----- The invariant -----

  function Taken(s: State): nat {
    |s.delivered|
  }

  function Put(s: State): nat {
    |s.accepted|
  }

  /** The ring holds exactly the events put and not yet taken, in order. */
  ghost predicate Ring(s: State) {
    && 0 < s.size == |s.events| <= 0x8000_0000 && WORD % s.size == 0
    && s.front == Wrap(Taken(s)) && s.rear == Wrap(Put(s))
    && Taken(s) <= Put(s) <= Taken(s) + s.size
    && s.delivered == s.accepted[..Taken(s)]
    && forall k :: Taken(s) <= k < Put(s) ==> s.events[Slot(k, s.size)] == s.accepted[k]
  }

  ghost predicate ProducerOk(s: State)
    requires s.size == |s.events| && s.size > 0
  {
    && (s.mutex == Producer <==> s.ppc in {PRecheck, PEnterWait, PWoken, PGiveUp, PUnlock})
    && (s.ppc in {PUnlock, PStore, PPublish} ==> Put(s) < Taken(s) + s.size)
    && (s.ppc == PPublish ==> s.events[Slot(Put(s), s.size)] == s.event)
  }

  ghost predicate ConsumerOk(s: State) {
    && (s.mutex == Consumer <==> s.cpc in {CSignal, CUnlock})
    && (s.cpc in {CCheck, CLoad, CAdvance} ==>
          Taken(s) + |s.buffer| <= Put(s) && s.buffer == s.accepted[Taken(s)..Taken(s) + |s.buffer|])
    && (s.cpc == CLoad ==> Taken(s) + |s.buffer| < Put(s))
    && (s.cpc == CTest ==> |s.buffer| <= s.size)
  }

  /** The consumer is on its way to a signal that it is bound to send. */
  ghost predicate SignalDue(s: State) {
    || (s.cpc == CTest && Put(s) - Taken(s) + |s.buffer| == s.size)
    || s.cpc == CLock
    || s.cpc == CSignal
  }

  /** A producer that waits, or is about to, either faces a full queue or will be signalled. */
  ghost predicate WakeOk(s: State) {
    s.ppc in {PEnterWait, PWaiting} ==> Put(s) == Taken(s) + s.size || SignalDue(s)
  }

  ghost predicate Inv(s: State) {
    Ring(s) && ProducerOk(s) && ConsumerOk(s) && WakeOk(s)
  }

  lemma FullTest(s: State)
    requires Ring(s)
    ensures Full(s) <==> Put(s) == Taken(s) + s.size
  {
    hide Wrap, Slot;
    WrapEqual(Taken(s), Put(s), s.size);
  }

  lemma MoreTest(s: State)
    requires Ring(s) && Taken(s) + |s.buffer| <= Put(s)
    ensures Wrap(s.rear - s.front - |s.buffer|) == Put(s) - Taken(s) - |s.buffer|
  {
    hide Wrap, Slot;
    WrapMinus(Taken(s), Put(s), |s.buffer|);
  }

  lemma WasFullTest(s: State)
    requires Ring(s) && |s.buffer| <= s.size
    ensures Wrap(s.rear - s.front + |s.buffer|) == s.size <==> Put(s) - Taken(s) + |s.buffer| == s.size
  {
    hide Wrap, Slot;
    WrapPlus(Taken(s), Put(s), |s.buffer|);
  }

  lemma StoreKeepsInv(s: State)
    requires Inv(s) && Enabled(s, Store)
    ensures Inv(Step(s, Store))
  {
    hide Wrap, Slot;
    SlotOfWrapped(Put(s), s.size);
    forall k | Taken(s) <= k < Put(s)
      ensures Slot(k, s.size) != Slot(Put(s), s.size)
    {
      SlotsDiffer(k, Put(s), s.size);
    }
  }

  lemma PublishKeepsInv(s: State)
    requires Inv(s) && Enabled(s, Publish)
    ensures Inv(Step(s, Publish))
  {
    hide Wrap, Slot, Ring;
    RingSizes(s);
    PublishKeepsRing(s);
    var t := Step(s, Publish);
    assert s.cpc in {CCheck, CLoad, CAdvance} ==>
        t.accepted[Taken(s)..Taken(s) + |s.buffer|] == s.accepted[Taken(s)..Taken(s) + |s.buffer|];
  }

  lemma PublishKeepsRing(s: State)
    requires Ring(s) && Put(s) < Taken(s) + s.size && s.events[Slot(Put(s), s.size)] == s.event
    ensures var t := s.(ppc := PIdle, rear := Wrap(s.rear + 1), accepted := s.accepted + [s.event]); Ring(t)
  {
    hide Wrap, Slot;
    WrapAdd(Put(s), 1);
    assert (s.accepted + [s.event])[..Taken(s)] == s.accepted[..Taken(s)];
  }

  lemma RingSizes(s: State)
    requires Ring(s)
    ensures 0 < s.size == |s.events| && Taken(s) <= Put(s) <= Taken(s) + s.size
  {
    hide Wrap, Slot;
  }

  lemma LoadKeepsInv(s: State)
    requires Inv(s) && Enabled(s, Load)
    ensures Inv(Step(s, Load))
  {
    hide Wrap, Slot, Ring;
    var k := Taken(s) + |s.buffer|;
    SameRing(s, Step(s, Load));
    LoadedEvent(s, k);
    assert s.accepted[Taken(s)..k + 1] == s.accepted[Taken(s)..k] + [s.accepted[k]];
  }

  /** The event that the consumer copies next. */
  lemma LoadedEvent(s: State, k: nat)
    requires Ring(s) && k == Taken(s) + |s.buffer| < Put(s)
    ensures s.size == |s.events| && s.size > 0
    ensures s.events[Slot(Wrap(s.front + |s.buffer|), s.size)] == s.accepted[k]
  {
    hide Wrap, Slot;
    WrapAdd(Taken(s), |s.buffer|);
    SlotOfWrapped(k, s.size);
  }

  lemma AdvanceKeepsInv(s: State)
    requires Inv(s) && Enabled(s, Advance)
    ensures Inv(Step(s, Advance))
  {
    hide Wrap, Slot;
    WrapAdd(Taken(s), |s.buffer|);
    var t := Step(s, Advance);
    assert s.accepted[..Taken(t)] == s.accepted[..Taken(s)] + s.accepted[Taken(s)..Taken(t)];
  }

  /** Steps that change neither the ring nor the history. */
  predicate IsLocal(a: Action) {
    !(a.Store? || a.Publish? || a.Load? || a.Advance?)
  }

  predicate TakesLocally(a: Action) {
    a.CheckMore? || a.TestFull? || a.BeginTake? || a.LockTake? || a.Signal? || a.UnlockTake?
  }

  lemma SameRing(s: State, t: State)
    requires Ring(s) && (t.size, t.front, t.rear, t.events) == (s.size, s.front, s.rear, s.events)
    requires t.accepted == s.accepted && t.delivered == s.delivered
    ensures Ring(t)
  {
  }

  lemma LocalStepKeepsInv(s: State, a: Action)
    requires Inv(s) && Enabled(s, a) && IsLocal(a)
    ensures Inv(Step(s, a))
  {
    hide Wrap, Slot, Full, Ring, ProducerOk, ConsumerOk, WakeOk;
    SameRing(s, Step(s, a));
    RingHasSize(s);
    if TakesLocally(a) {
      LocalTake(s, a);
    } else {
      LocalPut(s, a);
    }
  }

  lemma RingHasSize(s: State)
    requires Ring(s)
    ensures s.size == |s.events| && s.size > 0
  {
  }

  lemma LocalPut(s: State, a: Action)
    requires Ring(s) && s.size == |s.events| && s.size > 0 && ProducerOk(s) && ConsumerOk(s) && WakeOk(s)
    requires Enabled(s, a) && IsLocal(a)
    requires !TakesLocally(a)
    ensures var t := Step(s, a); ProducerOk(t) && ConsumerOk(t) && WakeOk(t)
  {
    hide Wrap, Slot, Full, Ring;
    RingOrder(s);
    if a.Check? || a.Recheck? {
      FullTest(s);
    }
  }

  lemma LocalTake(s: State, a: Action)
    requires Ring(s) && s.size == |s.events| && s.size > 0 && ProducerOk(s) && ConsumerOk(s) && WakeOk(s)
    requires Enabled(s, a)
    requires TakesLocally(a)
    ensures var t := Step(s, a); ProducerOk(t) && ConsumerOk(t) && WakeOk(t)
  {
    hide Wrap, Slot, Full, Ring, ProducerOk, ConsumerOk, WakeOk;
    TakesKeepProducerOk(s, a);
    TakesKeepConsumerOk(s, a);
    TakesKeepWakeOk(s, a);
  }

  lemma TakesKeepProducerOk(s: State, a: Action)
    requires s.size == |s.events| && s.size > 0 && ProducerOk(s) && ConsumerOk(s) && Enabled(s, a)
    requires TakesLocally(a)
    ensures ProducerOk(Step(s, a))
  {
    hide Wrap, Slot, Full;
  }

  lemma TakesKeepConsumerOk(s: State, a: Action)
    requires Ring(s) && ConsumerOk(s) && Enabled(s, a)
    requires TakesLocally(a)
    ensures ConsumerOk(Step(s, a))
  {
    hide Wrap, Slot, Full, Ring;
    RingOrder(s);
    if a.CheckMore? {
      MoreTest(s);
    }
  }

  lemma TakesKeepWakeOk(s: State, a: Action)
    requires Ring(s) && s.size == |s.events| && s.size > 0 && ProducerOk(s) && ConsumerOk(s) && WakeOk(s) && Enabled(s, a)
    requires TakesLocally(a)
    ensures WakeOk(Step(s, a))
  {
    hide Wrap, Slot, Full, Ring;
    if a.TestFull? {
      WasFullTest(s);
    }
  }

  lemma RingOrder(s: State)
    requires Ring(s)
    ensures Taken(s) <= Put(s) <= Taken(s) + s.size
  {
  }

  /** Every step of either thread keeps the invariant. */
  lemma StepKeepsInv(s: State, a: Action)
    requires Inv(s) && Enabled(s, a)
    ensures Inv(Step(s, a))
  {
    hide Inv, Step;
    match a
    case Store => StoreKeepsInv(s);
    case Publish => PublishKeepsInv(s);
    case Load => LoadKeepsInv(s);
    case Advance => AdvanceKeepsInv(s);
    case _ => LocalStepKeepsInv(s, a);
  }

  // ----- Runs -----

  /** The state after a sequence of actions; `None` if one of them was not enabled. */
  function After(init: State, actions: seq<Action>): Option<State> {
    if |actions| == 0 then Some(init)
    else
      var before := After(init, actions[..|actions| - 1]);
      var a := actions[|actions| - 1];
      if before.Some? && Enabled(before.value, a) then Some(Step(before.value, a)) else None
  }

  ghost predicate FitForUse(init: State) {
    Initial(init) && 0 < init.size <= 0x8000_0000 && WORD % init.size == 0
  }

  /** Every queue whose size has been rounded up to a power of two, at most 2^31, can be used. */
  lemma PowersFit(init: State, e: nat)
    requires Initial(init) && init.size == Pow2(e) <= 0x8000_0000
    ensures FitForUse(init)
  {
    hide Pow2;
    Pow2Bound(e);
  }

  lemma {:induction false} RunsKeepInv(init: State, actions: seq<Action>)
    requires FitForUse(init) && After(init, actions).Some?
    ensures Inv(After(init, actions).value) && After(init, actions).value.size == init.size
  {
    if |actions| == 0 {
      InitialInv(init);
    } else {
      hide Inv, Step, Enabled;
      RunsKeepInv(init, actions[..|actions| - 1]);
      var before := After(init, actions[..|actions| - 1]).value;
      StepKeepsInv(before, actions[|actions| - 1]);
      StepKeepsSize(before, actions[|actions| - 1]);
    }
  }

  lemma InitialInv(init: State)
    requires FitForUse(init)
    ensures Inv(init)
  {
  }

  lemma StepKeepsSize(s: State, a: Action)
    requires Enabled(s, a)
    ensures Step(s, a).size == s.size
  {
  }

  /**
   In every run the events delivered, followed by those copied but not yet delivered, are the
   first events accepted, in order: nothing is lost, duplicated, reordered or overwritten.
   */
  lemma FirstInFirstOut(init: State, actions: seq<Action>)
    requires FitForUse(init) && After(init, actions).Some?
    ensures var s := After(init, actions).value;
            && s.delivered <= s.accepted && |s.accepted| - |s.delivered| <= s.size
            && (s.cpc in {CCheck, CLoad, CAdvance} ==> s.delivered + s.buffer <= s.accepted)
  {
    RunsKeepInv(init, actions);
    var s := After(init, actions).value;
    if s.cpc in {CCheck, CLoad, CAdvance} {
      var k := Taken(s) + |s.buffer|;
      assert s.accepted[..k] == s.accepted[..Taken(s)] + s.accepted[Taken(s)..k];
    }
  }

  /**
   In every run, when the producer is blocked on the condition variable although its queue is not
   full, the consumer is past its front update and bound to send a signal.
   */
  lemma NoLostWakeUp(init: State, actions: seq<Action>)
    requires FitForUse(init) && After(init, actions).Some?
    ensures var s := After(init, actions).value;
            s.ppc == PWaiting && |s.accepted| < |s.delivered| + s.size ==> SignalDue(s)
  {
    RunsKeepInv(init, actions);
  }

  /** The step of the consumer that brings a due signal closer. */
  function TowardsSignal(s: State): Action {
    match s.cpc
    case CTest => TestFull
    case CLock => LockTake
    case _ => Signal
  }

  function StepsToSignal(s: State): nat {
    match s.cpc
    case CTest => 3
    case CLock => 2
    case _ => 1
  }

  /** And it cannot be held up: the next step of the consumer is possible and brings the wake-up closer. */
  lemma SignalArrives(s: State)
    requires Inv(s) && s.ppc == PWaiting && SignalDue(s)
    ensures Enabled(s, TowardsSignal(s))
    ensures var t := Step(s, TowardsSignal(s));
            || t.ppc == PReacquire
            || (t.ppc == PWaiting && SignalDue(t) && StepsToSignal(t) < StepsToSignal(s))
  {
    hide Wrap, Slot;
    if s.cpc == CTest {
      WasFullTest(s);
    }
  }

  // ----- What one call does by itself -----

  lemma RunMore(s: State, front: seq<Action>, a: Action)
    ensures After(s, front + [a]) ==
            match After(s, front)
            case None => None
            case Some(t) => if Enabled(t, a) then Some(Step(t, a)) else None
  {
    assert (front + [a])[..|front + [a]| - 1] == front;
  }

  lemma RunOne(s: State, a: Action)
    ensures After(s, [a]) == if Enabled(s, a) then Some(Step(s, a)) else None
  {
    assert [a][..0] == [];
  }

  lemma {:induction false} RunBoth(s: State, one: seq<Action>, other: seq<Action>)
    requires After(s, one).Some?
    ensures After(s, one + other) == After(After(s, one).value, other)
    decreases |other|
  {
    if |other| == 0 {
      assert one + other == one;
    } else {
      var front, a := other[..|other| - 1], other[|other| - 1];
      assert one + other == (one + front) + [a];
      RunBoth(s, one, front);
      RunMore(s, one + front, a);
    }
  }

  lemma StoreAlone(s: State)
    requires Inv(s) && s.ppc == PStore
    ensures After(s, [Store, Publish]).Some?
    ensures var t := After(s, [Store, Publish]).value;
            && t.ppc == PIdle && t.accepted == s.accepted + [s.event] && t.delivered == s.delivered
            && t.mutex == s.mutex && t.cpc == s.cpc
  {
    hide Wrap, Slot, Ring, ProducerOk, ConsumerOk, WakeOk, After;
    RingHasSize(s);
    RunOne(s, Store);
    RunMore(s, [Store], Publish);
    assert [Store] + [Publish] == [Store, Publish];
  }

  /** A put into a queue that is not full stores the event and is done. */
  lemma PutAlone(s: State, e: Event)
    requires Inv(s) && s.ppc == PIdle && |s.accepted| < |s.delivered| + s.size
    ensures After(s, [BeginPut(e), Check] + [Store, Publish]).Some?
    ensures var t := After(s, [BeginPut(e), Check] + [Store, Publish]).value;
            && t.ppc == PIdle && t.accepted == s.accepted + [e] && t.delivered == s.delivered
            && t.mutex == s.mutex && t.cpc == s.cpc
  {
    hide Wrap, Slot, Full, Ring, ProducerOk, ConsumerOk, WakeOk, After;
    var s1 := Step(s, BeginPut(e));
    StepKeepsInv(s, BeginPut(e));
    FullTest(s1);
    StepKeepsInv(s1, Check);
    RunOne(s, BeginPut(e));
    RunMore(s, [BeginPut(e)], Check);
    assert [BeginPut(e)] + [Check] == [BeginPut(e), Check];
    StoreAlone(Step(s1, Check));
    RunBoth(s, [BeginPut(e), Check], [Store, Publish]);
  }

  /** A put into a full queue ends up waiting, with the mutex released. */
  lemma PutWaits(s: State, e: Event)
    requires Inv(s) && s.ppc == PIdle && |s.accepted| == |s.delivered| + s.size && s.mutex == Nobody
    ensures After(s, [BeginPut(e), Check, LockPut, Recheck, EnterWait]).Some?
    ensures var t := After(s, [BeginPut(e), Check, LockPut, Recheck, EnterWait]).value;
            t.ppc == PWaiting && t.event == e && t.mutex == Nobody && t.accepted == s.accepted && t.delivered == s.delivered
  {
    hide Wrap, Slot, Full, Ring, ProducerOk, ConsumerOk, WakeOk, After;
    var s1 := Step(s, BeginPut(e));
    StepKeepsInv(s, BeginPut(e));
    FullTest(s1);
    var s2 := Step(s1, Check);
    StepKeepsInv(s1, Check);
    var s3 := Step(s2, LockPut);
    StepKeepsInv(s2, LockPut);
    FullTest(s3);
    RunOne(s, BeginPut(e));
    RunMore(s, [BeginPut(e)], Check);
    RunMore(s, [BeginPut(e), Check], LockPut);
    RunMore(s, [BeginPut(e), Check, LockPut], Recheck);
    RunMore(s, [BeginPut(e), Check, LockPut, Recheck], EnterWait);
    assert [BeginPut(e)] + [Check] == [BeginPut(e), Check];
    assert [BeginPut(e), Check] + [LockPut] == [BeginPut(e), Check, LockPut];
    assert [BeginPut(e), Check, LockPut] + [Recheck] == [BeginPut(e), Check, LockPut, Recheck];
    assert [BeginPut(e), Check, LockPut, Recheck] + [EnterWait] == [BeginPut(e), Check, LockPut, Recheck, EnterWait];
  }

  /** A put that has been woken up and finds room stores its event. */
  lemma WokenPut(s: State)
    requires Inv(s) && s.ppc == PReacquire && s.mutex == Nobody && |s.accepted| < |s.delivered| + s.size
    ensures var actions := [Reacquire, AfterWait(false), Recheck, UnlockPut] + [Store, Publish];
            && After(s, actions).Some?
            && var t := After(s, actions).value;
               t.ppc == PIdle && t.mutex == Nobody && t.accepted == s.accepted + [s.event] && t.delivered == s.delivered
  {
    hide Wrap, Slot, Full, Ring, ProducerOk, ConsumerOk, WakeOk, Inv, After;
    var s1 := Step(s, Reacquire);
    StepKeepsInv(s, Reacquire);
    var s2 := Step(s1, AfterWait(false));
    StepKeepsInv(s1, AfterWait(false));
    RoomTest(s2);
    var s3 := Step(s2, Recheck);
    StepKeepsInv(s2, Recheck);
    StepKeepsInv(s3, UnlockPut);
    var a1, a2, a3 := [Reacquire], [Reacquire, AfterWait(false)], [Reacquire, AfterWait(false), Recheck];
    RunOne(s, Reacquire);
    RunMore(s, a1, AfterWait(false));
    RunMore(s, a2, Recheck);
    RunMore(s, a3, UnlockPut);
    assert a1 + [AfterWait(false)] == a2 && a2 + [Recheck] == a3;
    assert a3 + [UnlockPut] == [Reacquire, AfterWait(false), Recheck, UnlockPut];
    StoreAlone(Step(s3, UnlockPut));
    RunBoth(s, [Reacquire, AfterWait(false), Recheck, UnlockPut], [Store, Publish]);
  }

  lemma RoomTest(s: State)
    requires Inv(s)
    ensures Full(s) <==> |s.accepted| == |s.delivered| + s.size
  {
    hide Ring, ProducerOk, ConsumerOk, WakeOk;
    FullTest(s);
  }

  /** A waiting put may wake up by itself, as its wait is timed. */
  lemma TimedWait(s: State)
    requires s.ppc == PWaiting
    ensures Enabled(s, WakeUp) && Step(s, WakeUp) == s.(ppc := PReacquire)
  {
  }

  /** A waiting put whose thread is killed drops its event and releases the mutex. */
  lemma KilledPut(s: State)
    requires Inv(s) && s.ppc == PReacquire && s.mutex == Nobody
    ensures After(s, [Reacquire, AfterWait(true), GiveUp]).Some?
    ensures var t := After(s, [Reacquire, AfterWait(true), GiveUp]).value;
            t.ppc == PIdle && t.mutex == Nobody && t.accepted == s.accepted && t.delivered == s.delivered
  {
    hide Wrap, Slot, Full, Ring, ProducerOk, ConsumerOk, WakeOk, After;
    RunOne(s, Reacquire);
    RunMore(s, [Reacquire], AfterWait(true));
    RunMore(s, [Reacquire, AfterWait(true)], GiveUp);
    assert [Reacquire] + [AfterWait(true)] == [Reacquire, AfterWait(true)];
    assert [Reacquire, AfterWait(true)] + [GiveUp] == [Reacquire, AfterWait(true), GiveUp];
  }

  /** The consumer actions that copy `n` events. */
  function Copying(n: nat): seq<Action> {
    if n == 0 then [CheckMore] else [CheckMore, Load] + Copying(n - 1)
  }

  /** From the first test on, a take copies as many events as there are and as it has room for. */
  lemma {:induction false} CopyAlone(s: State, n: nat)
    requires Inv(s) && s.cpc == CCheck && |s.buffer| <= s.room
    requires n == if s.room <= |s.accepted| - |s.delivered| then s.room - |s.buffer| else |s.accepted| - |s.delivered| - |s.buffer|
    ensures After(s, Copying(n)).Some?
    ensures var t := After(s, Copying(n)).value;
            && Inv(t) && t.cpc == CAdvance && t.ppc == s.ppc && t.mutex == s.mutex && |t.buffer| == |s.buffer| + n
            && t.accepted == s.accepted && t.delivered == s.delivered && t.size == s.size
    decreases n
  {
    hide Wrap, Slot, Full, Ring, ProducerOk, WakeOk;
    BufferIsThere(s);
    MoreTest(s);
    RunOne(s, CheckMore);
    StepKeepsInv(s, CheckMore);
    if n > 0 {
      var s1 := Step(s, CheckMore);
      RingHasSize(s1);
      StepKeepsInv(s1, Load);
      RunMore(s, [CheckMore], Load);
      assert [CheckMore] + [Load] == [CheckMore, Load];
      CopyAlone(Step(s1, Load), n - 1);
      RunBoth(s, [CheckMore, Load], Copying(n - 1));
    }
  }

  lemma BufferIsThere(s: State)
    requires Inv(s) && s.cpc == CCheck
    ensures Taken(s) + |s.buffer| <= Put(s)
  {
    hide Ring, ProducerOk, WakeOk;
  }

  /**
   A take delivers the next events, as many as there are and as it has room for, and then is done
   unless the queue was full: then it is about to signal.
   */
  lemma TakeAlone(s: State, room: nat)
    requires Inv(s) && s.cpc == CIdle && |s.delivered| < |s.accepted|
    ensures var there := |s.accepted| - |s.delivered|;
            var n := if room <= there then room else there;
            var actions := [BeginTake(room)] + Copying(n) + [Advance, TestFull];
            && After(s, actions).Some?
            && var t := After(s, actions).value;
               && t.accepted == s.accepted && t.delivered == s.accepted[..|s.delivered| + n] && t.ppc == s.ppc && t.mutex == s.mutex
               && t.cpc == if there == s.size then CLock else CIdle
  {
    hide Inv, Step, Enabled, After, Copying;
    var there := |s.accepted| - |s.delivered|;
    var n := if room <= there then room else there;
    StartTake(s, room);
    CopyAlone(After(s, [BeginTake(room)]).value, n);
    RunBoth(s, [BeginTake(room)], Copying(n));
    var copied := [BeginTake(room)] + Copying(n);
    HandOver(After(s, copied).value, n);
    RunBoth(s, copied, [Advance, TestFull]);
  }

  lemma StartTake(s: State, room: nat)
    requires Inv(s) && s.cpc == CIdle && |s.delivered| < |s.accepted|
    ensures After(s, [BeginTake(room)]) == Some(s.(cpc := CCheck, room := room, buffer := []))
    ensures Inv(s.(cpc := CCheck, room := room, buffer := []))
  {
    hide Wrap, Slot, Full, Ring, ProducerOk, ConsumerOk, WakeOk;
    NotEmpty(s);
    RunOne(s, BeginTake(room));
    StepKeepsInv(s, BeginTake(room));
  }

  lemma HandOver(s: State, n: nat)
    requires Inv(s) && s.cpc == CAdvance && n == |s.buffer|
    ensures After(s, [Advance, TestFull]).Some?
    ensures var t := After(s, [Advance, TestFull]).value;
            && |s.delivered| + n <= |s.accepted| && t.delivered == s.accepted[..|s.delivered| + n]
            && t.accepted == s.accepted && t.ppc == s.ppc && t.mutex == s.mutex
            && t.cpc == if |s.accepted| - |s.delivered| == s.size then CLock else CIdle
  {
    hide Wrap, Slot, Full, Inv, Step, Enabled, After;
    Advanced(s);
    StepKeepsInv(s, Advance);
    LastStep(Step(s, Advance));
    RunOne(s, Advance);
    RunMore(s, [Advance], TestFull);
    assert [Advance] + [TestFull] == [Advance, TestFull];
  }

  lemma Advanced(s: State)
    requires Inv(s) && s.cpc == CAdvance
    ensures Enabled(s, Advance)
    ensures var t := Step(s, Advance);
            && t.cpc == CTest && t.buffer == s.buffer && t.accepted == s.accepted && t.ppc == s.ppc && t.mutex == s.mutex
            && t.size == s.size && |s.delivered| + |s.buffer| <= |s.accepted|
            && t.delivered == s.accepted[..|s.delivered| + |s.buffer|]
  {
    hide Wrap, Slot, Full, Ring, ProducerOk, WakeOk;
    Delivered(s);
    assert s.accepted[..|s.delivered|] + s.accepted[|s.delivered|..|s.delivered| + |s.buffer|] == s.accepted[..|s.delivered| + |s.buffer|];
  }

  lemma LastStep(s: State)
    requires Inv(s) && s.cpc == CTest
    ensures Enabled(s, TestFull)
    ensures var t := Step(s, TestFull);
            && t.delivered == s.delivered && t.accepted == s.accepted && t.ppc == s.ppc && t.mutex == s.mutex
            && t.cpc == if Put(s) - Taken(s) + |s.buffer| == s.size then CLock else CIdle
  {
    hide Wrap, Slot, Full, Ring, ProducerOk, WakeOk;
    WasFullTest(s);
  }

  lemma Delivered(s: State)
    requires Ring(s)
    ensures s.delivered == s.accepted[..|s.delivered|]
  {
    hide Wrap, Slot;
  }

  lemma NotEmpty(s: State)
    requires Ring(s) && |s.delivered| < |s.accepted|
    ensures s.front != s.rear
  {
    hide Wrap, Slot;
    WrapEqual(Taken(s), Put(s), 0);
    WrapAdd(Taken(s), 0);
  }

  /** After a take from a full queue a waiting put is woken up, and the mutex is free again. */
  lemma SignalAlone(s: State)
    requires Inv(s) && s.cpc == CLock && s.mutex == Nobody
    ensures After(s, [LockTake, Signal, UnlockTake]).Some?
    ensures var t := After(s, [LockTake, Signal, UnlockTake]).value;
            && t.cpc == CIdle && t.mutex == Nobody && t.accepted == s.accepted && t.delivered == s.delivered
            && t.ppc == if s.ppc == PWaiting then PReacquire else s.ppc
  {
    hide Wrap, Slot, Full, Inv, After;
    RunOne(s, LockTake);
    RunMore(s, [LockTake], Signal);
    RunMore(s, [LockTake, Signal], UnlockTake);
    assert [LockTake] + [Signal] == [LockTake, Signal];
    assert [LockTake, Signal] + [UnlockTake] == [LockTake, Signal, UnlockTake];
  }

  // ----- A queue whose requested size exceeds 2^31 -----

  /** Its size wraps to zero; the empty queue then passes for full, and no event is ever accepted. */
  lemma {:induction false} OversizedQueueAcceptsNothing(init: State, actions: seq<Action>)
    requires Initial(init) && init.size == 0 && After(init, actions).Some?
    ensures var s := After(init, actions).value;
            s.accepted == [] && s.delivered == [] && s.ppc !in {PUnlock, PStore, PPublish}
  {
    StuckForever(init, actions);
  }

  /** Nothing in the queue, and neither thread past its first test. */
  ghost predicate Stuck(s: State) {
    && s.size == 0 && s.front == s.rear == 0 && s.accepted == [] && s.delivered == []
    && s.ppc !in {PUnlock, PStore, PPublish} && s.cpc == CIdle
  }

  lemma StuckStep(s: State, a: Action)
    requires Stuck(s) && Enabled(s, a)
    ensures Stuck(Step(s, a))
  {
    hide Slot;
    WrapZero();
  }

  lemma {:induction false} StuckForever(init: State, actions: seq<Action>)
    requires Initial(init) && init.size == 0 && After(init, actions).Some?
    ensures Stuck(After(init, actions).value)
  {
    if |actions| > 0 {
      var front := actions[..|actions| - 1];
      StuckForever(init, front);
      StuckStep(After(init, front).value, actions[|actions| - 1]);
    }
  }
}
