/** The transmit side of the CAN driver itself.  Every method is a run of the protocol; while
    a writer sleeps, other writers and the interrupt take any of its steps. */
module CanDriver {
  import opened CanRing
  import opened CanProtocol

  /** What happens while a writer sleeps: a step of somebody else, or the scheduler gets to
      the writer. */
  datatype Event = Other(a: Action) | Scheduled

  /** How a wait ends, if it does. */
  datatype Outcome = Posted | WaitFailed | StillWaiting

  datatype Status = Sent | Again | Failed | NotReturned

  predicate OnlyInterrupts(events: seq<Event>) {
    forall e | e in events :: e.Other? ==> e.a == Complete
  }

  predicate NoneBlocked(events: seq<Event>) {
    forall e | e in events :: e.Other? ==> !e.a.WouldBlock?
  }

  class CanDevice {
    const buffer: array<Msg>
    var head: nat
    var tail: nat
    var waiters: nat
    var sem: nat
    var inFlight: bool
    // the tasks in the driver
    var asleep: multiset<Waiter>
    var running: Running
    // logs
    var sent: seq<Msg>
    var accepted: seq<Msg>

    ghost predicate Valid()
      reads this, buffer
    {
      waiters == |asleep| && Ok(Value())
    }

    function Value(): Can
      reads this, buffer
    {
      Can(buffer[..], head, tail, inFlight, sent, accepted, sem, asleep, running)
    }

    lemma ValidIsOk()
      requires Valid()
      ensures Ok(Value())
    {}

    constructor (size: nat, filler: Msg)
      requires size >= 2
      ensures Valid() && AtBoot(Value()) && buffer.Length == size && fresh(buffer)
    {
      buffer := new Msg[size](_ => filler);
      head, tail, waiters, sem, inFlight := 0, 0, 0, 0, false;
      asleep, running, sent, accepted := multiset{}, Idle, [], [];
    }

    method CanXmit()
      requires Valid()
      modifies `inFlight, `sent
      ensures Valid() && Value() == Xmit(old(Value()))
    {
      if head != tail {
        inFlight, sent := true, sent + [buffer[head]];
      }
    }

    method CanTxDone()
      requires Valid()
      modifies `inFlight, `sent, `head, `sem
      ensures Valid() && Value() == TxDone(old(Value()))
    {
      inFlight := false;
      if head != tail {
        head := Next(buffer.Length, head);
        CanXmit();
        if waiters > 0 {
          sem := sem + 1;
        }
      }
    }

    /** Enters the driver, with interrupts disabled. */
    method Enter(msgs: seq<Msg>)
      requires Valid() && running.Idle?
      modifies `running
      ensures Valid() && Value() == Step(old(Value()), Start(msgs))
    {
      running := Writing(msgs, head == tail, Next(buffer.Length, tail));
    }

    /** Stores the next message at the tail, and moves the tail to where the writer looked
        before. */
    method Store()
      requires Valid() && Enabled(Value(), Put)
      modifies buffer, `tail, `accepted, `running
      ensures Valid() && Value() == Step(old(Value()), Put)
    {
      var m, next := running.todo[0], running.next;
      buffer[tail] := m;
      tail, accepted := next, accepted + [m];
      running := Writing(running.todo[1..], running.empty, Next(buffer.Length, next));
    }

    /** Kicks off the transmission if nothing was being sent, and goes to sleep. */
    method FallAsleep()
      requires Valid() && Enabled(Value(), Sleep)
      modifies `inFlight, `sent, `waiters, `asleep, `running
      ensures Valid() && Value() == Step(old(Value()), Sleep)
    {
      hide Ok, Xmit;
      if running.empty {
        CanXmit();
      }
      waiters := waiters + 1;
      asleep, running := asleep + multiset{Waiter(running.todo, running.next)}, Idle;
      assert Value() == Step(old(Value()), Sleep);
    }

    method Abandon(w: Waiter)
      requires Valid() && Enabled(Value(), GiveUp(w))
      modifies `waiters, `asleep
      ensures Valid() && Value() == Step(old(Value()), GiveUp(w))
    {
      hide Ok;
      OneLess(asleep, w);
      waiters, asleep := waiters - 1, asleep - multiset{w};
      assert Value() == Step(old(Value()), GiveUp(w));
    }

    /** Takes the posted semaphore and looks at the FIFO again. */
    method GetUp(w: Waiter)
      requires Valid() && Enabled(Value(), Wake(w))
      modifies `waiters, `asleep, `sem, `running
      ensures Valid() && Value() == Step(old(Value()), Wake(w))
    {
      hide Ok, Gone;
      Abandon(w);
      sem, running := sem - 1, Writing(w.todo, head == tail, w.next);
      assert Value() == Step(old(Value()), Wake(w));
    }

    /** Kicks off the transmission if need be, and leaves the driver. */
    method Leave()
      requires Valid() && Enabled(Value(), Finish)
      modifies `inFlight, `sent, `running
      ensures Valid() && Value() == Step(old(Value()), Finish)
    {
      hide Ok, Xmit;
      if running.empty {
        CanXmit();
      }
      running := Idle;
      assert Value() == Step(old(Value()), Finish);
    }

    /** One step of anybody. */
    method Perform(a: Action)
      requires Valid() && Enabled(Value(), a)
      modifies this, buffer
      ensures Valid() && Value() == Step(old(Value()), a)
    {
      hide Valid, Ok, Enabled;
      match a {
        case Start(msgs) => assert running.Idle? by { IdleStart(Value(), msgs); } Enter(msgs);
        case Put => Store();
        case Sleep => FallAsleep();
        case Wake(w) => GetUp(w);
        case GiveUp(w) => Abandon(w);
        case Finish => Leave();
        case Complete => CanTxDone();
        case WouldBlock => Refuse();
      }
    }

    /** Leaves the driver without looking at the transmission. */
    method Refuse()
      requires Valid() && Enabled(Value(), WouldBlock)
      modifies `running
      ensures Valid() && Value() == Step(old(Value()), WouldBlock)
    {
      running := Idle;
    }

    /** The state is the one a run of the protocol leads to. */
    ghost predicate Reached(start: Can, acts: seq<Action>, blocking: bool, alone: bool)
      reads this, buffer
    {
      && Ok(start) && IsRun(start, acts) && Execute(start, acts) == Value()
      && Tidy(start, acts, blocking, alone)
    }

    /** The running writer is at this message. */
    predicate Carries(w: Waiter)
      reads this
    {
      running.Writing? && running.todo == w.todo && running.next == w.next
    }

    /** Waits for the semaphore.  What happens meanwhile is given; a step that is not possible
        when its turn comes does not happen, and the writer goes on only if it was posted. */
    method SemWait(w: Waiter, events: seq<Event>, ghost start: Can, ghost before: seq<Action>,
                   ghost blocking: bool, ghost alone: bool)
      returns (outcome: Outcome, left: seq<Event>, ghost acts: seq<Action>)
      requires Valid() && running.Idle? && w in asleep && Reached(start, before, blocking, alone)
      requires (blocking ==> NoneBlocked(events)) && (alone ==> OnlyInterrupts(events))
      modifies this, buffer
      ensures Valid() && Reached(start, acts, blocking, alone) && w in asleep
      ensures (blocking ==> NoneBlocked(left)) && (alone ==> OnlyInterrupts(left))
      ensures outcome.Posted? ==> running.Idle? && sem > 0 && |left| < |events|
      ensures outcome.WaitFailed? ==> running.Idle?
      ensures !outcome.Posted? ==> left == [] && (events != [] && events[|events| - 1].Scheduled? ==> !(running.Idle? && sem > 0))
      ensures |left| <= |events| && acts == before + Occurring(old(Value()), w, events[..|events| - |left|])
      ensures alone ==> running.Idle? && accepted == old(accepted) && !outcome.StillWaiting?
    {
      hide Valid, Ok, IsRun, Execute, Step, TxDone, Tidy, Enabled, Occurring;
      ghost var c0, seen := Value(), [];
      NoneYet(c0, w);
      assert before + [] == before;
      left, acts := events, before;
      while left != []
        invariant Valid() && Reached(start, acts, blocking, alone) && w in asleep
        invariant (blocking ==> NoneBlocked(left)) && (alone ==> OnlyInterrupts(left)) && |left| <= |events|
        invariant alone ==> running.Idle? && accepted == old(accepted)
        invariant seen + left == events && acts == before + Occurring(c0, w, seen) && Value() == Execute(c0, Occurring(c0, w, seen))
        invariant left == [] && seen != [] && seen[|seen| - 1].Scheduled? ==> !(running.Idle? && sem > 0)
        decreases |left|
      {
        var e := left[0];
        OneMoreEvent(c0, w, seen, e);
        assert seen + [e] + left[1..] == events;
        left, seen := left[1..], seen + [e];
        if e.Scheduled? {
          if running.Idle? && sem > 0 {
            return Posted, left, acts;
          }
        } else if Occurs(Value(), w, e) {
          StaysAsleep(Value(), e.a, w);
          RunStep(start, acts, e.a);
          TidyStep(start, acts, e.a, blocking, alone);
          if e.a == Complete { CompleteKeeps(Value()); }
          Perform(e.a);
          acts := acts + [e.a];
        }
      }
      outcome := if running.Idle? then WaitFailed else StillWaiting;
    }

    /** Waits until the place behind the tail, as it was when the message was begun, is not
        the head.  The place is not looked up again after a sleep. */
    method WaitForSpace(w: Waiter, nonblock: bool, events: seq<Event>, ghost start: Can, ghost before: seq<Action>,
                        ghost blocking: bool, ghost alone: bool)
      returns (status: Status, left: seq<Event>, ghost acts: seq<Action>)
      requires Valid() && Carries(w) && w.todo != [] && Reached(start, before, blocking, alone)
      requires (blocking ==> !nonblock && NoneBlocked(events)) && (alone ==> OnlyInterrupts(events))
      modifies this, buffer
      ensures Valid() && Reached(start, acts, blocking, alone)
      ensures (blocking ==> NoneBlocked(left)) && (alone ==> OnlyInterrupts(left))
      ensures status.Sent? ==> Carries(w) && w.next != head
      ensures !status.Sent? && !status.NotReturned? ==> running.Idle?
      ensures status.Again? ==> nonblock && acts == before + [WouldBlock] && w.next == old(head)
      ensures nonblock ==>
                && !status.Failed? && !status.NotReturned?
                && (status.Sent? ==> acts == before && Value() == old(Value()))
      ensures alone ==> accepted == old(accepted) && !status.NotReturned?
    {
      hide Valid, Ok, IsRun, Execute, Tidy, Step;
      left, acts := events, before;
      while w.next == head
        invariant Valid() && Reached(start, acts, blocking, alone)
        invariant Carries(w)
        invariant (blocking ==> NoneBlocked(left)) && (alone ==> OnlyInterrupts(left))
        invariant nonblock ==> acts == before && Value() == old(Value())
        invariant alone ==> accepted == old(accepted)
        decreases |left|
      {
        if nonblock {
          RunStep(start, acts, WouldBlock);
          TidyStep(start, acts, WouldBlock, blocking, alone);
          assert Step(Value(), WouldBlock) == Value().(running := Idle) by { WouldBlockKeeps(Value()); }
          Refuse();
          return Again, left, acts + [WouldBlock];
        }
        RunStep(start, acts, Sleep);
        TidyStep(start, acts, Sleep, blocking, alone);
        SleepKeeps(Value());
        FallAsleep();
        var outcome;
        outcome, left, acts := SemWait(w, left, start, acts + [Sleep], blocking, alone);
        if outcome.StillWaiting? {
          return NotReturned, left, acts;
        } else if outcome.WaitFailed? {
          RunStep(start, acts, GiveUp(w));
          TidyStep(start, acts, GiveUp(w), blocking, alone);
          LeaveKeeps(Value(), w);
          Abandon(w);
          return Failed, left, acts + [GiveUp(w)];
        }
        RunStep(start, acts, Wake(w));
        TidyStep(start, acts, Wake(w), blocking, alone);
        WakeKeeps(Value(), w);
        GetUp(w);
        acts := acts + [Wake(w)];
      }
      status := Sent;
    }

    /** Puts the next message once there seems to be room for it. */
    method PutNext(msgs: seq<Msg>, count: nat, nonblock: bool, events: seq<Event>, ghost start: Can, ghost before: seq<Action>,
                   ghost blocking: bool, ghost alone: bool)
      returns (status: Status, left: seq<Event>, ghost acts: seq<Action>)
      requires Valid() && Reached(start, before, blocking, alone)
      requires running.Writing? && count < |msgs| && running.todo == msgs[count..]
      requires (blocking ==> !nonblock && NoneBlocked(events)) && (alone ==> OnlyInterrupts(events))
      modifies this, buffer
      ensures Valid() && Reached(start, acts, blocking, alone)
      ensures (blocking ==> NoneBlocked(left)) && (alone ==> OnlyInterrupts(left))
      ensures status.Sent? ==> running.Writing? && running.todo == msgs[count + 1..]
      ensures !status.Sent? && !status.NotReturned? ==> running.Idle?
      ensures status.Again? ==> nonblock && acts == before + [WouldBlock] && old(running.next == head)
      ensures nonblock && !status.Again? ==> status.Sent? && acts == before + [Put] && old(running.next != head)
      ensures alone ==> !status.NotReturned? && accepted == old(accepted) + if status.Sent? then [msgs[count]] else []
    {
      hide Valid, Ok, IsRun, Execute, Tidy, Step;
      var w := Waiter(msgs[count..], running.next);
      status, left, acts := WaitForSpace(w, nonblock, events, start, before, blocking, alone);
      if status.Sent? {
        RunStep(start, acts, Put);
        TidyStep(start, acts, Put, blocking, alone);
        PutKeeps(Value(), msgs, count);
        Store();
        acts := acts + [Put];
      }
    }

    /** Puts all messages, or as many as it can. */
    method PutAll(msgs: seq<Msg>, nonblock: bool, events: seq<Event>, ghost start: Can, ghost blocking: bool, ghost alone: bool)
      returns (status: Status, count: nat, ghost acts: seq<Action>)
      requires Valid() && Reached(start, [Start(msgs)], blocking, alone) && start.running.Idle?
      requires running.Writing? && running.todo == msgs
      requires (blocking ==> !nonblock && NoneBlocked(events)) && (alone ==> OnlyInterrupts(events))
      modifies this, buffer
      ensures Valid() && Reached(start, acts, blocking, alone)
      ensures count <= |msgs| && (status.Sent? <==> count == |msgs|)
      ensures status.Sent? ==> running.Writing? && running.todo == []
      ensures !status.Sent? && !status.NotReturned? ==> running.Idle?
      ensures nonblock ==>
                && count == Fits(start, msgs) && !status.NotReturned?
                && acts == [Start(msgs)] + Puts(count) + if status.Sent? then [] else [WouldBlock]
      ensures alone ==> !status.NotReturned? && accepted == old(accepted) + msgs[..count]
    {
      hide Valid, Ok, IsRun, Execute, Step, Tidy, Queue, Puts, NoneBlocked, OnlyInterrupts, Fits;
      var left := events;
      acts, count, status := [Start(msgs)] + Puts(0), 0, Sent;
      NoPuts(msgs);
      QueueBounds(start);
      while count < |msgs|
        invariant count <= |msgs| && status.Sent? && running.Writing? && running.todo == msgs[count..]
        invariant Valid() && Reached(start, acts, blocking, alone)
        invariant (blocking ==> NoneBlocked(left)) && (alone ==> OnlyInterrupts(left))
        invariant nonblock ==> acts == [Start(msgs)] + Puts(count) && |Queue(start)| + count < |start.buffer|
        invariant alone ==> accepted == old(accepted) + msgs[..count]
      {
        if nonblock { FullExactly(start, msgs, count); }
        status, left, acts := PutNext(msgs, count, nonblock, left, start, acts, blocking, alone);
        if !status.Sent? {
          return status, count, acts;
        }
        count := count + 1;
        MorePuts(msgs, count);
        Prefix(msgs, count);
      }
      if nonblock { AllFit(start, msgs); }
    }

    /** Writes messages.  The call is a run of the protocol, in which whatever others do while
        it sleeps has its place.  A non-blocking call only puts what fits.  If nobody else is
        in the driver, a prefix of the messages is accepted, in order. */
    method CanWrite(msgs: seq<Msg>, nonblock: bool, events: seq<Event>)
      returns (status: Status, count: nat, ghost acts: seq<Action>)
      requires Valid() && running.Idle?
      modifies this, buffer
      ensures Valid() && IsRun(old(Value()), acts) && Value() == Execute(old(Value()), acts)
      ensures count <= |msgs| && (status.Sent? <==> count == |msgs|)
      ensures !status.NotReturned? ==> running.Idle?
      ensures !nonblock && NoneBlocked(events) ==> Blocking(acts)
      ensures nonblock ==> acts == NonBlockingWrite(old(Value()), msgs)
      ensures OnlyInterrupts(events) && old(asleep) == multiset{} ==>
                OneWriter(old(Value()), acts) && accepted == old(accepted) + msgs[..count] && !status.NotReturned?
    {
      hide Valid, Ok, IsRun, Execute, Step, Fits, Puts, Blocking, OneWriter, NoneBlocked, OnlyInterrupts, Enabled;
      ghost var start := Value();
      ValidIsOk();
      ghost var blocking, alone := !nonblock && NoneBlocked(events), OnlyInterrupts(events) && asleep == multiset{};
      NothingDone(start, msgs, blocking, alone);
      Enter(msgs);
      status, count, acts := PutAll(msgs, nonblock, events, start, blocking, alone);
      if status.Sent? {
        FinishKeeps(Value());
        RunStep(start, acts, Finish);
        TidyStep(start, acts, Finish, blocking, alone);
        Leave();
        acts := acts + [Finish];
      }
    }
  }

  lemma IdleStart(c: Can, msgs: seq<Msg>)
    requires Enabled(c, Start(msgs))
    ensures c.running.Idle?
  {}

  /** The action ends the sleep of a writer like `w`. */
  predicate TakesUp(a: Action, w: Waiter) {
    (a.Wake? || a.GiveUp?) && a.w == w
  }

  /** Whether an event is a step that takes place: it is possible and leaves `w` asleep. */
  predicate Occurs(c: Can, w: Waiter, e: Event) {
    e.Other? && Enabled(c, e.a) && !(TakesUp(e.a, w) && c.asleep[w] == 1)
  }

  /** The steps that take place while `w` sleeps. */
  function Occurring(c: Can, w: Waiter, events: seq<Event>): (acts: seq<Action>)
    requires Ok(c)
    ensures IsRun(c, acts)
  {
    if events == [] then []
    else
      var acts, e := Occurring(c, w, events[..|events| - 1]), events[|events| - 1];
      if Occurs(Execute(c, acts), w, e) then RunStep(c, acts, e.a); acts + [e.a] else acts
  }

  lemma NoneYet(c: Can, w: Waiter)
    requires Ok(c)
    ensures Occurring(c, w, []) == [] && Execute(c, []) == c
  {}

  lemma OneMoreEvent(c: Can, w: Waiter, seen: seq<Event>, e: Event)
    requires Ok(c)
    ensures var acts := Occurring(c, w, seen);
            if Occurs(Execute(c, acts), w, e) then
              && Occurring(c, w, seen + [e]) == acts + [e.a]
              && Execute(c, acts + [e.a]) == Step(Execute(c, acts), e.a)
            else Occurring(c, w, seen + [e]) == acts
  {
    hide Ok, Step, Enabled;
    assert (seen + [e])[..|seen|] == seen;
    var acts := Occurring(c, w, seen);
    if Occurs(Execute(c, acts), w, e) { assert (acts + [e.a])[..|acts|] == acts; }
  }

  /** Every run of the others that does not end the sleep of `w` can take place. */
  lemma {:induction false} RunsOccur(c: Can, w: Waiter, acts: seq<Action>, events: seq<Event>)
    requires Ok(c) && IsRun(c, acts) && |events| == |acts|
    requires forall i | 0 <= i < |acts| :: events[i] == Other(acts[i]) && !TakesUp(acts[i], w)
    ensures Occurring(c, w, events) == acts
    decreases |acts|
  {
    hide Ok, Step, Enabled, Occurring, TakesUp, IsRun, Execute;
    if acts == [] {
      NoneYet(c, w);
    } else {
      var n := |acts| - 1;
      LastEnabled(c, acts);
      RunsOccur(c, w, acts[..n], events[..n]);
      OneMoreEvent(c, w, events[..n], events[n]);
      assert events == events[..n] + [events[n]];
      assert acts == acts[..n] + [acts[n]];
    }
  }

  lemma LastEnabled(c: Can, acts: seq<Action>)
    requires Ok(c) && IsRun(c, acts) && acts != []
    ensures IsRun(c, acts[..|acts| - 1]) && Enabled(Execute(c, acts[..|acts| - 1]), acts[|acts| - 1])
  {
    hide Ok, Step, Enabled;
  }

  lemma StaysAsleep(c: Can, a: Action, w: Waiter)
    requires Ok(c) && Enabled(c, a) && w in c.asleep && !(TakesUp(a, w) && c.asleep[w] == 1)
    ensures w in Step(c, a).asleep
  {
    SendingKeeps(c);
    hide Xmit, TxDone, Kick, Ok;
  }

  lemma CompleteKeeps(c: Can)
    requires Ok(c) && Enabled(c, Complete)
    ensures Step(c, Complete).running == c.running && Step(c, Complete).accepted == c.accepted
  {
    SendingKeeps(c);
  }

  /** A run of blocking writers, a run of one writer. */
  predicate Tidy(start: Can, acts: seq<Action>, blocking: bool, alone: bool)
    requires Ok(start) && IsRun(start, acts)
  {
    (blocking ==> Blocking(acts)) && (alone ==> OneWriter(start, acts))
  }

  lemma TidyStep(start: Can, acts: seq<Action>, a: Action, blocking: bool, alone: bool)
    requires Ok(start) && IsRun(start, acts) && IsRun(start, acts + [a]) && Tidy(start, acts, blocking, alone)
    requires (blocking ==> !a.WouldBlock?) && (alone && a.Start? ==> Execute(start, acts).asleep == multiset{})
    ensures Tidy(start, acts + [a], blocking, alone)
  {
    hide IsRun, Execute, Ok;
    var longer := acts + [a];
    assert longer[..|longer| - 1] == acts;
  }

  lemma SleepKeeps(c: Can)
    requires Ok(c) && Enabled(c, Sleep)
    ensures var d := Step(c, Sleep);
            d.running.Idle? && d.accepted == c.accepted && Waiter(c.running.todo, c.running.next) in d.asleep
  {}

  lemma LeaveKeeps(c: Can, w: Waiter)
    requires Ok(c) && Enabled(c, GiveUp(w))
    ensures var d := Step(c, GiveUp(w)); d.running.Idle? && d.accepted == c.accepted
  {}

  lemma WakeKeeps(c: Can, w: Waiter)
    requires Ok(c) && Enabled(c, Wake(w))
    ensures var d := Step(c, Wake(w)); d.running == Writing(w.todo, d.running.empty, w.next) && d.accepted == c.accepted
  {}

  lemma NothingDone(c: Can, msgs: seq<Msg>, blocking: bool, alone: bool)
    requires Ok(c) && c.running.Idle? && (alone ==> c.asleep == multiset{})
    ensures IsRun(c, [Start(msgs)]) && Execute(c, [Start(msgs)]) == Step(c, Start(msgs))
    ensures Tidy(c, [Start(msgs)], blocking, alone)
    ensures Step(c, Start(msgs)).running.Writing? && Step(c, Start(msgs)).running.todo == msgs
    ensures Step(c, Start(msgs)).accepted == c.accepted
  {
    NoSteps(c);
    RunStep(c, [], Start(msgs));
    assert [] + [Start(msgs)] == [Start(msgs)];
    TidyStep(c, [], Start(msgs), blocking, alone);
  }

  lemma PutKeeps(c: Can, msgs: seq<Msg>, count: nat)
    requires Ok(c) && Enabled(c, Put) && count < |msgs| && c.running.todo == msgs[count..]
    ensures var d := Step(c, Put);
            && d.running.Writing? && d.running.todo == msgs[count + 1..] && d.accepted == c.accepted + [msgs[count]]
    ensures msgs[..count + 1] == msgs[..count] + [msgs[count]]
  {}

  lemma FinishKeeps(c: Can)
    requires Ok(c) && c.running.Writing? && c.running.todo == []
    ensures Enabled(c, Finish) && Step(c, Finish).running.Idle? && Step(c, Finish).accepted == c.accepted
  {}

  lemma AllFit(start: Can, msgs: seq<Msg>)
    requires Ok(start) && |Queue(start)| + |msgs| < |start.buffer|
    ensures Fits(start, msgs) == |msgs|
  {}

  /** During a non-blocking write the ring is full exactly when no further message fits. */
  lemma FullExactly(start: Can, msgs: seq<Msg>, count: nat)
    requires Ok(start) && start.running.Idle? && count < |msgs| && |Queue(start)| + count < |start.buffer|
    ensures IsRun(start, [Start(msgs)] + Puts(count))
    ensures var d := Execute(start, [Start(msgs)] + Puts(count));
            && d.running.Writing?
            && (d.running.next == d.head <==> |Queue(start)| + count == |start.buffer| - 1)
            && (d.running.next == d.head ==> Fits(start, msgs) == count)
  {
    hide Ring, IsRun, Execute;
    StartThenPuts(start, msgs, count);
    var d := Execute(start, [Start(msgs)] + Puts(count));
    RingEmpty(d.buffer, d.head, d.tail);
  }
}
