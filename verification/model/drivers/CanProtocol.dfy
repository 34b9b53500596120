/** The transmit side of the CAN driver as a protocol between any number of writers and the
    transmit interrupt.

    A writer runs with interrupts disabled; they are enabled while it sleeps and between
    calls.  Each step below is what happens between two such points, or one interrupt.
    `sent` is everything handed to the device, `accepted` everything put into the FIFO. */
module CanProtocol {
  import opened CanRing

  /** Who holds the processor: nobody in the driver, or a writer with messages still to be
      put.  `empty` remembers that nothing was being sent when it last looked, `next` the
      place behind the tail when it began its next message. */
  datatype Running = Idle | Writing(todo: seq<Msg>, empty: bool, next: nat)

  /** A writer that waits for space; it keeps its `next`. */
  datatype Waiter = Waiter(todo: seq<Msg>, next: nat)

  /** The number of sleeping writers is the driver's count of waiters. */
  datatype Can = Can(buffer: seq<Msg>, head: nat, tail: nat, inFlight: bool, sent: seq<Msg>, accepted: seq<Msg>,
                     sem: nat, asleep: multiset<Waiter>, running: Running)

  /** All indices are inside the buffer. */
  predicate Ok(c: Can) {
    && |c.buffer| >= 2 && c.head < |c.buffer| && c.tail < |c.buffer|
    && (c.running.Writing? ==> c.running.next < |c.buffer|)
    && forall w | w in c.asleep :: w.next < |c.buffer|
  }

  function Queue(c: Can): seq<Msg>
    requires Ok(c)
  {
    Ring(c.buffer, c.head, c.tail)
  }

  lemma QueueBounds(c: Can)
    requires Ok(c)
    ensures |Queue(c)| < |c.buffer| && (|Queue(c)| == |c.buffer| - 1 <==> NextTail(c) == c.head)
    ensures Queue(c) == [] <==> c.head == c.tail
  {
    RingEmpty(c.buffer, c.head, c.tail);
  }

  /** The place behind the tail. */
  function NextTail(c: Can): nat {
    Next(|c.buffer|, c.tail)
  }

  /** Sends the message at the head of the FIFO, if there is one. */
  function Xmit(c: Can): (c': Can)
    requires Ok(c)
    ensures Ok(c')
  {
    if c.head == c.tail then c else c.(inFlight := true, sent := c.sent + [c.buffer[c.head]])
  }

  /** The transmission completes: the head is removed, the next message is sent, and a
      waiting writer is posted. */
  function TxDone(c: Can): (c': Can)
    requires Ok(c)
    ensures Ok(c') && |c'.buffer| == |c.buffer|
  {
    if c.head == c.tail then c.(inFlight := false)
    else
      var c' := Xmit(c.(head := Next(|c.buffer|, c.head), inFlight := false));
      if c.asleep != multiset{} then c'.(sem := c'.sem + 1) else c'
  }

  datatype Action =
    | Start(msgs: seq<Msg>)
    | Put
    | Sleep                       // the place behind the tail was the head
    | Wake(w: Waiter)             // the semaphore was posted
    | GiveUp(w: Waiter)           // the wait failed
    | Finish
    | Complete                    // the transmit interrupt
    | WouldBlock                  // as for Sleep, but the file is non-blocking

  predicate Enabled(c: Can, a: Action) {
    match a
    case Start(msgs) => c.running.Idle?
    case Put => c.running.Writing? && c.running.todo != [] && c.running.next != c.head
    case Sleep => c.running.Writing? && c.running.todo != [] && c.running.next == c.head
    case Wake(w) => c.running.Idle? && w in c.asleep && c.sem > 0
    case GiveUp(w) => c.running.Idle? && w in c.asleep
    case Finish => c.running.Writing? && c.running.todo == []
    case Complete => c.running.Idle? && c.inFlight
    case WouldBlock => c.running.Writing? && c.running.todo != [] && c.running.next == c.head
  }

  /** Starts the transmission if nothing was being sent when the writer last looked. */
  function Kick(c: Can): (c': Can)
    requires Ok(c) && c.running.Writing?
    ensures Ok(c') && c'.running == c.running && c'.asleep == c.asleep && |c'.buffer| == |c.buffer|
  {
    if c.running.empty then Xmit(c) else c
  }

  function Stored(c: Can): (c': Can)
    requires Ok(c) && Enabled(c, Put)
    ensures Ok(c') && |c'.buffer| == |c.buffer|
  {
    var m := c.running.todo[0];
    c.(buffer := c.buffer[c.tail := m], tail := c.running.next, accepted := c.accepted + [m],
       running := Writing(c.running.todo[1..], c.running.empty, Next(|c.buffer|, c.running.next)))
  }

  function FallenAsleep(c: Can): (c': Can)
    requires Ok(c) && c.running.Writing?
    ensures Ok(c') && |c'.buffer| == |c.buffer|
  {
    c.(running := Idle, asleep := c.asleep + multiset{Waiter(c.running.todo, c.running.next)})
  }

  function Gone(c: Can, w: Waiter): (c': Can)
    requires Ok(c)
    ensures Ok(c') && |c'.buffer| == |c.buffer|
  {
    c.(asleep := c.asleep - multiset{w})
  }

  function Awake(c: Can, w: Waiter): (c': Can)
    requires Ok(c) && w in c.asleep && c.sem > 0
    ensures Ok(c') && |c'.buffer| == |c.buffer|
  {
    Gone(c, w).(sem := c.sem - 1, running := Writing(w.todo, c.head == c.tail, w.next))
  }

  function Step(c: Can, a: Action): (c': Can)
    requires Ok(c) && Enabled(c, a)
    ensures Ok(c') && |c'.buffer| == |c.buffer|
  {
    match a
    case Start(msgs) => c.(running := Writing(msgs, c.head == c.tail, NextTail(c)))
    case Put => Stored(c)
    case Sleep => FallenAsleep(Kick(c))
    case Wake(w) => Awake(c, w)
    case GiveUp(w) => Gone(c, w)
    case Finish => Kick(c).(running := Idle)
    case Complete => TxDone(c)
    case WouldBlock => c.(running := Idle)
  }

  lemma PutStep(c: Can, m: Msg, rest: seq<Msg>, accepted: seq<Msg>)
    requires Ok(c) && c.running.Writing? && c.running.todo == [m] + rest && c.running.next != c.head
    requires accepted == c.accepted + [m]
    ensures Enabled(c, Put)
    ensures Step(c, Put) == c.(buffer := c.buffer[c.tail := m], tail := c.running.next, accepted := accepted,
                               running := Writing(rest, c.running.empty, Next(|c.buffer|, c.running.next)))
  {}

  // ---------------------------------------------------------------- the semaphore

  /** A completion on a FIFO that is not empty frees a place and posts a waiting writer. */
  predicate Posts(c: Can, a: Action) {
    a.Complete? && c.head != c.tail && |c.asleep| > 0
  }

  /** The semaphore goes up with every such completion and down with every writer that wakes,
      and by nothing else; a writer is counted as waiting from its sleep until it wakes or
      gives up. */
  lemma SemaphoreStep(c: Can, a: Action)
    requires Ok(c) && Enabled(c, a)
    ensures var c' := Step(c, a);
            && c'.sem == c.sem + (if Posts(c, a) then 1 else 0) - (if a.Wake? then 1 else 0)
            && |c'.asleep| == |c.asleep| + (if a.Sleep? then 1 else 0) - (if a.Wake? || a.GiveUp? then 1 else 0)
  {
    hide Ok, TxDone, Kick;
    match a
    case Wake(w) => OneLess(c.asleep, w);
    case GiveUp(w) => OneLess(c.asleep, w);
    case Complete => TxDonePosts(c);
    case Sleep => KickWaits(c);
    case Finish => KickWaits(c);
    case _ =>
  }

  lemma OneLess(asleep: multiset<Waiter>, w: Waiter)
    requires w in asleep
    ensures |asleep - multiset{w}| == |asleep| - 1
  {
    assert asleep == (asleep - multiset{w}) + multiset{w};
  }

  /** The interrupt handler, also where nothing was queued: it posts a waiting writer, and
      something is in flight afterwards exactly when something is queued. */
  lemma TxDonePosts(c: Can)
    requires Ok(c)
    ensures TxDone(c).inFlight <==> TxDone(c).head != TxDone(c).tail
    ensures TxDone(c).sem == c.sem + (if Posts(c, Complete) then 1 else 0) && TxDone(c).asleep == c.asleep
  {
    hide Ok;
  }

  lemma KickWaits(c: Can)
    requires Ok(c) && c.running.Writing?
    ensures Kick(c).sem == c.sem && Kick(c).asleep == c.asleep
  {
    hide Ok;
  }

  // ---------------------------------------------------------------- what every step keeps

  /** Messages whose transmission has completed. */
  function Completed(c: Can): int
    requires Ok(c)
  {
    |c.accepted| - |Queue(c)|
  }

  /** Exactly once and in order: the FIFO is the tail of what was accepted, and what was sent
      is all before it, plus its head if that is in flight. */
  predicate InOrder(c: Can)
    requires Ok(c)
  {
    && Completed(c) >= 0
    && Queue(c) == c.accepted[Completed(c)..]
    && (c.inFlight ==> c.head != c.tail)
    && c.sent == c.accepted[..Completed(c) + if c.inFlight then 1 else 0]
  }

  /** A transmission is in flight exactly when the FIFO is not empty, but for a writer that
      has yet to kick it off. */
  predicate Busy(c: Can) {
    && (c.running.Writing? ==> c.running.empty || c.head != c.tail)
    && (if c.running.Writing? && c.running.empty then !c.inFlight else c.inFlight <==> c.head != c.tail)
  }

  /** Some sleeping writer will get on: it was posted, or a completion is due that posts it,
      or the running writer will send something. */
  predicate NoLostWakeup(c: Can) {
    && (forall w | w in c.asleep :: w.todo != [])
    && (c.asleep != multiset{} ==>
          c.sem > 0 || c.inFlight || (c.running.Writing? && (c.running.todo != [] || c.head != c.tail)))
  }

  predicate Sound(c: Can) {
    Ok(c) && InOrder(c) && Busy(c) && NoLostWakeup(c)
  }

  /** Nobody has put a message since the running writer began its next one. */
  predicate Fresh(c: Can) {
    c.running.Writing? && c.running.next == NextTail(c)
  }

  /** What may go wrong: a put whose place is out of date, a sleep with nothing to wake it,
      and giving up a non-blocking write before the transmission was kicked off. */
  predicate Safe(c: Can, a: Action)
    requires Enabled(c, a)
  {
    match a
    case Put => Fresh(c)
    case Sleep => c.head != c.tail || c.sem > 0
    case WouldBlock => c.running.empty ==> c.head == c.tail && (c.asleep == multiset{} || c.sem > 0)
    case _ => true
  }

  lemma XmitInOrder(c: Can)
    requires Ok(c) && InOrder(c) && !c.inFlight
    ensures InOrder(Xmit(c)) && (Xmit(c).inFlight <==> c.head != c.tail)
  {
    if c.head != c.tail {
      var k := Completed(c);
      RingTake(c.buffer, c.head, c.tail);
      RingEmpty(c.buffer, c.head, c.tail);
      assert c.accepted[..k + 1] == c.accepted[..k] + [c.accepted[k]];
    }
  }

  lemma CompleteSound(c: Can)
    requires Sound(c) && Enabled(c, Complete)
    ensures Sound(TxDone(c))
  {
    hide Ring;
    var c1 := c.(head := Next(|c.buffer|, c.head), inFlight := false);
    var k := Completed(c);
    RingTake(c.buffer, c.head, c.tail);
    RingEmpty(c.buffer, c.head, c.tail);
    assert Queue(c1) == c.accepted[k + 1..] && Completed(c1) == k + 1;
    XmitInOrder(c1);
  }

  /** A put keeps the order if and only if its place is up to date. */
  lemma PutSound(c: Can)
    requires Sound(c) && Enabled(c, Put)
    ensures Sound(Step(c, Put)) <==> Fresh(c)
  {
    hide Ring;
    var c', k, m := Step(c, Put), Completed(c), c.running.todo[0];
    RingPut(c.buffer, c.head, c.tail, c.running.next, m);
    SentLength(c);
    if Fresh(c) {
      assert Queue(c') == Queue(c) + [m] && Completed(c') == k;
      RingEmpty(c.buffer, c.head, c.tail);
      assert c'.accepted[k..] == c.accepted[k..] + [m];
      assert forall j | 0 <= j <= |c.accepted| :: c'.accepted[..j] == c.accepted[..j];
    } else {
      if InOrder(c') { SentLength(c'); }
      assert Completed(c') != k;
    }
  }

  lemma SentLength(c: Can)
    requires Ok(c) && InOrder(c)
    ensures |c.sent| == Completed(c) + if c.inFlight then 1 else 0
  {
    hide Ring;
    RingEmpty(c.buffer, c.head, c.tail);
  }

  lemma KickSound(c: Can)
    requires Sound(c) && c.running.Writing?
    ensures InOrder(Kick(c)) && (Kick(c).inFlight <==> c.head != c.tail)
  {
    if c.running.empty { XmitInOrder(c); }
  }

  lemma SleepSound(c: Can)
    requires Sound(c) && Enabled(c, Sleep)
    ensures Sound(Step(c, Sleep)) <==> Safe(c, Sleep)
  {
    hide InOrder;
    KickSound(c);
    InOrderOnly(Kick(c), Step(c, Sleep));
  }

  lemma FinishSound(c: Can)
    requires Sound(c) && Enabled(c, Finish)
    ensures Sound(Step(c, Finish))
  {
    hide InOrder;
    KickSound(c);
    InOrderOnly(Kick(c), Step(c, Finish));
  }

  /** The order of messages does not depend on who runs or sleeps. */
  lemma InOrderOnly(c: Can, d: Can)
    requires Ok(c) && Ok(d) && InOrder(c) && d.buffer == c.buffer && d.head == c.head && d.tail == c.tail
    requires d.inFlight == c.inFlight && d.sent == c.sent && d.accepted == c.accepted
    ensures InOrder(d)
  {}

  /** Every step keeps the protocol sound if and only if it is safe. */
  lemma StepSound(c: Can, a: Action)
    requires Sound(c) && Enabled(c, a)
    ensures Sound(Step(c, a)) <==> Safe(c, a)
  {
    match a
    case Put => PutSound(c);
    case Sleep => SleepSound(c);
    case Finish => FinishSound(c);
    case Complete => CompleteSound(c);
    case _ => hide InOrder; InOrderOnly(c, Step(c, a));
  }

  /** For a writer whose place is up to date only giving up before the kick goes wrong. */
  lemma FreshIsSafe(c: Can, a: Action)
    requires Sound(c) && Enabled(c, a) && (a.Put? || a.Sleep? || a.WouldBlock? ==> Fresh(c))
    ensures Safe(c, a) <==> !(a.WouldBlock? && c.running.empty)
  {
    hide InOrder;
  }

  // ---------------------------------------------------------------- whole runs

  predicate IsRun(c: Can, acts: seq<Action>)
    requires Ok(c)
    decreases |acts|, 0
  {
    acts == [] ||
    (IsRun(c, acts[..|acts| - 1]) && Enabled(Execute(c, acts[..|acts| - 1]), acts[|acts| - 1]))
  }

  function Execute(c: Can, acts: seq<Action>): (c': Can)
    requires Ok(c) && IsRun(c, acts)
    ensures Ok(c') && |c'.buffer| == |c.buffer|
    decreases |acts|, 1
  {
    if acts == [] then c else Step(Execute(c, acts[..|acts| - 1]), acts[|acts| - 1])
  }

  lemma RunStep(c: Can, acts: seq<Action>, a: Action)
    requires Ok(c) && IsRun(c, acts) && Enabled(Execute(c, acts), a)
    ensures IsRun(c, acts + [a])
    ensures Execute(c, acts + [a]) == Step(Execute(c, acts), a)
  {
    hide Step, Enabled;
    var longer := acts + [a];
    assert longer[..|longer| - 1] == acts;
  }

  /** Every state along the run is sound. */
  predicate SoundThroughout(c: Can, acts: seq<Action>)
    requires Ok(c) && IsRun(c, acts)
    decreases |acts|
  {
    Sound(Execute(c, acts)) && (acts == [] || SoundThroughout(c, acts[..|acts| - 1]))
  }

  /** Every action is safe when its turn comes. */
  predicate SafeRun(c: Can, acts: seq<Action>)
    requires Ok(c) && IsRun(c, acts)
    decreases |acts|
  {
    acts == [] ||
    (SafeRun(c, acts[..|acts| - 1]) && Safe(Execute(c, acts[..|acts| - 1]), acts[|acts| - 1]))
  }

  /** A run by any number of writers is sound throughout if and only if every action in it is
      safe when its turn comes. */
  lemma {:induction false} RunSoundIff(c: Can, acts: seq<Action>)
    requires Sound(c) && IsRun(c, acts)
    ensures SoundThroughout(c, acts) <==> SafeRun(c, acts)
    decreases |acts|
  {
    hide Ok, InOrder, Busy, NoLostWakeup, Step, Enabled, Safe;
    if acts != [] {
      var before := acts[..|acts| - 1];
      RunSoundIff(c, before);
      if SoundThroughout(c, before) { StepSound(Execute(c, before), acts[|acts| - 1]); }
    }
  }

  predicate Blocking(acts: seq<Action>) {
    forall a | a in acts :: !a.WouldBlock?
  }

  /** Nobody puts a message between the moment a writer begins a message and its own put,
      however long it sleeps in between. */
  predicate Undisturbed(c: Can, acts: seq<Action>)
    requires Ok(c) && IsRun(c, acts)
    decreases |acts|
  {
    acts == [] || (
      && Undisturbed(c, acts[..|acts| - 1])
      && (acts[|acts| - 1].Put? || acts[|acts| - 1].Sleep? ==> Fresh(Execute(c, acts[..|acts| - 1]))))
  }

  /** Blocking writers that do not disturb each other, under every interleaving with the
      transmit interrupt, keep the protocol sound. */
  lemma {:induction false} BlockingRunSound(c: Can, acts: seq<Action>)
    requires Sound(c) && IsRun(c, acts) && Blocking(acts) && Undisturbed(c, acts)
    ensures Sound(Execute(c, acts))
    decreases |acts|
  {
    hide Ok, InOrder, Busy, NoLostWakeup, Step, Enabled, Safe, Fresh;
    if acts != [] {
      var before, a := acts[..|acts| - 1], acts[|acts| - 1];
      BlockingRunSound(c, before);
      FreshIsSafe(Execute(c, before), a);
      StepSound(Execute(c, before), a);
    }
  }

  /** At rest everything accepted was sent exactly once, in order. */
  lemma AtRest(c: Can, acts: seq<Action>)
    requires Sound(c) && IsRun(c, acts) && Blocking(acts) && Undisturbed(c, acts)
    requires var c' := Execute(c, acts); c'.running.Idle? && !c'.inFlight
    ensures var c' := Execute(c, acts); c'.head == c'.tail && c'.sent == c'.accepted
    ensures var c' := Execute(c, acts); c'.asleep != multiset{} ==> c'.sem > 0
  {
    hide Step, Execute, IsRun, Undisturbed, Ring;
    BlockingRunSound(c, acts);
    var c' := Execute(c, acts);
    RingEmpty(c'.buffer, c'.head, c'.tail);
  }

  // ---------------------------------------------------------------- a single writer

  /** A write begins only when nobody sleeps in an earlier one. */
  predicate OneWriter(c: Can, acts: seq<Action>)
    requires Ok(c) && IsRun(c, acts)
    decreases |acts|
  {
    acts == [] || (
      && OneWriter(c, acts[..|acts| - 1])
      && (acts[|acts| - 1].Start? ==> Execute(c, acts[..|acts| - 1]).asleep == multiset{}))
  }

  /** With one writer its place is always up to date, asleep or not. */
  predicate Alone(c: Can) {
    && (c.running.Writing? ==> c.asleep == multiset{} && Fresh(c))
    && (forall w | w in c.asleep :: c.asleep == multiset{w} && w.next == NextTail(c))
  }

  lemma AloneStep(c: Can, a: Action)
    requires Ok(c) && Alone(c) && Enabled(c, a) && (a.Start? ==> c.asleep == multiset{})
    ensures Alone(Step(c, a))
  {
    match a
    case Put => PutAlone(c);
    case Sleep => SleepAlone(c);
    case Wake(w) => AwakeAlone(c.asleep, w);
    case GiveUp(w) => AwakeAlone(c.asleep, w);
    case Complete => SendingKeeps(c); hide Xmit, TxDone;
    case Finish => SendingKeeps(c); hide Xmit, Kick;
    case _ =>
  }

  lemma SendingKeeps(c: Can)
    requires Ok(c)
    ensures var d := TxDone(c);
            && d.buffer == c.buffer && d.tail == c.tail && d.accepted == c.accepted
            && d.asleep == c.asleep && d.running == c.running
    ensures c.running.Writing? ==>
              var d := Kick(c); d.buffer == c.buffer && d.tail == c.tail && d.asleep == c.asleep && d.running == c.running
  {}

  lemma PutAlone(c: Can)
    requires Ok(c) && Alone(c) && Enabled(c, Put)
    ensures Alone(Step(c, Put))
  {}

  lemma SleepAlone(c: Can)
    requires Ok(c) && Alone(c) && Enabled(c, Sleep)
    ensures Alone(Step(c, Sleep))
  {
    AsleepAlone(c.asleep, Waiter(c.running.todo, c.running.next));
  }

  lemma AsleepAlone(asleep: multiset<Waiter>, w: Waiter)
    requires asleep == multiset{}
    ensures asleep + multiset{w} == multiset{w}
  {}

  lemma AwakeAlone(asleep: multiset<Waiter>, w: Waiter)
    requires w in asleep ==> asleep == multiset{w}
    ensures w in asleep ==> asleep - multiset{w} == multiset{}
  {}

  /** So a single writer is never disturbed. */
  lemma {:induction false} OneWriterUndisturbed(c: Can, acts: seq<Action>)
    requires Ok(c) && IsRun(c, acts) && Alone(c) && OneWriter(c, acts)
    ensures Undisturbed(c, acts) && Alone(Execute(c, acts))
    decreases |acts|
  {
    hide Ok, Step;
    if acts != [] {
      var before := acts[..|acts| - 1];
      OneWriterUndisturbed(c, before);
      AloneStep(Execute(c, before), acts[|acts| - 1]);
    }
  }

  predicate AtBoot(c: Can) {
    && |c.buffer| >= 2 && c.head < |c.buffer| && c.tail == c.head
    && !c.inFlight && c.sent == [] && c.accepted == [] && c.sem == 0 && c.asleep == multiset{} && c.running.Idle?
  }

  /** One blocking writer, from the start: whatever it writes and whenever the interrupt
      comes, everything accepted is sent exactly once and in order, and it never sleeps with
      nothing to wake it. */
  lemma OneWriterSound(c: Can, acts: seq<Action>)
    requires AtBoot(c) && Ok(c) && IsRun(c, acts) && Blocking(acts) && OneWriter(c, acts)
    ensures Sound(Execute(c, acts))
  {
    hide Step, Execute, IsRun, Undisturbed, OneWriter, Ring;
    RingEmpty(c.buffer, c.head, c.tail);
    OneWriterUndisturbed(c, acts);
    BlockingRunSound(c, acts);
  }

  /** A sleeping writer has been posted unless the FIFO is full. */
  predicate PostedWhenRoom(c: Can)
    requires Ok(c)
  {
    |c.asleep| > 0 ==> c.sem > 0 || |Queue(c)| == |c.buffer| - 1
  }

  lemma PostedStep(c: Can, a: Action)
    requires Sound(c) && Alone(c) && PostedWhenRoom(c) && Enabled(c, a) && (a.Start? ==> c.asleep == multiset{})
    ensures PostedWhenRoom(Step(c, a))
  {
    hide InOrder, Queue, Ring, Step;
    var c' := Step(c, a);
    SemaphoreStep(c, a);
    StepPlaces(c, a);
    QueueBounds(c);
    QueueBounds(c');
    if |c.asleep| > 0 {
      var w :| w in c.asleep;
      assert c.asleep == multiset{w};
    }
  }

  /** What a step does to the indices and to who runs. */
  lemma StepPlaces(c: Can, a: Action)
    requires Ok(c) && Enabled(c, a)
    ensures var c' := Step(c, a);
            && (a.Sleep? || a.Start? || a.GiveUp? ==> c'.head == c.head && c'.tail == c.tail)
            && (a.Complete? || a.Finish? || a.WouldBlock? ==> c'.tail == c.tail && c'.asleep == c.asleep)
            && (a.Finish? || a.WouldBlock? ==> c'.head == c.head)
            && (a.Put? ==> c'.asleep == c.asleep)
  {}

  /** In every state of a run of one blocking writer, whatever the interrupt does: if it
      sleeps while there is room, it has been posted. */
  lemma {:induction false} OneWriterPosted(c: Can, acts: seq<Action>)
    requires AtBoot(c) && Ok(c) && IsRun(c, acts) && Blocking(acts) && OneWriter(c, acts)
    ensures PostedWhenRoom(Execute(c, acts))
    decreases |acts|
  {
    hide Ok, Sound, Step, Enabled, Alone, AtBoot, PostedWhenRoom;
    if acts == [] {
      BootPosted(c);
    } else {
      var before := acts[..|acts| - 1];
      OneWriterPosted(c, before);
      OneWriterSound(c, before);
      BootPosted(c);
      OneWriterUndisturbed(c, before);
      PostedStep(Execute(c, before), acts[|acts| - 1]);
    }
  }

  lemma BootPosted(c: Can)
    requires AtBoot(c) && Ok(c)
    ensures PostedWhenRoom(c) && Alone(c)
  {}

  // ---------------------------------------------------------------- writers that disturb each other

  lemma Then(c: Can, acts: seq<Action>, d: Can, a: Action, e: Can)
    requires Ok(c) && IsRun(c, acts) && Execute(c, acts) == d && Enabled(d, a) && Step(d, a) == e
    ensures IsRun(c, acts + [a]) && Execute(c, acts + [a]) == e
  {
    hide Step, Enabled;
    RunStep(c, acts, a);
  }

  /** An idle device whose FIFO holds one message. */
  function SmallDevice(x: Msg): Can {
    Can([x, x], 0, 0, false, [], [], 0, multiset{}, Idle)
  }

  /** One writer fills the FIFO and sleeps, and its first message goes out. */
  function Filling(a1: Msg, a2: Msg): seq<Action> {
    [Start([a1, a2])] + [Put] + [Sleep] + [Complete]
  }

  /** Another writer puts and sends a message before the first gets to run. */
  function Disturbance(a1: Msg, a2: Msg, b: Msg): seq<Action> {
    Filling(a1, a2) + [Start([b])] + [Put] + [Finish]
  }

  lemma FillingRuns(x: Msg, a1: Msg, a2: Msg)
    ensures IsRun(SmallDevice(x), Filling(a1, a2))
    ensures Execute(SmallDevice(x), Filling(a1, a2)) ==
            Can([a1, x], 1, 1, false, [a1], [a1], 1, multiset{Waiter([a2], 0)}, Idle)
  {
    hide IsRun, Execute;
    var c := SmallDevice(x);
    var w := Waiter([a2], 0);
    NoSteps(c);
    assert [] + [Start([a1, a2])] == [Start([a1, a2])];
    var c1 := c.(running := Writing([a1, a2], true, 1));
    Then(c, [], c, Start([a1, a2]), c1);
    assert [x, x][0 := a1] == [a1, x];
    PutStep(c1, a1, [a2], [a1]);
    var c2 := Can([a1, x], 0, 1, false, [], [a1], 0, multiset{}, Writing([a2], true, 0));
    Then(c, [Start([a1, a2])], c1, Put, c2);
    var c3 := Can([a1, x], 0, 1, true, [a1], [a1], 0, multiset{w}, Idle);
    Then(c, [Start([a1, a2])] + [Put], c2, Sleep, c3);
    var c4 := Can([a1, x], 1, 1, false, [a1], [a1], 1, multiset{w}, Idle);
    Then(c, [Start([a1, a2])] + [Put] + [Sleep], c3, Complete, c4);
  }

  lemma DisturbanceRuns(x: Msg, a1: Msg, a2: Msg, b: Msg)
    ensures IsRun(SmallDevice(x), Disturbance(a1, a2, b))
    ensures Execute(SmallDevice(x), Disturbance(a1, a2, b)) ==
            Can([a1, b], 1, 0, true, [a1, b], [a1, b], 1, multiset{Waiter([a2], 0)}, Idle)
  {
    hide IsRun, Execute, Filling;
    var c, pre, w := SmallDevice(x), Filling(a1, a2), Waiter([a2], 0);
    FillingRuns(x, a1, a2);
    var c4 := Can([a1, x], 1, 1, false, [a1], [a1], 1, multiset{w}, Idle);
    var c5 := c4.(running := Writing([b], true, 0));
    Then(c, pre, c4, Start([b]), c5);
    assert [a1, x][1 := b] == [a1, b];
    PutStep(c5, b, [], [a1, b]);
    var c6 := Can([a1, b], 1, 0, false, [a1], [a1, b], 1, multiset{w}, Writing([], true, 1));
    Then(c, pre + [Start([b])], c5, Put, c6);
    var c7 := Can([a1, b], 1, 0, true, [a1, b], [a1, b], 1, multiset{w}, Idle);
    Then(c, pre + [Start([b])] + [Put], c6, Finish, c7);
  }

  lemma NoSteps(c: Can)
    requires Ok(c)
    ensures IsRun(c, []) && Execute(c, []) == c
  {}

  /** An example: the first writer then stores at the current tail but moves the tail to the
      place it looked up before it slept.  Its message is accepted and never sent. */
  lemma MessageLost(x: Msg, a1: Msg, a2: Msg, b: Msg)
    ensures var acts := Disturbance(a1, a2, b) + [Wake(Waiter([a2], 0))] + [Put] + [Finish] + [Complete];
            && IsRun(SmallDevice(x), acts) && Blocking(acts)
            && var c := Execute(SmallDevice(x), acts);
            && c.running.Idle? && !c.inFlight && c.head == c.tail && c.asleep == multiset{}
            && c.accepted == [a1, b, a2] && c.sent == [a1, b]
  {
    hide IsRun, Execute, Disturbance;
    var c, pre, w := SmallDevice(x), Disturbance(a1, a2, b), Waiter([a2], 0);
    DisturbanceRuns(x, a1, a2, b);
    var c7 := Can([a1, b], 1, 0, true, [a1, b], [a1, b], 1, multiset{w}, Idle);
    var c8 := Can([a1, b], 1, 0, true, [a1, b], [a1, b], 0, multiset{}, Writing([a2], false, 0));
    Then(c, pre, c7, Wake(w), c8);
    assert [a1, b][0 := a2] == [a2, b];
    PutStep(c8, a2, [], [a1, b, a2]);
    var c9 := Can([a2, b], 1, 0, true, [a1, b], [a1, b, a2], 0, multiset{}, Writing([], false, 1));
    Then(c, pre + [Wake(w)], c8, Put, c9);
    var c10 := c9.(running := Idle);
    Then(c, pre + [Wake(w)] + [Put], c9, Finish, c10);
    Then(c, pre + [Wake(w)] + [Put] + [Finish], c10, Complete, c10.(head := 0, inFlight := false));
    assert Blocking(pre) by { DisturbanceBlocks(a1, a2, b); }
  }

  lemma DisturbanceBlocks(a1: Msg, a2: Msg, b: Msg)
    ensures Blocking(Disturbance(a1, a2, b))
  {}

  /** Another: if the second message goes out first as well, the first writer finds its old
      place at the head and sleeps on an empty FIFO, with nothing in flight and no post. */
  lemma WriterStranded(x: Msg, a1: Msg, a2: Msg, b: Msg)
    ensures var w := Waiter([a2], 0);
            var acts := Disturbance(a1, a2, b) + [Complete] + [Wake(w)] + [Sleep] + [Wake(w)] + [Sleep];
            && IsRun(SmallDevice(x), acts)
            && var c := Execute(SmallDevice(x), acts);
            && c.asleep == multiset{w} && c.running.Idle? && !c.inFlight && c.head == c.tail && c.sem == 0
  {
    hide IsRun, Execute, Disturbance;
    var c, pre, w := SmallDevice(x), Disturbance(a1, a2, b), Waiter([a2], 0);
    DisturbanceRuns(x, a1, a2, b);
    var c7 := Can([a1, b], 1, 0, true, [a1, b], [a1, b], 1, multiset{w}, Idle);
    var c8 := Can([a1, b], 0, 0, false, [a1, b], [a1, b], 2, multiset{w}, Idle);
    Then(c, pre, c7, Complete, c8);
    var c9 := c8.(sem := 1, asleep := multiset{}, running := Writing([a2], true, 0));
    Then(c, pre + [Complete], c8, Wake(w), c9);
    var c10 := c8.(sem := 1);
    Then(c, pre + [Complete] + [Wake(w)], c9, Sleep, c10);
    var c11 := c9.(sem := 0);
    Then(c, pre + [Complete] + [Wake(w)] + [Sleep], c10, Wake(w), c11);
    Then(c, pre + [Complete] + [Wake(w)] + [Sleep] + [Wake(w)], c11, Sleep, c8.(sem := 0));
  }

  // ---------------------------------------------------------------- the non-blocking exit

  /** Messages wait in the FIFO, none is in flight, and no writer will notice. */
  predicate Stalled(c: Can) {
    c.head != c.tail && !c.inFlight && !(c.running.Writing? && c.running.empty)
  }

  /** From a stall on nothing is ever sent again, whatever is written. */
  lemma {:induction false} StallIsForever(c: Can, acts: seq<Action>)
    requires Ok(c) && Stalled(c) && IsRun(c, acts)
    ensures Stalled(Execute(c, acts)) && Execute(c, acts).sent == c.sent
    decreases |acts|
  {
    hide Ok, Step, Enabled, Stalled;
    if acts != [] {
      var before := acts[..|acts| - 1];
      StallIsForever(c, before);
      StallStays(Execute(c, before), acts[|acts| - 1]);
    }
  }

  lemma StallStays(c: Can, a: Action)
    requires Ok(c) && Stalled(c) && Enabled(c, a)
    ensures Stalled(Step(c, a)) && Step(c, a).sent == c.sent
  {}

  lemma WouldBlockStalls(c: Can)
    requires Sound(c) && Enabled(c, WouldBlock) && Fresh(c)
    ensures Stalled(Step(c, WouldBlock)) <==> c.running.empty
  {}

  function Puts(n: nat): seq<Action> {
    seq(n, _ => Put)
  }

  /** How many of the messages a non-blocking write finds room for. */
  function Fits(c: Can, msgs: seq<Msg>): (n: nat)
    requires Ok(c)
    ensures n <= |msgs| && |Queue(c)| + n < |c.buffer|
  {
    RingEmpty(c.buffer, c.head, c.tail);
    var room := |c.buffer| - 1 - |Queue(c)|;
    if |msgs| <= room then |msgs| else room
  }

  /** A non-blocking write never sleeps: it puts what fits, and ends. */
  function NonBlockingWrite(c: Can, msgs: seq<Msg>): seq<Action>
    requires Ok(c)
  {
    var n := Fits(c, msgs);
    [Start(msgs)] + Puts(n) + [if n == |msgs| then Finish else WouldBlock]
  }

  lemma {:induction false} StartThenPuts(c: Can, msgs: seq<Msg>, n: nat)
    requires Ok(c) && c.running.Idle? && n <= |msgs| && |Queue(c)| + n < |c.buffer|
    ensures var acts := [Start(msgs)] + Puts(n);
            && IsRun(c, acts)
            && var d := Execute(c, acts);
            && Queue(d) == Queue(c) + msgs[..n] && d.accepted == c.accepted + msgs[..n]
            && d.running == Writing(msgs[n..], c.head == c.tail, NextTail(d))
            && d == c.(buffer := d.buffer, tail := d.tail, accepted := d.accepted, running := d.running)
  {
    hide Ring, IsRun, Execute;
    if n == 0 {
      NoSteps(c);
      RunStep(c, [], Start(msgs));
      assert [Start(msgs)] + Puts(0) == [] + [Start(msgs)];
      assert Queue(c) + msgs[..0] == Queue(c) && c.accepted + msgs[..0] == c.accepted;
    } else {
      StartThenPuts(c, msgs, n - 1);
      var before := [Start(msgs)] + Puts(n - 1);
      var d := Execute(c, before);
      assert [Start(msgs)] + Puts(n) == before + [Put];
      RingEmpty(d.buffer, d.head, d.tail);
      assert msgs[n - 1..] == [msgs[n - 1]] + msgs[n..];
      assert c.accepted + msgs[..n - 1] + [msgs[n - 1]] == c.accepted + msgs[..n] by { Prefix(msgs, n); }
      assert Queue(c) + msgs[..n - 1] + [msgs[n - 1]] == Queue(c) + msgs[..n] by { Prefix(msgs, n); }
      PutStep(d, msgs[n - 1], msgs[n..], c.accepted + msgs[..n]);
      RingPut(d.buffer, d.head, d.tail, d.running.next, msgs[n - 1]);
      hide Step, Enabled;
      RunStep(c, before, Put);
    }
  }

  lemma Prefix(msgs: seq<Msg>, n: nat)
    requires 0 < n <= |msgs|
    ensures msgs[..n] == msgs[..n - 1] + [msgs[n - 1]]
  {}

  lemma NoPuts(msgs: seq<Msg>)
    ensures [Start(msgs)] + Puts(0) == [] + [Start(msgs)] == [Start(msgs)]
  {}

  lemma MorePuts(msgs: seq<Msg>, n: nat)
    requires n > 0
    ensures [Start(msgs)] + Puts(n) == [Start(msgs)] + Puts(n - 1) + [Put]
  {}

  lemma {:induction false} StartThenPutsSound(c: Can, msgs: seq<Msg>, n: nat)
    requires Sound(c) && c.running.Idle? && n <= |msgs| && |Queue(c)| + n < |c.buffer|
    ensures var acts := [Start(msgs)] + Puts(n); IsRun(c, acts) && Sound(Execute(c, acts))
  {
    hide InOrder, Busy, NoLostWakeup, Step, Ring, Ok, IsRun, Execute, Puts;
    if n == 0 {
      NoSteps(c);
      NoPuts(msgs);
      assert Enabled(c, Start(msgs)) && Safe(c, Start(msgs));
      RunStep(c, [], Start(msgs));
      StepSound(c, Start(msgs));
    } else {
      var before := [Start(msgs)] + Puts(n - 1);
      StartThenPuts(c, msgs, n - 1);
      StartThenPutsSound(c, msgs, n - 1);
      StartThenPuts(c, msgs, n);
      MorePuts(msgs, n);
      var d := Execute(c, before);
      QueueBounds(d);
      RunStep(c, before, Put);
      StepSound(d, Put);
    }
  }

  /** A non-blocking write keeps the protocol sound if and only if the device was busy or
      all messages fit; otherwise it stalls the transmitter for good. */
  lemma NonBlockingWriteSound(c: Can, msgs: seq<Msg>)
    requires Sound(c) && c.running.Idle?
    ensures var acts := NonBlockingWrite(c, msgs);
            && IsRun(c, acts)
            && (Sound(Execute(c, acts)) <==> c.head != c.tail || |msgs| < |c.buffer|)
            && (Stalled(Execute(c, acts)) <==> c.head == c.tail && |msgs| >= |c.buffer|)
  {
    hide InOrder, Busy, NoLostWakeup, Ring, Step, IsRun, Execute, Safe;
    var n := Fits(c, msgs);
    var acts := [Start(msgs)] + Puts(n);
    StartThenPuts(c, msgs, n);
    StartThenPutsSound(c, msgs, n);
    var mid := Execute(c, acts);
    RingEmpty(c.buffer, c.head, c.tail);
    RingEmpty(mid.buffer, mid.head, mid.tail);
    var last := if n == |msgs| then Finish else WouldBlock;
    RunStep(c, acts, last);
    StepSound(mid, last);
    FreshIsSafe(mid, last);
    if n == |msgs| {
      FinishNeverStalls(mid);
    } else {
      WouldBlockStalls(mid);
    }
  }

  lemma FinishNeverStalls(c: Can)
    requires Sound(c) && Enabled(c, Finish)
    ensures !Stalled(Step(c, Finish))
  {
    KickSound(c);
  }

  /** One non-blocking write of two messages to an idle device whose FIFO holds one: the
      first is accepted and never sent. */
  lemma StallExample(x: Msg, a: Msg, b: Msg)
    ensures var acts := NonBlockingWrite(SmallDevice(x), [a, b]);
            && IsRun(SmallDevice(x), acts) && Stalled(Execute(SmallDevice(x), acts))
            && Execute(SmallDevice(x), acts).accepted == [a] && Execute(SmallDevice(x), acts).sent == []
  {
    hide Step;
    var c := SmallDevice(x);
    NonBlockingWriteSound(c, [a, b]);
    StartThenPuts(c, [a, b], 1);
    RunStep(c, [Start([a, b])] + Puts(1), WouldBlock);
    WouldBlockKeeps(Execute(c, [Start([a, b])] + Puts(1)));
  }

  lemma WouldBlockKeeps(c: Can)
    requires Ok(c) && Enabled(c, WouldBlock)
    ensures Step(c, WouldBlock) == c.(running := Idle)
  {}
}
