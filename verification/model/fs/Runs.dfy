/** Whole runs of the file system.  The effect on values that the contract of a method states
    is a run of the actions below: `ReserveIsRun` for reservations, complete or not,
    `RemoveIsRun` for removals, `MountIsRun` for mounts, `DupIsRun` for opening and
    duplicating, `CloseIsRun` for closing, one after the other for duplicating onto an open
    descriptor, `CloseListIsRun` for the last release of a list.  Finding an inode and
    releasing it, and with them the directory streams, are `Acquire` and `Release`. */
module Runs {
  import opened Names
  import opened Forests
  import opened Placing
  import opened Cutting
  import opened TreeStates
  import opened Slots
  import opened Files

  datatype Config = Config(s: State, tables: seq<seq<Slot>>, others: multiset<Inode>)

  datatype Action =
    | Insert(name: string, n: Inode)     // one node of a reservation
    | Remove(name: string)               // removal of what a path resolves to
    | Mount(n: Inode)                    // a leaf becomes a mount point
    | Acquire(n: Inode)                  // find or addref
    | Release(n: Inode)                  // return of a reference held outside the tables
    | Fill(t: nat, i: nat, x: Slot)      // a free slot takes a reference over
    | Clear(t: nat, i: nat)              // an open slot hands its reference out
    | NewList(nfiles: nat)
    | DropList(t: nat)

  ghost predicate Enabled(c: Config, a: Action) {
    match a
    case Insert(name, n) =>
      && Shaped(c.s) && Misses(c.s.shape, c.s.mounts, name) && n !in c.s.live && n !in c.s.mounts && n !in c.s.held
      && n.name == FirstSegment(Search(c.s.shape, c.s.mounts, null, null, name).rest)
    case Remove(name) => Shaped(c.s) && Resolves(c.s, name) && Unreferenced(c.s, Descendants(c.s, name))
    case Mount(n) => n in Nodes(c.s.shape) && n in c.s.links && c.s.links[n].0 == null
    case Acquire(n) => n in Nodes(c.s.shape) || n in c.s.held
    case Release(n) => n in c.others
    case Fill(t, i, x) =>
      t < |c.tables| && i < |c.tables[t]| && c.tables[t][i].inode == null && x.inode != null && x.inode in c.others
    case Clear(t, i) => t < |c.tables| && i < |c.tables[t]| && c.tables[t][i].inode != null
    case NewList(nfiles) => true
    case DropList(t) => t < |c.tables| && forall i | 0 <= i < |c.tables[t]| :: c.tables[t][i].inode == null
  }

  ghost function Apply(c: Config, a: Action): Config
    requires Enabled(c, a)
  {
    match a
    case Insert(name, n) => c.(s := Inserted(c.s, name, n))
    case Remove(name) => c.(s := Removed(c.s, name))
    case Mount(n) => c.(s := Mounted(c.s, n))
    case Acquire(n) => c.(s := Acquired(c.s, n), others := c.others + multiset{n})
    case Release(n) => c.(s := Released(c.s, n), others := c.others - multiset{n})
    case Fill(t, i, x) => c.(tables := c.tables[t := c.tables[t][i := x]], others := c.others - multiset{x.inode})
    case Clear(t, i) =>
      c.(tables := c.tables[t := c.tables[t][i := FreeSlot]], others := c.others + multiset{c.tables[t][i].inode})
    case NewList(nfiles) => c.(tables := c.tables + [seq(nfiles, _ => FreeSlot)])
    case DropList(t) => c.(tables := c.tables[..t] + c.tables[t + 1..])
  }

  /** The tree is well formed, its references are conserved and none dangles, and free slots
      are zeroed. */
  ghost predicate Sound(c: Config) {
    && Wf(c.s) && Balanced(c.s, c.tables, c.others)
    && forall t | 0 <= t < |c.tables| :: CleanSlots(c.tables[t])
  }

  const Start := Config(Empty, [], multiset{})

  lemma StartSound()
    ensures Sound(Start)
  {
    EmptyWf();
  }

  lemma TreeStep(c: Config, a: Action)
    requires Sound(c) && Enabled(c, a)
    ensures Wf(Apply(c, a).s)
  {
    hide Wf, Shaped, Balanced, Links, Nodes, CleanSlots, Released, Inserted, Removed;
    match a
    case Insert(name, n) => InsertedWf(c.s, name, n);
    case Remove(name) => RemovedWf(c.s, name);
    case Mount(n) => MountedWf(c.s, n);
    case Acquire(n) => AcquiredWf(c.s, n);
    case Release(n) => ReleasedWf(c.s, n);
    case _ =>
  }

  lemma ReferenceStep(c: Config, a: Action)
    requires Sound(c) && Enabled(c, a)
    ensures var c' := Apply(c, a); Balanced(c'.s, c'.tables, c'.others)
  {
    hide Wf, Shaped, Balanced, Links, Nodes, CleanSlots, Released, Inserted, Removed, Clean;
    match a
    case Insert(name, n) => InsertedBalanced(c.s, c.tables, c.others, name, n);
    case Remove(name) => RemovedBalanced(c.s, c.tables, c.others, name);
    case Mount(n) => MountedBalanced(c.s, c.tables, c.others, n);
    case Acquire(n) => BalancedAcquire(c.s, c.tables, c.others, n);
    case Release(n) => BalancedRelease(c.s, c.tables, c.others, n);
    case Fill(t, i, x) => BalancedFill(c.s, c.tables, c.others, t, i, x);
    case Clear(t, i) => BalancedClear(c.s, c.tables, c.others, t, i);
    case NewList(nfiles) => BalancedAppend(c.s, c.tables, c.others, seq(nfiles, _ => FreeSlot));
    case DropList(t) => BalancedDrop(c.s, c.tables, c.others, t);
  }

  lemma SlotStep(c: Config, a: Action)
    requires Sound(c) && Enabled(c, a)
    ensures forall t | 0 <= t < |Apply(c, a).tables| :: CleanSlots(Apply(c, a).tables[t])
  {
    hide Wf, Shaped, Balanced, Links, Nodes, Released, Inserted, Removed, Clean;
    var c' := Apply(c, a);
    forall t | 0 <= t < |c'.tables| ensures CleanSlots(c'.tables[t]) {
      if a.DropList? {
        assert c'.tables[t] == c.tables[if t < a.t then t else t + 1];
      } else if t < |c.tables| {
        assert CleanSlots(c.tables[t]);
      }
    }
  }

  /** A run is a sequence of actions, each enabled when its turn comes. */
  ghost predicate IsRun(c: Config, acts: seq<Action>)
    decreases acts
  {
    acts == [] || (Enabled(c, acts[0]) && IsRun(Apply(c, acts[0]), acts[1..]))
  }

  ghost function Execute(c: Config, acts: seq<Action>): Config
    requires IsRun(c, acts)
    decreases acts
  {
    if acts == [] then c else Execute(Apply(c, acts[0]), acts[1..])
  }

  /** In every state that any run reaches, the structure is a sorted tree with childless
      mount points, references are conserved, and nothing is leaked or dangling. */
  lemma {:induction false} RunSound(c: Config, acts: seq<Action>)
    requires Sound(c) && IsRun(c, acts)
    ensures Sound(Execute(c, acts))
    decreases acts
  {
    hide Sound, Apply, Enabled;
    if acts != [] {
      assert Sound(Apply(c, acts[0])) by { StepSound(c, acts[0]); }
      RunSound(Apply(c, acts[0]), acts[1..]);
    }
  }

  /** So every run from the start, with an empty tree and no lists, is sound throughout. */
  lemma BootSound(acts: seq<Action>)
    requires IsRun(Start, acts)
    ensures Sound(Execute(Start, acts))
  {
    hide Sound;
    StartSound();
    RunSound(Start, acts);
  }

  lemma StepSound(c: Config, a: Action)
    requires Sound(c) && Enabled(c, a)
    ensures Sound(Apply(c, a))
  {
    hide Wf, Balanced, CleanSlots, Apply;
    TreeStep(c, a);
    ReferenceStep(c, a);
    SlotStep(c, a);
  }

  /** What the invariant means for one inode: its count is the number of slots and other
      holders that refer to it, and a referenced inode is allocated. */
  lemma ReferencedIsLive(c: Config, t: nat, i: nat)
    requires Sound(c) && t < |c.tables| && i < |c.tables[t]| && c.tables[t][i].inode != null
    ensures c.tables[t][i].inode in c.s.live
    ensures c.s.held[c.tables[t][i].inode] > 0
  {
    TableRefsIn(c.tables, t, i);
  }

  /** An inode is freed only by a removal or by a release, and only when no reference to it
      is left. */
  lemma FreedWhenUnreferenced(c: Config, a: Action, n: Inode)
    requires Sound(c) && Enabled(c, a) && n in c.s.live && n !in Apply(c, a).s.live
    ensures a.Remove? || a.Release?
    ensures n !in Apply(c, a).s.held
  {
    StepSound(c, a);
  }

  // ---------------------------------------------------------------- calls as runs

  /** A new descriptor for an inode takes a reference and fills a slot with it. */
  lemma DupIsRun(c: Config, t: nat, i: nat, x: Slot)
    requires t < |c.tables| && i < |c.tables[t]| && c.tables[t][i].inode == null
    requires x.inode != null && (x.inode in Nodes(c.s.shape) || x.inode in c.s.held)
    ensures var acts := [Acquire(x.inode), Fill(t, i, x)];
            IsRun(c, acts) && Execute(c, acts) == Config(Acquired(c.s, x.inode), c.tables[t := c.tables[t][i := x]], c.others)
  {
    hide Nodes, Acquired;
    TwoSteps(c, Acquire(x.inode), Fill(t, i, x));
    assert c.others + multiset{x.inode} - multiset{x.inode} == c.others;
  }

  /** Closing a descriptor empties its slot and returns the reference. */
  lemma CloseIsRun(c: Config, t: nat, i: nat)
    requires t < |c.tables| && i < |c.tables[t]| && c.tables[t][i].inode != null
    ensures var n := c.tables[t][i].inode;
            var acts := [Clear(t, i), Release(n)];
            IsRun(c, acts) && Execute(c, acts) == Config(Released(c.s, n), c.tables[t := c.tables[t][i := FreeSlot]], c.others)
  {
    hide Nodes, Released;
    var n := c.tables[t][i].inode;
    TwoSteps(c, Clear(t, i), Release(n));
    assert c.others + multiset{n} - multiset{n} == c.others;
  }

  lemma TwoSteps(c: Config, a: Action, b: Action)
    requires Enabled(c, a) && Enabled(Apply(c, a), b)
    ensures IsRun(c, [a, b]) && Execute(c, [a, b]) == Apply(Apply(c, a), b)
  {
    hide Enabled, Apply;
    assert [a, b] == [a] + [b] == [] + [a] + [b];
    OneMore(c, [], a);
    OneMore(c, [] + [a], b);
  }

  lemma {:induction false} OneMore(c: Config, acts: seq<Action>, a: Action)
    requires IsRun(c, acts) && Enabled(Execute(c, acts), a)
    ensures IsRun(c, acts + [a]) && Execute(c, acts + [a]) == Apply(Execute(c, acts), a)
    decreases acts
  {
    hide Enabled, Apply;
    var more := acts + [a];
    if acts == [] {
      assert more[1..] == [];
      assert IsRun(Apply(c, a), []);
    } else {
      assert more[1..] == acts[1..] + [a];
      OneMore(Apply(c, acts[0]), acts[1..], a);
    }
  }

  lemma {:induction false} TwoRuns(c: Config, acts: seq<Action>, more: seq<Action>)
    requires IsRun(c, acts) && IsRun(Execute(c, acts), more)
    ensures IsRun(c, acts + more) && Execute(c, acts + more) == Execute(Execute(c, acts), more)
    decreases acts
  {
    hide Enabled, Apply;
    if acts == [] {
      assert acts + more == more;
    } else {
      assert (acts + more)[1..] == acts[1..] + more;
      TwoRuns(Apply(c, acts[0]), acts[1..], more);
    }
  }

  /** One insertion for each inode of a reservation. */
  function Inserts(name: string, nodes: seq<Inode>): seq<Action> {
    seq(|nodes|, i requires 0 <= i < |nodes| => Insert(name, nodes[i]))
  }

  lemma {:induction false} ReserveIsRun(c: Config, name: string, nodes: seq<Inode>)
    requires Sound(c) && AllAddable(c.s, name, nodes)
    ensures IsRun(c, Inserts(name, nodes))
    ensures Execute(c, Inserts(name, nodes)) == c.(s := AllInserted(c.s, name, nodes))
    decreases |nodes|
  {
    hide Sound, Shaped, Inserted;
    if nodes != [] {
      var before, n := nodes[..|nodes| - 1], nodes[|nodes| - 1];
      var acts := Inserts(name, before);
      ReserveIsRun(c, name, before);
      RunSound(c, acts);
      HeldIsLive(Execute(c, acts));
      assert Inserts(name, nodes) == acts + [Insert(name, n)];
      OneMore(c, acts, Insert(name, n));
    }
  }

  lemma HeldIsLive(c: Config)
    requires Sound(c)
    ensures forall n | n in c.s.held :: n in c.s.live
  {
    hide Wf, CleanSlots, TableRefs;
  }

  lemma RemoveIsRun(c: Config, name: string)
    requires Shaped(c.s) && Resolves(c.s, name) && Unreferenced(c.s, Descendants(c.s, name))
    ensures IsRun(c, [Remove(name)]) && Execute(c, [Remove(name)]) == c.(s := Removed(c.s, name))
  {
    hide Shaped, Removed;
    OneMore(c, [], Remove(name));
    assert [] + [Remove(name)] == [Remove(name)];
  }

  /** A mount takes a reference to its driver, if it has one, reserves the target and makes
      it a mount point. */
  lemma MountIsRun(c: Config, name: string, driver: Inode?, nodes: seq<Inode>, node: Inode)
    requires Sound(c) && (driver != null ==> driver in Nodes(c.s.shape) || driver in c.s.held)
    requires var s := c.s.(held := c.s.held + RefOf(driver));
             && AllAddable(s, name, nodes)
             && var mid := AllInserted(s, name, nodes);
             node in Nodes(mid.shape) && node in mid.links && mid.links[node].0 == null
    ensures var acts := (if driver == null then [] else [Acquire(driver)]) + Inserts(name, nodes) + [Mount(node)];
            && IsRun(c, acts)
            && Execute(c, acts) ==
               Config(Mounted(AllInserted(c.s.(held := c.s.held + RefOf(driver)), name, nodes), node), c.tables, c.others + RefOf(driver))
  {
    hide Sound, Nodes, AllAddable, AllInserted, Mounted;
    var first := if driver == null then [] else [Acquire(driver)];
    var c1 := Config(c.s.(held := c.s.held + RefOf(driver)), c.tables, c.others + RefOf(driver));
    assert IsRun(c, first) && Execute(c, first) == c1 && Sound(c1) by { DriverTaken(c, driver); }
    ReserveIsRun(c1, name, nodes);
    TwoRuns(c, first, Inserts(name, nodes));
    OneMore(c, first + Inserts(name, nodes), Mount(node));
  }

  lemma DriverTaken(c: Config, driver: Inode?)
    requires Sound(c) && (driver != null ==> driver in Nodes(c.s.shape) || driver in c.s.held)
    ensures var acts := if driver == null then [] else [Acquire(driver)];
            && IsRun(c, acts)
            && Execute(c, acts) == Config(c.s.(held := c.s.held + RefOf(driver)), c.tables, c.others + RefOf(driver))
            && Sound(Execute(c, acts))
  {
    hide Sound, Nodes;
    if driver == null {
      assert c.s.held + multiset{} == c.s.held && c.others + multiset{} == c.others;
    } else {
      OneMore(c, [], Acquire(driver));
      assert [] + [Acquire(driver)] == [Acquire(driver)];
      StepSound(c, Acquire(driver));
    }
  }

  /** Closing the open ones of the first `k` descriptors of table `t`. */
  function Closes(t: nat, slots: seq<Slot>, k: nat): seq<Action>
    requires k <= |slots|
  {
    if k == 0 then []
    else Closes(t, slots, k - 1) +
         if slots[k - 1].inode == null then [] else [Clear(t, k - 1), Release(slots[k - 1].inode)]
  }

  function Closed(slots: seq<Slot>, k: nat): (r: seq<Slot>)
    requires k <= |slots|
    ensures |r| == |slots|
  {
    seq(|slots|, i requires 0 <= i < |slots| => if i < k then FreeSlot else slots[i])
  }

  lemma {:induction false} CloseAllIsRun(c: Config, t: nat, k: nat)
    requires t < |c.tables| && k <= |c.tables[t]| && CleanSlots(c.tables[t])
    ensures var slots := c.tables[t];
            && IsRun(c, Closes(t, slots, k))
            && Execute(c, Closes(t, slots, k)) ==
               Config(ReleasedSlots(c.s, slots[..k]), c.tables[t := Closed(slots, k)], c.others)
  {
    hide Released, Enabled, Apply;
    var slots := c.tables[t];
    if k == 0 {
      assert Closed(slots, 0) == slots && slots[..0] == [];
    } else {
      CloseAllIsRun(c, t, k - 1);
      var d := Execute(c, Closes(t, slots, k - 1));
      assert slots[..k][..k - 1] == slots[..k - 1];
      if slots[k - 1].inode == null {
        assert Closed(slots, k) == Closed(slots, k - 1);
        assert Closes(t, slots, k) == Closes(t, slots, k - 1) + [] == Closes(t, slots, k - 1);
      } else {
        assert Closed(slots, k) == Closed(slots, k - 1)[k - 1 := FreeSlot];
        CloseIsRun(d, t, k - 1);
        TwoRuns(c, Closes(t, slots, k - 1), [Clear(t, k - 1), Release(slots[k - 1].inode)]);
      }
    }
  }

  /** The last user of a list returns the references of all its descriptors, and the list is
      gone. */
  lemma CloseListIsRun(c: Config, t: nat)
    requires t < |c.tables| && CleanSlots(c.tables[t])
    ensures var slots := c.tables[t];
            var acts := Closes(t, slots, |slots|) + [DropList(t)];
            && IsRun(c, acts)
            && Execute(c, acts) == Config(ReleasedSlots(c.s, slots), c.tables[..t] + c.tables[t + 1..], c.others)
  {
    hide ReleasedSlots;
    var slots := c.tables[t];
    CloseAllIsRun(c, t, |slots|);
    assert slots[..|slots|] == slots;
    OneMore(c, Closes(t, slots, |slots|), DropList(t));
    var tables := c.tables[t := Closed(slots, |slots|)];
    assert tables[..t] + tables[t + 1..] == c.tables[..t] + c.tables[t + 1..];
  }

  // ---------------------------------------------------------------- deferred deletion

  /** A removal frees an unreferenced inode with everything below it at once; a referenced
      one lingers with what is below it. */
  lemma RemoveFreesOrDefers(c: Config, name: string)
    requires Sound(c) && Enabled(c, Remove(name))
    ensures var n, f, s' := Target(c.s, name), CutOff(c.s.shape, c.s.mounts, name), Apply(c, Remove(name)).s;
            if c.s.held[n] > 0 then Lingers(s', n, f) && s'.live == c.s.live
            else n !in s'.orphans && s'.live == c.s.live - ({n} + Nodes(f))
  {
    hide Links, Search, Cut, CutOff, Nodes, Distinct, Balanced;
    RemovedWf(c.s, name);
    FoundNeighbours(c.s, name);
    var n := Target(c.s, name);
    if c.s.held[n] > 0 {
      LingersWhenOrphan(Removed(c.s, name), n);
    } else if n in c.s.orphans {
      LingersWhenOrphan(c.s, n);
    }
  }

  /** Whatever action comes next, a lingering inode goes on lingering as long as it is
      referenced.  The action after which it is not is a release of it, and frees exactly
      its subtree. */
  lemma LingerStep(c: Config, a: Action, n: Inode, f: Forest)
    requires Sound(c) && Enabled(c, a) && Lingers(c.s, n, f)
    ensures var s' := Apply(c, a).s;
            if s'.held[n] > 0 then Lingers(s', n, f)
            else a == Release(n) && n !in s'.orphans && s'.live == c.s.live - ({n} + Nodes(f))
  {
    hide Wf, Shaped, Balanced, Links, Nodes, CleanSlots, Released, Removed;
    assert c.s.held[n] > 0 by { OrphansAreHeld(c.s, n); }
    match a
    case Remove(name) =>
      RemovedLingers(c.s, name, n, f);
      RemovedHolds(c.s, name);
    case Release(m) => ReleasedLingers(c.s, m, n, f);
    case _ =>
  }

  lemma RemovedHolds(s: State, name: string)
    requires Shaped(s) && Resolves(s, name)
    ensures Removed(s, name).held == s.held
  {}

  /** In every state along the run there is a reference to `n`. */
  ghost predicate HeldThroughout(c: Config, acts: seq<Action>, n: Inode)
    requires IsRun(c, acts)
    decreases acts
  {
    c.s.held[n] > 0 && (acts == [] || HeldThroughout(Apply(c, acts[0]), acts[1..], n))
  }

  /** Deferred deletion: through any run, whatever else is opened, closed, inserted, removed
      or released, a removed inode stays allocated with all that is below it while it is
      referenced, and the next action that leaves it unreferenced is a release of it that
      frees exactly that. */
  lemma {:induction false} DeferredDeletion(c: Config, acts: seq<Action>, a: Action, n: Inode, f: Forest)
    requires Sound(c) && IsRun(c, acts) && Lingers(c.s, n, f) && HeldThroughout(c, acts, n)
    requires Enabled(Execute(c, acts), a)
    ensures Lingers(Execute(c, acts).s, n, f)
    ensures var s, s' := Execute(c, acts).s, Apply(Execute(c, acts), a).s;
            if s'.held[n] > 0 then Lingers(s', n, f)
            else a == Release(n) && n !in s'.orphans && s'.live == s.live - ({n} + Nodes(f))
    decreases acts
  {
    hide Sound, Apply, Enabled, Lingers, Nodes;
    if acts == [] {
      LingerStep(c, a, n, f);
    } else {
      StepSound(c, acts[0]);
      LingerStep(c, acts[0], n, f);
      assert Apply(c, acts[0]).s.held[n] > 0;
      DeferredDeletion(Apply(c, acts[0]), acts[1..], a, n, f);
    }
  }

  /** Nothing is freed twice: what is not allocated stays so until it is allocated anew. */
  lemma FreedStaysFreed(c: Config, a: Action, n: Inode)
    requires Sound(c) && Enabled(c, a) && n !in c.s.live && n in Apply(c, a).s.live
    ensures a.Insert? && a.n == n
  {}
}
