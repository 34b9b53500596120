/** Registering, unregistering and mounting: the users of reservation and removal. */
module Mounting {
  import opened Names
  import opened Forests
  import opened Placing
  import opened Cutting
  import opened TreeStates
  import opened InodeTrees
  import opened Slots
  import opened Files

  /** A known file system type sits on a block driver or on nothing. */
  datatype FsType = Unknown | OnBlockDriver | Standalone

  datatype MountError = Success | NoDevice | NotFound | NotBlock | NoAccess | Busy

  /** A reservation adds inodes for missing segments one by one, or nothing at all. */
  ghost predicate Reserved(s: State, s': State, path: string, nodes: seq<Inode>) {
    if IsAbsolute(path) && !Resolves(s, path[1..]) then
      AllAddable(s, path[1..], nodes) && s' == AllInserted(s, path[1..], nodes)
    else
      s' == s && nodes == []
  }

  /** Reservation within the file system: paths that denoted something still do, and the
      new path denotes the new leaf. */
  method Reserve(fs: FileSystem, path: string, avail: nat) returns (node: Inode?, ghost nodes: seq<Inode>)
    requires fs.Valid()
    modifies fs.tree`root, fs.tree`state, fs.tree`heap, fs.tree.state.live`peer, fs.tree.state.live`child
    ensures fs.Valid() && fs.tree.state.held == old(fs.tree.state).held && fs.tree.state.mounts == old(fs.tree.state).mounts
    ensures fresh(fs.tree.state.live - old(fs.tree.state).live)
    ensures forall name | Meaning(View(old(fs.tree.state)), old(fs.tree.state).mounts, name).Denotes? ::
              Meaning(View(fs.tree.state), fs.tree.state.mounts, name)
              == Meaning(View(old(fs.tree.state)), old(fs.tree.state).mounts, name)
    ensures node != null ==>
              && IsAbsolute(path) && fresh(node) && node.child == null && node in fs.tree.state.live
              && node.nodeType != MountPoint && node in nodes
              && Meaning(View(fs.tree.state), fs.tree.state.mounts, path[1..]) == Denotes(node, "")
              && node in Nodes(fs.tree.state.shape)
    ensures Reserved(old(fs.tree.state), fs.tree.state, path, nodes)
    ensures forall n | n in nodes :: fresh(n) && n.ops == NoOperations && n.nodeType == Driver
    ensures node != null <==> Reservable(old(fs.tree.state), path, avail)
    ensures !IsAbsolute(path) || old(Resolves(fs.tree.state, path[1..])) ==> fs.tree.state == old(fs.tree.state)
  {
    hide Wf, Balanced, CountsStored, LinksStored, Tabled, Meaning, Growing, Paths, Nodes, Segments, AllAddable, AllInserted;
    ghost var s := fs.tree.state;
    ghost var from, to;
    node, from, to, nodes := fs.tree.InodeReserve(path, avail);
    ghost var s' := fs.tree.state;
    if IsAbsolute(path) && !Resolves(s, path[1..]) {
      GrownBalanced(s, s', fs.tables, fs.others, path[1..], from, to);
      GrowingParts(s, s', path[1..], from, to);
      forall name | Meaning(View(s), s.mounts, name).Denotes?
        ensures Meaning(View(s'), s'.mounts, name) == Meaning(View(s), s.mounts, name)
      {
        ReservedKeeps(s, s', path[1..], from, to, name);
      }
      if node != null {
        ReservedResolves(s, s', path[1..], from);
        ViewIsLive(s', Segments(path[1..]));
        fs.tree.IsMounted(node);
      }
    }
  }

  lemma GrowingParts(s0: State, s: State, full: string, from: nat, to: nat)
    requires Growing(s0, s, full, from, to)
    ensures s.held == s0.held && s.mounts == s0.mounts
  {}

  /** Removal within the file system.  It keeps the references conserved and free of
      dangling ones exactly when nothing below the removed inode is referenced. */
  method Remove(fs: FileSystem, path: string) returns (status: RemoveStatus)
    requires fs.Valid()
    modifies fs.tree`root, fs.tree`state, fs.tree`heap
    modifies fs.tree.state.live`peer, fs.tree.state.live`child, fs.tree.state.live`deleted
    ensures fs.tree.Valid() && fs.tree.state.mounts == old(fs.tree.state).mounts
    ensures status == EInval <==> !IsAbsolute(path)
    ensures status == ENoEnt <==> IsAbsolute(path) && !old(Resolves(fs.tree.state, path[1..]))
    ensures status == EInval || status == ENoEnt ==> fs.tree.state == old(fs.tree.state) && fs.Valid()
    ensures IsAbsolute(path) && old(Resolves(fs.tree.state, path[1..])) ==>
              && fs.tree.state == Removed(old(fs.tree.state), path[1..])
              && status == (if old(fs.tree.state).held[Target(old(fs.tree.state), path[1..])] > 0 then EBusy else Done)
              && (fs.Valid() <==> Unreferenced(old(fs.tree.state), Descendants(old(fs.tree.state), path[1..])))
    ensures IsAbsolute(path) && old(Resolves(fs.tree.state, path[1..])) ==>
              forall other :: Meaning(View(fs.tree.state), fs.tree.state.mounts, other) ==
                if Gone(old(fs.tree.state), path[1..]) <= Segments(other) then Nothing
                else Meaning(View(old(fs.tree.state)), old(fs.tree.state).mounts, other)
  {
    hide Wf, Balanced, CountsStored, LinksStored, Tabled, Resolves, Removed, Descendants, Unreferenced, Shaped;
    hide Meaning, View, Gone, Segments, Target;
    ghost var s := fs.tree.state;
    status := fs.tree.InodeRemove(path);
    if status == Done || status == EBusy {
      RemovedBalanced(s, fs.tables, fs.others, path[1..]);
      assert fs.tree.state.mounts == s.mounts by { RemovedMounts(s, path[1..]); }
      forall other
        ensures Meaning(View(fs.tree.state), s.mounts, other) ==
                if Gone(s, path[1..]) <= Segments(other) then Nothing else Meaning(View(s), s.mounts, other)
      {
        RemovedMeaning(s, path[1..], other);
      }
    }
  }

  lemma RemovedMounts(s: State, name: string)
    requires Wf(s) && Resolves(s, name)
    ensures Shaped(s) && Removed(s, name).mounts == s.mounts
  {
    WfShaped(s);
    FoundNeighbours(s, name);
  }

  /** The path is new, and memory lasts for its missing segments. */
  predicate Reservable(s: State, path: string, avail: nat) {
    && IsAbsolute(path) && !Resolves(s, path[1..])
    && |Segments(path[1..])| <= Existing(s.shape, path[1..]) + avail
  }

  /** The path denotes a block driver that can be mounted. */
  ghost predicate Usable(s: State, path: string, readOnly: bool)
    reads match Denoted(s, path) case Nothing => {} case Denotes(n, _) => {n}
  {
    match Denoted(s, path)
    case Nothing => false
    case Denotes(n, _) => n.nodeType == Block && Mountable(n, readOnly)
  }

  /** The driver can be read, and written unless mounted read-only. */
  ghost predicate Mountable(node: Inode, readOnly: bool)
    reads node`ops
  {
    node.ops != NoOperations && node.ops.canRead && (node.ops.canWrite || readOnly)
  }

  /** Finds a block driver and takes a reference to it, if it supports the access. */
  method FindBlockDriver(fs: FileSystem, path: string, readOnly: bool) returns (node: Inode?, err: MountError)
    requires fs.Valid()
    modifies fs`others, fs.tree`state, fs.tree`heap, fs.tree.state.live`crefs
    ensures fs.Valid() && (node == null <==> err != Success)
    ensures node == null ==> fs.tree.state == old(fs.tree.state) && fs.others == old(fs.others)
    ensures node != null ==>
              && fs.tree.state == Acquired(old(fs.tree.state), node) && fs.others == old(fs.others) + multiset{node}
              && fs.tree.state.live == old(fs.tree.state).live
    ensures err == Success <==> old(Usable(fs.tree.state, path, readOnly))
    ensures err != NoDevice && err != Busy && (err == NotFound <==> Denoted(old(fs.tree.state), path) == Nothing)
    ensures Denoted(old(fs.tree.state), path).Denotes? ==>
              var found := Denoted(old(fs.tree.state), path).node;
              && (node != null ==> node == found)
              && (err == NotBlock <==> found.nodeType != Block)
              && (err == NoAccess <==> found.nodeType == Block && !Mountable(found, readOnly))
  {
    hide FileSystem.Valid, Wf, Denoted;
    ghost var s := fs.tree.state;
    fs.StateWf();
    node, err := null, NotFound;
    var inode, relpath := fs.Find(path);
    if inode == null {
      return;
    }
    if inode.nodeType != Block {
      err := NotBlock;
    } else if inode.ops == NoOperations || !inode.ops.canRead || (!inode.ops.canWrite && !readOnly) {
      err := NoAccess;
    } else {
      return inode, Success;
    }
    fs.Undo(inode, s);
    assert fs.others == old(fs.others);
  }

  /** Every name that starts with the segments `segs` denotes `n`, and what follows them is
      left to `n`. */
  ghost predicate Absorbs(m: PathMap, mounts: set<Inode>, segs: seq<string>, n: Inode) {
    forall name: string | segs <= Segments(name) ::
      Meaning(m, mounts, name) == Denotes(n, AfterSegments(name, |segs|))
  }

  /** A leaf that becomes a mount point absorbs everything below its path. */
  lemma MountAbsorbs(s: State, full: string, n: Inode)
    requires Wf(s) && Meaning(View(s), s.mounts, full) == Denotes(n, "") && n !in s.mounts
    ensures Absorbs(View(s), s.mounts + {n}, Segments(full), n)
  {
    hide Paths, Segments, AfterSegments, Resolve, Sorted, Distinct, Wf;
    var segs := Segments(full);
    PlainHit(View(s), s.mounts, segs, 1);
    assert segs[..|segs|] == segs;
    assert Sorted(s.shape) && Distinct(s.shape) by { WfShaped(s); }
    forall j | 1 <= j < |segs| && segs[..j] in View(s) ensures View(s)[segs[..j]] != n {
      if View(s)[segs[..j]] == n { PathsInjective(s.shape, [], segs[..j], segs); }
    }
    forall name: string | segs <= Segments(name)
      ensures Meaning(View(s), s.mounts + {n}, name) == Denotes(n, AfterSegments(name, |segs|))
    {
      ResolveAbsorbs(View(s), s.mounts, segs, Segments(name), n, 1);
      assert Segments(name)[..|segs|] == segs;
    }
  }

  lemma {:induction false} PlainHit(m: PathMap, mounts: set<Inode>, segs: seq<string>, k: nat)
    requires k <= |segs| && Resolve(m, mounts, segs, k).Hit? && m[segs[..Resolve(m, mounts, segs, k).depth]] !in mounts
    ensures Resolve(m, mounts, segs, k).depth == |segs|
    decreases |segs| - k
  {
    if k < |segs| && Resolve(m, mounts, segs, k) != Hit(k) { PlainHit(m, mounts, segs, k + 1); }
  }

  lemma {:induction false} ResolveAbsorbs(m: PathMap, mounts: set<Inode>, segs: seq<string>, longer: seq<string>, n: Inode, k: nat)
    requires k <= |segs| && segs <= longer
    requires Resolve(m, mounts, segs, k) == Hit(|segs|) && segs in m && m[segs] == n
    requires forall j | k <= j < |segs| && segs[..j] in m :: m[segs[..j]] != n
    ensures Resolve(m, mounts + {n}, longer, k) == Hit(|segs|)
    decreases |segs| - k
  {
    assert longer[..k] == segs[..k];
    if k < |segs| {
      ResolveAbsorbs(m, mounts, segs, longer, n, k + 1);
    } else {
      assert segs[..k] == segs;
    }
  }

  /** The part of mount() that follows the search for the block driver, whose reference
      `blk` the caller holds: it is returned, or passed on to the file system. */
  method MountOver(fs: FileSystem, target: string, blk: Inode?, avail: nat, ops: Operations)
    returns (err: MountError, node: Inode?, ghost mid: State, ghost nodes: seq<Inode>)
    requires fs.Valid() && (blk != null ==> blk in fs.others)
    modifies fs`others, fs.tree, fs.tree.state.live`peer, fs.tree.state.live`child, fs.tree.state.live`crefs
    ensures fs.Valid() && (node != null <==> err == Success) && (node == null ==> err == Busy)
    ensures err == Success <==> Reservable(old(fs.tree.state), target, avail)
    ensures Reserved(old(fs.tree.state), mid, target, nodes)
    ensures fs.tree.state == if node == null then ReleasedAny(mid, blk) else Mounted(mid, node)
    ensures node != null ==> fresh(node) && node.ops == ops && node.nodeType == MountPoint && node in nodes
    ensures fresh(fs.tree.state.live - old(fs.tree.state).live)
    ensures forall n | n in nodes && n != node :: fresh(n) && n.ops == NoOperations && n.nodeType == Driver
    ensures node == null ==>
              && fs.others == old(fs.others) - RefOf(blk)
              && fs.tree.state.held == old(fs.tree.state).held - RefOf(blk)
    ensures node != null ==>
              && fs.others == old(fs.others)
              && fs.tree.state.mounts == old(fs.tree.state).mounts + {node} && IsAbsolute(target)
              && Absorbs(View(fs.tree.state), fs.tree.state.mounts, Segments(target[1..]), node)
  {
    hide Wf, Balanced, CountsStored, LinksStored, Tabled, Meaning, Nodes, Absorbs, Segments, Paths, Released;
    hide Reserved;
    node, nodes := Reserve(fs, target, avail);
    mid := fs.tree.state;
    if node == null {
      if blk != null {
        ReleasedTree(mid, blk);
        fs.Release(blk);
      }
      return Busy, null, mid, nodes;
    }
    if blk != null {
      OthersHeld(fs.tree.state, fs.tables, fs.others, blk);
      fs.AddRef(blk);
    }
    ghost var s := fs.tree.state;
    MountAbsorbs(s, target[1..], node);
    MountedBalanced(s, fs.tables, fs.others, node);
    fs.tree.SetMountPoint(node, ops);
    if blk != null {
      MountKeepsDriver(mid, node, blk);
      fs.Release(blk);
      assert fs.others == old(fs.others);
    }
    err := Success;
  }

  lemma ReleasedTree(s: State, n: Inode)
    ensures var s' := Released(s, n); s'.shape == s.shape && s'.mounts == s.mounts && s'.held == s.held - multiset{n}
  {}

  lemma MountKeepsDriver(s: State, node: Inode, blk: Inode)
    requires Wf(s)
    ensures Released(Mounted(Acquired(s, blk), node), blk) == Mounted(s, node)
  {
    AcquireRelease(s, blk);
    assert s.held + multiset{blk} - multiset{blk} == s.held;
  }

  lemma OthersHeld(s: State, tables: seq<seq<Slot>>, others: multiset<Inode>, n: Inode)
    requires Balanced(s, tables, others) && n in others
    ensures n in s.held
  {
    hide TableRefs;
  }

  lemma ReservableHeld(s: State, s': State, path: string, avail: nat)
    requires s'.shape == s.shape && s'.mounts == s.mounts
    ensures Reservable(s', path, avail) <==> Reservable(s, path, avail)
  {}

  /** The file system's type decides whether a block driver is needed. */
  method FindSource(fs: FileSystem, source: string, fsType: FsType, readOnly: bool) returns (blk: Inode?, err: MountError)
    requires fs.Valid()
    modifies fs`others, fs.tree`state, fs.tree`heap, fs.tree.state.live`crefs
    ensures fs.Valid() && err != Busy
    ensures err == Success <==>
              fsType == Standalone || (fsType == OnBlockDriver && old(Usable(fs.tree.state, source, readOnly)))
    ensures err == NoDevice <==> fsType == Unknown
    ensures err == NotFound <==> fsType == OnBlockDriver && Denoted(old(fs.tree.state), source) == Nothing
    ensures blk != null <==> fsType == OnBlockDriver && err == Success
    ensures blk != null ==>
              Denoted(old(fs.tree.state), source).Denotes? && blk == Denoted(old(fs.tree.state), source).node
    ensures err != Success ==> fs.tree.state == old(fs.tree.state)
    ensures err == Success ==>
              && fs.tree.state == old(fs.tree.state).(held := fs.tree.state.held)
              && fs.tree.state.held == old(fs.tree.state).held + RefOf(blk)
    ensures fs.others == old(fs.others) + RefOf(blk)
    ensures if blk == null then fs.others == old(fs.others) else blk in fs.others
  {
    hide FileSystem.Valid, Denoted, Usable, Mountable;
    assert forall m: multiset<Inode> :: m + multiset{} == m;
    if fsType == OnBlockDriver {
      blk, err := FindBlockDriver(fs, source, readOnly);
    } else {
      blk, err := null, if fsType == Standalone then Success else NoDevice;
    }
  }

  /** mount(), with a bind method that succeeds.  On success the target path denotes a new
      mount point and the file system keeps one reference to its block driver; otherwise no
      reference has changed. */
  method Mount(fs: FileSystem, source: string, target: string, fsType: FsType, readOnly: bool, avail: nat, ops: Operations)
    returns (err: MountError, node: Inode?, ghost driver: Inode?, ghost mid: State, ghost nodes: seq<Inode>)
    requires fs.Valid()
    modifies fs`others, fs.tree, fs.tree.state.live`peer, fs.tree.state.live`child, fs.tree.state.live`crefs
    ensures fs.Valid() && (node != null <==> err == Success)
    ensures node == null ==> fs.others == old(fs.others) && fs.tree.state.held == old(fs.tree.state).held
    ensures node == null && err != Busy ==> fs.tree.state == old(fs.tree.state)
    ensures err == NoDevice <==> fsType == Unknown
    ensures err == NotFound <==> fsType == OnBlockDriver && Denoted(old(fs.tree.state), source) == Nothing
    ensures err == Success <==>
              && (fsType == Standalone || (fsType == OnBlockDriver && old(Usable(fs.tree.state, source, readOnly))))
              && Reservable(old(fs.tree.state), target, avail)
    ensures node != null ==>
              && Reserved(old(fs.tree.state).(held := old(fs.tree.state).held + RefOf(driver)), mid, target, nodes)
              && fs.tree.state == Mounted(mid, node)
    ensures node != null ==> fresh(node) && node.ops == ops && node.nodeType == MountPoint && node in nodes
    ensures fresh(fs.tree.state.live - old(fs.tree.state).live)
    ensures forall n | n in nodes && n != node :: fresh(n) && n.ops == NoOperations && n.nodeType == Driver
    ensures driver != null ==>
              Denoted(old(fs.tree.state), source).Denotes? && driver == Denoted(old(fs.tree.state), source).node
    ensures node != null ==>
              && fs.others == old(fs.others) + RefOf(driver) && (driver != null <==> fsType == OnBlockDriver)
              && fs.tree.state.mounts == old(fs.tree.state).mounts + {node} && IsAbsolute(target)
              && Absorbs(View(fs.tree.state), fs.tree.state.mounts, Segments(target[1..]), node)
  {
    hide FileSystem.Valid, Denoted, Absorbs, Usable, Reservable, RefOf, Reserved, Released;
    node, driver, mid, nodes := null, null, fs.tree.state, [];
    var blk;
    blk, err := FindSource(fs, source, fsType, readOnly);
    if err == Success {
      SumMinus(old(fs.others), RefOf(blk));
      SumMinus(old(fs.tree.state).held, RefOf(blk));
      ReservableHeld(old(fs.tree.state), fs.tree.state, target, avail);
      err, node, mid, nodes := MountOver(fs, target, blk, avail, ops);
      driver := if node == null then null else blk;
    }
  }

  /** Opening a path that a mount point absorbs opens the mount point, exactly as the
      operations of its file system allow. */
  method OpenMounted(fs: FileSystem, list: FileList, segs: seq<string>, node: Inode, path: string, oflags: nat, openRet: int)
    returns (fd: int, err: Errno)
    requires fs.Valid() && list in fs.lists && node.nodeType == MountPoint
    requires IsAbsolute(path) && segs <= Segments(path[1..]) && Absorbs(View(fs.tree.state), fs.tree.state.mounts, segs, node)
    modifies list`files, fs`tables, fs`others, fs.tree`state, fs.tree`heap, fs.tree.state.live`crefs
    ensures fs.Valid() && (fd != ERROR <==> Allows(node.ops, oflags) && HasFree(old(list.files)) && openRet >= 0)
    ensures fd != ERROR ==>
              FirstFree(old(list.files), 0, fd) && list.files == old(list.files)[fd := Slot(oflags, 0, node)]
    ensures err == ENXIO <==> node.ops == NoOperations
    ensures err == EACCES <==> node.ops != NoOperations && !Allows(node.ops, oflags)
  {
    hide FileSystem.Valid, Denoted, Absorbs, Segments, View, Allows, HasFree;
    AbsorbedPath(fs.tree.state, segs, node, path);
    AccessModes(true, true, oflags);
    fd, err := fs.Open(list, path, oflags, openRet);
  }

  /** Mounting and then opening a path at or below the target. */
  method MountThenOpen(fs: FileSystem, source: string, target: string, fsType: FsType, readOnly: bool, avail: nat, ops: Operations,
                       list: FileList, path: string, oflags: nat, openRet: int)
    returns (mounted: MountError, node: Inode?, fd: int, err: Errno)
    requires fs.Valid() && list in fs.lists && IsAbsolute(target) && IsAbsolute(path)
    requires Segments(target[1..]) <= Segments(path[1..])
    modifies list`files, fs`tables, fs`others, fs.tree
    modifies fs.tree.state.live`peer, fs.tree.state.live`child, fs.tree.state.live`crefs
    ensures fs.Valid() && (mounted == Success <==> node != null)
    ensures mounted == Success ==> (fd != ERROR <==> Allows(ops, oflags) && HasFree(old(list.files)) && openRet >= 0)
    ensures mounted == Success && fd != ERROR ==>
              FirstFree(old(list.files), 0, fd) && list.files == old(list.files)[fd := Slot(oflags, 0, node)]
  {
    hide FileSystem.Valid, Usable, Reservable, Reserved, Mounted, Denoted, Absorbs, Segments, View, RefOf, Allows, HasFree, FirstFree;
    ghost var driver, mid, nodes;
    mounted, node, driver, mid, nodes := Mount(fs, source, target, fsType, readOnly, avail, ops);
    fd, err := ERROR, NoError;
    if mounted == Success {
      fd, err := OpenMounted(fs, list, Segments(target[1..]), node, path, oflags, openRet);
    }
  }

  lemma AbsorbedPath(s: State, segs: seq<string>, n: Inode, path: string)
    requires IsAbsolute(path) && segs <= Segments(path[1..]) && Absorbs(View(s), s.mounts, segs, n)
    ensures Denoted(s, path) == Denotes(n, AfterSegments(path[1..], |segs|))
  {
    hide Meaning, Segments, View;
  }

  /** A driver can be mounted read-only if it could be opened for reading, and for writing if
      for both. */
  lemma MountableModes(node: Inode, readOnly: bool)
    ensures Mountable(node, readOnly) <==> Allows(node.ops, if readOnly then 1 else 3)
  {}

  lemma SumMinus<T>(a: multiset<T>, b: multiset<T>)
    ensures a + b - b == a
  {}
}
