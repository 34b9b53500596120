/** The descriptor tables of the tasks over the inode tree.

    `tables` mirrors the contents of the lists; `others` are the references held by anybody
    else: operations in progress, directory streams, mounted file systems.  The invariant
    says that the tree's references are exactly the two together. */
module Files {
  import opened Names
  import opened Forests
  import opened Placing
  import opened TreeStates
  import opened InodeTrees
  import opened Slots

  const ERROR := -1
  const OK := 0

  datatype Errno = NoError | EMFILE | ENOENT | ENXIO | EACCES | EBADF | ENOSYS | DriverError(code: int)

  // ---------------------------------------------------------------- conservation, on values

  /** The references handed out by the tree are those of the slots and the others, and none
      of them dangles. */
  predicate Balanced(s: State, tables: seq<seq<Slot>>, others: multiset<Inode>) {
    s.held == TableRefs(tables) + others && Clean(s)
  }

  lemma BalancedAcquire(s: State, tables: seq<seq<Slot>>, others: multiset<Inode>, n: Inode)
    requires Wf(s) && Balanced(s, tables, others) && (n in Nodes(s.shape) || n in s.held)
    ensures Balanced(Acquired(s, n), tables, others + multiset{n})
  {
    hide Wf, TableRefs, Nodes;
    AcquiredClean(s, n);
  }

  lemma BalancedRelease(s: State, tables: seq<seq<Slot>>, others: multiset<Inode>, n: Inode)
    requires Wf(s) && Balanced(s, tables, others) && n in others
    ensures Balanced(Released(s, n), tables, others - multiset{n})
  {
    hide Wf, TableRefs, Clean;
    ReleasedClean(s, n);
    assert TableRefs(tables) + others - multiset{n} == TableRefs(tables) + (others - multiset{n});
  }

  /** A slot takes over a reference. */
  lemma BalancedFill(s: State, tables: seq<seq<Slot>>, others: multiset<Inode>, t: nat, i: nat, x: Slot)
    requires Balanced(s, tables, others) && t < |tables| && i < |tables[t]|
    requires tables[t][i].inode == null && x.inode != null && x.inode in others
    ensures Balanced(s, tables[t := tables[t][i := x]], others - multiset{x.inode})
  {
    hide TableRefs, Clean;
    SlotExchange(tables, t, i, x);
    assert TableRefs(tables) + multiset{x.inode} + (others - multiset{x.inode}) == TableRefs(tables) + others;
  }

  /** A slot gives its reference back. */
  lemma BalancedClear(s: State, tables: seq<seq<Slot>>, others: multiset<Inode>, t: nat, i: nat)
    requires Balanced(s, tables, others) && t < |tables| && i < |tables[t]| && tables[t][i].inode != null
    ensures Balanced(s, tables[t := tables[t][i := FreeSlot]], others + multiset{tables[t][i].inode})
    ensures tables[t][i].inode in s.held && tables[t][i].inode in s.live
  {
    TableRefsIn(tables, t, i);
    hide TableRefs;
    SlotExchange(tables, t, i, FreeSlot);
    var n := tables[t][i].inode;
    var tables' := tables[t := tables[t][i := FreeSlot]];
    assert TableRefs(tables') + multiset{n} + others == TableRefs(tables') + (others + multiset{n});
  }

  /** A slot is closed: its reference goes back to the tree. */
  lemma BalancedClose(s: State, tables: seq<seq<Slot>>, others: multiset<Inode>, t: nat, i: nat)
    requires Wf(s) && Balanced(s, tables, others) && t < |tables| && i < |tables[t]| && tables[t][i].inode != null
    ensures tables[t][i].inode in s.held && tables[t][i].inode in s.live
    ensures Balanced(Released(s, tables[t][i].inode), tables[t := tables[t][i := FreeSlot]], others)
  {
    hide Wf, Balanced;
    var n, tables' := tables[t][i].inode, tables[t := tables[t][i := FreeSlot]];
    BalancedClear(s, tables, others, t, i);
    BalancedRelease(s, tables', others + multiset{n}, n);
    assert others + multiset{n} - multiset{n} == others;
  }

  /** A slot is filled with one more reference to an inode. */
  lemma BalancedDup(s: State, tables: seq<seq<Slot>>, others: multiset<Inode>, t: nat, i: nat, x: Slot)
    requires Wf(s) && Balanced(s, tables, others) && t < |tables| && i < |tables[t]| && tables[t][i].inode == null
    requires x.inode != null && x.inode in s.held
    ensures Balanced(Acquired(s, x.inode), tables[t := tables[t][i := x]], others)
  {
    hide Wf, Balanced;
    BalancedAcquire(s, tables, others, x.inode);
    BalancedFill(Acquired(s, x.inode), tables, others + multiset{x.inode}, t, i, x);
    assert others + multiset{x.inode} - multiset{x.inode} == others;
  }

  /** Insertion does not touch references. */
  lemma InsertedBalanced(s: State, tables: seq<seq<Slot>>, others: multiset<Inode>, name: string, n: Inode)
    requires Balanced(s, tables, others) && Shaped(s) && Misses(s.shape, s.mounts, name)
    ensures Balanced(Inserted(s, name, n), tables, others)
  {
    hide TableRefs, Shaped, Misses, Relinked, Place;
    MissNeighbours(s, name);
    forall o | o in s.orphans ensures Unreferenced(Inserted(s, name, n), Nodes(s.orphans[o])) {
      assert Unreferenced(s, Nodes(s.orphans[o]));
    }
  }

  /** Removal conserves references exactly when nothing below the target is referenced. */
  lemma RemovedBalanced(s: State, tables: seq<seq<Slot>>, others: multiset<Inode>, name: string)
    requires Wf(s) && Balanced(s, tables, others) && Resolves(s, name)
    ensures Balanced(Removed(s, name), tables, others) <==> Unreferenced(s, Descendants(s, name))
  {
    hide TableRefs, Clean, Wf;
    RemovedCleanIff(s, name);
    assert Shaped(s) by { WfShaped(s); }
    FoundNeighbours(s, name);
    assert Removed(s, name).held == s.held;
  }

  lemma MountedBalanced(s: State, tables: seq<seq<Slot>>, others: multiset<Inode>, n: Inode)
    requires Balanced(s, tables, others)
    ensures Balanced(Mounted(s, n), tables, others)
  {
    hide TableRefs, Nodes;
    forall o | o in s.orphans ensures Unreferenced(Mounted(s, n), Nodes(s.orphans[o])) {
      assert Unreferenced(s, Nodes(s.orphans[o]));
    }
  }

  /** A reservation does not touch references either. */
  lemma GrownBalanced(s: State, s': State, tables: seq<seq<Slot>>, others: multiset<Inode>, full: string, from: nat, to: nat)
    requires Balanced(s, tables, others) && Growing(s, s', full, from, to)
    ensures Balanced(s', tables, others)
  {
    hide TableRefs, Nodes, Grown, Existing;
    forall o | o in s.orphans ensures Unreferenced(s', Nodes(s.orphans[o])) {
      assert Unreferenced(s, Nodes(s.orphans[o]));
    }
  }

  /** Taking a reference and returning it changes nothing. */
  lemma AcquireRelease(s: State, n: Inode)
    requires Wf(s)
    ensures Released(Acquired(s, n), n) == s
  {
    if n in s.orphans { OrphansAreHeld(s, n); }
    hide Wf;
    assert s.held + multiset{n} - multiset{n} == s.held;
  }

  // ---------------------------------------------------------------- the tables

  class FileList {
    var crefs: int
    var files: seq<Slot>

    constructor (nfiles: nat)
      ensures crefs == 1 && files == seq(nfiles, _ => FreeSlot)
    {
      crefs, files := 1, seq(nfiles, _ => FreeSlot);
    }
  }

  /** `tables` are the contents of the lists, which are distinct and in use. */
  ghost predicate Tabled(lists: seq<FileList>, tables: seq<seq<Slot>>, nfiles: nat)
    reads lists
  {
    && |lists| == |tables|
    && (forall t | 0 <= t < |lists| :: lists[t].files == tables[t] && |tables[t]| == nfiles && CleanSlots(tables[t]))
    && (forall t | 0 <= t < |lists| :: lists[t].crefs > 0)
    && (forall t, t' | 0 <= t < t' < |lists| :: lists[t] != lists[t'])
  }

  lemma TabledAppend(lists: seq<FileList>, tables: seq<seq<Slot>>, nfiles: nat, list: FileList)
    requires Tabled(lists, tables, nfiles) && list !in lists && list.crefs > 0
    requires list.files == seq(nfiles, _ => FreeSlot)
    ensures Tabled(lists + [list], tables + [list.files], nfiles)
  {}

  lemma TabledDrop(lists: seq<FileList>, tables: seq<seq<Slot>>, nfiles: nat, t: nat)
    requires Tabled(lists, tables, nfiles) && t < |lists|
    ensures Tabled(lists[..t] + lists[t + 1..], tables[..t] + tables[t + 1..], nfiles)
    ensures lists[t] !in lists[..t] + lists[t + 1..] && |tables| == |lists| && tables[t] == lists[t].files
  {
    hide CleanSlots;
    var lists', tables' := lists[..t] + lists[t + 1..], tables[..t] + tables[t + 1..];
    forall k | 0 <= k < |lists'|
      ensures lists'[k] == lists[if k < t then k else k + 1] && tables'[k] == tables[if k < t then k else k + 1]
    {}
  }

  lemma BalancedAppend(s: State, tables: seq<seq<Slot>>, others: multiset<Inode>, slots: seq<Slot>)
    requires Balanced(s, tables, others) && forall i | 0 <= i < |slots| :: slots[i].inode == null
    ensures Balanced(s, tables + [slots], others)
  {
    NoRefs(slots);
    TableRefsAppend(tables, slots);
  }

  lemma BalancedDrop(s: State, tables: seq<seq<Slot>>, others: multiset<Inode>, t: nat)
    requires Balanced(s, tables, others) && t < |tables|
    requires forall i | 0 <= i < |tables[t]| :: tables[t][i].inode == null
    ensures Balanced(s, tables[..t] + tables[t + 1..], others)
  {
    hide Clean;
    NoRefs(tables[t]);
    TableRefsDrop(tables, t);
    hide TableRefs, SlotRefs;
  }

  class FileSystem {
    const tree: InodeTree
    const nfiles: nat
    var lists: seq<FileList>
    ghost var tables: seq<seq<Slot>>
    ghost var others: multiset<Inode>

    /** Conservation: the references of the tree are those of the slots and the others. */
    ghost predicate Valid()
      reads this, lists, tree, tree.state.live
    {
      Tabled(lists, tables, nfiles) && tree.Valid() && Balanced(tree.state, tables, others)
    }

    constructor (nfiles: nat)
      ensures Valid() && lists == [] && others == multiset{} && tree.state == Empty
    {
      this.nfiles := nfiles;
      tree := new InodeTree();
      lists, tables, others := [], [], multiset{};
    }

    ghost function IndexOf(list: FileList): (t: nat)
      requires list in lists
      reads this
      ensures t < |lists| && lists[t] == list
    {
      var t :| 0 <= t < |lists| && lists[t] == list;
      t
    }

    lemma ListContents(list: FileList)
      requires Tabled(lists, tables, nfiles) && list in lists
      ensures |tables| == |lists| && tables[IndexOf(list)] == list.files
      ensures |list.files| == nfiles && CleanSlots(list.files)
    {}

    /** Writes one slot of a list. */
    method SetSlot(list: FileList, i: nat, x: Slot)
      requires Tabled(lists, tables, nfiles) && list in lists && i < nfiles && (x.inode == null ==> x == FreeSlot)
      modifies list`files, `tables
      ensures Tabled(lists, tables, nfiles) && list.files == old(list.files)[i := x]
      ensures tables == old(tables)[IndexOf(list) := old(tables)[IndexOf(list)][i := x]]
    {
      ghost var t := IndexOf(list);
      list.files := list.files[i := x];
      tables := tables[t := tables[t][i := x]];
    }

    /** Puts an inode whose reference the caller holds into the first free slot not below
        `minfd`.  The reference then belongs to the slot. */
    method FilesAllocate(list: FileList, inode: Inode, oflags: int, pos: int, minfd: nat) returns (fd: int)
      requires Valid() && list in lists && inode in others
      modifies list`files, `tables, `others
      ensures Valid()
      ensures fd == ERROR ==> list.files == old(list.files) && tables == old(tables) && others == old(others)
      ensures fd == ERROR <==> forall j | minfd <= j < nfiles :: old(list.files)[j].inode != null
      ensures fd != ERROR ==> FirstFree(old(list.files), minfd, fd)
      ensures fd != ERROR ==> list.files == old(list.files)[fd := Slot(oflags, pos, inode)]
      ensures fd != ERROR ==> others == old(others) - multiset{inode}
    {
      hide Wf, Balanced, CleanSlots, CountsStored, LinksStored;
      var i := minfd;
      while i < nfiles
        invariant minfd <= i && (i <= nfiles || i == minfd)
        invariant forall j | minfd <= j < i && j < nfiles :: list.files[j].inode != null
        invariant unchanged(this, list)
      {
        if list.files[i].inode == null {
          BalancedFill(tree.state, tables, others, IndexOf(list), i, Slot(oflags, pos, inode));
          SetSlot(list, i, Slot(oflags, pos, inode));
          others := others - multiset{inode};
          return i;
        }
        i := i + 1;
      }
      return ERROR;
    }

    /** Returns the reference of an open slot to the caller and frees the slot. */
    method FilesRelease(list: FileList, fd: int)
      requires Valid() && list in lists
      modifies list`files, `tables, `others
      ensures Valid()
      ensures !IsOpen(old(list.files), fd) ==> list.files == old(list.files) && others == old(others)
      ensures IsOpen(old(list.files), fd) ==>
                && list.files == old(list.files)[fd := FreeSlot]
                && others == old(others) + multiset{old(list.files)[fd].inode}
    {
      hide Wf, Balanced, CountsStored, LinksStored;
      if 0 <= fd < nfiles {
        ghost var t := IndexOf(list);
        assert list.files[fd].inode == null ==> list.files[fd := FreeSlot] == list.files;
        assert list.files[fd].inode == null ==> tables[t := tables[t][fd := FreeSlot]] == tables;
        if list.files[fd].inode != null {
          BalancedClear(tree.state, tables, others, t, fd);
          others := others + multiset{list.files[fd].inode};
        }
        SetSlot(list, fd, FreeSlot);
      }
    }

    /** Closes one slot.  `driverRet` is what the driver's close method returns, zero if
        there is none; the slot is freed and its reference returned in either case. */
    method CloseSlot(list: FileList, fd: nat, driverRet: int) returns (ret: int)
      requires Valid() && list in lists && fd < nfiles
      modifies list`files, `tables, tree`state, tree`heap, tree.state.live`crefs
      ensures Valid() && list.files == old(list.files)[fd := FreeSlot] && tree.state.live <= old(tree.state).live
      ensures old(list.files)[fd].inode == null ==> ret == OK && tree.state == old(tree.state)
      ensures old(list.files)[fd].inode != null ==>
                ret == driverRet && tree.state == Released(old(tree.state), old(list.files)[fd].inode)
    {
      hide Wf, Balanced, CountsStored, LinksStored, Released;
      ret := OK;
      var inode := list.files[fd].inode;
      if inode != null {
        BalancedClose(tree.state, tables, others, IndexOf(list), fd);
        ret := driverRet;
        tree.InodeRelease(inode);
        SetSlot(list, fd, FreeSlot);
      } else {
        assert list.files[fd := FreeSlot] == list.files;
      }
    }

    /** close() of a descriptor. */
    method FilesClose(list: FileList?, fd: int, driverRet: int) returns (ret: int, err: Errno)
      requires Valid() && (list != null ==> list in lists)
      modifies Frame(list)`files, `tables, tree`state, tree`heap, tree.state.live`crefs
      ensures Valid()
      ensures list == null ==> err == EMFILE && tree.state == old(tree.state) && tables == old(tables)
      ensures list != null && !IsOpen(old(list.files), fd) ==>
                err == EBADF && tree.state == old(tree.state) && list.files == old(list.files)
      ensures list != null && IsOpen(old(list.files), fd) ==>
                && err == NoError && ret == driverRet && list.files == old(list.files)[fd := FreeSlot]
                && tree.state == Released(old(tree.state), old(list.files)[fd].inode)
    {
      hide Wf, Balanced, CountsStored, LinksStored, Released, CleanSlots;
      if list == null {
        return ERROR, EMFILE;
      }
      if fd < 0 || fd >= nfiles || list.files[fd].inode == null {
        return ERROR, EBADF;
      }
      ret := CloseSlot(list, fd, driverRet);
      err := NoError;
    }

    ghost function Frame(list: FileList?): set<FileList> {
      if list == null then {} else {list}
    }

    /** Finds the inode of a path; the caller then holds a reference to it. */
    method Find(path: string) returns (node: Inode?, relpath: string)
      requires Valid()
      modifies `others, tree`state, tree.state.live`crefs
      ensures Valid() && Denoted(old(tree.state), path) == if node == null then Nothing else Denotes(node, relpath)
      ensures node == null ==> tree.state == old(tree.state) && others == old(others)
      ensures node != null ==>
                && tree.state == Acquired(old(tree.state), node) && others == old(others) + multiset{node}
                && tree.state.live == old(tree.state).live && node in tree.state.live
    {
      hide Wf, Balanced, CountsStored, LinksStored, Acquired, Tabled, Denoted, Nodes;
      ghost var s := tree.state;
      node, relpath := tree.InodeFind(path);
      if node != null {
        BalancedFind(s, tables, others, node);
        others := others + multiset{node};
      }
    }

    /** One more reference to an inode of the tree or to one that is referenced already. */
    method AddRef(node: Inode)
      requires Valid() && (node in Nodes(tree.state.shape) || node in tree.state.held)
      modifies `others, tree`state, tree.state.live`crefs
      ensures Valid() && tree.state == Acquired(old(tree.state), node) && others == old(others) + multiset{node}
      ensures tree.state.live == old(tree.state).live && node in tree.state.live
    {
      hide Wf, CountsStored, LinksStored, Tabled, TableRefs, Nodes;
      assert Nodes(tree.state.shape) <= tree.state.live by { WfShaped(tree.state); }
      BalancedAcquire(tree.state, tables, others, node);
      tree.InodeAddref(node);
      others := others + multiset{node};
    }

    /** Returns a reference the caller holds. */
    method Release(node: Inode)
      requires Valid() && node in others
      modifies `others, tree`state, tree`heap, tree.state.live`crefs
      ensures Valid() && tree.state == Released(old(tree.state), node) && others == old(others) - multiset{node}
      ensures tree.state.live <= old(tree.state).live
    {
      hide Wf, CountsStored, LinksStored, Tabled, TableRefs, Released;
      BalancedRelease(tree.state, tables, others, node);
      tree.InodeRelease(node);
      others := others - multiset{node};
    }

    /** Gives back a reference that was just taken: the tree is as before. */
    method Undo(node: Inode, ghost s: State)
      requires Valid() && Wf(s) && node in others
      requires tree.state.(held := s.held) == s && tree.state.held == s.held + multiset{node}
      modifies `others, tree`state, tree`heap, tree.state.live`crefs
      ensures Valid() && tree.state == s && others == old(others) - multiset{node}
    {
      hide Valid, Wf, Released;
      AcquireRelease(s, node);
      Release(node);
    }

    lemma StateWf()
      requires Valid()
      ensures Wf(tree.state)
    {}

    /** dup(): a second descriptor for an open file, or no change at all. */
    method FileDup(list: FileList?, fd: int, minfd: nat) returns (fd2: int, err: Errno)
      requires Valid() && (list != null ==> list in lists)
      modifies Frame(list)`files, `tables, `others, tree`state, tree`heap, tree.state.live`crefs
      ensures Valid() && others == old(others)
      ensures list == null ==> fd2 == ERROR && err == EMFILE
      ensures list != null && !IsOpen(old(list.files), fd) ==> fd2 == ERROR && err == EBADF
      ensures fd2 == ERROR ==> tree.state == old(tree.state) && tables == old(tables)
      ensures fd2 == ERROR && list != null && IsOpen(old(list.files), fd) ==>
                err == EMFILE && forall j | minfd <= j < nfiles :: old(list.files)[j].inode != null
      ensures fd2 != ERROR ==>
                && list != null && IsOpen(old(list.files), fd) && FirstFree(old(list.files), minfd, fd2)
                && list.files == old(list.files)[fd2 := old(list.files)[fd]]
                && tree.state == Acquired(old(tree.state), old(list.files)[fd].inode)
    {
      hide Wf, Balanced, CountsStored, LinksStored, Released, CleanSlots, Acquired, Tabled;
      if list == null {
        return ERROR, EMFILE;
      }
      ListContents(list);
      if fd < 0 || fd >= nfiles || list.files[fd].inode == null {
        return ERROR, EBADF;
      }
      var inode := list.files[fd].inode;
      SlotIsLive(list, fd);
      AcquireRelease(tree.state, inode);
      AddRef(inode);
      fd2 := FilesAllocate(list, inode, list.files[fd].oflags, list.files[fd].pos, minfd);
      err := NoError;
      if fd2 < 0 {
        err := EMFILE;
        Release(inode);
      }
      assert others == old(others);
    }

    /** The heart of dup2: slot `fd2` is closed and made a copy of slot `fd1`.  The driver's
        close and open methods may fail; then `fd2` stays closed. */
    method FilesDup(list: FileList, fd1: nat, fd2: nat, closeRet: int, openRet: int) returns (ret: int, err: Errno)
      requires Valid() && list in lists && fd1 < nfiles && fd2 < nfiles && fd1 != fd2
      modifies list`files, `tables, tree`state, tree`heap, tree.state.live`crefs
      ensures Valid() && (ret == OK || ret == ERROR) && (ret == OK <==> err == NoError)
      ensures err == DupError(old(list.files), old(tree.state).mounts, fd1, fd2, closeRet, openRet)
      ensures err == EBADF || err == ENOSYS ==> tree.state == old(tree.state) && list.files == old(list.files)
      ensures err.DriverError? ==>
                && list.files == old(list.files)[fd2 := FreeSlot]
                && tree.state == ReleasedAny(old(tree.state), old(list.files)[fd2].inode)
      ensures ret == OK ==>
                && list.files == old(list.files)[fd2 := old(list.files)[fd1]] && old(list.files)[fd1].inode != null
                && tree.state == Acquired(ReleasedAny(old(tree.state), old(list.files)[fd2].inode), old(list.files)[fd1].inode)
    {
      hide Wf, Balanced, CountsStored, LinksStored, Released, CleanSlots, Acquired, Tabled;
      ListContents(list);
      var inode := list.files[fd1].inode;
      if inode == null {
        return ERROR, EBADF;
      }
      SlotIsLive(list, fd1);
      if inode.nodeType == MountPoint {
        return ERROR, ENOSYS;
      }
      ret := CloseSlot(list, fd2, closeRet);
      if ret < 0 {
        return ERROR, DriverError(-ret);
      }
      ret, err := CloneSlot(list, fd1, fd2, openRet);
    }

    /** Makes the free slot `fd2` a copy of the open slot `fd1` and calls the driver's open
        method; if that fails the slot is freed again. */
    method CloneSlot(list: FileList, fd1: nat, fd2: nat, openRet: int) returns (ret: int, err: Errno)
      requires Valid() && list in lists && fd1 < nfiles && fd2 < nfiles
      requires list.files[fd1].inode != null && list.files[fd2].inode == null
      modifies list`files, `tables, tree`state, tree`heap, tree.state.live`crefs
      ensures Valid() && (ret == OK || ret == ERROR) && (ret == OK <==> err == NoError)
      ensures err == if openRet < 0 then DriverError(-openRet) else NoError
      ensures ret == ERROR ==> tree.state == old(tree.state) && list.files == old(list.files)
      ensures ret == OK ==>
                && list.files == old(list.files)[fd2 := old(list.files)[fd1]]
                && tree.state == Acquired(old(tree.state), old(list.files)[fd1].inode)
    {
      hide Wf, Balanced, CountsStored, LinksStored, Released, Acquired, Tabled;
      ListContents(list);
      SlotIsLive(list, fd1);
      var inode := list.files[fd1].inode;
      AcquireRelease(tree.state, inode);
      BalancedDup(tree.state, tables, others, IndexOf(list), fd2, list.files[fd1]);
      tree.InodeAddref(inode);
      SetSlot(list, fd2, list.files[fd1]);
      if openRet < 0 {
        ListContents(list);
        BalancedClose(tree.state, tables, others, IndexOf(list), fd2);
        tree.InodeRelease(inode);
        SetSlot(list, fd2, FreeSlot);
        assert list.files == old(list.files);
        return ERROR, DriverError(-openRet);
      }
      return OK, NoError;
    }

    /** An inode named by a slot is allocated, and its type is stored as the state says. */
    lemma SlotIsLive(list: FileList, fd: nat)
      requires Valid() && list in lists && fd < nfiles && list.files[fd].inode != null
      ensures list.files[fd].inode in tree.state.live && list.files[fd].inode in tree.state.held
      ensures list.files[fd].inode.nodeType == MountPoint <==> list.files[fd].inode in tree.state.mounts
    {
      hide Wf, Balanced, LinksStored, TableRefs;
      BalancedClear(tree.state, tables, others, IndexOf(list), fd);
    }

    /** dup2().  On success it returns zero, except that a descriptor duplicated to itself
        is returned as it is. */
    method FileDup2(list: FileList?, fd1: int, fd2: int, closeRet: int, openRet: int) returns (ret: int, err: Errno)
      requires Valid() && (list != null ==> list in lists)
      modifies Frame(list)`files, `tables, tree`state, tree`heap, tree.state.live`crefs
      ensures Valid()
      ensures list == null ==> ret == ERROR && err == EMFILE
      ensures list != null && (!IsOpen(old(list.files), fd1) || (fd1 != fd2 && !(0 <= fd2 < nfiles))) ==>
                ret == ERROR && err == EBADF && list.files == old(list.files) && tree.state == old(tree.state)
      ensures list != null && IsOpen(old(list.files), fd1) && fd1 != fd2 && 0 <= fd2 < nfiles ==>
                && nfiles == |old(list.files)|
                && err == DupError(old(list.files), old(tree.state).mounts, fd1, fd2, closeRet, openRet)
      ensures list != null && IsOpen(old(list.files), fd1) && fd1 == fd2 ==>
                ret == fd1 && err == NoError && list.files == old(list.files) && tree.state == old(tree.state)
      ensures list != null && IsOpen(old(list.files), fd1) && fd1 != fd2 && 0 <= fd2 < nfiles && err == NoError ==>
                && ret == OK && list.files == old(list.files)[fd2 := old(list.files)[fd1]]
                && tree.state == Acquired(ReleasedAny(old(tree.state), old(list.files)[fd2].inode), old(list.files)[fd1].inode)
      ensures err == ENOSYS ==> ret == ERROR && list.files == old(list.files) && tree.state == old(tree.state)
      ensures err.DriverError? ==>
                && ret == ERROR && list.files == old(list.files)[fd2 := FreeSlot]
                && tree.state == ReleasedAny(old(tree.state), old(list.files)[fd2].inode)
    {
      hide Wf, Balanced, CountsStored, LinksStored, Released, CleanSlots, Acquired, Tabled;
      if list == null {
        return ERROR, EMFILE;
      }
      ListContents(list);
      if fd1 < 0 || fd1 >= nfiles || list.files[fd1].inode == null {
        return ERROR, EBADF;
      }
      if fd1 == fd2 {
        return fd1, NoError;
      }
      if fd2 < 0 || fd2 >= nfiles {
        return ERROR, EBADF;
      }
      ret, err := FilesDup(list, fd1, fd2, closeRet, openRet);
    }

    /** Do the operations include what the flags ask for? */
    static method InodeCheckFlags(ops: Operations, oflags: nat) returns (allowed: bool)
      requires ops != NoOperations
      ensures allowed <==> Allows(ops, oflags)
    {
      allowed := !((ReadAccess(oflags) && !ops.canRead) || (WriteAccess(oflags) && !ops.canWrite));
    }

    /** Gives an inode that was found a descriptor and calls the driver's open method.
        Without success the caller keeps the reference and no slot has changed. */
    method Attach(list: FileList, inode: Inode, oflags: nat, openRet: int) returns (fd: int, err: Errno)
      requires Valid() && list in lists && inode in others
      modifies list`files, `tables, `others
      ensures Valid()
      ensures fd == ERROR ==> list.files == old(list.files) && others == old(others)
      ensures fd != ERROR ==>
                && FirstFree(old(list.files), 0, fd) && others == old(others) - multiset{inode}
                && list.files == old(list.files)[fd := Slot(oflags, 0, inode)]
      ensures fd != ERROR <==> err == NoError
      ensures err == NoError <==> Openable(inode, oflags) && HasFree(old(list.files)) && openRet >= 0
      ensures err == ENXIO <==> !Supported(inode)
      ensures err == EACCES <==> Supported(inode) && !Openable(inode, oflags)
      ensures err == EMFILE <==> Openable(inode, oflags) && !HasFree(old(list.files))
      ensures err == DriverError(-openRet) <==> Openable(inode, oflags) && HasFree(old(list.files)) && openRet < 0
    {
      hide Wf, Balanced, CountsStored, LinksStored, Tabled, Allows;
      ListContents(list);
      if inode.nodeType == Block || inode.ops == NoOperations {
        return ERROR, ENXIO;
      }
      var allowed := InodeCheckFlags(inode.ops, oflags);
      if !allowed {
        return ERROR, EACCES;
      }
      fd := FilesAllocate(list, inode, oflags, 0, 0);
      if fd < 0 {
        return ERROR, EMFILE;
      }
      if openRet < 0 {
        ListContents(list);
        FilesRelease(list, fd);
        assert list.files == old(list.files);
        assert others == old(others);
        return ERROR, DriverError(-openRet);
      }
      err := NoError;
    }

    /** open() of a path.  Either a new descriptor names the inode that the path denotes, or
        nothing has changed; every exit unwinds what it did. */
    method Open(list: FileList?, path: string, oflags: nat, openRet: int) returns (fd: int, err: Errno)
      requires Valid() && (list != null ==> list in lists)
      modifies Frame(list)`files, `tables, `others, tree`state, tree`heap, tree.state.live`crefs
      ensures Valid() && others == old(others)
      ensures fd == ERROR ==> tree.state == old(tree.state) && (list != null ==> list.files == old(list.files))
      ensures list == null ==> fd == ERROR && err == EMFILE
      ensures fd != ERROR <==> err == NoError
      ensures list != null ==> (err == ENOENT <==> Denoted(old(tree.state), path) == Nothing)
      ensures list != null && Denoted(old(tree.state), path).Denotes? ==>
                var node := Denoted(old(tree.state), path).node;
                && (err == ENXIO <==> !Supported(node))
                && (err == EACCES <==> Supported(node) && !Openable(node, oflags))
                && (err == EMFILE <==> Openable(node, oflags) && !HasFree(old(list.files)))
                && (err == DriverError(-openRet) <==> Openable(node, oflags) && HasFree(old(list.files)) && openRet < 0)
                && (fd != ERROR <==> Openable(node, oflags) && HasFree(old(list.files)) && openRet >= 0)
                && (fd != ERROR ==>
                      && FirstFree(old(list.files), 0, fd) && tree.state == Acquired(old(tree.state), node)
                      && list.files == old(list.files)[fd := Slot(oflags, 0, node)])
    {
      hide Valid, Wf, Denoted;
      hide Openable, Supported, HasFree, FirstFree;
      if list == null {
        return ERROR, EMFILE;
      }
      ghost var s := tree.state;
      StateWf();
      var inode, relpath := Find(path);
      if inode == null {
        return ERROR, ENOENT;
      }
      fd, err := Attach(list, inode, oflags, openRet);
      if fd == ERROR {
        Undo(inode, s);
      }
      assert others == old(others);
    }

    // -------------------------------------------------------------- lists

    /** A list for a new task. */
    method FilesAllocList() returns (list: FileList)
      requires Valid()
      modifies `lists, `tables
      ensures Valid() && fresh(list) && lists == old(lists) + [list] && list.crefs == 1
      ensures list.files == seq(nfiles, _ => FreeSlot)
    {
      hide Wf, CountsStored, LinksStored, Clean, Balanced, Tabled;
      list := new FileList(nfiles);
      TabledAppend(lists, tables, nfiles, list);
      BalancedAppend(tree.state, tables, others, list.files);
      lists, tables := lists + [list], tables + [list.files];
    }

    /** One more task shares the list. */
    method FilesAddrefList(list: FileList)
      requires Valid() && list in lists
      modifies list`crefs
      ensures Valid() && list.crefs == old(list.crefs) + 1
    {
      hide Wf, CountsStored, LinksStored, Clean, TableRefs;
      list.crefs := list.crefs + 1;
    }

    /** A task gives the list up.  The last one closes every descriptor, whatever the
        drivers answer, and the list is gone. */
    method FilesReleaseList(list: FileList, driverRets: seq<int>)
      requires Valid() && list in lists && |driverRets| == nfiles
      modifies list, `lists, `tables, tree`state, tree`heap, tree.state.live`crefs
      ensures Valid()
      ensures old(list.crefs) > 1 ==> list.crefs == old(list.crefs) - 1 && lists == old(lists) && list.files == old(list.files) && tree.state == old(tree.state)
      ensures old(list.crefs) == 1 ==>
                && list !in lists && |lists| == |old(lists)| - 1
                && tree.state == ReleasedSlots(old(tree.state), old(list.files))
    {
      hide Wf, CountsStored, LinksStored, Clean, Balanced, CleanSlots;
      if list.crefs > 1 {
        list.crefs := list.crefs - 1;
      } else {
        CloseAll(list, driverRets);
        DropList(list);
      }
    }

    /** Closes all descriptors of a list in turn. */
    method CloseAll(list: FileList, driverRets: seq<int>)
      requires Valid() && list in lists && |driverRets| == nfiles
      modifies list`files, `tables, tree`state, tree`heap, tree.state.live`crefs
      ensures Valid() && list.files == seq(nfiles, _ => FreeSlot)
      ensures tree.state == ReleasedSlots(old(tree.state), old(list.files))
    {
      hide Wf, Balanced, CountsStored, LinksStored, Released, Tabled, CleanSlots;
      ListContents(list);
      var i := 0;
      while i < nfiles
        invariant 0 <= i <= nfiles && Valid() && |list.files| == nfiles
        invariant forall j | 0 <= j < i :: list.files[j] == FreeSlot
        invariant forall j | i <= j < nfiles :: list.files[j] == old(list.files)[j]
        invariant tree.state == ReleasedSlots(old(tree.state), old(list.files)[..i])
        invariant tree.state.live <= old(tree.state).live
      {
        var ret := CloseSlot(list, i, driverRets[i]);
        assert old(list.files)[..i + 1][..i] == old(list.files)[..i];
        i := i + 1;
      }
      assert old(list.files)[..nfiles] == old(list.files);
    }

    /** Frees a list without open descriptors. */
    method DropList(list: FileList)
      requires Valid() && list in lists && list.files == seq(nfiles, _ => FreeSlot)
      modifies `lists, `tables
      ensures Valid() && list !in lists && |lists| == |old(lists)| - 1
    {
      hide Wf, CountsStored, LinksStored, Clean, Balanced, Tabled;
      var t :| 0 <= t < |lists| && lists[t] == list;
      TabledDrop(lists, tables, nfiles, t);
      BalancedDrop(tree.state, tables, others, t);
      lists, tables := lists[..t] + lists[t + 1..], tables[..t] + tables[t + 1..];
    }
  }

  /** The references of a whole table are returned, slot by slot. */
  ghost function ReleasedSlots(s: State, slots: seq<Slot>): State {
    if slots == [] then s
    else ReleasedAny(ReleasedSlots(s, slots[..|slots| - 1]), slots[|slots| - 1].inode)
  }

  /** Finding an inode gives the finder a reference. */
  lemma BalancedFind(s: State, tables: seq<seq<Slot>>, others: multiset<Inode>, n: Inode)
    requires Wf(s) && Balanced(s, tables, others) && n in Nodes(s.shape)
    ensures Balanced(Acquired(s, n), tables, others + multiset{n})
  {
    hide Wf, Balanced, Nodes;
    BalancedAcquire(s, tables, others, n);
  }

  /** The node is a driver or a mount point. */
  ghost predicate Supported(node: Inode)
    reads node`nodeType, node`ops
  {
    node.nodeType != Block && node.ops != NoOperations
  }

  predicate HasFree(files: seq<Slot>) {
    exists j | 0 <= j < |files| :: files[j].inode == null
  }

  /** The operations include what the flags ask for. */
  predicate Allows(ops: Operations, oflags: nat) {
    ops != NoOperations && (ReadAccess(oflags) ==> ops.canRead) && (WriteAccess(oflags) ==> ops.canWrite)
  }

  /** The node supports the requested access. */
  ghost predicate Openable(node: Inode, oflags: nat)
    reads node`nodeType, node`ops
  {
    Supported(node) && Allows(node.ops, oflags)
  }

  /** Whatever other flags are set, opening for reading (1), writing (2) or both (3) needs the
      read method, the write method or both, and opening for neither needs none. */
  lemma AccessModes(canRead: bool, canWrite: bool, others: nat)
    ensures Allows(Operations(canRead, canWrite), 4 * others)
    ensures Allows(Operations(canRead, canWrite), 4 * others + 1) <==> canRead
    ensures Allows(Operations(canRead, canWrite), 4 * others + 2) <==> canWrite
    ensures Allows(Operations(canRead, canWrite), 4 * others + 3) <==> canRead && canWrite
    ensures !Allows(NoOperations, others)
  {
    assert (4 * others) / 2 == 2 * others && (4 * others + 1) / 2 == 2 * others;
    assert (4 * others + 2) / 2 == 2 * others + 1 && (4 * others + 3) / 2 == 2 * others + 1;
  }

  /** Returning the reference of a slot, if it has one. */
  ghost function ReleasedAny(s: State, n: Inode?): State {
    if n == null then s else Released(s, n)
  }

  /** What duplicating one descriptor to another answers, given what the drivers say when the
      second is closed and the first opened once more. */
  function DupError(files: seq<Slot>, mounts: set<Inode>, fd1: nat, fd2: nat, closeRet: int, openRet: int): Errno
    requires fd1 < |files| && fd2 < |files|
  {
    if files[fd1].inode == null then EBADF
    else if files[fd1].inode in mounts then ENOSYS
    else if files[fd2].inode != null && closeRet < 0 then DriverError(-closeRet)
    else if openRet < 0 then DriverError(-openRet)
    else NoError
  }

  predicate ReadAccess(oflags: nat) { oflags % 2 == 1 }
  predicate WriteAccess(oflags: nat) { oflags / 2 % 2 == 1 }

  predicate IsOpen(files: seq<Slot>, fd: int) {
    0 <= fd < |files| && files[fd].inode != null
  }

  /** `fd` is the first free slot not below `minfd`. */
  predicate FirstFree(files: seq<Slot>, minfd: nat, fd: int) {
    minfd <= fd < |files| && files[fd].inode == null && forall j | minfd <= j < fd :: files[j].inode != null
  }
}
