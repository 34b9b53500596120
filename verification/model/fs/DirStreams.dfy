/** Directory streams over the pseudo file system. */
module DirStreams {
  import opened Names
  import opened Forests
  import opened Placing
  import opened Cutting
  import opened TreeStates
  import opened InodeTrees
  import opened Slots
  import opened Files

  // ---------------------------------------------------------------- the entries of a list

  /** The siblings of an inode, from the inode itself to the last one. */
  function Entries(t: Forest, x: Inode): seq<Inode>
    requires x in Nodes(t)
  {
    if x == t.inode then Siblings(t)
    else if x in Nodes(t.child) then Entries(t.child, x)
    else Entries(t.peer, x)
  }

  /** Following the peer pointer drops the first entry. */
  lemma {:induction false} EntriesNext(t: Forest, x: Inode)
    requires Distinct(t) && x in Nodes(t)
    ensures var next := Links(t, x).1;
            && |Entries(t, x)| > 0 && Entries(t, x)[0] == x
            && (next == null ==> |Entries(t, x)| == 1)
            && (next != null ==> next in Nodes(t) && Entries(t, x)[1..] == Entries(t, next))
    decreases t
  {
    if x == t.inode {
      assert Siblings(t)[1..] == Siblings(t.peer);
      if t.peer.Node? { HeadEntries(t, t.peer.inode); }
    } else if x in Nodes(t.child) {
      EntriesNext(t.child, x);
    } else {
      EntriesNext(t.peer, x);
      var next := Links(t, x).1;
      if next != null { HeadEntries(t, next); }
    }
  }

  /** Entries of a node among the peers are found among the peers. */
  lemma HeadEntries(t: Forest, x: Inode)
    requires t.Node? && Distinct(t) && x in Nodes(t.peer)
    ensures x in Nodes(t) && Entries(t, x) == Entries(t.peer, x)
  {}

  /** What follows a referenced inode is an inode of the tree. */
  lemma PeerInTree(s: State, x: Inode)
    requires Wf(s) && Clean(s) && (x in s.held || x in Nodes(s.shape))
    ensures x in s.live && x in s.links
    ensures var next := s.links[x].1; next == null || (next in Nodes(s.shape) && x in Nodes(s.shape))
  {
    if x in Nodes(s.shape) {
      EntriesNext(s.shape, x);
    } else {
      var o :| o in s.orphans && x in Piece(s.orphans, o);
      assert Unreferenced(s, Nodes(s.orphans[o]));
    }
  }

  // ---------------------------------------------------------------- the stream

  class DirStream {
    var root: Inode?
    var next: Inode?
    var position: int

    constructor (root: Inode, next: Inode?)
      ensures this.root == root && this.next == next && position == 0
    {
      this.root, this.next, position := root, next, 0;
    }

    /** The references a stream is expected to hold: one to its root and one to the next
        entry. */
    ghost function Refs(): multiset<Inode>
      reads this
    {
      RefOf(root) + RefOf(next)
    }

    /** The stream stands at `position` in the list that starts at `first`. */
    ghost predicate StandsFrom(t: Forest, first: Inode)
      reads this
    {
      && first in Nodes(t)
      && 0 <= position <= |Entries(t, first)|
      && next == if position < |Entries(t, first)| then Entries(t, first)[position] else null
    }

    /** The root of the stream is an inode of the tree, or held by somebody. */
    ghost predicate Rooted(s: State)
      reads this
    {
      root != null && (root in Nodes(s.shape) || root in s.held)
    }
  }

  predicate IsRootPath(path: string) {
    path == "" || path == "/"
  }

  datatype DirError = Opened | NotDirectory | OutOfMemory | MountError(code: int)

  /** The inode whose list a stream on this path would read: the first node of the tree for
      the root, else what the path denotes. */
  function DirNode(s: State, path: string): Inode? {
    if IsRootPath(path) then Head(s.shape)
    else match Denoted(s, path)
         case Nothing => null
         case Denotes(n, _) => n
  }

  function FirstChild(t: Forest, x: Inode): Inode? {
    if x in Nodes(t) then Links(t, x).0 else null
  }

  /** What opendir() answers, given whether memory lasts and what a mounted file system
      says. */
  function OpenError(s: State, path: string, memory: bool, mountRet: int): DirError {
    var n := DirNode(s, path);
    if n == null then NotDirectory
    else if !memory then OutOfMemory
    else if IsRootPath(path) then Opened
    else if n in s.mounts then if mountRet < 0 then MountError(-mountRet) else Opened
    else if FirstChild(s.shape, n) == null then NotDirectory
    else Opened
  }

  /** The entry a new stream reads next; a mounted file system keeps its own. */
  function FirstEntry(s: State, path: string): Inode? {
    var n := DirNode(s, path);
    if n == null || IsRootPath(path) then n
    else if n in s.mounts then null
    else FirstChild(s.shape, n)
  }

  /** The paths for which opendir() counts the references it hands out: the root and mount
      points. */
  predicate CountsRight(s: State, path: string) {
    IsRootPath(path) || DirNode(s, path) in s.mounts
  }

  method FindDir(fs: FileSystem, path: string) returns (inode: Inode?)
    requires fs.Valid()
    ensures inode == DirNode(fs.tree.state, path)
    ensures inode != null ==> inode in Nodes(fs.tree.state.shape) && inode in fs.tree.state.live
  {
    hide Wf, Balanced, CountsStored, LinksStored, Tabled, Meaning, Nodes, Search;
    assert Shaped(fs.tree.state) && Nodes(fs.tree.state.shape) <= fs.tree.state.live by { WfShaped(fs.tree.state); }
    if path == "" || path == "/" {
      inode := fs.tree.root;
      HeadInside(fs.tree.state.shape);
    } else if path[0] != '/' {
      inode := null;
    } else {
      var left, above, rest;
      inode, left, above, rest := fs.tree.InodeSearch(path);
      if inode != null { FoundNeighbours(fs.tree.state, path[1..]); }
    }
  }

  lemma HeadInside(t: Forest)
    ensures Head(t) != null ==> Head(t) in Nodes(t)
  {}

  /** opendir().  A stream on the root of the tree, or on a mount point, is given exactly the
      references it will return; a stream on any other directory is not: its first entry is
      counted twice and the directory itself not at all. */
  method OpenDir(fs: FileSystem, path: string, memory: bool, mountRet: int) returns (dir: DirStream?, err: DirError)
    requires fs.Valid()
    modifies fs`others, fs.tree`state, fs.tree`heap, fs.tree.state.live`crefs
    ensures fs.Valid() && fs.tree.state.shape == old(fs.tree.state).shape && fs.tree.state.live <= old(fs.tree.state).live
    ensures err == OpenError(old(fs.tree.state), path, memory, mountRet) && (dir != null <==> err == Opened)
    ensures dir == null ==> fs.others == old(fs.others)
    ensures dir != null ==>
              && fresh(dir) && dir.root == DirNode(old(fs.tree.state), path)
              && dir.next == FirstEntry(old(fs.tree.state), path) && dir.position == 0
    ensures dir != null ==> dir.root in Nodes(fs.tree.state.shape) && (dir.next != null ==> dir.StandsFrom(fs.tree.state.shape, dir.next))
    ensures dir != null ==>
              (fs.others == old(fs.others) + dir.Refs() <==> CountsRight(old(fs.tree.state), path))
    ensures dir != null && !CountsRight(old(fs.tree.state), path) ==>
              dir.next != null && dir.next != dir.root && fs.others == old(fs.others) + multiset{dir.next, dir.next}
  {
    hide FileSystem.Valid, DirNode, FirstChild, Nodes, Entries, Siblings;
    var inode := FindDir(fs, path);
    if inode == null {
      return null, NotDirectory;
    }
    if !memory {
      return null, OutOfMemory;
    }
    ghost var s := fs.tree.state;
    ChildStored(fs, inode);
    err := Opened;
    if path == "" || path == "/" {
      ListStart(fs, inode);
      dir := OpenPseudoDir(fs, inode, inode);
      assert fs.others == old(fs.others) + dir.Refs();
    } else if inode.nodeType == MountPoint {
      dir, err := OpenMountPoint(fs, inode, mountRet);
      assert dir != null ==> dir.Refs() == multiset{inode};
    } else {
      var child := inode.child;
      if child == null {
        return null, NotDirectory;
      }
      ListStart(fs, child);
      dir := OpenPseudoDir(fs, inode, child);
      assert fs.others[inode] != (old(fs.others) + dir.Refs())[inode];
    }
  }

  /** An example: in the tree /a/b opening /a succeeds with a at the root of the stream and
      b next, and counts b twice. */
  method OpenDirMiscounts(fs: FileSystem, a: Inode, b: Inode) returns (dir: DirStream?, err: DirError)
    requires fs.Valid() && fs.tree.state == SmallTree(a, b, multiset{}) && a != b && a.name == "a" && b.name == "b"
    modifies fs`others, fs.tree`state, fs.tree`heap, fs.tree.state.live`crefs
    ensures err == Opened && dir != null && dir.Refs() == multiset{a, b}
    ensures fs.others == old(fs.others) + multiset{b, b} != old(fs.others) + dir.Refs()
  {
    SmallDir(a, b);
    dir, err := OpenDir(fs, "/a", true, 0);
    assert (old(fs.others) + multiset{b, b})[a] != (old(fs.others) + dir.Refs())[a];
  }

  lemma SmallDir(a: Inode, b: Inode)
    requires a != b && a.name == "a" && b.name == "b"
    ensures var s := SmallTree(a, b, multiset{});
            && Wf(s) && !IsRootPath("/a") && DirNode(s, "/a") == a && a !in s.mounts && FirstChild(s.shape, a) == b
  {
    var s := SmallTree(a, b, multiset{});
    SmallTreeWf(a, b, multiset{});
    assert "/a"[1..] == "a";
    SearchIsMeaning(s.shape, s.mounts, "a");
    assert Nodes(s.shape) == {a, b};
  }

  /** The fields of an inode of the tree that opendir() looks at. */
  lemma ChildStored(fs: FileSystem, x: Inode)
    requires fs.Valid() && x in Nodes(fs.tree.state.shape) && x in fs.tree.state.live
    ensures var s := fs.tree.state;
            && (x.nodeType == MountPoint <==> x in s.mounts)
            && x.child == FirstChild(s.shape, x)
            && (x.child != null ==> x.child in Nodes(s.shape) && x.child != x)
  {
    hide Wf, Balanced, CountsStored, LinksStored, Tabled, Nodes;
    fs.tree.IsMounted(x);
    StoredLinks(fs.tree.state.live, fs.tree.state.links, x);
    ChildInTree(fs.tree.state, x);
  }

  /** Two references to the first entry: for the root of the stream and for the next one. */
  method OpenPseudoDir(fs: FileSystem, root: Inode, first: Inode) returns (dir: DirStream)
    requires fs.Valid() && first in Nodes(fs.tree.state.shape)
    modifies fs`others, fs.tree`state, fs.tree.state.live`crefs
    ensures fs.Valid() && fs.tree.state == Acquired(Acquired(old(fs.tree.state), first), first)
    ensures fs.tree.state.live == old(fs.tree.state).live
    ensures fs.others == old(fs.others) + multiset{first, first}
    ensures fresh(dir) && dir.root == root && dir.next == first && dir.position == 0
  {
    hide Wf, Balanced, CountsStored, LinksStored, Tabled, Nodes;
    fs.AddRef(first);
    fs.AddRef(first);
    dir := new DirStream(root, first);
  }

  /** One reference to the mount point, returned if the file system cannot open it. */
  method OpenMountPoint(fs: FileSystem, inode: Inode, mountRet: int) returns (dir: DirStream?, err: DirError)
    requires fs.Valid() && inode in Nodes(fs.tree.state.shape)
    modifies fs`others, fs.tree`state, fs.tree`heap, fs.tree.state.live`crefs
    ensures fs.Valid() && fs.tree.state.shape == old(fs.tree.state).shape && fs.tree.state.mounts == old(fs.tree.state).mounts
    ensures fs.tree.state.live <= old(fs.tree.state).live
    ensures (dir != null <==> mountRet >= 0) && err == if mountRet < 0 then MountError(-mountRet) else Opened
    ensures dir == null ==> fs.others == old(fs.others)
    ensures dir != null ==> && fs.others == old(fs.others) + multiset{inode}
                            && fresh(dir) && dir.root == inode && dir.next == null && dir.position == 0
  {
    hide Wf, Balanced, CountsStored, LinksStored, Tabled, Nodes, Released;
    ghost var s := fs.tree.state;
    fs.AddRef(inode);
    if mountRet < 0 {
      AcquireRelease(s, inode);
      fs.Release(inode);
      assert fs.others == old(fs.others);
      return null, MountError(-mountRet);
    }
    dir := new DirStream(inode, null);
    err := Opened;
  }

  lemma {:induction false} ChildLink(t: Forest, x: Inode)
    requires Distinct(t) && x in Nodes(t) && Links(t, x).0 != null
    ensures Links(t, x).0 in Nodes(t) && Links(t, x).0 != x
  {
    if x == t.inode {
    } else if x in Nodes(t.child) {
      ChildLink(t.child, x);
    } else {
      ChildLink(t.peer, x);
    }
  }

  lemma ChildInTree(s: State, x: Inode)
    requires Wf(s) && x in Nodes(s.shape) && x in s.links
    ensures s.links[x].0 == FirstChild(s.shape, x)
    ensures s.links[x].0 != null ==> s.links[x].0 in Nodes(s.shape) && s.links[x].0 != x
  {
    if s.links[x].0 != null { ChildLink(s.shape, x); }
  }

  /** Takes a reference, unless there is no inode. */
  method Hold(fs: FileSystem, node: Inode?)
    requires fs.Valid() && (node != null ==> node in Nodes(fs.tree.state.shape) || node in fs.tree.state.held)
    modifies fs`others, fs.tree`state, fs.tree.state.live`crefs
    ensures fs.Valid() && fs.others == old(fs.others) + RefOf(node)
    ensures fs.tree.state.shape == old(fs.tree.state).shape && fs.tree.state.live == old(fs.tree.state).live
  {
    hide FileSystem.Valid, Nodes;
    if node != null {
      fs.AddRef(node);
    } else {
      assert fs.others == old(fs.others) + multiset{};
    }
  }

  /** Returns a reference, unless there is no inode. */
  method Drop(fs: FileSystem, node: Inode?, ghost rest: multiset<Inode>)
    requires fs.Valid() && fs.others == RefOf(node) + rest
    modifies fs`others, fs.tree`state, fs.tree`heap, fs.tree.state.live`crefs
    ensures fs.Valid() && fs.others == rest
    ensures fs.tree.state.shape == old(fs.tree.state).shape && fs.tree.state.live <= old(fs.tree.state).live
  {
    hide FileSystem.Valid, Released;
    if node != null {
      ReleasedShape(fs.tree.state, node);
      assert RefOf(node) + rest - multiset{node} == rest;
      fs.Release(node);
    } else {
      assert RefOf(node) + rest == rest;
    }
  }

  lemma ReleasedShape(s: State, n: Inode)
    ensures Released(s, n).shape == s.shape
  {}

  lemma Regroup(prev: multiset<Inode>, curr: multiset<Inode>, rest: multiset<Inode>)
    ensures prev + rest + curr == prev + (curr + rest)
  {}

  /** Replaces the next entry of a stream, moving its reference along. */
  method MoveTo(fs: FileSystem, dir: DirStream, curr: Inode?, position: int, ghost rest: multiset<Inode>)
    requires fs.Valid() && fs.others == RefOf(dir.next) + rest
    requires curr != null ==> curr in Nodes(fs.tree.state.shape) || curr in fs.tree.state.held
    modifies dir, fs`others, fs.tree`state, fs.tree`heap, fs.tree.state.live`crefs
    ensures fs.Valid() && fs.others == RefOf(dir.next) + rest
    ensures dir.root == old(dir.root) && dir.next == curr && dir.position == position
    ensures fs.tree.state.shape == old(fs.tree.state).shape
  {
    hide FileSystem.Valid, Nodes, RefOf;
    Regroup(RefOf(dir.next), RefOf(curr), rest);
    var prev := dir.next;
    dir.next, dir.position := curr, position;
    Hold(fs, curr);
    Drop(fs, prev, RefOf(curr) + rest);
  }

  /** readdir() of the pseudo file system: the next entry and its reference move on. */
  method ReadDir(fs: FileSystem, dir: DirStream, ghost first: Inode, ghost rest: multiset<Inode>) returns (entry: Inode?)
    requires fs.Valid() && fs.others == RefOf(dir.next) + rest
    modifies dir, fs`others, fs.tree`state, fs.tree`heap, fs.tree.state.live`crefs
    ensures fs.Valid() && fs.others == RefOf(dir.next) + rest && dir.root == old(dir.root)
    ensures fs.tree.state.shape == old(fs.tree.state).shape
    ensures entry == old(dir.next)
    ensures dir.position == if entry == null then old(dir.position) else old(dir.position) + 1
    ensures old(dir.StandsFrom(fs.tree.state.shape, first)) ==> dir.StandsFrom(fs.tree.state.shape, first)
  {
    hide Wf, Balanced, CountsStored, LinksStored, Tabled, Released, Nodes, Entries, Siblings;
    entry := dir.next;
    if entry == null {
      return;
    }
    ghost var s := fs.tree.state;
    NextIsHeld(fs, dir, rest);
    PeerInTree(s, entry);
    assert entry.peer == s.links[entry].1 by { StoredLinks(s.live, s.links, entry); }
    if dir.StandsFrom(s.shape, first) { StandNext(s, first, dir.position); }
    MoveTo(fs, dir, entry.peer, dir.position + 1, rest);
  }

  lemma NextIsHeld(fs: FileSystem, dir: DirStream, rest: multiset<Inode>)
    requires fs.Valid() && fs.others == RefOf(dir.next) + rest
    ensures Clean(fs.tree.state)
    ensures dir.next != null ==> dir.next in fs.tree.state.held && dir.next in fs.tree.state.live
  {
    hide Wf, CountsStored, LinksStored, Tabled, TableRefs;
  }

  /** In a list, the peer pointer of entry `i` is entry `i + 1`. */
  lemma {:induction false} StandNext(s: State, root: Inode, i: nat)
    requires Wf(s) && root in Nodes(s.shape) && i < |Entries(s.shape, root)|
    ensures var list := Entries(s.shape, root);
            && list[i] in Nodes(s.shape) && list[i] in s.links && Entries(s.shape, list[i]) == list[i..]
            && s.links[list[i]].1 == if i + 1 < |list| then list[i + 1] else null
  {
    hide Entries, Siblings, Nodes, Links, OrphansIntact, NoLeak, Sorted, MountsChildless;
    var list := Entries(s.shape, root);
    if i == 0 {
      EntriesNext(s.shape, root);
      assert list[0..] == list;
    } else {
      StandNext(s, root, i - 1);
      EntriesNext(s.shape, list[i - 1]);
      assert list[i - 1..][1..] == list[i..];
    }
    EntriesNext(s.shape, list[i]);
    var next := s.links[list[i]].1;
    if next != null {
      EntriesNext(s.shape, next);
      assert list[i..][1..][0] == list[i + 1];
    }
  }

  /** Where a seek to `offset` ends in a list of `n` entries. */
  function SeekTarget(offset: int, n: nat): nat {
    if 0 <= offset <= n then offset else n
  }

  /** The entries from an inode on; none from the null pointer. */
  ghost function ListFrom(t: Forest, x: Inode?): seq<Inode> {
    if x == null then [] else if x in Nodes(t) then Entries(t, x) else [x]
  }

  lemma ListStep(s: State, x: Inode)
    requires Wf(s) && Clean(s) && (x in s.held || x in Nodes(s.shape))
    ensures x in s.live && x in s.links
    ensures var next := s.links[x].1;
            && |ListFrom(s.shape, x)| > 0 && ListFrom(s.shape, x)[0] == x
            && ListFrom(s.shape, next) == ListFrom(s.shape, x)[1..]
            && (next != null ==> next in Nodes(s.shape))
  {
    hide Entries, Siblings, Nodes, Links, OrphansIntact, NoLeak, Sorted, MountsChildless, Clean;
    PeerInTree(s, x);
    if x in Nodes(s.shape) { EntriesNext(s.shape, x); }
  }

  /** The peer pointer leads to the rest of the list. */
  lemma PeerFollows(fs: FileSystem, x: Inode)
    requires fs.Valid() && (x in Nodes(fs.tree.state.shape) || x in fs.tree.state.held)
    ensures var list := ListFrom(fs.tree.state.shape, x);
            && |list| > 0 && list[0] == x && ListFrom(fs.tree.state.shape, x.peer) == list[1..]
            && (x.peer != null ==> x.peer in Nodes(fs.tree.state.shape))
  {
    hide Wf, CountsStored, LinksStored, Tabled, Nodes, ListFrom, TableRefs, Clean;
    ListStep(fs.tree.state, x);
    StoredLinks(fs.tree.state.live, fs.tree.state.links, x);
  }

  lemma EmptyList(t: Forest)
    ensures ListFrom(t, null) == []
  {}

  /** Walks along the peers until the offset or the end is reached. */
  method Walk(fs: FileSystem, start: Inode?, from: int, offset: int) returns (curr: Inode?, pos: int)
    requires fs.Valid() && (start != null ==> start in Nodes(fs.tree.state.shape) || start in fs.tree.state.held)
    ensures var list := ListFrom(fs.tree.state.shape, start);
            && pos == from + SeekTarget(offset - from, |list|)
            && curr == if pos - from < |list| then list[pos - from] else null
    ensures curr != null ==> curr in Nodes(fs.tree.state.shape) || curr in fs.tree.state.held
  {
    hide FileSystem.Valid, Nodes, ListFrom;
    curr, pos := start, from;
    ghost var s := fs.tree.state;
    ghost var list := ListFrom(s.shape, start);
    EmptyList(s.shape);
    while curr != null && pos != offset
      invariant curr != null ==> curr in Nodes(s.shape) || curr in s.held
      invariant from <= pos <= from + |list| && ListFrom(s.shape, curr) == list[pos - from..]
      invariant from <= offset ==> pos <= offset
      decreases |list| - (pos - from)
    {
      PeerFollows(fs, curr);
      assert list[pos - from..][1..] == list[pos + 1 - from..];
      pos, curr := pos + 1, curr.peer;
    }
    if curr != null {
      PeerFollows(fs, curr);
    }
  }

  /** seekdir(): from the current position if the target is not behind it, else from the
      root of the stream.  In an unchanging list the stream then stands at the target,
      whichever way it came, provided that its list starts at its root. */
  method SeekDir(fs: FileSystem, dir: DirStream, offset: int, ghost first: Inode, ghost rest: multiset<Inode>)
    requires fs.Valid() && fs.others == RefOf(dir.next) + rest && dir.Rooted(fs.tree.state)
    modifies dir, fs`others, fs.tree`state, fs.tree`heap, fs.tree.state.live`crefs
    ensures fs.Valid() && fs.others == RefOf(dir.next) + rest && dir.root == old(dir.root)
    ensures fs.tree.state.shape == old(fs.tree.state).shape
    ensures var t := fs.tree.state.shape;
            old(dir.StandsFrom(fs.tree.state.shape, first)) && (offset < old(dir.position) ==> dir.root in Nodes(t)) ==>
              var start := if offset < old(dir.position) then dir.root else first;
              dir.StandsFrom(t, start) && dir.position == SeekTarget(offset, |Entries(t, start)|)
  {
    hide FileSystem.Valid, Nodes, Entries, Siblings, RefOf, ListFrom;
    ghost var t := fs.tree.state.shape;
    ghost var steady := dir.StandsFrom(t, first) && (offset < dir.position ==> dir.root in Nodes(t));
    ghost var start := if offset < dir.position then dir.root else first;
    NextIsHeld(fs, dir, rest);
    if steady {
      StandList(fs, dir, first);
      RootList(fs, start);
    }
    var pos, curr := dir.position, dir.next;
    if offset < dir.position {
      pos, curr := 0, dir.root;
    }
    curr, pos := Walk(fs, curr, pos, offset);
    assert steady ==> pos == SeekTarget(offset, |Entries(t, start)|)
                      && curr == if pos < |Entries(t, start)| then Entries(t, start)[pos] else null;
    MoveTo(fs, dir, curr, pos, rest);
  }

  lemma RootList(fs: FileSystem, x: Inode)
    requires fs.Valid() && x in Nodes(fs.tree.state.shape)
    ensures ListFrom(fs.tree.state.shape, x) == Entries(fs.tree.state.shape, x)
  {
    hide FileSystem.Valid, Nodes, Entries;
  }

  lemma ListStart(fs: FileSystem, x: Inode)
    requires fs.Valid() && x in Nodes(fs.tree.state.shape)
    ensures |Entries(fs.tree.state.shape, x)| > 0 && Entries(fs.tree.state.shape, x)[0] == x
  {
    hide Balanced, CountsStored, LinksStored, Tabled, Nodes, Entries, OrphansIntact, NoLeak;
    EntriesNext(fs.tree.state.shape, x);
  }

  /** The entries from a stream's next entry on are a suffix of its list. */
  lemma StandList(fs: FileSystem, dir: DirStream, first: Inode)
    requires fs.Valid() && dir.StandsFrom(fs.tree.state.shape, first)
    ensures var t := fs.tree.state.shape; ListFrom(t, dir.next) == Entries(t, first)[dir.position..]
  {
    hide Wf, Balanced, CountsStored, LinksStored, Tabled, Nodes, Entries;
    if dir.next != null { StandNext(fs.tree.state, first, dir.position); }
  }

  /** rewinddir(): back to the root of the stream, also if its list starts elsewhere. */
  method RewindDir(fs: FileSystem, dir: DirStream, ghost rest: multiset<Inode>)
    requires fs.Valid() && fs.others == RefOf(dir.next) + rest && dir.Rooted(fs.tree.state)
    modifies dir, fs`others, fs.tree`state, fs.tree`heap, fs.tree.state.live`crefs
    ensures fs.Valid() && fs.others == RefOf(dir.next) + rest && fs.tree.state.shape == old(fs.tree.state).shape
    ensures dir.root == old(dir.root) && dir.next == dir.root && dir.position == 0
    ensures dir.root in Nodes(fs.tree.state.shape) ==> dir.StandsFrom(fs.tree.state.shape, dir.root)
  {
    hide FileSystem.Valid, Nodes, Entries, Siblings, RefOf;
    if dir.root in Nodes(fs.tree.state.shape) { ListStart(fs, dir.root); }
    MoveTo(fs, dir, dir.root, 0, rest);
  }

  /** closedir(): the references to the next entry and to the root are returned.  If the one
      to the root was never taken, nothing happens when nobody holds it, and otherwise
      somebody else's reference is taken away: counts stay right if and only if not. */
  method CloseDir(fs: FileSystem, dir: DirStream, ghost rest: multiset<Inode>)
    requires fs.Valid() && fs.others == RefOf(dir.next) + rest
    requires dir.root != null && (dir.root in Nodes(fs.tree.state.shape) || dir.root in rest)
    modifies fs`others, fs.tree`state, fs.tree`heap, fs.tree.state.live`crefs
    ensures fs.tree.Valid() && fs.others == rest - multiset{dir.root}
    ensures fs.Valid() <==> dir.root in rest || dir.root !in TableRefs(fs.tables)
  {
    hide FileSystem.Valid, InodeTree.Valid, RefOf, Nodes, TableRefs;
    Drop(fs, dir.next, rest);
    ReleaseRoot(fs, dir.root);
  }

  /** Returns a reference that may never have been taken. */
  method ReleaseRoot(fs: FileSystem, n: Inode)
    requires fs.Valid() && (n in Nodes(fs.tree.state.shape) || n in fs.others)
    modifies fs`others, fs.tree`state, fs.tree`heap, fs.tree.state.live`crefs
    ensures fs.tree.Valid() && fs.others == old(fs.others) - multiset{n}
    ensures fs.Valid() <==> n in old(fs.others) || n !in TableRefs(fs.tables)
  {
    hide InodeTree.Valid, Balanced, Tabled, Released, Nodes, TableRefs;
    ReleaseEffect(fs, n);
    fs.tree.InodeRelease(n);
    fs.others := fs.others - multiset{n};
  }

  lemma ReleaseEffect(fs: FileSystem, n: Inode)
    requires fs.Valid() && (n in Nodes(fs.tree.state.shape) || n in fs.others)
    ensures n in fs.tree.state.live
    ensures Balanced(Released(fs.tree.state, n), fs.tables, fs.others - multiset{n}) <==>
              n in fs.others || n !in TableRefs(fs.tables)
  {
    hide Wf, Balanced, CountsStored, LinksStored, Tabled, Released, Nodes, TableRefs;
    if n in fs.others {
      BalancedRelease(fs.tree.state, fs.tables, fs.others, n);
      HolderIsLive(fs, n);
    } else {
      NotCounted(fs, n);
      assert fs.others - multiset{n} == fs.others;
    }
  }

  lemma HolderIsLive(fs: FileSystem, n: Inode)
    requires fs.Valid() && n in fs.others
    ensures n in fs.tree.state.live
  {
    hide Wf, CountsStored, LinksStored, Tabled, TableRefs;
  }

  /** Releasing a reference that was never taken. */
  lemma NotCounted(fs: FileSystem, n: Inode)
    requires fs.Valid() && n !in fs.others && n in Nodes(fs.tree.state.shape)
    ensures n in fs.tree.state.live
    ensures Balanced(Released(fs.tree.state, n), fs.tables, fs.others) <==> n !in TableRefs(fs.tables)
  {
    hide CountsStored, LinksStored, Tabled, TableRefs, Clean, Shaped, Nodes;
    WfShaped(fs.tree.state);
    var s := fs.tree.state;
    if n in TableRefs(fs.tables) {
      assert Released(s, n).held[n] == s.held[n] - 1;
    } else {
      assert n !in s.orphans by { if n in s.orphans { OrphansAreHeld(s, n); } }
      assert s.held - multiset{n} == s.held;
    }
  }

  /** Opening a directory and closing it again leaves the references as they were if and only
      if the path is the root or denotes a mount point. */
  method OpenAndClose(fs: FileSystem, path: string, memory: bool, mountRet: int) returns (err: DirError)
    requires fs.Valid()
    modifies fs`others, fs.tree`state, fs.tree`heap, fs.tree.state.live`crefs
    ensures fs.tree.Valid() && err == OpenError(old(fs.tree.state), path, memory, mountRet)
    ensures err == Opened ==>
              (fs.others == old(fs.others) <==> CountsRight(old(fs.tree.state), path))
  {
    hide FileSystem.Valid, InodeTree.Valid, OpenError, DirNode, FirstEntry, Nodes, RefOf, TableRefs, CountsRight, DirStream.StandsFrom;
    var dir;
    dir, err := OpenDir(fs, path, memory, mountRet);
    if dir != null {
      ghost var rest := fs.others - RefOf(dir.next);
      OpenCloseRefs(old(fs.others), fs.others, dir.root, dir.next, CountsRight(old(fs.tree.state), path));
      CloseDir(fs, dir, rest);
    } else {
      assert fs.tree.Valid() by { TreeValid(fs); }
    }
  }

  lemma OpenCloseRefs(before: multiset<Inode>, during: multiset<Inode>, root: Inode, next: Inode?, fits: bool)
    requires fits ==> during == before + (RefOf(root) + RefOf(next))
    requires !fits ==> next != null && next != root && during == before + multiset{next, next}
    ensures during == RefOf(next) + (during - RefOf(next))
    ensures during - RefOf(next) - multiset{root} == before <==> fits
  {
    var rest := during - RefOf(next);
    if fits {
      assert rest == before + multiset{root};
    } else {
      assert (rest - multiset{root})[next] == before[next] + 1;
    }
  }

  lemma TreeValid(fs: FileSystem)
    requires fs.Valid()
    ensures fs.tree.Valid()
  {}
}
