/** The inode tree on the heap: search, insertion, removal and reference counts.

    The ghost field `state` is the value that the linked inodes represent; every method is
    proved against the function of `TreeStates` that says what it does to this value.
    `heap` is the set of inodes the allocator has handed out and not taken back. */
module InodeTrees {
  import opened Names
  import opened Forests
  import opened Placing
  import opened Cutting
  import opened TreeStates

  datatype RemoveStatus = Done | EBusy | EInval | ENoEnt

  ghost predicate LinksStored(live: set<Inode>, links: Pointers)
    reads live`child, live`peer
  {
    live <= links.Keys && forall x | x in live :: (x.child, x.peer) == links[x]
  }

  ghost predicate CountsStored(live: set<Inode>, held: multiset<Inode>, deleted: set<Inode>, mounts: set<Inode>)
    reads live`crefs, live`deleted, live`nodeType
  {
    forall x | x in live ::
      x.crefs == held[x] && (x.deleted <==> x in deleted) && (x.nodeType == MountPoint <==> x in mounts)
  }

  class InodeTree {
    var root: Inode?
    ghost var state: State
    ghost var heap: set<Inode>

    /** The fields of every allocated inode hold what the state says. */
    ghost predicate Mirrors()
      reads this, state.live
    {
      && root == Head(state.shape)
      && LinksStored(state.live, state.links)
      && CountsStored(state.live, state.held, state.orphans.Keys, state.mounts)
    }

    ghost predicate Valid()
      reads this, state.live
    {
      Mirrors() && Wf(state) && heap == state.live
    }

    constructor ()
      ensures Valid() && state == Empty
    {
      root := null;
      state, heap := Empty, {};
      EmptyWf();
    }

    // -------------------------------------------------------------- search

    /** The pointers followed from a node of a sublist lead to the parts of the sublist. */
    lemma Follow(t: Forest)
      requires Mirrors() && t.Node? && Distinct(t) && Agrees(t, state.links) && Nodes(t) <= state.live
      ensures t.inode.child == Head(t.child) && t.inode.peer == Head(t.peer)
      ensures Agrees(t.child, state.links) && Agrees(t.peer, state.links)
    {
      assert t.inode in Nodes(t);
      forall x | x in Nodes(t.child) ensures x in state.links && state.links[x] == Links(t.child, x) {
        assert x in Nodes(t);
      }
      forall x | x in Nodes(t.peer) ensures x in state.links && state.links[x] == Links(t.peer, x) {
        assert x in Nodes(t);
      }
    }

    /** Search of the tree is lookup in the view; `left` and `above` are the neighbours of
        the place where it ended. */
    method InodeSearch(path: string) returns (node: Inode?, left: Inode?, above: Inode?, rest: string)
      requires Valid() && path != ""
      ensures SearchResult(node, left, above, rest) == Search(state.shape, state.mounts, null, null, path[1..])
      ensures Meaning(View(state), state.mounts, path[1..]) == if node == null then Nothing else Denotes(node, rest)
      ensures node != null ==> IsRest(path[1..], rest)
    {
      hide Links, Paths, Resolve, Meaning, Segments, AfterSegments, Before, SegmentLength, Sorted, MountsChildless,
           OrphansIntact, NoLeak, Agrees;
      rest, node, left, above := path[1..], root, null, null;
      SearchIsMeaning(state.shape, state.mounts, path[1..]);
      ghost var t := state.shape;
      while node != null
        invariant node == Head(t) && Agrees(t, state.links) && Distinct(t) && Nodes(t) <= heap
        invariant Search(t, state.mounts, left, above, rest) == Search(state.shape, state.mounts, null, null, path[1..])
        decreases t
      {
        assert node in heap;
        Follow(t);
        var result := InodeCompare(rest, node.name);
        BeforeTotal(FirstSegment(rest), node.name);
        if result < 0 {
          node := null;
          return;
        } else if result > 0 {
          left, node, t := node, node.peer, t.peer;
        } else {
          rest := InodeNextName(rest);
          if rest == "" || node.nodeType == MountPoint {
            return;
          }
          above, left, node, t := node, null, node.child, t.child;
        }
      }
    }

    // -------------------------------------------------------------- insertion

    /** Links a new node in behind `peer`, or as first child of `parent`, or as root. */
    method InodeInsert(node: Inode, peer: Inode?, parent: Inode?)
      requires Mirrors() && node !in state.live && node.child == null
      requires peer != null ==> peer in state.live
      requires peer == null && parent != null ==> parent in state.live
      modifies `root, node`peer, state.live`peer, state.live`child
      ensures LinksStored(state.live + {node}, Relinked(state.links, SearchResult(null, peer, parent, ""), old(root), node))
      ensures root == if peer == null && parent == null then node else old(root)
    {
      if peer != null {
        node.peer := peer.peer;
        peer.peer := node;
      } else if parent != null {
        node.peer := parent.child;
        parent.child := node;
      } else {
        node.peer := root;
        root := node;
      }
    }

    /** Allocates a node for the segment at which a search missed and links it in. */
    method AddNode(seg: string, left: Inode?, above: Inode?, ghost name: string) returns (node: Inode)
      requires Valid() && MissesAt(state.shape, state.mounts, name, left, above, seg)
      modifies `root, `state, `heap, state.live`peer, state.live`child
      ensures Valid() && fresh(node) && node.name == seg && node !in state.mounts
      ensures node.ops == NoOperations && node.nodeType == Driver
      ensures state == Inserted(old(state), name, node)
      ensures state.live == old(state.live) + {node} && state.mounts == old(state.mounts) && node.child == null
    {
      hide Links, Segments, SegmentLength, Search, Place, Wf, Shaped, Relinked, Inserted, CountsStored, LinksStored;
      hide Nodes, Agrees, Distinct, Head;
      ghost var s := state;
      assert Shaped(s) && Nodes(s.shape) <= s.live by { WfShaped(s); }
      MissNeighbours(s, name);
      node := new Inode(seg);
      InodeInsert(node, left, above);
      InsertedWf(s, name, node);
      InsertedParts(s, name, node, left, above);
      state, heap := Inserted(s, name, node), heap + {node};
      NewCounts(s.live, s.held, s.orphans.Keys, s.mounts, node);
    }

    /** Adds the segments of `name` below the place where a search for `full` missed. */
    method GrowPath(left0: Inode?, above0: Inode?, name0: string, avail: nat, ghost full: string)
      returns (node: Inode?, ghost to: nat, ghost nodes: seq<Inode>)
      requires Valid() && Search(state.shape, state.mounts, null, null, full) == SearchResult(null, left0, above0, name0)
      modifies `root, `state, `heap, state.live`peer, state.live`child
      ensures Valid() && Growing(old(state), state, full, old(Existing(state.shape, full)), to)
      ensures AllAddable(old(state), full, nodes) && state == AllInserted(old(state), full, nodes)
      ensures forall n | n in nodes :: fresh(n) && n.ops == NoOperations && n.nodeType == Driver
      ensures node != null ==> node in nodes
      ensures fresh(state.live - old(state.live))
      ensures node == null ==> to == old(Existing(state.shape, full)) + avail < |Segments(full)|
      ensures node != null ==> && to == |Segments(full)| <= old(Existing(state.shape, full)) + avail
                               && Segments(full) in View(state) && View(state)[Segments(full)] == node
                               && fresh(node) && node.child == null && node !in state.mounts
    {
      hide Links, Segments, SegmentLength, Search, Place, Wf, Shaped, Inserted, CountsStored, LinksStored, Growing, Existing, Paths;
      hide AllAddable, AllInserted;
      ghost var s0, from := state, Existing(state.shape, full);
      assert Shaped(s0) by { WfShaped(s0); }
      GrowthStarts(s0, full);
      NothingInserted(s0, full);
      to, nodes := from, [];
      var left, above, name, memory := left0, above0, name0, avail;
      while memory > 0
        invariant Valid() && fresh(state.live - old(state.live))
        invariant Search(state.shape, state.mounts, null, null, full) == SearchResult(null, left, above, name)
        invariant Growing(s0, state, full, from, to) && to == from + avail - memory < |Segments(full)|
        invariant AllAddable(s0, full, nodes) && state == AllInserted(s0, full, nodes)
        invariant forall n | n in nodes :: fresh(n) && n.ops == NoOperations && n.nodeType == Driver
      {
        ghost var s := state;
        assert Shaped(s) by { WfShaped(s); }
        var next := InodeNextName(name);
        var n := AddNode(name[..SegmentLength(name)], left, above, full);
        GrowthStep(s0, s, full, from, to, n);
        InsertOneMore(s0, full, nodes, n);
        memory := memory - 1;
        to, nodes := to + 1, nodes + [n];
        if next == "" {
          assert Segments(full)[..to] == Segments(full);
          return n, to, nodes;
        }
        left, above, name := null, n, next;
      }
      node := null;
    }

    /** Creates all missing inodes of a path; `avail` is the number of allocations that
        succeed.  The path map gains the missing prefixes of the path, shortest first, as
        far as the memory goes.  The result is the leaf, if that was reached. */
    method InodeReserve(path: string, avail: nat) returns (node: Inode?, ghost from: nat, ghost to: nat, ghost nodes: seq<Inode>)
      requires Valid()
      modifies `root, `state, `heap, state.live`peer, state.live`child
      ensures Valid() && fresh(state.live - old(state.live))
      ensures forall n | n in nodes :: fresh(n) && n.ops == NoOperations && n.nodeType == Driver
      ensures node != null ==> node in nodes
      ensures !IsAbsolute(path) || old(Resolves(state, path[1..])) ==> node == null && nodes == [] && state == old(state)
      ensures IsAbsolute(path) && !old(Resolves(state, path[1..])) ==>
                && Growing(old(state), state, path[1..], from, to)
                && AllAddable(old(state), path[1..], nodes) && state == AllInserted(old(state), path[1..], nodes)
                && StartsMissing(old(state), path[1..], from) && from == Existing(old(state).shape, path[1..])
                && (node == null ==> to == from + avail < |Segments(path[1..])|)
                && (node != null ==> && to == |Segments(path[1..])| <= from + avail
                                     && Segments(path[1..]) in View(state)
                                     && View(state)[Segments(path[1..])] == node
                                     && fresh(node) && node.child == null && node in state.live && node !in state.mounts)
    {
      hide Links, Segments, SegmentLength, Search, Wf, CountsStored, LinksStored, Growing, Existing, Paths;
      hide AllAddable, AllInserted;
      from, to, node, nodes := 0, 0, null, [];
      if path == "" || path[0] != '/' {
        return;
      }
      var found, left, parent, name := InodeSearch(path);
      if found != null {
        return;
      }
      assert Shaped(state) by { WfShaped(state); }
      GrowthStarts(state, path[1..]);
      from := Existing(state.shape, path[1..]);
      node, to, nodes := GrowPath(left, parent, name, avail, path[1..]);
      if node != null { ViewIsLive(state, Segments(path[1..])); }
    }

    // -------------------------------------------------------------- removal

    /** Takes the node out of its sibling list. */
    method InodeUnlink(node: Inode, peer: Inode?, parent: Inode?)
      requires Mirrors() && node in state.live && peer != node && parent != node
      requires peer != null ==> peer in state.live
      requires peer == null && parent != null ==> parent in state.live
      modifies `root, state.live`peer, state.live`child
      ensures LinksStored(state.live, Unlinked(state.links, SearchResult(node, peer, parent, "")))
      ensures root == if peer == null && parent == null then state.links[node].1 else old(root)
    {
      if peer != null {
        peer.peer := node.peer;
      } else if parent != null {
        parent.child := node.peer;
      } else {
        root := node.peer;
      }
      node.peer := null;
    }

    /** Returns one inode to the allocator, which must own it. */
    method Kfree(node: Inode)
      requires node in heap
      modifies `heap
      ensures heap == old(heap) - {node}
    {
      heap := heap - {node};
    }

    /** Frees a sibling list with everything below it, each inode once. */
    method InodeFree(node: Inode?, ghost t: Forest)
      requires node == Head(t) && Distinct(t) && Nodes(t) <= heap
      requires forall x | x in Nodes(t) :: (x.child, x.peer) == Links(t, x)
      modifies `heap
      ensures heap == old(heap) - Nodes(t)
      decreases t
    {
      if node != null {
        assert node in heap && node in Nodes(t);
        forall x | x in Nodes(t.peer) ensures (x.child, x.peer) == Links(t.peer, x) {}
        forall x | x in Nodes(t.child) ensures (x.child, x.peer) == Links(t.child, x) {}
        InodeFree(node.peer, t.peer);
        InodeFree(node.child, t.child);
        Kfree(node);
      }
    }

    /** Frees an unlinked inode with everything below it. */
    method FreeSubtree(node: Inode, ghost live: set<Inode>, ghost links: Pointers, ghost f: Forest)
      requires node in live && node !in Nodes(f) && Nodes(f) <= live <= heap && Distinct(f) && Agrees(f, links)
      requires LinksStored(live, links) && node in links && links[node] == (Head(f), null)
      modifies `heap
      ensures heap == old(heap) - Nodes(f) - {node}
    {
      hide Nodes, Distinct, Agrees, LinksStored;
      StoredForest(live, links, node, f);
      InodeFree(node.child, f);
      Kfree(node);
    }

    /** Flags an unlinked inode, so that the last release frees it. */
    method MarkDeleted(node: Inode)
      requires CountsStored(state.live, state.held, state.orphans.Keys, state.mounts) && node in state.live
      modifies node`deleted
      ensures CountsStored(state.live, state.held, state.orphans.Keys + {node}, state.mounts)
    {
      node.deleted := true;
    }

    /** Removes the inode a path resolves to. */
    method InodeRemove(path: string) returns (status: RemoveStatus)
      requires Valid()
      modifies `root, `state, `heap, state.live`peer, state.live`child, state.live`deleted
      ensures Valid()
      ensures status == EInval <==> !IsAbsolute(path)
      ensures status == ENoEnt <==> IsAbsolute(path) && !old(Resolves(state, path[1..]))
      ensures status == EInval || status == ENoEnt ==> state == old(state)
      ensures IsAbsolute(path) && old(Resolves(state, path[1..])) ==>
                && state == Removed(old(state), path[1..])
                && status == if old(state).held[Target(old(state), path[1..])] > 0 then EBusy else Done
    {
      hide Links, Segments, SegmentLength, Search, Wf, Shaped, CountsStored, LinksStored, Paths, Meaning, Distinct, Nodes, Cut, CutOff, Removed, Unlinked;
      hide Agrees, View, IsRest;
      if path == "" || path[0] != '/' {
        return EInval;
      }
      var node, left, parent, rest := InodeSearch(path);
      if node == null {
        return ENoEnt;
      }
      ghost var s, name := state, path[1..];
      assert Shaped(s) && Nodes(s.shape) <= s.live by { WfShaped(s); }
      FoundNeighbours(s, name);
      RemovedWf(s, name);
      RemovedParts(s, name, node, left, parent);
      InodeUnlink(node, left, parent);
      assert node.crefs == s.held[node] by { CountOf(s, node); }
      if node.crefs != 0 {
        MarkDeleted(node);
        state := Removed(s, name);
        return EBusy;
      } else {
        FreeSubtree(node, s.live, Removed(s, name).links, CutOff(s.shape, s.mounts, name));
        state := Removed(s, name);
        Forget(s.live, state.live, state.links, s.held, s.orphans.Keys, s.mounts);
        return Done;
      }
    }

    // -------------------------------------------------------------- references

    /** Changes one reference count. */
    method SetCount(node: Inode, crefs: nat)
      requires CountsStored(state.live, state.held, state.orphans.Keys, state.mounts) && node in state.live
      modifies node`crefs
      ensures CountsStored(state.live, state.held[node := crefs], state.orphans.Keys, state.mounts) && node.crefs == crefs
    {
      node.crefs := crefs;
    }

    /** Adds a reference; the null pointer is ignored. */
    method InodeAddref(node: Inode?)
      requires Valid() && (node != null ==> node in state.live)
      modifies `state, state.live`crefs
      ensures Valid() && state == (if node == null then old(state) else Acquired(old(state), node)) && state.live == old(state).live
    {
      hide Wf, CountsStored, LinksStored;
      if node != null {
        ghost var s := state;
        assert node.crefs == s.held[node] by { CountOf(s, node); }
        SetCount(node, node.crefs + 1);
        AcquiredWf(s, node);
        state := Acquired(s, node);
        assert s.held[node := s.held[node] + 1] == state.held;
      }
    }

    /** Finds the inode of a path and takes a reference to it. */
    method InodeFind(path: string) returns (node: Inode?, relpath: string)
      requires Valid()
      modifies `state, state.live`crefs
      ensures Valid()
      ensures Denoted(old(state), path) == if node == null then Nothing else Denotes(node, relpath)
      ensures node != null ==> CutBehindSlash(path, relpath)
      ensures node == null ==> state == old(state)
      ensures node != null ==>
                && state == Acquired(old(state), node) && node in Nodes(old(state).shape) && node in old(state).live
                && state.live == old(state).live
    {
      hide Wf, CountsStored, LinksStored, Search, Meaning, Paths, Nodes;
      node, relpath := null, "";
      if path == "" || path[0] != '/' {
        return;
      }
      var left, above;
      node, left, above, relpath := InodeSearch(path);
      if node != null {
        assert Shaped(state) && Nodes(state.shape) <= state.live by { WfShaped(state); }
        FoundNeighbours(state, path[1..]);
        CutTransitive(path, path[1..], relpath);
        InodeAddref(node);
      }
    }

    /** Returns a reference; the null pointer is ignored.  The guard against a zero count
        is the one in the source.  The last reference to a removed inode frees it. */
    method InodeRelease(node: Inode?)
      requires Valid() && (node != null ==> node in state.live)
      modifies `state, `heap, state.live`crefs
      ensures Valid() && state == (if node == null then old(state) else Released(old(state), node)) && state.live <= old(state).live
      ensures node != null && old(state).held[node] > 0 ==> node.crefs == old(node.crefs) - 1
    {
      hide Wf, CountsStored, LinksStored, Nodes, Distinct, Agrees, Released;
      if node != null {
        ghost var s := state;
        assert node.crefs == s.held[node] && (node.deleted <==> node in s.orphans) by { CountOf(s, node); }
        if node.crefs != 0 {
          SetCount(node, node.crefs - 1);
        }
        ReleasedWf(s, node);
        ReleasedParts(s, node);
        state := Released(s, node);
        if node.crefs <= 0 && node.deleted {
          FreeSubtree(node, s.live, s.links, s.orphans[node]);
          ForgetDeleted(s.live, state.live, s.links, state.held, s.orphans.Keys, s.mounts, node);
        }
      }
    }

    /** Turns an inode without children into a mount point. */
    method SetMountPoint(node: Inode, ops: Operations)
      requires Valid() && node in Nodes(state.shape) && node in state.live && node.child == null
      modifies `state, node`nodeType, node`ops
      ensures Valid() && state == Mounted(old(state), node) && node.ops == ops && node.nodeType == MountPoint
    {
      hide Wf, LinksStored, Nodes;
      ghost var s := state;
      assert s.links[node].0 == null && node in s.links by { StoredLinks(s.live, s.links, node); }
      MountedWf(s, node);
      node.nodeType := MountPoint;
      node.ops := ops;
      state := Mounted(s, node);
    }

    lemma IsMounted(n: Inode)
      requires Mirrors() && n in state.live
      ensures n.nodeType == MountPoint <==> n in state.mounts
    {}

    lemma CountOf(s: State, n: Inode)
      requires CountsStored(s.live, s.held, s.orphans.Keys, s.mounts) && n in s.live
      ensures n.crefs == s.held[n] && (n.deleted <==> n in s.orphans)
    {}
  }

  lemma NothingInserted(s: State, name: string)
    ensures AllAddable(s, name, []) && AllInserted(s, name, []) == s
  {}

  lemma RemovedParts(s: State, name: string, n: Inode, left: Inode?, above: Inode?)
    requires Shaped(s) && Resolves(s, name)
    requires var r := Search(s.shape, s.mounts, null, null, name); r.node == n && r.left == left && r.above == above
    requires n in s.links
    requires left != null ==> left in s.links
    requires left == null && above != null ==> above in s.links
    ensures var s', f := Removed(s, name), CutOff(s.shape, s.mounts, name);
            && s'.held == s.held && s'.mounts == s.mounts
            && s'.links == Unlinked(s.links, SearchResult(n, left, above, ""))
            && Head(s'.shape) == (if left == null && above == null then s.links[n].1 else Head(s.shape))
            && n !in Nodes(f) && Nodes(f) <= s.live && Distinct(f) && s'.links[n] == (Head(f), null) && Agrees(f, s'.links)
            && (s.held[n] > 0 ==> s'.live == s.live && s'.orphans.Keys == s.orphans.Keys + {n})
            && (s.held[n] == 0 ==> s'.live == s.live - {n} - Nodes(f) && s'.orphans == s.orphans)
  {
    hide Links, Segments, SegmentLength, Search, Cut, CutOff, Nodes, Distinct, Sorted, MountsChildless;
    CutHead(s.shape, s.mounts, name);
    RemovedOrphan(s, name);
    CutNodes(s.shape, s.mounts, null, null, name);
  }

  /** A subtree whose stored pointers agree with a forest can be walked along the forest. */
  lemma StoredForest(live: set<Inode>, links: Pointers, n: Inode, f: Forest)
    requires LinksStored(live, links) && n in live && Nodes(f) <= live && Agrees(f, links)
    ensures (n.child, n.peer) == links[n]
    ensures forall x | x in Nodes(f) :: (x.child, x.peer) == Links(f, x)
  {}

  lemma StoredLinks(live: set<Inode>, links: Pointers, n: Inode)
    requires LinksStored(live, links) && n in live
    ensures n in links && links[n] == (n.child, n.peer)
  {}

  /** What is stored in some inodes is stored in fewer. */
  lemma Forget(live: set<Inode>, live': set<Inode>, links: Pointers,
               held: multiset<Inode>, deleted: set<Inode>, mounts: set<Inode>)
    requires CountsStored(live, held, deleted, mounts) && LinksStored(live, links) && live' <= live
    ensures CountsStored(live', held, deleted, mounts) && LinksStored(live', links)
  {}

  lemma ForgetDeleted(live: set<Inode>, live': set<Inode>, links: Pointers,
                      held: multiset<Inode>, deleted: set<Inode>, mounts: set<Inode>, n: Inode)
    requires CountsStored(live, held, deleted, mounts) && LinksStored(live, links) && live' <= live - {n}
    ensures CountsStored(live', held, deleted - {n}, mounts) && LinksStored(live', links)
  {}

  lemma ReleasedParts(s: State, n: Inode)
    requires Wf(s)
    ensures var s', c := Released(s, n), s.held[n];
            && s'.shape == s.shape && s'.links == s.links && s'.mounts == s.mounts
            && s'.held == (if c > 0 then s.held[n := c - 1] else s.held)
            && (n in s.orphans && c <= 1 ==>
                  var f := s.orphans[n];
                  && s'.orphans.Keys == s.orphans.Keys - {n} && s'.live == s.live - Nodes(f) - {n}
                  && Nodes(f) <= s.live && n !in Nodes(f) && Distinct(f)
                  && n in s.links && s.links[n] == (Head(f), null) && Agrees(f, s.links))
            && (n !in s.orphans || c > 1 ==> s'.orphans == s.orphans && s'.live == s.live)
  {
    hide Links, Nodes, Distinct, Agrees;
    assert s.held - multiset{n} == if s.held[n] > 0 then s.held[n := s.held[n] - 1] else s.held;
  }

  lemma NewCounts(live: set<Inode>, held: multiset<Inode>, deleted: set<Inode>, mounts: set<Inode>, n: Inode)
    requires CountsStored(live, held, deleted, mounts)
    requires n.crefs == held[n] == 0 && !n.deleted && n !in deleted && n.nodeType != MountPoint && n !in mounts
    ensures CountsStored(live + {n}, held, deleted, mounts)
  {}

  lemma InsertedParts(s: State, name: string, n: Inode, left: Inode?, above: Inode?)
    requires Shaped(s) && MissesAt(s.shape, s.mounts, name, left, above, n.name)
    requires left != null ==> left in s.links
    requires left == null && above != null ==> above in s.links
    ensures var s' := Inserted(s, name, n);
            && s'.live == s.live + {n} && s'.live <= s'.links.Keys
            && s'.held == s.held && s'.orphans == s.orphans && s'.mounts == s.mounts
            && s'.links == Relinked(s.links, SearchResult(null, left, above, ""), Head(s.shape), n)
            && Head(s'.shape) == if left == null && above == null then n else Head(s.shape)
  {
    MissInside(s.shape, s.mounts, null, null, name);
  }
}
