/** The state of the inode tree as a value, and what each operation does to it.

    `shape` is the tree, `mounts` its mount points, `orphans` maps every inode that was
    removed while referenced to the forest still below it, `live` is the set of inodes
    allocated and not yet freed, `held` the multiset of references handed out and not yet
    returned, and `links` the (child, peer) pointers stored in the inodes. */
module TreeStates {
  import opened Names
  import opened Forests
  import opened Placing
  import opened Cutting

  type Pointers = map<Inode, (Inode?, Inode?)>

  datatype State = State(shape: Forest, mounts: set<Inode>, orphans: map<Inode, Forest>,
                         live: set<Inode>, held: multiset<Inode>, links: Pointers)

  const Empty := State(Nil, {}, map[], {}, multiset{}, map[])

  /** The stored pointers of the nodes of `t` are those of the shape `t`. */
  predicate Agrees(t: Forest, links: Pointers) {
    forall x | x in Nodes(t) :: x in links && links[x] == Links(t, x)
  }

  /** The linked structure is a sorted tree whose mount points have no children. */
  predicate Shaped(s: State) {
    && Nodes(s.shape) <= s.live <= s.links.Keys
    && Distinct(s.shape) && Sorted(s.shape) && MountsChildless(s.shape, s.mounts)
    && Agrees(s.shape, s.links)
  }

  /** All inodes of a removed subtree. */
  function Piece(orphans: map<Inode, Forest>, o: Inode): set<Inode>
    requires o in orphans
  {
    {o} + Nodes(orphans[o])
  }

  /** The removed subtrees share no inode with each other or with the tree. */
  ghost predicate Apart(orphans: map<Inode, Forest>, shape: Forest) {
    && (forall o, x | o in orphans && x in Piece(orphans, o) :: x !in Nodes(shape))
    && (forall o, o', x | o in orphans && o' in orphans && x in Piece(orphans, o) && x in Piece(orphans, o') :: o == o')
  }

  /** `o` was unlinked from the tree and has the forest `f` below it. */
  predicate Orphan(o: Inode, f: Forest, links: Pointers) {
    && o in links && links[o] == (Head(f), null)
    && o !in Nodes(f) && Distinct(f) && Agrees(f, links)
  }

  /** Removed subtrees are intact, allocated and still referenced. */
  ghost predicate OrphansIntact(s: State) {
    && Apart(s.orphans, s.shape)
    && forall o | o in s.orphans ::
         Piece(s.orphans, o) <= s.live && s.held[o] > 0 && Orphan(o, s.orphans[o], s.links)
  }

  /** Nothing is leaked: what is allocated is in the tree or in a removed subtree. */
  ghost predicate NoLeak(s: State) {
    forall x | x in s.live && x !in Nodes(s.shape) :: exists o | o in s.orphans :: x in Piece(s.orphans, o)
  }

  ghost predicate Wf(s: State) {
    Shaped(s) && OrphansIntact(s) && NoLeak(s)
  }

  /** The abstract file system: which path names which inode. */
  function View(s: State): PathMap {
    Paths(s.shape, [])
  }

  lemma EmptyWf()
    ensures Wf(Empty)
  {}

  // ---------------------------------------------------------------- insertion

  /** The pointers after linking `n` in where a search missed. */
  function Relinked(links: Pointers, r: SearchResult, head: Inode?, n: Inode): Pointers
    requires r.left != null ==> r.left in links
    requires r.left == null && r.above != null ==> r.above in links
  {
    if r.left != null then links[r.left := (links[r.left].0, n)][n := (null, links[r.left].1)]
    else if r.above != null then links[r.above := (n, links[r.above].1)][n := (null, links[r.above].0)]
    else links[n := (null, head)]
  }

  /** Where a search missed, its neighbours are nodes of the tree. */
  lemma MissNeighbours(s: State, name: string)
    requires Shaped(s) && Misses(s.shape, s.mounts, name)
    ensures var r := Search(s.shape, s.mounts, null, null, name);
            && (r.left != null ==> r.left in Nodes(s.shape) && r.left in s.links)
            && (r.left == null && r.above != null ==> r.above in Nodes(s.shape) && r.above in s.links)
  {
    MissInside(s.shape, s.mounts, null, null, name);
  }

  ghost function Inserted(s: State, name: string, n: Inode): State
    requires Shaped(s) && Misses(s.shape, s.mounts, name)
  {
    MissNeighbours(s, name);
    var r := Search(s.shape, s.mounts, null, null, name);
    s.(shape := Place(s.shape, name, n), live := s.live + {n},
       links := Relinked(s.links, r, Head(s.shape), n))
  }

  lemma InsertedAgrees(s: State, name: string, n: Inode)
    requires Shaped(s) && Misses(s.shape, s.mounts, name) && n !in s.live
    ensures Agrees(Place(s.shape, name, n), Inserted(s, name, n).links)
  {
    hide Links, Search, Place, Before, SegmentLength, Distinct, Sorted, MountsChildless, Nodes;
    var t := s.shape;
    MissNeighbours(s, name);
    MissInside(t, s.mounts, null, null, name);
    PlaceNodes(t, name, n);
    var r := Search(t, s.mounts, null, null, name);
    var links' := Relinked(s.links, r, Head(t), n);
    forall x | x in Nodes(Place(t, name, n)) ensures x in links' && links'[x] == Links(Place(t, name, n), x) {
      if x == n {
        PlaceNewLinks(t, s.mounts, null, null, name, n);
      } else {
        PlaceLinks(t, s.mounts, null, null, name, n, x);
      }
    }
  }

  lemma InsertedWf(s: State, name: string, n: Inode)
    requires Wf(s) && Misses(s.shape, s.mounts, name) && n !in s.live
    requires n.name == FirstSegment(Search(s.shape, s.mounts, null, null, name).rest)
    ensures Wf(Inserted(s, name, n))
  {
    hide Links, Search, Place, Before, SegmentLength, Distinct, Sorted, MountsChildless, Nodes, Agrees, Apart, Orphan;
    var t := s.shape;
    MissNeighbours(s, name);
    PlaceNodes(t, name, n);
    PlaceDistinct(t, name, n);
    PlaceSorted(t, s.mounts, null, null, name, n);
    PlaceMounts(t, s.mounts, null, null, name, n);
    InsertedAgrees(s, name, n);
    InsertedOrphans(s, name, n);
  }

  lemma InsertedOrphans(s: State, name: string, n: Inode)
    requires Wf(s) && Misses(s.shape, s.mounts, name) && n !in s.live
    ensures OrphansIntact(Inserted(s, name, n))
  {
    hide Links, Search, Place, Before, SegmentLength, Distinct, Sorted, MountsChildless, Nodes;
    MissNeighbours(s, name);
    PlaceNodes(s.shape, name, n);
    KeepsOrphans(s, Inserted(s, name, n));
  }

  /** Removed subtrees do not notice changes elsewhere. */
  lemma KeepsOrphans(s: State, s': State)
    requires OrphansIntact(s) && s'.orphans == s.orphans
    requires forall o | o in s.orphans :: s'.held[o] > 0
    requires forall o, x | o in s.orphans && x in Piece(s.orphans, o) ::
               x in s.links && x in s'.links && s'.links[x] == s.links[x] && x in s'.live && x !in Nodes(s'.shape)
    ensures OrphansIntact(s')
  {
    hide Nodes, Links, Distinct;
    forall o | o in s.orphans ensures Piece(s.orphans, o) <= s'.live && Orphan(o, s.orphans[o], s'.links) {
      assert o in Piece(s.orphans, o);
      forall x | x in Nodes(s.orphans[o])
        ensures x in s'.links && s'.links[x] == Links(s.orphans[o], x)
      {
        assert x in Piece(s.orphans, o);
      }
    }
  }

  /** `s` is `s0` after the segments `from` to `to` of the path `full` have been added. */
  predicate Growing(s0: State, s: State, full: string, from: nat, to: nat) {
    && s.held == s0.held && s.orphans == s0.orphans && s.mounts == s0.mounts && s0.live <= s.live
    && to == Existing(s.shape, full)
    && Grown(View(s0), View(s), Segments(full), from, to)
    && (forall p | p in View(s) && p !in View(s0) :: View(s)[p] !in s.mounts)
  }

  /** `n` is a new inode for the first missing segment of the path. */
  ghost predicate Addable(s: State, name: string, n: Inode) {
    && Shaped(s) && Misses(s.shape, s.mounts, name) && n !in s.live && n !in s.mounts
    && n.name == FirstSegment(Search(s.shape, s.mounts, null, null, name).rest)
  }

  /** The inodes can be added one after the other. */
  ghost predicate AllAddable(s: State, name: string, nodes: seq<Inode>)
    decreases |nodes|, 0
  {
    nodes == [] ||
    (AllAddable(s, name, nodes[..|nodes| - 1]) && Addable(AllInserted(s, name, nodes[..|nodes| - 1]), name, nodes[|nodes| - 1]))
  }

  ghost function AllInserted(s: State, name: string, nodes: seq<Inode>): State
    requires AllAddable(s, name, nodes)
    decreases |nodes|, 1
  {
    if nodes == [] then s else Inserted(AllInserted(s, name, nodes[..|nodes| - 1]), name, nodes[|nodes| - 1])
  }

  lemma InsertOneMore(s: State, name: string, nodes: seq<Inode>, n: Inode)
    requires AllAddable(s, name, nodes) && Addable(AllInserted(s, name, nodes), name, n)
    ensures AllAddable(s, name, nodes + [n])
    ensures AllInserted(s, name, nodes + [n]) == Inserted(AllInserted(s, name, nodes), name, n)
  {
    hide Addable, Inserted;
    var more := nodes + [n];
    assert more[..|more| - 1] == nodes;
  }

  predicate IsAbsolute(path: string) {
    path != "" && path[0] == '/'
  }

  /** What a path denotes to the callers of the file system: relative ones denote nothing. */
  function Denoted(s: State, path: string): Denotation {
    if IsAbsolute(path) then Meaning(View(s), s.mounts, path[1..]) else Nothing
  }

  /** The first `from` segments of the path exist, and one more does not. */
  predicate StartsMissing(s: State, full: string, from: nat) {
    && from < |Segments(full)| && Segments(full)[..from + 1] !in View(s)
    && (from > 0 ==> Segments(full)[..from] in View(s))
  }

  lemma ViewIsLive(s: State, p: seq<string>)
    requires Wf(s) && p in View(s)
    ensures View(s)[p] in Nodes(s.shape) && View(s)[p] in s.live
  {
    PathsExtend(s.shape, [], p);
  }

  /** At the first missing segment, what exists of the path names the inode above it. */
  lemma GrowthStarts(s: State, full: string)
    requires Shaped(s) && Misses(s.shape, s.mounts, full)
    ensures var from := Existing(s.shape, full);
            && from < |Segments(full)| && Growing(s, s, full, from, from)
            && Segments(full)[..from + 1] !in View(s)
            && var above := Search(s.shape, s.mounts, null, null, full).above;
            && (from == 0 ==> above == null)
            && (from > 0 ==> Segments(full)[..from] in View(s) && View(s)[Segments(full)[..from]] == above)
  {
    hide Paths, Search, Segments, SegmentLength, Before, MissedPath, Existing, Sorted, Distinct, MountsChildless;
    var from := Existing(s.shape, full);
    MissedPathIs(s.shape, s.mounts, null, null, full, []);
    assert [] + Segments(full) == Segments(full);
    ExistingPath(s.shape, s.mounts, null, null, full, []);
    assert MissedPath(s.shape, full, [])[..from] == Segments(full)[..from];
    MissedPathIsNew(s.shape, s.mounts, null, null, full, []);
    GrownStart(View(s), Segments(full), from);
  }

  /** Inserting at the miss adds one segment; the next search stops below the new inode,
      or finds it if it was the last. */
  lemma GrowthStep(s0: State, s: State, full: string, from: nat, to: nat, n: Inode)
    requires Shaped(s) && Misses(s.shape, s.mounts, full) && n !in s.mounts
    requires n.name == FirstSegment(Search(s.shape, s.mounts, null, null, full).rest)
    requires Growing(s0, s, full, from, to)
    ensures to < |Segments(full)| && Growing(s0, Inserted(s, full, n), full, from, to + 1)
    ensures var v, rest := View(Inserted(s, full, n)), Search(s.shape, s.mounts, null, null, full).rest;
            && Segments(full)[..to + 1] in v && v[Segments(full)[..to + 1]] == n
            && (NextName(rest) == "" <==> to + 1 == |Segments(full)|)
            && (NextName(rest) != "" ==>
                  Search(Inserted(s, full, n).shape, s.mounts, null, null, full) == SearchResult(null, null, n, NextName(rest)))
    ensures Inserted(s, full, n).links[n].0 == null
  {
    hide Paths, Search, Segments, SegmentLength, Before, MissedPath, Existing, Sorted, Distinct, MountsChildless, Place, Grown;
    MissNeighbours(s, full);
    PlaceGrows(s.shape, s.mounts, full, n, View(s0), from);
    PlaceSearch(s.shape, s.mounts, null, null, full, n);
    ExistingDepth(s.shape, s.mounts, null, null, full);
    LastSegment(full, to);
    PlacePaths(s.shape, s.mounts, null, null, full, n, []);
    var v, v' := View(s), View(Inserted(s, full, n));
    forall p | p in v' && p !in View(s0) ensures v'[p] !in s.mounts {
      if v'[p] != n { assert p in v && v[p] == v'[p]; }
    }
  }

  /** After a complete reservation the path denotes the new leaf, with nothing left over. */
  lemma ReservedResolves(s0: State, s: State, full: string, from: nat)
    requires Wf(s0) && !Resolves(s0, full) && Growing(s0, s, full, from, |Segments(full)|)
    requires Segments(full) in View(s)
    ensures Meaning(View(s), s.mounts, full) == Denotes(View(s)[Segments(full)], "")
  {
    hide Wf, Paths, Search, Segments, SegmentLength, Resolve;
    assert Sorted(s0.shape) by { WfShaped(s0); }
    SearchIsMeaning(s0.shape, s0.mounts, full);
    var segs := Segments(full);
    assert segs[..|segs|] == segs;
    ResolveGrown(View(s0), View(s), s.mounts, segs, 1);
    AfterAll(full);
  }

  lemma WfShaped(s: State)
    requires Wf(s)
    ensures Shaped(s) && Nodes(s.shape) <= s.live && Sorted(s.shape)
  {}

  lemma {:induction false} AfterAll(name: string)
    ensures AfterSegments(name, |Segments(name)|) == ""
    decreases |name|
  {
    hide SegmentLength, Segments, FirstSegment;
    SegmentCount(name);
    if NextName(name) != "" {
      AfterAll(NextName(name));
    }
  }

  /** A segment list that denoted nothing, completed with inodes that are not mount points. */
  lemma {:induction false} ResolveGrown(m: PathMap, m': PathMap, mounts: set<Inode>, segs: seq<string>, k: nat)
    requires k <= |segs| && segs in m' && Resolve(m, mounts, segs, k) == Missing
    requires forall p | p in m :: p in m' && m'[p] == m[p]
    requires forall p | p in m' && p !in m :: m'[p] !in mounts
    ensures Resolve(m', mounts, segs, k) == Hit(|segs|)
    decreases |segs| - k
  {
    assert segs[..|segs|] == segs;
    if k < |segs| { ResolveGrown(m, m', mounts, segs, k + 1); }
  }

  /** Names that denoted an inode before a reservation denote it afterwards. */
  lemma ReservedKeeps(s0: State, s: State, full: string, from: nat, to: nat, name: string)
    requires Growing(s0, s, full, from, to)
    requires Meaning(View(s0), s0.mounts, name).Denotes?
    ensures Meaning(View(s), s.mounts, name) == Meaning(View(s0), s0.mounts, name)
  {
    hide Paths, Segments, SegmentLength, Resolve, AfterSegments;
    ResolveKept(View(s0), View(s), s.mounts, Segments(name), 1);
  }

  lemma {:induction false} ResolveKept(m: PathMap, m': PathMap, mounts: set<Inode>, segs: seq<string>, k: nat)
    requires k <= |segs| && Resolve(m, mounts, segs, k).Hit?
    requires forall p | p in m :: p in m' && m'[p] == m[p]
    requires forall p | p in m' && p !in m :: m'[p] !in mounts
    ensures Resolve(m', mounts, segs, k) == Resolve(m, mounts, segs, k)
    decreases |segs| - k
  {
    if k < |segs| && Resolve(m, mounts, segs, k) != Hit(k) { ResolveKept(m, m', mounts, segs, k + 1); }
  }

  lemma LastSegment(name: string, k: nat)
    requires k < |Segments(name)|
    ensures NextName(AfterSegments(name, k)) == "" <==> k + 1 == |Segments(name)|
  {
    hide SegmentLength;
    AfterSegmentsDrops(name, k);
    var rest := AfterSegments(name, k);
    assert |Segments(rest)| == 1 <==> NextName(rest) == "";
  }

  // ---------------------------------------------------------------- removal

  predicate Resolves(s: State, name: string) {
    Search(s.shape, s.mounts, null, null, name).node != null
  }

  /** The pointers after unlinking the node a search found. */
  function Unlinked(links: Pointers, r: SearchResult): Pointers
    requires r.node != null && r.node in links
    requires r.left != null ==> r.left in links
    requires r.left == null && r.above != null ==> r.above in links
  {
    var next := links[r.node].1;
    (if r.left != null then links[r.left := (links[r.left].0, next)]
     else if r.above != null then links[r.above := (next, links[r.above].1)]
     else links)[r.node := (links[r.node].0, null)]
  }

  lemma FoundNeighbours(s: State, name: string)
    requires Shaped(s) && Resolves(s, name)
    ensures var r := Search(s.shape, s.mounts, null, null, name);
            && r.node in Nodes(s.shape) && r.node in s.links && r.left != r.node && r.above != r.node
            && (r.left != null ==> r.left in Nodes(s.shape) && r.left in s.links)
            && (r.left == null && r.above != null ==> r.above in Nodes(s.shape) && r.above in s.links)
  {
    FoundInside(s.shape, s.mounts, null, null, name);
    AboveNotFound(s.shape, s.mounts, null, null, name);
  }

  lemma {:induction false} AboveNotFound(t: Forest, mounts: set<Inode>, left: Inode?, above: Inode?, name: string)
    requires Distinct(t) && Finds(t, mounts, left, above, name)
    requires left !in Nodes(t) && above !in Nodes(t)
    ensures Search(t, mounts, left, above, name).above != Search(t, mounts, left, above, name).node
    decreases t
  {
    hide SegmentLength, Before;
    if FirstSegment(name) != t.inode.name {
      AboveNotFound(t.peer, mounts, t.inode, above, name);
    } else if !EndsHere(t, mounts, name) {
      AboveNotFound(t.child, mounts, null, t.inode, NextName(name));
    }
  }

  /** The inode a path resolves to, and everything below it. */
  ghost function Target(s: State, name: string): Inode
    requires Resolves(s, name)
  {
    Search(s.shape, s.mounts, null, null, name).node
  }

  ghost function Descendants(s: State, name: string): set<Inode> {
    Nodes(CutOff(s.shape, s.mounts, name))
  }

  /** Removal unlinks the target.  An unreferenced target is freed with everything below
      it; a referenced one becomes an orphan. */
  ghost function Removed(s: State, name: string): State
    requires Shaped(s) && Resolves(s, name)
  {
    FoundNeighbours(s, name);
    var r := Search(s.shape, s.mounts, null, null, name);
    var s' := s.(shape := Cut(s.shape, s.mounts, name), links := Unlinked(s.links, r));
    if s.held[r.node] > 0
    then s'.(orphans := s.orphans[r.node := CutOff(s.shape, s.mounts, name)])
    else s'.(live := s.live - {r.node} - Descendants(s, name))
  }

  lemma RemovedShaped(s: State, name: string)
    requires Shaped(s) && Resolves(s, name)
    ensures Shaped(Removed(s, name))
  {
    hide Links, Search, Cut, CutOff, Before, SegmentLength, Sorted, MountsChildless, Nodes, Distinct;
    FoundNeighbours(s, name);
    var t, r := s.shape, Search(s.shape, s.mounts, null, null, name);
    CutNodes(t, s.mounts, null, null, name);
    CutSorted(t, s.mounts, null, null, name);
    CutMounts(t, s.mounts, null, null, name);
    var c, links' := Cut(t, s.mounts, name), Unlinked(s.links, r);
    forall x | x in Nodes(c) ensures x in links' && links'[x] == Links(c, x) {
      CutLinks(t, s.mounts, null, null, name, x);
    }
  }

  /** The removed subtree keeps its shape. */
  lemma RemovedOrphan(s: State, name: string)
    requires Shaped(s) && Resolves(s, name)
    ensures Orphan(Target(s, name), CutOff(s.shape, s.mounts, name), Removed(s, name).links)
  {
    hide Links, Search, Cut, CutOff, Before, SegmentLength, Sorted, MountsChildless, Nodes, Distinct;
    FoundNeighbours(s, name);
    var t, r := s.shape, Search(s.shape, s.mounts, null, null, name);
    CutNodes(t, s.mounts, null, null, name);
    CutOffHead(t, s.mounts, null, null, name);
    NeighboursStay(t, s.mounts, null, null, name);
    var f, links' := CutOff(t, s.mounts, name), Unlinked(s.links, r);
    forall x | x in Nodes(f) ensures x in links' && links'[x] == Links(f, x) {
      CutOffLinks(t, s.mounts, null, null, name, x);
    }
  }

  /** The nodes whose pointers change at a removal are not below the removed node. */
  lemma {:induction false} NeighboursStay(t: Forest, mounts: set<Inode>, left: Inode?, above: Inode?, name: string)
    requires Distinct(t) && Finds(t, mounts, left, above, name)
    requires left !in Nodes(t) && above !in Nodes(t)
    ensures var r := Search(t, mounts, left, above, name);
            var off := Nodes(CutOff(t, mounts, name));
            off <= Nodes(t) && r.left !in off && r.above !in off
    decreases t
  {
    hide SegmentLength, Before;
    if FirstSegment(name) != t.inode.name {
      NeighboursStay(t.peer, mounts, t.inode, above, name);
    } else if !EndsHere(t, mounts, name) {
      NeighboursStay(t.child, mounts, null, t.inode, NextName(name));
    }
  }

  lemma RemovedWf(s: State, name: string)
    requires Wf(s) && Resolves(s, name)
    ensures Wf(Removed(s, name))
  {
    hide Links, Search, Cut, CutOff, Before, SegmentLength, Sorted, MountsChildless, Nodes, Distinct, Agrees, Orphan;
    FoundNeighbours(s, name);
    CutNodes(s.shape, s.mounts, null, null, name);
    RemovedShaped(s, name);
    if s.held[Target(s, name)] > 0 {
      RemovedBusy(s, name);
    } else {
      KeepsOrphans(s, Removed(s, name));
    }
  }

  lemma RemovedBusy(s: State, name: string)
    requires Wf(s) && Resolves(s, name) && s.held[Target(s, name)] > 0
    ensures OrphansIntact(Removed(s, name)) && NoLeak(Removed(s, name))
  {
    hide Links, Search, Cut, CutOff, Before, SegmentLength, Sorted, MountsChildless, Nodes, Distinct, Agrees;
    FoundNeighbours(s, name);
    CutNodes(s.shape, s.mounts, null, null, name);
    var s', n := Removed(s, name), Target(s, name);
    KeepsOrphans(s, s'.(orphans := s.orphans));
    RemovedOrphan(s, name);
  }

  /** After a removal a path resolves as before, unless it is the removed inode's path or
      an extension of it: those are gone. */
  lemma RemovedView(s: State, name: string, p: seq<string>)
    requires Wf(s) && Resolves(s, name)
    requires Resolve(View(s), s.mounts, Segments(name), 1).Hit?
    ensures var gone := Segments(name)[..Resolve(View(s), s.mounts, Segments(name), 1).depth];
            && gone in View(s) && View(s)[gone] == Target(s, name)
            && if gone <= p then p !in View(Removed(s, name))
               else SameAt(View(s), View(Removed(s, name)), p)
  {
    hide Links, Search, Cut, CutOff, Before, SegmentLength, Sorted, MountsChildless, Nodes, Distinct, Resolve, Segments, Paths;
    SearchIsMeaning(s.shape, s.mounts, name);
    FoundPathIs(s.shape, s.mounts, null, null, name, []);
    var gone := Segments(name)[..Resolve(View(s), s.mounts, Segments(name), 1).depth];
    PathsInjective(s.shape, [], gone, FoundPath(s.shape, s.mounts, name, []));
    CutPaths(s.shape, s.mounts, null, null, name, [], p);
  }

  /** The path that removing `name` takes away: a mount point answers for all its
      extensions. */
  function Gone(s: State, name: string): seq<string> {
    match Resolve(View(s), s.mounts, Segments(name), 1)
    case Missing => []
    case Hit(d) => Segments(name)[..d]
  }

  /** A lookup stops at the first prefix that is a mount point. */
  lemma {:induction false} HitIsFirst(m: PathMap, mounts: set<Inode>, segs: seq<string>, k: nat, j: nat)
    requires k <= j && k <= |segs| && Resolve(m, mounts, segs, k).Hit? && j < Resolve(m, mounts, segs, k).depth
    requires segs[..j] in m
    ensures m[segs[..j]] !in mounts
    decreases |segs| - k
  {
    if k < j { HitIsFirst(m, mounts, segs, k + 1, j); }
  }

  /** Without the path `gone` and its extensions, and with no mount point above it, nothing
      at or below it is found. */
  lemma {:induction false} ResolveGone(m: PathMap, mounts: set<Inode>, segs: seq<string>, gone: seq<string>, k: nat)
    requires k <= |segs| && gone <= segs
    requires forall j | k <= j < |gone| && segs[..j] in m :: m[segs[..j]] !in mounts
    requires forall j | k <= j <= |segs| && |gone| <= j :: segs[..j] !in m
    ensures Resolve(m, mounts, segs, k) == Missing
    decreases |segs| - k
  {
    if k < |segs| { ResolveGone(m, mounts, segs, gone, k + 1); }
  }

  /** After a removal no name at or below the removed path denotes anything, also not one
      that a removed mount point answered for; every other name denotes what it did. */
  lemma RemovedMeaning(s: State, name: string, other: string)
    requires Wf(s) && Resolves(s, name)
    ensures Shaped(s) && |Gone(s, name)| > 0
    ensures Meaning(View(Removed(s, name)), s.mounts, other) ==
              if Gone(s, name) <= Segments(other) then Nothing else Meaning(View(s), s.mounts, other)
  {
    hide Wf, Shaped, Removed, Search, Segments, Paths, AfterSegments;
    assert Shaped(s) by { WfShaped(s); }
    assert Resolve(View(s), s.mounts, Segments(name), 1).Hit? by { WfShaped(s); SearchIsMeaning(s.shape, s.mounts, name); }
    var m, m', gone, segs := View(s), View(Removed(s, name)), Gone(s, name), Segments(other);
    if gone <= segs {
      forall j | 1 <= j < |gone| && segs[..j] in m' ensures m'[segs[..j]] !in s.mounts {
        RemovedView(s, name, segs[..j]);
        assert segs[..j] == Segments(name)[..j];
        HitIsFirst(m, s.mounts, Segments(name), 1, j);
      }
      forall j | 1 <= j <= |segs| && |gone| <= j ensures segs[..j] !in m' {
        RemovedView(s, name, segs[..j]);
      }
      ResolveGone(m', s.mounts, segs, gone, 1);
    } else {
      forall j | 1 <= j <= |segs| ensures SameAt(m, m', segs[..j]) {
        RemovedView(s, name, segs[..j]);
        assert !(gone <= segs[..j]);
      }
      ResolveAgree(m, m', s.mounts, segs, 1);
    }
  }

  // ---------------------------------------------------------------- references

  /** Taking one more reference to an inode. */
  function Acquired(s: State, n: Inode): State {
    s.(held := s.held + multiset{n})
  }

  /** Returning a reference.  The last one to a removed inode frees it with everything
      below it. */
  ghost function Released(s: State, n: Inode): State {
    var held' := s.held - multiset{n};
    if n in s.orphans && held'[n] == 0
    then s.(held := held', orphans := s.orphans - {n}, live := s.live - Piece(s.orphans, n))
    else s.(held := held')
  }

  lemma AcquiredWf(s: State, n: Inode)
    requires Wf(s)
    ensures Wf(Acquired(s, n))
  {
    hide Links, Sorted, MountsChildless, Nodes, Distinct, Agrees, Apart, Orphan;
  }

  lemma ReleasedWf(s: State, n: Inode)
    requires Wf(s)
    ensures Wf(Released(s, n))
  {
    hide Links, Sorted, MountsChildless, Nodes, Distinct, Agrees, Orphan;
    var s' := Released(s, n);
    if n in s.orphans && s'.held[n] == 0 {
      forall x | x in Nodes(s.shape) ensures x in s'.live {}
      assert Shaped(s');
      forall o | o in s'.orphans ensures Piece(s'.orphans, o) <= s'.live && s'.held[o] > 0 {
        assert Piece(s'.orphans, o) == Piece(s.orphans, o);
        assert s'.held[o] == s.held[o];
      }
      forall x | x in s'.live && x !in Nodes(s'.shape)
        ensures exists o | o in s'.orphans :: x in Piece(s'.orphans, o)
      {
        var o :| o in s.orphans && x in Piece(s.orphans, o);
        assert x in Piece(s'.orphans, o);
      }
    }
  }

  /** A freshly reserved leaf becomes a mount point. */
  function Mounted(s: State, n: Inode): State {
    s.(mounts := s.mounts + {n})
  }

  lemma MountedWf(s: State, n: Inode)
    requires Wf(s) && n in Nodes(s.shape) && s.links[n].0 == null
    ensures Wf(Mounted(s, n))
  {
    hide Sorted, Apart, Orphan;
    MountLeaf(s.shape, s.mounts, n);
  }

  lemma {:induction false} MountLeaf(t: Forest, mounts: set<Inode>, n: Inode)
    requires Distinct(t) && MountsChildless(t, mounts) && (n in Nodes(t) ==> Links(t, n).0 == null)
    ensures MountsChildless(t, mounts + {n})
  {
    if t.Node? {
      MountLeaf(t.child, mounts, n);
      MountLeaf(t.peer, mounts, n);
    }
  }

  // ---------------------------------------------------------------- dangling references

  /** No reference dangles, and none will: every referenced inode is allocated, and nothing
      below a removed inode is referenced. */
  predicate Clean(s: State) {
    && (forall x | x in s.held :: x in s.live)
    && (forall o | o in s.orphans :: Unreferenced(s, Nodes(s.orphans[o])))
  }

  predicate Unreferenced(s: State, nodes: set<Inode>) {
    forall x | x in nodes :: x !in s.held
  }

  /** Freeing does not look at the counts of descendants: a removal keeps references from
      dangling exactly when nothing below the removed inode is referenced. */
  lemma RemovedCleanIff(s: State, name: string)
    requires Wf(s) && Clean(s) && Resolves(s, name)
    ensures Clean(Removed(s, name)) <==> Unreferenced(s, Descendants(s, name))
  {
    hide Links, Search, Cut, CutOff, Before, SegmentLength, Sorted, MountsChildless, Nodes, Distinct, Agrees, Orphan;
    FoundNeighbours(s, name);
    CutNodes(s.shape, s.mounts, null, null, name);
    var s', n := Removed(s, name), Target(s, name);
    if s.held[n] > 0 {
      assert n !in s.orphans by { assert n in s.orphans ==> n in Piece(s.orphans, n); }
      forall o | o in s.orphans ensures o in s'.orphans && s'.orphans[o] == s.orphans[o] {}
      if Unreferenced(s, Descendants(s, name)) {
        forall o | o in s'.orphans ensures Unreferenced(s', Nodes(s'.orphans[o])) {
          if o != n { assert Unreferenced(s, Nodes(s.orphans[o])); }
        }
      } else {
        assert !Unreferenced(s', Nodes(s'.orphans[n]));
      }
    } else {
      forall o | o in s.orphans ensures Unreferenced(s', Nodes(s.orphans[o])) {
        assert Unreferenced(s, Nodes(s.orphans[o]));
      }
    }
  }

  /** The tree /a/b. */
  function SmallTree(a: Inode, b: Inode, held: multiset<Inode>): State {
    State(Node(a, Node(b, Nil, Nil), Nil), {}, map[], {a, b}, held, map[a := (b, null), b := (null, null)])
  }

  lemma SmallTreeWf(a: Inode, b: Inode, held: multiset<Inode>)
    requires a != b && a.name == "a" && b.name == "b"
    ensures var s := SmallTree(a, b, held);
            && Wf(s) && Nodes(s.shape) == {a, b}
            && Search(s.shape, s.mounts, null, null, "a") == SearchResult(a, null, null, "")
            && CutOff(s.shape, s.mounts, "a") == Node(b, Nil, Nil)
  {
    var t := Node(a, Node(b, Nil, Nil), Nil);
    var below := Node(b, Nil, Nil);
    assert t.child == below && Nodes(below) == {b};
    assert Nodes(t) == {a} + Nodes(below) + {} == {a, b};
    assert Distinct(below) && Sorted(below) && MountsChildless(below, {});
    assert SegmentLength("a") == 1 && FirstSegment("a") == "a" && NextName("a") == "";
    BeforeTotal("a", "a");
  }

  /** With one reference to b, removing /a frees b under its holder. */
  lemma RemovalDangles(a: Inode, b: Inode)
    requires a != b && a.name == "a" && b.name == "b"
    ensures var s := SmallTree(a, b, multiset{b});
            && Wf(s) && Clean(s) && Resolves(s, "a")
            && b in Removed(s, "a").held && b !in Removed(s, "a").live
  {
    hide Wf;
    SmallTreeWf(a, b, multiset{b});
    assert Shaped(SmallTree(a, b, multiset{b})) by { WfShaped(SmallTree(a, b, multiset{b})); }
    assert Nodes(Node(b, Nil, Nil)) == {b};
  }

  lemma ReleasedClean(s: State, n: Inode)
    requires Wf(s) && Clean(s)
    ensures Clean(Released(s, n))
  {
    hide Links, Sorted, MountsChildless, Nodes, Distinct, Agrees;
    var s' := Released(s, n);
    forall o | o in s'.orphans ensures Unreferenced(s', Nodes(s'.orphans[o])) {
      assert Unreferenced(s, Nodes(s.orphans[o]));
    }
    if n in s.orphans && s'.held[n] == 0 {
      assert Unreferenced(s, Nodes(s.orphans[n]));
    }
  }

  /** New references go to inodes of the tree or to inodes already referenced. */
  lemma AcquiredClean(s: State, n: Inode)
    requires Wf(s) && Clean(s) && (n in Nodes(s.shape) || n in s.held)
    ensures Clean(Acquired(s, n))
  {
    hide Links, Sorted, MountsChildless, Nodes, Distinct, Agrees, Orphan;
    var s' := Acquired(s, n);
    forall o | o in s'.orphans ensures Unreferenced(s', Nodes(s'.orphans[o])) {
      assert Unreferenced(s, Nodes(s.orphans[o]));
      forall x | x in Nodes(s.orphans[o]) ensures x != n { assert x in Piece(s.orphans, o); }
    }
  }

  lemma OrphansAreHeld(s: State, o: Inode)
    requires Wf(s) && o in s.orphans
    ensures s.held[o] > 0
  {}

  /** `n` is a removed inode with the forest `f` still below it, all of it allocated. */
  predicate Lingers(s: State, n: Inode, f: Forest) {
    n in s.orphans && s.orphans[n] == f && {n} + Nodes(f) <= s.live
  }

  lemma LingersWhenOrphan(s: State, n: Inode)
    requires Wf(s) && n in s.orphans
    ensures Lingers(s, n, s.orphans[n]) && s.held[n] > 0
  {}

  /** Removing something else leaves a removed subtree alone. */
  lemma RemovedLingers(s: State, name: string, n: Inode, f: Forest)
    requires Wf(s) && Resolves(s, name) && Lingers(s, n, f)
    ensures Shaped(s) && Lingers(Removed(s, name), n, f)
  {
    hide Links, Search, Cut, CutOff, Before, SegmentLength, Sorted, MountsChildless, Nodes, Distinct, Agrees, Orphan;
    FoundNeighbours(s, name);
    CutNodes(s.shape, s.mounts, null, null, name);
    assert Piece(s.orphans, n) == {n} + Nodes(f);
    assert forall x | x in Piece(s.orphans, n) :: x !in Nodes(s.shape);
  }

  /** A release leaves it alone unless it returns the last reference to it; then exactly the
      subtree is freed. */
  lemma ReleasedLingers(s: State, m: Inode, n: Inode, f: Forest)
    requires Wf(s) && Lingers(s, n, f)
    ensures var s' := Released(s, m);
            if s'.held[n] > 0 then Lingers(s', n, f)
            else m == n && n !in s'.orphans && s'.live == s.live - ({n} + Nodes(f))
  {
    hide Nodes, Distinct, Agrees, Orphan;
    assert Piece(s.orphans, n) == {n} + Nodes(f) && s.held[n] > 0;
    if m != n && m in s.orphans {
      assert forall x | x in Piece(s.orphans, n) :: x !in Piece(s.orphans, m);
    }
  }
}
