/** The shape of the inode tree as a value.

    An inode points to its first child and to its next peer, so a list of siblings with
    everything below it is a `Forest`.  The functions here say what a forest means (the map
    from paths to inodes), how a search walks it, and what inserting and unlinking do to
    it; the lemmas connect the walk with the map.  No member reads the heap. */
module Forests {
  import opened Names

  datatype NodeType = Driver | Block | MountPoint

  /** The driver methods the file system asks about. */
  datatype Operations = NoOperations | Operations(canRead: bool, canWrite: bool)

  class Inode {
    const name: string
    var peer: Inode?
    var child: Inode?
    var crefs: int
    var nodeType: NodeType
    var deleted: bool
    var ops: Operations

    /** A node as it comes zeroed from the allocator with its name copied in. */
    constructor (name: string)
      ensures this.name == name && peer == null && child == null
      ensures crefs == 0 && nodeType == Driver && !deleted && ops == NoOperations
    {
      this.name := name;
      peer, child, crefs := null, null, 0;
      nodeType, deleted, ops := Driver, false, NoOperations;
    }
  }

  datatype Forest = Nil | Node(inode: Inode, child: Forest, peer: Forest)

  function Head(t: Forest): Inode? {
    if t.Nil? then null else t.inode
  }

  function Nodes(t: Forest): set<Inode> {
    if t.Nil? then {} else {t.inode} + Nodes(t.child) + Nodes(t.peer)
  }

  /** No inode occurs twice: the structure is a tree, without sharing and without cycles. */
  predicate Distinct(t: Forest) {
    t.Nil? || (
      && t.inode !in Nodes(t.child) && t.inode !in Nodes(t.peer)
      && Nodes(t.child) !! Nodes(t.peer)
      && Distinct(t.child) && Distinct(t.peer))
  }

  /** Every list of siblings is strictly increasing by name. */
  predicate Sorted(t: Forest) {
    t.Nil? || (
      && (t.peer.Node? ==> Before(t.inode.name, t.peer.inode.name))
      && Sorted(t.child) && Sorted(t.peer))
  }

  /** Mount points have nothing below them. */
  predicate MountsChildless(t: Forest, mounts: set<Inode>) {
    t.Nil? || (
      && (t.inode in mounts ==> t.child.Nil?)
      && MountsChildless(t.child, mounts) && MountsChildless(t.peer, mounts))
  }

  type PathMap = map<seq<string>, Inode>

  /** The meaning of a forest hung under the path `pre`: which path names which inode. */
  function Paths(t: Forest, pre: seq<string>): PathMap {
    if t.Nil? then map[]
    else (Paths(t.child, pre + [t.inode.name]) + Paths(t.peer, pre))[pre + [t.inode.name] := t.inode]
  }

  /** The child and peer pointers an inode must hold for the heap to have this shape. */
  function Links(t: Forest, x: Inode): (Inode?, Inode?)
    requires x in Nodes(t)
  {
    if x == t.inode then (Head(t.child), Head(t.peer))
    else if x in Nodes(t.child) then Links(t.child, x)
    else Links(t.peer, x)
  }

  // ---------------------------------------------------------------- lookup in the map

  /** Looking up a segment list in a path map: the first of its prefixes that is a mount
      point absorbs the rest; otherwise the whole list has to be present.  The result is
      the number of segments consumed. */
  datatype Lookup = Missing | Hit(depth: nat)

  function Resolve(m: PathMap, mounts: set<Inode>, segs: seq<string>, k: nat): (r: Lookup)
    requires k <= |segs|
    ensures r.Hit? ==> k <= r.depth <= |segs| && segs[..r.depth] in m
    decreases |segs| - k
  {
    if segs[..k] in m && (k == |segs| || m[segs[..k]] in mounts) then Hit(k)
    else if k == |segs| then Missing
    else Resolve(m, mounts, segs, k + 1)
  }

  /** What a path name denotes: an inode, with the part of the name that is left to it. */
  datatype Denotation = Nothing | Denotes(node: Inode, rest: string)

  function Meaning(m: PathMap, mounts: set<Inode>, name: string): Denotation {
    match Resolve(m, mounts, Segments(name), 1)
    case Missing => Nothing
    case Hit(d) => Denotes(m[Segments(name)[..d]], AfterSegments(name, d))
  }

  // ---------------------------------------------------------------- the walk

  datatype SearchResult = SearchResult(node: Inode?, left: Inode?, above: Inode?, rest: string)

  function Search(t: Forest, mounts: set<Inode>, left: Inode?, above: Inode?, name: string): SearchResult
    decreases t
  {
    if t.Nil? || Before(FirstSegment(name), t.inode.name) then
      SearchResult(null, left, above, name)
    else if FirstSegment(name) != t.inode.name then
      Search(t.peer, mounts, t.inode, above, name)
    else if NextName(name) == "" || t.inode in mounts then
      SearchResult(t.inode, left, above, NextName(name))
    else
      Search(t.child, mounts, null, t.inode, NextName(name))
  }

  // ---------------------------------------------------------------- facts about the map

  /** Every path in the map extends `pre`, and its next segment is at least the first
      sibling's name. */
  lemma {:induction false} PathsExtend(t: Forest, pre: seq<string>, s: seq<string>)
    requires Sorted(t) && s in Paths(t, pre)
    ensures |s| > |pre| && s[..|pre|] == pre && t.Node?
    ensures s[|pre|] == t.inode.name || Before(t.inode.name, s[|pre|])
    ensures Paths(t, pre)[s] in Nodes(t)
  {
    var pre' := pre + [t.inode.name];
    if s == pre' {
    } else if s in Paths(t.peer, pre) {
      PathsExtend(t.peer, pre, s);
      if s[|pre|] != t.peer.inode.name {
        BeforeTransitive(t.inode.name, t.peer.inode.name, s[|pre|]);
      }
    } else {
      PathsExtend(t.child, pre', s);
      assert s[|pre|] == s[..|pre'|][|pre|];
      assert s[..|pre|] == s[..|pre'|][..|pre|];
    }
  }

  /** A path is found under the first sibling or among its peers, never in both. */
  lemma PathsSplit(t: Forest, pre: seq<string>, s: seq<string>)
    requires t.Node? && Sorted(t) && |s| > |pre| && s[..|pre|] == pre
    ensures var pre' := pre + [t.inode.name];
            && (s == pre' ==> s in Paths(t, pre) && Paths(t, pre)[s] == t.inode)
            && (s != pre' && s[|pre|] == t.inode.name ==>
                  && (s in Paths(t, pre) <==> s in Paths(t.child, pre'))
                  && (s in Paths(t, pre) ==> Paths(t, pre)[s] == Paths(t.child, pre')[s]))
            && (s[|pre|] != t.inode.name ==>
                  && (s in Paths(t, pre) <==> s in Paths(t.peer, pre))
                  && (s in Paths(t, pre) ==> Paths(t, pre)[s] == Paths(t.peer, pre)[s]))
  {
    var pre' := pre + [t.inode.name];
    if s in Paths(t.peer, pre) {
      PathsExtend(t.peer, pre, s);
      BeforeTotal(t.inode.name, s[|pre|]);
      if s[|pre|] != t.peer.inode.name {
        BeforeTransitive(t.inode.name, t.peer.inode.name, s[|pre|]);
      }
    }
    if s in Paths(t.child, pre') {
      PathsExtend(t.child, pre', s);
      assert s[|pre|] == s[..|pre'|][|pre|];
    }
  }

  predicate SameAt(m: PathMap, m': PathMap, s: seq<string>) {
    (s in m <==> s in m') && (s in m ==> m[s] == m'[s])
  }

  /** The result of a lookup depends only on the prefixes of the segment list. */
  lemma {:induction false} ResolveAgree(m: PathMap, m': PathMap, mounts: set<Inode>, segs: seq<string>, k: nat)
    requires k <= |segs| && forall j | k <= j <= |segs| :: SameAt(m, m', segs[..j])
    ensures var r := Resolve(m, mounts, segs, k);
            r == Resolve(m', mounts, segs, k) && (r.Hit? ==> m[segs[..r.depth]] == m'[segs[..r.depth]])
    decreases |segs| - k
  {
    assert SameAt(m, m', segs[..k]);
    if k < |segs| {
      ResolveAgree(m, m', mounts, segs, k + 1);
    }
  }

  /** What it means for a search result to agree with lookup in the map. */
  predicate IsLookup(r: SearchResult, m: PathMap, mounts: set<Inode>, name: string, pre: seq<string>) {
    var segs := pre + Segments(name);
    match Resolve(m, mounts, segs, |pre| + 1)
    case Missing => r.node == null
    case Hit(d) => r.node == m[segs[..d]] && r.rest == AfterSegments(name, d - |pre|)
  }

  /** The walk of the sorted child/peer structure is lookup in the map. */
  lemma {:induction false} SearchIsLookup(t: Forest, mounts: set<Inode>, left: Inode?, above: Inode?,
                                          name: string, pre: seq<string>)
    requires Sorted(t)
    ensures IsLookup(Search(t, mounts, left, above, name), Paths(t, pre), mounts, name, pre)
    decreases t
  {
    hide Paths, Resolve, Segments, AfterSegments;
    var r := Search(t, mounts, left, above, name);
    if t.Nil? || Before(FirstSegment(name), t.inode.name) {
      LookupBeforeHead(t, mounts, name, pre);
    } else if FirstSegment(name) != t.inode.name {
      SearchIsLookup(t.peer, mounts, t.inode, above, name, pre);
      LookupAmongPeers(t, mounts, name, pre, r);
    } else if NextName(name) == "" || t.inode in mounts {
      LookupHere(t, mounts, name, pre);
    } else {
      SearchIsLookup(t.child, mounts, null, t.inode, NextName(name), pre + [t.inode.name]);
      LookupBelow(t, mounts, name, pre, r);
    }
  }

  /** At the top of the tree: the search result is the meaning of the name. */
  lemma SearchIsMeaning(t: Forest, mounts: set<Inode>, name: string)
    requires Sorted(t)
    ensures var r := Search(t, mounts, null, null, name);
            && Meaning(Paths(t, []), mounts, name) == (if r.node == null then Nothing else Denotes(r.node, r.rest))
            && (r.node != null ==> IsRest(name, r.rest))
  {
    hide Paths, Resolve, Segments, AfterSegments, Search;
    SearchIsLookup(t, mounts, null, null, name, []);
    assert [] + Segments(name) == Segments(name);
    match Resolve(Paths(t, []), mounts, Segments(name), 1)
    case Missing =>
    case Hit(d) => AfterSegmentsSuffix(name, d);
  }

  lemma LookupBeforeHead(t: Forest, mounts: set<Inode>, name: string, pre: seq<string>)
    requires Sorted(t) && (t.Node? ==> Before(FirstSegment(name), t.inode.name))
    ensures Resolve(Paths(t, pre), mounts, pre + Segments(name), |pre| + 1) == Missing
  {
    var segs := pre + Segments(name);
    forall j | |pre| < j <= |segs| ensures segs[..j] !in Paths(t, pre) {
      if segs[..j] in Paths(t, pre) {
        PathsExtend(t, pre, segs[..j]);
        BeforeTotal(FirstSegment(name), t.inode.name);
      }
    }
    MissingAll(Paths(t, pre), mounts, segs, |pre| + 1);
  }

  lemma LookupAmongPeers(t: Forest, mounts: set<Inode>, name: string, pre: seq<string>, r: SearchResult)
    requires Sorted(t) && t.Node? && FirstSegment(name) != t.inode.name
    requires IsLookup(r, Paths(t.peer, pre), mounts, name, pre)
    ensures IsLookup(r, Paths(t, pre), mounts, name, pre)
  {
    hide Paths, Resolve, Segments, AfterSegments;
    var segs := pre + Segments(name);
    assert segs[..|pre|] == pre;
    ResolveAmongPeers(t, mounts, pre, segs);
  }

  lemma ResolveAmongPeers(t: Forest, mounts: set<Inode>, pre: seq<string>, segs: seq<string>)
    requires Sorted(t) && t.Node?
    requires |segs| > |pre| && segs[..|pre|] == pre && segs[|pre|] != t.inode.name
    ensures var r := Resolve(Paths(t, pre), mounts, segs, |pre| + 1);
            && r == Resolve(Paths(t.peer, pre), mounts, segs, |pre| + 1)
            && (r.Hit? ==> Paths(t, pre)[segs[..r.depth]] == Paths(t.peer, pre)[segs[..r.depth]])
  {
    hide Paths, Resolve;
    forall j | |pre| + 1 <= j <= |segs|
      ensures SameAt(Paths(t, pre), Paths(t.peer, pre), segs[..j])
    {
      assert segs[..j][..|pre|] == pre;
      PathsSplit(t, pre, segs[..j]);
    }
    ResolveAgree(Paths(t, pre), Paths(t.peer, pre), mounts, segs, |pre| + 1);
  }

  lemma LookupHere(t: Forest, mounts: set<Inode>, name: string, pre: seq<string>)
    requires Sorted(t) && t.Node? && FirstSegment(name) == t.inode.name
    requires NextName(name) == "" || t.inode in mounts
    ensures var segs := pre + Segments(name);
            && Resolve(Paths(t, pre), mounts, segs, |pre| + 1) == Hit(|pre| + 1)
            && Paths(t, pre)[segs[..|pre| + 1]] == t.inode
            && AfterSegments(name, 1) == NextName(name)
  {
    var segs := pre + Segments(name);
    assert segs[..|pre| + 1] == pre + [t.inode.name];
    assert AfterSegments(name, 1) == AfterSegments(NextName(name), 0);
  }

  lemma LookupBelow(t: Forest, mounts: set<Inode>, name: string, pre: seq<string>, r: SearchResult)
    requires Sorted(t) && t.Node? && FirstSegment(name) == t.inode.name
    requires NextName(name) != "" && t.inode !in mounts
    requires IsLookup(r, Paths(t.child, pre + [t.inode.name]), mounts, NextName(name), pre + [t.inode.name])
    ensures IsLookup(r, Paths(t, pre), mounts, name, pre)
  {
    hide Paths, Resolve, Segments;
    var segs := pre + Segments(name);
    SegmentsStep(name, pre);
    assert segs[..|pre|] == pre;
    ResolveBelow(t, mounts, pre, segs);
    match Resolve(Paths(t, pre), mounts, segs, |pre| + 1)
    case Missing =>
    case Hit(d) => assert AfterSegments(name, d - |pre|) == AfterSegments(NextName(name), d - |pre| - 1);
  }

  lemma ResolveBelow(t: Forest, mounts: set<Inode>, pre: seq<string>, segs: seq<string>)
    requires Sorted(t) && t.Node? && t.inode !in mounts
    requires |segs| > |pre| + 1 && segs[..|pre|] == pre && segs[|pre|] == t.inode.name
    ensures var pre' := pre + [t.inode.name];
            var r := Resolve(Paths(t, pre), mounts, segs, |pre| + 1);
            && r == Resolve(Paths(t.child, pre'), mounts, segs, |pre'| + 1)
            && (r.Hit? ==> Paths(t, pre)[segs[..r.depth]] == Paths(t.child, pre')[segs[..r.depth]])
  {
    hide Paths;
    var pre' := pre + [t.inode.name];
    assert segs[..|pre'|] == pre';
    PathsSplit(t, pre, pre');
    assert Resolve(Paths(t, pre), mounts, segs, |pre| + 1) == Resolve(Paths(t, pre), mounts, segs, |pre'| + 1);
    hide Resolve;
    forall j | |pre'| + 1 <= j <= |segs|
      ensures SameAt(Paths(t, pre), Paths(t.child, pre'), segs[..j])
    {
      assert segs[..j][..|pre|] == pre;
      PathsSplit(t, pre, segs[..j]);
    }
    ResolveAgree(Paths(t, pre), Paths(t.child, pre'), mounts, segs, |pre'| + 1);
  }

  lemma {:induction false} MissingAll(m: PathMap, mounts: set<Inode>, segs: seq<string>, k: nat)
    requires k <= |segs| && forall j | k <= j <= |segs| :: segs[..j] !in m
    ensures Resolve(m, mounts, segs, k) == Missing
    decreases |segs| - k
  {
    if k < |segs| { MissingAll(m, mounts, segs, k + 1); }
  }
}
