/** Inserting one inode where a search for its path missed. */
module Placing {
  import opened Names
  import opened Forests

  /** A search of this sibling list for `name` stops in front of its first node. */
  predicate AtHead(t: Forest, name: string) {
    t.Nil? || Before(FirstSegment(name), t.inode.name)
  }

  function Place(t: Forest, name: string, n: Inode): Forest
    decreases t
  {
    if AtHead(t, name) then Node(n, Nil, t)
    else if FirstSegment(name) != t.inode.name then t.(peer := Place(t.peer, name, n))
    else t.(child := Place(t.child, NextName(name), n))
  }

  predicate Misses(t: Forest, mounts: set<Inode>, name: string) {
    Search(t, mounts, null, null, name).node == null
  }

  /** A search misses between `left` and `above`, wanting a node named `seg` next. */
  predicate MissesAt(t: Forest, mounts: set<Inode>, name: string, left: Inode?, above: Inode?, seg: string) {
    var r := Search(t, mounts, null, null, name);
    r.node == null && r.left == left && r.above == above && FirstSegment(r.rest) == seg
  }

  lemma {:induction false} PlaceNodes(t: Forest, name: string, n: Inode)
    ensures Nodes(Place(t, name, n)) == Nodes(t) + {n}
    decreases t
  {
    hide SegmentLength, Before;
    if AtHead(t, name) {
    } else if FirstSegment(name) != t.inode.name {
      PlaceNodes(t.peer, name, n);
    } else {
      PlaceNodes(t.child, NextName(name), n);
    }
  }

  lemma {:induction false} PlaceDistinct(t: Forest, name: string, n: Inode)
    requires Distinct(t) && n !in Nodes(t)
    ensures Distinct(Place(t, name, n))
    decreases t
  {
    hide SegmentLength, Before;
    if AtHead(t, name) {
    } else if FirstSegment(name) != t.inode.name {
      PlaceDistinct(t.peer, name, n);
      PlaceNodes(t.peer, name, n);
    } else {
      PlaceDistinct(t.child, NextName(name), n);
      PlaceNodes(t.child, NextName(name), n);
    }
  }

  /** Siblings stay strictly sorted. */
  lemma {:induction false} PlaceSorted(t: Forest, mounts: set<Inode>, left: Inode?, above: Inode?, name: string, n: Inode)
    requires Sorted(t) && Search(t, mounts, left, above, name).node == null
    requires n.name == FirstSegment(Search(t, mounts, left, above, name).rest)
    ensures Sorted(Place(t, name, n))
    ensures Head(Place(t, name, n)) == if AtHead(t, name) then n else Head(t)
    decreases t
  {
    hide SegmentLength, Before, Segments;
    if AtHead(t, name) {
    } else if FirstSegment(name) != t.inode.name {
      PlaceSorted(t.peer, mounts, t.inode, above, name, n);
      BeforeTotal(FirstSegment(name), t.inode.name);
    } else {
      PlaceSorted(t.child, mounts, null, t.inode, NextName(name), n);
    }
  }

  lemma {:induction false} PlaceMounts(t: Forest, mounts: set<Inode>, left: Inode?, above: Inode?, name: string, n: Inode)
    requires MountsChildless(t, mounts) && Search(t, mounts, left, above, name).node == null
    ensures MountsChildless(Place(t, name, n), mounts)
    decreases t
  {
    hide SegmentLength, Before;
    if AtHead(t, name) {
    } else if FirstSegment(name) != t.inode.name {
      PlaceMounts(t.peer, mounts, t.inode, above, name, n);
    } else {
      PlaceMounts(t.child, mounts, null, t.inode, NextName(name), n);
    }
  }

  /** A miss behind the head of the list is reported by a node of the list. */
  lemma {:induction false} MissInside(t: Forest, mounts: set<Inode>, left: Inode?, above: Inode?, name: string)
    requires Search(t, mounts, left, above, name).node == null
    ensures var r := Search(t, mounts, left, above, name);
            if AtHead(t, name) then r.left == left && r.above == above
            else if r.left != null then r.left in Nodes(t)
            else r.above != null && r.above in Nodes(t)
    decreases t
  {
    hide SegmentLength, Before;
    if AtHead(t, name) {
    } else if FirstSegment(name) != t.inode.name {
      MissInside(t.peer, mounts, t.inode, above, name);
    } else {
      MissInside(t.child, mounts, null, t.inode, NextName(name));
    }
  }

  /** The pointer updates that turn the old shape into the new one: `n` goes behind
      `left` if there is one, else to the head of the children of `above`, else to the
      head of the list. */
  lemma {:induction false} PlaceLinks(t: Forest, mounts: set<Inode>, left: Inode?, above: Inode?,
                                      name: string, n: Inode, x: Inode)
    requires Distinct(t) && n !in Nodes(t) && x in Nodes(t)
    requires Search(t, mounts, left, above, name).node == null
    requires left !in Nodes(t) && above !in Nodes(t)
    ensures x in Nodes(Place(t, name, n))
    ensures var r := Search(t, mounts, left, above, name);
            Links(Place(t, name, n), x) ==
              (if !AtHead(t, name) && r.left == null && x == r.above then n else Links(t, x).0,
               if !AtHead(t, name) && x == r.left then n else Links(t, x).1)
    decreases t
  {
    hide SegmentLength, Before;
    PlaceNodes(t, name, n);
    if AtHead(t, name) {
    } else if FirstSegment(name) != t.inode.name {
      PlaceNodes(t.peer, name, n);
      MissInside(t.peer, mounts, t.inode, above, name);
      if x in Nodes(t.peer) { PlaceLinks(t.peer, mounts, t.inode, above, name, n, x); }
    } else {
      PlaceNodes(t.child, NextName(name), n);
      MissInside(t.child, mounts, null, t.inode, NextName(name));
      if x in Nodes(t.child) { PlaceLinks(t.child, mounts, null, t.inode, NextName(name), n, x); }
    }
  }

  /** The new inode has no child, and its peer is what followed the insertion point. */
  lemma {:induction false} PlaceNewLinks(t: Forest, mounts: set<Inode>, left: Inode?, above: Inode?, name: string, n: Inode)
    requires Distinct(t) && n !in Nodes(t)
    requires Search(t, mounts, left, above, name).node == null
    requires left !in Nodes(t) && above !in Nodes(t)
    ensures n in Nodes(Place(t, name, n))
    ensures var r := Search(t, mounts, left, above, name);
            && (!AtHead(t, name) && r.left != null ==> r.left in Nodes(t))
            && (!AtHead(t, name) && r.left == null ==> r.above in Nodes(t))
            && Links(Place(t, name, n), n) ==
               (null, if AtHead(t, name) then Head(t)
                      else if r.left != null then Links(t, r.left).1
                      else Links(t, r.above).0)
    decreases t
  {
    hide SegmentLength, Before;
    PlaceNodes(t, name, n);
    MissInside(t, mounts, left, above, name);
    if AtHead(t, name) {
    } else if FirstSegment(name) != t.inode.name {
      PlaceNodes(t.peer, name, n);
      MissInside(t.peer, mounts, t.inode, above, name);
      PlaceNewLinks(t.peer, mounts, t.inode, above, name, n);
    } else {
      PlaceNodes(t.child, NextName(name), n);
      MissInside(t.child, mounts, null, t.inode, NextName(name));
      PlaceNewLinks(t.child, mounts, null, t.inode, NextName(name), n);
    }
  }

  /** Searching the path again finds the new leaf, or stops below the new directory. */
  lemma {:induction false} PlaceSearch(t: Forest, mounts: set<Inode>, left: Inode?, above: Inode?, name: string, n: Inode)
    requires Sorted(t) && n !in mounts && Search(t, mounts, left, above, name).node == null
    requires n.name == FirstSegment(Search(t, mounts, left, above, name).rest)
    ensures var r := Search(t, mounts, left, above, name);
            Search(Place(t, name, n), mounts, left, above, name) ==
              if NextName(r.rest) == "" then SearchResult(n, r.left, r.above, "")
              else SearchResult(null, null, n, NextName(r.rest))
    decreases t
  {
    hide SegmentLength, Before;
    BeforeTotal(n.name, n.name);
    if AtHead(t, name) {
    } else if FirstSegment(name) != t.inode.name {
      PlaceSearch(t.peer, mounts, t.inode, above, name, n);
    } else {
      PlaceSearch(t.child, mounts, null, t.inode, NextName(name), n);
    }
  }

  /** How many segments of the path already exist when a search misses. */
  function Existing(t: Forest, name: string): (k: nat)
    ensures k <= |Segments(name)|
    decreases t
  {
    if AtHead(t, name) then 0
    else if FirstSegment(name) != t.inode.name then Existing(t.peer, name)
    else if NextName(name) == "" then 1
    else 1 + Existing(t.child, NextName(name))
  }

  lemma {:induction false} ExistingDepth(t: Forest, mounts: set<Inode>, left: Inode?, above: Inode?, name: string)
    requires Search(t, mounts, left, above, name).node == null
    ensures Existing(t, name) < |Segments(name)|
    ensures Search(t, mounts, left, above, name).rest == AfterSegments(name, Existing(t, name))
    decreases t
  {
    hide SegmentLength, Before, Segments, FirstSegment, NextName;
    SegmentCount(name);
    if AtHead(t, name) {
    } else if FirstSegment(name) != t.inode.name {
      ExistingDepth(t.peer, mounts, t.inode, above, name);
    } else {
      ExistingDepth(t.child, mounts, null, t.inode, NextName(name));
    }
  }

  /** The path at which a search for `name` under `pre` misses. */
  function MissedPath(t: Forest, name: string, pre: seq<string>): seq<string>
    decreases t
  {
    if AtHead(t, name) then pre + [FirstSegment(name)]
    else if FirstSegment(name) != t.inode.name then MissedPath(t.peer, name, pre)
    else MissedPath(t.child, NextName(name), pre + [t.inode.name])
  }

  /** It consists of the segments that exist and one more. */
  lemma {:induction false} MissedPathIs(t: Forest, mounts: set<Inode>, left: Inode?, above: Inode?, name: string, pre: seq<string>)
    requires Search(t, mounts, left, above, name).node == null
    ensures Existing(t, name) < |Segments(name)|
    ensures MissedPath(t, name, pre) == (pre + Segments(name))[..|pre| + Existing(t, name) + 1]
    decreases t
  {
    hide SegmentLength, Before, Segments, FirstSegment, NextName;
    ExistingDepth(t, mounts, left, above, name);
    if AtHead(t, name) {
      assert (pre + Segments(name))[..|pre| + 1] == pre + [FirstSegment(name)];
    } else if FirstSegment(name) != t.inode.name {
      MissedPathIs(t.peer, mounts, t.inode, above, name, pre);
    } else {
      MissedPathIs(t.child, mounts, null, t.inode, NextName(name), pre + [t.inode.name]);
      SegmentsStep(name, pre);
    }
  }

  lemma {:induction false} MissedPathExtends(t: Forest, name: string, pre: seq<string>)
    ensures var key := MissedPath(t, name, pre);
            |key| > |pre| && key[..|pre|] == pre && key[|pre|] == FirstSegment(name)
    decreases t
  {
    hide SegmentLength, Before;
    if AtHead(t, name) {
    } else if FirstSegment(name) != t.inode.name {
      MissedPathExtends(t.peer, name, pre);
    } else {
      var pre' := pre + [t.inode.name];
      MissedPathExtends(t.child, NextName(name), pre');
      var key := MissedPath(t, name, pre);
      assert key[..|pre|] == key[..|pre'|][..|pre|] == pre;
      assert key[|pre|] == key[..|pre'|][|pre|];
    }
  }

  /** The map gains exactly the missed path. */
  lemma {:induction false} PlacePaths(t: Forest, mounts: set<Inode>, left: Inode?, above: Inode?,
                                      name: string, n: Inode, pre: seq<string>)
    requires Sorted(t) && Search(t, mounts, left, above, name).node == null
    requires n.name == FirstSegment(Search(t, mounts, left, above, name).rest)
    ensures Paths(Place(t, name, n), pre) == Paths(t, pre)[MissedPath(t, name, pre) := n]
    decreases t
  {
    hide SegmentLength, Before, Paths, Segments;
    MissedPathExtends(t, name, pre);
    if AtHead(t, name) {
      PathsOfFirst(n, t, pre);
    } else if FirstSegment(name) != t.inode.name {
      PlacePaths(t.peer, mounts, t.inode, above, name, n, pre);
      PathsOfPeer(t, Place(t.peer, name, n), pre, MissedPath(t, name, pre), n);
    } else {
      var pre' := pre + [t.inode.name];
      PlacePaths(t.child, mounts, null, t.inode, NextName(name), n, pre');
      MissedPathExtends(t.child, NextName(name), pre');
      PathsOfChild(t, Place(t.child, NextName(name), n), pre, MissedPath(t, name, pre), n);
    }
  }

  lemma PathsOfFirst(n: Inode, t: Forest, pre: seq<string>)
    ensures Paths(Node(n, Nil, t), pre) == Paths(t, pre)[pre + [n.name] := n]
  {}

  lemma PathsOfPeer(t: Forest, p': Forest, pre: seq<string>, key: seq<string>, n: Inode)
    requires t.Node? && |key| > |pre| && key[|pre|] != t.inode.name
    requires Paths(p', pre) == Paths(t.peer, pre)[key := n]
    ensures Paths(t.(peer := p'), pre) == Paths(t, pre)[key := n]
  {}

  lemma PathsOfChild(t: Forest, c': Forest, pre: seq<string>, key: seq<string>, n: Inode)
    requires t.Node? && Sorted(t)
    requires |key| > |pre| + 1 && key[|pre|] == t.inode.name
    requires Paths(c', pre + [t.inode.name]) == Paths(t.child, pre + [t.inode.name])[key := n]
    ensures Paths(t.(child := c'), pre) == Paths(t, pre)[key := n]
  {
    if key in Paths(t.peer, pre) {
      PathsExtend(t.peer, pre, key);
      BeforeTotal(t.inode.name, t.inode.name);
      BeforeTotal(t.inode.name, t.peer.inode.name);
    }
  }

  lemma {:induction false} MissedPathIsNew(t: Forest, mounts: set<Inode>, left: Inode?, above: Inode?, name: string, pre: seq<string>)
    requires Sorted(t) && Search(t, mounts, left, above, name).node == null
    ensures MissedPath(t, name, pre) !in Paths(t, pre)
    decreases t
  {
    hide SegmentLength, Before, Paths, Segments;
    var key := MissedPath(t, name, pre);
    MissedPathExtends(t, name, pre);
    if AtHead(t, name) {
      if key in Paths(t, pre) {
        PathsExtend(t, pre, key);
        BeforeTotal(t.inode.name, FirstSegment(name));
      }
    } else if FirstSegment(name) != t.inode.name {
      MissedPathIsNew(t.peer, mounts, t.inode, above, name, pre);
      PathsSplit(t, pre, key);
    } else {
      var pre' := pre + [t.inode.name];
      MissedPathIsNew(t.child, mounts, null, t.inode, NextName(name), pre');
      MissedPathExtends(t.child, NextName(name), pre');
      PathsSplit(t, pre, key);
    }
  }

  /** One more segment of the path exists afterwards. */
  lemma {:induction false} PlaceExisting(t: Forest, mounts: set<Inode>, left: Inode?, above: Inode?, name: string, n: Inode)
    requires Search(t, mounts, left, above, name).node == null
    requires n.name == FirstSegment(Search(t, mounts, left, above, name).rest)
    ensures Existing(Place(t, name, n), name) == Existing(t, name) + 1
    decreases t
  {
    hide SegmentLength, Before, Segments;
    BeforeTotal(FirstSegment(name), FirstSegment(name));
    if AtHead(t, name) {
    } else if FirstSegment(name) != t.inode.name {
      PlaceExisting(t.peer, mounts, t.inode, above, name, n);
    } else {
      PlaceExisting(t.child, mounts, null, t.inode, NextName(name), n);
    }
  }

  /** The existing part of the path names the inode the search stopped below. */
  lemma {:induction false} ExistingPath(t: Forest, mounts: set<Inode>, left: Inode?, above: Inode?, name: string, pre: seq<string>)
    requires Sorted(t) && Search(t, mounts, left, above, name).node == null
    ensures |MissedPath(t, name, pre)| == |pre| + Existing(t, name) + 1
    ensures var k := Existing(t, name);
            var p := MissedPath(t, name, pre)[..|pre| + k];
            && (k == 0 ==> Search(t, mounts, left, above, name).above == above)
            && (k > 0 ==> p in Paths(t, pre) && Paths(t, pre)[p] == Search(t, mounts, left, above, name).above)
    decreases t
  {
    hide SegmentLength, Before, Paths, Segments;
    MissedPathExtends(t, name, pre);
    if AtHead(t, name) {
    } else if FirstSegment(name) != t.inode.name {
      ExistingPath(t.peer, mounts, t.inode, above, name, pre);
      ExistingPathPeer(t, name, pre, Existing(t, name));
    } else {
      var pre' := pre + [t.inode.name];
      ExistingPath(t.child, mounts, null, t.inode, NextName(name), pre');
      MissedPathExtends(t.child, NextName(name), pre');
      ExistingPathChild(t, name, pre, Existing(t, name));
    }
  }

  lemma ExistingPathPeer(t: Forest, name: string, pre: seq<string>, k: nat)
    requires Sorted(t) && t.Node? && FirstSegment(name) != t.inode.name
    requires |MissedPath(t, name, pre)| == |pre| + k + 1 && MissedPath(t, name, pre)[..|pre|] == pre
    requires MissedPath(t, name, pre)[|pre|] == FirstSegment(name)
    ensures k > 0 ==> SameAt(Paths(t, pre), Paths(t.peer, pre), MissedPath(t, name, pre)[..|pre| + k])
  {
    hide SegmentLength, Before, Paths, Segments, MissedPath;
    var p := MissedPath(t, name, pre)[..|pre| + k];
    if k > 0 {
      assert p[..|pre|] == MissedPath(t, name, pre)[..|pre|];
      PathsSplit(t, pre, p);
    }
  }

  lemma ExistingPathChild(t: Forest, name: string, pre: seq<string>, k: nat)
    requires Sorted(t) && t.Node? && k > 0
    requires |MissedPath(t, name, pre)| == |pre| + k + 1
    requires MissedPath(t, name, pre)[..|pre| + 1] == pre + [t.inode.name]
    ensures var p := MissedPath(t, name, pre)[..|pre| + k];
            && (k == 1 ==> p in Paths(t, pre) && Paths(t, pre)[p] == t.inode)
            && (k > 1 ==> SameAt(Paths(t, pre), Paths(t.child, pre + [t.inode.name]), p))
  {
    hide SegmentLength, Before, Paths, Segments, MissedPath;
    var pre' := pre + [t.inode.name];
    var p := MissedPath(t, name, pre)[..|pre| + k];
    assert p[..|pre'|] == MissedPath(t, name, pre)[..|pre'|];
    assert p[..|pre|] == p[..|pre'|][..|pre|] == pre;
    assert p[|pre|] == p[..|pre'|][|pre|] == t.inode.name;
    if k == 1 { assert p == pre'; }
    PathsSplit(t, pre, p);
  }

  /** The prefixes of a segment list that are longer than `from` and at most `to`. */
  function Prefixes(segs: seq<string>, from: nat, to: nat): set<seq<string>>
    requires to <= |segs|
  {
    set j | from < j <= to :: segs[..j]
  }

  /** `m'` is `m` with the prefixes of `segs` from `from` up to `to` added. */
  predicate Grown(m: PathMap, m': PathMap, segs: seq<string>, from: nat, to: nat) {
    && from <= to <= |segs|
    && m'.Keys == m.Keys + Prefixes(segs, from, to)
    && m.Keys !! Prefixes(segs, from, to)
    && forall s | s in m :: m'[s] == m[s]
  }

  lemma GrownStart(m: PathMap, segs: seq<string>, from: nat)
    requires from <= |segs|
    ensures Grown(m, m, segs, from, from)
  {
    assert Prefixes(segs, from, from) == {};
  }

  lemma GrownStep(m: PathMap, m': PathMap, segs: seq<string>, from: nat, to: nat, n: Inode)
    requires Grown(m, m', segs, from, to) && to < |segs| && segs[..to + 1] !in m'
    ensures Grown(m, m'[segs[..to + 1] := n], segs, from, to + 1)
  {
    assert Prefixes(segs, from, to + 1) == Prefixes(segs, from, to) + {segs[..to + 1]};
  }

  /** Placing the missing inode adds the next prefix of the searched path to the map. */
  lemma PlaceGrows(t: Forest, mounts: set<Inode>, name: string, n: Inode, m: PathMap, from: nat)
    requires Sorted(t) && Misses(t, mounts, name)
    requires n.name == FirstSegment(Search(t, mounts, null, null, name).rest)
    requires Grown(m, Paths(t, []), Segments(name), from, Existing(t, name))
    ensures Existing(t, name) < |Segments(name)| && Existing(Place(t, name, n), name) == Existing(t, name) + 1
    ensures Grown(m, Paths(Place(t, name, n), []), Segments(name), from, Existing(t, name) + 1)
    ensures Segments(name)[..Existing(t, name) + 1] in Paths(Place(t, name, n), [])
    ensures Paths(Place(t, name, n), [])[Segments(name)[..Existing(t, name) + 1]] == n
  {
    hide Paths, Search, Place, Segments, SegmentLength, Before, MissedPath, Existing;
    PlacePaths(t, mounts, null, null, name, n, []);
    MissedPathIs(t, mounts, null, null, name, []);
    MissedPathIsNew(t, mounts, null, null, name, []);
    PlaceExisting(t, mounts, null, null, name, n);
    assert [] + Segments(name) == Segments(name);
    GrownStep(m, Paths(t, []), Segments(name), from, Existing(t, name), n);
  }

  // ---------------------------------------------------------------- the insertion point

  /** The inodes of a sibling list, in order. */
  function Siblings(t: Forest): seq<Inode> {
    if t.Nil? then [] else [t.inode] + Siblings(t.peer)
  }

  /** The sibling list below an inode. */
  function Below(t: Forest, x: Inode): Forest
    requires x in Nodes(t)
  {
    if x == t.inode then t.child else if x in Nodes(t.child) then Below(t.child, x) else Below(t.peer, x)
  }

  /** Position `i` of the list is where a node named `seg` belongs. */
  predicate Gap(list: seq<Inode>, i: nat, seg: string) {
    && i <= |list|
    && (forall j | 0 <= j < i :: Before(list[j].name, seg))
    && (forall j | i <= j < |list| :: Before(seg, list[j].name))
  }

  lemma GapUnique(list: seq<Inode>, i: nat, j: nat, seg: string)
    requires Gap(list, i, seg) && Gap(list, j, seg)
    ensures i == j
  {
    if i < j { BeforeTotal(list[i].name, seg); }
    if j < i { BeforeTotal(list[j].name, seg); }
  }

  /** The list that a result's `above` designates: its children, or the list itself. */
  function ListBelow(t: Forest, above: Inode?): seq<Inode>
    requires above != null ==> above in Nodes(t)
  {
    if above == null then Siblings(t) else Siblings(Below(t, above))
  }

  /** When a search misses, `above` designates the sibling list in which the next segment
      belongs, and `left` the node in front of the one sorted position for it. */
  lemma InsertionPoint(t: Forest, mounts: set<Inode>, name: string) returns (i: nat)
    requires Sorted(t) && Distinct(t) && Misses(t, mounts, name)
    ensures var r := Search(t, mounts, null, null, name);
            && (r.above != null ==> r.above in Nodes(t))
            && Gap(ListBelow(t, r.above), i, FirstSegment(r.rest))
            && r.left == if i == 0 then null else ListBelow(t, r.above)[i - 1]
  {
    i := InsertionPointFrom(t, mounts, null, null, name);
  }

  /** `list` has room for `seg` at `i`, just behind `left` (behind `first` at the front). */
  predicate Located(list: seq<Inode>, i: nat, seg: string, left: Inode?, first: Inode?) {
    Gap(list, i, seg) && left == if i == 0 then first else list[i - 1]
  }

  lemma {:induction false} InsertionPointFrom(t: Forest, mounts: set<Inode>, left: Inode?, above: Inode?, name: string)
    returns (i: nat)
    requires Sorted(t) && Distinct(t) && above !in Nodes(t)
    requires Search(t, mounts, left, above, name).node == null
    ensures var r := Search(t, mounts, left, above, name);
            if r.above == above then Located(Siblings(t), i, FirstSegment(r.rest), r.left, left)
            else && r.above != null && r.above in Nodes(t)
                 && Located(Siblings(Below(t, r.above)), i, FirstSegment(r.rest), r.left, null)
    decreases t
  {
    hide SegmentLength, Before, Segments, Siblings, Located;
    var r := Search(t, mounts, left, above, name);
    if AtHead(t, name) {
      i := 0;
      LocatedFirst(t, FirstSegment(name), left);
    } else if FirstSegment(name) != t.inode.name {
      i := InsertionPointFrom(t.peer, mounts, t.inode, above, name);
      if r.above == above {
        BeforeTotal(FirstSegment(name), t.inode.name);
        StaysInList(t.peer, mounts, t.inode, above, name);
        LocatedLater(t, i, FirstSegment(name), r.left, left);
        i := i + 1;
      }
    } else {
      i := InsertionPointFrom(t.child, mounts, null, t.inode, NextName(name));
      AboveInside(t.child, mounts, null, t.inode, NextName(name));
    }
  }

  lemma LocatedFirst(t: Forest, seg: string, first: Inode?)
    requires Sorted(t) && (t.Node? ==> Before(seg, t.inode.name))
    ensures Located(Siblings(t), 0, seg, first, first)
  {
    hide Before;
    if t.Node? { HeadIsLeast(t, seg); }
  }

  lemma LocatedLater(t: Forest, i: nat, seg: string, left: Inode?, first: Inode?)
    requires t.Node? && Before(t.inode.name, seg) && Located(Siblings(t.peer), i, seg, left, t.inode)
    ensures Located(Siblings(t), i + 1, seg, left, first)
  {
    hide Before;
    assert Siblings(t)[1..] == Siblings(t.peer);
    forall j | 0 <= j < i + 1 ensures Before(Siblings(t)[j].name, seg) {
      if j > 0 { assert Siblings(t)[j] == Siblings(t.peer)[j - 1]; }
    }
  }

  /** Names in front of the head are in front of the whole list. */
  lemma {:induction false} HeadIsLeast(t: Forest, seg: string)
    requires t.Node? && Sorted(t) && Before(seg, t.inode.name)
    ensures forall j | 0 <= j < |Siblings(t)| :: Before(seg, Siblings(t)[j].name)
  {
    hide Before;
    if t.peer.Node? {
      BeforeTransitive(seg, t.inode.name, t.peer.inode.name);
      HeadIsLeast(t.peer, seg);
    }
  }

  lemma {:induction false} StaysInList(t: Forest, mounts: set<Inode>, left: Inode?, above: Inode?, name: string)
    requires Distinct(t) && above !in Nodes(t)
    requires Search(t, mounts, left, above, name).node == null
    requires Search(t, mounts, left, above, name).above == above
    ensures Search(t, mounts, left, above, name).rest == name
    decreases t
  {
    hide SegmentLength, Before;
    if AtHead(t, name) {
    } else if FirstSegment(name) != t.inode.name {
      StaysInList(t.peer, mounts, t.inode, above, name);
    } else {
      MissInside(t.child, mounts, null, t.inode, NextName(name));
      AboveInside(t.child, mounts, null, t.inode, NextName(name));
    }
  }

  lemma {:induction false} AboveInside(t: Forest, mounts: set<Inode>, left: Inode?, above: Inode?, name: string)
    ensures var r := Search(t, mounts, left, above, name);
            r.above == above || (r.above != null && r.above in Nodes(t))
    decreases t
  {
    hide SegmentLength, Before;
    if AtHead(t, name) {
    } else if FirstSegment(name) != t.inode.name {
      AboveInside(t.peer, mounts, t.inode, above, name);
    } else {
      AboveInside(t.child, mounts, null, t.inode, NextName(name));
    }
  }
}
