/** Unlinking the inode that a search found, together with what is below it. */
module Cutting {
  import opened Names
  import opened Forests
  import opened Placing

  /** The search for `name` ends at the first node of this list. */
  predicate EndsHere(t: Forest, mounts: set<Inode>, name: string) {
    t.Node? && FirstSegment(name) == t.inode.name && (NextName(name) == "" || t.inode in mounts)
  }

  function Cut(t: Forest, mounts: set<Inode>, name: string): Forest
    decreases t
  {
    if AtHead(t, name) then t
    else if FirstSegment(name) != t.inode.name then t.(peer := Cut(t.peer, mounts, name))
    else if EndsHere(t, mounts, name) then t.peer
    else t.(child := Cut(t.child, mounts, NextName(name)))
  }

  /** What was below the unlinked inode. */
  function CutOff(t: Forest, mounts: set<Inode>, name: string): Forest
    decreases t
  {
    if AtHead(t, name) then Nil
    else if FirstSegment(name) != t.inode.name then CutOff(t.peer, mounts, name)
    else if EndsHere(t, mounts, name) then t.child
    else CutOff(t.child, mounts, NextName(name))
  }

  predicate Finds(t: Forest, mounts: set<Inode>, left: Inode?, above: Inode?, name: string) {
    Search(t, mounts, left, above, name).node != null
  }

  /** The nodes are divided between what stays, the unlinked inode and what is below it. */
  lemma {:induction false} CutNodes(t: Forest, mounts: set<Inode>, left: Inode?, above: Inode?, name: string)
    requires Distinct(t) && Finds(t, mounts, left, above, name)
    ensures var n := Search(t, mounts, left, above, name).node;
            var stay, off := Nodes(Cut(t, mounts, name)), Nodes(CutOff(t, mounts, name));
            && Nodes(t) == stay + {n} + off
            && n !in stay && n !in off && stay !! off
    ensures Distinct(Cut(t, mounts, name)) && Distinct(CutOff(t, mounts, name))
    decreases t
  {
    hide SegmentLength, Before;
    BeforeTotal(FirstSegment(name), FirstSegment(name));
    if FirstSegment(name) != t.inode.name {
      CutNodes(t.peer, mounts, t.inode, above, name);
    } else if !EndsHere(t, mounts, name) {
      CutNodes(t.child, mounts, null, t.inode, NextName(name));
    }
  }

  lemma {:induction false} CutSorted(t: Forest, mounts: set<Inode>, left: Inode?, above: Inode?, name: string)
    requires Sorted(t) && Finds(t, mounts, left, above, name)
    ensures var c := Cut(t, mounts, name);
            Sorted(c) && (c.Node? ==> c.inode == t.inode || Before(t.inode.name, c.inode.name))
    ensures Sorted(CutOff(t, mounts, name))
    decreases t
  {
    hide SegmentLength, Before;
    if FirstSegment(name) != t.inode.name {
      CutSorted(t.peer, mounts, t.inode, above, name);
      var c := Cut(t.peer, mounts, name);
      if c.Node? && c.inode != t.peer.inode {
        BeforeTransitive(t.inode.name, t.peer.inode.name, c.inode.name);
      }
    } else if !EndsHere(t, mounts, name) {
      CutSorted(t.child, mounts, null, t.inode, NextName(name));
    }
  }

  lemma {:induction false} CutMounts(t: Forest, mounts: set<Inode>, left: Inode?, above: Inode?, name: string)
    requires MountsChildless(t, mounts) && Finds(t, mounts, left, above, name)
    ensures MountsChildless(Cut(t, mounts, name), mounts)
    ensures MountsChildless(CutOff(t, mounts, name), mounts)
    decreases t
  {
    hide SegmentLength, Before;
    if FirstSegment(name) != t.inode.name {
      CutMounts(t.peer, mounts, t.inode, above, name);
    } else if !EndsHere(t, mounts, name) {
      CutMounts(t.child, mounts, null, t.inode, NextName(name));
    }
  }

  /** The found node and its neighbours belong to the list that was searched. */
  lemma {:induction false} FoundInside(t: Forest, mounts: set<Inode>, left: Inode?, above: Inode?, name: string)
    requires Distinct(t) && Finds(t, mounts, left, above, name)
    ensures var r := Search(t, mounts, left, above, name);
            && r.node in Nodes(t)
            && (if EndsHere(t, mounts, name) then r.node == t.inode && r.left == left && r.above == above
                else if r.left != null then r.left in Nodes(t) && r.left != r.node
                else r.above != null && r.above in Nodes(t) && r.above != r.node)
    decreases t
  {
    hide SegmentLength, Before;
    if FirstSegment(name) != t.inode.name {
      FoundInside(t.peer, mounts, t.inode, above, name);
    } else if !EndsHere(t, mounts, name) {
      FoundInside(t.child, mounts, null, t.inode, NextName(name));
    }
  }

  /** The pointer updates of unlinking: `left` or else `above` skips the found node. */
  lemma {:induction false} CutLinks(t: Forest, mounts: set<Inode>, left: Inode?, above: Inode?, name: string, x: Inode)
    requires Distinct(t) && Finds(t, mounts, left, above, name)
    requires left !in Nodes(t) && above !in Nodes(t)
    requires x in Nodes(Cut(t, mounts, name))
    ensures var r := Search(t, mounts, left, above, name);
            && x in Nodes(t) && r.node in Nodes(t)
            && Links(Cut(t, mounts, name), x) ==
                (if r.left == null && x == r.above then Links(t, r.node).1 else Links(t, x).0,
                 if x == r.left then Links(t, r.node).1 else Links(t, x).1)
    decreases t
  {
    hide SegmentLength, Before;
    CutNodes(t, mounts, left, above, name);
    FoundInside(t, mounts, left, above, name);
    if FirstSegment(name) != t.inode.name {
      CutNodes(t.peer, mounts, t.inode, above, name);
      FoundInside(t.peer, mounts, t.inode, above, name);
      if x in Nodes(Cut(t.peer, mounts, name)) { CutLinks(t.peer, mounts, t.inode, above, name, x); }
    } else if !EndsHere(t, mounts, name) {
      CutNodes(t.child, mounts, null, t.inode, NextName(name));
      FoundInside(t.child, mounts, null, t.inode, NextName(name));
      if x in Nodes(Cut(t.child, mounts, NextName(name))) { CutLinks(t.child, mounts, null, t.inode, NextName(name), x); }
    }
  }

  /** The head of the list changes exactly when the head is unlinked. */
  lemma CutHead(t: Forest, mounts: set<Inode>, name: string)
    requires Distinct(t) && Finds(t, mounts, null, null, name)
    ensures var r := Search(t, mounts, null, null, name);
            && r.node in Nodes(t)
            && (r.left != null ==> r.left in Nodes(t)) && (r.above != null ==> r.above in Nodes(t))
            && Head(Cut(t, mounts, name)) == if r.left == null && r.above == null then Links(t, r.node).1 else Head(t)
  {
    FoundInside(t, mounts, null, null, name);
    AboveInside(t, mounts, null, null, name);
  }

  /** The unlinked subtree keeps its pointers. */
  lemma {:induction false} CutOffLinks(t: Forest, mounts: set<Inode>, left: Inode?, above: Inode?, name: string, x: Inode)
    requires Distinct(t) && Finds(t, mounts, left, above, name)
    requires x in Nodes(CutOff(t, mounts, name))
    ensures x in Nodes(t) && Links(CutOff(t, mounts, name), x) == Links(t, x)
    decreases t
  {
    hide SegmentLength, Before;
    CutNodes(t, mounts, left, above, name);
    if FirstSegment(name) != t.inode.name {
      CutNodes(t.peer, mounts, t.inode, above, name);
      CutOffLinks(t.peer, mounts, t.inode, above, name, x);
    } else if !EndsHere(t, mounts, name) {
      CutNodes(t.child, mounts, null, t.inode, NextName(name));
      CutOffLinks(t.child, mounts, null, t.inode, NextName(name), x);
    }
  }

  lemma {:induction false} CutOffHead(t: Forest, mounts: set<Inode>, left: Inode?, above: Inode?, name: string)
    requires Distinct(t) && Finds(t, mounts, left, above, name)
    ensures var n := Search(t, mounts, left, above, name).node;
            n in Nodes(t) && Links(t, n).0 == Head(CutOff(t, mounts, name))
    decreases t
  {
    hide SegmentLength, Before;
    FoundInside(t, mounts, left, above, name);
    if FirstSegment(name) != t.inode.name {
      FoundInside(t.peer, mounts, t.inode, above, name);
      CutOffHead(t.peer, mounts, t.inode, above, name);
    } else if !EndsHere(t, mounts, name) {
      FoundInside(t.child, mounts, null, t.inode, NextName(name));
      CutOffHead(t.child, mounts, null, t.inode, NextName(name));
    }
  }

  // ---------------------------------------------------------------- the map

  /** The path of the inode that the search ends at. */
  function FoundPath(t: Forest, mounts: set<Inode>, name: string, pre: seq<string>): seq<string>
    decreases t
  {
    if AtHead(t, name) then pre
    else if FirstSegment(name) != t.inode.name then FoundPath(t.peer, mounts, name, pre)
    else if EndsHere(t, mounts, name) then pre + [t.inode.name]
    else FoundPath(t.child, mounts, NextName(name), pre + [t.inode.name])
  }

  lemma {:induction false} FoundPathIs(t: Forest, mounts: set<Inode>, left: Inode?, above: Inode?, name: string, pre: seq<string>)
    requires Sorted(t) && Finds(t, mounts, left, above, name)
    ensures var p := FoundPath(t, mounts, name, pre);
            && |p| > |pre| && p[..|pre|] == pre && p[|pre|] == FirstSegment(name)
            && p in Paths(t, pre) && Paths(t, pre)[p] == Search(t, mounts, left, above, name).node
    decreases t
  {
    hide SegmentLength, Before, Paths;
    var p := FoundPath(t, mounts, name, pre);
    if FirstSegment(name) != t.inode.name {
      FoundPathIs(t.peer, mounts, t.inode, above, name, pre);
      PathsSplit(t, pre, p);
    } else if EndsHere(t, mounts, name) {
      PathsSplit(t, pre, p);
    } else {
      var pre' := pre + [t.inode.name];
      FoundPathIs(t.child, mounts, null, t.inode, NextName(name), pre');
      assert p[..|pre|] == p[..|pre'|][..|pre|] == pre;
      assert p[|pre|] == p[..|pre'|][|pre|];
      PathsSplit(t, pre, p);
    }
  }

  /** Each inode has one path. */
  lemma {:induction false} PathsInjective(t: Forest, pre: seq<string>, s: seq<string>, s': seq<string>)
    requires Sorted(t) && Distinct(t)
    requires s in Paths(t, pre) && s' in Paths(t, pre) && Paths(t, pre)[s] == Paths(t, pre)[s']
    ensures s == s'
    decreases t
  {
    hide Before, Paths;
    PathsWhere(t, pre, s);
    PathsWhere(t, pre, s');
    var x := Paths(t, pre)[s];
    if x in Nodes(t.child) {
      PathsInjective(t.child, pre + [t.inode.name], s, s');
    } else if x in Nodes(t.peer) {
      PathsInjective(t.peer, pre, s, s');
    }
  }

  /** A path of the forest belongs to its first inode, to its children or to its peers. */
  lemma PathsWhere(t: Forest, pre: seq<string>, s: seq<string>)
    requires Sorted(t) && s in Paths(t, pre)
    ensures t.Node?
    ensures var pre' := pre + [t.inode.name];
            var x := Paths(t, pre)[s];
            || (s == pre' && x == t.inode)
            || (s != pre' && s in Paths(t.child, pre') && x == Paths(t.child, pre')[s] && x in Nodes(t.child))
            || (s != pre' && s in Paths(t.peer, pre) && x == Paths(t.peer, pre)[s] && x in Nodes(t.peer))
  {
    var pre' := pre + [t.inode.name];
    PathsExtend(t, pre, s);
    PathsSplit(t, pre, s);
    if s in Paths(t.child, pre') { PathsExtend(t.child, pre', s); }
    if s in Paths(t.peer, pre) { PathsExtend(t.peer, pre, s); }
    if s[|pre|] == t.inode.name && |s| == |pre| + 1 { assert s == pre'; }
  }

  /** Unlinking removes the found path and everything below it, and nothing else. */
  lemma {:induction false} CutPaths(t: Forest, mounts: set<Inode>, left: Inode?, above: Inode?,
                                    name: string, pre: seq<string>, s: seq<string>)
    requires Sorted(t) && Finds(t, mounts, left, above, name)
    ensures var p := FoundPath(t, mounts, name, pre);
            var m, m' := Paths(t, pre), Paths(Cut(t, mounts, name), pre);
            if p <= s then s !in m' else SameAt(m, m', s)
    decreases t
  {
    hide SegmentLength, Before, Paths;
    var p := FoundPath(t, mounts, name, pre);
    var c := Cut(t, mounts, name);
    FoundPathIs(t, mounts, left, above, name, pre);
    CutSorted(t, mounts, left, above, name);
    if !(|s| > |pre| && s[..|pre|] == pre) {
      if s in Paths(t, pre) { PathsExtend(t, pre, s); }
      if s in Paths(c, pre) { PathsExtend(c, pre, s); }
    } else if FirstSegment(name) != t.inode.name {
      CutPaths(t.peer, mounts, t.inode, above, name, pre, s);
      CutSorted(t.peer, mounts, t.inode, above, name);
      PathsSplit(t, pre, s);
      PathsSplit(c, pre, s);
    } else if EndsHere(t, mounts, name) {
      PathsSplit(t, pre, s);
      CutPathsHere(t, mounts, name, pre, s);
    } else {
      var pre' := pre + [t.inode.name];
      CutPaths(t.child, mounts, null, t.inode, NextName(name), pre', s);
      CutSorted(t.child, mounts, null, t.inode, NextName(name));
      FoundPathIs(t.child, mounts, null, t.inode, NextName(name), pre');
      PathsSplit(t, pre, s);
      PathsSplit(c, pre, s);
    }
  }

  lemma CutPathsHere(t: Forest, mounts: set<Inode>, name: string, pre: seq<string>, s: seq<string>)
    requires Sorted(t) && EndsHere(t, mounts, name) && |s| > |pre| && s[..|pre|] == pre
    ensures if pre + [t.inode.name] <= s then s !in Paths(t.peer, pre)
            else SameAt(Paths(t, pre), Paths(t.peer, pre), s)
  {
    var pre' := pre + [t.inode.name];
    assert pre' <= s <==> s[|pre|] == t.inode.name;
    PathsSplit(t, pre, s);
    if s in Paths(t.peer, pre) {
      PathsExtend(t.peer, pre, s);
      BeforeTotal(t.inode.name, t.peer.inode.name);
    }
  }
}
