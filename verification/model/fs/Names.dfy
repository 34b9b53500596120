/** Path names of the pseudo file system.

    A path is a C string; here it is a `string`, and the end of the sequence plays the
    part of the terminating NUL.  `FirstSegment`, `NextName` and `Segments` say what a
    name denotes; the methods are the pointer loops that the file system runs on it. */
module Names {

  /** Number of characters before the first '/' or the end of the name. */
  function SegmentLength(name: string): (n: nat)
    ensures n <= |name|
    ensures n < |name| ==> name[n] == '/'
    ensures '/' !in name[..n]
  {
    if name == "" || name[0] == '/' then 0 else 1 + SegmentLength(name[1..])
  }

  function FirstSegment(name: string): string {
    name[..SegmentLength(name)]
  }

  /** What follows the first '/', or the empty name. */
  function NextName(name: string): (rest: string)
    ensures name == "" || |rest| < |name|
  {
    var n := SegmentLength(name);
    if n < |name| then name[n + 1..] else ""
  }

  /** The list of segments a name denotes.  It is never empty: "" and "/" both denote the
      one empty segment, and a single trailing '/' is dropped. */
  function Segments(name: string): (segs: seq<string>)
    ensures |segs| >= 1 && segs[0] == FirstSegment(name)
    decreases |name|
  {
    [FirstSegment(name)] + if NextName(name) == "" then [] else Segments(NextName(name))
  }

  lemma SegmentsStep(name: string, pre: seq<string>)
    requires NextName(name) != ""
    ensures pre + Segments(name) == pre + [FirstSegment(name)] + Segments(NextName(name))
    ensures |Segments(name)| == 1 + |Segments(NextName(name))|
  {
    hide SegmentLength;
  }

  lemma SegmentCount(name: string)
    ensures |Segments(name)| == if NextName(name) == "" then 1 else 1 + |Segments(NextName(name))|
  {
    hide SegmentLength, FirstSegment;
  }

  /** The path with these segments. */
  function Join(segs: seq<string>): string
    requires segs != []
  {
    if |segs| == 1 then segs[0] else segs[0] + "/" + Join(segs[1..])
  }

  predicate Slashless(segs: seq<string>) {
    forall i | 0 <= i < |segs| :: '/' !in segs[i]
  }

  /** What a path made of segments denotes: those segments, except that an empty last one is
      dropped. */
  lemma {:induction false} SegmentsOfJoin(segs: seq<string>)
    requires segs != [] && Slashless(segs)
    ensures Segments(Join(segs)) == if |segs| > 1 && segs[|segs| - 1] == "" then segs[..|segs| - 1] else segs
    decreases |segs|
  {
    hide Segments;
    SegmentsCons(segs[0], if |segs| == 1 then "" else Join(segs[1..]));
    if |segs| == 1 {
      assert segs == [segs[0]];
    } else {
      assert segs == [segs[0]] + segs[1..];
      if |segs| == 2 && segs[1] == "" {
        assert segs[..1] == [segs[0]];
      } else {
        SegmentsOfJoin(segs[1..]);
        if segs[|segs| - 1] == "" { assert segs[..|segs| - 1] == [segs[0]] + segs[1..][..|segs| - 2]; }
      }
    }
  }

  lemma SegmentsCons(seg: string, rest: string)
    requires '/' !in seg
    ensures Segments(seg) == [seg]
    ensures Segments(seg + "/" + rest) == [seg] + if rest == "" then [] else Segments(rest)
  {
    hide SegmentLength;
    FirstOf(seg, "");
    assert seg + "" == seg;
    FirstOf(seg, "/" + rest);
    assert seg + ("/" + rest) == seg + "/" + rest && ("/" + rest)[1..] == rest;
  }

  lemma {:induction false} FirstOf(seg: string, rest: string)
    requires '/' !in seg && (rest == "" || rest[0] == '/')
    ensures SegmentLength(seg + rest) == |seg|
    ensures FirstSegment(seg + rest) == seg && NextName(seg + rest) == if rest == "" then "" else rest[1..]
    decreases |seg|
  {
    if seg != "" {
      FirstOf(seg[1..], rest);
      assert (seg + rest)[1..] == seg[1..] + rest;
    } else {
      assert seg + rest == rest;
    }
    assert (seg + rest)[..|seg|] == seg;
    if rest != "" { assert (seg + rest)[|seg| + 1..] == rest[1..]; }
  }

  /** The part of a name left after its first `k` segments. */
  function AfterSegments(name: string, k: nat): string
    decreases k
  {
    if k == 0 then name else AfterSegments(NextName(name), k - 1)
  }

  /** Strict lexicographic order of node names. */
  predicate Before(a: string, b: string) {
    b != "" && (a == "" || a[0] < b[0] || (a[0] == b[0] && Before(a[1..], b[1..])))
  }

  /** `a` comes first by the characters at place `k`: what is in front is the same, and there
      `a` ends or has the smaller one. */
  predicate FirstDifference(a: string, b: string, k: nat) {
    k <= |a| && k < |b| && a[..k] == b[..k] && (k == |a| || a[k] < b[k])
  }

  lemma SameStart(a: string, b: string, k: nat)
    requires FirstDifference(a, b, k)
    ensures k > 0 ==> a != "" && a[0] == b[0]
  {
    if k > 0 { assert a[0] == a[..k][0] == b[..k][0] == b[0]; }
  }

  lemma {:induction false} BeforeIff(a: string, b: string)
    ensures Before(a, b) <==> exists k: nat :: FirstDifference(a, b, k)
    decreases |a|
  {
    if a != "" && b != "" && a[0] == b[0] {
      BeforeIff(a[1..], b[1..]);
      if Before(a, b) {
        var k: nat :| FirstDifference(a[1..], b[1..], k);
        assert a[..k + 1] == [a[0]] + a[1..][..k] && b[..k + 1] == [b[0]] + b[1..][..k];
        assert FirstDifference(a, b, k + 1);
      }
      if k: nat :| FirstDifference(a, b, k) {
        assert a[1..][..k - 1] == a[..k][1..] && b[1..][..k - 1] == b[..k][1..];
        assert FirstDifference(a[1..], b[1..], k - 1);
      }
    } else if b != "" {
      if Before(a, b) { assert FirstDifference(a, b, 0); }
      if k: nat :| FirstDifference(a, b, k) { SameStart(a, b, k); }
    }
  }

  lemma {:induction false} BeforeTransitive(a: string, b: string, c: string)
    requires Before(a, b) && Before(b, c)
    ensures Before(a, c)
  {
    if a != "" && a[0] == b[0] && b[0] == c[0] {
      BeforeTransitive(a[1..], b[1..], c[1..]);
    }
  }

  lemma {:induction false} BeforeTotal(a: string, b: string)
    ensures Before(a, b) || a == b || Before(b, a)
    ensures !(Before(a, b) && Before(b, a)) && !Before(a, a)
  {
    if a != "" && b != "" && a[0] == b[0] {
      BeforeTotal(a[1..], b[1..]);
      BeforeTotal(a[1..], a[1..]);
      assert a == [a[0]] + a[1..] && b == [b[0]] + b[1..];
    } else if a != "" {
      BeforeTotal(a[1..], a[1..]);
    }
  }

  /** A common prefix can be cancelled from a comparison. */
  lemma {:induction false} BeforeCancel(a: string, b: string, i: nat)
    requires i <= |a| && i <= |b| && a[..i] == b[..i]
    ensures Before(a, b) <==> Before(a[i..], b[i..])
    ensures a == b <==> a[i..] == b[i..]
  {
    if i == 0 {
      assert a[0..] == a && b[0..] == b;
    } else {
      assert a[0] == a[..i][0] == b[..i][0] == b[0];
      assert a[1..][..i - 1] == a[..i][1..] == b[..i][1..] == b[1..][..i - 1];
      BeforeCancel(a[1..], b[1..], i - 1);
      assert a[1..][i - 1..] == a[i..] && b[1..][i - 1..] == b[i..];
      assert a == a[..i] + a[i..] && b == b[..i] + b[i..];
    }
  }

  /** Three-way comparison of the first segment of `fname` with a node name. */
  method InodeCompare(fname: string, nname: string) returns (result: int)
    ensures result < 0 <==> Before(FirstSegment(fname), nname)
    ensures result == 0 <==> FirstSegment(fname) == nname
    ensures result > 0 <==> Before(nname, FirstSegment(fname))
  {
    ghost var seg := FirstSegment(fname);
    BeforeTotal(seg, nname);
    var i := 0;
    while true
      invariant 0 <= i <= |seg| && i <= |nname|
      invariant seg[..i] == nname[..i]
      decreases |nname| - i
    {
      BeforeCancel(seg, nname, i);
      BeforeCancel(nname, seg, i);
      assert i < |seg| <==> i < |fname| && fname[i] != '/' by { SegmentStops(fname, i); }
      if i == |nname| {
        return if i == |fname| || fname[i] == '/' then 0 else 1;
      } else if i == |fname| || fname[i] == '/' {
        return -1;
      } else if fname[i] > nname[i] {
        return 1;
      } else if fname[i] < nname[i] {
        return -1;
      }
      i := i + 1;
    }
  }

  lemma SegmentStops(name: string, i: nat)
    requires i <= SegmentLength(name)
    ensures i < SegmentLength(name) <==> i < |name| && name[i] != '/'
  {
    if i < SegmentLength(name) {
      assert name[i] == name[..SegmentLength(name)][i];
    }
  }

  /** Skips one segment and the '/' that ends it. */
  method InodeNextName(name: string) returns (rest: string)
    ensures rest == NextName(name)
  {
    var i := 0;
    while i < |name| && name[i] != '/'
      invariant 0 <= i <= SegmentLength(name)
    {
      SegmentStops(name, i);
      i := i + 1;
    }
    SegmentStops(name, i);
    if i < |name| {
      i := i + 1;
    }
    return name[i..];
  }

  /** Dropping `k` segments from a name drops `k` entries from its segment list. */
  lemma {:induction false} AfterSegmentsDrops(name: string, k: nat)
    requires k < |Segments(name)|
    ensures Segments(AfterSegments(name, k)) == Segments(name)[k..]
  {
    if k > 0 {
      AfterSegmentsDrops(NextName(name), k - 1);
      assert Segments(name)[1..] == Segments(NextName(name));
      assert Segments(name)[k..] == Segments(name)[1..][k - 1..];
    }
  }

  /** The rest after `k` segments is a suffix of the name, cut just behind a '/'
      unless it is empty. */
  predicate CutBehindSlash(name: string, rest: string) {
    && |rest| < |name| && rest == name[|name| - |rest|..]
    && (rest != "" ==> name[|name| - |rest| - 1] == '/')
  }

  predicate IsRest(name: string, rest: string) {
    (name == "" && rest == "") || CutBehindSlash(name, rest)
  }

  lemma {:induction false} AfterSegmentsSuffix(name: string, k: nat)
    requires k > 0
    ensures IsRest(name, AfterSegments(name, k))
    decreases k
  {
    var next := NextName(name);
    if name == "" {
      AfterNothing(k);
    } else {
      assert CutBehindSlash(name, next) by { assert next == name[|name| - |next|..]; }
      if k > 1 {
        AfterSegmentsSuffix(next, k - 1);
        CutTransitive(name, next, AfterSegments(next, k - 1));
      }
    }
  }

  lemma {:induction false} AfterNothing(k: nat)
    ensures AfterSegments("", k) == ""
  {
    if k > 0 { AfterNothing(k - 1); }
  }

  lemma CutTransitive(name: string, next: string, rest: string)
    requires CutBehindSlash(name, next)
    requires IsRest(next, rest)
    ensures CutBehindSlash(name, rest)
  {
    var off := |name| - |next|;
    assert forall i | 0 <= i < |next| :: next[i] == name[off + i];
    if next != "" {
      assert rest == name[|name| - |rest|..];
    }
  }
}
