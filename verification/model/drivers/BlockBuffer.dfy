/** The block read/write buffer on values.

    Blocks are written behind in one run of consecutive blocks (`wr`, starting at `wrStart`)
    and read ahead into a window (`rh`, starting at `rhStart`).  `media` is the contents of
    the device, whose transfers succeed unless said otherwise. */
module BlockBuffer {

  type Block = seq<bv8>

  datatype Config = Config(writeBuffer: bool, readAhead: bool, wrMax: nat, rhMax: nat)

  datatype Buffer = Buffer(media: seq<Block>, wrStart: int, wr: seq<Block>, wrExpected: int,
                           rhStart: int, rh: seq<Block>)

  /** Blocks written to a plain device. */
  function Overwrite(media: seq<Block>, start: nat, data: seq<Block>): (m: seq<Block>)
    requires start + |data| <= |media|
    ensures |m| == |media|
    ensures forall i | 0 <= i < |m| :: m[i] == if start <= i < start + |data| then data[i - start] else media[i]
  {
    media[..start] + data + media[start + |data|..]
  }

  /** Two block ranges, each given by its start and length, overlap or touch. */
  function Overlap(start1: int, n1: nat, start2: int, n2: nat): (r: bool)
    ensures r <==> start1 <= start2 + n2 && start2 <= start1 + n1
  {
    !(start1 + n1 < start2 || start1 > start2 + n2)
  }

  /** Both runs of blocks lie on the device and in their buffers; the write run knows which
      block would continue it. */
  predicate Wf(c: Config, b: Buffer) {
    && |b.wr| <= c.wrMax && |b.rh| <= c.rhMax
    && (!c.writeBuffer ==> b.wr == []) && (!c.readAhead ==> b.rh == [])
    && (b.wr != [] ==> 0 <= b.wrStart && b.wrStart + |b.wr| <= |b.media| && b.wrExpected == b.wrStart + |b.wr|)
    && (b.rh != [] ==> 0 <= b.rhStart && b.rhStart + |b.rh| <= |b.media|)
  }

  /** The contents of the disk as its user must see it: what is pending laid over the media. */
  function Disk(c: Config, b: Buffer): (d: seq<Block>)
    requires Wf(c, b)
    ensures |d| == |b.media|
  {
    if b.wr == [] then b.media else Overwrite(b.media, b.wrStart, b.wr)
  }

  /** A device on which nothing is buffered yet. */
  function Initial(media: seq<Block>): Buffer {
    Buffer(media, -1, [], -1, -1, [])
  }

  /** What is read ahead agrees with the disk. */
  predicate Coherent(c: Config, b: Buffer)
    requires Wf(c, b)
  {
    forall i | 0 <= i < |b.rh| :: b.rh[i] == Disk(c, b)[b.rhStart + i]
  }

  function Flush(c: Config, b: Buffer): Buffer
    requires Wf(c, b)
  {
    if b.wr == [] then b
    else b.(media := Overwrite(b.media, b.wrStart, b.wr), wr := [], wrStart := -1, wrExpected := -1)
  }

  function ResetReadAhead(b: Buffer): Buffer {
    b.(rh := [], rhStart := -1)
  }

  function MediaRemoved(b: Buffer): Buffer {
    ResetReadAhead(b).(wr := [], wrStart := -1, wrExpected := -1)
  }

  // ---------------------------------------------------------------- writing

  predicate OnDevice(b: Buffer, start: nat, n: nat) {
    start + n <= |b.media|
  }

  /** Appends to the write run, flushing it first if the data does not continue it or does
      not fit. */
  function WriteBuffer(c: Config, b: Buffer, start: nat, data: seq<Block>): Buffer
    requires Wf(c, b) && OnDevice(b, start, |data|) && |data| <= c.wrMax
  {
    var b1 := if (start != b.wrExpected && b.wr != []) || |b.wr| + |data| > c.wrMax then Flush(c, b) else b;
    var first := if b1.wr == [] then start else b1.wrStart;
    b1.(wr := b1.wr + data, wrStart := first, wrExpected := first + |b1.wr| + |data|)
  }

  function WriteThrough(b: Buffer, start: nat, data: seq<Block>): Buffer
    requires OnDevice(b, start, |data|)
  {
    b.(media := Overwrite(b.media, start, data))
  }

  function Write(c: Config, b: Buffer, start: nat, data: seq<Block>): Buffer
    requires Wf(c, b) && OnDevice(b, start, |data|)
  {
    var b1 := if c.readAhead && Overlap(b.rhStart, |b.rh|, start, |data|) then ResetReadAhead(b) else b;
    if !c.writeBuffer then WriteThrough(b1, start, data)
    else if |data| > c.wrMax then WriteThrough(Flush(c, b1), start, data)
    else WriteBuffer(c, b1, start, data)
  }

  // ---------------------------------------------------------------- reading

  /** The end of the window that a reload at `start` fills. */
  function WindowEnd(c: Config, b: Buffer, start: nat): nat {
    if start + c.rhMax > |b.media| then |b.media| else start + c.rhMax
  }

  function Reload(c: Config, b: Buffer, start: nat): Buffer
    requires start <= |b.media|
  {
    b.(rh := b.media[start..WindowEnd(c, b, start)], rhStart := start)
  }

  /** How many of the next blocks are in the window. */
  function Hits(b: Buffer, cur: nat, remaining: nat): (k: nat)
    ensures k <= remaining
    ensures k > 0 ==> b.rhStart <= cur && cur + k <= b.rhStart + |b.rh|
    ensures k < remaining ==> !(b.rhStart <= cur + k < b.rhStart + |b.rh|)
  {
    if !(b.rhStart <= cur < b.rhStart + |b.rh|) then 0
    else if b.rhStart + |b.rh| - cur < remaining then b.rhStart + |b.rh| - cur
    else remaining
  }

  datatype ReadResult = ReadResult(buf: Buffer, data: seq<Block>, ok: bool)

  /** The read-ahead loop: take what the window holds, reload at the next block, go on.
      `reloads` is the number of reloads that succeed; the next one fails. */
  function ReadLoop(c: Config, b: Buffer, cur: nat, remaining: nat, reloads: nat): ReadResult
    requires c.rhMax > 0 && OnDevice(b, cur, remaining)
    decreases remaining, if Hits(b, cur, remaining) == 0 then 1 else 0
  {
    var k := Hits(b, cur, remaining);
    var data := Taken(b, cur, k);
    if k == remaining then ReadResult(b, data, true)
    else if reloads == 0 then ReadResult(ResetReadAhead(b), data, false)
    else
      var r := ReadLoop(c, Reload(c, b, cur + k), cur + k, remaining - k, reloads - 1);
      r.(data := data + r.data)
  }

  /** Blocks copied out of the window. */
  function Taken(b: Buffer, cur: nat, k: nat): seq<Block>
    requires k > 0 ==> b.rhStart <= cur && cur + k <= b.rhStart + |b.rh|
  {
    if k == 0 then [] else b.rh[cur - b.rhStart..cur + k - b.rhStart]
  }

  function Read(c: Config, b: Buffer, start: nat, n: nat, reloads: nat): ReadResult
    requires Wf(c, b) && OnDevice(b, start, n) && (c.readAhead ==> c.rhMax > 0)
  {
    var b1 := if c.writeBuffer && c.wrMax > 0 && Overlap(b.wrStart, |b.wr|, start, n) then Flush(c, b) else b;
    if c.readAhead then ReadLoop(c, b1, start, n, reloads)
    else ReadResult(b1, b1.media[start..start + n], true)
  }

  // ---------------------------------------------------------------- what the operations do to the disk

  /** Block `x` is waiting to be written. */
  predicate Pending(b: Buffer, x: int) {
    b.wrStart <= x < b.wrStart + |b.wr|
  }

  lemma DiskAt(c: Config, b: Buffer, x: nat)
    requires Wf(c, b) && x < |b.media|
    ensures Disk(c, b)[x] == if Pending(b, x) then b.wr[x - b.wrStart] else b.media[x]
  {}

  /** Flushing does not change the disk; it makes the media agree with it, and the write run
      is as at the start. */
  lemma FlushKeepsDisk(c: Config, b: Buffer)
    requires Wf(c, b)
    ensures var b' := Flush(c, b);
            && Wf(c, b') && b'.wr == [] && Disk(c, b') == Disk(c, b) == b'.media
            && (Coherent(c, b) ==> Coherent(c, b'))
            && (b.wr != [] ==> ResetReadAhead(b') == Initial(Disk(c, b)))
  {}

  /** A buffered write is a write to the disk. */
  lemma WriteBufferWrites(c: Config, b: Buffer, start: nat, data: seq<Block>)
    requires Wf(c, b) && OnDevice(b, start, |data|) && |data| <= c.wrMax && c.writeBuffer
    ensures var b' := WriteBuffer(c, b, start, data);
            && Wf(c, b') && Disk(c, b') == Overwrite(Disk(c, b), start, data)
            && b'.rh == b.rh && b'.rhStart == b.rhStart
  {
    FlushKeepsDisk(c, b);
    var b' := WriteBuffer(c, b, start, data);
    var d, d' := Disk(c, b), Disk(c, b');
    forall x | 0 <= x < |d| ensures d'[x] == Overwrite(d, start, data)[x] {
      DiskAt(c, b, x);
      DiskAt(c, b', x);
    }
  }

  /** Every write is a write to the disk, and what is read ahead stays in agreement. */
  lemma WriteWrites(c: Config, b: Buffer, start: nat, data: seq<Block>)
    requires Wf(c, b) && OnDevice(b, start, |data|)
    ensures var b' := Write(c, b, start, data);
            && Wf(c, b') && Disk(c, b') == Overwrite(Disk(c, b), start, data)
            && (Coherent(c, b) ==> Coherent(c, b'))
  {
    hide Flush, WriteBuffer;
    var b1 := if c.readAhead && Overlap(b.rhStart, |b.rh|, start, |data|) then ResetReadAhead(b) else b;
    assert Wf(c, b1) && Disk(c, b1) == Disk(c, b);
    if c.writeBuffer && |data| <= c.wrMax {
      WriteBufferWrites(c, b1, start, data);
    } else {
      ThroughWrites(c, b1, start, data);
    }
  }

  lemma ThroughWrites(c: Config, b: Buffer, start: nat, data: seq<Block>)
    requires Wf(c, b) && OnDevice(b, start, |data|)
    ensures Flush(c, b).rh == b.rh && Flush(c, b).rhStart == b.rhStart && |Flush(c, b).media| == |b.media|
    ensures var b' := WriteThrough(Flush(c, b), start, data);
            Wf(c, b') && Disk(c, b') == Overwrite(Disk(c, b), start, data)
    ensures !c.writeBuffer ==> Flush(c, b) == b
  {
    FlushKeepsDisk(c, b);
  }

  /** The data goes on where the pending run ends, or there is none, and there is room. */
  predicate Continues(c: Config, b: Buffer, start: nat, data: seq<Block>) {
    c.writeBuffer && |b.wr| + |data| <= c.wrMax && (b.wr == [] || start == b.wrStart + |b.wr|)
  }

  /** What a write leaves on the media and what it leaves pending.  Data that continues the
      run is appended to it and nothing is written; other data begins a run of its own behind
      a flush; data larger than the buffer goes to the media with all that was pending. */
  lemma WriteGathers(c: Config, b: Buffer, start: nat, data: seq<Block>)
    requires Wf(c, b) && OnDevice(b, start, |data|)
    ensures var b' := Write(c, b, start, data);
            if Continues(c, b, start, data) then
              && b'.media == b.media && b'.wr == b.wr + data
              && (b'.wr != [] ==> b'.wrStart == if b.wr == [] then start else b.wrStart)
            else if c.writeBuffer && |data| <= c.wrMax then
              b'.media == Disk(c, b) && b'.wr == data && (data != [] ==> b'.wrStart == start)
            else
              b'.media == Overwrite(Disk(c, b), start, data) && b'.wr == []
  {
    FlushKeepsDisk(c, b);
  }

  /** A write empties the window if it touches it, and otherwise leaves it alone. */
  lemma WriteAndWindow(c: Config, b: Buffer, start: nat, data: seq<Block>)
    requires Wf(c, b) && OnDevice(b, start, |data|)
    ensures var b' := Write(c, b, start, data);
            if c.readAhead && b.rhStart <= start + |data| && start <= b.rhStart + |b.rh| then b'.rh == []
            else b'.rh == b.rh && b'.rhStart == b.rhStart
  {
    hide Overwrite;
  }

  /** The media agrees with the disk on a range without pending blocks. */
  predicate Unwritten(c: Config, b: Buffer, from: nat, to: nat)
    requires Wf(c, b) && to <= |b.media|
  {
    forall x | from <= x < to :: b.media[x] == Disk(c, b)[x]
  }

  /** What is read ahead of a range agrees with the disk. */
  predicate CoherentOn(c: Config, b: Buffer, from: nat, to: nat)
    requires Wf(c, b)
  {
    forall i | 0 <= i < |b.rh| && from <= b.rhStart + i < to :: b.rh[i] == Disk(c, b)[b.rhStart + i]
  }

  /** Nothing but the window differs. */
  predicate SameDevice(b: Buffer, b': Buffer) {
    b' == b.(rh := b'.rh, rhStart := b'.rhStart)
  }

  lemma SameDisk(c: Config, b: Buffer, b': Buffer)
    requires Wf(c, b) && Wf(c, b') && SameDevice(b, b')
    ensures Disk(c, b') == Disk(c, b)
  {}

  /** A reload brings the next wanted block into the window. */
  lemma ReloadFacts(c: Config, b: Buffer, start: nat, end: nat)
    requires Wf(c, b) && c.readAhead && c.rhMax > 0 && start < end <= |b.media| && Unwritten(c, b, start, end)
    ensures var b' := Reload(c, b, start);
            && Wf(c, b') && SameDevice(b, b') && Disk(c, b') == Disk(c, b)
            && Unwritten(c, b', start, end) && CoherentOn(c, b', start, end)
            && Hits(b', start, end - start) > 0
  {}

  /** One turn of the loop, with the data delivered before it. */
  lemma LoopStep(c: Config, b: Buffer, cur: nat, remaining: nat, reloads: nat, data: seq<Block>)
    requires c.rhMax > 0 && OnDevice(b, cur, remaining)
    ensures var k := Hits(b, cur, remaining);
            var r := ReadLoop(c, b, cur, remaining, reloads);
            var part := Taken(b, cur, k);
            && (k == remaining ==> r == ReadResult(b, part, true))
            && (k < remaining && reloads == 0 ==> r == ReadResult(ResetReadAhead(b), part, false))
            && (k < remaining && reloads > 0 ==>
                  var r' := ReadLoop(c, Reload(c, b, cur + k), cur + k, remaining - k, reloads - 1);
                  r.(data := data + r.data) == r'.(data := data + part + r'.data))
  {
    var k := Hits(b, cur, remaining);
    if k < remaining && reloads > 0 {
      var r' := ReadLoop(c, Reload(c, b, cur + k), cur + k, remaining - k, reloads - 1);
      assert data + (Taken(b, cur, k) + r'.data) == data + Taken(b, cur, k) + r'.data;
    }
  }

  lemma ReloadHits(c: Config, b: Buffer, start: nat, n: nat)
    requires c.rhMax > 0 && n > 0 && OnDevice(b, start, n)
    ensures Hits(Reload(c, b, start), start, n) > 0
  {}

  /** Reading ahead changes only the window. */
  lemma {:induction false} ReadLoopKeeps(c: Config, b: Buffer, cur: nat, remaining: nat, reloads: nat)
    requires Wf(c, b) && c.readAhead && c.rhMax > 0 && OnDevice(b, cur, remaining)
    ensures var r := ReadLoop(c, b, cur, remaining, reloads); Wf(c, r.buf) && SameDevice(b, r.buf)
    decreases remaining, if Hits(b, cur, remaining) == 0 then 1 else 0
  {
    hide Taken;
    var k := Hits(b, cur, remaining);
    if k < remaining && reloads > 0 {
      ReadLoopKeeps(c, Reload(c, b, cur + k), cur + k, remaining - k, reloads - 1);
    }
  }

  /** The read-ahead loop delivers the disk contents of a range without pending blocks, for
      any earlier contents of the window that agree with the disk there. */
  lemma {:induction false} ReadLoopReads(c: Config, b: Buffer, cur: nat, remaining: nat, reloads: nat)
    requires Wf(c, b) && c.readAhead && c.rhMax > 0 && OnDevice(b, cur, remaining)
    requires Unwritten(c, b, cur, cur + remaining) && CoherentOn(c, b, cur, cur + remaining)
    requires ReadLoop(c, b, cur, remaining, reloads).ok
    ensures ReadLoop(c, b, cur, remaining, reloads).data == Disk(c, b)[cur..cur + remaining]
    decreases remaining, if Hits(b, cur, remaining) == 0 then 1 else 0
  {
    hide Disk, Unwritten, CoherentOn, Taken, WindowEnd, Hits, Reload, Wf;
    var k := Hits(b, cur, remaining);
    TakenReads(c, b, cur, remaining);
    if k < remaining {
      UnwrittenTail(c, b, cur, cur + k, cur + remaining);
      ReloadFacts(c, b, cur + k, cur + remaining);
      ReadLoopReads(c, Reload(c, b, cur + k), cur + k, remaining - k, reloads - 1);
      SliceSplit(Disk(c, b), cur, cur + k, cur + remaining);
    }
  }

  lemma TakenReads(c: Config, b: Buffer, cur: nat, remaining: nat)
    requires Wf(c, b) && OnDevice(b, cur, remaining) && CoherentOn(c, b, cur, cur + remaining)
    ensures var k := Hits(b, cur, remaining); Taken(b, cur, k) == Disk(c, b)[cur..cur + k]
  {}

  lemma SliceSplit<T>(d: seq<T>, from: nat, mid: nat, to: nat)
    requires from <= mid <= to <= |d|
    ensures d[from..to] == d[from..mid] + d[mid..to]
  {}

  lemma ResetKeepsDisk(c: Config, b: Buffer)
    requires Wf(c, b)
    ensures Wf(c, ResetReadAhead(b)) && Disk(c, ResetReadAhead(b)) == Disk(c, b)
  {}

  lemma UnwrittenTail(c: Config, b: Buffer, from: nat, mid: nat, to: nat)
    requires Wf(c, b) && from <= mid <= to <= |b.media| && Unwritten(c, b, from, to)
    ensures Unwritten(c, b, mid, to)
  {}

  /** One reload per block is always enough. */
  lemma {:induction false} ReloadsSuffice(c: Config, b: Buffer, cur: nat, remaining: nat, reloads: nat)
    requires c.rhMax > 0 && OnDevice(b, cur, remaining)
    requires reloads >= remaining || (reloads + 1 == remaining && Hits(b, cur, remaining) > 0)
    ensures ReadLoop(c, b, cur, remaining, reloads).ok
    decreases remaining, if Hits(b, cur, remaining) == 0 then 1 else 0
  {
    var k := Hits(b, cur, remaining);
    if k < remaining {
      ReloadsSuffice(c, Reload(c, b, cur + k), cur + k, remaining - k, reloads - 1);
    }
  }

  // ---------------------------------------------------------------- both buffers together

  /** A reload keeps the window in agreement with the disk exactly when no pending block of
      its window differs from the media. */
  lemma ReloadCoherentIff(c: Config, b: Buffer, start: nat)
    requires Wf(c, b) && c.readAhead && start <= |b.media|
    ensures Wf(c, Reload(c, b, start))
    ensures Coherent(c, Reload(c, b, start)) <==>
              forall x | start <= x < WindowEnd(c, b, start) && Pending(b, x) :: b.wr[x - b.wrStart] == b.media[x]
  {
    hide Disk, Overwrite;
    var b' := Reload(c, b, start);
    if Coherent(c, b') {
      forall x | start <= x < WindowEnd(c, b, start) && Pending(b, x) ensures b.wr[x - b.wrStart] == b.media[x] {
        ReloadedAt(c, b, start, x);
        assert b'.rh[x - start] == Disk(c, b')[b'.rhStart + (x - start)];
      }
    } else {
      var i :| 0 <= i < |b'.rh| && b'.rh[i] != Disk(c, b')[b'.rhStart + i];
      ReloadedAt(c, b, start, start + i);
      assert Pending(b, start + i);
    }
  }

  lemma ReloadedAt(c: Config, b: Buffer, start: nat, x: nat)
    requires Wf(c, b) && c.readAhead && start <= x < WindowEnd(c, b, start)
    ensures var b' := Reload(c, b, start);
            && Wf(c, b') && b'.rhStart == start && x - start < |b'.rh| && b'.rh[x - start] == b.media[x]
            && Disk(c, b')[x] == if Pending(b, x) then b.wr[x - b.wrStart] else b.media[x]
  {
    DiskAt(c, Reload(c, b, start), x);
  }

  /** What a read does to the window in the end: nothing, a reset after a failed reload, or
      a load at some block. */
  datatype LastLoad = Kept | Dropped | Loaded(start: nat)

  function LoadOf(c: Config, b: Buffer, cur: nat, remaining: nat, reloads: nat): (l: LastLoad)
    requires c.rhMax > 0 && OnDevice(b, cur, remaining)
    ensures l.Loaded? ==> cur <= l.start < cur + remaining
    decreases remaining, if Hits(b, cur, remaining) == 0 then 1 else 0
  {
    var k := Hits(b, cur, remaining);
    if k == remaining then Kept
    else if reloads == 0 then Dropped
    else
      ReloadHits(c, b, cur + k, remaining - k);
      var l := LoadOf(c, Reload(c, b, cur + k), cur + k, remaining - k, reloads - 1);
      if l.Kept? then Loaded(cur + k) else l
  }

  /** The window after a read depends only on its last load. */
  lemma {:induction false} ReadLoopLoads(c: Config, b: Buffer, cur: nat, remaining: nat, reloads: nat)
    requires c.rhMax > 0 && OnDevice(b, cur, remaining)
    ensures ReadLoop(c, b, cur, remaining, reloads).buf ==
            match LoadOf(c, b, cur, remaining, reloads)
            case Kept => b
            case Dropped => ResetReadAhead(b)
            case Loaded(x) => Reload(c, b, x)
    decreases remaining, if Hits(b, cur, remaining) == 0 then 1 else 0
  {
    hide Taken, Hits, Reload, ReadLoop;
    var k := Hits(b, cur, remaining);
    LoopStep(c, b, cur, remaining, reloads, []);
    if k < remaining && reloads > 0 {
      ReloadHits(c, b, cur + k, remaining - k);
      ReloadAgain(c, b, cur + k, cur + k);
      ReadLoopLoads(c, Reload(c, b, cur + k), cur + k, remaining - k, reloads - 1);
      var l := LoadOf(c, b, cur, remaining, reloads);
      ReloadAgain(c, b, cur + k, if l.Loaded? then l.start else cur + k);
    }
  }

  lemma ReloadAgain(c: Config, b: Buffer, x: nat, y: nat)
    requires x <= |b.media| && y <= |b.media|
    ensures Reload(c, b, x).media == b.media && Reload(c, Reload(c, b, x), y) == Reload(c, b, y)
    ensures ResetReadAhead(Reload(c, b, x)) == ResetReadAhead(b)
  {}

  /** Whole windows before the last of `r` blocks. */
  function Span(r: nat, window: nat): nat
    requires r > 0 && window > 0
  {
    (r - 1) / window * window
  }

  /** Without failing reloads the last window starts a whole number of windows behind the
      first block that was not in the window before. */
  function LastWindow(c: Config, b: Buffer, cur: nat, remaining: nat): LastLoad
    requires c.rhMax > 0
  {
    var k := Hits(b, cur, remaining);
    if k == remaining then Kept else Loaded(cur + k + Span(remaining - k, c.rhMax))
  }

  lemma {:induction false} LoadIsLastWindow(c: Config, b: Buffer, cur: nat, remaining: nat, reloads: nat)
    requires c.rhMax > 0 && OnDevice(b, cur, remaining) && reloads >= remaining - Hits(b, cur, remaining)
    ensures LoadOf(c, b, cur, remaining, reloads) == LastWindow(c, b, cur, remaining)
    decreases remaining, if Hits(b, cur, remaining) == 0 then 1 else 0
  {
    hide Hits, Reload, Span;
    var k := Hits(b, cur, remaining);
    if k < remaining {
      var x, r := cur + k, remaining - k;
      WindowHits(c, b, x, r);
      LoadIsLastWindow(c, Reload(c, b, x), x, r, reloads - 1);
      SpanStep(r, c.rhMax);
    }
  }

  lemma WindowHits(c: Config, b: Buffer, x: nat, r: nat)
    requires OnDevice(b, x, r) && r > 0 && c.rhMax > 0
    ensures OnDevice(Reload(c, b, x), x, r)
    ensures Hits(Reload(c, b, x), x, r) == if r <= c.rhMax then r else c.rhMax
  {}

  lemma SpanStep(r: nat, window: nat)
    requires r > 0 && window > 0
    ensures Span(r, window) == if r <= window then 0 else window + Span(r - window, window)
  {
    if r <= window {
      Quotient(r - 1, window, 0, r - 1);
    } else {
      var q := (r - window - 1) / window;
      assert (q + 1) * window == q * window + window;
      Quotient(r - 1, window, q + 1, (r - window - 1) % window);
    }
  }

  lemma Quotient(a: nat, m: nat, q: nat, r: nat)
    requires m > 0 && a == q * m + r && r < m
    ensures a / m == q
  {
    var d := a / m;
    assert d * m <= a < d * m + m;
    if d < q {
      Apart(d, q, m);
    } else if q < d {
      Apart(q, d, m);
    }
  }

  lemma {:induction false} Apart(p: nat, q: nat, m: nat)
    requires p < q
    ensures q * m >= p * m + m
    decreases q
  {
    assert q * m == (q - 1) * m + m;
    if p < q - 1 { Apart(p, q - 1, m); }
  }

  /** The last window loaded, if any, holds no pending block that differs from the media. */
  predicate SafeLoad(c: Config, b: Buffer, l: LastLoad)
    requires Wf(c, b)
  {
    l.Loaded? ==>
      forall x | l.start <= x < WindowEnd(c, b, l.start) && Pending(b, x) :: b.wr[x - b.wrStart] == b.media[x]
  }

  /** A read keeps the window in agreement with the disk if and only if its last load is
      safe. */
  lemma ReadLoopCoherentIff(c: Config, b: Buffer, cur: nat, remaining: nat, reloads: nat)
    requires Wf(c, b) && c.readAhead && c.rhMax > 0 && OnDevice(b, cur, remaining) && Coherent(c, b)
    ensures var r := ReadLoop(c, b, cur, remaining, reloads);
            && Wf(c, r.buf)
            && (Coherent(c, r.buf) <==> SafeLoad(c, b, LoadOf(c, b, cur, remaining, reloads)))
  {
    hide ReadLoop, LoadOf, Disk, WindowEnd, Reload, Pending;
    ReadLoopLoads(c, b, cur, remaining, reloads);
    match LoadOf(c, b, cur, remaining, reloads)
    case Kept =>
    case Dropped => ResetKeepsDisk(c, b);
    case Loaded(x) => ReloadCoherentIff(c, b, x);
  }

  /** Every window that a read of this range may load misses the pending blocks. */
  predicate WindowsMiss(c: Config, b: Buffer, start: nat, n: nat) {
    b.wr == [] || n == 0 || b.wrStart + |b.wr| <= start || WindowEnd(c, b, start + n - 1) <= b.wrStart
  }

  /** That is enough, whatever the window held before. */
  lemma MissIsSafe(c: Config, b: Buffer, start: nat, n: nat, reloads: nat)
    requires Wf(c, b) && c.rhMax > 0 && OnDevice(b, start, n) && WindowsMiss(c, b, start, n)
    ensures SafeLoad(c, b, LoadOf(c, b, start, n, reloads))
  {
    hide LoadOf;
  }

  /** The buffer a read starts from: the pending blocks are flushed if the range touches
      them. */
  function BeforeRead(c: Config, b: Buffer, start: nat, n: nat): Buffer
    requires Wf(c, b)
  {
    if c.writeBuffer && c.wrMax > 0 && Overlap(b.wrStart, |b.wr|, start, n) then Flush(c, b) else b
  }

  lemma BeforeReadFacts(c: Config, b: Buffer, start: nat, n: nat)
    requires Wf(c, b) && OnDevice(b, start, n)
    ensures var b' := BeforeRead(c, b, start, n);
            && Wf(c, b') && Disk(c, b') == Disk(c, b) && (Coherent(c, b) ==> Coherent(c, b'))
            && |b'.media| == |b.media| && Unwritten(c, b', start, start + n)
  {
    FlushKeepsDisk(c, b);
  }

  /** The last load of a whole read. */
  function ReadLoad(c: Config, b: Buffer, start: nat, n: nat, reloads: nat): LastLoad
    requires Wf(c, b) && OnDevice(b, start, n) && (c.readAhead ==> c.rhMax > 0)
  {
    BeforeReadFacts(c, b, start, n);
    if c.readAhead then LoadOf(c, BeforeRead(c, b, start, n), start, n, reloads) else Kept
  }

  /** The load of this read, seen from the buffer it starts from, is safe. */
  predicate SafeRead(c: Config, b: Buffer, start: nat, n: nat, reloads: nat)
    requires Wf(c, b) && OnDevice(b, start, n) && (c.readAhead ==> c.rhMax > 0)
  {
    BeforeReadFacts(c, b, start, n);
    SafeLoad(c, BeforeRead(c, b, start, n), ReadLoad(c, b, start, n, reloads))
  }

  /** A read under the coherence invariant returns the latest data.  It keeps the invariant
      if and only if the last window it loads holds no pending block that differs. */
  lemma ReadReads(c: Config, b: Buffer, start: nat, n: nat, reloads: nat)
    requires Wf(c, b) && Coherent(c, b) && OnDevice(b, start, n) && (c.readAhead ==> c.rhMax > 0)
    ensures var r := Read(c, b, start, n, reloads);
            && Wf(c, r.buf) && Disk(c, r.buf) == Disk(c, b)
            && (r.ok ==> r.data == Disk(c, b)[start..start + n])
            && (reloads >= n ==> r.ok)
            && (Coherent(c, r.buf) <==> SafeRead(c, b, start, n, reloads))
  {
    hide ReadLoop, Flush, Disk, Coherent, Unwritten, CoherentOn, LoadOf, SafeLoad;
    BeforeReadFacts(c, b, start, n);
    var b1 := BeforeRead(c, b, start, n);
    if c.readAhead {
      assert CoherentOn(c, b1, start, start + n) by { CoherentEverywhere(c, b1, start, start + n); }
      ReadLoopKeeps(c, b1, start, n, reloads);
      SameDisk(c, b1, ReadLoop(c, b1, start, n, reloads).buf);
      if ReadLoop(c, b1, start, n, reloads).ok { ReadLoopReads(c, b1, start, n, reloads); }
      if reloads >= n { ReloadsSuffice(c, b1, start, n, reloads); }
      ReadLoopCoherentIff(c, b1, start, n, reloads);
    } else {
      assert b1.media[start..start + n] == Disk(c, b1)[start..start + n] by { UnwrittenSlice(c, b1, start, start + n); }
      assert SafeLoad(c, b1, Kept) by { KeptIsSafe(c, b1); }
    }
  }

  lemma KeptIsSafe(c: Config, b: Buffer)
    requires Wf(c, b)
    ensures SafeLoad(c, b, Kept)
  {}

  lemma ReadKeeps(c: Config, b: Buffer, start: nat, n: nat, reloads: nat)
    requires Wf(c, b) && OnDevice(b, start, n) && (c.readAhead ==> c.rhMax > 0)
    ensures Wf(c, Read(c, b, start, n, reloads).buf) && Disk(c, Read(c, b, start, n, reloads).buf) == Disk(c, b)
  {
    hide ReadLoop, Flush, Disk;
    BeforeReadFacts(c, b, start, n);
    var b1 := BeforeRead(c, b, start, n);
    if c.readAhead {
      ReadLoopKeeps(c, b1, start, n, reloads);
      SameDisk(c, b1, ReadLoop(c, b1, start, n, reloads).buf);
    }
  }

  lemma CoherentEverywhere(c: Config, b: Buffer, from: nat, to: nat)
    requires Wf(c, b) && Coherent(c, b)
    ensures CoherentOn(c, b, from, to)
  {}

  lemma UnwrittenSlice(c: Config, b: Buffer, from: nat, to: nat)
    requires Wf(c, b) && from <= to <= |b.media| && Unwritten(c, b, from, to)
    ensures b.media[from..to] == Disk(c, b)[from..to]
  {}

  /** Without the condition the invariant breaks and a later read is stale: block 3 is
      pending when block 0 is read and its old contents are read ahead; reading block 3 then
      flushes the new contents but returns the old ones. */
  lemma StaleRead(before: Block, after: Block)
    requires before != after
    ensures var c := Config(true, true, 2, 4);
            var b0 := Buffer([before, before, before, before], -1, [], -1, -1, []);
            && Wf(c, b0) && Coherent(c, b0)
            && var b1 := Write(c, b0, 3, [after]);
            && Wf(c, b1)
            && var b2 := Read(c, b1, 0, 1, 1).buf;
            && Wf(c, b2) && |b2.media| == 4
            && Read(c, b2, 3, 1, 1).data == [before] && Disk(c, b2)[3] == after
  {
    var media := [before, before, before, before];
    StaleSetup(before, after);
    hide Write;
    var c := Config(true, true, 2, 4);
    var b2 := Buffer(media, 3, [after], 4, 0, media);
    var b3 := Flush(c, b2);
    assert b3.rh == media && Hits(b3, 3, 1) == 1;
    assert Taken(b3, 3, 1) == [before];
  }

  lemma StaleSetup(before: Block, after: Block)
    ensures var c := Config(true, true, 2, 4);
            var media := [before, before, before, before];
            var b0, b1 := Buffer(media, -1, [], -1, -1, []), Buffer(media, 3, [after], 4, -1, []);
            && Wf(c, b0) && Write(c, b0, 3, [after]) == b1
            && Wf(c, b1) && Read(c, b1, 0, 1, 1).buf == Buffer(media, 3, [after], 4, 0, media)
  {
    var c := Config(true, true, 2, 4);
    var media := [before, before, before, before];
    var b1 := Buffer(media, 3, [after], 4, -1, []);
    var b2 := Reload(c, b1, 0);
    assert b2.rh == media;
    assert ReadLoop(c, b2, 0, 1, 0).buf == b2;
  }

  /** Removal of the media discards both buffers, as if nothing had ever been buffered:
      exactly what was pending is lost, and the invariant holds again. */
  lemma MediaRemovedFacts(c: Config, b: Buffer)
    requires Wf(c, b)
    ensures var b' := MediaRemoved(b);
            && b' == Initial(b.media) && Wf(c, b') && Coherent(c, b') && Disk(c, b') == b.media
            && forall x | 0 <= x < |b.media| && !Pending(b, x) :: Disk(c, b')[x] == Disk(c, b)[x]
  {
    forall x | 0 <= x < |b.media| && !Pending(b, x) ensures b.media[x] == Disk(c, b)[x] {
      DiskAt(c, b, x);
    }
  }

  // ---------------------------------------------------------------- whole runs

  datatype Op = ReadOp(start: nat, n: nat) | WriteOp(start: nat, data: seq<Block>) | Timeout | Removal

  predicate InRange(size: nat, op: Op) {
    match op
    case ReadOp(start, n) => start + n <= size
    case WriteOp(start, data) => start + |data| <= size
    case Timeout => true
    case Removal => true
  }

  /** One operation on the buffered device, and the blocks it returns. */
  function Step(c: Config, b: Buffer, op: Op): (Buffer, seq<Block>)
    requires Wf(c, b) && InRange(|b.media|, op) && (c.readAhead ==> c.rhMax > 0)
  {
    match op
    case ReadOp(start, n) => var r := Read(c, b, start, n, n); (r.buf, r.data)
    case WriteOp(start, data) => (Write(c, b, start, data), [])
    case Timeout => (Flush(c, b), [])
    case Removal => (MediaRemoved(b), [])
  }

  /** A plain device that remembers, besides its contents, what would be left of them if the
      media were removed, and which run of blocks would be lost. */
  datatype Run = NoRun | Run(start: nat, length: nat)

  datatype Plain = Plain(disk: seq<Block>, safe: seq<Block>, run: Run)

  predicate PlainOk(p: Plain) {
    |p.safe| == |p.disk|
  }

  /** Everything is on the media. */
  function Settled(p: Plain): Plain {
    Plain(p.disk, p.disk, NoRun)
  }

  function RunOf(start: nat, length: nat): Run {
    if length == 0 then NoRun else Run(start, length)
  }

  /** The range overlaps or touches the run. */
  predicate Touches(run: Run, start: nat, n: nat) {
    run.Run? && run.start <= start + n && start <= run.start + run.length
  }

  function PlainWrite(c: Config, p: Plain, start: nat, data: seq<Block>): (p': Plain)
    requires PlainOk(p) && start + |data| <= |p.disk|
    ensures PlainOk(p') && |p'.disk| == |p.disk|
  {
    var disk := Overwrite(p.disk, start, data);
    if !c.writeBuffer || |data| > c.wrMax then Plain(disk, disk, NoRun)
    else
      match p.run
      case NoRun => Plain(disk, p.safe, RunOf(start, |data|))
      case Run(first, length) =>
        if start == first + length && length + |data| <= c.wrMax then Plain(disk, p.safe, Run(first, length + |data|))
        else Plain(disk, p.disk, RunOf(start, |data|))
  }

  function PlainStep(c: Config, p: Plain, op: Op): (r: (Plain, seq<Block>))
    requires PlainOk(p) && InRange(|p.disk|, op)
    ensures PlainOk(r.0) && |r.0.disk| == |p.disk|
  {
    match op
    case ReadOp(start, n) => (if Touches(p.run, start, n) then Settled(p) else p, p.disk[start..start + n])
    case WriteOp(start, data) => (PlainWrite(c, p, start, data), [])
    case Timeout => (Settled(p), [])
    case Removal => (Plain(p.safe, p.safe, NoRun), [])
  }

  /** The plain device a buffer stands for. */
  function Abstract(c: Config, b: Buffer): (p: Plain)
    requires Wf(c, b)
    ensures PlainOk(p) && |p.disk| == |b.media|
  {
    Plain(Disk(c, b), b.media, if b.wr == [] then NoRun else Run(b.wrStart, |b.wr|))
  }

  lemma WriteRefines(c: Config, b: Buffer, start: nat, data: seq<Block>)
    requires Wf(c, b) && OnDevice(b, start, |data|)
    ensures Wf(c, Write(c, b, start, data))
    ensures Abstract(c, Write(c, b, start, data)) == PlainWrite(c, Abstract(c, b), start, data)
  {
    hide Disk, Write, Overwrite, Coherent;
    WriteWrites(c, b, start, data);
    WriteGathers(c, b, start, data);
    PendingDisk(c, b);
    PendingDisk(c, Write(c, b, start, data));
  }

  lemma PendingDisk(c: Config, b: Buffer)
    requires Wf(c, b)
    ensures b.wr == [] ==> Disk(c, b) == b.media
  {}

  lemma ReadSettles(c: Config, b: Buffer, start: nat, n: nat, reloads: nat)
    requires Wf(c, b) && OnDevice(b, start, n) && (c.readAhead ==> c.rhMax > 0)
    ensures Wf(c, Read(c, b, start, n, reloads).buf)
    ensures Abstract(c, Read(c, b, start, n, reloads).buf) ==
            if Touches(Abstract(c, b).run, start, n) then Settled(Abstract(c, b)) else Abstract(c, b)
  {
    hide ReadLoop, Coherent, Overwrite;
    FlushKeepsDisk(c, b);
    BeforeReadFacts(c, b, start, n);
    var b1 := BeforeRead(c, b, start, n);
    if c.readAhead {
      ReadLoopKeeps(c, b1, start, n, reloads);
      SameDisk(c, b1, ReadLoop(c, b1, start, n, reloads).buf);
    }
  }

  /** Only a read can bring old data into the window, by the last window it loads. */
  predicate SafeOp(c: Config, b: Buffer, op: Op)
    requires Wf(c, b) && InRange(|b.media|, op) && (c.readAhead ==> c.rhMax > 0)
  {
    op.ReadOp? && c.readAhead ==>
      (BeforeReadFacts(c, b, op.start, op.n);
       var b1 := BeforeRead(c, b, op.start, op.n);
       SafeLoad(c, b1, LastWindow(c, b1, op.start, op.n)))
  }

  lemma SafeReadIff(c: Config, b: Buffer, start: nat, n: nat)
    requires Wf(c, b) && OnDevice(b, start, n) && (c.readAhead ==> c.rhMax > 0)
    ensures SafeRead(c, b, start, n, n) <==> SafeOp(c, b, ReadOp(start, n))
  {
    hide LoadOf, LastWindow, SafeLoad, Hits, BeforeRead;
    BeforeReadFacts(c, b, start, n);
    var b1 := BeforeRead(c, b, start, n);
    if c.readAhead {
      LoadIsLastWindow(c, b1, start, n, n);
    } else {
      KeptIsSafe(c, b1);
    }
  }

  lemma OneBufferIsSafe(c: Config, b: Buffer, op: Op)
    requires Wf(c, b) && InRange(|b.media|, op) && (c.readAhead ==> c.rhMax > 0)
    requires !c.writeBuffer || !c.readAhead
    ensures SafeOp(c, b, op)
  {
    hide LastWindow;
  }

  /** Every operation returns what the plain device would and leaves it in the same state;
      it keeps the window in agreement with the disk if and only if it is safe. */
  lemma StepRefines(c: Config, b: Buffer, op: Op)
    requires Wf(c, b) && Coherent(c, b) && InRange(|b.media|, op) && (c.readAhead ==> c.rhMax > 0)
    ensures var (b', out) := Step(c, b, op);
            && Wf(c, b') && (Abstract(c, b'), out) == PlainStep(c, Abstract(c, b), op)
            && (Coherent(c, b') <==> SafeOp(c, b, op))
  {
    hide Disk, Coherent, Read, Write, Flush, SafeRead, Overwrite, PlainWrite, Touches;
    match op
    case ReadOp(start, n) =>
      ReadReads(c, b, start, n, n);
      ReadSettles(c, b, start, n, n);
      SafeReadIff(c, b, start, n);
    case WriteOp(start, data) =>
      WriteWrites(c, b, start, data);
      WriteRefines(c, b, start, data);
    case Timeout => FlushKeepsDisk(c, b);
    case Removal => MediaRemovedFacts(c, b);
  }

  /** Every operation of the run is in range and safe when its turn comes. */
  predicate SafeRun(c: Config, b: Buffer, ops: seq<Op>)
    requires Wf(c, b) && Coherent(c, b) && (c.readAhead ==> c.rhMax > 0)
    decreases ops
  {
    ops == [] || (
      && InRange(|b.media|, ops[0]) && SafeOp(c, b, ops[0])
      && (StepRefines(c, b, ops[0]);
          SafeRun(c, Step(c, b, ops[0]).0, ops[1..])))
  }

  function Outputs(c: Config, b: Buffer, ops: seq<Op>): seq<seq<Block>>
    requires Wf(c, b) && Coherent(c, b) && (c.readAhead ==> c.rhMax > 0) && SafeRun(c, b, ops)
    decreases ops
  {
    if ops == [] then []
    else
      StepRefines(c, b, ops[0]);
      [Step(c, b, ops[0]).1] + Outputs(c, Step(c, b, ops[0]).0, ops[1..])
  }

  predicate AllInRange(size: nat, ops: seq<Op>) {
    forall i | 0 <= i < |ops| :: InRange(size, ops[i])
  }

  function PlainOutputs(c: Config, p: Plain, ops: seq<Op>): seq<seq<Block>>
    requires PlainOk(p) && AllInRange(|p.disk|, ops)
    decreases ops
  {
    if ops == [] then []
    else
      var (p', out) := PlainStep(c, p, ops[0]);
      [out] + PlainOutputs(c, p', ops[1..])
  }

  /** The buffered device refines the plain one: over any safe run of reads, writes, timeout
      flushes and removals of the media, every read returns what the plain device would. */
  lemma {:induction false} RunRefines(c: Config, b: Buffer, ops: seq<Op>)
    requires Wf(c, b) && Coherent(c, b) && (c.readAhead ==> c.rhMax > 0) && SafeRun(c, b, ops)
    ensures AllInRange(|b.media|, ops)
    ensures Outputs(c, b, ops) == PlainOutputs(c, Abstract(c, b), ops)
    decreases ops
  {
    hide Wf, Coherent, Abstract, SafeOp, Step, InRange, PlainStep;
    if ops != [] {
      StepRefines(c, b, ops[0]);
      var b' := Step(c, b, ops[0]).0;
      RunRefines(c, b', ops[1..]);
      assert |b'.media| == |Abstract(c, b').disk| == |Abstract(c, b).disk| == |b.media|;
      forall i | 0 <= i < |ops| ensures InRange(|b.media|, ops[i]) {
        if i > 0 { assert ops[i] == ops[1..][i - 1]; }
      }
    }
  }

  lemma SizeStays(c: Config, b: Buffer, op: Op)
    requires Wf(c, b) && Coherent(c, b) && InRange(|b.media|, op) && (c.readAhead ==> c.rhMax > 0)
    ensures |Step(c, b, op).0.media| == |b.media|
  {
    hide Coherent, Abstract, Step, PlainStep;
    StepRefines(c, b, op);
    assert |Abstract(c, Step(c, b, op).0).disk| == |Abstract(c, b).disk|;
  }

  /** With only one of the buffers, every run in range is safe: the write-behind buffer
      alone, and the read-ahead buffer alone, refine the plain device without condition. */
  lemma OneBufferRuns(c: Config, b: Buffer, ops: seq<Op>)
    requires Wf(c, b) && Coherent(c, b) && (c.readAhead ==> c.rhMax > 0)
    requires (!c.writeBuffer || !c.readAhead) && AllInRange(|b.media|, ops)
    ensures SafeRun(c, b, ops) && Outputs(c, b, ops) == PlainOutputs(c, Abstract(c, b), ops)
  {
    hide SafeRun, Outputs, PlainOutputs, Abstract;
    OneBufferSafeRun(c, b, ops);
    RunRefines(c, b, ops);
  }

  lemma {:induction false} OneBufferSafeRun(c: Config, b: Buffer, ops: seq<Op>)
    requires Wf(c, b) && Coherent(c, b) && (c.readAhead ==> c.rhMax > 0)
    requires (!c.writeBuffer || !c.readAhead) && AllInRange(|b.media|, ops)
    ensures SafeRun(c, b, ops)
    decreases ops
  {
    hide Wf, Coherent, Disk, Step, InRange, SafeOp, PlainStep;
    if ops != [] {
      OneBufferIsSafe(c, b, ops[0]);
      StepRefines(c, b, ops[0]);
      SizeStays(c, b, ops[0]);
      OneBufferSafeRun(c, Step(c, b, ops[0]).0, ops[1..]);
    }
  }
}
