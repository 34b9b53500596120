/** The block buffer with its two buffers as arrays that are filled in place. */
module RwBuffers {
  import opened BlockBuffer

  class RwBuffer {
    const config: Config
    const wrBuffer: array<Block>
    const rhBuffer: array<Block>
    var media: seq<Block>
    var wrNblocks: nat
    var wrBlockStart: int
    var wrExpectedBlock: int
    var rhNblocks: nat
    var rhBlockStart: int

    ghost predicate Sized()
      reads this
    {
      && wrBuffer.Length == config.wrMax && rhBuffer.Length == config.rhMax && wrBuffer != rhBuffer
      && wrNblocks <= config.wrMax && rhNblocks <= config.rhMax
    }

    /** The value this object represents. */
    ghost function Value(): Buffer
      requires Sized()
      reads this, wrBuffer, rhBuffer
    {
      Buffer(media, wrBlockStart, wrBuffer[..wrNblocks], wrExpectedBlock, rhBlockStart, rhBuffer[..rhNblocks])
    }

    ghost predicate Valid()
      reads this, wrBuffer, rhBuffer
    {
      Sized() && Wf(config, Value())
    }

    constructor (config: Config, media: seq<Block>)
      ensures Valid() && this.config == config && Value() == Initial(media) && Coherent(config, Value()) && Disk(config, Value()) == media
    {
      this.config := config;
      this.media := media;
      wrBuffer := new Block[config.wrMax](_ => []);
      rhBuffer := new Block[config.rhMax](_ => []);
      wrNblocks, wrBlockStart, wrExpectedBlock := 0, -1, -1;
      rhNblocks, rhBlockStart := 0, -1;
    }

    method ResetRhBuffer()
      requires Sized()
      modifies `rhNblocks, `rhBlockStart
      ensures Sized() && Value() == ResetReadAhead(old(Value()))
    {
      rhNblocks, rhBlockStart := 0, -1;
    }

    /** Writes the pending blocks to the device. */
    method WrFlush()
      requires Valid()
      modifies `media, `wrNblocks, `wrBlockStart, `wrExpectedBlock
      ensures Valid() && Value() == Flush(config, old(Value()))
    {
      if wrNblocks > 0 {
        ghost var b := Value();
        FlushKeepsDisk(config, b);
        media := Overwrite(media, wrBlockStart, wrBuffer[..wrNblocks]);
        wrNblocks, wrBlockStart, wrExpectedBlock := 0, -1, -1;
      }
    }

    method WriteBlocks(start: nat, data: seq<Block>)
      requires Valid() && config.writeBuffer && OnDevice(Value(), start, |data|) && |data| <= config.wrMax
      modifies this, wrBuffer
      ensures Valid() && Value() == WriteBuffer(config, old(Value()), start, data)
    {
      ghost var b := Value();
      WriteBufferWrites(config, b, start, data);
      if (start != wrExpectedBlock && wrNblocks > 0) || wrNblocks + |data| > config.wrMax {
        WrFlush();
      }
      if wrNblocks == 0 {
        wrBlockStart := start;
      }
      AppendBlocks(data);
      wrExpectedBlock := wrBlockStart + wrNblocks;
    }

    /** Copies blocks behind those already pending. */
    method AppendBlocks(data: seq<Block>)
      requires Sized() && wrNblocks + |data| <= config.wrMax
      modifies `wrNblocks, wrBuffer
      ensures Sized() && wrBuffer[..wrNblocks] == old(wrBuffer[..wrNblocks]) + data
    {
      ghost var before := wrBuffer[..wrNblocks];
      var n := wrNblocks;
      for i := 0 to |data|
        invariant wrNblocks == n && wrBuffer[..n] == before
        invariant wrBuffer[n..n + i] == data[..i]
      {
        wrBuffer[n + i] := data[i];
        assert wrBuffer[n..n + i + 1] == wrBuffer[n..n + i] + [data[i]];
      }
      wrNblocks := n + |data|;
      assert wrBuffer[..wrNblocks] == wrBuffer[..n] + wrBuffer[n..n + |data|];
    }

    /** Writes straight to the media. */
    method WriteMedia(start: nat, data: seq<Block>)
      requires Sized() && OnDevice(Value(), start, |data|)
      modifies `media
      ensures Sized() && Value() == WriteThrough(old(Value()), start, data)
    {
      media := Overwrite(media, start, data);
    }

    /** Writes blocks: through the buffer if they fit into it. */
    method RwbWrite(start: nat, data: seq<Block>)
      requires Valid() && OnDevice(Value(), start, |data|)
      modifies this, wrBuffer
      ensures Valid() && Value() == Write(config, old(Value()), start, data)
    {
      ghost var b := Value();
      WriteWrites(config, b, start, data);
      hide Flush, WriteBuffer, WriteThrough, Wf, Overlap;
      if config.readAhead && Overlap(rhBlockStart, rhNblocks, start, |data|) {
        ResetRhBuffer();
        ResetKeepsDisk(config, b);
      }
      if !config.writeBuffer {
        WriteMedia(start, data);
      } else if |data| > config.wrMax {
        ThroughWrites(config, Value(), start, data);
        WrFlush();
        WriteMedia(start, data);
      } else {
        WriteBlocks(start, data);
      }
    }

    /** Refills the window from the device, starting at a given block. */
    method RhReload(start: nat, deviceOk: bool) returns (ok: bool)
      requires Sized() && start <= |media|
      modifies `rhNblocks, `rhBlockStart, rhBuffer
      ensures Sized() && (ok <==> deviceOk)
      ensures Value() == if ok then Reload(config, old(Value()), start) else ResetReadAhead(old(Value()))
    {
      var end := if start + config.rhMax > |media| then |media| else start + config.rhMax;
      ResetRhBuffer();
      ok := deviceOk;
      if ok {
        var n := end - start;
        for i := 0 to n
          invariant Sized() && rhBuffer[..i] == media[start..start + i]
        {
          rhBuffer[i] := media[start + i];
        }
        rhNblocks, rhBlockStart := n, start;
      }
    }

    /** Counts the blocks from `cur` on that are in the window. */
    method CountHits(cur: nat, remaining: nat) returns (nbuf: nat)
      requires Sized()
      ensures nbuf == Hits(Value(), cur, remaining)
    {
      nbuf := 0;
      var bufferEnd := rhBlockStart + rhNblocks;
      while rhBlockStart <= cur + nbuf < bufferEnd && nbuf < remaining
        invariant nbuf <= remaining
        invariant nbuf > 0 ==> rhBlockStart <= cur && cur + nbuf <= bufferEnd
      {
        nbuf := nbuf + 1;
      }
    }

    /** The loop over window and reloads; `reloads` reloads succeed, the next one fails. */
    method ReadAhead(start: nat, n: nat, reloads: nat) returns (data: seq<Block>, ok: bool)
      requires Sized() && config.rhMax > 0 && start + n <= |media|
      modifies `rhNblocks, `rhBlockStart, rhBuffer
      ensures Sized() && ReadResult(Value(), data, ok) == ReadLoop(config, old(Value()), start, n, reloads)
    {
      hide Reload, ResetReadAhead, Hits, Taken, ReadLoop;
      data := [];
      var cur: nat, remaining: nat, budget: nat := start, n, reloads;
      ghost var all := ReadLoop(config, Value(), start, n, reloads);
      while true
        invariant Sized() && media == old(media) && cur + remaining <= |media|
        invariant all == var r := ReadLoop(config, Value(), cur, remaining, budget); r.(data := data + r.data)
        decreases remaining, if Hits(Value(), cur, remaining) == 0 then 1 else 0
      {
        ghost var b := Value();
        var nbuf := CountHits(cur, remaining);
        var part := BufferRead(cur, nbuf);
        LoopStep(config, b, cur, remaining, budget, data);
        data, cur, remaining := data + part, cur + nbuf, remaining - nbuf;
        if remaining == 0 {
          return data, true;
        }
        ReloadHits(config, b, cur, remaining);
        var reloaded := RhReload(cur, budget > 0);
        if !reloaded {
          return data, false;
        }
        budget := budget - 1;
      }
    }

    /** Copies blocks that are in the window. */
    method BufferRead(cur: nat, nbuf: nat) returns (part: seq<Block>)
      requires Sized() && (nbuf > 0 ==> rhBlockStart <= cur && cur + nbuf <= rhBlockStart + rhNblocks)
      ensures part == Taken(Value(), cur, nbuf)
    {
      part := [];
      for i := 0 to nbuf
        invariant part == Taken(Value(), cur, i)
      {
        part := part + [rhBuffer[cur - rhBlockStart + i]];
      }
    }

    /** Reads blocks. */
    method RwbRead(start: nat, n: nat, reloads: nat) returns (data: seq<Block>, ok: bool)
      requires Valid() && OnDevice(Value(), start, n) && (config.readAhead ==> config.rhMax > 0)
      modifies this, rhBuffer
      ensures Valid() && ReadResult(Value(), data, ok) == Read(config, old(Value()), start, n, reloads)
    {
      ghost var b := Value();
      ReadKeeps(config, b, start, n, reloads);
      BeforeReadFacts(config, b, start, n);
      hide ReadLoop, Flush, Coherent, Disk;
      if config.writeBuffer && config.wrMax > 0 && Overlap(wrBlockStart, wrNblocks, start, n) {
        WrFlush();
      }
      if config.readAhead {
        data, ok := ReadAhead(start, n, reloads);
      } else {
        data, ok := media[start..start + n], true;
      }
    }

    /** The media was removed: both buffers are reset. */
    method RwbMediaRemoved()
      requires Valid()
      modifies this
      ensures Valid() && Value() == MediaRemoved(old(Value()))
    {
      wrNblocks, wrBlockStart, wrExpectedBlock := 0, -1, -1;
      ResetRhBuffer();
    }
  }
}
