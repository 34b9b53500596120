/** The dd command: sectors are read, zero padded and written, past the ones skipped. */
module Dd {
  import opened Bytes

  function Zeros(n: nat): (z: seq<byte>)
    ensures |z| == n && forall i | 0 <= i < n :: z[i] == 0
  {
    seq(n, _ => 0)
  }

  /** The next sector of the data, padded. */
  function First(data: seq<byte>, size: nat): (s: seq<byte>)
    ensures |s| == size
  {
    if |data| >= size then data[..size] else data + Zeros(size - |data|)
  }

  function Rest(data: seq<byte>, size: nat): seq<byte> {
    if |data| >= size then data[size..] else []
  }

  function Sectors(data: seq<byte>, size: nat): (ss: seq<seq<byte>>)
    requires size > 0
    ensures forall i | 0 <= i < |ss| :: |ss[i]| == size
    decreases |data|
  {
    if data == [] then [] else [First(data, size)] + Sectors(Rest(data, size), size)
  }

  function Min(a: nat, b: nat): nat {
    if a <= b then a else b
  }

  /** What is to be copied: `count` sectors from sector `skip` on, or up to the end. */
  function Wanted(ss: seq<seq<byte>>, skip: nat, count: nat): seq<byte> {
    Concat(ss[Min(skip, |ss|)..Min(skip + count, |ss|)])
  }

  lemma {:induction false} ConcatLength(ss: seq<seq<byte>>, size: nat)
    requires forall i | 0 <= i < |ss| :: |ss[i]| == size
    ensures |Concat(ss)| == |ss| * size
    decreases |ss|
  {
    if ss != [] { ConcatLength(ss[1..], size); }
  }

  /** All sectors together are the data and less than a sector of zeros. */
  lemma {:induction false} SectorsPad(data: seq<byte>, size: nat) returns (pad: nat)
    requires size > 0
    ensures pad < size && Concat(Sectors(data, size)) == data + Zeros(pad)
    decreases |data|
  {
    if data == [] {
      pad := 0;
    } else if |data| < size {
      pad := size - |data|;
      assert Sectors(data, size)[1..] == [];
      assert Concat(Sectors(data, size)) == First(data, size) + [];
    } else {
      pad := SectorsPad(data[size..], size);
      assert Sectors(data, size)[1..] == Sectors(data[size..], size);
      assert data[..size] + (data[size..] + Zeros(pad)) == data + Zeros(pad);
    }
  }

  /** Sectors a to b are the bytes from a to b sector lengths. */
  lemma SectorsAreBytes(ss: seq<seq<byte>>, size: nat, a: nat, b: nat)
    requires a <= b <= |ss| && forall i | 0 <= i < |ss| :: |ss[i]| == size
    ensures 0 <= a * size <= b * size <= |Concat(ss)|
    ensures Concat(ss[a..b]) == Concat(ss)[a * size..b * size]
  {
    ConcatMore(ss[..a], ss[a..b]);
    ConcatMore(ss[..b], ss[b..]);
    assert ss[..a] + ss[a..b] == ss[..b] && ss[..b] + ss[b..] == ss;
    ConcatLength(ss[..a], size);
    ConcatLength(ss[..b], size);
    ConcatLength(ss[a..b], size);
  }

  /** Slices of the data that lie behind one another. */
  lemma Slices(data: seq<byte>, a: nat, b: nat)
    requires a <= b <= |data|
    ensures forall c | b <= c <= |data| :: data[a..b] + data[b..c] == data[a..c]
    ensures data[a..b] == data[a..][..b - a]
  {}

  /** The data left after k sectors. */
  function Left(data: seq<byte>, size: nat, k: nat): seq<byte>
    decreases k
  {
    if k == 0 then data else Rest(Left(data, size, k - 1), size)
  }

  lemma {:induction false} LeftSectors(data: seq<byte>, size: nat, k: nat)
    requires size > 0 && k <= |Sectors(data, size)|
    ensures Sectors(Left(data, size, k), size) == Sectors(data, size)[k..]
    ensures Left(data, size, k) == [] <==> k == |Sectors(data, size)|
    decreases k
  {
    if k > 0 {
      LeftSectors(data, size, k - 1);
      assert Sectors(data, size)[k - 1..][1..] == Sectors(data, size)[k..];
    }
  }

  lemma LeftFirst(data: seq<byte>, size: nat, k: nat)
    requires size > 0 && k <= |Sectors(data, size)| && Left(data, size, k) != []
    ensures k < |Sectors(data, size)| && Sectors(data, size)[k] == First(Left(data, size, k), size)
  {
    LeftSectors(data, size, k);
    assert Sectors(data, size)[k..][0] == Sectors(data, size)[k];
  }

  /** For a device read by offset, the same. */
  lemma {:induction false} LeftAt(data: seq<byte>, size: nat, k: nat)
    ensures Left(data, size, k) == if k * size <= |data| then data[k * size..] else []
    decreases k
  {
    if k > 0 {
      LeftAt(data, size, k - 1);
      assert (k - 1) * size + size == k * size;
    }
  }

  /** A device of fixed size after bytes were written from its start. */
  function Overlay(disk: seq<byte>, bytes: seq<byte>): (r: seq<byte>)
    ensures |r| == |disk|
    ensures forall i | 0 <= i < |disk| :: r[i] == if i < |bytes| then bytes[i] else disk[i]
  {
    if |bytes| <= |disk| then bytes + disk[|bytes|..] else bytes[..|disk|]
  }

  // ---------------------------------------------------------------- the command

  class DdState {
    const data: seq<byte>
    const inBlock: bool
    const outBlock: bool
    const sectsize: nat
    const skip: nat
    const buffer: array<byte>
    const disk: array<byte>
    var pos: nat
    var out: seq<byte>
    var nsectors: nat
    var sector: nat
    var eof: bool
    var nbytes: nat

    ghost predicate Valid()
      reads this
    {
      sectsize > 0 && buffer.Length == sectsize && disk != buffer && pos <= |data|
    }

    ghost function All(): seq<seq<byte>>
      requires sectsize > 0
    {
      Sectors(data, sectsize)
    }

    constructor (data: seq<byte>, inBlock: bool, outBlock: bool, disk: array<byte>, sectsize: nat, skip: nat, count: nat)
      requires sectsize > 0
      ensures Valid() && fresh(buffer)
      ensures this.data == data && this.inBlock == inBlock && this.outBlock == outBlock && this.disk == disk
      ensures this.sectsize == sectsize && this.skip == skip && nsectors == count
      ensures pos == 0 && out == [] && sector == 0 && !eof
    {
      this.data, this.inBlock, this.outBlock, this.disk := data, inBlock, outBlock, disk;
      this.sectsize, this.skip, nsectors := sectsize, skip, count;
      buffer := new byte[sectsize];
      pos, out, sector, eof, nbytes := 0, [], 0, false, 0;
    }

    /** Where the input stands, for either kind of input. */
    ghost predicate InputAt(k: nat)
      requires Valid()
      reads this
    {
      sector == k && (inBlock || data[pos..] == Left(data, sectsize, k))
    }

    /** Reads a sector in pieces of any positive length; zero means the end. */
    method ReadCh()
      requires Valid() && !inBlock
      modifies buffer, `pos, `nbytes, `eof
      ensures Valid()
      ensures nbytes == Min(sectsize, |old(data[pos..])|) && pos == old(pos) + nbytes
      ensures buffer[..nbytes] == old(data[pos..])[..nbytes]
      ensures eof == (old(eof) || nbytes == 0)
    {
      nbytes := 0;
      var n := 1;
      while nbytes < sectsize && n > 0
        invariant Valid() && nbytes <= sectsize && pos == old(pos) + nbytes
        invariant buffer[..nbytes] == data[old(pos)..pos]
        invariant n == 0 ==> pos == |data|
        invariant eof == old(eof)
        decreases sectsize - nbytes, n
      {
        Slices(data, old(pos), pos);
        n := ReadSome();
      }
      Slices(data, old(pos), pos);
      eof := eof || nbytes == 0;
    }

    /** One read: any number of bytes, zero only at the end. */
    method ReadSome() returns (n: nat)
      requires Valid() && nbytes < sectsize
      modifies buffer, `pos, `nbytes
      ensures Valid() && n <= sectsize - old(nbytes) && nbytes == old(nbytes) + n && pos == old(pos) + n
      ensures n == 0 ==> pos == |data|
      ensures buffer[..nbytes] == old(buffer[..nbytes]) + data[old(pos)..pos]
    {
      n :| 0 <= n <= sectsize - nbytes && n <= |data| - pos && (n == 0 ==> pos == |data|);
      CopyIn(data[pos..pos + n], nbytes);
      nbytes, pos := nbytes + n, pos + n;
    }

    method CopyIn(bytes: seq<byte>, at: nat)
      requires at + |bytes| <= buffer.Length
      modifies buffer
      ensures buffer[..at] == old(buffer[..at]) && buffer[at..at + |bytes|] == bytes
      ensures buffer[..at + |bytes|] == old(buffer[..at]) + bytes
    {
      for i := 0 to |bytes|
        invariant buffer[..at + i] == old(buffer[..at]) + bytes[..i]
      {
        buffer[at + i] := bytes[i];
      }
    }

    /** Reads a sector at its offset; past the end there is nothing. */
    method ReadBlk()
      requires Valid() && inBlock
      modifies buffer, `nbytes, `eof
      ensures Valid()
      ensures nbytes == Min(sectsize, |Left(data, sectsize, sector)|)
      ensures buffer[..nbytes] == Left(data, sectsize, sector)[..nbytes]
      ensures eof == (nbytes == 0)
    {
      LeftAt(data, sectsize, sector);
      var offset := sector * sectsize;
      var n := if offset >= |data| then 0 else Min(sectsize, |data| - offset);
      if n > 0 {
        CopyIn(data[offset..offset + n], 0);
        assert data[offset..offset + n] == data[offset..][..n];
      }
      nbytes, eof := n, n == 0;
    }

    /** The buffer after a read is the next sector, zero padded, unless the input has ended. */
    method ReadSector()
      requires Valid() && InputAt(sector) && !eof
      modifies buffer, `pos, `nbytes, `eof
      ensures Valid()
      ensures eof <==> Left(data, sectsize, sector) == []
      ensures eof ==> InputAt(sector)
      ensures !eof ==> buffer[..] == First(Left(data, sectsize, sector), sectsize)
      ensures !eof && !inBlock ==> data[pos..] == Rest(Left(data, sectsize, sector), sectsize)
    {
      ghost var left := Left(data, sectsize, sector);
      if inBlock {
        ReadBlk();
      } else {
        ReadCh();
      }
      if !eof {
        Pad();
      }
    }

    method Pad()
      requires Valid() && nbytes <= sectsize
      modifies buffer
      ensures buffer[..] == old(buffer[..nbytes]) + Zeros(sectsize - nbytes)
    {
      for i := nbytes to sectsize
        modifies buffer
        invariant buffer[..nbytes] == old(buffer[..nbytes]) && forall j | nbytes <= j < i :: buffer[j] == 0
      {
        buffer[i] := 0;
      }
      assert buffer[..] == buffer[..nbytes] + buffer[nbytes..];
      assert buffer[nbytes..] == Zeros(sectsize - nbytes);
    }

    /** Writes the buffer in pieces of any positive length. */
    method WriteCh()
      requires Valid()
      modifies `out
      ensures Valid() && out == old(out) + buffer[..]
    {
      var written := 0;
      while written < sectsize
        invariant written <= sectsize && out == old(out) + buffer[..written]
      {
        var n: nat :| 0 < n <= sectsize - written;
        out := out + buffer[written..written + n];
        written := written + n;
      }
      assert buffer[..sectsize] == buffer[..];
    }

    /** Writes the buffer at its offset, as far as the device goes. */
    method WriteBlk(ghost disk0: seq<byte>, ghost done: seq<byte>)
      requires Valid() && sector >= skip && |disk0| == disk.Length
      requires disk[..] == Overlay(disk0, done) && |done| == (sector - skip) * sectsize
      modifies disk, `eof
      ensures Valid() && disk[..] == Overlay(disk0, done + buffer[..])
      ensures eof <==> old(eof) || |done| >= disk.Length
    {
      var offset := (sector - skip) * sectsize;
      if offset >= disk.Length {
        eof := true;
        assert Overlay(disk0, done) == Overlay(disk0, done + buffer[..]);
        return;
      }
      CopyOut(offset);
      OverlayMore(disk0, done, buffer[..], disk[..]);
    }

    method CopyOut(offset: nat)
      requires buffer != disk && offset < disk.Length
      modifies disk
      ensures forall j | 0 <= j < disk.Length ::
                disk[j] == if offset <= j < offset + buffer.Length then buffer[j - offset] else old(disk[j])
    {
      var n := Min(buffer.Length, disk.Length - offset);
      for i := 0 to n
        invariant forall j | 0 <= j < disk.Length ::
                    disk[j] == if offset <= j < offset + i then buffer[j - offset] else old(disk[j])
      {
        disk[offset + i] := buffer[i];
      }
    }

    /** The bytes of the sectors copied so far. */
    ghost function Done(): seq<byte>
      requires sectsize > 0 && sector <= |All()|
      reads this
    {
      Concat(All()[Min(skip, sector)..sector])
    }

    ghost predicate Written(disk0: seq<byte>)
      requires sectsize > 0 && sector <= |All()| && |disk0| == disk.Length
      reads this, disk
    {
      if outBlock then disk[..] == Overlay(disk0, Done()) && out == [] else out == Done() && disk[..] == disk0
    }

    /** What holds between sectors. */
    ghost predicate Copying(count: nat, disk0: seq<byte>)
      reads this, disk
    {
      && Valid() && |disk0| == disk.Length && sector <= |All()| && InputAt(sector)
      && nsectors == (if sector <= skip then count else count - (sector - skip))
      && Written(disk0)
      && (eof ==> sector == |All()| || (outBlock && |Done()| >= disk.Length))
    }

    /** The sector in the buffer is written, or skipped. */
    method WriteSector(ghost count: nat, ghost disk0: seq<byte>)
      requires Valid() && |disk0| == disk.Length && sector < |All()| && !eof && nsectors > 0
      requires nsectors == if sector <= skip then count else count - (sector - skip)
      requires Written(disk0) && buffer[..] == All()[sector]
      requires inBlock || data[pos..] == Left(data, sectsize, sector + 1)
      modifies disk, `out, `eof, `nsectors, `sector
      ensures Copying(count, disk0) && sector == old(sector) + 1
    {
      hide Left, Sectors, Overlay, Concat;
      DoneStep(All(), sectsize, skip, sector);
      if sector >= skip {
        if outBlock {
          WriteBlk(disk0, Done());
        } else {
          WriteCh();
        }
        nsectors := nsectors - 1;
      }
      sector := sector + 1;
    }

    method Transfer(ghost count: nat)
      requires Valid() && nsectors == count && pos == 0 && out == [] && sector == 0 && !eof
      modifies this, buffer, disk
      ensures outBlock ==> disk[..] == Overlay(old(disk[..]), Wanted(All(), skip, count)) && out == []
      ensures !outBlock ==> out == Wanted(All(), skip, count) && disk[..] == old(disk[..])
    {
      ghost var disk0 := disk[..];
      assert disk0 == Overlay(disk0, []);
      assert data[0..] == data;
      while !eof && nsectors > 0
        invariant Copying(count, disk0)
        decreases |All()| - sector, !eof
      {
        hide Left, Sectors, Overlay, Concat;
        ReadSector();
        if eof {
          LeftSectors(data, sectsize, sector);
        } else {
          LeftFirst(data, sectsize, sector);
          LeftNext(data, sectsize, sector);
          WriteSector(count, disk0);
        }
      }
      AllDone(All(), disk0, sectsize, skip, count, sector);
    }
  }

  lemma LeftNext(data: seq<byte>, size: nat, k: nat)
    ensures Left(data, size, k + 1) == Rest(Left(data, size, k), size)
  {}

  lemma DoneStep(ss: seq<seq<byte>>, size: nat, skip: nat, k: nat)
    requires k < |ss| && forall i | 0 <= i < |ss| :: |ss[i]| == size
    ensures Concat(ss[Min(skip, k + 1)..k + 1]) == Concat(ss[Min(skip, k)..k]) + if k >= skip then ss[k] else []
    ensures k >= skip ==> |Concat(ss[Min(skip, k)..k])| == (k - skip) * size
  {
    if k >= skip {
      assert ss[skip..k + 1] == ss[skip..k] + [ss[k]];
      ConcatMore(ss[skip..k], [ss[k]]);
      assert Concat([ss[k]]) == ss[k] + Concat([]);
      ConcatLength(ss[skip..k], size);
    }
  }

  /** When the copy stops, no wanted byte that the output can hold is missing. */
  lemma AllDone(ss: seq<seq<byte>>, disk: seq<byte>, size: nat, skip: nat, count: nat, k: nat)
    requires k <= |ss| && (k > skip ==> k - skip <= count)
    ensures k == |ss| || k == skip + count || count == 0 ==> Concat(ss[Min(skip, k)..k]) == Wanted(ss, skip, count)
    ensures |Concat(ss[Min(skip, k)..k])| >= |disk| ==>
              Overlay(disk, Concat(ss[Min(skip, k)..k])) == Overlay(disk, Wanted(ss, skip, count))
  {
    var done, all := ss[Min(skip, k)..k], ss[Min(skip, |ss|)..Min(skip + count, |ss|)];
    if k > skip {
      assert all == done + all[|done|..];
      ConcatMore(done, all[|done|..]);
    } else {
      assert done == [];
    }
  }

  /** Writing further bytes behind the ones written. */
  lemma OverlayMore(disk: seq<byte>, done: seq<byte>, more: seq<byte>, after: seq<byte>)
    requires |after| == |disk| && |done| < |disk|
    requires forall j | 0 <= j < |after| ::
               after[j] == if |done| <= j < |done| + |more| then more[j - |done|] else Overlay(disk, done)[j]
    ensures after == Overlay(disk, done + more)
  {}

  /** The command: an input and an output that are each a stream or a device. */
  method CmdDd(data: seq<byte>, inBlock: bool, outBlock: bool, disk: array<byte>, sectsize: nat, skip: nat, count: nat)
    returns (ok: bool, out: seq<byte>)
    requires sectsize > 0
    modifies disk
    ensures ok <==> skip <= count
    ensures var wanted := if ok then Wanted(Sectors(data, sectsize), skip, count) else [];
            if outBlock then disk[..] == Overlay(old(disk[..]), wanted) && out == [] else out == wanted && disk[..] == old(disk[..])
  {
    if skip > count {
      assert disk[..] == Overlay(disk[..], []);
      return false, [];
    }
    var dd := new DdState(data, inBlock, outBlock, disk, sectsize, skip, count);
    dd.Transfer(count);
    return true, dd.out;
  }
}
