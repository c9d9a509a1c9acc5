/**
  A set of blocks in a shared buffer.  A `MemDisk` sees one region of the buffer; multi-block writes
  reach the buffer block by block, and the region remembers every image it has been in.
 */
module BlockSets {
  import opened Options
  import opened Layout
  import opened Merkle
  import opened FlatFile

  const BLOCK_SIZE := 0x1000

  /** `Panicked` is an access the bounds check lets through and the buffer does not have. */
  datatype Outcome = Success | Rejected | Panicked

  /** Blocks touched by a slice. */
  function FirstBlock(offset: nat): nat { offset / BLOCK_SIZE }
  function EndBlock(offset: nat, len: nat): nat { (offset + len + BLOCK_SIZE - 1) / BLOCK_SIZE }

  lemma SliceBlocks(offset: nat, len: nat)
    ensures FirstBlock(offset) <= EndBlock(offset, len) && FirstBlock(offset) * BLOCK_SIZE <= offset
    ensures offset + len <= EndBlock(offset, len) * BLOCK_SIZE < offset + len + BLOCK_SIZE
    ensures offset - FirstBlock(offset) * BLOCK_SIZE == offset % BLOCK_SIZE
    ensures (offset % BLOCK_SIZE + len) % BLOCK_SIZE == (offset + len) % BLOCK_SIZE
    ensures (offset + len) % BLOCK_SIZE == 0 ==> EndBlock(offset, len) * BLOCK_SIZE == offset + len
    ensures EndBlock(offset, len) == FirstBlock(offset) <==> len == 0 && offset % BLOCK_SIZE == 0
    ensures (offset + len) % BLOCK_SIZE != 0 ==>
              EndBlock(offset, len) * BLOCK_SIZE == offset + len - (offset + len) % BLOCK_SIZE + BLOCK_SIZE
  {
  }

  /**
    The region after `buf` went in at `offset`.  The rest of the last block is `tail`, which the
    source takes from the block behind it.
   */
  function SliceWritten(c: seq<Byte>, offset: nat, buf: seq<Byte>, tail: seq<Byte>): (r: seq<Byte>)
    requires offset + |buf| + |tail| <= |c|
    ensures |r| == |c| && r[..offset] == c[..offset] && r[offset..offset + |buf|] == buf
    ensures r[offset + |buf| + |tail|..] == c[offset + |buf| + |tail|..]
  {
    Overwrite(c, offset, buf + tail)
  }

  lemma SubSlice(d: seq<Byte>, lo: nat, hi: nat, a: nat, b: nat)
    requires lo <= hi <= |d| && a <= b <= hi - lo
    ensures d[lo..hi][a..b] == d[lo + a..lo + b]
  {
    var s := d[lo..hi];
    assert forall i :: 0 <= i < b - a ==> s[a..b][i] == s[a + i] == d[lo + a + i];
  }

  /** A write inside a region, seen from the region. */
  lemma RegionOverwrite(d: seq<Byte>, lo: nat, hi: nat, at: nat, b: seq<Byte>)
    requires lo <= hi <= |d| && lo + at + |b| <= hi
    ensures Overwrite(d, lo + at, b)[lo..hi] == Overwrite(d[lo..hi], at, b)
  {
  }

  /** A write outside a region leaves the region alone. */
  lemma RegionUntouched(d: seq<Byte>, lo: nat, hi: nat, at: nat, b: seq<Byte>)
    requires lo <= hi <= |d| && at + |b| <= |d| && (at + |b| <= lo || hi <= at)
    ensures Overwrite(d, at, b)[lo..hi] == d[lo..hi]
  {
  }

  /**
    A slice write changes nothing but the slice exactly when the end of its last block already
    equals the same bytes of the next block; a slice that ends on a block boundary has no such end.
   */
  lemma SliceExact(c: seq<Byte>, offset: nat, buf: seq<Byte>, tail: seq<Byte>)
    requires offset + |buf| + |tail| <= |c|
    ensures var end := offset + |buf|;
            SliceWritten(c, offset, buf, tail) == Overwrite(c, offset, buf) <==> tail == c[end..end + |tail|]
  {
    var end := offset + |buf|;
    var r := SliceWritten(c, offset, buf, tail);
    assert r[end..end + |tail|] == tail;
    if tail == c[end..end + |tail|] {
      assert r == Overwrite(c, offset, buf);
    } else {
      assert Overwrite(c, offset, buf)[end..end + |tail|] == c[end..end + |tail|];
    }
  }

  /** The images a write passes through: one per block, in order. */
  ghost predicate BlockTrail(prior: seq<seq<Byte>>, trail: seq<seq<Byte>>, c: seq<Byte>, at: nat, buf: seq<Byte>)
    requires at + |buf| <= |c|
  {
    && |trail| == |prior| + |buf| / BLOCK_SIZE && prior <= trail
    && (forall j :: |prior| <= j < |trail| ==> trail[j] == Overwrite(c, at, buf[..(j - |prior| + 1) * BLOCK_SIZE]))
  }

  lemma TrailExtends(prior: seq<seq<Byte>>, trail: seq<seq<Byte>>, c: seq<Byte>, at: nat, buf: seq<Byte>, i: nat)
    requires at + |buf| <= |c| && (i + 1) * BLOCK_SIZE <= |buf| && trail != []
    requires BlockTrail(prior, trail[..|trail| - 1], c, at, buf[..i * BLOCK_SIZE])
    requires trail[|trail| - 1] == Overwrite(c, at, buf[..(i + 1) * BLOCK_SIZE])
    ensures BlockTrail(prior, trail, c, at, buf[..(i + 1) * BLOCK_SIZE])
  {
    hide Overwrite;
    var short, long := buf[..i * BLOCK_SIZE], buf[..(i + 1) * BLOCK_SIZE];
    assert |short| / BLOCK_SIZE == i && |long| / BLOCK_SIZE == i + 1;
    forall j | |prior| <= j < |trail| ensures trail[j] == Overwrite(c, at, long[..(j - |prior| + 1) * BLOCK_SIZE]) {
      var k := (j - |prior| + 1) * BLOCK_SIZE;
      if j < |trail| - 1 {
        assert short[..k] == long[..k];
        assert trail[j] == trail[..|trail| - 1][j];
      } else {
        assert long[..k] == long;
      }
    }
  }

  /** Writing the blocks of a slice is writing the slice, and no prefix of them touches what is before it. */
  lemma SliceImages(c: seq<Byte>, offset: nat, buf: seq<Byte>, tail: seq<Byte>, blocks: seq<Byte>)
    requires offset + |buf| + |tail| == EndBlock(offset, |buf|) * BLOCK_SIZE <= |c| && FirstBlock(offset) * BLOCK_SIZE <= offset
    requires blocks == c[FirstBlock(offset) * BLOCK_SIZE..offset] + buf + tail
    ensures |blocks| == (EndBlock(offset, |buf|) - FirstBlock(offset)) * BLOCK_SIZE
    ensures Overwrite(c, FirstBlock(offset) * BLOCK_SIZE, blocks) == SliceWritten(c, offset, buf, tail)
    ensures forall n :: 0 <= n <= |blocks| ==> Overwrite(c, FirstBlock(offset) * BLOCK_SIZE, blocks[..n])[..offset] == c[..offset]
  {
    var at := FirstBlock(offset) * BLOCK_SIZE;
    forall n | 0 <= n <= |blocks| ensures Overwrite(c, at, blocks[..n])[..offset] == c[..offset] {
      var r := Overwrite(c, at, blocks[..n]);
      assert forall i :: 0 <= i < offset ==> r[i] == c[i];
    }
  }

  class MemDisk {
    const disk: array<Byte>
    const start: nat
    const end: nat
    /** Every image of the region, oldest first. */
    ghost var trail: seq<seq<Byte>>

    ghost predicate Valid()
      reads this, disk
    {
      && start <= end && end * BLOCK_SIZE <= disk.Length
      && trail != [] && trail[|trail| - 1] == Contents()
    }

    function Contents(): (c: seq<Byte>)
      requires start <= end && end * BLOCK_SIZE <= disk.Length
      reads disk
      ensures |c| == NBlocks() * BLOCK_SIZE
    {
      disk[start * BLOCK_SIZE..end * BLOCK_SIZE]
    }

    function NBlocks(): nat
      requires start <= end
    {
      end - start
    }

    /** How an access to `n` blocks from `pos` on ends. */
    function Access(pos: nat, n: nat): Outcome {
      if pos + n > end then Rejected
      else if (start + pos + n) * BLOCK_SIZE > disk.Length then Panicked
      else Success
    }

    /**
      The bounds check compares a relative position with an absolute end: it is exact, for buffers
      of at least one block, only from block 0 on.
     */
    lemma BoundsCheckExact()
      requires start <= end
      ensures (forall pos: nat, n: nat :: n > 0 ==> (!Access(pos, n).Rejected? <==> pos + n <= NBlocks())) <==> start == 0
    {
      if start > 0 {
        assert !Access(NBlocks(), 1).Rejected?;
      }
    }

    /** `create`; there is no buffer of no blocks. */
    constructor Create(nblocks: nat)
      requires nblocks > 0
      ensures Valid() && fresh(disk) && start == 0 && end == nblocks && disk.Length == nblocks * BLOCK_SIZE
    {
      disk := new Byte[nblocks * BLOCK_SIZE];
      start, end := 0, nblocks;
      new;
      trail := [Contents()];
    }

    constructor Region(disk: array<Byte>, start: nat, end: nat)
      requires start <= end && end * BLOCK_SIZE <= disk.Length
      ensures Valid() && this.disk == disk && this.start == start && this.end == end && trail == [Contents()]
    {
      this.disk, this.start, this.end := disk, start, end;
      new;
      trail := [Contents()];
    }

    /** `subset`: the range is relative to this region and must end inside it. */
    method Subset(lo: nat, hi: nat) returns (r: Option<MemDisk>)
      requires Valid() && lo <= hi
      ensures r.Some? <==> hi <= NBlocks()
      ensures r.Some? ==> r.value.Valid() && r.value.disk == disk && r.value.start == start + lo && r.value.end == start + hi
      ensures r.Some? ==> r.value.Contents() == Contents()[lo * BLOCK_SIZE..hi * BLOCK_SIZE]
    {
      if start + hi > end {
        return None;
      }
      SubSlice(disk[..], start * BLOCK_SIZE, end * BLOCK_SIZE, lo * BLOCK_SIZE, hi * BLOCK_SIZE);
      var sub := new MemDisk.Region(disk, start + lo, start + hi);
      return Some(sub);
    }

    /** `read` into a buffer, which has at least one block. */
    method Read(pos: nat, n: nat) returns (r: Outcome, out: seq<Byte>)
      requires Valid() && n > 0
      ensures r == Access(pos, n)
      ensures r.Success? ==> out == disk[(start + pos) * BLOCK_SIZE..(start + pos + n) * BLOCK_SIZE]
      ensures pos + n <= NBlocks() ==> r.Success? && out == Contents()[pos * BLOCK_SIZE..(pos + n) * BLOCK_SIZE]
    {
      r, out := Access(pos, n), [];
      if r.Success? {
        out := disk[(start + pos) * BLOCK_SIZE..(start + pos + n) * BLOCK_SIZE];
        if pos + n <= NBlocks() {
          SubSlice(disk[..], start * BLOCK_SIZE, end * BLOCK_SIZE, pos * BLOCK_SIZE, (pos + n) * BLOCK_SIZE);
        }
      }
    }

    method CopyBlock(at: nat, block: seq<Byte>)
      requires at + |block| <= disk.Length
      modifies disk
      ensures disk[..] == Overwrite(old(disk[..]), at, block)
    {
      forall i | 0 <= i < |block| {
        disk[at + i] := block[i];
      }
    }

    /** Copies one block and remembers the image. */
    method WriteBlock(pos: nat, buf: seq<Byte>, i: nat, ghost d: seq<Byte>)
      requires Valid() && |buf| % BLOCK_SIZE == 0 && i < |buf| / BLOCK_SIZE && |d| == disk.Length
      requires (start + pos) * BLOCK_SIZE + |buf| <= disk.Length
      requires disk[..] == Overwrite(d, (start + pos) * BLOCK_SIZE, buf[..i * BLOCK_SIZE])
      modifies `trail, disk
      ensures Valid() && trail == old(trail) + [Contents()]
      ensures disk[..] == Overwrite(d, (start + pos) * BLOCK_SIZE, buf[..(i + 1) * BLOCK_SIZE])
    {
      ChunkStep(d, [], (start + pos) * BLOCK_SIZE, buf, i * BLOCK_SIZE, BLOCK_SIZE);
      assert i * BLOCK_SIZE + BLOCK_SIZE == (i + 1) * BLOCK_SIZE;
      CopyBlock((start + pos) * BLOCK_SIZE + i * BLOCK_SIZE, buf[i * BLOCK_SIZE..i * BLOCK_SIZE + BLOCK_SIZE]);
      trail := trail + [Contents()];
    }

    /** The first `k` blocks of the buffer are in place, one image each. */
    ghost predicate Copied(pos: nat, buf: seq<Byte>, k: nat, d: seq<Byte>, c: seq<Byte>, prior: seq<seq<Byte>>)
      requires k * BLOCK_SIZE <= |buf|
      reads this, disk
    {
      && Valid() && (start + pos) * BLOCK_SIZE + |buf| <= |d|
      && disk[..] == Overwrite(d, (start + pos) * BLOCK_SIZE, buf[..k * BLOCK_SIZE])
      && (pos * BLOCK_SIZE + |buf| <= |c| ==> BlockTrail(prior, trail, c, pos * BLOCK_SIZE, buf[..k * BLOCK_SIZE]))
    }

    method WriteNext(pos: nat, buf: seq<Byte>, i: nat, ghost d: seq<Byte>, ghost c: seq<Byte>, ghost prior: seq<seq<Byte>>)
      requires |buf| % BLOCK_SIZE == 0 && i < |buf| / BLOCK_SIZE && Copied(pos, buf, i, d, c, prior)
      requires end * BLOCK_SIZE <= |d| && c == d[start * BLOCK_SIZE..end * BLOCK_SIZE]
      modifies `trail, disk
      ensures Copied(pos, buf, i + 1, d, c, prior)
    {
      hide Overwrite;
      hide BlockTrail;
      WriteBlock(pos, buf, i, d);
      if pos * BLOCK_SIZE + |buf| <= |c| {
        RegionOverwrite(d, start * BLOCK_SIZE, end * BLOCK_SIZE, pos * BLOCK_SIZE, buf[..(i + 1) * BLOCK_SIZE]);
        TrailExtends(prior, trail, c, pos * BLOCK_SIZE, buf, i);
      }
    }

    /** `write`: whole blocks, at least one, one after the other. */
    method Write(pos: nat, buf: seq<Byte>) returns (r: Outcome)
      requires Valid() && buf != [] && |buf| % BLOCK_SIZE == 0
      modifies `trail, disk
      ensures Valid() && r == Access(pos, |buf| / BLOCK_SIZE)
      ensures r.Success? ==> disk[..] == Overwrite(old(disk[..]), (start + pos) * BLOCK_SIZE, buf)
      ensures !r.Success? ==> disk[..] == old(disk[..]) && trail == old(trail)
      ensures pos * BLOCK_SIZE + |buf| <= |Contents()| ==>
                && r.Success? && Contents() == Overwrite(old(Contents()), pos * BLOCK_SIZE, buf)
                && BlockTrail(old(trail), trail, old(Contents()), pos * BLOCK_SIZE, buf)
    {
      hide Overwrite;
      r := Access(pos, |buf| / BLOCK_SIZE);
      if !r.Success? {
        return;
      }
      ghost var d, c := disk[..], Contents();
      var n := |buf| / BLOCK_SIZE;
      ChunkNone(d, [], (start + pos) * BLOCK_SIZE, buf);
      for i := 0 to n
        invariant Copied(pos, buf, i, d, c, old(trail))
      {
        WriteNext(pos, buf, i, d, c, old(trail));
      }
      assert buf[..n * BLOCK_SIZE] == buf;
      if pos * BLOCK_SIZE + |buf| <= |c| {
        RegionOverwrite(d, start * BLOCK_SIZE, end * BLOCK_SIZE, pos * BLOCK_SIZE, buf);
      }
    }


    /** `read_slice`: rejected exactly when the slice leaves the region or touches no block. */
    method ReadSlice(offset: nat, len: nat) returns (r: Outcome, out: seq<Byte>)
      requires Valid()
      ensures r == if offset + len <= |Contents()| && !(len == 0 && offset % BLOCK_SIZE == 0) then Success else Rejected
      ensures r.Success? ==> out == Contents()[offset..offset + len]
    {
      SliceBlocks(offset, len);
      var first, last := FirstBlock(offset), EndBlock(offset, len);
      if last > NBlocks() || last == first {
        return Rejected, [];
      }
      var blocks;
      r, blocks := Read(first, last - first);
      SubSlice(Contents(), first * BLOCK_SIZE, last * BLOCK_SIZE, offset % BLOCK_SIZE, offset % BLOCK_SIZE + len);
      out := blocks[offset % BLOCK_SIZE..offset % BLOCK_SIZE + len];
    }

    /** How a slice write ends: no block is an error, and a partial last block needs the block behind it. */
    function SliceAccess(offset: nat, len: nat): Outcome
      requires start <= end
    {
      if EndBlock(offset, len) > NBlocks() || EndBlock(offset, len) == FirstBlock(offset) then Rejected
      else if (offset + len) % BLOCK_SIZE != 0 then Access(EndBlock(offset, len), 1)
      else Success
    }

    /** What fills the last block behind a slice: the same bytes of the block after it. */
    function Tail(offset: nat, len: nat): (t: seq<Byte>)
      requires start <= end && SliceAccess(offset, len).Success?
      reads disk
      ensures offset + len + |t| == EndBlock(offset, len) * BLOCK_SIZE
      ensures forall i :: 0 <= i < |t| ==>
                var k := start * BLOCK_SIZE + offset + len + i + BLOCK_SIZE; 0 <= k < disk.Length && t[i] == disk[k]
    {
      SliceBlocks(offset, len);
      if (offset + len) % BLOCK_SIZE == 0 then []
      else
        var b := (start + EndBlock(offset, len)) * BLOCK_SIZE;
        disk[b + (offset + len) % BLOCK_SIZE..b + BLOCK_SIZE]
    }

    /** What the first block holds before the slice. */
    method SliceHead(offset: nat) returns (head: seq<Byte>)
      requires Valid() && offset <= |Contents()|
      ensures head == Contents()[FirstBlock(offset) * BLOCK_SIZE..offset]
    {
      SliceBlocks(offset, 0);
      head := [];
      if offset % BLOCK_SIZE != 0 {
        var _, block := Read(FirstBlock(offset), 1);
        head := block[..offset % BLOCK_SIZE];
        SubSlice(Contents(), FirstBlock(offset) * BLOCK_SIZE, (FirstBlock(offset) + 1) * BLOCK_SIZE, 0, offset % BLOCK_SIZE);
      }
    }

    /** Each byte behind a slice in its last block becomes the byte one block further on. */
    lemma TailTaken(offset: nat, buf: seq<Byte>, i: nat)
      requires Valid() && SliceAccess(offset, |buf|).Success?
      requires offset + |buf| <= i < EndBlock(offset, |buf|) * BLOCK_SIZE
      ensures offset + |buf| + |Tail(offset, |buf|)| <= |Contents()| && start * BLOCK_SIZE + i + BLOCK_SIZE < disk.Length
      ensures SliceWritten(Contents(), offset, buf, Tail(offset, |buf|))[i] == disk[start * BLOCK_SIZE + i + BLOCK_SIZE]
    {
      hide EndBlock;
      hide MemDisk.Tail;
      SliceBlocks(offset, |buf|);
      var t := Tail(offset, |buf|);
      assert t[i - offset - |buf|] == disk[start * BLOCK_SIZE + i + BLOCK_SIZE];
    }

    method SliceTail(offset: nat, len: nat) returns (r: Outcome, tail: seq<Byte>)
      requires Valid() && FirstBlock(offset) < EndBlock(offset, len) <= NBlocks()
      ensures r == SliceAccess(offset, len)
      ensures r.Success? ==> tail == Tail(offset, len)
    {
      hide FirstBlock;
      hide EndBlock;
      SliceBlocks(offset, len);
      if (offset % BLOCK_SIZE + len) % BLOCK_SIZE == 0 {
        return Success, [];
      }
      var block;
      r, block := Read(EndBlock(offset, len), 1);
      if r.Success? {
        tail := block[(offset + len) % BLOCK_SIZE..];
        var b := (start + EndBlock(offset, len)) * BLOCK_SIZE;
        SubSlice(disk[..], b, b + BLOCK_SIZE, (offset + len) % BLOCK_SIZE, BLOCK_SIZE);
      } else {
        tail := [];
      }
    }

    /**
      `write_slice`: the slice goes in, everything before it and behind its last block stays, in every
      image on the way.
     */
    method WriteSlice(offset: nat, buf: seq<Byte>) returns (r: Outcome)
      requires Valid()
      modifies `trail, disk
      ensures Valid() && r == SliceAccess(offset, |buf|)
      ensures !r.Success? ==> disk[..] == old(disk[..]) && trail == old(trail)
      ensures r.Success? ==> Contents() == SliceWritten(old(Contents()), offset, buf, old(Tail(offset, |buf|)))
      ensures r.Success? ==> |trail| == |old(trail)| + EndBlock(offset, |buf|) - FirstBlock(offset)
      ensures old(trail) <= trail
      ensures forall j :: |old(trail)| <= j < |trail| ==>
                |trail[j]| == |Contents()| && offset <= |Contents()| && trail[j][..offset] == old(Contents())[..offset]
    {
      hide FirstBlock;
      hide EndBlock;
      hide Overwrite;
      SliceBlocks(offset, |buf|);
      if EndBlock(offset, |buf|) > NBlocks() || EndBlock(offset, |buf|) == FirstBlock(offset) {
        return Rejected;
      }
      var head := SliceHead(offset);
      var tail;
      r, tail := SliceTail(offset, |buf|);
      if !r.Success? {
        return;
      }
      SliceImages(Contents(), offset, buf, tail, head + buf + tail);
      r := Write(FirstBlock(offset), head + buf + tail);
    }
  }

  // ---------------------------------------------------------------- the two regions of a device

  /** `subdisk_for_data` and `subdisk_for_journal`: the first 7/8 of the blocks and the rest. */
  method SplitDisk(whole: MemDisk) returns (data: MemDisk, journal: MemDisk)
    requires whole.Valid()
    ensures data.Valid() && journal.Valid() && data.disk == journal.disk == whole.disk && data.end == journal.start
    ensures data.NBlocks() == DataRegionEnd(whole.NBlocks()) && data.NBlocks() + journal.NBlocks() == whole.NBlocks()
    ensures data.Contents() + journal.Contents() == whole.Contents()
  {
    var n := whole.NBlocks();
    var d := whole.Subset(0, n * 7 / 8);
    var j := whole.Subset(n * 7 / 8, n);
    data, journal := d.value, j.value;
  }

  /** A write that stays inside one region leaves every other region of the buffer as it was. */
  method WriteApart(region: MemDisk, other: MemDisk, pos: nat, buf: seq<Byte>) returns (r: Outcome)
    requires region.Valid() && other.Valid() && region != other && region.disk == other.disk
    requires region.end <= other.start || other.end <= region.start
    requires buf != [] && |buf| % BLOCK_SIZE == 0 && pos * BLOCK_SIZE + |buf| <= |region.Contents()|
    modifies region`trail, region.disk
    ensures r.Success? && region.Valid() && region.Contents() == Overwrite(old(region.Contents()), pos * BLOCK_SIZE, buf)
    ensures other.Valid() && other.Contents() == old(other.Contents())
  {
    RegionUntouched(region.disk[..], other.start * BLOCK_SIZE, other.end * BLOCK_SIZE, (region.start + pos) * BLOCK_SIZE, buf);
    r := region.Write(pos, buf);
  }

  /** The metadata block and every node of an addressed tree are written without touching the journal. */
  method WriteNode(data: MemDisk, journal: MemDisk, physical: nat, block: seq<Byte>, ghost nblocks: nat, ghost addr: nat)
    returns (r: Outcome)
    requires data.Valid() && journal.Valid() && data != journal && data.disk == journal.disk && data.end <= journal.start
    requires data.NBlocks() == DataRegionEnd(nblocks) && DeviceFits(nblocks) && |block| == BLOCK_SIZE
    requires addr < TotalDataBlocks(nblocks) && (physical < 2 || Live(addr + 1, physical))
    modifies data`trail, data.disk
    ensures r.Success? && data.Valid() && physical < data.NBlocks()
    ensures data.Contents() == Overwrite(old(data.Contents()), physical * BLOCK_SIZE, block)
    ensures journal.Valid() && journal.Contents() == old(journal.Contents())
  {
    DataNumbering(addr);
    AncestorsFit(nblocks, addr, if physical < 2 then DataPhys(addr) else physical);
    r := WriteApart(data, journal, physical, block);
  }
}
