/**
  The block device on top of a protected file: block `addr` is the 4096 bytes behind the metadata
  head that fill one data node.
 */
module PfsDisks {
  import opened Options
  import opened Layout
  import opened Merkle
  import opened FlatFile
  import opened FileState
  import opened BlockSets
  import opened Crash
  import opened ProtectedFile

  /** Block `addr` of the file's bytes. */
  function BlockAt(bytes: seq<Byte>, addr: nat): seq<Byte>
    requires BlockOffset(addr) + BLOCK_SIZE <= |bytes|
  {
    bytes[BlockOffset(addr)..BlockOffset(addr) + BLOCK_SIZE]
  }

  /** Writing blocks changes those blocks and no other. */
  lemma BlocksWritten(bytes: seq<Byte>, addr: nat, buf: seq<Byte>, a: nat)
    requires BlockOffset(addr) <= |bytes| && |buf| % BLOCK_SIZE == 0 && BlockOffset(a) + BLOCK_SIZE <= |bytes|
    ensures var after := Overwrite(bytes, BlockOffset(addr), buf);
            BlockAt(after, a) ==
            if addr <= a < addr + |buf| / BLOCK_SIZE then buf[(a - addr) * BLOCK_SIZE..(a - addr + 1) * BLOCK_SIZE]
            else BlockAt(bytes, a)
  {
    var after := Overwrite(bytes, BlockOffset(addr), buf);
    var at := BlockOffset(a);
    if addr <= a < addr + |buf| / BLOCK_SIZE {
      assert after[at..at + BLOCK_SIZE] == buf[(a - addr) * BLOCK_SIZE..(a - addr + 1) * BLOCK_SIZE];
    } else {
      assert after[at..at + BLOCK_SIZE] == bytes[at..at + BLOCK_SIZE];
    }
  }

  class PfsDisk {
    const file: FileInner
    const totalBlocks: nat
    const canRead: bool
    const canWrite: bool

    ghost predicate Valid()
      reads file, file.host, file.journal, file.root, file.cache, file.cache.list, file.cache.list.footprint, file.pool
    {
      && file.Valid() && !file.append
      && BlockOffset(totalBlocks) <= |file.View().bytes| && Fits(file.maxCachePage, |file.View().bytes|)
    }

    /** A device over a file that has been filled up to its last block. */
    constructor (file: FileInner, totalBlocks: nat, canRead: bool, canWrite: bool)
      requires file.Valid() && !file.append
      requires BlockOffset(totalBlocks) <= |file.View().bytes| && Fits(file.maxCachePage, |file.View().bytes|)
      ensures Valid() && this.file == file && this.totalBlocks == totalBlocks
      ensures this.canRead == canRead && this.canWrite == canWrite
    {
      hide FileInner.Valid;
      this.file, this.totalBlocks, this.canRead, this.canWrite := file, totalBlocks, canRead, canWrite;
    }

    /** `read`; an error below leaves it with a success and a buffer that is filled in part. */
    method Read(addr: nat, buf: array<Byte>) returns (ok: bool)
      requires Valid()
      modifies file, file.pool, file.root, file.host, file.journal, file.cache, file.cache.list, file.cache.list.footprint, buf
      ensures ok <==> canRead && addr < totalBlocks
      ensures !ok ==> Valid() && file.View() == old(file.View()) && buf[..] == old(buf[..])
      ensures GoodTrail(file.host.trail, file.userKey, file.hist)
      ensures ok && !file.lastError ==> Valid() && file.View().bytes == old(file.View()).bytes
      ensures ok && !file.lastError && BlockOffset(addr) + buf.Length <= |file.View().bytes| ==>
                buf[..] == old(file.View()).bytes[BlockOffset(addr)..BlockOffset(addr) + buf.Length]
      ensures ok && file.Serves(NodeCount(old(file.meta.size))) ==> !file.lastError
    {
      hide FileInner.Serves;
      hide FileInner.Valid;
      hide Contents;
      hide GoodTrail;
      hide Fits;
      file.ValidCursor();
      if !canRead || addr >= totalBlocks {
        return false;
      }
      var _ := file.Seek(Start(BlockOffset(addr)));
      file.ValidCursor();
      var n := file.Read(buf);
      if !file.lastError {
        assert buf[..n] == buf[..] || n < buf.Length;
      }
      ok := true;
    }

    /** `write`: the blocks from `addr` on become the buffer, every other block stays; `None` is a panic. */
    method Write(addr: nat, buf: seq<Byte>) returns (r: Option<bool>)
      requires Valid() && |buf| % BLOCK_SIZE == 0
      requires Fits(file.maxCachePage, Max(|file.View().bytes|, BlockOffset(addr) + |buf|))
      modifies file, file.pool, file.root, file.host, file.journal, file.cache, file.cache.list, file.cache.list.footprint
      ensures r == Some(false) <==> !canWrite || addr >= totalBlocks
      ensures r == Some(false) ==> Valid() && file.View() == old(file.View())
      ensures GoodTrail(file.host.trail, file.userKey, file.hist)
      ensures r == Some(true) ==>
                && Valid() && BlockOffset(addr) <= |old(file.View()).bytes|
                && file.View().bytes == Overwrite(old(file.View()).bytes, BlockOffset(addr), buf)
      ensures file.writable && file.Serves(NodeCount(Max(old(file.meta.size), BlockOffset(addr) + |buf|))) ==> r.Some?
      ensures !file.writable && buf != [] && canWrite && addr < totalBlocks ==> r.None?
    {
      hide FileInner.Serves;
      hide FileInner.Valid;
      hide Contents;
      hide GoodTrail;
      hide Fits;
      file.ValidCursor();
      if !canWrite || addr >= totalBlocks {
        return Some(false);
      }
      ghost var before := file.View().bytes;
      var _ := file.Seek(Start(BlockOffset(addr)));
      file.ValidCursor();
      var n := file.Write(buf);
      if n.None? {
        return None;
      }
      NothingWritten(before, BlockOffset(addr), buf);
      r := Some(true);
    }

    /** `sync`: the device's blocks are what a new opening of the data region finds. */
    method Sync() returns (ok: bool)
      requires Valid()
      modifies file, file.pool, file.root, file.host, file.journal
      ensures GoodTrail(file.host.trail, file.userKey, file.hist)
      ensures ok ==> Valid() && file.View() == old(file.View())
      ensures ok ==> Reopen(file.host.blocks, file.userKey) == Snapshot(file.View().bytes)
      ensures file.Serves(NodeCount(old(file.meta.size))) ==> ok
    {
      hide FileInner.Serves;
      hide FileInner.Valid;
      hide Contents;
      hide GoodTrail;
      hide Fits;
      hide Reopen;
      hide TornTrail;
      ok := file.Flush();
    }
  }

  lemma NothingWritten(bytes: seq<Byte>, offset: nat, buf: seq<Byte>)
    requires offset <= |bytes|
    ensures buf == [] ==> Overwrite(bytes, offset, buf) == bytes
  {
  }
}
