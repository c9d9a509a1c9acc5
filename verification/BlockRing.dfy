/**
  A log of blocks on a finite block set: positions are taken modulo the number of blocks.
 */
module BlockRings {
  import opened Options
  import opened Merkle
  import opened FlatFile
  import opened BlockSets

  /** Block `i` of a byte string. */
  function BlockOf(c: seq<Byte>, i: nat): seq<Byte>
    requires (i + 1) * BLOCK_SIZE <= |c|
  {
    c[i * BLOCK_SIZE..(i + 1) * BLOCK_SIZE]
  }

  /** `x` is `q` rounds and `r`. */
  lemma ModIs(x: int, n: nat, q: int, r: nat)
    requires n > 0 && x == q * n + r && r < n
    ensures x % n == r
  {
    var d := x / n - q;
    assert x == (x / n) * n + x % n;
    assert d * n == r - x % n by {
      assert (x / n) * n - q * n == d * n;
    }
    Multiples(d, n);
  }

  lemma Multiples(d: int, n: nat)
    ensures d >= 1 ==> d * n >= n
    ensures d <= -1 ==> d * n <= -(n as int)
  {
  }

  /** Position of a block just written, from its offset in the written buffer. */
  lemma NewSlot(cursor: nat, n: nat, m: nat, p: nat)
    requires n > 0 && cursor % n + m <= n && cursor <= p < cursor + m
    ensures p % n == cursor % n + (p - cursor)
  {
    ModIs(p, n, cursor / n, cursor % n + (p - cursor));
  }

  /** The blocks of the window behind the write are not where the write goes. */
  lemma OldSlot(cursor: nat, n: nat, m: nat, p: nat)
    requires n > 0 && cursor % n + m <= n && p < cursor && cursor + m <= p + n
    ensures p % n < cursor % n || p % n >= cursor % n + m
  {
    var d := cursor - p;
    if d <= cursor % n {
      ModIs(p, n, cursor / n, cursor % n - d);
    } else {
      assert (cursor / n - 1) * n + n == (cursor / n) * n;
      ModIs(p, n, cursor / n - 1, cursor % n - d + n);
    }
  }

  lemma BlockInside(c: seq<Byte>, pos: nat, buf: seq<Byte>, i: nat)
    requires |buf| % BLOCK_SIZE == 0 && pos * BLOCK_SIZE + |buf| <= |c| && i < |buf| / BLOCK_SIZE
    ensures BlockOf(Overwrite(c, pos * BLOCK_SIZE, buf), pos + i) == BlockOf(buf, i)
  {
    var d := Overwrite(c, pos * BLOCK_SIZE, buf);
    assert d[(pos + i) * BLOCK_SIZE..(pos + i + 1) * BLOCK_SIZE] == buf[i * BLOCK_SIZE..(i + 1) * BLOCK_SIZE];
  }

  lemma BlockOutside(c: seq<Byte>, pos: nat, buf: seq<Byte>, i: nat)
    requires |buf| % BLOCK_SIZE == 0 && pos * BLOCK_SIZE + |buf| <= |c| && (i + 1) * BLOCK_SIZE <= |c|
    requires i < pos || i >= pos + |buf| / BLOCK_SIZE
    ensures BlockOf(Overwrite(c, pos * BLOCK_SIZE, buf), i) == BlockOf(c, i)
  {
    var d := Overwrite(c, pos * BLOCK_SIZE, buf);
    assert d[i * BLOCK_SIZE..(i + 1) * BLOCK_SIZE] == c[i * BLOCK_SIZE..(i + 1) * BLOCK_SIZE];
  }

  /** The unbounded log: the blocks appended from `base` on. */
  datatype Log = Log(base: nat, bytes: seq<Byte>) {
    predicate Valid() { |bytes| % BLOCK_SIZE == 0 }
    function End(): nat { base + |bytes| / BLOCK_SIZE }
    function At(p: nat): seq<Byte>
      requires Valid() && base <= p < End()
    {
      BlockOf(bytes, p - base)
    }
  }

  /** The storage holds the last `n` blocks of the log, each at its position modulo `n`. */
  ghost predicate Agrees(c: seq<Byte>, n: nat, log: Log)
    requires n > 0 && |c| == n * BLOCK_SIZE && log.Valid()
  {
    forall p :: log.base <= p < log.End() && log.End() <= p + n ==> BlockOf(c, p % n) == log.At(p)
  }

  lemma AppendAgrees(c: seq<Byte>, n: nat, log: Log, buf: seq<Byte>)
    requires n > 0 && |c| == n * BLOCK_SIZE && log.Valid() && |buf| % BLOCK_SIZE == 0
    requires log.End() % n + |buf| / BLOCK_SIZE <= n && Agrees(c, n, log)
    ensures Agrees(Overwrite(c, log.End() % n * BLOCK_SIZE, buf), n, Log(log.base, log.bytes + buf))
  {
    hide Overwrite;
    hide BlockOf;
    var more := Log(log.base, log.bytes + buf);
    LogGrows(log, buf);
    forall p | more.base <= p < more.End() && more.End() <= p + n
      ensures BlockOf(Overwrite(c, log.End() % n * BLOCK_SIZE, buf), p % n) == more.At(p)
    {
      LogAt(log, buf, p);
      if p >= log.End() {
        NewBlock(c, n, log.End(), buf, p);
      } else {
        OldBlock(c, n, log.End(), buf, p);
      }
    }
  }

  lemma LogGrows(log: Log, buf: seq<Byte>)
    requires log.Valid() && |buf| % BLOCK_SIZE == 0
    ensures Log(log.base, log.bytes + buf).Valid()
    ensures Log(log.base, log.bytes + buf).End() == log.End() + |buf| / BLOCK_SIZE
  {
  }

  /** The longer log has the old blocks and then the new ones. */
  lemma LogAt(log: Log, buf: seq<Byte>, p: nat)
    requires log.Valid() && |buf| % BLOCK_SIZE == 0 && log.base <= p < log.End() + |buf| / BLOCK_SIZE
    ensures var more := Log(log.base, log.bytes + buf);
            && more.Valid() && p < more.End()
            && more.At(p) == if p >= log.End() then BlockOf(buf, p - log.End()) else log.At(p)
  {
    LogGrows(log, buf);
    var more, i := log.bytes + buf, (p - log.base) * BLOCK_SIZE;
    if p >= log.End() {
      assert more[i..i + BLOCK_SIZE] == buf[i - |log.bytes|..i - |log.bytes| + BLOCK_SIZE];
    } else {
      assert more[i..i + BLOCK_SIZE] == log.bytes[i..i + BLOCK_SIZE];
    }
  }

  lemma NewBlock(c: seq<Byte>, n: nat, cursor: nat, buf: seq<Byte>, p: nat)
    requires n > 0 && |c| == n * BLOCK_SIZE && |buf| % BLOCK_SIZE == 0 && cursor % n + |buf| / BLOCK_SIZE <= n
    requires cursor <= p < cursor + |buf| / BLOCK_SIZE
    ensures BlockOf(Overwrite(c, cursor % n * BLOCK_SIZE, buf), p % n) == BlockOf(buf, p - cursor)
  {
    hide Overwrite;
    NewSlot(cursor, n, |buf| / BLOCK_SIZE, p);
    BlockInside(c, cursor % n, buf, p - cursor);
  }

  lemma OldBlock(c: seq<Byte>, n: nat, cursor: nat, buf: seq<Byte>, p: nat)
    requires n > 0 && |c| == n * BLOCK_SIZE && |buf| % BLOCK_SIZE == 0 && cursor % n + |buf| / BLOCK_SIZE <= n
    requires p < cursor && cursor + |buf| / BLOCK_SIZE <= p + n
    ensures BlockOf(Overwrite(c, cursor % n * BLOCK_SIZE, buf), p % n) == BlockOf(c, p % n)
  {
    hide Overwrite;
    OldSlot(cursor, n, |buf| / BLOCK_SIZE, p);
    BlockOutside(c, cursor % n, buf, p % n);
  }

  class BlockRing {
    const storage: MemDisk
    var cursor: Option<nat>
    ghost var log: Log

    ghost predicate Valid()
      reads this, storage, storage.disk
    {
      && storage.Valid() && storage.NBlocks() > 0 && log.Valid()
      && (cursor.Some? ==> cursor.value == log.End() && Agrees(storage.Contents(), storage.NBlocks(), log))
    }

    constructor (storage: MemDisk)
      requires storage.Valid() && storage.NBlocks() > 0
      ensures this.storage == storage && Valid() && cursor == None
    {
      this.storage, cursor, log := storage, None, Log(0, []);
    }

    method SetCursor(c: nat)
      requires Valid()
      modifies this
      ensures Valid() && cursor == Some(c) && log == Log(c, [])
    {
      cursor, log := Some(c), Log(c, []);
    }

    /** Where an append of `n` blocks starts in the storage. */
    function Position(): nat
      requires cursor.Some? && storage.start < storage.end
      reads this
    {
      cursor.value % storage.NBlocks()
    }

    /**
      `append`.  One that stays inside the storage extends the log; one that the bounds check turns
      down changes nothing.  In a storage that starts past block 0 of its buffer the check lets some
      appends run over the end; those are accepted, and nothing is promised of the ring after them.
     */
    method Append(buf: seq<Byte>) returns (r: Option<nat>)
      requires Valid() && cursor.Some? && buf != [] && |buf| % BLOCK_SIZE == 0
      modifies this, storage`trail, storage.disk
      ensures r.Some? <==> storage.Access(old(Position()), |buf| / BLOCK_SIZE).Success?
      ensures old(Position()) + |buf| / BLOCK_SIZE <= storage.NBlocks() ==>
                r == old(cursor) && Valid() && log == Log(old(log).base, old(log).bytes + buf)
      ensures r.None? ==> Valid() && cursor == old(cursor) && log == old(log)
      ensures storage.start == 0 ==> Valid()
    {
      hide Overwrite;
      hide Agrees;
      hide BlockTrail;
      var n := storage.NBlocks();
      var pos := cursor.value % n;
      var next := cursor.value + |buf| / BLOCK_SIZE;
      if pos + |buf| / BLOCK_SIZE <= n {
        AppendAgrees(storage.Contents(), n, log, buf);
      }
      var outcome := storage.Write(pos, buf);
      if !outcome.Success? {
        return None;
      }
      r := cursor;
      assert next == Log(log.base, log.bytes + buf).End();
      cursor, log := Some(next), Log(log.base, log.bytes + buf);
    }

    /** `read`: on the last `n` blocks the ring is the unbounded log. */
    method Read(p: nat) returns (block: seq<Byte>)
      requires Valid()
      ensures cursor.Some? && log.base <= p < log.End() && log.End() <= p + storage.NBlocks() ==> block == log.At(p)
    {
      var _, out := storage.Read(p % storage.NBlocks(), 1);
      block := out;
    }
  }
}
