/**
  The data region and the undo journal as the engine sees them: single blocks are written
  atomically, any request may fail, and the region remembers every image it has been in.
 */
module Device {
  import opened Options
  import opened Merkle
  import opened UndoLog

  class BlockFile<B> {
    const nblocks: nat
    /** A reliable device refuses nothing but numbers it does not have. */
    const reliable: bool
    var blocks: map<nat, B>
    /** Every image of the region, oldest first: one per completed block write. */
    ghost var trail: seq<map<nat, B>>

    ghost predicate Valid()
      reads this
    {
      && trail != [] && trail[|trail| - 1] == blocks
      && (forall p :: p in blocks <==> p < nblocks)
    }

    constructor (nblocks: nat, blocks: map<nat, B>, reliable: bool)
      requires forall p :: p in blocks <==> p < nblocks
      ensures Valid() && this.nblocks == nblocks && this.blocks == blocks && trail == [blocks] && this.reliable == reliable
    {
      this.nblocks, this.blocks, trail, this.reliable := nblocks, blocks, [blocks], reliable;
    }

    method Read(number: nat) returns (r: Option<B>)
      ensures r.Some? ==> number in blocks && r.value == blocks[number]
      ensures reliable && number in blocks ==> r.Some?
    {
      var fault: bool := *;
      r := if (fault && !reliable) || number !in blocks then None else Some(blocks[number]);
    }

    /** A write completes as a whole or leaves the region as it was. */
    method Write(number: nat, block: B) returns (ok: bool)
      requires Valid()
      modifies this
      ensures Valid()
      ensures ok ==> number < nblocks && blocks == old(blocks)[number := block] && trail == old(trail) + [blocks]
      ensures !ok ==> blocks == old(blocks) && trail == old(trail)
      ensures reliable && number < nblocks ==> ok
    {
      var fault: bool := *;
      ok := (reliable || !fault) && number < nblocks;
      if ok {
        blocks := blocks[number := block];
        trail := trail + [blocks];
      }
    }

    method Flush() returns (ok: bool)
      ensures reliable ==> ok
    {
      ok := *;
      ok := ok || reliable;
    }
  }

  /** Which requests never fail: the data region's, the journal's appends, all of the journal's, and those for keys. */
  datatype Service = Service(host: bool, appends: bool, journal: bool, keys: bool) {
    predicate All() {
      host && journal && keys
    }
  }

  class UndoJournal {
    const reliable: bool
    /** Appends and commits never fail. */
    const appends: bool
    /** The log since the last reset, persisted and buffered entries alike. */
    var log: seq<Entry<Block>>

    constructor (appends: bool, reliable: bool)
      ensures log == [] && this.appends == appends && this.reliable == reliable
    {
      log, this.appends, this.reliable := [], appends, reliable;
    }

    method Append(number: nat, block: Block) returns (ok: bool)
      modifies this
      ensures ok ==> log == old(log) + [NodeEntry(number, block)]
      ensures appends || reliable ==> ok
    {
      ok := *;
      ok := ok || appends || reliable;
      if ok {
        log := log + [NodeEntry(number, block)];
      } else {
        log := *;
      }
    }

    method Commit() returns (ok: bool)
      modifies this
      ensures ok ==> log == old(log) + [CommitEntry]
      ensures appends || reliable ==> ok
    {
      ok := *;
      ok := ok || appends || reliable;
      if ok {
        log := log + [CommitEntry];
      } else {
        log := *;
      }
    }

    method Flush() returns (ok: bool)
      ensures reliable ==> ok
    {
      ok := *;
      ok := ok || reliable;
    }

    /** The buffer and the write position are cleared before the length block is written. */
    method Reset() returns (ok: bool)
      modifies this
      ensures log == [] && (reliable ==> ok)
    {
      log := [];
      ok := *;
      ok := ok || reliable;
    }
  }
}
