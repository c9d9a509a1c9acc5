/**
  Whole runs of operations on a protected file: what they return, what every image of the data
  region opens as, and what survives a flush and a new opening.
 */
module Runs {
  import opened Options
  import opened Layout
  import opened Merkle
  import opened FlatFile
  import opened LruCaches
  import opened FileState
  import opened FlushState
  import opened Crash
  import opened Device
  import opened ProtectedFile

  /** The cache is larger than the tree is deep, whatever part of the run has been done. */
  ghost predicate RunFits(cap: nat, start: Flat, append: bool, ops: seq<Op>)
    requires start.cursor <= |start.bytes|
  {
    forall k :: 0 <= k <= |ops| && FlatRun(start, append, ops[..k]).Some? ==>
      Fits(cap, |FlatRun(start, append, ops[..k]).value.1.bytes|)
  }

  ghost predicate StepFits(cap: nat, f: Flat, append: bool, op: Op)
    requires f.cursor <= |f.bytes|
  {
    Fits(cap, |f.bytes|) && (FlatStep(f, append, op).Some? ==> Fits(cap, |FlatStep(f, append, op).value.1.bytes|))
  }

  /** The operation needs permission to write. */
  predicate NeedsWrite(op: Op) {
    (op.Write? && op.buf != []) || op.WriteAt?
  }

  /** Nothing stands in the way of the operation: it is allowed, does not panic, and the device serves it. */
  ghost predicate Granted(f: FileInner, before: Flat, op: Op)
    requires before.cursor <= |before.bytes|
  {
    && (NeedsWrite(op) ==> f.writable) && FlatStep(before, f.append, op).Some?
    && f.Serves(NodeCount(|FlatStep(before, f.append, op).value.1.bytes|))
  }

  method StepRead(f: FileInner, len: nat) returns (r: Option<Output>)
    requires f.Valid() && Fits(f.maxCachePage, f.meta.size)
    modifies f, f.pool, f.root, f.host, f.journal, f.cache, f.cache.list, f.cache.list.footprint
    ensures GoodTrail(f.host.trail, f.userKey, f.hist) && f.hist == old(f.hist)
    ensures fresh(f.cache.list.footprint - old(f.cache.list.footprint)) && fresh(f.pool - old(f.pool))
    ensures r.Some? ==> f.Valid() && (r.value.Bytes? && (r.value.bytes, f.View()) == FlatRead(old(f.View()), len))
    ensures r.None? ==> f.Broken()
    ensures f.Serves(NodeCount(old(f.meta.size))) ==> r.Some?
  {
    hide FileInner.Broken;
    hide FileInner.Serves;
    hide FileInner.Valid;
    hide Contents;
    hide GoodTrail;
    hide Fits;
    f.ValidCursor();
    var buf := new Byte[len];
    var n := f.Read(buf);
    return if f.lastError then None else Some(Bytes(buf[..n]));
  }

  method StepReadAt(f: FileInner, len: nat, at: nat) returns (r: Option<Output>)
    requires f.Valid() && Fits(f.maxCachePage, f.meta.size)
    modifies f, f.pool, f.root, f.host, f.journal, f.cache, f.cache.list, f.cache.list.footprint
    ensures GoodTrail(f.host.trail, f.userKey, f.hist) && f.hist == old(f.hist)
    ensures fresh(f.cache.list.footprint - old(f.cache.list.footprint)) && fresh(f.pool - old(f.pool))
    ensures r.Some? ==> f.Valid() && (r.value.Bytes? && (r.value.bytes, f.View()) == FlatReadAt(old(f.View()), len, at))
    ensures r.None? ==> f.Broken()
    ensures f.Serves(NodeCount(old(f.meta.size))) ==> r.Some?
  {
    hide FileInner.Broken;
    hide FileInner.Serves;
    hide FileInner.Valid;
    hide Contents;
    hide GoodTrail;
    hide Fits;
    f.ValidCursor();
    var buf := new Byte[len];
    var n := f.ReadAt(buf, at);
    return if f.lastError then None else Some(Bytes(buf[..n]));
  }

  method StepFlush(f: FileInner) returns (r: Option<Output>)
    requires f.Valid()
    modifies f, f.pool, f.root, f.host, f.journal
    ensures GoodTrail(f.host.trail, f.userKey, f.hist) && f.hist == old(f.hist) && f.pool == old(f.pool)
    ensures r.Some? ==> f.Valid() && r.value == Done && f.View() == old(f.View())
    ensures r.None? ==> f.Broken()
    ensures f.Serves(NodeCount(old(f.meta.size))) ==> r.Some?
  {
    hide FileInner.Serves;
    hide FileInner.Valid;
    hide FileInner.Intact;
    hide FileInner.Failed;
    hide FileInner.Tidy;
    hide Contents;
    hide GoodTrail;
    hide TornTrail;
    hide Reopen;
    f.ValidCursor();
    var ok := f.Flush();
    if !ok {
      f.ClearableWidens(NodeCount(f.meta.size), NodeCount(f.meta.size) + 1);
    }
    r := if ok then Some(Done) else None;
  }

  method StepClear(f: FileInner) returns (r: Option<Output>)
    requires f.Valid()
    modifies f, f.pool, f.root, f.host, f.journal, f.cache, f.cache.list, f.cache.list.footprint
    ensures GoodTrail(f.host.trail, f.userKey, f.hist) && f.hist == old(f.hist)
    ensures f.cache.list.footprint == old(f.cache.list.footprint) && f.pool == old(f.pool)
    ensures r.Some? ==> f.Valid() && r.value == Done && f.View() == old(f.View())
    ensures r.None? ==> f.Broken()
    ensures f.Serves(NodeCount(old(f.meta.size))) ==> r.Some?
  {
    hide FileInner.Serves;
    hide FileInner.Valid;
    hide FileInner.Intact;
    hide FileInner.Failed;
    hide FileInner.Tidy;
    hide Contents;
    hide GoodTrail;
    f.ValidIsIntact();
    f.ValidCursor();
    var ok := f.ClearCache(NodeCount(f.meta.size));
    f.ValidIsIntact();
    if !ok {
      f.ClearableWidens(NodeCount(f.meta.size), NodeCount(f.meta.size) + 1);
    }
    r := if ok then Some(Done) else None;
  }

  /** One operation; `None` if it failed or panicked. */
  method Step(f: FileInner, op: Op) returns (r: Option<Output>)
    requires f.Valid() && StepFits(f.maxCachePage, f.View(), f.append, op)
    modifies f, f.pool, f.root, f.host, f.journal, f.cache, f.cache.list, f.cache.list.footprint
    ensures GoodTrail(f.host.trail, f.userKey, f.hist)
    ensures fresh(f.cache.list.footprint - old(f.cache.list.footprint)) && fresh(f.pool - old(f.pool))
    ensures old(f.hist) <= f.hist <= old(f.hist) + StepEdits(old(f.View()), f.append, op)
    ensures r.Some? ==> f.Valid() && FlatStep(old(f.View()), f.append, op) == Some((r.value, f.View()))
    ensures r.Some? ==> f.hist == old(f.hist) + StepEdits(old(f.View()), f.append, op)
    ensures r.None? ==> f.Broken()
    ensures Granted(f, old(f.View()), op) ==> r.Some?
  {
    hide FileInner.Broken;
    hide FileInner.Serves;
    hide NodeCount;
    hide FileInner.Valid;
    hide Contents;
    hide GoodTrail;
    hide Fits;
    hide Edits;
    hide Overwrite;
    hide FlatRead;
    hide FlatReadAt;
    hide FlatWriteAt;
    f.ValidCursor();
    if FlatStep(f.View(), f.append, op).Some? {
      f.ServesSize(|FlatStep(f.View(), f.append, op).value.1.bytes|, f.meta.size);
    }
    match op
    case Seek(pos) =>
      var at := f.Seek(pos);
      f.ValidCursor();
      f.ValidBroken();
      r := if at.None? then None else Some(Position(at.value));
    case Read(len) =>
      r := StepRead(f, len);
    case Write(buf) =>
      var n := f.Write(buf);
      r := if n.None? then None else Some(Written(n.value));
    case ReadAt(len, at) =>
      r := StepReadAt(f, len, at);
    case WriteAt(buf, at) =>
      var n := f.WriteAt(buf, at);
      r := if n.None? then None else Some(Written(n.value));
    case Flush =>
      r := StepFlush(f);
    case ClearCache =>
      r := StepClear(f);
  }

  lemma FitsStep(cap: nat, start: Flat, append: bool, ops: seq<Op>, k: nat)
    requires start.cursor <= |start.bytes| && RunFits(cap, start, append, ops)
    requires k < |ops| && FlatRun(start, append, ops[..k]).Some?
    ensures StepFits(cap, FlatRun(start, append, ops[..k]).value.1, append, ops[k])
  {
    hide Fits;
    hide FlatStep;
    RunExtends(start, append, ops, k);
  }

  /** After `k` operations of a run: the outputs, the file and the edits are the flat file's. */
  ghost predicate Ran(f: FileInner, start: Flat, h: seq<Edit>, ops: seq<Op>, k: nat, outputs: seq<Output>)
    requires start.cursor <= |start.bytes| && k <= |ops|
    reads f, f.host, f.journal, f.root, f.cache, f.cache.list, f.cache.list.footprint, f.pool
  {
    && f.Valid()
    && FlatRun(start, f.append, ops[..k]) == Some((outputs, f.View()))
    && f.hist == h + History(start, f.append, ops[..k])
  }

  /** The edits a run can have made by its `k`th operation, finished or not. */
  ghost predicate Within(start: Flat, append: bool, h: seq<Edit>, ops: seq<Op>, k: nat, hist: seq<Edit>)
    requires start.cursor <= |start.bytes| && k <= |ops| && FlatRun(start, append, ops[..k]).Some?
  {
    var done := h + History(start, append, ops[..k]);
    && done <= hist
    && hist <= done + if k < |ops| then StepEdits(FlatRun(start, append, ops[..k]).value.1, append, ops[k]) else []
  }

  /** The whole run is allowed and does not panic, and the device serves the file it ends with. */
  ghost predicate Served(f: FileInner, start: Flat, ops: seq<Op>)
    requires start.cursor <= |start.bytes|
  {
    && (forall op :: op in ops && NeedsWrite(op) ==> f.writable) && FlatRun(start, f.append, ops).Some?
    && f.Serves(NodeCount(|FlatRun(start, f.append, ops).value.1.bytes|))
  }

  lemma ServedStep(f: FileInner, start: Flat, ops: seq<Op>, k: nat)
    requires start.cursor <= |start.bytes| && k < |ops| && Served(f, start, ops)
    ensures FlatRun(start, f.append, ops[..k]).Some?
    ensures Granted(f, FlatRun(start, f.append, ops[..k]).value.1, ops[k])
  {
    hide FileInner.Serves;
    hide NodeCount;
    hide FlatStep;
    RunGrows(start, f.append, ops, k);
    RunGrows(start, f.append, ops, k + 1);
    RunExtends(start, f.append, ops, k);
    f.ServesSize(|FlatRun(start, f.append, ops).value.1.bytes|, |FlatRun(start, f.append, ops[..k + 1]).value.1.bytes|);
  }

  /** One more operation of a run. */
  method RunStep(f: FileInner, ops: seq<Op>, k: nat, outputs: seq<Output>, ghost start: Flat, ghost h: seq<Edit>)
    returns (r: Option<Output>)
    requires start.cursor <= |start.bytes| && k < |ops| && RunFits(f.maxCachePage, start, f.append, ops)
    requires Ran(f, start, h, ops, k, outputs)
    modifies f, f.pool, f.root, f.host, f.journal, f.cache, f.cache.list, f.cache.list.footprint
    ensures GoodTrail(f.host.trail, f.userKey, f.hist)
    ensures fresh(f.cache.list.footprint - old(f.cache.list.footprint)) && fresh(f.pool - old(f.pool))
    ensures r.Some? ==> Ran(f, start, h, ops, k + 1, outputs + [r.value])
    ensures Within(start, f.append, h, ops, k, f.hist)
    ensures r.None? ==> f.Broken()
    ensures Served(f, start, ops) ==> r.Some?
  {
    hide FileInner.Broken;
    hide Granted;
    hide Served;
    hide FileInner.Valid;
    hide Contents;
    hide GoodTrail;
    hide StepEdits;
    hide FlatStep;
    hide FlatRun;
    hide History;
    hide RunFits;
    hide StepFits;
    f.ValidCursor();
    FitsStep(f.maxCachePage, start, f.append, ops, k);
    RunExtends(start, f.append, ops, k);
    if Served(f, start, ops) {
      ServedStep(f, start, ops, k);
    }
    r := Step(f, ops[k]);
  }

  /**
    A run on an open file.  Each operation that succeeds returns what the flat file returns; the run
    stops at the first that fails, and on a reliable device that has the blocks none does.  Every
    image the data region went through, also inside the operation that failed, does not open or
    opens as the whole file after some prefix of the edits, and none shows less than one before it.
   */
  method RunOn(f: FileInner, ops: seq<Op>, ghost start: Flat, ghost h: seq<Edit>) returns (outputs: seq<Output>)
    requires f.Valid() && start == f.View() && h == f.hist
    requires start.cursor <= |start.bytes| && RunFits(f.maxCachePage, start, f.append, ops)
    modifies f, f.pool, f.root, f.host, f.journal, f.cache, f.cache.list, f.cache.list.footprint
    ensures |outputs| <= |ops| && FlatRun(start, f.append, ops[..|outputs|]).Some?
    ensures outputs == FlatRun(start, f.append, ops[..|outputs|]).value.0
    ensures |outputs| == |ops| ==> Ran(f, start, h, ops, |ops|, outputs)
    ensures Within(start, f.append, h, ops, |outputs|, f.hist)
    ensures GoodTrail(f.host.trail, f.userKey, f.hist)
    ensures fresh(f.cache.list.footprint - old(f.cache.list.footprint)) && fresh(f.pool - old(f.pool))
    ensures |outputs| < |ops| ==> f.Broken()
    ensures Served(f, start, ops) ==> |outputs| == |ops|
  {
    hide FileInner.Broken;
    hide Served;
    hide FileInner.Valid;
    hide Contents;
    hide GoodTrail;
    hide StepEdits;
    hide FlatStep;
    hide RunFits;
    f.ValidCursor();
    outputs := [];
    while |outputs| < |ops|
      invariant |outputs| <= |ops| && Ran(f, start, h, ops, |outputs|, outputs)
      invariant GoodTrail(f.host.trail, f.userKey, f.hist)
      invariant fresh(f.cache.list.footprint - old(f.cache.list.footprint)) && fresh(f.pool - old(f.pool))
    {
      var r := RunStep(f, ops, |outputs|, outputs, start, h);
      if r.None? {
        return;
      }
      outputs := outputs + [r.value];
    }
    assert ops[..|outputs|] == ops;
  }

  /**
    A run, and the repair of what its first failure leaves.  The repaired file is open: its bytes are
    those of the edits made so far, all on disk, and another run can follow.
   */
  method RunAndRepair(f: FileInner, ops: seq<Op>, ghost start: Flat, ghost h: seq<Edit>) returns (outputs: seq<Output>, ok: bool)
    requires f.Valid() && start == f.View() && h == f.hist
    requires start.cursor <= |start.bytes| && RunFits(f.maxCachePage, start, f.append, ops)
    modifies f, f.pool, f.root, f.host, f.journal, f.cache, f.cache.list, f.cache.list.footprint
    ensures |outputs| <= |ops| && FlatRun(start, f.append, ops[..|outputs|]).Some?
    ensures outputs == FlatRun(start, f.append, ops[..|outputs|]).value.0
    ensures Within(start, f.append, h, ops, |outputs|, f.hist)
    ensures GoodTrail(f.host.trail, f.userKey, f.hist)
    ensures fresh(f.cache.list.footprint - old(f.cache.list.footprint)) && fresh(f.pool - old(f.pool))
    ensures ok ==> f.Valid() && f.View().bytes == Replay(f.hist)
    ensures ok && |outputs| < |ops| ==> Reopen(f.host.blocks, f.userKey) == Snapshot(Replay(f.hist))
    ensures !ok ==> |outputs| < |ops| && f.Broken()
  {
    hide Served;
    hide FileInner.Valid;
    hide FileInner.Clearable;
    hide Contents;
    hide GoodTrail;
    hide Reopen;
    hide Within;
    hide FlatRun;
    hide RunFits;
    hide Ran;
    hide Replay;
    outputs := RunOn(f, ops, start, h);
    if |outputs| == |ops| {
      RanValid(f, start, h, ops, |ops|, outputs);
      f.ValidBroken();
      ok := true;
    } else {
      ok := f.Repair(NodeCount(f.meta.size) + 1);
      if ok {
        f.ValidBroken();
      }
    }
    if ok {
      f.ClearableBytes(NodeCount(f.meta.size) + 1);
    }
  }

  lemma RanValid(f: FileInner, start: Flat, h: seq<Edit>, ops: seq<Op>, k: nat, outputs: seq<Output>)
    requires start.cursor <= |start.bytes| && k <= |ops| && Ran(f, start, h, ops, k, outputs)
    ensures f.Valid()
  {
  }

  /** A run from `create`, over whatever the data region held before. */
  method CreateAndRun(nblocks: nat, blocks: Disk, userKey: Key, maxCachePage: nat, writable: bool, append: bool, service: Service,
                      ops: seq<Op>)
    returns (f: FileInner, outputs: seq<Output>)
    requires (forall p :: p in blocks <==> p < nblocks) && RunFits(maxCachePage, Flat([], 0, false), append, ops)
    ensures |outputs| <= |ops| && FlatRun(Flat([], 0, false), append, ops[..|outputs|]).Some?
    ensures outputs == FlatRun(Flat([], 0, false), append, ops[..|outputs|]).value.0
    ensures Within(Flat([], 0, false), append, [], ops, |outputs|, f.hist)
    ensures |outputs| == |ops| ==> f.Valid() && FlatRun(Flat([], 0, false), append, ops) == Some((outputs, f.View()))
    ensures GoodTrail(f.host.trail, userKey, f.hist)
    ensures f.writable == writable && f.Reliable() == service.All() && f.host.nblocks == nblocks
    ensures Served(f, Flat([], 0, false), ops) ==> |outputs| == |ops|
  {
    hide Served;
    hide FileInner.Valid;
    hide Contents;
    hide GoodTrail;
    hide FlatRun;
    hide RunFits;
    hide History;
    f := new FileInner(nblocks, blocks, userKey, maxCachePage, writable, append, service);
    outputs := RunOn(f, ops, Flat([], 0, false), []);
    assert ops[..|ops|] == ops;
  }

  /**
    A flush that succeeds makes the whole file durable: opening the data region again gives a file
    with the same bytes, whatever was or was not in the cache.  The log must be empty, so that there
    is nothing to roll back.
   */
  method FlushAndReopen(f: FileInner, maxCachePage: nat, writable: bool, append: bool, update: bool, service: Service)
    returns (r: Option<FileInner>)
    requires f.Valid()
    modifies f, f.pool, f.root, f.host, f.journal
    ensures r.Some? ==> fresh(r.value) && r.value.Valid() && r.value.host.blocks == f.host.blocks
    ensures r.Some? ==> r.value.View() == Flat(old(f.View()).bytes, if append && !update then old(f.meta.size) else 0, false)
    ensures f.Serves(NodeCount(old(f.meta.size))) && (old(f.needWriting) || old(f.journal.log) == []) ==> r.Some?
    ensures GoodTrail(f.host.trail, f.userKey, f.hist)
  {
    hide FileInner.Valid;
    hide Contents;
    hide GoodTrail;
    hide OpenFile;
    hide Stored;
    hide Shaped;
    hide FileInner.Serves;
    f.ValidCursor();
    var ok := f.Flush();
    if !ok || f.journal.log != [] {
      return None;
    }
    f.ValidCursor();
    f.CleanFileOpens();
    var read := OpenFile(f.host.blocks, f.userKey);
    var g := new FileInner.Open(f.host.nblocks, f.host.blocks, f.userKey, maxCachePage, writable, append, service,
                                if append && !update then read.meta.size else 0, read.meta, read.root, f.tree);
    return Some(g);
  }

  /**
    A flush that fails anywhere, and the retries after it.  Once one attempt succeeds the file is
    open again, unchanged and stored, and a run can go on.
   */
  method FlushRetrying(f: FileInner, retries: nat) returns (ok: bool)
    requires f.Valid()
    modifies f, f.pool, f.root, f.host, f.journal
    ensures GoodTrail(f.host.trail, f.userKey, f.hist) && f.hist == old(f.hist) && f.View() == old(f.View())
    ensures ok ==> f.Valid() && Reopen(f.host.blocks, f.userKey) == Snapshot(f.View().bytes)
    ensures !ok ==> f.Clearable(NodeCount(f.meta.size)) && f.Tidy()
    ensures f.Serves(NodeCount(old(f.meta.size))) ==> ok
  {
    hide FileInner.Serves;
    hide FileInner.Valid;
    hide FileInner.Intact;
    hide FileInner.Failed;
    hide FileInner.Tidy;
    hide GoodTrail;
    hide TornTrail;
    hide Reopen;
    hide Contents;
    hide Target;
    hide FileInner.Cached;
    f.ValidCursor();
    ghost var bound := NodeCount(f.meta.size);
    ok := f.Flush();
    var left := retries;
    while !ok && left > 0
      invariant GoodTrail(f.host.trail, f.userKey, f.hist) && f.hist == old(f.hist) && f.View() == old(f.View())
      invariant !f.lastError && f.pool == old(f.pool) && f.meta.size == old(f.meta.size) && f.offset <= f.meta.size
      invariant !ok ==> f.status != StatusOk && f.Failed(bound) && f.Tidy() && !f.Serves(bound)
      invariant ok ==> f.Valid() && Reopen(f.host.blocks, f.userKey) == Snapshot(f.View().bytes)
      decreases left
    {
      ok := f.ClearError(bound);
      f.ValidIsIntact();
      if ok {
        f.CleanFileStored();
      }
      left := left - 1;
    }
  }
}
