/**
  The journal's record framing and the recovery scan over it.
 */
module Recovery {
  import opened Options
  import opened Layout
  import opened Merkle
  import opened UndoLog
  import opened Device
  import opened Journal

  /** A record's payload: a node number and the node's ciphertext. */
  const RECOVERY_NODE_SIZE := WORD + NODE_SIZE
  const NODE_FLAG: Byte := 0
  const COMMIT_FLAG: Byte := 1

  type Record = Entry<seq<Byte>>

  predicate WellFormed(e: Record) {
    e.NodeEntry? ==> e.number < Pow256(WORD) && |e.block| == NODE_SIZE
  }

  function Payload(number: nat, block: seq<Byte>): seq<Byte> {
    ToLe(number, WORD) + block
  }

  function EncodeOne(e: Record): seq<Byte> {
    match e
    case NodeEntry(number, block) => [NODE_FLAG] + Payload(number, block)
    case CommitEntry => [COMMIT_FLAG]
  }

  /** A node record byte by byte: the flag 0, the number from its lowest digit up, and the block. */
  lemma RecordBytes(number: nat, block: seq<Byte>, i: nat)
    requires i < 1 + WORD + |block|
    ensures var bytes := EncodeOne(NodeEntry(number, block));
            && |bytes| == 1 + WORD + |block|
            && (i == 0 ==> bytes[i] == 0)
            && (0 < i <= WORD ==> Pow256(i - 1) > 0 && bytes[i] == number / Pow256(i - 1) % 256)
            && (WORD < i ==> bytes[i] == block[i - 1 - WORD])
  {
    if 0 < i <= WORD {
      LeDigit(number, WORD, i - 1);
      assert EncodeOne(NodeEntry(number, block))[i] == ToLe(number, WORD)[i - 1];
    }
  }

  function Encode(es: seq<Record>): seq<Byte> {
    if es == [] then [] else EncodeOne(es[0]) + Encode(es[1..])
  }

  function Parse(payload: seq<Byte>): Record
    requires |payload| == RECOVERY_NODE_SIZE
  {
    NodeEntry(FromLe(payload[..WORD]), payload[WORD..])
  }

  /**
    The records of a log: the complete ones, up to a record that is cut short.  `None` when a flag
    is neither of the two, which the source takes for corruption.
   */
  function Decode(log: seq<Byte>): Option<seq<Record>>
    decreases |log|
  {
    if log == [] then Some([])
    else if log[0] == COMMIT_FLAG then Cons(CommitEntry, Decode(log[1..]))
    else if log[0] != NODE_FLAG then None
    else if |log| < 1 + RECOVERY_NODE_SIZE then Some([])
    else Cons(Parse(log[1..1 + RECOVERY_NODE_SIZE]), Decode(log[1 + RECOVERY_NODE_SIZE..]))
  }

  function Cons(e: Record, rest: Option<seq<Record>>): Option<seq<Record>> {
    if rest.None? then None else Some([e] + rest.value)
  }

  /** How many bytes the records take. */
  function Length(es: seq<Record>): nat {
    if es == [] then 0 else Length(es[..|es| - 1]) + LengthOne(es[|es| - 1])
  }

  function LengthOne(e: Record): nat {
    if e.NodeEntry? then 1 + RECOVERY_NODE_SIZE else 1
  }

  // ---------------------------------------------------------------- framing

  lemma ParsePayload(number: nat, block: seq<Byte>)
    requires WellFormed(NodeEntry(number, block))
    ensures |Payload(number, block)| == RECOVERY_NODE_SIZE && Parse(Payload(number, block)) == NodeEntry(number, block)
  {
    LeRoundTrip(number, WORD);
    assert Payload(number, block)[..WORD] == ToLe(number, WORD);
    assert Payload(number, block)[WORD..] == block;
  }

  /** One record in front of a log is what the scan finds first. */
  lemma DecodeFirst(e: Record, rest: seq<Byte>)
    requires WellFormed(e)
    ensures Decode(EncodeOne(e) + rest) == Cons(e, Decode(rest))
  {
    var log := EncodeOne(e) + rest;
    match e
    case CommitEntry =>
      assert log[1..] == rest;
    case NodeEntry(number, block) =>
      ParsePayload(number, block);
      assert log[1..1 + RECOVERY_NODE_SIZE] == Payload(number, block);
      assert log[1 + RECOVERY_NODE_SIZE..] == rest;
  }

  /** A record that is cut short is found by neither scan. */
  lemma DecodeCut(e: Record, n: nat)
    requires WellFormed(e) && n < |EncodeOne(e)|
    ensures Decode(EncodeOne(e)[..n]) == Some([])
  {
    if e.NodeEntry? {
      ParsePayload(e.number, e.block);
    }
  }

  /**
    On every byte prefix of a well-formed log the scan finds exactly the records that are complete
    in it; no payload byte is taken for a flag.
   */
  lemma {:induction false} PrefixDecodes(es: seq<Record>, n: nat) returns (k: nat)
    requires (forall e :: e in es ==> WellFormed(e)) && n <= |Encode(es)|
    ensures k <= |es| && Decode(Encode(es)[..n]) == Some(es[..k])
    ensures |Encode(es[..k])| <= n && (k < |es| ==> n < |Encode(es[..k + 1])|)
  {
    hide EncodeOne;
    hide Parse;
    hide FromLe;
    if es == [] {
      return 0;
    }
    var first, rest := EncodeOne(es[0]), Encode(es[1..]);
    if n < |first| {
      assert Encode(es)[..n] == first[..n];
      DecodeCut(es[0], n);
      assert es[..1] == [es[0]];
      assert Encode(es[..1]) == first + Encode([]);
      return 0;
    }
    var i := PrefixDecodes(es[1..], n - |first|);
    assert Encode(es)[..n] == first + rest[..n - |first|];
    DecodeFirst(es[0], rest[..n - |first|]);
    assert es[..i + 1][1..] == es[1..][..i];
    assert es[..i + 1] == [es[0]] + es[1..][..i];
    if i + 1 < |es| {
      assert es[..i + 2][1..] == es[1..][..i + 1];
    }
    return i + 1;
  }

  /** A whole well-formed log is read back record by record. */
  lemma {:induction false} EncodeDecodes(es: seq<Record>)
    requires forall e :: e in es ==> WellFormed(e)
    ensures Decode(Encode(es)) == Some(es)
  {
    if es != [] {
      EncodeDecodes(es[1..]);
      DecodeFirst(es[0], Encode(es[1..]));
      assert [es[0]] + es[1..] == es;
    }
  }

  // ---------------------------------------------------------------- the last commit

  /** How many records there are up to and including the last commit. */
  function CommitEnd(es: seq<Record>): (n: nat)
    ensures n <= |es| && (n > 0 ==> es[n - 1].CommitEntry?)
  {
    if es == [] then 0
    else if es[|es| - 1].CommitEntry? then |es|
    else CommitEnd(es[..|es| - 1])
  }

  lemma {:induction false} UncommittedFrom(es: seq<Record>)
    ensures Uncommitted(es) == es[CommitEnd(es)..]
  {
    hide Uncommitted;
    hide CommitEnd;
    if es == [] {
      LastStep(es);
    } else {
      var init := es[..|es| - 1];
      UncommittedFrom(init);
      LastStep(es);
      SliceLast(es, CommitEnd(init));
    }
  }

  /** One step of both scans for the last commit. */
  lemma LastStep(es: seq<Record>)
    ensures es == [] ==> Uncommitted(es) == [] && CommitEnd(es) == 0
    ensures es != [] && es[|es| - 1].CommitEntry? ==> Uncommitted(es) == [] && CommitEnd(es) == |es|
    ensures es != [] && es[|es| - 1].NodeEntry? ==>
              && Uncommitted(es) == Uncommitted(es[..|es| - 1]) + [es[|es| - 1]]
              && CommitEnd(es) == CommitEnd(es[..|es| - 1])
  {
  }

  lemma SliceLast(es: seq<Record>, n: nat)
    requires n < |es|
    ensures es[n..] == es[..|es| - 1][n..] + [es[|es| - 1]] && es[|es|..] == []
  {
  }

  lemma {:induction false} LengthGrows(es: seq<Record>, k: nat)
    requires k <= |es|
    ensures Length(es[..k]) + (|es| - k) <= Length(es)
    decreases |es|
  {
    if k < |es| {
      LengthGrows(es[..|es| - 1], k);
      assert es[..|es| - 1][..k] == es[..k];
    } else {
      assert es[..k] == es;
    }
  }

  /** By end offset, a node record lies behind the last commit exactly when it comes after it. */
  lemma BehindCommit(es: seq<Record>, i: nat)
    requires i < |es| && es[i].NodeEntry?
    ensures Length(es[..i + 1]) >= Length(es[..CommitEnd(es)]) <==> i >= CommitEnd(es)
  {
    var n := CommitEnd(es);
    if i >= n {
      LengthGrows(es[..i + 1], n);
      assert es[..i + 1][..n] == es[..n];
    } else {
      assert i + 1 < n;
      LengthGrows(es[..n], i + 1);
      assert es[..n][..i + 1] == es[..i + 1];
    }
  }

  // ---------------------------------------------------------------- first scan

  /** Where a scan of `log` stands: `done` is behind it, the rest is still to be decoded. */
  ghost predicate Scanned(log: seq<Byte>, offset: nat, done: seq<Record>) {
    if offset <= |log| then
      && offset == Length(done)
      && Decode(log) == Prepend(done, Decode(log[offset..]))
    else Decode(log) == Some(done)
  }

  function Prepend(done: seq<Record>, rest: Option<seq<Record>>): Option<seq<Record>> {
    if rest.None? then None else Some(done + rest.value)
  }

  lemma ScanStarts(log: seq<Byte>)
    ensures Scanned(log, 0, [])
  {
    assert log[0..] == log;
    if Decode(log).Some? {
      assert [] + Decode(log).value == Decode(log).value;
    }
  }

  lemma ScanEnds(log: seq<Byte>, offset: nat, done: seq<Record>)
    requires Scanned(log, offset, done) && offset >= |log|
    ensures Decode(log) == Some(done)
  {
    if offset == |log| {
      assert log[offset..] == [];
      assert done + [] == done;
    }
  }

  lemma ScanBadFlag(log: seq<Byte>, offset: nat, done: seq<Record>)
    requires Scanned(log, offset, done) && offset < |log| && log[offset] != NODE_FLAG && log[offset] != COMMIT_FLAG
    ensures Decode(log).None?
  {
    assert log[offset..][0] == log[offset];
  }

  lemma ScanCommit(log: seq<Byte>, offset: nat, done: seq<Record>)
    requires Scanned(log, offset, done) && offset < |log| && log[offset] == COMMIT_FLAG
    ensures Scanned(log, offset + 1, done + [CommitEntry])
  {
    var rest := log[offset..];
    assert rest[0] == log[offset] && rest[1..] == log[offset + 1..];
    PrependMore(done, CommitEntry, Decode(log[offset + 1..]));
  }

  lemma PrependMore(done: seq<Record>, e: Record, rest: Option<seq<Record>>)
    ensures Prepend(done, Cons(e, rest)) == Prepend(done + [e], rest)
    ensures Length(done + [e]) == Length(done) + LengthOne(e)
  {
    assert (done + [e])[..|done|] == done;
    if rest.Some? {
      assert done + ([e] + rest.value) == (done + [e]) + rest.value;
    }
  }

  lemma DecodeNode(log: seq<Byte>)
    requires log != [] && log[0] == NODE_FLAG
    ensures Decode(log) == if |log| < 1 + RECOVERY_NODE_SIZE then Some([])
                           else Cons(Parse(log[1..1 + RECOVERY_NODE_SIZE]), Decode(log[1 + RECOVERY_NODE_SIZE..]))
  {
  }

  lemma Tails(log: seq<Byte>, offset: nat, a: nat, b: nat)
    requires a <= b && offset + b <= |log|
    ensures log[offset..][a..b] == log[offset + a..offset + b] && log[offset..][b..] == log[offset + b..]
  {
  }

  lemma ScanNode(log: seq<Byte>, offset: nat, done: seq<Record>)
    requires Scanned(log, offset, done) && offset < |log| && log[offset] == NODE_FLAG
    ensures var next := offset + 1 + RECOVERY_NODE_SIZE;
            if next <= |log| then Scanned(log, next, done + [Parse(log[offset + 1..next])])
            else Decode(log) == Some(done) && Scanned(log, next, done)
  {
    hide Decode;
    hide Length;
    hide FromLe;
    var rest, next := log[offset..], offset + 1 + RECOVERY_NODE_SIZE;
    assert rest[0] == log[offset];
    DecodeNode(rest);
    if next <= |log| {
      Tails(log, offset, 1, 1 + RECOVERY_NODE_SIZE);
      PrependMore(done, Parse(log[offset + 1..next]), Decode(log[next..]));
    } else {
      assert done + [] == done;
    }
  }

  lemma CommitEndMore(done: seq<Record>, e: Record)
    ensures CommitEnd(done + [e]) == if e.CommitEntry? then |done| + 1 else CommitEnd(done)
    ensures e.NodeEntry? ==> (done + [e])[..CommitEnd(done)] == done[..CommitEnd(done)]
  {
    assert (done + [e])[..|done|] == done;
  }

  /** The first pass: walks the flags and finds the offset just behind the last commit. */
  method FindLastCommit(raw: RawJournal, size: nat, ghost log: Option<seq<Byte>>) returns (r: Option<nat>)
    requires raw.Sane() && log == Exposed(raw.disk.Contents()) && (log.Some? ==> size == |log.value|)
    ensures log.Some? ==> (r.Some? <==> Decode(log.value).Some?)
    ensures log.Some? && r.Some? ==>
              var es := Decode(log.value).value; r.value == Length(es[..CommitEnd(es)])
  {
    hide Exposed;
    hide Decode;
    hide Scanned;
    var offset: nat, last: nat := 0, 0;
    ghost var done := [];
    if log.Some? {
      ScanStarts(log.value);
    }
    while offset < size
      invariant log.Some? ==> Scanned(log.value, offset, done) && last == Length(done[..CommitEnd(done)])
      decreases size - offset
    {
      var flag := raw.Read(offset, 1);
      if flag.None? {
        return None;
      }
      if flag.value[0] == NODE_FLAG {
        if log.Some? {
          ScanNode(log.value, offset, done);
          if offset + 1 + RECOVERY_NODE_SIZE <= size {
            var e := Parse(log.value[offset + 1..offset + 1 + RECOVERY_NODE_SIZE]);
            CommitEndMore(done, e);
            done := done + [e];
          }
        }
        offset := offset + 1 + RECOVERY_NODE_SIZE;
      } else if flag.value[0] == COMMIT_FLAG {
        if log.Some? {
          ScanCommit(log.value, offset, done);
          ScanLength(log.value, offset, done);
          CommitEndMore(done, CommitEntry);
          done := done + [CommitEntry];
        }
        offset := offset + 1;
        last := offset;
      } else {
        if log.Some? {
          ScanBadFlag(log.value, offset, done);
        }
        return None;
      }
    }
    if log.Some? {
      ScanEnds(log.value, offset, done);
    }
    return Some(last);
  }

  lemma ScanLength(log: seq<Byte>, offset: nat, done: seq<Record>)
    requires Scanned(log, offset, done) && offset < |log|
    ensures Length((done + [CommitEntry])[..|done| + 1]) == offset + 1
  {
    PrependMore(done, CommitEntry, None);
    assert (done + [CommitEntry])[..|done| + 1] == done + [CommitEntry];
  }

  // ---------------------------------------------------------------- second scan

  /** The map of rolled-back nodes holds what recovery selects from the records. */
  ghost predicate Holds(rollback: map<nat, seq<Byte>>, uncommitted: seq<Record>) {
    forall p :: (p in rollback <==> !IsMhtNode(p) && FirstEntry(uncommitted, p).Some?)
                && (p in rollback ==> FirstEntry(uncommitted, p) == Some(rollback[p]))
  }

  /** The records behind the last commit among the first `i`. */
  function Behind(es: seq<Record>, i: nat): seq<Record>
    requires i <= |es|
  {
    if i >= CommitEnd(es) then es[CommitEnd(es)..i] else []
  }

  /** The second scan after `done`: every record written back, the first uncommitted ones kept. */
  ghost predicate Redone(es: seq<Record>, done: seq<Record>, before: map<nat, seq<Byte>>, blocks: map<nat, seq<Byte>>,
                         rollback: map<nat, seq<Byte>>) {
    done <= es && blocks == WrittenBack(before, done) && Holds(rollback, Behind(es, |done|))
  }

  lemma RedoneStarts(es: seq<Record>, before: map<nat, seq<Byte>>)
    ensures Redone(es, [], before, before, map[])
  {
    assert Behind(es, 0) == [];
  }

  /** A node record is written back, and kept if it is the first for its data node behind the last commit. */
  lemma RedoneNode(es: seq<Record>, done: seq<Record>, before: map<nat, seq<Byte>>, blocks: map<nat, seq<Byte>>,
                   rollback: map<nat, seq<Byte>>, e: Record)
    requires Redone(es, done, before, blocks, rollback) && done + [e] <= es && e.NodeEntry?
    ensures var keep := Length(done + [e]) >= Length(es[..CommitEnd(es)]) && e.number !in rollback && !IsMhtNode(e.number);
            Redone(es, done + [e], before, blocks[e.number := e.block], if keep then rollback[e.number := e.block] else rollback)
  {
    hide Holds;
    hide Length;
    hide CommitEnd;
    hide WrittenBack;
    hide IsMhtNode;
    hide Behind;
    var i := |done|;
    assert es[i] == e && es[..i + 1] == done + [e];
    BehindCommit(es, i);
    BehindMore(es, i);
    WrittenMore(before, done, e);
    HoldsMore(rollback, Behind(es, i), e);
  }

  lemma BehindMore(es: seq<Record>, i: nat)
    requires i < |es| && es[i].NodeEntry?
    ensures Behind(es, i + 1) == if i >= CommitEnd(es) then Behind(es, i) + [es[i]] else Behind(es, i)
  {
    hide CommitEnd;
    var n := CommitEnd(es);
    if i >= n {
      SliceMore(es, n, i);
    } else {
      assert i + 1 < n;
    }
  }

  lemma SliceMore(es: seq<Record>, n: nat, i: nat)
    requires n <= i < |es|
    ensures es[n..i + 1] == es[n..i] + [es[i]]
  {
  }

  lemma WrittenMore(before: map<nat, seq<Byte>>, done: seq<Record>, e: Record)
    ensures WrittenBack(before, done + [e]) ==
            if e.NodeEntry? then WrittenBack(before, done)[e.number := e.block] else WrittenBack(before, done)
  {
    assert (done + [e])[..|done|] == done;
  }

  lemma HoldsMore(rollback: map<nat, seq<Byte>>, uncommitted: seq<Record>, e: Record)
    requires Holds(rollback, uncommitted) && e.NodeEntry?
    ensures var keep := e.number !in rollback && !IsMhtNode(e.number);
            Holds(if keep then rollback[e.number := e.block] else rollback, uncommitted + [e])
  {
    hide IsMhtNode;
    forall p: nat
      ensures FirstEntry(uncommitted + [e], p) ==
              if FirstEntry(uncommitted, p).Some? then FirstEntry(uncommitted, p)
              else if p == e.number then Some(e.block) else None
    {
      FirstEntryConcat(uncommitted, [e], p);
    }
  }

  lemma RedoneCommit(es: seq<Record>, done: seq<Record>, before: map<nat, seq<Byte>>, blocks: map<nat, seq<Byte>>,
                     rollback: map<nat, seq<Byte>>)
    requires Redone(es, done, before, blocks, rollback) && done + [CommitEntry] <= es
    ensures Redone(es, done + [CommitEntry], before, blocks, rollback)
  {
    var i := |done|;
    assert es[i] == CommitEntry && (done + [CommitEntry])[..i] == done;
    CommitAt(es, i);
    assert Behind(es, i + 1) == Behind(es, i);
  }

  lemma {:induction false} CommitAt(es: seq<Record>, i: nat)
    requires i < |es| && es[i].CommitEntry?
    ensures i < CommitEnd(es)
  {
    if es[|es| - 1].NodeEntry? {
      CommitAt(es[..|es| - 1], i);
    }
  }

  /** When the scan is through, the kept records are those recovery selects. */
  lemma RedoneAll(es: seq<Record>, before: map<nat, seq<Byte>>, blocks: map<nat, seq<Byte>>, rollback: map<nat, seq<Byte>>)
    requires Redone(es, es, before, blocks, rollback)
    ensures LastPayloads(before, blocks, es)
    ensures forall p :: (p in rollback <==> Selected(es, p).Some?) && (p in rollback ==> Selected(es, p) == Some(rollback[p]))
  {
    UncommittedFrom(es);
    WrittenBackIsLast(before, es);
    assert Behind(es, |es|) == es[CommitEnd(es)..];
  }

  /** Reads a log that decodes: the records in front of `offset` are a prefix of all of them. */
  ghost predicate Replaying(log: Option<seq<Byte>>, offset: nat, done: seq<Record>, before: map<nat, seq<Byte>>,
                            blocks: map<nat, seq<Byte>>, rollback: map<nat, seq<Byte>>) {
    log.Some? ==>
      && Decode(log.value).Some? && Scanned(log.value, offset, done)
      && Redone(Decode(log.value).value, done, before, blocks, rollback)
  }

  lemma ReplayingNode(log: Option<seq<Byte>>, offset: nat, done: seq<Record>, before: map<nat, seq<Byte>>,
                      blocks: map<nat, seq<Byte>>, rollback: map<nat, seq<Byte>>, last: nat, payload: seq<Byte>) returns (e: Record)
    requires Replaying(log, offset, done, before, blocks, rollback) && |payload| == RECOVERY_NODE_SIZE
    requires log.Some? ==>
               && offset + 1 + RECOVERY_NODE_SIZE <= |log.value| && log.value[offset] == NODE_FLAG
               && payload == log.value[offset + 1..offset + 1 + RECOVERY_NODE_SIZE]
               && var es := Decode(log.value).value; last == Length(es[..CommitEnd(es)])
    ensures e == Parse(payload) && e.NodeEntry? && (log.Some? ==> e in Decode(log.value).value)
    ensures var next := offset + 1 + RECOVERY_NODE_SIZE;
            var keep := next >= last && e.number !in rollback && !IsMhtNode(e.number);
            Replaying(log, next, done + [e], before, blocks[e.number := e.block],
                      if keep then rollback[e.number := e.block] else rollback)
  {
    hide Decode;
    hide Redone;
    hide IsMhtNode;
    e := Parse(payload);
    if log.Some? {
      ScanNode(log.value, offset, done);
      PrefixOf(done + [e], Decode(log.value[offset + 1 + RECOVERY_NODE_SIZE..]), Decode(log.value).value);
      RedoneNode(Decode(log.value).value, done, before, blocks, rollback, e);
      assert (done + [e])[|done|] == e;
    }
  }

  lemma PrefixOf(done: seq<Record>, rest: Option<seq<Record>>, es: seq<Record>)
    requires Some(es) == Prepend(done, rest)
    ensures done <= es
  {
  }

  lemma ReplayingCommit(log: Option<seq<Byte>>, offset: nat, done: seq<Record>, before: map<nat, seq<Byte>>,
                        blocks: map<nat, seq<Byte>>, rollback: map<nat, seq<Byte>>)
    requires Replaying(log, offset, done, before, blocks, rollback)
    requires log.Some? ==> offset < |log.value| && log.value[offset] == COMMIT_FLAG
    ensures Replaying(log, offset + 1, done + [CommitEntry], before, blocks, rollback)
  {
    hide Decode;
    hide Redone;
    if log.Some? {
      ScanCommit(log.value, offset, done);
      PrefixOf(done + [CommitEntry], Decode(log.value[offset + 1..]), Decode(log.value).value);
      RedoneCommit(Decode(log.value).value, done, before, blocks, rollback);
    }
  }

  /** What the whole second pass comes to. */
  ghost predicate Recovered(log: Option<seq<Byte>>, before: map<nat, seq<Byte>>, blocks: map<nat, seq<Byte>>,
                            rollback: map<nat, seq<Byte>>) {
    log.Some? ==>
      && Decode(log.value).Some?
      && var es := Decode(log.value).value;
      && LastPayloads(before, blocks, es)
      && (forall p :: (p in rollback <==> Selected(es, p).Some?) && (p in rollback ==> Selected(es, p) == Some(rollback[p])))
  }

  lemma ReplayingEnds(log: Option<seq<Byte>>, offset: nat, done: seq<Record>, before: map<nat, seq<Byte>>,
                      blocks: map<nat, seq<Byte>>, rollback: map<nat, seq<Byte>>)
    requires Replaying(log, offset, done, before, blocks, rollback)
    requires log.Some? ==>
               || offset >= |log.value|
               || (log.value[offset] == NODE_FLAG && |log.value| - offset < 1 + RECOVERY_NODE_SIZE)
    ensures Recovered(log, before, blocks, rollback)
  {
    hide Decode;
    hide Redone;
    if log.Some? {
      if offset >= |log.value| {
        ScanEnds(log.value, offset, done);
      } else {
        ScanNode(log.value, offset, done);
      }
      RedoneAll(done, before, blocks, rollback);
    }
  }

  /** Nothing stops recovery: the log decodes and the device takes every block it names. */
  ghost predicate Recoverable(log: Option<seq<Byte>>, source: BlockFile<seq<Byte>>) {
    && log.Some? && Decode(log.value).Some? && source.reliable
    && (forall e :: e in Decode(log.value).value && e.NodeEntry? ==> e.number < source.nblocks)
  }

  /** The second pass: writes every record back and keeps the first uncommitted one of each data node. */
  method WriteBack(raw: RawJournal, size: nat, last: nat, source: BlockFile<seq<Byte>>, ghost log: Option<seq<Byte>>)
    returns (r: Option<map<nat, seq<Byte>>>)
    requires raw.Sane() && source.Valid() && log == Exposed(raw.disk.Contents())
    requires log.Some? ==>
               && size == |log.value| && Decode(log.value).Some?
               && var es := Decode(log.value).value; last == Length(es[..CommitEnd(es)])
    modifies source
    ensures source.Valid()
    ensures r.Some? ==> Recovered(log, old(source.blocks), source.blocks, r.value)
    ensures Recoverable(log, source) ==> r.Some?
  {
    hide Exposed;
    hide Decode;
    hide Replaying;
    hide Recovered;
    hide IsMhtNode;
    var offset: nat, rollback: map<nat, seq<Byte>> := 0, map[];
    ghost var done, before := [], source.blocks;
    ReplayingStarts(log, before);
    while offset < size
      invariant source.Valid() && Replaying(log, offset, done, before, source.blocks, rollback)
      decreases size - offset
    {
      var flag := raw.Read(offset, 1);
      if flag.None? {
        return None;
      }
      if flag.value[0] == NODE_FLAG {
        if size - offset - 1 < RECOVERY_NODE_SIZE {
          break;
        }
        var payload := raw.Read(offset + 1, RECOVERY_NODE_SIZE);
        if payload.None? {
          return None;
        }
        ghost var e := ReplayingNode(log, offset, done, before, source.blocks, rollback, last, payload.value);
        done := done + [e];
        var number, block := FromLe(payload.value[..WORD]), payload.value[WORD..];
        offset := offset + 1 + RECOVERY_NODE_SIZE;
        if offset >= last && number !in rollback && !IsMhtNode(number) {
          rollback := rollback[number := block];
        }
        var ok := source.Write(number, block);
        if !ok {
          return None;
        }
      } else if flag.value[0] == COMMIT_FLAG {
        ReplayingCommit(log, offset, done, before, source.blocks, rollback);
        done := done + [CommitEntry];
        offset := offset + 1;
      } else {
        ReplayingFlag(log, offset, done, before, source.blocks, rollback);
        return None;
      }
    }
    ReplayingEnds(log, offset, done, before, source.blocks, rollback);
    var ok := source.Flush();
    r := if ok then Some(rollback) else None;
  }

  /** A log that decodes has only the two flags where the scan looks for one. */
  lemma ReplayingFlag(log: Option<seq<Byte>>, offset: nat, done: seq<Record>, before: map<nat, seq<Byte>>,
                      blocks: map<nat, seq<Byte>>, rollback: map<nat, seq<Byte>>)
    requires Replaying(log, offset, done, before, blocks, rollback)
    ensures log.Some? && offset < |log.value| ==> log.value[offset] == NODE_FLAG || log.value[offset] == COMMIT_FLAG
  {
    hide Decode;
    hide Redone;
    if log.Some? && offset < |log.value| && log.value[offset] != NODE_FLAG && log.value[offset] != COMMIT_FLAG {
      ScanBadFlag(log.value, offset, done);
    }
  }

  lemma ReplayingStarts(log: Option<seq<Byte>>, before: map<nat, seq<Byte>>)
    requires log.Some? ==> Decode(log.value).Some?
    ensures Replaying(log, 0, [], before, before, map[])
  {
    hide Decode;
    hide Redone;
    hide Scanned;
    if log.Some? {
      ScanStarts(log.value);
      RedoneStarts(Decode(log.value).value, before);
    }
  }

  /**
    `recovery`: a log with a bad flag stops it before anything is written; otherwise every block is
    left at its last logged payload and the map holds the records selected for rollback.
   */
  method Recover(raw: RawJournal, source: BlockFile<seq<Byte>>) returns (r: Option<map<nat, seq<Byte>>>)
    requires raw.Sane() && source.Valid()
    modifies source
    ensures source.Valid()
    ensures r.Some? ==> Recovered(Exposed(raw.disk.Contents()), old(source.blocks), source.blocks, r.value)
    ensures Exposed(raw.disk.Contents()).Some? && Decode(Exposed(raw.disk.Contents()).value).None? ==>
              r.None? && source.blocks == old(source.blocks)
    ensures Recoverable(Exposed(raw.disk.Contents()), source) ==> r.Some?
  {
    hide Decode;
    hide Recovered;
    ghost var log := Exposed(raw.disk.Contents());
    var size := raw.Size();
    if size.None? {
      return None;
    }
    var last := FindLastCommit(raw, size.value, log);
    if last.None? {
      return None;
    }
    r := WriteBack(raw, size.value, last.value, source, log);
  }

  // ---------------------------------------------------------------- writing records

  /** Every 4104 bytes are the payload of some record. */
  lemma PayloadParsed(data: seq<Byte>)
    requires |data| == RECOVERY_NODE_SIZE
    ensures WellFormed(Parse(data)) && EncodeOne(Parse(data)) == [NODE_FLAG] + data
  {
    LeInverse(data[..WORD]);
    FromLeBound(data[..WORD]);
    assert data[..WORD] + data[WORD..] == data;
  }

  lemma {:induction false} EncodeMore(es: seq<Record>, e: Record)
    ensures Encode(es + [e]) == Encode(es) + EncodeOne(e)
  {
    if es == [] {
      assert [] + [e] == [e];
      assert Encode([e]) == EncodeOne(e) + Encode([]);
    } else {
      assert (es + [e])[1..] == es[1..] + [e];
      EncodeMore(es[1..], e);
    }
  }

  /** The image exposes some byte prefix of the encoded records. */
  ghost predicate Truncated(img: seq<Byte>, es: seq<Record>) {
    |img| >= WORD && Exposed(img).Some? && Exposed(img).value <= Encode(es)
  }

  /** The new images expose what the disk exposed before, or some byte prefix of the encoded records. */
  ghost predicate TruncatedTrail(prior: seq<seq<Byte>>, trail: seq<seq<Byte>>, before: Option<seq<Byte>>, es: seq<Record>) {
    && prior <= trail
    && (forall i :: |prior| <= i < |trail| ==> |trail[i]| >= WORD && (Exposed(trail[i]) == before || Truncated(trail[i], es)))
  }

  /** A reader of such an image finds a prefix of the records. */
  lemma TruncatedDecodes(img: seq<Byte>, es: seq<Record>) returns (k: nat)
    requires Truncated(img, es) && forall e :: e in es ==> WellFormed(e)
    ensures k <= |es| && Decode(Exposed(img).value) == Some(es[..k])
  {
    var n := |Exposed(img).value|;
    assert Exposed(img).value == Encode(es)[..n];
    k := PrefixDecodes(es, n);
  }

  lemma TruncatedTrailTrans(a: seq<seq<Byte>>, b: seq<seq<Byte>>, c: seq<seq<Byte>>, before: Option<seq<Byte>>, es: seq<Record>)
    requires TruncatedTrail(a, b, before, es) && TruncatedTrail(b, c, before, es)
    ensures TruncatedTrail(a, c, before, es)
  {
    hide Truncated;
    hide Exposed;
  }

  lemma FlagThenData(log: seq<Byte>, data: seq<Byte>, all: seq<Byte>)
    requires all == log + ([NODE_FLAG] + data)
    ensures log + [NODE_FLAG] <= all && log + [NODE_FLAG] + data == all
  {
  }

  class RecoveryJournal {
    const raw: RawJournal
    ghost var entries: seq<Record>

    /** The logical log is the encoding of the entries. */
    ghost predicate Valid()
      reads this, raw, raw.disk, raw.disk.disk
    {
      && raw.Sane() && (forall e :: e in entries ==> WellFormed(e))
      && raw.Log() == Encode(entries)
    }

    /** `create`, over whatever the disk holds. */
    constructor (raw: RawJournal)
      requires raw.Sane() && raw.Log() == []
      ensures this.raw == raw && Valid() && entries == []
    {
      this.raw, entries := raw, [];
    }

    /** Puts bytes into the raw log. */
    method Push(data: seq<Byte>, ghost first: Option<seq<Byte>>, ghost es: seq<Record>) returns (ok: bool)
      requires raw.Sane() && raw.Log() + data <= Encode(es)
      requires Exposed(raw.disk.Contents()) == first || Truncated(raw.disk.Contents(), es)
      modifies raw, raw.disk, raw.disk.disk
      ensures old(raw.disk.trail) <= raw.disk.trail
      ensures old(raw.Settled()) ==> TruncatedTrail(old(raw.disk.trail), raw.disk.trail, first, es)
      ensures ok ==> raw.Sane() && raw.Log() == old(raw.Log()) + data && (old(raw.Settled()) ==> raw.Settled())
      ensures ok ==> Exposed(raw.disk.Contents()) == first || Truncated(raw.disk.Contents(), es)
    {
      hide Encode;
      ok := raw.Append(data);
    }

    /** `append`: a flag and a payload; a crash in between leaves a prefix of the encoding. */
    method Append(data: seq<Byte>) returns (ok: bool)
      requires Valid()
      modifies `entries, raw, raw.disk, raw.disk.disk
      ensures |data| != RECOVERY_NODE_SIZE ==> !ok && Valid() && entries == old(entries) && raw.disk.trail == old(raw.disk.trail)
      ensures ok ==> Valid() && entries == old(entries) + [Parse(data)] && (old(raw.Settled()) ==> raw.Settled())
      ensures old(raw.disk.trail) <= raw.disk.trail
      ensures |data| == RECOVERY_NODE_SIZE && old(raw.Settled()) ==>
                TruncatedTrail(old(raw.disk.trail), raw.disk.trail, old(Exposed(raw.disk.Contents())), old(entries) + [Parse(data)])
    {
      hide Encode;
      hide Exposed;
      hide Parse;
      hide EncodeOne;
      hide Truncated;
      hide TruncatedTrail;
      hide RawJournal.Settled;
      hide RawJournal.Log;
      if |data| != RECOVERY_NODE_SIZE {
        return false;
      }
      PayloadParsed(data);
      EncodeMore(entries, Parse(data));
      ghost var first, es := Exposed(raw.disk.Contents()), entries + [Parse(data)];
      FlagThenData(raw.Log(), data, Encode(es));
      ok := Push([NODE_FLAG], first, es);
      if !ok {
        return;
      }
      ghost var mid, settled := raw.disk.trail, raw.Settled();
      ok := Push(data, first, es);
      if settled && old(raw.Settled()) {
        TruncatedTrailTrans(old(raw.disk.trail), mid, raw.disk.trail, first, es);
      }
      entries := es;
    }

    /** `commit`: a flag of its own. */
    method Commit() returns (ok: bool)
      requires Valid()
      modifies `entries, raw, raw.disk, raw.disk.disk
      ensures ok ==> Valid() && entries == old(entries) + [CommitEntry] && (old(raw.Settled()) ==> raw.Settled())
      ensures old(raw.disk.trail) <= raw.disk.trail
      ensures old(raw.Settled()) ==>
                TruncatedTrail(old(raw.disk.trail), raw.disk.trail, old(Exposed(raw.disk.Contents())), old(entries) + [CommitEntry])
    {
      hide Encode;
      hide Exposed;
      hide RawJournal.Settled;
      EncodeMore(entries, CommitEntry);
      ok := Push([COMMIT_FLAG], Exposed(raw.disk.Contents()), entries + [CommitEntry]);
      entries := entries + [CommitEntry];
    }
  }
}
