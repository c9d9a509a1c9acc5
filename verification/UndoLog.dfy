/**
  The undo journal as a list of entries: what recovery makes of it, and what the flush protocol
  puts into it.  Blocks are a parameter, so that the byte-level scanner and the file engine speak
  about the same recovery.
 */
module UndoLog {
  import opened Options
  import opened Layout
  import opened Merkle
  import opened FlatFile
  import opened FileState
  import opened FlushState

  datatype Entry<+B> = NodeEntry(number: nat, block: B) | CommitEntry

  /** The earliest entry for `p`. */
  function FirstEntry<B>(log: seq<Entry<B>>, p: nat): Option<B> {
    if log == [] then None
    else if log[0].NodeEntry? && log[0].number == p then Some(log[0].block)
    else FirstEntry(log[1..], p)
  }

  /** The entries after the last commit. */
  function Uncommitted<B>(log: seq<Entry<B>>): seq<Entry<B>> {
    if log == [] then []
    else if log[|log| - 1].CommitEntry? then []
    else Uncommitted(log[..|log| - 1]) + [log[|log| - 1]]
  }

  /** The data region after recovery has written every entry back in order. */
  function WrittenBack<B>(disk: map<nat, B>, log: seq<Entry<B>>): map<nat, B> {
    if log == [] then disk
    else
      var d, e := WrittenBack(disk, log[..|log| - 1]), log[|log| - 1];
      if e.NodeEntry? then d[e.number := e.block] else d
  }

  /** The latest entry for `p`. */
  function LastEntry<B>(log: seq<Entry<B>>, p: nat): Option<B> {
    if log == [] then None
    else
      var e := log[|log| - 1];
      if e.NodeEntry? && e.number == p then Some(e.block) else LastEntry(log[..|log| - 1], p)
  }

  /** Each block is at its last logged payload; a block that was not logged is as before. */
  ghost predicate LastPayloads<B>(before: map<nat, B>, blocks: map<nat, B>, log: seq<Entry<B>>) {
    forall p ::
      && (p in blocks <==> p in before || LastEntry(log, p).Some?)
      && (p in blocks ==> blocks[p] == if LastEntry(log, p).Some? then LastEntry(log, p).value else before[p])
  }

  /** Writing the entries back one after the other leaves each block at its last payload. */
  lemma {:induction false} WrittenBackIsLast<B>(disk: map<nat, B>, log: seq<Entry<B>>)
    ensures LastPayloads(disk, WrittenBack(disk, log), log)
  {
    if log != [] {
      WrittenBackIsLast(disk, log[..|log| - 1]);
    }
  }

  /** What recovery selects for rollback: per data node, its earliest uncommitted entry. */
  function Selected<B>(log: seq<Entry<B>>, p: nat): Option<B> {
    if IsMhtNode(p) then None else FirstEntry(Uncommitted(log), p)
  }

  lemma {:induction false} FirstEntryConcat<B>(a: seq<Entry<B>>, b: seq<Entry<B>>, p: nat)
    ensures FirstEntry(a + b, p) == if FirstEntry(a, p).Some? then FirstEntry(a, p) else FirstEntry(b, p)
  {
    if a == [] {
      assert a + b == b;
    } else {
      assert (a + b)[1..] == a[1..] + b;
      FirstEntryConcat(a[1..], b, p);
    }
  }

  lemma {:induction false} NothingCommitted<B>(log: seq<Entry<B>>)
    requires CommitEntry !in log
    ensures Uncommitted(log) == log
  {
    if log != [] {
      NothingCommitted(log[..|log| - 1]);
    }
  }

  // ---------------------------------------------------------------- pre-images

  /** The entries a flush logs for the dirty nodes that are not new. */
  ghost predicate LogsDirty(entries: seq<Entry<Block>>, nodes: Nodes) {
    && CommitEntry !in entries
    && (forall e :: e in entries && e.NodeEntry? && e.number >= 1 ==>
          IsDirty(nodes, e.number) && !nodes[e.number].newNode && e.block == nodes[e.number].cipher)
    && (forall p :: IsDirty(nodes, p) && !nodes[p].newNode ==> NodeEntry(p, nodes[p].cipher) in entries)
  }

  /** Each entry is the ciphertext of a dirty node that is not new. */
  ghost predicate Picked(entries: seq<Entry<Block>>, nodes: Nodes) {
    forall e :: e in entries ==>
      e.NodeEntry? && IsDirty(nodes, e.number) && !nodes[e.number].newNode && e.block == nodes[e.number].cipher
  }

  /** Every entry is for a node of the given kind. */
  ghost predicate OfKind(entries: seq<Entry<Block>>, isData: bool) {
    forall e :: e in entries ==> e.NodeEntry? && e.number >= 2 && IsDataNode(e.number) == isData
  }

  /** The last entries of a flush: the root, if it is dirty and not new, and the metadata block. */
  function RootAndMeta(root: NodeVal, meta: Block): seq<Entry<Block>> {
    (if root.dirty && !root.newNode then [NodeEntry(ROOT_MHT_PHY_NUM, root.cipher)] else []) + [NodeEntry(META_DATA_PHY_NUM, meta)]
  }

  lemma LogsTail(entries: seq<Entry<Block>>, nodes: Nodes, root: NodeVal, meta: Block)
    requires LogsDirty(entries, nodes) && ROOT_MHT_PHY_NUM !in nodes
    ensures LogsDirty(entries + RootAndMeta(root, meta), nodes[ROOT_MHT_PHY_NUM := root])
  {
    var all := nodes[ROOT_MHT_PHY_NUM := root];
    assert forall p :: IsDirty(all, p) ==> if p == ROOT_MHT_PHY_NUM then root.dirty else IsDirty(nodes, p);
  }

  /** The first record of the metadata block is the block itself, and the root has one exactly if it is dirty and not new. */
  lemma TailFirst(root: NodeVal, meta: Block)
    ensures FirstEntry(RootAndMeta(root, meta), META_DATA_PHY_NUM) == Some(meta)
    ensures FirstEntry(RootAndMeta(root, meta), ROOT_MHT_PHY_NUM) == if root.dirty && !root.newNode then Some(root.cipher) else None
  {
    var tail := RootAndMeta(root, meta);
    if root.dirty && !root.newNode {
      assert tail[1..] == [NodeEntry(META_DATA_PHY_NUM, meta)];
    }
  }

  /** The dirty nodes among the first `n` keys that are not new, MHT nodes and data nodes apart. */
  ghost predicate Collected(mhts: seq<Entry<Block>>, datas: seq<Entry<Block>>, nodes: Nodes, keys: seq<nat>, n: nat)
    requires n <= |keys|
  {
    && Picked(mhts, nodes) && Picked(datas, nodes) && OfKind(mhts, false) && OfKind(datas, true)
    && (forall j :: 0 <= j < n && IsDirty(nodes, keys[j]) && !nodes[keys[j]].newNode ==>
          NodeEntry(keys[j], nodes[keys[j]].cipher) in mhts || NodeEntry(keys[j], nodes[keys[j]].cipher) in datas)
  }

  lemma CollectNone(nodes: Nodes, keys: seq<nat>)
    ensures Collected([], [], nodes, keys, 0)
  {
  }

  lemma CollectMore(mhts: seq<Entry<Block>>, datas: seq<Entry<Block>>, nodes: Nodes, keys: seq<nat>, n: nat)
    requires n < |keys| && keys[n] >= 2 && keys[n] in nodes && Collected(mhts, datas, nodes, keys, n)
    ensures var k := keys[n];
            if !(nodes[k].dirty && !nodes[k].newNode) then Collected(mhts, datas, nodes, keys, n + 1)
            else if IsDataNode(k) then Collected(mhts, datas + [NodeEntry(k, nodes[k].cipher)], nodes, keys, n + 1)
            else Collected(mhts + [NodeEntry(k, nodes[k].cipher)], datas, nodes, keys, n + 1)
  {
    hide IsDataNode;
  }

  lemma CollectAll(mhts: seq<Entry<Block>>, datas: seq<Entry<Block>>, nodes: Nodes, keys: seq<nat>)
    requires Collected(mhts, datas, nodes, keys, |keys|) && (forall k :: k in nodes ==> k in keys)
    ensures LogsDirty(mhts + datas, nodes) && OfKind(mhts, false) && OfKind(datas, true)
  {
    hide IsDataNode;
  }

  lemma OfKindNodes(entries: seq<Entry<Block>>, isData: bool)
    requires OfKind(entries, isData)
    ensures forall e :: e in entries ==> e.NodeEntry?
  {
  }

  lemma NothingLogged(nodes: Nodes, root: NodeVal)
    requires (forall p :: !IsDirty(nodes, p)) && !root.dirty
    ensures LogsDirty([], nodes[ROOT_MHT_PHY_NUM := root])
  {
    var all := nodes[ROOT_MHT_PHY_NUM := root];
    assert forall p :: IsDirty(all, p) ==> IsDirty(nodes, p);
  }

  /**
    The log since the last reset.  `baseline` is the data region at that reset; `over` has the nodes
    overwritten since, and whether the `new` mark was clear the first time.
   */
  ghost predicate LogInv(log: seq<Entry<Block>>, baseline: Disk, over: map<nat, bool>, disk: Disk) {
    && CommitEntry !in log
    && (forall p :: p >= 1 && p !in over ==>
          FirstEntry(log, p).None? && (p in disk ==> p in baseline && disk[p] == baseline[p]))
    && (forall p :: p >= 1 && p in over && over[p] ==> p in baseline && FirstEntry(log, p) == Some(baseline[p]))
  }

  lemma FreshLog(disk: Disk)
    ensures LogInv([], disk, map[], disk)
  {
  }

  ghost function Overwritten(over: map<nat, bool>, nodes: Nodes): map<nat, bool> {
    (map p | p in nodes && nodes[p].dirty :: !nodes[p].newNode) + over
  }

  lemma {:induction false} FirstEntryFound(entries: seq<Entry<Block>>, p: nat, block: Block)
    requires forall e :: e in entries && e.NodeEntry? && e.number == p ==> e.block == block
    ensures FirstEntry(entries, p) == if NodeEntry(p, block) in entries then Some(block) else None
  {
    if entries != [] {
      assert entries == [entries[0]] + entries[1..];
      FirstEntryFound(entries[1..], p, block);
    }
  }

  lemma LogsDirtyFirst(entries: seq<Entry<Block>>, nodes: Nodes, p: nat)
    requires LogsDirty(entries, nodes) && p >= 1
    ensures FirstEntry(entries, p) == if IsDirty(nodes, p) && !nodes[p].newNode then Some(nodes[p].cipher) else None
  {
    if IsDirty(nodes, p) && !nodes[p].newNode {
      FirstEntryFound(entries, p, nodes[p].cipher);
    } else {
      FirstEntryFound(entries, p, ZERO_BLOCK);
    }
  }

  /** One flush keeps the log's promise: pre-images first, then the overwrites. */
  lemma FlushLogs(s: State, log: seq<Entry<Block>>, entries: seq<Entry<Block>>, baseline: Disk,
                  over: map<nat, bool>, disk: Disk)
    requires LogInv(log, baseline, over, s.disk) && LogsDirty(entries, s.All()) && PreImages(s)
    requires forall p :: p >= 1 && !IsDirty(s.All(), p) && p in disk ==> p in s.disk && disk[p] == s.disk[p]
    ensures LogInv(log + entries, baseline, Overwritten(over, s.All()), disk)
  {
    var over' := Overwritten(over, s.All());
    forall p | p >= 1
      ensures p !in over' ==>
                FirstEntry(log + entries, p).None? && (p in disk ==> p in baseline && disk[p] == baseline[p])
      ensures p in over' && over'[p] ==> p in baseline && FirstEntry(log + entries, p) == Some(baseline[p])
    {
      FirstEntryConcat(log, entries, p);
      LogsDirtyFirst(entries, s.All(), p);
    }
  }

  /**
    The record that recovery selects for a data node first overwritten with its `new` mark clear is
    the ciphertext the disk held at the last reset.
   */
  lemma SelectedIsPreImage(log: seq<Entry<Block>>, baseline: Disk, over: map<nat, bool>, disk: Disk, p: nat)
    requires LogInv(log, baseline, over, disk)
    requires IsDataNode(p) && p in over && over[p]
    ensures p in baseline && Selected(log, p) == Some(baseline[p])
  {
    NothingCommitted(log);
    NumbersPartition(p);
  }

  /**
    At the flush that overwrites a data node for the first time since the reset, recovery has a
    record to roll it back with exactly when its `new` mark is clear.
   */
  lemma FirstOverwriteLogged(s: State, log: seq<Entry<Block>>, entries: seq<Entry<Block>>, baseline: Disk, over: map<nat, bool>, p: nat)
    requires LogInv(log, baseline, over, s.disk) && LogsDirty(entries, s.All())
    requires IsDataNode(p) && p !in over && IsDirty(s.nodes, p)
    ensures Selected(log + entries, p).Some? <==> !s.nodes[p].newNode
    ensures PreImages(s) && !s.nodes[p].newNode ==> p in s.disk && Selected(log + entries, p) == Some(s.disk[p])
  {
    NothingCommitted(log + entries);
    NumbersPartition(p);
    FirstEntryConcat(log, entries, p);
    LogsDirtyFirst(entries, s.All(), p);
  }

  /** Of the data nodes overwritten for the first time, exactly those with a clear `new` mark can be rolled back. */
  ghost predicate FirstLogged(log: seq<Entry<Block>>, over: map<nat, bool>, nodes: Nodes) {
    forall p :: IsDataNode(p) && p !in over && IsDirty(nodes, p) ==> (Selected(log, p).Some? <==> !nodes[p].newNode)
  }

  lemma FlushFirstLogged(s: State, log: seq<Entry<Block>>, entries: seq<Entry<Block>>, baseline: Disk, over: map<nat, bool>)
    requires LogInv(log, baseline, over, s.disk) && LogsDirty(entries, s.All())
    ensures FirstLogged(log + entries, over, s.nodes)
  {
    hide LogInv;
    hide LogsDirty;
    hide Selected;
    hide IsDataNode;
    forall p | IsDataNode(p) && p !in over && IsDirty(s.nodes, p)
      ensures Selected(log + entries, p).Some? <==> !s.nodes[p].newNode
    {
      FirstOverwriteLogged(s, log, entries, baseline, over, p);
    }
  }

  /**
    A flush that is tried again after sealing failed midway logs ciphertexts the disk never held.
    For a node first overwritten now, the first record is still the block at the last reset exactly
    when the failed attempt left its record in the log or the node's ciphertext is still that block.
   */
  lemma RetryKeepsPreImage(nodes: Nodes, log: seq<Entry<Block>>, entries: seq<Entry<Block>>, baseline: Disk, p: nat)
    requires LogsDirty(entries, nodes) && p >= 1 && IsDirty(nodes, p) && !nodes[p].newNode && p in baseline
    requires FirstEntry(log, p).Some? ==> FirstEntry(log, p) == Some(baseline[p])
    ensures FirstEntry(log + entries, p) == Some(baseline[p]) <==> FirstEntry(log, p).Some? || nodes[p].cipher == baseline[p]
  {
    FirstEntryConcat(log, entries, p);
    LogsDirtyFirst(entries, nodes, p);
  }

  /**
    Two failures in a row.  The first attempt logs the pre-images and seals node `p`; the second fails
    to log and resets the journal, so that the promise starts again from the region as it is; the
    third logs what is in the cache.  The promise then holds exactly when sealing gave `p` the very
    block the disk holds.
   */
  lemma RetryAfterReset(s: State, bound: nat, p: nat, key: Key, entries: seq<Entry<Block>>)
    requires Sealing(s, bound, {}) && PreImages(s) && IsDirty(s.nodes, p) && !s.nodes[p].newNode
    requires p >= 2 && LogsDirty(entries, SealNode(s, p, key).All())
    ensures LogInv([], s.disk, map[], s.disk)
    ensures var t := SealNode(s, p, key);
            LogInv([] + entries, s.disk, Overwritten(map[], t.All()), s.disk) <==> Sealed(key, s.tree[p]) == s.disk[p]
  {
    hide SealNode;
    hide Sealing;
    hide Parent;
    var t := SealNode(s, p, key);
    SealNodeEffect(s, bound, {}, p, key);
    assert [] + entries == entries;
    forall q | q >= 1 ensures FirstEntry(entries, q) == if IsDirty(t.All(), q) && !t.All()[q].newNode then Some(t.All()[q].cipher) else None {
      LogsDirtyFirst(entries, t.All(), q);
    }
    assert p in Overwritten(map[], t.All()) && Overwritten(map[], t.All())[p];
  }

  /** Such a state: a file of one data node, on disk under another key and changed since. */
  lemma RetryLosesPreImage()
    ensures var plain := NewPlain(true);
            var s := State(map[2 := NodeVal(true, false, Sealed(1, plain), plain)], NodeVal(true, true, ZERO_BLOCK, NewPlain(false)),
                           map[ROOT_MHT_PHY_NUM := NewPlain(false), 2 := plain], map[2 := Sealed(1, plain)],
                           Meta(MD_USER_DATA_SIZE + NODE_SIZE, 0, ZeroMac, Zeros(MD_USER_DATA_SIZE)), true);
            var t, entries := SealNode(s, 2, 2), [NodeEntry(2, Sealed(2, plain))];
            && Inv(s, 1) && LogsDirty(entries, t.All())
            && !LogInv([] + entries, s.disk, Overwritten(map[], t.All()), s.disk)
  {
    var plain := NewPlain(true);
    var s := State(map[2 := NodeVal(true, false, Sealed(1, plain), plain)], NodeVal(true, true, ZERO_BLOCK, NewPlain(false)),
                   map[ROOT_MHT_PHY_NUM := NewPlain(false), 2 := plain], map[2 := Sealed(1, plain)],
                   Meta(MD_USER_DATA_SIZE + NODE_SIZE, 0, ZeroMac, Zeros(MD_USER_DATA_SIZE)), true);
    var entries := [NodeEntry(2, Sealed(2, plain))];
    OneNodeInv(s);
    DirtySealing(s, 1);
    SealNodeEffect(s, 1, {}, 2, 2);
    RetryAfterReset(s, 1, 2, 2, entries);
  }

  /** A file of one data node that is changed. */
  lemma OneNodeInv(s: State)
    requires s.nodes.Keys == {2} && s.nodes[2].dirty && s.nodes[2].plain == NewPlain(true)
    requires !s.nodes[2].newNode && 2 in s.disk && s.disk[2] == s.nodes[2].cipher
    requires s.root.dirty && s.root.newNode && s.root.plain == NewPlain(false) && s.needWriting
    requires s.tree == map[ROOT_MHT_PHY_NUM := NewPlain(false), 2 := NewPlain(true)]
    requires s.meta.size == MD_USER_DATA_SIZE + NODE_SIZE && |s.meta.data| == MD_USER_DATA_SIZE
    ensures Inv(s, 1)
  {
    assert s.Count() == 1;
    NewPlainShaped(true);
    NewPlainShaped(false);
    hide NewPlain;
    forall p | Live(1, p) ensures p == 2 {
      NumbersPartition(p);
    }
  }
}
