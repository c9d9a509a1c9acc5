/**
  The state of an open protected file, as values: cached nodes, root, the plaintext tree they stand
  for, the data region and the metadata.  Each step of the engine is a function here, with a lemma
  that says what it keeps.
 */
module FileState {
  import opened Options
  import opened Layout
  import opened Merkle
  import opened FlatFile

  /** A cached node's flags, ciphertext and plaintext. */
  datatype NodeVal = NodeVal(dirty: bool, newNode: bool, cipher: Block, plain: Plain)

  type Nodes = map<nat, NodeVal>

  /** `tree` is ghost bookkeeping: the current plaintext of every node, cached or not. */
  datatype State = State(nodes: Nodes, root: NodeVal, tree: Tree, disk: Disk, meta: Meta, needWriting: bool) {
    function Count(): nat { NodeCount(meta.size) }
    function Bytes(): seq<Byte> { Contents(meta.size, meta.data, tree) }
    /** The cached nodes and the root. */
    function All(): Nodes { nodes[ROOT_MHT_PHY_NUM := root] }
  }

  predicate IsDirty(nodes: Nodes, p: nat) {
    p in nodes && nodes[p].dirty
  }

  /** Cached plaintexts are the tree's, and the tree has every live node, well shaped. */
  ghost predicate Mirrors(s: State) {
    && ROOT_MHT_PHY_NUM in s.tree && s.root.plain == s.tree[ROOT_MHT_PHY_NUM]
    && (forall p :: p in s.nodes ==> p >= 2 && p in s.tree && s.nodes[p].plain == s.tree[p])
    && (forall p :: Live(s.Count(), p) ==> p in s.tree)
    && (forall p :: p in s.tree ==> p >= 1 && WellShaped(IsDataNode(p), s.tree[p]))
  }

  /** Every live node that is not dirty in the cache is on disk, sealed under its parent's slot. */
  ghost predicate CleanOnDisk(s: State) {
    forall p :: Live(s.Count(), p) && !IsDirty(s.nodes, p) ==> p in s.disk && LinkedTo(s.disk[p], s.tree, p)
  }

  /** Dirtiness reaches up: a dirty node is live and its parent is dirty, up to the root. */
  ghost predicate DirtyUp(s: State) {
    forall p :: IsDirty(s.nodes, p) ==>
      && Live(s.Count(), p)
      && if Parent(p) == ROOT_MHT_PHY_NUM then s.root.dirty else IsDirty(s.nodes, Parent(p))
  }

  ghost predicate RootOk(s: State) {
    && (s.root.dirty ==> s.needWriting && s.Count() > 0)
    && (s.Count() > 0 && !s.root.dirty ==>
          && ROOT_MHT_PHY_NUM in s.disk && ROOT_MHT_PHY_NUM in s.tree
          && SealedBy(s.disk[ROOT_MHT_PHY_NUM], Gcm(s.meta.mhtKey, s.meta.mhtGmac), s.tree[ROOT_MHT_PHY_NUM]))
  }

  /** A node that is not new carries the ciphertext the disk holds for it. */
  ghost predicate PreImages(s: State) {
    && (forall p :: p in s.nodes && !s.nodes[p].newNode ==> p in s.disk && s.nodes[p].cipher == s.disk[p])
    && (!s.root.newNode ==> ROOT_MHT_PHY_NUM in s.disk && s.root.cipher == s.disk[ROOT_MHT_PHY_NUM])
  }

  /** `bound` is the node count, or one more while an appended node waits for its first bytes. */
  ghost predicate CachedWithin(s: State, bound: nat) {
    forall p :: p in s.nodes ==> Live(bound, p)
  }

  /** What holds of an open file between steps. */
  ghost predicate Inv(s: State, bound: nat) {
    && Mirrors(s) && CleanOnDisk(s) && DirtyUp(s) && RootOk(s) && PreImages(s)
    && CachedWithin(s, bound) && s.Count() <= bound && |s.meta.data| == MD_USER_DATA_SIZE
  }

  // ---------------------------------------------------------------- chains

  /** `a` or one of its ancestors below the root. */
  ghost predicate OnPath(x: nat, a: nat)
    decreases a
  {
    a >= 2 && (x == a || (ParentBelow(a); OnPath(x, Parent(a))))
  }

  /** The whole non-root chain above and including `a` is cached. */
  ghost predicate ChainCached(nodes: Nodes, a: nat)
    decreases a
  {
    a >= 2 ==> a in nodes && (ParentBelow(a); ChainCached(nodes, Parent(a)))
  }

  /** Marks `a` and its non-root ancestors dirty. */
  ghost function MarkChain(nodes: Nodes, a: nat): Nodes
    requires ChainCached(nodes, a)
    decreases a
  {
    if a < 2 then nodes
    else
      ParentBelow(a);
      ChainCachedUpdate(nodes, Parent(a), a, nodes[a].(dirty := true));
      MarkChain(nodes[a := nodes[a].(dirty := true)], Parent(a))
  }

  lemma {:induction false} ChainCachedUpdate(nodes: Nodes, a: nat, p: nat, v: NodeVal)
    requires ChainCached(nodes, a)
    ensures ChainCached(nodes[p := v], a)
    decreases a
  {
    if a >= 2 {
      ParentBelow(a);
      ChainCachedUpdate(nodes, Parent(a), p, v);
    }
  }

  lemma {:induction false} MarkChainAt(nodes: Nodes, a: nat)
    requires ChainCached(nodes, a)
    ensures MarkChain(nodes, a).Keys == nodes.Keys
    ensures forall x :: x in nodes ==>
              MarkChain(nodes, a)[x] == nodes[x].(dirty := nodes[x].dirty || OnPath(x, a))
    decreases a
  {
    if a >= 2 {
      ParentBelow(a);
      var v := nodes[a].(dirty := true);
      ChainCachedUpdate(nodes, Parent(a), a, v);
      MarkChainAt(nodes[a := v], Parent(a));
    }
  }

  /** If the chain is dirty already, marking it changes nothing. */
  lemma {:induction false} MarkDirtyChain(s: State, a: nat)
    requires DirtyUp(s) && (a >= 2 ==> IsDirty(s.nodes, a))
    ensures ChainCached(s.nodes, a) && MarkChain(s.nodes, a) == s.nodes
    decreases a
  {
    if a >= 2 {
      ParentBelow(a);
      MarkDirtyChain(s, Parent(a));
      assert s.nodes[a := s.nodes[a].(dirty := true)] == s.nodes;
    }
  }

  /** A clean root means a clean cache. */
  lemma {:induction false} DirtyReachesRoot(s: State, p: nat)
    requires DirtyUp(s) && IsDirty(s.nodes, p)
    ensures s.root.dirty
    decreases p
  {
    assert p >= 2;
    ParentBelow(p);
    if Parent(p) != ROOT_MHT_PHY_NUM {
      DirtyReachesRoot(s, Parent(p));
    }
  }

  // ---------------------------------------------------------------- fetching

  /** A node read from disk joins the cache; it keeps its `new` mark. */
  ghost function Fetched(s: State, p: nat): State
    requires p in s.disk && p in s.tree
  {
    s.(nodes := s.nodes[p := NodeVal(false, true, s.disk[p], s.tree[p])])
  }

  /** A live node that is not cached decrypts to the tree's plaintext. */
  lemma FetchDecrypts(s: State, bound: nat, p: nat)
    requires Inv(s, bound) && Live(s.Count(), p) && p !in s.nodes
    ensures p in s.disk && p in s.tree && Parent(p) in s.tree
    ensures var g := GetGcm(s.tree[Parent(p)], SlotOf(p));
            && g.Some? && Decrypt(s.disk[p], g.value.key, g.value.mac) == Some(s.tree[p])
    ensures Inv(Fetched(s, p), bound)
  {
    hide Parent;
    hide SlotOf;
    hide IsDataNode;
    hide NodeCount;
    hide FirstData;
    assert LinkedTo(s.disk[p], s.tree, p);
    LiveMonotone(s.Count(), bound, p);
  }

  /** A fresh node joins the cache and the tree. */
  ghost function Appended(s: State, p: nat): State {
    s.(nodes := s.nodes[p := NodeVal(false, true, ZERO_BLOCK, NewPlain(IsDataNode(p)))],
       tree := s.tree[p := NewPlain(IsDataNode(p))])
  }

  lemma AppendKeeps(s: State, p: nat)
    requires Inv(s, s.Count() + 1)
    requires Live(s.Count() + 1, p) && !Live(s.Count(), p)
    ensures Inv(Appended(s, p), s.Count() + 1)
  {
    hide Mirrors;
    hide CleanOnDisk;
    hide DirtyUp;
    hide RootOk;
    hide PreImages;
    hide CachedWithin;
    AppendMirrors(s, p);
    AppendClean(s, p);
    AppendFlags(s, p);
  }

  lemma AppendMirrors(s: State, p: nat)
    requires Mirrors(s) && Live(s.Count() + 1, p) && !Live(s.Count(), p)
    ensures Mirrors(Appended(s, p))
  {
    hide NodeCount;
    hide FirstData;
    hide IsDataNode;
    hide NewPlain;
    hide WellShaped;
    NewPlainShaped(IsDataNode(p));
  }

  lemma AppendClean(s: State, p: nat)
    requires CleanOnDisk(s) && Live(s.Count() + 1, p) && !Live(s.Count(), p)
    ensures CleanOnDisk(Appended(s, p))
  {
    hide Parent;
    hide SlotOf;
    hide NodeCount;
    hide FirstData;
    hide NewPlain;
    var t := Appended(s, p);
    forall q: nat | Live(t.Count(), q) && !IsDirty(t.nodes, q)
      ensures q in t.disk && LinkedTo(t.disk[q], t.tree, q)
    {
      ParentLive(s.Count(), q);
    }
  }

  lemma AppendFlags(s: State, p: nat)
    requires DirtyUp(s) && RootOk(s) && PreImages(s) && CachedWithin(s, s.Count() + 1)
    requires Live(s.Count() + 1, p) && !Live(s.Count(), p)
    ensures var t := Appended(s, p); DirtyUp(t) && RootOk(t) && PreImages(t) && CachedWithin(t, s.Count() + 1)
  {
    hide Parent;
    hide NodeCount;
    hide FirstData;
    hide IsDataNode;
    hide NewPlain;
    var t := Appended(s, p);
    assert forall q :: IsDirty(t.nodes, q) <==> IsDirty(s.nodes, q);
  }

  lemma InvRoot(s: State, bound: nat)
    requires Inv(s, bound)
    ensures s.root.dirty ==> s.meta.size > MD_USER_DATA_SIZE && s.needWriting
    ensures PreImages(s)
  {
  }

  lemma InvData(s: State, bound: nat, p: nat)
    requires Inv(s, bound) && p in s.nodes && IsDataNode(p)
    ensures p >= 2 && p in s.tree && s.nodes[p].plain == s.tree[p] && WellShaped(true, s.tree[p]) && DirtyUp(s)
  {
  }

  lemma InvCached(s: State, bound: nat)
    requires Inv(s, bound)
    ensures CachedWithin(s, bound)
  {
  }

  lemma InvHead(s: State, bound: nat)
    requires Inv(s, bound)
    ensures |s.meta.data| == MD_USER_DATA_SIZE
  {
  }

  lemma InvWidens(s: State)
    requires Inv(s, s.Count())
    ensures Inv(s, s.Count() + 1)
  {
    hide Parent;
    hide SlotOf;
    hide NodeCount;
    forall p | p in s.nodes ensures Live(s.Count() + 1, p) {
      LiveMonotone(s.Count(), s.Count() + 1, p);
    }
  }

  /** `b` has the live part of `a`. */
  ghost predicate SameLive(a: Tree, b: Tree, count: nat) {
    forall p :: p in a && (p == ROOT_MHT_PHY_NUM || Live(count, p)) ==> p in b && b[p] == a[p]
  }

  lemma SameLiveTrans(a: Tree, b: Tree, c: Tree, count: nat)
    requires SameLive(a, b, count) && SameLive(b, c, count)
    ensures SameLive(a, c, count)
  {
    hide Live;
  }

  lemma SameLiveSelf(a: Tree, count: nat)
    ensures SameLive(a, a, count)
  {
  }

  lemma SameLiveAppend(a: Tree, count: nat, p: nat, plain: Plain)
    requires p >= 2 && !Live(count, p)
    ensures SameLive(a, a[p := plain], count)
  {
  }

  lemma SameLiveStored(disk: Disk, key: Key, meta: Meta, a: Tree, b: Tree)
    requires Stored(disk, key, meta, a) && SameLive(a, b, NodeCount(meta.size))
    ensures Stored(disk, key, meta, b)
  {
    hide Parent;
    hide SlotOf;
    hide FirstData;
    forall p | Live(NodeCount(meta.size), p) ensures p in disk && LinkedTo(disk[p], b, p) {
      ParentLive(NodeCount(meta.size), p);
    }
  }

  lemma AppendBytes(s: State, p: nat)
    requires Inv(s, s.Count() + 1) && !Live(s.Count(), p)
    ensures Appended(s, p).Bytes() == s.Bytes()
  {
    SameBytes(s.meta, s.meta, s.tree, Appended(s, p).tree);
  }

  /** The contents depend on the live data nodes only. */
  lemma SameBytes(m: Meta, m': Meta, tree: Tree, tree': Tree)
    requires m'.size == m.size && m'.data == m.data
    requires forall p :: Live(NodeCount(m.size), p) && IsDataNode(p) ==>
               p in tree && p in tree' && tree[p] == tree'[p]
    ensures Contents(m.size, m.data, tree) == Contents(m'.size, m'.data, tree')
  {
    forall i: nat | i < m.size
      ensures ByteAt(m.data, tree, i) == ByteAt(m.data, tree', i)
    {
      if i >= MD_USER_DATA_SIZE {
        NumberingInverts(i);
        assert Live(NodeCount(m.size), GetNodeNumbers(i).dataPhys);
      }
    }
  }

  // ---------------------------------------------------------------- writing user bytes

  function Max(a: nat, b: nat): nat { if a < b then b else a }

  /** Data node `p` takes a new plaintext; it, its ancestors and the root become dirty. */
  ghost function Wrote(s: State, p: nat, plain: Plain, size: nat): State
    requires ChainCached(s.nodes, p) && p >= 2
  {
    ChainCachedUpdate(s.nodes, p, p, s.nodes[p].(plain := plain));
    State(MarkChain(s.nodes[p := s.nodes[p].(plain := plain)], p), s.root.(dirty := true),
          s.tree[p := plain], s.disk, s.meta.(size := size), true)
  }

  lemma WroteDirty(s: State, p: nat, plain: Plain, size: nat)
    requires ChainCached(s.nodes, p) && p >= 2
    ensures IsDirty(Wrote(s, p, plain, size).nodes, p)
  {
    ChainCachedUpdate(s.nodes, p, p, s.nodes[p].(plain := plain));
    MarkChainAt(s.nodes[p := s.nodes[p].(plain := plain)], p);
  }

  lemma {:induction false} PathParent(x: nat, a: nat)
    requires OnPath(x, a)
    ensures x >= 2 && (Parent(x) == ROOT_MHT_PHY_NUM || OnPath(Parent(x), a))
    decreases a
  {
    ParentBelow(a);
    if x != a {
      PathParent(x, Parent(a));
    }
  }

  lemma {:induction false} PathLive(count: nat, x: nat, a: nat)
    requires OnPath(x, a) && Live(count, a)
    ensures Live(count, x)
    decreases a
  {
    if x != a {
      ParentBelow(a);
      ParentLive(count, a);
      PathLive(count, x, Parent(a));
    }
  }

  lemma {:induction false} PathCached(nodes: Nodes, x: nat, a: nat)
    requires OnPath(x, a) && ChainCached(nodes, a)
    ensures x in nodes
    decreases a
  {
    if x != a {
      ParentBelow(a);
      PathCached(nodes, x, Parent(a));
    }
  }

  /** The nodes that a write makes live are on the written node's path. */
  ghost predicate GrowsAlong(s: State, p: nat, size: nat) {
    && s.meta.size <= size && Live(NodeCount(size), p)
    && (forall q :: Live(NodeCount(size), q) ==> Live(s.Count(), q) || OnPath(q, p))
  }

  /** The nodes after `Wrote`, one by one. */
  lemma WroteNodes(s: State, p: nat, plain: Plain, size: nat)
    requires ChainCached(s.nodes, p) && p >= 2
    ensures var t := Wrote(s, p, plain, size);
            && t.nodes.Keys == s.nodes.Keys
            && (forall x :: x in s.nodes ==> t.nodes[x].dirty == (s.nodes[x].dirty || OnPath(x, p)))
            && (forall x :: x in s.nodes ==> t.nodes[x].plain == if x == p then plain else s.nodes[x].plain)
            && (forall x :: x in s.nodes ==> t.nodes[x].cipher == s.nodes[x].cipher && t.nodes[x].newNode == s.nodes[x].newNode)
            && (forall x :: IsDirty(t.nodes, x) <==> IsDirty(s.nodes, x) || OnPath(x, p))
  {
    var v := s.nodes[p].(plain := plain);
    ChainCachedUpdate(s.nodes, p, p, v);
    MarkChainAt(s.nodes[p := v], p);
    forall x | OnPath(x, p) ensures x in s.nodes {
      PathCached(s.nodes, x, p);
    }
  }

  lemma WroteClean(s: State, bound: nat, p: nat, plain: Plain, size: nat)
    requires Inv(s, bound) && ChainCached(s.nodes, p) && p >= 2 && IsDataNode(p)
    requires GrowsAlong(s, p, size)
    ensures CleanOnDisk(Wrote(s, p, plain, size))
  {
    hide Parent;
    hide SlotOf;
    hide NodeCount;
    hide FirstData;
    hide OnPath;
    var t := Wrote(s, p, plain, size);
    WroteNodes(s, p, plain, size);
    hide Wrote;
    assert OnPath(p, p) by { PathSelf(p); }
    forall q | Live(t.Count(), q) && !IsDirty(t.nodes, q)
      ensures q in t.disk && LinkedTo(t.disk[q], t.tree, q)
    {
      assert LinkedTo(s.disk[q], s.tree, q);
      ParentBelow(q);
    }
  }

  lemma PathSelf(p: nat)
    requires p >= 2
    ensures OnPath(p, p)
  {
  }

  lemma WroteDirtyUp(s: State, bound: nat, p: nat, plain: Plain, size: nat)
    requires Inv(s, bound) && ChainCached(s.nodes, p) && p >= 2
    requires GrowsAlong(s, p, size)
    ensures DirtyUp(Wrote(s, p, plain, size))
  {
    hide Parent;
    hide SlotOf;
    hide OnPath;
    var t := Wrote(s, p, plain, size);
    WroteNodes(s, p, plain, size);
    forall x | IsDirty(t.nodes, x)
      ensures Live(t.Count(), x)
      ensures if Parent(x) == ROOT_MHT_PHY_NUM then t.root.dirty else IsDirty(t.nodes, Parent(x))
    {
      if OnPath(x, p) {
        PathLive(t.Count(), x, p);
        PathParent(x, p);
      } else {
        CountMonotone(s.meta.size, size);
        LiveMonotone(s.Count(), t.Count(), x);
      }
    }
  }

  lemma CountMonotone(a: nat, b: nat)
    requires a <= b
    ensures NodeCount(a) <= NodeCount(b)
  {
  }

  lemma DirtyUpPlain(s: State, p: nat, plain: Plain)
    requires DirtyUp(s) && p in s.nodes
    ensures DirtyUp(s.(nodes := s.nodes[p := s.nodes[p].(plain := plain)]))
  {
    hide Parent;
    hide Live;
    var t := s.(nodes := s.nodes[p := s.nodes[p].(plain := plain)]);
    assert forall q :: IsDirty(t.nodes, q) <==> IsDirty(s.nodes, q);
  }

  lemma WroteMirrors(s: State, p: nat, plain: Plain, size: nat)
    requires Mirrors(s) && ChainCached(s.nodes, p) && p >= 2 && IsDataNode(p)
    requires WellShaped(true, plain) && GrowsAlong(s, p, size)
    ensures Mirrors(Wrote(s, p, plain, size))
  {
    hide Parent;
    hide FirstData;
    hide OnPath;
    hide MarkChain;
    hide ChainCached;
    var t := Wrote(s, p, plain, size);
    WroteNodes(s, p, plain, size);
    forall q | Live(t.Count(), q) ensures q in t.tree {
      if OnPath(q, p) {
        PathCached(s.nodes, q, p);
      }
    }
  }

  /** Writing into a cached data node keeps the invariant. */
  lemma WroteKeeps(s: State, bound: nat, p: nat, plain: Plain, size: nat)
    requires Inv(s, bound) && ChainCached(s.nodes, p) && p >= 2 && IsDataNode(p)
    requires WellShaped(true, plain) && GrowsAlong(s, p, size) && NodeCount(size) <= bound
    ensures Inv(Wrote(s, p, plain, size), bound)
  {
    WroteClean(s, bound, p, plain, size);
    WroteDirtyUp(s, bound, p, plain, size);
    WroteMirrors(s, p, plain, size);
    WroteNodes(s, p, plain, size);
    hide Parent;
    hide SlotOf;
    hide OnPath;
    hide MarkChain;
    hide ChainCached;
    hide CleanOnDisk;
    hide DirtyUp;
    hide Mirrors;
    assert Wrote(s, p, plain, size).Count() > 0;
  }

  /** An overwrite that stays inside. */
  function Splice(b: seq<Byte>, o: nat, chunk: seq<Byte>): (r: seq<Byte>)
    requires o + |chunk| <= |b|
    ensures |r| == |b|
    ensures forall i :: 0 <= i < |b| ==> r[i] == if o <= i < o + |chunk| then chunk[i - o] else b[i]
  {
    Overwrite(b, o, chunk)
  }

  /** The file sees a write into a data node as an overwrite at the cursor. */
  lemma WroteBytes(s: State, p: nat, offset: nat, chunk: seq<Byte>, size: nat)
    requires ChainCached(s.nodes, p) && p in s.tree && WellShaped(true, s.tree[p])
    requires MD_USER_DATA_SIZE <= offset <= s.meta.size
    requires p == GetNodeNumbers(offset).dataPhys
    requires (offset - MD_USER_DATA_SIZE) % NODE_SIZE + |chunk| <= NODE_SIZE
    requires size == Max(s.meta.size, offset + |chunk|)
    ensures var o := (offset - MD_USER_DATA_SIZE) % NODE_SIZE;
            Wrote(s, p, DataPlain(Splice(s.tree[p].bytes, o, chunk)), size).Bytes() == Overwrite(s.Bytes(), offset, chunk)
  {
    var o := (offset - MD_USER_DATA_SIZE) % NODE_SIZE;
    var plain := DataPlain(Splice(s.tree[p].bytes, o, chunk));
    var tree' := s.tree[p := plain];
    forall i: nat | i < size
      ensures ByteAt(s.meta.data, tree', i) == Overwrite(s.Bytes(), offset, chunk)[i]
    {
      WroteByte(s, p, offset, chunk, i);
    }
    assert Contents(size, s.meta.data, tree') == Overwrite(s.Bytes(), offset, chunk);
  }

  lemma WroteByte(s: State, p: nat, offset: nat, chunk: seq<Byte>, i: nat)
    requires p in s.tree && WellShaped(true, s.tree[p])
    requires MD_USER_DATA_SIZE <= offset <= s.meta.size
    requires p == GetNodeNumbers(offset).dataPhys
    requires (offset - MD_USER_DATA_SIZE) % NODE_SIZE + |chunk| <= NODE_SIZE
    requires i < Max(s.meta.size, offset + |chunk|)
    ensures var o := (offset - MD_USER_DATA_SIZE) % NODE_SIZE;
            ByteAt(s.meta.data, s.tree[p := DataPlain(Splice(s.tree[p].bytes, o, chunk))], i)
            == if offset <= i < offset + |chunk| then chunk[i - offset] else ByteAt(s.meta.data, s.tree, i)
  {
    hide GetNodeNumbers;
    if i >= MD_USER_DATA_SIZE {
      SamePlace(offset, i);
      if offset <= i < offset + |chunk| {
        SameNode(offset, i - offset);
      }
    }
  }

  /** Two offsets in one node are as far apart as their places in it. */
  lemma SamePlace(a: nat, b: nat)
    requires a >= MD_USER_DATA_SIZE && b >= MD_USER_DATA_SIZE
    ensures GetNodeNumbers(a).dataPhys == GetNodeNumbers(b).dataPhys ==>
              b - a == (b - MD_USER_DATA_SIZE) % NODE_SIZE - (a - MD_USER_DATA_SIZE) % NODE_SIZE
  {
    DataNumbering(GetNodeNumbers(a).dataLogic);
    DataNumbering(GetNodeNumbers(b).dataLogic);
  }

  /** Bytes in the metadata head. */
  function HeadWrote(s: State, offset: nat, chunk: seq<Byte>): State
    requires offset + |chunk| <= |s.meta.data|
  {
    s.(meta := s.meta.(data := Splice(s.meta.data, offset, chunk), size := Max(s.meta.size, offset + |chunk|)),
       needWriting := true)
  }

  lemma HeadWroteKeeps(s: State, bound: nat, offset: nat, chunk: seq<Byte>)
    requires Inv(s, bound) && offset <= s.meta.size && offset + |chunk| <= MD_USER_DATA_SIZE
    ensures Inv(HeadWrote(s, offset, chunk), bound)
    ensures HeadWrote(s, offset, chunk).Count() == s.Count()
    ensures HeadWrote(s, offset, chunk).Bytes() == Overwrite(s.Bytes(), offset, chunk)
  {
    hide Parent;
    hide SlotOf;
    hide FirstData;
    var t := HeadWrote(s, offset, chunk);
    assert t.Count() == s.Count();
    assert Inv(t, bound);
    assert t.Bytes() == Overwrite(s.Bytes(), offset, chunk);
  }

  // ---------------------------------------------------------------- eviction

  ghost function Evicted(s: State, p: nat): State {
    s.(nodes := s.nodes - {p})
  }

  lemma EvictKeeps(s: State, bound: nat, p: nat)
    requires Inv(s, bound) && !IsDirty(s.nodes, p)
    ensures Inv(Evicted(s, p), bound)
  {
    hide Parent;
    hide SlotOf;
    hide FirstData;
    hide NodeCount;
    var t := Evicted(s, p);
    assert forall q :: IsDirty(t.nodes, q) <==> IsDirty(s.nodes, q);
  }

  // ---------------------------------------------------------------- growing by a chunk

  /** A chunk written into the cursor's node makes at most that node and its MHT node live. */
  lemma WriteGrows(s: State, offset: nat, len: nat)
    requires MD_USER_DATA_SIZE <= offset <= s.meta.size && len > 0
    requires (offset - MD_USER_DATA_SIZE) % NODE_SIZE + len <= NODE_SIZE
    ensures var size := Max(s.meta.size, offset + len);
            && GrowsAlong(s, GetNodeNumbers(offset).dataPhys, size)
            && NodeCount(size) == s.Count() + if offset == s.meta.size && (offset - MD_USER_DATA_SIZE) % NODE_SIZE == 0 then 1 else 0
  {
    var nn, c := GetNodeNumbers(offset), s.Count();
    var p, size := nn.dataPhys, Max(s.meta.size, offset + len);
    NumberingInverts(offset);
    FetchData(offset, s.meta.size);
    WriteCount(s.meta.size, offset, len);
    if NodeCount(size) == c + 1 {
      forall q | Live(c + 1, q) ensures Live(c, q) || OnPath(q, p) {
        LiveNext(c, q);
        if !Live(c, q) {
          PathTwo(q, p);
        }
      }
    }
  }

  lemma PathTwo(q: nat, p: nat)
    requires p >= 2 && q >= 2 && (q == p || q == Parent(p))
    ensures OnPath(q, p)
  {
    PathSelf(q);
  }

  lemma WriteCount(size: nat, offset: nat, len: nat)
    requires MD_USER_DATA_SIZE <= offset <= size && len > 0
    requires (offset - MD_USER_DATA_SIZE) % NODE_SIZE + len <= NODE_SIZE
    ensures NodeCount(Max(size, offset + len))
            == NodeCount(size) + if offset == size && (offset - MD_USER_DATA_SIZE) % NODE_SIZE == 0 then 1 else 0
  {
    var x := offset - MD_USER_DATA_SIZE;
    var d, o := x / NODE_SIZE, x % NODE_SIZE;
    assert x == 4096 * d + o && x + len <= 4096 * d + 4096;
  }

  /** The cache has room for the deepest chain of a file of `size` bytes, data node included. */
  ghost predicate Fits(cap: nat, size: nat) {
    size > MD_USER_DATA_SIZE ==> Depth(GetNodeNumbers(size - 1).mhtLogic) < cap
  }

  lemma FitsAt(cap: nat, size: nat, offset: nat)
    requires Fits(cap, size) && MD_USER_DATA_SIZE <= offset < size
    ensures Depth(GetNodeNumbers(offset).mhtLogic) < cap
  {
    DepthMonotone(GetNodeNumbers(offset).mhtLogic, GetNodeNumbers(size - 1).mhtLogic);
  }

  /** A fetch before a write never needs more nodes than the file has after the write. */
  lemma FetchCount(offset: nat, size: nat, total: nat)
    requires MD_USER_DATA_SIZE <= offset <= size <= total && offset < total
    ensures NodeCount(size) + (if (offset - MD_USER_DATA_SIZE) % NODE_SIZE == 0 && offset == size then 1 else 0) <= NodeCount(total)
  {
    CountMonotone(size, total);
  }

  lemma FitsMonotone(cap: nat, size: nat, smaller: nat)
    requires Fits(cap, size) && smaller <= size
    ensures Fits(cap, smaller)
  {
    if smaller > MD_USER_DATA_SIZE {
      FitsAt(cap, size, smaller - 1);
    }
  }

  /** A chunk written into the cursor's cached node: invariant and contents. */
  lemma ChunkKeeps(s: State, bound: nat, offset: nat, chunk: seq<Byte>)
    requires MD_USER_DATA_SIZE <= offset <= s.meta.size && chunk != []
    requires (offset - MD_USER_DATA_SIZE) % NODE_SIZE + |chunk| <= NODE_SIZE
    requires bound == s.Count() + if (offset - MD_USER_DATA_SIZE) % NODE_SIZE == 0 && offset == s.meta.size then 1 else 0
    requires var p := GetNodeNumbers(offset).dataPhys;
             Inv(s, bound) && p >= 2 && ChainCached(s.nodes, p) && p in s.tree && WellShaped(true, s.tree[p])
    ensures var p, o := GetNodeNumbers(offset).dataPhys, (offset - MD_USER_DATA_SIZE) % NODE_SIZE;
            var t := Wrote(s, p, DataPlain(Splice(s.tree[p].bytes, o, chunk)), Max(s.meta.size, offset + |chunk|));
            Inv(t, t.Count()) && t.Bytes() == Overwrite(s.Bytes(), offset, chunk)
  {
    hide Inv;
    hide GrowsAlong;
    hide Contents;
    hide ChainCached;
    hide Overwrite;
    var p, o := GetNodeNumbers(offset).dataPhys, (offset - MD_USER_DATA_SIZE) % NODE_SIZE;
    var plain, size := DataPlain(Splice(s.tree[p].bytes, o, chunk)), Max(s.meta.size, offset + |chunk|);
    NumberingInverts(offset);
    WriteGrows(s, offset, |chunk|);
    WroteKeeps(s, bound, p, plain, size);
    WroteBytes(s, p, offset, chunk, size);
  }

  /** The file's bytes inside one node are that node's bytes. */
  lemma NodeBytes(s: State, bound: nat, offset: nat, len: nat)
    requires MD_USER_DATA_SIZE <= offset && offset + len <= s.meta.size
    requires (offset - MD_USER_DATA_SIZE) % NODE_SIZE + len <= NODE_SIZE
    requires GetNodeNumbers(offset).dataPhys in s.nodes && Inv(s, bound)
    ensures var p, o := GetNodeNumbers(offset).dataPhys, (offset - MD_USER_DATA_SIZE) % NODE_SIZE;
            && s.nodes[p].plain.DataPlain? && |s.nodes[p].plain.bytes| == NODE_SIZE
            && s.nodes[p].plain.bytes[o..o + len] == s.Bytes()[offset..offset + len]
  {
    var p, o := GetNodeNumbers(offset).dataPhys, (offset - MD_USER_DATA_SIZE) % NODE_SIZE;
    NumberingInverts(offset);
    InvData(s, bound, p);
    TreeBytes(s.meta.size, s.meta.data, s.tree, offset, len);
  }

  lemma TreeBytes(size: nat, data: seq<Byte>, tree: Tree, offset: nat, len: nat)
    requires MD_USER_DATA_SIZE <= offset && offset + len <= size
    requires (offset - MD_USER_DATA_SIZE) % NODE_SIZE + len <= NODE_SIZE
    requires GetNodeNumbers(offset).dataPhys in tree && tree[GetNodeNumbers(offset).dataPhys].DataPlain?
    requires |tree[GetNodeNumbers(offset).dataPhys].bytes| == NODE_SIZE
    ensures var p, o := GetNodeNumbers(offset).dataPhys, (offset - MD_USER_DATA_SIZE) % NODE_SIZE;
            tree[p].bytes[o..o + len] == Contents(size, data, tree)[offset..offset + len]
  {
    hide GetNodeNumbers;
    var p, o := GetNodeNumbers(offset).dataPhys, (offset - MD_USER_DATA_SIZE) % NODE_SIZE;
    var c := Contents(size, data, tree);
    forall j | offset <= j < offset + len ensures c[j] == tree[p].bytes[o + (j - offset)] {
      SameNode(offset, j - offset);
    }
    assert tree[p].bytes[o..o + len] == c[offset..offset + len];
  }

  lemma SameNode(offset: nat, i: nat)
    requires offset >= MD_USER_DATA_SIZE && (offset - MD_USER_DATA_SIZE) % NODE_SIZE + i < NODE_SIZE
    ensures GetNodeNumbers(offset + i).dataPhys == GetNodeNumbers(offset).dataPhys
    ensures (offset + i - MD_USER_DATA_SIZE) % NODE_SIZE == (offset - MD_USER_DATA_SIZE) % NODE_SIZE + i
  {
    var x := offset - MD_USER_DATA_SIZE;
    assert x + i == 4096 * (x / 4096) + (x % 4096 + i);
  }

  lemma HeadBytes(s: State, bound: nat, offset: nat, len: nat)
    requires Inv(s, bound) && offset + len <= s.meta.size && offset + len <= MD_USER_DATA_SIZE
    ensures |s.meta.data| == MD_USER_DATA_SIZE
    ensures s.meta.data[offset..offset + len] == s.Bytes()[offset..offset + len]
  {
    hide Parent;
    hide Live;
  }

  /** A file with no data nodes and a clean, new root meets the invariant. */
  lemma CreatedInv(s: State)
    requires s.nodes == map[] && s.meta.size == 0 && |s.meta.data| == MD_USER_DATA_SIZE
    requires !s.root.dirty && s.root.newNode && s.root.plain == NewPlain(false)
    requires s.tree == map[ROOT_MHT_PHY_NUM := s.root.plain]
    ensures Inv(s, NodeCount(0))
  {
    hide Parent;
    NewPlainShaped(false);
  }

  /** The plaintexts a stored file is opened with; an empty tree starts from a new root. */
  ghost function OpenedTree(meta: Meta, t: Tree): Tree {
    if NodeCount(meta.size) > 0 then t else map[ROOT_MHT_PHY_NUM := NewPlain(false)]
  }

  /** Every plaintext has the shape its number asks for. */
  ghost predicate Shaped(t: Tree) {
    forall p :: p in t ==> p >= 1 && WellShaped(IsDataNode(p), t[p])
  }

  /** A stored file, opened with an empty cache, meets the invariant. */
  lemma OpenedInv(s: State, key: Key, t: Tree)
    requires Stored(s.disk, key, s.meta, t) && Shaped(t) && |s.meta.data| == MD_USER_DATA_SIZE
    requires s.nodes == map[] && !s.root.dirty && s.tree == OpenedTree(s.meta, t)
    requires ROOT_MHT_PHY_NUM in s.tree && s.root.plain == s.tree[ROOT_MHT_PHY_NUM]
    requires !s.root.newNode ==> ROOT_MHT_PHY_NUM in s.disk && s.root.cipher == s.disk[ROOT_MHT_PHY_NUM]
    ensures Inv(s, s.Count()) && Stored(s.disk, key, s.meta, s.tree)
    ensures s.Bytes() == Contents(s.meta.size, s.meta.data, t)
  {
    hide Parent;
    NewPlainShaped(false);
    SameBytes(s.meta, s.meta, s.tree, t);
  }
}
