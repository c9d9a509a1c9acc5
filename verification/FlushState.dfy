/**
  The flush protocol, step by step: seal dirty nodes bottom-up, then the root, then the metadata;
  write them out; end with the metadata block whose update flag is clear.
 */
module FlushState {
  import opened Layout
  import opened Merkle
  import opened FileState

  function MetaGcm(meta: Meta): Gcm {
    Gcm(meta.mhtKey, meta.mhtGmac)
  }

  // ---------------------------------------------------------------- sealing

  /** Node `p` is sealed under `key`; its key and MAC go into the parent's slot. */
  ghost function SealNode(s: State, p: nat, key: Key): State
    requires p >= 2 && p in s.nodes
  {
    var plain := s.nodes[p].plain;
    var g, par := Gcm(key, Tag(key, plain)), Parent(p);
    var nodes := s.nodes[p := s.nodes[p].(cipher := Sealed(key, plain))];
    if par == ROOT_MHT_PHY_NUM then
      var up := SetGcm(s.root.plain, SlotOf(p), g);
      s.(nodes := nodes, root := s.root.(plain := up), tree := s.tree[par := up])
    else if par in nodes then
      var up := SetGcm(nodes[par].plain, SlotOf(p), g);
      s.(nodes := nodes[par := nodes[par].(plain := up)], tree := s.tree[par := up])
    else s.(nodes := nodes)
  }

  ghost predicate CleanPreImages(s: State) {
    forall p :: p in s.nodes && !s.nodes[p].dirty && !s.nodes[p].newNode ==> p in s.disk && s.nodes[p].cipher == s.disk[p]
  }

  ghost predicate AllSealed(s: State, done: set<nat>) {
    forall p :: p in done ==> p >= 2 && IsDirty(s.nodes, p) && LinkedTo(s.nodes[p].cipher, s.tree, p)
  }

  /** During sealing: the nodes in `done` are linked to their parents by their new ciphertexts. */
  ghost predicate Sealing(s: State, bound: nat, done: set<nat>) {
    && Mirrors(s) && CleanOnDisk(s) && DirtyUp(s) && CachedWithin(s, bound)
    && s.Count() <= bound && |s.meta.data| == MD_USER_DATA_SIZE
    && s.root.dirty && s.needWriting && s.Count() > 0
    && CleanPreImages(s) && AllSealed(s, done)
  }

  /** A file with something to write, before its write-out, however far an earlier attempt has sealed it. */
  ghost predicate Pending(s: State, bound: nat) {
    if s.root.dirty then Sealing(s, bound, {}) else Inv(s, bound)
  }

  lemma InvPending(s: State, bound: nat)
    requires Inv(s, bound)
    ensures Pending(s, bound)
  {
    hide Inv;
    hide Sealing;
    if s.root.dirty {
      DirtySealing(s, bound);
    }
  }

  /** Which nodes have been sealed can be forgotten. */
  lemma SealingForgets(s: State, bound: nat, done: set<nat>)
    requires Sealing(s, bound, done)
    ensures Sealing(s, bound, {})
  {
  }

  /** The same nodes with the same flags. */
  ghost predicate SameFlags(a: Nodes, b: Nodes) {
    && (forall k :: k in a <==> k in b)
    && (forall k :: k in a ==> b[k].dirty == a[k].dirty && b[k].newNode == a[k].newNode)
  }

  lemma SameFlagsSelf(a: Nodes)
    ensures SameFlags(a, a)
  {
  }

  lemma SameFlagsTrans(a: Nodes, b: Nodes, c: Nodes)
    requires SameFlags(a, b) && SameFlags(b, c)
    ensures SameFlags(a, c)
  {
  }

  lemma SameFlagsAll(s: State, t: State)
    requires SameFlags(s.nodes, t.nodes) && t.root.dirty == s.root.dirty && t.root.newNode == s.root.newNode
    ensures SameFlags(s.All(), t.All())
  {
  }

  lemma SameFlagsDirty(a: Nodes, b: Nodes, k: nat)
    requires SameFlags(a, b)
    ensures IsDirty(a, k) == IsDirty(b, k)
  {
  }

  /** The clean nodes of `a` are in `b`, clean and with the same `new` mark. */
  ghost predicate CleanKept(a: Nodes, b: Nodes) {
    forall k :: k in a && !a[k].dirty ==> k in b && !b[k].dirty && b[k].newNode == a[k].newNode
  }

  lemma CleanKeptSelf(a: Nodes)
    ensures CleanKept(a, a)
  {
  }

  lemma CleanKeptTrans(a: Nodes, b: Nodes, c: Nodes)
    requires CleanKept(a, b) && CleanKept(b, c)
    ensures CleanKept(a, c)
  {
  }

  lemma SameFlagsClean(a: Nodes, b: Nodes, c: Nodes)
    requires SameFlags(a, b)
    ensures CleanKept(b, c) ==> CleanKept(a, c)
  {
  }

  lemma SealNodeFlags(s: State, bound: nat, done: set<nat>, p: nat, key: Key)
    requires Sealing(s, bound, done) && IsDirty(s.nodes, p)
    ensures p >= 2 && SameFlags(s.nodes, SealNode(s, p, key).nodes)
  {
    hide Parent;
    hide SlotOf;
    hide SealNode;
    SealNodeEffect(s, bound, done, p, key);
  }

  lemma SealNodeRest(s: State, bound: nat, done: set<nat>, p: nat, key: Key)
    requires Sealing(s, bound, done) && IsDirty(s.nodes, p)
    ensures p >= 2
    ensures var t := SealNode(s, p, key);
            t.disk == s.disk && t.meta == s.meta && t.needWriting == s.needWriting
  {
  }

  /** What `SealNode` changes: the node's ciphertext and one slot of a dirty parent. */
  lemma SealNodeEffect(s: State, bound: nat, done: set<nat>, p: nat, key: Key)
    requires Sealing(s, bound, done) && IsDirty(s.nodes, p)
    ensures p >= 2 && Parent(p) in s.tree && p in s.tree
    ensures var t := SealNode(s, p, key);
            var up := SetGcm(s.tree[Parent(p)], SlotOf(p), Gcm(key, Tag(key, s.tree[p])));
            && t.tree == s.tree[Parent(p) := up]
            && t.nodes.Keys == s.nodes.Keys
            && (forall x :: IsDirty(t.nodes, x) <==> IsDirty(s.nodes, x))
            && (forall x :: x in s.nodes ==>
                  && t.nodes[x].dirty == s.nodes[x].dirty && t.nodes[x].newNode == s.nodes[x].newNode
                  && t.nodes[x].cipher == (if x == p then Sealed(key, s.tree[p]) else s.nodes[x].cipher)
                  && t.nodes[x].plain == (if x == Parent(p) then up else s.nodes[x].plain))
            && t.root == s.root.(plain := if Parent(p) == ROOT_MHT_PHY_NUM then up else s.root.plain)
            && t.disk == s.disk && t.meta == s.meta && t.needWriting == s.needWriting
  {
    ParentBelow(p);
    hide SlotOf;
    hide FirstData;
    hide SetGcm;
  }

  /** A node other than `p`, whose own plaintext is unchanged, stays linked. */
  lemma StaysLinked(s: State, block: Block, p: nat, q: nat, g: Gcm)
    requires p >= 2 && q >= 2 && q != p && q != Parent(p)
    requires Parent(p) in s.tree && WellShaped(false, s.tree[Parent(p)])
    requires LinkedTo(block, s.tree, q)
    ensures LinkedTo(block, s.tree[Parent(p) := SetGcm(s.tree[Parent(p)], SlotOf(p), g)], q)
  {
    hide IsDataNode;
    if Parent(q) == Parent(p) {
      if SlotOf(q) == SlotOf(p) {
        SlotInjective(p, q);
      }
      SlotUpdate(s.tree[Parent(p)], SlotOf(p), g, SlotOf(q));
    }
  }

  /** One sealing step: descending order never seals a parent before its child. */
  lemma SealNodeKeeps(s: State, bound: nat, done: set<nat>, p: nat, key: Key)
    requires Sealing(s, bound, done)
    requires IsDirty(s.nodes, p) && p !in done && Parent(p) !in done
    ensures Sealing(SealNode(s, p, key), bound, done + {p})
  {
    hide CleanOnDisk;
    hide DirtyUp;
    hide Mirrors;
    hide AllSealed;
    hide Parent;
    hide SlotOf;
    hide Live;
    hide SealNode;
    SealNodeEffect(s, bound, done, p, key);
    SealNodeLinks(s, bound, done, p, key);
    SealNodeMirrors(s, bound, done, p, key);
  }

  lemma SealNodeMirrors(s: State, bound: nat, done: set<nat>, p: nat, key: Key)
    requires Sealing(s, bound, done) && IsDirty(s.nodes, p)
    ensures Mirrors(SealNode(s, p, key)) && DirtyUp(SealNode(s, p, key))
  {
    hide Parent;
    hide SlotOf;
    hide FirstData;
    hide NodeCount;
    hide CleanOnDisk;
    hide LinkedTo;
    hide SealNode;
    hide SetGcm;
    SealNodeEffect(s, bound, done, p, key);
    ParentBelow(p);
    SlotUpdate(s.tree[Parent(p)], SlotOf(p), Gcm(key, Tag(key, s.tree[p])), SlotOf(p));
  }

  lemma SealNodeBytes(s: State, bound: nat, done: set<nat>, p: nat, key: Key)
    requires Sealing(s, bound, done) && IsDirty(s.nodes, p)
    ensures SealNode(s, p, key).Bytes() == s.Bytes()
  {
    var t := SealNode(s, p, key);
    SealNodeEffect(s, bound, done, p, key);
    ParentBelow(p);
    SameBytes(s.meta, t.meta, s.tree, t.tree);
  }

  lemma SealNodeLinks(s: State, bound: nat, done: set<nat>, p: nat, key: Key)
    requires Sealing(s, bound, done)
    requires IsDirty(s.nodes, p) && p !in done && Parent(p) !in done
    ensures CleanOnDisk(SealNode(s, p, key))
    ensures AllSealed(SealNode(s, p, key), done + {p})
  {
    var t := SealNode(s, p, key);
    var g := Gcm(key, Tag(key, s.tree[p]));
    SealNodeEffect(s, bound, done, p, key);
    ParentBelow(p);
    hide SealNode;
    hide Parent;
    hide SlotOf;
    hide FirstData;
    hide NodeCount;
    forall q | Live(t.Count(), q) && !IsDirty(t.nodes, q)
      ensures q in t.disk && LinkedTo(t.disk[q], t.tree, q)
    {
      StaysLinked(s, s.disk[q], p, q, g);
    }
    forall q | q in done
      ensures q >= 2 && IsDirty(t.nodes, q) && LinkedTo(t.nodes[q].cipher, t.tree, q)
    {
      StaysLinked(s, s.nodes[q].cipher, p, q, g);
    }
    SlotPresent(s.tree[Parent(p)], p);
    SlotUpdate(s.tree[Parent(p)], SlotOf(p), g, SlotOf(p));
  }

  ghost function SealRoot(s: State, key: Key): State {
    s.(root := s.root.(cipher := Sealed(key, s.root.plain)),
       meta := s.meta.(mhtKey := key, mhtGmac := Tag(key, s.root.plain)))
  }

  // ---------------------------------------------------------------- writing out

  /**
    Everything is sealed: each live node's current ciphertext, in the cache or on disk, is the one
    its parent's slot names, up to the root MAC in the metadata.
   */
  ghost predicate Ready(s: State, bound: nat) {
    && Mirrors(s) && CachedWithin(s, bound) && s.Count() <= bound && |s.meta.data| == MD_USER_DATA_SIZE
    && (forall p :: IsDirty(s.nodes, p) ==> Live(s.Count(), p) && LinkedTo(s.nodes[p].cipher, s.tree, p))
    && CleanOnDisk(s)
    && (s.root.dirty ==> s.Count() > 0 && SealedBy(s.root.cipher, MetaGcm(s.meta), s.tree[ROOT_MHT_PHY_NUM]))
    && (!s.root.dirty ==>
          && (forall p :: !IsDirty(s.nodes, p))
          && (s.Count() > 0 ==>
                ROOT_MHT_PHY_NUM in s.disk && SealedBy(s.disk[ROOT_MHT_PHY_NUM], MetaGcm(s.meta), s.tree[ROOT_MHT_PHY_NUM])))
    && CleanPreImages(s)
    && (!s.root.dirty && !s.root.newNode ==> ROOT_MHT_PHY_NUM in s.disk && s.root.cipher == s.disk[ROOT_MHT_PHY_NUM])
  }

  lemma ReadyRoot(s: State, bound: nat)
    requires Ready(s, bound)
    ensures s.root.dirty ==> s.meta.size > MD_USER_DATA_SIZE
  {
  }

  lemma ReadyCached(s: State, bound: nat, p: nat)
    requires Ready(s, bound) && p in s.nodes
    ensures Live(bound, p)
  {
  }

  /** With nothing to write no node is dirty. */
  lemma CleanInv(s: State, bound: nat)
    requires Inv(s, bound) && !s.needWriting
    ensures forall p :: !IsDirty(s.nodes, p)
  {
    hide Mirrors;
    hide CleanOnDisk;
    hide PreImages;
    forall p: nat ensures !IsDirty(s.nodes, p) {
      DirtyAlways(s, p);
    }
  }

  lemma DirtyAlways(s: State, p: nat)
    requires DirtyUp(s)
    ensures IsDirty(s.nodes, p) ==> s.root.dirty
  {
    if IsDirty(s.nodes, p) {
      DirtyReachesRoot(s, p);
    }
  }

  lemma ReadyClean(s: State, bound: nat)
    requires Ready(s, bound) && !s.root.dirty
    ensures forall p :: !IsDirty(s.nodes, p)
  {
  }

  lemma ReadyMirrors(s: State, bound: nat)
    requires Ready(s, bound)
    ensures Mirrors(s) && ROOT_MHT_PHY_NUM !in s.nodes
  {
  }

  lemma SealRootReady(s: State, bound: nat, done: set<nat>, key: Key)
    requires Sealing(s, bound, done) && (forall p :: IsDirty(s.nodes, p) ==> p in done)
    ensures Ready(SealRoot(s, key), bound) && Sealing(SealRoot(s, key), bound, {})
    ensures SealRoot(s, key).Bytes() == s.Bytes()
  {
    hide IsDataNode;
    hide NodeCount;
    hide Live;
    hide LinkedTo;
    hide WellShaped;
    hide Contents;
    var t := SealRoot(s, key);
    assert t.Count() == s.Count();
  }

  /** With a clean root there is nothing to seal. */
  lemma CleanReady(s: State, bound: nat)
    requires Inv(s, bound) && !s.root.dirty
    ensures Ready(s, bound)
  {
    forall p | IsDirty(s.nodes, p) ensures false {
      DirtyReachesRoot(s, p);
    }
    hide Parent;
    hide SlotOf;
    hide FirstData;
    hide IsDataNode;
  }

  lemma DirtySealing(s: State, bound: nat)
    requires Inv(s, bound) && s.root.dirty
    ensures Sealing(s, bound, {})
  {
    hide Parent;
    hide SlotOf;
    hide FirstData;
    hide IsDataNode;
  }

  lemma PendingRoot(s: State, bound: nat)
    requires Pending(s, bound)
    ensures s.root.dirty ==> s.meta.size > MD_USER_DATA_SIZE && s.needWriting
    ensures !s.root.dirty ==> Inv(s, bound)
  {
  }

  /** A larger bound does as well. */
  lemma PendingWidens(s: State, bound: nat, more: nat)
    requires bound <= more
    ensures Pending(s, bound) ==> Pending(s, more)
    ensures Ready(s, bound) ==> Ready(s, more)
    ensures Inv(s, bound) ==> Inv(s, more)
  {
    hide Mirrors;
    hide CleanOnDisk;
    hide DirtyUp;
    hide RootOk;
    hide PreImages;
    hide Live;
    hide NodeCount;
    forall p | p in s.nodes ensures Live(bound, p) ==> Live(more, p) {
      if Live(bound, p) {
        LiveMonotone(bound, more, p);
      }
    }
  }

  /** With an empty cache no node is waiting for its first bytes. */
  lemma InvNarrows(s: State, bound: nat)
    requires Inv(s, bound) && s.nodes == map[]
    ensures Inv(s, s.Count())
  {
    hide Mirrors;
    hide CleanOnDisk;
    hide DirtyUp;
    hide RootOk;
    hide PreImages;
  }

  /** A dirty node is written to its block. */
  ghost function WriteNode(s: State, p: nat): State
    requires p in s.nodes
  {
    s.(disk := s.disk[p := s.nodes[p].cipher], nodes := s.nodes[p := s.nodes[p].(dirty := false, newNode := false)])
  }

  lemma WriteNodeKeeps(s: State, bound: nat, p: nat)
    requires Ready(s, bound) && IsDirty(s.nodes, p)
    ensures Ready(WriteNode(s, p), bound)
  {
    hide Parent;
    hide SlotOf;
    hide FirstData;
    hide IsDataNode;
    hide NodeCount;
    hide LinkedTo;
    hide SealedBy;
    hide WellShaped;
    var t := WriteNode(s, p);
    assert forall q :: IsDirty(t.nodes, q) <==> IsDirty(s.nodes, q) && q != p;
    assert p >= 2;
  }

  ghost function WriteRoot(s: State): State {
    s.(disk := s.disk[ROOT_MHT_PHY_NUM := s.root.cipher], root := s.root.(dirty := false, newNode := false))
  }

  lemma WriteRootKeeps(s: State, bound: nat)
    requires Ready(s, bound) && s.root.dirty && (forall p :: !IsDirty(s.nodes, p))
    ensures Ready(WriteRoot(s), bound)
  {
    hide Parent;
    hide SlotOf;
    hide FirstData;
    hide IsDataNode;
    hide NodeCount;
  }

  /** The metadata block does not matter to the tree. */
  lemma MetaBlockKeeps(s: State, bound: nat, block: Block)
    ensures Ready(s, bound) ==> Ready(s.(disk := s.disk[META_DATA_PHY_NUM := block]), bound)
    ensures Inv(s, bound) ==> Inv(s.(disk := s.disk[META_DATA_PHY_NUM := block]), bound)
    ensures Pending(s, bound) ==> Pending(s.(disk := s.disk[META_DATA_PHY_NUM := block]), bound)
  {
    hide LinkedTo;
    hide SealedBy;
    hide WellShaped;
    hide Parent;
    hide SlotOf;
    hide FirstData;
    hide IsDataNode;
    hide NodeCount;
  }

  /** After the write-out the disk alone holds the file, and the file is as before. */
  lemma WrittenOut(s: State, bound: nat, key: Key)
    requires Ready(s, bound) && !s.root.dirty
    requires META_DATA_PHY_NUM in s.disk && s.disk[META_DATA_PHY_NUM] == MetaBlock(false, MetaSeal(key, s.meta))
    ensures Stored(s.disk, key, s.meta, s.tree)
    ensures Inv(s.(needWriting := false), bound)
  {
    hide Parent;
    hide SlotOf;
    hide FirstData;
    hide IsDataNode;
    hide NodeCount;
  }

  /** The two images agree on the metadata block. */
  predicate SameMetaBlock(a: Disk, b: Disk) {
    && (META_DATA_PHY_NUM in a <==> META_DATA_PHY_NUM in b)
    && (META_DATA_PHY_NUM in a ==> a[META_DATA_PHY_NUM] == b[META_DATA_PHY_NUM])
  }

  predicate FlagSet(disk: Disk) {
    META_DATA_PHY_NUM in disk && disk[META_DATA_PHY_NUM].MetaBlock? && disk[META_DATA_PHY_NUM].updateFlag
  }

  /** A disk whose metadata block has been rewritten with the given update flag. */
  function Flagged(disk: Disk, flag: bool, seal: MetaSeal): Disk {
    disk[META_DATA_PHY_NUM := MetaBlock(flag, seal)]
  }

  /** The images added to the trail differ from `base` in the metadata block only. */
  ghost predicate FlagTrail(prior: seq<Disk>, trail: seq<Disk>, base: Disk, seal: MetaSeal) {
    && prior <= trail
    && (forall j :: |prior| <= j < |trail| ==>
          trail[j] == Flagged(base, true, seal) || trail[j] == Flagged(base, false, seal))
  }

  /** At most one image was added, with the update flag set. */
  ghost predicate OneFlag(prior: seq<Disk>, trail: seq<Disk>, base: Disk, blocks: Disk, seal: MetaSeal) {
    || (trail == prior && blocks == base)
    || (trail == prior + [blocks] && blocks == Flagged(base, true, seal))
  }

  /** The images added to the trail all agree with `base` on the metadata block. */
  ghost predicate Follows(before: seq<Disk>, after: seq<Disk>, base: Disk) {
    && before <= after
    && (forall j :: |before| <= j < |after| ==> SameMetaBlock(base, after[j]))
  }

  lemma FollowsSelf(trail: seq<Disk>, base: Disk)
    ensures Follows(trail, trail, base) && SameMetaBlock(base, base)
  {
  }

  lemma FollowsMore(before: seq<Disk>, mid: seq<Disk>, after: seq<Disk>, base: Disk, blocks: Disk, blocks': Disk)
    requires Follows(before, mid, base) && SameMetaBlock(base, blocks) && SameMetaBlock(blocks, blocks')
    requires after == mid || after == mid + [blocks']
    ensures Follows(before, after, base) && SameMetaBlock(base, blocks')
  {
  }

  /** Whatever the flag writes did, the region with its flag cleared is the same. */
  lemma FlaggedLast(prior: seq<Disk>, trail: seq<Disk>, base: Disk, blocks: Disk, seal: MetaSeal)
    requires FlagTrail(prior, trail, base, seal) && prior != []
    requires prior[|prior| - 1] == base && trail[|trail| - 1] == blocks
    ensures Flagged(blocks, false, seal) == Flagged(base, false, seal)
  {
  }

  // ---------------------------------------------------------------- resuming a write-out

  ghost function DirtyBlocks(nodes: Nodes): Disk {
    map p | p in nodes && nodes[p].dirty :: nodes[p].cipher
  }

  /** The data region an uninterrupted write-out of `s` ends with. */
  ghost function Target(s: State, seal: MetaSeal): Disk {
    (s.disk + DirtyBlocks(s.nodes) + (if s.root.dirty then map[ROOT_MHT_PHY_NUM := s.root.cipher] else map[]))
    [META_DATA_PHY_NUM := MetaBlock(false, seal)]
  }

  /** No step of the write-out changes where it ends. */
  lemma WriteNodeTarget(s: State, p: nat, seal: MetaSeal)
    requires p >= 2 && IsDirty(s.nodes, p)
    ensures Target(WriteNode(s, p), seal) == Target(s, seal)
  {
    var t := WriteNode(s, p);
    assert DirtyBlocks(t.nodes) == DirtyBlocks(s.nodes) - {p};
    assert t.disk + DirtyBlocks(t.nodes) == s.disk + DirtyBlocks(s.nodes);
  }

  lemma WriteRootTarget(s: State, seal: MetaSeal)
    requires s.root.dirty && Mirrors(s)
    ensures Target(WriteRoot(s), seal) == Target(s, seal)
  {
    assert forall p :: p in DirtyBlocks(s.nodes) ==> p >= 2;
    assert WriteRoot(s).disk + DirtyBlocks(s.nodes) + map[]
        == s.disk + DirtyBlocks(s.nodes) + map[ROOT_MHT_PHY_NUM := s.root.cipher];
  }

  lemma WriteMetaTarget(s: State, seal: MetaSeal)
    requires !s.root.dirty && (forall p :: !IsDirty(s.nodes, p))
    ensures s.disk[META_DATA_PHY_NUM := MetaBlock(false, seal)] == Target(s, seal)
  {
    assert forall p :: p in s.nodes ==> !IsDirty(s.nodes, p);
    assert DirtyBlocks(s.nodes) == map[];
  }

  lemma TargetMeta(s: State, seal: MetaSeal)
    ensures META_DATA_PHY_NUM in Target(s, seal) && Target(s, seal)[META_DATA_PHY_NUM] == MetaBlock(false, seal)
  {
  }

  /** Away from the metadata block, the nodes not written are as they were. */
  lemma TargetElsewhere(s: State, seal: MetaSeal, p: nat)
    requires p >= 1 && !IsDirty(s.All(), p) && p in Target(s, seal) && ROOT_MHT_PHY_NUM !in s.nodes
    ensures p in s.disk && Target(s, seal)[p] == s.disk[p]
  {
  }

  /** The write-out of `t`, the sealed form of `s`, leaves the clean nodes of `s` alone. */
  lemma FlushTarget(s: State, t: State, seal: MetaSeal, oldSeal: MetaSeal)
    requires SameFlags(s.All(), t.All()) && ROOT_MHT_PHY_NUM !in t.nodes
    requires t.disk == s.disk || t.disk == Flagged(s.disk, true, oldSeal)
    ensures META_DATA_PHY_NUM in Target(t, seal) && Target(t, seal)[META_DATA_PHY_NUM] == MetaBlock(false, seal)
    ensures forall p :: p >= 1 && !IsDirty(s.All(), p) && p in Target(t, seal) ==>
              p in s.disk && Target(t, seal)[p] == s.disk[p]
  {
    hide Target;
    TargetMeta(t, seal);
    forall p | p >= 1 && !IsDirty(s.All(), p) && p in Target(t, seal)
      ensures p in s.disk && Target(t, seal)[p] == s.disk[p]
    {
      SameFlagsDirty(s.All(), t.All(), p);
      TargetElsewhere(t, seal, p);
    }
  }
}
