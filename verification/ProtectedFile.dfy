/**
  The open protected file: cursor, metadata, root node, node cache, data region and undo journal.
 */
module ProtectedFile {
  import opened Options
  import opened Layout
  import opened Merkle
  import opened FlatFile
  import opened LinkedLists
  import opened LruCaches
  import opened FileState
  import opened FlushState
  import opened CacheOrder
  import opened UndoLog
  import opened Device
  import opened FileNodes
  import opened Sorting
  import opened Crash

  datatype FileStatus = StatusOk | FlushError | WriteToDiskFailed | CryptoError

  /** The cache holds each node under its number, and no number is the root's. */
  ghost predicate Shape(values: map<nat, FileNode>, root: FileNode) {
    && root.IsRootMht() && !root.isData && root.parent == null
    && (forall k :: k in values ==> values[k].Is(k))
  }

  /** `up` is the very object the cache, or the file, holds for the parent of node `k`. */
  ghost predicate ParentIs(values: map<nat, FileNode>, root: FileNode, k: nat, up: FileNode?) {
    && k >= 2
    && if Parent(k) == ROOT_MHT_PHY_NUM then up == root
       else Parent(k) in values && up == values[Parent(k)]
  }

  lemma MhtParentIs(values: map<nat, FileNode>, root: FileNode, logic: nat, up: FileNode)
    requires logic > 0
    requires var above := (logic - 1) / CHILD_MHT_NODES_COUNT;
             if above == 0 then up == root else MhtPhys(above) in values && up == values[MhtPhys(above)]
    ensures ParentIs(values, root, MhtPhys(logic), up)
  {
    MhtParent(logic);
  }

  /** Every cached node's parent reference is that object. */
  ghost predicate AllLinked(values: map<nat, FileNode>, root: FileNode) {
    forall k :: k in values ==> ParentIs(values, root, k, values[k].parent)
  }

  lemma PushLinked(values: map<nat, FileNode>, root: FileNode, p: nat, node: FileNode)
    requires p !in values && Shape(values, root) && AllLinked(values, root)
    requires node.Is(p) && ParentIs(values, root, p, node.parent)
    ensures Shape(values[p := node], root) && AllLinked(values[p := node], root)
  {
    hide Parent;
    hide LogicOf;
    hide IsDataNode;
    ParentBelow(p);
  }

  /** Node `a` and its non-root ancestors are cached, each linked to its parent object. */
  ghost predicate ChainLinked(values: map<nat, FileNode>, root: FileNode, a: nat)
    decreases a
  {
    a >= 2 ==>
      && a in values && ParentIs(values, root, a, values[a].parent)
      && (ParentBelow(a); ChainLinked(values, root, Parent(a)))
  }

  lemma {:induction false} AllLinkedChain(values: map<nat, FileNode>, root: FileNode, a: nat)
    requires AllLinked(values, root) && (a >= 2 ==> a in values)
    ensures ChainLinked(values, root, a)
    decreases a
  {
    if a >= 2 {
      ParentBelow(a);
      AllLinkedChain(values, root, Parent(a));
    }
  }

  lemma {:induction false} ChainLinkedCached(values: map<nat, FileNode>, root: FileNode, nodes: Nodes, a: nat)
    requires ChainLinked(values, root, a) && (forall k :: k in values ==> k in nodes)
    ensures ChainCached(nodes, a)
    decreases a
  {
    if a >= 2 {
      ParentBelow(a);
      ChainLinkedCached(values, root, nodes, Parent(a));
    }
  }

  /** Some MHT nodes up to `top` may have joined; every other entry is the same object as before. */
  ghost predicate GrowsByMht(before: map<nat, FileNode>, after: map<nat, FileNode>, top: nat) {
    && (forall k :: k in before ==> k in after && after[k] == before[k])
    && (forall k :: k in after && k !in before ==> !IsDataNode(k) && k <= top)
  }

  /** Every entry of `after` is the same object in `before`. */
  ghost predicate Restricts(after: map<nat, FileNode>, before: map<nat, FileNode>) {
    forall k :: k in after ==> k in before && after[k] == before[k]
  }

  lemma GrowsPush(before: map<nat, FileNode>, mid: map<nat, FileNode>, top: nat, p: nat, node: FileNode)
    requires GrowsByMht(before, mid, top) && top < p && !IsDataNode(p)
    ensures p !in before ==> p !in mid
    ensures p !in mid ==> GrowsByMht(before, mid[p := node], p)
    ensures GrowsByMht(before, mid, p)
  {
  }

  lemma GrowsNoData(before: map<nat, FileNode>, after: map<nat, FileNode>, top: nat, p: nat)
    requires GrowsByMht(before, after, top) && IsDataNode(p)
    ensures p in before <==> p in after
  {
  }

  lemma GrowsSame(values: map<nat, FileNode>, top: nat)
    ensures GrowsByMht(values, values, top)
  {
  }

  class FileInner {
    const host: BlockFile<Block>
    const journal: UndoJournal
    const cache: LruCache<FileNode>
    const root: FileNode
    const userKey: Key
    const maxCachePage: nat
    const writable: bool
    const append: bool
    /** The key generator never fails. */
    const keysReliable: bool

    var meta: Meta
    var metaSeal: MetaSeal
    var updateFlag: bool
    var needWriting: bool
    var endOfFile: bool
    var offset: nat
    var lastError: bool
    var status: FileStatus

    ghost var tree: Tree
    /** Every node object that has been in the cache. */
    ghost var pool: set<FileNode>
    /** Every byte written so far, in program order. */
    ghost var hist: seq<Edit>
    /** How much of the history the last completed flush covered. */
    ghost var flushedAt: Option<nat>
    /** The data region at the last journal reset, and the nodes overwritten since. */
    ghost var baseline: Disk
    ghost var over: map<nat, bool>

    // ---------------------------------------------------------------- abstraction

    ghost function Repr(): set<object>
      reads `pool, cache, cache.list
    {
      {this, host, journal, root, cache, cache.list} + cache.list.footprint + pool
    }

    ghost function Cached(): (nodes: Nodes)
      reads `pool, cache, pool
      ensures forall k :: k in nodes <==> k in cache.values && cache.values[k] in pool
      ensures forall k :: k in nodes ==> nodes[k] == cache.values[k].Val()
    {
      map k | k in cache.values && cache.values[k] in pool :: cache.values[k].Val()
    }

    /** The cached nodes and the root. */
    ghost function Every(): Nodes
      reads `pool, cache, pool, root
    {
      Cached()[ROOT_MHT_PHY_NUM := root.Val()]
    }

    ghost function Now(): State
      reads this, host, root, cache, pool
    {
      State(Cached(), root.Val(), tree, host.blocks, meta, needWriting)
    }

    /** The logical file. */
    ghost function Bytes(): seq<Byte>
      reads `meta, `tree
    {
      Contents(meta.size, meta.data, tree)
    }

    ghost predicate AllRight()
      reads cache
    {
      AllLinked(cache.values, root)
    }

    /** Neither the device nor the journal nor the key generator fails a request. */
    ghost predicate Reliable() {
      host.reliable && journal.reliable && keysReliable
    }

    /** A reliable device with a block for every node of a tree of `bound` data nodes. */
    ghost predicate Serves(bound: nat) {
      Reliable() && host.nblocks >= 2 && (forall p: nat :: Live(bound, p) ==> p < host.nblocks)
    }

    lemma ServesLess(bound: nat, less: nat)
      requires Serves(bound) && less <= bound
      ensures Serves(less)
    {
      forall p: nat | Live(less, p) ensures p < host.nblocks {
        LiveMonotone(less, bound, p);
      }
    }

    /** The heap is in order; this survives a failed fetch. */
    ghost predicate Sound()
      reads `pool, host, cache, cache.list, cache.list.footprint, pool
    {
      && cache.Valid() && host.Valid() && Shape(cache.values, root) && root !in pool
      && (forall k :: k in cache.values ==> cache.values[k] in pool)
      && (forall k :: k in cache.values && cache.values[k].needWriting ==>
            ParentIs(cache.values, root, k, cache.values[k].parent))
    }

    /** A file that has cached nothing yet. */
    lemma EmptySound()
      requires cache.Valid() && host.Valid() && cache.values == map[] && pool == {}
      requires root.IsRootMht() && !root.isData && root.parent == null
      ensures Sound()
    {
      hide LruCache.Valid;
    }

    /** `create`: an empty file over whatever the data region holds. */
    constructor (nblocks: nat, blocks: Disk, userKey: Key, maxCachePage: nat, writable: bool, append: bool,
                 service: Service)
      requires forall p :: p in blocks <==> p < nblocks
      ensures Valid() && fresh(Repr()) && View() == Flat([], 0, false) && hist == []
      ensures host.blocks == blocks && host.trail == [blocks] && flushedAt == None && journal.log == []
      ensures host.reliable == service.host && journal.appends == service.appends && keysReliable == service.keys
      ensures this.userKey == userKey && this.maxCachePage == maxCachePage
      ensures this.writable == writable && this.append == append && this.Reliable() == service.All() && host.nblocks == nblocks
    {
      hide NewPlain;
      hide LruCache.Valid;
      hide FileInner.Sound;
      hide FileInner.Valid;
      hide FileInner.Cached;
      hide FileInner.View;
      host := new BlockFile<Block>(nblocks, blocks, service.host);
      journal := new UndoJournal(service.appends, service.journal);
      cache := new LruCache<FileNode>(maxCachePage);
      root := new FileNode(false, 0, ROOT_MHT_PHY_NUM, null);
      this.userKey, this.maxCachePage, this.writable, this.append, keysReliable := userKey, maxCachePage, writable, append, service.keys;
      meta, metaSeal, updateFlag := Meta(0, 0, ZeroMac, Zeros(MD_USER_DATA_SIZE)), Unsealed, false;
      needWriting, endOfFile, offset, lastError, status := true, false, 0, false, StatusOk;
      tree, pool := map[ROOT_MHT_PHY_NUM := NewPlain(false)], {};
      hist, flushedAt, baseline, over := [], None, blocks, map[];
      new;
      EmptySound();
      CreatedValid();
    }

    // ---------------------------------------------------------------- fetching nodes

    /** An object that is not cached yet joins the cache and the pool. */
    method PushObject(p: nat, node: FileNode) returns (isNone: bool)
      requires Sound() && AllRight() && node.Is(p) && node != root && !node.needWriting
      requires ParentIs(cache.values, root, p, node.parent)
      modifies `pool, cache, cache.list, cache.list.footprint
      ensures Sound() && AllRight() && fresh(cache.list.footprint - old(cache.list.footprint))
      ensures isNone == (p !in old(cache.values)) && node.Val() == old(node.Val())
      ensures isNone ==> cache.order == [p] + old(cache.order) && cache.values == old(cache.values)[p := node] && pool == old(pool) + {node}
      ensures !isNone ==> cache.order == old(cache.order) && cache.values == old(cache.values) && pool == old(pool)
    {
      hide LruCache.Valid;
      hide FileNode.Is;
      hide ParentIs;
      if p !in cache.values {
        PushLinked(cache.values, root, p, node);
      }
      isNone := cache.Push(p, node);
      if isNone {
        pool := pool + {node};
      }
    }

    /** A push that finds no entry adds one; nothing else changes. */
    method PushNode(p: nat, node: FileNode) returns (isNone: bool)
      requires Sound() && AllRight() && node.Is(p) && node != root && !node.needWriting
      requires ParentIs(cache.values, root, p, node.parent)
      modifies `pool, cache, cache.list, cache.list.footprint
      ensures Sound() && AllRight() && fresh(cache.list.footprint - old(cache.list.footprint))
      ensures isNone == (p !in old(cache.values)) && node.Val() == old(node.Val())
      ensures isNone ==> cache.order == [p] + old(cache.order) && cache.values == old(cache.values)[p := node]
      ensures isNone ==> Cached() == old(Cached())[p := node.Val()] && pool == old(pool) + {node}
      ensures !isNone ==> cache.order == old(cache.order) && cache.values == old(cache.values)
      ensures !isNone ==> Cached() == old(Cached()) && pool == old(pool)
    {
      hide FileInner.Sound;
      hide FileInner.AllRight;
      hide FileInner.Cached;
      hide FileNode.Is;
      hide ParentIs;
      CachedKeys();
      isNone := PushObject(p, node);
      CachedKeys();
    }

    lemma ParentPlain(up: FileNode, p: nat, bound: nat)
      requires Sound() && Inv(Now(), bound) && ParentIs(cache.values, root, p, up)
      ensures Parent(p) in tree && up.plain == tree[Parent(p)]
    {
      hide LruCache.Valid;
      assert Parent(p) != ROOT_MHT_PHY_NUM ==> Cached()[Parent(p)] == up.Val();
    }

    /** Reads node `p` from disk and decrypts it with its parent's slot. */
    method ReadNode(isData: bool, logic: nat, p: nat, up: FileNode, ghost bound: nat) returns (r: Option<FileNode>)
      requires Sound() && Inv(Now(), bound) && Live(NodeCount(meta.size), p)
      requires isData == IsDataNode(p) && logic == LogicOf(p) && ParentIs(cache.values, root, p, up)
      ensures r.Some? ==> fresh(r.value) && r.value.Is(p) && r.value.parent == up && r.value.newNode && !r.value.needWriting
      ensures r.Some? && p !in cache.values ==> Now().nodes[p := r.value.Val()] == Fetched(Now(), p).nodes
      ensures host.reliable && p !in cache.values ==> r.Some?
    {
      hide LruCache.Valid;
      hide Inv;
      hide Parent;
      hide LogicOf;
      hide IsDataNode;
      hide SlotOf;
      hide GetGcm;
      hide Decrypt;
      hide FileInner.Cached;
      hide FileInner.Sound;
      ParentPlain(up, p, bound);
      if p !in cache.values {
        FetchDecrypts(Now(), bound, p);
      }
      var node := new FileNode(isData, logic, p, up);
      node.GcmIndexIsSlot(p);
      var block := host.Read(p);
      if block.None? {
        return None;
      }
      node.cipher := block.value;
      var gcm := GetGcm(up.plain, node.GcmIndex());
      if gcm.None? {
        return None;
      }
      var plain := Decrypt(node.cipher, gcm.value.key, gcm.value.mac);
      if plain.None? {
        return None;
      }
      node.plain := plain.value;
      return Some(node);
    }

    /** A node that was read and decrypted joins the cache. */
    method PushLoaded(p: nat, node: FileNode, ghost bound: nat) returns (isNone: bool)
      requires Sound() && AllRight() && Inv(Now(), bound) && Live(NodeCount(meta.size), p)
      requires node.Is(p) && node != root && node.newNode && !node.needWriting && ParentIs(cache.values, root, p, node.parent)
      requires p !in cache.values ==> Now().nodes[p := node.Val()] == Fetched(Now(), p).nodes
      modifies `pool, cache, cache.list, cache.list.footprint
      ensures Sound() && AllRight() && Inv(Now(), bound) && fresh(cache.list.footprint - old(cache.list.footprint))
      ensures isNone == (p !in old(cache.values)) && node.newNode && !node.needWriting
      ensures pool == if isNone then old(pool) + {node} else old(pool)
      ensures isNone ==> cache.order == [p] + old(cache.order) && cache.values == old(cache.values)[p := node]
      ensures !isNone ==> cache.order == old(cache.order) && cache.values == old(cache.values)
    {
      hide FileNode.Is;
      hide Inv;
      hide Live;
      hide FileInner.Cached;
      hide FileInner.Sound;
      hide FileInner.AllRight;
      hide ParentIs;
      ghost var before := Now();
      if p !in cache.values {
        FetchDecrypts(before, bound, p);
      }
      isNone := PushNode(p, node);
      assert Now() == if isNone then Fetched(before, p) else before;
    }

    /** Node `p` is read from disk and cached. */
    method LoadNode(isData: bool, logic: nat, p: nat, up: FileNode, ghost bound: nat) returns (r: Option<FileNode>)
      requires Sound() && AllRight() && Inv(Now(), bound) && Live(NodeCount(meta.size), p)
      requires isData == IsDataNode(p) && logic == LogicOf(p) && ParentIs(cache.values, root, p, up)
      modifies `pool, cache, cache.list, cache.list.footprint
      ensures Sound() && AllRight() && Inv(Now(), bound)
      ensures fresh(cache.list.footprint - old(cache.list.footprint)) && fresh(pool - old(pool))
      ensures r.Some? ==> p !in old(cache.values) && cache.values == old(cache.values)[p := r.value]
      ensures r.Some? ==> cache.order == [p] + old(cache.order)
      ensures r.Some? ==> r.value.newNode && !r.value.needWriting
      ensures r.None? ==> cache.values == old(cache.values) && cache.order == old(cache.order)
      ensures host.reliable && p !in old(cache.values) ==> r.Some?
    {
      hide FileInner.Now;
      hide Inv;
      hide Live;
      hide FileInner.Cached;
      hide FileInner.Sound;
      hide FileInner.AllRight;
      hide FileNode.Is;
      hide ParentIs;
      hide NodeCount;
      r := ReadNode(isData, logic, p, up, bound);
      if r.None? {
        return;
      }
      var isNone := PushLoaded(p, r.value, bound);
      if !isNone {
        return None;
      }
    }


    /** What the fetch of an MHT node's parent gives. */
    ghost predicate HasAbove(logic: nat, up: FileNode)
      requires logic > 0
      reads cache
    {
      var above := (logic - 1) / CHILD_MHT_NODES_COUNT;
      && (if above == 0 then up == root else MhtPhys(above) in cache.values && up == cache.values[MhtPhys(above)])
      && Near(cache.order, MhtPhys(above))
    }

    /** An MHT node is loaded under its parent, which is in place. */
    method LoadMhtNode(logic: nat, up: FileNode, ghost bound: nat) returns (r: Option<FileNode>)
      requires Sound() && AllRight() && Inv(Now(), bound) && logic > 0 && HasAbove(logic, up)
      requires Live(NodeCount(meta.size), MhtPhys(logic))
      modifies `pool, cache, cache.list, cache.list.footprint
      ensures Sound() && AllRight() && Inv(Now(), bound)
      ensures fresh(cache.list.footprint - old(cache.list.footprint)) && fresh(pool - old(pool))
      ensures r.Some? ==> MhtPhys(logic) !in old(cache.values) && cache.values == old(cache.values)[MhtPhys(logic) := r.value]
      ensures r.Some? ==> Near(cache.order, MhtPhys(logic)) && cache.order == [MhtPhys(logic)] + old(cache.order)
      ensures r.None? ==> cache.values == old(cache.values) && cache.order == old(cache.order)
      ensures host.reliable && MhtPhys(logic) !in old(cache.values) ==> r.Some?
    {
      hide FileInner.Sound;
      hide Inv;
      hide FileInner.Cached;
      hide Live;
      hide FileInner.AllRight;
      hide Near;
      hide Parent;
      hide IsDataNode;
      hide NodeCount;
      hide MhtPhys;
      hide ParentIs;
      MhtParent(logic);
      MhtParentIs(cache.values, root, logic, up);
      PushNear(cache.order, MhtPhys(logic));
      r := LoadNode(false, logic, MhtPhys(logic), up, bound);
    }

    lemma RootFirst()
      ensures MhtPhys(0) == ROOT_MHT_PHY_NUM
    {
    }

    /** The MHT node with logical number `logic`, from the cache or, parents first, from disk. */
    method ReadMhtNode(logic: nat, ghost bound: nat) returns (r: Option<FileNode>)
      requires Sound() && AllRight() && Inv(Now(), bound) && Ordered(cache.order)
      requires logic == 0 || Live(NodeCount(meta.size), MhtPhys(logic))
      modifies `pool, cache, cache.list, cache.list.footprint
      ensures Sound() && AllRight() && Inv(Now(), bound)
      ensures fresh(cache.list.footprint - old(cache.list.footprint)) && fresh(pool - old(pool))
      ensures r.Some? && logic == 0 ==> r.value == root
      ensures r.Some? && logic > 0 ==> MhtPhys(logic) in cache.values && r.value == cache.values[MhtPhys(logic)]
      ensures r.Some? ==> Near(cache.order, MhtPhys(logic))
      ensures Stacks(old(cache.order), cache.order) && (r.Some? ==> OnTop(old(cache.order), cache.order, MhtPhys(logic)))
      ensures GrowsByMht(old(cache.values), cache.values, MhtPhys(logic))
      ensures host.reliable ==> r.Some?
      decreases logic
    {
      hide Stacks;
      hide OnTop;
      hide FileInner.Now;
      hide FileInner.Sound;
      hide Inv;
      hide FileInner.Cached;
      hide Live;
      hide FileInner.AllRight;
      hide FileNode.Is;
      hide Near;
      hide Ordered;
      hide GrowsByMht;
      hide Parent;
      hide IsDataNode;
      hide NodeCount;
      hide MhtPhys;
      hide ParentIs;
      OrderedNear(cache.order, MhtPhys(logic));
      GrowsSame(cache.values, MhtPhys(logic));
      StackSelf(cache.order, MhtPhys(logic));
      RootFirst();
      if logic == 0 {
        return Some(root);
      }
      var p := MhtPhys(logic);
      r := FindNode(p);
      if r.Some? {
        OrderListed();
        return;
      }
      MhtParent(logic);
      ParentBelow(p);
      ParentLive(NodeCount(meta.size), p);
      r := ReadMhtNode((logic - 1) / CHILD_MHT_NODES_COUNT, bound);
      ghost var mid, top, order := cache.values, MhtPhys((logic - 1) / CHILD_MHT_NODES_COUNT), cache.order;
      GrowsPush(old(cache.values), mid, top, p, root);
      if r.None? {
        return;
      }
      r := LoadMhtNode(logic, r.value, bound);
      if r.Some? {
        GrowsPush(old(cache.values), mid, top, p, r.value);
        StackPush(old(cache.order), order, p);
      }
    }

    ghost method SetTree(t: Tree)
      modifies `tree
      ensures tree == t && Now() == old(Now()).(tree := t)
      ensures Sound() == old(Sound())
    {
      hide FileInner.Sound;
      hide FileInner.Cached;
      tree := t;
    }

    /** A new, empty node object joins the cache. */
    method PushNew(isData: bool, logic: nat, p: nat, up: FileNode) returns (r: Option<FileNode>)
      requires Sound() && AllRight() && p >= 2
      requires isData == IsDataNode(p) && logic == LogicOf(p) && ParentIs(cache.values, root, p, up)
      modifies `pool, cache, cache.list, cache.list.footprint
      ensures Sound() && AllRight()
      ensures fresh(cache.list.footprint - old(cache.list.footprint)) && fresh(pool - old(pool))
      ensures r.Some? ==> p !in old(cache.values) && cache.values == old(cache.values)[p := r.value]
      ensures r.Some? ==> cache.order == [p] + old(cache.order)
      ensures r.Some? ==> Cached() == old(Cached())[p := NodeVal(false, true, ZERO_BLOCK, NewPlain(isData))]
      ensures r.Some? ==> r.value.newNode && !r.value.needWriting
      ensures r.None? ==> cache.values == old(cache.values) && cache.order == old(cache.order) && Cached() == old(Cached())
      ensures p !in old(cache.values) ==> r.Some?
    {
      hide LruCache.Valid;
      hide FileInner.Cached;
      hide FileInner.Sound;
      hide FileInner.AllRight;
      hide ParentIs;
      hide NewPlain;
      hide LogicOf;
      hide IsDataNode;
      var node := new FileNode(isData, logic, p, up);
      var isNone := PushNode(p, node);
      r := if isNone then Some(node) else None;
    }

    /** The plaintext of a fresh node joins the tree. */
    ghost method JoinTree(before: State, isData: bool, p: nat)
      requires Inv(before, NodeCount(meta.size) + 1) && before.meta == meta && isData == IsDataNode(p)
      requires p >= 2 && Live(NodeCount(meta.size) + 1, p) && !Live(NodeCount(meta.size), p)
      requires Now() == before.(nodes := before.nodes[p := NodeVal(false, true, ZERO_BLOCK, NewPlain(isData))])
      modifies `tree
      ensures Sound() == old(Sound()) && AllRight() == old(AllRight())
      ensures Inv(Now(), NodeCount(meta.size) + 1) && Bytes() == old(Bytes())
      ensures SameLive(old(tree), tree, NodeCount(meta.size))
    {
      hide SameLive;
      hide Inv;
      hide Live;
      hide FileInner.Cached;
      hide FileInner.Sound;
      hide FileInner.AllRight;
      hide NewPlain;
      hide Contents;
      hide IsDataNode;
      hide NodeCount;
      AppendKeeps(before, p);
      AppendBytes(before, p);
      SameLiveAppend(tree, before.Count(), p, NewPlain(isData));
      SetTree(tree[p := NewPlain(isData)]);
      assert Now() == Appended(before, p);
    }

    /** A fresh node `p`, just past the tree, joins the cache and the tree. */
    method AppendNode(isData: bool, logic: nat, p: nat, up: FileNode) returns (r: Option<FileNode>)
      requires Sound() && AllRight() && Inv(Now(), NodeCount(meta.size) + 1)
      requires p >= 2 && Live(NodeCount(meta.size) + 1, p) && !Live(NodeCount(meta.size), p)
      requires isData == IsDataNode(p) && logic == LogicOf(p) && ParentIs(cache.values, root, p, up)
      modifies `pool, `tree, cache, cache.list, cache.list.footprint
      ensures Sound() && AllRight() && Inv(Now(), NodeCount(meta.size) + 1) && Bytes() == old(Bytes())
      ensures SameLive(old(tree), tree, NodeCount(meta.size))
      ensures fresh(cache.list.footprint - old(cache.list.footprint)) && fresh(pool - old(pool))
      ensures r.Some? ==> p !in old(cache.values) && cache.values == old(cache.values)[p := r.value]
      ensures r.Some? ==> cache.order == [p] + old(cache.order)
      ensures r.Some? ==> r.value.newNode && !r.value.needWriting
      ensures r.None? ==> cache.values == old(cache.values) && cache.order == old(cache.order)
      ensures p !in old(cache.values) ==> r.Some?
    {
      hide SameLive;
      hide LruCache.Valid;
      hide Inv;
      hide Live;
      hide FileInner.Cached;
      hide FileInner.Sound;
      hide FileInner.AllRight;
      hide ParentIs;
      hide NewPlain;
      hide Contents;
      hide Parent;
      hide IsDataNode;
      hide NodeCount;
      SameLiveSelf(tree, NodeCount(meta.size));
      ghost var before := Now();
      r := PushNew(isData, logic, p, up);
      if r.Some? {
        JoinTree(before, isData, p);
      } else {
        assert Now() == before;
      }
    }

    /** A fresh MHT node joins under its parent, which is in place. */
    method AppendMhtUnder(logic: nat, up: FileNode) returns (r: Option<FileNode>)
      requires Sound() && AllRight() && Inv(Now(), NodeCount(meta.size) + 1) && logic > 0 && HasAbove(logic, up)
      requires Live(NodeCount(meta.size) + 1, MhtPhys(logic)) && !Live(NodeCount(meta.size), MhtPhys(logic))
      modifies `pool, `tree, cache, cache.list, cache.list.footprint
      ensures Sound() && AllRight() && Inv(Now(), NodeCount(meta.size) + 1) && Bytes() == old(Bytes())
      ensures SameLive(old(tree), tree, NodeCount(meta.size))
      ensures fresh(cache.list.footprint - old(cache.list.footprint)) && fresh(pool - old(pool))
      ensures r.Some? ==> MhtPhys(logic) !in old(cache.values) && cache.values == old(cache.values)[MhtPhys(logic) := r.value]
      ensures r.Some? ==> Near(cache.order, MhtPhys(logic)) && cache.order == [MhtPhys(logic)] + old(cache.order)
      ensures r.None? ==> cache.values == old(cache.values) && cache.order == old(cache.order)
      ensures MhtPhys(logic) !in old(cache.values) ==> r.Some?
    {
      hide SameLive;
      hide Inv;
      hide FileInner.Cached;
      hide FileInner.Sound;
      hide FileInner.AllRight;
      hide Near;
      hide Live;
      hide Contents;
      hide Parent;
      hide NodeCount;
      hide MhtPhys;
      hide ParentIs;
      hide IsDataNode;
      MhtParent(logic);
      MhtParentIs(cache.values, root, logic, up);
      PushNear(cache.order, MhtPhys(logic));
      r := AppendNode(false, logic, MhtPhys(logic), up);
    }

    /** A fresh MHT node, under a parent from the cache or from disk. */
    method AppendMhtNode(logic: nat) returns (r: Option<FileNode>)
      requires Sound() && AllRight() && Inv(Now(), NodeCount(meta.size) + 1) && Ordered(cache.order)
      requires logic > 0 && Live(NodeCount(meta.size) + 1, MhtPhys(logic)) && !Live(NodeCount(meta.size), MhtPhys(logic))
      modifies `pool, `tree, cache, cache.list, cache.list.footprint
      ensures Sound() && AllRight() && Inv(Now(), NodeCount(meta.size) + 1) && Bytes() == old(Bytes())
      ensures SameLive(old(tree), tree, NodeCount(meta.size))
      ensures fresh(cache.list.footprint - old(cache.list.footprint)) && fresh(pool - old(pool))
      ensures r.Some? ==> MhtPhys(logic) in cache.values && r.value == cache.values[MhtPhys(logic)]
      ensures r.Some? ==> Near(cache.order, MhtPhys(logic))
      ensures Stacks(old(cache.order), cache.order) && (r.Some? ==> OnTop(old(cache.order), cache.order, MhtPhys(logic)))
      ensures GrowsByMht(old(cache.values), cache.values, MhtPhys(logic))
      ensures host.reliable && MhtPhys(logic) !in old(cache.values) ==> r.Some?
    {
      hide Stacks;
      hide OnTop;
      hide FileInner.Now;
      hide SameLive;
      hide LruCache.Valid;
      hide Inv;
      hide FileInner.Cached;
      hide FileInner.Sound;
      hide FileInner.AllRight;
      hide Near;
      hide Ordered;
      hide GrowsByMht;
      hide Live;
      hide Contents;
      hide Parent;
      hide NodeCount;
      hide MhtPhys;
      hide ParentIs;
      hide IsDataNode;
      SameLiveSelf(tree, NodeCount(meta.size));
      var p := MhtPhys(logic);
      MhtParent(logic);
      ParentBelow(p);
      AppendParentLive(NodeCount(meta.size), p);
      ghost var n := NodeCount(meta.size);
      r := ReadMhtNode((logic - 1) / CHILD_MHT_NODES_COUNT, n + 1);
      ghost var mid, top, order := cache.values, MhtPhys((logic - 1) / CHILD_MHT_NODES_COUNT), cache.order;
      GrowsPush(old(cache.values), mid, top, p, root);
      if r.None? {
        return;
      }
      r := AppendMhtUnder(logic, r.value);
      if r.Some? {
        GrowsPush(old(cache.values), mid, top, p, r.value);
        StackPush(old(cache.order), order, p);
      }
    }

    /** The cursor is where a new data node has to be made. */
    predicate AtNewNode()
      requires offset >= MD_USER_DATA_SIZE
      reads this
    {
      (offset - MD_USER_DATA_SIZE) % NODE_SIZE == 0 && offset == meta.size
    }

    /** What a fetch at the cursor starts from. */
    ghost predicate FetchPre(bound: nat)
      reads this, host, root, cache, cache.list, cache.list.footprint, pool
    {
      && Sound() && AllRight() && Inv(Now(), bound) && Ordered(cache.order)
      && MD_USER_DATA_SIZE <= offset <= meta.size
      && bound == NodeCount(meta.size) + if AtNewNode() then 1 else 0
    }

    lemma NotCached(n: nat, p: nat)
      requires Sound() && !Live(n, p)
      ensures CachedWithin(Now(), n) ==> p !in cache.values
    {
      hide LruCache.Valid;
      hide Live;
      hide ParentIs;
      hide FileNode.Is;
    }

    /** The MHT node above the cursor's data node. */
    method GetMhtNode(ghost bound: nat) returns (r: Option<FileNode>)
      requires FetchPre(bound)
      modifies `pool, `tree, cache, cache.list, cache.list.footprint
      ensures Sound() && AllRight() && Inv(Now(), bound) && Bytes() == old(Bytes())
      ensures SameLive(old(tree), tree, NodeCount(meta.size))
      ensures fresh(cache.list.footprint - old(cache.list.footprint)) && fresh(pool - old(pool))
      ensures r.Some? ==> ParentIs(cache.values, root, GetNodeNumbers(offset).dataPhys, r.value)
      ensures r.Some? ==> Near(cache.order, GetNodeNumbers(offset).mhtPhys)
      ensures Stacks(old(cache.order), cache.order) && (r.Some? ==> OnTop(old(cache.order), cache.order, GetNodeNumbers(offset).mhtPhys))
      ensures GrowsByMht(old(cache.values), cache.values, GetNodeNumbers(offset).mhtPhys)
      ensures host.reliable && old(CachedWithin(Now(), NodeCount(meta.size))) ==> r.Some?
    {
      hide Stacks;
      hide OnTop;
      hide SameLive;
      hide LruCache.Valid;
      hide Inv;
      hide FileInner.Cached;
      hide FileInner.Sound;
      hide FileInner.AllRight;
      hide Near;
      hide Ordered;
      hide Live;
      hide Contents;
      hide GrowsByMht;
      hide NodeCount;
      hide CachedWithin;
      SameLiveSelf(tree, NodeCount(meta.size));
      var nn := GetNodeNumbers(offset);
      NumberingInverts(offset);
      var logic := nn.mhtLogic;
      StackSelf(cache.order, nn.mhtPhys);
      if logic == 0 {
        OrderedNear(cache.order, nn.mhtPhys);
        GrowsSame(cache.values, nn.mhtPhys);
        return Some(root);
      }
      FetchMht(offset, meta.size);
      if (offset - MD_USER_DATA_SIZE) % (ATTACHED_DATA_NODES_COUNT * NODE_SIZE) == 0 && offset == meta.size {
        GroupAligned(offset);
        NotCached(NodeCount(meta.size), nn.mhtPhys);
        r := AppendMhtNode(logic);
      } else {
        r := ReadMhtNode(logic, bound);
      }
    }

    /** The cursor's data node, from the cache or from disk. */
    method ReadDataNode(ghost bound: nat) returns (r: Option<FileNode>)
      requires FetchPre(bound) && !AtNewNode()
      modifies `pool, `tree, cache, cache.list, cache.list.footprint
      ensures Sound() && AllRight() && Inv(Now(), bound) && Bytes() == old(Bytes())
      ensures SameLive(old(tree), tree, NodeCount(meta.size))
      ensures fresh(cache.list.footprint - old(cache.list.footprint)) && fresh(pool - old(pool))
      ensures var p := GetNodeNumbers(offset).dataPhys;
              r.Some? ==>
                && p in cache.values && r.value == cache.values[p] && Near(cache.order, Parent(p))
                && if p in old(cache.values) then cache.order == old(cache.order) else |cache.order| > 0 && cache.order[0] == p
      ensures r.Some? && GetNodeNumbers(offset).dataPhys !in old(cache.values) ==> r.value.newNode && !r.value.needWriting
      ensures r.None? ==> Stacks(old(cache.order), cache.order)
      ensures host.reliable && old(CachedWithin(Now(), NodeCount(meta.size))) ==> r.Some?
    {
      hide FileInner.Now;
      hide FileNode.Is;
      hide Stacks;
      hide OnTop;
      hide SameLive;
      hide FileInner.Sound;
      hide Inv;
      hide FileInner.Cached;
      hide FileInner.AllRight;
      hide Near;
      hide Ordered;
      hide Live;
      hide Contents;
      hide GrowsByMht;
      hide NodeCount;
      hide ParentIs;
      hide Shape;
      hide CachedWithin;
      hide Parent;
      hide IsDataNode;
      SameLiveSelf(tree, NodeCount(meta.size));
      var nn := GetNodeNumbers(offset);
      NumberingInverts(offset);
      FetchData(offset, meta.size);
      r := FindNode(nn.dataPhys);
      if r.Some? {
        OrderedNear(cache.order, Parent(nn.dataPhys));
        return;
      }
      r := GetMhtNode(bound);
      GrowsNoData(old(cache.values), cache.values, nn.mhtPhys, nn.dataPhys);
      if r.None? {
        return;
      }
      PushNear(cache.order, nn.dataPhys);
      r := LoadNode(true, nn.dataLogic, nn.dataPhys, r.value, bound);
    }

    /** A fresh data node at the end of the file. */
    method AppendDataNode(ghost bound: nat) returns (r: Option<FileNode>)
      requires FetchPre(bound) && AtNewNode()
      modifies `pool, `tree, cache, cache.list, cache.list.footprint
      ensures Sound() && AllRight() && Inv(Now(), bound) && Bytes() == old(Bytes())
      ensures SameLive(old(tree), tree, NodeCount(meta.size))
      ensures fresh(cache.list.footprint - old(cache.list.footprint)) && fresh(pool - old(pool))
      ensures var p := GetNodeNumbers(offset).dataPhys;
              r.Some? ==>
                && p in cache.values && r.value == cache.values[p] && Near(cache.order, Parent(p))
                && p !in old(cache.values) && |cache.order| > 0 && cache.order[0] == p
      ensures r.Some? ==> r.value.newNode && !r.value.needWriting
      ensures r.None? ==> Stacks(old(cache.order), cache.order)
      ensures host.reliable && old(CachedWithin(Now(), NodeCount(meta.size))) ==> r.Some?
    {
      hide Stacks;
      hide OnTop;
      hide SameLive;
      hide LruCache.Valid;
      hide Inv;
      hide FileInner.Cached;
      hide FileInner.Sound;
      hide FileInner.AllRight;
      hide Near;
      hide Ordered;
      hide Live;
      hide Contents;
      hide NodeCount;
      hide ParentIs;
      hide GrowsByMht;
      hide CachedWithin;
      hide Parent;
      hide IsDataNode;
      SameLiveSelf(tree, NodeCount(meta.size));
      var nn := GetNodeNumbers(offset);
      NumberingInverts(offset);
      FetchData(offset, meta.size);
      NotCached(NodeCount(meta.size), nn.dataPhys);
      r := GetMhtNode(bound);
      GrowsNoData(old(cache.values), cache.values, nn.mhtPhys, nn.dataPhys);
      if r.None? {
        return;
      }
      PushNear(cache.order, nn.dataPhys);
      ghost var mid := tree;
      r := AppendNode(true, nn.dataLogic, nn.dataPhys, r.value);
      SameLiveTrans(old(tree), mid, tree, NodeCount(meta.size));
    }

    /** Moves a cached node to the head of the cache. */
    method MoveUp(k: nat)
      requires Sound() && k in cache.values
      modifies cache, cache.list, cache.list.footprint
      ensures Sound() && cache.values == old(cache.values) && Cached() == old(Cached())
      ensures cache.list.footprint == old(cache.list.footprint)
      ensures cache.order == [k] + Remove(old(cache.order), k)
    {
      hide LruCache.Valid;
      hide ParentIs;
      hide Shape;
      hide Remove;
      cache.MoveToHead(k);
    }

    /** Bumps all the parents so that they reside before the node in the cache. */
    method BumpMhtNode(node: FileNode, ghost p: nat)
      requires Sound() && AllRight() && p in cache.values && node == cache.values[p] && p >= 2
      requires Near(cache.order, Parent(p))
      modifies cache, cache.list, cache.list.footprint
      ensures Sound() && AllRight() && cache.values == old(cache.values) && Cached() == old(Cached())
      ensures cache.list.footprint == old(cache.list.footprint)
      ensures Ordered(cache.order) && cache.order == Bumped(old(cache.order), Parent(p))
    {
      hide LruCache.Valid;
      hide FileInner.Cached;
      hide Near;
      hide Ordered;
      hide Remove;
      var parent := node.parent;
      ghost var a := Parent(p);
      ParentBelow(p);
      while parent != null && !parent.IsRootMht()
        invariant Sound() && AllRight() && cache.values == old(cache.values) && Cached() == old(Cached())
        invariant cache.list.footprint == old(cache.list.footprint)
        invariant a >= 1 && parent == (if a == ROOT_MHT_PHY_NUM then root else if a in cache.values then cache.values[a] else null)
        invariant a != ROOT_MHT_PHY_NUM ==> a in cache.values
        invariant Near(cache.order, a) && Bumped(cache.order, a) == Bumped(old(cache.order), Parent(p))
        decreases a
      {
        cache.KeysListed();
        ghost var k :| 0 <= k < |cache.order| && cache.order[k] == a;
        BumpNear(cache.order, k);
        ParentBelow(a);
        MoveUp(parent.physical);
        parent := parent.parent;
        a := Parent(a);
      }
      NearRoot(cache.order);
    }

    // ---------------------------------------------------------------- flush: sealing

    /** A dirty cached node is encrypted; the parent object it refers to takes key and MAC. */
    method EncryptObject(k: nat, key: Key) returns (ok: bool)
      requires Sound() && k in cache.values && cache.values[k].needWriting
      modifies pool`cipher, pool`plain, root`plain
      ensures ok && Sound() && k >= 2 && Parent(k) != k && (Parent(k) == ROOT_MHT_PHY_NUM || Parent(k) in cache.values)
      ensures var node, up := cache.values[k], if Parent(k) == ROOT_MHT_PHY_NUM then root else cache.values[Parent(k)];
              && node.Val() == old(node.Val()).(cipher := Sealed(key, old(node.plain)))
              && up.Val() == old(up.Val()).(plain := SetGcm(old(up.plain), SlotOf(k), Gcm(key, Tag(key, old(node.plain)))))
      ensures ROOT_MHT_PHY_NUM !in cache.values && (Parent(k) != ROOT_MHT_PHY_NUM ==> root.Val() == old(root.Val()))
      ensures forall j :: j in cache.values && j != k && j != Parent(k) ==> cache.values[j].Val() == old(cache.values[j].Val())
    {
      hide LruCache.Valid;
      hide SetGcm;
      hide Parent;
      hide SlotOf;
      hide LogicOf;
      hide IsDataNode;
      ParentBelow(k);
      var found := cache.Find(k);
      var node := found.value;
      node.GcmIndexIsSlot(k);
      var mac := node.Encrypt(key);
      ok := mac.Some?;
    }

    method EncryptCached(k: nat, key: Key) returns (ok: bool)
      requires Sound() && k in cache.values && cache.values[k].needWriting
      modifies pool`cipher, pool`plain, root`plain
      ensures ok && Sound()
      ensures Cached() == SealNode(old(Now()), k, key).nodes && root.Val() == SealNode(old(Now()), k, key).root
    {
      hide SetGcm;
      hide Parent;
      hide SlotOf;
      hide FileInner.Sound;
      hide FileInner.Cached;
      CachedKeys();
      ghost var before := Now();
      ok := EncryptObject(k, key);
      CachedKeys();
      ghost var after := SealNode(before, k, key).nodes;
      assert Cached() == after;
    }

    lemma RootNotCached()
      requires Sound()
      ensures forall k :: k in Cached() ==> k >= 2
    {
      hide LruCache.Valid;
      hide LogicOf;
      hide IsDataNode;
      hide ParentIs;
    }

    lemma CachedKeys()
      requires Sound()
      ensures forall k :: k in cache.values <==> k in Cached()
    {
      hide LruCache.Valid;
    }

    /** Sets one cached node's dirty flag. */
    method MarkOne(node: FileNode, ghost k: nat)
      requires Sound() && k in cache.values && node == cache.values[k] && ParentIs(cache.values, root, k, node.parent)
      modifies pool`needWriting
      ensures Sound() && Cached() == old(Cached())[k := old(Cached())[k].(dirty := true)]
    {
      hide LruCache.Valid;
      hide ParentIs;
      hide LogicOf;
      hide IsDataNode;
      node.needWriting := true;
    }

    /** Walks the parent references up to the root and marks every node on the way dirty. */
    method MarkParents(node: FileNode, ghost p: nat)
      requires Sound() && p >= 2 && p in cache.values && node == cache.values[p] && ChainLinked(cache.values, root, p)
      modifies pool`needWriting
      ensures Sound() && ChainCached(old(Cached()), Parent(p)) && Cached() == MarkChain(old(Cached()), Parent(p))
    {
      hide LruCache.Valid;
      hide FileInner.Cached;
      var parent := node.parent;
      ghost var a := Parent(p);
      ParentBelow(p);
      CachedKeys();
      ChainLinkedCached(cache.values, root, Cached(), a);
      while parent != null && !parent.IsRootMht()
        invariant Sound() && a >= 1 && ChainLinked(cache.values, root, a)
        invariant a == ROOT_MHT_PHY_NUM ==> parent == root
        invariant a >= 2 ==> parent == cache.values[a]
        invariant ChainCached(Cached(), a) && MarkChain(Cached(), a) == MarkChain(old(Cached()), Parent(p))
        decreases a
      {
        ParentBelow(a);
        ChainCachedUpdate(Cached(), Parent(a), a, Cached()[a].(dirty := true));
        MarkOne(parent, a);
        parent := parent.parent;
        a := Parent(a);
      }
    }

    /** A key from the generator, which may fail. */
    method DeriveKey() returns (r: Option<Key>)
      ensures keysReliable ==> r.Some?
    {
      var key: Key := *;
      var fault: bool := *;
      r := if fault && !keysReliable then None else Some(key);
    }

    lemma {:induction false} DirtyChainLinked(a: nat)
      requires Sound() && DirtyUp(Now()) && (a >= 2 ==> IsDirty(Cached(), a))
      ensures ChainLinked(cache.values, root, a)
      decreases a
    {
      hide LruCache.Valid;
      if a >= 2 {
        ParentBelow(a);
        DirtyChainLinked(Parent(a));
      }
    }

    /** One dirty node is sealed under a fresh key. */
    method SealOne(k: nat, ghost bound: nat, ghost done: set<nat>) returns (ok: bool)
      requires Sound() && Sealing(Now(), bound, done)
      requires IsDirty(Cached(), k) && k !in done && k >= 2 && Parent(k) !in done
      modifies `tree, pool`cipher, pool`plain, root`plain
      ensures Sound() && SameFlags(old(Cached()), Cached())
      ensures Sealing(Now(), bound, if ok then done + {k} else {}) && Bytes() == old(Bytes())
      ensures root.needWriting == old(root.needWriting) && root.newNode == old(root.newNode)
      ensures keysReliable ==> ok
    {
      hide FileInner.Sound;
      hide Sealing;
      hide Contents;
      hide FileInner.Cached;
      hide Parent;
      hide SealNode;
      var key := DeriveKey();
      if key.None? {
        SealingForgets(Now(), bound, done);
        return false;
      }
      ghost var before := Now();
      SealNodeFlags(before, bound, done, k, key.value);
      SealNodeKeeps(before, bound, done, k, key.value);
      SealNodeBytes(before, bound, done, k, key.value);
      ok := EncryptCached(k, key.value);
      SetTree(SealNode(before, k, key.value).tree);
      SealNodeRest(before, bound, done, k, key.value);
      assert Now() == SealNode(before, k, key.value);
    }

    /** Setting the flags of a sealed node's ancestors again changes nothing. */
    method RemarkParents(node: FileNode, ghost k: nat, ghost bound: nat, ghost done: set<nat>)
      requires Sound() && Sealing(Now(), bound, done) && IsDirty(Cached(), k) && node == cache.values[k]
      modifies pool`needWriting
      ensures Sound() && Now() == old(Now())
    {
      hide LruCache.Valid;
      hide FileInner.Cached;
      hide MarkChain;
      ParentBelow(k);
      DirtyChainLinked(k);
      MarkDirtyChain(Now(), Parent(k));
      MarkParents(node, k);
    }

    /** Seals a cached node if it is a dirty node of the wanted kind. */
    method SealDirty(k: nat, wantData: bool, ghost bound: nat, ghost done: set<nat>, ghost was: Nodes)
      returns (ok: bool, ghost next: set<nat>)
      requires Sound() && Sealing(Now(), bound, done) && SameFlags(was, Cached())
      requires k in cache.values && k !in done && k >= 2 && Parent(k) !in done
      modifies `tree, pool, root`plain
      ensures Sound() && SameFlags(was, Cached())
      ensures root.needWriting == old(root.needWriting) && root.newNode == old(root.newNode)
      ensures next == if IsDataNode(k) == wantData && IsDirty(was, k) then done + {k} else done
      ensures Sealing(Now(), bound, if ok then next else {}) && Bytes() == old(Bytes())
      ensures keysReliable ==> ok
    {
      hide LruCache.Valid;
      hide Sealing;
      hide Contents;
      hide FileInner.Cached;
      hide Parent;
      hide SameFlags;
      hide IsDataNode;
      hide LogicOf;
      ok, next := true, done;
      var found := cache.Find(k);
      var node := found.value;
      CachedKeys();
      SameFlagsDirty(was, Cached(), k);
      if node.isData == wantData && node.needWriting {
        next := done + {k};
        ghost var mid := Cached();
        ok := SealOne(k, bound, done);
        SameFlagsTrans(was, mid, Cached());
        SameFlagsDirty(was, Cached(), k);
        if ok && wantData {
          RemarkParents(node, k, bound, next);
        }
      }
    }

    /** The cached numbers in cache order. */
    method Keys() returns (keys: seq<nat>)
      requires Sound()
      ensures keys == cache.order && Distinct(keys)
      ensures forall i :: 0 <= i < |keys| ==> keys[i] in cache.values && keys[i] >= 2
      ensures forall k :: k in cache.values ==> k in keys
    {
      hide LruCache.Valid;
      hide LogicOf;
      hide IsDataNode;
      hide ParentIs;
      hide Shape;
      OrderListed();
      keys := cache.Iter();
      assert forall i :: 0 <= i < |keys| ==> keys[i] in keys;
    }

    /** Step 1 of `update_nodes`: the changed data nodes, in cache order. */
    method SealDataNodes(ghost bound: nat, ghost was: Nodes) returns (ok: bool, ghost done: set<nat>)
      requires Sound() && Sealing(Now(), bound, {}) && was == Cached()
      modifies `tree, pool, root`plain
      ensures Sound() && SameFlags(was, Cached())
      ensures root.needWriting == old(root.needWriting) && root.newNode == old(root.newNode)
      ensures Sealing(Now(), bound, if ok then done else {}) && Bytes() == old(Bytes())
      ensures ok ==> forall k :: k in done <==> IsDataNode(k) && IsDirty(was, k)
      ensures keysReliable ==> ok
    {
      hide FileInner.Sound;
      hide Sealing;
      hide Contents;
      hide FileInner.Cached;
      hide Parent;
      hide IsDataNode;
      hide SameFlags;
      SameFlagsSelf(was);
      var keys := Keys();
      ghost var seen: set<nat> := {};
      ok, done := true, {};
      for i := 0 to |keys|
        invariant ok && Sound() && SameFlags(was, Cached())
        invariant root.needWriting == old(root.needWriting) && root.newNode == old(root.newNode)
        invariant Sealing(Now(), bound, done) && Bytes() == old(Bytes())
        invariant forall j :: 0 <= j < |keys| ==> (keys[j] in seen <==> j < i)
        invariant forall k :: k in done <==> IsDataNode(k) && IsDirty(was, k) && k in seen
      {
        ParentBelow(keys[i]);
        ok, done := SealDirty(keys[i], true, bound, done, was);
        if !ok {
          return;
        }
        seen := seen + {keys[i]};
      }
      AllSeen(keys, seen, was);
    }

    lemma AllSeen(keys: seq<nat>, seen: set<nat>, was: Nodes)
      requires Sound() && SameFlags(was, Cached())
      requires forall k :: k in cache.values ==> k in keys
      requires forall j :: 0 <= j < |keys| ==> keys[j] in seen
      ensures forall k :: IsDirty(was, k) ==> k in seen
    {
      hide LruCache.Valid;
    }

    method PickMhts(ghost was: Nodes) returns (picked: seq<nat>)
      requires Sound() && SameFlags(was, Cached())
      ensures Distinct(picked)
      ensures forall k :: k in picked ==> k in cache.values && k >= 2
      ensures forall k :: k in picked <==> !IsDataNode(k) && IsDirty(was, k)
    {
      hide LruCache.Valid;
      hide FileInner.Cached;
      hide IsDataNode;
      hide LogicOf;
      hide ParentIs;
      hide SameFlags;
      CachedKeys();
      var keys := Keys();
      picked := [];
      for i := 0 to |keys|
        invariant Distinct(picked)
        invariant forall j :: i <= j < |keys| ==> keys[j] !in picked
        invariant forall k :: k in picked ==> k in cache.values && k >= 2 && !IsDataNode(k) && IsDirty(was, k)
        invariant forall j :: 0 <= j < i && !IsDataNode(keys[j]) && IsDirty(was, keys[j]) ==> keys[j] in picked
      {
        var found := cache.Find(keys[i]);
        var node := found.value;
        SameFlagsDirty(was, Cached(), keys[i]);
        if !node.isData && node.needWriting {
          picked := picked + [keys[i]];
        }
      }
      AllPicked(keys, picked, was);
    }

    /** The dirty MHT nodes, sorted from the last to the first: bottom layers first. */
    method DirtyMhts(ghost was: Nodes) returns (mhts: seq<nat>)
      requires Sound() && SameFlags(was, Cached())
      ensures forall i, j :: 0 <= i < j < |mhts| ==> mhts[i] > mhts[j]
      ensures forall i :: 0 <= i < |mhts| ==> mhts[i] in cache.values && mhts[i] >= 2
      ensures forall k :: k in mhts <==> !IsDataNode(k) && IsDirty(was, k)
    {
      hide FileInner.Sound;
      hide FileInner.Cached;
      hide IsDataNode;
      hide SameFlags;
      var picked := PickMhts(was);
      mhts := SortDescending(picked);
      SortedDistinct(picked, mhts);
      assert forall i :: 0 <= i < |mhts| ==> mhts[i] in mhts;
    }

    lemma AllPicked(keys: seq<nat>, picked: seq<nat>, was: Nodes)
      requires Sound() && SameFlags(was, Cached())
      requires forall k :: k in cache.values ==> k in keys
      requires forall j :: 0 <= j < |keys| && !IsDataNode(keys[j]) && IsDirty(was, keys[j]) ==> keys[j] in picked
      ensures forall k :: !IsDataNode(k) && IsDirty(was, k) ==> k in picked
    {
      hide LruCache.Valid;
      hide IsDataNode;
      hide ParentIs;
      hide Shape;
    }

    /** Step 2 of `update_nodes`: the changed MHT nodes, children before parents. */
    method SealMhtNodes(ghost bound: nat, ghost was: Nodes, ghost below: set<nat>) returns (ok: bool, ghost done: set<nat>)
      requires Sound() && Sealing(Now(), bound, below) && SameFlags(was, Cached())
      requires forall k :: k in below <==> IsDataNode(k) && IsDirty(was, k)
      modifies `tree, pool, root`plain
      ensures Sound() && SameFlags(was, Cached())
      ensures root.needWriting == old(root.needWriting) && root.newNode == old(root.newNode)
      ensures Sealing(Now(), bound, if ok then done else {}) && Bytes() == old(Bytes())
      ensures ok ==> forall k :: IsDirty(was, k) ==> k in done
      ensures keysReliable ==> ok
    {
      hide FileInner.Sound;
      hide Sealing;
      hide Contents;
      hide FileInner.Cached;
      hide Parent;
      hide IsDataNode;
      hide SameFlags;
      var mhts := DirtyMhts(was);
      ok, done := true, below;
      for i := 0 to |mhts|
        invariant ok && Sound() && SameFlags(was, Cached())
        invariant root.needWriting == old(root.needWriting) && root.newNode == old(root.newNode)
        invariant Sealing(Now(), bound, done) && Bytes() == old(Bytes())
        invariant below <= done
        invariant forall k :: k in done && k !in below ==> i > 0 && k >= mhts[i - 1]
        invariant forall j :: 0 <= j < i ==> mhts[j] in done
      {
        ParentBelow(mhts[i]);
        assert mhts[i] in mhts;
        ok, done := SealDirty(mhts[i], false, bound, done, was);
        if !ok {
          return;
        }
      }
    }

    method EncryptRoot(key: Key) returns (ok: bool)
      requires Sound()
      modifies `meta, root`cipher
      ensures ok && Sound() && Cached() == old(Cached()) && Now() == SealRoot(old(Now()), key)
    {
      hide LruCache.Valid;
      hide FileInner.Cached;
      hide ParentIs;
      hide LogicOf;
      hide IsDataNode;
      var mac := root.Encrypt(key);
      ok := mac.Some?;
      if ok {
        meta := meta.(mhtKey := key, mhtGmac := mac.value);
      }
    }

    /** Step 3 of `update_nodes`: the root, whose key and MAC go into the metadata. */
    method SealRootNode(ghost bound: nat, ghost done: set<nat>) returns (ok: bool)
      requires Sound() && Sealing(Now(), bound, done) && (forall k :: IsDirty(Cached(), k) ==> k in done)
      modifies `meta, root`cipher
      ensures Sound() && Cached() == old(Cached())
      ensures meta.size == old(meta.size) && meta.data == old(meta.data)
      ensures Sealing(Now(), bound, {}) && Bytes() == old(Bytes())
      ensures ok ==> Ready(Now(), bound)
      ensures keysReliable ==> ok
    {
      hide FileInner.Sound;
      hide Sealing;
      hide Ready;
      hide Contents;
      hide FileInner.Cached;
      var key := DeriveKey();
      if key.None? {
        SealingForgets(Now(), bound, done);
        return false;
      }
      SealRootReady(Now(), bound, done, key.value);
      ok := EncryptRoot(key.value);
    }

    /** Seals every dirty node bottom-up, then the root. */
    method UpdateNodes(ghost bound: nat) returns (ok: bool)
      requires Sound() && Pending(Now(), bound) && root.needWriting
      modifies `tree, `meta, pool, root
      ensures Sound() && SameFlags(old(Cached()), Cached())
      ensures root.needWriting == old(root.needWriting) && root.newNode == old(root.newNode)
      ensures meta.size == old(meta.size) && meta.data == old(meta.data)
      ensures Pending(Now(), bound) && Bytes() == old(Bytes())
      ensures ok ==> Ready(Now(), bound)
      ensures keysReliable ==> ok
    {
      hide FileInner.Sound;
      hide Sealing;
      hide Ready;
      hide Contents;
      hide FileInner.Cached;
      ghost var was := Cached();
      ghost var done;
      ok, done := SealDataNodes(bound, was);
      if !ok {
        return;
      }
      ok, done := SealMhtNodes(bound, was, done);
      if !ok {
        return;
      }
      forall k | IsDirty(Cached(), k) ensures k in done {
        SameFlagsDirty(was, Cached(), k);
      }
      ok := SealRootNode(bound, done);
    }

    // ---------------------------------------------------------------- flush: writing out

    /** A node's ciphertext goes to its block and its flags are cleared. */
    method WriteDirty(node: FileNode, k: nat) returns (ok: bool)
      requires Sound() && k in cache.values && node == cache.values[k] && k >= 2
      modifies host, pool`needWriting, pool`newNode
      ensures Sound() && Cached().Keys == old(Cached().Keys) && k in old(Cached())
      ensures ok ==> Now() == WriteNode(old(Now()), k) && host.trail == old(host.trail) + [host.blocks]
      ensures !ok ==> Now() == old(Now()) && host.trail == old(host.trail)
      ensures host.reliable && k < host.nblocks ==> ok
    {
      hide LruCache.Valid;
      hide FileInner.Cached;
      hide ParentIs;
      hide LogicOf;
      hide IsDataNode;
      CachedKeys();
      ok := host.Write(k, node.cipher);
      if ok {
        ClearFlags(node, k);
      }
    }

    method FindNode(k: nat) returns (r: Option<FileNode>)
      requires Sound()
      ensures r == if k in cache.values then Some(cache.values[k]) else None
    {
      hide LruCache.Valid;
      r := cache.Find(k);
    }

    method Lookup(k: nat) returns (node: FileNode)
      requires Sound() && k in cache.values
      ensures node == cache.values[k]
    {
      hide LruCache.Valid;
      var found := cache.Find(k);
      node := found.value;
    }

    /** Writes a node out if it is dirty. */
    method WriteOne(k: nat, ghost bound: nat, ghost seal: MetaSeal) returns (ok: bool)
      requires Sound() && Ready(Now(), bound) && k in cache.values && k >= 2
      modifies host, pool`needWriting, pool`newNode
      ensures Sound() && Ready(Now(), bound) && Target(Now(), seal) == old(Target(Now(), seal))
      ensures forall x :: IsDirty(Cached(), x) ==> IsDirty(old(Cached()), x) && (ok ==> x != k)
      ensures host.trail == old(host.trail) || host.trail == old(host.trail) + [host.blocks]
      ensures SameMetaBlock(old(host.blocks), host.blocks)
      ensures CleanKept(old(Cached()), Cached())
      ensures Serves(bound) ==> ok
    {
      hide FileInner.Sound;
      hide Ready;
      hide Target;
      hide FileInner.Cached;
      hide ParentIs;
      hide LogicOf;
      hide IsDataNode;
      ok := true;
      var node := Lookup(k);
      CachedKeys();
      if node.needWriting {
        ghost var before := Now();
        ReadyCached(before, bound, k);
        WriteNodeKeeps(before, bound, k);
        WriteNodeTarget(before, k, seal);
        ok := WriteDirty(node, k);
      }
    }

    method ClearFlags(node: FileNode, ghost k: nat)
      requires Sound() && k in cache.values && node == cache.values[k]
      modifies pool`needWriting, pool`newNode
      ensures Sound() && Cached() == old(Cached())[k := old(Cached())[k].(dirty := false, newNode := false)]
    {
      hide LruCache.Valid;
      hide ParentIs;
      hide LogicOf;
      hide IsDataNode;
      node.needWriting := false;
      node.newNode := false;
    }

    /** Writes the dirty nodes out, from the tail of the cache to its head. */
    method WriteNodesOut(ghost bound: nat, ghost seal: MetaSeal) returns (ok: bool)
      requires Sound() && Ready(Now(), bound)
      modifies host, pool`needWriting, pool`newNode
      ensures Sound() && Ready(Now(), bound) && Target(Now(), seal) == old(Target(Now(), seal))
      ensures ok ==> forall x :: !IsDirty(Cached(), x)
      ensures Follows(old(host.trail), host.trail, old(host.blocks)) && SameMetaBlock(old(host.blocks), host.blocks)
      ensures CleanKept(old(Cached()), Cached())
      ensures Serves(bound) ==> ok
    {
      hide FileInner.Now;
      hide FileInner.Serves;
      hide FileInner.Sound;
      hide Ready;
      hide Target;
      hide CleanKept;
      hide FileInner.Cached;
      hide Follows;
      hide SameMetaBlock;
      FollowsSelf(host.trail, host.blocks);
      CleanKeptSelf(Cached());
      var keys := Keys();
      var i := |keys|;
      ok := true;
      while i > 0
        invariant ok && 0 <= i <= |keys|
        invariant Sound() && Ready(Now(), bound) && Target(Now(), seal) == old(Target(Now(), seal))
        invariant forall x :: IsDirty(Cached(), x) ==> x in cache.values
        invariant CleanKept(old(Cached()), Cached())
        invariant forall j :: i <= j < |keys| ==> !IsDirty(Cached(), keys[j])
        invariant Follows(old(host.trail), host.trail, old(host.blocks)) && SameMetaBlock(old(host.blocks), host.blocks)
      {
        i := i - 1;
        ghost var mid, blocks, nodes := host.trail, host.blocks, Cached();
        ok := WriteOne(keys[i], bound, seal);
        CleanKeptTrans(old(Cached()), nodes, Cached());
        FollowsMore(old(host.trail), mid, host.trail, old(host.blocks), blocks, host.blocks);
        if !ok {
          return;
        }
      }
    }

    method ClearRootFlags()
      requires Sound()
      modifies root`needWriting, root`newNode
      ensures Sound() && !root.needWriting && Now() == old(Now()).(root := old(root.Val()).(dirty := false, newNode := false))
    {
      hide LruCache.Valid;
      hide ParentIs;
      hide LogicOf;
      hide IsDataNode;
      hide FileInner.Cached;
      root.needWriting := false;
      root.newNode := false;
    }

    method WriteRootOut(ghost bound: nat, ghost seal: MetaSeal) returns (ok: bool)
      requires Sound() && Ready(Now(), bound) && root.needWriting && (forall x :: !IsDirty(Cached(), x))
      modifies host, root`needWriting, root`newNode
      ensures Sound() && Ready(Now(), bound) && Target(Now(), seal) == old(Target(Now(), seal))
      ensures ok ==> !root.needWriting
      ensures !ok ==> root.needWriting
      ensures Cached() == old(Cached())
      ensures Follows(old(host.trail), host.trail, old(host.blocks)) && SameMetaBlock(old(host.blocks), host.blocks)
      ensures Serves(bound) ==> ok
    {
      hide LruCache.Valid;
      hide Ready;
      hide Target;
      hide FileInner.Cached;
      hide ParentIs;
      hide LogicOf;
      hide IsDataNode;
      ghost var before := Now();
      ok := host.Write(ROOT_MHT_PHY_NUM, root.cipher);
      if ok {
        WriteRootKeeps(before, bound);
        ReadyMirrors(before, bound);
        WriteRootTarget(before, seal);
        ClearRootFlags();
      }
    }

    predicate IsNeedWriteNode()
      reads this, root
    {
      meta.size > MD_USER_DATA_SIZE && root.needWriting
    }

    /** The metadata block, as it is in memory, goes to disk. */
    method WriteMeta() returns (ok: bool)
      requires host.Valid()
      modifies host
      ensures host.Valid()
      ensures ok ==> host.blocks == old(host.blocks)[META_DATA_PHY_NUM := MetaBlock(updateFlag, metaSeal)]
      ensures ok ==> host.trail == old(host.trail) + [host.blocks]
      ensures !ok ==> host.blocks == old(host.blocks) && host.trail == old(host.trail)
      ensures host.reliable && host.nblocks > 0 ==> ok
    {
      ok := host.Write(META_DATA_PHY_NUM, MetaBlock(updateFlag, metaSeal));
    }

    /** Commit, flush, and drop the journal: everything is on disk. */
    method RetireJournal() returns (ok: bool)
      modifies journal
      ensures ok ==> journal.log == []
      ensures host.reliable && journal.reliable ==> ok
      ensures !ok && host.reliable && journal.appends ==> Uncommitted(journal.log) == []
    {
      ok := host.Flush();
      if ok {
        ok := journal.Commit();
      }
      if ok {
        ok := journal.Flush();
      }
      if ok {
        ok := journal.Reset();
      }
    }

    lemma RootApart()
      requires Sound()
      ensures root !in pool
    {
    }

    /** The nodes and the root, if the root is dirty. */
    method WriteTreeOut(ghost bound: nat, ghost seal: MetaSeal) returns (ok: bool)
      requires Sound() && Ready(Now(), bound)
      modifies host, pool`needWriting, pool`newNode, root`needWriting, root`newNode
      ensures Sound() && Ready(Now(), bound) && Target(Now(), seal) == old(Target(Now(), seal))
      ensures ok ==> !root.needWriting
      ensures !old(root.needWriting) ==> host.trail == old(host.trail)
      ensures !ok ==> root.needWriting && old(root.needWriting)
      ensures Follows(old(host.trail), host.trail, old(host.blocks)) && SameMetaBlock(old(host.blocks), host.blocks)
      ensures CleanKept(old(Cached()), Cached())
      ensures Serves(bound) ==> ok
    {
      hide FileInner.Serves;
      hide FileInner.Sound;
      hide Ready;
      hide Target;
      hide CleanKept;
      hide FileInner.Cached;
      ReadyRoot(Now(), bound);
      RootApart();
      CleanKeptSelf(Cached());
      ok := true;
      if IsNeedWriteNode() {
        ok := WriteNodesOut(bound, seal);
        if ok {
          ok := WriteRootOut(bound, seal);
        }
      }
    }

    /** Puts the metadata block with a clear update flag in place: the last write of a flush. */
    method WriteMetaOut(ghost bound: nat) returns (ok: bool)
      requires Sound() && Ready(Now(), bound) && !root.needWriting && !updateFlag
      modifies host
      ensures Sound() && Ready(Now(), bound) && Target(Now(), metaSeal) == old(Target(Now(), metaSeal))
      ensures ok ==> host.blocks == Target(Now(), metaSeal) && host.trail == old(host.trail) + [host.blocks]
      ensures !ok ==> host.blocks == old(host.blocks) && host.trail == old(host.trail)
      ensures Serves(bound) || (host.reliable && host.nblocks > 0) ==> ok
    {
      hide LruCache.Valid;
      hide Ready;
      hide Target;
      hide FileInner.Cached;
      hide ParentIs;
      hide Shape;
      ghost var before := Now();
      ok := WriteMeta();
      if ok {
        MetaBlockKeeps(before, bound, MetaBlock(false, metaSeal));
        ReadyClean(before, bound);
        WriteMetaTarget(before, metaSeal);
        WriteMetaTarget(Now(), metaSeal);
        assert Now() == before.(disk := before.disk[META_DATA_PHY_NUM := MetaBlock(false, metaSeal)]);
      }
    }

    method WriteToDisk(flush: bool, ghost bound: nat) returns (ok: bool)
      requires Sound() && Ready(Now(), bound) && !updateFlag
      modifies host, pool`needWriting, pool`newNode, root`needWriting, root`newNode, journal
      ensures Sound() && Ready(Now(), bound) && Target(Now(), metaSeal) == old(Target(Now(), metaSeal))
      ensures ok ==> host.blocks == old(Target(Now(), metaSeal)) && !root.needWriting
      ensures old(host.trail) <= host.trail
      ensures root.needWriting ==> old(root.needWriting) && SameMetaBlock(old(host.blocks), host.blocks)
      ensures forall j :: |old(host.trail)| <= j < |host.trail| ==>
                (old(root.needWriting) && SameMetaBlock(old(host.blocks), host.trail[j]))
                || (j == |host.trail| - 1 && host.trail[j] == old(Target(Now(), metaSeal)) == host.blocks && !root.needWriting)
      ensures ok ==> |host.trail| > |old(host.trail)| && host.trail[|host.trail| - 1] == host.blocks
      ensures if flush then ok ==> journal.log == [] else journal.log == old(journal.log)
      ensures CleanKept(old(Cached()), Cached())
      ensures !ok && flush && !root.needWriting && host.reliable && host.nblocks > 0 && journal.appends ==> Uncommitted(journal.log) == []
      ensures Serves(bound) ==> ok
    {
      hide Uncommitted;
      hide FileInner.Now;
      hide FileInner.Sound;
      hide Ready;
      hide Target;
      hide CleanKept;
      hide FileInner.Cached;
      hide SameMetaBlock;
      ok := WriteTreeOut(bound, metaSeal);
      if !ok {
        return;
      }
      ok := WriteMetaOut(bound);
      if ok && flush {
        ok := RetireJournal();
      }
    }

    // ---------------------------------------------------------------- flush: the undo journal

    /** Clones of the dirty nodes that are not new, MHT nodes and data nodes apart. */
    method CollectRecovery() returns (mhts: seq<Entry<Block>>, datas: seq<Entry<Block>>)
      requires Sound()
      ensures LogsDirty(mhts + datas, Cached()) && OfKind(mhts, false) && OfKind(datas, true)
    {
      hide LruCache.Valid;
      hide FileInner.Cached;
      hide ParentIs;
      hide LogicOf;
      hide IsDataNode;
      hide Collected;
      hide LogsDirty;
      hide OfKind;
      CachedKeys();
      var keys := Keys();
      mhts, datas := [], [];
      ghost var nodes := Cached();
      CollectNone(nodes, keys);
      for i := 0 to |keys|
        invariant Collected(mhts, datas, nodes, keys, i)
      {
        CollectMore(mhts, datas, nodes, keys, i);
        var found := cache.Find(keys[i]);
        var node := found.value;
        if node.needWriting && !node.newNode {
          if !node.isData {
            mhts := mhts + [NodeEntry(keys[i], node.cipher)];
          } else {
            datas := datas + [NodeEntry(keys[i], node.cipher)];
          }
        }
      }
      CollectAll(mhts, datas, nodes, keys);
    }


    method AppendAll(entries: seq<Entry<Block>>) returns (ok: bool)
      requires forall e :: e in entries ==> e.NodeEntry?
      modifies journal
      ensures ok ==> journal.log == old(journal.log) + entries
      ensures journal.reliable ==> ok
    {
      ok := true;
      for i := 0 to |entries|
        invariant ok && journal.log == old(journal.log) + entries[..i]
      {
        assert entries[i] in entries;
        ok := journal.Append(entries[i].number, entries[i].block);
        if !ok {
          return;
        }
        assert entries[..i + 1] == entries[..i] + [entries[i]];
      }
      assert entries[..|entries|] == entries;
    }

    /** Logs the pre-images: MHT nodes, data nodes, the root if it is dirty and not new, the metadata. */
    method WriteRecoveryFileNode()
      returns (ok: bool, ghost mhts: seq<Entry<Block>>, ghost datas: seq<Entry<Block>>, ghost tail: seq<Entry<Block>>)
      requires Sound()
      modifies journal
      ensures OfKind(mhts, false) && OfKind(datas, true) && tail == RootAndMeta(root.Val(), MetaBlock(updateFlag, metaSeal))
      ensures LogsDirty(mhts + datas + tail, Every())
      ensures FirstEntry(tail, META_DATA_PHY_NUM) == Some(MetaBlock(updateFlag, metaSeal))
      ensures FirstEntry(tail, ROOT_MHT_PHY_NUM) == if root.needWriting && !root.newNode then Some(root.cipher) else None
      ensures ok ==> journal.log == old(journal.log) + (mhts + datas + tail)
      ensures journal.reliable ==> ok
    {
      hide RootAndMeta;
      hide FileInner.Now;
      hide FileInner.Sound;
      hide FileInner.Cached;
      hide LogsDirty;
      hide OfKind;
      var ms, ds := CollectRecovery();
      mhts, datas := ms, ds;
      tail := RootAndMeta(root.Val(), MetaBlock(updateFlag, metaSeal));
      RootNotCached();
      TailFirst(root.Val(), MetaBlock(updateFlag, metaSeal));
      LogsTail(ms + ds, Cached(), root.Val(), MetaBlock(updateFlag, metaSeal));
      OfKindNodes(ms, false);
      OfKindNodes(ds, true);
      ok := AppendAll(ms);
      if ok {
        ok := AppendAll(ds);
      }
      if ok {
        ok := LogRootAndMeta();
      }
    }

    /** The root, if it is dirty and not new, and the metadata block. */
    method LogRootAndMeta() returns (ok: bool)
      modifies journal
      ensures ok ==> journal.log == old(journal.log) + RootAndMeta(root.Val(), MetaBlock(updateFlag, metaSeal))
      ensures journal.reliable ==> ok
    {
      ok := true;
      if root.needWriting && !root.newNode {
        ok := journal.Append(ROOT_MHT_PHY_NUM, root.cipher);
      }
      if ok {
        ok := journal.Append(META_DATA_PHY_NUM, MetaBlock(updateFlag, metaSeal));
      }
    }

    method WriteRecoveryFile() returns (ok: bool, ghost entries: seq<Entry<Block>>)
      requires Sound()
      modifies journal
      ensures Sound() && Cached() == old(Cached())
      ensures LogsDirty(entries, Every())
      ensures journal.log == if ok then old(journal.log) + entries else []
      ensures journal.reliable ==> ok
    {
      hide FileInner.Every;
      hide OfKind;
      hide RootAndMeta;
      hide FirstEntry;
      hide FileInner.Sound;
      hide FileInner.Cached;
      hide LogsDirty;
      ghost var mhts, datas, tail;
      ok, mhts, datas, tail := WriteRecoveryFileNode();
      entries := mhts + datas + tail;
      if !ok {
        var _ := journal.Reset();
      }
    }

    // ---------------------------------------------------------------- flush: the protocol

    /** The data region as it is with the update flag cleared. */
    ghost function Restored(): Disk
      reads `metaSeal, host
    {
      Flagged(host.blocks, false, metaSeal)
    }

    /**
      What the disk shows of a file with history `h`: no image is a mix, and with the flag cleared it
      is the file as of the last completed flush.
     */
    ghost predicate Shown(h: seq<Edit>)
      reads `updateFlag, `metaSeal, `flushedAt, host
    {
      && !updateFlag && GoodTrail(host.trail + [Restored()], userKey, h)
      && if flushedAt.Some? then Shows(Restored(), userKey, h, flushedAt.value) else metaSeal == Unsealed
    }

    /** The disk shows the file with a clear flag, and the journal has the pre-images since the last reset. */
    ghost predicate Ledger(h: seq<Edit>)
      reads `updateFlag, `metaSeal, `flushedAt, `baseline, `over, host, journal
    {
      && Shown(h) && LogInv(journal.log, baseline, over, host.blocks)
      && (flushedAt.Some? ==>
            META_DATA_PHY_NUM in host.blocks && host.blocks[META_DATA_PHY_NUM] == MetaBlock(false, metaSeal))
    }

    /** The file agrees with its history, its disk and its journal. */
    ghost predicate Book()
      reads this, host, journal
    {
      && Ledger(hist)
      && Replay(hist) == Contents(meta.size, meta.data, tree)
      && (!needWriting ==> flushedAt.Some? && Stored(host.blocks, userKey, meta, tree))
    }

    /**
      A file with something to write that agrees with its history and its disk, whatever an earlier
      attempt to flush it has logged, flagged or sealed.
     */
    ghost predicate Unsaved(bound: nat)
      reads this, host, root, cache, cache.list, cache.list.footprint, pool
    {
      && Sound() && Pending(Now(), bound) && needWriting && Shown(hist) && Replay(hist) == Bytes()
    }

    /** A failed flush: the write-out was interrupted, or it was not begun. */
    ghost predicate Failed(bound: nat)
      reads this, host, root, cache, cache.list, cache.list.footprint, pool
    {
      if status == WriteToDiskFailed then Resumable(bound) else Unsaved(bound) && status != StatusOk
    }

    lemma BookUnsaved(bound: nat)
      requires Sound() && Inv(Now(), bound) && Book()
      ensures needWriting ==> Unsaved(bound)
      ensures flushedAt.Some? ==> Restored() == host.blocks
    {
      hide FileInner.Sound;
      hide Inv;
      hide Pending;
      hide GoodTrail;
      hide LogInv;
      hide Contents;
      hide Replay;
      hide Stored;
      hide Reopen;
      hide FileInner.Cached;
      InvPending(Now(), bound);
    }

    /** The whole file on disk, behind a good trail. */
    lemma ShownWhole()
      requires host.Valid() && !updateFlag && GoodTrail(host.trail, userKey, hist) && flushedAt == Some(|hist|)
      requires Reopen(host.blocks, userKey) == Snapshot(Replay(hist))
      requires META_DATA_PHY_NUM in host.blocks && host.blocks[META_DATA_PHY_NUM] == MetaBlock(false, metaSeal)
      ensures Shown(hist)
    {
      hide GoodTrail;
      hide Reopen;
      hide Replay;
      assert Restored() == host.blocks;
      GoodTrailWhole(host.trail, host.blocks, userKey, hist);
      ShowsAll(host.blocks, userKey, hist);
    }

    /** Writes the metadata block with its update flag set. */
    method SetUpdateFlag(flush: bool) returns (ok: bool)
      requires Sound() && !updateFlag
      modifies `updateFlag, host
      ensures Sound() && !updateFlag && Cached() == old(Cached())
      ensures ok ==> host.blocks == Flagged(old(host.blocks), true, metaSeal)
      ensures ok ==> OneFlag(old(host.trail), host.trail, old(host.blocks), host.blocks, metaSeal)
      ensures host.blocks == old(host.blocks) || host.blocks == Flagged(old(host.blocks), true, metaSeal)
              || host.blocks == Flagged(old(host.blocks), false, metaSeal)
      ensures FlagTrail(old(host.trail), host.trail, old(host.blocks), metaSeal)
      ensures host.reliable && host.nblocks > 0 ==> ok
    {
      hide LruCache.Valid;
      hide ParentIs;
      hide FileInner.Cached;
      hide Shape;
      hide OneFlag;
      hide FlagTrail;
      hide Flagged;
      ok := WriteFlag(flush);
    }

    method WriteFlag(flush: bool) returns (ok: bool)
      requires host.Valid() && !updateFlag
      modifies `updateFlag, host
      ensures host.Valid() && !updateFlag
      ensures ok ==> host.blocks == Flagged(old(host.blocks), true, metaSeal)
      ensures ok ==> OneFlag(old(host.trail), host.trail, old(host.blocks), host.blocks, metaSeal)
      ensures host.blocks == old(host.blocks) || host.blocks == Flagged(old(host.blocks), true, metaSeal)
              || host.blocks == Flagged(old(host.blocks), false, metaSeal)
      ensures FlagTrail(old(host.trail), host.trail, old(host.blocks), metaSeal)
      ensures host.reliable && host.nblocks > 0 ==> ok
    {
      updateFlag := true;
      ok := WriteMeta();
      updateFlag := false;
      assert ok ==> host.blocks == Flagged(old(host.blocks), true, metaSeal);
      if ok && flush {
        ok := host.Flush();
        if !ok {
          var restored := WriteMeta();
          assert restored ==> host.blocks == Flagged(old(host.blocks), false, metaSeal);
        }
      }
    }

    /** The metadata block goes to disk with a clear flag, if the device takes it. */
    method RestoreMeta()
      requires Sound() && !updateFlag
      modifies host
      ensures Sound() && Cached() == old(Cached()) && Now() == old(Now()).(disk := host.blocks)
      ensures || (host.blocks == old(host.blocks) && host.trail == old(host.trail))
              || (host.blocks == Flagged(old(host.blocks), false, metaSeal) && host.trail == old(host.trail) + [host.blocks])
      ensures host.reliable && host.nblocks > 0 ==> host.blocks == Flagged(old(host.blocks), false, metaSeal)
    {
      hide LruCache.Valid;
      hide ParentIs;
      hide Shape;
      hide FileInner.Cached;
      var _ := WriteMeta();
      var _ := host.Flush();
    }

    /** Gives up on a flush: the metadata block goes back as it was. */
    method ClearUpdateFlag(ghost prior: seq<Disk>, ghost base: Disk, ghost bound: nat)
      requires Sound() && !updateFlag && FlagTrail(prior, host.trail, base, metaSeal) && Pending(Now(), bound)
      requires host.blocks == base || host.blocks == Flagged(base, true, metaSeal)
      modifies host
      ensures Sound() && FlagTrail(prior, host.trail, base, metaSeal) && Cached() == old(Cached())
      ensures Pending(Now(), bound)
      ensures host.reliable && host.nblocks > 0 ==> host.blocks == Flagged(base, false, metaSeal)
    {
      hide FileInner.Sound;
      hide Pending;
      hide FileInner.Cached;
      MetaBlockKeeps(Now(), bound, MetaBlock(false, metaSeal));
      RestoreMeta();
      assert Flagged(host.blocks, false, metaSeal) == Flagged(base, false, metaSeal);
    }

    method SetStatus(to: FileStatus)
      modifies `status
      ensures status == to && Now() == old(Now()) && Cached() == old(Cached()) && Sound() == old(Sound())
    {
      hide FileInner.Sound;
      hide FileInner.Cached;
      status := to;
    }

    /** Pre-images to the journal, then the update flag to disk. */
    method LogAndFlag(flush: bool, ghost bound: nat) returns (ok: bool, ghost entries: seq<Entry<Block>>)
      requires Sound() && Pending(Now(), bound) && !updateFlag
      modifies `updateFlag, host, journal
      ensures Sound() && !updateFlag && Cached() == old(Cached())
      ensures FlagTrail(old(host.trail), host.trail, old(host.blocks), metaSeal)
      ensures Pending(Now(), bound) && Now().(disk := old(host.blocks)) == old(Now())
      ensures ok ==> host.blocks == Flagged(old(host.blocks), true, metaSeal)
      ensures ok ==> OneFlag(old(host.trail), host.trail, old(host.blocks), host.blocks, metaSeal)
      ensures || (journal.log == old(journal.log) + entries && LogsDirty(entries, old(Every())))
              || (!ok && journal.log == [] && host.trail == old(host.trail) && host.blocks == old(host.blocks))
      ensures !ok && host.reliable && host.nblocks > 0 ==> host.blocks == old(host.blocks) || host.blocks == Flagged(old(host.blocks), false, old(metaSeal))
      ensures Serves(bound) ==> ok
    {
      hide FileInner.Every;
      hide FileInner.Sound;
      hide Pending;
      hide FileInner.Cached;
      hide LogsDirty;
      ghost var before := Now();
      ok, entries := WriteRecoveryFile();
      if !ok {
        return;
      }
      ok := SetUpdateFlag(flush);
      MetaBlockKeeps(before, bound, MetaBlock(true, metaSeal));
      MetaBlockKeeps(before, bound, MetaBlock(false, metaSeal));
      assert Now() == before.(disk := host.blocks);
    }

    /** Journal, update flag, then seal the tree. */
    method PrepareTree(flush: bool, ghost bound: nat) returns (ok: bool, ghost entries: seq<Entry<Block>>)
      requires Sound() && Pending(Now(), bound) && !updateFlag && root.needWriting
      modifies `tree, `meta, `updateFlag, `status, pool, root, host, journal
      ensures Sound() && !updateFlag && SameFlags(old(Cached()), Cached())
      ensures root.needWriting == old(root.needWriting) && root.newNode == old(root.newNode)
      ensures meta.size == old(meta.size) && meta.data == old(meta.data)
      ensures FlagTrail(old(host.trail), host.trail, old(host.blocks), metaSeal)
      ensures Pending(Now(), bound) && Bytes() == old(Bytes())
      ensures ok ==> Ready(Now(), bound) && status == old(status)
      ensures ok ==> host.blocks == Flagged(old(host.blocks), true, metaSeal)
      ensures ok ==> OneFlag(old(host.trail), host.trail, old(host.blocks), host.blocks, metaSeal)
      ensures || (journal.log == old(journal.log) + entries && LogsDirty(entries, old(Every())))
              || (!ok && journal.log == [] && host.trail == old(host.trail) && host.blocks == old(host.blocks))
      ensures !ok && host.reliable && host.nblocks > 0 ==> host.blocks == old(host.blocks) || host.blocks == Flagged(old(host.blocks), false, old(metaSeal))
      ensures !ok ==> status == FlushError
      ensures Serves(bound) ==> ok
    {
      hide FileInner.Every;
      hide FileInner.Now;
      hide FileInner.Sound;
      hide Pending;
      hide Ready;
      hide Contents;
      hide FileInner.Cached;
      hide LogsDirty;
      hide SameFlags;
      hide FlagTrail;
      SameFlagsSelf(Cached());
      ok, entries := LogAndFlag(flush, bound);
      if !ok {
        SetStatus(FlushError);
        return;
      }
      ok := UpdateNodes(bound);
      if !ok {
        ClearUpdateFlag(old(host.trail), old(host.blocks), bound);
        SetStatus(FlushError);
      }
    }

    /** A write-out that was interrupted and can be taken up again. */
    ghost predicate Resumable(bound: nat)
      reads this, host, root, cache, cache.list, cache.list.footprint, pool
    {
      && Sound() && Ready(Now(), bound) && !updateFlag && metaSeal == MetaSeal(userKey, meta)
      && Replay(hist) == Bytes() && GoodTrail(host.trail, userKey, hist)
      && (root.needWriting ==> FlagSet(host.blocks))
    }

    /** The disk holds the sealed file: nothing is dirty and the metadata block is in place. */
    lemma DiskIsFile(bound: nat)
      requires Ready(Now(), bound) && !root.needWriting && Replay(hist) == Bytes()
      requires META_DATA_PHY_NUM in host.blocks
      requires host.blocks[META_DATA_PHY_NUM] == MetaBlock(false, MetaSeal(userKey, meta))
      ensures Stored(host.blocks, userKey, meta, tree) && Reopen(host.blocks, userKey) == Snapshot(Replay(hist))
      ensures Inv(Now().(needWriting := false), bound)
    {
      hide Ready;
      hide Inv;
      hide Stored;
      hide Reopen;
      hide Contents;
      hide FileInner.Cached;
      WrittenOut(Now(), bound, userKey);
      StoredReopens(host.blocks, userKey, meta, tree);
    }

    /** One attempt at the write-out; it can be repeated until it succeeds. */
    method WriteOut(flush: bool, ghost bound: nat) returns (ok: bool)
      requires Resumable(bound)
      modifies host, pool`needWriting, pool`newNode, root`needWriting, root`newNode, journal
      ensures Resumable(bound) && Target(Now(), metaSeal) == old(Target(Now(), metaSeal))
      ensures EndTrail(old(host.trail), host.trail, userKey, hist)
      ensures ok ==> host.blocks == old(Target(Now(), metaSeal)) && !root.needWriting
      ensures ok ==> Stored(host.blocks, userKey, meta, tree) && Inv(Now().(needWriting := false), bound)
      ensures ok ==> |host.trail| > |old(host.trail)| && Reopen(host.blocks, userKey) == Snapshot(Replay(hist))
      ensures if flush then ok ==> journal.log == [] else journal.log == old(journal.log)
      ensures CleanKept(old(Cached()), Cached())
      ensures !ok && flush && !root.needWriting && host.reliable && host.nblocks > 0 && journal.appends ==> Uncommitted(journal.log) == []
      ensures Serves(bound) ==> ok
    {
      hide Uncommitted;
      hide FileInner.Serves;
      hide FileInner.Sound;
      hide Ready;
      hide Inv;
      hide Stored;
      hide Target;
      hide Reopen;
      hide Replay;
      hide Contents;
      hide GoodTrail;
      hide CleanKept;
      hide FileInner.Cached;
      ghost var seal, target := metaSeal, Target(Now(), metaSeal);
      TargetMeta(Now(), seal);
      TrailNonEmpty();
      ok := WriteToDisk(flush, bound);
      if !root.needWriting && host.blocks == target {
        DiskIsFile(bound);
      }
      forall j | |old(host.trail)| <= j < |host.trail|
        ensures Reopen(host.trail[j], userKey) == NoSnapshot(true)
                || (j == |host.trail| - 1 && Reopen(host.trail[j], userKey) == Snapshot(Replay(hist)))
      {
        if old(root.needWriting) && SameMetaBlock(old(host.blocks), host.trail[j]) {
          FlaggedRefused(host.trail[j], userKey);
        }
      }
      EndTrailGood(old(host.trail), host.trail, userKey, hist);
    }

    lemma HostValid()
      requires Sound()
      ensures host.Valid()
    {
    }

    lemma TrailNonEmpty()
      requires Sound()
      ensures host.trail != [] && host.trail[|host.trail| - 1] == host.blocks
    {
    }

    /** The tree is sealed if it has to be; a clean root leaves nothing to do. */
    method SealTree(flush: bool, ghost bound: nat) returns (ok: bool, ghost entries: seq<Entry<Block>>)
      requires Sound() && Pending(Now(), bound) && !updateFlag
      modifies `tree, `meta, `updateFlag, `status, pool, root, host, journal
      ensures Sound() && !updateFlag && SameFlags(old(Cached()), Cached()) && SameFlags(old(Every()), Every())
      ensures meta.size == old(meta.size) && meta.data == old(meta.data)
      ensures FlagTrail(old(host.trail), host.trail, old(host.blocks), metaSeal)
      ensures Pending(Now(), bound) && Bytes() == old(Bytes())
      ensures ok ==> Ready(Now(), bound) && status == old(status)
      ensures || (journal.log == old(journal.log) + entries && LogsDirty(entries, old(Every())))
              || (!ok && journal.log == [] && host.trail == old(host.trail) && host.blocks == old(host.blocks))
      ensures !ok && host.reliable && host.nblocks > 0 ==> host.blocks == old(host.blocks) || host.blocks == Flagged(old(host.blocks), false, old(metaSeal))
      ensures ok ==> host.blocks == if root.needWriting then Flagged(old(host.blocks), true, metaSeal) else old(host.blocks)
      ensures ok ==> OneFlag(old(host.trail), host.trail, old(host.blocks), host.blocks, metaSeal)
      ensures !ok ==> status == FlushError
      ensures Serves(bound) ==> ok
    {
      hide FileInner.Serves;
      hide FileInner.Sound;
      hide Inv;
      hide Pending;
      hide Ready;
      hide Contents;
      hide FileInner.Cached;
      hide LogsDirty;
      hide SameFlags;
      PendingRoot(Now(), bound);
      if IsNeedWriteNode() {
        ghost var before := Now();
        ok, entries := PrepareTree(flush, bound);
        SameFlagsAll(before, Now());
      } else {
        ok, entries := true, [];
        CleanReady(Now(), bound);
        ReadyClean(Now(), bound);
        NothingLogged(Cached(), root.Val());
        SameFlagsSelf(Cached());
        SameFlagsSelf(Every());
      }
    }

    method SetSeal(seal: MetaSeal)
      modifies `metaSeal
      ensures metaSeal == seal && Now() == old(Now()) && Cached() == old(Cached()) && Sound() == old(Sound())
      ensures Every() == old(Every())
    {
      hide FileInner.Sound;
      hide FileInner.Cached;
      metaSeal := seal;
    }

    /** Flag writes leave what the region shows with its flag cleared. */
    lemma StillShown(prior: seq<Disk>, base: Disk, seal: MetaSeal)
      requires Sound() && prior != [] && prior[|prior| - 1] == base && FlagTrail(prior, host.trail, base, seal)
      requires GoodTrail(prior + [Flagged(base, false, seal)], userKey, hist)
      ensures GoodTrail(host.trail, userKey, hist) && Flagged(host.blocks, false, seal) == Flagged(base, false, seal)
      ensures GoodTrail(host.trail + [Flagged(base, false, seal)], userKey, hist)
    {
      hide FileInner.Sound;
      hide GoodTrail;
      hide FlagTrail;
      TrailNonEmpty();
      FlagsGood(prior, host.trail, base, userKey, seal, hist);
      GoodTrailPrefix(host.trail, Flagged(base, false, seal), userKey, hist);
      FlaggedLast(prior, host.trail, base, host.blocks, seal);
    }

    /** Everything up to the write-out: journal, flag, sealed nodes, sealed metadata. */
    method Prepare(flush: bool, ghost bound: nat) returns (ok: bool, ghost entries: seq<Entry<Block>>)
      requires Unsaved(bound)
      modifies `tree, `meta, `metaSeal, `updateFlag, `status, pool, root, host, journal
      ensures FlagTrail(old(host.trail), host.trail, old(host.blocks), old(metaSeal)) && GoodTrail(host.trail, userKey, hist)
      ensures Bytes() == old(Bytes()) && meta.size == old(meta.size) && meta.data == old(meta.data)
      ensures ok ==> Resumable(bound) && status == old(status)
      ensures ok ==> SameFlags(old(Cached()), Cached()) && SameFlags(old(Every()), Every())
      ensures || (journal.log == old(journal.log) + entries && LogsDirty(entries, old(Every())))
              || (!ok && journal.log == [] && host.trail == old(host.trail) && host.blocks == old(host.blocks))
      ensures !ok && host.reliable && host.nblocks > 0 ==> host.blocks == old(host.blocks) || host.blocks == Flagged(old(host.blocks), false, old(metaSeal))
      ensures ok ==> OneFlag(old(host.trail), host.trail, old(host.blocks), host.blocks, old(metaSeal))
      ensures !ok ==> Unsaved(bound) && (status == FlushError || status == CryptoError)
      ensures Serves(bound) ==> ok
    {
      hide FileInner.Every;
      hide FileInner.Now;
      hide FileInner.Sound;
      hide Pending;
      hide Ready;
      hide Contents;
      hide FileInner.Cached;
      hide LogsDirty;
      hide SameFlags;
      hide GoodTrail;
      hide FlagTrail;
      hide Replay;
      hide Shows;
      TrailNonEmpty();
      ghost var prior, base, seal := host.trail, host.blocks, metaSeal;
      ok, entries := SealTree(flush, bound);
      if ok {
        var key := DeriveKey();
        ok := key.Some?;
        if ok {
          SetSeal(MetaSeal(userKey, meta));
        } else {
          ClearUpdateFlag(prior, base, bound);
          SetStatus(CryptoError);
        }
      }
      StillShown(prior, base, seal);
    }

    method MarkClean(ghost base: Disk, ghost since: map<nat, bool>)
      modifies `flushedAt, `baseline, `over, `needWriting
      ensures !needWriting && flushedAt == Some(|hist|) && baseline == base && over == since
      ensures Now() == old(Now()).(needWriting := false) && Sound() == old(Sound())
    {
      hide FileInner.Sound;
      hide FileInner.Cached;
      ghost var nodes := Cached();
      needWriting, flushedAt, baseline, over := false, Some(|hist|), base, since;
      assert Cached() == nodes;
    }

    /** Marks the file clean after a completed write-out. */
    method Conclude(ghost flush: bool, ghost bound: nat, ghost s: State, ghost log: seq<Entry<Block>>,
                    ghost entries: seq<Entry<Block>>, ghost target: Disk)
      requires Resumable(bound) && !root.needWriting && host.blocks == target
      requires Stored(host.blocks, userKey, meta, tree) && Inv(Now().(needWriting := false), bound)
      requires Reopen(host.blocks, userKey) == Snapshot(Replay(hist))
      requires META_DATA_PHY_NUM in target && target[META_DATA_PHY_NUM] == MetaBlock(false, metaSeal)
      requires !flush ==> LogInv(log, baseline, over, s.disk) && LogsDirty(entries, s.All()) && PreImages(s)
      requires forall p :: p >= 1 && !IsDirty(s.All(), p) && p in target ==> p in s.disk && target[p] == s.disk[p]
      requires if flush then journal.log == [] else journal.log == log + entries
      modifies `flushedAt, `baseline, `over, `needWriting
      ensures Sound() && Inv(Now(), bound) && Book() && !needWriting && flushedAt == Some(|hist|)
      ensures Bytes() == old(Bytes()) && Cached() == old(Cached())
      ensures !flush ==> over == Overwritten(old(over), s.All())
    {
      hide FileInner.Sound;
      hide Inv;
      hide Ready;
      hide Stored;
      hide Reopen;
      hide Replay;
      hide Contents;
      hide GoodTrail;
      hide FileInner.Cached;
      hide LogsDirty;
      hide LogInv;
      FreshLog(host.blocks);
      if !flush {
        FlushLogs(s, log, entries, baseline, over, target);
      }
      ghost var since := if flush then map[] else Overwritten(over, s.All());
      ghost var base := if flush then host.blocks else baseline;
      assert LogInv(journal.log, base, since, host.blocks);
      MarkClean(base, since);
      HostValid();
      ShownWhole();
    }

    /** Where the write-out ends: the metadata block with a clear flag, and every clean node as it was. */
    lemma TargetKeeps(bound: nat, s: State, oldSeal: MetaSeal)
      requires Resumable(bound) && SameFlags(s.All(), Every())
      requires host.blocks == s.disk || host.blocks == Flagged(s.disk, true, oldSeal)
      ensures var target := Target(Now(), metaSeal);
              && META_DATA_PHY_NUM in target && target[META_DATA_PHY_NUM] == MetaBlock(false, metaSeal)
              && (forall p :: p >= 1 && !IsDirty(s.All(), p) && p in target ==> p in s.disk && target[p] == s.disk[p])
    {
      hide FileInner.Sound;
      hide Ready;
      hide GoodTrail;
      hide Replay;
      hide Contents;
      hide FileInner.Cached;
      hide SameFlags;
      hide Target;
      ReadyMirrors(Now(), bound);
      FlushTarget(s, Now(), metaSeal, oldSeal);
    }

    /** Writes the sealed file out and marks it clean. */
    method Complete(flush: bool, ghost bound: nat, ghost s: State, ghost log: seq<Entry<Block>>,
                    ghost entries: seq<Entry<Block>>, ghost oldSeal: MetaSeal) returns (ok: bool)
      requires Resumable(bound) && SameFlags(s.All(), Every())
      requires host.blocks == s.disk || host.blocks == Flagged(s.disk, true, oldSeal)
      requires LogsDirty(entries, s.All()) && journal.log == log + entries
      requires !flush ==> LogInv(log, baseline, over, s.disk) && PreImages(s)
      modifies `needWriting, `status, `flushedAt, `baseline, `over, pool, root, host, journal
      ensures GoodTrail(host.trail, userKey, hist) && EndTrail(old(host.trail), host.trail, userKey, hist)
      ensures ok ==> Reopen(host.blocks, userKey) == Snapshot(Replay(hist))
      ensures ok ==> Sound() && Inv(Now(), bound) && Book() && !needWriting && status == old(status)
      ensures ok ==> forall x :: !IsDirty(Cached(), x)
      ensures ok ==> Bytes() == old(Bytes())
      ensures ok && flush ==> journal.log == []
      ensures ok && !flush ==> FirstLogged(journal.log, old(over), s.nodes) && over == Overwritten(old(over), s.All())
      ensures ok ==> CleanKept(old(Cached()), Cached())
      ensures !ok ==> status == WriteToDiskFailed && Resumable(bound) && Bytes() == old(Bytes())
      ensures !ok && flush && !root.needWriting && host.reliable && host.nblocks > 0 && journal.appends ==> Uncommitted(journal.log) == []
      ensures Serves(bound) ==> ok
    {
      hide FileInner.Every;
      hide Uncommitted;
      hide FileInner.Serves;
      hide FileInner.Sound;
      hide Inv;
      hide Ready;
      hide Stored;
      hide Reopen;
      hide Replay;
      hide Contents;
      hide GoodTrail;
      hide FileInner.Cached;
      hide LogsDirty;
      hide LogInv;
      hide FirstLogged;
      hide EndTrail;
      hide Target;
      hide SameFlags;
      hide CleanKept;
      hide PreImages;
      hide FileInner.Book;
      TargetKeeps(bound, s, oldSeal);
      if !flush {
        FlushFirstLogged(s, log, entries, baseline, over);
      }
      ok := WriteOut(flush, bound);
      if !ok {
        status := WriteToDiskFailed;
        return;
      }
      ReadyClean(Now(), bound);
      Conclude(flush, bound, s, log, entries, host.blocks);
    }

    /** A flush of a file that has something to write. */
    method FlushChanges(flush: bool, ghost bound: nat) returns (ok: bool)
      requires Unsaved(bound) && status != WriteToDiskFailed
      requires !flush ==> Inv(Now(), bound) && Book()
      modifies `tree, `meta, `metaSeal, `updateFlag, `needWriting, `status, `flushedAt, `baseline, `over
      modifies pool, root, host, journal
      ensures GoodTrail(host.trail, userKey, hist)
      ensures TornTrail(old(host.trail), host.trail, old(Restored()), userKey, hist, old(flushedAt).Some?)
      ensures ok ==> EndTrail(old(host.trail), host.trail, userKey, hist) && Reopen(host.blocks, userKey) == Snapshot(Replay(hist))
      ensures ok ==> Sound() && Inv(Now(), bound) && Book() && !needWriting && status == old(status)
      ensures ok ==> forall x :: !IsDirty(Cached(), x)
      ensures Bytes() == old(Bytes()) && meta.size == old(meta.size)
      ensures ok && flush ==> journal.log == []
      ensures ok && !flush ==> FirstLogged(journal.log, old(over), old(Cached())) && over == Overwritten(old(over), old(Every()))
      ensures ok ==> CleanKept(old(Cached()), Cached())
      ensures !ok ==> Failed(bound)
      ensures !ok && status == WriteToDiskFailed && flush && !root.needWriting && host.reliable && host.nblocks > 0 && journal.appends ==> Uncommitted(journal.log) == []
      ensures !ok && status != WriteToDiskFailed ==>
                old(journal.log) <= journal.log || (journal.log == [] && host.trail == old(host.trail))
      ensures !ok && status != WriteToDiskFailed && host.reliable && host.nblocks > 0 ==>
                host.blocks == old(host.blocks) || host.blocks == old(Restored())
      ensures Serves(bound) ==> ok
    {
      hide Uncommitted;
      hide FileInner.Serves;
      hide FileInner.Sound;
      hide Inv;
      hide Pending;
      hide Ready;
      hide Stored;
      hide Reopen;
      hide Replay;
      hide Contents;
      hide GoodTrail;
      hide FileInner.Cached;
      hide LogsDirty;
      hide LogInv;
      hide FirstLogged;
      hide TornTrail;
      hide EndTrail;
      hide FlagTrail;
      hide SameFlags;
      hide CleanKept;
      hide FileInner.Resumable;
      ghost var s, log := Now(), journal.log;
      ghost var prior, base, seal, at := host.trail, host.blocks, metaSeal, flushedAt;
      if !flush {
        InvRoot(s, bound);
      }
      ghost var entries;
      ok, entries := Prepare(flush, bound);
      FlagTrailTorn(prior, host.trail, base, userKey, seal, hist, at.Some?);
      if !ok {
        return;
      }
      ghost var mid, flagged, sealed := host.trail, host.blocks, Cached();
      ok := Complete(flush, bound, s, log, entries, seal);
      SameFlagsClean(s.nodes, sealed, Cached());
      EndTrailTorn(mid, host.trail, Flagged(base, false, seal), userKey, hist, at.Some?);
      TornTrailTrans(prior, mid, host.trail, Flagged(base, false, seal), userKey, hist, at.Some?);
      EndTrailFrom(prior, mid, host.trail, base, flagged, userKey, seal, hist);
    }

    /**
      The flush protocol.  Every image of the data region it passes through is refused, the file
      before, or the file after; when it succeeds only the last one is not refused.  A flush that
      fails leaves the file as it was, to be flushed again.
     */
    method InternalFlush(flush: bool, ghost bound: nat) returns (ok: bool)
      requires status != WriteToDiskFailed && (needWriting ==> Unsaved(bound))
      requires !flush || !needWriting ==> Sound() && Inv(Now(), bound) && Book()
      modifies `tree, `meta, `metaSeal, `updateFlag, `needWriting, `status, `flushedAt, `baseline, `over
      modifies pool, root, host, journal
      ensures GoodTrail(host.trail, userKey, hist)
      ensures TornTrail(old(host.trail), host.trail, old(Restored()), userKey, hist, old(flushedAt).Some?)
      ensures ok && old(needWriting) ==>
                EndTrail(old(host.trail), host.trail, userKey, hist) && Reopen(host.blocks, userKey) == Snapshot(Replay(hist))
      ensures ok ==> Sound() && Inv(Now(), bound) && Book() && !needWriting && status == old(status)
      ensures ok ==> forall x :: !IsDirty(Cached(), x)
      ensures Bytes() == old(Bytes()) && meta.size == old(meta.size)
      ensures ok && flush && old(needWriting) ==> journal.log == []
      ensures ok && !flush && old(needWriting) ==>
                FirstLogged(journal.log, old(over), old(Cached())) && over == Overwritten(old(over), old(Every()))
      ensures ok ==> CleanKept(old(Cached()), Cached())
      ensures !old(needWriting) ==> journal.log == old(journal.log) && over == old(over)
      ensures !ok ==> Failed(bound)
      ensures !ok && status == WriteToDiskFailed && flush && !root.needWriting && host.reliable && host.nblocks > 0 && journal.appends ==> Uncommitted(journal.log) == []
      ensures !ok && status != WriteToDiskFailed ==>
                old(journal.log) <= journal.log || (journal.log == [] && host.trail == old(host.trail))
      ensures !ok && status != WriteToDiskFailed && host.reliable && host.nblocks > 0 ==>
                host.blocks == old(host.blocks) || host.blocks == old(Restored())
      ensures Serves(bound) ==> ok
    {
      hide Uncommitted;
      hide FileInner.Serves;
      hide FileInner.Sound;
      hide Inv;
      hide Pending;
      hide Ready;
      hide Stored;
      hide Reopen;
      hide Replay;
      hide Contents;
      hide GoodTrail;
      hide FileInner.Cached;
      hide LogInv;
      hide FirstLogged;
      hide TornTrail;
      hide EndTrail;
      hide CleanKept;
      hide FileInner.Failed;
      if !needWriting {
        CleanInv(Now(), bound);
        BookTrail();
        CleanKeptSelf(Cached());
        TornTrailSelf(host.trail, Restored(), userKey, hist, flushedAt.Some?);
        return true;
      }
      ok := FlushChanges(flush, bound);
    }

    // ---------------------------------------------------------------- eviction

    /** Takes the tail out of the cache. */
    method DropBack(ghost p: nat)
      requires Sound() && cache.order != [] && p == cache.order[|cache.order| - 1]
      requires forall k :: IsDirty(Cached(), k) ==> k >= 2 && k != p && Parent(k) != p
      modifies cache, cache.list, cache.list.footprint
      ensures Sound() && Cached() == old(Cached()) - {p} && cache.list.footprint == old(cache.list.footprint)
      ensures cache.order == old(cache.order)[..|old(cache.order)| - 1] && cache.values == old(cache.values) - {p}
    {
      hide LruCache.Valid;
      hide LogicOf;
      hide IsDataNode;
      hide Parent;
      CachedKeys();
      assert forall k :: k in cache.values && cache.values[k].needWriting ==> IsDirty(Cached(), k);
      var _ := cache.PopBack();
    }

    /** Drops the clean node at the tail of the cache. */
    method EvictBack(ghost bound: nat)
      requires Sound() && Inv(Now(), bound) && cache.order != [] && !IsDirty(Cached(), cache.order[|cache.order| - 1])
      modifies cache, cache.list, cache.list.footprint
      ensures Sound() && Inv(Now(), bound) && cache.list.footprint == old(cache.list.footprint)
      ensures cache.order == old(cache.order)[..|old(cache.order)| - 1]
      ensures cache.values == old(cache.values) - {old(cache.order)[|old(cache.order)| - 1]}
      ensures Cached() == old(Cached()) - {old(cache.order)[|old(cache.order)| - 1]}
      ensures old(AllRight() && Ordered(cache.order)) ==> AllRight() && Ordered(cache.order)
    {
      hide FileInner.Sound;
      hide Inv;
      hide Parent;
      hide Ordered;
      hide FileInner.Cached;
      ghost var before, order := Now(), cache.order;
      ghost var p := order[|order| - 1];
      OrderListed();
      EvictKeeps(before, bound, p);
      EvictedStaysRight(cache.values, root, order);
      EvictedDirty(before, bound, p);
      DropBack(p);
      assert Now() == Evicted(before, p);
    }

    lemma OrderListed()
      requires Sound()
      ensures Distinct(cache.order) && (forall k :: k in cache.values <==> k in cache.order)
      ensures forall i :: 0 <= i < |cache.order| ==> cache.order[i] >= 2
    {
      hide LruCache.Valid;
      cache.KeysListed();
      assert forall i :: 0 <= i < |cache.order| ==> cache.order[i] in cache.values;
    }

    /** The node at the tail: its number and whether it is dirty. */
    method BackDirty() returns (dirty: bool)
      requires Sound() && cache.order != []
      ensures dirty == IsDirty(Cached(), cache.order[|cache.order| - 1])
    {
      hide LruCache.Valid;
      hide LogicOf;
      hide IsDataNode;
      hide ParentIs;
      var back := cache.Back();
      dirty := back.value.needWriting;
    }

    method CacheLen() returns (n: nat)
      requires Sound()
      ensures n == |cache.order|
    {
      n := cache.Len();
    }

    /** A cached node that has not been changed since it joined, nor overwritten since the last reset. */
    ghost predicate LoadedNew(p: nat)
      reads `over, `pool, cache, pool
    {
      p in Cached() && !Cached()[p].dirty && Cached()[p].newNode && p !in over
    }

    /** An eviction's flush leaves such a node alone. */
    lemma StaysLoadedNew(nodes: Nodes, root: NodeVal, was: map<nat, bool>, p: nat)
      requires p >= 2 && p in nodes && !nodes[p].dirty && nodes[p].newNode && p !in was
      requires CleanKept(nodes, Cached()) && over == Overwritten(was, nodes[ROOT_MHT_PHY_NUM := root])
      ensures LoadedNew(p)
    {
      hide FileInner.Cached;
    }

    /** One round of shrinking: drop a clean tail, or flush because the tail is dirty. */
    method ShrinkStep(ghost bound: nat, ghost right: bool) returns (ok: bool)
      requires Sound() && Inv(Now(), bound) && Book() && status == StatusOk && cache.order != []
      requires right ==> AllRight() && Ordered(cache.order)
      modifies `tree, `meta, `metaSeal, `updateFlag, `needWriting, `status, `flushedAt, `baseline, `over
      modifies pool, root, host, journal, cache, cache.list, cache.list.footprint
      ensures GoodTrail(host.trail, userKey, hist) && cache.list.footprint == old(cache.list.footprint)
      ensures ok ==> Sound() && Inv(Now(), bound) && Book() && status == StatusOk
      ensures Bytes() == old(Bytes()) && meta.size == old(meta.size)
      ensures ok && right ==> AllRight() && Ordered(cache.order)
      ensures ok ==>
                || (cache.order == old(cache.order)[..|old(cache.order)| - 1] && Restricts(cache.values, old(cache.values)))
                || (cache.order == old(cache.order) && cache.values == old(cache.values) && old(needWriting) && !needWriting)
      ensures ok ==> forall p :: old(LoadedNew(p)) && p in cache.values ==> LoadedNew(p)
      ensures !ok ==> Failed(bound) && status != StatusOk
      ensures Serves(bound) ==> ok
    {
      hide FileInner.Serves;
      hide CleanKept;
      hide FileInner.Sound;
      hide Inv;
      hide FileInner.Book;
      hide GoodTrail;
      hide Ordered;
      hide AllLinked;
      hide FileInner.Cached;
      hide Contents;
      hide FileInner.Failed;
      hide FileInner.Unsaved;
      BookTrail();
      ok := true;
      var dirty := BackDirty();
      if !dirty {
        EvictBack(bound);
      } else {
        DirtyNeedsWriting(Now(), bound, cache.order[|cache.order| - 1]);
        BookUnsaved(bound);
        ghost var nodes, top, was := Cached(), root.Val(), over;
        RootNotCached();
        ok := InternalFlush(false, bound);
        if !ok {
          NoteFailure(bound);
        } else {
          forall p | p in nodes && !nodes[p].dirty && nodes[p].newNode && p !in was ensures LoadedNew(p) {
            StaysLoadedNew(nodes, top, was, p);
          }
        }
      }
    }

    /** A file in order between two rounds of shrinking. */
    ghost predicate Steady(bound: nat, right: bool)
      reads this, host, journal, root, cache, cache.list, cache.list.footprint, pool
    {
      && Sound() && Inv(Now(), bound) && Book() && status == StatusOk
      && (right ==> AllRight() && Ordered(cache.order))
    }

    /**
      Evicts from the tail until the cache fits.  A dirty tail is written back by a flush first, so
      the cache keeps exactly its first `maxCachePage` nodes.
     */
    method ShrinkCache(ghost bound: nat, ghost right: bool) returns (ok: bool)
      requires Sound() && Inv(Now(), bound) && Book() && status == StatusOk
      requires right ==> AllRight() && Ordered(cache.order)
      modifies `tree, `meta, `metaSeal, `updateFlag, `needWriting, `status, `flushedAt, `baseline, `over
      modifies pool, root, host, journal, cache, cache.list, cache.list.footprint
      ensures GoodTrail(host.trail, userKey, hist) && cache.list.footprint == old(cache.list.footprint)
      ensures ok ==> Sound() && Inv(Now(), bound) && Book() && status == StatusOk
      ensures Bytes() == old(Bytes()) && meta.size == old(meta.size)
      ensures ok ==> cache.order == Prefix(old(cache.order), maxCachePage)
      ensures ok ==> Restricts(cache.values, old(cache.values))
      ensures ok && right ==> AllRight() && Ordered(cache.order)
      ensures ok ==> forall p :: old(LoadedNew(p)) && p in cache.values ==> LoadedNew(p)
      ensures !ok ==> Failed(bound) && status != StatusOk
      ensures Serves(bound) ==> ok
    {
      hide FileInner.Serves;
      hide FileInner.LoadedNew;
      hide FileInner.Sound;
      hide Inv;
      hide FileInner.Book;
      hide GoodTrail;
      hide Ordered;
      hide FileInner.AllRight;
      hide FileInner.Cached;
      hide Contents;
      hide FileInner.Failed;
      RestrictsTrans(cache.values, cache.values, cache.values);
      ok := true;
      BookTrail();
      var n := CacheLen();
      while n > maxCachePage
        invariant ok && n == |cache.order| && cache.order <= old(cache.order)
        invariant n == |old(cache.order)| || n >= maxCachePage
        invariant GoodTrail(host.trail, userKey, hist) && cache.list.footprint == old(cache.list.footprint)
        invariant Steady(bound, right)
        invariant forall p :: old(LoadedNew(p)) && p in cache.values ==> LoadedNew(p)
        invariant Bytes() == old(Bytes()) && meta.size == old(meta.size)
        invariant Restricts(cache.values, old(cache.values))
        decreases n, needWriting
      {
        ghost var mid := cache.values;
        ok := ShrinkStep(bound, right);
        if !ok {
          return;
        }
        RestrictsTrans(cache.values, mid, old(cache.values));
        n := CacheLen();
      }
    }

    lemma BookTrail()
      requires Book()
      ensures GoodTrail(host.trail, userKey, hist)
    {
      hide GoodTrail;
      GoodTrailPrefix(host.trail, Restored(), userKey, hist);
    }

    /** Making room in the tree beyond its live part leaves the books alone. */
    lemma BookSameLive(was: Tree)
      requires Ledger(hist) && Replay(hist) == Contents(meta.size, meta.data, tree)
      requires SameLive(was, tree, NodeCount(meta.size))
      requires !needWriting ==> flushedAt.Some? && Stored(host.blocks, userKey, meta, was)
      ensures Book()
    {
      hide Stored;
      hide SameLive;
      hide FileInner.Ledger;
      hide Replay;
      hide Contents;
      if !needWriting {
        SameLiveStored(host.blocks, userKey, meta, was, tree);
      }
    }

    /** The cursor's data node joins the cache if it is not there. */
    method FetchDataNode(ghost bound: nat) returns (r: Option<FileNode>)
      requires FetchPre(bound) && Book()
      modifies `pool, `tree, cache, cache.list, cache.list.footprint
      ensures Sound() && AllRight() && Inv(Now(), bound) && Book() && Bytes() == old(Bytes())
      ensures fresh(cache.list.footprint - old(cache.list.footprint)) && fresh(pool - old(pool))
      ensures var p := GetNodeNumbers(offset).dataPhys;
              r.Some? ==>
                && p in cache.values && r.value == cache.values[p] && Near(cache.order, Parent(p))
                && if p in old(cache.values) then cache.order == old(cache.order) else |cache.order| > 0 && cache.order[0] == p
      ensures r.Some? && GetNodeNumbers(offset).dataPhys !in old(cache.values) ==> r.value.newNode && !r.value.needWriting
      ensures r.None? ==> Stacks(old(cache.order), cache.order)
      ensures AtNewNode() && GetNodeNumbers(offset).dataPhys in old(cache.values) ==> r.None?
      ensures host.reliable && old(CachedWithin(Now(), NodeCount(meta.size))) ==> r.Some?
    {
      hide Stacks;
      hide OnTop;
      hide FileInner.Now;
      hide GetNodeNumbers;
      hide Parent;
      hide CachedWithin;
      hide FileInner.Sound;
      hide FileInner.AllRight;
      hide Inv;
      hide Stored;
      hide SameLive;
      hide FileInner.Ledger;
      hide Replay;
      hide Contents;
      hide Near;
      hide Ordered;
      hide FileInner.Cached;
      ghost var was := tree;
      if AtNewNode() {
        r := AppendDataNode(bound);
      } else {
        r := ReadDataNode(bound);
      }
      BookSameLive(was);
    }

    /** An open file between operations. */
    ghost predicate Valid()
      reads this, host, journal, root, cache, cache.list, cache.list.footprint, pool
    {
      && Sound() && AllRight() && Ordered(cache.order) && |cache.order| <= maxCachePage
      && Inv(Now(), NodeCount(meta.size)) && Book()
      && status == StatusOk && !lastError && offset <= meta.size
    }

    /** The flat file this file stands for. */
    ghost function View(): Flat
      reads this
    {
      Flat(Bytes(), offset, endOfFile)
    }

    /** How many data nodes there are once the cursor's node is fetched. */
    ghost function FetchBound(): nat
      requires offset >= MD_USER_DATA_SIZE
      reads this
    {
      NodeCount(meta.size) + if AtNewNode() then 1 else 0
    }

    /**
      A fetch, and what it leaves of the cache order when it fails: the parent references stay right,
      and the order survives exactly if no node was pushed, or one child of the root.
     */
    method FetchStacked(ghost bound: nat) returns (r: Option<FileNode>)
      requires FetchPre(bound) && Book()
      modifies `pool, `tree, cache, cache.list, cache.list.footprint
      ensures Sound() && AllRight() && Inv(Now(), bound) && Book() && Bytes() == old(Bytes())
      ensures fresh(cache.list.footprint - old(cache.list.footprint)) && fresh(pool - old(pool))
      ensures var p := GetNodeNumbers(offset).dataPhys;
              r.Some? ==>
                && p in cache.values && r.value == cache.values[p] && Near(cache.order, Parent(p))
                && if p in old(cache.values) then cache.order == old(cache.order) else |cache.order| > 0 && cache.order[0] == p
      ensures r.Some? && GetNodeNumbers(offset).dataPhys !in old(cache.values) ==> r.value.newNode && !r.value.needWriting
      ensures r.None? ==> (Ordered(cache.order) <==> OneChild(old(cache.order), cache.order))
      ensures AtNewNode() && GetNodeNumbers(offset).dataPhys in old(cache.values) ==> r.None?
      ensures host.reliable && old(CachedWithin(Now(), NodeCount(meta.size))) ==> r.Some?
    {
      hide OneChild;
      hide Stacks;
      hide Parent;
      hide CachedWithin;
      hide FileInner.Now;
      hide FileInner.Sound;
      hide FileInner.AllRight;
      hide Inv;
      hide FileInner.Book;
      hide Contents;
      hide Near;
      hide Ordered;
      hide GetNodeNumbers;
      hide FileInner.Cached;
      OrderListed();
      r := FetchDataNode(bound);
      if r.None? {
        ghost var order := cache.order;
        OrderListed();
        StackOrdered(old(cache.order), order);
      }
    }

    /** Fetches the cursor's node and bumps its ancestors to the head. */
    method FetchAndBump(ghost bound: nat) returns (r: Option<FileNode>)
      requires FetchPre(bound) && Book() && |cache.order| <= maxCachePage
      modifies `pool, `tree, cache, cache.list, cache.list.footprint
      ensures Sound() && Inv(Now(), bound) && Book() && Bytes() == old(Bytes())
      ensures fresh(cache.list.footprint - old(cache.list.footprint)) && fresh(pool - old(pool))
      ensures var nn := GetNodeNumbers(offset);
              r.Some? ==>
                && AllRight() && Ordered(cache.order)
                && nn.dataPhys in cache.values && r.value == cache.values[nn.dataPhys]
                && (Depth(nn.mhtLogic) < maxCachePage ==> nn.dataPhys in Prefix(cache.order, maxCachePage))
      ensures r.Some? && GetNodeNumbers(offset).dataPhys !in old(cache.values) ==> r.value.newNode && !r.value.needWriting
      ensures host.reliable && old(CachedWithin(Now(), NodeCount(meta.size))) ==> r.Some?
    {
      hide CachedWithin;
      hide FileInner.Sound;
      hide FileInner.AllRight;
      hide Inv;
      hide FileInner.Book;
      hide Contents;
      hide Near;
      hide Ordered;
      hide FileInner.Cached;
      hide Bumped;
      var nn := GetNodeNumbers(offset);
      NumberingInverts(offset);
      OrderListed();
      ghost var p := nn.dataPhys;
      r := FetchStacked(bound);
      if r.Some? {
        OrderListed();
        ghost var order := cache.order;
        BumpMhtNode(r.value, p);
        OrderListed();
        SubLength(cache.order, order);
        if p !in old(cache.values) {
          FetchedPlace(order, p, nn.mhtLogic, maxCachePage);
        }
      }
    }

    /** The cursor's node is cached as `node`, linked up to the root. */
    ghost predicate HasNode(bound: nat, node: FileNode)
      reads this, host, journal, root, cache, cache.list, cache.list.footprint, pool
    {
      && Sound() && AllRight() && Ordered(cache.order) && |cache.order| <= maxCachePage
      && Inv(Now(), bound) && Book() && status == StatusOk && !lastError && offset <= meta.size
      && var p := GetNodeNumbers(offset).dataPhys;
      && p in cache.values && node == cache.values[p]
    }

    /** Shrinks the cache around the cursor's node, which stays if it is among the first places. */
    method ShrinkAround(node: FileNode, ghost bound: nat) returns (ok: bool)
      requires Sound() && Inv(Now(), bound) && Book() && status == StatusOk && AllRight() && Ordered(cache.order)
      requires offset <= meta.size && !lastError
      requires var p := GetNodeNumbers(offset).dataPhys;
               p in cache.values && node == cache.values[p] && p in Prefix(cache.order, maxCachePage)
      modifies `tree, `meta, `metaSeal, `updateFlag, `needWriting, `status, `flushedAt, `baseline, `over
      modifies pool, root, host, journal, cache, cache.list, cache.list.footprint
      ensures GoodTrail(host.trail, userKey, hist) && cache.list.footprint == old(cache.list.footprint)
      ensures Bytes() == old(Bytes()) && meta.size == old(meta.size)
      ensures ok ==> HasNode(bound, node)
      ensures ok && old(LoadedNew(GetNodeNumbers(offset).dataPhys)) ==> LoadedNew(GetNodeNumbers(offset).dataPhys)
      ensures !ok ==> Failed(bound) && status != StatusOk
      ensures Serves(bound) ==> ok
    {
      hide FileInner.Serves;
      hide FileInner.LoadedNew;
      hide FileInner.Sound;
      hide FileInner.AllRight;
      hide Inv;
      hide FileInner.Book;
      hide Contents;
      hide Ordered;
      hide FileInner.Cached;
      hide GoodTrail;
      hide Prefix;
      hide GetNodeNumbers;
      hide FileInner.Failed;
      ok := ShrinkCache(bound, true);
      if ok {
        OrderListed();
      }
    }

    /** Fetch, bump and shrink; a failed fetch shrinks too. */
    method FetchAndShrink(ghost bound: nat) returns (r: Option<FileNode>)
      requires FetchPre(bound) && Book() && |cache.order| <= maxCachePage && status == StatusOk && !lastError
      requires Depth(GetNodeNumbers(offset).mhtLogic) < maxCachePage
      modifies `tree, `meta, `metaSeal, `updateFlag, `needWriting, `status, `flushedAt, `baseline, `over, `pool
      modifies pool, root, host, journal, cache, cache.list, cache.list.footprint
      ensures GoodTrail(host.trail, userKey, hist)
      ensures fresh(cache.list.footprint - old(cache.list.footprint)) && fresh(pool - old(pool))
      ensures Bytes() == old(Bytes()) && meta.size == old(meta.size)
      ensures r.Some? ==> HasNode(bound, r.value)
      ensures r.Some? && GetNodeNumbers(offset).dataPhys !in old(cache.values) && GetNodeNumbers(offset).dataPhys !in old(over) ==> LoadedNew(GetNodeNumbers(offset).dataPhys)
      ensures r.None? ==> Clearable(bound)
      ensures Serves(bound) && old(CachedWithin(Now(), NodeCount(meta.size))) ==> r.Some?
    {
      hide CachedWithin;
      hide FileInner.Sound;
      hide FileInner.AllRight;
      hide Inv;
      hide FileInner.Book;
      hide Contents;
      hide Ordered;
      hide FileInner.Cached;
      hide GoodTrail;
      hide GetNodeNumbers;
      hide NodeCount;
      hide Depth;
      hide Prefix;
      hide FileInner.Failed;
      hide FileInner.HasNode;
      r := FetchAndBump(bound);
      if r.None? {
        var _ := ShrinkCache(bound, false);
      } else {
        CachedKeys();
        var ok := ShrinkAround(r.value, bound);
        r := if ok then r else None;
      }
    }

    /**
      What a failed operation leaves: nothing of the file is lost, and `clear_error` or `clear_cache`
      can take it up.  One node may be cached beyond the end of the file.
     */
    ghost predicate Broken()
      reads this, host, journal, root, cache, cache.list, cache.list.footprint, pool
    {
      Clearable(NodeCount(meta.size) + 1)
    }

    lemma ValidBroken()
      requires Valid()
      ensures Broken()
    {
      hide FileInner.Sound;
      hide Inv;
      hide FileInner.Book;
      hide FileInner.Failed;
      hide FileInner.Cached;
      PendingWidens(Now(), NodeCount(meta.size), NodeCount(meta.size) + 1);
    }

    /** The bytes of a file that can be cleared are those of its history. */
    lemma ClearableBytes(bound: nat)
      requires Clearable(bound)
      ensures Replay(hist) == Bytes() && offset <= meta.size
    {
      hide FileInner.Sound;
      hide Inv;
      hide FileInner.Ledger;
      hide FileInner.Shown;
      hide Pending;
      hide Ready;
      hide GoodTrail;
      hide Replay;
      hide Contents;
      hide FileInner.Cached;
    }

    method NoteError()
      requires Broken()
      modifies `lastError
      ensures Broken() && lastError
    {
      hide FileInner.Sound;
      hide Inv;
      hide FileInner.Ledger;
      hide FileInner.Shown;
      hide Pending;
      hide Ready;
      hide GoodTrail;
      hide Replay;
      hide Contents;
      hide Stored;
      hide FileInner.Cached;
      lastError := true;
    }

    method ResetCursor(to: nat)
      requires Broken() && to <= meta.size
      modifies `offset
      ensures Broken() && offset == to
    {
      hide FileInner.Sound;
      hide Inv;
      hide FileInner.Ledger;
      hide FileInner.Shown;
      hide Pending;
      hide Ready;
      hide GoodTrail;
      hide Replay;
      hide Contents;
      hide Stored;
      hide FileInner.Cached;
      offset := to;
    }

    /** The cursor's data node, with the cache back within its capacity. */
    method GetDataNode() returns (r: Option<FileNode>)
      requires Valid()
      requires offset >= MD_USER_DATA_SIZE ==> Depth(GetNodeNumbers(offset).mhtLogic) < maxCachePage
      modifies `tree, `meta, `metaSeal, `updateFlag, `needWriting, `status, `flushedAt, `baseline, `over, `pool
      modifies pool, root, host, journal, cache, cache.list, cache.list.footprint
      ensures GoodTrail(host.trail, userKey, hist)
      ensures fresh(cache.list.footprint - old(cache.list.footprint)) && fresh(pool - old(pool))
      ensures r.Some? ==> offset >= MD_USER_DATA_SIZE
      ensures r.Some? ==> HasNode(FetchBound(), r.value)
      ensures Bytes() == old(Bytes()) && meta.size == old(meta.size)
      ensures r.Some? && GetNodeNumbers(offset).dataPhys !in old(cache.values) && GetNodeNumbers(offset).dataPhys !in old(over) ==> LoadedNew(GetNodeNumbers(offset).dataPhys)
      ensures r.None? ==> Broken()
      ensures old(offset) >= MD_USER_DATA_SIZE && Serves(old(FetchBound())) ==> r.Some?
    {
      hide FileInner.Clearable;
      hide FileInner.Serves;
      hide FileInner.LoadedNew;
      hide FileInner.Sound;
      hide FileInner.AllRight;
      hide Inv;
      hide FileInner.Book;
      hide Contents;
      hide Ordered;
      hide FileInner.Cached;
      hide GoodTrail;
      hide GetNodeNumbers;
      hide NodeCount;
      hide Depth;
      hide FileInner.HasNode;
      hide CachedWithin;
      BookTrail();
      ValidBroken();
      if offset < MD_USER_DATA_SIZE {
        return None;
      }
      InvCached(Now(), NodeCount(meta.size));
      if AtNewNode() {
        InvWidens(Now());
      }
      ghost var bound := FetchBound();
      r := FetchAndShrink(bound);
      if r.None? {
        ClearableWidens(bound, NodeCount(meta.size) + 1);
      }
    }

    // ---------------------------------------------------------------- writing

    /** A device that serves the file after a write serves every fetch on the way. */
    lemma TurnServed(total: nat)
      requires MD_USER_DATA_SIZE <= offset <= meta.size <= total && offset < total
      ensures Serves(NodeCount(total)) ==> Serves(FetchBound())
    {
      hide FileInner.Serves;
      FetchCount(offset, meta.size, total);
      if Serves(NodeCount(total)) {
        ServesLess(NodeCount(total), FetchBound());
      }
    }

    lemma ServesSize(size: nat, smaller: nat)
      requires smaller <= size
      ensures Serves(NodeCount(size)) ==> Serves(NodeCount(smaller))
    {
      hide FileInner.Serves;
      CountMonotone(smaller, size);
      if Serves(NodeCount(size)) {
        ServesLess(NodeCount(size), NodeCount(smaller));
      }
    }

    /** Copies a chunk into a data node's plaintext. */
    method PutBytes(node: FileNode, ghost p: nat, o: nat, chunk: seq<Byte>)
      requires Sound() && p in cache.values && node == cache.values[p]
      requires node.plain.DataPlain? && o + |chunk| <= |node.plain.bytes|
      modifies pool`plain
      ensures Sound() && p in old(Cached())
      ensures Cached() == old(Cached())[p := old(Cached())[p].(plain := DataPlain(Splice(old(node.plain.bytes), o, chunk)))]
    {
      hide LruCache.Valid;
      hide LogicOf;
      hide IsDataNode;
      hide ParentIs;
      hide Splice;
      node.plain := DataPlain(Splice(node.plain.bytes, o, chunk));
    }

    /** Marks a node and its non-root ancestors dirty. */
    method MarkNode(node: FileNode, ghost p: nat)
      requires Sound() && AllRight() && p in cache.values && node == cache.values[p] && p >= 2
      modifies pool`needWriting
      ensures Sound() && ChainCached(old(Cached()), p) && Cached() == MarkChain(old(Cached()), p)
    {
      hide FileInner.Sound;
      hide FileInner.Cached;
      hide AllLinked;
      hide ParentIs;
      CachedKeys();
      AllLinkedChain(cache.values, root, p);
      ChainLinkedCached(cache.values, root, Cached(), p);
      ParentBelow(p);
      ChainCachedUpdate(Cached(), Parent(p), p, Cached()[p].(dirty := true));
      LinkedParent(cache.values, root, p);
      MarkOne(node, p);
      MarkParents(node, p);
    }

    method MarkFile()
      requires Sound()
      modifies root`needWriting, `needWriting
      ensures Sound() && Cached() == old(Cached()) && root.Val() == old(root.Val()).(dirty := true) && needWriting
    {
      RootApart();
      hide FileInner.Sound;
      hide FileInner.Cached;
      root.needWriting := true;
      needWriting := true;
    }

    /** Marks a written node, its ancestors, the root and the file dirty, unless the node is already. */
    method MarkWritten(node: FileNode, ghost p: nat)
      requires Sound() && AllRight() && p in cache.values && node == cache.values[p] && p >= 2
      requires DirtyUp(Now()) && (root.needWriting ==> needWriting)
      modifies pool`needWriting, root`needWriting, `needWriting
      ensures Sound() && ChainCached(old(Cached()), p) && Cached() == MarkChain(old(Cached()), p)
      ensures root.Val() == old(root.Val()).(dirty := true) && needWriting
    {
      hide FileInner.Sound;
      hide FileInner.Cached;
      hide AllLinked;
      hide DirtyUp;
      hide MarkChain;
      hide ChainCached;
      CachedKeys();
      RootApart();
      if !node.needWriting {
        MarkNode(node, p);
        MarkFile();
      } else {
        MarkDirtyChain(Now(), p);
        DirtyReachesRoot(Now(), p);
      }
    }

    /** Moves the cursor past a written chunk and grows the file. */
    method Advance(len: nat, ghost plains: Tree, ghost chunk: seq<Byte>)
      modifies `meta, `offset, `tree, `hist
      ensures meta == old(meta).(size := Max(old(meta).size, old(offset) + len)) && offset == old(offset) + len
      ensures tree == plains && hist == old(hist) + Edits(old(offset), chunk)
      ensures Sound() == old(Sound()) && AllRight() == old(AllRight()) && Now() == old(Now()).(meta := meta, tree := plains)
      ensures Ledger(old(hist)) == old(Ledger(hist))
    {
      hide FileInner.Ledger;
      hide FileInner.Sound;
      hide FileInner.AllRight;
      hide FileInner.Cached;
      hide Edits;
      hist := hist + Edits(offset, chunk);
      offset := offset + len;
      if offset > meta.size {
        meta := meta.(size := offset);
      }
      tree := plains;
    }

    /** The books after a write: the history grows by the chunk's bytes. */
    lemma BookWrote(before: seq<Byte>, hist0: seq<Edit>, at: nat, chunk: seq<Byte>)
      requires at <= |before| && Replay(hist0) == before && hist == hist0 + Edits(at, chunk)
      requires Contents(meta.size, meta.data, tree) == Overwrite(before, at, chunk)
      requires Ledger(hist0) && needWriting
      ensures Book()
    {
      hide LogInv;
      hide GoodTrail;
      hide Reopen;
      hide Replay;
      hide Contents;
      hide Edits;
      hide Overwrite;
      ReplayChunk(hist0, at, chunk);
      GoodTrailGrows(host.trail + [Restored()], userKey, hist0, Edits(at, chunk));
      if flushedAt.Some? {
        ShowsMore(Restored(), userKey, hist0, Edits(at, chunk), flushedAt.value);
      }
    }

    /** The chunk is copied into the node, and node, ancestors, root and file are marked. */
    method StoreChunk(node: FileNode, ghost bound: nat, ghost p: nat, o: nat, chunk: seq<Byte>)
      requires Sound() && AllRight() && Inv(Now(), bound)
      requires p in cache.values && node == cache.values[p] && IsDataNode(p) && o + |chunk| <= NODE_SIZE
      modifies pool`plain, pool`needWriting, root`needWriting, `needWriting
      ensures Ledger(hist) == old(Ledger(hist))
      ensures Sound() && AllRight() && p >= 2 && ChainCached(old(Cached()), p) && p in tree && WellShaped(true, tree[p])
      ensures var w := Wrote(old(Now()), p, DataPlain(Splice(tree[p].bytes, o, chunk)), meta.size);
              Cached() == w.nodes && root.Val() == w.root && needWriting
    {
      hide FileInner.Ledger;
      hide FileInner.Sound;
      hide FileInner.Cached;
      hide AllLinked;
      hide DirtyUp;
      hide MarkChain;
      hide ChainCached;
      hide Inv;
      hide IsDataNode;
      hide Splice;
      ghost var s := Now();
      CachedKeys();
      RootApart();
      InvData(s, bound, p);
      InvRoot(s, bound);
      ghost var plain := DataPlain(Splice(tree[p].bytes, o, chunk));
      DirtyUpPlain(s, p, plain);
      PutBytes(node, p, o, chunk);
      assert Now() == s.(nodes := s.nodes[p := s.nodes[p].(plain := plain)]);
      MarkWritten(node, p);
      UpdatedChain(s.nodes, p, s.nodes[p].(plain := plain));
    }

    /** The chunk is stored, and cursor, size, tree and history follow. */
    method StoreAndAdvance(node: FileNode, ghost bound: nat, ghost p: nat, o: nat, chunk: seq<Byte>)
      requires Sound() && AllRight() && Inv(Now(), bound)
      requires p in cache.values && node == cache.values[p] && IsDataNode(p) && o + |chunk| <= NODE_SIZE
      modifies pool`plain, pool`needWriting, root`needWriting, `needWriting, `meta, `offset, `tree, `hist
      ensures Sound() && AllRight() && needWriting && Ledger(old(hist)) == old(Ledger(hist))
      ensures offset == old(offset) + |chunk| && hist == old(hist) + Edits(old(offset), chunk)
      ensures meta == old(meta).(size := Max(old(meta).size, old(offset) + |chunk|))
      ensures p >= 2 && p in old(tree) && WellShaped(true, old(tree)[p]) && ChainCached(old(Cached()), p)
      ensures Now() == Wrote(old(Now()), p, DataPlain(Splice(old(tree)[p].bytes, o, chunk)), meta.size)
    {
      hide FileInner.Sound;
      hide FileInner.AllRight;
      hide FileInner.Cached;
      hide FileInner.Ledger;
      hide MarkChain;
      hide ChainCached;
      hide Inv;
      hide IsDataNode;
      hide Splice;
      hide Edits;
      ghost var s := Now();
      StoreChunk(node, bound, p, o, chunk);
      ghost var plain := DataPlain(Splice(tree[p].bytes, o, chunk));
      Advance(|chunk|, tree[p := plain], chunk);
      assert Now() == Wrote(s, p, plain, meta.size);
    }

    /** One chunk into the cursor's node: the flat file sees an overwrite at the cursor. */
    method WriteChunk(node: FileNode, chunk: seq<Byte>)
      requires offset >= MD_USER_DATA_SIZE && HasNode(FetchBound(), node)
      requires chunk != [] && (offset - MD_USER_DATA_SIZE) % NODE_SIZE + |chunk| <= NODE_SIZE
      modifies pool`plain, pool`needWriting, root`needWriting, `needWriting, `meta, `offset, `tree, `hist
      ensures Valid() && offset == old(offset) + |chunk| && hist == old(hist) + Edits(old(offset), chunk)
      ensures meta.size == Max(old(meta.size), old(offset) + |chunk|)
      ensures View().bytes == Overwrite(old(View()).bytes, old(offset), chunk)
      ensures node.needWriting
    {
      hide FileInner.Sound;
      hide FileInner.AllRight;
      hide FileInner.Cached;
      hide AllLinked;
      hide Ordered;
      hide MarkChain;
      hide ChainCached;
      hide Inv;
      hide IsDataNode;
      hide Splice;
      hide Edits;
      hide Contents;
      hide Overwrite;
      hide FileInner.Ledger;
      hide Replay;
      hide GetNodeNumbers;
      hide NodeCount;
      ghost var s, bound, p := Now(), FetchBound(), GetNodeNumbers(offset).dataPhys;
      var o := (offset - MD_USER_DATA_SIZE) % NODE_SIZE;
      NumberingInverts(offset);
      ghost var hist0, at := hist, offset;
      StoreAndAdvance(node, bound, p, o, chunk);
      ChunkKeeps(s, bound, at, chunk);
      WroteDirty(s, p, DataPlain(Splice(s.tree[p].bytes, o, chunk)), meta.size);
      CachedKeys();
      BookWrote(s.Bytes(), hist0, at, chunk);
    }

    /** Copies a chunk into the metadata head and moves the cursor past it. */
    method PutHead(chunk: seq<Byte>)
      requires offset + |chunk| <= |meta.data|
      modifies `meta, `offset, `needWriting, `hist
      ensures Now() == HeadWrote(old(Now()), old(offset), chunk) && Sound() == old(Sound())
      ensures offset == old(offset) + |chunk| && needWriting && hist == old(hist) + Edits(old(offset), chunk)
      ensures Ledger(old(hist)) == old(Ledger(hist))
    {
      hide FileInner.Ledger;
      hide FileInner.Sound;
      hide FileInner.Cached;
      hide Edits;
      hide Splice;
      ghost var nodes := Cached();
      hist := hist + Edits(offset, chunk);
      meta := meta.(data := Splice(meta.data, offset, chunk));
      offset := offset + |chunk|;
      if offset > meta.size {
        meta := meta.(size := offset);
      }
      needWriting := true;
      assert Cached() == nodes;
    }

    /** A node that is dirty and still new, and not yet overwritten since the last reset. */
    ghost predicate ChangedNew(p: nat)
      reads `over, `pool, cache, pool
    {
      p in Cached() && Cached()[p].dirty && Cached()[p].newNode && p !in over
    }

    lemma LoadedThenChanged(p: nat, node: FileNode)
      requires Sound() && p in cache.values && node == cache.values[p]
      requires node.newNode && node.needWriting && p !in over
      ensures ChangedNew(p)
    {
      hide FileInner.Sound;
      CachedKeys();
    }

    lemma LoadedIsNew(p: nat)
      requires LoadedNew(p)
      ensures p in cache.values && cache.values[p].newNode && p !in over
    {
    }

    lemma ValidSound()
      requires Valid()
      ensures Sound() && Inv(Now(), NodeCount(meta.size)) && Book() && status == StatusOk
    {
    }

    /** Loads the cursor's node and changes it. */
    method ChangeLoaded(chunk: seq<Byte>) returns (ok: bool)
      requires Valid() && MD_USER_DATA_SIZE <= offset && chunk != []
      requires (offset - MD_USER_DATA_SIZE) % NODE_SIZE + |chunk| <= NODE_SIZE
      requires Depth(GetNodeNumbers(offset).mhtLogic) < maxCachePage
      requires GetNodeNumbers(offset).dataPhys !in cache.values && GetNodeNumbers(offset).dataPhys !in over
      modifies `tree, `meta, `metaSeal, `updateFlag, `needWriting, `status, `flushedAt, `baseline, `over, `pool, `offset, `hist
      modifies pool, root, host, journal, cache, cache.list, cache.list.footprint
      ensures GoodTrail(host.trail, userKey, hist)
      ensures fresh(cache.list.footprint - old(cache.list.footprint)) && fresh(pool - old(pool))
      ensures ok ==> Valid() && ChangedNew(GetNodeNumbers(old(offset)).dataPhys)
      ensures ok ==> View().bytes == Overwrite(old(View()).bytes, old(offset), chunk)
      ensures ok ==> meta.size == Max(old(meta.size), old(offset) + |chunk|)
      ensures Serves(old(FetchBound())) ==> ok
    {
      hide FileInner.Serves;
      hide FileInner.Valid;
      hide FileInner.HasNode;
      hide FileInner.Sound;
      hide FileInner.Now;
      hide FileInner.Book;
      hide Inv;
      hide FileInner.LoadedNew;
      hide FileInner.ChangedNew;
      hide FileInner.Broken;
      hide FileInner.FetchBound;
      hide Contents;
      hide Overwrite;
      hide Edits;
      hide FileInner.Cached;
      hide GoodTrail;
      hide GetNodeNumbers;
      hide NodeCount;
      hide Depth;
      ghost var p := GetNodeNumbers(offset).dataPhys;
      var found := GetDataNode();
      if found.None? {
        return false;
      }
      var node := found.value;
      HasNodeCached(FetchBound(), node);
      LoadedIsNew(p);
      WriteChunk(node, chunk);
      ValidCursor();
      ValidSound();
      LoadedThenChanged(p, node);
      ok := true;
    }

    lemma HasNodeCached(bound: nat, node: FileNode)
      requires HasNode(bound, node)
      ensures var p := GetNodeNumbers(offset).dataPhys;
              p in cache.values && node == cache.values[p] && node in pool
    {
      hide LruCache.Valid;
      hide Inv;
      hide FileInner.Book;
    }

    /** The flush of an eviction, seen from a changed node that is still new. */
    method EvictChanged(ghost p: nat) returns (ok: bool)
      requires Valid() && IsDataNode(p) && ChangedNew(p)
      modifies `tree, `meta, `metaSeal, `updateFlag, `needWriting, `status, `flushedAt, `baseline, `over
      modifies pool, root, host, journal
      ensures GoodTrail(host.trail, userKey, hist) && View() == old(View())
      ensures ok ==> Selected(journal.log, p).None? && p in over && !over[p] && !needWriting
      ensures Serves(NodeCount(old(meta.size))) ==> ok
    {
      hide FileInner.Serves;
      hide FileInner.Sound;
      hide FileInner.Valid;
      hide Inv;
      hide FileInner.Book;
      hide FileInner.Failed;
      hide FileInner.Unsaved;
      hide Selected;
      hide Contents;
      hide FileInner.Cached;
      hide GoodTrail;
      hide TornTrail;
      hide EndTrail;
      hide Reopen;
      hide CleanKept;
      hide NodeCount;
      hide IsDataNode;
      ValidSound();
      NumbersPartition(p);
      BookUnsaved(NodeCount(meta.size));
      DirtyNeedsWriting(Now(), NodeCount(meta.size), p);
      ok := InternalFlush(false, NodeCount(meta.size));
    }

    /**
      Read back, changed, evicted: a data node that is loaded from disk, overwritten and flushed out by
      an eviction leaves no record that recovery could roll it back with.
     */
    method OverwriteReadBack(chunk: seq<Byte>) returns (ok: bool)
      requires Valid() && MD_USER_DATA_SIZE <= offset && offset + |chunk| <= meta.size && chunk != []
      requires (offset - MD_USER_DATA_SIZE) % NODE_SIZE + |chunk| <= NODE_SIZE
      requires Depth(GetNodeNumbers(offset).mhtLogic) < maxCachePage
      requires GetNodeNumbers(offset).dataPhys !in cache.values && GetNodeNumbers(offset).dataPhys !in over
      modifies `tree, `meta, `metaSeal, `updateFlag, `needWriting, `status, `flushedAt, `baseline, `over, `pool, `offset, `hist
      modifies pool, root, host, journal, cache, cache.list, cache.list.footprint
      ensures GoodTrail(host.trail, userKey, hist)
      ensures fresh(cache.list.footprint - old(cache.list.footprint)) && fresh(pool - old(pool))
      ensures ok ==> View().bytes == Overwrite(old(View()).bytes, old(offset), chunk) && !needWriting
      ensures var p := GetNodeNumbers(old(offset)).dataPhys;
              ok ==> Selected(journal.log, p).None? && p in over && !over[p]
      ensures Serves(NodeCount(old(meta.size))) ==> ok
    {
      hide FileInner.Serves;
      hide FileInner.Valid;
      hide FileInner.ChangedNew;
      hide Selected;
      hide Contents;
      hide Overwrite;
      hide FileInner.Cached;
      hide GoodTrail;
      hide GetNodeNumbers;
      hide NodeCount;
      hide Depth;
      ghost var p := GetNodeNumbers(offset).dataPhys;
      NumberingInverts(offset);
      TurnServed(meta.size);
      ok := ChangeLoaded(chunk);
      if ok {
        ok := EvictChanged(p);
      }
    }

    /** The part of a write that falls into the metadata head. */
    method WriteHead(chunk: seq<Byte>)
      requires Valid() && offset + |chunk| <= MD_USER_DATA_SIZE
      modifies `meta, `offset, `needWriting, `hist
      ensures Valid() && offset == old(offset) + |chunk| && hist == old(hist) + Edits(old(offset), chunk)
      ensures meta.size == Max(old(meta.size), old(offset) + |chunk|)
      ensures View().bytes == Overwrite(old(View()).bytes, old(offset), chunk)
    {
      hide FileInner.Sound;
      hide FileInner.Cached;
      hide AllLinked;
      hide Ordered;
      hide Inv;
      hide Splice;
      hide Edits;
      hide Contents;
      hide Overwrite;
      hide FileInner.Ledger;
      hide Replay;
      hide NodeCount;
      ghost var s, bound, hist0, at := Now(), NodeCount(meta.size), hist, offset;
      InvHead(s, bound);
      HeadWroteKeeps(s, bound, offset, chunk);
      PutHead(chunk);
      BookWrote(s.Bytes(), hist0, at, chunk);
    }

    /** A buffer is being written from `at` on, and its first `done` bytes are in the file. */
    ghost predicate Writing(c: seq<Byte>, h: seq<Edit>, at: nat, buf: seq<Byte>, done: nat)
      reads this
    {
      && at <= |c| && done <= |buf| && offset == at + done
      && View().bytes == Overwrite(c, at, buf[..done])
      && hist == h + Edits(at, buf[..done])
    }

    /** One turn of the write loop: fetch the cursor's node and fill it up to its end. */
    method WriteTurn(buf: seq<Byte>, done: nat, ghost c: seq<Byte>, ghost h: seq<Edit>, ghost at: nat)
      returns (r: Option<nat>)
      requires Valid() && Writing(c, h, at, buf, done) && done < |buf|
      requires offset >= MD_USER_DATA_SIZE && Fits(maxCachePage, Max(meta.size, at + |buf|))
      modifies `tree, `meta, `metaSeal, `updateFlag, `needWriting, `status, `flushedAt, `baseline, `over, `pool, `offset, `hist
      modifies pool, root, host, journal, cache, cache.list, cache.list.footprint
      ensures GoodTrail(host.trail, userKey, hist)
      ensures fresh(cache.list.footprint - old(cache.list.footprint)) && fresh(pool - old(pool))
      ensures r.None? ==> hist == old(hist) && Broken() && meta.size == old(meta.size)
      ensures r.Some? ==> Valid() && done < r.value <= |buf| && Writing(c, h, at, buf, r.value)
      ensures r.Some? ==> meta.size == Max(old(meta.size), at + r.value)
      ensures Serves(NodeCount(Max(old(meta.size), at + |buf|))) ==> r.Some?
    {
      hide FileInner.Broken;
      hide FileInner.Serves;
      hide FileInner.FetchBound;
      hide NodeCount;
      hide FileInner.Valid;
      hide Edits;
      hide Contents;
      hide Overwrite;
      hide GoodTrail;
      hide FileInner.HasNode;
      hide Depth;
      hide GetNodeNumbers;
      hide FileInner.Cached;
      ValidCursor();
      TurnServed(Max(meta.size, at + |buf|));
      FitsAt(maxCachePage, Max(meta.size, at + |buf|), offset);
      var found := GetDataNode();
      if found.None? {
        return None;
      }
      var o := (offset - MD_USER_DATA_SIZE) % NODE_SIZE;
      var len := if |buf| - done < NODE_SIZE - o then |buf| - done else NODE_SIZE - o;
      ChunkStep(c, h, at, buf, done, len);
      WriteChunk(found.value, buf[done..done + len]);
      ValidCursor();
      return Some(done + len);
    }

    /** As much of the buffer as still fits into the metadata head. */
    method WriteIntoHead(buf: seq<Byte>) returns (done: nat)
      requires Valid() && buf != []
      modifies `meta, `offset, `needWriting, `hist
      ensures Valid() && Writing(old(View()).bytes, old(hist), old(offset), buf, done)
      ensures done < |buf| ==> offset >= MD_USER_DATA_SIZE
      ensures meta.size == if done == 0 then old(meta.size) else Max(old(meta.size), old(offset) + done)
    {
      hide FileInner.Now;
      hide FileInner.Cached;
      hide FileInner.Valid;
      hide Edits;
      hide Contents;
      hide Overwrite;
      ValidCursor();
      ghost var c, h, at := View().bytes, hist, offset;
      done := 0;
      ChunkNone(c, h, at, buf);
      if offset < MD_USER_DATA_SIZE {
        var len := if |buf| < MD_USER_DATA_SIZE - offset then |buf| else MD_USER_DATA_SIZE - offset;
        ChunkStep(c, h, at, buf, 0, len);
        assert buf[0..0 + len] == buf[..len];
        WriteHead(buf[..len]);
        done := len;
      }
    }

    /** Writes a buffer at the cursor: first the metadata head, then node by node. */
    method WriteFromCursor(buf: seq<Byte>) returns (ok: bool)
      requires Valid() && buf != [] && Fits(maxCachePage, Max(meta.size, offset + |buf|))
      modifies `tree, `meta, `metaSeal, `updateFlag, `needWriting, `status, `flushedAt, `baseline, `over, `pool, `offset, `hist
      modifies pool, root, host, journal, cache, cache.list, cache.list.footprint
      ensures GoodTrail(host.trail, userKey, hist)
      ensures fresh(cache.list.footprint - old(cache.list.footprint)) && fresh(pool - old(pool))
      ensures old(hist) <= hist <= old(hist) + Edits(old(offset), buf)
      ensures ok ==> Valid() && offset == old(offset) + |buf| && hist == old(hist) + Edits(old(offset), buf)
      ensures ok ==> View().bytes == Overwrite(old(View()).bytes, old(offset), buf)
      ensures !ok ==> Broken() && meta.size >= old(meta.size)
      ensures Serves(NodeCount(Max(old(meta.size), old(offset) + |buf|))) ==> ok
    {
      hide FileInner.Broken;
      hide FileInner.Now;
      hide FileInner.Cached;
      hide FileInner.Serves;
      hide FileInner.Valid;
      hide Edits;
      hide Contents;
      hide Overwrite;
      hide GoodTrail;
      hide Fits;
      ValidCursor();
      ghost var c, h, at, size := View().bytes, hist, offset, meta.size;
      var done := WriteIntoHead(buf);
      ValidCursor();
      while done < |buf|
        invariant Valid() && Writing(c, h, at, buf, done)
        invariant done < |buf| ==> offset >= MD_USER_DATA_SIZE
        invariant size <= meta.size && Max(meta.size, at + |buf|) == Max(size, at + |buf|)
        invariant GoodTrail(host.trail, userKey, hist)
        invariant fresh(cache.list.footprint - old(cache.list.footprint)) && fresh(pool - old(pool))
        decreases |buf| - done
      {
        ChunkPrefix(h, at, buf, done);
        var r := WriteTurn(buf, done, c, h, at);
        if r.None? {
          return false;
        }
        done := r.value;
      }
      ChunkPrefix(h, at, buf, done);
      assert buf[..done] == buf;
      ok := true;
    }

    /** `write`: in append mode the cursor moves to the end first. */
    method Write(buf: seq<Byte>) returns (r: Option<nat>)
      requires Valid() && Fits(maxCachePage, Max(meta.size, WriteFrom(View(), append) + |buf|))
      modifies `tree, `meta, `metaSeal, `updateFlag, `needWriting, `status, `flushedAt, `baseline, `over, `pool, `offset, `hist, `lastError
      modifies pool, root, host, journal, cache, cache.list, cache.list.footprint
      ensures GoodTrail(host.trail, userKey, hist)
      ensures fresh(cache.list.footprint - old(cache.list.footprint)) && fresh(pool - old(pool))
      ensures old(hist) <= hist <= old(hist) + Edits(WriteFrom(old(View()), append), buf)
      ensures r.Some? ==> Valid() && r.value == |buf| && View() == FlatWrite(old(View()), append, buf)
      ensures r.Some? ==> hist == old(hist) + Edits(WriteFrom(old(View()), append), buf)
      ensures r.None? ==> buf != [] && if writable then lastError else Valid() && View() == old(View())
      ensures r.Some? ==> buf == [] || writable
      ensures r.None? ==> Broken() && meta.size >= old(meta.size)
      ensures writable && Serves(NodeCount(Max(old(meta.size), WriteFrom(old(View()), append) + |buf|))) ==> r.Some?
    {
      hide FileInner.Broken;
      hide FileInner.Serves;
      hide FileInner.Valid;
      hide Contents;
      hide Overwrite;
      hide GoodTrail;
      hide Fits;
      ValidCursor();
      if buf == [] {
        return Some(0);
      }
      if !writable {
        ValidBroken();
        return None;
      }
      if append {
        MoveCursor(meta.size);
      }
      var ok := WriteFromCursor(buf);
      if ok {
        r := Some(|buf|);
      } else {
        NoteError();
        r := None;
      }
    }

    lemma ValidCursor()
      requires Valid()
      ensures offset <= meta.size == |View().bytes| && !lastError && status == StatusOk && GoodTrail(host.trail, userKey, hist)
    {
      hide GoodTrail;
      hide FileInner.Sound;
      hide Inv;
      BookTrail();
    }

    // ---------------------------------------------------------------- reading

    /** Copies `src` into the caller's buffer. */
    method CopyOut(buf: array<Byte>, at: nat, src: seq<Byte>)
      requires at + |src| <= buf.Length
      modifies buf
      ensures buf[..at] == old(buf[..at]) && buf[at..at + |src|] == src && buf[at + |src|..] == old(buf[at + |src|..])
    {
      forall i | 0 <= i < |src| {
        buf[at + i] := src[i];
      }
    }

    /** A read is filling a buffer from `at` on, and has `filled` bytes. */
    ghost predicate Reading(c: seq<Byte>, was: seq<Byte>, at: nat, buf: array<Byte>, filled: nat)
      reads buf
    {
      && at + filled <= |c| && filled <= buf.Length == |was|
      && buf[..filled] == c[at..at + filled] && buf[filled..] == was[filled..]
    }

    lemma ReadMore(c: seq<Byte>, was: seq<Byte>, at: nat, before: seq<Byte>, after: seq<Byte>, filled: nat, len: nat)
      requires at + filled + len <= |c| && filled + len <= |before| == |after| == |was|
      requires before[..filled] == c[at..at + filled] && before[filled..] == was[filled..]
      requires after[..filled] == before[..filled] && after[filled..filled + len] == c[at + filled..at + filled + len]
      requires after[filled + len..] == before[filled + len..]
      ensures after[..filled + len] == c[at..at + filled + len] && after[filled + len..] == was[filled + len..]
    {
      assert after[..filled + len] == after[..filled] + after[filled..filled + len];
      assert before[filled + len..] == before[filled..][len..] == was[filled..][len..] == was[filled + len..];
    }

    /** The cursor's node as bytes of the file. */
    method NodeSlice(node: FileNode, len: nat) returns (src: seq<Byte>)
      requires offset >= MD_USER_DATA_SIZE && HasNode(FetchBound(), node) && offset + len <= meta.size
      requires (offset - MD_USER_DATA_SIZE) % NODE_SIZE + len <= NODE_SIZE
      ensures src == View().bytes[offset..offset + len]
    {
      hide FileInner.Sound;
      hide FileInner.Cached;
      hide Inv;
      hide Contents;
      hide FileInner.Book;
      hide GetNodeNumbers;
      hide AllLinked;
      hide Ordered;
      var o := (offset - MD_USER_DATA_SIZE) % NODE_SIZE;
      CachedKeys();
      NodeBytes(Now(), FetchBound(), offset, len);
      src := node.plain.bytes[o..o + len];
    }

    /** Between the fetch and the next one the file is open again, if no node is waiting. */
    lemma HasNodeValid(node: FileNode)
      requires offset >= MD_USER_DATA_SIZE && HasNode(FetchBound(), node) && !AtNewNode()
      ensures Valid()
    {
      hide FileInner.Sound;
      hide Inv;
      hide FileInner.Book;
    }

    method MoveCursor(to: nat)
      requires Valid() && to <= meta.size
      modifies `offset
      ensures Valid() && offset == to && View() == old(View()).(cursor := to)
    {
      hide FileInner.Sound;
      hide AllLinked;
      hide Ordered;
      hide Inv;
      hide Contents;
      hide FileInner.Ledger;
      hide FileInner.Cached;
      hide Stored;
      offset := to;
    }

    /** Copies the cursor's part of a fetched node to the buffer and moves on. */
    method CopyChunk(node: FileNode, buf: array<Byte>, filled: nat, len: nat, ghost c: seq<Byte>, ghost was: seq<Byte>, ghost at: nat)
      requires offset >= MD_USER_DATA_SIZE && HasNode(FetchBound(), node) && !AtNewNode()
      requires Bytes() == c && offset == at + filled
      requires Reading(c, was, at, buf, filled) && at + filled + len <= |c| && filled + len <= buf.Length
      requires (offset - MD_USER_DATA_SIZE) % NODE_SIZE + len <= NODE_SIZE
      modifies `offset, buf
      ensures Reading(c, was, at, buf, filled + len)
      ensures Valid() && View().bytes == c && offset == at + filled + len
    {
      hide FileInner.Valid;
      hide Contents;
      hide FileInner.HasNode;
      hide GetNodeNumbers;
      hide FileInner.Cached;
      var src := NodeSlice(node, len);
      ghost var before := buf[..];
      HasNodeValid(node);
      MoveCursor(offset + len);
      CopyOut(buf, filled, src);
      ReadMore(c, was, at, before, buf[..], filled, len);
    }

    /** Reads what one data node holds of the request. */
    method ReadTurn(buf: array<Byte>, filled: nat, left: nat, ghost c: seq<Byte>, ghost was: seq<Byte>, ghost at: nat)
      returns (r: Option<nat>)
      requires Valid() && View().bytes == c && offset == at + filled >= MD_USER_DATA_SIZE
      requires Reading(c, was, at, buf, filled) && 0 < left && at + filled + left <= |c| && filled + left <= buf.Length
      requires Fits(maxCachePage, meta.size)
      modifies `tree, `meta, `metaSeal, `updateFlag, `needWriting, `status, `flushedAt, `baseline, `over, `pool, `offset
      modifies pool, root, host, journal, cache, cache.list, cache.list.footprint, buf
      ensures GoodTrail(host.trail, userKey, hist)
      ensures fresh(cache.list.footprint - old(cache.list.footprint)) && fresh(pool - old(pool))
      ensures r.None? ==> Reading(c, was, at, buf, filled) && Broken() && View().bytes == c && meta.size == old(meta.size)
      ensures r.Some? ==> 0 < r.value <= left && Reading(c, was, at, buf, filled + r.value)
      ensures r.Some? ==> Valid() && View().bytes == c && offset == at + filled + r.value && meta.size == old(meta.size)
      ensures Serves(NodeCount(old(meta.size))) ==> r.Some?
    {
      hide FileInner.Broken;
      hide FileInner.Serves;
      hide FileInner.Valid;
      hide Contents;
      hide GoodTrail;
      hide FileInner.Reading;
      hide FileInner.Cached;
      hide FileInner.HasNode;
      hide Depth;
      hide GetNodeNumbers;
      FitsAt(maxCachePage, meta.size, offset);
      var found := GetDataNode();
      if found.None? {
        return None;
      }
      var o := (offset - MD_USER_DATA_SIZE) % NODE_SIZE;
      var len := if left < NODE_SIZE - o then left else NODE_SIZE - o;
      CopyChunk(found.value, buf, filled, len, c, was, at);
      return Some(len);
    }

    method SetEndOfFile(flag: bool)
      requires Valid()
      modifies `endOfFile
      ensures Valid() && View() == old(View()).(eof := flag)
    {
      hide FileInner.Sound;
      hide AllLinked;
      hide Ordered;
      hide Inv;
      hide Contents;
      hide FileInner.Ledger;
      hide FileInner.Cached;
      hide Stored;
      endOfFile := flag;
    }

    /** Reads the part of the request that lies in the metadata head. */
    method ReadHead(buf: array<Byte>, len: nat, ghost c: seq<Byte>, ghost was: seq<Byte>, ghost at: nat)
      requires Valid() && View().bytes == c && offset == at && Reading(c, was, at, buf, 0)
      requires offset + len <= MD_USER_DATA_SIZE && offset + len <= meta.size && len <= buf.Length
      modifies `offset, buf
      ensures Reading(c, was, at, buf, len)
      ensures Valid() && View().bytes == c && offset == at + len && meta.size == old(meta.size)
    {
      hide FileInner.Sound;
      hide FileInner.AllRight;
      hide Inv;
      hide Contents;
      hide FileInner.Book;
      hide Ordered;
      hide FileInner.Cached;
      HeadBytes(Now(), NodeCount(meta.size), offset, len);
      var src := meta.data[offset..offset + len];
      ghost var before := buf[..];
      MoveCursor(offset + len);
      CopyOut(buf, 0, src);
      ReadMore(c, was, at, before, buf[..], 0, len);
    }

    /** Fills the rest of the request node by node. */
    method ReadNodes(buf: array<Byte>, start: nat, n: nat, ghost c: seq<Byte>, ghost was: seq<Byte>, ghost at: nat)
      returns (got: nat)
      requires Valid() && View().bytes == c && offset == at + start && Reading(c, was, at, buf, start)
      requires start <= n <= buf.Length && at + n <= meta.size && (start < n ==> offset >= MD_USER_DATA_SIZE)
      requires Fits(maxCachePage, meta.size)
      modifies `tree, `meta, `metaSeal, `updateFlag, `needWriting, `status, `flushedAt, `baseline, `over, `pool, `offset, `lastError
      modifies pool, root, host, journal, cache, cache.list, cache.list.footprint, buf
      ensures GoodTrail(host.trail, userKey, hist)
      ensures fresh(cache.list.footprint - old(cache.list.footprint)) && fresh(pool - old(pool))
      ensures got <= n && Reading(c, was, at, buf, got)
      ensures lastError <==> got < n
      ensures !lastError ==> Valid() && View().bytes == c && offset == at + n
      ensures lastError ==> Broken() && View().bytes == c && meta.size == old(meta.size)
      ensures Serves(NodeCount(old(meta.size))) ==> !lastError
    {
      hide FileInner.Broken;
      hide FileInner.Serves;
      hide FileInner.Valid;
      hide Contents;
      hide GoodTrail;
      hide Fits;
      hide FileInner.Reading;
      hide FileInner.Cached;
      ValidCursor();
      got := start;
      while got < n
        invariant got <= n && Valid() && View().bytes == c && offset == at + got && Reading(c, was, at, buf, got)
        invariant meta.size == old(meta.size) && !lastError && (got < n ==> offset >= MD_USER_DATA_SIZE)
        invariant GoodTrail(host.trail, userKey, hist)
        invariant fresh(cache.list.footprint - old(cache.list.footprint)) && fresh(pool - old(pool))
        decreases n - got
      {
        var r := ReadTurn(buf, got, n - got, c, was, at);
        if r.None? {
          NoteError();
          return;
        }
        got := got + r.value;
      }
    }

    /** Fills the buffer with `n` bytes from the cursor on: the head first, then node by node. */
    method ReadFromCursor(buf: array<Byte>, n: nat) returns (got: nat)
      requires Valid() && n <= buf.Length && offset + n <= meta.size && Fits(maxCachePage, meta.size)
      modifies `tree, `meta, `metaSeal, `updateFlag, `needWriting, `status, `flushedAt, `baseline, `over, `pool, `offset, `lastError
      modifies pool, root, host, journal, cache, cache.list, cache.list.footprint, buf
      ensures GoodTrail(host.trail, userKey, hist)
      ensures fresh(cache.list.footprint - old(cache.list.footprint)) && fresh(pool - old(pool))
      ensures got <= n && Reading(old(View()).bytes, old(buf[..]), old(offset), buf, got)
      ensures lastError <==> got < n
      ensures !lastError ==> Valid() && View().bytes == old(View()).bytes && offset == old(offset) + n
      ensures lastError ==> Broken() && View().bytes == old(View()).bytes && meta.size == old(meta.size)
      ensures Serves(NodeCount(old(meta.size))) ==> !lastError
    {
      hide FileInner.Broken;
      hide FileInner.Serves;
      hide FileInner.Valid;
      hide Contents;
      hide GoodTrail;
      hide Fits;
      hide FileInner.Cached;
      ValidCursor();
      ghost var c, was, at := View().bytes, buf[..], offset;
      var start := 0;
      if offset < MD_USER_DATA_SIZE {
        start := if n < MD_USER_DATA_SIZE - offset then n else MD_USER_DATA_SIZE - offset;
        ReadHead(buf, start, c, was, at);
      }
      got := ReadNodes(buf, start, n, c, was, at);
    }

    /** `read`: a set end-of-file flag and the end of the file both give no bytes. */
    method Read(buf: array<Byte>) returns (n: nat)
      requires Valid() && Fits(maxCachePage, meta.size)
      modifies `tree, `meta, `metaSeal, `updateFlag, `needWriting, `status, `flushedAt, `baseline, `over, `pool, `offset, `lastError, `endOfFile
      modifies pool, root, host, journal, cache, cache.list, cache.list.footprint, buf
      ensures GoodTrail(host.trail, userKey, hist)
      ensures fresh(cache.list.footprint - old(cache.list.footprint)) && fresh(pool - old(pool))
      ensures Reading(old(View()).bytes, old(buf[..]), old(offset), buf, n)
      ensures !lastError ==> Valid() && (buf[..n], View()) == FlatRead(old(View()), buf.Length)
      ensures lastError ==> Broken() && View().bytes == old(View()).bytes && meta.size == old(meta.size)
      ensures Serves(NodeCount(old(meta.size))) ==> !lastError
    {
      hide FileInner.Broken;
      hide FileInner.Serves;
      hide FileInner.Valid;
      hide Contents;
      hide GoodTrail;
      hide Fits;
      hide FileInner.Cached;
      ValidCursor();
      n := 0;
      if buf.Length == 0 || endOfFile {
        return;
      }
      if offset == meta.size {
        SetEndOfFile(true);
        return;
      }
      var want := if buf.Length > meta.size - offset then meta.size - offset else buf.Length;
      n := ReadFromCursor(buf, want);
      if n == want && want != buf.Length {
        SetEndOfFile(true);
      }
    }

    // ---------------------------------------------------------------- the other operations

    /** `seek`; `None` is the panic on a position outside the file, which changes nothing. */
    method Seek(pos: SeekFrom) returns (r: Option<nat>)
      requires Valid()
      modifies `offset, `endOfFile
      ensures Valid() && r == SeekTo(meta.size, old(offset), pos)
      ensures View() == if r.Some? then old(View()).(cursor := r.value, eof := false) else old(View())
    {
      hide FileInner.Valid;
      hide Contents;
      hide FileInner.Cached;
      ValidCursor();
      r := SeekTo(meta.size, offset, pos);
      if r.Some? {
        MoveCursor(r.value);
        SetEndOfFile(false);
      }
    }

    /** `read_at`: a read elsewhere that leaves the cursor where it was. */
    method ReadAt(buf: array<Byte>, from: nat) returns (n: nat)
      requires Valid() && Fits(maxCachePage, meta.size)
      modifies `tree, `meta, `metaSeal, `updateFlag, `needWriting, `status, `flushedAt, `baseline, `over, `pool, `offset, `lastError, `endOfFile
      modifies pool, root, host, journal, cache, cache.list, cache.list.footprint, buf
      ensures GoodTrail(host.trail, userKey, hist)
      ensures fresh(cache.list.footprint - old(cache.list.footprint)) && fresh(pool - old(pool))
      ensures if from > old(meta.size) then n == 0 && buf[..] == old(buf[..])
              else Reading(old(View()).bytes, old(buf[..]), from, buf, n)
      ensures offset == old(offset)
      ensures !lastError ==> Valid() && (buf[..n], View()) == FlatReadAt(old(View()), buf.Length, from)
      ensures lastError ==> Broken() && View().bytes == old(View()).bytes
      ensures Serves(NodeCount(old(meta.size))) ==> !lastError
    {
      hide FileInner.Broken;
      hide FileInner.Serves;
      hide FileInner.Valid;
      hide Contents;
      hide GoodTrail;
      hide Fits;
      hide FileInner.Cached;
      ValidCursor();
      var cursor := offset;
      if from > meta.size {
        return 0;
      }
      var _ := Seek(Start(from));
      n := Read(buf);
      if lastError {
        ResetCursor(cursor);
      } else {
        ValidCursor();
        MoveCursor(cursor);
      }
    }

    /** The file agrees with its history, its disk and its journal; its cache may be too long or out of order. */
    ghost predicate Intact(bound: nat)
      reads this, host, journal, root, cache, cache.list, cache.list.footprint, pool
    {
      Sound() && Inv(Now(), bound) && Book() && offset <= meta.size
    }

    /** The cache is within its capacity, in order, and every parent reference is the cached object. */
    ghost predicate Tidy()
      reads cache
    {
      AllRight() && Ordered(cache.order) && |cache.order| <= maxCachePage
    }

    /** An open file is intact and tidy, with a good status and no recorded error. */
    lemma ValidIsIntact()
      ensures Valid() <==> Intact(NodeCount(meta.size)) && Tidy() && status == StatusOk && !lastError
    {
      hide FileInner.Sound;
      hide Inv;
      hide FileInner.Book;
      hide Ordered;
      hide AllLinked;
    }

    /** What `clear_error` can be called on: an intact file, or any failed flush. */
    ghost predicate Clearable(bound: nat)
      reads this, host, journal, root, cache, cache.list, cache.list.footprint, pool
    {
      offset <= meta.size && if status == StatusOk then Intact(bound) else Failed(bound)
    }

    lemma ClearableWidens(bound: nat, more: nat)
      requires Clearable(bound) && bound <= more
      ensures Clearable(more)
    {
      hide FileInner.Sound;
      hide Inv;
      hide Ready;
      hide Pending;
      hide FileInner.Book;
      hide FileInner.Shown;
      hide GoodTrail;
      hide Contents;
      hide Replay;
      hide FileInner.Cached;
      PendingWidens(Now(), bound, more);
    }

    /** A flush, first or repeated, of a file whose write-out has not begun. */
    method FlushOpen(ghost bound: nat) returns (ok: bool)
      requires Clearable(bound) && status != WriteToDiskFailed
      modifies `tree, `meta, `metaSeal, `updateFlag, `needWriting, `status, `flushedAt, `baseline, `over
      modifies pool, root, host, journal
      ensures GoodTrail(host.trail, userKey, hist)
      ensures TornTrail(old(host.trail), host.trail, old(Restored()), userKey, hist, old(flushedAt).Some?)
      ensures View() == old(View())
      ensures ok ==> Intact(bound) && status == old(status) && !needWriting
      ensures ok ==> forall x :: !IsDirty(Cached(), x)
      ensures ok ==> journal.log == if old(needWriting) then [] else old(journal.log)
      ensures !ok ==> Failed(bound) && status != StatusOk
      ensures Serves(bound) ==> ok
    {
      hide FileInner.Serves;
      hide FileInner.Sound;
      hide Inv;
      hide FileInner.Book;
      hide GoodTrail;
      hide TornTrail;
      hide FileInner.Cached;
      hide Contents;
      hide FileInner.Resumable;
      hide FileInner.Unsaved;
      if status == StatusOk {
        BookUnsaved(bound);
      } else {
        UnsavedWrites(bound);
      }
      ok := InternalFlush(true, bound);
    }

    lemma ResumableTrail(bound: nat)
      requires Resumable(bound)
      ensures GoodTrail(host.trail, userKey, hist)
    {
    }

    lemma UnsavedWrites(bound: nat)
      requires Unsaved(bound)
      ensures needWriting
    {
    }

    /** A failure that did not set a status of its own leaves `FlushError`. */
    method NoteFailure(ghost bound: nat)
      requires Failed(bound)
      modifies `status
      ensures Failed(bound) && status != StatusOk
    {
      hide FileInner.Resumable;
      hide FileInner.Sound;
      hide Pending;
      hide FileInner.Shown;
      hide Replay;
      hide Contents;
      hide FileInner.Cached;
      status := if status == StatusOk then FlushError else status;
    }

    /** `flush`: after a failure the file is as it was, and can be flushed again. */
    method Flush() returns (ok: bool)
      requires Valid()
      modifies `tree, `meta, `metaSeal, `updateFlag, `needWriting, `status, `flushedAt, `baseline, `over
      modifies pool, root, host, journal
      ensures GoodTrail(host.trail, userKey, hist)
      ensures TornTrail(old(host.trail), host.trail, old(host.blocks), userKey, hist, old(flushedAt).Some?)
      ensures View() == old(View())
      ensures ok ==> Valid() && !needWriting && Reopen(host.blocks, userKey) == Snapshot(View().bytes)
      ensures ok ==> journal.log == if old(needWriting) then [] else old(journal.log)
      ensures !ok ==> status != StatusOk && Failed(NodeCount(meta.size)) && Tidy()
      ensures Serves(NodeCount(old(meta.size))) ==> ok
    {
      hide FileInner.Serves;
      hide FileInner.Sound;
      hide Inv;
      hide FileInner.Book;
      hide FileInner.Failed;
      hide FileInner.Restored;
      hide GoodTrail;
      hide Reopen;
      hide Contents;
      hide FileInner.Cached;
      hide FileInner.Tidy;
      hide FileInner.Valid;
      ValidIsIntact();
      BookUnsaved(NodeCount(meta.size));
      ok := FlushOpen(NodeCount(meta.size));
      ValidIsIntact();
      if ok {
        CleanFileStored();
      } else {
        NoteFailure(NodeCount(meta.size));
      }
    }

    /** With nothing left to write, the disk alone gives the logical file. */
    lemma CleanFileStored()
      requires Valid() && !needWriting
      ensures Reopen(host.blocks, userKey) == Snapshot(View().bytes)
    {
      hide FileInner.Sound;
      hide Inv;
      hide Stored;
      hide Reopen;
      hide Contents;
      hide GoodTrail;
      hide LogInv;
      StoredReopens(host.blocks, userKey, meta, tree);
    }

    /** A dirty node in the cache means there is something to write, up to the root. */
    lemma DirtyFileUnsaved(p: nat)
      requires Valid() && IsDirty(Cached(), p)
      ensures needWriting && root.needWriting && meta.size > MD_USER_DATA_SIZE
    {
      hide FileInner.Sound;
      hide Inv;
      hide FileInner.Book;
      DirtyNeedsWriting(Now(), NodeCount(meta.size), p);
    }

    /** A file whose cache holds nothing dirty. */
    ghost predicate CleanCache(bound: nat)
      reads this, host, root, cache, cache.list, cache.list.footprint, pool
    {
      Sound() && Inv(Now(), bound) && (forall x :: !IsDirty(Cached(), x))
    }

    method EvictClean(ghost bound: nat)
      requires CleanCache(bound) && cache.order != []
      modifies cache, cache.list, cache.list.footprint
      ensures CleanCache(bound) && cache.list.footprint == old(cache.list.footprint)
      ensures |cache.order| == |old(cache.order)| - 1
    {
      hide FileInner.Sound;
      hide Inv;
      hide Ordered;
      hide FileInner.AllRight;
      hide FileInner.Cached;
      hide IsDirty;
      StillClean(Cached(), cache.order[|cache.order| - 1]);
      EvictBack(bound);
    }

    /** Empties a clean cache from the tail. */
    method EmptyCache(ghost bound: nat)
      requires CleanCache(bound)
      modifies cache, cache.list, cache.list.footprint
      ensures CleanCache(bound) && cache.order == [] && cache.list.footprint == old(cache.list.footprint)
    {
      hide FileInner.Sound;
      hide Inv;
      hide Ordered;
      hide FileInner.AllRight;
      hide FileInner.Cached;
      var n := CacheLen();
      while n > 0
        invariant n == |cache.order| && cache.list.footprint == old(cache.list.footprint) && CleanCache(bound)
      {
        EvictClean(bound);
        n := CacheLen();
      }
    }

    /** `clear_error` after an interrupted write-out: the write-out is repeated from where it stopped. */
    method ResumeWriteOut(ghost bound: nat) returns (ok: bool)
      requires Resumable(bound) && status == WriteToDiskFailed
      modifies host, pool`needWriting, pool`newNode, root`needWriting, root`newNode, journal
      modifies `needWriting, `status, `flushedAt, `baseline, `over
      ensures EndTrail(old(host.trail), host.trail, userKey, hist)
      ensures !ok ==> Resumable(bound) && status == WriteToDiskFailed && Target(Now(), metaSeal) == old(Target(Now(), metaSeal))
      ensures ok ==> host.blocks == old(Target(Now(), metaSeal)) && Reopen(host.blocks, userKey) == Snapshot(Replay(hist))
      ensures ok ==> status == StatusOk && !needWriting && journal.log == []
      ensures ok ==> Sound() && Inv(Now(), bound) && Book() && Bytes() == old(Bytes())
      ensures Serves(bound) ==> ok
    {
      hide FileInner.Serves;
      hide FileInner.Sound;
      hide Inv;
      hide Ready;
      hide Stored;
      hide Reopen;
      hide Replay;
      hide Contents;
      hide GoodTrail;
      hide FileInner.Cached;
      hide LogInv;
      hide EndTrail;
      hide Target;
      TargetMeta(Now(), metaSeal);
      ok := WriteOut(true, bound);
      if ok {
        FinishResume(bound);
      }
    }

    /** The bookkeeping behind a write-out that went through. */
    method FinishResume(ghost bound: nat)
      requires Resumable(bound) && Inv(Now().(needWriting := false), bound) && journal.log == []
      requires Stored(host.blocks, userKey, meta, tree) && Reopen(host.blocks, userKey) == Snapshot(Replay(hist))
      requires META_DATA_PHY_NUM in host.blocks && host.blocks[META_DATA_PHY_NUM] == MetaBlock(false, metaSeal)
      modifies `needWriting, `status, `flushedAt, `baseline, `over
      ensures status == StatusOk && !needWriting
      ensures Sound() && Inv(Now(), bound) && Book() && Bytes() == old(Bytes())
    {
      hide FileInner.Sound;
      hide Inv;
      hide Ready;
      hide Stored;
      hide Reopen;
      hide Replay;
      hide Contents;
      hide GoodTrail;
      hide FileInner.Cached;
      hide LogInv;
      FreshLog(host.blocks);
      MarkClean(host.blocks, map[]);
      HostValid();
      ShownWhole();
      status := StatusOk;
    }

    method MarkFailed(ghost bound: nat)
      requires Resumable(bound)
      modifies `status
      ensures Resumable(bound) && status == WriteToDiskFailed && Now() == old(Now())
    {
      hide FileInner.Sound;
      hide Ready;
      hide Replay;
      hide Contents;
      hide GoodTrail;
      hide FileInner.Cached;
      status := WriteToDiskFailed;
    }

    /**
      A write-out, of a flush or of an eviction, and any number of retries by `clear_error`: once one
      attempt succeeds the data region is what an uninterrupted write-out leaves, whatever the
      attempts before it managed to write.
     */
    method WriteOutRetrying(flush: bool, retries: nat, ghost bound: nat) returns (ok: bool, retried: bool)
      requires Resumable(bound)
      modifies host, pool`needWriting, pool`newNode, root`needWriting, root`newNode, journal
      modifies `needWriting, `status, `flushedAt, `baseline, `over
      ensures RetryTrail(old(host.trail), host.trail, userKey, hist)
      ensures !ok ==> Resumable(bound) && status == WriteToDiskFailed && Target(Now(), metaSeal) == old(Target(Now(), metaSeal))
      ensures ok ==> host.blocks == old(Target(Now(), metaSeal)) && Reopen(host.blocks, userKey) == Snapshot(Replay(hist))
      ensures ok && retried ==> status == StatusOk && !needWriting && Sound() && Inv(Now(), bound) && Book()
      ensures ok && !retried ==> Resumable(bound) && !root.needWriting && status == old(status)
      ensures Bytes() == old(Bytes())
      ensures Serves(bound) ==> ok
    {
      hide FileInner.Serves;
      hide FileInner.Resumable;
      hide FileInner.Sound;
      hide Inv;
      hide FileInner.Book;
      hide Reopen;
      hide Contents;
      hide FileInner.Cached;
      hide EndTrail;
      hide Target;
      hide Stored;
      assert RetryTrail(host.trail, host.trail, userKey, hist);
      retried := false;
      ok := WriteOut(flush, bound);
      RetryTrailExtends(old(host.trail), old(host.trail), host.trail, userKey, hist);
      if ok {
        return;
      }
      MarkFailed(bound);
      var left := retries;
      while !ok && left > 0
        invariant RetryTrail(old(host.trail), host.trail, userKey, hist)
        invariant !ok ==> Resumable(bound) && status == WriteToDiskFailed && Target(Now(), metaSeal) == old(Target(Now(), metaSeal))
        invariant ok ==> host.blocks == old(Target(Now(), metaSeal)) && Reopen(host.blocks, userKey) == Snapshot(Replay(hist))
        invariant ok ==> retried && status == StatusOk && !needWriting && Sound() && Inv(Now(), bound) && Book()
        invariant Bytes() == old(Bytes())
        invariant !Serves(bound)
      {
        ghost var mid := host.trail;
        retried := true;
        ok := ResumeWriteOut(bound);
        RetryTrailExtends(old(host.trail), mid, host.trail, userKey, hist);
        left := left - 1;
      }
    }

    method ForgetError(ghost bound: nat)
      requires Intact(bound)
      modifies `lastError, `endOfFile
      ensures Intact(bound) && !lastError && View() == old(View()).(eof := false)
    {
      hide FileInner.Sound;
      hide Inv;
      hide Contents;
      hide FileInner.Ledger;
      hide FileInner.Cached;
      hide Stored;
      lastError, endOfFile := false, false;
    }

    /**
      `clear_error`: forgets an error, resumes a write-out, or flushes again.  Whatever failed before,
      success gives back an intact file with the same bytes, stored whole unless it was intact already.
     */
    method ClearError(ghost bound: nat) returns (ok: bool)
      requires Clearable(bound)
      modifies `tree, `meta, `metaSeal, `updateFlag, `needWriting, `status, `flushedAt, `baseline, `over, `lastError, `endOfFile
      modifies pool, root, host, journal
      ensures GoodTrail(host.trail, userKey, hist)
      ensures View() == if old(status) == StatusOk then old(View()).(eof := false) else old(View())
      ensures lastError == (old(lastError) && old(status) != StatusOk)
      ensures ok ==> Intact(bound) && status == StatusOk && (old(status) == StatusOk ==> needWriting == old(needWriting))
      ensures ok && old(status) != StatusOk ==> !needWriting && journal.log == [] && (forall x :: !IsDirty(Cached(), x))
      ensures ok && old(status) == WriteToDiskFailed ==> host.blocks == old(Target(Now(), metaSeal))
      ensures !ok ==> Failed(bound) && status != StatusOk
      ensures old(status) == StatusOk || Serves(bound) ==> ok
    {
      hide FileInner.Serves;
      hide FileInner.Sound;
      hide Inv;
      hide FileInner.Book;
      hide FileInner.Resumable;
      hide FileInner.Unsaved;
      hide GoodTrail;
      hide EndTrail;
      hide TornTrail;
      hide Reopen;
      hide Target;
      hide Contents;
      hide FileInner.Cached;
      if status == StatusOk {
        BookTrail();
        ForgetError(bound);
        return true;
      }
      if status == WriteToDiskFailed {
        ok := ResumeWriteOut(bound);
        if ok {
          BookTrail();
          CleanInv(Now(), bound);
        } else {
          ResumableTrail(bound);
        }
      } else {
        UnsavedWrites(bound);
        ok := FlushOpen(bound);
        if ok {
          SetStatusOk(bound);
        }
      }
    }

    method SetStatusOk(ghost bound: nat)
      requires Intact(bound)
      modifies `status
      ensures Intact(bound) && status == StatusOk && View() == old(View()) && Cached() == old(Cached())
    {
      hide FileInner.Sound;
      hide Inv;
      hide Contents;
      hide FileInner.Ledger;
      hide FileInner.Cached;
      hide Stored;
      status := StatusOk;
    }

    method ForgetNodes(ghost bound: nat)
      requires Intact(bound) && (forall x :: !IsDirty(Cached(), x))
      modifies cache, cache.list, cache.list.footprint
      ensures Intact(NodeCount(meta.size)) && Tidy() && cache.order == [] && cache.list.footprint == old(cache.list.footprint)
    {
      hide FileInner.Sound;
      hide Inv;
      hide FileInner.Book;
      hide FileInner.Cached;
      EmptyCache(bound);
      OrderListed();
      CachedKeys();
      InvNarrows(Now(), bound);
    }

    /**
      `clear_cache`: flushes, or clears the error, and then forgets every node.  Whatever failed
      before, success gives back a file that is intact and tidy, with the same contents.
     */
    method ClearCache(ghost bound: nat) returns (ok: bool)
      requires Clearable(bound)
      modifies `tree, `meta, `metaSeal, `updateFlag, `needWriting, `status, `flushedAt, `baseline, `over, `lastError, `endOfFile
      modifies pool, root, host, journal, cache, cache.list, cache.list.footprint
      ensures GoodTrail(host.trail, userKey, hist) && cache.list.footprint == old(cache.list.footprint)
      ensures View() == old(View()) && lastError == old(lastError)
      ensures ok ==> Intact(NodeCount(meta.size)) && Tidy() && status == StatusOk && !needWriting && cache.order == []
      ensures !ok ==> Failed(bound) && status != StatusOk
      ensures Serves(bound) ==> ok
    {
      hide FileInner.Serves;
      hide FileInner.Intact;
      hide FileInner.Failed;
      hide FileInner.Tidy;
      hide GoodTrail;
      hide TornTrail;
      hide Target;
      hide Contents;
      hide FileInner.Cached;
      if status == StatusOk {
        ok := FlushOpen(bound);
      } else {
        ok := ClearError(bound);
      }
      if ok {
        ForgetNodes(bound);
      }
    }

    /**
      `clear_cache` and then `clear_error` make an open file of whatever a failed operation left:
      nothing cached, nothing to write, the same bytes, and all of them on disk.
     */
    method Repair(ghost bound: nat) returns (ok: bool)
      requires Clearable(bound)
      modifies `tree, `meta, `metaSeal, `updateFlag, `needWriting, `status, `flushedAt, `baseline, `over, `lastError, `endOfFile
      modifies pool, root, host, journal, cache, cache.list, cache.list.footprint
      ensures GoodTrail(host.trail, userKey, hist) && cache.list.footprint == old(cache.list.footprint)
      ensures ok ==> Valid() && View() == old(View()).(eof := false) && Reopen(host.blocks, userKey) == Snapshot(View().bytes)
      ensures !ok ==> Clearable(bound) && View() == old(View())
      ensures Serves(bound) ==> ok
    {
      hide FileInner.Serves;
      hide FileInner.Intact;
      hide FileInner.Failed;
      hide FileInner.Tidy;
      hide FileInner.Valid;
      hide GoodTrail;
      hide Reopen;
      hide Target;
      hide Contents;
      hide FileInner.Cached;
      ok := ClearCache(bound);
      if ok {
        IntactCursor(NodeCount(meta.size));
        var _ := ClearError(NodeCount(meta.size));
        ValidIsIntact();
        CleanFileStored();
      }
    }

    lemma IntactCursor(bound: nat)
      requires Intact(bound)
      ensures offset <= meta.size
    {
    }

    // ---------------------------------------------------------------- writing elsewhere

    /** The file grew by `k` zeros from `c`, with the cursor at its end. */
    ghost predicate Padding(c: seq<Byte>, h: seq<Edit>, k: nat)
      reads this
    {
      View() == Flat(c + Zeros(k), |c| + k, false) && hist == h + Edits(|c|, Zeros(k))
    }

    /** One write of at most a block of zeros at the end of the file. */
    method PadStep(left: nat, ghost c: seq<Byte>, ghost h: seq<Edit>, ghost k: nat) returns (r: Option<nat>)
      requires Valid() && Padding(c, h, k) && left > 0 && Fits(maxCachePage, |c| + k + left)
      modifies `tree, `meta, `metaSeal, `updateFlag, `needWriting, `status, `flushedAt, `baseline, `over, `pool, `offset, `hist, `lastError
      modifies pool, root, host, journal, cache, cache.list, cache.list.footprint
      ensures GoodTrail(host.trail, userKey, hist)
      ensures fresh(cache.list.footprint - old(cache.list.footprint)) && fresh(pool - old(pool))
      ensures h <= hist <= h + Edits(|c|, Zeros(k + left))
      ensures meta.size >= old(meta.size) && (r.None? ==> Broken())
      ensures r.None? ==> if writable then lastError else Valid() && View() == old(View())
      ensures r.Some? ==> Valid() && 0 < r.value <= left && Padding(c, h, k + r.value)
      ensures writable && Serves(NodeCount(|c| + k + left)) ==> r.Some?
    {
      hide FileInner.Broken;
      hide Fits;
      hide FileInner.Serves;
      hide NodeCount;
      hide FileInner.Valid;
      hide Contents;
      hide Overwrite;
      hide GoodTrail;
      hide Edits;
      hide Zeros;
      hide FileInner.Cached;
      ValidCursor();
      var len := if left < 0x1000 then left else 0x1000;
      ZerosStep(c, h, k, len);
      ZerosPrefix(c, h, k, k + left);
      ZerosPrefix(c, h, k + len, k + left);
      FitsMonotone(maxCachePage, |c| + k + left, |c| + k + len);
      ServesSize(|c| + k + left, |c| + k + len);
      r := Write(Zeros(len));
      if r.Some? {
        ValidCursor();
      }
    }

    /** Fills the gap behind the end with zeros, a block at a time. */
    method PadWith(total: nat, ghost c: seq<Byte>, ghost h: seq<Edit>) returns (ok: bool)
      requires Valid() && Padding(c, h, 0) && Fits(maxCachePage, |c| + total)
      modifies `tree, `meta, `metaSeal, `updateFlag, `needWriting, `status, `flushedAt, `baseline, `over, `pool, `offset, `hist, `lastError
      modifies pool, root, host, journal, cache, cache.list, cache.list.footprint
      ensures GoodTrail(host.trail, userKey, hist)
      ensures fresh(cache.list.footprint - old(cache.list.footprint)) && fresh(pool - old(pool))
      ensures h <= hist <= h + Edits(|c|, Zeros(total))
      ensures !ok ==> (lastError || !writable) && Broken() && meta.size >= old(meta.size)
      ensures ok ==> Valid() && Padding(c, h, total)
      ensures writable && Serves(NodeCount(|c| + total)) ==> ok
    {
      hide FileInner.Broken;
      hide FileInner.Serves;
      hide FileInner.Valid;
      hide Contents;
      hide GoodTrail;
      hide Edits;
      hide Zeros;
      hide FileInner.Cached;
      hide FileInner.Padding;
      hide Fits;
      ValidCursor();
      var left := total;
      PaddingPrefix(c, h, 0, total);
      while left > 0
        invariant meta.size >= old(meta.size)
        invariant 0 <= left <= total && Valid() && Padding(c, h, total - left)
        invariant h <= hist <= h + Edits(|c|, Zeros(total)) && GoodTrail(host.trail, userKey, hist)
        invariant fresh(cache.list.footprint - old(cache.list.footprint)) && fresh(pool - old(pool))
      {
        ServesSize(|c| + total, |c| + (total - left) + left);
        var r := PadStep(left, c, h, total - left);
        if r.None? {
          return false;
        }
        left := left - r.value;
      }
      ok := true;
    }

    lemma PaddingPrefix(c: seq<Byte>, h: seq<Edit>, k: nat, total: nat)
      requires Padding(c, h, k) && k <= total
      ensures h <= hist <= h + Edits(|c|, Zeros(total))
    {
      hide Contents;
      ZerosPrefix(c, h, k, total);
    }

    /** Moves the cursor to `at`, behind the end if need be: the gap becomes zeros. */
    method SeekPadding(at: nat) returns (ok: bool)
      requires Valid() && Fits(maxCachePage, |PadTo(View().bytes, at)|)
      modifies `tree, `meta, `metaSeal, `updateFlag, `needWriting, `status, `flushedAt, `baseline, `over, `pool, `offset, `hist, `lastError, `endOfFile
      modifies pool, root, host, journal, cache, cache.list, cache.list.footprint
      ensures GoodTrail(host.trail, userKey, hist)
      ensures fresh(cache.list.footprint - old(cache.list.footprint)) && fresh(pool - old(pool))
      ensures old(hist) <= hist <= old(hist) + PadEdits(old(View()), at)
      ensures !ok ==> (lastError || !writable) && Broken()
      ensures meta.size >= old(meta.size)
      ensures ok ==> Valid() && View() == Flat(PadTo(old(View()).bytes, at), at, false)
      ensures ok ==> hist == old(hist) + PadEdits(old(View()), at)
      ensures writable && Serves(NodeCount(|PadTo(old(View()).bytes, at)|)) ==> ok
    {
      hide FileInner.Broken;
      hide FileInner.Serves;
      hide FileInner.Valid;
      hide Contents;
      hide GoodTrail;
      hide Edits;
      hide Zeros;
      hide FileInner.Cached;
      hide Fits;
      ValidCursor();
      ghost var c, h := View().bytes, hist;
      PadNone(c, h, at);
      if at > meta.size {
        var gap := at - meta.size;
        var _ := Seek(End(0));
        ok := PadWith(gap, c, h);
        if !ok {
          return;
        }
        ValidCursor();
      }
      var _ := Seek(Start(at));
      ValidCursor();
      ok := true;
    }

    /** `write_at`: the gap is zero-filled, the bytes go in, and the cursor returns. */
    method WriteAt(buf: seq<Byte>, at: nat) returns (r: Option<nat>)
      requires Valid() && Fits(maxCachePage, |FlatWriteAt(View(), append, buf, at).bytes|)
      modifies `tree, `meta, `metaSeal, `updateFlag, `needWriting, `status, `flushedAt, `baseline, `over, `pool, `offset, `hist, `lastError, `endOfFile
      modifies pool, root, host, journal, cache, cache.list, cache.list.footprint
      ensures GoodTrail(host.trail, userKey, hist)
      ensures fresh(cache.list.footprint - old(cache.list.footprint)) && fresh(pool - old(pool))
      ensures old(hist) <= hist <= old(hist) + StepEdits(old(View()), append, Op.WriteAt(buf, at))
      ensures r.None? ==> (lastError || !writable) && Broken()
      ensures r.Some? ==> Valid() && r.value == |buf| && View() == FlatWriteAt(old(View()), append, buf, at)
      ensures r.Some? ==> hist == old(hist) + StepEdits(old(View()), append, Op.WriteAt(buf, at))
      ensures offset == old(offset)
      ensures writable && Serves(NodeCount(|FlatWriteAt(old(View()), append, buf, at).bytes|)) ==> r.Some?
    {
      hide FileInner.Broken;
      hide FileInner.Serves;
      hide FileInner.Valid;
      hide Contents;
      hide Overwrite;
      hide GoodTrail;
      hide Edits;
      hide PadTo;
      hide PadEdits;
      hide Fits;
      hide FileInner.Cached;
      ValidCursor();
      var cursor := offset;
      ghost var before := View();
      ghost var size := |FlatWriteAt(before, append, buf, at).bytes|;
      FitsMonotone(maxCachePage, size, |PadTo(before.bytes, at)|);
      ServesSize(size, |PadTo(before.bytes, at)|);
      var ok := SeekPadding(at);
      if !ok {
        ResetCursor(cursor);
        return None;
      }
      ValidCursor();
      r := Write(buf);
      if r.Some? {
        ValidCursor();
        MoveCursor(cursor);
      } else {
        ResetCursor(cursor);
      }
    }

    /** A created file is open and empty. */
    lemma CreatedValid()
      requires Sound() && cache.values == map[] && journal.log == [] && metaSeal == Unsealed && !updateFlag
      requires meta == Meta(0, 0, ZeroMac, Zeros(MD_USER_DATA_SIZE)) && tree == map[ROOT_MHT_PHY_NUM := root.plain]
      requires root.Val() == NodeVal(false, true, ZERO_BLOCK, NewPlain(false)) && |host.trail| == 1
      requires hist == [] && flushedAt == None && baseline == host.blocks && over == map[]
      requires needWriting && !endOfFile && offset == 0 && !lastError && status == StatusOk
      ensures Valid() && View() == Flat([], 0, false)
    {
      hide FileInner.Sound;
      hide LogInv;
      hide FileInner.Cached;
      OrderListed();
      FirstListed(cache.order, cache.values);
      FreshLog(host.blocks);
      UnsealedDamaged(Restored(), userKey);
      CreatedInv(Now());
      assert Contents(0, meta.data, tree) == [];
    }

    // ---------------------------------------------------------------- opening

    /** The root `open_file` builds: new for a file without data nodes, else as the disk has it. */
    static method OpenedRoot(blocks: Disk, key: Key, meta: Meta, rootPlain: Plain) returns (root: FileNode)
      requires OpenFile(blocks, key) == Opened(meta, rootPlain)
      ensures fresh(root) && !root.isData && root.logic == 0 && root.physical == ROOT_MHT_PHY_NUM && root.parent == null
      ensures if meta.size > MD_USER_DATA_SIZE
              then ROOT_MHT_PHY_NUM in blocks && root.Val() == NodeVal(false, false, blocks[ROOT_MHT_PHY_NUM], rootPlain)
              else root.Val() == NodeVal(false, true, ZERO_BLOCK, NewPlain(false))
    {
      root := new FileNode(false, 0, ROOT_MHT_PHY_NUM, null);
      if meta.size > MD_USER_DATA_SIZE {
        root.cipher, root.plain, root.newNode := blocks[ROOT_MHT_PHY_NUM], rootPlain, false;
      }
    }

    /** The file object `open` builds from what it read and decrypted; nothing is logged for rollback. */
    constructor Open(nblocks: nat, blocks: Disk, userKey: Key, maxCachePage: nat, writable: bool, append: bool, service: Service, cursor: nat,
                     meta: Meta, rootPlain: Plain, ghost t: Tree)
      requires forall p :: p in blocks <==> p < nblocks
      requires OpenFile(blocks, userKey) == Opened(meta, rootPlain) && cursor <= meta.size
      requires Stored(blocks, userKey, meta, t) && Shaped(t) && |meta.data| == MD_USER_DATA_SIZE
      ensures Valid() && fresh(Repr()) && View() == Flat(Contents(meta.size, meta.data, t), cursor, false)
      ensures !needWriting && host.blocks == blocks && host.trail == [blocks] && journal.log == []
      ensures this.userKey == userKey && this.maxCachePage == maxCachePage
      ensures this.writable == writable && this.append == append && hist == Edits(0, View().bytes)
      ensures this.Reliable() == service.All() && host.nblocks == nblocks
    {
      hide NewPlain;
      hide LruCache.Valid;
      hide FileInner.Sound;
      hide FileInner.Valid;
      hide FileInner.Cached;
      hide FileInner.View;
      hide Contents;
      hide Edits;
      hide Stored;
      hide OpenFile;
      hide Shaped;
      hide OpenedTree;
      host := new BlockFile<Block>(nblocks, blocks, service.host);
      journal := new UndoJournal(service.appends, service.journal);
      cache := new LruCache<FileNode>(maxCachePage);
      var rootNode := OpenedRoot(blocks, userKey, meta, rootPlain);
      root := rootNode;
      this.userKey, this.maxCachePage, this.writable, this.append, keysReliable := userKey, maxCachePage, writable, append, service.keys;
      this.meta, metaSeal, updateFlag := meta, MetaSeal(userKey, meta), false;
      needWriting, endOfFile, offset, lastError, status := false, false, cursor, false, StatusOk;
      tree, pool := OpenedTree(meta, t), {};
      hist, baseline, over := Edits(0, Contents(meta.size, meta.data, t)), blocks, map[];
      flushedAt := Some(meta.size);
      new;
      EmptySound();
      OpenedValid(t);
    }

    lemma OpenedValid(t: Tree)
      requires Sound() && cache.values == map[] && journal.log == [] && metaSeal == MetaSeal(userKey, meta) && !updateFlag
      requires OpenFile(host.blocks, userKey).Opened? && OpenFile(host.blocks, userKey).meta == meta
      requires Stored(host.blocks, userKey, meta, t) && Shaped(t) && |meta.data| == MD_USER_DATA_SIZE
      requires tree == OpenedTree(meta, t) && |host.trail| == 1 && baseline == host.blocks && over == map[]
      requires if meta.size > MD_USER_DATA_SIZE
               then ROOT_MHT_PHY_NUM in host.blocks
                    && root.Val() == NodeVal(false, false, host.blocks[ROOT_MHT_PHY_NUM], OpenFile(host.blocks, userKey).root)
               else root.Val() == NodeVal(false, true, ZERO_BLOCK, NewPlain(false))
      requires hist == Edits(0, Contents(meta.size, meta.data, t)) && flushedAt == Some(meta.size)
      requires !needWriting && !endOfFile && offset <= meta.size && !lastError && status == StatusOk
      ensures Valid() && View() == Flat(Contents(meta.size, meta.data, t), offset, false)
    {
      hide FileInner.Sound;
      hide LogInv;
      hide FileInner.Cached;
      hide Contents;
      hide Replay;
      hide Reopen;
      hide Shaped;
      OrderListed();
      FirstListed(cache.order, cache.values);
      FreshLog(host.blocks);
      OpenedInv(Now(), userKey, t);
      StoredReopens(host.blocks, userKey, meta, tree);
      ReplayWhole(Contents(meta.size, meta.data, t));
      assert Restored() == host.blocks;
      ShowsAll(host.blocks, userKey, hist);
      GoodTrailWhole(host.trail, host.blocks, userKey, hist);
    }

    /** A clean file can be opened from its disk alone. */
    lemma CleanFileOpens()
      requires Valid() && !needWriting
      ensures Stored(host.blocks, userKey, meta, tree) && Shaped(tree) && |meta.data| == MD_USER_DATA_SIZE
      ensures OpenFile(host.blocks, userKey).Opened? && OpenFile(host.blocks, userKey).meta == meta
      ensures forall p :: p in host.blocks <==> p < host.nblocks
    {
      hide LruCache.Valid;
      hide AllLinked;
      hide Ordered;
      hide Contents;
      hide FileInner.Ledger;
      hide FileInner.Cached;
      hide Replay;
    }

    /**
      In every open file: a data node whose first overwrite since the last journal reset found its
      `new` mark clear is rolled back by recovery to the ciphertext the disk held at that reset.
     */
    lemma JournalHoldsPreImage(p: nat)
      requires Valid() && IsDataNode(p) && p in over && over[p]
      ensures p in baseline && Selected(journal.log, p) == Some(baseline[p])
    {
      hide FileInner.Sound;
      hide Inv;
      hide LogInv;
      hide Contents;
      hide GoodTrail;
      hide Reopen;
      hide Stored;
      SelectedIsPreImage(journal.log, baseline, over, host.blocks, p);
    }

    /** The same for the root; while it has not been overwritten it has no record. */
    lemma JournalHoldsRoot()
      requires Valid()
      ensures ROOT_MHT_PHY_NUM in over && over[ROOT_MHT_PHY_NUM] ==>
                ROOT_MHT_PHY_NUM in baseline && FirstEntry(journal.log, ROOT_MHT_PHY_NUM) == Some(baseline[ROOT_MHT_PHY_NUM])
      ensures ROOT_MHT_PHY_NUM !in over ==> FirstEntry(journal.log, ROOT_MHT_PHY_NUM).None?
    {
      hide FileInner.Sound;
      hide Inv;
      hide Contents;
      hide GoodTrail;
      hide Reopen;
      hide Stored;
      hide FirstEntry;
    }

    /** Every block that differs from the region at that reset is accounted for as overwritten. */
    lemma OverwritesRecorded(p: nat)
      requires Valid() && p >= 1 && p in host.blocks && (p !in baseline || host.blocks[p] != baseline[p])
      ensures p in over
    {
      hide FileInner.Sound;
      hide Inv;
      hide Contents;
      hide GoodTrail;
      hide Reopen;
      hide Stored;
    }
  }

  lemma RestrictsTrans(c: map<nat, FileNode>, b: map<nat, FileNode>, a: map<nat, FileNode>)
    ensures Restricts(c, c)
    ensures Restricts(c, b) && Restricts(b, a) ==> Restricts(c, a)
  {
  }

  lemma StillClean(nodes: Nodes, k: nat)
    requires forall x :: !IsDirty(nodes, x)
    ensures forall x :: !IsDirty(nodes - {k}, x)
  {
    assert forall x :: IsDirty(nodes - {k}, x) ==> IsDirty(nodes, x);
  }

  lemma FirstListed(order: seq<nat>, values: map<nat, FileNode>)
    requires forall k :: k in order ==> k in values
    ensures order != [] ==> order[0] in values
  {
  }

  lemma UpdatedChain(nodes: Nodes, p: nat, v: NodeVal)
    requires p >= 2 && p in nodes && ChainCached(nodes[p := v], p)
    ensures ChainCached(nodes, p)
  {
    var m := nodes[p := v];
    ChainCachedUpdate(m, p, p, nodes[p]);
    assert m[p := nodes[p]] == nodes;
  }

  lemma LinkedParent(values: map<nat, FileNode>, root: FileNode, p: nat)
    requires AllLinked(values, root) && p in values
    ensures ParentIs(values, root, p, values[p].parent)
  {
  }

  lemma DirtyNeedsWriting(s: State, bound: nat, p: nat)
    requires Inv(s, bound) && IsDirty(s.nodes, p)
    ensures s.needWriting && s.root.dirty && s.meta.size > MD_USER_DATA_SIZE
  {
    DirtyReachesRoot(s, p);
  }

  /** Dropping the tail of an ordered cache breaks no parent reference. */
  lemma EvictedStaysRight(values: map<nat, FileNode>, root: FileNode, order: seq<nat>)
    requires order != [] && Distinct(order) && (forall k :: k in values <==> k in order)
    ensures AllLinked(values, root) && Ordered(order) ==>
              AllLinked(values - {order[|order| - 1]}, root) && Ordered(order[..|order| - 1])
  {
    hide Parent;
    hide Ordered;
    if AllLinked(values, root) && Ordered(order) {
      var p := order[|order| - 1];
      var rest := values - {p};
      OrderedPrefix(order, |order| - 1);
      forall k | k in rest ensures ParentIs(rest, root, k, rest[k].parent) {
        assert ParentIs(values, root, k, values[k].parent);
        TailIsNoParent(order, k);
      }
    }
  }

  /** A clean node is no dirty node's parent. */
  lemma EvictedDirty(s: State, bound: nat, p: nat)
    requires p >= 2 && Inv(s, bound) && !IsDirty(s.nodes, p)
    ensures forall k :: IsDirty(s.nodes, k) ==> k >= 2 && k != p && Parent(k) != p
  {
    hide Parent;
    assert forall k :: IsDirty(s.nodes, k) ==> Live(s.Count(), k);
  }
}
