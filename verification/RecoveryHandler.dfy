/**
  Decrypting nodes during recovery: the tree is walked top-down from the logged metadata, and the
  MHT nodes met on the way are kept in a memo table.
 */
module RecoveryHandlers {
  import opened Options
  import opened Layout
  import opened Merkle
  import opened LruCaches
  import opened FileNodes

  /** The key the handler tries on the metadata. */
  const DEFAULT_KEY: Key := 0

  /** The root's plaintext, as the logged metadata and root give it. */
  function RawRoot(raw: Disk): Option<Plain> {
    if ROOT_MHT_PHY_NUM !in raw || META_DATA_PHY_NUM !in raw || !raw[META_DATA_PHY_NUM].MetaBlock? then None
    else match raw[META_DATA_PHY_NUM].seal
      case Unsealed => None
      case MetaSeal(key, meta) =>
        if key != DEFAULT_KEY then None else Decrypt(raw[ROOT_MHT_PHY_NUM], meta.mhtKey, meta.mhtGmac)
  }

  /** A node's plaintext with no memo: every ancestor is decrypted anew. */
  function RawPlain(raw: Disk, p: nat): Option<Plain>
    requires p >= 1
  {
    if RawRoot(raw).None? then None else NodePlain(raw, RawRoot(raw).value, p)
  }

  /** Metadata that is sealed under another key, or not at all, decrypts nothing. */
  lemma OtherKeyFails(raw: Disk, p: nat)
    requires p >= 1 && META_DATA_PHY_NUM in raw && raw[META_DATA_PHY_NUM].MetaBlock?
    requires raw[META_DATA_PHY_NUM].seal.MetaSeal? ==> raw[META_DATA_PHY_NUM].seal.key != DEFAULT_KEY
    ensures RawPlain(raw, p).None?
  {
  }

  /** Node `p` and its ancestors below the root are in `raw`, each sealed under its parent's slot. */
  ghost predicate PathStored(raw: Disk, tree: Tree, p: nat)
    requires p >= 1
    decreases p
  {
    p > ROOT_MHT_PHY_NUM ==> p in raw && LinkedTo(raw[p], tree, p) && (ParentBelow(p); PathStored(raw, tree, Parent(p)))
  }

  /** For a tree sealed bottom-up, the walk gives back the original plaintext, at any depth. */
  lemma {:induction false} PathDecrypts(raw: Disk, tree: Tree, meta: Meta, flag: bool, p: nat)
    requires p >= 1 && META_DATA_PHY_NUM in raw && raw[META_DATA_PHY_NUM] == MetaBlock(flag, MetaSeal(DEFAULT_KEY, meta))
    requires ROOT_MHT_PHY_NUM in raw && ROOT_MHT_PHY_NUM in tree
    requires SealedBy(raw[ROOT_MHT_PHY_NUM], Gcm(meta.mhtKey, meta.mhtGmac), tree[ROOT_MHT_PHY_NUM])
    requires PathStored(raw, tree, p)
    ensures p in tree && RawPlain(raw, p) == Some(tree[p])
    decreases p
  {
    if p > ROOT_MHT_PHY_NUM {
      ParentBelow(p);
      PathDecrypts(raw, tree, meta, flag, Parent(p));
    }
  }

  /** A set of nodes that has every member's parent. */
  ghost predicate UpClosed(keys: set<nat>) {
    forall p :: p in keys && p > ROOT_MHT_PHY_NUM ==> Parent(p) in keys
  }

  lemma RootPresent(raw: Disk, p: nat)
    requires p >= 1 && RawPlain(raw, p).Some?
    ensures p in raw && RawRoot(raw).Some?
  {
  }

  /** Only one block decrypts to a node's plaintext under its parent's slot. */
  lemma SealUnique(raw: Disk, p: nat, block: Block)
    requires p >= 1 && p in raw && RawPlain(raw, p).Some?
    ensures RawPlain(raw[p := block], p) == RawPlain(raw, p) <==> block == raw[p]
  {
    if p > ROOT_MHT_PHY_NUM {
      ParentBelow(p);
      NotAncestor(raw, p, block, RawRoot(raw).value, Parent(p));
    }
  }

  /** A node is not among the ancestors of a smaller one. */
  lemma {:induction false} NotAncestor(raw: Disk, p: nat, block: Block, root: Plain, q: nat)
    requires 1 <= q < p
    ensures NodePlain(raw[p := block], root, q) == NodePlain(raw, root, q)
    decreases q
  {
    if q > ROOT_MHT_PHY_NUM {
      ParentBelow(q);
      NotAncestor(raw, p, block, root, Parent(q));
    }
  }

  /** Below an equal root the walk does not look at the metadata again. */
  lemma {:induction false} MetadataAside(raw: Disk, block: Block, root: Plain, q: nat)
    requires q >= 1
    ensures NodePlain(raw[META_DATA_PHY_NUM := block], root, q) == NodePlain(raw, root, q)
    decreases q
  {
    if q > ROOT_MHT_PHY_NUM {
      ParentBelow(q);
      MetadataAside(raw, block, root, Parent(q));
    }
  }

  /** A memo that is not empty has the root. */
  lemma {:induction false} RootMemoised(keys: set<nat>, q: nat)
    requires UpClosed(keys) && q in keys && q >= 1
    ensures ROOT_MHT_PHY_NUM in keys
    decreases q
  {
    if q > ROOT_MHT_PHY_NUM {
      ParentBelow(q);
      RootMemoised(keys, Parent(q));
    }
  }

  lemma MetadataPushed(raw: Disk, keys: set<nat>, block: Block)
    requires UpClosed(keys) && (forall k :: k in keys ==> k >= 1 && RawPlain(raw, k).Some?)
    ensures (forall k :: k in keys ==> k >= 1 && RawPlain(raw[META_DATA_PHY_NUM := block], k) == RawPlain(raw, k))
            <==> keys == {} || RawRoot(raw[META_DATA_PHY_NUM := block]) == RawRoot(raw)
  {
    hide Parent;
    hide RawRoot;
    var more := raw[META_DATA_PHY_NUM := block];
    if RawRoot(more) == RawRoot(raw) {
      forall k | k in keys ensures RawPlain(more, k) == RawPlain(raw, k) {
        MetadataAside(raw, block, RawRoot(raw).value, k);
      }
    } else if k :| k in keys {
      RootMemoised(keys, k);
      assert RawPlain(raw, ROOT_MHT_PHY_NUM) == RawRoot(raw);
    }
  }

  /** A node outside an upward-closed set is on no path from it. */
  lemma {:induction false} NotMemoised(raw: Disk, keys: set<nat>, p: nat, block: Block, q: nat)
    requires UpClosed(keys) && p !in keys && q in keys && q >= 1 && (p >= 1 || p !in raw) && RawPlain(raw, q).Some?
    requires forall k :: k in keys ==> k >= 1 && RawPlain(raw, k).Some?
    ensures RawPlain(raw[p := block], q) == RawPlain(raw, q)
    decreases q
  {
    if q > ROOT_MHT_PHY_NUM {
      ParentBelow(q);
      NotMemoised(raw, keys, p, block, Parent(q));
    }
  }

  class RecoveryHandler {
    var rawMhts: Disk
    var mhts: map<nat, FileNode>

    /** Every memoised node holds what the walk without a memo gives. */
    ghost predicate Right()
      reads this, mhts.Values
    {
      forall p :: p in mhts ==> p >= 1 && RawPlain(rawMhts, p) == Some(mhts[p].plain)
    }

    ghost predicate Valid()
      reads this, mhts.Values
    {
      Right() && UpClosed(mhts.Keys)
    }

    constructor (raw: Disk)
      ensures Valid() && rawMhts == raw && mhts == map[]
    {
      rawMhts, mhts := raw, map[];
    }

    /**
      Logging a node again leaves the memo right exactly when the node is not memoised yet or is the
      same block; a memoised node that is logged anew is answered from the old record.  Metadata
      logged again leaves it right exactly when nothing is memoised yet or the root it leads to is the
      same.
     */
    method PushRawMht(p: nat, block: Block)
      requires Valid()
      modifies `rawMhts
      ensures rawMhts == old(rawMhts)[p := block] && UpClosed(mhts.Keys)
      ensures p >= 1 ==> (Right() <==> (p in mhts ==> block == old(rawMhts)[p]))
      ensures p == META_DATA_PHY_NUM ==> (Right() <==> mhts == map[] || RawRoot(rawMhts) == RawRoot(old(rawMhts)))
    {
      ghost var raw := rawMhts;
      rawMhts := rawMhts[p := block];
      if p == META_DATA_PHY_NUM {
        MetadataPushed(raw, mhts.Keys, block);
      } else if p in mhts {
        RootPresent(raw, p);
        SealUnique(raw, p, block);
        assert block == raw[p] ==> rawMhts == raw;
      } else {
        forall q | q in mhts ensures RawPlain(rawMhts, q) == RawPlain(raw, q) {
          NotMemoised(raw, mhts.Keys, p, block, q);
        }
      }
    }

    /** Adds a decrypted node to the memo. */
    method Remember(p: nat, node: FileNode)
      requires Valid() && p >= 1 && RawPlain(rawMhts, p) == Some(node.plain)
      requires p == ROOT_MHT_PHY_NUM || Parent(p) in mhts
      modifies `mhts
      ensures Valid() && mhts == old(mhts)[p := node]
    {
      hide RawPlain;
      hide Parent;
      mhts := mhts[p := node];
    }

    method GetRoot() returns (r: Option<FileNode>)
      requires Valid()
      modifies `mhts
      ensures Valid() && (r.Some? <==> RawPlain(rawMhts, ROOT_MHT_PHY_NUM).Some?)
      ensures r.Some? ==> ROOT_MHT_PHY_NUM in mhts && RawPlain(rawMhts, ROOT_MHT_PHY_NUM) == Some(r.value.plain)
      ensures old(mhts).Keys <= mhts.Keys
    {
      if ROOT_MHT_PHY_NUM in mhts {
        return Some(mhts[ROOT_MHT_PHY_NUM]);
      }
      var node := new FileNode(false, 0, ROOT_MHT_PHY_NUM, null);
      if ROOT_MHT_PHY_NUM !in rawMhts || META_DATA_PHY_NUM !in rawMhts {
        return None;
      }
      node.cipher := rawMhts[ROOT_MHT_PHY_NUM];
      var block := rawMhts[META_DATA_PHY_NUM];
      if !block.MetaBlock? || block.seal.Unsealed? || block.seal.key != DEFAULT_KEY {
        return None;
      }
      var meta := block.seal.meta;
      var plain := Decrypt(node.cipher, meta.mhtKey, meta.mhtGmac);
      if plain.None? {
        return None;
      }
      node.plain := plain.value;
      Remember(ROOT_MHT_PHY_NUM, node);
      return Some(node);
    }

    /** Decrypts a logged MHT node under its parent and remembers it. */
    method LoadMhtNode(logic: nat, up: FileNode) returns (r: Option<FileNode>)
      requires Valid() && logic > 0
      requires Parent(MhtPhys(logic)) in mhts && RawPlain(rawMhts, Parent(MhtPhys(logic))) == Some(up.plain)
      modifies `mhts
      ensures Valid() && (r.Some? <==> RawPlain(rawMhts, MhtPhys(logic)).Some?)
      ensures r.Some? ==> MhtPhys(logic) in mhts && RawPlain(rawMhts, MhtPhys(logic)) == Some(r.value.plain)
      ensures old(mhts).Keys <= mhts.Keys
    {
      hide Parent;
      hide SlotOf;
      hide GetGcm;
      hide RawRoot;
      hide IsDataNode;
      hide LogicOf;
      hide MhtPhys;
      hide Decrypt;
      var p := MhtPhys(logic);
      MhtParent(logic);
      if p !in rawMhts {
        return None;
      }
      var node := new FileNode(false, logic, p, up);
      node.cipher := rawMhts[p];
      var gcm := GetGcm(up.plain, node.GcmIndex());
      if gcm.None? {
        return None;
      }
      var plain := Decrypt(node.cipher, gcm.value.key, gcm.value.mac);
      if plain.None? {
        return None;
      }
      node.plain := plain.value;
      Remember(p, node);
      return Some(node);
    }

    /**
      `get_mht_node`: the memo never changes the answer, and the recursion ends because a parent's
      logical number is smaller.  `None` stands for the panics on missing or damaged ancestors.
     */
    method GetMhtNode(logic: nat) returns (r: Option<FileNode>)
      requires Valid()
      modifies `mhts
      ensures Valid() && (r.Some? <==> RawPlain(rawMhts, MhtPhys(logic)).Some?)
      ensures r.Some? ==> MhtPhys(logic) in mhts && RawPlain(rawMhts, MhtPhys(logic)) == Some(r.value.plain)
      ensures old(mhts).Keys <= mhts.Keys
      decreases logic
    {
      hide Parent;
      hide RawRoot;
      if logic == 0 {
        r := GetRoot();
        return;
      }
      var p := MhtPhys(logic);
      if p in mhts {
        return Some(mhts[p]);
      }
      MhtParent(logic);
      var up := GetMhtNode((logic - 1) / CHILD_MHT_NODES_COUNT);
      if up.None? {
        return None;
      }
      r := LoadMhtNode(logic, up.value);
    }

    /** `decrypt_node`: a logged data node under its logged ancestors. */
    method DecryptNode(p: nat, block: Block) returns (r: Option<FileNode>)
      requires Valid() && IsDataNode(p)
      modifies `mhts
      ensures Valid()
      ensures r.Some? <==> RawPlain(rawMhts[p := block], p).Some?
      ensures r.Some? ==> RawPlain(rawMhts[p := block], p) == Some(r.value.plain) && r.value.Is(p)
    {
      var logic := CalculateMhtLogicalNumber(p);
      ParentBelow(p);
      NotOnPath(rawMhts, p, block, Parent(p));
      var up := GetMhtNode(logic);
      if up.None? {
        return None;
      }
      var node := new FileNode(true, CalculateDataLogicalNumber(p), p, up.value);
      node.cipher := block;
      var gcm := GetGcm(up.value.plain, node.GcmIndex());
      if gcm.None? {
        return None;
      }
      var plain := Decrypt(node.cipher, gcm.value.key, gcm.value.mac);
      if plain.None? {
        return None;
      }
      node.plain := plain.value;
      return Some(node);
    }
  }

  /** A data node is on no other node's path. */
  lemma {:induction false} NotOnPath(raw: Disk, p: nat, block: Block, q: nat)
    requires p >= 2 && IsDataNode(p) && q >= 1 && !IsDataNode(q)
    ensures RawPlain(raw[p := block], q) == RawPlain(raw, q)
    decreases q
  {
    if q > ROOT_MHT_PHY_NUM {
      ParentBelow(q);
      NotOnPath(raw, p, block, Parent(q));
    }
  }
}
