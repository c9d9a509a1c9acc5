/**
  The encrypted Merkle tree of a protected file, with sealing taken symbolically.

  A ciphertext is the pair of the key and the plaintext it was made from, and a MAC names both:
  the only assumption about the cipher is that it can be undone with the right key and MAC.
 */
module Merkle {
  import opened Options
  import opened Layout

  type Byte = x: int | 0 <= x < 256
  type Key = nat

  /** Plaintext of a node: the children's keys and MACs, or user bytes. */
  datatype Plain = MhtPlain(data: seq<Gcm>, mht: seq<Gcm>) | DataPlain(bytes: seq<Byte>)

  datatype Mac = ZeroMac | Tag(key: Key, plain: Plain)

  datatype Gcm = Gcm(key: Key, mac: Mac)

  /** The encrypted part of the metadata block; the file name is not modelled. */
  datatype Meta = Meta(size: nat, mhtKey: Key, mhtGmac: Mac, data: seq<Byte>)

  datatype MetaSeal = Unsealed | MetaSeal(key: Key, meta: Meta)

  /** One block of the data region. */
  datatype Block =
    | Raw(bytes: seq<Byte>)
    | Sealed(key: Key, plain: Plain)
    | MetaBlock(updateFlag: bool, seal: MetaSeal)

  type Disk = map<nat, Block>
  type Tree = map<nat, Plain>

  const ZERO_GCM := Gcm(0, ZeroMac)
  const ZERO_BLOCK := Raw([])

  function Decrypt(block: Block, key: Key, mac: Mac): Option<Plain> {
    if block.Sealed? && block.key == key && mac == Tag(key, block.plain) then Some(block.plain) else None
  }

  function NewPlain(isData: bool): Plain {
    if isData then DataPlain(seq(NODE_SIZE, _ => 0))
    else MhtPlain(seq(ATTACHED_DATA_NODES_COUNT, _ => ZERO_GCM), seq(CHILD_MHT_NODES_COUNT, _ => ZERO_GCM))
  }

  predicate WellShaped(isData: bool, plain: Plain) {
    match plain
    case DataPlain(bytes) => isData && |bytes| == NODE_SIZE
    case MhtPlain(data, mht) => !isData && |data| == ATTACHED_DATA_NODES_COUNT && |mht| == CHILD_MHT_NODES_COUNT
  }

  lemma NewPlainShaped(isData: bool)
    ensures WellShaped(isData, NewPlain(isData))
  {
  }

  function GetGcm(plain: Plain, slot: Slot): Option<Gcm> {
    match plain
    case DataPlain(_) => None
    case MhtPlain(data, mht) =>
      match slot
      case DataSlot(i) => if i < |data| then Some(data[i]) else None
      case ChildSlot(i) => if i < |mht| then Some(mht[i]) else None
  }

  function SetGcm(plain: Plain, slot: Slot, gcm: Gcm): Plain {
    match plain
    case DataPlain(_) => plain
    case MhtPlain(data, mht) =>
      match slot
      case DataSlot(i) => if i < |data| then plain.(data := data[i := gcm]) else plain
      case ChildSlot(i) => if i < |mht| then plain.(mht := mht[i := gcm]) else plain
  }

  /** Setting a slot is seen through that slot and no other. */
  lemma SlotUpdate(plain: Plain, slot: Slot, gcm: Gcm, other: Slot)
    requires WellShaped(false, plain)
    ensures WellShaped(false, SetGcm(plain, slot, gcm))
    ensures GetGcm(plain, slot).Some? ==> GetGcm(SetGcm(plain, slot, gcm), slot) == Some(gcm)
    ensures other != slot ==> GetGcm(SetGcm(plain, slot, gcm), other) == GetGcm(plain, other)
  {
  }

  lemma SlotPresent(plain: Plain, physical: nat)
    requires physical >= 2 && WellShaped(false, plain)
    ensures GetGcm(plain, SlotOf(physical)).Some?
  {
    SlotInRange(physical);
  }

  /** `block` is the ciphertext of `plain` under the key and MAC in `gcm`. */
  predicate SealedBy(block: Block, gcm: Gcm, plain: Plain) {
    block == Sealed(gcm.key, plain) && gcm.mac == Tag(gcm.key, plain)
  }

  /** The parent of `p` in `tree` holds the key and MAC of `block`, and `block` holds `p`. */
  predicate LinkedTo(block: Block, tree: Tree, p: nat)
    requires p >= 2
  {
    && p in tree && Parent(p) in tree
    && var g := GetGcm(tree[Parent(p)], SlotOf(p));
    && g.Some? && SealedBy(block, g.value, tree[p])
  }

  // ---------------------------------------------------------------- reading the disk alone

  /** What decrypting node `p` top-down from the root gives. */
  function NodePlain(disk: Disk, root: Plain, p: nat): Option<Plain>
    requires p >= 1
    decreases p
  {
    if p == ROOT_MHT_PHY_NUM then Some(root)
    else
      ParentBelow(p);
      var parent := NodePlain(disk, root, Parent(p));
      if parent.None? || p !in disk then None
      else
        var g := GetGcm(parent.value, SlotOf(p));
        if g.None? then None else Decrypt(disk[p], g.value.key, g.value.mac)
  }

  datatype Opened = Refused | Damaged | Opened(meta: Meta, root: Plain)

  /** `open_file`: the update flag is checked before anything is decrypted. */
  function OpenFile(disk: Disk, key: Key): Opened {
    if META_DATA_PHY_NUM !in disk || !disk[META_DATA_PHY_NUM].MetaBlock? then Damaged
    else if disk[META_DATA_PHY_NUM].updateFlag then Refused
    else match disk[META_DATA_PHY_NUM].seal
      case Unsealed => Damaged
      case MetaSeal(k, meta) =>
        if k != key then Damaged
        else if meta.size <= MD_USER_DATA_SIZE then Opened(meta, NewPlain(false))
        else if ROOT_MHT_PHY_NUM !in disk then Damaged
        else match Decrypt(disk[ROOT_MHT_PHY_NUM], meta.mhtKey, meta.mhtGmac)
          case None => Damaged
          case Some(root) => Opened(meta, root)
  }

  function ByteAt(data: seq<Byte>, tree: Tree, i: nat): Byte {
    if i < MD_USER_DATA_SIZE then
      if i < |data| then data[i] else 0
    else
      var p, o := GetNodeNumbers(i).dataPhys, (i - MD_USER_DATA_SIZE) % NODE_SIZE;
      if p in tree && tree[p].DataPlain? && o < |tree[p].bytes| then tree[p].bytes[o] else 0
  }

  /** The logical file behind a metadata head and a tree of plaintexts. */
  function Contents(size: nat, data: seq<Byte>, tree: Tree): (c: seq<Byte>)
    ensures |c| == size
  {
    seq(size, i requires 0 <= i < size => ByteAt(data, tree, i))
  }

  datatype Snapshot = NoSnapshot(refused: bool) | Snapshot(bytes: seq<Byte>)

  ghost predicate Decodes(disk: Disk, root: Plain, count: nat) {
    forall d: nat :: d < count ==> NodePlain(disk, root, DataPhys(d)).Some?
  }

  ghost function DiskTree(disk: Disk, root: Plain, count: nat): Tree
    requires Decodes(disk, root, count)
  {
    map p: nat | p in disk && IsDataNode(p) && LogicOf(p) < count && NodePlain(disk, root, p).Some? :: NodePlain(disk, root, p).value
  }

  /** The file a fresh reader finds on a disk image: open it, then decrypt every data node. */
  ghost function Reopen(disk: Disk, key: Key): Snapshot {
    match OpenFile(disk, key)
    case Refused => NoSnapshot(true)
    case Damaged => NoSnapshot(false)
    case Opened(meta, root) =>
      if Decodes(disk, root, NodeCount(meta.size))
      then Snapshot(Contents(meta.size, meta.data, DiskTree(disk, root, NodeCount(meta.size))))
      else NoSnapshot(false)
  }

  /** The disk alone holds the file `meta`, `tree`: metadata, root and every node below it. */
  ghost predicate Stored(disk: Disk, key: Key, meta: Meta, tree: Tree) {
    && META_DATA_PHY_NUM in disk
    && disk[META_DATA_PHY_NUM] == MetaBlock(false, MetaSeal(key, meta))
    && (NodeCount(meta.size) > 0 ==>
          && ROOT_MHT_PHY_NUM in disk && ROOT_MHT_PHY_NUM in tree
          && SealedBy(disk[ROOT_MHT_PHY_NUM], Gcm(meta.mhtKey, meta.mhtGmac), tree[ROOT_MHT_PHY_NUM]))
    && (forall p: nat :: Live(NodeCount(meta.size), p) ==> p in disk && LinkedTo(disk[p], tree, p))
  }

  lemma {:induction false} StoredNode(disk: Disk, key: Key, meta: Meta, tree: Tree, p: nat)
    requires Stored(disk, key, meta, tree)
    requires Live(NodeCount(meta.size), p)
    ensures p in tree && NodePlain(disk, tree[ROOT_MHT_PHY_NUM], p) == Some(tree[p])
    decreases p
  {
    ParentBelow(p);
    ParentLive(NodeCount(meta.size), p);
    if Parent(p) != ROOT_MHT_PHY_NUM {
      StoredNode(disk, key, meta, tree, Parent(p));
    }
  }

  /** A stored file is what a fresh reader gets back, byte for byte. */
  lemma StoredReopens(disk: Disk, key: Key, meta: Meta, tree: Tree)
    requires Stored(disk, key, meta, tree)
    ensures Reopen(disk, key) == Snapshot(Contents(meta.size, meta.data, tree))
  {
    var n := NodeCount(meta.size);
    var root := if n > 0 then tree[ROOT_MHT_PHY_NUM] else NewPlain(false);
    assert OpenFile(disk, key) == Opened(meta, root);
    forall d: nat | d < n
      ensures DataPhys(d) in tree && NodePlain(disk, root, DataPhys(d)) == Some(tree[DataPhys(d)])
    {
      DataNumbering(d);
      StoredNode(disk, key, meta, tree, DataPhys(d));
    }
    var t := DiskTree(disk, root, n);
    forall i: nat | i < meta.size
      ensures ByteAt(meta.data, t, i) == ByteAt(meta.data, tree, i)
    {
      if i >= MD_USER_DATA_SIZE {
        NumberingInverts(i);
        var nn := GetNodeNumbers(i);
        assert nn.dataLogic < n;
        assert NodePlain(disk, root, nn.dataPhys) == Some(tree[nn.dataPhys]);
        assert t[nn.dataPhys] == tree[nn.dataPhys];
      }
    }
    assert Contents(meta.size, meta.data, t) == Contents(meta.size, meta.data, tree);
  }

  /** A stored file opens under its own key and under no other. */
  lemma StoredKeyed(disk: Disk, key: Key, meta: Meta, tree: Tree, other: Key)
    requires Stored(disk, key, meta, tree)
    ensures OpenFile(disk, other).Opened? <==> other == key
  {
  }

  /** The root determines every node: two disks that both decode a node decode the same one. */
  lemma {:induction false} RootDeterminesNode(a: Disk, b: Disk, root: Plain, p: nat)
    requires p >= 1
    requires NodePlain(a, root, p).Some? && NodePlain(b, root, p).Some?
    ensures NodePlain(a, root, p) == NodePlain(b, root, p)
    decreases p
  {
    if p != ROOT_MHT_PHY_NUM {
      ParentBelow(p);
      RootDeterminesNode(a, b, root, Parent(p));
    }
  }
}
