/** A node of the tree as the engine shares it between the cache and the node's children. */
module FileNodes {
  import opened Options
  import opened Layout
  import opened Merkle
  import opened FileState

  class FileNode {
    const isData: bool
    const logic: nat
    const physical: nat
    const parent: FileNode?
    var needWriting: bool
    var newNode: bool
    var cipher: Block
    var plain: Plain

    ghost function Val(): NodeVal
      reads this
    {
      NodeVal(needWriting, newNode, cipher, plain)
    }

    constructor (isData: bool, logic: nat, physical: nat, parent: FileNode?)
      ensures this.isData == isData && this.logic == logic && this.physical == physical && this.parent == parent
      ensures Val() == NodeVal(false, true, ZERO_BLOCK, NewPlain(isData))
    {
      this.isData, this.logic, this.physical, this.parent := isData, logic, physical, parent;
      needWriting, newNode, cipher, plain := false, true, ZERO_BLOCK, NewPlain(isData);
    }

    predicate IsRootMht() {
      logic == 0 && physical == ROOT_MHT_PHY_NUM
    }

    function GcmIndex(): Slot
      requires isData || logic > 0
    {
      if isData then DataSlot(logic % ATTACHED_DATA_NODES_COUNT)
      else ChildSlot((logic - 1) % CHILD_MHT_NODES_COUNT)
    }

    /** The object is the node with physical number `p`. */
    ghost predicate Is(p: nat) {
      p >= 2 && physical == p && isData == IsDataNode(p) && logic == LogicOf(p)
    }

    lemma GcmIndexIsSlot(p: nat)
      requires Is(p)
      ensures !IsRootMht() && (isData || logic > 0) && GcmIndex() == SlotOf(p)
    {
      NumbersPartition(p);
    }

    /** Seals the plaintext and hands key and MAC to the parent. */
    method Encrypt(key: Key) returns (r: Option<Mac>)
      requires IsRootMht() || isData || logic > 0
      modifies this`cipher, (if parent == null then {} else {parent})`plain
      ensures r.Some? <==> IsRootMht() || parent != null
      ensures r.Some? ==> cipher == Sealed(key, old(plain)) && r.value == Tag(key, old(plain))
      ensures r.Some? && !IsRootMht() ==>
                parent.plain == SetGcm(old(parent.plain), GcmIndex(), Gcm(key, Tag(key, old(plain))))
      ensures r.None? ==> cipher == old(cipher)
    {
      if !IsRootMht() && parent == null {
        return None;
      }
      var mac := Tag(key, plain);
      cipher := Sealed(key, plain);
      if !IsRootMht() {
        parent.plain := SetGcm(parent.plain, GcmIndex(), Gcm(key, mac));
      }
      return Some(mac);
    }
  }
}
