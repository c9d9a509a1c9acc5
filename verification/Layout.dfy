/**
  Node numbering of a protected file.

  Block 0 of the data region holds the metadata, block 1 the root MHT node, and then
  groups of 97 blocks follow one another: 96 data nodes, then the next MHT node.
  The write path numbers nodes from byte offsets; the recovery path goes back from
  physical numbers to logical ones.  This module shows that the two agree, that the
  numbering is a bijection, and that it orders the tree bottom-up.
 */
module Layout {
  const NODE_SIZE := 4096
  const MD_USER_DATA_SIZE := 3072
  const ATTACHED_DATA_NODES_COUNT := 96
  const CHILD_MHT_NODES_COUNT := 32

  const META_DATA_PHY_NUM := 0
  const ROOT_MHT_PHY_NUM := 1

  /** Where a node's key and MAC live inside its parent. */
  datatype Slot = DataSlot(index: nat) | ChildSlot(index: nat)

  datatype NodeNumbers = NodeNumbers(mhtLogic: nat, dataLogic: nat, mhtPhys: nat, dataPhys: nat)

  /** Numbers of the data node that covers byte `offset`, and of its MHT node. */
  function GetNodeNumbers(offset: nat): NodeNumbers {
    if offset < MD_USER_DATA_SIZE then NodeNumbers(0, 0, 0, 0)
    else
      var dataLogic := (offset - MD_USER_DATA_SIZE) / NODE_SIZE;
      var mhtLogic := dataLogic / ATTACHED_DATA_NODES_COUNT;
      var dataPhys := dataLogic + 1 + 1 + mhtLogic;
      var mhtPhys := dataPhys - dataLogic % ATTACHED_DATA_NODES_COUNT - 1;
      NodeNumbers(mhtLogic, dataLogic, mhtPhys, dataPhys)
  }

  /** Physical number given to an MHT node when it is appended or read. */
  function MhtPhys(logic: nat): nat {
    1 + logic * (ATTACHED_DATA_NODES_COUNT + 1)
  }

  /** Physical number of a data node. */
  function DataPhys(logic: nat): nat {
    logic + 2 + logic / ATTACHED_DATA_NODES_COUNT
  }

  predicate IsDataNode(physical: nat) {
    if physical == 0 then false
    else (physical - 1) % (ATTACHED_DATA_NODES_COUNT + 1) != 0
  }

  /** The recovery path's classifier; it counts the metadata block as an MHT node. */
  predicate IsMhtNode(physical: nat) {
    if physical <= 1 then true
    else (physical - 1) % (ATTACHED_DATA_NODES_COUNT + 1) == 0
  }

  function CalculateMhtLogicalNumber(physical: nat): nat
    requires physical >= 2
  {
    (physical - 2) / (ATTACHED_DATA_NODES_COUNT + 1)
  }

  function CalculateDataLogicalNumber(physical: nat): nat
    requires physical >= 2
  {
    physical - 2 - (physical - 2) / (ATTACHED_DATA_NODES_COUNT + 1)
  }

  /** Logical number of a node of either kind. */
  function LogicOf(physical: nat): nat
    requires physical >= 1
  {
    if IsDataNode(physical) then CalculateDataLogicalNumber(physical)
    else (physical - 1) / (ATTACHED_DATA_NODES_COUNT + 1)
  }

  /** Physical number of a node's parent in the tree. */
  function Parent(physical: nat): nat
    requires physical >= 2
  {
    if IsDataNode(physical) then MhtPhys(CalculateMhtLogicalNumber(physical))
    else MhtPhys((LogicOf(physical) - 1) / CHILD_MHT_NODES_COUNT)
  }

  /** The parent's slot that holds a node's key and MAC (`gcm_index`). */
  function SlotOf(physical: nat): Slot
    requires physical >= 2
  {
    if IsDataNode(physical) then DataSlot(LogicOf(physical) % ATTACHED_DATA_NODES_COUNT)
    else ChildSlot((LogicOf(physical) - 1) % CHILD_MHT_NODES_COUNT)
  }

  /** Number of non-root MHT nodes from MHT node `logic` up to, and not counting, the root. */
  function Depth(logic: nat): nat {
    if logic == 0 then 0 else 1 + Depth((logic - 1) / CHILD_MHT_NODES_COUNT)
  }

  /** Number of data nodes behind a file of `size` bytes. */
  function NodeCount(size: nat): nat {
    if size <= MD_USER_DATA_SIZE then 0
    else (size - MD_USER_DATA_SIZE + NODE_SIZE - 1) / NODE_SIZE
  }

  /** First data node below a node: a node is part of the tree once that one exists. */
  function FirstData(physical: nat): nat
    requires physical >= 1
  {
    if IsDataNode(physical) then LogicOf(physical)
    else ATTACHED_DATA_NODES_COUNT * LogicOf(physical)
  }

  /** The non-root nodes of a tree with `count` data nodes. */
  predicate Live(count: nat, physical: nat) {
    physical >= 2 && FirstData(physical) < count
  }

  // ---------------------------------------------------------------- inverses

  /** Recovery's logical numbers undo the numbering of the write path. */
  lemma NumberingInverts(offset: nat)
    requires offset >= MD_USER_DATA_SIZE
    ensures var nn := GetNodeNumbers(offset);
            && IsDataNode(nn.dataPhys) && !IsDataNode(nn.mhtPhys)
            && CalculateDataLogicalNumber(nn.dataPhys) == nn.dataLogic
            && CalculateMhtLogicalNumber(nn.dataPhys) == nn.mhtLogic
            && nn.dataPhys == DataPhys(nn.dataLogic)
            && nn.mhtPhys == MhtPhys(nn.mhtLogic) == Parent(nn.dataPhys)
            && LogicOf(nn.mhtPhys) == nn.mhtLogic
            && SlotOf(nn.dataPhys) == DataSlot(nn.dataLogic % ATTACHED_DATA_NODES_COUNT)
  {
    var nn := GetNodeNumbers(offset);
    DataNumbering(nn.dataLogic);
    MhtNumbering(nn.mhtLogic);
  }

  /** Every data number is the number of some offset, so the numbering is onto. */
  lemma NumberingOnto(physical: nat)
    requires IsDataNode(physical)
    ensures var offset := MD_USER_DATA_SIZE + CalculateDataLogicalNumber(physical) * NODE_SIZE;
            GetNodeNumbers(offset).dataPhys == physical
  {
    var d := CalculateDataLogicalNumber(physical);
    DataNumberingOnto(physical);
    assert (MD_USER_DATA_SIZE + d * NODE_SIZE - MD_USER_DATA_SIZE) / NODE_SIZE == d;
  }

  lemma DataNumbering(logic: nat)
    ensures IsDataNode(DataPhys(logic))
    ensures CalculateDataLogicalNumber(DataPhys(logic)) == logic
    ensures CalculateMhtLogicalNumber(DataPhys(logic)) == logic / ATTACHED_DATA_NODES_COUNT
  {
    var q, r := logic / 96, logic % 96;
    assert DataPhys(logic) - 2 == 97 * q + r;
    assert (97 * q + r) / 97 == q;
    assert (97 * q + r + 1) % 97 == r + 1;
  }

  lemma DataNumberingOnto(physical: nat)
    requires IsDataNode(physical)
    ensures DataPhys(CalculateDataLogicalNumber(physical)) == physical
  {
    var q, r := (physical - 2) / 97, (physical - 2) % 97;
    assert r < 96 by {
      assert (physical - 1) % 97 == (r + 1) % 97;
    }
    assert (96 * q + r) / 96 == q;
  }

  lemma MhtNumbering(logic: nat)
    ensures !IsDataNode(MhtPhys(logic))
    ensures LogicOf(MhtPhys(logic)) == logic
  {
    assert (97 * logic) % 97 == 0 && (97 * logic) / 97 == logic;
  }

  /**
    The two classifiers are complementary on every number, and every number is the metadata
    block, an MHT node or a data node, in exactly one way.
   */
  lemma NumbersPartition(physical: nat)
    ensures IsMhtNode(physical) == !IsDataNode(physical)
    ensures physical == META_DATA_PHY_NUM
            || (IsDataNode(physical) && physical == DataPhys(LogicOf(physical)))
            || (!IsDataNode(physical) && physical == MhtPhys(LogicOf(physical)))
    ensures forall d: nat :: DataPhys(d) == physical ==> IsDataNode(physical) && d == LogicOf(physical)
    ensures forall m: nat :: MhtPhys(m) == physical ==> physical >= 1 && !IsDataNode(physical) && m == LogicOf(physical)
  {
    forall d: nat | DataPhys(d) == physical
      ensures IsDataNode(physical) && d == LogicOf(physical)
    {
      DataNumbering(d);
    }
    forall m: nat | MhtPhys(m) == physical
      ensures physical >= 1 && !IsDataNode(physical) && m == LogicOf(physical)
    {
      MhtNumbering(m);
    }
    if IsDataNode(physical) {
      DataNumberingOnto(physical);
    }
  }

  // ---------------------------------------------------------------- tree shape

  /** Parents have smaller numbers, so descending order visits children before parents. */
  lemma ParentBelow(physical: nat)
    requires physical >= 2
    ensures ROOT_MHT_PHY_NUM <= Parent(physical) < physical
    ensures !IsDataNode(Parent(physical))
  {
    if IsDataNode(physical) {
      MhtNumbering(CalculateMhtLogicalNumber(physical));
    } else {
      MhtNumbering((LogicOf(physical) - 1) / 32);
    }
  }

  /** Where an MHT node hangs, from its logical number. */
  lemma MhtParent(logic: nat)
    requires logic > 0
    ensures MhtPhys(logic) >= 2 && !IsDataNode(MhtPhys(logic)) && LogicOf(MhtPhys(logic)) == logic
    ensures Parent(MhtPhys(logic)) == MhtPhys((logic - 1) / CHILD_MHT_NODES_COUNT)
    ensures Parent(MhtPhys(logic)) == ROOT_MHT_PHY_NUM <==> (logic - 1) / CHILD_MHT_NODES_COUNT == 0
    ensures SlotOf(MhtPhys(logic)) == ChildSlot((logic - 1) % CHILD_MHT_NODES_COUNT)
  {
    MhtNumbering(logic);
  }

  /** No two nodes share a slot of the same parent. */
  lemma SlotInjective(p: nat, q: nat)
    requires p >= 2 && q >= 2
    requires Parent(p) == Parent(q) && SlotOf(p) == SlotOf(q)
    ensures p == q
  {
    if IsDataNode(p) {
      var a, b := CalculateMhtLogicalNumber(p), CalculateMhtLogicalNumber(q);
      MhtNumbering(a);
      MhtNumbering(b);
      assert a == b;
      DataNumberingOnto(p);
      DataNumberingOnto(q);
      DataNumbering(LogicOf(p));
      DataNumbering(LogicOf(q));
    } else {
      var a, b := (LogicOf(p) - 1) / 32, (LogicOf(q) - 1) / 32;
      MhtNumbering(a);
      MhtNumbering(b);
      assert a == b;
      NumbersPartition(p);
      NumbersPartition(q);
    }
  }

  lemma SlotInRange(physical: nat)
    requires physical >= 2
    ensures match SlotOf(physical)
            case DataSlot(i) => IsDataNode(physical) && i < ATTACHED_DATA_NODES_COUNT
            case ChildSlot(i) => !IsDataNode(physical) && i < CHILD_MHT_NODES_COUNT
  {
  }

  /** The tree is closed under parents. */
  lemma ParentLive(count: nat, physical: nat)
    requires Live(count, physical)
    ensures Parent(physical) == ROOT_MHT_PHY_NUM || Live(count, Parent(physical))
  {
    if IsDataNode(physical) {
      var m := CalculateMhtLogicalNumber(physical);
      MhtNumbering(m);
      DataNumberingOnto(physical);
      DataNumbering(LogicOf(physical));
    } else {
      MhtNumbering((LogicOf(physical) - 1) / 32);
    }
  }

  /** The parent of a node just past the tree is in the tree, unless it is a new MHT node itself. */
  lemma AppendParentLive(count: nat, physical: nat)
    requires Live(count + 1, physical) && !Live(count, physical) && !IsDataNode(physical)
    ensures Parent(physical) == ROOT_MHT_PHY_NUM || Live(count, Parent(physical))
  {
    MhtNumbering((LogicOf(physical) - 1) / 32);
  }

  lemma LiveMonotone(a: nat, b: nat, physical: nat)
    requires a <= b && Live(a, physical)
    ensures Live(b, physical)
  {
  }

  /** Adding data node `count` adds that node and, at a group boundary, its MHT node. */
  lemma LiveNext(count: nat, physical: nat)
    requires Live(count + 1, physical)
    ensures Live(count, physical) || physical == DataPhys(count)
            || (count % ATTACHED_DATA_NODES_COUNT == 0 && physical == MhtPhys(count / ATTACHED_DATA_NODES_COUNT))
  {
    NumbersPartition(physical);
  }

  /** A fetch at the end of the last full node needs the next data node; any other finds one. */
  lemma FetchData(offset: nat, size: nat)
    requires MD_USER_DATA_SIZE <= offset <= size
    ensures var nn, c := GetNodeNumbers(offset), NodeCount(size);
            if offset == size && (offset - MD_USER_DATA_SIZE) % NODE_SIZE == 0
            then nn.dataLogic == c && Live(c + 1, nn.dataPhys) && !Live(c, nn.dataPhys)
            else nn.dataLogic < c && Live(c, nn.dataPhys)
  {
    var nn := GetNodeNumbers(offset);
    NumberingInverts(offset);
    hide IsDataNode;
    assert FirstData(nn.dataPhys) == nn.dataLogic;
  }

  /** At the end of a full group the fetch needs the next MHT node too; any other finds it. */
  lemma FetchMht(offset: nat, size: nat)
    requires MD_USER_DATA_SIZE <= offset <= size && GetNodeNumbers(offset).mhtLogic > 0
    ensures var nn, c := GetNodeNumbers(offset), NodeCount(size);
            && nn.mhtPhys >= 2
            && if offset == size && (offset - MD_USER_DATA_SIZE) % (ATTACHED_DATA_NODES_COUNT * NODE_SIZE) == 0
               then Live(c + 1, nn.mhtPhys) && !Live(c, nn.mhtPhys)
               else Live(c, nn.mhtPhys)
  {
    var nn, c, x := GetNodeNumbers(offset), NodeCount(size), offset - MD_USER_DATA_SIZE;
    NumberingInverts(offset);
    FetchData(offset, size);
    MhtNumbering(nn.mhtLogic);
    assert FirstData(nn.mhtPhys) == 96 * nn.mhtLogic;
    hide IsDataNode;
    hide LogicOf;
    hide NodeCount;
    var r := nn.dataLogic - 96 * nn.mhtLogic;
    assert 0 <= r < 96;
    assert x == 393216 * nn.mhtLogic + 4096 * r + x % 4096;
    assert x % 393216 == 4096 * r + x % 4096;
  }

  lemma GroupAligned(offset: nat)
    requires offset >= MD_USER_DATA_SIZE
    requires (offset - MD_USER_DATA_SIZE) % (ATTACHED_DATA_NODES_COUNT * NODE_SIZE) == 0
    ensures (offset - MD_USER_DATA_SIZE) % NODE_SIZE == 0
  {
    var x := offset - MD_USER_DATA_SIZE;
    assert x == 393216 * (x / 393216) == 4096 * (96 * (x / 393216));
  }

  lemma DepthMonotone(a: nat, b: nat)
    requires a <= b
    ensures Depth(a) <= Depth(b)
    decreases b
  {
    if a != 0 {
      DepthMonotone((a - 1) / 32, (b - 1) / 32);
    }
  }

  // ---------------------------------------------------------------- capacity

  function TotalDataBlocks(totalBlocks: nat): nat { totalBlocks * 13 / 16 }

  function DataRegionEnd(nblocks: nat): nat { nblocks * 7 / 8 }

  /** Byte offset of a disk block inside the file (`PFS_INNER_OFFSET` is 3 KiB). */
  function BlockOffset(addr: nat): nat { addr * 4096 + 3 * 1024 }

  ghost predicate DeviceFits(nblocks: nat) {
    forall addr: nat :: addr < TotalDataBlocks(nblocks) ==>
      GetNodeNumbers(BlockOffset(addr)).dataPhys < DataRegionEnd(nblocks)
  }

  /** A disk block is exactly one data node. */
  lemma BlockIsDataNode(addr: nat)
    ensures GetNodeNumbers(BlockOffset(addr)).dataLogic == addr
    ensures (BlockOffset(addr) - MD_USER_DATA_SIZE) % NODE_SIZE == 0
  {
  }

  /**
    Every address below the advertised capacity has its data node inside the data region exactly
    for devices of 0, 1, 22 to 24, or at least 27 blocks.
   */
  lemma CapacityExact(nblocks: nat)
    ensures DeviceFits(nblocks) <==> nblocks < 2 || 22 <= nblocks <= 24 || 27 <= nblocks
  {
    if nblocks < 2 || 22 <= nblocks <= 24 || 27 <= nblocks {
      forall addr: nat | addr < TotalDataBlocks(nblocks)
        ensures GetNodeNumbers(BlockOffset(addr)).dataPhys < DataRegionEnd(nblocks)
      {
        BlockIsDataNode(addr);
        LastAddressFits(nblocks, addr);
      }
    } else {
      var last := TotalDataBlocks(nblocks) - 1;
      BlockIsDataNode(last);
      assert GetNodeNumbers(BlockOffset(last)).dataPhys >= DataRegionEnd(nblocks);
    }
  }

  lemma LastAddressFits(nblocks: nat, addr: nat)
    requires nblocks < 2 || 22 <= nblocks <= 24 || 27 <= nblocks
    requires addr < TotalDataBlocks(nblocks)
    ensures DataPhys(addr) < DataRegionEnd(nblocks)
  {
    assert 16 * addr + 16 <= 13 * nblocks;
  }

  /** On those devices every ancestor of an addressed node is in the data region too. */
  lemma AncestorsFit(nblocks: nat, addr: nat, physical: nat)
    requires DeviceFits(nblocks) && addr < TotalDataBlocks(nblocks)
    requires Live(addr + 1, physical)
    ensures physical < DataRegionEnd(nblocks) <= nblocks
  {
    BlockIsDataNode(addr);
    assert GetNodeNumbers(BlockOffset(addr)).dataPhys < DataRegionEnd(nblocks);
    assert DataPhys(addr) < DataRegionEnd(nblocks);
    NumbersPartition(physical);
  }

  /** A file filled to the advertised capacity has every node of its tree inside the data region. */
  lemma CapacityServed(nblocks: nat, physical: nat)
    requires DeviceFits(nblocks) && Live(NodeCount(BlockOffset(TotalDataBlocks(nblocks))), physical)
    ensures physical < DataRegionEnd(nblocks)
  {
    var total := TotalDataBlocks(nblocks);
    assert NodeCount(BlockOffset(total)) == total;
    AncestorsFit(nblocks, total - 1, physical);
  }
}
