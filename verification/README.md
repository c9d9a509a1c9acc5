# AtomicDisk: a model of the protected-file engine

AtomicDisk keeps a block device inside one encrypted file on an untrusted disk.  User bytes live in
a 3072-byte head of the metadata block and in 4096-byte data nodes; every 96 data nodes hang under a
node of a Merkle hash tree (MHT), and every MHT node under one of 32 slots of another, up to the root,
whose key and MAC are in the metadata.  Nodes are held in a write-back LRU cache.  A flush logs the old
ciphertexts to an undo journal, raises an update flag in the metadata block, seals and writes the
dirty nodes bottom-up, and lowers the flag again.

This project models that engine in Dafny and proves what it keeps:

* Whole runs (`Run.dfy`): every run of seek, read, write, read_at, write_at, flush and clear_cache
  from `create` returns what a flat byte sequence with a cursor returns, and goes through if the
  device serves it.  Every image the data region passes through, at every single block write, is
  turned down by `open_file` or opens, with every node readable and under the file's own key only, as
  the whole file after some prefix of the bytes written; and no image that opens shows less than an
  earlier one did.
* Flushes (`ProtectedFile.dfy`, `FlushState.dfy`, `Crash.dfy`): a torn flush shows the whole file
  before it, the whole file after it, or a refusal; an interrupted write-out can be retried to the
  same end.  Whatever any operation leaves when it fails, `clear_error` makes an intact file of it and
  `clear_cache` an open one, with the same bytes.
* The cache (`LinkedList.dfy`, `LruCache.dfy`, `CacheOrder.dfy`): raw pointers refine a sequence, and
  ancestors stay nearer the head than their descendants through fetches and evictions.
* The journal and recovery (`BlockSet.dfy`, `Journal.dfy`, `Recovery.dfy`, `RecoveryHandler.dfy`,
  `UndoLog.dfy`): crash-atomic flushes of the byte log, the two scans over truncated logs, the
  pre-image that is selected for rollback, and memoised decryption.
* Layout (`Layout.dfy`): numbering in both directions and the exact devices whose advertised capacity
  fits.  `PfsDisk.dfy` and `BlockRing.dfy` sit on top and beside.

How the model is set up:

* Sealing is symbolic: a ciphertext is the pair of key and plaintext, a MAC names both, and keys are
  arbitrary values.  No property of the cipher is assumed beyond decryption with the right key and MAC.
* Any device, journal or key request may fail, unless a `Service` says that requests of its kind do
  not; a reliable device refuses only blocks it does not have.  `Serves(n)` says that the device is reliable and has a
  block for every node of a tree of `n` data nodes.  A reliable journal is taken as unbounded, while
  the source gives it an eighth of the device and an eviction's flush never resets it.
* `Fits(cap, size)` says that the cache capacity is above the depth of the tree of a file of `size`
  bytes.  `CacheOrder.FetchedPlace` shows that the bound is exact.
* Panics (`unwrap`, `unreachable!`, slices out of bounds) are a `None` or `Panicked` result.

Where the code is narrower than its comments or tests, the model follows the code:

* A node read back from disk keeps `new_node` set (core/src/pfs/sys/node.rs:198-218), so its
  pre-image is not logged; `UndoLog.FirstOverwriteLogged` says exactly which nodes have a record, and
  `FileInner.OverwriteReadBack` overwrites one that has none.
* `open_file` reports a set update flag as `SgxError`, so `open` does not reach its recovery arm; an
  image with the flag set counts as refused (core/src/pfs/sys/file/open.rs:178-181).
* `internal_flush` returns early when there is nothing to write, without a commit or a reset
  (core/src/pfs/sys/file/flush.rs:39-41); `Runs.FlushAndReopen` asks for an empty log.
* `is_data_node(1)` is false in the code, against the unit test at core/src/pfs/sys/file/node.rs:288.
* `move_to_tail` on the node that is already last breaks the list (core/src/pfs/sys/cache/list.rs:258-268).
* `write_slice` fills the end of its last block from the block behind it
  (core/src/bio/block_set.rs:64-68).  A partial slice in the last block of a set that starts at block
  0 is refused; in one that starts later it takes its tail from the neighbour behind, or panics when
  there is none.
* A slice of no bytes on a block boundary is an error, because no buffer of zero blocks can be
  allocated (core/src/bio/block_set.rs:21-52).
* The bounds check of `MemDisk` compares a relative position with an absolute end
  (core/src/bio/block_set.rs:150).
* `RawJournal::create` writes nothing (core/src/pfs/sys/host/journal.rs:28-34), so a journal created
  over an older, longer log can expose a mix of both until a flush has completed or it is reset.
* In append mode `write_at` writes at the end, and the end-of-file flag stays set until a seek.
* `read` reports success after a failed fetch, with fewer bytes (core/src/pfs/sys/file/read.rs:57-63);
  `PfsDisk::read` ignores the count (core/src/pfs_disk/mod.rs:106).
* A node logged again after it was memoised is decrypted from the older record, and the memo is kept
  when metadata is logged again with another root (core/src/pfs/sys/host/mod.rs:85-88).
* `clear_error` after a failed flush flushes again, and what was sealed in between can be logged as a
  pre-image (core/src/pfs/sys/file/other.rs:163-166); `UndoLog.RetryKeepsPreImage` and
  `UndoLog.RetryAfterReset` say exactly when it is wrong.  A completed retry empties the log.
* A failed fetch skips the bump but not the eviction (core/src/pfs/sys/file/node.rs:40-47), so the
  cache may be left out of order, and a failed eviction leaves it too long and perhaps with a node
  past the end.  `clear_error` does not mend that; `clear_cache` does.

## Model

| member | source | states |
|---|---|---|
| `Layout.NumberingInverts` | core/src/pfs/sys/host/mod.rs:120-129 | Recovery's logical numbers give back the write path's data and MHT numbers for every offset from 3072 on; the numbers it passes through are a data node and its parent in the slot `gcm_index` names. |
| `Layout.NumberingOnto` | core/src/pfs/sys/file/node.rs:213-241 | Every data-node number is the number of some offset, so with the inverse the numbering is a bijection. |
| `Layout.NumbersPartition` | core/src/pfs/sys/host/mod.rs:62-84 | `is_mht_node` is the complement of `is_data_node`, and every number is the metadata block, an MHT node or a data node in exactly one way. |
| `Layout.ParentBelow` | core/src/pfs/sys/node.rs:387-393 | A parent is an MHT node with a smaller number than its child, so descending order is bottom-up. |
| `Layout.MhtParent` | core/src/pfs/sys/file/node.rs:79-99 | From an MHT node's logical number: its physical number, its parent's, and its slot; the parent is the root exactly for the first 32. |
| `Layout.SlotInjective` | core/src/pfs/sys/node.rs:347-357 | Parent, kind and slot index together determine the node. |
| `Layout.CapacityExact` | core/src/pfs_disk/mod.rs:231-233 | Every address below `total_data_blocks` has its data node inside the data region if and only if the device has 0, 1, 22 to 24, or at least 27 blocks. |
| `Layout.AncestorsFit` | core/src/pfs/sys/file/open.rs:300-306 | On those devices every node of an addressed tree, ancestors included, has its block inside the data region. |
| `Layout.CapacityServed` | core/src/pfs_disk/mod.rs:81-90 | A file filled to the advertised capacity has every node of its tree inside the data region. |
| `Merkle.SlotUpdate` | core/src/pfs/sys/node.rs:138-158 | Setting a slot is read back through that slot and seen through no other. |
| `Merkle.StoredReopens` | core/src/pfs/sys/file/open.rs:161-216 | A disk that holds metadata, root and every live node, each sealed under its parent's slot, opens as exactly the logical file. |
| `Merkle.StoredKeyed` | core/src/pfs/sys/file/open.rs:192-199 | A stored file opens under a key if and only if it is its own. |
| `Merkle.RootDeterminesNode` | core/src/pfs/sys/node.rs:284-297 | Two disks that both decrypt a node from the same root decrypt the same plaintext. |
| `FlatFile.StepReplays` | core/src/pfs/sys/file/write.rs:28-134 | The byte edits an operation is charged with, replayed, give the flat file after the operation. |
| `FlatFile.HistoryReplays` | core/src/pfs/sys/file/write.rs:28-134 | The edits of a whole run replay to the flat file the run ends with. |
| `FlatFile.ReadGives` | core/src/pfs/sys/file/read.rs:27-84 | A read gives the bytes at the cursor up to the end, moves the cursor past them, and sets the end-of-file flag exactly when it falls short. |
| `FlatFile.ReadsCompose` | core/src/pfs/sys/file/read.rs:27-84 | Two reads in a row give the bytes one read of both lengths gives. |
| `FlatFile.ReadAtGives` | core/src/pfs/sys/file/read.rs:86-100 | A positioned read gives the bytes there and leaves the cursor; past the end it gives nothing and changes nothing. |
| `FlatFile.WriteGives` | core/src/pfs/sys/file/write.rs:28-105 | In append mode a write leaves the old bytes and then the buffer, from any cursor; otherwise it replaces the bytes from the cursor on. |
| `FlatFile.WriteAtGives` | core/src/pfs/sys/file/write.rs:107-134 | Byte by byte: zeros in the gap behind the end, the buffer at its place or, in append mode, at the end, and every other byte as it was. |
| `FlatFile.SeekGives` | core/src/pfs/sys/file/other.rs:50-87 | A seek from the end or from the cursor lands at the summed position and clears the flag; it panics if and only if that lies outside the file. |
| `FlatFile.SeekEndReads` | core/src/pfs/sys/file/other.rs:50-87 | A seek to `k` before the end and a read of `k` give the last `k` bytes. |
| `FlatFile.SeekBackReads` | core/src/pfs/sys/file/other.rs:50-87 | A read, a seek back as far and the same read give the same bytes twice. |
| `LinkedLists.LinkedList.PushFront` | core/src/pfs/sys/cache/list.rs:117-136 | The element goes in front; the pointers spell the new sequence both ways. |
| `LinkedLists.LinkedList.PushBack` | core/src/pfs/sys/cache/list.rs:158-177 | The element goes to the end. |
| `LinkedLists.LinkedList.PopFront` | core/src/pfs/sys/cache/list.rs:138-156 | Takes the first node off, or reports an empty list. |
| `LinkedLists.LinkedList.PopBack` | core/src/pfs/sys/cache/list.rs:179-197 | Takes the last node off, or reports an empty list. |
| `LinkedLists.LinkedList.UnlinkNode` | core/src/pfs/sys/cache/list.rs:204-219 | The list without the `k`th node, wherever it stands. |
| `LinkedLists.LinkedList.MoveToHead` | core/src/pfs/sys/cache/list.rs:223-250 | The node comes first, the others keep their order. |
| `LinkedLists.LinkedList.MoveToTail` | core/src/pfs/sys/cache/list.rs:252-280 | The node comes last; called on the node that is already last, the pointers spell no list any more. |
| `LinkedLists.LinkedList.Append` | core/src/pfs/sys/cache/list.rs:312-329 | Concatenation; the other list is left empty. |
| `LinkedLists.LinkedList.Iter` | core/src/pfs/sys/cache/list.rs:466-488 | Front to back, the elements in order. |
| `LinkedLists.LinkedList.DrainFilter` | core/src/pfs/sys/cache/list.rs:574-595 | Returns the matching elements in order and keeps the others in order. |
| `LruCaches.LruCache.Push` | core/src/pfs/sys/cache/mod.rs:80-90 | A new key goes to the head; a known key changes nothing and is reported. |
| `LruCaches.LruCache.Find` | core/src/pfs/sys/cache/mod.rs:92-95 | The entry's value, without touching the order. |
| `LruCaches.LruCache.PopFront` | core/src/pfs/sys/cache/mod.rs:97-101 | Drops the head from list and map together. |
| `LruCaches.LruCache.PopBack` | core/src/pfs/sys/cache/mod.rs:103-107 | Drops the tail from list and map together. |
| `LruCaches.LruCache.MoveToHead` | core/src/pfs/sys/cache/mod.rs:121-128 | A known key goes to the head; an unknown one changes nothing. |
| `LruCaches.LruCache.ChangeCapacity` | core/src/pfs/sys/cache/mod.rs:139-148 | Keeps exactly the first `capacity` keys and their values. |
| `LruCaches.LruCache.KeysListed` | core/src/pfs/sys/cache/mod.rs:80-146 | The map's keys are exactly the list's elements, each once. |
| `FileState.DirtyReachesRoot` | core/src/pfs/sys/file/write.rs:81-102 | A dirty node makes the root dirty. |
| `FileState.FetchDecrypts` | core/src/pfs/sys/file/node.rs:154-181 | A live node that is not cached is on disk and decrypts, under its parent's current slot, to the current plaintext; caching it keeps the invariant. |
| `FileState.AppendKeeps` | core/src/pfs/sys/file/node.rs:79-99 | A fresh node past the end keeps the invariant of the open file. |
| `FileState.ChunkKeeps` | core/src/pfs/sys/file/write.rs:63-102 | A chunk written into the cursor's node, with its ancestors marked, keeps the invariant and is an overwrite of the logical bytes at the cursor. |
| `FileState.HeadWroteKeeps` | core/src/pfs/sys/file/write.rs:46-60 | The same for bytes in the metadata head. |
| `FileState.NodeBytes` | core/src/pfs/sys/file/read.rs:57-74 | The logical file's bytes inside a cached node are that node's plaintext bytes. |
| `FileState.EvictKeeps` | core/src/pfs/sys/file/node.rs:196-202 | Dropping a clean node keeps the invariant: the disk still has it. |
| `FlushState.SealNodeKeeps` | core/src/pfs/sys/node.rs:249-282 | Sealing a dirty node whose parent is not sealed yet links it to its parent and leaves every node sealed before linked. |
| `FlushState.SealNodeBytes` | core/src/pfs/sys/node.rs:249-282 | Sealing changes no byte of the logical file. |
| `FlushState.SealRootReady` | core/src/pfs/sys/file/flush.rs:157-165 | Once every dirty node is sealed, sealing the root links the whole tree to the MAC in the metadata. |
| `FlushState.WriteNodeKeeps` | core/src/pfs/sys/node.rs:313-321 | Writing one sealed node out keeps the sealed tree and clears its flags. |
| `FlushState.WrittenOut` | core/src/pfs/sys/file/flush.rs:78-106 | With nothing dirty and the metadata block in place, the disk alone holds the file. |
| `FlushState.FlushTarget` | core/src/pfs/sys/file/flush.rs:78-106 | The end of a write-out has the sealed metadata block with a clear flag, and keeps the disk's block for every node that is not dirty. |
| `CacheOrder.PushNear` | core/src/pfs/sys/file/node.rs:101-133 | A node pushed after its parent was fetched keeps the cache nearly ordered: only nodes on the path may still lack a nearer parent. |
| `CacheOrder.BumpNear` | core/src/pfs/sys/file/node.rs:183-194 | Moving a node on the path to the head leaves only its ancestors to be moved. |
| `CacheOrder.FetchedPlace` | core/src/pfs/sys/file/node.rs:196-211 | After the bump, a node fetched last is among the first `cap` nodes if and only if the depth of its MHT node is below `cap`. |
| `UndoLog.FlushLogs` | core/src/pfs/sys/file/flush.rs:201-237 | One flush keeps the journal's promise, for every node and for the root: if it was first overwritten with `new_node` clear, the first record is the block the disk held at the last reset; if it was not overwritten it has no record and its block of then. |
| `UndoLog.TailFirst` | core/src/pfs/sys/file/flush.rs:230-237 | Of the last records of a flush, the metadata block's is the block itself, and the root has one, its ciphertext, if and only if it is dirty and not new. |
| `UndoLog.SelectedIsPreImage` | core/src/pfs/sys/host/journal.rs:210-226 | That record is the one recovery selects for the data node. |
| `UndoLog.FirstOverwriteLogged` | core/src/pfs/sys/file/flush.rs:201-237 | At the flush that first overwrites a data node since the last reset, recovery has a record for it if and only if its `new_node` is clear, and then the record is the block on disk. |
| `UndoLog.RetryKeepsPreImage` | core/src/pfs/sys/file/other.rs:163-166 | When a flush is tried again after sealing stopped midway, the first record of a node first overwritten now is the block at the last reset if and only if the earlier attempt logged it or its ciphertext is still that block. |
| `UndoLog.RetryAfterReset` | core/src/pfs/sys/file/flush.rs:232-237 | A first attempt that seals a node and fails, a second that fails to log and resets the journal, and a third that logs: the promise then holds if and only if sealing gave the node the very block the disk holds. |
| `UndoLog.RetryLosesPreImage` | core/src/pfs/sys/file/other.rs:163-166 | A file of one changed data node in which those two failures make the third attempt break the journal's promise. |
| `UndoLog.WrittenBackIsLast` | core/src/pfs/sys/host/journal.rs:179-231 | Writing entries back in order leaves each block at the payload of its last entry and every other block as it was. |
| `Device.BlockFile.Write` | core/src/pfs/sys/host/block_file.rs:36-51 | A block is written as a whole or not at all; the region remembers the image. |
| `FileNodes.FileNode.Encrypt` | core/src/pfs/sys/node.rs:249-282 | The ciphertext is the sealed plaintext, and the parent's slot takes its key and MAC; no parent is an error for all but the root. |
| `FileNodes.FileNode.GcmIndexIsSlot` | core/src/pfs/sys/node.rs:347-357 | The slot index computed from the logical number is the node's slot in the tree. |
| `Crash.FlagTrailTorn` | core/src/pfs/sys/file/flush.rs:180-199 | While the update flag is set or cleared, every image is refused or is the region with its flag cleared; before the first flush no image opens. |
| `Crash.FlagsGood` | core/src/pfs/sys/file/flush.rs:180-199 | Setting and clearing the flag, from a region that may itself carry a set flag, keeps the promise over the whole trail: each image is turned down by `open_file` or is a whole file of a prefix of the edits, and no image shows less than an earlier one. |
| `Crash.EndTrailGood` | core/src/pfs/sys/file/flush.rs:78-106 | A write-out whose images are refused or the new file keeps that promise over the whole trail. |
| `Sorting.SortDescending` | core/src/pfs/sys/file/flush.rs:149-150 | The list in descending order, with the same elements. |
| `ProtectedFile.FileInner.constructor` | core/src/pfs/sys/file/open.rs:112-159 | A created file is open, empty and unsaved, over whatever the region held. |
| `ProtectedFile.FileInner.Open` | core/src/pfs/sys/file/open.rs:161-216 | A file opened from a stored disk has the stored bytes, an empty cache and nothing to write. |
| `ProtectedFile.FileInner.ReadMhtNode` | core/src/pfs/sys/file/node.rs:101-133 | The MHT node from the cache or, parents first, from disk; only ancestors join the cache; on a reliable device it is found. |
| `ProtectedFile.FileInner.AppendMhtNode` | core/src/pfs/sys/file/node.rs:79-99 | A fresh MHT node joins under its parent; no live node and no byte changes. |
| `ProtectedFile.FileInner.GetMhtNode` | core/src/pfs/sys/file/node.rs:51-70 | The object returned is the one the cache, or the file, holds for the parent of the cursor's node. |
| `ProtectedFile.FileInner.ReadDataNode` | core/src/pfs/sys/file/node.rs:154-181 | The cursor's node, found or loaded at the head of the cache. |
| `ProtectedFile.FileInner.AppendDataNode` | core/src/pfs/sys/file/node.rs:135-152 | A fresh data node at the end of the file, at the head of the cache. |
| `ProtectedFile.FileInner.BumpMhtNode` | core/src/pfs/sys/file/node.rs:183-194 | Afterwards every cached node's non-root ancestors stand nearer the head. |
| `ProtectedFile.FileInner.EvictBack` | core/src/pfs/sys/file/node.rs:199-201 | Dropping a clean tail keeps the order, the parent references and the file. |
| `ProtectedFile.FileInner.ShrinkCache` | core/src/pfs/sys/file/node.rs:196-211 | Ends with exactly the first `max_cache_page` nodes, each still the same object, dirty tails written back first; the file's bytes stay, also when it fails; it fails only with a status set and a flush that can be taken up again, and not on a reliable device. |
| `ProtectedFile.FileInner.GetDataNode` | core/src/pfs/sys/file/node.rs:27-49 | With capacity above the depth the fetched node is still cached, every parent reference is the cached object, ancestors stand nearer the head, and the bytes are the same; a node that had to be loaded has `new_node` set; a failure loses nothing and can be cleared; a reliable device always yields it. |
| `ProtectedFile.FileInner.FetchStacked` | core/src/pfs/sys/file/node.rs:101-181 | A fetch that fails leaves every parent reference right, and the cache order intact if and only if it pushed nothing or one child of the root; a node left cached past the end of the file makes the next append there fail. |
| `ProtectedFile.FileInner.OverwriteReadBack` | core/src/pfs/sys/node.rs:198-218 | A data node that is not cached is loaded, changed and flushed out by an eviction: recovery has no record for it, whatever the log held before. |
| `ProtectedFile.FileInner.SealDataNodes` | core/src/pfs/sys/file/flush.rs:112-133 | Exactly the dirty data nodes are sealed and linked to their parents. |
| `ProtectedFile.FileInner.DirtyMhts` | core/src/pfs/sys/file/flush.rs:135-150 | Exactly the dirty MHT nodes, in descending order. |
| `ProtectedFile.FileInner.SealMhtNodes` | core/src/pfs/sys/file/flush.rs:152-155 | Every dirty node is sealed and linked, children before parents. |
| `ProtectedFile.FileInner.UpdateNodes` | core/src/pfs/sys/file/flush.rs:108-166 | Every node's parent slot holds the key and MAC of its current ciphertext, up to the root MAC in the metadata; flags and bytes are unchanged; stopped midway it leaves a tree that can be sealed again, with the same bytes; it can start from one. |
| `ProtectedFile.FileInner.WriteNodesOut` | core/src/pfs/sys/file/flush.rs:79-89 | Writes the dirty nodes without touching the metadata block; on success none is dirty; where the write-out ends does not change. |
| `ProtectedFile.FileInner.WriteToDisk` | core/src/pfs/sys/file/flush.rs:78-106 | On success the region is the target of the write-out and, when flushing, the journal is empty; while the root is dirty no image changes the metadata block. |
| `ProtectedFile.FileInner.SetUpdateFlag` | core/src/pfs/sys/file/flush.rs:180-193 | The images on the way differ from the region only in the metadata block's flag. |
| `ProtectedFile.FileInner.WriteRecoveryFileNode` | core/src/pfs/sys/file/flush.rs:201-237 | Logs, in this order, the dirty MHT nodes that are not new, the dirty data nodes that are not new, the root and the metadata block: a record for exactly the dirty nodes that are not new, the root among them, with their ciphertexts, and one for the metadata. |
| `ProtectedFile.FileInner.InternalFlush` | core/src/pfs/sys/file/flush.rs:38-76 | Torn flush: every image is refused, the file before or the file after; on success only the last is not refused and it is the whole file; a flush that leaves the log in place has a record for exactly the data nodes first overwritten with `new_node` clear; nothing is written to the region before the whole group is in the log, and if logging fails the log is empty and the region untouched; a failure before the write-out leaves the flag clear if the device takes writes, and one after it leaves the log committed or empty if the journal takes records; wherever it fails, the bytes are the same and it can be repeated, or its write-out resumed; it can start from what a failed one left; it succeeds on a reliable device with room. |
| `ProtectedFile.FileInner.Flush` | core/src/pfs/sys/file/flush.rs:28-36 | After success nothing is dirty and the disk alone opens as the logical file; failure anywhere leaves a status and the same contents, cursor and cache order, to be flushed again. |
| `ProtectedFile.FileInner.Write` | core/src/pfs/sys/file/write.rs:28-105 | The flat file's write, in append mode from the end; every image on the way is turned down by `open_file`, under every other key too, or opens as the whole file after a prefix of the edits, and no image shows less than an earlier one; without permission nothing happens; a failure leaves the file of the edits made so far, and can be cleared; it succeeds on a reliable device with room. |
| `ProtectedFile.FileInner.WriteAt` | core/src/pfs/sys/file/write.rs:107-134 | The flat file's positioned write: zeros up to the offset, the bytes, and the cursor back; in append mode the bytes go to the end. |
| `ProtectedFile.FileInner.Read` | core/src/pfs/sys/file/read.rs:27-84 | The flat file's read; what a failed read has filled in is a prefix of the right bytes and the rest of the buffer is untouched; a failure loses nothing and can be cleared. |
| `ProtectedFile.FileInner.ReadAt` | core/src/pfs/sys/file/read.rs:86-100 | The flat file's positioned read; the cursor comes back. |
| `ProtectedFile.FileInner.Seek` | core/src/pfs/sys/file/other.rs:50-87 | The flat file's seek; a position outside the file panics and changes nothing. |
| `ProtectedFile.FileInner.ClearCache` | core/src/pfs/sys/file/other.rs:134-150 | From whatever a failed operation leaves: flushes or clears the error, then empties the cache; success gives back a file in order with the same contents and nothing to write; failure can be cleared again. |
| `ProtectedFile.FileInner.ResumeWriteOut` | core/src/pfs/sys/file/other.rs:158-162 | A resumed write-out either ends with the region at the original target, or can be resumed again with the same target; every image is refused or the new file. |
| `ProtectedFile.FileInner.ClearError` | core/src/pfs/sys/file/other.rs:152-169 | From whatever a failed operation leaves, in all three arms: a good status forgets the error, an interrupted write-out is resumed to its target, any other status flushes again; success leaves the file agreeing with its disk, history and an empty journal, with the same bytes and cursor; failure can be cleared again; it succeeds on a reliable device with room. |
| `ProtectedFile.FileInner.Repair` | core/src/pfs/sys/file/other.rs:134-169 | `clear_cache` and then `clear_error` make an open file of whatever a failed operation leaves, with the same bytes and cursor, all of them on disk. |
| `ProtectedFile.FileInner.WriteOutRetrying` | core/src/pfs/sys/file/other.rs:152-169 | Whatever a first attempt, of a flush or of an eviction, and any number of retries managed to write, the first that succeeds leaves the region an uninterrupted write-out leaves; every image is refused or the new file. |
| `ProtectedFile.FileInner.CleanFileStored` | core/src/pfs/sys/file/flush.rs:38-41 | In every open file with `need_writing` clear, the disk alone opens as the logical file. |
| `ProtectedFile.FileInner.DirtyFileUnsaved` | core/src/pfs/sys/file/flush.rs:175-178 | A dirty cached node implies a dirty file, a dirty root and a size above 3072. |
| `ProtectedFile.FileInner.JournalHoldsPreImage` | core/src/pfs/sys/file/flush.rs:201-237 | In every open file, a data node first overwritten since the last reset with `new_node` clear is selected by recovery with the ciphertext the disk held at that reset. |
| `ProtectedFile.FileInner.JournalHoldsRoot` | core/src/pfs/sys/file/flush.rs:230-234 | The same for the root's first record; while the root has not been overwritten it has none. |
| `ProtectedFile.FileInner.OverwritesRecorded` | core/src/pfs/sys/file/flush.rs:78-106 | Every node block, and the root's, that differs from the region at the last reset is accounted for as overwritten. |
| `Runs.Step` | core/src/pfs/sys/file/write.rs:28-134 | One operation agrees with the flat file in output, bytes, cursor and end-of-file flag; one that fails leaves a file that can be cleared. |
| `Runs.RunOn` | core/src/pfs/sys/file/node.rs:27-211 | A run on an open file returns what the flat file returns, whatever is evicted and flushed in between; every image during it, also inside an operation that fails, is turned down by `open_file` or opens as the whole file after a prefix of the edits, under the file's own key only, and no image shows less than an earlier one; on a reliable device with room the run goes through, and a run that writes nothing needs no permission to write. |
| `Runs.RunAndRepair` | core/src/pfs/sys/file/other.rs:134-169 | A run and the repair of what its first failure leaves: the outputs up to there are the flat file's, and the repaired file is open, stored whole, and holds exactly the edits made so far. |
| `Runs.CreateAndRun` | core/src/pfs/sys/file/open.rs:112-159 | The same from `create`, over any former contents of the region. |
| `Runs.FlushAndReopen` | core/src/pfs/sys/file/open.rs:47-110 | After a successful flush that leaves the log empty, opening the region again gives a file with the same bytes. |
| `Runs.FlushRetrying` | core/src/pfs/sys/file/other.rs:152-169 | A flush that fails anywhere, and retries: the contents and the cursor stay, and the first attempt that succeeds gives back an open file, stored whole, on which a run can go on. |
| `BlockSets.MemDisk.BoundsCheckExact` | core/src/bio/block_set.rs:149-152 | Over accesses of at least one block, the bounds check of `read` and `write` accepts exactly those inside the region if and only if the region starts at block 0. |
| `BlockSets.MemDisk.Subset` | core/src/bio/block_set.rs:176-188 | A subset inside the region sees exactly those blocks of it; one that ends outside is refused. |
| `BlockSets.MemDisk.Read` | core/src/bio/block_set.rs:149-160 | Blocks inside the region are read as they are. |
| `BlockSets.MemDisk.Write` | core/src/bio/block_set.rs:162-174 | Blocks inside the region are overwritten, one image per block, in order. |
| `BlockSets.MemDisk.ReadSlice` | core/src/bio/block_set.rs:21-35 | The slice of the region, refused exactly when it leaves the region or is empty on a block boundary, where no block can be allocated. |
| `BlockSets.MemDisk.WriteSlice` | core/src/bio/block_set.rs:41-74 | The slice goes in, everything before it and behind its last block stays in every image, and the end of the last block becomes that of the next block; when it is refused, also for an empty slice on a block boundary, nothing changes. |
| `BlockSets.MemDisk.TailTaken` | core/src/bio/block_set.rs:63-70 | Each byte that a slice write puts behind the slice in its last block is the byte one block further on. |
| `BlockSets.SliceExact` | core/src/bio/block_set.rs:63-70 | A slice write changes only the slice if and only if the end of its last block equals the same bytes of the next block. |
| `BlockSets.SplitDisk` | core/src/pfs/sys/file/open.rs:300-306 | The data region and the journal region are disjoint and together are the device. |
| `BlockSets.WriteNode` | core/src/pfs/sys/file/open.rs:300-306 | On a device that fits, writing the metadata block or any node of an addressed tree succeeds and leaves the journal region unchanged. |
| `Journal.LeRoundTrip` | core/src/pfs/sys/host/journal.rs:58-66 | A length that fits is read back as it was written. |
| `Journal.LeDigit` | core/src/pfs/sys/host/journal.rs:58-66 | Byte `i` of the length word is its digit of weight 256 to the `i`. |
| `Journal.FlushAtomicExactly` | core/src/pfs/sys/host/journal.rs:28-34 | The data blocks of a flush leave the exposed log alone, for every buffer and the tail a slice write puts behind it, if and only if the length on disk does not reach past the write position. |
| `Journal.StaleLogMixes` | core/src/pfs/sys/host/journal.rs:28-34 | Where the length on disk reaches further, the data of some buffer changes the exposed log before the length is written. |
| `Journal.RawJournal.Flush` | core/src/pfs/sys/host/journal.rs:50-61 | Crash-atomic unless a longer log was left on disk: every image exposes the old log or the old log and the whole buffer; it succeeds exactly when both slices fit. |
| `Journal.RawJournal.Append` | core/src/pfs/sys/host/journal.rs:36-42 | The logical log grows by the data, and a full buffer is flushed, atomically unless a longer log was left on disk. |
| `Journal.RawJournal.Reset` | core/src/pfs/sys/host/journal.rs:77-82 | One block write from the old log to the empty log. |
| `Journal.RawJournal.Size` | core/src/pfs/sys/host/journal.rs:63-75 | The exposed length, refused below the header. |
| `Journal.RawJournal.Read` | core/src/pfs/sys/host/journal.rs:45-48 | A slice of the exposed log. |
| `Journal.RunJournal` | core/src/pfs/sys/host/journal.rs:36-82 | Over any run of appends, flushes and resets, from `create` or later, every image exposes what the disk exposed at first or exactly the log some prefix of the operations persisted, unless a longer log was left on disk and the run does not reset it first. |
| `Journal.CreateAndRunJournal` | core/src/pfs/sys/host/journal.rs:28-82 | The same from `create`, over a disk with no log left on it, or over any disk if the first operation is a reset. |
| `Recovery.PrefixDecodes` | core/src/pfs/sys/host/journal.rs:104-121 | On every byte prefix of a well-formed log the scan finds exactly the complete records; no payload byte is taken for a flag. |
| `Recovery.EncodeDecodes` | core/src/pfs/sys/host/journal.rs:104-121 | A whole well-formed log is read back record by record. |
| `Recovery.RecordBytes` | core/src/pfs/sys/host/journal.rs:104-115 | A node record byte by byte: the flag 0, the number from its lowest digit up, the block. |
| `Recovery.BehindCommit` | core/src/pfs/sys/host/journal.rs:210-211 | A record's end offset reaches the last commit's offset if and only if the record comes after that commit. |
| `Recovery.FindLastCommit` | core/src/pfs/sys/host/journal.rs:157-177 | The first scan ends, finds the offset just behind the last complete commit, and fails exactly on a bad flag. |
| `Recovery.WriteBack` | core/src/pfs/sys/host/journal.rs:179-231 | The second scan leaves each block at its last logged payload, changes no other block, and returns exactly the records selected for rollback. |
| `Recovery.Recover` | core/src/pfs/sys/host/journal.rs:153-235 | Both scans together, with each block at its last logged payload; a bad flag stops recovery before anything is written, and on a reliable device that has the blocks it goes through. |
| `Recovery.RecoveryJournal.Append` | core/src/pfs/sys/host/journal.rs:104-115 | One more record, also in a journal fresh from `create`; a payload of the wrong size is refused; unless a longer log was left on disk, every image on the way exposes what was there before or a byte prefix of the encoding. |
| `Recovery.RecoveryJournal.Commit` | core/src/pfs/sys/host/journal.rs:117-121 | One more commit, with the same promise for every image on the way. |
| `Recovery.TruncatedDecodes` | core/src/pfs/sys/host/journal.rs:153-177 | A reader of such an image finds a prefix of the records. |
| `RecoveryHandlers.PathDecrypts` | core/src/pfs/sys/host/mod.rs:141-241 | For a tree sealed bottom-up, of any depth, with metadata under the default key, root and all ancestors logged, the walk gives back the original plaintext. |
| `RecoveryHandlers.SealUnique` | core/src/pfs/sys/host/mod.rs:200-205 | Only the logged block itself decrypts to the node's plaintext. |
| `RecoveryHandlers.OtherKeyFails` | core/src/pfs/sys/host/mod.rs:161-176 | Metadata sealed under another key than the default one, or not at all, decrypts no node. |
| `RecoveryHandlers.RecoveryHandler.PushRawMht` | core/src/pfs/sys/host/mod.rs:85-88 | The memo stays right if and only if the node is not memoised yet or the block is the same; for the metadata block, if and only if nothing is memoised yet or it leads to the same root. |
| `RecoveryHandlers.RecoveryHandler.GetMhtNode` | core/src/pfs/sys/host/mod.rs:141-212 | Returns what the walk without a memo returns, and panics exactly when that walk fails; ends on the decreasing logical number. |
| `RecoveryHandlers.RecoveryHandler.DecryptNode` | core/src/pfs/sys/host/mod.rs:214-241 | The plaintext of the logged data node under its logged ancestors, or a panic exactly when there is none. |
| `BlockRings.AppendAgrees` | core/src/bio/block_ring.rs:69-79 | After an append the storage still holds the last `n` blocks of the unbounded log. |
| `BlockRings.BlockRing.Append` | core/src/bio/block_ring.rs:69-79 | Appends to the log at the cursor when it stays inside the storage; accepted exactly when the bounds check passes; turned down, it changes nothing. |
| `BlockRings.BlockRing.Read` | core/src/bio/block_ring.rs:64-67 | On the last `n` blocks since the cursor was set the ring is the unbounded log. |
| `PfsDisks.BlocksWritten` | core/src/pfs_disk/mod.rs:127-137 | A write changes the blocks it names and no other. |
| `PfsDisks.PfsDisk.Read` | core/src/pfs_disk/mod.rs:97-108 | The blocks from `addr` on, unless an error below was recorded; an address past the end or a write-only disk is refused. |
| `PfsDisks.PfsDisk.Write` | core/src/pfs_disk/mod.rs:127-137 | The file's bytes with the buffer in place; an address past the end or a read-only disk is refused; a file without permission to write panics. |
| `PfsDisks.PfsDisk.Sync` | core/src/pfs_disk/mod.rs:152-155 | After success a new opening of the data region finds the device's blocks. |

## Left out

- AES-GCM, key derivation and random numbers: sealing is symbolic and keys are arbitrary.
- Rollback at open (`rollback_nodes`, `rollback_data_node`) and `set_len`: they bypass the order and dirty-flag invariants of the cache.
- Sync atomicity across recovery as one theorem: torn flushes, the journal, the scans and decryption are proved apart, each under its own hypotheses.
- ProtectedFile.FileInner.Open: only for a disk that holds a whole file and an empty log; damaged data nodes are found when they are read, not when the file is opened.
- ProtectedFile.FileInner.ClearError: does not say which further operations still work on a file whose cache it leaves out of order; only a tidy one is an open file.
- ProtectedFile.FileInner.Write: starts from an open file, like every operation but the clearing ones; `read` and `write` do not look at the status, and what they do on a file that failed and was not cleared is not modelled.
- Recovery.Recover: keeps the selected ciphertexts; decrypting them is `RecoveryHandlers`, on symbolic blocks.
- Recovery.FindLastCommit: says nothing about a log whose length word reaches past the journal's disk.
- BlockRings.BlockRing.Append: in a storage past block 0 of its buffer, an append that the bounds check lets run over the end promises nothing of the ring.
- LinkedLists.LinkedList.DrainFilter: a predicate without side effects, drained at once; the source's predicate may change the elements it is shown, and its iterator works on demand.
- A full journal: a journal that is not reliable may fail at any append, but how many records an eighth of the device holds is not counted.
- PfsDisks.PfsDisk.Read: single requests; `readv`, `writev` and the request queue only repeat them.
- File names, key policies, encryption flags and the other header fields of the metadata block.
- `move_to_tail` in the cache, mutable iterators, `clear`, `front_mut` and the trait implementations of the list.
- `linux/`, the device mapper, `core/src/os`, `tx`, `lazy_delete`, `bio_req`, `bitmap`, option builders and benches.
- Device write caches: a block write is durable at once, so the flush requests between writes order nothing here.
- Locks and reference cells: each file operation is one step.
- 64-bit wrap-around of offsets and node numbers; only the journal's length word is bounded.
