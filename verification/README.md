# RTFS: a verified model

RTFS is a flash file system for RTEMS in the manner of f2fs: data and node blocks are written
copy-on-write, NAT and SIT tables say where nodes stand and which blocks are valid, a ring of journal
blocks carries every change of the tables and is replayed at mount, and blocks given up by a commit
are reclaimed once its transaction has completed. This project models these cores and proves that
they keep what they are for. `dafny verify dfyconfig.toml` checks all of it.

The source changes its objects in place, and so does the model: the journal writer and processor, the
recovery state, the caches, the file object, the allocators, the registry and the directory are
classes, and their loops are loops with invariants. The device is a sequence of 4096-byte blocks,
written one block at a time; I/O errors, the allocator's failures and the order of a hash walk are
left open, so that the results hold for all of them.

| part | files |
|---|---|
| bytes, entries, packing, scan | Bytes, JournalFormat, JournalWriter, JournalScan |
| deduplication | KeyTree, JournalDedup |
| ring, completion | JournalRing, Device |
| recovery | RedoLog, Recovery, LogRecovery, MountRecovery, JournalCommit, RecoveredTables |
| file object | BlockIndex, LruCache, PageCache, FileObject, FileWriteback |
| crash-atomic commit | DiskFile, FileCommit, CommitRun, CommitChain |
| allocation and formatting | SegmentInfo, SitCodec, Allocators, Mkfs, FormattedDevice, MountedAllocators |
| node cache and reclaim | NodeCache, ReclaimRegistry, ReclaimPlan, FileRemoval |
| directories | DirSlots, Directory |

How the main line fits together: `Format` writes a device from which both allocators can be read back
(`MountNids`, `MountSegments`) and on which a new file is settled (`FirstCommitIsReady`); the file object refines a flat byte array (`Read`, `Write`, `Truncate`);
`CommitFile` writes its pages and nodes to blocks the allocator never handed out before
(`AllocRange`, `AllocationLeaves`); `CollectPendingJournal` turns the NAT entries into an image, which
the ring takes without overwriting anything live (`ProcessBuffered`); `JournalRoundTrip` and
`CommitsAreAtomic` say what a crash at any point leaves, and that the next commit starts from the same
state, while no other file notices (`OthersAreUntouched`); `RecoverFromDb` is the recovery that brings it back, itself safe against crashes.

## Model

| member | source | states |
|---|---|---|
| CommitChain.CommitsAreAtomic | src/file_inode/file_inode.c:715-939 | Between two commits a file is settled: its clean nodes are what recovery would read back, and all its blocks, on the device and in memory, were handed out by the allocator. From there, one commit into blocks never handed out leaves, at any loss of journal blocks, exactly the file before; with none lost, exactly the file as shown in memory with its size; and the file is settled again, so the statement carries on to every later commit. |
| CommitChain.SettledAfterTruncate | src/file_inode/file_inode.c:525-634 | A truncation between two commits, even one that fails, leaves the file settled. |
| CommitChain.SettledAfterWrite | src/file_inode/file_inode.c:420-523 | So does a write. |
| CommitChain.SettledAfterRead | src/file_inode/file_inode.c:316-418 | So does a read. |
| CommitChain.OthersAreUntouched | src/cache/node_block_cache.c:351-402 | The commit of one file leaves alone every other file whose nodes and blocks are not its own: at any part of its content and node writes, at any loss of journal blocks and when it is complete, recovery brings back the other file exactly as it was, and it stays apart from the committed one. |
| CommitChain.OthersStaySettled | src/file_inode/file_inode.c:715-939 | A file open beside the committed one stays settled, so that its own commits remain crash-atomic, and the two can change roles. |
| CommitChain.LoadedNodeIsFooted | src/cache/node_block_cache.c:468-503 | A node that is loaded again after a commit has its own nid and its inode number in its footer: the assertions there hold. |
| FormattedDevice.RootIsApart | src/fs/rtfs_mkfs.c:397-483 | On a formatted device the root directory is such another file for every commit that does not have its nid. |
| FormattedDevice.FirstCommitIsReady | src/fs/rtfs_mkfs.c:397-483 | A new file on a freshly formatted device is settled, and every block still ahead of the allocator was never handed out and may take its content: the chain of atomic commits starts there. |
| FileCommit.CommitIsCrashAtomic | src/file_inode/file_inode.c:715-939 | With one file's commit in flight over a zeroed ring, whatever part of the content and node writes and whatever subset of the journal image reached the device, recovery yields exactly the file before the commit; once all of it is there, exactly the file as it was shown, with its size. |
| MountRecovery.RecoverFromDb | src/communication/comm_api.c:1068-1174 | Recovery at mount ends on every replayable log, leaves the tables and super block equal to the left fold of all committed transactions, sets both stored offsets and the device's head and tail behind the last one, and every crash point among its writes is one that running it again repairs. |
| RecoveredTables.RecoveredSit | src/communication/comm_api.c:758-801 | After recovery the SIT entry of a segment, 68 bytes in block seg / 60 of the table at place seg mod 60, is the last one that the log has for the segment, or what it was. |
| RecoveredTables.RecoveredNat | src/communication/comm_api.c:703-756 | So is the NAT entry of a nid, owner and address, at place nid mod 512 of block nid / 512. |
| RecoveredTables.NatLpaRead | src/fs/nat_utils.c:36-52 | These are the words by which the nodes of a file are looked up. |
| RecoveredTables.RecoveredSuper | src/communication/comm_api.c:564-702 | A word of the super block holds the last value that the log has for it, or what it held; the words fixed by the formatter never change. |
| RecoveredTables.RecoveredOffsets | src/communication/comm_api.c:1155-1162 | Both stored journal offsets lead behind the last transaction. |
| MountedAllocators.RecoveredCell | src/fs/sit_utils.c:64-77 | The SIT entry, as the operators read it, is the one journalled last for its segment, bit for bit, or what it was. |
| JournalCommit.JournalRoundTrip | src/communication/comm_api.c:877-1033 | A transaction written behind the log at any ring position, wrap included, over zeroed blocks is found by recovery if and only if every one of its blocks arrived; the earlier log is found in every case, and the log ends where it should. |
| JournalPacking.WritableEntryNumIsLargest | src/journal/journal_writer.c:326-375 | The count is the largest that fills the buffer exactly or leaves room for one more header, and zero only if not even one entry does. |
| JournalPacking.JournalWriter.OutputToBuffer | src/journal/journal_writer.c:557-587 | One record is put into the tail block with as many of the rest as fit; it refuses only in a block that already holds something, so a fresh block always takes an entry. |
| JournalPacking.JournalWriter.CollectPendingJournal | src/journal/journal_writer.c:218-301 | The blocks collected are an image, as the recovery scan reads it, of exactly the given super, NAT and SIT entries in that order, whatever the reused buffers held before: every entry once, each earlier block scanned to its end, and room left for END. |
| JournalPacking.JournalWriter.AppendEnd | src/journal/journal_writer.c:497-504 | The END mark always fits and makes an image of what has been collected. |
| JournalScan.ImageThenAnything | src/communication/comm_api.c:877-1033 | The scan of an image gives its entries and stops at END: no byte behind the image has any influence. |
| JournalScan.TornImageStops | src/communication/comm_api.c:877-1033 | An image with any block still zero is never committed by the scan, whatever follows it, and no entry is read that was not written. |
| JournalCommit.WriteToSsd | src/journal/journal_writer.c:303-323 | The write, in one or two pieces, lays the blocks around the ring from the tail on and changes nothing else. |
| JournalCommit.LogExtends | src/communication/comm_api.c:1123-1153 | Two logs end to end, at any place of the ring, are read as one log of all their transactions in order. |
| JournalCommit.TornCommitLeavesNoTrace | src/communication/comm_api.c:877-1033 | Outside the ring a transaction with a lost block is recovered as if it had never been written. |
| JournalCommit.CommitIsRecovered | src/communication/comm_api.c:803-829 | A complete transaction adds to what the earlier log recovers exactly the byte updates of its entries, in order, and moves the stored offsets past it. |
| JournalDedup.SuperOutput | src/journal/journal_writer.c:528-540 | Each super-block offset is written once, with its last value. |
| KeyTree.SplitKeepsWalk | third_party/klib/kbtree.h:162-177 | Splitting a full child does not change what an in-order walk yields. |
| KeyTree.PutNode | third_party/klib/kbtree.h:178-198 | One insertion by binary search, splitting full children on the way down; no node overflows and all leaves stay equally deep. |
| KeyTree.PutInserts | third_party/klib/kbtree.h:178-198 | An insertion below a node puts the new entry once into the walk, behind every smaller and before every greater key. |
| KeyTree.BuiltIsOrdered | third_party/klib/kbtree.h:199-217 | However many entries are put, the walk has exactly those, duplicates included, in key order. |
| KeyTree.TreeOutput | src/journal/journal_writer.c:606-655 | What is written for a NAT or SIT journal is the walk of the tree of all its entries. |
| KeyTree.SmallTreeIsLeaf | third_party/klib/kbtree.h:178-198 | Up to 19 entries the tree is one leaf, and its order is that of repeated insertion behind the first equal key. |
| JournalDedup.LeafOrderIsExactIff | src/journal/journal_writer.c:113-118 | "Keep the newest" holds of a one-leaf tree exactly if every key has at most two entries or its second entry equals its last. |
| JournalDedup.TreeReplay | src/journal/journal_writer.c:674-723 | For a tree of any size, replaying what it writes gives the memory of the journal as collected if and only if every key ends with its last entry; up to 19 entries that is the condition of LeafOrderIsExactIff. |
| JournalDedup.PutSecond | third_party/klib/kbtree.h:178-198 | In a tree of any size a second entry of a key lands before the first if and only if, on the way down to its place, the split of a full child moves the first one up. |
| JournalDedup.TwiceIsExactIff | src/journal/journal_writer.c:113-118 | With at most two entries per key, "keep the newest" holds of a tree of any size if and only if no second entry overtakes a first one that differs from it. |
| JournalDedup.DistinctKeysAreExact | src/journal/journal_writer.c:113-118 | It holds whenever the keys are distinct. |
| JournalDedup.ThreeUpdatesLoseTheNewest | src/journal/journal_writer.c:674-686 | The failing input: three updates of one segment are replayed with the second as the outcome. |
| JournalDedup.TwoUpdatesLoseTheNewest | third_party/klib/kbtree.h:186-196 | A failing input for larger trees: twenty-nine ascending keys and a second update of the twentieth are replayed with the older of the two as the outcome. |
| JournalDedup.EmittedReplays | src/journal/journal_writer.c:386-447 | Unless a NAT or SIT key loses its last entry, a whole transaction as written replays like the transaction as it was collected; super-block fields may repeat freely. |
| JournalRing.CompletionIsExact | src/journal/journal_processor.c:50-67 | As long as the tail is less than one round ahead of the record's start, the four-way test holds of the record if and only if the head has passed its end, counted along the ring without wrapping. |
| JournalRing.MissedOnlyIfLapped | src/journal/journal_processor.c:50-67 | A record that has been passed is missed only after the tail has come round to its first block. |
| JournalRing.CompletionIsNeverEarly | src/journal/journal_processor.c:50-67 | Wherever the head stands, even inside a record, the test never reports a record that the head has not passed. |
| JournalRing.HeadInsideARecordIsMissed | src/journal/journal_processor.c:50-67 | Then it can be missed: ten blocks, record 0 to 5, head at 12, tail at 13. The tail gets there only if the head has stopped inside the record before. |
| JournalRing.JournalProcessor.FetchNewJournal | src/journal/journal_processor.c:204-246 | The queue is taken over whole; completed, written, collected and waiting transactions together stay all accepted ones in commit order. |
| JournalRing.JournalProcessor.WriteJournalToSsd | src/journal/journal_processor.c:292-318 | The image is written if and only if it leaves one block of the ring free; the device then accepts the new tail, and processor and device agree on it. |
| JournalRing.JournalProcessor.ProcessBuffered | src/journal/journal_processor.c:248-282 | A transaction with room is written behind the live blocks, none of which is overwritten, and its record tiles the ring behind the others; without room nothing changes. |
| JournalRing.JournalProcessor.ProcessPendingJournal | src/journal/journal_processor.c:248-282 | The oldest waiting transaction is taken and written, or stays in hand because there is no room for it; at most one per call, and none is skipped. |
| JournalRing.JournalProcessor.SyncWithSsdJournalPos | src/journal/journal_processor.c:371-383 | The blocks the head has moved past are counted as free: available blocks and the distance from head to tail add up to the size less one. |
| JournalRing.JournalProcessor.ProcessTxRecord | src/journal/journal_processor.c:385-410 | The hook is called for exactly the records the head has passed, oldest first, each once. |
| JournalRing.JournalProcessor.ProcessCpltJournal | src/journal/journal_processor.c:332-346 | What the device has passed by now is completed, and nothing else. |
| JournalRing.JournalProcessor.IdleMeansAllCompleted | src/journal/journal_processor.c:199-202 | The thread counts as working if and only if some accepted transaction has not been completed. |
| BlockDevice.Device.UpdateTail | src/communication/comm_api.c:284-347 | The device takes a new tail if and only if the blocks follow its current tail inside the ring. |
| Recovery.FateIsScan | src/communication/comm_api.c:877-1033 | Applying records as they are met comes to the same as reading the whole transaction first and applying it at END. |
| Recovery.TxState.ApplyOne | src/communication/comm_api.c:564-801 | An entry is applied to the overlay unless it is out of range for its table or the device, and then the replay fails. |
| Recovery.TxState.CommitTx | src/communication/comm_api.c:803-829 | The writes bring the device to the overlay's state, block by block in its final form. |
| Recovery.ReplayOneTransaction | src/communication/comm_api.c:877-1033 | A transaction reaches the device only if END is met within one round of the ring; otherwise not one block is written. |
| RedoLog.RedoConverges | src/communication/comm_api.c:703-801 | Redoing updates from two images that differ only where the updates write ends in the same image. |
| LogRecovery.CrashDuringRecovery | src/communication/comm_api.c:1068-1174 | From any device that an interrupted recovery can leave, the same log is recovered to the same device. |
| LogRecovery.CrashesCompose | src/communication/comm_api.c:1068-1174 | A crash in a recovery that runs after a crash leaves again such a device. |
| LogRecovery.ChainIsCrashSafe | src/communication/comm_api.c:803-829 | Every prefix of the writes of a whole recovery, transaction after transaction, leaves such a device. |
| LogRecovery.RecoveryIsIdempotent | src/communication/comm_api.c:1068-1174 | A recovered device holds no further transaction, and recovering it again changes nothing. |
| MountRecovery.ReplayAll | src/communication/comm_api.c:1123-1153 | The outer loop ends, having replayed every transaction of the log once in order. |
| BlockIndex.PathRoundTrip | src/file_inode/file_inode.c:1156-1369 | The four tiers number the blocks without gap or overlap up to 932 + 2*1020 + 2*1020^2 + 1020^3. |
| BlockIndex.PutAddress | src/file_inode/file_inode.c:1371-1816 | Writing one address keeps the node tree a tree, without orphans, and remaps exactly one block number. |
| BlockIndex.HangKeepsTree | src/cache/node_block_cache.c:480-513 | A new empty node hung into a free word keeps the tree a tree and is found there. |
| BlockIndex.HangKeepsMap | src/cache/node_block_cache.c:480-513 | ... and remaps no block number. |
| BlockIndex.FileNodes.ResolveDataLpa | src/file_inode/file_inode.c:1156-1369 | The LPA of a block number, zero for holes; ENOSYS exactly beyond the limit. |
| BlockIndex.FileNodes.CreateNode | src/cache/node_block_cache.c:480-513 | A created node takes the nid the allocator hands out next and hangs at its word; it fails if and only if there is none, and then changes nothing; no block number is remapped in either case. |
| BlockIndex.FileNodes.SetDataLpa | src/file_inode/file_inode.c:1371-1816 | Remaps exactly the one block number and reports its old LPA; a failed call, even after creating nodes, remaps none; setting a hole in a missing subtree changes nothing at all. At most three nodes are created, clean nodes stay as they are, and each error has its cause: ENOSYS exactly beyond the limit, EIO only if a node fails to load, ENOSPC only without nids. |
| LruCache.LruReplacer.Pop | src/cache/cache_lru_replacer.c:94-114 | The victim is the unpinned key used least recently. |
| LruCache.LruReplacer.Unpin | src/cache/cache_lru_replacer.c:161-179 | An unpinned key becomes the most recent; unpinning a key that is not pinned does nothing. |
| LruCache.CacheManager.ReplaceOne | src/cache/generic_cache_manager.c:42-52 | An unpinned entry leaves index and replacer together; there is none if and only if all are pinned. |
| PageCaching.PageCache.Get | src/cache/page_cache.c:182-244 | The caller holds the page; a full cache reuses the buffer of an unreferenced page if there is one, and pages that are referenced or dirty stay. A cache at its expected size grows only if all pages are referenced, and then by one. |
| PageCaching.PageCache.DoReplace | src/cache/page_cache.c:375-395 | Unreferenced pages leave until the expected size is reached or all are referenced, and no further. |
| PageCaching.PageCache.MakeDirty | src/cache/page_cache.c:321-350 | The dirty set gains the page and holds one reference on it, however often it is made dirty. |
| PageCaching.PageCache.Truncate | src/cache/page_cache.c:246-286 | Exactly the dirty pages behind the limit lose contents, flag and reference. |
| PageCaching.PageCache.ClearDirtyPages | src/cache/page_cache.c:293-313 | The dirty set is emptied and its references returned; contents stay. |
| FileObjects.GotIsInvisible | src/cache/page_cache.c:182-244 | Taking a page into the cache and evicting others shows in no byte of the file. |
| FileObjects.FileObject.PreparePageForRead | src/file_inode/file_inode.c:1893-1985 | The page shows what is stored for its block, zeros for a hole, or the exact error. |
| FileObjects.FileObject.PreparePageForWrite | src/file_inode/file_inode.c:1987-2052 | As for reading, but a block to be overwritten as a whole is not read. |
| FileObjects.FileObject.Read | src/file_inode/file_inode.c:316-418 | The bytes returned are those of the file's flat array, up to the first block that is beyond the limit of the block index and not cached. Without a device fault the read returns everything up to the end of file if and only if it touches no such block; a read that returns nothing says why: EFBIG, ENOSYS, or EIO after a fault. |
| FileObjects.ReadPastTheLimitFails | src/file_inode/file_inode.c:1156-1369 | The failing input: a file grown past the limit of the block index has a hole there that cannot be read; ENOSYS without any fault. |
| FileObjects.FileObject.Write | src/file_inode/file_inode.c:420-523 | The bytes written appear from the offset on, the file grows to hold them, a gap behind the old end reads as zeros, no other byte changes, and what was written can be read. Without a fault all bytes are written if and only if the end fits 64 bits and each block touched can be read or is overwritten as a whole behind the end; otherwise the write stops at the first block that is neither, with the exact error. |
| FileObjects.FileObject.Truncate | src/file_inode/file_inode.c:525-634 | The file has the new size, its bytes below it and zeros behind, so that regrowing brings nothing back. I/O errors aside it succeeds if and only if no block to be unmapped or zeroed lies beyond the limit of the tree; what a failure leaves is stated exactly. In either case the blocks from the new end up to where it got are unmapped, and exactly their LPAs, in order, join those given up. |
| FileObjects.TruncationLosesNothing | src/file_inode/file_inode.c:2101-2140 | No LPA is lost: each that the file had is still mapped by its block or given up, and what is given up was mapped before and is not any more. |
| FileObjects.ShrinkPastTheLimitFails | src/file_inode/file_inode.c:525-634 | The failing input: a file grown past the limit of the block index cannot be emptied any more. |
| FileObjects.EvictionShowsAfterFailure | src/file_inode/file_inode.c:525-634 | After such a failure the eviction of an unchanged page can be seen: its bytes turn to zeros. |
| FileWriteback.AssignLpas | src/file_inode/file_inode.c:2153-2356 | Every dirty page gets a free LPA of its own, unless fewer are free than there are pages and blocks in an open segment. |
| FileWriteback.WriteBatches | src/file_inode/file_inode.c:2153-2356 | Page by page the data reaches its LPA, batches or not, and no other block is touched; a failure leaves a prefix. |
| FileWriteback.WriteDirtyPagesCow | src/file_inode/file_inode.c:2153-2356 | Writing the dirty pages to free LPAs shows in no byte of the file, whether it succeeds or fails; it fails only for want of blocks or after a device fault. |
| FileWriteback.ApplyPendingDataRelocations | src/file_inode/file_inode.c:2358-2435 | Switching the block index to the new LPAs and emptying the dirty set shows in no byte of the file; afterwards everything it shows is stored. It stops with ENOSYS exactly at a page beyond the limit of the index. |
| FileWriteback.CommitData | src/file_inode/file_inode.c:2153-2435 | Success means that the index can map every dirty page, ENOSYS that it cannot map one; the other failures are EIO after a fault and ENOSPC when blocks or nids have run out. |
| FileWriteback.CollectedReclaims | src/file_inode/file_inode.c:647-694 | What a commit collects to be given back is every LPA that a block has been moved away from, and all that truncations had given up. |
| CommitRun.WritebackNodes | src/cache/node_block_cache.c:261-306 | Every dirty node goes to a free block of its own; no other block is touched. |
| CommitRun.EntryOfNode | src/cache/node_block_cache.c:351-402 | The journalled NAT entries lead to the new block of every node that moved, and name no other node. |
| CommitRun.MovesAreOwn | src/cache/node_block_cache.c:351-402 | The entries name nodes of the file only, each once, with the inode as owner and an address that was free. |
| CommitRun.CommitFile | src/file_inode/file_inode.c:715-939 | The content side of a commit: every write goes to free blocks only, afterwards the file shows what it showed, also after a failure, and success leaves all of it stored, with a NAT entry to its new block for every node that is not as it was. Without faults and with enough blocks and nids it succeeds if and only if no dirty page lies beyond the limit of the block index, and fails with ENOSYS otherwise. What is journalled names nodes of this file only, each once, at blocks that were free; and what is given back is every data LPA that the file or a truncation has given up, and nothing else. |
| CommitRun.CommitPastTheLimitFails | src/file_inode/file_inode.c:1371-1816 | The failing input: a whole block written past the limit is accepted, but no commit of it ever succeeds. |
| CommitRun.ReadyAfterWriting | src/file_inode/file_inode.c:715-939 | After it the device is one that a crash before the journal may leave, and a complete journal image switches the file over. |
| CommitRun.PrefixIsWriting | src/file_inode/file_inode.c:2153-2356 | Every prefix of writes to fresh blocks is such a crash point. |
| DiskFiles.UnusedBlocksDoNotMatter | src/fs/nat_utils.c:36-52 | Devices that agree on the NAT and on the blocks reached from an inode hold the same file for it. |
| FileCommit.CrashBeforeJournal | src/file_inode/file_inode.c:715-939 | A crash before the journal is written brings back the file as it was. |
| FileCommit.CrashWithinJournal | src/communication/comm_api.c:877-1033 | So does a crash that loses any block of the journal image. |
| FileCommit.NatAfter | src/communication/comm_api.c:703-756 | After a transaction the NAT gives the owner and address of the last entry journalled for a nid, or what it gave before. |
| FileCommit.CommitSwitches | src/communication/comm_api.c:803-829 | Once all journal blocks are there the device holds the file exactly as it was shown. |
| CommitChain.NeverHandedIsFresh | src/fs/super_manager.c:271-330 | A settled file has nothing in the ring, and blocks never handed out are neither read by recovery nor part of the file. |
| FormattedDevice.Format | src/fs/rtfs_mkfs.c:397-483 | The device written, if the call succeeds, has the super block, the chains of the NAT and the SIT, the root inode and the zeroed journal that mounting expects. |
| MountedAllocators.MountNids | src/fs/super_manager.c:127-205 | The nid allocator made of what a formatted device holds, the stored head of the chain and the NAT blocks: the root inode is live, all nids behind it are free, in order. |
| MountedAllocators.MountSegments | src/fs/super_manager.c:233-330 | The LPA allocator made of its stored fields and SIT blocks: two open segments with their cursors, all others of the main area on the chain, only the block of the root inode handed out. |
| MountedAllocators.FormattedIsRecovered | src/communication/comm_api.c:1068-1174 | Recovery leaves a formatted device as it is, so that both hold after mounting. |
| SitCodec.CellRoundTrip | src/fs/sit_utils.c:112-141 | A SIT entry is read back from its 68 bytes as it was written: the packed word, and bit i mod 8 of map byte i / 8 for block i. |
| FormattedDevice.FormattedReplays | src/fs/rtfs_mkfs.c:90-199 | A formatted device can be mounted, and its log is empty. |
| FormattedDevice.FormattedOccupies | src/fs/rtfs_mkfs.c:146-199 | No file occupies any block of it, but for the root's inode: the links of free NAT entries are not taken for blocks. |
| FormattedDevice.FormattedFree | src/fs/rtfs_mkfs.c:201-260 | Its allocator can give exactly the blocks of the main area behind the root inode. |
| FormattedDevice.AllocationLeaves | src/fs/super_manager.c:271-330 | An allocation takes from the blocks ahead exactly those it gives, as the commit assumes. |
| FormattedDevice.AheadIsNeverHanded | src/fs/super_manager.c:271-330 | In every state of the allocator what it may still give lies in the main area and was never handed out: it can take the content of the next commit. |
| FormattedDevice.ReserveIsLeft | src/fs/super_manager.c:233-330 | When an allocation fails at most 512 blocks are left, the rest of the segment open for the other kind. |
| Mkfs.AreasAreSoundIff | src/fs/rtfs_mkfs.c:324-395 | The areas of an accepted layout follow each other without overlap, fit the device and leave at least two main segments if and only if the device has at most 2^23 segments, the number that 32-bit LPAs reach, and the number of journal segments is not 0xFFFFFFFF. |
| Mkfs.TooManySegments | src/fs/rtfs_mkfs.c:343-348 | A failing input: one segment more is accepted, but the last blocks have no LPA. |
| Mkfs.WrappedLayout | src/fs/rtfs_mkfs.c:358-363 | The failing input: there the 32-bit sum wraps to zero, the call succeeds, and the SIT starts on the super block. |
| Mkfs.FormattedGeometry | src/fs/rtfs_mkfs.c:324-395 | The formatted areas give the geometry that recovery and commit rely on, with tables and ring apart, up to 128 journal segments. |
| Mkfs.FormatNids | src/fs/rtfs_mkfs.c:146-199 | After formatting the root inode is live and all nids behind it form the free chain. |
| Mkfs.FormatSegments | src/fs/rtfs_mkfs.c:201-260 | After formatting the first two main segments are open for nodes and data, all others are on the free chain, and only the root inode's block was handed out. |
| SegmentInfo.SetBitKeepsNext | src/fs/sit_utils.c:136-156 | Counting up and down inside the shared SIT word never reaches the next-segment bits. |
| SegmentInfo.SetBitsKeepTally | src/fs/sit_utils.c:136-156 | Validating clear and invalidating set bits keeps the nine-bit count equal to the number of valid blocks, or one less if it lags; and it lags afterwards if and only if the segment is full, or it lagged before and the segment is not empty. |
| SegmentInfo.CountIsExactIff | src/fs/sit_utils.c:136-156 | The count is exact if and only if it does not lag: never in a full segment, always in an empty one. |
| SegmentInfo.FullSegmentCountsShort | src/fs/sit_utils.c:136-156 | The failing input: an empty segment is filled and counts 511; with one block given up it counts 510 of 511; emptied it counts 0, which is right again. |
| SegmentInfo.SitTable.ChangeRange | src/fs/sit_utils.c:90-168 | Exactly the blocks of the range change state, across segments; chains stay, the counts lag in exactly the segments that are full or have lagged and are not empty, and the journalled words replay to the table. |
| Allocators.LpaAllocator.OpenSegment | src/fs/super_manager.c:233-269 | The first free segment leaves the chain and is opened; it fails if and only if the free count is zero. |
| Allocators.LpaAllocator.AllocRange | src/fs/super_manager.c:271-330 | A range lies within one segment of the main area of this device, was invalid, is now valid, and was never handed out before, over any interleaving of node and data requests; it takes the next blocks of the open segment, or of the first free one if that is full, as many as requested or as the segment has; it fails only with the open segment full and none free. |
| Allocators.NidAllocator.AllocNid | src/fs/super_manager.c:127-176 | The first free nid becomes live; live and free together stay the same number; the last link of the chain is never given. |
| Allocators.NidAllocator.FreeNid | src/fs/super_manager.c:178-205 | A live nid becomes the head of the chain, which stays free of repetition and apart from the live ones. |
| Allocators.NidAllocator.SetLpa | src/fs/nat_utils.c:54-78 | Moving a live node does not disturb the chain. |
| Allocators.NidAllocator.CountFreeNids | src/fs/fs_handler.c:212-271 | The walk counts exactly the length of the chain; neither of its guards cuts it short. |
| NodeCaching.NodeCache.Add | src/cache/node_block_cache.c:183-211 | A new node holds a reference on its cached parent and the caller one on it; what else is evicted is unreferenced, and the nodes that stay keep parent, LPA and state. Nids and LPAs are given back for exactly the deleted nodes that leave; a node that is evicted in any other state gives back neither. |
| NodeCaching.NodeCache.SubRef | src/cache/node_block_cache.c:569-611 | One reference goes, and up the chain of deleted parents every node whose last reference goes with it; the cascade ends, and each of them has its nid and LPA given back once. |
| NodeCaching.DroppedFrees | src/cache/node_block_cache.c:569-611 | Exactly the nodes that leave in a cascade are freed, each once, and all were deleted before. |
| NodeCaching.NodeCache.DoReplace | src/cache/node_block_cache.c:658-687 | The loop ends with the expected size or with all nodes referenced; no referenced node leaves, and reference counts, pins and parents keep agreeing; only deleted nodes give back their nids and LPAs, each once. |
| NodeCaching.EvictionKeepsNid | src/cache/node_block_cache.c:658-687 | An eviction gives back neither nid nor LPA of a node that was not deleted. |
| ReclaimRegistry.Registry.Register | src/fs/cow_reclaim_registry.c:212-249 | A registration waits in the pending list and gives nothing back. |
| ReclaimRegistry.Registry.OnTxComplete | src/fs/cow_reclaim_registry.c:289-299 | Exactly the records of the transaction move over, in order. |
| ReclaimRegistry.Registry.DrainCompleted | src/fs/cow_reclaim_registry.c:301-327 | Every completed record is given back, in order, and none else. |
| ReclaimRegistry.Registry.GivenBackAfterCompletion | src/fs/cow_reclaim_registry.c:212-327 | Over any run an LPA given back belongs to a record whose transaction had completed. |
| ReclaimRegistry.Registry.GivenBackOnce | src/fs/cow_reclaim_registry.c:301-327 | No record is given back twice, and one that was is in no list any more. |
| ReclaimRegistry.EarlyCompletionStrands | src/fs/cow_reclaim_registry.c:289-299 | The failing input: a completion before its registration leaves the record pending although its transaction is done; nothing is freed early. |
| ReclaimRegistry.Registry.StrandedIffLate | src/fs/cow_reclaim_registry.c:212-327 | Over any run, a record whose transaction was reported once is stranded if and only if it was registered after the report; every other record of a reported transaction is completed or given back, and the next drain gives back all that are completed. |
| ReclaimPlan.CollectNode | src/fs/fs_handler.c:1328-1562 | The plan gains exactly the node, everything that hangs below it, and their addresses, each once, parents before children. |
| ReclaimPlan.CollectRegularFile | src/fs/fs_handler.c:1564-1687 | The plan of a file is exact: every mapped LPA below 2^31 once, every index node but the inode once, parents before children. |
| ReclaimPlan.LeafHasIndex | src/fs/fs_handler.c:1328-1562 | Every address word the plan visits belongs to exactly one block number. |
| FileRemoval.DeleteFile | src/fs/fs_handler.c:3047-3241 | Deleting the planned nodes and the inode, in the order of the plan or deferred in reverse, takes every node of the file out of the cache, frees each nid and gives back each node's LPA exactly once, children first and the inode last. |
| FileRemoval.DeleteAll | src/fs/fs_handler.c:1258-1279 | The same for any order of the handles: no node is freed before its children. |
| DirSlots.NameRoundTrip | src/dir_inode/dir_inode.c:1693-1755 | A name spread over slots is read back. |
| DirSlots.FindRun | src/dir_inode/dir_inode.c:1783-1803 | The search finds the first run of free slots long enough, and fails if and only if there is none. |
| DirSlots.ClearEntry | src/dir_inode/dir_inode.c:1630-1691 | Removal clears exactly the bits, dentry and name slots of the entry. |
| DirSlots.ParseHolds | src/dir_inode/dir_inode.c:1050-1278 | Parsing an area reads exactly the entries it holds, each once, in the order of their slots. |
| DirSlots.ConvertArea | src/dir_inode/dir_inode.c:1842-1976 | The entries of 194 inline slots, copied from the front, always fit into the 214 slots of a block; every slot map entry is right. |
| Directories.Directory.ReparseAgrees | src/dir_inode/dir_inode.c:1050-1278 | After any adds, removals, conversion and growth a reload reads exactly the entries in memory, each once; only "." and ".." in blocks are left out. |
| Directories.Directory.AddRegular | src/dir_inode/dir_inode.c:1978-2060 | First fit over the blocks; if none has room the directory grows by one block and the entry fits at the second attempt, so growth recurses at most once. Only that block changes, and it is marked for the next commit. |
| Directories.Directory.ConvertInlineToRegular | src/dir_inode/dir_inode.c:1842-1976 | Conversion keeps names, inode numbers and types of all entries; it fails only for want of a block, and then changes nothing. |
| Directories.GrownIsNotFullyLoaded | src/dir_inode/dir_inode.c:2394-2434 | A directory that has grown counts as not fully loaded although all its blocks are. |
| Directories.Directory.AddEntry | src/dir_inode/dir_inode.c:609-659 | Afterwards the directory has the new entry besides what it had, or, with the exact error, what it had; every block that has changed or is new is marked for the next commit. |
| Directories.Directory.RemoveEntry | src/dir_inode/dir_inode.c:664-674 | Exactly the entry of that name is gone, in memory and from its slots; it fails if and only if there is none. A block that has changed is marked for the next commit. |

## Findings

Where the code does not do what it or its documentation says, the model follows the code.

- Keeping the newest update (`src/journal/journal_writer.c:113`; `src/cache/page_cache.c:254` says
  instead that later duplicates are dropped): `kb_put` does neither, it keeps every duplicate. In one
  leaf it inserts behind the FIRST equal key, so the second update is replayed last and wins over a
  third (`ThreeUpdatesLoseTheNewest`; the exact condition is `LeafOrderIsExactIff`). Once the tree has
  two levels, two updates can be enough (`TwoUpdatesLoseTheNewest`; exactly when is `PutSecond` and
  `TwiceIsExactIff`). NAT keys are distinct within a commit (`EntryOfNode`); SIT keys are not.
- The completion test (`src/journal/journal_processor.c:50-67`) is exact until the tail has come round
  to the record's first block, which cannot happen while the head stops only between transactions.
  With a head inside one it can miss a record that has been passed (`HeadInsideARecordIsMissed`), but
  it is never early (`CompletionIsNeverEarly`).
- A file may grow, or be written as whole blocks, beyond the last block the index can map. Its holes
  there cannot be read (`ReadPastTheLimitFails`; exactly when a read is cut short is in `Read`). The
  write is accepted, but no commit of it succeeds (`CommitPastTheLimitFails`; exactly when a commit
  succeeds is in `CommitFile`). Truncating such a file unmaps its lower blocks, then fails with the
  size unchanged (`ShrinkPastTheLimitFails`; exactly when a truncation succeeds is in `Truncate`); what
  the file shows then depends on which pages are still cached (`EvictionShowsAfterFailure`).
- A completion that arrives before its registration strands the record (`EarlyCompletionStrands`), and
  nothing else does (`StrandedIffLate`).
- The valid-block count of a segment has nine bits: once all 512 blocks are valid it is one short
  (`FullSegmentCountsShort`), and stays so until the segment is empty (`CountIsExactIff`,
  `SetBitsKeepTally`).
- The last nid of the free chain is never handed out (`AllocNid`), so a table of n usable nids serves
  n - 1.
- With 0xFFFFFFFF journal segments the formatter's 32-bit sum wraps, and the SIT is laid over the super
  block (`WrappedLayout`). A device of more than 2^23 segments is accepted although 32-bit LPAs do not
  reach its end (`TooManySegments`). All other layouts are sound (`AreasAreSoundIff`).
- Entries named "." and ".." are read from the inode but skipped in blocks (`ReparseAgrees`). Growing a
  directory marks it as not fully loaded although all its blocks are (`GrownIsNotFullyLoaded`).

## Left out

- FileCommit.CommitIsCrashAtomic: one file's commit at a time; the commit of a directory, and of several inodes in one transaction, is not modelled.
- CommitChain.OthersAreUntouched: the nodes are those of one file; the source keeps the nodes of all files in one cache, and a commit takes along what is dirty there of other files.
- CommitRun.CommitFile: which SIT and super-block entries a transaction carries besides the NAT entries; the theorems allow any that are in range.
- CommitChain.CommitsAreAtomic: assumes the ring ahead of the tail to be zeroed (`ZeroAhead`), as recovery does, which has no sequence numbers to tell an old transaction by.
- CommitChain.CommitsAreAtomic: assumes that no dirty node is evicted between being marked dirty and the commit; the dirty list of the source holds no reference of its own.
- FormattedDevice.FirstCommitIsReady: at most 128 journal segments, because the stored ring offsets have 16 bits.
- CommitRun.CommitFile: what a failed commit leaves in the pending lists for the next one, timestamps and the inode's other attributes; only size and addresses are followed.
- FileWriteback.WriteDirtyPagesCow: after a failure the source marks the assigned LPAs invalid again; here they merely stay unused. Its list of pending relocations is the result.
- BlockIndex.FileNodes.CreateNode: the nids are those the allocator hands out next, but the reference on the parent that the node cache takes is followed only in NodeCache.
- ReclaimPlan.CollectRegularFile: addresses from 2^31 on are skipped by the code, and so by the plan.
- JournalDedup.TwiceIsExactIff: for three or more entries of one key in a tree of several leaves there is no condition for exactly which one is replayed last.
- KeyTree.PutNode: nodes of the B-tree are values; their allocation and the sharing of memory between them are not modelled.
- Allocators.NidAllocator.AllocNid: the chain in memory; only its head is journalled, so what the chain on the device looks like after a crash is not claimed.
- FormattedDevice.Format: SRMAP blocks are given as encoded blocks. The 16 bytes behind the 60 entries of a SIT block are not set by the source, and are left open.
- DirSlots.ParseHolds: the packing of directory slots into bytes is not modelled, their bitmaps are sequences of bits.
- Directories.Directory.ReparseAgrees: a directory with all its blocks loaded; partial loading and relocation of directory blocks are not modelled.
- JournalRing.JournalProcessor.DeviceConsumes: the device's head moves only between transactions; that is an assumption on the device.
- MountRecovery.RecoverFromDb: the reclaim lists that recovery rebuilds, and a device that fails to read or write while it recovers.
- Recovery.TxState.ApplyOne: the recording of reclaimed blocks, which reads inodes and may fail.
- Recovery.TxState.CommitTx: a failing device write.
- Recovery.ReplayOneTransaction: the same two.
- FileRemoval.DeleteFile: all nodes of the file are cached, as they are after the plan has taken handles on them; the commit of the unlink itself is not modelled.
- SitNatCache, SuperCache, BlockBuffer and SRMAP: the tables are plain arrays.
- Request submission, threads, locks, timers and DMA memory: the processor is one thread's steps, and the page cache is used under its inode's lock.
- Failed memory allocation, logging and test hooks.
- Path evaluation, rename, mount and unmount, stat, chmod, utimens and the libio handlers: they would add only argument checks around these cores.
