# fs-engine storage core in Dafny

A model of the storage core of fs-engine: an ext2-shaped filesystem with a write-ahead journal. Six parts build on
each other.

* **Journal and crash recovery** (`device`, `journal*`, `mutation`). The device has a volatile image and a durable
  file that meet only at `Sync` and `Reload`. A commit is a sequence of device operations; a crash may come at any of
  them and may persist any subset of blocks inside a sync, and recovery may itself be cut short any number of times.
  The main theorem, `JournalCrash.RunIsAtomic`, is about every run of commits, aborts and crashes. The checksum is a
  function parameter; all that is asked of it is that it does not collide on the blocks at hand.
* **Block map and allocator** (`bits`, `bitmap`, `alloc`, `blockmap`, `extent`, `truncate`, `growth`, `release`,
  `volume_runs`, `volume`, `file_ops`, `truncate_ops`, `cached_files`). Every index or data block has a position in the
  tree of one inode. One frame theorem, `BlockMap.SetPointerFrame`, covers all four ranges and all three indirect
  levels; ownership of blocks across all inodes over every run (`VolumeRuns.RunOwns`), file content and truncation
  follow from it.
* **Directories** (`dir_format`, `dir_map`, `dir_state`, `dir_read`, `dir`). Bytes of directory blocks refine a map
  from names to inodes.
* **Buffer cache** (`cache_spec`, `cache_pins`, `cache`). Every sequential run of the write-back cache is a run of a
  plain block map, and its pins are those the history of calls leaves.
* **Name space, checker and path resolution** (`names`, `namespace`, `link_limit`, `fsck_walk`, `fsck`, `fsck_names`,
  `fsck_blocks`, `namei`, `namei_names`, `inode`). Link counts and tree shape over runs, a checker that decides a
  declarative invariant, and a path resolver compared with an unlimited walk, with chains of directory entries and with
  the name space.
* **The whole disk** (`disk_state`, `disk_names`, `disk_inodes`, `disk_remove`, `disk_ops`, `disk_format`,
  `disk_crash`, `fsck_disk`). The bitmaps, the inode table, the block trees and the directory bytes, read together, are a name
  space. The operations, built from the allocator, the inode table and the directory code, make exactly the steps of
  that name space (`DiskOps`), and `DiskCrash.CrashesKeepNames` joins them with the journal: whatever crashes happen,
  the disk holds the sound name space to which exactly the synced operations lead, no file that stays loses a byte
  (`DiskCrash.CrashesKeepFiles`), and the checker finds nothing (`FsckDisk.CrashesPassCheck`).

Code that updates state is modelled by classes and methods with loops; its methods are proved against specification
functions on values, and the theorems are about those functions. Block size, pointers per block, the disk layout and
the link limit are named constants with the engine's values; the journal's start and length are parameters.

## Where a promise does not hold as stated

Each of these comes with the exact condition under which the code does what is expected.

* A committed block can be lost after the journal head wraps or the filesystem is mounted again, because replay goes
  by offset and old transactions stay in the journal: `JournalLimits.WrapRevertsCommit` gives the three commits.
  `JournalLimits.RestIsSafeIff` gives the exact condition for whatever the journal holds: a crash at rest keeps the
  home blocks exactly when each equals the last write to it among those the scan meets. `JournalCrash.RunIsAtomic` is
  about one lap from a zeroed journal.
* A commit that fails after its journal sync reports an error and memory goes back, yet the next recovery applies the
  transaction: `JournalCrash.ReportedFailureComesBack`, for every stop between the journal sync and the end of the
  commit. One that stops before the journal sync leaves nothing (`JournalCrash.StepKeepsInv`).
* When a changed block cannot be read back for logging, `RunMutation` reports the error and leaves the changes in
  memory, not on disk: the ending `Unrestored` of `Mutation.Filesystem.RunMutation`, which needs a device fault.
* `AddEntry` takes a block before it knows whether it can map it. When it cannot, no file changes but the block stays
  marked used: `Directory.AddEntry` says exactly when, in terms of the state before the call;
  `Directory.LeakBreaksOwns` says what that breaks. `RunMutation` rolls the bitmap back with everything else.
* A 17th bit of a link count is dropped: `Names.LinkedKeepsInvIff`, `Namespaces.WrapFreesNamedFile`. A run gets there
  (`LinkLimit.OverflowIsReached`). Directory counts cannot wrap (`Names.DirLinksBound`).
* From 16 TiB on, offsets wrap to the start of the file: `FileContent.LogicalBlockIff`.
* Shrinking keeps the bytes of the last partial block, which growing shows again: `FileTruncation.RegainedReadsZeroIff`.
* Data put into the cache without being marked survives eviction exactly if the block was dirty already or the device
  holds the same data (`CacheSpec.UnmarkedPutKeptIff`; `CacheSpec.UnmarkedPutIsLost` is a run that loses it). A block
  changed behind the cache is seen exactly if it is not cached (`CacheSpec.BehindTheCacheIff`); freeing does not drop
  blocks from the cache, so file content is right as long as no free block is cached, and truncation keeps that exactly
  if none of the blocks it is about to cut is cached (`CachedFiles.CutKeepsLeavesIff`).
* Removing one of several equal names uncovers the next: removal is map deletion exactly when the name is listed once
  (`DirMaps.RemoveIsMapDeleteIff`), and names stay unique exactly when only absent names are added
  (`DirMaps.InsertIsMapInsert`).
* A symbolic link with an empty target, which creation refuses, would be followed from the root:
  `PathResolution.FollowsWalkIff` says exactly when following a link goes where the walk goes.

## Model

| member | source | states |
|---|---|---|
| Device.BlockDevice.ReadBlock | internal/disk/device.go:76-89 | returns the volatile block; without a fault it fails only out of range |
| Device.BlockDevice.WriteBlock | internal/disk/device.go:92-108 | replaces one volatile block or changes nothing |
| Device.BlockDevice.Sync | internal/disk/device.go:111-135 | makes the file equal to memory; on error the file is some mixture of old and new blocks |
| Device.BlockDevice.Reload | internal/disk/device.go:209-226 | memory goes back to the durable file |
| Device.BlockDevice.Snapshot | internal/disk/device.go:160-166 | the volatile image |
| Device.BlockDevice.ChangedBlocks | internal/disk/device.go:169-186 | exactly the differing addresses, ascending |
| Device.BlockDevice.RestoreBlocks | internal/disk/device.go:189-206 | exactly the listed blocks get the snapshot's content |
| JournalFormat.HeaderRoundTrip | internal/journal/layout.go:38-51 | a journal header is read back and the rest of the block is kept |
| JournalFormat.DescriptorBlocksByDivision | internal/journal/transaction.go:177-184 | the recursive count of descriptor blocks is the rounded-up division the engine computes |
| JournalFormat.ChunksCover | internal/journal/transaction.go:64-99 | the descriptor blocks hold every address once, with nothing left over |
| JournalFormat.DescriptorCodecRoundTrip | internal/journal/transaction.go:64-99 | packing fills exactly the computed number of blocks and the parser reads the same list back in order |
| JournalFormat.ChecksumIsLastSum | internal/journal/transaction.go:101-109 | the checksum is the last value of the running sum over every block |
| JournalFormat.ChecksumSeparates | internal/journal/recovery.go:83-111 | where the steps of the running sum do not collide, blocks with equal checksums are equal, all of them |
| Journaling.FillDescriptor | internal/journal/transaction.go:66-99 | the buffer loop writes the specified descriptor block |
| Journaling.Journal.constructor | internal/journal/journal.go:67-77 | head 0 over whatever the journal holds |
| Journaling.Journal.Init | internal/journal/journal.go:87-99 | zeroes exactly the journal region |
| Journaling.Journal.OpenTransaction | internal/journal/journal.go:102-109 | the next sequence number, modulo 32 bits |
| Journaling.Journal.AllocBlocks | internal/journal/journal.go:128-139 | the head moves on, wraps to 0 when the rest is too short, and fails only on a request longer than the journal |
| Journaling.Journal.WriteDescriptors | internal/journal/transaction.go:66-99 | writes the first part of the transaction's journal image, stopping anywhere on a fault |
| Journaling.Journal.WriteData | internal/journal/transaction.go:101-109 | writes the data part of the transaction's journal image |
| Journaling.Journal.WriteCommitBlock | internal/journal/transaction.go:111-124 | writes the commit record with the checksum of the data |
| Journaling.JournalTransaction.LogBlock | internal/journal/transaction.go:31-39 | appends a 4096-byte block and refuses any other length |
| Journaling.JournalTransaction.WriteHome | internal/journal/transaction.go:133-138 | writes the home blocks in order; a fault leaves a prefix of them |
| Journaling.JournalTransaction.Commit | internal/journal/transaction.go:48-167 | success means every device operation of the commit happened; failure means the disk is exactly the one after m of them, with any mixture inside a sync |
| JournalRecovery.ReadTags | internal/journal/recovery.go:43-76 | the addresses of one descriptor block |
| JournalRecovery.ReadChain | internal/journal/recovery.go:43-76 | walks the descriptor chain and tells whole, broken and cut chains apart |
| JournalRecovery.ReadData | internal/journal/recovery.go:83-93 | the data blocks and their checksum |
| JournalRecovery.ScanStep | internal/journal/recovery.go:30-118 | one scan step at an offset is the specified one: skip, stop, error or replay |
| JournalRecovery.JournalScanner | internal/journal/recovery.go:30-118 | the scan at an offset as a function of the image; it is a scanner in the sense of the theorems |
| JournalRecovery.Recover | internal/journal/recovery.go:18-132 | without a fault, the full recovery of the image; with one, the recovery stopped after some number of home writes |
| JournalLog.ScanLogged | internal/journal/recovery.go:30-118 | at a logged transaction the scan finds exactly its home writes and its length |
| JournalLog.ScanReplaysIff | internal/journal/recovery.go:30-118 | on any journal content, recovery replays at an offset exactly when descriptors, blocks and a commit record of one sequence number lie there with the right checksum, and then exactly those blocks |
| JournalLog.ScanTorn | internal/journal/recovery.go:30-118 | at a detectable torn transaction of any length nothing is replayed, whatever subset of its journal blocks persisted |
| JournalLog.AscendingChainsBreak | internal/journal/recovery.go:43-76 | with ascending home addresses outside the journal, a later descriptor block read on its own never makes a whole chain |
| JournalRuns.RecoverLog | internal/journal/recovery.go:18-132 | recovery of a journal that holds a log is the replay of its whole transactions, in order |
| JournalCrash.AfterJournalSync | internal/journal/transaction.go:128-138 | after the journal sync only home blocks of the transaction can differ from the synced image |
| JournalCrash.CrashInSync | internal/journal/transaction.go:128-131 | a crash inside the journal sync, with any journal blocks persisted, is recovered to all of the transaction when all of its journal blocks arrived and to none of it otherwise |
| JournalCrash.CrashAfterSync | internal/journal/transaction.go:133-143 | a crash after the journal sync, with any home blocks persisted, is recovered to all of the transaction |
| JournalCrash.StepKeepsInv | internal/journal/transaction.go:48-143 | every completed, aborted or crashed commit keeps the journal a log and the home blocks its replay |
| JournalCrash.RunIsAtomic | internal/journal/transaction.go:48-143 | in every run before the head wraps, crashes inside recovery included, the home blocks are those of exactly the transactions whose journal blocks were synced, in order, and a crash at rest changes nothing |
| JournalCrash.ReportedFailureComesBack | internal/fs/fs.go:481-485 | a commit that failed after its journal sync is applied by the next recovery, although memory went back to the durable image; when the first home write failed callers saw none of it |
| Journaling.FailedCommitIsCrash | internal/journal/transaction.go:48-143 | what a failed commit leaves on disk is what a crash at the same operation leaves |
| JournalRestart.RecoveryRestarts | internal/journal/recovery.go:23-131 | stopped after any number of home writes with any of them persisted, and run again, recovery gives what one full run gives, and the journal never changes |
| JournalRestart.LogIsSelfContained | internal/journal/recovery.go:23-131 | a journal that holds a log can be recovered again and again, whatever its data blocks look like |
| JournalRestart.RetriesConverge | internal/journal/recovery.go:23-131 | however often recovery of a log is cut short, the run that completes ends where one full run ends |
| JournalLimits.RecoveryReplays | internal/journal/recovery.go:23-129 | recovery performs exactly the home writes the scan meets, in order, for every journal content |
| JournalLimits.RestIsSafeIff | internal/journal/recovery.go:23-129 | a crash at rest keeps the home blocks exactly when each block the scan replays has the value of the last replayed write to it; for every journal content, wrapped and remounted ones included |
| JournalLimits.WrapRevertsCommit | internal/journal/journal.go:132-135 | three commits of which the third, logged after the wrap, is undone by recovery |
| Mutation.DiffReplays | internal/fs/fs.go:444-487 | replaying the diff of two images over the restored one gives the final image |
| Mutation.Filesystem.ChangedHome | internal/fs/fs.go:444-458 | the logged set is exactly the differing blocks outside the journal |
| Mutation.Filesystem.CommitChanges | internal/fs/fs.go:460-487 | diff, restore and commit change the home blocks to the final ones; on a fault the disk is what the commit had reached, and memory is the disk unless the read-back failed |
| Mutation.Filesystem.RunMutation | internal/fs/fs.go:397-487 | all or nothing, device faults included: on success memory, disk and the intended home image agree; every failing end is told apart, with the exact conditions of a failure without fault |
| Mutation.MutationIsCommit | internal/fs/fs.go:397-487 | a successful mutation is one completed commit of a crash-safe run |
| Mutation.MutationDetectable | internal/fs/fs.go:444-458 | a torn transaction of a mutation is detectable at any length, unless a data block looks like a descriptor or a step of the checksum collides on the torn and the logged blocks |
| Bits.TrailingZerosBit | internal/fs/bitmap.go:86-90 | the count of trailing zeros is the position of the least set bit |
| Bits.OnesCountIsOnes | internal/fs/bitmap.go:97-115 | the population count is the number of set bits |
| Bitmaps.Bitmap.IsSet | internal/fs/bitmap.go:35-40 | membership in the set of set bits below the size |
| Bitmaps.Bitmap.Set | internal/fs/bitmap.go:43-48 | adds one bit below the size, changes no other, keeps zero padding |
| Bitmaps.Bitmap.Clear | internal/fs/bitmap.go:51-56 | removes one bit, changes no other, keeps zero padding |
| Bitmaps.Bitmap.FindNext | internal/fs/bitmap.go:65-94 | the least clear bit at or after start and below the size, or none exactly when all are set |
| Bitmaps.Bitmap.Count | internal/fs/bitmap.go:97-115 | the number of set bits of all bytes, and of the bitmap when the padding is zero |
| Bitmaps.CountIsCard | internal/fs/bitmap.go:97-115 | the running count is the cardinality of the set of set bits |
| Allocation.Allocator.Format | internal/fs/mkfs.go:66-76 | exactly the metadata blocks and inode 1 are taken, and the counts agree |
| Allocation.Allocator.AllocBlock | internal/fs/alloc.go:41-75 | the least free data block, zeroed; fails exactly when the data region is full; free plus used stays the total |
| Allocation.Allocator.FreeBlock | internal/fs/alloc.go:78-101 | frees a data block once; metadata blocks are refused |
| Allocation.Allocator.AllocInode | internal/fs/alloc.go:104-132 | the least free inode number; fails exactly when none is left |
| Allocation.Allocator.FreeInode | internal/fs/alloc.go:135-163 | frees an inode number once and zeroes exactly its record |
| Allocation.InodeNumToBlock | internal/fs/inode.go:149-154 | an inode record lies wholly inside one block of the inode table |
| InodeTable.SizeRoundTrip | internal/fs/inode.go:61-69 | a size split into two words is read back exactly below 2^64 |
| InodeTable.InodeRoundTrip | internal/fs/inode.go:186-234 | decoding an encoded record gives it back, whatever the block held before |
| InodeTable.SlotsDisjoint | internal/fs/inode.go:149-154 | two inodes share no byte of the table |
| InodeTable.ReadInode | internal/fs/inode.go:158-170 | the record of a valid inode number |
| InodeTable.WriteInode | internal/fs/inode.go:173-184 | changes one record; every other record and every block outside the table stays |
| BlockMap.PointerRoundTrip | internal/fs/extent.go:300-306 | a written pointer is read back and no other pointer of the block changes |
| BlockMap.PosOfLogical | internal/fs/extent.go:13-88 | every logical block in the four ranges has a data position that gives it back |
| BlockMap.LogicalPosOf | internal/fs/extent.go:13-88 | every data position is that of exactly one logical block |
| BlockMap.GetIsAddr | internal/fs/extent.go:13-88 | the lookup is the tree walk at every level, and too big exactly beyond the last range |
| BlockMap.BlocksForSizeIff | internal/fs/extent.go:293-298 | the block count is the least that holds the size, exactly as long as it fits 32 bits |
| BlockMap.SetPointerFrame | internal/fs/extent.go:92-251 | setting one pointer changes the mapping at that position and at no other position of any inode, at every level |
| BlockMap.LinkKeepsOwns | internal/fs/extent.go:92-251 | linking a free block at an empty position keeps filesystem-wide ownership |
| BlockMap.UnlinkKeepsOwns | internal/fs/extent.go:308-380 | unlinking and freeing a block with nothing below it keeps ownership |
| Extents.AllocBlockForOffset | internal/fs/extent.go:92-251 | afterwards the lookup returns the result; the tree only grew towards that block; out of space changes no mapping; an existing mapping is returned unchanged |
| Growth.GrownCount | internal/fs/extent.go:92-251 | one allocation on demand takes at most four blocks |
| Extents.GrownMapping | internal/fs/extent.go:92-251 | the mapping and content of every other logical block of every file are unchanged |
| Truncation.ClearPointerAt | internal/fs/extent.go:308-380 | clears exactly the pointer of one logical block, at every level |
| Truncation.PruneIndirectBlocks | internal/fs/extent.go:382-404 | frees the single-indirect block exactly when it is there, cut from its start and empty |
| Truncation.FreeBlocksFrom | internal/fs/extent.go:254-277 | mappings below start stay, those from start on become holes, exactly their blocks are freed, and the single-indirect block with them exactly when the state before says it is cut from its start and held nothing else; ownership is kept |
| Release.SubtreeComplete | internal/fs/alloc.go:167-247 | the three recursive frees reach every block below a pointer |
| Release.SubtreeSound | internal/fs/alloc.go:167-247 | they reach nothing else |
| Release.FreeInodeBlocks | internal/fs/alloc.go:167-199 | frees exactly the blocks of the inode's tree; the other inodes own exactly the rest |
| Growth.ExtendedKeepsOwns | internal/fs/extent.go:92-251 | putting free blocks at empty positions keeps ownership across all inodes |
| Growth.ShortenedKeepsOwns | internal/fs/extent.go:254-277 | giving back exactly the blocks at the cut positions keeps ownership across all inodes |
| Volumes.Volume.MakeInode | internal/ops/link_ops.go:52-60 | a new inode maps nothing and has size 0 |
| Volumes.Volume.GrowFile | internal/fs/extent.go:92-251 | a growth step of the run; the result is the mapped block, and running out of space is exact |
| Volumes.Volume.FillBlock | internal/ops/file_ops.go:108-131 | writing a mapped block changes no tree; done exactly when the block is mapped |
| Volumes.Volume.ResizeFile | internal/ops/file_ops.go:157-194 | a resize step of the run: sets the size and, when shrinking, cuts the tree; succeeds exactly for files and addressable cuts |
| Volumes.Volume.ReleaseFile | internal/fs/alloc.go:167-199 | a release step of the run: the inode goes with exactly the blocks of its tree |
| VolumeRuns.StepKeepsOwns | internal/fs/extent.go:92-277 | making, growing, filling, resizing and freeing a file each keep ownership |
| VolumeRuns.RunOwns | internal/fs/extent.go:92-277 | in every state of every run from a formatted volume the used blocks are exactly the metadata and the trees, each block held once |
| VolumeRuns.RunNeverShares | internal/fs/extent.go:92-277 | in every state of every run no block is held at two positions, and a block in no tree is free |
| FileContent.LogicalBlockIff | internal/ops/file_ops.go:108-110 | the 32-bit block number is the real one exactly below 16 TiB |
| FileContent.GrownBytes | internal/ops/file_ops.go:108-117 | allocating blocks changes no byte of any file: new blocks read as the holes they replace |
| FileContent.ChunkOverlays | internal/ops/file_ops.go:122-131 | copying a chunk into the block behind its offset overlays exactly those bytes of that file |
| CachedFiles.GrownThrough | internal/fs/alloc.go:62-66 | with only data blocks cached, allocation on demand looks the same through the cache: a new block is not cached and reads zero |
| CachedFiles.Read | internal/ops/file_ops.go:11-80 | the matching slice of the sparse byte sequence callers see, clipped to the size, holes as zeros; pins are given back and nothing a caller sees changes |
| CachedFiles.Write | internal/ops/file_ops.go:84-154 | overlays the buffer on what callers see, or the prefix before the chunk that failed, leaves every other byte of every file, and sets the size to the larger of old size and end; the error is exact; it succeeds whenever the end is addressable and enough blocks are free, and never fails because of the cache |
| CachedFiles.WriteChunk | internal/ops/file_ops.go:108-136 | one chunk is overlaid, or the offset is too big, or the data region is full |
| CachedFiles.FlushedBytes | internal/cache/buffer.go:224-240 | after a complete flush the device holds every byte callers saw |
| CachedFiles.CutKeepsLeavesIff | internal/fs/extent.go:254-277 | truncation leaves the cache fit for use exactly if none of the blocks it is about to cut is cached |
| FileTruncation.Truncate | internal/ops/file_ops.go:157-194 | bytes below the next block boundary stay, the rest of the old blocks read zero, no other file changes, ownership is kept; growing a file always succeeds, and failure is exact |
| FileTruncation.RegainedReadsZeroIff | internal/ops/file_ops.go:181-188 | growing back reads zeros exactly if the tail of the last block was zero |
| DirFormat.EncodeRoundTrip | internal/fs/dir.go:36-71 | a written record is parsed back and no byte outside it changes |
| DirFormat.ReplaceStretch | internal/fs/dir.go:174-218 | replacing some records by others of the same total length changes the listing there only and keeps the tiling |
| DirFormat.InsertListing | internal/fs/dir.go:183-216 | reusing a deleted record or splitting a live one puts one entry into the listing and keeps the tiling |
| DirFormat.DeleteListing | internal/fs/dir.go:315-319 | zeroing the inode takes exactly that entry out and keeps the tiling |
| DirFormat.DeletedMakesRoom | internal/fs/dir.go:183-216 | a deleted record is room for every name that fits it |
| DirMaps.InsertIsMapInsert | internal/fs/dir.go:146-250 | inserting an absent name is map insertion; names stay unique exactly when the name was absent |
| DirMaps.RemoveIsMapDelete | internal/fs/dir.go:285-325 | when names are unique, removing one is map deletion and leaves them unique |
| DirMaps.RemoveIsMapDeleteIff | internal/fs/dir.go:285-325 | on any listing, removing a name is map deletion exactly when the name is listed once; every other name keeps its target |
| DirMaps.UniqueIffSize | internal/fs/dir.go:75-113 | names are unique exactly when the map has as many names as iteration visits entries |
| DirRead.IterDirEntries | internal/fs/dir.go:75-113 | the callback sees the live entries in order, each once, up to the one it stops at |
| DirRead.LookupEntry | internal/fs/dir.go:117-139 | map lookup, with not-found exactly for absent names |
| DirRead.IsEmptyDir | internal/fs/dir.go:328-341 | true exactly when the map has no names but the two dots |
| DirRead.ReadAllEntries | internal/fs/dir.go:344-351 | all live entries in order |
| Directory.InsertIntoBlock | internal/fs/dir.go:173-218 | inserts exactly when some record of the block has room |
| Directory.RemoveFromBlock | internal/fs/dir.go:306-321 | removes the first live entry of the name, or reports that there is none |
| Directory.SetBlockForOffset | internal/fs/dir.go:253-282 | maps a filled block at a direct or single-indirect hole, exactly when the position is within reach and an index block, if one is needed, can be had; every other block of every file stays |
| Directory.AddNewBlock | internal/fs/dir.go:221-245 | succeeds exactly when a block is free and can be mapped, in terms of the state before the call; otherwise the taken block is lost |
| Directory.AddEntry | internal/fs/dir.go:146-250 | the listing gains the entry, no other file changes, the tiling is kept; success holds exactly when some record has room or a new block can be had and mapped, and a block is lost exactly when one was taken and could not be mapped, both in terms of the state before the call |
| Directory.LeakBreaksOwns | internal/fs/dir.go:221-245 | a block taken and not mapped leaves the trees disjoint but ownership broken |
| Directory.RemoveEntry | internal/fs/dir.go:285-325 | succeeds exactly for names in the map, removes the first such entry, allocates and frees nothing |
| Directory.InitDirBlock | internal/fs/dir.go:354-385 | a tiled block that lists the two dots and nothing else |
| Directory.AddIsMapInsert | internal/fs/dir.go:146-250 | at directory level, adding an absent name is map insertion |
| Directory.RemoveUndoesAdd | internal/fs/dir.go:285-325 | removing a name just added gives the old map back |
| CacheSpec.VictimIsLeastRecent | internal/cache/buffer.go:281-318 | the victim is unpinned and everything less recent is pinned; there is none exactly when all are pinned |
| CacheSpec.VictimIsOldest | internal/cache/buffer.go:281-343 | the victim is the unpinned block whose last access lies furthest back in the history |
| CacheSpec.EvictKeeps | internal/cache/buffer.go:281-343 | eviction changes nothing a caller reads |
| CacheSpec.FlushKeeps | internal/cache/buffer.go:197-240 | flushing changes nothing a caller reads; with nothing dirty left the device is the view |
| CacheSpec.StepRefines | internal/cache/buffer.go:64-251 | one disciplined call answers and changes the view as the plain block map does |
| CacheSpec.RunRefinesPlainMap | internal/cache/buffer.go:64-343 | every disciplined sequential run is a run of the plain block map, with the size, recency and coherence invariants in every state |
| CacheSpec.UnmarkedPutIsLost | internal/cache/buffer.go:118-151 | a run in which changed data put without marking is lost on eviction |
| CacheSpec.UnmarkedPutKeptIff | internal/cache/buffer.go:118-151 | an unmarked put keeps the cache coherent and survives eviction exactly if the block was dirty already or the device holds the same data |
| CacheSpec.BehindTheCacheIff | internal/fs/alloc.go:62-66 | a block changed on the device is seen exactly if it is not cached with other content |
| CachePins.RunPins | internal/cache/buffer.go:64-194 | in every run the pins of a cached block are its reads less its puts by the history of calls, never below zero; an uncached block is held by nobody |
| CachePins.HeldStaysCached | internal/cache/buffer.go:281-343 | a held block stays cached under every call that does not invalidate it |
| CachePins.AllHeldFails | internal/cache/buffer.go:281-312 | a full cache of held blocks takes in no other block: the call fails and changes nothing |
| CachePins.RoomIff | internal/cache/buffer.go:281-343 | room can be made exactly when the cache is not full or some cached block is held by nobody |
| BufferCaching.BufferCache.EvictIfNeeded | internal/cache/buffer.go:281-343 | makes room as specified; without a fault it fails exactly when all blocks are pinned or the victim is out of range |
| BufferCaching.BufferCache.GetBlock | internal/cache/buffer.go:64-114 | a get step: the block a caller sees, pinned and most recent |
| BufferCaching.BufferCache.PutBlock | internal/cache/buffer.go:118-151 | an unmarked put step, dropping one pin |
| BufferCaching.BufferCache.MarkDirty | internal/cache/buffer.go:154-160 | marks a cached block and changes nothing else |
| BufferCaching.BufferCache.PutDirty | internal/ops/file_ops.go:128-131 | a put followed at once by marking is one marked put step; without a fault it succeeds exactly when the block is cached or room can be made |
| BufferCaching.BufferCache.WriteBlock | internal/cache/buffer.go:164-194 | a write step that keeps pins |
| BufferCaching.BufferCache.FlushBlock | internal/cache/buffer.go:197-221 | writes one dirty block back |
| BufferCaching.BufferCache.FlushAll | internal/cache/buffer.go:224-240 | on success nothing is dirty; on failure some blocks were flushed and nothing else changed |
| BufferCaching.BufferCache.Invalidate | internal/cache/buffer.go:243-251 | drops one block without writing |
| BufferCaching.BufferCache.InvalidateAll | internal/cache/buffer.go:254-260 | an empty cache over the device |
| Names.MadeDirKeepsInv | internal/ops/dir_ops.go:17-90 | a new directory keeps link counts, kinds and the tree |
| Names.RemovedDirKeepsInv | internal/ops/dir_ops.go:93-165 | removing an empty directory keeps them and takes away exactly that inode |
| Names.CreatedKeepsInv | internal/ops/link_ops.go:10-81 | a new file keeps them |
| Names.LinkedKeepsInvIff | internal/ops/link_ops.go:84-145 | a further name keeps them exactly when the 16-bit count has room |
| Names.UnlinkedKeepsInv | internal/ops/link_ops.go:263-342 | removing a name keeps them and frees the file exactly when it was the last name |
| Names.DirLinksBound | internal/ops/dir_ops.go:77-83 | a directory's count stays far below the 16-bit limit |
| Namespaces.Namespace.Mkdir | internal/ops/dir_ops.go:17-90 | all or nothing; succeeds exactly for an absent proper name with inode and room, where room is decided on disk by DiskOps.Mkdir |
| Namespaces.Namespace.Rmdir | internal/ops/dir_ops.go:93-165 | all or nothing; succeeds exactly for an empty directory under a proper name |
| Namespaces.Namespace.Create | internal/ops/link_ops.go:10-81 | all or nothing; returns an existing file unchanged; room is decided on disk by DiskOps.Create |
| Namespaces.Namespace.Link | internal/ops/link_ops.go:84-145 | all or nothing; keeps the invariant exactly when the count has room; room on disk is decided by DiskOps.Link |
| Namespaces.Namespace.Unlink | internal/ops/link_ops.go:263-342 | all or nothing; the file goes exactly with its last name |
| Namespaces.AllocatedIffNamed | internal/ops/link_ops.go:319-328 | an inode is allocated exactly when it is the root or has a proper name |
| Namespaces.EverythingReachable | internal/ops/dir_ops.go:17-165 | every allocated inode lies at the end of a path of proper names from the root |
| Namespaces.OnePath | internal/ops/dir_ops.go:17-165 | a directory is reached along one path only |
| Namespaces.RunIsTree | internal/ops/link_ops.go:10-342 | in every state of every run: right link counts, one tree rooted at inode 1, allocated exactly while named |
| Namespaces.StepNames | internal/ops/link_ops.go:10-342 | a successful call changes the proper names by exactly the one it is asked for, and no inode its kind |
| Namespaces.WrapFreesNamedFile | internal/ops/link_ops.go:136-138 | past 65535 names the next removal frees a file that still has names |
| LinkLimit.ManyIsReached | internal/ops/link_ops.go:84-145 | a run of k calls from a formatted name space reaches a file with k names, for every k up to the limit |
| LinkLimit.OverflowIsReached | internal/ops/link_ops.go:136-138 | so a run reaches a file whose next link wraps the count and whose next removal frees it while it is named |
| DiskNames.AddName | internal/ops/dir_ops.go:77-83 | adding an entry and storing the record changes one node of the disk's name space by one map insertion, exactly when the name fits; every other file keeps record and blocks |
| DiskInodes.NewFile | internal/ops/link_ops.go:44-66 | the least free inode becomes the given record and an empty file node; every other file keeps record and blocks |
| DiskInodes.NewDir | internal/ops/dir_ops.go:47-75 | the least free inode and the least free block become a directory node with its two dots; fails exactly when either is missing |
| DiskRemove.SetLinks | internal/ops/link_ops.go:136-138 | storing a new count changes that count only: every file, this one included, keeps type, size and blocks |
| DiskRemove.RemoveName | internal/ops/link_ops.go:304-314 | removing an entry takes one name out of one node; every other file keeps record and blocks |
| DiskRemove.DropInode | internal/ops/link_ops.go:319-328 | freeing blocks and inode takes one node away; every other file keeps record and blocks |
| DiskOps.Mkdir | internal/ops/dir_ops.go:17-90 | on the bytes of the disk: the step of the name space, soundness kept, every other inode kept with size and content, a new directory of one block; success exactly when name, inode and blocks are to be had, in terms of the disk before |
| DiskOps.Rmdir | internal/ops/dir_ops.go:93-165 | on the bytes of the disk: the step of the name space, soundness kept, every other inode kept with size and content; success exactly for an empty directory under a proper name; failure changes nothing |
| DiskOps.Create | internal/ops/link_ops.go:10-81 | on the bytes of the disk: the step of the name space, soundness kept, every other inode kept with size and content; a new file has size 0 and maps nothing, an existing one is returned untouched; exact success |
| DiskOps.Link | internal/ops/link_ops.go:84-145 | on the bytes of the disk: the step of the name space, every inode but the parent kept with size and content, the linked file too; exact success; soundness kept exactly when the count has room |
| DiskOps.Unlink | internal/ops/link_ops.go:263-342 | on the bytes of the disk: the step of the name space, soundness kept, every inode that stays kept with size and content; the file's blocks go exactly with its last name; failure changes nothing |
| DiskFormat.Format | internal/fs/mkfs.go:12-134 | a formatted disk is sound and holds the name space of a lone root directory |
| DiskCrash.MountedIsNow | internal/fs/bitmap.go:123-152 | the bitmaps in memory are those mounting would read |
| DiskCrash.PerformsHome | internal/fs/fs.go:444-458 | an operation performed on the engine's image is one performed on any image with the same home blocks, with the same transaction |
| DiskCrash.DurableCallsLead | internal/fs/fs.go:397-487 | applying the transactions that were synced gives a sound disk with the name space to which exactly their operations lead |
| DiskCrash.CrashesKeepNames | internal/fs/fs.go:397-487 | in every run of operations with aborts, crashes and interrupted recoveries, before the head wraps, the disk holds a sound name space: that of exactly the synced operations, in order; a further crash changes nothing |
| DiskCrash.CrashesKeepFiles | internal/fs/fs.go:397-487 | in every such run a file that no synced operation takes away has the size, the blocks and the bytes it started with |
| FsckWalk.WalkFromRoot | internal/fs/fs.go:663-696 | ends on every graph; visits exactly what is reachable; reports trouble exactly when the reachable directories are not a tree |
| Fsck.CheckEntries | internal/fs/fs.go:601-626 | clean exactly when every proper entry of an allocated directory names an allocated inode |
| Fsck.CheckBlocks | internal/fs/fs.go:628-661 | clean exactly when every nonzero block listed by an allocated inode is marked used, and no block is listed at two places of one inode or of two |
| Fsck.FsckFull | internal/fs/fs.go:510-708 | clean exactly when the disk is consistent |
| Fsck.CountIsConservation | internal/fs/fs.go:552-578 | with clear padding the count checks are exactly free plus used equals total |
| FsckNames.RunsPassNameChecks | internal/fs/fs.go:528-708 | the name checks find nothing in any state of any run of the name space |
| FsckNames.NamesPassIff | internal/fs/fs.go:528-708 | on a table that holds a sound name space the name checks are clean, the type check exactly if every node is a directory, a regular file or a symbolic link |
| FsckBlocks.BlockList | internal/fs/extent.go:280-291 | the addresses of the file's logical blocks, holes as zero |
| FsckBlocks.OwnsPassesBlockCheck | internal/fs/fs.go:628-661 | filesystem-wide ownership passes the block check |
| FsckDisk.ReadForCheck | internal/fs/fs.go:580-640 | what the checker reads of an allocated inode is its mode, its live entries and its blocks on the disk |
| FsckDisk.TypeBitsAgree | internal/fs/fs.go:593-597 | the checker's type bits say directory, regular file and symbolic link exactly when the records do |
| FsckDisk.SoundPassesIff | internal/fs/fs.go:528-708 | on the bytes of every sound disk the name and block checks find nothing, the type check exactly if every file is of a known kind |
| FsckDisk.SoundIsClean | internal/fs/fs.go:510-708 | the whole check on a sound disk is clean exactly when the superblock's constants are right and every file is of a known kind |
| FsckDisk.CrashesPassCheck | internal/fs/fs.go:528-708 | after any run of operations with aborts, crashes and interrupted recoveries the name and block checks find nothing |
| PathResolution.ComponentsConcat | internal/ops/namei.go:160-167 | the components of a target joined with the rest are those of both |
| PathResolution.ComponentsJoin | internal/ops/namei.go:122-167 | splitting undoes joining, as far as components go |
| PathResolution.Resolve | internal/ops/namei.go:85-189 | ends on every graph; the result is the verdict of the unlimited walk |
| PathResolution.VerdictExact | internal/ops/namei.go:85-189 | another result is what the unlimited walk ends with after at most 40 links; the loop error comes exactly when it follows a 41st |
| PathResolution.FollowsWalkIff | internal/ops/namei.go:160-176 | following a link goes on where the walk goes on exactly when the target is not empty, nothing comes after it, or the directory is the root |
| PathNames.ChainResolves | internal/ops/namei.go:85-189 | along a chain of entries without links the result is the last inode; otherwise the first step that fails decides: not found, not a directory, or unreadable |
| PathNames.LinkResolves | internal/ops/namei.go:149-179 | at the first link the result is that of resolving its target and the rest of the path from the directory that holds it, with one link less to go |
| PathNames.SomeChain | internal/ops/namei.go:120-189 | on every graph every path runs along such a chain to its end or up to a link |
| PathNames.NamesResolve | internal/ops/namei.go:85-189 | in a name space an absolute or relative path of names resolves to the inode the names lead to, and is found exactly when they lead somewhere |

## Left out

- `api/`, `cmd/`, `web/`, `deploy/`, `perf/`, `internal/shell`, `internal/vfs`: servers, user interface and command dispatch over the operations modelled here.
- Rename, lstat through an intermediate link and the inode cache: their behaviour in the source does not keep the invariants stated here; inode access goes to the inode table.
- Permission bits, sticky directories, owners, timestamps, UUIDs, metrics, event hooks, the transaction history ring and extended attributes: single-branch checks and bookkeeping; the root credential is taken throughout.
- Goroutines: every theorem is about sequential execution; the cache drops its lock during device writes and the second cache lookup after a read is not modelled.
- CRC32 is a parameter; a torn journal write is covered when no data block looks like a descriptor, no step of the checksum collides on the torn and the logged blocks, and no later descriptor block read on its own makes a whole chain, which JournalLog.AscendingChainsBreak shows of every transaction RunMutation builds.
- Journaling.Journal.constructor: remounting restarts the head over an uncleared journal; the crash theorems over runs start from a zeroed one and go to the first wrap, and JournalLimits.RestIsSafeIff says exactly what a crash at rest keeps otherwise.
- Mutation.Filesystem.RunMutation: takes the closure and the cache flushes as lists of block writes and the closure's outcome as a parameter. The allocator and the caches, which rollback reloads from the device, are not part of that object.
- SimulateCrash, Checkpoint and the superblock codec: they compose operations modelled here.
- Allocation, Extents, Truncation, Release, CachedFiles, Directory, DiskOps: stated for a device without an injected fault; a fault there makes the closure fail, and RunMutation takes it back.
- CachedFiles.Read: offsets are not negative; the access time is left out.
- CachedFiles.Write: the byte-level statement is for writes that end below 16 TiB, where the 32-bit block number is exact, and for a cache that holds no free block.
- FileTruncation.Truncate: the byte-level statement is for sizes the block tree can address.
- Block counts in 512-byte units are kept in the inode object but not related to the tree, since freeing never lowers them in the source.
- Inline symbolic links, whose text lies in the pointer fields, are outside the ownership model; a link target is a value in PathResolution, and reading it from the inode or its block is not modelled.
- Directory.AddEntry: needs that the directory has no block mapped at or beyond its size, which it keeps; record lengths are not reported by iteration.
- Namespaces: directories are name maps and inodes are kinds with link counts, with the outcome of space allocation as a parameter; DiskOps decides it on the bytes. A failed DiskOps call may leave taken inodes and blocks behind, which RunMutation takes back.
- DiskOps: works on the device as the directory and inode code does; write-back caching is modelled in CachedFiles. Symbolic links are nodes without their target, and paths are resolved by PathResolution.
- DiskFormat.Format: the boot block, the superblock and the default directory tree that formatting seeds are left out; the journal is zeroed by Journaling.Journal.Init.
- DiskCrash.CrashesKeepNames: takes each operation as the image it leaves, with the step DiskOps proves of it and the transaction RunMutation builds from it; calls that change nothing or fail commit nothing and do not appear.
- Fsck.FsckFull: takes the inode table, the listings and the block lists as already read, marks a listing whose reading failed, and returns only whether the disk is clean, not the texts of the issues.
- PathResolution.Resolve: the comparison is for worlds without empty link targets, which creation refuses; splitting off the last component of a path is left out.
