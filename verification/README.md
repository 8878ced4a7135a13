# Verified model of handcrafted-os

A Dafny model of four parts of the system, each proved against a simple reference.

- **Simple filesystem** (`nursery/simple_filesystem/src`). A write-back block cache with hash chains and an
  LRU list refines an array of blocks. A bitmap refines a set of used blocks. Range arrays, in the inode and
  in one indirect block, refine a list of blocks. Files refine byte strings, and directories refine maps from
  names to numbers. One invariant, that every block has one owner at most and every owned block is marked
  used, is established when a volume is made and kept by every operation; it is what keeps files apart.
  Inodes have copies in the superblock and in a file of inodes. After a sync, a new mount reads the layout, the
  bitmap and the inodes from the device; the inodes are as they were exactly when every changed one was marked.
- **Kernel heap** (`src/kernel/memory/kheap.c`, and the same algorithm in `src/libc/stdlib/heap.c`). First fit
  with splitting and joining over linked headers. The blocks tile the region, and their shape follows from the
  live allocations alone.
- **Paging** (`src/kernel/memory/virtmem.c`, `physmem.c`). Two-level translation, section 5.2 of the Intel
  80386 Programmer's Reference Manual, with tables that live in the memory they describe, refines a partial
  map of pages. From the boot marks on, any number of programs live at once, one after the other or
  interleaved. Their directories share nothing, what they leave behind is exact, and so is when memory runs out.
- **Processes and semaphores** (`src/kernel/multitask`). Every process is in the one place of its state,
  a process that stops always has a successor, the processes of a level take turns, and semaphores count, block
  and hand over in order of arrival. Every run is the fold of one step function.

## How it is modelled

Objects that the source updates in place are classes with `modifies` clauses; arrays, buffers and loops are
kept. Pointers to slots, blocks, headers and processes are numbers, with `NIL` or `NULL` for none. Ghost fields
hold what a structure stands for (the seen blocks of the cache, the access history, the blocks of the heap, the
items of a list) and the validity predicates tie them to the real fields.

- A device of sectors, the clock and the memory map of the boot loader are parameters. `CACHE_SLOTS` and the
  size of a heap header are parameters too.
- Errors of the source are values of `Status`. Where the kernel panics, a method answers that it failed.
- Numbers are unbounded. Where 32 bits matter they are written out: the size test of the heap, the page
  counters, the rounding of addresses, stored numbers, and the bounds that operations ask of their callers.
- Memory words of page tables are numbers below 2^32; the flag bits of an entry are its value modulo 4096.
  A word of the page bitmap is its 32 bits.
- A section between the outermost lock and unlock of the scheduler is one step, with the pending switch at its
  end. The model starts with the idle process only running; the source also puts it on a ready list, which
  lasts until the first switch away from it (`AppendedAgain` says what that switch does to the list).

## What the code does not keep

Each of these has a statement of exactly when the code does keep the property. Where an input on which it does
not is not plain from that, one is given, after the semicolon.

- A load that fails leaves its slot marked used but unlisted. The cache serves every block while a slot is left
  and none after that (`ServesEveryBlock`, `CacheRuns.Run`); `WearOut` uses the slots up.
- The automatic block size is zero when sectors are larger than the suited size, and is then divided by
  (`AutoBlockSizeUsable`, `AutoBlockSizeCanBeZero`).
- A failed attempt to make a volume leaves the device alone, unless it has one block and the cache one slot
  (`Mkfs`, `WriteVolume`; `SuperblockSpilled`).
- Names of 60 bytes and more are cut after they were looked up whole (`UniqueAppend`, `Enter`, `RenameInside`;
  `LongNamesCollide`).
- A failed expansion leaves a block used but unowned exactly when the file has no indirect block and has used up
  its ranges, the last one cannot grow, and one block is free (`InodeExpandBlocks`, `ExpandThenTruncate`; `ExpansionThatLeaks`).
- Among the operations modelled, an inode that has changed is marked dirty, except in three cases: the last entry
  of a directory was deleted, the last record of the file of inodes was deleted, or a write filled the last block
  of a file and could not get another one (`DirDeleteEntry`, `InodeDbDelete`, `InodeWriteFileBytes`, `Perform`;
  `DeletionNotMarked`, `RecordDeletionNotMarked`, `WriteNotMarked`). A sync then leaves its old copy on the
  device (`SyncAll`; `DeletionUndone`).
- The size test of `kmalloc` wraps around for sizes within a header of 2^32 (`SuitsIsSound`, `NoRoomNearLimit`;
  `SizeNearLimit`).
- The bit loop of the page search goes one bit too far (`ScanWord`, `WhenSearchable`; `UnsearchablePage`).
- The pages freed for a stretch of memory at boot may reach beyond it (`MarkedInside`; `MarksBeyond`).
- Destroying a directory spares the kernel range with its end included, while that page is not marked at boot. The
  range always ends on a page boundary, so the first program to ask for memory keeps that page if the first
  megabyte has room for the directories; all later ones give everything back (`KernelRangeMarked`, `EndLifetime`,
  `Boot`, `EndKeptOnly`; `ProgramKeepsEnd`). A page given for a virtual page that was mapped is lost
  (`NothingLost`, `NothingKept`).
- A process that never slept, behind a sleeper in the blocked list, makes the sweep forget when the sleeper is due
  (`SweepComesBack`, `SleepsOn`; `SleeperForgotten`, `ForgetsSleeper`).
- Unblocking a process that waits for a semaphore from outside leaves a wrong count of waiters, and a release by a
  process that does not hold the semaphore a wrong count of holders (`UnblockSafeIff`,
  `UnblocksAny`, `ReleaseSemaphore`; `UnblocksWaiter`, `ReleasesUnheld`).

## Files

| files | part |
|---|---|
| `Common`, `SectorDevice`, `RawBlocks`, `Recency`, `SlotLists`, `BlockCache`, `CacheRuns` | block cache |
| `Bitmap`, `Ranges`, `RangeCodec` | bitmap and ranges |
| `FileLayout`, `FileBytes`, `FileSteps`, `Files`, `FileRuns` | files and ownership |
| `FailingInputs` | small volumes on which the operations do not keep what one would expect |
| `DirEntries`, `Directories` | directories |
| `Superblock`, `Volumes`, `StoredInodes`, `InodeStore`, `InodeRecords`, `Persistence` | making, syncing and mounting |
| `HeapShapes`, `KernelHeap` | kernel heap |
| `PhysMem`, `PageTables`, `PageCounts`, `Paging`, `AddressSpaces`, `DirectoryRuns` | physical pages and paging |
| `ProcLists`, `Blocking`, `Processes`, `Semaphores`, `SchedulerRuns` | processes and semaphores |

## Model

| member | source | states |
|---|---|---|
| RawBlocks.RawStore.LoadBlockRaw | nursery/simple_filesystem/src/block_cache.inc.c:48-61 | a block is read sector by sector: the result is that block of the device, or an error and nothing else when its last sector is beyond the device |
| RawBlocks.RawStore.SaveBlockRaw | nursery/simple_filesystem/src/block_cache.inc.c:63-76 | writing a block changes that block of the device and no other; a block beyond the device is an error and changes no whole block |
| RawBlocks.LaidUnique | nursery/simple_filesystem/src/block_cache.inc.c:48-76 | the sectors of a device determine its blocks |
| SlotLists.LruList.Promote | nursery/simple_filesystem/src/block_cache.inc.c:82-100 | moving a slot to the newest end: a well-formed doubly linked list with that slot in front and the others in their order |
| SlotLists.GapClosed | nursery/simple_filesystem/src/block_cache.inc.c:82-100 | taking a slot out of the middle or the end of the doubly linked list leaves a well-formed list of the others |
| SlotLists.ChainCut | nursery/simple_filesystem/src/block_cache.inc.c:126-140 | taking a slot out of a hash chain leaves the chain of the others |
| SlotLists.Rehashed | nursery/simple_filesystem/src/block_cache.inc.c:179-182 | putting a slot in front of the chain of its block keeps the chains a partition of the listed slots by block number modulo the slot count |
| SlotLists.HashTable.Find | nursery/simple_filesystem/src/block_cache.inc.c:148-161 | finds the slot of a block exactly when the block is cached |
| BlockCaches.BlockCache.constructor | nursery/simple_filesystem/src/block_cache.inc.c:34-46 | a new cache is empty, well formed, and sees the device as it is |
| BlockCaches.BlockCache.EvictLeastRecentlyUsed | nursery/simple_filesystem/src/block_cache.inc.c:102-146 | eviction drops the oldest slot and changes no block as seen through the cache; on the device exactly that block changes, to what the cache has of it |
| BlockCaches.BlockCache.FindUnusedSlot | nursery/simple_filesystem/src/block_cache.inc.c:187-200 | finds a slot that is not in use, or none when all are |
| BlockCaches.BlockCache.AddEntryToLists | nursery/simple_filesystem/src/block_cache.inc.c:163-185 | a loaded slot becomes the newest of the list and the index gains its block |
| BlockCaches.BlockCache.Io | nursery/simple_filesystem/src/block_cache.inc.c:202-250 | a read, write or wipe acts on the seen blocks like on a plain array; blocks out of range and pieces past the end of the block fail; the access history grows by the block; the device changes only when there is no slot left, and then by the evicted block alone; exactly that block leaves the cache, and only a write or a wipe makes its block one to be saved |
| BlockCaches.BlockCache.Flush | nursery/simple_filesystem/src/block_cache.inc.c:264-278 | after a flush the device holds every block as it was seen, and no block is left to be saved |
| BlockCaches.BlockCache.ServesEveryBlock | nursery/simple_filesystem/src/block_cache.inc.c:205-227 | every block can be served while fewer slots are lost to failed loads than there are slots, and no block can when all are lost |
| BlockCaches.BlockCache.MostRecentAreResident | nursery/simple_filesystem/src/block_cache.inc.c:82-146 | with no slot lost, the cached blocks are the most recently accessed distinct blocks of the whole history, as many as there are slots |
| BlockCaches.BlockCache.OldestIsLeastRecent | nursery/simple_filesystem/src/block_cache.inc.c:102-112 | the slot that eviction picks holds the block whose last access is earlier than that of any other cached block |
| Recency.MruByLastAccess | nursery/simple_filesystem/src/block_cache.inc.c:82-100 | the list that moving to the front produces is ordered by last access, over every history |
| CacheRuns.Run | nursery/simple_filesystem/src/block_cache.inc.c:202-278 | any run of reads, writes, wipes and flushes answers like a plain array of blocks, whatever is evicted, as long as each request finds a slot in service; each request outside the device takes one out of service, and the run leaves a cache that serves every block or none |
| CacheRuns.WearOut | nursery/simple_filesystem/src/block_cache.inc.c:202-227 | reading outside the device as often as there are slots left gets an error each time and changes no block, and after it no block can be served |
| Bitmaps.InitializeBlockBitmap | nursery/simple_filesystem/src/bitmap.inc.c:17-35 | a new bitmap has no used block and its hint at block 0; null exactly when it has fewer bits than there are blocks |
| Bitmaps.BlockBitmap.MarkUsed | nursery/simple_filesystem/src/bitmap.inc.c:63-66 | adds a block in range to the used blocks and changes nothing else |
| Bitmaps.BlockBitmap.MarkFree | nursery/simple_filesystem/src/bitmap.inc.c:68-71 | removes a block from the used blocks and changes nothing else |
| Bitmaps.BlockBitmap.IsUsed | nursery/simple_filesystem/src/bitmap.inc.c:53-56 | true for the used blocks only |
| Bitmaps.BlockBitmap.IsFree | nursery/simple_filesystem/src/bitmap.inc.c:58-61 | true for the blocks in range that are not used |
| Bitmaps.BlockBitmap.FindFreeBlock | nursery/simple_filesystem/src/bitmap.inc.c:73-104 | from any hint, finds the first free block at or after the byte of the hint, going round the end, and fails exactly when every block is used; the hint moves to the next block |
| Bitmaps.Rewritten | nursery/simple_filesystem/src/bitmap.inc.c:63-71 | changing one bit of one byte changes the membership of one block |
| Bitmaps.BlockBitmap.Load | nursery/simple_filesystem/src/bitmap.inc.c:37-43 | fills the buffer with the stored bitmap, through the cache, changing no block; an error exactly when the device does not have all blocks of the bitmap |
| Bitmaps.BlockBitmap.Save | nursery/simple_filesystem/src/bitmap.inc.c:45-51 | stores the buffer in the blocks of the bitmap and changes no other block; an error exactly when the device does not have them all |
| Ranges.RangeArrayExpand | nursery/simple_filesystem/src/ranges.inc.c:15-66 | appends one block that was free to the flat list of blocks: the one behind the last range, which is lengthened, whenever it is free and the range not full, and otherwise the first free block from the hint on, in a new range; ranges and hint are exact; overflow and exhaustion change nothing |
| Ranges.AppendedFlat | nursery/simple_filesystem/src/ranges.inc.c:39-60 | what gaining a block does to the flat list and to the number of ranges in use |
| Ranges.GrowRange | nursery/simple_filesystem/src/ranges.inc.c:39-48 | lengthening the last used range by the block behind it appends that block to the flat list |
| Ranges.OpenRange | nursery/simple_filesystem/src/ranges.inc.c:27-60 | opening an empty range appends its block to the flat list |
| Ranges.RangeArrayResolveIndex | nursery/simple_filesystem/src/ranges.inc.c:68-90 | looks an index up in the flat list, and otherwise leaves the index less the length of the list |
| Ranges.RangeArrayReleaseBlocks | nursery/simple_filesystem/src/ranges.inc.c:92-104 | frees exactly the blocks of the flat list and leaves no range behind |
| RangeCodec.RangeRoundTrip | nursery/simple_filesystem/src/internal.h:55-58 | a range reads back from its six stored bytes |
| RangeCodec.RangeLayout | nursery/simple_filesystem/src/internal.h:55-58 | the first block of a range is in its first four bytes and the count in the next two, the lowest byte first |
| RangeCodec.EncodeLayout | nursery/simple_filesystem/src/range_blocks.inc.c:18-60 | range i of a block of ranges is at byte 6 i |
| RangeCodec.DecodeEncode | nursery/simple_filesystem/src/range_blocks.inc.c:18-60 | a block of ranges reads back from its stored form, whatever bytes follow the last whole range |
| Files.Mounted.RangeBlockInitialize | nursery/simple_filesystem/src/range_blocks.inc.c:18-39 | a wiped block becomes a block of ranges with one data block, the first free one from the hint on; fails exactly when no block is free |
| Files.Mounted.RangeBlockExpand | nursery/simple_filesystem/src/range_blocks.inc.c:41-60 | adds one free block at the end of a block of ranges, which alone changes, and is exact about which block and which range; overflows exactly when the last range cannot grow and all are used, and fails exactly when a block is needed and none is free |
| Files.Mounted.RangeBlockResolveIndirectIndex | nursery/simple_filesystem/src/range_blocks.inc.c:62-74 | looks an index up in the flat list of a block of ranges |
| Files.Mounted.InodeResolveIndex | nursery/simple_filesystem/src/inode_ops.inc.c:165-189 | looks an index up in the list of the blocks of a file, its own ranges first and then those of the indirect block |
| Files.Mounted.InodeExpandBlocks | nursery/simple_filesystem/src/inode_ops.inc.c:192-257 | appends one zeroed block that was free to a file, the one behind its last range if that is free, with an indirect block if the ranges are used up, and marks the inode; ranges, blocks taken and hint are exact, and used blocks that are not its own keep their bytes; ownership, all other files and the bytes of this one stay; the status is exact, and a failed expansion leaves the used blocks as they were except when an indirect block was needed and one block was free, which then stays used |
| FileRuns.ExpandIntoRun | nursery/simple_filesystem/src/inode_ops.inc.c:192-257 | any number of expansions of an empty file into a run of free blocks at the hint makes one range of exactly that run |
| FileSteps.SpaceExpands | nursery/simple_filesystem/src/inode_ops.inc.c:192-257 | while a file has space, counted from its ranges and the free blocks, an expansion succeeds |
| FileSteps.SpaceLeft | nursery/simple_filesystem/src/inode_ops.inc.c:192-257 | a block gained takes one off that space at most |
| FileSteps.ExpandStatuses | nursery/simple_filesystem/src/inode_ops.inc.c:192-257 | an expansion that runs out of blocks leaves none free |
| FailingInputs.ExpansionThatLeaks | nursery/simple_filesystem/src/inode_ops.inc.c:233-248 | six ranges that cannot grow and one free block: the expansion fails, the file is as it was, and that block is used but owned by nobody |
| Files.Mounted.InodeReadFileBytes | nursery/simple_filesystem/src/inode_ops.inc.c:4-44 | returns exactly the bytes from the position on, up to the length or the end of the file; at or beyond the end it reports end of file |
| Files.Mounted.InodeWriteFileBytes | nursery/simple_filesystem/src/inode_ops.inc.c:46-111 | overwrites the bytes from the position on, clamped to the size, growing the file only as needed; no other file changes; the blocks newly used are exactly those the file gains, and used blocks that are not its own keep their bytes; it fails only at a moment when the file is full and an expansion fails, with the status of that expansion, and nothing but a block that leaks has changed since; it cannot fail when the blocks of the file and its space hold the bytes, and when one block more will do it fails exactly when that cannot be had; the inode is marked exactly when something was written, except for a write that fills the last block of the file and cannot get the first block behind it |
| FileSteps.NeverStopped | nursery/simple_filesystem/src/inode_ops.inc.c:61-104 | a write that the blocks of the file and its space hold does not stop |
| FailingInputs.WriteNotMarked | nursery/simple_filesystem/src/inode_ops.inc.c:62-111 | on a full volume a write past the last block grows the file from 1 byte to 512, fails, and leaves the inode unmarked |
| Files.Mounted.InodeTruncateFileBytes | nursery/simple_filesystem/src/inode_ops.inc.c:135-162 | frees exactly the blocks the file owned, the indirect one included, and leaves an empty file without ranges |
| FileLayout.OwnershipKept | nursery/simple_filesystem/src/inode_ops.inc.c:192-257 | a step that touches only blocks which were its own or free keeps every block with one owner at most and every owned block used, and leaves the blocks and bytes of every other file |
| FileSteps.ExtendedOwnership | nursery/simple_filesystem/src/inode_ops.inc.c:192-257 | a file that gains free blocks keeps ownership |
| FileSteps.TookExpanding | nursery/simple_filesystem/src/inode_ops.inc.c:192-257 | an expansion takes exactly the blocks that the file gains, and leaves the bytes of all used blocks but its own |
| FileSteps.ChunkContent | nursery/simple_filesystem/src/inode_ops.inc.c:82-108 | writing a piece of a block overwrites that piece of the file and no other file |
| FileSteps.Truncated | nursery/simple_filesystem/src/inode_ops.inc.c:135-162 | freeing the blocks of a file keeps ownership |
| FileBytes.ChunkWritten | nursery/simple_filesystem/src/inode_ops.inc.c:72-88 | in the bytes of a list of distinct blocks, rewriting a piece of one block rewrites that piece only |
| FileBytes.OverwriteTwice | nursery/simple_filesystem/src/inode_ops.inc.c:61-104 | writing in chunks is writing at once |
| FileSteps.LocateNext | nursery/simple_filesystem/src/inode_ops.inc.c:90-99 | block index and offset stay the quotient and remainder of the file position across block boundaries |
| FileRuns.ExpandThenTruncate | nursery/simple_filesystem/src/inode_ops.inc.c:135-257 | any number of expansions of an empty file, up to one that fails, and then truncation touches no other file and restores the used blocks exactly unless that expansion needed an indirect block when one block was free; then that block stays used |
| FileRuns.Perform | nursery/simple_filesystem/src/inode_ops.inc.c:4-257 | one read, write, expansion or truncation acts on the files as on independent byte strings; a write fails only when an expansion does, and not when the file has room; an inode that was clean and changed is marked exactly when the write did not get stuck behind the blocks of the file |
| FileRuns.Run | nursery/simple_filesystem/src/inode_ops.inc.c:4-162 | any run of reads, writes, expansions and truncations on any files leads through moments at each of which the step is answered as the single operation promises, its status included, and keeps the ownership of blocks; every inode that changed is marked, but for files to which a write failed |
| FileRuns.ExplainedBytes | nursery/simple_filesystem/src/inode_ops.inc.c:4-162 | at each moment of a run the files hold what the operations so far make of independent byte strings |
| Superblocks.AutoBlockSizeUsable | nursery/simple_filesystem/src/superblock.inc.c:4-31 | the chosen block size is a whole number of sectors, and is not zero exactly when a sector is no larger than the size suited to the capacity |
| Superblocks.SuitedSizes | nursery/simple_filesystem/src/superblock.inc.c:4-31 | the size suited to each capacity: 512 bytes to 2 MB, 1 KB to 8 MB, 2 KB to 32 MB, 4 KB beyond |
| Superblocks.OneBlockBitmap | nursery/simple_filesystem/src/superblock.inc.c:4-65 | with the suited size, the bitmap of a device of up to 32 MB takes one block |
| Superblocks.AutoBlockSizeCanBeZero | nursery/simple_filesystem/src/superblock.inc.c:25-26 | with sectors of 1024 bytes on a small device the chosen block size is zero |
| Superblocks.LayoutFits | nursery/simple_filesystem/src/superblock.inc.c:54-65 | the layout has every whole block of the device and a bitmap with a bit for each, and superblock and bitmap fit as soon as there are two blocks |
| Volumes.Mkfs | nursery/simple_filesystem/src/simple_filesystem.c:29-74 | makes a volume exactly when the block size can be had, holds the superblock and leaves two blocks; then the used blocks are block 0 and those of the bitmap, the files are empty, the ownership of blocks holds and everything is on the device; a failed attempt leaves the device as it was, except that on a device of one block a cache with one slot has written the superblock |
| Volumes.WriteVolume | nursery/simple_filesystem/src/simple_filesystem.c:60-73 | the superblock, the bitmap and the flush through a new cache: status and effect on the device for every number of blocks and slots |
| FailingInputs.SuperblockSpilled | nursery/simple_filesystem/src/simple_filesystem.c:60-73 | on a device of one block, with one slot, no volume is made and the superblock is on the device |
| Volumes.Sync | nursery/simple_filesystem/src/simple_filesystem.c:127-154 | after the superblock and the bitmap are written and the cache is flushed, the device holds them and every block as seen, and no file has changed |
| Volumes.SameBitmap | nursery/simple_filesystem/src/bitmap.inc.c:37-51 | two bitmaps stored in the same blocks are the same |
| Volumes.Remount | nursery/simple_filesystem/src/simple_filesystem.c:76-125 | a new cache of any size and a new bitmap over the device of a synced volume see the superblock, every block and every used bit as before, even when the bitmap has more blocks than the cache has slots |
| StoredInodes.InodeRoundTrip | nursery/simple_filesystem/src/internal.h:64-79 | an inode reads back from its 64 stored bytes |
| StoredInodes.InodeLayout | nursery/simple_filesystem/src/internal.h:64-79 | which bytes of a stored inode hold its size, its blocks, each of its ranges and the two indirect blocks |
| StoredInodes.SuperblockLayout | nursery/simple_filesystem/src/superblock.inc.c:33-80 | which bytes of the superblock hold the sizes and the layout of the volume |
| StoredInodes.InodePut | nursery/simple_filesystem/src/inode_db.inc.c:52-59 | storing one of the two inodes of the superblock leaves the other and the layout |
| StoredInodes.NewSuperblockReads | nursery/simple_filesystem/src/superblock.inc.c:33-80 | the layout, the magic number and two empty inodes read back from the superblock of a new volume |
| InodeStore.OpenVolume.InodeDbUpdate | nursery/simple_filesystem/src/inode_db.inc.c:52-65 | stores one inode, in the superblock or in its record of the file of inodes: its copy is then right, the other copies, all inodes and what all other files hold stay; so do the other records, the rest of the superblock and the used blocks; it cannot fail |
| InodeStore.OpenVolume.IcacheFlushAll | nursery/simple_filesystem/src/inode_cache.inc.c:69-82 | the copies of the inodes marked dirty are brought up to date, the others stay, and no inode and no other file changes |
| InodeStore.FlushedRight | nursery/simple_filesystem/src/inode_cache.inc.c:69-82 | after a flush all copies are right exactly when those of the inodes not marked dirty were |
| InodeStore.OpenVolume.SyncAll | nursery/simple_filesystem/src/simple_filesystem.c:127-154 | after a sync the device holds the superblock, the bitmap and every block; all copies of inodes are right exactly when every inode that had changed was marked; records of other inodes, the rest of the superblock and all other used blocks are as before |
| InodeRecords.InodeDbAppend | nursery/simple_filesystem/src/inode_db.inc.c:37-50 | a new record holds the inode, behind all others, and no other record changes; it fails exactly when it needs a block that cannot be had, and then every record is as before; no block is newly used but those the file gains |
| InodeRecords.InodeDbDelete | nursery/simple_filesystem/src/inode_db.inc.c:67-84 | the deleted record reads as blank, every other one as before; the last one is cut off, which changes the inode of the file and does not mark it; the two inodes of the superblock are refused; beyond the last record all records stay |
| InodeRecords.AppendThenDelete | nursery/simple_filesystem/src/inode_db.inc.c:37-84 | deleting the record just added brings the bytes of the file back |
| Persistence.ReadSuperblock | nursery/simple_filesystem/src/simple_filesystem.c:82-98 | the superblock is read from the first sector, and refused without the magic number or with other sizes |
| Persistence.NewVolume | nursery/simple_filesystem/src/simple_filesystem.c:29-74 | a new volume, with its superblock, is one that all of this applies to |
| Persistence.Open | nursery/simple_filesystem/src/simple_filesystem.c:76-125 | mounting the device of a synced volume, knowing only the records of its inodes, brings back the layout, the used blocks, every block and every inode |
| Persistence.SyncThenOpen | nursery/simple_filesystem/src/simple_filesystem.c:76-154 | when every inode that changed is marked, a sync and a new mount bring back all inodes and all files |
| Persistence.RunThenRemount | nursery/simple_filesystem/src/simple_filesystem.c:76-154 | any run of file operations, answered as the single operations promise, a sync and a new mount: unless a write failed, the files hold what the operations made of independent byte strings |
| FailingInputs.DeletionUndone | nursery/simple_filesystem/src/simple_filesystem.c:127-154 | the only entry of the root directory is deleted and the volume synced: the copy of the inode on the device still has the entry |
| FailingInputs.RecordDeletionNotMarked | nursery/simple_filesystem/src/inode_db.inc.c:72-75 | deleting the only record of the file of inodes changes its inode and leaves it unmarked |
| DirEntries.EntryRoundTrip | nursery/simple_filesystem/src/dirs.inc.c:34-36 | a stored entry reads back with its name cut to 59 bytes |
| DirEntries.EntryLayout | nursery/simple_filesystem/src/internal.h:87-90 | a stored entry has the name, cut to 59 bytes and filled up with zeros, in its first 60 bytes and the number in the last four |
| DirEntries.EntryReplaced | nursery/simple_filesystem/src/dirs.inc.c:31-42 | writing over a record replaces that entry only |
| DirEntries.EntryAppended | nursery/simple_filesystem/src/dirs.inc.c:44-56 | writing behind the last whole record adds an entry |
| DirEntries.NamesReplace | nursery/simple_filesystem/src/dirs.inc.c:31-42 | replacing an entry keeps the names unique exactly when no other entry has the new one; then its name leaves the map of the directory and the new one enters it |
| DirEntries.NamesCut | nursery/simple_filesystem/src/dirs.inc.c:76-80 | cutting the last entry off removes its name from the map |
| DirEntries.UniqueAppend | nursery/simple_filesystem/src/dirs.inc.c:44-56 | adding an entry keeps the names unique exactly when its name, as stored, is new |
| DirEntries.ShortNameStaysNew | nursery/simple_filesystem/src/dirs.inc.c:44-72 | a name of up to 59 bytes that was found missing is still new when it is stored |
| DirEntries.LongNamesCollide | nursery/simple_filesystem/src/dirs.inc.c:44-72 | two names of 60 bytes that differ in the last one: the second is found missing and its entry doubles the first |
| Directories.InodeReadFileRec | nursery/simple_filesystem/src/inode_ops.inc.c:113-122 | reads a record, or reports the end of the file or a record that is cut short |
| Directories.InodeWriteFileRec | nursery/simple_filesystem/src/inode_ops.inc.c:124-133 | writes a record at its place or at the end of the file, and ends as a write of its bytes does, blocks taken included; inside the file it cannot fail and leaves the inode as it is but for the mark |
| Directories.DirFindEntryByName | nursery/simple_filesystem/src/dirs.inc.c:11-29 | finds the first entry with a name, exactly when there is one |
| Directories.DirEnsureEntryIsMissing | nursery/simple_filesystem/src/dirs.inc.c:58-72 | reports an entry with the name exactly when there is one |
| Directories.DirUpdateEntry | nursery/simple_filesystem/src/dirs.inc.c:31-42 | replaces one entry, always succeeds, and touches no other file |
| Directories.DirAppendEntry | nursery/simple_filesystem/src/dirs.inc.c:44-56 | adds an entry at the end; it fails exactly when the entry needs a block that cannot be had, and then the entries stay as they were; no block is newly used but those the directory gains |
| Directories.DirDeleteEntry | nursery/simple_filesystem/src/dirs.inc.c:74-83 | cuts the last entry off, which changes the size in the inode without marking it, or blanks any other, which marks it; always succeeds, and takes no block |
| FailingInputs.DeletionNotMarked | nursery/simple_filesystem/src/dirs.inc.c:74-83 | deleting the only entry changes the inode and leaves it unmarked |
| Directories.Enter | nursery/simple_filesystem/src/simple_filesystem.c:420-432 | entering a new name: an error exactly when the map has it or its entry needs a block that cannot be had, and otherwise one entry is added and the map gains the stored name; the names stay unique exactly when the stored name does not clash |
| Directories.Remove | nursery/simple_filesystem/src/simple_filesystem.c:483-495 | removing a name takes exactly that key out of the map, and tells its number; one entry is cut off or blanked |
| Directories.RenameInside | nursery/simple_filesystem/src/simple_filesystem.c:520-546 | renaming inside a directory replaces one entry in its place and moves one key of the map; the names stay unique exactly when the new name is short enough or, as stored, is not that of another entry |
| Directories.RenameAcross | nursery/simple_filesystem/src/simple_filesystem.c:520-554 | moving a name to another directory takes it out of one map and puts it into the other, or changes neither; it fails exactly when the name is missing, the new one is there, or its entry needs a block that cannot be had |
| KernelHeap.Heap.constructor | src/kernel/memory/kheap.c:47-77 | a new heap is one free block and the used block at the end |
| KernelHeap.Heap.FindFirst | src/kernel/memory/kheap.c:82-93 | the walk over the linked headers finds the first free block in address order that passes the 32-bit test, null exactly when there is none |
| KernelHeap.Heap.Kmalloc | src/kernel/memory/kheap.c:80-141 | allocates in the lowest block that is free and of the same size or larger by more than a header, null exactly when there is none, and splits off the rest; the live allocations gain that payload; the blocks tile the region, links agree with address order, no two free blocks are neighbours and the free count is the sum of the free blocks |
| KernelHeap.FirstIsLowest | src/kernel/memory/kheap.c:82-93 | the first block that passes the test has the lowest address of all that fit |
| KernelHeap.Heap.Kfree | src/kernel/memory/kheap.c:169-221 | the live allocations lose that payload and the heap keeps the same shape properties, free neighbours joined |
| KernelHeap.SuitsIsSound | src/kernel/memory/kheap.c:87-88 | the 32-bit test of the search finds only blocks with room exactly when size plus header fits in 32 bits |
| KernelHeap.Heap.NoRoomNearLimit | src/kernel/memory/kheap.c:87-88 | for a size within a header of 2^32 no block has room, and the test passes every block larger than what is left of the sum by wrapping around |
| KernelHeap.SizeNearLimit | src/kernel/memory/kheap.c:87-88 | on a heap of one megabyte a request of 2^32 - 1 bytes finds the only free block |
| KernelHeap.SplitLinked | src/kernel/memory/kheap.c:106-128 | splitting a block keeps the links of all headers in address order |
| KernelHeap.MergedLinked | src/kernel/memory/kheap.c:207-220 | joining two blocks keeps the links of all headers in address order |
| KernelHeap.Heap.LivePayloadsApart | src/kernel/memory/kheap.c:80-221 | live payloads lie in the region and overlap neither each other nor any header |
| HeapShapes.FreedShape | src/kernel/memory/kheap.c:169-221 | giving a block back and joining it on both sides leaves no two free neighbours |
| HeapShapes.Canonical | src/kernel/memory/kheap.c:80-221 | the blocks of a heap follow from its live allocations alone, whatever happened before |
| KernelHeap.Heap.AllocateAndFree | src/kernel/memory/kheap.c:80-221 | giving back what was just allocated restores the blocks and the free count |
| KernelHeap.Heap.FreeAll | src/kernel/memory/kheap.c:50-70 | giving back all live payloads in any order brings back the one free block and the free count of the start |
| KernelHeap.Heap.Run | src/kernel/memory/kheap.c:80-221 | any run of allocations and frees of live payloads keeps the heap in shape; every answer is that of the lowest block that fits at that point of the run, null exactly when no free block does, and no answer is a payload that is live; the live allocations are those the answers give |
| PhysicalPages.RoundUp4k | src/kernel/memory/physmem.c:123-125 | rounds up to a page boundary, and wraps to zero for the last page but its first byte |
| PhysicalPages.ScanWord | src/kernel/memory/physmem.c:145-150 | the search of a word reaches the missing bit 32 exactly when all bits from its start on are used |
| PhysicalPages.PageBitmap.WhenSearchable | src/kernel/memory/physmem.c:139-154 | the search from a page keeps to the bits of the words exactly when the word of that page is full or has a free page at or behind it; always so for the first page of a word |
| PhysicalPages.UnsearchablePage | src/kernel/memory/physmem.c:145-150 | with page 32 free and the other pages used the search from page 63 does look at bit 32 |
| PhysicalPages.PageBitmap.FindFirstFreePhysicalPageNo | src/kernel/memory/physmem.c:139-154 | finds the first free page at or above a page, none only when all are used |
| PhysicalPages.PageBitmap.MarkPage | src/kernel/memory/physmem.c:115-121 | changes the mark of one page |
| PhysicalPages.PageBitmap.AllocatePhysicalPage | src/kernel/memory/physmem.c:156-169 | takes the first free page from the rounded address on, keeps the balance of the two wrapping counters with the marks; panics with nothing changed when there is none |
| PhysicalPages.PageBitmap.FreePhysicalPage | src/kernel/memory/physmem.c:208-218 | gives a used page back and keeps the balance; panics exactly when the page is not used |
| PhysicalPages.BalanceKept | src/kernel/memory/physmem.c:163-164 | wrapping decrement and increment keep free plus used pages |
| PhysicalPages.CountersTell | src/kernel/memory/physmem.c:156-218 | the balance and the number of used pages determine the counters |
| PhysicalPages.PageBitmap.MarkPhysicalMemoryAvailable | src/kernel/memory/physmem.c:89-96 | frees the pages from the rounded-up address on, as many as the size has whole pages, and counts them |
| PhysicalPages.MarkedInside | src/kernel/memory/physmem.c:89-96 | the freed pages lie inside the given stretch of memory exactly when rounding the address up loses no more than rounding the size down |
| PhysicalPages.MarksBeyond | src/kernel/memory/physmem.c:89-96 | a page of memory that starts in the middle of page 0 frees page 1, which it does not fill |
| PhysicalPages.InitPhysicalMemoryManager | src/kernel/memory/physmem.c:45-105 | at boot exactly the pages of the available memory are free, but for page 0 and the pages of the kernel |
| PageTables.CreateDirectoryEntryValue | src/kernel/memory/virtmem.c:95-108 | the address and every flag bit read back from a directory entry, for all flags; the other bits are zero |
| PageTables.CreateTableEntryValue | src/kernel/memory/virtmem.c:110-125 | the address and every flag bit read back from a table entry, for all flags; the other bits are zero |
| PageTables.TableAdded | src/kernel/memory/virtmem.c:207-225 | a new zeroed table in a page that was free changes no translation and keeps tables apart from each other and from the directory |
| PageTables.EntrySet | src/kernel/memory/virtmem.c:227-244 | writing an entry of a table changes one translation |
| PageTables.TableDropped | src/kernel/memory/virtmem.c:264-278 | dropping an empty table changes no translation |
| Paging.Memory.ResolveVirtualToPhysicalAddress | src/kernel/memory/virtmem.c:166-195 | gives the page of the map plus the offset, and 0 for a page that is not mapped or mapped to page 0 |
| Paging.Memory.MapVirtualAddressToPhysical | src/kernel/memory/virtmem.c:198-245 | maps one virtual page with all flags set, in exactly the words this takes, or changes nothing if it is mapped; a table is taken only when there is none, and is then the lowest free page; fails, with nothing changed, exactly when a table is needed and no page is free |
| Paging.Memory.UnmapVirtualAddress | src/kernel/memory/virtmem.c:248-279 | clears the one entry; the table is given back and its directory entry cleared exactly when it has no other entry; nothing else changes, and it never panics |
| Paging.Memory.MapThenUnmap | src/kernel/memory/virtmem.c:198-279 | mapping a page and unmapping it again restores the translations, and the used pages and both counters exactly when there was no table for it or one with another entry |
| Paging.Memory.IdentityMapRange | src/kernel/memory/virtmem.c:282-287 | maps exactly the pages of the range, its end included, to themselves where they were not mapped, with exactly the tables that takes; fails exactly when fewer pages are free than tables are missing |
| Paging.Memory.CreatePageDirectory | src/kernel/memory/virtmem.c:421-434 | a new directory, empty or with exactly the pages of the kernel range mapped to themselves; its pages were all free, the lowest first, and their number is exact; used pages keep their words; fails exactly when fewer pages are free than that |
| Paging.Memory.AllocateVirtualMemoryRange | src/kernel/memory/virtmem.c:438-445 | gives every page of a range a new page from the first megabyte on, the first free one first, with exactly the tables that takes; pages that were mapped keep their translation, and the page given for them is lost; fails exactly when the free pages are not enough for both, where only tables go below the first megabyte |
| PageCounts.SpentSteps | src/kernel/memory/virtmem.c:438-445 | what is left after some pages and tables is enough for more exactly when all was enough for both |
| PageCounts.TableSpent | src/kernel/memory/physmem.c:139-169 | a table takes a page below the first megabyte while there is one, and then one above |
| PageCounts.OneMoreMissing | src/kernel/memory/virtmem.c:198-225 | one more page of a range needs one more table exactly when its table is not there yet |
| Paging.Memory.DestroyPageDirectory | src/kernel/memory/virtmem.c:448-486 | frees each page of the directory once, without a panic, and leaves the pages from before, the pages of the kernel range it was given and the lost ones |
| Paging.KernelRangeMarked | src/kernel/memory/virtmem.c:473-475 | marking the kernel used at boot covers the pages that programs are given and that destroying a directory spares exactly when the range does not end on a page boundary |
| AddressSpaces.Lifetime | src/kernel/memory/virtmem.c:421-486 | a directory made, given any ranges and destroyed leaves the used pages from before and exactly those given pages that were lost or lie in the kernel range; used pages keep their words |
| AddressSpaces.NothingLost | src/kernel/memory/virtmem.c:438-486 | no given page is kept exactly when no virtual page was asked for twice or mapped before and no given page lies in the kernel range |
| AddressSpaces.ProgramApart | src/kernel/multitask/exec.c:161-173 | the ranges of a program, whole pages above the kernel one behind the other, ask for no virtual page twice |
| AddressSpaces.CleanLifetime | src/kernel/memory/virtmem.c:421-486 | when the kernel range above the first megabyte is all used, the life of a directory restores the used pages exactly if its ranges are apart, and then both counters |
| AddressSpaces.LowRoom | src/kernel/memory/physmem.c:139-169 | a new directory takes the first page above the kernel exactly when the first megabyte has fewer free pages than it needs |
| AddressSpaces.EndLifetime | src/kernel/memory/virtmem.c:421-486 | with a kernel range that ends on a page boundary the life of a directory keeps the page at that end exactly when it was free, something was asked for, and the first megabyte had room for the directory; with ranges apart it keeps nothing else |
| AddressSpaces.Lifetimes | src/kernel/memory/virtmem.c:421-486 | over any number of lives that page is kept once, if one of them keeps it, and all other pages and the counters are restored |
| AddressSpaces.Boot | src/kernel/main.c:82-148 | from the boot marks on, with the directory of the kernel made first: the page at the end of the kernel range is kept exactly when it was free and the first megabyte has room for the directory of the kernel and of a program that asks for memory; nothing else is kept, and the kernel stays mapped to itself |
| AddressSpaces.ProgramKeepsEnd | src/kernel/main.c:82-148 | on a machine with 128 MB the first ordinary program keeps that page |
| DirectoryRuns.Bystander | src/kernel/memory/virtmem.c:421-486 | a directory whose tables are not written keeps its translation, its tables and its pages |
| DirectoryRuns.Perform | src/kernel/memory/virtmem.c:421-486 | making, filling or destroying one of several live directories: it fails exactly when the free pages are not enough for the step; no two share a table or a page of their own, every used page belongs to one of them or is accounted for, and all others keep their translation |
| DirectoryRuns.Run | src/kernel/memory/virtmem.c:421-486 | the same for every interleaving of such steps, up to the first one that the free pages are not enough for; at each point the pages that no directory will give back are exactly those lost by the steps before |
| DirectoryRuns.NothingKept | src/kernel/memory/virtmem.c:438-486 | with the kernel range above the first megabyte all used, a run loses no page exactly when no step asks for a virtual page that its directory maps already |
| DirectoryRuns.EndKeptOnly | src/kernel/memory/virtmem.c:438-486 | with a kernel range that ends on a page boundary, a run that asks for no mapped page loses the page at that end exactly when some step asks for pages while it is free, and no other |
| DirectoryRuns.RunSpares | src/kernel/memory/virtmem.c:421-486 | over a run whose steps are on other directories, a directory keeps its translation and its pages |
| DirectoryRuns.Boot | src/kernel/main.c:82-148 | from the boot marks on, with programs that come and go in any interleaving, up to the first step that the free pages are not enough for: the kernel stays mapped to itself, and when all programs are gone the used pages are those of the boot and the page at the end of the kernel range, if it was free when memory was asked for |
| ProcLists.Lists.Append | src/kernel/multitask/proclist.c:7-17 | puts a process at the end of a list; every list stays well formed with its head and tail, and every process in one list at most |
| ProcLists.Lists.Prepend | src/kernel/multitask/proclist.c:20-29 | puts a process at the front of a list |
| ProcLists.Lists.Dequeue | src/kernel/multitask/proclist.c:32-41 | takes the first process of a list, or none if it is empty |
| ProcLists.Lists.Unlist | src/kernel/multitask/proclist.c:44-60 | takes a process out of a list, if it is there, and keeps the order of the others |
| ProcLists.TakenOut | src/kernel/multitask/proclist.c:44-60 | all lists stay well formed when a process is taken out at any place of one of them |
| ProcLists.AppendedAgain | src/kernel/multitask/proclist.c:7-17 | appending a process to a list that has it already cuts off the processes behind it: nothing is lost exactly when it is the last one |
| Processes.Multitasking.constructor | src/kernel/multitask/multitask.c:19-40 | at the start the idle process runs and nothing is listed |
| Processes.Multitasking.Schedule | src/kernel/multitask/scheduler.c:62-93 | switches to the first process of the highest level that has one, or notes the wish while locked; that process leaves the front of its list, the one that ran goes to the end of its own if it still can run, and all others keep their order; every live process stays in exactly the place of its state, and one that blocked or exited has a successor |
| Processes.FirstLevel | src/kernel/multitask/scheduler.c:69-79 | which process is found: the first of the first level that is not empty, none when all are |
| Processes.SwitchOrder | src/kernel/multitask/scheduler.c:69-90 | the order of all lists after a switch, for every first level with a ready process |
| Processes.SliceOrder | src/kernel/multitask/scheduler.c:62-93 | a switch starts a time slice of 30 milliseconds; without one the end of the slice stays |
| SchedulerRuns.RoundRobin | src/kernel/multitask/scheduler.c:62-93 | with no higher level ready, the processes of a level take turns over any run of yields and of ticks that end the time slice and wake nobody: after n + 1 turns the one at place n of the queue runs, counted round it with the process that ran first at its end, the others wait in that order, and no other list changes |
| SchedulerRuns.RunsInTurn | src/kernel/multitask/process.c:261-266 | the process at place k of its queue runs after k + 1 yields, with those that ran before behind it in their order |
| Processes.Multitasking.IdleSucceeds | src/kernel/multitask/scheduler.c:62-79 | because the idle process never blocks there is always a process to switch to |
| Processes.SomeReady | src/kernel/multitask/scheduler.c:69-79 | if any ready list has a process then one is found |
| Processes.Multitasking.UnlockScheduler | src/kernel/multitask/scheduler.c:48-59 | unlocking for the last time makes the pending switch; then a process runs |
| Processes.Multitasking.StartProcess | src/kernel/multitask/process.c:85-101 | the live processes gain the new one, at the end of its ready list, before the switch that a running process of lower priority causes; processes keep their places |
| Processes.Multitasking.ProcBlock | src/kernel/multitask/process.c:112-123 | the running process joins the end of the blocked list with its reason and channel |
| Processes.Multitasking.UnblockProcess | src/kernel/multitask/process.c:127-144 | a blocked process goes to the front of its ready list, the others keep their order, and a running process of lower priority is switched out; otherwise nothing changes |
| Processes.FreedOrder | src/kernel/multitask/process.c:127-144 | the order of all lists after a blocked process is freed: it is the first of its ready list, the blocked list closes up, and no other list changes |
| Processes.Multitasking.UnblockProcessThat | src/kernel/multitask/process.c:147-172 | the first process blocked for a reason on a channel goes to the front of its ready list, and a running process of lower priority is switched out; without one nothing changes |
| Processes.Multitasking.ProcHasChildren | src/kernel/multitask/process.c:185-226 | true exactly when a running, ready or blocked process is a child |
| Processes.Multitasking.ProcWaitChild | src/kernel/multitask/process.c:229-258 | the running process joins the end of the blocked list and the next one runs exactly when it has a child; otherwise nothing changes |
| Processes.Multitasking.ProcYield | src/kernel/multitask/process.c:261-266 | the next process runs, if there is one |
| Processes.Multitasking.ProcSleep | src/kernel/multitask/process.c:269-289 | the running process joins the end of the blocked list with its time to wake up; no time, no sleep |
| Processes.Multitasking.ProcExit | src/kernel/multitask/process.c:292-314 | the running process goes to the end of the terminated list, a parent that waits for it goes to the front of its ready list, and the next process runs |
| Processes.Multitasking.WakeSleepingTasks | src/kernel/multitask/multitask.c:76-110 | exactly the sleepers whose time is up leave the blocked list for the front of the ready lists, the last one first; the others keep their order; the next time to wake up is that of the sweep over those |
| Processes.AwakeOrder | src/kernel/multitask/multitask.c:90-107 | of the sleepers woken at once those that blocked later come first, before all that were ready; those that sleep on keep their order |
| Processes.Multitasking.TimerTicked | src/kernel/multitask/multitask.c:114-129 | a tick keeps every process in its place, wakes the sleepers whose time is up exactly when the next wake-up is due, and at the end of the time slice, and only then, the first ready process by the lists after the waking runs |
| Processes.SweepComesBack | src/kernel/multitask/multitask.c:90-107 | the next sweep comes in time for a sleeper exactly when some process due by then has only processes with a time to wake up behind it in the blocked list |
| Processes.SleeperForgotten | src/kernel/multitask/multitask.c:100-105 | a process that never slept, behind a sleeper in the blocked list, makes the sweep forget the sleeper |
| Processes.Multitasking.CleanUpTerminated | src/kernel/multitask/multitask.c:58-69 | the idle process removes exactly the terminated processes |
| Blocking.WaitersKept | src/kernel/multitask/multitask.c:92-107 | processes that do not wait for a semaphore leave the blocked list without changing the order of its waiters |
| Blocking.FirstWaiterLeaves | src/kernel/multitask/semaphore.c:44-56 | when the first waiter leaves, the waiters are the others in their order, and those of other semaphores are untouched |
| Semaphores.Semaphores.CreateSemaphore | src/kernel/multitask/semaphore.c:11-16 | a new semaphore is free |
| Semaphores.Semaphores.AcquireSemaphore | src/kernel/multitask/semaphore.c:18-33 | takes the semaphore below its limit, and otherwise waits behind the others; count, waiters and holders of all semaphores stay sound |
| Semaphores.Semaphores.ReleaseSemaphore | src/kernel/multitask/semaphore.c:35-70 | hands the semaphore to the process that has waited longest, or lowers the count when nobody waits; all semaphores stay sound exactly when the process held it |
| Semaphores.HandedOver | src/kernel/multitask/semaphore.c:38-61 | handing over keeps the count and keeps arrivals equal to grants followed by waiters; the holders stay as many as the count exactly when the process held the semaphore |
| Semaphores.UnblockSafeIff | src/kernel/multitask/process.c:127-144 | unblocking a process from outside keeps the semaphores sound exactly when it does not wait for one |
| Semaphores.Semaphores.UnblocksAny | src/kernel/multitask/process.c:127-144 | unblocking from outside takes the process out of the blocked list, whatever it waits for; the semaphores stay sound exactly when that is no semaphore |
| Semaphores.Semaphores.Perform | src/kernel/multitask/process.c:85-314 | every step of the scheduler and of the semaphores, the clean-up of the idle process included, leads to exactly the queues, times, semaphores and holders that the step function gives, and keeps all semaphores sound; histories of arrivals and grants only grow |
| Semaphores.Semaphores.Run | src/kernel/multitask/semaphore.c:18-70 | for every interleaving, the queues, times and semaphores are those of the step function applied in turn; the count of each semaphore is the number of its holders and within the limit, and it was handed over in the order of arrival |
| SchedulerRuns.SleepsOn | src/kernel/multitask/multitask.c:76-129 | a sleeper for which no wake-up is set sleeps through every run, whatever the time, in which no process is put to sleep and it is not unblocked from outside |
| SchedulerRuns.ForgetsSleeper | src/kernel/multitask/multitask.c:76-129 | on a new system two processes sleep, a third waits for input, and a tick wakes the first: the second is in the blocked list with no wake-up set, and stays there over every such run |
| SchedulerRuns.UnblocksWaiter | src/kernel/multitask/process.c:127-144 | a waiter unblocked from outside: nobody waits and the semaphore counts one waiter |
| SchedulerRuns.ReleasesUnheld | src/kernel/multitask/semaphore.c:35-70 | a semaphore released by a process that does not hold it has a count of -1 |

## Left out

- Double-indirect blocks: where the source turns to them, expansion and writing stop with an error of their own; all statements about files are for files without one.
- The eviction of inodes from the inode cache, open handles, and the flags and times of inodes: the inodes of a volume are in memory from the mount on, and their flags and times are stored as zero.
- Path resolution, and with it creating and unlinking files as a whole: which records a mount opens is a parameter.
- InodeRecords.InodeDbAppend: the count of records in the superblock, which nothing reads, is not modelled; when it fails is stated for blocks that hold a record, as all block sizes of the source do.
- InodeRecords.InodeDbDelete: as for a new record.
- Directories.DirAppendEntry: when it fails is stated for blocks that hold an entry, as all block sizes of the source do.
- Directories.Enter: the same.
- Directories.RenameAcross: the same.
- The refusals of a volume that is not mounted, is mounted already, or is read-only.
- Names in a directory without a terminating zero among their 60 bytes: these operations never store one.
- Volumes.Mkfs: asks that the automatic block size is not zero, where the source divides by it.
- Volumes.Sync: the part of a sync behind the flush of inodes, which is `InodeStore.OpenVolume.IcacheFlushAll`; the whole is `InodeStore.OpenVolume.SyncAll`.
- Volumes.Remount: the part of a mount between the superblock and the inodes; the whole is `Persistence.Open`.
- Persistence.Open: asks that sectors hold a superblock, as the source reads one sector for it.
- Files.Mounted.InodeWriteFileBytes: asks that the clamped position plus the length is below 2^32, since the source counts in 32 bits.
- BlockCaches.BlockCache.Io: asks that sector numbers and offsets stay in 32 bits, and that a slot is in service, since the source follows a null pointer otherwise.
- Directories.InodeWriteFileRec: positions of records are not wrapped at 2^32.
- KernelHeap.Heap.Kmalloc: asks that size plus header is below 2^32; beyond that the source splits a block that is too small.
- KernelHeap.Heap.Run: asks the same of all requests; a free of something that is not live is passed over.
- KernelHeap.Heap.Kfree: asks for a live payload; the magic numbers, the clearing of memory and the debug fields are not modelled.
- PhysicalPages.PageBitmap.FindFirstFreePhysicalPageNo: asks that the search keeps to the bits of the words; the shift by 32 has no meaning in C.
- PhysicalPages.PageBitmap.AllocatePhysicalPage: asks for the same.
- Paging.Memory.IdentityMapRange: asks that the range does not reach the last page of the address space, where the loop of the source does not end.
- Paging.Memory.CreatePageDirectory: asks that a kernel range that is mapped starts on a page boundary, as it does.
- Consecutive pages, the highest address, and the choice among the memory maps of the boot loader.
- Control registers, the page-fault handler, interrupt flags and the context switch itself.
- Mutexes have no members of their own: a mutex is a semaphore with limit 1.
- Semaphores.Semaphores.Run: a release by a process that does not hold the semaphore, and unblocking one that waits for it, are not steps of a run.
- Processes.Multitasking.constructor: starts with the idle process only running; the source also puts it on a ready list, which the first switch away from it cuts off behind it.
- Process creation, exit codes, time accounting, file handles, and the lock depth across the first switch to a new process.
- Drivers, the virtual file system, FAT, the shell and the other programs: they move data in and out or pass requests on, and keep no state that the properties above depend on.
