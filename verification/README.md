# ClaudeOS kernel: a Dafny verification project

This project models the stateful core of the ClaudeOS kernel and proves what that core keeps, call by call and
over whole runs: the SimpleFS file system with its disk image, the kernel heap, physical and virtual memory,
semaphores, the scheduler, the in-memory file system and the number-to-text conversions.
`dafny verify dfyconfig.toml` checks everything.

## How the model is built

Each part of the kernel that updates state in place is a class with the same state: arrays for the FAT, the
directory, the descriptors, the page frame bitmap, the paging structures and the heap's bytes, and objects linked
by `next` for process queues. Its methods follow the C functions branch by branch, with their error codes. Sizes
(number of blocks, bytes per block, frames, slots, processes) are parameters, so a statement is about all of them that
meet its hypotheses.

A class has a ghost `View()`, its state as a value. The contract of a method gives the whole new view as a function of,
or a relation to, the old one, and the lemmas are about those functions and relations.

| part | state and calls | values, effects and theorems |
|---|---|---|
| SimpleFS | `SimpleFs.dfy`, `SimpleFsDisk.dfy` | `SimpleFsVolume.dfy`, `SimpleFsContent.dfy`, `SimpleFsSpec.dfy`, `SimpleFsRead.dfy`, `SimpleFsWrite.dfy`, `SimpleFsSteps.dfy`, `SimpleFsImage.dfy`, `SimpleFsMemory.dfy`, `SimpleFsTheorems.dfy`, `SimpleFsRuns.dfy`, `SimpleFsLives.dfy` |
| kernel heap | `KernelHeap.dfy` | `HeapBlocks.dfy`, `HeapBytes.dfy`, `HeapSteps.dfy`, `HeapEffects.dfy`, `HeapSpans.dfy`, `HeapCalls.dfy`, `HeapTheorems.dfy`, `HeapCoalescing.dfy` |
| page frames and paging | `FrameAllocator.dfy`, `PageTables.dfy`, `HeapPages.dfy` | in the same files, `PageMemory.dfy` |
| semaphores | `Semaphores.dfy` | `SemaphoreSpec.dfy`, `SemaphoreQueues.dfy` |
| scheduler | `Scheduler.dfy` | `SchedulerSpec.dfy` |
| in-memory file system | `MemFs.dfy` | `MemFsSpec.dfy`, `MemFsTheorems.dfy` |
| itoa and atoi | `IntText.dfy` | in the same file |

`Bytes.dfy`, `CharPointers.dfy` and `Processes.dfy` hold what several parts share.

SimpleFS: the ghost `Layout` gives every data block an owner (a place in the chain of a directory entry, or leaked, or
nobody), and the ghost `Cursor` of a descriptor says at which place of its file's chain the current block is. The volume
invariant says that FAT, directory, counter and layout agree. The class keeps the tables in arrays of their own, under
the hypothesis `TablesFit` that each fits in its block: with it, every store of every call does to the one stretch of
memory exactly what it does to the arrays (`SimpleFsMemory.dfy`); without it, it does not, see below. The shipped sizes,
1024 blocks of 4096 bytes, do not meet the hypothesis. Saving and loading are modelled on the memory itself and hold for
the shipped sizes too.

Heap: the allocator works on the bytes of memory. A header is the sixteen bytes in front of a payload; the ghost view
lists the blocks that tile the heap (`tiles`), the free list in list order (`free`) and the headers. A block marked free
that is not on the list is called an orphan.

Paging and heap: the paging structures are kept by frame number and the heap's bytes by address. In the kernel both are
one memory, because it stores into a table through the physical address of its frame. `PageMemory.dfy` says what such an
address stands for, with paging off and on: the stores reach the table and no byte of the heap exactly if the frame lies
below 4 MB. So the paging invariant asks that of every table, and a call that may make one asks, of the state before the
call, that the frame which the table will get lies there (`CanReach`, `TablesReached`, `Allocator.AllocatesBelow`). With
the shipped sizes that is so exactly as long as the heap ends at 0x800000 or below; what happens beyond is below.

A predicate compared with `true`, in a contract or in its definition, is handed on as one fact instead of conjunct by
conjunct; that is done only where the proofs are too costly otherwise.

## Where the code does less than its comments say

Each of these is a result of the project, with the exact condition under which the expected property holds.

- SimpleFS: after a write that ends on a block boundary, or a read that ends on one at the end of the file, the
  descriptor stays in the block that is used up, and from then on every transfer starts at least one block too early.
  Over every run since the open the next transfer starts at the position exactly if that has not happened
  (`CallsLandIff`, `TransfersLandIff`, `WriteAfterRunKeepsSizesIff`; per cursor `TransferStartsAtPositionIff`,
  `WriteKeepsSizesIff`; an input in `SecondFullBlockOverwritesTheFirst`).
- SimpleFS: a create with an empty name takes a block for good and leaves its slot free; a name of 56 bytes or more is
  cut and cannot be found under its own name (`OnlyEmptyNamesLeak`, `CreatedIsFoundIff`).
- SimpleFS: a FAT entry has 8 bytes, so 1024 entries do not fit into the FAT's 4096-byte block and run into the root
  directory: writing a directory entry changes FAT entries. In every memory all directory writes leave the FAT alone
  exactly if 8 bytes per block fit in one block (`DirectoryStoresKeepTheFatIff`). With the shipped sizes creating "/hello"
  marks block 512 as allocated and the free-block counter is wrong (`ShippedCreateBreaksTheCounter`).
- Heap: kmalloc unlinks a block before splitting it, so what is cut off is marked free but never listed, and is lost for
  good (`Allocator.TakeBlock`, `OrphansForever`).
- Heap: the limit check of heap_expand ignores the header and the rounding to pages, so the heap may end one page beyond
  its maximum (`GrowthInBounds`).
- Heap: kfree joins neighbours on the list, not neighbours in memory. Two blocks of which the first is freed after the
  second become one; freed the other way round onto an empty list they stay two (`FreedPairFits`,
  `FreedInOrderStaysApart`); exactly what is joined is in `Joined`.
- Heap: freeing a block that is on the list already leaves links that no list fits, and the coalescing loop of the same
  kfree goes round for ever (`FreeingKeepsAListIff`, `CoalescingEndsIff`).
- Paging and heap: mapping a page cannot report that no frame was left for its table, so kmalloc can hand out memory
  whose last page is not mapped. How many frames a growth needs, and with it the exact condition in the state before the
  call: `RoundBacksIff`, `MapFreshPages`, `Allocator.Kmalloc`; the input in `LastFrameAtATablesEnd`.
- Paging and heap: the frame for a new table may lie at 4 MB or above. The code then clears and fills it through an
  address that is one of the heap's: bytes of blocks in use are overwritten, with paging on the table itself is not even
  written, and with paging off later stores into the heap rewrite it. The stores reach the table and no heap byte exactly
  if its frame lies below 4 MB (`NewTableReachedIff`, `TableReachedIff`, `StoresKeepIff`), for a growth by several
  pages exactly under a condition on the state before it (`RoundReachedIff`). With the shipped sizes every growth beyond
  0x800000 fails it (`ShippedGrowthReachedIff`): the page at 0x800000 gets frame 1539 and its table frame 1540, which is
  address 0x604000, inside the heap (`ShippedTableAt`), so a block in use there keeps its bytes exactly if they happen to
  be those of the table (`ShippedTableOverwrites`).
- Heap: nothing keeps heap_init from running twice; the second time every block in use is forgotten and its bytes are
  handed out again (`InitAgainForgetsBlocks`).
- Frames: the answer 0 means "no memory" only as long as frame 0 is in use (`ZeroMeansExhaustedIff`).
- Semaphores: a process that waits while it is queued breaks the queues: in the same queue the waiters behind it are
  lost, as the last one it becomes its own successor, in another queue that one is cut and both share it
  (`BlockingKeepsQueuesIff`, `QueuedAgainCuts`, `LastBecomesItsOwnSuccessor`, `OtherQueueCutAndShared`).
- Scheduler: the kernel's own process is never scheduled again once a user process runs (`KernelDropsOut`).
- In-memory files: names longer than 31 characters or with a leading slash can make duplicates, deleting can orphan
  the entries of a directory, and rmdir with a leading slash can remove the current directory (`StepKeepsTreeIff`,
  `LongNamesCollide`, `SlashNamesRepeat`).

## Model

| member | source | states |
|---|---|---|
| SimpleFs.FileSystem.constructor | fs/simplefs.c:21-62 | With tables that fit in their blocks: a formatted, initialised file system; the invariant holds, no entry, no open descriptor, every data block free |
| SimpleFs.FileSystem.Format | fs/simplefs.c:65-102 | Empties FAT and directory over any earlier contents; system blocks carry the end mark; the counter is the number of data blocks |
| SimpleFs.FileSystem.AllocBlock | fs/simplefs.c:115-129 | Takes the lowest free data block, marks it as a chain end and lowers the counter by one; answers 0, changing nothing, exactly when the counter is 0 |
| SimpleFs.FileSystem.FreeBlock | fs/simplefs.c:132-147 | Frees exactly one allocated data block and its owner; the invariant survives exactly if no chain and no unused slot refers to the block; system blocks, blocks out of range and free blocks are refused with their own codes and no change |
| SimpleFs.FileSystem.FindDirEntry | fs/simplefs.c:159-177 | The lowest named slot with this name, or not found |
| SimpleFs.FileSystem.AddDirEntry | fs/simplefs.c:180-207 | With tables that fit in their blocks: refuses names that exist and full directories; otherwise writes the lowest free slot and nothing else, the name cut to 55 bytes |
| SimpleFs.FileSystem.Create | fs/simplefs.c:256-291 | With tables that fit in their blocks: every error code in the order of the checks; a failed create restores FAT, counter and layout exactly; a successful one adds a zeroed one-block chain; the invariant is kept |
| SimpleFs.FileSystem.Mkdir | fs/simplefs.c:493-495 | Create with the directory type |
| SimpleFs.FileSystem.AllocFd | fs/simplefs.c:228-238 | The lowest unused descriptor, reset, or no descriptor |
| SimpleFs.FileSystem.Open | fs/simplefs.c:294-354 | Finds or creates the file, refuses directories and full descriptor tables, points the descriptor at the first block with position 0; truncation sets both sizes to 0 and keeps the chain |
| SimpleFs.FileSystem.BindDescriptor | fs/simplefs.c:329-353 | The last part of open, sizes and cursors kept within their chains |
| SimpleFs.FileSystem.Read | fs/simplefs.c:357-407 | Hands out the bytes of the chain from the landing point on, exactly as many as asked for, as the size leaves and as the chain holds; moves only this descriptor |
| SimpleFs.FileSystem.ReadLoop | fs/simplefs.c:367-406 | The chunk loop over block boundaries gives one contiguous slice of the chain and a cursor in the block of the next byte |
| SimpleFs.FileSystem.Write | fs/simplefs.c:410-465 | The chain grows only by free blocks; its bytes are the old ones with the first r bytes of the data spliced in at the landing point; r is all of the data or what chain and free blocks can hold; all other blocks are unchanged |
| SimpleFs.FileSystem.WriteLoop | fs/simplefs.c:423-462 | The chunk loop keeps the invariant in every round and ends with all bytes stored or no block left |
| SimpleFs.FileSystem.WriteRound | fs/simplefs.c:423-462 | One round: a piece stored up to the block end, then perhaps a step to the next or a new block |
| SimpleFs.FileSystem.StorePiece | fs/simplefs.c:430-447 | Copies one piece into the current block, moves the position and raises the size |
| SimpleFs.FileSystem.StepToNextBlock | fs/simplefs.c:450-461 | Follows the FAT link or links a newly allocated block behind the chain; stops exactly when none is free |
| SimpleFs.FileSystem.Close | fs/simplefs.c:468-490 | Releases the descriptor; a writer leaves its size in the entry of its own file, found by first block, and in no other |
| SimpleFsVolume.ChainsPartitionTheAllocatedBlocks | fs/simplefs.c:65-147 | While FAT and directory are apart and satisfy the invariant: named entries have chains that follow the FAT to the end mark; different chains are disjoint; allocated data blocks are exactly those on chains plus leaked ones; the counter is the number of unallocated ones |
| SimpleFsVolume.ChainIsAcyclic | fs/simplefs.c:395-403 | No chain that ends in the end mark visits a block twice |
| SimpleFsVolume.ChainIsUnique | fs/simplefs.c:395-403 | Following links from one block has one outcome |
| SimpleFsVolume.TakeKeepsVolume | fs/simplefs.c:115-129 | Allocating a block keeps the ownership invariant with the counter one lower |
| SimpleFsVolume.LinkKeepsVolume | fs/simplefs.c:450-461 | Linking an allocated block behind a chain keeps the ownership invariant |
| SimpleFsVolume.EnterKeepsVolume | fs/simplefs.c:180-207 | Writing an entry for an allocated block keeps it; an empty name claims nothing |
| SimpleFsVolume.ReleaseKeepsVolumeIff | fs/simplefs.c:132-147 | Freeing an allocated block keeps the ownership invariant exactly if it is leaked and no unused slot still refers to it |
| SimpleFsSteps.CreatedIsOk | fs/simplefs.c:256-291 | The state after a create satisfies the whole invariant, sizes included |
| SimpleFsSteps.OpenedIsOk | fs/simplefs.c:329-353 | So does the state after an open |
| SimpleFsSteps.ClosedIsOk | fs/simplefs.c:468-490 | So does the state after a close |
| SimpleFsTheorems.TransferStartsAtPositionIff | fs/simplefs.c:450-461 | For one cursor: a transfer starts at the position exactly unless the cursor was left at a block end, in which case it starts one block too early; position 0 or inside a block is always fine |
| SimpleFsTheorems.WriteSplicesTheFile | fs/simplefs.c:410-465 | Unless the cursor was left at a block end, a write replaces exactly the file bytes it reports, at the position, and no other |
| SimpleFsTheorems.ChunkedWritesAreOneWrite | fs/simplefs.c:410-465 | Writes of any sizes, none begun with the cursor left at a block end, leave the file as one write of all the bytes would |
| SimpleFsTheorems.WriteLeavesOtherFilesAlone | fs/simplefs.c:439-442 | The contents of every other file are unchanged by a write from any position |
| SimpleFsTheorems.WriteKeepsSizesIff | fs/simplefs.c:444-461 | For one write: sizes stay within chains and cursors within blocks exactly if the write stored nothing or did not start from a cursor left at a block end |
| SimpleFsTheorems.WriteGrowth | fs/simplefs.c:423-464 | A short write means no free block is left; the chain becomes max(old, ceil((p+r)/B)) long and the free count drops by exactly the growth, truncated files included, for every write that lands at its position |
| SimpleFsTheorems.SecondFullBlockOverwritesTheFirst | fs/simplefs.c:450 | Two whole-block writes from the start: the second replaces the first, while position and size report two blocks |
| SimpleFsTheorems.ReadReturnsTheFile | fs/simplefs.c:370-406 | A read hands out the next bytes of the file, min(count, rest); neither early exit of the loop is taken |
| SimpleFsTheorems.ReadKeepsReady | fs/simplefs.c:395-403 | A read leaves the descriptor ready for the next one, position past exactly what was handed out |
| SimpleFsTheorems.ChunkedReadsAreOneRead | fs/simplefs.c:357-407 | Reads of any sizes put together give what one read of their total gives |
| SimpleFsTheorems.ReopenedFileReadsBackTheWrite | fs/simplefs.c:294-490 | Write, close, open again, read all: the old content with the stored bytes in place |
| SimpleFsTheorems.CreatedIsFoundIff | fs/simplefs.c:195-198 | A created file is found under its name exactly if the name has 1 to 55 bytes |
| SimpleFsTheorems.OnlyEmptyNamesLeak | fs/simplefs.c:195-202 | A create adds a block to the leaked ones exactly if the name is empty |
| SimpleFsTheorems.WritesLeakNothing | fs/simplefs.c:450-461 | A write never leaks a block |
| SimpleFsRuns.CallsLandIff | fs/simplefs.c:256-490 | Over every run of create, open, read, write and close calls since an open on a descriptor, its own close aside, by position, size and byte counts alone: the next transfer on it starts at its position exactly if no write on it that stored bytes ended on a block boundary and no read on it ended on one at the end of the file; otherwise at least one block too early |
| SimpleFsRuns.StepTransfers | fs/simplefs.c:256-490 | Every call but its own close is, to an open descriptor, the write or read that it is, or leaves its fields, its cursor and its chain alone |
| SimpleFsRuns.RunTransfers | fs/simplefs.c:256-490 | So a run of calls is, to a descriptor that stays open, a run of such transfers, call for call |
| SimpleFsRuns.TransfersLandIff | fs/simplefs.c:357-465 | Over every run of transfers since an open, by position, size and byte counts alone: the next transfer starts at the position exactly if no write that stored bytes ended on a block boundary and no read ended on one at the end of the file; otherwise at least one block too early |
| SimpleFsRuns.WriteAfterRunKeepsSizesIff | fs/simplefs.c:444-461 | After such a run a write keeps sizes within chains exactly if it stores nothing or none of that happened |
| SimpleFsRuns.OpenStartsARun | fs/simplefs.c:329-353 | An open leaves a descriptor from which such a run starts |
| SimpleFsRuns.UntouchedFilesStay | fs/simplefs.c:256-490 | Over every run of create, open, read, write and close calls none of which writes, truncates or closes for writing this file, its entry, its chain and its bytes stay |
| SimpleFsLives.OpenShowsTheFile | fs/simplefs.c:329-353 | A truncating open shows an empty file and records it as empty; any other shows exactly the bytes on record; other files stay |
| SimpleFsLives.TruncatedReadsNothing | fs/simplefs.c:342-350 | Over every run from a truncating open on, reads hand out nothing as long as no write has stored anything |
| SimpleFsLives.TruncatedFileReadsBackTheWrite | fs/simplefs.c:294-490 | Truncate, write, close, open again, read all: exactly the stored bytes |
| SimpleFsLives.CloseReleases | fs/simplefs.c:468-490 | After a close the descriptor is not open and every other is as before |
| SimpleFsLives.ClosedStaysClosed | fs/simplefs.c:240-254 | Over every run from a close on, until an open answers its number again, reads, writes and closes on the descriptor are refused |
| SimpleFsLives.OpenAfterCloseHasOne | fs/simplefs.c:228-246 | An open right after a close never lacks a descriptor |
| SimpleFsLives.CallChangesOpenOnes | fs/simplefs.c:228-246 | A successful open adds the one descriptor it answers, a successful close removes its own, no other call changes which are open |
| SimpleFsLives.OpenFailsIff | fs/simplefs.c:323-333 | An open of a file that is there, or that it may create and can, fails exactly if all descriptors are open |
| SimpleFsLives.DescriptorsRunOutIff | fs/simplefs.c:228-490 | Over every run of calls that starts with no descriptor open such an open answers that there is no descriptor exactly if successful opens less successful closes equal the number of descriptors |
| SimpleFsLives.RefusedIff | fs/simplefs.c:357-420 | Over every run since an open, writes on the descriptor are refused exactly if it was not opened for writing, reads exactly if not for reading |
| SimpleFsLives.CreatedKind | fs/simplefs.c:256-291 | What a create with a fitting name makes is found, empty and of the kind asked for, and cannot be created again |
| SimpleFsLives.CreateSucceedsIff | fs/simplefs.c:256-291 | Under a name that is not there a create succeeds exactly if the counter of free blocks is not 0 and a slot is free |
| SimpleFsLives.OpenAfterCreateIff | fs/simplefs.c:294-327 | What was created as a directory cannot be opened, what was created as a file can exactly if a descriptor is left |
| SimpleFsLives.MissingIsNotMade | fs/simplefs.c:306-322 | An open of a missing file without the create flag answers so and changes nothing |
| SimpleFsLives.FilesComeFromCreating | fs/simplefs.c:256-322 | Over every run a missing name stays missing unless a create, or an open with the create flag, names a path stored under it |
| SimpleFsImage.SuperblockRoundTrip | fs/simplefs.h:55-65 | The superblock read from its bytes is the superblock written |
| SimpleFsImage.FatEntryRoundTrip | fs/simplefs.h:68-72 | So is a FAT entry |
| SimpleFsImage.DirEntryRoundTrip | fs/simplefs.h:75-81 | So is a directory slot, name included |
| SimpleFsMemory.FatStoreInMemory | fs/simplefs.c:42-45 | In the one stretch of memory, while the tables fit in their blocks: storing a FAT entry changes this entry and no other, no slot, no counter, no data block |
| SimpleFsMemory.SlotStoreInMemory | fs/simplefs.c:195-201 | The same for a directory slot |
| SimpleFsMemory.SizeStoreInMemory | fs/simplefs.c:477-484 | The same for the size of a slot |
| SimpleFsMemory.SuperblockStoreInMemory | fs/simplefs.c:120-124 | The same for the superblock |
| SimpleFsMemory.BlockStoreInMemory | fs/simplefs.c:104-112 | The same for a data block |
| SimpleFsMemory.CreateInMemory | fs/simplefs.c:256-291 | The stores of a create turn a memory that holds the state into one that holds the state after it |
| SimpleFsMemory.WriteRoundInMemory | fs/simplefs.c:430-447 | So does the store of one round of a write |
| SimpleFsMemory.WriteStepInMemory | fs/simplefs.c:450-461 | So do the stores of linking a new block, and following a link needs none |
| SimpleFsMemory.OpenInMemory | fs/simplefs.c:329-353 | So does the one store of a truncating open |
| SimpleFsMemory.CloseInMemory | fs/simplefs.c:468-490 | So does the one store of a close by a writer |
| SimpleFsMemory.EveryStateHasAMemory | fs/simplefs.c:21-62 | Every state with 32-bit sizes is held by some memory: whole FAT, directory and blocks are read back as stored |
| SimpleFsMemory.DirectoryStoresKeepTheFatIff | fs/simplefs.c:195-201 | In all memories all writes to all directory slots leave every FAT entry unchanged exactly if the FAT ends in its block, up to the reserved bytes of its last entry; for block sizes that are multiples of 8, exactly if 8 bytes per block fit in one block |
| SimpleFsMemory.ShippedCreateBreaksTheCounter | fs/simplefs.h:11-29 | With 1024 blocks of 4096 bytes, after formatting and creating "/hello": FAT entry 512 is allocated, 1019 data blocks are unallocated and the counter says 1020 |
| SimpleFsDisk.LbaInjective | fs/simplefs.c:662-672 | Different (block, sector) pairs have different addresses, all of them at least 64 |
| SimpleFsDisk.AtaDrive.WriteSector | drivers/ata.c:372-393 | Writes one sector; refuses the boot area and addresses beyond the drive, changing nothing |
| SimpleFsDisk.AtaDrive.ReadSector | drivers/ata.c:250-265 | Reads one sector; refuses addresses beyond the drive |
| SimpleFsDisk.DiskStore.WriteBlock | fs/simplefs.c:662-679 | A block written as eight sectors is on the disk as a whole; sectors of other blocks are unchanged; fails exactly if the block has no place on the drive |
| SimpleFsDisk.DiskStore.ReadBlock | fs/simplefs.c:681-698 | Reads the eight sectors of a block in order into the place of the block in memory, nothing else changing |
| SimpleFsDisk.DiskStore.Save | fs/simplefs.c:701-735 | Succeeds exactly in disk mode, initialised, with room for every block to save; then the three system blocks and all blocks allocated in the FAT in memory are on the disk |
| SimpleFsDisk.DiskStore.Load | fs/simplefs.c:738-797 | Succeeds exactly if the drive holds a SimpleFS superblock, both other system blocks and every block allocated in the FAT found there; then memory holds exactly those and is otherwise unchanged |
| SimpleFsDisk.DiskStore.LoadTables | fs/simplefs.c:758-781 | The three system blocks with the magic check; the data blocks in memory stay |
| SimpleFsDisk.DiskStore.LoadBlocks | fs/simplefs.c:783-792 | Every data block allocated in the loaded FAT, and no other |
| SimpleFsDisk.SavedMemoryLoadsBack | fs/simplefs.c:701-797 | Whatever was saved can be loaded: superblock, FAT and directory come back byte for byte and with them every allocated block, other blocks stay; for a FAT of up to two blocks, so with the shipped sizes too |
| SimpleFsDisk.LoadRestoresTheSavedFiles | fs/simplefs.c:701-797 | After a save and any later changes in memory a load restores the saved state of the file system: tables, the bytes of every saved file and, with no descriptor open, the whole invariant |
| FrameAllocator.PageFrames.constructor | kernel/pmm.c:45-109 | After initialisation exactly the frames below the end of the kernel are used and the counter is exact |
| FrameAllocator.PageFrames.SetBit | kernel/pmm.c:14-16 | Setting a bit adds exactly its frame to the used ones |
| FrameAllocator.PageFrames.ClearBit | kernel/pmm.c:18-20 | Clearing a bit removes exactly its frame |
| FrameAllocator.PageFrames.FindFreePage | kernel/pmm.c:27-42 | The first free frame from the hint on, else the first below the hint, else none |
| FrameAllocator.PageFrames.AllocPage | kernel/pmm.c:112-132 | Takes the lowest free frame of all memory; 0 when none is free; counter and hint stay exact |
| FrameAllocator.PageFrames.FreePage | kernel/pmm.c:135-154 | Frees one used frame; free frames and addresses beyond memory are ignored |
| FrameAllocator.HintedSearchFindsLowest | kernel/pmm.c:27-42 | While all frames below the hint are used, searching from the hint finds the lowest free frame and the wrap-around search finds none |
| FrameAllocator.ZeroMeansExhaustedIff | kernel/pmm.c:112-122 | The answer 0 comes exactly when memory is exhausted or frame 0 is free |
| FrameAllocator.HeldFramesStayHeld | kernel/pmm.c:112-154 | Over every run of requests a used frame is neither lost nor handed out again until it is freed |
| FrameAllocator.AllocThenFree | kernel/pmm.c:112-154 | Freeing the frame just allocated undoes the allocation |
| PageTables.AddressSpace.GetPageTable | kernel/vmm.c:21-54 | Given that the frame a new table would get lies below 4 MB: finds the table of a page or creates an empty one in a fresh frame; 0 and no change when there is none and none may or can be made |
| PageTables.AddressSpace.MapPage | kernel/vmm.c:105-118 | Under the same condition: sets the translation of one page, flags included, and of no other; does nothing when no table can be had; frames that hold no table are untouched |
| PageTables.AddressSpace.UnmapPage | kernel/vmm.c:121-135 | While all tables lie below 4 MB: removes one page and no other; no frame is freed |
| PageTables.AddressSpace.GetPhysicalAddress | kernel/vmm.c:138-152 | While all tables lie below 4 MB: the translation of the address, 0 if it has none |
| PageTables.AddressSpace.IsPagePresent | kernel/vmm.c:155-163 | While all tables lie below 4 MB: whether the page is mapped |
| PageTables.AddressSpace.IdentityMapKernel | kernel/vmm.c:166-176 | Given that the frame a new table would get lies below 4 MB: maps exactly the first 4 MB onto themselves with at most one new frame |
| PageTables.AddressSpace.Init | kernel/vmm.c:57-78 | Given that the next two frames lie below 4 MB: panics exactly without a frame for the directory; with a frame for one table exactly two frames are taken and exactly the first 4 MB are mapped |
| PageTables.NewTableKeepsLookups | kernel/vmm.c:33-47 | A new table in a fresh frame below 4 MB changes no translation |
| PageTables.EntryChangesOnePage | kernel/vmm.c:105-118 | While all tables lie below 4 MB: writing an entry changes the translation of its page and of no other, and no table frame |
| PageTables.MapTranslates | kernel/vmm.c:105-152 | Between states whose tables lie below 4 MB: a present mapping translates to (phys without offset) plus the offset of the address; all other translations stay |
| PageTables.KernelMappingsAreWritable | kernel/vmm.c:105-118 | A page mapped with the flags that the kernel uses may be written and is none of a user's |
| PageTables.FlagsAreBits | kernel/vmm.c:112-115 | Each flag of a mapping is set exactly by its own bit |
| PageTables.WalkRefinesFiniteMap | kernel/vmm.c:21-152 | Over every run of map and unmap calls through states whose tables lie below 4 MB the two-level walk finds exactly what a finite map from pages to frames would hold |
| PageTables.StepRefines | kernel/vmm.c:105-135 | Between such states one call changes that map in one place, or not at all when no table can be had |
| PageTables.IdentityMapTranslatesToItself | kernel/vmm.c:166-176 | Every address below 4 MB translates to itself |
| HeapPages.MapFreshPages | kernel/heap.c:115-124 | Given, of the state before, that the frames for all tables the stretch will need lie below 4 MB: succeeds exactly if there are frames for all pages and all their missing tables but that of the last page; all pages are then backed by frames of their own exactly if there is one for that table too, otherwise all but the last; exactly those frames are gone and no other translation changed |
| HeapPages.RoundReachedIff | kernel/heap.c:115-124 | The condition on the state before the stretch is, page by page, that the table which the round may make gets a frame below 4 MB |
| HeapPages.RoundBacksIff | kernel/heap.c:115-124 | One round between states whose tables lie below 4 MB: the page is backed exactly if it had a table before or, besides the frame it takes, another one is left |
| HeapPages.MappedOneMore | kernel/heap.c:115-124 | Such a round keeps the account of frames, tables and backed pages |
| HeapPages.LastFrameLeavesPageUnmapped | kernel/vmm.c:30-35 | A page without a table when one frame is left: the frame is taken, the page stays unmapped, and the round counts as done |
| HeapPages.LastFrameAtATablesEnd | kernel/vmm.c:105-109 | The input: heap end 0x800000, frames for the kernel and the directory in use, one more free |
| HeapPages.HeapStoresKeepTranslations | kernel/vmm.c:21-54 | While all tables lie below 4 MB and the heap above: whatever is stored through the pages of the heap, with paging off or on, no translation changes |
| PageMemory.TableReachedIff | kernel/vmm.c:39-53 | With the kernel pages mapped onto themselves and others only to frames in use without a table: the physical address of a frame that holds a table, or of a free one about to, stands for that frame with paging off and on exactly if it lies below 4 MB |
| PageMemory.SpaceOkIff | kernel/vmm.c:21-54 | What the paging invariant asks of table frames is exactly that all of them are reached |
| PageMemory.StoresKeepIff | kernel/vmm.c:38-43 | In one memory of bytes: storing a table, cleared or filled, changes no byte of a stretch, whatever both hold, exactly if the frame lies apart from it |
| PageMemory.NewTableReachedIff | kernel/vmm.c:33-53 | The stores into a new table reach its own frame, with paging off and on, and no byte of a heap above 4 MB exactly if the lowest free frame lies below 4 MB |
| PageMemory.MapKeepsPaging | kernel/vmm.c:105-118 | Mapping a page above 4 MB to a frame in use without a table keeps what physical addresses below 4 MB stand for |
| PageMemory.UnmapKeepsPaging | kernel/vmm.c:121-135 | So does unmapping one |
| PageMemory.RoundKeepsPaging | kernel/heap.c:115-124 | So does every page that the heap takes |
| PageMemory.PagingOverRun | kernel/vmm.c:105-135 | So does every run of pages taken for the heap and pages above 4 MB unmapped, from the state that vmm_init leaves on |
| PageMemory.TablesReachedOverRun | kernel/vmm.c:21-54 | In every state of such a run, tables below 4 MB: the directory and every table are found at their physical addresses, with paging off and on, and no address above 4 MB, so none of the heap, leads to one |
| PageMemory.ShippedStart | kernel/pmm.c:55-63 | With 32 MB of memory and the kernel in the first 2 MB, directory and first table get the next two frames, below 4 MB |
| PageMemory.ShippedGrowthReachedIff | kernel/heap.h:15-17 | With the shipped sizes, from any end of the heap up to 0x800000: the tables of a growth by any number of pages lie below 4 MB exactly if it ends at 0x800000 or below, and the frames in use are then again as counted |
| PageMemory.ShippedTableAt | kernel/heap.c:115-124 | The page at 0x800000 gets frame 1539 and its table frame 1540, from whatever earlier end the growth starts |
| PageMemory.ShippedTableOverwrites | kernel/vmm.c:38-43 | A block in use that covers 0x604000 to 0x605000 keeps its bytes exactly if they are those of the table already; there is such a block |
| KernelHeap.Allocator.Init | kernel/heap.c:142-176 | Called once or again, given that the tables it needs will lie below 4 MB: does nothing without a directory, panics exactly if a page gets no frame; otherwise the heap is one listed block over the initial pages, all of them mapped exactly if there were frames for their tables too |
| KernelHeap.Allocator.FindFreeBlock | kernel/heap.c:35-46 | The first listed block that is large enough; 0 exactly if there is none |
| KernelHeap.Allocator.SplitBlock | kernel/heap.c:49-68 | Splits exactly if more than a header and 16 bytes are left over; both parts are blocks, the rest is an orphan; nothing outside the block is written |
| KernelHeap.Allocator.AddToFreeList | kernel/heap.c:71-86 | Pushes a block in front, whatever the list; the list stays well linked if the block was not on it; only headers of listed blocks are written |
| KernelHeap.Allocator.RemoveFromFreeList | kernel/heap.c:89-103 | Unlinks one node and clears its header fields; the list stays well linked |
| KernelHeap.Allocator.Expand | kernel/heap.c:106-139 | Given, of the state before, that tables it needs will lie below 4 MB: succeeds exactly within the limit and with a frame for every page; then adds one listed block of whole pages with room for the request, all of it mapped exactly if there were frames for the tables too; fails as a whole; the end stays at most one page above the maximum |
| KernelHeap.Allocator.Kmalloc | kernel/heap.c:179-213 | Given, of the state before, that a block fits or the tables a growth needs will lie below 4 MB: a live block, 8-byte aligned, at least the request and at most a header and 16 bytes more, the first that fits or else the first of the new pages; the rest of the list keeps order and sizes; no other byte in use is touched; 0 exactly for no heap, size 0, or no fit and no possible expansion, and then nothing changes; the heap stays mapped exactly unless it grew without a frame for the last table |
| KernelHeap.Allocator.FindOrGrow | kernel/heap.c:191-203 | Under the same condition: the second search after a successful expansion always finds the new block |
| KernelHeap.Allocator.TakeBlock | kernel/heap.c:205-212 | Unlink then split is an allocation; a new orphan remains exactly if the block had more than a header and 16 bytes to spare |
| KernelHeap.Allocator.Kfree | kernel/heap.c:216-234 | The live block is gone, its bytes are on the list, whose blocks are those of before with this one in front, neighbours that touch joined; every other block in use keeps its header and bytes; null and addresses outside the heap, 32-bit wrap included, change nothing |
| KernelHeap.Allocator.CoalesceFreeBlocks | kernel/heap.c:280-299 | Terminates; the stretches of the list are joined as long as one starts where its predecessor ends, and no others; the listed bytes, the used size and all blocks in use stay the same |
| KernelHeap.Allocator.MergeOrStep | kernel/heap.c:286-298 | One round of the walk merges exactly if the next node starts where this one ends, and is the round whose end HeapCoalescing decides |
| HeapSpans.JoinedApart | kernel/heap.c:280-299 | After joining no stretch of the list ends where the next one starts |
| HeapSpans.JoinedCovers | kernel/heap.c:280-299 | Every stretch lies in a joined one, and two neighbours that touch lie in the same |
| HeapSpans.JoinMerge | kernel/heap.c:288-294 | Merging a node with the next one leaves the outcome of joining the whole list the same |
| HeapTheorems.FreedApart | kernel/heap.c:216-234 | After a free no listed block ends where its successor on the list starts |
| HeapTheorems.FreedNeighboursFit | kernel/heap.c:216-234 | Two neighbours on the list, the freed block in front, that touch give a block with room for both payloads and a header |
| HeapTheorems.FreedPairFits | kernel/heap.c:216-234 | Freeing two touching blocks in use, the later one first, makes an allocation of their joint size fit without growth |
| HeapTheorems.FreedInOrderStaysApart | kernel/heap.c:280-299 | Freed the other way round onto an empty list they stay two blocks and nothing of the joint size fits |
| KernelHeap.Allocator.Krealloc | kernel/heap.c:237-267 | Under the same condition where it allocates: null allocates, size 0 frees, a block large enough stays, else a new block is allocated, the whole old payload copied and the old block freed; fails exactly if no block fits and the heap cannot grow, leaving everything as it was |
| KernelHeap.Allocator.MoveBlock | kernel/heap.c:254-266 | Under the same condition: the three stages of a move, each with its exact effect on blocks and bytes; fails exactly if the allocation does |
| HeapCalls.ReallocMovesThePayload | kernel/heap.c:254-266 | A move carries over every byte of the old payload and touches no other block in use |
| HeapCalls.ReallocUses | kernel/heap.c:254-266 | After a move the new block is live, the old one is not, and the used size has changed by their difference |
| KernelHeap.Allocator.GetUsedSize | kernel/heap.c:306-319 | The walk lands on the end of the heap and its sum is header plus payload over the live blocks |
| HeapSteps.UnlinkKeeps | kernel/heap.c:89-103 | Unlinking any node of a well-linked list leaves a well-linked list of the others |
| HeapSteps.SplitKeeps | kernel/heap.c:49-68 | Splitting keeps the tiling and the list |
| HeapSteps.PushKeeps | kernel/heap.c:71-86 | Pushing keeps both, every other header aside from the old head stays |
| HeapSteps.MergeKeeps | kernel/heap.c:280-299 | Merging two listed neighbours keeps both |
| HeapSteps.ExtendKeeps | kernel/heap.c:126-135 | A block behind the old end extends the tiling |
| HeapEffects.AbsorbOneMore | kernel/heap.c:286-294 | One merge keeps listed bytes, used size and every block outside the list |
| HeapEffects.PushIsFree | kernel/heap.c:216-234 | Push and coalesce together are a release |
| HeapEffects.UnlinkIsAlloc | kernel/heap.c:206-209 | Unlinking a block that fits is an allocation |
| HeapEffects.SplitIsAlloc | kernel/heap.c:206-209 | So is splitting it afterwards |
| HeapBlocks.TilesApart | kernel/heap.c:306-319 | Different blocks share no byte, headers included |
| HeapCalls.GrowThenTake | kernel/heap.c:194-212 | Growing first makes no difference to what an allocation does to the blocks there were |
| HeapCalls.GrowthInBounds | kernel/heap.c:106-113 | The end after growth is on a page boundary, at most one page above the maximum, above it exactly if request plus header pass it, and a whole page above it for a request up to the maximum |
| HeapCalls.NewBlockFits | kernel/heap.c:126-137 | After a successful expansion the search succeeds |
| HeapTheorems.InitAgainForgetsBlocks | kernel/heap.c:142-176 | After a second heap_init the bytes of every block in use that lie in the initial part are on the free list, the others in no block, and the next allocation that fits gets the first bytes of the heap |
| HeapTheorems.UnfreedBlocksStay | kernel/heap.c:179-267 | Over every run of calls (each with its growth's tables below 4 MB) and of stores by the holders of blocks, a block in use that is not freed keeps place, size and header, and every byte that its own holder does not store to |
| HeapTheorems.ReallocIsARun | kernel/heap.c:254-266 | A move is a run of an allocation, a store into the new block and a release |
| HeapTheorems.StoresKeepHeaders | kernel/heap.c:179-213 | What the holder of a block stores there changes no header in memory, so runs of calls and stores go on |
| HeapTheorems.OrphansForever | kernel/heap.c:206-209 | Over every run an orphan stays one: no live block ever contains a byte of it and it never returns to the list |
| HeapTheorems.LivePayloadsDisjoint | kernel/heap.c:179-234 | In every state of a run live blocks lie inside the heap, aligned, and share no byte with any other block |
| HeapTheorems.UsedOverRun | kernel/heap.c:306-319 | Over every run the used size changes by exactly the blocks allocated less the blocks freed |
| HeapTheorems.FreeUndoesAlloc | kernel/heap.c:306-323 | Freeing a fresh allocation restores used size and live blocks, whatever was split, grown or merged; the list gets back every byte but those cut off |
| HeapTheorems.FreeingKeepsAListIff | kernel/heap.c:71-86 | After the push of block b some finite list fits the links exactly if b was not listed |
| HeapCoalescing.CoalescingEndsIff | kernel/heap.c:280-299 | The coalescing loop that follows the push ends after some number of rounds exactly if b was not listed; after a double free it goes round for ever |
| HeapCoalescing.RoundStaysOnCycle | kernel/heap.c:280-299 | A round of that loop on a cycle of links, merging or not, leaves a cycle and the loop on it |
| HeapCoalescing.ListEnds | kernel/heap.c:280-299 | On a well-linked list the loop ends after at most as many rounds as there are nodes |
| Semaphores.SemaphorePool.constructor | kernel/ipc.c:34-57 | All slots unused, all queues empty, the next id is 1 |
| Semaphores.SemaphorePool.Create | kernel/ipc.c:194-225 | Refuses a null name and negative values; otherwise the lowest unused slot with a fresh id, or -1 |
| Semaphores.SemaphorePool.Find | kernel/ipc.c:227-234 | The slot in use with this id, or null |
| Semaphores.SemaphorePool.Wait | kernel/ipc.c:236-273 | Takes a positive value at once; otherwise blocks the current process, queued already or not, and appends it link by link; without one answers 1 and changes nothing |
| Semaphores.SemaphorePool.QueuesInOrder | kernel/ipc.c:371-399 | While the invariant holds, heads, tails and next fields are those of the queues of waiters, and a process is in one of them exactly if it is queued |
| Semaphores.SemaphorePool.Signal | kernel/ipc.c:275-295 | Wakes exactly the first waiter, or raises the value if there is none |
| Semaphores.SemaphorePool.Destroy | kernel/ipc.c:297-321 | Wakes every waiter, terminates and clears the slot |
| Semaphores.AddToWaitingQueue | kernel/ipc.c:371-383 | Appends a process that is not in the queue; one that is in it cuts the queue behind itself, and as the last one becomes its own successor |
| Semaphores.RemoveFromWaitingQueue | kernel/ipc.c:385-399 | Takes the first process off; the rest stays well threaded |
| SemaphoreSpec.StepKeepsPool | kernel/ipc.c:194-321 | Every call keeps: values not negative, positive only without waiters, ids distinct, queues without repetition and disjoint |
| SemaphoreSpec.RunKeepsPool | kernel/ipc.c:194-321 | So does every run in which a process that blocks is in no queue |
| SemaphoreQueues.BlockingKeepsQueuesIff | kernel/ipc.c:371-383 | After appending a process all queues can be followed from head to tail, are disjoint and hold every earlier waiter and the process exactly if it was in no queue |
| SemaphoreQueues.NewWaiterAppended | kernel/ipc.c:371-383 | A process in no queue ends up last in its queue, all other queues as they were |
| SemaphoreQueues.CutInOrder | kernel/ipc.c:371-383 | One that is in this queue before the last: all queues are in order, this one ending with the process and the others as they were |
| SemaphoreQueues.QueuedAgainCuts | kernel/ipc.c:371-383 | No other queues fit the links then, and the waiters that were behind the process are in none |
| SemaphoreQueues.LastBecomesItsOwnSuccessor | kernel/ipc.c:371-383 | One that is the last: its link leads to itself and no list of processes fits the queue |
| SemaphoreQueues.OtherQueueCutAndShared | kernel/ipc.c:371-383 | One that is in another queue: that queue is cut behind it, and it is the last of both |
| SemaphoreSpec.ConservationAndOrder | kernel/ipc.c:236-295 | Over every run: value = initial + signals - immediate acquires - wake-ups, and processes are woken in the order in which they blocked |
| SemaphoreSpec.CreatedIsKnown | kernel/ipc.c:194-225 | A create succeeds exactly with a name, a value that is not negative and an unused slot; then the answered id, which no semaphore had, is known, with the given value and nobody waiting, and all others are as before |
| SemaphoreSpec.DestroyedIsGone | kernel/ipc.c:297-321 | A destroyed semaphore is unknown, nobody waits for it, a create then succeeds, and all others are as before |
| SemaphoreSpec.WaitAnswers | kernel/ipc.c:236-273 | With a process that is in no queue, or none: 0 exactly if the value fell by one, 1 exactly if it was and stays 0, -1 exactly for an unknown id |
| SemaphoreSpec.WaitQueuesIff | kernel/ipc.c:252-268 | A process that is in no queue is queued exactly by the answer 1 |
| SemaphoreSpec.UnknownIsRefused | kernel/ipc.c:275-321 | Signal and destroy answer 0 exactly for a known id and change nothing otherwise |
| SemaphoreSpec.IdsNeverReused | kernel/ipc.c:203-204 | Over every run a create answers an id above all that were known or answered before |
| SemaphoreSpec.ConservationFromCreate | kernel/ipc.c:194-295 | Over every run that begins with the create: value = initial value + signals - immediate acquires - wake-ups; who blocked was woken in that order or still waits; never more holders than the initial value |
| SemaphoreSpec.WokenBySignalNumber | kernel/ipc.c:275-295 | The process at position k is woken by signal number k + 1 and by no earlier one |
| Scheduler.ProcessTable.Init | kernel/process.c:35-141 | Clears the table and runs the kernel in slot 0; a second call changes nothing |
| Scheduler.ProcessTable.Create | kernel/process.c:292-381 | The lowest free user slot, a fresh pid, READY at the end of the queue, named, with the running process as parent; -1 exactly if the table is full |
| Scheduler.ProcessTable.Switch | kernel/process.c:520-558 | The first ready process runs; the running one goes to the end unless it is the kernel; an empty queue changes nothing |
| Scheduler.ProcessTable.Yield | kernel/process.c:561-563 | A switch |
| Scheduler.ProcessTable.Enqueue | kernel/process.c:353-361 | Appends to the threaded queue |
| Scheduler.ProcessTable.Dequeue | kernel/process.c:525-531 | Takes the head of the threaded queue |
| SchedulerSpec.StepKeepsSched | kernel/process.c:292-558 | Pids distinct; every created process exactly once running or queued; the running user process RUNNING, queued ones READY |
| SchedulerSpec.RunKeepsSched | kernel/process.c:292-558 | So in every run |
| SchedulerSpec.CreatedProcess | kernel/process.c:292-381 | A create fails exactly if the table is full; otherwise the answered pid is nobody else's and the process under it is READY and last in the queue, all others as before |
| SchedulerSpec.PidsNeverReused | kernel/process.c:292-381 | Over every run later creates answer larger pids |
| SchedulerSpec.CurrentAfterSwitches | kernel/process.c:520-558 | The process at queue index k is current after exactly k + 1 switches, whatever processes are created in between |
| SchedulerSpec.SwitchesRotate | kernel/process.c:520-558 | Without new processes n switches rotate the ring of processes by n places |
| SchedulerSpec.ProcessesStay | kernel/process.c:292-558 | A created process keeps slot and pid and is never lost from the ring |
| SchedulerSpec.KernelDropsOut | kernel/process.c:533-544 | Once a user process runs the kernel process is neither current nor queued again |
| MemFs.MemoryFileSystem.FindFile | fs/memfs_simple.c:134-159 | The first entry with the name in the root, for a leading slash, or in the current directory |
| MemFs.MemoryFileSystem.FindFreeSlot | fs/memfs_simple.c:176-183 | The lowest unused entry |
| MemFs.MemoryFileSystem.Create | fs/memfs_simple.c:186-219 | Null, empty, existing and full are refused; otherwise an empty file with a fresh id in the current directory |
| MemFs.MemoryFileSystem.Mkdir | fs/memfs_simple.c:441-474 | The same for a directory |
| MemFs.MemoryFileSystem.Delete | fs/memfs_simple.c:222-237 | Clears whatever the name finds |
| MemFs.MemoryFileSystem.Rmdir | fs/memfs_simple.c:477-504 | Clears a directory exactly if no entry has it as parent |
| MemFs.MemoryFileSystem.Chdir | fs/memfs_simple.c:507-548 | The special names, then a directory found by name; files and unknown names are refused |
| MemFs.MemoryFileSystem.Copy | fs/memfs_simple.c:648-686 | A new file with the content of the source; every refusal in order |
| MemFs.MemoryFileSystem.Move | fs/memfs_simple.c:689-710 | Renames in place |
| MemFs.MemoryFileSystem.Write | fs/memfs_simple.c:281-308 | Finds or creates the file and replaces its content, cut at the largest file size |
| MemFsTheorems.StepKeepsTreeIff | fs/memfs_simple.c:186-710 | From a tree, a call gives a tree (unique ids, unique names per directory, parents that exist with smaller ids, an existing current directory) exactly if it is safe, which a caller can check before |
| MemFsTheorems.PlainIsSafe | fs/memfs_simple.c:186-710 | Relative names of 1 to 31 characters, delete for files only: always safe |
| MemFsTheorems.RunKeepsTree | fs/memfs_simple.c:186-710 | Every run of such calls keeps the tree |
| MemFsTheorems.UpsReachRoot | fs/memfs_simple.c:517-529 | Repeated chdir("..") descends in id and reaches the root after at most as many calls as the id of the current directory |
| MemFsTheorems.ChdirEntersIff | fs/memfs_simple.c:532-547 | A chdir to a name other than the special ones succeeds exactly if it finds a directory; then relative names find exactly the entries with this directory as parent |
| MemFsTheorems.ChdirToRootOrHere | fs/memfs_simple.c:507-531 | chdir("/") leads to the root and chdir(".") nowhere else |
| MemFsTheorems.ChdirAndBack | fs/memfs_simple.c:507-548 | chdir into a subdirectory and then ".." comes back to the same state |
| MemFsTheorems.CreatedInDirectory | fs/memfs_simple.c:186-548 | What is created after such a chdir has that directory as parent, is not seen where the caller came from and is there on coming back |
| MemFsTheorems.CreatedIsFound | fs/memfs_simple.c:186-219 | A create with a fitting relative name makes an empty entry of the kind asked for that the name finds and that cannot be made again |
| MemFsTheorems.CreateFailsIff | fs/memfs_simple.c:186-219 | A create under a missing name lacks space exactly if every entry is in use |
| MemFsTheorems.RemovedIsGone | fs/memfs_simple.c:222-504 | What was deleted is not found any more, all else stays; rmdir removes exactly directories that are nobody's parent and is a delete then |
| MemFsTheorems.MovedKeepsTheFile | fs/memfs_simple.c:689-710 | After a move with fitting relative names the new name finds the entry with its id, kind, parent and content, the old one finds nothing, all else stays |
| MemFsTheorems.WriteReadsBack | fs/memfs_simple.c:281-308 | What a successful write stores is what the name finds afterwards, and the answer is its length |
| MemFsTheorems.CopyReadsBack | fs/memfs_simple.c:648-686 | A successful copy is a new file, found with the content of the source, which is unchanged and no directory |
| MemFsTheorems.LongNamesCollide | fs/memfs_simple.c:64-71 | Two names that differ only behind the thirty-first character become one name twice |
| MemFsTheorems.SlashNamesRepeat | fs/memfs_simple.c:134-148 | A file created with a leading slash is not found again and can be created twice |
| IntText.Itoa | kernel/string.c:181-212 | The buffer holds sign and digits of the number in the base, most significant first, and a terminating zero; the rest is untouched |
| IntText.WriteDigits | kernel/string.c:194-199 | The digit loop produces the digits lowest first |
| IntText.ReverseInPlace | kernel/string.c:204-209 | The two-pointer loop reverses the stretch and nothing else |
| IntText.Atoi | kernel/string.c:215-239 | The number at the front of the text: blanks, sign, digits; no intermediate overflow if the magnitude fits |
| IntText.DigitsStandForTheNumber | kernel/string.c:194-199 | In every base from 2 to 16 the digits stand for the number |
| IntText.ParsedText | kernel/string.c:181-239 | Reading the decimal text of a number gives the number |
| IntText.ParsedInContext | kernel/string.c:215-239 | Blanks in front, a plus sign before a number that is not negative, and anything but a digit behind make no difference |
| IntText.ThereAndBack | kernel/string.c:181-239 | atoi(itoa(v, 10)) is v for every 32-bit v but the most negative one |

## Left out

- Port I/O, interrupts, timers, the terminal, printing and statistics dumps; the disk is a sequence of sectors with the driver's range checks. Hardware read and write errors, and the blocks they would leave half written, are not modelled.
- The shell, networking, system call dispatch and the message pool: no state beyond what is modelled, or only simple conservation.
- `kernel/simplefs.c` and the trees under `backup/`: copies or older variants of the modelled files; `fs/memfs.c` and `kernel/memfs.c` are flat tables without directories.
- SimpleFS: `fs_remove_dir_entry` has no caller and does not free the chain; `fs_list` only copies names.
- SimpleFS: what several descriptors that write one file leave as its final size; the FAT invariant does cover such runs.
- SimpleFS: 32-bit wrap-around of positions and sizes. A chain of fewer than 2^32 bytes never reaches it from positions inside a block; repeated writes from a cursor left at a block end could.
- SimpleFs.FileSystem.constructor: requires tables that fit in their blocks, which the shipped sizes do not; what happens then is in `DirectoryStoresKeepTheFatIff` and `ShippedCreateBreaksTheCounter`, and there is no in-memory result for the shipped sizes beyond those.
- SimpleFs.FileSystem.AddDirEntry: requires the same, through the invariant or by itself.
- SimpleFs.FileSystem.Create: requires the same, through the invariant.
- SimpleFsDisk.LoadRestoresTheSavedFiles: requires the same, through the invariant of the saved state; `SavedMemoryLoadsBack` does not.
- SimpleFS: the allocated byte of a FAT entry is a truth value.
- SimpleFsDisk.DiskStore.Ready: a FAT of more than two blocks, which would run into the data blocks, is not modelled.
- SimpleFsDisk.DiskStore.Save: does not model the three separate calls for superblock, FAT and directory; one loop saves blocks 0, 1, 2 and the allocated ones in the same order.
- SimpleFsDisk.DiskStore.Load: does not model a load into a memory that was never initialised, because the code then uses pointers that it has not set.
- KernelHeap.Allocator.SplitBlock: does not model the relinking of a successor, because every caller passes a block whose links are cleared and the branch is never taken.
- PageTables.AddressSpace.GetPageTable: requires that the frame for a new table lies below 4 MB, because the code's stores otherwise miss the table and may hit the heap; exactly when is in `NewTableReachedIff`.
- PageTables.AddressSpace.MapPage: requires the same.
- PageTables.AddressSpace.IdentityMapKernel: requires the same.
- PageTables.AddressSpace.Init: requires the same of the next two frames; with the shipped sizes that holds (`ShippedStart`).
- HeapPages.MapFreshPages: requires the same of every table that the stretch will need.
- KernelHeap.Allocator.Init: requires the same of the initial pages; with the shipped sizes that holds (`ShippedGrowthReachedIff`). What a second call leaves of the bytes behind the first header is not stated, because with paging on the pages then stand for other frames.
- KernelHeap.Allocator.Expand: requires the same of the growth, if it is within the limit; with the shipped sizes that holds up to the end 0x800000 and not beyond.
- KernelHeap.Allocator.FindOrGrow: requires the same, if no listed block fits.
- KernelHeap.Allocator.Kmalloc: requires the same, if no listed block fits; does not model sizes for which the 32-bit sums of heap end, size and rounding wrap around.
- KernelHeap.Allocator.MoveBlock: requires the same, if no listed block fits.
- KernelHeap.Allocator.Krealloc: requires the same, if it has to allocate and no listed block fits.
- Heap and paging: a whole state of the kernel after a table has been placed inside the heap is not modelled further; the first damage is in `ShippedTableOverwrites`.
- KernelHeap.Allocator.Kfree: requires that an address inside the heap is the payload of a live block, because for any other one the code takes whatever lies in front of it for a header; the double free of a listed block is in `CoalescingEndsIff`.
- Heap: `kcalloc`. A heap that was used with paging off and then has paging switched on finds other bytes behind its addresses; a run has paging off or on throughout.
- Paging: unmapping one of the kernel's own first 1024 pages with paging on, after which the tables there are out of reach.
- Paging: only the present, writable, user and frame fields of an entry; TLB flushes and enabling paging; further page directories. Frames below 4 MB can be mapped twice, so distinct frames are claimed inside the heap's range only.
- Semaphores and the scheduler share the `next` field of a process but are two machines: their interplay (a blocked process is put back into the ready queue by a switch, a woken one is not) is not modelled.
- Semaphores: creation times; ids and values are unbounded integers.
- Scheduler: register contexts and stacks; `process_kill`, `process_exit`, `process_cleanup_terminated`, `process_execute_simple` and `process_run_all_ready` free or end processes without unlinking them, so the queue invariant is not theirs to keep.
- Scheduler.ProcessTable.Create: does not model names longer than their field, because the code copies them without a bound.
- In-memory files: owners, permissions, access times, the demonstration entries of the initialisation, searching all directories, and the path text of the current directory, which shows one level only.
- Semaphores.SemaphorePool.Signal: what later calls do after a process was queued twice is not modelled; the state after that wait is.
- IntText.Atoi: does not model digits that exceed the largest int, because the C overflow is undefined.
- IntText.Itoa: does not model negative numbers in other bases than 10 nor the most negative number, for which the code indexes outside its digit table.
