# MCSOS kernel: model and proofs

MCSOS is a small teaching kernel. This project models the parts of it that keep state in fixed arrays and lists, and
proves what holds over every sequence of calls:

- the virtual file system over the RAM file system (`FileModel`, `FileHistory`, `FileLaws`, `RamPool`,
  `Vfs`),
- the write-ahead journal over a block array (`BlockDisk`, `Journal`, `CommitPoint`, `Transactions`,
  `JournalDevice`),
- the kernel heap (`HeapModel`, `KernelHeap`),
- the physical frame allocator (`FrameModel`, `PhysicalMemory`),
- the test-and-set lock (`LockModel`),
- the two MCSFS1 file systems (`SharedFs`, `SharedFsDevice`, `InodeFs`),
- the page mapping table (`PageTable`), the round-robin scheduler (`Scheduler`) and the program image validator
  (`ElfPlan`, `ElfImage`).

Each imperative component has two layers. Classes with arrays, linked headers and loops follow the C code; their
methods are proved against functions on plain values. Lemmas then relate those functions to a simpler system (a map from
path to bytes, a fold of block writes, a set of disjoint allocations, a finite map of pages) or to the history of calls,
for all arguments and all runs. `Words` holds 64-bit wrapping arithmetic, `CStrings` the string loops.

`dafny verify dfyconfig.toml` checks the whole project.

## Main results

1. **The file system is a map from path to bytes.** `Vfs.FdTable.Execute` shows that the arrays, for any sequence of
   open, read, write, lseek, close and seed calls, give the answers and the state of the vnode list;
   `FileHistory.RunRefines` that the vnode list gives the answers and the state of a map from path to bytes and from
   descriptor to (path, offset), also when paths are seeded twice; `FileHistory.ContentsAreLastPuts` that every byte of
   every file is the last byte written or seeded at that position, and that there are no other bytes. `FileLaws` says
   what each call gives its caller, up to a whole session of create, write, seek, read and close (`FileLaws.Session`).
2. **Journaled transactions are atomic.** `Transactions.Atomicity`: stop a program of transactions after any call or at
   any byte of a replay, let any number of recoveries be interrupted at any byte, and replay; the disk then holds the
   block writes of exactly the transactions whose commit was issued, in order. `JournalDevice.Device.Execute` ties the
   structure and the disk array to such runs.
3. **A crash during replay does no harm.** `JournalDevice.Device.Recover` ties every intermediate disk of the byte loop
   to a crash point; `Journal.RepeatedCrashRecovery` shows that a full replay after any number of interrupted ones gives
   the disk of a single replay, bad targets included; `Journal.ReplayIsBlockWrites` and `Journal.BlockAfterReplay` say
   what that disk is.
4. **The heap is tiled.** `HeapModel.RunKeeps` and `HeapModel.LiveAllocationsSafe`: after any run live allocations are
   disjoint, inside the heap and clear of all headers; `HeapModel.RunNoSharing` says it of calls and returned pointers
   alone. `KernelHeap.Heap.Execute` states both of the linked headers. They cover every caller that frees only what
   `kmalloc` returned, once or repeatedly (`HeapModel.ReturnedIsLegal`). `HeapModel.FreeThenMalloc`: allocating,
   freeing and allocating the same size uses up nothing. `HeapModel.FragmentationIsForever`: without coalescing, a size
   that no block holds can never be allocated again.
5. **Frames have one owner.** `FrameModel.AllocationIsExclusive`, and `FrameModel.RunOneOwner` on calls and results
   alone; `PhysicalMemory.FrameAllocator.Execute` states it of the bitmap. `FrameModel.RunKeepsBooks` with
   `FrameModel.BootGapExact` settles the counters.
6. **The lock excludes.** `LockModel.MutualExclusion`, `LockModel.NoLostUpdate` and `LockModel.Section`, for any number
   of threads and any interleaving.
7. **Program images are read as they are written.** `ElfImage.ImageReadBack`: any header and any program headers, packed
   field by field at any table offset, are what the validator sees, so `ElfImage.WrittenAcceptedIff` says which written
   images it accepts.

## Where the code does not do what one might expect

Each of these has a lemma that says exactly when the expected property does hold.

- The free frame counter of the frame allocator is exact exactly if a usable region covers frame 0 and the bitmap bits
  behind the last whole byte were set (`FrameModel.BootGapExact`); otherwise it lags behind by a constant.
- A reservation always answers success and rounds both start and length down: it covers every byte asked for exactly
  when both are whole frames (`FrameModel.ReserveCoversIff`). A usable region is rounded the same way, so its frames lie
  inside it exactly when its start is a whole frame or it holds no whole frame (`FrameModel.RegionInsideIff`).
- A replay that stops at a bad target leaves the disk alone exactly if no valid entry precedes the target
  (`Journal.FailedReplayHarmlessIff`).
- Entries appended after the commit are replayed too (the run `CommitPoint.AppendBehindCommit`). The journal keeps its
  committed entries exactly when it was full at the commit or nothing was appended since (`CommitPoint.LateAppendsIff`);
  a replay then stores the same bytes, and otherwise only if it stops before the late entries
  (`CommitPoint.ReplayIsCommittedIff`). On the disk the late entries show exactly when they change the last data of some
  block (`CommitPoint.EffectIsCommittedIff`).
- A failing open can have created its file: exactly when the path was new, a vnode was free and no descriptor was
  (`FileHistory.FailedOpen`, with the run `FileHistory.FailedOpenCreates`). A failing seed leaves an empty file exactly
  when a vnode was free and the contents were too long (`FileHistory.FailedSeed`, with the run
  `FileHistory.FailedSeedCreates`).
- In kernel MCSFS1 a write can overwrite another file: exactly when the written range meets that file's extent
  (`SharedFs.WriteIsolatedIff`, with the run `SharedFs.SharedExtent`).
- Mapping a page that is already mapped can leave the old target in force: a query returns the new target exactly when
  the page had no slot below the hole taken, or its first slot held that target already (`PageTable.MapVisibleIff`). A
  successful unmap can then leave the page mapped: it is gone exactly when it had no second slot
  (`PageTable.UnmapCompleteIff`). `PageTable.MappedTwice` is a run that shows both.
- `vmm_is_canonical` tests 16 bits where the architecture asks for 17 (`PageTable.CanonicalExactIff`).
- Size checks that add in 64 bits are exact unless the sum wraps round to a small value (`Words.WrappedCheckIff`). The
  verdict on a program segment is wrong exactly when its file range wraps so and nothing else is wrong with it
  (`ElfPlan.VerdictExactIff`); an image is wrongly accepted exactly when it passes with such a segment
  (`ElfPlan.AcceptedExactIff`), and `ElfPlan.WrappedImageAccepted` is one of 68 bytes.
- A release is safe, whatever happens afterwards, exactly when its caller holds the lock or nobody does
  (`LockModel.ReleaseSafeIff`); any other lets every thread outside join the holder (`LockModel.RogueRelease`).

## Model

| member | source | states |
|---|---|---|
| `Words.WrappedCheckIff` | kernel/fs/m13_vfs.c:150-154 | a bound check on a 64-bit sum agrees with the true sum exactly unless the sum wraps into the bound |
| `CStrings.StrCmp` | kernel/fs/m13_ramfs.c:6-21 | the compare loop returns 0 exactly on equal NUL-terminated strings |
| `CStrings.StrCpy` | kernel/fs/m13_ramfs.c:23-32 | the destination holds the source string and is unchanged behind its terminator |
| `CStrings.StrEq` | fs/mcsfs1/mcsfs1.c:17-34 | the compare loop decides equality of NUL-terminated strings |
| `CStrings.Length` | fs/mcsfs1/mcsfs1.c:5-15 | the loop counts the bytes before the terminator |
| `CStrings.CopyName` | fs/mcsfs1/mcsfs1.c:86-96 | the bounded copy stores the same string |
| `RamPool.ExtentsDisjoint` | kernel/fs/m13_ramfs.c:102-113 | extents of different vnodes share no byte of the pool |
| `RamPool.StoreOverlays` | kernel/fs/m13_vfs.c:156-174 | bytes stored inside one extent overlay that file and change no other file |
| `RamPool.AppendVnode` | kernel/fs/m13_ramfs.c:91-115 | filling the next vnode appends an empty file and keeps the others |
| `Vfs.RamFs.Init` | kernel/fs/m13_ramfs.c:34-55 | after initialisation the only vnode is the empty root |
| `Vfs.RamFs.Lookup` | kernel/fs/m13_ramfs.c:57-75 | the scan finds the lowest vnode of that name |
| `Vfs.RamFs.CreateFile` | kernel/fs/m13_ramfs.c:77-118 | creation appends an empty file, and fails exactly when 32 vnodes exist |
| `Vfs.RamFs.SeedFile` | kernel/fs/m13_ramfs.c:120-152 | seeding appends a file with the contents, or an empty one when they are too long |
| `Vfs.RamFs.Store` | kernel/fs/m13_vfs.c:156-165 | the byte loop stores the buffer and changes no other pool byte |
| `Vfs.RamFs.Load` | kernel/fs/m13_vfs.c:110-120 | the byte loop delivers the pool bytes and leaves the rest of the buffer |
| `Vfs.RamFs.StoreInto` | kernel/fs/m13_vfs.c:156-174 | a store inside a vnode's extent overlays its contents in place |
| `Vfs.FdTable.constructor` | kernel/fs/m13_vfs.c:16-25 | all descriptors of a fresh table are closed |
| `Vfs.FdTable.Open` | kernel/fs/m13_vfs.c:27-77 | state and result are those of the vnode list, all error paths included |
| `Vfs.FdTable.Read` | kernel/fs/m13_vfs.c:79-125 | state, result and delivered bytes are those of the vnode list, for any buffer that holds what is delivered; the unsigned subtraction never underflows |
| `Vfs.Remaining` | kernel/fs/m13_vfs.c:102-104 | with the offset inside the file the unsigned subtraction is the true difference |
| `Vfs.FdTable.Write` | kernel/fs/m13_vfs.c:127-177 | state and result are those of the vnode list |
| `Vfs.FdTable.Seek` | kernel/fs/m13_vfs.c:179-232 | state and result are those of exact signed seeking |
| `Vfs.NewOffset` | kernel/fs/m13_vfs.c:199-227 | the wrapped offset passes the size check exactly when the true position lies in the file, and then is that position |
| `Vfs.WrappedSeek` | kernel/fs/m13_vfs.c:203-227 | the same for every base and every int64 offset |
| `Vfs.FdTable.Close` | kernel/fs/m13_vfs.c:234-250 | the descriptor is closed, used or not; out of range is an error |
| `Vfs.FdTable.Execute` | kernel/fs/m13_vfs.c:27-250 | for any sequence of calls the arrays end in the state of the run and give every answer of the run |
| `FileModel.Resolves` | kernel/fs/m13_ramfs.c:57-75 | the first-match scan and the map from path to bytes agree on every path |
| `FileModel.AppendFile` | kernel/fs/m13_ramfs.c:77-118 | a new vnode adds its path to the map exactly when the name was not taken |
| `FileModel.UpdateFile` | kernel/fs/m13_vfs.c:156-174 | changing a resolved vnode changes its path in the map and no other |
| `FileModel.RefinesOpen` | kernel/fs/m13_vfs.c:27-77 | open on the vnode list is open on the path map: same result, same new state |
| `FileModel.RefinesRead` | kernel/fs/m13_vfs.c:79-125 | read on the vnode list is read on the path map |
| `FileModel.RefinesWrite` | kernel/fs/m13_vfs.c:127-177 | write on the vnode list is write on the path map |
| `FileModel.RefinesSeek` | kernel/fs/m13_vfs.c:179-232 | seek on the vnode list is seek on the path map |
| `FileModel.RefinesClose` | kernel/fs/m13_vfs.c:234-250 | close on the vnode list is close on the path map |
| `FileModel.RefinesSeed` | kernel/fs/m13_ramfs.c:120-152 | seeding on the vnode list is seeding on the path map; a taken name only uses up a vnode |
| `FileModel.StepRefines` | kernel/fs/m13_vfs.c:27-250 | every call keeps the invariant (offset within size within capacity) and refines the path map |
| `FileHistory.RunRefines` | kernel/fs/m13_vfs.c:27-250 | all answers and the final state of every run are those of the path map |
| `FileHistory.EveryCallRefines` | kernel/fs/m13_vfs.c:27-250 | after any run from initialisation any next call answers and acts as on the path map |
| `FileHistory.ContentsAreLastPuts` | kernel/fs/m13_vfs.c:156-174 | after any run each position of each path holds the last byte written or seeded there, and nothing else exists |
| `FileHistory.ReadsAreLastPuts` | kernel/fs/m13_vfs.c:102-124 | every byte a read delivers is the last byte an earlier write or seed put at that position |
| `FileHistory.ReachableOffsets` | kernel/fs/m13_vfs.c:150-174 | in every reachable state each open offset is within the vnode's size, which is within its extent, and at most 32 vnodes exist |
| `FileHistory.FailedOpen` | kernel/fs/m13_vfs.c:45-76 | a failing open changes nothing exactly unless it created the file and found no descriptor |
| `FileHistory.FailedOpenCreates` | kernel/fs/m13_vfs.c:45-76 | with 16 descriptors open, creating a path answers ENFILE and the path exists: it opens without O_CREAT once a descriptor is closed |
| `FileHistory.FailedSeed` | kernel/fs/m13_ramfs.c:126-138 | a failing seed changes nothing exactly unless a vnode was free and the contents too long |
| `FileHistory.FailedSeedCreates` | kernel/fs/m13_ramfs.c:126-138 | seeding more than an extent answers ENOSPC and leaves an empty file |
| `FileLaws.CreatesIsBit8` | kernel/fs/m13_vfs.c:41-43 | the creation flag is bit 8 of the flag word, whatever the other bits are |
| `FileLaws.CreatingOpen` | kernel/fs/m13_vfs.c:27-77 | from initialisation, opening a new path with any flags beside the creation flag gives descriptor 0 and an empty file, and without it ENOENT and no change |
| `FileLaws.OpenGives` | kernel/fs/m13_vfs.c:39-72 | a successful open takes the lowest free descriptor at offset 0 and creates a missing path as an empty file |
| `FileLaws.OpenFails` | kernel/fs/m13_vfs.c:39-76 | ENOENT, ENOSPC and ENFILE each exactly in their case |
| `FileLaws.NotOpen` | kernel/fs/m13_vfs.c:84-100 | read, write and seek on a descriptor that is not open answer EBADF and change nothing |
| `FileLaws.ReadDelivers` | kernel/fs/m13_vfs.c:102-124 | a read returns the number of bytes it delivers, short only at the end of the file, and moves the offset behind them |
| `FileLaws.ReadSplit` | kernel/fs/m13_vfs.c:102-124 | two reads in a row deliver what one of the joint size delivers |
| `FileLaws.WriteGives` | kernel/fs/m13_vfs.c:150-176 | a write is refused exactly beyond 256 bytes (0 for the root); otherwise it stores the bytes, moves the offset and changes no other file |
| `FileLaws.WriteReadsBack` | kernel/fs/m13_vfs.c:150-227 | seeking back and reading returns what was written |
| `FileLaws.WriteSplit` | kernel/fs/m13_vfs.c:150-176 | two writes in a row store what one of the joined bytes stores |
| `FileLaws.SeekMoves` | kernel/fs/m13_vfs.c:199-231 | the three kinds of seek move to the true position inside the file; every other whence and position answers EINVAL |
| `FileLaws.CloseFrees` | kernel/fs/m13_vfs.c:234-250 | closing frees exactly that descriptor |
| `FileLaws.SeedGives` | kernel/fs/m13_ramfs.c:120-152 | seeding a free name succeeds exactly with a vnode left and at most 256 bytes, which are then its contents |
| `FileLaws.Session` | kernel/fs/m13_vfs.c:27-250 | create, write, seek back, read and close answer as expected from any state with a vnode and a descriptor free, and leave the new file |
| `BlockDisk.ApplyAt` | kernel/fs/m16_journal.c:3-14 | after a list of byte stores each address holds the last byte stored there, or what it held |
| `BlockDisk.Redo` | kernel/fs/m16_journal.c:3-14 | a list of stores repeated after an interrupted attempt gives the result of doing it once |
| `BlockDisk.WriteThenRead` | kernel/block/m14_ramblk.c:52-84 | a block write sets its block and leaves every other block |
| `BlockDisk.CopyIsWriteBlock` | kernel/fs/m16_journal.c:128-138 | the byte copy of one entry is a block write |
| `BlockDisk.RamBlock.Read` | kernel/block/m14_ramblk.c:18-50 | the buffer receives the block, or is untouched when the block is out of range |
| `BlockDisk.RamBlock.Write` | kernel/block/m14_ramblk.c:52-84 | the storage becomes that of the block write, or is untouched when the block is out of range |
| `Journal.CrashRecovery` | kernel/fs/m16_journal.c:92-142 | a full replay after a replay stopped at any byte equals one undisturbed replay |
| `Journal.RepeatedCrashRecovery` | kernel/fs/m16_journal.c:92-142 | the same after any number of interrupted replays |
| `Journal.ReplayIdempotent` | kernel/fs/m16_journal.c:92-142 | replaying twice equals replaying once |
| `Journal.ReplayIsBlockWrites` | kernel/fs/m16_journal.c:111-141 | replay equals the block writes, in append order, of the entries before the first bad target |
| `Journal.BlockAfterReplay` | kernel/fs/m16_journal.c:111-141 | each block ends as the data of the last applied entry that names it, or unchanged |
| `Journal.FailedReplayHarmlessIff` | kernel/fs/m16_journal.c:122-126 | a replay that stops at a bad target changes no disk exactly when no valid entry precedes it |
| `Journal.RunHistory` | kernel/fs/m16_journal.c:28-90 | the entries are the first 32 appends since the last init or clear, committed says whether a commit followed, and fsck passes |
| `Journal.NoCommitNoChange` | kernel/fs/m16_journal.c:107-109 | without a commit since the last init or clear, replay succeeds and leaves the disk as it was |
| `Journal.StatusIff` | kernel/fs/m16_journal.c:101-141 | replay succeeds exactly with the magic number and, if committed, all targets on the disk; otherwise it reports corruption |
| `Journal.InactiveReplay` | kernel/fs/m16_journal.c:101-109 | without magic number or commit, replay leaves every disk alone |
| `Journal.FsckIff` | kernel/fs/m16_journal.c:144-182 | the check passes exactly with the magic number and at most 32 entries, and clearing does not repair the magic number |
| `CommitPoint.LateAppendsIff` | kernel/fs/m16_journal.c:53-77 | for every split point the journal keeps the entries it had there exactly when it was full or nothing was appended since |
| `CommitPoint.ReplayIsCommittedIff` | kernel/fs/m16_journal.c:80-142 | after any run the stores of a replay are those of the journal at the last commit exactly when it kept its entries or replay stops before the late ones |
| `CommitPoint.SameEffectIff` | kernel/fs/m16_journal.c:111-141 | two committed journals have the same effect on every disk exactly when each block's last applied data agree |
| `CommitPoint.EffectIsCommittedIff` | kernel/fs/m16_journal.c:80-142 | after any run replay acts on every disk as the journal at the last commit exactly when no block's last applied data differ |
| `CommitPoint.AppendBehindCommit` | kernel/fs/m16_journal.c:53-77 | a run in which an entry appended behind the commit is stored by replay |
| `Transactions.Completed` | kernel/fs/m16_journal.c:44-182 | append, commit, replay and clear per transaction amounts to issuing all block writes in order and leaves a clean journal |
| `Transactions.Atomicity` | kernel/fs/m16_journal.c:44-182 | stopped after any call or at any byte of any number of replays and then replayed, the disk holds the writes of exactly the committed transactions |
| `JournalDevice.Device.Init` | kernel/fs/m16_journal.c:28-42 | whatever memory held, the journal is empty, uncommitted and has its magic number |
| `JournalDevice.Device.Append` | kernel/fs/m16_journal.c:44-78 | the entry is appended, or the journal is full and unchanged |
| `JournalDevice.Device.Commit` | kernel/fs/m16_journal.c:80-90 | only the commit flag changes, and the call succeeds |
| `JournalDevice.Device.Clear` | kernel/fs/m16_journal.c:166-182 | entries and commit flag go, the magic number stays |
| `JournalDevice.Device.Check` | kernel/fs/m16_journal.c:144-164 | whatever memory holds, the check passes exactly when the magic number is right and the entry count is at most 32 |
| `JournalDevice.Device.Recover` | kernel/fs/m16_journal.c:92-142 | result and disk are those of replay, and the disk after each byte store is the corresponding crash point |
| `JournalDevice.Device.Execute` | kernel/fs/m16_journal.c:28-182 | for any sequence of calls and replays the structure and the disk end as in the run |
| `HeapModel.AllocTiles` | kernel/mm/kmem.c:36-68 | allocation, with or without a split, keeps the blocks tiling the heap |
| `HeapModel.TilesAddUp` | kernel/mm/kmem.c:15-63 | header and payload sizes add up to the heap size |
| `HeapModel.AllocCost` | kernel/mm/kmem.c:27-74 | a failure changes nothing; a success costs at least n and at most n plus a header of free bytes |
| `HeapModel.RunKeeps` | kernel/mm/kmem.c:15-85 | in every legal run the blocks tile the heap, live pointers own used blocks large enough, and used blocks have live pointers |
| `HeapModel.PointerIs` | kernel/mm/kmem.c:27-74 | NULL exactly when n is 0 or every free block is smaller than n, otherwise the lowest free block of n bytes or more |
| `HeapModel.FreeThenMalloc` | kernel/mm/kmem.c:27-85 | allocating, freeing and allocating the same size returns the same pointer and leaves the same blocks |
| `HeapModel.FreeGains` | kernel/mm/kmem.c:76-102 | freeing a block in use adds its size to the free bytes, freeing it again nothing |
| `HeapModel.ReturnedStaysFronted` | kernel/mm/kmem.c:36-85 | a pointer that kmalloc ever returned has a header in front of it ever after |
| `HeapModel.ReturnedIsLegal` | kernel/mm/kmem.c:76-85 | a run that frees only returned pointers, even twice, frees only at headers |
| `HeapModel.LiveAllocationsSafe` | kernel/mm/kmem.c:15-85 | after any legal run live allocations are pairwise disjoint, inside the heap and clear of every header |
| `HeapModel.RunNoSharing` | kernel/mm/kmem.c:27-85 | of two allocations of a run that overlap, the first was freed before the second was made |
| `HeapModel.FragmentationIsForever` | kernel/mm/kmem.c:27-85 | once every block is smaller than n, no later legal run makes an allocation of n succeed |
| `KernelHeap.Heap.constructor` | kernel/mm/kmem.c:15-25 | one free block fills the buffer |
| `KernelHeap.Heap.Kmalloc` | kernel/mm/kmem.c:27-74 | null exactly when n is 0 or every free block is smaller than n, otherwise the address behind the header of the lowest free block of n bytes or more; the list becomes that of the block sequence |
| `KernelHeap.Heap.Walk` | kernel/mm/kmem.c:34-71 | following the next pointers finds the first free block of n bytes or more, and null exactly when every free block is smaller |
| `KernelHeap.Heap.Split` | kernel/mm/kmem.c:42-63 | the new header is written where none stands, linked behind the taken part, and the list stays well formed |
| `KernelHeap.Heap.LinkAfter` | kernel/mm/kmem.c:56-60 | inserting a header behind another keeps one acyclic chain from the head to null |
| `KernelHeap.Heap.Kfree` | kernel/mm/kmem.c:76-85 | the header in front of the pointer is marked free and nothing else changes |
| `KernelHeap.Heap.Execute` | kernel/mm/kmem.c:27-85 | for any legal sequence of calls the list ends as in the run, every pointer is that of the run, allocations overlap only after a free, and live ones are safe |
| `KernelHeap.Heap.FreeCount` | kernel/mm/kmem.c:87-102 | the walk returns the sum of the free blocks' sizes without wrapping |
| `PhysicalMemory.BitFrames` | kernel/core/pmm.c:3-13 | setting or clearing a bit of a byte changes that bit alone |
| `PhysicalMemory.SetBitAt` | kernel/core/pmm.c:3-13 | setting or clearing a bit of the bitmap changes that bit alone |
| `PhysicalMemory.FrameAllocator.constructor` | kernel/core/pmm.c:24-77 | after boot exactly frame 0 and the uncovered frames are in use, and the counters lag by the boot gap |
| `PhysicalMemory.FrameAllocator.CounterLaws` | kernel/core/pmm.c:69-72 | in every state free plus used counter is the frame count and clear frames minus free counter is the boot gap, modulo 2^64 |
| `PhysicalMemory.FrameAllocator.Alloc` | kernel/core/pmm.c:79-95 | the lowest clear frame and no other is taken and counted, or none is clear |
| `PhysicalMemory.FrameAllocator.Free` | kernel/core/pmm.c:97-116 | exactly a used, aligned, existing frame is cleared, it alone, and both counters follow; anything else is refused and changes nothing |
| `PhysicalMemory.FrameAllocator.Reserve` | kernel/core/pmm.c:118-144 | exactly the existing frames of the range, start and length rounded down, are in use afterwards beside those that were |
| `PhysicalMemory.FrameAllocator.IsFree` | kernel/core/pmm.c:146-157 | whether the frame exists and is clear |
| `PhysicalMemory.FrameAllocator.Execute` | kernel/core/pmm.c:79-144 | for any sequence of calls bitmap, counters and results are those of the run; legal runs give each frame one owner and only usable frames |
| `FrameModel.RunKeepsBooks` | kernel/core/pmm.c:79-144 | over every run the counters keep a constant distance from the number of clear frames |
| `FrameModel.WrappedBooks` | kernel/core/pmm.c:69-72 | in 64-bit counters: free plus used is the frame count, and clear frames minus free counter is the gap, modulo 2^64 |
| `FrameModel.AllocTakes` | kernel/core/pmm.c:79-95 | allocation fails exactly when every frame is in use; otherwise the lowest clear frame and no other becomes used and counted |
| `FrameModel.FreeGives` | kernel/core/pmm.c:97-116 | exactly the address of a frame in use is freed: it alone becomes clear and counted, and the next allocation returns it or a lower one |
| `FrameModel.AllocThenFree` | kernel/core/pmm.c:79-116 | freeing what was just allocated restores flags and counters |
| `FrameModel.ReserveSets` | kernel/core/pmm.c:118-144 | the frames of the range rounded down are in use, all others as before, and the counters move by the frames that were clear |
| `FrameModel.ReserveCoversIff` | kernel/core/pmm.c:118-144 | a reservation covers every byte of its range, whatever was in use, exactly when start and length are whole frames |
| `FrameModel.RegionInsideIff` | kernel/core/pmm.c:45-66 | a usable region gives its frames rounded down; they lie inside it exactly when its start is a whole frame or it has none |
| `FrameModel.BootClearIff` | kernel/core/pmm.c:39-72 | boot leaves clear exactly the usable frames other than 0 and the clear tail bits |
| `FrameModel.BootGapExact` | kernel/core/pmm.c:39-72 | the gap is 0 exactly when frame 0 is covered and the tail bits were set; with whole bytes it is otherwise 1 |
| `FrameModel.RunKeeps` | kernel/core/pmm.c:79-144 | in every run that frees only what it was handed, held and reserved frames are in use and disjoint |
| `FrameModel.AllocationIsExclusive` | kernel/core/pmm.c:79-95 | after any such run allocation fails exactly when no frame is clear, and otherwise hands out the lowest clear frame, unheld, unreserved, not frame 0 and usable |
| `FrameModel.RunOneOwner` | kernel/core/pmm.c:79-116 | in a run that frees only what it was handed, between two allocations that return the same frame it was freed |
| `FrameModel.RunOnlyUsable` | kernel/core/pmm.c:24-95 | every frame a run hands out after boot is a whole frame other than 0 from a usable region or the unblanked tail |
| `LockModel.StepInv` | kernel/sync/m12_spinlock.c:14-37 | every atomic step keeps: lock word 0 exactly when nobody is inside, at most one inside, loaded values current |
| `LockModel.MutualExclusion` | kernel/sync/m12_spinlock.c:14-37 | for any threads and any interleaving at most one thread is inside, and the lock word says whether one is |
| `LockModel.NoLostUpdate` | kernel/core/kmain.c:56-74 | split read-and-write increments under the lock are all counted, modulo 2^64 |
| `LockModel.LockedOut` | kernel/sync/m12_spinlock.c:14-29 | while a thread is inside, steps of others move neither it nor the counter nor the lock |
| `LockModel.Section` | kernel/core/kmain.c:56-74 | take, load, store, release adds one to the counter and frees the lock, whatever others do in between |
| `LockModel.NoDeadlock` | kernel/sync/m12_mutex.c:9-25 | a waiting thread gets in with its next exchange, or with the one after the holder's release |
| `LockModel.ReleaseSafeIff` | kernel/sync/m12_spinlock.c:31-37 | no schedule after a release puts two threads inside exactly when its caller holds the lock or nobody does |
| `LockModel.RogueRelease` | kernel/sync/m12_mutex.c:19-25 | a release of a lock that another thread holds lets every thread outside join the holder |
| `LockModel.RogueRun` | kernel/sync/m12_mutex.c:9-25 | a run from the initial state in which that happens |
| `SharedFs.WriteIsolatedIff` | kernel/fs/m15_mcsfs1.c:121-155 | a write leaves another file alone for all contents exactly when the written range misses its extent |
| `SharedFs.SharedExtent` | kernel/fs/m15_mcsfs1.c:106-107 | two files created before the first write share their bytes |
| `SharedFs.ReadCount` | kernel/fs/m15_mcsfs1.c:157-184 | a read returns the number of bytes delivered: what was asked for or the whole file; a missing name is refused |
| `SharedFs.WriteReadsBack` | kernel/fs/m15_mcsfs1.c:121-184 | a write fails exactly on a missing name or at the end of the area; otherwise it returns its size and reading returns its bytes |
| `SharedFs.CreateReadsEmpty` | kernel/fs/m15_mcsfs1.c:85-119 | creation fails exactly at 32 inodes; otherwise a new name reads as empty from the end of the last write and no other file changes |
| `SharedFs.OrderedRun` | kernel/fs/m15_mcsfs1.c:85-155 | in disciplined runs extents are ordered and disjoint and data_used is the end of the last |
| `SharedFs.ReadsLastPut` | kernel/fs/m15_mcsfs1.c:157-184 | in disciplined runs a read delivers a prefix of the last successful write to that name and returns its length |
| `SharedFsDevice.Mcsfs.FindInode` | kernel/fs/m15_mcsfs1.c:45-65 | the scan finds the lowest inode of that name |
| `SharedFsDevice.Mcsfs.Init` | kernel/fs/m15_mcsfs1.c:67-83 | no inode is left and the data area is untouched |
| `SharedFsDevice.Mcsfs.Create` | kernel/fs/m15_mcsfs1.c:85-119 | an empty inode at the current end of data, or the table is full |
| `SharedFsDevice.Mcsfs.Write` | kernel/fs/m15_mcsfs1.c:121-155 | the extent, size and end of data after a write, and the error paths |
| `SharedFsDevice.Mcsfs.Read` | kernel/fs/m15_mcsfs1.c:157-184 | the first bytes of the file, at most as many as asked for, and their number |
| `SharedFsDevice.Mcsfs.Execute` | kernel/fs/m15_mcsfs1.c:67-184 | for any sequence of calls the arrays end as in the run; in disciplined runs every file reads back its last write |
| `InodeFs.CallRefines` | fs/mcsfs1/mcsfs1.c:64-179 | every call acts as on a map from name to bytes; creating a taken name uses an inode and changes no contents |
| `InodeFs.RunRefines` | fs/mcsfs1/mcsfs1.c:49-179 | all answers and the final contents of every run are those of the map of names |
| `InodeFs.CreateReadsEmpty` | fs/mcsfs1/mcsfs1.c:64-107 | creation fails exactly for long names and at 32 inodes; otherwise the name exists, a new one is empty, and no other file changes |
| `InodeFs.PutReadsBack` | fs/mcsfs1/mcsfs1.c:109-179 | a write fails exactly above 256 bytes or on a missing name; otherwise reading returns its bytes and their number |
| `InodeFs.GetCount` | fs/mcsfs1/mcsfs1.c:145-179 | a read returns the number of bytes delivered: what was asked for or the whole file |
| `InodeFs.Mcsfs1.Init` | fs/mcsfs1/mcsfs1.c:49-62 | no inode is used |
| `InodeFs.Mcsfs1.Create` | fs/mcsfs1/mcsfs1.c:64-107 | the next inode is taken, and used inodes stay a prefix; names too long and full tables are refused |
| `InodeFs.Mcsfs1.Write` | fs/mcsfs1/mcsfs1.c:109-143 | the lowest inode of that name holds the new bytes |
| `InodeFs.Mcsfs1.Read` | fs/mcsfs1/mcsfs1.c:145-179 | the first bytes of the lowest inode of that name |
| `InodeFs.Mcsfs1.Execute` | fs/mcsfs1/mcsfs1.c:64-179 | for any sequence of calls the inode array gives the answers and contents of the map of names |
| `PageTable.CanonicalExactIff` | kernel/core/vmm.c:14-19 | the test admits every canonical address and is exact except where bit 47 differs from the bits above |
| `PageTable.PagesCount` | kernel/core/vmm.c:43-58 | an empty slot is left exactly when fewer than 256 pages are mapped |
| `PageTable.StepRefines` | kernel/core/vmm.c:21-111 | map and unmap act as on a finite map of pages; mapping a valid page fails exactly when 256 are mapped |
| `PageTable.RunRefines` | kernel/core/vmm.c:21-111 | in every run that maps only unmapped pages the slots are that finite map, every call answers as on it, queries agree with it and addresses are page-aligned |
| `PageTable.MapSucceedsIff` | kernel/core/vmm.c:14-59 | a mapping succeeds exactly for whole pages and frames outside the non-canonical range when a slot is left, and else changes nothing |
| `PageTable.UnmapSucceedsIff` | kernel/core/vmm.c:90-111 | an unmap succeeds exactly when a slot holds the page, and else changes nothing |
| `PageTable.OtherPages` | kernel/core/vmm.c:21-111 | no call changes what another page is mapped to |
| `PageTable.MapVisibleIff` | kernel/core/vmm.c:43-88 | after a mapping a query returns the new target exactly when the page had no slot below the hole taken or its first slot held that target |
| `PageTable.UnmapCompleteIff` | kernel/core/vmm.c:90-111 | after a successful unmap the page is gone exactly when it had no second slot |
| `PageTable.MappedTwice` | kernel/core/vmm.c:43-111 | a run that maps a page twice: the first target stays in force, and one unmap brings out the second |
| `PageTable.Table.MapPage` | kernel/core/vmm.c:21-59 | the first empty slot is taken for an acceptable page, otherwise nothing changes |
| `PageTable.Table.Query` | kernel/core/vmm.c:61-88 | the first slot of that page, or failure |
| `PageTable.Table.UnmapPage` | kernel/core/vmm.c:90-111 | the first slot of that page is emptied, or nothing changes |
| `PageTable.Table.Execute` | kernel/core/vmm.c:21-111 | for any sequence of calls on an empty table the slots and answers are those of the run, and of the finite map when only unmapped pages are mapped |
| `Scheduler.BoundedWaiting` | kernel/core/thread.c:33-90 | from any reachable state a created thread is selected within 16 yields, however creation is mixed in |
| `Scheduler.CountIs` | kernel/core/thread.c:33-70 | the thread count is the number of creations with entry and stack, up to 16 |
| `Scheduler.CreatedIsSelected` | kernel/core/thread.c:33-90 | each of the first 16 such creations gets a thread that is selected within 16 yields |
| `Scheduler.RoundRobin` | kernel/core/thread.c:72-90 | with n threads fixed, of any n consecutive yields exactly one selects each thread |
| `Scheduler.Threads.Spawn` | kernel/core/thread.c:33-70 | the count grows by one, or creation fails and nothing changes |
| `Scheduler.Threads.YieldNow` | kernel/core/thread.c:72-90 | the index moves one place round |
| `ElfPlan.AlignTrick` | kernel/user/m11_elf_loader.c:84-91 | the bit test accepts exactly the powers of two |
| `ElfPlan.VerdictIff` | kernel/user/m11_elf_loader.c:68-96 | each verdict on a segment names the first check it fails, with the 64-bit bounds check said in true sums |
| `ElfPlan.VerdictExactIff` | kernel/user/m11_elf_loader.c:68-96 | Ok means that the rules hold exactly unless the file range wraps into the image and nothing else is wrong |
| `ElfPlan.WrappedSegmentPasses` | kernel/user/m11_elf_loader.c:78-82 | a segment whose file range wraps passes although it lies outside the image |
| `ElfPlan.PlanLoad` | kernel/user/m11_elf_loader.c:20-101 | status of the first failing check, entry point, number of loadable segments before it; success exactly for accepted images |
| `ElfPlan.Scan` | kernel/user/m11_elf_loader.c:62-101 | the loop stops at the first failing program header and counts the loadable ones before it |
| `ElfPlan.AcceptedIff` | kernel/user/m11_elf_loader.c:20-101 | an image is accepted exactly when its header is right, its table lies inside it and every loadable segment passes, wrapping ranges included |
| `ElfPlan.AcceptedExactIff` | kernel/user/m11_elf_loader.c:20-101 | acceptance means that all loadable segments follow the rules exactly unless the image passes with a segment that wraps |
| `ElfPlan.WrappedImageAccepted` | kernel/user/m11_elf_loader.c:20-101 | a 68-byte image is accepted although its segment lies outside it |
| `ElfPlan.HeaderVerdictIff` | kernel/user/m11_elf_loader.c:20-56 | each answer to the file header exactly in its case, in the order of the checks |
| `ElfPlan.OtherKinds` | kernel/user/m11_elf_loader.c:68-71 | program headers of other kinds are passed over |
| `ElfPlan.LoadsCount` | kernel/user/m11_elf_loader.c:98-98 | the count is the number of loadable program headers |
| `ElfImage.SegmentReadBack` | kernel/include/mcsos/user/m11_elf_loader.h:33-46 | a packed program header reads back field by field |
| `ElfImage.HeaderReadBack` | kernel/include/mcsos/user/m11_elf_loader.h:20-31 | the packed file header reads back field by field |
| `ElfImage.ImageReadBack` | kernel/user/m11_elf_loader.c:26-66 | any image written with any headers at any table offset is read as written |
| `ElfImage.WrittenAcceptedIff` | kernel/user/m11_elf_loader.c:20-101 | such an image is accepted exactly when its entry is in user space and every loadable segment passes |

## Left out

- Serial port, interrupt controllers, timer, descriptor tables, trap dispatch, panic, boot protocol: hardware effects.
- The system call switch, the lock-depth counter, number printing and the memory helpers of `kernel/lib`: each is
  settled by reading one short body.
- Control registers, TLB invalidation, the context switch and thread stacks: an entry is opaque, only the thread index
  moves; whether a stack could be allocated is an input of `Scheduler.Threads.Spawn`.
- Null pointer arguments, pointer alignment and struct padding: buffers are typed and present.
- Relaxed memory ordering: lock steps are sequentially consistent, and there is no fairness assumption, so nothing is
  said about how long one thread may spin.
- Dispatch of block reads and writes through stored function pointers: it forwards its arguments unchanged.
- A descriptor table over several RAM file systems at once: the model has one file system per table.
- Access modes, O_TRUNC and O_APPEND: the code stores the flags and never looks at them; only O_CREAT is tested.
- `Vfs.FdTable.Open`: requires a name shorter than 32 bytes when it will create the file, because the string copy is
  unbounded; the same holds for seeding and for names in kernel MCSFS1 (64 bytes).
- `Vfs.FdTable.Write`: requires a size below 2^64 - 256, because beyond that the sum in its check wraps
  (`Words.WrappedCheckIff`); the same holds for kernel MCSFS1.
- `JournalDevice.Device.Recover`: requires at most 32 entries, which replay does not check itself, and a disk that
  holds the given number of blocks.
- `KernelHeap.Heap.Kfree`: requires a pointer with a header of the list in front of it; other pointers overwrite
  arbitrary memory in the kernel. Addresses are numbers, and the buffer is a map from address to header.
- `Vfs.FdTable.Read`: requires a buffer that holds the bytes delivered; the kernel writes behind a shorter one.
- `Transactions.Atomicity`: append, commit and clear are single steps; the journal structure itself survives a crash
  between them and is not torn inside one.
- `ElfPlan.PlanLoad`: requires that the program header table does not wrap round the address space; otherwise the kernel
  reads outside the image.
- `PhysicalMemory.FrameAllocator.constructor`: requires one bitmap byte even for no frames, since frame 0 is always set.
