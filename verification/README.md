# Verified models of an operating-system course repository

Dafny models of the cores of the repository's programs, and proofs about them: the xv6 kernel and user programs of the
three operating-system assignments, and the parallel quadratic sieve.

- **Redo log, buffer cache, files** (`RedoLog`, `LogSystem`, `LogCapacity`, `LogOverrun`, `Bio`, `LogCode`, `Blocks`,
  `Files`). The write-ahead log is modelled twice: as a state machine whose steps are single block writes, interleaved
  operations, crashes and reboots, shown to refine an atomic store; and as the code itself over a buffer cache with its
  linked list, where every contents the disk has on the way is shown to recover to the old or the new state. Above it,
  files are byte arrays over a bitmap allocator.
- **User heap** (`FreeList`, `Umalloc`). The K&R allocator: a circular, address-ordered, coalescing free list in memory.
- **Paging** (`PageTables`, `FrameCount`, `Paging`) and **swapping** (`Swap`, `SwapBudget`, `SwapCode`). Two-level page
  tables in physical memory with the linked page allocator, on every failure path and with the exact number of frames
  each operation needs; and swapping that no process can see.
- **Sleep locks** (`SleepLock`) over `sleep`, `wakeup`, `kill` and the scheduler, in every interleaving; and the
  **priority scheduler** (`Scheduler`) with its bound on waiting.
- **grep's matcher** (`Grep`) against the language of its patterns, and the **shell's parser** (`ShellGrammar`,
  `ShellLanguage`, `ShellParser`, `ShellRoundTrip`) on its shared buffer, against a grammar.
- **Quadratic sieve** (`NumberTheory`, `Residues`, `FactorBase`, `Smoothness`, `Gf2`, `Elimination`, `Congruence`,
  `Sieving`) and its bit-packed elimination (`Bits64`, `PackedElimination`, `PackedCode`). Euler's criterion is proved
  from Wilson's theorem, so the factor base is known by what it contains.

`dafny verify dfyconfig.toml` checks everything.

## What the proofs found

Where the code falls short of what it is for, the model keeps the code, and the exact condition is a theorem.

- `mkfs.c:25` gives the log LOGSIZE blocks, one of which is the header, so a transaction the reservations allow can be
  refused; reserved fresh blocks always fit if and only if `log.size > LOGSIZE` (`LogCapacity.FreshBlocksFitIff`).
- `log.c:218` tests the log's size without the lock, so two operations can both pass with one block left, and commit
  writes past the log over a block of the file system. Commits stay inside the log, and crashes are atomic, if and only
  if the log has more than LOGSIZE blocks, or no fewer than the cache has buffers, or none but its header
  (`LogOverrun.LogIsSafeExactly`). The log of `mkfs.c:25` is safe only because NBUF is no larger than LOGSIZE
  (`LogOverrun.ShippedLogIsSafe`).
- For that overrun pins every buffer: a commit of NBUF blocks finds no buffer for a log block and panics in bget before
  it writes (`LogCode.CommitMayFindAllPinned`). `LogCode.Log.Commit` completes if and only if fewer than NBUF blocks
  are logged.
- A full log panics even for a block it would absorb (`LogCapacity.FullLogRefusesAbsorption`), although the comment
  at `log.c:225` promises absorption.
- malloc's unit count wraps for requests near 2^32, and the byte count morecore gives to sbrk is a signed 32-bit number:
  from 2^28 units on, sbrk succeeds without granting them, and the free list claims memory that was never obtained. A
  request that sbrk has to serve is served right if and only if it is for at most 2^31 - 16 bytes
  (`Umalloc.RequestsServed`, `Umalloc.GrantedExactly`).
- swap_alloc tests its loop counter against NSWAPBLOCKS instead of NSWAPSLOTS, so with a full table it hands out slot 0
  again. Swapping out keeps the slots right if and only if one is free (`Swap.SwapOutKeepsExactly`), and is seen by no
  process if and only if one is free or the page in slot 0 is the victim's over again (`Swap.SwapOutSeenExactly`).
- swap_out panics when the process with the highest rss has no resident page. With true counters that is when no
  process has one; with a counter too high it can be when others have (`SwapBudget.WrongCounterPanics`). How a run of
  swap-outs and faults fails is settled by which there was more of at its start, resident pages or free slots
  (`SwapCode.SwapSystem.Run`).
- kfree of the swapping kernel does not count up from zero, so kalloc's swap-out with no page free leaves the count one
  short (`Swap.SwapOutMiscounts`). A right count stays right over a run if and only if no kfree finds it at 0
  (`SwapBudget.CountStaysRight`, `SwapCode.SwapSystem.Run`), and a count that is k short shifts the range in which kalloc
  swaps ahead by k pages (`SwapBudget.GateShifts`).
- `>>` parses to the same redirection as `>` (`sh.c:565`), so appending is lost (`ShellGrammar.LineOverwrite`) and the
  printer has one form for both.
- The packed elimination adds as many tracking blocks as a matrix row has, whatever a tracking row has. It runs in
  bounds and is right for all matrices of n rows and w columns if and only if, for n >= 2 and w >= 1, a tracking row has
  no fewer blocks than a matrix row and n is at most one more than the bits in those; otherwise it can read and write
  past a tracking row, or return a selection that is no dependency (`PackedElimination.PackedIsRightExactly`).
- adaptive_swap's percentages round down, so Th stops falling at 9, not at 0, and an Npg of 3 or less would never grow
  (`SwapBudget.PaceSettles`).
- The priority scheduler starves without aging: waiting is bounded if and only if ALPHA + BETA > 0
  (`Scheduler.BoundedExactlyWithAging`).

## Model

| member | source | states |
|---|---|---|
| `RedoLog.HeaderRoundTrip` | Implement System Call in xv6 COL633_A1/log.c:86-113 | reading back a written header gives the number and the names written |
| `RedoLog.EmptyLogRecovers` | Implement System Call in xv6 COL633_A1/log.c:115-122 | with n = 0 in the header, recovery changes no block |
| `RedoLog.LogBlockWriteInvisible` | Implement System Call in xv6 COL633_A1/log.c:176-190 | while the header says 0, a write to a log block changes neither what recovery gives for any home block nor its well-formedness |
| `RedoLog.HeaderWriteCommits` | Implement System Call in xv6 COL633_A1/log.c:98-113 | the single header write takes the disk from recovering to the old home blocks to recovering to the logged ones |
| `RedoLog.RecoveredIsView` | Implement System Call in xv6 COL633_A1/log.c:192-202 | when the log holds the cached contents of the logged blocks, the recovered home blocks are exactly the cache's view |
| `RedoLog.InstallStepInvisible` | Implement System Call in xv6 COL633_A1/log.c:68-82 | installing any one logged block does not change what recovery yields |
| `RedoLog.ClearInvisible` | Implement System Call in xv6 COL633_A1/log.c:115-122 | once all blocks are installed, clearing the header does not change the home blocks recovery yields |
| `RedoLog.RecoveredTwice` | Implement System Call in xv6 COL633_A1/log.c:115-122 | recovery is idempotent: recovering a recovered disk changes nothing |
| `LogSystem.StepRefines` | Implement System Call in xv6 COL633_A1/log.c:124-233 | for every log that is never overrun, every step of the interleaved system (begin_op, log_write, end_op, each single block write of commit and of recovery, a crash, a reboot) keeps the invariant and is one step, or none, of an atomic store |
| `LogSystem.RunKeepsInv` | Implement System Call in xv6 COL633_A1/log.c:124-233 | that invariant holds in every state of every run, with any number of crashes and any interleaving |
| `LogSystem.StepKeepsBookkeeping` | Implement System Call in xv6 COL633_A1/log.c:124-233 | in a log of any size, every step keeps the reservations: lh.n plus what outstanding operations may still log never exceeds LOGSIZE, logged names stay distinct, and outstanding counts the operations under way |
| `LogSystem.RecoveryIsAtomic` | Implement System Call in xv6 COL633_A1/log.c:115-122 | wherever a run crashes, recovery yields exactly what was in the cache at the run's last header write of a commit (or on disk at its start), for every log that is never overrun |
| `LogSystem.RecoveryCompletes` | Implement System Call in xv6 COL633_A1/log.c:115-122 | from any crash on recovery can run to its end, and the file system then sees what was committed last |
| `LogSystem.CommitsWhileIdle` | Implement System Call in xv6 COL633_A1/log.c:152-173 | in a log of any size, a commit begins and runs with no operation under way, so what it commits is whole operations |
| `LogSystem.LastEndCommits` | Implement System Call in xv6 COL633_A1/log.c:145-174 | in a log of any size, end_op begins a commit exactly when the operation it ends was the last one under way, and leaves what was logged and cached as it was |
| `LogSystem.BeginWaitsExactly` | Implement System Call in xv6 COL633_A1/log.c:126-141 | begin_op waits exactly while a commit runs or the log has no room for one more full reservation |
| `LogSystem.NothingPending` | Implement System Call in xv6 COL633_A1/log.c:145-174 | in every reachable state of a log that is never overrun in which no operation and no commit is under way, the log is empty, recovery yields all that is in the cache, and any process may begin an operation |
| `LogSystem.CommitCompletes` | Implement System Call in xv6 COL633_A1/log.c:192-202 | every commit that has begun, unless it will find all buffers pinned, can run to its end, with what was in the cache when the last operation ended then at home on the disk |
| `LogSystem.CommitIsAllOrNothing` | Implement System Call in xv6 COL633_A1/log.c:192-202 | a crash and recovery during a commit leave the contents before it until the header is written, and those after it from then on |
| `LogSystem.EndOpNeverPanics` | Implement System Call in xv6 COL633_A1/log.c:145-174 | the committing panic of end_op is unreachable, in a log of any size |
| `LogSystem.AppendFits` | Implement System Call in xv6 COL633_A1/log.c:126-141 | a reserved fresh block always finds a free entry in the header, in a log of any size |
| `LogSystem.PanicsExactly` | Implement System Call in xv6 COL633_A1/log.c:145-233 | a crash may come in any state; a step panics exactly in log_write on a full log or outside a transaction, in end_op during a commit, and in a commit or recovery past the disk or with every buffer pinned, and in a log that is never overrun only the full log and the pinned buffers remain |
| `LogSystem.KeepsInBounds` | Implement System Call in xv6 COL633_A1/log.c:213-233 | the bounds that the steps rely on hold in every reachable state of a log of any size, so they never hold a step back |
| `LogSystem.InitInv` | Implement System Call in xv6 COL633_A1/log.c:53-66 | the invariants hold of any disk with an empty log before the first boot |
| `LogCapacity.CheckRefusesOnlyWhenFull` | Implement System Call in xv6 COL633_A1/log.c:213-221 | for a log larger than LOGSIZE, an operation within its reservation is refused by log_write only when the log holds LOGSIZE blocks |
| `LogCapacity.FreshBlocksFitIff` | Implement System Call in xv6 COL633_A1/log.c:213-221 | a fresh block within the reservation is never refused if and only if log.size > LOGSIZE |
| `LogCapacity.FullLogRefusesAbsorption` | Implement System Call in xv6 COL633_A1/log.c:213-230 | a reachable full log panics even for a block it already holds, because the size test comes before the search |
| `LogOverrun.Overruns` | Implement System Call in xv6 COL633_A1/log.c:213-230 | a log of two to LOGSIZE blocks and a larger cache: two operations pass the size test together, the commit writes past the log, and after a crash a block of the file system has another's uncommitted contents |
| `LogOverrun.LogIsSafeExactly` | Implement System Call in xv6 COL633_A1/log.c:213-230 | no reachable commit writes outside the log, and every crash recovers the last committed contents, if and only if the log has more than LOGSIZE blocks, or no fewer than the cache, or only its header |
| `LogOverrun.LogFillsUp` | Implement System Call in xv6 COL633_A1/log.c:213-230 | a log of two to LOGSIZE blocks reaches a commit with one entry more than it has blocks |
| `LogOverrun.ShippedLogIsSafe` | Implement System Call in xv6 COL633_A1/param.h:11-12 | a log of LOGSIZE blocks recovers atomically if and only if the cache has no more buffers than that |
| `Bio.BufferCache.constructor` | Implement System Call in xv6 COL633_A1/bio.c:38-56 | binit leaves a ring of all NBUF buffers and an empty, coherent cache |
| `Bio.BufferCache.FindCached` | Implement System Call in xv6 COL633_A1/bio.c:68-76 | the forward scan finds the buffer of the block exactly when one has that identity |
| `Bio.BufferCache.FindVictim` | Implement System Call in xv6 COL633_A1/bio.c:78-92 | the backward scan finds the least recently released buffer that is neither referenced nor dirty, or none if there is none |
| `Bio.BufferCache.Bget` | Implement System Call in xv6 COL633_A1/bio.c:61-93 | returns the one buffer of the block, referenced and locked; a dirty or referenced buffer is never recycled; panics exactly when the block is not cached and no buffer is eligible, and waits, holding a reference, exactly when the cached buffer is held |
| `Bio.BufferCache.Iderw` | Implement System Call in xv6 COL633_A1/memide.c:38-60 | the synchronous disk: writes a dirty buffer out or reads the block in, and appends the new disk contents to the trace |
| `Bio.BufferCache.Bread` | Implement System Call in xv6 COL633_A1/bio.c:95-106 | the buffer returned holds the last contents written to that block through the cache; panics and waits as bget does |
| `Bio.BufferCache.Bwrite` | Implement System Call in xv6 COL633_A1/bio.c:108-116 | the block on disk becomes the buffer's contents and nothing else changes; panics exactly when the caller does not hold the buffer |
| `Bio.BufferCache.Brelse` | Implement System Call in xv6 COL633_A1/bio.c:118-141 | drops one reference; at the last one the buffer moves to the front, so the list stays ordered by last release; the cache goes on agreeing with the disk exactly when the buffer's changes were written or logged |
| `Bio.BufferCache.MoveToFront` | Implement System Call in xv6 COL633_A1/bio.c:130-138 | the six pointer assignments turn the ring into the same ring with that buffer first |
| `Bio.GetKeeps` | Implement System Call in xv6 COL633_A1/bio.c:68-76 | taking a reference to a cached buffer keeps the ring and the coherence with disk and view |
| `Bio.RecycleKeeps` | Implement System Call in xv6 COL633_A1/bio.c:81-91 | giving a clean free buffer a new identity keeps them, and no block gets two buffers |
| `Bio.MoveToFrontKeeps` | Implement System Call in xv6 COL633_A1/bio.c:118-141 | the splice keeps a permutation of all buffers linked both ways, newest release first, and neither makes nor mends a disagreement with the disk |
| `Bio.MovedPermutation` | Implement System Call in xv6 COL633_A1/bio.c:130-138 | moving an entry to the front of a permutation gives a permutation |
| `Bio.ReleaseKeeps` | Implement System Call in xv6 COL633_A1/bio.c:118-128 | releasing a buffer keeps the cache in agreement with the disk exactly when it is dirty or its contents are on disk |
| `LogCode.Log.ReadHead` | Implement System Call in xv6 COL633_A1/log.c:84-96 | lh becomes the names in the header block, through the cache, and nothing else changes |
| `LogCode.Log.WriteHead` | Implement System Call in xv6 COL633_A1/log.c:98-113 | one disk write: the header block with the in-memory names; needs one buffer free of pins |
| `LogCode.Log.WriteLog` | Implement System Call in xv6 COL633_A1/log.c:176-190 | every disk contents on the way still recovers to the old home blocks; completes exactly when a buffer is left beside the pinned ones |
| `LogCode.Log.InstallTrans` | Implement System Call in xv6 COL633_A1/log.c:68-82 | copies every logged block home and unpins it; every disk contents on the way recovers to the same home blocks |
| `LogCode.Log.Commit` | Implement System Call in xv6 COL633_A1/log.c:192-202 | every disk contents during commit recovers to all of the old or all of the new home blocks; afterwards the home blocks are the cached ones and the log is empty; completes exactly when fewer than NBUF blocks are logged |
| `LogCode.Log.RecoverFromLog` | Implement System Call in xv6 COL633_A1/log.c:115-122 | the home blocks become what recovery promises, every intermediate disk recovers to the same, and the header says 0 |
| `LogCode.Log.EndOp` | Implement System Call in xv6 COL633_A1/log.c:145-174 | the last end_op commits: when it returns, all that is in the cache is at home on the disk and the log is empty; an earlier one touches neither; it panics exactly during a commit or when its commit finds every buffer pinned |
| `LogCode.Log.LogWrite` | Implement System Call in xv6 COL633_A1/log.c:204-233 | the block is logged once and pinned dirty; the two panics exactly as written |
| `LogCode.DirtyCount` | Implement System Call in xv6 COL633_A1/bio.c:78-82 | with distinct blocks per buffer, fewer dirty blocks than buffers means some buffer is clean |
| `LogCode.LogBlockFits` | Implement System Call in xv6 COL633_A1/log.c:182-189 | with every buffer pinned there is no buffer for a log block, and otherwise both buffers of the copy can be had |
| `LogCode.CommitMayFindAllPinned` | Implement System Call in xv6 COL633_A1/log.c:192-202 | commit can meet a cache with every buffer pinned, also with a log of LOGSIZE blocks |
| `Files.BitsAfter` | Implement System Call in xv6 COL633_A1/fs.c:64-67 | setting or clearing bit k of a bitmap byte changes bit k and no other |
| `Files.MarkedAfter` | Implement System Call in xv6 COL633_A1/fs.c:57-95 | marking or unmarking a block in the bitmap changes the mark of that block and of no other |
| `Files.AllocKeeps` | Implement System Call in xv6 COL633_A1/fs.c:54-78 | a block free in the bitmap belongs to no inode, and allocating and zeroing it keeps ownership unique and all contents |
| `Files.FillKeeps` | Implement System Call in xv6 COL633_A1/fs.c:373-405 | entering an allocated block in an empty slot of addrs or of the indirect block keeps every block marked and owned once |
| `Files.OverwriteKeeps` | Implement System Call in xv6 COL633_A1/fs.c:503-510 | writing a data block of one file changes no other file |
| `Files.FileSystem.RoundTrip` | Implement System Call in xv6 COL633_A1/fs.c:457-516 | what writei has written at an offset, readi reads back there, exactly when the write has the free blocks it takes; other files are unchanged |
| `Files.GrownIsOverlay` | Implement System Call in xv6 COL633_A1/fs.c:511-514 | when a file has grown, the new size exposes exactly the old contents overlaid with the data |
| `Files.FreeStep` | Implement System Call in xv6 COL633_A1/fs.c:411-439 | while an inode is truncated its next block is still marked, so bfree does not panic, and freeing it frees no other |
| `Files.FreedIsOk` | Implement System Call in xv6 COL633_A1/fs.c:411-439 | after truncation every remaining block is owned once and marked, and every other file reads as before |
| `Files.FileSystem.Balloc` | Implement System Call in xv6 COL633_A1/fs.c:54-78 | takes the first free block, marks and zeroes it; fails exactly when all are marked |
| `Files.FileSystem.Bfree` | Implement System Call in xv6 COL633_A1/fs.c:80-95 | clears the block's mark; panics exactly when the block is free |
| `Files.FileSystem.Bmap` | Implement System Call in xv6 COL633_A1/fs.c:373-405 | gives the disk block of a file block through addrs or the indirect block, allocating what is missing, and keeps every file; succeeds exactly in range and with as many free blocks as slots are missing on the way, each of which takes one |
| `Files.FileSystem.Readi` | Implement System Call in xv6 COL633_A1/fs.c:454-483 | returns exactly the requested slice of the file, cut at its end; -1 exactly for an offset past the end or a sum that wraps; nothing changes |
| `Files.FileSystem.Writei` | Implement System Call in xv6 COL633_A1/fs.c:485-516 | the file becomes its old contents overlaid with src at off, and all other files are unchanged; -1 exactly in the three error cases; otherwise it fails exactly when there are fewer free blocks than the slots it has to fill, the indirect block's own among them |
| `Files.FileSystem.Itrunc` | Implement System Call in xv6 COL633_A1/fs.c:406-439 | frees exactly the blocks the inode owned, each once, empties the inode and changes no other file |
| `FreeList.InsertKeepsCoalesced` | Implement System Call in xv6 COL633_A1/umalloc.c:24-44 | inserting a block and merging with its neighbours leaves an ascending list with no two adjacent blocks |
| `FreeList.InsertHolds` | Implement System Call in xv6 COL633_A1/umalloc.c:33-42 | after free, the list holds exactly the old free addresses and those of the block |
| `FreeList.TakeHolds` | Implement System Call in xv6 COL633_A1/umalloc.c:75-82 | after malloc, the list holds exactly the old free addresses without those handed out |
| `FreeList.Canonical` | Implement System Call in xv6 COL633_A1/umalloc.c:24-44 | a coalesced list is determined by the set of free addresses |
| `FreeList.InsertCommutes` | Implement System Call in xv6 COL633_A1/umalloc.c:24-44 | freeing two blocks in either order gives the same list |
| `FreeList.InsertUndoesTake` | Implement System Call in xv6 COL633_A1/umalloc.c:24-90 | freeing what malloc just cut off restores the list exactly |
| `FreeList.InsertUnits` | Implement System Call in xv6 COL633_A1/umalloc.c:33-42 | free adds exactly the block's units to the list |
| `FreeList.TakeUnits` | Implement System Call in xv6 COL633_A1/umalloc.c:75-82 | malloc takes exactly the requested units from the list |
| `Umalloc.UnitsSuffice` | Implement System Call in xv6 COL633_A1/umalloc.c:69 | the unit count covers the request and its header exactly unless the 32-bit sum wraps |
| `Umalloc.RequestsServed` | Implement System Call in xv6 COL633_A1/umalloc.c:46-70 | the units asked for hold the request, and a region for them holds the units, if and only if nbytes <= 2^31 - 16 |
| `Umalloc.InsertLinked` | Implement System Call in xv6 COL633_A1/umalloc.c:33-42 | the pointer and size updates of free turn the memory of one list into the memory of the list with the block inserted and merged |
| `Umalloc.PlaceExists` | Implement System Call in xv6 COL633_A1/umalloc.c:30-32 | a block disjoint from the free blocks has a place in address order |
| `Umalloc.InsertKeepsOthers` | Implement System Call in xv6 COL633_A1/umalloc.c:33-42 | free changes only headers of the list and of the block |
| `Umalloc.FreeKeepsClaimed` | Implement System Call in xv6 COL633_A1/umalloc.c:24-44 | free and live blocks together cover the same units before and after a free |
| `Umalloc.TakeKeepsClaimed` | Implement System Call in xv6 COL633_A1/umalloc.c:75-84 | and before and after malloc hands a block out |
| `Umalloc.GrowClaims` | Implement System Call in xv6 COL633_A1/umalloc.c:46-61 | morecore makes them cover its new region in full |
| `Umalloc.GrantedExactly` | Implement System Call in xv6 COL633_A1/umalloc.c:54-58 | what sbrk granted for the 32-bit signed byte count is the region the new header claims if and only if nu * 8 < 2^31 |
| `Umalloc.ScanEnd` | Implement System Call in xv6 COL633_A1/umalloc.c:74-88 | when malloc's scan is back at freep, no free block is large enough |
| `Umalloc.Heap.Search` | Implement System Call in xv6 COL633_A1/umalloc.c:29-32 | free's search terminates, at the node after which the block belongs, wherever it starts |
| `Umalloc.Heap.Free` | Implement System Call in xv6 COL633_A1/umalloc.c:24-44 | the heap stays valid, the block is no longer live, the free list gains exactly its units, and blocks and units obtained cover each other exactly when they did |
| `Umalloc.Heap.Morecore` | Implement System Call in xv6 COL633_A1/umalloc.c:46-61 | on success a block of at least 4096 and at least nu units is on the free list, on failure nothing changes; free and live blocks are still exactly the units obtained from sbrk if and only if the byte count stayed positive or sbrk failed |
| `Umalloc.Heap.Malloc` | Implement System Call in xv6 COL633_A1/umalloc.c:63-90 | terminates with at most one call of morecore; returns a live block of exactly the units, or 0 exactly when nothing fits and sbrk fails; every unit handed out or free was obtained exactly unless it had to ask for 2^28 units or more |
| `PageTables.SlotSetOwns` | Implement System Call in xv6 COL633_A1/vm.c:35-56 | when one slot of an address space changes, it owns what it owned, less the old frame, plus the new one |
| `PageTables.WithTablePtes` | Implement System Call in xv6 COL633_A1/vm.c:43-54 | hanging an empty page table into the directory changes no mapping |
| `PageTables.WithPtePtes` | Implement System Call in xv6 COL633_A1/vm.c:60-80 | writing one entry changes the mapping of exactly that page |
| `Paging.Vm.constructor` | Implement System Call in xv6 COL633_A1/kalloc.c:30-53 | after freerange the free list holds exactly the whole pages between vstart and vend, each once |
| `Paging.Vm.Kalloc` | Implement System Call in xv6 COL633_A1/kalloc.c:79-95 | hands out the head of the linked free list; fails exactly when it is empty |
| `Paging.Vm.Kfree` | Implement System Call in xv6 COL633_A1/kalloc.c:54-77 | the page, filled with junk, becomes the head of the free list; panics exactly on an address that is no whole page of the allocator's |
| `Paging.Vm.Walk` | Implement System Call in xv6 COL633_A1/vm.c:32-56 | finds the page table of a page, or makes an empty one if asked, taking one free frame exactly when there was none; no mapping changes and free and owned frames stay the same as a whole |
| `Paging.Vm.MapPages` | Implement System Call in xv6 COL633_A1/vm.c:57-80 | adds exactly the requested pages, in order, mapped to consecutive frames; out of memory it has added a prefix; a page that is already mapped is never overwritten |
| `Paging.Vm.DeallocUvm` | Implement System Call in xv6 COL633_A1/vm.c:250-279 | unmaps exactly the pages from PGROUNDUP(newsz) up to oldsz, also when it skips a missing table, frees their frames once each, and keeps all other contents |
| `Paging.Vm.AllocUvm` | Implement System Call in xv6 COL633_A1/vm.c:219-248 | maps fresh zeroed user pages exactly from PGROUNDUP(oldsz) up to newsz; it succeeds exactly when none of them was mapped and there are frames for them and for their missing page tables, panics exactly when there are enough to come to one that was mapped, and otherwise unmaps the whole range again |
| `Paging.Vm.FreeVm` | Implement System Call in xv6 COL633_A1/vm.c:281-298 | every frame the space owned is free, each once, and nothing else changed |
| `Paging.Vm.SetupKvm` | Implement System Call in xv6 COL633_A1/vm.c:118-136 | a space with exactly the kernel's mappings made of free frames, exactly when there are frames for the directory and for the page tables of the rows; otherwise the same frames are free as before |
| `Paging.Vm.CopyUvm` | Implement System Call in xv6 COL633_A1/vm.c:313-345 | the child has the parent's pages with equal contents and flags on frames that were free, the kernel mappings, and nothing else, and the parent is unchanged; it is made exactly when no page of the parent is missing and there are frames for all it needs, panics exactly when there are enough to come to a missing page, and otherwise gives every frame back |
| `Paging.ChildNeedsIs` | Implement System Call in xv6 COL633_A1/vm.c:313-345 | a child of n pages needs a directory, a page table for each range of the kernel mappings, n pages, and a page table for every 1024 of them |
| `Paging.LimboFreed` | Implement System Call in xv6 COL633_A1/vm.c:230-244 | giving back a page whose table could not be allocated leaves the free and owned frames as if it had never been taken |
| `Paging.SkipTable` | Implement System Call in xv6 COL633_A1/vm.c:265-268 | jumping to the end of a missing table passes no mapped page |
| `Paging.Untouched` | Implement System Call in xv6 COL633_A1/vm.c:313-345 | a space none of whose frames was free is the same, with the same contents, after any work done on frames that were |
| `Swap.SlotsDisjoint` | Memory organization and Page replacement policy COL633_A3/pageswap.c:98-110 | the eight blocks of each slot lie in the swap area and are no other slot's |
| `Swap.PageAtWithPage` | Memory organization and Page replacement policy COL633_A3/pageswap.c:236-262 | writing a page to a slot and reading slots back gives that page for it and the old pages for the others |
| `Swap.ClearAccessedKeeps` | Memory organization and Page replacement policy COL633_A3/pageswap.c:333-342 | clearing PTE_A changes nothing else in an entry |
| `Swap.SwapOutKeeps` | Memory organization and Page replacement policy COL633_A3/pageswap.c:370-404 | with a free slot, swapping a page out keeps the invariant and what every process sees at every page: bytes and U/W permission |
| `Swap.SwapOutWhenFull` | Memory organization and Page replacement policy COL633_A3/pageswap.c:124-136 | with every slot used, slot 0 is given out again: the page that was in it, another than the victim's, is the victim's bytes from then on, and the victim's page has that one's permissions |
| `Swap.SwapOutKeepsExactly` | Memory organization and Page replacement policy COL633_A3/pageswap.c:370-404 | swapping out keeps the invariant if and only if some slot is free |
| `Swap.SwapOutSeenExactly` | Memory organization and Page replacement policy COL633_A3/pageswap.c:370-404 | swapping out is seen by no process if and only if some slot is free or the page in slot 0 has the victim page's bytes and permissions |
| `Swap.SwapOutCountsExactly` | Memory organization and Page replacement policy COL633_A3/kalloc.c:98-104 | a right count of free pages is right after a swap-out if and only if some page was free before it |
| `Swap.SwapOutMiscounts` | Memory organization and Page replacement policy COL633_A3/kalloc.c:98-104 | a state with no page free and the count 0, in which the count is wrong after swapping out |
| `Swap.SwapInKeeps` | Memory organization and Page replacement policy COL633_A3/pageswap.c:414-444 | bringing a page back in keeps the invariant and every view |
| `SwapBudget.OutcomeExactly` | Memory organization and Page replacement policy COL633_A3/pageswap.c:370-404 | with true rss counters, k swap-outs in a row succeed if and only if there are k resident pages and k free slots; they panic if the pages run out no later than the slots, and share slot 0 otherwise |
| `SwapBudget.CanOutExactly` | Memory organization and Page replacement policy COL633_A3/pageswap.c:184-200 | with true counters the chosen victim has a page if and only if any process in use has one |
| `SwapBudget.WrongCounterPanics` | Memory organization and Page replacement policy COL633_A3/pageswap.c:378-383 | with an rss that is too high, swap_out panics although another process has a page |
| `SwapBudget.GateShifts` | Memory organization and Page replacement policy COL633_A3/kalloc.c:130-132 | a count that falls short by some pages shifts the range of free pages in which kalloc swaps ahead by as many, at both ends |
| `SwapBudget.PaceSettles` | Memory organization and Page replacement policy COL633_A3/pageswap.c:456-464 | over any number of swaps, Th falls to 9 and no further (from 9 or less it does not move), and Npg rises by at least one a time to LIMIT (from 3 or less it does not move) |
| `SwapBudget.CountStaysRight` | Memory organization and Page replacement policy COL633_A3/kalloc.c:98-104 | over any run, a count that was right is right if and only if no kfree since has found it at 0 |
| `SwapCode.SwapSystem.FindVictimProcess` | Memory organization and Page replacement policy COL633_A3/pageswap.c:184-200 | the victim has the most resident pages, then the lowest pid; none exactly when no used process has any count above -1 |
| `SwapCode.SwapSystem.FindVictimPage` | Memory organization and Page replacement policy COL633_A3/pageswap.c:323-348 | second chance: the first resident page not accessed, else the first resident page; the accessed bits passed over are cleared, unseen by anyone |
| `SwapCode.SwapSystem.SwapAlloc` | Memory organization and Page replacement policy COL633_A3/pageswap.c:124-136 | the first free slot, marked used with the permission; slot 0, unchanged, when there is none |
| `SwapCode.SwapSystem.SwapWrite` | Memory organization and Page replacement policy COL633_A3/pageswap.c:236-248 | the disk with the page in its slot |
| `SwapCode.SwapSystem.SwapRead` | Memory organization and Page replacement policy COL633_A3/pageswap.c:250-262 | the frame holds the page of the slot |
| `SwapCode.SwapSystem.Kfree` | Memory organization and Page replacement policy COL633_A3/kalloc.c:84-110 | the page becomes the first free one; a right count stays right exactly when it was not 0 |
| `SwapCode.SwapSystem.SwapOut` | Memory organization and Page replacement policy COL633_A3/pageswap.c:370-404 | moves the chosen victim's chosen page, frees its frame, and is seen by no process while a slot is free; panics exactly when no used process has rss > -1 or the victim has no resident page, and shares slot 0 exactly when it does not panic and no slot is free |
| `SwapCode.SwapSystem.AdaptiveSwap` | Memory organization and Page replacement policy COL633_A3/pageswap.c:456-485 | swaps Npg pages out, unseen, exactly when fewer than Th are counted free, and then moves Th and Npg on by one step, otherwise leaving both; ends as that many swap-outs in a row do |
| `SwapCode.SwapSystem.Kalloc` | Memory organization and Page replacement policy COL633_A3/kalloc.c:112-167 | returns a frame neither free nor mapped, whatever was swapped out for it, unseen by every process; ends as the swap-outs it needs do; Th and Npg move on exactly when it swaps ahead |
| `SwapCode.SwapSystem.HandlePgfault` | Memory organization and Page replacement policy COL633_A3/pageswap.c:414-444 | the faulting page is resident with the bytes and permissions it had, its slot is free, and no view changes, including through swap-outs inside its own kalloc; panics exactly on a page that is not swapped or as kalloc does |
| `SwapCode.SwapSystem.Run` | Memory organization and Page replacement policy COL633_A3/pageswap.c:370-444 | over any run of swap-outs and accesses with their faults, no process sees any change, and a page just accessed is resident; with true counters it fails by sharing a slot only if there were more resident pages than free slots at the start, by a panic only if there were not, and goes well when there are enough of both; the count of free pages stays right exactly while no kfree finds it at 0 |
| `SleepLock.RunKeepsInv` | Implement System Call in xv6 COL633_A1/sleeplock.c:22-54 | every interleaving of acquiresleep, releasesleep, holdingsleep, sleep, wakeup, kill, yield and the scheduler keeps the invariant, and no panic of acquire, release or sched is reached |
| `SleepLock.StepNoPanic` | Implement System Call in xv6 COL633_A1/proc.c:423-440 | sched is entered with ptable.lock, no other modelled spinlock, and a process no longer RUNNING; locks are released only by their holders |
| `SleepLock.MutualExclusion` | Implement System Call in xv6 COL633_A1/sleeplock.c:22-42 | at most one process owns the sleep lock, from taking it through whatever it does inside to giving it up |
| `SleepLock.NoLostWakeup` | Implement System Call in xv6 COL633_A1/proc.c:475-532 | whenever the spinlock is free and locked is 0, no process is asleep on the lock or committed to sleeping on it |
| `SleepLock.TakenMeansOwned` | Implement System Call in xv6 COL633_A1/sleeplock.c:22-54 | locked is set exactly while some process owns the lock, an owner never sleeps on it, and holdingsleep answers exactly |
| `SleepLock.HoldersCanGoOn` | Implement System Call in xv6 COL633_A1/proc.c:475-532 | no deadlock between the two spinlocks: a holder of ptable.lock can always step, and with it free so can the holder of the other |
| `SleepLock.GoesAhead` | Implement System Call in xv6 COL633_A1/proc.c:423-556 | in every reachable state exactly these actions go ahead: a process on a CPU waits only for a spinlock that is not free, one switched out until it is RUNNABLE and picked, and one outside may make any call but to acquire what it owns or release what it does not |
| `SleepLock.StuckMeansWaiting` | Implement System Call in xv6 COL633_A1/sleeplock.c:22-54 | no deadlock: when nothing but a new call is possible, both spinlocks are free, every process is outside or asleep, and nobody is asleep on the lock unless a process owns it |
| `SleepLock.KilledWasAsked` | Implement System Call in xv6 COL633_A1/proc.c:534-556 | no process is ever marked as killed but by a kill called for it; the pid of a lock nobody has taken is 0 |
| `SleepLock.PanicsExactly` | Implement System Call in xv6 COL633_A1/spinlock.c:24-70 | in any state, reachable or not, a step panics exactly when it takes a spinlock its process holds, drops one it does not hold, or enters sched without ptable.lock, with the other spinlock, or still RUNNING |
| `SleepLock.StepNoneMissed` | Implement System Call in xv6 COL633_A1/proc.c:512-532 | each single step keeps every sleeper covered by a set lock or by a wakeup scan that has not passed it |
| `SleepLock.WakeupAndKill` | Implement System Call in xv6 COL633_A1/proc.c:512-556 | in every reachable state and for every channel, a wakeup has left no process behind it asleep on its channel; a kill that has found its target leaves it marked and awake, and one that has scanned the whole table had no target there |
| `SleepLock.StepOnOther` | Implement System Call in xv6 COL633_A1/proc.c:512-556 | a step changes another process only by waking the sleeper its wakeup has come to or killing the target of its kill: nobody is woken or marked otherwise |
| `SleepLock.RunServes` | Implement System Call in xv6 COL633_A1/proc.c:475-556 | in every run each process is in the call it began last, on the channel or with the target it gave, or has come out of it as the owner exactly if that call was acquiresleep, or owned the lock before any call but releasesleep |
| `SleepLock.PickPlace` | Implement System Call in xv6 COL633_A1/proc.c:423-440 | a process picked by a scheduler has been switched out, and resumes owning ptable.lock |
| `Scheduler.BestIsTheMaximum` | Signal Handling And Scheduling COL633_A2/proc.c:708-741 | the choice is the unique eligible maximum by priority, then lowest pid; none exactly when none is above the threshold |
| `Scheduler.Cpu.Choose` | Signal Handling And Scheduling COL633_A2/proc.c:704-741 | the scan returns that choice and marks the processes it saw as started |
| `Scheduler.Cpu.Schedule` | Signal Handling And Scheduling COL633_A2/proc.c:702-770 | one turn of the loop is Turn: what that means for the process dispatched and for the others is RunAccounts, TurnPriorities and BoundedWaiting |
| `Scheduler.RunAccounts` | Signal Handling And Scheduling COL633_A2/proc.c:719-763 | over any run a process is charged exactly the ticks it ran for, one context switch is counted for each time it was dispatched after another process, it is killed exactly when it was dispatched and has used up its exec_time (or had been killed before), and the time it was first seen is never overwritten |
| `Scheduler.TurnPriorities` | Signal Handling And Scheduling COL633_A2/proc.c:725-729 | a turn lowers the dispatched process against every other by (ALPHA + BETA) per tick it ran and changes no other difference |
| `Scheduler.BoundShrinks` | Signal Handling And Scheduling COL633_A2/proc.c:725-770 | every dispatch of another process lowers the waiting bound by at least one |
| `Scheduler.BoundedWaiting` | Signal Handling And Scheduling COL633_A2/proc.c:702-770 | a waiting process is dispatched after at most the sum over rivals at or above it of floor(difference / (ALPHA + BETA)) + 1 other dispatches |
| `Scheduler.BoundIsLeast` | Signal Handling And Scheduling COL633_A2/proc.c:702-770 | that bound is exact: for every state of a waiting process and one rival with a lower pid it is the least one |
| `Scheduler.BoundedExactlyWithAging` | Signal Handling And Scheduling COL633_A2/proc.c:729 | with non-negative weights, waiting is bounded for every table if and only if ALPHA + BETA > 0 |
| `Grep.ShowParse` | Implement System Call in xv6 COL633_A1/grep.c:66-97 | every pattern string is the written form of the pattern it is read as |
| `Grep.ParseShow` | Implement System Call in xv6 COL633_A1/grep.c:66-97 | a pattern is read back from its written form if and only if that is unambiguous: no plain character before a *, no plain $ in the last place, no unanchored ^ in front |
| `Grep.StarLanguage` | Implement System Call in xv6 COL633_A1/grep.c:98-106 | a starred item takes nothing, or one fitting character and then what it might have taken anyway |
| `Grep.MatchesFromSuffix` | Implement System Call in xv6 COL633_A1/grep.c:72-82 | a match somewhere is a match at the start of some suffix |
| `Grep.MatchHere` | Implement System Call in xv6 COL633_A1/grep.c:84-96 | true exactly when a prefix of the text (all of it after $) is in the language; terminates |
| `Grep.MatchStar` | Implement System Call in xv6 COL633_A1/grep.c:98-106 | the same for c* followed by the rest |
| `Grep.Match` | Implement System Call in xv6 COL633_A1/grep.c:72-82 | true exactly when some substring of the text, anchored as the pattern says, is in the language of the pattern |
| `ShellGrammar.LineParse` | Implement System Call in xv6 COL633_A1/sh.c:518-533 | parsing the tokens printed for any legal tree, with parentheses only where precedence needs them, gives the tree and stops where the print ends |
| `ShellGrammar.PipeParse` | Implement System Call in xv6 COL633_A1/sh.c:535-546 | the same at the level of pipes, which group to the right |
| `ShellGrammar.ExecParse` | Implement System Call in xv6 COL633_A1/sh.c:573-620 | the same for simple commands, redirections and blocks |
| `ShellGrammar.ParseShowParse` | Implement System Call in xv6 COL633_A1/sh.c:501-620 | whatever the parser accepts is a legal tree, and printing and parsing it again gives it back |
| `ShellLanguage.LineExactly` | Implement System Call in xv6 COL633_A1/sh.c:518-620 | the parser reads a line, all of it, as a tree if and only if the grammar, stated apart from the parser, makes it a line of that tree: parts joined by ;, each a pipeline with any number of &, of commands with arguments and redirections in any order or lines in parentheses with redirections |
| `ShellLanguage.LineOnce` | Implement System Call in xv6 COL633_A1/sh.c:501-516 | that grammar gives a line at most one tree, and the lines refused are exactly those it gives none |
| `ShellLanguage.CommandParse` | Implement System Call in xv6 COL633_A1/sh.c:548-620 | after any command of the grammar parseexec has its tree and goes on with what follows |
| `ShellGrammar.LineWordsKept` | Implement System Call in xv6 COL633_A1/sh.c:518-620 | the words of the tree and of the rest are the words of the line: none lost, invented or duplicated |
| `ShellGrammar.LineOverwrite` | Implement System Call in xv6 COL633_A1/sh.c:551-567 | a line is read alike, or refused alike, with >> written as >: appending is lost on the parser |
| `ShellParser.WordsAreSpans` | Implement System Call in xv6 COL633_A1/sh.c:439-482 | every word token is a maximal run of word characters |
| `ShellParser.CutsMissWords` | Implement System Call in xv6 COL633_A1/sh.c:622-667 | no NUL put after a word falls inside another word |
| `ShellParser.Parser.GetToken` | Implement System Call in xv6 COL633_A1/sh.c:439-482 | returns the next token of the line and moves past it and the blanks after it |
| `ShellParser.Parser.Peek` | Implement System Call in xv6 COL633_A1/sh.c:484-494 | skips blanks without consuming a token, and tells whether the next one starts with a given symbol |
| `ShellParser.Parser.DoLine` | Implement System Call in xv6 COL633_A1/sh.c:518-533 | agrees with the token-level parser on tree, error and position; terminates |
| `ShellParser.Parser.DoPipe` | Implement System Call in xv6 COL633_A1/sh.c:535-546 | the same for parsepipe |
| `ShellParser.Parser.DoRedirs` | Implement System Call in xv6 COL633_A1/sh.c:548-571 | the same for parseredirs |
| `ShellParser.Parser.DoBlock` | Implement System Call in xv6 COL633_A1/sh.c:573-587 | the same for parseblock |
| `ShellParser.Parser.DoExec` | Implement System Call in xv6 COL633_A1/sh.c:589-620 | the same for parseexec, with its argument limit |
| `ShellParser.Parser.NulTerminate` | Implement System Call in xv6 COL633_A1/sh.c:622-667 | writes a NUL at the end of exactly the words of the tree |
| `ShellParser.Parser.ParseCmd` | Implement System Call in xv6 COL633_A1/sh.c:501-516 | accepts exactly the lines the grammar consumes whole; then every word pointer of the tree is the C string of its token |
| `ShellRoundTrip.LineText` | Implement System Call in xv6 COL633_A1/sh.c:518-533 | the parser does not look inside words: parsing commutes with replacing places by their text |
| `ShellRoundTrip.RoundTrip` | Implement System Call in xv6 COL633_A1/sh.c:436-620 | for every legal command tree, the characters printed for it parse back to it and are all consumed |
| `Gf2.CombineAssociates` | Quadractic_Sieve_COL759_A2/working.cpp:142-151 | combining rows that are themselves combinations is combining the originals |
| `Gf2.AddRowKeepsBasis` | Quadractic_Sieve_COL759_A2/working.cpp:144-150 | adding one row to another keeps the rows a basis |
| `Elimination.ReduceCorrect` | Quadractic_Sieve_COL759_A2/working.cpp:122-154 | throughout, tracking matrix times input is the current matrix, and pivot columns are unit columns |
| `Elimination.DependenciesSound` | Quadractic_Sieve_COL759_A2/working.cpp:155-171 | exactly rows minus pivots dependencies are returned, each non-empty and summing to zero mod 2 |
| `Elimination.DependenciesComplete` | Quadractic_Sieve_COL759_A2/working.cpp:155-171 | every selection of rows summing to zero is a combination of returned ones |
| `Elimination.DependenciesIndependent` | Quadractic_Sieve_COL759_A2/working.cpp:155-171 | in exactly one way: the returned ones are independent |
| `Elimination.FindDependencies` | Quadractic_Sieve_COL759_A2/working.cpp:108-172 | the in-place elimination returns a basis of the even selections, at least rows minus columns of them |
| `PackedElimination.LowIsPlain` | Quadractic_Sieve_COL759_A2/submit.cpp:159-170 | tracking additions that stop at column h lose nothing with at most h + 1 rows |
| `PackedElimination.TwinsGoWrong` | Quadractic_Sieve_COL759_A2/submit.cpp:164-167 | with h + 2 rows there is a matrix for which a single relation with odd exponents is returned |
| `PackedElimination.SameRowsOverrun` | Quadractic_Sieve_COL759_A2/submit.cpp:136-138 | with two rows or more and fewer blocks in a tracking row than in a matrix row, two equal rows make a row addition run past the tracking row |
| `PackedElimination.PackedIsRightExactly` | Quadractic_Sieve_COL759_A2/submit.cpp:119-200 | for all n and w, the packed elimination runs in bounds and equals the plain one on every matrix of n rows and w columns if and only if n <= 1, or w = 0, or ceil(w / 64) <= ceil(n / 64) and n <= 64 * ceil(w / 64) + 1 |
| `Bits64.BitXor` | Quadractic_Sieve_COL759_A2/submit.cpp:164-167 | exclusive or of words is exclusive or of every bit |
| `Bits64.NoBits` | Quadractic_Sieve_COL759_A2/submit.cpp:177-182 | a word is 0 exactly when none of its 64 bits is set |
| `PackedCode.ConvertToBitPacked` | Quadractic_Sieve_COL759_A2/submit.cpp:97-117 | each packed row has exactly the bits of its row, and zeros past its end |
| `PackedCode.FindDependenciesOptimized` | Quadractic_Sieve_COL759_A2/submit.cpp:119-200 | comes out as the bounded elimination says, overrun or not, and returns the plain dependencies, a kernel basis, whenever the numbers of rows and columns suit |
| `Smoothness.FactorizeQx` | Quadractic_Sieve_COL759_A2/working.cpp:60-85 | returns a vector exactly when Q is a product of base entries, and then the only one |
| `Smoothness.GeneratePrimes` | Quadractic_Sieve_COL759_A2/working.cpp:8-28 | exactly the primes up to the limit, ascending |
| `Smoothness.ValuationUnique` | Quadractic_Sieve_COL759_A2/working.cpp:73-79 | trial division finds the one possible exponent of each prime |
| `Residues.ProductOfAll` | Quadractic_Sieve_COL759_A2/working.cpp:38-52 | when n is a square modulo an odd prime p that does not divide it, the product of all numbers below p is -n^((p-1)/2) modulo p; for n = 1 this is the theorem of Wilson |
| `Residues.EulersCriterion` | Quadractic_Sieve_COL759_A2/working.cpp:40-51 | the power that legendreSymbol computes is 1 exactly if a is a square modulo p, and p - 1 exactly if it is not (or p is 2) |
| `FactorBase.LegendreExactly` | Quadractic_Sieve_COL759_A2/working.cpp:30-52 | for every prime p the symbol is 0, 1 or -1 exactly when p divides a, a is another square modulo p, or a is no square modulo p |
| `FactorBase.BuildFactorBase` | Quadractic_Sieve_COL759_A2/working.cpp:247-275 | -1 and then, ascending, exactly the primes up to the limit that do not divide n and modulo which n is a square |
| `FactorBase.SmoothExactly` | Quadractic_Sieve_COL759_A2/working.cpp:53-85 | no smooth number is lost by leaving out the other primes: over that base Q(x) is smooth if and only if it is not 0 and all its prime factors are within the limit and do not divide n |
| `Congruence.CongruenceOfSquares` | Quadractic_Sieve_COL759_A2/working.cpp:439-470 | for every dependency the exponent sums are even and a*a and b*b are congruent mod n |
| `Congruence.GcdOfDifference` | Quadractic_Sieve_COL759_A2/working.cpp:471-478 | the gcd always divides n, is n exactly when a is congruent to b, and can be 1 only when a is congruent to -b; so with neither it is a proper divisor |
| `Congruence.SquareRoots` | Quadractic_Sieve_COL759_A2/working.cpp:440-470 | the loops compute the product of x + m and the product of base powers with halved exponents, mod n |
| `Congruence.TryDependency` | Quadractic_Sieve_COL759_A2/working.cpp:439-486 | a reported factor is a proper divisor whose complement multiplies back to n; whenever a is not congruent to b or -b one is reported |
| `Congruence.FindFactor` | Quadractic_Sieve_COL759_A2/working.cpp:437-490 | a reported factor is proper; none is reported only if every dependency has a congruent to b or -b |
| `Sieving.RangesTile` | Quadractic_Sieve_COL759_A2/working.cpp:299-322 | for every number of ranks the ranges tile [x_min, x_max] exactly once, in order |
| `Sieving.SieveRange` | Quadractic_Sieve_COL759_A2/working.cpp:324-335 | the smooth x of the range in order, with their exponent vectors |
| `Sieving.Gatherv` | Quadractic_Sieve_COL759_A2/working.cpp:337-383 | the parts laid out by displacement are their concatenation |
| `Sieving.Reshape` | Quadractic_Sieve_COL759_A2/working.cpp:385-396 | cutting the flat exponents into rows undoes the flattening |
| `Sieving.Sieve` | Quadractic_Sieve_COL759_A2/working.cpp:299-396 | for every number of ranks the root has the relations of a single rank, in the same order |
| `Sieving.QuadraticSieve` | Quadractic_Sieve_COL759_A2/working.cpp:247-490 | the whole program: any factor reported is a proper divisor of n, and none is reported only if no x of the range is smooth over the factor base for m = floor(sqrt(n)), or every dependency has a congruent to b or -b |

## Left out

- Spinlocks, interrupts and sleeping inside the cache, the log code and the file code: `Bio`, `LogCode` and `Files` run one process at a time, with a buffer's sleep lock as a field; the interleavings are in `LogSystem` and `SleepLock`.
- `Files` works on what bread returns for each block and does not go through `Log` and `BufferCache` again; log_write's limits on one transaction are in `LogSystem`.
- Device inodes, iupdate and the on-disk inode format, directories, path names and link counts.
- Devices other than disk 1 in the cache; the swap area is a disk of its own (`pageswap.c:243` reads device 0, while `mkfs.c` of that tree reserves the blocks in the file-system image).
- `Log.Commit` and the other methods of `LogCode` leave out waiting for a buffer another process holds; in `LogSystem` an operation always gets the buffer it modifies, and buffers that are only read are not counted.
- sbrk is a parameter of the heap methods, a function of its signed byte count; users writing into live blocks, addresses that wrap around, and what writing a header beyond the break does are not modelled.
- Paging.Vm.MapPages: requires user pages to get frames of the allocator that are neither free nor owned, because its callers pass pages fresh from kalloc; two mappings of one frame are not modelled.
- Paging.Vm.Kfree: requires that the page is not free already, because the source does not notice and its free list becomes a loop.
- `Paging` starts from an allocator and a memory; loading segments, the TLB, clearpteu, uva2ka and copyout are left out. The rows of kmap are a parameter, since the address of `data` comes from the linker.
- Swapping: fork, the rss counts outside swap_out and the fault (with them the counters may be wrong, so what needs true counters says so), freeing of slots at exit, a process killed by a fault it cannot handle, and user writes between steps. Page tables are maps there; `PageTables` shows what the two levels stand for.
- SwapCode.SwapSystem.SwapOut: after `Full` or `Panicked` it promises only the counts, because the kernel stops or, with a full table, has already lost a page (`Swap.SwapOutWhenFull` says which).
- SwapCode.SwapSystem.Run: does not go on past a full slot table, for the same reason.
- `SleepLock` models one sleep lock in full and all other channels and locks as other channels; process creation and exit, and the per-CPU interrupt counters behind pushcli and popcli, are left out.
- Scheduler.BoundedWaiting: is for a table in which no process becomes runnable that was not, because a stream of new arrivals can keep any process waiting; overflow of the tick counters is not modelled.
- The shell's command nodes are values instead of heap records, so parseexec's filling of argv in an EXEC node already wrapped in redirections is the function AddArg; built-in commands and execution are left out.
- grep's reading of lines.
- MPI and GMP as libraries: gathers are concatenations by rank, big integers are int, mpz_sqrt and std::sqrt are the integer square root. Printing and the write-only `pivot_col` are left out.
- PackedCode.FindDependenciesOptimized: ends as `Overrun` at the first access past the end of a tracking row, because the language gives it no meaning.
- The other sieve drafts, the signal and fork changes of the scheduling assignment, the cryptography assignment, hardware and boot code.
