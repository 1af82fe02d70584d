# Verified model of the xv6 kernel in this repository

A Dafny 4.11 model of the parts of this xv6 kernel (with its coursework schedulers and user accounts) that
are hardest to get right, and proofs about them. `dafny verify dfyconfig.toml` checks everything.

Code that works in place is modelled by classes whose methods have the loops, branches and error cases of
the source and are proved against functions on values; the theorems are about those functions and about
whole runs. Each stretch of code that holds a lock is one atomic step. Sizes (disk, log, NBUF, NPROC,
MLFQ_K) are parameters; 32-bit wrap-around is written out where it matters (pipe counters, `ticks`,
`malloc` and `sbrk` arithmetic, file offsets).

| component | files |
|---|---|
| redo log, group commit (`log.c`) | `RedoLog`, `GroupCommit`, `LogSpace`, `LogLayer`, `LogRefines` |
| inodes and blocks (`fs.c`, `file.c`) | `FsImage`, `FsFiles`, `FsTrace`, `FsLayer`, `FileLayer` |
| concurrent file operations (`fs.c`) | `SharedFiles` |
| files over the log | `CrashViews`, `CrashFiles`, `CrashShared` |
| block cache (`bio.c`, `memide.c`) | `BufRing`, `Bio` |
| log over the block cache | `LogBuffers` |
| user heap (`umalloc.c`) | `FreeList`, `Umalloc` |
| page tables and frames (`vm.c`, `kalloc.c`) | `PageTable`, `Vm` |
| schedulers (`proc_MLFQ.c`, `proc_multiLevel.c`, `trap.c`) | `MlfqTable`, `MlfqScan`, `Mlfq`, `Multilevel` |
| shell parser (`sh.c`) | `ShellLex`, `ShellParse`, `ShellPrint`, `Shell` |
| pattern matcher (`grep.c`) | `Grep` |
| pipe (`pipe.c`, sleep and wakeup of `proc.c`) | `PipeRuns`, `Pipe` |
| user accounts (`sysfile.c`, `string.c`) | `UserFile`, `UserRows`, `UserLoad`, `Users` |
| sequence facts | `Seqs` |

How the main results fit together:

- **Storage.** `RedoLog` gives the order of block writes of a commit and of a recovery and proves crash
  atomicity for every crash point. `GroupCommit` puts operations, commits, crashes and recoveries into one
  state machine and proves its invariant for all runs. `LogLayer` is the code, and `LogRefines` shows that
  each of its methods is a step of that machine, or a run of one step for each block write. `FsLayer` shows
  that `writei`, `readi`, `itrunc` and `cleari` are overlay, slice, clearing and zeroing of flat byte
  sequences while the bitmap stays exact, and that they log every block they change; `FileLayer` shows that
  `filewrite` keeps each chunk within the quota that `LogSpace` needs. `SharedFiles` takes `writei` and `itrunc`
  apart into steps that processes take concurrently, and shows that each file changes as if each operation were
  atomic. `CrashViews` puts any such steps over the log, crashes included, and `CrashFiles` (operations of
  `FsLayer` in turn) and `CrashShared` (concurrent operations) conclude that recovery gives the files as finished
  operations left them. `Bio` shows that cache and disk together look like one array of blocks, and `LogBuffers`
  that the log sees the cache as it should.
- **Memory.** `Umalloc` refines the header ring to the ordered list of `FreeList`, in which every unit from
  `sbrk` belongs to exactly one free or live block. `Vm` refines two-level tables to a flat map and accounts
  for every frame by its one owner, so rollback and `freevm` return exactly what was taken.
- **Schedulers.** The object invariant of `Mlfq.Table` holds after every method: `numproc` counts the
  runnable processes of each level, and every clock shows the closed form of the ticks charged since the last
  reset. `MlfqScan` treats the search with its jumps as a step machine and says, from every position, exactly
  when it ends and with which process.
- **Languages.** The methods of `Shell` agree with the grammar of `ShellParse` on every line, and
  `ShellPrint` inverts the grammar. `Grep` is proved against a meaning of patterns that does not mention
  matching.

Results about the code that a reader may not expect:

- `log_write` tests for a full log before it looks for the block in the header, so a write that would have
  been absorbed can panic (`LogSpace.AbsorbedWritePanics`); and the image that `mkfs` makes has
  `log.size == LOGSIZE`, with which operations within their quotas can panic (`LogSpace.PanicIffSmallLog`).
- NBUF equals LOGSIZE, so even with a larger log area a commit of a full log finds no buffer to work with
  (`LogBuffers.Commit`, `LogBuffers.SafeIff`).
- A write of `filewrite` logs up to ten distinct blocks; it is within `MAXOPBLOCKS` because the inode block
  comes last.
- `malloc` of 2 GB or more passes zero or a negative number to `sbrk` (`Umalloc.SbrkArgMeansGrow`) and then
  hands out memory that the process does not have (`Umalloc.GrantIff`, `Umalloc.Heap.Malloc`); sizes within
  seven bytes of 4 GB wrap around (`Umalloc.NUnitsEnough`).
- The MLFQ search never ends for some priorities (`MlfqScan.EndsIff`). A message in `degrade` says that an
  expired process at the bottom level is not scheduled until the next boost; the scheduler does not look at
  `extime`, and the model follows the code.
- The early return of `pipewrite` can leave a reader asleep on a full pipe (`PipeRuns.LostWakeup`);
  `PipeRuns.QuietIff` is the exact condition.
- `>>` parses like `>` in `sh.c`; the model follows the code.
- `addUser` accepts names with `-` and passwords with `/`, which `loadUsers` then cuts wrongly
  (`UserFile.LoadFlush` is the exact condition).

## Model

| member | source | states |
|---|---|---|
| `RedoLog.ZeroDisk` | xv6-public/mkfs.c:110-111 | the disk that mkfs starts from is one to which the theorems below apply, with an empty log |
| `RedoLog.RecoveredAt` | xv6-public/log.c:69-122 | the disk after a completed recovery, block by block: a home block named in the header holds its log copy, the header is empty, every other block is as it was |
| `RedoLog.RecoveryRestarts` | xv6-public/log.c:69-122 | a recovery stopped after any number of its block writes leaves a disk whose recovery gives the same result as an undisturbed one |
| `RedoLog.CrashedRecoveries` | xv6-public/log.c:115-122 | the same for any number of crashes, each inside the recovery that follows the previous one |
| `RedoLog.CommitCrash` | xv6-public/log.c:177-202 | a commit stopped after any number k of block writes, then recovered: all home blocks old if the header write was not reached, all new if it was |
| `RedoLog.CrashAtomicity` | xv6-public/log.c:69-202 | crash atomicity: commit crashes anywhere, recovery crashes any number of times, one recovery completes: all home blocks new if and only if the header write at line 197 reached the disk, otherwise all old |
| `GroupCommit.RunInv` | xv6-public/log.c:125-233 | the invariant of the log (header, pinned buffers, quotas, disk, history) holds in every state of every run, with crashes between any two steps and inside recovery |
| `GroupCommit.RecoveryGivesPrefix` | xv6-public/log.c:125-233 | recovery from any point of any run gives, on every home block, the state after a prefix of the transactions that the run commits, namely those whose header had been written |
| `GroupCommit.QuietCommit` | xv6-public/log.c:125-174 | while a commit or a recovery runs, no operation is outstanding, none is admitted and none logs |
| `GroupCommit.OneTransactionPerOp` | xv6-public/log.c:125-233 | everything ever logged is, in order, the closed transactions and then the open one; no operation has records in two of them |
| `GroupCommit.HomeChange` | xv6-public/log.c:69-82 | a step changes a home block only by installing it from the log under a committed header |
| `LogSpace.LogFits` | xv6-public/log.c:125-141 | in every state of every run the header has distinct blocks and, with the unused quotas of the outstanding operations, fits LOGSIZE |
| `LogSpace.QuotaPanics` | xv6-public/log.c:213-222 | an operation with quota left panics in log_write exactly when the log area is full, and never if log.size > LOGSIZE |
| `LogSpace.PanicIffSmallLog` | xv6-public/mkfs.c:25 | for every log geometry: operations within their quotas can reach the panic of log_write if and only if log.size <= LOGSIZE (<= MAXOPBLOCKS when LOGSIZE is below two quotas); mkfs lays out the disk with log.size == LOGSIZE |
| `LogSpace.AbsorbedWritePanics` | xv6-public/log.c:217-230 | the test precedes absorption: with the quota used up, logging a block that is in the header already can panic even if log.size > LOGSIZE |
| `LogSpace.CountedOpNeverPanics` | xv6-public/log.c:213-233 | an operation with fewer than MAXOPBLOCKS distinct blocks logged at each call never panics if log.size > LOGSIZE, whatever the others do |
| `LogLayer.Log.constructor` | xv6-public/log.c:53-66 | an empty header, nothing outstanding, the disk as given |
| `LogLayer.Log.BeginOp` | xv6-public/log.c:126-141 | admission exactly when no commit runs and the header plus a full quota for everyone fits; only the counter changes |
| `LogLayer.Log.LogWrite` | xv6-public/log.c:213-233 | the panic condition, and otherwise the header with the block absorbed once and the buffer pinned; nothing else changes |
| `LogLayer.Log.EndOp` | xv6-public/log.c:145-163 | the last operation out starts the commit; a commit already running is the panic |
| `LogLayer.Log.WriteLog` | xv6-public/log.c:177-190 | the disk and the trace of writes are those of copying each pinned buffer to its log block, in order |
| `LogLayer.Log.WriteHeader` | xv6-public/log.c:101-113 | one write, of the header block with the current list in its words and the rest of the block kept |
| `LogLayer.Log.InstallTrans` | xv6-public/log.c:69-82 | the disk and the trace of writes are those of copying each log block home, in order |
| `LogLayer.Log.ReadHead` | xv6-public/log.c:85-96 | the in-memory header is the list in the header block |
| `LogLayer.Log.RecoverFromLog` | xv6-public/log.c:115-122 | the writes are those of RedoLog, so every crash point of RedoLog is a crash point of the code; the result is the recovered disk with an empty header |
| `LogLayer.Log.Commit` | xv6-public/log.c:192-202 | the block writes are exactly, and in this order, those that RedoLog interrupts, and the finished commit leaves every home block new and the header empty |
| `LogRefines.Begin` | xv6-public/log.c:126-141 | an admitted begin_op is a step of the machine of GroupCommit, a refused one changes nothing |
| `LogRefines.Write` | xv6-public/log.c:213-233 | a log_write within the quota is a step of that machine, or the panic |
| `LogRefines.End` | xv6-public/log.c:145-163 | end_op is a step of that machine, and the last one out enters the commit |
| `LogRefines.CommitRunSteps` | xv6-public/log.c:192-202 | the states between the block writes of a commit, and the one after it, form a run of that machine |
| `LogRefines.CommitAll` | xv6-public/log.c:165-202 | commit() is such a run: state i has the disk of the code after i block writes, so every crash point of the code is one of the machine |
| `LogRefines.RecoverAll` | xv6-public/log.c:115-122 | the same for recover_from_log |
| `FsImage.BitIffOneSlot` | xv6-public/fs.c:56-95 | ownership without the ghost map: a bitmap bit is set if and only if its block is metadata or is named by exactly one slot of one inode |
| `FsImage.SetBitAt` | xv6-public/fs.c:56-78 | setting the bit of a block sets that bit and no other, through the byte masks of the code |
| `FsImage.ClearBitAt` | xv6-public/fs.c:81-95 | clearing the bit of a block clears that bit and no other |
| `FsImage.FillOwned` | xv6-public/fs.c:375-403 | putting a free block into an empty slot keeps ownership; the slot owns the block |
| `FsFiles.WriteRefinesOverlay` | xv6-public/fs.c:486-516 | a finished copy loop is an overlay of the flat contents, other files keep theirs, every block below the new size is mapped, and the inode on disk equals the one in memory |
| `FsFiles.FreeOne` | xv6-public/fs.c:410-438 | each block that truncation frees has its bit set at that moment, and freeing it clears no other owned block |
| `FsFiles.TruncKeepsOthers` | xv6-public/fs.c:410-438 | truncation frees exactly what the inode owned, empties it, and leaves every other file as it was |
| `FsLayer.Fs.BAlloc` | xv6-public/fs.c:56-78 | the first block whose bit is clear, zeroed and marked, both changes logged; failure exactly with every bit set |
| `FsLayer.Fs.BFree` | xv6-public/fs.c:81-95 | the panic if and only if the bit is clear; otherwise that bit is cleared and the bitmap block logged |
| `FsLayer.Fs.BMap` | xv6-public/fs.c:375-403 | the address of a file block, allocating the block and the indirect block if absent, with ownership kept and at most the calls of log_write that an allocation needs; failure only with the disk full |
| `FsLayer.Fs.WriteI` | xv6-public/fs.c:486-516 | the exact error cases, which change nothing; on success the overlay, other files and inodes untouched, the inode written back; a write of at most three blocks logs fewer than 10 distinct blocks before each call; every block that changed was logged, its last copy being what it holds; a panic only with the disk full |
| `FsLayer.Fs.ReadI` | xv6-public/fs.c:457-481 | the slice of the flat contents that exists, the exact error cases, no allocation, no change and no panic |
| `FsLayer.Fs.ClearI` | xv6-public/fs.c:520-550 | the contents become zeros of the same length; every other file is unchanged |
| `FsLayer.Fs.ITrunc` | xv6-public/fs.c:410-438 | never the panic of bfree; ownership of exactly the blocks of this inode ends, the file is empty, other files are unchanged, and every changed block was logged after its last change |
| `FsLayer.Fs.CopyIn` | xv6-public/fs.c:499-505 | the copy loop leaves ownership intact and the bytes written; for at most three blocks at any offset it logs at most nine distinct data, bitmap and indirect blocks |
| `FileLayer.FileWrite` | xv6-public/file.c:117-156 | how many bytes are written and where it stops, the contents as one overlay, other files untouched, the new offset; every chunk is within the quota of the log, logs every block that it changes, and leaves a prefix of the data written |
| `FsLayer.Fs.IUpdate` | xv6-public/fs.c:221-238 | the inode on disk becomes the one in memory; of all blocks only that of the inode changes, and it is logged |
| `CrashViews.ViewStep` | xv6-public/log.c:125-233 | every step of operations that log what they change, interleaved in any way, of the log, and every crash keeps the committed disk with the open transaction on top equal to what the running system sees |
| `CrashViews.LastCommitSurvives` | xv6-public/log.c:115-174 | recovery from any point of any run, however the calls of operations interleaved and however often the machine crashed before, gives the blocks as the system saw them at the last commit, when no operation was outstanding |
| `CrashViews.CommitsStay` | xv6-public/log.c:192-202 | what was committed once is never undone |
| `CrashFiles.OpReplay` | xv6-public/fs.c:486-516 | the copies that an operation logged, applied to the blocks before it, give the blocks after it |
| `CrashFiles.FilesSurvive` | xv6-public/log.c:115-122 | operations of fs.c one after the other, grouped by commits, any number of crashes: recovery always gives a disk that holds the file system, inodes on disk included, as it was between two operations, namely at the last commit |
| `CrashFiles.WriteSurvives` | xv6-public/file.c:117-156 | a write cut short by a crash at any point: every file system that the recovered disk holds has the old contents overlaid with a prefix of the data, and every other file as it was |
| `CrashFiles.SameFiles` | xv6-public/fs.c:457-481 | the home blocks decide the files: two file systems that one disk holds have the same inodes and the same contents |
| `CrashFiles.QuotaNeverPanics` | xv6-public/log.c:213-222 | an operation whose calls keep within the quota never panics in log_write if log.size > LOGSIZE, and has room in its quota at each call, whatever the others do |
| `CrashFiles.NextCallFits` | xv6-public/file.c:128-151 | in every run in which operations of fs.c issue their calls, the next call of one that keeps within the quota, as the chunks of filewrite do, never panics if log.size > LOGSIZE |
| `SharedFiles.FreeShared` | xv6-public/fs.c:81-95 | with any number of processes at work, the block that bfree gets is marked, so bfree does not panic, and afterwards it is free |
| `SharedFiles.AllocationFills` | xv6-public/fs.c:375-403 | the actions of an allocation, taken one after the other, fill the slot as bmap does |
| `SharedFiles.ActionInv` | xv6-public/fs.c:375-516 | writei and itrunc by several processes, their steps mixed in any way: no block is ever in two files or in the hands of two processes, every write under way has its bytes in place, every file that is not locked is what the finished operations made of it |
| `SharedFiles.AtRest` | xv6-public/fs.c:410-516 | with no operation under way the bitmap is exact, every inode is the same on disk, and each file is its finished operations applied one after the other |
| `SharedFiles.Progress` | xv6-public/fs.c:56-78 | an operation under way can go on if and only if it is not a write that needs a block with every bit set: no deadlock, no lost block |
| `SharedFiles.ActionCells` | xv6-public/fs.c:375-516 | each step changes no block but the one that it logs |
| `CrashShared.SharedFilesSurvive` | xv6-public/fs.c:410-516 | crash safety under concurrency: at every point of every run, with any interleaving and any number of crashes, recovery gives a disk on which every file is what the operations finished by the last commit made of it, each one whole or not at all |
| `CrashShared.RebootFiles` | xv6-public/log.c:115-122 | after a crash the files are those of the last commit |
| `CrashShared.CanReboot` | xv6-public/log.c:115-122 | the file system can come up after a crash at any point |
| `FreeList.InsertOrdered` | xv6-public/umalloc.c:24-44 | freeing keeps the list address-ordered, its blocks disjoint and no two adjacent |
| `FreeList.InsertPartition` | xv6-public/umalloc.c:24-44 | freeing keeps the partition: every unit from sbrk is in exactly one block, free or live |
| `FreeList.TakePartition` | xv6-public/umalloc.c:63-90 | allocating keeps the partition, with the units cut off now live |
| `FreeList.GrowPartition` | xv6-public/umalloc.c:46-61 | memory from sbrk joins the partition |
| `FreeList.Conservation` | xv6-public/umalloc.c:24-90 | free units plus live units equal the units obtained from sbrk |
| `Umalloc.RelinkIsInsert` | xv6-public/umalloc.c:24-44 | the pointer updates of free are insertion with coalescing into the ordered list, seen as one ring |
| `Umalloc.UnlinkIsTake` | xv6-public/umalloc.c:63-90 | the pointer and size updates of malloc are cutting a block of the ordered list |
| `Umalloc.NUnitsEnough` | xv6-public/umalloc.c:63-69 | the units hold nbytes bytes if and only if the rounding does not wrap around 32 bits |
| `Umalloc.SbrkArgMeansGrow` | xv6-public/umalloc.c:46-61 | the signed argument of sbrk is the memory that morecore uses if and only if the request is below 2 GB |
| `Umalloc.GrantIff` | xv6-public/umalloc.c:46-61 | what sbrk grants for that argument covers the units that morecore puts on the free list if and only if the request is below 2 GB; below it nothing granted before is lost |
| `Umalloc.Heap.FindPlace` | xv6-public/umalloc.c:24-35 | the search of free terminates on every ring, at the block after which the freed one belongs |
| `Umalloc.Heap.Free` | xv6-public/umalloc.c:24-44 | the list afterwards is the insertion of the block with its neighbours joined; the other live blocks and the set of units stay |
| `Umalloc.Heap.MoreCore` | xv6-public/umalloc.c:46-61 | the units above the old end of the process are put on the free list, enough for the request, and the memory granted is what the signed argument asks for (nothing, if that is to shrink the process by more than it has); with sbrk failing nothing changes |
| `Umalloc.Heap.Malloc` | xv6-public/umalloc.c:63-90 | at most one call of sbrk, exactly when no block fits; failure exactly when that call fails; on success a new live block of the rounded size, disjoint from all others; the heap stays within granted memory if and only if no request of 2 GB or more gets through to sbrk |
| `Vm.Machine.KAlloc` | xv6-public/kalloc.c:82-95 | the first frame of the free list, or 0 exactly when it is empty |
| `Vm.Machine.KFree` | xv6-public/kalloc.c:59-77 | the frame is pushed, or the panic exactly for a frame outside the range |
| `Vm.Machine.FreeRange` | xv6-public/kalloc.c:46-53 | exactly the frames of the range join the free list |
| `Vm.Machine.WalkPgdir` | xv6-public/vm.c:35-55 | the page table of a page, made if asked for; every mapping stays, frames are conserved, and failure exactly with no table and no memory |
| `Vm.Machine.MapPages` | xv6-public/vm.c:60-80 | exactly the given pages get the given frames and flags, and no other page changes; a failed user mapping leaves every entry as it was |
| `Vm.Machine.SetupKvm` | xv6-public/vm.c:118-136 | a directory with exactly the mappings of the table and no user page, built from free frames; on failure the set of free frames is as before |
| `Vm.DirectMap` | xv6-public/vm.c:105-115 | the table of the kernel is one that setupkvm maps, and it is a direct map: KERNBASE + p is p for all memory, read-only exactly over the text, devices are themselves, nothing else is mapped |
| `Vm.Machine.AllocUvm` | xv6-public/vm.c:221-249 | on success exactly the pages from PGROUNDUP(oldsz) up to newsz are added, each on a zeroed frame of its own; on failure mapping, user frames and user data are as before |
| `Vm.Machine.DeallocUvm` | xv6-public/vm.c:255-279 | exactly the pages that a page-by-page loop would unmap are unmapped and their frames freed; the jump over absent tables skips nothing mapped |
| `Vm.Machine.FreeVm` | xv6-public/vm.c:283-298 | exactly the frames that the address space owns become free; no other frame is touched |
| `Vm.Machine.CopyUvm` | xv6-public/vm.c:315-345 | every page below sz has the flags and the bytes of the parent on a frame of its own from the free list, nothing is mapped above, the parent is untouched; on failure the set of free frames is as before |
| `Vm.CopyThenFree` | xv6-public/vm.c:283-345 | freevm of a copy restores the set of free frames exactly |
| `Vm.DistinctFrames` | xv6-public/vm.c:221-249 | two user pages of an address space are never on the same frame |
| `PageTable.AddTableSpace` | xv6-public/vm.c:35-55 | an empty table under an absent directory entry maps nothing new |
| `PageTable.UnmapUser` | xv6-public/vm.c:255-279 | clearing the entry of a user page takes that frame out of the space and leaves every other use of a frame |
| `MlfqTable.ClosedForm` | xv6-public/proc_MLFQ.c:328-364 | after n ticks from a reset the level is at most the bottom one with 2*L*L <= n and, above the bottom, n < 2*(L+1)*(L+1); extime is n - 2*L*L above the bottom and cycles from -1 at the bottom |
| `MlfqTable.LevelIs` | xv6-public/proc_MLFQ.c:328-364 | that property determines the level |
| `MlfqTable.LevelSeven` | xv6-public/trap.c:62-70 | a hundred ticks do not take a process past level 7, for any MLFQ_K |
| `MlfqScan.PickIsBest` | xv6-public/proc_MLFQ.c:426-481 | wherever the search stands, a process that it picks has the lowest level of all runnable ones and the highest priority at that level |
| `MlfqScan.NothingToRun` | xv6-public/proc_MLFQ.c:426-481 | with nothing runnable the search ends without a pick, wherever it stands |
| `MlfqScan.RisingPicks` | xv6-public/proc_MLFQ.c:426-481 | priorities that do not decrease in table order up to the first highest one: from the start of the level the search picks that process |
| `MlfqScan.FallSpins` | xv6-public/proc_MLFQ.c:453-458 | otherwise the search goes round for ever from there |
| `MlfqScan.AheadPicks` | xv6-public/proc_MLFQ.c:430-471 | a search resumed in the middle of a level picks the highest process ahead if nothing on the way sends it back |
| `MlfqScan.Resumes` | xv6-public/proc_MLFQ.c:426-481 | otherwise it comes to the start of the lowest level, unless it runs out of levels |
| `MlfqScan.EndsIff` | xv6-public/proc_MLFQ.c:426-481 | from every position, also where the search resumes after a dispatch: exactly when it ends, and exactly what it picks |
| `MlfqScan.SearchEnds` | xv6-public/proc_MLFQ.c:426-481 | the same for every table: the search ends if and only if nothing is runnable or that condition holds of the lowest level with a runnable process |
| `MlfqScan.SpinExample` | xv6-public/proc_MLFQ.c:453-458 | priorities 1, 0, 2 at one level: the search never ends from its start, but picks the third process where it resumes after the second |
| `Mlfq.NeverPastSeven` | xv6-public/trap.c:62-70 | clocks that show at most a hundred charges are at level 7 or above it |
| `Mlfq.Table.AtMostSeven` | xv6-public/trap.c:62-70 | in every state, also between the steps of the timer interrupt, no process is past level 7 |
| `Mlfq.Table.constructor` | xv6-public/proc_MLFQ.c:25-33 | all slots unused, all counters zero |
| `Mlfq.Table.AllocProc` | xv6-public/proc_MLFQ.c:79-101 | the first unused slot, reset; the counters stay right |
| `Mlfq.Table.Ready` | xv6-public/proc_MLFQ.c:225-230 | the new process is runnable and counted |
| `Mlfq.Table.Abandon` | xv6-public/proc_MLFQ.c:203-208 | a half-made process gives its slot back and no counter changes |
| `Mlfq.Table.Exit` | xv6-public/proc_MLFQ.c:238-279 | parent woken, children given to init, init woken exactly if one of them is a zombie; the counters stay right |
| `Mlfq.Table.Wait` | xv6-public/proc_MLFQ.c:283-323 | the first zombie child is reaped, or nothing to wait for, or asleep; the counters stay right |
| `Mlfq.Table.Degrade` | xv6-public/proc_MLFQ.c:328-364 | one tick on the clock of the running process, moved to the next level on expiry with the counters following; the panic exactly when it is not the head of its level |
| `Mlfq.Table.Boost` | xv6-public/proc_MLFQ.c:369-386 | every process at level 0 with a fresh clock, and the counters with it |
| `Mlfq.Table.Rst` | xv6-public/proc_MLFQ.c:391-402 | the caller at level 0 with a fresh clock |
| `Mlfq.Table.CountTick` | xv6-public/trap.c:63-65 | the first step of the timer interrupt: the counter goes up, wrapping at 32 bits, and the table stays |
| `Mlfq.Table.ChargeTick` | xv6-public/trap.c:67 | the second: a tick charged to the running process, whatever other steps came in between; clocks still show the closed form of at most a hundred charges |
| `Mlfq.Table.BoostTick` | xv6-public/trap.c:68-69 | the third: everything boosted on every hundredth tick and on the wrap of the counter |
| `Mlfq.Table.Timer` | xv6-public/trap.c:62-72 | the whole interrupt when nothing comes in between, slot by slot |
| `Mlfq.Table.Visit` | xv6-public/proc_MLFQ.c:430-462 | one visit of the search, made on the counters, is the step of the search on the table |
| `Mlfq.Table.Dispatch` | xv6-public/proc_MLFQ.c:464-471 | the process dispatched is the best runnable one; it is running and no longer counted |
| `Mlfq.Table.Yield` | xv6-public/proc_MLFQ.c:514-522 | the caller is runnable and counted |
| `Mlfq.Table.Sleep` | xv6-public/proc_MLFQ.c:547-582 | the caller sleeps on the channel; the counters stay right |
| `Mlfq.Table.Unsleep` | xv6-public/proc_MLFQ.c:574-575 | back from the switch the caller has no channel; nothing else changes |
| `Mlfq.Table.Wakeup1` | xv6-public/proc_MLFQ.c:587-597 | exactly the sleepers on the channel are runnable and counted |
| `Mlfq.Table.Kill` | xv6-public/proc_MLFQ.c:611-631 | the first slot with that pid is marked, and runnable and counted if it slept |
| `Mlfq.Table.SetPriority` | xv6-public/proc_MLFQ.c:685-700 | the three results, and the new priority of exactly that child |
| `Multilevel.OddPick` | xv6-public/proc_multiLevel.c:363-390 | an odd pid is dispatched only with no even pid runnable, and it is the smallest runnable one |
| `Multilevel.ReleaseIdle` | xv6-public/proc_multiLevel.c:363-424 | the lock is given up only with nothing runnable |
| `Multilevel.RoundRobin` | xv6-public/proc_multiLevel.c:336-361 | on one CPU, whatever happens to the table while processes run: between two dispatches of the same even pid every other even pid that stays runnable is dispatched |
| `Multilevel.Cpu.Next` | xv6-public/proc_multiLevel.c:330-426 | the loops and the goto terminate at exactly the pick that the rules of round robin and smallest odd pid give, and mark that process running |
| `Multilevel.ScanOdd` | xv6-public/proc_multiLevel.c:363-385 | the pass finds the first slot with the smallest odd pid, or says that an even pid is runnable |
| `BufRing.Inverse` | xv6-public/bio.c:33-56 | next and prev are inverse to each other at every node of the ring |
| `BufRing.Unlinked` | xv6-public/bio.c:128-132 | taking a buffer out leaves one ring of the others in the same order |
| `BufRing.Pushed` | xv6-public/bio.c:48-55 | putting a buffer behind the head gives one ring with that buffer first |
| `Bio.AgreesWithDisk` | xv6-public/bio.c:78-116 | a buffer that is valid, clean and unlocked equals its disk block |
| `Bio.OneBufferPerBlock` | xv6-public/bio.c:61-93 | no two buffers in use hold the same block |
| `Bio.Recycle` | xv6-public/bio.c:78-91 | an idle buffer can take another block without changing what clients see |
| `Bio.Cache.constructor` | xv6-public/bio.c:38-56 | all buffers on one ring |
| `Bio.Cache.Get` | xv6-public/bio.c:61-93 | the cached buffer, or the least recently used idle one: never a referenced, locked or dirty buffer of another block; the panic exactly with the block not cached and nothing idle; view and disk unchanged |
| `Bio.Cache.Acquire` | xv6-public/bio.c:71-72 | the lock if it is free; one holder at a time |
| `Bio.Cache.IdeRw` | xv6-public/memide.c:38-60 | a dirty buffer to its block, or the block into a buffer that is not valid; the panics |
| `Bio.Cache.ReadIn` | xv6-public/bio.c:96-106 | after bread the buffer holds the block asked for, as all clients see it |
| `Bio.Cache.Modify` | xv6-public/bio.c:8-13 | a change under the lock is what every client sees from then on, and the disk stays |
| `Bio.Cache.BWrite` | xv6-public/bio.c:109-116 | the block reaches the disk as clients see it and nothing else on the disk changes; the panic exactly without the lock |
| `Bio.Cache.Release` | xv6-public/bio.c:120-126 | the lock is given up, by its holder only |
| `Bio.Cache.DropRef` | xv6-public/bio.c:127-141 | the reference goes; with the last one the buffer is first on the ring |
| `LogBuffers.ViewIsLog` | xv6-public/log.c:213-233 | to clients of the cache a block that nobody has locked is what was logged last, if it is in the log, and otherwise what the disk has |
| `LogBuffers.LogWrite` | xv6-public/log.c:213-233 | log_write on a locked buffer: the block is logged with what the buffer holds, the buffer is pinned, and the pinned buffers are still exactly those of the log |
| `LogBuffers.Bread` | xv6-public/bio.c:96-106 | bread gives what was logged last or what the disk has, and gives up no pinned buffer for it; the panic exactly with the block not cached and nothing idle |
| `LogBuffers.Brelse` | xv6-public/bio.c:120-141 | brelse of a buffer that is on the disk or pinned keeps the pinned buffers those of the log |
| `LogBuffers.NoRoomIff` | xv6-public/bio.c:78-93 | with no other process at the cache, bread of a block outside the log panics for want of a buffer if and only if every buffer is pinned |
| `LogBuffers.WriteLog` | xv6-public/log.c:177-190 | through the cache, the log blocks on disk are what was logged, in order |
| `LogBuffers.InstallTrans` | xv6-public/log.c:69-82 | through the cache, the home blocks on disk are the log blocks, and no buffer is pinned any more |
| `LogBuffers.PutHeader` | xv6-public/log.c:101-113 | through the cache, the header block has the new count and entries |
| `LogBuffers.Commit` | xv6-public/log.c:192-202 | commit through the cache leaves the disk that RedoLog gives for a finished commit of what was logged, with nothing pinned; it panics for want of a buffer if and only if the log has as many blocks as there are buffers |
| `LogBuffers.SafeIff` | xv6-public/param.h:10-12 | operations within their quotas can meet neither the panic of log_write nor that of bget in a commit if and only if log.size and NBUF both exceed LOGSIZE |
| `ShellLex.LexSpell` | xv6-public/sh.c:282-325 | tokens spelled with a space before each are cut back into the same tokens |
| `ShellParse.Parse` | xv6-public/sh.c:344-359 | every word of a parsed tree is a word of the line: its characters between its ends, a delimiter or the end after it |
| `ShellPrint.PrintParse` | xv6-public/sh.c:344-463 | parse(print(c)) = c for every tree with at most nine plain words per command and both kinds of redirection |
| `Shell.GetToken` | xv6-public/sh.c:282-325 | the kind, the ends and the text of the next token, and the cursor at the one after it |
| `Shell.Peek` | xv6-public/sh.c:327-337 | whether the next character is one of those given; the cursor passes white space only |
| `Shell.ParseRedirs` | xv6-public/sh.c:391-414 | the redirections at the cursor, in order, or the missing file name |
| `Shell.ParseWords` | xv6-public/sh.c:441-463 | the words and redirections of a simple command, or why it fails |
| `Shell.ParseExecAt` | xv6-public/sh.c:432-463 | agrees with the grammar, block or simple command |
| `Shell.ParseBlockAt` | xv6-public/sh.c:416-430 | agrees with the grammar, including the missing parenthesis |
| `Shell.ParsePipeAt` | xv6-public/sh.c:378-389 | agrees with the grammar; pipes group to the right |
| `Shell.ParseLineAt` | xv6-public/sh.c:361-376 | agrees with the grammar and terminates on every line |
| `Shell.EndsApart` | xv6-public/sh.c:466-510 | where a word ends there is no character of any word |
| `Shell.TreeReadsBack` | xv6-public/sh.c:466-510 | with a NUL where each word ends and plain characters untouched, every word reads back as its string |
| `Shell.NulTerminate` | xv6-public/sh.c:466-510 | a NUL at the end of each word of the tree and no other change to the buffer |
| `Shell.ParseCmd` | xv6-public/sh.c:344-359 | the answer of the grammar on the line, left-over input included; on success each argv and file string in the buffer is its token, on failure the buffer is unchanged |
| `PipeRuns.FailsIff` | xv6-public/pipe.c:85-89 | a call of pipewrite fails if and only if its reader is gone or its process killed and the bytes left exceed the room in the pipe, both known before the call |
| `PipeRuns.QuietIff` | xv6-public/pipe.c:78-121 | a step leaves every sleeping reader with an empty, write-open pipe and every sleeping writer with a full, read-open one, if and only if it is not such a write under a sleeping reader |
| `PipeRuns.RunQuiet` | xv6-public/pipe.c:59-121 | the same for whole runs without such a write |
| `PipeRuns.NoEarlyReturnIsPatient` | xv6-public/pipe.c:86-89 | runs in which pipewrite never takes its early return are such runs |
| `PipeRuns.LostWakeup` | xv6-public/pipe.c:86-89 | the early return loses a wakeup: a full pipe and a reader still asleep |
| `PipeRuns.Fifo` | xv6-public/pipe.c:78-121 | over every run, what went in is what came out followed by what is in the pipe, at most PIPESIZE bytes |
| `Pipe.Buffer.constructor` | xv6-public/pipe.c:35-38 | an empty pipe, open at both ends |
| `Pipe.Buffer.Write` | xv6-public/pipe.c:78-98 | the ring with wrapping 32-bit counters does what the queue does, for each of the three ways in which pipewrite gives up the lock |
| `Pipe.Buffer.Read` | xv6-public/pipe.c:100-121 | the bytes read are the next ones appended, across any wrap of the counters |
| `Pipe.Buffer.Close` | xv6-public/pipe.c:59-75 | one end closed, its sleepers woken, freed exactly when both are |
| `Grep.MatchHere` | xv6-public/grep.c:84-96 | true if and only if a prefix of the text is in the language of the pattern, all of it after a final $ |
| `Grep.MatchStar` | xv6-public/grep.c:98-106 | true if and only if the text starts with some number of fitting characters and then a match of the rest |
| `Grep.Match` | xv6-public/grep.c:72-82 | true if and only if a substring, or after ^ a prefix, is in the language |
| `Grep.Before` | xv6-public/grep.c:84-106 | a part for the first item and a match of the rest make a match |
| `Grep.After` | xv6-public/grep.c:84-106 | every match splits that way |
| `UserFile.DecodeEncode` | xv6-public/sysfile.c:580-607 | reading back what was written gives the same users if and only if no name has a - and no password a / |
| `UserFile.LoadFlush` | xv6-public/sysfile.c:568-679 | loadUsers after flushUsers, over whatever the file held: the same users if and only if there are none, or the file is longer than six bytes and the separators occur in no name and no password |
| `UserFile.RootIsLong` | xv6-public/sysfile.c:581-581 | with root in slot 0 the file is long enough |
| `UserFile.DashLost` | xv6-public/sysfile.c:717-735 | a name with a -, which addUser accepts, does not survive |
| `UserFile.ShortEncode` | xv6-public/sysfile.c:648-668 | what flushUsers writes fits the rows when read back |
| `UserRows.StrNCpy` | xv6-public/string.c:68-79 | the characters copied, padded with NULs after the end of the source; without a NUL when the count is the length |
| `UserRows.Equals` | xv6-public/string.c:106-111 | true if and only if the two strings are the same |
| `UserRows.CopyRow` | xv6-public/sysfile.c:698-703 | after the copy the row holds the string of the other row, whatever longer one it held |
| `UserRows.IntoRow` | xv6-public/sysfile.c:738-739 | the copy of addUser leaves the string in the row if and only if the row has a NUL where the string ends, as a clear row has |
| `UserLoad.ReadAll` | xv6-public/sysfile.c:580-609 | the character loop has read exactly the users of the text |
| `Users.Table.constructor` | xv6-public/sysfile.c:21-30 | a clear table |
| `Users.Table.LoadUsers` | xv6-public/sysfile.c:568-623 | on a clear table, the users of the file in order; the rows after them are clear if and only if the file is too short to be read, the table is full, or the text is whole users but for one separator |
| `Users.Table.FlushUsers` | xv6-public/sysfile.c:625-679 | the file is the users of the table, then zeros up to its old length |
| `Users.Table.AddUser` | xv6-public/sysfile.c:717-745 | refused, with nothing changed, exactly by length, room and name; otherwise the user is last in the table, and flushed with 0 as the result, or not flushed with -1 if /passwd cannot be opened; names stay distinct and unused rows clear |
| `Users.Table.DeleteUser` | xv6-public/sysfile.c:681-715 | the user goes, the order of the others stays, slot 0 is never deleted; names stay distinct and unused rows clear |
| `Users.Table.Shift` | xv6-public/sysfile.c:698-707 | the rows after a user move up by one, over longer strings too, and the last row is cleared |
| `Users.Restart` | xv6-public/sysfile.c:568-679 | flush, then load at the next start: the same users in the same order |

## Left out

- Umalloc.Heap.Malloc: the answer of `sbrk` lies above all memory granted and handed out so far; after a request of 2 GB or more has got through, the kernel need not keep to that.
- Umalloc.Heap.MoreCore: a failed `sbrk` leaves the memory as it was; that one with an argument of exactly minus the size of the process frees everything and then fails is not modelled.
- Vm.Machine.CopyUvm: requires the pages below sz to be present, because `copyuvm` panics otherwise.
- Vm.Machine.AllocUvm: requires the pages to be added to be absent, because `mappages` panics on a remap otherwise.
- Vm.Machine.SetupKvm: the table of mappings is a parameter; that the linker puts `data` on a page boundary between KERNLINK and PHYSTOP is an assumption of Vm.DirectMap.
- Vm.Machine.MapPages: a range of user pages is one page, as in every call for user memory; kernel ranges have any length.
- Vm.Machine.DeallocUvm: requires oldsz <= KERNBASE, which `allocuvm` and `freevm` keep to; above it `deallocuvm` would unmap the kernel.
- Users.Table.AddUser: ends before the home directory is made; failing to open the file is a parameter, a full disk is not modelled.
- Users.Table.LoadUsers: requires that every field of the file fits a row, because the code does not check the length and would write into the next row.
- Mlfq.Table.Degrade: states when the "degrade" panic happens, not that it never does; liveness of the MLFQ scheduler is not claimed either, since the code does not give it.
- Mlfq.Table.Timer: is the interrupt without interruption; CountTick, ChargeTick and BoostTick are its steps, between which other methods may run.
- Bio.Cache.Get: for blocks of the one device that memide.c accepts, because its panic on any other comes only after the lookup; the steps of different processes interleave, waiting for a lock is a step that answers no.
- FsLayer.Fs.WriteI: running out of blocks is a panic result that ends the model; permission checks and device inodes are answers of their own.
- FileLayer.FileWrite: runs without another operation between its chunks, where the source gives up the inode lock; each chunk (FileLayer.WriteChunk) is one atomic operation, and among concurrent operations a chunk is a write of SharedFiles.
- CrashFiles.FilesSurvive: the operations issue their log_write calls one operation after the other, though commits group them and others may be outstanding; CrashShared.SharedFilesSurvive is the concurrent form for writes and truncations. How a block stores its part of the image is a parameter.
- CrashFiles.NextCallFits: for operations in turn; CrashFiles.QuotaNeverPanics is the concurrent form, for calls known to keep within the quota.
- SharedFiles.ActionInv: each inode is locked by one process at a time, as ilock provides; allocation of inodes, link counts and directories are not among the actions.
- LogBuffers.Commit: with no other process using the cache while the commit runs; bread of a locked block, which waits, is not part of it.
- LogLayer.Log.LogWrite: for blocks outside the log area, which is where `fs.c` allocates and keeps its metadata.
- The table of open files, inode reference counts and directories (`sysfile.c` outside the account functions, the rest of `file.c` and `fs.c`).
- Threads and process lifetimes of `proc.c`; only sleep and wakeup are used, as the steps of the pipe.
- exec, system-call argument fetching, permission bits, and user programs other than the shell parser and grep.
- Running commands in the shell, and the line buffering of grep around the matcher.
- Devices, interrupts other than the timer, boot code, and memory ordering inside spinlocks; locks are atomic and context switches are correct.
- Capacity panics (no buffers, no inodes) beyond the result values that say when they happen.
