# Verified models of the xv6-cos kernel

xv6-cos is a RISC-V teaching kernel with copy-on-write fork and alternative schedulers. These Dafny modules
model its hardest parts and prove what they are for. Number of frames, buffers, processes, CPUs, disk blocks and
log blocks are parameters throughout, so every result holds for every size.

| file | models |
|---|---|
| `LogSpace.dfy`, `Wal.dfy`, `Log.dfy` | the redo log of `kernel/log.c`: space reservation, crash recovery, the code itself |
| `Bcache.dfy`, `Storage.dfy` | the buffer cache of `kernel/bio.c`, and cache, log and crashes together as one concurrent machine |
| `Blocks.dfy`, `Fs.dfy`, `FsSpace.dfy`, `FileSystem.dfy` | block allocation, block mapping and file contents in `kernel/fs.c`, and `filewrite`: what they hold, what they need, what they log |
| `Cow.dfy`, `UserMemory.dfy` | reference-counted frames and copy-on-write memory, as interleaved steps and as the code |
| `PageTable.dfy`, `Tables.dfy` | the three-level page table of `kernel/vm.c`, and its table pages as `UserMemory.dfy` counts them |
| `Sleep.dfy`, `ExitWait.dfy`, `Sched.dfy` | the process protocols and scheduler scans of `kernel/proc.c`, as interleaved steps under locks |
| `Pipe.dfy` | the pipe of `kernel/pipe.c` |
| `Umalloc.dfy` | the allocator of `user/umalloc.c` |
| `ShellSyntax.dfy`, `ShellText.dfy`, `ShellGrammar.dfy`, `Shell.dfy` | the parser of `user/sh.c`: tokens, text, the language, the code |
| `Grep.dfy` | the matcher of `user/grep.c` |
| `Common.dfy` | optional values and lists, shared by the others |

Code that updates things in place is a class whose methods keep the source's loops and branches and are proved
against functions or predicates on the state; protocols between processes are state machines whose steps are the
critical sections, or finer.

## Findings

These promises do not hold of the code as it stands. In each case the model follows the code, a lemma or contract
shows the failure, and the exact condition is proved.

- `log_write` tests for room before it looks for an existing entry. Logging at most MAXOPBLOCKS distinct blocks per
  operation is therefore not enough (`DistinctBudgetIsNotEnough`); never logging again once the allowance is spent
  is, exactly when the on-disk log is larger than LOGSIZE (`SafeExactlyWhenLogIsLarger`). `mkfs/mkfs.c` line 25
  makes it equal to LOGSIZE, one block short. `filewrite` keeps to the stricter discipline (`FitsBudget` in
  `FileSystem.Disk.Filewrite`), so on a larger log no interleaving of such writes panics (`BudgetedRunsSafe`).
- A fork that fails in `uvmcopy` leaves one count too many on the frame it failed on, and nothing else ever makes a
  count differ from the live references (`CountsExceedByFailedForks`).
- `uvmunmap` calls `kfree` before it clears the entry. Between the two the frame can be on the free list, and in a
  new owner's hands, with a valid entry still naming it (`FreedBeforeCleared`). Free frames are mapped nowhere
  exactly when no entry being torn down names them (`FreeIsUnmapped`); copy-on-write is proved with that window open,
  given that nothing runs on a table that is being torn down.
- A writer that inserts bytes, then sees itself killed, returns from `pipewrite` without waking readers. They sleep
  on with bytes in the pipe (`ForgottenReader`); this is the only way a sleeper is left without reason
  (`CalmKeptUnlessForgotten`).
- `writei` whose source faults inside a block has already overwritten part of that block, past the bytes it reports.
  Which bytes are put down and which reported follows from the disk before the call (`Stops`); they differ exactly
  when there are blocks enough and the source ends inside a block (`UnreportedExactly`). If `bmap` has just allocated
  that block it is in the log all the same. If the block was there before, it is the one block the write changes
  without logging it (`WriteLogs`), and every file of two bytes or more has such a write (`TornWrite`). `filewrite`
  does the same in its last transaction, where the ends of its chunks count as well (`FileUnreportedExactly`,
  `TxsLog`).
- `morecore` passes the size to `sbrk` as an int. It arrives exactly when fewer than 2^27 units are asked for
  (`SbrkGetsTheSize`); from there on a success of `sbrk` puts more on the free list than was granted. `malloc` runs
  into this exactly when no free block is large enough and `sbrk` does not refuse (`overrun` in
  `Umalloc.Allocator.Malloc`).
- The comment above `uvmcopy` says it copies physical memory; it shares frames, and the model does too.

## Model

| member | source | states |
|---|---|---|
| `LogSpace.StepKeepsInv` | kernel/log.c:126-175 | whatever an operation does next, logged blocks plus the unused allowances of outstanding operations stay within LOGSIZE |
| `LogSpace.AdmitsExactlyWhatFits` | kernel/log.c:126-142 | an operation is let in if and only if no commit is running and the log would hold a full allowance of new blocks for it and for every outstanding operation |
| `LogSpace.SpareSlot` | kernel/log.c:214-235 | an operation that has not spent its allowance always finds a free slot |
| `LogSpace.SpareRunsSafe` | kernel/log.c:126-235 | no run of concurrent operations that keep an allowance panics, when the log is larger than LOGSIZE |
| `LogSpace.SafeExactlyWhenLogIsLarger` | kernel/log.c:220-223 | under that discipline no run panics if and only if the log has more than LOGSIZE blocks |
| `LogSpace.SmallLogPanics` | kernel/log.c:220-223 | for every smaller log, a run of three operations that panics |
| `LogSpace.DistinctBudgetIsNotEnough` | kernel/log.c:220-229 | counting distinct blocks alone lets a run panic at any log size |
| `LogSpace.PanicNeedsAllSpent` | kernel/log.c:220-223 | the panic happens exactly at a full log, and then every outstanding operation has spent everything |
| `LogSpace.CommitUndisturbed` | kernel/log.c:129-141 | while a commit runs, no step of any operation changes the header |
| `LogSpace.QuietLogIsEmpty` | kernel/log.c:146-175 | in every run, logged blocks that no operation is working on are being committed |
| `Wal.InstallPrefix` | kernel/log.c:68-83 | after any number of installation writes the disk still stands for the committed contents |
| `Wal.RecoveryPrefix` | kernel/log.c:116-123 | a recovery stopped after any of its writes leaves a disk that recovers to the same contents |
| `Wal.CommitPrefix` | kernel/log.c:177-203 | a commit stopped after any of its writes stands for the old contents up to the header write and for the new from there on |
| `Wal.CommitIsRecovery` | kernel/log.c:193-203 | from the header write on, commit writes what recovery would |
| `Wal.ChainRecovers` | kernel/log.c:116-123 | any number of interrupted recoveries keep what the disk stands for |
| `Wal.RecoveryCompletes` | kernel/log.c:116-123 | a recovery that completes brings exactly those contents home and empties the log |
| `Wal.RecoveryIdempotent` | kernel/log.c:116-123 | recovering again changes nothing |
| `Wal.CrashAtomicity` | kernel/log.c:67-203 | a crash anywhere in commit, then any number of crashes in recovery, leaves all home blocks old or all new, and which one depends only on whether the header was written |
| `Log.Log.constructor` | kernel/log.c:54-65 | an empty in-memory log over a disk whose log may hold a transaction |
| `Log.Log.BeginOp` | kernel/log.c:126-142 | counts one operation more exactly when the reservation test holds, and changes nothing otherwise |
| `Log.Log.EndOp` | kernel/log.c:146-166 | one operation less; a commit starts if and only if it was the last; panics exactly if one is running |
| `Log.Log.LogWrite` | kernel/log.c:214-235 | the block is in the log afterwards, at its old place or behind the others, and the new contents are pinned; panics exactly when the log is full or nobody is in an operation |
| `Log.Log.WriteLog` | kernel/log.c:178-191 | writes the cached contents to the log slots, in order, and touches no other block |
| `Log.Log.WriteHead` | kernel/log.c:102-114 | one block write turns the header into the list of logged blocks |
| `Log.Log.InstallTrans` | kernel/log.c:68-83 | copies each slot to its home block, leaves the log area alone, and unpins unless recovering |
| `Log.Log.Commit` | kernel/log.c:193-203 | issues exactly the writes of a commit, in that order, and ends with an empty log and no buffer pinned |
| `Log.Log.ReadHead` | kernel/log.c:86-97 | reads back the block list that the header encodes |
| `Log.Log.RecoverFromLog` | kernel/log.c:116-123 | issues exactly the recovery writes and leaves the recovered disk |
| `Log.CommitOutcome` | kernel/log.c:193-203 | after commit each logged block is home with its logged contents and all others are unchanged |
| `Bcache.Ring.constructor` | kernel/bio.c:36-53 | all buffers on the ring, the last one most recently used |
| `Bcache.Ring.FindCached` | kernel/bio.c:65-74 | finds the block's buffer if and only if there is one |
| `Bcache.Ring.FindVictim` | kernel/bio.c:76-88 | finds the least recently used unreferenced buffer, or none exactly when all are referenced |
| `Bcache.Ring.Bget` | kernel/bio.c:58-89 | the cached buffer with one more reference, or the least recently used free one taken over, or the panic |
| `Bcache.Ring.Brelse` | kernel/bio.c:116-137 | one reference less; the last one moves the buffer to the front and keeps the order of the rest |
| `Bcache.RecyclesLeastRecentlyUsed` | kernel/bio.c:58-137 | in every run the buffer taken over is the one freed longest ago: every other free buffer was freed since |
| `Bcache.Ring.MoveToFront` | kernel/bio.c:126-133 | the six pointer writes keep a doubly linked ring and move one element to the front |
| `Bcache.Ring.Bpin` | kernel/bio.c:139-144 | one reference more on that buffer and no other change |
| `Bcache.Ring.Bunpin` | kernel/bio.c:146-151 | one reference less on that buffer and no other change |
| `Storage.NextKeepsInv` | kernel/log.c:67-235 | every step of readers, writers, committer and crash keeps cache, log and disk consistent |
| `Storage.BreadIsCurrent` | kernel/bio.c:92-103 | a locked buffer holds the disk overlaid with what is logged and not installed |
| `Storage.BuffersAreSafe` | kernel/bio.c:58-151 | in every reachable state a block has at most one buffer, and one that is referenced or pinned is never recycled |
| `Storage.StableMovesOnlyAtCommit` | kernel/log.c:193-203 | what a crash brings back changes only at the header write, when no operation is in progress |
| `Storage.CrashRestoresStable` | kernel/log.c:67-123 | a crash in any state, and any interrupted recoveries, bring back exactly the last committed contents |
| `Storage.CommittedSurvives` | kernel/log.c:146-203 | after a commit point every later crash restores the contents as logged there, until the next one |
| `Storage.QuietIsDurable` | kernel/log.c:146-203 | in every run, when no operation is outstanding and no commit running, the log is empty and the disk and what a crash restores are the blocks as last logged |
| `Storage.LastEndStartsCommit` | kernel/log.c:146-175 | the last operation out starts a commit of everything logged, which takes two steps a block and three more |
| `Storage.CommitAdvances` | kernel/log.c:177-203 | in every state of a commit it has a step to make once it has its buffers, and each brings it one nearer its end |
| `Storage.ReaderCanGo` | kernel/bio.c:92-137 | a reader or writer of a block can go on, or waits for a lock whose holder can |
| `Storage.GetCanGo` | kernel/bio.c:58-89 | every block gets a buffer, unless all are referenced and none is its own |
| `Storage.OpCanGo` | kernel/log.c:126-175 | in every state operations can end, and begin where the reservation allows |
| `Storage.ChangeCanGo` | kernel/log.c:214-235 | an operation with allowance left can log any block it has locked, when the log is larger than LOGSIZE |
| `Storage.CrashCanCome` | kernel/log.c:116-123 | the crash results cover every state: a crash is possible in each |
| `Fs.TakenKeepsInv` | kernel/fs.c:64-87 | a clear bit is a block nobody owns; marking and zeroing it disturbs no file |
| `Fs.GaveDirect` | kernel/fs.c:388-406 | a fresh block in an empty direct slot or the indirect pointer keeps exact ownership and every file |
| `Fs.GaveIndirect` | kernel/fs.c:407-416 | so does one in an empty word of the indirect block |
| `Fs.WriteData` | kernel/fs.c:516-528 | writing one data block changes those bytes of that file and of no other |
| `Fs.KeptContents` | kernel/fs.c:382-421 | a file that kept its blocks has the same contents |
| `Fs.OthersRead` | kernel/fs.c:425-539 | when only one file was touched, every other reads as before |
| `Fs.WrittenContents` | kernel/fs.c:516-536 | after the loop and the size update the file is its old contents with the written bytes laid over them |
| `FsSpace.FreeByOwn` | kernel/fs.c:64-105 | the number of clear bits is what the data area has beyond the blocks that files own |
| `FsSpace.ReachedNext` | kernel/fs.c:516-521 | after any number of rounds exactly what the blocks so far lacked has been allocated, and the later blocks are untouched and unlogged |
| `FsSpace.RoundMapped` | kernel/fs.c:517-519 | a round gets its block exactly when there are enough for all rounds up to it; a block that was there before is not in the log yet |
| `FsSpace.RoundWritten` | kernel/fs.c:520-528 | after the copy every changed block is logged, but for the one of a failed copy that was not new |
| `FsSpace.NeedsThrough` | kernel/file.c:148-176 | what a second range needs is what both need less what the first has taken, even when they share a block |
| `Fs.TruncatedKeepsInv` | kernel/fs.c:425-453 | dropping an inode whose bits are cleared leaves a consistent disk and every other file |
| `FileSystem.Disk.Balloc` | kernel/fs.c:64-87 | the lowest free block, marked and zeroed; 0 exactly when every block is used |
| `FileSystem.Disk.Bfree` | kernel/fs.c:90-105 | clears that bit and no other; its panic is the precondition |
| `FileSystem.Disk.Iupdate` | kernel/fs.c:225-241 | the on-disk inode becomes the in-memory one, through the log |
| `FileSystem.Disk.Bmap` | kernel/fs.c:382-421 | the address of the block; a missing one is allocated, zeroed and owned by exactly that slot; 0 exactly when fewer blocks are free than the block and its indirect block lack; every block it changes is logged, and of a file nothing but that block and the indirect one |
| `FileSystem.Disk.Itrunc` | kernel/fs.c:425-453 | frees exactly the inode's own blocks and logs every block it changes; the panic in `bfree` is out of reach; every other file has the same contents |
| `FileSystem.Disk.FreeSlot` | kernel/fs.c:432-448 | each block freed is allocated when its turn comes |
| `FileSystem.Disk.Readi` | kernel/fs.c:471-496 | exactly the requested slice clipped at the size; never allocates; on a destination fault -1 and the prefix that fitted |
| `FileSystem.Disk.Writei` | kernel/fs.c:505-539 | the file is its old contents with the bytes put down laid over them, every other file reads as before; how many bytes are put down and reported, and whether the disk fills, is decided by the disk before the call; every changed block is logged except exactly a block that was there before and in which the source faults; a chunk of at most 3 blocks logs within the budget |
| `FileSystem.UnreportedExactly` | kernel/fs.c:516-526 | bytes are put down and not reported if and only if enough blocks are free and the source ends inside a block |
| `FileSystem.Disk.TornWrite` | kernel/fs.c:522-525 | every file of at least two bytes has a write that changes a block and does not log it |
| `FileSystem.FaultAt` | kernel/fs.c:522-525 | a copy that faults after k bytes leaves the count at the last block boundary among them |
| `FileSystem.AccountFits` | kernel/file.c:148-155 | 4 data, 4 bitmap and 1 indirect block at most are logged before the inode's block, for every offset |
| `FileSystem.ChunkLeavesRoom` | kernel/file.c:155 | the chunk is the size the source computes from the allowance |
| `FileSystem.BudgetGivesSpare` | kernel/log.c:214-235 | an operation within that budget always has a spare log slot |
| `FileSystem.BudgetedRunsSafe` | kernel/log.c:126-235 | operations that each fit the budget, interleaved in any way, never panic when the log is larger than LOGSIZE |
| `FileSystem.Disk.Filewrite` | kernel/file.c:148-176 | returns n or -1, the offset moves by the bytes reported, the file holds them, every other file reads as before; from the disk before the call it says where it stops: at a chunk that ends past the largest file, at the first block that cannot be had, or where the source ends; every transaction fits its budget and logs what it changes, except the torn block of the last |
| `FileSystem.ChunkStops` | kernel/file.c:148-176 | where a chunk stops is where a write from the original disk stops |
| `FileSystem.FileUnreportedExactly` | kernel/file.c:148-176 | bytes are put down and not reported if and only if enough blocks are free, their chunk fits in a file, and the source ends inside a block and inside a chunk |
| `Cow.NoPanic` | kernel/kalloc.c:101-197 | the panics of `kalloc`, `kfree` and `increse` are out of reach |
| `Cow.MappedIsLive` | kernel/kalloc.c:119-145 | a mapped frame is counted and neither free nor about to be |
| `Cow.StepKeepsInv` | kernel/vm.c:180-352 | every step of sharing, faulting, storing, freeing and tearing down keeps counts, free list and the rule that a writable page has exactly one mapping |
| `Cow.StepRefinesEager` | kernel/trap.c:34-54 | every step does to what processes see what eager copying would |
| `Cow.CowRefinesEager` | kernel/vm.c:315-352 | over every run each process reads what it would read had fork copied every page |
| `Cow.CountsExceedByFailedForks` | kernel/vm.c:340-351 | over every run a count exceeds the live references by exactly the forks that failed on that frame |
| `Cow.FreeIsUnmapped` | kernel/kalloc.c:119-145 | a frame on the free list, or between the two sections of `kfree`, is listed once, and is mapped nowhere if and only if no entry about to be cleared names it |
| `Cow.FreedBeforeCleared` | kernel/vm.c:196-200 | unmapping the last reference, from any state, passes through one where the frame is free, then handed out, and still named by a valid entry |
| `UserMemory.Kernel.constructor` | kernel/kalloc.c:73-98 | every frame free and listed once |
| `UserMemory.Kernel.Kalloc` | kernel/kalloc.c:171-197 | the head of the list with count 1 and filled with 5, or none exactly when the list is empty; nobody's memory changes |
| `UserMemory.Kernel.Kfree` | kernel/kalloc.c:119-145 | one reference less; the last one junks and lists the frame |
| `UserMemory.Kernel.Uvmunmap` | kernel/vm.c:180-202 | removes exactly the named pages from what the process sees |
| `UserMemory.Kernel.AddTables` | kernel/vm.c:90-101 | the table pages on the way to an entry come off the free list; fails exactly when it has too few |
| `UserMemory.Kernel.Uvmcopy` | kernel/vm.c:315-352 | succeeds if and only if the free list covers the table pages the child lacks; then the child sees a copy of the parent, its entries name the parent's frames with the parent's flags less the write bit, and the parent's own have lost that bit and nothing else; on failure nobody sees a change, the parent has lost the bit up to the page it failed on, and exactly one reference, to that page, leaks |
| `UserMemory.Kernel.Cowfault` | kernel/trap.c:34-54 | a private page with the same contents, readable, writable and executable by the user; fails exactly on a bad address, an unmapped or kernel page, or no memory |
| `UserMemory.Kernel.Copyout` | kernel/vm.c:390-418 | exactly the bytes are in the process's memory and nobody else's changes, shared pages included; on failure those before the first page that is not the user's or for which no frame is left |
| `UserMemory.Kernel.Uvmalloc` | kernel/vm.c:235-259 | succeeds if and only if the free list covers the new pages and the table pages they lack; the new pages read as zero and their entries are open to the user for reading, with the write and execute bits asked for; every other entry stays; on failure no entry changes |
| `UserMemory.Kernel.Uvmdealloc` | kernel/vm.c:265-277 | removes exactly the pages above the new size and no other entry |
| `PageTable.Pagetable.constructor` | kernel/vm.c:206-215 | an empty tree that maps nothing |
| `PageTable.PxDigits` | kernel/riscv.h:356-359 | the three indices of a walk are the digits of the page number |
| `PageTable.Pagetable.Walk` | kernel/vm.c:85-113 | the entry's place; takes exactly the table pages that are missing and fails exactly when there are too few; adding them changes no mapping |
| `PageTable.Pagetable.Mappages` | kernel/vm.c:152-175 | maps exactly the pages named to consecutive frames with the flags given, up to the one that failed, never one past the range, and changes no other; stops for want of a table page, or panics on an empty range, past the last address, or at the first page that was mapped before the call |
| `PageTable.Pagetable.Uvmunmap` | kernel/vm.c:180-202 | unmaps exactly the pages named, never one more, and hands over their frames in order if asked to; panics exactly on an unaligned address or at the first page that was not a mapped leaf before the call |
| `PageTable.SetLeaf` | kernel/vm.c:152-175 | one entry written changes the flat map at one page and the tree not at all |
| `PageTable.LinkedTree` | kernel/vm.c:95-100 | linking in a blank page keeps a tree without sharing |
| `PageTable.LinkedFlat` | kernel/vm.c:95-100 | and the flat map |
| `PageTable.NoSharing` | kernel/vm.c:281-297 | no table page hangs below two different entries |
| `PageTable.ListedOnce` | kernel/vm.c:281-297 | the order in which `freewalk` frees lists each page once |
| `PageTable.AllListed` | kernel/vm.c:281-297 | and every page of the tree |
| `PageTable.Pagetable.Freewalk` | kernel/vm.c:281-297 | frees exactly that subtree, children first |
| `PageTable.Pagetable.FreeAll` | kernel/vm.c:301-307 | with no leaf left, every table page is freed exactly once and the panic is out of reach |
| `Tables.WalkCosts` | kernel/vm.c:85-113 | what a walk of the tree must add is what the code on user memory is charged for it |
| `Tables.WalkAdds` | kernel/vm.c:85-113 | and afterwards both have the same table pages again |
| `Sleep.NextKeepsInv` | kernel/proc.c:965-1041 | every step of `sleep`, `wakeup`, `kill` and the scheduler keeps: between a test and its wakeup, no wakeup was issued or one is still on its way |
| `Sleep.WakeReaches` | kernel/proc.c:999-1017 | a wakeup that reaches a process on its way into sleep finds it asleep and rouses it |
| `Sleep.NoLostWakeup` | kernel/proc.c:965-1041 | in every run, while the lock is free, whoever sleeps on the channel tested after the last wakeup |
| `Sleep.AsleepUntilWoken` | kernel/proc.c:965-1041 | a step rouses a sleeper if and only if it is a wakeup of its channel or a kill at its slot; a process falls asleep only by its own step |
| `Sleep.NoSpuriousWakeup` | kernel/proc.c:965-1041 | in every run whoever is no longer asleep was woken by one of these in between |
| `Sleep.SleepReturnsHolding` | kernel/proc.c:965-994 | in every run `sleep` lets go of the condition lock only under its own, does not hold it while away, and returns running, with no channel, holding it again |
| `Sleep.LkMoves` | kernel/proc.c:965-994 | a condition lock moves only by `acquire`, `release` and those two places of `sleep`, free before it is taken and held by whoever gives it up |
| `Sleep.StepsComeToAnEnd` | kernel/proc.c:965-1041 | `wakeup` and `kill` take two steps for every slot and one more; each step of a call brings it nearer its end |
| `Sleep.NobodyStuck` | kernel/proc.c:965-1041 | in every run a process inside these calls can go on, or waits for a lock whose holder can |
| `Sleep.CallsAreOpen` | kernel/proc.c:965-1041 | a running process can make each of these calls exactly when the locks are as the call needs them |
| `Sleep.SwitchesHoldingItsLock` | kernel/proc.c:911-929 | a process that switches out of `sleep` holds its lock and is not running |
| `ExitWait.NextKeepsInv` | kernel/proc.c:316-481 | every step of fork, exit, reparent and wait keeps the protocol's invariant |
| `ExitWait.NoSleeperHasZombie` | kernel/proc.c:390-481 | whenever wait_lock is free nobody asleep in wait has a zombie child |
| `ExitWait.WaitDecidesRight` | kernel/proc.c:443-480 | in every run, when the scan of `wait` has ended without a zombie, it gives up if and only if the process has no child or is killed, and goes to sleep if and only if it has one and is not |
| `ExitWait.StatusMoves` | kernel/proc.c:316-481 | for every step and every process: who falls asleep, wakes, becomes a zombie, is killed or leaves the table, and that nobody else does |
| `ExitWait.StepsComeToAnEnd` | kernel/proc.c:316-481 | every step of a call but its first brings it nearer its end |
| `ExitWait.NobodyStuck` | kernel/proc.c:316-481 | a process inside these calls that holds a lock can go on, or waits for one whose holder can |
| `ExitWait.CallsAreOpen` | kernel/proc.c:316-481 | a process outside can fork into exactly the unused slots, and exit, unless it is init, or wait exactly when wait_lock is free |
| `ExitWait.ParentsLive` | kernel/proc.c:374-432 | in every state every process but init has a living parent |
| `ExitWait.ReapedExactlyOnce` | kernel/proc.c:390-481 | no pid is returned twice, only exited ones are, and one not yet returned is still in its slot |
| `ExitWait.ReapsOnlySwitchedOut` | kernel/proc.c:448-470 | only the parent frees a slot, under wait_lock, and never while the child is on its stack |
| `Sched.NextKeepsInv` | kernel/proc.c:717-807 | every step of every CPU, of processes and of the timer keeps locks and candidates consistent |
| `Sched.LeastExtends` | kernel/proc.c:726-738 | each comparison keeps the candidate the first slot with the least key |
| `Sched.TakesLocksUpwards` | kernel/proc.c:723-739 | a scan about to take a lock holds at most one, of a lower slot |
| `Sched.WaitsEnd` | kernel/proc.c:717-807 | from every CPU the chain of lock waits ends at one that can go on |
| `Sched.NotStuckCanGo` | kernel/proc.c:717-807 | a CPU in the scheduler that waits for no lock has a step to make |
| `Sched.SwitchesToFirstLeast` | kernel/proc.c:723-754 | at the switch a CPU holds exactly the chosen lock, and the choice is the first least key among those runnable when passed |
| `Sched.FinishSwitchesIffReady` | kernel/proc.c:745-754 | in every run a scan that has passed all slots switches if and only if it found one runnable; that one was runnable until then and runs from then on; with none it rests and changes no slot |
| `Sched.RunningMeansOnCpu` | kernel/proc.c:717-807 | in every run a process is RUNNING if and only if some CPU is in it |
| `Sched.SlotMoves` | kernel/proc.c:723-754 | a process starts to run only at the end of a scan that chose it and stops only in the state it has set itself |
| `Sched.ScansComeToAnEnd` | kernel/proc.c:723-754 | a scan takes two steps a slot; every step brings it nearer its end |
| `Sched.KeyClamps` | kernel/proc.c:775-781 | a priority is brought into 0..100, keeping the order; a creation time is kept |
| `Sched.SeenIsHistory` | kernel/proc.c:723-739 | what the scan recorded of a slot is what it was when this CPU held its lock in this same scan |
| `Sched.RunsOnOneCpu` | kernel/proc.c:723-754 | no process runs on two CPUs |
| `Sched.NeverTakesTwice` | kernel/proc.c:723-739 | a scan never waits for a lock it holds |
| `Pipe.Pipe.constructor` | kernel/pipe.c:33-36 | an empty pipe, open at both ends |
| `Pipe.Pipe.Write` | kernel/pipe.c:76-103 | a section inserts exactly the prefix that wants, killing, room and readability allow; returns how many it took in, -1 exactly if it sees itself killed or no reader left before it is done, and sleeps exactly if otherwise the pipe is full |
| `Pipe.WriteSectionReports` | kernel/pipe.c:76-103 | what a section of `pipewrite` takes and returns, from the pipe before it and the pipe after it alone |
| `Pipe.Pipe.Insert` | kernel/pipe.c:95-96 | the byte goes in behind the others, whatever the counters have wrapped to |
| `Pipe.Pipe.Read` | kernel/pipe.c:105-130 | a section removes the oldest bytes and delivers them in order; returns how many it delivered, or, exactly if the pipe is empty with a writer left, -1 if killed and otherwise sleeps; a byte is lost exactly when its copy faults |
| `Pipe.ReadSectionReports` | kernel/pipe.c:105-130 | what a section of `piperead` delivers, loses and returns, from the pipe before it and the pipe after it alone |
| `Pipe.Pipe.Close` | kernel/pipe.c:58-74 | closes one end and wakes the other side; frees when both are closed |
| `Pipe.FullTest` | kernel/pipe.c:88 | the full test on wrapped counters is exact |
| `Pipe.EmptyTest` | kernel/pipe.c:113 | so is the empty test |
| `Pipe.Fifo` | kernel/pipe.c:58-130 | in every run what the reads delivered, with the bytes lost to faults, is a prefix of what the writes took in, and at most PIPESIZE are in transit |
| `Pipe.NothingUndone` | kernel/pipe.c:58-130 | what was inserted or removed stays so |
| `Pipe.CalmKeptUnlessForgotten` | kernel/pipe.c:84-99 | a section leaves a sleeper without reason if and only if it is a writer killed after inserting, with readers asleep |
| `Pipe.SleepersHaveReason` | kernel/pipe.c:58-130 | in runs without that, a sleeping reader means empty and a writer left, a sleeping writer full and a reader left |
| `Pipe.ForgottenReader` | kernel/pipe.c:84-87 | a run that leaves a reader asleep on a pipe with a byte in it |
| `Umalloc.Allocator.constructor` | user/umalloc.c:21-22 | nothing handed out, no list yet |
| `Umalloc.Allocator.Find` | user/umalloc.c:29-32 | the search ends at the free block that precedes the one freed |
| `Umalloc.FreedKeepsInv` | user/umalloc.c:24-44 | freeing keeps the ring in address order with one wrap, no two blocks touching, and exactly the free units covered |
| `Umalloc.Allocator.Free` | user/umalloc.c:24-44 | the block's units, and no others, become free, all inside one free block |
| `Umalloc.Allocator.Morecore` | user/umalloc.c:46-61 | the granted units become free in one block and are added to those granted, or nothing changes |
| `Umalloc.SbrkGetsTheSize` | user/umalloc.c:54 | the size survives the conversion to int if and only if it is below 2^27 units; otherwise too little is asked for |
| `Umalloc.TakenKeepsInv` | user/umalloc.c:75-85 | unlinking or splitting a block keeps the invariant |
| `Umalloc.Allocator.Malloc` | user/umalloc.c:63-90 | the header and the fewest units that hold the bytes asked for, cut from the tail of the first free block of the ring that is large enough, or from units just granted; sbrk is asked exactly when no free block is large enough; 0 exactly when it then refuses; every granted unit is kept, free or handed out; the search ends |
| `Umalloc.EveryUnitAccounted` | user/umalloc.c:24-90 | the units of the free blocks and of the blocks handed out are exactly those sbrk granted, and no unit is in both |
| `Umalloc.BlocksDisjoint` | user/umalloc.c:24-90 | free and handed-out blocks are pairwise disjoint |
| `Umalloc.FreeIsListed` | user/umalloc.c:24-90 | every free unit is in a block on the ring |
| `Umalloc.FreeBlocksApart` | user/umalloc.c:33-42 | no two free blocks touch |
| `ShellSyntax.ExecUndone` | user/sh.c:375-447 | parsing a printed simple command, block or redirection gives it back |
| `ShellSyntax.LineUndone` | user/sh.c:345-447 | so does parsing a printed line, up to what ends it |
| `ShellSyntax.ParseUndoesPrint` | user/sh.c:328-447 | for every tree with at most nine arguments a command, parsing its printed tokens yields the tree |
| `ShellSyntax.LineMap` | user/sh.c:345-447 | parsing does not depend on what words are |
| `ShellSyntax.ModesAndSymbols` | user/sh.c:384-395 | '<' opens for reading, '>' for writing from nothing and ">>" for writing without truncation |
| `ShellText.LexJoined` | user/sh.c:263-309 | tokens printed as text with single blanks are found again |
| `ShellText.TokenShows` | user/sh.c:266-309 | a token is exactly the text it spans, and what follows does not belong to it |
| `ShellText.LexSpelled` | user/sh.c:263-309 | tokens written with any spacing that keeps them apart are found again |
| `ShellText.LexSpells` | user/sh.c:263-309 | the tokens found in any line, with blanks between, are the line: no character is swallowed |
| `ShellText.LexExactly` | user/sh.c:263-309 | tokens are found in a line if and only if it is a spacing of them |
| `ShellText.ParseTextUndoesPrint` | user/sh.c:263-447 | for every tree with valid words, parsing its line, in any spacing, yields the tree |
| `ShellGrammar.ParsesExactlyTheGrammar` | user/sh.c:328-447 | the parser yields a command if and only if the tokens are those of a syntax tree of the shell language that means it, redirections among the words included; it panics if and only if there is none |
| `ShellGrammar.ReadsExactlyTheLanguage` | user/sh.c:263-447 | the same from the text of the line |
| `Shell.Parser.GetToken` | user/sh.c:266-309 | returns the next token and its span, moves past it and the blanks behind it, and no further |
| `Shell.Parser.Peek` | user/sh.c:311-321 | skips blanks, loses no token, and reports the next character |
| `Shell.Parser.ParseRedirs` | user/sh.c:375-398 | the redirections of the grammar, or the panic |
| `Shell.Parser.ParseArgs` | user/sh.c:430-446 | the arguments of the grammar within the bounds of argv, or a panic |
| `Shell.Parser.ParseExec` | user/sh.c:416-447 | the tree of the grammar, or a panic |
| `Shell.Parser.ParseBlock` | user/sh.c:400-414 | the tree of the grammar, or a panic |
| `Shell.Parser.ParsePipe` | user/sh.c:362-373 | the tree of the grammar, or a panic |
| `Shell.Parser.ParseLine` | user/sh.c:345-360 | the tree of the grammar, or a panic; ends on every line |
| `Shell.Parser.NulTerminate` | user/sh.c:449-494 | a NUL at the end of every word of the tree and nowhere else |
| `Shell.EndsAreBreaks` | user/sh.c:449-494 | no NUL falls inside a word |
| `Shell.WordsWhole` | user/sh.c:449-494 | afterwards each string in the tree is exactly its token |
| `Shell.Parser.ParseCmd` | user/sh.c:328-343 | the tree of the grammar or a panic, and every word reads back as its token |
| `Grep.Match` | user/grep.c:71-81 | true if and only if some part of the text matches the pattern's declarative meaning |
| `Grep.MatchHere` | user/grep.c:83-95 | true if and only if some prefix matches |
| `Grep.MatchStar` | user/grep.c:97-105 | true if and only if some number of repetitions and then the rest match |
| `Grep.StarStep` | user/grep.c:97-105 | a pattern that starts with a starred character matches a prefix if and only if the rest matches after some number of repetitions |
| `Grep.ItemsShow` | user/grep.c:71-105 | every pattern is the writing of its items, |
| `Grep.ItemsOfShown` | user/grep.c:71-105 | and of no others |

## Left out

- Device drivers, assembly, boot, memory fences and TLB flushes: block writes are atomic, memory is sequentially consistent and `swtch` transfers control faithfully.
- Directories, path names, link counts, `ialloc` and `iput` of `kernel/fs.c`; `exec`, traps other than `cowfault`, system-call argument fetching: they sit above the properties proved here.
- The lottery scheduler, the round-robin scheduler, the feedback queue (its code is commented out) and the floating-point niceness: the priority scan takes its key as an integer and clamps it.
- `runcmd`, `main` and the reading loops of `user/sh.c` and `user/grep.c`: they call the operating system.
- The sleep locks and spin locks themselves: a lock is a field that says who holds it. Interrupts and the nesting count `noff` are not modelled.
- `sleep` in `begin_op`, `acquiresleep` and the disk driver: a caller that must wait leaves the state alone and may try again.
- Log.Log.EndOp: the commit it may start is the separate method `Commit`, since the lock is released in between.
- UserMemory.Kernel.AddTables: keeps which table pages exist and their frames; the entries inside them are in `PageTable`, and `Tables` keeps the two in step walk by walk.
- Log.Log.constructor: the recovery that `initlog` goes on to run is the separate method `RecoverFromLog`.
- UserMemory.Kernel.Cowfault: that `cowfault` gives the new page all permissions is recorded, not judged.
- FileSystem.Disk.Iupdate: an inode on disk is a record, not bytes of its block; type, device and link count are not modelled.
- Storage.NextKeepsInv: a block changes together with its `log_write`; of the code modelled here only the failed copy in `writei` does otherwise (see Findings).
- Storage.CommittedSurvives: a crash brings back some unreferenced cache consistent with the recovered disk; which buffers boot leaves in it is not computed.
- FileSystem.Disk.Filewrite: other processes may write the file between two chunks; here nobody does.
- FileSystem.Disk.Itrunc: no bound on the bitmap blocks it logs, because there is none for large disks.
- Sleep.SwitchesHoldingItsLock: says nothing of other locks, since `noff` is not modelled.
- ExitWait.NextKeepsInv: open files, memory and the time fields that `waitx` also reports are not modelled; `waitx` otherwise runs the same steps as `wait`.
- Sched.NextKeepsInv: what processes and the timer do to a slot is one step under that slot's lock.
- Umalloc.Allocator.Malloc: what the code does after an `overrun` is not modelled; `sbrk` is an oracle whose grants are fresh, aligned, above the program's data and within 2^32 units of it.
- Shell.Parser.ParseArgs: the node and its `argv` are built when its arguments are complete, not filled through a pointer held by the enclosing redirections.
- Fairness: that whoever can go on is given the CPU, or the lock it waits for, is not stated. Every call of the protocols is proved to come to an end after so many of its own steps, and never to be stuck; loops and recursion end.
