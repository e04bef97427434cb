# A Dafny model of xv6 with the CS333 changes

This project models the parts of the xv6 kernel (x86, with the Portland State CS333 changes)
and of its user programs whose correctness rests on invariants that no single function shows:
the write-ahead log over the buffer cache and the disk drivers, the user-level allocator, the
blocks and contents of files, the two process tables, page tables, pipes, the shell's parser
and grep's matcher. `dafny verify dfyconfig.toml` checks all of it.

State that the C code updates in place is the fields of a class, and each C function is a
method proved against a specification: a function of the old state, or an invariant together
with an exact account of what changed. A critical section under a spinlock is one method
call, so that a run of the system, with any interleaving of processes, is a sequence of
calls; `sleep` ends a critical section, and what happens after a wakeup is another call.
Pointers are indices, with a value for null. Calls of `panic` are results of their own, or
are shown to be unreachable by an assertion at the place of the panic. Values that come from
outside (the memory that `sbrk` returns, the clock, who is scheduled, when an interrupt or a
crash comes) are parameters or are left to the order of the calls.

| file | models | main results |
|---|---|---|
| Params.dfy, Process.dfy, Seqs.dfy | param.h, proc.h | shared sizes, process states and sequence predicates |
| BufferCache.dfy | bio.c, on Ide.dfy | the cache is a flat volume; its ring is a permutation of the buffers |
| Log.dfy | log.c, on BufferCache.dfy | a crash at any write, any number of times, leaves all or none of a transaction |
| LogRuns.dfy | log.c, bio.c | a commit one write at a time, beside readers; when it runs out of buffers |
| GroupCommit.dfy | log.c | operations share transactions safely, over all interleavings |
| Journal.dfy | log.c, joining GroupCommit.dfy and LogRuns.dfy | a crash at any moment leaves all or none of what each operation wrote |
| Ide.dfy | ide.c, memide.c | the interrupt-driven driver refines the synchronous one |
| Malloc.dfy | umalloc.c | the heap is tiled by live and free blocks; the free ring is ordered and coalesced |
| FileBlocks.dfy | fs.c | a bitmap bit is set exactly for owned blocks; files are byte sequences |
| StateLists.dfy | proc.c, `CS333_P3P4` | every process is on exactly the list of its state |
| ExitWait.dfy | proc.c, default build | no child is lost, orphaned or reaped twice |
| PageTables.dfy | vm.c, kalloc.c | a copied address space is equal, disjoint, and freed to the last frame |
| Pipe.dfy | pipe.c | FIFO on wrapping counters; who may sleep |
| ShellParser.dfy | sh.c | printing and parsing are inverse; words are cut exactly |
| Regex.dfy | grep.c | the matcher decides a language |

Some properties that the code suggests do not hold of it. The model keeps the code, and
states when they hold:

- In the `CS333_P3P4` build, `wakeup1` follows `next` after the process has been moved to
  another list, so it wakes only the first sleeper. It wakes all of them exactly when there
  is at most one (`StateLists.WakesAllIffOneSleeper`); a run in which one stays asleep is
  `StateLists.SleeperLeft`.
- `promoteAll` has the same flaw. It raises every ready process exactly when no ready list
  above the first has two (`StateLists.PromotesAllIffSingletons`); `StateLists.ReadyLeft` is
  a run that leaves one behind.
- A commit with something to write panics for want of a buffer exactly when the blocks that
  are held or pinned are as many as the buffers (`LogRuns.RoomToCommit`,
  `Log.LogManager.Commit`). `LogRuns.FillCache` is a run to such a state, for every number
  of pinned blocks that the log has room for. A log of more than LOGSIZE blocks takes 30, and
  those fill the cache alone; one of LOGSIZE blocks, as mkfs makes it, takes 29, and then one
  buffer held by a reader is enough.
- `log_write` never overflows a log of more than LOGSIZE blocks. mkfs makes one of LOGSIZE
  blocks, header included, and then an operation within its allowance can meet a full log
  (`GroupCommit.LogOverflows`).
- `fileread` calls `readi` with no operation open, and `readi` fills a hole, which `log_write`
  then refuses with a panic. That happens exactly when the part of the range that lies in the
  file has a hole (`FileBlocks.FileSystem.Readi`). Files that only `writei` has extended have
  none; mkfs rounds the size of the root directory up to a whole block past its last one, and
  `FileBlocks.HoleyPanics` is a file system with such an inode.
- A writer that is killed returns from a full pipe without waking the reader
  (`Pipe.StrandedReader`). A reader is left asleep beside bytes exactly when a killed process
  writes more than fits while a reader is asleep (`Pipe.Pipe.Write`).
- `deallocuvm` skips page-table entries when it starts inside a missing page table. It misses
  none below its limit exactly when it starts at a multiple of 4MB or at a page with a table,
  or no later table holds a page below the limit (`PageTables.ReachesAll`);
  `PageTables.MissedPage` is a machine with a mapped page that it leaves behind.
- `malloc` rounds the last seven 32-bit sizes to a block without payload
  (`Malloc.UnitsHoldRequest`, `Malloc.Allocator.Malloc`).
- `>>` in place of any `>` of a line makes no difference to the parsed command
  (`ShellParser.AppendIsWrite`).

## Model

| member | source | states |
|---|---|---|
| BufferCache.UnlinkRing | bio.c:131-132 | taking a buffer out of the doubly linked ring leaves a ring of the others, in the same order, in both directions |
| BufferCache.FrontRing | bio.c:133-136 | linking a buffer in behind the sentinel gives the ring with it in front |
| BufferCache.Rewritten | bio.c:62-142 | changing one buffer changes the volume at its block only, and moves that block in or out of the held and the dirty blocks |
| BufferCache.WrittenThrough | bio.c:112-119 | writing a held buffer to disk leaves the volume as it was and the idle buffers equal to the disk |
| BufferCache.Recycled | bio.c:83-94 | giving an idle clean buffer to another block changes no block of the volume and keeps each block in one buffer |
| BufferCache.ToFrontPermutes | bio.c:123-142 | the order of use stays a permutation of the NBUF buffers |
| BufferCache.Cache.constructor | bio.c:39-57 | the initial ring holds every buffer once, and the volume is the disk |
| BufferCache.Cache.FindBlock | bio.c:70-81 | the scan from the front finds the one buffer of a block, or none exactly when the block is not cached |
| BufferCache.Cache.FindRecyclable | bio.c:83-95 | the scan from the back finds the least recently used buffer that is neither held nor dirty, or none exactly when there is none |
| BufferCache.Cache.Bget | bio.c:62-96 | waits exactly when a busy buffer has the block, panics exactly when no buffer has it and every one is busy or dirty, and otherwise holds its one buffer, the least recently used one if it is recycled, with the volume unchanged |
| BufferCache.Cache.Bread | bio.c:99-109 | the buffer it returns holds the volume's contents of the block, whether cached or read |
| BufferCache.Cache.Bwrite | bio.c:112-119 | one write of the disk at the buffer's block; the volume does not change, and the block is no longer dirty |
| BufferCache.Cache.MoveToFront | bio.c:131-136 | unlinking and relinking a buffer puts it right behind the sentinel, with the others behind it in the order they had |
| BufferCache.Cache.Brelse | bio.c:123-142 | lets the block go and makes its buffer the most recently used: first in the order, the others keeping theirs |
| Log.InstalledAt | log.c:68-81 | a partly installed log has changed exactly the home blocks of its first entries, to their logged contents |
| Log.InstalledBlocks | log.c:74-77 | in block numbers: the blocks behind the header, in order, have gone to the listed blocks, and no other block has changed |
| Log.RecoveryKeeps | log.c:114-121 | after any number of recovery's writes, a recovery still restores the same home blocks; after all of them it has |
| Log.CrashRunKeeps | log.c:114-121 | so it does after any number of recoveries, each cut short anywhere |
| Log.RecoveryIdempotent | log.c:114-121 | recovering a recovered disk changes nothing |
| Log.RecoveryReplays | log.c:83-121 | in words of the header: the first word counts the logged blocks, the next ones say where the blocks behind the header go, and they are there afterwards; then the count is 0 and nothing else has changed |
| Log.LoggedAt | log.c:173-187 | copying to the log changes no home block and not the header |
| Log.LoggedBlocks | log.c:180-183 | in block numbers: the contents of the listed blocks are in the blocks behind the header, in order, and no other block has changed |
| Log.LoggedKeeps | log.c:173-187 | a crash while the log is written leaves the old contents |
| Log.CommittedHolds | log.c:99-112 | writing the header makes the log hold exactly the new contents of the listed blocks |
| Log.CommitAtomic | log.c:189-199 | the disk after the first `k` writes of a commit recovers to the old contents up to the header write, and to the new ones from it on |
| Log.CrashSafety | log.c:114-199 | a crash after any write of a commit, then any number of interrupted recoveries, then a completed one: the home blocks are all old or all new |
| Log.CommitTraceAtomic | log.c:189-199 | every disk that a commit's trace passes through recovers to the old or to the new contents |
| Log.RecoveryTraceKeeps | log.c:114-121 | every disk that a recovery's trace passes through recovers to what the log holds |
| Log.CommitReady | log.c:189-199 | while every held block is pinned or as on the disk, every home block that differs from the disk is listed: what crash safety asks of a commit |
| Log.CopyBlock | log.c:180-185 | one step of copying to the log or home, with the home block free: one disk write at the destination, of the source's contents in the cache; it fails exactly when no buffer can be recycled |
| Log.CopyOver | log.c:76-79 | between two held buffers, one disk write at the destination, of the source's contents; both are let go |
| Log.FillHeader | log.c:106-109 | the loop writes the count to word 0 and the block numbers, in order, to the words after it, and keeps the rest of the block |
| Log.LogManager.WriteHead | log.c:99-112 | one disk write, of the count and the listed block numbers into the header block |
| Log.LogManager.WriteLog | log.c:173-187 | the sequence of disks it produces, which are those of the crash lemmas; at the end the `i`-th block behind the header holds the cached contents of the `i`-th listed block, and no other block has changed |
| Log.LogManager.InstallTrans | log.c:67-81 | the sequence of disks it produces; at the end the `i`-th listed block holds the `i`-th block behind the header, no other block has changed, and the listed blocks are no longer pinned |
| Log.LogManager.LogWrite | log.c:210-230 | lists the block once and pins it, so that the dirty blocks are exactly the listed ones; panics exactly when the list is full; the disk is untouched |
| Log.LogManager.Read | bio.c:99-109 | takes hold of a home block, or waits exactly when it is held; held blocks stay pinned or as on the disk |
| Log.LogManager.Update | log.c:201-230 | a held block's new contents are listed and pinned, so that it may be let go before the commit |
| Log.LogManager.Release | bio.c:123-142 | lets a block go, whose contents are on the disk or pinned |
| Log.LogManager.Commit | log.c:189-199 | from a file system in which held blocks are pinned or as on the disk and no listed block is held, the sequence of disks of a commit; afterwards the disk's home blocks are the volume's and nothing is pinned; panics exactly when no buffer can be recycled, before any write |
| Log.LogManager.ReadHead | log.c:83-95 | reads exactly the block list that the words of the header block hold |
| Log.LogManager.Recover | log.c:114-121 | from an idle cache, the sequence of disks of a recovery, without panic; every block behind the header that its first word counts is at the block that its own word names; the file system is then ready for use |
| LogRuns.PlacesSize | bio.c:62-96 | cached blocks have as many buffers as there are blocks |
| LogRuns.RoomToCommit | bio.c:83-95 | some buffer can be recycled exactly when the blocks held or pinned are fewer than NBUF |
| LogRuns.FillCache | log.c:173-187 | for each number of pinned blocks that fits the log, a run to a state that is ready to commit and in which no buffer can be recycled |
| LogRuns.CopyNext | log.c:67-81 | a copy, to the log or home, takes the disk and the volume to their next stage |
| LogRuns.HeadNext | log.c:99-112 | so does a header write |
| LogRuns.MidwayStart | log.c:189-199 | a commit starts with no write done |
| LogRuns.MidwayRecovers | log.c:189-199 | at every moment of a commit, whatever readers hold, the disk recovers to the old contents up to the header write and to the new ones from it on |
| LogRuns.MidwayEnd | log.c:189-199 | after the last write the file system is between commits, with the new contents at home |
| LogRuns.ReadBeside | bio.c:99-109 | a reader that takes hold of a block in the middle of a commit leaves its progress as it is |
| LogRuns.ReleaseBeside | bio.c:123-142 | so does one that lets a block go |
| LogRuns.StartCopy | log.c:180 | takes hold of the log block; fails exactly when no buffer can be recycled |
| LogRuns.FinishCopy | log.c:181-185 | waits exactly while the home block is held, and then is one write further |
| LogRuns.HeadStep | log.c:99-112 | one header write further; fails exactly when no buffer can be recycled |
| GroupCommit.TotalUpdate | log.c:131 | the allowance that open operations have left, after one of them has used some |
| GroupCommit.GathersWrite | log.c:210-230 | a logged block is added to the transaction of its operation and to no other |
| GroupCommit.OneTransaction | log.c:124-171 | everything an operation logged is in one transaction on disk |
| GroupCommit.LogState.constructor | log.c:52-65 | the initial state satisfies the invariant |
| GroupCommit.LogState.BeginOp | log.c:124-140 | enters exactly when no commit is running and its allowance fits; keeps the reservation bound, and sleeps only while an operation or a commit remains to wake it |
| GroupCommit.LogState.LogWrite | log.c:210-230 | panics exactly when the log is full, never if the log has more than LOGSIZE blocks; the list stays free of duplicates and within the reservation |
| GroupCommit.LogState.EndOp | log.c:144-160 | the last operation, and no other, starts a commit; the panic for a running commit is unreachable |
| GroupCommit.LogState.Commit | log.c:189-199 | the blocks listed by all operations since the last commit, if there are any, become one transaction |
| GroupCommit.LogState.FinishCommit | log.c:162-170 | admits operations again and wakes all sleepers |
| GroupCommit.LogOverflows | mkfs.c:25 | with a log of at most LOGSIZE blocks, a state in which the log is full and an operation has calls left, so that `log_write` panics |
| GroupCommit.FullTransaction | log.c:124-160 | with a larger one, a commit about to start with LOGSIZE blocks |
| Journal.AuthoredWrite | log.c:210-230 | a logged write keeps the account of what each operation wrote and of who wrote each listed block last |
| Journal.Files.constructor | log.c:52-65 | no operation yet, on a log with nothing listed |
| Journal.Files.Begin | log.c:124-140 | an operation that enters has written nothing; the joint invariant holds |
| Journal.Files.Write | log.c:210-230 | the operation's account has the block's new contents and the disk is unchanged; panics exactly when the log is full, never if the log has more than LOGSIZE blocks |
| Journal.Files.End | log.c:144-160 | the last operation, and no other, starts a commit, with nothing written to the disk yet |
| Journal.CommitStarts | log.c:189-199 | the transaction that a commit writes is the listed blocks with their cached contents, those that the operations gave them |
| Journal.Files.Finish | log.c:162-170 | after the last write, or with nothing to write, the joint invariant holds again, and the home blocks are what the operations made them |
| Journal.OperationAtomic | log.c:114-199 | a crash after any write of a commit, then any number of interrupted recoveries, then a completed one: all that an operation of the transaction logged is in its home blocks, or none of it; the blocks that it wrote last hold exactly what it wrote |
| Journal.QuietCrash | log.c:114-171 | a crash at any other moment, and the same recoveries, leave the home blocks as on the disk: nothing of a transaction that is not committed |
| Ide.ServeLast | ide.c:147-151 | a request appended to the queue is served after all the others |
| Ide.ServeElsewhere | ide.c:133-163 | changing a buffer that is not queued commutes with serving the queue |
| Ide.SettledAgree | ide.c:133-163 | buffers that are not queued, and everything once the queue is empty, agree with the synchronous driver |
| Ide.LinkedAppend | ide.c:147-151 | walking to the end of the linked queue and appending there extends it by one, without duplicates |
| Ide.MemDriver.Iderw | memide.c:37-59 | a clean buffer gets the contents of its block, with the disk unchanged; the data of a dirty one become the contents of its block, and no other block changes |
| Ide.IdeDriver.constructor | ide.c:47-68 | an empty queue refines the synchronous driver |
| Ide.IdeDriver.Idestart | ide.c:71-96 | gives the controller the command for the buffer: a write with its data if it is dirty, a read otherwise |
| Ide.IdeDriver.Iderw | ide.c:133-163 | appends the request, starts it exactly if it is alone, and keeps the refinement: serving what is queued gives the synchronous driver's buffers and disk |
| Ide.IdeDriver.Complete | ide.c:99-127 | carrying out the head request has the effect of the synchronous driver: a read fetches the block and leaves the disk alone, a write changes its block only |
| Ide.IdeDriver.Ideintr | ide.c:99-127 | completes the head of the queue, a read fetching the block with the disk unchanged and a write changing its block only, starts the next, and keeps the refinement; nothing happens on an empty queue |
| Malloc.UnitsHoldRequest | umalloc.c:69 | the rounded number of units holds the request exactly when the rounding does not wrap, and is never a unit too many |
| Malloc.MergedTiles | umalloc.c:33-42 | merging two adjacent blocks keeps the heap exactly tiled |
| Malloc.SplitTiles | umalloc.c:78-82 | so does cutting a block in two |
| Malloc.GrownTiles | umalloc.c:46-61 | and so does adding fresh memory |
| Malloc.StopsAtPredecessor | umalloc.c:30-32 | the exit test of free's search holds at the address predecessor and nowhere else on the ring |
| Malloc.Predecessor | umalloc.c:30-32 | every address above the base has its predecessor on the ring, so the search ends |
| Malloc.FreedLinks | umalloc.c:33-42 | in each of the four merging cases the pointers written close the ring again |
| Malloc.FreedCoalesced | umalloc.c:33-42 | in each of them no free block ends where the next starts |
| Malloc.FreedWellFormed | umalloc.c:24-44 | freeing a live block keeps tiling, ring order, links, headers and coalescing |
| Malloc.FreedEffect | umalloc.c:24-44 | the freed block's units are free, and the live blocks keep their sizes |
| Malloc.TakenWhole | umalloc.c:76-77 | unlinking a block of the exact size keeps the invariant and makes the block live |
| Malloc.TakenTop | umalloc.c:78-82 | so does cutting the block's upper end off |
| Malloc.GrownWellFormed | umalloc.c:46-61 | fresh memory above the heap is a new live block, ready to be freed |
| Malloc.ScanDone | umalloc.c:74-89 | a scan that returns to where it started has seen every free block, and none is large enough |
| Malloc.Allocator.constructor | umalloc.c:21-22 | no heap and no ring |
| Malloc.Allocator.Free | umalloc.c:24-44 | the block is free, the others keep their sizes, the heap is the same, and the invariant holds; terminates on every ring |
| Malloc.Allocator.Morecore | umalloc.c:46-61 | adds the units that `sbrk` gives, at least 4096 of them, and leaves a free block that holds them |
| Malloc.Allocator.Carve | umalloc.c:75-85 | a fitting block becomes, whole or at its upper end, a new live block of exactly the size asked for |
| Malloc.Allocator.Malloc | umalloc.c:63-90 | a new block of the rounded size, which has room for the request exactly when the rounding does not wrap, disjoint from all live blocks, or failure; `sbrk` is called exactly when no free block fits, and the scan needs it at most once |
| FileBlocks.PutBitAt | fs.c:63-66 | setting or clearing a bit of a byte changes that bit only |
| FileBlocks.PutWordAt | fs.c:382-386 | storing a 32-bit entry in an indirect block changes that entry only |
| FileBlocks.BitmapBit | fs.c:60-63 | where the bit of a block is: its bitmap block, byte and power of two, in numbers |
| FileBlocks.MarkAt | fs.c:78-93 | marking a block changes that block's bit and no other |
| FileBlocks.AddressAt | fs.c:371-386 | the address of a block of a file is one of the first ten numbers in the inode, or four bytes, the lowest first, of the block that the eleventh names |
| FileBlocks.FileByte | fs.c:465-468 | every byte of a file is at its place in the block with that address, and 0 without one |
| FileBlocks.GrownRef | fs.c:365-393 | a new block appears in one slot of one inode, and every other slot of every inode is as before |
| FileBlocks.GrownWellFormed | fs.c:365-393 | bitmap and ownership agree again after an allocation into an empty slot |
| FileBlocks.GrownByte | fs.c:365-393 | allocating into an empty slot changes no byte of any file |
| FileBlocks.StoredByte | fs.c:493-499 | storing a block of a file changes that file's bytes of that block only |
| FileBlocks.WritingStep | fs.c:493-499 | one pass of the writing loop extends the written part by its bytes |
| FileBlocks.WritingDone | fs.c:476-506 | with the new size, the file's contents are the old ones with the source spliced in |
| FileBlocks.NotYetFree | fs.c:400-428 | the block that `itrunc` is about to free is still marked as in use, because one slot alone holds it |
| FileBlocks.FreeStep | fs.c:400-428 | freeing the block of one slot clears exactly its bit |
| FileBlocks.TruncDone | fs.c:400-428 | when every slot has been dealt with, bitmap and ownership agree, and the other inodes hold their blocks |
| FileBlocks.TruncContents | fs.c:400-428 | truncating one file changes the contents of no other |
| FileBlocks.FileSystem.Balloc | fs.c:53-75 | takes the first block whose bit is clear and fills it with zeros, with no other bit or data changed; panics exactly when every bit is set or no operation is open, and then nothing has changed |
| FileBlocks.FileSystem.Fill | fs.c:371-379 | returns the block in a slot of the inode; allocates only for an empty one, and panics as `balloc` does, with nothing changed |
| FileBlocks.FileSystem.Bmap | fs.c:365-393 | returns the address that the inode, or four bytes of its indirect block, hold for the block; allocates only for an empty slot, keeping the ownership invariant and the contents of all files; inside an operation it panics only when every block is in use, outside exactly for an empty slot, with nothing changed |
| FileBlocks.FileSystem.ReadBlock | fs.c:465-470 | one pass of the reading loop: the bytes asked for; inside an operation a hole reads as zeros and is filled, or every block is in use; outside it is a panic, exactly then, and nothing changes |
| FileBlocks.FileSystem.Readi | fs.c:448-472 | fails exactly for an offset beyond the end or a sum that wraps; otherwise returns exactly that slice of the contents, with every file's contents unchanged, or panics: inside an operation only with every block in use, outside exactly when the range has a hole within the file; a file without holes is read without change or panic |
| FileBlocks.HoleyPanics | mkfs.c:159-163 | a consistent file system in which the first byte of a file lies in a hole |
| FileBlocks.FileSystem.Writei | fs.c:476-506 | fails exactly for an offset beyond the end, a wrapping sum or too long a file; panics inside an operation only when every block is in use, and outside exactly when there is something to write; otherwise returns the count, replaces exactly the written range, extends the size to it, leaves all other files alone, and keeps a file without holes so |
| FileBlocks.FileSystem.Bfree | fs.c:78-93 | clears the block's bit and no other, and changes no data; panics exactly when it is clear |
| FileBlocks.FileSystem.FreeDirect | fs.c:407-412 | frees each direct block once |
| FileBlocks.FileSystem.FreeIndirect | fs.c:414-421 | frees each block that the indirect block lists once |
| FileBlocks.FileSystem.Itrunc | fs.c:400-428 | the inode is empty, exactly its blocks have become free, no other file has changed, and the panic for a free block is unreachable |
| StateLists.AddStructure | proc.c:934-948 | appending a process that is on no list keeps all twelve lists acyclic, disjoint and with correct tails |
| StateLists.RemoveStructure | proc.c:950-991 | so does unlinking a process from the head, the middle or the tail of its list |
| StateLists.PlacedMoved | proc.c:82-97 | moving a process together with its state or priority keeps every process on exactly the list of its state |
| StateLists.MoveKeeps | proc.c:682-761 | a change of state with the move to that state's list keeps placement and budgets |
| StateLists.RelevelKeeps | proc.c:1156-1207 | so does a change of a ready process's priority, with a new budget |
| StateLists.ResetKeeps | proc.c:1230-1245 | so does a change of priority of a process that is not ready, without a move |
| StateLists.WakesAllIffOneSleeper | proc.c:742-761 | no sleeper is left on the channel exactly when at most one slept on it |
| StateLists.FirstSleeper | proc.c:742-761 | the process that a wakeup finds is the first on the sleeping list with that channel |
| StateLists.TwoSleepers | proc.c:682-726 | a run that puts two processes to sleep on one channel |
| StateLists.SleeperLeft | proc.c:742-761 | after a wakeup of the channel one of them still sleeps |
| StateLists.PromotedLists | proc.c:1215-1228 | each ready list loses its first process to the list above it, and that is all |
| StateLists.PromotesAllIffSingletons | proc.c:1209-1246 | every ready process goes up exactly when no ready list above the first has two |
| StateLists.PromotionIs | proc.c:1209-1246 | the priority that a promotion gives, and whose budgets it renews, for every state |
| StateLists.TwoReady | proc.c:636-655 | a run that leaves two processes ready at level 1 |
| StateLists.ReadyLeft | proc.c:1209-1246 | after a promotion one of them is still there |
| StateLists.ProcTable.constructor | proc.c:993-1024 | all slots are on the free list, once, and all other lists are empty |
| StateLists.ProcTable.StateListAdd | proc.c:934-948 | the process is last on the list |
| StateLists.ProcTable.StateListRemove | proc.c:950-991 | the process is off the list and the others keep their order; -1 exactly when it was not on it |
| StateLists.ProcTable.Transfer | proc.c:84-87 | remove and add in turn; neither error panic is reachable |
| StateLists.ProcTable.TakeSlot | proc.c:74-98 | the first free slot becomes an embryo with the next process id, top priority and a full budget, or there is none |
| StateLists.ProcTable.AllocProc | proc.c:62-129 | a slot for a new process; without memory for its stack the slot goes to the end of the free list and the id is used up |
| StateLists.ProcTable.AbandonFork | proc.c:213-227 | the embryo's slot is free again |
| StateLists.ProcTable.MakeRunnable | proc.c:244-254 | the new process is last on the ready list of its priority |
| StateLists.ProcTable.Dispatch | proc.c:576-603 | the first process of the ready list being scanned runs, and its start is noted; nothing happens on an empty list |
| StateLists.ProcTable.Charge | proc.c:641-648 | the time is taken off the budget; when that is used up the priority number goes up by one, unless it is MAXPRIO, and the budget is BUDGET times one more than the new number |
| StateLists.ProcTable.Yield | proc.c:636-655 | the running process is charged for its time, demoted with a new budget exactly when its budget is used up, and goes to the end of its ready list |
| StateLists.ProcTable.Sleep | proc.c:682-726 | charged in the same way, the running process is last on the sleeping list |
| StateLists.ProcTable.Wakeup1 | proc.c:742-761 | exactly the first sleeper on the channel becomes ready |
| StateLists.ProcTable.FindVictim | proc.c:797-847 | a process with the id is found on whichever list it is, or there is none |
| StateLists.ProcTable.Kill | proc.c:797-847 | that process is marked, and made ready if it slept; -1 exactly when there is none |
| StateLists.ProcTable.SetPriority | proc.c:1156-1207 | a ready process of that id and another priority goes to the end of the new level's list, a sleeping or running one stays where it is, and each gets a full budget; -1 exactly when there is none, also for a ready process that has the priority already |
| StateLists.ProcTable.Disown | proc.c:335-358 | exactly the exiting process's living children go to init; its zombies do not |
| StateLists.ProcTable.Exit | proc.c:308-370 | the process is a zombie, its living children are init's, and of all others only the first sleeper on its parent's channel has changed state |
| StateLists.ProcTable.HasLivingChild | proc.c:453-487 | finds a living child exactly when there is one |
| StateLists.ProcTable.Wait | proc.c:418-499 | reaps a zombie child and frees its slot, or sleeps exactly when a living child is left and the process is not killed, or fails |
| StateLists.ProcTable.PromoteLevel | proc.c:1215-1228 | the first process of one ready list goes up a level, and the loop ends there |
| StateLists.ProcTable.RefreshList | proc.c:1213-1245 | exactly the processes of the list are raised and get a new budget |
| StateLists.ProcTable.PromoteAll | proc.c:1209-1246 | lists, priorities and budgets after a promotion, for every process |
| ExitWait.WakingKeeps | proc.c:732-740 | waking any sleepers loses no child and keeps family, ids and the account of exits |
| ExitWait.LivingChange | proc.c:636-726 | so does any change between living states |
| ExitWait.AdoptChild | proc.c:293-300 | handing a child to init loses no zombie if init is woken for it |
| ExitWait.ExitKeeps | proc.c:266-306 | becoming a zombie, once the parent is awake and the children are handed over, keeps every invariant |
| ExitWait.ReapFamily | proc.c:391-403 | freeing a zombie's slot leaves every live process with a living parent |
| ExitWait.ReapLedger | proc.c:391-403 | a process id is reaped at most once, and only after it has exited |
| ExitWait.AllocKeeps | proc.c:62-129 | a new embryo, with an id never used before, keeps every invariant |
| ExitWait.HatchFamily | proc.c:203-260 | so does leaving the embryo state, to run or to be freed |
| ExitWait.ProcTable.constructor | proc.c:134-177 | the state after `userinit` satisfies the invariant |
| ExitWait.ProcTable.Wakeup1 | proc.c:732-740 | exactly the sleepers on the channel become ready |
| ExitWait.ProcTable.Kill | proc.c:777-795 | the process is marked, and made ready if it slept; -1 exactly when no slot has the id |
| ExitWait.ProcTable.Sleep | proc.c:682-726 | the running process sleeps on a channel that is no process slot, and every invariant is kept |
| ExitWait.ProcTable.AllocProc | proc.c:62-129 | a free slot becomes an embryo with a new id, or every slot is in use |
| ExitWait.ProcTable.SetParent | proc.c:203-260 | the embryo's parent is set before it can run |
| ExitWait.ProcTable.FinishFork | proc.c:203-260 | the child is ready, with a living parent |
| ExitWait.ProcTable.PassChildren | proc.c:293-300 | all children go to init, whose sleepers are woken exactly if one of the children is a zombie |
| ExitWait.ProcTable.Exit | proc.c:266-306 | the process is a zombie and its children are init's; exactly the sleepers on its parent, and those on init if a child was a zombie, are woken; no process sleeps in wait beside a zombie child |
| ExitWait.ProcTable.Wait | proc.c:376-416 | reaps one zombie child and clears its slot, or sleeps exactly when it has children, none of them a zombie, and is not killed, or fails; it never sleeps beside a zombie child |
| PageTables.FreeListPush | kalloc.c:59-77 | a frame linked in at the head gives the free list with it in front, without duplicates |
| PageTables.EntryBits | vm.c:83 | an entry is present, has the frame's address, and has every bit of `perm` |
| PageTables.HardwareWalk | vm.c:45-65 | what is in the words of memory: a present, writable directory entry open to the user for every table, and in the table the entry of each mapped page and no other present one |
| PageTables.AddTable | vm.c:45-65 | a cleared frame entered in the directory is a table that maps nothing |
| PageTables.MapPage | vm.c:70-90 | writing the entry of an unmapped page maps that page and no other, and the space owns its frame |
| PageTables.UnmapPage | vm.c:249-273 | clearing an entry unmaps that page and no other, and the space no longer owns the frame |
| PageTables.KernelPagesStep | vm.c:115-125 | the kernel's four regions do not overlap and lie above all user pages |
| PageTables.KernelPagesAre | vm.c:115-125 | the kernel's mappings page by page: the frame, no access for the user, and writable but for the text |
| PageTables.ReachesAll | vm.c:258-262 | of the page-table entries below a limit the walk of `deallocuvm` misses none exactly when it starts at a multiple of 4MB or at a page with a table, or no later table holds a page below the limit |
| PageTables.MissedPage | vm.c:258-262 | a machine with a mapped page that a walk from page 1 leaves behind |
| PageTables.KeptComplete | vm.c:258-271 | a walk that misses no entry leaves no mapped page in its range |
| PageTables.KeptContiguous | vm.c:249-273 | in a space mapped contiguously from 0 exactly the pages of the range are removed |
| PageTables.KeptStep | vm.c:258-271 | each step of the walk removes the page it looks at, and passes over none that it can reach |
| PageTables.CopiedStep | vm.c:320-331 | copying one more page keeps the copies made before |
| PageTables.CopiedPage | vm.c:320-330 | in numbers: a copied page has the parent's flags and contents |
| PageTables.Machine.constructor | kalloc.c:19-23 | an empty free list |
| PageTables.Machine.Kfree | kalloc.c:59-77 | the frame is first on the free list; panics exactly for a frame outside the pool |
| PageTables.Machine.Freerange | kalloc.c:45-52 | exactly the whole pages in the range become free; panics exactly when one is outside the pool |
| PageTables.Machine.Kalloc | kalloc.c:82-95 | takes the first free frame, or none exactly when none is free |
| PageTables.Machine.Walk | vm.c:45-65 | finds or, if asked, makes the table of a page; fails exactly when there is none and none may or can be made; maps nothing |
| PageTables.Machine.MapOne | vm.c:79-83 | panics exactly when the page is mapped, fails only without memory, and otherwise maps it |
| PageTables.Machine.Mappages | vm.c:70-90 | on success no page of the range was mapped and exactly those are added, present, to consecutive frames, with every bit of `perm`; no frame is lost or shared, and nothing but free frames and this space's tables is written; the panic "remap" only for a page that is mapped |
| PageTables.Machine.Setupkvm | vm.c:127-144 | on success a space with exactly the kernel's mappings, which are those of `KernelPagesAre`, made of frames that were free |
| PageTables.Machine.Deallocuvm | vm.c:249-273 | unmaps and frees exactly the pages that its walk reaches, each frame once: all in the range, for a space mapped contiguously from 0 and wherever the walk is complete |
| PageTables.Machine.FreeTables | vm.c:285-291 | frees every table and then the directory, each once |
| PageTables.Machine.Freevm | vm.c:277-292 | the free frames are the old ones and all those of the space; no frame is freed twice and no panic is reached |
| PageTables.Machine.CopyPage | vm.c:319-331 | the page is mapped in the child, to a frame that was free, with the parent's flags and contents; panics exactly when the parent lacks it |
| PageTables.Machine.Copyuvm | vm.c:309-337 | on success the child maps exactly the pages below `sz`, all of which the parent has, with equal flags and contents, on distinct frames that were free; the parent and every frame in use are untouched; free frames and the child's make up the old free frames; panics only for a missing page |
| PageTables.Machine.CopyAndFree | vm.c:277-337 | freeing a copy restores exactly the set of free frames |
| Pipe.CountSteps | pipe.c:83-93 | the tests and steps of the wrapping counters are those of the number of buffered bytes |
| Pipe.PutView | pipe.c:92 | a byte stored at the write counter is last in the queue |
| Pipe.GetView | pipe.c:115 | the byte at the read counter is first, and the rest is what remains |
| Pipe.Pipe.constructor | pipe.c:21-46 | an empty pipe with both ends open |
| Pipe.Pipe.Write | pipe.c:77-97 | appends exactly the bytes it reports; ends asleep or in failure exactly when they do not all fit; readers and writers sleep only when they should, unless a killed process writes more than fits beside a sleeping reader |
| Pipe.Pipe.Fill | pipe.c:83-93 | the copying loop stops at the end of the source or with the pipe full |
| Pipe.Pipe.Read | pipe.c:99-120 | returns exactly the oldest bytes, up to the number asked for, and wakes the writers; sleeps or fails exactly when the pipe is empty and can still be written |
| Pipe.Pipe.Drain | pipe.c:112-116 | the copying loop takes the oldest bytes, in order |
| Pipe.Pipe.Close | pipe.c:58-74 | wakes the processes that sleep on the other end |
| Pipe.StrandedReader | pipe.c:84-88 | a run that ends with a reader asleep on a full pipe |
| ShellParser.Skip | sh.c:371-372 | stops at a character that is not white space, or at the end |
| ShellParser.SkipsSpaces | sh.c:371-372 | passes over white space only |
| ShellParser.Characters | sh.c:361-362 | the five white-space characters and the seven symbols |
| ShellParser.WordEnd | sh.c:396-397 | everything up to it, and not the character at it, is in the word |
| ShellParser.Token | sh.c:364-407 | the cursor advances unless at the end, and a word token is a whole word |
| ShellParser.Redirs | sh.c:473-496 | terminates on every input; every file is a whole word |
| ShellParser.Args | sh.c:514-545 | terminates on every input; every argument is a whole word, and there are fewer than MAXARGS |
| ShellParser.Line | sh.c:443-458 | terminates on every input, with a cursor in range and only whole words in the command |
| ShellParser.Parser.Gettoken | sh.c:364-407 | the loops find the specified token |
| ShellParser.Parser.Peek | sh.c:409-419 | skips white space and tests the next character |
| ShellParser.Parser.ParseRedirs | sh.c:473-496 | the loop wraps the command in its redirections, in order, or reports a missing file |
| ShellParser.Parser.ParseArgs | sh.c:525-544 | the loop fills the arguments inside the redirections met so far |
| ShellParser.Parser.ParseExec | sh.c:514-545 | a block or a simple command |
| ShellParser.Parser.ParseBlock | sh.c:498-512 | a line in parentheses and its redirections, or a missing parenthesis |
| ShellParser.Parser.ParsePipe | sh.c:460-471 | pipelines associate to the right |
| ShellParser.Parser.ParseLine | sh.c:443-458 | the loop puts the pipeline in the background once for each `&`; lists associate to the right |
| ShellParser.ParseCmd | sh.c:426-441 | the parsed command; leftovers are an error; on success every argument and file, read as a C string, is exactly its own token; on failure the buffer is as it was |
| ShellParser.Nulterminate | sh.c:548-592 | a NUL at every word's end, and no other change |
| ShellParser.EndsOutside | sh.c:548-592 | no word's end lies inside a word |
| ShellParser.CommandReads | sh.c:548-592 | in a buffer cut at all ends, every word reads as its own token |
| ShellParser.TokenAt | sh.c:364-407 | in a line of tokens with any white space around them the tokens read are the tokens written |
| ShellParser.ExecAt | sh.c:514-545 | the tokens of a command, followed by anything but an opening parenthesis, are read as that command |
| ShellParser.LineAt | sh.c:443-458 | the tokens of a line, followed by a closing parenthesis or nothing, are read as that line |
| ShellParser.ReadsBack | sh.c:426-592 | the tokens of any command with clean words and fewer than MAXARGS arguments, with any runs of blanks, tabs, returns, newlines and vertical tabs in front, between and behind, and none needed but between two words or two arrows, parse to that command, `>>` taken for `>` |
| ShellParser.Operators | sh.c:378-397 | what each operator between two words means, without white space, and two words apart |
| ShellParser.RoundTrip | sh.c:426-592 | parsing the printed form of any command with clean words and fewer than MAXARGS arguments gives it back, `>>` taken for `>` |
| ShellParser.AppendIsWrite | sh.c:483-493 | a line with `>>` in place of any of its `>` parses to the same command |
| ShellParser.ParsedPrintable | sh.c:426-592 | every command that the parser produces is of that kind |
| ShellParser.Reprint | sh.c:426-592 | so printing what was parsed, and parsing that, gives the same command |
| ShellParser.TooMany | sh.c:535-539 | a line whose first command has MAXARGS arguments or more, with any redirections among them, is refused |
| ShellParser.TooManyAt | sh.c:530-541 | such a command is refused wherever it stands, whatever follows |
| Regex.InLanguageCons | grep.c:84-96 | a word of a pattern is a word of its first item followed by a word of the rest |
| Regex.HereCons | grep.c:84-96 | a pattern matches a text exactly when a word of its first item can be taken off and the rest matches what remains |
| Regex.HereEmpty | grep.c:87-92 | the empty pattern matches everything, and a final `$` the empty text only |
| Regex.SingleCharacter | grep.c:93 | `.` matches any one character, and another character itself only |
| Regex.LiteralHere | grep.c:84-96 | a pattern of ordinary characters matches exactly at the start of the texts that begin with it |
| Regex.LiteralWhole | grep.c:91-92 | with a final `$`, that text only |
| Regex.LiteralOccurs | grep.c:72-82 | it occurs exactly in the texts that have it somewhere, and under `^` in those that begin with it |
| Regex.StarHere | grep.c:98-106 | a starred character takes exactly the runs of that character, and with `.` anything |
| Regex.MatchHere | grep.c:84-96 | true exactly when some prefix of the text is in the pattern's language, the whole text under `$` |
| Regex.MatchStar | grep.c:98-106 | true exactly when the rest matches after some run of accepted characters |
| Regex.Match | grep.c:72-82 | true exactly when the pattern occurs in the text, at its start under `^` |

## Left out

- StateLists.ProcTable.SetPriority: priority MAXPRIO + 1, which the range test lets through and which has no ready list, is excluded; every other value is covered.
- Malloc.Allocator.Malloc: `sbrk` gives memory above everything it gave before, and only for an argument that is positive as a signed number. A request that asks it for 2GB or more, or for 0 bytes because the product in `morecore` wraps, can succeed without giving memory (`growproc` shrinks the process or leaves it as it is); such a request is covered where a free block fits it or `sbrk` fails.
- PageTables.Machine.Copyuvm: the frames that a failing copy does not give back are not accounted for; conservation is stated for success.
- PageTables.Machine.Setupkvm: a failing call does not give its frames back, and the model says nothing about how many it loses.
- PageTables.Machine.Kfree: a frame that is free already, which the C code links in twice, is excluded; that every caller here meets this is part of what is proved.
- PageTables.Machine.Freerange: as for `Kfree`, the frames are not free before.
- PageTables.Machine.Mappages: frames mapped below the kernel belong to nobody, as those fresh from `kalloc` do; a wrapping range is excluded.
- BufferCache.Cache.Bget: there is one device, so a block is named by its number alone, and the loop after a wakeup is another call.
- BufferCache.Cache.Brelse: a buffer that was changed and neither logged nor written is excluded; on top of the log this is an invariant (`Log.LogManager.Release`).
- Log.CopyBlock: a home block that another process holds is excluded; the wait for it is in `LogRuns.FinishCopy`.
- Log.LogManager.WriteLog: listed blocks are not held, so that the loop runs through; `LogRuns.FinishCopy` has the wait.
- Log.LogManager.InstallTrans: listed blocks are not held, as for `WriteLog`.
- Log.LogManager.Commit: listed blocks are not held, as for `WriteLog`; disk writes of single blocks are atomic, and logged blocks lie outside the log area.
- GroupCommit.LogState.LogWrite: that an operation makes at most MAXOPBLOCKS calls is a hypothesis; `filewrite` sizes its chunks from LOGSIZE.
- FileBlocks.FileSystem.Readi: device inodes, which go to the device table, are not modelled, and neither is the type, link count or mode of an inode.
- FileBlocks.FileSystem.Writei: device inodes are not modelled; what has been written when an operation panics because every block is in use is not stated.
- FileBlocks.FileSystem.Itrunc: it is called inside an operation, so that its writes to the log do not panic.
- FileBlocks.FileSystem.Bfree: as for `Itrunc`.
- Journal.Files.Write: the allowance of MAXOPBLOCKS calls is a hypothesis, as for `GroupCommit.LogState.LogWrite`.
- Journal.Files.Begin: begun between the writes of commits; while a commit writes, `GroupCommit.LogState.BeginOp` sleeps.
- ShellParser.Parser.ParseArgs: the C code fills `argv` through a pointer into a tree that is already wrapped in redirections; the model updates the tree as a value.
- Process ids and tick counts are unbounded; the C code's are 32-bit.
- `allocproc` of the list build moves its process outside the lock; the model takes the move as one step.
- `allocuvm`, `loaduvm`, `copyout` and `exec`: they would add members of the kind already here.
- Directories, path names, inode allocation and reference counts.
- The boot code, interrupt controllers, serial line, keyboard, console, timer and port input and output; a disk request that fails.
- Context switches, traps and system-call dispatch; scheduling is the order of calls.
- File ownership and mode bits, and the checks of `exec`.
- grep's line buffering, which drops a line longer than its buffer.
- Listing and dumping of processes, printing, and the test programs.
