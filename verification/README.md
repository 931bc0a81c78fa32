# Models of xv6's file system, memory and shell, and of four synchronisation programs

This project models the parts of the repository whose correctness spans several functions, and
proves what they are for. Each module follows one component; code that changes state in place is a
class whose methods are proved against specification functions, and the theorems are about those
functions.

| files | component |
|---|---|
| `Bio.dfy` | the buffer cache (bio.c) over the memory disk (memide.c) |
| `CrashSafety.dfy`, `Log.dfy`, `Transactions.dfy` | the redo log: what it does to the disk one write at a time, the code that does it, and a transaction from its first write to the recovery after a crash |
| `GroupCommit.dfy` | begin_op, log_write and end_op as a protocol between processes |
| `FileBlocks.dfy`, `Inode.dfy` | block bitmap, block maps, readi, writei, itrunc, filewrite |
| `Frames.dfy`, `Vm.dfy`, `CowRefinesEager.dfy` | counted frames, address spaces, and copy-on-write fork against eager fork |
| `Umalloc.dfy` | the Kernighan-Ritchie storage allocator |
| `ShellLanguage.dfy`, `ShellGrammar.dfy`, `ShellParser.dfy` | the language of the shell's command lines, its recursive-descent parser and nulterminate |
| `Regexp.dfy` | grep's matcher |
| `Pipe.dfy` | pipes over sleep and wakeup |
| `RwLocks.dfy`, `MasterWorker.dfy` | the two read-write locks and the bounded buffer over POSIX condition variables |
| `Params.dfy`, `Elements.dfy` | sizes and lists of blocks that the file-system models share |

## What the code turned out to need

Where a natural property does not hold of the code, the model keeps the code and the project proves
when it holds.

- **No size of log is safe.** Operations that stay within their reservations of ten blocks, and log a block once each, can
  still panic. They can reach log_write's guard (`log.size - 1`) if and only if `log.size <= LOGSIZE`, which is what
  mkfs makes it (`LogWritePanicsIff`). With a larger log they can fill the header, and then commit, which reads a log
  slot beside the pinned blocks, meets bget's panic: with at least LOGSIZE buffers, if and only if there are no
  more than LOGSIZE of them (`CommitPanicsIff`; on the cache, `CommitHasSpare` and `FullCommitPanics`). NBUF equals
  LOGSIZE, so one or the other is reachable whatever the size of the log (`NoSizeIsSafe`). No run panics if and only if both
  the log and the cache are larger than LOGSIZE (`SafeIff`).
- **Absorption on a full header.** Logging a block again needs no room, but log_write tests the header first: with any size of
  log the guard is reachable by operations that log a block twice (`RewriteOnFullLogPanics`). An operation within
  its reservation passes exactly while the header is not full (`LogWritePasses`).
- **malloc's arithmetic.** The 32-bit sum `nbytes + sizeof(Header) - 1` wraps: the block is large enough for
  the request if and only if `nbytes <= 2^32 - 8` (`UnitsSuffice`). sbrk takes a signed int: it is asked for the
  chunk that morecore records if and only if the chunk has fewer than `2^28` units (`SbrkAsksEnough`).
- **Shrinking to nothing.** growproc takes a new size of 0 for an error: the pages are gone but `sz` stays, and a fork of
  that process panics in copyuvm, in both versions (`ShrunkToNothing`). A process can be forked if and only if it has not
  shrunk to 0 since it was spawned or forked (`ForkIff`, kept by every operation: `StepTracks`).
- **Killed writers.** A writer that is killed when the pipe is full returns without a wakeup. It leaves a sleeping
  reader in front of a full pipe if and only if a reader slept and more than PIPESIZE bytes were still to be written
  (`Pipewrite`, `KilledWriterStrandsReader`).
- **Threads that all wait.** The master-worker threads can all come to be asleep if and only if there are items and a thread,
  and the buffer has no room, or there is no master, or there is no worker and more items than room (`StuckIff`). With a
  master, a worker and an item that leaves `max_buf_size == 0`.
- **writei's iupdate.** It writes the inode back only when the file grew. That suffices because files have no holes:
  a block is allocated only past the old size, and `Writei` ends with the disk's inode equal to the one in memory.

## Model

| member | source | states |
|---|---|---|
| Bio.BufCache.constructor | xv6-public(1)/bio.c:38-56 | binit links all NBUF buffers into one ring; the cache then shows exactly the disk |
| Bio.BufCache.Victim | xv6-public(1)/bio.c:81-83 | the buffer found from the tail is idle, clean, and the one released longest ago |
| Bio.BufCache.Bget | xv6-public(1)/bio.c:61-93 | a cached block's own buffer, else the oldest idle clean one renamed; no held or dirty buffer is touched and no block gets two buffers |
| Bio.BufCache.Bread | xv6-public(1)/bio.c:96-106 | the buffer holds what the cache shows for the block: a pinned content over the disk's |
| Bio.BufCache.Iderw | xv6-public(1)/memide.c:38-60 | a dirty buffer goes to its disk block and becomes clean, an invalid one is filled from it |
| Bio.BufCache.Bwrite | xv6-public(1)/bio.c:108-116 | exactly one disk write, of this buffer's block, and the block is no longer pinned |
| Bio.BufCache.Pin | xv6-public(1)/log.c:231 | a dirty buffer shows its content over the disk until it is written |
| Bio.BufCache.Brelse | xv6-public(1)/bio.c:118-141 | one holder fewer; the last release moves the buffer to the front of the ring and dates it |
| Bio.UnlinkKeepsRing | xv6-public(1)/bio.c:132-133 | taking a buffer out of the doubly linked ring leaves a ring of the others in their order |
| Bio.PushFrontKeepsRing | xv6-public(1)/bio.c:134-137 | putting a buffer at the head leaves a ring with it in front of the old order |
| Bio.MoveFrontKeepsRing | xv6-public(1)/bio.c:130-138 | the six assignments of brelse keep the ring a permutation of all buffers |
| Bio.SpareExists | xv6-public(1)/bio.c:78-92 | bget finds an idle clean buffer if and only if fewer blocks are held or pinned than there are buffers |
| Bio.BufCache.NoRoomPanics | xv6-public(1)/bio.c:81-92 | a block that is neither held nor pinned and finds no idle buffer is not cached either: bget panics |
| Bio.AfterHit | xv6-public(1)/bio.c:69-76 | counting one more holder keeps the cache coherent with the disk |
| Bio.AfterRecycle | xv6-public(1)/bio.c:81-91 | renaming an idle clean buffer loses no content and keeps one buffer per block |
| Bio.AfterWrite | xv6-public(1)/bio.c:108-116 | writing a buffer through keeps what the cache shows of every other block |
| CrashSafety.CrashAtomic | xv6-public(1)/log.c:192-202 | crash after any disk write of a commit, then crash any number of recoveries anywhere: the first completed one leaves the old home blocks, or the new ones exactly if the header write was made |
| CrashSafety.BeforeCommitPoint | xv6-public(1)/log.c:176-190 | up to the header write only log slots differ and recovery installs nothing |
| CrashSafety.AfterCommitPoint | xv6-public(1)/log.c:192-202 | from the header write on, recovery ends on the same disk wherever the commit stopped |
| CrashSafety.RecoveryRestartable | xv6-public(1)/log.c:115-122 | wherever a recovery crashes, the next ends on the disk this one would have ended on |
| CrashSafety.InstallIdempotent | xv6-public(1)/log.c:68-82 | installing again after a partial install gives what one whole install gives |
| CrashSafety.InstallIsApply | xv6-public(1)/log.c:68-82 | installing from the slots gives the home blocks their cached contents |
| CrashSafety.CommitEnds | xv6-public(1)/log.c:192-202 | a finished commit leaves the new home blocks and an empty log, ready for the next |
| CrashSafety.CommitAllIsApplyAll | xv6-public(1)/log.c:192-202 | any list of commits leaves the home blocks that applying the transactions in order gives |
| CrashSafety.HistoryAtomic | xv6-public(1)/log.c:115-122 | after any history, a crash in its last commit and crashed recoveries bring back the history without the last transaction, or with it once its header was written |
| Log.RedoLog.LogWrite | xv6-public(1)/log.c:213-233 | the block is pinned with its new content and listed once |
| Log.RedoLog.WriteLog | xv6-public(1)/log.c:176-190 | the disk writes are exactly the filling of the log slots with the pinned contents, in order |
| Log.RedoLog.WriteHead | xv6-public(1)/log.c:98-113 | one disk write, which makes the header name the logged blocks |
| Log.RedoLog.InstallTrans | xv6-public(1)/log.c:68-82 | the disk writes are exactly the installing of the slots, and nothing stays pinned |
| Log.RedoLog.Commit | xv6-public(1)/log.c:192-202 | the code's disk writes, in order, are the trace that CrashAtomic is about, whatever other blocks readers hold; a commit of nothing writes nothing |
| Log.RedoLog.RecoverFromLog | xv6-public(1)/log.c:115-122 | recovery's disk writes are the trace that RecoveryRestartable is about, whatever crash preceded it |
| Log.RedoLog.ReadHead | xv6-public(1)/log.c:84-96 | the list in memory becomes the one in the disk's header |
| Log.CommitHasSpare | xv6-public(1)/log.c:176-190 | commit has the buffer it needs if and only if the blocks held or logged are fewer than NBUF |
| Log.FullCommitPanics | xv6-public(1)/log.c:182-184 | with NBUF blocks logged the first bread of a log slot is bget's panic |
| Transactions.Transaction | xv6-public(1)/log.c:192-233 | any writes through bread, log_write and brelse, then commit: the disk writes are a commit trace whose transaction is those writes, each block its last one |
| Transactions.AppliesWrites | xv6-public(1)/log.c:223-231 | applying the pinned contents of the listed blocks is making the writes in order |
| Transactions.Reboot | xv6-public(1)/log.c:53-66 | power lost after any of those disk writes, and in any number of recoveries: the code's recovery on a cold cache leaves the home blocks without the transaction's writes or with all of them |
| GroupCommit.StepKeepsInv | xv6-public(1)/log.c:124-174 | every step keeps: committing only with nothing outstanding, no block listed twice, and the list plus the unused reservations within LOGSIZE |
| GroupCommit.PanicsHaveCause | xv6-public(1)/log.c:124-202 | an interleaving of operations within their reservations, each block logged once by each, panics only in log_write with log.size at most LOGSIZE, or in commit with no more than LOGSIZE buffers and a larger log |
| GroupCommit.RunSafe | xv6-public(1)/log.c:124-202 | with both the log and the cache larger than LOGSIZE no such interleaving panics, commit included |
| GroupCommit.LogWritePasses | xv6-public(1)/log.c:213-221 | with a log larger than LOGSIZE an operation within its reservation passes log_write's tests exactly while the header is not full, and a first write always finds it so |
| GroupCommit.AdmittedIff | xv6-public(1)/log.c:125-141 | begin_op lets an operation in exactly if no commit runs and the whole reservations of all operations, with its own, fit the header; else it sleeps, and nobody else is touched |
| GroupCommit.CommitLetsIn | xv6-public(1)/log.c:167-173 | after a commit whichever process tests next is let in |
| GroupCommit.SleeperHasWaker | xv6-public(1)/log.c:129-134 | a process asleep in begin_op always has an active operation or a commit that will wake it |
| GroupCommit.EndWakes | xv6-public(1)/log.c:150-173 | the end of an operation or commit leaves no process asleep unless a commit begins |
| GroupCommit.LogWritePanicsIff | xv6-public(1)/mkfs.c:25 | such operations can reach log_write's panic if and only if log.size is at most LOGSIZE, as mkfs makes it |
| GroupCommit.CommitPanicsIff | xv6-public(1)/bio.c:81-92 | with at least LOGSIZE buffers, they can leave commit without a buffer if and only if the buffers are no more than LOGSIZE and the log is larger |
| GroupCommit.SafeIff | xv6-public(1)/param.h:10-12 | no run panics if and only if both the log and the cache are larger than LOGSIZE |
| GroupCommit.NoSizeIsSafe | xv6-public(1)/param.h:10-12 | with NBUF buffers some run panics, whatever the size of the log |
| GroupCommit.RewriteOnFullLogPanics | xv6-public(1)/log.c:218-219 | with any log size, operations within their reservations that may log a block again can reach the panic |
| Frames.KallocKeepsInv | xv6-public(1)/kalloc.c:112-134 | the first free frame gets its only reference, and counts, free list and exclusive writers stay exact |
| Frames.KfreeKeepsInv | xv6-public(1)/kalloc.c:71-107 | dropping a reference keeps counts exact; the frame is freed exactly when it was the last |
| Frames.ShareKeepsInv | xv6-public(1)/kalloc.c:156-171 | a second read-only reference keeps counts exact and writers exclusive |
| Frames.ProtectKeepsInv | xv6-public(1)/vm.c:336-337 | taking PTE_W away keeps every user page writable after at most a fault |
| Frames.CountZero | xv6-public(1)/kalloc.c:87-96 | a count is zero exactly if nobody refers to the frame, and is never negative |
| Frames.CountsDetermined | xv6-public(1)/kalloc.c:87-96 | the same references give the same counts |
| Frames.FramesConserved | xv6-public(1)/kalloc.c:136-154 | free frames and frames in use always add up to all frames |
| Vm.AddressSpaces.Kalloc | xv6-public(1)/kalloc.c:112-134 | fails exactly on an empty free list; else the first free frame, which nobody else refers to |
| Vm.AddressSpaces.Kfree | xv6-public(1)/kalloc.c:71-107 | removes one reference and frees the frame exactly if it was the last; every page still referred to keeps its contents |
| Vm.AddressSpaces.Walk | xv6-public(1)/vm.c:35-55 | the page gets a page-table page, for one frame if it was missing, and no other reference changes; it fails exactly if one is missing and no frame is free |
| Vm.AddressSpaces.MapPage | xv6-public(1)/vm.c:60-80 | the frame becomes the contents of the page, or nothing changed and no frame is left |
| Vm.AddressSpaces.Setupkvm | xv6-public(1)/vm.c:117-136 | a directory and the 64 page-table pages of the kernel's mappings, taking 65 frames, if and only if 65 are free; else nothing, and as many are free as before |
| Vm.AddressSpaces.Allocuvm | xv6-public(1)/vm.c:219-249 | zeroed pages up to the new size exactly if there is a free frame for each and for each page-table page they lack, and then so many are taken; else the address space as it was |
| Vm.AddressSpaces.Deallocuvm | xv6-public(1)/vm.c:251-279 | exactly the pages between the sizes go, also where whole page-table pages are missing |
| Vm.AddressSpaces.Freevm | xv6-public(1)/vm.c:281-298 | every reference of the address space goes and no other |
| Vm.AddressSpaces.ShareOne | xv6-public(1)/vm.c:326-349 | a round of the copy-on-write loop shares the frame and changes no contents the parent sees |
| Vm.AddressSpaces.CopyOne | xv6-public/vm.c:325-339 | a round of the eager loop gives the child a copy in a frame of its own |
| Vm.AddressSpaces.Copyuvm | xv6-public(1)/vm.c:313-355 | either version succeeds exactly if 65 frames, one for each page-table page and, when eager, one for each page are free, and takes so many; the child sees the parent's pages, in the parent's frames if copy-on-write; on failure contents, references, counts and the number of free frames are as before |
| Vm.AddressSpaces.HandleFault | xv6-public(1)/vm.c:405-447 | the page becomes writable in a frame of its own and nobody's contents change; it takes one frame and gives the old one back exactly if nobody else refers to it |
| Vm.AddressSpaces.Store | xv6-public(1)/vm.c:405-447 | a store, through the fault when needed, changes one byte of one page of one process; it finds no frame exactly if the page is the user's, not writable, and none is free |
| Vm.SlotsNext | xv6-public(1)/vm.c:104-115 | the kernel's mappings take 64 slots of the page directory, all at or above KERNBASE |
| Vm.TablesForCounts | xv6-public(1)/vm.c:35-55 | n pages from 0 on fall into as many directory slots as copyuvm takes page-table pages for them |
| Vm.TakenIsNeed | xv6-public(1)/vm.c:324-350 | page after page the frames of copyuvm add up to the number that decides whether it succeeds |
| Vm.GrabbedIsNeed | xv6-public(1)/vm.c:230-247 | page after page the frames of allocuvm add up to the pages and the page-table pages that they lacked |
| Vm.SameFree | xv6-public(1)/vm.c:281-298 | the same references leave as many frames free: what a failed setupkvm or copyuvm took has all come back |
| Vm.WritableExclusive | xv6-public(1)/vm.c:336-340 | a writable mapping is the only reference to its frame |
| CowRefinesEager.Kernel.Do | xv6-public(1)/vm.c:219-355 | each operation does to the visible contents what it does to private copies, or answers NoMem: if and only if fewer frames are free than it needs; making, growing and forking a process take exactly those, and a store takes one for a page that others still share |
| CowRefinesEager.Kernel.DoShrink | xv6-public(1)/proc.c:168-175 | shrinking, with growproc's failure at size 0 |
| CowRefinesEager.ForkIff | xv6-public(1)/vm.c:326-330 | copyuvm meets no panic exactly if the process has not shrunk to 0 since it was spawned or forked |
| CowRefinesEager.ShrunkToNothing | xv6-public(1)/proc.c:168-170 | right after a shrink to 0 a process cannot be forked |
| CowRefinesEager.StepTracks | xv6-public(1)/proc.c:158-175 | every operation keeps account of which processes have all their pages |
| CowRefinesEager.Kernel.Run | xv6-public/vm.c:313-345 | every run of grows, shrinks, forks, frees, loads and stores gives the answers that private copies give, up to the first operation with fewer free frames than it needs; all of them if there are frames enough for the run |
| CowRefinesEager.SideBySide | xv6-public(1)/vm.c:313-355 | a copy-on-write and an eager kernel answer every run alike, each up to where it runs out of frames; each gives all the answers of private memory when it has the frames that its operations can need |
| CowRefinesEager.FramesBounded | xv6-public(1)/vm.c:219-249 | what an operation needs is bounded by the sizes of the processes, whatever is shared |
| CowRefinesEager.MissingBounded | xv6-public(1)/vm.c:219-249 | pages below hi lack at most the page-table pages of hi pages |
| Umalloc.InsertSorted | xv6-public(1)/umalloc.c:33-42 | after a free the list is in address order and no two free blocks touch |
| Umalloc.InsertCovers | xv6-public(1)/umalloc.c:33-42 | the free units are exactly the old ones and the freed block's |
| Umalloc.FreeLinks | xv6-public(1)/umalloc.c:33-42 | the two tests of free relink the headers into the circle of the new list |
| Umalloc.FreedLive | xv6-public(1)/umalloc.c:24-44 | the other allocated blocks stay whole and apart, and no unit is lost |
| Umalloc.CutCovers | xv6-public(1)/umalloc.c:75-82 | a cut takes exactly its units from the free ones |
| Umalloc.CutLive | xv6-public(1)/umalloc.c:75-84 | the block cut off is apart from every free and allocated block, and no unit is lost |
| Umalloc.ChunkLive | xv6-public(1)/umalloc.c:54-58 | a chunk from sbrk adds exactly its units |
| Umalloc.UnitsSuffice | xv6-public(1)/umalloc.c:69 | nunits covers the request and its header if and only if nbytes is at most 2^32 - 8 |
| Umalloc.SbrkAsksEnough | xv6-public(1)/umalloc.c:54 | sbrk is asked for the whole chunk if and only if it has fewer than 2^28 units |
| Umalloc.Heap.Free | xv6-public(1)/umalloc.c:24-44 | from any freep the search ends; the block is back in its place in address order, joined with the neighbours it touches |
| Umalloc.Heap.MoreCore | xv6-public(1)/umalloc.c:46-61 | exactly 4096 units, or the nu asked for if they are more, join the heap and the free list, which then has a block large enough; nothing changes when sbrk refuses |
| Umalloc.Heap.Take | xv6-public(1)/umalloc.c:75-84 | the request comes off the tail of the block found |
| Umalloc.Heap.Malloc | xv6-public(1)/umalloc.c:63-90 | ends after at most one morecore with a new allocated block of the right size, disjoint from all others: the tail of the first block from freep round that is large enough, or 0 when no block fits and sbrk refused; the heap grows exactly if no block fitted and sbrk gave the chunk, by 4096 units or the request if it is larger; unsound exactly where sbrk was asked for another size than that of the chunk and answered |
| Umalloc.Heap.FreeAreTheRest | xv6-public(1)/umalloc.c:63-90 | the free units are at every moment those from sbrk that are in no allocated block |
| Umalloc.UnitsCount | xv6-public(1)/umalloc.c:52-54 | a chunk of n units has n of them |
| FileBlocks.BitIffNamed | xv6-public(1)/fs.c:55-95 | a bitmap bit is set exactly if an inode slot or indirect entry names the block, and then one only |
| FileBlocks.TakeKeepsOwned | xv6-public(1)/fs.c:55-78 | a block that balloc takes is no metadata and no file's; zeroing it changes no block map |
| FileBlocks.NameKeepsOwned | xv6-public(1)/fs.c:378-388 | entering the new block in an inode gives it its one owner; a zeroed indirect block is an empty map |
| FileBlocks.EnterKeepsOwned | xv6-public(1)/fs.c:389-394 | entering the new block in an indirect block gives it its one owner and disturbs no other entry |
| FileBlocks.WriteKeepsOwned | xv6-public(1)/fs.c:501 | writing a data block changes no block map |
| FileBlocks.ReleaseKeepsOwned | xv6-public(1)/fs.c:80-95 | a block whose name was erased has its bit set, so bfree does not reach its panic, and may be freed |
| FileBlocks.KeepsFile | xv6-public(1)/fs.c:481-511 | a change confined to one slot leaves every other file's contents |
| FileBlocks.SetEntryGets | xv6-public(1)/fs.c:390-392 | four-byte entries read back what was stored and keep the others |
| Inode.FileSystem.Balloc | xv6-public(1)/fs.c:55-78 | the lowest free block, zeroed; it panics exactly when there is none |
| Inode.FileSystem.Places | xv6-public(1)/fs.h:38-48 | the bitmap block and the inode block that are logged are those that hold the bit and the inode |
| Inode.FileSystem.Bmap | xv6-public(1)/fs.c:370-400 | the block named by the slot, a fresh zeroed one if there was none; no other slot of any file changes, and everything changed on the disk is logged |
| Inode.FileSystem.Readi | xv6-public(1)/fs.c:449-476 | exactly the bytes of the file from off to the smaller of off + n and its end, and nothing changes |
| Inode.FileSystem.Writei | xv6-public(1)/fs.c:478-511 | src is spliced into the file's bytes at off, no hole appears, every other file is as before; the transaction logs every block, bitmap block and inode block whose content changed, and at most LogBound blocks |
| Inode.FileSystem.CarriedOn | xv6-public(1)/log.c:213-233 | what two steps changed is in the blocks that they log together |
| Inode.FileSystem.Itrunc | xv6-public(1)/fs.c:402-435 | the file is empty, exactly its blocks are freed, no double free is reached, and every bitmap and inode block changed is logged |
| Inode.FileSystem.WriteChunk | xv6-public(1)/file.c:138-146 | one transaction splices one chunk in, logs all it changes and stays within the reservation |
| Inode.FileSystem.Filewrite | xv6-public(1)/file.c:115-156 | the chunks together splice src in, every chunk's transaction logs at most MAXOPBLOCKS blocks and all transactions together log every block changed, -1 comes back exactly for a bad offset or an oversized file, and then exactly the whole chunks that fit the largest file are written |
| Inode.ChunkFits | xv6-public(1)/file.c:133 | the bound on a write's logged blocks is within the reservation for a chunk of the size filewrite chooses, at any offset, and is not for one block more |
| Inode.SizeOfLedger | xv6-public(1)/fs.c:498-504 | the distinct blocks of a write: one a round, one bitmap block a hole, and the indirect block with its bitmap block |
| Inode.SpliceTwice | xv6-public(1)/file.c:135-152 | consecutive writes compose to one |
| Inode.Spliced | xv6-public(1)/fs.c:498-509 | the blocks and size that the loop leaves are the spliced bytes, with no hole |
| ShellGrammar.RoundTrip | xv6-public(1)/sh.c:327-446 | printing any command tree with at most 9 words a command and parsing the text rebuilds the tree |
| ShellGrammar.LineRoundTrip | xv6-public(1)/sh.c:344-359 | the same for parseline anywhere in a line, before a closing parenthesis or the end |
| ShellGrammar.BackRoundTrip | xv6-public(1)/sh.c:349-353 | parsepipe and the trailing ampersands read back a background command |
| ShellGrammar.PipeRoundTrip | xv6-public(1)/sh.c:361-372 | parsepipe reads back a pipeline, to the right |
| ShellGrammar.ExecRoundTrip | xv6-public(1)/sh.c:415-446 | parseexec reads back a simple command or a block with its redirections |
| ShellGrammar.RedirsParsed | xv6-public(1)/sh.c:374-397 | parseredirs reads back the redirections in order |
| ShellGrammar.ArgsParsed | xv6-public(1)/sh.c:431-442 | the loop of parseexec reads back words and redirections up to the next operator |
| ShellLanguage.ParsesIff | xv6-public(1)/sh.c:265-446 | a line is parsed to a command if and only if it is a way to write that command: any blanks or none around symbols, words as long as they can be, > or >>, redirections among the words and after blocks, parentheses wherever a command may stand; it panics if it is a way to write none |
| ShellLanguage.LexAll | xv6-public(1)/sh.c:265-308 | every line consists of tokens |
| ShellLanguage.Head | xv6-public(1)/sh.c:265-308 | gettoken answers the first token of the line, wherever the blanks are, and goes on at the others |
| ShellLanguage.Peeks | xv6-public(1)/sh.c:310-320 | peek tells whether the next token starts with one of the symbols |
| ShellLanguage.ArgsComplete | xv6-public(1)/sh.c:431-446 | any mixture of at most 9 words and of redirections is read, each kind in its order |
| ShellLanguage.ArgsSound | xv6-public(1)/sh.c:431-446 | what the loop of parseexec read was such a mixture |
| ShellLanguage.LineComplete | xv6-public(1)/sh.c:344-359 | a line of the language before a closing parenthesis or the end is parsed to its command |
| ShellLanguage.LineSound | xv6-public(1)/sh.c:344-359 | what parseline accepted is a line of the language that means the tree it gave |
| ShellParser.LineWholeWords | xv6-public(1)/sh.c:265-308 | every word pointer of an accepted line marks a maximal word, so its end is a blank, a symbol or the terminator |
| ShellParser.EndsBetweenWords | xv6-public(1)/sh.c:448-493 | no end position lies inside any word |
| ShellParser.CutReads | xv6-public(1)/sh.c:448-493 | once NULs are at the ends, each pointer read as a C string is the slice the parser marked |
| ShellParser.Parser.Gettoken | xv6-public(1)/sh.c:265-308 | token, span and cursor are the grammar's, which ShellLanguage.Head ties to the line's tokens |
| ShellParser.Parser.Parseredirs | xv6-public(1)/sh.c:374-397 | the node given is wrapped in exactly the redirections at the cursor |
| ShellParser.Parser.ParseWords | xv6-public(1)/sh.c:431-445 | an exec node filled in after redirections point to it still gives the grammar's tree |
| ShellParser.Parser.Parseexec | xv6-public(1)/sh.c:415-446 | tree, cursor and panics are the grammar's |
| ShellParser.Parser.Parseblock | xv6-public(1)/sh.c:399-413 | tree, cursor and panics are the grammar's |
| ShellParser.Parser.Parsepipe | xv6-public(1)/sh.c:361-372 | tree, cursor and panics are the grammar's |
| ShellParser.Parser.Parseline | xv6-public(1)/sh.c:344-359 | tree, cursor and panics are the grammar's, for every line |
| ShellParser.Parser.Nulterminate | xv6-public(1)/sh.c:448-493 | a NUL at the end of every word and no other byte changed |
| ShellParser.Parsecmd | xv6-public(1)/sh.c:327-342 | read as C strings out of the cut buffer, the tree is the one command that the line is a way to write, and the call panics exactly on lines that write none; a printed tree comes back |
| Regexp.HereIsBegins | xv6-public(1)/grep.c:84-96 | matchhere succeeds exactly on texts that can be cut into instances of the pattern's elements from their beginning, all of it before a final $ |
| Regexp.HereSound | xv6-public(1)/grep.c:84-106 | a success comes with such a cut |
| Regexp.HereComplete | xv6-public(1)/grep.c:84-106 | every such cut is found |
| Regexp.StarTakes | xv6-public(1)/grep.c:98-106 | matchstar takes some instances of its character and matches the rest after them |
| Regexp.PlainIsPrefix | xv6-public(1)/grep.c:84-96 | a pattern of ordinary characters matches the texts that begin with it |
| Regexp.DotsAreAny | xv6-public(1)/grep.c:93 | n dots match the texts of at least n characters |
| Regexp.StarThenEnd | xv6-public(1)/grep.c:98-106 | c*$ matches the texts of nothing but c |
| Regexp.Match | xv6-public(1)/grep.c:72-82 | some suffix of the text, or the whole text under ^, begins with a word of the pattern |
| Regexp.Matchhere | xv6-public(1)/grep.c:84-96 | the answer is that of the pattern's language |
| Regexp.Matchstar | xv6-public(1)/grep.c:98-106 | the loop answers for every number of characters taken |
| Pipe.SlotOfWrapped | xv6-public(1)/pipe.c:93 | the wrapped 32-bit counter picks the slot of the true count |
| Pipe.WrappedTests | xv6-public(1)/pipe.c:85 | the wrapped tests for full and empty are the true ones |
| Pipe.PipeState.Put | xv6-public(1)/pipe.c:93 | one byte more written, all bytes in flight still in order |
| Pipe.PipeState.Get | xv6-public(1)/pipe.c:116 | the byte read is the oldest in flight |
| Pipe.PipeState.Wakeup | xv6-public(1)/proc.c:454-474 | every process asleep on the channel becomes runnable and no other |
| Pipe.PipeState.Pipewrite | xv6-public(1)/pipe.c:78-98 | the bytes written extend the stream; no wakeup is lost unless the writer is killed with a reader asleep and more than PIPESIZE bytes to go |
| Pipe.PipeState.Piperead | xv6-public(1)/pipe.c:100-121 | the bytes returned continue those read before; it sleeps only on an empty pipe with a writer, and no wakeup is lost |
| Pipe.PipeState.Pipeclose | xv6-public(1)/pipe.c:59-75 | the other side is woken, and nobody is inside when the pipe is freed |
| Pipe.PipeState.Do | xv6-public(1)/pipe.c:59-121 | what each event does to the stream, the processes and what their calls return: a writer puts in what fits and returns, sleeps or gives up; a reader takes what is there up to what it asked for, or waits; kills, closes and calls likewise; an event that cannot happen changes nothing |
| Pipe.PipeState.Run | xv6-public(1)/pipe.c:59-121 | any interleaving is the composition of these effects, so what is read is a beginning of what was written with at most PIPESIZE between; with no kill no reader or writer sleeps without cause |
| Pipe.Delivers | xv6-public(1)/pipe.c:78-121 | a message of any length gets through: a reader that sleeps first and a writer that fills the pipe wake each other until all of it is taken and the write has returned its length, in as many rounds as it has pipefuls |
| Pipe.ReadsToTheEnd | xv6-public(1)/pipe.c:100-121 | once the writing end is closed, reads go on to the last byte written and then return 0 |
| Pipe.NotBothAsleep | xv6-public(1)/pipe.c:85-111 | a reader and a writer are never both asleep |
| Pipe.KilledWriterStrandsReader | xv6-public(1)/pipe.c:86-89 | a run that ends with a reader asleep before a full pipe |
| RwLocks.Exclusion | pthreads-sync-code/rwlock/rwlock-writer-pref.cpp:30-39 | a thread holding the lock to write excludes every other holder |
| RwLocks.SignalWriter | pthreads-sync-code/rwlock/rwlock-writer-pref.cpp:26 | a signal wakes some waiting writer if there is one, whichever the system picks |
| RwLocks.WriterGetsLock | pthreads-sync-code/rwlock/rwlock-writer-pref.cpp:21-49 | when the last holder leaves and a writer waits, some waiting writer is woken and, going on, gets the lock, in either lock |
| RwLocks.ReadersGetLock | pthreads-sync-code/rwlock/rwlock-writer-pref.cpp:41-49 | when a writer leaves and none waits, every waiting reader is woken and, going on, gets in beside the others |
| RwLocks.WriterPref.ReaderLock | pthreads-sync-code/rwlock/rwlock-writer-pref.cpp:12-19 | a reader enters exactly if no writer holds the lock or waits for it |
| RwLocks.WriterPref.ReaderUnlock | pthreads-sync-code/rwlock/rwlock-writer-pref.cpp:21-28 | the last reader out wakes a waiting writer |
| RwLocks.WriterPref.WriterLock | pthreads-sync-code/rwlock/rwlock-writer-pref.cpp:30-39 | a writer enters exactly if nobody holds the lock |
| RwLocks.WriterPref.WriterUnlock | pthreads-sync-code/rwlock/rwlock-writer-pref.cpp:41-49 | a waiting writer is woken, else every waiting reader |
| RwLocks.WriterPref.Do | pthreads-sync-code/rwlock/rwlock-writer-pref.cpp:12-49 | a step takes the thread on from where it is in the lock's code and wakes whom the code wakes; other events touch no holder |
| RwLocks.WriterPref.Run | pthreads-sync-code/rwlock/rwlock-writer-pref.cpp:12-49 | any interleaving, with spurious wakeups, is a sequence of such steps: the fields count the holders, a writer is alone, and no wakeup is lost |
| RwLocks.SomeoneMoves | pthreads-sync-code/rwlock/rwlock-reader-pref.cpp:12-48 | while a thread waits on either lock, some thread holds the lock or is a woken writer |
| RwLocks.ReaderPref.ReaderLock | pthreads-sync-code/rwlock/rwlock-reader-pref.cpp:12-19 | a reader enters exactly if no writer holds the lock |
| RwLocks.ReaderPref.ReaderUnlock | pthreads-sync-code/rwlock/rwlock-reader-pref.cpp:21-29 | its wait never blocks, and the last reader out wakes a waiting writer |
| RwLocks.ReaderPref.WriterLock | pthreads-sync-code/rwlock/rwlock-reader-pref.cpp:31-38 | a writer enters exactly if nobody holds the lock |
| RwLocks.ReaderPref.WriterUnlock | pthreads-sync-code/rwlock/rwlock-reader-pref.cpp:40-48 | one waiting writer and every waiting reader are woken |
| RwLocks.ReaderPref.Do | pthreads-sync-code/rwlock/rwlock-reader-pref.cpp:12-48 | the same, with readers let in whenever no writer holds the lock |
| RwLocks.ReaderPref.Run | pthreads-sync-code/rwlock/rwlock-reader-pref.cpp:12-48 | any interleaving, with spurious wakeups, is a sequence of such steps: the fields count the holders, a writer is alone, and no wakeup is lost |
| MasterWorker.Pool.Generate | pthreads-sync-code/master-worker/master-worker.c:33-57 | the next item is handed out exactly if one is left and there is room; waiting workers are woken |
| MasterWorker.Pool.Work | pthreads-sync-code/master-worker/master-worker.c:61-82 | the newest item in the buffer is consumed exactly if one is there and items are left; waiting masters are woken |
| MasterWorker.Pool.Run | pthreads-sync-code/master-worker/master-worker.c:33-82 | any interleaving of the code, with spurious wakeups, is a run of the state machine, and the items handed out stay consumed or in the buffer |
| MasterWorker.EachItemOnce | pthreads-sync-code/master-worker/master-worker.c:33-82 | each item handed out is at every moment consumed once or in the buffer once |
| MasterWorker.WorkerDone | pthreads-sync-code/master-worker/master-worker.c:67-73 | a worker leaves only when every item has been consumed, each once |
| MasterWorker.AfterKeepsInv | pthreads-sync-code/master-worker/master-worker.c:33-82 | in every interleaving a thread waits or leaves only with cause |
| MasterWorker.Finishes | pthreads-sync-code/master-worker/master-worker.c:33-82 | a master and a worker that take turns, with room for one item, pass every item that is left and both leave, each having slept and been woken |
| MasterWorker.StuckIff | pthreads-sync-code/master-worker/master-worker.c:33-82 | for any numbers of items, places, masters and workers: exactly when all threads that are left can come to be asleep |
| MasterWorker.NeverStuck | pthreads-sync-code/master-worker/master-worker.c:33-82 | with room for an item, a master and a worker, the threads are never all asleep |

## Left out

- Device and boot code, the TLB, lcr3 and switchuvm, context switches and the insides of spinlocks: a region under a lock, or from a lock to a wait, is one atomic step.
- Directories, path lookup, inode reference counts and the system calls above readi, writei and filewrite.
- grep's input buffering, simplefs, alloc.c and ealloc.c, lazy mmap, the priority scan, zemaphore and the small programs.
- Device files (T_DEV) in readi and writei, and file descriptors in filewrite: the regular-file path only.
- Sleep locks on buffers and inodes: `Bio`, `Log` and `Inode` run one operation at a time; interleaving is in `GroupCommit`. A reader outside any transaction that holds a logged block makes commit wait for it; in `Commit` such a reader has let go.
- GroupCommit.CommitPanicsIff: counts the logged blocks only. Buffers that other processes hold while commit runs bring the panic earlier (`CommitHasSpare` counts them), and a cache smaller than LOGSIZE would fail operations before they commit.
- Buffers, headers and command nodes are named by indices and addresses in sequences and maps rather than by machine pointers; `head` of the buffer ring is index NBUF. buf[NBUF], lh.block[] and refcount.count[] are sequences that the methods reassign.
- Bitmap bits are booleans and a disk inode is a value; their packing into bytes of a block is not modelled, the block number it falls in is. The log header holds one number a cell.
- `Inode` works on block contents directly, counts what it logs and shows that it logs what it changes; that those contents are what `Bio` and `Log` show and commit is not composed into one theorem.
- Log.RedoLog.RecoverFromLog: asks for a header with at most LOGSIZE blocks outside the log, as every write of the log leaves it.
- Frames taken before kinit2, kernel page-table entries, exec, clearpteu and copyout are not modelled; user stores by the kernel take the same path as user stores.
- Umalloc.Heap.Malloc: sbrk's answers rise, and all but malloc's own calls of it are left out. Where it answers `sound == false` the source goes on in memory it does not have; what it then does is not modelled.
- Vm.AddressSpaces.Allocuvm: on failure the unmapped frame is freed before deallocuvm rather than after it; the new page-table pages stay, as in the source, and how many is not stated.
- Vm.AddressSpaces.Copyuvm: asks that every page below the size is present, the panics of the source being excluded.
- A process that runs out of frames in a page fault panics the kernel; the model answers NoMem and changes nothing.
- Malloc failure in the shell and runcmd; a panic ends the parse. A line holds no NUL before its end.
- Pipe.PipeState.Pipewrite: `killed` is read once a step. The page that holds the pipe is not a frame of `Frames`.
- Liveness under a fair scheduler: the lost-wakeup invariants say that a waiting thread has a cause and a waker, not that it is scheduled.
- In master-worker a negative total is allowed and a negative buffer size is not.
