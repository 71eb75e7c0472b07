# Verified models of the xv6 course kernels and the airport simulation

This project models, in Dafny, the parts of the repository where a mistake is hardest to see: the
write-ahead log and the block cache under it, the file system's block ownership, file contents,
directories and link counts, the user-level allocator, page tables and page frames, the FIFO swapper,
the blocking primitives of the kernel, the lottery scheduler, the airport's semaphores, the regular
expression matcher and the shell's parser. `dafny verify dfyconfig.toml` checks all of it.

The kernel of `offline_3` is the one modelled; `offline_4/xv6` repeats it and adds the swapper, which
is modelled from there. `offline_2` is the airport simulation.

## How the model is built

Code that changes state step by step is a class whose methods do the same assignments and loops. A C
array of structs is an `array` of a datatype, and a pointer into it is an index: the buffers of the
cache, the allocator's heap, the swapper's queue slots, the page frames. Each method is proved against
a statement about whole states, and what the source promises over many calls is proved about those
states as lemmas. A panic is a result (`None`, `false`, `Panic`) with its exact condition, or is shown
not to happen. Protocols with several threads are step relations over any number of them, one step
per region between blocking points, and their theorems speak of every run.

| files | what they hold |
|---|---|
| `Wrappers`, `Words`, `Sets`, `Blocks` | an option type; bytes and 32-bit words; sizes of sets; blocks of 512 bytes and the words in them |
| `Redo` | commit and recovery as sequences of atomic block writes; crash atomicity |
| `BufferCache`, `Log` | bio.c over the in-memory disk of memide.c; log.c over that |
| `GroupCommit` | begin_op, log_write and end_op by any number of processes |
| `FsLayout`, `FsOwnership`, `FsSpace`, `FileSystem` | free map and disk inodes; who owns which block; how many a write needs; balloc to itrunc |
| `FileWrite` | filewrite, one operation for each piece |
| `FsCrash` | the log and the file system together |
| `Links`, `Paths`, `FileTree` | link counts; path names; create, sys_link and sys_unlink |
| `Umalloc` | malloc, free and morecore |
| `Frames`, `FrameCount`, `Vm` | who owns which page frame; what growth costs in frames; kalloc.c and vm.c |
| `Swapper` | FIFO paging of one process |
| `SleepLock`, `Lottery`, `Pipe` | sleep and wakeup, the scheduler's draw, the bounded pipe |
| `VipChannel`, `VipGate`, `Belts` | two protocols of the airport, the first with the gate in front of it |
| `Grep` | the matcher |
| `Shell`, `ShellGrammar`, `ShellParser` | the reading of a command line; the grammar and what its lines mean; the parser over the line in memory |

## What the proofs found

Places where the code does not do what its comments or its design suggest, each with the exact
condition proved:

- log_write tests lh.n against LOGSIZE and against log.size - 1, both before it looks whether the
  block is in the log already (`Logging.Log.LogWrite`). With operations of MAXOPBLOCKS new blocks,
  which is what begin_op reserves for each, some run makes an admitted operation panic at every size
  of the log: a log above LOGSIZE only takes away the panics on new blocks
  (`GroupCommit.SomeRunPanics`, `GroupCommit.CanPanicOnNewBlockIff`). With at most q new blocks an
  operation there is no panic exactly when q is 0, or below MAXOPBLOCKS with log.size above
  MAXOPBLOCKS + 2q + 1 (`GroupCommit.CanPanicIff`). The log mkfs makes, LOGSIZE blocks with the
  header, allows nine blocks and not ten.
- A log above LOGSIZE is no cure for another reason: lh.n can then reach NBUF, and a cache of NBUF
  pinned blocks leaves commit no buffer for the log block (`Logging.LogBlockAvailableIff`).
- The tests run before log.lock is taken, so two processes can pass them for the same last slot and
  lh.n then exceeds the log area: possible exactly for log.size from 2 to MAXOPBLOCKS + 2q, the log
  of mkfs with q == MAXOPBLOCKS among them (`GroupCommit.CanSpillIff`).
- filewrite's pieces are small enough: seven blocks each where the free map is one block
  (`FileWrite.PiecesAreSafe`). But it writes the pieces that fit before it returns -1 for those that
  do not (`FileWrite.File.Filewrite`).
- malloc's unit count wraps for the last requests below 2^32, and sbrk's argument is an int, so it
  asks for the right amount only below 2^28 units (`Umalloc.UnitsSufficeIff`,
  `Umalloc.SbrkAsksForUnitsIff`).
- create and sys_link in a directory that has been removed but is still held break the link counts,
  and nothing in the code tests for it (`Links.CreateKeepsIff`, `Links.LinkKeepsIff`).
- Every page fault shortens the swapper's queue by one entry, uses up one more swap slot and makes
  nPagesInPhyMemory exceed the queue by one more; a swap-out with no slot free loses the page, and
  with fewer than two pages queued a fault takes dequeueFIFO's -1 for the address of a page
  (`Swapper.Process.Conservation`, `Swapper.EvictionKeepsPageIff`, `Swapper.Process.PageFault`).
- The first runnable process wins one draw more than it has tickets (`Lottery.SharesAreTickets`).
- The VIP channel can stop for good. One passenger each way, each the first of his group and inside the
  mutex the other waits for, is the only halt inside the channel (`VipChannel.HaltedIff`,
  `VipGate.TwoCanMeet`), and two passengers of the same direction can shut the gate in front of it
  (`VipGate.TwoCanShut`, `VipGate.ShutForGood`).
- `>` and `>>` parse to the same redirection (`Shell.ParseRedirs`), so the command trees have two
  modes, not three.

## Model

| member | source | states |
|---|---|---|
| Redo.HeaderRoundTrip | offline_3/log.c:85-113 | read_head gets back exactly the block list write_head wrote, whatever the header block held before |
| Redo.InterruptedKeepsLog | offline_3/log.c:115-122 | a recovery cut short after any number of its block writes leaves a well-formed log from which a complete recovery reaches the same disk |
| Redo.RecoveryIsIdempotent | offline_3/log.c:115-122 | any number of interrupted recoveries followed by a complete one gives the disk of one uninterrupted recovery |
| Redo.BeforeHeader | offline_3/log.c:177-202 | until commit's header write has reached the disk, the header and every home block are untouched |
| Redo.AfterHeader | offline_3/log.c:177-202 | once it has, the header lists the targets, the log area holds all their new contents, and no other home block has changed |
| Redo.CrashKeepsLog | offline_3/log.c:177-202 | where a crash after any k writes of commit leaves the log: as it was, full, or empty again |
| Redo.CrashThenRecovery | offline_3/log.c:115-122 | one recovery after the crash makes each home block new if the header write was among the k writes, old if not |
| Redo.CrashAtomicity | offline_3/log.c:115-202 | crash atomicity: a crash after any k block writes of commit, any number of interrupted recoveries and a complete one leave all home blocks new exactly when the header write was done, all old otherwise, and the log empty |
| BufferCache.UnlinkKeepsLinks | offline_3/bio.c:132-133 | unlinking a buffer leaves a circular doubly linked ring of the others, in order |
| BufferCache.PushFrontKeepsLinks | offline_3/bio.c:134-137 | linking it in after the head keeps the ring, with it first |
| BufferCache.PrevInvertsNext | offline_3/bio.c:45-56 | prev is the inverse of next at every buffer and at the head |
| BufferCache.FrontIsRing | offline_3/bio.c:128-138 | moving the buffer released now to the front keeps exactly the NBUF buffers on the ring, sorted by last release |
| BufferCache.RecycleKeeps | offline_3/bio.c:79-91 | recycling an idle buffer loses nothing: what it cached is what the disk holds, so no block reads differently |
| BufferCache.ChangedView | offline_3/bio.c:96-116 | writing through one buffer changes what is read of its block and of no other |
| BufferCache.OnlyPinnedDiffer | offline_3/log.c:213-233 | a block nobody has locked reads differently from its home on disk only if the log has pinned it |
| BufferCache.IdleExists | offline_3/bio.c:79-92 | fewer pinned blocks than buffers leave an idle buffer even beside those in use, so bget does not run out |
| BufferCache.Cache.constructor | offline_3/bio.c:38-56 | binit: all buffers empty and on the ring, the last one first, every block reading as on disk |
| BufferCache.Cache.Lookup | offline_3/bio.c:66-76 | the first loop of bget finds the buffer of the block exactly when there is one |
| BufferCache.Cache.Victim | offline_3/bio.c:78-91 | the second loop finds the idle buffer whose last release is oldest, and none only if no buffer is idle |
| BufferCache.Cache.Bget | offline_3/bio.c:61-93 | a cached block gains a reference; otherwise the idle buffer released longest ago is given to it; panic exactly when it is neither cached nor any buffer idle; no block reads differently |
| BufferCache.Cache.Iderw | offline_3/memide.c:38-60 | a dirty buffer becomes one atomic block write, an invalid one is filled from the disk; nothing reads differently |
| BufferCache.Cache.Bread | offline_3/bio.c:96-106 | a locked valid buffer showing what the block reads as; it fails exactly when bget finds no buffer |
| BufferCache.Cache.Bwrite | offline_3/bio.c:109-116 | exactly one block write of the buffer's data, after which the block is not pinned |
| BufferCache.Cache.Brelse | offline_3/bio.c:120-141 | the reference is dropped, the last one moving the buffer to the front of the ring; nothing reads differently |
| BufferCache.Cache.MoveToFront | offline_3/bio.c:132-137 | the six link assignments have the effect of unlinking and linking in front |
| Logging.Log.constructor | offline_3/log.c:53-66 | initlog: recovery runs first and leaves the disk recovery promises and an empty log |
| Logging.Log.ReadHead | offline_3/log.c:85-96 | the in-memory header lists exactly what the header block names |
| Logging.Log.WriteHead | offline_3/log.c:101-113 | one block write of the header naming the in-memory list |
| Logging.Log.RecoverFromLog | offline_3/log.c:115-122 | on the disk, exactly the writes of a complete recovery; afterwards the log is empty |
| Logging.Log.InstallBlock | offline_3/log.c:74-81 | one round of install_trans copies one log block to its home block |
| Logging.Log.InstallTrans | offline_3/log.c:69-82 | exactly the install writes, in order; afterwards no block is pinned |
| Logging.Log.LogBlock | offline_3/log.c:182-189 | one round of write_log copies one pinned block, as the cache shows it, to its log block |
| Logging.Log.WriteLog | offline_3/log.c:177-190 | exactly the log-area writes of the blocks as the cache shows them; all stay pinned and read as before |
| Logging.Log.Commit | offline_3/log.c:192-202 | commit puts exactly its four groups of writes on the disk and nothing else; afterwards every home block on disk is what it read as before |
| Logging.Log.LogWrite | offline_3/log.c:213-233 | panics exactly when the log is full by either limit or no operation is open, before looking for absorption; otherwise the block is listed once and pinned |
| Logging.Log.Update | offline_3/log.c:213-233 | bread, change, log_write, brelse: the new data is what reads, while the disk, home block included, is unchanged |
| Logging.Log.BeginOp | offline_3/log.c:125-141 | admits exactly when no commit is under way and the reservations still fit |
| Logging.Log.EndOp | offline_3/log.c:145-174 | the last operation out commits everything, others only stop counting |
| Logging.CrashPoint | offline_3/log.c:192-202 | cutting the history of block writes after the k-th write of a commit is the crash of Redo.CrashAtomicity |
| Logging.LogBlockAvailableIff | offline_3/log.c:177-190 | with every block pinned that the log lists and nobody holding a buffer, commit's first bread finds a buffer exactly when fewer than NBUF blocks are pinned |
| Logging.AfterCommit | offline_3/log.c:192-202 | after commit the log is empty and every home block holds what it read as |
| GroupCommit.StepKeepsInv | offline_3/log.c:125-174 | every step of every process keeps lh.n plus unused reservations within LOGSIZE, and within MAXOPBLOCKS + 2q when operations log at most q new blocks; one process at most in commit, and none while an operation is open |
| GroupCommit.RunsAreSafe | offline_3/log.c:125-174 | the same over every run of any number of processes: reservation bound, no block listed twice, committing implies outstanding is 0, one committer |
| GroupCommit.NeverStuck | offline_3/log.c:125-174 | no deadlock: in every reachable state some process can begin or end an operation, finish its log_write or go on with its commit, and with nothing under way begin_op admits |
| GroupCommit.CommitCoversExactly | offline_3/log.c:145-174 | over every run the log lists exactly the blocks written since the previous commit, and when commit runs all operations that wrote them have ended |
| GroupCommit.NewBlockPanicsIff | offline_3/log.c:218-221 | a write of a new block within the budget panics exactly when the log area, not LOGSIZE, is full |
| GroupCommit.AbsorbedBlockPanicsIff | offline_3/log.c:218-230 | a write of a block already in the log panics exactly when lh.n has reached LOGSIZE or log.size - 1; the former only once every operation in progress has logged MAXOPBLOCKS new blocks |
| GroupCommit.CanPanicIff | offline_3/log.c:213-233 | with at most q new blocks an operation, some run makes log_write panic exactly when q > 0 and q is MAXOPBLOCKS or log.size is at most MAXOPBLOCKS + 2q + 1 |
| GroupCommit.SomeRunPanics | offline_3/log.c:218-219 | with MAXOPBLOCKS new blocks an operation, what begin_op reserves, some run panics at every log.size |
| GroupCommit.CanPanicOnNewBlockIff | offline_3/log.c:213-221 | some run panics on a write of a new block exactly when log.size is at most MAXOPBLOCKS + 2q, LOGSIZE for the q begin_op reserves |
| GroupCommit.CanSpillIff | offline_3/log.c:218-232 | as the tests run before log.lock is taken, some run makes lh.n exceed the log area exactly when q > 0 and log.size is from 2 to MAXOPBLOCKS + 2q |
| FsLayout.BitInAfter | offline_3/fs.c:56-95 | setting or clearing a free-map bit changes that bit of the block and no other |
| FsLayout.DinodeRoundTrip | offline_3/fs.c:220-312 | a disk inode reads back as iupdate wrote it, and the other inodes of the block are untouched |
| FsLayout.DinodeBytes | offline_3/fs.h:29-36 | the stored inode byte by byte, little-endian at the offsets of struct dinode, and no byte outside it changed |
| FsLayout.BitWeight | offline_3/fs.c:64-68 | the map bit of a block has weight 2^(b % 8) in its byte, set by adding and cleared by taking it away |
| FsOwnership.SlotsNameDistinctBlocks | offline_3/fs.c:372-400 | two different addresses, direct, indirect or in an indirect block, of one inode or of two, never name the same block |
| FsOwnership.AllocKeeps | offline_3/fs.c:56-78 | balloc of a free block marks it and zeroes it; it was nobody's, and no file changes |
| FsOwnership.AssignDirect | offline_3/fs.c:378-382 | storing a direct address hands the block to that slot; no byte of any file changes |
| FsOwnership.AssignIndirect | offline_3/fs.c:387-388 | a new indirect block names nothing, because balloc has zeroed it |
| FsOwnership.AssignEntry | offline_3/fs.c:389-394 | storing an entry of an indirect block hands the block to that entry; no byte of any file changes |
| FsOwnership.DataKeeps | offline_3/fs.c:499-502 | writing a data block changes that block of that file and nothing else |
| FsOwnership.FreeKeeps | offline_3/fs.c:81-95 | a block no slot names any more is marked, so bfree does not panic, and freeing it changes no file |
| FsOwnership.DropDirect | offline_3/fs.c:414-419 | clearing a direct address leaves that one block marked and unnamed |
| FsOwnership.DropIndirect | offline_3/fs.c:421-431 | clearing the indirect address leaves it and exactly the blocks it names marked and unnamed |
| FileSystem.FileSystem.Balloc | offline_3/fs.c:56-78 | the lowest free block, marked and zeroed; panic exactly when all are in use |
| FileSystem.FileSystem.Bfree | offline_3/fs.c:81-95 | the bit is cleared; panic exactly when it was clear already |
| FileSystem.FileSystem.Iupdate | offline_3/fs.c:220-236 | the disk inode equals the memory inode again, and no file changes |
| FileSystem.Inode.constructor | offline_3/fs.c:287-312 | the memory inode is filled from its disk inode |
| FileSystem.FileSystem.Bmap | offline_3/fs.c:372-400 | the block of a file's byte block, allocated if there was none: ownership stays exact, no byte of any file changes, no other place of any file gets a block, and it panics exactly when fewer blocks are free than it lacks, an indirect block included |
| FsSpace.FreeCount | offline_3/fs.c:56-95 | every data block is either free or owned by exactly one place, so free blocks and owners add up to the data blocks |
| FsSpace.ProvidedThen | offline_3/fs.c:489-504 | two stretches of a write, overlapping or not, take together exactly the free blocks that the whole lacked |
| FileSystem.FileSystem.WriteBlocks | offline_3/fs.c:498-504 | the loop of writei runs to its end exactly when as many blocks are free as the bytes lack, indirect block included |
| FileSystem.FileSystem.Readi | offline_3/fs.c:452-476 | the slice of the file at off clipped to its size, with the wrap-around test of off + n; disk and inodes unchanged |
| FileSystem.WriteStep | offline_3/fs.c:498-504 | one round of writei makes exactly the bytes of that round new |
| FileSystem.WritingDone | offline_3/fs.c:506-510 | a write that ends within the file has allocated nothing, so no inode needs an update |
| FileSystem.FileSystem.Writei | offline_3/fs.c:481-511 | bytes off..off+n become exactly src, the inode keeps type, device numbers, links and addresses and its size is the larger of the old one and off + n; every other file and inode is unchanged; -1 exactly on the three bound tests; panic exactly when fewer blocks are free than the bytes lack, and only those are allocated; every changed block is logged, and no more than the map has, the bytes lie in, and two |
| FileWrite.PiecesAreSafe | offline_3/file.c:128-138 | one piece of filewrite logs at most seven blocks where the free map is one block, and operations of seven blocks never panic in log_write or overrun the log area of mkfs |
| FileWrite.File.WritePiece | offline_3/file.c:135-149 | a piece is written whole, the offset after it, or refused exactly when it starts past the end or does not fit into a file, or it panics exactly when too few blocks are free for it; every changed block is logged, within the number of map blocks plus six |
| FileWrite.File.Filewrite | offline_3/file.c:127-151 | the pieces that fit are written in order and nothing else changes, the result is n exactly if all fit and -1 otherwise, it panics exactly when fewer blocks are free than those pieces lack, a short writei never happens, and every operation keeps within the number of map blocks plus six |
| FileSystem.FileSystem.Grow | offline_3/fs.c:506-509 | the new size and iupdate after a write that has grown the file complete the splice, on disk too |
| FileSystem.FileSystem.FreeDirect | offline_3/fs.c:414-419 | one round of the first loop frees one block and never panics |
| FileSystem.FileSystem.TruncDirect | offline_3/fs.c:414-419 | the first loop frees exactly the direct blocks |
| FileSystem.FileSystem.FreeEntries | offline_3/fs.c:424-427 | the inner loop frees exactly the blocks the indirect block names and never panics |
| FileSystem.FileSystem.TruncIndirect | offline_3/fs.c:421-431 | those blocks and then the indirect block are freed |
| FileSystem.FileSystem.Itrunc | offline_3/fs.c:407-435 | the inode gives up exactly its own blocks and keeps type, device numbers and links, bfree never panics, every other file keeps blocks and contents, every changed block is logged, the disk inode is up to date |
| FsCrash.CrashLeavesAFileSystem | offline_3/log.c:115-202 | after a crash anywhere in commit and any interrupted recoveries the disk carries a whole file system: the one before the transaction or the one after it, with exact block ownership and the same bytes in every file |
| FsCrash.CutLeavesAFileSystem | offline_3/log.c:115-202 | the same for every point at which the history of block writes since power-on is cut, up to the end of the commit |
| FsCrash.EndLastOp | offline_3/log.c:145-202 | end to end from the cache and log in memory: after end_op of the last operation, whichever of its block writes was the last to be done, recovery finds the old file system up to the header write and the new one after it |
| Links.CreateKeeps | offline_3/sysfile.c:241-283 | create in a linked directory keeps every nlink equal to the number of entries naming the inode, names unique, and the directory tree in order |
| Links.CreateKeepsIff | offline_3/sysfile.c:241-283 | create keeps that law exactly when the parent is still linked; in a removed directory somebody holds, it never does |
| Links.LinkKeeps | offline_3/sysfile.c:138-151 | sys_link of a new name in a linked directory keeps the law |
| Links.LinkKeepsIff | offline_3/sysfile.c:138-151 | it keeps the law exactly when the parent is still linked |
| Links.EmptyDirLinks | offline_3/sysfile.c:213-229 | an empty directory has exactly one entry naming it and its ".." names that entry's directory, so one nlink decrement each is right |
| Links.UnlinkKeeps | offline_3/sysfile.c:213-229 | sys_unlink of a name other than the dots keeps the law |
| Links.ReclaimKeeps | offline_3/fs.c:331-352 | freeing an inode without links keeps the law |
| Links.RootAlone | offline_3/mkfs.c:117-128 | the root directory mkfs makes satisfies the law |
| Paths.Skipelem | offline_3/fs.c:595-618 | the first element, cut at DIRSIZ, and a rest whose elements are the remaining ones; none exactly when the path has no element |
| Paths.ElementKept | offline_3/fs.c:595-618 | of an element of any length, after any number of slashes, exactly the first DIRSIZ characters are kept, and all of it if it is shorter |
| Paths.SameElementsIff | offline_3/fs.c:595-618 | two paths have the same elements exactly when word by word they agree in the first DIRSIZ characters |
| Paths.SameNamesResolve | offline_3/fs.c:624-657 | such paths lead to the same inode and to the same parent |
| Paths.ElementsOfSpell | offline_3/fs.c:595-618 | splitting a path spelled from names gives those names back |
| Paths.WalkStaysLinked | offline_3/fs.c:624-657 | a walk from a linked inode reaches only linked ones, so it never meets a freed inode |
| Paths.WalkSplits | offline_3/fs.c:624-657 | resolving a path is resolving its parent and looking the last element up there |
| Paths.CreatedPath | offline_3/sysfile.c:241-283 | after create the path leads to the new inode and every path that led somewhere leads to the same inode |
| Paths.LinkedPath | offline_3/sysfile.c:138-151 | after sys_link the new path leads to the old inode and no other path moves |
| Paths.UnlinkedPath | offline_3/sysfile.c:213-229 | after sys_unlink the path leads nowhere, and a path that still leads somewhere leads where it did |
| FileTree.Tree.constructor | offline_3/mkfs.c:117-128 | a root directory alone |
| FileTree.Tree.Dirlookup | offline_3/fs.c:524-548 | the first slot in use with the name |
| FileTree.Tree.Dirlink | offline_3/fs.c:551-578 | refused exactly when the name is there; otherwise the entry goes to the first free slot, or the end if no slot is free; panic exactly when the directory file is full |
| FileTree.Tree.Isdirempty | offline_3/sysfile.c:168-181 | true exactly when nothing but the two dots is in use |
| FileTree.Tree.Namex | offline_3/fs.c:624-657 | the inode the path leads to, or for nameiparent the directory of its last element and that element |
| FileTree.Tree.Ialloc | offline_3/fs.c:194-214 | the first free inode, zeroed with its type; panic exactly when there is none |
| FileTree.Tree.Iput | offline_3/fs.c:331-352 | an inode without links that nobody else holds is freed, any other left alone |
| FileTree.Tree.MakeInode | offline_3/sysfile.c:259-280 | the writes of create: new inode, its dots, the parent's entry; it runs out exactly when no inode or no slot is free |
| FileTree.CreateDone | offline_3/sysfile.c:241-283 | what a successful create leaves: exact link counts, the new inode as it should be, the path resolving to it, one name more in the parent, every other path and every inode but it and its parent as before |
| FileTree.LinkDone | offline_3/sysfile.c:138-151 | the same for sys_link: the old inode has one link more and no other change |
| FileTree.UnlinkDone | offline_3/sysfile.c:213-233 | the same for sys_unlink: the path resolves to nothing, the inode has one link less and no other change, or is free if that was the last and nobody holds it |
| FileTree.Tree.DropEntry | offline_3/sysfile.c:213-233 | the writes of sys_unlink, iput included, have exactly that effect |
| FileTree.Tree.Create | offline_3/sysfile.c:241-283 | the new path resolves to the first free inode, with one link and for a directory its dots, or an existing file is returned, or nothing changes, each exactly when it should; the parent has that one name more and for a directory one link; link counts stay exact and all other paths keep their meaning |
| FileTree.Tree.SysLink | offline_3/sysfile.c:118-165 | it succeeds exactly when the old path leads to something other than a directory, the new parent exists, the name is free and the directory file not full, which is its panic; then the new path resolves to the old inode, which has one link more and is otherwise as it was, and the parent has that one name more; refused, nothing changes |
| FileTree.Tree.SysUnlink | offline_3/sysfile.c:184-239 | it succeeds exactly for a name other than the dots that is there and no non-empty directory; then the path resolves to nothing, the parent has that one name less and no other change but a link; link counts stay exact, and nlink below 1 is never met |
| Umalloc.UnitsSufficeIff | offline_3/umalloc.c:69 | the unit count has room for the request exactly when the unsigned sum does not wrap, and is then the smallest that has |
| Umalloc.SbrkAsksForUnitsIff | offline_3/umalloc.c:54 | sbrk's int argument is the size wanted exactly below 2^28 units |
| Umalloc.GapsAdd | offline_3/umalloc.c:24-44 | the free list is fully coalesced: any two free blocks have a gap between them |
| Umalloc.BlocksDisjoint | offline_3/umalloc.c:24-90 | no two blocks, free or live, overlap |
| Umalloc.FreeKeepsList | offline_3/umalloc.c:32-43 | the four ways free joins a block with its neighbours all leave one circular, address-ordered, fully coalesced list |
| Umalloc.FreeKeepsPartition | offline_3/umalloc.c:32-43 | after free every unit got from sbrk is again in exactly one block, and none is lost |
| Umalloc.FreeUntouched | offline_3/umalloc.c:24-44 | free writes no unit of any other live block |
| Umalloc.TakeWhole | offline_3/umalloc.c:76-77 | a block of exactly the right size leaves the list and becomes live |
| Umalloc.TailResult | offline_3/umalloc.c:78-82 | cutting the tail off a larger block keeps list and partition, and the tail has exactly the size asked for |
| Umalloc.RegionIsBlock | offline_3/umalloc.c:46-61 | the region above the old break becomes one live block for free to take |
| Umalloc.Allocator.Search | offline_3/umalloc.c:29-31 | the search stops within one lap at the last free block below the freed one |
| Umalloc.Allocator.Free | offline_3/umalloc.c:24-44 | the freed block joins the list, at its place and with freep before it, and nothing else: other live blocks are untouched, no unit is lost or gained, and a request for its size can be met |
| Umalloc.Allocator.Morecore | offline_3/umalloc.c:46-61 | 0 exactly when sbrk refuses; otherwise exactly the new units are added and a block large enough is at freep or right after it |
| Umalloc.Allocator.Malloc | offline_3/umalloc.c:63-90 | a block of exactly the units asked for that was not live before, no live block touched: the end of the first large enough free block after freep if there is one, and then the heap does not grow; none exactly when no free block is large enough and sbrk refuses; the search ends within a lap before and a lap after morecore |
| Frames.LookupIsOwnership | offline_3/vm.c:35-55 | the two-level walk finds a frame at a user page exactly when that frame is owned as that page |
| Frames.FramesAreNotShared | offline_3/vm.c:35-80 | no frame backs two user pages, of one address space or of two |
| Frames.PointKeeps | offline_3/vm.c:35-80 | each word vm.c writes keeps ownership exact: every frame on the free list once, held, or owned by exactly one directory, entry or user page |
| Frames.PointChangesOne | offline_3/vm.c:60-80 | setting one page-table word changes that page of that address space and nothing any other walk reads |
| Frames.TableAddedKeeps | offline_3/vm.c:43-53 | a new page table changes no page of any address space |
| Frames.AccessIsPte | offline_3/vm.c:35-55 | as every directory entry is writable and open to user programs, what the hardware lets them do at a page is exactly what the page-table entry says |
| Frames.KernelIsClosed | offline_3/vm.c:60-80 | a page mapped without PTE_U cannot be read by a user program, whatever its directory entry says |
| Frames.MapKeeps | offline_3/vm.c:60-80 | mapping a frame at an unused user page keeps ownership exact and changes that page only |
| Frames.DropShrinks | offline_3/vm.c:269-275 | unmapping and freeing a page frees exactly the frame the walk finds there |
| Frames.DeallocSkips | offline_3/vm.c:266-268 | jumping over an absent directory entry misses no present page |
| Frames.FreeingFrees | offline_3/vm.c:291-296 | freeing a page table once its pages are gone keeps ownership exact |
| Frames.GoneKeepsOthers | offline_3/vm.c:283-298 | freeing one address space leaves every page of every other as it was |
| Frames.FailureUndoes | offline_3/vm.c:235-246 | after a failed round and deallocuvm all pages read as before allocuvm and only page tables may remain |
| Frames.BornAndGone | offline_3/vm.c:315-345 | freeing an address space made since leaves exactly the free frames of before |
| Frames.GrowthKeepsMemory | offline_3/vm.c:221-249 | growing one address space leaves the mapped memory of all of them as it was, word and content |
| Frames.ShrinkingKeepsMemory | offline_3/vm.c:255-279 | taking pages from one leaves all other mapped memory as it was |
| Vm.Machine.constructor | offline_3/kalloc.c:31-53 | all managed frames are on the free list once |
| Vm.Machine.Kfree | offline_3/kalloc.c:59-77 | the frame is filled with ones and becomes the head of the list |
| Vm.Machine.Kalloc | offline_3/kalloc.c:82-95 | the head of the list, or none exactly when the list is empty |
| Vm.Machine.Walkpgdir | offline_3/vm.c:35-55 | the page table of the page, made and zeroed if allowed, its directory entry present, writable and open to user programs; none exactly when it is absent and not allowed or no frame is free |
| Vm.Machine.MapPage | offline_3/vm.c:60-80 | mappages of one user page fails exactly when no table can be had, leaving everything as it was |
| FrameCount.WalkSpends | offline_3/vm.c:35-55 | walkpgdir with alloc succeeds exactly when the table is there or a frame is free, and then costs one frame for a missing table |
| FrameCount.AddSpends | offline_3/vm.c:232-247 | a round of allocuvm takes one frame and one more for a missing table, and goes through exactly when that many are free |
| FrameCount.PagePays | offline_3/vm.c:232-247 | page by page, the loop has paid for its pages and their missing tables, and a round that cannot be paid for means the whole could not |
| Vm.Machine.MapKernelPages | offline_3/vm.c:60-80 | mappages of a kernel range maps exactly those pages to consecutive frames; it succeeds exactly when a frame is free for every page table the range misses |
| Vm.Machine.Setupkvm | offline_3/vm.c:118-136 | a directory with exactly the mappings of kmap and no user page, none of it open to user programs if kmap has no PTE_U, or none with every frame free again; it succeeds exactly when a frame is free for the directory and for each page table under kmap |
| Vm.Machine.DeallocOne | offline_3/vm.c:265-277 | one round of the loop, jump included |
| Vm.Machine.Deallocuvm | offline_3/vm.c:255-279 | exactly the present pages of the range are unmapped and their frames freed |
| Vm.Machine.Allocuvm | offline_3/vm.c:221-249 | it succeeds exactly when a frame is free for every page and every missing page table; then exactly the pages of the range are mapped, to zeroed frames of their own that user programs may write; otherwise every page reads as before and only page tables of this directory may have taken frames |
| Vm.Machine.Freevm | offline_3/vm.c:283-298 | exactly the directory, its tables and its user pages become free |
| Vm.Machine.CopyPage | offline_3/vm.c:325-344 | one round of the copy, or the copy made so far given back |
| Vm.Machine.Copyuvm | offline_3/vm.c:315-345 | a child whose pages hold what the parent's do, in frames of its own with the same flags and the same access for user programs, and kmap above; on failure the free frames are exactly those of before; it succeeds exactly when a frame is free for the directory, every page and every page table |
| Swapper.SlotFreeIff | offline_4/xv6/vm.c:35-65 | a queue slot is free exactly when fewer than MAX_PSYC_PAGES pages are queued |
| Swapper.DequeueTakesFirst | offline_4/xv6/vm.c:70-91 | dequeueing removes the oldest address and keeps the order of the rest |
| Swapper.EnqueueAddsLast | offline_4/xv6/vm.c:35-65 | enqueueing puts the address last |
| Swapper.EvictionKeepsPageIff | offline_4/xv6/vm.c:96-147 | an evicted page is in the swap file exactly when a swap slot was free; otherwise its frame is freed unwritten |
| Swapper.OutKeepsMem | offline_4/xv6/vm.c:96-147 | a swap-out with a slot free keeps queue, slots and frames in order and the memory image unchanged |
| Swapper.InKeepsMem | offline_4/xv6/vm.c:157-200 | a swap-in exchanges frame and slot and leaves the memory image unchanged |
| Swapper.GrowKeepsMem | offline_4/xv6/vm.c:435-475 | one page of growth adds a zero page to the image and changes nothing else |
| Swapper.ExtendedAt | offline_4/xv6/vm.c:422-479 | growing adds exactly the pages of the range, all zero |
| Swapper.Process.Conservation | offline_4/xv6/vm.c:35-200 | queued and swapped pages add up to the mapped ones, and nPagesInPhyMemory exceeds the queue by exactly the page faults served, of which there are at most MAX_PSYC_PAGES |
| Swapper.Process.constructor | offline_4/xv6/proc.c:117-135 | an empty queue, no swap slot used, nothing mapped |
| Swapper.Process.Tail | offline_4/xv6/vm.c:50-53 | the walk along next ends at the last slot queued |
| Swapper.Process.EnqueueFIFO | offline_4/xv6/vm.c:35-65 | the address goes last, or is dropped exactly when all slots are in use; the chain visits exactly the slots in use |
| Swapper.Process.DequeueFIFO | offline_4/xv6/vm.c:70-91 | the oldest address and the queue without it, or -1 exactly on an empty queue |
| Swapper.Process.MoveToSwapFile | offline_4/xv6/vm.c:96-147 | the page goes to the first unused slot, if any, and its frame is freed in any case |
| Swapper.Process.SwapPageOut | offline_4/xv6/vm.c:150-154 | the oldest page leaves memory and the process sees the same contents at every page; dequeueFIFO returns -1 exactly when no page is queued |
| Swapper.Process.FindSlot | offline_4/xv6/vm.c:161-163 | the search by address finds the used slot of the page, though unused slots have an address too |
| Swapper.Process.SwapPageIn | offline_4/xv6/vm.c:157-200 | the page is present again, last in the queue, in the frame of the oldest one, and the process sees the same contents at every page; dequeueFIFO returns -1 exactly when no page is queued |
| Swapper.Process.PageFault | offline_4/xv6/trap.c:86-101 | a fault on a paged-out page makes it present with the image unchanged, and costs one queue entry and one swap slot; one of its two dequeues returns -1 exactly when fewer than two pages are queued; any other fault changes nothing |
| Swapper.Process.Allocuvm | offline_4/xv6/vm.c:422-479 | the range is added as zero pages, the rest of the image unchanged, with exactly as many swap-outs as pages over MAX_PSYC_PAGES, the oldest pages first: the queue is the old one and the new pages without them |
| SleepLock.StepKeepsInv | offline_3/sleeplock.c:22-42 | every step keeps the spinlocks exact, locked set exactly while one process owns the sleep lock, and every sleeper safe |
| SleepLock.SleepLockIsSafe | offline_3/proc.c:535-592 | over every run of any number of processes at most one owns the sleep lock, and nobody sleeps on a free one except while a releaser is between clearing it and the end of its wakeup scan |
| SleepLock.NeverStuck | offline_3/sleeplock.c:22-42 | no deadlock: in every reachable state in which a process is acquiring, holding or releasing the lock, one of these can take its next step |
| SleepLock.SwappedOrderLoses | offline_3/proc.c:552-555 | with ptable.lock taken after lk is dropped, a run loses a wakeup |
| SleepLock.OrderMattersIff | offline_3/proc.c:552-555 | no run loses a wakeup exactly with the order sleep has |
| Lottery.TotalTickets | offline_3/proc.c:413-423 | the first scan adds up the tickets of the runnable processes |
| Lottery.PickWinner | offline_3/proc.c:432-468 | the second scan stops at the one process that wins the draw, at none exactly when none is runnable |
| Lottery.SharesAreTickets | offline_3/proc.c:413-468 | of the draws 0..total a runnable process wins as many as it has tickets, the first runnable one one more |
| Pipe.SlotOfCount | offline_3/pipe.c:93 | the slot of a counter wrapped at 2^32 is the slot of the count |
| Pipe.FullAndEmptyIff | offline_3/pipe.c:85-106 | the comparisons of the wrapped counters hold exactly when the pipe is full or empty |
| Pipe.PutKeeps | offline_3/pipe.c:85-93 | a write to a pipe that is not full overwrites no unread byte |
| Pipe.GetKeeps | offline_3/pipe.c:114-116 | a read from a pipe that is not empty yields the oldest unread byte |
| Pipe.PipeIsFifo | offline_3/pipe.c:78-121 | over any interleaving the bytes delivered are a prefix, in order, of the bytes written, at most PIPESIZE behind |
| Pipe.Pipe.constructor | offline_3/pipe.c:22-57 | an empty pipe, open at both ends |
| Pipe.Pipe.WriteSome | offline_3/pipe.c:78-98 | appends exactly the next bytes of the caller; sleeps only when full, refuses exactly when the reader is gone or the writer killed there |
| Pipe.Pipe.ReadSome | offline_3/pipe.c:100-121 | delivers exactly the oldest bytes, up to n; sleeps exactly on an empty pipe with a writer |
| VipChannel.StepKeepsInv | offline_2/offline.cpp:248-366 | each step of any passenger keeps: a mutex is locked exactly while one passenger is inside it or the other direction's group has it, and each count is the number of passengers counted |
| VipChannel.DirectionsExclude | offline_2/offline.cpp:248-366 | in every reachable interleaving nobody crosses one way while anybody crosses the other |
| VipChannel.HaltedIff | offline_2/offline.cpp:248-366 | the channel comes to a halt, with nobody in its code able to take a step, exactly when a passenger of each direction has become the first of his group before either got the other direction's mutex |
| VipChannel.OpposedForever | offline_2/offline.cpp:248-366 | such two never move again, and nobody ever crosses |
| VipGate.GateRefines | offline_2/offline.cpp:248-366 | every run with VIP_LR_waiting and its two mutexes is a run of the channel once their steps are left out |
| VipGate.GatedDirectionsExclude | offline_2/offline.cpp:248-366 | so with them, too, nobody crosses one way while anybody crosses the other |
| VipGate.OpposedForGood | offline_2/offline.cpp:248-366 | nor do they help two passengers who have met head-on: from there on nobody crosses |
| VipGate.TwoCanMeet | offline_2/offline.cpp:254-280 | two passengers, one each way, suffice for that |
| VipGate.ShutForGood | offline_2/offline.cpp:254-276 | when a passenger waits for VIP_priority_mutex inside VIP_waiting_mutex with nobody left to lower VIP_LR_waiting, whoever has not passed the gate, of either direction, never will |
| VipGate.TwoCanShut | offline_2/offline.cpp:254-276 | two passengers of the same direction suffice for that |
| Belts.FirstFree | offline_2/helper.h:11-23 | the lowest free place, none exactly when all are taken |
| Belts.GetIdx | offline_2/helper.h:11-23 | the search loop returns that place, -1 for none |
| Belts.StepKeepsInv | offline_2/offline.cpp:147-212 | each step of any passenger keeps semaphores, counter and places consistent |
| Belts.BeltsLeftWhenFree | offline_2/offline.cpp:159-209 | whenever the mutex is free, sec_check_empty is N - belts_count / P |
| Belts.NeverStuckInside | offline_2/offline.cpp:165-182 | a passenger inside the mutex always finds a place, and the sem_wait there never blocks |
| Belts.LetInIff | offline_2/offline.cpp:159-209 | in every reachable state a passenger is let in exactly when fewer than N * P are in |
| Belts.NeverStuck | offline_2/offline.cpp:159-209 | no deadlock: with at least one belt, in every reachable state some passenger can take a step, one who has been let in if anybody has |
| Belts.PlacesAreExclusive | offline_2/offline.cpp:167-169 | no two passengers have the same place, so no belt carries more than P |
| Grep.HereStar | offline_3/grep.c:85-106 | a starred item matches exactly as some number of accepted characters followed by the rest |
| Grep.MatchHere | offline_3/grep.c:85-96 | true exactly when some prefix of the text is in the pattern's language, the whole text under a final $; terminates |
| Grep.MatchStar | offline_3/grep.c:99-106 | true exactly when some number of accepted characters can be followed by a match of the rest |
| Grep.Match | offline_3/grep.c:72-82 | true exactly when the text is in the language of the pattern, anchored by a leading ^ or anywhere |
| Shell.GetToken | offline_3/sh.c:265-308 | the token bounds lie in the text, a word token is a whole word, and the end is reported exactly at the end |
| Shell.Parse | offline_3/sh.c:327-342 | a parsed command has consumed the whole text and every string of it is a word of the text |
| ShellGrammar.RedirsRead | offline_3/sh.c:375-397 | parseredirs reads exactly the redirections that stand there, each around what was read before it |
| ShellGrammar.ItemsRead | offline_3/sh.c:428-444 | the loop of parseexec reads any interleaving of words and redirections: every word into argv in order, wherever the redirections stand, every redirection around the command in order |
| ShellGrammar.SimpleRead | offline_3/sh.c:416-446 | a simple command is its redirections, nested in the order typed, around one command whose argv is exactly its words in order; with MAXARGS words or more it is the panic |
| ShellGrammar.BacksRead | offline_3/sh.c:349-353 | each & puts the line read so far into the background once |
| ShellGrammar.ReadPipe | offline_3/sh.c:361-372 | a pipeline, at any place of any text, is read as what it means, and reading stops right after it |
| ShellGrammar.ReadLine | offline_3/sh.c:344-359 | the same for a line with its lists, background marks and parentheses |
| ShellGrammar.GrammarIsRead | offline_3/sh.c:327-446 | every line of the grammar, with any blanks, parses to the tree it means, or to the panic for too many words and nothing else |
| ShellGrammar.ParseAcceptsIff | offline_3/sh.c:327-446 | the parser accepts exactly the lines of the grammar |
| ShellGrammar.ParseOfPrint | offline_3/sh.c:327-446 | round trip: every command tree, printed fully parenthesised, is parsed back to that tree |
| ShellParser.EndsAreNoWords | offline_3/sh.c:449-493 | the places nulterminate writes to are in no word |
| ShellParser.CutTree | offline_3/sh.c:449-493 | after nulterminate every argv and file string equals its token |
| ShellParser.Gettoken | offline_3/sh.c:265-308 | the token as specified, by the loops of the source |
| ShellParser.PeekAt | offline_3/sh.c:310-320 | the cursor past blanks, and whether one of the characters is there |
| ShellParser.Parseredirs | offline_3/sh.c:374-397 | agrees with the specified reading of redirections on every text |
| ShellParser.Parseblock | offline_3/sh.c:399-413 | agrees with the specified reading of a parenthesised line on every text, errors included |
| ShellParser.Parseexec | offline_3/sh.c:415-446 | agrees with the specified reading of a simple command on every text, errors included, of which ShellGrammar.SimpleRead says what it means |
| ShellParser.Parsepipe | offline_3/sh.c:361-372 | agrees with the specified reading of a pipeline on every text |
| ShellParser.Parseline | offline_3/sh.c:344-359 | agrees with the specified reading of a line on every text; the recursion terminates |
| ShellParser.Nulterminate | offline_3/sh.c:449-493 | a NUL at the end of every string of the command and no other change to the line |
| ShellParser.Parsecmd | offline_3/sh.c:327-342 | it accepts exactly the lines of the grammar; the parsed command is what the line means, its C strings in the line spelling exactly the words typed; a printed command comes back as itself |

## Left out

- Hardware, boot, interrupts, console, the assembly and switching between processes: not modelled; spinlocks and swtch are atomic steps, and iderw is the in-memory disk of memide.c.
- Files of `offline_4/xv6` that repeat `offline_3`: modelled once, from `offline_3`.
- Logging.Log.Commit: requires that nobody holds a buffer while commit runs; other processes reading through the cache at that time are not modelled.
- Logging.Log.EndOp: requires of the last operation out what commit requires.
- Logging.Log.LogWrite: tests and recording are one step here; GroupCommit takes them apart.
- GroupCommit.StepKeepsInv: that an operation logs no more new blocks than its budget is a premise there; it is proved of filewrite (FileWrite.PiecesAreSafe), not of the other system calls.
- BufferCache.Cache.Bread: requires that nobody has the buffer locked, which is what acquiresleep waits for; SleepLock models the waiting itself.
- FileSystem.FileSystem.Writei: its disk is what bread shows, one block replaced per log_write as Logging.Log.Update states; the transaction around a write is FsCrash.
- FileSystem.FileSystem.Readi: devices (T_DEV) go to their own drivers and are not modelled; the same for writei.
- FileWrite.File.Filewrite: pipes, devices and files not open for writing go elsewhere; nobody else writes the file between two pieces.
- Inode cache: iget, idup and the table of NINODE entries are not modelled; an inode held by somebody else is a set given to iput.
- FileTree.Tree.Create: directories are sequences of entries, not bytes of a file; nlink is not cut to 16 bits; major and minor numbers and locks on inodes are not modelled; one system call runs at a time.
- FileTree.Tree.Namex: starts at a linked inode, as the link counts are kept only below linked directories; a walk from a removed working directory is not modelled.
- FileTree.Tree.Iput: the itrunc of the freed inode's blocks is FileSystem.FileSystem.Itrunc, not repeated here.
- FileTree.Tree.SysUnlink: starts at a linked inode like FileTree.Tree.Namex; a removed working directory is not modelled.
- FileTree.Tree.SysLink: starts at a linked inode as well; there is one device, so the test for a different one is never taken.
- FileTree.Tree.constructor: the root alone; the files mkfs copies in would come from create.
- Umalloc.Allocator.Morecore: requires fewer than 2^28 units, as Umalloc.Allocator.Malloc does.
- Umalloc.Allocator.Malloc: requires fewer than 2^28 units, below which sbrk gets the size it should and refuses or grants whole regions; a program that calls sbrk itself is not modelled.
- Vm.Machine.MapKernelPages: kernel ranges and single user pages are two methods, because mappages is called for nothing else; physical addresses are frame numbers and words are not cut to 32 bits.
- Vm.Machine.Allocuvm: sizes are below KERNBASE where it maps, so PGROUNDUP does not wrap.
- Vm.Machine.Setupkvm: kmap's ranges are a parameter that must not overlap, since they depend on the linked kernel.
- copyout, loaduvm, inituvm, clearpteu and uva2ka: they move bytes through the page tables modelled and would add no ownership.
- Swapper.Process.Allocuvm: requires a frame or a swap slot for every page; its failure exit goes through deallocuvm, which does not update the queue. fork, exec and shrinking are left out for the same reason.
- Swapper.Process.PageFault: requires a free swap slot if a page is queued, without which Swapper.EvictionKeepsPageIff shows the page lost; what the code does after dequeueFIFO has returned -1, page-table pages and the translation cache are not modelled.
- Swapper.Process.SwapPageOut: requires a free swap slot for the same reason; Swapper.Process.SwapPageIn: a counter below MAX_PSYC_PAGES, which the swap-out before it leaves.
- Swapper.Process.DequeueFIFO: printQueue is not modelled; for processes other than 1 and 2 it follows head untested, so a queue that is or becomes empty makes it read through a null pointer.
- Pipe.Pipe.WriteSome: wakeups are not modelled, so nothing is said of who runs next, in particular after a killed writer; the same for piperead.
- VipGate.GatedDirectionsExclude: VIP_LR_waiting++ and VIP_LR_waiting-- are one step each, although two mutexes guard them; losing one of them is not modelled.
- Belts.NeverStuckInside: speaks of passengers already let in; that everybody is let in is not claimed. check_in and the special kiosk are the same argument without belts.
- Lottery.PickWinner: the table is unchanged between the scans, totals are below 2^31, and the draw is any number in range: random takes remainders by its seed, the tick count, and is not modelled, nor is its division by 0 at tick 0.
- SleepLock.SleepLockIsSafe: fairness is not claimed; kill only makes a sleeping process runnable.
- grep's input buffering, the shell's runcmd and line input, argument fetching of system calls: input and output only.
- ShellParser.Parsecmd: the line is NUL-terminated with no NUL before its end; nodes are values, so malloc returning 0 is not modelled.
