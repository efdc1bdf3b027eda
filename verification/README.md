# Verified models of xv6-riscv with demand paging

xv6-riscv is a teaching kernel: a crash-safe file system on a virtio disk, processes, Sv39
page tables, and here demand paging with FIFO eviction to a per-process swap file.  This
project models the parts of the kernel, and of two user programs, whose correctness is
subtle, and proves what they promise, for every input and every run.

Code that changes state in place is modelled by classes whose methods do what the C functions
do, loop by loop; each class has a `Valid` predicate that says what its fields represent, and
ghost fields that give the meaning (the order of a list, the owner of a block, the contents of
a file).  Concurrent protocols are state machines whose runs are sequences of steps.  A kernel
panic is a result: `ok` false, `Panic`, or `panicked`.

## The parts and what is proved

| file | models | main results |
|---|---|---|
| `CrashLog.dfy` | the redo log as block writes, with a crash between any two | `CommitIsAtomic`, `RecoveryIsIdempotent`, `CrashAtomicity`, `RebootComesUp`, `HeaderBefore` |
| `Bio.dfy` | the buffer cache and its LRU list | `Bread` returns the latest content, after a wait too; a pinned or awaited buffer is never recycled |
| `Log.dfy` | the code of the log on the buffer cache | `Commit`: what recovery finds after it, wherever it stops, and exactly when it panics; all writes of a run obey the write-ahead rule |
| `GroupCommit.dfy` | interleaved `begin_op`, `log_write`, `end_op`, `commit`, of operations that log what they like | `EveryRun`, `LoggedExactly`, `Undivided`, `NeverStuck`, `LimitExactly` |
| `Fs.dfy` | bitmap blocks, inode block maps, `readi`, `writei`, `itrunc` | every bit accounted for; files are byte sequences; every change is logged, and a write of `filewrite` stays within the log |
| `Virtio.dfy` | the disk driver and the device, over the split queue | every request completed once, for every order and index wrap-around; a block written or read end to end |
| `Paging.dfy` | `kalloc`, eviction, swapping, page faults of one process | `Execute`: paging is invisible, in what loads return and in which accesses succeed; no frame is lost; victims leave in fault order |
| `Sv39.dfy` | `walk`, `mappages`, `uvmunmap`, `freewalk` | what the hardware reads in the tree is the map from pages to words; no frame lost, every table freed once |
| `LazyLoad.dfy` | demand loading of executables | `LazyIsWholeExactly`: when a page is as after loading the segments whole; `PageOfSegment` |
| `WaitExit.dfy` | `kexit`, `kwait`, `reparent`, `sleep`, `wakeup` | `NoMissedZombie`, `ReapedOnce`, `ParentsLive` |
| `Family.dfy` | who is whose parent and who waits for whom, over the runs of `WaitExit` | `NobodyWaitsAlone`, `NoOrphans`, `WaitReturnsFor`, `WokenOnlyFor`, `NoDeadlock` |
| `Calls.dfy` | the calls of `WaitExit` when nobody comes in between | `ForkAlone`, `WaitAlone`, `ExitAlone`: the steps add up to the sequential meaning of each call |
| `Umalloc.dfy` | the K&R allocator of the user library | every unit accounted for, no two free blocks adjacent, both searches end; when sizes fit their field |
| `Grep.dfy` | the regular expression matcher | `Match` decides the language of the pattern; patterns and their writings correspond one to one |

`Bytes.dfy` and `Params.dfy` hold what several of them share.

How the storage part fits together.  `Log.Commit` and `Log.RecoverFromLog` run on the buffer
cache and are proved to put on disk a prefix of `CommitWrites` and `RecoveryWrites`, all of it
if they return.  `CrashLog` takes those write sequences and proves what any crash in them
leaves.  `GroupCommit` proves what `Log` asks of its callers, that a commit never runs while an
operation does, and that the log never overflows if no operation logs on after MAXOPBLOCKS
different blocks.  `Fs` proves that the writes of `filewrite` keep to that.

Some results are negative, and each comes with its exact condition.

- Stores to a data page of the executable can be lost.  `Paging.ForgetsDataPage` shows how, from
  a process right after `exec`, and `Paging.ForgetsExample` is one such process.  An eviction
  keeps its victim's contents if and only if the page was dirty, or not of the executable, or
  still had its initial contents: `Paging.Pager.DoPageReplacement`.  `lost` counts the evictions
  that do not, and `Paging.Pager.Execute` claims every load of every page while it stands still.
- A program header that is not a LOAD segment is loaded on demand although `exec` skips it:
  `LazyLoad.OtherHeaderIsLoaded`.  A page is right if and only if the first header covering it
  supplies what its LOAD segment does: `LazyLoad.LazyIsWholeExactly`.
- `malloc` of 2 GiB or more hands out memory the program does not have:
  `Umalloc.Allocator.Malloc` says exactly when, and `Umalloc.LargestMalloc` is an instance.
- Block sizes of `malloc` can overflow: `Umalloc.SizeOverflows` reaches it with requests below 2 GiB,
  on a system that backs them with memory.  `Umalloc.Allocator.Free` says exactly when giving a block
  back does that, and `Umalloc.SpanFits` that it takes a heap of more than 2^32 units.
- `log_write` can panic although every operation logs at most MAXOPBLOCKS different blocks, as
  `GroupCommit.PanicRun` shows; `GroupCommit.LimitExactly` is the limit that does suffice.
- The commit of a full log panics, since there are as many log blocks as buffers: `Log.FullLog`, and
  `Log.FullLogPanics` is a run.  `Log.Log.Commit` says exactly when a commit goes through.
- A page that is neither in the executable nor swapped out is lost: `Paging.Pager.SwapOut` says
  exactly when a swap-out succeeds, and `Paging.Pager.Execute` that none fails if the file system
  gives good answers and the process has at most 67 pages.

Where the code differs from its comments, the model follows the code: `walk` panics at MAXVA
and above, `vmfault` serves a stack page only within one page below the stack pointer, and
`usertrap` kills a process whose fault has no leaf table.

## Model

| member | source | states |
|---|---|---|
| CrashLog.DecodeEncode | kernel/log.c:87-115 | what `write_head` puts in the header block, `read_head` gets back: the same block numbers, for every list that fits; the count is in word 0, the numbers in the words behind it, and the rest of the block is as before |
| CrashLog.LogPrefix | kernel/log.c:179-192 | a crash in `write_log` has changed exactly the log blocks written so far |
| CrashLog.InstallPrefix | kernel/log.c:66-84 | a crash in `install_trans` has stored exactly the home blocks installed so far, in spite of in-place writes, because they are distinct |
| CrashLog.RecoveryMeaning | kernel/log.c:117-124 | recovery installs the logged transaction on the home blocks and leaves an empty log |
| CrashLog.EmptyRecovery | kernel/log.c:117-124 | recovery of an empty log changes no home block |
| CrashLog.CrashBeforeHeader | kernel/log.c:194-204 | a commit cut off before its header write is undone by recovery, although log blocks were overwritten |
| CrashLog.CrashInInstall | kernel/log.c:194-204 | a commit cut off after its header write is completed by recovery |
| CrashLog.CompletedCommit | kernel/log.c:194-204 | a completed commit has installed the transaction and emptied the log |
| CrashLog.CommitIsAtomic | kernel/log.c:194-204 | after a crash at any of the commit's writes, recovery gives the old home blocks or the new ones, and the new ones if and only if the first header write was done |
| CrashLog.RecoveryIsIdempotent | kernel/log.c:117-124 | recovery cut off at any write and started again ends with the same home blocks |
| CrashLog.StepTracks | kernel/log.c:117-204 | each event of a run, commit or recovery, cut off or not, takes the disk to one whose recovery is what the transactions committed so far require |
| CrashLog.CrashAtomicity | kernel/log.c:117-204 | over every run of commits, recoveries and crashes at any write, a completed recovery leaves the home blocks equal to the committed transactions applied in order, and a transaction counts as committed exactly when its first header write was done |
| CrashLog.RebootComesUp | kernel/log.c:117-124 | after any run, a reboot whose recovery completes leaves the machine up, the log empty, and the home blocks those of the committed transactions |
| CrashLog.CommitStaysUp | kernel/log.c:194-204 | on a machine that is up, a commit that completes leaves it up, each block of the transaction with its data, every other home block as before |
| CrashLog.InstalledBlock | kernel/log.c:66-84 | transactions applied in order leave in each block what the last of them to write it wrote, or else what was there |
| CrashLog.CommitAhead | kernel/log.c:194-204 | whenever a commit writes a home block, the header on disk at that moment lists it |
| CrashLog.RecoveryAhead | kernel/log.c:117-124 | the same for recovery, whatever the log holds |
| CrashLog.HeaderBefore | kernel/log.c:66-124 | in a write sequence that obeys this rule from an empty log, every write of a home block follows a header write that lists it, with no other header write between |
| Bio.BufferCache.constructor | kernel/bio.c:36-53 | all buffers threaded on one list, none referenced, locked or pinned, the cache agreeing with the disk |
| Bio.BufferCache.Lookup | kernel/bio.c:66-74 | finds the buffer of a block wherever it is on the list, or there is none |
| Bio.BufferCache.LeastRecentUnused | kernel/bio.c:76-87 | finds the unreferenced buffer used longest ago, or all are referenced |
| Bio.BufferCache.Reference | kernel/bio.c:58-89 | one reference more to the buffer of the block, found on the list or recycled from the one unused longest; panics exactly when there is neither |
| Bio.BufferCache.Bget | kernel/bio.c:58-89 | a reference to the buffer of the block, keeping at most one buffer per block; the buffer is locked for the caller, or, exactly when another process holds it, the caller waits and only the counts change; only an unreferenced buffer is recycled, so never one pinned or waited for; panics exactly when the block is not cached and all buffers are referenced |
| Bio.BufferCache.Acquire | kernel/bio.c:72 | a process that waited gets the lock; its reference is kept |
| Bio.BufferCache.Bread | kernel/bio.c:92-103 | one reference more; unless the caller must wait, the locked buffer holds the latest content of the block, whether or not that has reached the disk; panics exactly when the block is not cached and all buffers are referenced, and then nothing has changed |
| Bio.BufferCache.Resume | kernel/bio.c:92-103 | `bread` after a wait: the buffer still belongs to the block waited for, and holds its latest content |
| Bio.BufferCache.Fetch | kernel/bio.c:92-103 | `bread` of a block that others may be reading: when the reader has left, the caller has the latest content |
| Bio.BufferCache.Bwrite | kernel/bio.c:106-112 | exactly one block reaches the disk, with the buffer's content |
| Bio.BufferCache.Brelse | kernel/bio.c:116-137 | gives up the lock and one reference; a buffer nobody needs becomes the most recently used, the others keep their order |
| Bio.BufferCache.Bpin | kernel/bio.c:139-144 | the block is pinned by this buffer until unpinned |
| Bio.BufferCache.Bunpin | kernel/bio.c:146-151 | the block is no longer pinned, which is allowed once the disk has its latest content |
| Bio.MoveToFront | kernel/bio.c:126-133 | the pointer updates of `brelse` move one buffer to the front of the doubly linked list and keep it a list of all buffers |
| Log.Log.LogWrite | kernel/log.c:215-236 | the block joins the transaction once, is pinned, and its new content becomes the latest; panics exactly when the log is full or no operation runs |
| Log.Log.Update | kernel/log.c:206-213 | the usual sequence of `bread`, change, `log_write`, `brelse`: the block joins the transaction with its new content and no buffer stays held; there is always a buffer for it |
| Log.Log.FindLogged | kernel/log.c:225-228 | the first position of the block in the header, or its length |
| Log.Log.WriteLog | kernel/log.c:179-192 | writes the latest content of each logged block to its log block, in order, and nothing else, waiting for readers of these blocks; goes through whenever some buffer is unreferenced |
| Log.Log.FormatHead | kernel/log.c:107-112 | the header block lists the logged block numbers |
| Log.Log.WriteHead | kernel/log.c:103-115 | one write, of the header block; panics exactly when there is no buffer for it |
| Log.Log.ReadHead | kernel/log.c:87-98 | the in-memory header is the one on disk; panics exactly when there is no buffer for it |
| Log.Log.InstallTrans | kernel/log.c:66-84 | copies log blocks home, in order, waiting for readers, and unpins each once it is there; at the end nothing is pinned; goes through whenever some buffer, in recovery every buffer, is unreferenced |
| Log.Log.Commit | kernel/log.c:194-204 | the writes issued are `CommitWrites`, or a prefix if it panics, so the whole trace of disk writes keeps the write-ahead rule; when it returns, home blocks on disk are the latest contents and the log is empty; wherever it stops, recovery finds the latest contents if the first header write was done and else the old ones; unless someone waits for the first log block, it goes through if and only if nothing is logged or some buffer is unreferenced, and never with a full log |
| Log.Log.RecoverFromLog | kernel/log.c:117-124 | the writes issued are `RecoveryWrites`, or a prefix if it panics, and the trace keeps the write-ahead rule; when it returns, disk and cache hold the recovered contents; after `binit` it does not panic |
| Log.Log.BeginOp | kernel/log.c:127-143 | admits an operation exactly when no commit runs and the log has room for it and those running |
| Log.Log.EndOp | kernel/log.c:147-176 | the last operation out commits, and panics exactly when the commit does or one was running; otherwise no block is written; the trace keeps the write-ahead rule either way |
| Log.FullLog | kernel/log.c:179-192 | a full log pins every buffer, so no other block can be read |
| Log.FullLogPanics | kernel/log.c:147-192 | three operations that log 30 blocks between them: the commit of the last panics |
| Log.PendingInstalled | kernel/log.c:194-204 | the home blocks with the logged ones installed are the latest contents |
| GroupCommit.PanicsExactly | kernel/log.c:147-236 | of the three panics only one can happen, and exactly when `log_write` finds the header full |
| GroupCommit.StepKeeps | kernel/log.c:127-236 | every step, whatever operations log, keeps: a commit excludes operations, headers hold whole operations, the counter counts the processes inside, the flag is set only while a process is in its commit, and with nobody inside nothing is logged |
| GroupCommit.EveryRun | kernel/log.c:127-236 | in every interleaving of operations that log any blocks any number of times, each committed header holds exactly the blocks logged by the operations of its epoch, all of which had ended; and the rest of what each step keeps |
| GroupCommit.Quiet | kernel/log.c:127-176 | once all processes are out, the header is empty, every operation belongs to a commit that is over, and any process is let in |
| GroupCommit.NeverStuck | kernel/log.c:127-176 | without a panic some process can always move |
| GroupCommit.WhenAdmitted | kernel/log.c:127-143 | in every reachable state a process is let in exactly when none is in its commit and ten blocks for each process inside, and for it, fit beside what is logged |
| GroupCommit.LoggedExactly | kernel/log.c:194-236 | the header of a commit holds exactly the blocks that `log_write` was called with since the commit before, and the current header those since the last, read off the steps of the run |
| GroupCommit.Undivided | kernel/log.c:127-176 | between the `begin_op` and the `end_op` of an operation no commit takes place |
| GroupCommit.HeaderStable | kernel/log.c:147-204 | while a commit runs nobody enters or logs, and only the commit changes the header, to empty |
| GroupCommit.StepKeepsRoom | kernel/log.c:127-236 | if no operation logs on after MAXOPBLOCKS different blocks, each step keeps: the header and what is set aside for running operations fit the log |
| GroupCommit.FrugalRun | kernel/log.c:127-236 | and then no run panics |
| GroupCommit.FewBlocks | kernel/log.c:127-236 | it is enough that each operation logs fewer than MAXOPBLOCKS different blocks, any number of times |
| GroupCommit.PanicRun | kernel/log.c:215-221 | a run of three operations of MAXOPBLOCKS different blocks each that panics |
| GroupCommit.LimitExactly | kernel/log.c:127-236 | runs in which no operation logs on after n different blocks never panic if and only if n is at most MAXOPBLOCKS |
| Fs.SetEntryMeaning | kernel/fs.c:430-436 | storing an indirect entry as four bytes: that entry reads back as stored, every other as before |
| Fs.FileOnDisk | kernel/fs.c:405-440 | where each byte of a file lies: in the block that word p / 1024 of the inode names, or beyond 12 blocks the little-endian word p / 1024 - 12 of the block that word 12 names |
| Fs.TakeAddr | kernel/fs.c:411-429 | recording a fresh block in an inode keeps every block owned once and every file's data blocks as they were |
| Fs.TakeEntry | kernel/fs.c:430-440 | the same for recording it in the indirect block |
| Fs.StoredHolds | kernel/fs.c:539-551 | writing part of a data block splices exactly those bytes into the file |
| Fs.TruncOwns | kernel/fs.c:448-476 | with all bits of an inode cleared and its addresses 0, the remaining set bits are metadata and the blocks of the other inodes |
| Fs.SetBitAt | kernel/fs.c:75-104 | setting or clearing bit b % 8 of byte b % BPB / 8 of block b / BPB of the bitmap changes the bit of block b and of no other |
| Fs.BitmapOnDisk | kernel/fs.c:75-104 | whether a block is in use is bit b % 8, the lowest first, of byte b % 8192 / 8 of bitmap block b / 8192 |
| Fs.FileSystem.constructor | mkfs/mkfs.c:236-250 | the bitmap that `mkfs` writes, the metadata blocks in use, makes with empty inodes a consistent image |
| Fs.FileSystem.Balloc | kernel/fs.c:66-89 | the lowest free block, its bit set in the bitmap block that has it, and the block cleared, both logged; 0 exactly when the disk is full |
| Fs.FileSystem.LowestClear | kernel/fs.c:73-77 | the two loops over bitmap blocks and their bits find the lowest clear bit, or reach the size of the disk |
| Fs.FileSystem.Bfree | kernel/fs.c:92-106 | clears the bit of the block in the bitmap and no other, and logs that; panics exactly when it was clear |
| Fs.FileSystem.Bmap | kernel/fs.c:405-444 | the block of a position, found or allocated; nothing in any file is lost, a present block is only looked up, every change is logged, 0 only if the disk is full, panic exactly beyond MAXFILE |
| Fs.FileSystem.Itrunc | kernel/fs.c:448-476 | clears exactly the bits of the inode's own blocks, never reaching the panic; the file is empty, the others are unchanged; every change is logged, and with fewer than MAXOPBLOCKS bitmap blocks the log has room |
| Fs.FileSystem.Readi | kernel/fs.c:494-519 | returns exactly the bytes of the file in the range asked for, up to its end, one by one; none if the range starts beyond the end or wraps; -1 exactly if the caller cannot take that many; allocates and changes nothing |
| Fs.FileSystem.Writei | kernel/fs.c:528-562 | refuses ranges beyond the file, wrapping or too long; otherwise the file becomes the old one with the bytes reported spliced in, no holes, no other file changed; fewer bytes only if the disk is full or the next piece cannot be copied from the caller; after a failed copy more bytes may have changed, never the size; otherwise every changed block is logged, and a write of the size `filewrite` uses never logs on after MAXOPBLOCKS different blocks; the bytes and the size of the new file, one by one |
| Fs.WrittenExactly | kernel/fs.c:539-561 | without a failed copy the file is the old one with exactly the bytes reported spliced in |
| Fs.WriteFits | kernel/file.c:149-162 | the write size of `filewrite`: with two blocks logged for each block touched, one if the file has it, and two for the indirect block, fewer than MAXOPBLOCKS; that size is three blocks |
| Fs.ChunkCost | kernel/fs.c:539-551 | each block written adds at most two to the blocks logged, or one if the file has the block, besides the indirect block and its bit |
| Fs.FrugalBlocks | kernel/log.c:215-236 | this bounds the different block numbers logged, whatever the layout of the disk |
| Virtio.WrappedIndex | kernel/virtio_disk.c:272-323 | 16-bit ring indices name the right slots and compare right across wrap-around |
| Virtio.QueuePush | kernel/virtio_disk.c:272-277 | a ring entry is added behind the entries waiting, overwriting none |
| Virtio.VirtioDisk.constructor | kernel/virtio_disk.c:120-146 | all descriptors free, rings empty |
| Virtio.VirtioDisk.AllocDesc | kernel/virtio_disk.c:156-166 | the lowest free descriptor, or there is none |
| Virtio.VirtioDisk.FreeDesc | kernel/virtio_disk.c:169-182 | clears and frees one descriptor; panics exactly when out of range or free already |
| Virtio.VirtioDisk.Alloc3Desc | kernel/virtio_disk.c:201-213 | three distinct free descriptors exactly when there are three; otherwise the free ones are as before |
| Virtio.VirtioDisk.FreeChain | kernel/virtio_disk.c:185-197 | ends, and frees exactly the descriptors linked from the head, without panic |
| Virtio.VirtioDisk.Submit | kernel/virtio_disk.c:216-281 | posts one request in three descriptors that no other uses and marks its buffer busy; without three descriptors nothing happens |
| Virtio.VirtioDisk.Complete | kernel/virtio_disk.c:235-265 | the device, reading type and sector of the request and the three descriptors, finds them as section 5.2 of virtio 1.1 asks, and transfers between the buffer and the block the caller asked for, in the direction asked for |
| Virtio.VirtioDisk.SeeOne | kernel/virtio_disk.c:312-324 | the handler takes the oldest used entry, whose status is good, and clears the flag of that request's buffer and no other |
| Virtio.VirtioDisk.Intr | kernel/virtio_disk.c:294-327 | ends whatever the device does meanwhile, with the used ring empty; no request is lost or seen twice, and exactly the requests seen have their flags cleared; with nothing left for the device to do, no buffer and no block changes |
| Virtio.VirtioDisk.Finish | kernel/virtio_disk.c:288-291 | the request's descriptors, and only those, are free again |
| Virtio.VirtioDisk.ReadWrite | kernel/virtio_disk.c:216-292 | with nothing else in flight: the block goes from the buffer to the disk or from the disk to the buffer, no other block or buffer changes, and every descriptor is free again |
| Paging.Pager.constructor | kernel/exec.c:60-70 | right after exec no page is listed or swapped and no slot is used |
| Paging.Pager.SwapSlotAlloc | kernel/proc.c:111-125 | the lowest free slot, or -1 if there is none |
| Paging.Pager.SwapSlotFree | kernel/proc.c:128-136 | the slot is free; numbers out of range are ignored |
| Paging.Pager.Reserve | kernel/proc.c:876-890 | a slot is always found, at or below the end of the swap file and at most 67: the SWAPFULL branch is dead; it is 67 exactly when all usable slots are taken |
| Paging.LowestFits | kernel/proc.c:111-125 | lowest-first allocation keeps the slots in use contiguous with the file, so a free slot starts within it |
| Paging.Pager.Kfree | kernel/kalloc.c:50-66 | the frame is free; no page changes |
| Paging.Pager.TakeVictim | kernel/proc.c:829-857 | the victim is the oldest page, mapped and no longer listed; victims' sequence numbers strictly increase |
| Paging.Pager.WriteVictim | kernel/proc.c:933-949 | no page changes; a usable slot gets as many bytes as the disk takes, and if that is the whole page holds the page; slot 67 is refused, so no PTE ever names a higher slot than 66 |
| Paging.Pager.SwapOut | kernel/proc.c:873-949 | succeeds exactly if a usable slot is free, the swap file is open or can be opened, and the disk takes a whole page; then the page is in a slot with its contents, else nothing happened and the failure is put down to its cause |
| Paging.Pager.Evict | kernel/proc.c:859-958 | the page's frame is free; a clean page of the executable is dropped, any other is swapped out exactly if a swap-out can succeed, and dropped otherwise; with a free slot, an open file and room on the disk, exactly the dirty pages and those at or above the end of the executable are swapped out |
| Paging.SlotsTaken | kernel/proc.c:111-125 | slots run out only for a process that has more pages than there are usable slots |
| Paging.Pager.DoPageReplacement | kernel/proc.c:829-964 | evicts exactly when a page is resident, frees exactly the two frames of the page and its node, leaves no frame held, and changes no other page; the victim is swapped out exactly if it is not a clean page of the executable and a swap-out can succeed; unless the swap-out failed, the victim keeps its contents if and only if it was dirty, or not of the executable, or still had its initial contents; the counts record it |
| Paging.Pager.Kalloc | kernel/kalloc.c:72-117 | fails exactly when no frame is free and no page is resident; otherwise exactly one frame more is held, the one returned; with a free frame nothing else changes, without one the oldest page is evicted |
| Paging.Pager.AddToResidentSet | kernel/proc.c:751-773 | the page is the newest on the list, and no frame is left held; panics exactly when there is no frame for its node |
| Paging.Pager.MapAndTrack | kernel/vm.c:517-527 | the frame held for the page becomes its frame, with the permissions given, and the page is the newest on the list; panics exactly when there is no frame for its node |
| Paging.Pager.Initialize | kernel/vm.c:490-606 | succeeds exactly for a page within one page below the stack pointer, or below the size and either at or above the end of the executable or in it; the new frame then holds zeros, readable and writable, at and above that end, and the executable's bytes and permissions below it |
| Paging.Pager.RemoveFromResidentSet | kernel/proc.c:777-804 | the page's node leaves the list wherever it is, head and tail stay right, the others keep their order, and its frame is free; no frame is left held; without a node nothing changes |
| Paging.Pager.UnmapPage | kernel/vm.c:209-228 | unmapping a resident page frees its frame and its list node, leaves none held, and leaves every other page as it was |
| Paging.Pager.VmFault | kernel/vm.c:471-618 | succeeds exactly on stack growth, heap, and pages of the executable, given a resident page or two free frames; otherwise fails, or panics exactly if one frame was free and the page one of these; the page appears clean, with its initial contents and permissions, as the newest; with two free frames nothing is evicted, with none the oldest page makes room; no frame is left held, on failure too; the page brought in is zeros, readable and writable, at and above the end of the executable, and the executable's page below it |
| Paging.Pager.SwapIn | kernel/trap.c:84-130 | the page is back as the newest, with the contents and permissions it had, also if the `kalloc` inside evicts another; at full memory exactly the oldest page leaves; kills and panics exactly for want of a first or second frame; no frame is left held |
| Paging.Pager.UserTrap | kernel/trap.c:73-154 | exactly which faults are served, which kill the process and which panic; the new page's permissions; no frame is lost, held or duplicated, the list stays in FIFO order, slots stay one-to-one with swapped pages, also when the process is killed or the kernel panics |
| Paging.Pager.DoLoad | kernel/trap.c:73-154 | a load succeeds exactly if the page is usable and readable, and gives the byte the page holds; the first load from a heap or stack page gives 0, from a page of the executable its byte; a heap page can always be loaded from |
| Paging.Pager.DoStore | kernel/trap.c:73-154 | a store succeeds exactly if the page is usable and writable; the byte then holds the value, every other byte of every page is as before unless lost, and the page is dirty; a heap page can always be stored to |
| Paging.Pager.Execute | kernel/trap.c:73-154 | over every run of loads, stores, growth and stack moves, however it ends: the invariant holds, no frame is left held, the victims' sequence numbers strictly increase; no swap-out fails if the file system gives good answers and the process has no more pages than usable slots, and each failure has one of these causes; if none failed, each load at or above `exe_end` returns the last value stored, or the initial one, and if no changed clean page was discarded so does each load of any page; given memory for one page, the kernel does not panic, a process is killed only for an access it may not make, and if no swap-out failed the run goes exactly as far as the accesses are legal, a rule that does not mention memory; on a page new to the process the value at the start is 0, or the executable's byte |
| Paging.LastStoredIs | kernel/trap.c:73-154 | the value that a run of actions requires at a byte is that of the last store to it, or the first value if there was none |
| Paging.EvictStands | kernel/proc.c:859-958 | an eviction takes no page and no permission away from the process, unless its swap-out failed |
| Paging.TracksNext | kernel/trap.c:73-154 | whatever faults and evictions an action causes, the pages the process knows and their permissions depend on the actions alone |
| Paging.UsableIsLegal | kernel/vm.c:471-618 | so an access succeeds exactly if the page was there at the start, or accessed before, or is one that `vmfault` serves for the present size and stack pointer, with the right permission |
| Paging.CauseHeard | kernel/proc.c:873-949 | a swap-out fails for the file system's sake only if it gave a bad answer, and the failures are those of the two causes |
| Paging.Pager.LoadInstead | kernel/trap.c:73-154 | a fault when one page is resident and memory is full: that page is discarded if clean and of the executable, else swapped out if a swap-out can succeed, and the page loaded takes its place |
| Paging.ForgetsDataPage | kernel/proc.c:859-871 | for every process with two free frames after exec: a store to a writable page of the executable is lost after two evictions, because swap-in clears the dirty bit, though the load between them returns it |
| Paging.ForgetsExample | kernel/proc.c:859-871 | one such process |
| Sv39.MakePteMeaning | kernel/riscv.h:366-386 | a word made from a frame number and permissions has the frame number from bit 10 up, bits 1 to 9 of the permissions in their places, and bit 0 set |
| Sv39.SwapWordMeaning | kernel/riscv.h:364-375 | the word of a swapped page is not valid, is marked by bit 8, and gives back its slot and permissions |
| Sv39.IndexMeaning | kernel/riscv.h:379-386 | the three 9-bit indices of an address lead from the root to the node of its page |
| Sv39.HardwareReads | kernel/vm.c:87-117 | the three table look-ups that the hardware makes for an address, by bits 30-38, 21-29 and 12-20, end at the word the tree assigns to the page, for the whole Sv39 space |
| Sv39.NewTable | kernel/vm.c:106-115 | adding an empty table below an invalid word keeps the tree a tree and every translation as it was |
| Sv39.SlotsDistinct | kernel/vm.c:116 | two pages never share a word |
| Sv39.WordSet | kernel/vm.c:169 | storing a leaf word changes the translation of exactly one page |
| Sv39.PageTable.constructor | kernel/vm.c:180-189 | a new table maps nothing |
| Sv39.PageTable.Walk | kernel/vm.c:99-117 | finds the word the tree assigns to the page, and changes no translation, also when it runs out of memory half way; every frame taken from the free list becomes a table, none is lost; panics exactly at MAXVA and above |
| Sv39.PageTable.Mappages | kernel/vm.c:147-176 | exactly the pages of the range get their words, none of which was valid before; how far it came on failure, which for want of memory is where a table is missing and no frame is left; no frame is lost; panics exactly for misalignment, empty range, a mapped page or an address too high, also for ranges that wrap in 64 bits; where the hardware looks for page k there is a word with bit 0 set, bits 1 to 9 of the permissions, and the number of frame k from bit 10 up |
| Sv39.PageTable.Uvmunmap | kernel/vm.c:194-230 | exactly the valid words in the range become 0; their frames and the slots of swapped pages are handed over, in order, once each; a range whose end wraps in 64 bits below its start is empty; panics exactly for misalignment or an end beyond MAXVA |
| Sv39.HandedOver | kernel/vm.c:205-226 | the frames handed over are those of the words with bit 0 set, the slots those of the words with bit 8 and not bit 0 |
| Sv39.PageTable.Freewalk | kernel/vm.c:281-296 | succeeds exactly when nothing is mapped below; then frees the tables at and below the node, each once; otherwise a mapped page makes it panic, or, if the word has no permission bits, is taken for a table |
| Sv39.PageTable.Uvmfree | kernel/vm.c:301-306 | succeeds exactly when every mapped page lies below the size rounded up in 64 bits; then no table is left, all their frames are free, and the data frames have been handed over; takes a page for a table only if some leaf word has no permission bits; for sizes that do not wrap, that is when every mapped page starts below the size |
| LazyLoad.ExeEnd | kernel/exec.c:74-89 | accepts exactly the headers of which every LOAD segment has `filesz` at most `memsz`, does not wrap and starts at a page; the result is the largest end of a LOAD segment |
| LazyLoad.ReadSegmentPage | kernel/vm.c:559-606 | the page holds the segment's file bytes below `filesz` and zeros beyond; fails exactly when the file is short |
| LazyLoad.LoadPage | kernel/vm.c:528-617 | the first header that covers the page serves it; with none, or an unreadable header before, the fault fails |
| LazyLoad.LazyIsWhole | kernel/vm.c:528-617 | for accepted executables whose LOAD segments share no page and lie in the file: a page of LOAD segment k is served from the first header covering it; if that is the same source as k, with the bytes and permissions that loading each segment whole gives |
| LazyLoad.PageOfSegment | kernel/vm.c:528-617 | if no header of another kind lies over the page, every page of a LOAD segment is served, bss included: byte by byte the file's below `filesz` and 0 beyond, with the segment's permissions |
| LazyLoad.LazyIsWholeExactly | kernel/vm.c:528-617 | a page of LOAD segment k is as after loading whole, for every file that holds the segments, if and only if the first header covering it takes the same bytes of the file to that page, with the same permissions, as k does |
| LazyLoad.SegmentIsWhole | kernel/vm.c:559-606 | being served from segment k is having the bytes that all segments loaded whole put on that page, and the permissions of k |
| LazyLoad.SpansExactly | kernel/exec.c:74-89 | the pages of a segment, onto which it is loaded whole, are those that start below its end and end above its start |
| LazyLoad.WholeElsewhere | kernel/exec.c:74-89 | loading whole leaves the memory on no segment's pages 0 |
| LazyLoad.OtherHeaderIsLoaded | kernel/vm.c:558-560 | an accepted executable in which a header that is not LOAD supplies a page in place of the LOAD segment |
| LazyLoad.ImageIsLoaded | kernel/vm.c:528-617 | the pages `LoadPage` serves for an executable are the image that Paging starts from, page by page, bytes and permissions |
| WaitExit.WaitLockedKeeps | kernel/proc.c:641-646 | giving up `wait_lock` while holding the process's own lock loses no wakeup |
| WaitExit.WakeThenMove | kernel/proc.c:660-674 | one round of a `wakeup` loop keeps the invariant, whatever the process it looks at is doing |
| WaitExit.ReparentKeeps | kernel/proc.c:398-408 | a child may become init's while init sleeps, since `wakeup(initproc)` follows under the same lock |
| WaitExit.ForkAcquireKeeps | kernel/proc.c:384-386 | the new child is known to nobody before its parent is set |
| WaitExit.ReapKeeps | kernel/proc.c:470-487 | what is freed is a finished process, by its parent |
| WaitExit.StepKeeps | kernel/proc.c:384-502 | every step of every process keeps the invariant |
| WaitExit.EveryRun | kernel/proc.c:384-502 | the invariant holds in every reachable state |
| WaitExit.NoMissedZombie | kernel/proc.c:457-502 | whenever `wait_lock` is free, no process that sleeps in `kwait`, or is committed to, has a zombie child, including children handed to init |
| WaitExit.ReapedOnce | kernel/proc.c:475-487 | no process is reaped twice, in any run |
| WaitExit.ReapedByParent | kernel/proc.c:470-487 | a process is reaped as a zombie that has left the CPU, by the process that is its parent then |
| WaitExit.ParentsLive | kernel/proc.c:398-453 | a parent is never a free slot or an exited process |
| WaitExit.NoChildrenIsTrue | kernel/proc.c:493-497 | `kwait` ends its scan without children only if there are none |
| Family.ParentMoves | kernel/proc.c:384-487 | a parent is set by the fork that made the process, handed to init by the parent's exit, or cleared when the parent reaps the zombie, and changes in no other way |
| Family.StepKeepsKin | kernel/proc.c:347-502 | every step keeps: whoever waits has a child, every process but init has a parent, slots being set up belong to a fork, which becomes the parent |
| Family.EveryRunKin | kernel/proc.c:347-502 | so these hold in every reachable state |
| Family.NobodyWaitsAlone | kernel/proc.c:493-502 | whoever sleeps in `kwait`, or is going to, or has just been woken, has a child: without one `kwait` returns |
| Family.NoOrphans | kernel/proc.c:384-453 | every process but init, running or exited, has a parent that is running or asleep, so that somebody can wait for it |
| Family.BornToForker | kernel/proc.c:384-392 | a process starts, runnable, through the last step of the fork that made it, as the child of the forking process |
| Family.NoSlotLost | kernel/proc.c:347-392 | a slot being set up is being set up by a fork |
| Family.CallsEnd | kernel/proc.c:347-502 | `kwait` and `kfork` lead nowhere but back to the caller; `kexit` nowhere but to a slot freed by reaping |
| Family.WaitReturnsFor | kernel/proc.c:457-502 | `kwait` returns only with a child reaped, without any child, killed, or unable to copy the status out |
| Family.WokenOnlyFor | kernel/proc.c:398-453 | a sleeper is woken only by a kill, by what it naps for, by the exit of a child of its own, or, if it is init, by an exit that hands children over |
| Family.NoDeadlock | kernel/proc.c:347-502 | while some call is under way, some process can go on: the locks deadlock nobody |
| Calls.ForkAlone | kernel/proc.c:384-392 | the steps of `kfork` from the allocated slot on, with nobody in between, make it a runnable child of the caller and change nothing else |
| Calls.WaitAlone | kernel/proc.c:457-502 | those of `kwait`: it reaps the zombie child with the lowest index; sleeps if there are children and no zombie; returns with nothing changed if there are no children |
| Calls.ExitAlone | kernel/proc.c:398-453 | those of `kexit`: its children are init's, it is a zombie, exactly the processes asleep on its parent, and on init if it had children, are awake, and nothing else changes |
| Calls.ExitInRun | kernel/proc.c:398-453 | in every run, a process that calls `kexit` while the locks it takes are free can get there by its own steps |
| Calls.WaitInRun | kernel/proc.c:457-502 | in every run, one that calls `kwait` with a zombie child while the locks are free can go on to reap one |
| Umalloc.StopsAtPlace | user/umalloc.c:30-32 | the stopping test of the search in `free` holds at exactly one block of the cycle |
| Umalloc.CoalesceKeeps | user/umalloc.c:33-42 | merging two blocks that touch keeps the list a cycle in address order that accounts for every unit |
| Umalloc.ReleasedIsFreed | user/umalloc.c:33-42 | the two conditional updates of `free` amount to linking the block and merging it with both neighbours |
| Umalloc.BlocksDisjoint | user/umalloc.c:24-90 | a block in use overlaps no other block, in use or free |
| Umalloc.PayloadIsOutside | user/umalloc.c:24-90 | nothing a program writes into its block, behind the header, can damage the heap |
| Umalloc.SbrkArgumentExact | user/umalloc.c:51-54 | a request reaches `sbrk` unchanged if and only if it is below 2 GiB, and otherwise `sbrk` is asked for less; what is asked for is the request modulo 2^32, as an int |
| Umalloc.LargestRequestWraps | user/umalloc.c:51-54 | for the largest request 16 bytes are asked of `sbrk` |
| Umalloc.OnlyTopFits | user/umalloc.c:46-61 | if no free block was large enough, then after `morecore` only the block that ends with the new memory is |
| Umalloc.SpanFits | user/umalloc.c:33-40 | block sizes fit their 32-bit field as long as the allocator's memory spans at most 2^32 units |
| Umalloc.FreedJoined | user/umalloc.c:33-40 | the block given back ends up in one whose size is that of the block and of the free neighbours that touch it |
| Umalloc.OneBlock | user/umalloc.c:24-44 | when everything is given back and the memory is in one piece, it is one free block |
| Umalloc.SizeOverflows | user/umalloc.c:33-40 | 33 requests just below 2 GiB, all given back, make a free block whose size does not fit, if the memory is there |
| Umalloc.LargestMalloc | user/umalloc.c:51-54 | the largest request to a new process obtains one unit, and the block ends beyond it |
| Umalloc.Allocator.constructor | user/umalloc.c:21-22 | nothing allocated, no memory obtained |
| Umalloc.Allocator.FindPlace | user/umalloc.c:29-32 | the search ends, from any start, at the last free block below the address |
| Umalloc.Allocator.Free | user/umalloc.c:24-44 | exactly this block is no longer in use; every unit stays accounted for, free blocks stay apart, and the units given back lie in one free block; if all sizes fitted before they still do if and only if the block and the free neighbours that touch it have fewer than 2^32 units; the next search starts at the last free block below it |
| Umalloc.Allocator.Scan | user/umalloc.c:74-88 | ends after at most one round; finds a block exactly when one is large enough, the first one after `freep` |
| Umalloc.Allocator.Take | user/umalloc.c:75-84 | hands out exactly the units asked for, the last ones of a block that was free; what is left of it stays on the list |
| Umalloc.Allocator.Morecore | user/umalloc.c:46-61 | at least 4096 units more, all of which end up free, so that some block is large enough; all of them are memory obtained if and only if the request is below 2 GiB; the break moves as `sbrk` moves it, and stays if the process would shrink below nothing; if the system refuses, nothing changes; a clash exactly if what is granted starts below the allocator's top |
| Umalloc.Allocator.Malloc | user/umalloc.c:63-90 | a new block of as many units as the bytes need, and one for the header, disjoint from all others; 0 exactly when no free block is large enough and the system gives no memory, or gives memory in use, which happens only after a request of 2 GiB or more; with new memory, the block lies in what the system gave if and only if the request is below 2 GiB |
| Grep.LanguageCons | user/grep.c:85-106 | a pattern's language by its first item: one character, or a run of them before the rest |
| Grep.OccursShift | user/grep.c:77-80 | a match at a later position is a match of the shorter text |
| Grep.ParseThenShow | user/grep.c:72-106 | every string is the writing of the pattern it stands for: `.`, a character, either with `*`, and a final `$` |
| Grep.ShowThenParse | user/grep.c:72-106 | and every pattern that can be written is the one its writing stands for |
| Grep.Match | user/grep.c:72-82 | true exactly when some substring, or prefix for a leading ^, is in the language of the pattern, with a final $ anchoring it |
| Grep.MatchHere | user/grep.c:84-96 | true exactly when a prefix of the text is in the language |
| Grep.MatchStar | user/grep.c:98-106 | true exactly when a run of the character and then the rest match a prefix |

## Left out

- Locks as data: the buffer cache and log methods are atomic steps of the lock holder; which waiting process gets a buffer lock, and when, is left to the caller. A commit waits for processes that were reading a logged block when it started; readers that come while it runs do not appear.
- That an operation does not log on after MAXOPBLOCKS different blocks is proved of `writei` and `itrunc`, not of directory operations or of `iput` after an unlink.
- Inode allocation, `ilock`, `iput`, directories, path names, `sys_*` functions, pipes and the console: they would add easy members.
- `log_write` and `brelse` inside the file system code: `Fs` works on block contents as the buffer cache gives them.
- Fs.FileSystem.Writei: files without holes, an invariant true of a new image and kept by every operation; a foreign image with holes is not covered. Bytes of a failed copy are in a buffer that is not logged, and are lost when it is recycled; the model keeps them.
- Fs.FileSystem.constructor: the root directory and the files that `mkfs` puts on the image are not modelled.
- Frame allocation is sequential: `kalloc` reads and pops the free list under separate lock holds, and nothing is claimed about several CPUs.
- Paging.Pager.Execute: not claimed across `fork`, `exec`, shrinking, or kernel copies to and from user memory.
- The swap-out writes its page with `writei` after `end_op` (kernel/proc.c:929-936). By the contract of Log.Log.LogWrite the kernel then panics unless some other operation is outstanding. Paging treats the swap file as bytes, with the answers of the file system given, and does not model this.
- Unmapping a swapped page, which frees the slot but keeps the PTE, and reaping, where `uvmunmap` acts on the wrong process: not part of the slot claims.
- `fifo_seq_num` is unbounded: int overflow after 2^31 faults is not modelled.
- Sv39.PageTable.Walk: `kalloc` takes a frame from a list or fails; that it may evict a page of the same process is modelled in Paging only.
- Sv39.PageTable.Freewalk: what happens after a page without permission bits was taken for a table, which depends on the page's contents, is not modelled.
- Umalloc.Allocator.Malloc: after a clash, when the system gives memory that the allocator has in use, the heap is destroyed and the model stops. Sizes are unbounded in the model; beyond a span of 2^32 units, where they would wrap, it does not follow the code.
- Umalloc.SizeOverflows: this kernel kills the process at its second request, because the new header lies where there is no leaf table; the run is one of the allocator alone.
- Umalloc.Allocator.Morecore: for a request of 2 GiB or more the write of the new header may fault, since the break can be below it; then the process is killed, which is not modelled.
- Umalloc.Allocator.Free: as for Malloc, sizes wrap in the code beyond a span of 2^32 units.
- WaitExit: process identifiers are unbounded; file closing in `kexit` and the work of `freeproc` apart from the process table are not modelled; whether `killed` holds or `copyout` fails is left to chance.
- Virtio.VirtioDisk.Complete: the device reports success; a failing status makes the handler panic. Notification, memory barriers and the sleep and wakeup of waiting processes are not modelled.
- LazyLoad: reading the ELF header and the bytes of program headers is reduced to which headers can be read.
- TLB, interrupt timing, boot, assembly, and the remaining user programs.
