# Verification of two xv6 kernels

A Dafny model of the hardest parts of the two xv6 kernels of this repository, with proofs. The base
system (file system, log, memory, processes, pipes, shell, grep) is modelled from the Offline 3 copy,
demand paging from Offline 4. `dafny verify dfyconfig.toml` checks everything.

**Write-ahead log, buffer cache, inodes.** The disk is a map from blocks to contents, and one
`bwrite` is one atomic step. `BufferCache` is bio.c with its doubly linked list in arrays and proves that
`bread` always shows the latest logical contents. `WriteAheadLog` is log.c on top of it: its
methods are proved to perform exactly the block writes that `CrashModel` quantifies over, where crash
atomicity is proved for every crash point and every chain of interrupted recoveries. `GroupCommit` is
the begin_op/end_op protocol for any number of processes, and `LogSleep` its sleeps and wakeups. `FsModel`, `FileModel` and `FileSystem` are balloc, bmap,
readi, writei, itrunc and filewrite as operations on byte sequences, with exact block ownership.
`Operation` runs a whole operation from begin_op to the end of its commit on the real log and cache.
`FsOnLog` ties the transaction of the file system to that of the log, and `Durability` says what a file is
when it is read back after a crash, also in the middle of a filewrite; `LostWrite` is a write that is lost, and
`StuckTruncate` a truncation that panics.

**Demand paging.** `Paging` has the two metadata tables, the page table entries as 32-bit words, the
frames and the swap file, and proves that a program sees flat memory (`FlatMemory`) as long as it has
fewer than 30 pages, where each load answers what was last stored, and exactly when a fault fails otherwise.

**Memory.** `FreeList` and `Umalloc` are the K&R allocator; `VmModel` and `Vm` are two-level page tables
with exact conservation of frames on all failure paths, and the exact number of free frames below which
setupkvm and copyuvm fail; `UserMemory` is allocuvm and copyout.

**Scheduling and synchronisation.** `Rand` and `Lottery` are the generator and the lottery with exact
counts. `Monitor` is sleep and wakeup for any number of processes; `SleepLock`, `LogSleep` and `PipeWakeup` are
proved to follow its rules, and their locks never to block everybody. `ProcTable` is fork, exit, wait and kill in every run of the table.

**User programs.** `Grep` is the matcher against the language of a pattern, `GrepInput` its loop over
the input, `ShModel` and `Sh` are the
shell's parser and its round trip, and `ShSpacing` is the round trip with any white space.
`ShGrammar` is the grammar without the parser, which the parser is proved to accept exactly.

## What the proofs say about the code

- `log_write` can panic when operations add all of the MAXOPBLOCKS blocks they are promised: the log is
  then full, and the guard at log.c:218 stands before the absorption loop, so that logging a block again
  panics too. And as the guard is tested before the lock is taken, two processes can both pass it with one place left:
  the list then has one block more than the log mkfs makes, whose crash atomicity is lost, because the commit finds no
  buffer or would write behind the log, into the first block of inodes (`GroupCommit.OutgrowsExactly`,
  `GroupCommit.MkfsOutgrown`). `GroupCommit.PanicExactlyBeyondBound` gives the exact condition for every quota and log
  size; filewrite's 7 blocks are safe (`FileModel.FilewriteFitsLog`).
- `malloc` returns a block without room for requests within 7 bytes of 2^32
  (`Umalloc.EnoughExactly`).
- A process that has reached 30 pages is killed by its next access to a paged-out page, and that fault
  loses a frame (`Paging.Process.RetrievePage`, `Paging.Process.Load`, `Paging.KilledAtThirty`).
- `writei` inside a file does not write the inode (fs.c:506). Where it has put a block into an empty place
  of the inode, the committed write is lost: `LostWrite.ByteIsLost` is such an input, and `Durability.WriteIsAtomic`
  has the exact condition, which a file without holes meets.
- `readi` of a hole allocates, so that `fileread`, which opens no operation, panics in log_write exactly when the
  range has a hole, while no other process has an operation open; while one has, the hole is filled in that
  operation's transaction (`FileSystem.Fs.Fileread`).
- `itrunc` of a file whose blocks lie under as many bitmap blocks as the log holds panics
  (`FileSystem.Fs.Itrunc`, `StuckTruncate.TruncatePanics`); with one bitmap block it logs two blocks.
- When `allocuvm` runs out of frames it takes back the pages but not the page tables it made, so that their frames are
  lost to kalloc until the process ends: exactly when it had to make one (`UserMemory.Allocuvm`, `UserMemory.LosingRequest`).
- `copyout` follows a null pointer when the page table of the address is absent (`UserMemory.WildCopy`). exec.c:76 and 87, its
  only callers, never get there while the arguments fit below the new size, for which allocuvm has made the page tables.
- `grep` throws away what is in its buffer when a read returns no newline: input is kept if and only if every
  read returns one (`GrepInput.NothingLostExactly`, `GrepInput.LostLine`).
- `kill(0)` finds a free slot without a pid and marks it killed, and nothing clears the mark, so that the next process in
  it is born killed; the same happens when allocproc gives up a slot that was killed in the meantime, and in no other way
  (`ProcTable.StepKeepsClean`, `ProcTable.NobodyBornKilled`, `ProcTable.KillZero`).
- The lottery chooses nobody for `bin_size` raw values, because `random_at_most` may return the total.

## Model

| member | source | states |
|---|---|---|
| `BufferCache.Cache.constructor` | Offline 3 (Xv6 Lottery Scheduling)/bio.c:38-56 | binit leaves every buffer free, on one circular list with head, and the cache showing exactly the disk |
| `BufferCache.Cache.Link` | Offline 3 (Xv6 Lottery Scheduling)/bio.c:45-55 | the linking loop of binit makes one cycle through head and all buffers, with prev and next inverse |
| `BufferCache.Cache.FindCached` | Offline 3 (Xv6 Lottery Scheduling)/bio.c:67-74 | the forward walk finds the buffer of the block whenever any buffer has it |
| `BufferCache.Cache.FindIdle` | Offline 3 (Xv6 Lottery Scheduling)/bio.c:79-91 | the backward walk finds the idle clean buffer nearest the tail, and fails only if no buffer is idle and clean |
| `BufferCache.Cache.Get` | Offline 3 (Xv6 Lottery Scheduling)/bio.c:61-93 | bget panics exactly when the block is not cached and every buffer is held or dirty; otherwise it returns, locked, the cached buffer with one reference more, or as its only reference an idle clean one that was released no later than any other idle clean one in the whole history of releases; it changes no other buffer, and no two buffers come to hold the same block |
| `BufferCache.Cache.Read` | Offline 3 (Xv6 Lottery Scheduling)/bio.c:97-106 | bread returns the latest logical contents of the block, whatever has been evicted or written before |
| `BufferCache.Cache.Modify` | Offline 3 (Xv6 Lottery Scheduling)/bio.c:1-17 | changing a held buffer changes the logical contents of its block and of no other |
| `BufferCache.Cache.Write` | Offline 3 (Xv6 Lottery Scheduling)/bio.c:109-116 | bwrite is one atomic block write: the disk gets the buffer's contents at its block and changes nowhere else, the logical contents stay |
| `BufferCache.Cache.Pin` | Offline 3 (Xv6 Lottery Scheduling)/log.c:231 | setting B_DIRTY keeps the invariant that the cache and the disk together hold every logical block |
| `BufferCache.Cache.Release` | Offline 3 (Xv6 Lottery Scheduling)/bio.c:120-141 | brelse moves the buffer to the front of the list exactly when nobody else waits for it, records that in the history, and keeps the list in the order of that history |
| `BufferCache.Cache.MoveToFront` | Offline 3 (Xv6 Lottery Scheduling)/bio.c:128-136 | the six pointer assignments of brelse keep one cycle with prev and next inverse, and move the one buffer |
| `BufferCache.Spliced` | Offline 3 (Xv6 Lottery Scheduling)/bio.c:128-136 | unlinking a node of the circular list and putting it behind head gives the same cycle with that node moved to the front |
| `BufferCache.AddFirst` | Offline 3 (Xv6 Lottery Scheduling)/bio.c:48-54 | inserting a node behind head keeps one cycle with inverse links |
| `BufferCache.Update` | Offline 3 (Xv6 Lottery Scheduling)/bio.c:61-106 | one buffer and its block can change together without breaking coherence: no block twice, valid clean buffers equal to the disk, every other logical block still shown or on disk |
| `BufferCache.ReleaseKeepsOrder` | Offline 3 (Xv6 Lottery Scheduling)/bio.c:128-136 | moving a released buffer behind head keeps the list in order of last release, so that every cache has that order, which is part of its invariant from binit on |
| `BufferCache.RecyclesOldest` | Offline 3 (Xv6 Lottery Scheduling)/bio.c:79-91 | the last idle clean buffer of the list was released no later than any other idle clean one |
| `CrashModel.HeaderRoundTrip` | Offline 3 (Xv6 Lottery Scheduling)/log.c:37-40 | the log header written to a block is read back as the same list of block numbers |
| `CrashModel.InstallAt` | Offline 3 (Xv6 Lottery Scheduling)/log.c:69-82 | after install_trans each block holds the last log block that names it, and the others are as before |
| `CrashModel.RecoveryRestarts` | Offline 3 (Xv6 Lottery Scheduling)/log.c:115-122 | a recovery that is cut off after any of its block writes can be run again from the start, and ends in the same home blocks |
| `CrashModel.RecoverCommitPoint` | Offline 3 (Xv6 Lottery Scheduling)/log.c:192-202 | recovering from the disk after any prefix of the block writes of commit gives the old home blocks if the header was not yet written, and the logged ones if it was |
| `CrashModel.ChainRecovers` | Offline 3 (Xv6 Lottery Scheduling)/log.c:115-122 | any number of interrupted recoveries followed by a complete one gives what one recovery of the first disk gives |
| `CrashModel.CrashAtomicity` | Offline 3 (Xv6 Lottery Scheduling)/log.c:68-122 | for every crash point of commit and every chain of interrupted recoveries, one complete recovery leaves the home blocks all as before the transaction or all as logged, and an empty log |
| `CrashModel.NoEarlyInstall` | Offline 3 (Xv6 Lottery Scheduling)/log.c:176-202 | no home block changes on disk before the header write of a commit |
| `CrashModel.SealedIsApplied` | Offline 3 (Xv6 Lottery Scheduling)/log.c:192-202 | once the header is written, recovery applies exactly the logged transaction |
| `CrashModel.SealedOnDisk` | Offline 3 (Xv6 Lottery Scheduling)/log.c:101-112 | once the header is written, block start of the log holds the count and the block numbers as 32-bit words, least significant byte first, and block start + 1 + i what goes to the i-th of them |
| `GroupCommit.RunKeepsInv` | Offline 3 (Xv6 Lottery Scheduling)/log.c:125-174 | in every run of any number of processes, whose log_write makes its tests before it takes the lock, the reserved and used log space stays within its bound, and outstanding and committing count what they say |
| `GroupCommit.CommitRunsAlone` | Offline 3 (Xv6 Lottery Scheduling)/log.c:125-174 | in every reachable state committing holds exactly when some process commits, then nothing is outstanding and no operation is active; so no log_write runs during a commit and the panics of end_op and of log_write outside a transaction cannot happen; blocks listed and unused reservations fit the list lh.block, so that whoever is past the tests of log_write still finds a place in it |
| `GroupCommit.PanicExactlyBeyondBound` | Offline 3 (Xv6 Lottery Scheduling)/log.c:213-233 | for operations that add at most quota fresh blocks, log_write can hit the too-big-a-transaction panic in some run if and only if 10 + 2 * quota reaches LOGSIZE or the size of the log less one |
| `GroupCommit.MkfsQuota` | Offline 3 (Xv6 Lottery Scheduling)/mkfs.c:25 | with the log mkfs makes, operations of at most 9 blocks never hit that panic, and operations of MAXOPBLOCKS can on every log |
| `GroupCommit.OutgrowsExactly` | Offline 3 (Xv6 Lottery Scheduling)/log.c:213-233 | as log_write tests before it takes the lock, the list can come to hold more blocks than the log has room for, in some run of operations of at most quota blocks, if and only if the size of the log is at least 2 and at most 10 + 2 * quota |
| `GroupCommit.MkfsOutgrown` | Offline 3 (Xv6 Lottery Scheduling)/mkfs.c:25 | on the log mkfs makes that happens with operations of MAXOPBLOCKS blocks and not with operations of 9; the one block too many belongs to the first block behind the log |
| `LogSleep.CodeObeys` | Offline 3 (Xv6 Lottery Scheduling)/log.c:125-174 | begin_op sleeps only while the log does not admit it, and whenever end_op or the end of a commit lets the log admit an operation again, that process wakes the sleepers before it leaves |
| `LogSleep.StepKeepsGood` | Offline 3 (Xv6 Lottery Scheduling)/log.c:125-174 | every step of begin_op, log_write, end_op and commit by any process keeps this, also where commit empties the log without the lock; and at most one process is in commit |
| `LogSleep.NobodySleepsOnAnOpenLog` | Offline 3 (Xv6 Lottery Scheduling)/log.c:125-174 | in every reachable state with any number of processes, if one sleeps in begin_op while the log would admit it, another is about to wake it |
| `LogSleep.NoDeadlock` | Offline 3 (Xv6 Lottery Scheduling)/log.c:125-202 | in every reachable state in which a process is in an operation, commits, or waits in begin_op, one of them can make its next step: they never all sleep or block each other |
| `LogSleep.NoStrayOperation` | Offline 3 (Xv6 Lottery Scheduling)/log.c:145-233 | outstanding counts the processes in an operation, so that end_op never finds the log committing or nothing outstanding, and log_write is never outside an operation |
| `WriteAheadLog.Log.ReadOne` | Offline 3 (Xv6 Lottery Scheduling)/bio.c:97-106 | bread fails exactly when bget panics; otherwise it returns a buffer that nobody held, which shows the latest logical contents of the block |
| `WriteAheadLog.PanicsWhenFull` | Offline 3 (Xv6 Lottery Scheduling)/bio.c:79-92 | with nothing held, bget finds no buffer exactly when the pinned blocks fill the cache and the block is not one of them |
| `WriteAheadLog.SecondFits` | Offline 3 (Xv6 Lottery Scheduling)/log.c:183-187 | while one buffer is held a second one is found whenever its block is pinned or the pins leave room for both |
| `WriteAheadLog.PanicsWhenBusy` | Offline 3 (Xv6 Lottery Scheduling)/bio.c:79-92 | whoever holds buffers, bget panics exactly when the block is not cached and the pinned blocks and the other held buffers are as many as there are buffers |
| `WriteAheadLog.SecondBufferFound` | Offline 3 (Xv6 Lottery Scheduling)/fs.c:389-395 | bmap, which holds the indirect block while it allocates, and itrunc likewise, always find their second buffer while the holders are fewer than the buffers that the transaction leaves over |
| `WriteAheadLog.Log.EncodeHeader` | Offline 3 (Xv6 Lottery Scheduling)/log.c:102-112 | the loop of write_head writes the whole in-memory header into the block, and no other word |
| `WriteAheadLog.Log.WriteHead` | Offline 3 (Xv6 Lottery Scheduling)/log.c:101-112 | write_head is exactly one block write, of the header block, with the current list |
| `WriteAheadLog.Log.WriteLog` | Offline 3 (Xv6 Lottery Scheduling)/log.c:176-190 | write_log copies the logical contents of every logged block to its log block, in order, one block write each, or stops because the cache is full of pinned buffers |
| `WriteAheadLog.Log.InstallTrans` | Offline 3 (Xv6 Lottery Scheduling)/log.c:68-82 | install_trans writes every logged block home in order, one block write each, and unpins it |
| `WriteAheadLog.Log.Commit` | Offline 3 (Xv6 Lottery Scheduling)/log.c:192-202 | commit does exactly the block writes that the crash model quantifies over, in that order; afterwards the disk's home blocks are the logical contents and nothing is pinned; it fails exactly when the logged blocks do not leave a buffer free |
| `WriteAheadLog.CommittedShowsView` | Offline 3 (Xv6 Lottery Scheduling)/log.c:192-202 | the disk after a commit, outside the log, is the logical disk from before it |
| `WriteAheadLog.Log.ReadHead` | Offline 3 (Xv6 Lottery Scheduling)/log.c:84-97 | read_head reads back the list that is in the header block |
| `WriteAheadLog.Log.RecoverFromLog` | Offline 3 (Xv6 Lottery Scheduling)/log.c:115-122 | recover_from_log leaves the disk that recovery promises by exactly its block writes, and an empty log |
| `WriteAheadLog.InitLog` | Offline 3 (Xv6 Lottery Scheduling)/log.c:53-66 | a machine that boots on any recoverable disk ends with the recovered disk, as the cache shows it, and a log ready to use |
| `WriteAheadLog.Log.BeginOp` | Offline 3 (Xv6 Lottery Scheduling)/log.c:125-141 | begin_op admits an operation exactly when no commit runs and the reservations fit, and else changes nothing |
| `WriteAheadLog.Log.EndOp` | Offline 3 (Xv6 Lottery Scheduling)/log.c:145-163 | end_op panics exactly when a commit is running, and starts a commit exactly for the last operation |
| `WriteAheadLog.Log.EndCommit` | Offline 3 (Xv6 Lottery Scheduling)/log.c:165-173 | after a commit the log is open again; the wakeup that follows is in LogSleep |
| `WriteAheadLog.Log.LogWrite` | Offline 3 (Xv6 Lottery Scheduling)/log.c:213-233 | log_write panics exactly under its two guards; otherwise the block is in the list once and its buffer pinned, and neither the disk nor any other buffer changes |
| `WriteAheadLog.Log.AddBlock` | Offline 3 (Xv6 Lottery Scheduling)/log.c:223-230 | log absorption: a block that is already listed is not listed again, any other goes to the end |
| `Operation.BreadFits` | Offline 3 (Xv6 Lottery Scheduling)/bio.c:79-92 | bread finds a buffer as long as the blocks pinned by the transaction leave one over |
| `Operation.Update` | Offline 3 (Xv6 Lottery Scheduling)/log.c:205-233 | bread, a change of the buffer, log_write and brelse change one logical block and put it in the transaction, and nothing goes to disk |
| `Operation.Operate` | Offline 3 (Xv6 Lottery Scheduling)/log.c:125-233 | an operation of any up to MAXOPBLOCKS changes on a quiet system never panics; outside the log the disk ends as the old logical contents with all changes made in order, by exactly the block writes of one commit, which crash atomicity quantifies over |
| `FsModel.DecodeAfterEncode` | Offline 3 (Xv6 Lottery Scheduling)/fs.c:220-235 | an inode written into its block is read back, and the other inodes of the block are unchanged |
| `FsModel.DecodeSpells` | Offline 3 (Xv6 Lottery Scheduling)/fs.h:29-42 | the k-th inode of a block is its 64 bytes from 64 * k on, field by field, least significant byte first |
| `FsModel.UsedIsMarked` | Offline 3 (Xv6 Lottery Scheduling)/fs.h:45-48 | a block is in use exactly if its bit is set: bit b mod 8 of byte b mod 4096 / 8 of bitmap block b / 4096 |
| `FsModel.ByteIsOnDisk` | Offline 3 (Xv6 Lottery Scheduling)/fs.c:372-400 | byte x of a file is byte x mod 512 of the block that address x / 512 names, or from the twelfth on word x / 512 - 12 of the indirect block, and 0 where an address is 0 |
| `FsModel.StoreBit` | Offline 3 (Xv6 Lottery Scheduling)/fs.c:56-95 | changing one bitmap bit changes no reference, no other bit and no file |
| `FsModel.EnterInner` | Offline 3 (Xv6 Lottery Scheduling)/fs.c:387-396 | entering a fresh block in the indirect block keeps ownership exact and every file's bytes |
| `FsModel.BitmapExact` | Offline 3 (Xv6 Lottery Scheduling)/fs.c:56-95 | a data block's bitmap bit is set exactly when one inode slot or indirect slot refers to it, and then only one does |
| `FsModel.Relock` | Offline 3 (Xv6 Lottery Scheduling)/fs.c:287-311 | locking another inode keeps ownership and every file |
| `FileSystem.Fs.LogWrite` | Offline 3 (Xv6 Lottery Scheduling)/log.c:213-233 | log_write panics exactly outside an operation or when its guards find the log full; otherwise one block of the logical disk changes, and is in the transaction |
| `FileSystem.Fs.FindFree` | Offline 3 (Xv6 Lottery Scheduling)/fs.c:62-76 | the loops of balloc find the first free block, and fail only if every block is in use |
| `FileSystem.Fs.Balloc` | Offline 3 (Xv6 Lottery Scheduling)/fs.c:56-78 | balloc returns a block that was free, now zeroed, and sets its bit, which is bit b mod 8 of byte b mod 4096 / 8 of bitmap block b / 4096; no file or reference changes; it panics only if the disk is full, and then changes nothing, or if log_write does, which is so outside an operation |
| `FileSystem.Fs.MapAddr` | Offline 3 (Xv6 Lottery Scheduling)/fs.c:377-386 | a slot of addrs is allocated only if it was empty; ownership stays exact and no file changes |
| `FileSystem.Fs.MapInner` | Offline 3 (Xv6 Lottery Scheduling)/fs.c:387-396 | the same for an entry of the indirect block |
| `FileSystem.Fs.Bmap` | Offline 3 (Xv6 Lottery Scheduling)/fs.c:372-400 | bmap returns the block of that file position, allocating it, and at need the indirect block, with zeros; no file's contents and no inode on disk change; a block that is there is found without any change, also outside an operation; it panics only beyond MAXFILE, on a full disk or in log_write, and always when it has to allocate outside an operation |
| `FileSystem.Fs.Readi` | Offline 3 (Xv6 Lottery Scheduling)/fs.c:452-477 | readi returns exactly the bytes of the file from off, cut off at its end: those in the disk blocks that the direct addresses and the words of the indirect block name, with holes as zeros; its error results are those of the guards; it changes nothing if and only if the range has no hole, and outside an operation it panics if and only if the range has one |
| `FileSystem.Fs.Iupdate` | Offline 3 (Xv6 Lottery Scheduling)/fs.c:220-235 | iupdate puts the inode in memory into those 64 bytes, field by field, and changes no other byte of the disk and no other file; it panics exactly if log_write does |
| `FileSystem.Fs.Writei` | Offline 3 (Xv6 Lottery Scheduling)/fs.c:481-511 | after writei the file is its old contents with src spliced in at off, growing the file if need be, and no other file has changed; refused requests change nothing; every changed block is in the transaction; the inode on disk is still the one in memory exactly if the file grew or no place in the inode for the range was empty; a panic means a full disk or a log_write without an operation or room |
| `FileModel.SplicedFile` | Offline 3 (Xv6 Lottery Scheduling)/fs.c:481-511 | writing a range and setting the size gives the spliced byte sequence |
| `FileSystem.Fs.Bfree` | Offline 3 (Xv6 Lottery Scheduling)/fs.c:80-95 | bfree of an owned block clears exactly its bit on disk; it panics exactly if log_write does, and never for a free block |
| `FileSystem.Fs.Itrunc` | Offline 3 (Xv6 Lottery Scheduling)/fs.c:406-435 | itrunc frees exactly the blocks of this inode with its indirect block, leaves it empty, changes no other file, and logs exactly the bitmap blocks of the freed blocks and the inode's block; it panics exactly if there is no operation or those bitmap blocks fill the log |
| `FileModel.ItruncLogsTwo` | Offline 3 (Xv6 Lottery Scheduling)/fs.c:406-435 | on a disk with one bitmap block itrunc logs at most two blocks |
| `StuckTruncate.TruncatePanics` | Offline 3 (Xv6 Lottery Scheduling)/fs.c:406-435 | an input where itrunc panics: a file of one block on a log with room for one block |
| `FileModel.TakenExactly` | Offline 3 (Xv6 Lottery Scheduling)/fs.c:493-508 | writei inside the file leaves the inode in memory as it is on disk if and only if no place in addrs that the range hangs on was empty; holes inside the indirect block do not matter |
| `FileModel.NothingLeft` | Offline 3 (Xv6 Lottery Scheduling)/fs.c:406-435 | after both loops of itrunc no slot of the inode owns a block, and every other owner is as before |
| `FileSystem.Fs.Ilock` | Offline 3 (Xv6 Lottery Scheduling)/fs.c:287-311 | the inode in memory becomes the one at bytes 64 * (inum mod 8) onwards of block inodestart + inum / 8: type, major, minor and nlink as 2 bytes each, size and 13 addresses as 4, least significant byte first; it panics exactly for an inode without a type |
| `FileSystem.Fs.Fileread` | Offline 3 (Xv6 Lottery Scheduling)/file.c:97-113 | fileread opens no operation: it returns the bytes and advances the offset; where the range has no hole it changes nothing, and where it has one it panics exactly while no operation of another process is open, and else fills the hole or panics as an allocation does; so never in a file without holes, which is what writei keeps |
| `FileSystem.Fs.Filewrite` | Offline 3 (Xv6 Lottery Scheduling)/file.c:117-156 | filewrite of any length writes the whole of src by chunks, or after an error exactly a number of whole chunks up to the first that does not fit, each chunk a completed writei of its own part of src on what the one before has left, advances the offset by what it has written, and changes no other file; on a disk with one bitmap block every one of its operations logs at most 7 blocks, none of them makes log_write panic, and a panic means a full disk |
| `FileSystem.Fs.Chunk` | Offline 3 (Xv6 Lottery Scheduling)/file.c:126-146 | one chunk is one operation of at most 7 distinct blocks, on a disk with one bitmap block, and finds room in the log for them |
| `FileModel.RecordsBounded` | Offline 3 (Xv6 Lottery Scheduling)/file.c:120-128 | a write of at most 1536 bytes at any offset touches at most 7 blocks: data, indirect, inode and bitmap |
| `FileModel.NearlyBounded` | Offline 3 (Xv6 Lottery Scheduling)/fs.c:493-508 | also a write of at most 1536 bytes that panics half way has logged at most 8 blocks |
| `FileModel.FilewriteFitsLog` | Offline 3 (Xv6 Lottery Scheduling)/file.c:120-128 | for whatever operations filewrite makes on such a disk: operations that add as many blocks never make log_write panic on the log of mkfs, for any number of processes at a time |
| `Durability.StoreIsAtomic` | Offline 3 (Xv6 Lottery Scheduling)/log.c:68-202 | if a transaction logs every block that differs, then after a crash anywhere in its commit and any number of interrupted recoveries the file system's disk is exactly the one before or exactly the one after |
| `Durability.WriteIsAtomic` | Offline 3 (Xv6 Lottery Scheduling)/fs.c:481-511 | the inode read back after such a crash is the old one or what the committed writei left on disk, depending only on whether the log header was written; in the second case it is the inode from memory if and only if the file grew or no place in the inode for the range was empty, and otherwise the file holds the whole of the writei if and only if only zeros went where such a place was empty |
| `Durability.StaleInodeFile` | Offline 3 (Xv6 Lottery Scheduling)/fs.c:493-511 | when writei has not written the inode, the file read from disk is the written one if and only if only zeros went into the holes of the inode |
| `Durability.FilewriteIsAtomic` | Offline 3 (Xv6 Lottery Scheduling)/file.c:117-156 | after a crash anywhere in the commit of any chunk of a filewrite to a file without holes, and any interrupted recoveries, the file read back is the old one with a number of whole chunks of src spliced in, the ones committed |
| `Durability.ChunksThrough` | Offline 3 (Xv6 Lottery Scheduling)/file.c:117-156 | before each chunk of such a filewrite the inode is on disk as in memory, and the file has no holes |
| `LostWrite.ByteIsLost` | Offline 3 (Xv6 Lottery Scheduling)/fs.c:506-509 | on a valid disk of six blocks with one file that is a hole, a completed writei of one byte is not in the file that is read from disk again |
| `LostWrite.HoleIsValid` | Offline 3 (Xv6 Lottery Scheduling)/fs.c:287-311 | that disk and its file fit together, with exact ownership and the inode in memory as on disk |
| `FsOnLog.LogWrite` | Offline 3 (Xv6 Lottery Scheduling)/log.c:205-233 | log_write of the file system is done by bread, a change, log_write and brelse on the cache and the log: both then have the same logical disk and the same blocks, and both panic under the same condition |
| `FsOnLog.OneTransaction` | Offline 3 (Xv6 Lottery Scheduling)/log.c:205-233 | what the log is about to commit is exactly the transaction of the file system |
| `FsOnLog.Commit` | Offline 3 (Xv6 Lottery Scheduling)/log.c:192-202 | commit after any operations of the file system: its block writes are such that a crash at any of them, with any interrupted recoveries after it, leaves the file system before or after the transaction, and at the end its disk is on disk |
| `FsOnLog.BeginOp` | Offline 3 (Xv6 Lottery Scheduling)/log.c:125-141 | the next operation starts its transaction from what that commit has left on disk, so that the commits of the chunks of a filewrite follow each other |
| `PagingModel.EvictOk` | Offline 4 (Xv6 Memory Management)/vm.c:797-831 | evicting the page loaded first keeps every page in exactly one place, tables, entries, RAM and swap file in agreement, the first-carrier ordering of the disc table, and the contents of all pages |
| `PagingModel.PageInOk` | Offline 4 (Xv6 Memory Management)/vm.c:948-964 | bringing a page back keeps the same, and the contents of all pages |
| `PagingModel.FirstMatch` | Offline 4 (Xv6 Memory Management)/vm.c:950-961 | the search of the disc table by address alone finds the live slot, although it ignores isUsed |
| `PagingModel.SlotWritable` | Offline 4 (Xv6 Memory Management)/vm.c:741-751 | the first unused slot is never beyond the end of the swap file, so the write cannot fail |
| `PagingModel.FullExactly` | Offline 4 (Xv6 Memory Management)/vm.c:538-567 | both tables are full exactly when the process has MAX_TOTAL_PAGES pages or more |
| `PagingModel.TrackOk` | Offline 4 (Xv6 Memory Management)/vm.c:575-602 | a newly mapped page takes a slot of the RAM table and goes to the end of the load order |
| `PagingModel.MapNextOk` | Offline 4 (Xv6 Memory Management)/vm.c:308-317 | mapping the next page leaves every other page alone |
| `PagingModel.PokeOk` | Offline 4 (Xv6 Memory Management)/trap.c:90-108 | a store to a resident page changes that byte of that page and nothing else |
| `Paging.Process.constructor` | Offline 4 (Xv6 Memory Management)/proc.c:109-123 | allocproc leaves a process with no pages and every slot unused, whatever the slots hold |
| `Paging.Process.FindUnused` | Offline 4 (Xv6 Memory Management)/vm.c:538-567 | the slot loops return the first unused slot, and fail exactly when all are used |
| `Paging.Process.ReplacementFifo` | Offline 4 (Xv6 Memory Management)/vm.c:661-679 | the FIFO victim is the resident page that was loaded first |
| `Paging.Process.Kalloc` | Offline 4 (Xv6 Memory Management)/vm.c:904-906 | the frame handed out is zeroed, maps no page, and no page's contents change |
| `Paging.Process.WriteToSwapFile` | Offline 4 (Xv6 Memory Management)/fs.c:795-801 | a write of a whole page succeeds exactly when it starts within or at the end of the swap file |
| `Paging.Process.ReadFromSwapFile` | Offline 4 (Xv6 Memory Management)/fs.c:805-811 | a read returns the page of that slot, nothing at the end of the file, and -1 beyond it |
| `Paging.Process.ClearPagePhyMem` | Offline 4 (Xv6 Memory Management)/vm.c:762-788 | the frame is junk and free again, the slot unused, and the entry of that page alone says paged out |
| `Paging.Process.CheckPT` | Offline 4 (Xv6 Memory Management)/vm.c:884-891 | the test of the trap is true exactly for mapped pages that are paged out |
| `Paging.Process.FindCarrier` | Offline 4 (Xv6 Memory Management)/vm.c:950-961 | the first slot with the address, or none |
| `Paging.Process.ReallocatePageInDisk` | Offline 4 (Xv6 Memory Management)/vm.c:797-831 | it succeeds exactly when some page is in the RAM table and some disc slot is unused, moves out the page loaded first, and changes no page's contents |
| `Paging.Process.RetrievePage` | Offline 4 (Xv6 Memory Management)/vm.c:901-1015 | a fault on a paged-out page brings it back with all contents unchanged; it fails exactly when no slot of either table is unused, and then its new frame is lost |
| `Paging.Process.UpdatePhysicalPageMetaData` | Offline 4 (Xv6 Memory Management)/vm.c:575-602 | the page takes the first unused slot of the RAM table as the one loaded last; with no slot nothing changes |
| `Paging.Process.Allocuvm` | Offline 4 (Xv6 Memory Management)/vm.c:271-341 | growing adds zeroed pages behind unchanged ones, refuses exactly at KERNBASE or with MAX_TOTAL_PAGES pages, and loses no frame |
| `Paging.Process.Growproc` | Offline 4 (Xv6 Memory Management)/proc.c:189-212 | sbrk keeps every byte and shows zeros behind them up to the end of the last page, or refuses exactly at KERNBASE and changes nothing |
| `Paging.Process.Touch` | Offline 4 (Xv6 Memory Management)/trap.c:90-108 | an access is let through exactly when the page is mapped and, if it is paged out, the process has fewer than MAX_TOTAL_PAGES pages; the memory seen does not change |
| `Paging.Process.Load` | Offline 4 (Xv6 Memory Management)/trap.c:90-108 | a load that is not killed returns the byte at that address of the memory seen, which does not change; it is killed exactly beyond the last page, or on a paged-out page once all slots are used |
| `Paging.Process.Store` | Offline 4 (Xv6 Memory Management)/trap.c:90-108 | a store that is not killed leaves the memory seen with that byte at that address and all others as before; a killed one changes nothing |
| `Paging.Process.Run` | Offline 4 (Xv6 Memory Management)/vm.c:901-1015 | paging is invisible: in any run of sbrk, loads and stores on a process that stays below MAX_TOTAL_PAGES pages each load answers the byte last stored at its address, or what was there before, or 0, the run ends exactly with the first access behind the last page, and the memory left holds what was last stored |
| `FlatMemory.RunIsRight` | Offline 4 (Xv6 Memory Management)/trap.c:90-108 | flat memory, which the paged process refines, answers every load of a run with the byte last stored at that address, or the one from before, or 0 |
| `FlatMemory.LoadAfterStore` | Offline 4 (Xv6 Memory Management)/trap.c:90-108 | a load after a store answers the byte stored if the addresses are equal, and else what it would have answered |
| `FlatMemory.SbrkShowsZeros` | Offline 4 (Xv6 Memory Management)/proc.c:189-212 | growing keeps every byte and shows zeros behind them, up to the end of the last page |
| `Paging.KilledAtThirty` | Offline 4 (Xv6 Memory Management)/vm.c:901-1015 | an input where a program is killed though flat memory would answer 0: any process that grows to thirty pages and loads from the page in the first slot of the disc table; and a frame is lost |
| `FreeList.FreedOrdered` | Offline 3 (Xv6 Lottery Scheduling)/umalloc.c:33-42 | freeing keeps the list in address order and fully coalesced, and adds exactly the block's units |
| `FreeList.FreedLinked` | Offline 3 (Xv6 Lottery Scheduling)/umalloc.c:33-42 | the header writes of free turn one circular list into the circular list of the merged blocks |
| `FreeList.FreedLayout` | Offline 3 (Xv6 Lottery Scheduling)/umalloc.c:24-44 | after free the free blocks and the remaining allocations are disjoint and together still all units from sbrk |
| `FreeList.CarvedLayout` | Offline 3 (Xv6 Lottery Scheduling)/umalloc.c:75-84 | after a block is carved, free blocks and allocations are disjoint and together still all units from sbrk |
| `FreeList.CarvedLinked` | Offline 3 (Xv6 Lottery Scheduling)/umalloc.c:75-84 | the header writes of malloc leave one circular list, and the new block carries its size |
| `Umalloc.EnoughExactly` | Offline 3 (Xv6 Lottery Scheduling)/umalloc.c:69 | malloc's block has room for nbytes exactly when nbytes + 7 does not reach 2^32 |
| `Umalloc.WrappedRequest` | Offline 3 (Xv6 Lottery Scheduling)/umalloc.c:69 | a request of 2^32 - 1 bytes gets a block of one header and no room |
| `Umalloc.StopsThere` | Offline 3 (Xv6 Lottery Scheduling)/umalloc.c:30-32 | the test of free's loop holds at the one block behind which the freed block belongs, and nowhere else |
| `Umalloc.Heap.FindPlace` | Offline 3 (Xv6 Lottery Scheduling)/umalloc.c:30-32 | the loop of free terminates at that block, from wherever freep points |
| `Umalloc.Heap.LinkIn` | Offline 3 (Xv6 Lottery Scheduling)/umalloc.c:33-42 | the assignments of free write exactly the headers of the two blocks |
| `Umalloc.Heap.Free` | Offline 3 (Xv6 Lottery Scheduling)/umalloc.c:24-44 | free returns exactly that allocation to the list, joined with the neighbours it touches; the list stays circular, ordered, coalesced and clear of the other allocations |
| `Umalloc.Heap.Morecore` | Offline 3 (Xv6 Lottery Scheduling)/umalloc.c:46-61 | morecore adds at least 4096 fresh units to the list, enough for the request, or changes nothing |
| `Umalloc.Heap.Take` | Offline 3 (Xv6 Lottery Scheduling)/umalloc.c:75-84 | the block taken comes from the end of the one found, and is an allocation of exactly that size |
| `Umalloc.Heap.Malloc` | Offline 3 (Xv6 Lottery Scheduling)/umalloc.c:63-90 | malloc terminates, asks sbrk at most once and only if no block is large enough, takes the first fitting block behind freep, and fails exactly if none fits and sbrk refuses; free and allocated units stay all that sbrk gave |
| `Rand.Generator.Sgenrand` | Offline 3 (Xv6 Lottery Scheduling)/rand.c:51-61 | seeding fills the state with the first N terms of the sequence, which SeedTerms gives |
| `Rand.HalfStep` | Offline 3 (Xv6 Lottery Scheduling)/rand.c:76-85 | rewriting one word in place with its recurrence moves the window on by one, also where the later loop reads words already rewritten |
| `Rand.Generator.Regenerate` | Offline 3 (Xv6 Lottery Scheduling)/rand.c:76-85 | the two loops and the last word turn N terms of the infinite sequence into the next N |
| `Rand.Generator.Genrand` | Offline 3 (Xv6 Lottery Scheduling)/rand.c:63-99 | call number n returns the lower 31 bits of the tempered term N + n of the sequence, for every n, from the default seed if none was given |
| `Rand.SeedTerms` | Offline 3 (Xv6 Lottery Scheduling)/rand.c:52-62 | term k below 624 is the seed times 69069 to the power of k, modulo 2^32 |
| `Rand.LaterTerms` | Offline 3 (Xv6 Lottery Scheduling)/rand.c:75-86 | each later term, with the one 227 places before it, gives back by its own shifts the top bit of the word 624 places before it and the other bits of the next |
| `Rand.TemperIsUndone` | Offline 3 (Xv6 Lottery Scheduling)/rand.c:89-93 | the tempering is undone by an inverse with its own shifts and masks, for every word |
| `Rand.FirstValue` | Offline 3 (Xv6 Lottery Scheduling)/rand.c:63-99 | the first value from the default seed is 1362922229 |
| `Rand.MoreThanHalf` | Offline 3 (Xv6 Lottery Scheduling)/rand.c:103-116 | more than half of all raw values are accepted, for every max |
| `Rand.BinOf` | Offline 3 (Xv6 Lottery Scheduling)/rand.c:103-120 | the accepted raw values that give r are one run of bin_size values, for each r up to max |
| `Rand.Generator.RandomAtMost` | Offline 3 (Xv6 Lottery Scheduling)/rand.c:103-120 | the first raw value below the limit decides, and the result is at most max |
| `Lottery.OneWinner` | Offline 3 (Xv6 Lottery Scheduling)/proc.c:460-491 | at most one process wins a ticket number, and it is RUNNABLE |
| `Lottery.ExactShare` | Offline 3 (Xv6 Lottery Scheduling)/proc.c:427-495 | of the 2^31 raw values exactly ticket * (2^31 / (total + 1)) choose a RUNNABLE process, and none a process that is not |
| `Lottery.NobodysShare` | Offline 3 (Xv6 Lottery Scheduling)/proc.c:442-495 | exactly 2^31 / (total + 1) accepted raw values choose nobody |
| `Lottery.RunnableTickets` | Offline 3 (Xv6 Lottery Scheduling)/proc.c:427-440 | the sum of the tickets of the RUNNABLE processes |
| `Lottery.Round` | Offline 3 (Xv6 Lottery Scheduling)/proc.c:442-495 | a round of scheduler chooses a process exactly if the raw value drawn is one of those counted for it, sets it RUNNING and changes no other |
| `VmModel.AllKernelTables` | Offline 3 (Xv6 Lottery Scheduling)/vm.c:105-114 | the kernel's four ranges take exactly the page tables 512 to 567 and 1016 to 1023, wherever its data starts |
| `VmModel.WithTableOk` | Offline 3 (Xv6 Lottery Scheduling)/vm.c:44-53 | a new page table changes no mapping and leaves every frame with exactly one use |
| `VmModel.AtWithPte` | Offline 3 (Xv6 Lottery Scheduling)/vm.c:61-79 | writing one page table entry is a map update of that one page in that one directory |
| `VmModel.TwoLevels` | Offline 3 (Xv6 Lottery Scheduling)/vm.c:35-55 | a page is mapped by entry v mod 1024 of the page table in the frame that entry v / 1024 of the directory names |
| `VmModel.WithoutPageOk` | Offline 3 (Xv6 Lottery Scheduling)/vm.c:268-276 | freeing a user page unmaps it alone and gives back its frame alone |
| `VmModel.ReleasedGrown` | Offline 3 (Xv6 Lottery Scheduling)/vm.c:282-298 | freeing an address space under construction gives back exactly the frames that were free before it was begun |
| `Vm.Machine.constructor` | Offline 3 (Xv6 Lottery Scheduling)/kalloc.c:46-53 | freerange puts exactly the frames of the range on the free list |
| `Vm.Machine.Kalloc` | Offline 3 (Xv6 Lottery Scheduling)/kalloc.c:82-95 | kalloc hands out one free frame, and fails exactly if there is none |
| `Vm.Machine.Kfree` | Offline 3 (Xv6 Lottery Scheduling)/kalloc.c:59-78 | kfree puts the frame back and changes no mapping |
| `Vm.Machine.Walk` | Offline 3 (Xv6 Lottery Scheduling)/vm.c:35-55 | walkpgdir finds the page table, or makes one without changing any mapping; it fails exactly if it may not or kalloc cannot, and then changes nothing |
| `Vm.Machine.MapOne` | Offline 3 (Xv6 Lottery Scheduling)/vm.c:66-78 | one page is mapped and nothing else; it fails exactly when its page table is missing and no frame is free, and then nothing has changed at all |
| `Vm.Machine.MapPages` | Offline 3 (Xv6 Lottery Scheduling)/vm.c:60-80 | mappages maps a prefix of the range and no other page of any directory, with one frame for each page table it adds; it stops early only at a missing page table with no frame free |
| `Vm.Machine.Deallocuvm` | Offline 3 (Xv6 Lottery Scheduling)/vm.c:255-280 | exactly the pages between the two sizes are unmapped and their frames freed, also where whole page tables are absent and skipped |
| `Vm.Machine.FreeTables` | Offline 3 (Xv6 Lottery Scheduling)/vm.c:291-296 | the loop of freevm frees every page table and no other frame |
| `Vm.Machine.Freevm` | Offline 3 (Xv6 Lottery Scheduling)/vm.c:282-298 | freevm returns every user frame, page table and the directory, and touches no other frame or mapping |
| `Vm.Machine.Setupkvm` | Offline 3 (Xv6 Lottery Scheduling)/vm.c:117-136 | the directory maps pages 0x80000 to 0x8dfff to frames 0 to 0xdfff, writable below 0x80100 and from the kernel's data on, pages 0xfe000 to 0xfffff to themselves, and nothing else, on exactly 65 frames; it fails exactly when fewer are free, and then every frame is as free or used as before |
| `Vm.Machine.Copyuvm` | Offline 3 (Xv6 Lottery Scheduling)/vm.c:313-345 | the child's pages have the parent's bytes and flags on frames of their own, the parent's mappings and bytes are untouched; it fails exactly when fewer frames are free than 65, the pages and their page tables, and then every frame is as free or used as before |
| `UserMemory.Allocuvm` | Offline 3 (Xv6 Lottery Scheduling)/vm.c:221-248 | the process gets zeroed, writable pages on fresh frames for exactly the new range and no other mapping or byte changes; it fails exactly when the free frames do not cover the pages and the missing page tables; then no mapping has changed, the directory has gained exactly the page tables that the pages reached were missing, the free frames are fewer by just those, and every frame is as before if and only if none was missing |
| `UserMemory.ReachedIsUnique` | Offline 3 (Xv6 Lottery Scheduling)/vm.c:229-248 | the number of pages a failing allocuvm reaches follows from the number of free frames before the call |
| `UserMemory.TwoFramesLoseOne` | Offline 3 (Xv6 Lottery Scheduling)/vm.c:231-246 | with two free frames and no page table for the new pages, a failing allocuvm loses one frame |
| `UserMemory.LosingRequest` | Offline 3 (Xv6 Lottery Scheduling)/vm.c:231-246 | such an input: right after setupkvm on a machine of 67 frames, growing to two pages fails and leaves one free frame of two |
| `VmModel.FramesLost` | Offline 3 (Xv6 Lottery Scheduling)/vm.c:35-55 | if only page tables have been added to a directory, the free frames are fewer by just those, and every frame is as before if and only if there are none |
| `UserMemory.ExtendedBack` | Offline 3 (Xv6 Lottery Scheduling)/vm.c:237-245 | deallocuvm on the failure path takes back every page of the attempt, and no page the process had |
| `UserMemory.Uva2ka` | Offline 3 (Xv6 Lottery Scheduling)/vm.c:349-360 | the frame of a user page, or nothing if the page is absent or not the user's |
| `UserMemory.Copyout` | Offline 3 (Xv6 Lottery Scheduling)/vm.c:365-386 | the source appears at the user address across pages, up to the first page that is not the user's, which alone stops it; no other byte of this or any other process changes |
| `UserMemory.WildCopy` | Offline 3 (Xv6 Lottery Scheduling)/vm.c:349-355 | an input where copyout follows a null pointer: right after setupkvm, one byte to address 0 |
| `UserMemory.MoveInto` | Offline 3 (Xv6 Lottery Scheduling)/vm.c:380 | writing within the frame of one page changes exactly those bytes, of that process alone |
| `Monitor.StepKeepsInv` | Offline 3 (Xv6 Lottery Scheduling)/proc.c:554-611 | every step of sleep and wakeup by any process keeps: whoever waits on a condition that has become true is owed a wakeup by a process inside the lock |
| `Monitor.NoLostWakeup` | Offline 3 (Xv6 Lottery Scheduling)/proc.c:554-611 | outside the window between a change and its wakeup, nobody sleeps on a condition that is true, for any number of processes |
| `SleepLock.CodeObeys` | Offline 3 (Xv6 Lottery Scheduling)/sleeplock.c:22-42 | acquiresleep and releasesleep sleep only on a locked lock and never leave without the wakeup they owe |
| `SleepLock.MutualExclusion` | Offline 3 (Xv6 Lottery Scheduling)/sleeplock.c:22-42 | in every reachable state at most one process holds the lock, and it is the one recorded |
| `SleepLock.NobodySleepsOnAFreeLock` | Offline 3 (Xv6 Lottery Scheduling)/sleeplock.c:22-42 | in every reachable state where a process sleeps on a free lock, another has freed it and is about to wake it |
| `SleepLock.NoDeadlock` | Offline 3 (Xv6 Lottery Scheduling)/sleeplock.c:22-42 | in every reachable state in which a process has asked for the lock or holds it, one that has can make its next step, so that they never all sleep |
| `PipeModel.TestsExact` | Offline 3 (Xv6 Lottery Scheduling)/pipe.c:85 | the code's tests for full and empty are exact, and the counters at most PIPESIZE apart, also after they wrap around |
| `PipeModel.PutValid` | Offline 3 (Xv6 Lottery Scheduling)/pipe.c:93 | storing a byte in a pipe that is not full appends it to the stream and overwrites no byte still to be read |
| `PipeModel.GetValid` | Offline 3 (Xv6 Lottery Scheduling)/pipe.c:113-117 | the byte taken is the next one of the stream |
| `PipeModel.Buffer.Fill` | Offline 3 (Xv6 Lottery Scheduling)/pipe.c:84-94 | the writer's loop appends a run of the source to the stream, and stops only at its end or with the pipe full |
| `PipeModel.Buffer.Drain` | Offline 3 (Xv6 Lottery Scheduling)/pipe.c:113-117 | the reader's loop takes the next bytes of the stream, as many as asked or all there are |
| `PipeWakeup.CodeObeys` | Offline 3 (Xv6 Lottery Scheduling)/pipe.c:59-121 | pipewrite, piperead and pipeclose sleep only on a full or empty pipe and never sleep or leave while they owe a wakeup |
| `PipeWakeup.FirstInFirstOut` | Offline 3 (Xv6 Lottery Scheduling)/pipe.c:78-121 | in every run of any number of readers and writers the bytes delivered are a prefix of the bytes accepted |
| `PipeWakeup.ReadsAreContiguous` | Offline 3 (Xv6 Lottery Scheduling)/pipe.c:113-117 | one piperead returns a contiguous piece of the stream |
| `PipeWakeup.NoReaderSleepsOnData` | Offline 3 (Xv6 Lottery Scheduling)/pipe.c:100-121 | outside the window no reader sleeps on a pipe that has bytes or can no longer be written |
| `PipeWakeup.NoWriterSleepsOnRoom` | Offline 3 (Xv6 Lottery Scheduling)/pipe.c:78-98 | outside the window no writer sleeps on a pipe that has room or can no longer be read |
| `PipeWakeup.NoWindowWhenUnlocked` | Offline 3 (Xv6 Lottery Scheduling)/pipe.c:59-121 | there is no window while nobody holds the pipe's lock |
| `PipeWakeup.NeverStuck` | Offline 3 (Xv6 Lottery Scheduling)/pipe.c:59-121 | in every reachable state in which a process is in the code of the pipe and not asleep, such a process can make its next step |
| `PipeWakeup.StepCloses` | Offline 3 (Xv6 Lottery Scheduling)/pipe.c:59-75 | the step of pipeclose closes its end, and no step opens one |
| `PipeWakeup.StaysClosed` | Offline 3 (Xv6 Lottery Scheduling)/pipe.c:59-75 | in every run an end that has been closed stays closed |
| `ProcTable.Wakeup1` | Offline 3 (Xv6 Lottery Scheduling)/proc.c:595-603 | exactly the processes asleep on the channel become RUNNABLE |
| `ProcTable.Exit` | Offline 3 (Xv6 Lottery Scheduling)/proc.c:261-283 | exit makes the process a zombie, gives its children to init, wakes its parent, and init if it inherits a zombie, and changes nothing else |
| `ProcTable.ExitedGood` | Offline 3 (Xv6 Lottery Scheduling)/proc.c:261-283 | after exit no parent sleeps in wait while it has a zombie child, and every child that lives or is a zombie has a living parent |
| `ProcTable.Wait` | Offline 3 (Xv6 Lottery Scheduling)/proc.c:287-331 | wait frees the first zombie child: its slot is left UNUSED with pid 0, no parent and no kill mark, and nothing else changes; it returns -1 exactly without children or when killed, and goes to sleep on itself only with no zombie child |
| `ProcTable.Kill` | Offline 3 (Xv6 Lottery Scheduling)/proc.c:616-635 | kill marks the first process with that pid as killed, makes it RUNNABLE if it slept, and changes nothing else; it fails exactly if there is none |
| `ProcTable.ForkDone` | Offline 3 (Xv6 Lottery Scheduling)/proc.c:216-234 | the new child may run, with the living parent that fork gave it before taking the lock, and no parent's sleep becomes wrong |
| `ProcTable.SetParent` | Offline 3 (Xv6 Lottery Scheduling)/proc.c:212 | giving the child its parent without the lock breaks no parent's sleep, and the child stays one that wait does not reap |
| `ProcTable.Allocproc` | Offline 3 (Xv6 Lottery Scheduling)/proc.c:78-100 | allocproc takes the first free slot, or fails exactly if there is none |
| `ProcTable.StepKeepsGood` | Offline 3 (Xv6 Lottery Scheduling)/proc.c:190-283 | every step of fork, exit, wait, sleep, wakeup, kill, the scheduler and yield by any process keeps both properties of the table |
| `ProcTable.NoZombieIsMissed` | Offline 3 (Xv6 Lottery Scheduling)/proc.c:261-331 | in every reachable state no parent sleeps in wait beside a zombie child, and every child that lives or is a zombie has a living parent |
| `ProcTable.StepKeepsClean` | Offline 3 (Xv6 Lottery Scheduling)/proc.c:78-331 | a step leaves no free slot marked killed if and only if it is neither a kill of a free slot nor allocproc giving up the slot of a killed process |
| `ProcTable.NobodyBornKilled` | Offline 3 (Xv6 Lottery Scheduling)/proc.c:78-112 | in every run in which neither happens, each process that allocproc makes is not killed |
| `ProcTable.KillZero` | Offline 3 (Xv6 Lottery Scheduling)/proc.c:616-635 | an input where a process is born killed: kill(0) and then allocproc, while the first slot without a pid is the first free one |
| `Grep.Match` | Offline 3 (Xv6 Lottery Scheduling)/grep.c:72-82 | match is true exactly when some part of the text, a prefix if the pattern starts with ^, is in the language of the pattern |
| `Grep.MatchHere` | Offline 3 (Xv6 Lottery Scheduling)/grep.c:85-96 | matchhere is true exactly when a part of the text that starts here is in the language, reaching the end if the pattern ends with $; the mutual recursion terminates |
| `Grep.MatchStar` | Offline 3 (Xv6 Lottery Scheduling)/grep.c:99-106 | matchstar is true exactly when some number of characters that fit, then a match of the rest, starts here |
| `Grep.AtStar` | Offline 3 (Xv6 Lottery Scheduling)/grep.c:99-106 | a starred item matches exactly by eating some run of fitting characters first |
| `Grep.ParseCases` | Offline 3 (Xv6 Lottery Scheduling)/grep.c:85-96 | * binds the character before it and $ is special only as the last character |
| `Grep.WordMatches` | Offline 3 (Xv6 Lottery Scheduling)/grep.c:72-96 | a word without special characters matches exactly the texts that contain it, after ^ those that start with it, before $ those that end with it, and between both only itself |
| `Grep.DotAndStar` | Offline 3 (Xv6 Lottery Scheduling)/grep.c:85-106 | . matches every non-empty text, ^.$ every single character, ^c*$ exactly the runs of c, and ^.*$ every text |
| `GrepInput.Run` | Offline 3 (Xv6 Lottery Scheduling)/grep.c:10-36 | for every way read may cut the input, grep writes exactly the matching lines of the input that it keeps, in order and whole |
| `GrepInput.Scan` | Offline 3 (Xv6 Lottery Scheduling)/grep.c:20-33 | the inner loop writes the matching complete lines of the buffer and leaves what follows the last of them, or throws a buffer without a newline away |
| `GrepInput.WholeLines` | Offline 3 (Xv6 Lottery Scheduling)/grep.c:20-33 | cutting the input after its last newline cuts no line in two: the lines of both parts are the lines of the whole |
| `GrepInput.NothingLostExactly` | Offline 3 (Xv6 Lottery Scheduling)/grep.c:28-29 | grep keeps its whole input if and only if every read returns a newline |
| `GrepInput.LostLine` | Offline 3 (Xv6 Lottery Scheduling)/grep.c:28-29 | a line that two reads deliver in halves loses its first half, for every such line |
| `ShModel.RoundTrip` | Offline 3 (Xv6 Lottery Scheduling)/sh.c:328-446 | parsing the written form of any well-formed command tree, with parentheses only where the grammar needs them, returns the same tree and consumes all input |
| `ShModel.ReadUnit` | Offline 3 (Xv6 Lottery Scheduling)/sh.c:374-446 | an exec node with its redirections, or a parenthesised command with its, is read back before anything that cannot continue it |
| `ShModel.ReadLine` | Offline 3 (Xv6 Lottery Scheduling)/sh.c:345-359 | a list with background commands is read back before anything that cannot continue it |
| `ShSpacing.AnySpacing` | Offline 3 (Xv6 Lottery Scheduling)/sh.c:265-342 | every well-formed command is parsed back however white space, newlines included, stands between its tokens and at its end, and whether > is written > or >> |
| `ShSpacing.AppendIsWrite` | Offline 3 (Xv6 Lottery Scheduling)/sh.c:391-393 | a command and >> and a word is that command with a redirection for writing |
| `ShSpacing.EchoAppends` | Offline 3 (Xv6 Lottery Scheduling)/sh.c:391-393 | the line echo hi >> f with its newline redirects echo hi to f for writing |
| `ShSpacing.SameTokensSameCommand` | Offline 3 (Xv6 Lottery Scheduling)/sh.c:265-397 | what the parser makes of any string, panics included, depends only on its tokens, with >> read like > |
| `ShGrammar.ParsesExactly` | Offline 3 (Xv6 Lottery Scheduling)/sh.c:327-446 | a string is parsed to a command if and only if its tokens spell that command in the declarative grammar of lists, pipelines, background commands, blocks and simple commands; then nothing is left over |
| `ShGrammar.TokensDecide` | Offline 3 (Xv6 Lottery Scheduling)/sh.c:265-446 | the same for every row of tokens however it is spaced, without gettoken: it is parsed to a command if and only if the tokens spell it |
| `ShGrammar.EveryString` | Offline 3 (Xv6 Lottery Scheduling)/sh.c:265-308 | every string is such a row of tokens |
| `ShGrammar.Unambiguous` | Offline 3 (Xv6 Lottery Scheduling)/sh.c:327-446 | no string spells two commands |
| `ShGrammar.SimpleReads` | Offline 3 (Xv6 Lottery Scheduling)/sh.c:415-446 | words and redirections in any order are one exec node with all the words inside all the redirections, the first one innermost; ten words or more are the panic |
| `Sh.SkipSpace` | Offline 3 (Xv6 Lottery Scheduling)/sh.c:272-273 | the cursor moves to the next character that is not white space |
| `Sh.Gettoken` | Offline 3 (Xv6 Lottery Scheduling)/sh.c:265-308 | gettoken finds the token that the grammar has next, with its text and the position after it |
| `Sh.PeekAt` | Offline 3 (Xv6 Lottery Scheduling)/sh.c:310-320 | peek looks at the next character without consuming it |
| `Sh.Parseredirs` | Offline 3 (Xv6 Lottery Scheduling)/sh.c:374-397 | the loop collects redirections as the grammar does, < for reading and > and >> for writing, or panics where it has no file name |
| `Sh.Parseexec` | Offline 3 (Xv6 Lottery Scheduling)/sh.c:415-446 | the loop reads arguments and redirections as the grammar does, and panics on the tenth argument |
| `Sh.Parseblock` | Offline 3 (Xv6 Lottery Scheduling)/sh.c:399-413 | the parenthesised rule, with its panics |
| `Sh.Parsepipe` | Offline 3 (Xv6 Lottery Scheduling)/sh.c:361-372 | the pipeline rule |
| `Sh.Parseline` | Offline 3 (Xv6 Lottery Scheduling)/sh.c:344-359 | the list rule with its loop over ampersands |
| `Sh.Parsecmd` | Offline 3 (Xv6 Lottery Scheduling)/sh.c:327-342 | parsing terminates on every string, with the tree of the grammar and the whole input consumed, or the panic of the grammar; ShGrammar says what that grammar is without the parser |

## Left out

- Device and boot code, interrupts and assembly: iderw is an atomic block read or write, swtch a context step, lcr3 nothing.
- Concurrency of holders inside the cache: the cache, log and file system classes run one operation's code at a time; the interleaving of operations is in GroupCommit, SleepLock and Monitor.
- Buffers that readers hold while a commit runs: WriteAheadLog commits with nobody holding a buffer, as sleep-locks would make it wait.
- BufferCache.Cache.Get: the wait for a buffer that another process has locked is that of SleepLock; the method starts when the lock is free, as does BufferCache.Cache.Read.
- FileSystem and WriteAheadLog are joined by simulation: FsOnLog shows that each log_write of the one is one of the other and that they commit the same transaction; bread in the file system reads the logical disk directly, and no class owns both.
- FileSystem: each operation begins with an empty log, as its predecessor has committed; what operations that share a transaction leave each other is in GroupCommit.
- FileSystem.Fs.Balloc: after a panic of log_write in the middle of an allocation, the block that is marked but in no inode is not accounted for, as the kernel has stopped.
- FileSystem.Fs.Filewrite: device files are excluded, whose write function may return any count; readi and writei take the device's answer as a parameter.
- Durability.WriteIsAtomic: asks that before the writei the inode is on disk as in memory, as it is after ilock and after every writei that meets its condition.
- Directories, path names, nlink counting, ialloc and iput: path-level invariants need assumptions about removed directories in use.
- Rand.Generator.RandomAtMost: that some later raw value is accepted is a precondition, as the loop has no other bound; which value decides does not depend on it.
- Lottery.Round: ends at the switch to the chosen process; its return and its tick count are not modelled, nor a ticket total beyond RAND_MAX.
- Umalloc.Heap.Malloc: sbrk is a parameter that grants only sizes that are positive as a 32-bit int; for larger requests sbrk gets a negative argument.
- Umalloc: memory is counted in headers, and only headers are modelled, not the bytes of an allocation.
- Paging: one process with one page directory (the pageDirectory fields are omitted), FIFO with OPTIMIZATION 0, kalloc succeeding, timer below INT_MAX; shrinking, fork, exec, the aging and LIFO policies, the pageFault counter and the accessed and dirty bits are not modelled.
- Paging.Process.Allocuvm: kalloc succeeds, so its failure path is not modelled; the one of the other kernel's allocuvm is in UserMemory.
- Paging.Process.Growproc: growing only.
- Paging.Process.Run: asks for fewer than MAX_TOTAL_PAGES pages; Paging.Process.Load and Paging.Process.Store say exactly what happens beyond.
- Paging: page-table pages come from outside the modelled frames.
- Vm: entries are records of frame and flags and addresses are page numbers; PagingModel has the bit patterns. loaduvm, inituvm and clearpteu are not modelled.
- UserMemory.Copyout: asks that no kernel page is accessible to the user, as setupkvm makes it.
- Vm.Machine.MapPages: ranges of kernel pages; user pages are mapped one at a time by Vm.Machine.MapOne, as all callers do.
- Monitor: acquire and release are atomic steps; a killed sleeper that is woken without its condition is not a step.
- PipeWakeup: without kill, under which pipewrite returns without waking the readers; freeing the pipe after both ends are closed is not modelled.
- PipeWakeup.NoReaderSleepsOnData: says nothing once the read end is closed, when no reader is left.
- ProcTable: file and directory closing in exit, kernel stacks, and the memory freed by wait are not modelled; in its runs the slot that fork fills may get any running process as its parent, of which fork's own process is one.
- Durability.FilewriteIsAtomic: asks for a file without holes, which writei keeps; for one with holes WriteIsAtomic has the exact condition, chunk by chunk.
- WriteAheadLog.Log.LogWrite: tests and listing are one step, as for one operation at a time; GroupCommit takes them apart, and says when the list then outgrows the log.
- FsOnLog.LogWrite: holds one buffer at a time; WriteAheadLog.SecondBufferFound says when the second one that bmap and itrunc hold is found.
- StuckTruncate.TruncatePanics: uses a log of two blocks, because on one of LOGSIZE blocks the input needs a disk with 29 bitmap blocks.
- LogSleep: the panic of log_write on a full log is no step; GroupCommit says when it can happen. The panics of end_op never happen (LogSleep.NoStrayOperation).
- GrepInput: read never fails and the input has no NUL characters, at which strchr would stop.
- ShModel: the tree is a value; that parseexec fills the exec node after wrapping it is modelled by AddArg, and nulterminate's writes into the buffer are not.
- Offline 2 (pthread kiosks): the pool is an easy counting invariant.
- 32-bit overflow of file offsets beyond the guards of readi and writei, of timers and of ticket sums.
