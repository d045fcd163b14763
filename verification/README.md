# Agent-OS in Dafny

A model of four parts of a teaching kernel with agents, and proofs about them. Each part is a class or a few, whose
methods follow the original's loops and updates and are proved against specifications on plain values.

**The file system** (`Bytes`, `BlockCache`, `Bitmap`, `InodeTree`, `Layout`, `EfsState`, `EfsSteps`, `Efs`, `Vfs`,
`Dirent`, `Directory`, `FileSystem`, `FileSystemLaws`, `Mkfs`, `DiskFormat`). A write-back cache of 16 blocks shows
the device as it would be without a cache. On it lie two first-fit bitmaps, inodes with direct, single- and
double-indirect pointers, and a flat directory. The block pointers of an inode are numbered in the order in which
growth fills them, so that growing appends to a list of blocks and clearing returns that list. One invariant over the
whole device says that the inodes' blocks are disjoint trees, that the data bitmap marks exactly the owned blocks,
that free blocks are zero and that bytes past a file's end are zero. `FileSystem.Run` concludes that every run of
operations keeps to a map from names to bytes, `FileSystemLaws` says in numbers what each operation does to that map
and its free blocks, and `Mkfs.RunAndRemount` that the bare device holds it. `DiskFormat` gives the bytes of the
device.

**The agent runtime** (`Tasks`, `Scheduling`, `KernelSteps`, `KernelSpec`, `Kernel`, `KernelRun`, `KernelProgress`,
`KernelWaits`, `KernelPanics`, `KernelLaws`, `KernelTraces`). Each code segment between two switches is one method on
the scheduler's state. `KernelSpec` gives the same segments as a transition system, and proves for all its runs that
processes form a tree below INITPROC, that a live task is in one place and a zombie in none, and that a blocked agent
has no pending event that it waits for. `KernelRun.Run` proves that the kernel goes through such a run, state by state
and answer by answer. Three findings. When no task runs and none is ready, nothing happens any more: the idle loop
takes no interrupts, so neither heartbeat nor timeout wakes anybody. `KernelProgress` says which steps lead there,
shows a run in which INITPROC, as an agent that waits, gets there, and proves that no run does in which INITPROC
starts no wait (as the shipped one never does). And a wait whose deadline overflows 64 bits is woken by every timer
interrupt without returning; `KernelWaits` proves that this happens exactly then, with a run that spins for ever.
Last, fork copies an agent's context area into a child that is no agent, though `os/src/task/task.rs:196-198` says
that it is not inherited and `docs/adr/ADR-003-context-area-layout.md:56` that it is cleared. A child that then asks
to become an agent maps the area again, and the assertion in `os/src/mm/page_table.rs:131` panics the kernel.
`KernelPanics` proves it for all runs, with a run that does, and that no run panics so in which nobody with the area
mapped forks and no program brings one. `KernelLaws` says what each event does to the tasks, field by field and down
to the order of the ready queue, and `KernelTraces` what whole runs promise: an agent receives its mail in order, exit
codes arrive, and nobody sleeps past a deadline or wakes before it.

**Address spaces** (`PageWalk`, `PageTables`, `UserMemory`, `MemorySets`, `UserSpaces`). Pages are 4096 bytes and page
tables are pages, read as little-endian entries, as in section 4.4 of the RISC-V Privileged Architecture, version
20211203, with the walk of section 4.3.2. The three-level table refines a partial map from page numbers to entries;
every one of its frames is one table of the walk. Mapping a page, an area or a whole copy of a space succeeds exactly
when nothing is mapped there and there are as many free frames as it takes, which is counted; the end of a process
gives exactly these back (`UserSpaces.ForkThenRelease`). User buffers are cut at page boundaries; a cloned space has
equal pages in frames of its own. A finding: `translate` answers for every page whose third-level table exists, mapped
or not, so its `unwrap` is no check that the page is mapped (`PageTables.UnmappedAnswers`).

**Agent data** (`ContextArea`, `PathNodes`, `ContextPath`, `ContextPathLaws`, `AgentSpaces`, `AgentCalls`, `FileAttr`,
`FileAttrRuns`). The context path is an append log in the agent's user memory, written through the page table; its
metadata, its bytes and the header's counts agree with one list of nodes. `AgentSpaces` makes one in an address space,
and `AgentCalls` joins the system calls that change tasks and memory at once. The file attributes keep two inverted
indexes that agree with a full scan after any run of changes. Two notes: the area header as declared takes 248 bytes
and not the 256 its comment says; a query without a filter differs between index (nothing) and scan (all files).

`Collections` holds the few things all parts share. `dafny verify dfyconfig.toml` checks the whole project.

## Model

| member | source | states |
|---|---|---|
| BlockCache.BlockCacheManager.Lock | easy-fs/src/block_cache.rs:141-171 | Fetching and locking a block gives the bytes the uncached device would hold, whatever was cached, evicted or written back before; only the handle count changes |
| BlockCache.BlockCacheManager.Find | easy-fs/src/block_cache.rs:146-148 | The search finds the one live copy of a block id, or tells that there is none |
| BlockCache.BlockCacheManager.Load | easy-fs/src/block_cache.rs:150-170 | A missing block is read from the device and put behind the others, the first idle one being dropped when 16 are cached |
| BlockCache.BlockCacheManager.Evict | easy-fs/src/block_cache.rs:152-163 | While fewer than 16 blocks are held there is an idle one to drop, the first of them, so the "Run out of BlockCache!" panic is unreachable; the others keep their order, and no write is lost |
| BlockCache.AllInUseCount | easy-fs/src/block_cache.rs:152-163 | If no cached block is idle, as many different blocks are held as are cached |
| BlockCache.BlockCacheManager.Sync | easy-fs/src/block_cache.rs:113-126 | A modified block is written back, an unmodified one already equals the device |
| BlockCache.BlockCacheManager.Modify | easy-fs/src/block_cache.rs:109-112 | A write through a held handle changes that block of the logical device and no other |
| BlockCache.BlockCacheManager.Unlock | easy-fs/src/block_cache.rs:156-158 | Dropping a handle leaves the block cached and idle; no byte changes |
| BlockCache.BlockCacheManager.SyncAll | easy-fs/src/block_cache.rs:189-194 | Afterwards the device itself holds the logical view, block for block |
| Bitmaps.DecompositionUnique | easy-fs/src/bitmap.rs:14-18 | Block, word and bit determine the bit number, and the decomposition finds them |
| Bitmaps.TrailingOnesIsFirstClear | easy-fs/src/bitmap.rs:36-42 | trailing_ones of a word that is not all ones is its lowest clear bit |
| Bitmaps.SetBit | easy-fs/src/bitmap.rs:44-45 | Setting a clear bit changes that bit alone |
| Bitmaps.ClearBit | easy-fs/src/bitmap.rs:57-65 | Clearing a set bit changes that bit alone |
| Bitmaps.Bitmap.Alloc | easy-fs/src/bitmap.rs:29-55 | Sets the least clear bit of the whole bitmap and returns it; None exactly with every bit set |
| Bitmaps.Bitmap.AllocInBlock | easy-fs/src/bitmap.rs:31-49 | The search within one block, the blocks before it being full |
| Bitmaps.FirstFitIn | easy-fs/src/bitmap.rs:36-48 | First fit inside one block: the first word that is not all ones, and its lowest clear bit |
| Bitmaps.Bitmap.Dealloc | easy-fs/src/bitmap.rs:57-65 | Clears exactly the given bit, which must be set |
| Bitmaps.FirstClearIsLow | easy-fs/src/bitmap.rs:29-55 | Pigeonhole: with fewer than `bound` bits set, the least clear bit lies below `bound` |
| InodeTree.DataPosIsLast | easy-fs/src/layout.rs:118-133 | The pointer of data block k is the last of the total_blocks of k + 1 data blocks, and no index block |
| InodeTree.TotalStep | easy-fs/src/layout.rs:118-138 | What one more data block costs: itself, and the index blocks that must exist for it |
| InodeTree.DataPosInjective | easy-fs/src/layout.rs:140-163 | Different data blocks have different pointers |
| InodeTree.LookupIsPtr | easy-fs/src/layout.rs:140-163 | get_block_id looks exactly where growth puts the pointer of a data block |
| InodeTree.LookupPath | easy-fs/src/layout.rs:140-163 | All index blocks that get_block_id reads for a data block of the file belong to the file |
| InodeTree.EntryElsewhere | easy-fs/src/layout.rs:165-236 | Writing one pointer leaves all pointers in use alone, across all three levels |
| InodeTree.GrowField | easy-fs/src/layout.rs:170-191 | Putting a new block into a field of the inode extends the tree by it |
| InodeTree.GrowEntry | easy-fs/src/layout.rs:192-236 | Putting a new block into an index block extends the tree by it |
| InodeTree.PastEndLookup | easy-fs/src/layout.rs:140-163 | Looking up the block just past the end, as an empty write there does, stays on the device if and only if that block needs no new index block |
| InodeTree.PastEndIsZero | easy-fs/src/layout.rs:140-163 | Where it stays on the device the lookup yields block 0 |
| InodeTree.WriteDataBlock | easy-fs/src/layout.rs:353-389 | Overwriting part of a data block changes those bytes of the file and none other |
| InodeTree.EmptyTree | easy-fs/src/layout.rs:94-100 | An inode is a tree without blocks if and only if all its pointers are zero |
| Layout.DiskInode.Initialize | easy-fs/src/layout.rs:94-100 | Leaves size 0, all pointers zero and the given type |
| Layout.DiskInode.GetBlockId | easy-fs/src/layout.rs:140-163 | The data block at that place in the allocation order; 0 just past the end where no index block is missing |
| Layout.DiskInode.IncreaseSize | easy-fs/src/layout.rs:165-236 | The file owns its old blocks, in their old places, followed by exactly the new ones; nothing but its index blocks is written |
| Layout.DiskInode.FillDirect | easy-fs/src/layout.rs:176-180 | The direct pointers take as many of the new blocks as they hold |
| Layout.DiskInode.FillIndirect1 | easy-fs/src/layout.rs:181-203 | The single-indirect block and its entries |
| Layout.DiskInode.FillIndirect2 | easy-fs/src/layout.rs:204-236 | The double-indirect block: when it is done every new block has been used, none twice |
| Layout.DiskInode.ClearSize | easy-fs/src/layout.rs:240-310 | Returns the blocks that growth put in, all of them, once and in order, and leaves an empty inode |
| Layout.DiskInode.ListIndirect2 | easy-fs/src/layout.rs:271-309 | The double-indirect part of that list, full sub-blocks and the last partial one |
| Layout.DiskInode.ReadAt | easy-fs/src/layout.rs:312-350 | Copies the slice of the file that offset and buffer length ask for, short at the end of the file, none past it |
| Layout.DiskInode.WriteAt | easy-fs/src/layout.rs:353-389 | Overwrites that slice, up to the size, and no other byte of the file; the block list stays |
| EfsState.DecodeEncode | easy-fs/src/layout.rs:81-90 | An inode written into its quarter of a block reads back, and the three neighbours are untouched |
| EfsState.RecAtWithRec | easy-fs/src/efs.rs:115-123 | Different inode numbers have different places, so storing one inode changes no other |
| EfsState.CommitInode | easy-fs/src/vfs.rs:77-92 | An inode may be replaced by one that owns its blocks plus or minus those in transit: the invariant of the whole device holds again and every other file keeps its bytes |
| EfsState.CommitOwned | easy-fs/src/vfs.rs:77-92 | A block is owned afterwards exactly if the new inode owns it or another inode did |
| EfsSteps.NoInodeTouched | easy-fs/src/efs.rs:129-136 | Changes that miss the inode area and all owned blocks leave every file as it was |
| EfsSteps.MarkUsed | easy-fs/src/efs.rs:134-136 | Marking a free block used keeps the invariant; the block is zero and belongs to nobody |
| EfsSteps.ZeroAndFree | easy-fs/src/efs.rs:138-150 | Zeroing a block and clearing its bit keeps the invariant; one block more is free |
| EfsSteps.GrownBytes | easy-fs/src/vfs.rs:77-92 | After growth the old bytes are where they were and all new ones are zero |
| EfsSteps.GrowStep | easy-fs/src/vfs.rs:77-92 | Growing extends the contents by zeros |
| EfsSteps.WriteStep | easy-fs/src/vfs.rs:164-172 | Writing replaces exactly the written bytes of the contents |
| EfsSteps.ClearStep | easy-fs/src/vfs.rs:174-185 | Clearing gives up exactly the blocks the inode owned |
| EfsSteps.StoreStep | easy-fs/src/vfs.rs:77-92 | Storing a changed inode keeps the invariant, all other files, the free count and the inode bitmap |
| Efs.EasyFileSystem.AllocData | easy-fs/src/efs.rs:134-136 | Exactly while a block is free, allocation returns a block of the data area, the first free one, which is zero and owned by nobody; else it takes the first spare bit, whose block lies past the data area, or panics when there is none |
| Efs.FirstFreeInArea | easy-fs/src/efs.rs:134-136 | First fit stays inside the data area if and only if a block is free; else it finds the first spare bit or none |
| Efs.EasyFileSystem.DeallocData | easy-fs/src/efs.rs:138-150 | Frees a block, zeroed; no file changes |
| Efs.EasyFileSystem.AllocInode | easy-fs/src/efs.rs:129-132 | Takes the first free inode, which has no blocks; no file changes |
| Vfs.Inode.AllocBlocks | easy-fs/src/vfs.rs:86-90 | Takes the blocks a growth needs: different, all zero, owned by nobody |
| Vfs.Inode.IncreaseSize | easy-fs/src/vfs.rs:77-92 | The contents are extended by zeros, the free count drops by exactly the blocks needed, other files stay |
| Vfs.Inode.GrowBy | easy-fs/src/vfs.rs:86-91 | Blocks in transit become the file's |
| Vfs.Inode.WriteLocked | easy-fs/src/vfs.rs:166-169 | Grow, then overwrite, under the inode's lock |
| Vfs.Inode.ReadAt | easy-fs/src/vfs.rs:159-162 | Returns exactly the slice of the file's bytes; changes nothing |
| Vfs.Inode.WriteAt | easy-fs/src/vfs.rs:164-172 | The contents become the old ones, extended with zeros up to the write, overwritten there; no other file changes; the device is up to date |
| Vfs.Inode.Clear | easy-fs/src/vfs.rs:174-185 | The file is empty, its blocks and index blocks are free again, no other file changes |
| Vfs.Inode.FreeBlocks | easy-fs/src/vfs.rs:179-182 | Every block given up is freed once |
| Dirents.EntryBytesRoundTrip | easy-fs/src/layout.rs:418-424 | An entry survives the trip to its 32 bytes and back |
| Dirents.NameRoundTrip | easy-fs/src/layout.rs:409-430 | Of the names that fit the field exactly those of at most 27 bytes without a NUL read back |
| Dirents.EntriesAppend | easy-fs/src/vfs.rs:124-131 | Appending an entry's bytes appends that entry |
| Dirents.NamesListed | easy-fs/src/vfs.rs:45-60 | The table of names says what the entries say, one name an entry |
| Dirents.NamesInjective | easy-fs/src/vfs.rs:45-60 | Files of different names have different inodes |
| Directory.FileChanged | easy-fs/src/vfs.rs:164-185 | A change to one file changes what its name maps to and nothing else in the directory |
| Directory.FileAdded | easy-fs/src/vfs.rs:94-140 | A new entry for a new inode adds one empty file and keeps all others |
| Directory.FreeInodeExists | easy-fs/src/vfs.rs:108 | As long as root and files are fewer than the inodes there is a free one |
| Directory.FindInodeId | easy-fs/src/vfs.rs:45-60 | Finds the inode of a name, exactly when the directory has the name |
| Directory.Find | easy-fs/src/vfs.rs:62-75 | A handle on the inode that the directory maps the name to; None exactly when there is no such name |
| Directory.Ls | easy-fs/src/vfs.rs:142-157 | The names, in the order of creation |
| Directory.Create | easy-fs/src/vfs.rs:94-140 | None, and nothing changed, when the name exists; else the directory maps the name to a new inode and the file is empty |
| Directory.AppendEntry | easy-fs/src/vfs.rs:119-132 | The directory's bytes are extended by the entry |
| Directory.InitInode | easy-fs/src/vfs.rs:110-117 | The new inode's record is that of an empty file; other files stay |
| FileSystem.Execute | easy-fs/src/vfs.rs:45-185 | Every operation does to the map of names to bytes what the specification says, and answers what it says (in numbers: FileSystemLaws.EveryOpLawful); a device that held the logical view still does |
| FileSystem.Run | easy-fs/src/vfs.rs:45-185 | So does every run (in numbers: FileSystemLaws.RunLawfully): after any sequence of operations the device represents the state that the specification reaches, and a synced device is still synced |
| FileSystem.WriteThenRead | easy-fs/src/vfs.rs:159-172 | What was written is read back, a gap reads as zeros, other files read as before |
| FileSystem.BlocksConserved | easy-fs/src/efs.rs:134-150 | No operation gains or loses a block: free blocks, directory blocks and file blocks add up to the same |
| FileSystem.RunConserves | easy-fs/src/efs.rs:134-150 | Nor does any run |
| FileSystemLaws.EveryOpLawful | easy-fs/src/vfs.rs:45-185 | In numbers: create adds an empty file behind the others; a write has its bytes there, the old ones around them and zeros in a gap; a read gives the bytes from its offset on, as many as are asked for and there; clear leaves an empty file; free blocks change by what the sizes take; all else stays |
| FileSystemLaws.RunLawfully | easy-fs/src/vfs.rs:45-185 | Run on a device, every operation of every sequence does just that, state by state and answer by answer |
| FileSystemLaws.ClearedStaysEmpty | easy-fs/src/vfs.rs:174-185 | After a clear and any operations that do not write the file, reading it gives nothing |
| FileSystemLaws.EnabledMeans | easy-fs/src/vfs.rs:77-140 | What callers must see to, in numbers; reading, listing and clearing ask for nothing |
| FileSystemLaws.BlocksMean | easy-fs/src/layout.rs:118-133 | The blocks of a file: one for each 512 bytes begun, and its index blocks |
| DiskFormat.LowByteFirst | easy-fs/src/layout.rs:23-32 | Integers on the device have their low byte first |
| DiskFormat.BitmapFormat | easy-fs/src/bitmap.rs:8-27 | Bit k of a bitmap is bit k % 8 of byte k / 8, 512 bytes to a block |
| DiskFormat.BitOfByte | easy-fs/src/bitmap.rs:8-27 | A bit of a 64-bit word is a bit of one of its eight bytes |
| DiskFormat.SuperBlockFormat | easy-fs/src/layout.rs:23-32 | The magic number, the total and the four area sizes, four bytes each |
| DiskFormat.InodePlace | easy-fs/src/efs.rs:115-123 | Inodes lie one after the other, 128 bytes each, from the inode area's start on |
| DiskFormat.InodeFormat | easy-fs/src/layout.rs:81-90 | Size, 28 direct pointers, the two indirect ones, and the type byte, at their offsets |
| DiskFormat.EntryFormat | easy-fs/src/layout.rs:392-414 | 28 bytes of name, padded with NULs, and the inode number |
| Mkfs.DivideFits | easy-fs/src/efs.rs:29-48 | The areas fill the device exactly, every data block has a bit, and at most 4096 bits are spare |
| Mkfs.BlankInv | easy-fs/src/efs.rs:49-71 | A cleared device with a super block satisfies the invariant and has all data blocks free |
| Mkfs.Format | easy-fs/src/efs.rs:24-83 | A new file system has no files, all data blocks free, and is written back |
| Mkfs.MakeRoot | easy-fs/src/efs.rs:73-80 | The first inode allocated is number 0, the root directory |
| Mkfs.Open | easy-fs/src/efs.rs:85-105 | Opens exactly the devices with the magic number, and finds the geometry they were made with |
| Mkfs.Mount | easy-fs/src/efs.rs:85-113 | A device written back by an earlier run is opened with the files that run left |
| Mkfs.RunAndRemount | easy-fs/src/efs.rs:85-113 | After any run, opening the bare device anew gives the files that the specification reaches |
| Tasks.TreeForked | os/src/task/task.rs:157-212 | fork keeps the process graph a tree rooted at INITPROC |
| Tasks.TreeExited | os/src/task/mod.rs:92-104 | Handing an exiting task's children to INITPROC keeps it a tree |
| Tasks.TreeReaped | os/src/syscall/process.rs:71-76 | Reaping a zombie keeps it a tree |
| Tasks.AllBelowInitproc | os/src/task/mod.rs:123-148 | Every process is INITPROC or below it |
| Tasks.ClosedIsAll | os/src/task/mod.rs:131-148 | A set with the root that is closed under children holds all processes |
| Scheduling.OnePlace | os/src/task/processor.rs:44-63 | A live task is held by exactly one of processor, ready queue and blocked list, a zombie by none |
| Scheduling.ZombieHeldOnce | os/src/syscall/process.rs:78-79 | A zombie is referred to by its parent alone, so the strong-count assertion of waitpid holds |
| Scheduling.DeadlineMeansTimeout | os/src/syscall/agent.rs:477-481 | For an agent that has blocked, every wake-up at its deadline finds its timeout run out, if and only if the deadline did not overflow 64 bits |
| Scheduling.SwapRemovedElements | os/src/agent/blocking.rs:78-85 | swap_remove takes out one entry and keeps the others |
| Scheduling.WokenKeeps | os/src/agent/blocking.rs:78-124 | Waking the agents for whom something happened restores that nothing a blocked agent waits for has happened |
| Scheduling.WalkStep | os/src/task/mod.rs:136-146 | The children of the next process are all new to the walk |
| Scheduling.WalkedAll | os/src/task/mod.rs:131-148 | When the walk ends it has listed every process exactly once |
| AgentKernel.Kernel.constructor | os/src/task/mod.rs:113-124 | INITPROC alone, in the ready queue |
| AgentKernel.Kernel.Fetch | os/src/task/manager.rs:28-46 | The first of the ready tasks with the highest priority leaves the queue, the others keep their order |
| AgentKernel.Kernel.Dispatch | os/src/task/processor.rs:44-63 | That task becomes the running one; with no ready task nothing changes |
| AgentKernel.Kernel.Suspend | os/src/task/mod.rs:42-58 | The running task goes to the end of the ready queue |
| AgentKernel.Kernel.Exit | os/src/task/mod.rs:64-111 | The task is a zombie held by its parent, its children are INITPROC's; the exit of INITPROC shuts down |
| AgentKernel.Kernel.Fork | os/src/task/task.rs:157-212 | A child with the parent's priority and mappings, no agent, ready; for the queue see sys_fork |
| AgentKernel.Kernel.WaitPid | os/src/syscall/process.rs:57-90 | -1 without a matching child, -2 without a matching zombie, else the first such zombie is reaped, whose only holder was the parent |
| AgentKernel.Kernel.SnapshotAllProcesses | os/src/task/mod.rs:131-148 | Terminates and lists every process exactly once, breadth first, children in the order of their parent's list |
| AgentKernel.Kernel.WakeOne | os/src/agent/blocking.rs:119-123 | The task is ready and at the end of the queue |
| AgentKernel.Kernel.WakeAgentByPid | os/src/agent/blocking.rs:78-93 | Wakes that task if it is blocked and no other; the last entry of the blocked list takes the place of its entry |
| AgentKernel.Kernel.WakeAll | os/src/agent/event_bus.rs:58-61 | Wakes exactly the blocked ones among the given tasks, which enter the ready queue in the order given |
| AgentKernel.Kernel.TickWakeTimeouts | os/src/agent/blocking.rs:96-117 | Wakes exactly the tasks whose deadline has come, in the order in which the scan with swap_remove meets them; afterwards no deadline on the list has |
| AgentKernel.Kernel.TickAllAgents | os/src/agent/event_bus.rs:36-62 | Marks exactly the agents whose heartbeat is due and wakes the blocked ones among them, in the order of the snapshot; no wake-up is lost |
| AgentKernel.Kernel.MarkHeartbeats | os/src/agent/event_bus.rs:39-57 | The loop that marks them and collects whom to wake |
| AgentKernel.Kernel.DeliverMessage | os/src/agent/event_bus.rs:66-89 | Delivered exactly when the target is an agent; its mailbox has the message at its end and, if it was full, lost the oldest (KernelLaws.SendLaw); it is not blocked any more |
| AgentKernel.Kernel.BroadcastFileEvent | os/src/agent/event_bus.rs:96-112 | Tells exactly the agents that watch file events, and wakes the blocked ones among them, in the order of the snapshot |
| AgentKernel.Kernel.Timer | os/src/trap/mod.rs:101-109 | Heartbeats, timeouts and the yield, in this order: the resulting state of every task and of the queues; no blocked deadline has passed |
| AgentKernel.Kernel.AgentCreate | os/src/syscall/agent.rs:28-51 | Makes the task an agent, once; panics exactly when it is none and its address space has something mapped in the place of the context area |
| AgentKernel.Kernel.Exec | os/src/task/task.rs:133-156 | Nothing of the task changes but what its address space maps |
| AgentKernel.Kernel.SetPriority | os/src/syscall/agent.rs:383-388 | The task has the priority, 255 at most |
| AgentKernel.Kernel.AgentWatch | os/src/syscall/agent.rs:418-427 | Adds to the agent's own mask; -4 for a task that is no agent |
| AgentKernel.Kernel.AgentUnwatch | os/src/syscall/agent.rs:430-439 | Removes from it |
| AgentKernel.Kernel.HeartbeatSet | os/src/syscall/agent.rs:391-402 | Sets interval and start, drops a pending beat |
| AgentKernel.Kernel.HeartbeatStop | os/src/syscall/agent.rs:405-415 | Stops it, drops a pending beat |
| AgentKernel.Kernel.AgentWait | os/src/syscall/agent.rs:459-545 | From its start to its first return or sleep; when it sleeps and returns, and with which deadline, is KernelLaws.SleepLaw, ReturnLaw and AsleepLaw |
| AgentKernel.Kernel.WaitRound | os/src/syscall/agent.rs:483-544 | Returns with the watched events that are pending, using up heartbeats and file events but not messages; returns 0 after the timeout; else blocks, with nothing it waits for pending |
| AgentKernel.Kernel.Resume | os/src/syscall/agent.rs:483-544 | An agent woken by its timeout returns instead of blocking again, unless its deadline overflowed |
| KernelSteps.TimerEffect | os/src/trap/mod.rs:101-109 | Which tasks a timer interrupt wakes, and which entries stay blocked |
| KernelSteps.ExitKeeps | os/src/task/mod.rs:64-111 | Exit keeps the invariants of places, tree, waits and wake-ups |
| KernelSteps.BlockKeeps | os/src/agent/blocking.rs:53-75 | So does blocking an agent for which nothing is pending |
| KernelSteps.TickKeeps | os/src/agent/event_bus.rs:36-62 | A heartbeat leaves only the agents it will wake with something pending |
| Scheduling.WokenPlaced | os/src/agent/blocking.rs:78-124 | Waking keeps every live task in one place |
| KernelSpec.StepKeeps | os/src/trap/mod.rs:55-116 | Every event that the kernel can take, whatever state it is in, keeps tree, places, deadlines and quietness |
| KernelSpec.InvariantIsSafe | os/src/agent/blocking.rs:17-21 | The invariant means: one place for each live task, none for zombies, one tree, no blocked agent with a pending event it waits for |
| KernelSpec.RunKeeps | os/src/task/processor.rs:44-63 | Every moment of every run of the transition system satisfies the invariant |
| KernelSpec.RunIsSafe | os/src/task/processor.rs:44-63 | Every moment of every run is safe |
| KernelRun.Take | os/src/trap/mod.rs:55-116 | The method called for an event has exactly the effect and the answer that the transition system gives that event |
| KernelRun.Run | os/src/task/processor.rs:44-63 | The kernel, given any events, goes through a run of the transition system, state by state and answer by answer, and every state on the way is safe |
| KernelProgress.StuckMeans | os/src/task/processor.rs:44-63 | No task runs and none is ready if and only if every task is blocked or a zombie |
| KernelProgress.StuckStays | os/src/task/processor.rs:44-63 | Such a state lasts for the rest of the run, heartbeats and timeouts included |
| KernelProgress.GetsStuck | os/src/agent/blocking.rs:53-75 | A step gets the kernel stuck if and only if no other task is ready and the running one exits, or waits with nothing pending and its timeout not run out |
| KernelProgress.AwakeNotStuck | os/src/task/mod.rs:113-124 | As long as INITPROC is not blocked some task runs or is ready |
| KernelProgress.InitprocKeepsGoing | os/src/task/mod.rs:113-124 | A run in which INITPROC starts no wait never gets stuck |
| KernelProgress.StuckRun | os/src/syscall/agent.rs:459-545 | A run that does: INITPROC becomes an agent, sets a heartbeat and waits for it |
| KernelProgress.NotStarved | os/src/task/manager.rs:24-46 | A ready task that no ready task outranks runs after at most as many dispatches as tasks are queued before it |
| KernelWaits.NoDeadlineMissed | os/src/agent/blocking.rs:96-117 | After a timer interrupt no blocked deadline has passed |
| KernelWaits.WaitEnds | os/src/syscall/agent.rs:483-544 | An agent that goes on with its wait at or after its deadline returns, unless the deadline overflowed |
| KernelWaits.OverflowNeverSleeps | os/src/syscall/agent.rs:477-481 | An agent whose wait, new or going on, puts it to sleep is listed with a deadline that has passed already if and only if it overflowed 64 bits, and then it has passed at every time |
| KernelWaits.SpinRun | os/src/syscall/agent.rs:459-545 | A run to such a state: a child that becomes an agent and waits with the longest timeout |
| KernelWaits.SpinsOn | os/src/syscall/agent.rs:483-544 | There each timer interrupt wakes it, it runs, does not return and sleeps again, in the same state, whatever time passes before each step |
| KernelPanics.KindsAfter | os/src/task/task.rs:157-212 | Whether a task is an agent, and whether the place of the context area is mapped in its space, changes by fork, exec and agent_create only: fork copies the mapping and not the agent |
| KernelPanics.ChildInTheWay | os/src/task/task.rs:194-199 | A child forked by a task that has the place mapped is a plain process that has it mapped, in every later moment of any run until it calls exec |
| KernelPanics.AgentsChildPanics | os/src/mm/page_table.rs:129-133 | In any run, such a child that asks to become an agent panics the kernel and the machine stops |
| KernelPanics.PanicRun | os/src/syscall/agent.rs:28-51 | A run that does: INITPROC becomes an agent and forks, and the child asks to become one |
| KernelPanics.StaysOn | os/src/task/task.rs:194-199 | In a run where INITPROC does not exit, nobody who has the place mapped forks and no program brings it mapped, the machine never stops |
| KernelLaws.PossibleMeans | os/src/trap/mod.rs:55-116 | When the kernel can take an event: the idle loop alone while no task runs; a task inside a wait only to go on with it; a fork only to a new pid; anything else |
| KernelLaws.DispatchLaw | os/src/task/manager.rs:24-46 | The ready task with the highest number runs, the first in the queue of several; the others keep their places |
| KernelLaws.YieldLaw | os/src/task/mod.rs:42-58 | The running task is ready behind all others |
| KernelLaws.ForkLaw | os/src/task/task.rs:157-212 | The child's record, field by field; it is the last of its parent's children and of the queue |
| KernelLaws.ExitLaw | os/src/task/mod.rs:64-111 | The zombie has the code, and its children are INITPROC's, behind those it had |
| KernelLaws.ReapLaw | os/src/syscall/process.rs:57-90 | -1, -2, or the first zombie child asked for, with its code; it is gone from the tasks and from the list |
| KernelLaws.OwnTaskLaw | os/src/syscall/agent.rs:383-388 | Priority, at most 255, and exec change one field of the caller and nothing else |
| KernelLaws.OwnExtLaw | os/src/syscall/agent.rs:391-439 | So do watch, unwatch and the two heartbeat calls, in an agent; -4 otherwise |
| KernelLaws.BecomeAgentLaw | os/src/syscall/agent.rs:28-51 | A new agent has no mask, no heartbeat and no mail, unless something is mapped in the area's place, which stops the machine |
| KernelLaws.TriggeredBits | os/src/syscall/agent.rs:491-507 | The events that end a wait, bit by bit; with no mask set those are heartbeats and messages |
| KernelLaws.SleepLaw | os/src/syscall/agent.rs:483-544 | A wait puts its agent to sleep exactly when nothing it waits for has come and the timeout, counted from the call, has not passed |
| KernelLaws.ReturnLaw | os/src/syscall/agent.rs:508-538 | A wait that returns tells what has come, uses up the heartbeats and file events it tells of, and keeps messages |
| KernelLaws.AsleepLaw | os/src/syscall/agent.rs:476-480 | A sleeper is listed last, with no deadline without a timeout, else with clock plus timeout, or 0 where that overflows |
| KernelLaws.SecondWaitSleeps | os/src/syscall/agent.rs:508-515 | A second wait right after one that returned with a heartbeat or file event sleeps |
| KernelLaws.TimerLaw | os/src/trap/mod.rs:101-109 | What a timer interrupt does to each task: heartbeats whose interval has passed are marked; of the blocked exactly those, and those at their deadline, become ready |
| KernelLaws.TimerQueue | os/src/trap/mod.rs:101-109 | The queue afterwards: those ready before, the sleepers whose heartbeat is due in the order of the snapshot, those at their deadline, and last the task that was running |
| KernelLaws.SendLaw | os/src/agent/event_bus.rs:66-89 | The message is last in the mailbox; with 32 there exactly the oldest is lost; the owner is not blocked any more |
| KernelLaws.SendQueue | os/src/agent/event_bus.rs:85-88 | A sleeping owner enters the ready queue last |
| KernelLaws.ReceiveLaw | os/src/syscall/agent.rs:659-678 | Takes the first message and answers as much of it as fits |
| KernelLaws.FileChangedLaw | os/src/agent/event_bus.rs:96-112 | Marks and wakes exactly the agents that watch file events |
| KernelLaws.FileChangedQueue | os/src/agent/event_bus.rs:96-112 | The sleepers among them enter the ready queue in the order of the snapshot |
| KernelLaws.WakePidsLaw | os/src/agent/blocking.rs:78-93 | Tasks woken one after the other enter the queue in that order, those not blocked not at all |
| KernelLaws.SnapshotLaw | os/src/task/mod.rs:131-148 | The snapshot is INITPROC followed by the children of each of its tasks, in its own order: breadth first |
| KernelTraces.NobodyOversleeps | os/src/agent/blocking.rs:96-117 | In any run, after a timer interrupt at or after clock plus timeout of its wait a task is not blocked |
| KernelTraces.NobodyWakesEarly | os/src/agent/blocking.rs:96-117 | Nor does a timer interrupt change a sleeper that is neither due nor at its deadline |
| KernelTraces.ListedDeadline | os/src/syscall/agent.rs:476-480 | In any run, the deadline that a sleeper is listed with comes exactly when its timeout has passed, unless it overflowed |
| KernelTraces.MailInOrder | os/src/agent/event_bus.rs:66-89 | In any run, an agent's mailbox holds in order what it held and what was sent since, less the messages it gave up first |
| KernelTraces.ReceivedInOrder | os/src/syscall/agent.rs:659-678 | So what an agent receives are the messages sent to it, in the order in which they were sent; -6 exactly when it has had them all |
| KernelTraces.ExitCodeArrives | os/src/syscall/process.rs:57-90 | In any run, waitpid answers the code that was passed to exit |
| PageWalk.PteRoundTrip | os/src/mm/page_table.rs:32-52 | Page number and flags read back from an entry, which is valid exactly if V is among the flags |
| PageWalk.IndexesUnique | os/src/mm/address.rs:172-180 | A 27-bit page number is determined by its three indexes |
| PageWalk.Indexes | os/src/mm/address.rs:172-180 | The three indexes of the walk |
| PageWalk.EntrySet | os/src/mm/page_table.rs:94-105 | Writing one entry of a table changes that entry alone |
| PageWalk.WalkFrame | os/src/mm/page_table.rs:110-127 | The walk depends on the page table's frames only |
| PageWalk.AddMid | os/src/mm/page_table.rs:100-104 | A fresh second-level table, being zero, changes no translation |
| PageWalk.AddLeaf | os/src/mm/page_table.rs:100-104 | Nor does a fresh third-level table |
| PageWalk.SetLeafEntry | os/src/mm/page_table.rs:129-140 | Setting the entry of one page number changes that page number's translation only |
| PageWalk.NewRoot | os/src/mm/page_table.rs:75-81 | A zeroed root maps nothing |
| PageTables.Memory.FrameAlloc | os/src/mm/frame_allocator.rs:67-76 | A frame nobody has, all zero; None exactly when none is free |
| PageTables.Memory.ClearPage | os/src/mm/frame_allocator.rs:18-25 | The page is all zero, the others are untouched |
| PageTables.Memory.FrameDealloc | os/src/mm/frame_allocator.rs:77-86 | A taken frame becomes free |
| PageTables.Memory.FreeIsRest | os/src/mm/frame_allocator.rs:45-86 | Frames free and frames taken add up to all frames, so the free count is determined by who has what |
| PageTables.PageTable.constructor | os/src/mm/page_table.rs:75-81 | A page table that maps nothing |
| PageTables.PageTable.NextTable | os/src/mm/page_table.rs:94-105 | One level down, making the table if it is missing; no translation changes |
| PageTables.PageTable.FindPteCreate | os/src/mm/page_table.rs:90-108 | The third-level table exists afterwards, if there were frames for the missing tables, and only then; exactly the tables that the page needs are added |
| PageTables.MissingIsNeeded | os/src/mm/page_table.rs:90-108 | The frames a page takes for tables are as many as the tables it needs that are not there |
| PageTables.PageTable.FindPte | os/src/mm/page_table.rs:110-127 | The loop ends at the third-level table exactly when no table on the way is missing |
| PageTables.PageTable.MapPage | os/src/mm/page_table.rs:129-133 | The page's entry has the page number, the flags asked for and V, and no other translation changes; frames of others keep their bytes; succeeds exactly when the page was not mapped and there are frames for the missing tables |
| PageTables.EntryMeans | os/src/mm/page_table.rs:129-133 | The entry has the page number above bit 10, the flags asked for, and V |
| PageTables.PointerEntry | os/src/mm/page_table.rs:100-104 | An entry made for a table below has the flag V alone |
| PageTables.PageTable.UnmapPage | os/src/mm/page_table.rs:136-140 | The page is unmapped and no other translation changes; its entry stays, empty |
| PageTables.PageTable.Translate | os/src/mm/page_table.rs:142-145 | There is an answer exactly when no table is missing, and it is the entry for the page, valid or not |
| PageTables.PageTable.Drop | os/src/mm/frame_allocator.rs:34-38 | Dropping a page table frees exactly the frames of its tables |
| PageTables.GroupAnswers | os/src/mm/page_table.rs:110-127 | Pages of one group of 512 have answers together |
| PageTables.UnmappedAnswers | os/src/mm/page_table.rs:142-145 | An unmapped page has an answer if and only if its third-level table exists and its entry there is invalid; once one page of a group is mapped, all others of it have one |
| PageTables.UnmapThenTranslate | os/src/mm/page_table.rs:136-145 | A case of it: a page just unmapped, and its neighbour that never was mapped, are both answered |
| UserMemory.CanonicalAddresses | os/src/mm/address.rs:68-96 | Masking to 39 bits and extending the sign is the identity exactly on canonical addresses |
| UserMemory.CanonicalRanges | os/src/mm/address.rs:68-96 | A range is canonical exactly when all its addresses survive that |
| UserMemory.Ceil | os/src/mm/address.rs:109-116 | The page number is the least whose page starts at or after the address |
| UserMemory.AddressMeans | os/src/mm/page_table.rs:146-158 | An address goes to the frame of its page, at the same offset below 4096 |
| UserMemory.CutChunk | os/src/mm/page_table.rs:164-177 | One chunk holds consecutive addresses, each where translate_va puts it |
| UserMemory.TranslatedByteBuffer | os/src/mm/page_table.rs:160-180 | For a range in the lower or the upper half, the chunks cover it once and in order, each byte where translate_va puts it |
| UserMemory.WriteUserBytes | os/src/agent/context_area.rs:187-198 | Stores the data byte by byte at the addresses of the range |
| UserMemory.ReadUserBytes | os/src/agent/context_area.rs:201-212 | Loads the bytes of the range |
| UserMemory.StoredBytes | os/src/agent/context_area.rs:187-198 | With distinct addresses each gets its byte and no other byte of memory changes |
| UserMemory.WriteThenRead | os/src/agent/context_area.rs:187-212 | What was written is read back, however pages split it; translations and other bytes stay |
| MemorySets.MemorySet.MapOne | os/src/mm/memory_set.rs:323-337 | One page mapped to a new zeroed frame, or to itself; succeeds exactly when it was not mapped and there are as many free frames as missing tables and, for a framed area, the page |
| MemorySets.MemorySet.Push | os/src/mm/memory_set.rs:80-86 | All pages of the area are mapped, to new zeroed frames where it has its own; no other page, no other space changes; succeeds exactly when none of them was mapped and there is a frame for each page and each missing table, and takes so many |
| MemorySets.MappedToMeans | os/src/mm/memory_set.rs:323-337 | A page of an area has its frame's number and the area's permission in its entry |
| MemorySets.MemorySet.MapTrampoline | os/src/mm/memory_set.rs:88-94 | One page outside all areas, mapped exactly when it was not mapped and there are frames for the tables it lacks |
| MemorySets.CostNext | os/src/mm/memory_set.rs:344-348 | The frames an area takes add up page by page |
| MemorySets.MemorySet.UnmapOne | os/src/mm/memory_set.rs:338-343 | One page unmapped, its frame freed |
| MemorySets.MemorySet.UnmapArea | os/src/mm/memory_set.rs:349-353 | All pages of an area unmapped, its frames freed |
| MemorySets.MemorySet.RemoveAreaWithStartVpn | os/src/mm/memory_set.rs:69-79 | The first area that starts there is gone, with its mappings and its frames, and nothing else |
| MemorySets.MemorySet.RecycleDataPages | os/src/mm/memory_set.rs:286-289 | Frees exactly the frames of all pages of all areas; the page table keeps its own |
| MemorySets.AreaGrows | os/src/mm/memory_set.rs:344-348 | Mapping the next page of an area keeps the space's invariant |
| MemorySets.AreaShrinks | os/src/mm/memory_set.rs:349-353 | Unmapping the next page of an area keeps it |
| MemorySets.CopyData | os/src/mm/memory_set.rs:356-375 | The area's pages hold the data from the start on, and past it what they held |
| MemorySets.FilledMeans | os/src/mm/memory_set.rs:356-375 | Byte by byte: the data from the first page on, and behind it what was there |
| MemorySets.SpaceFrame | os/src/mm/memory_set.rs:39-42 | A space does not notice writes outside its page tables |
| MemorySets.WritesInvisible | os/src/mm/memory_set.rs:254-272 | A write to a frame that is neither a page table nor a page frame of a space is invisible in it |
| UserSpaces.FromExistedUser | os/src/mm/memory_set.rs:254-272 | A space with the same areas, byte-equal pages in frames that were free, and the trampoline; the original is untouched; made exactly when there is a frame for the root, each page and each table needed, and takes so many |
| UserSpaces.NewUserSpace | os/src/mm/memory_set.rs:254-257 | A space with the trampoline alone, made exactly when frames suffice |
| UserSpaces.TrampolineEntry | os/src/mm/memory_set.rs:88-94 | The trampoline is readable and executable, and closed to user programs |
| UserSpaces.CloneArea | os/src/mm/memory_set.rs:259-270 | One area of the copy; fails exactly for lack of frames |
| UserSpaces.CopyPages | os/src/mm/memory_set.rs:262-270 | Every page of the area is copied byte for byte, and no translation changes |
| UserSpaces.CloneTranslates | os/src/mm/memory_set.rs:254-272 | The clone maps exactly the same pages with the same flags |
| UserSpaces.CloneApart | os/src/mm/memory_set.rs:254-272 | The two spaces share no frame, so later writes in one are invisible in the other |
| UserSpaces.Release | os/src/task/mod.rs:100-104 | exit and the reaping that follows free exactly the frames of the space |
| UserSpaces.ForkThenRelease | os/src/task/mod.rs:100-104 | fork, exit and reaping restore exactly the free frames there were before |
| ContextAreas.ContextArea.Write | os/src/agent/context_area.rs:187-198 | Replaces a part of the area's bytes; page tables are untouched |
| ContextAreas.ContextArea.Read | os/src/agent/context_area.rs:201-212 | Reads a part of them |
| ContextPaths.InitHeader | os/src/agent/context_area.rs:97-126 | All fields of the header lie where user programs read them, with no path bytes and no nodes counted; the rest of the area is untouched |
| ContextPaths.ContextPath.ShiftPathBufferLeft | os/src/agent/context_path.rs:71-89 | The move in chunks of 256, overlapping or not, equals a single memmove |
| ContextPaths.ShiftChunk | os/src/agent/context_path.rs:80-88 | A chunk is read before it is overwritten |
| ContextPaths.ContextPath.PickVictim | os/src/agent/context_path.rs:92-105 | The first node, or the first of those with the least write time |
| ContextPaths.OldestFirst | os/src/agent/context_path.rs:92-105 | With times that do not decrease LRU picks the first node, as FIFO does |
| ContextPaths.ContextPath.EvictAt | os/src/agent/context_path.rs:108-131 | For a victim at any index: that node is gone, the others are stored without a gap |
| ContextPaths.ContextPath.AdjustMeta | os/src/agent/context_path.rs:119-126 | The offsets are again those of nodes stored one after another |
| ContextPaths.ContextPath.EvictOne | os/src/agent/context_path.rs:108-131 | Takes the oldest node; NotFound exactly when there is none |
| ContextPaths.ContextPath.SyncHeader | os/src/agent/context_path.rs:37-46 | The header mirrors used bytes and node count; the path is untouched |
| ContextPaths.ContextPath.WriteNodeAt | os/src/agent/context_path.rs:49-68 | Header, request and response in a row |
| ContextPaths.ContextPath.PushNode | os/src/agent/context_path.rs:135-190 | The node is stored behind the longest suffix of the path that leaves room for it; refused exactly when too large; InternalError only with a node limit of zero |
| ContextPaths.ContextPath.Rollback | os/src/agent/context_path.rs:194-209 | The first nodes stay; NotFound when there are not so many |
| ContextPaths.ContextPath.Clear | os/src/agent/context_path.rs:212-216 | No nodes, and a header that says so |
| ContextPaths.SurvivorsReadBack | user/src/lib.rs:355-374 | Every node of the path decodes to its request and response from where its metadata says |
| ContextPaths.RunPath | os/src/agent/context_path.rs:108-216 | After any run of pushes, rollbacks, clears and evictions at any index the nodes are what list operations leave, the header mirrors them, and each decodes |
| ContextPathLaws.PushLaw | os/src/agent/context_path.rs:135-190 | A push that is not refused drops as few of the oldest nodes as leave room within both quotas, and puts the new one last, with its number and time |
| ContextPathLaws.AnswerLaw | os/src/agent/context_path.rs:135-190 | What a push answers, and when it is refused |
| ContextPathLaws.OtherCallsLaw | os/src/agent/context_path.rs:108-216 | Rollback keeps the first nodes, clear none, an eviction all but one |
| ContextPathLaws.HeaderFormat | os/src/agent/context_area.rs:97-126 | The header's fields at their offsets |
| ContextPathLaws.HeaderCounts | os/src/agent/context_path.rs:37-46 | In every valid path the header tells the bytes its nodes take, and their number |
| ContextPathLaws.NodeFormat | os/src/agent/context_path.rs:49-68 | A node: number, time, the two lengths, and the texts |
| AgentSpaces.NewArea | os/src/mm/memory_set.rs:300-315 | An area holds exactly the pages that its addresses touch |
| AgentSpaces.FramedRange | os/src/mm/page_table.rs:146-158 | A range within a framed area of a valid space is mapped to frames of its own, none of them a page table |
| AgentSpaces.Allocate | os/src/agent/context_area.rs:79-92 | The area is mapped and all zero, in any valid space; made exactly when none of its pages was mapped and there are frames for it |
| AgentSpaces.CreateContext | os/src/syscall/agent.rs:28-51 | A new agent's area in any valid address space: initialized header, empty path, pages for user programs, nothing else changed; made exactly when none of its pages was mapped and there are frames for it |
| AgentSpaces.PagesForUser | os/src/agent/context_area.rs:79-92 | All sixteen pages of the area are mapped for user programs to read and write |
| AgentSpaces.CloneMapsArea | os/src/mm/memory_set.rs:259-270 | A clone maps a page of the context area exactly when the space it was cloned from does |
| AgentSpaces.CloneReads | os/src/mm/memory_set.rs:254-272 | Right after a fork every address of the user's areas reads the same byte in both spaces |
| AgentSpaces.ForkThenCreate | os/src/mm/memory_set.rs:254-272 | For any user space: after fork, the child can be given a context area exactly when the parent has none mapped and the frames for both suffice |
| AgentSpaces.AgentsChild | os/src/syscall/agent.rs:28-51 | After agent_create and fork, agent_create in the child fails, however many frames are free |
| AgentCalls.AgentCreate | os/src/syscall/agent.rs:28-51 | On the task and its address space together: panics exactly when the task is no agent and something is mapped in the area's place or frames run out; else it is an agent with an initialized area and an empty path |
| AgentCalls.Fork | os/src/syscall/process.rs:28-40 | On both together: the child is a plain process with a byte-equal copy of the space, and has the area's place mapped exactly if its parent has; panics exactly when frames for the copy run out |
| AgentCalls.MailboxRecv | os/src/syscall/agent.rs:659-678 | Takes the oldest message; what of it fits is in the buffer afterwards, and no other byte of memory changes; -1 for a null buffer, -4 for a task that is no agent, -6 when there is no message |
| PathNodes.FlatWithout | os/src/agent/context_path.rs:108-131 | Taking a node out closes the gap it leaves |
| PathNodes.MetaWithout | os/src/agent/context_path.rs:119-126 | Exactly the nodes behind it move, by its length |
| PathNodes.NodeReadsBack | user/src/lib.rs:355-374 | A node reads back from any buffer that starts with the path's bytes |
| PathNodes.TrimmedIsLongest | os/src/agent/context_path.rs:154-163 | What eviction leaves is the longest suffix that fits both quotas with the new node |
| FileAttr.FileAttrStore.constructor | os/src/agent/file_attr.rs:44-50 | No files |
| FileAttr.FileAttrStore.SetKv | os/src/agent/file_attr.rs:53-67 | The key has the value; the file comes last in that value's list, even where it had the value before, and leaves the old one's; the other lists stay |
| FileAttr.FileAttrStore.AddTag | os/src/agent/file_attr.rs:70-79 | The file has the tag, once; it comes last in the tag's list, unless it is there; the other lists stay |
| FileAttr.FileAttrStore.SetOwner | os/src/agent/file_attr.rs:82-84 | The key "owner" |
| FileAttr.FileAttrStore.SetDigest | os/src/agent/file_attr.rs:87-90 | The digest |
| FileAttr.FileAttrStore.RemoveTag | os/src/agent/file_attr.rs:94-108 | The tag is gone; true exactly if the file had it; the others in the tag's list keep their order |
| FileAttr.FileAttrStore.RemoveKv | os/src/agent/file_attr.rs:112-129 | The key is gone; true exactly if the file had it |
| FileAttr.FileAttrStore.RemoveFile | os/src/agent/file_attr.rs:133-156 | The file and all its index entries are gone; true exactly if there was one; the others keep their order in every list |
| FileAttr.FileAttrStore.QueryIndexed | os/src/agent/file_attr.rs:159-199 | The files that meet all filters, each once; nothing without a filter; in the order in which the first index lists them, which is that of FileAttrRuns.RunAndQuery, or of the names where only a keyword is given |
| FileAttr.FileAttrStore.QueryFullScan | os/src/agent/file_attr.rs:202-228 | The files that meet all filters, each once, in the order of their names; all files without a filter |
| FileAttr.QueriesAgree | os/src/agent/file_attr.rs:159-228 | The two queries find the same files if and only if there is a filter, or no file at all |
| FileAttr.Intersect | os/src/agent/file_attr.rs:235-240 | The common elements, without repetition |
| FileAttr.Memmem | os/src/agent/file_attr.rs:242-250 | Exactly whether the needle occurs; the empty one always does |
| FileAttr.KvSet | os/src/agent/file_attr.rs:53-67 | Replacing a value moves the file from one index list to another |
| FileAttr.RetainIsOthers | os/src/agent/file_attr.rs:53-67 | Removing a name from a list keeps the order of the others |
| FileAttr.LessMeans | os/src/agent/file_attr.rs:36-41 | Names are ordered by the first character that differs, a beginning of a name coming before it |
| FileAttr.OccursMeans | os/src/agent/file_attr.rs:242-250 | A keyword occurs exactly when the text is something, the keyword, and something |
| FileAttrRuns.ChangeLaw | os/src/agent/file_attr.rs:53-156 | After a change the tag, value or digest it names is as it says, and every other is what it was |
| FileAttrRuns.RunAndQuery | os/src/agent/file_attr.rs:53-228 | After any run of changes both queries find exactly the files that meet the filters; the indexed one in the order in which they came by the tag, or in which their owner was set last; the scan in the order of names |

## Left out

- `__switch`, trap entry and exit, satp and the TLB, timer hardware, SBI, virtio: foreign or hardware code. Clock readings are inputs that do not decrease.
- Crashes between writes of the cache, and a second block device: the cache is keyed by block number alone, and one device is fixed.
- Borrow panics, spin locks and `Arc` mechanics: a held block is an entry of a set, a reference count is the number of places that refer to a task, and a code segment between switches is atomic.
- Tasks, file handles in other processes' tables, and map areas are values in a map or a sequence of their class, keyed by pid or position: aliasing of one task block from two places is not modelled; who refers to it is (Scheduling.Holders).
- The free lists behind pid allocation: the new pid of a fork is an input that no task has.
- Directory.Create: asks for a name of at most 27 bytes without NUL, for which Dirents.NameRoundTrip gives the reason; names are bytes, and that they are UTF-8 is not modelled.
- Vfs.Inode.WriteAt: asks that the file stay below (28 + 128 + 16384) * 512 bytes, that blocks be free, and that an empty write not start where a new index block would be needed; the original panics or leaves the data area or the device otherwise, exactly as Efs.FirstFreeInArea and InodeTree.PastEndLookup say.
- Mkfs.Format: asks for at most 2^20 inode bitmap blocks, so that inode numbers fit 32 bits as the original assumes.
- Running out of physical frames, or mapping a page twice: the original panics; here the method returns false or null, which is proved to be exactly then, and promises nothing about the address space.
- UserSpaces.FromExistedUser: asks that all areas have frames of their own, as user spaces do.
- UserMemory.TranslatedByteBuffer: asks for a range in the lower or the upper half of the addresses, whose end does not wrap around and whose pages have entries, as its `unwrap` does; other ranges, whose addresses the original's conversions do not keep (UserMemory.CanonicalRanges), are not modelled.
- AgentKernel.Kernel.AgentCreate, in the transition system: frames do not run out there; on the address space they may (AgentCalls.AgentCreate).
- AgentKernel.Kernel.Exec: whether the new program's address space has the place of the context area mapped is an input; `from_elf`, which makes that space, is not modelled.
- AgentCalls.Fork: the frames of the child's kernel stack and of the kernel's own mappings are not counted.
- AgentCalls.MailboxRecv: asks for a buffer that is mapped as far as the message is stored, as the `unwrap` in the original does.
- Kernel mappings, `from_elf`, the file descriptor table: libraries, or easy beside the rest.
- `write_tool_result`: nothing calls it, and its byte offset 20 is not the header's field.
- postcard encoding of metadata and tools, loop states, benchmark and demo data: easy members.
- ContextPaths.ContextPath.PushNode: asks for request and response of at most 4096 bytes, as the system call checks, and for node numbers below 2^64 - 1; the byte quota is at most the path buffer's length, as it always is in the original.
- User programs that write into the shared context area while the kernel keeps a path there.
