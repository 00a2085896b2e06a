# SaxonOS, verified in Dafny

A model of the hard core of the SaxonOS kernel, and proofs of what that core is for. Code that changes state
in the kernel changes state here: a class with the kernel's variables, methods with its branches, and a ghost
value that says what the state means. What the ghost value guarantees over whole runs is proved beside it.

| Files | What they model |
|---|---|
| `Memory`, `HeapBlocks`, `HeapTheorems`, `KernelHeap` | the kernel heap: first fit over headers kept in the heap itself, splitting, realignment, two-sided coalescing |
| `LinkedLists`, `BufferPool`, `BufferCache`, `CacheRuns`, `BlockDevice` | the block buffer cache and the byte streams over it, against a plain map from blocks to bytes |
| `ContextSwitch`, `Tasks`, `ThreadRuns` | `switch_task` instruction by instruction on a small x86 machine, the thread ring, and whole runs of switches, creations and page allocations |
| `Bits`, `Frames`, `Paging` | the frame bitmap and the page table, which have to stay in step |
| `Terminal` | the 80 by 25 text screen, as a window on an endless sheet of paper |
| `CStrings`, `Registry` | the filesystem registry, edited through pointers to links |
| `Ext2Address`, `Ext2Directory`, `Ext2Lookup` | where an inode lies on its device, and the directory walk through the cache |
| `Arithmetic`, `Options`, `Sequences` | helpers |

## As written, and repaired

Where a function departs from what it is meant to do, the model says so by a named repair or proves what the
function really does.

- **H1**, `KernelHeap.Heap.MoveUp`: the realignment branch of `kmalloc_alligned` sets the size of the block it
  moves up. As written the headers are right exactly when that size was there already
  (`KernelHeap.Heap.RealignAsWritten`), and a heap that is 4-aligned and asked for multiples of 4 never gets to
  that branch (`HeapTheorems.AlignedRunNeverRealigns`). A realigned first block needs a gap of at least a header.
  The branch adds in 32 bits; when it decides as it should is `HeapTheorems.JudgedExactly`.
- **B1**, `BufferCache.Cache.UnlinkChain`: eviction unlinks the victim from its old hash chain. As written the
  chains never survive an eviction (`BufferCache.EvictionAsWritten`).
- **B2**, `BufferCache.Cache.PutBlock`: the last release brings the pin count to 0. As written the free list
  is right exactly after a release that is not the last (`BufferCache.PutAsWrittenExactly`).
- **B3**, `BufferCache.Cache.UnlinkFree` and `LinkFree`: both ends of the free list are maintained, and it may
  become empty. As written the list survives exactly when the buffer taken off it was at neither end
  (`BufferCache.UnlinkFreeAsWritten`).
- **B4**, the constructor of `BufferCache.Cache`: fresh buffers are zero, with device 0, "nodev".
- **F1**, `Frames.FrameMap.KfreeOneFrame`: a free clears one bit. As written it clears the 32 bits of the word,
  and what holds of that is proved as well (`Frames.RunPrefixes`, `Frames.AllocationIsLowest`), as is what it
  does to the page table (`Paging.UnmapAsWritten`).

Everything else is modelled as written: `switch_task` and the ring, the scroll that copies one cell too many,
the prefix-only match of `find_file_system`, the macro that multiplies only part of its argument, the test of
`kalloc_frame` that looks at more than one bit, the walk that never looks at the last entry of a sector, and
the two stream functions, which take no account of the offset when they fit a request to a sector.

Found on the way, with the exact condition proved in each case, and a concrete input on the failing side:

- The search of `kmalloc_alligned`, in 32 bits, stops at the first fit exactly when no block before it is misjudged
  because the request comes round past 2^32 (`HeapTheorems.SearchExactly`, `HeapTheorems.HugeRequestComesRound`).
  Every run of requests that stay below 2^32 from the end of the heap on is safe (`HeapTheorems.ModestRunIsSafe`).
- `kfree` undoes a realigned `kmalloc_alligned` exactly when the gap had no block before it to go to
  (`HeapTheorems.FreeUndoesAllocate`, `HeapTheorems.GapIsNotGivenBack`).
- `bdev_read` and `bdev_write` stay inside the buffer exactly when the position is a sector boundary or the
  request ends in its sector (`BlockDevice.BdevRead`, `BlockDevice.BdevWrite`, `BlockDevice.ShiftedSectorOverruns`).
- `REAL_INODE_BLOCK` finds the sector of an inode exactly when the inode lies in the first block of its table
  (`Ext2Address.RealInodeBlockExact`, `Ext2Address.NinthInodeIsMissed`).
- Registering a filesystem keeps prefix matching exact exactly when no registered name begins with its name, of
  which only the length in eight bits counts (`Registry.AppendKeeps`, `Registry.PrefixIsRefused`). Registering the
  last entry again, with a name of a multiple of 256 characters, links it to itself
  (`Registry.FileSystems.RegisterFilesystem`); an empty name is enough (`Registry.EmptyNameFollowsItself`).
- `ext2_lookup` gives back every pin exactly unless no reached entry has the name and the entries exceed the
  directory's size (`Ext2Lookup.Lookup`, `Ext2Directory.SizeBelowFirstEntry`).
- Unmapping a page as written leaves the mapping sound exactly when no other mapped page uses a frame of the
  same group of 32 (`Paging.UnmapAsWritten`, `Paging.UnmapLosesNeighbour`).

## Model

| member | source | states |
|---|---|---|
| HeapTheorems.FootprintIsHeap | src/mm/heap.c:3-16 | headers and payloads together are exactly the size of the heap |
| HeapTheorems.PayloadsDisjoint | src/mm/heap.c:58-120 | payloads of different blocks share no byte and lie inside the heap |
| HeapTheorems.LiveBlocksDetermineList | src/mm/heap.c:153-176 | the blocks in use determine the whole block list: free space keeps no history |
| HeapTheorems.AlignUpIsLeast | src/mm/heap.c:67 | the CEILING_DIV expression is the least multiple of the alignment not below the payload |
| HeapTheorems.JudgedExactly | src/mm/heap.c:63-92 | in uint32 arithmetic the code decides on a block as it should if and only if the request does not come round past 2^32; where it should stop it always does |
| HeapTheorems.SearchExactly | src/mm/heap.c:61-95 | the code stops at the first fit if and only if it misjudges no block before it |
| HeapTheorems.HugeRequestComesRound | src/mm/heap.c:65-115 | a concrete failure on any 4-aligned heap: kmalloc(0xFFFFFFF0) after kmalloc(5) stops at a block it should pass over, and splits it off from itself |
| HeapTheorems.ReleaseKeeps | src/mm/heap.c:153-176 | release keeps tiling and coalescing and takes exactly that block out of use |
| HeapTheorems.InPlaceAddress | src/mm/heap.c:92-119 | without realignment the pointer is aligned, its block inside the heap, big enough, and not in use before |
| HeapTheorems.AllocateInPlace | src/mm/heap.c:92-119 | such a request adds one block to those in use and changes no other |
| HeapTheorems.RealignedAddress | src/mm/heap.c:65-90 | after realignment the pointer is aligned, less than one alignment further on, and its block big enough |
| HeapTheorems.AllocateRealigned | src/mm/heap.c:65-120 | with H1 a realigned request keeps the heap tiled and coalesced, for any alignment |
| HeapTheorems.AllocateRealignedLive | src/mm/heap.c:78-83 | it hands exactly the gap to the block before, if there is one, and changes no other block in use |
| HeapTheorems.RequestIsGranted | src/mm/heap.c:61-95 | if a free block has an aligned payload and more bytes than asked for, or the bytes and a header behind its first aligned address, the request does not panic, and its pointer lies in that block or one before it |
| HeapTheorems.GrantHadRoom | src/mm/heap.c:61-97 | a pointer is the first aligned address of a free block which had more than the size asked for, or, if it had to be realigned, the size and a header behind it |
| HeapTheorems.OneByteExactly | src/mm/heap.c:20-53 | kmalloc of one byte gives NULL if and only if no free block has more than one, and otherwise the start of the first that has, split only from 18 bytes on |
| HeapTheorems.SplitsFromSeventeen | src/mm/heap.c:100-117 | what is handed out has exactly the size asked for, with a free block behind it, when 17 bytes or more would be left; otherwise it reaches to the end of the block it came from |
| HeapTheorems.AllocateKeeps | src/mm/heap.c:58-120 | every safe request, satisfied or not, finds in 32-bit arithmetic the block that it should, and keeps the heap tiled and coalesced |
| HeapTheorems.FreeKeeps | src/mm/heap.c:153-176 | kfree keeps the heap tiled and coalesced and leaves every other block in use as it was |
| HeapTheorems.FreedReaches | src/mm/heap.c:153-176 | the free block that kfree leaves reaches from the start of a free block before to the end of a free block after, header bytes included |
| HeapTheorems.FreeUndoesAllocate | src/mm/heap.c:58-176 | kfree of what first fit has just handed out restores the identical list, exactly unless the gap of a realignment went to a block before |
| HeapTheorems.GapIsNotGivenBack | src/mm/heap.c:58-176 | a concrete case: after kmalloc(5), kfree does not undo kmalloc(4) |
| HeapTheorems.FreeAllKeeps | src/mm/heap.c:153-176 | any sequence of frees leaves in use exactly the blocks not freed |
| HeapTheorems.FreeOrderIrrelevant | src/mm/heap.c:153-176 | the order in which blocks are freed leaves no trace |
| HeapTheorems.FreeingEverythingRestoresHeap | src/mm/heap.c:3-176 | freeing every block, in any order, gives back the one free block of kheap_init |
| HeapTheorems.RunKeeps | src/mm/heap.c:18-176 | with H1, tiling and coalescing hold over every run of kmalloc and kfree whose requests are safe when their turn comes |
| HeapTheorems.ModestRunIsSafe | src/mm/heap.c:18-176 | on a 4-aligned heap every run whose requests, from the end of the heap on, stay below 2^32 is safe, whatever the sizes |
| HeapTheorems.AlignedRunIsSafe | src/mm/heap.c:18-176 | and so is every run of multiples of 4, however large |
| HeapTheorems.AlignedRunNeverRealigns | src/mm/heap.c:58-95 | as written, a 4-aligned heap asked for multiples of 4 stays 4-aligned over every run and never realigns |
| KernelHeap.Heap.constructor | src/mm/heap.c:3-16 | kheap_init makes one free block of the range, filled with zeros, and writes nothing outside it |
| KernelHeap.Heap.SplitOff | src/mm/heap.c:102-114 | the header stores have the effect of a split and of nothing else |
| KernelHeap.Heap.Carve | src/mm/heap.c:100-117 | the memory then holds the list with the block taken; payloads in use are kept |
| KernelHeap.Heap.GiveGap | src/mm/heap.c:75-83 | the gap goes to the block before, also when the intermediate size wraps below zero |
| KernelHeap.Heap.MoveUp | src/mm/heap.c:73-89 | the realignment branch as a whole, in memory: the moved block is linked in on both sides and, by H1, has its size |
| KernelHeap.Heap.RealignAsWritten | src/mm/heap.c:73-89 | without H1 the headers describe the realigned blocks if and only if the word at the size field of the moved header was there and right |
| KernelHeap.Heap.TryRealigned | src/mm/heap.c:65-91 | in uint32 arithmetic, the branch is taken exactly when the block suits, unless the request comes round |
| KernelHeap.Heap.Search | src/mm/heap.c:60-95 | the search of a safe request settles on the first block that suits, or leaves memory untouched |
| KernelHeap.Heap.KmallocAligned | src/mm/heap.c:58-120 | for a safe request, memory and result are those of first fit; a panic exactly when nothing suits; every byte of a payload in use is kept |
| KernelHeap.Heap.Kmalloc | src/mm/heap.c:18-53 | the same for kmalloc, with alignment 4; a single byte is asked for without alignment, and NULL is returned where kmalloc_alligned would panic |
| KernelHeap.Heap.JoinPrevious | src/mm/heap.c:159-167 | the released block joins the one before exactly when that is free |
| KernelHeap.Heap.JoinNext | src/mm/heap.c:169-175 | the result joins the one after exactly when that is free |
| KernelHeap.Heap.Kfree | src/mm/heap.c:153-176 | memory holds the released list, again well formed, with every byte of every other payload in use kept |
| KernelHeap.ServeAll | src/mm/heap.c:18-176 | every run of safe requests leaves in memory the blocks that the theorems are about, returns what first fit gives, and keeps every block in use that was not freed, no smaller, with every byte of its payload |
| KernelHeap.AlongKeepsBlock | src/mm/heap.c:18-176 | what that means for one block: its address is in use, and each of its bytes is what was stored there |
| BufferPool.HolderIs | src/fs/devfs/buffer.c:28-58 | a labelled buffer is the only one for its block, and its bytes are what a reader finds |
| BufferPool.WriteBackKeeps | src/fs/devfs/buffer.c:47-52 | writing a buffer back under its own label changes nothing that a reader finds |
| BufferPool.RelabelKeeps | src/fs/devfs/buffer.c:70-73 | relabelling a clean buffer changes nothing that a reader finds: no dirty data is lost |
| BufferPool.ModifyKeeps | src/fs/devfs/devfs.c:131-141 | changing a buffer marked dirty changes exactly the block it holds |
| BufferCache.Cache.constructor | src/fs/devfs/buffer.c:7-24 | init_buffer (B4): a hundred buffers, all unlabelled, unpinned, in chain 0 and on the free list in order |
| BufferCache.Cache.UnlinkFree | src/fs/devfs/buffer.c:41-46 | a buffer leaves the free list, at either end too (B3) |
| BufferCache.Cache.LinkFree | src/fs/devfs/buffer.c:96-112 | a buffer goes to the front, or for a directory to the back, of a free list that may be empty (B3) |
| BufferCache.Cache.UnlinkChain | src/fs/devfs/buffer.c:78-84 | B1: the victim leaves the chain it was in; all chains stay linked |
| BufferCache.Cache.LinkChain | src/fs/devfs/buffer.c:78-84 | it goes to the head of the chain of its new block number |
| BufferCache.Cache.ChainedByLowByte | src/fs/devfs/buffer.c:28 | a buffer is in the chain of the low byte of its block number, and in no other |
| BufferCache.Cache.FindBuffer | src/fs/devfs/buffer.c:28-58 | the chain walk ends, and finds the buffer that holds the block exactly when there is one |
| BufferCache.Cache.Evict | src/fs/devfs/buffer.c:59-85 | the eviction branch as a whole: the victim is the head of the free list, which loses just that; it is written to its place if it was dirty, and then holds the bytes of the new block, clean and pinned once |
| BufferCache.Cache.GetBlock | src/fs/devfs/buffer.c:26-86 | the bytes returned are those of the plain map, and every other buffer is as it was; a hit on a pinned buffer adds a pin and changes nothing else, one on an unpinned buffer takes just that off the free list, and a miss evicts the head of the list |
| BufferCache.Cache.PutBlock | src/fs/devfs/buffer.c:88-113 | one pin less, down to 0 (B2); the free list is as it was while pins remain, and else has the buffer in front, or at the back if it is a directory's |
| BufferCache.Cache.Modify | src/fs/devfs/devfs.c:131-141 | a store into a pinned buffer is a store into the plain map |
| BufferCache.EvictionAsWritten | src/fs/devfs/buffer.c:78-84 | without B1 eviction never leaves the buffers in chains by block number, whatever the victim and the block |
| BufferCache.UnlinkFreeAsWritten | src/fs/devfs/buffer.c:41-46 | without B3 taking a buffer off the free list leaves it a list if and only if the buffer was at neither end |
| BufferCache.PutAsWrittenExactly | src/fs/devfs/buffer.c:88-113 | without B2 the free list stays that of the buffers without pins exactly when the pin put was not the last |
| CacheRuns.Perform | src/fs/devfs/buffer.c:26-113 | one operation: what a request pins and shows, what a put gives back, what a store changes in the plain map |
| CacheRuns.Run | src/fs/devfs/buffer.c:26-113 | over every run each request shows the bytes of the plain map with every earlier store of the run replayed, and so does the cache at the end |
| CacheRuns.PinnedStays | src/fs/ext2/ext2.c:97-102 | over every run a buffer pinned and not put keeps its label, as bgdt_entries needs |
| CacheRuns.PinnedShows | src/fs/ext2/ext2.c:97-102 | and shows the bytes of its block |
| CacheRuns.PinsConserved | src/fs/devfs/buffer.c:26-113 | over every run a buffer has the pins it had, plus the requests that returned it, less the times it was put |
| CacheRuns.MissAll | src/fs/devfs/buffer.c:59-85 | blocks that are in no buffer, requested one after the other, are given the buffers of the free list in its order |
| CacheRuns.PutThenMiss | src/fs/devfs/buffer.c:59-112 | a regular buffer put for the last time is the one that the next miss returns |
| CacheRuns.PutDirectoryThenMiss | src/fs/devfs/buffer.c:59-112 | a directory's buffer put for the last time is returned only after every buffer that was free before it |
| BlockDevice.BdevRead | src/fs/devfs/devfs.c:83-112 | reads exactly [pos, pos + count) of the flat device and advances pos; pins end as they began and pinned buffers keep their labels; stays inside the buffers if and only if the position is a sector boundary or the request ends in its sector |
| BlockDevice.BdevWrite | src/fs/devfs/devfs.c:114-145 | writes exactly that range of the flat device and nothing else, with pins as in BdevRead, and stays inside the buffers on the same condition |
| BlockDevice.ReadMeans | src/fs/devfs/devfs.c:83-112 | byte k of dest is byte (pos + k) mod 512 of block (pos + k) / 512 of the device's minor number; behind the bytes read dest is as it was |
| BlockDevice.WrittenMeans | src/fs/devfs/devfs.c:114-145 | byte i of a block is that of src if 512 * block + i is in the range, and on every other block and device what it was |
| BlockDevice.ShiftedSectorOverruns | src/fs/devfs/devfs.c:95-108 | a concrete overrun: 512 bytes from position 1 |
| BlockDevice.WrittenIsRead | src/fs/devfs/devfs.c:83-145 | what has been written is what a read of the same range finds |
| ContextSwitch.Cpu.Pusha | src/switch.s:4 | PUSHAD lays out the eight registers in their fixed order, the stack pointer as it was before |
| ContextSwitch.Cpu.Save | src/switch.s:4-27 | the record holds every register as the caller had it, EIP the return address and ESP just past it |
| ContextSwitch.Cpu.Load | src/switch.s:28-49 | all eleven registers are those of the new record |
| ContextSwitch.Cpu.SwitchTask | src/switch.s:3-49 | the old record holds the caller's registers, the processor those of the new record; memory is otherwise unchanged but for the scratch words |
| ContextSwitch.SwitchedWords | src/switch.s:3-49 | which register goes to, and comes from, which offset of the two records, word by word, and which memory may change |
| Tasks.PreemptSpares | src/task.c:51-59 | a switch leaves record and stack of every thread but the one it stops untouched |
| Tasks.PreemptParks | src/task.c:51-59 | it parks that one with its registers, and its stack from its stack pointer up, as they were at the call |
| Tasks.StepKeeps | src/task.c:23-59 | every step keeps the layout and all parked threads resumable |
| Tasks.RunKeeps | src/task.c:23-59 | the same over every run; threads are only ever added at the end |
| Tasks.ResumesExactly | src/switch.s:3-49 | over every run: a thread resumes with each register and the flags as they were when it was switched away from, just past its two arguments on the stack, at its return address |
| Tasks.StartsAtEntry | src/task.c:23-39 | a created thread first runs at its entry point on an empty stack of its own, its general registers zero |
| Tasks.StepKeepsStackWord | src/task.c:23-59 | no step of any thread changes the word at offset 44 of a record, virtual_addr |
| Tasks.StackWordIsKept | src/task.c:23-59 | over every run that word of each created thread is the start of its stack, by which kthread_join frees it |
| Tasks.StartedRecord | src/task.c:23-39 | offset by offset, what kthread_create leaves in the record and in the link to it once its preempt has run |
| Tasks.RingKept | src/task.c:23-59 | every step keeps the next links joining the threads in order |
| Tasks.EveryRunFollows | src/task.c:23-59 | every run is a sequence of computations, creations and switches |
| Tasks.MovesDecide | src/task.c:51-59 | where a run stands in the ring depends only on its sequence of switches and creations |
| Tasks.SwitchesRotate | src/task.c:51-59 | with n threads, k switches move from position r to (r + k) mod n |
| Tasks.AheadIsReached | src/task.c:51-59 | a thread ahead is reached in exactly its distance, whatever is created meanwhile |
| Tasks.BehindIsReached | src/task.c:23-59 | one behind waits at most its ring distance and one switch for each thread created |
| Tasks.EveryThreadIsReached | src/task.c:23-59 | both, stated of the machine's runs: given that many switches, every thread gets the processor |
| ThreadRuns.SpawnKeeps | src/task.c:23-39 | the stack of a created thread is clear of all records and stacks because kalloc_page hands out pages that are not mapped |
| ThreadRuns.StacksStayApart | src/task.c:23-59 | over every run of computation, preempt, kthread_create, kalloc_page and kfree_page, records and stacks of all threads are apart |
| ThreadRuns.ThreadsRun | src/task.c:23-59 | such a run is a run of threads, so that the theorems on resumption and fairness hold of it |
| ThreadRuns.StackWordIsPage | src/task.c:33-48 | over every such run the word at 44 of each created thread is the page of its stack, and that page is mapped, so that kfree_page of it does not panic |
| Tasks.Scheduler.constructor | src/task.c:10-21 | init_tasking: the running code is the only thread of the ring, its flags and page directory saved, its registers unchanged |
| Tasks.Scheduler.Preempt | src/task.c:51-59 | preempt makes exactly the step that the theorems about runs are about |
| Tasks.Scheduler.KthreadCreate | src/task.c:23-39 | kthread_create: a page that was not mapped until then is the stack, clear of all others for that reason, and stands at offset 44 of the record, or the kernel panics; the new thread is enlisted, then the processor moves on |
| Tasks.Scheduler.Enlist | src/task.c:23-38 | record and link are stored; the ring in memory is that of the threads with the new one at the end |
| Tasks.Scheduler.FillRecord | src/task.c:24-36 | the new record holds zeros, entry point, flags, page directory, the page of its stack at 44 and the top of it as stack pointer; EBP is left as found |
| Tasks.Scheduler.Advance | src/task.c:54-57 | the choice of the next thread follows the ring |
| Frames.PassedMeans | src/mm/frame.c:22 | the test passes a frame exactly when it or a later one of its word is in use |
| Frames.ReleaseGroupMeans | src/mm/frame.c:46 | as written a free releases exactly the 32 frames of the word |
| Frames.ReleaseOneMeans | src/mm/frame.c:46 | with F1 it releases exactly the freed frame |
| Frames.PassedIsUsed | src/mm/frame.c:22 | on words of the form 2^k - 1 the scan passes exactly the frames in use |
| Frames.RunPrefixes | src/mm/frame.c:19-47 | as written every reachable word has the form 2^k - 1 |
| Frames.AllocationIsLowest | src/mm/frame.c:19-47 | as written, after any run, allocation gives the lowest free frame and panics only when all are in use |
| Frames.NeverReissued | src/mm/frame.c:19-34 | with holes, the frame found is never one in use, and a panic comes exactly when every frame is shadowed |
| Frames.HoleIsSkipped | src/mm/frame.c:19-34 | with F1 a hole may be skipped: a concrete map |
| Frames.RunOneKeepsLedger | src/mm/frame.c:19-47 | with F1, over every run, the bitmap is the set of frames issued and not taken back, and none of these is issued again |
| Bits.BitInNumbers | src/mm/frame.c:22 | a shift is a division by a power of two, and a bit the parity of the quotient |
| Bits.SetInNumbers | src/mm/frame.c:32-46 | setting a bit adds that power unless it is there, and clearing one takes it away |
| Frames.ScanInNumbers | src/mm/frame.c:19-34 | in numbers, the first frame whose word divided by two to its place in the word is zero; that power is added |
| Frames.ReleaseInNumbers | src/mm/frame.c:37-47 | with F1 a free takes just that power from the word |
| Frames.InitFrames | src/mm/frame.c:5-16 | init_frames leaves exactly the frames up to the kernel's end in use, and panics exactly when there are not as many |
| Frames.FrameMap.KallocFrame | src/mm/frame.c:19-34 | the frame at the end of the scan is marked and returned, or the kernel panics |
| Frames.FrameMap.KfreeFrame | src/mm/frame.c:37-47 | as written: the group is released, a frame out of range panics |
| Frames.FrameMap.KfreeOneFrame | src/mm/frame.c:37-47 | with F1: the frame is released, a frame out of range panics |
| Paging.MapKeeps | src/mm/paging.c:28-35 | mapping a frame not in use keeps present entries on distinct frames in use |
| Paging.UnmapKeeps | src/mm/paging.c:37-49 | so does unmapping, with F1 |
| Paging.UnmapAsWritten | src/mm/paging.c:37-49 | as written it does so exactly when no other page uses a frame of the same group |
| Paging.UnmapLosesNeighbour | src/mm/paging.c:37-49 | a concrete case: of two pages on frames 0 and 1, unmapping the second leaves the first on a frame marked free |
| Paging.Pager.constructor | src/mm/paging.c:11-26 | init_paging: entries are the kernel's frames one to one, in step with the bitmap |
| Paging.Pager.FindFreePage | src/mm/paging.c:51-60 | the first page that is not mapped, or a panic exactly when all are |
| Paging.Pager.KallocPage | src/mm/paging.c:28-35 | returns the page that was next, now mapped with flags 7; the new next page is the first that is not; when it panics |
| Paging.Pager.GetPhysAddr | src/mm/paging.c:62-74 | the lookup is 32-bit paging translation, panicking exactly for what is not mapped |
| Paging.Pager.KfreePage | src/mm/paging.c:37-49 | entry and frame are released together (F1) and the address is the next one handed out; a panic exactly for what is not mapped |
| Paging.TranslateMapped | src/mm/paging.c:62-74 | an address in a mapped page is its offset in the frame; no other page's translation changes |
| Paging.TranslateInNumbers | src/mm/paging.c:62-74 | which addresses are mapped, and to what, by the directory index 768, the ten bits of the table index and the twelve of the offset |
| Paging.BackedApart | src/mm/paging.c:28-35 | different pages are backed by different frames |
| Paging.Run | src/mm/paging.c:28-49 | every sequence of kalloc_page and kfree_page: which page each call returns, that it was not mapped, what it is mapped to, and which call panics |
| Paging.RunKeepsBacked | src/mm/paging.c:28-49 | over every run an address handed out stays mapped to its frame until its page is freed, no two on one page or one frame |
| Paging.FreeThenAllocate | src/mm/paging.c:28-49 | a freed page is the next one returned, and the panic comes exactly when the scan finds no frame among those then free, or no other page is free |
| Paging.IdentityTranslates | src/mm/paging.c:62-74 | while in step, a virtual address is its physical one plus the base |
| Paging.AllocateInStep | src/mm/paging.c:28-35 | with nothing freed the two allocators move on together |
| Paging.BootHeap | src/kernel.c:223-243 | the pages handed to kheap_init are consecutive, all mapped to frames of the same number, and begin with the first page that lies behind the kernel |
| Terminal.ScrollShows | src/kernel.c:123-138 | scrolling moves the window down one line |
| Terminal.Screen.constructor | src/kernel.c:63-77 | the screen starts as a window on the blank sheet: 2000 grey spaces, the rest of memory as it was |
| Terminal.Screen.Scroll | src/kernel.c:125-134 | the overlapping copy is nevertheless an exact move by one row: the extra cell never counts |
| Terminal.Screen.Put | src/kernel.c:90-139 | cell by cell: a backspace behind column 0 clears the cell before the pen and in column 0 does nothing, a character puts its code and the colour where the pen was and moves it on, a new line or a full one scrolls at the bottom, and no other cell changes; the screen is the bottom window of the sheet |
| Terminal.Screen.Write | src/kernel.c:164-168 | after every text the screen is the bottom window of the sheet that the text was written on without scrolling |
| Terminal.TextRunsOn | src/kernel.c:90-139 | a text without control characters moves the pen on by its length, in rows of 80 |
| Terminal.TextIsThere | src/kernel.c:90-139 | its i-th character is in the i-th cell from where the pen was, counted in rows of 80, with its code in the low byte and the colour in the high one |
| CStrings.Strlen | src/common.c:33-38 | the index of the first NUL |
| CStrings.Strncmp | src/common.c:50-60 | zero exactly when the first n bytes agree, and otherwise the difference of the first that do not; no byte is read past the end of either |
| Registry.RegisteredIsFound | src/fs/vfs/vfs.c:59-69 | prefix matching finds a registered name's own entry, unless its length is a multiple of 256: then it finds none |
| Registry.FoundMeans | src/fs/vfs/vfs.c:59-69 | what is found has the name asked for exactly when that name is registered |
| Registry.FoundExactly | src/fs/vfs/vfs.c:59-69 | in any list, an entry is the one found under its name if and only if something is left of the length in eight bits and no earlier name begins with that much of it |
| Registry.FoundByPrefix | src/fs/vfs/vfs.c:59-69 | character by character, the entry found is the first whose name has the first n characters of the one sought, n being its length in eight bits, and none if n is 0 |
| Registry.AppendKeeps | src/fs/vfs/vfs.c:71-84 | registering keeps the order that makes this exact, if and only if the test of register_filesystem passes, for names of any length |
| Registry.PrefixIsRefused | src/fs/vfs/vfs.c:71-84 | a concrete case: "ext" cannot be registered after "ext2" |
| Registry.RemoveKeeps | src/fs/vfs/vfs.c:86-101 | removing any entry keeps it |
| Registry.FileSystems.FindFileSystem | src/fs/vfs/vfs.c:59-69 | the slot that holds the first match, or the slot at the end of the list |
| Registry.FileSystems.RegisterFilesystem | src/fs/vfs/vfs.c:71-84 | appends exactly when the link is clear and nothing matches; the list stays one unless its last entry, with a name of a multiple of 256 characters, is registered again and follows itself |
| Registry.FileSystems.Unlink | src/fs/vfs/vfs.c:94-95 | the entry is out of the list, its link cleared, the others linked in order |
| Registry.FileSystems.UnregisterFilesystem | src/fs/vfs/vfs.c:86-101 | removes exactly that entry if it is listed, and mends one that follows itself; otherwise changes nothing |
| Registry.FileSystems.RegisterThenUnregister | src/fs/vfs/vfs.c:71-101 | unregistering undoes registering, even of an entry that followed itself in between; when registering succeeds |
| Registry.FileSystems.FindSuperBlock | src/fs/vfs/vfs.c:45-57 | the first superblock mounted of the filesystem found, or none exactly when there is none |
| Registry.EmptyNameFollowsItself | src/fs/vfs/vfs.c:71-84 | a concrete case: an entry with an empty name, registered twice |
| Ext2Address.InodeSectorIs | include/fs/ext2/ext2.h:32-44 | the macros as they expand, without wrap-around, in plain arithmetic |
| Ext2Address.InodeLocated | src/fs/ext2/ext2.c:71-94 | sector * 512 + offset is inode_table * block_size + index * inode_size |
| Ext2Address.InodesAreNumbered | include/fs/ext2/ext2.h:32-35 | inode group * inodes_per_group + 1 + k lies in that group, k places into its table |
| Ext2Address.InodeFields | src/fs/ext2/ext2.c:412-439 | permissions are bytes 0 and 1 of an inode and its size bytes 4 to 7 |
| Ext2Address.InodeStaysInSector | src/fs/ext2/ext2.c:87-90 | the 128 bytes copied never leave their sector |
| Ext2Address.InodesApart | include/fs/ext2/ext2.h:32-35 | different inodes of a group never overlap |
| Ext2Address.RealInodeBlockExact | include/fs/ext2/ext2.h:38-42 | REAL_INODE_BLOCK agrees with read_inode exactly for inodes in the first block of the table |
| Ext2Address.MacroPlace | src/fs/ext2/ext2.c:200-215 | where that macro puts any inode: each block of the table before it counts for one sector |
| Ext2Address.PowerOfTwoGeometry | src/fs/ext2/ext2.c:60-94 | all four for the power-of-two sizes that ext2 has |
| Ext2Address.NinthInodeIsMissed | include/fs/ext2/ext2.h:38-42 | a concrete case: inode 9 with 128-byte inodes in 1 KiB blocks |
| Ext2Address.ReadInode | src/fs/ext2/ext2.c:71-94 | returns the 128 bytes at inode_table * block_size + index * inode_size of the device, the index counted from inode 1, its buffer left pinned |
| Ext2Address.ChangeFileSize | src/fs/ext2/ext2.c:200-215 | writes four bytes and nothing else, with pins as they were; they are the inode's size field exactly when it lies in the first block of the table |
| Ext2Address.ChangeThenRead | src/fs/ext2/ext2.c:71-215 | the inode read back has the new size in its bytes 4 to 7 if it lies in the first block of its table, and the old one if not; nothing else in it has changed |
| Ext2Address.StoredIsRead | src/fs/ext2/ext2.c:212 | reading a four-byte field gives back what is stored there |
| Ext2Directory.WalkEntry | src/fs/ext2/ext2.c:428-446 | one turn of the inner loop finds, gives up or goes on as the listing says |
| Ext2Directory.EntryInBytes | src/fs/ext2/ext2.c:427-446 | an entry byte by byte: inode at 0 to 3, size at 4 and 5, name length at 6, name from 8 on |
| Ext2Directory.VisibleExactly | src/fs/ext2/ext2.c:427-447 | the entries looked at are those that stepping by the size fields visits, as long as the next is still in the sector |
| Ext2Directory.ListedExactly | src/fs/ext2/ext2.c:417-427 | a directory lists the visible entries of its blocks, up to the first that is zero, and no others |
| Ext2Directory.RunsOutExactly | src/fs/ext2/ext2.c:428-445 | the walk runs out of the directory's size if and only if the entries up to some one come to more, and none of these has the name |
| Ext2Directory.WalkSector | src/fs/ext2/ext2.c:427-448 | the inner loop ends, and goes through all entries of the sector up to the one that reaches its end |
| Ext2Directory.SizeBelowFirstEntry | src/fs/ext2/ext2.c:444-445 | a concrete directory whose size field is smaller than its first entry, on which the walk runs out of size |
| Ext2Lookup.CopyOfInode | src/fs/ext2/ext2.c:410-434 | put_block of read_inode gives the inode as it is on the device and leaves every pin as it was |
| Ext2Lookup.InodeIsThere | src/fs/ext2/ext2.c:71-94 | each byte of an inode as it lies on the device: block, and byte of the block, from the table of its group and its number |
| Ext2Lookup.DirectBlocksAt | src/fs/ext2/ext2.c:417-419 | direct block i is the four bytes from 40 + 4 * i on, low byte first |
| Ext2Lookup.BlockIsThere | src/fs/ext2/ext2.c:424 | sector k of a block is sector block * (block_size / 512) + k of the device |
| Ext2Lookup.WalkCached | src/fs/ext2/ext2.c:424-449 | one sector through the cache: a found name brings its inode, and only running out of size leaves the buffer pinned |
| Ext2Lookup.WalkBlock | src/fs/ext2/ext2.c:422-450 | the loop over the sectors of a block, in terms of its visible entries |
| Ext2Lookup.WalkDirectory | src/fs/ext2/ext2.c:417-452 | the loop over the twelve direct blocks, to the first that is zero |
| Ext2Lookup.AnswersExactly | src/fs/ext2/ext2.c:403-453 | a lookup succeeds exactly when an entry in use has the name and the entries before it come to no more than the directory's size; it gives the number of the first, and size and permissions from the bytes of its inode |
| Ext2Lookup.Lookup | src/fs/ext2/ext2.c:403-453 | ext2_lookup gives number, size and permissions of the first such entry's inode; the device is unchanged; a buffer stays pinned if and only if no reached entry has the name and the entries exceed the directory's size |

## Left out

- KernelHeap.Heap.KmallocAligned: for safe requests (SafeRequest); what a misjudged block does to the headers is not modelled, beyond that such a block can be split off from itself. A realigned first block must leave room for a header (H1).
- KernelHeap.Heap.Kfree: takes the number of the block besides its address; a pointer that is no payload is the caller's error.
- The header's `used` flag is a four-byte field here; it is a bool in a four-byte slot in the original.
- The buffer cache: buffers are numbers and their links are arrays, field by field, rather than objects on the heap; a buffer's bytes change as one sequence.
- BufferCache.Cache.GetBlock: for the device numbers in use, of which no two have the same minor number, because find_bdev compares minor numbers only and two numbers for one device would be two labels for one block; and only while a buffer is free or already holds the block, as the original follows a null pointer otherwise.
- BlockDevice.BdevRead: `ok` is false where the original would run off the end of a buffer; what happens then is not modelled.
- BlockDevice.BdevWrite: the same.
- ContextSwitch.Cpu.SwitchTask: stack and records are word-aligned and apart, addresses do not wrap, all threads share one address space so that CR3 does not change what an address means, and POPF loads every flag.
- Tasks.Scheduler.Preempt: the running stack has 64 bytes to spare; stack overflow is not modelled.
- Tasks.Scheduler.KthreadCreate: the record, which the caller provides, lies in mapped memory that no thread uses, and the next page starts on a page boundary; interrupts do not occur inside the switch.
- kthread_join: as written it does not unlink the thread it is given.
- Frames.InitFrames: the map starts out zero, and there is memory, but no more than the map has bits for.
- Paging.Pager.constructor: the kernel ends in the first 4 MiB; the original writes past its page table otherwise.
- Paging.Pager.KfreePage: frees by single frame (F1); the effect of the free as written is UnmapAsWritten.
- One page table only: alloc_page_table and other directories are not modelled.
- Ext2Address.InodeSectorIs: inode tables that end within 2^32 bytes of the table's start and 2^32 sectors of the device.
- Ext2Lookup.Lookup: for sectors that the walk can step through (each entry it looks at has a size above 0 and its name in the sector; the last may lie across the end), whose entries name inodes of the filesystem, with a buffer to be had for each sector and, while that is pinned, for the inode of each entry, and fewer than 256 sectors to a block (the counter has eight bits); lengths below zero are not modelled.
- krealloc, kcalloc: they offset the pointer by the header twice, and the first frees before it copies.
- kfree_block: kfree without the header arithmetic, used by krealloc only.
- ext2_read, ext2_write, write_file, read_file, alloc_inode, ext2_read_inode: sector and direct-block indices are mixed, or results are not initialised; the stream claims are those of bdev_read and bdev_write.
- Device drivers, port I/O, the partition table: disk reads and writes are those of a map from blocks to bytes.
- Boot code, descriptor tables, interrupts, system calls, the clock, and console tracing inside other functions.
