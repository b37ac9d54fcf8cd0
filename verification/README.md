# Kernel state that must agree with something simpler

This project models six pieces of the kernel in which a fast or concurrent structure has to agree with a simple one,
and proves that it does, for every input, every run and every interleaving.

| file | what it models | what it is measured against |
|---|---|---|
| `Bits.dfy`, `BuddyBlocks.dfy` | powers of two, XOR buddies, splitting and merging of aligned blocks | sets of units; the unique canonical set of blocks |
| `FrameAllocator.dfy` | the frame allocator with one ordered set per order | the partition of the frames added |
| `BuddyHeap.dfy` | the heap whose free lists are chains of words inside the free memory | sequences of addresses; the partition of the bytes added |
| `TlbShootdown.dfy` | deferred and synchronous TLB invalidation on RISC-V and LoongArch | the versions of the page tables |
| `RemoteFence.dfy` | the remote fence at the end of a RISC-V shootdown | the set of target harts |
| `IdleWakeup.dfy` | idle bits, claims and interrupts | the tasks that wait |
| `BlockCache.dfy`, `BlockRange.dfy`, `VirtioBlock.dfy` | the LRU index, cached, batched and unaligned reads, writes, sectors | a plain LRU list; the bytes of the device |
| `MemFile.dfy` | the file that is a vector when short and a vector of chunks with holes when long | one flat sequence of bytes |
| `Pipe.dfy`, `FdTable.dfy` | pipes, event counters and the descriptor table | the bytes accepted and delivered; the live endpoints; the full scans |
| `ReservationTracker.dfy` | reservation slots locked by a state bit, shared by any number of threads | the calls of the run: what they reported, and how they ended |

Objects that the kernel updates in place are classes whose methods are proved against functions of the old state.
The concurrent protocols are state machines in which each access to a shared word, or each critical section of a
lock, is one step; a run interleaves any number of participants in any order, and the main results are about all
runs. They are stated about the calls that the run contains: the state at the call, the arguments of the call and the
steps taken since, not only the records that the protocol itself keeps. Where a predicate is written
`forall g :: SomeGuard(g, ...) ==> ...`, the guard only keeps the solver from opening the predicate until a lemma
asserts `SomeGuard(Key, ...)`; it changes nothing in the meaning.

## Results that say where the code differs from what one would expect

* A range of frames that starts at 0 is cut with a fixed lowest bit of 32, so it can start with two free siblings
  (`PairAtZero`); `DecomposeCanonicalIff` says exactly when.
* The documentation of the frame allocator promises blocks of up to 2^ORDER frames. The top order of the code is
  ORDER - 1, and because its merge loop runs one order further than that of the heap it drops two free top-order
  siblings (`TopSiblingsAreLost`). `DeallocPowerOfTwo` says exactly when this happens to one release, and
  `FrameConservationIff` that it can happen exactly when two such siblings are managed.
* "As long as an eligible CPU sleeps and a task waits, a notification is on its way" does not hold: the notified CPU
  may take a newer task (`DispatchCanLeaveBehind`), and an interrupt may be taken between enabling interrupts and the
  wait instruction, which are two instructions, so that the notification is consumed before the CPU sleeps
  (`GapLosesTheNotification`). `StepKeepsIff` names exactly the steps that lose a wakeup, `NoLostNotification` is what
  holds of every run without them, and `DispatchKeepsPromptIff` and `TakeIpiKeepsPromptIff` give the exact conditions
  of the stronger claim.
* A cached read asks for up to sixteen blocks at once. In a range that ends past the device, as a partition entry can
  say, this request fails for a block that is readable on its own: `read_offset` returns zeros where
  `read_cached_blocks` returns the device bytes (`RangePastTheDevice`). `ReadAheadFitsIff` and `OffsetReadIsExactIff`
  give the exact conditions.
* A sector write whose preparatory read fails overwrites the rest of its sectors with zeros; `WriteIsExactIff` says
  exactly when a write changes the given bytes only. Coherence survives this if and only if the range starts on a
  sector boundary (`AlwaysCoherent`, `UnalignedStartGoesStale`), as both users of a range make it do.
* Coherence also needs keys that are multiples of the block size, which `read_cached_blocks` does not check
  (`UnalignedKeyGoesStale`).
* After the age counter has wrapped, the evicted block need not be the least recently used one: every full cache in
  which no block of age 1 is left then evicts the block it used last (`EvictsTheBlockUsedLast`). `LeastIsFirstIff` gives
  the exact condition.

## Model

| member | source | states |
|---|---|---|
| `Bits.PrevPow2Bounds` | offline_crate_sources/buddy_system_allocator/src/lib.rs:343-345 | `prev_power_of_two` is the power of two with the exponent `Log2`, at most the number and more than half of it |
| `BuddyBlocks.BuddyHalves` | offline_crate_sources/buddy_system_allocator/src/frame.rs:156-160 | the XOR buddy is aligned, an involution, never the block itself, shares the parent, and the two siblings are exactly the halves of the parent |
| `BuddyBlocks.HalvesAreBuddies` | offline_crate_sources/buddy_system_allocator/src/frame.rs:106-115 | the halves of an aligned block are aligned siblings whose common parent is the block |
| `BuddyBlocks.FullRangeInOneBlock` | offline_crate_sources/buddy_system_allocator/src/lib.rs:163-192 | in a canonical set of blocks a fully covered aligned range lies inside one block |
| `BuddyBlocks.CanonicalUnique` | offline_crate_sources/buddy_system_allocator/src/lib.rs:163-192 | two canonical sets of disjoint aligned blocks that cover the same units are equal |
| `BuddyBlocks.CarveKeeps` | offline_crate_sources/buddy_system_allocator/src/frame.rs:106-125 | splitting down and taking out the left part keeps free and live blocks disjoint, aligned and covering the same units, and the part taken was not live |
| `BuddyBlocks.CarveCanonical` | offline_crate_sources/buddy_system_allocator/src/frame.rs:106-125 | splitting creates no free sibling pair below the top order |
| `BuddyBlocks.MergeUpKeeps` | offline_crate_sources/buddy_system_allocator/src/lib.rs:163-192 | absorbing free buddies upwards keeps the blocks disjoint and aligned and covers exactly the same units plus the released block |
| `BuddyBlocks.MergeUpCanonical` | offline_crate_sources/buddy_system_allocator/src/lib.rs:163-192 | absorbing free buddies keeps the free set without sibling pairs below the limit |
| `BuddyBlocks.GiveCounts` | offline_crate_sources/buddy_system_allocator/src/lib.rs:156-196 | a release adds exactly the size of the block to the free units and keeps the canonical form |
| `BuddyBlocks.TakeFacts` | offline_crate_sources/buddy_system_allocator/src/lib.rs:115-153 | an allocation moves exactly the size of the block from the free to the live units and keeps partition and canonical form |
| `BuddyBlocks.ApplyKeeps` | offline_crate_sources/buddy_system_allocator/src/lib.rs:115-196 | one allocation or release keeps the pool invariant, the cover and the total number of units |
| `BuddyBlocks.RunKeeps` | offline_crate_sources/buddy_system_allocator/src/lib.rs:115-196 | the same over every run of allocations and releases |
| `BuddyBlocks.HistoryIndependence` | offline_crate_sources/buddy_system_allocator/src/frame.rs:100-168 | two runs from one canonical pool whose live blocks cover the same units end with equal free sets |
| `BuddyBlocks.FreeingAllRestores` | offline_crate_sources/buddy_system_allocator/src/frame.rs:100-168 | after any run that frees everything it allocated, in any order, the free set is exactly the original one |
| `RangeDecomposition.ChunkFacts` | offline_crate_sources/buddy_system_allocator/src/frame.rs:58-72 | the next chunk of a range is a positive power of two of bounded order, aligned at the cursor, and inside the range |
| `RangeDecomposition.DecomposePartition` | offline_crate_sources/buddy_system_allocator/src/frame.rs:52-75 | the blocks cut from a range are aligned, disjoint, cover exactly the range and add up to its length |
| `RangeDecomposition.DecomposeCanonicalIff` | offline_crate_sources/buddy_system_allocator/src/frame.rs:58-72 | the cut has no mergeable sibling pair if and only if the range does not start at 0 and reach 64 with more than 6 orders |
| `RangeDecomposition.PairAtZero` | offline_crate_sources/buddy_system_allocator/src/frame.rs:62-62 | the failing family: such a range is cut with the sibling pair 0 and 32 of order 5 |
| `FrameAllocators.FrameMergeIsMergeUp` | offline_crate_sources/buddy_system_allocator/src/frame.rs:149-168 | while the merge chain stays below the top, the loop to `len()` computes the same free set as a loop to `len() - 1` |
| `FrameAllocators.FrameMergeDrops` | offline_crate_sources/buddy_system_allocator/src/frame.rs:155-165 | when the chain leaves the top order, exactly the two top-order siblings disappear |
| `FrameAllocators.NoTopSiblingsNoLoss` | offline_crate_sources/buddy_system_allocator/src/frame.rs:149-168 | if no two sibling top-order blocks are managed, no merge chain leaves the top order |
| `FrameAllocators.FrameAllocator.constructor` | offline_crate_sources/buddy_system_allocator/src/frame.rs:43-49 | an empty allocator |
| `FrameAllocators.FrameAllocator.AddFrame` | offline_crate_sources/buddy_system_allocator/src/frame.rs:52-75 | adds exactly the blocks of the range and its length; an inverted range is refused without a change |
| `FrameAllocators.FrameAllocator.InsertRange` | offline_crate_sources/buddy_system_allocator/src/frame.rs:58-72 | the cutting loop inserts exactly the decomposition |
| `FrameAllocators.FrameAllocator.AllocPowerOfTwo` | offline_crate_sources/buddy_system_allocator/src/frame.rs:100-129 | fails exactly when no order at or above the needed one has a block; otherwise takes the least block of the first nonempty order, splits it down, keeps the cover and the canonical form |
| `FrameAllocators.FrameAllocator.FindOrder` | offline_crate_sources/buddy_system_allocator/src/frame.rs:102-104 | the scan finds the first nonempty order |
| `FrameAllocators.FrameAllocator.SplitDown` | offline_crate_sources/buddy_system_allocator/src/frame.rs:106-125 | the split loop always splits the block it has just produced, so its failure returns are unreachable |
| `FrameAllocators.FrameAllocator.SplitLeast` | offline_crate_sources/buddy_system_allocator/src/frame.rs:107-111 | one turn replaces the least block of an order by its two halves |
| `FrameAllocators.FrameAllocator.DeallocPowerOfTwo` | offline_crate_sources/buddy_system_allocator/src/frame.rs:149-168 | frees the block; every frame stays covered if and only if the merge chain does not leave the top order, and the frames lost otherwise are counted |
| `FrameAllocators.FrameAllocator.MergeFrom` | offline_crate_sources/buddy_system_allocator/src/frame.rs:153-165 | the merge loop computes `FrameMerge` |
| `FrameAllocators.ReleaseFacts` | offline_crate_sources/buddy_system_allocator/src/frame.rs:149-168 | what a release does to partition, cover, number of units and canonical form, with and without a loss |
| `FrameAllocators.TopSiblingsAreLost` | offline_crate_sources/buddy_system_allocator/src/frame.rs:155-165 | a concrete allocator with two managed top-order siblings that loses both |
| `FrameAllocators.FrameConservation` | offline_crate_sources/buddy_system_allocator/src/frame.rs:100-168 | over every run without managed top-order siblings free and live frames partition exactly the added ones |
| `FrameAllocators.SomeRunLoses` | offline_crate_sources/buddy_system_allocator/src/frame.rs:100-168 | from every pool, with whatever is allocated and free, that manages an aligned pair of top-order siblings, some run of takes and gives loses frames |
| `FrameAllocators.FrameConservationIff` | offline_crate_sources/buddy_system_allocator/src/frame.rs:149-168 | every run conserves the frames if and only if no aligned pair of top-order siblings is managed |
| `FrameAllocators.FrameFreeingAllRestores` | offline_crate_sources/buddy_system_allocator/src/frame.rs:100-168 | from a canonical start such a run that frees all it allocated restores exactly the free sets |
| `IntrusiveLists.ChainAcyclic` | offline_crate_sources/buddy_system_allocator/src/linked_list.rs:13-66 | a chain written into memory that ends in the null word visits no address twice |
| `IntrusiveLists.ChainUnique` | offline_crate_sources/buddy_system_allocator/src/linked_list.rs:13-66 | memory and head determine the chain |
| `IntrusiveLists.ChainPush` | offline_crate_sources/buddy_system_allocator/src/linked_list.rs:33-36 | writing the old head into the new node puts it in front of the chain |
| `IntrusiveLists.ChainUnlink` | offline_crate_sources/buddy_system_allocator/src/linked_list.rs:102-110 | copying the word of a node over the link to it removes exactly that node |
| `IntrusiveLists.ChainFrame` | offline_crate_sources/buddy_system_allocator/src/linked_list.rs:33-49 | a store outside the nodes of a chain leaves the chain alone |
| `BuddyHeaps.BlockSizeFacts` | offline_crate_sources/buddy_system_allocator/src/lib.rs:116-119 | the block size of a layout is the least power of two that is at least the size, the alignment and a word |
| `BuddyHeaps.Heap.constructor` | offline_crate_sources/buddy_system_allocator/src/lib.rs:65-77 | an empty heap |
| `BuddyHeaps.Heap.Push` | offline_crate_sources/buddy_system_allocator/src/linked_list.rs:33-36 | pushes a node in front of one list; all other chains are untouched |
| `BuddyHeaps.Heap.Pop` | offline_crate_sources/buddy_system_allocator/src/linked_list.rs:39-49 | takes the first node of a list, or nothing from an empty one |
| `BuddyHeaps.Heap.Unlink` | offline_crate_sources/buddy_system_allocator/src/linked_list.rs:119-141 | the mutable iterator finds the node if it is there and unlinks exactly it |
| `BuddyHeaps.Heap.UnlinkAt` | offline_crate_sources/buddy_system_allocator/src/linked_list.rs:104-110 | `ListNode::pop` through the previous word or the head |
| `BuddyHeaps.WholeWordBytesAre` | offline_crate_sources/buddy_system_allocator/src/lib.rs:80-84 | the bytes of a range whose whole word lies in the range, told by the only multiple of 8 that is at most seven bytes below |
| `BuddyHeaps.RoundedBounds` | offline_crate_sources/buddy_system_allocator/src/lib.rs:82-84 | rounding the start up and the end down encloses exactly these bytes; there are as many as the bounds are apart |
| `BuddyHeaps.Heap.AddToHeap` | offline_crate_sources/buddy_system_allocator/src/lib.rs:80-107 | the managed bytes grow by exactly the bytes of [start, end) whose whole word lies in the range and `total` by their number; they become the blocks of the decomposition; a range whose rounded ends cross is refused |
| `BuddyHeaps.Heap.PushRange` | offline_crate_sources/buddy_system_allocator/src/lib.rs:86-104 | the cutting loop pushes exactly the decomposition |
| `BuddyHeaps.Heap.Alloc` | offline_crate_sources/buddy_system_allocator/src/lib.rs:115-153 | fails exactly when no list at or above the needed order has a block; otherwise the block is aligned to its size, disjoint from every live block, counted in `user` and `allocated`, and the lists are the result of splitting the head of the first nonempty list |
| `BuddyHeaps.Heap.SplitDown` | offline_crate_sources/buddy_system_allocator/src/lib.rs:125-142 | the split loop pops the block it has just pushed, so its failure return is unreachable |
| `BuddyHeaps.Heap.SplitHead` | offline_crate_sources/buddy_system_allocator/src/lib.rs:126-131 | one turn replaces the head of a list by its two halves in the list below |
| `BuddyHeaps.Heap.Dealloc` | offline_crate_sources/buddy_system_allocator/src/lib.rs:156-196 | a live block returns to the free lists merged with its free buddies; `user` and `allocated` drop by its sizes; free and live blocks still partition the added bytes |
| `BuddyHeaps.Heap.MergeFrom` | offline_crate_sources/buddy_system_allocator/src/lib.rs:163-192 | the merge loop terminates with the free set that absorbing buddies below the top order gives |
| `BuddyHeaps.Heap.MergeHead` | offline_crate_sources/buddy_system_allocator/src/lib.rs:172-190 | in every turn the head is the block being merged: unlinking the buddy and popping the head removes exactly the two siblings and leaves the rest of the chain |
| `BuddyHeaps.Heap.UserStore` | offline_crate_sources/buddy_system_allocator/src/lib.rs:115-153 | a store of the owner into a live block disturbs no free list |
| `BuddyHeaps.AccountsTake` | offline_crate_sources/buddy_system_allocator/src/lib.rs:115-153 | the three counters and the partition after an allocation |
| `BuddyHeaps.AccountsGive` | offline_crate_sources/buddy_system_allocator/src/lib.rs:156-196 | the three counters and the partition after a release |
| `RiscvShootdown.StepKeeps` | os/src/platform.rs:493-600 | every step of every CPU and shooter keeps the invariant of the deferred shootdown |
| `RiscvShootdown.RunKeeps` | os/src/platform.rs:493-600 | so does every interleaving |
| `RiscvShootdown.CallIsRecorded` | os/src/platform.rs:541-600 | whatever happens after a call, the shootdown in progress is that of the CPU and the root of the call, measured against the page table at the call |
| `RiscvShootdown.ShootdownIsSafe` | os/src/platform.rs:493-600 | take any interleaving with a call of a shootdown in it: in every later state in which this call has returned, no other CPU that runs the root of the call caches a translation older than the page table was at the call |
| `RiscvShootdown.OldTranslationsAreFlushed` | os/src/platform.rs:493-600 | said of the steps alone: if a CPU fills a translation, the page table changes, and then a shootdown is called and returns, a CPU that runs the root has flushed its TLB since the fill |
| `RiscvShootdown.ShootdownAdvances` | os/src/platform.rs:541-600 | until a shootdown has returned it can take a step of its own, whatever the other CPUs do, and each such step brings it nearer to its return |
| `RiscvShootdown.EqualGenerationsMeanFlushed` | os/src/platform.rs:493-505 | if a request has been stored at a CPU and its request equals its acknowledgement, the CPU has flushed its TLB since that store, in whatever order the generations were stored |
| `LoongarchShootdown.StepKeeps` | os/src/platform.rs:601-652 | every step keeps the invariant of the acknowledged shootdown |
| `LoongarchShootdown.RunKeeps` | os/src/platform.rs:601-652 | so does every interleaving |
| `LoongarchShootdown.CallIsRecorded` | os/src/platform.rs:601-652 | the shootdown in progress stays that of its call |
| `LoongarchShootdown.ShootdownIsSafe` | os/src/platform.rs:601-652 | in every later state in which a call of a LoongArch shootdown has returned, no other online CPU that runs the root of the call caches a translation older than the page table was at the call |
| `LoongarchShootdown.OldTranslationsAreFlushed` | os/src/platform.rs:601-652 | said of the steps alone: a translation filled before the change of the page table has been flushed once the shootdown called after the change has returned |
| `LoongarchShootdown.WaitEndsSafely` | os/src/platform.rs:626-651 | when the wait of a call for a target ends, the target caches nothing of the root older than the call, or is offline, or has left the root with a request unequal to its acknowledgement |
| `RemoteFences.MaskBase` | os/src/platform.rs:565-572 | the loop finds the least hardware identifier of the targets, or none |
| `RemoteFences.MaskFrom` | os/src/platform.rs:574-587 | the mask fits if and only if all identifiers are within one word of the base, and then names exactly the targets |
| `RemoteFences.FenceEach` | os/src/platform.rs:591-597 | the fallback names exactly the targets |
| `RemoteFences.HartsAreNamed` | os/src/platform.rs:563-600 | without an all-ones base the harts of some calls, in the meaning of section 8.2 of the RISC-V SBI Specification 1.0, are exactly those named by a bit of a mask added to its base |
| `RemoteFences.Fence` | os/src/platform.rs:563-600 | however the identifiers are spread, the calls name exactly the targets among the CPUs whose identifier is not all ones; every mask fits a word and no base is all ones |
| `IdleWakeup.StepKeepsIff` | os/src/task/mod.rs:1739-1753 | a step of a CPU or publisher keeps the idle invariant if and only if it is none of the two steps, both between enabling interrupts and the wait instruction, that lose a wakeup |
| `IdleWakeup.TakeIpiKeepsIff` | os/src/trap/mod.rs:248-251 | taking an interrupt keeps the invariant exactly when the CPU is not armed, or still claimed, or keeps its idle bit with no task relying on it |
| `IdleWakeup.LoadMaskKeepsIff` | os/src/platform.rs:440-449 | deciding to claim nobody keeps the invariant exactly when the publisher is not itself an eligible unnotified sleeper |
| `IdleWakeup.BrokenByALostWakeup` | os/src/task/mod.rs:1739-1753 | in every run that breaks the invariant the first step to do so is one of those two |
| `IdleWakeup.RunKeeps` | os/src/platform.rs:440-468 | every run without such a step keeps the invariant |
| `IdleWakeup.TasksArePublications` | os/src/platform.rs:435-459 | over every run the tasks are the publications of the run in order, with their publishers and eligible CPUs, and each waits exactly until it is dispatched |
| `IdleWakeup.DispatchedOnce` | os/src/task/mod.rs:1686-1709 | no task is dispatched twice, or before it is published, or by a CPU that was not eligible when it was published |
| `IdleWakeup.NoLostNotification` | os/src/platform.rs:435-459 | on every run without such a step: if a CPU sleeps unnotified that is eligible for a publication of the run which no CPU has dispatched, and the notification has been decided, then the publisher claimed another CPU eligible for it and that one does not sleep |
| `IdleWakeup.NotifyAlone` | os/src/platform.rs:435-459 | a notification that nothing interrupts returns: without another idle eligible CPU it changes nothing, otherwise it clears the idle bit of the lowest one and interrupts it |
| `IdleWakeup.DispatchKeepsPromptIff` | os/src/task/mod.rs:1686-1709 | the stronger claim (some eligible CPU is about to look) survives a dispatch if and only if the dispatcher is not the only attentive CPU of another such task |
| `IdleWakeup.TakeIpiKeepsPromptIff` | os/src/trap/mod.rs:248-251 | the stronger claim survives an interrupt if and only if the CPU does not lose its only notification before the wait instruction while it is the only attentive CPU of a task |
| `IdleWakeup.OtherStepsKeepPrompt` | os/src/platform.rs:440-468 | every other step that loses no wakeup keeps the stronger claim |
| `IdleWakeup.CarefulRunsStayPrompt` | os/src/platform.rs:435-468 | so it holds over every run without such dispatches and interrupts |
| `IdleWakeup.DispatchCanLeaveBehind` | os/src/platform.rs:440-459 | a concrete run in which the stronger claim fails: the woken CPU takes a newer task |
| `IdleWakeup.GapLosesTheNotification` | os/src/task/mod.rs:1739-1753 | a concrete run in which an interrupt taken between enabling interrupts and the wait instruction is lost |
| `BlockCaches.LeastIsFirst` | os/src/fs/block_dev.rs:73-78 | until the counter wraps the least pair of the index is the least recently used block |
| `BlockCaches.LeastIsFirstIff` | os/src/fs/block_dev.rs:73-78 | wrapped or not, the least pair is the least recently used block if and only if no cached block has a smaller age |
| `BlockCaches.ListingLength` | os/src/fs/block_dev.rs:64-87 | the recency list has one entry per cached block |
| `BlockCaches.BlockCache.constructor` | os/src/fs/block_dev.rs:41-47 | an empty cache |
| `BlockCaches.BlockCache.BumpAge` | os/src/fs/block_dev.rs:49-53 | the age counter advances, wraps to 1 and keeps the index valid |
| `BlockCaches.BlockCache.Get` | os/src/fs/block_dev.rs:55-62 | a hit returns the cached data and becomes the most recently used block; a miss changes nothing but the counter |
| `BlockCaches.BlockCache.Insert` | os/src/fs/block_dev.rs:64-87 | the block is cached with its data and the current age; only a full cache evicts, only the block of the least pair, and that is the least recently used one if and only if the ages say so, as they do before a wrap |
| `BlockCaches.BlockCache.EvictOldest` | os/src/fs/block_dev.rs:73-78 | the eviction of a full cache |
| `BlockCaches.BlockCache.Remove` | os/src/fs/block_dev.rs:102-104 | removes one block and its pair |
| `BlockCaches.BlockCache.InvalidateRange` | os/src/fs/block_dev.rs:89-110 | removes exactly the aligned blocks that overlap the range, keeps data and ages of all others, and clears the cache when the end overflows |
| `BlockCaches.BlockCache.RemoveBlocks` | os/src/fs/block_dev.rs:98-109 | the loop terminates having removed exactly the aligned blocks from the first to the last |
| `BlockCaches.InvalidatedIsKept` | os/src/fs/block_dev.rs:89-110 | the blocks of that loop are exactly the aligned blocks that meet the range |
| `BlockCaches.EvictsTheBlockUsedLast` | os/src/fs/block_dev.rs:49-87 | every full cache whose counter is about to wrap evicts the block it used last: the run of two uses and an insertion |
| `BlockRanges.CheckedAbsRange` | os/src/fs/block_dev.rs:133-141 | a position is given if and only if the request and the position do not overflow and the request ends inside the length of the range when there is one; it is the start plus the offset |
| `BlockRanges.ReadAheadIs` | os/src/fs/block_dev.rs:220-226 | a missed read asks for the n-th block, up to the sixteenth, if and only if the range has a length and that block ends inside it |
| `BlockRanges.ReadAheadFitsIff` | os/src/fs/block_dev.rs:220-231 | the request of a missed read succeeds if and only if its first block is readable and the blocks read ahead end on the device |
| `BlockRanges.RangePastTheDevice` | os/src/fs/block_dev.rs:220-231 | a range longer than the device: a readable block whose missed read gives zeros |
| `BlockRanges.OffsetReadIsExactIff` | os/src/fs/block_dev.rs:337-363 | a read at an offset gives the device bytes if and only if each covering block is cached, unreadable, read ahead within the device or by the other one, or the bytes asked of it are zero |
| `BlockRanges.SecondIs` | os/src/fs/block_dev.rs:347-361 | what the second covering block reads as, after the first one has filled the cache |
| `BlockRanges.BlockRange.constructor` | os/src/fs/block_dev.rs:123-131 | a range with an empty cache |
| `BlockRanges.BlockRange.ReadRawAt` | os/src/fs/block_dev.rs:143-146 | what a raw read returns is what the device holds; a healthy device fails only outside |
| `BlockRanges.BlockRange.ReadCachedBlock` | os/src/fs/block_dev.rs:183-247 | on a healthy device a block reads as the bytes of the device if it ends inside the length of the range and on the device and is cached or the blocks read ahead end on the device, and as zeros otherwise; before a wrap the whole run is cached afterwards; the cache stays coherent |
| `BlockRanges.BlockRange.InsertRun` | os/src/fs/block_dev.rs:240-245 | the loop that caches the blocks read ahead keeps the cache coherent, and before a wrap of the ages none of them is evicted by the others |
| `BlockRanges.BlockRange.ReadCachedBlocks` | os/src/fs/block_dev.rs:249-333 | for any offsets, aligned or not, in any order and with repetitions: each result is the block of the device at the start plus the offset; on a healthy device the batch succeeds if and only if every block ends inside the length of the range and on the device |
| `BlockRanges.BlockRange.LookUpAll` | os/src/fs/block_dev.rs:276-291 | a pass over the missing offsets adds only device content |
| `BlockRanges.BlockRange.FindRunEnd` | os/src/fs/block_dev.rs:299-306 | the run is the longest stretch of adjacent missing blocks |
| `BlockRanges.BlockRange.FetchRun` | os/src/fs/block_dev.rs:308-326 | one request serves a run, and on a healthy device fails only when its last block is not readable |
| `BlockRanges.BlockRange.StoreRun` | os/src/fs/block_dev.rs:320-325 | each block of the run is stored at its own place, even when the cache evicts it at once |
| `BlockRanges.OffsetShows` | os/src/fs/block_dev.rs:337-363 | each of the two parts of an unaligned read is the bytes of its block on the device, if that block is inside the range and on the device and is cached or read ahead within the device, and zeros otherwise |
| `BlockRanges.HalvesJoin` | os/src/fs/block_dev.rs:347-361 | when the needed blocks are in the range and the blocks read ahead of them end on the device, the parts join to the bytes of the device at the offset |
| `BlockRanges.BlockRange.ReadOffset` | os/src/fs/block_dev.rs:337-363 | on a healthy device: each part of the result is device bytes or zeros under the arithmetic conditions of `OffsetShows`, in both directions; under those of `HalvesJoin` the result is the device bytes at the start plus the offset; before a wrap it is exact under the condition of `OffsetReadIsExactIff` |
| `BlockRanges.BlockRange.ReadUnaligned` | os/src/fs/block_dev.rs:342-362 | the loop over the two covering blocks, also where the position saturates |
| `BlockRanges.ViewBytesAreDeviceBytes` | os/src/fs/block_dev.rs:337-363 | with both covering blocks readable these are exactly the device bytes at that offset |
| `BlockRanges.WriteArithmetic` | os/src/fs/block_dev.rs:148-151 | a nonempty write succeeds only, and on a healthy device always, when it ends inside the length of the range and on the device; then its bytes are there; on a healthy device no other byte changes |
| `BlockRanges.BlockRange.WriteAt` | os/src/fs/block_dev.rs:164-181 | drops exactly the overlapping cached blocks; succeeds under the arithmetic condition of `WriteArithmetic` and then leaves exactly the given bytes; with aligned keys and a start on a sector boundary the cache stays coherent whatever the driver does to the touched sectors |
| `BlockRanges.BlockRange.WriteRawAt` | os/src/fs/block_dev.rs:148-151 | the request to the driver, with the failures of its preparatory read and of its write |
| `BlockRanges.CoherentAfterWrite` | os/src/fs/block_dev.rs:89-110 | blocks that survive an invalidation still equal the device after any change of the touched sectors, when keys are aligned and the range starts on a sector boundary |
| `BlockRanges.UnalignedStartGoesStale` | os/src/fs/block_dev.rs:123-131 | for every start that is not on a sector boundary, a write whose preparatory read fails leaves a neighbouring cached block stale |
| `BlockRanges.UnalignedKeyGoesStale` | os/src/fs/block_dev.rs:89-110 | every cached block at an unaligned key survives every write that does not overflow, and a one-byte write into it leaves it stale |
| `BlockCoherence.RunKeeps` | os/src/fs/block_dev.rs:164-333 | every interleaving of hits, misses with read-ahead, batches and writes of any number of threads keeps the cache equal to the device at every step |
| `BlockCoherence.AlwaysCoherent` | os/src/fs/block_dev.rs:164-333 | so from an empty cache and a start on a sector boundary every cached block equals the device in every reachable state, also between invalidation and raw write, after a write that failed with arbitrary bytes in its sectors, and after one that zeroed the rest of its sectors |
| `BlockCoherence.InvalidateKeeps` | os/src/fs/block_dev.rs:172-179 | the step between invalidation and raw write |
| `BlockCoherence.WriteDeviceKeeps` | os/src/fs/block_dev.rs:180-180 | the raw write, whatever it leaves in the sectors it touches |
| `BlockCoherence.DriverOutcomes` | os/src/drivers/virtio_mmio_blk.rs:119-171 | what the machine allows a write to leave includes every outcome of the driver: exact, with zeroed neighbours after a failed preparatory read, with arbitrary sectors, and unchanged |
| `BlockCoherence.CallsAreRecorded` | os/src/fs/block_dev.rs:164-333 | wherever a thread is in a call, it works for the offsets and data of the last call it has begun |
| `BlockCoherence.ReadersSeeTheDevice` | os/src/fs/block_dev.rs:183-333 | after any interleaving every block that a step hands to its caller was asked for by the last call of that thread, and is what the last write to the device has left there |
| `BlockCoherence.WritersLeaveTheRest` | os/src/fs/block_dev.rs:164-181 | after any interleaving a write to the device belongs to the last call of its thread and leaves every byte outside the sectors of that call as the last write before left it |
| `BlockCoherence.FillCaches` | os/src/fs/block_dev.rs:237-245 | filling caches every block of the run that is not evicted at once |
| `VirtioBlocks.SpanInCapacity` | os/src/drivers/virtio_mmio_blk.rs:128-132 | the sectors of a request are inside the device exactly when its bytes are |
| `VirtioBlocks.VirtioBlock.ReadBlocks` | os/src/drivers/virtio_mmio_blk.rs:110-114 | a transfer of whole sectors |
| `VirtioBlocks.VirtioBlock.WriteBlocks` | os/src/drivers/virtio_mmio_blk.rs:168-169 | a transfer of whole sectors |
| `VirtioBlocks.VirtioBlock.ReadPhys` | os/src/drivers/virtio_mmio_blk.rs:66-117 | returns exactly the device bytes at the offset, or fails |
| `VirtioBlocks.VirtioBlock.WritePhys` | os/src/drivers/virtio_mmio_blk.rs:119-171 | leaves the device as `AfterWrite` says, and reports failure |
| `VirtioBlocks.VirtioBlock.LoadSpan` | os/src/drivers/virtio_mmio_blk.rs:132-136 | the buffer that is patched: the sectors of the device, or zeros when the read fails |
| `VirtioBlocks.AfterWriteBytes` | os/src/drivers/virtio_mmio_blk.rs:119-171 | the written bytes are on the device and every byte outside the touched sectors is unchanged |
| `VirtioBlocks.WriteIsExactIff` | os/src/drivers/virtio_mmio_blk.rs:132-169 | a write changes precisely the given bytes if and only if it covers whole sectors, its device read succeeds, or the rest of the sectors was zero |
| `MemFiles.CutIntoChunks` | os/src/fs/fd.rs:146-162 | cutting a vector gives chunks that fit and read back as the vector, with holes for zero chunks |
| `MemFiles.ResizeChunks` | os/src/fs/fd.rs:265-278 | the fitted and trimmed chunks fit the new length; kept positions keep their byte and new ones are zero |
| `MemFiles.MemFile.constructor` | os/src/fs/fd.rs:146-162 | the content is the given bytes, inline exactly up to the limit |
| `MemFiles.MemFile.Clear` | os/src/fs/fd.rs:171-173 | the file is empty |
| `MemFiles.MemFile.ReadAt` | os/src/fs/fd.rs:180-210 | copies exactly the bytes of the flat file from the offset and leaves the rest of the buffer alone |
| `MemFiles.MemFile.ReadChunks` | os/src/fs/fd.rs:191-206 | the reading loop over chunks and holes |
| `MemFiles.MemFile.Resize` | os/src/fs/fd.rs:243-286 | the flat file is cut or padded with zeros; the representation follows the limit both ways |
| `MemFiles.MemFile.ResizeChunked` | os/src/fs/fd.rs:264-284 | the chunked branch |
| `MemFiles.MemFile.WriteAt` | os/src/fs/fd.rs:212-241 | the flat file becomes the old one, extended with zeros if needed, with the data written over it |
| `MemFiles.MemFile.WriteChunks` | os/src/fs/fd.rs:222-237 | the writing loop changes exactly the positions written |
| `MemFiles.MemFile.WritePiece` | os/src/fs/fd.rs:224-236 | one turn patches one chunk, made or lengthened when needed |
| `MemFiles.MemFile.ToVec` | os/src/fs/fd.rs:288-297 | the flat file |
| `MemFiles.CutBytesReadAsZero` | os/src/fs/fd.rs:243-286 | bytes cut by a shrink read as zero after a later growth |
| `MemFiles.WrittenBytes` | os/src/fs/fd.rs:212-241 | what was written is read back, the rest is kept and a gap is zero |
| `Pipes.Pipe.constructor` | os/src/fs/fd.rs:448-455 | an empty pipe with one reader and one writer |
| `Pipes.Pipe.Read` | os/src/fs/fd.rs:1125-1151 | delivers the oldest bytes, ends the file or would block; first in first out is kept; a write that could not proceed and now can is announced to the writers |
| `Pipes.Pipe.ReadBuffer` | os/src/fs/fd.rs:458-478 | both copying ways deliver the same prefix |
| `Pipes.Pipe.CopySlices` | os/src/fs/fd.rs:467-475 | the two slices of the ring buffer in order |
| `Pipes.Pipe.Write` | os/src/fs/fd.rs:1402-1429 | accepts the prefix that fits, breaks or would block; a read that could not proceed and now can is announced to the readers |
| `Pipes.Pipe.CloneEnd` | os/src/fs/fd.rs:1853-1866 | counts one endpoint more and unblocks nobody |
| `Pipes.Pipe.DropEnd` | os/src/fs/fd.rs:1884-1917 | counts one endpoint less; whatever it unblocks is announced to that side |
| `Pipes.EventCounter.constructor` | os/src/fs/fd.rs:534-538 | the initial counter and the mode given |
| `Pipes.EventCounter.Read` | os/src/fs/fd.rs:1153-1176 | takes one or all, conserves added minus taken, and announces the room to writers |
| `Pipes.EventCounter.Write` | os/src/fs/fd.rs:1431-1455 | adds exactly the value or would block, never reaches the forbidden maximum, and announces a nonzero counter to readers |
| `FdTables.CountUpdate` | os/src/fs/fd.rs:1965-1993 | changing one flag word changes the number of flagged slots by the difference of the two flags |
| `FdTables.EndsClone` | os/src/fs/fd.rs:1853-1866 | a clone adds one endpoint that is in hand |
| `FdTables.EndsDrop` | os/src/fs/fd.rs:1884-1917 | a drop takes away one endpoint in hand |
| `FdTables.EndsReplace` | os/src/fs/fd.rs:1969-1981 | overwriting a slot keeps the counts equal to the live endpoints |
| `FdTables.CloneDropIsNothing` | os/src/fs/fd.rs:2217-2226 | a clone that is dropped again leaves every count as it was |
| `FdTables.SweepStep` | os/src/fs/fd.rs:2138-2144 | one turn of the scan lists the slot and clears it exactly when it is open and flagged, and every descriptor is as often in the list and the slots together as it was in the slots at first |
| `FdTables.FileDescriptorTable.constructor` | os/src/fs/fd.rs:1947-1963 | the three standard descriptors, the hint behind them |
| `FdTables.FileDescriptorTable.SetSlot` | os/src/fs/fd.rs:1969-1981 | fills a slot, drops what was there, and keeps hint, counter and endpoint counts right |
| `FdTables.FileDescriptorTable.ClearSlot` | os/src/fs/fd.rs:1983-1993 | empties a slot and hands its descriptor over |
| `FdTables.FileDescriptorTable.FindFree` | os/src/fs/fd.rs:2011-2017 | the lowest free slot of a range |
| `FdTables.FileDescriptorTable.AllocSlotFrom` | os/src/fs/fd.rs:1995-2036 | the lowest free descriptor at or above the start and below the limit, although the scan from 0 starts at the hint; otherwise the descriptor is dropped and nothing else changes |
| `FdTables.FileDescriptorTable.AllocAt` | os/src/fs/fd.rs:2078-2084 | fills the given slot or fails |
| `FdTables.FileDescriptorTable.Remove` | os/src/fs/fd.rs:2105-2113 | takes an open descriptor out or fails without a change |
| `FdTables.FileDescriptorTable.Free` | os/src/fs/fd.rs:2100-2103 | closes an open descriptor and its endpoint, or fails without a change |
| `FdTables.FileDescriptorTable.FdFlags` | os/src/fs/fd.rs:2115-2120 | the flags of an open descriptor |
| `FdTables.FileDescriptorTable.SetFdFlags` | os/src/fs/fd.rs:2122-2131 | changes one flag and keeps the counter right |
| `FdTables.FileDescriptorTable.CloseOnExec` | os/src/fs/fd.rs:2133-2146 | the result lists, in the order of the slots, the descriptors of exactly the open slots whose flag is set; exactly these slots are empty afterwards and no flag is left; every descriptor is as often in the result and the new table together as it was in the old one, also when the counter skips the scan |
| `FdTables.FileDescriptorTable.TakeFlagged` | os/src/fs/fd.rs:2138-2145 | the scan |
| `FdTables.FileDescriptorTable.CloseAll` | os/src/fs/fd.rs:2204-2211 | everything is closed and the endpoint counts are those held elsewhere |
| `FdTables.FileDescriptorTable.DupBelow` | os/src/fs/fd.rs:2217-2226 | duplicates into the lowest free slot; a failure changes nothing, not even an endpoint count |
| `FdTables.FileDescriptorTable.Dup2Below` | os/src/fs/fd.rs:2232-2253 | replaces the target slot by a clone of the source |
| `FdTables.FileDescriptorTable.CloneSlots` | os/src/fs/fd.rs:1938-1944 | a copy of the table adds each descriptor as often to those held elsewhere as it is in the table, and the counts follow |
| `ReservationTracker.ActKeeps` | os/src/buildstorm_diagnostics.rs:2334-2453 | each step of a thread keeps what it knows about its slot, hands the lock over only by its own stores, and never touches a slot held by another |
| `ReservationTracker.ActBooks` | os/src/buildstorm_diagnostics.rs:2288-2453 | each step changes each counter by what it is seen to do to the words of the slots and by what becomes of its call |
| `ReservationTracker.ActPending` | os/src/buildstorm_diagnostics.rs:2334-2453 | each step keeps a visible reservation in the mask or leaves a thread about to put it there, and takes the bit of an ended one out |
| `ReservationTracker.ActLogs` | os/src/buildstorm_diagnostics.rs:2334-2453 | what a thread publishes or cuts, and what a slot holds, has been reported by a call |
| `ReservationTracker.EmptiedLogs` | os/src/buildstorm_diagnostics.rs:2404-2447 | a slot is emptied only after a report of all that was left of its reservation or after a second cut |
| `ReservationTracker.CutsPartition` | os/src/buildstorm_diagnostics.rs:2418-2446 | ranges cut off the ends of a reservation one after the other, and what they leave, partition it |
| `ReservationTracker.StepKeeps` | os/src/buildstorm_diagnostics.rs:2316-2453 | every step of every thread keeps the invariant |
| `ReservationTracker.RunKeeps` | os/src/buildstorm_diagnostics.rs:2316-2453 | so does every interleaving of any number of threads |
| `ReservationTracker.StepKeepsUnique` | os/src/buildstorm_diagnostics.rs:2316-2332 | each step keeps every sequence number with one attempt that reports one range |
| `ReservationTracker.LogIsReported` | os/src/buildstorm_diagnostics.rs:2298-2380 | a range is known as mapped or unmapped only if some call of the run reported it |
| `ReservationTracker.QuiescentBalance` | os/src/buildstorm_diagnostics.rs:2288-2453 | at every quiescent point of every interleaving each counter is the number of calls that ended in its way or of the changes of the words it stands for, so that `successes = active + evictions + full_release + trim_second`, `active` is the number of nonzero slots, `trim_prefix` and `trim_suffix` are the cuts at the two ends, `trim_extra` is zero, every attempt ended in exactly one way and so did every report |
| `ReservationTracker.QuiescentRanges` | os/src/buildstorm_diagnostics.rs:2334-2453 | at every quiescent point a nonzero slot is unlocked, in the mask, and holds a reservation reported under its sequence number; the range it tracks and the at most one range reported as unmapped from it since partition that reservation |
| `ReservationTracker.EndedReservations` | os/src/buildstorm_diagnostics.rs:2404-2447 | whenever a slot has been emptied, the reports that cut its reservation partition it completely, or there were two of them and they and the rest partition it |
| `ReservationTracker.SequencesAreUnique` | os/src/buildstorm_diagnostics.rs:2316-2332 | two reservations of a run never have the same sequence number |
| `ReservationTracker.MutualExclusion` | os/src/buildstorm_diagnostics.rs:2337-2357 | at every step a slot has at most one holder, is locked while it has one, and `active` stays between zero and the number of slots |
| `ReservationTracker.ReportPassesBy` | os/src/buildstorm_diagnostics.rs:2388-2452 | a report goes on to the next slot only because the bit was not set, the slot was empty, locked or changed in between, or the range is not all or an end of what it tracks |
| `ReservationTracker.PublishAlone` | os/src/buildstorm_diagnostics.rs:2334-2376 | a publication into an unlocked slot that nothing interrupts stores the range under its number, whatever was there, and counts it as active or evicted and as a success |
| `ReservationTracker.ReportAlone` | os/src/buildstorm_diagnostics.rs:2378-2453 | a report that nothing interrupts, begun at any quiescent point, acts on the first slot of which its range is all or an end, as a full release or a cut with the counters that belong to it, and on nothing else; without such a slot it is counted as unmatched |

## Left out

- Weak memory orderings: every atomic access is one step of a sequentially consistent machine.
- Wrap-around of generations, sequences and statistics: TLB generations are unique, sequences and counters of the tracker do not overflow; only the age counter of the block cache wraps in the model.
- CPU hot-plug on RISC-V: the set of online CPUs is fixed; on LoongArch a CPU may go offline.
- User translations are filled only between a completed mark and the next clear; on LoongArch also not inside the interrupt handler, and activation flushes the local TLB (os/src/mm/memory_set.rs:489-518).
- `flush_tlb_all_cpus`, ASID allocation, page tables and the way a root is activated.
- CPU masks are sets of bit positions, not machine words.
- Scheduling policy, affinity changes, the blocked-owner wait and CPUs that come and go in the idle protocol; a dispatch may take any waiting task that is eligible, and a timer interrupt taken in the wait instruction wakes the CPU before it publishes.
- The wrappers `alloc`, `alloc_aligned`, `dealloc`, `dealloc_aligned` and `insert` of the frame allocator, `init` of the heap, and the locked and rescuing variants of both: they round a size or take a lock.
- `LinkedList` objects are the entries of the array `heads`; `Iter`, which only prints, is not modelled.
- Address arithmetic of the allocators does not overflow; `dealloc` is given a live block and its own layout, as its documentation demands.
- Coherence between ranges over the same disk: each range has its own cache and lock, and the device changes only through the range. The device is smaller than the address space.
- In the runs of `FrameConservation` and `SomeRunLoses` an allocation may take any free block that is large enough; the allocator takes the least one of the first nonempty order.
- The reads of `BlockCoherence` are of aligned blocks; what unaligned keys do is in `UnalignedKeyGoesStale`.
- The lock of the sequential `BlockRange` class: the interleavings of its two locks are in `BlockCoherence`, which has threads and steps instead of loops.
- `write_offset`, partition tables, loop devices and the PCI driver, which has the same arithmetic as the modelled one.
- Sockets, epoll, regular files, directories, leases, console input, poll masks and blocking modes of descriptors; of the descriptors other than pipes only the identity matters here.
- The endpoint counts of all pipes are a map in the table object; a second table over the same pipes is part of what is held elsewhere.
- `eventfd_write_would_block` (os/src/fs/fd.rs:888-893) reports every nonzero counter, while a write blocks only when the sum would exceed the maximum; the model follows the write.
- `read_dirents64`, the legacy open path and everything else in os/src/fs/fd.rs.
- The byte totals of the reservation tracker, on which nothing depends; reservations are not empty.
- A publication gives up after four failed tries for the lock; the results hold for any number of tries, and `PublishAlone` says that without interference the first one succeeds.
- A shootdown on LoongArch waits for other CPUs, so its return depends on their progress; `ShootdownAdvances` is about RISC-V, where it does not.
- A read that fails in `BlockCoherence` answers nothing; that its caller gets zeros or an error is in the methods of `BlockRange`.
- Every other diagnostic, counter, log line and script of the repository.
- BuddyHeaps.Heap.UserStore: models the owner of a live block, not a function of the allocator.
