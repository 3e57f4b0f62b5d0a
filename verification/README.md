# Verified models of the Stanix kernel core

Stanix is a small kernel for x86_64. This project models the algorithms that its memory management,
containers, scheduling and data paths rest on, and proves what they are for. Every module is a model
of one source file, or of one part of it, written in the form of that file: an object whose fields
are updated in place is a class, a loop is a method with invariants, and each such method is proved
against a specification function about which the actual properties are proved as lemmas. The nodes of
the xarray are the exception: they are values.

| modules | source | simple view |
|---|---|---|
| `BuddyBlocks`, `FreeLists`, `PageAllocator` | `kernel/mem/pmm.c` | a set of free pages |
| `CopyOnWrite`, `AddressSpaces`, `CowMemory` | `kernel/mem/vmm.c`, `kernel/mem/pmm.c` | address spaces whose pages are copied at fork |
| `Segments`, `VmSpace` | `kernel/mem/vmm.c` | a map from page to protection, backing and offset |
| `AvlShape`, `AvlTree`, `AvlIndex` | `kernel/klib/avltree.c` | a sorted sequence |
| `XEntries`, `XUpdate`, `XArray`, `XTable` | `kernel/klib/xarray.c` | a finite map, and the indices that allocation can see to be free |
| `RmanSegs`, `Rman` | `kernel/drivers/resource.c` | sets of covered and free addresses, and the allocated segments |
| `Scheduler`, `WorkQueue` | `kernel/task/scheduler.c`, `kernel/task/workqueue.c`, `kernel/task/sleep.c` | atomic steps of one processor |
| `RwSem` | `kernel/task/rwsem.c`, `kernel/task/sleep.c` | atomic steps of any number of tasks |
| `PageCache` | `kernel/fs/cache.c` | a flat sequence of bytes |
| `RingBuffer`, `Pipe` | `kernel/klib/ringbuf.c`, `kernel/fs/pipe.c` | a byte stream |
| `Calendar` | `kernel/klib/time.c` | the closed formula of POSIX |
| `Utf8` | `kernel/klib/unicode.c` | the grammar of RFC 3629 |
| `Arithmetic` | | division by symbolic numbers, used by the others |

The main results are statements over every run: copy-on-write refines copying at fork
(`AddressSpaces.CowRefinesEagerCopy`) and copies exactly the pages that something else still holds
(`AddressSpaces.ForkCopiesNothing`, `AddressSpaces.CopiesOnlyWhenHeld`), the buddy lists are a function of the free pages
(`PageAllocator.ListsAreDetermined`, `PageAllocator.Pmm.AllocateThenFree`), the reader/writer semaphore
excludes in every interleaving, whoever wakes the sleepers (`RwSem.Exclusion`), prefers writers
(`RwSem.WritersFirst`, `RwSem.ReadTakenIff`), and makes progress exactly
as long as no release misdirects its wakeup (`RwSem.Progress`), which none does while only the semaphore
wakes its waiters (`RwSem.CalmProgress`), no task is queued twice and every queued task runs
(`Scheduler.RunInv`, `Scheduler.RunsWithin`), no work is forgotten or overtaken (`WorkQueue.NoLostWork`, `WorkQueue.TakenInOrder`), the page cache
agrees with a flat file (`PageCache.Cache.Run`), the resource manager answers every operation of every run as
the regions accepted and the segments held then demand, and ends in the maximal runs of those regions
(`Rman.Manager.Run`, `Rman.RepliesDetermined`), allocation from the xarray gives the least unused index
(`XTable.Table.Run`), and pipes keep the order of every writer and leave nobody asleep who could go on
(`Pipe.FifoInEveryRun`, `Pipe.NoLostWakeup`).

## Where the code is not what one would expect

The model follows the code. In these places the intended property does not hold of it; each has an
example and the exact condition under which it holds.

- Buddies in different zones: blocks of 16 and more frames at the start of memory
  (`PageAllocator.CrossZoneMerge`, `PageAllocator.BuddyZones`). The allocator is proved for memory maps
  in which frames 0 to 31 are not all usable.
- Freeing shared pages in bulk leaves the shared counter too high (`PageAllocator.MarkedShared`).
- The search for a free address subtracts unsigned numbers (`VmSpace.GapSearchCounterexample`,
  `VmSpace.GapEnd`).
- Removal from the AVL tree rebalances by the child that shrank and can leave the tree unbalanced
  (`AvlShape.RemovalUnbalances`, `AvlShape.RemoveBalancedIff`). The next removal or insertion can then meet
  a balance factor of three, which the code marks as unreachable, so that its behaviour is undefined
  (`AvlShape.RemovalLeavesReach`, `AvlShape.InsertionLeavesReach`; `AvlShape.RemoveFits` and `AvlShape.InsertFits` are the exact conditions
  that it does not). With equal keys removal can miss a node (`AvlShape.EqualKeyMissed`,
  `AvlShape.RemoveFindsIff`).
- A store into a distant part of an xarray marks levels full that are not
  (`XTable.SparseSetMisleads`, `XUpdate.PutSoundIff`), and allocation from a start inside an absent
  subtree reports another index than the one it filled (`XTable.StartMisreported`,
  `XTable.Table.AllocateFrom`). The comment in `kernel/include/klib/xarray.h` promises the first free
  index from the start on.
- A resource request whose end lies before its start can be served, outside its range and with fewer
  addresses (`Rman.ReversedExample`, `Rman.Manager.Allocate`); adding an empty region can leave an empty
  segment (`Rman.Manager.AddRegion`).
- A writer that releases its last write before its nested reads leaves the semaphore in its own name:
  nobody else gets it until that task writes again (`RwSem.NonLifoReleaseSticks`,
  `RwSem.StuckInEveryRun`, `RwSem.WriteAgainFrees`, `RwSem.ReleaseWriteInv`).
- A task that waits for the semaphore and is woken by something else queues itself again and leaves its
  first node on the queue. The reaper, the work queue and the timer list can wake like that
  (`kernel/task/scheduler.c:121`, `kernel/task/workqueue.c:49`, `kernel/task/scheduler.c:181`). The one
  wakeup of a later release can go to that node, and a writer then sleeps on a free semaphore
  (`RwSem.StrayWakeStrands`, `RwSem.AwakeStepIff`, `RwSem.Progress`).
- A task that blocks with a timeout and finds it passed once it is on the list of sleepers returns
  without leaving the list, and its next sleep puts it there twice
  (`Scheduler.EarlyReturnListsTwice`, `Scheduler.Cpu.BlockTaskTimeout`, `Scheduler.OrderInRunIff`).
- Flushing a range of a file starts at the page whose number is the first byte of the range
  (`PageCache.FirstPageMissed`, `PageCache.FlushCompleteIff`).
- The day returned by `time2date` counts from 0, the day taken by `date2time` from 1
  (`Calendar.RoundTrip`).

## Modelling choices

- Page numbers stand for addresses in the page allocator and in address spaces. Page size, the number
  of orders (7), the zone bounds, the mask of 64 entries and the pipe size of 4096 are those of the
  headers.
- Integers are unbounded except where the code relies on wrap-around: the gap search and the resource
  range subtract modulo the word. Xarray indices agree with the code below 2^60, where its shifts are
  defined.
- A value read before it is set (the flag at re-rooting an xarray), the time, the outcome of memory
  allocation and the spare pages of a fault are parameters, so that results hold whatever they are.
- Each operation of the allocators and of address spaces is one atomic step. The semaphore, the
  scheduler, the work queue and the pipe are step machines, where a step is what runs under one lock. Anything
  in the kernel may wake a task that sleeps on the semaphore or on a pipe; that is a step of its own.
- Wake-up times are numbers, in the order that `timespec_cmp` gives them. That a wakeup is by timeout is a
  parameter of `Scheduler.Cpu.ResumeFromTimeout`; nothing in the code wakes with that reason, so a task that
  the timer woke gets 0 and not -ETIMEDOUT.
- Callbacks are reduced to what they decide: the order of AVL nodes is a key, the permission of a
  segment to be split or protected is a flag of its kind.

## Model

| member | source | states |
|---|---|---|
| BuddyBlocks.AlignedIsModulo | kernel/mem/pmm.c:282-312 | the recursive alignment of the model is divisibility by the block size |
| BuddyBlocks.MergeOf | kernel/mem/pmm.c:289-305 | flipping one address bit gives the buddy, twice gives the block back, and a block and its buddy are disjoint and make up their parent |
| BuddyBlocks.RunInsideOneBlock | kernel/mem/pmm.c:179-199 | in a canonical set of free blocks, every aligned fully free run of 2^order pages lies inside one block of at least that order |
| BuddyBlocks.CanonicalIsDetermined | kernel/mem/pmm.c:282-312 | canonical block sets that cover the same pages are the same set |
| BuddyBlocks.CoverSize | kernel/mem/pmm.c:201-218 | the sizes of the free blocks add up to the number of free pages |
| FreeLists.RawAllocate | kernel/mem/pmm.c:179-199 | recursive splitting succeeds exactly if a list of that or a higher order is not empty; it takes the last block of the first such list, puts back exactly its upper halves, takes exactly one aligned run out of the free pages and leaves the lists canonical and labelled |
| FreeLists.SplitTakesLeast | kernel/mem/pmm.c:179-199 | the block that is split is a smallest one that is large enough, its first page is returned, and every other free block stays |
| PageAllocator.OneZone | kernel/mem/pmm.c:165-173 | unless frames 0 to 31 are all usable, no aligned usable block spans two zones |
| PageAllocator.BuddyZones | kernel/mem/pmm.c:165-173 | a block and its buddy are in different zones exactly for orders from 4 on at the start of memory |
| PageAllocator.CrossZoneMerge | kernel/mem/pmm.c:282-312 | without that assumption: after boot, freeing frames 16 to 31 and then 0 to 15 makes the merge test accept a buddy that is on another zone's list |
| PageAllocator.BuddyOnList | kernel/mem/pmm.c:288-300 | the merge test on labels, counts and reservation accepts exactly the buddies that are on the free list of that order |
| PageAllocator.MergeStep | kernel/mem/pmm.c:288-303 | one merge keeps the allocator consistent, with the parent block now the one to be put on a list |
| PageAllocator.MergeStop | kernel/mem/pmm.c:303-312 | putting the merged block on its list ends in a consistent allocator with canonical lists |
| PageAllocator.AllocateKeeps | kernel/mem/pmm.c:201-218 | taking a run and setting its counts to 1 keeps the allocator consistent and removes exactly that run from the free pages |
| PageAllocator.RunIffBlock | kernel/mem/pmm.c:263-273 | a zone has a block for an order exactly if it has an aligned run of 2^order pages that are all free |
| PageAllocator.ListsAreDetermined | kernel/mem/pmm.c:282-341 | two consistent states with the same free pages have the same free blocks in every zone |
| PageAllocator.MarkedShared | kernel/mem/pmm.c:314-325 | freeing a range keeps the count of shared pages exact if and only if none of its pages was shared |
| PageAllocator.Pmm.constructor | kernel/mem/pmm.c:88-139 | every page starts with count 1 and no page is free |
| PageAllocator.Pmm.Conserved | kernel/mem/pmm.c:201-312 | in every state the used pages and the sizes of the free blocks of all zones add up to all pages |
| PageAllocator.ExactFitKeepsLarger | kernel/mem/pmm.c:179-199 | a request that a block of exactly its size can serve leaves every larger block of every zone free |
| PageAllocator.ZoneBounds | kernel/include/mem/pmm.h:66-67 | the zones end at frames 2^4 and 2^20 |
| PageAllocator.Pmm.HelperAllocate | kernel/mem/pmm.c:201-218 | allocation in one zone fails exactly if the zone has no free aligned run; success moves exactly that run from count 0 to 1, all of it in the zone, out of a smallest sufficient block; the shared counter stays |
| PageAllocator.Pmm.ZoneAllocate | kernel/mem/pmm.c:247-280 | a request succeeds exactly if the reserve allows it and a zone at or below the requested one has a free run; it takes the highest such zone and a smallest sufficient block there; a request for zone 0 or 1 gets pages that end at or below frame 2^4 or 2^20 |
| PageAllocator.Pmm.ZoneSetFree | kernel/mem/pmm.c:282-312 | the merge loop puts the block back so that the allocator is consistent, for every block and every state |
| PageAllocator.Pmm.SetFreePages | kernel/mem/pmm.c:314-325 | the counts of the block become 0, the used pages drop by its size, and the shared counter stays exact exactly if no page was shared |
| PageAllocator.Pmm.LargestOrder | kernel/mem/pmm.c:327-341 | the largest order whose blocks start at the page and fit the rest of the range |
| PageAllocator.Pmm.SetFreeRange | kernel/mem/pmm.c:327-341 | any range of allocated pages, cut into the largest aligned blocks, becomes free and the used pages drop by its size; the shared counter stays as it is, so it stays exact exactly if no page was shared |
| PageAllocator.Pmm.Retain | kernel/mem/pmm.c:362-380 | counts up exactly if the page is not free; the second reference makes the page shared |
| PageAllocator.Pmm.Release | kernel/mem/pmm.c:343-360 | counts down; the last reference frees the page, the last but one makes it private |
| PageAllocator.Pmm.AllocateThenFree | kernel/mem/pmm.c:201-312 | allocating and freeing restores counts, all three counters and the free blocks of every zone |
| CopyOnWrite.ShareKeeps | kernel/mem/vmm.c:684-705 | sharing one entry with the child is a copy of the page in the eager view |
| CopyOnWrite.ProtectKeeps | kernel/mem/vmm.c:711-719 | taking the write bit from a shared entry changes nothing that is seen |
| CopyOnWrite.CowKeeps | kernel/mem/vmm.c:96-125 | resolving a write fault changes nothing that is seen, keeps the counts, and makes the entry writable unless a needed page is missing |
| CopyOnWrite.ChprotKeeps | kernel/mem/vmm.c:468-502 | changing the protection of an entry is that change in the eager view; a shared page never becomes writable |
| CopyOnWrite.UnmapKeeps | kernel/arch/x86_64/paging.c:249-259 | unmapping drops one reference and only that page from the view |
| CopyOnWrite.MapZeroKeeps | kernel/mem/vmm.c:411-425 | an anonymous private page is a page of zeros |
| CopyOnWrite.MapSharedKeeps | kernel/mem/vmm.c:406-409 | a shared page is a new object that all its mappings see |
| CopyOnWrite.StoreKeeps | kernel/mem/vmm.c:96-125 | a store through a writable entry is seen by exactly the mappings that see it in the eager view |
| AddressSpaces.ChprotRangeKeeps | kernel/mem/vmm.c:480-500 | changing a range entry by entry is the change of the range in the eager view |
| AddressSpaces.UnmapRangeKeeps | kernel/mem/vmm.c:566-572 | unmapping a range removes exactly the range from the eager view |
| AddressSpaces.MapPrivateKeeps | kernel/mem/vmm.c:392-425 | mapping private memory replaces the range by zeros in the eager view |
| AddressSpaces.MapSharedRangeKeeps | kernel/mem/vmm.c:406-409 | mapping shared memory adds one object per page |
| AddressSpaces.ForkSegKeeps | kernel/mem/vmm.c:658-727 | cloning one segment copies exactly its pages in the eager view |
| AddressSpaces.ForkKeeps | kernel/mem/vmm.c:729-746 | fork copies every page of every segment in the eager view |
| AddressSpaces.FaultRangeKeeps | kernel/mem/vmm.c:127-215 | handling a fault over several pages changes nothing that is seen and makes the faulting page writable unless memory ran out |
| AddressSpaces.WriteKeeps | kernel/mem/vmm.c:127-215 | a user write has the effect of the eager write, fails with a segment violation exactly without permission, and with a bus error only without memory |
| AddressSpaces.ReadSees | kernel/mem/vmm.c:658-746 | the bytes of the mapped frame are the bytes of the eager view |
| AddressSpaces.NewPagesReadZero | kernel/mem/vmm.c:392-425 | every byte of a new private mapping reads as 0 |
| AddressSpaces.NewSharedReadZero | kernel/mem/vmm.c:406-409 | every byte of a new shared mapping reads as 0, in the frames given |
| AddressSpaces.ForkCopiesNothing | kernel/mem/vmm.c:658-746 | fork copies no byte: parent and child have the same frame for every page |
| AddressSpaces.CopiesOnlyWhenHeld | kernel/mem/vmm.c:96-125 | a write fails for lack of memory exactly if there is none and another page or a pin holds the frame; it copies exactly then, and else stays in its frame |
| AddressSpaces.StepRefines | kernel/mem/vmm.c:96-746 | every operation does in the eager view what its eager counterpart does |
| AddressSpaces.CowRefinesEagerCopy | kernel/mem/vmm.c:96-746 | over every run of map, fork, write, protect and unmap in any number of spaces, each space sees exactly what it would see if fork copied every page |
| AddressSpaces.CountsInEveryRun | kernel/mem/pmm.c:343-389 | in every run each reference count is the number of mappings plus pins, and a writable private entry has count 1 |
| CowMemory.Memory.constructor | kernel/mem/pmm.c:410-413 | the start state of every run: no mappings, the zero page pinned |
| CowMemory.Memory.Chprot | kernel/mem/vmm.c:480-500 | the loop over entries is the range operation of the model |
| CowMemory.Memory.Unmap | kernel/mem/vmm.c:566-572 | the loop over entries is the range operation of the model |
| CowMemory.Memory.MapAnonymous | kernel/mem/vmm.c:392-425 | the loop over entries is the range operation of the model |
| CowMemory.Memory.CloneSeg | kernel/mem/vmm.c:658-727 | the two passes over the entries of a segment are the fork of that segment |
| CowMemory.Memory.Clone | kernel/mem/vmm.c:729-746 | the loop over segments is the fork of the model |
| CowMemory.Memory.Cow | kernel/mem/vmm.c:96-125 | the fault step in place, and when it fails |
| CowMemory.Memory.HandleFault | kernel/mem/vmm.c:127-215 | the loop over the pages of a fault is the fault of the model |
| CowMemory.Memory.Store | kernel/mem/vmm.c:127-215 | a user write in place is the write of the model |
| Segments.AtIndex | kernel/mem/vmm.c:287-291 | a page is looked up in the one segment that holds it |
| Segments.SplitSame | kernel/mem/vmm.c:293-332 | splitting a segment changes no page and no size counter |
| Segments.CarveView | kernel/mem/vmm.c:583-604 | cutting a range out of the segments removes exactly its pages |
| Segments.ReprotView | kernel/mem/vmm.c:504-527 | re-protecting a range of segments rewrites the protection of exactly its mapped pages |
| VmSpace.LowestGapOk | kernel/mem/vmm.c:363-379 | the gap rule without wrap-around finds the lowest run of free pages |
| VmSpace.GapEnd | kernel/mem/vmm.c:363-379 | the loop with unsigned subtraction ends at the lowest gap exactly if no segment lies below the base or the base is free |
| VmSpace.GapSearchCounterexample | kernel/mem/vmm.c:370-372 | a segment below the base makes the search stop at an occupied address |
| VmSpace.PermIsLegal | kernel/mem/vmm.c:334-347 | permission is granted exactly for anonymous mappings and for files not opened write-only, which must be opened read-write if the mapping is shared and writable |
| VmSpace.LegalPages | kernel/mem/vmm.c:334-347 | in every valid space, so after every operation, each mapped page is of that kind |
| VmSpace.Space.constructor | kernel/mem/vmm.c:271-275 | an empty space |
| VmSpace.Space.Split | kernel/mem/vmm.c:293-332 | error codes, the two halves, and no page changed |
| VmSpace.Space.FirstAtOrAbove | kernel/mem/vmm.c:287-291 | the first segment that ends above an address |
| VmSpace.Space.UnmapSeg | kernel/mem/vmm.c:536-575 | removes one segment and adjusts the size counters |
| VmSpace.Space.UnmapRange | kernel/mem/vmm.c:583-604 | succeeds exactly if both cuts are allowed; success removes exactly the range, failure at most part of it and nothing else |
| VmSpace.Space.ProtectSeg | kernel/mem/vmm.c:468-502 | error codes, access refused exactly for pages that may not be, and the new protection of one segment |
| VmSpace.Space.ProtectRange | kernel/mem/vmm.c:504-527 | succeeds exactly if every cut is allowed and every segment may have and takes the protection; success rewrites exactly the mapped pages of the range, failure at most some of them |
| VmSpace.Space.FindGap | kernel/mem/vmm.c:363-379 | the address found, and that it is the lowest gap exactly under the stated condition |
| VmSpace.Space.InsertSeg | kernel/mem/vmm.c:349-390 | puts a segment in order; the list stays sorted exactly if the range was free |
| VmSpace.Space.Map | kernel/mem/vmm.c:392-459 | a fixed map overrides exactly the range, an address of 0 takes the lowest gap, counters equal the sums over segments; access is refused exactly for pages that may not be; when else it fails and what it then leaves |
| VmSpace.Space.CloneTo | kernel/mem/vmm.c:729-746 | the child gets the same segments and counters |
| AvlShape.RebalanceInOrder | kernel/klib/avltree.c:77-105 | rebalancing keeps the in-order sequence, whatever rotations it chooses |
| AvlShape.InsertBalanced | kernel/klib/avltree.c:107-135 | insertion into an AVL tree gives an AVL tree, at most one level higher |
| AvlShape.InsertInOrder | kernel/klib/avltree.c:107-135 | the new node comes after all elements not greater than it and before all greater ones |
| AvlShape.InsertSorted | kernel/klib/avltree.c:107-135 | insertion keeps the sequence sorted |
| AvlShape.HeightLogarithmic | kernel/klib/avltree.c:77-135 | an AVL tree of height h holds a sequence of at least 2^(h/2) - 1 elements |
| AvlShape.RemoveInOrder | kernel/klib/avltree.c:137-197 | with distinct keys removal finds every node of the tree and takes exactly it out of the sequence |
| AvlShape.RemoveHeight | kernel/klib/avltree.c:137-197 | removal from an AVL tree lowers it by at most one level |
| AvlShape.RemoveBalancedIff | kernel/klib/avltree.c:77-105 | removal from an AVL tree leaves an AVL tree exactly if at every level the rotation picked from the shrunk child was the right one |
| AvlShape.RemovalUnbalances | kernel/klib/avltree.c:188-192 | four insertions and one removal that leave an unbalanced tree |
| AvlShape.RemovalLeavesReach | kernel/klib/avltree.c:102-104 | seven insertions and a removal after which the next removal meets a factor of three, for which the code has no case |
| AvlShape.InsertionLeavesReach | kernel/klib/avltree.c:102-104 | seven insertions and two removals, both inside the reach of the code, after which an insertion meets a factor of three |
| AvlShape.RemoveFindsIff | kernel/klib/avltree.c:148-154 | with equal keys, removal finds a node exactly if no ancestor with the same key has it on its left |
| AvlShape.EqualKeyMissed | kernel/klib/avltree.c:148-154 | three equal keys, one of which removal does not find |
| AvlShape.InsertFitsAvl | kernel/klib/avltree.c:102-104 | in an AVL tree insertion never meets a factor beyond two |
| AvlShape.RemoveFitsAvl | kernel/klib/avltree.c:170-173 | in an AVL tree with distinct keys removal never meets a factor beyond two and always finds the successor |
| AvlTree.ComputeHeight | kernel/klib/avltree.c:30-37 | makes the height label exact |
| AvlTree.RotateLeftAt | kernel/klib/avltree.c:44-55 | parent, child and height fields after the rotation are exactly those of the rotated tree |
| AvlTree.RotateRightAt | kernel/klib/avltree.c:57-68 | parent, child and height fields after the rotation are exactly those of the rotated tree |
| AvlTree.RebalanceAt | kernel/klib/avltree.c:77-105 | rebalancing in place, with exact links and heights |
| AvlTree.InsertHelper | kernel/klib/avltree.c:107-129 | insertion in place, with exact links and heights |
| AvlTree.LeftmostAt | kernel/klib/avltree.c:70-75 | the loop finds the leftmost node |
| AvlTree.RemoveHelper | kernel/klib/avltree.c:137-193 | removal in place, with exact links and heights, and whether the node was found |
| AvlTree.RemoveRoot | kernel/klib/avltree.c:156-184 | the three cases of deleting the node itself |
| AvlTree.RemoveBelow | kernel/klib/avltree.c:140-192 | deleting below a node |
| AvlIndex.Index.constructor | kernel/klib/avltree.c:131-135 | an empty tree |
| AvlIndex.Index.Insert | kernel/klib/avltree.c:131-135 | the sorted sequence with the node in place, linked, height-labelled, balanced if it was |
| AvlIndex.Index.Remove | kernel/klib/avltree.c:195-197 | the sorted sequence without the node, linked and height-labelled; balanced exactly if known beforehand |
| AvlIndex.Index.Lookup | kernel/klib/avltree.c:199-216 | a node with the key, or none if no node has it |
| AvlIndex.Index.FirstAtOrAbove | kernel/klib/avltree.c:218-238 | the first node of the sorted suffix at or above the key |
| AvlIndex.Index.First | kernel/klib/avltree.c:240-242 | the first node in order |
| AvlIndex.Index.Next | kernel/klib/avltree.c:244-262 | from the i-th node in order to the next, by right subtrees and parent links |
| AvlIndex.LowerBoundSplits | kernel/klib/avltree.c:218-238 | in a sorted sequence the lower bound separates the keys below from those at or above |
| AvlIndex.Index.WalkFrom | kernel/klib/avltree.c:218-262 | walking from the first node at or above a key visits exactly the sorted suffix |
| XEntries.LocalDigit | kernel/klib/xarray.c:70-72 | the shifted and masked index is the digit of what is left of the index |
| XEntries.IndexNode | kernel/klib/xarray.c:70-77 | looking up an index below a node is looking up its rest below one slot |
| XUpdate.PutAt | kernel/klib/xarray.c:168-211 | a store changes exactly one index |
| XUpdate.PutOpen | kernel/klib/xarray.c:168-211 | a store hides from allocation exactly the block of its index below the absent subtree it filled |
| XUpdate.ClearOpen | kernel/klib/xarray.c:187-197 | clearing makes the index visible to allocation and hides nothing |
| XUpdate.BlockIsQuotient | kernel/klib/xarray.c:202-210 | that block is the range of indices with the same quotient |
| XUpdate.WrapFacts | kernel/klib/xarray.c:151-160 | a new root changes neither contents nor what allocation sees |
| XUpdate.PutSoundIff | kernel/klib/xarray.c:202-210 | a store keeps "a mask bit implies a full subtree" exactly if it fills at most one new level |
| XArray.BuildChain | kernel/klib/xarray.c:202-211 | the new nodes of a store into an absent subtree |
| XArray.Descend | kernel/klib/xarray.c:163-198 | the walk down ends where the index leads, with the nodes from which the store can be put together |
| XArray.Ascend | kernel/klib/xarray.c:173-183 | the walk back up puts entries and masks of all levels together |
| XArray.Store | kernel/klib/xarray.c:163-213 | the store as a whole is the specified one, and returns the old value |
| XArray.AllocateIn | kernel/klib/xarray.c:240-281 | the first index at or after the minimum that is empty and not hidden gets the value, and exactly it stops being available; which index is reported |
| XArray.ReportedIs | kernel/klib/xarray.c:243-258 | the index reported for the minimum itself is the start of its absent subtree |
| XArray.FindIn | kernel/klib/xarray.c:331-351 | the first occupied index at or after the minimum |
| XTable.Grow | kernel/klib/xarray.c:125-161 | growing until the index fits changes neither contents nor what allocation sees |
| XTable.Table.constructor | kernel/klib/xarray.c:47-49 | an empty array |
| XTable.Table.Get | kernel/klib/xarray.c:95-111 | the value of the finite map |
| XTable.Table.Set | kernel/klib/xarray.c:120-213 | the finite map is updated through every growth; what becomes invisible to allocation, and when the masks stay sound |
| XTable.Table.CompareExchange | kernel/klib/xarray.c:223-229 | updates the map exactly if the old value is the expected one |
| XTable.Table.AllocateFrom | kernel/klib/xarray.c:283-310 | the first available index from the start on gets the value; when another index is reported |
| XTable.Table.Allocate | kernel/include/klib/xarray.h:101-103 | from 0: an empty index gets the value, nothing else changes; with sound masks it is the least unused one, whatever the uninitialised flag holds |
| XTable.Table.Clear | kernel/include/klib/xarray.h:122-124 | the index leaves the map; sound masks stay sound |
| XTable.Table.Run | kernel/klib/xarray.c:240-310 | every run of allocations from 0 and clears gives out the least unused index each time |
| XTable.Table.FirstFrom | kernel/klib/xarray.c:365-376 | the least occupied index at or after the argument |
| XTable.Table.Elements | kernel/include/klib/xarray.h:198-201 | iteration lists the whole domain once, in increasing order, with its values |
| XTable.SparseSetMisleads | kernel/klib/xarray.c:202-210 | after a store at 4096, allocation from the free index 4097 gives 4160 |
| XTable.StartMisreported | kernel/klib/xarray.c:243-258 | after a store at 128, a search from 65 fills index 65 and reports 64 |
| RmanSegs.FreeRuns | kernel/drivers/resource.c:116-137 | the free segments are exactly the maximal runs of free addresses |
| RmanSegs.MaximalRuns | kernel/drivers/resource.c:116-137 | with everything given back, the segments are exactly the maximal runs of covered addresses |
| RmanSegs.WindowInOne | kernel/drivers/resource.c:191-231 | a free window lies inside one free segment |
| RmanSegs.MergedFacts | kernel/drivers/resource.c:116-137 | merging changes no address and gives a sorted, disjoint, coalesced list unless an empty segment stays alone |
| RmanSegs.Determined | kernel/drivers/resource.c:116-137 | the list is determined by the free addresses and the allocated segments |
| Rman.CandidateLeast | kernel/drivers/resource.c:193-230 | what the search takes from one segment is its least fitting address, and nothing exactly if none fits |
| Rman.CandidateReversed | kernel/drivers/resource.c:212-215 | with the end before the start the subtraction wraps and the start itself is taken |
| Rman.MultipleIs | kernel/drivers/resource.c:171-185 | a size of 0 is 1 and an alignment of 0 is none |
| Rman.Manager.constructor | kernel/drivers/resource.c:93-99 | no segments |
| Rman.Manager.Merge | kernel/drivers/resource.c:116-137 | the list after merging with both neighbours |
| Rman.Manager.SegsBefore | kernel/drivers/resource.c:76-87 | the segments that start before an address |
| Rman.Manager.AddRegion | kernel/drivers/resource.c:139-162 | refused exactly if it overlaps; adds exactly its addresses; the one way to leave an empty segment |
| Rman.Manager.Take | kernel/drivers/resource.c:237-256 | the two splits |
| Rman.Manager.Allocate | kernel/drivers/resource.c:171-264 | the least aligned address with a free window in the range, no memory exactly if there is none, invalid exactly if the start is not aligned; what a reversed range gets |
| Rman.Manager.Release | kernel/drivers/resource.c:273-284 | exactly the segment becomes free, coverage unchanged |
| Rman.Manager.Run | kernel/drivers/resource.c:139-284 | over every order of add, allocate and free: each operation is answered as the regions accepted and the segments held at that time demand, in terms of addresses alone; the coverage is that of the regions accepted; the owned segments are those handed out and not given back; once none is owned the segments are the maximal runs |
| Rman.Manager.Perform | kernel/drivers/resource.c:139-284 | one operation of a run gives the right reply and moves regions and held segments on accordingly |
| Rman.ClearIsApart | kernel/drivers/resource.c:139-155 | coverage alone decides whether a region overlaps |
| Rman.FreeIsUnowned | kernel/drivers/resource.c:171-264 | the free addresses are the covered ones outside every allocated segment |
| Rman.AllocateAnswers | kernel/drivers/resource.c:171-264 | the answer of an allocation is the right one for the set of free addresses, in reversed ranges too |
| Rman.AnswersUnique | kernel/drivers/resource.c:171-264 | for a set of free addresses there is only one right answer |
| Rman.RepliesDetermined | kernel/drivers/resource.c:139-284 | the operations of a run determine every reply |
| Rman.ListDetermined | kernel/drivers/resource.c:139-284 | the covered addresses and the allocated segments determine the whole list |
| Rman.Manager.AllocateThenRelease | kernel/drivers/resource.c:171-284 | giving back what was allocated restores the list |
| Rman.ReversedExample | kernel/drivers/resource.c:212-215 | a request from 8 to 4 for four addresses gets two, outside its range |
| Scheduler.BootInv | kernel/task/scheduler.c:124-159 | the state after boot is sound |
| Scheduler.UnblockQueue | kernel/task/scheduler.c:442-475 | waking keeps the run queue sound and only appends to it |
| Scheduler.SwitchQueue | kernel/task/scheduler.c:283-349 | switching keeps the run queue sound |
| Scheduler.StepInv | kernel/task/scheduler.c:46-475 | every step keeps: no task queued twice, current not queued, attached tasks are queued or current, every running task is one of them |
| Scheduler.RunInv | kernel/task/scheduler.c:46-475 | the same in every reachable state |
| Scheduler.StepMoves | kernel/task/scheduler.c:283-349 | a yield moves every queued task up by one; no other step moves any |
| Scheduler.RunsWithin | kernel/task/scheduler.c:186-349 | a task at position k runs within k + 1 yields of any run |
| Scheduler.IdleMustSleep | kernel/task/scheduler.c:442-475 | waking the idle task while it runs would queue the current task |
| Scheduler.AddSleeperIff | kernel/task/sleep.c:16-34 | adding the current task keeps the sleepers in waking order, each once, exactly if it is not among them already |
| Scheduler.OrderStepIff | kernel/task/scheduler.c:169-440 | of all steps, exactly a sleep by a task that is still on the list spoils its order |
| Scheduler.OrderInRunIff | kernel/task/scheduler.c:169-440 | the sleepers are in waking order throughout a run exactly if no task that is still on the list sleeps again |
| Scheduler.EarlyReturnListsTwice | kernel/task/scheduler.c:416-423 | from every state, a timeout that has passed when the task is on the list, followed by another sleep, lists the task twice |
| Scheduler.Cpu.BlockTaskTimeout | kernel/task/scheduler.c:403-425 | when it times out at once, and that the task is then still on the list exactly if the time passed between the two readings of the clock |
| Scheduler.Cpu.ResumeFromTimeout | kernel/task/scheduler.c:427-439 | the task leaves the list unless the wakeup reason is the timeout, which nothing wakes with |
| Scheduler.Cpu.constructor | kernel/task/scheduler.c:124-159 | the state after boot |
| Scheduler.Cpu.Schedule | kernel/task/scheduler.c:186-197 | the head of the queue, or the idle task |
| Scheduler.Cpu.UnblockReason | kernel/task/scheduler.c:442-475 | wakes exactly a task that is interruptible, or blocked when it is no signal: it is then running and current or queued, at most once; otherwise nothing changes |
| Scheduler.WakeOneMore | kernel/task/scheduler.c:169-184 | one turn of the loop: whoever has left the list is awake, and nobody else has changed |
| Scheduler.Cpu.WakeupSleepers | kernel/task/scheduler.c:169-184 | exactly the sleepers of an orderly list whose time has come leave it; everyone who left and slept is running and current or queued; nobody else changes status |
| Scheduler.SwitchLeaves | kernel/task/scheduler.c:293-299 | the task that gives up the processor stays queued exactly if it was preempted or is still to run |
| Scheduler.Cpu.SwitchTask | kernel/task/scheduler.c:290-349 | the part under the lock of the queue |
| Scheduler.Cpu.YieldTo | kernel/task/scheduler.c:283-349 | when nothing happens, and otherwise the switch of the model; the task that gives up the processor stays queued exactly if it was preempted or is still to run |
| Scheduler.Cpu.SetTaskStatus | kernel/include/task/scheduler.h:144-148 | the status of the current task |
| Scheduler.Cpu.SleepAddTimeout | kernel/task/sleep.c:16-34 | the sleepers stay in waking order, each once, exactly if the task is not on the list already |
| Scheduler.Cpu.SleepRemoveTimeout | kernel/task/sleep.c:36-44 | the current task, and only it, leaves an orderly list |
| Scheduler.WithoutExact | kernel/task/sleep.c:36-44 | leaving the list takes out that task and nobody else |
| WorkQueue.StepInv | kernel/task/workqueue.c:10-50 | every step of worker, callers and scheduler keeps: the waiting worker is awake while there is queued work for which a call has returned |
| WorkQueue.NoLostWork | kernel/task/workqueue.c:10-50 | in every reachable state, queued work for which a call of work_queue has returned, or no call is under way, finds the waiting worker current or in the run queue, whatever other calls are doing |
| WorkQueue.TakenInOrder | kernel/task/workqueue.c:10-50 | in every run work is taken in the order in which it was queued, none left out and none twice |
| WorkQueue.WorkerRuns | kernel/task/workqueue.c:10-50 | a queued worker runs within its position plus one yields of any run |
| WorkQueue.Pool.constructor | kernel/task/workqueue.c:34-37 | no work |
| WorkQueue.Pool.GetWorkTurn | kernel/task/workqueue.c:10-25 | takes the oldest work and runs, or is blocked and waits |
| WorkQueue.Pool.AppendWork | kernel/task/workqueue.c:39-43 | work that is not queued goes to the end |
| WorkQueue.Pool.QueueWork | kernel/task/workqueue.c:39-50 | puts the work last, once, and leaves a waiting worker current or queued |
| RwSem.StepInv | kernel/task/rwsem.c:14-79 | every acquire, release and retry keeps the invariant |
| RwSem.RunInv | kernel/task/rwsem.c:14-79 | the invariant holds in every state of every interleaving in which only the semaphore wakes its waiters |
| RwSem.ReleaseReadInv | kernel/task/rwsem.c:28-44 | releasing a read keeps the invariant |
| RwSem.ReleaseWriteInv | kernel/task/rwsem.c:63-79 | releasing a write keeps the invariant exactly if nested reads were released before the last write |
| RwSem.Exclusion | kernel/task/rwsem.c:14-79 | in every run, whoever wakes the sleepers, all three counts are those of the actual holders and waiting writers, and an active writer excludes all readers and other writers |
| RwSem.WritersFirst | kernel/task/rwsem.c:20-20 | in every run the readers that hold the semaphore never become more while a writer waits |
| RwSem.ReadTakenIff | kernel/task/rwsem.c:14-26 | in every run a read is taken exactly if the task writes itself, or nobody writes and no writer waits; otherwise the task sleeps on the queue of readers |
| RwSem.WriteTakenIff | kernel/task/rwsem.c:46-61 | in every run a write is taken exactly if the task writes already or nobody holds the semaphore; otherwise the task sleeps on the queue of writers |
| RwSem.QueuesInOrder | kernel/task/sleep.c:80-144 | in every run both queues are first in, first out: a step appends the task that goes to sleep, or takes off and wakes the first writer, or wakes all readers when no writer waits |
| RwSem.AwakeStepIff | kernel/task/rwsem.c:14-79 | every step, also a wakeup from elsewhere, keeps counts and queues; a step loses the wakeup of the waiting writers exactly if it is a release whose one wakeup goes to a node of no sleeping writer while no writer is awake |
| RwSem.RunBase | kernel/task/rwsem.c:14-79 | counts match the holders and every sleeper is on its queue in every state of every run |
| RwSem.StrandedIff | kernel/task/rwsem.c:14-79 | a free semaphore that somebody waits for can be taken next by an awake task exactly if no writer waits or one of them is awake |
| RwSem.Progress | kernel/task/rwsem.c:14-79 | in every run: without a writer, active or waiting, no reader sleeps; and a free semaphore with anybody waiting always has an awake task that takes it next exactly if no release of the run misdirects its wakeup |
| RwSem.CalmProgress | kernel/task/rwsem.c:14-79 | while only the semaphore wakes its waiters no release misdirects its wakeup, and nobody is stranded |
| RwSem.StrayWakeStrands | kernel/include/task/sleep.h:47-72 | a run of eight steps in which a writer woken from elsewhere queues twice and another writer ends asleep on a free semaphore |
| RwSem.NonLifoReleaseSticks | kernel/task/rwsem.c:28-33 | a writer that releases its last write before its nested reads, however many, leaves a semaphore that belongs to it and that nobody holds |
| RwSem.StuckInEveryRun | kernel/task/rwsem.c:14-79 | as long as that task does nothing, nobody gets the semaphore in any run of the others |
| RwSem.WriteAgainFrees | kernel/task/rwsem.c:46-79 | taking and releasing a write once more frees it |
| RwSem.WakeupQueue | kernel/task/sleep.c:127-144 | the first waiters leave the queue in order, as many as asked for or all, and wake if they sleep |
| RwSem.Semaphore.constructor | kernel/task/rwsem.c:10-12 | a free semaphore |
| RwSem.Semaphore.WaitRead | kernel/include/task/sleep.h:47-72 | one turn of the wait loop of a reader, whose condition ReadTakenIff states |
| RwSem.Semaphore.DownRead | kernel/task/rwsem.c:14-26 | takes the semaphore for reading or puts the task to sleep |
| RwSem.Semaphore.UpRead | kernel/task/rwsem.c:28-44 | gives up a read and wakes a writer after the last |
| RwSem.Semaphore.WaitWrite | kernel/include/task/sleep.h:47-72 | one turn of the wait loop |
| RwSem.Semaphore.DownWrite | kernel/task/rwsem.c:46-61 | takes the semaphore for writing or puts the task to sleep |
| RwSem.Semaphore.UpWrite | kernel/task/rwsem.c:63-79 | gives up a write and wakes a writer if one waits, else all readers |
| PageCache.BytesOfPage | kernel/fs/cache.c:909-932 | within a page the file is the page |
| PageCache.BytesChanged | kernel/fs/cache.c:954-980 | changing a page changes the file at the same place only |
| PageCache.PageBounds | kernel/fs/cache.c:916-924 | the parts of the pages of a range, one after the other, make up the range |
| PageCache.Cache.constructor | kernel/fs/cache.c:401-406 | an empty cache over the stored pages |
| PageCache.Cache.GetRange | kernel/fs/cache.c:175-185 | whole pages around a range, clamped to the file |
| PageCache.RangeCovers | kernel/fs/cache.c:175-185 | that range is whole pages, the fewest that cover the bytes asked for within the file |
| PageCache.Cache.GetPage | kernel/fs/cache.c:588-620 | loads the page if needed and no other; the file is unchanged; refused exactly beyond the last page |
| PageCache.Cache.Preload | kernel/fs/cache.c:629-679 | exactly the pages of the range are added to the cache; the file is unchanged |
| PageCache.Cache.Read | kernel/fs/cache.c:899-935 | returns exactly the clamped slice of the file |
| PageCache.Cache.Write | kernel/fs/cache.c:944-983 | performs exactly the clamped splice; exactly the pages touched become dirty |
| PageCache.Cache.StorePage | kernel/fs/cache.c:970-975 | the copy into one page; exactly it becomes dirty |
| PageCache.Cache.WriteBack | kernel/fs/cache.c:484-502 | writes a page to the store; the file is unchanged |
| PageCache.Cache.Flush | kernel/fs/cache.c:688-741 | the file is unchanged; which dirty pages become clean |
| PageCache.Cache.FlushWhole | kernel/fs/cache.c:565-570 | nothing stays dirty and the store holds the file |
| PageCache.Cache.Evict | kernel/fs/cache.c:468-515 | drops a page, written back first if dirty; the file is unchanged |
| PageCache.Cache.Do | kernel/fs/cache.c:588-983 | each operation has the effect and the result that it has on the flat file |
| PageCache.Cache.Run | kernel/fs/cache.c:588-983 | any sequence of loads, reads, writes, flushes and evictions returns what it would return on a flat file |
| PageCache.FlushCompleteIff | kernel/include/fs/cache.h:83-87 | a flush reaches every page of its range exactly if the range starts in the first page |
| PageCache.FirstPageMissed | kernel/include/fs/cache.h:83-87 | a range that starts after the first page is not flushed at its first page |
| RingBuffer.Ring.constructor | kernel/klib/ringbuf.c:10-19 | an empty queue |
| RingBuffer.Ring.Read | kernel/klib/ringbuf.c:25-52 | takes the oldest bytes, across the wrap-around |
| RingBuffer.Ring.Append | kernel/klib/ringbuf.c:63-72 | one copy, up to the end of the array |
| RingBuffer.Ring.Write | kernel/klib/ringbuf.c:54-82 | appends as many bytes as there is room for, across the wrap-around |
| Pipe.StepInv | kernel/fs/pipe.c:24-99 | every turn of a writer, read, close, sleep and wakeup keeps stream, contents and calls in agreement |
| Pipe.FifoInEveryRun | kernel/fs/pipe.c:24-99 | with any number of writers: bytes read are a prefix of bytes written, every write has put in exactly its first bytes in order, and a write of at most 4096 bytes that put in anything did so in one chunk of its own, which is one stretch of the stream |
| Pipe.NoLostWakeup | kernel/fs/pipe.c:24-99 | in every run no reader sleeps while there are bytes or the pipe is broken, and no writer sleeps that has room for its next part |
| Pipe.SleepersSleep | kernel/fs/pipe.c:24-99 | who goes to sleep, and by what alone a sleeper is woken |
| Pipe.ReturnedIsDone | kernel/fs/pipe.c:58-99 | a call that has returned puts nothing more in |
| Pipe.ClosedForGood | kernel/fs/pipe.c:161-177 | after closing no byte goes in, what is left can be read, nobody sleeps and nobody can go to sleep |
| Pipe.BrokenIffClosed | kernel/fs/pipe.c:161-177 | in every run a pipe is broken exactly if it was closed |
| Pipe.End.constructor | kernel/fs/pipe.c:195-200 | an empty pipe of 4096 bytes |
| Pipe.End.WriteTurn | kernel/fs/pipe.c:89-93 | one turn of the loop over the ring is one turn of the step machine |
| Pipe.End.WriteNonblocking | kernel/fs/pipe.c:58-99 | the loop of write: all or nothing up to 4096 bytes, and which error otherwise; the whole call is a run of the step machine |
| Pipe.End.ReadNonblocking | kernel/fs/pipe.c:24-47 | the oldest bytes and their number, which is 0 at the end of a closed pipe; would block exactly if empty and not closed; it is a read of the step machine |
| Calendar.DaysBeforeYearClosed | kernel/klib/time.c:99-106 | counting year by year gives the closed number of days |
| Calendar.SecondsIsPosix | kernel/klib/time.c:54-109 | the sum over years and months is the formula of section 4.16 of the POSIX.1-2017 Base Definitions |
| Calendar.MonthSwitch | kernel/klib/time.c:57-97 | the fall-through switch adds the days before the month |
| Calendar.DateToTime | kernel/klib/time.c:54-109 | equals the POSIX formula for every date from 1970 on; what earlier years and other months give |
| Calendar.TimeToDate | kernel/klib/time.c:111-145 | for every time: both loops end, the month is within 1 to 12, and the POSIX formula of the fields with the day plus one is the time again; a real date for non-negative times |
| Calendar.Fields | kernel/klib/time.c:112-116 | hours, minutes, seconds and days put the time together again, also when negative |
| Calendar.Injective | kernel/klib/time.c:54-109 | different dates have different times |
| Calendar.RoundTrip | kernel/klib/time.c:54-145 | every date gets itself back, with the day counted from 0 |
| Utf8.EncodeScalars | kernel/klib/unicode.c:67-101 | exactly the Unicode scalar values can be encoded |
| Utf8.DecodeEncoded | kernel/klib/unicode.c:4-101 | decoding an encoded character gives it back, whatever follows |
| Utf8.EncodeDecoded | kernel/klib/unicode.c:4-101 | the bytes of an accepted character are the encoding of its code point |
| Utf8.DecodesTheGrammar | kernel/klib/unicode.c:4-52 | the decoder accepts exactly the characters of the grammar in section 4 of RFC 3629 |
| Utf8.DecodesGrammarStrings | kernel/klib/unicode.c:54-65 | a buffer is accepted exactly if it is a string of that grammar |
| Utf8.EncodeWhich | kernel/klib/unicode.c:103-114 | a sequence can be encoded exactly if it is made of scalar values |
| Utf8.DecodeOfEncode | kernel/klib/unicode.c:54-114 | decoding the encoding of any sequence of scalar values returns it |
| Utf8.EncodeOfDecode | kernel/klib/unicode.c:54-114 | any accepted byte string is the encoding of what it decodes to, so there is no second form |
| Utf8.DecodeBuf | kernel/klib/unicode.c:54-65 | the loop decodes the whole buffer or reports an error |
| Utf8.EncodeBuf | kernel/klib/unicode.c:103-114 | the loop encodes the whole sequence or reports an error |

## Left out

- Concurrency inside one operation of the page allocator and of address spaces: spinlocks, atomics, retry loops.
- Rollback after running out of memory inside an operation, bus error delivery, the prediction of fault sizes, TLB invalidation and I/O mappings.
- Reserved pages handed back to the page allocator: they never merge, so only usable pages are freed in the model.
- XArray.Store: the path down is a sequence of node values that are rebuilt on the way up, so update of nodes in place and readers under RCU are not modelled.
- XArray.AllocateIn: nodes are values here too, rebuilt on return from each level.
- Pipe.NoLostWakeup: poll events on a pipe are not modelled.
- RwSem.CalmProgress: it speaks of runs in which only the semaphore wakes its waiters; RwSem.Progress says exactly when the others make progress.
- RwSem.StepInv: it leaves out the step that wakes a sleeper from elsewhere, after which a queue can hold nodes of tasks that do not sleep; RwSem.AwakeStepIff covers all steps.
- Pipe.End.WriteNonblocking: faults while copying from user memory are not modelled, here and in the ring buffer.
- PageCache.Cache.Flush: the store is taken to write successfully; error flags, reference counts, RCU, page locks, generations and the lists of dirty caches are not modelled.
- PageCache.Cache.Preload: a file whose driver cannot read is refused in the code; the model has a store that reads.
- PageCache.Cache.Write: the code adds offset and size as 64-bit numbers and compares the sum; the model does not wrap, so sizes for which that sum overflows are not covered.
- PageCache.Cache.Evict: the choice of the page by generation is not modelled.
- PageCache.Cache.Run: the size of the file is fixed; truncation is not modelled.
- Scheduler.Cpu.YieldTo: saving and loading registers, stacks and address spaces, several processors, and the exit of tasks are not modelled.
- Scheduler.Cpu.SleepAddTimeout: the list is a sequence, in which a task added twice is there twice; the links of the code's list are then no longer a list, and what it does after that is not modelled.
- WorkQueue.NoLostWork: it speaks of the worker in its wait loop; a callback that blocks for ever blocks all later work.
- AvlIndex.Index.Insert: it asks that no balance factor goes beyond two; otherwise the code reaches a place it marks unreachable and does anything. This holds in every AVL tree, but not in every tree that removals leave (AvlShape.InsertionLeavesReach).
- AvlIndex.Index.Remove: it asks the same, and that the successor is found; a second removal can break it (AvlShape.RemovalLeavesReach).
- AvlTree.RebalanceAt: the recalculation callback of a tree is not modelled.
- Rman.Manager.Allocate: shared resources and bounds are unfinished in the code and not modelled; neither is running out of memory for segments.
- Interval trees, the kernel heap, the slab allocator, I/O buffers, UTF-16, mutexes, futexes, signals, processes, the virtual file system, drivers, sockets, system calls and everything in user space: they would add easier members or hardware details.
