# Proofs about the Pintos kernel, its teaching homework lists and MapReduce in C

This project states and proves what some of the intricate parts of the repository do. Each part is
modelled after its C source, with the same branches, constants and edge cases, and the main results
hold for all inputs, all runs or all reachable states.

- **Kernel allocator** (`Malloc`, `Arenas`, `InBand`, `Bitmap`): size-class descriptors, page-sized arenas,
  the free list threaded through free blocks, whole arenas returned to the page pool. One invariant ties
  together free lists, arena counts, live blocks and the page bitmap. Headers and links are bytes of the
  memory that is managed: the methods read and write them there, they always decode to the arenas and
  free lists, no live block is disturbed, and nothing a caller writes into its blocks disturbs them.
- **Sorting in place** (`LinkedList`, `ListSort`, `KernelList`, `UtList`, `HeapSort`, over the
  order theory in `Order`): natural merge sort by splicing on a doubly linked list, bottom-up merge
  sort with repair of `prev` links, and heap sort of an array of bytes.
- **Kernel synchronisation** (`RwLock`, `RwLockCode`, `RwOrder`, `RwStarvation`,
  `Scheduler`, `SchedulerCode`): a readers-writers
  lock and semaphores over a FIFO scheduler, as state machines whose steps are the sections other
  threads cannot interrupt. Results are about every run; the `...Code` modules show that the code,
  as updates of shared variables, takes exactly these steps.
- **64-bit division** (`Arith64`) from an instruction that divides 64 by 32 bits and traps on overflow.
- **File system** (`Inode`, `Disk`, `FileSys`): sector-chunked reads and writes against one flat
  sequence of bytes, and create, open, remove and close against the free map and the directory.
- **MapReduce** (`Codec`, `WordCount`, `Worker`, `MapReduce`, `Coordinator`): the word count pipeline
  through its files against direct counting, and the coordinator's scheduling of tasks.
- **Archive headers and page tables** (`Stdio`, `Numerals`, `Conversions`, `Ustar`, `UstarFields`,
  `Pagedir`):
  printing numbers as their formats ask, printing and parsing ustar headers, and the two-level page
  table against a flat map of pages.

## How it is organised

Code that changes things in place is a class or a method on arrays, proved against functions on values;
what the source promises is then proved about these functions as lemmas. Preconditions are those the
source puts on its callers. Machine integers are unbounded integers with wrap-around written out where
it can happen. Memory exhaustion, the clock, what other threads do and the order in which `qsort` leaves
equal elements are parameters or free choices.

Some intended properties do not hold of the code as it is. For these the project proves exactly when
they do: `malloc` returns a block that is too small for sizes from 0xFFFFFFF5 on, where its page count
wraps around (`Malloc.CapacityEnough`), and then `realloc` copies more than fits when the old block has
more than one page (`Malloc.CopyFits`); `umod64` and `smod64` return 32 bits and are exact for the
divisors named in `Arith64.UModExactIff` and `Arith64.SModExactIff`; `by_key` cannot tell keys apart that
differ behind a NUL (`Worker.ByKeyZero`); a file creation that the directory refuses leaves data sectors
marked for good (`FileSys.System.Create`, `FileSys.SectorsLost`), and one that runs out of memory while it
reads the directory may add a name twice or overwrite an entry (`FileSys.NamesStayUnique`, with the inputs
`FileSys.AddedTwice` and `FileSys.Overwritten`); a printed number is wider than its width when the format has
the flag 0 and a star whose argument is negative (`Conversions.AsWideAsAsked`, `Conversions.PaddedTwice`), since
the parser drops 0 for the flag - before it reads the width; a writer that waits for the readers-writers lock
can be passed by another writer after every signal, for ever (`RwStarvation.WriterMayWaitForever`), though by
nobody else (`RwStarvation.OvertakenByWritersOnly`). The
coordinator counts reports, also those that repeat, as they do when a task was handed out again after the
timeout and both workers finish: reduces then start before all maps are done, or never. The conditions are
`Coordinator.ReducesOpen`, `Coordinator.MapsFirst`, `Coordinator.DoneMeansAll` and
`Coordinator.HandedOutThenReported`; `Coordinator.RepeatedReports`, `Coordinator.PassedTheMaps` and
`Coordinator.DoneWithoutAll` are runs in which they fail, and `Coordinator.NeverOpens` and
`Coordinator.StuckForever` say what follows. A job without reduce tasks is never finished
(`Coordinator.NothingToReduce`).

The comments of `inode_write_at` provide for a sector of zeros when a chunk fills a whole sector through
the bounce buffer; that branch cannot be reached, and the model asserts so.

## Model

| member | source | states |
|---|---|---|
| `Arith64.Divl` | Homework/proj-pregame/src/lib/arithmetic.c:25-33 | the divide instruction gives the largest multiple of d up to n; it may only be used when the quotient fits in 32 bits, which every use in the model is proved to meet |
| `Arith64.Nlz` | Homework/proj-pregame/src/lib/arithmetic.c:37-63 | shifting by the result brings the highest set bit to the top, and no shift on the way loses a bit |
| `Arith64.ShortQuotient` | Homework/proj-pregame/src/lib/arithmetic.c:93-98 | two-digit division is exact for 32-bit divisors |
| `Arith64.Estimate` | Homework/proj-pregame/src/lib/arithmetic.c:105-107 | the estimate from the normalized divisor fits in 32 bits and is the quotient or one more |
| `Arith64.CorrectionStep` | Homework/proj-pregame/src/lib/arithmetic.c:108 | one comparison, in wrap-around arithmetic, turns such an estimate into the quotient |
| `Arith64.LongQuotient` | Homework/proj-pregame/src/lib/arithmetic.c:102-109 | estimate and correction give the exact quotient for divisors of more than 32 bits |
| `Arith64.UDiv64` | Homework/proj-pregame/src/lib/arithmetic.c:67-111 | the quotient rounded down, for all 64-bit n and nonzero d |
| `Arith64.UMod64` | Homework/proj-pregame/src/lib/arithmetic.c:115 | the remainder modulo 2^32 |
| `Arith64.UModExactIff` | Homework/proj-pregame/src/lib/arithmetic.c:115 | the 32-bit remainder is right for every n exactly when d is at most 2^32 |
| `Arith64.TruncMeaning` | Homework/proj-pregame/src/lib/arithmetic.c:117-128 | what truncating division means: sign and size of quotient and remainder |
| `Arith64.SDiv64` | Homework/proj-pregame/src/lib/arithmetic.c:119-124 | the quotient truncated toward zero, except for the one pair whose quotient does not fit |
| `Arith64.SMod64` | Homework/proj-pregame/src/lib/arithmetic.c:128 | the truncated remainder, reduced to 32 signed bits |
| `Arith64.SModExactIff` | Homework/proj-pregame/src/lib/arithmetic.c:128 | the signed 32-bit remainder is right for every n exactly for divisors of size at most 2^31 |
| `LinkedList.Splice` | Homework/hw-list/list.c:164-182 | which six links change, in the order the code changes them |
| `LinkedList.SpliceWithin` | Homework/hw-list/list.c:164-182 | moving a range of a list in front of another element of the same list rearranges exactly these pieces, and the links stay mirrored |
| `LinkedList.SpliceAcross` | Homework/hw-list/list.c:164-182 | moving a range into another list leaves two well-formed lists |
| `LinkedList.Insert` | Homework/hw-list/list.c:151-159 | the element is linked in between, nothing else moves |
| `LinkedList.Remove` | Homework/hw-list/list.c:222-227 | the list without the element; its old successor is returned |
| `LinkedList.ReversedChain` | Homework/hw-list/list.c:281-290 | a list whose interior links are exchanged is the list in reverse order |
| `ListSort.FindEndOfRun` | Homework/hw-list/list.c:307-318 | the end of the longest nondecreasing run |
| `ListSort.InplaceMerge` | Homework/hw-list/list.c:325-341 | moving elements one by one merges two adjacent ranges, the left one first among equals |
| `ListSort.MergeRuns` | Homework/hw-list/list.c:359-373 | one round of a pass: the second run is found and merged into the first |
| `KernelList.List.SortPass` | Homework/hw-list/list.c:353-374 | one pass merges the runs two by two; it returns the number of runs it put out |
| `KernelList.List.Sort` | Homework/hw-list/list.c:346-377 | the same nodes in sorted order, equal elements in their old order, after at most max(1, ceil(log2 R)) passes for R runs |
| `Order.MergeSorted` | Homework/hw-list/list.c:325-341 | merging sorted sequences gives a sorted sequence |
| `Order.MergeClass` | Homework/hw-list/list.c:325-341 | merging keeps the order of equal elements, those of the first sequence in front |
| `Order.PassHalvesRuns` | Homework/hw-list/list.c:346-377 | a pass over R runs puts out ceil(R/2) sequences and leaves at most that many runs |
| `Order.PassKeepsClasses` | Homework/hw-list/list.c:346-377 | a pass is a permutation that keeps equal elements in order |
| `Order.OneRunSorted` | Homework/hw-list/list.c:375-377 | a list of at most one run is sorted, so the loop may stop |
| `Order.PassesIsLog` | Homework/hw-list/list.c:346-377 | the bound on the passes is the rounded-up binary logarithm, and at least 1 |
| `Order.StableSortUnique` | Homework/hw-list/list.c:342-346 | there is only one stable sort of a sequence, so its statement fixes the result |
| `KernelList.List.Reverse` | Homework/hw-list/list.c:281-290 | the elements in reverse order, well formed |
| `KernelList.List.InsertOrdered` | Homework/hw-list/list.c:382-394 | inserting into a sorted list is the stable sort of the list with the element at its end |
| `KernelList.List.Unique` | Homework/hw-list/list.c:400-416 | the first element of each stretch of equal ones stays; the others go to the second list in order |
| `Order.KeptAndDropped` | Homework/hw-list/list.c:400-416 | no element is lost between the two lists |
| `Order.KeptFirstOfClass` | Homework/hw-list/list.c:396-416 | on a sorted list exactly the first of each class of equal elements stays |
| `Order.InsertedInOrder` | Homework/hw-list/list.c:382-394 | putting an element in front of the first greater one is a stable sort |
| `UtList.Append` | Homework/hw-http/utlist.h:599-611 | the list with the element at its end; the head's prev is the new tail |
| `UtList.Delete` | Homework/hw-http/utlist.h:632-648 | the list without the element, at the head, inside, at the tail or as its only element |
| `UtList.MergeBlocks` | Homework/hw-http/utlist.h:234-266 | the inner loop puts out the merge of the two blocks and stops at the end of the second |
| `UtList.SortPass` | Homework/hw-http/utlist.h:219-276 | one pass merges blocks of the given width two by two, repairs every prev and both ends, and counts the merges |
| `UtList.Sort` | Homework/hw-http/utlist.h:208-286 | the stable sort of the same nodes, prev mirroring next, the head's prev the tail, the tail's next null; the number of passes is the rounded-up binary logarithm of the length, and at least 1 |
| `UtList.PassDoubles` | Homework/hw-http/utlist.h:219-285 | after a pass blocks of twice the width are in order |
| `UtList.PassKeeps` | Homework/hw-http/utlist.h:219-285 | a pass is a permutation that keeps equal elements in order |
| `UtList.OneMerge` | Homework/hw-http/utlist.h:280-282 | at most one merge means the width covers the list, and then one block in order is a sorted list |
| `HeapSort.DoSwap` | Homework/proj-pregame/src/lib/stdlib.c:58-68 | byte by byte, exactly the two elements change places |
| `HeapSort.Heapify` | Homework/proj-pregame/src/lib/stdlib.c:82-104 | the loop on the bytes is the floating down of one element in the sequence of elements |
| `HeapSort.SiftRestores` | Homework/proj-pregame/src/lib/stdlib.c:79-104 | floating down restores the heap when only that element may be too small |
| `HeapSort.SiftPermutes` | Homework/proj-pregame/src/lib/stdlib.c:79-104 | floating down permutes the first elements and leaves the others |
| `HeapSort.RootIsLargest` | Homework/proj-pregame/src/lib/stdlib.c:124-128 | the root of a heap is no smaller than any element of it |
| `HeapSort.HeapGrows` | Homework/proj-pregame/src/lib/stdlib.c:120-122 | a round of the first phase extends the heap by one element |
| `HeapSort.RootExtracted` | Homework/proj-pregame/src/lib/stdlib.c:124-128 | a round of the second phase keeps a heap in front of the largest elements in order |
| `HeapSort.Sort` | Homework/proj-pregame/src/lib/stdlib.c:112-129 | the same elements in order, for every comparison that orders these elements totally, ties allowed |
| `HeapSort.BinarySearch` | Homework/proj-pregame/src/lib/stdlib.c:159-178 | finds an element equal to the key, or nothing exactly when there is none, for a comparison that orders key and elements |
| `Bitmap.Map.Contains` | Homework/proj-pregame/src/lib/kernel/bitmap.c:198-209 | whether any of the bits has the value |
| `Bitmap.Map.Scan` | Homework/proj-pregame/src/lib/kernel/bitmap.c:235-246 | the first group of bits with the value, or none exactly when there is none |
| `Bitmap.Map.SetMultiple` | Homework/proj-pregame/src/lib/kernel/bitmap.c:169-178 | these bits have the value and the others stay |
| `Bitmap.Map.ScanAndFlip` | Homework/proj-pregame/src/lib/kernel/bitmap.c:256-261 | the first free group is found and marked, or nothing changes |
| `Arenas.NewArenaKeeps` | Homework/proj-pregame/src/threads/malloc.c:115-134 | making a free page an arena keeps the invariant |
| `Arenas.TakeKeeps` | Homework/proj-pregame/src/threads/malloc.c:136-141 | handing out the first free block keeps the invariant |
| `Arenas.PutKeeps` | Homework/proj-pregame/src/threads/malloc.c:212-216 | putting a live block on the free list keeps the invariant |
| `Arenas.DropKeeps` | Homework/proj-pregame/src/threads/malloc.c:215-225 | giving back an arena whose blocks are all free keeps the invariant |
| `Arenas.NewBigKeeps` | Homework/proj-pregame/src/threads/malloc.c:97-111 | handing out a big block keeps the invariant |
| `Arenas.DropBigKeeps` | Homework/proj-pregame/src/threads/malloc.c:228-232 | freeing a big block keeps the invariant |
| `Arenas.BlocksApart` | Homework/proj-pregame/src/threads/malloc.c:251-257 | two blocks of an arena do not overlap |
| `Arenas.LiveInside` | Homework/proj-pregame/src/threads/malloc.c:81-142 | a live block lies inside the pages of its arena, behind the header |
| `Arenas.LiveApart` | Homework/proj-pregame/src/threads/malloc.c:81-142 | live blocks are pairwise disjoint |
| `Arenas.FreeApart` | Homework/proj-pregame/src/threads/malloc.c:194-234 | a live block and a free block are disjoint |
| `Arenas.AllFree` | Homework/proj-pregame/src/threads/malloc.c:215-224 | the free count never exceeds the blocks of an arena, and when it reaches them every block of the arena is on the free list |
| `Arenas.ArenaHasLive` | Homework/proj-pregame/src/threads/malloc.c:215-225 | between calls every arena has a live block |
| `Arenas.NothingLeft` | Homework/proj-pregame/src/threads/malloc.c:194-234 | when no block is live, no arena is left and the bitmap marks only the pages of other users |
| `InBand.InsertEncodes` | Homework/proj-pregame/src/lib/kernel/list.c:144-152 | the four pointer writes of an insertion, into blocks or the ends of the list, keep memory decoding to the arenas and to the lists with the block inserted; only links of listed blocks change |
| `InBand.UnlinkEncodes` | Homework/proj-pregame/src/lib/kernel/list.c:215-220 | the two pointer writes of a removal, the same with the block left out |
| `InBand.HeaderEncodes` | Homework/proj-pregame/src/threads/malloc.c:105-129 | writing a header keeps memory decoding to all lists and to the arenas with this one |
| `InBand.ListReads` | Homework/proj-pregame/src/lib/kernel/list.c:63-75 | following the next pointers from the list's head to its tail gives exactly the free list |
| `InBand.HeaderReads` | Homework/proj-pregame/src/threads/malloc.c:48-53 | the descriptor pointer and the count in a header determine the arena; null means a big block |
| `InBand.SpreadOut` | Homework/proj-pregame/src/threads/malloc.c:126-133 | free blocks are aligned, apart from each other and from all headers, and each is on one list once |
| `InBand.LiveIsNotControl` | Homework/proj-pregame/src/threads/malloc.c:81-142 | no byte of a live block is part of a header or of a link |
| `InBand.ControlKept` | Homework/proj-pregame/src/threads/malloc.c:48-58 | memory that changes only elsewhere decodes to the same arenas and lists |
| `Malloc.Allocator.constructor` | Homework/proj-pregame/src/threads/malloc.c:68-79 | seven descriptors, 16 to 1024 bytes, with empty free lists; nothing handed out |
| `Malloc.Allocator.ListInsert` | Homework/proj-pregame/src/lib/kernel/list.c:144-152 | the block is in the free list at this place; memory decodes to it |
| `Malloc.Allocator.ListRemove` | Homework/proj-pregame/src/lib/kernel/list.c:215-220 | the block is no longer in the free list; memory decodes to it |
| `Malloc.Allocator.ReadHeader` | Homework/proj-pregame/src/threads/malloc.c:236-247 | the descriptor and count read from an arena's page are its own, under the right magic number |
| `Malloc.Allocator.BlockSizeOf` | Homework/proj-pregame/src/threads/malloc.c:164-170 | the number of bytes a live block may use |
| `Malloc.Allocator.ClientWrite` | Homework/proj-pregame/src/threads/malloc.c:81-142 | a caller that writes into its block changes this byte and nothing the allocator keeps |
| `Malloc.Allocator.PallocGet` | Homework/proj-pregame/src/threads/palloc.c:65-91 | the first run of free pages is marked, none exactly when there is none or none was asked for |
| `Malloc.Allocator.PallocFree` | Homework/proj-pregame/src/threads/palloc.c:103-126 | the pages, all of them marked, are cleared |
| `Malloc.Allocator.Malloc` | Homework/proj-pregame/src/threads/malloc.c:83-142 | a new block of the capacity for the size, or nothing changes; when exactly nothing is handed out: for a big block, when no run of the least number of pages is free; which block it is; bytes and capacities of live blocks stay |
| `Malloc.Allocator.Free` | Homework/proj-pregame/src/threads/malloc.c:196-234 | exactly this block is no longer live; while its arena exists it is the first of its free list; bytes and capacities of the others stay |
| `Malloc.Allocator.Realloc` | Homework/proj-pregame/src/threads/malloc.c:178-192 | the new block starts with the bytes of the old one, as many as both hold; on failure nothing changes; all other blocks stay |
| `Malloc.Allocator.DropArena` | Homework/proj-pregame/src/threads/malloc.c:215-225 | the loop takes all blocks of the arena off the list, and the page goes back |
| `Malloc.CapacityEnough` | Homework/proj-pregame/src/threads/malloc.c:81-111 | a block handed out is large enough exactly for sizes below 0xFFFFFFF5; for the others it has 4084 bytes |
| `Malloc.BigPagesEnough` | Homework/proj-pregame/src/threads/malloc.c:100 | when the 32-bit page count wraps around to 0 or 1 |
| `Malloc.BigPagesLeast` | Homework/proj-pregame/src/threads/malloc.c:100 | no fewer pages hold a big block and its header, for all sizes that do not wrap around |
| `Malloc.SmallBlocks` | Homework/proj-pregame/src/threads/malloc.c:68-96 | small blocks have the smallest power of two that is large enough, 16 at least |
| `Malloc.CopyFits` | Homework/proj-pregame/src/threads/malloc.c:185-187 | realloc's copy fits the new block exactly when the size did not wrap around or the old block has one page |
| `RwLock.StepKeeps` | Homework/proj-pregame/src/threads/synch.c:230-277 | every step of every thread keeps the invariant |
| `RwLock.RunHolds` | Homework/proj-pregame/src/threads/synch.c:230-277 | the invariant holds in every state of every run |
| `RwLock.MutualExclusion` | Homework/proj-pregame/src/threads/synch.c:230-277 | in every run a writer inside the lock is alone inside |
| `RwLock.NoLostWakeup` | Homework/proj-pregame/src/threads/synch.c:230-277 | while a thread waits unsignalled, some thread is inside or a signalled writer has not yet tested again |
| `RwLock.NoDeadlock` | Homework/proj-pregame/src/threads/synch.c:230-358 | a state where no thread can move has no blocked thread |
| `RwLock.NoReaderAdmitted` | Homework/proj-pregame/src/threads/synch.c:234-241 | no step admits a reader while a writer waits |
| `RwLock.WriterNotOvertaken` | Homework/proj-pregame/src/threads/synch.c:230-277 | while a writer waits, the readers inside are among those inside when it began |
| `RwOrder.AdmittedExactly` | Homework/proj-pregame/src/threads/synch.c:230-254 | a reader that has the guard goes in exactly when no writer is inside or waiting, a writer exactly when nobody is inside |
| `RwOrder.WokenByRelease` | Homework/proj-pregame/src/threads/synch.c:257-277 | a release wakes nobody while others are inside, else the first waiting writer not woken yet, or all waiting readers if no writer waits |
| `RwOrder.NobodyPasses` | Homework/proj-pregame/src/threads/synch.c:64-344 | in the queue of the guard and in that of the waiting writers nobody gets in front of anybody |
| `RwStarvation.WriterMayWaitForever` | Homework/proj-pregame/src/threads/synch.c:230-277 | a run without end in which both threads act again and again, one writer is let in in every round and the other waits for ever |
| `RwStarvation.OvertakenByWritersOnly` | Homework/proj-pregame/src/threads/synch.c:241-248 | a writer that has waited since no reader was inside, and has the guard again, goes in exactly when no writer is inside |
| `RwLockCode.Shared.constructor` | Homework/proj-pregame/src/threads/synch.c:222-227 | the initial state of the machine |
| `RwLockCode.Shared.AcquireSection` | Homework/proj-pregame/src/threads/synch.c:230-251 | what acquire does while it owns the guard is the machine's step |
| `RwLockCode.Shared.ReleaseSection` | Homework/proj-pregame/src/threads/synch.c:261-273 | what release does while it owns the guard is the machine's step |
| `RwLockCode.Shared.SignalWriters` | Homework/proj-pregame/src/threads/synch.c:336-344 | wakes the first waiting writer, if any |
| `RwLockCode.Shared.BroadcastToReaders` | Homework/proj-pregame/src/threads/synch.c:352-358 | the loop wakes every waiting reader and empties the list |
| `RwLockCode.Shared.SemaDownGuard` | Homework/proj-pregame/src/threads/synch.c:64-70 | one test of the guard's semaphore: taken, or the thread blocks |
| `RwLockCode.Shared.SemaUpGuard` | Homework/proj-pregame/src/threads/synch.c:104-108 | the guard is given up and one blocked thread tests again |
| `RwLockCode.Shared.SemaDownSignal` | Homework/proj-pregame/src/threads/synch.c:322-326 | one test of the private semaphore of cond_wait |
| `RwLockCode.Shared.Perform` | Homework/proj-pregame/src/threads/synch.c:230-358 | whichever thread acts, the variables take the machine's step and the invariant stays |
| `Scheduler.StepKeeps` | Homework/proj-pregame/src/threads/synch.c:58-109 | every interrupts-off section keeps the invariant |
| `Scheduler.RunHolds` | Homework/proj-pregame/src/threads/thread.c:221-315 | the invariant holds in every state of every run |
| `Scheduler.OnOneList` | Homework/proj-pregame/src/threads/thread.c:215-261 | a thread is on the ready list exactly when it is ready and not idle, and on a semaphore's list exactly when it is blocked there, each at most once |
| `Scheduler.WaitersAreServed` | Homework/proj-pregame/src/threads/synch.c:51-109 | while threads wait at a semaphore, its value is at most the number of threads woken from it that have not tested again |
| `Scheduler.ValueIsBalance` | Homework/proj-pregame/src/threads/synch.c:36-109 | the value is the initial value plus the ups minus the units taken, in every run |
| `Scheduler.ExitIsForever` | Homework/proj-pregame/src/threads/thread.c:284-299 | a thread that has exited never runs again and is on no list, in every run |
| `Scheduler.BoundedWait` | Homework/proj-pregame/src/threads/thread.c:451-550 | a thread at place p of the ready list runs by the time the processor was handed over p + 1 times |
| `Scheduler.WokenInTurn` | Homework/proj-pregame/src/threads/synch.c:58-109 | a thread at place p of a semaphore's waiters stays in line for p ups, one place further after each, and the next up wakes it |
| `SchedulerCode.Kernel.constructor` | Homework/proj-pregame/src/threads/thread.c:122-133 | the state after the scheduler has started |
| `SchedulerCode.Kernel.SemaDownTest` | Homework/proj-pregame/src/threads/synch.c:65-69 | a round of sema_down is the machine's step |
| `SchedulerCode.Kernel.SemaTryDown` | Homework/proj-pregame/src/threads/synch.c:78-93 | takes a unit exactly when there is one |
| `SchedulerCode.Kernel.SemaUp` | Homework/proj-pregame/src/threads/synch.c:99-109 | adds a unit and wakes the first waiter |
| `SchedulerCode.Kernel.DoSchedule` | Homework/proj-pregame/src/threads/thread.c:538-550 | the head of the ready list, or the idle thread, becomes the only running thread |
| `SchedulerCode.Kernel.ThreadYield` | Homework/proj-pregame/src/threads/thread.c:303-315 | the running thread goes to the end of the ready list unless it is the idle thread |
| `SchedulerCode.Kernel.ThreadExit` | Homework/proj-pregame/src/threads/thread.c:288-299 | the running thread is dying and the next one runs |
| `SchedulerCode.Kernel.ThreadCreate` | Homework/proj-pregame/src/threads/thread.c:176-213 | a new thread is ready at the end of the list |
| `Inode.ReadAt` | Homework/proj-pregame/src/filesys/inode.c:165-209 | the bytes of the file from the sectors where they are: all that were asked for inside the file, up to its end, none behind it; whole sectors only without memory |
| `Inode.WriteAt` | Homework/proj-pregame/src/filesys/inode.c:215-268 | the data is at its place in the file, as many bytes as inside the file, up to its end, none behind it or while writes are denied; no other byte of the device changes |
| `Inode.ChunkThenRest` | Homework/proj-pregame/src/filesys/inode.c:170-205 | chunk by chunk the loop moves the clipped request; without a bounce buffer only whole sectors |
| `Inode.WriteIsUpdate` | Homework/proj-pregame/src/filesys/inode.c:215-268 | on the flat sequence of bytes a write is a slice update |
| `Inode.PaddingKept` | Homework/proj-pregame/src/filesys/inode.c:215-268 | bytes behind the end of the file stay |
| `Inode.OthersKept` | Homework/proj-pregame/src/filesys/inode.c:215-268 | no sector outside the file and no other file changes |
| `Inode.ReadBack` | Homework/proj-pregame/src/filesys/inode.c:165-268 | reading gives what was written |
| `Inode.WriteThenRead` | Homework/proj-pregame/src/filesys/inode.c:165-268 | writing inside a file and reading the same range gives exactly the data |
| `Disk.InodesDisjoint` | Homework/proj-pregame/src/filesys/inode.c:60-159 | linked or open inodes have disjoint sectors, all of them marked |
| `Disk.EntriesAreLive` | Homework/proj-pregame/src/filesys/directory.c:155-185 | no directory entry names a removed inode or released sectors |
| `Disk.DenialsBounded` | Homework/proj-pregame/src/filesys/inode.c:270-284 | the assertions of inode_deny_write and inode_allow_write hold |
| `Disk.MarkedSectors` | Homework/proj-pregame/src/filesys/free-map.c:25-41 | a marked sector belongs to exactly the inodes that exist, unless it was leaked |
| `Disk.ReleasedAtLastClose` | Homework/proj-pregame/src/filesys/inode.c:135-153 | the last close of a removed inode clears exactly its sectors, which were all marked; any other close clears none |
| `Disk.ClosedKeeps` | Homework/proj-pregame/src/filesys/inode.c:135-153 | closing keeps the invariant |
| `Disk.OpenedKeeps` | Homework/proj-pregame/src/filesys/inode.c:94-127 | opening keeps the invariant |
| `Disk.LinkKeeps` | Homework/proj-pregame/src/filesys/directory.c:115-149 | linking an inode made of unowned sectors in a free slot keeps the invariant |
| `Disk.UnlinkKeeps` | Homework/proj-pregame/src/filesys/directory.c:155-181 | clearing the entry and marking the inode removed keeps the invariant |
| `Disk.DroppedKeeps` | Homework/proj-pregame/src/filesys/directory.c:138-146 | an entry that is overwritten leaves its inode without one; its sectors stay marked, and the invariant holds |
| `Disk.DeniedKeeps` | Homework/proj-pregame/src/filesys/inode.c:272-275 | denying writes keeps the invariant |
| `Disk.AllowedKeeps` | Homework/proj-pregame/src/filesys/inode.c:280-284 | allowing them again keeps the invariant |
| `FileSys.System.constructor` | Homework/proj-pregame/src/filesys/free-map.c:12-18 | only the two fixed sectors are marked |
| `FileSys.System.Format` | Homework/proj-pregame/src/filesys/filesys.c:80-87 | afterwards both permanent inodes exist, the directory is empty, no sector is unowned and nothing is open |
| `FileSys.System.FreeMapOpen` | Homework/proj-pregame/src/filesys/free-map.c:44-50 | the free map stays open from then on; when exactly that succeeds |
| `FileSys.System.FreeMapAllocate` | Homework/proj-pregame/src/filesys/free-map.c:25-34 | the first free run is marked; nothing changes when there is none or the map cannot be written |
| `FileSys.System.FreeMapRelease` | Homework/proj-pregame/src/filesys/free-map.c:37-41 | its assertion holds and these sectors are cleared |
| `FileSys.System.InodeCreate` | Homework/proj-pregame/src/filesys/inode.c:60-89 | an inode of the given length on sectors that were free; the file reads as zeros and no other sector changes; when exactly it succeeds |
| `FileSys.System.InodeOpen` | Homework/proj-pregame/src/filesys/inode.c:94-127 | one more holder of the one in-memory inode, or nothing changes |
| `FileSys.System.InodeClose` | Homework/proj-pregame/src/filesys/inode.c:135-153 | one holder less; the last one of a removed inode releases its sectors, those of an inode without an entry stay marked |
| `FileSys.System.FileOpen` | Homework/proj-pregame/src/filesys/file.c:16-28 | takes over the holder, or gives it up |
| `FileSys.System.FileClose` | Homework/proj-pregame/src/filesys/file.c:37-43 | the file's denial and its hold on the inode end; sectors are cleared exactly at the last close of a removed inode |
| `FileSys.System.FileDenyWrite` | Homework/proj-pregame/src/filesys/file.c:96-102 | the file denies writes once |
| `FileSys.System.FileAllowWrite` | Homework/proj-pregame/src/filesys/file.c:107-113 | the file's denial is taken back, if it had one |
| `FileSys.System.Lookup` | Homework/proj-pregame/src/filesys/directory.c:73-89 | the first slot with the name among those that can be read, or none exactly when there is none |
| `FileSys.System.DirAdd` | Homework/proj-pregame/src/filesys/directory.c:115-149 | links the inode in the slot where the search ends, or refuses: invalid name, name found, no slot, no memory for the write, and then nothing changes; a search cut short may overwrite an entry |
| `FileSys.NamesStayUnique` | Homework/proj-pregame/src/filesys/directory.c:115-149 | names stay unique exactly when no slot at or behind the end of the lookup has the name; another entry is overwritten exactly when the search for a free slot is cut short among used slots |
| `FileSys.RefusedExactly` | Homework/proj-pregame/src/filesys/directory.c:115-149 | with memory for everything a name is refused exactly when it is empty, longer than 14 characters or taken, or the directory is full |
| `FileSys.AddedTwice` | Homework/proj-pregame/src/filesys/directory.c:126-146 | such a directory, name and shortage of memory for the lookup: the name is added a second time |
| `FileSys.Overwritten` | Homework/proj-pregame/src/filesys/directory.c:137-146 | such a directory, name and shortage of memory for the search: the entry of another file is overwritten |
| `FileSys.System.Create` | Homework/proj-pregame/src/filesys/filesys.c:39-49 | when exactly it succeeds; a success takes the slot where the search ends and makes a file that reads as zeros; a failure leaves no trace, except that a refused name leaves exactly the data sectors marked; only sectors that were free are written, existing inodes keep their extents, and no spare sector is given back |
| `FileSys.SectorsLost` | Homework/proj-pregame/src/filesys/filesys.c:39-49 | a free map, size and name for which the inode is created and the name refused |
| `FileSys.FilesKept` | Homework/proj-pregame/src/filesys/filesys.c:39-49 | no file that exists reads differently after a create |
| `FileSys.System.OpenFile` | Homework/proj-pregame/src/filesys/filesys.c:56-65 | one more holder of the inode found under the name, or nothing changes; when exactly |
| `FileSys.OpenedMeaning` | Homework/proj-pregame/src/filesys/inode.c:94-127 | one opener more of this inode, and nothing else |
| `FileSys.System.Remove` | Homework/proj-pregame/src/filesys/filesys.c:71-77 | the entry found is cleared; sectors go at once when nothing holds the inode open, else it is marked; a failure changes nothing; when exactly it succeeds |
| `FileSys.RemovedEntry` | Homework/proj-pregame/src/filesys/directory.c:155-185 | afterwards no entry has the name, and the other entries are as they were |
| `FileSys.RemovedSectors` | Homework/proj-pregame/src/filesys/inode.c:135-160 | the sectors of a removed file are free, and no others, or stay until it is closed |
| `FileSys.WritesStayInside` | Homework/proj-pregame/src/filesys/inode.c:215-268 | in every valid state, writing to one file changes no inode sector and no other file's data |
| `Codec.LengthRoundTrip` | Homework/hw-map-reduce/codec/codec.c:16-34 | a length written as eight bytes is read back |
| `Codec.LeByte` | Homework/hw-map-reduce/codec/codec.c:16-34 | byte i counts for 256 to the power of i |
| `Codec.Writer.Write` | Homework/hw-map-reduce/codec/codec.c:16-19 | the length and the bytes are appended |
| `Codec.Reader.Next` | Homework/hw-map-reduce/codec/codec.c:30-60 | the next buffer, or failure when it is not there in full or no memory can be had for it; where the position is then |
| `Codec.Reader.Count` | Homework/hw-map-reduce/codec/codec.c:62-73 | the number of buffers that can be read |
| `Codec.ReadBack` | Homework/hw-map-reduce/codec/codec.c:16-73 | reading a written file gives back all buffers |
| `WordCount.NumWords` | Homework/hw-map-reduce/app/wc/wc.c:9-27 | the number of stretches of two or more letters, for files whose length is an int |
| `WordCount.Map` | Homework/hw-map-reduce/app/wc/wc.c:29-56 | exactly one pair for every stretch of two letters or more, from left to right, with the stretch in lower case and the value 1; the array has room for exactly these |
| `WordCount.WordsAreLower` | Homework/hw-map-reduce/app/wc/wc.c:29-56 | keys are made of lower-case letters, two at least |
| `WordCount.WordsAreStretches` | Homework/hw-map-reduce/app/wc/wc.c:29-56 | the words of a text are its stretches of letters: small letters as they are, capital letters moved up by 32 |
| `WordCount.SameKey` | Homework/hw-map-reduce/app/wc/wc.c:29-56 | two stretches have the same key exactly when they agree letter by letter up to case |
| `WordCount.Reduce` | Homework/hw-map-reduce/app/wc/wc.c:58-69 | the sum of the values, in a 32-bit integer |
| `WordCount.IntRoundTrip` | Homework/hw-map-reduce/app/wc/wc.c:58-69 | a value is read back as written, wrapped to 32 bits |
| `Worker.ByKeyZero` | Homework/hw-map-reduce/lib/lib.c:26-39 | by_key finds two keys shorter than 2^31 equal exactly when they have one length and agree up to a NUL |
| `Worker.ByKeyIsDictionary` | Homework/hw-map-reduce/lib/lib.c:26-39 | on keys without NUL by_key is dictionary order |
| `Worker.BeforeTransitive` | Homework/hw-map-reduce/lib/lib.c:26-39 | that order is transitive, as qsort needs |
| `Worker.NulHidesTheRest` | Homework/hw-map-reduce/lib/lib.c:26-39 | two different keys that by_key takes for equal |
| `Worker.LengthsWrap` | Homework/hw-map-reduce/lib/lib.c:26-39 | a key and its extension are equal to by_key exactly when the extension is a multiple of 2^32 bytes |
| `Worker.Ihash` | Homework/hw-map-reduce/lib/lib.c:13-24 | the loop computes the hash of the key alone |
| `Worker.HashExamples` | Homework/hw-map-reduce/lib/lib.c:13-24 | hashes of short keys, one of them with a character above 127 |
| `Worker.WriteMapKvs` | Homework/hw-map-reduce/worker/task_handler.c:170-184 | the file of each reduce task has exactly the pairs whose key hashes to it, in order |
| `Worker.CountEntries` | Homework/hw-map-reduce/worker/task_handler.c:41-57 | the number of buffers in all files, which are rewound |
| `Worker.ReadMapKvs` | Homework/hw-map-reduce/worker/task_handler.c:69-92 | the pairs of all files, one file after the other, as far as there is room |
| `Worker.ReduceKvs` | Homework/hw-map-reduce/worker/task_handler.c:94-116 | the two-pointer loop writes one result for each group of equal keys |
| `Worker.PairsOfFlat` | Homework/hw-map-reduce/worker/task_handler.c:69-184 | keys and values written in turn pair up again |
| `MapReduce.NothingLost` | Homework/hw-map-reduce/worker/task_handler.c:9-92 | what a reduce task reads is what the map tasks emitted for it; the number of entries is even and leaves room for all |
| `MapReduce.MappedBag` | Homework/hw-map-reduce/worker/task_handler.c:170-184 | a pair reaches a reduce task as often as its key occurs as a word, if the key belongs there |
| `MapReduce.ReducedCounts` | Homework/hw-map-reduce/worker/task_handler.c:94-116 | on sorted pairs each key comes out once, with the number of its pairs |
| `MapReduce.TaskCountsWords` | Homework/hw-map-reduce/worker/task_handler.c:9-39 | a reduce task puts out exactly the words that belong to it, each once, with its number of occurrences, however qsort arranged equal keys |
| `MapReduce.JobCountsWords` | Homework/hw-map-reduce/worker/task_handler.c:9-184 | over all output files every word is there exactly once with its number of occurrences, and nothing else |
| `MapReduce.CountFits` | Homework/hw-map-reduce/app/wc/wc.c:58-69 | the 32-bit value is the number of occurrences exactly when that is below 2^31 |
| `MapReduce.HandleMapTask` | Homework/hw-map-reduce/worker/task_handler.c:118-144 | a map task leaves one file for each reduce task |
| `MapReduce.HandleReduceTask` | Homework/hw-map-reduce/worker/task_handler.c:9-39 | an odd number of entries is refused; else the output is the reduced pairs in the order the sort chose |
| `MapReduce.RunJob` | Homework/hw-map-reduce/worker/task_handler.c:9-184 | from the input files through all map and reduce tasks to output files that read back as what the reduce tasks must put out |
| `Coordinator.HandOutKeeps` | Homework/hw-map-reduce/coordinator/coordinator.c:82-140 | handing out a task that is new or overdue keeps the invariant: hand-outs of one task ten seconds apart, none again after its success, reduces only when as many map successes were reported as there are maps |
| `Coordinator.ReportKeeps` | Homework/hw-map-reduce/coordinator/coordinator.c:192-209 | a counter is the number of reports, and the number of successful tasks exactly when none is reported twice; arrays and log keep in step |
| `Coordinator.ReducesOpen` | Homework/hw-map-reduce/coordinator/coordinator.c:96-126 | reduces may run exactly when the number of map reports is the number of maps; then all maps are done exactly when none was reported twice; and when all are done, reduces may run exactly when none was reported twice |
| `Coordinator.MapsFirst` | Homework/hw-map-reduce/coordinator/coordinator.c:96-138 | when a reduce is handed out, every map of its job has succeeded if and only if no map was reported twice by then |
| `Coordinator.NeverOpens` | Homework/hw-map-reduce/coordinator/coordinator.c:96-138 | after more map reports than maps no reduce of the job is handed out any more |
| `Coordinator.HandedOutThenReported` | Homework/hw-map-reduce/coordinator/coordinator.c:82-140 | no task is handed out after its success, if and only if no task ever handed out is reported before that |
| `Coordinator.DoneMeansAll` | Homework/hw-map-reduce/coordinator/coordinator.c:96-209 | a job done and not failed has every reduce succeeded exactly when no reduce was reported twice; its maps were all done when its first reduce was handed out exactly when no map was reported twice by then |
| `Coordinator.RepeatedReports` | Homework/hw-map-reduce/coordinator/coordinator.c:86-207 | a run: a map handed out again after the timeout is finished by both workers, and a reduce is handed out while the other map is not done |
| `Coordinator.PlaysKeeps` | Homework/hw-map-reduce/coordinator/coordinator.c:82-209 | runs of one job keep the invariant, and all their reports are genuine |
| `Coordinator.StuckForever` | Homework/hw-map-reduce/coordinator/coordinator.c:96-209 | a job whose map counter has passed the number of maps before any reduce was handed out is never done, whatever else happens to it |
| `Coordinator.PassedTheMaps` | Homework/hw-map-reduce/coordinator/coordinator.c:86-207 | such a run: one map, handed out twice and reported twice |
| `Coordinator.DoneWithoutAll` | Homework/hw-map-reduce/coordinator/coordinator.c:196-207 | a run in which a reduce is handed out twice and reported twice, and the job is done while the other reduce is not |
| `Coordinator.NothingToReduce` | Homework/hw-map-reduce/coordinator/coordinator.c:196-207 | a job without reduce tasks is never finished by any run |
| `Coordinator.ReportedUnseen` | Homework/hw-map-reduce/coordinator/coordinator.c:82-140 | a task that has succeeded may be handed out exactly when it never was before |
| `Coordinator.Server.constructor` | Homework/hw-map-reduce/coordinator/coordinator.c:469-479 | no job, an empty queue |
| `Coordinator.Server.SubmitJob` | Homework/hw-map-reduce/coordinator/coordinator.c:262-342 | a fresh job with the asked number of tasks, none of them handed out, at the end of the queue; or no change |
| `Coordinator.Server.FindExpired` | Homework/hw-map-reduce/coordinator/coordinator.c:82-112 | a task found was handed out ten seconds ago and has not succeeded; none is found only when no task was overdue |
| `Coordinator.Server.FindUnassigned` | Homework/hw-map-reduce/coordinator/coordinator.c:114-140 | a task nobody has had yet, or none exactly when there is none |
| `Coordinator.Server.GetTask` | Homework/hw-map-reduce/coordinator/coordinator.c:379-426 | the first overdue task in the order of the queue, maps before reduces, lower indexes first; if none was overdue the first never handed out in that order; nothing exactly when neither exists |
| `Coordinator.Server.FinishTask` | Homework/hw-map-reduce/coordinator/coordinator.c:429-466 | what a report changes in its job; a job whose last reduce is counted is done and leaves the queue, which keeps its order; a failure ends the job |
| `Coordinator.Server.PollJob` | Homework/hw-map-reduce/coordinator/coordinator.c:346-376 | done exactly when no longer queued |
| `Stdio.FormatInteger` | Homework/proj-pregame/src/lib/stdio.c:456-528 | the whole field, for every flag, width, precision and base; the digit buffer never overflows; what the field says is `Numerals.FieldMeaning` |
| `Stdio.Accumulate` | Homework/proj-pregame/src/lib/stdio.c:484-495 | digits lowest first, with commas, in at most 44 characters |
| `Stdio.OctalField` | Homework/proj-pregame/src/lib/stdio.c:456-528 | a zero-padded octal field has exactly its width in octal digits, and their value |
| `Numerals.FieldMeaning` | Homework/proj-pregame/src/lib/stdio.c:456-528 | in every base and with every flag the field is blanks, sign, prefix, zeros and the numeral of the value, with commas between groups of digits, and blanks; how many of each |
| `Numerals.SignMeaning` | Homework/proj-pregame/src/lib/stdio.c:466-477 | which sign is printed |
| `Numerals.FieldWidth` | Homework/proj-pregame/src/lib/stdio.c:508-527 | the field is as wide as its width or its text asks for, exactly when it does not have both flags - and 0 or the text fills the width; how wide it is otherwise |
| `Numerals.CoreMeaning` | Homework/proj-pregame/src/lib/stdio.c:481-507 | the digits read backwards are zeros and the numeral; exactly as many zeros as precision and # ask for |
| `Numerals.ReversedIsGrouped` | Homework/proj-pregame/src/lib/stdio.c:484-491 | the digit loop, lowest digit first, gives the numeral grouped from the right |
| `Numerals.DigitsAreNumeral` | Homework/proj-pregame/src/lib/stdio.c:484-491 | repeated division gives the numeral of the value in the base, without leading zeros |
| `Conversions.ParseConversion` | Homework/proj-pregame/src/lib/stdio.c:343-447 | flags, width and precision as the format and its int arguments write them, which of them hold together, the type and where it ends |
| `Conversions.SaysOnce` | Homework/proj-pregame/src/lib/stdio.c:343-408 | a format and its arguments determine the options |
| `Conversions.AsWideAsAsked` | Homework/proj-pregame/src/lib/stdio.c:372-408 | a field is as wide as the format asks for or its text needs, unless the format has 0 and not -, no precision, and a star whose argument is negative and asks for more than the text |
| `Conversions.NegativeIsStar` | Homework/proj-pregame/src/lib/stdio.c:378-390 | only a star gives a negative width |
| `Conversions.PaddedTwice` | Homework/proj-pregame/src/lib/stdio.c:372-390 | the format 0*o with width -5 prints nine characters |
| `Stdio.Snprintf` | Homework/proj-pregame/src/lib/stdio.c:24-47 | as much of the text as fits and a terminator, nothing at all for a buffer of size 0; nothing else changes, the full length is returned |
| `Stdio.PrintedMeaning` | Homework/proj-pregame/src/lib/stdio.c:24-47 | the text with a null byte behind it, cut only when the buffer is full |
| `Ustar.Strip` | Homework/proj-pregame/src/lib/ustar.c:60-64 | the stripped name; the loop ends |
| `Ustar.StrippedIsClean` | Homework/proj-pregame/src/lib/ustar.c:50-64 | a stripped name has no prefix left, is neither empty nor "..", is the end of the name or ".", and stays as it is when stripped again |
| `UstarFields.StrippedIsLongest` | Homework/proj-pregame/src/lib/ustar.c:58-64 | whole directories are dropped from the front as long as what is left starts with /, ./ or ../, and no more |
| `Ustar.CalculateChksum` | Homework/proj-pregame/src/lib/ustar.c:34-48 | the sum of all bytes, the checksum field counted as blanks |
| `Ustar.ChecksumIgnoresField` | Homework/proj-pregame/src/lib/ustar.c:34-48 | writing the checksum does not change it |
| `UstarFields.ChecksumIsSum` | Homework/proj-pregame/src/lib/ustar.c:34-48 | an empty header has the checksum of eight blanks, and every byte outside the field counts with its value |
| `Ustar.MakeHeader` | Homework/proj-pregame/src/lib/ustar.c:73-107 | fails exactly for stripped names of more than 99 characters and then changes nothing; else all 512 bytes |
| `UstarFields.ModeField` | Homework/proj-pregame/src/lib/ustar.c:90 | the mode field is 0000644 for a file and 0000755 for a directory |
| `UstarFields.OwnerFields` | Homework/proj-pregame/src/lib/ustar.c:91-99 | user and group are 0000000, and root by name |
| `UstarFields.NumberFields` | Homework/proj-pregame/src/lib/ustar.c:93-94 | the time field is 10355706000 and the size field the size, in octal |
| `UstarFields.MarkFields` | Homework/proj-pregame/src/lib/ustar.c:95-97 | the type is 0 or 5, the magic ustar with its null byte, the version 00 |
| `UstarFields.NameAndSum` | Homework/proj-pregame/src/lib/ustar.c:88-102 | the name comes first, and the checksum field has the checksum of the header in octal |
| `UstarFields.ZeroBytes` | Homework/proj-pregame/src/lib/ustar.c:87 | all other bytes are zero |
| `Ustar.ParseOctalField` | Homework/proj-pregame/src/lib/ustar.c:117-140 | the value, or failure for overflow, a bad character, an empty or an unterminated field |
| `UstarFields.FieldMeaning` | Homework/proj-pregame/src/lib/ustar.c:117-140 | exactly fields of octal digits, one at least, with a blank or null byte behind and a value of 32 bits are read, as this value |
| `Ustar.FieldRoundTrip` | Homework/proj-pregame/src/lib/ustar.c:117-140 | a printed octal field is parsed to its value |
| `Ustar.HeaderChecksum` | Homework/proj-pregame/src/lib/ustar.c:103-104 | the checksum in a composed header is that of the header |
| `Ustar.ParseHeader` | Homework/proj-pregame/src/lib/ustar.c:157-198 | end of archive, an entry, or the first problem in the order of the checks |
| `UstarFields.AcceptedExactly` | Homework/proj-pregame/src/lib/ustar.c:157-198 | exactly which headers are entries, and which is the end of the archive |
| `Ustar.RoundTrip` | Homework/proj-pregame/src/lib/ustar.c:66-198 | parsing a composed header gives name, type and size, 0 for directories; only negative sizes of regular files are refused |
| `Ustar.FileRoundTrip` | Homework/proj-pregame/src/lib/ustar.c:66-198 | for every file name whose stripped form fits and every size from 0 to 2^31 - 1 the stripped name, type and size come back |
| `Pagedir.SplitJoins` | Homework/proj-pregame/src/threads/pte.h:32-35 | an address is made up of its directory index, table index and offset |
| `Pagedir.JoinSplits` | Homework/proj-pregame/src/threads/pte.h:32-35 | any three parts in range make up the one address that is split into them |
| `Pagedir.SamePage` | Homework/proj-pregame/src/threads/vaddr.h:24-35 | two addresses share a page exactly when both indexes agree |
| `Pagedir.UserHalf` | Homework/proj-pregame/src/threads/vaddr.h:50 | user addresses are those of the first 768 directory entries |
| `Pagedir.EntryRoundTrip` | Homework/proj-pregame/src/threads/pte.h:67-98 | the page and the writable flag put into an entry come out again |
| `Pagedir.EntryBits` | Homework/proj-pregame/src/threads/pte.h:67-98 | the twelve low bits of an entry are exactly present, user and, if asked for, writable; the others are the frame |
| `Pagedir.TableAdded` | Homework/proj-pregame/src/userprog/pagedir.c:59-71 | an empty page table maps nothing more |
| `Pagedir.EntryWritten` | Homework/proj-pregame/src/userprog/pagedir.c:50-107 | one entry is the mapping of one page |
| `Pagedir.Directory.constructor` | Homework/proj-pregame/src/userprog/pagedir.c:15-20 | a copy of the kernel's directory maps no user page |
| `Pagedir.Directory.LookupPage` | Homework/proj-pregame/src/userprog/pagedir.c:50-76 | finds or creates the page table, for kernel addresses only finds it; no mapping and no kernel entry changes |
| `Pagedir.Directory.SetPage` | Homework/proj-pregame/src/userprog/pagedir.c:87-105 | maps exactly this page to the frame and flag; fails only for want of a page table; kernel entries stay |
| `Pagedir.Directory.GetPage` | Homework/proj-pregame/src/userprog/pagedir.c:110-120 | the frame plus the offset for any address on a mapped page, else nothing |
| `Pagedir.Directory.ClearPage` | Homework/proj-pregame/src/userprog/pagedir.c:126-137 | exactly this page is no longer mapped |
| `Pagedir.WithOffsetInFrame` | Homework/proj-pregame/src/userprog/pagedir.c:110-120 | the address returned lies in the frame, at the same offset |

## Left out

- Malloc.Allocator.Realloc: does not cover calls where the copy would run over the end of the new block (a size from 0xFFFFFFF5 on for a block of more than one page); `CopyFits` says exactly when that is.
- Malloc.Allocator.Malloc: calls are made one at a time; the descriptor locks, `calloc` and allocation from the user pool are not modelled.
- Bitmap.Map.Scan: one array element stands for one bit; the packing into words is not modelled.
- HeapSort.Heapify: heap indexes do not wrap around, so arrays of more than 2^31 one-byte elements are not covered.
- UtList.Sort: the run width, a C int, does not overflow, so lists of more than 2^30 elements are not covered.
- KernelList.List.Sort: the comparison looks at the elements only, not at other memory that changes meanwhile; the same for the other sorts.
- SchedulerCode.Kernel.ThreadExit: the page of an exited thread, time slices, priorities and the other scheduling policies are not modelled.
- Scheduler.ValueIsBalance: a semaphore's value does not wrap around at 2^32.
- RwLockCode.Shared.Perform: threads release only what they acquired, as the lock requires; the holder field of the guard lock is the thread that owns it.
- Inode.ReadAt: offsets are not negative, which the file layer guarantees.
- FileSys.System.Lookup: the directory is a sequence of slots; their layout as bytes of an inode is not modelled.
- FileSys.System.InodeCreate: the bytes of the inode's own sector are not looked into, and the copy of the free map on the device is not modelled.
- FileSys.System.FreeMapOpen: that the free map read back is the one in memory is not modelled; stopping the kernel on failure is a false result, here and in Format.
- Codec.Reader.Count: memory for a buffer can always be had while entries are counted and read.
- WordCount.Map: letters are those of ASCII, as in the C locale; the int index limits files to less than 2^31 bytes.
- WordCount.Reduce: the int index does not overflow, so a key has less than 2^31 pairs.
- Worker.ReduceKvs: the sort before the loop is a parameter; every arrangement in the order of the keys is covered.
- Coordinator.Server.SubmitJob: file names, the output directory and the arguments of a job are not modelled, and the clock never reads 0, which the code uses for "never handed out".
- Coordinator.Server.FinishTask: task numbers are those of the job's tasks, as workers send them.
- Stdio.FormatInteger: strings, characters and floating-point conversions are not modelled.
- Conversions.ParseConversion: widths and precisions do not overflow an int.
- Arith64.SDiv64: the negation of INT64_MIN, a signed overflow in C, is taken to wrap around.
- RwLock.StepKeeps: what a thread does while it owns the guard is one step, because no other thread reads or writes the lock's variables meanwhile.
- Ustar.MakeHeader: the message printed for a name that is too long is not modelled.
- Pagedir.Directory.SetPage: accessed and dirty bits, the translation cache and the destruction of a directory are not modelled.
- The remaining parts of the repository: drivers and boot code, system calls and processes, the shell and HTTP homework, the Rust skeletons and the other MapReduce applications.
- `Homework/hw-memory/mm_alloc/mm_alloc.c`: its tiling of the heap does not survive freeing, because the block behind a merged one keeps its old back link (lines 105-120).
