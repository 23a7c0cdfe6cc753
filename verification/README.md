# Verified models of three operating-system labs

Three C programs of this repository, modelled in Dafny and proved:

* **The scheduler** (`totw_p4`): one scheduler thread and any number of workers that hand a turn to
  and fro through counting semaphores and two lists, under the FIFO and the round-robin policy.
  `SchedProtocol` is a labelled transition system with a program counter for every thread; a step is
  one semaphore operation, one list operation made under the list's lock, or one read or write of
  the shared counter. A reachable state is one that *some* schedule leads to from the start, so the
  theorems hold for every interleaving, any number of workers and any number of loops. `SchedWalk` is
  about the walk along the queue with which the scheduler picks a worker, `SchedFair` about infinite
  runs that pass no thread over for ever. `LinkedList` holds the doubly linked list itself, on the heap.
* **The allocator** (`totw_p5`): a doubly linked list of blocks that tiles a pool, four placement
  strategies, splitting, merging and the roving cursor of next fit. `MemAllocator` is the list on the
  heap; its methods are proved against functions and relations on sequences of blocks (`MemBlocks`),
  about which `MemTheorems` proves the rest, down to the single bytes of the pool. `MemRun` is the
  allocator as its callers see it, a set of regions in use and the address next fit goes on from.
* **The file system** (`totw_p6`): files as lists of 4096-byte blocks taken from a shared usage map,
  with metadata written through to the disk in two-byte numbers. `FileSystem` is a class over arrays
  that its methods update in place; `FsBook` is the arithmetic of `fs_write` by itself, `FsCodec` the
  layout on the disk, `FsWriting` what chunks add up to, `FsTruncate` and `FsStray` exactly when
  truncations and writes do what they are for, and `FsExamples` shows on fresh disks where they do not.
  `FsRun` is the file system as its callers see it, 64 names with sequences of bytes and 32 descriptors;
  every run on a fresh disk of calls that the program serves as it should (`FsRun.Permitted`) is a run of
  that one (`FsRun.Run`, `FsRun.FreshRun`).

The program keeps -1 in a `char` to mark a closed descriptor (`totw_p6/fs.h:20-23`), and reads numbers
back from the disk through `char`s. Whether `char` is signed is implementation-defined (section 6.2.5 of
ISO/IEC 9899:2011), so it is a parameter of the model (`FileSystem.signed`). All that is said of open
descriptors is for signed `char`: where it is unsigned, `fs_open` and `umount_fs` always fail
(`FsTheorems.UnsignedUseless`).

`dafny verify dfyconfig.toml` checks the whole project.

## What the code does differently from what it is meant to do

Each of these is kept as the code has it and pinned down by an exact condition:

* `fs_write` adds the whole chunk to the size of the last block when the chunk crosses the end of the
  file (`totw_p6/fs.c:270-272`). `FsBook.WriteExactIff` and `FileSystem.FileSystem.Write`: from a cursor
  inside the file, the size is right if and only if the write starts at the end, stays inside, or the
  file fills its last block; `FsBook.CrossingExact` is the size any other such write leaves. From a cursor
  past the end, where a truncation can leave it, the file ends up too short by the gap
  (`FsBook.DriftShort`, and `FsExamples.DriftOnFresh` on a fresh disk); `FsBook.DriftExact` is the outcome
  of every such write.
* Where such a write runs on, it goes through list entries the file does not have. Another file keeps
  its bytes, whatever is written, if and only if none of the bytes falls on one of its own
  (`FsStray.KeepsFileIff`, and `FsStray.KeepsBlocksIff` in terms of whole blocks). `FsStray.StrayIntoFile`
  and `FsStray.LeaveStaleEntry` give a run in which another file is hit.
* `fs_delete` leaves the descriptors of the file open, and a write through one of them goes to blocks that
  may be another file's by now. It leaves another file's bytes alone if none of its own falls on them
  (`FsStray.OrphanSpares`, with the exact condition in `FsStray.KeepsFileIff`), and an admissible one leaves
  everything in order if and only if it adds no block (`FileSystem.OrphanValid`). `FsExamples.LeaveOrphan`
  and `FsExamples.OrphanIntoFile` are a run in which another file is hit.
* `fs_delete` ignores its argument (`totw_p6/fs.c:182-190`). `FsTheorems.DeleteNamedIff` and the run
  `FsRun.DeleteTakesOther`.
* `fs_truncate` frees the list entry *behind* the last block before dropping the block, and takes the
  remainder for the size of the last block (`totw_p6/fs.c:349-353`), and it lets negative lengths through
  (`totw_p6/fs.c:339-342`). `FsTruncate.TruncateSizeIff`, `FsTruncate.TruncateOwnershipIff`, and the inputs
  `FsTruncate.TruncateOutOfMap`, for which it stores before the start of the usage map, and
  `FsTruncate.TruncateNegative`, after which size and blocks add up to a negative length.
* Block 0 is described as the usage map (`totw_p6/fs.h:30-33`) and is loaded when mounting, but the map
  is not saved (`totw_p6/fs.c:103`). `FsTheorems.Remount`: when all files come back, the accounting is
  right if and only if block 0 marks exactly the blocks that are listed. No single call changes it but a
  write that leaves its file's blocks; after any run of permitted calls on a fresh disk it is still blank,
  so the accounting is right if and only if every file is empty (`FsRun.RunAndRemount`). A stray write can
  put a file's byte into block 0 (`FsStray.StrayIntoMap`).
* Where `char` is signed, a number whose low byte is 128 or more comes back from the disk 256 too small
  (`totw_p6/fs.c:64-74`). `FsCodec.LoadSaved`, `FsTheorems.Remount` and `FsRun.RunAndRemount`: a file
  comes back if and only if none of its numbers has such a byte. `FsExamples.ShortFileLost`: a file of 200
  bytes comes back with the size -56.
* Next fit takes the first free block whatever its size (`totw_p5/mymem.c:135-140`).
  `MemTheorems.TakeWf` and `MemTheorems.NextOverruns`.
* `mem_small_free` is documented to count blocks smaller than its argument and counts those that are
  as large, too (`totw_p5/mymem.c:300-312`). `MemTheorems.SmallStrictIff`: the two counts agree if and
  only if no hole has just that size; `MemTheorems.SmallCountsEqual` is an input where they differ.
* The counter of remaining workers is said to be synchronised by the scheduler
  (`totw_p4/scheduler.c:26-29`). `SchedLostUpdate.CounterIff`: it is if and only if the queue has
  size one or there is at most one worker; otherwise the program can hang, as `totw_p4/README:91-102`
  observes (`SchedLostUpdate.Hang`).
* Round robin puts a worker that has exited back into the queue (`totw_p4/sched_impl.c:131-136`).
  `SchedRoundRobin.RoundRobinExactIff`: with a queue of size one the order is right, and no schedule
  gets stuck, if and only if all the workers have entered before the first one comes round again; just
  then every fair run ends (`SchedFair.RoundRobinStopsIff`).
* `sem_init` with -1 (`totw_p4/sched_impl.c:106`) is taken as what its comment says: no permit.

## Model

| member | source | states |
|---|---|---|
| SchedSafety.Safety | totw_p4/sched_impl.c:122-166 | both policies, any queue size, every reachable state: semaphore conservation and the meaning of permits (`Inv`), at most queue_size workers on the running list, each once, at most one permit each, and the scheduler stops only when all workers have taken themselves off the count |
| SchedSafety.InvReaches | totw_p4/sched_impl.c:140-166 | the conservation law `slots + running + hand-overs + 1 == queue_size` (plus one between the scheduler's insert and its wait), each worker's permit equation and the counter's lower bound survive every schedule |
| SchedSafety.HolderPlace | totw_p4/sched_impl.c:156-166 | with queue size one, while a worker has the turn the scheduler is waking it or waiting for it, no slot is free, and the running list is that worker alone or, once it is handing over, empty |
| SchedSafety.Exclusive | totw_p4/scheduler.c:26-60 | with queue size one at most one worker has the turn, and the scheduler is then not at its loop test: accesses to the counter exclude each other |
| SchedSafety.HolderExists | totw_p4/sched_impl.c:161-166 | with queue size one a blocked scheduler always waits for a worker that has the turn |
| SchedSafety.CounterExactReaches | totw_p4/scheduler.c:56-60 | with queue size one, or at most one worker, the counter equals the number of workers still to decrement it, in every continuation |
| SchedLostUpdate.LostUpdate | totw_p4/scheduler.c:59 | under either policy, with queue size and workers both at least two, some schedule has two workers read the same count, and the counter is too high afterwards |
| SchedLostUpdate.ExcessForever | totw_p4/scheduler.c:76-86 | a counter that is too high stays too high in every continuation, and the scheduler never stops |
| SchedLostUpdate.CounterIff | totw_p4/scheduler.c:26-30 | for both policies and any queue size, the counter is right in every reachable state if and only if queue size is one or there is at most one worker |
| SchedLostUpdate.Hang | totw_p4/scheduler.c:56-86 | with queue size and workers both at least two, a state is reachable from which no schedule stops the scheduler |
| SchedProgress.MeasureDrops | totw_p4/scheduler.c:38-86 | both policies, any queue size: every step but a fruitless look at the queue lowers a measure on the work left |
| SchedProgress.ProductiveBounded | totw_p4/scheduler.c:38-86 | no schedule of such steps is longer than the measure of the state it starts from |
| SchedProgress.WorkerStepsBounded | totw_p4/scheduler.c:38-63 | in every schedule, fruitless looks included, the workers take no more steps than they had left |
| SchedProgress.WakesBounded | totw_p4/sched_impl.c:156-166 | both policies, any queue size, every schedule: wakes, free slots and posts of the scheduler's semaphore balance exactly, and there are at most workers*(iterations+1)+queue_size wakes |
| SchedTurns.TurnReaches | totw_p4/sched_impl.c:156-166 | with queue size one every wake is answered by exactly one report of the worker woken, in the same order, in every schedule |
| SchedFifo.FifoOrder | totw_p4/sched_impl.c:114-129 | FIFO, queue size one, every schedule: report number a*(iterations+1)+b is loop b of the a-th worker to have entered; at the stop all have entered and exited, after exactly workers*(iterations+1) wakes |
| SchedFifo.FifoReaches | totw_p4/sched_impl.c:114-129 | the invariant that ties queue, entry order, program counters and reports together survives every schedule under FIFO with queue size one |
| SchedFifo.FifoProgress | totw_p4/sched_impl.c:156-190 | FIFO, queue size one: in every state that satisfies the invariant and in which the scheduler has not stopped, a productive step is enabled |
| SchedFifo.FifoFinishes | totw_p4/scheduler.c:65-90 | FIFO, queue size one: from every reachable state the scheduler can be brought to stop if and only if there is a worker; without one it spins for ever |
| SchedRoundRobin.RoundRobinExact | totw_p4/sched_impl.c:131-177 | queue size one, from any reachable state with all workers entered and none yet requeued: in every continuation the wakes and the reports go round the workers in entry order, loop r of all before loop r+1 of any, and the stop comes after exactly workers*(iterations+1) wakes |
| SchedRoundRobin.RoundRobinFinishes | totw_p4/scheduler.c:76-86 | in that case every continuation can be extended until the scheduler stops |
| SchedRoundRobin.LateDeadlock | totw_p4/sched_impl.c:131-136 | if a worker is missing from the ring, some schedule wakes a worker out of order and ends in a deadlock, waiting for one that has exited |
| SchedRoundRobin.RoundRobinExactIff | totw_p4/sched_impl.c:131-177 | from any reachable state with somebody entered and nobody requeued: every continuation is exact if and only if all workers have entered, and no continuation gets stuck if and only if all workers have entered |
| SchedWalk.FifoWalk | totw_p4/sched_impl.c:168-177 | FIFO: a step of the walk from a worker that is still queued goes to the one right behind it, and gives up exactly at the last |
| SchedWalk.WalkReaches | totw_p4/sched_impl.c:156-177 | FIFO, any queue size: as long as the walk never starts from a worker out of the queue, the queue is in the order of entry, and everybody who entered before a worker that is looked at or woken has been woken, in every schedule |
| SchedWalk.FifoWakes | totw_p4/sched_impl.c:156-177 | so in every such schedule the workers woken at least once are the first to have entered |
| SchedWalk.LookStops | totw_p4/scheduler.c:76-86 | when the counter is at zero while the scheduler looks for a worker in vain, it stops at the next step |
| SchedFair.RunReaches | totw_p4/scheduler.c:38-86 | every state of an infinite run is one that some schedule leads to, so what is said of reachable states holds along it |
| SchedFair.WorkStep | totw_p4/scheduler.c:38-86 | both policies, any queue size: no step but that of a walk past a running worker raises the work left, and every one but an idle look around lowers it |
| SchedFair.Falls | totw_p4/scheduler.c:38-86 | in an infinite fair run along which something can always be done, the work left falls again and again until the scheduler has stopped |
| SchedFair.FifoStopsIff | totw_p4/scheduler.c:65-90 | FIFO, queue size one: fair runs from every reachable state exist, and all of them stop the scheduler if and only if there is a worker |
| SchedFair.RoundRobinStopsIff | totw_p4/sched_impl.c:131-177 | queue size one, from any reachable state with somebody entered and nobody requeued: fair runs exist, and all of them stop the scheduler if and only if all the workers have entered |
| Sequences.RemoveFirstDistinct | totw_p4/sched_impl.c:64-76 | removing an item from a list without duplicates removes exactly it |
| LinkedList.List.InsertHead | totw_p4/list.c:28-40 | the list read from the head by `next` and from the tail by `prev` is the old one with the element in front |
| LinkedList.List.InsertTail | totw_p4/list.c:42-54 | the same, with the element at the end |
| LinkedList.List.RemoveElem | totw_p4/list.c:66-79 | the same, without the element; the others keep their order, the element is unlinked |
| LinkedList.List.Size | totw_p4/list.c:11-18 | the number of elements |
| LinkedList.List.Foreach | totw_p4/list.c:81-86 | the callback, which may change what an element holds and the caller's state, is called once on each element from head to tail; the links stay |
| LinkedList.VisitedEach | totw_p4/list.c:81-86 | each element is visited once, in order |
| LinkedList.List.InsertItemHead | totw_p4/sched_impl.c:6-12 | the item is put in front, in a new element |
| LinkedList.List.InsertItemTail | totw_p4/sched_impl.c:14-20 | the item is put at the end, in a new element |
| LinkedList.List.EltInList | totw_p4/sched_impl.c:36-48 | true if and only if the item is in the list |
| LinkedList.List.FindInList | totw_p4/sched_impl.c:50-62 | the first element with that item, null if there is none |
| LinkedList.List.RemoveItem | totw_p4/sched_impl.c:64-76 | the first occurrence is gone, all else is as before |
| LinkedList.NextWorker | totw_p4/sched_impl.c:168-177 | the first queued item that is not running; none if and only if all queued items are running |
| MemBlocks.Canonical | totw_p5/mymem.c:188-213 | a tiling without neighbouring free blocks is determined by its bounds and its live allocations |
| MemBlocks.LiveDisjoint | totw_p5/mymem.c:143-164 | live regions lie inside the pool and do not overlap |
| MemBlocks.PlaceShape | totw_p5/mymem.c:143-164 | taking r bytes from a free block keeps the list a coalesced tiling of the pool if and only if r is at most its size |
| MemBlocks.PlaceLive | totw_p5/mymem.c:143-164 | exactly the new region becomes live |
| MemBlocks.ReleaseShape | totw_p5/mymem.c:188-213 | freeing a block and merging its run keeps the list a coalesced tiling of the pool |
| MemBlocks.ReleaseLive | totw_p5/mymem.c:216-228 | and exactly that block stops being live |
| MemTheorems.TakeWf | totw_p5/mymem.c:135-179 | an allocation keeps the shape and the cursor's place if and only if the chosen block is large enough, which first, best and worst fit guarantee |
| MemTheorems.NextOverruns | totw_p5/mymem.c:135-140 | next fit asked for 200 bytes of a free pool of 100 succeeds and the list no longer tiles the pool |
| MemTheorems.NextFinds | totw_p5/mymem.c:135-140 | next fit's search stays in the list if and only if some block is free |
| MemTheorems.FreeWf | totw_p5/mymem.c:188-228 | a free keeps the shape and leaves the cursor in the list, at a free block or at the head |
| MemTheorems.RunWf | totw_p5/mymem.c:98-228 | every run of allocations and frees from a new pool keeps all of this |
| MemRun.RoomIff | totw_p5/mymem.c:98-184 | a stretch of the pool that overlaps no region in use is a run of free bytes, and the other way round |
| MemRun.GapIff | totw_p5/mymem.c:188-213 | the free blocks are the stretches without regions in use that can be extended on neither side |
| MemRun.NextPicks | totw_p5/mymem.c:135-140 | next fit takes the first gap from the address of its cursor on |
| MemRun.CursorGoesOn | totw_p5/mymem.c:165-179 | after an allocation the cursor is at the first gap behind it, going round the pool, or at the start if there is none |
| MemRun.FreeHolds | totw_p5/mymem.c:188-228 | after any free the cursor's block is the one that holds the address the cursor's block had |
| MemRun.DoesCalled | totw_p5/mymem.c:98-228 | each call on the list is one on the regions in use and the address next fit goes on from: an allocation adds a region at the start of the gap the strategy prefers, next fit the first from where it is on, and is turned down only if there is no room anywhere; then next fit goes on behind it; a free takes out exactly the region that starts there and leaves next fit where it is |
| MemRun.CalledOne | totw_p5/mymem.c:98-228 | in these terms a call has one outcome only |
| MemRun.NextRoves | totw_p5/mymem.c:135-179 | a next-fit request right after another is served at the first gap at or above the end of that one, and only if there is none at the first gap of the pool |
| MemRun.ServesIff | totw_p5/mymem.c:135-140 | next fit's search ends at a block that is large enough if and only if the first gap from its cursor on is |
| MemRun.LiveDetermines | totw_p5/mymem.c:188-213 | the regions in use determine the list |
| MemRun.SizedServed | totw_p5/mymem.c:104-134 | first, best and worst fit serve every run of requests for at least one byte |
| MemRun.Run | totw_p5/mymem.c:98-228 | any run of such calls on the heap list is a run on the regions in use, the list stays linked both ways and a coalesced tiling of the pool, and with nothing in use it is one free block again |
| MemRun.FreshRun | totw_p5/mymem.c:61-228 | the same from a new pool on, with nothing in use at first |
| MemRun.RovingRun | totw_p5/mymem.c:98-228 | a pool of 100 bytes under next fit: allocations of 10 at 0 and 10; after freeing 0 the next two are at 20 and 30 |
| MemTheorems.FreedLive | totw_p5/mymem.c:216-228 | whatever address is freed, exactly the live allocation that starts there goes away |
| MemTheorems.FreesCommute | totw_p5/mymem.c:188-228 | two frees leave the same block list in either order, whatever the addresses |
| MemTheorems.FreeAll | totw_p5/mymem.c:50-58 | freeing all live allocations, in any order and among any other addresses, gives back the one free block of `initialize` |
| MemTheorems.RoundTrip | totw_p5/mymem.c:143-228 | freeing what was just allocated restores the exact block list, for every strategy |
| MemTheorems.FreeUnknown | totw_p5/mymem.c:216-228 | freeing an address at which nothing live starts changes neither list nor cursor |
| MemTheorems.RunInBlock | totw_p5/mymem.c:188-213 | a run of free bytes lies inside one free block |
| MemTheorems.HoleIff | totw_p5/mymem.c:188-213 | the maximal runs of free bytes are exactly the free blocks |
| MemTheorems.SucceedsIff | totw_p5/mymem.c:104-134 | first, best and worst fit find a block if and only if the pool has that many free bytes in a row |
| MemTheorems.Placement | totw_p5/mymem.c:104-134 | the chosen block is a hole that is large enough and is preferred to all others: lowest, smallest or largest, the lowest address breaking ties |
| MemTheorems.FirstLowest | totw_p5/mymem.c:107-116 | first fit returns the lowest address at which that many free bytes start |
| MemTheorems.LargestIff | totw_p5/mymem.c:285-298 | `mem_largest_free` is the length of the longest run of free bytes |
| MemTheorems.BytesCounted | totw_p5/mymem.c:253-282 | `mem_free` and `mem_allocated` count the free and the other bytes, and add up to the pool |
| MemTheorems.HolesCounted | totw_p5/mymem.c:237-250 | `mem_holes` counts the maximal runs of free bytes |
| MemTheorems.HolesBound | totw_p5/mymem.c:237-250 | there are at most as many holes as live allocations, plus one |
| MemTheorems.SmallIff | totw_p5/mymem.c:302-315 | `mem_small_free(k)` equals `mem_holes` if and only if k is at least `mem_largest_free` |
| MemTheorems.SmallCounted | totw_p5/mymem.c:302-315 | `mem_small_free(k)` counts the maximal runs of free bytes that are no longer than k |
| MemTheorems.SmallStrictIff | totw_p5/mymem.c:300-312 | `mem_small_free(k)` counts the free blocks smaller than k, as documented, if and only if no maximal run of free bytes has length k |
| MemTheorems.SmallCountsEqual | totw_p5/mymem.c:300-312 | on a new pool of 100 bytes it counts one block as smaller than 100 |
| MemAllocator.Allocator.InitMem | totw_p5/mymem.c:74-90 | one free block that is the whole pool |
| MemAllocator.Allocator.FindFirst | totw_p5/mymem.c:107-116 | the first block that fits, null if and only if none does |
| MemAllocator.Allocator.FindBest | totw_p5/mymem.c:117-125 | the first of the smallest blocks that fit, null if and only if none does |
| MemAllocator.Allocator.FindWorst | totw_p5/mymem.c:126-134 | the first of the largest blocks that fit, null if and only if none does |
| MemAllocator.Allocator.FindNext | totw_p5/mymem.c:135-140 | the first free block from the cursor on, to which the cursor moves |
| MemAllocator.Allocator.Carve | totw_p5/mymem.c:143-163 | the heap list becomes the old one with the block taken or split |
| MemAllocator.Allocator.AdvanceCursor | totw_p5/mymem.c:166-179 | the cursor goes to the next free block, round the end of the list, or to the head if none is free; the loop ends |
| MemAllocator.Allocator.Malloc | totw_p5/mymem.c:98-184 | the list becomes the one with the strategy's block taken and its address is returned; nothing changes and null is returned if and only if there is no such block |
| MemAllocator.Allocator.MergeBlocks | totw_p5/mymem.c:188-213 | the run around a free block becomes one block, prev and next still match, and the cursor follows a block that is absorbed |
| MemAllocator.Allocator.Free | totw_p5/mymem.c:216-228 | the list becomes the one with the block that starts there released, if there is one |
| MemAllocator.Allocator.MemHoles | totw_p5/mymem.c:237-250 | counts the free blocks |
| MemAllocator.Allocator.MemAllocated | totw_p5/mymem.c:253-266 | adds up the sizes of the blocks in use |
| MemAllocator.Allocator.MemFree | totw_p5/mymem.c:269-282 | adds up the sizes of the free blocks |
| MemAllocator.Allocator.MemLargestFree | totw_p5/mymem.c:285-298 | the largest size of a free block |
| MemAllocator.Allocator.MemSmallFree | totw_p5/mymem.c:302-315 | counts the free blocks of at most that size |
| MemAllocator.Allocator.MemIsAlloc | totw_p5/mymem.c:317-327 | true if and only if a live allocation starts at the address |
| FsModel.OwnedExactlyOnce | totw_p6/fs.c:277-289 | a data block is marked in use if and only if some file lists it, and then one file does, at one place |
| FsModel.RoomForBlock | totw_p6/fsutil.c:39-51 | a file never needs more than 4096 list entries: while a block is free, its list has room |
| FsModel.PutChunkRaw | totw_p6/fs.c:291-300 | a chunk written at the cursor changes the file's bytes from the cursor on and no others |
| FsModel.ExtentIs | totw_p6/fs.c:223-226 | of a file whose list and size are in order, what its entries give to a reader is what it holds |
| FsBook.WriteExactIff | totw_p6/fs.c:238-315 | for every file, cursor and length: `fs_write` leaves a well-formed file of the right size if and only if the write is admissible |
| FsBook.WriteAdmissible | totw_p6/fs.c:253-310 | an admissible write takes exactly min(nbyte, bytes up to the end + rest of the last block + 4096 per free block), and moves cursor and size by that |
| FsBook.PastAppends | totw_p6/fs.c:275-310 | at the end of the file, exactly what there is room for is appended, also when the disk fills up |
| FsBook.CrossingWrong | totw_p6/fs.c:270-272 | any other write leaves a last block that is more than full, or a size past what was written |
| FsBook.ChunkGrows | totw_p6/fs.c:262-272 | a chunk that ends past the size adds all its bytes to it, any other adds none |
| FsBook.CrossingExact | totw_p6/fs.c:254-310 | every write that begins inside a file whose last block is not full and crosses its end: all bytes are taken, no block is added, and the size gets ahead of the end of the write by what the crossing chunk has written over of the file, except for a last chunk in a further block that is no longer than that, which adds nothing |
| FsBook.CrossingFromThird | totw_p6/fs.c:270-272 | eight bytes from the third byte of a file of six on give it a size of fourteen |
| FsBook.StrayTakesAll | totw_p6/fs.c:254-310 | a write that leaves the file's blocks by crossing its end takes all its bytes and never asks for a block |
| FsBook.DriftShort | totw_p6/fs.c:276-310 | a write from past the end of the file adds what it wrote to the size, so the file is too short by the gap |
| FsBook.DriftExact | totw_p6/fs.c:275-310 | every write that begins past the end: nothing is written if a block is needed first and none is free; a whole number of blocks past the end it takes what an append would; otherwise it takes everything and no more than the one block it needs first |
| FsBook.WriteConserves | totw_p6/fs.c:277-289 | a write neither makes nor loses blocks, and drops none of the file's |
| FsBook.DriftExample | totw_p6/fs.c:276-310 | one byte written at ten to a file of five leaves it with six, and the cursor at eleven |
| FsBook.CrossingExample | totw_p6/fs.c:270-272 | ten bytes from the start of a file of six give it a size of sixteen |
| FsCodec.EntryRoundTrip | totw_p6/fsutil.c:23-33 | each of the 4096 list entries up to 32767 comes back, or is 256 too small just when `char` is signed and its low byte is 128 or more |
| FsCodec.MetaBytes | totw_p6/fsutil.c:14-34 | the bytes of a slot's three blocks: the flag in byte 0, the name in 1 to 15, number of blocks and size of the last in 17 to 20, 2048 list entries in each of the others, every number with its high byte first |
| FsCodec.LoadSaved | totw_p6/fs.c:54-82 | mounting a disk on which a table is saved finds every file in use, and only those, under its name; a file comes back with its size and blocks if and only if `char` is unsigned or none of these numbers has a low byte of 128 or more |
| FsCodec.UnusedSlot | totw_p6/fs.c:75-81 | of an unused slot mounting zeroes name, sizes and the first 2048 list entries; the others are what the memory held |
| FsCodec.SameContent | totw_p6/fs.h:48-50 | entries past a file's last block have no part in its bytes |
| FsWriting.WritingChunk | totw_p6/fs.c:291-305 | one more chunk keeps: bytes from the start of the write to the cursor are the buffer's, the file's other bytes are as before, and only blocks of this file are touched |
| FsWriting.GrabsMore | totw_p6/fsutil.c:45-50 | the blocks a file gets are the first that are free, one after the other, and no other block or list entry changes |
| FsWriting.StrayingExpands | totw_p6/fs.c:277-296 | in a write past the end, a new block is where the next chunk goes only if it is the first; what has been laid out does not move |
| FsWriting.StrayingChunk | totw_p6/fs.c:291-305 | one more chunk outside the file's blocks keeps: every byte of the write is where the list it leaves by says, and the accounting of blocks is right |
| FsWriting.LayChunk | totw_p6/fs.c:255-269 | chunk by chunk or byte by byte, the same bytes end up in the same places, whatever blocks the list names |
| FsWriting.LaySame | totw_p6/fs.c:255-269 | bytes are laid out by the list entries they fall to and no others |
| FsWriting.OrphanedChunk | totw_p6/fs.c:291-305 | one more chunk written to a deleted file: every byte so far is where the list says |
| FsWriting.OrphanedExpands | totw_p6/fs.c:279-288 | so it stays when the deleted file gets the first free block |
| FsWriting.WritingExpands | totw_p6/fs.c:279-288 | taking a free block keeps that, and the accounting of blocks |
| FsWriting.WritingFrame | totw_p6/fs.c:262-300 | the bytes of every other file are as before |
| FsWriting.WritingContent | totw_p6/fs.c:238-315 | with the right size, the file is old[..cursor] + written + old[cursor+w..] |
| FileSystem.FileSystem.MakeFs | totw_p6/fs.c:11-34 | every block of the disk is zero |
| FileSystem.FileSystem.BlockRead | totw_p6/disk.c:92-114 | the block, or -1 and the buffer as it was if the disk is not active or has no such block |
| FileSystem.FileSystem.BlockWrite | totw_p6/disk.c:68-90 | only that block changes, or nothing does and the result is -1 |
| FileSystem.FileSystem.SaveFileMeta | totw_p6/fsutil.c:7-37 | the slot's three blocks encode it, all others are as before |
| FileSystem.FileSystem.FindEmptyBlock | totw_p6/fsutil.c:39-51 | the first free data block; -1 if and only if none is free or the disk is not active |
| FileSystem.FileSystem.Create | totw_p6/fs.c:154-173 | succeeds if and only if a slot is unused; the first such slot holds an empty file of that name and keeps its block list, no other slot and no block but the slot's three changes, and the accounting of blocks and disk is kept |
| FileSystem.FileSystem.Delete | totw_p6/fs.c:175-194 | succeeds if and only if a file exists; the first slot in use goes, exactly its blocks become free, other files keep their bytes, and no block of the disk but the slot's three changes |
| FileSystem.FileSystem.Open | totw_p6/fs.c:118-143 | the first file whose name is the one asked for, up to the first zero, in the first closed descriptor, at 0; -1 and no change if and only if there is no such file or descriptor |
| FileSystem.FileSystem.Close | totw_p6/fs.c:145-152 | stores -1 in the `char` of exactly an open descriptor |
| FileSystem.StrnIff | totw_p6/fs.c:127 | `strncmp` finds two names equal if and only if wherever they differ both hold a zero before that |
| FileSystem.SameNameIff | totw_p6/fs.c:127 | that is if and only if they are equal when cut at 15 bytes and at the first zero |
| FileSystem.FileSystem.Lseek | totw_p6/fs.c:328-336 | moves the cursor if and only if the offset is inside the file or at its end |
| FileSystem.FileSystem.Read | totw_p6/fs.c:196-236 | of a deleted file and of one longer than its blocks, too: returns min(nbyte, bytes left), the buffer holds that stretch of the file, as its list entries name it, followed by its old rest, and the cursor moves by as much |
| FileSystem.FileSystem.WriteChunk | totw_p6/fs.c:255-272 | one round of the loops: the chunk lands in the cursor's block and the books advance |
| FileSystem.FileSystem.ExpandFile | totw_p6/fs.c:277-289 | gives the file a free block if and only if there is one |
| FileSystem.FileSystem.Write | totw_p6/fs.c:238-315 | cursor, sizes, free blocks and result are those of the books, and new blocks are the first that were free; the accounting of blocks is kept by every write to a file in use; from a cursor inside the file, the file is well-formed and of the right size if and only if the write is admissible, any other takes all its bytes and leaves the size of `FsBook.CrossingExact`; an admissible write to a file in use leaves old[..cursor] + written + old[cursor+w..] and keeps `Valid`; a write that keeps to the file's blocks leaves every byte in place and changes no other file and no other metadata; one that does not, or goes to a deleted file, puts every byte where the list entries say; an admissible write to a deleted file keeps `Valid` if and only if it adds no block |
| FileSystem.OrphanValid | totw_p6/fs.c:238-315 | after an admissible write to a deleted file tables and disk are in order if and only if it added no block; a block it did add stays marked, and no file lists it |
| FileSystem.FileSystem.Truncate | totw_p6/fs.c:338-357 | succeeds if and only if the length is not past the end; exactly which entries are dropped and which blocks unmarked, also for a negative length; above -4096 the file holds a prefix of its bytes: none for a negative length, a block less than asked for if that is a whole number of blocks, otherwise as many as asked for; no block of the disk but the slot's three changes; and for a file in use `Valid` is kept if and only if the length is ragged and no block is dropped or the entry behind the last names the first that is |
| FileSystem.FileSystem.MountFs | totw_p6/fs.c:36-93 | the usage map is block 0, every slot is what its blocks encode for a signed or an unsigned `char`, and every descriptor holds what -1 becomes in one |
| FileSystem.FileSystem.UmountFs | totw_p6/fs.c:95-115 | succeeds if and only if the disk is active and all descriptors are closed |
| FsTheorems.MakeAndMount | totw_p6/fs.c:11-93 | a fresh disk mounts with no files, a blank block 0 and the accounting in order, and, for signed `char`, no open descriptor |
| FsTheorems.LoadedTable | totw_p6/fs.c:54-82 | slot for slot, mounting brings back the same name, size and bytes if and only if the file's numbers survive |
| FsTheorems.Remount | totw_p6/fs.c:36-115 | unmounting and mounting finds the same names; a file comes back with its size and bytes if and only if none of its numbers has a low byte of 128 or more; if all do, the accounting of blocks is right if and only if block 0 marks exactly the blocks the files list |
| FsTheorems.UnsignedUseless | totw_p6/fs.h:20-23 | with unsigned `char`, on a fresh disk a file can be created, but opening it fails and so does unmounting |
| FsTheorems.OwnershipIff | totw_p6/fs.c:47-52 | a usage map agrees with the block lists if and only if no block is listed twice and the map marks exactly the listed blocks |
| FsTheorems.BlankMarks | totw_p6/fs.c:47-52 | a blank map does so if and only if no file has a block |
| FsTheorems.Append | totw_p6/fs.c:275-310 | an append returns min(nbyte, rest of the last block + 4096 per free block) and leaves the cursor at the end |
| FsTheorems.AppendTwice | totw_p6/fs.c:275-310 | appending n and then m bytes leaves the same books and total as appending n+m, also when the disk fills in between |
| FsTheorems.AppendContent | totw_p6/fs.c:275-310 | an append adds exactly the bytes there is room for |
| FsTheorems.AppendsCompose | totw_p6/fs.c:275-310 | appending a and then b leaves the same file and free space as appending a+b |
| FsTheorems.BlocksConserved | totw_p6/fs.c:277-289 | the free blocks and the blocks of all files always add up to 4096 |
| FsTheorems.DeleteNamedIff | totw_p6/fs.c:182-190 | `fs_delete(name)` removes the file `fs_open(name)` opens if and only if the first slot in use has that name |
| FsTruncate.TruncateSizeIff | totw_p6/fs.c:338-357 | `fs_truncate` stores nowhere but in the usage map and leaves a well-formed file of the length asked for if and only if that is not negative and no multiple of 4096 other than 0 and, when blocks are dropped, the entry behind the last block is a data block |
| FsTruncate.InMapIff | totw_p6/fs.c:349-352 | the loop stores nowhere but in the map and goes by entries of the list if and only if the length is above -8192 and, when blocks are dropped, the entry behind the last is a data block |
| FsTruncate.TruncateOutOfMap | totw_p6/fs.c:350 | two blocks in a slot that never held more, truncated to 100: the size is right, but the loop stores before the usage map |
| FsTruncate.TruncateNegative | totw_p6/fs.c:338-357 | after a negative length number of blocks and size of the last add up to that length, neither is positive, and the size of the file is 0 or a block less than the length |
| FsTruncate.TruncateBlocks | totw_p6/fs.c:345-352 | for other lengths the file keeps the least number of blocks that holds them |
| FsTruncate.TruncateOwnershipIff | totw_p6/fs.c:349-352 | for every length it stores only in the map and keeps the accounting of blocks right if and only if no block is dropped or the entry behind the last block names the first block dropped |
| FsTruncate.TruncateContent | totw_p6/fs.c:338-357 | for every length above -4096 what remains is a prefix of the file's bytes: none if it is negative, a block less than asked for if it is a whole number of blocks, otherwise as many as asked for |
| FsStray.LayAt | totw_p6/fs.c:291-305 | every byte of the disk after a write through any list of blocks: the last of the written bytes that falls there, or the old one |
| FsStray.KeepsByteIff | totw_p6/fs.c:291-305 | a byte of the disk survives every write of n bytes at c if and only if none of them falls on it |
| FsStray.KeepsFileIff | totw_p6/fs.c:291-305 | a file's bytes survive every such write if and only if none of the n bytes falls on one of the file's |
| FsStray.KeepsBlocksIff | totw_p6/fs.c:291-305 | a file's blocks survive every such write if and only if no list entry from c/4096 to (c+n-1)/4096 names one of them |
| FsStray.StraySpares | totw_p6/fs.c:253-310 | a write that leaves its file's blocks changes no file that none of its bytes falls on |
| FsStray.OrphanSpares | totw_p6/fs.c:253-310 | a write to a deleted file changes no file that none of its bytes falls on |
| FsStray.StrayIntoMap | totw_p6/fs.c:253-310 | on a fresh disk: write 6 bytes, seek to 0, write 4097; byte 4096 is then the first of disk block 0 |
| FsStray.LeaveStaleEntry | totw_p6/fs.c:154-194 | a run on a fresh disk after which the unused second entry of one file names the second block of another |
| FsStray.StrayIntoFile | totw_p6/fs.c:253-310 | there, 4097 bytes written to the one file change byte 4096 of the other |
| FsStray.StrayReadBack | totw_p6/fs.c:196-310 | what a stray write has put behind its file's blocks is read from there, the last byte that falls on a place winning, unless the slot has been saved there |
| FsRun.Perform | totw_p6/fs.c:118-357 | each permitted call leaves a state that stands for what the call does to names and bytes, and returns what it should; the tables and the disk stay in order and block 0 is untouched |
| FsRun.FreeIs | totw_p6/fsutil.c:39-51 | the usage map has exactly as many free blocks as the sizes of the files leave |
| FsRun.Run | totw_p6/fs.c:118-357 | so does any run of permitted create, delete, open, close, lseek, read, write and truncate calls |
| FsRun.FreshRun | totw_p6/fs.c:11-357 | and any such run on a fresh disk, from no files on |
| FsRun.RunAndRemount | totw_p6/fs.c:36-115 | after any such run mounting again finds the same names; a file comes back if and only if none of its numbers has a low byte of 128 or more; if all do, the files are the same as before, and the accounting of blocks is right if and only if all of them are empty |
| FsRun.ReadBack | totw_p6/fs.c:196-336 | what a permitted write took is read back after seeking to where it began |
| FsRun.DeleteTakesOther | totw_p6/fs.c:175-194 | two files on a fresh disk: deleting the second by name removes the first |
| FsExamples.OpenByName | totw_p6/fs.c:118-173 | on a fresh disk: with a file b0 alone, opening b1 fails; with b1 created too, each is opened by its own name, whatever is behind its end |
| FsExamples.ShortFileLost | totw_p6/fs.c:64-74 | on a fresh disk: a file of 200 bytes, closed, unmounted and mounted again, has size -56 |
| FsExamples.DriftOnFresh | totw_p6/fs.c:276-310 | on a fresh disk: write ten bytes, truncate to five, write one; the size is six and the cursor at eleven |
| FsExamples.LeaveOrphan | totw_p6/fs.c:175-194 | a run on a fresh disk after which a descriptor is open on a deleted file whose blocks another file has got |
| FsExamples.OrphanIntoFile | totw_p6/fs.c:238-315 | there, a byte written through that descriptor changes the first byte of the other file, and leaves everything in order |

## Left out

- FileSystem.FileSystem.Write: requires an open descriptor, tables in order, a slot whose size is in order, and, when the write leaves the file's own blocks or goes to a deleted file, that it stays within the 4096 list entries there are; otherwise the code leaves its arrays. `size_last` is unbounded, while the program's is a `short`, which a stray write of more than 32767 bytes wraps.
- FileSystem.FileSystem.Truncate: requires that the loop stores only in the usage map (`FsTruncate.InMapIff`); otherwise the code writes outside it. Of a length of -4096 or less it does not say what the file then holds.
- FsTruncate.TruncateContent: is for lengths above -4096; at -4096 or less with the loop in the map, the file is left with a negative number of blocks.
- FileSystem.FileSystem.Read: requires that the entries it goes through are in the list and name blocks of the disk; otherwise the code leaves the list, or copies memory that it has not filled.
- FsRun.Perform: permits the calls the program serves as it should; the others are described by the contracts of the single methods.
- FileSystem.FileSystem.Create: is stated for mounted tables (before the first mount the code only returns -1), as are the other file operations; names are buffers of at least 15 bytes.
- FileSystem.FileSystem.Lseek: requires that closed descriptors are marked by -1, which excludes unsigned `char`, as do `Read`, `Write` and `Truncate`; nothing can be opened there.
- FsRun.Run: is for signed `char`, without which no run can open a file.
- FileSystem.FileSystem.MountFs: memory the code allocates and does not fill (the second half of an unused slot's list) is a parameter; a descriptor index outside the table is not modelled.
- FsTheorems.Remount: if all files come back, reading is in order for all of them; for writing, the accounting must be right, which it says exactly when. What calls do to a table in which a number has come back negative is not described.
- MemAllocator.Allocator.Malloc: requires at least one byte, as the source says, and under next fit some free block, without which the search runs off the list; the strategy is always set.
- SchedSafety.Safety: requires a queue size of at least one.
- SchedRoundRobin.RoundRobinExact: is stated for queue size one; so are the order and progress theorems of FIFO and those about fair runs. For larger queues only the safety, counter and measure results are proved.
- SchedFair.FifoStopsIff: fairness is weak fairness of each thread; that a list operation is one step takes it for granted that no thread waits for a list's lock for ever.
- MemRun.Run: under next fit, requires that the first gap from the cursor on exists and is large enough for each request, as `MemTheorems.RunWf` does of the first free block.
- SchedWalk.FifoWakes: excludes schedules in which the walk goes on from a worker that has left the queue; there the program reads an element it may have freed, and the model lets the walk go anywhere.
- LinkedList.NextWorker: is for a queue that nobody changes during the walk; the interleaved walk is part of `SchedProtocol`.
- LinkedList.List.Foreach: the callback may change what the element holds and the caller's state, not the links of the list it is called from.
- The scheduler protocol is modelled on values, a step at a time, since the threads interleave; only its list operations are modelled in place. The unlocked walk in `next_worker` may read an element that has been unlinked and freed: the model then lets it go anywhere. Reading the head of the queue and its datum is one step there, though the program reads the datum after releasing the lock, when the element may have been freed; with a queue of size one nobody can free it in between.
- File numbers and sizes are unbounded integers where no invariant bounds them; C's `short`, `int` and `size_t` conversions in the allocator and overflow of cursors are not modelled.
- The disk's own file (`totw_p6/disk.c`) is an array of blocks, and its system calls succeed; `malloc` never fails; addresses in the pool are offsets.
- Thread creation and joining, sleeping, printing, argument parsing and clean-up; the dummy scheduler, which leaves everything to the operating system.
- The shell (`totw_p2`) and the ten-slot buffer (`totw_p3`), and all test programs.
