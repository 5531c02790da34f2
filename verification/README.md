# A verified model of the xv6 kernel with RAID-backed swap

The kernel pages user memory out to a swap area on disk, lays that area out as RAID 0, 1 or 5, and sends every
block through a buffer cache, a request queue with one elected dispatcher, and a virtio descriptor ring. This
project models those layers in Dafny and proves, layer by layer, that each looks like something much simpler:

| layer | looks like | main results |
|---|---|---|
| frame table, swap slots, page tables, free list | one flat memory per process | `FlatMemory.RunRefinesFlat`, `Fault.FaultCorrect`, `Fork.ForkCorrect`, `FlatMemory.CopyThenRun`, `CopyLimits.CopyInStops`, `CopyLimits.CopyOutStops` |
| the clock and eviction | the page of the lowest-priority owner goes, then the unreferenced, then the nearest to the hand | `Replacement.EvictTakes` |
| the page tables of Sv39 in memory | a finite map | `Sv39.MapRangeCorrect`, `Sv39.FreeWalkPanicsIff`, `TableJoin.MapRefines` |
| RAID 0, 1 and 5 | an array of pages; RAID 1 and 5 also when a disk is lost | `Raid.RunIsPageArray`, `Raid.RunSurvivesFailure`, `Raid.Raid0RunIff` |
| RAID over the buffer cache | the same array of pages, whatever other processes do to other blocks | `SwapStack.SwapOverCache` |
| buffer cache over the dispatcher | an array of blocks, under every interleaving | `BlockIo.RunRefinesStore`, `BlockIo.ServiceOrder` |
| request queue and dispatcher | one dispatcher, no lost wakeup, no lost request; each request taken by the policy in force | `Dispatcher.InvOverRuns`, `Dispatcher.ServiceByPolicy`, `Dispatcher.FcfsOverRuns` |
| descriptor ring | each call makes exactly its one transfer, of the bytes of its block | `Virtqueue.InvOverRuns`, `Virtqueue.TransfersOnce` |
| `frame_lock` sections, interleaved | an exact counter; exclusive victims | `FrameLock.CountOverRuns`, `FrameLock.StepSwapSoundIff`, `FrameLock.SwapOverRuns` |

## How it is built

Code that updates tables in place is modelled twice. A function on values says what one operation does, and the
lemmas are about that function. A class (`Kernel.Kernel`, `SwapDriver.Driver`, `Sv39.PageTables`,
`DiskQueue.Queue`, `BufferCache.BufList`, `VirtioDriver.VirtioDisk`) holds the arrays and linked lists, runs the
loops of the source, and each method is proved to do exactly what the function says. Class methods require only
that the arrays have their sizes and the entries are in range, not the invariant, so every branch of the source is
there, also those that the invariant later shows are never taken.

What a process sees is `Paging.M(s, p, v)`: the mapped page if page `v` of `p` is resident, the page decoded from
its swap slot if it is swapped out, and zeroes otherwise, with the permissions of the mapping. `Paging.Inv` is the
invariant at operation boundaries: `swap_used[i]` if and only if `swap_map[i]` is used, and then it names slot `i`;
a page is in at most one of the page table and the swap map; a tracked frame has a valid mapping; a physical page
has exactly one place (free list, a mapping, a table, a trapframe); `user_frame_count` counts the entries in use.
Each of the invariants, here and in `Dispatcher`, `BlockIo`, `Virtqueue` and `FrameLock`, is met by the state the
kernel boots into (the lemmas `BootInv` and `BootSound`).

## What is taken as one step

The code does not enforce all of the following; the results hold where they hold.

- Every paging operation (a fault with its nested evictions, a fork, an unmap, a copy, an exit) and every RAID
  read or write of a page is one step. `swap_disk_read` and `swap_disk_write` share static scratch buffers, and
  the lock named at kernel/virtio_disk.c:56 is not taken in the code. `kalloc_user` registers a frame before it is
  mapped, which is invisible only if the fault is one step.
- `FrameLock` drops this assumption for the tables under `frame_lock`: there every section of the lock is a step, and
  the sections of one operation run back to back are the operation of the paging model (`SectionJoin`).
  It shows that the insertion of `uvmcopy` is sound exactly when every map entry below its slot is in use
  (`StepSwapSoundIff`), and that this is so along every schedule in which no fork reserves a slot above one that is
  reserved and no entry below the slot of a fork in flight is released (`SwapOverRuns`). The comment above
  `uvmcopy` promises the copy without such a condition. Two runs from the state at boot break it: a fork overlaps an
  eviction and the child's entry is overwritten (`EntryLost`); and, with no eviction in flight, entries below the
  slot of a fork are released, the child's entry lands below its slot (`EntryMisplaced`), and the next eviction,
  which overlaps nothing, overwrites it (`MisplacedEntryLost`).
- `kfork` holds the child's lock across swap I/O that can sleep. The fork results say what is true if it returns;
  that it returns is not claimed.
- The RAID mode is fixed while pages are swapped out, as README.md of the repository asks.
- In `Dispatcher` a step is one critical section of `disk_queue.lock`, one unlocked action, or one process visited
  by `wakeup`; `sleep` and `wakeup` meet on the sleeper's own lock. In `BlockIo` a step is also one section of
  `bcache.lock` or of a buffer's sleep lock. In `Virtqueue` a driver step is a section of `vdisk_lock` between two
  sleeps, and the device moves on its own at any time.
- The layers are joined by lemmas: the tables of Sv39 to the record of the paging model (`TableJoin`), the RAID
  driver to every interleaving of the cache in which its calls follow one another (`SwapStack`), and the loss of a
  disk to every run of the paging operations (`FlatMemory.RunRefinesFlat`). Two joins are by their results only:
  `FlatMemory` uses the pages of `Raid`, not the cache below them, and `BlockIo` treats `virtio_disk_rw` as one
  transfer (`Virtqueue.TransfersOnce`), its callers being at different buffers (`BlockIo.OutstandingDistinct`).

Constants that are defined in headers outside the repository are taken from xv6: 1024-byte blocks, 4096-byte pages,
64 processes, 30 buffers, 8 descriptors, device 1 as ROOTDEV, MAXVA 2^38, 16 bytes for a virtio request header.
Where comment and code disagree the code is followed: the RAID 5 comment at kernel/virtio_disk.c:163-173 divides by
NDISKS, the code (and the model) by NDISKS - 1.

## Model

| member | source | states |
|---|---|---|
| `FlatMemory.RunRefinesFlat` | kernel/vm.c:381-795 | over every run of process creation, faults, stores, loads, lazy and eager growth, shrinking, fork, exit, level changes and, on a redundant RAID 1 or 5 array, the loss of any one disk at any point with any contents from then on, every load returns what one flat memory per process holds, the view of every process at the end is that memory, the invariant holds and no physical page is lost |
| `FlatMemory.StepRefines` | kernel/vm.c:381-795 | each operation, succeeding or failing, changes the view exactly as its event says, for all processes and pages, and keeps a redundant array redundant |
| `FlatMemory.RunExists` | kernel/vm.c:661-795 | from a state that satisfies the invariant every sequence of operations has such a run |
| `FlatMemory.CopyThenRun` | kernel/vm.c:519-589 | what a successful copyout wrote, a successful copyin of the range returns after any run between them that neither stores to, cuts, forks onto nor ends the range, disk losses included |
| `FlatMemory.RunKeepsBytes` | kernel/vm.c:381-795 | a run without such events on a range leaves its bytes as they were |
| `FlatMemory.StorageStep` | kernel/kalloc.c:118-222 | no paging operation makes a redundant array lose its redundancy, and none but a change of level changes levels, a new process starting at 0 |
| `FlatMemory.LossStep` | kernel/virtio_disk.c:118-336 | losing a disk of a redundant array, or further decay of the lost one, changes no page of any process |
| `FlatMemory.LevelsOverRuns` | kernel/kalloc.c:75-116 | along every run whose level changes are to 0 to 3 all levels stay in that range, so `Replacement.EvictTakes` applies |
| `FlatMemory.BootInv` | kernel/kalloc.c:236-260 | the tables `kinit` leaves satisfy the invariant, with all levels in range |
| `Fault.FaultCorrect` | kernel/vm.c:660-795 | a fault leaves every page of every process as it was; it succeeds exactly if the address is below the size and the page is mapped, or a frame and the missing table pages can be had; the page returned holds what the process sees there |
| `Fault.SameSearch` | kernel/vm.c:697-717 | the swap entry being faulted in survives the evictions nested in the fault, at its index |
| `Fault.MapPageCorrect` | kernel/vm.c:159-188 | mapping a page shows its contents there and changes nothing else; it fails exactly when the free list has fewer pages than table pages are missing, and then nothing is seen to change |
| `Fault.WalkCore` | kernel/vm.c:107-129 | a walk with allocation adds exactly the missing table pages, keeps ownership exclusive and fails exactly when they cannot be had |
| `Fault.RollBack` | kernel/kalloc.c:286-308 | giving up a registered frame restores the invariant and changes no view |
| `Replacement.FaultReferences` | kernel/vm.c:660-795 | after a successful fault the frame of the page is marked referenced; a page brought in is mapped readable and writable for the user, without execute, and has a tracked frame |
| `Eviction.EvictCorrect` | kernel/kalloc.c:118-222 | eviction succeeds exactly if there is a tracked frame and a free swap slot, changes no page of any process, frees one physical page, and keeps every other swap entry in place |
| `Eviction.AttemptCorrect` | kernel/kalloc.c:123-219 | under the invariant no frame is stale, so the first attempt decides |
| `Eviction.KallocUserCorrect` | kernel/kalloc.c:327-375 | it fails exactly when there is no frame slot or no free page, and also nothing to evict or nowhere to evict to; on success the page is zeroed and registered, referenced, for its process; nobody sees a page change either way |
| `Replacement.EvictTakes` | kernel/kalloc.c:75-222 | eviction takes exactly one mapping: of the user frame whose owner has the highest level, then without its reference bit, then reached first by the hand; the page is entered at the lowest free slot, its frame entry cleared, its physical page freed without its contents; the final hand and the other bits are given |
| `Replacement.OneGoesFirst` | kernel/kalloc.c:75-116 | there is such a frame exactly if there is a user frame, and only one |
| `Replacement.EvictRefuses` | kernel/kalloc.c:61-151 | without a free slot only the hand and reference bits change, and the frame that would have gone is marked referenced |
| `Replacement.NothingToEvict` | kernel/kalloc.c:105-130 | without user frames eviction fails and nothing changes |
| `Frames.VictimCharacterised` | kernel/kalloc.c:75-116 | for owner levels 0 to 3 the two laps return the user frame with the highest level, then a clear reference bit, then the least distance from the hand; the fallback loop never decides |
| `Frames.SelectStops` | kernel/kalloc.c:75-116 | for owner levels 0 to 3: where the hand stops, and that exactly the user frames it passed have lost their reference bits |
| `Frames.PreferenceTotal` | kernel/kalloc.c:75-116 | that preference is total on frames, so the victim is determined |
| `Frames.SelectFrame` | kernel/kalloc.c:75-116 | for any levels, selection changes only reference bits and answers -1 exactly if no user frame exists |
| `AddressSpace.UnmapOwnRange` | kernel/vm.c:210-289 | unmapping a range of the running process makes exactly those pages read as untouched and frees their slots, frames and pages |
| `AddressSpace.UnmapForeignRange` | kernel/vm.c:218-289 | on another process's table, whose frames are gone already, only those mappings go; swap map, frame table and all other views are as before |
| `AddressSpace.UnmapOwn` | kernel/vm.c:232-288 | one page of the running process: it is gone from table, swap map and frame table, and no other page changes |
| `AddressSpace.UnmapForeign` | kernel/vm.c:232-288 | one page of a table that is not the running process's, where the clean-up is suppressed |
| `AddressSpace.GrowFromCorrect` | kernel/vm.c:293-320 | eager growth adds pages that read as zeroes; failing half-way takes back what was added; no view changes |
| `AddressSpace.GrowCorrect` | kernel/proc.c:330-353 | growing changes no view, and the size only on success |
| `AddressSpace.GrowMaps` | kernel/vm.c:293-320 | eager growth maps exactly the pages that begin in the new range |
| `AddressSpace.ShrinkCorrect` | kernel/proc.c:347-351 | exactly the pages above the new size read as untouched afterwards; a cut larger than the size changes nothing |
| `AddressSpace.SbrkLazyCorrect` | kernel/sysproc.c:56-65 | lazy growth changes no view, and the size exactly if it stays below the trapframe |
| `Fork.ForkCorrect` | kernel/proc.c:357-378 | success: the first unused process slot gets the parent's size and sees exactly the parent's pages, resident, swapped or untouched, no other process entry changes and nobody else sees a change; failure: swap tables, frame table and the set of free pages are what they were |
| `Fork.UvmCopyCorrect` | kernel/vm.c:381-505 | on success all pages up to the size are copied; on failure the child has no mappings left and no other process sees a change |
| `Fork.CopyPageCorrect` | kernel/vm.c:391-499 | one page, resident, swapped or untouched, is copied, or the copy fails leaving only table pages behind |
| `Fork.SameFirstFree` | kernel/vm.c:426-480 | with atomic operations the slot and the map entry found by the two searches have the same index |
| `Supply.GrowIff` | kernel/proc.c:330-346 | eager growth succeeds if and only if the size stays below the trapframe and the free list covers the pages and the missing tables |
| `Supply.GrowFromIff` | kernel/vm.c:293-320 | the same for uvmalloc, from any state |
| `Supply.AllocProcIff` | kernel/proc.c:119-157 | a process can be made if and only if four pages are free: trapframe, root and two tables |
| `Supply.UvmCopyIff` | kernel/vm.c:381-505 | uvmcopy succeeds if and only if, page by page, free pages, missing tables, swap slots and map entries suffice |
| `Supply.ForkIff` | kernel/proc.c:357-378 | fork gets a child if and only if there is a process slot, four pages, and the copy can be paid for |
| `Supply.CopyInResident` | kernel/vm.c:564-589 | copyin of mapped user pages succeeds and changes nothing |
| `Supply.CopyOutResident` | kernel/vm.c:522-559 | copyout to mapped, writable user pages succeeds and changes no table |
| `Processes.FreeProcCorrect` | kernel/proc.c:199-266 | freeing a process returns all its pages, tables, trapframe, slots and frames; nobody else sees a change |
| `Processes.AllocProcCorrect` | kernel/proc.c:115-157 | a new process gets a trapframe, an empty table and level 0, or everything taken is given back |
| `Processes.FreeWalkCore` | kernel/vm.c:341-362 | `freewalk` on a table without leaves returns every table page |
| `UserCopy.CopyOutCorrect` | kernel/vm.c:519-559 | a prefix of the bytes is stored, all of them on success, and nothing else changes, whatever the faults inside the loop evict |
| `UserCopy.CopyInCorrect` | kernel/vm.c:561-589 | the bytes returned are those the process sees, all on success, a prefix on failure, and no view changes |
| `UserCopy.CopyRoundTrip` | kernel/vm.c:519-589 | what a successful copyout wrote a later successful copyin of the range returns, for every length and alignment, from any state in which those bytes are still seen |
| `UserCopy.TouchCorrect` | kernel/vm.c:533-540 | looking a page up, with a fault if needed, changes no view and yields the page itself |
| `UserCopy.StoreCorrect` | kernel/vm.c:549-552 | a store to a mapped page changes that page of that process only |
| `CopyLimits.TouchIff` | kernel/vm.c:569-577 | looking a page up, with a fault if needed, succeeds if and only if the page is mapped for the user or the fault is possible, and gives user pages only |
| `CopyLimits.CopyInStops` | kernel/vm.c:561-589 | copyin stops exactly at the first page that is neither mapped for the user nor can be brought in by a fault, in the state in which it comes there, and succeeds if there is none |
| `CopyLimits.CopyInRefuses` | kernel/vm.c:574-577 | and at such a page it does fail, returning what it read before |
| `CopyLimits.CopyInUser` | kernel/vm.c:570-577 | every byte copyin returns is from a user page |
| `CopyLimits.CopyOutStops` | kernel/vm.c:519-559 | copyout stops exactly at the first page that is at or above MAXVA, mapped without user or write permission, or not mapped and cannot be brought in, in the state in which it comes there |
| `CopyLimits.CopyOutRefuses` | kernel/vm.c:527-547 | and at such a page it does fail, having stored what comes before |
| `CopyLimits.CopyOutWritable` | kernel/vm.c:545-547 | every byte copyout stores is in a writable user page below MAXVA |
| `Sv39.PXInjective` | kernel/vm.c:99-106 | the three index fields determine the page number |
| `Sv39.SlotsDistinct` | kernel/vm.c:107-129 | different page addresses reach different leaf entries |
| `Sv39.WalkFinds` | kernel/vm.c:107-129 | walk without allocation finds the leaf slot and changes nothing |
| `Sv39.WalkAllocCorrect` | kernel/vm.c:107-129 | walk with allocation keeps the tree a tree and every lookup, and fails exactly when table pages run out |
| `Sv39.MapOneCorrect` | kernel/vm.c:177-181 | one page: no memory exactly when tables cannot be had, the remap panic exactly when the page is mapped, otherwise only its lookup changes |
| `Sv39.MapRangeCorrect` | kernel/vm.c:159-188 | a success changes the lookups of exactly its range, to consecutive physical pages; a failure leaves a mapped prefix; the panic comes exactly at a page that was mapped |
| `Sv39.MapRangeIff` | kernel/vm.c:159-188 | it succeeds if and only if no page of the range is mapped and the free list covers the missing tables |
| `Sv39.FreeWalkExact` | kernel/vm.c:341-362 | freewalk frees every table page of the tree, each exactly once, and no other page |
| `Sv39.FreeWalkPanicsIff` | kernel/vm.c:341-362 | freewalk panics if and only if some page is still mapped, and otherwise returns the pages of `Freed` |
| `Sv39.WalkRefines` | kernel/vm.c:107-129 | the tree in memory and the record the paging model uses have the same walk: same outcome, free list and tables |
| `TableJoin.MapRefines` | kernel/vm.c:159-188 | mapping a page in the tables in memory and in the record of the paging model: same outcome, and they still agree |
| `TableJoin.ClearRefines` | kernel/vm.c:210-289 | clearing an entry in the tables in memory: the record loses that leaf, every other lookup is kept, and they still agree |
| `TableJoin.FreeRefines` | kernel/vm.c:341-362 | the paging model frees the table pages in the order freewalk visits them in memory |
| `Raid.RunIsPageArray` | kernel/virtio_disk.c:118-336 | in every mode, for any failed disk and any initial contents, after any writes each slot reads the last page written to it |
| `Raid.RunSurvivesFailure` | kernel/virtio_disk.c:118-336 | under RAID 1 and 5 the same when any one disk is lost at any point of the run and holds anything from then on, from an array with equal mirrors or stripes that XOR to zero |
| `Raid.Raid0RunIff` | kernel/virtio_disk.c:118-140 | under RAID 0 a page written before the loss of a disk is read back if and only if the lost disk happens to hold its block again |
| `Raid.Raid0KeepsIff` | kernel/virtio_disk.c:118-140 | the same for one page of any RAID 0 store |
| `Raid.Raid0Loses` | kernel/virtio_disk.c:118-140 | for every page and disk there are contents of the lost disk with which the page is not read back |
| `Raid.WriteThenRead` | kernel/virtio_disk.c:118-336 | one block write is one array update on logical blocks, also for blocks that share a stripe and for reconstructed blocks |
| `Raid.WritePageReads` | kernel/virtio_disk.c:118-336 | one page write is one array update on slots |
| `Raid.ReadPlace` | kernel/virtio_disk.c:118-191 | where each block is read: RAID 0 in block order, RAID 1 at two neighbouring blocks, the second if the first disk failed, RAID 5 in the row and on the disk of its map |
| `Raid.ImageLayout` | kernel/virtio_disk.c:71-77 | rows lie one after the other from block 1000 on, the disks of a row side by side |
| `Raid.ParityRotates` | kernel/virtio_disk.c:94-105 | parity starts on disk 0 and moves on by one disk from row to row; in a row logical blocks are on the other disks in order |
| `Raid.ParityOnce` | kernel/virtio_disk.c:94-105 | over four consecutive rows every disk holds parity exactly once |
| `Raid.RowFull` | kernel/virtio_disk.c:94-105 | every block of a row is its parity or the data of one of its logical blocks |
| `Raid.FailureKeepsBlockIff` | kernel/virtio_disk.c:192-206 | RAID 5: a block keeps its value when its disk is lost, whatever that disk then holds, if and only if its stripe XORs to zero |
| `Raid.FailureKeepsMirrorIff` | kernel/virtio_disk.c:141-155 | RAID 1: a block keeps its value when the first disk of its pair is lost if and only if the two mirrors are equal |
| `Raid.FailureKeepsReads` | kernel/virtio_disk.c:141-206 | losing any one disk of a redundant RAID 1 or 5 array, whatever it then holds, changes no logical block |
| `Raid.ReadsWithout` | kernel/virtio_disk.c:141-206 | under RAID 1 and 5 a read does not depend on the contents of the failed disk |
| `Raid.WritesWithout` | kernel/virtio_disk.c:240-332 | under RAID 1 and 5 what a write leaves on the other disks does not depend on the failed disk, and it does not touch that disk |
| `Raid.HealthyWriteKeepsRedundant` | kernel/virtio_disk.c:240-299 | healthy writes keep mirrors equal and stripes at zero |
| `Raid.ParityUpdateKeepsSurvivors` | kernel/virtio_disk.c:277-299 | the read-modify-write parity keeps every reconstruction in the stripe |
| `Raid.DegradedWriteReconstructs` | kernel/virtio_disk.c:307-331 | after a degraded write the missing block reconstructs to the new data |
| `Raid.WriteBlockFrame` | kernel/virtio_disk.c:71-77 | swap writes stay inside the swap area |
| `Raid.PhysBlockInjective` | kernel/virtio_disk.c:71-77 | physical blocks of different disks and rows are different and in the swap area |
| `Raid.Raid1MapInjective` | kernel/virtio_disk.c:85-92 | different logical blocks share no mirror |
| `Raid.Raid5MapInjective` | kernel/virtio_disk.c:94-105 | different logical blocks of a stripe are on different disks and share its parity |
| `Raid.Raid5Map` | kernel/virtio_disk.c:94-105 | a data block is never on its parity disk, and stays in the swap rows |
| `SwapDriver.Driver.XorRow` | kernel/virtio_disk.c:195-204 | the byte loop computes the XOR of the surviving disks |
| `SwapDriver.Driver.MixParity` | kernel/virtio_disk.c:287-288 | the byte loop computes old parity XOR old data XOR new data |
| `SwapDriver.Driver.ReadLogical` | kernel/virtio_disk.c:122-207 | one block, in every mode, is the block the array reads |
| `SwapDriver.Driver.WriteLogical` | kernel/virtio_disk.c:222-332 | one block, in every mode, makes the store the array after the block write |
| `SwapDriver.Driver.SwapDiskRead` | kernel/virtio_disk.c:118-211 | fills the buffer, block after block, with the page the array reads, and leaves the store alone |
| `SwapDriver.Driver.SwapDiskWrite` | kernel/virtio_disk.c:218-336 | makes the store the array after the page write, each block from its place in the page |
| `SwapStack.SwapOverCache` | kernel/virtio_disk.c:79-336 | over every interleaving of the cache, if the accesses to the swap area are those of calls of the driver one after the other, while other processes read and write any other blocks, swap_disk_read returns the last page swap_disk_write stored, in every mode and for any failed disk |
| `SwapStack.AreaFollows` | kernel/bio.c:254-326 | over every run of the cache the swap area answers and changes by the accesses to it only |
| `SwapStack.ReadFollows` | kernel/virtio_disk.c:118-211 | the breads of one block read, with what they returned, give the block the array holds |
| `SwapStack.WriteFollows` | kernel/virtio_disk.c:218-336 | the breads and bwrites of one block write amount to the write on the array, in every mode and branch |
| `DiskQueue.SelectCorrect` | kernel/bio.c:135-174 | SSTF takes the earliest queued among the least (distance, level); FCFS the head |
| `DiskQueue.EarliestBestUnique` | kernel/bio.c:145-174 | there is only one such request |
| `DiskQueue.Queue.Enqueue` | kernel/bio.c:118-133 | the linked list gains the request at its end |
| `DiskQueue.Queue.Choose` | kernel/bio.c:142-174 | the scan finds the selected request and its predecessor |
| `DiskQueue.Queue.Unlink` | kernel/bio.c:176-182 | the request leaves the list and the others stay in order |
| `DiskQueue.Queue.Dequeue` | kernel/bio.c:135-183 | exactly the selected request leaves, the others stay in order; null exactly if the list is empty |
| `Dispatcher.StepInv` | kernel/bio.c:185-252 | every step of every process keeps the invariant and none panics |
| `Dispatcher.InvOverRuns` | kernel/bio.c:185-252 | the invariant holds after every interleaving |
| `Dispatcher.FcfsOverRuns` | kernel/bio.c:118-252 | under FCFS, over every interleaving, the requests taken followed by those still queued are those queued at the start followed by those submitted, in that order |
| `Dispatcher.FcfsPosition` | kernel/bio.c:118-191 | so the k-th request in the queue is the k-th taken, whatever is submitted meanwhile |
| `Dispatcher.ServiceByPolicy` | kernel/bio.c:135-191 | over every interleaving, with the policy changing at any point, FCFS takes the oldest request, SSTF the nearest to the head, then the one of the lowest level, then the oldest |
| `Dispatcher.BootInv` | kernel/bio.c:83-92 | the state `binit` leaves satisfies it, with block numbers in range |
| `Dispatcher.BusyMeansOneDispatcher` | kernel/bio.c:185-245 | busy is set if and only if some process dispatches, never two, and a non-empty queue implies busy |
| `Dispatcher.NobodySleepsOnCompleted` | kernel/proc.c:634-668 | whenever the queue lock is free nobody sleeps, or is about to, on a completed request |
| `Dispatcher.DispatcherReturnsCompleted` | kernel/bio.c:188-196 | when the dispatcher stops, its own request is completed |
| `Dispatcher.SlotsKept` | kernel/bio.c:94-116 | no step frees or reuses the slot of a request that is queued or in flight |
| `Dispatcher.PoolNeverExhausted` | kernel/bio.c:228-232 | with 64 processes the pool-exhausted panic is unreachable |
| `Dispatcher.StatisticsExact` | kernel/bio.c:199-212 | modulo 2^64, total latency is the sum of distance + 5 over the serviced sequence from head 0, and reads, writes and count are the numbers of serviced reads, writes and requests; the sum is at least 5 per request plus the final head, and nothing wraps before it reaches 2^64 |
| `Dispatcher.AccountsForTheMoved` | kernel/bio.c:199-214 | the request accounted for is the one transferred next |
| `BufferCache.UnrefOrder` | kernel/bio.c:315-325 | releasing keeps the list a permutation of the buffers in order of last move to the front |
| `BufferCache.RecyclesOldest` | kernel/bio.c:270-282 | a miss recycles the unreferenced buffer moved to the front the longest ago, or finds every buffer referenced |
| `BufferCache.FindHit` | kernel/bio.c:261-268 | the first buffer in list order that caches the block, or none does |
| `BufferCache.FindUnused` | kernel/bio.c:270-280 | the last buffer in list order without references, or there is none |
| `BufferCache.BufList.PushFront` | kernel/bio.c:320-323 | on the circular list, the buffer becomes the first |
| `BufferCache.BufList.Unlink` | kernel/bio.c:318-319 | on the circular list, exactly this buffer leaves |
| `BufferCache.BufList.FindCached` | kernel/bio.c:261-268 | the forward scan finds the first match, or there is none |
| `BufferCache.BufList.FindFree` | kernel/bio.c:270-280 | the backward scan finds the last unreferenced buffer, or there is none |
| `BufferCache.BufList.Get` | kernel/bio.c:259-282 | the list half of bget is `Bget` on the cache the list shows |
| `BufferCache.BufList.Release` | kernel/bio.c:315-325 | the list half of brelse is `Unref` on it |
| `BufferCache.Binit` | kernel/bio.c:65-81 | builds the list of all buffers, last array element first |
| `BlockIo.StepInv` | kernel/bio.c:254-342 | every step of every process and of the dispatcher keeps the invariant of cache, requests, counts and data |
| `BlockIo.RunRefinesStore` | kernel/bio.c:185-342 | under every interleaving and policy, if changed buffers are written or pinned before they are let go, every bread returns the latest contents of the block it asked for |
| `BlockIo.SeenLatest` | kernel/bio.c:285-296 | one step: bread returns the latest contents, and only the holder's change of data changes them |
| `BlockIo.WriteReachesDisk` | kernel/bio.c:298-305 | when bwrite returns, the disk holds the caller's data |
| `BlockIo.OutstandingDistinct` | kernel/bio.c:223-305 | requests out at the same time are for different buffers and different blocks |
| `BlockIo.ServiceOrder` | kernel/bio.c:135-183 | any two orders of serving the same outstanding requests leave the same disk and buffers |
| `BlockIo.RecycleUnique` | kernel/bio.c:254-283 | a missed block is cached nowhere, so the cache holds a block at most once |
| `BlockIo.PanicsIff` | kernel/bio.c:228-310 | bget panics exactly if all buffers are referenced and none caches the block, bwrite and brelse exactly without the lock, and the pool never runs out |
| `BlockIo.CountsPositive` | kernel/bio.c:307-342 | a buffer a process is at has a positive count, so it is not recycled under it |
| `BlockIo.BootInv` | kernel/bio.c:65-92 | the state `binit` leaves satisfies the invariant |
| `Virtqueue.StepInv` | kernel/virtio_disk.c:442-582 | every step of callers, device and interrupt handler keeps the invariant: sleeping for descriptors, sleeping on the buffer, the wakeups, and completions with or without an error |
| `Virtqueue.PanicsIff` | kernel/virtio_disk.c:454-577 | the one panic that can be reached is that of the interrupt handler, exactly when the device reported an error for the request at hand |
| `Virtqueue.NeverPanics` | kernel/virtio_disk.c:442-582 | with a device that reports no error no step of any interleaving panics |
| `Virtqueue.InvOverRuns` | kernel/virtio_disk.c:442-582 | so after every interleaving, for any order of completion, it holds and the descriptors not free are those in the chains of outstanding requests |
| `Virtqueue.DescriptorsConserved` | kernel/virtio_disk.c:442-493 | a descriptor is not free exactly if it is in the chain of an outstanding request, and in one only |
| `Virtqueue.Alloc3Correct` | kernel/virtio_disk.c:481-493 | all or nothing: success exactly if three are free, otherwise everything is as before |
| `Virtqueue.FreeChainExact` | kernel/virtio_disk.c:467-479 | free_chain terminates, returns exactly its three descriptors and meets no panic |
| `Virtqueue.TransfersOnce` | kernel/virtio_disk.c:495-557 | when virtio_disk_rw returns, the device has made exactly one transfer for it: the 1024 bytes of its block on the device (modulo the 2^32 sectors a 32-bit product can name), its buffer, its direction |
| `Virtqueue.OverlapIff` | kernel/virtio_disk.c:497 | the transfers of two block numbers overlap on the device if and only if the numbers agree in their lower 31 bits, so below 2^31 different blocks are apart |
| `Virtqueue.SectorBytes` | kernel/virtio_disk.c:497 | the sector of a block is where its 1024 bytes begin |
| `Virtqueue.ReadsRequest` | kernel/virtio_disk.c:508-538 | the device, reading header, data and status in its own terms, sees the request the owner of the chain made |
| `Virtqueue.ReportedRequest` | kernel/virtio_disk.c:567-577 | a used entry names a finished request of one waiting process, and its buffer |
| `Virtqueue.SleepersCannotStart` | kernel/virtio_disk.c:502-506 | nobody sleeps for descriptors while three are free |
| `Virtqueue.DozersWait` | kernel/virtio_disk.c:550-575 | nobody sleeps on a buffer whose request was reported: a sleeper has b->disk set and its request with the device |
| `Virtqueue.RoomFor` | kernel/virtio_disk.c:540-544 | neither ring overruns |
| `Virtqueue.BootInv` | kernel/virtio_disk.c:415-436 | the state `virtio_disk_init` leaves satisfies the invariant, with no error waiting |
| `VirtioDriver.VirtioDisk.AllocDesc` | kernel/virtio_disk.c:442-452 | the loop takes the first free descriptor |
| `VirtioDriver.VirtioDisk.FreeDesc` | kernel/virtio_disk.c:454-465 | clears and frees, or panics for a bad or free descriptor |
| `VirtioDriver.VirtioDisk.FreeChain` | kernel/virtio_disk.c:467-479 | the loop follows and frees the chain, whatever the memory holds |
| `VirtioDriver.VirtioDisk.Alloc3Desc` | kernel/virtio_disk.c:481-493 | the loops take three descriptors or give back what they took |
| `VirtioDriver.VirtioDisk.Post` | kernel/virtio_disk.c:508-544 | the chain, the request header and the ring entry are filled in |
| `VirtioDriver.VirtioDisk.Interrupt` | kernel/virtio_disk.c:559-582 | every used entry is reported in turn |
| `FrameLock.StepSound` | kernel/kalloc.c:120-222 | every section of frame_lock keeps the counter exact and each eviction the owner of its victim |
| `FrameLock.CountOverRuns` | kernel/kalloc.c:34-222 | under every interleaving of sections user_frame_count is the number of entries in use |
| `FrameLock.BootSound` | kernel/kalloc.c:236-260 | the tables at boot satisfy both invariants |
| `FrameLock.VictimExclusive` | kernel/kalloc.c:132-140 | a victim under eviction is touched by its evictor only |
| `FrameLock.StepSwapSoundIff` | kernel/vm.c:464-480 | every section keeps the swap tables in agreement, but the insertion of uvmcopy, which keeps them so if and only if every map entry below its slot is in use |
| `FrameLock.StepClear` | kernel/vm.c:426-480 | if a fork reserves its slot below every reserved one and no entry below the slot of a fork in flight is released, every insertion is aligned |
| `FrameLock.SwapOverRuns` | kernel/vm.c:426-480 | along every schedule that keeps to this, the tables agree throughout |
| `FrameLock.EntryLost` | kernel/vm.c:426-480 | a run from boot in which a fork and an eviction overlap: the child has no entry left and its slot leaks |
| `FrameLock.EntryMisplaced` | kernel/vm.c:426-480 | a run from boot, with no eviction in flight during the fork, after which the child's entry is below the slot it names |
| `FrameLock.MisplacedEntryLost` | kernel/vm.c:426-480 | and its continuation, in which the next eviction, overlapping nothing, overwrites that entry |
| `SectionJoin.EvictJoin` | kernel/kalloc.c:120-222 | the sections of one eviction attempt run back to back leave the tables of `EvictAttempt` |
| `SectionJoin.FailJoin` | kernel/kalloc.c:61-69 | an eviction whose write fails is undone, but for the hand and the bits |
| `SectionJoin.RegisterJoin` | kernel/kalloc.c:34-49 | the section of register_user_frame is `Register` |
| `SectionJoin.ClearJoin` | kernel/kalloc.c:286-308 | the sections that drop a frame, mark it referenced or release a swap entry are those of the paging model |
| `SectionJoin.FreeProcessJoin` | kernel/proc.c:199-236 | the section of free_proc_swap_slots is `FreeProcSwapSlots` |
| `SectionJoin.ForkJoin` | kernel/vm.c:426-480 | the two sections of uvmcopy for a swapped page run back to back leave the tables of `CopySwapped` |
| `Kernel.Kernel.constructor` | kernel/kalloc.c:236-268 | kinit: empty tables, and the pages pushed on the free list in address order |
| `Kernel.Kernel.RegisterUserFrame` | kernel/kalloc.c:34-49 | the first unused entry is taken and counted, or there is none |
| `Kernel.Kernel.HasFreeFrameSlot` | kernel/kalloc.c:51-59 | true exactly if an entry is unused |
| `Kernel.Kernel.SelectVictimFrame` | kernel/kalloc.c:75-116 | the clock loop and its fallback are `SelectVictim` |
| `Kernel.Kernel.RestoreVictimFrame` | kernel/kalloc.c:61-69 | the victim is a referenced user frame of its owner again |
| `Kernel.Kernel.TryEvict` | kernel/kalloc.c:123-219 | one attempt is `EvictAttempt`, stale frames included |
| `Kernel.Kernel.EvictOneUserFrame` | kernel/kalloc.c:120-222 | the retry loop is `Evict` |
| `Kernel.Kernel.Kfree` | kernel/kalloc.c:270-284 | the page is filled with ones and pushed |
| `Kernel.Kernel.Kalloc` | kernel/kalloc.c:311-325 | the head of the free list is popped and filled with fives, or the list is empty |
| `Kernel.Kernel.KallocUser` | kernel/kalloc.c:329-375 | the two attempts are `KallocUser` |
| `Kernel.Kernel.FreeUserFrame` | kernel/kalloc.c:286-308 | the first tracked entry of the page is dropped and the page freed |
| `Kernel.Kernel.WalkAlloc` | kernel/vm.c:107-129 | allocates the missing table pages as `Walk` does |
| `Kernel.Kernel.MapPage` | kernel/vm.c:159-188 | one page, as `MapPage` does |
| `Kernel.Kernel.VmFault` | kernel/vm.c:660-795 | all three cases and both roll-backs are `VmFault`; from a state with the invariant, the invariant, the view and the exact success condition hold as in `FaultCorrect` |
| `Kernel.Kernel.UvmUnmap` | kernel/vm.c:210-289 | the loop is `UnmapRange`, with and without the clean-up |
| `Kernel.Kernel.UvmAlloc` | kernel/vm.c:293-320 | the loop and its undoing are `GrowFrom` |
| `Kernel.Kernel.GrowProc` | kernel/proc.c:330-346 | is `Grow` |
| `Kernel.Kernel.ShrinkProc` | kernel/proc.c:347-352 | is `Shrink` |
| `Kernel.Kernel.CopySwap` | kernel/vm.c:397-485 | the swapped half of one iteration is `CopySwapped` |
| `Kernel.Kernel.UvmCopy` | kernel/vm.c:381-505 | the loop and its undoing are `UvmCopyFrom` |
| `Kernel.Kernel.FreeProcSwapSlots` | kernel/proc.c:199-236 | the two loops are `FreeProcSwapSlots` |
| `Kernel.Kernel.FreeTables` | kernel/vm.c:341-362 | the nested loops are `FreeWalk` |
| `Kernel.Kernel.FreeProc` | kernel/proc.c:241-266 | is `FreeProc` |
| `Kernel.Kernel.AllocProc` | kernel/proc.c:119-157 | is `AllocProc` |
| `Kernel.Kernel.KFork` | kernel/proc.c:357-378 | is `KFork`; from a state with the invariant the child sees what the parent sees and nobody else a change, as in `ForkCorrect` |
| `Kernel.Kernel.CopyOut` | kernel/vm.c:522-559 | the loop is `CopyOut`; from a state with the invariant it stores a prefix of the bytes and nothing else, to writable user pages only, and stops only at a page that cannot be stored to |
| `Kernel.Kernel.CopyIn` | kernel/vm.c:564-589 | the loop is `CopyIn`; from a state with the invariant the bytes are those the process sees, from user pages only, no view changes, and it stops only at a page that cannot be read |
| `Sv39.PageTables.WalkTo` | kernel/vm.c:107-129 | on the tables in memory, `Walk` |
| `Sv39.PageTables.MapPages` | kernel/vm.c:159-188 | on the tables in memory, `MapRange` |
| `Sv39.PageTables.FreeWalk` | kernel/vm.c:341-362 | on the tables in memory: it panics exactly when `FreeOutcome` says so, and otherwise appends to the free list the pages `FreeOutcome` lists |

## Left out

- exec: `uvmunmap` does no swap or frame clean-up for a table that is not the running process's, so the paging results are for runs without exec; exec's source is not part of the repository.
- Concurrency inside one paging or RAID operation, TLB shootdown and lock nesting: see "What is taken as one step".
- Changing the RAID mode while pages are swapped out.
- Statistics per process (`page_faults`, `resident_pages` and so on) and the syscalls that report them; `resident_pages` is not exact in the code.
- `copyinstr`, which does not fault swapped pages in; it would only add an easy member.
- MLFQ scheduling; only the level of a process, and its range 0 to 3 in `Frames.VictimCharacterised`.
- MMIO set-up, traps, context switches, argument fetching and user programs.
- The bytes of a free page: the free list is a sequence, and the next pointers kept inside free pages are not modelled.
- The trampoline and trapframe entries of a page table count as table pages to allocate and free, but are not leaf entries of the view.
- The panic of `walk` at or above MAXVA; the alignment panics of `mappages` and `uvmunmap`: addresses are page numbers here.
- The part of `kfork` after the memory is copied: registers, files, name and parent.
- `bwrite` and `brelse` on a buffer of a device other than ROOTDEV: a disk request carries no device number.
- Kernel.Kernel.UvmUnmap: only with `do_free` set; without it the source only clears entries that lie outside the view.
- Kernel.Kernel.KFork: says what holds when it returns, not that it returns.
- DiskQueue.SelectCorrect: for block numbers that fit an int, as `blockno` in a request does.
- Dispatcher.ServiceByPolicy: likewise for block numbers that fit an int.
- Replacement.EvictTakes: for levels 0 to 3, the range MLFQ gives; `Frames.SelectFrame` covers any levels.
- BlockIo.RunRefinesStore: one device, ROOTDEV, as in all callers; for block numbers below 2^31, where neither the conversion to int in a request nor the sector number wraps.
- SwapStack.SwapOverCache: calls of the driver that overlap are not covered, as they would share its scratch buffers.
- Virtqueue.TransfersOnce: memory barriers are taken to order the steps as written.
- VirtioDriver.VirtioDisk.Interrupt: the device does not add entries during the loop; `Virtqueue.StepInv`, one entry a step, allows it.
- Dispatcher.StatisticsExact: `int` distances do not wrap, which they cannot for block numbers below 2^31.
- Sv39.PageTables.FreeWalk: the entries of the freed tables are not cleared as it goes; nothing reads them afterwards.
