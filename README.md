# Memory manager and process scheduler simulators, modelled in Dafny

The repository holds two independent, single-threaded teaching simulators
written in C. Each keeps its whole state in one global structure of
fixed-size tables that short loops update in place. This project models
both cores as Dafny classes and proves what their operations do.

**Virtual-memory engine** (`src/simulador_memoria.c`), modules `Paging`,
`Fifo`, `Placement` and `MemorySimulator`:

- State: a pool of RAM frames and a pool of Swap slots, 50 PCB slots each
  owning a page table, a TLB, a bounded FIFO ring buffer of RAM frame
  indices, a bounded log and the global counters.
- Class `MemorySimulator.MemorySystem` has one method per C function:
  - creation with RAM-first / Swap-fallback placement and rollback;
  - termination;
  - swap-out, and swap-in with FIFO eviction;
  - the TLB operations;
  - the free-frame searches;
  - the page access that the menu performs.
- Class `Fifo.FifoQueue` is the ring buffer over an array.
- Invariant `Valid()`, preserved by every operation except
  `allocate_page_in_ram`:
  - **ownership**: a frame or slot is occupied exactly when one live
    page-table entry points at it, and its (pid, page) names that entry;
  - **TLB coherence**: every valid TLB entry maps (pid, page) to the frame
    the page occupies;
  - **process count**: `num_processes` equals the number of live slots.

**Process scheduler** (`src/simulador_procesos.c`), modules `Processes`
and `Scheduler`:

- State (class `Scheduler.System`): the process table, the CPU and memory
  block pool, FCFS and Round Robin selection, the discrete time step, a
  mailbox, counting semaphores with FIFO wait queues, and a bounded log.
- Invariant `Valid()`:
  - **numbering**: pid p lives in slot p - 1, and pids are never reused;
  - **conservation**: available plus what the processes hold is the total,
    in both components;
  - **CPU discipline**: a process holds either everything it needs or
    nothing, so at most one process holds the CPU; the RUNNING process
    is the one `running_pid` names and holds its resources; a TERMINATED
    process holds nothing. A WAITING or READY process may still hold the
    CPU: one that was suspended or blocked while RUNNING, and later
    resumed or woken.

The loops the source runs are `while`/`for` loops with invariants. Each
loop is proved against a function that specifies it, for example:

- `FirstFree` for the frame searches;
- `TlbVictim` for the replacement scan of `tlb_update`;
- `PlannedTable`, `Placed` and `TlbInsertedAll` for the placement loop;
- `ReleasedOf` for the release loop;
- `FcfsChoice` and `RoundRobinChoice` for process selection;
- `ReceivedAll` for the mailbox scan.

Wall-clock time (`time(NULL)`) is a `now` parameter. The sizes that
`load_config` would read are constructor parameters. Log entries are
abstract events rather than formatted text.

The model keeps these quirks of the code:

- Nothing ever purges the FIFO queue, so it can hold stale or duplicate
  frame indices.
- When RAM is full and Swap is full too, `swap_in_page` fails after the
  victim has already been dequeued, so that frame leaves the FIFO queue
  for good. A queued frame that has since been freed makes it fail the
  same way, but only when some other frame is free, and then the eviction
  branch is not taken.
- `suspend_process` clears `running_pid` but leaves a RUNNING process's
  resources allocated. The CPU unit stays held, so every dispatch of
  another process is denied (and that process set WAITING) until the
  suspended process is resumed and dispatched again, which needs no
  request, or is terminated.
- `wait_semaphore` blocks a RUNNING process without clearing
  `running_pid`, so no other process is dispatched while it waits.
- `swap_in_page` looks for a Swap slot for the victim before it frees its
  own slot.
- `create_process` marks a process SWAPPED whenever fewer than all of its
  pages land in RAM.
- The rollback of `create_process` leaves the TLB and FIFO entries it
  added.
- The scheduler accepts a negative memory-block count.
- Once the capacity check of `create_process` has passed, its rollback path cannot run. `PlacePages` still states what that path does.

## Model

| member | source | states |
|---|---|---|
| Fifo.Enqueued | src/simulador_memoria.c:230-237 | enqueue appends the frame below capacity and is a no-op on a full queue |
| Fifo.EnqueuedAllBounded | src/simulador_memoria.c:230-237 | any run of enqueues keeps the size at most the capacity, keeps the old contents in front and adds only enqueued values |
| Fifo.EnqueuedAllAppends | src/simulador_memoria.c:230-237 | when nothing is dropped, the queue is the old queue followed by the enqueued frames in order (FIFO order) |
| Fifo.FifoQueue.constructor | src/simulador_memoria.c:219-227 | a new queue of the given capacity is empty and satisfies the ring-buffer invariant |
| Fifo.FifoQueue.Enqueue | src/simulador_memoria.c:230-237 | the ring buffer's contents become Enqueued(old contents, capacity, frame); the front/rear/size invariant is kept |
| Fifo.FifoQueue.Dequeue | src/simulador_memoria.c:240-248 | an empty queue yields -1 and stays empty; otherwise the oldest frame is returned and removed |
| Fifo.FifoQueue.IsEmpty | src/simulador_memoria.c:251-253 | true exactly when the queue holds nothing |
| Paging.Logged | src/simulador_memoria.c:411-420 | an entry is appended below MAX_LOG_ENTRIES entries and dropped at or above it |
| Paging.CeilPages | src/simulador_memoria.c:645 | the page count is at least 1 and is the least n with n * PAGE_SIZE >= size_kb |
| Paging.ScaledRoom | src/simulador_memoria.c:662 | the KB capacity test of create_process is the same as the test counted in frames |
| Paging.FreeIndicesSpec | src/simulador_memoria.c:433-450 | FreeIndices lists exactly the free frames of a pool, each once, in ascending order |
| Paging.FirstFree | src/simulador_memoria.c:433-450 | the first free frame, or -1 exactly when every frame is occupied; it is the head of FreeIndices |
| Paging.OccupiedCount | src/simulador_memoria.c:650-660 | occupied frames plus free frames make up the whole pool |
| Paging.OccupiedCountStep | src/simulador_memoria.c:651-655 | scanning one more frame adds one to the count exactly when that frame is occupied |
| Paging.OccupyFirstFree | src/simulador_memoria.c:698-727 | occupying the first free frame leaves the remaining free frames, in order, so the k-th search of the placement loop lands in the k-th free frame |
| Paging.Released | src/simulador_memoria.c:503-506 | a released frame is free with pid and page number -1, and its load time is kept |
| Paging.TlbVictimChoice | src/simulador_memoria.c:289-311 | tlb_update overwrites the first invalid slot if there is one, else the lowest-index slot with the smallest last_access |
| Paging.TlbFind | src/simulador_memoria.c:274-286 | the first valid entry caching (pid, page), or -1 exactly when none does |
| Paging.TlbHitIsResident | src/simulador_memoria.c:274-286 | with a coherent TLB, a hit returns the frame the page table records for the page |
| Paging.TlbTouchKeepsCoherence | src/simulador_memoria.c:278-281 | refreshing last_access on a hit keeps the TLB coherent |
| Paging.Invalidated | src/simulador_memoria.c:314-320 | exactly the valid entries of the pid become invalid, and nothing else in any entry changes |
| Paging.LiveCount | src/simulador_memoria.c:116 | the number of live PCB slots is at most the number of slots |
| Paging.LiveCountFill | src/simulador_memoria.c:773-774 | filling an empty slot adds one live process, matching num_processes++ |
| Paging.LiveCountEmpty | src/simulador_memoria.c:836-837 | emptying a live slot removes one live process, matching num_processes-- |
| Paging.LiveCountReplace | src/simulador_memoria.c:590 | replacing a live PCB by another keeps the count |
| Paging.FirstEmpty | src/simulador_memoria.c:668-674 | the first NULL PCB slot, or -1 exactly when all slots are in use |
| Paging.FreeSlotExists | src/simulador_memoria.c:634-678 | once fewer than 50 processes are live the slot search succeeds, so its error branch is unreachable |
| Paging.InitialCoherent | src/simulador_memoria.c:336-357 | the all-free state that init_system builds satisfies the ownership and TLB invariants |
| Paging.OccupiedIffReferenced | src/simulador_memoria.c:89-94 | a RAM frame is occupied iff some live entry is IN_RAM with that frame number, and then the frame's (pid, page_number) names that entry |
| Paging.SlotOccupiedIffReferenced | src/simulador_memoria.c:89-94 | a Swap slot is occupied iff some live entry is IN_SWAP at it, and the slot's (pid, page_number) names that entry |
| Paging.ResidentUnique | src/simulador_memoria.c:89-94 | at most one live entry refers to a RAM frame |
| Paging.SwappedUnique | src/simulador_memoria.c:89-94 | at most one live entry refers to a Swap slot |
| Paging.SwappedOccupied | src/simulador_memoria.c:540-542 | the Swap position of a swapped page is in range and occupied, so that guard of swap_in_page never fails under the invariant |
| Paging.PageInExactlyOnePool | src/simulador_memoria.c:56-65 | each page of a live process is in exactly one of RAM and Swap |
| Paging.SwappedOutEntry | src/simulador_memoria.c:497-501 | the entry becomes IN_SWAP, invalid, frame -1, at the new Swap position; other fields are kept |
| Paging.SwappedInEntry | src/simulador_memoria.c:570-575 | the entry becomes IN_RAM, valid, at the new frame, swap position -1, with a new load time |
| Paging.RamEntry | src/simulador_memoria.c:712-719 | the entry of a page placed in RAM: its page number, IN_RAM, valid, the frame, swap position -1 |
| Paging.SwapEntry | src/simulador_memoria.c:754-761 | the entry of a page placed in Swap: its page number, IN_SWAP, invalid, frame -1, the slot |
| Paging.WithSwappedOut | src/simulador_memoria.c:497-501 | only the swapped-out page's entry changes, in the owner's slot |
| Paging.WithSwappedIn | src/simulador_memoria.c:570-591 | only the loaded page's entry changes, and the owner's page-fault count grows by one |
| Paging.SwapOutKeepsSwapped | src/simulador_memoria.c:549-562 | evicting a RAM page leaves every swapped page where it was, so the page being swapped in keeps its slot |
| Paging.SwapOutKeepsCoherence | src/simulador_memoria.c:490-512 | moving a page to a free Swap slot, freeing its frame and invalidating its process's TLB entries keeps every invariant |
| Paging.SwapInKeepsCoherence | src/simulador_memoria.c:564-586 | loading a swapped page into a free frame, freeing its slot and caching it in any TLB slot keeps every invariant |
| Paging.TlbInsertKeepsCoherence | src/simulador_memoria.c:1348-1357 | caching a resident page's true frame in any TLB slot keeps the TLB coherent |
| Paging.StartPending | src/simulador_memoria.c:683-693 | a new PCB with an empty page table in an empty slot keeps the invariants |
| Paging.PlaceInRamKeepsCoherence | src/simulador_memoria.c:700-724 | placing the next page in a free RAM frame and caching it in the TLB keeps the invariants |
| Paging.PlaceInSwapKeepsCoherence | src/simulador_memoria.c:727-762 | placing the next page in a free Swap slot keeps the invariants |
| Paging.ReleasedOf | src/simulador_memoria.c:805-818 | every frame held by the pid is released, and every other frame is unchanged |
| Paging.ReleasedBelow | src/simulador_memoria.c:805-818 | the state part-way through the release loop: the frames of the pid's first i pages are released |
| Paging.ReleaseStep | src/simulador_memoria.c:806-818 | one iteration releases the frame or slot named by page i's entry and nothing else |
| Paging.ReleasedAll | src/simulador_memoria.c:805-818 | after visiting every page, exactly the frames and slots of the process are released |
| Paging.TerminateKeepsCoherence | src/simulador_memoria.c:798-844 | releasing a process's frames, invalidating its TLB entries and emptying its slot keeps every invariant |
| Paging.InvalidateThenDropKeepsTlb | src/simulador_memoria.c:821-837 | once a process's TLB entries are invalid, removing it keeps the TLB coherent |
| Paging.SlotOfPid | src/simulador_memoria.c:683 | under the invariant the PCB in slot s has pid s + 1 |
| Paging.SameLayoutKeepsCoherence | src/simulador_memoria.c:768-770 | changing a PCB's name, state or counters but not its pid or page table keeps the ownership and TLB invariants |
| Paging.FinishKeepsComplete | src/simulador_memoria.c:773 | installing a process with one entry per page, each IN_RAM or IN_SWAP, keeps every live process complete |
| Placement.PlannedTable | src/simulador_memoria.c:698-765 | the page table the placement loop builds has one entry per page |
| Placement.RamShare | src/simulador_memoria.c:698-724 | the number of pages that land in RAM is the smaller of the page count and the free RAM frames |
| Placement.Placed | src/simulador_memoria.c:702-705 | the pool after page base + k of the pid is written into frame idx[k], for every k; its size is kept |
| Placement.TlbInsertedAll | src/simulador_memoria.c:722 | the TLB after one tlb_update per page placed in RAM; its size is kept |
| Placement.Vacated | src/simulador_memoria.c:733-743 | the rollback marks every named frame free with pid -1 and leaves all others unchanged |
| Placement.StoredName | src/simulador_memoria.c:684-685 | strncpy into the 32-byte name keeps a prefix of at most 31 characters, and a short name whole |
| Placement.PlacingInit | src/simulador_memoria.c:697-698 | the placement loop's invariant holds before the first page |
| Placement.PlacingRamStep | src/simulador_memoria.c:700-724 | a page placed in the first free RAM frame keeps the loop invariant, with the frame enqueued and cached |
| Placement.PlacingSwapStep | src/simulador_memoria.c:727-762 | with RAM full, a page placed in the first free Swap slot keeps the loop invariant |
| Placement.PoolStep | src/simulador_memoria.c:700-705 | the k-th search finds the k-th free frame of the initial pool, and filling it extends the placement by one |
| Placement.PlacingFull | src/simulador_memoria.c:727-747 | when both pools are full, every initially free frame and slot was taken, and the pages placed point at exactly those |
| Placement.PlannedTableBounds | src/simulador_memoria.c:698-765 | every entry of the plan points at a frame or slot that exists |
| Placement.PlacedSpec | src/simulador_memoria.c:698-765 | frame idx[k] holds page base + k of the pid, and every other frame is untouched, so no other process's frame changes |
| Placement.PlannedTableShape | src/simulador_memoria.c:766-770 | the first RamShare pages are IN_RAM and the rest IN_SWAP; some page is in Swap (state SWAPPED) exactly when fewer than all pages fit in RAM |
| Placement.PlannedHeld | src/simulador_memoria.c:698-765 | the finished plan holds the first RamShare free RAM frames and the first n - RamShare free Swap slots, in order |
| Placement.FreeIndicesByOccupancy | src/simulador_memoria.c:433-450 | which frames are free depends only on their occupied flags |
| Placement.RollbackRestoresFree | src/simulador_memoria.c:733-743 | vacating the frames a placement filled restores exactly the free frames there were before |
| MemorySimulator.MemorySystem.constructor | src/simulador_memoria.c:323-385 | frame counts are size / PAGE_SIZE, every frame, slot and TLB entry is empty, no process is live, the queue is empty, one log entry, zero counters, and the invariant holds |
| MemorySimulator.MemorySystem.AddLog | src/simulador_memoria.c:411-420 | the log becomes Logged(old log, entry) and nothing else changes |
| MemorySimulator.MemorySystem.FindProcess | src/simulador_memoria.c:423-430 | the first live slot holding the pid, or -1 exactly when there is none |
| MemorySimulator.MemorySystem.FindProcessLive | src/simulador_memoria.c:423-430 | under the invariant the search fails exactly for a pid that is not live, and otherwise finds slot pid - 1 |
| MemorySimulator.MemorySystem.FindFree | src/simulador_memoria.c:433-440 | the scan returns FirstFree of the pool |
| MemorySimulator.MemorySystem.FindFreeRamFrame | src/simulador_memoria.c:433-440 | the lowest free RAM frame, or -1 |
| MemorySimulator.MemorySystem.FindFreeSwapFrame | src/simulador_memoria.c:443-450 | the lowest free Swap slot, or -1 |
| MemorySimulator.MemorySystem.TlbLookup | src/simulador_memoria.c:274-286 | a hit returns the first matching entry's frame, refreshes only that entry and counts a hit; a miss returns -1 and counts a miss; a hit's frame is where the page is resident |
| MemorySimulator.MemorySystem.TlbUpdate | src/simulador_memoria.c:289-311 | exactly the TlbVictim slot receives the valid (pid, page, frame) entry, and the other slots are unchanged |
| MemorySimulator.MemorySystem.TlbInvalidate | src/simulador_memoria.c:314-320 | the TLB becomes Invalidated(old TLB, pid) |
| MemorySimulator.MemorySystem.SelectVictimPageFifo | src/simulador_memoria.c:453-459 | the oldest queued frame is removed and returned, or -1 on an empty queue |
| MemorySimulator.MemorySystem.NoSwapLogged | src/simulador_memoria.c:462-488 | after a failed swap-out the log holds one more "no Swap space" entry with the frame's owner and page exactly when the frame index is valid, the frame occupied and Swap full (log below its bound), and is unchanged on a bad index or a free frame |
| MemorySimulator.MemorySystem.SwapOutPage | src/simulador_memoria.c:462-520 | fails and changes no frame, table, TLB or counter exactly on a bad index, a free frame or a full Swap, logging "no Swap space" with the owner and page only in the last case (`NoSwapLogged`) and nothing otherwise; on success the page moves to the lowest free Swap slot, its frame is freed, its pid's TLB entries are invalidated, swaps grows by one, one "swapped out" entry with pid, page, frame and slot is logged, and the invariant is kept |
| MemorySimulator.MemorySystem.SwapOutAt | src/simulador_memoria.c:490-517 | the moves of a successful swap-out, stated as the new pools, tables, TLB, counters and log (one "swapped out" entry with pid, page, frame and slot), with the invariant kept |
| MemorySimulator.MemorySystem.SwapInPage | src/simulador_memoria.c:523-599 | fails and changes nothing, log included, for a page that is not a live pid's page in Swap; otherwise `SwappedIn`: with a free frame the page moves into the lowest one, its Swap slot is released, the TLB caches it, the frame is queued and one "swapped in" entry is logged; with RAM full and an empty queue only "no victim" is logged; otherwise the oldest queued frame is dequeued, its page swapped out to the first free Swap slot and the page loaded in its place, logging "swapped out" then "swapped in", the call failing exactly when that frame is free or Swap is full, when only swap_out_page's own "no Swap space" entry (if any) is logged; only the swap and fault counters change; the invariant is kept |
| MemorySimulator.MemorySystem.LocateSwapped | src/simulador_memoria.c:524-543 | the guards of swap_in_page pass exactly for a live pid's page that is in Swap, and then the Swap position is in range |
| MemorySimulator.MemorySystem.SwapInChecked | src/simulador_memoria.c:545-599 | the page lands in the lowest free frame with one "swapped in" entry logged, or after a FIFO eviction in the victim's frame with the swap-out and swap-in entries logged; with RAM full and an empty queue nothing changes apart from one "no victim" log entry; a failed eviction leaves the pools as they were and logs at most "no Swap space" |
| MemorySimulator.MemorySystem.EvictAndLoad | src/simulador_memoria.c:547-598 | with RAM full, the oldest queued frame is dequeued, its page swapped out and the swapped page loaded into it, logging "swapped out" then "swapped in"; the call fails, dequeue and one log entry aside, when the queue is empty ("no victim"), the victim frame is free (nothing logged) or Swap is full ("no Swap space") |
| MemorySimulator.MemorySystem.EvictVictim | src/simulador_memoria.c:549-562 | the oldest queued frame is dequeued, and swapped out with a "swapped out" entry logged when it is occupied and Swap has room; otherwise -1 and the pools are unchanged, with "no victim" logged for an empty queue and "no Swap space" for an occupied victim with Swap full |
| MemorySimulator.MemorySystem.LoadSwappedPage | src/simulador_memoria.c:564-598 | the page moves from its Swap slot into the frame, which is enqueued and cached in the TLB, swaps and page faults each grow by one, and one "swapped in" entry with pid, page, Swap slot and frame is logged |
| MemorySimulator.MemorySystem.SwapInAt | src/simulador_memoria.c:564-583 | the frame, the slot, the page table and the TLB after a swap-in, with the invariant kept |
| MemorySimulator.MemorySystem.AllocatePageInRam | src/simulador_memoria.c:602-630 | the lowest free frame, or else the swapped-out FIFO victim, receives the page and is enqueued; -1 when there is no victim or the swap-out fails |
| MemorySimulator.MemorySystem.ClaimFrame | src/simulador_memoria.c:620-627 | the frame holds the page and is enqueued |
| MemorySimulator.MemorySystem.PlaceInRam | src/simulador_memoria.c:702-722 | the frame holds the page, is enqueued, and the TLB caches the mapping |
| MemorySimulator.MemorySystem.Rollback | src/simulador_memoria.c:733-743 | the frames and slots named by the pages placed so far are vacated |
| MemorySimulator.MemorySystem.PlacePages | src/simulador_memoria.c:698-765 | succeeds iff the free frames and slots suffice; on success the first RamShare free frames and then the first free slots hold the pages in order, with the invariants kept for the new table; on failure everything taken is vacated, while the TLB and FIFO entries it added stay |
| MemorySimulator.MemorySystem.UndoPlacement | src/simulador_memoria.c:729-747 | the rollback gives back every frame and slot the loop took, and the TLB and queue keep what the loop added |
| MemorySimulator.MemorySystem.PlaceAll | src/simulador_memoria.c:698-765 | the loop places every page iff the free frames and slots suffice; otherwise it stops with both pools full |
| MemorySimulator.MemorySystem.RollbackFreesAll | src/simulador_memoria.c:733-743 | after the rollback the free frames and slots are exactly those before the placement |
| MemorySimulator.MemorySystem.PlaceNext | src/simulador_memoria.c:698-765 | one iteration places page i iff some frame or slot is free, and otherwise changes nothing |
| MemorySimulator.MemorySystem.PlaceNextInRam | src/simulador_memoria.c:700-724 | the RAM branch extends the loop invariant by a RAM entry |
| MemorySimulator.MemorySystem.PlaceNextInSwap | src/simulador_memoria.c:727-762 | the Swap branch extends the loop invariant by a Swap entry |
| MemorySimulator.MemorySystem.UsedSpace | src/simulador_memoria.c:648-660 | the used space is the number of occupied frames and slots times PAGE_SIZE |
| MemorySimulator.MemorySystem.HasRoomFor | src/simulador_memoria.c:648-666 | there is room exactly when occupied frames plus the new pages fit in RAM plus Swap |
| MemorySimulator.MemorySystem.FindEmptySlot | src/simulador_memoria.c:668-674 | the first empty PCB slot, or -1 |
| MemorySimulator.MemorySystem.CreateProcess | src/simulador_memoria.c:633-795 | returns -1 and changes nothing exactly when there are 50 processes, size_kb <= 0 or the pages do not fit; otherwise pid = first empty slot + 1, the PCB holds ceil(size_kb / PAGE_SIZE) pages placed RAM first then Swap, it is SWAPPED iff some page is in Swap, and the invariant is kept |
| MemorySimulator.MemorySystem.Admission | src/simulador_memoria.c:634-678 | the guards reject exactly what Admits rejects; on success they give the first empty slot and the ceiling page count, which fits in the free frames |
| MemorySimulator.MemorySystem.InstallProcess | src/simulador_memoria.c:680-795 | an admitted process is placed, installed in its slot and logged, and the invariant and process count are kept |
| MemorySimulator.MemorySystem.TerminateProcess | src/simulador_memoria.c:798-844 | succeeds iff the pid is live; on failure nothing changes; on success its frames and slots are released, its TLB entries invalidated, its slot emptied and the count drops by one, so a second call fails |
| MemorySimulator.MemorySystem.ReleaseFrames | src/simulador_memoria.c:805-818 | the release loop frees exactly the frames and slots of the process |
| MemorySimulator.MemorySystem.AccessPage | src/simulador_memoria.c:1298-1371 | rejects exactly no live process, an unknown pid or a page out of range, changing nothing; otherwise `Resolved`: one access counted; a TLB hit refreshes that entry's access time and changes nothing else but the hit count and one "TLB hit" log entry; a miss counts one miss and refills the TLB from the page table for an IN_RAM page, logging one "in RAM" entry, or swaps the page in as `SwappedIn` states, log included; the invariant is kept |
| MemorySimulator.MemorySystem.ResolveAccess | src/simulador_memoria.c:1329-1371 | `Resolved`: a TLB hit exactly when the TLB caches the page, with only that entry's access time, the access and hit counters and one "TLB hit" log entry changed; otherwise one miss counted and a page-table refill for an IN_RAM page (pools, queue and other counters unchanged, one "in RAM" entry logged) or the swap-in of `SwappedIn` for a page in Swap |
| MemorySimulator.MemorySystem.CacheResident | src/simulador_memoria.c:1348-1357 | the TLB caches the resident page's frame in the victim slot, one "in RAM" entry with pid, page and frame is logged, the counters are unchanged and the invariant is kept |
| MemorySimulator.MemorySystem.ResolveMiss | src/simulador_memoria.c:1345-1371 | an IN_RAM page is cached in the TLB victim entry with its frame number, one "in RAM" entry is logged and nothing else changes; a page in Swap is swapped in exactly as `SwappedIn` states, log included, and on success is IN_RAM; a swap-in fails only with RAM full; never "not present" under the invariant; the access, hit and miss counters are untouched |
| Processes.Fresh | src/simulador_procesos.c:196-212 | a new PCB is READY with the given pid, priority and burst, remaining = burst, arrival = now, quantum = the current quantum, allocation (0, 0) and need (1, blocks) |
| Processes.Truncated | src/simulador_procesos.c:603-604 | strncpy keeps a prefix of at most 255 characters, and a short message whole |
| Processes.Logged | src/simulador_procesos.c:174-182 | the log grows by one entry below MAX_LOG_ENTRIES and is unchanged at the bound, so it never exceeds it |
| Processes.LoggedKeepsHistory | src/simulador_procesos.c:174-182 | earlier entries stay in place and a kept entry is the new last one |
| Processes.Covers | src/simulador_procesos.c:225-230 | check_deadlock_prevention grants a request exactly when taking it from the available pool leaves neither the CPU nor the memory blocks negative |
| Processes.HeldUpdate | src/simulador_procesos.c:247-250 | changing one process's allocation changes the total held by the difference, in both components |
| Processes.FcfsChoice | src/simulador_procesos.c:388-397 | the READY process with the smallest arrival time, the lowest index on ties, or -1 exactly when none is READY |
| Processes.RoundRobinBest | src/simulador_procesos.c:400-411 | the READY process with the smallest pid other than the last preempted one, the lowest index on ties, or -1 |
| Processes.FirstReadyWithPid | src/simulador_procesos.c:412-419 | the first READY process with the given pid, or -1 |
| Processes.RoundRobinChoice | src/simulador_procesos.c:399-421 | the smallest eligible pid if any; otherwise the last preempted process if it is READY; otherwise -1 |
| Processes.Choice | src/simulador_procesos.c:384-422 | the selected process is READY; under FCFS there is none exactly when no process is READY |
| Processes.Replace | src/simulador_procesos.c:266-283 | replacing a process keeps the numbering and discipline and changes the total held by the difference of the allocations |
| Processes.Appended | src/simulador_procesos.c:196-214 | appending a fresh process numbered next keeps the numbering and discipline and leaves the total held unchanged |
| Processes.Idle | src/simulador_procesos.c:299-301 | once the process the CPU names is not RUNNING, no process is, and the CPU can be marked idle |
| Processes.Handover | src/simulador_procesos.c:424-443 | while the CPU is idle the discipline holds for whichever process it is handed to |
| Processes.Finished | src/simulador_procesos.c:349-354 | a terminated PCB holds nothing, records the cause, completion = now and turnaround = now - arrival |
| Processes.Worked | src/simulador_procesos.c:456-461 | one unit less of work, and one unit less of quantum under Round Robin only |
| Processes.Preempts | src/simulador_procesos.c:469 | a process is preempted only under Round Robin, never under FCFS, and only while it still has work left, so preemption and normal termination exclude each other |
| Processes.AgedAll | src/simulador_procesos.c:492-496 | every process is aged in place and the table keeps its length |
| Processes.AgingKeepsHeld | src/simulador_procesos.c:492-496 | aging changes only waiting times, so states, allocations and the total held are unchanged |
| Processes.AgingKeepsSlots | src/simulador_procesos.c:492-496 | aging keeps the numbering and discipline |
| Processes.ReceivedAll | src/simulador_procesos.c:618-629 | every message pending for the receiver is marked delivered, and nothing else changes |
| Processes.ReceiptLogsStep | src/simulador_procesos.c:619-628 | each pending message adds its own log entry, in mailbox order |
| Processes.ReceiveTwiceIsReceiveOnce | src/simulador_procesos.c:614-635 | a second receive for the same pid changes no message and logs nothing |
| Processes.ReceiptLogsBounded | src/simulador_procesos.c:618-629 | receiving keeps the old log as a prefix, within MAX_LOG_ENTRIES and at most one entry per message |
| Scheduler.System.constructor | src/simulador_procesos.c:147-172 | no processes, messages or semaphores, the full pool (1 CPU, 4 blocks) available, quantum 2, time 0, CPU idle, zero counters, one log entry, and the invariant holds |
| Scheduler.System.FindProcessByPid | src/simulador_procesos.c:375-382 | with pids numbered by slot, the search returns pid - 1 for a known pid and -1 otherwise |
| Scheduler.System.CreateProcess | src/simulador_procesos.c:184-223 | -1 and no change exactly when 50 processes exist or more than 4 blocks are asked; otherwise a Fresh process with pid next_pid is appended, next_pid grows, and pids strictly increase |
| Scheduler.System.RequestResources | src/simulador_procesos.c:232-264 | granted iff the pid is known and the request fits what is available; a grant moves exactly req from available to the allocation; a denial sets WAITING and moves nothing; conservation is kept |
| Scheduler.System.ReleaseResources | src/simulador_procesos.c:266-283 | a known process's allocation returns to the pool and is zeroed; an unknown pid changes nothing; conservation is kept |
| Scheduler.System.ReleaseAt | src/simulador_procesos.c:270-282 | the found process's allocation returns to the pool with one log entry |
| Scheduler.System.SuspendProcess | src/simulador_procesos.c:285-308 | a known, unterminated process becomes WAITING, keeps its resources and idles the CPU if it was RUNNING; otherwise nothing changes |
| Scheduler.System.ResumeProcess | src/simulador_procesos.c:310-329 | only a WAITING process changes, to READY; otherwise nothing changes |
| Scheduler.System.Relabel | src/simulador_procesos.c:324-327 | one process moves to READY or WAITING with one log entry, keeping the invariant |
| Scheduler.System.TerminateProcess | src/simulador_procesos.c:331-373 | a no-op for an unknown or terminated pid; otherwise resources are released, the process is TERMINATED with completion and turnaround times, and the completion counters grow |
| Scheduler.System.TerminateAt | src/simulador_procesos.c:345-371 | the termination of a found, unterminated process, as Ended |
| Scheduler.System.Vacate | src/simulador_procesos.c:345-350 | the allocation returns to the pool, the slot takes its new PCB, and the CPU is idle if the process was RUNNING |
| Scheduler.System.PickFcfs | src/simulador_procesos.c:388-397 | the FCFS loop computes FcfsChoice |
| Scheduler.System.PickRoundRobin | src/simulador_procesos.c:399-419 | the two Round Robin loops compute RoundRobinChoice |
| Scheduler.System.PickEligible | src/simulador_procesos.c:400-411 | the first Round Robin loop computes RoundRobinBest |
| Scheduler.System.PickPreempted | src/simulador_procesos.c:412-419 | the fallback loop computes FirstReadyWithPid |
| Scheduler.System.SelectNextProcess | src/simulador_procesos.c:384-445 | the books become `AfterDispatch` of the process Choice picks; Round Robin resets last_preempted_pid to -1 |
| Scheduler.System.Dispatch | src/simulador_procesos.c:424-444 | the books become exactly `AfterDispatch` of the selected slot: it runs if it holds a CPU or its request is granted, otherwise it is denied and WAITING |
| Scheduler.System.Grant | src/simulador_procesos.c:427-435 | a selected process holding no CPU requests what it needs; the books become `AfterDispatch`: granted and RUNNING, or denied and WAITING |
| Scheduler.System.Run | src/simulador_procesos.c:429-434 | the selected process becomes RUNNING and running_pid names it, with one log entry |
| Scheduler.System.ExecuteStep | src/simulador_procesos.c:447-508 | the clock advances by one and busy time grows iff a process was RUNNING; the books become `Ticked` (the run, then aging of every READY and WAITING process, the run slot included) and, when the CPU is then idle, `AfterDispatch` of the process Choice picks from the aged table with the updated last preempted pid |
| Scheduler.System.Tick | src/simulador_procesos.c:448-496 | the clock advances; the books become `Ticked`: the RUNNING process runs one unit as `AfterUnit` states, then every READY and WAITING process ages; last_preempted_pid becomes `PreemptedAfterRun` |
| Scheduler.System.RunRunning | src/simulador_procesos.c:450-490 | the books become `AfterRun`: one unit of work for the process running_pid names when it is RUNNING, and no change at all otherwise; busy time grows iff it ran |
| Scheduler.System.RunForOneUnit | src/simulador_procesos.c:455-487 | the books become `AfterUnit` of the slot and busy time grows by one; last_preempted_pid becomes its pid exactly when it is preempted |
| Scheduler.AfterUnit | src/simulador_procesos.c:455-487 | one unit of work: only the running slot changes, keeping its pid, with one unit less of work; the CPU is either released or still the same; the completion count grows by one exactly when the process ends TERMINATED |
| Scheduler.AfterUnitConserves | src/simulador_procesos.c:471-473 | a unit of work keeps what is available plus what is held, in both components |
| Scheduler.AfterRun | src/simulador_procesos.c:449-490 | the process running_pid names works one unit when it is RUNNING; otherwise the books are unchanged |
| Scheduler.PreemptedAfterRun | src/simulador_procesos.c:469-470 | last_preempted_pid changes only under Round Robin, and then to the pid of the RUNNING process |
| Scheduler.Ticked | src/simulador_procesos.c:447-496 | after the run, every slot other than the one that ran has aged, and the pool and running_pid are those after the run |
| Scheduler.AfterDispatch | src/simulador_procesos.c:424-444 | only the selected slot changes; the completion counters are untouched; running_pid changes only to the selected pid, whose process is then RUNNING |
| Scheduler.AfterDispatchConserves | src/simulador_procesos.c:246-250 | a dispatch keeps what is available plus what is held, in both components |
| Scheduler.System.Work | src/simulador_procesos.c:456-466 | the process becomes Worked and busy time grows by one, with one log entry |
| Scheduler.System.Preempt | src/simulador_procesos.c:469-481 | the process releases its allocation, is READY with a fresh quantum, the CPU is idle and it is recorded as last preempted |
| Scheduler.System.AgeWaiting | src/simulador_procesos.c:492-496 | the table becomes AgedAll of the old table |
| Scheduler.System.CpuExclusive | src/simulador_procesos.c:424-443 | under the invariant at most one process holds a CPU and at most one is RUNNING |
| Scheduler.System.SendMessage | src/simulador_procesos.c:594-612 | below 100 messages an undelivered message is appended and logged; at the bound nothing changes |
| Scheduler.System.ReceiveMessage | src/simulador_procesos.c:614-635 | the mailbox becomes ReceivedAll and the log ReceiptLogs; found iff some message was pending |
| Scheduler.System.Deliver | src/simulador_procesos.c:618-629 | the mailbox loop computes ReceivedAll and ReceiptLogs |
| Scheduler.System.ReceiveAt | src/simulador_procesos.c:619-628 | one message, if pending, is marked delivered and logged; the others are unchanged |
| Scheduler.System.CreateSemaphore | src/simulador_procesos.c:637-656 | -1 and no change at 10 semaphores; otherwise the next id with its initial value and an empty queue |
| Scheduler.System.WaitSemaphore | src/simulador_procesos.c:658-682 | an invalid id changes nothing; otherwise the value drops by one, and a negative value for a known pid sets it WAITING and appends it to the queue; other semaphores are untouched |
| Scheduler.System.Block | src/simulador_procesos.c:673-680 | the process becomes WAITING and joins the end of the semaphore's queue |
| Scheduler.System.Enqueue | src/simulador_procesos.c:676 | the pid is appended to the semaphore's queue, and the other queues are untouched |
| Scheduler.System.SignalSemaphore | src/simulador_procesos.c:684-713 | an invalid id changes nothing; otherwise the value grows by one, and with value <= 0 and waiters the oldest waiter leaves the queue and, if known, becomes READY |
| Scheduler.System.ShiftQueue | src/simulador_procesos.c:698-703 | the in-place shift removes exactly the oldest waiter and keeps the rest in order |
| Scheduler.System.SelectAlgorithm | src/simulador_procesos.c:754-772 | choice 2 selects Round Robin with the new quantum, any other choice FCFS; only choices 1 and 2 log |

## Left out

- `load_config` (src/simulador_memoria.c:188-216) reads a file. RAM_SIZE, SWAP_SIZE, PAGE_SIZE and TLB_SIZE are constructor parameters instead.
- MemorySimulator.MemorySystem.constructor: requires PAGE_SIZE > 0, TLB_SIZE >= 1 and non-negative RAM and Swap sizes. The source does not validate its configuration; with other values it divides by zero in `init_system` or reads and writes outside an empty TLB in `tlb_update`.
- Console and file output are not modelled: the `display_*` functions, the menus, `get_user_input_int`, `save_logs_to_file`, `list_processes`, `show_*` and `main`. Only the page-access logic of the memory menu (src/simulador_memoria.c:1298-1371) is lifted into `AccessPage`.
- `select_algorithm` reads its choice and quantum from stdin; they are parameters of `SelectAlgorithm`.
- The floating-point metrics (hit rate, utilisation, averages, throughput) are not modelled.
- Wall-clock time is the parameter `now` of the memory engine. The scheduler already uses its own integer clock.
- Log entries carry abstract events instead of formatted text, and log timestamps come from `now`.
- `malloc`/`free` and `free_system`/`free_fifo_queue` are not modelled. PCBs are values in slots, and page tables are sequences.
- `demonstrate_producer_consumer` and the shared buffer are not modelled: it is a fixed driver of `create_semaphore`/`create_process` calls, and `producer`/`consumer` are never defined.
- Integers are unbounded. Counters, times and `num_pages * PAGE_SIZE` do not wrap around at 32 bits.
- MemorySimulator.MemorySystem.AllocatePageInRam: promises only the array shapes afterwards, not `Valid()`. The source never calls it, and it fills a frame without updating any page table, so the ownership invariant does not survive it.
- Scheduler.System.RequestResources: its last branch (src/simulador_procesos.c:259-263) repeats the test of `check_deadlock_prevention` and can never run, so it is not modelled.
- Scheduler.System.WaitSemaphore: requires that a blocking wait finds fewer than 50 waiters. The source writes `waiting_pids[waiting_count++]` with no bound check.
- Processes.Logged: states only the log's length. That entries are kept in order, and the new one last, is `LoggedKeepsHistory`.
- The scheduler's process table is the sequence of its first `process_count` slots. The unused tail of the C array is not represented.
- `Placed` skips an index outside its pool. The placement loop only passes indices of free frames, so this case does not arise in the model.
