// The virtual-memory engine of src/simulador_memoria.c as a class whose
// methods update RAM frames, Swap slots, PCB slots, the TLB and the FIFO
// queue in place. Wall-clock time is the parameter `now`.

module MemorySimulator {

  import opened Paging
  import opened Fifo
  import opened Placement

  /** The engine's global counters (src/simulador_memoria.c:121-125). */
  datatype Stats = Stats(pageFaults: int, swaps: int, tlbHits: int, tlbMisses: int, memoryAccesses: int)

  /** What a simulated page access reports (src/simulador_memoria.c:1298-1371). */
  datatype AccessOutcome =
    | NoActiveProcesses
    | ProcessNotFound
    | InvalidPage
    | TlbHit(frame: int)
    | PageTableHit(frame: int)
    | PageFaultServed
    | SwapInFailed
    | NotPresent

  class MemorySystem {
    const ramSize: int
    const swapSize: int
    const pageSize: int
    const tlbSize: int
    const numRamFrames: int
    const numSwapFrames: int
    const ramFrames: array<Frame>
    const swapFrames: array<Frame>
    const processes: array<Option<Pcb>>
    const tlb: array<TlbEntry>
    const fifo: FifoQueue
    const startTime: int
    var numProcesses: int
    var logs: seq<LogEntry>
    var stats: Stats

    /** Sizes and array shapes fixed at initialisation. */
    ghost predicate Shape()
      reads this, ramFrames, swapFrames, processes, tlb, fifo, fifo.queue
    {
      && ramSize >= 0 && swapSize >= 0 && pageSize > 0
      && numRamFrames == ramSize / pageSize && numSwapFrames == swapSize / pageSize
      && ramFrames.Length == numRamFrames && swapFrames.Length == numSwapFrames
      && ramFrames != swapFrames
      && processes.Length == MAX_PROCESSES
      && tlb.Length == tlbSize >= 1
      && fifo.Valid() && fifo.capacity == numRamFrames
      && (forall k :: 0 <= k < |fifo.Contents| ==> 0 <= fifo.Contents[k] < numRamFrames)
    }

    /** The engine's invariant: ownership between pools and page tables,
        a coherent TLB, and an exact process count. */
    ghost predicate Valid()
      reads this, ramFrames, swapFrames, processes, tlb, fifo, fifo.queue
    {
      && Shape()
      && Coherent(ramFrames[..], swapFrames[..], processes[..], tlb[..])
      && numProcesses == LiveCount(processes[..])
      && |logs| <= MAX_LOG_ENTRIES
    }

    /** init_system and init_tlb, with the sizes load_config would read. */
    constructor (ramSize: int, swapSize: int, pageSize: int, tlbSize: int, now: int)
      requires ramSize >= 0 && swapSize >= 0 && pageSize > 0 && tlbSize >= 1
      ensures Valid()
      ensures this.ramSize == ramSize && this.swapSize == swapSize
      ensures this.pageSize == pageSize && this.tlbSize == tlbSize
      ensures numRamFrames == ramSize / pageSize && numSwapFrames == swapSize / pageSize
      ensures forall f :: 0 <= f < numRamFrames ==> ramFrames[f] == FreeFrame
      ensures forall p :: 0 <= p < numSwapFrames ==> swapFrames[p] == FreeFrame
      ensures forall s :: 0 <= s < MAX_PROCESSES ==> processes[s].None?
      ensures forall k :: 0 <= k < tlbSize ==> tlb[k] == EmptyTlbEntry
      ensures fifo.Contents == [] && numProcesses == 0
      ensures logs == [LogEntry(now, SystemInitialized)]
      ensures stats == Stats(0, 0, 0, 0, 0) && startTime == now
    {
      this.ramSize := ramSize;
      this.swapSize := swapSize;
      this.pageSize := pageSize;
      this.tlbSize := tlbSize;
      numRamFrames := ramSize / pageSize;
      numSwapFrames := swapSize / pageSize;
      ramFrames := new Frame[ramSize / pageSize](_ => FreeFrame);
      swapFrames := new Frame[swapSize / pageSize](_ => FreeFrame);
      processes := new Option<Pcb>[MAX_PROCESSES](_ => None);
      tlb := new TlbEntry[tlbSize](_ => EmptyTlbEntry);
      fifo := new FifoQueue(ramSize / pageSize);
      numProcesses := 0;
      stats := Stats(0, 0, 0, 0, 0);
      startTime := now;
      logs := [];
      new;
      InitialCoherent(ramFrames[..], swapFrames[..], processes[..], tlb[..]);
      assert LiveCount(processes[..]) == 0 by {
        NoneCount(processes[..]);
      }
      AddLog(SystemInitialized, now);
    }

    /** add_log */
    method AddLog(event: Event, now: int)
      modifies this
      ensures logs == Logged(old(logs), LogEntry(now, event))
      ensures numProcesses == old(numProcesses) && stats == old(stats)
    {
      if |logs| >= MAX_LOG_ENTRIES {
        return;
      }
      logs := logs + [LogEntry(now, event)];
    }

    /** find_process: the first live slot holding `pid`, or -1. */
    method FindProcess(pid: int) returns (slot: int)
      requires processes.Length == MAX_PROCESSES
      ensures -1 <= slot < MAX_PROCESSES
      ensures slot == -1 <==> forall s :: 0 <= s < MAX_PROCESSES ==> !(processes[s].Some? && processes[s].value.pid == pid)
      ensures slot >= 0 ==> processes[slot].Some? && processes[slot].value.pid == pid
      ensures slot >= 0 ==> forall s :: 0 <= s < slot ==> !(processes[s].Some? && processes[s].value.pid == pid)
    {
      var i := 0;
      while i < MAX_PROCESSES
        invariant 0 <= i <= MAX_PROCESSES
        invariant forall s :: 0 <= s < i ==> !(processes[s].Some? && processes[s].value.pid == pid)
      {
        if processes[i].Some? && processes[i].value.pid == pid {
          return i;
        }
        i := i + 1;
      }
      return -1;
    }

    /** Under the invariant the search for `pid` succeeds exactly for a live
        pid, in slot pid - 1. */
    lemma {:induction false} FindProcessLive(pid: int, slot: int)
      requires Valid()
      requires -1 <= slot < MAX_PROCESSES
      requires slot == -1 <==> forall s :: 0 <= s < MAX_PROCESSES ==> !(processes[s].Some? && processes[s].value.pid == pid)
      requires slot >= 0 ==> processes[slot].Some? && processes[slot].value.pid == pid
      ensures slot == -1 <==> !Live(processes[..], pid)
      ensures slot >= 0 ==> slot == pid - 1
    {
      if slot >= 0 {
        SlotOfPid(ramFrames[..], swapFrames[..], processes[..], slot);
      } else if Live(processes[..], pid) {
        SlotOfPid(ramFrames[..], swapFrames[..], processes[..], pid - 1);
      }
    }

    /** find_free_ram_frame */
    method FindFreeRamFrame() returns (f: int)
      ensures f == FirstFree(ramFrames[..])
    {
      f := FindFree(ramFrames);
    }

    /** find_free_swap_frame */
    method FindFreeSwapFrame() returns (p: int)
      ensures p == FirstFree(swapFrames[..])
    {
      p := FindFree(swapFrames);
    }

    /** The scan shared by find_free_ram_frame and find_free_swap_frame. */
    static method FindFree(a: array<Frame>) returns (r: int)
      ensures r == FirstFree(a[..])
    {
      var i := 0;
      while i < a.Length
        invariant 0 <= i <= a.Length
        invariant forall k :: 0 <= k < i ==> a[k].occupied
      {
        if !a[i].occupied {
          return i;
        }
        i := i + 1;
      }
      return -1;
    }

    /** tlb_lookup: a hit refreshes the entry and returns its frame; a miss
        returns -1. */
    method TlbLookup(pid: int, page: int, now: int) returns (frame: int)
      requires Valid()
      modifies this, tlb
      ensures Valid()
      ensures numProcesses == old(numProcesses) && logs == old(logs)
      ensures var k := TlbFind(old(tlb[..]), pid, page);
        && (k >= 0 ==> frame == old(tlb[k].frameNumber)
                       && tlb[..] == old(tlb[..])[k := old(tlb[k]).(lastAccess := now)]
                       && stats == old(stats).(tlbHits := old(stats.tlbHits) + 1))
        && (k == -1 ==> frame == -1 && tlb[..] == old(tlb[..])
                        && stats == old(stats).(tlbMisses := old(stats.tlbMisses) + 1))
      ensures frame != -1 ==> ResidentAt(processes[..], pid, page, frame)
    {
      ghost var t0 := tlb[..];
      var i := 0;
      while i < tlb.Length
        invariant 0 <= i <= tlb.Length
        invariant forall k :: 0 <= k < i ==> !Caches(tlb[k], pid, page)
      {
        if tlb[i].valid && tlb[i].pid == pid && tlb[i].pageNumber == page {
          TlbHitIsResident(t0, processes[..], pid, page);
          TlbTouchKeepsCoherence(t0, processes[..], i, now);
          tlb[i] := tlb[i].(lastAccess := now);
          stats := stats.(tlbHits := stats.tlbHits + 1);
          return tlb[i].frameNumber;
        }
        i := i + 1;
      }
      stats := stats.(tlbMisses := stats.tlbMisses + 1);
      return -1;
    }

    /** tlb_update: the victim slot chosen by the scan receives the new
        mapping. */
    method TlbUpdate(pid: int, page: int, frame: int, now: int)
      requires tlb.Length >= 1
      modifies tlb
      ensures tlb[..] == old(tlb[..])[TlbVictim(old(tlb[..])) := TlbEntry(pid, page, frame, true, now)]
    {
      var victim := 0;
      var oldest := tlb[0].lastAccess;
      var i := 0;
      while i < tlb.Length
        invariant 0 <= i <= tlb.Length && 0 <= victim < tlb.Length
        invariant VictimScan(tlb[..], i, victim, oldest) == TlbVictim(tlb[..])
      {
        if !tlb[i].valid {
          victim := i;
          break;
        }
        if tlb[i].lastAccess < oldest {
          oldest := tlb[i].lastAccess;
          victim := i;
        }
        i := i + 1;
      }
      tlb[victim] := TlbEntry(pid, page, frame, true, now);
    }

    /** tlb_invalidate */
    method TlbInvalidate(pid: int)
      modifies tlb
      ensures tlb[..] == Invalidated(old(tlb[..]), pid)
    {
      ghost var t0 := tlb[..];
      for i := 0 to tlb.Length
        invariant forall k :: 0 <= k < i ==> tlb[k] == Invalidated(t0, pid)[k]
        invariant forall k :: i <= k < tlb.Length ==> tlb[k] == t0[k]
      {
        if tlb[i].valid && tlb[i].pid == pid {
          tlb[i] := tlb[i].(valid := false);
        }
      }
    }

    /** select_victim_page_fifo: the oldest queued frame, or -1. */
    method SelectVictimPageFifo() returns (victim: int)
      requires fifo.Valid()
      modifies fifo
      ensures fifo.Valid()
      ensures old(fifo.Contents) == [] ==> victim == -1 && fifo.Contents == []
      ensures old(fifo.Contents) != [] ==> victim == old(fifo.Contents)[0] && fifo.Contents == old(fifo.Contents)[1..]
    {
      var empty := fifo.IsEmpty();
      if empty {
        return -1;
      }
      victim := fifo.Dequeue();
    }

    /** The log after a failed swap_out_page of frame `f`: an occupied frame
        with Swap full logs that no Swap space was found; a bad index or a
        free frame logs nothing. */
    static function NoSwapLogged(logs: seq<LogEntry>, ram: seq<Frame>, swap: seq<Frame>, f: int, now: int): (r: seq<LogEntry>)
      ensures |logs| < MAX_LOG_ENTRIES && 0 <= f < |ram| && ram[f].occupied && FirstFree(swap) == -1 ==>
        r == logs + [LogEntry(now, NoSwapSpace(ram[f].pid, ram[f].pageNumber))]
      ensures !(0 <= f < |ram| && ram[f].occupied) || FirstFree(swap) >= 0 ==> r == logs
    {
      if 0 <= f < |ram| && ram[f].occupied && FirstFree(swap) == -1
      then Logged(logs, LogEntry(now, NoSwapSpace(ram[f].pid, ram[f].pageNumber)))
      else logs
    }

    /** swap_out_page: the page in RAM frame `frameIndex` moves to the first
        free Swap slot; fails on a bad index, a free frame or a full Swap. */
    method SwapOutPage(frameIndex: int, now: int) returns (ok: bool)
      requires Valid()
      modifies this, ramFrames, swapFrames, processes, tlb
      ensures Valid()
      ensures numProcesses == old(numProcesses)
      ensures ok <==> 0 <= frameIndex < numRamFrames && old(ramFrames[frameIndex]).occupied
                      && FirstFree(old(swapFrames[..])) >= 0
      ensures !ok ==> && ramFrames[..] == old(ramFrames[..]) && swapFrames[..] == old(swapFrames[..])
                      && processes[..] == old(processes[..]) && tlb[..] == old(tlb[..]) && stats == old(stats)
      ensures !ok ==> logs == NoSwapLogged(old(logs), old(ramFrames[..]), old(swapFrames[..]), frameIndex, now)
      ensures ok ==> ResidentAt(old(processes[..]), old(ramFrames[frameIndex]).pid, old(ramFrames[frameIndex]).pageNumber, frameIndex)
      ensures ok ==>
        var fr := old(ramFrames[frameIndex]);
        var sp := FirstFree(old(swapFrames[..]));
        && ramFrames[..] == old(ramFrames[..])[frameIndex := Released(fr)]
        && swapFrames[..] == old(swapFrames[..])[sp := Frame(fr.pid, fr.pageNumber, true, now)]
        && processes[..] == WithSwappedOut(old(processes[..]), fr.pid, fr.pageNumber, sp)
        && tlb[..] == Invalidated(old(tlb[..]), fr.pid)
        && stats == old(stats).(swaps := old(stats.swaps) + 1)
        && logs == Logged(old(logs), LogEntry(now, PageSwappedOut(fr.pid, fr.pageNumber, frameIndex, sp)))
    {
      if frameIndex < 0 || frameIndex >= numRamFrames {
        return false;
      }
      var fr := ramFrames[frameIndex];
      if !fr.occupied {
        return false;
      }
      OccupiedIffReferenced(ramFrames[..], swapFrames[..], processes[..], frameIndex);
      var slot := FindProcess(fr.pid);
      FindProcessLive(fr.pid, slot);
      if slot == -1 {
        return false;
      }
      var swapFrame := FindFreeSwapFrame();
      if swapFrame == -1 {
        AddLog(NoSwapSpace(fr.pid, fr.pageNumber), now);
        return false;
      }
      SwapOutAt(frameIndex, slot, swapFrame, now);
      return true;
    }

    /** The effect of a successful swap_out_page: the page of RAM frame `f`,
        owned by the process in `slot`, moves to the free Swap slot `sp`. */
    method SwapOutAt(f: int, slot: int, sp: int, now: int)
      requires Valid()
      requires 0 <= f < numRamFrames && ramFrames[f].occupied && slot == ramFrames[f].pid - 1
      requires sp == FirstFree(swapFrames[..]) && 0 <= sp
      modifies this, ramFrames, swapFrames, processes, tlb
      ensures Valid()
      ensures numProcesses == old(numProcesses)
      ensures
        var fr := old(ramFrames[f]);
        && ramFrames[..] == old(ramFrames[..])[f := Released(fr)]
        && swapFrames[..] == old(swapFrames[..])[sp := Frame(fr.pid, fr.pageNumber, true, now)]
        && processes[..] == WithSwappedOut(old(processes[..]), fr.pid, fr.pageNumber, sp)
        && tlb[..] == Invalidated(old(tlb[..]), fr.pid)
        && stats == old(stats).(swaps := old(stats.swaps) + 1)
        && logs == Logged(old(logs), LogEntry(now, PageSwappedOut(fr.pid, fr.pageNumber, f, sp)))
    {
      var fr := ramFrames[f];
      ghost var ram0, swap0, procs0, tlb0 := ramFrames[..], swapFrames[..], processes[..], tlb[..];
      SwapOutKeepsCoherence(ram0, swap0, procs0, tlb0, f, sp, now);
      var pcb := processes[slot].value;
      var pageNumber := fr.pageNumber;
      var entry := pcb.pageTable[pageNumber];
      swapFrames[sp] := Frame(fr.pid, pageNumber, true, now);
      processes[slot] := Some(pcb.(pageTable := pcb.pageTable[pageNumber := SwappedOutEntry(entry, sp)]));
      ramFrames[f] := Released(fr);
      assert ramFrames[..] == ram0[f := Released(fr)];
      assert swapFrames[..] == swap0[sp := Frame(fr.pid, pageNumber, true, now)];
      assert processes[..] == WithSwappedOut(procs0, fr.pid, pageNumber, sp);
      LiveCountReplace(procs0, slot, processes[slot].value);
      TlbInvalidate(pcb.pid);
      stats := stats.(swaps := stats.swaps + 1);
      AddLog(PageSwappedOut(pcb.pid, pageNumber, f, sp), now);
    }

    /** The frame pools, the PCB slots and the TLB are as they were. */
    twostate predicate PoolsUnchanged()
      reads this, ramFrames, swapFrames, processes, tlb
    {
      && ramFrames[..] == old(ramFrames[..]) && swapFrames[..] == old(swapFrames[..])
      && processes[..] == old(processes[..]) && tlb[..] == old(tlb[..])
    }

    /** Only the page-fault and swap counters may have changed. */
    twostate predicate OtherCountsUnchanged()
      reads this
    {
      && stats.tlbHits == old(stats.tlbHits) && stats.tlbMisses == old(stats.tlbMisses)
      && stats.memoryAccesses == old(stats.memoryAccesses)
    }

    /** What swap_in_page does to page `page` of `pid`, held in Swap, from
        the state before it to the state after it; `ok` is its result.
        With a free frame the page moves into the first one; with RAM full
        the oldest queued frame is dequeued and, when it can be swapped
        out, receives the page. Of the counters, only the swap and
        page-fault counts are stated here. */
    twostate predicate SwappedIn(pid: int, page: int, now: int, ok: bool)
      requires old(Valid()) && PageSwapped(old(processes[..]), pid, page)
      reads this, ramFrames, swapFrames, processes, tlb, fifo, fifo.queue
    {
      var sp := old(processes[pid - 1]).value.pageTable[page].swapPosition;
      && 0 <= sp < numSwapFrames
      // a free frame exists: it receives the page
      && (FirstFree(old(ramFrames[..])) >= 0 ==>
            var f := FirstFree(old(ramFrames[..]));
            && ok
            && ramFrames[..] == old(ramFrames[..])[f := Frame(pid, page, true, now)]
            && swapFrames[..] == old(swapFrames[..])[sp := Released(old(swapFrames[sp]))]
            && processes[..] == WithSwappedIn(old(processes[..]), pid, page, f, now)
            && tlb[..] == old(tlb[..])[TlbVictim(old(tlb[..])) := TlbEntry(pid, page, f, true, now)]
            && fifo.Contents == Enqueued(old(fifo.Contents), numRamFrames, f)
            && stats.swaps == old(stats.swaps) + 1 && stats.pageFaults == old(stats.pageFaults) + 1
            && logs == Logged(old(logs), LogEntry(now, PageSwappedIn(pid, page, sp, f))))
      // RAM full and nothing queued: no victim
      && (FirstFree(old(ramFrames[..])) == -1 && old(fifo.Contents) == [] ==>
            && !ok && PoolsUnchanged() && fifo.Contents == []
            && stats.swaps == old(stats.swaps) && stats.pageFaults == old(stats.pageFaults)
            && logs == Logged(old(logs), LogEntry(now, NoVictim(pid))))
      // RAM full: the oldest queued frame is dequeued, whatever happens next
      && (FirstFree(old(ramFrames[..])) == -1 && old(fifo.Contents) != [] ==>
            var v := old(fifo.Contents)[0];
            && 0 <= v < numRamFrames
            && (ok <==> old(ramFrames[v]).occupied && FirstFree(old(swapFrames[..])) >= 0)
            && (!ok ==> && PoolsUnchanged() && fifo.Contents == old(fifo.Contents)[1..]
                        && stats.swaps == old(stats.swaps) && stats.pageFaults == old(stats.pageFaults)
                        && logs == NoSwapLogged(old(logs), old(ramFrames[..]), old(swapFrames[..]), v, now))
            && (ok ==> EvictedAndLoaded(pid, page, sp, v, now)))
    }

    /** swap_in_page: loads a swapped page into the first free RAM frame or,
        when RAM is full, into the frame of the FIFO victim after swapping
        that frame's page out. */
    method SwapInPage(pid: int, page: int, now: int) returns (ok: bool)
      requires Valid()
      modifies this, ramFrames, swapFrames, processes, tlb, fifo, fifo.queue
      ensures Valid()
      ensures numProcesses == old(numProcesses)
      ensures !PageSwapped(old(processes[..]), pid, page) ==>
        !ok && PoolsUnchanged() && fifo.Contents == old(fifo.Contents) && stats == old(stats) && logs == old(logs)
      ensures PageSwapped(old(processes[..]), pid, page) ==> SwappedIn(pid, page, now, ok)
      ensures OtherCountsUnchanged()
    {
      var slot, swapPosition := LocateSwapped(pid, page);
      if slot == -1 {
        return false;
      }
      ok := SwapInChecked(slot, page, swapPosition, now);
    }

    /** The checks of swap_in_page: the process is live, the page is in its
        range and in Swap, and its Swap position is a slot of the pool.
        The last check never fails while the invariant holds. */
    method LocateSwapped(pid: int, page: int) returns (slot: int, sp: int)
      requires Valid()
      ensures slot == -1 <==> !PageSwapped(processes[..], pid, page)
      ensures slot != -1 ==> slot == pid - 1 && 0 <= sp < numSwapFrames && SwappedAt(processes[..], pid, page, sp)
    {
      slot := FindProcess(pid);
      FindProcessLive(pid, slot);
      if slot == -1 {
        return -1, -1;
      }
      var pcb := processes[slot].value;
      if page < 0 || page >= pcb.numPages {
        return -1, -1;
      }
      var entry := pcb.pageTable[page];
      if entry.state != PageInSwap {
        return -1, -1;
      }
      sp := entry.swapPosition;
      assert EntryConsistent(ramFrames[..], swapFrames[..], pid, page, entry);
      if sp < 0 || sp >= numSwapFrames {
        return -1, -1;
      }
    }

    /** swap_in_page once its checks have passed: page `page` of the process
        in slot `slot` is held in Swap slot `sp`. */
    method SwapInChecked(slot: int, page: int, sp: int, now: int) returns (ok: bool)
      requires Valid()
      requires 0 <= slot < MAX_PROCESSES && SwappedAt(processes[..], slot + 1, page, sp)
      modifies this, ramFrames, swapFrames, processes, tlb, fifo, fifo.queue
      ensures Valid()
      ensures numProcesses == old(numProcesses)
      ensures FirstFree(old(ramFrames[..])) >= 0 ==>
        var f := FirstFree(old(ramFrames[..]));
        && ok
        && ramFrames[..] == old(ramFrames[..])[f := Frame(slot + 1, page, true, now)]
        && swapFrames[..] == old(swapFrames[..])[sp := Released(old(swapFrames[sp]))]
        && processes[..] == WithSwappedIn(old(processes[..]), slot + 1, page, f, now)
        && tlb[..] == old(tlb[..])[TlbVictim(old(tlb[..])) := TlbEntry(slot + 1, page, f, true, now)]
        && fifo.Contents == Enqueued(old(fifo.Contents), numRamFrames, f)
        && stats == old(stats).(swaps := old(stats.swaps) + 1, pageFaults := old(stats.pageFaults) + 1)
        && logs == Logged(old(logs), LogEntry(now, PageSwappedIn(slot + 1, page, sp, f)))
      ensures FirstFree(old(ramFrames[..])) == -1 && old(fifo.Contents) == [] ==>
        && !ok && PoolsUnchanged() && fifo.Contents == [] && stats == old(stats)
        && logs == Logged(old(logs), LogEntry(now, NoVictim(slot + 1)))
      ensures FirstFree(old(ramFrames[..])) == -1 && old(fifo.Contents) != [] ==>
        var v := old(fifo.Contents)[0];
        && 0 <= v < numRamFrames
        && (ok <==> old(ramFrames[v]).occupied && FirstFree(old(swapFrames[..])) >= 0)
        && (!ok ==> PoolsUnchanged() && fifo.Contents == old(fifo.Contents)[1..] && stats == old(stats))
        && (!ok ==> logs == NoSwapLogged(old(logs), old(ramFrames[..]), old(swapFrames[..]), v, now))
        && (ok ==> EvictedAndLoaded(slot + 1, page, sp, v, now))
      ensures OtherCountsUnchanged()
    {
      var frame := FindFreeRamFrame();
      if frame == -1 {
        ok := EvictAndLoad(slot, page, sp, now);
        return ok;
      }
      LoadSwappedPage(slot, page, sp, frame, now);
      return true;
    }

    /** The state after the victim in frame `v` was swapped out to the first
        free Swap slot and page `page` of process `pid` was loaded from Swap
        slot `sp` into `v`. */
    twostate predicate EvictedAndLoaded(pid: int, page: int, sp: int, v: int, now: int)
      requires old(Shape()) && 0 <= v < numRamFrames && 0 <= sp < numSwapFrames
      requires 1 <= old(ramFrames[v]).pid <= MAX_PROCESSES
      requires Live(old(processes[..]), pid) && 0 <= page < |old(processes[pid - 1]).value.pageTable|
      requires ResidentAt(old(processes[..]), old(ramFrames[v]).pid, old(ramFrames[v]).pageNumber, v)
      requires 0 <= FirstFree(old(swapFrames[..])) && old(fifo.Contents) != []
      reads this, ramFrames, swapFrames, processes, tlb, fifo
    {
      var vf := old(ramFrames[v]);
      var sv := FirstFree(old(swapFrames[..]));
      var t1 := Invalidated(old(tlb[..]), vf.pid);
      && ramFrames[..] == old(ramFrames[..])[v := Frame(pid, page, true, now)]
      && swapFrames[..] == old(swapFrames[..])[sv := Frame(vf.pid, vf.pageNumber, true, now)][sp := Released(old(swapFrames[sp]))]
      && processes[..] == WithSwappedIn(WithSwappedOut(old(processes[..]), vf.pid, vf.pageNumber, sv), pid, page, v, now)
      && tlb[..] == t1[TlbVictim(t1) := TlbEntry(pid, page, v, true, now)]
      && fifo.Contents == Enqueued(old(fifo.Contents)[1..], numRamFrames, v)
      && stats.swaps == old(stats.swaps) + 2 && stats.pageFaults == old(stats.pageFaults) + 1
      && logs == Logged(Logged(old(logs), LogEntry(now, PageSwappedOut(vf.pid, vf.pageNumber, v, sv))),
                        LogEntry(now, PageSwappedIn(pid, page, sp, v)))
    }

    /** The replacement branch of swap_in_page, taken when RAM is full. */
    method EvictAndLoad(slot: int, page: int, sp: int, now: int) returns (ok: bool)
      requires Valid()
      requires 0 <= slot < MAX_PROCESSES && SwappedAt(processes[..], slot + 1, page, sp)
      requires FirstFree(ramFrames[..]) == -1
      modifies this, ramFrames, swapFrames, processes, tlb, fifo, fifo.queue
      ensures Valid()
      ensures numProcesses == old(numProcesses)
      ensures old(fifo.Contents) == [] ==>
        && !ok && PoolsUnchanged() && fifo.Contents == [] && stats == old(stats)
        && logs == Logged(old(logs), LogEntry(now, NoVictim(slot + 1)))
      ensures old(fifo.Contents) != [] ==>
        var v := old(fifo.Contents)[0];
        && 0 <= v < numRamFrames
        && (ok <==> old(ramFrames[v]).occupied && FirstFree(old(swapFrames[..])) >= 0)
        && (!ok ==> PoolsUnchanged() && fifo.Contents == old(fifo.Contents)[1..] && stats == old(stats))
        && (!ok ==> logs == NoSwapLogged(old(logs), old(ramFrames[..]), old(swapFrames[..]), v, now))
        && (ok ==> EvictedAndLoaded(slot + 1, page, sp, v, now))
      ensures OtherCountsUnchanged()
    {
      ghost var ram0, swap0, procs0, tlb0 := ramFrames[..], swapFrames[..], processes[..], tlb[..];
      var frame := EvictVictim(slot + 1, now);
      if frame == -1 {
        return false;
      }
      ghost var vf, sv := ram0[frame], FirstFree(swap0);
      ghost var swap1, tlb1 := swapFrames[..], tlb[..];
      SwapOutKeepsSwapped(procs0, vf.pid, vf.pageNumber, frame, sv, slot + 1, page, sp);
      LoadSwappedPage(slot, page, sp, frame, now);
      WriteTwice(ram0, frame, Released(vf), Frame(slot + 1, page, true, now));
      assert swapFrames[..] == swap0[sv := Frame(vf.pid, vf.pageNumber, true, now)][sp := Released(swap0[sp])];
      assert tlb[..] == tlb1[TlbVictim(tlb1) := TlbEntry(slot + 1, page, frame, true, now)];
      return true;
    }

    /** The replacement step of swap_in_page: the oldest queued frame is
        dequeued and its page swapped out; the freed frame, or -1 when the
        queue is empty or the swap-out fails. The dequeued entry is lost
        either way. */
    method EvictVictim(pid: int, now: int) returns (frame: int)
      requires Valid()
      modifies this, ramFrames, swapFrames, processes, tlb, fifo
      ensures Valid()
      ensures numProcesses == old(numProcesses)
      ensures old(fifo.Contents) == [] ==>
        && frame == -1 && PoolsUnchanged() && fifo.Contents == [] && stats == old(stats)
        && logs == Logged(old(logs), LogEntry(now, NoVictim(pid)))
      ensures old(fifo.Contents) != [] ==>
        var v := old(fifo.Contents)[0];
        && 0 <= v < numRamFrames
        && fifo.Contents == old(fifo.Contents)[1..]
        && (frame == -1 ==> logs == NoSwapLogged(old(logs), old(ramFrames[..]), old(swapFrames[..]), v, now))
        && (frame != -1 <==> old(ramFrames[v]).occupied && FirstFree(old(swapFrames[..])) >= 0)
        && (frame == -1 ==> PoolsUnchanged() && stats == old(stats))
        && (frame != -1 ==> frame == v && ResidentAt(old(processes[..]), old(ramFrames[v]).pid, old(ramFrames[v]).pageNumber, v))
      ensures old(fifo.Contents) != [] && frame != -1 ==>
        var v := old(fifo.Contents)[0];
        var vf := old(ramFrames[v]);
        var sv := FirstFree(old(swapFrames[..]));
        && ramFrames[..] == old(ramFrames[..])[v := Released(vf)]
        && swapFrames[..] == old(swapFrames[..])[sv := Frame(vf.pid, vf.pageNumber, true, now)]
        && processes[..] == WithSwappedOut(old(processes[..]), vf.pid, vf.pageNumber, sv)
        && tlb[..] == Invalidated(old(tlb[..]), vf.pid)
        && stats == old(stats).(swaps := old(stats.swaps) + 1)
        && logs == Logged(old(logs), LogEntry(now, PageSwappedOut(vf.pid, vf.pageNumber, v, sv)))
    {
      var victim := SelectVictimPageFifo();
      if victim == -1 {
        AddLog(NoVictim(pid), now);
        return -1;
      }
      var swapped := SwapOutPage(victim, now);
      if !swapped {
        return -1;
      }
      return victim;
    }

    /** The second half of swap_in_page: page `page` of the process in slot
        `slot`, held in Swap slot `sp`, moves into the free RAM frame
        `frame`; the TLB caches it, the FIFO queue records it, and the slot
        is released. */
    method LoadSwappedPage(slot: int, page: int, sp: int, frame: int, now: int)
      requires Valid()
      requires 0 <= slot < MAX_PROCESSES && SwappedAt(processes[..], slot + 1, page, sp)
      requires 0 <= frame < numRamFrames && !ramFrames[frame].occupied
      modifies this, ramFrames, swapFrames, processes, tlb, fifo, fifo.queue
      ensures Valid()
      ensures numProcesses == old(numProcesses)
      ensures 0 <= sp < numSwapFrames
      ensures ramFrames[..] == old(ramFrames[..])[frame := Frame(slot + 1, page, true, now)]
      ensures swapFrames[..] == old(swapFrames[..])[sp := Released(old(swapFrames[sp]))]
      ensures processes[..] == WithSwappedIn(old(processes[..]), slot + 1, page, frame, now)
      ensures tlb[..] == old(tlb[..])[TlbVictim(old(tlb[..])) := TlbEntry(slot + 1, page, frame, true, now)]
      ensures fifo.Contents == Enqueued(old(fifo.Contents), numRamFrames, frame)
      ensures stats == old(stats).(swaps := old(stats.swaps) + 1, pageFaults := old(stats.pageFaults) + 1)
      ensures logs == Logged(old(logs), LogEntry(now, PageSwappedIn(slot + 1, page, sp, frame)))
    {
      SwapInAt(slot, page, sp, frame, now);
      fifo.Enqueue(frame);
      stats := stats.(swaps := stats.swaps + 1, pageFaults := stats.pageFaults + 1);
      AddLog(PageSwappedIn(slot + 1, page, sp, frame), now);
    }

    /** The moves of swap_in_page: the page leaves Swap slot `sp` for RAM
        frame `frame`, its entry says so, and the TLB caches it. */
    method SwapInAt(slot: int, page: int, sp: int, frame: int, now: int)
      requires Valid()
      requires 0 <= slot < MAX_PROCESSES && SwappedAt(processes[..], slot + 1, page, sp)
      requires 0 <= frame < numRamFrames && !ramFrames[frame].occupied
      modifies ramFrames, swapFrames, processes, tlb
      ensures Valid()
      ensures 0 <= sp < numSwapFrames
      ensures ramFrames[..] == old(ramFrames[..])[frame := Frame(slot + 1, page, true, now)]
      ensures swapFrames[..] == old(swapFrames[..])[sp := Released(old(swapFrames[sp]))]
      ensures processes[..] == WithSwappedIn(old(processes[..]), slot + 1, page, frame, now)
      ensures tlb[..] == old(tlb[..])[TlbVictim(old(tlb[..])) := TlbEntry(slot + 1, page, frame, true, now)]
    {
      var pid := slot + 1;
      var pcb := processes[slot].value;
      var entry := pcb.pageTable[page];
      ghost var ram1, swap1, procs1, tlb1 := ramFrames[..], swapFrames[..], processes[..], tlb[..];
      SwapInKeepsCoherence(ram1, swap1, procs1, tlb1, pid, page, frame, sp, TlbVictim(tlb1), now);
      ramFrames[frame] := Frame(pid, page, true, now);
      processes[slot] := Some(pcb.(pageTable := pcb.pageTable[page := SwappedInEntry(entry, frame, now)],
                                   pageFaults := pcb.pageFaults + 1));
      swapFrames[sp] := Released(swapFrames[sp]);
      assert ramFrames[..] == ram1[frame := Frame(pid, page, true, now)];
      assert swapFrames[..] == swap1[sp := Released(swap1[sp])];
      assert processes[..] == WithSwappedIn(procs1, pid, page, frame, now);
      LiveCountReplace(procs1, slot, processes[slot].value);
      TlbUpdate(pid, page, frame, now);
    }

    /** allocate_page_in_ram: claims the first free RAM frame, or the FIFO
        victim's frame after swapping its page out, for page `page` of
        `pid`, and queues the frame; -1 when no frame can be had. It writes
        no page-table entry, so the frame it claims is owned by no entry:
        the engine never calls it, and it keeps the array shapes only. */
    method AllocatePageInRam(pid: int, page: int, now: int) returns (frame: int)
      requires Valid()
      modifies this, ramFrames, swapFrames, processes, tlb, fifo, fifo.queue
      ensures Shape()
      ensures numProcesses == old(numProcesses)
      ensures FirstFree(old(ramFrames[..])) >= 0 ==>
        && frame == FirstFree(old(ramFrames[..]))
        && ramFrames[..] == old(ramFrames[..])[frame := Frame(pid, page, true, now)]
        && swapFrames[..] == old(swapFrames[..]) && processes[..] == old(processes[..]) && tlb[..] == old(tlb[..])
        && fifo.Contents == Enqueued(old(fifo.Contents), numRamFrames, frame)
        && stats == old(stats)
      ensures FirstFree(old(ramFrames[..])) == -1 && old(fifo.Contents) == [] ==>
        frame == -1 && PoolsUnchanged() && fifo.Contents == [] && stats == old(stats)
      ensures FirstFree(old(ramFrames[..])) == -1 && old(fifo.Contents) != [] ==>
        var v := old(fifo.Contents)[0];
        && 0 <= v < numRamFrames
        && (frame != -1 <==> old(ramFrames[v]).occupied && FirstFree(old(swapFrames[..])) >= 0)
        && (frame == -1 ==> PoolsUnchanged() && fifo.Contents == old(fifo.Contents)[1..] && stats == old(stats))
        && (frame != -1 ==>
              var vf := old(ramFrames[v]);
              var sv := FirstFree(old(swapFrames[..]));
              && frame == v
              && ramFrames[..] == old(ramFrames[..])[v := Frame(pid, page, true, now)]
              && swapFrames[..] == old(swapFrames[..])[sv := Frame(vf.pid, vf.pageNumber, true, now)]
              && processes[..] == WithSwappedOut(old(processes[..]), vf.pid, vf.pageNumber, sv)
              && tlb[..] == Invalidated(old(tlb[..]), vf.pid)
              && fifo.Contents == Enqueued(old(fifo.Contents)[1..], numRamFrames, v)
              && stats == old(stats).(swaps := old(stats.swaps) + 1))
    {
      var frameIndex := FindFreeRamFrame();
      if frameIndex == -1 {
        var victimFrame := SelectVictimPageFifo();
        if victimFrame == -1 {
          return -1;
        }
        var swapped := SwapOutPage(victimFrame, now);
        if !swapped {
          return -1;
        }
        frameIndex := victimFrame;
      }
      ClaimFrame(pid, page, frameIndex, now);
      return frameIndex;
    }

    /** Frame `f` receives page `page` of `pid` and joins the FIFO queue. */
    method ClaimFrame(pid: int, page: int, f: int, now: int)
      requires Shape() && 0 <= f < numRamFrames
      modifies ramFrames, fifo, fifo.queue
      ensures Shape()
      ensures ramFrames[..] == old(ramFrames[..])[f := Frame(pid, page, true, now)]
      ensures fifo.Contents == Enqueued(old(fifo.Contents), numRamFrames, f)
    {
      ramFrames[f] := Frame(pid, page, true, now);
      fifo.Enqueue(f);
    }

    /** The RAM branch of create_process's placement loop: page `i` of
        `pid` fills the free frame `f`, the FIFO queue records the frame and
        the TLB caches the mapping. */
    method PlaceInRam(pid: int, i: int, f: int, now: int)
      requires Shape() && 0 <= f < numRamFrames
      modifies ramFrames, tlb, fifo, fifo.queue
      ensures Shape()
      ensures ramFrames[..] == old(ramFrames[..])[f := Frame(pid, i, true, now)]
      ensures tlb[..] == old(tlb[..])[TlbVictim(old(tlb[..])) := TlbEntry(pid, i, f, true, now)]
      ensures fifo.Contents == Enqueued(old(fifo.Contents), numRamFrames, f)
    {
      ClaimFrame(pid, i, f, now);
      TlbUpdate(pid, i, f, now);
    }

    /** The rollback of create_process: the frames and slots that the pages
        placed so far occupy are marked free again. */
    method Rollback(table: seq<PageEntry>)
      requires Shape()
      requires forall j :: 0 <= j < |table| ==>
        && (table[j].state == PageInRam ==> 0 <= table[j].frameNumber < ramFrames.Length)
        && (table[j].state == PageInSwap ==> 0 <= table[j].swapPosition < swapFrames.Length)
      modifies ramFrames, swapFrames
      ensures Shape()
      ensures ramFrames[..] == Vacated(old(ramFrames[..]), HeldIndices(table, true))
      ensures swapFrames[..] == Vacated(old(swapFrames[..]), HeldIndices(table, false))
    {
      ghost var ram0, swap0 := ramFrames[..], swapFrames[..];
      for j := 0 to |table|
        invariant ramFrames[..] == Vacated(ram0, HeldIndices(table[..j], true))
        invariant swapFrames[..] == Vacated(swap0, HeldIndices(table[..j], false))
      {
        var e := table[j];
        assert table[..j + 1] == table[..j] + [e];
        HeldSnoc(table[..j], e, true);
        HeldSnoc(table[..j], e, false);
        if e.state == PageInRam {
          VacatedSnoc(ram0, HeldIndices(table[..j], true), e.frameNumber);
          ramFrames[e.frameNumber] := ramFrames[e.frameNumber].(occupied := false, pid := -1);
        } else if e.state == PageInSwap {
          VacatedSnoc(swap0, HeldIndices(table[..j], false), e.swapPosition);
          swapFrames[e.swapPosition] := swapFrames[e.swapPosition].(occupied := false, pid := -1);
        }
      }
      assert table[..|table|] == table;
    }

    /** The placement loop's state (see PlacingState) over the current
        frames, TLB, queue and slots. */
    ghost predicate Placing(p: Pcb, i: int, table: seq<PageEntry>, r: int, now: int,
                            ram0: seq<Frame>, swap0: seq<Frame>, tlb0: seq<TlbEntry>, q0: seq<int>)
      reads this, ramFrames, swapFrames, processes, tlb, fifo, fifo.queue
    {
      && Shape()
      && PlacingState(p, i, table, r, now, ramFrames[..], swapFrames[..], tlb[..], fifo.Contents, processes[..],
                      ram0, swap0, tlb0, q0, numRamFrames)
    }

    /** The placement loop of create_process for the process `p` about to
        occupy slot p.pid - 1: each page takes the first free RAM frame or,
        once RAM is full, the first free Swap slot, so the free frames fill
        in ascending order. It fails exactly when RAM and Swap together have
        fewer free frames than `n`; the rollback then frees every frame and
        slot it took, but the TLB entries and queue entries it added stay. */
    method PlacePages(p: Pcb, n: int, now: int) returns (ok: bool, table: seq<PageEntry>, pagesInRam: int)
      requires Shape() && Ownership(ramFrames[..], swapFrames[..], processes[..]) && TlbCoherent(tlb[..], processes[..])
      requires 1 <= p.pid <= MAX_PROCESSES && processes[p.pid - 1].None? && p.pageTable == [] && n >= 0
      modifies ramFrames, swapFrames, tlb, fifo, fifo.queue
      ensures Shape()
      ensures ok <==> n <= |FreeIndices(old(ramFrames[..]))| + |FreeIndices(old(swapFrames[..]))|
      ensures ok ==>
        var fr := FreeIndices(old(ramFrames[..]));
        var fs := FreeIndices(old(swapFrames[..]));
        && pagesInRam == RamShare(n, |fr|)
        && table == PlannedTable(fr, fs, n, now)
        && ramFrames[..] == Placed(old(ramFrames[..]), fr[..pagesInRam], p.pid, 0, now)
        && swapFrames[..] == Placed(old(swapFrames[..]), fs[..n - pagesInRam], p.pid, pagesInRam, now)
        && tlb[..] == TlbInsertedAll(old(tlb[..]), p.pid, fr[..pagesInRam], now)
        && fifo.Contents == EnqueuedAll(old(fifo.Contents), numRamFrames, fr[..pagesInRam])
        && Ownership(ramFrames[..], swapFrames[..], processes[..][p.pid - 1 := Some(p.(pageTable := table))])
        && TlbCoherent(tlb[..], processes[..][p.pid - 1 := Some(p.(pageTable := table))])
      ensures !ok ==>
        var fr := FreeIndices(old(ramFrames[..]));
        var fs := FreeIndices(old(swapFrames[..]));
        && ramFrames[..] == Vacated(Placed(old(ramFrames[..]), fr, p.pid, 0, now), fr)
        && swapFrames[..] == Vacated(Placed(old(swapFrames[..]), fs, p.pid, |fr|, now), fs)
        && FreeIndices(ramFrames[..]) == fr && FreeIndices(swapFrames[..]) == fs
        && tlb[..] == TlbInsertedAll(old(tlb[..]), p.pid, fr, now)
        && fifo.Contents == EnqueuedAll(old(fifo.Contents), numRamFrames, fr)
    {
      ghost var ram0, swap0, tlb0, q0 := ramFrames[..], swapFrames[..], tlb[..], fifo.Contents;
      PlacingInit(p, now, ram0, swap0, tlb0, q0, processes[..], numRamFrames);
      var placedAll, i;
      placedAll, table, pagesInRam, i := PlaceAll(p, n, now, ram0, swap0, tlb0, q0);
      if !placedAll {
        UndoPlacement(p, i, table, pagesInRam, now, ram0, swap0, tlb0, q0);
        return false, table, pagesInRam;
      }
      return true, table, pagesInRam;
    }

    /** The failure branch of the placement loop: with RAM and Swap both
        full, every frame and slot the loop took is freed again; the TLB and
        the FIFO queue keep what the loop added. */
    method UndoPlacement(p: Pcb, i: int, table: seq<PageEntry>, r: int, now: int,
                         ghost ram0: seq<Frame>, ghost swap0: seq<Frame>, ghost tlb0: seq<TlbEntry>, ghost q0: seq<int>)
      requires Placing(p, i, table, r, now, ram0, swap0, tlb0, q0)
      requires FirstFree(ramFrames[..]) == -1 && FirstFree(swapFrames[..]) == -1
      modifies ramFrames, swapFrames
      ensures Shape()
      ensures var fr := FreeIndices(ram0);
        var fs := FreeIndices(swap0);
        && ramFrames[..] == Vacated(Placed(ram0, fr, p.pid, 0, now), fr)
        && swapFrames[..] == Vacated(Placed(swap0, fs, p.pid, |fr|, now), fs)
        && FreeIndices(ramFrames[..]) == fr && FreeIndices(swapFrames[..]) == fs
        && tlb[..] == TlbInsertedAll(tlb0, p.pid, fr, now)
        && fifo.Contents == EnqueuedAll(q0, numRamFrames, fr)
    {
      PlacingFull(p, i, table, r, now, ramFrames[..], swapFrames[..], tlb[..], fifo.Contents,
                  processes[..], ram0, swap0, tlb0, q0, numRamFrames);
      RollbackFreesAll(ram0, swap0, p.pid, now);
      Rollback(table);
    }

    /** The loop itself: places pages until all `n` are placed or RAM and
        Swap are both full. */
    method PlaceAll(p: Pcb, n: int, now: int,
                    ghost ram0: seq<Frame>, ghost swap0: seq<Frame>, ghost tlb0: seq<TlbEntry>, ghost q0: seq<int>)
      returns (placedAll: bool, table: seq<PageEntry>, r: int, i: int)
      requires Placing(p, 0, [], 0, now, ram0, swap0, tlb0, q0) && n >= 0
      modifies ramFrames, swapFrames, tlb, fifo, fifo.queue
      ensures Placing(p, i, table, r, now, ram0, swap0, tlb0, q0)
      ensures placedAll <==> n <= |FreeIndices(ram0)| + |FreeIndices(swap0)|
      ensures placedAll ==> i == n
      ensures !placedAll ==> i == |FreeIndices(ram0)| + |FreeIndices(swap0)| && FirstFree(ramFrames[..]) == -1 && FirstFree(swapFrames[..]) == -1
    {
      table := [];
      r := 0;
      i := 0;
      while i < n
        invariant 0 <= i <= n
        invariant Placing(p, i, table, r, now, ram0, swap0, tlb0, q0)
      {
        var placed;
        placed, table, r := PlaceNext(p, i, table, r, now, ram0, swap0, tlb0, q0);
        if !placed {
          return false, table, r, i;
        }
        i := i + 1;
      }
      return true, table, r, i;
    }

    /** The rollback leaves exactly the free frames and slots there were
        before the placement loop. */
    lemma {:induction false} RollbackFreesAll(ram0: seq<Frame>, swap0: seq<Frame>, pid: int, now: int)
      ensures var fr := FreeIndices(ram0);
        var fs := FreeIndices(swap0);
        && FreeIndices(Vacated(Placed(ram0, fr, pid, 0, now), fr)) == fr
        && FreeIndices(Vacated(Placed(swap0, fs, pid, |fr|, now), fs)) == fs
    {
      FreeIndicesSpec(ram0);
      FreeIndicesSpec(swap0);
      RollbackRestoresFree(ram0, FreeIndices(ram0), pid, 0, now);
      RollbackRestoresFree(swap0, FreeIndices(swap0), pid, |FreeIndices(ram0)|, now);
    }

    /** One iteration of the placement loop: page `i` goes to the first
        free RAM frame or, when RAM is full, to the first free Swap slot;
        it fails, changing nothing, exactly when both are full. */
    method PlaceNext(p: Pcb, i: int, table: seq<PageEntry>, r: int, now: int,
                     ghost ram0: seq<Frame>, ghost swap0: seq<Frame>, ghost tlb0: seq<TlbEntry>, ghost q0: seq<int>)
      returns (placed: bool, table': seq<PageEntry>, r': int)
      requires Placing(p, i, table, r, now, ram0, swap0, tlb0, q0)
      modifies ramFrames, swapFrames, tlb, fifo, fifo.queue
      ensures placed <==> i < |FreeIndices(ram0)| + |FreeIndices(swap0)|
      ensures placed ==> Placing(p, i + 1, table', r', now, ram0, swap0, tlb0, q0)
      ensures !placed ==> table' == table && r' == r && Placing(p, i, table, r, now, ram0, swap0, tlb0, q0)
      ensures !placed ==> FirstFree(ramFrames[..]) == -1 && FirstFree(swapFrames[..]) == -1
    {
      var frame := FindFreeRamFrame();
      if frame != -1 {
        PlaceNextInRam(p, i, table, r, frame, now, ram0, swap0, tlb0, q0);
        return true, table + [RamEntry(i, frame, now)], r + 1;
      }
      var swapFrame := FindFreeSwapFrame();
      assert Placing(p, i, table, r, now, ram0, swap0, tlb0, q0);
      if swapFrame == -1 {
        PlacingFull(p, i, table, r, now, ramFrames[..], swapFrames[..], tlb[..], fifo.Contents, processes[..],
                    ram0, swap0, tlb0, q0, numRamFrames);
        return false, table, r;
      }
      PlaceNextInSwap(p, i, table, r, swapFrame, now, ram0, swap0, tlb0, q0);
      return true, table + [SwapEntry(i, swapFrame, now)], r;
    }

    /** The RAM branch of the placement loop. */
    method PlaceNextInRam(p: Pcb, i: int, table: seq<PageEntry>, r: int, frame: int, now: int,
                          ghost ram0: seq<Frame>, ghost swap0: seq<Frame>, ghost tlb0: seq<TlbEntry>, ghost q0: seq<int>)
      requires Placing(p, i, table, r, now, ram0, swap0, tlb0, q0)
      requires frame == FirstFree(ramFrames[..]) && frame != -1
      modifies ramFrames, tlb, fifo, fifo.queue
      ensures i < |FreeIndices(ram0)| + |FreeIndices(swap0)|
      ensures Placing(p, i + 1, table + [RamEntry(i, frame, now)], r + 1, now, ram0, swap0, tlb0, q0)
    {
      ghost var ram, swap, tlbNow, q, procs := ramFrames[..], swapFrames[..], tlb[..], fifo.Contents, processes[..];
      PlacingRamStep(p, i, table, r, now, ram, swap, tlbNow, q, procs, ram0, swap0, tlb0, q0, numRamFrames);
      PlaceInRam(p.pid, i, frame, now);
      assert swapFrames[..] == swap && processes[..] == procs;
    }

    /** The Swap branch of the placement loop. */
    method PlaceNextInSwap(p: Pcb, i: int, table: seq<PageEntry>, r: int, swapFrame: int, now: int,
                           ghost ram0: seq<Frame>, ghost swap0: seq<Frame>, ghost tlb0: seq<TlbEntry>, ghost q0: seq<int>)
      requires Placing(p, i, table, r, now, ram0, swap0, tlb0, q0)
      requires FirstFree(ramFrames[..]) == -1
      requires swapFrame == FirstFree(swapFrames[..]) && swapFrame != -1
      modifies swapFrames
      ensures i < |FreeIndices(ram0)| + |FreeIndices(swap0)|
      ensures Placing(p, i + 1, table + [SwapEntry(i, swapFrame, now)], r, now, ram0, swap0, tlb0, q0)
    {
      ghost var ram, swap, tlbNow, q, procs := ramFrames[..], swapFrames[..], tlb[..], fifo.Contents, processes[..];
      PlacingSwapStep(p, i, table, r, now, ram, swap, tlbNow, q, procs, ram0, swap0, tlb0, q0, numRamFrames);
      swapFrames[swapFrame] := Frame(p.pid, i, true, now);
      assert swapFrames[..] == swap[swapFrame := Frame(p.pid, i, true, now)];
      assert ramFrames[..] == ram && tlb[..] == tlbNow && fifo.Contents == q && processes[..] == procs;
    }

    /** The used-space scan of create_process: the occupied frames of RAM
        and Swap, in KB. */
    method UsedSpace() returns (used: int)
      requires pageSize > 0
      ensures used == (OccupiedCount(ramFrames[..]) + OccupiedCount(swapFrames[..])) * pageSize
    {
      used := 0;
      ghost var n := 0;
      for i := 0 to ramFrames.Length
        invariant n == OccupiedCount(ramFrames[..i]) && used == n * pageSize
      {
        OccupiedCountStep(ramFrames[..], i);
        if ramFrames[i].occupied {
          used, n := used + pageSize, n + 1;
          MulSucc(n - 1, pageSize);
        }
      }
      assert ramFrames[..ramFrames.Length] == ramFrames[..];
      for i := 0 to swapFrames.Length
        invariant n == OccupiedCount(ramFrames[..]) + OccupiedCount(swapFrames[..i]) && used == n * pageSize
      {
        OccupiedCountStep(swapFrames[..], i);
        if swapFrames[i].occupied {
          used, n := used + pageSize, n + 1;
          MulSucc(n - 1, pageSize);
        }
      }
      assert swapFrames[..swapFrames.Length] == swapFrames[..];
    }

    /** The capacity test of create_process, made in KB as the source
        makes it: room for `numPages` more pages in RAM and Swap together. */
    method HasRoomFor(numPages: int) returns (room: bool)
      requires pageSize > 0
      ensures room <==> OccupiedCount(ramFrames[..]) + OccupiedCount(swapFrames[..]) + numPages <= numRamFrames + numSwapFrames
    {
      var totalSpace := (numRamFrames + numSwapFrames) * pageSize;
      var usedSpace := UsedSpace();
      ScaledRoom(OccupiedCount(ramFrames[..]) + OccupiedCount(swapFrames[..]), numPages, numRamFrames + numSwapFrames, pageSize);
      room := !(usedSpace + numPages * pageSize > totalSpace);
    }

    /** The slot search of create_process: the first empty PCB slot, or -1. */
    method FindEmptySlot() returns (slot: int)
      ensures slot == FirstEmpty(processes[..])
    {
      slot := -1;
      var i := 0;
      while i < processes.Length
        invariant 0 <= i <= processes.Length
        invariant forall s :: 0 <= s < i ==> processes[s].Some?
      {
        if processes[i].None? {
          return i;
        }
        i := i + 1;
      }
    }

    /** create_process: admits a process when a slot is free, its size is
        positive and RAM and Swap together have room for every page; it
        takes the first empty slot (pid = slot + 1) and its pages fill the
        free RAM frames first, then the free Swap slots, without evicting
        anything. */
    method CreateProcess(name: string, sizeKb: int, now: int) returns (pid: int)
      requires Valid()
      modifies this, ramFrames, swapFrames, processes, tlb, fifo, fifo.queue
      ensures Valid()
      ensures stats == old(stats)
      ensures pid == -1 <==> !Admits(old(numProcesses), sizeKb, pageSize, old(ramFrames[..]), old(swapFrames[..]))
      ensures pid == -1 ==>
        PoolsUnchanged() && fifo.Contents == old(fifo.Contents) && numProcesses == old(numProcesses) && logs == old(logs)
      ensures pid != -1 ==> 1 <= pid <= MAX_PROCESSES
      ensures pid != -1 ==>
        var fr := FreeIndices(old(ramFrames[..]));
        var fs := FreeIndices(old(swapFrames[..]));
        var n := CeilPages(sizeKb, pageSize);
        var r := RamShare(n, |fr|);
        && pid == FirstEmpty(old(processes[..])) + 1
        && processes[..] == old(processes[..])[pid - 1 := Some(Pcb(pid, StoredName(name), sizeKb, n,
             if r < n then ProcSwapped else ProcActive, PlannedTable(fr, fs, n, now), now, 0))]
        && ramFrames[..] == Placed(old(ramFrames[..]), fr[..r], pid, 0, now)
        && swapFrames[..] == Placed(old(swapFrames[..]), fs[..n - r], pid, r, now)
        && tlb[..] == TlbInsertedAll(old(tlb[..]), pid, fr[..r], now)
        && fifo.Contents == EnqueuedAll(old(fifo.Contents), numRamFrames, fr[..r])
        && numProcesses == old(numProcesses) + 1
        && logs == Logged(old(logs), LogEntry(now, ProcessCreated(pid, n, r)))
    {
      var slot, numPages := Admission(sizeKb);
      if slot == -1 {
        return -1;
      }
      var ok := InstallProcess(slot, StoredName(name), sizeKb, numPages, now);
      if !ok {
        return -1;
      }
      return slot + 1;
    }

    /** The checks create_process makes before it touches anything: a free
        PCB slot, a positive size, and room for every page in RAM and Swap
        together; on success the first empty slot and the page count. */
    method Admission(sizeKb: int) returns (slot: int, numPages: int)
      requires Valid()
      ensures slot == -1 <==> !Admits(numProcesses, sizeKb, pageSize, ramFrames[..], swapFrames[..])
      ensures slot != -1 ==>
        && slot == FirstEmpty(processes[..]) && 0 <= slot < MAX_PROCESSES && processes[slot].None?
        && numPages == CeilPages(sizeKb, pageSize)
        && 1 <= numPages <= |FreeIndices(ramFrames[..])| + |FreeIndices(swapFrames[..])|
    {
      if numProcesses >= MAX_PROCESSES {
        return -1, 0;
      }
      if sizeKb <= 0 {
        return -1, 0;
      }
      numPages := (sizeKb + pageSize - 1) / pageSize;
      assert numPages == CeilPages(sizeKb, pageSize);
      var room := HasRoomFor(numPages);
      if !room {
        return -1, 0;
      }
      FreeSlotExists(processes[..]);
      slot := FindEmptySlot();
      if slot == -1 {
        return -1, 0;
      }
    }

    /** The second half of create_process, once a slot is chosen: the
        pages are placed, the PCB (ACTIVE, or SWAPPED when some page is in
        Swap) fills the slot, and the creation is logged. */
    method InstallProcess(slot: int, name: string, sizeKb: int, numPages: int, now: int) returns (ok: bool)
      requires Valid()
      requires 0 <= slot < MAX_PROCESSES && processes[slot].None?
      requires 1 <= numPages <= |FreeIndices(ramFrames[..])| + |FreeIndices(swapFrames[..])|
      modifies this, ramFrames, swapFrames, processes, tlb, fifo, fifo.queue
      ensures Valid() && ok
      ensures stats == old(stats)
      ensures var fr := FreeIndices(old(ramFrames[..]));
        var fs := FreeIndices(old(swapFrames[..]));
        var r := RamShare(numPages, |fr|);
        var pid := slot + 1;
        && processes[..] == old(processes[..])[slot := Some(Pcb(pid, name, sizeKb, numPages,
             if r < numPages then ProcSwapped else ProcActive, PlannedTable(fr, fs, numPages, now), now, 0))]
        && ramFrames[..] == Placed(old(ramFrames[..]), fr[..r], pid, 0, now)
        && swapFrames[..] == Placed(old(swapFrames[..]), fs[..numPages - r], pid, r, now)
        && tlb[..] == TlbInsertedAll(old(tlb[..]), pid, fr[..r], now)
        && fifo.Contents == EnqueuedAll(old(fifo.Contents), numRamFrames, fr[..r])
        && numProcesses == old(numProcesses) + 1
        && logs == Logged(old(logs), LogEntry(now, ProcessCreated(pid, numPages, r)))
    {
      var p := Pcb(slot + 1, name, sizeKb, numPages, ProcActive, [], now, 0);
      ghost var procs0 := processes[..];
      ghost var fr, fs := FreeIndices(ramFrames[..]), FreeIndices(swapFrames[..]);
      var table, pagesInRam;
      ok, table, pagesInRam := PlacePages(p, numPages, now);
      if !ok {
        return false;
      }
      var state := ProcActive;
      if pagesInRam == 0 || (pagesInRam > 0 && pagesInRam < numPages) {
        state := ProcSwapped;
      }
      var q := p.(pageTable := table, state := state);
      PlannedTableShape(fr, fs, numPages, now);
      SameLayoutKeepsCoherence(ramFrames[..], swapFrames[..], procs0[slot := Some(p.(pageTable := table))], tlb[..], slot, q);
      assert procs0[slot := Some(p.(pageTable := table))][slot := Some(q)] == procs0[slot := Some(q)];
      FinishKeepsComplete(procs0, slot, q);
      LiveCountFill(procs0, slot, q);
      processes[slot] := Some(q);
      numProcesses := numProcesses + 1;
      AddLog(ProcessCreated(slot + 1, numPages, pagesInRam), now);
    }

    /** terminate_process: frees every RAM frame and Swap slot the process's
        page table names, drops its TLB entries, logs, and empties its PCB
        slot; fails only for a pid that is not live. The FIFO queue keeps
        the freed frames. */
    method TerminateProcess(pid: int, now: int) returns (ok: bool)
      requires Valid()
      modifies this, ramFrames, swapFrames, processes, tlb
      ensures Valid()
      ensures stats == old(stats)
      ensures ok <==> Live(old(processes[..]), pid)
      ensures !ok ==> PoolsUnchanged() && numProcesses == old(numProcesses) && logs == old(logs)
      ensures ok ==>
        && ramFrames[..] == ReleasedOf(old(ramFrames[..]), pid)
        && swapFrames[..] == ReleasedOf(old(swapFrames[..]), pid)
        && processes[..] == old(processes[..])[pid - 1 := None]
        && tlb[..] == Invalidated(old(tlb[..]), pid)
        && numProcesses == old(numProcesses) - 1
        && logs == Logged(old(logs), LogEntry(now, ProcessTerminated(pid, old(processes[pid - 1]).value.pageFaults)))
    {
      var slot := FindProcess(pid);
      FindProcessLive(pid, slot);
      if slot == -1 {
        return false;
      }
      var pcb := processes[slot].value;
      ghost var ram0, swap0, procs0, tlb0 := ramFrames[..], swapFrames[..], processes[..], tlb[..];
      TerminateKeepsCoherence(ram0, swap0, procs0, tlb0, slot);
      LiveCountEmpty(procs0, slot);
      ReleaseFrames(slot);
      TlbInvalidate(pid);
      AddLog(ProcessTerminated(pid, pcb.pageFaults), now);
      var found := FindProcess(pid);
      if found != -1 {
        processes[found] := None;
        numProcesses := numProcesses - 1;
      }
      assert processes[..] == procs0[slot := None];
      return true;
    }

    /** The loop of terminate_process: for each page, the frame or slot its
        entry names is released. */
    method ReleaseFrames(slot: int)
      requires Valid() && 0 <= slot < MAX_PROCESSES && processes[slot].Some?
      modifies ramFrames, swapFrames
      ensures ramFrames[..] == ReleasedOf(old(ramFrames[..]), slot + 1)
      ensures swapFrames[..] == ReleasedOf(old(swapFrames[..]), slot + 1)
    {
      var pcb := processes[slot].value;
      ghost var ram0, swap0, procs0 := ramFrames[..], swapFrames[..], processes[..];
      for i := 0 to pcb.numPages
        invariant ramFrames[..] == ReleasedBelow(ram0, slot + 1, i)
        invariant swapFrames[..] == ReleasedBelow(swap0, slot + 1, i)
      {
        ReleaseStep(ram0, swap0, procs0, slot, i);
        var entry := pcb.pageTable[i];
        if entry.state == PageInRam {
          var frame := entry.frameNumber;
          ramFrames[frame] := ramFrames[frame].(occupied := false, pid := -1, pageNumber := -1);
        } else if entry.state == PageInSwap {
          var swapFrame := entry.swapPosition;
          swapFrames[swapFrame] := swapFrames[swapFrame].(occupied := false, pid := -1, pageNumber := -1);
        }
      }
      ReleasedAll(ram0, swap0, procs0, slot);
    }

    /** A simulated access to page `page` of process `pid`: the guards, then
        the TLB, then the page table, then swap_in_page on a page fault. */
    method AccessPage(pid: int, page: int, now: int) returns (outcome: AccessOutcome)
      requires Valid()
      modifies this, ramFrames, swapFrames, processes, tlb, fifo, fifo.queue
      ensures Valid()
      ensures numProcesses == old(numProcesses)
      ensures outcome == NoActiveProcesses <==> old(numProcesses) == 0
      ensures outcome == ProcessNotFound <==> old(numProcesses) != 0 && !Live(old(processes[..]), pid)
      ensures outcome == InvalidPage <==>
        old(numProcesses) != 0 && Live(old(processes[..]), pid) && !(0 <= page < old(processes[pid - 1]).value.numPages)
      ensures outcome in {NoActiveProcesses, ProcessNotFound, InvalidPage} ==>
        PoolsUnchanged() && fifo.Contents == old(fifo.Contents) && stats == old(stats) && logs == old(logs)
      ensures !(outcome in {NoActiveProcesses, ProcessNotFound, InvalidPage}) ==>
        && stats.memoryAccesses == old(stats.memoryAccesses) + 1
        && Live(old(processes[..]), pid) && 0 <= page < old(processes[pid - 1]).value.numPages
        && Resolved(pid, page, now, outcome)
    {
      if numProcesses == 0 {
        return NoActiveProcesses;
      }
      var slot := FindProcess(pid);
      FindProcessLive(pid, slot);
      if slot == -1 {
        return ProcessNotFound;
      }
      var pcb := processes[slot].value;
      if page < 0 || page >= pcb.numPages {
        return InvalidPage;
      }
      outcome := ResolveAccess(pid, page, now);
    }

    /** What an access past the guards does, between the state before and
        after it: a TLB hit refreshes the entry's access time, a TLB miss
        refills the TLB from the page table or is a page fault served (or
        not) by swap_in_page; never "not present". */
    twostate predicate Resolved(pid: int, page: int, now: int, outcome: AccessOutcome)
      requires old(Valid()) && Live(old(processes[..]), pid)
      requires 0 <= page < old(processes[pid - 1]).value.numPages
      reads this, ramFrames, swapFrames, processes, tlb, fifo, fifo.queue
    {
      var k := TlbFind(old(tlb[..]), pid, page);
      && stats.memoryAccesses == old(stats.memoryAccesses) + 1
      && (outcome.TlbHit? || outcome.PageTableHit? || outcome.PageFaultServed? || outcome.SwapInFailed?)
      && (outcome.TlbHit? <==> k >= 0)
      && (outcome.TlbHit? ==>
            && outcome.frame == old(tlb[k].frameNumber)
            && ResidentAt(old(processes[..]), pid, page, outcome.frame)
            && tlb[..] == old(tlb[..])[k := old(tlb[k]).(lastAccess := now)]
            && stats == old(stats).(memoryAccesses := old(stats.memoryAccesses) + 1, tlbHits := old(stats.tlbHits) + 1)
            && ramFrames[..] == old(ramFrames[..]) && swapFrames[..] == old(swapFrames[..])
            && processes[..] == old(processes[..]) && fifo.Contents == old(fifo.Contents)
            && logs == Logged(old(logs), LogEntry(now, AccessTlbHit(pid, page, outcome.frame))))
      && (!outcome.TlbHit? ==> stats.tlbMisses == old(stats.tlbMisses) + 1 && stats.tlbHits == old(stats.tlbHits))
      && (outcome.PageTableHit? ==>
            && ResidentAt(old(processes[..]), pid, page, outcome.frame)
            && tlb[..] == old(tlb[..])[TlbVictim(old(tlb[..])) := TlbEntry(pid, page, outcome.frame, true, now)]
            && stats == old(stats).(memoryAccesses := old(stats.memoryAccesses) + 1, tlbMisses := old(stats.tlbMisses) + 1)
            && ramFrames[..] == old(ramFrames[..]) && swapFrames[..] == old(swapFrames[..])
            && processes[..] == old(processes[..]) && fifo.Contents == old(fifo.Contents)
            && logs == Logged(old(logs), LogEntry(now, AccessInRam(pid, page, outcome.frame))))
      && (outcome.PageFaultServed? || outcome.SwapInFailed? <==>
            k == -1 && old(processes[pid - 1]).value.pageTable[page].state == PageInSwap)
      && (outcome.PageFaultServed? || outcome.SwapInFailed? ==>
            PageSwapped(old(processes[..]), pid, page) && SwappedIn(pid, page, now, outcome.PageFaultServed?))
      && (outcome.PageFaultServed? ==>
            && Live(processes[..], pid) && 0 <= page < |processes[pid - 1].value.pageTable|
            && processes[pid - 1].value.pageTable[page].state == PageInRam)
      && (outcome.SwapInFailed? ==> FirstFree(old(ramFrames[..])) == -1)
    }

    /** The part of an access past the guards: the access is counted, then
        tlb_lookup, and on a miss the page table. */
    method ResolveAccess(pid: int, page: int, now: int) returns (outcome: AccessOutcome)
      requires Valid() && Live(processes[..], pid) && 0 <= page < processes[pid - 1].value.numPages
      modifies this, ramFrames, swapFrames, processes, tlb, fifo, fifo.queue
      ensures Valid()
      ensures numProcesses == old(numProcesses)
      ensures stats.memoryAccesses == old(stats.memoryAccesses) + 1
      ensures Resolved(pid, page, now, outcome)
    {
      stats := stats.(memoryAccesses := stats.memoryAccesses + 1);
      var frame := TlbLookup(pid, page, now);
      if frame != -1 {
        AddLog(AccessTlbHit(pid, page, frame), now);
        return TlbHit(frame);
      }
      outcome := ResolveMiss(pid, page, now);
    }

    /** A TLB miss on a page the page table has in RAM frame `f`: the TLB
        caches the mapping and the access is logged. */
    method CacheResident(pid: int, page: int, f: int, now: int)
      requires Valid() && ResidentAt(processes[..], pid, page, f)
      modifies this, tlb
      ensures Valid()
      ensures numProcesses == old(numProcesses) && stats == old(stats)
      ensures tlb[..] == old(tlb[..])[TlbVictim(old(tlb[..])) := TlbEntry(pid, page, f, true, now)]
      ensures logs == Logged(old(logs), LogEntry(now, AccessInRam(pid, page, f)))
    {
      TlbInsertKeepsCoherence(tlb[..], processes[..], pid, page, f, TlbVictim(tlb[..]), now);
      TlbUpdate(pid, page, f, now);
      AddLog(AccessInRam(pid, page, f), now);
    }

    /** A TLB miss: the page table says where the page is. */
    method ResolveMiss(pid: int, page: int, now: int) returns (outcome: AccessOutcome)
      requires Valid() && Live(processes[..], pid) && 0 <= page < processes[pid - 1].value.numPages
      modifies this, ramFrames, swapFrames, processes, tlb, fifo, fifo.queue
      ensures Valid()
      ensures numProcesses == old(numProcesses)
      ensures OtherCountsUnchanged()
      ensures outcome.PageTableHit? || outcome.PageFaultServed? || outcome.SwapInFailed?
      ensures outcome.PageTableHit? <==> old(processes[pid - 1]).value.pageTable[page].state == PageInRam
      ensures outcome.PageTableHit? ==>
        && ResidentAt(old(processes[..]), pid, page, outcome.frame)
        && tlb[..] == old(tlb[..])[TlbVictim(old(tlb[..])) := TlbEntry(pid, page, outcome.frame, true, now)]
        && stats == old(stats)
        && ramFrames[..] == old(ramFrames[..]) && swapFrames[..] == old(swapFrames[..])
        && processes[..] == old(processes[..]) && fifo.Contents == old(fifo.Contents)
        && logs == Logged(old(logs), LogEntry(now, AccessInRam(pid, page, outcome.frame)))
      ensures outcome.PageFaultServed? || outcome.SwapInFailed? ==>
        PageSwapped(old(processes[..]), pid, page) && SwappedIn(pid, page, now, outcome.PageFaultServed?)
      ensures outcome.PageFaultServed? ==>
        && Live(processes[..], pid) && 0 <= page < |processes[pid - 1].value.pageTable|
        && processes[pid - 1].value.pageTable[page].state == PageInRam
      ensures outcome.SwapInFailed? ==> FirstFree(old(ramFrames[..])) == -1
    {
      var entry := processes[pid - 1].value.pageTable[page];
      if entry.state == PageInRam {
        assert ResidentAt(processes[..], pid, page, entry.frameNumber);
        CacheResident(pid, page, entry.frameNumber, now);
        return PageTableHit(entry.frameNumber);
      } else if entry.state == PageInSwap {
        var ok := SwapInPage(pid, page, now);
        return if ok then PageFaultServed else SwapInFailed;
      } else {
        return NotPresent;
      }
    }
  }

  lemma {:induction false} NoneCount(procs: seq<Option<Pcb>>)
    requires forall s :: 0 <= s < |procs| ==> procs[s].None?
    ensures LiveCount(procs) == 0
    decreases |procs|
  {
    if procs != [] {
      NoneCount(procs[..|procs| - 1]);
    }
  }
}
