// Values and invariants of the virtual-memory engine of
// src/simulador_memoria.c: frames, page tables, PCB slots, TLB entries, the
// log, and the pure functions that the engine's scans compute.

module Paging {

  datatype Option<T> = None | Some(value: T)

  const MAX_PROCESSES := 50
  const MAX_LOG_ENTRIES := 1000

  /** A RAM frame or a Swap slot (src/simulador_memoria.c:89-94). */
  datatype Frame = Frame(pid: int, pageNumber: int, occupied: bool, loadTime: int)

  const FreeFrame := Frame(-1, -1, false, 0)

  datatype PageState = PageFree | PageInRam | PageInSwap | PageNotPresent

  /** One page-table entry (src/simulador_memoria.c:56-65). */
  datatype PageEntry = PageEntry(
    pageNumber: int,
    frameNumber: int,
    state: PageState,
    valid: bool,
    modified: bool,
    swapPosition: int,
    lastAccess: int,
    loadTime: int)

  datatype ProcessState = ProcActive | ProcSuspended | ProcSwapped | ProcTerminated

  /** A process control block (src/simulador_memoria.c:68-77); its page
      table is a value that the engine replaces when an entry changes. */
  datatype Pcb = Pcb(
    pid: int,
    name: string,
    size: int,
    numPages: int,
    state: ProcessState,
    pageTable: seq<PageEntry>,
    creationTime: int,
    pageFaults: int)

  /** A TLB entry (src/simulador_memoria.c:80-86). */
  datatype TlbEntry = TlbEntry(pid: int, pageNumber: int, frameNumber: int, valid: bool, lastAccess: int)

  const EmptyTlbEntry := TlbEntry(-1, -1, -1, false, 0)

  /** What the engine writes to its log; the text itself is left out. */
  datatype Event =
    | SystemInitialized
    | NoSwapSpace(pid: int, page: int)
    | PageSwappedOut(pid: int, page: int, frame: int, slot: int)
    | NoVictim(pid: int)
    | PageSwappedIn(pid: int, page: int, slot: int, frame: int)
    | ProcessCreated(pid: int, numPages: int, pagesInRam: int)
    | ProcessTerminated(pid: int, pageFaults: int)
    | AccessTlbHit(pid: int, page: int, frame: int)
    | AccessInRam(pid: int, page: int, frame: int)

  datatype LogEntry = LogEntry(timestamp: int, event: Event)

  /** add_log: an entry is appended while fewer than MAX_LOG_ENTRIES are
      stored; beyond that it is silently dropped. */
  function Logged(logs: seq<LogEntry>, entry: LogEntry): (r: seq<LogEntry>)
    ensures |logs| < MAX_LOG_ENTRIES ==> r == logs + [entry]
    ensures |logs| >= MAX_LOG_ENTRIES ==> r == logs
  {
    if |logs| < MAX_LOG_ENTRIES then logs + [entry] else logs
  }

  // ---------------------------------------------------------------- sizes

  /** The number of pages a process of `sizeKb` needs: sizeKb / pageSize
      rounded up. */
  function CeilPages(sizeKb: int, pageSize: int): (n: int)
    requires sizeKb > 0 && pageSize > 0
    ensures n >= 1
    ensures (n - 1) * pageSize < sizeKb <= n * pageSize
  {
    CeilDivBounds(sizeKb, pageSize);
    (sizeKb + pageSize - 1) / pageSize
  }

  lemma {:induction false} CeilDivBounds(a: int, b: int)
    requires a > 0 && b > 0
    ensures (a + b - 1) / b >= 1
    ensures ((a + b - 1) / b - 1) * b < a <= ((a + b - 1) / b) * b
  {
    var q := (a + b - 1) / b;
    var r := (a + b - 1) % b;
    assert a + b - 1 == q * b + r && 0 <= r < b;
    assert (q - 1) * b == q * b - b;
  }

  /** Page-count comparisons are the same whether made in pages or in KB. */
  lemma {:induction false} ScaledCompare(a: int, b: int, p: int)
    requires p > 0
    ensures a * p > b * p <==> a > b
  {
    if a > b {
      assert a * p - b * p == (a - b) * p;
    } else {
      assert b * p - a * p == (b - a) * p;
    }
  }

  /** One more page adds one page size. */
  lemma {:induction false} MulSucc(c: int, p: int)
    ensures (c + 1) * p == c * p + p
  {
  }

  /** The capacity test of create_process, made in KB, is the same test
      made in pages. */
  lemma {:induction false} ScaledRoom(occupied: int, n: int, frames: int, p: int)
    requires p > 0
    ensures occupied * p + n * p > frames * p <==> occupied + n > frames
  {
    assert occupied * p + n * p == (occupied + n) * p;
    ScaledCompare(occupied + n, frames, p);
  }

  // ---------------------------------------------------------- frame pools

  /** The indices of the free frames of a pool, in ascending order. */
  function FreeIndices(s: seq<Frame>): (r: seq<int>)
    ensures forall k :: 0 <= k < |r| ==> 0 <= r[k] < |s|
    decreases |s|
  {
    if s == [] then []
    else
      var init := FreeIndices(s[..|s| - 1]);
      if s[|s| - 1].occupied then init else init + [|s| - 1]
  }

  /** FreeIndices lists exactly the free frames, each once, in ascending
      order. */
  lemma {:induction false} FreeIndicesSpec(s: seq<Frame>)
    ensures var r := FreeIndices(s);
      && |r| <= |s|
      && (forall k :: 0 <= k < |r| ==> 0 <= r[k] < |s| && !s[r[k]].occupied)
      && (forall a, b :: 0 <= a < b < |r| ==> r[a] < r[b])
      && (forall i :: 0 <= i < |s| && !s[i].occupied ==> i in r)
    decreases |s|
  {
    if s != [] {
      var init := s[..|s| - 1];
      FreeIndicesSpec(init);
      assert forall k :: 0 <= k < |init| ==> init[k] == s[k];
    }
  }

  /** The index of the first free frame, or -1 when every frame is occupied
      (the result of find_free_ram_frame / find_free_swap_frame). */
  function FirstFree(s: seq<Frame>): (r: int)
    ensures -1 <= r < |s|
    ensures r == -1 <==> forall k :: 0 <= k < |s| ==> s[k].occupied
    ensures r >= 0 ==> !s[r].occupied && forall k :: 0 <= k < r ==> s[k].occupied
    ensures r == -1 <==> FreeIndices(s) == []
    ensures r >= 0 ==> r == FreeIndices(s)[0]
  {
    var fi := FreeIndices(s);
    FreeIndicesSpec(s);
    if fi == [] then -1
    else
      assert forall a :: 0 <= a < |fi| ==> fi[0] <= fi[a];
      fi[0]
  }

  /** The number of occupied frames of a pool: every frame is either
      counted here or listed as free. */
  function OccupiedCount(s: seq<Frame>): (n: nat)
    ensures n + |FreeIndices(s)| == |s|
    decreases |s|
  {
    if s == [] then 0
    else OccupiedCount(s[..|s| - 1]) + (if s[|s| - 1].occupied then 1 else 0)
  }

  /** Scanning one more frame adds one to the count exactly when that frame
      is occupied. */
  lemma {:induction false} OccupiedCountStep(s: seq<Frame>, i: int)
    requires 0 <= i < |s|
    ensures OccupiedCount(s[..i + 1]) == OccupiedCount(s[..i]) + (if s[i].occupied then 1 else 0)
  {
    assert s[..i + 1][..i] == s[..i];
  }

  /** Occupying the lowest free frame removes exactly that frame from the
      ascending list of free frames: this is why the k-th page placed by
      successive first-free searches lands in the k-th free frame. */
  lemma {:induction false} OccupyFirstFree(s: seq<Frame>, fr: Frame)
    requires FreeIndices(s) != [] && fr.occupied
    ensures FreeIndices(s[FreeIndices(s)[0] := fr]) == FreeIndices(s)[1..]
    decreases |s|
  {
    var fi := FreeIndices(s);
    var f := fi[0];
    var n := |s|;
    var fiInit := FreeIndices(s[..n - 1]);
    var tail := if s[n - 1].occupied then [] else [n - 1];
    FreeIndicesSnoc(s);
    if f == n - 1 {
      assert fiInit == [];
      WriteLast(s, fr);
    } else {
      assert fiInit != [] && fiInit[0] == f;
      OccupyFirstFree(s[..n - 1], fr);
      WriteBelowLast(s, f, fr);
      DropHeadAppend(fiInit, tail);
    }
  }

  /** Occupying the last frame leaves the free frames before it. */
  lemma {:induction false} WriteLast(s: seq<Frame>, fr: Frame)
    requires s != [] && fr.occupied
    ensures FreeIndices(s[|s| - 1 := fr]) == FreeIndices(s[..|s| - 1])
  {
    var s' := s[|s| - 1 := fr];
    assert s'[..|s| - 1] == s[..|s| - 1];
    FreeIndicesSnoc(s');
  }

  /** A write below the last frame leaves the last frame's contribution. */
  lemma {:induction false} WriteBelowLast(s: seq<Frame>, f: int, fr: Frame)
    requires 0 <= f < |s| - 1
    ensures FreeIndices(s[f := fr]) ==
      FreeIndices(s[..|s| - 1][f := fr]) + (if s[|s| - 1].occupied then [] else [|s| - 1])
  {
    var s' := s[f := fr];
    assert s'[..|s| - 1] == s[..|s| - 1][f := fr];
    FreeIndicesSnoc(s');
  }

  lemma {:induction false} FreeIndicesSnoc(s: seq<Frame>)
    requires s != []
    ensures FreeIndices(s) == FreeIndices(s[..|s| - 1]) + (if s[|s| - 1].occupied then [] else [|s| - 1])
  {
  }

  lemma {:induction false} DropHeadAppend(a: seq<int>, b: seq<int>)
    requires a != []
    ensures (a + b)[1..] == a[1..] + b
  {
  }

  /** A frame released by terminate_process / swap_out_page. */
  function Released(fr: Frame): (r: Frame)
    ensures !r.occupied && r.pid == -1 && r.pageNumber == -1 && r.loadTime == fr.loadTime
  {
    fr.(pid := -1, pageNumber := -1, occupied := false)
  }

  // ------------------------------------------------------------- the TLB

  /** The victim scan of tlb_update, written as the loop it is: the first
      invalid slot stops the scan, otherwise a strictly older slot replaces
      the current candidate. */
  function VictimScan(t: seq<TlbEntry>, i: nat, victim: nat, oldest: int): (r: nat)
    requires victim < |t|
    ensures r < |t|
    decreases |t| - i
  {
    if i >= |t| then victim
    else if !t[i].valid then i
    else if t[i].lastAccess < oldest then VictimScan(t, i + 1, i, t[i].lastAccess)
    else VictimScan(t, i + 1, victim, oldest)
  }

  /** The slot tlb_update overwrites. */
  function TlbVictim(t: seq<TlbEntry>): nat
    requires |t| >= 1
  {
    VictimScan(t, 0, 0, t[0].lastAccess)
  }

  /** tlb_update overwrites the first invalid slot when there is one, and
      otherwise the lowest-index slot among those with the smallest
      last_access. */
  lemma {:induction false} TlbVictimChoice(t: seq<TlbEntry>)
    requires |t| >= 1
    ensures TlbVictim(t) < |t|
    ensures (exists k :: 0 <= k < |t| && !t[k].valid) ==>
              !t[TlbVictim(t)].valid && forall k :: 0 <= k < TlbVictim(t) ==> t[k].valid
    ensures (forall k :: 0 <= k < |t| ==> t[k].valid) ==>
              (forall k :: 0 <= k < |t| ==> t[TlbVictim(t)].lastAccess <= t[k].lastAccess) &&
              (forall k :: 0 <= k < TlbVictim(t) ==> t[k].lastAccess > t[TlbVictim(t)].lastAccess)
  {
    VictimScanChoice(t, 0, 0, t[0].lastAccess);
  }

  lemma {:induction false} VictimScanChoice(t: seq<TlbEntry>, i: nat, victim: nat, oldest: int)
    requires i <= |t| && victim < |t| && (i == 0 ==> victim == 0)
    requires (i > 0 ==> victim < i) && oldest == t[victim].lastAccess
    requires forall k :: 0 <= k < i ==> t[k].valid && t[k].lastAccess >= oldest
    requires forall k :: 0 <= k < victim ==> t[k].lastAccess > oldest
    ensures var v := VictimScan(t, i, victim, oldest);
      && v < |t|
      && ((exists k :: 0 <= k < |t| && !t[k].valid) ==>
            !t[v].valid && forall k :: 0 <= k < v ==> t[k].valid)
      && ((forall k :: 0 <= k < |t| ==> t[k].valid) ==>
            (forall k :: 0 <= k < |t| ==> t[v].lastAccess <= t[k].lastAccess) &&
            (forall k :: 0 <= k < v ==> t[k].lastAccess > t[v].lastAccess))
    decreases |t| - i
  {
    if i < |t| {
      if !t[i].valid {
      } else if t[i].lastAccess < oldest {
        VictimScanChoice(t, i + 1, i, t[i].lastAccess);
      } else {
        VictimScanChoice(t, i + 1, victim, oldest);
      }
    }
  }

  /** A TLB entry that caches page `page` of `pid`. */
  predicate Caches(e: TlbEntry, pid: int, page: int)
  {
    e.valid && e.pid == pid && e.pageNumber == page
  }

  /** The slot tlb_lookup hits: the first entry caching (pid, page), or -1
      on a miss. */
  function TlbFind(t: seq<TlbEntry>, pid: int, page: int): (r: int)
    ensures -1 <= r < |t|
    ensures r == -1 <==> forall k :: 0 <= k < |t| ==> !Caches(t[k], pid, page)
    ensures r >= 0 ==> Caches(t[r], pid, page) && forall k :: 0 <= k < r ==> !Caches(t[k], pid, page)
    decreases |t|
  {
    if t == [] then -1
    else if Caches(t[0], pid, page) then 0
    else
      var r := TlbFind(t[1..], pid, page);
      assert forall k :: 1 <= k < |t| ==> t[k] == t[1..][k - 1];
      if r == -1 then -1 else r + 1
  }

  /** With a coherent TLB, a hit yields the frame the page table records for
      the page. */
  lemma {:induction false} TlbHitIsResident(tlb: seq<TlbEntry>, procs: seq<Option<Pcb>>, pid: int, page: int)
    requires TlbCoherent(tlb, procs) && TlbFind(tlb, pid, page) >= 0
    ensures ResidentAt(procs, pid, page, tlb[TlbFind(tlb, pid, page)].frameNumber)
  {
    var k := TlbFind(tlb, pid, page);
    assert tlb[k].valid;
  }

  /** Refreshing an entry's last_access keeps the TLB coherent. */
  lemma {:induction false} TlbTouchKeepsCoherence(tlb: seq<TlbEntry>, procs: seq<Option<Pcb>>, k: int, now: int)
    requires TlbCoherent(tlb, procs) && 0 <= k < |tlb|
    ensures TlbCoherent(tlb[k := tlb[k].(lastAccess := now)], procs)
  {
    var tlb' := tlb[k := tlb[k].(lastAccess := now)];
    forall i | 0 <= i < |tlb'| && tlb'[i].valid
      ensures ResidentAt(procs, tlb'[i].pid, tlb'[i].pageNumber, tlb'[i].frameNumber)
    {
      assert ResidentAt(procs, tlb[i].pid, tlb[i].pageNumber, tlb[i].frameNumber);
    }
  }

  /** tlb_invalidate: every valid entry of `pid` becomes invalid. */
  function Invalidated(t: seq<TlbEntry>, pid: int): (r: seq<TlbEntry>)
    ensures |r| == |t|
    ensures forall k :: 0 <= k < |t| ==> (r[k].valid <==> t[k].valid && t[k].pid != pid)
    ensures forall k :: 0 <= k < |t| ==> r[k].(valid := t[k].valid) == t[k]
  {
    seq(|t|, k requires 0 <= k < |t| => if t[k].valid && t[k].pid == pid then t[k].(valid := false) else t[k])
  }

  // ------------------------------------------------------------ PCB slots

  /** The number of occupied PCB slots. */
  function LiveCount(procs: seq<Option<Pcb>>): (n: nat)
    ensures n <= |procs|
    decreases |procs|
  {
    if procs == [] then 0
    else LiveCount(procs[..|procs| - 1]) + (if procs[|procs| - 1].Some? then 1 else 0)
  }

  /** Filling an empty slot adds one live process. */
  lemma {:induction false} LiveCountFill(procs: seq<Option<Pcb>>, s: int, p: Pcb)
    requires 0 <= s < |procs| && procs[s].None?
    ensures LiveCount(procs[s := Some(p)]) == LiveCount(procs) + 1
    decreases |procs|
  {
    var n := |procs|;
    var procs' := procs[s := Some(p)];
    if s < n - 1 {
      assert procs'[..n - 1] == procs[..n - 1][s := Some(p)];
      LiveCountFill(procs[..n - 1], s, p);
    } else {
      assert procs'[..n - 1] == procs[..n - 1];
    }
  }

  /** Emptying a live slot removes one live process. */
  lemma {:induction false} LiveCountEmpty(procs: seq<Option<Pcb>>, s: int)
    requires 0 <= s < |procs| && procs[s].Some?
    ensures LiveCount(procs[s := None]) + 1 == LiveCount(procs)
    decreases |procs|
  {
    var n := |procs|;
    var procs' := procs[s := None];
    if s < n - 1 {
      assert procs'[..n - 1] == procs[..n - 1][s := None];
      LiveCountEmpty(procs[..n - 1], s);
    } else {
      assert procs'[..n - 1] == procs[..n - 1];
    }
  }

  /** Replacing a live slot by another live one keeps the count. */
  lemma {:induction false} LiveCountReplace(procs: seq<Option<Pcb>>, s: int, p: Pcb)
    requires 0 <= s < |procs| && procs[s].Some?
    ensures LiveCount(procs[s := Some(p)]) == LiveCount(procs)
  {
    LiveCountEmpty(procs, s);
    assert procs[s := Some(p)] == procs[s := None][s := Some(p)];
    LiveCountFill(procs[s := None], s, p);
  }

  /** The first empty PCB slot, or -1 when all are in use. */
  function FirstEmpty(procs: seq<Option<Pcb>>): (r: int)
    ensures -1 <= r < |procs|
    ensures r == -1 <==> forall s :: 0 <= s < |procs| ==> procs[s].Some?
    ensures r >= 0 ==> procs[r].None? && forall s :: 0 <= s < r ==> procs[s].Some?
    decreases |procs|
  {
    if procs == [] then -1
    else if procs[0].None? then 0
    else
      var r := FirstEmpty(procs[1..]);
      assert forall s :: 1 <= s < |procs| ==> procs[s] == procs[1..][s - 1];
      if r == -1 then -1 else r + 1
  }

  /** While fewer processes are live than there are slots, a free slot
      exists: the slot search of create_process never fails once its
      process-count guard has passed. */
  lemma {:induction false} FreeSlotExists(procs: seq<Option<Pcb>>)
    requires LiveCount(procs) < |procs|
    ensures FirstEmpty(procs) >= 0
    decreases |procs|
  {
    var n := |procs|;
    if procs[n - 1].Some? {
      FreeSlotExists(procs[..n - 1]);
      var s := FirstEmpty(procs[..n - 1]);
      assert procs[s].None?;
    }
  }

  // ------------------------------------------------------- the invariants

  /** `pid` names a live process (pid n lives in slot n - 1). */
  predicate Live(procs: seq<Option<Pcb>>, pid: int)
  {
    1 <= pid <= |procs| && procs[pid - 1].Some?
  }

  /** The guards of swap_in_page: `pid` is live, `page` is one of its
      pages, and that page is held in Swap. */
  predicate PageSwapped(procs: seq<Option<Pcb>>, pid: int, page: int)
  {
    && Live(procs, pid)
    && 0 <= page < procs[pid - 1].value.numPages
    && page < |procs[pid - 1].value.pageTable|
    && procs[pid - 1].value.pageTable[page].state == PageInSwap
  }

  predicate OwnedBy(fr: Frame, pid: int, page: int)
  {
    fr.occupied && fr.pid == pid && fr.pageNumber == page
  }

  /** Page `page` of process `pid` is resident in RAM frame `f`, according
      to its page table (pid n lives in slot n - 1). */
  predicate ResidentAt(procs: seq<Option<Pcb>>, pid: int, page: int, f: int)
  {
    && 1 <= pid <= |procs|
    && procs[pid - 1].Some?
    && 0 <= page < |procs[pid - 1].value.pageTable|
    && procs[pid - 1].value.pageTable[page].state == PageInRam
    && procs[pid - 1].value.pageTable[page].frameNumber == f
  }

  /** Page `page` of process `pid` sits in Swap slot `p`. */
  predicate SwappedAt(procs: seq<Option<Pcb>>, pid: int, page: int, p: int)
  {
    && 1 <= pid <= |procs|
    && procs[pid - 1].Some?
    && 0 <= page < |procs[pid - 1].value.pageTable|
    && procs[pid - 1].value.pageTable[page].state == PageInSwap
    && procs[pid - 1].value.pageTable[page].swapPosition == p
  }

  /** Forward half of ownership, for one entry: the frame or slot the entry
      points at is occupied by this very (pid, page). */
  predicate EntryConsistent(ram: seq<Frame>, swap: seq<Frame>, pid: int, j: int, e: PageEntry)
  {
    && e.pageNumber == j
    && (e.state == PageInRam ==>
          e.valid && e.swapPosition == -1 &&
          0 <= e.frameNumber < |ram| && OwnedBy(ram[e.frameNumber], pid, j))
    && (e.state == PageInSwap ==>
          !e.valid && e.frameNumber == -1 &&
          0 <= e.swapPosition < |swap| && OwnedBy(swap[e.swapPosition], pid, j))
  }

  predicate TableConsistent(ram: seq<Frame>, swap: seq<Frame>, pid: int, table: seq<PageEntry>)
  {
    forall j :: 0 <= j < |table| ==> EntryConsistent(ram, swap, pid, j, table[j])
  }

  predicate TablesConsistent(ram: seq<Frame>, swap: seq<Frame>, procs: seq<Option<Pcb>>)
  {
    forall s :: 0 <= s < |procs| && procs[s].Some? ==>
      procs[s].value.pid == s + 1 && TableConsistent(ram, swap, s + 1, procs[s].value.pageTable)
  }

  /** Backward half of ownership: an occupied RAM frame is referenced by the
      entry its (pid, page_number) names. */
  predicate FramesOwned(ram: seq<Frame>, procs: seq<Option<Pcb>>)
  {
    forall f :: 0 <= f < |ram| && ram[f].occupied ==> ResidentAt(procs, ram[f].pid, ram[f].pageNumber, f)
  }

  predicate SlotsOwned(swap: seq<Frame>, procs: seq<Option<Pcb>>)
  {
    forall p :: 0 <= p < |swap| && swap[p].occupied ==> SwappedAt(procs, swap[p].pid, swap[p].pageNumber, p)
  }

  /** The ownership invariant between frame pools and page tables. */
  predicate Ownership(ram: seq<Frame>, swap: seq<Frame>, procs: seq<Option<Pcb>>)
  {
    && |procs| == MAX_PROCESSES
    && TablesConsistent(ram, swap, procs)
    && FramesOwned(ram, procs)
    && SlotsOwned(swap, procs)
  }

  /** Every valid TLB entry maps (pid, page) to the frame the page occupies. */
  predicate TlbCoherent(tlb: seq<TlbEntry>, procs: seq<Option<Pcb>>)
  {
    forall k :: 0 <= k < |tlb| && tlb[k].valid ==>
      ResidentAt(procs, tlb[k].pid, tlb[k].pageNumber, tlb[k].frameNumber)
  }

  /** A fully constructed process: one entry per page, each in RAM or Swap. */
  predicate ProcessComplete(p: Pcb)
  {
    && p.numPages >= 1
    && |p.pageTable| == p.numPages
    && forall j :: 0 <= j < |p.pageTable| ==>
         p.pageTable[j].state == PageInRam || p.pageTable[j].state == PageInSwap
  }

  predicate AllComplete(procs: seq<Option<Pcb>>)
  {
    forall s :: 0 <= s < |procs| && procs[s].Some? ==> ProcessComplete(procs[s].value)
  }

  predicate Coherent(ram: seq<Frame>, swap: seq<Frame>, procs: seq<Option<Pcb>>, tlb: seq<TlbEntry>)
  {
    Ownership(ram, swap, procs) && AllComplete(procs) && TlbCoherent(tlb, procs)
  }

  /** The state init_system leaves: every frame and slot free, no PCB, an
      empty TLB; it satisfies the engine's invariant. */
  lemma {:induction false} InitialCoherent(ram: seq<Frame>, swap: seq<Frame>, procs: seq<Option<Pcb>>, tlb: seq<TlbEntry>)
    requires |procs| == MAX_PROCESSES && forall s :: 0 <= s < |procs| ==> procs[s].None?
    requires forall f :: 0 <= f < |ram| ==> ram[f] == FreeFrame
    requires forall p :: 0 <= p < |swap| ==> swap[p] == FreeFrame
    requires forall k :: 0 <= k < |tlb| ==> tlb[k] == EmptyTlbEntry
    ensures Coherent(ram, swap, procs, tlb)
  {
  }

  // -------------------------------------------- consequences of ownership

  /** A RAM frame is occupied iff some live page-table entry is IN_RAM with
      that frame number, and then the frame's (pid, page_number) names it. */
  lemma {:induction false} OccupiedIffReferenced(ram: seq<Frame>, swap: seq<Frame>, procs: seq<Option<Pcb>>, f: int)
    requires Ownership(ram, swap, procs) && 0 <= f < |ram|
    ensures ram[f].occupied <==> exists pid, page :: ResidentAt(procs, pid, page, f)
    ensures ram[f].occupied ==> ResidentAt(procs, ram[f].pid, ram[f].pageNumber, f)
  {
    if exists pid, page :: ResidentAt(procs, pid, page, f) {
      var pid, page :| ResidentAt(procs, pid, page, f);
      assert EntryConsistent(ram, swap, pid, page, procs[pid - 1].value.pageTable[page]);
    }
  }

  /** A Swap slot is occupied iff some live entry is IN_SWAP at it. */
  lemma {:induction false} SlotOccupiedIffReferenced(ram: seq<Frame>, swap: seq<Frame>, procs: seq<Option<Pcb>>, p: int)
    requires Ownership(ram, swap, procs) && 0 <= p < |swap|
    ensures swap[p].occupied <==> exists pid, page :: SwappedAt(procs, pid, page, p)
    ensures swap[p].occupied ==> SwappedAt(procs, swap[p].pid, swap[p].pageNumber, p)
  {
    if exists pid, page :: SwappedAt(procs, pid, page, p) {
      var pid, page :| SwappedAt(procs, pid, page, p);
      assert EntryConsistent(ram, swap, pid, page, procs[pid - 1].value.pageTable[page]);
    }
  }

  /** At most one live entry refers to any RAM frame. */
  lemma {:induction false} ResidentUnique(ram: seq<Frame>, swap: seq<Frame>, procs: seq<Option<Pcb>>,
                       pid1: int, page1: int, pid2: int, page2: int, f: int)
    requires Ownership(ram, swap, procs)
    requires ResidentAt(procs, pid1, page1, f) && ResidentAt(procs, pid2, page2, f)
    ensures pid1 == pid2 && page1 == page2
  {
    assert EntryConsistent(ram, swap, pid1, page1, procs[pid1 - 1].value.pageTable[page1]);
    assert EntryConsistent(ram, swap, pid2, page2, procs[pid2 - 1].value.pageTable[page2]);
  }

  /** At most one live entry refers to any Swap slot. */
  lemma {:induction false} SwappedUnique(ram: seq<Frame>, swap: seq<Frame>, procs: seq<Option<Pcb>>,
                      pid1: int, page1: int, pid2: int, page2: int, p: int)
    requires Ownership(ram, swap, procs)
    requires SwappedAt(procs, pid1, page1, p) && SwappedAt(procs, pid2, page2, p)
    ensures pid1 == pid2 && page1 == page2
  {
    assert EntryConsistent(ram, swap, pid1, page1, procs[pid1 - 1].value.pageTable[page1]);
    assert EntryConsistent(ram, swap, pid2, page2, procs[pid2 - 1].value.pageTable[page2]);
  }

  /** The Swap slot a swapped page names is in range and occupied. */
  lemma {:induction false} SwappedOccupied(ram: seq<Frame>, swap: seq<Frame>, procs: seq<Option<Pcb>>, pid: int, page: int, p: int)
    requires Ownership(ram, swap, procs) && SwappedAt(procs, pid, page, p)
    ensures 0 <= p < |swap| && swap[p].occupied
  {
    assert EntryConsistent(ram, swap, pid, page, procs[pid - 1].value.pageTable[page]);
  }

  /** A complete process's pages account for exactly its frames and slots:
      each page is in exactly one of the two pools. */
  lemma {:induction false} PageInExactlyOnePool(ram: seq<Frame>, swap: seq<Frame>, procs: seq<Option<Pcb>>, pid: int, page: int)
    requires Ownership(ram, swap, procs) && AllComplete(procs)
    requires 1 <= pid <= |procs| && procs[pid - 1].Some?
    requires 0 <= page < procs[pid - 1].value.numPages
    ensures (exists f :: ResidentAt(procs, pid, page, f)) != (exists p :: SwappedAt(procs, pid, page, p))
  {
    var e := procs[pid - 1].value.pageTable[page];
    if e.state == PageInRam {
      assert ResidentAt(procs, pid, page, e.frameNumber);
    } else {
      assert SwappedAt(procs, pid, page, e.swapPosition);
    }
  }


  // ------------------------------------------------ transitions on values

  /** The entry of a page that swap_out_page moved to Swap slot `p`. */
  function SwappedOutEntry(e: PageEntry, p: int): (r: PageEntry)
    ensures r.state == PageInSwap && !r.valid && r.frameNumber == -1 && r.swapPosition == p
    ensures r.pageNumber == e.pageNumber && r.loadTime == e.loadTime && r.lastAccess == e.lastAccess
  {
    e.(state := PageInSwap, frameNumber := -1, swapPosition := p, valid := false)
  }

  /** The entry of a page that swap_in_page loaded into RAM frame `f`. */
  function SwappedInEntry(e: PageEntry, f: int, now: int): (r: PageEntry)
    ensures r.state == PageInRam && r.valid && r.frameNumber == f && r.swapPosition == -1
    ensures r.pageNumber == e.pageNumber && r.loadTime == now && r.lastAccess == e.lastAccess
  {
    e.(state := PageInRam, frameNumber := f, swapPosition := -1, valid := true, loadTime := now)
  }

  /** The entry create_process writes for page `j` placed in RAM frame `f`. */
  function RamEntry(j: int, f: int, now: int): (e: PageEntry)
    ensures e.pageNumber == j && e.state == PageInRam && e.valid && e.frameNumber == f && e.swapPosition == -1
  {
    PageEntry(j, f, PageInRam, true, false, -1, now, now)
  }

  /** The entry create_process writes for page `j` placed in Swap slot `p`. */
  function SwapEntry(j: int, p: int, now: int): (e: PageEntry)
    ensures e.pageNumber == j && e.state == PageInSwap && !e.valid && e.frameNumber == -1 && e.swapPosition == p
  {
    PageEntry(j, -1, PageInSwap, false, false, p, 0, now)
  }

  /** Two page tables of the same length that agree except at entry `pg`. */
  predicate SameOtherEntries(t: seq<PageEntry>, t0: seq<PageEntry>, pg: int)
  {
    |t| == |t0| && forall j :: 0 <= j < |t| && j != pg ==> t[j] == t0[j]
  }

  /** The slots after swap_out_page moved page `pg` of `pid` to Swap slot
      `sp`: only that entry changes. */
  function WithSwappedOut(procs: seq<Option<Pcb>>, pid: int, pg: int, sp: int): (r: seq<Option<Pcb>>)
    requires 1 <= pid <= |procs| && procs[pid - 1].Some? && 0 <= pg < |procs[pid - 1].value.pageTable|
    ensures |r| == |procs| && r[pid - 1].Some?
    ensures forall s :: 0 <= s < |procs| && s != pid - 1 ==> r[s] == procs[s]
    ensures |r[pid - 1].value.pageTable| == |procs[pid - 1].value.pageTable|
    ensures r[pid - 1].value.pageTable[pg].state == PageInSwap && r[pid - 1].value.pageTable[pg].swapPosition == sp
    ensures SameOtherEntries(r[pid - 1].value.pageTable, procs[pid - 1].value.pageTable, pg)
    ensures r[pid - 1].value.(pageTable := procs[pid - 1].value.pageTable) == procs[pid - 1].value
  {
    var p := procs[pid - 1].value;
    procs[pid - 1 := Some(p.(pageTable := p.pageTable[pg := SwappedOutEntry(p.pageTable[pg], sp)]))]
  }

  /** A second write to the same index overrides the first. */
  lemma {:induction false} WriteTwice<T>(s: seq<T>, i: int, a: T, b: T)
    requires 0 <= i < |s|
    ensures s[i := a][i := b] == s[i := b]
  {
    var t, u := s[i := a][i := b], s[i := b];
    assert forall j :: 0 <= j < |s| ==> t[j] == u[j];
  }

  /** Swapping out a page in RAM leaves every page that was in Swap where
      it was. */
  lemma {:induction false} SwapOutKeepsSwapped(procs: seq<Option<Pcb>>, vpid: int, vpg: int, f: int, sv: int,
                                               pid: int, page: int, sp: int)
    requires ResidentAt(procs, vpid, vpg, f) && SwappedAt(procs, pid, page, sp)
    ensures SwappedAt(WithSwappedOut(procs, vpid, vpg, sv), pid, page, sp)
  {
  }

  /** The slots after swap_in_page loaded page `pg` of `pid` into RAM frame
      `f`: only that entry and the process's fault counter change. */
  function WithSwappedIn(procs: seq<Option<Pcb>>, pid: int, pg: int, f: int, now: int): (r: seq<Option<Pcb>>)
    requires 1 <= pid <= |procs| && procs[pid - 1].Some? && 0 <= pg < |procs[pid - 1].value.pageTable|
    ensures |r| == |procs| && r[pid - 1].Some?
    ensures forall s :: 0 <= s < |procs| && s != pid - 1 ==> r[s] == procs[s]
    ensures |r[pid - 1].value.pageTable| == |procs[pid - 1].value.pageTable|
    ensures r[pid - 1].value.pageTable[pg].state == PageInRam && r[pid - 1].value.pageTable[pg].frameNumber == f
    ensures SameOtherEntries(r[pid - 1].value.pageTable, procs[pid - 1].value.pageTable, pg)
    ensures r[pid - 1].value.pageFaults == procs[pid - 1].value.pageFaults + 1
  {
    var p := procs[pid - 1].value;
    procs[pid - 1 := Some(p.(pageTable := p.pageTable[pg := SwappedInEntry(p.pageTable[pg], f, now)],
                             pageFaults := p.pageFaults + 1))]
  }

  /** Moving the page in RAM frame `f` to the free Swap slot `p`, and
      dropping its process's TLB entries, keeps every invariant. */
  lemma {:induction false} SwapOutKeepsCoherence(ram: seq<Frame>, swap: seq<Frame>, procs: seq<Option<Pcb>>, tlb: seq<TlbEntry>,
                              f: int, p: int, now: int)
    requires Coherent(ram, swap, procs, tlb)
    requires 0 <= f < |ram| && ram[f].occupied
    requires 0 <= p < |swap| && !swap[p].occupied
    ensures ResidentAt(procs, ram[f].pid, ram[f].pageNumber, f)
    ensures Coherent(ram[f := Released(ram[f])], swap[p := Frame(ram[f].pid, ram[f].pageNumber, true, now)],
                     WithSwappedOut(procs, ram[f].pid, ram[f].pageNumber, p), Invalidated(tlb, ram[f].pid))
  {
    var pid, pg := ram[f].pid, ram[f].pageNumber;
    var s := pid - 1;
    assert ResidentAt(procs, pid, pg, f);
    var ram', swap', procs' := ram[f := Released(ram[f])], swap[p := Frame(pid, pg, true, now)], WithSwappedOut(procs, pid, pg, p);
    var tlb' := Invalidated(tlb, pid);
    forall s2 | 0 <= s2 < |procs'| && procs'[s2].Some?
      ensures procs'[s2].value.pid == s2 + 1 && TableConsistent(ram', swap', s2 + 1, procs'[s2].value.pageTable)
    {
      var t := procs'[s2].value.pageTable;
      forall j | 0 <= j < |t| ensures EntryConsistent(ram', swap', s2 + 1, j, t[j]) {
        if s2 == s && j == pg {
        } else {
          assert t[j] == procs[s2].value.pageTable[j];
          assert EntryConsistent(ram, swap, s2 + 1, j, t[j]);
        }
      }
    }
    forall g | 0 <= g < |ram'| && ram'[g].occupied
      ensures ResidentAt(procs', ram'[g].pid, ram'[g].pageNumber, g)
    {
      assert ResidentAt(procs, ram[g].pid, ram[g].pageNumber, g);
    }
    forall g | 0 <= g < |swap'| && swap'[g].occupied
      ensures SwappedAt(procs', swap'[g].pid, swap'[g].pageNumber, g)
    {
      if g != p {
        assert SwappedAt(procs, swap[g].pid, swap[g].pageNumber, g);
      }
    }
    forall k | 0 <= k < |tlb'| && tlb'[k].valid
      ensures ResidentAt(procs', tlb'[k].pid, tlb'[k].pageNumber, tlb'[k].frameNumber)
    {
      assert tlb'[k] == tlb[k];
    }
    assert AllComplete(procs') by {
      assert ProcessComplete(procs[s].value);
    }
  }

  /** Loading the page in Swap slot `p` into the free RAM frame `f`,
      releasing the slot and caching the new mapping in TLB slot `v`, keeps
      every invariant. */
  lemma {:induction false} SwapInKeepsCoherence(ram: seq<Frame>, swap: seq<Frame>, procs: seq<Option<Pcb>>, tlb: seq<TlbEntry>,
                             pid: int, pg: int, f: int, p: int, v: int, now: int)
    requires Coherent(ram, swap, procs, tlb)
    requires SwappedAt(procs, pid, pg, p)
    requires 0 <= f < |ram| && !ram[f].occupied && 0 <= v < |tlb|
    ensures 0 <= p < |swap|
    ensures Coherent(ram[f := Frame(pid, pg, true, now)], swap[p := Released(swap[p])],
                     WithSwappedIn(procs, pid, pg, f, now), tlb[v := TlbEntry(pid, pg, f, true, now)])
  {
    var s := pid - 1;
    assert EntryConsistent(ram, swap, pid, pg, procs[s].value.pageTable[pg]);
    var ram', swap', procs' := ram[f := Frame(pid, pg, true, now)], swap[p := Released(swap[p])], WithSwappedIn(procs, pid, pg, f, now);
    var tlb' := tlb[v := TlbEntry(pid, pg, f, true, now)];
    forall s2 | 0 <= s2 < |procs'| && procs'[s2].Some?
      ensures procs'[s2].value.pid == s2 + 1 && TableConsistent(ram', swap', s2 + 1, procs'[s2].value.pageTable)
    {
      var t := procs'[s2].value.pageTable;
      forall j | 0 <= j < |t| ensures EntryConsistent(ram', swap', s2 + 1, j, t[j]) {
        if s2 == s && j == pg {
        } else {
          assert t[j] == procs[s2].value.pageTable[j];
          assert EntryConsistent(ram, swap, s2 + 1, j, t[j]);
        }
      }
    }
    forall g | 0 <= g < |ram'| && ram'[g].occupied
      ensures ResidentAt(procs', ram'[g].pid, ram'[g].pageNumber, g)
    {
      if g != f {
        assert ResidentAt(procs, ram[g].pid, ram[g].pageNumber, g);
      }
    }
    forall g | 0 <= g < |swap'| && swap'[g].occupied
      ensures SwappedAt(procs', swap'[g].pid, swap'[g].pageNumber, g)
    {
      assert SwappedAt(procs, swap[g].pid, swap[g].pageNumber, g);
    }
    forall k | 0 <= k < |tlb'| && tlb'[k].valid
      ensures ResidentAt(procs', tlb'[k].pid, tlb'[k].pageNumber, tlb'[k].frameNumber)
    {
      if k != v {
        assert ResidentAt(procs, tlb[k].pid, tlb[k].pageNumber, tlb[k].frameNumber);
      }
    }
    assert AllComplete(procs') by {
      assert ProcessComplete(procs[s].value);
    }
  }

  /** Caching a resident page's true frame in any TLB slot keeps the TLB
      coherent (the IN_RAM branch of a page access). */
  lemma {:induction false} TlbInsertKeepsCoherence(tlb: seq<TlbEntry>, procs: seq<Option<Pcb>>, pid: int, pg: int, f: int, v: int, now: int)
    requires TlbCoherent(tlb, procs) && ResidentAt(procs, pid, pg, f) && 0 <= v < |tlb|
    ensures TlbCoherent(tlb[v := TlbEntry(pid, pg, f, true, now)], procs)
  {
  }

  // -------------------------------------------- process creation/removal

  /** A process still under construction in slot `s`: its page table holds
      the pages placed so far. */
  lemma {:induction false} StartPending(ram: seq<Frame>, swap: seq<Frame>, procs: seq<Option<Pcb>>, tlb: seq<TlbEntry>, s: int, p: Pcb)
    requires Ownership(ram, swap, procs) && TlbCoherent(tlb, procs)
    requires 0 <= s < |procs| && procs[s].None? && p.pid == s + 1 && p.pageTable == []
    ensures Ownership(ram, swap, procs[s := Some(p)]) && TlbCoherent(tlb, procs[s := Some(p)])
  {
    var procs' := procs[s := Some(p)];
    forall g | 0 <= g < |ram| && ram[g].occupied ensures ResidentAt(procs', ram[g].pid, ram[g].pageNumber, g) {
      assert ResidentAt(procs, ram[g].pid, ram[g].pageNumber, g);
    }
    forall g | 0 <= g < |swap| && swap[g].occupied ensures SwappedAt(procs', swap[g].pid, swap[g].pageNumber, g) {
      assert SwappedAt(procs, swap[g].pid, swap[g].pageNumber, g);
    }
    forall k | 0 <= k < |tlb| && tlb[k].valid
      ensures ResidentAt(procs', tlb[k].pid, tlb[k].pageNumber, tlb[k].frameNumber)
    {
      assert ResidentAt(procs, tlb[k].pid, tlb[k].pageNumber, tlb[k].frameNumber);
    }
  }

  /** Placing the next page of the process under construction in the free
      RAM frame `f`, and caching it in TLB slot `v`, keeps the invariants. */
  lemma {:induction false} PlaceInRamKeepsCoherence(ram: seq<Frame>, swap: seq<Frame>, procs: seq<Option<Pcb>>, tlb: seq<TlbEntry>,
                                 s: int, f: int, v: int, now: int)
    requires Ownership(ram, swap, procs) && TlbCoherent(tlb, procs)
    requires 0 <= s < |procs| && procs[s].Some?
    requires 0 <= f < |ram| && !ram[f].occupied && 0 <= v < |tlb|
    ensures var p := procs[s].value; var i := |p.pageTable|;
      var procs' := procs[s := Some(p.(pageTable := p.pageTable + [RamEntry(i, f, now)]))];
      Ownership(ram[f := Frame(s + 1, i, true, now)], swap, procs') &&
      TlbCoherent(tlb[v := TlbEntry(s + 1, i, f, true, now)], procs')
  {
    var p := procs[s].value;
    var i := |p.pageTable|;
    var t' := p.pageTable + [RamEntry(i, f, now)];
    var procs' := procs[s := Some(p.(pageTable := t'))];
    var ram' := ram[f := Frame(s + 1, i, true, now)];
    var tlb' := tlb[v := TlbEntry(s + 1, i, f, true, now)];
    forall s2 | 0 <= s2 < |procs'| && procs'[s2].Some?
      ensures procs'[s2].value.pid == s2 + 1 && TableConsistent(ram', swap, s2 + 1, procs'[s2].value.pageTable)
    {
      var t := procs'[s2].value.pageTable;
      forall j | 0 <= j < |t| ensures EntryConsistent(ram', swap, s2 + 1, j, t[j]) {
        if !(s2 == s && j == i) {
          assert t[j] == procs[s2].value.pageTable[j];
          assert EntryConsistent(ram, swap, s2 + 1, j, t[j]);
        }
      }
    }
    forall g | 0 <= g < |ram'| && ram'[g].occupied
      ensures ResidentAt(procs', ram'[g].pid, ram'[g].pageNumber, g)
    {
      if g != f {
        assert ResidentAt(procs, ram[g].pid, ram[g].pageNumber, g);
      }
    }
    forall g | 0 <= g < |swap| && swap[g].occupied
      ensures SwappedAt(procs', swap[g].pid, swap[g].pageNumber, g)
    {
      assert SwappedAt(procs, swap[g].pid, swap[g].pageNumber, g);
    }
    forall k | 0 <= k < |tlb'| && tlb'[k].valid
      ensures ResidentAt(procs', tlb'[k].pid, tlb'[k].pageNumber, tlb'[k].frameNumber)
    {
      if k != v {
        assert ResidentAt(procs, tlb[k].pid, tlb[k].pageNumber, tlb[k].frameNumber);
      }
    }
  }

  /** Placing the next page of the process under construction in the free
      Swap slot `p` keeps the invariants. */
  lemma {:induction false} PlaceInSwapKeepsCoherence(ram: seq<Frame>, swap: seq<Frame>, procs: seq<Option<Pcb>>, tlb: seq<TlbEntry>,
                                  s: int, p: int, now: int)
    requires Ownership(ram, swap, procs) && TlbCoherent(tlb, procs)
    requires 0 <= s < |procs| && procs[s].Some?
    requires 0 <= p < |swap| && !swap[p].occupied
    ensures var pcb := procs[s].value; var i := |pcb.pageTable|;
      var procs' := procs[s := Some(pcb.(pageTable := pcb.pageTable + [SwapEntry(i, p, now)]))];
      Ownership(ram, swap[p := Frame(s + 1, i, true, now)], procs') && TlbCoherent(tlb, procs')
  {
    var pcb := procs[s].value;
    var i := |pcb.pageTable|;
    var t' := pcb.pageTable + [SwapEntry(i, p, now)];
    var procs' := procs[s := Some(pcb.(pageTable := t'))];
    var swap' := swap[p := Frame(s + 1, i, true, now)];
    forall s2 | 0 <= s2 < |procs'| && procs'[s2].Some?
      ensures procs'[s2].value.pid == s2 + 1 && TableConsistent(ram, swap', s2 + 1, procs'[s2].value.pageTable)
    {
      var t := procs'[s2].value.pageTable;
      forall j | 0 <= j < |t| ensures EntryConsistent(ram, swap', s2 + 1, j, t[j]) {
        if !(s2 == s && j == i) {
          assert t[j] == procs[s2].value.pageTable[j];
          assert EntryConsistent(ram, swap, s2 + 1, j, t[j]);
        }
      }
    }
    forall g | 0 <= g < |ram| && ram[g].occupied
      ensures ResidentAt(procs', ram[g].pid, ram[g].pageNumber, g)
    {
      assert ResidentAt(procs, ram[g].pid, ram[g].pageNumber, g);
    }
    forall g | 0 <= g < |swap'| && swap'[g].occupied
      ensures SwappedAt(procs', swap'[g].pid, swap'[g].pageNumber, g)
    {
      if g != p {
        assert SwappedAt(procs, swap[g].pid, swap[g].pageNumber, g);
      }
    }
    forall k | 0 <= k < |tlb| && tlb[k].valid
      ensures ResidentAt(procs', tlb[k].pid, tlb[k].pageNumber, tlb[k].frameNumber)
    {
      assert ResidentAt(procs, tlb[k].pid, tlb[k].pageNumber, tlb[k].frameNumber);
    }
  }

  /** A frame pool after terminate_process released every frame held by
      `pid`. */
  function ReleasedOf(s: seq<Frame>, pid: int): (r: seq<Frame>)
    ensures |r| == |s|
    ensures forall f :: 0 <= f < |s| ==> !(r[f].occupied && r[f].pid == pid)
    ensures forall f :: 0 <= f < |s| && !(s[f].occupied && s[f].pid == pid) ==> r[f] == s[f]
    ensures forall f :: 0 <= f < |s| && s[f].occupied && s[f].pid == pid ==> r[f] == Released(s[f])
  {
    seq(|s|, f requires 0 <= f < |s| => if s[f].occupied && s[f].pid == pid then Released(s[f]) else s[f])
  }

  /** A frame pool part-way through terminate_process's loop: the frames
      of `pid` holding one of its first `i` pages are released. */
  function ReleasedBelow(s: seq<Frame>, pid: int, i: int): (r: seq<Frame>)
    ensures |r| == |s|
    ensures forall f :: 0 <= f < |s| ==>
      r[f] == if s[f].occupied && s[f].pid == pid && s[f].pageNumber < i then Released(s[f]) else s[f]
  {
    seq(|s|, f requires 0 <= f < |s| =>
      if s[f].occupied && s[f].pid == pid && s[f].pageNumber < i then Released(s[f]) else s[f])
  }

  /** One turn of terminate_process's loop: releasing the frame or slot
      that page `i`'s entry names releases exactly the pool entries holding
      page `i`, and an entry in neither pool releases nothing. */
  lemma {:induction false} ReleaseStep(ram: seq<Frame>, swap: seq<Frame>, procs: seq<Option<Pcb>>, s: int, i: int)
    requires Ownership(ram, swap, procs) && 0 <= s < |procs| && procs[s].Some?
    requires 0 <= i < |procs[s].value.pageTable|
    ensures var e := procs[s].value.pageTable[i];
      var ram1, swap1 := ReleasedBelow(ram, s + 1, i), ReleasedBelow(swap, s + 1, i);
      && (e.state == PageInRam ==>
            && 0 <= e.frameNumber < |ram|
            && ReleasedBelow(ram, s + 1, i + 1) == ram1[e.frameNumber := Released(ram1[e.frameNumber])])
      && (e.state != PageInRam ==> ReleasedBelow(ram, s + 1, i + 1) == ram1)
      && (e.state == PageInSwap ==>
            && 0 <= e.swapPosition < |swap|
            && ReleasedBelow(swap, s + 1, i + 1) == swap1[e.swapPosition := Released(swap1[e.swapPosition])])
      && (e.state != PageInSwap ==> ReleasedBelow(swap, s + 1, i + 1) == swap1)
  {
    var e := procs[s].value.pageTable[i];
    assert EntryConsistent(ram, swap, s + 1, i, e);
    var ram1, ram2 := ReleasedBelow(ram, s + 1, i), ReleasedBelow(ram, s + 1, i + 1);
    forall f | 0 <= f < |ram| && ram[f].occupied && ram[f].pid == s + 1 && ram[f].pageNumber == i
      ensures e.state == PageInRam && e.frameNumber == f
    {
      assert ResidentAt(procs, ram[f].pid, ram[f].pageNumber, f);
    }
    forall p | 0 <= p < |swap| && swap[p].occupied && swap[p].pid == s + 1 && swap[p].pageNumber == i
      ensures e.state == PageInSwap && e.swapPosition == p
    {
      assert SwappedAt(procs, swap[p].pid, swap[p].pageNumber, p);
    }
  }

  /** Once every page has been visited the loop has released exactly the
      frames and slots of the process. */
  lemma {:induction false} ReleasedAll(ram: seq<Frame>, swap: seq<Frame>, procs: seq<Option<Pcb>>, s: int)
    requires Ownership(ram, swap, procs) && 0 <= s < |procs| && procs[s].Some?
    ensures ReleasedBelow(ram, s + 1, |procs[s].value.pageTable|) == ReleasedOf(ram, s + 1)
    ensures ReleasedBelow(swap, s + 1, |procs[s].value.pageTable|) == ReleasedOf(swap, s + 1)
  {
    forall f | 0 <= f < |ram| && ram[f].occupied && ram[f].pid == s + 1
      ensures ram[f].pageNumber < |procs[s].value.pageTable|
    {
      assert ResidentAt(procs, ram[f].pid, ram[f].pageNumber, f);
    }
    forall p | 0 <= p < |swap| && swap[p].occupied && swap[p].pid == s + 1
      ensures swap[p].pageNumber < |procs[s].value.pageTable|
    {
      assert SwappedAt(procs, swap[p].pid, swap[p].pageNumber, p);
    }
  }

  /** Releasing every frame and slot of the process in slot `s`, dropping
      its TLB entries and emptying the slot keeps every invariant. */
  lemma {:induction false} TerminateKeepsCoherence(ram: seq<Frame>, swap: seq<Frame>, procs: seq<Option<Pcb>>, tlb: seq<TlbEntry>, s: int)
    requires Coherent(ram, swap, procs, tlb)
    requires 0 <= s < |procs| && procs[s].Some?
    ensures Coherent(ReleasedOf(ram, s + 1), ReleasedOf(swap, s + 1), procs[s := None], Invalidated(tlb, s + 1))
  {
    var ram', swap', procs' := ReleasedOf(ram, s + 1), ReleasedOf(swap, s + 1), procs[s := None];
    forall s2 | 0 <= s2 < |procs'| && procs'[s2].Some?
      ensures procs'[s2].value.pid == s2 + 1 && TableConsistent(ram', swap', s2 + 1, procs'[s2].value.pageTable)
    {
      var t := procs'[s2].value.pageTable;
      forall j | 0 <= j < |t| ensures EntryConsistent(ram', swap', s2 + 1, j, t[j]) {
        assert EntryConsistent(ram, swap, s2 + 1, j, t[j]);
      }
    }
    forall g | 0 <= g < |ram'| && ram'[g].occupied
      ensures ResidentAt(procs', ram'[g].pid, ram'[g].pageNumber, g)
    {
      assert ResidentAt(procs, ram[g].pid, ram[g].pageNumber, g);
    }
    forall g | 0 <= g < |swap'| && swap'[g].occupied
      ensures SwappedAt(procs', swap'[g].pid, swap'[g].pageNumber, g)
    {
      assert SwappedAt(procs, swap[g].pid, swap[g].pageNumber, g);
    }
    InvalidateThenDropKeepsTlb(tlb, procs, s);
  }

  /** Dropping every TLB entry of a process keeps the TLB coherent once the
      process is gone. */
  lemma {:induction false} InvalidateThenDropKeepsTlb(tlb: seq<TlbEntry>, procs: seq<Option<Pcb>>, s: int)
    requires TlbCoherent(tlb, procs) && 0 <= s < |procs|
    ensures TlbCoherent(Invalidated(tlb, s + 1), procs[s := None])
  {
    var tlb' := Invalidated(tlb, s + 1);
    forall k | 0 <= k < |tlb'| && tlb'[k].valid
      ensures ResidentAt(procs[s := None], tlb'[k].pid, tlb'[k].pageNumber, tlb'[k].frameNumber)
    {
      assert tlb'[k] == tlb[k];
      assert ResidentAt(procs, tlb[k].pid, tlb[k].pageNumber, tlb[k].frameNumber);
    }
  }

  /** In a consistent table, the only slot holding pid `p` is slot p - 1. */
  lemma {:induction false} SlotOfPid(ram: seq<Frame>, swap: seq<Frame>, procs: seq<Option<Pcb>>, s: int)
    requires TablesConsistent(ram, swap, procs) && 0 <= s < |procs| && procs[s].Some?
    ensures Live(procs, procs[s].value.pid) && procs[s].value.pid == s + 1
  {
  }

  /** Replacing a live PCB by one with the same pid, page count and page
      table (its name, state or counters changed) keeps every invariant. */
  lemma {:induction false} SameLayoutKeepsCoherence(ram: seq<Frame>, swap: seq<Frame>, procs: seq<Option<Pcb>>, tlb: seq<TlbEntry>,
                                 s: int, q: Pcb)
    requires Ownership(ram, swap, procs) && TlbCoherent(tlb, procs)
    requires 0 <= s < |procs| && procs[s].Some?
    requires q.pid == procs[s].value.pid && q.pageTable == procs[s].value.pageTable
    ensures Ownership(ram, swap, procs[s := Some(q)]) && TlbCoherent(tlb, procs[s := Some(q)])
  {
    var procs' := procs[s := Some(q)];
    forall g | 0 <= g < |ram| && ram[g].occupied ensures ResidentAt(procs', ram[g].pid, ram[g].pageNumber, g) {
      assert ResidentAt(procs, ram[g].pid, ram[g].pageNumber, g);
    }
    forall g | 0 <= g < |swap| && swap[g].occupied ensures SwappedAt(procs', swap[g].pid, swap[g].pageNumber, g) {
      assert SwappedAt(procs, swap[g].pid, swap[g].pageNumber, g);
    }
    forall k | 0 <= k < |tlb| && tlb[k].valid
      ensures ResidentAt(procs', tlb[k].pid, tlb[k].pageNumber, tlb[k].frameNumber)
    {
      assert ResidentAt(procs, tlb[k].pid, tlb[k].pageNumber, tlb[k].frameNumber);
    }
  }

  /** A process whose pages are all placed is complete. */
  lemma {:induction false} FinishKeepsComplete(procs: seq<Option<Pcb>>, s: int, p: Pcb)
    requires AllComplete(procs) && 0 <= s < |procs| && ProcessComplete(p)
    ensures AllComplete(procs[s := Some(p)])
  {
  }
}
