// Where create_process puts the pages of a new process
// (src/simulador_memoria.c:633-795): the first pages into the free RAM
// frames in ascending order, the rest into the free Swap slots in
// ascending order; and what its rollback undoes.

module Placement {

  import opened Paging
  import opened Fifo

  /** The page table create_process builds for `n` pages when the free RAM
      frames are `fr` and the free Swap slots `fs`. */
  function PlannedTable(fr: seq<int>, fs: seq<int>, n: nat, now: int): (t: seq<PageEntry>)
    requires n <= |fr| + |fs|
    ensures |t| == n
  {
    seq(n, j requires 0 <= j < n => if j < |fr| then RamEntry(j, fr[j], now) else SwapEntry(j, fs[j - |fr|], now))
  }

  /** How many of `n` pages land in RAM when `free` frames are free. */
  function RamShare(n: int, free: int): (r: int)
    ensures r <= n && r <= free
    ensures r == n || r == free
  {
    if n <= free then n else free
  }

  /** The pool `s` after frame idx[k] received page base + k of `pid`, for
      every k in order (an index outside the pool places nothing). */
  function Placed(s: seq<Frame>, idx: seq<int>, pid: int, base: int, now: int): (r: seq<Frame>)
    ensures |r| == |s|
    decreases |idx|
  {
    if idx == [] then s
    else
      var before, f := Placed(s, idx[..|idx| - 1], pid, base, now), idx[|idx| - 1];
      if 0 <= f < |s| then before[f := Frame(pid, base + |idx| - 1, true, now)] else before
  }

  /** The TLB after tlb_update cached page k of `pid` in frame fr[k], for
      every k in order. */
  function TlbInsertedAll(t: seq<TlbEntry>, pid: int, fr: seq<int>, now: int): (r: seq<TlbEntry>)
    requires |t| >= 1
    ensures |r| == |t|
    decreases |fr|
  {
    if fr == [] then t
    else
      var t1 := TlbInsertedAll(t, pid, fr[..|fr| - 1], now);
      t1[TlbVictim(t1) := TlbEntry(pid, |fr| - 1, fr[|fr| - 1], true, now)]
  }

  /** The frames (RAM when `inRam`, Swap otherwise) that the entries of
      `table` point at, in page order. */
  function HeldIndices(table: seq<PageEntry>, inRam: bool): (r: seq<int>)
    decreases |table|
  {
    if table == [] then []
    else
      var init := HeldIndices(table[..|table| - 1], inRam);
      var e := table[|table| - 1];
      if inRam && e.state == PageInRam then init + [e.frameNumber]
      else if !inRam && e.state == PageInSwap then init + [e.swapPosition]
      else init
  }

  predicate Holds(e: PageEntry, inRam: bool, f: int)
  {
    if inRam then e.state == PageInRam && e.frameNumber == f
    else e.state == PageInSwap && e.swapPosition == f
  }

  /** The rollback of create_process on a pool: every frame in `idx` is
      marked free and ownerless; its page number and load time stay. */
  function Vacated(s: seq<Frame>, idx: seq<int>): (r: seq<Frame>)
    ensures |r| == |s|
    ensures forall f :: 0 <= f < |s| && f in idx ==> !r[f].occupied && r[f].pid == -1
    ensures forall f :: 0 <= f < |s| && f !in idx ==> r[f] == s[f]
  {
    seq(|s|, f requires 0 <= f < |s| => if f in idx then s[f].(occupied := false, pid := -1) else s[f])
  }

  /** The name as create_process stores it: strncpy into a 32-byte field
      keeps at most 31 characters. */
  function StoredName(name: string): (r: string)
    ensures |r| <= 31 && r <= name
    ensures |name| <= 31 ==> r == name
  {
    if |name| <= 31 then name else name[..31]
  }

  /** The admission test of create_process: a free process slot, a
      positive size, and room in RAM and Swap together for every page. */
  predicate Admits(liveCount: int, sizeKb: int, pageSize: int, ram: seq<Frame>, swap: seq<Frame>)
    requires pageSize > 0
  {
    && liveCount < MAX_PROCESSES
    && sizeKb > 0
    && OccupiedCount(ram) + OccupiedCount(swap) + CeilPages(sizeKb, pageSize) <= |ram| + |swap|
  }


  // ------------------------------------------------- the placement loop

  /** The state of create_process's placement loop after `i` pages of `p`,
      started from pools `ram0` and `swap0`, TLB `tlb0` and queue `q0` (of
      the given capacity): `r` pages went to the first free RAM frames, the
      rest to the first free Swap slots, and the invariants hold with `p`
      (holding `table`) in its slot. */
  predicate PlacingState(p: Pcb, i: int, table: seq<PageEntry>, r: int, now: int,
                         ram: seq<Frame>, swap: seq<Frame>, tlb: seq<TlbEntry>, q: seq<int>, procs: seq<Option<Pcb>>,
                         ram0: seq<Frame>, swap0: seq<Frame>, tlb0: seq<TlbEntry>, q0: seq<int>, capacity: int)
  {
    var fr := FreeIndices(ram0);
    var fs := FreeIndices(swap0);
    && |tlb0| == |tlb| && |tlb| >= 1
    && 1 <= p.pid <= |procs| && procs[p.pid - 1].None?
    && 0 <= i <= |fr| + |fs| && r == RamShare(i, |fr|)
    && table == PlannedTable(fr, fs, i, now)
    && PoolPlaced(ram, ram0, r, p.pid, 0, now)
    && PoolPlaced(swap, swap0, i - r, p.pid, r, now)
    && tlb == TlbInsertedAll(tlb0, p.pid, fr[..r], now)
    && q == EnqueuedAll(q0, capacity, fr[..r])
    && Ownership(ram, swap, procs[p.pid - 1 := Some(p.(pageTable := table))])
    && TlbCoherent(tlb, procs[p.pid - 1 := Some(p.(pageTable := table))])
  }

  /** Pool `s` is pool `s0` after its first `k` free frames received pages
      base, base + 1, ... of `pid`; the other free frames are still free. */
  predicate PoolPlaced(s: seq<Frame>, s0: seq<Frame>, k: int, pid: int, base: int, now: int)
  {
    && |s| == |s0| && 0 <= k <= |FreeIndices(s0)|
    && FreeIndices(s0) == FreeIndices(s0)[..k] + FreeIndices(s)
    && s == Placed(s0, FreeIndices(s0)[..k], pid, base, now)
  }

  /** Before the first page the loop state holds with an empty table. */
  lemma {:induction false} PlacingInit(p: Pcb, now: int, ram: seq<Frame>, swap: seq<Frame>, tlb: seq<TlbEntry>, q: seq<int>,
                    procs: seq<Option<Pcb>>, capacity: int)
    requires Ownership(ram, swap, procs) && TlbCoherent(tlb, procs) && |tlb| >= 1
    requires 1 <= p.pid <= |procs| && procs[p.pid - 1].None? && p.pageTable == []
    ensures PlacingState(p, 0, [], 0, now, ram, swap, tlb, q, procs, ram, swap, tlb, q, capacity)
  {
    StartPending(ram, swap, procs, tlb, p.pid - 1, p);
    assert p.(pageTable := []) == p;
  }

  /** The RAM step: page i takes the first free RAM frame, the queue
      records it and the TLB caches it. */
  lemma {:induction false} PlacingRamStep(p: Pcb, i: int, table: seq<PageEntry>, r: int, now: int,
                       ram: seq<Frame>, swap: seq<Frame>, tlb: seq<TlbEntry>, q: seq<int>, procs: seq<Option<Pcb>>,
                       ram0: seq<Frame>, swap0: seq<Frame>, tlb0: seq<TlbEntry>, q0: seq<int>, capacity: int)
    requires PlacingState(p, i, table, r, now, ram, swap, tlb, q, procs, ram0, swap0, tlb0, q0, capacity)
    requires FirstFree(ram) != -1
    ensures r == i && i < |FreeIndices(ram0)| + |FreeIndices(swap0)|
    ensures var f := FirstFree(ram);
      PlacingState(p, i + 1, table + [RamEntry(i, f, now)], r + 1, now,
                   ram[f := Frame(p.pid, i, true, now)], swap,
                   tlb[TlbVictim(tlb) := TlbEntry(p.pid, i, f, true, now)], Enqueued(q, capacity, f), procs,
                   ram0, swap0, tlb0, q0, capacity)
  {
    var fr, fs := FreeIndices(ram0), FreeIndices(swap0);
    var s := p.pid - 1;
    var pend := procs[s := Some(p.(pageTable := table))];
    assert r < |fr| && r == i;
    PoolStep(ram0, ram, r, r + 1, p.pid, 0, i, now);
    PoolRebase(swap0, swap, i - r, i + 1 - (r + 1), p.pid, r, r + 1, now);
    var f := FirstFree(ram);
    var table' := table + [RamEntry(i, f, now)];
    PlannedTableSnoc(fr, fs, i, now);
    PlaceInRamKeepsCoherence(ram, swap, pend, tlb, s, f, TlbVictim(tlb), now);
    assert pend[s := Some(p.(pageTable := table'))] == procs[s := Some(p.(pageTable := table'))];
    assert fr[..r + 1][..r] == fr[..r];
    var ram', tlb' := ram[f := Frame(p.pid, i, true, now)], tlb[TlbVictim(tlb) := TlbEntry(p.pid, i, f, true, now)];
    assert PlacingState(p, i + 1, table', r + 1, now, ram', swap, tlb', Enqueued(q, capacity, f), procs,
                        ram0, swap0, tlb0, q0, capacity);
  }

  /** The Swap step: with RAM full, page i takes the first free Swap slot. */
  lemma {:induction false} PlacingSwapStep(p: Pcb, i: int, table: seq<PageEntry>, r: int, now: int,
                        ram: seq<Frame>, swap: seq<Frame>, tlb: seq<TlbEntry>, q: seq<int>, procs: seq<Option<Pcb>>,
                        ram0: seq<Frame>, swap0: seq<Frame>, tlb0: seq<TlbEntry>, q0: seq<int>, capacity: int)
    requires PlacingState(p, i, table, r, now, ram, swap, tlb, q, procs, ram0, swap0, tlb0, q0, capacity)
    requires FirstFree(ram) == -1 && FirstFree(swap) != -1
    ensures i < |FreeIndices(ram0)| + |FreeIndices(swap0)|
    ensures var g := FirstFree(swap);
      PlacingState(p, i + 1, table + [SwapEntry(i, g, now)], r, now,
                   ram, swap[g := Frame(p.pid, i, true, now)], tlb, q, procs,
                   ram0, swap0, tlb0, q0, capacity)
  {
    var fr, fs := FreeIndices(ram0), FreeIndices(swap0);
    var s := p.pid - 1;
    var pend := procs[s := Some(p.(pageTable := table))];
    assert FreeIndices(ram) == [] && r == |fr| && i >= |fr|;
    PoolStep(swap0, swap, i - r, i + 1 - r, p.pid, r, i, now);
    var g := FirstFree(swap);
    var table' := table + [SwapEntry(i, g, now)];
    PlannedTableSnoc(fr, fs, i, now);
    PlaceInSwapKeepsCoherence(ram, swap, pend, tlb, s, g, now);
    assert pend[s := Some(p.(pageTable := table'))] == procs[s := Some(p.(pageTable := table'))];
  }

  /** One placement in a pool: the k-th free frame of the starting pool is
      the first free frame now, and occupying it with page `page` extends
      the placement by one. */
  lemma {:induction false} PoolStep(s0: seq<Frame>, s: seq<Frame>, k: int, k': int, pid: int, base: int,
                                    page: int, now: int)
    requires PoolPlaced(s, s0, k, pid, base, now) && k < |FreeIndices(s0)|
    requires k' == k + 1 && page == base + k
    ensures FirstFree(s) == FreeIndices(s0)[k]
    ensures PoolPlaced(s[FreeIndices(s0)[k] := Frame(pid, page, true, now)], s0, k', pid, base, now)
  {
    var free := FreeIndices(s0);
    FreeAfterStep(free, FreeIndices(s), k);
    OccupyFirstFree(s, Frame(pid, page, true, now));
    PlacedSnoc(s0, free, k, pid, base, now);
  }

  /** The free list seen as `taken + rest`: the next free frame is rest[0],
      and taking it moves it from rest to taken. */
  lemma {:induction false} FreeAfterStep(free: seq<int>, rest: seq<int>, k: int)
    requires 0 <= k < |free| && free == free[..k] + rest
    ensures rest != [] && rest[0] == free[k]
    ensures free == free[..k + 1] + rest[1..]
  {
    assert rest[0] == (free[..k] + rest)[k];
    assert free[..k + 1] == free[..k] + [rest[0]];
    assert rest == [rest[0]] + rest[1..];
  }

  /** Placing one index more. */
  lemma {:induction false} PlacedSnoc(s0: seq<Frame>, idx: seq<int>, k: int, pid: int, base: int, now: int)
    requires 0 <= k < |idx| && 0 <= idx[k] < |s0|
    ensures Placed(s0, idx[..k + 1], pid, base, now) ==
      Placed(s0, idx[..k], pid, base, now)[idx[k] := Frame(pid, base + k, true, now)]
  {
    assert idx[..k + 1][..k] == idx[..k];
  }

  /** Nothing placed yet: the first page number does not matter. */
  lemma {:induction false} PoolRebase(s0: seq<Frame>, s: seq<Frame>, k: int, k': int, pid: int, base: int,
                                      base': int, now: int)
    requires PoolPlaced(s, s0, k, pid, base, now) && k == 0 && k' == 0
    ensures PoolPlaced(s, s0, k', pid, base', now)
  {
    assert FreeIndices(s0)[..0] == [];
  }

  /** With RAM and Swap both full, every free frame and slot has been used:
      the loop has placed as many pages as there were, and the table it
      built points at all of them. */
  lemma {:induction false} PlacingFull(p: Pcb, i: int, table: seq<PageEntry>, r: int, now: int,
                    ram: seq<Frame>, swap: seq<Frame>, tlb: seq<TlbEntry>, q: seq<int>, procs: seq<Option<Pcb>>,
                    ram0: seq<Frame>, swap0: seq<Frame>, tlb0: seq<TlbEntry>, q0: seq<int>, capacity: int)
    requires PlacingState(p, i, table, r, now, ram, swap, tlb, q, procs, ram0, swap0, tlb0, q0, capacity)
    requires FirstFree(ram) == -1 && FirstFree(swap) == -1
    ensures var fr := FreeIndices(ram0);
      var fs := FreeIndices(swap0);
      && i == |fr| + |fs| && r == |fr|
      && HeldIndices(table, true) == fr && HeldIndices(table, false) == fs
      && ram == Placed(ram0, fr, p.pid, 0, now)
      && swap == Placed(swap0, fs, p.pid, |fr|, now)
      && tlb == TlbInsertedAll(tlb0, p.pid, fr, now)
      && q == EnqueuedAll(q0, capacity, fr)
      && forall j :: 0 <= j < |table| ==>
           && (table[j].state == PageInRam ==> 0 <= table[j].frameNumber < |ram|)
           && (table[j].state == PageInSwap ==> 0 <= table[j].swapPosition < |swap|)
  {
    var fr := FreeIndices(ram0);
    var fs := FreeIndices(swap0);
    assert FreeIndices(ram) == [] && FreeIndices(swap) == [];
    PlannedHeld(fr, fs, i, now);
    PlannedTableBounds(fr, fs, i, now, |ram|, |swap|);
    assert fr[..r] == fr && fs[..i - r] == fs;
  }

  // ------------------------------------------------------------- lemmas

  /** A plan built from in-range frame lists points only at frames and
      slots that exist. */
  lemma {:induction false} PlannedTableBounds(fr: seq<int>, fs: seq<int>, n: nat, now: int, ramFrames: int, swapSlots: int)
    requires n <= |fr| + |fs|
    requires forall k :: 0 <= k < |fr| ==> 0 <= fr[k] < ramFrames
    requires forall k :: 0 <= k < |fs| ==> 0 <= fs[k] < swapSlots
    ensures var t := PlannedTable(fr, fs, n, now);
      forall j :: 0 <= j < n ==>
        && (t[j].state == PageInRam ==> 0 <= t[j].frameNumber < ramFrames)
        && (t[j].state == PageInSwap ==> 0 <= t[j].swapPosition < swapSlots)
  {
    var t := PlannedTable(fr, fs, n, now);
    forall j | 0 <= j < n
      ensures t[j] == if j < |fr| then RamEntry(j, fr[j], now) else SwapEntry(j, fs[j - |fr|], now)
    {
    }
  }

  /** One more step of the placement loop. */
  lemma {:induction false} PlannedTableSnoc(fr: seq<int>, fs: seq<int>, i: nat, now: int)
    requires i < |fr| + |fs|
    ensures PlannedTable(fr, fs, i + 1, now) == PlannedTable(fr, fs, i, now) +
      [if i < |fr| then RamEntry(i, fr[i], now) else SwapEntry(i, fs[i - |fr|], now)]
  {
  }

  /** One more step of the rollback loop. */
  lemma {:induction false} VacatedSnoc(s: seq<Frame>, idx: seq<int>, x: int)
    requires 0 <= x < |s|
    ensures Vacated(s, idx + [x]) == Vacated(s, idx)[x := Vacated(s, idx)[x].(occupied := false, pid := -1)]
  {
  }

  /** The frames held by a table one entry longer. */
  lemma {:induction false} HeldSnoc(table: seq<PageEntry>, e: PageEntry, inRam: bool)
    ensures HeldIndices(table + [e], inRam) ==
      HeldIndices(table, inRam) + (if inRam && e.state == PageInRam then [e.frameNumber]
                                   else if !inRam && e.state == PageInSwap then [e.swapPosition] else [])
  {
    assert (table + [e])[..|table|] == table;
  }

  /** Placing pages at distinct indices: frame idx[k] holds page base + k,
      every other frame is untouched. */
  lemma {:induction false} PlacedSpec(s: seq<Frame>, idx: seq<int>, pid: int, base: int, now: int)
    requires forall k :: 0 <= k < |idx| ==> 0 <= idx[k] < |s|
    requires forall a, b :: 0 <= a < b < |idx| ==> idx[a] != idx[b]
    ensures var r := Placed(s, idx, pid, base, now);
      && (forall k :: 0 <= k < |idx| ==> r[idx[k]] == Frame(pid, base + k, true, now))
      && (forall f :: 0 <= f < |s| && f !in idx ==> r[f] == s[f])
    decreases |idx|
  {
    if idx != [] {
      var m := |idx| - 1;
      var init := idx[..m];
      var r0 := Placed(s, init, pid, base, now);
      var r := Placed(s, idx, pid, base, now);
      assert r == r0[idx[m] := Frame(pid, base + m, true, now)];
      PlacedSpec(s, init, pid, base, now);
      forall k | 0 <= k < |idx| ensures r[idx[k]] == Frame(pid, base + k, true, now) {
        if k < m {
          assert init[k] == idx[k] && idx[k] != idx[m];
        }
      }
      forall f | 0 <= f < |s| && f !in idx ensures r[f] == s[f] {
        assert idx == init + [idx[m]];
        assert f != idx[m] && f !in init;
      }
    }
  }

  /** The plan fills RAM first: page j is in RAM exactly when j is below
      the number of free RAM frames, every page is in RAM or in Swap, and
      the process ends up with pages in Swap exactly when there were fewer
      free RAM frames than pages. */
  lemma {:induction false} PlannedTableShape(fr: seq<int>, fs: seq<int>, n: nat, now: int)
    requires n <= |fr| + |fs|
    ensures var t := PlannedTable(fr, fs, n, now);
      && (forall j :: 0 <= j < n ==> (t[j].state == PageInRam <==> j < RamShare(n, |fr|)))
      && (forall j :: 0 <= j < n ==> t[j].state == PageInRam || t[j].state == PageInSwap)
      && ((exists j :: 0 <= j < n && t[j].state == PageInSwap) <==> RamShare(n, |fr|) < n)
  {
    var t := PlannedTable(fr, fs, n, now);
    forall j | 0 <= j < n
      ensures t[j] == if j < |fr| then RamEntry(j, fr[j], now) else SwapEntry(j, fs[j - |fr|], now)
    {
    }
    if RamShare(n, |fr|) < n {
      assert t[n - 1].state == PageInSwap;
    }
  }

  /** The RAM frames a finished plan holds are the first RamShare free
      frames, and its Swap slots the first n - RamShare free slots. */
  lemma {:induction false} PlannedHeld(fr: seq<int>, fs: seq<int>, n: nat, now: int)
    requires n <= |fr| + |fs|
    ensures HeldIndices(PlannedTable(fr, fs, n, now), true) == fr[..RamShare(n, |fr|)]
    ensures HeldIndices(PlannedTable(fr, fs, n, now), false) == fs[..n - RamShare(n, |fr|)]
    decreases n
  {
    if n > 0 {
      PlannedHeld(fr, fs, n - 1, now);
      if n - 1 < |fr| {
        assert RamShare(n - 1, |fr|) == n - 1 && RamShare(n, |fr|) == n;
        HeldRamStep(fr, fs, n - 1, now);
      } else {
        assert RamShare(n - 1, |fr|) == |fr| && RamShare(n, |fr|) == |fr|;
        HeldSwapStep(fr, fs, n - 1, n - 1 - |fr|, now);
      }
    }
  }

  /** A page placed in RAM adds its frame to the RAM list. */
  lemma {:induction false} HeldRamStep(fr: seq<int>, fs: seq<int>, i: nat, now: int)
    requires i < |fr|
    requires HeldIndices(PlannedTable(fr, fs, i, now), true) == fr[..i]
    requires HeldIndices(PlannedTable(fr, fs, i, now), false) == []
    ensures HeldIndices(PlannedTable(fr, fs, i + 1, now), true) == fr[..i + 1]
    ensures HeldIndices(PlannedTable(fr, fs, i + 1, now), false) == []
  {
    var prev, e := PlannedTable(fr, fs, i, now), RamEntry(i, fr[i], now);
    PlannedTableSnoc(fr, fs, i, now);
    HeldSnoc(prev, e, true);
    HeldSnoc(prev, e, false);
    assert fr[..i + 1] == fr[..i] + [fr[i]];
  }

  /** With RAM exhausted, a page placed in Swap adds its slot to the Swap
      list. */
  lemma {:induction false} HeldSwapStep(fr: seq<int>, fs: seq<int>, i: nat, k: int, now: int)
    requires k == i - |fr| && 0 <= k < |fs|
    requires HeldIndices(PlannedTable(fr, fs, i, now), true) == fr
    requires HeldIndices(PlannedTable(fr, fs, i, now), false) == fs[..k]
    ensures HeldIndices(PlannedTable(fr, fs, i + 1, now), true) == fr
    ensures HeldIndices(PlannedTable(fr, fs, i + 1, now), false) == fs[..k + 1]
  {
    var prev, e := PlannedTable(fr, fs, i, now), SwapEntry(i, fs[k], now);
    PlannedTableSnoc(fr, fs, i, now);
    HeldSnoc(prev, e, true);
    HeldSnoc(prev, e, false);
    assert fs[..k + 1] == fs[..k] + [fs[k]];
  }

  /** FreeIndices depends only on which frames are occupied. */
  lemma {:induction false} FreeIndicesByOccupancy(s: seq<Frame>, u: seq<Frame>)
    requires |s| == |u| && forall f :: 0 <= f < |s| ==> s[f].occupied == u[f].occupied
    ensures FreeIndices(s) == FreeIndices(u)
    decreases |s|
  {
    if s != [] {
      FreeIndicesByOccupancy(s[..|s| - 1], u[..|u| - 1]);
    }
  }

  /** The rollback gives back exactly what the placement took: vacating the
      frames a placement filled leaves the same free frames as before. */
  lemma {:induction false} RollbackRestoresFree(s: seq<Frame>, idx: seq<int>, pid: int, base: int, now: int)
    requires forall k :: 0 <= k < |idx| ==> 0 <= idx[k] < |s| && !s[idx[k]].occupied
    requires forall a, b :: 0 <= a < b < |idx| ==> idx[a] != idx[b]
    ensures FreeIndices(Vacated(Placed(s, idx, pid, base, now), idx)) == FreeIndices(s)
  {
    var p := Placed(s, idx, pid, base, now);
    var v := Vacated(p, idx);
    PlacedSpec(s, idx, pid, base, now);
    forall f | 0 <= f < |s| ensures v[f].occupied == s[f].occupied {
      if f in idx {
        var k :| 0 <= k < |idx| && idx[k] == f;
      }
    }
    FreeIndicesByOccupancy(v, s);
  }
}
