// The process scheduler and resource simulator of src/simulador_procesos.c
// as a class whose methods update the process table, the resource pool,
// the mailbox, the semaphores and the log in place.

module Scheduler {

  import opened Processes

  /** The parts of the scheduler's state a termination changes, as a
      value: the process table, the pool, the CPU, the log and the
      completion counters. */
  datatype Accounts = Accounts(
    processes: seq<Pcb>, available: Resources, runningPid: int, logs: seq<LogEntry>,
    totalCompleted: int, totalWaitingTime: int, totalTurnaroundTime: int)

  // ------------------------------------------------ one step, as values

  /** The process `runningPid` names is RUNNING (under the numbering
      invariant, find_process_by_pid finds it in slot runningPid - 1). */
  predicate RunsCpu(b: Accounts)
  {
    1 <= b.runningPid <= |b.processes| && b.processes[b.runningPid - 1].state == Running
  }

  /** The books after the RUNNING process in slot `idx` has worked one unit
      of execute_step at time `now`: under Round Robin an expired quantum
      with work left gives back what it holds and makes it READY with a
      fresh quantum; otherwise no work left terminates it normally;
      otherwise it keeps running. */
  function AfterUnit(b: Accounts, idx: int, algorithm: Algorithm, quantum: int, now: int): (r: Accounts)
    requires 0 <= idx < |b.processes|
    ensures |r.processes| == |b.processes|
    ensures forall i :: 0 <= i < |b.processes| && i != idx ==> r.processes[i] == b.processes[i]
    ensures r.processes[idx].pid == b.processes[idx].pid
    ensures r.processes[idx].remainingTime == b.processes[idx].remainingTime - 1
    ensures r.runningPid == -1 || r.runningPid == b.runningPid
    ensures b.processes[idx].state == Running ==>
      && (r.processes[idx].state == Terminated <==> r.totalCompleted == b.totalCompleted + 1)
      && (r.processes[idx].state != Terminated ==> r.totalCompleted == b.totalCompleted)
  {
    var w := Worked(b.processes[idx], algorithm);
    var worked := Logged(b.logs, LogEntry(now, w.pid, Executing(w.remainingTime)));
    var released := Logged(worked, LogEntry(now, w.pid, ResourcesReleased(w.allocation)));
    if Preempts(w, algorithm) then
      b.(processes := b.processes[idx := w.(allocation := NoResources, state := Ready, quantumRemaining := quantum)],
         available := Plus(b.available, w.allocation), runningPid := -1,
         logs := Logged(released, LogEntry(now, w.pid, QuantumExpired)))
    else if w.remainingTime <= 0 then
      Accounts(b.processes[idx := Finished(w, Normal, now)], Plus(b.available, w.allocation), -1,
               Logged(released, LogEntry(now, w.pid, ProcessTerminated(Normal, now - w.arrivalTime, w.waitingTime))),
               b.totalCompleted + 1, b.totalWaitingTime + w.waitingTime, b.totalTurnaroundTime + (now - w.arrivalTime))
    else
      b.(processes := b.processes[idx := w], logs := worked)
  }

  /** A unit of work moves resources only between the process and the
      pool: what is available plus what is held stays the same. */
  lemma {:induction false} AfterUnitConserves(b: Accounts, idx: int, algorithm: Algorithm, quantum: int, now: int)
    requires 0 <= idx < |b.processes|
    ensures var r := AfterUnit(b, idx, algorithm, quantum, now);
      && r.available.cpu + Held(r.processes).cpu == b.available.cpu + Held(b.processes).cpu
      && r.available.memoryBlocks + Held(r.processes).memoryBlocks
         == b.available.memoryBlocks + Held(b.processes).memoryBlocks
  {
    var r := AfterUnit(b, idx, algorithm, quantum, now);
    HeldUpdate(b.processes, idx, r.processes[idx]);
    assert r.processes == b.processes[idx := r.processes[idx]];
  }

  /** The first part of execute_step: the process `runningPid` names, when
      it is RUNNING, works one unit; otherwise nothing changes. */
  function AfterRun(b: Accounts, algorithm: Algorithm, quantum: int, now: int): (r: Accounts)
    ensures |r.processes| == |b.processes|
    ensures !RunsCpu(b) ==> r == b
    ensures RunsCpu(b) ==>
      r.processes[b.runningPid - 1].remainingTime == b.processes[b.runningPid - 1].remainingTime - 1
  {
    if RunsCpu(b) then AfterUnit(b, b.runningPid - 1, algorithm, quantum, now) else b
  }

  /** The last preempted pid after the first part of execute_step: the
      pid of the RUNNING process if its quantum ran out with work left. */
  function PreemptedAfterRun(b: Accounts, algorithm: Algorithm, lastPreempted: int): (r: int)
    ensures r != lastPreempted ==> RunsCpu(b) && algorithm == RoundRobin && r == b.processes[b.runningPid - 1].pid
  {
    if RunsCpu(b) && Preempts(Worked(b.processes[b.runningPid - 1], algorithm), algorithm)
    then b.processes[b.runningPid - 1].pid
    else lastPreempted
  }

  /** execute_step up to the hand-over of the CPU: the run, then READY and
      WAITING processes wait one unit more. */
  function Ticked(b: Accounts, algorithm: Algorithm, quantum: int, now: int): (r: Accounts)
    ensures |r.processes| == |b.processes|
    ensures forall i :: 0 <= i < |b.processes| && !(RunsCpu(b) && i == b.runningPid - 1) ==>
      r.processes[i] == Aged(b.processes[i])
    ensures r.available == AfterRun(b, algorithm, quantum, now).available
    ensures r.runningPid == AfterRun(b, algorithm, quantum, now).runningPid
  {
    var a := AfterRun(b, algorithm, quantum, now);
    a.(processes := AgedAll(a.processes))
  }

  /** The books after select_next_process hands the idle CPU to the READY
      process in slot `c` (none when `c` is -1) at time `now`: one that
      already holds a CPU runs; one whose request is covered by the pool
      is granted what it needs (added to what it holds) and runs; otherwise it is denied and
      becomes WAITING. */
  function AfterDispatch(b: Accounts, c: int, now: int): (r: Accounts)
    requires -1 <= c < |b.processes|
    ensures |r.processes| == |b.processes|
    ensures forall i :: 0 <= i < |b.processes| && i != c ==> r.processes[i] == b.processes[i]
    ensures r.totalCompleted == b.totalCompleted && r.totalWaitingTime == b.totalWaitingTime
    ensures r.totalTurnaroundTime == b.totalTurnaroundTime
    ensures r.runningPid != b.runningPid ==>
      0 <= c && r.runningPid == b.processes[c].pid && r.processes[c].state == Running
  {
    if c == -1 then b
    else
      var p := b.processes[c];
      if p.allocation.cpu != 0 then
        b.(processes := b.processes[c := p.(state := Running)], runningPid := p.pid,
           logs := Logged(b.logs, LogEntry(now, p.pid, NowRunning)))
      else if Covers(b.available, p.needed) then
        b.(processes := b.processes[c := p.(allocation := Plus(p.allocation, p.needed), state := Running)],
           available := Minus(b.available, p.needed), runningPid := p.pid,
           logs := Logged(Logged(b.logs, LogEntry(now, p.pid, ResourcesGranted(p.needed))),
                          LogEntry(now, p.pid, NowRunning)))
      else
        b.(processes := b.processes[c := p.(state := Waiting)],
           logs := Logged(b.logs, LogEntry(now, p.pid, RequestDenied)))
  }

  /** A dispatch moves resources only between the chosen process and the
      pool: what is available plus what is held stays the same. */
  lemma {:induction false} AfterDispatchConserves(b: Accounts, c: int, now: int)
    requires -1 <= c < |b.processes|
    ensures var r := AfterDispatch(b, c, now);
      && r.available.cpu + Held(r.processes).cpu == b.available.cpu + Held(b.processes).cpu
      && r.available.memoryBlocks + Held(r.processes).memoryBlocks
         == b.available.memoryBlocks + Held(b.processes).memoryBlocks
  {
    if c != -1 {
      var p := b.processes[c];
      var r := AfterDispatch(b, c, now);
      HeldUpdate(b.processes, c, r.processes[c]);
      assert r.processes == b.processes[c := r.processes[c]];
      if p.allocation.cpu == 0 && Covers(b.available, p.needed) {
        assert r.available == Minus(b.available, p.needed) && r.processes[c].allocation == Plus(p.allocation, p.needed);
      } else {
        assert r.available == b.available && r.processes[c].allocation == p.allocation;
      }
    }
  }

  class System {
    /** The process table: the first process_count slots of the source's
        fixed table, as a list that only grows at its end. */
    var processes: seq<Pcb>
    var nextPid: int
    var available: Resources
    const total: Resources
    const messages: array<Message>
    var messageCount: MessageCount
    /** The semaphore table as parallel arrays: value, queue length, and
        in row s the pids blocked on semaphore s, oldest first. */
    const semValues: array<int>
    const waitingCounts: array<QueueLength>
    const waitingPids: array2<int>
    var semaphoreCount: SemaphoreCount
    var algorithm: Algorithm
    var quantum: int
    var currentTime: int
    var runningPid: int
    var lastPreemptedPid: int
    var logs: Log
    var totalCompleted: int
    var totalWaitingTime: int
    var totalTurnaroundTime: int
    var cpuBusyTime: int

    /** The messages stored so far. */
    ghost function Mailbox(): seq<Message>
      reads this`messageCount, messages
    {
      if 0 <= messageCount <= messages.Length then messages[..messageCount] else []
    }

    /** The current accounts. */
    ghost function Books(): Accounts
      reads this`processes, this`available, this`runningPid, this`logs
      reads this`totalCompleted, this`totalWaitingTime, this`totalTurnaroundTime
    {
      Accounts(processes, available, runningPid, logs, totalCompleted, totalWaitingTime, totalTurnaroundTime)
    }

    /** The pids blocked on semaphore `s`, oldest first. */
    ghost function WaitQueue(s: int): seq<int>
      reads waitingCounts, waitingPids
    {
      if 0 <= s < waitingCounts.Length && s < waitingPids.Length0
         && 0 <= waitingCounts[s] <= waitingPids.Length1
      then seq(waitingCounts[s], k reads waitingPids requires 0 <= k < waitingPids.Length1 => waitingPids[s, k])
      else []
    }

    /** The fixed shapes of the tables. */
    ghost predicate Shape()
    {
      && messages.Length == MAX_MESSAGES
      && semValues.Length == MAX_SEMAPHORES && waitingCounts.Length == MAX_SEMAPHORES
      && waitingPids.Length0 == MAX_SEMAPHORES && waitingPids.Length1 == MAX_PROCESSES
      && total == Resources(MAX_CPU, MAX_MEMORY_BLOCKS)
    }

    /** The pid layout: pids are handed out as 1, 2, 3, ... and never
        reused, so pid p sits in slot p - 1. */
    ghost predicate Pids()
      reads this`processes, this`nextPid, this`runningPid
    {
      && |processes| <= MAX_PROCESSES && nextPid == |processes| + 1
      && Numbered(processes)
      && (runningPid == -1 || 1 <= runningPid <= |processes|)
    }

    /** Conservation: what is available plus what the processes hold is
        the total, in both components. */
    ghost predicate Conserved()
      reads this`available, this`processes
    {
      && available.cpu + Held(processes).cpu == total.cpu
      && available.memoryBlocks + Held(processes).memoryBlocks == total.memoryBlocks
    }

    /** The CPU is never over-committed and every process behaves. */
    ghost predicate Disciplined()
      reads this`available, this`processes, this`runningPid
    {
      && available.cpu >= 0
      && AllBehaved(processes, runningPid)
    }

    /** The invariant of the process table, the pool and the CPU; the
        counters and the log are kept within their tables by their types. */
    ghost predicate Valid()
      reads this`processes, this`nextPid, this`runningPid, this`available, this`logs
    {
      Shape() && Pids() && Conserved() && Disciplined()
    }

    /** init_system. The algorithm starts as FCFS, the zero value of the
        global; the producer/consumer buffer is left out. */
    constructor ()
      ensures Valid()
      ensures processes == [] && Mailbox() == [] && semaphoreCount == 0
      ensures available == total == Resources(MAX_CPU, MAX_MEMORY_BLOCKS)
      ensures algorithm == Fcfs && quantum == 2 && currentTime == 0
      ensures runningPid == -1 && lastPreemptedPid == -1
      ensures totalCompleted == 0 && totalWaitingTime == 0 && totalTurnaroundTime == 0 && cpuBusyTime == 0
      ensures logs == [LogEntry(0, -1, SystemInitialized)]
    {
      processes := [];
      messages := new Message[MAX_MESSAGES](_ => EmptyMessage);
      semValues := new int[MAX_SEMAPHORES](_ => 0);
      waitingCounts := new QueueLength[MAX_SEMAPHORES](_ => 0);
      waitingPids := new int[MAX_SEMAPHORES, MAX_PROCESSES]((_, _) => 0);
      nextPid := 1;
      available := Resources(MAX_CPU, MAX_MEMORY_BLOCKS);
      total := Resources(MAX_CPU, MAX_MEMORY_BLOCKS);
      messageCount := 0;
      semaphoreCount := 0;
      algorithm := Fcfs;
      currentTime := 0;
      runningPid := -1;
      totalCompleted := 0;
      totalWaitingTime := 0;
      totalTurnaroundTime := 0;
      cpuBusyTime := 0;
      quantum := 2;
      lastPreemptedPid := -1;
      logs := [LogEntry(0, -1, SystemInitialized)];
    }

    /** find_process_by_pid: the slot of `pid` among the live ones, or -1. */
    static method FindProcessByPid(table: seq<Pcb>, pid: int) returns (idx: int)
      requires Numbered(table)
      ensures idx == if 1 <= pid <= |table| then pid - 1 else -1
    {
      for i := 0 to |table|
        invariant !(1 <= pid <= i)
      {
        if table[i].pid == pid {
          return i;
        }
      }
      return -1;
    }

    /** create_process: appends a READY process with the next pid, needing
        one CPU and `memoryBlocks` blocks and holding nothing. A negative
        block count is accepted, as in the source. */
    method CreateProcess(burstTime: int, priority: int, memoryBlocks: int) returns (pid: int)
      requires Valid()
      modifies this`nextPid, this`processes, this`logs
      ensures Valid()
      ensures pid == -1 <==> |old(processes)| >= MAX_PROCESSES || memoryBlocks > MAX_MEMORY_BLOCKS
      ensures pid == -1 ==> processes == old(processes) && nextPid == old(nextPid) && logs == old(logs)
      ensures pid != -1 ==> pid == old(nextPid) && nextPid == pid + 1
      ensures pid != -1 ==>
        processes == old(processes) + [Fresh(pid, burstTime, priority, memoryBlocks, currentTime, quantum)]
      ensures pid != -1 ==>
        logs == Logged(old(logs), LogEntry(currentTime, pid, ProcessCreated(burstTime, priority, memoryBlocks)))
      // pids strictly increase
      ensures pid != -1 ==> forall i :: 0 <= i < |old(processes)| ==> processes[i].pid < pid
    {
      if |processes| >= MAX_PROCESSES || memoryBlocks > MAX_MEMORY_BLOCKS {
        return -1;
      }
      pid := nextPid;
      var p := Fresh(pid, burstTime, priority, memoryBlocks, currentTime, quantum);
      // the log entry does not depend on the table, so it is written first
      logs := Logged(logs, LogEntry(currentTime, pid, ProcessCreated(burstTime, priority, memoryBlocks)));
      Appended(processes, runningPid, p);
      processes, nextPid := processes + [p], nextPid + 1;
    }

    /** request_resources: grants `req` to a known process exactly when it
        fits in what is available, moving it from the pool to the process;
        a denial only marks the process WAITING. The second availability
        test in the source repeats check_deadlock_prevention, so its
        fall-through branch never runs and is not modelled. */
    method RequestResources(pid: int, req: Resources) returns (granted: bool)
      requires Pids() && Conserved()
      modifies this`available, this`logs, this`processes
      ensures Pids() && Conserved()
      ensures granted <==> 1 <= pid <= |old(processes)| && Covers(old(available), req)
      ensures !(1 <= pid <= |old(processes)|) ==>
        processes == old(processes) && available == old(available) && logs == old(logs)
      ensures 1 <= pid <= |old(processes)| && !granted ==>
        && processes == old(processes)[pid - 1 := old(processes)[pid - 1].(state := Waiting)]
        && available == old(available)
        && logs == Logged(old(logs), LogEntry(currentTime, pid, RequestDenied))
      ensures granted ==>
        var p := old(processes)[pid - 1];
        && processes == old(processes)[pid - 1 := p.(allocation := Plus(p.allocation, req))]
        && available == Minus(old(available), req)
        && logs == Logged(old(logs), LogEntry(currentTime, pid, ResourcesGranted(req)))
    {
      var idx := FindProcessByPid(processes, pid);
      if idx == -1 {
        return false;
      }
      if !Covers(available, req) {
        logs := Logged(logs, LogEntry(currentTime, pid, RequestDenied));
        var p := processes[idx].(state := Waiting);
        HeldUpdate(processes, idx, p);
        processes := processes[idx := p];
        return false;
      }
      var p := processes[idx].(allocation := Plus(processes[idx].allocation, req));
      available := Minus(available, req);
      HeldUpdate(processes, idx, p);
      processes := processes[idx := p];
      logs := Logged(logs, LogEntry(currentTime, pid, ResourcesGranted(req)));
      return true;
    }

    /** release_resources: a known process gives back everything it holds. */
    method ReleaseResources(pid: int)
      requires Pids() && Conserved()
      modifies this`available, this`logs, this`processes
      ensures Pids() && Conserved()
      ensures !(1 <= pid <= |old(processes)|) ==>
        processes == old(processes) && available == old(available) && logs == old(logs)
      ensures 1 <= pid <= |old(processes)| ==> Released(old(Books()), pid - 1)
    {
      var idx := FindProcessByPid(processes, pid);
      if idx == -1 {
        return;
      }
      ReleaseAt(idx);
    }

    /** What release_resources does to the process in slot `idx`: its
        allocation goes back to the pool, with one log entry. */
    ghost predicate Released(before: Accounts, idx: int)
      requires 0 <= idx < |before.processes|
      reads this`processes, this`available, this`logs, this`currentTime
    {
      var p := before.processes[idx];
      && processes == before.processes[idx := p.(allocation := NoResources)]
      && available == Plus(before.available, p.allocation)
      && logs == Logged(before.logs, LogEntry(currentTime, p.pid, ResourcesReleased(p.allocation)))
    }

    /** The body of release_resources once the process is found. */
    method ReleaseAt(idx: int)
      requires Pids() && Conserved() && 0 <= idx < |processes|
      modifies this`available, this`logs, this`processes
      ensures Pids() && Conserved()
      ensures Released(old(Books()), idx)
    {
      var held := processes[idx].allocation;
      available := Plus(available, held);
      logs := Logged(logs, LogEntry(currentTime, processes[idx].pid, ResourcesReleased(held)));
      var p := processes[idx].(allocation := NoResources);
      HeldUpdate(processes, idx, p);
      processes := processes[idx := p];
    }

    /** suspend_process: a known, unterminated process becomes WAITING and
        keeps what it holds; the CPU is marked idle if it was RUNNING. */
    method SuspendProcess(pid: int)
      requires Valid()
      modifies this`runningPid, this`logs, this`processes
      ensures Valid()
      ensures !(1 <= pid <= |old(processes)|) || old(processes)[pid - 1].state == Terminated ==>
        processes == old(processes) && runningPid == old(runningPid) && logs == old(logs)
      ensures 1 <= pid <= |old(processes)| && old(processes)[pid - 1].state != Terminated ==>
        var p := old(processes)[pid - 1];
        && processes == old(processes)[pid - 1 := p.(state := Waiting)]
        && runningPid == (if p.state == Running then -1 else old(runningPid))
        && logs == Logged(old(logs), LogEntry(currentTime, pid, ProcessSuspended))
    {
      var idx := FindProcessByPid(processes, pid);
      if idx == -1 {
        return;
      }
      if processes[idx].state == Terminated {
        return;
      }
      var p := processes[idx].(state := Waiting);
      assert Behaved(processes[idx], runningPid);
      Replace(processes, runningPid, idx, p);
      if processes[idx].state == Running {
        Idle(processes[idx := p], runningPid);
        runningPid := -1;
      }
      processes := processes[idx := p];
      logs := Logged(logs, LogEntry(currentTime, pid, ProcessSuspended));
    }

    /** resume_process: only a WAITING process changes, to READY. */
    method ResumeProcess(pid: int)
      requires Valid()
      modifies this`logs, this`processes
      ensures Valid()
      ensures !(1 <= pid <= |old(processes)|) || old(processes)[pid - 1].state != Waiting ==>
        processes == old(processes) && logs == old(logs)
      ensures 1 <= pid <= |old(processes)| && old(processes)[pid - 1].state == Waiting ==>
        && processes == old(processes)[pid - 1 := old(processes)[pid - 1].(state := Ready)]
        && logs == Logged(old(logs), LogEntry(currentTime, pid, ProcessResumed))
    {
      var idx := FindProcessByPid(processes, pid);
      if idx == -1 {
        return;
      }
      if processes[idx].state != Waiting {
        return;
      }
      Relabel(idx, Ready, ProcessResumed);
    }

    /** The process in slot `idx` moves to READY or WAITING and `event` is
        logged under its pid; the CPU and the pool are untouched. */
    method Relabel(idx: int, state: ProcessState, event: Event)
      requires Valid() && 0 <= idx < |processes| && (state == Ready || state == Waiting)
      modifies this`logs, this`processes
      ensures Valid()
      ensures processes == old(processes)[idx := old(processes)[idx].(state := state)]
      ensures logs == Logged(old(logs), LogEntry(currentTime, idx + 1, event))
    {
      var p := processes[idx].(state := state);
      assert Behaved(processes[idx], runningPid) && p.pid == idx + 1;
      Replace(processes, runningPid, idx, p);
      processes := processes[idx := p];
      logs := Logged(logs, LogEntry(currentTime, p.pid, event));
    }

    /** terminate_process: a known, unterminated process gives back what it
        holds and becomes TERMINATED with its completion and turnaround
        times; the completion counters grow. */
    method TerminateProcess(pid: int, cause: TerminationCause)
      requires Valid()
      modifies this`runningPid, this`available, this`logs, this`processes
      modifies this`totalCompleted, this`totalWaitingTime, this`totalTurnaroundTime
      ensures Valid()
      ensures !(1 <= pid <= |old(processes)|) || old(processes)[pid - 1].state == Terminated ==>
        Books() == old(Books())
      ensures 1 <= pid <= |old(processes)| && old(processes)[pid - 1].state != Terminated ==>
        Ended(old(Books()), pid - 1, cause)
    {
      var idx := FindProcessByPid(processes, pid);
      if idx == -1 {
        return;
      }
      if processes[idx].state == Terminated {
        return;
      }
      TerminateAt(idx, cause);
    }

    /** The effect of terminate_process on the unterminated process in
        slot `idx`, from the accounts `before` to the current ones. */
    ghost predicate Ended(before: Accounts, idx: int, cause: TerminationCause)
      requires 0 <= idx < |before.processes|
      reads this`processes, this`available, this`runningPid, this`logs, this`currentTime
      reads this`totalCompleted, this`totalWaitingTime, this`totalTurnaroundTime
    {
      var p := before.processes[idx];
      var t := currentTime;
      && processes == before.processes[idx := Finished(p, cause, t)]
      && available == Plus(before.available, p.allocation)
      && runningPid == (if p.state == Running then -1 else before.runningPid)
      && totalCompleted == before.totalCompleted + 1
      && totalWaitingTime == before.totalWaitingTime + p.waitingTime
      && totalTurnaroundTime == before.totalTurnaroundTime + (t - p.arrivalTime)
      && logs == Logged(Logged(before.logs, LogEntry(t, p.pid, ResourcesReleased(p.allocation))),
                        LogEntry(t, p.pid, ProcessTerminated(cause, t - p.arrivalTime, p.waitingTime)))
    }

    /** The body of terminate_process once the process is found and not
        yet terminated. */
    method TerminateAt(idx: int, cause: TerminationCause)
      requires Valid() && 0 <= idx < |processes| && processes[idx].state != Terminated
      modifies this`runningPid, this`available, this`logs, this`processes
      modifies this`totalCompleted, this`totalWaitingTime, this`totalTurnaroundTime
      ensures Valid()
      ensures Ended(old(Books()), idx, cause)
    {
      var p := Finished(processes[idx], cause, currentTime);
      Vacate(idx, p);
      totalCompleted := totalCompleted + 1;
      totalWaitingTime := totalWaitingTime + p.waitingTime;
      totalTurnaroundTime := totalTurnaroundTime + p.turnaroundTime;
      logs := Logged(logs, LogEntry(currentTime, p.pid, ProcessTerminated(cause, p.turnaroundTime, p.waitingTime)));
    }

    /** What terminate_process and a Round Robin preemption do to the
        table: release_resources on the process's own pid gives back what
        it holds, its slot becomes `q` (holding nothing and not RUNNING),
        and the CPU is idle if it was RUNNING. */
    method Vacate(idx: int, q: Pcb)
      requires Valid() && 0 <= idx < |processes|
      requires q.pid == processes[idx].pid && q.needed == processes[idx].needed
      requires q.allocation == NoResources && q.state != Running
      modifies this`runningPid, this`available, this`logs, this`processes
      ensures Valid()
      ensures
        var p := old(processes)[idx];
        && processes == old(processes)[idx := q]
        && available == Plus(old(available), p.allocation)
        && runningPid == (if p.state == Running then -1 else old(runningPid))
        && logs == Logged(old(logs), LogEntry(currentTime, p.pid, ResourcesReleased(p.allocation)))
    {
      ghost var t0 := processes;
      assert Behaved(t0[idx], runningPid) && Behaved(q, runningPid) && q.pid == idx + 1;
      var wasRunning := processes[idx].state == Running;
      ReleaseAt(idx);
      ghost var released := t0[idx].(allocation := NoResources);
      assert processes == t0[idx := released];
      UpdateTwice(t0, idx, released, q);
      Replace(t0, runningPid, idx, q);
      processes := processes[idx := q];
      if wasRunning {
        assert runningPid == idx + 1 && processes[idx] == q;
        Idle(processes, runningPid);
        runningPid := -1;
      }
    }

    /** The FCFS loop of select_next_process. */
    static method PickFcfs(table: seq<Pcb>) returns (sel: int)
      ensures sel == FcfsChoice(table)
    {
      sel := -1;
      for i := 0 to |table|
        invariant sel == FcfsChoice(table[..i])
      {
        assert table[..i + 1][..i] == table[..i];
        if table[i].state == Ready {
          if sel == -1 || table[i].arrivalTime < table[sel].arrivalTime {
            sel := i;
          }
        }
      }
      assert table[..|table|] == table;
    }

    /** The two Round Robin loops of select_next_process: the eligible
        process with the smallest pid, else the one just preempted. */
    static method PickRoundRobin(table: seq<Pcb>, lastPreemptedPid: int) returns (sel: int)
      ensures sel == RoundRobinChoice(table, lastPreemptedPid)
    {
      sel := PickEligible(table, lastPreemptedPid);
      if sel == -1 && lastPreemptedPid != -1 {
        sel := PickPreempted(table, lastPreemptedPid);
      }
    }

    /** The first Round Robin loop: the READY process with the smallest
        pid, skipping the one just preempted. */
    static method PickEligible(table: seq<Pcb>, lastPreemptedPid: int) returns (sel: int)
      ensures sel == RoundRobinBest(table, lastPreemptedPid)
    {
      sel := -1;
      for i := 0 to |table|
        invariant sel == RoundRobinBest(table[..i], lastPreemptedPid)
      {
        assert table[..i + 1][..i] == table[..i];
        if table[i].state == Ready {
          if table[i].pid == lastPreemptedPid && lastPreemptedPid != -1 {
            continue;
          }
          if sel == -1 {
            sel := i;
          } else if table[i].pid < table[sel].pid {
            sel := i;
          }
        }
      }
      assert table[..|table|] == table;
    }

    /** The second Round Robin loop: the first READY slot holding `pid`. */
    static method PickPreempted(table: seq<Pcb>, pid: int) returns (sel: int)
      ensures sel == FirstReadyWithPid(table, pid)
    {
      sel := -1;
      for i := 0 to |table|
        invariant sel == -1 && FirstReadyWithPid(table[..i], pid) == -1
      {
        assert table[..i + 1][..i] == table[..i];
        if table[i].state == Ready && table[i].pid == pid {
          sel := i;
          assert FirstReadyWithPid(table[..i + 1], pid) == i;
          assert forall j :: 0 <= j < i ==> table[j] == table[..i + 1][j];
          return;
        }
      }
      assert table[..|table|] == table;
    }

    /** select_next_process, called when the CPU is idle: picks a READY
        process by the current algorithm and runs it if it already holds
        a CPU or its request for what it needs is granted. */
    method SelectNextProcess()
      requires Valid() && runningPid == -1
      modifies this`lastPreemptedPid, this`available, this`runningPid, this`logs, this`processes
      ensures Valid()
      ensures lastPreemptedPid == if algorithm == RoundRobin then -1 else old(lastPreemptedPid)
      ensures Books() == AfterDispatch(old(Books()), Choice(old(processes), algorithm, old(lastPreemptedPid)), currentTime)
      ensures |processes| == |old(processes)|
      ensures forall i :: 0 <= i < |processes| ==> processes[i].waitingTime == old(processes)[i].waitingTime
    {
      var sel;
      if algorithm == Fcfs {
        sel := PickFcfs(processes);
      } else {
        sel := PickRoundRobin(processes, lastPreemptedPid);
        lastPreemptedPid := -1;
      }
      Dispatch(sel);
    }

    /** The second half of select_next_process. */
    method Dispatch(sel: int)
      requires Valid() && runningPid == -1
      requires -1 <= sel < |processes| && (sel >= 0 ==> processes[sel].state == Ready)
      modifies this`available, this`runningPid, this`logs, this`processes
      ensures Valid()
      ensures Books() == AfterDispatch(old(Books()), sel, currentTime)
      ensures |processes| == |old(processes)|
      ensures forall i :: 0 <= i < |processes| ==> processes[i].waitingTime == old(processes)[i].waitingTime
    {
      if sel == -1 {
        return;
      }
      if processes[sel].allocation.cpu == 0 {
        Grant(sel);
      } else {
        assert Behaved(processes[sel], -1) && processes[sel].pid == sel + 1;
        Run(sel);
      }
    }

    /** Dispatch of a READY process that holds no CPU: it requests what it
        needs and runs if the request is granted. */
    method Grant(sel: int)
      requires Valid() && runningPid == -1
      requires 0 <= sel < |processes| && processes[sel].state == Ready && processes[sel].allocation.cpu == 0
      modifies this`available, this`runningPid, this`logs, this`processes
      ensures Valid()
      ensures Books() == AfterDispatch(old(Books()), sel, currentTime)
    {
      var p := processes[sel];
      assert Behaved(p, -1) && p.pid == sel + 1;
      var granted := RequestResources(p.pid, p.needed);
      if granted {
        ReplaceKeepsSlots(old(processes), -1, sel, processes[sel]);
        Run(sel);
      } else {
        ReplaceKeepsSlots(old(processes), -1, sel, p.(state := Waiting));
      }
    }

    /** The READY process in slot `sel`, holding what it needs, takes the
        idle CPU. */
    method Run(sel: int)
      requires Valid() && runningPid == -1 && 0 <= sel < |processes|
      requires processes[sel].state == Ready && processes[sel].allocation == processes[sel].needed
      modifies this`runningPid, this`logs, this`processes
      ensures Valid()
      ensures processes == old(processes)[sel := old(processes)[sel].(state := Running)]
      ensures runningPid == sel + 1
      ensures logs == Logged(old(logs), LogEntry(currentTime, sel + 1, NowRunning))
    {
      assert Behaved(processes[sel], -1) && processes[sel].pid == sel + 1;
      var q := processes[sel].(state := Running);
      Handover(processes, q.pid);
      Replace(processes, q.pid, sel, q);
      processes := processes[sel := q];
      runningPid := q.pid;
      logs := Logged(logs, LogEntry(currentTime, q.pid, NowRunning));
    }

    /** execute_step: the clock advances, the RUNNING process runs for one
        unit, READY and WAITING processes wait one unit, and an idle CPU
        is handed to the next process. */
    method ExecuteStep()
      requires Valid()
      modifies this`currentTime, this`cpuBusyTime, this`lastPreemptedPid, this`available, this`runningPid
      modifies this`logs, this`totalCompleted, this`totalWaitingTime, this`totalTurnaroundTime, this`processes
      ensures Valid()
      ensures currentTime == old(currentTime) + 1
      ensures cpuBusyTime == old(cpuBusyTime) + (if RunsCpu(old(Books())) then 1 else 0)
      ensures
        var b1 := Ticked(old(Books()), algorithm, quantum, currentTime);
        var lp := PreemptedAfterRun(old(Books()), algorithm, old(lastPreemptedPid));
        && (b1.runningPid != -1 ==> Books() == b1 && lastPreemptedPid == lp)
        && (b1.runningPid == -1 ==>
              && Books() == AfterDispatch(b1, Choice(b1.processes, algorithm, lp), currentTime)
              && lastPreemptedPid == (if algorithm == RoundRobin then -1 else lp))
    {
      Tick();
      if runningPid == -1 {
        SelectNextProcess();
      }
    }

    /** The part of execute_step before the CPU is handed on: the clock
        advances, the RUNNING process runs one unit and the others age. */
    method Tick()
      requires Valid()
      modifies this`currentTime, this`cpuBusyTime, this`lastPreemptedPid, this`available, this`runningPid
      modifies this`logs, this`totalCompleted, this`totalWaitingTime, this`totalTurnaroundTime, this`processes
      ensures Valid()
      ensures currentTime == old(currentTime) + 1
      ensures cpuBusyTime == old(cpuBusyTime) + (if RunsCpu(old(Books())) then 1 else 0)
      ensures Books() == Ticked(old(Books()), algorithm, quantum, currentTime)
      ensures lastPreemptedPid == PreemptedAfterRun(old(Books()), algorithm, old(lastPreemptedPid))
    {
      currentTime := currentTime + 1;
      RunRunning();
      ghost var ran := Books();
      AgeWaiting();
      assert Books() == ran.(processes := AgedAll(ran.processes));
    }

    /** The first part of execute_step: the process named RUNNING, if it
        is found and still RUNNING, runs for one unit; no other slot
        changes. */
    method RunRunning()
      requires Valid()
      modifies this`cpuBusyTime, this`lastPreemptedPid, this`available, this`runningPid
      modifies this`logs, this`totalCompleted, this`totalWaitingTime, this`totalTurnaroundTime, this`processes
      ensures Valid()
      ensures cpuBusyTime == old(cpuBusyTime) + (if RunsCpu(old(Books())) then 1 else 0)
      ensures Books() == AfterRun(old(Books()), algorithm, quantum, currentTime)
      ensures lastPreemptedPid == PreemptedAfterRun(old(Books()), algorithm, old(lastPreemptedPid))
    {
      if runningPid != -1 {
        var idx := FindProcessByPid(processes, runningPid);
        if idx != -1 && processes[idx].state == Running {
          RunForOneUnit(idx);
        }
      }
    }

    /** The RUNNING process's unit of work in execute_step: it works one
        unit; under Round Robin an expired quantum with work left preempts
        it (it gives back what it holds and returns to READY); otherwise it
        terminates normally once no work is left. */
    method RunForOneUnit(idx: int)
      requires Valid() && 0 <= idx < |processes| && processes[idx].state == Running
      modifies this`cpuBusyTime, this`lastPreemptedPid, this`available, this`runningPid, this`logs
      modifies this`totalCompleted, this`totalWaitingTime, this`totalTurnaroundTime, this`processes
      ensures Valid()
      ensures cpuBusyTime == old(cpuBusyTime) + 1
      ensures Books() == AfterUnit(old(Books()), idx, algorithm, quantum, currentTime)
      ensures lastPreemptedPid ==
        if Preempts(Worked(old(processes)[idx], algorithm), algorithm) then old(processes)[idx].pid else old(lastPreemptedPid)
    {
      Work(idx);
      var p := processes[idx];
      if Preempts(p, algorithm) {
        Preempt(idx);
      } else if p.remainingTime <= 0 {
        // terminate_process on the RUNNING pid finds this same slot
        TerminateAt(idx, Normal);
        runningPid := -1;
      }
    }

    /** The RUNNING process works one unit, and the CPU counts it busy. */
    method Work(idx: int)
      requires Valid() && 0 <= idx < |processes| && processes[idx].state == Running
      modifies this`cpuBusyTime, this`logs, this`processes
      ensures Valid()
      ensures cpuBusyTime == old(cpuBusyTime) + 1
      ensures processes == old(processes)[idx := Worked(old(processes)[idx], algorithm)]
      ensures logs == Logged(old(logs), LogEntry(currentTime, processes[idx].pid, Executing(processes[idx].remainingTime)))
    {
      var p := Worked(processes[idx], algorithm);
      cpuBusyTime := cpuBusyTime + 1;
      assert Behaved(processes[idx], runningPid);
      Replace(processes, runningPid, idx, p);
      processes := processes[idx := p];
      logs := Logged(logs, LogEntry(currentTime, p.pid, Executing(p.remainingTime)));
    }

    /** Round Robin preemption of the RUNNING process: release_resources
        on its own pid, which finds this same slot, then back to READY
        with a fresh quantum, and the CPU is idle. */
    method Preempt(idx: int)
      requires Valid() && 0 <= idx < |processes| && processes[idx].state == Running
      modifies this`lastPreemptedPid, this`available, this`runningPid, this`logs, this`processes
      ensures Valid()
      ensures
        var p := old(processes)[idx];
        && processes == old(processes)[idx := p.(allocation := NoResources, state := Ready, quantumRemaining := quantum)]
        && available == Plus(old(available), p.allocation)
        && runningPid == -1 && lastPreemptedPid == p.pid
        && logs == Logged(Logged(old(logs), LogEntry(currentTime, p.pid, ResourcesReleased(p.allocation))),
                          LogEntry(currentTime, p.pid, QuantumExpired))
    {
      var pid := processes[idx].pid;
      lastPreemptedPid := pid;
      Vacate(idx, processes[idx].(allocation := NoResources, state := Ready, quantumRemaining := quantum));
      logs := Logged(logs, LogEntry(currentTime, pid, QuantumExpired));
    }

    /** The waiting-time loop of execute_step. */
    method AgeWaiting()
      requires Valid()
      modifies this`processes
      ensures Valid()
      ensures processes == AgedAll(old(processes))
    {
      ghost var t0 := processes;
      for i := 0 to |processes|
        invariant |processes| == |t0|
        invariant forall k :: 0 <= k < i ==> processes[k] == Aged(t0[k])
        invariant forall k :: i <= k < |processes| ==> processes[k] == t0[k]
      {
        if processes[i].state == Ready || processes[i].state == Waiting {
          processes := processes[i := processes[i].(waitingTime := processes[i].waitingTime + 1)];
        }
      }
      assert processes == AgedAll(t0);
      AgingKeepsHeld(t0);
      AgingKeepsSlots(t0, runningPid);
    }

    /** At most one process holds the CPU, and at most one is RUNNING. */
    lemma {:induction false} CpuExclusive()
      requires Valid()
      ensures forall i, j :: 0 <= i < j < |processes| ==>
        !(processes[i].allocation.cpu > 0 && processes[j].allocation.cpu > 0)
      ensures forall i, j :: 0 <= i < j < |processes| ==>
        !(processes[i].state == Running && processes[j].state == Running)
    {
      forall k | 0 <= k < |processes|
        ensures processes[k].allocation.cpu >= 0
      {
        assert Behaved(processes[k], runningPid);
      }
      forall i, j | 0 <= i < j < |processes|
        ensures !(processes[i].allocation.cpu > 0 && processes[j].allocation.cpu > 0)
        ensures !(processes[i].state == Running && processes[j].state == Running)
      {
        assert Behaved(processes[i], runningPid) && Behaved(processes[j], runningPid);
        HeldCoversPair(processes, i, j);
      }
    }

    // ------------------------------------------------------------ messages

    /** send_message: appends an undelivered message unless the mailbox
        is full. */
    method SendMessage(sender: int, receiver: int, content: string)
      requires Valid()
      modifies this`messageCount, this`logs, messages
      ensures Valid()
      ensures old(messageCount) >= MAX_MESSAGES ==>
        Mailbox() == old(Mailbox()) && messageCount == old(messageCount) && logs == old(logs)
      ensures old(messageCount) < MAX_MESSAGES ==>
        && Mailbox() == old(Mailbox()) + [Message(sender, receiver, Truncated(content, MESSAGE_CHARS), false)]
        && logs == Logged(old(logs), LogEntry(currentTime, sender, MessageSent(receiver)))
    {
      if messageCount >= MAX_MESSAGES {
        return;
      }
      ghost var m0 := Mailbox();
      messages[messageCount] := Message(sender, receiver, Truncated(content, MESSAGE_CHARS), false);
      messageCount := messageCount + 1;
      assert Mailbox() == m0 + [messages[messageCount - 1]];
      logs := Logged(logs, LogEntry(currentTime, sender, MessageSent(receiver)));
    }

    /** receive_message: every message pending for `receiver` is marked
        delivered and logged, in mailbox order; `found` says whether there
        was any. */
    method ReceiveMessage(receiver: int) returns (found: bool)
      requires Valid()
      modifies this`logs, messages
      ensures Valid()
      ensures found <==> exists i :: 0 <= i < |old(Mailbox())| && Pending(old(Mailbox())[i], receiver)
      ensures Mailbox() == ReceivedAll(old(Mailbox()), receiver)
      ensures logs == ReceiptLogs(old(logs), old(Mailbox()), receiver, currentTime)
    {
      found := Deliver(receiver);
    }

    /** The loop of receive_message over the mailbox, in order. */
    method Deliver(receiver: int) returns (found: bool)
      requires messages.Length == MAX_MESSAGES
      modifies this`logs, messages
      ensures found <==> exists i :: 0 <= i < |old(Mailbox())| && Pending(old(Mailbox())[i], receiver)
      ensures Mailbox() == ReceivedAll(old(Mailbox()), receiver)
      ensures logs == ReceiptLogs(old(logs), old(Mailbox()), receiver, currentTime)
    {
      ghost var m0 := Mailbox();
      ghost var l0 := logs;
      found := false;
      for i := 0 to messageCount
        invariant forall k :: 0 <= k < i ==> messages[k] == Receipt(m0[k], receiver)
        invariant forall k :: i <= k < messageCount ==> messages[k] == m0[k]
        invariant logs == ReceiptLogs(l0, m0[..i], receiver, currentTime)
        invariant found <==> exists k :: 0 <= k < i && Pending(m0[k], receiver)
      {
        ReceiptLogsStep(l0, m0, i, receiver, currentTime);
        var hit := ReceiveAt(i, receiver);
        found := found || hit;
      }
      assert m0[..messageCount] == m0;
      assert Mailbox() == ReceivedAll(m0, receiver);
      ReceiptLogsBounded(l0, m0, receiver, currentTime);
    }

    /** One step of receive_message's loop: message `i`, if pending for
        `receiver`, is marked delivered and logged. */
    method ReceiveAt(i: int, receiver: int) returns (hit: bool)
      requires 0 <= i < messages.Length
      modifies this`logs, messages
      ensures hit == Pending(old(messages[i]), receiver)
      ensures messages[i] == Receipt(old(messages[i]), receiver)
      ensures forall k :: 0 <= k < messages.Length && k != i ==> messages[k] == old(messages[k])
      ensures logs == if hit then Logged(old(logs), LogEntry(currentTime, receiver, MessageReceived(old(messages[i]).sender)))
                      else old(logs)
    {
      hit := messages[i].receiver == receiver && !messages[i].delivered;
      if hit {
        logs := Logged(logs, LogEntry(currentTime, receiver, MessageReceived(messages[i].sender)));
        messages[i] := messages[i].(delivered := true);
      }
    }

    // ---------------------------------------------------------- semaphores

    /** create_semaphore: the next id, with `initialValue` and no waiters;
        -1 once MAX_SEMAPHORES exist. */
    method CreateSemaphore(initialValue: int) returns (id: int)
      requires Valid()
      modifies this`semaphoreCount, this`logs, semValues, waitingCounts
      ensures Valid()
      ensures id == -1 <==> old(semaphoreCount) >= MAX_SEMAPHORES
      ensures id == -1 ==>
        && semaphoreCount == old(semaphoreCount) && logs == old(logs)
        && semValues[..] == old(semValues[..]) && waitingCounts[..] == old(waitingCounts[..])
      ensures id != -1 ==>
        && id == old(semaphoreCount) && semaphoreCount == id + 1
        && semValues[..] == old(semValues[..])[id := initialValue]
        && waitingCounts[..] == old(waitingCounts[..])[id := 0]
        && WaitQueue(id) == []
        && logs == Logged(old(logs), LogEntry(currentTime, -1, SemaphoreCreated(id, initialValue)))
    {
      if semaphoreCount >= MAX_SEMAPHORES {
        return -1;
      }
      id := semaphoreCount;
      semValues[id] := initialValue;
      waitingCounts[id] := 0;
      semaphoreCount := semaphoreCount + 1;
      logs := Logged(logs, LogEntry(currentTime, -1, SemaphoreCreated(id, initialValue)));
    }

    /** wait_semaphore: decrements the value; when it goes negative a known
        process is set WAITING and appended to the semaphore's queue. The
        queue has room for MAX_PROCESSES pids, which callers must not
        exceed. */
    method WaitSemaphore(semId: int, pid: int)
      requires Valid()
      requires 0 <= semId < semaphoreCount && semValues[semId] <= 0 && 1 <= pid <= |processes| ==>
        waitingCounts[semId] < MAX_PROCESSES
      modifies this`logs, this`processes, semValues, waitingCounts, waitingPids
      ensures Valid()
      ensures forall s :: 0 <= s < MAX_SEMAPHORES && s != semId ==>
        semValues[s] == old(semValues[s]) && waitingCounts[s] == old(waitingCounts[s])
      ensures forall s, k :: 0 <= s < MAX_SEMAPHORES && 0 <= k < MAX_PROCESSES && s != semId ==>
        waitingPids[s, k] == old(waitingPids[s, k])
      ensures !(0 <= semId < semaphoreCount) ==>
        && processes == old(processes) && logs == old(logs) && semValues[..] == old(semValues[..])
        && waitingCounts[..] == old(waitingCounts[..])
        && forall s, k :: 0 <= s < MAX_SEMAPHORES && 0 <= k < MAX_PROCESSES ==> waitingPids[s, k] == old(waitingPids[s, k])
      ensures 0 <= semId < semaphoreCount ==>
        var v := old(semValues[semId]) - 1;
        var blocked := v < 0 && 1 <= pid <= |old(processes)|;
        && semValues[semId] == v
        && (blocked ==>
              && processes == old(processes)[pid - 1 := old(processes)[pid - 1].(state := Waiting)]
              && WaitQueue(semId) == old(WaitQueue(semId)) + [pid]
              && logs == Logged(Logged(old(logs), LogEntry(currentTime, pid, SemaphoreWait(semId, v))),
                                LogEntry(currentTime, pid, SemaphoreBlocked(semId))))
        && (!blocked ==>
              && processes == old(processes) && WaitQueue(semId) == old(WaitQueue(semId))
              && logs == Logged(old(logs), LogEntry(currentTime, pid, SemaphoreWait(semId, v))))
    {
      if 0 <= semId < semaphoreCount {
        semValues[semId] := semValues[semId] - 1;
        logs := Logged(logs, LogEntry(currentTime, pid, SemaphoreWait(semId, semValues[semId])));
        if semValues[semId] < 0 {
          var idx := FindProcessByPid(processes, pid);
          if idx != -1 {
            Block(semId, idx);
          }
        }
      }
    }

    /** The blocking half of wait_semaphore: the process in slot `idx`
        becomes WAITING and joins the semaphore's queue. */
    method Block(semId: int, idx: int)
      requires Valid() && 0 <= semId < MAX_SEMAPHORES && 0 <= idx < |processes|
      requires waitingCounts[semId] < MAX_PROCESSES
      modifies this`logs, this`processes, waitingCounts, waitingPids
      ensures Valid()
      ensures processes == old(processes)[idx := old(processes)[idx].(state := Waiting)]
      ensures WaitQueue(semId) == old(WaitQueue(semId)) + [idx + 1]
      ensures logs == Logged(old(logs), LogEntry(currentTime, idx + 1, SemaphoreBlocked(semId)))
      ensures forall s :: 0 <= s < MAX_SEMAPHORES && s != semId ==> waitingCounts[s] == old(waitingCounts[s])
      ensures forall s, k :: 0 <= s < MAX_SEMAPHORES && 0 <= k < MAX_PROCESSES && s != semId ==>
        waitingPids[s, k] == old(waitingPids[s, k])
    {
      Relabel(idx, Waiting, SemaphoreBlocked(semId));
      Enqueue(semId, idx + 1);
    }

    /** The append to a semaphore's queue in wait_semaphore. */
    method Enqueue(semId: int, pid: int)
      requires Shape() && 0 <= semId < MAX_SEMAPHORES && waitingCounts[semId] < MAX_PROCESSES
      modifies waitingCounts, waitingPids
      ensures WaitQueue(semId) == old(WaitQueue(semId)) + [pid]
      ensures forall s :: 0 <= s < MAX_SEMAPHORES && s != semId ==> waitingCounts[s] == old(waitingCounts[s])
      ensures forall s, k :: 0 <= s < MAX_SEMAPHORES && 0 <= k < MAX_PROCESSES && s != semId ==>
        waitingPids[s, k] == old(waitingPids[s, k])
    {
      ghost var q0 := WaitQueue(semId);
      waitingPids[semId, waitingCounts[semId]] := pid;
      waitingCounts[semId] := waitingCounts[semId] + 1;
      assert WaitQueue(semId) == q0 + [pid];
    }

    /** signal_semaphore: increments the value; while it is still not
        positive, the oldest waiter leaves the queue (the rest shift down
        in place) and, if known, becomes READY. */
    method SignalSemaphore(semId: int)
      requires Valid()
      modifies this`logs, this`processes, semValues, waitingCounts, waitingPids
      ensures Valid()
      ensures forall s :: 0 <= s < MAX_SEMAPHORES && s != semId ==>
        semValues[s] == old(semValues[s]) && waitingCounts[s] == old(waitingCounts[s])
      ensures forall s, k :: 0 <= s < MAX_SEMAPHORES && 0 <= k < MAX_PROCESSES && s != semId ==>
        waitingPids[s, k] == old(waitingPids[s, k])
      ensures !(0 <= semId < semaphoreCount) ==>
        && processes == old(processes) && logs == old(logs) && semValues[..] == old(semValues[..])
        && waitingCounts[..] == old(waitingCounts[..])
        && forall s, k :: 0 <= s < MAX_SEMAPHORES && 0 <= k < MAX_PROCESSES ==> waitingPids[s, k] == old(waitingPids[s, k])
      ensures 0 <= semId < semaphoreCount ==>
        var v := old(semValues[semId]) + 1;
        var q := old(WaitQueue(semId));
        var woken := v <= 0 && q != [];
        var known := woken && 1 <= q[0] <= |old(processes)|;
        var l1 := Logged(old(logs), LogEntry(currentTime, -1, SemaphoreSignal(semId, v)));
        && semValues[semId] == v
        && (!woken ==> processes == old(processes) && WaitQueue(semId) == q && logs == l1)
        && (woken ==> WaitQueue(semId) == q[1..])
        && (woken && !known ==> processes == old(processes) && logs == l1)
        && (known ==>
              && processes == old(processes)[q[0] - 1 := old(processes)[q[0] - 1].(state := Ready)]
              && logs == Logged(l1, LogEntry(currentTime, q[0], SemaphoreWoken(semId))))
    {
      if 0 <= semId < semaphoreCount {
        semValues[semId] := semValues[semId] + 1;
        logs := Logged(logs, LogEntry(currentTime, -1, SemaphoreSignal(semId, semValues[semId])));
        if semValues[semId] <= 0 && waitingCounts[semId] > 0 {
          var pid := waitingPids[semId, 0];
          ShiftQueue(semId);
          var idx := FindProcessByPid(processes, pid);
          if idx != -1 {
            Relabel(idx, Ready, SemaphoreWoken(semId));
          }
        }
      }
    }

    /** The in-place shift of signal_semaphore: the oldest waiter of
        semaphore `semId` leaves its queue. */
    method ShiftQueue(semId: int)
      requires Shape() && 0 <= semId < MAX_SEMAPHORES && waitingCounts[semId] > 0
      modifies waitingCounts, waitingPids
      ensures WaitQueue(semId) == old(WaitQueue(semId))[1..]
      ensures forall s :: 0 <= s < MAX_SEMAPHORES && s != semId ==> waitingCounts[s] == old(waitingCounts[s])
      ensures forall s, k :: 0 <= s < MAX_SEMAPHORES && 0 <= k < MAX_PROCESSES && s != semId ==>
        waitingPids[s, k] == old(waitingPids[s, k])
    {
      ghost var q0 := WaitQueue(semId);
      var n := waitingCounts[semId];
      for i := 0 to n - 1
        modifies waitingPids
        invariant forall k :: 0 <= k < i ==> waitingPids[semId, k] == q0[k + 1]
        invariant forall k :: i <= k < n ==> waitingPids[semId, k] == q0[k]
        invariant forall s, k :: 0 <= s < MAX_SEMAPHORES && 0 <= k < MAX_PROCESSES && s != semId ==>
          waitingPids[s, k] == old(waitingPids[s, k])
      {
        waitingPids[semId, i] := waitingPids[semId, i + 1];
      }
      waitingCounts[semId] := n - 1;
      assert WaitQueue(semId) == q0[1..];
    }

    /** select_algorithm, with the menu choice and the quantum as
        parameters: 1 is FCFS, 2 is Round Robin with the given quantum,
        anything else falls back to FCFS without a log entry. */
    method SelectAlgorithm(choice: int, newQuantum: int)
      requires Valid()
      modifies this`algorithm, this`quantum, this`logs
      ensures Valid()
      ensures algorithm == if choice == 2 then RoundRobin else Fcfs
      ensures quantum == if choice == 2 then newQuantum else old(quantum)
      ensures choice == 1 ==> logs == Logged(old(logs), LogEntry(currentTime, -1, FcfsSelected))
      ensures choice == 2 ==> logs == Logged(old(logs), LogEntry(currentTime, -1, RoundRobinSelected(newQuantum)))
      ensures choice != 1 && choice != 2 ==> logs == old(logs)
    {
      if choice == 1 {
        algorithm := Fcfs;
        logs := Logged(logs, LogEntry(currentTime, -1, FcfsSelected));
      } else if choice == 2 {
        algorithm := RoundRobin;
        quantum := newQuantum;
        logs := Logged(logs, LogEntry(currentTime, -1, RoundRobinSelected(quantum)));
      } else {
        algorithm := Fcfs;
      }
    }
  }
}
