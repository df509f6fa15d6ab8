// Values of the process scheduler and resource simulator of
// src/simulador_procesos.c: process control blocks, resources, messages and
// log events, with the pure functions that the scheduler's scans compute.

module Processes {

  const MAX_PROCESSES := 50
  const MAX_CPU := 1
  const MAX_MEMORY_BLOCKS := 4
  const MAX_MESSAGES := 100
  const MAX_SEMAPHORES := 10
  const MAX_LOG_ENTRIES := 1000
  /** A message body is copied into char[256]: at most 255 characters. */
  const MESSAGE_CHARS := 255

  datatype ProcessState = Ready | Running | Waiting | Terminated

  datatype TerminationCause = Normal | ErrorTermination | Deadlock | UserTermination

  datatype Algorithm = Fcfs | RoundRobin

  /** A CPU count and a number of 1 GB memory blocks
      (src/simulador_procesos.c:35-38). */
  datatype Resources = Resources(cpu: int, memoryBlocks: int)

  const NoResources := Resources(0, 0)

  function Plus(a: Resources, b: Resources): Resources
  {
    Resources(a.cpu + b.cpu, a.memoryBlocks + b.memoryBlocks)
  }

  function Minus(a: Resources, b: Resources): Resources
  {
    Resources(a.cpu - b.cpu, a.memoryBlocks - b.memoryBlocks)
  }

  /** check_deadlock_prevention: the request fits in what is available, in
      both components. */
  function Covers(available: Resources, req: Resources): (r: bool)
    ensures r <==> Minus(available, req).cpu >= 0 && Minus(available, req).memoryBlocks >= 0
  {
    req.cpu <= available.cpu && req.memoryBlocks <= available.memoryBlocks
  }

  /** A process control block (src/simulador_procesos.c:40-54). */
  datatype Pcb = Pcb(
    pid: int,
    state: ProcessState,
    priority: int,
    allocation: Resources,
    needed: Resources,
    burstTime: int,
    remainingTime: int,
    arrivalTime: int,
    completionTime: int,
    waitingTime: int,
    turnaroundTime: int,
    quantumRemaining: int,
    cause: TerminationCause)

  /** An unused slot of the zero-initialised process table. */
  const EmptyPcb := Pcb(0, Ready, 0, NoResources, NoResources, 0, 0, 0, 0, 0, 0, 0, Normal)

  /** The block create_process fills in: READY, holding nothing, needing
      one CPU and `memoryBlocks` blocks, with all its work still to do. A
      slot is filled once, so its termination cause is still the zero
      value of the table, NORMAL. */
  function Fresh(pid: int, burstTime: int, priority: int, memoryBlocks: int, now: int, quantum: int): (p: Pcb)
    ensures p.pid == pid && p.state == Ready && p.priority == priority
    ensures p.allocation == NoResources && p.needed == Resources(MAX_CPU, memoryBlocks)
    ensures p.burstTime == p.remainingTime == burstTime && p.arrivalTime == now
    ensures p.waitingTime == 0 && p.quantumRemaining == quantum && p.cause == Normal
    ensures forall runningPid :: Behaved(p, runningPid)
  {
    Pcb(pid, Ready, priority, NoResources, Resources(MAX_CPU, memoryBlocks),
        burstTime, burstTime, now, 0, 0, 0, quantum, Normal)
  }

  /** A message in the mailbox (src/simulador_procesos.c:56-61). */
  datatype Message = Message(sender: int, receiver: int, content: string, delivered: bool)

  const EmptyMessage := Message(0, 0, "", false)

  /** What strncpy into a fixed buffer keeps of a string: its first `n`
      characters. */
  function Truncated(s: string, n: nat): (r: string)
    ensures |r| <= n && r <= s
    ensures |s| <= n ==> r == s
  {
    if |s| <= n then s else s[..n]
  }

  /** What the scheduler writes to its log; the text itself is left out. */
  datatype Event =
    | SystemInitialized
    | ProcessCreated(burstTime: int, priority: int, memoryBlocks: int)
    | RequestDenied
    | ResourcesGranted(req: Resources)
    | ResourcesReleased(held: Resources)
    | ProcessSuspended
    | ProcessResumed
    | ProcessTerminated(cause: TerminationCause, turnaroundTime: int, waitingTime: int)
    | NowRunning
    | Executing(remainingTime: int)
    | QuantumExpired
    | MessageSent(receiver: int)
    | MessageReceived(sender: int)
    | SemaphoreCreated(id: int, value: int)
    | SemaphoreWait(id: int, value: int)
    | SemaphoreBlocked(id: int)
    | SemaphoreSignal(id: int, value: int)
    | SemaphoreWoken(id: int)
    | FcfsSelected
    | RoundRobinSelected(quantum: int)

  /** A log entry: the logical time, the pid (-1 for the system) and the
      event (src/simulador_procesos.c:79-83). */
  datatype LogEntry = LogEntry(time: int, pid: int, event: Event)

  /** The stored log, bounded by the size of its table. */
  type Log = s: seq<LogEntry> | |s| <= MAX_LOG_ENTRIES

  /** Counters bounded by the size of the table they index. */
  type MessageCount = n: int | 0 <= n <= MAX_MESSAGES
  type SemaphoreCount = n: int | 0 <= n <= MAX_SEMAPHORES
  type QueueLength = n: int | 0 <= n <= MAX_PROCESSES

  /** add_log: the entry is kept only while fewer than MAX_LOG_ENTRIES are
      stored; the log never shrinks and never outgrows its bound. */
  function Logged(logs: seq<LogEntry>, entry: LogEntry): (r: seq<LogEntry>)
    ensures |r| == (if |logs| < MAX_LOG_ENTRIES then |logs| + 1 else |logs|)
    ensures |logs| <= MAX_LOG_ENTRIES ==> |r| <= MAX_LOG_ENTRIES
  {
    if |logs| < MAX_LOG_ENTRIES then logs + [entry] else logs
  }

  /** add_log never rewrites history: the old entries stay in front and a
      kept entry is the new last one. */
  lemma {:induction false} LoggedKeepsHistory(logs: seq<LogEntry>, entry: LogEntry)
    ensures logs <= Logged(logs, entry)
    ensures |logs| < MAX_LOG_ENTRIES ==> Logged(logs, entry)[|logs|] == entry
  {
  }

  // ------------------------------------------------- resource accounting

  /** The resources held by a sequence of processes, summed componentwise. */
  function Held(procs: seq<Pcb>): Resources
    decreases |procs|
  {
    if procs == [] then NoResources
    else
      var before, last := Held(procs[..|procs| - 1]), procs[|procs| - 1].allocation;
      Resources(before.cpu + last.cpu, before.memoryBlocks + last.memoryBlocks)
  }

  /** Two writes to the same slot leave only the second. */
  lemma {:induction false} UpdateTwice(procs: seq<Pcb>, i: int, p: Pcb, q: Pcb)
    requires 0 <= i < |procs|
    ensures procs[i := p][i := q] == procs[i := q]
  {
  }

  /** Appending a process adds its allocation to the total held. */
  lemma {:induction false} HeldAppend(procs: seq<Pcb>, p: Pcb)
    ensures Held(procs + [p]) == Plus(Held(procs), p.allocation)
  {
    assert (procs + [p])[..|procs|] == procs;
  }

  /** Replacing one process changes the total held by the difference of
      the two allocations. */
  lemma {:induction false} HeldUpdate(procs: seq<Pcb>, i: int, p: Pcb)
    requires 0 <= i < |procs|
    ensures Held(procs[i := p]).cpu == Held(procs).cpu - procs[i].allocation.cpu + p.allocation.cpu
    ensures Held(procs[i := p]).memoryBlocks ==
      Held(procs).memoryBlocks - procs[i].allocation.memoryBlocks + p.allocation.memoryBlocks
    decreases |procs|
  {
    var n := |procs| - 1;
    if i < n {
      HeldUpdate(procs[..n], i, p);
      assert procs[i := p][..n] == procs[..n][i := p];
    } else {
      assert procs[i := p][..n] == procs[..n];
    }
  }

  /** Two distinct processes together hold no more than the total held,
      when no allocation is negative. */
  lemma {:induction false} HeldCoversPair(procs: seq<Pcb>, i: int, j: int)
    requires forall k :: 0 <= k < |procs| ==> procs[k].allocation.cpu >= 0
    requires 0 <= i < |procs| && 0 <= j < |procs| && i != j
    ensures procs[i].allocation.cpu + procs[j].allocation.cpu <= Held(procs).cpu
    decreases |procs|
  {
    var n := |procs| - 1;
    var init := procs[..n];
    HeldNonNegative(init);
    if i < n && j < n {
      HeldCoversPair(init, i, j);
    } else if i < n {
      HeldCoversOne(init, i);
    } else {
      HeldCoversOne(init, j);
    }
  }

  lemma {:induction false} HeldCoversOne(procs: seq<Pcb>, i: int)
    requires forall k :: 0 <= k < |procs| ==> procs[k].allocation.cpu >= 0
    requires 0 <= i < |procs|
    ensures procs[i].allocation.cpu <= Held(procs).cpu
    decreases |procs|
  {
    var n := |procs| - 1;
    HeldNonNegative(procs[..n]);
    if i < n {
      HeldCoversOne(procs[..n], i);
    }
  }

  lemma {:induction false} HeldNonNegative(procs: seq<Pcb>)
    requires forall k :: 0 <= k < |procs| ==> procs[k].allocation.cpu >= 0
    ensures Held(procs).cpu >= 0
    decreases |procs|
  {
    if procs != [] {
      HeldNonNegative(procs[..|procs| - 1]);
    }
  }

  // ------------------------------------------------------------ selection

  /** The FCFS scan of select_next_process over the first |procs| slots:
      the READY process with the smallest arrival time, the lowest index
      among equal arrival times; -1 when none is READY. */
  function FcfsChoice(procs: seq<Pcb>): (sel: int)
    ensures -1 <= sel < |procs|
    ensures sel == -1 <==> forall j :: 0 <= j < |procs| ==> procs[j].state != Ready
    ensures sel >= 0 ==> procs[sel].state == Ready
    ensures sel >= 0 ==> forall j :: 0 <= j < |procs| && procs[j].state == Ready ==>
                           procs[sel].arrivalTime <= procs[j].arrivalTime
    ensures sel >= 0 ==> forall j :: 0 <= j < sel && procs[j].state == Ready ==>
                           procs[sel].arrivalTime < procs[j].arrivalTime
    decreases |procs|
  {
    if procs == [] then -1
    else
      var i := |procs| - 1;
      var s := FcfsChoice(procs[..i]);
      assert forall j :: 0 <= j < i ==> procs[..i][j] == procs[j];
      if procs[i].state == Ready && (s == -1 || procs[i].arrivalTime < procs[s].arrivalTime) then i else s
  }

  /** Round Robin skips the process it just preempted. */
  predicate Eligible(p: Pcb, lastPreempted: int)
  {
    p.state == Ready && !(p.pid == lastPreempted && lastPreempted != -1)
  }

  /** The first Round Robin scan: the eligible process with the smallest
      pid, the lowest index among equal pids; -1 when none is eligible. */
  function RoundRobinBest(procs: seq<Pcb>, lastPreempted: int): (sel: int)
    ensures -1 <= sel < |procs|
    ensures sel == -1 <==> forall j :: 0 <= j < |procs| ==> !Eligible(procs[j], lastPreempted)
    ensures sel >= 0 ==> Eligible(procs[sel], lastPreempted)
    ensures sel >= 0 ==> forall j :: 0 <= j < |procs| && Eligible(procs[j], lastPreempted) ==>
                           procs[sel].pid <= procs[j].pid
    ensures sel >= 0 ==> forall j :: 0 <= j < sel && Eligible(procs[j], lastPreempted) ==>
                           procs[sel].pid < procs[j].pid
    decreases |procs|
  {
    if procs == [] then -1
    else
      var i := |procs| - 1;
      var s := RoundRobinBest(procs[..i], lastPreempted);
      assert forall j :: 0 <= j < i ==> procs[..i][j] == procs[j];
      if Eligible(procs[i], lastPreempted) && (s == -1 || procs[i].pid < procs[s].pid) then i else s
  }

  /** The fallback scan: the first READY process whose pid is `pid`. */
  function FirstReadyWithPid(procs: seq<Pcb>, pid: int): (sel: int)
    ensures -1 <= sel < |procs|
    ensures sel == -1 <==> forall j :: 0 <= j < |procs| ==> !(procs[j].state == Ready && procs[j].pid == pid)
    ensures sel >= 0 ==> procs[sel].state == Ready && procs[sel].pid == pid
    ensures sel >= 0 ==> forall j :: 0 <= j < sel ==> !(procs[j].state == Ready && procs[j].pid == pid)
    decreases |procs|
  {
    if procs == [] then -1
    else
      var i := |procs| - 1;
      var s := FirstReadyWithPid(procs[..i], pid);
      assert forall j :: 0 <= j < i ==> procs[..i][j] == procs[j];
      if s != -1 then s else if procs[i].state == Ready && procs[i].pid == pid then i else -1
  }

  /** The Round Robin choice of select_next_process: the eligible process
      with the smallest pid, and the one just preempted only when no other
      process is READY. */
  function RoundRobinChoice(procs: seq<Pcb>, lastPreempted: int): (sel: int)
    ensures -1 <= sel < |procs|
    ensures sel >= 0 ==> procs[sel].state == Ready
    ensures (exists j :: 0 <= j < |procs| && Eligible(procs[j], lastPreempted)) ==>
              && sel >= 0 && Eligible(procs[sel], lastPreempted)
              && forall j :: 0 <= j < |procs| && Eligible(procs[j], lastPreempted) ==> procs[sel].pid <= procs[j].pid
    ensures (forall j :: 0 <= j < |procs| ==> !Eligible(procs[j], lastPreempted)) ==>
              && (sel >= 0 <==> lastPreempted != -1 &&
                                exists j :: 0 <= j < |procs| && procs[j].state == Ready && procs[j].pid == lastPreempted)
              && (sel >= 0 ==> procs[sel].pid == lastPreempted)
  {
    var s := RoundRobinBest(procs, lastPreempted);
    if s == -1 && lastPreempted != -1 then FirstReadyWithPid(procs, lastPreempted) else s
  }

  /** The process select_next_process picks under `algorithm`. */
  function Choice(procs: seq<Pcb>, algorithm: Algorithm, lastPreempted: int): (sel: int)
    ensures -1 <= sel < |procs|
    ensures sel >= 0 ==> procs[sel].state == Ready
    ensures sel == -1 && algorithm == Fcfs ==> forall j :: 0 <= j < |procs| ==> procs[j].state != Ready
  {
    if algorithm == Fcfs then FcfsChoice(procs) else RoundRobinChoice(procs, lastPreempted)
  }

  // ---------------------------------------------------- the discipline

  /** How a process holds resources between scheduler operations: it needs
      one CPU; it holds nothing or exactly what it needs; a RUNNING process
      holds what it needs and is the one `runningPid` names; a TERMINATED
      process holds nothing. */
  predicate Behaved(p: Pcb, runningPid: int)
  {
    && p.needed.cpu == MAX_CPU
    && (p.allocation == NoResources || p.allocation == p.needed)
    && (p.state == Running ==> runningPid == p.pid && p.allocation == p.needed)
    && (p.state == Terminated ==> p.allocation == NoResources)
  }

  /** Slot i holds pid i + 1: pids are handed out in order and never
      reused. */
  predicate Numbered(procs: seq<Pcb>)
  {
    forall i :: 0 <= i < |procs| ==> procs[i].pid == i + 1
  }

  predicate AllBehaved(procs: seq<Pcb>, runningPid: int)
  {
    forall i {:trigger Behaved(procs[i], runningPid)} :: 0 <= i < |procs| ==> Behaved(procs[i], runningPid)
  }

  /** Replacing one process by a behaved one with the same pid keeps the
      table numbered and behaved, and changes what is held by the
      difference of the two allocations. */
  lemma {:induction false} Replace(procs: seq<Pcb>, runningPid: int, i: int, p: Pcb)
    requires Numbered(procs) && AllBehaved(procs, runningPid)
    requires 0 <= i < |procs| && p.pid == procs[i].pid && Behaved(p, runningPid)
    ensures Numbered(procs[i := p]) && AllBehaved(procs[i := p], runningPid)
    ensures Held(procs[i := p]).cpu == Held(procs).cpu - procs[i].allocation.cpu + p.allocation.cpu
    ensures Held(procs[i := p]).memoryBlocks ==
      Held(procs).memoryBlocks - procs[i].allocation.memoryBlocks + p.allocation.memoryBlocks
  {
    ReplaceKeepsSlots(procs, runningPid, i, p);
    HeldUpdate(procs, i, p);
  }

  lemma {:induction false} ReplaceKeepsSlots(procs: seq<Pcb>, runningPid: int, i: int, p: Pcb)
    requires Numbered(procs) && AllBehaved(procs, runningPid)
    requires 0 <= i < |procs| && p.pid == procs[i].pid && Behaved(p, runningPid)
    ensures Numbered(procs[i := p]) && AllBehaved(procs[i := p], runningPid)
  {
    var q := procs[i := p];
    forall j | 0 <= j < |q|
      ensures q[j].pid == j + 1 && Behaved(q[j], runningPid)
    {
      if j != i {
        assert q[j] == procs[j];
      }
    }
  }

  /** A new last process numbered next, behaving and holding nothing keeps
      the table numbered and behaved, and leaves what is held unchanged. */
  lemma {:induction false} Appended(procs: seq<Pcb>, runningPid: int, p: Pcb)
    requires Numbered(procs) && AllBehaved(procs, runningPid)
    requires p.pid == |procs| + 1 && Behaved(p, runningPid) && p.allocation == NoResources
    ensures Numbered(procs + [p]) && AllBehaved(procs + [p], runningPid)
    ensures Held(procs + [p]) == Held(procs)
  {
    AppendKeepsSlots(procs, runningPid, p);
    HeldAppend(procs, p);
  }

  lemma {:induction false} AppendKeepsSlots(procs: seq<Pcb>, runningPid: int, p: Pcb)
    requires Numbered(procs) && AllBehaved(procs, runningPid)
    requires p.pid == |procs| + 1 && Behaved(p, runningPid)
    ensures Numbered(procs + [p]) && AllBehaved(procs + [p], runningPid)
  {
    var q := procs + [p];
    forall j | 0 <= j < |q|
      ensures q[j].pid == j + 1 && Behaved(q[j], runningPid)
    {
      if j < |procs| {
        assert q[j] == procs[j];
      }
    }
  }

  /** Once the process `runningPid` names is no longer RUNNING, no process
      is, and the CPU may be marked idle. */
  lemma {:induction false} Idle(procs: seq<Pcb>, runningPid: int)
    requires Numbered(procs) && AllBehaved(procs, runningPid)
    requires 1 <= runningPid <= |procs| ==> procs[runningPid - 1].state != Running
    ensures AllBehaved(procs, -1)
  {
    forall i | 0 <= i < |procs|
      ensures Behaved(procs[i], -1)
    {
      assert Behaved(procs[i], runningPid);
    }
  }

  /** While the CPU is idle no process is RUNNING, so the discipline
      holds whichever process the CPU is handed to next. */
  lemma {:induction false} Handover(procs: seq<Pcb>, runningPid: int)
    requires Numbered(procs) && AllBehaved(procs, -1)
    ensures AllBehaved(procs, runningPid)
  {
    forall i | 0 <= i < |procs|
      ensures Behaved(procs[i], runningPid)
    {
      assert Behaved(procs[i], -1);
    }
  }

  /** What terminate_process makes of an unterminated process: it holds
      nothing, is TERMINATED with `cause`, completed at `now`, and its
      turnaround is the time since its arrival. */
  function Finished(p: Pcb, cause: TerminationCause, now: int): (r: Pcb)
    ensures r.state == Terminated && r.allocation == NoResources && r.cause == cause
    ensures r.completionTime == now && r.turnaroundTime == now - p.arrivalTime
    ensures r.pid == p.pid && r.needed == p.needed && r.arrivalTime == p.arrivalTime
    ensures r.waitingTime == p.waitingTime && r.remainingTime == p.remainingTime
    ensures p.needed.cpu == MAX_CPU ==> forall runningPid :: Behaved(r, runningPid)
  {
    p.(allocation := NoResources, state := Terminated, cause := cause,
       completionTime := now, turnaroundTime := now - p.arrivalTime)
  }

  // ------------------------------------------------------------ execution

  /** One unit of work for the RUNNING process in execute_step: a unit
      less of work, and under Round Robin a unit less of quantum. */
  function Worked(p: Pcb, algorithm: Algorithm): (r: Pcb)
    ensures r.remainingTime == p.remainingTime - 1
    ensures algorithm == RoundRobin ==> r.quantumRemaining == p.quantumRemaining - 1
    ensures algorithm == Fcfs ==> r == p.(remainingTime := r.remainingTime)
    ensures r.(remainingTime := p.remainingTime, quantumRemaining := p.quantumRemaining) == p
  {
    var q := p.(remainingTime := p.remainingTime - 1);
    if algorithm == RoundRobin then q.(quantumRemaining := q.quantumRemaining - 1) else q
  }

  /** A process that has just worked is preempted when Round Robin is in
      force, its quantum is used up and it still has work left. */
  function Preempts(p: Pcb, algorithm: Algorithm): (r: bool)
    ensures algorithm == Fcfs ==> !r
    ensures r ==> p.remainingTime > 0
  {
    algorithm == RoundRobin && p.quantumRemaining <= 0 && p.remainingTime > 0
  }

  // ---------------------------------------------------------------- aging

  /** execute_step's last loop, for one process: READY and WAITING
      processes wait one more unit. */
  function Aged(p: Pcb): (r: Pcb)
  {
    if p.state == Ready || p.state == Waiting then p.(waitingTime := p.waitingTime + 1) else p
  }

  function AgedAll(procs: seq<Pcb>): (r: seq<Pcb>)
    ensures |r| == |procs|
    ensures forall i :: 0 <= i < |procs| ==> r[i] == Aged(procs[i])
  {
    seq(|procs|, i requires 0 <= i < |procs| => Aged(procs[i]))
  }

  /** Aging touches only waiting times: states, pids and allocations, and
      so the resources held, are unchanged. */
  lemma {:induction false} AgingKeepsHeld(procs: seq<Pcb>)
    ensures Held(AgedAll(procs)) == Held(procs)
    ensures forall i :: 0 <= i < |procs| ==>
      AgedAll(procs)[i].(waitingTime := procs[i].waitingTime) == procs[i]
    decreases |procs|
  {
    if procs != [] {
      var n := |procs| - 1;
      AgingKeepsHeld(procs[..n]);
      assert AgedAll(procs)[..n] == AgedAll(procs[..n]);
    }
  }

  /** Aging keeps the table numbered and behaved. */
  lemma {:induction false} AgingKeepsSlots(procs: seq<Pcb>, runningPid: int)
    requires Numbered(procs) && AllBehaved(procs, runningPid)
    ensures Numbered(AgedAll(procs)) && AllBehaved(AgedAll(procs), runningPid)
  {
    var q := AgedAll(procs);
    forall j | 0 <= j < |q|
      ensures q[j].pid == j + 1 && Behaved(q[j], runningPid)
    {
      assert Behaved(procs[j], runningPid);
    }
  }

  // ------------------------------------------------------------ messages

  /** A message `receiver` has not collected yet. */
  predicate Pending(m: Message, receiver: int)
  {
    m.receiver == receiver && !m.delivered
  }

  /** receive_message's effect on the mailbox: every message pending for
      `receiver` is marked delivered. */
  function ReceivedAll(msgs: seq<Message>, receiver: int): (r: seq<Message>)
    ensures |r| == |msgs|
    ensures forall i :: 0 <= i < |msgs| ==> !Pending(r[i], receiver)
    ensures forall i :: 0 <= i < |msgs| ==> r[i].(delivered := msgs[i].delivered) == msgs[i]
    ensures forall i :: 0 <= i < |msgs| && !Pending(msgs[i], receiver) ==> r[i] == msgs[i]
  {
    seq(|msgs|, i requires 0 <= i < |msgs| => Receipt(msgs[i], receiver))
  }

  /** One message after receive_message: delivered if it was pending. */
  function Receipt(m: Message, receiver: int): Message
  {
    if Pending(m, receiver) then m.(delivered := true) else m
  }

  /** The log after receive_message: one MessageReceived entry per pending
      message, in mailbox order. */
  function ReceiptLogs(logs: seq<LogEntry>, msgs: seq<Message>, receiver: int, time: int): seq<LogEntry>
    decreases |msgs|
  {
    if msgs == [] then logs
    else
      var n := |msgs| - 1;
      var before := ReceiptLogs(logs, msgs[..n], receiver, time);
      if Pending(msgs[n], receiver) then Logged(before, LogEntry(time, receiver, MessageReceived(msgs[n].sender)))
      else before
  }

  /** One more message looked at by receive_message adds at most its own
      log entry. */
  lemma {:induction false} ReceiptLogsStep(logs: seq<LogEntry>, msgs: seq<Message>, n: int, receiver: int, time: int)
    requires 0 <= n < |msgs|
    ensures ReceiptLogs(logs, msgs[..n + 1], receiver, time) ==
      var before := ReceiptLogs(logs, msgs[..n], receiver, time);
      if Pending(msgs[n], receiver) then Logged(before, LogEntry(time, receiver, MessageReceived(msgs[n].sender)))
      else before
  {
    assert msgs[..n + 1][..n] == msgs[..n];
  }

  /** Receiving is idempotent: a second receive_message for the same pid
      finds nothing pending, changes no message and logs nothing. */
  lemma {:induction false} ReceiveTwiceIsReceiveOnce(msgs: seq<Message>, receiver: int, logs: seq<LogEntry>, time: int)
    ensures ReceivedAll(ReceivedAll(msgs, receiver), receiver) == ReceivedAll(msgs, receiver)
    ensures ReceiptLogs(logs, ReceivedAll(msgs, receiver), receiver, time) == logs
    decreases |msgs|
  {
    if msgs != [] {
      var n := |msgs| - 1;
      ReceiveTwiceIsReceiveOnce(msgs[..n], receiver, logs, time);
      assert ReceivedAll(msgs, receiver)[..n] == ReceivedAll(msgs[..n], receiver);
    }
  }

  /** The log grows by at most one entry per message received. */
  lemma {:induction false} ReceiptLogsBounded(logs: seq<LogEntry>, msgs: seq<Message>, receiver: int, time: int)
    requires |logs| <= MAX_LOG_ENTRIES
    ensures logs <= ReceiptLogs(logs, msgs, receiver, time)
    ensures |ReceiptLogs(logs, msgs, receiver, time)| <= MAX_LOG_ENTRIES
    ensures |ReceiptLogs(logs, msgs, receiver, time)| <= |logs| + |msgs|
    decreases |msgs|
  {
    if msgs != [] {
      var n := |msgs| - 1;
      ReceiptLogsBounded(logs, msgs[..n], receiver, time);
      LoggedKeepsHistory(ReceiptLogs(logs, msgs[..n], receiver, time), LogEntry(time, receiver, MessageReceived(msgs[n].sender)));
    }
  }
}
