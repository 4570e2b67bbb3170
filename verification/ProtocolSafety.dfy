/**
 What every run of the blocking protocol keeps: no wakeup is lost, no acquire spins, no panic is
 reached, and the books of context switches balance.
 */
module ProtocolSafety {
  import opened Base
  import opened RunQueue
  import opened Protocol
  import L = Ldisc

  // ---------------------------------------------------------------------------------------------
  // The invariant

  predicate Exiting(p: Point) { p.ExitFlagged? || p.ExitReturn? }

  predicate Asleep(p: Point) { p.SleepUnlock? || p.SleepSwitch? }

  /** Inside sleep(), between setting the channel and clearing it. */
  predicate OnChannel(p: Point) { Asleep(p) || p.SleepResume? }

  predicate LockedPoint(p: Point) {
    p.ReadTest? || p.SleepMark? || p.SleepUnlock? || p.Drain? || p.ReadUnlock?
  }

  predicate LockedTrap(t: Trap) { t.FeedHeld? || t.FeedUnlock? }

  /** Whoever is on the CPU is inside a section that holds the console lock. */
  predicate Holding(s: State)
    requires s.cpu.OnTask? ==> s.cpu.i < |s.tasks|
  {
    LockedTrap(CpuTrap(s)) ||
    (s.cpu.OnTask? && CpuTrap(s).NoTrap? && LockedPoint(s.tasks[s.cpu.i].point))
  }

  /** True of every task, running or not. */
  ghost predicate TaskOk(t: Thread) {
    && t.chan == (if OnChannel(t.point) then CONSOLE else 0)
    && (Exiting(t.point) ==> t.state == Dead)
    && (!Open(t.point) ==> t.readIrq && t.trap == NoTrap)
    && (t.trap != NoTrap ==> t.frameIrq)
    && (t.state == Blocked ==> OnChannel(t.point))
  }

  /** A task that is not on the CPU is parked in one of the two calls of sched(). */
  ghost predicate Parked(t: Thread) {
    && t.state != Running
    && (t.trap == TrapResume || t.point == SleepResume)
  }

  /** The state a task on the CPU is in, point by point. */
  ghost predicate OnCpuState(t: Thread, needResched: bool) {
    if t.trap == TrapSwitch then t.state == Ready || t.state == Dead
    else if Asleep(t.point) then t.state == Blocked
    else if Exiting(t.point) then t.trap != TrapResume && (t.point.ExitReturn? ==> needResched)
    else t.state == Running ||
         (t.state == Dead && t.point == User && t.trap == TrapExit && needResched)
  }

  ghost predicate SchedulerOk(s: State)
    requires Sane(s)
  {
    && s.current == (if s.sched.Returned? then Some(s.sched.next) else None)
    && (s.sched.Dispatching? ==> s.tasks[s.sched.next].state == Ready)
    && (s.sched.Halted? ==> forall i :: 0 <= i < |s.tasks| ==> s.tasks[i].state == Dead)
    && (s.schedTrap != NoTrap ==>
          s.sched.Idle? && s.schedFrameIrq && s.schedTrap != TrapSwitch && s.schedTrap != TrapResume)
    && if s.cpu.OnTask? then
         && s.schedTrap == NoTrap && s.schedFrame && s.sched == Returned(s.cpu.i)
         && s.irqOn == (CpuTrap(s).NoTrap? && Open(s.tasks[s.cpu.i].point))
         && OnCpuState(s.tasks[s.cpu.i], s.needResched)
       else
         s.irqOn == (s.schedTrap.NoTrap? && s.sched.Idle?)
  }

  /** What the handler or the code on the CPU knows about the line. */
  ghost predicate LineKnown(s: State)
    requires Sane(s)
  {
    && (CpuTrap(s).FeedUnlock? ==> CpuTrap(s).ready == s.line.complete)
    && (CpuTrap(s).FeedWake? ==> s.line.complete)
    && (s.cpu.OnTask? ==>
          var p := s.tasks[s.cpu.i].point;
          && (p.Drain? ==> s.line.complete)
          && (p.SleepMark? || Asleep(p) ==> !s.line.complete))
  }

  /** The handler that completed the line has not reached its call of wakeup() yet. */
  predicate WakePending(t: Trap) { t.FeedUnlock? || t.FeedWake? }

  /** A finished line with somebody blocked on it means that wakeup() is still to come. */
  ghost predicate NoSleeperForgotten(s: State)
    requires Sane(s)
  {
    s.line.complete && (exists i :: 0 <= i < |s.tasks| && s.tasks[i].state == Blocked) ==>
      WakePending(CpuTrap(s))
  }

  function Sum(counts: seq<nat>): nat {
    if counts == [] then 0 else Sum(counts[..|counts| - 1]) + counts[|counts| - 1]
  }

  /** Who may be where: tasks, scheduler, interrupt mask, lock and line. */
  ghost predicate Control(s: State) {
    && Sane(s) && !s.panicked
    && (forall i :: 0 <= i < |s.tasks| ==>
          TaskOk(s.tasks[i]) && (s.cpu != OnTask(i) ==> Parked(s.tasks[i])))
    && SchedulerOk(s)
    && s.lock == Holding(s)
    && LineKnown(s)
    && NoSleeperForgotten(s)
  }

  /** What was counted and what was typed and read. */
  ghost predicate Books(s: State) {
    && s.line == L.After(s.history)
    && Sum(s.switches) == s.bootSwitches + (if s.current.Some? then 1 else 0)
  }

  // ---------------------------------------------------------------------------------------------
  // Every step keeps who may be where

  /** Everything but one task, the mask, the lock, the line and need_resched is as it was. */
  ghost predicate ChangesOnly(s: State, s': State, i: nat) {
    && |s'.tasks| == |s.tasks| && i < |s.tasks|
    && (forall j :: 0 <= j < |s.tasks| && j != i ==> s'.tasks[j] == s.tasks[j])
    && s'.current == s.current && s'.cursor == s.cursor && s'.sched == s.sched
    && s'.schedTrap == s.schedTrap && s'.schedFrame == s.schedFrame
    && s'.panicked == s.panicked && s'.switches == s.switches
  }

  /** A step of the task on the CPU that stays on it: only facts about that task are left to check. */
  lemma TaskMoves(s: State, s': State, i: nat)
    requires Control(s) && s.cpu == OnTask(i) && ChangesOnly(s, s', i) && s'.cpu == s.cpu
    requires var t := s'.tasks[i];
             && TaskOk(t) && OnCpuState(t, s'.needResched)
             && s'.irqOn == (t.trap.NoTrap? && Open(t.point))
             && (s'.line.complete ==> t.state != Blocked)
             && (s'.line.complete && (!s.line.complete || WakePending(s.tasks[i].trap)) ==> WakePending(t.trap))
    requires L.ValidLine(s'.line)
    requires s'.lock == Holding(s') && LineKnown(s')
    ensures Control(s')
  {
  }

  /** A step of the task on the CPU into sched(): it parks, still masked and not holding the lock. */
  lemma TaskParks(s: State, s': State, i: nat)
    requires Control(s) && s.cpu == OnTask(i) && ChangesOnly(s, s', i) && s'.cpu == OnScheduler
    requires TaskOk(s'.tasks[i]) && Parked(s'.tasks[i])
    requires s.tasks[i].state == s'.tasks[i].state && !WakePending(s.tasks[i].trap)
    requires !s'.irqOn && !s'.lock && s'.line == s.line
    ensures Control(s')
  {
  }

  /** A step of a handler on top of the idle scheduler. */
  lemma IdleMoves(s: State, s': State)
    requires Control(s) && s.cpu == OnScheduler && s.sched.Idle?
    requires s' == s.(schedTrap := s'.schedTrap, schedFrameIrq := s'.schedFrameIrq, irqOn := s'.irqOn,
                      lock := s'.lock, needResched := s'.needResched, line := s'.line, history := s'.history)
    requires s'.irqOn == s'.schedTrap.NoTrap?
    requires s'.schedTrap != NoTrap ==> s'.schedFrameIrq && !s'.schedTrap.TrapSwitch? && !s'.schedTrap.TrapResume?
    requires s'.line.complete && (!s.line.complete || WakePending(s.schedTrap)) ==> WakePending(s'.schedTrap)
    requires L.ValidLine(s'.line)
    requires s'.lock == Holding(s') && LineKnown(s')
    ensures Control(s')
  {
  }

  lemma InterruptKeeps(s: State, uart: bool)
    requires Control(s) && Enabled(s, Interrupt(uart))
    ensures Control(Exec(s, Interrupt(uart)))
  {
    var s' := Exec(s, Interrupt(uart));
    if s.cpu.OnTask? { TaskMoves(s, s', s.cpu.i); } else { IdleMoves(s, s'); }
  }

  lemma UartKeeps(s: State, byte: Option<Byte>)
    requires Control(s) && CpuTrap(s).UartLoop?
    ensures Control(Handling(s, byte))
  {
    var s' := Handling(s, byte);
    if s.cpu.OnTask? { TaskMoves(s, s', s.cpu.i); } else { IdleMoves(s, s'); }
  }

  lemma HandlingKeeps(s: State, byte: Option<Byte>)
    requires Control(s) && (CpuTrap(s).TickEntry? || CpuTrap(s).FeedAcquire?)
    ensures Control(Handling(s, byte))
  {
    var s' := Handling(s, byte);
    if s.cpu.OnTask? { TaskMoves(s, s', s.cpu.i); } else { IdleMoves(s, s'); }
  }

  lemma FeedingKeeps(s: State)
    requires Control(s) && (CpuTrap(s).FeedHeld? || CpuTrap(s).FeedUnlock?)
    ensures Control(Feeding(s))
  {
    var s' := Feeding(s);
    if s.cpu.OnTask? { TaskMoves(s, s', s.cpu.i); } else { IdleMoves(s, s'); }
  }

  /** wakeup() leaves nobody blocked on the console. */
  lemma WakingKeeps(s: State)
    requires Control(s) && CpuTrap(s).FeedWake?
    ensures Control(Feeding(s))
    ensures forall i :: 0 <= i < |Feeding(s).tasks| ==> Feeding(s).tasks[i].state != Blocked
  {
    var s' := Feeding(s);
    assert forall i :: 0 <= i < |s'.tasks| ==> s'.tasks[i].state != Blocked;
  }

  lemma LeavingKeeps(s: State)
    requires Control(s) && (CpuTrap(s).TrapExit? || CpuTrap(s).TrapSwitch? || CpuTrap(s).TrapResume?)
    ensures Control(Leaving(s))
  {
    var s' := Leaving(s);
    if s.cpu.OnScheduler? { IdleMoves(s, s'); }
    else if CpuTrap(s).TrapSwitch? { TaskParks(s, s', s.cpu.i); }
    else { TaskMoves(s, s', s.cpu.i); }
  }

  lemma UserKeeps(s: State, i: nat, act: Act)
    requires Control(s) && s.cpu == OnTask(i) && CpuTrap(s) == NoTrap
    requires s.tasks[i].point.User? || Exiting(s.tasks[i].point)
    ensures Control(Computing(s, i, act))
  {
    TaskMoves(s, Computing(s, i, act), i);
  }

  lemma KernelKeeps(s: State, i: nat, act: Act)
    requires Control(s) && s.cpu == OnTask(i) && CpuTrap(s) == NoTrap && s.tasks[i].point.Kernel?
    ensures Control(Computing(s, i, act))
  {
    TaskMoves(s, Computing(s, i, act), i);
  }

  lemma ReadingKeeps(s: State, i: nat, size: nat)
    requires Control(s) && s.cpu == OnTask(i) && CpuTrap(s) == NoTrap && size > 0
    requires s.tasks[i].point.ReadAcquire? || s.tasks[i].point.ReadTest? || s.tasks[i].point.ReadRestore?
    ensures Control(Reading(s, i, size))
  {
    TaskMoves(s, Reading(s, i, size), i);
  }

  lemma DrainKeeps(s: State, i: nat, size: nat)
    requires Control(s) && s.cpu == OnTask(i) && CpuTrap(s) == NoTrap && size > 0
    requires s.tasks[i].point.Drain? || s.tasks[i].point.ReadUnlock?
    ensures Control(Reading(s, i, size))
  {
    TaskMoves(s, Reading(s, i, size), i);
  }

  lemma SleepKeeps(s: State, i: nat)
    requires Control(s) && s.cpu == OnTask(i) && CpuTrap(s) == NoTrap
    requires s.tasks[i].point.SleepMark? || Asleep(s.tasks[i].point)
    ensures Control(Sleeping(s, i))
  {
    var s' := Sleeping(s, i);
    if s.tasks[i].point.SleepSwitch? { TaskParks(s, s', i); } else { TaskMoves(s, s', i); }
  }

  lemma ResumeKeeps(s: State, i: nat)
    requires Control(s) && s.cpu == OnTask(i) && CpuTrap(s) == NoTrap
    requires s.tasks[i].point.SleepResume? || s.tasks[i].point.SleepReacquire?
    ensures Control(Sleeping(s, i))
  {
    TaskMoves(s, Sleeping(s, i), i);
  }

  lemma SchedulerKeeps(s: State)
    requires Control(s) && s.cpu == OnScheduler && s.schedTrap == NoTrap
    requires s.sched.Dispatching? || s.sched.Returned? || s.sched.Idle?
    ensures Control(AdvanceScheduler(s))
  {
  }

  lemma ChosenIsReady(s: State)
    requires Sane(s)
    ensures match Chosen(s)
            case Some(i) => i < |s.tasks| && s.tasks[i].state == Ready
            case None => forall i :: 0 <= i < |s.tasks| ==> s.tasks[i].state != Ready
  {
    if s.tasks != [] {
      PickIsNearest(States(s), StartOf(s));
      assert forall i :: 0 <= i < |s.tasks| ==> States(s)[i] == s.tasks[i].state;
    }
  }

  /** The scheduler thread moves on without touching a task. */
  lemma ChooserMoves(s: State, s': State)
    requires Control(s) && s.cpu == OnScheduler && s.schedTrap == NoTrap && s.sched.Choosing?
    requires s' == s.(cursor := s'.cursor, sched := s'.sched, irqOn := s'.irqOn)
    requires s'.cursor.Some? ==> s'.cursor.value < |s.tasks|
    requires s'.sched.Dispatching? ==> s'.sched.next < |s.tasks| && s.tasks[s'.sched.next].state == Ready
    requires s'.sched.Halted? ==> forall i :: 0 <= i < |s.tasks| ==> s.tasks[i].state == Dead
    requires !s'.sched.Returned? && s'.irqOn == s'.sched.Idle?
    ensures Control(s')
  {
  }

  lemma ChoiceKeeps(s: State)
    requires Control(s) && s.cpu == OnScheduler && s.schedTrap == NoTrap && s.sched.Choosing?
    ensures Control(AdvanceScheduler(s))
  {
    ChosenIsReady(s);
    ChooserMoves(s, AdvanceScheduler(s));
  }

  lemma ControlKept(s: State, step: Step)
    requires Control(s) && Enabled(s, step)
    ensures Control(Exec(s, step))
  {
    match step
    case Interrupt(uart) => InterruptKeeps(s, uart);
    case Advance(act, byte, size) =>
      var t := CpuTrap(s);
      if t.UartLoop? { UartKeeps(s, byte); }
      else if t.TickEntry? || t.FeedAcquire? { HandlingKeeps(s, byte); }
      else if t.FeedWake? { WakingKeeps(s); }
      else if t.FeedHeld? || t.FeedUnlock? { FeedingKeeps(s); }
      else if t != NoTrap { LeavingKeeps(s); }
      else if s.cpu.OnTask? {
        var p := s.tasks[s.cpu.i].point;
        if p.Kernel? { KernelKeeps(s, s.cpu.i, act); }
        else if Open(p) { UserKeeps(s, s.cpu.i, act); }
        else if p.SleepMark? || Asleep(p) { SleepKeeps(s, s.cpu.i); }
        else if InSleep(p) { ResumeKeeps(s, s.cpu.i); }
        else if p.Drain? || p.ReadUnlock? { DrainKeeps(s, s.cpu.i, size); }
        else { ReadingKeeps(s, s.cpu.i, size); }
      }
      else if s.sched.Choosing? { ChoiceKeeps(s); }
      else { SchedulerKeeps(s); }
  }

  // ---------------------------------------------------------------------------------------------
  // Every step keeps the books

  lemma {:induction false} OneMore(counts: seq<nat>, i: nat)
    requires i < |counts|
    ensures Sum(counts[i := counts[i] + 1]) == Sum(counts) + 1
  {
    var last := |counts| - 1;
    if i == last {
      assert counts[i := counts[i] + 1][..last] == counts[..last];
    } else {
      assert counts[i := counts[i] + 1][..last] == counts[..last][i := counts[i] + 1];
      OneMore(counts[..last], i);
    }
  }

  lemma {:induction false} SumOfZeros(counts: seq<nat>)
    requires forall i :: 0 <= i < |counts| ==> counts[i] == 0
    ensures Sum(counts) == 0
  {
    if counts != [] { SumOfZeros(counts[..|counts| - 1]); }
  }

  lemma HistoryGrows(h: seq<L.Event>, e: L.Event)
    ensures L.After(h + [e]) == L.Step(L.After(h), e)
  {
    assert (h + [e])[..|h|] == h;
  }

  /** The scheduler thread itself is on the CPU. */
  predicate Scheduling(s: State) { s.cpu.OnScheduler? && s.schedTrap.NoTrap? }

  ghost predicate Orderly(s: State, s': State)
    requires Sane(s)
  {
    Quiet(s, s') || (Scheduling(s) && s' == AdvanceScheduler(s))
  }

  lemma StepIsOrderly(s: State, step: Step)
    requires Control(s) && Enabled(s, step)
    ensures Orderly(s, Exec(s, step))
  {
  }

  /** The line moves only as its history says. */
  lemma LineKept(s: State, step: Step)
    requires Control(s) && Books(s) && Enabled(s, step)
    ensures Exec(s, step).line == L.After(Exec(s, step).history)
  {
    if step.Advance? {
      if CpuTrap(s).FeedHeld? { HistoryGrows(s.history, L.Typed(CpuTrap(s).byte)); }
      HistoryGrows(s.history, L.Read(step.size));
    }
  }

  lemma DispatchCounts(s: State)
    requires Control(s) && Books(s) && Scheduling(s) && s.sched.Dispatching? && !AdvanceScheduler(s).panicked
    ensures Sum(AdvanceScheduler(s).switches) == AdvanceScheduler(s).bootSwitches +
            (if AdvanceScheduler(s).current.Some? then 1 else 0)
  {
    OneMore(s.switches, s.sched.next);
  }

  lemma OthersDoNotCount(s: State)
    requires Control(s) && !s.sched.Dispatching?
    ensures AdvanceScheduler(s).switches == s.switches
  {
  }

  lemma OthersKeepBalance(s: State)
    requires Control(s) && !s.sched.Dispatching? && !AdvanceScheduler(s).panicked
    ensures var r := AdvanceScheduler(s);
            r.bootSwitches + (if r.current.Some? then 1 else 0) == s.bootSwitches + (if s.current.Some? then 1 else 0)
  {
  }

  /** Only a dispatch counts a switch. */
  lemma SwitchesKept(s: State, s': State)
    requires Control(s) && Books(s) && Orderly(s, s') && !s'.panicked
    ensures Sum(s'.switches) == s'.bootSwitches + (if s'.current.Some? then 1 else 0)
  {
    if !Quiet(s, s') {
      if s.sched.Dispatching? {
        DispatchCounts(s);
      } else {
        OthersDoNotCount(s);
        OthersKeepBalance(s);
      }
    }
  }

  // ---------------------------------------------------------------------------------------------
  // Whole runs

  ghost predicate Inv(s: State) { Control(s) && Books(s) }

  lemma InitialInv(s: State)
    requires Initial(s)
    ensures Inv(s)
  {
    SumOfZeros(s.switches);
  }

  lemma StepInv(s: State, step: Step)
    requires Inv(s) && Enabled(s, step)
    ensures Inv(Exec(s, step)) && Orderly(s, Exec(s, step))
  {
    ControlKept(s, step);
    StepIsOrderly(s, step);
    LineKept(s, step);
    SwitchesKept(s, Exec(s, step));
  }

  /** In every run the invariant holds at every state, and every step is orderly. */
  lemma {:induction false} RunKeeps(states: seq<State>, steps: seq<Step>, k: nat)
    requires IsRun(states, steps) && k < |states|
    ensures Inv(states[k])
    ensures k > 0 ==> Inv(states[k - 1]) && Orderly(states[k - 1], states[k])
  {
    if k == 0 {
      InitialInv(states[0]);
    } else {
      RunKeeps(states, steps, k - 1);
      assert Follows(states, steps, k - 1);
      StepInv(states[k - 1], steps[k - 1]);
    }
  }

  /**
   No lost wakeup.  In every reachable state, a finished line while somebody is blocked on the
   console means the interrupt handler that finished it is still on the CPU, masked, with its
   call of wakeup() ahead of it.  So whenever the mask is open, nobody sleeps on a finished line.
   */
  lemma NoLostWakeup(states: seq<State>, steps: seq<Step>, k: nat, i: nat)
    requires IsRun(states, steps) && k < |states|
    requires i < |states[k].tasks| && states[k].tasks[i].state == Blocked
    ensures Sane(states[k]) && states[k].tasks[i].chan == CONSOLE
    ensures states[k].line.complete ==> WakePending(CpuTrap(states[k])) && !states[k].irqOn
  {
    RunKeeps(states, steps, k);
  }

  /** And that handler does wake them: two of its steps later nobody is blocked. */
  lemma PendingWakeupHappens(s: State, first: Step, second: Step)
    requires Control(s) && s.line.complete && CpuTrap(s).FeedUnlock?
    requires first.Advance? && Enabled(s, first) && second.Advance? && Enabled(Exec(s, first), second)
    ensures var s' := Exec(Exec(s, first), second);
            forall i :: 0 <= i < |s'.tasks| ==> s'.tasks[i].state != Blocked
  {
    var mid := Exec(s, first);
    FeedingKeeps(s);
    assert mid == Feeding(s) && CpuTrap(mid).FeedWake?;
    WakingKeeps(mid);
    assert Exec(mid, second) == Feeding(mid);
  }

  lemma IdleChoice(s: State, s': State)
    requires Control(s) && Orderly(s, s') && !s.sched.Idle? && s'.sched.Idle?
    ensures forall i :: 0 <= i < |s.tasks| ==> s.tasks[i].state == Dead || s.tasks[i].state == Blocked
    ensures !s.line.complete
  {
    ChosenIsReady(s);
    assert exists i :: 0 <= i < |s.tasks| && s.tasks[i].state != Dead;
    assert forall i :: 0 <= i < |s.tasks| ==> Parked(s.tasks[i]);
  }

  /** The scheduler idles only when every live task is blocked and no line is waiting for them. */
  lemma IdleOnlyWhenStuck(states: seq<State>, steps: seq<Step>, k: nat)
    requires IsRun(states, steps) && k < |steps|
    requires !states[k].sched.Idle? && states[k + 1].sched.Idle?
    ensures forall i :: 0 <= i < |states[k].tasks| ==>
              states[k].tasks[i].state == Dead || states[k].tasks[i].state == Blocked
    ensures !states[k].line.complete
  {
    RunKeeps(states, steps, k + 1);
    IdleChoice(states[k], states[k + 1]);
  }

  /** The CPU is about to execute spinlock_lock. */
  predicate Acquiring(s: State)
    requires Sane(s)
  {
    || CpuTrap(s).FeedAcquire?
    || (s.cpu.OnTask? && CpuTrap(s).NoTrap? &&
        (s.tasks[s.cpu.i].point.ReadAcquire? || s.tasks[s.cpu.i].point.SleepReacquire?))
  }

  /** Mutual exclusion, and the kernel's own assertions, over every run. */
  lemma SafeRuns(states: seq<State>, steps: seq<Step>, k: nat)
    requires IsRun(states, steps) && k < |states|
    // no panic in sched(), sleep() or scheduler()
    ensures Sane(states[k]) && !states[k].panicked
    // at most one task is RUNNING, it is `current`, and it is on the CPU
    ensures forall i :: 0 <= i < |states[k].tasks| && states[k].tasks[i].state == Running ==>
              states[k].cpu == OnTask(i) && states[k].current == Some(i)
    // the console lock is held only on the CPU with interrupts masked, so no acquire ever spins
    ensures states[k].lock ==> !states[k].irqOn && Holding(states[k])
    ensures Acquiring(states[k]) ==> !states[k].lock
    // shutdown only when every task is dead
    ensures states[k].sched.Halted? ==> forall i :: 0 <= i < |states[k].tasks| ==> states[k].tasks[i].state == Dead
    // a task that called exit does not get back to user mode
    ensures states[k].cpu.OnTask? && CpuTrap(states[k]).NoTrap? ==>
              var t := states[k].tasks[states[k].cpu.i]; t.point.User? ==> t.state == Running
    // every switch into a task is matched by one back, save the one in progress
    ensures Sum(states[k].switches) == states[k].bootSwitches + (if states[k].current.Some? then 1 else 0)
  {
    RunKeeps(states, steps, k);
  }

  lemma DeadThroughHandling(s: State, byte: Option<Byte>, i: nat)
    requires Control(s) && (CpuTrap(s).TickEntry? || CpuTrap(s).UartLoop? || CpuTrap(s).FeedAcquire?)
    requires i < |s.tasks| && s.tasks[i].state == Dead
    ensures Handling(s, byte).tasks[i].state == Dead
  {
  }

  lemma DeadThroughFeeding(s: State, i: nat)
    requires Control(s) && (CpuTrap(s).FeedHeld? || CpuTrap(s).FeedUnlock? || CpuTrap(s).FeedWake?)
    requires i < |s.tasks| && s.tasks[i].state == Dead
    ensures Feeding(s).tasks[i].state == Dead
  {
  }

  lemma DeadThroughLeaving(s: State, i: nat)
    requires Control(s) && (CpuTrap(s).TrapExit? || CpuTrap(s).TrapSwitch? || CpuTrap(s).TrapResume?)
    requires i < |s.tasks| && s.tasks[i].state == Dead
    ensures Leaving(s).tasks[i].state == Dead
  {
  }

  lemma DeadThroughTrap(s: State, byte: Option<Byte>, i: nat)
    requires Control(s) && CpuTrap(s) != NoTrap && i < |s.tasks| && s.tasks[i].state == Dead
    ensures AdvanceTrap(s, byte).tasks[i].state == Dead
  {
    var t := CpuTrap(s);
    if t.TickEntry? || t.UartLoop? || t.FeedAcquire? {
      DeadThroughHandling(s, byte, i);
    } else if t.FeedHeld? || t.FeedUnlock? || t.FeedWake? {
      DeadThroughFeeding(s, i);
    } else {
      DeadThroughLeaving(s, i);
    }
  }

  lemma DeadThroughKernel(s: State, act: Act, j: nat, i: nat)
    requires Control(s) && s.cpu == OnTask(j) && s.tasks[j].point.Kernel? && i < |s.tasks| && s.tasks[i].state == Dead
    ensures Computing(s, j, act).tasks[i].state == Dead
  {
  }

  lemma DeadThroughUser(s: State, act: Act, j: nat, i: nat)
    requires Control(s) && s.cpu == OnTask(j) && Open(s.tasks[j].point) && !s.tasks[j].point.Kernel?
    requires i < |s.tasks| && s.tasks[i].state == Dead
    ensures Computing(s, j, act).tasks[i].state == Dead
  {
  }

  lemma DeadThroughReading(s: State, size: nat, j: nat, i: nat)
    requires Control(s) && s.cpu == OnTask(j) && !Open(s.tasks[j].point) && !InSleep(s.tasks[j].point)
    requires i < |s.tasks| && s.tasks[i].state == Dead
    ensures Reading(s, j, size).tasks[i].state == Dead
  {
  }

  lemma DeadThroughSleeping(s: State, j: nat, i: nat)
    requires Control(s) && CpuTrap(s) == NoTrap && s.cpu == OnTask(j) && InSleep(s.tasks[j].point)
    requires i < |s.tasks| && s.tasks[i].state == Dead
    ensures Sleeping(s, j).tasks[i].state == Dead
  {
    assert TaskOk(s.tasks[j]);
  }

  lemma DeadThroughTask(s: State, act: Act, size: nat, j: nat, i: nat)
    requires Control(s) && CpuTrap(s) == NoTrap && s.cpu == OnTask(j) && i < |s.tasks| && s.tasks[i].state == Dead
    ensures AdvanceTask(s, j, act, size).tasks[i].state == Dead
  {
    if s.tasks[j].point.Kernel? {
      DeadThroughKernel(s, act, j, i);
    } else if Open(s.tasks[j].point) {
      DeadThroughUser(s, act, j, i);
    } else if InSleep(s.tasks[j].point) {
      DeadThroughSleeping(s, j, i);
    } else {
      DeadThroughReading(s, size, j, i);
    }
  }

  lemma DeadStaysDead(s: State, step: Step, i: nat)
    requires Control(s) && Enabled(s, step) && i < |s.tasks| && s.tasks[i].state == Dead
    ensures |Exec(s, step).tasks| == |Exec(s, step).switches| == |s.tasks|
    ensures Exec(s, step).tasks[i].state == Dead && Exec(s, step).switches[i] == s.switches[i]
  {
    if step.Advance? {
      if CpuTrap(s) != NoTrap { DeadThroughTrap(s, step.byte, i); }
      else if s.cpu.OnTask? { DeadThroughTask(s, step.act, step.size, s.cpu.i, i); }
    }
  }

  /** A dead task is dead in the next state of a run, with the same switch count. */
  lemma DeadNext(states: seq<State>, steps: seq<Step>, m: nat, i: nat)
    requires IsRun(states, steps) && m < |steps|
    requires i < |states[m].tasks| == |states[m].switches| && states[m].tasks[i].state == Dead
    ensures i < |states[m + 1].tasks| == |states[m + 1].switches| && states[m + 1].tasks[i].state == Dead
    ensures states[m + 1].switches[i] == states[m].switches[i]
  {
    RunKeeps(states, steps, m);
    assert Follows(states, steps, m);
    DeadStaysDead(states[m], steps[m], i);
  }

  /** A dead task is never dispatched again: its state and its switch count are final. */
  lemma {:induction false} DeadIsFinal(states: seq<State>, steps: seq<Step>, k: nat, m: nat, i: nat)
    requires IsRun(states, steps) && k <= m < |states|
    requires i < |states[k].tasks| && states[k].tasks[i].state == Dead
    ensures i < |states[m].tasks| == |states[m].switches| && states[m].tasks[i].state == Dead
    ensures |states[k].switches| == |states[k].tasks| && states[m].switches[i] == states[k].switches[i]
  {
    RunKeeps(states, steps, k);
    if k < m {
      DeadIsFinal(states, steps, k, m - 1, i);
      DeadNext(states, steps, m - 1, i);
    }
  }

  /** Over every run, what the readers got so far followed by what waits is what was typed, edited. */
  lemma ReadersGetTheTranscript(states: seq<State>, steps: seq<Step>, k: nat)
    requires IsRun(states, steps) && k < |states|
    ensures L.ValidLine(states[k].line)
    ensures L.Drained(states[k].history) + L.Unread(states[k].line) == L.Transcript(L.Accepted(states[k].history))
    ensures |L.Drained(states[k].history)| == L.Refer(states[k].history).got
  {
    RunKeeps(states, steps, k);
    L.DrainedIsTranscript(states[k].history);
  }

  // ---------------------------------------------------------------------------------------------
  // Bounded waiting

  /** A task is chosen for dispatch between the two states. */
  predicate Chooses(s: State, s': State) { !s.sched.Dispatching? && s'.sched.Dispatching? }

  /** How many choices are made from state `a` of the run to state `b`. */
  function Choices(states: seq<State>, a: nat, b: nat): nat
    requires a <= b < |states|
  {
    if a == b then 0
    else Choices(states, a, b - 1) + (if Chooses(states[b - 1], states[b]) then 1 else 0)
  }

  /** How far ahead of the cursor task `t` is. */
  function Ahead(s: State, t: nat): (d: nat)
    requires Sane(s) && t < |s.tasks|
    ensures 1 <= d <= |s.tasks|
  {
    Distance(StartOf(s), t, |s.tasks|)
  }

  lemma ChoiceApproaches(s: State, s': State, t: nat)
    requires Control(s) && Control(s') && Orderly(s, s') && t < |s.tasks| && s.tasks[t].state == Ready
    ensures |s'.tasks| == |s.tasks|
    ensures s'.sched != Dispatching(t) ==>
              Ahead(s', t) + (if Chooses(s, s') then 1 else 0) <= Ahead(s, t)
  {
    if !Quiet(s, s') && s.sched.Choosing? {
      PickApproaches(States(s), StartOf(s), t);
      assert s'.sched == Dispatching(Chosen(s).value) && s'.cursor == Chosen(s);
    } else {
      assert s'.cursor == s.cursor;
    }
  }

  /** While `t` waits in READY, every choice of another task brings the cursor nearer to it. */
  lemma {:induction false} WaitingIsBounded(states: seq<State>, steps: seq<Step>, a: nat, b: nat, t: nat)
    requires IsRun(states, steps) && a <= b < |states| && t < |states[a].tasks|
    requires forall k :: a <= k <= b ==> t < |states[k].tasks| && states[k].tasks[t].state == Ready
    requires forall k :: a < k <= b ==> states[k].sched != Dispatching(t)
    ensures Sane(states[a]) && Sane(states[b]) && |states[b].tasks| == |states[a].tasks|
    ensures Choices(states, a, b) + Ahead(states[b], t) <= Ahead(states[a], t)
  {
    RunKeeps(states, steps, b);
    if a < b {
      WaitingIsBounded(states, steps, a, b - 1, t);
      ChoiceApproaches(states[b - 1], states[b], t);
    }
  }

  /** A task that stays READY is dispatched before `n` choices are made, `n` being the number of tasks. */
  lemma BoundedWaiting(states: seq<State>, steps: seq<Step>, a: nat, b: nat, t: nat)
    requires IsRun(states, steps) && a <= b < |states| && t < |states[a].tasks|
    requires forall k :: a <= k <= b ==> t < |states[k].tasks| && states[k].tasks[t].state == Ready
    requires Choices(states, a, b) >= |states[a].tasks|
    ensures exists k :: a < k <= b && states[k].sched == Dispatching(t)
  {
    if forall k :: a < k <= b ==> states[k].sched != Dispatching(t) {
      WaitingIsBounded(states, steps, a, b, t);
    }
  }
}
