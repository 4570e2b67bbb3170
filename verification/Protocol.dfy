/**
 The blocking protocol of the single-CPU kernel as a state machine: any number of tasks reading
 the console, the UART and timer interrupts, and the scheduler thread
 (kernel/src/proc/sched.c, kernel/src/drivers/console_dev.c, kernel/src/core/spinlock.c).

 One step is one statement of the source that touches shared state (the lock word, the interrupt
 mask, a task's state or channel, the line discipline, the current task).  An interrupt may be
 accepted before any step at which the mask is open, and its handler is then stepped through in
 the same way, on top of whatever it interrupted.
 */
module Protocol {
  import opened Base
  import opened RunQueue
  import L = Ldisc

  /** The address of the line discipline, the only channel tasks sleep on. */
  const CONSOLE: nat := 1
  /** Ctrl-P: dumps the tasks instead of being typed. */
  const DUMP_KEY: Byte := 0x10

  /** What a task will execute next in its own code. */
  datatype Point =
    | User              // user mode, or kernel-thread code
    | Kernel            // inside syscall_dispatch, interrupts open
    | ExitFlagged       // sched_exit_current: state is DEAD, need_resched not yet set
    | ExitReturn        // need_resched set, on the way out of the system call
    | ReadAcquire       // console read: masked, about to take the lock
    | ReadTest          // lock held, about to test ldisc_ready
    | SleepMark         // in sleep(): about to set chan and BLOCKED
    | SleepUnlock       // about to drop the lock
    | SleepSwitch       // about to call sched()
    | SleepResume       // switched out inside sleep()
    | SleepReacquire    // about to take the lock back
    | Drain             // lock held, about to copy the line out
    | ReadUnlock        // about to release the lock
    | ReadRestore       // about to restore the interrupt mask

  /** A trap or interrupt handler on top of the interrupted code, if any. */
  datatype Trap =
    | NoTrap
    | TickEntry         // timer interrupt
    | UartLoop          // UART interrupt: is there another byte?
    | FeedAcquire(byte: Byte)
    | FeedHeld(byte: Byte)
    | FeedUnlock(ready: bool)
    | FeedWake
    | TrapExit          // sched_on_trap_exit
    | TrapSwitch        // about to call sched() from there
    | TrapResume        // switched out there; also how a fresh task starts

  datatype Thread = Thread(
    state: TaskState, chan: nat,
    point: Point, trap: Trap,
    frameIrq: bool,     // mask saved in the trap frame
    readIrq: bool)      // mask saved by spinlock_lock_irqsave

  datatype SchedPoint = Choosing | Dispatching(next: nat) | Returned(next: nat) | Idle | Halted

  datatype Cpu = OnScheduler | OnTask(i: nat)

  datatype State = State(
    tasks: seq<Thread>,
    switches: seq<nat>,     // switch_count of every task
    cpu: Cpu,
    irqOn: bool,
    lock: bool,
    current: Option<nat>,
    cursor: Option<nat>,
    needResched: bool,
    schedFrame: bool,   // scheduler_frame is set
    bootSwitches: nat,
    sched: SchedPoint, schedTrap: Trap, schedFrameIrq: bool,
    line: L.Line,
    history: seq<L.Event>,
    panicked: bool)

  /** What a task chooses to do next in its own code. */
  datatype Act = Compute | Syscall | Fault | CallRead | CallExit | Return

  datatype Step =
    | Interrupt(uart: bool)
    /** The CPU executes one statement; the fields are what the task or the device chooses. */
    | Advance(act: Act, byte: Option<Byte>, size: nat)

  // ---------------------------------------------------------------------------------------------
  // Accessors

  ghost predicate Sane(s: State) {
    && |s.switches| == |s.tasks|
    && (s.cpu.OnTask? ==> s.cpu.i < |s.tasks|)
    && (s.current.Some? ==> s.current.value < |s.tasks|)
    && (s.cursor.Some? ==> s.cursor.value < |s.tasks|)
    && (s.sched.Dispatching? || s.sched.Returned? ==> s.sched.next < |s.tasks|)
    && L.ValidLine(s.line)
  }

  function States(s: State): (r: seq<TaskState>)
    ensures |r| == |s.tasks| && forall i :: 0 <= i < |r| ==> r[i] == s.tasks[i].state
  {
    seq(|s.tasks|, i requires 0 <= i < |s.tasks| => s.tasks[i].state)
  }

  /** The handler running on the CPU. */
  function CpuTrap(s: State): Trap
    requires s.cpu.OnTask? ==> s.cpu.i < |s.tasks|
  {
    if s.cpu.OnTask? then s.tasks[s.cpu.i].trap else s.schedTrap
  }

  function FrameIrq(s: State): bool
    requires s.cpu.OnTask? ==> s.cpu.i < |s.tasks|
  {
    if s.cpu.OnTask? then s.tasks[s.cpu.i].frameIrq else s.schedFrameIrq
  }

  /** Outside the scheduler thread nothing is chosen or counted. */
  ghost predicate Quiet(s: State, r: State) {
    && |r.tasks| == |s.tasks| && r.switches == s.switches && r.bootSwitches == s.bootSwitches
    && r.cursor == s.cursor && r.sched == s.sched && r.current == s.current
  }

  ghost predicate SameLine(s: State, r: State) { r.line == s.line && r.history == s.history }

  /** The tasks with the handler of the one on the CPU, if any, replaced. */
  function TrapTasks(s: State, t: Trap): seq<Thread>
    requires s.cpu.OnTask? ==> s.cpu.i < |s.tasks|
  {
    if s.cpu.OnTask? then s.tasks[s.cpu.i := s.tasks[s.cpu.i].(trap := t)] else s.tasks
  }

  function TrapSched(s: State, t: Trap): Trap { if s.cpu.OnTask? then s.schedTrap else t }

  /** The tasks with `i` moved to another point of its code. */
  function Moved(s: State, i: nat, p: Point): seq<Thread>
    requires i < |s.tasks|
  {
    s.tasks[i := s.tasks[i].(point := p)]
  }

  /** The tasks with `i` moved to another point and the state of `current` set. */
  function Marked(s: State, i: nat, p: Point, state: TaskState, chan: nat): seq<Thread>
    requires i < |s.tasks| && s.current.Some? && s.current.value < |s.tasks|
  {
    var c := s.current.value;
    Moved(s, i, p)[c := Moved(s, i, p)[c].(state := state, chan := chan)]
  }

  // ---------------------------------------------------------------------------------------------
  // The steps

  /** A trap or an interrupt is taken at point `p`: the mask is saved in the frame and closed. */
  function EnterTask(s: State, i: nat, p: Point, t: Trap): State
    requires i < |s.tasks|
    ensures Quiet(s, EnterTask(s, i, p, t)) && SameLine(s, EnterTask(s, i, p, t))
  {
    s.(tasks := s.tasks[i := s.tasks[i].(point := p, trap := t, frameIrq := s.irqOn)], irqOn := false)
  }

  function EnterScheduler(s: State, t: Trap): State {
    s.(schedTrap := t, schedFrameIrq := s.irqOn, irqOn := false)
  }

  /** Every task blocked on the channel becomes ready. */
  function Wake(tasks: seq<Thread>): (r: seq<Thread>)
    ensures |r| == |tasks|
    ensures forall i :: 0 <= i < |r| ==>
              r[i] == tasks[i].(state := Woken(tasks[i].state, tasks[i].chan, CONSOLE))
  {
    seq(|tasks|, i requires 0 <= i < |tasks| =>
      tasks[i].(state := Woken(tasks[i].state, tasks[i].chan, CONSOLE)))
  }

  /** The timer handler, and the UART handler up to its lock. */
  function Handling(s: State, byte: Option<Byte>): (r: State)
    requires Sane(s) && (CpuTrap(s).TickEntry? || CpuTrap(s).UartLoop? || CpuTrap(s).FeedAcquire?)
    ensures Quiet(s, r) && SameLine(s, r)
  {
    match CpuTrap(s)
    case TickEntry =>
      s.(tasks := TrapTasks(s, TrapExit), schedTrap := TrapSched(s, TrapExit), needResched := true)
    case UartLoop =>
      if byte.Some? && byte.value == DUMP_KEY then s
      else
        var t := if byte.None? then TrapExit else FeedAcquire(byte.value);
        s.(tasks := TrapTasks(s, t), schedTrap := TrapSched(s, t))
    case FeedAcquire(b) =>
      if s.lock then s
      else s.(tasks := TrapTasks(s, FeedHeld(b)), schedTrap := TrapSched(s, FeedHeld(b)), lock := true)
  }

  /** console_dev_feed for one byte, after its lock is taken: feed, unlock, wake. */
  function Feeding(s: State): (r: State)
    requires Sane(s) && (CpuTrap(s).FeedHeld? || CpuTrap(s).FeedUnlock? || CpuTrap(s).FeedWake?)
    ensures Quiet(s, r)
    ensures CpuTrap(s).FeedHeld? ==>
              var e := L.Typed(CpuTrap(s).byte);
              r.history == s.history + [e] && r.line == L.Step(s.line, e)
    ensures !CpuTrap(s).FeedHeld? ==> SameLine(s, r)
  {
    match CpuTrap(s)
    case FeedHeld(b) =>
      var line := L.Feed(s.line, b);
      var t := FeedUnlock(line.complete);
      s.(tasks := TrapTasks(s, t), schedTrap := TrapSched(s, t),
         line := line, history := s.history + [L.Typed(b)])
    case FeedUnlock(ready) =>
      var t := if ready then FeedWake else UartLoop;
      s.(tasks := TrapTasks(s, t), schedTrap := TrapSched(s, t), lock := false)
    case FeedWake =>
      s.(tasks := Wake(TrapTasks(s, UartLoop)), schedTrap := TrapSched(s, UartLoop))
  }

  /** sched_on_trap_exit: back to the interrupted code, or into sched() when a reschedule is due. */
  function Leaving(s: State): (r: State)
    requires Sane(s) && (CpuTrap(s).TrapExit? || CpuTrap(s).TrapSwitch? || CpuTrap(s).TrapResume?)
    ensures Quiet(s, r) && SameLine(s, r)
  {
    if CpuTrap(s).TrapSwitch? then
      if s.irqOn || !s.schedFrame then s.(panicked := true)
      else s.(tasks := TrapTasks(s, TrapResume), schedTrap := TrapSched(s, TrapResume), cpu := OnScheduler)
    else if CpuTrap(s).TrapExit? && s.current.Some? && s.needResched then
      var c := s.current.value;
      var tasks := TrapTasks(s, TrapSwitch);
      s.(tasks := if s.tasks[c].state == Running then tasks[c := tasks[c].(state := Ready)] else tasks,
         schedTrap := TrapSched(s, TrapSwitch), needResched := false)
    else
      s.(tasks := TrapTasks(s, NoTrap), schedTrap := TrapSched(s, NoTrap), irqOn := FrameIrq(s))
  }

  /** The handler on the CPU executes one statement. */
  function AdvanceTrap(s: State, byte: Option<Byte>): (r: State)
    requires Sane(s) && CpuTrap(s) != NoTrap
    ensures Quiet(s, r)
    ensures CpuTrap(s).FeedHeld? ==>
              var e := L.Typed(CpuTrap(s).byte);
              r.history == s.history + [e] && r.line == L.Step(s.line, e)
    ensures !CpuTrap(s).FeedHeld? ==> SameLine(s, r)
  {
    var t := CpuTrap(s);
    if t.TickEntry? || t.UartLoop? || t.FeedAcquire? then Handling(s, byte)
    else if t.FeedHeld? || t.FeedUnlock? || t.FeedWake? then Feeding(s)
    else Leaving(s)
  }

  /** Points of a task's code that run with interrupts open. */
  predicate Open(p: Point) { p.User? || p.Kernel? || p.ExitFlagged? || p.ExitReturn? }

  /** Points inside sleep(). */
  predicate InSleep(p: Point) {
    p.SleepMark? || p.SleepUnlock? || p.SleepSwitch? || p.SleepResume? || p.SleepReacquire?
  }

  /** User mode, and system calls up to the console read. */
  function Computing(s: State, i: nat, act: Act): (r: State)
    requires Sane(s) && s.cpu == OnTask(i) && Open(s.tasks[i].point)
    ensures Quiet(s, r) && SameLine(s, r)
  {
    match s.tasks[i].point
    case User =>
      if act == Syscall then s.(tasks := Moved(s, i, Kernel))
      else if act == Fault then EnterTask(s, i, User, TrapExit)
      else s
    case Kernel =>
      if act == CallRead then
        s.(tasks := s.tasks[i := s.tasks[i].(point := ReadAcquire, readIrq := s.irqOn)], irqOn := false)
      else if act == CallExit && s.current.Some? then
        s.(tasks := Marked(s, i, ExitFlagged, Dead, s.tasks[s.current.value].chan))
      else if act == Return then EnterTask(s, i, User, TrapExit)
      else s
    case ExitFlagged => s.(tasks := Moved(s, i, ExitReturn), needResched := true)
    case ExitReturn => EnterTask(s, i, User, TrapExit)
  }

  /** sleep(). */
  function Sleeping(s: State, i: nat): (r: State)
    requires Sane(s) && s.cpu == OnTask(i) && InSleep(s.tasks[i].point)
    ensures Quiet(s, r) && SameLine(s, r)
  {
    match s.tasks[i].point
    case SleepMark =>
      if s.current.None? then s.(panicked := true)
      else s.(tasks := Marked(s, i, SleepUnlock, Blocked, CONSOLE))
    case SleepUnlock => s.(tasks := Moved(s, i, SleepSwitch), lock := false)
    case SleepSwitch =>
      if s.irqOn || !s.schedFrame then s.(panicked := true)
      else s.(tasks := Moved(s, i, SleepResume), cpu := OnScheduler)
    case SleepResume =>
      if s.irqOn then s.(panicked := true)
      else s.(tasks := s.tasks[i := s.tasks[i].(chan := 0, point := SleepReacquire)])
    case SleepReacquire => if s.lock then s else s.(tasks := Moved(s, i, ReadTest), lock := true)
  }

  /** console_dev_ops_read around sleep(). */
  function Reading(s: State, i: nat, size: nat): (r: State)
    requires Sane(s) && s.cpu == OnTask(i) && !Open(s.tasks[i].point) && !InSleep(s.tasks[i].point)
    ensures Quiet(s, r)
    ensures s.tasks[i].point.Drain? ==>
              r.history == s.history + [L.Read(size)] && r.line == L.Step(s.line, L.Read(size))
    ensures !s.tasks[i].point.Drain? ==> SameLine(s, r)
  {
    match s.tasks[i].point
    case ReadAcquire => if s.lock then s else s.(tasks := Moved(s, i, ReadTest), lock := true)
    case ReadTest => s.(tasks := Moved(s, i, if s.line.complete then Drain else SleepMark))
    case Drain =>
      s.(tasks := Moved(s, i, ReadUnlock), line := L.Drain(s.line, size), history := s.history + [L.Read(size)])
    case ReadUnlock => s.(tasks := Moved(s, i, ReadRestore), lock := false)
    case ReadRestore => s.(tasks := Moved(s, i, Kernel), irqOn := s.tasks[i].readIrq)
  }

  /** The task on the CPU executes one statement of its own code. */
  function AdvanceTask(s: State, i: nat, act: Act, size: nat): (r: State)
    requires Sane(s) && s.cpu == OnTask(i)
    ensures Quiet(s, r)
    ensures s.tasks[i].point.Drain? ==>
              r.history == s.history + [L.Read(size)] && r.line == L.Step(s.line, L.Read(size))
    ensures !s.tasks[i].point.Drain? ==> SameLine(s, r)
  {
    var p := s.tasks[i].point;
    if Open(p) then Computing(s, i, act)
    else if InSleep(p) then Sleeping(s, i)
    else Reading(s, i, size)
  }

  /** Where sched_pick_next starts looking: the cursor, or the head of the ring. */
  function StartOf(s: State): nat { if s.cursor.Some? then s.cursor.value else 0 }

  function Chosen(s: State): Option<nat>
    requires Sane(s)
  {
    if s.tasks == [] then None else Pick(States(s), StartOf(s))
  }

  /** scheduler() at the top of its loop: dispatch, idle, or shut down. */
  function Choose(s: State): (r: State)
    requires Sane(s)
    ensures SameLine(s, r)
  {
    var next := Chosen(s);
    if next.Some? then s.(cursor := next, sched := Dispatching(next.value))
    else if exists i :: 0 <= i < |s.tasks| && s.tasks[i].state != Dead then s.(sched := Idle, irqOn := true)
    else s.(sched := Halted)
  }

  /** The scheduler thread executes one statement. */
  function AdvanceScheduler(s: State): (r: State)
    requires Sane(s)
    ensures SameLine(s, r)
  {
    match s.sched
    case Choosing => Choose(s)
    case Dispatching(next) =>
      s.(current := Some(next),
         tasks := s.tasks[next := s.tasks[next].(state := Running)],
         switches := s.switches[next := s.switches[next] + 1],
         schedFrame := true, sched := Returned(next), cpu := OnTask(next))
    case Returned(next) =>
      if s.current != Some(next) then s.(bootSwitches := s.bootSwitches + 1, panicked := true)
      else s.(bootSwitches := s.bootSwitches + 1, current := None, sched := Choosing)
    case Idle => s.(irqOn := false, sched := Choosing)
    case Halted => s
  }

  ghost predicate Enabled(s: State, step: Step) {
    && Sane(s) && !s.panicked && !(s.cpu.OnScheduler? && s.sched.Halted?)
    && match step
       case Interrupt(_) => s.irqOn
       case Advance(_, _, size) => size > 0   // a read of no bytes returns before taking the lock
  }

  function Exec(s: State, step: Step): (r: State)
    requires Enabled(s, step)
    ensures !(s.cpu.OnScheduler? && s.schedTrap.NoTrap? && step.Advance?) ==> Quiet(s, r)
  {
    match step
    case Interrupt(uart) =>
      var t := if uart then UartLoop else TickEntry;
      if s.cpu.OnTask? then EnterTask(s, s.cpu.i, s.tasks[s.cpu.i].point, t) else EnterScheduler(s, t)
    case Advance(act, byte, size) =>
      if CpuTrap(s) != NoTrap then AdvanceTrap(s, byte)
      else if s.cpu.OnTask? then AdvanceTask(s, s.cpu.i, act, size)
      else AdvanceScheduler(s)
  }

  /** The ring is full of fresh tasks and scheduler() has just masked interrupts. */
  ghost predicate Initial(s: State) {
    && |s.switches| == |s.tasks|
    && (forall i :: 0 <= i < |s.tasks| ==>
          && s.tasks[i].state == Ready && s.tasks[i].chan == 0 && s.switches[i] == 0
          && s.tasks[i].point == User && s.tasks[i].trap == TrapResume && s.tasks[i].frameIrq)
    && s.cpu == OnScheduler && !s.irqOn && !s.lock
    && s.current == None && s.cursor == None && !s.schedFrame
    && s.bootSwitches == 0
    && s.sched == Choosing && s.schedTrap == NoTrap
    && s.line == L.After(s.history)
    && !s.panicked
  }

  /** State `k + 1` follows from state `k` by an enabled step. */
  ghost predicate Follows(states: seq<State>, steps: seq<Step>, k: nat)
    requires |states| == |steps| + 1 && k < |steps|
  {
    Enabled(states[k], steps[k]) && states[k + 1] == Exec(states[k], steps[k])
  }

  ghost predicate IsRun(states: seq<State>, steps: seq<Step>) {
    && |states| == |steps| + 1
    && Initial(states[0])
    && forall k :: 0 <= k < |steps| ==> Follows(states, steps, k)
  }
}
