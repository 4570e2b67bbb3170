/**
 The run queue (kernel/src/proc/sched.c): a ring of tasks linked through their `next` fields,
 walked by do/while loops, with a cursor that remembers where round robin resumes.
 */
module RunQueue {
  import opened Base

  datatype TaskState = Dead | Ready | Running | Blocked

  // ---------------------------------------------------------------------------------------------
  // Ring arithmetic

  /** The position `d` places after `start` on a ring of `n` places. */
  function At(start: nat, d: nat, n: nat): (i: nat)
    requires start < n && d <= n
    ensures i < n
  {
    if start + d < n then start + d else start + d - n
  }

  /** How many places after `start` position `i` is met: between 1 and `n`, `start` itself last. */
  function Distance(start: nat, i: nat, n: nat): (d: nat)
    requires start < n && i < n
    ensures 1 <= d <= n && At(start, d, n) == i
  {
    if i > start then i - start else i - start + n
  }

  function FirstReady(states: seq<TaskState>, start: nat, d: nat): (r: Option<nat>)
    requires start < |states| && 1 <= d <= |states| + 1
    decreases |states| + 1 - d
  {
    if d > |states| then None
    else if states[At(start, d, |states|)] == Ready then Some(At(start, d, |states|))
    else FirstReady(states, start, d + 1)
  }

  /** The task round robin chooses when it last stopped at `start`. */
  function Pick(states: seq<TaskState>, start: nat): (r: Option<nat>)
    requires start < |states|
  {
    FirstReady(states, start, 1)
  }

  /** `i` is ready and no ready task is met before it on the way round from `start`. */
  ghost predicate IsNearestReady(states: seq<TaskState>, start: nat, i: nat)
    requires start < |states|
  {
    && i < |states| && states[i] == Ready
    && forall j :: 0 <= j < |states| && states[j] == Ready ==>
         Distance(start, i, |states|) <= Distance(start, j, |states|)
  }

  lemma {:induction false} FirstReadyIsNearest(states: seq<TaskState>, start: nat, d: nat)
    requires start < |states| && 1 <= d <= |states| + 1
    requires forall j :: 0 <= j < |states| && states[j] == Ready ==> d <= Distance(start, j, |states|)
    ensures match FirstReady(states, start, d)
            case Some(i) => IsNearestReady(states, start, i)
            case None => forall j :: 0 <= j < |states| ==> states[j] != Ready
    decreases |states| + 1 - d
  {
    var n := |states|;
    if d <= n && states[At(start, d, n)] != Ready {
      forall j | 0 <= j < n && states[j] == Ready ensures d + 1 <= Distance(start, j, n) {
        assert At(start, Distance(start, j, n), n) == j;
      }
      FirstReadyIsNearest(states, start, d + 1);
    } else if d <= n {
      assert Distance(start, At(start, d, n), n) == d;
    }
  }

  /** Round robin finds the nearest ready task, and finds none only when none is ready. */
  lemma PickIsNearest(states: seq<TaskState>, start: nat)
    requires start < |states|
    ensures match Pick(states, start)
            case Some(i) => IsNearestReady(states, start, i)
            case None => forall j :: 0 <= j < |states| ==> states[j] != Ready
  {
    FirstReadyIsNearest(states, start, 1);
  }

  /** Passing over a waiting task brings the cursor strictly nearer to it. */
  lemma PickApproaches(states: seq<TaskState>, start: nat, t: nat)
    requires start < |states| && t < |states| && states[t] == Ready
    ensures Pick(states, start).Some?
    ensures var i := Pick(states, start).value;
            i < |states| && states[i] == Ready &&
            (i != t ==> Distance(i, t, |states|) < Distance(start, t, |states|))
  {
    PickIsNearest(states, start);
  }

  /** Every task blocked on `chan` made ready, all others left alone. */
  function Woken(state: TaskState, chan: nat, woken: nat): TaskState {
    if woken != 0 && state == Blocked && chan == woken then Ready else state
  }

  // ---------------------------------------------------------------------------------------------
  // The ring itself

  class Task {
    var state: TaskState
    var chan: nat          // address slept on, 0 for none
    var switches: nat
    var next: Task?

    constructor ()
      ensures state == Ready && chan == 0 && switches == 0 && next == null
    {
      state, chan, switches, next := Ready, 0, 0, null;
    }
  }

  /** The ring with a task put in after its head. */
  function Inserted(was: seq<Task>, task: Task): seq<Task> {
    if was == [] then [task] else [was[0], task] + was[1..]
  }

  /** What follows each task of the longer ring. */
  lemma NextInserted(was: seq<Task>, task: Task, i: nat)
    requires was != [] && i <= |was|
    ensures var ring := Inserted(was, task);
            && ring[i] == (if i == 0 then was[0] else if i == 1 then task else was[i - 1])
            && ring[At(i, 1, |ring|)] == if i == 0 then task else was[At(i - 1, 1, |was|)]
  {
  }

  lemma InsertedIsDistinct(was: seq<Task>, task: Task)
    requires Distinct(was) && task !in was
    ensures Distinct(Inserted(was, task)) && forall t :: t in was ==> t in Inserted(was, task)
  {
    var ring := Inserted(was, task);
    if was != [] {
      forall i, j | 0 <= i < j < |ring| ensures ring[i] != ring[j] {
        NextInserted(was, task, i);
        NextInserted(was, task, j);
      }
      forall t | t in was ensures t in ring {
        var k :| 0 <= k < |was| && was[k] == t;
        assert ring[if k == 0 then 0 else k + 1] == t;
      }
    }
  }

  class Queue {
    var head: Task?
    var cursor: Task?
    /** The tasks in ring order, the head first. */
    ghost var ring: seq<Task>

    /** The `next` fields close one cycle through every task of `ring`, each met once. */
    ghost predicate Valid()
      reads this, ring
    {
      && (head == null <==> ring == [])
      && (ring != [] ==> head == ring[0])
      && (cursor != null ==> cursor in ring)
      && Distinct(ring)
      && forall i :: 0 <= i < |ring| ==> ring[i].next == ring[At(i, 1, |ring|)]
    }

    ghost function States(): (s: seq<TaskState>)
      reads this, ring
      ensures |s| == |ring| && forall i :: 0 <= i < |s| ==> s[i] == ring[i].state
    {
      seq(|ring|, i requires 0 <= i < |ring| reads this, ring => ring[i].state)
    }

    /** Where the search starts: the cursor if there is one, else the head. */
    ghost predicate StartsAt(start: nat)
      reads this
    {
      start < |ring| && ring[start] == if cursor != null then cursor else head
    }

    constructor ()
      ensures Valid() && ring == [] && cursor == null
    {
      head, cursor, ring := null, null, [];
    }

    /** The new task enters the ring right after the head. */
    method Add(task: Task?)
      requires Valid() && (task != null ==> task !in ring)
      modifies this`head, this`ring, ring`next, (if task == null then {} else {task})`next
      ensures Valid()
      ensures ring == if task == null then old(ring) else Inserted(old(ring), task)
    {
      if task == null { return; }
      if head == null {
        head := task;
      } else {
        task.next := head.next;
      }
      head.next := task;
      ghost var was := ring;
      InsertedIsDistinct(was, task);
      ring := Inserted(was, task);
      if was != [] {
        forall i | 0 <= i < |ring| ensures ring[i].next == ring[At(i, 1, |ring|)] {
          NextInserted(was, task, i);
        }
      }
    }

    /** The ring walk: the nearest ready task after `start`, itself last. */
    method Search(start: Task, ghost k: nat) returns (picked: Task?)
      requires Valid() && k < |ring| && ring[k] == start
      ensures match Pick(States(), k)
              case Some(i) => i < |ring| && picked == ring[i]
              case None => picked == null
    {
      ghost var states, d := States(), 0;
      var task := start;
      while true
        invariant 0 <= d < |ring| && task == ring[At(k, d, |ring|)]
        invariant Pick(states, k) == FirstReady(states, k, d + 1)
        decreases |ring| - d
      {
        ghost var at := At(k, d, |ring|);
        assert At(at, 1, |ring|) == At(k, d + 1, |ring|);
        assert ring[at].next == ring[At(at, 1, |ring|)];
        task := task.next;
        if task.state == Ready { return task; }
        d := d + 1;
        if task == start {
          assert d == |ring|;
          return null;
        }
      }
    }

    /** Round robin: the nearest ready task after the cursor, which it becomes. */
    method PickNext() returns (picked: Task?)
      requires Valid()
      modifies this`cursor
      ensures Valid()
      ensures old(ring) == [] ==> picked == null && cursor == old(cursor)
      ensures forall start :: old(StartsAt(start)) ==>
                match Pick(old(States()), start)
                case Some(i) => i < |ring| && picked == ring[i] && cursor == picked
                case None => picked == null && cursor == old(cursor)
    {
      if head == null { return null; }
      var start := if cursor != null then cursor else head;
      ghost var k: nat :| k < |ring| && ring[k] == start;
      assert forall i :: old(StartsAt(i)) ==> i == k;
      picked := Search(start, k);
      if picked != null { cursor := picked; }
    }

    method AnyAlive() returns (alive: bool)
      requires Valid()
      ensures alive <==> exists i :: 0 <= i < |ring| && ring[i].state != Dead
    {
      var task := head;
      if task == null { return false; }
      ghost var k := 0;
      while true
        invariant 0 <= k < |ring| && task == ring[k]
        invariant forall i :: 0 <= i < k ==> ring[i].state == Dead
        decreases |ring| - k
      {
        if task.state != Dead { return true; }
        assert task.next == ring[At(k, 1, |ring|)];
        task := task.next;
        k := k + 1;
        if task == head {
          return false;
        }
      }
    }

    /** Wakes exactly the sleepers on `chan`. */
    method Wakeup(chan: nat)
      requires Valid()
      modifies ring`state
      ensures Valid()
      ensures forall i :: 0 <= i < |ring| ==>
                ring[i].state == Woken(old(ring[i].state), ring[i].chan, chan)
    {
      if chan == 0 { return; }
      var task := head;
      if task == null { return; }
      ghost var k := 0;
      while true
        invariant 0 <= k < |ring| && task == ring[k]
        invariant forall i :: 0 <= i < k ==> ring[i].state == Woken(old(ring[i].state), ring[i].chan, chan)
        invariant forall i :: k <= i < |ring| ==> ring[i].state == old(ring[i].state)
        decreases |ring| - k
      {
        if task.state == Blocked && task.chan == chan {
          task.state := Ready;
        }
        assert task.next == ring[At(k, 1, |ring|)];
        task := task.next;
        k := k + 1;
        if task == head {
          return;
        }
      }
    }
  }
}
