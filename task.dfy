/** The round-robin scheduler (kernel/kernel/task.c).

    `task_list` is a circular doubly-linked ring of tasks, kept here as the
    sequence `ring` read from the head; a task is named by its task id. The
    architecture-specific half of a task switch (stacks, CR3, TSS, the status
    line) is not part of this model: `Schedule` decides who runs next and
    updates the bookkeeping. */
module Tasks {
  import opened Common
  import opened Errno
  import opened KernelTypes
  import opened CircularList

  /** DEFAULT_THREAD_QUANTUM (kernel/kernel/config.h). */
  const DEFAULT_THREAD_QUANTUM: int := 100
  /** The idle task's id, which `schedule` skips in its scan. */
  const IDLE_TASK_ID: TaskId := 0
  /** sizeof(task->name) */
  const TASK_NAME_SIZE: nat := 32

  /** strcpy_s(task->name, 32, name): at most 31 characters are kept. */
  function TaskName(name: string): (r: string)
    ensures |r| <= TASK_NAME_SIZE - 1 && |r| <= |name|
    ensures r == name[..|r|]
    ensures |name| <= TASK_NAME_SIZE - 1 ==> r == name
  {
    if |name| <= TASK_NAME_SIZE - 1 then name else name[..TASK_NAME_SIZE - 1]
  }

  /** A task as task_create leaves it. kmalloc fills the structure with 0xcc
      and `memset(task, 0, sizeof(task))` clears only pointer-size bytes, so
      `wait_all` keeps a non-zero fill value. */
  function NewTask(state: TaskState, name: string): Task {
    Task(state, TaskName(name), DEFAULT_THREAD_QUANTUM, DEFAULT_THREAD_QUANTUM, [], 0, true)
  }

  /** The idle task scheduler_init makes of the boot thread. */
  function IdleTask(): Task {
    Task(Running, "[idle]", 1, 1, [], 0, true)
  }

  /** The transitions task_set_state permits. */
  predicate LegalTransition(from: TaskState, to: TaskState) {
    (to == Runnable && from == Paused) || (to == Paused && (from == Runnable || from == Running))
  }

  /** A task the scan in `schedule` may pick. */
  predicate Eligible(tasks: map<TaskId, Task>, t: TaskId) {
    t != IDLE_TASK_ID && t in tasks && tasks[t].state == Runnable
  }

  /** The position of the first eligible task of a walk, |walk| if none. */
  function FirstEligible(walk: seq<TaskId>, tasks: map<TaskId, Task>): (r: nat)
    ensures r <= |walk|
    ensures forall i :: 0 <= i < r ==> !Eligible(tasks, walk[i])
    ensures r < |walk| ==> Eligible(tasks, walk[r])
  {
    if walk == [] then 0
    else if Eligible(tasks, walk[0]) then 0
    else 1 + FirstEligible(walk[1..], tasks)
  }

  /** A walk position that is not eligible is not where the walk stops. */
  lemma FirstEligiblePast(walk: seq<TaskId>, tasks: map<TaskId, Task>, j: nat)
    requires j <= FirstEligible(walk, tasks) && j < |walk| && !Eligible(tasks, walk[j])
    ensures j + 1 <= FirstEligible(walk, tasks)
  {
  }

  /** The task the scan of `schedule` stops at: the first eligible task
      after `current` in ring order, or `current` when the walk comes back
      round without finding one. */
  function ScanSpec(ring: seq<TaskId>, tasks: map<TaskId, Task>, current: TaskId): TaskId
    requires current in ring
  {
    var rot := Rotation(ring, current);
    var k := FirstEligible(rot, tasks);
    if k < |rot| then rot[k] else current
  }

  /** A walk stopped at position j, with no eligible task before it, has
      found what ScanSpec names. */
  lemma ScanStops(ring: seq<TaskId>, tasks: map<TaskId, Task>, current: TaskId, j: nat)
    requires current in ring
    requires j <= |Rotation(ring, current)| && j <= FirstEligible(Rotation(ring, current), tasks)
    requires j < |Rotation(ring, current)| ==> Eligible(tasks, Rotation(ring, current)[j])
    ensures ScanSpec(ring, tasks, current) == if j < |Rotation(ring, current)| then Rotation(ring, current)[j] else current
  {
  }

  /** The tasks after lines 213-221: quantum reloaded and RUNNING demoted. */
  function Demoted(tasks: map<TaskId, Task>, current: TaskId): map<TaskId, Task>
    requires current in tasks
  {
    var c := tasks[current];
    var c1 := if c.state == Running || c.state == Runnable then c.(ticksLeft := c.ticksReload) else c;
    var c2 := if c1.state == Running then c1.(state := Runnable) else c1;
    tasks[current := c2]
  }

  /** The whole of `schedule` on the scheduler's state: the new task map and
      the new current task. */
  function ScheduleSpec(ring: seq<TaskId>, tasks: map<TaskId, Task>, current: TaskId, idle: TaskId)
    : (map<TaskId, Task>, TaskId)
    requires RingOk(ring, tasks) && current in tasks && idle in tasks
  {
    var c := tasks[current];
    if (c.state == Running || c.state == Runnable) && c.ticksLeft > 0 then
      (tasks[current := c.(ticksLeft := c.ticksLeft - 1)], current)
    else
      var ts := Demoted(tasks, current);
      var t := ScanSpec(ring, ts, current);
      if t == current && ts[current].state == Runnable then (ts, current)
      else
        var next := if t == current then idle else t;
        assert next in ts by { ScanInRing(ring, ts, current); }
        (ts[next := ts[next].(state := Running)], next)
  }

  /** Only the current task may be RUNNING. */
  predicate RunningIsCurrent(tasks: map<TaskId, Task>, current: TaskId) {
    forall t :: t in tasks && tasks[t].state == Running ==> t == current
  }

  /** The number of tasks of a walk in a given state. */
  function CountState(walk: seq<TaskId>, tasks: map<TaskId, Task>, s: TaskState): (n: nat)
    requires forall i :: 0 <= i < |walk| ==> walk[i] in tasks
    ensures n <= |walk|
  {
    if walk == [] then 0
    else CountState(walk[..|walk| - 1], tasks, s) + (if tasks[walk[|walk| - 1]].state == s then 1 else 0)
  }

  /** A number larger than every id of a walk. */
  function Above(walk: seq<TaskId>): (r: int)
    ensures forall i :: 0 <= i < |walk| ==> walk[i] < r
  {
    if walk == [] then 0
    else
      var b := Above(walk[1..]);
      assert forall i :: 1 <= i < |walk| ==> walk[i] == walk[1..][i - 1];
      if walk[0] < b then b else walk[0] + 1
  }

  /** task_list holds each task exactly once, and nothing else. */
  ghost predicate RingOk(ring: seq<TaskId>, tasks: map<TaskId, Task>) {
    && ring != [] && NoDup(ring)
    && (forall t :: t in ring ==> t in tasks)
    && (forall t :: t in tasks ==> t in ring)
  }

  lemma RingIndexed(ring: seq<TaskId>, tasks: map<TaskId, Task>)
    requires RingOk(ring, tasks)
    ensures forall i :: 0 <= i < |ring| ==> ring[i] in tasks
  {
    forall i | 0 <= i < |ring|
      ensures ring[i] in tasks
    {
      var t := ring[i];
      assert t in ring;
      assert t in tasks;
    }
  }

  /** Inserting a new task before the head keeps the ring well formed. */
  lemma RingAppend(ring: seq<TaskId>, tasks: map<TaskId, Task>, id: TaskId, t: Task)
    requires RingOk(ring, tasks) && id !in ring
    ensures RingOk(ring + [id], tasks[id := t])
  {
    AppendLinks(ring, id);
  }

  /** The scan stops inside the ring: at current, or at an eligible task
      that is not current. */
  lemma ScanInRing(ring: seq<TaskId>, tasks: map<TaskId, Task>, current: TaskId)
    requires NoDup(ring) && current in ring
    ensures var t := ScanSpec(ring, tasks, current);
      t in ring && (t != current ==> Eligible(tasks, t))
  {
    RotationMembers(ring, current);
    var rot := Rotation(ring, current);
    var k := FirstEligible(rot, tasks);
    if k < |rot| {
      assert rot[k] in rot;
    }
  }

  class Scheduler {
    /** task_list, read from its head */
    var ring: seq<TaskId>
    var tasks: map<TaskId, Task>
    var current: TaskId
    /** idle_task */
    var idle: TaskId
    /** next_taskid */
    var nextTaskId: int
    /** task_list_lock and the per-task locks that are held. */
    var listLocked: bool
    var taskLocked: set<TaskId>

    ghost predicate Valid()
      reads this`ring, this`tasks, this`current, this`idle
    {
      && RingOk(ring, tasks)
      && current in tasks && idle == IDLE_TASK_ID && idle in tasks
    }

    /** scheduler_init: the boot thread becomes task 0, "[idle]", RUNNING with
        a quantum of 1, alone in a self-linked ring, and is both `current` and
        `idle_task`. */
    constructor Init()
      ensures Valid() && ring == [IDLE_TASK_ID] && tasks == map[IDLE_TASK_ID := IdleTask()]
      ensures current == IDLE_TASK_ID && idle == IDLE_TASK_ID && nextTaskId == 1
      ensures Next(ring, IDLE_TASK_ID) == IDLE_TASK_ID && Prev(ring, IDLE_TASK_ID) == IDLE_TASK_ID
      ensures !listLocked && taskLocked == {}
    {
      ring := [];
      tasks := map[];
      current := IDLE_TASK_ID;
      idle := IDLE_TASK_ID;
      nextTaskId := 0;
      listLocked := false;
      taskLocked := {};
      new;
      var id := GenTaskId();
      tasks := map[id := IdleTask()];
      ring := [id];
      SingletonLinks(id);
    }

    /** Writes into the tasks that keep the same set of tasks (a state, a
        wait list) keep the scheduler sound. */
    twostate lemma TasksReshaped()
      requires old(Valid()) && tasks.Keys == old(tasks).Keys
      requires unchanged(this`ring, this`current, this`idle)
      ensures Valid()
    {
      RingSameKeys(ring, old(tasks), tasks);
    }

    /** gen_taskid: the smallest id at or above next_taskid that no task in
        the ring has; next_taskid moves just past it. Every collision restarts
        the walk from the head of the ring. */
    method GenTaskId() returns (id: TaskId)
      modifies this`nextTaskId
      ensures id >= old(nextTaskId) && id !in ring
      ensures forall k :: old(nextTaskId) <= k < id ==> k in ring
      ensures nextTaskId == id + 1
      ensures ring == [] ==> id == old(nextTaskId)
    {
      id := nextTaskId;
      var i := 0;
      while i < |ring|
        invariant 0 <= i <= |ring|
        invariant id >= old(nextTaskId)
        invariant forall k :: old(nextTaskId) <= k < id ==> k in ring
        invariant forall j :: 0 <= j < i ==> ring[j] != id
        invariant ring == [] ==> id == old(nextTaskId)
        decreases Above(ring) - id, |ring| - i
      {
        if ring[i] == id {
          id := id + 1;
          i := 0;
        } else {
          i := i + 1;
        }
      }
      nextTaskId := id + 1;
    }

    /** task_create (bookkeeping): argument checks, the two allocations, a
        fresh id and the new task at the tail of the ring, just before
        `task_list`. `hasEntry` says whether entry_point is non-NULL; taskMem
        and kstackMem are the outcomes of the two kmallocs. When the stack
        allocation fails the error path frees `task->kstack`, which still holds
        the 0xcc fill: kfree rejects that pointer and stops the kernel. */
    method TaskCreate(hasEntry: bool, name: Option<string>, initState: TaskState,
                      taskMem: bool, kstackMem: bool) returns (r: Outcome<int>)
      requires Valid()
      modifies this`ring, this`tasks, this`nextTaskId
      ensures Valid() && current == old(current) && idle == old(idle)
      ensures !hasEntry || name.None? || (initState != Paused && initState != Runnable) ==>
        r == Returns(-EINVAL) && ring == old(ring) && tasks == old(tasks) && nextTaskId == old(nextTaskId)
      ensures hasEntry && name.Some? && (initState == Paused || initState == Runnable) ==>
        if !taskMem then
          r == Returns(-ENOMEM) && ring == old(ring) && tasks == old(tasks) && nextTaskId == old(nextTaskId)
        else if !kstackMem then r.Panics?
        else
          && r.Returns? && r.value >= old(nextTaskId) && r.value !in old(tasks)
          && (forall k :: old(nextTaskId) <= k < r.value ==> k in old(tasks))
          && nextTaskId == r.value + 1
          && ring == old(ring) + [r.value]
          && tasks == old(tasks)[r.value := NewTask(initState, name.value)]
    {
      if !hasEntry || name.None? {
        return Returns(-EINVAL);
      }
      if initState != Paused && initState != Runnable {
        return Returns(-EINVAL);
      }
      if !taskMem {
        return Returns(-ENOMEM);
      }
      if !kstackMem {
        return Panics("kfree: the uninitialised kstack pointer is not a heap block");
      }
      var id := GenTaskId();
      RingAppend(ring, tasks, id, NewTask(initState, name.value));
      tasks := tasks[id := NewTask(initState, name.value)];
      ring := ring + [id];
      return Returns(id);
    }

    /** The scan of lines 224-237: from current's successor along the ring,
        skipping the idle task, to the first RUNNABLE task or back to
        current. */
    method Scan() returns (t: TaskId)
      requires Valid()
      ensures t == ScanSpec(ring, tasks, current)
    {
      var ring, tasks, current := this.ring, this.tasks, this.current;
      ghost var rot := Rotation(ring, current);
      RotationMembers(ring, current);
      RotationStart(ring, current);
      t := Next(ring, current);
      ghost var j := 0;
      while t != current
        invariant 0 <= j <= |rot| && j <= FirstEligible(rot, tasks)
        invariant t == if j < |rot| then rot[j] else current
        invariant j < |rot| ==> t in rot
        decreases |rot| - j
      {
        if t != IDLE_TASK_ID && tasks[t].state == Runnable {
          break;
        }
        FirstEligiblePast(rot, tasks, j);
        RotationLinks(ring, current, j);
        t := Next(ring, t);
        j := j + 1;
        if j < |rot| { assert rot[j] in rot; }
      }
      ScanStops(ring, tasks, current, j);
    }

    /** schedule: the quantum countdown, then the choice of the next task.
        Switching stacks and address spaces is outside this model. */
    method Schedule()
      requires Valid()
      modifies this`tasks, this`current
      ensures Valid()
      ensures (tasks, current) == ScheduleSpec(ring, old(tasks), old(current), idle)
    {
      var c := tasks[current];
      if c.state == Running || c.state == Runnable {
        if c.ticksLeft > 0 {
          tasks := tasks[current := c.(ticksLeft := c.ticksLeft - 1)];
          return;
        }
        c := c.(ticksLeft := c.ticksReload);
      }
      if c.state == Running {
        c := c.(state := Runnable);
      }
      tasks := tasks[current := c];
      var t := Scan();
      ScanInRing(ring, tasks, current);
      if t == current {
        if tasks[current].state == Runnable {
          return;
        }
        t := idle;
      }
      tasks := tasks[t := tasks[t].(state := Running)];
      current := t;
    }

    /** yield: nothing but schedule(), so a task that still has quantum left
        keeps the processor and only loses one tick. */
    method Yield()
      requires Valid()
      modifies this`tasks, this`current
      ensures Valid()
      ensures (tasks, current) == ScheduleSpec(ring, old(tasks), old(current), idle)
    {
      Schedule();
    }

    /** The walk from the head that task_set_state and task_get_ptr share:
        the position of id, or of the last task when id is absent. */
    method FindTask(id: TaskId) returns (i: nat)
      requires Valid()
      ensures i < |ring|
      ensures ring[i] == id <==> id in tasks
      ensures id !in tasks ==> i == |ring| - 1
      ensures forall k :: 0 <= k < i ==> ring[k] != id
    {
      i := 0;
      while ring[i] != id && i + 1 < |ring|
        invariant 0 <= i < |ring|
        invariant forall k :: 0 <= k < i ==> ring[k] != id
        decreases |ring| - i
      {
        i := i + 1;
      }
    }

    /** task_set_state: only PAUSED -> RUNNABLE and RUNNABLE/RUNNING -> PAUSED
        are allowed; anything else is -EINVAL, an unknown id -ENOENT. */
    method TaskSetState(id: TaskId, state: TaskState) returns (r: int)
      requires Valid()
      modifies this`tasks
      ensures Valid()
      ensures id !in old(tasks) ==> r == -ENOENT && tasks == old(tasks)
      ensures id in old(tasks) && !LegalTransition(old(tasks[id].state), state) ==>
        r == -EINVAL && tasks == old(tasks)
      ensures id in old(tasks) && LegalTransition(old(tasks[id].state), state) ==>
        r == 0 && tasks == old(tasks)[id := old(tasks[id]).(state := state)]
      ensures (r, tasks) == SetStateResult(old(tasks), id, state)
    {
      var i := FindTask(id);
      if ring[i] != id {
        return -ENOENT;
      }
      var t := tasks[id];
      if (state == Runnable && t.state == Paused) ||
         (state == Paused && (t.state == Runnable || t.state == Running)) {
        tasks := tasks[id := t.(state := state)];
        r := 0;
      } else {
        r := -EINVAL;
      }
    }

    /** task_get_ptr: the task with this id, or NULL. */
    method TaskGetPtr(id: TaskId) returns (r: Option<TaskId>)
      requires Valid()
      ensures r.Some? <==> id in tasks
      ensures r.Some? ==> r.value == id
    {
      var i := FindTask(id);
      if ring[i] != id {
        return None;
      }
      return Some(ring[i]);
    }

    /** task_get_stats: `memset(stats, 0, sizeof(stats))` clears only the
        first word, `total`; the per-state counters are added to whatever the
        caller's structure held. Both are uint32 and wrap modulo 2^32. */
    method TaskGetStats(states: array<int>) returns (total: int, r: int)
      requires Valid() && states.Length == TASK_STATES
      requires forall k :: 0 <= k < states.Length ==> 0 <= states[k] < TWO32
      modifies states
      ensures forall i :: 0 <= i < |ring| ==> ring[i] in tasks
      ensures r == 0 && total == U32(|ring|)
      ensures forall s: TaskState :: states[StateValue(s)] == U32(old(states[StateValue(s)]) + CountState(ring, tasks, s))
    {
      RingIndexed(ring, tasks);
      total := 0;
      var i := 0;
      assert ring[..0] == [];
      while i < |ring|
        invariant 0 <= i <= |ring| && total == U32(i)
        invariant states.Length == TASK_STATES
        invariant Counted(old(states[..]), states[..], ring[..i], tasks)
      {
        assert ring[..i + 1][..i] == ring[..i];
        U32Increment(i);
        total := U32(total + 1);
        assert ring[i] in ring;
        var v := StateValue(tasks[ring[i]].state);
        ghost var before := states[..];
        states[v] := U32(states[v] + 1);
        CountedStep(old(states[..]), before, ring[..i + 1], tasks);
        i := i + 1;
      }
      assert ring[..i] == ring;
      forall s: TaskState
        ensures states[StateValue(s)] == U32(old(states[StateValue(s)]) + CountState(ring, tasks, s))
      {
        assert states[..][StateValue(s)] == states[StateValue(s)];
      }
      return total, 0;
    }
  }

  /** Each uint32 counter of `now` holds the one of `start` plus the number of
      tasks of the walk in that state, wrapped modulo 2^32. */
  ghost predicate Counted(start: seq<int>, now: seq<int>, walk: seq<TaskId>, tasks: map<TaskId, Task>)
  {
    |start| == |now| == TASK_STATES &&
    (forall i :: 0 <= i < |walk| ==> walk[i] in tasks) &&
    forall s: TaskState :: now[StateValue(s)] == U32(start[StateValue(s)] + CountState(walk, tasks, s))
  }

  /** Counting one more task bumps the counter of its state. */
  lemma CountedStep(start: seq<int>, before: seq<int>, walk: seq<TaskId>, tasks: map<TaskId, Task>)
    requires walk != [] && Counted(start, before, walk[..|walk| - 1], tasks) && walk[|walk| - 1] in tasks
    ensures var v := StateValue(tasks[walk[|walk| - 1]].state);
      Counted(start, before[v := U32(before[v] + 1)], walk, tasks)
  {
    var st := tasks[walk[|walk| - 1]].state;
    var v := StateValue(st);
    var after := before[v := U32(before[v] + 1)];
    forall s: TaskState
      ensures after[StateValue(s)] == U32(start[StateValue(s)] + CountState(walk, tasks, s))
    {
      if s == st {
        U32Increment(start[v] + CountState(walk[..|walk| - 1], tasks, s));
      } else {
        assert StateValue(s) != v;
      }
    }
  }

  /** Adding one to a wrapped uint32 counter wraps like adding one first. */
  lemma U32Increment(x: int)
    ensures U32(U32(x) + 1) == U32(x + 1)
  {
    var q := x / TWO32;
    assert x == TWO32 * q + U32(x);
    if U32(x) + 1 == TWO32 {
      assert x + 1 == TWO32 * (q + 1);
    } else {
      assert x + 1 == TWO32 * q + (U32(x) + 1);
    }
  }

  /** Round robin: the scan stops at the first eligible task after
      `current` in ring order (following Next from current), and comes back
      to `current` only when no other task is eligible. */
  lemma {:induction false} ScanIsRoundRobin(ring: seq<TaskId>, tasks: map<TaskId, Task>, current: TaskId)
    requires NoDup(ring) && current in ring
    ensures var t := ScanSpec(ring, tasks, current);
      && (t == current <==> forall u :: u in ring && u != current ==> !Eligible(tasks, u))
      && (t != current ==>
            exists j :: 0 <= j < |ring| - 1 && Rotation(ring, current)[j] == t
              && forall i :: 0 <= i < j ==> !Eligible(tasks, Rotation(ring, current)[i]))
  {
    RotationMembers(ring, current);
    var rot := Rotation(ring, current);
    var k := FirstEligible(rot, tasks);
    if k < |rot| {
      assert rot[k] in rot;
    } else {
      forall u | u in ring && u != current
        ensures !Eligible(tasks, u)
      {
        assert u in rot;
      }
    }
  }

  /** What `schedule` does with the result of the scan: a task it switches to
      becomes RUNNING; it is the scanned task or, when the scan found none and
      current cannot go on, the idle task. Only `current` changes otherwise,
      and the set of tasks does not. */
  lemma {:induction false} ScheduleSwitches(ring: seq<TaskId>, tasks: map<TaskId, Task>, current: TaskId, idle: TaskId)
    requires RingOk(ring, tasks) && current in tasks && idle in tasks && idle == IDLE_TASK_ID
    ensures var (ts, next) := ScheduleSpec(ring, tasks, current, idle);
      && next in ts && ts.Keys == tasks.Keys
      && (next != current ==> ts[next].state == Running)
      && (next != current && next != idle ==> next == ScanSpec(ring, Demoted(tasks, current), current))
      && (next == idle && next != current ==>
            forall u :: u in ring && u != current ==> !Eligible(Demoted(tasks, current), u))
      && (forall u :: u in tasks && u != current && u != next ==> ts[u] == tasks[u])
  {
    var ts := Demoted(tasks, current);
    assert forall u :: u in tasks && u != current ==> ts[u] == tasks[u];
    ScanInRing(ring, ts, current);
    ScanIsRoundRobin(ring, ts, current);
  }

  /** `schedule` keeps "only the current task is RUNNING", and whoever it
      leaves current is RUNNING unless it is the old task left RUNNABLE for
      lack of any other candidate. */
  lemma {:induction false} ScheduleKeepsOneRunning(ring: seq<TaskId>, tasks: map<TaskId, Task>, current: TaskId, idle: TaskId)
    requires RingOk(ring, tasks) && current in tasks && idle in tasks
    requires RunningIsCurrent(tasks, current)
    ensures var (ts, next) := ScheduleSpec(ring, tasks, current, idle);
      && RunningIsCurrent(ts, next)
      && (ts[next].state == Running || (next == current && ts[next].state in {Runnable, tasks[current].state}))
  {
    var c := tasks[current];
    if !((c.state == Running || c.state == Runnable) && c.ticksLeft > 0) {
      ScanInRing(ring, Demoted(tasks, current), current);
    }
  }

  /** `schedule` changes states and quanta only: every task keeps its waits. */
  lemma ScheduleKeepsWaits(ring: seq<TaskId>, tasks: map<TaskId, Task>, current: TaskId, idle: TaskId)
    requires RingOk(ring, tasks) && current in tasks && idle in tasks
    ensures var (ts, next) := ScheduleSpec(ring, tasks, current, idle);
      && ts.Keys == tasks.Keys && next in ts
      && forall u :: u in tasks ==>
           ts[u].waitList == tasks[u].waitList && ts[u].waitCount == tasks[u].waitCount
           && ts[u].waitAll == tasks[u].waitAll
  {
    var c := tasks[current];
    if !((c.state == Running || c.state == Runnable) && c.ticksLeft > 0) {
      ScanInRing(ring, Demoted(tasks, current), current);
    }
  }

  /** A task that has just gone to sleep gives up the processor: unless it is
      the idle task, `schedule` switches away from it and leaves it as it is. */
  lemma {:induction false} SleeperYields(ring: seq<TaskId>, tasks: map<TaskId, Task>, current: TaskId, idle: TaskId)
    requires RingOk(ring, tasks) && current in tasks && idle in tasks
    requires tasks[current].state !in {Running, Runnable} && current != idle
    ensures var (ts, next) := ScheduleSpec(ring, tasks, current, idle);
      next != current && ts[current] == tasks[current] && ts[next].state == Running
  {
    ScanInRing(ring, Demoted(tasks, current), current);
  }

  /** Any two task maps with the same ids fit the same ring. */
  lemma RingSameKeys(ring: seq<TaskId>, tasks: map<TaskId, Task>, tasks': map<TaskId, Task>)
    requires RingOk(ring, tasks) && tasks'.Keys == tasks.Keys
    ensures RingOk(ring, tasks')
  {
  }

  /** The per-state counts of the ring add up to its length, so a caller that
      zeroed the whole structure gets total == sum of states. */
  lemma {:induction false} CountsAddUp(walk: seq<TaskId>, tasks: map<TaskId, Task>)
    requires forall i :: 0 <= i < |walk| ==> walk[i] in tasks
    ensures CountState(walk, tasks, Runnable) + CountState(walk, tasks, Running)
          + CountState(walk, tasks, Waiting) + CountState(walk, tasks, Paused)
          + CountState(walk, tasks, Zombie) == |walk|
  {
    if walk != [] {
      CountsAddUp(walk[..|walk| - 1], tasks);
    }
  }

  /** The result code and task map task_set_state leaves. */
  function SetStateResult(tasks: map<TaskId, Task>, id: TaskId, state: TaskState): (int, map<TaskId, Task>) {
    if id !in tasks then (-ENOENT, tasks)
    else if LegalTransition(tasks[id].state, state) then (0, tasks[id := tasks[id].(state := state)])
    else (-EINVAL, tasks)
  }

  /** On the task map: pausing a RUNNABLE task and resuming it gives back the
      same map; a RUNNING task comes back RUNNABLE; a second pause or resume is
      refused and changes nothing. */
  lemma PauseResumeMap(tasks: map<TaskId, Task>, id: TaskId)
    requires id in tasks
    ensures var (r1, t1) := SetStateResult(tasks, id, Paused);
      tasks[id].state == Runnable ==> r1 == 0 && SetStateResult(t1, id, Runnable) == (0, tasks)
    ensures var (r1, t1) := SetStateResult(tasks, id, Paused);
      tasks[id].state == Running ==>
        r1 == 0 && SetStateResult(t1, id, Runnable) == (0, tasks[id := tasks[id].(state := Runnable)])
    ensures var (r1, t1) := SetStateResult(tasks, id, Paused);
      r1 == 0 ==> SetStateResult(t1, id, Paused) == (-EINVAL, t1)
    ensures tasks[id].state == Paused ==>
      SetStateResult(SetStateResult(tasks, id, Runnable).1, id, Runnable) == (-EINVAL, SetStateResult(tasks, id, Runnable).1)
  {
    var t1 := SetStateResult(tasks, id, Paused).1;
    if tasks[id].state == Runnable {
      assert t1[id := t1[id].(state := Runnable)] == tasks;
    } else if tasks[id].state == Running {
      assert t1[id := t1[id].(state := Runnable)] == tasks[id := tasks[id].(state := Runnable)];
    }
  }
}
