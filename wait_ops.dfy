/** The wait routines of kernel/kernel/wait.c run on the kernel's state: the
    onodes of the object table and the tasks of the scheduler form the wait
    mesh of module WaitGraph, and each routine is proved to do to that mesh
    what the functions there say.

    Spinlocks are kept as the sets of held locks (`ObjectTable.locked`,
    `Scheduler.taskLocked`, `Scheduler.listLocked`). `spinlock_is_locked`
    reads the lock word, so an ASSERT on a lock that nobody holds stops the
    kernel; those ASSERTs are modelled as a Panics outcome. */
module WaitOps {
  import opened Common
  import opened Errno
  import opened KernelTypes
  import opened CircularList
  import opened ObjArray
  import opened Tasks
  import opened WaitGraph
  import opened Semaphore

  /** The wait mesh the kernel's state holds. */
  ghost function MeshOf(table: ObjectTable, sched: Scheduler): Mesh
    reads table`onodes, sched`tasks
  {
    Mesh(table.onodes, sched.tasks)
  }

  /** The object table, the scheduler and the mesh they share are consistent. */
  ghost predicate KernelOk(table: ObjectTable, sched: Scheduler)
    reads table`slots, table`nextFree, table`freeList, table`hnodes, table`onodes, table.slots
    reads sched`ring, sched`tasks, sched`current, sched`idle
  {
    table.Valid() && sched.Valid() && MeshOk(MeshOf(table, sched))
  }

  /** Every object that a task waiting on o also waits on is locked: then the
      release loop of _obj_wake meets only locked objects. */
  ghost predicate Covered(m: Mesh, o: Addr, locked: set<Addr>)
    requires o in m.onodes
  {
    forall n, z :: n in m.onodes[o].waitList && n.task in m.tasks && z in m.tasks[n.task].waitList ==>
      z.onode in locked
  }

  /** No task waits on more than one object, as obj_wait arranges. */
  ghost predicate SingleWaits(m: Mesh) {
    forall t :: t in m.tasks ==> |m.tasks[t].waitList| <= 1
  }

  /** While every task waits on one object at most, a locked object covers
      its own waiters: _obj_wake cannot meet an unlocked object. */
  lemma SingleWaitsCovered(m: Mesh, o: Addr, locked: set<Addr>)
    requires MeshOk(m) && SingleWaits(m) && o in m.onodes && o in locked
    ensures Covered(m, o, locked)
  {
    forall n, z | n in m.onodes[o].waitList && n.task in m.tasks && z in m.tasks[n.task].waitList
      ensures z.onode in locked
    {
      assert ObjListOk(m, o);
      var l := m.tasks[n.task].waitList;
      assert n in l;
      assert z == l[0] && n == l[0];
    }
  }

  lemma CoveredShrinks(m: Mesh, r: Mesh, o: Addr, locked: set<Addr>)
    requires SameKeys(m, r) && Shrinks(m, r) && o in m.onodes && Covered(m, o, locked)
    ensures Covered(r, o, locked)
  {
    forall n, z | n in r.onodes[o].waitList && n.task in r.tasks && z in r.tasks[n.task].waitList
      ensures z.onode in locked
    {
      assert n in m.onodes[o].waitList && z in m.tasks[n.task].waitList;
    }
  }

  /** Waking only removes waits, so it keeps every task to one wait at most. */
  lemma SingleWaitsShrink(m: Mesh, r: Mesh)
    requires SameKeys(m, r) && Shrinks(m, r) && SingleWaits(m)
    ensures SingleWaits(r)
  {
  }

  /** While every task waits on one object at most, no task has two nodes in
      an object's list. */
  lemma SingleWaitsDistinct(m: Mesh, o: Addr)
    requires MeshOk(m) && SingleWaits(m) && o in m.onodes
    ensures DistinctTasks(m.onodes[o].waitList)
  {
    var l := m.onodes[o].waitList;
    assert ObjListOk(m, o);
    forall i, j | 0 <= i < j < |l|
      ensures l[i].task != l[j].task
    {
      assert l[i] in l && l[j] in l;
    }
  }

  /** While every task waits on one object at most, a wake with count c >= 0
      makes RUNNABLE, with no waits left, exactly the tasks of the first
      min(c, |q|) nodes of the queue q; the tasks further back are
      untouched. */
  lemma WakeQueueTasks(m: Mesh, o: Addr, count: int, i: nat)
    requires MeshOk(m) && SingleWaits(m) && o in m.onodes && count >= 0
    requires i < |m.onodes[o].waitList|
    ensures m.onodes[o].waitList[i].task in m.tasks
    ensures Wake(m, o, count).0.tasks[m.onodes[o].waitList[i].task] ==
      if i < count then Woken(m.tasks[m.onodes[o].waitList[i].task]) else m.tasks[m.onodes[o].waitList[i].task]
  {
    var l := m.onodes[o].waitList;
    var u := l[i].task;
    assert l[i] in l && ObjListOk(m, o) && TaskListOk(m, u);
    SingleWaitsDistinct(m, o);
    if i < count {
      WakeQueueWoken(m, o, count, i);
    } else {
      WakeQueueKept(m, o, count, u);
    }
  }

  /** Lines 256-260 of obj_wait on the mesh: task t stops waiting for all of
      its objects, gets a node on o at address a, and goes to sleep. */
  ghost function Block(m: Mesh, t: TaskId, o: Addr, a: Addr): Mesh
    requires t in m.tasks && o in m.onodes
  {
    var m1 := m.(tasks := m.tasks[t := m.tasks[t].(waitAll := false)]);
    SetState(AddWait(m1, t, o, a), t, Waiting)
  }

  /** A task with no waits that blocks on o is WAITING, waits for o alone
      and for any one of its objects, and sits at the tail of o's queue;
      nothing else changes and the mesh stays consistent. */
  lemma BlockKeeps(m: Mesh, t: TaskId, o: Addr, a: Addr)
    requires MeshOk(m) && t in m.tasks && o in m.onodes && Unused(m, a)
    requires m.tasks[t].waitList == []
    ensures var r := Block(m, t, o, a);
      && MeshOk(r) && SameKeys(m, r)
      && r.tasks[t] == m.tasks[t].(state := Waiting, waitAll := false, waitList := [WaitNode(a, t, o)], waitCount := m.tasks[t].waitCount + 1)
      && r.onodes == m.onodes[o := m.onodes[o].(waitList := m.onodes[o].waitList + [WaitNode(a, t, o)],
                                               waitCount := m.onodes[o].waitCount + 1)]
      && (forall u :: u in m.tasks && u != t ==> r.tasks[u] == m.tasks[u])
  {
    var m1 := m.(tasks := m.tasks[t := m.tasks[t].(waitAll := false)]);
    SameListsKeep(m, m1);
    assert Unused(m1, a);
    AddWaitKeeps(m1, t, o, a);
    SetStateKeeps(AddWait(m1, t, o, a), t, Waiting);
  }

  /** The task obj_wait puts to sleep comes back: waking everybody on the
      object makes it RUNNABLE again with no waits left. */
  lemma BlockThenWakeAll(m: Mesh, t: TaskId, o: Addr, a: Addr)
    requires MeshOk(m) && t in m.tasks && o in m.onodes && Unused(m, a)
    requires m.tasks[t].waitList == []
    ensures var b := Block(m, t, o, a);
      MeshOk(b) && o in b.onodes && t in b.tasks
      && Wake(b, o, -1).0.tasks[t] == m.tasks[t].(state := Runnable, waitAll := false, waitList := [], waitCount := 0)
  {
    BlockKeeps(m, t, o, a);
    var b := Block(m, t, o, a);
    assert WaitNode(a, t, o) in b.tasks[t].waitList;
    WakeAllReleases(b, o, t, WaitNode(a, t, o));
  }

  /** obj_wait keeps every task to one wait at most. */
  lemma BlockSingle(m: Mesh, t: TaskId, o: Addr, a: Addr)
    requires MeshOk(m) && t in m.tasks && o in m.onodes && Unused(m, a)
    requires m.tasks[t].waitList == [] && SingleWaits(m)
    ensures SingleWaits(Block(m, t, o, a))
  {
    BlockKeeps(m, t, o, a);
  }

  /** The head of a non-empty queue is linked into its task's list too;
      detaching it and marking its task RUNNABLE keep the mesh consistent,
      and when the object is covered every object the task still waits on
      is locked, so the release loop that follows will not panic. */
  lemma HeadDetach(m0: Mesh, o: Addr, locked: set<Addr>)
    requires MeshOk(m0) && o in m0.onodes && m0.onodes[o].waitList != []
    ensures var wn := m0.onodes[o].waitList[0];
      && wn.onode == o && wn in m0.onodes[o].waitList
      && wn.task in m0.tasks && wn in m0.tasks[wn.task].waitList
      && var m1 := Detach(m0, wn);
         && MeshOk(m1) && wn.task in m1.tasks && MeshOk(SetState(m1, wn.task, Runnable))
         && (Covered(m0, o, locked) ==> AllLocked(m1.tasks[wn.task].waitList, locked))
  {
    var wn := m0.onodes[o].waitList[0];
    assert wn in m0.onodes[o].waitList && ObjListOk(m0, o);
    DetachKeeps(m0, wn);
    var m1 := Detach(m0, wn);
    SetStateKeeps(m1, wn.task, Runnable);
    if Covered(m0, o, locked) {
      forall z | z in m1.tasks[wn.task].waitList
        ensures z.onode in locked
      {
        assert z in m0.tasks[wn.task].waitList;
      }
    }
  }

  /** The pieces WakeOne assembles are one WakeStep. */
  lemma WakeStepIs(m0: Mesh, wn: WaitNode, m1: Mesh, m3: Mesh)
    requires MeshOk(m0) && wn.onode in m0.onodes && wn in m0.onodes[wn.onode].waitList
    requires wn.task in m0.tasks && wn in m0.tasks[wn.task].waitList
    requires m1 == Detach(m0, wn) && MeshOk(m1) && wn.task in m1.tasks
    requires var t := m1.tasks[wn.task];
      && (t.waitCount == 0 || !t.waitAll ==>
            MeshOk(SetState(m1, wn.task, Runnable)) && m3 == ReleaseAll(SetState(m1, wn.task, Runnable), wn.task))
      && (!(t.waitCount == 0 || !t.waitAll) ==> m3 == m1)
    ensures WakeStep(m0, wn) == m3
  {
  }

  /** One turn of the release loop: the head of the task's list is linked
      into its object's list, and detaching it keeps the mesh consistent,
      shortens the list, adds no node and leaves the loop's result alone. */
  lemma ReleaseStep(m: Mesh, t: TaskId, target: Mesh, locked: set<Addr>)
    requires MeshOk(m) && t in m.tasks && m.tasks[t].waitList != [] && ReleaseAll(m, t) == target
    ensures var n := m.tasks[t].waitList[0];
      && n.task == t && n in m.tasks[t].waitList && n.onode in m.onodes && n in m.onodes[n.onode].waitList
      && var r := Detach(m, n);
         && MeshOk(r) && t in r.tasks && ReleaseAll(r, t) == target
         && |r.tasks[t].waitList| < |m.tasks[t].waitList|
         && (AllLocked(m.tasks[t].waitList, locked) ==> n.onode in locked && AllLocked(r.tasks[t].waitList, locked))
  {
    var l := m.tasks[t].waitList;
    assert TaskListOk(m, t) && l[0] in l;
    DetachKeeps(m, l[0]);
  }

  /** An empty list ends the release loop. */
  lemma ReleaseDone(m: Mesh, t: TaskId, target: Mesh)
    requires MeshOk(m) && t in m.tasks && m.tasks[t].waitList == [] && ReleaseAll(m, t) == target
    ensures m == target
  {
  }

  /** _obj_wn_detach: the node leaves both of its lists. It asserts that the
      node's object, its task and the task list are locked (lines 31-33). */
  method WnDetach(table: ObjectTable, sched: Scheduler, n: WaitNode) returns (r: Outcome<()>)
    requires MeshOk(MeshOf(table, sched)) && n.onode in table.onodes && n in table.onodes[n.onode].waitList
    requires n.task in sched.tasks && n in sched.tasks[n.task].waitList
    modifies table`onodes, sched`tasks
    ensures r.Returns? <==> n.onode in table.locked && n.task in sched.taskLocked && sched.listLocked
    ensures r.Returns? ==> MeshOf(table, sched) == Detach(old(MeshOf(table, sched)), n)
    ensures !r.Returns? ==> r.Panics? && table.onodes == old(table.onodes) && sched.tasks == old(sched.tasks)
  {
    if !(n.onode in table.locked && n.task in sched.taskLocked && sched.listLocked) {
      return Panics("ASSERT: lock not held in _obj_wn_detach");
    }
    DetachKeeps(MeshOf(table, sched), n);
    var o := table.onodes[n.onode];
    var t := sched.tasks[n.task];
    table.onodes := table.onodes[n.onode := o.(waitList := Without(o.waitList, n), waitCount := o.waitCount - 1)];
    sched.tasks := sched.tasks[n.task := t.(waitList := Without(t.waitList, n), waitCount := t.waitCount - 1)];
    r := Returns(());
  }

  /** _obj_add_wait: a fresh node at address a links task t and the object
      of hnode hn. It asserts that both are locked (lines 159-160). */
  method ObjAddWait(table: ObjectTable, sched: Scheduler, t: TaskId, hn: int, a: Addr) returns (r: Outcome<()>)
    requires MeshOk(MeshOf(table, sched)) && t in sched.tasks
    requires hn in table.hnodes && table.hnodes[hn].onode in table.onodes
    requires Unused(MeshOf(table, sched), a)
    modifies table`onodes, sched`tasks
    ensures r.Returns? <==> t in sched.taskLocked && table.hnodes[hn].onode in table.locked
    ensures r.Returns? ==> MeshOf(table, sched) == AddWait(old(MeshOf(table, sched)), t, table.hnodes[hn].onode, a)
    ensures !r.Returns? ==> r.Panics? && table.onodes == old(table.onodes) && sched.tasks == old(sched.tasks)
  {
    var o := table.hnodes[hn].onode;
    if !(t in sched.taskLocked && o in table.locked) {
      return Panics("ASSERT: lock not held in _obj_add_wait");
    }
    var n := WaitNode(a, t, o);
    var on := table.onodes[o];
    var tk := sched.tasks[t];
    table.onodes := table.onodes[o := on.(waitList := on.waitList + [n], waitCount := on.waitCount + 1)];
    sched.tasks := sched.tasks[t := tk.(waitList := tk.waitList + [n], waitCount := tk.waitCount + 1)];
    r := Returns(());
  }

  /** Every object of these wait nodes is locked. */
  ghost predicate AllLocked(waits: seq<WaitNode>, locked: set<Addr>) {
    forall i :: 0 <= i < |waits| ==> waits[i].onode in locked
  }

  /** The loop of _obj_wake lines 127-132: detach the head of task t's list
      until it is empty. It stops the kernel at the first node whose object
      is not locked; when all of them are, it always completes. */
  method ReleaseWaits(table: ObjectTable, sched: Scheduler, t: TaskId) returns (r: Outcome<()>)
    requires MeshOk(MeshOf(table, sched)) && t in sched.tasks
    modifies table`onodes, sched`tasks
    ensures r.Returns? ==> MeshOf(table, sched) == ReleaseAll(old(MeshOf(table, sched)), t)
    ensures old(t in sched.taskLocked && sched.listLocked && AllLocked(sched.tasks[t].waitList, table.locked)) ==>
      r.Returns?
    ensures !r.Returns? ==> r.Panics?
  {
    ghost var m0 := MeshOf(table, sched);
    ghost var target := ReleaseAll(m0, t);
    ghost var allLocked := t in sched.taskLocked && sched.listLocked && AllLocked(sched.tasks[t].waitList, table.locked);
    while sched.tasks[t].waitList != []
      invariant MeshOk(MeshOf(table, sched)) && t in sched.tasks
      invariant ReleaseAll(MeshOf(table, sched), t) == target
      invariant allLocked ==> AllLocked(sched.tasks[t].waitList, table.locked)
      decreases |sched.tasks[t].waitList|
    {
      ghost var before := MeshOf(table, sched);
      ReleaseStep(before, t, target, table.locked);
      var temp := sched.tasks[t].waitList[0];
      ghost var held := temp.onode in table.locked && temp.task in sched.taskLocked && sched.listLocked;
      assert allLocked ==> held;
      r := WnDetach(table, sched, temp);
      if !r.Returns? {
        assert !held;
        return;
      }
    }
    ReleaseDone(MeshOf(table, sched), t, target);
    r := Returns(());
  }

  /** One turn of the loop of _obj_wake (lines 101-139): lock the task of
      the node at the head of o's queue, detach the node and, unless the task
      waits for all of its objects and some are outstanding, make the task
      RUNNABLE and release its other waits. */
  method WakeOne(table: ObjectTable, sched: Scheduler, o: Addr) returns (r: Outcome<()>)
    requires MeshOk(MeshOf(table, sched)) && o in table.onodes && table.onodes[o].waitList != []
    requires o in table.locked && sched.listLocked
    modifies table`onodes, sched`tasks, sched`taskLocked
    ensures old(table.onodes[o].waitList[0]).onode == o
    ensures r.Returns? ==>
      && MeshOf(table, sched) == WakeStep(old(MeshOf(table, sched)), old(table.onodes[o].waitList[0]))
      && sched.taskLocked == old(sched.taskLocked) - {old(table.onodes[o].waitList[0]).task}
    ensures old(Covered(MeshOf(table, sched), o, table.locked)) ==> r.Returns?
    ensures !r.Returns? ==> r.Panics?
  {
    ghost var m0 := MeshOf(table, sched);
    HeadDetach(m0, o, table.locked);
    var wn := table.onodes[o].waitList[0];
    sched.taskLocked := sched.taskLocked + {wn.task};
    r := WnDetach(table, sched, wn);
    ghost var m1 := MeshOf(table, sched);
    var t := sched.tasks[wn.task];
    if t.waitCount == 0 || !t.waitAll {
      sched.tasks := sched.tasks[wn.task := t.(state := Runnable)];
      r := ReleaseWaits(table, sched, wn.task);
      if !r.Returns? {
        return;
      }
    }
    WakeStepIs(m0, wn, m1, MeshOf(table, sched));
    sched.taskLocked := sched.taskLocked - {wn.task};
  }

  /** Popping the head of a covered object's queue keeps it covered. */
  lemma CoveredStep(m: Mesh, o: Addr, locked: set<Addr>, m1: Mesh)
    requires MeshOk(m) && o in m.onodes && m.onodes[o].waitList != []
    requires m.onodes[o].waitList[0] in m.onodes[o].waitList && m.onodes[o].waitList[0].onode == o
    requires m1 == WakeStep(m, m.onodes[o].waitList[0])
    ensures Covered(m, o, locked) ==> o in m1.onodes && Covered(m1, o, locked)
  {
    var l := m.onodes[o].waitList;
    WakeStepShrinks(m, l[0]);
    if Covered(m, o, locked) {
      CoveredShrinks(m, m1, o, locked);
    }
  }

  /** Wake pops the head of the queue while the count lasts. */
  lemma WakeUnfold(m: Mesh, o: Addr, left: int, next: int, m1: Mesh, target: (Mesh, int))
    requires MeshOk(m) && o in m.onodes && m.onodes[o].waitList != [] && (left == -1 || left > 0)
    requires next == if left == -1 then -1 else left - 1
    requires m.onodes[o].waitList[0] in m.onodes[o].waitList && m.onodes[o].waitList[0].onode == o
    requires m1 == WakeStep(m, m.onodes[o].waitList[0]) && Wake(m, o, left) == target
    ensures MeshOk(m1) && o in m1.onodes && next >= -1 && Wake(m1, o, next) == target
    ensures |m1.onodes[o].waitList| < |m.onodes[o].waitList|
  {
    var l := m.onodes[o].waitList;
    assert l[0] in l && ObjListOk(m, o);
  }

  /** Once the count is used up or nobody waits, Wake stops. */
  lemma WakeDone(m: Mesh, o: Addr, left: int, target: (Mesh, int))
    requires MeshOk(m) && o in m.onodes && left >= -1 && Wake(m, o, left) == target
    requires left == 0 || m.onodes[o].waitList == []
    ensures target == (m, left)
  {
  }

  /** The loop of _obj_wake (lines 99-145) on object o, with the task list
      locked: it pops waiters while `left` lasts and returns what is left of
      it. */
  method WakeLoop(table: ObjectTable, sched: Scheduler, o: Addr, count: int) returns (r: Outcome<int>)
    requires MeshOk(MeshOf(table, sched)) && o in table.onodes && (count == -1 || count > 0)
    requires o in table.locked && sched.listLocked
    modifies table`onodes, sched`tasks, sched`taskLocked
    ensures r.Returns? ==> (MeshOf(table, sched), r.value) == Wake(old(MeshOf(table, sched)), o, count)
    ensures old(Covered(MeshOf(table, sched), o, table.locked)) ==> r.Returns?
    ensures !r.Returns? ==> r.Panics?
  {
    ghost var m0 := MeshOf(table, sched);
    ghost var covered := Covered(m0, o, table.locked);
    ghost var target := Wake(m0, o, count);
    var left := count;
    while left != 0 && table.onodes[o].waitList != []
      invariant MeshOk(MeshOf(table, sched)) && o in table.onodes && left >= -1
      invariant Wake(MeshOf(table, sched), o, left) == target
      invariant covered ==> Covered(MeshOf(table, sched), o, table.locked)
      decreases |table.onodes[o].waitList|
    {
      ghost var before := MeshOf(table, sched);
      assert before.onodes[o].waitList[0] in before.onodes[o].waitList;
      var next := if left == -1 then -1 else left - 1;
      var s := WakeOne(table, sched, o);
      if !s.Returns? {
        return Panics("ASSERT: lock not held in _obj_wn_detach");
      }
      WakeUnfold(before, o, left, next, MeshOf(table, sched), target);
      CoveredStep(before, o, table.locked, MeshOf(table, sched));
      left := next;
    }
    WakeDone(MeshOf(table, sched), o, left, target);
    r := Returns(left);
  }

  /** Waking changes no object's reference count and adds or removes no
      object: the handle table stays sound. */
  lemma WakeKeepsRefs(m0: Mesh, o: Addr, count: int, r: Mesh)
    requires MeshOk(m0) && o in m0.onodes && count >= -1 && r == Wake(m0, o, count).0
    ensures SameRefs(m0.onodes, r.onodes)
  {
    WakeObjects(m0, o, count);
  }

  /** _obj_wake on the object of hnode hn: wake the first `count` waiters
      (all of them for -1) and return the count left over. It asserts the
      count is -1 or positive and the object is locked (lines 92-93); it then
      does to the mesh what WaitGraph.Wake says. Its release loop detaches
      nodes of other objects without locking them, so it stops the kernel
      unless those objects happen to be locked; when they are all locked it
      always completes. */
  method ObjWake(table: ObjectTable, sched: Scheduler, hn: int, count: int) returns (r: Outcome<int>)
    requires MeshOk(MeshOf(table, sched)) && hn in table.hnodes && table.hnodes[hn].onode in table.onodes
    modifies table`onodes, sched`tasks, sched`listLocked, sched`taskLocked
    ensures !(count == -1 || count > 0) || table.hnodes[hn].onode !in table.locked ==>
      r.Panics? && MeshOf(table, sched) == old(MeshOf(table, sched))
    ensures r.Returns? ==>
      && (MeshOf(table, sched), r.value) == Wake(old(MeshOf(table, sched)), table.hnodes[hn].onode, count)
      && SameRefs(old(table.onodes), table.onodes) && !sched.listLocked
    ensures ((count == -1 || count > 0) && table.hnodes[hn].onode in table.locked
             && old(Covered(MeshOf(table, sched), table.hnodes[hn].onode, table.locked))) ==> r.Returns?
    ensures !r.Returns? ==> r.Panics?
  {
    var o := table.hnodes[hn].onode;
    if !(count == -1 || count > 0) {
      return Panics("ASSERT((count == -1) || (count > 0))");
    }
    if o !in table.locked {
      return Panics("ASSERT: object not locked in _obj_wake");
    }
    ghost var m0 := MeshOf(table, sched);
    sched.listLocked := true;
    r := WakeLoop(table, sched, o, count);
    if !r.Returns? {
      return;
    }
    sched.listLocked := false;
    WakeKeepsRefs(m0, o, count, MeshOf(table, sched));
  }

  /** The semaphore's unsignal hook writes only the count and the flag of
      one onode: the mesh stays consistent and no reference count moves. */
  lemma UnsignalKeepsMesh(m: Mesh, o: Addr, node: ONode)
    requires MeshOk(m) && o in m.onodes && TakeUnit(m.onodes[o]) == Returns(node)
    ensures MeshOk(m.(onodes := m.onodes[o := node])) && SameRefs(m.onodes, m.onodes[o := node])
  {
    var r := m.(onodes := m.onodes[o := node]);
    assert SameKeys(m, r) && SameLists(m, r);
    SameListsKeep(m, r);
  }

  /** The parts of Block: clearing wait_all keeps the mesh consistent and a
      is still unused; the blocked mesh is consistent, has the same tasks
      and no reference count moved. */
  lemma BlockParts(m: Mesh, t: TaskId, o: Addr, a: Addr)
    requires MeshOk(m) && t in m.tasks && o in m.onodes && Unused(m, a)
    requires m.tasks[t].waitList == []
    ensures var m1 := m.(tasks := m.tasks[t := m.tasks[t].(waitAll := false)]);
      && MeshOk(m1) && Unused(m1, a)
      && Block(m, t, o, a) == SetState(AddWait(m1, t, o, a), t, Waiting)
    ensures var b := Block(m, t, o, a);
      && MeshOk(b) && b.tasks.Keys == m.tasks.Keys && SameRefs(m.onodes, b.onodes)
  {
    var m1 := m.(tasks := m.tasks[t := m.tasks[t].(waitAll := false)]);
    SameListsKeep(m, m1);
    BlockKeeps(m, t, o, a);
  }

  /** `schedule` only changes states and quanta: the mesh stays consistent. */
  lemma ScheduleKeepsMesh(m: Mesh, ring: seq<TaskId>, current: TaskId, idle: TaskId)
    requires MeshOk(m) && RingOk(ring, m.tasks) && current in m.tasks && idle in m.tasks
    ensures MeshOk(m.(tasks := ScheduleSpec(ring, m.tasks, current, idle).0))
  {
    ScheduleKeepsWaits(ring, m.tasks, current, idle);
    var r := m.(tasks := ScheduleSpec(ring, m.tasks, current, idle).0);
    assert SameKeys(m, r) && SameLists(m, r);
    SameListsKeep(m, r);
  }

  /** Lines 240-252 of obj_wait: the object is already signalled; the type's
      unsignal hook (the semaphore's, or none) takes the signal and the locks
      are dropped. */
  method TakeSignal(table: ObjectTable, sched: Scheduler, hn: int) returns (r: Outcome<int>)
    requires hn in table.hnodes && table.hnodes[hn].onode in table.onodes
    requires table.hnodes[hn].onode in table.locked && sched.current in sched.taskLocked
    modifies table`onodes, table`locked, sched`taskLocked
    ensures var o := table.hnodes[hn].onode;
      var on := old(table.onodes[o]);
      && (on.ops.unsignal == NoUnsignal ==> r == Returns(0) && table.onodes == old(table.onodes))
      && (on.ops.unsignal == SemUnsignal && TakeUnit(on).Returns? ==>
            r == Returns(0) && table.onodes == old(table.onodes)[o := TakeUnit(on).value])
      && (on.ops.unsignal == SemUnsignal && !TakeUnit(on).Returns? ==>
            r.Panics? && table.onodes == old(table.onodes))
    ensures r.Returns? ==>
      table.locked == old(table.locked) - {table.hnodes[hn].onode}
      && sched.taskLocked == old(sched.taskLocked) - {sched.current}
  {
    var o := table.hnodes[hn].onode;
    if table.onodes[o].ops.unsignal == SemUnsignal {
      var u := SemUnsignalHook(table, sched, hn, sched.current);
      if !u.Returns? {
        return Panics("ASSERT(sem->current > 0)");
      }
    }
    sched.taskLocked := sched.taskLocked - {sched.current};
    table.ObjRelease(hn);
    r := Returns(0);
  }

  /** Lines 256-265 of obj_wait: the current task waits for this object
      alone, goes to sleep, and `schedule` picks the next task. */
  method BlockOn(table: ObjectTable, sched: Scheduler, hn: int, a: Addr)
    requires sched.Valid() && MeshOk(MeshOf(table, sched))
    requires hn in table.hnodes && table.hnodes[hn].onode in table.onodes
    requires table.hnodes[hn].onode in table.locked && sched.current in sched.taskLocked
    requires sched.tasks[sched.current].waitList == [] && Unused(MeshOf(table, sched), a)
    modifies table`onodes, table`locked, sched`tasks, sched`current, sched`taskLocked
    ensures sched.Valid() && MeshOk(MeshOf(table, sched)) && SameRefs(old(table.onodes), table.onodes)
    ensures var b := Block(old(MeshOf(table, sched)), old(sched.current), table.hnodes[hn].onode, a);
      && table.onodes == b.onodes
      && (sched.tasks, sched.current) == ScheduleSpec(sched.ring, b.tasks, old(sched.current), sched.idle)
    ensures table.locked == old(table.locked) - {table.hnodes[hn].onode}
    ensures sched.taskLocked == old(sched.taskLocked) - {old(sched.current)}
  {
    ghost var m0 := MeshOf(table, sched);
    var c := sched.current;
    var o := table.hnodes[hn].onode;
    BlockParts(m0, c, o, a);
    sched.tasks := sched.tasks[c := sched.tasks[c].(waitAll := false)];
    var added := ObjAddWait(table, sched, c, hn, a);
    sched.tasks := sched.tasks[c := sched.tasks[c].(state := Waiting)];
    ghost var b := MeshOf(table, sched);
    assert b == Block(m0, c, o, a);
    sched.taskLocked := sched.taskLocked - {c};
    table.ObjRelease(hn);
    sched.TasksReshaped();
    ScheduleKeepsMesh(b, sched.ring, c, sched.idle);
    sched.Schedule();
  }

  /** obj_wait: block the current task on the object of handle h until it is
      signalled. The wait node comes from kmalloc: wnMem is its address, or
      None when the allocation fails. A current task that already waits
      trips the ASSERTs at lines 221-222 before anything else happens. `_obj_get` never returns NULL, so
      the -EINVAL branch at lines 229-232 cannot be taken; a bad handle stops
      the kernel or is undefined behaviour, as Lookup says. */
  method ObjWait(table: ObjectTable, sched: Scheduler, h: int, wnMem: Option<Addr>) returns (r: Outcome<int>)
    requires KernelOk(table, sched)
    requires wnMem.Some? ==> Unused(MeshOf(table, sched), wnMem.value)
    modifies table`onodes, table`locked, sched`tasks, sched`current, sched`taskLocked
    ensures r.Returns? ==> KernelOk(table, sched) && (old(table.RefCountsExact()) ==> table.RefCountsExact())
    ensures old(sched.tasks[sched.current].waitList != [] || sched.tasks[sched.current].waitCount != 0) ==>
      r.Panics? && MeshOf(table, sched) == old(MeshOf(table, sched))
    ensures old(sched.tasks[sched.current].waitList == [] && sched.tasks[sched.current].waitCount == 0) ==>
      wnMem.None? ==>
      r == Returns(-ENOMEM) && MeshOf(table, sched) == old(MeshOf(table, sched)) && sched.current == old(sched.current)
    ensures old(sched.tasks[sched.current].waitList == [] && sched.tasks[sched.current].waitCount == 0) ==>
      wnMem.Some? && !old(table.Lookup(h)).Returns? ==>
      r == old(table.Lookup(h)) && MeshOf(table, sched) == old(MeshOf(table, sched))
    ensures old(sched.tasks[sched.current].waitList == [] && sched.tasks[sched.current].waitCount == 0) ==>
      wnMem.Some? && old(table.Lookup(h)).Returns? ==>
      var o := table.hnodes[old(table.Lookup(h)).value].onode;
      var on := old(table.onodes[o]);
      var c := old(sched.current);
      && (on.signalled && on.ops.unsignal == NoUnsignal ==>
            r == Returns(0) && MeshOf(table, sched) == old(MeshOf(table, sched)) && sched.current == c)
      && (on.signalled && on.ops.unsignal == SemUnsignal && TakeUnit(on).Returns? ==>
            && r == Returns(0) && table.onodes == old(table.onodes)[o := TakeUnit(on).value]
            && sched.tasks == old(sched.tasks) && sched.current == c)
      && (on.signalled && on.ops.unsignal == SemUnsignal && !TakeUnit(on).Returns? ==> r.Panics?)
      && (!on.signalled ==>
            var b := Block(old(MeshOf(table, sched)), c, o, wnMem.value);
            && r == Returns(0) && table.onodes == b.onodes
            && (sched.tasks, sched.current) == ScheduleSpec(sched.ring, b.tasks, c, sched.idle))
  {
    if sched.tasks[sched.current].waitList != [] || sched.tasks[sched.current].waitCount != 0 {
      return Panics("ASSERT(!current->wait_list && !current->wait_count)");
    }
    if wnMem.None? {
      return Returns(-ENOMEM);
    }
    var g := table.ObjGet(h);
    if !g.Returns? {
      return g;
    }
    var hn := g.value;
    var o := table.hnodes[hn].onode;
    ghost var m0 := MeshOf(table, sched);
    sched.taskLocked := sched.taskLocked + {sched.current};
    if table.onodes[o].signalled {
      r := TakeSignal(table, sched, hn);
      if r.Returns? && m0.onodes[o].ops.unsignal == SemUnsignal {
        UnsignalKeepsMesh(m0, o, table.onodes[o]);
      }
    } else {
      BlockOn(table, sched, hn, wnMem.value);
      r := Returns(0);
    }
    if r.Returns? {
      table.OnodesReshaped();
    }
  }
}
