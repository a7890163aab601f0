/** The host-side replica of the wait graph (tools/msdev/obj_adt/obj_adt.c).
    Its _obj_add_wait, _obj_wn_detach and _obj_wake are the kernel's
    algorithm without locks or timestamps, so they are WaitGraph.AddWait,
    WaitGraph.Detach and WaitGraph.Wake; what is its own is `add_wait`, the
    object and task constructors, and the scenario of `main`. */
module HostReplica {
  import opened Common
  import opened KernelTypes
  import opened WaitGraph

  /** MAX_HANDLES and MAX_TASKS (lines 15-16). */
  const MAX_HANDLES: nat := 2
  const MAX_TASKS: nat := 3

  /** The replica's onodes have no type, lock or extra bytes. */
  const HOST_OPS: ONodeOps := ONodeOps(ObjNull, NoUnsignal)

  /** The onode behind `_handle_array[i]`. */
  function HandleObject(i: nat): Addr {
    2 * (i + 1)
  }

  /** new_handle (lines 93-113): an object named "obj-a", "obj-b", ... with
      one reference and nobody waiting. */
  function NewHandle(i: nat): (o: ONode)
    requires i < 26
    ensures o.refCount == 1 && o.waitList == [] && o.waitCount == 0
  {
    ONode(HOST_OPS, Some("obj-" + [('a' as int + i) as char]), 1, [], 0, false, SemData(0, 0))
  }

  /** new_task (lines 115-132): a RUNNABLE task "t-0", "t-1", ... with no
      waits and wait_all clear. */
  function NewTask(i: nat): (t: Task)
    requires i < 10
    ensures t.state == Runnable && t.waitList == [] && t.waitCount == 0 && !t.waitAll
  {
    Task(Runnable, "t-" + [('0' as int + i) as char], 0, 0, [], 0, false)
  }

  /** add_wait (lines 331-339): the task waits for any one object, is
      WAITING, and a new node joins both lists. */
  function AddWaitHost(m: Mesh, t: TaskId, o: Addr, a: Addr): Mesh
    requires t in m.tasks && o in m.onodes
  {
    var m1 := m.(tasks := m.tasks[t := m.tasks[t].(waitAll := false, state := Waiting)]);
    AddWait(m1, t, o, a)
  }

  /** add_wait keeps the mesh consistent, leaves the task WAITING for any one
      object with the node at the tail of its list, puts the node at the tail
      of the object's queue, and touches no other object or task. */
  lemma AddWaitHostKeeps(m: Mesh, t: TaskId, o: Addr, a: Addr)
    requires MeshOk(m) && t in m.tasks && o in m.onodes && Unused(m, a)
    ensures var r := AddWaitHost(m, t, o, a);
      var n := WaitNode(a, t, o);
      && MeshOk(r) && SameKeys(m, r)
      && r.tasks[t] == m.tasks[t].(state := Waiting, waitAll := false,
                                   waitList := m.tasks[t].waitList + [n], waitCount := m.tasks[t].waitCount + 1)
      && r.onodes[o] == m.onodes[o].(waitList := m.onodes[o].waitList + [n], waitCount := m.onodes[o].waitCount + 1)
      && (forall u :: u in m.tasks && u != t ==> r.tasks[u] == m.tasks[u])
      && (forall p :: p in m.onodes && p != o ==> r.onodes[p] == m.onodes[p])
  {
    var m1 := m.(tasks := m.tasks[t := m.tasks[t].(waitAll := false, state := Waiting)]);
    assert SameKeys(m, m1) && SameLists(m, m1);
    SameListsKeep(m, m1);
    AddWaitKeeps(m1, t, o, a);
  }

  /** The consistency facts alone, for the concrete scenario below. */
  lemma DetachOk(m: Mesh, n: WaitNode)
    requires MeshOk(m) && n.onode in m.onodes && n in m.onodes[n.onode].waitList
    ensures n.task in m.tasks && n in m.tasks[n.task].waitList && MeshOk(Detach(m, n))
  {
    DetachKeeps(m, n);
  }

  lemma SetStateOk(m: Mesh, t: TaskId, s: TaskState)
    requires MeshOk(m) && t in m.tasks
    ensures MeshOk(SetState(m, t, s))
  {
    SetStateKeeps(m, t, s);
  }

  /** Lines 346-347: the objects and tasks `main` starts from. */
  function InitialMesh(): Mesh {
    Mesh(map[HandleObject(0) := NewHandle(0), HandleObject(1) := NewHandle(1)],
         map[0 := NewTask(0), 1 := NewTask(1), 2 := NewTask(2)])
  }

  /** The six wait nodes `main` allocates, at distinct addresses. */
  function NodeAddr(k: nat): Addr {
    2 * (k + 3)
  }

  /** The six nodes `main` links, in allocation order. */
  const N0: WaitNode := WaitNode(6, 0, 2)
  const N1: WaitNode := WaitNode(8, 0, 4)
  const N2: WaitNode := WaitNode(10, 1, 2)
  const N3: WaitNode := WaitNode(12, 1, 4)
  const N4: WaitNode := WaitNode(14, 2, 4)
  const N5: WaitNode := WaitNode(16, 2, 4)

  /** A state of the scenario: the two objects' queues, and each task's
      state and wait list (only task 0 is ever wait-all). */
  function Stage(a: seq<WaitNode>, b: seq<WaitNode>, all0: bool,
                 s0: TaskState, l0: seq<WaitNode>, s1: TaskState, l1: seq<WaitNode>,
                 s2: TaskState, l2: seq<WaitNode>): Mesh
  {
    Mesh(map[HandleObject(0) := NewHandle(0).(waitList := a, waitCount := |a|),
             HandleObject(1) := NewHandle(1).(waitList := b, waitCount := |b|)],
         map[0 := NewTask(0).(state := s0, waitAll := all0, waitList := l0, waitCount := |l0|),
             1 := NewTask(1).(state := s1, waitList := l1, waitCount := |l1|),
             2 := NewTask(2).(state := s2, waitList := l2, waitCount := |l2|)])
  }


  const R: TaskState := Runnable
  const W: TaskState := Waiting

  /** Line 349 of `main`: add_wait(_task_array[0], _handle_array[0]). */
  lemma Added0()
    ensures AddWaitHost(Stage([], [], false, R, [], R, [], R, []), 0, HandleObject(0), NodeAddr(0))
      == Stage([N0], [], false, W, [N0], R, [], R, [])
  {
    var r := AddWaitHost(Stage([], [], false, R, [], R, [], R, []), 0, HandleObject(0), NodeAddr(0));
    var e := Stage([N0], [], false, W, [N0], R, [], R, []);
    assert r.onodes[2] == e.onodes[2] && r.onodes[4] == e.onodes[4];
    assert r.tasks[0] == e.tasks[0] && r.tasks[1] == e.tasks[1] && r.tasks[2] == e.tasks[2];
    assert r.onodes == e.onodes && r.tasks == e.tasks;
  }

  /** Line 350 of `main`: add_wait(_task_array[0], _handle_array[1]). */
  lemma Added1()
    ensures AddWaitHost(Stage([N0], [], false, W, [N0], R, [], R, []), 0, HandleObject(1), NodeAddr(1))
      == Stage([N0], [N1], false, W, [N0, N1], R, [], R, [])
  {
    var r := AddWaitHost(Stage([N0], [], false, W, [N0], R, [], R, []), 0, HandleObject(1), NodeAddr(1));
    var e := Stage([N0], [N1], false, W, [N0, N1], R, [], R, []);
    assert r.onodes[2] == e.onodes[2] && r.onodes[4] == e.onodes[4];
    assert r.tasks[0] == e.tasks[0] && r.tasks[1] == e.tasks[1] && r.tasks[2] == e.tasks[2];
    assert r.onodes == e.onodes && r.tasks == e.tasks;
  }

  /** Line 351 of `main`: add_wait(_task_array[1], _handle_array[0]). */
  lemma Added2()
    ensures AddWaitHost(Stage([N0], [N1], false, W, [N0, N1], R, [], R, []), 1, HandleObject(0), NodeAddr(2))
      == Stage([N0, N2], [N1], false, W, [N0, N1], W, [N2], R, [])
  {
    var r := AddWaitHost(Stage([N0], [N1], false, W, [N0, N1], R, [], R, []), 1, HandleObject(0), NodeAddr(2));
    var e := Stage([N0, N2], [N1], false, W, [N0, N1], W, [N2], R, []);
    assert r.onodes[2] == e.onodes[2] && r.onodes[4] == e.onodes[4];
    assert r.tasks[0] == e.tasks[0] && r.tasks[1] == e.tasks[1] && r.tasks[2] == e.tasks[2];
    assert r.onodes == e.onodes && r.tasks == e.tasks;
  }

  /** Line 352 of `main`: add_wait(_task_array[1], _handle_array[1]). */
  lemma Added3()
    ensures AddWaitHost(Stage([N0, N2], [N1], false, W, [N0, N1], W, [N2], R, []), 1, HandleObject(1), NodeAddr(3))
      == Stage([N0, N2], [N1, N3], false, W, [N0, N1], W, [N2, N3], R, [])
  {
    var r := AddWaitHost(Stage([N0, N2], [N1], false, W, [N0, N1], W, [N2], R, []), 1, HandleObject(1), NodeAddr(3));
    var e := Stage([N0, N2], [N1, N3], false, W, [N0, N1], W, [N2, N3], R, []);
    assert r.onodes[2] == e.onodes[2] && r.onodes[4] == e.onodes[4];
    assert r.tasks[0] == e.tasks[0] && r.tasks[1] == e.tasks[1] && r.tasks[2] == e.tasks[2];
    assert r.onodes == e.onodes && r.tasks == e.tasks;
  }

  /** Line 353 of `main`: add_wait(_task_array[2], _handle_array[1]). */
  lemma Added4()
    ensures AddWaitHost(Stage([N0, N2], [N1, N3], false, W, [N0, N1], W, [N2, N3], R, []), 2, HandleObject(1), NodeAddr(4))
      == Stage([N0, N2], [N1, N3, N4], false, W, [N0, N1], W, [N2, N3], W, [N4])
  {
    var r := AddWaitHost(Stage([N0, N2], [N1, N3], false, W, [N0, N1], W, [N2, N3], R, []), 2, HandleObject(1), NodeAddr(4));
    var e := Stage([N0, N2], [N1, N3, N4], false, W, [N0, N1], W, [N2, N3], W, [N4]);
    assert r.onodes[2] == e.onodes[2] && r.onodes[4] == e.onodes[4];
    assert r.tasks[0] == e.tasks[0] && r.tasks[1] == e.tasks[1] && r.tasks[2] == e.tasks[2];
    assert r.onodes == e.onodes && r.tasks == e.tasks;
  }

  /** Line 354 of `main`: add_wait(_task_array[2], _handle_array[1]). */
  lemma Added5()
    ensures AddWaitHost(Stage([N0, N2], [N1, N3, N4], false, W, [N0, N1], W, [N2, N3], W, [N4]), 2, HandleObject(1), NodeAddr(5))
      == Stage([N0, N2], [N1, N3, N4, N5], false, W, [N0, N1], W, [N2, N3], W, [N4, N5])
  {
    var r := AddWaitHost(Stage([N0, N2], [N1, N3, N4], false, W, [N0, N1], W, [N2, N3], W, [N4]), 2, HandleObject(1), NodeAddr(5));
    var e := Stage([N0, N2], [N1, N3, N4, N5], false, W, [N0, N1], W, [N2, N3], W, [N4, N5]);
    assert r.onodes[2] == e.onodes[2] && r.onodes[4] == e.onodes[4];
    assert r.tasks[0] == e.tasks[0] && r.tasks[1] == e.tasks[1] && r.tasks[2] == e.tasks[2];
    assert r.onodes == e.onodes && r.tasks == e.tasks;
  }

  /** Lines 349-357 of `main`: the six add_wait calls, then task 0 is
      switched to wait-all. Object a ends up queueing tasks 0 and 1, object b
      queueing 0, 1, 2 and 2 again, each in arrival order. */
  method AddWaits(m0: Mesh) returns (m: Mesh)
    requires m0 == InitialMesh()
    ensures m == Stage([N0, N2], [N1, N3, N4, N5], true, W, [N0, N1], W, [N2, N3], W, [N4, N5])
    ensures MeshOk(m)
  {
    assert m0 == Stage([], [], false, R, [], R, [], R, []);
    m := AddWaitHost(m0, 0, HandleObject(0), NodeAddr(0));
    Added0();
    m := AddWaitHost(m, 0, HandleObject(1), NodeAddr(1));
    Added1();
    m := AddWaitHost(m, 1, HandleObject(0), NodeAddr(2));
    Added2();
    m := AddWaitHost(m, 1, HandleObject(1), NodeAddr(3));
    Added3();
    m := AddWaitHost(m, 2, HandleObject(1), NodeAddr(4));
    Added4();
    m := AddWaitHost(m, 2, HandleObject(1), NodeAddr(5));
    Added5();
    m := m.(tasks := m.tasks[0 := m.tasks[0].(waitAll := true)]);
    var e := Stage([N0, N2], [N1, N3, N4, N5], true, W, [N0, N1], W, [N2, N3], W, [N4, N5]);
    assert m.onodes[2] == e.onodes[2] && m.onodes[4] == e.onodes[4];
    assert m.tasks[0] == e.tasks[0] && m.tasks[1] == e.tasks[1] && m.tasks[2] == e.tasks[2];
    assert m.onodes == e.onodes && m.tasks == e.tasks;
    BlockedOk();
  }

  /** The blocked state is a consistent mesh. */
  lemma BlockedOk()
    ensures MeshOk(Stage([N0, N2], [N1, N3, N4, N5], true, W, [N0, N1], W, [N2, N3], W, [N4, N5]))
  {
    var m := Stage([N0, N2], [N1, N3, N4, N5], true, W, [N0, N1], W, [N2, N3], W, [N4, N5]);
    BlockedQueuesOk();
    BlockedTasksOk();
    assert forall o :: o in m.onodes ==> o == 2 || o == 4;
    assert forall t :: t in m.tasks ==> t == 0 || t == 1 || t == 2;
  }

  lemma BlockedQueuesOk()
    ensures var m := Stage([N0, N2], [N1, N3, N4, N5], true, W, [N0, N1], W, [N2, N3], W, [N4, N5]); ObjListOk(m, 2) && ObjListOk(m, 4)
  {
  }

  lemma BlockedTasksOk()
    ensures var m := Stage([N0, N2], [N1, N3, N4, N5], true, W, [N0, N1], W, [N2, N3], W, [N4, N5]); TaskListOk(m, 0) && TaskListOk(m, 1) && TaskListOk(m, 2)
  {
  }

  /** First pop of _obj_wake(h0, -1): task 0 loses its node on object a but,
      waiting for all its objects with one still outstanding, sleeps on. */
  lemma Woke1()
    requires MeshOk(Stage([N0, N2], [N1, N3, N4, N5], true, W, [N0, N1], W, [N2, N3], W, [N4, N5]))
    ensures WakeStep(Stage([N0, N2], [N1, N3, N4, N5], true, W, [N0, N1], W, [N2, N3], W, [N4, N5]), N0) == Stage([N2], [N1, N3, N4, N5], true, W, [N1], W, [N2, N3], W, [N4, N5])
  {
    var r := WakeStep(Stage([N0, N2], [N1, N3, N4, N5], true, W, [N0, N1], W, [N2, N3], W, [N4, N5]), N0);
    var e := Stage([N2], [N1, N3, N4, N5], true, W, [N1], W, [N2, N3], W, [N4, N5]);
    assert r.onodes[2] == e.onodes[2] && r.onodes[4] == e.onodes[4];
    assert r.tasks[0] == e.tasks[0] && r.tasks[1] == e.tasks[1] && r.tasks[2] == e.tasks[2];
    assert r.onodes == e.onodes && r.tasks == e.tasks;
  }

  /** Second pop of _obj_wake(h0, -1): task 1 becomes RUNNABLE and its other
      node, on object b, is released. */
  lemma Woke2()
    requires MeshOk(Stage([N2], [N1, N3, N4, N5], true, W, [N1], W, [N2, N3], W, [N4, N5]))
    ensures WakeStep(Stage([N2], [N1, N3, N4, N5], true, W, [N1], W, [N2, N3], W, [N4, N5]), N2) == Stage([], [N1, N4, N5], true, W, [N1], R, [], W, [N4, N5])
  {
    var m := Stage([N2], [N1, N3, N4, N5], true, W, [N1], W, [N2, N3], W, [N4, N5]);
    DetachOk(m, N2);
    var d := Detach(m, N2);
    var e := Stage([], [N1, N3, N4, N5], true, W, [N1], W, [N3], W, [N4, N5]);
    assert d.onodes[2] == e.onodes[2] && d.onodes[4] == e.onodes[4];
    assert d.tasks[0] == e.tasks[0] && d.tasks[1] == e.tasks[1] && d.tasks[2] == e.tasks[2];
    assert d.onodes == e.onodes && d.tasks == e.tasks;
    SetStateOk(d, 1, Runnable);
    var t := SetState(d, 1, Runnable);
    e := Stage([], [N1, N3, N4, N5], true, W, [N1], R, [N3], W, [N4, N5]);
    assert t.onodes[2] == e.onodes[2] && t.onodes[4] == e.onodes[4];
    assert t.tasks[0] == e.tasks[0] && t.tasks[1] == e.tasks[1] && t.tasks[2] == e.tasks[2];
    assert t.onodes == e.onodes && t.tasks == e.tasks;
    Released1();
    assert d.tasks[1].waitCount == 1 && !d.tasks[1].waitAll;
  }

  /** Task 1's remaining node, on object b, is released. */
  lemma Released1()
    requires MeshOk(Stage([], [N1, N3, N4, N5], true, W, [N1], R, [N3], W, [N4, N5]))
    ensures ReleaseAll(Stage([], [N1, N3, N4, N5], true, W, [N1], R, [N3], W, [N4, N5]), 1)
      == Stage([], [N1, N4, N5], true, W, [N1], R, [], W, [N4, N5])
  {
    var t := Stage([], [N1, N3, N4, N5], true, W, [N1], R, [N3], W, [N4, N5]);
    DetachOk(t, N3);
    var u := Detach(t, N3);
    var e := Stage([], [N1, N4, N5], true, W, [N1], R, [], W, [N4, N5]);
    assert u.onodes[2] == e.onodes[2] && u.onodes[4] == e.onodes[4];
    assert u.tasks[0] == e.tasks[0] && u.tasks[1] == e.tasks[1] && u.tasks[2] == e.tasks[2];
    assert u.onodes == e.onodes && u.tasks == e.tasks;
    assert ReleaseAll(u, 1) == u;
  }

  /** First pop of _obj_wake(h1, 2): task 0's last wait is satisfied, so it
      becomes RUNNABLE. */
  lemma Woke3()
    requires MeshOk(Stage([], [N1, N4, N5], true, W, [N1], R, [], W, [N4, N5]))
    ensures WakeStep(Stage([], [N1, N4, N5], true, W, [N1], R, [], W, [N4, N5]), N1) == Stage([], [N4, N5], true, R, [], R, [], W, [N4, N5])
  {
    var m := Stage([], [N1, N4, N5], true, W, [N1], R, [], W, [N4, N5]);
    DetachOk(m, N1);
    var d := Detach(m, N1);
    var e := Stage([], [N4, N5], true, W, [], R, [], W, [N4, N5]);
    assert d.onodes[2] == e.onodes[2] && d.onodes[4] == e.onodes[4];
    assert d.tasks[0] == e.tasks[0] && d.tasks[1] == e.tasks[1] && d.tasks[2] == e.tasks[2];
    assert d.onodes == e.onodes && d.tasks == e.tasks;
    var r := WakeStep(m, N1);
    e := Stage([], [N4, N5], true, R, [], R, [], W, [N4, N5]);
    assert r.onodes[2] == e.onodes[2] && r.onodes[4] == e.onodes[4];
    assert r.tasks[0] == e.tasks[0] && r.tasks[1] == e.tasks[1] && r.tasks[2] == e.tasks[2];
    assert r.onodes == e.onodes && r.tasks == e.tasks;
  }

  /** Second pop of _obj_wake(h1, 2): task 2 becomes RUNNABLE and its second
      node on the same object is released. */
  lemma Woke4()
    requires MeshOk(Stage([], [N4, N5], true, R, [], R, [], W, [N4, N5]))
    ensures WakeStep(Stage([], [N4, N5], true, R, [], R, [], W, [N4, N5]), N4) == Stage([], [], true, R, [], R, [], R, [])
  {
    var m := Stage([], [N4, N5], true, R, [], R, [], W, [N4, N5]);
    DetachOk(m, N4);
    var d := Detach(m, N4);
    var e := Stage([], [N5], true, R, [], R, [], W, [N5]);
    assert d.onodes[2] == e.onodes[2] && d.onodes[4] == e.onodes[4];
    assert d.tasks[0] == e.tasks[0] && d.tasks[1] == e.tasks[1] && d.tasks[2] == e.tasks[2];
    assert d.onodes == e.onodes && d.tasks == e.tasks;
    SetStateOk(d, 2, Runnable);
    var t := SetState(d, 2, Runnable);
    e := Stage([], [N5], true, R, [], R, [], R, [N5]);
    assert t.onodes[2] == e.onodes[2] && t.onodes[4] == e.onodes[4];
    assert t.tasks[0] == e.tasks[0] && t.tasks[1] == e.tasks[1] && t.tasks[2] == e.tasks[2];
    assert t.onodes == e.onodes && t.tasks == e.tasks;
    DetachOk(t, N5);
    var u := Detach(t, N5);
    e := Stage([], [], true, R, [], R, [], R, []);
    assert u.onodes[2] == e.onodes[2] && u.onodes[4] == e.onodes[4];
    assert u.tasks[0] == e.tasks[0] && u.tasks[1] == e.tasks[1] && u.tasks[2] == e.tasks[2];
    assert u.onodes == e.onodes && u.tasks == e.tasks;
    assert ReleaseAll(u, 2) == u;
    assert ReleaseAll(t, 2) == u;
    assert d.tasks[2].waitCount == 1 && !d.tasks[2].waitAll;
  }

  /** Line 359: _obj_wake(h0, -1) pops both waiters of object a, wakes
      task 1 only, and returns -1. */
  lemma WakeFirst()
    requires MeshOk(Stage([N0, N2], [N1, N3, N4, N5], true, W, [N0, N1], W, [N2, N3], W, [N4, N5]))
    ensures MeshOk(Stage([], [N1, N4, N5], true, W, [N1], R, [], W, [N4, N5]))
    ensures Wake(Stage([N0, N2], [N1, N3, N4, N5], true, W, [N0, N1], W, [N2, N3], W, [N4, N5]), HandleObject(0), -1) == (Stage([], [N1, N4, N5], true, W, [N1], R, [], W, [N4, N5]), -1)
  {
    var b, a1, a2 := Stage([N0, N2], [N1, N3, N4, N5], true, W, [N0, N1], W, [N2, N3], W, [N4, N5]), Stage([N2], [N1, N3, N4, N5], true, W, [N1], W, [N2, N3], W, [N4, N5]), Stage([], [N1, N4, N5], true, W, [N1], R, [], W, [N4, N5]);
    Woke1();
    assert MeshOk(a1) && a1.onodes[2].waitList == [N2];
    Woke2();
    assert MeshOk(a2) && a2.onodes[2].waitList == [];
    assert Wake(a2, 2, -1) == (a2, -1);
    assert Wake(a1, 2, -1) == Wake(a2, 2, -1);
    assert Wake(b, 2, -1) == Wake(a1, 2, -1);
  }

  /** Line 360: _obj_wake(h1, 2) pops two waiters of object b, wakes tasks 0
      and 2 (releasing task 2's second node), and returns 0. */
  lemma WakeSecond()
    requires MeshOk(Stage([], [N1, N4, N5], true, W, [N1], R, [], W, [N4, N5]))
    ensures Wake(Stage([], [N1, N4, N5], true, W, [N1], R, [], W, [N4, N5]), HandleObject(1), 2) == (Stage([], [], true, R, [], R, [], R, []), 0)
  {
    var a2, a3, a4 := Stage([], [N1, N4, N5], true, W, [N1], R, [], W, [N4, N5]), Stage([], [N4, N5], true, R, [], R, [], W, [N4, N5]), Stage([], [], true, R, [], R, [], R, []);
    Woke3();
    assert MeshOk(a3) && a3.onodes[4].waitList == [N4, N5];
    Woke4();
    assert MeshOk(a4);
    assert Wake(a4, 4, 0) == (a4, 0);
    assert Wake(a3, 4, 1) == Wake(a4, 4, 0);
    assert Wake(a2, 4, 2) == Wake(a3, 4, 1);
  }

  /** `main` (lines 342-375): build two objects and three tasks, block the
      tasks, wake every waiter of the first object and two of the second.
      Every task ends RUNNABLE and no object has a waiter left, as the
      ASSERTs at lines 364-372 demand. */
  method HostMain() returns (m: Mesh, left0: int, left1: int)
    ensures m.tasks.Keys == {0, 1, 2} && m.onodes.Keys == {HandleObject(0), HandleObject(1)}
    ensures forall t :: t in m.tasks ==> m.tasks[t].state == Runnable && m.tasks[t].waitList == []
    ensures forall o :: o in m.onodes ==> m.onodes[o].waitCount == 0 && m.onodes[o].waitList == []
    ensures left0 == -1 && left1 == 0
  {
    var onodes := NewHandles();
    var tasks := NewTasks();
    m := AddWaits(Mesh(onodes, tasks));
    WakeFirst();
    WakeSecond();
    ghost var a2 := Stage([], [N1, N4, N5], true, W, [N1], R, [], W, [N4, N5]);
    m, left0 := Wake(m, HandleObject(0), -1).0, Wake(m, HandleObject(0), -1).1;
    assert m == a2;
    m, left1 := Wake(m, HandleObject(1), 2).0, Wake(m, HandleObject(1), 2).1;
    Settled();
  }

  /** The final state: every task RUNNABLE with no waits, no waiter left. */
  lemma Settled()
    ensures var m := Stage([], [], true, R, [], R, [], R, []);
      && m.tasks.Keys == {0, 1, 2} && m.onodes.Keys == {HandleObject(0), HandleObject(1)}
      && (forall t :: t in m.tasks ==> m.tasks[t].state == Runnable && m.tasks[t].waitList == [])
      && (forall o :: o in m.onodes ==> m.onodes[o].waitCount == 0 && m.onodes[o].waitList == [])
  {
  }

  /** Line 346: `for (i = 0; i < MAX_HANDLES; new_handle(i++))`. */
  method NewHandles() returns (onodes: map<Addr, ONode>)
    ensures onodes == InitialMesh().onodes
  {
    onodes := map[];
    for i := 0 to MAX_HANDLES
      invariant forall o :: o in onodes ==> exists j :: 0 <= j < i && o == HandleObject(j)
      invariant forall j :: 0 <= j < i ==> HandleObject(j) in onodes && onodes[HandleObject(j)] == NewHandle(j)
    {
      onodes := onodes[HandleObject(i) := NewHandle(i)];
    }
    forall o | o in onodes
      ensures o == HandleObject(0) || o == HandleObject(1)
    {
      var j :| 0 <= j < MAX_HANDLES && o == HandleObject(j);
    }
    assert onodes[HandleObject(0)] == NewHandle(0) && onodes[HandleObject(1)] == NewHandle(1);
  }

  /** Line 347: `for (i = 0; i < MAX_TASKS; new_task(i++))`. */
  method NewTasks() returns (tasks: map<TaskId, Task>)
    ensures tasks == InitialMesh().tasks
  {
    tasks := map[];
    for i := 0 to MAX_TASKS
      invariant forall j :: j in tasks ==> 0 <= j < i
      invariant forall j :: 0 <= j < i ==> j in tasks && tasks[j] == NewTask(j)
    {
      tasks := tasks[i := NewTask(i)];
    }
    assert tasks[0] == NewTask(0) && tasks[1] == NewTask(1) && tasks[2] == NewTask(2);
    assert forall j :: j in tasks ==> j == 0 || j == 1 || j == 2;
  }
}
