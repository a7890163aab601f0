/** The wait mesh of kernel/kernel/wait.c.

    Every pending wait of a task on an object is a wait node that sits in two
    circular lists at once: the object's list of waiting tasks (FIFO, linked
    through task_next/task_prev) and the task's list of awaited objects (linked
    through obj_next/obj_prev). Here each list is the sequence of nodes read
    from its head, as in CircularList, and the mesh is the pair of maps that
    holds every onode and every task. This module gives the operations on the
    mesh as functions and proves what they keep; module WaitOps runs them on
    the object table and the scheduler. */
module WaitGraph {
  import opened Common
  import opened KernelTypes
  import opened CircularList

  /** The object's list holds distinct nodes for that object, each of them
      also in its task's list, and wait_count is its length. */
  ghost predicate ObjListOk(m: Mesh, o: Addr)
    requires o in m.onodes
  {
    var l := m.onodes[o].waitList;
    && NoDup(l) && m.onodes[o].waitCount == |l|
    && forall n :: n in l ==> n.onode == o && n.task in m.tasks && n in m.tasks[n.task].waitList
  }

  /** The task's list, the other way round. */
  ghost predicate TaskListOk(m: Mesh, t: TaskId)
    requires t in m.tasks
  {
    var l := m.tasks[t].waitList;
    && NoDup(l) && m.tasks[t].waitCount == |l|
    && forall n :: n in l ==> n.task == t && n.onode in m.onodes && n in m.onodes[n.onode].waitList
  }

  /** The mesh is consistent in both dimensions. In particular wait_count is 0
      exactly when wait_list is NULL, on every object and every task. */
  ghost predicate MeshOk(m: Mesh) {
    && (forall o {:trigger ObjListOk(m, o)} :: o in m.onodes ==> ObjListOk(m, o))
    && (forall t {:trigger TaskListOk(m, t)} :: t in m.tasks ==> TaskListOk(m, t))
  }

  /** No node of the mesh lives at address a. */
  ghost predicate Unused(m: Mesh, a: Addr) {
    forall o, n :: o in m.onodes && n in m.onodes[o].waitList ==> n.addr != a
  }

  /** The same objects and tasks exist. */
  ghost predicate SameKeys(m: Mesh, r: Mesh) {
    m.onodes.Keys == r.onodes.Keys && m.tasks.Keys == r.tasks.Keys
  }

  /** Every list only lost nodes. */
  ghost predicate Shrinks(m: Mesh, r: Mesh)
    requires SameKeys(m, r)
  {
    && (forall o :: o in m.onodes ==>
          |r.onodes[o].waitList| <= |m.onodes[o].waitList|
          && forall n :: n in r.onodes[o].waitList ==> n in m.onodes[o].waitList)
    && (forall t :: t in m.tasks ==>
          |r.tasks[t].waitList| <= |m.tasks[t].waitList|
          && forall n :: n in r.tasks[t].waitList ==> n in m.tasks[t].waitList)
  }

  /** Nothing but the wait lists and counts changed: onode and task fields
      other than those (reference counts, signalled, state, ...) are kept. */
  ghost predicate OnlyLists(m: Mesh, r: Mesh)
    requires SameKeys(m, r)
  {
    && (forall o :: o in m.onodes ==>
          r.onodes[o] == m.onodes[o].(waitList := r.onodes[o].waitList, waitCount := r.onodes[o].waitCount))
    && (forall t :: t in m.tasks ==>
          r.tasks[t] == m.tasks[t].(waitList := r.tasks[t].waitList, waitCount := r.tasks[t].waitCount))
  }

  lemma ShrinksTrans(a: Mesh, b: Mesh, c: Mesh)
    requires SameKeys(a, b) && SameKeys(b, c) && Shrinks(a, b) && Shrinks(b, c)
    ensures SameKeys(a, c) && Shrinks(a, c)
  {
    forall o | o in a.onodes
      ensures |c.onodes[o].waitList| <= |a.onodes[o].waitList|
      ensures forall z :: z in c.onodes[o].waitList ==> z in a.onodes[o].waitList
    {
      assert |c.onodes[o].waitList| <= |b.onodes[o].waitList|;
    }
    forall u | u in a.tasks
      ensures |c.tasks[u].waitList| <= |a.tasks[u].waitList|
      ensures forall z :: z in c.tasks[u].waitList ==> z in a.tasks[u].waitList
    {
      assert forall z :: z in c.tasks[u].waitList ==> z in b.tasks[u].waitList;
    }
  }

  /** Every object kept all of its fields but the wait list and count. */
  ghost predicate ObjectsOnlyLists(m: Mesh, r: Mesh)
    requires SameKeys(m, r)
  {
    forall o :: o in m.onodes ==>
      r.onodes[o] == m.onodes[o].(waitList := r.onodes[o].waitList, waitCount := r.onodes[o].waitCount)
  }

  /** _obj_wn_detach (wait.c lines 49-73): the node leaves both lists and both
      wait_counts drop by one. */
  function Detach(m: Mesh, n: WaitNode): Mesh
    requires n.onode in m.onodes && n.task in m.tasks
    requires n in m.onodes[n.onode].waitList && n in m.tasks[n.task].waitList
  {
    var o := m.onodes[n.onode];
    var t := m.tasks[n.task];
    Mesh(m.onodes[n.onode := o.(waitList := Without(o.waitList, n), waitCount := o.waitCount - 1)],
         m.tasks[n.task := t.(waitList := Without(t.waitList, n), waitCount := t.waitCount - 1)])
  }

  /** _obj_add_wait (wait.c lines 162-190): a new node at the tail of both
      lists (inserted before each head), both wait_counts up by one. */
  function AddWait(m: Mesh, t: TaskId, o: Addr, a: Addr): Mesh
    requires t in m.tasks && o in m.onodes
  {
    var n := WaitNode(a, t, o);
    var on := m.onodes[o];
    var tk := m.tasks[t];
    Mesh(m.onodes[o := on.(waitList := on.waitList + [n], waitCount := on.waitCount + 1)],
         m.tasks[t := tk.(waitList := tk.waitList + [n], waitCount := tk.waitCount + 1)])
  }

  /** Line 121: the task's state is overwritten. */
  function SetState(m: Mesh, t: TaskId, s: TaskState): Mesh
    requires t in m.tasks
  {
    m.(tasks := m.tasks[t := m.tasks[t].(state := s)])
  }

  lemma DetachObjOk(m: Mesh, n: WaitNode, p: Addr)
    requires MeshOk(m) && n.onode in m.onodes && n in m.onodes[n.onode].waitList && p in m.onodes
    ensures n.task in m.tasks && n in m.tasks[n.task].waitList
    ensures ObjListOk(Detach(m, n), p)
  {
    assert ObjListOk(m, n.onode);
    var r := Detach(m, n);
    var tl := m.tasks[n.task].waitList;
    assert TaskListOk(m, n.task);
    WithoutMembers(tl, n);
    var l := m.onodes[p].waitList;
    assert ObjListOk(m, p);
    if p == n.onode {
      WithoutMembers(l, n);
    }
    forall z | z in r.onodes[p].waitList
      ensures z.onode == p && z.task in r.tasks && z in r.tasks[z.task].waitList
    {
      assert z in l && z != n;
    }
  }

  lemma DetachTaskOk(m: Mesh, n: WaitNode, u: TaskId)
    requires MeshOk(m) && n.onode in m.onodes && n in m.onodes[n.onode].waitList && u in m.tasks
    ensures n.task in m.tasks && n in m.tasks[n.task].waitList
    ensures TaskListOk(Detach(m, n), u)
  {
    assert ObjListOk(m, n.onode);
    var r := Detach(m, n);
    var ol := m.onodes[n.onode].waitList;
    assert TaskListOk(m, n.task);
    WithoutMembers(ol, n);
    var l := m.tasks[u].waitList;
    assert TaskListOk(m, u);
    if u == n.task {
      WithoutMembers(l, n);
    }
    forall z | z in r.tasks[u].waitList
      ensures z.task == u && z.onode in r.onodes && z in r.onodes[z.onode].waitList
    {
      assert z in l && z != n;
    }
  }

  /** Detaching a node that is in the mesh keeps the mesh consistent, removes
      that node and nothing else, and touches only its object and its task. */
  lemma DetachKeeps(m: Mesh, n: WaitNode)
    requires MeshOk(m) && n.onode in m.onodes && n in m.onodes[n.onode].waitList
    ensures n.task in m.tasks && n in m.tasks[n.task].waitList
    ensures var r := Detach(m, n);
      && MeshOk(r) && SameKeys(m, r) && Shrinks(m, r) && OnlyLists(m, r)
      && |r.onodes[n.onode].waitList| < |m.onodes[n.onode].waitList|
      && n !in r.onodes[n.onode].waitList && n !in r.tasks[n.task].waitList
      && (forall o :: o in m.onodes && o != n.onode ==> r.onodes[o] == m.onodes[o])
      && (forall u :: u in m.tasks && u != n.task ==> r.tasks[u] == m.tasks[u])
  {
    DetachObjOk(m, n, n.onode);
    var r := Detach(m, n);
    forall p | p in r.onodes
      ensures ObjListOk(r, p)
    {
      DetachObjOk(m, n, p);
    }
    forall u | u in r.tasks
      ensures TaskListOk(r, u)
    {
      DetachTaskOk(m, n, u);
    }
    assert ObjListOk(m, n.onode) && TaskListOk(m, n.task);
    WithoutMembers(m.onodes[n.onode].waitList, n);
    WithoutMembers(m.tasks[n.task].waitList, n);
  }

  /** Changing a task's state leaves the lists alone. */
  lemma SetStateKeeps(m: Mesh, t: TaskId, s: TaskState)
    requires MeshOk(m) && t in m.tasks
    ensures MeshOk(SetState(m, t, s)) && SameKeys(m, SetState(m, t, s)) && Shrinks(m, SetState(m, t, s))
  {
    var r := SetState(m, t, s);
    forall o | o in r.onodes
      ensures ObjListOk(r, o)
    {
      assert ObjListOk(m, o);
    }
    forall u | u in r.tasks
      ensures TaskListOk(r, u)
    {
      assert TaskListOk(m, u);
    }
  }

  lemma AddWaitObjOk(m: Mesh, t: TaskId, o: Addr, a: Addr, p: Addr)
    requires MeshOk(m) && t in m.tasks && o in m.onodes && Unused(m, a) && p in m.onodes
    ensures ObjListOk(AddWait(m, t, o, a), p)
  {
    var n := WaitNode(a, t, o);
    var r := AddWait(m, t, o, a);
    assert ObjListOk(m, p);
    if p == o {
      assert n !in m.onodes[o].waitList;
      AppendLinks(m.onodes[o].waitList, n);
    }
    forall z | z in r.onodes[p].waitList
      ensures z.onode == p && z.task in r.tasks && z in r.tasks[z.task].waitList
    {
      if z != n {
        assert z in m.onodes[p].waitList;
      }
    }
  }

  lemma AddWaitTaskOk(m: Mesh, t: TaskId, o: Addr, a: Addr, u: TaskId)
    requires MeshOk(m) && t in m.tasks && o in m.onodes && Unused(m, a) && u in m.tasks
    ensures TaskListOk(AddWait(m, t, o, a), u)
  {
    var n := WaitNode(a, t, o);
    var r := AddWait(m, t, o, a);
    assert TaskListOk(m, u);
    if u == t {
      assert n !in m.tasks[t].waitList;
      AppendLinks(m.tasks[t].waitList, n);
    }
    forall z | z in r.tasks[u].waitList
      ensures z.task == u && z.onode in r.onodes && z in r.onodes[z.onode].waitList
    {
      if z != n {
        assert z in m.tasks[u].waitList;
      }
    }
  }

  /** Adding a fresh node between an existing task and object keeps the mesh
      consistent; the node is the new tail of both lists, so each list stays
      in arrival order. */
  lemma AddWaitKeeps(m: Mesh, t: TaskId, o: Addr, a: Addr)
    requires MeshOk(m) && t in m.tasks && o in m.onodes && Unused(m, a)
    ensures var r := AddWait(m, t, o, a);
      && MeshOk(r) && SameKeys(m, r) && OnlyLists(m, r)
      && r.onodes[o].waitList == m.onodes[o].waitList + [WaitNode(a, t, o)]
      && r.tasks[t].waitList == m.tasks[t].waitList + [WaitNode(a, t, o)]
  {
    var r := AddWait(m, t, o, a);
    forall p | p in r.onodes
      ensures ObjListOk(r, p)
    {
      AddWaitObjOk(m, t, o, a, p);
    }
    forall u | u in r.tasks
      ensures TaskListOk(r, u)
    {
      AddWaitTaskOk(m, t, o, a, u);
    }
  }

  /** After _obj_add_wait the new node's links and those of both heads are
      reciprocal in both dimensions (the assertions of wait.c lines 192-202),
      and the new node sits just before the head, at the tail. */
  lemma AddWaitLinks(m: Mesh, t: TaskId, o: Addr, a: Addr)
    requires MeshOk(m) && t in m.tasks && o in m.onodes && Unused(m, a)
    ensures var r := AddWait(m, t, o, a);
      var n := WaitNode(a, t, o);
      var ol := r.onodes[o].waitList;
      var tl := r.tasks[t].waitList;
      && n in ol && n in tl && ol[0] in ol && tl[0] in tl
      && Prev(ol, Next(ol, n)) == n && Next(ol, Prev(ol, n)) == n
      && Prev(tl, Next(tl, n)) == n && Next(tl, Prev(tl, n)) == n
      && Prev(ol, Next(ol, ol[0])) == ol[0] && Next(ol, Prev(ol, ol[0])) == ol[0]
      && Prev(tl, Next(tl, tl[0])) == tl[0] && Next(tl, Prev(tl, tl[0])) == tl[0]
      && Next(ol, n) == ol[0] && Prev(ol, ol[0]) == n
      && Next(tl, n) == tl[0] && Prev(tl, tl[0]) == n
  {
    AddWaitKeeps(m, t, o, a);
    var r := AddWait(m, t, o, a);
    var n := WaitNode(a, t, o);
    var ol := r.onodes[o].waitList;
    var tl := r.tasks[t].waitList;
    assert ObjListOk(r, o) && TaskListOk(r, t);
    assert ol[|ol| - 1] == n && tl[|tl| - 1] == n;
    assert ObjListOk(m, o) && TaskListOk(m, t);
    AppendLinks(m.onodes[o].waitList, n);
    AppendLinks(m.tasks[t].waitList, n);
    assert ol[0] in ol && tl[0] in tl;
    Reciprocal(ol, n);
    Reciprocal(tl, n);
    Reciprocal(ol, ol[0]);
    Reciprocal(tl, tl[0]);
    IndexOfAt(ol, |ol| - 1);
    IndexOfAt(tl, |tl| - 1);
    IndexOfAt(ol, 0);
    IndexOfAt(tl, 0);
  }

  /** Detaching a node (lines 54-64): each head that pointed at it moves to
      its successor, or to NULL when the node was alone. */
  lemma DetachMovesHeads(m: Mesh, n: WaitNode)
    requires MeshOk(m) && n.onode in m.onodes && n in m.onodes[n.onode].waitList
    ensures n.task in m.tasks && n in m.tasks[n.task].waitList
    ensures var r := Detach(m, n);
      var ol := m.onodes[n.onode].waitList;
      var tl := m.tasks[n.task].waitList;
      && Head(r.onodes[n.onode].waitList) ==
           (if Head(ol) == Some(n) then (if Next(ol, n) != n then Some(Next(ol, n)) else None) else Head(ol))
      && Head(r.tasks[n.task].waitList) ==
           (if Head(tl) == Some(n) then (if Next(tl, n) != n then Some(Next(tl, n)) else None) else Head(tl))
  {
    assert ObjListOk(m, n.onode);
    assert TaskListOk(m, n.task);
    UnlinkHead(m.onodes[n.onode].waitList, n);
    UnlinkHead(m.tasks[n.task].waitList, n);
  }

  /** The loop of wait.c lines 127-132: detach the head of the task's list
      until the list is empty. */
  function ReleaseAll(m: Mesh, t: TaskId): (r: Mesh)
    requires MeshOk(m) && t in m.tasks
    ensures MeshOk(r) && SameKeys(m, r) && t in r.tasks
    decreases |m.tasks[t].waitList|
  {
    var l := m.tasks[t].waitList;
    if l == [] then
      m
    else
      assert TaskListOk(m, t) && l[0] in l;
      DetachKeeps(m, l[0]);
      ReleaseAll(Detach(m, l[0]), t)
  }

  /** The release loop empties the task's list, only removes nodes, touches
      nothing but lists and counts, and leaves every other task as it was. */
  lemma {:induction false} ReleaseAllKeeps(m: Mesh, t: TaskId)
    requires MeshOk(m) && t in m.tasks
    ensures var r := ReleaseAll(m, t);
      && SameKeys(m, r) && Shrinks(m, r) && OnlyLists(m, r)
      && r.tasks[t].waitList == [] && r.tasks[t].waitCount == 0
      && (forall u :: u in m.tasks && u != t ==> r.tasks[u] == m.tasks[u])
    decreases |m.tasks[t].waitList|
  {
    var l := m.tasks[t].waitList;
    if l == [] {
      assert TaskListOk(m, t);
    } else {
      assert TaskListOk(m, t) && l[0] in l;
      DetachKeeps(m, l[0]);
      var m1 := Detach(m, l[0]);
      ReleaseAllKeeps(m1, t);
      ShrinksTrans(m, m1, ReleaseAll(m1, t));
    }
  }

  /** The release loop only touches objects the task waits on. */
  lemma {:induction false} ReleaseAllSpares(m: Mesh, t: TaskId, o: Addr)
    requires MeshOk(m) && t in m.tasks && o in m.onodes
    requires forall z :: z in m.onodes[o].waitList ==> z.task != t
    ensures ReleaseAll(m, t).onodes[o] == m.onodes[o]
    decreases |m.tasks[t].waitList|
  {
    var l := m.tasks[t].waitList;
    if l != [] {
      assert TaskListOk(m, t) && l[0] in l;
      DetachKeeps(m, l[0]);
      assert l[0].onode != o;
      ReleaseAllSpares(Detach(m, l[0]), t, o);
    }
  }

  /** One turn of the loop of wait.c lines 99-145 on the popped node n: detach
      it; then, unless the task waits for all of its objects and some are
      still outstanding, the task becomes RUNNABLE and its other waits go. */
  function WakeStep(m: Mesh, n: WaitNode): (r: Mesh)
    requires MeshOk(m) && n.onode in m.onodes && n in m.onodes[n.onode].waitList
    ensures MeshOk(r) && SameKeys(m, r)
    ensures |r.onodes[n.onode].waitList| < |m.onodes[n.onode].waitList|
  {
    DetachKeeps(m, n);
    var m1 := Detach(m, n);
    var t := m1.tasks[n.task];
    if t.waitCount == 0 || !t.waitAll then
      SetStateKeeps(m1, n.task, Runnable);
      var m2 := SetState(m1, n.task, Runnable);
      ReleaseAllKeeps(m2, n.task);
      ReleaseAll(m2, n.task)
    else
      m1
  }

  /** One turn only removes nodes from lists. */
  lemma WakeStepShrinks(m: Mesh, n: WaitNode)
    requires MeshOk(m) && n.onode in m.onodes && n in m.onodes[n.onode].waitList
    ensures SameKeys(m, WakeStep(m, n)) && Shrinks(m, WakeStep(m, n))
  {
    DetachKeeps(m, n);
    var m1 := Detach(m, n);
    if m1.tasks[n.task].waitCount == 0 || !m1.tasks[n.task].waitAll {
      SetStateKeeps(m1, n.task, Runnable);
      var m2 := SetState(m1, n.task, Runnable);
      ReleaseAllKeeps(m2, n.task);
      ShrinksTrans(m, m1, m2);
      ShrinksTrans(m, m2, ReleaseAll(m2, n.task));
    }
  }

  /** _obj_wake (wait.c lines 99-149) on the mesh: pop the head of the
      object's list until `count` wakes are used up or nobody waits; a count
      of -1 never runs out. The second component is the count left over. */
  function Wake(m: Mesh, o: Addr, count: int): (r: (Mesh, int))
    requires MeshOk(m) && o in m.onodes && count >= -1
    ensures MeshOk(r.0) && SameKeys(m, r.0)
    decreases |m.onodes[o].waitList|
  {
    var l := m.onodes[o].waitList;
    if count == 0 || l == [] then (m, count)
    else
      assert l[0] in l && ObjListOk(m, o);
      Wake(WakeStep(m, l[0]), o, if count == -1 then -1 else count - 1)
  }

  /** Waking only removes nodes from lists. */
  lemma {:induction false} WakeShrinks(m: Mesh, o: Addr, count: int)
    requires MeshOk(m) && o in m.onodes && count >= -1
    ensures SameKeys(m, Wake(m, o, count).0) && Shrinks(m, Wake(m, o, count).0)
    decreases |m.onodes[o].waitList|
  {
    var l := m.onodes[o].waitList;
    if count != 0 && l != [] {
      assert l[0] in l && ObjListOk(m, o);
      var m1 := WakeStep(m, l[0]);
      WakeStepShrinks(m, l[0]);
      WakeShrinks(m1, o, if count == -1 then -1 else count - 1);
      ShrinksTrans(m, m1, Wake(m1, o, if count == -1 then -1 else count - 1).0);
    }
  }

  /** The count _obj_wake hands back: -1 stays -1 and then nobody is left
      waiting; otherwise it is what remains of count after one decrement per
      popped waiter, and anything left over means the list ran dry. */
  lemma {:induction false} WakeLeftover(m: Mesh, o: Addr, count: int)
    requires MeshOk(m) && o in m.onodes && count >= -1
    ensures var (r, left) := Wake(m, o, count);
      && (count == -1 ==> left == -1 && r.onodes[o].waitList == [])
      && (count >= 0 ==> 0 <= left <= count)
      && (count > 0 && m.onodes[o].waitList != [] ==> left < count)
      && (left != 0 ==> r.onodes[o].waitList == [])
    decreases |m.onodes[o].waitList|
  {
    var l := m.onodes[o].waitList;
    if count != 0 && l != [] {
      assert l[0] in l && ObjListOk(m, o);
      WakeLeftover(WakeStep(m, l[0]), o, if count == -1 then -1 else count - 1);
    }
  }

  /** The rule of wait.c lines 111-136 for the task of the popped node: if
      that was its last wait, or it waits for any one object, it becomes
      RUNNABLE with no waits left; otherwise (wait-all with waits outstanding)
      it only loses this node and keeps sleeping. No other task changes. */
  lemma WakeStepRule(m: Mesh, n: WaitNode)
    requires MeshOk(m) && n.onode in m.onodes && n in m.onodes[n.onode].waitList
    ensures n.task in m.tasks && n in m.tasks[n.task].waitList
    ensures var r := WakeStep(m, n);
      var t := m.tasks[n.task];
      && (|t.waitList| == 1 || !t.waitAll ==>
            r.tasks[n.task] == t.(state := Runnable, waitList := [], waitCount := 0))
      && (|t.waitList| > 1 && t.waitAll ==>
            r.tasks[n.task] == t.(waitList := Without(t.waitList, n), waitCount := t.waitCount - 1))
      && (forall u :: u in m.tasks && u != n.task ==> r.tasks[u] == m.tasks[u])
  {
    DetachKeeps(m, n);
    assert TaskListOk(m, n.task);
    var m1 := Detach(m, n);
    if m1.tasks[n.task].waitCount == 0 || !m1.tasks[n.task].waitAll {
      SetStateKeeps(m1, n.task, Runnable);
      ReleaseAllKeeps(SetState(m1, n.task, Runnable), n.task);
    }
  }

  /** A task with no node in the object's list is not touched by waking the
      object, whatever the count. */
  lemma {:induction false} WakeSpares(m: Mesh, o: Addr, count: int, u: TaskId)
    requires MeshOk(m) && o in m.onodes && count >= -1 && u in m.tasks
    requires forall n :: n in m.onodes[o].waitList ==> n.task != u
    ensures Wake(m, o, count).0.tasks[u] == m.tasks[u]
    decreases |m.onodes[o].waitList|
  {
    var l := m.onodes[o].waitList;
    if count != 0 && l != [] {
      assert l[0] in l && ObjListOk(m, o);
      WakeStepRule(m, l[0]);
      WakeStepShrinks(m, l[0]);
      var m1 := WakeStep(m, l[0]);
      WakeSpares(m1, o, if count == -1 then -1 else count - 1, u);
    }
  }

  /** Popping n leaves the rest of its object's queue as it was, when no
      other node of that queue belongs to n's task. */
  lemma WakeStepKeepsQueue(m: Mesh, n: WaitNode)
    requires MeshOk(m) && n.onode in m.onodes && n in m.onodes[n.onode].waitList
    requires forall z :: z in m.onodes[n.onode].waitList && z != n ==> z.task != n.task
    ensures WakeStep(m, n).onodes[n.onode].waitList == Without(m.onodes[n.onode].waitList, n)
  {
    DetachKeeps(m, n);
    var m1 := Detach(m, n);
    assert ObjListOk(m, n.onode);
    WithoutMembers(m.onodes[n.onode].waitList, n);
    if m1.tasks[n.task].waitCount == 0 || !m1.tasks[n.task].waitAll {
      SetStateKeeps(m1, n.task, Runnable);
      ReleaseAllSpares(SetState(m1, n.task, Runnable), n.task, n.onode);
    }
  }

  /** The list with every node of task t taken out, in order. */
  function DropTask(l: seq<WaitNode>, t: TaskId): (r: seq<WaitNode>)
    ensures forall z :: z in r <==> z in l && z.task != t
  {
    if l == [] then [] else (if l[0].task == t then [] else [l[0]]) + DropTask(l[1..], t)
  }

  lemma {:induction false} DropTaskConcat(a: seq<WaitNode>, b: seq<WaitNode>, t: TaskId)
    ensures DropTask(a + b, t) == DropTask(a, t) + DropTask(b, t)
  {
    if a == [] {
      assert a + b == b;
    } else {
      assert (a + b)[0] == a[0] && (a + b)[1..] == a[1..] + b;
      DropTaskConcat(a[1..], b, t);
    }
  }

  /** Taking out one node of task t first changes nothing. */
  lemma DropTaskWithout(l: seq<WaitNode>, x: WaitNode, t: TaskId)
    requires x in l && x.task == t
    ensures DropTask(Without(l, x), t) == DropTask(l, t)
  {
    var k := IndexOf(l, x);
    assert l == l[..k] + ([x] + l[k + 1..]);
    DropTaskConcat(l[..k], [x] + l[k + 1..], t);
    DropTaskConcat([x], l[k + 1..], t);
    DropTaskConcat(l[..k], l[k + 1..], t);
  }

  /** A list without nodes of task t is its own DropTask. */
  lemma {:induction false} DropTaskNone(l: seq<WaitNode>, t: TaskId)
    requires forall z :: z in l ==> z.task != t
    ensures DropTask(l, t) == l
  {
    if l != [] {
      assert l[0] in l;
      DropTaskNone(l[1..], t);
    }
  }

  /** The release loop takes exactly the task's nodes out of every object's
      list, keeping the order of the others. */
  lemma {:induction false} ReleaseAllQueues(m: Mesh, t: TaskId, p: Addr)
    requires MeshOk(m) && t in m.tasks && p in m.onodes
    ensures ReleaseAll(m, t).onodes[p].waitList == DropTask(m.onodes[p].waitList, t)
    decreases |m.tasks[t].waitList|
  {
    var l := m.tasks[t].waitList;
    if l == [] {
      assert ObjListOk(m, p) && TaskListOk(m, t);
      DropTaskNone(m.onodes[p].waitList, t);
    } else {
      assert TaskListOk(m, t) && l[0] in l;
      DetachKeeps(m, l[0]);
      var m1 := Detach(m, l[0]);
      ReleaseAllQueues(m1, t, p);
      if p == l[0].onode {
        DropTaskWithout(m.onodes[p].waitList, l[0], t);
      }
    }
  }

  /** Popping n wakes its task: the node was its last wait, or the task
      waits for any one object. */
  ghost predicate Frees(m: Mesh, n: WaitNode)
    requires n.task in m.tasks
  {
    |m.tasks[n.task].waitList| == 1 || !m.tasks[n.task].waitAll
  }

  /** What one turn does to every object's list: a task that wakes loses all
      of its nodes everywhere; otherwise only the popped node goes. */
  lemma WakeStepQueues(m: Mesh, n: WaitNode, p: Addr)
    requires MeshOk(m) && n.onode in m.onodes && n in m.onodes[n.onode].waitList && p in m.onodes
    ensures n.task in m.tasks
    ensures var l := m.onodes[p].waitList;
      WakeStep(m, n).onodes[p].waitList ==
        if Frees(m, n) then DropTask(l, n.task)
        else if p == n.onode then Without(l, n)
        else l
  {
    DetachKeeps(m, n);
    assert TaskListOk(m, n.task);
    var m1 := Detach(m, n);
    if m1.tasks[n.task].waitCount == 0 || !m1.tasks[n.task].waitAll {
      SetStateKeeps(m1, n.task, Runnable);
      ReleaseAllQueues(SetState(m1, n.task, Runnable), n.task, p);
      if p == n.onode {
        DropTaskWithout(m.onodes[p].waitList, n, n.task);
      }
    }
  }

  /** FIFO: a single wake serves the oldest waiter, the head of the list.
      The others stay queued in their order, less the woken task's other
      nodes when it wakes; a wait-all task that still waits elsewhere only
      loses the popped node. */
  lemma WakeServesOldest(m: Mesh, o: Addr)
    requires MeshOk(m) && o in m.onodes && m.onodes[o].waitList != []
    ensures var q := m.onodes[o].waitList;
      q[0].task in m.tasks &&
      var (r, left) := Wake(m, o, 1);
      && left == 0
      && r.onodes[o].waitList == (if Frees(m, q[0]) then DropTask(q[1..], q[0].task) else q[1..])
      && r.tasks[q[0].task] ==
           (if Frees(m, q[0]) then m.tasks[q[0].task].(state := Runnable, waitList := [], waitCount := 0)
            else m.tasks[q[0].task].(waitList := Without(m.tasks[q[0].task].waitList, q[0]),
                                    waitCount := m.tasks[q[0].task].waitCount - 1))
  {
    var l := m.onodes[o].waitList;
    var n := l[0];
    HeadQueue(m, o);
    WakeStepRule(m, n);
    assert Wake(m, o, 1) == Wake(WakeStep(m, n), o, 0);
  }

  /** The list after popping its head. */
  lemma HeadQueue(m: Mesh, o: Addr)
    requires MeshOk(m) && o in m.onodes && m.onodes[o].waitList != []
    ensures var q := m.onodes[o].waitList;
      && q[0] in q && q[0].onode == o && q[0].task in m.tasks
      && WakeStep(m, q[0]).onodes[o].waitList ==
           (if Frees(m, q[0]) then DropTask(q[1..], q[0].task) else q[1..])
  {
    var l := m.onodes[o].waitList;
    var n := l[0];
    assert n in l;
    assert ObjListOk(m, o);
    IndexOfAt(l, 0);
    assert Without(l, n) == l[1..];
    assert l == [n] + l[1..];
    DropTaskConcat([n], l[1..], n.task);
    WakeStepQueues(m, n, o);
  }

  /** No task has two nodes in the list. */
  predicate DistinctTasks(l: seq<WaitNode>) {
    forall i, j :: 0 <= i < j < |l| ==> l[i].task != l[j].task
  }

  /** When no task has two nodes in the object's list, a wake with count
      c >= 0 pops exactly the first min(c, |q|) waiters, in order, and
      hands back what is left of c. */
  lemma {:induction false} WakeQueue(m: Mesh, o: Addr, count: int)
    requires MeshOk(m) && o in m.onodes && count >= 0
    requires DistinctTasks(m.onodes[o].waitList)
    ensures var q := m.onodes[o].waitList;
      var (r, left) := Wake(m, o, count);
      && left == (if count <= |q| then 0 else count - |q|)
      && r.onodes[o].waitList == q[(if count <= |q| then count else |q|)..]
    decreases |m.onodes[o].waitList|
  {
    var l := m.onodes[o].waitList;
    if count != 0 && l != [] {
      DistinctHead(m, o);
      var m1 := WakeStep(m, l[0]);
      assert Wake(m, o, count) == Wake(m1, o, count - 1);
      WakeQueue(m1, o, count - 1);
    }
  }

  /** With distinct tasks, popping the head leaves the rest of the list, whose
      tasks are still distinct. */
  lemma DistinctHead(m: Mesh, o: Addr)
    requires MeshOk(m) && o in m.onodes && m.onodes[o].waitList != []
    requires DistinctTasks(m.onodes[o].waitList)
    ensures var q := m.onodes[o].waitList;
      && q[0] in q && q[0].onode == o
      && WakeStep(m, q[0]).onodes[o].waitList == q[1..]
      && DistinctTasks(q[1..])
  {
    var l := m.onodes[o].waitList;
    var n := l[0];
    assert n in l && ObjListOk(m, o);
    IndexOfAt(l, 0);
    forall z | z in l && z != n
      ensures z.task != n.task
    {
      var i :| 0 <= i < |l| && l[i] == z;
    }
    WakeStepKeepsQueue(m, n);
    assert Without(l, n) == l[1..];
  }

  /** A task that wakes: RUNNABLE with no waits. */
  function Woken(t: Task): Task {
    t.(state := Runnable, waitList := [], waitCount := 0)
  }

  /** When no task has two nodes in the object's list, a wake with a
      non-negative count wakes the task of every node before position count
      that waits on that node alone or waits for any one of its objects. */
  lemma {:induction false} WakeQueueWoken(m: Mesh, o: Addr, count: int, i: nat)
    requires MeshOk(m) && o in m.onodes && DistinctTasks(m.onodes[o].waitList)
    requires i < |m.onodes[o].waitList| && i < count && m.onodes[o].waitList[i].task in m.tasks
    requires |m.tasks[m.onodes[o].waitList[i].task].waitList| == 1 || !m.tasks[m.onodes[o].waitList[i].task].waitAll
    ensures Wake(m, o, count).0.tasks[m.onodes[o].waitList[i].task] == Woken(m.tasks[m.onodes[o].waitList[i].task])
    decreases |m.onodes[o].waitList|
  {
    var l := m.onodes[o].waitList;
    WokenStep(m, o, i);
    if i == 0 {
      WakeSpares(WakeStep(m, l[0]), o, if count == -1 then -1 else count - 1, l[0].task);
    } else {
      WakeQueueWoken(WakeStep(m, l[0]), o, if count == -1 then -1 else count - 1, i - 1);
    }
  }

  /** One turn of the wake above: the head's task wakes if it is node i's,
      and is otherwise left as it was, one place nearer the head. */
  lemma WokenStep(m: Mesh, o: Addr, i: nat)
    requires MeshOk(m) && o in m.onodes && DistinctTasks(m.onodes[o].waitList)
    requires i < |m.onodes[o].waitList| && m.onodes[o].waitList[i].task in m.tasks
    requires |m.tasks[m.onodes[o].waitList[i].task].waitList| == 1 || !m.tasks[m.onodes[o].waitList[i].task].waitAll
    ensures m.onodes[o].waitList[0] in m.onodes[o].waitList && m.onodes[o].waitList[0].onode == o
    ensures MeshOk(WakeStep(m, m.onodes[o].waitList[0])) && o in WakeStep(m, m.onodes[o].waitList[0]).onodes
    ensures DistinctTasks(WakeStep(m, m.onodes[o].waitList[0]).onodes[o].waitList)
    ensures m.onodes[o].waitList[i].task in WakeStep(m, m.onodes[o].waitList[0]).tasks
    ensures i == 0 ==>
      && WakeStep(m, m.onodes[o].waitList[0]).tasks[m.onodes[o].waitList[0].task] == Woken(m.tasks[m.onodes[o].waitList[0].task])
      && (forall n :: n in WakeStep(m, m.onodes[o].waitList[0]).onodes[o].waitList ==> n.task != m.onodes[o].waitList[0].task)
    ensures i > 0 ==>
      && i - 1 < |WakeStep(m, m.onodes[o].waitList[0]).onodes[o].waitList|
      && WakeStep(m, m.onodes[o].waitList[0]).onodes[o].waitList[i - 1] == m.onodes[o].waitList[i]
      && WakeStep(m, m.onodes[o].waitList[0]).tasks[m.onodes[o].waitList[i].task] == m.tasks[m.onodes[o].waitList[i].task]
  {
    var l := m.onodes[o].waitList;
    var u := l[i].task;
    DistinctHead(m, o);
    WakeStepRule(m, l[0]);
    var m1 := WakeStep(m, l[0]);
    if i == 0 {
      forall n | n in m1.onodes[o].waitList
        ensures n.task != u
      {
        var k :| 0 <= k < |l[1..]| && l[1..][k] == n;
        assert l[k + 1] == n;
      }
    } else {
      assert m1.onodes[o].waitList[i - 1] == l[i];
    }
  }

  /** ... and leaves every task with no node among the first count ones as
      it was. */
  lemma {:induction false} WakeQueueKept(m: Mesh, o: Addr, count: int, u: TaskId)
    requires MeshOk(m) && o in m.onodes && DistinctTasks(m.onodes[o].waitList) && count >= 0 && u in m.tasks
    requires forall j :: 0 <= j < |m.onodes[o].waitList| && j < count ==> m.onodes[o].waitList[j].task != u
    ensures Wake(m, o, count).0.tasks[u] == m.tasks[u]
    decreases |m.onodes[o].waitList|
  {
    var l := m.onodes[o].waitList;
    if count != 0 && l != [] {
      KeptStep(m, o, count, u);
      WakeQueueKept(WakeStep(m, l[0]), o, if count == -1 then -1 else count - 1, u);
    }
  }

  /** One turn of the wake above, for a task it does not reach. */
  lemma KeptStep(m: Mesh, o: Addr, count: int, u: TaskId)
    requires MeshOk(m) && o in m.onodes && DistinctTasks(m.onodes[o].waitList) && count > 0 && u in m.tasks
    requires m.onodes[o].waitList != []
    requires forall j :: 0 <= j < |m.onodes[o].waitList| && j < count ==> m.onodes[o].waitList[j].task != u
    ensures m.onodes[o].waitList[0] in m.onodes[o].waitList && m.onodes[o].waitList[0].onode == o
    ensures MeshOk(WakeStep(m, m.onodes[o].waitList[0])) && o in WakeStep(m, m.onodes[o].waitList[0]).onodes
    ensures DistinctTasks(WakeStep(m, m.onodes[o].waitList[0]).onodes[o].waitList)
    ensures u in WakeStep(m, m.onodes[o].waitList[0]).tasks
    ensures WakeStep(m, m.onodes[o].waitList[0]).tasks[u] == m.tasks[u]
    ensures forall j :: 0 <= j < |WakeStep(m, m.onodes[o].waitList[0]).onodes[o].waitList| && j < count - 1 ==>
      WakeStep(m, m.onodes[o].waitList[0]).onodes[o].waitList[j].task != u
  {
    var l := m.onodes[o].waitList;
    DistinctHead(m, o);
    WakeStepRule(m, l[0]);
    var m1 := WakeStep(m, l[0]);
    forall j | 0 <= j < |m1.onodes[o].waitList| && j < count - 1
      ensures m1.onodes[o].waitList[j].task != u
    {
      assert m1.onodes[o].waitList[j] == l[j + 1];
    }
  }

  /** Every list and every count is as it was. */
  ghost predicate SameLists(m: Mesh, r: Mesh)
    requires SameKeys(m, r)
  {
    && (forall o :: o in m.onodes ==>
          r.onodes[o].waitList == m.onodes[o].waitList && r.onodes[o].waitCount == m.onodes[o].waitCount)
    && (forall t :: t in m.tasks ==>
          r.tasks[t].waitList == m.tasks[t].waitList && r.tasks[t].waitCount == m.tasks[t].waitCount)
  }

  /** Writing fields other than the wait lists and counts (a state, a
      semaphore's count, the signalled flag) keeps the mesh consistent. */
  lemma SameListsKeep(m: Mesh, r: Mesh)
    requires MeshOk(m) && SameKeys(m, r) && SameLists(m, r)
    ensures MeshOk(r)
  {
    forall o | o in r.onodes
      ensures ObjListOk(r, o)
    {
      assert ObjListOk(m, o);
    }
    forall u | u in r.tasks
      ensures TaskListOk(r, u)
    {
      assert TaskListOk(m, u);
    }
  }

  /** A new object or task with no waits joins a consistent mesh. */
  lemma AddObjectKeeps(m: Mesh, o: Addr, node: ONode)
    requires MeshOk(m) && o !in m.onodes && node.waitList == [] && node.waitCount == 0
    ensures MeshOk(m.(onodes := m.onodes[o := node]))
  {
    var r := m.(onodes := m.onodes[o := node]);
    forall p | p in r.onodes
      ensures ObjListOk(r, p)
    {
      if p != o {
        assert ObjListOk(m, p);
      }
    }
    forall u | u in r.tasks
      ensures TaskListOk(r, u)
    {
      assert TaskListOk(m, u);
    }
  }

  /** A task that waits for any one of its objects and has a node on o
      comes out of a wake of everybody RUNNABLE with no waits left, whatever
      else it waits on. */
  lemma {:induction false} WakeAllReleases(m: Mesh, o: Addr, u: TaskId, z: WaitNode)
    requires MeshOk(m) && o in m.onodes && u in m.tasks
    requires !m.tasks[u].waitAll && z in m.tasks[u].waitList && z.onode == o
    ensures Wake(m, o, -1).0.tasks[u] == m.tasks[u].(state := Runnable, waitList := [], waitCount := 0)
    decreases |m.onodes[o].waitList|
  {
    var l := m.onodes[o].waitList;
    assert TaskListOk(m, u) && z in l;
    assert l[0] in l && ObjListOk(m, o);
    WakeStepRule(m, l[0]);
    var m1 := WakeStep(m, l[0]);
    assert Wake(m, o, -1) == Wake(m1, o, -1);
    if l[0].task == u {
      forall n | n in m1.onodes[o].waitList
        ensures n.task != u
      {
        assert ObjListOk(m1, o);
      }
      WakeSpares(m1, o, -1, u);
    } else {
      WakeAllReleases(m1, o, u, z);
    }
  }

  /** Waking touches no field of an object but its wait list and count: the
      reference counts, names and semaphore counts stay. */
  lemma WakeStepObjects(m: Mesh, n: WaitNode)
    requires MeshOk(m) && n.onode in m.onodes && n in m.onodes[n.onode].waitList
    ensures SameKeys(m, WakeStep(m, n)) && ObjectsOnlyLists(m, WakeStep(m, n))
  {
    DetachKeeps(m, n);
    var m1 := Detach(m, n);
    if m1.tasks[n.task].waitCount == 0 || !m1.tasks[n.task].waitAll {
      SetStateKeeps(m1, n.task, Runnable);
      ReleaseAllKeeps(SetState(m1, n.task, Runnable), n.task);
    }
  }

  lemma {:induction false} WakeObjects(m: Mesh, o: Addr, count: int)
    requires MeshOk(m) && o in m.onodes && count >= -1
    ensures SameKeys(m, Wake(m, o, count).0) && ObjectsOnlyLists(m, Wake(m, o, count).0)
    decreases |m.onodes[o].waitList|
  {
    var l := m.onodes[o].waitList;
    if count != 0 && l != [] {
      assert l[0] in l && ObjListOk(m, o);
      WakeStepObjects(m, l[0]);
      var m1 := WakeStep(m, l[0]);
      WakeObjects(m1, o, if count == -1 then -1 else count - 1);
    }
  }
}
