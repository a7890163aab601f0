/** The counting semaphore (kernel/kernel/semaphore.c): the count kept in the
    onode's extra bytes and the `_sem_unsignal` hook that obj_wait calls on a
    signalled semaphore. sem_open and sem_release, which also wake waiters,
    are in module SemaphoreCalls. */
module Semaphore {
  import opened Common
  import opened KernelTypes
  import opened ObjArray
  import opened Tasks

  /** semaphore_ops */
  const SEMAPHORE_OPS: ONodeOps := ONodeOps(ObjSemaphore, SemUnsignal)

  /** SEM_MAX_VALUE (kernel/kernel/objects.h), i.e. MAX_INT. */
  const SEM_MAX_VALUE: int := 0x7fff_ffff

  /** A sound semaphore: its count lies between 0 and its maximum, and the
      object is signalled exactly when the count is positive. */
  predicate SemOk(o: ONode) {
    0 <= o.extra.current <= o.extra.max && (o.signalled <==> o.extra.current > 0)
  }

  /** Lines 55-57 of sem_open: a new semaphore's count and maximum. */
  function Initialised(o: ONode, initial: int, max: int): ONode {
    o.(extra := SemData(initial, max), signalled := initial > 0)
  }

  /** _sem_unsignal, lines 106-111: one unit is taken; the count must be
      positive (ASSERT at line 108). */
  function TakeUnit(o: ONode): Outcome<ONode> {
    if o.extra.current > 0 then
      Returns(o.(extra := o.extra.(current := o.extra.current - 1), signalled := o.extra.current - 1 > 0))
    else Panics("ASSERT(sem->current > 0)")
  }

  /** Lines 90-91 of sem_release: the units no waiter took are added to the
      count. */
  function Released(o: ONode, left: int): ONode {
    var c := o.extra.current + left;
    o.(extra := o.extra.(current := c), signalled := c > 0)
  }

  /** sem_open checks `initial >= 0` and `max >= 1` but not `initial <= max`:
      the semaphore it initialises is sound exactly when the initial count
      does not exceed the maximum. */
  lemma InitialisedOk(o: ONode, initial: int, max: int)
    ensures SemOk(Initialised(o, initial, max)) <==> 0 <= initial <= max
    ensures Initialised(o, initial, max).waitList == o.waitList
    ensures Initialised(o, initial, max).refCount == o.refCount
  {
  }

  /** On a sound semaphore the unsignal hook fails exactly when the object is
      not signalled; otherwise it takes one unit and keeps the semaphore
      sound, touching nothing else. */
  lemma UnsignalKeeps(o: ONode)
    requires SemOk(o)
    ensures TakeUnit(o).Returns? <==> o.signalled
    ensures o.signalled ==>
      var r := TakeUnit(o).value;
      && SemOk(r) && r.extra.current == o.extra.current - 1 && r.extra.max == o.extra.max
      && r == o.(extra := r.extra, signalled := r.signalled)
  {
  }

  /** Adding what is left of a release keeps a semaphore sound when the
      release passed sem_release's check against the maximum. */
  lemma ReleasedKeeps(o: ONode, count: int, left: int)
    requires SemOk(o) && o.extra.current + count <= o.extra.max && 0 <= left <= count
    ensures var r := Released(o, left);
      && SemOk(r) && r.extra.current == o.extra.current + left && r.extra.max == o.extra.max
      && r == o.(extra := r.extra, signalled := r.signalled)
  {
  }

  /** Taking a unit and giving it back with nobody waiting restores the
      semaphore. */
  lemma UnsignalRelease(o: ONode)
    requires SemOk(o) && o.signalled
    ensures TakeUnit(o).Returns? && Released(TakeUnit(o).value, 1) == o
  {
  }

  /** _sem_unsignal on the onode of hnode hn: it asserts that the task's and
      the object's locks are held and that the count is positive. */
  method SemUnsignalHook(table: ObjectTable, sched: Scheduler, hn: int, task: TaskId) returns (r: Outcome<()>)
    requires hn in table.hnodes && table.hnodes[hn].onode in table.onodes
    modifies table`onodes
    ensures var o := table.hnodes[hn].onode;
      var u := TakeUnit(old(table.onodes[o]));
      && (r.Returns? <==> task in sched.taskLocked && o in table.locked && u.Returns?)
      && (r.Returns? ==> table.onodes == old(table.onodes)[o := u.value])
      && (!r.Returns? ==> r.Panics? && table.onodes == old(table.onodes))
  {
    var o := table.hnodes[hn].onode;
    if task !in sched.taskLocked || o !in table.locked {
      return Panics("ASSERT: lock not held in _sem_unsignal");
    }
    var u := TakeUnit(table.onodes[o]);
    if !u.Returns? {
      return Panics("ASSERT(sem->current > 0)");
    }
    table.onodes := table.onodes[o := u.value];
    r := Returns(());
  }
}

/** sem_open and sem_release (kernel/kernel/semaphore.c lines 25-95), which
    go through the object table and, for a release, wake waiters. */
module SemaphoreCalls {
  import opened Common
  import opened Errno
  import opened KernelTypes
  import opened ObjArray
  import opened Tasks
  import opened WaitGraph
  import opened WaitOps
  import opened Semaphore

  /** Writing a new count into one object keeps the mesh consistent and
      moves no reference count. */
  lemma SetCountKeepsMesh(m: Mesh, o: Addr, node: ONode)
    requires MeshOk(m) && o in m.onodes
    requires node == m.onodes[o].(extra := node.extra, signalled := node.signalled)
    ensures MeshOk(m.(onodes := m.onodes[o := node])) && SameRefs(m.onodes, m.onodes[o := node])
  {
    var r := m.(onodes := m.onodes[o := node]);
    assert SameKeys(m, r) && SameLists(m, r);
    SameListsKeep(m, r);
  }

  /** One more reference on an object keeps the mesh consistent. */
  lemma AddRefKeepsMesh(m: Mesh, o: Addr)
    requires MeshOk(m) && o in m.onodes
    ensures MeshOk(m.(onodes := AddRef(m.onodes, o)))
  {
    var r := m.(onodes := AddRef(m.onodes, o));
    assert SameKeys(m, r) && SameLists(m, r);
    SameListsKeep(m, r);
  }

  /** What sem_release does to a sound semaphore whose check against the
      maximum passed: every unit of the release either wakes a waiter or is
      added to the count, the count goes up only when nobody is left
      waiting, and the semaphore stays sound. */
  lemma ReleaseKeepsSem(m: Mesh, o: Addr, count: int)
    requires MeshOk(m) && o in m.onodes && SemOk(m.onodes[o])
    requires count > 0 && m.onodes[o].extra.current + count <= m.onodes[o].extra.max
    ensures var (w, left) := Wake(m, o, count);
      var s := Released(w.onodes[o], left);
      && SemOk(s) && 0 <= left <= count && s.extra.max == m.onodes[o].extra.max
      && s.extra.current == m.onodes[o].extra.current + left
      && (left > 0 ==> w.onodes[o].waitList == [])
      && (m.onodes[o].waitList != [] ==> left < count)
      && s.refCount == m.onodes[o].refCount && s.name == m.onodes[o].name
  {
    WakeLeftover(m, o, count);
    WakeObjects(m, o, count);
    var (w, left) := Wake(m, o, count);
    ReleasedKeeps(w.onodes[o], count, left);
  }

  /** sem_release on a queue in which no task waits on more than one object:
      with q the queue, the first min(count, |q|) waiters are woken in queue
      order and leave the queue, the others keep their places and their
      records, tasks outside the queue are untouched, and the count grows by
      exactly the units nobody took, max(0, count - |q|). */
  lemma ReleaseWakesQueue(m: Mesh, o: Addr, count: int)
    requires MeshOk(m) && SingleWaits(m) && o in m.onodes && SemOk(m.onodes[o])
    requires count > 0 && m.onodes[o].extra.current + count <= m.onodes[o].extra.max
    ensures var q := m.onodes[o].waitList;
      var (w, left) := Wake(m, o, count);
      && Released(w.onodes[o], left).extra.current ==
           m.onodes[o].extra.current + (if count <= |q| then 0 else count - |q|)
      && w.onodes[o].waitList == q[(if count <= |q| then count else |q|)..]
      && (forall i :: 0 <= i < |q| ==>
            && q[i].task in m.tasks
            && w.tasks[q[i].task] == if i < count then Woken(m.tasks[q[i].task]) else m.tasks[q[i].task])
      && (forall u :: u in m.tasks && (forall n :: n in q ==> n.task != u) ==> w.tasks[u] == m.tasks[u])
  {
    var q := m.onodes[o].waitList;
    SingleWaitsDistinct(m, o);
    WakeQueue(m, o, count);
    ReleaseKeepsSem(m, o, count);
    forall i | 0 <= i < |q|
      ensures q[i].task in m.tasks
      ensures Wake(m, o, count).0.tasks[q[i].task] ==
        if i < count then Woken(m.tasks[q[i].task]) else m.tasks[q[i].task]
    {
      WakeQueueTasks(m, o, count, i);
    }
    forall u | u in m.tasks && (forall n :: n in q ==> n.task != u)
      ensures Wake(m, o, count).0.tasks[u] == m.tasks[u]
    {
      WakeSpares(m, o, count, u);
    }
  }

  /** sem_open: open or create the named semaphore (lines 25-63). The
      arguments are checked first; a semaphore that _obj_open creates gets
      its count and maximum, and is signalled when the count is positive;
      one that already exists is left as it is but for its reference count.
      The disposition is reported only when the caller asks for it. */
  method SemOpen(table: ObjectTable, sched: Scheduler, name: Option<string>, flags: bv32, wantDisposition: bool,
                 max: int, initial: int, current: Option<TaskId>,
                 hnodeMem: Option<Addr>, onodeMem: Option<Addr>, nameDupOk: bool)
    returns (r: Outcome<int>, disposition: Option<int>)
    requires table.Valid() && table.RefCountsExact() && MeshOk(MeshOf(table, sched))
    requires hnodeMem.Some? ==> hnodeMem.value !in table.hnodes
    requires onodeMem.Some? ==> onodeMem.value !in table.onodes && onodeMem.value !in table.locked
    modifies table, table.slots
    ensures table.locked == old(table.locked)
    ensures initial < 0 || max < 1 ==> r == Returns(-EINVAL) && disposition == None && table.Unchanged()
    ensures r.Returns? ==> table.Valid() && table.RefCountsExact() && MeshOk(MeshOf(table, sched))
    ensures r.Returns? && r.value < 0 ==> table.onodes == old(table.onodes) && table.hnodes == old(table.hnodes)
    ensures initial >= 0 && max >= 1 && r.Returns? ==>
      var created := onodeMem.Some? && onodeMem.value in table.onodes;
      && (disposition.Some? <==> wantDisposition)
      && (disposition.Some? ==>
            disposition.value == if r.value >= 0 && !created then OBJ_OPEN_EXISTING as int else 0)
      && (created ==>
            && r == Returns(0) && hnodeMem.Some?
            && table.slots[0] == hnodeMem.value && table.hnodes[hnodeMem.value].onode == onodeMem.value
            && table.onodes == old(table.onodes)[onodeMem.value :=
                 Initialised(NewONode(SEMAPHORE_OPS, name), initial, max)])
      && (r.value >= 0 && !created ==>
            && table.onodes.Keys == old(table.onodes).Keys
            && forall p :: p in old(table.onodes) ==>
                 table.onodes[p].(refCount := 0) == old(table.onodes[p]).(refCount := 0))
  {
    if initial < 0 || max < 1 {
      return Returns(-EINVAL), None;
    }
    var d;
    r, d := OpenSemaphoreObject(table, sched, name, flags, current, hnodeMem, onodeMem, nameDupOk);
    disposition := if wantDisposition then Some(d) else None;
    if !r.Returns? || r.value < 0 || d != 0 {
      return;
    }
    ghost var m1 := MeshOf(table, sched);
    SetCountKeepsMesh(m1, onodeMem.value, Initialised(table.onodes[onodeMem.value], initial, max));
    var g := InitCreated(table, r.value, initial, max);
    // The handle _obj_open just created is valid: the ASSERT at line 51 holds.
    assert g.Returns?;
  }

  /** Line 35 of sem_open: _obj_open with the semaphore's operations, its
      outcome sorted by what sem_open does next. A dup leaves every object as
      it was but for one reference count; a creation adds one fresh object
      reached through slot 0; an error changes no object. */
  method OpenSemaphoreObject(table: ObjectTable, sched: Scheduler, name: Option<string>, flags: bv32,
                             current: Option<TaskId>, hnodeMem: Option<Addr>, onodeMem: Option<Addr>,
                             nameDupOk: bool)
    returns (r: Outcome<int>, d: int)
    requires table.Valid() && table.RefCountsExact() && MeshOk(MeshOf(table, sched))
    requires hnodeMem.Some? ==> hnodeMem.value !in table.hnodes
    requires onodeMem.Some? ==> onodeMem.value !in table.onodes
    modifies table, table.slots
    ensures table.locked == old(table.locked)
    ensures r.Returns? ==> table.Valid() && table.RefCountsExact() && MeshOk(MeshOf(table, sched))
    ensures r.Returns? && r.value < 0 ==>
      d == 0 && table.onodes == old(table.onodes) && table.hnodes == old(table.hnodes)
    ensures r.Returns? && r.value >= 0 && d != 0 ==>
      && d == OBJ_OPEN_EXISTING as int && (onodeMem.Some? ==> onodeMem.value !in table.onodes)
      && table.onodes.Keys == old(table.onodes).Keys
      && forall p :: p in old(table.onodes) ==>
           table.onodes[p].(refCount := 0) == old(table.onodes[p]).(refCount := 0)
    ensures r.Returns? && r.value >= 0 && d == 0 ==>
      && r.value == 0 && hnodeMem.Some? && onodeMem.Some?
      && table.slots[0] == hnodeMem.value && table.hnodes[hnodeMem.value].onode == onodeMem.value
      && table.onodes == old(table.onodes)[onodeMem.value := NewONode(SEMAPHORE_OPS, name)]
  {
    ghost var m0 := MeshOf(table, sched);
    r, d := table.ObjOpen(name, flags, SEMAPHORE_OPS, current, hnodeMem, onodeMem, nameDupOk);
    if !r.Returns? || r.value < 0 {
      return;
    }
    if d != 0 {
      ghost var src := table.hnodes[table.slots[r.value]].onode;
      assert table.onodes == AddRef(m0.onodes, src);
      AddRefKeepsMesh(m0, src);
      return;
    }
    AddObjectKeeps(m0, onodeMem.value, NewONode(SEMAPHORE_OPS, name));
  }

  /** Lines 50-59 of sem_open: take the new object through its handle, set
      its count and maximum and release it. The handle must be valid
      (ASSERT at line 51). */
  method InitCreated(table: ObjectTable, h: int, initial: int, max: int) returns (r: Outcome<()>)
    requires table.Valid()
    modifies table`onodes, table`locked
    ensures r.Returns? <==> old(table.IsValidHandle(h))
    ensures r.Returns? ==>
      var o := table.hnodes[table.slots[h]].onode;
      && table.onodes == old(table.onodes)[o := Initialised(old(table.onodes[o]), initial, max)]
      && table.locked == old(table.locked) - {o}
      && table.Valid() && (old(table.RefCountsExact()) ==> table.RefCountsExact())
    ensures !r.Returns? ==> r.Panics? && table.onodes == old(table.onodes) && table.locked == old(table.locked)
  {
    var g := table.ObjGet(h);
    if !g.Returns? {
      return Panics("ASSERT(hnode)");
    }
    var o := table.hnodes[g.value].onode;
    table.onodes := table.onodes[o := Initialised(table.onodes[o], initial, max)];
    table.ObjRelease(g.value);
    table.OnodesReshaped();
    r := Returns(());
  }

  /** sem_release: add `count` units to the semaphore of handle h, waking one
      waiter per unit first (lines 67-95). A negative count and a release
      past the maximum are refused with -EINVAL; a sum that overflows an int
      is undefined; a count of 0 reaches _obj_wake's ASSERT. When every
      object the waiters also wait on is locked, the release always
      completes, and it keeps the kernel consistent. */
  method SemRelease(table: ObjectTable, sched: Scheduler, h: int, count: int) returns (r: Outcome<int>)
    requires KernelOk(table, sched)
    modifies table`onodes, table`locked, sched`tasks, sched`listLocked, sched`taskLocked
    ensures r.Returns? ==> KernelOk(table, sched) && (old(table.RefCountsExact()) ==> table.RefCountsExact())
    ensures count < 0 ==> r == Returns(-EINVAL) && MeshOf(table, sched) == old(MeshOf(table, sched))
    ensures count >= 0 && !old(table.Lookup(h)).Returns? ==>
      r == old(table.Lookup(h)) && MeshOf(table, sched) == old(MeshOf(table, sched))
    ensures count >= 0 && old(table.Lookup(h)).Returns? ==>
      var o := table.hnodes[old(table.Lookup(h)).value].onode;
      var on := old(table.onodes[o]);
      var sum := on.extra.current + count;
      && (!IsInt32(sum) ==> r.Undefined?)
      && (IsInt32(sum) && sum > on.extra.max ==>
            r == Returns(-EINVAL) && MeshOf(table, sched) == old(MeshOf(table, sched))
            && table.locked == old(table.locked) - {o})
      && (IsInt32(sum) && sum <= on.extra.max && count == 0 ==> r.Panics?)
      && (IsInt32(sum) && sum <= on.extra.max && count > 0 ==>
            && (old(Covered(MeshOf(table, sched), o, table.locked + {o})) ==> r.Returns?)
            && (r.Returns? ==>
                  var (w, left) := Wake(old(MeshOf(table, sched)), o, count);
                  && r == Returns(0) && sched.tasks == w.tasks
                  && table.onodes == w.onodes[o := Released(w.onodes[o], left)]
                  && table.locked == old(table.locked) - {o}))
  {
    if count < 0 {
      return Returns(-EINVAL);
    }
    var g := table.ObjGet(h);
    if !g.Returns? {
      return g;
    }
    r := ReleaseHeld(table, sched, g.value, count);
    if r.Returns? && r.value == 0 {
      table.OnodesReshaped();
      sched.TasksReshaped();
    }
  }

  /** Lines 82-94 of sem_release, with the object of hnode hn locked: the
      check against the maximum, the wake and the new count. */
  method ReleaseHeld(table: ObjectTable, sched: Scheduler, hn: int, count: int) returns (r: Outcome<int>)
    requires MeshOk(MeshOf(table, sched)) && hn in table.hnodes && table.hnodes[hn].onode in table.onodes
    requires table.hnodes[hn].onode in table.locked && count >= 0
    modifies table`onodes, table`locked, sched`tasks, sched`listLocked, sched`taskLocked
    ensures var o := table.hnodes[hn].onode;
      var on := old(table.onodes[o]);
      var sum := on.extra.current + count;
      && (!IsInt32(sum) ==> r.Undefined?)
      && (IsInt32(sum) && sum > on.extra.max ==>
            r == Returns(-EINVAL) && MeshOf(table, sched) == old(MeshOf(table, sched))
            && table.locked == old(table.locked) - {o})
      && (IsInt32(sum) && sum <= on.extra.max && count == 0 ==> r.Panics?)
      && (IsInt32(sum) && sum <= on.extra.max && count > 0 ==>
            && (old(Covered(MeshOf(table, sched), o, table.locked)) ==> r.Returns?)
            && (r.Returns? ==>
                  var (w, left) := Wake(old(MeshOf(table, sched)), o, count);
                  && r == Returns(0) && sched.tasks == w.tasks
                  && table.onodes == w.onodes[o := Released(w.onodes[o], left)]
                  && table.locked == old(table.locked) - {o}))
    ensures r.Returns? && r.value == 0 ==>
      MeshOk(MeshOf(table, sched)) && SameRefs(old(table.onodes), table.onodes)
      && sched.tasks.Keys == old(sched.tasks).Keys
  {
    var o := table.hnodes[hn].onode;
    var sum := table.onodes[o].extra.current + count;
    if !IsInt32(sum) {
      return Undefined("signed overflow in sem->current + count");
    }
    if sum > table.onodes[o].extra.max {
      table.ObjRelease(hn);
      return Returns(-EINVAL);
    }
    ghost var m0 := MeshOf(table, sched);
    var w := ObjWake(table, sched, hn, count);
    if !w.Returns? {
      return w;
    }
    ghost var m1 := MeshOf(table, sched);
    WakeObjects(m0, o, count);
    SetCountKeepsMesh(m1, o, Released(table.onodes[o], w.value));
    table.onodes := table.onodes[o := Released(table.onodes[o], w.value)];
    table.ObjRelease(hn);
    r := Returns(0);
  }
}
