# dwj-os kernel core in Dafny

This project models the waitable-object and scheduling layer of the dwj-os
kernel, and the small data-structure and encoding routines around it:

- **The handle table** (`ObjArray`, kernel/kernel/obj_array.c). `_handle_array`
  holds one word per handle. A used slot holds an hnode pointer. A free slot
  holds `(next << 1) | 1`, so the free slots form an intrusive LIFO list that
  starts at `_handle_array_next_free` and ends at -1. `_obj_open` finds an
  object by name and type and dups a handle to it, or creates a new object.
  Reference counts are kept equal to the number of handles on each object.
- **The wait graph** (`WaitGraph`, `WaitOps`, kernel/kernel/wait.c). Wait nodes
  form a two-dimensional mesh. Each node sits in its object's circular list of
  waiters (FIFO) and in its task's circular list of waits. The intrusive lists
  are kept as sequences inside the onode and task records. The `next`/`prev`
  pointers are derived from sequence positions (`CircularList`), and the
  reciprocal-link assertions of the C code are lemmas. `_obj_wake` is a
  function on the mesh (`Wake`), and the imperative loop (`WaitOps.WakeLoop`)
  is proved to compute it.
- **The counting semaphore** (`Semaphore`, `SemaphoreCalls`,
  kernel/kernel/semaphore.c), built on the two layers above.
- **The round-robin scheduler** (`Tasks`, kernel/kernel/task.c): task ids,
  task creation bookkeeping, the quantum countdown, the choice of the next task
  over the circular run queue, state changes and statistics.
- **The host replica of the wait graph** (`HostReplica`,
  tools/msdev/obj_adt/obj_adt.c), whose `main` runs a fixed scenario. The
  model replays that scenario step by step on concrete meshes.

- **The kernel heap** (`KernelHeap`, `HeapMalloc`, `HeapFree`, `HeapObject`,
  `HeapTests`, `HeapTest4`, kernel/vmm/heap.c). Blocks are headers in a map from address to
  `Block(size, next, prev, guard)`, plus the rear guard words. The free list
  is kept in address order and the alloc list doubly linked. `__kmalloc`
  (sizing, first fit, split, guards, alloc-list insert), `heap_merge` and
  `__kfree` (sanity checks, poison, unlink, address-ordered insert,
  coalescing) are functions, and the `Heap` class runs the C loops against
  them. `heap_count_nodes`, `heap_init`, `test_heap_1` and `test_heap_4` are
  modelled too.
- **The page allocator and page tables** (`Vmm`, `VmmLayout`, `VmmObject`,
  kernel/vmm/vmm.c and vmm.h). Physical memory is a map from word address to
  word. The free page list is threaded through it, and page tables are read
  through the page directory. `borrow_vpage`/`return_vpage`,
  `pmm_get_page`/`pmm_free_page`, `vmm_map_pages`, `vmm_unmap_pages` and
  `init_temp_vpages` are functions. The `MemoryManager` class runs them.
  `vmm_map_pages` and `pmm_get_page` call each other. The recursion ends
  because each nesting borrows one of the 16 temporary pages.
- **Formatted output** (`Printf`, `PrintfFacts`, `PrintfTest`,
  kernel/lib/printf.c, kernel/test/t-printf.c). `do_printf` is a machine over
  the format string and an i386 argument list. `vsnprintf`, `snprintf`,
  `vprintf` and `printf` are built on it. The lemmas state what each
  conversion prints, and `test_snprintf_1` is replayed.
- **String and buffer routines** (`Lib`, `LibBuffers`, kernel/lib/lib.c): the
  C-string functions, `itoa` and friends, `memset`/`memcpy`, and `k_getArg`.
- **Small kernel pieces**:
  - `StrError` and `Errno`: strerror and the error codes.
  - `Keyboard`: the scancode ring buffer.
  - `Vfs` and `Vnode`: the filesystem registry and vnode allocation and descent.
  - `Gdt`: descriptor encoding.
  - `Panic`: the stack walk and symbol lookup of panic.c.
  - `KernelTypes`: the kernel type layout.
  - `Vast`: the VAST symbol map of vast.h.
- **Host tools**:
  - `MakeMap` (tools/makemap.c) writes the VAST image.
  - `CoreDebugger` (tools/core-debugger/init.c) reads a core dump through
    its page tables and resolves symbols.

Spinlocks are kept as state: the set of locked onodes, the set of locked
tasks and whether `task_list_lock` is held. An `ASSERT` that a lock is held
becomes a `Panics` outcome. So does a `PANIC`, or a failed `ASSERT` on
anything else the function could check. `Undefined` marks a path on which the
C code reads or writes memory it does not own. kmalloc results are
parameters (`Option<Addr>` or `bool`): `None`/`false` is a failed
`HEAP_FAILOK` allocation.

The model follows the code where it differs from its comments:

- `_obj_open` tests `0 < h` on a `handle`, which is a pointer type, so the
  comparison is unsigned. Only an allocation of slot 0 goes on to create an
  object. Any other slot, and the -ENOMEM code, gives -ENOMEM with the
  allocated slot left NULL and off the free list. Once slot 0 is in use,
  creating a second object fails.
- `_obj_get` rejects `h > size` rather than `h >= size`, so `h == size` reads
  one slot past the array (`Undefined`). It also dereferences the odd word of
  a free slot as an hnode.
- `obj_wait`'s `-EINVAL` branch for a NULL hnode cannot be taken: `_obj_get`
  panics instead of returning NULL.
- `sem_open` checks `initial >= 0` and `max >= 1` but not `initial <= max`.
- `sem_release(h, 0)` passes the `count < 0` check and then fails
  `_obj_wake`'s `count > 0` assertion. `sem->current + count` is signed
  32-bit arithmetic, so a release that overflows it is undefined behaviour.
- The release loop of `_obj_wake` detaches the other wait nodes of a woken
  task without locking their objects. `_obj_wn_detach` asserts those locks,
  so waking a task that waits on several objects stops the kernel unless
  those objects happen to be locked. `obj_wait` only ever gives a task one
  wait, and the model proves that with one wait per task the loop always
  completes.
- `task_create` clears the task with `memset(task, 0, sizeof(task))`, which
  is the size of a pointer. `wait_all` therefore keeps the heap's fill value.
  When the stack allocation fails, the error path frees the uninitialised
  `kstack` field, and kfree stops the kernel.
- `task_get_stats` clears `sizeof(stats)` bytes, which is the first word
  only. The per-state counters are added to what the caller's structure held,
  and they wrap modulo 2^32 like the uint32 fields they are.
- kmalloc's first-fit scan (heap.c:89-92) stops at the last block when
  nothing is large enough. That block is handed out although it is too small
  (`HeapMalloc.MallocNoFit`).
- When kmalloc hands out the head of the free list whole (no split), the
  free list becomes that block's successor, and ASSERT_HEAP(free_list)
  (heap.c:141, heap.h:30-33) stops the kernel if it is NULL. Taking the last
  free block whole therefore panics (`HeapMalloc.MallocLastBlockWhole`).
- kmalloc unlinks a block from the free list only when it is the head
  (heap.c:139-143). A block found further on stays on the free list and also
  joins the alloc list (`HeapMalloc.MallocNonHeadStaysFree`).
- The request size is rounded in uint32 arithmetic. A request of
  2^32 - 40 bytes wraps to a total of 0. The split then writes the remainder
  over the block itself, which is left pointing at itself
  (`HeapMalloc.MallocHugeRequest`, `HeapMalloc.SplitOfZeroLoops`).
- kfree of a pointer that passes the guard checks but is not on the alloc
  list dereferences NULL. So does a second kfree of the same pointer
  (`HeapFree.FreeUnknownPointer`, `HeapFree.DoubleFree`).
- `do_printf` with `maxlen` 0 still makes vsnprintf store a NUL at
  `buffer[0]` (`PrintfFacts.ZeroMaxlen`). A format ending in a lone `%`
  reads past its NUL (`PrintfFacts.TrailingPercent`). `%d` of INT_MIN
  negates it in signed arithmetic, which is undefined. `%n` prints its
  argument in hex instead of storing the count.
- makemap writes no zero entry after the address array
  (`MakeMap.NoTerminatorEntry`), and it does not check its malloc. It sets
  `hdr.padding0`, which struct vast_hdr_t does not have. The model follows
  vast.h: the header is magic and count.
- core-debugger's symbol lookup accepts a symbol only when its start is
  strictly below the address, so the exact start address of a symbol resolves to "?"
  (`CoreDebugger.ExactStartUnresolved`). Its page-table buffer is never
  zeroed, so an unmapped page translates through whatever malloc returned
  (`CoreDebugger.UnmappedReadsGarbage`). The page-table offset is an `int`
  compared with `core_size` as unsigned, so in a dump of 2 GiB or more a
  frame at 2 GiB or above passes the check and is read before the dump
  (`CoreDebugger.HighFrameReadsOutside`).
- vnode.c returns `-EBADPATH`, which no header defines. The model keeps it as
  a status of its own.

## Model

| member | source | states |
|---|---|---|
| ObjArray.ObjectTable.Init | kernel/kernel/obj_array.c:28-51 | obj_init threads every slot into the free list in index order: slot i holds `((i+1)<<1)\|1`, the last slot -1, next_free 0, and no object exists |
| ObjArray.InitialSlots | kernel/kernel/obj_array.c:43-48 | the initial slot words: slot i links to i+1 and the last one ends the list |
| ObjArray.FreeWord | kernel/kernel/obj_array.c:46 | a free slot's word is odd and shifting it right gives back the next index |
| ObjArray.Sar1 | kernel/kernel/obj_array.c:94 | `(int)word >> 1` rounds down, so -1 stays -1 |
| ObjArray.ObjectTable.Lookup | kernel/kernel/obj_array.c:144-170 | _obj_get succeeds exactly on a live handle (IS_VALID_HANDLE); out of range or NULL panics, `h == size` and a free slot's word are undefined |
| ObjArray.ObjectTable.ObjGet | kernel/kernel/obj_array.c:144-170 | the lookup, with the object's lock taken on success and no lock taken otherwise |
| ObjArray.ObjectTable.ObjRelease | kernel/kernel/obj_array.c:172-177 | the object's lock is dropped |
| ObjArray.ObjectTable.Search | kernel/kernel/obj_array.c:55-76 | the first slot holding a live hnode whose object has this type and name; -ENOENT when no slot matches |
| ObjArray.ObjectTable.ObjSearch | kernel/kernel/obj_array.c:55-76 | the search loop returns exactly Search |
| ObjArray.ObjectTable.HandleAlloc | kernel/kernel/obj_array.c:81-98 | -ENOMEM on an empty free list; otherwise returns next_free, moves next_free to the slot's link (the -1 end stays -1), NULLs the slot and keeps the table sound |
| ObjArray.ObjectTable.HandleFree | kernel/kernel/obj_array.c:101-108 | a live slot becomes the new head of the free list, so the next _handle_alloc returns it (LIFO) |
| ObjArray.ObjectTable.DupInternal | kernel/kernel/obj_array.c:112-140 | the new handle gets the same onode and fd_offset with flags 0 and the onode one more reference; an allocation failure returns -ENOMEM and changes nothing |
| ObjArray.ObjectTable.ObjOpen | kernel/kernel/obj_array.c:182-287 | -EEXIST under OBJ_CREATE_NEW on a match, otherwise a dup reported as OBJ_OPEN_EXISTING; -ENOENT under OBJ_OPEN_EXISTING with no match; a new object gets ref_count 1, no waiters, not signalled, disposition 0, and only slot 0 can hold it |
| ObjArray.ObjectTable.OpenExisting | kernel/kernel/obj_array.c:204-224 | the matching branch of _obj_open: -EEXIST, -ENOMEM with nothing changed, or a dup carrying the caller's flags |
| ObjArray.ObjectTable.CreateNew | kernel/kernel/obj_array.c:227-286 | the creating branch of _obj_open, including the unsigned `0 < h` test and the panic in `_handle_free` of a NULL slot |
| ObjArray.ObjectTable.AddObject | kernel/kernel/obj_array.c:269-275 | a new onode with no handle on it keeps the table sound |
| ObjArray.ObjectTable.Retag | kernel/kernel/obj_array.c:213 | the new hnode takes the caller's flags, and the table stays sound |
| ObjArray.PointerAboveZeroExactly | kernel/kernel/obj_array.c:234 | the unsigned `0 < h` is false only for h == 0 |
| ObjArray.PopFree | kernel/kernel/obj_array.c:93-95 | popping the free-list head and NULLing its slot keeps the list threaded |
| ObjArray.PushFree | kernel/kernel/obj_array.c:106-107 | pushing a used slot keeps the list threaded |
| ObjArray.InstallKeeps | kernel/kernel/obj_array.c:131-137 | storing a new hnode in a free slot with one more reference on its onode keeps ref_count equal to the number of handles |
| ObjArray.ObjClose | kernel/kernel/obj_array.c:291-296 | obj_close always stops the kernel |
| CircularList.Reciprocal | kernel/kernel/wait.c:42-45 | in a ring without duplicates every node is the successor of its predecessor and the predecessor of its successor |
| CircularList.AppendLinks | kernel/kernel/wait.c:182-190 | inserting before the head puts the node at the tail with reciprocal links |
| CircularList.UnlinkHead | kernel/kernel/wait.c:54-70 | unlinking removes the node from the sequence; the head moves to the successor, or to NULL when the node was alone |
| CircularList.UnlinkNeighbours | kernel/kernel/wait.c:67-70 | after the unlink the node's two neighbours point at each other |
| CircularList.RotationLinks | kernel/kernel/task.c:224 | following `task_next` from a task visits the other tasks in ring order and comes back |
| WaitGraph.DetachKeeps | kernel/kernel/wait.c:25-82 | detaching a node keeps both dimensions consistent (wait_count == length, 0 exactly when the list is NULL), removes that node only, and touches only its object and its task |
| WaitGraph.DetachMovesHeads | kernel/kernel/wait.c:54-64 | each head that pointed at the node moves to its successor, or to NULL when it was alone |
| WaitGraph.AddWaitKeeps | kernel/kernel/wait.c:153-190 | the new node is at the tail of both lists and both wait_counts grow by one; the mesh stays consistent |
| WaitGraph.AddWaitLinks | kernel/kernel/wait.c:192-202 | after _obj_add_wait the new node's and both heads' links are reciprocal in both dimensions |
| WaitGraph.ReleaseAllKeeps | kernel/kernel/wait.c:127-135 | the release loop empties the task's list, only removes nodes and leaves every other task alone |
| WaitGraph.WakeStepRule | kernel/kernel/wait.c:111-136 | a popped task whose last wait that was, or that waits for any one object, becomes RUNNABLE with no waits left; a wait-all task with waits outstanding keeps its state |
| WaitGraph.WakeLeftover | kernel/kernel/wait.c:99-149 | _obj_wake returns -1 for -1, and then nobody waits; otherwise 0 <= left <= count, below count whenever somebody waited, and non-zero only when the queue ran dry |
| WaitGraph.WakeServesOldest | kernel/kernel/wait.c:99-108 | a wake serves the head of the queue, the oldest waiter, and the others stay queued in order |
| WaitGraph.WakeSpares | kernel/kernel/wait.c:99-145 | a task with no node on the object is not touched by waking it |
| WaitGraph.WakeAllReleases | kernel/kernel/wait.c:99-145 | a wait-any task waiting on this object comes out of a wake of everybody RUNNABLE with no waits |
| WaitGraph.WakeObjects | kernel/kernel/wait.c:99-145 | waking changes no object field but wait lists and counts |
| WaitOps.WnDetach | kernel/kernel/wait.c:25-82 | _obj_wn_detach does Detach exactly when the object, task and task-list locks are held, and panics otherwise |
| WaitOps.ObjAddWait | kernel/kernel/wait.c:153-203 | _obj_add_wait does AddWait exactly when the task and object locks are held |
| WaitOps.ReleaseWaits | kernel/kernel/wait.c:127-132 | the release loop computes ReleaseAll, and completes whenever every object it meets is locked |
| WaitOps.WakeLoop | kernel/kernel/wait.c:99-145 | the pop loop computes Wake and its leftover count |
| WaitOps.ObjWake | kernel/kernel/wait.c:86-150 | _obj_wake panics on a count other than -1 or positive, or an unlocked object; otherwise it does Wake, moves no reference count, and completes when the object covers its waiters |
| WaitOps.SingleWaitsCovered | kernel/kernel/wait.c:127-132 | while every task waits on one object at most, a locked object covers its waiters, so the release loop meets no unlocked object |
| WaitOps.BlockKeeps | kernel/kernel/wait.c:256-260 | the blocked task is WAITING, waits for this object alone and for any one object, and sits at the tail of its queue |
| WaitOps.BlockThenWakeAll | kernel/kernel/wait.c:256-260 | a task obj_wait put to sleep is RUNNABLE with no waits after a wake of everybody on the object |
| WaitOps.BlockSingle | kernel/kernel/wait.c:256-260 | obj_wait keeps every task to one wait at most |
| WaitOps.TakeSignal | kernel/kernel/wait.c:240-253 | a signalled object is unsignalled by its type's hook, no node is created, 0 is returned and the locks are dropped |
| WaitOps.BlockOn | kernel/kernel/wait.c:256-265 | the current task gets one node with wait_all 0 and state WAITING, then `schedule` picks the next task |
| WaitOps.ObjWait | kernel/kernel/wait.c:215-272 | obj_wait: the ASSERT panics when the current task already waits; otherwise -ENOMEM when the node allocation fails, the lookup's failure on a bad handle, the signalled fast path, or blocking |
| Semaphore.InitialisedOk | kernel/kernel/semaphore.c:30-57 | the semaphore sem_open initialises is sound exactly when initial <= max |
| Semaphore.UnsignalKeeps | kernel/kernel/semaphore.c:106-111 | on a sound semaphore the hook fails exactly when the object is not signalled, and otherwise keeps 0 <= current <= max |
| Semaphore.ReleasedKeeps | kernel/kernel/semaphore.c:84-91 | a release that passed the check against max keeps 0 <= current <= max |
| Semaphore.UnsignalRelease | kernel/kernel/semaphore.c:90-111 | taking a unit and releasing it with nobody waiting restores the semaphore |
| Semaphore.SemUnsignalHook | kernel/kernel/semaphore.c:97-112 | the hook asserts the task and object locks and a positive count |
| SemaphoreCalls.ReleaseKeepsSem | kernel/kernel/semaphore.c:84-91 | the units the wake leaves over are added to current; the result stays sound, and a non-empty queue takes at least one unit |
| SemaphoreCalls.SemOpen | kernel/kernel/semaphore.c:25-63 | -EINVAL for initial < 0 or max < 1; a created semaphore gets its count and maximum; a joined one keeps its counters and reports OBJ_OPEN_EXISTING |
| SemaphoreCalls.OpenSemaphoreObject | kernel/kernel/semaphore.c:35-45 | _obj_open's outcomes, sorted by what sem_open does next |
| SemaphoreCalls.InitCreated | kernel/kernel/semaphore.c:47-60 | the created object is initialised through its handle and released |
| SemaphoreCalls.SemRelease | kernel/kernel/semaphore.c:67-95 | -EINVAL and no change for count < 0 or current + count > max; count 0 panics; otherwise current grows by the wake's leftover and signalled = current > 0 |
| SemaphoreCalls.ReleaseHeld | kernel/kernel/semaphore.c:82-94 | the same, with the object already locked |
| Tasks.TaskName | kernel/kernel/task.c:113 | strcpy_s into the 32-byte name keeps at most 31 characters, a prefix of the name |
| Tasks.Scheduler.GenTaskId | kernel/kernel/task.c:18-53 | the smallest id at or above next_taskid that no task has; next_taskid becomes that id + 1 |
| Tasks.Scheduler.TaskCreate | kernel/kernel/task.c:76-156 | -EINVAL for a NULL entry or name or a bad initial state, -ENOMEM on a failed task allocation, with nothing changed; otherwise a fresh id and the new task, with the default quantum and no waits, at the tail of the ring |
| Tasks.Scheduler.Init | kernel/kernel/task.c:163-195 | task 0 "[idle]", RUNNING with quantum 1, alone in a self-linked ring, is both current and idle |
| Tasks.Scheduler.Scan | kernel/kernel/task.c:223-237 | the scan returns the first RUNNABLE non-idle task after current in ring order, or current |
| Tasks.Scheduler.Schedule | kernel/kernel/task.c:200-255 | schedule does ScheduleSpec: decrement the quantum while it lasts, otherwise reload it, demote a RUNNING current and switch as the scan says |
| Tasks.Scheduler.Yield | kernel/kernel/task.c:389-392 | yield is exactly schedule |
| Tasks.Scheduler.FindTask | kernel/kernel/task.c:297-308 | the walk stops at the task with this id, or at the last task when there is none |
| Tasks.Scheduler.TaskSetState | kernel/kernel/task.c:290-333 | only PAUSED -> RUNNABLE and RUNNABLE/RUNNING -> PAUSED are applied; anything else is -EINVAL, an unknown id -ENOENT, both with no change |
| Tasks.Scheduler.TaskGetPtr | kernel/kernel/task.c:336-362 | the task with this id, or NULL exactly when there is none |
| Tasks.Scheduler.TaskGetStats | kernel/kernel/task.c:364-387 | total is the number of tasks modulo 2^32, and each uint32 state counter grows by the number of tasks in that state, wrapping modulo 2^32 |
| Tasks.CountedStep | kernel/kernel/task.c:371-381 | counting one more task adds one, modulo 2^32, to the counter of its state and leaves every other counter alone |
| Tasks.FirstEligible | kernel/kernel/task.c:224-237 | the first position of a walk holding a RUNNABLE non-idle task |
| Tasks.ScanIsRoundRobin | kernel/kernel/task.c:223-252 | the scan stops at the first eligible task after current following task_next, and returns current only when no other task is eligible |
| Tasks.ScheduleSwitches | kernel/kernel/task.c:239-255 | a task schedule switches to becomes RUNNING; it is the scanned task, or idle when nothing is runnable and current is not RUNNABLE |
| Tasks.ScheduleKeepsOneRunning | kernel/kernel/task.c:218-255 | schedule keeps "only the current task is RUNNING" |
| Tasks.SleeperYields | kernel/kernel/task.c:205-255 | a task that has just gone to sleep gives up the processor unless it is the idle task |
| Tasks.CountsAddUp | kernel/kernel/task.c:371-383 | the per-state counts add up to the number of tasks |
| HostReplica.NewHandle | tools/msdev/obj_adt/obj_adt.c:93-113 | an object "obj-a", "obj-b", ... with one reference and nobody waiting |
| HostReplica.NewTask | tools/msdev/obj_adt/obj_adt.c:115-132 | a RUNNABLE task "t-0", "t-1", ... with no waits |
| HostReplica.AddWaitHostKeeps | tools/msdev/obj_adt/obj_adt.c:331-339 | add_wait leaves the task WAITING for any one object, with a new node at the tail of its list and of the object's queue |
| HostReplica.AddWaits | tools/msdev/obj_adt/obj_adt.c:349-357 | the six add_wait calls and the switch of task 0 to wait-all give the blocked state, a consistent mesh |
| HostReplica.WakeFirst | tools/msdev/obj_adt/obj_adt.c:359 | `_obj_wake(h0, -1)` pops both waiters of the first object, wakes task 1 only and returns -1 |
| HostReplica.WakeSecond | tools/msdev/obj_adt/obj_adt.c:360 | `_obj_wake(h1, 2)` wakes tasks 0 and 2 and returns 0 |
| HostReplica.HostMain | tools/msdev/obj_adt/obj_adt.c:342-375 | at the end all three tasks are RUNNABLE with no waits and both objects have wait_count 0 |
| HostReplica.NewHandles | tools/msdev/obj_adt/obj_adt.c:346 | the loop builds the two objects |
| HostReplica.NewTasks | tools/msdev/obj_adt/obj_adt.c:347 | the loop builds the three tasks |
| ObjArray.InitialFreeList | kernel/kernel/obj_array.c:41-48 | obj_init's slots thread every index into the free list, in index order from next_free 0, and hold no handle |
| ObjArray.ObjectTable.SearchFrom | kernel/kernel/obj_array.c:61-73 | the first matching slot at or after j, with no match before it, or -ENOENT when none matches |
| ObjArray.ObjectTable.InstallHandle | kernel/kernel/obj_array.c:131-137 | the new hnode goes into the allocated slot, its onode gains one reference, and ref_count stays the number of handles |
| ObjArray.ClearFreeSlot | kernel/kernel/obj_array.c:95 | NULLing a slot that held no hnode changes no object's handles |
| ObjArray.StoreHandle | kernel/kernel/obj_array.c:135 | storing a new hnode in a free slot adds that handle to its own onode and to no other |
| ObjArray.AddRef | kernel/kernel/obj_array.c:136 | `ref_count++` on one onode changes no other onode |
| ObjArray.RetagKeeps | kernel/kernel/obj_array.c:213 | changing an hnode's flags changes no handle and no reference count |
| ObjArray.AddONodeKeeps | kernel/kernel/obj_array.c:269-275 | a new onode no handle refers to has no handles, and the table stays sound |
| ObjArray.ReshapeKeeps | kernel/kernel/obj_array.c:144-170 | writes to onodes that keep the objects and their reference counts keep the handle table sound |
| CircularList.IndexOf | kernel/kernel/wait.c:42-45 | the first position holding the node |
| CircularList.Without | kernel/kernel/wait.c:54-70 | unlinking a node shortens the list by one |
| CircularList.SingletonLinks | kernel/kernel/wait.c:182-190 | a node alone in its list is its own next and prev, and the head |
| CircularList.WithoutMembers | kernel/kernel/wait.c:54-70 | after the unlink the list holds every other node, once, and not the unlinked one |
| CircularList.UnlinkPosition | kernel/kernel/wait.c:54-70 | the nodes behind the unlinked one move one place nearer the head; the others keep their places |
| CircularList.UnlinkKeepsOthers | kernel/kernel/wait.c:67-70 | the unlink changes no link but those of the removed node's two neighbours |
| CircularList.UnlinkKeepsNext | kernel/kernel/wait.c:67-68 | every node but the removed node's predecessor keeps its next link |
| CircularList.UnlinkKeepsPrev | kernel/kernel/wait.c:69-70 | every node but the removed node's successor keeps its prev link |
| CircularList.Rotation | kernel/kernel/task.c:224-237 | the walk from a task round the ring visits every other task once |
| CircularList.RotationStart | kernel/kernel/task.c:224 | the walk starts at the task's next |
| CircularList.RotationMembers | kernel/kernel/task.c:224-237 | the walk holds exactly the other tasks of the ring |
| WaitGraph.DetachObjOk | kernel/kernel/wait.c:54-66 | after the unlink the object's list and wait_count agree again |
| WaitGraph.DetachTaskOk | kernel/kernel/wait.c:67-81 | after the unlink the task's list and wait_count agree again |
| WaitGraph.SetStateKeeps | kernel/kernel/wait.c:121 | changing a task's state keeps the mesh consistent and touches no list |
| WaitGraph.AddWaitObjOk | kernel/kernel/wait.c:182-190 | the new node at the tail of the object's list keeps it consistent |
| WaitGraph.AddWaitTaskOk | kernel/kernel/wait.c:182-190 | the new node at the tail of the task's list keeps it consistent |
| WaitGraph.ReleaseAll | kernel/kernel/wait.c:127-132 | the release loop keeps the mesh consistent and the same objects and tasks |
| WaitGraph.ReleaseAllSpares | kernel/kernel/wait.c:127-132 | the release loop leaves alone every object the task does not wait on |
| WaitGraph.ReleaseAllQueues | kernel/kernel/wait.c:127-132 | the release loop takes exactly the task's nodes out of every object's list and keeps the order of the rest |
| WaitGraph.WakeStep | kernel/kernel/wait.c:101-139 | one turn of the wake loop keeps the mesh consistent and shortens the object's list |
| WaitGraph.WakeStepShrinks | kernel/kernel/wait.c:101-139 | one turn only removes nodes from lists |
| WaitGraph.WakeStepQueues | kernel/kernel/wait.c:108-132 | one turn takes every node of a task that wakes out of every list, and otherwise only the popped node |
| WaitGraph.WakeStepKeepsQueue | kernel/kernel/wait.c:108-132 | one turn leaves the rest of the queue in order when the popped task has no other node in it |
| WaitGraph.Wake | kernel/kernel/wait.c:99-145 | _obj_wake on the mesh keeps it consistent and the same objects and tasks |
| WaitGraph.WakeShrinks | kernel/kernel/wait.c:99-145 | waking only removes nodes from lists |
| WaitGraph.DropTask | kernel/kernel/wait.c:127-132 | the list without the nodes of one task holds exactly the other nodes |
| WaitGraph.DropTaskWithout | kernel/kernel/wait.c:127-132 | taking one node of the task out first does not change the result |
| WaitGraph.HeadQueue | kernel/kernel/wait.c:102-132 | after popping the head the queue is the rest of it, less the woken task's other nodes when it wakes |
| WaitGraph.WakeQueue | kernel/kernel/wait.c:99-149 | with no task twice in the queue, a wake with count c pops exactly the first min(c, \|q\|) nodes in order and returns max(0, c - \|q\|) |
| WaitGraph.DistinctHead | kernel/kernel/wait.c:102-132 | with no task twice in the queue, popping the head leaves exactly the rest |
| WaitGraph.WakeQueueWoken | kernel/kernel/wait.c:99-136 | with no task twice in the queue, every task among the first count nodes that waits alone or for any one object comes out RUNNABLE with no waits |
| WaitGraph.WakeQueueKept | kernel/kernel/wait.c:99-145 | a task with no node among the first count is left as it was |
| WaitGraph.SameListsKeep | kernel/kernel/wait.c:121 | writing fields other than wait lists and counts keeps the mesh consistent |
| WaitGraph.AddObjectKeeps | kernel/kernel/obj_array.c:269-275 | a new object with nobody waiting joins a consistent mesh |
| WaitGraph.WakeStepObjects | kernel/kernel/wait.c:101-139 | one turn changes no object field but wait lists and counts |
| WaitOps.SingleWaitsDistinct | kernel/kernel/wait.c:256-260 | while every task waits on one object at most, no task is twice in a queue |
| WaitOps.WakeQueueTasks | kernel/kernel/wait.c:99-145 | while every task waits on one object at most, a wake with count c makes the tasks of exactly the first min(c, \|q\|) nodes RUNNABLE with no waits, and leaves the rest untouched |
| WaitOps.WakeOne | kernel/kernel/wait.c:101-139 | one turn of the loop does WakeStep on the head and drops the task's lock, and completes when the object covers its waiters |
| WaitOps.WakeKeepsRefs | kernel/kernel/wait.c:99-145 | waking moves no reference count, so the handle table stays sound |
| WaitOps.UnsignalKeepsMesh | kernel/kernel/wait.c:240-253 | the unsignal hook keeps the mesh consistent |
| WaitOps.ScheduleKeepsMesh | kernel/kernel/wait.c:262 | `schedule` keeps the mesh consistent |
| SemaphoreCalls.ReleaseWakesQueue | kernel/kernel/semaphore.c:84-91 | while every task waits on one object at most, sem_release wakes the first min(count, \|q\|) waiters in queue order, leaves the rest queued and untouched, and adds exactly max(0, count - \|q\|) to current |
| SemaphoreCalls.SetCountKeepsMesh | kernel/kernel/semaphore.c:90-91 | writing the semaphore's counters keeps the mesh consistent |
| Tasks.CountState | kernel/kernel/task.c:371-383 | a per-state count is at most the number of tasks walked |
| Tasks.Above | kernel/kernel/task.c:18-53 | a number above every task id, so the id search ends |
| Tasks.RingAppend | kernel/kernel/task.c:135-147 | inserting a new task before the head keeps the ring holding each task once |
| Tasks.ScanInRing | kernel/kernel/task.c:223-237 | the scan stops at current or at an eligible task of the ring |
| Tasks.ScheduleKeepsWaits | kernel/kernel/task.c:200-255 | schedule changes states and quanta only: every task keeps its waits |
| Tasks.PauseResumeMap | kernel/kernel/task.c:290-333 | pausing a RUNNABLE task and resuming it gives back the same task map; a RUNNING task comes back RUNNABLE; a second pause or resume is refused with no change |
| KernelTypes.StateValue | kernel/kernel/task.h:3-12 | each task state has its enum value, below the number of states |
| StrError.Names | kernel/lib/strerror.c:7-36 | `_strerr` has a non-empty entry for each of the 39 numbers |
| StrError.StrError | kernel/lib/strerror.c:38-54 | strerror is undefined exactly for the most negative `int`, whose negation overflows |
| StrError.TableLookup | kernel/lib/strerror.c:40-45 | a number below ARRAY_MAX, with either sign, yields its table entry |
| StrError.AbandonedLookup | kernel/lib/strerror.c:47-51 | EWAIT_ABANDONED, with either sign, yields "EWAIT_ABANDONED" |
| StrError.UnknownLookup | kernel/lib/strerror.c:53 | any other number yields "??" |
| StrError.SignIgnored | kernel/lib/strerror.c:40 | a number and its negation yield the same name |
| StrError.ErrnoNames | kernel/lib/strerror.c:7-51 | each negated errno constant yields the constant's own name |
| Vast.Le32 | kernel/kernel/vast.h:5-15 | a 32-bit field of the symbol map is stored as four bytes |
| Vast.Word | kernel/kernel/vast.h:5-15 | a field loads as a 32-bit value, zero exactly when its four bytes are |
| Vast.WordOfLe32 | kernel/kernel/vast.h:5-15 | a field loads back the value stored in it |
| Vast.WordAt | kernel/kernel/vast.h:5-15 | a field's load depends only on its own four bytes |
| Vast.PairAt | kernel/kernel/vast.h:11-15 | an entry's virt_addr and name_offset load back from their eight bytes |
| VmmLayout.PdeSlot | kernel/vmm/vmm.h:24 | ADDR_TO_PDE_SLOT is below 1024 |
| VmmLayout.PteSlot | kernel/vmm/vmm.h:25 | ADDR_TO_PTE_SLOT is below 1024 |
| VmmLayout.PageBase | kernel/vmm/vmm.h:31 | PAGE_BASE lies at or below the address, less than a page below |
| VmmLayout.SlotsRoundTrip | kernel/vmm/vmm.h:24-31 | PDE_PTE_TO_ADDR of an address's two slots is its PAGE_BASE |
| VmmLayout.AddrRoundTrip | kernel/vmm/vmm.h:24-35 | the slots of PDE_PTE_TO_ADDR(d, t) are d and t, and the address is page aligned |
| VmmLayout.PageOfIsFloor | kernel/vmm/vmm.h:32 | PAGE_OF rounds down to the page containing the address |
| VmmLayout.PageAfterIsCeiling | kernel/vmm/vmm.h:33 | below the last page, PAGE_AFTER rounds up to the first page starting at or after the address |
| VmmLayout.PageAfterWraps | kernel/vmm/vmm.h:33 | in the last page the 32-bit addition of PAGE_AFTER wraps and gives page 0 |
| VmmLayout.AlignedIffOwnBase | kernel/vmm/vmm.h:31-35 | IS_PAGE_ALIGNED holds exactly when the address is its own PAGE_BASE |
| VmmLayout.ValidFlagsLayout | kernel/vmm/vmm.h:39-70 | VMM_MAP_VALID_FLAGS is 0xe0000007, admits every PTE_K*/PTE_U* combination, and meets neither the frame-address bits nor PTE_4M_PAGE |
| Gdt.Encode | kernel/arch/gdt.c:15-30 | gdt_set_gate's descriptor has every field within its width |
| Gdt.DecodeBase | kernel/arch/gdt.c:21-23 | the base reassembled from the three base fields is a 32-bit value |
| Gdt.DecodeLimit | kernel/arch/gdt.c:25-26 | the limit reassembled from limit_low and the granularity's low nibble is a 20-bit value |
| Gdt.Flags | kernel/arch/gdt.c:28 | the flags are the granularity byte's high nibble |
| Gdt.BaseRoundTrip | kernel/arch/gdt.c:21-23 | the base survives the split into base_low, base_middle and base_high |
| Gdt.LimitRoundTrip | kernel/arch/gdt.c:25-26 | the low 20 bits of the limit survive and bits 20-31 are dropped |
| Gdt.AccessAndFlags | kernel/arch/gdt.c:28-29 | the access byte is stored as given, and the flags come from the granularity argument's high nibble |
| Gdt.Slot | kernel/arch/gdt.c:17 | a 16-bit selector names one of 8192 slots |
| Gdt.RplIgnored | kernel/arch/gdt.c:17 | the privilege bits of GDT_UCODE and GDT_UDATA do not change the slot |
| Gdt.InstalledTable | kernel/arch/gdt.c:42-47 | gdt_install's table has GDT_ENTRIES well-formed descriptors |
| Gdt.Flat | kernel/arch/gdt.c:43-46 | a flat segment's descriptor is well formed |
| Gdt.FlatDescriptor | kernel/arch/gdt.c:43-46 | the four flat segments span 4 GiB: base 0, limit 0xfffff in 4 KiB units, flags 0xc, the given access byte |
| Gdt.NullDescriptor | kernel/arch/gdt.c:42 | the null descriptor is all zeros |
| Gdt.TssDescriptor | kernel/arch/gdt.c:47 | the TSS descriptor has base &tss, limit sizeof(tss), access 0x89 and flags 0xc |
| Gdt.DescriptorTable.SetGate | kernel/arch/gdt.c:15-30 | the ASSERT fails exactly for a selector past the table, which is left unchanged; otherwise only the selector's slot changes, to the encoded descriptor |
| Gdt.DescriptorTable.Install | kernel/arch/gdt.c:32-47 | the GDTR limit is 8 * GDT_ENTRIES - 1, tss.ss0 is GDT_KDATA, io_bitmap_offset is 104, and the table is InstalledTable |
| MakeMap.CountFrom | tools/makemap.c:28 | the first terminator row at or after i, with every row before it named |
| MakeMap.Count | tools/makemap.c:28 | `count` is the index of the first NULL name |
| MakeMap.Listed | tools/makemap.c:28-43 | the symbols before the terminator, row by row |
| MakeMap.NameOffset | tools/makemap.c:35-42 | a name offset lies past the header and the whole address array |
| MakeMap.NameOffsetIs | tools/makemap.c:35-42 | symbol i's name starts after the header, the address array and every earlier name with its NUL |
| MakeMap.EntryTable | tools/makemap.c:38-43 | entry i holds symbol i's address and its name offset cut to 32 bits |
| MakeMap.EntryArea | tools/makemap.c:46 | the array `fwrite` writes is eight bytes per entry |
| MakeMap.CountRows | tools/makemap.c:28 | the counting loop finds Count |
| MakeMap.FillEntries | tools/makemap.c:33-43 | the filling loop leaves the array holding EntryTable |
| MakeMap.PutNames | tools/makemap.c:48-52 | the last loop writes every name followed by one NUL, in table order |
| MakeMap.Write | tools/makemap.c:20-58 | main writes the header, the address array and the names: Image of the listed symbols |
| MakeMap.EntrySlice | tools/makemap.c:46 | entry i sits at byte 8*i of the array area |
| MakeMap.ImageHeader | tools/makemap.c:29-31 | the image starts with VAST_MAGIC and the number of symbols |
| MakeMap.ImageSize | tools/makemap.c:35-52 | the image ends just past the last name |
| MakeMap.ImageEntry | tools/makemap.c:38-46 | entry i of the image holds symbol i's address and name offset |
| MakeMap.ImageName | tools/makemap.c:48-52 | the NUL-terminated string at symbol i's name offset is its name |
| MakeMap.RoundTrip | tools/makemap.c:20-58 | in an image under 4 GiB, following entry i's stored offset gives back symbol i's name, and its address is symbol i's |
| MakeMap.NoTerminatorEntry | tools/makemap.c:45-52 | no zero entry ends the array: when the first name is not empty, the word after the last entry is the start of the names and is not zero |
| Panic.Scan | kernel/kernel/panic.c:18-28 | the lookup loop returns "??" with offset 0, or the name of an entry covering the address with the address's offset into it; reads past the map are undefined |
| Panic.ResolveSymbol | kernel/kernel/panic.c:6-29 | "<no vast>" for a NULL map, "<invalid vast>" for a bad magic, otherwise the scan; a name is returned only from a map with VAST_MAGIC and an entry covering the address, and every literal comes with offset 0 |
| Panic.ScanSkips | kernel/kernel/panic.c:19-26 | entries that do not cover the address are passed over |
| Panic.ResolveFirstHit | kernel/kernel/panic.c:19-25 | the lookup returns the first entry covering the address and the address's offset into it |
| Panic.ResolveMiss | kernel/kernel/panic.c:19-28 | reaching the zero entry with no hit returns "??" with offset 0; the header's count plays no part |
| Panic.ResolveWrittenImage | kernel/kernel/panic.c:6-29 | on an image makemap wrote, a hit on entry k returns a pointer to symbol k's name and the offset from its address |
| Panic.IsValidFrame | kernel/kernel/panic.c:33-46 | is_valid_frame holds exactly when the frame lies in the heap, or in the stack when its 32-bit end does not wrap |
| Panic.Prepend | kernel/kernel/panic.c:55-79 | lines printed before a walk that goes on come first; a fault ends everything |
| Panic.Walk | kernel/kernel/panic.c:48-80 | the frames dump_stack prints rise strictly from the first frame and have non-zero return addresses |
| Panic.RisingCons | kernel/kernel/panic.c:71-78 | a frame line followed by a trace from a higher frame still rises |
| Panic.PrependTwice | kernel/kernel/panic.c:55-79 | printing two batches of lines is printing them together |
| Panic.DumpStack | kernel/kernel/panic.c:48-80 | the dump_stack loop prints exactly Walk, and ends because each pass stops or moves to a higher frame |
| Keyboard.KeyboardBuffer.constructor | kernel/drivers/keyboard.c:10-12 | the buffer starts with both indices 0, so the queue is empty |
| Keyboard.Arrive | kernel/drivers/keyboard.c:74-82 | a scancode arriving when N-1 are queued is dropped; otherwise it joins the queue at the back |
| Keyboard.Next | kernel/drivers/keyboard.c:100-115 | 0xff from an empty queue, which is unchanged; otherwise the oldest scancode, which leaves the queue |
| Keyboard.Fill | kernel/drivers/keyboard.c:74-82 | the ring never holds more than N-1 scancodes |
| Keyboard.FillBelowCapacity | kernel/drivers/keyboard.c:74-82 | below capacity every arriving scancode is kept, in arrival order |
| Keyboard.FifoOrder | kernel/drivers/keyboard.c:8-9 | up to N-1 scancodes are read back in the order they arrived, after those already queued |
| Keyboard.Drain | kernel/drivers/keyboard.c:100-115 | k reads give k codes |
| Keyboard.DrainAll | kernel/drivers/keyboard.c:100-115 | reading as many codes as are queued gives back the queue |
| Keyboard.FullDrops | kernel/drivers/keyboard.c:74-77 | once the buffer is full, an arriving scancode is lost |
| Keyboard.EmptyIndistinguishable | kernel/drivers/keyboard.c:102-108 | the empty-buffer result is the same as a queued scancode 0xff |
| Keyboard.KeyboardBuffer.Contents | kernel/drivers/keyboard.c:10-12 | the queue between buf_tail and buf_head holds (head - tail) mod N < N scancodes |
| Keyboard.KeyboardBuffer.Handle | kernel/drivers/keyboard.c:67-82 | the full test `(head + 1) % N == tail` holds exactly when N-1 codes are queued, and the queue becomes Arrive of the old queue |
| Keyboard.KeyboardBuffer.NextCode | kernel/drivers/keyboard.c:100-115 | keyboard_next_code returns and leaves exactly Next of the old queue |
| Vfs.FsRegistry.constructor | kernel/fs/vfs.c:12 | `fs_type_list` starts empty |
| Vfs.RegistryRing | kernel/fs/vfs.c:41-56 | the registered names form a ring without repeats |
| Vfs.Lookup | kernel/fs/vfs.c:42-56 | the first record from the head whose name matches; None exactly when no record matches |
| Vfs.LookupAbsent | kernel/fs/vfs.c:42-56 | a failed lookup means the name is not registered |
| Vfs.RegisterKeepsRegistry | kernel/fs/vfs.c:18-80 | registration keeps names distinct and counts in range; a new record starts at ref_count 0 |
| Vfs.RegisterAppendsAtTail | kernel/fs/vfs.c:58-73 | a new record goes in at the tail: its next is the old head (itself when the list was empty), its prev the old tail, both point back at it, and the head changes only when the list was empty |
| Vfs.TailLinks | kernel/fs/vfs.c:60-68 | the splice at the tail gives the reciprocal links the four ASSERTs check |
| Vfs.RegisterTwice | kernel/fs/vfs.c:41-50 | registering a name a second time gives -EEXIST and changes nothing |
| Vfs.RegisterThenFind | kernel/fs/vfs.c:91-116 | a registered name is found at the tail, with its count raised from 0 to 1 |
| Vfs.FindThenRelease | kernel/fs/vfs.c:118-126 | releasing what vfs_find_fs returned puts the count back |
| Vfs.FindKeepsRegistry | kernel/fs/vfs.c:91-116 | vfs_find_fs keeps the list a registry |
| Vfs.ReleaseKeepsRegistry | kernel/fs/vfs.c:118-126 | vfs_release_fs keeps the list a registry |
| Vfs.StoredName | kernel/fs/vfs.c:33 | a strdup'd name, with its NUL, reads back as itself |
| Vfs.Search | kernel/fs/vfs.c:42-56 | the strcmp walk from the head, stopping after the tail, finds exactly Lookup |
| Vfs.FsRegistry.Register | kernel/fs/vfs.c:18-80 | -EINVAL for a NULL name or ops, -ENOMEM when the record allocation fails, undefined when strdup fails, -EEXIST for a registered name, otherwise 0 with the new record at the tail |
| Vfs.FsRegistry.Unregister | kernel/fs/vfs.c:82-87 | vfs_unregister_fs always stops the kernel |
| Vfs.FsRegistry.Find | kernel/fs/vfs.c:91-116 | NULL on an empty list or an unknown name; undefined for a NULL name or a count overflow; otherwise the first match, with one more reference |
| Vfs.FsRegistry.Release | kernel/fs/vfs.c:118-126 | the ASSERT stops the kernel when the count is 0; otherwise the count drops by one |
| Vnode.Vnode.Init | kernel/fs/vnode.c:21-31 | the new vnode has the given parent and mount, links to itself, mode 0, sizes 0, inode_num -1 read as 2^64-1, ref_count 1, the mount's ops and no private data |
| Vnode.Alloc | kernel/fs/vnode.c:6-35 | -ENOMEM with the out-parameter left NULL when kmalloc fails; otherwise 0 and a fresh vnode initialised as above |
| Vnode.Free | kernel/fs/vnode.c:38-42 | vfs_vnode_free always stops the kernel |
| Vnode.ComponentEnd | kernel/fs/vnode.c:73-75 | the copy stops at MAX_FNAME_LEN characters, at the terminator or at a '/', and copies neither |
| Vnode.Slashes | kernel/fs/vnode.c:97-99 | the number of '/' in a string |
| Vnode.DescendSplits | kernel/fs/vnode.c:73-101 | a descent that returns a count splits the path into the component, a '/' and the rest nextpath points to; the component is shorter than MAX_FNAME_LEN and has no '/', and the count is that of the rest, one less than the path's |
| Vnode.SplitAt | kernel/fs/vnode.c:82-84 | a C string is its part before the first '/', that '/', and the string after it |
| Vnode.LongComponentRejected | kernel/fs/vnode.c:78-80 | a component of MAX_FNAME_LEN characters or more, even exactly 255, gives -EBADPATH |
| Vnode.LastComponentUndefined | kernel/fs/vnode.c:82-101 | for a last component, with no '/' after it, a successful find leads to the count loop reading through a NULL nextpath |
| Vnode.SlashesAppend | kernel/fs/vnode.c:97-99 | the '/' count of a concatenation is the sum of the counts |
| Vnode.StrSuffix | kernel/fs/vnode.c:82-84 | the string at position j of a C string is its tail |
| Vnode.CountSlashes | kernel/fs/vnode.c:96-99 | the counting loop returns the number of '/' in the string at nextpath |
| Vnode.Descend | kernel/fs/vnode.c:51-102 | vfs_vnode_descend does DescendSpec: -EINVAL for a NULL argument, -ENOTDIR, -EBADPATH, -ENOTIMPL, find's error, or the '/' count |
| CoreDebugger.FrameOf | tools/core-debugger/init.c:106 | `entry & 0xfffff000` is a page-aligned frame no larger than the entry |
| CoreDebugger.TableOffset | tools/core-debugger/init.c:106 | the page-table offset `int i` is the entry's frame when below 2 GiB and negative exactly when the frame is at 2 GiB or above |
| CoreDebugger.HighFrameReadsOutside | tools/core-debugger/init.c:104-118 | a present directory entry with a frame between 2 GiB and `core_size` passes the `i > core_size` test, yet its table is read before the dump, so BuildPageTables is undefined and no table entry of that slot is read from the dump |
| CoreDebugger.DecodedTable | tools/core-debugger/init.c:100-124 | the flat table has 1<<20 entries; a slot whose directory and table entries are present, with the table inside the dump at its signed offset, holds the table entry's frame, every other slot keeps what `malloc` left there |
| CoreDebugger.IndexSplits | tools/core-debugger/init.c:120 | `pde * 1024 + pte` names each of the 1<<20 slots once, and its directory and table indices are recovered from it |
| CoreDebugger.Reader | tools/core-debugger/init.c:70-72 | the bytes `ReadByte(virtaddr + len)` reads, the address sum wrapping at 4 GiB |
| CoreDebugger.StringFrom | tools/core-debugger/init.c:70 | the counting loop stops at the first zero byte, giving the non-zero bytes before it; it fails exactly when no zero byte comes before `len` passes INT_MAX |
| CoreDebugger.ResolveFrom | tools/core-debugger/init.c:21-30 | the scan returns the first row that starts strictly below the address and whose successor is 0 or above it, and fails exactly when no row before the terminator does |
| CoreDebugger.ResolveSymbol | tools/core-debugger/init.c:17-33 | the name returned is that of a covering row, or "?" |
| CoreDebugger.ExactStartUnresolved | tools/core-debugger/init.c:23 | the comparison is strict: with rising non-zero addresses the exact start address of a symbol resolves to "?" |
| CoreDebugger.Debugger.constructor | tools/core-debugger/init.c:137-167 | the debugger holds the dump it is given |
| CoreDebugger.Debugger.ReadByte | tools/core-debugger/init.c:35-48 | the byte at the translated offset, or 0 for an unmapped page or an offset at or past `core_size` |
| CoreDebugger.Debugger.ReadDword | tools/core-debugger/init.c:50-63 | a 32-bit word; undefined exactly when the translated offset is below `core_size` but the four bytes run past it |
| CoreDebugger.Debugger.ReadsThrough | tools/core-debugger/init.c:70 | `ReadByte(virtaddr + len)` reads the byte the string reader expects at position len |
| CoreDebugger.Debugger.DupString | tools/core-debugger/init.c:65-76 | a fresh copy of the string at the address with its NUL; undefined exactly when `len` or `++len` overflows or `malloc` fails |
| CoreDebugger.Debugger.CopyString | tools/core-debugger/init.c:72-73 | the copying loop stores the string's bytes and its NUL |
| CoreDebugger.FirstZero | tools/core-debugger/init.c:70 | non-zero bytes followed by a zero at len make a string of len bytes |
| CoreDebugger.Copied | tools/core-debugger/init.c:72-73 | bytes copied up to and including the first zero are the string followed by NUL |
| CoreDebugger.Debugger.BuildPageTables | tools/core-debugger/init.c:78-135 | exits when CR3 is above `core_size` or `malloc` fails; reading a directory or table outside the dump (past its end, or before it through a negative `int i`) is undefined; otherwise the table is the decoded table, directory entries above `core_size` being skipped |
| CoreDebugger.DecodeStep | tools/core-debugger/init.c:116-122 | one pass of the inner loop decodes one more slot and leaves the others alone |
| CoreDebugger.SkipDirectory | tools/core-debugger/init.c:104-112 | an absent directory entry, or one above `core_size`, leaves its 1024 slots untouched |
| CoreDebugger.NextDirectory | tools/core-debugger/init.c:102 | finishing directory slot pde is starting slot pde + 1 |
| CoreDebugger.AllDecoded | tools/core-debugger/init.c:102-124 | a table decoded in every slot is the decoded table |
| CoreDebugger.TranslateMapped | tools/core-debugger/init.c:37-44 | a present page translates to its frame plus the page offset, when that lies inside the dump |
| CoreDebugger.OrFrame | tools/core-debugger/init.c:39 | OR-ing the page offset into a page-aligned frame adds it |
| CoreDebugger.UnmappedReadsGarbage | tools/core-debugger/init.c:92-98 | the table is never zeroed: an address whose page is not present translates through whatever `malloc` returned |
| Lib.Strlen | kernel/lib/lib.c:358-363 | the length is the position of the first NUL: that byte is NUL and none before it is |
| Lib.StrlenIs | kernel/lib/lib.c:358-363 | any position holding the first NUL is the length |
| Lib.Str | kernel/lib/lib.c:358-363 | a C string's characters are the NUL-free prefix before its terminator |
| Lib.CompareFrom | kernel/lib/lib.c:390-392 | the byte loop returns 0 exactly when the compared ranges are equal, and -1 otherwise |
| Lib.Strcmp | kernel/lib/lib.c:380-395 | strcmp returns 0 exactly for equal strings and -1 otherwise, never a positive value |
| Lib.Order | kernel/lib/lib.c:412-414 | -1, 0 or 1 exactly as the first unsigned byte is below, equal to or above the second |
| Lib.CommonPrefix | kernel/lib/lib.c:404-410 | the strings agree and hold no NUL before the returned position; at it they differ or both end |
| Lib.StrncmpLoop | kernel/lib/lib.c:404-414 | the loop returns -1, 0 or 1 |
| Lib.Strncmp | kernel/lib/lib.c:398-415 | strncmp returns -1, 0 or 1 |
| Lib.StrncmpSpec | kernel/lib/lib.c:398-415 | for n > 0, strncmp is 0 when the strings agree over n bytes or up to a shared NUL, and otherwise the order of the first differing unsigned bytes |
| Lib.StrncmpNegative | kernel/lib/lib.c:402-404 | `size_t` is a signed `int` here, so a negative n skips the loop and compares the first bytes |
| Lib.CommonPrefixEqual | kernel/lib/lib.c:404-410 | the strings agree at the end of their common prefix exactly when they are equal |
| Lib.StrcmpIsStrncmp | kernel/lib/lib.c:380-415 | strcmp finds the strings equal exactly when strncmp over the first string's length plus one does |
| Lib.OccursMatches | kernel/lib/lib.c:544 | an occurrence of the needle matches the haystack at each needle position |
| Lib.MatchFrom | kernel/lib/lib.c:544-546 | the inner loop reaches the needle's NUL exactly when the needle occurs at that position |
| Lib.SearchFrom | kernel/lib/lib.c:542-552 | the outer loop returns an occurrence before the haystack's NUL with none earlier, or reports that none exists |
| Lib.StrstrSpec | kernel/lib/lib.c:532-553 | a NULL needle returns the haystack and a NULL haystack NULL; otherwise the result is the first occurrence, and NULL exactly when there is none, even for an empty haystack and an empty needle |
| Lib.SkipSpaces | kernel/lib/lib.c:561 | atoi skips exactly the run of spaces, stopping at a non-space byte |
| Lib.DigitChar | kernel/lib/lib.c:442 | a value below 10 becomes its decimal digit character |
| Lib.Digits | kernel/lib/lib.c:438-459 | itoa's digit loop writes at least one digit |
| Lib.DecimalDigitsValue | kernel/lib/lib.c:438-444 | the decimal digits of n are digits and read back as n |
| Lib.PrefixValueBound | kernel/lib/lib.c:563-567 | the value of a prefix of a digit run never exceeds the value of the whole run |
| Lib.AccumulateDigits | kernel/lib/lib.c:563-569 | atoi's loop over a digit run that ends at a non-digit returns the run's value when it fits in an `int` |
| Lib.AtoiReadsItoa | kernel/lib/lib.c:420-460 | round trip: atoi reads back what itoa writes for every non-negative `int` in a decimal base |
| Lib.StrlenOfDigits | kernel/lib/lib.c:447 | itoa's digits followed by its terminator have the digit count as their length |
| Lib.AtoiIgnoresSign | kernel/lib/lib.c:555-570 | atoi accepts no sign: it reads 0 from the text itoa writes for a negative number |
| LibBuffers.Memcpy | kernel/lib/lib.c:462-468 | the first `count` bytes of dest become those of src and the rest of dest is unchanged |
| LibBuffers.Memset | kernel/lib/lib.c:478-483 | the first `count` bytes of dest become `val` and the rest of dest is unchanged |
| LibBuffers.StrncpyImage | kernel/lib/lib.c:495-515 | k_strncpy always writes exactly n bytes |
| LibBuffers.StrncpyTermination | kernel/lib/lib.c:492-494 | a source of n characters or more leaves the n bytes unterminated; a shorter one is copied whole and terminated |
| LibBuffers.KStrncpy | kernel/lib/lib.c:495-515 | the first n bytes of dest become the source cut at n and NUL-padded to n; nothing beyond n is written |
| LibBuffers.StrcpySCount | kernel/lib/lib.c:521 | strcpy_s copies at most the string; for destlen >= 1 it copies min(strlen, destlen-1) characters, and for destlen <= 0 the pre-decrement never reaches 0 and the whole string is copied |
| LibBuffers.StrcpyS | kernel/lib/lib.c:517-530 | dest gets the copied prefix of the source and then a NUL; nothing after the NUL is written |
| LibBuffers.StrcpySFits | kernel/lib/lib.c:517-530 | for destlen >= 1 the copy and its NUL fit in destlen bytes, and the copy is the whole string or destlen-1 characters |
| LibBuffers.Rev | kernel/lib/lib.c:449-459 | the reversal keeps the length |
| LibBuffers.RevAt | kernel/lib/lib.c:449-459 | position k of the reversal holds element \|s\|-1-k |
| LibBuffers.RevPointwise | kernel/lib/lib.c:449-459 | a sequence holding w back to front is w reversed |
| LibBuffers.RevSnoc | kernel/lib/lib.c:449-459 | reversing s plus c puts c first |
| LibBuffers.DigitStep | kernel/lib/lib.c:438-444 | the digits of ud are those of ud / div followed by the digit of ud % div |
| LibBuffers.SmallQuotient | kernel/lib/lib.c:444 | a value below the divisor divides to 0 with itself as remainder; a larger one to at least 1 |
| LibBuffers.DivShrinks | kernel/lib/lib.c:444 | `ud /= divisor` decreases a non-zero ud, so the do-while loop ends |
| LibBuffers.SwapStep | kernel/lib/lib.c:452-458 | one swap of the reversal loop keeps the half-reversed invariant with p1 and p2 moved inward |
| LibBuffers.SwapDone | kernel/lib/lib.c:452 | when p1 meets or passes p2 the range is reversed |
| LibBuffers.ReverseRange | kernel/lib/lib.c:449-459 | the range p1..p2 of buf is reversed in place and nothing outside it changes |
| LibBuffers.EmitDigits | kernel/lib/lib.c:437-444 | the do-while loop writes the digits of ud least significant first, one per pass, and nothing outside them |
| LibBuffers.EmitStep | kernel/lib/lib.c:438-444 | one pass of the loop emits the digit of ud % div and leaves ud / div, which is smaller unless ud is 0 |
| LibBuffers.Assemble | kernel/lib/lib.c:430-447 | the sign, the digits and the NUL placed in buf make its prefix |
| LibBuffers.Itoa | kernel/lib/lib.c:420-460 | buf receives the itoa text and a NUL, nothing after them changing; undefined, with buf untouched, exactly for the most negative `int` under 'd' |
| LibBuffers.FirstKey | kernel/lib/lib.c:591-607 | the first position before the terminator where "arg=" starts, even in the middle of a word, with no earlier one |
| LibBuffers.ValueLen | kernel/lib/lib.c:597 | the value runs up to the next space or the end of the command line |
| LibBuffers.ValueAt | kernel/lib/lib.c:595-603 | the copied value is the command line from the value start, cut to destlen-1 characters |
| LibBuffers.GetArgValueSpec | kernel/lib/lib.c:572-610 | k_getArg finds a value exactly when "arg=" occurs; the value holds no space and no NUL and fits destlen bytes with its terminator |
| LibBuffers.GetArgInsideWord | kernel/lib/lib.c:591-593 | the key is found inside a word: "xdebug=1" answers "debug" with "1" |
| LibBuffers.StrncmpPrefix | kernel/lib/lib.c:593 | strncmp over the key's length is 0 exactly when the command line starts with the key there |
| LibBuffers.CopyValue | kernel/lib/lib.c:597-603 | the copy loop stores the value cut to destlen-1 characters and a NUL after it, nothing beyond |
| LibBuffers.KeyTest | kernel/lib/lib.c:593 | strncmp over the key's length followed by '=' holds exactly when "arg=" starts at that position |
| LibBuffers.KeyMatched | kernel/lib/lib.c:593 | a strncmp match lies within the command line and is the key |
| LibBuffers.KeyMatches | kernel/lib/lib.c:593 | a key at the position is a strncmp match there |
| LibBuffers.SuffixStrlen | kernel/lib/lib.c:591 | the string starting inside the command line ends where the command line does |
| LibBuffers.GetArgAt | kernel/lib/lib.c:593-605 | once the first key is found the value starts just after its '=' |
| LibBuffers.FindKey | kernel/lib/lib.c:591-609 | the search loop returns the first key position, or none |
| LibBuffers.KGetArg | kernel/lib/lib.c:580-610 | returns dest exactly when dest is not NULL and the value exists, after storing the value and a NUL and nothing beyond; otherwise returns NULL with dest untouched |
| Printf.Emit | kernel/lib/printf.c:94-96 | a guarded emission keeps count within `maxlen - 1`, the buffer count equal to the characters stored and the console count 0 |
| Printf.EmitAll | kernel/lib/printf.c:280-283 | emitting a run of characters keeps that invariant and the parser state |
| Printf.EmitAllIs | kernel/lib/printf.c:280-283 | guarded emission hands over the longest prefix that fits below the limit (all of it for the console) and counts it for the buffer callback only |
| Printf.EmitAllAppend | kernel/lib/printf.c:254-291 | emitting a concatenation is emitting its parts in turn |
| Printf.EmitAllStuck | kernel/lib/printf.c:86 | once count has reached the limit nothing more is emitted |
| Printf.Repeat | kernel/lib/printf.c:264-270 | the padding is n copies of the pad character |
| Printf.FieldWidth | kernel/lib/printf.c:249-291 | a field is as wide as the given width, or as its text and sign when those are wider, whichever way it is justified |
| Printf.SignPlacement | kernel/lib/printf.c:253-278 | the '-' of a negative number goes before zero padding, after space padding, and first when left-justified |
| Printf.DigitOf | kernel/lib/printf.c:227-232 | a digit character is never NUL |
| Printf.Numeral | kernel/lib/printf.c:221-235 | the do-while renders at least one digit and no NUL |
| Printf.NumeralValue | kernel/lib/printf.c:221-235 | the digits read back as the number they render, with no leading zero |
| Printf.DigitRoundTrip | kernel/lib/printf.c:227-232 | a digit character reads back as its value, in either case |
| Printf.DivMod | kernel/lib/printf.c:225-233 | `num % radix` and `num / radix` recompose num, and the quotient shrinks num once num reaches the radix |
| Printf.NumeralIsItoaDigits | kernel/lib/printf.c:221-235 | lowercase numerals are the digits itoa of kernel/lib/lib.c renders |
| Printf.QuotientBound | kernel/lib/printf.c:64-66 | q * r <= n < r * p bounds q below p |
| Printf.NumeralLength | kernel/lib/printf.c:64-66 | a number below radix^k has at most k digits |
| Printf.NumeralFits | kernel/lib/printf.c:64-66 | a 32-bit number in radix 8 or more has at most 11 digits, so it fits PR_BUFLEN with its NUL |
| Printf.PowMonotone | kernel/lib/printf.c:64-66 | a larger base has a larger power |
| Printf.MulMonotone | kernel/lib/printf.c:64-66 | products of larger factors are larger |
| Printf.Load | kernel/lib/printf.c:192-209 | the value `va_arg` loads under 'l', 'h' or neither is a 32-bit `long` |
| Printf.Number | kernel/lib/printf.c:192-236 | DO_NUM is undefined past the last argument, never panics, and keeps the count invariant |
| Printf.NumberOf | kernel/lib/printf.c:210-236 | the sign handling and EMIT never panic and keep the count invariant |
| Printf.Magnitude | kernel/lib/printf.c:210-235 | the rendered value is the negation of a negative signed number and the number itself when non-negative, below 2^32 |
| Printf.Field | kernel/lib/printf.c:249-291 | EMIT keeps the count invariant |
| Printf.FieldIsFieldText | kernel/lib/printf.c:249-291 | EMIT's stages together emit the field text: sign under '0', left padding unless '-', sign under space padding, text, right padding |
| Printf.Numeric | kernel/lib/printf.c:167-190 | exactly X, x, n, p, d, i, u and o are numeric conversions, with radix 8, 10 or 16; nothing is emitted or consumed yet |
| Printf.Convert | kernel/lib/printf.c:164-295 | state 4 never panics and keeps the count invariant |
| Printf.CharText | kernel/lib/printf.c:237-244 | `%c` emits the low byte of its argument, or nothing for a NUL |
| Printf.Advance | kernel/lib/printf.c:88-162 | states 0-3 stay within the format and keep the invariant, and hand over to state 4 exactly when a conversion character is reached |
| Printf.Scan | kernel/lib/printf.c:86-300 | the loop never panics and keeps the count invariant |
| Printf.ScanOn | kernel/lib/printf.c:86-300 | one pass of the loop body, when the loop goes on |
| Printf.ConvertAt | kernel/lib/printf.c:164-298 | a conversion followed by the reset never panics and keeps the count invariant |
| Printf.Format | kernel/lib/printf.c:68-302 | do_printf never panics; its count is at most `maxlen - 1` (or 0), equal to the characters stored for the buffer callback and 0 for the console one |
| Printf.NumeralStep | kernel/lib/printf.c:221-235 | the last digit of a numeral is that of `num % radix`, after the digits of `num / radix` |
| Printf.DigitWritten | kernel/lib/printf.c:225-233 | writing the digit of `num % radix` in front of those already written leaves the digits of `num / radix` to write |
| Printf.ToDigits | kernel/lib/printf.c:219-235 | the digits written backwards into buf are the numeral of n |
| Printf.EmitCons | kernel/lib/printf.c:280-283 | emitting a character in front of the rest is emitting it first |
| Printf.EmitSign | kernel/lib/printf.c:254-278 | the sign is emitted only when there is one |
| Printf.FieldParts | kernel/lib/printf.c:249-291 | the field is emitted part by part |
| Printf.PadLeft | kernel/lib/printf.c:262-271 | the left padding loop emits width minus actual pad characters, each guarded, and leaves `given_wd` at the actual width |
| Printf.EmitText | kernel/lib/printf.c:280-283 | the text loop emits the text up to its NUL while count is below the limit |
| Printf.PadRight | kernel/lib/printf.c:285-291 | the right padding loop emits the remaining width in spaces while count is below the limit |
| Printf.EmitField | kernel/lib/printf.c:249-292 | EMIT and EMIT2 as statements produce what Field specifies |
| Printf.DoNumber | kernel/lib/printf.c:192-209 | the DO_NUM load as statements is Number |
| Printf.EmitNumber | kernel/lib/printf.c:210-236 | the sign, the digits and EMIT as statements are NumberOf |
| Printf.EmitDigits | kernel/lib/printf.c:219-236 | the digits of u emitted under the flags are the field of its numeral |
| Printf.DoConversion | kernel/lib/printf.c:164-295 | state 4 as statements is Convert |
| Printf.DoPrintf | kernel/lib/printf.c:68-302 | do_printf as statements is Format |
| Printf.Loop | kernel/lib/printf.c:84-300 | the `for` loop as statements is Scan from the start |
| Printf.Iterate | kernel/lib/printf.c:86-300 | one pass of the body moves forward in the format and leaves the rest of the scan unchanged |
| Printf.ConvertStep | kernel/lib/printf.c:164-298 | a conversion and the reset as statements leave state 0 and the rest of the scan |
| Printf.Vsn | kernel/lib/printf.c:315-322 | vsnprintf returns do_printf's count, the number of characters stored, exactly when the buffer has room for the NUL after them; with maxlen >= 1 and a buffer of maxlen bytes it always has |
| Printf.Vsnprintf | kernel/lib/printf.c:315-322 | the buffer holds the formatted characters and a NUL, and nothing after them changes |
| Printf.Store | kernel/lib/printf.c:304-313 | the characters stored one after the other and then the NUL, nothing beyond |
| Printf.Snprintf | kernel/lib/printf.c:324-334 | snprintf is vsnprintf on its arguments |
| Printf.Vprintf | kernel/lib/printf.c:336-345 | vprintf writes the unbounded formatted text to the console and returns 0 |
| Printf.Printf | kernel/lib/printf.c:347-356 | printf is vprintf on its arguments and returns 0 |
| PrintfFacts.EchoPlain | kernel/lib/printf.c:86-98 | characters other than '%' and NUL are echoed one by one, each guarded by the limit |
| PrintfFacts.PlainFormat | kernel/lib/printf.c:86-98 | a format without directives prints its text, cut to `maxlen - 1` characters when the callback counts them |
| PrintfFacts.PercentPercent | kernel/lib/printf.c:105-112 | "%%" prints one '%' and resets the directive |
| PrintfFacts.Directive | kernel/lib/printf.c:99-163 | '%' followed by a character that is no flag, width digit or modifier goes straight to the conversion switch |
| PrintfFacts.UnknownConversion | kernel/lib/printf.c:293-298 | an unknown conversion prints nothing, consumes no argument and resets the parser |
| PrintfFacts.TrailingPercent | kernel/lib/printf.c:99-101 | a format ending in a lone '%' steps over the NUL and reads past the end of the string |
| PrintfFacts.ResetEmitAll | kernel/lib/printf.c:297 | the reset forgets only state, flags and width, so it commutes with emitting |
| PrintfFacts.BareField | kernel/lib/printf.c:249-291 | with no width and no '-' or '0', EMIT prints the sign, when there is one, and the text |
| PrintfFacts.UnsignedConversion | kernel/lib/printf.c:169-190 | `%u`, `%o`, `%x`, `%X` and `%n` print the argument's 32 bits unsigned in radix 10, 8 or 16, in capitals for `%X`, and are undefined past the last argument |
| PrintfFacts.UnsignedNumber | kernel/lib/printf.c:205-236 | an unsigned slot prints as the numeral of its 32 bits |
| PrintfFacts.SignedConversion | kernel/lib/printf.c:182-218 | `%d` and `%i` print '-' and the magnitude of a negative number and the digits of another; the most negative `int` is undefined |
| PrintfFacts.SignedNumber | kernel/lib/printf.c:210-236 | a signed number prints as its sign and the numeral of its magnitude |
| PrintfFacts.CharConversion | kernel/lib/printf.c:237-244 | `%c` prints the low byte of its argument, nothing for a NUL |
| PrintfFacts.StringConversion | kernel/lib/printf.c:245-250 | `%s` prints the string its argument points to; it is undefined past the last argument or for a word that points to no string |
| PrintfFacts.Hex8Digits | kernel/lib/printf.c:177-181 | a pointer prints as exactly eight hexadecimal digits that read back as its value |
| PrintfFacts.ValueAfterZeros | kernel/lib/printf.c:264-270 | leading '0' padding does not change the value of a numeral |
| PrintfFacts.ZerosValue | kernel/lib/printf.c:264-270 | a run of '0' digits has value 0 |
| PrintfFacts.PointerConversion | kernel/lib/printf.c:177-181 | `%p` prints its argument as `%08x` does |
| PrintfFacts.PointerNumber | kernel/lib/printf.c:177-181 | width 8 with zero padding makes eight hexadecimal digits |
| PrintfFacts.ZeroMaxlen | kernel/lib/printf.c:75-86 | with `maxlen` 0 nothing is formatted and the count is 0, so vsnprintf still stores a NUL at `buffer[0]` |
| PrintfFacts.Nines | kernel/test/t-printf.c:12 | 99999999 has eight decimal nines |
| PrintfFacts.SnprintfExample | kernel/test/t-printf.c:12 | `snprintf(buf, 5, "%d", 99999999)` prints "9999" and counts 4 |
| PrintfFacts.ExampleDigits | kernel/test/t-printf.c:12 | emitting the nines under the limit 4 stores four of them |
| PrintfTest.CharArray17 | kernel/test/t-printf.c:10-11 | a string literal in a `char[17]` is its bytes followed by zeros up to 17 |
| PrintfTest.TestSnprintf1With | kernel/test/t-printf.c:8-27 | the count check holds, and the memory check holds exactly when the control string is what snprintf leaves; otherwise the test panics |
| PrintfTest.TestSnprintf1 | kernel/test/t-printf.c:8-27 | as written, the control string has '.' where snprintf leaves its NUL, so the test panics |
| PrintfTest.TestSnprintf1Intended | kernel/test/t-printf.c:8-27 | with "9999" and a NUL before "56789abcdef" the test passes |
| KernelHeap.SetNext | kernel/vmm/heap.c:315 | `a->next = v` rewrites that one field of header a and no other header |
| KernelHeap.SetLinks | kernel/vmm/heap.c:328-329 | `a->next = v; a->prev = u` rewrites those two fields of header a and no other header |
| KernelHeap.SetPrevIfAny | kernel/vmm/heap.c:317-320 | `if (a) a->prev = u` rewrites a's back link when a is not NULL, and nothing when it is |
| KernelHeap.SizingBounds | kernel/vmm/heap.c:76-78 | up to 2^32 - 48 bytes the request rounds up to the next multiple of 8 and the block adds 40 bytes; above that the uint32 sums wrap and the block is too small for the request, and only then |
| KernelHeap.U32Low | kernel/vmm/heap.c:76-78 | a value below 2^32 is its own uint32 |
| KernelHeap.U32High | kernel/vmm/heap.c:76-78 | a value in [2^32, 2^33) wraps once |
| KernelHeap.RoundUpFacts | kernel/vmm/heap.c:76 | ROUND_UP(x, 8) is the next multiple of 8, or 0 when the addition wraps |
| KernelHeap.SizingWrapsToZero | kernel/vmm/heap.c:78 | a request of 2^32 - 40 bytes wraps to a block of total size 0 |
| KernelHeap.FirstFit | kernel/vmm/heap.c:89-92 | the first-fit scan stops at the first free block of at least `total_bytes`, or at the last block when none is large enough |
| KernelHeap.AllocSlot | kernel/vmm/heap.c:168-174 | the alloc-list scan stops at the first block whose successor lies above the new block with the block between them, or at the last block |
| KernelHeap.IndexOf | kernel/vmm/heap.c:305 | the search finds the first position of the header, or runs off the list |
| KernelHeap.FreeSlot | kernel/vmm/heap.c:343-358 | the free-list scan stops at the first block below the header whose successor is above it or NULL, or finds none |
| KernelHeap.ChainFrame | kernel/vmm/heap.c:304-370 | a list survives any rewrite that keeps its next pointers |
| KernelHeap.ChainInsert | kernel/vmm/heap.c:325-359 | pointing the predecessor (or the head) at x and x at the old block puts x into the list at that position |
| KernelHeap.ChainRemove | kernel/vmm/heap.c:304-321 | pointing the predecessor (or the head) past a block takes it out of the list |
| KernelHeap.UnlinkShape | kernel/vmm/heap.c:305-321 | the first block only moves `alloc_list` on; any other has its predecessor pointed past it and its successor pointed back |
| KernelHeap.UnlinkStep | kernel/vmm/heap.c:304-321 | after the unlink the alloc list is the old one without the block, still doubly linked; the free list, sizes and guards are untouched |
| KernelHeap.RemovedGone | kernel/vmm/heap.c:304-321 | in a list without repeats the removed block is gone and nothing new appears |
| KernelHeap.UnlinkLists | kernel/vmm/heap.c:307-321 | the list facts of the unlink, from the shape of the new headers |
| KernelHeap.UnlinkFirst | kernel/vmm/heap.c:307-310 | moving the head on drops the first block |
| KernelHeap.UnlinkInner | kernel/vmm/heap.c:313-320 | the relinking of an inner block drops it, keeps the back links, and changes no size or guard |
| KernelHeap.AllocLinkedTail | kernel/vmm/heap.c:307-310 | the back links of the list without its first block still hold |
| KernelHeap.AllocLinkedRemove | kernel/vmm/heap.c:313-320 | the back links hold once the successor points back at the predecessor |
| KernelHeap.FreeSlotFound | kernel/vmm/heap.c:343-358 | in an ascending free list the scan finds a place for any block above the head that is not already in it |
| KernelHeap.InsertShape | kernel/vmm/heap.c:325-359 | the block goes between its address neighbours, by one of the two splices of the code |
| KernelHeap.InsertStep | kernel/vmm/heap.c:325-359 | the free list becomes the old one with the block between its address neighbours, still ascending, both neighbours pointing at it; no size changes |
| KernelHeap.InsertFront | kernel/vmm/heap.c:325-339 | a block below the head, or into an empty list, becomes the head |
| KernelHeap.InsertAfter | kernel/vmm/heap.c:340-358 | otherwise the block goes in after the block the scan stopped at |
| KernelHeap.AscendingRemove | kernel/vmm/heap.c:304-321 | taking a block out keeps the address order |
| KernelHeap.RemoveTwice | kernel/vmm/heap.c:361-370 | two merges at the same place take out two consecutive blocks |
| KernelHeap.MergeShape | kernel/vmm/heap.c:213-241 | heap_merge of two linked neighbours merges them exactly when the first ends where the second starts, returning a, and otherwise returns b unchanged |
| KernelHeap.AbsorbLists | kernel/vmm/heap.c:230-235 | a merge takes b out of the list, adds its size to a and points b's successor back at a |
| KernelHeap.NextShape | kernel/vmm/heap.c:367-370 | the forward merge happens exactly when the block ends where its successor starts |
| KernelHeap.CoalesceSteps | kernel/vmm/heap.c:361-370 | the merges take out the neighbours the freed block touches, and the block left in its place spans them all |
| KernelHeap.CoalesceBack | kernel/vmm/heap.c:362-370 | when the predecessor ends where the freed block starts, the predecessor absorbs it and then the successor too if the block touched it |
| KernelHeap.BackMaps | kernel/vmm/heap.c:362-370 | the headers after a backward merge, with or without the forward one |
| KernelHeap.BothMaps | kernel/vmm/heap.c:362-370 | merging on both sides leaves one block with the three sizes |
| KernelHeap.InsertedMembers | kernel/vmm/heap.c:325-359 | inserting x adds x and nothing else |
| KernelHeap.AscendingInsert | kernel/vmm/heap.c:325-359 | putting a block between its address neighbours keeps the order |
| KernelHeap.ReleaseSteps | kernel/vmm/heap.c:304-370 | freeing a block of the alloc list puts it into the free list between its address neighbours, merges it with the neighbours it touches and leaves the alloc list without it |
| KernelHeap.UnlinkInsert | kernel/vmm/heap.c:304-359 | before any merge the block has left the alloc list and entered the free list, doubly linked, no size changed |
| KernelHeap.UnlinkKeepsFree | kernel/vmm/heap.c:304-321 | unlinking a block of the alloc list leaves the free list intact |
| KernelHeap.AllocKept | kernel/vmm/heap.c:325-370 | the alloc list survives the steps that touch none of its blocks |
| KernelHeap.SizesKept | kernel/vmm/heap.c:325-359 | the insertion changes no size, so the merges it enables are the same |
| HeapFree.FreeRejects | kernel/vmm/heap.c:261-292 | a pointer outside the heap, a misaligned one, one whose header lies below the heap start or whose front guard is not the magic value panics; kfree never returns for a pointer failing any check, the rear guard included |
| HeapFree.PoisonShape | kernel/vmm/heap.c:302 | the 0xce fill touches only the user bytes, so both rear guard words become 0xcececece and no header changes |
| HeapFree.FreeReleases | kernel/vmm/heap.c:247-375 | kfree of an allocated block that passes the checks takes it off the alloc list, puts it between its address neighbours in the free list and merges it with the neighbours it touches |
| HeapFree.FreeAccepted | kernel/vmm/heap.c:261-302 | a pointer passing the checks is poisoned and then released |
| HeapFree.FreeUnknownPointer | kernel/vmm/heap.c:305-321 | a header that is not on the alloc list leaves `tmp` NULL, which is then dereferenced, so kfree never completes |
| HeapFree.DoubleFree | kernel/vmm/heap.c:247-375 | the first kfree of a pointer completes and a second kfree of it cannot |
| HeapMalloc.SplitPieces | kernel/vmm/heap.c:113-136 | a block is split exactly when it is larger than `total_bytes` by more than MIN_BLOCK_SIZE; the two pieces then tile the old block, the front one pointing at the remainder, which takes over the old links and gets the guard |
| HeapMalloc.SplitOfZeroLoops | kernel/vmm/heap.c:127-134 | with a total of 0 the remainder is written over the block itself, which is left with size 0 pointing at itself |
| HeapMalloc.AllocInsertStep | kernel/vmm/heap.c:156-192 | the block goes into the alloc list right after the block the scan stops at (or alone into an empty list), and the list stays doubly linked; no size or guard changes |
| HeapMalloc.LinkAfterLists | kernel/vmm/heap.c:176-187 | the relinking after a node puts the block there in both directions |
| HeapMalloc.AllocLinkedInsert | kernel/vmm/heap.c:178-186 | the back links hold once the block points back at its predecessor and its successor back at it |
| HeapMalloc.HeadSplitChain | kernel/vmm/heap.c:127-141 | after splitting the head, the free list from the head's new successor is the remainder followed by the rest |
| HeapMalloc.RemainderChain | kernel/vmm/heap.c:127-133 | the remainder comes first after a split head |
| HeapMalloc.MallocShape | kernel/vmm/heap.c:76-154 | when the head fits it is split, `free_list` moves to its new successor and it gets its guards; kmalloc then returns exactly when that successor is a heap pointer and otherwise panics on ASSERT_HEAP(free_list) |
| HeapMalloc.MallocLastBlockWhole | kernel/vmm/heap.c:113-143 | when the only free block is not split (it fits too closely or is too small), `free_list` becomes its NULL successor and kmalloc panics on ASSERT_HEAP(free_list) |
| HeapMalloc.GuardShape | kernel/vmm/heap.c:152-154 | the guard writes touch only the block's front guard and its two rear words |
| HeapMalloc.MallocAtHead | kernel/vmm/heap.c:65-209 | when the head fits and the free list left behind starts in the heap, it is handed out as header plus 32, the free list moves past it, it joins the alloc list at the place the scan finds with its front and rear guards set, and its size is `total_bytes` when split |
| HeapMalloc.MallocResult | kernel/vmm/heap.c:89-146 | kmalloc returns NULL only under HEAP_FAILOK on an empty free list; otherwise a block of the free list plus 32, 8-aligned; and when it returns, `free_list` is unchanged or a heap pointer |
| HeapMalloc.TakeKeeps | kernel/vmm/heap.c:113-154 | the split and the guard touch only the block and its remainder |
| HeapMalloc.AllocKeptBut | kernel/vmm/heap.c:113-154 | the alloc list survives steps that touch only the block and its remainder |
| HeapMalloc.RestKept | kernel/vmm/heap.c:156-192 | the rest of the free list survives the alloc-list insertion |
| HeapMalloc.Prepared | kernel/vmm/heap.c:76-154 | just before the alloc-list insertion the free list is the rest, the alloc list is untouched and the block has its guards |
| HeapMalloc.MallocEmpty | kernel/vmm/heap.c:100-111 | with an empty free list kmalloc returns NULL, the heap unchanged, exactly under HEAP_FAILOK, and panics otherwise |
| HeapMalloc.MallocNoFit | kernel/vmm/heap.c:89-143 | when no free block is large enough the last one is handed out whole anyway, although it is smaller than the request needs; kmalloc returns exactly when that block is not the head or its successor is a heap pointer, and otherwise panics on ASSERT_HEAP(free_list) |
| HeapMalloc.MallocShapeAt | kernel/vmm/heap.c:76-154 | the block picked past the head is split and guarded, and `free_list` is not moved |
| HeapMalloc.MallocNonHeadStaysFree | kernel/vmm/heap.c:139-143 | a block found past the head is handed out but stays on the free list: its predecessor still points at it and it is on the alloc list too |
| HeapMalloc.MallocHugeRequest | kernel/vmm/heap.c:76-154 | a request of 2^32 - 40 bytes hands out the head with size 0 and leaves the free list starting at it, which passes ASSERT_HEAP |
| HeapMalloc.AllocInsertLayout | kernel/vmm/heap.c:156-192 | the alloc-list insertion moves no free-list head, no size and no guard word |
| HeapObject.PointerOf | kernel/vmm/heap.c:145-149 | kmalloc and heap_merge return exactly when the heap step returns, and then hand back the block the step computed |
| HeapObject.Completion | kernel/vmm/heap.c:247-375 | kfree completes exactly when the heap step completes |
| HeapObject.ChainHasNoLoop | kernel/vmm/heap.c:377-389 | no block of a list that ends at NULL points at itself, so heap_count_nodes never takes its panic on one |
| HeapObject.InitLists | kernel/vmm/heap.c:485-490 | on the heap heap_init leaves the alloc list is empty and the free list is the single block at heap_start, as test_heap asserts |
| HeapObject.TakenKeepsAlloc | kernel/vmm/heap.c:113-154 | splitting and guarding a free block leaves an alloc list apart from the free list unchanged |
| HeapObject.MallocFound | kernel/vmm/heap.c:89-192 | the block the first-fit scan finds is split and guarded; if it was the head and the new head is not a heap pointer kmalloc panics on ASSERT_HEAP(free_list), and otherwise the block is put on the alloc list and header plus 32 is returned |
| HeapObject.FreeChecked | kernel/vmm/heap.c:261-302 | a pointer that passes the sanity checks is poisoned and then released |
| HeapObject.Heap.Init | kernel/vmm/heap.c:510-538 | heap_init leaves one free block at heap_start whose header is zero but for its size, the range less the header as a uint32, and an empty alloc list |
| HeapObject.Heap.CountNodes | kernel/vmm/heap.c:377-389 | heap_count_nodes returns the length of the list exactly when no block of it points at itself, and panics otherwise |
| HeapObject.Heap.FindFit | kernel/vmm/heap.c:89-92 | the scan stops at the first free block large enough, or at the last one |
| HeapObject.Heap.FindAllocSlot | kernel/vmm/heap.c:168-174 | the alloc-list walk stops at the last node whose successor does not lie past the new block, or at the tail |
| HeapObject.Heap.FindInAlloc | kernel/vmm/heap.c:305 | the search finds the header on the alloc list, or NULL when it is not there |
| HeapObject.Heap.FindFreeSlot | kernel/vmm/heap.c:343-358 | the free-list walk stops at the last free block below the header |
| HeapObject.Heap.HeapMerge | kernel/vmm/heap.c:213-241 | heap_merge joins two touching free blocks into the first and returns it, and returns the second unchanged otherwise |
| HeapObject.Heap.TakeBlock | kernel/vmm/heap.c:113-154 | the block is split and `free_list` moves past it when it was the head; it panics exactly when that new head is not a heap pointer, and otherwise the block gets its front and rear guards |
| HeapObject.Heap.WriteRearGuard | kernel/vmm/heap.c:152-154 | the two rear guard words become the magic value and no other word changes |
| HeapObject.Heap.LinkAlloc | kernel/vmm/heap.c:156-192 | the block joins the alloc list as the alloc-list insertion says |
| HeapObject.Heap.KMalloc | kernel/vmm/heap.c:65-209 | __kmalloc returns and leaves the heap as the kmalloc step of the model says: NULL under HEAP_FAILOK on an empty list and a panic otherwise, the ASSERT_HEAP panic when the last free block is taken whole, the block plus 32 in every other case |
| HeapObject.Heap.CheckRearGuard | kernel/vmm/heap.c:281-289 | the loop panics at the first rear guard word that is not the magic value and completes otherwise |
| HeapObject.Heap.PoisonUser | kernel/vmm/heap.c:302 | the user bytes, rear guard included, become 0xce |
| HeapObject.Heap.UnlinkAlloc | kernel/vmm/heap.c:305-321 | the block leaves the alloc list, or kfree stops on a NULL dereference when it is not there |
| HeapObject.Heap.InsertFree | kernel/vmm/heap.c:325-359 | the block enters the free list in address order |
| HeapObject.Heap.CoalesceAt | kernel/vmm/heap.c:361-370 | the block merges with its previous free neighbour and then with its next one |
| HeapObject.Heap.FreeChecks | kernel/vmm/heap.c:261-302 | the checks pass exactly when the pointer is accepted, and a failing check stops kfree as the kfree step says |
| HeapObject.Heap.KFree | kernel/vmm/heap.c:247-375 | __kfree completes and leaves the heap as the kfree step of the model says |
| HeapObject.Heap.ReleaseBlock | kernel/vmm/heap.c:305-370 | the block leaves the alloc list, joins the free list and merges with its neighbours |
| HeapTests.MallocOnOneBlock | kernel/vmm/heap.c:65-209 | kmalloc on a heap of one free block splits it, makes the remainder (a heap pointer) the free list, puts its front alone on the alloc list and returns heap_start + 32 |
| HeapTests.FreeOnOneBlock | kernel/vmm/heap.c:247-375 | kfree of that pointer merges the two pieces back into one free block of the original size, with an empty alloc list |
| HeapTests.CycleOnOneBlock | kernel/vmm/heap.c:65-375 | kmalloc and then kfree on a one-block heap bring it back to one free block of the original size |
| HeapTests.InitSize | kernel/vmm/heap.c:512-532 | the block heap_init makes spans the heap range less its header |
| HeapTests.TestSizes | kernel/vmm/heap.c:76-78 | requests of 44, 129, 68 and 64 bytes take blocks of 88, 176, 112 and 104 bytes |
| HeapTests.TestHeap1 | kernel/vmm/heap.c:395-407 | allocating and freeing one request and then another returns the same address twice, and both lists are back to one free block and no allocation after each kfree, as test_heap asserts |
| HeapTests.TestHeap1Fits | kernel/vmm/heap.c:399-402 | the requests of test_heap_1 fit any heap of 256 bytes or more |
| HeapTest4.MallocTakes | kernel/vmm/heap.c:65-209 | when the free list is left alone or moves to a heap pointer, kmalloc hands out the block its first-fit scan picks, split and guarded and joined to the alloc list, at the address after its header |
| HeapTest4.CarveSplit | kernel/vmm/heap.c:113-154 | a free head more than MIN_BLOCK_SIZE bytes too long keeps `total` bytes and points at the remainder, which takes its place at the head of the free list; the rear guard of the kept part is written and no other header changes |
| HeapTest4.CarveWhole | kernel/vmm/heap.c:113-154 | a free head that fits but is too short to split is taken whole: no header changes, the free list moves to its successor and the guard goes at the end of the whole block |
| HeapTest4.LinkAfterFacts | kernel/vmm/heap.c:176-187 | putting a block in after a node of the alloc list points the node at it, it back at the node and at the node's old successor, that successor back at it, and changes no other header, word or list head |
| HeapTest4.FreeRuns | kernel/vmm/heap.c:247-375 | for a 112-byte block whose checks pass, kfree is the unlink, the free-list insertion and the merges, in that order |
| HeapTest4.PoisonFacts | kernel/vmm/heap.c:302 | poisoning a 112-byte block changes only its two rear guard words |
| HeapTest4.PoisonSpares | kernel/vmm/heap.c:302 | the rear guards of any other block survive the poisoning |
| HeapTest4.Step1 | kernel/vmm/heap.c:460 | the first kmalloc(68) on the fresh heap returns heap_start + 32 and leaves B0 (112 bytes) alone on the alloc list and the rest free, with B0's rear guard written |
| HeapTest4.Carve2 | kernel/vmm/heap.c:113-154 | the second kmalloc(68) cuts B1 off the front of the free remainder |
| HeapTest4.Link2 | kernel/vmm/heap.c:156-192 | B1 is linked after B0 in both directions |
| HeapTest4.Step2 | kernel/vmm/heap.c:461 | the second kmalloc(68) returns the address 112 bytes further on, with B0 and B1 allocated and guarded and the remainder free |
| HeapTest4.Carve3 | kernel/vmm/heap.c:113-154 | the third kmalloc(68) cuts B2 off the front of the free remainder |
| HeapTest4.Link3 | kernel/vmm/heap.c:156-192 | B2 is linked after B1, the last allocated block |
| HeapTest4.Step3 | kernel/vmm/heap.c:462 | the third kmalloc(68) returns the next address, with B0, B1 and B2 allocated in order and guarded |
| HeapTest4.Unlink4 | kernel/vmm/heap.c:304-321 | kfree of B1 points B0 past it to B2 and B2 back at B0 |
| HeapTest4.Insert4 | kernel/vmm/heap.c:325-339 | B1 lies below the free head R and becomes the new head in front of it |
| HeapTest4.Coalesce4 | kernel/vmm/heap.c:361-370 | B1 does not end where R starts, so nothing merges |
| HeapTest4.Step4 | kernel/vmm/heap.c:464 | kfree of B1 passes the checks and leaves the free list B1, R and the alloc list B0, B2, with no merge |
| HeapTest4.Carve5 | kernel/vmm/heap.c:113-154 | kmalloc(64) needs 104 bytes and finds B1 at the free head; 112 less 104 is not more than MIN_BLOCK_SIZE, so B1 is taken whole and the free list moves on to R, whose back link still names B1 |
| HeapTest4.Link5 | kernel/vmm/heap.c:156-192 | B1 is linked between B0 and B2 again |
| HeapTest4.Step5 | kernel/vmm/heap.c:465-467 | kmalloc(64) returns the same address as the first kmalloc of B1, so the ASSERT of test_heap_4 holds, and all three blocks are allocated again |
| HeapTest4.Unlink6 | kernel/vmm/heap.c:307-310 | kfree of B0, the alloc head, moves the alloc list on to B1 |
| HeapTest4.Insert6 | kernel/vmm/heap.c:325-339 | B0 becomes the free head in front of R |
| HeapTest4.Coalesce6 | kernel/vmm/heap.c:361-370 | B0 does not end where R starts, so nothing merges |
| HeapTest4.Step6 | kernel/vmm/heap.c:470 | kfree of B0 leaves the free list B0, R and the alloc list B1, B2 |
| HeapTest4.Unlink7 | kernel/vmm/heap.c:313-320 | kfree of B2, the alloc tail, clears B1's forward link |
| HeapTest4.Insert7 | kernel/vmm/heap.c:340-358 | B2 goes in between B0 and R |
| HeapTest4.Coalesce7 | kernel/vmm/heap.c:361-370 | B0 does not touch B2, but B2 ends where R starts and absorbs it |
| HeapTest4.Step7 | kernel/vmm/heap.c:471 | kfree of B2 leaves the free list B0 and the merged B2, and the alloc list B1 |
| HeapTest4.Unlink8 | kernel/vmm/heap.c:307-310 | kfree of B1, the only allocated block, empties the alloc list |
| HeapTest4.Insert8 | kernel/vmm/heap.c:340-358 | B1 goes in between B0 and B2 |
| HeapTest4.Coalesce8 | kernel/vmm/heap.c:361-370 | B0 absorbs B1 and then B2, leaving one free block of the whole heap |
| HeapTest4.Step8 | kernel/vmm/heap.c:472 | the last kfree leaves one free block of the whole heap and an empty alloc list |
| HeapTest4.Lists0 | kernel/vmm/heap.c:489-490 | on the fresh heap the free list is the one block and the alloc list is empty |
| HeapTest4.Lists1 | kernel/vmm/heap.c:377-389 | after the first kmalloc the lists, followed from their heads, are the free rest after B0, and B0 |
| HeapTest4.Lists2 | kernel/vmm/heap.c:377-389 | after the second kmalloc the lists are the free rest after B1, and B0, B1 |
| HeapTest4.Lists3 | kernel/vmm/heap.c:377-389 | after the third kmalloc the lists are R and B0, B1, B2 |
| HeapTest4.Lists4 | kernel/vmm/heap.c:377-389 | after kfree of B1 the lists are B1, R and B0, B2 |
| HeapTest4.Lists5 | kernel/vmm/heap.c:377-389 | after kmalloc(64) the lists are R and B0, B1, B2 |
| HeapTest4.Lists6 | kernel/vmm/heap.c:377-389 | after kfree of B0 the lists are B0, R and B1, B2 |
| HeapTest4.Lists7 | kernel/vmm/heap.c:377-389 | after kfree of B2 the lists are B0, B2 and B1 |
| HeapTest4.Lists8 | kernel/vmm/heap.c:500-502 | after the last kfree the free list is one block and the alloc list is empty, as test_heap asserts after each test |
| HeapTest4.TestHeap4 | kernel/vmm/heap.c:456-473 | on any heap with room for three 112-byte blocks, each call of test_heap_4 runs on the lists left by the one before, kmalloc(64) hands back the address of the freed middle block, and at the end the free list is one block of the whole heap and the alloc list is empty |
| HeapTest4.TestHeap4Fits | kernel/vmm/heap.c:460-462 | the blocks of test_heap_4 fit any heap of 512 bytes or more |
| Vmm.ClearPage | kernel/vmm/vmm.c:166-182 | clear_pages on one page makes every word of that page 0 and leaves every other word as it was |
| Vmm.PdeIndex | kernel/vmm/vmm.c:375 | the directory slot of an address indexes the 1024-entry page directory |
| Vmm.SetPte | kernel/vmm/vmm.c:418 | writing a page-table entry keeps the temp-page stack and directory in shape |
| Vmm.Borrow | kernel/vmm/vmm.c:39-71 | borrow_vpage pushes the stack index up by one when it returns |
| Vmm.Borrowed | kernel/vmm/vmm.c:50-52 | handing out the top slot keeps the stack in shape |
| Vmm.Return | kernel/vmm/vmm.c:73-85 | return_vpage drops the stack index by one when it returns |
| Vmm.Unmap | kernel/vmm/vmm.c:431-482 | vmm_unmap_pages touches neither the temp-page stack nor its index |
| Vmm.UnmapLoop | kernel/vmm/vmm.c:452-481 | the unmap loop touches neither the temp-page stack nor its index |
| Vmm.UnmapEntry | kernel/vmm/vmm.c:454-477 | one pass of the unmap loop touches neither the temp-page stack nor its index |
| Vmm.GetPage | kernel/vmm/vmm.c:196-219 | pmm_get_page gives back every temporary page it borrows |
| Vmm.GetPageAt | kernel/vmm/vmm.c:201-218 | the rest of pmm_get_page gives back the page it borrowed |
| Vmm.Popped | kernel/vmm/vmm.c:209-212 | taking the head of the free list keeps the state in shape |
| Vmm.Release | kernel/vmm/vmm.c:214-216 | unmapping and returning the temporary page drops the stack index by one |
| Vmm.MapPages | kernel/vmm/vmm.c:340-429 | vmm_map_pages gives back every temporary page it borrows and maps no more pages than asked |
| Vmm.EnsureTable | kernel/vmm/vmm.c:378-394 | filling an empty directory slot with a page table gives back every temporary page it borrows |
| Vmm.MapLoop | kernel/vmm/vmm.c:373-428 | the map loop counts between 0 and `count` more written entries and gives back every temporary page |
| Vmm.MapPass | kernel/vmm/vmm.c:375-425 | one pass of the map loop writes at most one entry |
| Vmm.MapEntry | kernel/vmm/vmm.c:400-425 | one entry with a page table is written at most once, and skipped or rejected when present |
| Vmm.Fill | kernel/vmm/vmm.c:413-420 | writing an entry counts exactly one page |
| Vmm.FreePage | kernel/vmm/vmm.c:221-236 | pmm_free_page gives back the temporary page it borrows |
| Vmm.FreePageAt | kernel/vmm/vmm.c:226-235 | the rest of pmm_free_page gives back the page it borrowed |
| Vmm.Pushed | kernel/vmm/vmm.c:228-232 | pushing a page on the free list keeps the state in shape |
| Vmm.TempPagesAligned | kernel/vmm/vmm.c:523-532 | every temporary page init_temp_vpages sets up is page aligned when the area starts on a page boundary |
| Vmm.NextPageAligned | kernel/vmm/vmm.c:528 | stepping an aligned address by PAGE_SIZE keeps it aligned, wrap-around included |
| Vmm.BorrowThenReturn | kernel/vmm/vmm.c:39-85 | borrowing a page and returning it at once leaves the stack as it was |
| Vmm.ReturnThenBorrow | kernel/vmm/vmm.c:39-85 | a page just returned is the next one borrowed, when its directory slot is filled |
| Vmm.BorrowPanics | kernel/vmm/vmm.c:45-67 | borrow_vpage stops exactly when all 16 pages are out or the top page has no directory entry |
| Vmm.AlignedEntry | kernel/vmm/vmm.c:418 | an entry built from an aligned page keeps the flags given and never has the 4 MiB bit |
| Vmm.SecondWord | kernel/vmm/vmm.c:229-230 | the size word of a free page is on the same page as its link |
| Vmm.MapTop | kernel/vmm/vmm.c:207 | mapping a page at an empty top temporary page writes just its entry, with PTE_KDATA |
| Vmm.UnmapTop | kernel/vmm/vmm.c:214 | unmapping the top temporary page zeroes its entry |
| Vmm.UnmapMapped | kernel/vmm/vmm.c:214 | a temporary page mapped to an aligned page unmaps without a panic |
| Vmm.ClearKeepsOtherPage | kernel/vmm/vmm.c:228-230 | clearing a page and writing its header leave every word of another page alone |
| Vmm.ReleaseMapped | kernel/vmm/vmm.c:214-216 | releasing a temporary page that maps an aligned page completes |
| Vmm.MappedAtTop | kernel/vmm/vmm.c:199-207 | the state with a page mapped at the top temporary page keeps the stack in shape |
| Vmm.BorrowAndMap | kernel/vmm/vmm.c:199-207 | borrowing the top temporary page and mapping a page there both complete |
| Vmm.MappedEntry | kernel/vmm/vmm.c:207-214 | while a page is mapped at the top temporary page its entry stays that page with PTE_KDATA, through the clearing and the header writes |
| Vmm.GetPageSteps | kernel/vmm/vmm.c:196-219 | pmm_get_page borrows, maps, pops, clears, unmaps and returns in that order, and completes |
| Vmm.FreePageSteps | kernel/vmm/vmm.c:221-236 | pmm_free_page borrows, maps, pushes, unmaps and returns in that order, and completes |
| Vmm.ReleasedStack | kernel/vmm/vmm.c:216 | giving the borrowed top page back restores the stack and the directory |
| Vmm.GetPageState | kernel/vmm/vmm.c:196-219 | pmm_get_page moves the head to the page's link and drops the count, with the stack and directory unchanged |
| Vmm.GetPageMemoryWord | kernel/vmm/vmm.c:207-214 | the page pmm_get_page takes reads as zeros and every other word is as it was |
| Vmm.GotWordAt | kernel/vmm/vmm.c:207-214 | the memory after pmm_get_page, word by word, with the temporary entry cleared |
| Vmm.GetPagePops | kernel/vmm/vmm.c:196-219 | pmm_get_page returns the head of the free list; the head moves to its link, the count drops by one, the page comes back cleared and no other word changes |
| Vmm.GetPageEmptyPanics | kernel/vmm/vmm.c:196-205 | pmm_get_page never returns with an empty free list: after borrowing its temporary page it panics with "no free pages available" |
| Vmm.EnsureTableInstalls | kernel/vmm/vmm.c:380-394 | a directory slot without a page table panics on ASSERT(gp_next_free_4k_page) when the free list is empty; otherwise the old head of the free list is entered there with PTE_KDATA, reads as zeros throughout, the list moves to its link and the count drops by one, and no other directory slot changes |
| Vmm.FreePageState | kernel/vmm/vmm.c:221-236 | pmm_free_page makes the page the head and grows the count, with the stack and directory unchanged |
| Vmm.FreePagePhys | kernel/vmm/vmm.c:226-234 | the memory pmm_free_page leaves is the page cleared with its header written and the temporary entry cleared |
| Vmm.FreePageMemoryWord | kernel/vmm/vmm.c:228-230 | a freed page holds the old head and PAGE_SIZE in its first two words and zeros elsewhere, and every other word is as it was |
| Vmm.FreedWordAt | kernel/vmm/vmm.c:226-234 | the memory after pmm_free_page, word by word, with the temporary entry cleared |
| Vmm.WordUpdate | kernel/vmm/vmm.c:229 | writing one word of memory changes that word only |
| Vmm.FreePagePushes | kernel/vmm/vmm.c:221-236 | pmm_free_page pushes the page: it becomes the head, linked to the old head with the page size, the rest of it cleared, the count one higher, no other word changed |
| Vmm.FreeKeepsReady | kernel/vmm/vmm.c:221-236 | after pmm_free_page the top temporary page is ready again, so it can be called again |
| Vmm.FreeThenGet | kernel/vmm/vmm.c:196-236 | pmm_free_page then pmm_get_page returns the same page, cleared, with head and count restored and every other word as before |
| Vmm.MapPagesRejects | kernel/vmm/vmm.c:358-371 | illegal flags, an unaligned virtual address, or an unaligned physical address under VMM_PHYS_REAL make vmm_map_pages panic |
| Vmm.SkipNeedsRemapOk | kernel/vmm/vmm.c:402-406 | without VMM_REMAP_OK a present entry panics even when VMM_SKIP_MAPPED is set |
| Vmm.SkipAdvancesPhysical | kernel/vmm/vmm.c:408-425 | with VMM_REMAP_OK and VMM_SKIP_MAPPED a present entry is left alone and not counted, but the physical address still moves on |
| Vmm.MapOneReal | kernel/vmm/vmm.c:340-429 | mapping one absent page under VMM_PHYS_REAL writes the entry `p \| (flags & 7)`, nothing else, and returns 1 |
| Vmm.MapLoopStep | kernel/vmm/vmm.c:373-426 | a pass of the map loop hands the rest of the loop the new state, the next physical address and the grown count |
| Vmm.UnmapOne | kernel/vmm/vmm.c:431-482 | unmapping one page panics exactly when the address is unaligned, the directory entry is empty, the entry is 0 or a 4 MiB page, and zeroes the entry otherwise |
| Vmm.MapThenUnmap | kernel/vmm/vmm.c:340-482 | mapping an empty entry and unmapping it again leaves every word of memory as it was |
| VmmObject.MemoryManager.State | kernel/vmm/vmm.c:11-28 | the globals of vmm.c read as one state of the right shape |
| VmmObject.MemoryManager.constructor | kernel/vmm/vmm.c:19-28 | a manager over the given directory and memory starts with an empty stack of temporary pages |
| VmmObject.MemoryManager.InitTempVpages | kernel/vmm/vmm.c:523-532 | slot i of `temp_vpages` gets the i-th page from the start of the area |
| VmmObject.MemoryManager.Borrow | kernel/vmm/vmm.c:39-71 | borrow_vpage returns and leaves the state exactly as the borrow step says |
| VmmObject.MemoryManager.Return | kernel/vmm/vmm.c:73-85 | return_vpage completes and leaves the state exactly as the return step says |
| VmmObject.MemoryManager.UnmapPages | kernel/vmm/vmm.c:431-482 | vmm_unmap_pages completes and leaves the state exactly as the unmap step says |
| VmmObject.MemoryManager.UnmapEntry | kernel/vmm/vmm.c:454-481 | one pass of the unmap loop acts as its step says |
| VmmObject.MemoryManager.Release | kernel/vmm/vmm.c:214-216 | unmapping and returning the temporary page acts as its step says |
| VmmObject.MemoryManager.GetPage | kernel/vmm/vmm.c:196-219 | pmm_get_page returns and leaves the state exactly as the get-page step says |
| VmmObject.MemoryManager.GetPageAt | kernel/vmm/vmm.c:201-218 | the rest of pmm_get_page acts as its step says |
| VmmObject.MemoryManager.Pop | kernel/vmm/vmm.c:209-216 | taking the head, clearing the page and releasing the temporary page act as their steps say |
| VmmObject.MemoryManager.FreePage | kernel/vmm/vmm.c:221-236 | pmm_free_page completes and leaves the state exactly as the free-page step says |
| VmmObject.MemoryManager.Push | kernel/vmm/vmm.c:228-235 | clearing and linking the page and releasing the temporary page act as their steps say |
| VmmObject.MemoryManager.EnsureTable | kernel/vmm/vmm.c:378-394 | an empty directory slot gets a page table as its step says |
| VmmObject.MemoryManager.MapPages | kernel/vmm/vmm.c:340-429 | vmm_map_pages returns the count and leaves the state exactly as the map step says |
| VmmObject.MemoryManager.MapAll | kernel/vmm/vmm.c:373-428 | the map loop returns the count and leaves the state as the loop step says |
| VmmObject.MemoryManager.MapPass | kernel/vmm/vmm.c:375-425 | one pass of the map loop acts as its step says |
| VmmObject.MemoryManager.MapEntry | kernel/vmm/vmm.c:400-425 | one entry with a page table is handled as its step says |
| VmmObject.MemoryManager.Fill | kernel/vmm/vmm.c:413-420 | writing the entry acts as its step says |

## Left out

- Spinlock internals and the interrupt-disable counter: locks are modelled only as sets of held locks.
- Context switching inside `schedule` and `task_create` (stacks, CR3, the TSS, the status line, `task_entry`) is architecture-specific register work. Only the choice of the next task and the bookkeeping are modelled.
- Timestamps (`time_get_abs`, `wait_node.began`, `task.wait_time`) are timer readings, and no contract depends on them.
- `obj_wait_many` is declared but never implemented.
- The host replica shares the kernel's wait-graph functions (`WaitGraph.AddWait`, `Detach`, `Wake`); its own `_obj_add_wait`, `_obj_wn_detach` and `_obj_wake` are the same algorithm without locks.
- `panic()` itself (register capture, printing, halting) is left out. Only its `ResolveSymbol`, `is_valid_frame` and the `dump_stack` walk are modelled.
- The I/O in `keyboard_handler` is left out: the port read, the console message, the F12 task dump and the CTRL-BREAK reboot. `kbdus` and `keyboard_install` are left out too. Only the ring buffer is modelled.
- `vfs_vnode_find` (stub code that calls undefined APIs) and `vfs_vnode_debug` (printing) are left out.
- core-debugger's `LoadCore` reads a file and is left out. The dump is a parameter of the `Debugger` constructor.
- lib.c's `strdup` is left out: it is `strlen`, kmalloc and `memcpy` composed. `memcpydw` and `memsetw` are left out as word-sized copies of `memcpy` and `memset`.
- lib.c's own unbounded `do_printf`, `sprintf` and `printf` (kernel/lib/lib.c:71-356) duplicate printf.c and are left out. So are the port I/O helpers `inportb`, `outportb`, `inportl` and `outportl`.
- In heap.c, `heap_grow` (page-fault plumbing) and the debug printers `walk_list` and `heap_dump` are left out. So are the heap spinlock and the `HEAP_TRACK` bookkeeping. The `MALLOC_FILL` memset of the user bytes is not modelled either: the heap image holds only headers and guard words.
- `heap_init` is modelled without its `vmm_map_pages` call, its messages and its call to `test_heap`.
- `test_heap_2` and `test_heap_3` are left out (`test_heap_4` is modelled by `HeapTest4`). They repeat allocate/free sequences whose single steps `HeapFree.FreeReleases`, `HeapMalloc.MallocAtHead` and `HeapTests.CycleOnOneBlock` cover, and proving the eight-block run of `test_heap_3` on concrete images is beyond what this model does.
- In vmm.c, `clear_pages` and `InvalidatePage` are modelled only by their effect on memory; TLB invalidation has no state here. Page tables are read at their physical address instead of through the self-mapped directory window `_kernel_ptbl_start`.
- vmm.c's `vmm_debug_virt_addr`, `vmm_dump_page_tables`, `pmm_test`, `vmm_init`, `vmm_init_cleanup` and `vmm_get_stats` are left out. They print, run self-tests or only copy a counter. `borrow_vpage`'s `Halt` on an empty directory entry is modelled as a panic. The temp-page spinlock is left out.
- Vmm.MapLoop: the count of written entries is a `nat` rather than a uint32. It never exceeds `count`, so no wrap-around is lost.
- VmmObject.MemoryManager.InitTempVpages: states the i-th page as a 32-bit address, and `Vmm.TempPagesAligned` proves each one page aligned. It does not state that the area is mapped.

## Findings

| source | as written | input that shows it | evidently intended | confidence | as-written member | corrected member |
|---|---|---|---|---|---|---|
| kernel/test/t-printf.c:11 | the control string is `"9999\056789abcdef"`. C reads `\056` as the octal escape for '.', so the control is "9999.789abcdef" | `test_snprintf_1`: `snprintf(initial, 5, "%d", 99999999)` returns 4 and leaves "9999", a NUL and "56789abcdef" in `initial`. That differs from the control at byte 4, so the test PANICs | a control of "9999", a NUL and "56789abcdef", which is the buffer snprintf leaves, so the test passes | not executed | PrintfTest.TestSnprintf1 | PrintfTest.TestSnprintf1Intended |
