/** The records of the object manager and the scheduler (kernel/kernel/objects.h,
    kernel/kernel/task.h).

    Every structure the C code allocates with kmalloc and reaches through
    pointers (onode, hnode, wait_node) is named here by its address; tasks are
    named by their task id, which `gen_taskid` keeps unique. The intrusive wait
    lists are the sequences `waitList`, read from the head (see CircularList). */
module KernelTypes {
  import opened Common

  /** Address of a kmalloc'd structure. kmalloc hands out 8-aligned memory, so
      these are even and never 0 (NULL). */
  type Addr = a: int | a > 0 && a % 2 == 0 witness 2

  /** taskid_t */
  type TaskId = int

  /** enum task_state */
  datatype TaskState = Runnable | Running | Waiting | Paused | Zombie

  const TASK_STATES: nat := 5

  /** The enum's integer value. */
  function StateValue(s: TaskState): (v: nat)
    ensures v < TASK_STATES
  {
    match s
    case Runnable => 0
    case Running => 1
    case Waiting => 2
    case Paused => 3
    case Zombie => 4
  }

  /** enum OBJ_TYPE */
  datatype ObjType = ObjNull | ObjFile | ObjTask | ObjSemaphore | ObjMutex
                   | ObjTimer | ObjEvent | ObjSocket | ObjMsgQueue

  /** Flags passed to the routines that create or open objects. */
  const OBJ_CREATE_NEW: bv32 := 0x01
  const OBJ_OPEN_EXISTING: bv32 := 0x02
  const OBJ_KERNEL: bv32 := 0x8000

  /** A wait node: one pending wait of a task on an object. It sits in the
      object's list (linked through task_next/task_prev) and in the task's list
      (linked through obj_next/obj_prev). */
  datatype WaitNode = WaitNode(addr: Addr, task: TaskId, onode: Addr)

  /** The scheduling and waiting part of struct task. */
  datatype Task = Task(
    state: TaskState,
    name: string,
    ticksLeft: int,
    ticksReload: int,
    waitList: seq<WaitNode>,
    waitCount: int,
    waitAll: bool)

  /** The `unsignal` entry of an object type's operations table: either NULL or
      the semaphore's `_sem_unsignal`. */
  datatype Unsignal = NoUnsignal | SemUnsignal

  /** struct onode_ops (the `close` entry is NULL for every implemented type). */
  datatype ONodeOps = ONodeOps(objType: ObjType, unsignal: Unsignal)

  /** The semaphore's struct sem_data, kept in the onode's extra bytes. */
  datatype SemData = SemData(current: int, max: int)

  /** struct onode: the object itself, shared by every handle that refers to it. */
  datatype ONode = ONode(
    ops: ONodeOps,
    name: Option<string>,
    refCount: int,
    waitList: seq<WaitNode>,
    waitCount: int,
    signalled: bool,
    extra: SemData)

  /** struct hnode: one handle's view of an object. */
  datatype HNode = HNode(onode: Addr, task: Option<TaskId>, fdOffset: int, flags: bv32)

  /** The two dimensions of the wait mesh: every onode and every task with
      their wait lists. */
  datatype Mesh = Mesh(onodes: map<Addr, ONode>, tasks: map<TaskId, Task>)
}
