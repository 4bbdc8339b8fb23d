/** Tasks, their `u8`-encoded state, and the per-hart current-task slot
    (axtask/src/task.rs). A task is identified by its `TaskId`: two handles
    are `ptr_eq` exactly when they name the same id. */
module Task {
  import opened Fallible

  /** Issued by an id allocator that is not part of this model. */
  type TaskId = nat

  datatype TaskState = Running | Ready | Blocked | Exited

  /** `state as u8`, the `#[repr(u8)]` discriminant. */
  function Encode(s: TaskState): (b: u8)
    ensures 1 <= b <= 4
  {
    match s
    case Running => 1
    case Ready => 2
    case Blocked => 3
    case Exited => 4
  }

  /** Reading the stored byte back as a state; bytes outside 1..4 are not
      states. */
  function Decode(b: u8): (r: Option<TaskState>)
    ensures r.Some? <==> 1 <= b <= 4
    ensures r.Some? ==> Encode(r.value) == b
  {
    if b == 1 then Some(Running)
    else if b == 2 then Some(Ready)
    else if b == 3 then Some(Blocked)
    else if b == 4 then Some(Exited)
    else None
  }

  /** Decoding the stored byte recovers the state that was stored. */
  lemma DecodeEncode(s: TaskState)
    ensures Decode(Encode(s)) == Some(s)
  {
  }

  /** Distinct states are stored as distinct bytes. */
  lemma EncodeInjective(s1: TaskState, s2: TaskState)
    requires Encode(s1) == Encode(s2)
    ensures s1 == s2
  {
    assert Decode(Encode(s1)) == Some(s1);
  }

  /** An owned kernel stack: base pointer and allocation layout. */
  datatype TaskStack = TaskStack(ptr: u64, size: nat, align: nat)

  /** The entry closure, an opaque reference to code that is never run here. */
  type EntryRef = nat

  /** `Task`. `name`, `isInit`, `isIdle` and `preemptPending` are used by the
      kernel but their declarations are not part of the shown source; they are
      plain fields here. `state` holds the byte of the `AtomicU8`. The saved
      register context is not modelled. */
  datatype Task = Task(
    id: TaskId,
    name: string,
    isInit: bool,
    isIdle: bool,
    preemptPending: bool,
    entry: Option<EntryRef>,
    state: u8,
    kstack: Option<TaskStack>)

  function StateOf(t: Task): Option<TaskState> {
    Decode(t.state)
  }

  predicate IsRunning(t: Task) {
    StateOf(t) == Some(Running)
  }

  /** `Task::new_common`: a ready task with no entry and no kernel stack. */
  function NewCommon(id: TaskId, name: string): (t: Task)
    ensures t.id == id && t.name == name
    ensures StateOf(t) == Some(Ready) && !IsRunning(t)
    ensures t.entry == None && t.kstack == None
    ensures !t.isInit && !t.isIdle && !t.preemptPending
  {
    Task(id, name, false, false, false, None, Encode(Ready), None)
  }

  /** `Task::new_init`: the boot task, marked init, otherwise as `new_common`. */
  function NewInit(id: TaskId, name: string): (t: Task)
    ensures t.isInit
    ensures t.id == id && t.name == name
    ensures StateOf(t) == Some(Ready)
    ensures t.entry == None && t.kstack == None
    ensures t.(isInit := false) == NewCommon(id, name)
  {
    NewCommon(id, name).(isInit := true)
  }

  /** `set_state`: after the store, the state reads back as `s`, and no other
      field of the task changes. */
  function SetState(t: Task, s: TaskState): (t': Task)
    ensures StateOf(t') == Some(s)
    ensures IsRunning(t') <==> s == Running
    ensures t'.(state := t.state) == t
  {
    t.(state := Encode(s))
  }

  function SetPreemptPending(t: Task, pending: bool): (t': Task)
    ensures t'.preemptPending == pending
    ensures StateOf(t') == StateOf(t)
    ensures t'.(preemptPending := t.preemptPending) == t
  {
    t.(preemptPending := pending)
  }

  /** The per-hart slot holding a raw pointer to the running task. */
  datatype HartSlot = Null | Points(task: TaskId)

  /** `CurrentTask::init_current`: the slot now points at `t`. */
  function InitCurrent(t: TaskId): (slot: HartSlot)
    ensures TryGet(slot) == Some(t)
  {
    Points(t)
  }

  /** `CurrentTask::try_get`: no handle exactly when the slot is null;
      otherwise the handle is identical to the task the slot points at. */
  function TryGet(slot: HartSlot): (r: Option<TaskId>)
    ensures r.None? <==> slot.Null?
    ensures r.Some? ==> slot == Points(r.value)
  {
    match slot
    case Null => None
    case Points(t) => Some(t)
  }

  /** `CurrentTask::get`: fatal on a null slot, otherwise `try_get`'s handle. */
  function Get(slot: HartSlot): (r: Result<TaskId>)
    ensures r.Fatal? <==> slot.Null?
    ensures r.Fatal? ==> r.panic == CurrentUninitialized
    ensures r.Ok? ==> TryGet(slot) == Some(r.value)
  {
    match TryGet(slot)
    case None => Fatal(CurrentUninitialized)
    case Some(t) => Ok(t)
  }

  /** After `init_current(t)`, `get` yields `t`. */
  lemma InitThenGet(t: TaskId)
    ensures Get(InitCurrent(t)) == Ok(t)
  {
  }
}
