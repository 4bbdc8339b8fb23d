# A verified model of the ArceOS-Record kernel core

This project models the sequential logic at the centre of a small RISC-V
teaching kernel and proves properties of that model in Dafny:

- **Run queue and reschedule** (`scheduler.dfy`, module `Scheduler`). The
  ready queue is a FIFO sequence of task ids. Task records live in a table
  keyed by id. The per-hart slot names the current task. `pick_next_task`,
  `put_prev_task`, `switch_to`, `resched` and `yield_current` are pure
  functions over this state. A reschedule ends in one of three ways:
  - it returns, because the next task is the current one;
  - it reaches the hardware context switch, which the kernel leaves as
    `todo!()`, so the model stops there and reports the state at that point;
  - it panics.
- **Tasks and the current-task slot** (`task.dfy`, module `Task`). This covers:
  - the `#[repr(u8)]` state encoding, with the state field holding the stored byte;
  - the constructors `new_common` and `new_init`;
  - `set_state`;
  - the nullable per-hart slot behind `init_current`, `try_get` and `get`.

  Task identity (`ptr_eq`) is id equality.
- **Trap dispatch** (`trap.dfy`, module `Trap`). `scause` is decoded as in
  section 4.1.9 of the RISC-V Privileged Architecture: bit 63 is the
  Interrupt bit, and exception code 3 is Breakpoint. There are three branches:
  - a breakpoint advances `sepc` by 2, the width of `c.ebreak`;
  - an interrupt forwards the raw `scause` bits to the one registered IRQ
    handler, whose calls are recorded as a list of arguments;
  - any other cause is the fatal "Unhandled trap".
- **Timer conversion** (`time.dfy`, module `Time`). The timer runs at 10 MHz,
  so one tick is 100 ns. The tick count read from the `time` CSR is a parameter.
- **Device-tree node callback** (`dtb.dfy`, module `DeviceTree`). This is the
  closure in `parse_dtb`. It scans a node's properties, and the last property
  of each name wins. It recognises:
  - `device_type = "memory\0"`, the `/memory` node of section 3.4 of the
    Devicetree Specification;
  - `compatible = "virtio,mmio\0"`, section 2.3.1.

  It reads two big-endian 64-bit cells from `reg` and updates the `DtbInfo`
  accumulator. The UTF-8 check follows the well-formedness table of the
  Unicode Standard (Table 3-7). `read_be_u64` has its standard meaning: the
  eight big-endian bytes at an offset, failing when they are out of range.

`fallible.dfy` holds the shared pieces: `u8`, `u64` (which is also `usize` on
riscv64), `Option`, and a `Result` whose failure is a kernel panic.

Where the code and the intended design differ, the model follows the code:

- An empty ready queue makes `resched` panic at the `unwrap`. The code's own
  comment at `axtask/src/run_queue.rs:24` ("FixMe: with
  IDLE_TASK.get().clone()") names the intended fallback to the idle task.
- `resched` calls `put_prev_task` with one argument, but the function takes
  two (`prev`, `preempt`). The model passes `preempt = false`. The flag is
  ignored either way: `put_prev_task` always appends at the tail.
- `task.rs` defines `current()` twice (lines 27 and 74). Both definitions are
  the same call to `CurrentTask::get`.
- Rust arithmetic overflow is modelled as the panic of a build with overflow
  checks. This applies to `*sepc += 2` and to `ticks * NANOS_PER_TICK`.

## Model

| member | source | states |
|---|---|---|
| Task.Encode | axtask/src/task.rs:1-8 | every state is stored as a byte in 1..4 (Running=1, Ready=2, Blocked=3, Exited=4) |
| Task.Decode | axtask/src/task.rs:1-8 | exactly the bytes 1..4 decode to a state, and the state decoded from a byte encodes back to that byte |
| Task.DecodeEncode | axtask/src/task.rs:1-8 | decoding the stored byte recovers the stored state |
| Task.EncodeInjective | axtask/src/task.rs:1-8 | distinct states are stored as distinct bytes |
| Task.NewCommon | axtask/src/task.rs:38-46 | a fresh task has the given id and name, state Ready, no entry and no kernel stack |
| Task.NewInit | axtask/src/task.rs:32-36 | the boot task is marked init and is otherwise exactly a fresh common task: Ready, no entry, no stack |
| Task.SetState | axtask/src/task.rs:48-51 | after the store the state reads back as the stored one, and no other task field changes |
| Task.SetPreemptPending | axtask/src/run_queue.rs:29 | sets the preemption flag and changes no other field, the state included |
| Task.InitCurrent | axtask/src/task.rs:55-58 | after `init_current(t)`, `try_get` returns a handle identical to `t` |
| Task.TryGet | axtask/src/task.rs:60-67 | no handle exactly when the slot is null; otherwise the handle is the task the slot points at |
| Task.Get | axtask/src/task.rs:69-71 | fatal ("current task is uninitialized") exactly on a null slot; otherwise the same handle as `try_get` |
| Task.InitThenGet | axtask/src/task.rs:55-71 | `get` after `init_current(t)` yields `t` |
| Scheduler.PickNextTask | axtask/src/run_queue.rs:37-39 | nothing is picked exactly when the queue is empty, which then stays empty; otherwise the picked task followed by the new queue is the old queue |
| Scheduler.PutPrevTask | axtask/src/run_queue.rs:41-43 | whatever `preempt` says, the task becomes the last entry and all earlier entries keep their order |
| Scheduler.PutAllAppends | axtask/src/run_queue.rs:41-43 | putting a sequence of tasks one by one appends that sequence to the queue |
| Scheduler.PickManyDrains | axtask/src/run_queue.rs:37-39 | as many picks as entries return every entry front to back and leave the queue empty |
| Scheduler.FifoOrder | axtask/src/run_queue.rs:37-43 | tasks put on an empty queue come out of as many picks in the order they were put, and the queue ends empty |
| Scheduler.SwitchTo | axtask/src/run_queue.rs:28-35 | the next task ends Running with no preemption pending; no other task, the queue and the slot are unchanged; the call returns exactly when next is prev, otherwise it reaches the context switch |
| Scheduler.Resched | axtask/src/run_queue.rs:16-26 | panics with "current task is uninitialized" exactly when the slot is null |
| Scheduler.Demote | axtask/src/run_queue.rs:18-23 | prev ends not Running: Ready if it was Running, else as it was; only its state changes and no other task does; it is appended at the tail exactly when it was Running and not idle, and the queue is otherwise unchanged |
| Scheduler.YieldCurrent | axtask/src/run_queue.rs:12-14 | yielding panics with "current task is uninitialized" exactly on a null slot, and never panics for a running task that is not the idle task |
| Scheduler.ReschedRunningTask | axtask/src/run_queue.rs:17-25 | a running non-idle task is re-enqueued as Ready, so the `unwrap` cannot fail; the old head is switched to, with prev at the tail, or on an empty queue prev runs again with the queue empty |
| Scheduler.ReschedNotEnqueued | axtask/src/run_queue.rs:17-25 | a running idle task becomes Ready and a non-running task is unchanged, with every other field of its record kept; neither is enqueued; an empty queue makes the `unwrap` panic, otherwise the head runs and the queue loses only its head |
| Scheduler.SoleTaskYield | axtask/src/run_queue.rs:12-33 | the sole running task yields without a switch: it is Running again, the queue is empty again, and no other task changes |
| Scheduler.DemoteKeepsInv | axtask/src/run_queue.rs:18-23 | after the first half of `resched` no task is running, and the queue still holds distinct Ready non-idle tasks, with prev possibly added at the tail |
| Scheduler.PickAfterDemoteKeepsInv | axtask/src/run_queue.rs:24-33 | picking the head and switching to it restores the scheduler invariant, with the slot naming the new task |
| Scheduler.ReschedKeepsInv | axtask/src/run_queue.rs:16-35 | `resched` preserves the invariant (only the current task runs; the queue holds distinct Ready non-idle tasks, not the current one); the task switched to was Ready, never Exited |
| Trap.DecodeScause | axhal/src/riscv64/trap.rs:23-24 | the cause is an interrupt exactly when bit 63 of `scause` is set, and its code fits below that bit |
| Trap.EncodeScause | axhal/src/riscv64/trap.rs:24-27 | encoding a cause as `scause` bits decodes back to that cause |
| Trap.EncodeDecodeScause | axhal/src/riscv64/trap.rs:24-27 | every `scause` value is the encoding of the cause it decodes to |
| Trap.HandleBreakpoint | axhal/src/riscv64/trap.rs:39-42 | `sepc` advances by exactly 2, and the overflow panic happens exactly when the sum does not fit in 64 bits |
| Trap.HandleIrqExtern | axhal/src/riscv64/trap.rs:60-62 | the registered handler is called exactly once, with the number given |
| Trap.RiscvTrapHandler | axhal/src/riscv64/trap.rs:22-37 | the trap is fatal exactly for a cause that is neither breakpoint nor interrupt, reporting that cause and the frame; only a breakpoint can overflow; a resumed trap keeps registers and `sstatus`, moves `sepc` exactly for a breakpoint, and calls the IRQ handler once for an interrupt and never otherwise |
| Trap.DispatchPartition | axhal/src/riscv64/trap.rs:24-36 | every cause takes exactly one branch; the breakpoint branch is taken for the single value 3, and the fatal branch for every other value with bit 63 clear |
| Trap.BreakpointAdvancesSepc | axhal/src/riscv64/trap.rs:22-42 | on exception 3, `sepc` grows by 2, no other frame field changes, and the IRQ handler is not called |
| Trap.InterruptForwardsScause | axhal/src/riscv64/trap.rs:22-27 | on an interrupt the handler is called exactly once with the raw `scause` bits, interrupt bit included, and the frame is unchanged |
| Trap.OtherCausesFatal | axhal/src/riscv64/trap.rs:28-35 | any other cause ends in the "Unhandled trap" panic, which reports the cause and the frame |
| Time.NanosPerTickExact | axhal/src/riscv64/time.rs:4-6 | `NANOS_PER_TICK` is 100, and the division loses nothing |
| Time.TicksToNanos | axhal/src/riscv64/time.rs:14-17 | the result is ticks × 100, and the overflow panic happens exactly when that does not fit in a u64 |
| Time.CurrentTimeNanos | axhal/src/riscv64/time.rs:18-20 | the current time is 100 ns per tick read, and the overflow panic happens exactly when that product does not fit in a u64 |
| Time.TicksToNanosZero | axhal/src/riscv64/time.rs:15-17 | zero ticks are zero nanoseconds |
| Time.TicksToNanosMonotone | axhal/src/riscv64/time.rs:15-17 | strictly monotone wherever the larger argument does not overflow |
| Time.CurrentTimeNanosMonotone | axhal/src/riscv64/time.rs:18-20 | a later tick reading never gives an earlier time: if it converts, so does the earlier one, to a value no larger |
| DeviceTree.BeValue | axruntime/src/lib.rs:110-111 | the big-endian value of n bytes is below 256^n |
| DeviceTree.ReadBeU64 | axruntime/src/lib.rs:110-111 | succeeds exactly when eight bytes lie at the offset, and then returns the number whose big-endian bytes they are |
| DeviceTree.BeBytesValue | axruntime/src/lib.rs:110-111 | writing a number as n big-endian bytes and reading them back gives the number |
| DeviceTree.BeValueBytes | axruntime/src/lib.rs:110-111 | reading bytes as a big-endian number and writing it back gives the bytes |
| DeviceTree.ReadWrittenCell | axruntime/src/lib.rs:110-111 | a cell written at an offset is read back by `read_be_u64` at that offset, whatever surrounds it |
| DeviceTree.AsciiIsUtf8 | axruntime/src/lib.rs:92 | every ASCII byte string is valid UTF-8 |
| DeviceTree.StrEqualsAscii | axruntime/src/lib.rs:90-96 | against an ASCII literal, the UTF-8 comparison holds exactly for the literal's bytes; invalid UTF-8 never matches |
| DeviceTree.LastValueSpec | axruntime/src/lib.rs:88-103 | the reference lookup finds nothing exactly when no property has the name, and otherwise the value of a property with that name after which none follows |
| DeviceTree.LastValueCons | axruntime/src/lib.rs:88-103 | the last value in a list with one property put in front is the last value of the rest, or, when the rest has none of that name, the front property's value if its name matches |
| DeviceTree.ScanStep | axruntime/src/lib.rs:89-102 | a property changes only the flag of its own name; `device_type` and `compatible` match exactly when the value's bytes are "memory\0" and "virtio,mmio\0"; `reg` stores its value |
| DeviceTree.ScanFrom | axruntime/src/lib.rs:88-103 | from any starting flags, each flag ends as the last property of its name decides, or unchanged if there is none |
| DeviceTree.ScanProps | axruntime/src/lib.rs:84-103 | a node is memory iff its last `device_type` is exactly "memory\0", mmio iff its last `compatible` is exactly "virtio,mmio\0", and `reg` is its last `reg` |
| DeviceTree.RegRegion | axruntime/src/lib.rs:109-111 | the region's address and size are the big-endian values of bytes 0..8 and 8..16 of the last `reg` |
| DeviceTree.NodeCallback | axruntime/src/lib.rs:80-123 | a completed callback appends the node's region, if any, to the mmio list, sets the memory range from a memory node's readable `reg` and otherwise keeps it; it panics exactly when a memory or mmio node has wrong cell counts or a `reg` shorter than 16 bytes |
| DeviceTree.UnclassifiedUnchanged | axruntime/src/lib.rs:105-122 | a node that is neither memory nor mmio, or that has no `reg` and two-and-two cells, leaves the accumulator unchanged |
| DeviceTree.MemoryNodeSetsRange | axruntime/src/lib.rs:106-122 | a memory node with two-and-two cells and a readable `reg` sets the memory address and size from its two cells, whether or not it is also mmio; the mmio list is kept unless the node is also mmio, in which case its region is appended |
| DeviceTree.MmioNodeAppendsRegion | axruntime/src/lib.rs:114-122 | an mmio node that is not also a memory node, with two-and-two cells and a readable `reg`, appends exactly one region at the end and changes nothing else |
| DeviceTree.WrongCellsFatal | axruntime/src/lib.rs:106-116 | a memory or mmio node whose address or size cell count is not 2 fails the assertion, whatever its `reg` |
| DeviceTree.ShortRegFatal | axruntime/src/lib.rs:109-121 | a memory or mmio node with two-and-two cells whose `reg` is shorter than 16 bytes fails the `unwrap` (with other cell counts the `assert!` fires first) |
| DeviceTree.ParseNoNodes | axruntime/src/lib.rs:72-76 | the accumulator starts with address 0, size 0 and no regions |
| DeviceTree.LastMemoryNone | axruntime/src/lib.rs:106-113 | when no node is a memory node with a readable `reg`, the reference memory range is the starting one |
| DeviceTree.LastMemoryFound | axruntime/src/lib.rs:106-113 | otherwise the reference range is that of the last memory node with a readable `reg` |
| DeviceTree.LastMemoryCons | axruntime/src/lib.rs:106-126 | visiting one more node first is the same as starting from the range that node leaves behind |
| DeviceTree.ParseFrom | axruntime/src/lib.rs:105-126 | a completed walk appends, after the regions already held, the region of every mmio node with a readable `reg`, in visiting order, and no other; it holds the memory range of the last memory node with a readable `reg`, or the starting range if there is none; the walk panics exactly when some node fails |
| DeviceTree.ParseNodes | axruntime/src/lib.rs:72-134 | the mmio list a completed scan reports is exactly the regions of its mmio nodes, in order; the memory range is that of the last memory node with a readable `reg`, or (0, 0) if there is none; the scan panics exactly when some node has wrong cells or a short `reg` |
| DeviceTree.ParseWithoutMemoryNode | axruntime/src/lib.rs:72-134 | a completed scan that met no memory node with a readable `reg` reports memory address 0 and size 0 |

## Left out

- Spin locks (`spinlock/`) and the interrupt-masking lock around the run
  queue: their only purpose is mutual exclusion, and the shown raw lock takes
  no flag. `yield_now` is this lock plus a direct call of `yield_current`,
  which is modelled as `Scheduler.YieldCurrent`.
- The `Ordering::Release` of the atomic state store in `set_state`: the model
  is sequential, so memory ordering has no observable effect in it.
- The hardware context switch (`todo!()` in `switch_to`): the model reports
  the `Switching` outcome instead. `Scheduler.ReschedKeepsInv` states the
  invariant for the state after the switch has pointed the slot at the next task.
- `exit_current`: it only calls the platform's terminate and never returns.
- `Arc` reference counting, raw-pointer slot ownership and stack
  reclamation: these are memory lifetime, not behaviour. Identity is the task id.
- The saved register context (`TaskContext`), `Task::new` with stack
  allocation, and the task id allocator (`TaskId::new`): they are not part of
  the shown source. Ids are parameters.
- `is_idle`, `is_init`, `name` and the preemption flag are used but not
  declared in the shown source. They are record fields. `Task.NewCommon`
  sets the idle and preemption flags to false; that is an assumption.
- Task.NewCommon: also assumes `isInit` is false, and stores the given `id`
  although the shown `new_common` ignores its `id` parameter (the shown
  `Task` has no id field); the model keys tasks by id.
- Hardware register access: `scause::read`, `time::read` and
  `set_trap_vector_base`. The values read are parameters.
- The `TrapFrame` declaration (`context.rs`) is not part of this model. The
  frame is registers, `sepc` and `sstatus`.
- `current_time` (`Duration::from_nanos`, a library type), and all logging
  and printing.
- The device-tree walk (`DeviceTree::init`, `parse`, and their errors),
  `phys_to_virt`, and the boot sequence in `rust_main`. The walk is a given
  node list in visiting order (`DeviceTree.ParseNodes`).
- The buddy allocator wrapper and page-table code: thin wrappers over crates
  that are not shown.
- Time.TicksToNanos: overflow is the panic of a build with overflow checks.
  A release build wraps instead, which the model does not describe. The
  product fits for fewer than 2^64 / 100 ticks, about 584 years at 10 MHz.
- Trap.HandleBreakpoint: overflow of `sepc + 2` is likewise the checked-build
  panic, not the release-build wrap-around.
