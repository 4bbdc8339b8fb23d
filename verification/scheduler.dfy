/** The run queue and the reschedule step (axtask/src/run_queue.rs).

    The ready queue holds task ids in FIFO order; the task records live in a
    table keyed by id; the per-hart slot names the current task. `resched`
    ends in one of three ways: it returns because the next task is the
    current one, it reaches the hardware context switch (left unimplemented
    in the kernel, so the model stops there and reports the state), or it
    panics. */
module Scheduler {
  import opened Fallible
  import opened Task

  /** `AxRunQueue`: the ready queue, head first. */
  datatype RunQueue = RunQueue(ready: seq<TaskId>)

  /** What `pick_next_task` returns, together with the queue it leaves. */
  datatype Picked = Picked(next: Option<TaskId>, rq: RunQueue)

  /** `pick_next_task`: `pop_front`. Nothing is picked exactly when the queue
      is empty, and then it stays empty; otherwise the picked task followed
      by the new queue is the old queue. */
  function PickNextTask(rq: RunQueue): (p: Picked)
    ensures p.next.None? <==> rq.ready == []
    ensures p.next.None? ==> p.rq.ready == []
    ensures p.next.Some? ==> rq.ready == [p.next.value] + p.rq.ready
  {
    if rq.ready == [] then Picked(None, rq)
    else Picked(Some(rq.ready[0]), RunQueue(rq.ready[1..]))
  }

  /** `put_prev_task`: `push_back`, whatever `preempt` says. Earlier entries
      keep their positions and `t` becomes the last entry. */
  function PutPrevTask(rq: RunQueue, t: TaskId, preempt: bool): (rq': RunQueue)
    ensures |rq'.ready| == |rq.ready| + 1
    ensures rq'.ready[..|rq.ready|] == rq.ready
    ensures rq'.ready[|rq.ready|] == t
  {
    RunQueue(rq.ready + [t])
  }

  /** Puts each of `ts` in order. */
  function PutAll(rq: RunQueue, ts: seq<TaskId>): RunQueue
    decreases |ts|
  {
    if ts == [] then rq
    else PutAll(PutPrevTask(rq, ts[0], false), ts[1..])
  }

  /** The results of `n` successive picks, and the queue they leave. */
  datatype Drained = Drained(picked: seq<Option<TaskId>>, rq: RunQueue)

  function PickMany(rq: RunQueue, n: nat): Drained
    decreases n
  {
    if n == 0 then Drained([], rq)
    else
      var p := PickNextTask(rq);
      var rest := PickMany(p.rq, n - 1);
      Drained([p.next] + rest.picked, rest.rq)
  }

  function Somes(ts: seq<TaskId>): (r: seq<Option<TaskId>>)
    ensures |r| == |ts|
    ensures forall i :: 0 <= i < |ts| ==> r[i] == Some(ts[i])
  {
    seq(|ts|, i requires 0 <= i < |ts| => Some(ts[i]))
  }

  lemma {:induction false} PutAllAppends(rq: RunQueue, ts: seq<TaskId>)
    ensures PutAll(rq, ts) == RunQueue(rq.ready + ts)
    decreases |ts|
  {
    if ts != [] {
      PutAllAppends(PutPrevTask(rq, ts[0], false), ts[1..]);
      assert rq.ready + [ts[0]] + ts[1..] == rq.ready + ts;
    }
  }

  lemma {:induction false} PickManyDrains(q: seq<TaskId>)
    ensures PickMany(RunQueue(q), |q|) == Drained(Somes(q), RunQueue([]))
    decreases |q|
  {
    if q != [] {
      PickManyDrains(q[1..]);
      assert [Some(q[0])] + Somes(q[1..]) == Somes(q);
    }
  }

  /** FIFO order: tasks put on an empty queue one after another come out of
      as many picks in exactly the order they were put, and the queue is
      empty again. */
  lemma {:induction false} FifoOrder(ts: seq<TaskId>)
    ensures PickMany(PutAll(RunQueue([]), ts), |ts|) == Drained(Somes(ts), RunQueue([]))
  {
    PutAllAppends(RunQueue([]), ts);
    assert [] + ts == ts;
    PickManyDrains(ts);
  }

  /** The tasks, the run queue and the per-hart slot. */
  datatype Sched = Sched(tasks: map<TaskId, Task>, rq: RunQueue, current: HartSlot)

  /** Every handle the kernel holds points at a live task: the slot (when
      set) and every queue entry. Rust's reference counting guarantees this;
      it is not a runtime check. */
  ghost predicate HandlesLive(s: Sched) {
    && (s.current.Points? ==> s.current.task in s.tasks)
    && forall i :: 0 <= i < |s.rq.ready| ==> s.rq.ready[i] in s.tasks
  }

  /** How a reschedule ends. */
  datatype Outcome =
    | Returned(s: Sched)                              // next task is the current one
    | Switching(s: Sched, prev: TaskId, next: TaskId) // reaches the context switch
    | Panicked(panic: Panic)

  /** `switch_to`: the next task becomes `Running` with no preemption pending;
      nothing else changes. The call returns exactly when `next` is `prev`. */
  function SwitchTo(s: Sched, prev: TaskId, next: TaskId): (o: Outcome)
    requires next in s.tasks
    ensures !o.Panicked?
    ensures o.Returned? <==> prev == next
    ensures o.Switching? ==> o.prev == prev && o.next == next
    ensures o.s.tasks.Keys == s.tasks.Keys
    ensures IsRunning(o.s.tasks[next]) && !o.s.tasks[next].preemptPending
    ensures o.s.tasks[next].(state := s.tasks[next].state,
                             preemptPending := s.tasks[next].preemptPending) == s.tasks[next]
    ensures forall id :: id in s.tasks && id != next ==> o.s.tasks[id] == s.tasks[id]
    ensures o.s.rq == s.rq && o.s.current == s.current
  {
    var t := SetState(SetPreemptPending(s.tasks[next], false), Running);
    var s' := s.(tasks := s.tasks[next := t]);
    if prev == next then Returned(s') else Switching(s', prev, next)
  }

  /** The first half of `resched`: a running `prev` becomes `Ready`, and goes
      to the back of the queue unless it is the idle task. Only `prev`'s
      state byte can change, the queue only grows at the back, and the slot
      stays as it was. */
  function Demote(s: Sched, prev: TaskId): (r: Sched)
    requires prev in s.tasks
    ensures r.tasks.Keys == s.tasks.Keys && r.current == s.current
    ensures forall id :: id in s.tasks && id != prev ==> r.tasks[id] == s.tasks[id]
    ensures r.tasks[prev].(state := s.tasks[prev].state) == s.tasks[prev]
    ensures !IsRunning(r.tasks[prev])
    ensures StateOf(r.tasks[prev]) ==
              (if IsRunning(s.tasks[prev]) then Some(Ready) else StateOf(s.tasks[prev]))
    ensures r.rq.ready == (if IsRunning(s.tasks[prev]) && !s.tasks[prev].isIdle
                           then s.rq.ready + [prev] else s.rq.ready)
  {
    var t := s.tasks[prev];
    if IsRunning(t) then
      var tasks' := s.tasks[prev := SetState(t, Ready)];
      if !t.isIdle then Sched(tasks', PutPrevTask(s.rq, prev, false), s.current)
      else Sched(tasks', s.rq, s.current)
    else s
  }

  /** `resched`. The kernel's `put_prev_task` call omits the `preempt`
      argument; `false` is passed here, which makes no difference. */
  function Resched(s: Sched): (o: Outcome)
    requires HandlesLive(s)
    ensures o.Panicked? && o.panic == CurrentUninitialized <==> s.current.Null?
  {
    match Get(s.current)
    case Fatal(p) => Panicked(p)
    case Ok(prev) =>
      var s1 := Demote(s, prev);
      var p := PickNextTask(s1.rq);
      if p.next.None? then Panicked(UnwrapNone)
      else
        assert p.next.value in s1.tasks by {
          assert s1.rq.ready[0] == p.next.value;
        }
        SwitchTo(s1.(rq := p.rq), prev, p.next.value)
  }

  /** `yield_current`: it panics on an unset slot, and a running task other
      than the idle task can always yield without a panic. */
  function YieldCurrent(s: Sched): (o: Outcome)
    requires HandlesLive(s)
    ensures o.Panicked? && o.panic == CurrentUninitialized <==> s.current.Null?
    ensures && s.current.Points?
            && IsRunning(s.tasks[s.current.task])
            && !s.tasks[s.current.task].isIdle
            ==> !o.Panicked?
  {
    Resched(s)
  }

  /** A running task that is not the idle task is re-enqueued as `Ready`, so
      the pick that follows cannot come up empty: the head of the old queue
      is switched to, or, on an empty queue, the task itself comes back. */
  lemma ReschedRunningTask(s: Sched)
    requires HandlesLive(s) && s.current.Points?
    requires var c := s.current.task; IsRunning(s.tasks[c]) && !s.tasks[c].isIdle
    ensures var c := s.current.task; var q := s.rq.ready;
      && !Resched(s).Panicked?
      && (q == [] ==> Resched(s).Returned? && Resched(s).s.rq.ready == []
                      && IsRunning(Resched(s).s.tasks[c]))
      && (q != [] && q[0] != c ==>
            && Resched(s).Switching?
            && Resched(s).next == q[0]
            && Resched(s).s.rq.ready == q[1..] + [c]
            && StateOf(Resched(s).s.tasks[c]) == Some(Ready)
            && IsRunning(Resched(s).s.tasks[q[0]]))
  {
    var c := s.current.task;
    var q := s.rq.ready;
    if q != [] {
      assert (q + [c])[1..] == q[1..] + [c];
    }
  }

  /** A running idle task becomes `Ready` but is not enqueued; a task that is
      not running is left alone. Either way the queue decides: empty means
      the `unwrap` panics, otherwise its head is next. */
  lemma ReschedNotEnqueued(s: Sched)
    requires HandlesLive(s) && s.current.Points?
    requires var c := s.current.task; !IsRunning(s.tasks[c]) || s.tasks[c].isIdle
    ensures var c := s.current.task; var q := s.rq.ready;
      && (q == [] ==> Resched(s) == Panicked(UnwrapNone))
      && (q != [] ==> !Resched(s).Panicked? && Resched(s).s.rq.ready == q[1..]
                      && Resched(s).s.tasks[q[0]].(state := s.tasks[q[0]].state,
                           preemptPending := s.tasks[q[0]].preemptPending) == s.tasks[q[0]]
                      && IsRunning(Resched(s).s.tasks[q[0]]))
      && (q != [] && q[0] != c ==>
            && Resched(s).Switching? && Resched(s).next == q[0]
            && Resched(s).s.tasks[c] ==
                 (if IsRunning(s.tasks[c]) then SetState(s.tasks[c], Ready) else s.tasks[c]))
  {
  }

  /** The only task, running and not idle, yields: no switch happens, it is
      `Running` again, the queue is empty again, and every other task record
      is as it was; its own record differs at most in the cleared
      preemption flag. */
  lemma SoleTaskYield(s: Sched)
    requires HandlesLive(s) && s.current.Points? && s.rq.ready == []
    requires var c := s.current.task; IsRunning(s.tasks[c]) && !s.tasks[c].isIdle
    ensures var c := s.current.task; var o := YieldCurrent(s);
      && o.Returned?
      && o.s.rq.ready == [] && o.s.current == s.current
      && o.s.tasks[c] == s.tasks[c].(preemptPending := false)
      && forall id :: id in s.tasks && id != c ==> id in o.s.tasks && o.s.tasks[id] == s.tasks[id]
  {
    var c := s.current.task;
    DecodeEncode(Running);
    assert Encode(Running) == s.tasks[c].state;
  }

  /** Queue entries are distinct. */
  ghost predicate Distinct(q: seq<TaskId>) {
    forall i, j :: 0 <= i < j < |q| ==> q[i] != q[j]
  }

  /** The scheduler invariant: the slot names a live task; records are keyed
      by their own id and hold a valid state byte; the queue holds distinct,
      live, `Ready`, non-idle tasks and not the current one; and only the
      current task may be `Running`. */
  ghost predicate Inv(s: Sched) {
    && HandlesLive(s)
    && s.current.Points?
    && (forall id :: id in s.tasks ==> s.tasks[id].id == id && StateOf(s.tasks[id]).Some?)
    && (forall i :: 0 <= i < |s.rq.ready| ==>
          StateOf(s.tasks[s.rq.ready[i]]) == Some(Ready) && !s.tasks[s.rq.ready[i]].isIdle)
    && Distinct(s.rq.ready)
    && s.current.task !in s.rq.ready
    && (forall id :: id in s.tasks && IsRunning(s.tasks[id]) ==> s.current == Points(id))
  }

  /** What holds between the two halves of `resched`: the invariant, except
      that no task is running and the current task may sit at the back of
      the queue. */
  ghost predicate DemotedInv(s: Sched) {
    && HandlesLive(s)
    && (forall id :: id in s.tasks ==> s.tasks[id].id == id && StateOf(s.tasks[id]).Some?)
    && (forall i :: 0 <= i < |s.rq.ready| ==>
          StateOf(s.tasks[s.rq.ready[i]]) == Some(Ready) && !s.tasks[s.rq.ready[i]].isIdle)
    && Distinct(s.rq.ready)
    && (forall id :: id in s.tasks ==> !IsRunning(s.tasks[id]))
  }

  lemma DemoteKeepsInv(s: Sched)
    requires Inv(s)
    ensures var s1 := Demote(s, s.current.task);
      && DemotedInv(s1)
      && s1.tasks.Keys == s.tasks.Keys
      && s1.current == s.current
      && (s1.rq.ready == s.rq.ready || s1.rq.ready == s.rq.ready + [s.current.task])
  {
    var c := s.current.task;
    var q := s.rq.ready;
    var s1 := Demote(s, c);
    var q1 := s1.rq.ready;
    if q1 != q {
      assert q1 == q + [c];
      forall i, j | 0 <= i < j < |q1| ensures q1[i] != q1[j] {
        if j == |q| { assert q1[i] == q[i]; }
      }
    }
  }

  lemma PickAfterDemoteKeepsInv(s1: Sched, c: TaskId)
    requires DemotedInv(s1) && s1.rq.ready != []
    requires c in s1.tasks && s1.current == Points(c)
    ensures var n := s1.rq.ready[0];
      var o := SwitchTo(s1.(rq := RunQueue(s1.rq.ready[1..])), c, n);
      Inv(o.s.(current := Points(n)))
  {
    var q1 := s1.rq.ready;
    var n := q1[0];
    var o := SwitchTo(s1.(rq := RunQueue(q1[1..])), c, n);
    assert n !in q1[1..] by {
      forall j | 0 <= j < |q1[1..]| ensures q1[1..][j] != n {
        assert q1[1..][j] == q1[j + 1];
      }
    }
    forall i | 0 <= i < |q1[1..]|
      ensures o.s.tasks[q1[1..][i]] == s1.tasks[q1[1..][i]]
    {
      assert q1[1..][i] == q1[i + 1];
    }
  }

  /** `resched` keeps the invariant: when it returns, and when it reaches
      the context switch once that switch has pointed the slot at the next
      task. The task switched to was `Ready`, never `Exited`. */
  lemma ReschedKeepsInv(s: Sched)
    requires Inv(s)
    ensures Resched(s).Returned? ==> Inv(Resched(s).s)
    ensures Resched(s).Switching? ==>
      && Inv(Resched(s).s.(current := Points(Resched(s).next)))
      && StateOf(s.tasks[Resched(s).next]) == Some(Ready)
  {
    var c := s.current.task;
    var s1 := Demote(s, c);
    DemoteKeepsInv(s);
    var o := Resched(s);
    if !o.Panicked? {
      PickAfterDemoteKeepsInv(s1, c);
      if o.Switching? {
        assert o.next == s.rq.ready[0];
      }
    }
  }
}
