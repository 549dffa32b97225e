/** The two-class round-robin scheduler as a value (zeOS/sched.c:140-191) and what
    fork, exit and set_fps do to it. */
module Scheduler {
  import opened Layout
  import opened TaskQueues

  /** The fields of a `task_struct` that outlive a system call. `dir` is the page
      directory the task uses. */
  datatype Pcb = Pcb(pid: int, dir: nat, quantum: int, nice: int, brk: nat)

  type Tasks = t: seq<Pcb> | |t| == 10 witness seq(10, _ => Pcb(0, 0, 0, 0, 0))

  datatype Sched = Sched(task: Tasks, q: Queues, cur: nat, idle: nat, quantumTicks: int)

  // ---------------------------------------------------------------------------
  // The operations
  // ---------------------------------------------------------------------------

  /** The queue sched_next_rr serves; it does not test whether the queue has a first task. */
  function NextQueue(s: Sched): QueueId
    requires s.cur < NR_TASKS
  {
    if s.task[s.cur].nice != 0 && s.q.prio != [] then Priority else Ready
  }

  predicate CanSwitch(s: Sched) {
    s.cur < NR_TASKS && s.q.Get(NextQueue(s)) != []
  }

  /** sched_next_rr: the quantum depends on the task that leaves the CPU. */
  function SchedNext(s: Sched): Sched
    requires CanSwitch(s) && s.q.Get(NextQueue(s))[0] < NR_TASKS
  {
    var id := NextQueue(s);
    var t := s.q.Get(id)[0];
    var quantum := s.task[t].quantum;
    s.(q := s.q.Set(id, s.q.Get(id)[1..]), cur := t,
       quantumTicks := if s.task[s.cur].nice == 0 then quantum else quantum * 5)
  }

  /** The class of a task decides its run queue. */
  function QueueFor(nice: int): QueueId {
    if nice != 0 then Ready else Priority
  }

  function Enqueued(q: Queues, id: QueueId, t: nat): Queues {
    q.Set(id, q.Get(id) + [t])
  }

  /** The running task goes to the back of the queue of its class. */
  function Requeue(s: Sched): Sched
    requires s.cur < NR_TASKS
  {
    s.(q := Enqueued(s.q, QueueFor(s.task[s.cur].nice), s.cur))
  }

  predicate QueuesEmpty(s: Sched) {
    s.q.ready == [] && s.q.prio == []
  }

  /** The tick makes `schedule` switch: the quantum is over and somebody waits. */
  predicate Expires(s: Sched) {
    s.quantumTicks <= 1 && !QueuesEmpty(s)
  }

  /** `schedule` takes the first task of a queue that has one. */
  predicate ScheduleOk(s: Sched) {
    s.cur < NR_TASKS && (Expires(s) ==> CanSwitch(Requeue(s)))
  }

  function Switch(s: Sched): Sched
    requires s.cur < NR_TASKS && CanSwitch(Requeue(s)) && s.q.WellQueued()
  {
    ServedSlot(s);
    SchedNext(Requeue(s))
  }

  lemma ServedSlot(s: Sched)
    requires s.cur < NR_TASKS && CanSwitch(Requeue(s)) && s.q.WellQueued()
    ensures Requeue(s).q.Get(NextQueue(Requeue(s)))[0] < NR_TASKS
  {
  }

  /** schedule */
  function Schedule(s: Sched): Sched
    requires ScheduleOk(s) && s.q.WellQueued()
  {
    if Expires(s) then Switch(s)
    else if s.quantumTicks > 1 then s.(quantumTicks := s.quantumTicks - 1)
    else s.(quantumTicks := s.task[s.cur].quantum)
  }

  // ---------------------------------------------------------------------------
  // The invariant
  // ---------------------------------------------------------------------------

  /** The ten slots are the idle task, the running task, and the three queues. */
  ghost predicate Partition(s: Sched) {
    && s.cur < NR_TASKS && s.idle < NR_TASKS && s.cur != s.idle
    && s.q.WellQueued() && !s.q.Holds(s.cur) && !s.q.Holds(s.idle)
    && forall t :: 0 <= t < NR_TASKS ==> t == s.cur || t == s.idle || s.q.Holds(t)
  }

  /** Ready tasks have nice 1, priority tasks nice 0. */
  ghost predicate Classed(s: Sched) {
    && (forall t :: t in s.q.ready && t < NR_TASKS ==> s.task[t].nice != 0)
    && (forall t :: t in s.q.prio && t < NR_TASKS ==> s.task[t].nice == 0)
  }

  ghost predicate Runnable(s: Sched, t: nat) {
    t == s.cur || t in s.q.ready || t in s.q.prio
  }

  /** Some runnable task has nice 1. */
  ghost predicate SomeLow(s: Sched) {
    exists t :: 0 <= t < NR_TASKS && Runnable(s, t) && s.task[t].nice != 0
  }

  ghost predicate Safe(s: Sched) {
    QueuesEmpty(s) || SomeLow(s)
  }

  ghost predicate SchedInv(s: Sched) {
    Partition(s) && Classed(s) && Safe(s)
  }

  lemma SomeLowIff(s: Sched)
    requires Partition(s) && Classed(s)
    ensures SomeLow(s) <==> s.task[s.cur].nice != 0 || s.q.ready != []
  {
    if s.q.ready != [] {
      var t := s.q.ready[0];
      assert t in s.q.ready && Runnable(s, t);
    } else if s.task[s.cur].nice != 0 {
      assert Runnable(s, s.cur);
    }
  }

  /** Queue safety is the inductive condition and nothing less: when the quantum runs
      out and somebody waits, `schedule` finds a task exactly when a runnable task has
      nice 1. */
  lemma SwitchFindsTaskIff(s: Sched)
    requires Partition(s) && Classed(s) && !QueuesEmpty(s)
    ensures CanSwitch(Requeue(s)) <==> SomeLow(s)
  {
    SomeLowIff(s);
  }

  /** Between the two halves of a switch nobody runs: every slot but idle is queued. */
  ghost predicate AllQueued(s: Sched) {
    && s.cur < NR_TASKS && s.idle < NR_TASKS
    && s.q.WellQueued() && !s.q.Holds(s.idle)
    && forall t :: 0 <= t < NR_TASKS ==> t == s.idle || s.q.Holds(t)
  }

  lemma EnqueueAll(s: Sched, id: QueueId)
    requires Partition(s)
    ensures AllQueued(s.(q := Enqueued(s.q, id, s.cur)))
  {
    QueuedOnceMore(s.q, id, s.q.Get(id) + [s.cur], s.cur);
  }

  lemma ServeKeeps(s: Sched)
    requires AllQueued(s) && Classed(s) && CanSwitch(s)
    ensures s.q.Get(NextQueue(s))[0] < NR_TASKS
    ensures Partition(SchedNext(s)) && Classed(SchedNext(s))
    ensures forall t: nat :: Runnable(SchedNext(s), t) <==> t in s.q.ready || t in s.q.prio
  {
    var id := NextQueue(s);
    HeadTaken(s.q, id);
  }

  lemma LowStaysRunnable(s: Sched, s': Sched)
    requires s'.task == s.task && forall t: nat :: Runnable(s', t) <==> Runnable(s, t)
    ensures SomeLow(s) ==> SomeLow(s')
  {
    if SomeLow(s) {
      var t :| 0 <= t < NR_TASKS && Runnable(s, t) && s.task[t].nice != 0;
      assert Runnable(s', t);
    }
  }

  lemma SwitchKeepsInv(s: Sched)
    requires Partition(s) && Classed(s) && SomeLow(s)
    ensures CanSwitch(Requeue(s)) && Partition(Switch(s)) && Classed(Switch(s)) && SomeLow(Switch(s))
    ensures forall t: nat :: Runnable(Switch(s), t) <==> Runnable(s, t)
  {
    SomeLowIff(s);
    EnqueueAll(s, QueueFor(s.task[s.cur].nice));
    ServeKeeps(Requeue(s));
    LowStaysRunnable(s, Switch(s));
  }

  /** A switch never dispatches the task that leaves the CPU. */
  lemma SwitchChangesTask(s: Sched)
    requires Partition(s) && Classed(s) && SomeLow(s) && !QueuesEmpty(s)
    ensures CanSwitch(Requeue(s)) && Switch(s).cur != s.cur
  {
    SomeLowIff(s);
    assert forall id: QueueId :: s.q.Get(id) != [] ==> s.q.Get(id)[0] in s.q.Get(id);
  }

  lemma ScheduleKeepsInv(s: Sched)
    requires SchedInv(s)
    ensures ScheduleOk(s) && SchedInv(Schedule(s))
    ensures forall t: nat :: Runnable(Schedule(s), t) <==> Runnable(s, t)
  {
    if Expires(s) {
      SwitchKeepsInv(s);
    } else {
      var s' := Schedule(s);
      LowStaysRunnable(s, s');
    }
  }

  // ---------------------------------------------------------------------------
  // fork, exit and set_fps
  // ---------------------------------------------------------------------------

  /** fork: the first free slot becomes a copy of the running task, in its class's queue. */
  function Spawn(s: Sched, pid: int): Sched
    requires s.cur < NR_TASKS && s.q.free != [] && s.q.free[0] < NR_TASKS
  {
    var c := s.q.free[0];
    s.(task := s.task[c := s.task[s.cur].(pid := pid, dir := c)],
       q := Enqueued(s.q.(free := s.q.free[1..]), QueueFor(s.task[s.cur].nice), c))
  }

  lemma SpawnMoves(q: Queues, id: QueueId)
    requires q.WellQueued() && q.free != [] && id != Free
    ensures q.free[0] < NR_TASKS
    ensures var q' := Enqueued(q.(free := q.free[1..]), id, q.free[0]);
            && q'.WellQueued() && (forall t: nat :: q'.Holds(t) <==> q.Holds(t))
            && (forall t: nat :: t in q'.Get(id) <==> t in q.Get(id) || t == q.free[0])
  {
    HeadTaken(q, Free);
    var r := q.(free := q.free[1..]);
    assert r == q.Set(Free, q.Get(Free)[1..]);
    QueuedOnceMore(r, id, r.Get(id) + [q.free[0]], q.free[0]);
  }

  /** A fork keeps the scheduler safe exactly when the running task has nice 1 or a
      ready task exists. */
  lemma SpawnKeepsInvIff(s: Sched, pid: int)
    requires SchedInv(s) && s.q.free != []
    ensures s.q.free[0] < NR_TASKS
    ensures Partition(Spawn(s, pid)) && Classed(Spawn(s, pid))
    ensures SchedInv(Spawn(s, pid)) <==> s.task[s.cur].nice != 0 || s.q.ready != []
    ensures forall t: nat :: Runnable(Spawn(s, pid), t) <==> Runnable(s, t) || t == s.q.free[0]
  {
    SpawnMoves(s.q, QueueFor(s.task[s.cur].nice));
    SomeLowIff(Spawn(s, pid));
  }

  /** sys_exit, from the reset of the PID on. */
  function Leave(s: Sched): Sched
    requires s.cur < NR_TASKS
  {
    s.(task := s.task[s.cur := s.task[s.cur].(pid := -1)], q := Enqueued(s.q, Free, s.cur))
  }

  function Exit(s: Sched): Sched
    requires Partition(s) && CanSwitch(Leave(s))
  {
    EnqueueAll(s, Free);
    ServedLeave(s);
    SchedNext(Leave(s))
  }

  lemma ServedLeave(s: Sched)
    requires Partition(s) && CanSwitch(Leave(s))
    ensures Leave(s).q.Get(NextQueue(Leave(s)))[0] < NR_TASKS
  {
  }

  /** exit finds a successor and leaves the scheduler safe exactly when a ready task
      exists, or the task that leaves has nice 1 and one single priority task remains. */
  lemma ExitKeepsInvIff(s: Sched)
    requires SchedInv(s)
    ensures (CanSwitch(Leave(s)) && SchedInv(Exit(s))) <==>
            s.q.ready != [] || (s.task[s.cur].nice != 0 && |s.q.prio| == 1)
    ensures CanSwitch(Leave(s)) ==> Partition(Exit(s)) && Classed(Exit(s))
    ensures CanSwitch(Leave(s)) ==> forall t: nat :: Runnable(Exit(s), t) <==> Runnable(s, t) && t != s.cur
  {
    EnqueueAll(s, Free);
    var l := Leave(s);
    if CanSwitch(l) {
      ServeKeeps(l);
      SomeLowIff(Exit(s));
    }
  }

  /** set_fps changes the class of the running task. */
  function SetNice(s: Sched, nice: int): Sched
    requires s.cur < NR_TASKS
  {
    s.(task := s.task[s.cur := s.task[s.cur].(nice := nice)])
  }

  lemma SetNiceKeepsInvIff(s: Sched, nice: int)
    requires SchedInv(s)
    ensures Partition(SetNice(s, nice)) && Classed(SetNice(s, nice))
    ensures SchedInv(SetNice(s, nice)) <==> nice != 0 || s.q.ready != [] || s.q.prio == []
    ensures forall t: nat :: Runnable(SetNice(s, nice), t) <==> Runnable(s, t)
  {
    SomeLowIff(SetNice(s, nice));
  }

  // ---------------------------------------------------------------------------
  // Bounded waiting
  // ---------------------------------------------------------------------------

  /** The scheduler after `n` switches of a fixed set of tasks. */
  ghost function AfterSwitches(s: Sched, n: nat): Sched
    requires Partition(s) && Classed(s) && SomeLow(s)
    decreases n
  {
    if n == 0 then s else
    SwitchKeepsInv(s);
    AfterSwitches(Switch(s), n - 1)
  }

  /** After how many switches the task at position `p` of a run queue gets the CPU:
      with tasks of both classes the two queues are served in turn. */
  function Wait(s: Sched, id: QueueId, p: nat): nat
    requires s.cur < NR_TASKS
  {
    var low := s.task[s.cur].nice != 0;
    if low && s.q.prio == [] then p + 1
    else if low == (id == Priority) then 2 * p + 1
    else 2 * p + 2
  }

  /** The task a switch serves is the one at position `p` of a queue only as its head. */
  lemma ServedIsHead(s: Sched, id: QueueId, p: nat)
    requires Partition(s) && CanSwitch(Requeue(s)) && id != Free && p < |s.q.Get(id)|
    ensures var id' := NextQueue(Requeue(s));
            Requeue(s).q.Get(id')[0] == s.q.Get(id)[p] ==> id' == id && p == 0
  {
    assert s.q.Get(id)[p] in s.q.Get(id);
    assert forall i: QueueId :: s.q.Get(i) != [] ==> s.q.Get(i)[0] in s.q.Get(i);
  }

  /** The class of the task that a switch dispatches. */
  lemma ServedClass(s: Sched)
    requires Partition(s) && Classed(s) && SomeLow(s) && CanSwitch(Requeue(s))
    ensures Switch(s).cur < NR_TASKS
    ensures Switch(s).task[Switch(s).cur].nice != 0 <==> NextQueue(Requeue(s)) == Ready
  {
    SomeLowIff(s);
    EnqueueAll(s, QueueFor(s.task[s.cur].nice));
    HeadTaken(Requeue(s).q, NextQueue(Requeue(s)));
  }

  /** One switch either dispatches the task or brings it one switch nearer. */
  lemma OneSwitchNearer(s: Sched, id: QueueId, p: nat) returns (p': nat)
    requires Partition(s) && Classed(s) && SomeLow(s) && CanSwitch(Requeue(s))
    requires id != Free && p < |s.q.Get(id)|
    ensures var s', t := Switch(s), s.q.Get(id)[p];
            if s'.cur == t then Wait(s, id, p) == 1
            else p' < |s'.q.Get(id)| && s'.q.Get(id)[p'] == t && s'.cur < NR_TASKS
                 && Wait(s, id, p) == 1 + Wait(s', id, p')
  {
    ServedIsHead(s, id, p);
    ServedClass(s);
    hide SomeLow, Classed, Queues.WellQueued;
    var id' := NextQueue(Requeue(s));
    p' := if id' == id && p > 0 then p - 1 else p;
  }

  /** Switch number `k` is the first to give the CPU to `t`. */
  ghost predicate FirstDispatch(s: Sched, t: nat, k: nat)
    requires Partition(s) && Classed(s) && SomeLow(s)
  {
    && 1 <= k && AfterSwitches(s, k).cur == t
    && forall m :: 1 <= m < k ==> AfterSwitches(s, m).cur != t
  }

  lemma FirstDispatchStep(s: Sched, t: nat, k: nat)
    requires Partition(s) && Classed(s) && SomeLow(s) && CanSwitch(Requeue(s))
    requires Partition(Switch(s)) && Classed(Switch(s)) && SomeLow(Switch(s))
    ensures Switch(s).cur == t ==> FirstDispatch(s, t, 1)
    ensures Switch(s).cur != t && FirstDispatch(Switch(s), t, k) ==> FirstDispatch(s, t, k + 1)
  {
    var s' := Switch(s);
    assert AfterSwitches(s, 1) == AfterSwitches(s', 0);
    forall m | 2 <= m <= k + 1 ensures AfterSwitches(s, m) == AfterSwitches(s', m - 1) {
    }
  }

  lemma {:induction false} DispatchedAt(s: Sched, id: QueueId, p: nat, t: nat, k: nat)
    requires Partition(s) && Classed(s) && SomeLow(s)
    requires id != Free && p < |s.q.Get(id)| && t == s.q.Get(id)[p] && k == Wait(s, id, p)
    ensures FirstDispatch(s, t, k)
    decreases k
  {
    hide Switch, Requeue, CanSwitch, Queues.WellQueued, Classed, SomeLow, FirstDispatch, Wait;
    SwitchKeepsInv(s);
    var s' := Switch(s);
    var p' := OneSwitchNearer(s, id, p);
    if s'.cur != t {
      DispatchedAt(s', id, p', t, k - 1);
    }
    FirstDispatchStep(s, t, k - 1);
  }

  /** Bounded waiting, in queue order: a task at position `p` of a run queue is first
      dispatched by switch number Wait, which is at most 2(p+1) and grows with `p`. */
  lemma DispatchedAfterWait(s: Sched, id: QueueId, p: nat)
    requires Partition(s) && Classed(s) && SomeLow(s)
    requires id != Free && p < |s.q.Get(id)|
    ensures FirstDispatch(s, s.q.Get(id)[p], Wait(s, id, p))
    ensures Wait(s, id, p) <= 2 * (p + 1) && forall r :: 0 <= r < p ==> Wait(s, id, r) < Wait(s, id, p)
  {
    DispatchedAt(s, id, p, s.q.Get(id)[p], Wait(s, id, p));
  }
}
