/** The whole kernel as a value: system calls and clock ticks over memory, scheduler and
    regulator together, and when each of them keeps the invariant (zeOS/sys.c). */
module SystemCalls {
  import opened Layout
  import opened Frames
  import opened Paging
  import opened AddressSpace
  import opened HeapSpace
  import opened Scheduler
  import opened Regulator

  datatype Kernel = Kernel(vm: Vm, s: Sched, fps: Fps, nextPid: int)

  const EAGAIN: int := 11
  const ENOMEM: int := 12

  function Brks(task: Tasks): Breaks {
    seq<nat>(10, i requires 0 <= i < 10 => task[i].brk)
  }

  /** The user tasks that exist: the running one and those in the run queues. */
  ghost function Live(s: Sched): set<nat> {
    set t: nat | 0 <= t < 10 && Runnable(s, t)
  }

  // ---------------------------------------------------------------------------
  // The invariant
  // ---------------------------------------------------------------------------

  /** A live task uses its own page directory. */
  ghost predicate OwnDirs(s: Sched) {
    forall t :: t in Live(s) ==> s.task[t].dir == t
  }

  /** PIDs of live tasks are positive, below the next one to be given, and unique. */
  ghost predicate UniquePids(s: Sched, nextPid: int) {
    && (forall t :: t in Live(s) ==> 0 < s.task[t].pid < nextPid)
    && (forall t, u :: t in Live(s) && u in Live(s) && s.task[t].pid == s.task[u].pid ==> t == u)
  }

  ghost predicate KInv(k: Kernel) {
    && SchedInv(k.s) && OwnDirs(k.s) && UniquePids(k.s, k.nextPid)
    && VmInv(k.vm, Live(k.s), Brks(k.s.task))
  }

  // ---------------------------------------------------------------------------
  // The system calls
  // ---------------------------------------------------------------------------

  /** The pages fork needs. */
  ghost function Needed(k: Kernel): (n: nat)
    requires KInv(k)
  {
    CurrentIsLive(k);
    assert CoveredTask(k.vm.pt[k.s.cur], k.s.task[k.s.cur].brk);
    HeapPagesMonotone(L_HEAP_START, k.s.task[k.s.cur].brk);
    NumPages(k.s.task[k.s.cur].brk)
  }

  lemma CurrentIsLive(k: Kernel)
    requires KInv(k)
    ensures k.s.cur in Live(k.s) && k.s.task[k.s.cur].dir == k.s.cur
    ensures Brks(k.s.task)[k.s.cur] == k.s.task[k.s.cur].brk
    ensures CoveredTask(k.vm.pt[k.s.cur], k.s.task[k.s.cur].brk)
  {
    assert Runnable(k.s, k.s.cur);
  }

  lemma FreeSlot(k: Kernel)
    requires KInv(k) && k.s.q.free != []
    ensures k.s.q.free[0] < NR_TASKS && k.s.q.free[0] !in Live(k.s) && k.s.q.free[0] != k.s.cur
    ensures !k.s.q.Holds(k.s.cur)
  {
    assert k.s.q.free[0] in k.s.q.free;
  }

  /** A free slot and enough frames. */
  ghost predicate ForkSucceeds(k: Kernel)
    requires KInv(k)
  {
    k.s.q.free != [] && |AllocN(k.vm.used, Needed(k))| == Needed(k)
  }

  lemma ForkIsReady(k: Kernel)
    requires KInv(k) && ForkSucceeds(k)
    ensures k.s.q.free[0] < NR_TASKS && k.s.q.free[0] !in Live(k.s)
    ensures ForkReady(k.vm, Live(k.s), Brks(k.s.task), k.s.cur, k.s.q.free[0], AllocN(k.vm.used, Needed(k)))
  {
    CurrentIsLive(k);
    var c, fr := k.s.q.free[0], AllocN(k.vm.used, Needed(k));
    assert c in k.s.q.free;
    AllocNFresh(k.vm.used, Needed(k));
    ForkBounds(k.vm, Live(k.s), Brks(k.s.task), k.s.cur, c, fr);
  }

  /** sys_fork. A fork without memory has overwritten a free task structure, no more. */
  ghost function Fork(k: Kernel): (r: (Kernel, int))
    requires KInv(k)
  {
    if k.s.q.free == [] then (k, -EAGAIN)
    else
      assert k.s.q.free[0] in k.s.q.free;
      var c := k.s.q.free[0];
      if !ForkSucceeds(k) then
        (k.(s := k.s.(task := k.s.task[c := k.s.task[k.s.cur].(dir := c)])), -ENOMEM)
      else
        ForkIsReady(k);
        var vm := ForkSpace(k.vm, k.s.cur, c, AllocN(k.vm.used, Needed(k)));
        (Kernel(vm, Spawn(k.s, k.nextPid), k.fps, k.nextPid + 1), k.nextPid)
  }

  /** The outcomes of a fork with a free slot. */
  lemma ForkOutcome(k: Kernel)
    requires KInv(k) && k.s.q.free != []
    ensures k.s.q.free[0] < NR_TASKS && k.s.q.free[0] != k.s.cur
    ensures ForkSucceeds(k) ==>
              && ForkReady(k.vm, Live(k.s), Brks(k.s.task), k.s.cur, k.s.q.free[0], AllocN(k.vm.used, Needed(k)))
              && Fork(k) == (Kernel(ForkSpace(k.vm, k.s.cur, k.s.q.free[0], AllocN(k.vm.used, Needed(k))),
                                    Spawn(k.s, k.nextPid), k.fps, k.nextPid + 1), k.nextPid)
    ensures !ForkSucceeds(k) ==>
              Fork(k) == (k.(s := k.s.(task := k.s.task[k.s.q.free[0] := k.s.task[k.s.cur].(dir := k.s.q.free[0])])), -ENOMEM)
  {
    FreeSlot(k);
    if ForkSucceeds(k) {
      ForkIsReady(k);
    }
    hide KInv, ForkReady, AllocN, Needed, Live;
  }

  /** sys_exit */
  ghost function ExitCall(k: Kernel): Kernel
    requires KInv(k) && CanSwitch(Leave(k.s))
  {
    k.(vm := Released(k.vm, k.s.cur, PAG_LOG_INIT_DATA, NumPages(k.s.task[k.s.cur].brk)), s := Exit(k.s))
  }

  /** sys_sbrk */
  ghost function SbrkCall(k: Kernel, n: int32): (r: (Kernel, int))
    requires KInv(k)
  {
    CurrentIsLive(k);
    BreakBound(k.vm, Live(k.s), Brks(k.s.task), k.s.cur);
    var o := Sbrk(k.vm, k.s.cur, k.s.task[k.s.cur].brk, n);
    (k.(vm := o.vm, s := k.s.(task := k.s.task[k.s.cur := k.s.task[k.s.cur].(brk := o.brk)])), o.ret)
  }

  /** sys_set_fps */
  function SetFpsCall(k: Kernel, fps: int): Kernel
    requires k.s.cur < NR_TASKS
  {
    k.(fps := SetFps(k.fps, fps, k.s.task[k.s.cur].pid), s := SetNice(k.s, if fps == -1 then 1 else 0))
  }

  /** clock_routine */
  function TickCall(k: Kernel): Kernel
    requires ScheduleOk(k.s) && k.s.q.WellQueued()
  {
    k.(fps := ScheduleFps(k.fps, k.s.task[k.s.cur].pid), s := Schedule(k.s))
  }

  /** The running task writes a byte on one of its data, stack or heap pages. */
  predicate CanStore(k: Kernel, addr: nat) {
    k.s.cur < NR_TASKS && OnPage(k.vm.pt[k.s.cur], addr, 1) && PAG_LOG_INIT_DATA <= addr / 0x1000
  }

  datatype Call =
    | CallFork
    | CallExit
    | CallSbrk(n: int32)
    | CallSetFps(fps: int)
    | CallPutScreen(screen: int)
    | ClockTick
    | UserStore(addr: nat, b: Byte)

  /** The call would take the first task of an empty queue. */
  predicate Stuck(k: Kernel, c: Call) {
    k.s.cur < NR_TASKS && match c
    case CallExit => !CanSwitch(Leave(k.s))
    case ClockTick => !ScheduleOk(k.s)
    case _ => false
  }

  /** One step of the kernel. */
  ghost function Apply(k: Kernel, c: Call): Kernel
    requires KInv(k) && !Stuck(k, c)
  {
    match c
    case CallFork => Fork(k).0
    case CallExit => ExitCall(k)
    case CallSbrk(n) => SbrkCall(k, n).0
    case CallSetFps(fps) => SetFpsCall(k, fps)
    case CallPutScreen(screen) => k.(fps := PutScreen(k.fps, screen, k.s.task[k.s.cur].pid).0)
    case ClockTick => TickCall(k)
    case UserStore(addr, b) => if CanStore(k, addr) then k.(vm := Written(k.vm, k.s.cur, addr, b)) else k
  }

  // ---------------------------------------------------------------------------
  // Failure is all-or-nothing
  // ---------------------------------------------------------------------------

  /** fork fails exactly when no slot is free, or the byte map has fewer free frames
      than the parent's address space needs; a failed fork leaves memory, the queues in
      their order, the live tasks and the next PID as they were. */
  lemma ForkFailsIff(k: Kernel)
    requires KInv(k)
    ensures Fork(k).1 < 0 <==> k.s.q.free == [] || |FreeSet(k.vm.used)| < Needed(k)
    ensures Fork(k).1 < 0 ==>
              && Fork(k).0.vm == k.vm && Fork(k).0.s.q == k.s.q && Fork(k).0.nextPid == k.nextPid
              && Fork(k).0.fps == k.fps && Fork(k).0.s.cur == k.s.cur && Fork(k).0.s.quantumTicks == k.s.quantumTicks
              && forall t :: 0 <= t < NR_TASKS && (t in Live(k.s) || t == k.s.idle) ==> Fork(k).0.s.task[t] == k.s.task[t]
    ensures Fork(k).1 >= 0 ==> Fork(k).1 == k.nextPid > 0 && Fork(k).0.s.task[k.s.q.free[0]].pid == Fork(k).1
  {
    CurrentIsLive(k);
    AllocNSucceedsIff(k.vm.used, Needed(k));
    if k.s.q.free != [] {
      assert k.s.q.free[0] in k.s.q.free;
    }
  }

  /** sbrk fails exactly on shrinking an empty heap, or when a growth needs more frames
      than are free; a failed sbrk changes nothing. */
  lemma SbrkFailsIff(k: Kernel, n: int32)
    requires KInv(k)
    ensures var brk := k.s.task[k.s.cur].brk;
            SbrkCall(k, n).1 == -1 <==>
              (n < 0 && brk == L_HEAP_START) || (n > 0 && |FreeSet(k.vm.used)| < SpanPages(brk, brk + n))
    ensures SbrkCall(k, n).1 == -1 ==> SbrkCall(k, n).0 == k
  {
    CurrentIsLive(k);
    BreakBound(k.vm, Live(k.s), Brks(k.s.task), k.s.cur);
    var brk := k.s.task[k.s.cur].brk;
    if n > 0 {
      SpanStartsAfterCounted(brk, brk + n);
      AllocNSucceedsIff(k.vm.used, SpanPages(brk, brk + n));
    }
    assert k.s.task[k.s.cur := k.s.task[k.s.cur].(brk := brk)] == k.s.task;
  }

  // ---------------------------------------------------------------------------
  // What every step keeps
  // ---------------------------------------------------------------------------

  /** When a step keeps the kernel invariant. */
  ghost predicate Keeps(k: Kernel, c: Call)
    requires KInv(k)
  {
    var low := k.s.task[k.s.cur].nice != 0;
    match c
    case CallFork => ForkSucceeds(k) ==> low || k.s.q.ready != []
    case CallExit => k.s.q.ready != [] || (low && |k.s.q.prio| == 1)
    case CallSbrk(n) => !Wraps(k.s.task[k.s.cur].brk, n)
    case CallSetFps(fps) => fps == -1 || k.s.q.ready != [] || k.s.q.prio == []
    case _ => true
  }

  /** A spawned task is live, with its own directory and PID, and its parent's break. */
  lemma SpawnedTask(s: Sched, pid: int)
    requires SchedInv(s) && OwnDirs(s) && UniquePids(s, pid) && s.q.free != []
    ensures s.q.free[0] < NR_TASKS
    ensures var s', c := Spawn(s, pid), s.q.free[0];
            && Live(s') == Live(s) + {c} && Brks(s'.task) == Brks(s.task)[c := Brks(s.task)[s.cur]]
            && OwnDirs(s') && UniquePids(s', pid + 1)
  {
    SpawnKeepsInvIff(s, pid);
    var s', c := Spawn(s, pid), s.q.free[0];
    assert c in s.q.free && s.cur in Live(s);
    hide SchedInv, Partition, Classed, Safe;
    assert Live(s') == Live(s) + {c};
    assert Brks(s'.task) == Brks(s.task)[c := Brks(s.task)[s.cur]];
  }

  lemma ForkSuccessKeepsIff(k: Kernel)
    requires KInv(k) && ForkSucceeds(k)
    ensures KInv(Fork(k).0) <==> Keeps(k, CallFork)
  {
    ForkOutcome(k);
    SpawnKeepsInvIff(k.s, k.nextPid);
    SpawnedTask(k.s, k.nextPid);
    ForkKeepsVmInv(k.vm, Live(k.s), Brks(k.s.task), k.s.cur, k.s.q.free[0], AllocN(k.vm.used, Needed(k)));
    hide SchedInv, VmInv, OwnDirs, UniquePids, Live, Brks, ForkReady, CanFork, ForkSpace, AllocN, Fork, Needed, Spawn;
  }

  lemma ForkKeepsIff(k: Kernel)
    requires KInv(k)
    ensures KInv(Fork(k).0) <==> Keeps(k, CallFork)
  {
    if ForkSucceeds(k) {
      ForkSuccessKeepsIff(k);
    } else if k.s.q.free != [] {
      assert k.s.q.free[0] in k.s.q.free;
      var k' := Fork(k).0;
      SameLive(k.s, k'.s);
      VmInvDepends(k.vm, Live(k.s), Brks(k.s.task), Brks(k'.s.task));
    }
  }

  /** Only the live tasks' entries of the task vector matter. */
  lemma SameLive(s: Sched, s': Sched)
    requires SchedInv(s) && s' == s.(task := s'.task)
    requires forall t :: 0 <= t < NR_TASKS && Runnable(s, t) ==> s'.task[t] == s.task[t]
    ensures Live(s') == Live(s) && SchedInv(s')
  {
    assert forall t: nat :: Runnable(s', t) <==> Runnable(s, t);
    if SomeLow(s) {
      var t :| 0 <= t < NR_TASKS && Runnable(s, t) && s.task[t].nice != 0;
      assert Runnable(s', t);
    }
    assert forall t :: t in s.q.ready && t < NR_TASKS ==> Runnable(s, t);
    assert forall t :: t in s.q.prio && t < NR_TASKS ==> Runnable(s, t);
  }

  lemma VmInvDepends(v: Vm, live: set<nat>, b: Breaks, b': Breaks)
    requires VmInv(v, live, b) && forall t :: t in live && t < NR_TASKS ==> b'[t] == b[t]
    ensures VmInv(v, live, b')
  {
  }

  lemma ExitKeepsIff(k: Kernel)
    requires KInv(k)
    ensures (CanSwitch(Leave(k.s)) && KInv(ExitCall(k))) <==> Keeps(k, CallExit)
  {
    CurrentIsLive(k);
    ExitKeepsInvIff(k.s);
    ExitKeepsVmInv(k.vm, Live(k.s), Brks(k.s.task), k.s.cur);
    if CanSwitch(Leave(k.s)) {
      var k' := ExitCall(k);
      assert Live(k'.s) == Live(k.s) - {k.s.cur};
      assert Brks(k'.s.task) == Brks(k.s.task);
    }
  }

  lemma SbrkKeepsIff(k: Kernel, n: int32)
    requires KInv(k)
    ensures KInv(SbrkCall(k, n).0) <==> Keeps(k, CallSbrk(n))
  {
    CurrentIsLive(k);
    var brks := Brks(k.s.task);
    SbrkKeepsVmInvIff(k.vm, Live(k.s), brks, k.s.cur, n);
    var o := Sbrk(k.vm, k.s.cur, brks[k.s.cur], n);
    var k' := SbrkCall(k, n).0;
    assert Brks(k'.s.task) == brks[k.s.cur := o.brk];
    OtherFields(k.s, k'.s);
  }

  /** Changing breaks leaves the scheduler's invariant alone. */
  lemma OtherFields(s: Sched, s': Sched)
    requires SchedInv(s) && s' == s.(task := s'.task)
    requires forall t :: 0 <= t < NR_TASKS ==> s'.task[t].nice == s.task[t].nice
    ensures Live(s') == Live(s) && SchedInv(s')
  {
    assert forall t: nat :: Runnable(s', t) <==> Runnable(s, t);
    if SomeLow(s) {
      var t :| 0 <= t < NR_TASKS && Runnable(s, t) && s.task[t].nice != 0;
      assert Runnable(s', t);
    }
  }

  lemma SetFpsKeepsIff(k: Kernel, fps: int)
    requires KInv(k)
    ensures KInv(SetFpsCall(k, fps)) <==> Keeps(k, CallSetFps(fps))
  {
    CurrentIsLive(k);
    var nice := if fps == -1 then 1 else 0;
    SetNiceKeepsInvIff(k.s, nice);
    var k' := SetFpsCall(k, fps);
    assert Live(k'.s) == Live(k.s);
    assert Brks(k'.s.task) == Brks(k.s.task);
  }

  lemma TickKeeps(k: Kernel)
    requires KInv(k)
    ensures ScheduleOk(k.s) && KInv(TickCall(k))
  {
    ScheduleKeepsInv(k.s);
    assert Live(TickCall(k).s) == Live(k.s);
  }

  lemma StoreKeeps(k: Kernel, addr: nat, b: Byte)
    requires KInv(k) && CanStore(k, addr)
    ensures KInv(k.(vm := Written(k.vm, k.s.cur, addr, b)))
  {
  }

  /** Each step keeps the kernel invariant, and never takes the head of a queue,
      exactly under its condition. */
  lemma StepKeepsKInvIff(k: Kernel, c: Call)
    requires KInv(k)
    ensures (!Stuck(k, c) && KInv(Apply(k, c))) <==> Keeps(k, c)
  {
    match c
    case CallFork => ForkKeepsIff(k);
    case CallExit => ExitKeepsIff(k);
    case CallSbrk(n) => SbrkKeepsIff(k, n);
    case CallSetFps(fps) => SetFpsKeepsIff(k, fps);
    case CallPutScreen(_) =>
    case ClockTick => TickKeeps(k);
    case UserStore(addr, b) =>
      if CanStore(k, addr) {
        StoreKeeps(k, addr, b);
      }
  }
}
