/** The kernel's data structures and the code that changes them in place: the task
    vector, the linked queues, the byte map, the page tables and the regulator's globals
    (zeOS/sys.c, zeOS/sched.c). Every method is proved against SystemCalls. */
module Machine {
  import opened Layout
  import opened Frames
  import opened Paging
  import opened AddressSpace
  import opened HeapSpace
  import opened SysMemory
  import opened TaskQueues
  import opened Scheduler
  import opened Regulator
  import opened SystemCalls
  import opened Runs

  /** The scheduler after sys_fork's steps f to i on a task vector that holds the copy. */
  function Admitted(s: Sched, copied: Tasks, child: nat, pid: int): Sched
    requires child < NR_TASKS && s.q.free != []
  {
    s.(task := copied[child := copied[child].(pid := pid)],
       q := Enqueued(s.q.(free := s.q.free[1..]), QueueFor(copied[child].nice), child))
  }

  lemma AdmittedIsForked(k: Kernel, child: nat)
    requires KInv(k) && k.s.q.free != [] && child == k.s.q.free[0] && ForkSucceeds(k)
    ensures child < NR_TASKS && k.s.cur < NR_TASKS
    ensures var copied := k.s.task[child := k.s.task[k.s.cur].(dir := child)];
            Fork(k) == (Kernel(Fork(k).0.vm, Admitted(k.s, copied, child, k.nextPid), k.fps, k.nextPid + 1), k.nextPid)
  {
    ForkOutcome(k);
    hide Fork, KInv, ForkSpace, ForkReady, ForkSucceeds, AllocN, Needed, Live, Brks;
    var copied := k.s.task[child := k.s.task[k.s.cur].(dir := child)];
    assert copied[child := copied[child].(pid := k.nextPid)] == Spawn(k.s, k.nextPid).task;
  }

  class Zeos {
    const task: array<Pcb>
    const rings: TaskRings
    const physMem: array<bool>
    const pt: array<Table>
    const ram: array<Page>
    const spf: Globals
    var cur: nat
    var idle: nat
    var quantumTicks: int
    var nextPid: int

    ghost function Footprint(): set<object> {
      {this, task, physMem, pt, ram, spf} + rings.Repr()
    }

    /** The parts have their sizes and are separate objects, and the queues are linked. */
    ghost predicate Valid()
      reads this, rings, rings.Repr()
    {
      task.Length == NR_TASKS && Sized(physMem, pt, ram) && Apart() && rings.Valid()
    }

    /** No list node is one of the other objects. */
    ghost predicate Apart() {
      && this !in rings.Repr() && task !in rings.Repr() && physMem !in rings.Repr()
      && pt !in rings.Repr() && ram !in rings.Repr() && spf !in rings.Repr()
    }

    ghost function SchedView(): Sched
      requires task.Length == NR_TASKS
      reads this, task, rings
    {
      Sched(task[..], rings.view, cur, idle, quantumTicks)
    }

    ghost function View(): Kernel
      requires task.Length == NR_TASKS && Sized(physMem, pt, ram)
      reads this, task, rings, physMem, pt, ram, spf
    {
      Kernel(VmOf(physMem, pt, ram), SchedView(), spf.View(), nextPid)
    }

    /** The static data of the kernel, then main. Memory holds whatever it holds. */
    constructor (mem: array<Page>)
      requires mem.Length == TOTAL_PAGES
      ensures Valid() && View() == Boot(mem[..]) && KInv(View())
    {
      task := new Pcb[10](_ => Pcb(0, 0, 0, 0, 0));
      physMem := new bool[1024];
      pt := new Table[10];
      ram := mem;
      var r := new TaskRings();
      rings := r;
      spf := new Globals();
      cur, idle, quantumTicks, nextPid := 0, 0, -1, 2;
      new;
      hide TaskRings.Valid, KInv, Boot;
      assert Apart();
      rings.InitQueues();
      BootKernel();
    }

    /** main, from init_mm to init_task1 */
    method BootKernel()
      requires Valid() && rings.view == Queues([9, 8, 7, 6, 5, 4, 3, 2, 1, 0], [], [])
      requires forall t :: 0 <= t < NR_TASKS ==> task[t] == Pcb(0, 0, 0, 0, 0)
      requires quantumTicks == -1 && nextPid == 2 && spf.View() == Fps(0, -1, -1, 0, 0, 0, [])
      modifies this`cur, this`idle, task, rings.Repr(), physMem, pt
      ensures Valid() && View() == Boot(ram[..]) && KInv(View())
    {
      hide TaskRings.Valid, KInv;
      ghost var all := rings.view.free;
      assert all[1..] == [8] + BOOT_FREE && all[1..][1..] == BOOT_FREE;
      InitMm();
      InitIdle();
      InitTask1();
      BootEstablishes(ram[..]);
      assert task[..] == BootTasks();
      assert physMem[..] == BootVm(ram[..]).used;
      assert pt[8] == BootTable(8);
      assert pt[..] == BootVm(ram[..]).pt;
    }

    /** init_mm, without the hardware */
    method InitMm()
      requires physMem.Length == TOTAL_PAGES && pt.Length == NR_TASKS
      modifies physMem, pt
      ensures BootMap(physMem[..], 0) && forall s :: 0 <= s < NR_TASKS ==> pt[s] == KernelTable()
    {
      InitTablePages(pt);
      InitFrames(physMem);
    }

    /** init_idle */
    method InitIdle()
      requires Valid() && rings.view.free != []
      modifies this`idle, task, rings.Repr()
      ensures Valid() && idle == old(rings.view.free[0])
      ensures rings.view == old(rings.view).(free := old(rings.view.free[1..])) && !rings.view.Holds(idle)
      ensures task[..] == old(task[..])[idle := old(task[..])[idle].(pid := 0, dir := idle)]
    {
      hide TaskRings.Valid;
      var t := rings.TakeFirst(Free);
      task[t] := task[t].(pid := 0);
      task[t] := task[t].(dir := t);
      idle := t;
    }

    /** init_task1 */
    method InitTask1()
      requires Valid() && rings.view.free != []
      requires BootMap(physMem[..], 0) && forall s :: 0 <= s < NR_TASKS ==> pt[s] == KernelTable()
      modifies this`cur, task, rings.Repr(), physMem, pt
      ensures Valid() && cur == old(rings.view.free[0])
      ensures rings.view == old(rings.view).(free := old(rings.view.free[1..])) && !rings.view.Holds(cur)
      ensures task[..] == old(task[..])[cur := Pcb(1, cur, 3, 1, L_HEAP_START)]
      ensures BootMap(physMem[..], 28)
      ensures forall s :: 0 <= s < NR_TASKS && s != cur ==> pt[s] == KernelTable()
      ensures forall p :: 0 <= p < TOTAL_PAGES ==> pt[cur][p] == FirstEntry(p)
    {
      hide TaskRings.Valid;
      cur := rings.TakeFirst(Free);
      FillTask1(cur);
      SetUserPages(physMem, pt, task[cur].dir);
    }

    method FillTask1(t: nat)
      requires task.Length == NR_TASKS && t < NR_TASKS
      modifies task
      ensures task[..] == old(task[..])[t := Pcb(1, t, 3, 1, L_HEAP_START)]
    {
      task[t] := task[t].(pid := 1);
      task[t] := task[t].(brk := L_HEAP_START);
      task[t] := task[t].(quantum := 3);
      task[t] := task[t].(nice := 1);
      task[t] := task[t].(dir := t);
    }

    /** sched_next_rr; task_switch makes the chosen task the current one. */
    method SchedNextRr()
      requires Valid() && cur < NR_TASKS && CanSwitch(SchedView())
      requires SchedView().q.Get(NextQueue(SchedView()))[0] < NR_TASKS
      modifies this, rings.Repr()
      ensures Valid() && SchedView() == SchedNext(old(SchedView()))
      ensures nextPid == old(nextPid)
    {
      hide TaskRings.Valid;
      ghost var s := SchedView();
      var nice := task[cur].nice;
      var t: nat;
      if nice != 0 {
        var empty := rings.IsEmpty(Priority);
        if empty {
          t := rings.TakeFirst(Ready);
        } else {
          t := rings.TakeFirst(Priority);
        }
      } else {
        t := rings.TakeFirst(Ready);
      }
      var finalQuantum := task[t].quantum;
      quantumTicks := if nice == 0 then finalQuantum else finalQuantum * 5;
      cur := t;
    }

    /** needs_sched_rr */
    method NeedsSchedRr() returns (need: bool)
      requires Valid() && cur < NR_TASKS
      modifies this`quantumTicks
      ensures need <==> old(quantumTicks) <= 0 && !QueuesEmpty(old(SchedView()))
      ensures quantumTicks == if old(quantumTicks) <= 0 && !need then task[cur].quantum else old(quantumTicks)
    {
      if quantumTicks > 0 {
        return false;
      }
      var noReady := rings.IsEmpty(Ready);
      var noPriority := rings.IsEmpty(Priority);
      if noReady && noPriority {
        quantumTicks := task[cur].quantum;
        return false;
      }
      return true;
    }

    /** The queue of its class takes the running task back. */
    method RequeueCurrent()
      requires Valid() && cur < NR_TASKS && !rings.view.Holds(cur)
      modifies rings.Repr()
      ensures Valid() && SchedView() == Requeue(old(SchedView()))
    {
      hide TaskRings.Valid;
      assert rings.view.Without(cur) == rings.view;
      if task[cur].nice != 0 {
        rings.UpdateProcessState(cur, To(Ready));
      } else {
        rings.UpdateProcessState(cur, To(Priority));
      }
    }

    /** schedule */
    method Schedule()
      requires Valid() && SchedInv(SchedView())
      modifies this, rings.Repr()
      ensures Valid() && nextPid == old(nextPid)
      ensures ScheduleOk(old(SchedView())) && SchedView() == Scheduler.Schedule(old(SchedView()))
    {
      hide TaskRings.Valid;
      ghost var s := SchedView();
      ScheduleKeepsInv(s);
      quantumTicks := quantumTicks - 1;
      var need := NeedsSchedRr();
      if need {
        RequeueCurrent();
        ServedSlot(s);
        SchedNextRr();
      }
    }

    /** clock_routine */
    method ClockRoutine()
      requires Valid() && KInv(View())
      modifies Footprint()
      ensures Valid() && ScheduleOk(old(View()).s) && View() == TickCall(old(View()))
    {
      hide TaskRings.Valid;
      spf.TickFps(task[cur].pid);
      Schedule();
    }

    /** fork, steps a to c: the first free slot takes a copy of the running task's
        structure, links and all, and its own page directory. */
    method CopyTask() returns (child: nat)
      requires Valid() && cur < NR_TASKS && !rings.view.Holds(cur) && rings.view.free != []
      modifies task, rings.Repr()
      ensures Valid() && child == old(rings.view.free[0]) && child < NR_TASKS
      ensures rings.view == old(rings.view).(free := old(rings.view.free[1..])) && !rings.view.Holds(child)
      ensures task[..] == old(task[..])[child := old(task[..])[cur].(dir := child)]
    {
      hide TaskRings.Valid;
      child := rings.TakeFirst(Free);
      task[child] := task[cur];
      rings.CopyLinks(cur, child);
      task[child] := task[child].(dir := child);
    }

    /** fork, steps f to i: the child gets its PID and enters the queue of its class. */
    method AdmitChild(child: nat) returns (pid: int)
      requires Valid() && child < NR_TASKS && !rings.view.Holds(child)
      modifies this`nextPid, task, rings.Repr()
      ensures Valid() && pid == old(nextPid) && nextPid == pid + 1
      ensures task[..] == old(task[..])[child := old(task[..])[child].(pid := pid)]
      ensures rings.view == Enqueued(old(rings.view), QueueFor(old(task[..])[child].nice), child)
    {
      hide TaskRings.Valid;
      pid := nextPid;
      nextPid := nextPid + 1;
      task[child] := task[child].(pid := pid);
      if task[child].nice != 0 {
        rings.Append(Ready, child);
      } else {
        rings.Append(Priority, child);
      }
    }

    /** sys_fork */
    method SysFork() returns (ret: int)
      requires Valid() && KInv(View())
      modifies Footprint()
      ensures Valid() && (View(), ret) == Fork(old(View()))
    {
      hide TaskRings.Valid;
      var none := rings.IsEmpty(Free);
      if none {
        return -EAGAIN;
      }
      ret := ForkIntoSlot(View());
    }

    /** sys_fork once a free slot is known to exist */
    method ForkIntoSlot(ghost k: Kernel) returns (ret: int)
      requires Valid() && KInv(k) && View() == k && k.s.q.free != []
      modifies Footprint()
      ensures Valid() && (View(), ret) == Fork(k)
    {
      hide TaskRings.Valid;
      FreeSlot(k);
      hide KInv, Fork, ForkSucceeds, Queues.Holds;
      var child := CopyTask();
      var ok := ForkSpaceFor(child, k);
      if !ok {
        ret := ForkGiveUp(child, k);
        return;
      }
      ret := ForkAdmit(child, k);
    }

    /** sys_fork, steps d and e, through the page directories of the two tasks. */
    method ForkSpaceFor(child: nat, ghost k: Kernel) returns (ok: bool)
      requires task.Length == NR_TASKS && Sized(physMem, pt, ram) && cur == k.s.cur
      requires KInv(k) && k.s.q.free != [] && child == k.s.q.free[0] && VmOf(physMem, pt, ram) == k.vm
      requires cur < NR_TASKS && child < NR_TASKS && task[cur] == k.s.task[cur] && task[child].dir == child
      modifies physMem, pt, ram
      ensures ok <==> ForkSucceeds(k)
      ensures VmOf(physMem, pt, ram) == Fork(k).0.vm
    {
      CurrentIsLive(k);
      FreeSlot(k);
      ForkOutcome(k);
      hide Fork, Live, VmInv, SchedInv, OwnDirs, UniquePids, CoveredTask, ForkReady, CanFork, ForkSpace, AllocN, NumPages;
      ok := ForkMemory(physMem, pt, ram, task[cur].dir, task[child].dir, task[cur].brk, Live(k.s), Brks(k.s.task));
    }

    /** What sys_fork has done when it knows whether it has memory. */
    ghost predicate ForkReached(child: nat, ok: bool, k: Kernel)
      requires task.Length == NR_TASKS && Sized(physMem, pt, ram) && KInv(k)
      reads this, task, rings, physMem, pt, ram, spf
    {
      && k.s.q.free != [] && child == k.s.q.free[0] && child < NR_TASKS && k.s.cur < NR_TASKS
      && (ok <==> ForkSucceeds(k)) && VmOf(physMem, pt, ram) == Fork(k).0.vm && spf.View() == k.fps
      && !rings.view.Holds(child) && rings.view == k.s.q.(free := k.s.q.free[1..]) && nextPid == k.nextPid
      && SchedView() == k.s.(q := rings.view, task := k.s.task[child := k.s.task[k.s.cur].(dir := child)])
    }

    /** sys_fork, steps f to j. */
    method ForkAdmit(child: nat, ghost k: Kernel) returns (ret: int)
      requires Valid() && KInv(k) && ForkReached(child, true, k)
      modifies this`nextPid, task, rings.Repr()
      ensures Valid() && (View(), ret) == Fork(k)
    {
      hide TaskRings.Valid;
      ghost var fork := Fork(k);
      AdmittedIsForked(k, child);
      hide Fork, KInv, ForkSucceeds, Queues.Holds, Spawn;
      ret := AdmitChild(child);
      ghost var copied := k.s.task[child := k.s.task[k.s.cur].(dir := child)];
      assert View() == Kernel(fork.0.vm, Admitted(k.s, copied, child, k.nextPid), k.fps, k.nextPid + 1);
    }

    /** sys_fork without memory: the slot goes back to the front of the free queue. */
    method ForkGiveUp(child: nat, ghost k: Kernel) returns (ret: int)
      requires Valid() && KInv(k) && ForkReached(child, false, k)
      modifies rings.Repr()
      ensures Valid() && (View(), ret) == Fork(k)
    {
      hide TaskRings.Valid;
      ForkOutcome(k);
      hide Fork, KInv, ForkSpace, ForkReady, ForkSucceeds, AllocN, Queues.Holds, Needed, Live, Brks;
      rings.Push(Free, child);
      assert [child] + k.s.q.free[1..] == k.s.q.free;
      assert rings.view == k.s.q;
      ret := -ENOMEM;
    }

    /** sys_exit */
    method SysExit()
      requires Valid() && KInv(View()) && CanSwitch(Leave(View().s))
      modifies Footprint()
      ensures Valid() && View() == ExitCall(old(View()))
    {
      hide TaskRings.Valid;
      ghost var k := View();
      CurrentIsLive(k);
      ServedLeave(k.s);
      hide VmInv, SchedInv, OwnDirs, UniquePids, CoveredTask, NumPages, Released, Queues.WellQueued;
      ExitMemory(physMem, pt, ram, task[cur].dir, task[cur].brk, Live(k.s), Brks(k.s.task));
      LeaveTask();
      SchedNextRr();
    }

    /** exit, the task structure: no PID, and back among the free ones. */
    method LeaveTask()
      requires Valid() && cur < NR_TASKS && !rings.view.Holds(cur)
      modifies task, rings.Repr()
      ensures Valid() && SchedView() == Leave(old(SchedView()))
    {
      hide TaskRings.Valid;
      task[cur] := task[cur].(pid := -1);
      assert rings.view.Without(cur) == rings.view;
      rings.UpdateProcessState(cur, To(Free));
    }

    /** sys_sbrk */
    method SysSbrk(n: int32) returns (ret: int)
      requires Valid() && KInv(View())
      modifies Footprint()
      ensures Valid() && (View(), ret) == SbrkCall(old(View()), n)
    {
      hide TaskRings.Valid;
      ghost var k := View();
      CurrentIsLive(k);
      var brk: nat;
      brk, ret := SbrkMemory(physMem, pt, ram, task[cur].dir, task[cur].brk, n, Live(k.s), Brks(k.s.task));
      task[cur] := task[cur].(brk := brk);
    }

    /** sys_set_fps */
    method SysSetFps(fps: int) returns (ret: int)
      requires Valid() && cur < NR_TASKS
      modifies Footprint()
      ensures Valid() && View() == SetFpsCall(old(View()), fps) && ret == 1
    {
      hide TaskRings.Valid;
      task[cur] := task[cur].(nice := if fps == -1 then 1 else 0);
      ret := spf.SysSetFps(fps, task[cur].pid);
    }

    /** sys_put_screen */
    method SysPutScreen(screen: int) returns (ret: int)
      requires Valid() && cur < NR_TASKS
      modifies Footprint()
      ensures Valid()
      ensures var (fps, r) := PutScreen(old(View()).fps, screen, old(task[cur].pid));
              View() == old(View()).(fps := fps) && ret == r
    {
      hide TaskRings.Valid;
      ret := spf.SysPutScreen(screen, task[cur].pid);
    }

    /** The running process stores a byte through its page directory. */
    method Store(addr: nat, b: Byte)
      requires Valid() && KInv(View())
      modifies ram
      ensures Valid() && View() == Apply(old(View()), UserStore(addr, b))
    {
      ghost var k := View();
      CurrentIsLive(k);
      var d := task[cur].dir;
      if OnPage(pt[d], addr, 1) && PAG_LOG_INIT_DATA <= addr / 0x1000 {
        var f := FrameOf(pt[d], addr);
        ram[f] := Spliced(ram[f], addr % 0x1000, [b]);
      }
    }

    /** One step of a run, on the structures. */
    method Perform(c: Call)
      requires Valid() && KInv(View()) && Keeps(View(), c) && !Stuck(View(), c)
      modifies Footprint()
      ensures Valid() && View() == Apply(old(View()), c) && KInv(View())
    {
      CurrentIsLive(View());
      StepKeepsKInvIff(View(), c);
      hide Valid, KInv, Keeps, VmInv, CoveredTask;
      match c {
        case CallFork => var _ := SysFork();
        case CallExit => SysExit();
        case CallSbrk(n) => var _ := SysSbrk(n);
        case CallSetFps(fps) => var _ := SysSetFps(fps);
        case CallPutScreen(screen) => var _ := SysPutScreen(screen);
        case ClockTick => ClockRoutine();
        case UserStore(addr, b) => Store(addr, b);
      }
    }

    /** Every run: on the linked queues, the arrays and the task vector the calls lead
        through the states of the run, and all of its invariant holds there. */
    method PerformAll(cs: seq<Call>, ghost ks: seq<Kernel>)
      requires Valid() && Trace(ks, cs) && View() == ks[0]
      modifies Footprint()
      ensures Valid() && View() == ks[|cs|] && KInv(View())
    {
      hide Valid, KInv, Apply;
      for i := 0 to |cs|
        invariant Valid() && View() == ks[i]
      {
        InvariantInEveryRun(ks, cs, i);
        assert StepOf(ks[i], cs[i], ks[i + 1]);
        Perform(cs[i]);
      }
      InvariantInEveryRun(ks, cs, |cs|);
    }
  }
}
