/** What holds in every run of the kernel from boot. */
module Runs {
  import opened Layout
  import opened Frames
  import opened Paging
  import opened AddressSpace
  import opened HeapSpace
  import opened Conservation
  import opened TaskQueues
  import opened Scheduler
  import opened Regulator
  import opened SystemCalls

  // ---------------------------------------------------------------------------
  // Boot
  // ---------------------------------------------------------------------------

  const BOOT_FREE: seq<nat> := [7, 6, 5, 4, 3, 2, 1, 0]

  /** An entry of the first process's page table. */
  function FirstEntry(p: nat): Entry
    requires p < TOTAL_PAGES
  {
    if PAG_LOG_INIT_CODE <= p < HEAP_FIRST_PAGE then Entry(true, CodeFrame(p)) else KernelTable()[p]
  }

  function BootTable(s: nat): Table {
    if s == 8 then seq<Entry>(1024, p requires 0 <= p < 1024 => FirstEntry(p)) else KernelTable()
  }

  /** init_mm and set_user_pages, for the task in slot 8. */
  function BootVm(ram: Ram): Vm {
    Vm(seq(1024, f requires 0 <= f < 1024 => f < NUM_PAG_KERNEL || (f < 312 && f % 2 == 0)),
       seq<Table>(10, s requires 0 <= s < 10 => BootTable(s)),
       ram)
  }

  /** The task vector after init_idle and init_task1, which take slots 9 and 8. */
  function BootTasks(): Tasks {
    seq(10, t requires 0 <= t < 10 =>
      if t == 8 then Pcb(1, 8, 3, 1, L_HEAP_START) else if t == 9 then Pcb(0, 9, 0, 0, 0) else Pcb(0, 0, 0, 0, 0))
  }

  function BootSched(): Sched {
    Sched(BootTasks(), Queues(BOOT_FREE, [], []), 8, 9, -1)
  }

  /** The kernel as main leaves it. */
  function Boot(ram: Ram): Kernel {
    Kernel(BootVm(ram), BootSched(), Fps(0, -1, -1, 0, 0, 0, []), 2)
  }

  lemma BootSchedInv()
    ensures SchedInv(BootSched()) && Live(BootSched()) == {8}
  {
    var s := BootSched();
    assert forall t: nat :: t in s.q.free <==> t < 8;
    assert forall i :: 0 <= i < 8 ==> s.q.free[i] == 7 - i;
    assert forall t: nat :: Runnable(s, t) <==> t == 8;
  }

  lemma BootTables(ram: Ram)
    ensures var v := BootVm(ram);
            && (forall s :: 0 <= s < NR_TASKS ==> v.pt[s] == BootTable(s))
            && CoveredTask(v.pt[8], L_HEAP_START) && NumPages(L_HEAP_START) == 20
            && ExactTable(v.pt[8], 20) && forall s :: 0 <= s < NR_TASKS && s != 8 ==> ExactTable(v.pt[s], 0)
    ensures WellMapped(BootVm(ram)) && Exclusive(BootVm(ram)) && KernelPages(BootVm(ram))
  {
    var v := BootVm(ram);
    assert forall s :: 0 <= s < NR_TASKS ==> v.pt[s] == BootTable(s);
    assert forall s, p :: UserPage(s, p) && v.pt[s][p].present ==> s == 8 && p < HEAP_FIRST_PAGE && v.pt[s][p].frame == CodeFrame(p);
  }

  lemma BootFrames(ram: Ram)
    ensures FixedFrames(BootVm(ram)) && NoLeak(BootVm(ram))
  {
    var v := BootVm(ram);
    forall f | PoolFrame(f) && v.used[f] ensures Held(v, f) {
      var p := 128 + f / 2;
      assert CodeFrame(p) == f && v.pt[8] == BootTable(8);
      assert HeldBy(v, 8, p, f);
    }
  }

  lemma BootVmInv(ram: Ram)
    ensures VmInv(BootVm(ram), {8}, Brks(BootTasks())) && Exact(BootVm(ram), {8}, Brks(BootTasks()))
  {
    var v, b := BootVm(ram), Brks(BootTasks());
    BootTables(ram);
    BootFrames(ram);
    assert b[8] == L_HEAP_START;
    hide WellMapped, Exclusive, KernelPages, FixedFrames, NoLeak, ExactTable, CoveredTask;
  }

  /** Boot establishes the invariant, and exact frame accounting. */
  lemma BootEstablishes(ram: Ram)
    ensures KInv(Boot(ram)) && Exact(Boot(ram).vm, Live(Boot(ram).s), Brks(Boot(ram).s.task))
  {
    BootSchedInv();
    BootVmInv(ram);
  }

  // ---------------------------------------------------------------------------
  // Runs
  // ---------------------------------------------------------------------------

  /** `ks` are the states of a run that performs the calls `cs`. */
  ghost predicate Trace(ks: seq<Kernel>, cs: seq<Call>) {
    && |ks| == |cs| + 1
    && (exists ram: Ram :: ks[0] == Boot(ram))
    && forall i :: 0 <= i < |cs| ==> StepOf(ks[i], cs[i], ks[i + 1])
  }

  /** One step of a run, taken under its condition. */
  ghost predicate StepOf(k: Kernel, c: Call, k': Kernel) {
    KInv(k) ==> Keeps(k, c) && !Stuck(k, c) && k' == Apply(k, c)
  }

  /** In every run the whole invariant holds after every step: the slots are partitioned
      among idle, the running task and the queues, queue heads are never taken, memory is
      isolated and covered, PIDs are unique. */
  lemma {:induction false} InvariantInEveryRun(ks: seq<Kernel>, cs: seq<Call>, i: nat)
    requires Trace(ks, cs) && i <= |cs|
    ensures KInv(ks[i])
  {
    if i == 0 {
      var ram: Ram :| ks[0] == Boot(ram);
      BootEstablishes(ram);
    } else {
      InvariantInEveryRun(ks, cs, i - 1);
      assert StepOf(ks[i - 1], cs[i - 1], ks[i]);
      StepKeepsKInvIff(ks[i - 1], cs[i - 1]);
    }
  }

  /** No task comes to life but by fork, and only exit and the tick change the current
      one, to a task that was waiting. */
  lemma WhoIsLive(k: Kernel, c: Call, t: nat)
    requires KInv(k) && Keeps(k, c) && !Stuck(k, c)
    ensures t in Live(Apply(k, c).s) ==> t in Live(k.s) || (c.CallFork? && ForkSucceeds(k) && t == k.s.q.free[0])
    ensures Apply(k, c).s.cur in Live(k.s)
    ensures !c.CallExit? && !c.ClockTick? ==> Apply(k, c).s.cur == k.s.cur
    ensures c.CallExit? ==> k.s.cur !in Live(Apply(k, c).s)
  {
    CurrentIsLive(k);
    StepKeepsKInvIff(k, c);
    assert Runnable(Apply(k, c).s, Apply(k, c).s.cur);
    match c
    case CallFork =>
      if k.s.q.free != [] {
        ForkOutcome(k);
        SpawnKeepsInvIff(k.s, k.nextPid);
      }
    case CallExit => ExitKeepsInvIff(k.s);
    case CallSetFps(fps) => SetNiceKeepsInvIff(k.s, if fps == -1 then 1 else 0);
    case ClockTick => ScheduleKeepsInv(k.s);
    case _ =>
  }

  /** In every run each table maps the kernel's pages 1 to 255 onto themselves and leaves
      page 0, and with it NULL, unmapped; a live task has the code in the frames 256, 258,
      ... 270. */
  lemma FixedPagesInEveryRun(ks: seq<Kernel>, cs: seq<Call>, i: nat, t: nat, p: nat)
    requires Trace(ks, cs) && i <= |cs| && t < NR_TASKS
    ensures !ks[i].vm.pt[t][0].present
    ensures 1 <= p < 256 ==> ks[i].vm.pt[t][p].present && ks[i].vm.pt[t][p].frame == p
    ensures t in Live(ks[i].s) && 256 <= p < 264 ==>
              ks[i].vm.pt[t][p].present && ks[i].vm.pt[t][p].frame == 256 + 2 * (p - 256)
  {
    InvariantInEveryRun(ks, cs, i);
    var table := ks[i].vm.pt[t];
    assert table[0] == KernelTable()[0];
    if p < 256 {
      assert table[p] == KernelTable()[p];
    } else if t in Live(ks[i].s) && p < 264 {
      assert table[p] == Entry(true, CodeFrame(p));
    }
  }

  // ---------------------------------------------------------------------------
  // Isolation
  // ---------------------------------------------------------------------------

  /** Whatever the running task does, no other live task reads anything else than before. */
  lemma OthersReadTheSame(k: Kernel, c: Call, t: nat, addr: nat)
    requires KInv(k) && !Stuck(k, c) && t in Live(k.s) && t != k.s.cur && OnPage(k.vm.pt[t], addr, 1)
    ensures var k' := Apply(k, c);
            OnPage(k'.vm.pt[t], addr, 1) && Read(k'.vm, t, addr) == Read(k.vm, t, addr)
  {
    CurrentIsLive(k);
    match c
    case CallFork =>
      if ForkSucceeds(k) {
        ForkIsReady(k);
        ForkSparesOthers(k.vm, Live(k.s), Brks(k.s.task), k.s.cur, k.s.q.free[0], AllocN(k.vm.used, Needed(k)), addr, t);
      } else if k.s.q.free != [] {
        assert k.s.q.free[0] in k.s.q.free;
      }
    case CallSbrk(n) =>
      SbrkKeepsContents(k.vm, Live(k.s), Brks(k.s.task), k.s.cur, n, addr);
    case UserStore(at, b) =>
      if CanStore(k, at) {
        WriteIsPrivate(k.vm, Live(k.s), Brks(k.s.task), k.s.cur, at, b, t, addr);
      }
    case _ =>
  }

  lemma StepsKeepOthersLive(k: Kernel, c: Call, t: nat)
    requires KInv(k) && Keeps(k, c) && !Stuck(k, c) && t in Live(k.s) && t != k.s.cur
    ensures t in Live(Apply(k, c).s)
  {
    match c
    case CallFork =>
      if ForkSucceeds(k) {
        SpawnKeepsInvIff(k.s, k.nextPid);
      } else if k.s.q.free != [] {
        assert k.s.q.free[0] in k.s.q.free;
        assert Runnable(Apply(k, c).s, t);
      }
    case CallExit => ExitKeepsInvIff(k.s);
    case CallSetFps(fps) => SetNiceKeepsInvIff(k.s, if fps == -1 then 1 else 0);
    case ClockTick => ScheduleKeepsInv(k.s);
    case _ => assert Runnable(Apply(k, c).s, t);
  }

  /** Isolation over runs: while a task does not run, nothing it can read changes. */
  lemma {:induction false} NothingChangesWhileWaiting(ks: seq<Kernel>, cs: seq<Call>, i: nat, j: nat, t: nat, addr: nat)
    requires Trace(ks, cs) && i <= j <= |cs| && t < NR_TASKS
    requires t in Live(ks[i].s) && OnPage(ks[i].vm.pt[t], addr, 1)
    requires forall m :: i <= m < j ==> ks[m].s.cur != t
    ensures t in Live(ks[j].s) && OnPage(ks[j].vm.pt[t], addr, 1)
    ensures Read(ks[j].vm, t, addr) == Read(ks[i].vm, t, addr)
  {
    if i < j {
      NothingChangesWhileWaiting(ks, cs, i, j - 1, t, addr);
      InvariantInEveryRun(ks, cs, j - 1);
      assert StepOf(ks[j - 1], cs[j - 1], ks[j]);
      OthersReadTheSame(ks[j - 1], cs[j - 1], t, addr);
      StepsKeepOthersLive(ks[j - 1], cs[j - 1], t);
    }
  }

  /** A successful fork in a run: on every counted page the child reads what its parent
      reads, and the parent what it read before. */
  lemma ForkCopiesMemory(k: Kernel, addr: nat)
    requires KInv(k) && ForkSucceeds(k) && Counted(k.s.task[k.s.cur].brk, addr)
    ensures var k', p, c := Fork(k).0, k.s.cur, k.s.q.free[0];
            && c < NR_TASKS && k'.s.task[c].dir == c && k'.s.task[c].brk == k.s.task[p].brk
            && OnPage(k.vm.pt[p], addr, 1) && OnPage(k'.vm.pt[p], addr, 1) && OnPage(k'.vm.pt[c], addr, 1)
            && Read(k'.vm, c, addr) == Read(k'.vm, p, addr) == Read(k.vm, p, addr)
  {
    CurrentIsLive(k);
    ForkIsReady(k);
    ForkCopies(k.vm, Live(k.s), Brks(k.s.task), k.s.cur, k.s.q.free[0], AllocN(k.vm.used, Needed(k)), addr);
  }

  // ---------------------------------------------------------------------------
  // Conservation of frames
  // ---------------------------------------------------------------------------

  ghost predicate ExactKernel(k: Kernel) {
    Exact(k.vm, Live(k.s), Brks(k.s.task))
  }

  /** The step is an sbrk that grows the heap to end exactly on a page boundary, and
      there are frames for it. */
  ghost predicate GrowsToBoundary(k: Kernel, c: Call)
    requires KInv(k)
  {
    c.CallSbrk? && EndsOnBoundary(k.vm, k.s.task[k.s.cur].brk, c.n)
  }

  lemma SbrkKeepsExactKernelIff(k: Kernel, n: int32)
    requires KInv(k) && Keeps(k, CallSbrk(n)) && ExactKernel(k)
    ensures ExactKernel(SbrkCall(k, n).0) <==> !GrowsToBoundary(k, CallSbrk(n))
  {
    CurrentIsLive(k);
    var brks := Brks(k.s.task);
    BreakBound(k.vm, Live(k.s), brks, k.s.cur);
    SbrkKeepsExactIff(k.vm, Live(k.s), brks, k.s.cur, n);
    var o := Sbrk(k.vm, k.s.cur, brks[k.s.cur], n);
    var k' := SbrkCall(k, n).0;
    assert Brks(k'.s.task) == brks[k.s.cur := o.brk];
    OtherFields(k.s, k'.s);
    hide Exact, SchedInv, Live, Sbrk;
  }

  lemma ForkKeepsExactKernel(k: Kernel)
    requires KInv(k) && ExactKernel(k)
    ensures ExactKernel(Fork(k).0)
  {
    if ForkSucceeds(k) {
      ForkOutcome(k);
      SpawnedTask(k.s, k.nextPid);
      ForkKeepsExact(k.vm, Live(k.s), Brks(k.s.task), k.s.cur, k.s.q.free[0], AllocN(k.vm.used, Needed(k)));
      hide Exact, KInv, Live, Brks, ForkReady, ForkSpace, AllocN, Fork, Needed, Spawn;
    } else if k.s.q.free != [] {
      assert k.s.q.free[0] in k.s.q.free;
      SameLive(k.s, Fork(k).0.s);
      ExactDepends(k.vm, Live(k.s), Brks(k.s.task), Brks(Fork(k).0.s.task));
    }
  }

  lemma ExactDepends(v: Vm, live: set<nat>, b: Breaks, b': Breaks)
    requires Exact(v, live, b) && forall t :: t in live && t < NR_TASKS ==> b'[t] == b[t]
    ensures Exact(v, live, b')
  {
    forall s | 0 <= s < NR_TASKS ensures ExactTable(v.pt[s], CountedPages(live, b', s)) {
      assert ExactTable(v.pt[s], CountedPages(live, b, s));
    }
  }

  lemma ExitKeepsExactKernel(k: Kernel)
    requires KInv(k) && ExactKernel(k) && CanSwitch(Leave(k.s))
    ensures ExactKernel(ExitCall(k))
  {
    CurrentIsLive(k);
    ExitKeepsInvIff(k.s);
    ExitKeepsExact(k.vm, Live(k.s), Brks(k.s.task), k.s.cur);
    assert Live(ExitCall(k).s) == Live(k.s) - {k.s.cur};
    assert Brks(ExitCall(k).s.task) == Brks(k.s.task);
  }

  /** exit returns exactly what fork and sbrk took: the 20 pages and the heap, rounded up. */
  lemma ExitReturnsFrames(k: Kernel)
    requires KInv(k) && ExactKernel(k) && Keeps(k, CallExit) && CanSwitch(Leave(k.s))
    ensures |UsedFrames(ExitCall(k).vm)| == |UsedFrames(k.vm)| - NumPages(k.s.task[k.s.cur].brk)
  {
    CurrentIsLive(k);
    ExitKeepsInvIff(k.s);
    ExitKeepsIff(k);
    ExitKeepsExactKernel(k);
    var k' := ExitCall(k);
    UsedFramesAreAccounted(k.vm, Live(k.s), Brks(k.s.task));
    UsedFramesAreAccounted(k'.vm, Live(k'.s), Brks(k'.s.task));
    hide Exact, SchedInv, VmInv, UsedFrames, Released, Exit;
    assert Live(k'.s) == Live(k.s) - {k.s.cur} && Brks(k'.s.task) == Brks(k.s.task);
    TotalPagesWithout(Live(k.s), Brks(k.s.task), k.s.cur, NR_TASKS);
  }

  lemma StepKeepsExact(k: Kernel, c: Call)
    requires KInv(k) && Keeps(k, c) && !Stuck(k, c) && ExactKernel(k) && !GrowsToBoundary(k, c)
    ensures ExactKernel(Apply(k, c))
  {
    match c
    case CallFork => ForkKeepsExactKernel(k);
    case CallExit => ExitKeepsExactKernel(k);
    case CallSbrk(n) => SbrkKeepsExactKernelIff(k, n);
    case CallSetFps(fps) =>
      SetNiceKeepsInvIff(k.s, if fps == -1 then 1 else 0);
      assert Live(Apply(k, c).s) == Live(k.s) && Brks(Apply(k, c).s.task) == Brks(k.s.task);
    case ClockTick =>
      ScheduleKeepsInv(k.s);
      assert Live(Apply(k, c).s) == Live(k.s);
    case UserStore(addr, b) => SameTables(k, Apply(k, c));
    case CallPutScreen(_) =>
  }

  lemma SameTables(k: Kernel, k': Kernel)
    requires ExactKernel(k) && k'.s == k.s && k'.vm.used == k.vm.used && k'.vm.pt == k.vm.pt
    ensures ExactKernel(k')
  {
    forall f | PoolFrame(f) && k'.vm.used[f] ensures Held(k'.vm, f) {
      assert Held(k.vm, f);
      var s, p :| HeldBy(k.vm, s, p, f);
      assert HeldBy(k'.vm, s, p, f);
    }
  }

  /** Conservation in every run without growth to a page boundary: the used frames
      number 256 + 8 plus what fork and exit count for the live tasks. */
  lemma {:induction false} FramesAreConserved(ks: seq<Kernel>, cs: seq<Call>, i: nat)
    requires Trace(ks, cs) && i <= |cs|
    requires forall m :: 0 <= m < i ==> KInv(ks[m]) ==> !GrowsToBoundary(ks[m], cs[m])
    ensures KInv(ks[i]) && ExactKernel(ks[i])
    ensures |UsedFrames(ks[i].vm)| == 256 + 8 + TotalPages(Live(ks[i].s), Brks(ks[i].s.task), NR_TASKS)
  {
    InvariantInEveryRun(ks, cs, i);
    if i == 0 {
      var ram: Ram :| ks[0] == Boot(ram);
      BootEstablishes(ram);
    } else {
      FramesAreConserved(ks, cs, i - 1);
      assert StepOf(ks[i - 1], cs[i - 1], ks[i]);
      StepKeepsExact(ks[i - 1], cs[i - 1]);
    }
    UsedFramesAreAccounted(ks[i].vm, Live(ks[i].s), Brks(ks[i].s.task));
  }
}
