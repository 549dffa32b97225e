/** Calls on which the code fails, starting from boot: each shows that a condition under
    which a property is proved is not met by itself. */
module Instances {
  import opened Layout
  import opened Frames
  import opened Paging
  import opened AddressSpace
  import opened Conservation
  import opened TaskQueues
  import opened Scheduler
  import opened SystemCalls
  import opened Runs
  import opened Pacing
  import opened Contention
  import opened RegulatorRuns

  // ---------------------------------------------------------------------------
  // Frames at boot, and after forks
  // ---------------------------------------------------------------------------

  lemma BootFreeFrames(ram: Ram)
    ensures |FreeSet(BootVm(ram).used)| >= 356
  {
    var q := seq<nat>(356, i => 312 + 2 * i);
    DistinctSize(q, FreeSet(BootVm(ram).used));
  }

  lemma MarkTakesFree(used: FrameMap, fr: seq<nat>)
    requires FreshFrames(used, fr)
    ensures |FreeSet(Mark(used, fr))| == |FreeSet(used)| - |fr|
  {
    var taken := set f | f in fr;
    DistinctSize(fr, taken);
    assert forall i :: 0 <= i < |fr| ==> fr[i] in FreeSet(used);
    assert FreeSet(Mark(used, fr)) == FreeSet(used) - taken && taken <= FreeSet(used);
  }

  /** A fork for which there is a slot and room, with the room it leaves. */
  lemma ForkWithRoom(k: Kernel, room: nat)
    requires KInv(k) && k.s.q.free != [] && k.s.task[k.s.cur].brk == L_HEAP_START
    requires |FreeSet(k.vm.used)| >= room + 20 && k.s.task[k.s.cur].nice != 0
    ensures k.s.q.free[0] < NR_TASKS && k.s.q.free[0] != k.s.cur
    ensures var k' := Fork(k).0;
            && Fork(k).1 == k.nextPid && KInv(k') && k'.s == Spawn(k.s, k.nextPid) && k'.nextPid == k.nextPid + 1
            && k'.fps == k.fps && |FreeSet(k'.vm.used)| >= room
  {
    var fr := AllocN(k.vm.used, Needed(k));
    AllocNSucceedsIff(k.vm.used, Needed(k));
    ForkOutcome(k);
    ForkKeepsIff(k);
    AllocNFresh(k.vm.used, Needed(k));
    MarkTakesFree(k.vm.used, fr);
    hide KInv, Fork, AllocN, ForkReady, FreshFrames;
  }

  // ---------------------------------------------------------------------------
  // The head of a queue is taken
  // ---------------------------------------------------------------------------

  /** The first process calls set_fps, then fork: both succeed, and the next tick takes
      the head of the empty ready queue. */
  lemma ForkAfterSetFps(ram: Ram, fps: int)
    requires fps != -1
    ensures KInv(Boot(ram))
    ensures var k := SetFpsCall(Boot(ram), fps);
            KInv(k) && Fork(k).1 == 2 && Fork(k).0.s.cur < NR_TASKS && !ScheduleOk(Fork(k).0.s)
  {
    BootEstablishes(ram);
    var k := SetFpsCall(Boot(ram), fps);
    SetFpsKeepsIff(Boot(ram), fps);
    BootFreeFrames(ram);
    AllocNSucceedsIff(k.vm.used, Needed(k));
    ForkOutcome(k);
  }

  // ---------------------------------------------------------------------------
  // The break wraps
  // ---------------------------------------------------------------------------

  /** The first process grows its heap by a byte and shrinks it by two megabytes: the
      break ends up near the top of the address space. */
  lemma ShrinkBelowZero(ram: Ram)
    ensures KInv(Boot(ram)) && KInv(SbrkCall(Boot(ram), 1).0)
    ensures var k := SbrkCall(SbrkCall(Boot(ram), 1).0, -0x20_0000).0;
            k.s.cur < NR_TASKS && k.s.task[k.s.cur].brk == 0xFFF1_C001 && !KInv(k)
  {
    BootEstablishes(ram);
    BootFreeFrames(ram);
    SbrkFailsIff(Boot(ram), 1);
    SbrkKeepsIff(Boot(ram), 1);
    SbrkKeepsIff(SbrkCall(Boot(ram), 1).0, -0x20_0000);
  }

  // ---------------------------------------------------------------------------
  // A growth ends on a page boundary
  // ---------------------------------------------------------------------------

  /** The first process grows its heap by one page: 22 pages are mapped, 21 are counted. */
  lemma GrowByOnePage(ram: Ram)
    ensures KInv(Boot(ram))
    ensures var k := SbrkCall(Boot(ram), 0x1000).0;
            && SbrkCall(Boot(ram), 0x1000).1 == L_HEAP_START && NumPages(k.s.task[8].brk) == 21
            && ExactTable(k.vm.pt[8], 22) && !ExactKernel(k)
  {
    BootEstablishes(ram);
    BootFreeFrames(ram);
    var k := Boot(ram);
    BoundaryGrowthMapsOneMore(k.vm, Live(k.s), Brks(k.s.task), 8);
    SbrkKeepsExactKernelIff(k, 0x1000);
  }

  // ---------------------------------------------------------------------------
  // The regulator disarms itself
  // ---------------------------------------------------------------------------

  /** Two forks, set_fps by the first process, a tick that dispatches its first child, and
      a call of that child. */
  function CallsOfChild(fps: int, last: Call): seq<Call> {
    [CallFork, CallFork, Call.CallSetFps(fps), ClockTick, last]
  }

  /** The scheduler after the two forks. */
  lemma TwoChildren(ram: Ram) returns (k1: Kernel, k2: Kernel)
    ensures var k := Boot(ram);
            KInv(k) && StepOf(k, CallFork, k1) && StepOf(k1, CallFork, k2) && KInv(k2)
    ensures k2.s.cur == 8 && k2.s.task[8].nice == 1 && k2.s.quantumTicks == -1
    ensures k2.s.q.ready == [7, 6] && k2.s.q.prio == []
    ensures k2.s.task[7].nice == 1 && k2.s.task[7].quantum == 3
  {
    var k := Boot(ram);
    BootEstablishes(ram);
    BootFreeFrames(ram);
    ForkWithRoom(k, 20);
    k1 := Fork(k).0;
    ForkWithRoom(k1, 0);
    k2 := Fork(k1).0;
  }

  /** set_fps by the first process, and the tick that follows. */
  lemma FirstRegulates(k: Kernel, fps: int)
    requires KInv(k) && k.s.cur == 8 && k.s.quantumTicks == -1 && k.s.q.ready == [7, 6] && k.s.q.prio == []
    requires fps != -1 && k.s.task[7].nice == 1
    ensures ScheduleOk(SetFpsCall(k, fps).s) && SetFpsCall(k, fps).s.q.WellQueued()
    ensures var k1 := SetFpsCall(k, fps);
            var k2 := TickCall(k1);
            && StepOf(k, Call.CallSetFps(fps), k1) && StepOf(k1, ClockTick, k2) && KInv(k2)
            && k2.s.cur == 7 && k2.s.task[7].nice == 1 && k2.s.q.ready == [6] && k2.s.q.prio == [8] && k2.fps.ticks == 17
  {
    SetFpsKeepsIff(k, fps);
    var s := SetFpsCall(k, fps).s;
    TickKeeps(SetFpsCall(k, fps));
    assert Expires(s) && Schedule(s) == Switch(s);
    assert [7, 6][1..] == [6];
  }

  lemma FiveSteps(ram: Ram, ks: seq<Kernel>, cs: seq<Call>)
    requires |cs| == 5 && |ks| == 6 && ks[0] == Boot(ram)
    requires StepOf(ks[0], cs[0], ks[1]) && StepOf(ks[1], cs[1], ks[2]) && StepOf(ks[2], cs[2], ks[3])
    requires StepOf(ks[3], cs[3], ks[4]) && StepOf(ks[4], cs[4], ks[5])
    ensures Trace(ks, cs)
  {
    hide StepOf, Boot;
  }

  /** The run, for a call the child may make. */
  lemma ChildCalls(ram: Ram, fps: int, last: Call) returns (ks: seq<Kernel>)
    requires fps != -1 && (last == CallExit || last == Call.CallSetFps(fps))
    ensures Trace(ks, CallsOfChild(fps, last)) && ks[0] == Boot(ram) && ks[2].s.cur == 8 && ks[2].s.q.prio == []
    ensures ks[4].s.cur == 7 && ks[4].s.q.ready == [6] && ks[4].s.q.prio == [8] && ks[4].fps.ticks == 17
  {
    hide KInv, StepOf, ScheduleOk, Boot, TickCall, SetFpsCall, Trace, Queues.WellQueued;
    var k1, k2 := TwoChildren(ram);
    FirstRegulates(k2, fps);
    var k3 := SetFpsCall(k2, fps);
    var k4 := TickCall(k3);
    var k5 := LastCall(k4, last);
    ks := [Boot(ram), k1, k2, k3, k4, k5];
    FiveSteps(ram, ks, CallsOfChild(fps, last));
  }

  lemma LastCall(k: Kernel, last: Call) returns (k': Kernel)
    requires KInv(k) && k.s.cur < NR_TASKS && k.s.task[k.s.cur].nice == 1 && k.s.q.ready != [] && k.s.q.prio != []
    requires last == CallExit || last.CallSetFps?
    ensures StepOf(k, last, k')
  {
    StepKeepsKInvIff(k, last);
    k' := Apply(k, last);
  }

  /** The child calls set_fps too, and then has nice 0 while the first process waits: its
      regulator disarms itself, whatever the rates and the order within a tick. */
  lemma SecondRegulatorDisarms(o: Order, ram: Ram, fps: int) returns (ks: seq<Kernel>)
    requires fps != -1
    ensures Trace(ks, CallsOfChild(fps, Call.CallSetFps(fps))) && ks[0] == Boot(ram)
    ensures !StaysArmed(o, ClockOf(ks[5]))
  {
    ks := ChildCalls(ram, fps, Call.CallSetFps(fps));
    hide Trace, StaysArmed, Boot;
    SetFpsArmsInEveryRun(o, ks, CallsOfChild(fps, Call.CallSetFps(fps)), 4, fps);
  }

  /** The child exits: the first process, the only one of nice 0, gets a whole turn at a
      moment that does not suit its countdown, and its regulator disarms itself. */
  lemma ExitOfChildDisarms(ram: Ram, fps: int) returns (ks: seq<Kernel>)
    requires fps != -1
    ensures Trace(ks, CallsOfChild(fps, CallExit)) && ks[0] == Boot(ram)
    ensures StaysArmed(FpsFirst, ClockOf(ks[4])) && !StaysArmed(FpsFirst, ClockOf(ks[5]))
  {
    var cs := CallsOfChild(fps, CallExit);
    ks := ChildCalls(ram, fps, CallExit);
    SetFpsRegulates(ks, cs, 2, fps);
    QuantaInEveryRun(ks, cs, 4);
    assert KeepsArmed(ks[3], ClockTick, 8) by {
      QuantaInEveryRun(ks, cs, 3);
    }
    hide Trace, Boot, KInv, StaysArmed, RegulatedIn;
    ArmedInEveryRunIff(ks, cs, 3, 4, 8);
    ArmedInEveryRunIff(ks, cs, 4, 5, 8);
  }
}
