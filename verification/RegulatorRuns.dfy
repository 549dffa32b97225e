/** Which calls keep the regulator armed, in every run of the kernel: the tasks fork, exit
    and call set_fps meanwhile (zeOS/sched.c:140-202, zeOS/sys.c:61-175, 249-262). */
module RegulatorRuns {
  import opened Layout
  import opened Paging
  import opened AddressSpace
  import opened TaskQueues
  import opened Scheduler
  import opened Regulator
  import opened SystemCalls
  import opened Runs
  import opened Pacing
  import opened Contention

  // ---------------------------------------------------------------------------
  // The other tasks fork and exit
  // ---------------------------------------------------------------------------

  /** A task of nice 1 exits: the regulated task is dispatched at once, at the start of
      its turn. */
  lemma ExitDispatches(s: Sched, z: nat)
    requires SchedInv(s) && Quanta(s) && Paced(s, z) && s.cur != z
    ensures CanSwitch(Leave(s)) && Exit(s).task[z].pid == s.task[z].pid
    ensures s.q.ready == [] ==> Alone(Exit(s), z)
    ensures s.q.ready != [] ==> Paced(Exit(s), z) && Phase(Exit(s), z) == 0
  {
    ExitKeepsInvIff(s);
    assert Runnable(s, s.cur) && Runnable(s, z);
    assert [z][1..] == [];
  }

  /** The exit of a task of nice 1 leaves the regulator armed for ever exactly when no
      other task is ready, or the countdown suits the start of a turn. */
  lemma ExitOfOtherArmsIff(o: Order, k: Kernel, z: nat)
    requires KInv(k) && Quanta(k.s) && Paced(k.s, z) && k.s.cur != z
    requires k.fps.pid == k.s.task[z].pid && 0 <= k.fps.ticks <= PERIOD
    ensures CanSwitch(Leave(k.s))
    ensures StaysArmed(o, ClockOf(ExitCall(k))) <==> k.s.q.ready == [] || Armed(o, 0, k.fps.ticks)
    ensures StaysArmed(o, ClockOf(ExitCall(k))) ==> Regulated(o, ClockOf(ExitCall(k)), z)
  {
    ExitDispatches(k.s, z);
    var c := ClockOf(ExitCall(k));
    hide KInv, Quanta, Exit, Paced, Armed;
    if k.s.q.ready == [] {
      RegulatedStaysArmed(o, c, z);
    } else {
      StaysArmedIff(o, c, z);
    }
  }

  /** A task of nice 1 forks: the turn goes on. */
  lemma ForkIsPaced(s: Sched, z: nat, pid: int)
    requires SchedInv(s) && Paced(s, z) && s.cur != z && s.q.free != [] && s.task[z].pid != pid
    ensures s.q.free[0] < NR_TASKS && Spawn(s, pid).task[z] == s.task[z]
    ensures Paced(Spawn(s, pid), z) && Phase(Spawn(s, pid), z) == Phase(s, z)
  {
    SpawnKeepsInvIff(s, pid);
    assert Runnable(s, s.cur) && Runnable(s, z);
    assert s.q.free[0] in s.q.free;
  }

  // ---------------------------------------------------------------------------
  // One call
  // ---------------------------------------------------------------------------

  /** Task `z` is regulated by a countdown that stays armed for ever with these tasks. */
  ghost predicate RegulatedIn(k: Kernel, z: nat) {
    KInv(k) && Quanta(k.s) && Regulated(FpsFirst, ClockOf(k), z)
  }

  /** Which calls keep the regulator armed. */
  ghost predicate KeepsArmed(k: Kernel, c: Call, z: nat)
    requires KInv(k)
  {
    match c
    case CallFork => k.s.cur != z || !ForkSucceeds(k)
    case CallExit => k.s.cur != z && (k.s.q.ready == [] || Armed(FpsFirst, 0, k.fps.ticks))
    case CallSetFps(fps) => k.s.cur == z && fps != -1
    case _ => true
  }

  /** The running task is `z`, or it is paced by it. */
  lemma RegulatedParts(k: Kernel, z: nat)
    requires RegulatedIn(k, z)
    ensures z < NR_TASKS && z in Live(k.s) && k.fps.pid == k.s.task[z].pid && 0 <= k.fps.ticks <= PERIOD
    ensures k.s.task[z].nice == 0 && 0 < k.fps.pid < k.nextPid
    ensures k.s.cur != z ==> Paced(k.s, z)
    ensures forall t: nat :: t < NR_TASKS && Runnable(k.s, t) && t != z ==> k.s.task[t].pid != k.fps.pid
  {
    assert Runnable(k.s, z);
  }

  /** What the regulator does not depend on: breaks, directories, and free structures. */
  ghost predicate SameTurns(s: Sched, s': Sched) {
    && s' == s.(task := s'.task)
    && forall t :: 0 <= t < NR_TASKS && Runnable(s, t) ==>
         s'.task[t].pid == s.task[t].pid && s'.task[t].nice == s.task[t].nice && s'.task[t].quantum == s.task[t].quantum
  }

  lemma RegulatedDepends(o: Order, k: Clock, k': Clock, z: nat)
    requires Regulated(o, k, z) && SameTurns(k.s, k'.s) && k'.f.pid == k.f.pid && k'.f.ticks == k.f.ticks
    ensures Regulated(o, k', z)
  {
    assert forall t: nat :: Runnable(k'.s, t) <==> Runnable(k.s, t);
    assert Runnable(k.s, z) && Runnable(k.s, k.s.cur);
    assert forall t :: t in k.s.q.ready || t in k.s.q.prio ==> Runnable(k.s, t);
  }

  /** A child of the regulated task competes with it. */
  lemma ForkContends(k: Kernel)
    requires KInv(k) && Quanta(k.s) && Keeps(k, CallFork) && ForkSucceeds(k) && k.s.task[k.s.cur].nice == 0
    requires 0 < k.s.task[k.s.cur].pid < k.nextPid
    requires forall t: nat :: t < NR_TASKS && Runnable(k.s, t) && t != k.s.cur ==> k.s.task[t].pid != k.s.task[k.s.cur].pid
    ensures Contended(Fork(k).0.s)
  {
    ForkOutcome(k);
    FreeSlot(k);
    SpawnKeepsInvIff(k.s, k.nextPid);
    StepKeepsQuanta(k, CallFork);
    hide KInv, Fork, ForkSucceeds, ForkReady, Quanta;
    assert Fork(k).0.s == Spawn(k.s, k.nextPid);
  }

  lemma ForkKeepsArmedIff(k: Kernel, z: nat)
    requires RegulatedIn(k, z) && Keeps(k, CallFork)
    ensures StaysArmed(FpsFirst, ClockOf(Fork(k).0)) <==> KeepsArmed(k, CallFork, z)
    ensures KeepsArmed(k, CallFork, z) ==> Regulated(FpsFirst, ClockOf(Fork(k).0), z)
  {
    RegulatedParts(k, z);
    if k.s.q.free == [] {
      RegulatedStaysArmed(FpsFirst, ClockOf(k), z);
    } else {
      ForkOutcome(k);
      FreeSlot(k);
      var k' := Fork(k).0;
      if !ForkSucceeds(k) {
        FailedForkSameTurns(k);
        RegulatedDepends(FpsFirst, ClockOf(k), ClockOf(k'), z);
        RegulatedStaysArmed(FpsFirst, ClockOf(k'), z);
      } else if k.s.cur == z {
        ForkContends(k);
        ContendedNeverStaysArmed(FpsFirst, k'.s, k'.fps);
      } else {
        ForkIsPaced(k.s, z, k.nextPid);
        RegulatedStaysArmed(FpsFirst, ClockOf(k'), z);
      }
    }
  }

  lemma FailedForkSameTurns(k: Kernel)
    requires KInv(k) && k.s.q.free != [] && !ForkSucceeds(k)
    ensures SameTurns(k.s, Fork(k).0.s) && Fork(k).0.fps == k.fps
  {
    ForkOutcome(k);
    FreeSlot(k);
    assert forall t :: t in Live(k.s) ==> t != k.s.q.free[0];
  }

  lemma ExitKeepsArmedIff(k: Kernel, z: nat)
    requires RegulatedIn(k, z) && Keeps(k, CallExit) && CanSwitch(Leave(k.s))
    ensures StaysArmed(FpsFirst, ClockOf(ExitCall(k))) <==> KeepsArmed(k, CallExit, z)
    ensures KeepsArmed(k, CallExit, z) ==> Regulated(FpsFirst, ClockOf(ExitCall(k)), z)
  {
    RegulatedParts(k, z);
    if k.s.cur == z {
      ExitKeepsInvIff(k.s);
      NobodyStaysArmed(FpsFirst, ExitCall(k).s, k.fps);
    } else {
      ExitOfOtherArmsIff(FpsFirst, k, z);
    }
  }

  /** set_fps by `z` starts the countdown anew; by another task of nice 1 it takes the
      regulator away, and with fps -1 it turns it off. */
  lemma SetFpsKeepsArmedIff(k: Kernel, fps: int, z: nat)
    requires RegulatedIn(k, z) && Keeps(k, Call.CallSetFps(fps))
    ensures StaysArmed(FpsFirst, ClockOf(SetFpsCall(k, fps))) <==> KeepsArmed(k, Call.CallSetFps(fps), z)
    ensures KeepsArmed(k, Call.CallSetFps(fps), z) ==> Regulated(FpsFirst, ClockOf(SetFpsCall(k, fps)), z)
  {
    RegulatedParts(k, z);
    var c := ClockOf(SetFpsCall(k, fps));
    if fps == -1 {
      assert AfterInterrupts(FpsFirst, c, 0) == c;
    } else {
      SetFpsArmsIff(FpsFirst, k, fps);
      if k.s.cur == z {
        assert SetNice(k.s, 0).task == k.s.task;
        SetFpsArms(FpsFirst, ClockOf(k), fps, z);
      }
    }
  }

  lemma SbrkSameTurns(k: Kernel, n: int32)
    requires KInv(k)
    ensures SameTurns(k.s, SbrkCall(k, n).0.s) && SbrkCall(k, n).0.fps == k.fps
  {
  }

  /** Each call keeps the regulator armed for ever, with the tasks there then are, exactly
      under its condition. */
  lemma StepKeepsArmedIff(k: Kernel, c: Call, z: nat)
    requires RegulatedIn(k, z) && Keeps(k, c) && !Stuck(k, c)
    ensures StaysArmed(FpsFirst, ClockOf(Apply(k, c))) <==> KeepsArmed(k, c, z)
    ensures KeepsArmed(k, c, z) ==> RegulatedIn(Apply(k, c), z)
  {
    StepKeepsKInvIff(k, c);
    StepKeepsQuanta(k, c);
    var k' := Apply(k, c);
    match c
    case CallFork => ForkKeepsArmedIff(k, z);
    case CallExit => ExitKeepsArmedIff(k, z);
    case CallSetFps(fps) => SetFpsKeepsArmedIff(k, fps, z);
    case CallSbrk(n) =>
      SbrkSameTurns(k, n);
      RegulatedDepends(FpsFirst, ClockOf(k), ClockOf(k'), z);
      RegulatedStaysArmed(FpsFirst, ClockOf(k'), z);
    case CallPutScreen(_) =>
      RegulatedDepends(FpsFirst, ClockOf(k), ClockOf(k'), z);
      RegulatedStaysArmed(FpsFirst, ClockOf(k'), z);
    case UserStore(_, _) => RegulatedStaysArmed(FpsFirst, ClockOf(k'), z);
    case ClockTick =>
      ClockRoutineIsTick(k);
      TickKeepsRegulated(FpsFirst, ClockOf(k), z);
      RegulatedStaysArmed(FpsFirst, ClockOf(k'), z);
  }

  // ---------------------------------------------------------------------------
  // Runs
  // ---------------------------------------------------------------------------

  /** A call of set_fps with no other task of nice 0 starts a regulated stretch of a run. */
  lemma SetFpsRegulates(ks: seq<Kernel>, cs: seq<Call>, i: nat, fps: int)
    requires Trace(ks, cs) && i < |cs| && cs[i] == Call.CallSetFps(fps) && fps != -1
    requires ks[i].s.q.prio == []
    ensures RegulatedIn(ks[i + 1], ks[i].s.cur)
  {
    var k := ks[i];
    QuantaInEveryRun(ks, cs, i);
    QuantaInEveryRun(ks, cs, i + 1);
    assert StepOf(ks[i], cs[i], ks[i + 1]);
    CallerOfSetFps(k, fps);
    SetFpsCallRegulates(FpsFirst, k, fps);
  }

  lemma SetFpsCallRegulates(o: Order, k: Kernel, fps: int)
    requires AboutToRegulate(k.s, k.s.cur) && fps != -1
    ensures Regulated(o, ClockOf(SetFpsCall(k, fps)), k.s.cur)
  {
    var s := SetNice(k.s, 0);
    assert forall t: nat :: Runnable(s, t) <==> Runnable(k.s, t);
    assert Runnable(s, k.s.cur) && (Paced(s, k.s.cur) || Alone(s, k.s.cur));
    SetFpsArms(o, Clock(s, k.fps), fps, k.s.cur);
  }

  /** The regulator would stay armed for ever in each state from `i` to `j`. */
  ghost predicate ArmedThroughout(ks: seq<Kernel>, i: nat, j: nat)
    requires i <= j < |ks|
  {
    forall m :: i <= m <= j ==> StaysArmed(FpsFirst, ClockOf(ks[m]))
  }

  /** Each call from `i` on, up to `j`, keeps the regulator of `z` armed. */
  ghost predicate KeptThroughout(ks: seq<Kernel>, cs: seq<Call>, i: nat, j: nat, z: nat)
    requires i <= j <= |cs| < |ks|
  {
    forall m :: i <= m < j ==> KInv(ks[m]) && KeepsArmed(ks[m], cs[m], z)
  }

  lemma OneMoreCall(ks: seq<Kernel>, cs: seq<Call>, i: nat, j: nat, z: nat)
    requires Trace(ks, cs) && i < j <= |cs| && KInv(ks[j - 1])
    ensures ArmedThroughout(ks, i, j) <==> ArmedThroughout(ks, i, j - 1) && StaysArmed(FpsFirst, ClockOf(ks[j]))
    ensures KeptThroughout(ks, cs, i, j, z)
            <==> KeptThroughout(ks, cs, i, j - 1, z) && KeepsArmed(ks[j - 1], cs[j - 1], z)
  {
    hide Trace, KInv, StaysArmed, KeepsArmed, ClockOf;
  }

  /** One call of a run. */
  lemma StepOfRun(ks: seq<Kernel>, cs: seq<Call>, i: nat, z: nat)
    requires Trace(ks, cs) && i < |cs| && RegulatedIn(ks[i], z)
    ensures KInv(ks[i]) && (StaysArmed(FpsFirst, ClockOf(ks[i + 1])) <==> KeepsArmed(ks[i], cs[i], z))
    ensures KeepsArmed(ks[i], cs[i], z) ==> RegulatedIn(ks[i + 1], z)
  {
    assert StepOf(ks[i], cs[i], ks[i + 1]);
    hide Regulated, Quanta, Keeps, StaysArmed, KeepsArmed, Apply, ClockOf;
    StepKeepsArmedIff(ks[i], cs[i], z);
  }

  lemma ArmedAtFirst(ks: seq<Kernel>, cs: seq<Call>, i: nat, z: nat)
    requires i <= |cs| < |ks| && RegulatedIn(ks[i], z)
    ensures ArmedThroughout(ks, i, i) && KeptThroughout(ks, cs, i, i, z)
  {
    RegulatedStaysArmed(FpsFirst, ClockOf(ks[i]), z);
  }

  lemma TraceSize(ks: seq<Kernel>, cs: seq<Call>)
    requires Trace(ks, cs)
    ensures |ks| == |cs| + 1
  {
  }

  /** The regulator in every run: it stays armed as long as the calls keep it so; the first
      call that does not leaves it off, or to disarm itself when the tasks stay as they are. */
  lemma {:induction false} ArmedInEveryRunIff(ks: seq<Kernel>, cs: seq<Call>, i: nat, j: nat, z: nat)
    requires Trace(ks, cs) && i <= j <= |cs| && RegulatedIn(ks[i], z)
    ensures ArmedThroughout(ks, i, j) <==> KeptThroughout(ks, cs, i, j, z)
    ensures KeptThroughout(ks, cs, i, j, z) ==> RegulatedIn(ks[j], z)
  {
    hide Trace, KInv, StaysArmed, KeepsArmed, ArmedThroughout, KeptThroughout, RegulatedIn;
    TraceSize(ks, cs);
    if i == j {
      ArmedAtFirst(ks, cs, i, z);
    } else {
      ArmedInEveryRunIff(ks, cs, i, j - 1, z);
      InvariantInEveryRun(ks, cs, j - 1);
      OneMoreCall(ks, cs, i, j, z);
      if KeptThroughout(ks, cs, i, j - 1, z) {
        StepOfRun(ks, cs, j - 1, z);
      }
    }
  }
}
