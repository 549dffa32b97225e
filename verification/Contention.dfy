/** When set_fps leaves the regulator armed for ever, and when another task of nice 0
    makes it disarm itself, in every reachable state
    (zeOS/sched.c:140-202, zeOS/sys.c:249-262). */
module Contention {
  import opened Layout
  import opened Paging
  import opened AddressSpace
  import opened TaskQueues
  import opened Scheduler
  import opened Regulator
  import opened SystemCalls
  import opened Runs
  import opened Pacing

  // ---------------------------------------------------------------------------
  // Quanta
  // ---------------------------------------------------------------------------

  /** Every task inherits quantum 3, and no turn is longer than 15 ticks. */
  ghost predicate Quanta(s: Sched) {
    && s.quantumTicks <= 5 * QUANTUM
    && forall t :: 0 <= t < NR_TASKS && Runnable(s, t) ==> s.task[t].quantum == QUANTUM
  }

  lemma StepKeepsQuanta(k: Kernel, c: Call)
    requires KInv(k) && Keeps(k, c) && !Stuck(k, c) && Quanta(k.s)
    ensures Quanta(Apply(k, c).s)
  {
    assert Runnable(k.s, k.s.cur);
    match c
    case CallFork =>
      if k.s.q.free != [] {
        ForkOutcome(k);
        FreeSlot(k);
        SpawnKeepsInvIff(k.s, k.nextPid);
        hide KInv, Fork, ForkSucceeds;
      }
    case CallExit =>
      ExitKeepsInvIff(k.s);
      SomeoneLeft(k.s);
    case CallSetFps(fps) => SetNiceKeepsInvIff(k.s, if fps == -1 then 1 else 0);
    case ClockTick =>
      ScheduleKeepsInv(k.s);
      assert Runnable(Schedule(k.s), Schedule(k.s).cur);
    case _ =>
  }

  /** The task that exit dispatches was waiting. */
  lemma SomeoneLeft(s: Sched)
    requires SchedInv(s) && CanSwitch(Leave(s))
    ensures Exit(s).cur < NR_TASKS && Runnable(s, Exit(s).cur)
  {
    EnqueueAll(s, Free);
    ServeKeeps(Leave(s));
  }

  lemma {:induction false} QuantaInEveryRun(ks: seq<Kernel>, cs: seq<Call>, i: nat)
    requires Trace(ks, cs) && i <= |cs|
    ensures KInv(ks[i]) && Quanta(ks[i].s)
  {
    InvariantInEveryRun(ks, cs, i);
    if i == 0 {
      var ram: Ram :| ks[0] == Boot(ram);
      BootSchedInv();
      assert forall t: nat :: Runnable(BootSched(), t) ==> t in Live(BootSched()) || t >= NR_TASKS;
    } else {
      QuantaInEveryRun(ks, cs, i - 1);
      assert StepOf(ks[i - 1], cs[i - 1], ks[i]);
      StepKeepsQuanta(ks[i - 1], cs[i - 1]);
    }
  }

  // ---------------------------------------------------------------------------
  // Another task of nice 0 waits
  // ---------------------------------------------------------------------------

  /** `z` waits in the priority queue, and will wait for `d` more ticks at least: if it
      is not the next of its class, a whole turn of 15 ticks and one of 3 come first. */
  ghost predicate Away(s: Sched, z: nat, d: nat) {
    && SchedInv(s) && Quanta(s) && s.cur != z && z in s.q.prio && s.quantumTicks >= 1
    && d <= s.quantumTicks + if s.task[s.cur].nice == 0 then 3 else if s.q.prio[0] != z then 18 else 0
  }

  /** One schedule that changes neither the tasks nor who is runnable. */
  ghost predicate SameTasks(s: Sched, s': Sched) {
    s'.task == s.task && forall t: nat :: Runnable(s', t) <==> Runnable(s, t)
  }

  lemma AwayStep(s: Sched, z: nat, d: nat)
    requires Away(s, z, d) && d >= 2
    ensures Away(TickSched(s), z, d - 1) && SameTasks(s, TickSched(s))
  {
    ScheduleKeepsInv(s);
    if Expires(s) {
      SomeLowIff(s);
      var s' := Switch(s);
      assert Runnable(s, s'.cur);
      ServedClass(s);
      if s.task[s.cur].nice != 0 {
        assert s.q.prio[0] != z;
        assert s'.q.prio == s.q.prio[1..] && z in s.q.prio[1..];
      } else {
        assert s'.q.prio == s.q.prio + [s.cur];
      }
    }
  }

  lemma {:induction false} AwayFor(s: Sched, z: nat, d: nat, n: nat)
    requires Away(s, z, d) && n < d
    ensures Away(AfterTicks(s, n), z, d - n) && SameTasks(s, AfterTicks(s, n))
  {
    if n > 0 {
      AwayFor(s, z, d, n - 1);
      AwayStep(AfterTicks(s, n - 1), z, d - (n - 1));
    }
  }

  /** The running task has nice 0 and its own PID, and another task of nice 0 waits. */
  ghost predicate Contended(s: Sched) {
    && SchedInv(s) && Quanta(s) && s.task[s.cur].nice == 0 && s.q.prio != []
    && forall t :: 0 <= t < NR_TASKS && Runnable(s, t) && t != s.cur ==> s.task[t].pid != s.task[s.cur].pid
  }

  /** At the end of its turn the task queues up behind the other one. */
  lemma TurnEnds(s: Sched)
    requires Contended(s) && s.quantumTicks <= 1
    ensures Away(TickSched(s), s.cur, 21) && SameTasks(s, TickSched(s))
  {
    ScheduleKeepsInv(s);
    SomeLowIff(s);
    var s' := Switch(s);
    assert Runnable(s, s'.cur);
    assert s'.q.prio == s.q.prio + [s.cur];
    assert s.q.prio[0] in s.q.prio;
  }

  lemma AfterTurn(s: Sched, n: nat)
    requires Contended(s) && n == Left(s)
    ensures Away(AfterTicks(s, n), s.cur, 21) && SameTasks(s, AfterTicks(s, n))
  {
    var e := AfterTicks(s, n - 1);
    if n > 1 {
      QuantumRunsDown(s, n - 1);
    }
    assert e == s.(quantumTicks := e.quantumTicks) && e.quantumTicks <= 1;
    assert SameTasks(s, e);
    LowStaysRunnable(s, e);
    TurnEnds(e);
    assert AfterTicks(s, n) == TickSched(e);
  }

  /** From the end of its turn the task is off the CPU for 21 ticks at least. */
  lemma OffFor21(s: Sched, m: nat)
    requires Contended(s) && Left(s) <= m <= Left(s) + 20
    ensures Pid(AfterTicks(s, m)) != s.task[s.cur].pid
  {
    hide AfterTicks, Contended, Away;
    var n: nat := Left(s);
    AfterTurn(s, n);
    AfterLater(s, n, m - n);
    AwayFor(AfterTicks(s, n), s.cur, 21, m - n);
    OthersPid(s, AfterTicks(s, m), n + 21 - m);
  }

  lemma OthersPid(s: Sched, s': Sched, d: nat)
    requires Contended(s) && Away(s', s.cur, d) && SameTasks(s, s')
    ensures Pid(s') != s.task[s.cur].pid
  {
    assert Runnable(s', s'.cur);
  }

  /** A countdown ends at -1 if no tick that could refill it finds the regulated task. */
  lemma {:induction false} UnseenDisarms(o: Order, k: Clock, n: nat)
    requires n <= k.f.ticks + 1
    requires forall m :: 0 <= m < n && k.f.ticks - m <= 1 ==> PidSeen(o, AfterTicks(k.s, m)) != k.f.pid
    ensures AfterInterrupts(o, k, n) == Clock(AfterTicks(k.s, n), k.f.(ticks := k.f.ticks - n))
  {
    if n > 0 {
      UnseenDisarms(o, k, n - 1);
    }
  }

  /** Which task the tick after `m` others finds, in the one order or the other. */
  lemma SeenAfter(o: Order, s: Sched, m: nat)
    ensures PidSeen(o, AfterTicks(s, m)) == Pid(AfterTicks(s, if o == FpsFirst then m else m + 1))
  {
    assert AfterTicks(s, m + 1) == TickSched(AfterTicks(s, m));
  }

  /** While another task of nice 0 waits, the countdown that set_fps starts is at -1
      after 19 interrupts: both ticks that could refill it fall into that task's turn. */
  lemma ContendedDisarms(o: Order, s: Sched, f: Fps)
    requires Contended(s) && f.pid == s.task[s.cur].pid && f.ticks == PERIOD
    ensures AfterInterrupts(o, Clock(s, f), PERIOD + 1).f.ticks == OFF
  {
    assert Left(s) <= 5 * QUANTUM;
    hide AfterTicks, AfterInterrupts, Contended;
    forall m | PERIOD - 1 <= m <= PERIOD ensures PidSeen(o, AfterTicks(s, m)) != f.pid {
      SeenAfter(o, s, m);
      OffFor21(s, if o == FpsFirst then m else m + 1);
    }
    UnseenDisarms(o, Clock(s, f), PERIOD + 1);
  }

  /** The countdown never leaves -1 to 18, and is over for good at -1. */
  lemma {:induction false} CountdownRange(o: Order, k: Clock, n: nat)
    requires OFF <= k.f.ticks <= PERIOD
    ensures AfterInterrupts(o, k, n).s == AfterTicks(k.s, n)
    ensures AfterInterrupts(o, k, n).f.pid == k.f.pid && OFF <= AfterInterrupts(o, k, n).f.ticks <= PERIOD
  {
    if n > 0 {
      CountdownRange(o, k, n - 1);
    }
  }

  /** The same from any countdown, at the end of the task's next wait. */
  lemma ContendedNeverStaysArmed(o: Order, s: Sched, f: Fps)
    requires Contended(s) && f.pid == s.task[s.cur].pid && OFF <= f.ticks <= PERIOD
    ensures !StaysArmed(o, Clock(s, f))
  {
    hide AfterTicks, AfterInterrupts, Contended;
    var q: nat := Left(s);
    CountdownRange(o, Clock(s, f), q);
    var k := AfterInterrupts(o, Clock(s, f), q);
    forall m: nat | m <= k.f.ticks ensures PidSeen(o, AfterTicks(k.s, m)) != k.f.pid {
      AfterLater(s, q, m);
      SeenAfter(o, s, q + m);
      OffFor21(s, if o == FpsFirst then q + m else q + m + 1);
    }
    UnseenDisarms(o, k, k.f.ticks + 1);
    InterruptsLater(o, Clock(s, f), q, k.f.ticks + 1);
  }

  lemma {:induction false} TasksStay(s: Sched, n: nat)
    requires SchedInv(s)
    ensures SchedInv(AfterTicks(s, n)) && SameTasks(s, AfterTicks(s, n))
  {
    if n > 0 {
      TasksStay(s, n - 1);
      ScheduleKeepsInv(AfterTicks(s, n - 1));
    }
  }

  /** The regulated task is gone. */
  lemma NobodyStaysArmed(o: Order, s: Sched, f: Fps)
    requires SchedInv(s) && OFF <= f.ticks
    requires forall t :: 0 <= t < NR_TASKS && Runnable(s, t) ==> s.task[t].pid != f.pid
    ensures !StaysArmed(o, Clock(s, f))
  {
    forall m: nat ensures PidSeen(o, AfterTicks(s, m)) != f.pid {
      var n := if o == FpsFirst then m else m + 1;
      SeenAfter(o, s, m);
      TasksStay(s, n);
      assert Runnable(AfterTicks(s, n), AfterTicks(s, n).cur);
    }
    UnseenDisarms(o, Clock(s, f), f.ticks + 1);
  }

  // ---------------------------------------------------------------------------
  // The exact condition
  // ---------------------------------------------------------------------------

  /** What the results on pacing see of the kernel. */
  function ClockOf(k: Kernel): Clock {
    Clock(k.s, k.fps)
  }

  /** set_fps as the results on pacing and contention see it. */
  lemma CallerOfSetFps(k: Kernel, fps: int)
    requires KInv(k) && Quanta(k.s) && fps != -1 && Keeps(k, Call.CallSetFps(fps))
    ensures k.s.q.prio == [] ==> AboutToRegulate(k.s, k.s.cur)
    ensures k.s.q.prio != [] ==> Contended(SetNice(k.s, 0))
  {
    SetNiceKeepsInvIff(k.s, 0);
    forall t | 0 <= t < NR_TASKS && Runnable(k.s, t) && t != k.s.cur ensures k.s.task[t].pid != k.s.task[k.s.cur].pid {
      assert t in Live(k.s) && k.s.cur in Live(k.s);
    }
    hide VmInv, UniquePids, OwnDirs, Live;
  }

  /** A call of set_fps, with the queue safety that it keeps, leaves the regulator armed
      for ever, with these tasks, exactly when no other task of nice 0 exists. */
  lemma SetFpsArmsIff(o: Order, k: Kernel, fps: int)
    requires KInv(k) && Quanta(k.s) && fps != -1 && Keeps(k, Call.CallSetFps(fps))
    ensures StaysArmed(o, ClockOf(SetFpsCall(k, fps))) <==> k.s.q.prio == []
  {
    CallerOfSetFps(k, fps);
    hide KInv, Quanta, Keeps, AboutToRegulate, Contended;
    if k.s.q.prio == [] {
      AloneInClassStaysArmed(o, k, fps);
    } else {
      ContendedDisarms(o, SetNice(k.s, 0), SetFpsCall(k, fps).fps);
    }
  }

  lemma AloneInClassStaysArmed(o: Order, k: Kernel, fps: int)
    requires AboutToRegulate(k.s, k.s.cur) && fps != -1
    ensures StaysArmed(o, ClockOf(SetFpsCall(k, fps)))
  {
    var k' := ClockOf(SetFpsCall(k, fps));
    forall n: nat ensures AfterInterrupts(o, k', n).f.ticks != OFF {
      InterruptsAreActs(o, k', n, k.s.cur);
      NeverDisarms(o, ClockOf(k), fps, seq(n, _ => Interrupt));
    }
  }

  lemma {:induction false} InterruptsAreActs(o: Order, k: Clock, n: nat, z: nat)
    ensures Acts(o, k, seq(n, _ => Interrupt), z) == AfterInterrupts(o, k, n)
  {
    if n > 0 {
      InterruptsAreActs(o, k, n - 1, z);
      assert seq(n, _ => Interrupt)[..n - 1] == seq(n - 1, _ => Interrupt);
    }
  }

  /** In every run from boot: the condition that a caller of set_fps can check. */
  lemma SetFpsArmsInEveryRun(o: Order, ks: seq<Kernel>, cs: seq<Call>, i: nat, fps: int)
    requires Trace(ks, cs) && i < |cs| && cs[i] == Call.CallSetFps(fps) && fps != -1
    ensures KInv(ks[i]) && ks[i + 1] == SetFpsCall(ks[i], fps)
    ensures StaysArmed(o, ClockOf(ks[i + 1])) <==> ks[i].s.q.prio == []
  {
    QuantaInEveryRun(ks, cs, i);
    assert StepOf(ks[i], cs[i], ks[i + 1]);
    SetFpsArmsIff(o, ks[i], fps);
  }
}
