/** The regulator running against the scheduler, one task of nice 0 among tasks of
    nice 1 (zeOS/sched.c:140-202, zeOS/sys.c:233-262, zeOS/interrupt.c:124-130). */
module Pacing {
  import opened Layout
  import opened TaskQueues
  import opened Scheduler
  import opened Regulator
  import opened SystemCalls

  const QUANTUM: int := 3

  /** What a clock tick works on. */
  datatype Clock = Clock(s: Sched, f: Fps)

  /** The clock routine calls schedule_fps first; the results hold for both orders. */
  datatype Order = FpsFirst | ScheduleFirst

  ghost function TickSched(s: Sched): Sched {
    if s.q.WellQueued() && ScheduleOk(s) then Schedule(s) else s
  }

  function Pid(s: Sched): int {
    if s.cur < NR_TASKS then s.task[s.cur].pid else -1
  }

  /** One clock interrupt. */
  ghost function Tick(o: Order, k: Clock): Clock {
    var s' := TickSched(k.s);
    Clock(s', ScheduleFps(k.f, Pid(if o == FpsFirst then k.s else s')))
  }

  /** The clock routine is the tick that the following results are about. */
  lemma ClockRoutineIsTick(k: Kernel)
    requires SchedInv(k.s)
    ensures ScheduleOk(k.s) && Tick(FpsFirst, Clock(k.s, k.fps)) == Clock(TickCall(k).s, TickCall(k).fps)
  {
    ScheduleKeepsInv(k.s);
  }

  // ---------------------------------------------------------------------------
  // The 15 + 3 pattern
  // ---------------------------------------------------------------------------

  /** `z` is the only runnable task of nice 0; the others, at least one, have nice 1.
      All have quantum 3, and `z` its own PID. */
  ghost predicate OneHigh(s: Sched, z: nat) {
    && Partition(s) && Classed(s) && Runnable(s, z) && z < NR_TASKS && s.task[z].nice == 0
    && (s.cur == z || s.q.ready != [] || s.task[s.cur].nice != 0)
    && (forall t :: 0 <= t < NR_TASKS && Runnable(s, t) ==> s.task[t].quantum == QUANTUM)
    && (forall t :: 0 <= t < NR_TASKS && Runnable(s, t) && t != z ==> s.task[t].nice != 0)
    && (forall t :: 0 <= t < NR_TASKS && Runnable(s, t) && t != z ==> s.task[t].pid != s.task[z].pid)
  }

  /** Either `z` runs, with up to 15 ticks left, or another task does, with up to 3. */
  ghost predicate Paced(s: Sched, z: nat) {
    && OneHigh(s, z)
    && if s.cur == z then s.q.prio == [] && s.q.ready != [] && s.quantumTicks <= 15
       else s.q.prio == [z] && s.quantumTicks <= 3
  }

  /** The ticks left of the quantum: a counter at or below zero ends at the next tick. */
  function Left(s: Sched): int {
    if s.quantumTicks < 1 then 1 else s.quantumTicks
  }

  /** The position in the cycle of 18 ticks: `z` runs in ticks 0 to 14. */
  function Phase(s: Sched, z: nat): int {
    if s.cur == z then 15 - Left(s) else 18 - Left(s)
  }

  lemma PacedPhase(s: Sched, z: nat)
    requires Paced(s, z)
    ensures s.cur < NR_TASKS && 0 <= Phase(s, z) < 18
    ensures s.cur == z <==> Phase(s, z) < 15
    ensures Pid(s) == s.task[z].pid <==> s.cur == z
  {
    assert Runnable(s, s.cur);
  }

  /** The last tick of `z`'s quantum: the first ready task gets 3 ticks. */
  lemma HandOver(s: Sched, z: nat)
    requires Paced(s, z) && s.cur == z && s.quantumTicks <= 1
    ensures TickSched(s) == s.(q := Queues(s.q.free, s.q.ready[1..], [z]), cur := s.q.ready[0], quantumTicks := 3)
  {
    assert s.q.ready[0] in s.q.ready && Runnable(s, s.q.ready[0]);
  }

  /** The last tick of another task's quantum: `z` gets 15 ticks. */
  lemma HandBack(s: Sched, z: nat)
    requires Paced(s, z) && s.cur != z && s.quantumTicks <= 1
    ensures TickSched(s) == s.(q := Queues(s.q.free, s.q.ready + [s.cur], []), cur := z, quantumTicks := 15)
  {
    assert Runnable(s, s.cur) && Runnable(s, z);
    assert [z][1..] == [];
  }

  lemma PacedTick(s: Sched, z: nat)
    requires Paced(s, z)
    ensures TickSched(s).task == s.task
    ensures Paced(TickSched(s), z)
    ensures Phase(TickSched(s), z) == if Phase(s, z) == 17 then 0 else Phase(s, z) + 1
  {
    SomeLowIff(s);
    assert Runnable(s, s.cur);
    if Expires(s) {
      SwitchKeepsInv(s);
      if s.cur == z {
        HandOver(s, z);
      } else {
        HandBack(s, z);
      }
    }
  }

  ghost function AfterTicks(s: Sched, n: nat): Sched {
    Iterate(TickSched, s, n)
  }

  /** While a quantum lasts only the counter moves. */
  lemma {:induction false} QuantumRunsDown(s: Sched, n: nat)
    requires Partition(s) && n < s.quantumTicks
    ensures AfterTicks(s, n) == s.(quantumTicks := s.quantumTicks - n)
  {
    if n > 0 {
      QuantumRunsDown(s, n - 1);
    }
  }

  lemma OnlyCounterDiffers(s: Sched, s': Sched, z: nat)
    requires Paced(s, z) && s' == s.(quantumTicks := 1)
    ensures Paced(s', z)
  {
    assert forall t: nat :: Runnable(s', t) <==> Runnable(s, t);
  }

  lemma WholeQuantum(s: Sched, z: nat)
    requires Paced(s, z) && s.quantumTicks > 0
    ensures forall m :: 0 <= m < s.quantumTicks ==> AfterTicks(s, m).cur == s.cur
    ensures AfterTicks(s, s.quantumTicks) == TickSched(s.(quantumTicks := 1)) && Paced(s.(quantumTicks := 1), z)
  {
    var n: nat := s.quantumTicks;
    forall m | 0 <= m < n ensures AfterTicks(s, m) == s.(quantumTicks := n - m) {
      QuantumRunsDown(s, m);
    }
    OnlyCounterDiffers(s, s.(quantumTicks := 1), z);
    assert AfterTicks(s, n) == TickSched(AfterTicks(s, n - 1));
  }

  /** The rest of a turn of the task of nice 0. */
  lemma HighQuantum(s: Sched, z: nat)
    requires Paced(s, z) && s.cur == z && s.quantumTicks > 0
    ensures forall n :: 0 <= n < s.quantumTicks ==> AfterTicks(s, n).cur == z
    ensures var s' := AfterTicks(s, s.quantumTicks);
            && Paced(s', z) && Partition(s') && s'.cur != z
            && s' == s.(q := Queues(s.q.free, s.q.ready[1..], [z]), cur := s.q.ready[0], quantumTicks := QUANTUM)
  {
    var a := s.(quantumTicks := 1);
    WholeQuantum(s, z);
    HandOver(a, z);
    PacedTick(a, z);
  }

  /** The rest of a turn of another task. */
  lemma LowQuantum(s: Sched, z: nat)
    requires Paced(s, z) && s.cur != z && s.quantumTicks > 0
    ensures forall n :: 0 <= n < s.quantumTicks ==> AfterTicks(s, n).cur == s.cur
    ensures AfterTicks(s, s.quantumTicks)
            == s.(q := Queues(s.q.free, s.q.ready + [s.cur], []), cur := z, quantumTicks := 5 * QUANTUM)
  {
    WholeQuantum(s, z);
    HandBack(s.(quantumTicks := 1), z);
  }

  /** The turn after it: the first ready task has the CPU. */
  lemma NextTurn(s: Sched, z: nat, n: nat)
    requires Paced(s, z) && s.cur == z && 0 < s.quantumTicks <= n < s.quantumTicks + QUANTUM
    ensures AfterTicks(s, n).cur == s.q.ready[0]
  {
    hide AfterTicks, Paced, Partition;
    HighQuantum(s, z);
    QuantumRunsDown(AfterTicks(s, s.quantumTicks), n - s.quantumTicks);
    AfterLater(s, s.quantumTicks, n - s.quantumTicks);
  }

  lemma NextTurnEnds(s: Sched, z: nat)
    requires Paced(s, z) && s.cur == z && s.quantumTicks > 0
    ensures AfterTicks(s, s.quantumTicks + QUANTUM)
            == s.(q := s.q.(ready := s.q.ready[1..] + [s.q.ready[0]]), quantumTicks := 5 * QUANTUM)
  {
    assert s.q.prio == [];
    hide Paced, AfterTicks;
    HighQuantum(s, z);
    LowQuantum(AfterTicks(s, s.quantumTicks), z);
    AfterLater(s, s.quantumTicks, QUANTUM);
  }

  lemma AfterLater(s: Sched, a: nat, b: nat)
    ensures AfterTicks(s, a + b) == AfterTicks(AfterTicks(s, a), b)
  {
    IterateAdd(TickSched, s, a, b);
  }

  /** CPU share: from a dispatch of the task of nice 0, the next 15 ticks find it
      running, the 3 after them the first ready task; then it is dispatched again and
      that task is the last of the ready queue. */
  lemma CpuShare(s: Sched, z: nat)
    requires Paced(s, z) && s.cur == z && s.quantumTicks == 15
    ensures forall n :: 0 <= n < 15 ==> AfterTicks(s, n).cur == z
    ensures forall n :: 15 <= n < 18 ==> AfterTicks(s, n).cur == s.q.ready[0]
    ensures AfterTicks(s, 18) == s.(q := s.q.(ready := s.q.ready[1..] + [s.q.ready[0]]))
  {
    HighQuantum(s, z);
    NextTurnEnds(s, z);
    hide AfterTicks, Paced;
    forall n | 15 <= n < 18 ensures AfterTicks(s, n).cur == s.q.ready[0] {
      NextTurn(s, z, n);
    }
  }

  // ---------------------------------------------------------------------------
  // The regulator never disarms itself
  // ---------------------------------------------------------------------------

  /** The tick at a position of the cycle finds `z` running when schedule_fps looks. */
  predicate On(o: Order, phase: int) {
    if o == FpsFirst then phase % 18 < 15 else (phase + 1) % 18 < 15
  }

  /** The tick that would bring the countdown below zero finds `z` running, or the one
      before it, that brings it to zero, does. */
  predicate Armed(o: Order, phase: int, ticks: int) {
    0 <= ticks <= 18 && (On(o, phase + ticks) || (ticks >= 1 && On(o, phase + ticks - 1)))
  }

  /** No task waits: `z` keeps the CPU. */
  ghost predicate Alone(s: Sched, z: nat) {
    Partition(s) && s.cur == z && s.task[z].nice == 0 && QueuesEmpty(s)
  }

  ghost predicate Regulated(o: Order, k: Clock, z: nat) {
    && z < NR_TASKS && k.f.pid == k.s.task[z].pid
    && ((Paced(k.s, z) && Armed(o, Phase(k.s, z), k.f.ticks)) || (Alone(k.s, z) && 0 <= k.f.ticks <= 18))
  }

  /** The countdown and the phase after one tick. */
  function NextTicks(o: Order, phase: int, ticks: int): int {
    if ticks <= 1 && On(o, phase) then ticks + 17 else ticks - 1
  }

  lemma ArmedStep(o: Order, phase: int, ticks: int)
    requires 0 <= phase < 18 && Armed(o, phase, ticks)
    ensures Armed(o, (phase + 1) % 18, NextTicks(o, phase, ticks))
  {
  }

  lemma UnarmedStep(o: Order, phase: int, ticks: int)
    requires 0 <= phase < 18 && 0 <= ticks <= 18 && !Armed(o, phase, ticks)
    ensures NextTicks(o, phase, ticks) == ticks - 1
    ensures ticks > 0 ==> !Armed(o, (phase + 1) % 18, ticks - 1)
  {
  }

  /** One tick of a paced system, in numbers. */
  lemma TickInNumbers(o: Order, k: Clock, z: nat)
    requires Paced(k.s, z) && k.f.pid == k.s.task[z].pid && 0 <= k.f.ticks <= 18
    ensures var k' := Tick(o, k);
            && Paced(k'.s, z) && k'.s.task == k.s.task && k'.f.pid == k.f.pid
            && 0 <= Phase(k.s, z) < 18 && Phase(k'.s, z) == (Phase(k.s, z) + 1) % 18
            && k'.f.ticks == NextTicks(o, Phase(k.s, z), k.f.ticks)
  {
    PacedTick(k.s, z);
    CountdownInNumbers(o, k, TickSched(k.s), z);
  }

  lemma CountdownInNumbers(o: Order, k: Clock, s': Sched, z: nat)
    requires Paced(k.s, z) && k.f.pid == k.s.task[z].pid && 0 <= k.f.ticks <= 18
    requires Paced(s', z) && s'.task == k.s.task
    requires Phase(s', z) == if Phase(k.s, z) == 17 then 0 else Phase(k.s, z) + 1
    ensures var f' := ScheduleFps(k.f, Pid(if o == FpsFirst then k.s else s'));
            && f'.pid == k.f.pid && 0 <= Phase(k.s, z) < 18 && Phase(s', z) == (Phase(k.s, z) + 1) % 18
            && f'.ticks == NextTicks(o, Phase(k.s, z), k.f.ticks)
  {
    PacedPhase(k.s, z);
    PacedPhase(s', z);
  }

  lemma TickKeepsRegulated(o: Order, k: Clock, z: nat)
    requires Regulated(o, k, z)
    ensures Regulated(o, Tick(o, k), z) && Tick(o, k).s.task == k.s.task
  {
    if Alone(k.s, z) {
      AloneTick(k.s, z);
    } else {
      TickInNumbers(o, k, z);
      ArmedStep(o, Phase(k.s, z), k.f.ticks);
    }
  }

  lemma AloneTick(s: Sched, z: nat)
    requires Alone(s, z)
    ensures Alone(TickSched(s), z) && TickSched(s).task == s.task
  {
  }

  /** What can happen in a run with a fixed set of tasks. */
  datatype Action = Interrupt | CallSetFps(fps: int) | CallPutScreen(screen: int)

  /** set_fps is called by `z`, when it runs; put_screen by whoever runs. */
  ghost function Act(o: Order, k: Clock, a: Action, z: nat): Clock {
    match a
    case Interrupt => Tick(o, k)
    case CallSetFps(fps) => if k.s.cur == z && fps != -1 then k.(f := SetFps(k.f, fps, Pid(k.s))) else k
    case CallPutScreen(screen) => k.(f := PutScreen(k.f, screen, Pid(k.s)).0)
  }

  ghost function Acts(o: Order, k: Clock, az: seq<Action>, z: nat): Clock {
    if az == [] then k else Act(o, Acts(o, k, az[..|az| - 1], z), az[|az| - 1], z)
  }

  lemma SetFpsArms(o: Order, k: Clock, fps: int, z: nat)
    requires (Paced(k.s, z) || Alone(k.s, z)) && k.s.cur == z && fps != -1
    ensures Regulated(o, k.(f := SetFps(k.f, fps, Pid(k.s))), z)
  {
    if Paced(k.s, z) {
      PacedPhase(k.s, z);
    }
  }

  lemma {:induction false} StaysRegulated(o: Order, k: Clock, az: seq<Action>, z: nat)
    requires Regulated(o, k, z)
    ensures Regulated(o, Acts(o, k, az, z), z) && Acts(o, k, az, z).s.task == k.s.task
  {
    if az != [] {
      var before := az[..|az| - 1];
      StaysRegulated(o, k, before, z);
      var g := Acts(o, k, before, z);
      match az[|az| - 1]
      case Interrupt => TickKeepsRegulated(o, g, z);
      case CallSetFps(fps) =>
        if g.s.cur == z && fps != -1 {
          SetFpsArms(o, g, fps, z);
        }
      case CallPutScreen(_) =>
    }
  }

  /** The moment `z` calls set_fps: no other task has nice 0, and any part of the
      quantum of `z` is left. */
  ghost predicate AboutToRegulate(s: Sched, z: nat) {
    && Partition(s) && Classed(s) && s.cur == z && s.q.prio == [] && s.quantumTicks <= 15
    && (forall t :: 0 <= t < NR_TASKS && Runnable(s, t) ==> s.task[t].quantum == QUANTUM)
    && (forall t :: 0 <= t < NR_TASKS && Runnable(s, t) && t != z ==> s.task[t].pid != s.task[z].pid)
  }

  /** The regulator of a task that is alone in its class never disarms itself: whatever
      part of its quantum the task has left when it calls set_fps, no run of ticks,
      screens and further calls leaves the countdown at -1, for either order of the two
      routines within a tick. */
  lemma NeverDisarms(o: Order, k: Clock, fps: int, az: seq<Action>)
    requires AboutToRegulate(k.s, k.s.cur) && fps != -1
    ensures var z := k.s.cur;
            var k' := Acts(o, Clock(SetNice(k.s, 0), SetFps(k.f, fps, Pid(k.s))), az, z);
            k'.f.ticks != OFF && 0 <= k'.f.ticks <= 18 && k'.f.pid == k.s.task[z].pid
  {
    var z := k.s.cur;
    var s := SetNice(k.s, 0);
    assert Runnable(k.s, z) && forall t: nat :: Runnable(s, t) <==> Runnable(k.s, t);
    assert Paced(s, z) || Alone(s, z);
    SetFpsArms(o, Clock(s, k.f), fps, z);
    StaysRegulated(o, Clock(s, SetFps(k.f, fps, Pid(k.s))), az, z);
  }

  function Interrupts(az: seq<Action>): nat {
    if az == [] then 0 else Interrupts(az[..|az| - 1]) + if az[|az| - 1].Interrupt? then 1 else 0
  }

  /** The PID that schedule_fps compares with in the next interrupt. */
  ghost function PidSeen(o: Order, s: Sched): int {
    Pid(if o == FpsFirst then s else TickSched(s))
  }

  /** At every refill of the run the regulated task had used up its allowance. */
  ghost predicate KeepsBusy(o: Order, k: Clock, az: seq<Action>, z: nat) {
    az == [] || (
      var before := az[..|az| - 1];
      var g := Acts(o, k, before, z);
      && KeepsBusy(o, k, before, z)
      && (az[|az| - 1].Interrupt? && Refills(g.f, PidSeen(o, g.s)) ==> g.f.sem == 0))
  }

  /** What the regulator sees of a run without further calls of set_fps. */
  lemma {:induction false} RegulatorRun(o: Order, k: Clock, az: seq<Action>, z: nat) returns (es: seq<Event>)
    requires forall i :: 0 <= i < |az| ==> !az[i].CallSetFps?
    ensures Acts(o, k, az, z).f == Run(k.f, es) && Ticks(es) == Interrupts(az)
    ensures KeepsBusy(o, k, az, z) ==> UsesAllowance(k.f, es)
  {
    es := [];
    if az != [] {
      var before, a := az[..|az| - 1], az[|az| - 1];
      es := RegulatorRun(o, k, before, z);
      var g := Acts(o, k, before, z);
      var e := match a
        case Interrupt => Event.Tick(PidSeen(o, g.s))
        case CallSetFps(_) => Put(0, 0)
        case CallPutScreen(screen) => Put(screen, Pid(g.s));
      assert (es + [e])[..|es|] == es;
      es := es + [e];
    }
  }

  /** The frame rate is kept: after set_fps(fps) the screens shown for the task in any
      run with `t` ticks number at most fps * (1 + t / 18). */
  lemma RateIsKept(o: Order, k: Clock, fps: nat, az: seq<Action>)
    requires AboutToRegulate(k.s, k.s.cur)
    requires forall i :: 0 <= i < |az| ==> !az[i].CallSetFps?
    ensures var start := Clock(SetNice(k.s, 0), SetFps(k.f, fps, Pid(k.s)));
            Acts(o, start, az, k.s.cur).f.shown - k.f.shown <= fps * (1 + Interrupts(az) / 18)
  {
    assert k.s.cur < NR_TASKS;
    hide AboutToRegulate, Acts, Interrupts, Run, Ticks;
    NeverDisarms(o, k, fps, az);
    var es := RegulatorRun(o, Clock(SetNice(k.s, 0), SetFps(k.f, fps, Pid(k.s))), az, k.s.cur);
    ShownIsBounded(k.f, fps, Pid(k.s), es);
  }

  /** The frame rate is guaranteed: in any run in which the task uses up each allowance
      before the next one, the screens shown in `t` ticks number at least
      fps * (t / 18 - 1). */
  lemma RateIsGuaranteed(o: Order, k: Clock, fps: nat, az: seq<Action>)
    requires AboutToRegulate(k.s, k.s.cur)
    requires forall i :: 0 <= i < |az| ==> !az[i].CallSetFps?
    requires KeepsBusy(o, Clock(SetNice(k.s, 0), SetFps(k.f, fps, Pid(k.s))), az, k.s.cur)
    ensures var start := Clock(SetNice(k.s, 0), SetFps(k.f, fps, Pid(k.s)));
            Acts(o, start, az, k.s.cur).f.shown - k.f.shown >= fps * (Interrupts(az) / 18) - fps
  {
    assert k.s.cur < NR_TASKS;
    hide AboutToRegulate, Acts, Interrupts, Run, Ticks, UsesAllowance, KeepsBusy;
    NeverDisarms(o, k, fps, az);
    var es := RegulatorRun(o, Clock(SetNice(k.s, 0), SetFps(k.f, fps, Pid(k.s))), az, k.s.cur);
    ShownAtLeast(k.f, fps, Pid(k.s), es);
  }

  ghost function AfterInterrupts(o: Order, k: Clock, n: nat): Clock {
    Iterate((c: Clock) => Tick(o, c), k, n)
  }

  /** No number of interrupts leaves the countdown at -1. */
  ghost predicate StaysArmed(o: Order, k: Clock) {
    forall n: nat :: AfterInterrupts(o, k, n).f.ticks != OFF
  }

  /** A regulated countdown stays armed for ever, with these tasks. */
  lemma RegulatedStaysArmed(o: Order, k: Clock, z: nat)
    requires Regulated(o, k, z)
    ensures StaysArmed(o, k)
  {
    forall n: nat ensures AfterInterrupts(o, k, n).f.ticks != OFF {
      InterruptsKeepRegulated(o, k, z, n);
    }
  }

  lemma InterruptsLater(o: Order, k: Clock, a: nat, b: nat)
    ensures AfterInterrupts(o, k, a + b) == AfterInterrupts(o, AfterInterrupts(o, k, a), b)
  {
    IterateAdd((c: Clock) => Tick(o, c), k, a, b);
  }

  lemma AfterFirst(o: Order, k: Clock, n: nat)
    ensures AfterInterrupts(o, k, n + 1) == AfterInterrupts(o, Tick(o, k), n)
  {
    var tick := (c: Clock) => Tick(o, c);
    IterateAdd(tick, k, 1, n);
    assert Iterate(tick, k, 1) == tick(Iterate(tick, k, 0)) == Tick(o, k);
  }

  /** Armed is exact: a paced countdown that does not satisfy it is at -1 after `ticks`+1
      interrupts. */
  lemma {:induction false} UnarmedDisarms(o: Order, k: Clock, z: nat)
    requires Paced(k.s, z) && k.f.pid == k.s.task[z].pid && 0 <= k.f.ticks <= 18
    requires !Armed(o, Phase(k.s, z), k.f.ticks)
    ensures AfterInterrupts(o, k, k.f.ticks + 1).f.ticks == OFF
    decreases k.f.ticks
  {
    hide Tick, Paced, AfterInterrupts, Armed, Phase, NextTicks;
    TickInNumbers(o, k, z);
    UnarmedStep(o, Phase(k.s, z), k.f.ticks);
    AfterFirst(o, k, k.f.ticks);
    if k.f.ticks > 0 {
      UnarmedDisarms(o, Tick(o, k), z);
    } else {
      AfterNone(o, Tick(o, k));
    }
  }

  lemma AfterNone(o: Order, k: Clock)
    ensures AfterInterrupts(o, k, 0) == k
  {
  }

  lemma {:induction false} InterruptsKeepRegulated(o: Order, k: Clock, z: nat, n: nat)
    requires Regulated(o, k, z)
    ensures Regulated(o, AfterInterrupts(o, k, n), z)
  {
    hide Regulated;
    if n > 0 {
      InterruptsKeepRegulated(o, k, z, n - 1);
      TickKeepsRegulated(o, AfterInterrupts(o, k, n - 1), z);
    }
  }

  /** With the task of nice 0 paced, the countdown stays armed for ever exactly when
      Armed holds of its present value. */
  lemma StaysArmedIff(o: Order, k: Clock, z: nat)
    requires Paced(k.s, z) && k.f.pid == k.s.task[z].pid && 0 <= k.f.ticks <= 18
    ensures StaysArmed(o, k) <==> Armed(o, Phase(k.s, z), k.f.ticks)
  {
    if Armed(o, Phase(k.s, z), k.f.ticks) {
      RegulatedStaysArmed(o, k, z);
    } else {
      UnarmedDisarms(o, k, z);
    }
  }
}
