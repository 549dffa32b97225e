/** The kernel and the stacks of its tasks in one run: whatever task the scheduler
    chooses, its stack can be resumed (zeOS/sched.c:166-191, zeOS/sys.c:61-175,
    zeOS/entry.S:151-199). */
module Dispatch {
  import opened Layout
  import opened Scheduler
  import opened SystemCalls
  import opened Runs
  import C = ContextSwitch

  /** The stack of the task says how it left the CPU. */
  ghost predicate CanResume(x: C.State, t: nat) {
    t < NR_TASKS && exists p :: C.ParkedOn(x.mem[t], t, p)
  }

  /** The processor runs the kernel's current task, and every other live task can be
      resumed. */
  ghost predicate AllParked(k: Kernel, x: C.State) {
    && x.slot == k.s.cur && C.Agreeing(x) && x.mem[x.slot][C.DIR_WORD] == C.Dir(x.slot)
    && forall t :: t in Live(k.s) && t != k.s.cur ==> CanResume(x, t)
  }

  /** The running task is about to call task_switch for `t`: the argument is pushed. */
  predicate Calls(y: C.State, t: nat) {
    && C.Room(y.slot, y.esp, 16) && y.esp < C.KERNEL_STACK_SIZE
    && y.mem[y.slot][y.esp] == C.Ptr(t, 0)
  }

  /** What the code of a call does to the stacks: fork builds the child's, a change of the
      current task is a call of task_switch, and all else is computation. */
  ghost predicate OnStacks(k: Kernel, c: Call, x: C.State, x': C.State)
    requires KInv(k) && !Stuck(k, c)
  {
    if c.CallFork? && ForkSucceeds(k) then
      exists y, y' :: C.Computed(x, y) && C.Stepped(y, C.Spawn(k.s.q.free[0]), y') && C.Computed(y', x')
    else if Apply(k, c).s.cur != k.s.cur then
      exists y, p, at, pc, y' ::
        && C.Computed(x, y) && Calls(y, Apply(k, c).s.cur)
        && C.Stepped(y, C.Switch(Apply(k, c).s.cur, p, at, pc), y') && C.Computed(y', x')
    else C.Computed(x, x')
  }

  // ---------------------------------------------------------------------------
  // One call
  // ---------------------------------------------------------------------------

  lemma ComputedResumes(x: C.State, y: C.State, t: nat)
    requires C.Computed(x, y) && t != x.slot && CanResume(x, t)
    ensures CanResume(y, t)
  {
    var p :| C.ParkedOn(x.mem[t], t, p);
    C.StackIsParked(x.mem[t], y.mem[t], t, p);
  }

  lemma ComputedParked(k: Kernel, x: C.State, y: C.State)
    requires AllParked(k, x) && C.Computed(x, y)
    ensures AllParked(k, y)
  {
    forall t | t in Live(k.s) && t != k.s.cur ensures CanResume(y, t) {
      ComputedResumes(x, y, t);
    }
  }

  /** The task that exit or the tick chooses can be switched to: its stack tells in which
      way. */
  lemma ChosenCanBeResumed(k: Kernel, c: Call, x: C.State, y: C.State) returns (p: C.Parked)
    requires KInv(k) && Keeps(k, c) && !Stuck(k, c) && Apply(k, c).s.cur != k.s.cur
    requires AllParked(k, x) && C.Computed(x, y) && Calls(y, Apply(k, c).s.cur)
    ensures C.CanCall(y, Apply(k, c).s.cur, p)
  {
    var t := Apply(k, c).s.cur;
    WhoIsLive(k, c, t);
    hide KInv, Keeps, Apply, Live;
    ComputedParked(k, x, y);
    assert CanResume(y, t);
    p :| C.ParkedOn(y.mem[t], t, p);
  }

  /** A new stack can be resumed, and no other stack is touched. */
  lemma SpawnParks(x: C.State, child: nat, x': C.State)
    requires C.Stepped(x, C.Spawn(child), x')
    ensures x'.slot == x.slot && CanResume(x', child)
    ensures C.Agreeing(x) ==> C.Agreeing(x') && x'.mem[x.slot] == x.mem[x.slot]
    ensures forall t: nat :: t != child && CanResume(x, t) ==> CanResume(x', t)
  {
    C.ForkedIsNewborn(x.mem[x.slot], child);
    assert C.ParkedOn(x'.mem[child], child, C.Newborn);
    forall t: nat | t != child && CanResume(x, t) ensures CanResume(x', t) {
      assert x'.mem[t] == x.mem[t];
    }
  }

  lemma ForkParked(k: Kernel, x: C.State, x': C.State)
    requires KInv(k) && Keeps(k, CallFork) && ForkSucceeds(k) && AllParked(k, x)
    requires C.Stepped(x, C.Spawn(k.s.q.free[0]), x')
    ensures AllParked(Apply(k, CallFork), x')
  {
    var child := k.s.q.free[0];
    hide KInv, Keeps, Apply, Live, ForkSucceeds, CanResume, C.Stepped, C.Agreeing;
    var k' := Apply(k, CallFork);
    WhoIsLive(k, CallFork, k.s.cur);
    SpawnParks(x, child, x');
    forall t | t in Live(k'.s) && t != k'.s.cur ensures CanResume(x', t) {
      WhoIsLive(k, CallFork, t);
    }
  }

  lemma SwitchParked(k: Kernel, c: Call, x: C.State, p: C.Parked, at: C.Target, pc: C.Target, x': C.State)
    requires KInv(k) && Keeps(k, c) && !Stuck(k, c) && Apply(k, c).s.cur != k.s.cur && AllParked(k, x)
    requires C.Stepped(x, C.Switch(Apply(k, c).s.cur, p, at, pc), x')
    ensures AllParked(Apply(k, c), x')
  {
    var k' := Apply(k, c);
    WhoIsLive(k, c, k'.s.cur);
    forall t | t in Live(k'.s) && t != k'.s.cur ensures CanResume(x', t) {
      WhoIsLive(k, c, t);
      if t == x.slot {
        assert C.ParkedOn(x'.mem[t], t, C.Suspended(C.ContextAt(x, at)));
      } else {
        assert CanResume(x, t);
      }
    }
  }

  lemma StepParked(k: Kernel, c: Call, x: C.State, x': C.State)
    requires KInv(k) && Keeps(k, c) && !Stuck(k, c) && AllParked(k, x) && OnStacks(k, c, x, x')
    ensures AllParked(Apply(k, c), x')
  {
    var k' := Apply(k, c);
    if c.CallFork? && ForkSucceeds(k) {
      var y, y' :| C.Computed(x, y) && C.Stepped(y, C.Spawn(k.s.q.free[0]), y') && C.Computed(y', x');
      ComputedParked(k, x, y);
      ForkParked(k, y, y');
      ComputedParked(k', y', x');
    } else if k'.s.cur != k.s.cur {
      var y, p, at, pc, y' :| C.Computed(x, y) && C.Stepped(y, C.Switch(k'.s.cur, p, at, pc), y') && C.Computed(y', x');
      ComputedParked(k, x, y);
      SwitchParked(k, c, y, p, at, pc, y');
      ComputedParked(k', y', x');
    } else {
      ComputedParked(k, x, x');
      SameCurrentParked(k, c, x');
    }
  }

  lemma SameCurrentParked(k: Kernel, c: Call, x: C.State)
    requires KInv(k) && Keeps(k, c) && !Stuck(k, c) && AllParked(k, x)
    requires Apply(k, c).s.cur == k.s.cur && !(c.CallFork? && ForkSucceeds(k))
    ensures AllParked(Apply(k, c), x)
  {
    forall t | t in Live(Apply(k, c).s) && t != k.s.cur ensures CanResume(x, t) {
      WhoIsLive(k, c, t);
    }
  }

  // ---------------------------------------------------------------------------
  // Runs
  // ---------------------------------------------------------------------------

  /** A run of the kernel and the states of its processor and stacks. It starts with the
      first process on the CPU. */
  ghost predicate JointTrace(ks: seq<Kernel>, cs: seq<Call>, xs: seq<C.State>) {
    && Trace(ks, cs) && |xs| == |ks|
    && xs[0].slot == 8 && C.Agreeing(xs[0]) && xs[0].mem[8][C.DIR_WORD] == C.Dir(8)
    && forall i :: 0 <= i < |cs| ==> JointStep(ks[i], cs[i], xs[i], xs[i + 1])
  }

  ghost predicate JointStep(k: Kernel, c: Call, x: C.State, x': C.State) {
    KInv(k) && !Stuck(k, c) ==> OnStacks(k, c, x, x')
  }

  /** In every run of calls, ticks and switches together: the processor runs the kernel's
      current task with its stack, MSR and directory, and every other live task can be
      resumed. */
  lemma {:induction false} ParkedInEveryRun(ks: seq<Kernel>, cs: seq<Call>, xs: seq<C.State>, i: nat)
    requires JointTrace(ks, cs, xs) && i <= |cs|
    ensures KInv(ks[i]) && AllParked(ks[i], xs[i])
  {
    InvariantInEveryRun(ks, cs, i);
    if i == 0 {
      var ram :| ks[0] == Boot(ram);
      BootSchedInv();
    } else {
      ParkedInEveryRun(ks, cs, xs, i - 1);
      assert StepOf(ks[i - 1], cs[i - 1], ks[i]) && JointStep(ks[i - 1], cs[i - 1], xs[i - 1], xs[i]);
      StepParked(ks[i - 1], cs[i - 1], xs[i - 1], xs[i]);
    }
  }

  /** What a waiting task resumes with, through one call. */
  lemma StepKeepsContext(k: Kernel, c: Call, x: C.State, x': C.State, t: nat, p: C.Parked)
    requires KInv(k) && !Stuck(k, c) && OnStacks(k, c, x, x') && x.slot == k.s.cur
    requires t in Live(k.s) && t != k.s.cur && Apply(k, c).s.cur != t && C.ParkedOn(x.mem[t], t, p)
    ensures C.ParkedOn(x'.mem[t], t, p)
  {
    assert c.CallFork? && ForkSucceeds(k) ==> k.s.q.free[0] !in Live(k.s) by {
      if c.CallFork? && ForkSucceeds(k) {
        FreeSlot(k);
      }
    }
    hide KInv, Stuck, Apply, C.ParkedOn, ForkSucceeds, C.Stepped;
    if C.Computed(x, x') {
      C.StackIsParked(x.mem[t], x'.mem[t], t, p);
    } else {
      var y, e, y' := MiddleStep(k, c, x, x');
      ContextThrough(x, y, e, y', x', t, p);
    }
  }

  /** A stack that a step does not concern. */
  lemma ContextThrough(x: C.State, y: C.State, e: C.Step, y': C.State, x': C.State, t: nat, p: C.Parked)
    requires C.Stepped(x, C.Compute, y) && C.Stepped(y, e, y') && C.Stepped(y', C.Compute, x')
    requires t < NR_TASKS && t != x.slot && !e.Compute? && !C.Concerns(e, t) && C.ParkedOn(x.mem[t], t, p)
    ensures C.ParkedOn(x'.mem[t], t, p)
  {
    C.StackIsParked(x.mem[t], y.mem[t], t, p);
    assert y'.mem[t] == y.mem[t] && y'.slot != t;
    C.StackIsParked(y'.mem[t], x'.mem[t], t, p);
  }

  /** In every run: while a live task waits, what it will resume with stays the same, its
      registers, stack pointer and return address, or that it is newborn. */
  lemma {:induction false} ContextWaits(ks: seq<Kernel>, cs: seq<Call>, xs: seq<C.State>, i: nat, j: nat, t: nat,
                                        p: C.Parked)
    requires JointTrace(ks, cs, xs) && i <= j <= |cs| && Waiting(ks[i], xs[i], t, p)
    requires forall m :: i <= m <= j ==> ks[m].s.cur != t
    ensures Waiting(ks[j], xs[j], t, p)
  {
    hide Waiting, KInv, StepOf, JointTrace, Trace, JointStep, AllParked;
    JointSizes(ks, cs, xs);
    if i < j {
      ContextWaits(ks, cs, xs, i, j - 1, t, p);
      ParkedInEveryRun(ks, cs, xs, j - 1);
      JointAt(ks, cs, xs, j - 1);
      WaitsThrough(ks[j - 1], cs[j - 1], ks[j], xs[j - 1], xs[j], t, p);
    }
  }

  /** The task is live, and its stack says that it left the CPU in this way. */
  ghost predicate Waiting(k: Kernel, x: C.State, t: nat, p: C.Parked) {
    t in Live(k.s) && C.ParkedOn(x.mem[t], t, p)
  }

  lemma JointSizes(ks: seq<Kernel>, cs: seq<Call>, xs: seq<C.State>)
    requires JointTrace(ks, cs, xs)
    ensures |ks| == |xs| == |cs| + 1
  {
  }

  lemma JointAt(ks: seq<Kernel>, cs: seq<Call>, xs: seq<C.State>, i: nat)
    requires JointTrace(ks, cs, xs) && i < |cs|
    ensures StepOf(ks[i], cs[i], ks[i + 1]) && JointStep(ks[i], cs[i], xs[i], xs[i + 1])
  {
  }

  lemma WaitsThrough(k: Kernel, c: Call, k': Kernel, x: C.State, x': C.State, t: nat, p: C.Parked)
    requires KInv(k) && StepOf(k, c, k') && JointStep(k, c, x, x') && AllParked(k, x)
    requires Waiting(k, x, t, p) && t != k.s.cur && k'.s.cur != t
    ensures Waiting(k', x', t, p)
  {
    hide KInv, Keeps, Stuck, OnStacks, Live, Apply, C.ParkedOn;
    StepsKeepOthersLive(k, c, t);
    StepKeepsContext(k, c, x, x', t, p);
  }

  /** One more step of the stacks. */
  lemma Longer(ys: seq<C.State>, es: seq<C.Step>, e: C.Step, y: C.State)
    requires C.Run(ys, es) && C.Stepped(ys[|es|], e, y)
    ensures C.Run(ys + [y], es + [e])
  {
    forall i | 0 <= i < |es| + 1 ensures C.Stepped((ys + [y])[i], (es + [e])[i], (ys + [y])[i + 1]) {
      if i < |es| {
        assert C.Stepped(ys[i], es[i], ys[i + 1]);
      }
    }
  }

  /** What one call adds to a run of the stacks. */
  lemma CallIsRun(k: Kernel, c: Call, x': C.State, ys: seq<C.State>, es: seq<C.Step>)
      returns (ys': seq<C.State>, es': seq<C.Step>)
    requires C.Run(ys, es) && KInv(k) && !Stuck(k, c) && OnStacks(k, c, ys[|es|], x')
    ensures C.Run(ys', es') && ys'[0] == ys[0] && ys'[|es'|] == x'
  {
    hide KInv, Stuck, Apply, ForkSucceeds, C.Stepped, C.Computed, Calls;
    var x := ys[|es|];
    ys', es' := ys, es;
    if !C.Computed(x, x') {
      var y, e, y' := MiddleStep(k, c, x, x');
      Longer(ys', es', C.Compute, y);
      ys', es' := ys' + [y], es' + [C.Compute];
      Longer(ys', es', e, y');
      ys', es' := ys' + [y'], es' + [e];
    }
    Longer(ys', es', C.Compute, x');
    ys', es' := ys' + [x'], es' + [C.Compute];
  }

  lemma MiddleStep(k: Kernel, c: Call, x: C.State, x': C.State) returns (y: C.State, e: C.Step, y': C.State)
    requires KInv(k) && !Stuck(k, c) && OnStacks(k, c, x, x') && !C.Computed(x, x')
    ensures C.Stepped(x, C.Compute, y) && C.Stepped(y, e, y') && C.Stepped(y', C.Compute, x')
    ensures c.CallFork? ==> ForkSucceeds(k)
    ensures e == if c.CallFork? then C.Spawn(k.s.q.free[0]) else C.Switch(Apply(k, c).s.cur, e.p, e.at, e.pc)
  {
    if c.CallFork? && ForkSucceeds(k) {
      e := C.Spawn(k.s.q.free[0]);
      y, y' :| C.Computed(x, y) && C.Stepped(y, e, y') && C.Computed(y', x');
    } else {
      var p, at, pc;
      y, p, at, pc, y' :| C.Computed(x, y) && C.Stepped(y, C.Switch(Apply(k, c).s.cur, p, at, pc), y') && C.Computed(y', x');
      e := C.Switch(Apply(k, c).s.cur, p, at, pc);
    }
  }

  /** A run of the kernel is a run of the stacks, so the round trip of ContextSwitch holds
      between its switches. */
  lemma {:induction false} JointIsRun(ks: seq<Kernel>, cs: seq<Call>, xs: seq<C.State>, i: nat)
      returns (ys: seq<C.State>, es: seq<C.Step>)
    requires JointTrace(ks, cs, xs) && i <= |cs|
    ensures C.Run(ys, es) && ys[0] == xs[0] && ys[|es|] == xs[i]
  {
    if i == 0 {
      ys, es := [xs[0]], [];
    } else {
      ys, es := JointIsRun(ks, cs, xs, i - 1);
      InvariantInEveryRun(ks, cs, i - 1);
      assert StepOf(ks[i - 1], cs[i - 1], ks[i]) && JointStep(ks[i - 1], cs[i - 1], xs[i - 1], xs[i]);
      ys, es := CallIsRun(ks[i - 1], cs[i - 1], xs[i], ys, es);
    }
  }
}
