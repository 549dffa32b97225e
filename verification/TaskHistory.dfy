/** What a call answers and leaves behind, told from the calls alone: breaks, classes and
    PIDs of tasks over every run, and the length of every turn
    (zeOS/sched.c:140-191, zeOS/sys.c:61-175, 249-318). */
module TaskHistory {
  import opened Layout
  import opened Frames
  import opened Paging
  import opened AddressSpace
  import opened HeapSpace
  import opened TaskQueues
  import opened Scheduler
  import opened Regulator
  import opened SystemCalls
  import opened Runs
  import opened Pacing
  import opened Contention

  // ---------------------------------------------------------------------------
  // What one call answers and leaves behind
  // ---------------------------------------------------------------------------

  /** sbrk moves the break by its argument, down to the start of the heap at most, and
      returns the old break; if it fails it returns -1 and leaves the break. */
  lemma SbrkMoves(k: Kernel, n: int32)
    requires KInv(k) && (k.s.task[k.s.cur].brk + n >= 0 || k.s.task[k.s.cur].brk == 0x11C000)
    ensures var b, (k', ret) := k.s.task[k.s.cur].brk, SbrkCall(k, n);
            && k'.s.q == k.s.q && k'.s.cur == k.s.cur && k'.s.quantumTicks == k.s.quantumTicks
            && k'.nextPid == k.nextPid && k'.fps == k.fps && k'.vm.ram == k.vm.ram
            && (forall t :: 0 <= t < NR_TASKS && t != k.s.cur ==> k'.s.task[t] == k.s.task[t])
            && if ret == -1 then k'.s.task[k.s.cur].brk == b
               else ret == b && k'.s.task[k.s.cur].brk == (if b + n < 0x11C000 then 0x11C000 else b + n)
    ensures var p, p' := k.s.task[k.s.cur], SbrkCall(k, n).0.s.task[k.s.cur];
            p'.nice == p.nice && p'.pid == p.pid && p'.quantum == p.quantum && p'.dir == p.dir
  {
    CurrentIsLive(k);
    BreakBound(k.vm, Live(k.s), Brks(k.s.task), k.s.cur);
  }

  lemma SpanUndone(v: Vm, live: set<nat>, brk: Breaks, s: nat, n: int32)
    requires VmInv(v, live, brk) && s in live && n > 0
    requires s < NR_TASKS && L_HEAP_START <= brk[s] && brk[s] + n < 0x8000_0000
    requires Sbrk(v, s, brk[s], n).ret != -1
    ensures Sbrk(Sbrk(v, s, brk[s], n).vm, s, brk[s] + n, -n).vm.used == v.used
  {
    hide VmInv, FreshFrames, AllocN, SpanFirst, SpanPages, NumPages, PoolFrame, Released, Grown;
    var b := brk[s];
    SpanStartsAfterCounted(b, b + n);
    var fr := AllocN(v.used, SpanPages(b, b + n));
    AllocNFresh(v.used, SpanPages(b, b + n));
    GrowBounds(v, live, brk, s, fr);
    SpanIsReleased(v, s, SpanFirst(b), fr);
  }

  /** A growth is undone by the opposite call: the break and the byte map of frames are as
      they were. */
  lemma GrowthIsUndone(k: Kernel, n: int32)
    requires KInv(k) && n > 0 && SbrkCall(k, n).1 != -1
    ensures KInv(SbrkCall(k, n).0)
    ensures var (k', ret) := SbrkCall(SbrkCall(k, n).0, -n);
            ret == k.s.task[k.s.cur].brk + n && k'.s.task == k.s.task && k'.vm.used == k.vm.used
  {
    CurrentIsLive(k);
    SbrkMoves(k, n);
    SbrkKeepsIff(k, n);
    var k1 := SbrkCall(k, n).0;
    CurrentIsLive(k1);
    BreakBound(k1.vm, Live(k1.s), Brks(k1.s.task), k1.s.cur);
    SbrkMoves(k1, -n);
    BreakBound(k.vm, Live(k.s), Brks(k.s.task), k.s.cur);
    SpanUndone(k.vm, Live(k.s), Brks(k.s.task), k.s.cur, n);
    hide KInv, VmInv, Sbrk;
    assert SbrkCall(k1, -n).0.s.task == k.s.task;
  }

  lemma SpanIsReleased(v: Vm, s: nat, first: nat, fr: seq<nat>)
    requires s < NR_TASKS && first + |fr| <= TOTAL_PAGES && FreshFrames(v.used, fr)
    requires forall i :: 0 <= i < |fr| ==> PoolFrame(fr[i])
    ensures Released(Grown(v, s, first, fr), s, first, |fr|).used == v.used
  {
    var t := Installed(v.pt[s], first, fr);
    forall f: nat | f < 1024 ensures (v.used[f] || f in fr) && !(f > NUM_PAG_KERNEL && Names(t, first, |fr|, f)) <==> v.used[f] {
      if f in fr {
        var i :| 0 <= i < |fr| && fr[i] == f;
        assert t[first + i].frame == f;
      }
    }
  }

  /** fork answers -EAGAIN exactly without a free slot, -ENOMEM exactly with a slot and too
      few frames, and else the next PID. */
  lemma ForkAnswers(k: Kernel)
    requires KInv(k)
    ensures Fork(k).1 == if k.s.q.free == [] then -11
                         else if |FreeSet(k.vm.used)| < Needed(k) then -12
                         else k.nextPid
    ensures Fork(k).1 >= 0 <==> ForkSucceeds(k)
  {
    CurrentIsLive(k);
    AllocNSucceedsIff(k.vm.used, Needed(k));
    assert 0 < k.nextPid;
  }

  /** A successful fork: the first free slot becomes a task like its parent, with the next
      PID and its own directory, and waits as the last of its class. */
  lemma ForkMoves(k: Kernel)
    requires KInv(k) && ForkSucceeds(k)
    ensures k.s.q.free[0] < NR_TASKS
    ensures var (s, p, c, k') := (k.s, k.s.task[k.s.cur], k.s.q.free[0], Fork(k).0);
            && k'.s.task == s.task[c := Pcb(k.nextPid, c, p.quantum, p.nice, p.brk)]
            && k'.s.q.free == s.q.free[1..]
            && k'.s.q.ready == (if p.nice != 0 then s.q.ready + [c] else s.q.ready)
            && k'.s.q.prio == (if p.nice != 0 then s.q.prio else s.q.prio + [c])
            && k'.s.cur == s.cur && k'.s.quantumTicks == s.quantumTicks
            && k'.fps == k.fps && k'.nextPid == k.nextPid + 1
  {
    ForkOutcome(k);
    hide KInv, ForkSucceeds, Fork, ForkReady;
  }

  /** exit: the task that leaves has no PID any more and is the last free slot; its
      successor comes from the priority queue if it had nice 1 and somebody waits there,
      else from the ready queue. */
  lemma ExitMoves(k: Kernel)
    requires KInv(k) && Quanta(k.s) && CanSwitch(Leave(k.s))
    ensures var (s, s', low) := (k.s, ExitCall(k).s, k.s.task[k.s.cur].nice != 0);
            && s'.task == s.task[s.cur := s.task[s.cur].(pid := -1)]
            && s'.q.free == s.q.free + [s.cur]
            && (if low && s.q.prio != [] then [s'.cur] + s'.q.prio == s.q.prio && s'.q.ready == s.q.ready
                else [s'.cur] + s'.q.ready == s.q.ready && s'.q.prio == s.q.prio)
            && s'.quantumTicks == if low then 15 else 3
    ensures var k' := ExitCall(k); k'.vm.ram == k.vm.ram && k'.fps == k.fps && k'.nextPid == k.nextPid
  {
    var s := k.s;
    assert s.q.ready != [] ==> s.q.ready[0] in s.q.ready && s.q.ready == [s.q.ready[0]] + s.q.ready[1..];
    assert s.q.prio != [] ==> s.q.prio[0] in s.q.prio && s.q.prio == [s.q.prio[0]] + s.q.prio[1..];
    assert forall t :: t in s.q.ready || t in s.q.prio ==> Runnable(s, t);
  }

  /** After an exit no live task has the PID of the task that left, and no free slot that
      had none before has the PID of a live task. */
  lemma PidIsGone(k: Kernel, t: nat)
    requires KInv(k) && Quanta(k.s) && Keeps(k, CallExit) && CanSwitch(Leave(k.s))
    ensures t in Live(ExitCall(k).s) ==> ExitCall(k).s.task[t].pid != k.s.task[k.s.cur].pid
    ensures t in Live(ExitCall(k).s) ==> ExitCall(k).s.task[t].pid != ExitCall(k).s.task[k.s.cur].pid
  {
    ExitMoves(k);
    ExitKeepsInvIff(k.s);
    assert k.s.cur in Live(k.s);
    hide SchedInv, VmInv, Quanta, Exit, ExitCall, Leave;
  }

  /** A store changes nothing but one byte of memory, put_screen nothing but the regulator. */
  lemma OtherCallsMove(k: Kernel, c: Call)
    requires KInv(k) && !Stuck(k, c)
    ensures c.UserStore? ==> Apply(k, c) == k.(vm := k.vm.(ram := Apply(k, c).vm.ram))
    ensures c.CallPutScreen? ==> Apply(k, c) == k.(fps := Apply(k, c).fps)
  {
  }

  /** set_fps changes the class of its caller, 1 for -1 and 0 otherwise, and of nobody
      else. */
  lemma SetFpsMoves(k: Kernel, fps: int)
    requires KInv(k)
    ensures var k' := SetFpsCall(k, fps);
            && k'.s.task == k.s.task[k.s.cur := k.s.task[k.s.cur].(nice := if fps == -1 then 1 else 0)]
            && k'.s.q == k.s.q && k'.s.cur == k.s.cur && k'.s.quantumTicks == k.s.quantumTicks
            && k'.vm == k.vm && k'.nextPid == k.nextPid
  {
  }

  /** What a tick does to queues, current task and counter. */
  ghost predicate Ticked(s: Sched, s': Sched)
    requires s.cur < NR_TASKS
  {
    var low := s.task[s.cur].nice != 0;
    && s'.task == s.task && s'.idle == s.idle && s'.q.free == s.q.free
    && if s.quantumTicks > 1 then s'.q == s.q && s'.cur == s.cur && s'.quantumTicks == s.quantumTicks - 1
       else if s.q.ready == [] && s.q.prio == [] then s'.q == s.q && s'.cur == s.cur && s'.quantumTicks == 3
       else if low && s.q.prio != [] then
         [s'.cur] + s'.q.prio == s.q.prio && s'.q.ready == s.q.ready + [s.cur] && s'.quantumTicks == 15
       else if low then [s'.cur] + s'.q.ready == s.q.ready + [s.cur] && s'.q.prio == [] && s'.quantumTicks == 15
       else [s'.cur] + s'.q.ready == s.q.ready && s'.q.prio == s.q.prio + [s.cur] && s'.quantumTicks == 3
  }

  lemma HeadAndRest(q: seq<nat>, t: nat)
    ensures q != [] ==> q == [q[0]] + q[1..] && (q + [t])[0] == q[0] && (q + [t])[1..] == q[1..] + [t]
  {
  }

  lemma DispatchedQuantum(s: Sched)
    requires SchedInv(s) && Quanta(s) && Expires(s)
    ensures CanSwitch(Requeue(s)) && Switch(s).cur < NR_TASKS && s.task[Switch(s).cur].quantum == 3
    ensures s.task[s.cur].nice == 0 ==> s.q.ready != []
  {
    SomeLowIff(s);
    SwitchKeepsInv(s);
    assert Runnable(Switch(s), Switch(s).cur);
  }

  lemma SwitchMoves(s: Sched)
    requires s.cur < NR_TASKS && Expires(s) && s.q.WellQueued() && CanSwitch(Requeue(s))
    requires Switch(s).cur < NR_TASKS && s.task[Switch(s).cur].quantum == 3
    requires s.task[s.cur].nice == 0 ==> s.q.ready != []
    ensures Ticked(s, Switch(s))
  {
    hide Queues.WellQueued;
    HeadAndRest(s.q.ready, s.cur);
    HeadAndRest(s.q.prio, s.cur);
    if s.task[s.cur].nice == 0 {
      assert NextQueue(Requeue(s)) == Ready;
    } else if s.q.prio != [] {
      assert NextQueue(Requeue(s)) == Priority;
    } else {
      assert NextQueue(Requeue(s)) == Ready;
    }
  }

  /** A tick: the counter goes down, or starts again at 3 when nobody waits, or the current
      task goes to the end of the queue of its class and the next one gets 15 ticks after
      a task of nice 1 and 3 after one of nice 0. */
  lemma TickMoves(s: Sched)
    requires SchedInv(s) && Quanta(s)
    ensures ScheduleOk(s) && Ticked(s, Schedule(s))
  {
    ScheduleKeepsInv(s);
    assert Runnable(s, s.cur);
    if Expires(s) {
      DispatchedQuantum(s);
      hide SchedInv, Ticked;
      SwitchMoves(s);
    }
  }

  // ---------------------------------------------------------------------------
  // What stays in the tables
  // ---------------------------------------------------------------------------

  /** Past the pages it counts, fork leaves the child's table as the slot had it, and
      unmaps as many of the parent's as it has copied; other tables stay. */
  lemma ForkTables(k: Kernel, t: nat, p: nat)
    requires KInv(k) && ForkSucceeds(k) && t < NR_TASKS && p < 1024
    ensures k.s.q.free[0] < NR_TASKS && k.s.cur < NR_TASKS
    ensures SpaceTables(k.vm, Fork(k).0.vm, k.s.cur, k.s.q.free[0], Needed(k), t, p)
  {
    ForkOutcome(k);
    FreeSlot(k);
    AllocNFresh(k.vm.used, Needed(k));
    hide KInv, ForkSucceeds, Fork, Needed, AllocN, FreshFrames, SpaceTables, ForkSpace;
    ForkSpaceTables(k.vm, k.s.cur, k.s.q.free[0], AllocN(k.vm.used, Needed(k)), t, p);
  }

  /** An entry after a fork that takes `n` frames. */
  predicate SpaceTables(v: Vm, v': Vm, parent: nat, child: nat, n: int, t: nat, p: nat)
    requires t < NR_TASKS && p < 1024 && parent < NR_TASKS
  {
    var e, e' := v.pt[t][p], v'.pt[t][p];
    if t == child && 264 <= p < 264 + n then e'.present && e'.frame < 1024 && !v.used[e'.frame]
    else if t == child && 2 <= p < 264 then e'.frame == v.pt[parent][p].frame
    else if t == parent && 264 + n <= p < 264 + 2 * n then e' == NO_ENTRY
    else e' == e
  }

  lemma ForkSpaceTables(v: Vm, parent: nat, child: nat, fr: seq<nat>, t: nat, p: nat)
    requires parent < NR_TASKS && child < NR_TASKS && parent != child && FreshFrames(v.used, fr)
    requires PAG_LOG_INIT_DATA + 2 * |fr| <= TOTAL_PAGES
    requires InRam(fr) && InRam(Behind(v.pt[parent], PAG_LOG_INIT_DATA, |fr|))
    requires t < NR_TASKS && p < 1024
    ensures SpaceTables(v, ForkSpace(v, parent, child, fr), parent, child, |fr|, t, p)
  {
    hide Duplicated;
  }

  /** exit unmaps the counted pages of the task that leaves, and no other. */
  lemma ExitTables(k: Kernel, t: nat, p: nat)
    requires KInv(k) && CanSwitch(Leave(k.s)) && t < NR_TASKS && p < 1024
    ensures k.s.cur < NR_TASKS
    ensures var n := NumPages(k.s.task[k.s.cur].brk);
            ExitCall(k).vm.pt[t][p] == if t == k.s.cur && 264 <= p < 264 + n then NO_ENTRY else k.vm.pt[t][p]
  {
  }

  /** sbrk maps or unmaps the pages of its task from the first one that the lower break
      does not count to the one that holds the higher break, and no other. */
  lemma SbrkTables(k: Kernel, n: int32, t: nat, p: nat)
    requires KInv(k) && Keeps(k, CallSbrk(n)) && t < NR_TASKS && p < 1024
    ensures k.s.cur < NR_TASKS
    ensures var (b, k') := (k.s.task[k.s.cur].brk, SbrkCall(k, n).0);
            var b' := k'.s.task[k.s.cur].brk;
            if t == k.s.cur && b < b' && 264 + NumPages(b) <= p <= 284 + (b' - 0x11C000) / 0x1000 then
              k'.vm.pt[t][p].present
            else if t == k.s.cur && b' < b && 264 + NumPages(b') <= p <= 284 + (b - 0x11C000) / 0x1000 then
              k'.vm.pt[t][p] == NO_ENTRY
            else k'.vm.pt[t][p] == k.vm.pt[t][p]
  {
    CurrentIsLive(k);
    BreakBound(k.vm, Live(k.s), Brks(k.s.task), k.s.cur);
    var b := k.s.task[k.s.cur].brk;
    SpanStartsAfterCounted(b, b + n);
    SpanStartsAfterCounted(ShrinkTarget(b, n), b);
    hide VmInv, SchedInv, NumPages;
  }

  // ---------------------------------------------------------------------------
  // Breaks, classes and PIDs over runs
  // ---------------------------------------------------------------------------

  /** What the calls of a run say of a task. */
  datatype Traits = Traits(pid: int, nice: int, brk: int)

  /** The successful forks among the first `i` calls of a run. */
  ghost function Forks(ks: seq<Kernel>, cs: seq<Call>, i: nat): nat
    requires Trace(ks, cs) && i <= |cs|
  {
    if i == 0 then 0 else
    InvariantInEveryRun(ks, cs, i - 1);
    Forks(ks, cs, i - 1) + if cs[i - 1].CallFork? && Fork(ks[i - 1]).1 >= 0 then 1 else 0
  }

  /** The call is a fork that made task `t`. */
  ghost predicate Makes(k: Kernel, c: Call, t: nat)
    requires KInv(k)
  {
    c.CallFork? && Fork(k).1 >= 0 && k.s.q.free != [] && t == k.s.q.free[0]
  }

  /** PID, class and break of a task after `i` calls of a run, from its own calls of sbrk
      and set_fps with their success, and what it inherited when it was forked. */
  ghost function TraitsOf(ks: seq<Kernel>, cs: seq<Call>, i: nat, t: nat): Traits
    requires Trace(ks, cs) && i <= |cs|
    decreases i
  {
    if i == 0 then Traits(1, 1, 0x11C000) else
    InvariantInEveryRun(ks, cs, i - 1);
    var (k, c, was) := (ks[i - 1], cs[i - 1], TraitsOf(ks, cs, i - 1, t));
    if Makes(k, c, t) then TraitsOf(ks, cs, i - 1, k.s.cur).(pid := 2 + Forks(ks, cs, i - 1))
    else if t != k.s.cur then was
    else match c
    case CallSbrk(n) =>
      if SbrkCall(k, n).1 == -1 then was else was.(brk := if was.brk + n < 0x11C000 then 0x11C000 else was.brk + n)
    case CallSetFps(fps) => was.(nice := if fps == -1 then 1 else 0)
    case _ => was
  }

  function TraitsNow(k: Kernel, t: nat): Traits
    requires t < NR_TASKS
  {
    Traits(k.s.task[t].pid, k.s.task[t].nice, k.s.task[t].brk)
  }

  /** One call, seen by one task that is live after it. */
  ghost predicate TraitsStep(k: Kernel, c: Call, k': Kernel, t: nat)
    requires KInv(k) && t < NR_TASKS && k.s.cur < NR_TASKS
  {
    if Makes(k, c, t) then TraitsNow(k', t) == TraitsNow(k, k.s.cur).(pid := k.nextPid)
    else if t != k.s.cur then t in Live(k.s) && TraitsNow(k', t) == TraitsNow(k, t)
    else match c
    case CallSbrk(n) =>
      var b := k.s.task[t].brk;
      TraitsNow(k', t) == TraitsNow(k, t).(brk := if SbrkCall(k, n).1 == -1 then b
                                                  else if b + n < 0x11C000 then 0x11C000 else b + n)
    case CallSetFps(fps) => TraitsNow(k', t) == TraitsNow(k, t).(nice := if fps == -1 then 1 else 0)
    case _ => TraitsNow(k', t) == TraitsNow(k, t)
  }

  lemma StepTraits(k: Kernel, c: Call, t: nat)
    requires KInv(k) && Keeps(k, c) && !Stuck(k, c) && t in Live(Apply(k, c).s)
    ensures t < NR_TASKS && k.s.cur < NR_TASKS && TraitsStep(k, c, Apply(k, c), t)
    ensures Apply(k, c).nextPid == k.nextPid + if c.CallFork? && Fork(k).1 >= 0 then 1 else 0
  {
    WhoIsLive(k, c, t);
    match c
    case CallFork => ForkTraits(k, t);
    case CallExit => ExitKeepsInvIff(k.s);
    case CallSbrk(n) => SbrkMoves(k, n);
    case CallSetFps(fps) => SetFpsMoves(k, fps);
    case _ =>
  }

  lemma ForkTraits(k: Kernel, t: nat)
    requires KInv(k) && t < NR_TASKS
    requires t in Live(k.s) || (ForkSucceeds(k) && t == k.s.q.free[0])
    ensures k.s.cur < NR_TASKS && TraitsStep(k, CallFork, Fork(k).0, t)
    ensures Fork(k).0.nextPid == k.nextPid + if Fork(k).1 >= 0 then 1 else 0
  {
    ForkAnswers(k);
    if k.s.q.free != [] {
      FreeSlot(k);
      ForkOutcome(k);
      if ForkSucceeds(k) {
        ForkMoves(k);
      }
    }
  }

  /** In every run the calls determine each live task's PID, class and break: PIDs count
      the forks, a task has nice 0 exactly if the last set_fps it made or inherited was
      not -1, and its break is where its calls of sbrk, or its parent's, have left it. */
  lemma {:induction false} TraitsInEveryRun(ks: seq<Kernel>, cs: seq<Call>, i: nat, t: nat)
    requires Trace(ks, cs) && i <= |cs| && t in Live(ks[i].s)
    ensures KInv(ks[i]) && t < NR_TASKS && TraitsNow(ks[i], t) == TraitsOf(ks, cs, i, t)
    ensures ks[i].nextPid == 2 + Forks(ks, cs, i)
    decreases i
  {
    InvariantInEveryRun(ks, cs, i);
    if i == 0 {
      var ram: Ram :| ks[0] == Boot(ram);
      BootSchedInv();
    } else {
      var k, c := ks[i - 1], cs[i - 1];
      InvariantInEveryRun(ks, cs, i - 1);
      assert StepOf(k, c, ks[i]);
      CurrentIsLive(k);
      StepTraits(k, c, t);
      TraitsInEveryRun(ks, cs, i - 1, k.s.cur);
      if !Makes(k, c, t) {
        TraitsInEveryRun(ks, cs, i - 1, t);
      }
    }
  }

  /** In every run an sbrk that succeeds returns the break that the task's last successful
      call, or its parent's before the fork, has left. */
  lemma SbrkReturnsLastBreak(ks: seq<Kernel>, cs: seq<Call>, i: nat, n: int32)
    requires Trace(ks, cs) && i < |cs| && cs[i] == CallSbrk(n)
    ensures KInv(ks[i])
    ensures SbrkCall(ks[i], n).1 == -1 || SbrkCall(ks[i], n).1 == TraitsOf(ks, cs, i, ks[i].s.cur).brk
  {
    InvariantInEveryRun(ks, cs, i);
    assert StepOf(ks[i], cs[i], ks[i + 1]);
    CurrentIsLive(ks[i]);
    TraitsInEveryRun(ks, cs, i, ks[i].s.cur);
    SbrkMoves(ks[i], n);
  }

  // ---------------------------------------------------------------------------
  // Turns over runs
  // ---------------------------------------------------------------------------

  /** Each tick of a run. */
  lemma TickInEveryRun(ks: seq<Kernel>, cs: seq<Call>, i: nat)
    requires Trace(ks, cs) && i < |cs| && cs[i] == ClockTick
    ensures KInv(ks[i]) && ks[i].s.cur < NR_TASKS && Ticked(ks[i].s, ks[i + 1].s)
    ensures ks[i + 1].vm == ks[i].vm && ks[i + 1].nextPid == ks[i].nextPid
  {
    QuantaInEveryRun(ks, cs, i);
    assert StepOf(ks[i], cs[i], ks[i + 1]);
    TickMoves(ks[i].s);
  }

  /** Who is current after a call, and for how long. */
  lemma DispatchLength(k: Kernel, c: Call)
    requires KInv(k) && Quanta(k.s) && Keeps(k, c) && !Stuck(k, c) && Apply(k, c).s.cur != k.s.cur
    ensures Apply(k, c).s.quantumTicks == if k.s.task[k.s.cur].nice == 0 then 3 else 15
  {
    WhoIsLive(k, c, k.s.cur);
    if c.ClockTick? {
      TickMoves(k.s);
    } else {
      ExitMoves(k);
    }
  }

  /** The length of every turn: when a call or a tick changes the current task, the new one
      gets 3 ticks if the last set_fps that the old one made or inherited was not -1, and
      15 if it was, or if there was none. */
  lemma TurnLength(ks: seq<Kernel>, cs: seq<Call>, i: nat)
    requires Trace(ks, cs) && i < |cs| && ks[i + 1].s.cur != ks[i].s.cur
    ensures ks[i + 1].s.quantumTicks == if TraitsOf(ks, cs, i, ks[i].s.cur).nice == 0 then 3 else 15
  {
    QuantaInEveryRun(ks, cs, i);
    assert StepOf(ks[i], cs[i], ks[i + 1]);
    CurrentIsLive(ks[i]);
    TraitsInEveryRun(ks, cs, i, ks[i].s.cur);
    hide TraitsOf;
    DispatchLength(ks[i], cs[i]);
  }

  /** Where a turn ends: a tick that changes the current task leaves the old one as the
      last ready task, if its last set_fps was -1 or it has none, and else as the last of
      the priority queue. */
  lemma TurnEndsInItsQueue(ks: seq<Kernel>, cs: seq<Call>, i: nat)
    requires Trace(ks, cs) && i < |cs| && cs[i] == ClockTick && ks[i + 1].s.cur != ks[i].s.cur
    ensures var (t, q) := (ks[i].s.cur, ks[i + 1].s.q);
            if TraitsOf(ks, cs, i, t).nice != 0 then q.ready != [] && q.ready[|q.ready| - 1] == t
            else q.prio != [] && q.prio[|q.prio| - 1] == t
  {
    TickInEveryRun(ks, cs, i);
    CurrentIsLive(ks[i]);
    TraitsInEveryRun(ks, cs, i, ks[i].s.cur);
    hide TraitsOf;
    LastOfQueue(ks[i].s, ks[i + 1].s);
  }

  lemma LastOfQueue(s: Sched, s': Sched)
    requires s.cur < NR_TASKS && Ticked(s, s') && s'.cur != s.cur
    ensures if s.task[s.cur].nice != 0 then s'.q.ready != [] && s'.q.ready[|s'.q.ready| - 1] == s.cur
            else s'.q.prio != [] && s'.q.prio[|s'.q.prio| - 1] == s.cur
  {
    var all := [s'.cur] + s'.q.ready;
    assert all[|all| - 1] == if s'.q.ready == [] then s'.cur else s'.q.ready[|s'.q.ready| - 1];
    var more := s.q.ready + [s.cur];
    assert more[|more| - 1] == s.cur;
  }

  /** The call is not a set_fps. */
  ghost predicate NoSetFps(cs: seq<Call>, i: nat, j: nat)
    requires i <= j <= |cs|
  {
    forall m :: i <= m < j ==> !cs[m].CallSetFps?
  }

  lemma {:induction false} NiceStays(ks: seq<Kernel>, cs: seq<Call>, i: nat, j: nat, t: nat)
    requires Trace(ks, cs) && i <= j <= |cs| && NoSetFps(cs, i, j)
    requires forall m :: i <= m < j ==> ks[m].s.cur == t
    ensures TraitsOf(ks, cs, j, t).nice == TraitsOf(ks, cs, i, t).nice
  {
    if i < j {
      NiceStays(ks, cs, i, j - 1, t);
      OneCallKeepsNice(ks, cs, j - 1);
    }
  }

  lemma OneCallKeepsNice(ks: seq<Kernel>, cs: seq<Call>, i: nat)
    requires Trace(ks, cs) && i < |cs| && !cs[i].CallSetFps?
    ensures TraitsOf(ks, cs, i + 1, ks[i].s.cur).nice == TraitsOf(ks, cs, i, ks[i].s.cur).nice
  {
    InvariantInEveryRun(ks, cs, i);
  }

  /** set_fps(-1) gives the priority back: unless its caller calls set_fps again, the tick
      that ends its turn leaves it as the last ready task. */
  lemma LoweredGoesReady(ks: seq<Kernel>, cs: seq<Call>, i: nat, j: nat)
    requires Trace(ks, cs) && i < j < |cs| && cs[i] == Call.CallSetFps(-1) && NoSetFps(cs, i + 1, j)
    requires forall m :: i <= m <= j ==> ks[m].s.cur == ks[i].s.cur
    requires cs[j] == ClockTick && ks[j + 1].s.cur != ks[j].s.cur
    ensures var q := ks[j + 1].s.q; q.ready != [] && q.ready[|q.ready| - 1] == ks[i].s.cur
  {
    InvariantInEveryRun(ks, cs, i);
    assert TraitsOf(ks, cs, i + 1, ks[i].s.cur).nice == 1;
    hide TraitsOf;
    NiceStays(ks, cs, i + 1, j, ks[i].s.cur);
    TurnEndsInItsQueue(ks, cs, j);
  }
}
