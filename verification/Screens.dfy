/** The regulator's screens over runs of the whole kernel (zeOS/sched.c:193-202,
    zeOS/sys.c:233-262). */
module Screens {
  import opened Layout
  import opened Paging
  import opened AddressSpace
  import opened Scheduler
  import R = Regulator
  import opened SystemCalls
  import opened Runs
  import opened TaskHistory

  /** What the regulator sees of a call: the tick and the screens, with the PID that the
      current task then has. */
  function Seen(c: Call, pid: int): seq<R.Event> {
    match c
    case ClockTick => [R.Tick(pid)]
    case CallPutScreen(screen) => [R.Put(screen, pid)]
    case _ => []
  }

  /** The same for the calls from `i` to `j`, with the PIDs that the run has given. */
  ghost function EventsOf(ks: seq<Kernel>, cs: seq<Call>, i: nat, j: nat): seq<R.Event>
    requires Trace(ks, cs) && i <= j <= |cs|
  {
    if i == j then [] else
    EventsOf(ks, cs, i, j - 1) + Seen(cs[j - 1], TraitsOf(ks, cs, j - 1, ks[j - 1].s.cur).pid)
  }

  lemma OneCallSeen(k: Kernel, c: Call, pid: int)
    requires KInv(k) && Keeps(k, c) && !Stuck(k, c) && !c.CallSetFps?
    requires k.s.cur < NR_TASKS && k.s.task[k.s.cur].pid == pid
    ensures Apply(k, c).fps == R.Run(k.fps, Seen(c, pid))
  {
    match c
    case CallFork =>
      if k.s.q.free != [] {
        ForkOutcome(k);
      }
    case ClockTick => assert R.Run(k.fps, [][..0]) == k.fps;
    case CallPutScreen(_) => assert R.Run(k.fps, [][..0]) == k.fps;
    case _ =>
  }

  lemma RunLonger(f: R.Fps, es: seq<R.Event>, more: seq<R.Event>)
    requires |more| <= 1
    ensures R.Run(f, es + more) == R.Run(R.Run(f, es), more)
  {
    if more == [] {
      assert es + more == es;
    } else {
      assert (es + more)[..|es|] == es && more[..0] == [];
    }
  }

  /** Between two calls of set_fps the regulator of the kernel runs as it does by itself. */
  lemma {:induction false} KernelRunsRegulator(ks: seq<Kernel>, cs: seq<Call>, i: nat, j: nat)
    requires Trace(ks, cs) && i <= j <= |cs| && NoSetFps(cs, i, j)
    ensures ks[j].fps == R.Run(ks[i].fps, EventsOf(ks, cs, i, j))
  {
    if i < j {
      KernelRunsRegulator(ks, cs, i, j - 1);
      var k := ks[j - 1];
      InvariantInEveryRun(ks, cs, j - 1);
      assert StepOf(k, cs[j - 1], ks[j]);
      CurrentIsLive(k);
      TraitsInEveryRun(ks, cs, j - 1, k.s.cur);
      var pid := TraitsOf(ks, cs, j - 1, k.s.cur).pid;
      hide TraitsOf;
      OneCallSeen(k, cs[j - 1], pid);
      RunLonger(ks[i].fps, EventsOf(ks, cs, i, j - 1), Seen(cs[j - 1], pid));
    }
  }

  /** The call of set_fps that starts a stretch. */
  lemma SetFpsCallOf(ks: seq<Kernel>, cs: seq<Call>, i: nat, fps: int)
    requires Trace(ks, cs) && i < |cs| && cs[i] == Call.CallSetFps(fps)
    ensures ks[i + 1].fps == R.SetFps(ks[i].fps, fps, TraitsOf(ks, cs, i, ks[i].s.cur).pid)
  {
    InvariantInEveryRun(ks, cs, i);
    assert StepOf(ks[i], cs[i], ks[i + 1]);
    CurrentIsLive(ks[i]);
    TraitsInEveryRun(ks, cs, i, ks[i].s.cur);
    hide TraitsOf;
  }

  /** In every run, from a call of set_fps to the next: the last screen that the regulated
      process handed over is pending, or it is the last one printed for it. */
  lemma LatestScreenInEveryRun(ks: seq<Kernel>, cs: seq<Call>, i: nat, j: nat, fps: int)
    requires Trace(ks, cs) && i < j <= |cs| && cs[i] == Call.CallSetFps(fps) && fps != -1 && NoSetFps(cs, i + 1, j)
    ensures var (pid, f) := (TraitsOf(ks, cs, i, ks[i].s.cur).pid, ks[j].fps);
            var s := R.HandedOver(ks[i].fps.last, EventsOf(ks, cs, i + 1, j), pid);
            f.pid == pid && f.gfps == fps && (f.last == s || (f.last == 0 && R.LastPrint(f.display, pid) == s))
  {
    assert |ks| == |cs| + 1;
    hide Trace, TraitsOf, EventsOf, R.HandedOver, R.LastPrint, R.Run, R.SetFps, NoSetFps;
    SetFpsCallOf(ks, cs, i, fps);
    KernelRunsRegulator(ks, cs, i + 1, j);
    R.LatestScreen(ks[i].fps, fps, TraitsOf(ks, cs, i, ks[i].s.cur).pid, EventsOf(ks, cs, i + 1, j));
  }
}
