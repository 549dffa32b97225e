/** The frame-rate regulator: `schedule_fps` (zeOS/sched.c:193-202), `sys_put_screen`
    and `sys_set_fps` (zeOS/sys.c:233-262). */
module Regulator {

  /** A call of print_screen, and the process that ran. */
  datatype Print = Print(pid: int, screen: int)

  /** The `spf_*` globals and `gfps`. Screens are pointers, 0 being NULL; `shown` counts
      the screens printed for the regulated process, `display` lists all. */
  datatype Fps = Fps(pid: int, ticks: int, sem: int, gfps: int, last: int, shown: nat, display: seq<Print>)

  const OFF: int := -1
  const PERIOD: int := 18

  /** print_screen */
  function Printed(f: Fps, s: int, pid: int): Fps {
    f.(display := f.display + [Print(pid, s)])
  }

  function PutScreen(f: Fps, s: int, pid: int): (Fps, int) {
    if s == 0 then (f, 0)
    else if f.pid != pid then (Printed(f, s, pid), 1)
    else if f.sem > 0 || f.ticks == OFF then
      (Printed(f, s, pid).(sem := f.sem - 1, last := 0, shown := f.shown + 1), 1)
    else (f.(last := s), 0)
  }

  function SetFps(f: Fps, fps: int, pid: int): Fps {
    if fps == -1 then f.(pid := -1, ticks := OFF)
    else f.(pid := pid, gfps := fps, ticks := PERIOD, sem := fps)
  }

  /** The countdown is refilled at the first tick, at or after zero, that finds the
      regulated process running. */
  predicate Refills(f: Fps, pid: int) {
    f.ticks != OFF && f.ticks <= 1 && f.pid == pid
  }

  function ScheduleFps(f: Fps, pid: int): Fps {
    if f.ticks == OFF then f
    else if Refills(f, pid) then
      var r := f.(ticks := f.ticks - 1 + PERIOD, sem := f.gfps);
      if r.last != 0 then PutScreen(r, r.last, pid).0 else r
    else f.(ticks := f.ticks - 1)
  }

  /** The globals themselves. */
  class Globals {
    var spfPid: int
    var spfTicks: int
    var spfSem: int
    var gfps: int
    var spfLastScreen: int
    var shown: nat
    var display: seq<Print>

    /** The initial values, and those init_sched assigns. */
    constructor ()
      ensures View() == Fps(0, -1, -1, 0, 0, 0, [])
    {
      spfPid, gfps, spfLastScreen, shown, display := 0, 0, 0, 0, [];
      spfTicks := -1;
      spfSem := -1;
    }

    function View(): Fps
      reads this
    {
      Fps(spfPid, spfTicks, spfSem, gfps, spfLastScreen, shown, display)
    }

    /** print_screen */
    method PrintScreen(s: int, pid: int)
      modifies this`display
      ensures View() == Printed(old(View()), s, pid)
    {
      display := display + [Print(pid, s)];
    }

    /** sys_put_screen, called by the process `pid` */
    method SysPutScreen(s: int, pid: int) returns (ret: int)
      modifies this
      ensures (View(), ret) == PutScreen(old(View()), s, pid)
    {
      if s == 0 {
        return 0;
      }
      if spfPid != pid {
        PrintScreen(s, pid);
        return 1;
      }
      if spfSem > 0 || spfTicks == -1 {
        PrintScreen(s, pid);
        spfSem := spfSem - 1;
        spfLastScreen := 0;
        shown := shown + 1;
        return 1;
      }
      spfLastScreen := s;
      return 0;
    }

    /** sys_set_fps, without its effect on the class of the process */
    method SysSetFps(fps: int, pid: int) returns (ret: int)
      modifies this
      ensures View() == SetFps(old(View()), fps, pid) && ret == 1
    {
      if fps == -1 {
        spfPid := -1;
        spfTicks := -1;
      } else {
        spfPid := pid;
        gfps := fps;
        spfTicks := 18;
        spfSem := fps;
      }
      return 1;
    }

    /** schedule_fps, while the process `pid` runs */
    method TickFps(pid: int)
      modifies this
      ensures View() == ScheduleFps(old(View()), pid)
    {
      if spfTicks != -1 {
        spfTicks := spfTicks - 1;
        if spfTicks <= 0 && spfPid == pid {
          spfTicks := spfTicks + 18;
          spfSem := gfps;
          if spfLastScreen != 0 {
            var _ := SysPutScreen(spfLastScreen, pid);
          }
        }
      }
    }
  }

  // ---------------------------------------------------------------------------
  // The rate
  // ---------------------------------------------------------------------------

  /** What happens to the regulator between two calls of set_fps; `pid` is the process
      that runs at that moment. */
  datatype Event = Tick(pid: int) | Put(s: int, pid: int)

  function Step(f: Fps, e: Event): Fps {
    match e
    case Tick(pid) => ScheduleFps(f, pid)
    case Put(s, pid) => PutScreen(f, s, pid).0
  }

  function Run(f: Fps, es: seq<Event>): Fps {
    if es == [] then f else Step(Run(f, es[..|es| - 1]), es[|es| - 1])
  }

  function Ticks(es: seq<Event>): nat {
    if es == [] then 0 else Ticks(es[..|es| - 1]) + if es[|es| - 1].Tick? then 1 else 0
  }

  /** The countdown records how often it was refilled, and each refill allows `fps`
      screens more. */
  ghost predicate Metered(f: Fps, fps: nat, base: nat, t: nat, refills: nat) {
    && f.gfps == fps && f.ticks == PERIOD - t + PERIOD * refills && PERIOD * refills <= t
    && 0 <= f.sem && f.shown + f.sem <= base + fps * (refills + 1)
  }

  lemma MeteredStep(f: Fps, e: Event, fps: nat, base: nat, t: nat, refills: nat) returns (refills': nat)
    requires Metered(f, fps, base, t, refills) && f.ticks != OFF && Step(f, e).ticks != OFF
    ensures Metered(Step(f, e), fps, base, t + if e.Tick? then 1 else 0, refills')
  {
    refills' := refills;
    if e.Tick? && Refills(f, e.pid) {
      refills' := refills + 1;
      assert fps * (refills' + 1) == fps * (refills + 1) + fps;
      var r := f.(ticks := f.ticks - 1 + PERIOD, sem := f.gfps);
      assert r.shown + r.sem <= base + fps * (refills' + 1);
    }
  }

  lemma OffIsFinal(f: Fps, e: Event)
    requires f.ticks == OFF
    ensures Step(f, e).ticks == OFF
  {
  }

  lemma {:induction false} RunIsMetered(f: Fps, fps: nat, pid: int, es: seq<Event>) returns (refills: nat)
    requires Run(SetFps(f, fps, pid), es).ticks != OFF
    ensures Metered(Run(SetFps(f, fps, pid), es), fps, f.shown, Ticks(es), refills)
  {
    if es == [] {
      refills := 0;
    } else {
      var before := es[..|es| - 1];
      var g := Run(SetFps(f, fps, pid), before);
      if g.ticks == OFF {
        OffIsFinal(g, es[|es| - 1]);
      }
      refills := RunIsMetered(f, fps, pid, before);
      refills := MeteredStep(g, es[|es| - 1], fps, f.shown, Ticks(before), refills);
    }
  }

  // ---------------------------------------------------------------------------
  // The guarantee
  // ---------------------------------------------------------------------------

  /** At every refill of the run the process had used up its allowance. */
  predicate UsesAllowance(f: Fps, es: seq<Event>) {
    es == [] || (
      var before, e := es[..|es| - 1], es[|es| - 1];
      UsesAllowance(f, before) && (e.Tick? && Refills(Run(f, before), e.pid) ==> Run(f, before).sem == 0))
  }

  /** A process that uses up its allowance gets all of it: each refill grants exactly
      `fps` screens. */
  lemma {:induction false} NothingIsWithheld(f: Fps, fps: nat, pid: int, es: seq<Event>) returns (refills: nat)
    requires Run(SetFps(f, fps, pid), es).ticks != OFF && UsesAllowance(SetFps(f, fps, pid), es)
    ensures Metered(Run(SetFps(f, fps, pid), es), fps, f.shown, Ticks(es), refills)
    ensures var g := Run(SetFps(f, fps, pid), es); g.shown + g.sem == f.shown + fps * (refills + 1)
  {
    if es == [] {
      refills := 0;
    } else {
      var before, e := es[..|es| - 1], es[|es| - 1];
      var g := Run(SetFps(f, fps, pid), before);
      if g.ticks == OFF {
        OffIsFinal(g, e);
      }
      var r := NothingIsWithheld(f, fps, pid, before);
      refills := MeteredStep(g, e, fps, f.shown, Ticks(before), r);
      RefillGrants(g, e, fps);
      var h := Step(g, e);
      assert h.ticks == PERIOD - Ticks(es) + PERIOD * refills;
      assert refills == if e.Tick? && Refills(g, e.pid) then r + 1 else r;
      assert fps * (r + 2) == fps * (r + 1) + fps;
    }
  }

  /** What one event does to the screens shown and still allowed, together. */
  lemma RefillGrants(g: Fps, e: Event, fps: nat)
    requires g.gfps == fps && g.ticks != OFF && g.sem >= 0
    ensures Step(g, e).shown + Step(g, e).sem
            == if e.Tick? && Refills(g, e.pid) then g.shown + fps else g.shown + g.sem
    ensures Step(g, e).ticks == if !e.Tick? then g.ticks else if Refills(g, e.pid) then g.ticks + 17 else g.ticks - 1
  {
  }

  lemma MulMonotone(a: nat, x: nat, y: nat)
    requires x <= y
    ensures a * x <= a * y
  {
  }

  /** The rate: from a set_fps(fps) on, and while the regulator stays armed, the screens
      shown after any run with `t` ticks number at most fps * (1 + t / 18). */
  lemma ShownIsBounded(f: Fps, fps: nat, pid: int, es: seq<Event>)
    requires Run(SetFps(f, fps, pid), es).ticks != OFF
    ensures Run(SetFps(f, fps, pid), es).shown - f.shown <= fps * (1 + Ticks(es) / 18)
  {
    var refills := RunIsMetered(f, fps, pid, es);
    MulMonotone(fps, refills + 1, 1 + Ticks(es) / 18);
  }

  /** A process is never allowed more than `fps` further screens. */
  lemma {:induction false} AllowanceIsBounded(f: Fps, fps: nat, pid: int, es: seq<Event>)
    requires Run(SetFps(f, fps, pid), es).ticks != OFF
    ensures Run(SetFps(f, fps, pid), es).gfps == fps && Run(SetFps(f, fps, pid), es).sem <= fps
  {
    if es != [] {
      var before, e := es[..|es| - 1], es[|es| - 1];
      var g := Run(SetFps(f, fps, pid), before);
      if g.ticks == OFF {
        OffIsFinal(g, e);
      }
      AllowanceIsBounded(f, fps, pid, before);
    }
  }

  /** The guarantee: a process that uses up its allowance, and whose countdown stays
      within its period, shows at least fps * (t / 18 - 1) screens in `t` ticks. */
  lemma ShownAtLeast(f: Fps, fps: nat, pid: int, es: seq<Event>)
    requires 0 <= Run(SetFps(f, fps, pid), es).ticks <= PERIOD
    requires UsesAllowance(SetFps(f, fps, pid), es)
    ensures Run(SetFps(f, fps, pid), es).shown - f.shown >= fps * (Ticks(es) / 18) - fps
  {
    var refills := NothingIsWithheld(f, fps, pid, es);
    AllowanceIsBounded(f, fps, pid, es);
    MulMonotone(fps, Ticks(es) / 18, refills + 1);
    assert fps * (refills + 1) == fps * refills + fps;
  }

  // ---------------------------------------------------------------------------
  // The screens
  // ---------------------------------------------------------------------------

  /** put_screen returns 1 exactly when it has printed the screen; a regulated process
      that is told 0 has its screen pending, and only that. */
  lemma PutScreenAnswers(f: Fps, s: int, pid: int)
    ensures var (g, ret) := PutScreen(f, s, pid);
            && ret == (if s != 0 && (pid != f.pid || f.sem > 0 || f.ticks == -1) then 1 else 0)
            && g.display == (if ret == 1 then f.display + [Print(pid, s)] else f.display)
            && (s != 0 && pid == f.pid ==> g.last == if ret == 1 then 0 else s)
            && (s == 0 || pid != f.pid ==> g.last == f.last)
            && g.pid == f.pid && g.ticks == f.ticks && g.gfps == f.gfps
  {
  }

  /** A refill prints the pending screen, once, out of the new allowance. */
  lemma RefillPrintsPending(f: Fps, pid: int)
    requires f.ticks != -1 && f.ticks <= 1 && f.pid == pid
    ensures var g := ScheduleFps(f, pid);
            && g.ticks == f.ticks + 17 && g.pid == f.pid && g.gfps == f.gfps
            && (f.last == 0 ==> g.display == f.display && g.last == 0 && g.sem == f.gfps && g.shown == f.shown)
            && (f.last != 0 && f.gfps > 0 ==>
                  g.display == f.display + [Print(pid, f.last)] && g.last == 0 && g.sem == f.gfps - 1
                  && g.shown == f.shown + 1)
  {
  }

  /** The last screen that process `pid` handed over, `pending` if none in the run. */
  function HandedOver(pending: int, es: seq<Event>, pid: int): int {
    if es == [] then pending else
    var e := es[|es| - 1];
    if e.Put? && e.pid == pid && e.s != 0 then e.s else HandedOver(pending, es[..|es| - 1], pid)
  }

  /** The last screen printed for process `pid`. */
  function LastPrint(display: seq<Print>, pid: int): int {
    if display == [] then 0
    else if display[|display| - 1].pid == pid then display[|display| - 1].screen
    else LastPrint(display[..|display| - 1], pid)
  }

  lemma LastPrintOf(display: seq<Print>, p: Print, pid: int)
    ensures LastPrint(display + [p], pid) == if p.pid == pid then p.screen else LastPrint(display, pid)
  {
    assert (display + [p])[..|display|] == display;
  }

  /** In every run from a set_fps on, the last screen the process handed over is pending,
      or it is the last one printed for it and none is pending. */
  lemma {:induction false} LatestScreen(f: Fps, fps: int, pid: int, es: seq<Event>)
    requires fps != -1
    ensures var g, s := Run(SetFps(f, fps, pid), es), HandedOver(f.last, es, pid);
            && g.pid == pid && g.gfps == fps && f.display <= g.display
            && (g.last == s || (g.last == 0 && LastPrint(g.display, pid) == s))
  {
    if es != [] {
      var before, e := es[..|es| - 1], es[|es| - 1];
      LatestScreen(f, fps, pid, before);
      var g := Run(SetFps(f, fps, pid), before);
      match e
      case Put(s, p) =>
        LastPrintOf(g.display, Print(p, s), pid);
      case Tick(p) =>
        LastPrintOf(g.display, Print(p, g.last), pid);
    }
  }

  /** At every refill of a positive allowance the last screen that the process handed over
      has been printed, and none is pending. */
  lemma PrintedAtRefill(f: Fps, fps: int, pid: int, es: seq<Event>)
    requires fps > 0 && es != [] && es[|es| - 1].Tick?
    requires Refills(Run(SetFps(f, fps, pid), es[..|es| - 1]), es[|es| - 1].pid)
    ensures var g, s := Run(SetFps(f, fps, pid), es), HandedOver(f.last, es, pid);
            g.last == 0 && (s != 0 ==> LastPrint(g.display, pid) == s)
  {
    LatestScreen(f, fps, pid, es);
    LatestScreen(f, fps, pid, es[..|es| - 1]);
  }

  /** The screens handed over in a run by whatever process. */
  function AllHandedOver(es: seq<Event>): seq<Print> {
    if es == [] then [] else
    var e := es[|es| - 1];
    AllHandedOver(es[..|es| - 1]) + if e.Put? && e.s != 0 then [Print(e.pid, e.s)] else []
  }

  /** After set_fps(-1) nothing is regulated: every screen is printed at once, in order,
      and neither screens nor ticks change anything else. */
  lemma {:induction false} OffPrintsAll(f: Fps, pid: int, es: seq<Event>)
    requires forall i :: 0 <= i < |es| ==> es[i].pid != -1
    ensures Run(SetFps(f, -1, pid), es) == f.(pid := -1, ticks := -1, display := f.display + AllHandedOver(es))
  {
    if es != [] {
      OffPrintsAll(f, pid, es[..|es| - 1]);
    }
  }
}
