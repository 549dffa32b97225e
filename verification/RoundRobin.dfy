/** Tasks of nice 1 among themselves: 15 ticks each, in the order of the ready queue
    (zeOS/sched.c:140-191). */
module RoundRobin {
  import opened Layout
  import opened TaskQueues
  import opened Scheduler
  import opened Pacing
  import opened Contention
  import opened TaskHistory

  /** Nobody has nice 0, somebody waits, and the current task is at the start of its turn. */
  ghost predicate AllLow(s: Sched) {
    && Partition(s) && Classed(s) && s.task[s.cur].nice != 0 && s.q.prio == [] && s.q.ready != []
    && s.quantumTicks == 15
    && forall t :: 0 <= t < NR_TASKS && Runnable(s, t) ==> s.task[t].quantum == QUANTUM
  }

  /** The current task and the ready ones, in the order in which they will run. */
  function Line(s: Sched): seq<nat> {
    [s.cur] + s.q.ready
  }

  /** The same tasks, starting with the one at position `j`. */
  function StartingAt(s: Sched, j: nat): Sched
    requires j <= |Line(s)|
  {
    var all := Line(s)[j..] + Line(s)[..j];
    s.(q := s.q.(ready := all[1..]), cur := all[0])
  }

  /** The last tick of a turn, as any state that AllLow describes. */
  lemma LastTick(s: Sched) returns (e: Sched)
    requires AllLow(s)
    ensures e == s.(quantumTicks := 1) && SchedInv(e) && Quanta(e) && e.cur < NR_TASKS && e.task[e.cur].nice != 0
    ensures SchedInv(TickSched(e)) && Quanta(TickSched(e)) && Ticked(e, TickSched(e))
    ensures TickSched(e).task[TickSched(e).cur].nice != 0
  {
    e := s.(quantumTicks := 1);
    assert forall t: nat :: Runnable(e, t) <==> Runnable(s, t);
    assert Runnable(e, e.cur);
    ScheduleKeepsInv(e);
    TickMoves(e);
    var s' := TickSched(e);
    assert [s'.cur] + s'.q.ready == s.q.ready + [s.cur];
    assert s'.cur == s.q.ready[0];
  }

  /** The tick that ends a turn. */
  lemma TurnOver(s: Sched)
    requires AllLow(s)
    ensures var s' := StartingAt(s, 1);
            TickSched(s.(quantumTicks := 1)) == s' && AllLow(s')
  {
    var e := LastTick(s);
    hide TickSched, SchedInv;
    var s' := TickSched(e);
    var all := [s'.cur] + s'.q.ready;
    assert Line(s)[1..] + Line(s)[..1] == all;
    assert all[0] == s'.cur && all[1..] == s'.q.ready;
    assert s' == StartingAt(s, 1);
    LowStarts(s');
  }

  lemma LowStarts(s: Sched)
    requires SchedInv(s) && Quanta(s) && s.cur < NR_TASKS && s.task[s.cur].nice != 0
    requires s.q.prio == [] && s.q.ready != [] && s.quantumTicks == 15
    ensures AllLow(s)
  {
  }

  /** A whole turn. */
  lemma LowTurn(s: Sched, n: nat)
    requires AllLow(s) && n <= s.quantumTicks
    ensures n < s.quantumTicks ==> AfterTicks(s, n).cur == s.cur
    ensures n == s.quantumTicks ==> AfterTicks(s, n) == StartingAt(s, 1)
  {
    if n < s.quantumTicks {
      QuantumRunsDown(s, n);
    } else {
      QuantumRunsDown(s, n - 1);
      TurnOver(s);
      assert AfterTicks(s, n) == TickSched(AfterTicks(s, n - 1));
    }
  }

  lemma StartingOneLater(s: Sched, j: nat)
    requires 0 < j <= |Line(s)|
    ensures StartingAt(StartingAt(s, j - 1), 1) == StartingAt(s, j)
  {
    var all := Line(s);
    var before, after := all[j - 1..] + all[..j - 1], all[j..] + all[..j];
    assert Line(StartingAt(s, j - 1)) == before;
    assert before[1..] + before[..1] == after;
  }

  lemma NextTask(s: Sched, j: nat)
    requires 0 < j <= |Line(s)| && AllLow(StartingAt(s, j - 1))
    ensures AfterTicks(StartingAt(s, j - 1), 15) == StartingAt(s, j) && AllLow(StartingAt(s, j))
  {
    hide AllLow, AfterTicks, StartingAt;
    var r := StartingAt(s, j - 1);
    StartsTurn(r);
    TurnOver(r);
    LowTurn(r, r.quantumTicks);
    StartingOneLater(s, j);
  }

  lemma FirstTask(s: Sched)
    ensures AfterTicks(s, 0) == StartingAt(s, 0) == s
  {
    assert Line(s)[0..] + Line(s)[..0] == Line(s);
  }

  lemma StartsTurn(s: Sched)
    requires AllLow(s)
    ensures s.quantumTicks == 15
  {
  }

  lemma {:induction false} TurnsRotate(s: Sched, j: nat)
    requires AllLow(s) && j <= |Line(s)|
    ensures AfterTicks(s, 15 * j) == StartingAt(s, j) && AllLow(StartingAt(s, j))
  {
    hide AllLow, AfterTicks, StartingAt;
    if j == 0 {
      FirstTask(s);
    } else {
      TurnsRotate(s, j - 1);
      NextTask(s, j);
      AfterLater(s, 15 * (j - 1), 15);
    }
  }

  lemma WholeRound(s: Sched)
    requires AllLow(s)
    ensures AfterTicks(s, 15 * (|s.q.ready| + 1)) == s
  {
    var m := |Line(s)|;
    TurnsRotate(s, m);
    assert Line(s)[m..] + Line(s)[..m] == Line(s);
  }

  lemma AtPosition(s: Sched, j: nat)
    requires j <= |s.q.ready|
    ensures StartingAt(s, j).cur == Line(s)[j]
  {
  }

  /** Round robin: with tasks of nice 1 only, the task at position `j` has the CPU in the
      15 ticks from 15 j on, and after a round of all the state is as it was. */
  lemma LowRoundRobin(s: Sched, j: nat, n: nat)
    requires AllLow(s) && j <= |s.q.ready| && n < 15
    ensures AfterTicks(s, 15 * j + n).cur == Line(s)[j]
    ensures AfterTicks(s, 15 * (|s.q.ready| + 1)) == s
  {
    hide AllLow, AfterTicks, StartingAt;
    WholeRound(s);
    TurnsRotate(s, j);
    AtPosition(s, j);
    StartsTurn(StartingAt(s, j));
    LowTurn(StartingAt(s, j), n);
    AfterLater(s, 15 * j, n);
  }
}
