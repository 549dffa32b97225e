/** Tick accounting of the tasks (zeOS/sched.c:57-68, 204-232). A transition reads the
    clock twice: once to charge the elapsed ticks, once to remember the moment. */
module Accounting {

  datatype Stats = Stats(userTicks: nat, systemTicks: nat, blockedTicks: nat, readyTicks: nat,
                         elapsedTotalTicks: nat, totalTrans: nat, remainingTicks: int)

  datatype Kind = UserToSys | SysToUserReady | ReadyToSys

  /** A step of some task: its birth in init_stat, or a transition with its two readings. */
  datatype Event =
    | Birth(task: nat, at: nat, quantum: int)
    | Transition(task: nat, kind: Kind, first: nat, second: nat, quantumTicks: int)

  /** init_stat */
  method InitStat(estat: array<Stats>, task: nat, at: nat, quantum: int)
    requires task < estat.Length
    modifies estat
    ensures estat[..] == Happen(old(estat[..]), Birth(task, at, quantum))
  {
    estat[task] := estat[task].(userTicks := 0);
    estat[task] := estat[task].(systemTicks := 0);
    estat[task] := estat[task].(blockedTicks := 0);
    estat[task] := estat[task].(readyTicks := 0);
    estat[task] := estat[task].(elapsedTotalTicks := at);
    estat[task] := estat[task].(totalTrans := 0);
    estat[task] := estat[task].(remainingTicks := quantum);
  }

  /** user_to_sys */
  method UserToSystem(estat: array<Stats>, cur: nat, first: nat, second: nat, quantumTicks: int)
    requires cur < estat.Length && estat[cur].elapsedTotalTicks <= first <= second
    modifies estat
    ensures estat[..] == Happen(old(estat[..]), Transition(cur, UserToSys, first, second, quantumTicks))
  {
    estat[cur] := estat[cur].(userTicks := estat[cur].userTicks + (first - estat[cur].elapsedTotalTicks));
    estat[cur] := estat[cur].(elapsedTotalTicks := second);
    estat[cur] := estat[cur].(remainingTicks := quantumTicks);
  }

  /** sys_to_user_ready */
  method SystemToUserOrReady(estat: array<Stats>, cur: nat, first: nat, second: nat, quantumTicks: int)
    requires cur < estat.Length && estat[cur].elapsedTotalTicks <= first <= second
    modifies estat
    ensures estat[..] == Happen(old(estat[..]), Transition(cur, SysToUserReady, first, second, quantumTicks))
  {
    estat[cur] := estat[cur].(systemTicks := estat[cur].systemTicks + (first - estat[cur].elapsedTotalTicks));
    estat[cur] := estat[cur].(elapsedTotalTicks := second);
    estat[cur] := estat[cur].(remainingTicks := quantumTicks);
  }

  /** ready_to_sys */
  method ReadyToSystem(estat: array<Stats>, cur: nat, first: nat, second: nat, quantumTicks: int)
    requires cur < estat.Length && estat[cur].elapsedTotalTicks <= first <= second
    modifies estat
    ensures estat[..] == Happen(old(estat[..]), Transition(cur, ReadyToSys, first, second, quantumTicks))
  {
    estat[cur] := estat[cur].(readyTicks := estat[cur].readyTicks + (first - estat[cur].elapsedTotalTicks));
    estat[cur] := estat[cur].(elapsedTotalTicks := second);
    estat[cur] := estat[cur].(remainingTicks := quantumTicks);
    estat[cur] := estat[cur].(totalTrans := estat[cur].totalTrans + 1);
  }

  /** The ticks since a moment, of a clock that does not run backwards. */
  function Since(now: nat, then': nat): nat {
    if then' <= now then now - then' else 0
  }

  function Charged(st: Stats, kind: Kind, first: nat): Stats {
    var d := Since(first, st.elapsedTotalTicks);
    match kind
    case UserToSys => st.(userTicks := st.userTicks + d)
    case SysToUserReady => st.(systemTicks := st.systemTicks + d)
    case ReadyToSys => st.(readyTicks := st.readyTicks + d, totalTrans := st.totalTrans + 1)
  }

  function Happen(ss: seq<Stats>, e: Event): (ss': seq<Stats>)
    ensures |ss'| == |ss|
  {
    if e.task >= |ss| then ss else
    match e
    case Birth(t, at, quantum) => ss[t := Stats(0, 0, 0, 0, at, 0, quantum)]
    case Transition(t, kind, first, second, quantumTicks) =>
      ss[t := Charged(ss[t], kind, first).(elapsedTotalTicks := second, remainingTicks := quantumTicks)]
  }

  function HappenAll(ss: seq<Stats>, es: seq<Event>): (ss': seq<Stats>)
    ensures |ss'| == |ss|
  {
    if es == [] then ss else Happen(HappenAll(ss, es[..|es| - 1]), es[|es| - 1])
  }

  // ---------------------------------------------------------------------------
  // What each account holds, told from the events alone
  // ---------------------------------------------------------------------------

  /** The clock as the task last recorded it: the second reading of its last event. */
  function LastReading(es: seq<Event>, t: nat): int {
    if es == [] then 0
    else if es[|es| - 1].task != t then LastReading(es[..|es| - 1], t)
    else if es[|es| - 1].Birth? then es[|es| - 1].at
    else es[|es| - 1].second
  }

  /** The time between the task's last reading and each transition of one kind, summed
      since its birth. */
  function SpentBefore(es: seq<Event>, t: nat, kind: Kind): int {
    if es == [] then 0 else
    var before, e := es[..|es| - 1], es[|es| - 1];
    if e.task != t then SpentBefore(before, t, kind)
    else if e.Birth? then 0
    else SpentBefore(before, t, kind) + if e.kind == kind then e.first - LastReading(before, t) else 0
  }

  /** How many times the task has entered the system from a run queue since its birth. */
  function Dispatches(es: seq<Event>, t: nat): nat {
    if es == [] then 0 else
    var before, e := es[..|es| - 1], es[|es| - 1];
    if e.task != t then Dispatches(before, t)
    else if e.Birth? then 0
    else Dispatches(before, t) + if e.kind == ReadyToSys then 1 else 0
  }

  /** The quantum counter that the task's last event saw. */
  function LastQuantum(es: seq<Event>, t: nat): int {
    if es == [] then 0
    else if es[|es| - 1].task != t then LastQuantum(es[..|es| - 1], t)
    else if es[|es| - 1].Birth? then es[|es| - 1].quantum
    else es[|es| - 1].quantumTicks
  }

  /** For any interleaving over all tasks: user ticks are the time before entries to the
      system, system ticks the time before exits from it, ready ticks the time before
      dispatches, and nothing is ever charged as blocked. */
  lemma {:induction false} EachAccount(ss: seq<Stats>, es: seq<Event>, t: nat)
    requires Monotone(es) && t < |ss| && Born(es, t)
    ensures var st := HappenAll(ss, es)[t];
            && st.userTicks == SpentBefore(es, t, UserToSys)
            && st.systemTicks == SpentBefore(es, t, SysToUserReady)
            && st.readyTicks == SpentBefore(es, t, ReadyToSys)
            && st.blockedTicks == 0
            && st.elapsedTotalTicks == LastReading(es, t)
            && st.totalTrans == Dispatches(es, t)
            && st.remainingTicks == LastQuantum(es, t)
  {
    var before, e := es[..|es| - 1], es[|es| - 1];
    if e.task != t || e.Transition? {
      EachAccount(ss, before, t);
      if e.task == t {
        ElapsedIsPast(ss, before, t, e.first);
      }
    }
  }

  // ---------------------------------------------------------------------------
  // The accounts balance
  // ---------------------------------------------------------------------------

  function Start(e: Event): nat {
    if e.Birth? then e.at else e.first
  }

  function End(e: Event): nat {
    if e.Birth? then e.at else e.second
  }

  /** The clock is read in order, over all tasks. */
  ghost predicate Monotone(es: seq<Event>) {
    && (forall i :: 0 <= i < |es| ==> Start(es[i]) <= End(es[i]))
    && (forall i, j :: 0 <= i < j < |es| ==> End(es[i]) <= Start(es[j]))
  }

  /** The task has been born in the run. */
  predicate Born(es: seq<Event>, t: nat) {
    es != [] && ((es[|es| - 1].Birth? && es[|es| - 1].task == t) || Born(es[..|es| - 1], t))
  }

  /** The tick of the task's last birth. */
  function BirthTick(es: seq<Event>, t: nat): nat {
    if es == [] then 0
    else if es[|es| - 1].Birth? && es[|es| - 1].task == t then es[|es| - 1].at
    else BirthTick(es[..|es| - 1], t)
  }

  /** Ticks that passed between the two readings of the task's transitions since its birth. */
  function Lost(es: seq<Event>, t: nat): nat {
    if es == [] then 0 else
    var before, e := es[..|es| - 1], es[|es| - 1];
    if e.task != t then Lost(before, t)
    else if e.Birth? then 0
    else Lost(before, t) + Since(e.second, e.first)
  }

  function Total(st: Stats): nat {
    st.userTicks + st.systemTicks + st.readyTicks + st.blockedTicks
  }

  /** A reading of the clock precedes all later ones. */
  lemma {:induction false} ElapsedIsPast(ss: seq<Stats>, es: seq<Event>, t: nat, now: nat)
    requires Monotone(es) && t < |ss| && Born(es, t)
    requires forall i :: 0 <= i < |es| ==> End(es[i]) <= now
    ensures HappenAll(ss, es)[t].elapsedTotalTicks <= now
  {
    var before, e := es[..|es| - 1], es[|es| - 1];
    if e.task != t || e.Transition? {
      ElapsedIsPast(ss, before, t, now);
    }
  }

  /** For any interleaving of births and transitions over all tasks, the charged ticks of
      a task and the ticks lost between double readings make up its whole life. */
  lemma {:induction false} AccountsBalance(ss: seq<Stats>, es: seq<Event>, t: nat)
    requires Monotone(es) && t < |ss| && Born(es, t)
    ensures var st := HappenAll(ss, es)[t];
            Total(st) + Lost(es, t) + BirthTick(es, t) == st.elapsedTotalTicks
  {
    var before, e := es[..|es| - 1], es[|es| - 1];
    if e.task != t || e.Transition? {
      AccountsBalance(ss, before, t);
      if e.task == t {
        ElapsedIsPast(ss, before, t, e.first);
      }
    }
  }

  /** The readings of every transition of the task since its birth agree. */
  predicate ReadingsAgree(es: seq<Event>, t: nat) {
    es == [] ||
    var before, e := es[..|es| - 1], es[|es| - 1];
    if e.task != t then ReadingsAgree(before, t)
    else e.Birth? || (e.first == e.second && ReadingsAgree(before, t))
  }

  lemma {:induction false} NothingLostIff(es: seq<Event>, t: nat)
    requires Monotone(es)
    ensures Lost(es, t) == 0 <==> ReadingsAgree(es, t)
  {
    if es != [] {
      NothingLostIff(es[..|es| - 1], t);
      assert Start(es[|es| - 1]) <= End(es[|es| - 1]);
    }
  }

  /** The ticks charged to a task never exceed its age, and equal it exactly when the two
      readings of each of its transitions agree. */
  lemma ChargedWithinAge(ss: seq<Stats>, es: seq<Event>, t: nat)
    requires Monotone(es) && t < |ss| && Born(es, t)
    ensures var st := HappenAll(ss, es)[t];
            && Total(st) <= st.elapsedTotalTicks - BirthTick(es, t)
            && (Total(st) == st.elapsedTotalTicks - BirthTick(es, t) <==> ReadingsAgree(es, t))
  {
    AccountsBalance(ss, es, t);
    NothingLostIff(es, t);
  }
}
