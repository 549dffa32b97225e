/** Frame accounting in every run, growths to page boundaries included: how many used
    frames fork and exit do not count (zeOS/sys.c:78-130, 162-169, 283-315). */
module Ledger {
  import opened Layout
  import opened Frames
  import opened Paging
  import opened AddressSpace
  import opened HeapSpace
  import opened Conservation
  import opened Scheduler
  import opened SystemCalls
  import opened Runs

  // ---------------------------------------------------------------------------
  // Used frames
  // ---------------------------------------------------------------------------

  lemma MarkCounts(v: Vm, v': Vm, fr: seq<nat>)
    requires FreshFrames(v.used, fr) && v'.used == Mark(v.used, fr)
    ensures |UsedFrames(v')| == |UsedFrames(v)| + |fr|
  {
    var taken := set f | f in fr;
    DistinctSize(fr, taken);
    assert forall i :: 0 <= i < |fr| ==> Allocatable(fr[i]) && !v.used[fr[i]];
    assert UsedFrames(v') == UsedFrames(v) + taken;
  }

  /** Of the pages released the first `m` were mapped, and give back one frame each. */
  lemma ReleaseCounts(v: Vm, s: nat, first: nat, n: nat, m: nat)
    requires WellMapped(v) && Exclusive(v) && s < NR_TASKS
    requires PAG_LOG_INIT_DATA <= first && m <= n && first + n <= TOTAL_PAGES
    requires forall p :: first <= p < first + n ==> (v.pt[s][p].present <==> p < first + m)
    ensures |UsedFrames(Released(v, s, first, n))| == |UsedFrames(v)| - m
  {
    var fr := Behind(v.pt[s], first, m);
    var freed := set f | f in fr;
    BehindIsUsed(v, s, first, m);
    DistinctSize(fr, freed);
    forall f | f in UsedFrames(v) ensures f > NUM_PAG_KERNEL && Names(v.pt[s], first, n, f) <==> f in freed {
      NamedIsBehind(v, s, first, n, m, f);
    }
    hide WellMapped, Exclusive, Names;
    assert UsedFrames(Released(v, s, first, n)) == UsedFrames(v) - freed;
    assert freed <= UsedFrames(v);
  }

  /** The frames behind mapped pages are used, and all different. */
  lemma BehindIsUsed(v: Vm, s: nat, first: nat, m: nat)
    requires WellMapped(v) && Exclusive(v) && s < NR_TASKS && PAG_LOG_INIT_DATA <= first && first + m <= TOTAL_PAGES
    requires forall p :: first <= p < first + m ==> v.pt[s][p].present
    ensures Distinct(Behind(v.pt[s], first, m))
    ensures forall f :: f in Behind(v.pt[s], first, m) ==> f in UsedFrames(v)
  {
    var fr := Behind(v.pt[s], first, m);
    forall i | 0 <= i < m ensures PoolFrame(fr[i]) && v.used[fr[i]] {
      assert UserPage(s, first + i);
    }
    forall i, j | 0 <= i < j < m ensures fr[i] != fr[j] {
      assert UserPage(s, first + i) && UserPage(s, first + j);
    }
  }

  lemma NamedIsBehind(v: Vm, s: nat, first: nat, n: nat, m: nat, f: nat)
    requires WellMapped(v) && s < NR_TASKS
    requires PAG_LOG_INIT_DATA <= first && m <= n && first + n <= TOTAL_PAGES
    requires forall p :: first <= p < first + n ==> (v.pt[s][p].present <==> p < first + m)
    ensures f > NUM_PAG_KERNEL && Names(v.pt[s], first, n, f) <==> f in Behind(v.pt[s], first, m)
  {
    var fr := Behind(v.pt[s], first, m);
    if f in fr {
      var i :| 0 <= i < m && fr[i] == f;
      assert v.pt[s][first + i].frame == f && UserPage(s, first + i);
    }
    forall p | first <= p < first + n && v.pt[s][p].frame == f && f > NUM_PAG_KERNEL ensures f in fr {
      assert UserPage(s, p);
      assert fr[p - first] == f;
    }
  }

  // ---------------------------------------------------------------------------
  // Counted pages
  // ---------------------------------------------------------------------------

  lemma {:induction false} TotalPagesDepends(live: set<nat>, b: Breaks, b': Breaks, k: nat)
    requires k <= NR_TASKS && forall t :: t in live && t < NR_TASKS ==> b'[t] == b[t]
    ensures TotalPages(live, b', k) == TotalPages(live, b, k)
  {
    if k > 0 {
      TotalPagesDepends(live, b, b', k - 1);
    }
  }

  lemma TotalPagesMoved(live: set<nat>, b: Breaks, s: nat, brk: nat)
    requires s in live && s < NR_TASKS
    ensures TotalPages(live, b[s := brk], NR_TASKS) == TotalPages(live, b, NR_TASKS) - NumPages(b[s]) + NumPages(brk)
  {
    var k := NR_TASKS;
    TotalPagesWithout(live, b, s, k);
    TotalPagesWithout(live, b[s := brk], s, k);
    TotalPagesDepends(live - {s}, b, b[s := brk], k);
  }

  lemma TotalPagesWith(live: set<nat>, b: Breaks, s: nat, brk: nat)
    requires s !in live && s < NR_TASKS
    ensures TotalPages(live + {s}, b[s := brk], NR_TASKS) == TotalPages(live, b, NR_TASKS) + NumPages(brk)
  {
    var k := NR_TASKS;
    assert live + {s} - {s} == live;
    TotalPagesWithout(live + {s}, b[s := brk], s, k);
    TotalPagesDepends(live, b, b[s := brk], k);
  }

  // ---------------------------------------------------------------------------
  // The frames that are used and not counted
  // ---------------------------------------------------------------------------

  ghost function Uncounted(v: Vm, live: set<nat>, brk: Breaks): int {
    |UsedFrames(v)| - (256 + 8 + TotalPages(live, brk, NR_TASKS))
  }

  lemma ForkUncounted(v: Vm, live: set<nat>, brk: Breaks, parent: nat, child: nat, fr: seq<nat>)
    requires ForkReady(v, live, brk, parent, child, fr)
    ensures Uncounted(ForkSpace(v, parent, child, fr), live + {child}, brk[child := brk[parent]]) == Uncounted(v, live, brk)
  {
    MarkCounts(v, ForkSpace(v, parent, child, fr), fr);
    TotalPagesWith(live, brk, child, brk[parent]);
  }

  lemma ExitUncounted(v: Vm, live: set<nat>, brk: Breaks, s: nat)
    requires VmInv(v, live, brk) && s in live && s < NR_TASKS
    ensures Uncounted(Released(v, s, PAG_LOG_INIT_DATA, NumPages(brk[s])), live - {s}, brk) == Uncounted(v, live, brk)
  {
    assert CoveredTask(v.pt[s], brk[s]);
    HeapPagesMonotone(L_HEAP_START, brk[s]);
    ReleaseCounts(v, s, PAG_LOG_INIT_DATA, NumPages(brk[s]), NumPages(brk[s]));
    TotalPagesWithout(live, brk, s, NR_TASKS);
  }

  /** The call shrinks a heap that ends on a page boundary, and the page past the counted
      ones is mapped: it is released too. */
  predicate ReturnsExtra(v: Vm, s: nat, brk: nat, n: int32)
    requires s < NR_TASKS
  {
    && n < 0 && L_HEAP_START < brk < 0x8000_0000 && PageAligned(brk) && HEAP_FIRST_PAGE + PagHeap(brk) < TOTAL_PAGES
    && v.pt[s][HEAP_FIRST_PAGE + PagHeap(brk)].present
  }

  /** How a call of sbrk changes the number of frames that are not counted. */
  ghost function SbrkExtra(v: Vm, s: nat, brk: nat, n: int32): int
    requires s < NR_TASKS
  {
    if EndsOnBoundary(v, brk, n) then 1 else if ReturnsExtra(v, s, brk, n) then -1 else 0
  }

  /** A growth takes what the new break counts more, and one frame at a boundary. */
  lemma SpanAndCount(b: nat, b': nat)
    ensures SpanPages(b, b') == NumPages(b') - NumPages(b) + if PageAligned(b') then 1 else 0
  {
  }

  lemma GrownUncounted(v: Vm, live: set<nat>, brk: Breaks, s: nat, b': nat, fr: seq<nat>)
    requires s in live && s < NR_TASKS && FreshFrames(v.used, fr) && |fr| == SpanPages(brk[s], b')
    ensures Uncounted(Grown(v, s, SpanFirst(brk[s]), fr), live, brk[s := b'])
            == Uncounted(v, live, brk) + if PageAligned(b') then 1 else 0
  {
    SpanAndCount(brk[s], b');
    MarkCounts(v, Grown(v, s, SpanFirst(brk[s]), fr), fr);
    TotalPagesMoved(live, brk, s, b');
  }

  lemma GrowthUncounted(v: Vm, live: set<nat>, brk: Breaks, s: nat, n: int32)
    requires VmInv(v, live, brk) && s in live && n > 0
    requires s < NR_TASKS && L_HEAP_START <= brk[s] < 0x8000_0000
    ensures var o := Sbrk(v, s, brk[s], n);
            Uncounted(o.vm, live, brk[s := o.brk]) == Uncounted(v, live, brk) + SbrkExtra(v, s, brk[s], n)
  {
    hide VmInv, Uncounted, FreshFrames;
    var b, b' := brk[s], brk[s] + n;
    GrowthSucceedsIff(v, s, b, n);
    SpanStartsAfterCounted(b, b');
    assert brk[s := b] == brk;
    if Sbrk(v, s, b, n).ret == b {
      AllocNFresh(v.used, SpanPages(b, b'));
      GrownUncounted(v, live, brk, s, b', AllocN(v.used, SpanPages(b, b')));
    }
  }

  lemma ShrinkUncounted(v: Vm, live: set<nat>, brk: Breaks, s: nat, n: int32, dest: nat)
    requires VmInv(v, live, brk) && s in live && s < NR_TASKS && n < 0
    requires L_HEAP_START <= dest < brk[s] < 0x8000_0000
    ensures Uncounted(Released(v, s, SpanFirst(dest), SpanPages(dest, brk[s])), live, brk[s := dest])
            == Uncounted(v, live, brk) + SbrkExtra(v, s, brk[s], n)
  {
    var b := brk[s];
    BreakBound(v, live, brk, s);
    assert CoveredTask(v.pt[s], b);
    SpanStartsAfterCounted(dest, b);
    SpanStartsAfterCounted(b, b);
    HeapPagesMonotone(dest, b);
    HeapPagesMonotone(L_HEAP_START, dest);
    HeapPagesIsCeiling(b);
    var counted := NumPages(b) - NumPages(dest);
    ReleaseCounts(v, s, SpanFirst(dest), SpanPages(dest, b), if ReturnsExtra(v, s, b, n) then counted + 1 else counted);
    TotalPagesMoved(live, brk, s, dest);
  }

  lemma SbrkUncounted(v: Vm, live: set<nat>, brk: Breaks, s: nat, n: int32)
    requires VmInv(v, live, brk) && s in live
    requires s < NR_TASKS && L_HEAP_START <= brk[s] < 0x8000_0000 && !Wraps(brk[s], n)
    ensures var o := Sbrk(v, s, brk[s], n);
            Uncounted(o.vm, live, brk[s := o.brk]) == Uncounted(v, live, brk) + SbrkExtra(v, s, brk[s], n)
  {
    if n > 0 {
      GrowthUncounted(v, live, brk, s, n);
    } else if n == 0 || brk[s] == L_HEAP_START {
      assert brk[s := brk[s]] == brk;
    } else {
      ShrinkUncounted(v, live, brk, s, n, ShrinkTarget(brk[s], n));
    }
  }

  // ---------------------------------------------------------------------------
  // Runs
  // ---------------------------------------------------------------------------

  ghost function UncountedIn(k: Kernel): int {
    Uncounted(k.vm, Live(k.s), Brks(k.s.task))
  }

  /** What a step adds to the frames that are not counted. */
  ghost function Extra(k: Kernel, c: Call): int {
    if c.CallSbrk? && k.s.cur < NR_TASKS then SbrkExtra(k.vm, k.s.cur, k.s.task[k.s.cur].brk, c.n) else 0
  }

  lemma ForkUncountedIn(k: Kernel)
    requires KInv(k)
    ensures UncountedIn(Fork(k).0) == UncountedIn(k)
  {
    if ForkSucceeds(k) {
      ForkOutcome(k);
      SpawnedTask(k.s, k.nextPid);
      ForkUncounted(k.vm, Live(k.s), Brks(k.s.task), k.s.cur, k.s.q.free[0], AllocN(k.vm.used, Needed(k)));
      hide Uncounted, KInv, Live, Brks, ForkReady, ForkSpace, AllocN, Fork, Needed, Spawn;
    } else if k.s.q.free != [] {
      assert k.s.q.free[0] in k.s.q.free;
      SameLive(k.s, Fork(k).0.s);
      TotalPagesDepends(Live(k.s), Brks(k.s.task), Brks(Fork(k).0.s.task), NR_TASKS);
    }
  }

  lemma ExitUncountedIn(k: Kernel)
    requires KInv(k) && CanSwitch(Leave(k.s))
    ensures UncountedIn(ExitCall(k)) == UncountedIn(k)
  {
    CurrentIsLive(k);
    ExitKeepsInvIff(k.s);
    ExitUncounted(k.vm, Live(k.s), Brks(k.s.task), k.s.cur);
    assert Live(ExitCall(k).s) == Live(k.s) - {k.s.cur};
    assert Brks(ExitCall(k).s.task) == Brks(k.s.task);
  }

  lemma SbrkUncountedIn(k: Kernel, n: int32)
    requires KInv(k) && Keeps(k, CallSbrk(n))
    ensures UncountedIn(SbrkCall(k, n).0) == UncountedIn(k) + Extra(k, CallSbrk(n))
  {
    CurrentIsLive(k);
    var brks := Brks(k.s.task);
    BreakBound(k.vm, Live(k.s), brks, k.s.cur);
    SbrkUncounted(k.vm, Live(k.s), brks, k.s.cur, n);
    var o := Sbrk(k.vm, k.s.cur, brks[k.s.cur], n);
    var k' := SbrkCall(k, n).0;
    assert Brks(k'.s.task) == brks[k.s.cur := o.brk];
    OtherFields(k.s, k'.s);
    hide SchedInv, Live, Sbrk, Uncounted, SbrkExtra;
  }

  lemma StepUncounted(k: Kernel, c: Call)
    requires KInv(k) && Keeps(k, c) && !Stuck(k, c)
    ensures UncountedIn(Apply(k, c)) == UncountedIn(k) + Extra(k, c)
  {
    match c
    case CallFork => ForkUncountedIn(k);
    case CallExit => ExitUncountedIn(k);
    case CallSbrk(n) => SbrkUncountedIn(k, n);
    case CallSetFps(fps) =>
      SetNiceKeepsInvIff(k.s, if fps == -1 then 1 else 0);
      assert Live(Apply(k, c).s) == Live(k.s) && Brks(Apply(k, c).s.task) == Brks(k.s.task);
    case ClockTick =>
      ScheduleKeepsInv(k.s);
      assert Live(Apply(k, c).s) == Live(k.s);
    case UserStore(addr, b) =>
    case CallPutScreen(_) =>
  }

  /** The growths to a boundary so far, less the extra pages that were given back. */
  ghost function ExtraSoFar(ks: seq<Kernel>, cs: seq<Call>, i: nat): int
    requires i <= |ks| && i <= |cs|
  {
    if i == 0 then 0 else ExtraSoFar(ks, cs, i - 1) + Extra(ks[i - 1], cs[i - 1])
  }

  /** The ledger of every run: the used frames number 256 + 8, plus what fork and exit
      count, plus one for each growth to a page boundary whose extra page was not given
      back by a shrinking sbrk. */
  lemma {:induction false} LedgerOfEveryRun(ks: seq<Kernel>, cs: seq<Call>, i: nat)
    requires Trace(ks, cs) && i <= |cs|
    ensures KInv(ks[i])
    ensures |UsedFrames(ks[i].vm)|
            == 256 + 8 + TotalPages(Live(ks[i].s), Brks(ks[i].s.task), NR_TASKS) + ExtraSoFar(ks, cs, i)
  {
    InvariantInEveryRun(ks, cs, i);
    if i == 0 {
      var ram: Ram :| ks[0] == Boot(ram);
      BootEstablishes(ram);
      UsedFramesAreAccounted(ks[0].vm, Live(ks[0].s), Brks(ks[0].s.task));
    } else {
      LedgerOfEveryRun(ks, cs, i - 1);
      assert StepOf(ks[i - 1], cs[i - 1], ks[i]);
      StepUncounted(ks[i - 1], cs[i - 1]);
    }
  }

  // ---------------------------------------------------------------------------
  // Exact accounting is the ledger at zero
  // ---------------------------------------------------------------------------

  ghost predicate CountedPage(live: set<nat>, brk: Breaks, s: int, p: int) {
    UserPage(s, p) && p < PAG_LOG_INIT_DATA + CountedPages(live, brk, s)
  }

  ghost predicate BehindCounted(v: Vm, live: set<nat>, brk: Breaks, f: int) {
    exists s, p :: CountedPage(live, brk, s, p) && HeldBy(v, s, p, f)
  }

  /** The memory that fork and exit account for: counted pages and their frames only. */
  ghost function Trimmed(v: Vm, live: set<nat>, brk: Breaks): Vm {
    Vm(seq(1024, f requires 0 <= f < 1024 => FixedFrame(f) || BehindCounted(v, live, brk, f)),
       seq<Table>(10, s requires 0 <= s < 10 => TrimmedTable(v.pt[s], CountedPages(live, brk, s))),
       v.ram)
  }

  function TrimmedTable(t: Table, n: int): Table {
    seq<Entry>(1024, p requires 0 <= p < 1024 =>
      if PAG_LOG_INIT_DATA <= p && PAG_LOG_INIT_DATA + n <= p then NO_ENTRY else t[p])
  }

  lemma TrimmedIsExact(v: Vm, live: set<nat>, brk: Breaks)
    requires VmInv(v, live, brk)
    ensures VmInv(Trimmed(v, live, brk), live, brk) && Exact(Trimmed(v, live, brk), live, brk)
    ensures UsedFrames(Trimmed(v, live, brk)) <= UsedFrames(v)
  {
    var w := Trimmed(v, live, brk);
    forall s, p | UserPage(s, p) && w.pt[s][p].present
      ensures CountedPage(live, brk, s, p) && w.pt[s][p] == v.pt[s][p] && w.used[w.pt[s][p].frame]
    {
      assert HeldBy(v, s, p, v.pt[s][p].frame);
    }
    assert WellMapped(w) && Exclusive(w) && FixedFrames(w) && KernelPages(w);
    forall f | PoolFrame(f) && w.used[f] ensures Held(w, f) {
      var s, p :| CountedPage(live, brk, s, p) && HeldBy(v, s, p, f);
      assert HeldBy(w, s, p, f);
    }
  }

  /** With no used frame beyond the counted ones, no page is mapped beyond them either. */
  lemma NothingTrimmed(v: Vm, live: set<nat>, brk: Breaks)
    requires VmInv(v, live, brk) && UsedFrames(v) <= UsedFrames(Trimmed(v, live, brk))
    ensures Exact(v, live, brk)
  {
    var w := Trimmed(v, live, brk);
    forall f | PoolFrame(f) && v.used[f] ensures BehindCounted(v, live, brk, f) && Held(v, f) {
      assert f in UsedFrames(v) && w.used[f];
    }
    forall s, p | UserPage(s, p) && v.pt[s][p].present ensures CountedPage(live, brk, s, p) {
      var f := v.pt[s][p].frame;
      var s', p' :| CountedPage(live, brk, s', p') && HeldBy(v, s', p', f);
    }
    forall s | 0 <= s < NR_TASKS ensures ExactTable(v.pt[s], CountedPages(live, brk, s)) {
      forall p | PAG_LOG_INIT_DATA <= p < TOTAL_PAGES
        ensures v.pt[s][p].present <==> p < PAG_LOG_INIT_DATA + CountedPages(live, brk, s)
      {
        assert UserPage(s, p);
        assert s in live ==> CoveredTask(v.pt[s], brk[s]);
      }
    }
  }

  /** The used frames are never fewer than the counted ones, and as many exactly when the
      accounting is exact. */
  lemma ExactIffNoneUncounted(v: Vm, live: set<nat>, brk: Breaks)
    requires VmInv(v, live, brk)
    ensures Uncounted(v, live, brk) >= 0
    ensures Uncounted(v, live, brk) == 0 <==> Exact(v, live, brk)
  {
    var w := Trimmed(v, live, brk);
    TrimmedIsExact(v, live, brk);
    UsedFramesAreAccounted(w, live, brk);
    var more := UsedFrames(v) - UsedFrames(w);
    assert UsedFrames(v) == UsedFrames(w) + more;
    if Exact(v, live, brk) {
      UsedFramesAreAccounted(v, live, brk);
    } else if more == {} {
      NothingTrimmed(v, live, brk);
    }
  }

  /** In every run: frames leak if and only if some growth to a page boundary has not been
      made up for. */
  lemma ExactIffAllGivenBack(ks: seq<Kernel>, cs: seq<Call>, i: nat)
    requires Trace(ks, cs) && i <= |cs|
    ensures KInv(ks[i]) && ExtraSoFar(ks, cs, i) >= 0
    ensures ExactKernel(ks[i]) <==> ExtraSoFar(ks, cs, i) == 0
  {
    LedgerOfEveryRun(ks, cs, i);
    ExactIffNoneUncounted(ks[i].vm, Live(ks[i].s), Brks(ks[i].s.task));
  }
}
