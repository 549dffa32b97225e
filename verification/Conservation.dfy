/** Exact frame accounting: while no growth of a heap ends on a page boundary, every
    used frame is held by a counted page of a live task, or is fixed
    (zeOS/sys.c:78-93, 162-169, 283-315). */
module Conservation {
  import opened Layout
  import opened Frames
  import opened Paging
  import opened AddressSpace
  import opened HeapSpace

  /** The mapped user pages of a table are exactly the first `n`. */
  ghost predicate ExactTable(t: Table, n: int) {
    forall p :: PAG_LOG_INIT_DATA <= p < TOTAL_PAGES ==> (t[p].present <==> p < PAG_LOG_INIT_DATA + n)
  }

  /** What fork and exit count for a slot. */
  ghost function CountedPages(live: set<nat>, brk: Breaks, s: nat): int
    requires s < NR_TASKS
  {
    if s in live then NumPages(brk[s]) else 0
  }

  ghost predicate HeldBy(v: Vm, s: int, p: int, f: int) {
    UserPage(s, p) && v.pt[s][p].present && v.pt[s][p].frame == f
  }

  ghost predicate Held(v: Vm, f: int) {
    exists s, p :: HeldBy(v, s, p, f)
  }

  /** No frame is marked used without a page that holds it. */
  ghost predicate NoLeak(v: Vm) {
    forall f :: PoolFrame(f) && v.used[f] ==> Held(v, f)
  }

  ghost predicate Exact(v: Vm, live: set<nat>, brk: Breaks) {
    && (forall s :: 0 <= s < NR_TASKS ==> ExactTable(v.pt[s], CountedPages(live, brk, s)))
    && NoLeak(v)
  }

  // ---------------------------------------------------------------------------
  // Which steps keep the accounting exact
  // ---------------------------------------------------------------------------

  lemma ForkKeepsExact(v: Vm, live: set<nat>, brk: Breaks, parent: nat, child: nat, fr: seq<nat>)
    requires ForkReady(v, live, brk, parent, child, fr) && Exact(v, live, brk)
    ensures Exact(ForkSpace(v, parent, child, fr), live + {child}, brk[child := brk[parent]])
  {
    var v' := ForkSpace(v, parent, child, fr);
    var live', brk' := live + {child}, brk[child := brk[parent]];
    assert ExactTable(v.pt[parent], CountedPages(live, brk, parent));
    assert ExactTable(v.pt[child], 0);
    forall s | 0 <= s < NR_TASKS ensures ExactTable(v'.pt[s], CountedPages(live', brk', s)) {
      assert ExactTable(v.pt[s], CountedPages(live, brk, s));
    }
    forall f | PoolFrame(f) && v'.used[f] ensures Held(v', f) {
      if v.used[f] {
        assert Held(v, f);
        var s, p :| HeldBy(v, s, p, f);
        assert ExactTable(v.pt[s], CountedPages(live, brk, s));
        assert HeldBy(v', s, p, f);
      } else {
        var i :| 0 <= i < |fr| && fr[i] == f;
        assert HeldBy(v', child, PAG_LOG_INIT_DATA + i, f);
      }
    }
  }

  /** Releasing the counted pages from `first` on leaves a table with the pages before it. */
  lemma ReleaseKeepsExact(v: Vm, live: set<nat>, brk: Breaks, s: nat, first: nat, n: nat,
                          live': set<nat>, brk': Breaks)
    requires VmInv(v, live, brk) && s in live && s < NR_TASKS && Exact(v, live, brk)
    requires PAG_LOG_INIT_DATA <= first && PAG_LOG_INIT_DATA + NumPages(brk[s]) <= first + n
    requires forall t :: 0 <= t < NR_TASKS && t != s ==> CountedPages(live', brk', t) == CountedPages(live, brk, t)
    requires CountedPages(live', brk', s) == first - PAG_LOG_INIT_DATA <= NumPages(brk[s])
    ensures Exact(Released(v, s, first, n), live', brk')
  {
    var v' := Released(v, s, first, n);
    assert ExactTable(v.pt[s], NumPages(brk[s]));
    forall t | 0 <= t < NR_TASKS ensures ExactTable(v'.pt[t], CountedPages(live', brk', t)) {
      assert ExactTable(v.pt[t], CountedPages(live, brk, t));
    }
    forall f | PoolFrame(f) && v'.used[f] ensures Held(v', f) {
      assert Held(v, f);
      var t, p :| HeldBy(v, t, p, f);
      if t == s && first <= p {
        assert Names(v.pt[s], first, n, f);
      }
      assert HeldBy(v', t, p, f);
    }
  }

  lemma ExitKeepsExact(v: Vm, live: set<nat>, brk: Breaks, s: nat)
    requires VmInv(v, live, brk) && s in live && Exact(v, live, brk)
    ensures s < NR_TASKS
    ensures Exact(Released(v, s, PAG_LOG_INIT_DATA, NumPages(brk[s])), live - {s}, brk)
  {
    assert CoveredTask(v.pt[s], brk[s]);
    HeapPagesMonotone(L_HEAP_START, brk[s]);
    ReleaseKeepsExact(v, live, brk, s, PAG_LOG_INIT_DATA, NumPages(brk[s]), live - {s}, brk);
  }

  /** The call is a growth to a page boundary, and there are frames for it. */
  ghost predicate EndsOnBoundary(v: Vm, brk: nat, n: int32) {
    n > 0 && PageAligned(brk + n) && SpanPages(brk, brk + n) <= |FreeSet(v.used)|
  }

  /** A growth succeeds exactly when there are frames for it. */
  lemma GrowthSucceedsIff(v: Vm, s: nat, b: nat, n: int32)
    requires s < NR_TASKS && L_HEAP_START <= b < 0x8000_0000 && n > 0
    ensures Sbrk(v, s, b, n).ret == b <==> SpanPages(b, b + n) <= |FreeSet(v.used)|
    ensures Sbrk(v, s, b, n).ret == b ==> Sbrk(v, s, b, n).brk == b + n
    ensures Sbrk(v, s, b, n).ret != b ==> Sbrk(v, s, b, n) == SbrkOutcome(v, b, -1)
  {
    SpanStartsAfterCounted(b, b + n);
    AllocNSucceedsIff(v.used, SpanPages(b, b + n));
  }

  /** A growth ending at `b'` maps the heap up to the page that contains `b'`: one page
      more than fork and exit count when `b'` is a boundary. */
  lemma GrowthMaps(v: Vm, live: set<nat>, brk: Breaks, s: nat, n: int32)
    requires VmInv(v, live, brk) && s in live && s < NR_TASKS && Exact(v, live, brk)
    requires n > 0 && L_HEAP_START <= brk[s] < 0x8000_0000 && Sbrk(v, s, brk[s], n).ret == brk[s]
    ensures var o := Sbrk(v, s, brk[s], n);
            ExactTable(o.vm.pt[s], NumPages(o.brk) + if PageAligned(o.brk) then 1 else 0)
    ensures NumPages(brk[s] + n) <= 376 && NoLeak(Sbrk(v, s, brk[s], n).vm)
  {
    var b, b' := brk[s], brk[s] + n;
    SpanStartsAfterCounted(b, b');
    var fr := AllocN(v.used, SpanPages(b, b'));
    AllocNFresh(v.used, SpanPages(b, b'));
    GrowBounds(v, live, brk, s, fr);
    assert ExactTable(v.pt[s], CountedPages(live, brk, s));
    GrowthKeepsNoLeak(v, s, SpanFirst(b), fr);
  }

  lemma GrowthKeepsNoLeak(v: Vm, s: nat, first: nat, fr: seq<nat>)
    requires s < NR_TASKS && NoLeak(v) && PAG_LOG_INIT_DATA <= first && first + |fr| <= TOTAL_PAGES
    requires ExactTable(v.pt[s], first - PAG_LOG_INIT_DATA)
    ensures NoLeak(Grown(v, s, first, fr))
  {
    var v' := Grown(v, s, first, fr);
    forall f | PoolFrame(f) && v'.used[f] ensures Held(v', f) {
      if v.used[f] {
        assert Held(v, f);
        var t, p :| HeldBy(v, t, p, f);
        assert HeldBy(v', t, p, f);
      } else {
        var i :| 0 <= i < |fr| && fr[i] == f;
        assert HeldBy(v', s, first + i, f);
      }
    }
  }

  lemma GrowthKeepsExactIff(v: Vm, live: set<nat>, brk: Breaks, s: nat, n: int32)
    requires VmInv(v, live, brk) && s in live && Exact(v, live, brk) && n > 0
    requires s < NR_TASKS && L_HEAP_START <= brk[s] < 0x8000_0000 && Sbrk(v, s, brk[s], n).ret == brk[s]
    ensures var o := Sbrk(v, s, brk[s], n);
            Exact(o.vm, live, brk[s := o.brk]) <==> !PageAligned(o.brk)
  {
    var o := Sbrk(v, s, brk[s], n);
    var brk' := brk[s := o.brk];
    GrowthMaps(v, live, brk, s, n);
    forall t | 0 <= t < NR_TASKS && t != s ensures ExactTable(o.vm.pt[t], CountedPages(live, brk', t)) {
      assert ExactTable(v.pt[t], CountedPages(live, brk, t));
    }
    if PageAligned(o.brk) {
      var extra := PAG_LOG_INIT_DATA + NumPages(o.brk);
      HeapPagesMonotone(L_HEAP_START, o.brk);
      assert o.vm.pt[s][extra].present;
      assert !ExactTable(o.vm.pt[s], CountedPages(live, brk', s));
    }
  }

  lemma ShrinkKeepsExact(v: Vm, live: set<nat>, brk: Breaks, s: nat, dest: nat)
    requires VmInv(v, live, brk) && s in live && Exact(v, live, brk)
    requires s < NR_TASKS && L_HEAP_START <= dest <= brk[s]
    ensures Exact(Released(v, s, SpanFirst(dest), SpanPages(dest, brk[s])), live, brk[s := dest])
  {
    SpanStartsAfterCounted(dest, brk[s]);
    HeapPagesMonotone(dest, brk[s]);
    HeapPagesMonotone(L_HEAP_START, dest);
    HeapPagesIsCeiling(brk[s]);
    ReleaseKeepsExact(v, live, brk, s, SpanFirst(dest), SpanPages(dest, brk[s]), live, brk[s := dest]);
  }

  /** sbrk keeps the accounting exact, unless it is a growth that ends on a boundary;
      such a growth always breaks it. */
  lemma SbrkKeepsExactIff(v: Vm, live: set<nat>, brk: Breaks, s: nat, n: int32)
    requires VmInv(v, live, brk) && s in live && Exact(v, live, brk)
    requires s < NR_TASKS && L_HEAP_START <= brk[s] < 0x8000_0000 && !Wraps(brk[s], n)
    ensures var o := Sbrk(v, s, brk[s], n);
            Exact(o.vm, live, brk[s := o.brk]) <==> !EndsOnBoundary(v, brk[s], n)
  {
    hide VmInv, Exact;
    assert brk[s := brk[s]] == brk;
    if n > 0 {
      GrowthSucceedsIff(v, s, brk[s], n);
      if Sbrk(v, s, brk[s], n).ret == brk[s] {
        GrowthKeepsExactIff(v, live, brk, s, n);
      }
    } else if n < 0 && brk[s] != L_HEAP_START {
      ShrinkKeepsExact(v, live, brk, s, ShrinkTarget(brk[s], n));
    }
  }

  /** An instance: growing an empty heap by one page leaves 22 data and heap pages
      mapped, and fork and exit count 21. */
  lemma BoundaryGrowthMapsOneMore(v: Vm, live: set<nat>, brk: Breaks, s: nat)
    requires VmInv(v, live, brk) && s in live && s < NR_TASKS && Exact(v, live, brk)
    requires brk[s] == L_HEAP_START && |FreeSet(v.used)| >= 2
    ensures var o := Sbrk(v, s, L_HEAP_START, 0x1000);
            o.ret == L_HEAP_START && NumPages(o.brk) == 21 && ExactTable(o.vm.pt[s], 22)
  {
    GrowthSucceedsIff(v, s, L_HEAP_START, 0x1000);
    GrowthMaps(v, live, brk, s, 0x1000);
  }

  // ---------------------------------------------------------------------------
  // Counting the used frames
  // ---------------------------------------------------------------------------

  ghost function UsedFrames(v: Vm): set<nat> {
    set f: nat | 0 <= f < 1024 && v.used[f]
  }

  ghost predicate HeldUnder(v: Vm, k: nat, f: int) {
    exists s, p :: s < k && HeldBy(v, s, p, f)
  }

  ghost predicate HeldIn(v: Vm, s: nat, f: int) {
    exists p :: HeldBy(v, s, p, f)
  }

  /** The frames behind the counted pages of the slots below `k`. */
  ghost function HeldBelow(v: Vm, k: nat): (fs: set<nat>)
    requires k <= NR_TASKS
  {
    set f: nat | 0 <= f < 1024 && HeldUnder(v, k, f)
  }

  ghost function HeldBySlot(v: Vm, s: nat): set<nat>
    requires s < NR_TASKS
  {
    set f: nat | 0 <= f < 1024 && HeldIn(v, s, f)
  }

  /** Pages that fork and exit count, over the slots below `k`. */
  ghost function TotalPages(live: set<nat>, brk: Breaks, k: nat): int
    requires k <= NR_TASKS
  {
    if k == 0 then 0 else TotalPages(live, brk, k - 1) + CountedPages(live, brk, k - 1)
  }

  /** One task fewer: its pages leave the sum. */
  lemma {:induction false} TotalPagesWithout(live: set<nat>, brk: Breaks, s: nat, k: nat)
    requires k <= NR_TASKS && s in live && s < NR_TASKS
    ensures TotalPages(live - {s}, brk, k) == TotalPages(live, brk, k) - if s < k then NumPages(brk[s]) else 0
  {
    if k > 0 {
      TotalPagesWithout(live, brk, s, k - 1);
    }
  }

  lemma SlotSize(v: Vm, live: set<nat>, brk: Breaks, s: nat)
    requires VmInv(v, live, brk) && Exact(v, live, brk) && s < NR_TASKS
    ensures |HeldBySlot(v, s)| == CountedPages(live, brk, s)
  {
    var n := CountedPages(live, brk, s);
    assert s in live ==> CoveredTask(v.pt[s], brk[s]);
    if s in live {
      HeapPagesMonotone(L_HEAP_START, brk[s]);
    }
    assert ExactTable(v.pt[s], n);
    var fr := Behind(v.pt[s], PAG_LOG_INIT_DATA, n);
    forall i | 0 <= i < n ensures fr[i] in HeldBySlot(v, s) {
      assert HeldBy(v, s, PAG_LOG_INIT_DATA + i, fr[i]);
    }
    forall i, j | 0 <= i < j < n ensures fr[i] != fr[j] {
      assert UserPage(s, PAG_LOG_INIT_DATA + i) && UserPage(s, PAG_LOG_INIT_DATA + j);
    }
    forall f | f in HeldBySlot(v, s) ensures f in fr {
      var p :| HeldBy(v, s, p, f);
      assert fr[p - PAG_LOG_INIT_DATA] == f;
    }
    DistinctSize(fr, HeldBySlot(v, s));
  }

  lemma HeldBelowNext(v: Vm, k: nat)
    requires Exclusive(v) && 0 < k <= NR_TASKS
    ensures HeldBelow(v, k) == HeldBelow(v, k - 1) + HeldBySlot(v, k - 1)
    ensures HeldBelow(v, k - 1) !! HeldBySlot(v, k - 1)
  {
    forall f | f in HeldBelow(v, k) ensures f in HeldBelow(v, k - 1) + HeldBySlot(v, k - 1) {
      var s, p :| s < k && HeldBy(v, s, p, f);
      assert s == k - 1 ==> HeldIn(v, k - 1, f);
      assert s < k - 1 ==> HeldUnder(v, k - 1, f);
    }
    forall f | f in HeldBySlot(v, k - 1) ensures f in HeldBelow(v, k) && f !in HeldBelow(v, k - 1) {
      var p :| HeldBy(v, k - 1, p, f);
    }
    forall f | f in HeldBelow(v, k - 1) ensures f in HeldBelow(v, k) {
      var s, p :| s < k - 1 && HeldBy(v, s, p, f);
      assert s < k;
    }
  }

  lemma {:induction false} HeldSize(v: Vm, live: set<nat>, brk: Breaks, k: nat)
    requires VmInv(v, live, brk) && Exact(v, live, brk) && k <= NR_TASKS
    ensures |HeldBelow(v, k)| == TotalPages(live, brk, k)
  {
    if k == 0 {
      assert HeldBelow(v, 0) == {};
    } else {
      HeldSize(v, live, brk, k - 1);
      SlotSize(v, live, brk, k - 1);
      HeldBelowNext(v, k);
    }
  }

  ghost function FixedBelow(k: nat): set<nat> {
    set f: nat | 0 <= f < k && FixedFrame(f)
  }

  lemma {:induction false} FixedSize(k: nat)
    requires k <= 272
    ensures |FixedBelow(k)| == if k <= 256 then k else 256 + (k - 255) / 2
  {
    if k == 0 {
      assert FixedBelow(0) == {};
    } else {
      FixedSize(k - 1);
      assert FixedBelow(k) == if FixedFrame(k - 1) then FixedBelow(k - 1) + {k - 1} else FixedBelow(k - 1);
    }
  }

  /** Conservation: the used frames number the kernel's 256, the 8 of the code, and for
      each live task 20 plus its heap size in pages, rounded up. */
  lemma UsedFramesAreAccounted(v: Vm, live: set<nat>, brk: Breaks)
    requires VmInv(v, live, brk) && Exact(v, live, brk)
    ensures |UsedFrames(v)| == 256 + 8 + TotalPages(live, brk, NR_TASKS)
  {
    HeldSize(v, live, brk, NR_TASKS);
    FixedSize(272);
    var fixed := FixedBelow(272);
    var held := HeldBelow(v, NR_TASKS);
    forall f | f in UsedFrames(v) ensures f in fixed + held {
      if PoolFrame(f) {
        assert Held(v, f);
      }
    }
    assert UsedFrames(v) == fixed + held;
    assert fixed !! held;
  }
}
