/** What exit and sbrk do to an address space (zeOS/sys.c:158-175, 270-318), and what a
    task's own writes do. */
module HeapSpace {
  import opened Layout
  import opened Frames
  import opened Paging
  import opened AddressSpace

  // ---------------------------------------------------------------------------
  // Releasing pages: exit, and sbrk with a negative increment
  // ---------------------------------------------------------------------------

  /** Some page from `first` on, `n` pages in all, names frame `f`. */
  ghost predicate Names(t: Table, first: int, n: int, f: int) {
    exists p :: 0 <= first <= p < first + n && p < 1024 && t[p].frame == f
  }

  /** The byte map after free_frame(get_frame(page)) for each page of a range. */
  ghost function FreedBehind(used: FrameMap, t: Table, first: int, n: int): FrameMap {
    seq(1024, f requires 0 <= f < 1024 => used[f] && !(f > NUM_PAG_KERNEL && Names(t, first, n, f)))
  }

  ghost function Released(v: Vm, s: nat, first: int, n: int): Vm
    requires s < NR_TASKS
  {
    Vm(FreedBehind(v.used, v.pt[s], first, n), v.pt[s := Cleared(v.pt[s], first, n)], v.ram)
  }

  /** The strict bound in free_frame loses nothing: every frame that exit or sbrk passes
      to it is above 256, or is the 0 of a page that was not mapped. */
  lemma ReleasedFramesAreFreed(v: Vm, live: set<nat>, brk: Breaks, s: nat, p: nat)
    requires VmInv(v, live, brk) && UserPage(s, p)
    ensures var f := v.pt[s][p].frame;
            if v.pt[s][p].present then NUM_PAG_KERNEL < f < TOTAL_PAGES && v.used[f] && !Freed(v.used, f)[f]
            else f == 0 && Freed(v.used, f) == v.used
  {
  }

  /** No frame that a mapped page keeps is among those released. */
  lemma KeptFrameNotReleased(v: Vm, s: nat, first: nat, n: nat, s': nat, p': nat)
    requires WellMapped(v) && Exclusive(v) && s < NR_TASKS && PAG_LOG_INIT_DATA <= first
    requires UserPage(s', p') && v.pt[s'][p'].present && !(s' == s && first <= p' < first + n)
    ensures !Names(v.pt[s], first, n, v.pt[s'][p'].frame)
  {
    forall p | first <= p < first + n && p < 1024 ensures v.pt[s][p].frame != v.pt[s'][p'].frame {
      assert UserPage(s, p);
    }
  }

  lemma FixedFrameNotReleased(v: Vm, s: nat, first: nat, n: nat, f: nat)
    requires WellMapped(v) && s < NR_TASKS && PAG_LOG_INIT_DATA <= first && FixedFrame(f) && f > NUM_PAG_KERNEL
    ensures !Names(v.pt[s], first, n, f)
  {
    assert forall p :: UserPage(s, p) ==> v.pt[s][p].frame == 0 || PoolFrame(v.pt[s][p].frame);
  }

  lemma ReleaseKeepsMapping(v: Vm, s: nat, first: nat, n: nat)
    requires WellMapped(v) && Exclusive(v) && FixedFrames(v) && KernelPages(v)
    requires s < NR_TASKS && PAG_LOG_INIT_DATA <= first
    ensures var v' := Released(v, s, first, n);
            WellMapped(v') && Exclusive(v') && FixedFrames(v') && KernelPages(v')
  {
    var v' := Released(v, s, first, n);
    forall s', p' | UserPage(s', p') && v'.pt[s'][p'].present
      ensures !Names(v.pt[s], first, n, v.pt[s'][p'].frame)
    {
      KeptFrameNotReleased(v, s, first, n, s', p');
    }
    forall f | FixedFrame(f) && f > NUM_PAG_KERNEL ensures !Names(v.pt[s], first, n, f) {
      FixedFrameNotReleased(v, s, first, n, f);
    }
    hide Names;
    assert WellMapped(v') && KernelPages(v');
    assert Exclusive(v') && FixedFrames(v');
  }

  /** exit frees and unmaps exactly the pages that fork counts; the others are untouched. */
  lemma ExitKeepsVmInv(v: Vm, live: set<nat>, brk: Breaks, s: nat)
    requires VmInv(v, live, brk) && s in live
    ensures s < NR_TASKS
    ensures VmInv(Released(v, s, PAG_LOG_INIT_DATA, NumPages(brk[s])), live - {s}, brk)
  {
    assert CoveredTask(v.pt[s], brk[s]);
    HeapPagesMonotone(L_HEAP_START, brk[s]);
    ReleaseKeepsMapping(v, s, PAG_LOG_INIT_DATA, NumPages(brk[s]));
  }

  // ---------------------------------------------------------------------------
  // sbrk
  // ---------------------------------------------------------------------------

  /** First page sbrk touches when the lower of the two breaks is `lo`. */
  function SpanFirst(lo: int): int {
    HEAP_FIRST_PAGE + PagHeap(lo) + if PageAligned(lo) then 0 else 1
  }

  /** Number of pages sbrk maps or unmaps between two breaks. */
  function SpanPages(lo: int, hi: int): int {
    PagHeap(hi) - PagHeap(lo) + if PageAligned(lo) then 1 else 0
  }

  lemma SpanStartsAfterCounted(lo: int, hi: int)
    ensures SpanFirst(lo) == PAG_LOG_INIT_DATA + NumPages(lo)
    ensures SpanFirst(lo) + SpanPages(lo, hi) == HEAP_FIRST_PAGE + PagHeap(hi) + 1
    ensures lo <= hi ==> SpanPages(lo, hi) >= 0
  {
    if lo <= hi {
      HeapPagesMonotone(lo, hi);
    }
  }

  /** A table with frames `fr` installed from page `first` on. */
  function Installed(t: Table, first: int, fr: seq<nat>): Table {
    seq(1024, p requires 0 <= p < 1024 => if first <= p < first + |fr| then Entry(true, fr[p - first]) else t[p])
  }

  function Grown(v: Vm, s: nat, first: int, fr: seq<nat>): Vm
    requires s < NR_TASKS
  {
    Vm(Mark(v.used, fr), v.pt[s := Installed(v.pt[s], first, fr)], v.ram)
  }

  datatype SbrkOutcome = SbrkOutcome(vm: Vm, brk: nat, ret: int)

  /** The break a negative increment leads to, in the unsigned arithmetic of the code. */
  function ShrinkTarget(brk: nat, n: int): nat {
    if U32(brk + n) < L_HEAP_START then L_HEAP_START else U32(brk + n)
  }

  /** sys_sbrk by the task in slot `s` */
  ghost function Sbrk(v: Vm, s: nat, brk: nat, n: int32): SbrkOutcome
    requires s < NR_TASKS && L_HEAP_START <= brk < 0x8000_0000
  {
    if brk == L_HEAP_START && n < 0 then SbrkOutcome(v, brk, -1)
    else if n > 0 then
      SpanStartsAfterCounted(brk, brk + n);
      var pags: nat := SpanPages(brk, U32(brk + n));
      var fr := AllocN(v.used, pags);
      if |fr| < pags then SbrkOutcome(v, brk, -1)
      else SbrkOutcome(Grown(v, s, SpanFirst(brk), fr), brk + n, brk)
    else if n < 0 then
      var dest := ShrinkTarget(brk, n);
      SbrkOutcome(Released(v, s, SpanFirst(dest), SpanPages(dest, brk)), dest, brk)
    else SbrkOutcome(v, brk, brk)
  }

  /** The counted pages of a live task keep its break far below the wrap of a growth. */
  lemma BreakBound(v: Vm, live: set<nat>, brk: Breaks, s: nat)
    requires VmInv(v, live, brk) && s in live
    ensures s < NR_TASKS && L_HEAP_START <= brk[s] <= 0x280000
  {
    assert CoveredTask(v.pt[s], brk[s]);
    HeapPagesMonotone(L_HEAP_START, brk[s]);
    TableBound(v, s, NumPages(brk[s]), []);
    HeapPagesIsCeiling(brk[s]);
  }

  lemma GrowBounds(v: Vm, live: set<nat>, brk: Breaks, s: nat, fr: seq<nat>)
    requires VmInv(v, live, brk) && s in live && FreshFrames(v.used, fr)
    ensures s < NR_TASKS && PAG_LOG_INIT_DATA <= SpanFirst(brk[s]) && SpanFirst(brk[s]) + |fr| <= 640
    ensures forall i :: 0 <= i < |fr| ==> PoolFrame(fr[i])
  {
    assert CoveredTask(v.pt[s], brk[s]);
    HeapPagesMonotone(L_HEAP_START, brk[s]);
    TableBound(v, s, NumPages(brk[s]), fr);
    SpanStartsAfterCounted(brk[s], brk[s]);
  }

  lemma GrowKeepsMapping(v: Vm, s: nat, first: nat, fr: seq<nat>)
    requires WellMapped(v) && Exclusive(v) && FixedFrames(v) && KernelPages(v)
    requires s < NR_TASKS && PAG_LOG_INIT_DATA <= first
    requires FreshFrames(v.used, fr) && forall i :: 0 <= i < |fr| ==> PoolFrame(fr[i])
    ensures var v' := Grown(v, s, first, fr);
            WellMapped(v') && Exclusive(v') && FixedFrames(v') && KernelPages(v')
  {
    var v' := Grown(v, s, first, fr);
    assert WellMapped(v') && FixedFrames(v') && KernelPages(v');
    assert Exclusive(v');
  }

  /** The grown table maps all pages that are counted for the new break. */
  lemma GrowCovers(t: Table, b: nat, b': nat, fr: seq<nat>)
    requires CoveredTask(t, b) && b <= b' && |fr| == SpanPages(b, b') && SpanFirst(b) + |fr| <= 640
    ensures CoveredTask(Installed(t, SpanFirst(b), fr), b')
  {
    SpanStartsAfterCounted(b, b');
    HeapPagesMonotone(b, b');
  }

  lemma GrownKeepsVmInv(v: Vm, live: set<nat>, brk: Breaks, s: nat, b': nat, fr: seq<nat>)
    requires VmInv(v, live, brk) && s in live && s < NR_TASKS && brk[s] <= b'
    requires FreshFrames(v.used, fr) && |fr| == SpanPages(brk[s], b')
    ensures VmInv(Grown(v, s, SpanFirst(brk[s]), fr), live, brk[s := b'])
  {
    GrowBounds(v, live, brk, s, fr);
    GrowKeepsMapping(v, s, SpanFirst(brk[s]), fr);
    assert CoveredTask(v.pt[s], brk[s]);
    GrowCovers(v.pt[s], brk[s], b', fr);
    hide WellMapped, Exclusive, FixedFrames, KernelPages, CoveredTask;
  }

  lemma GrowKeepsVmInv(v: Vm, live: set<nat>, brk: Breaks, s: nat, n: int32)
    requires VmInv(v, live, brk) && s in live && n > 0
    ensures s < NR_TASKS && L_HEAP_START <= brk[s] < 0x8000_0000
    ensures var o := Sbrk(v, s, brk[s], n); VmInv(o.vm, live, brk[s := o.brk])
  {
    hide VmInv, FreshFrames, SpanFirst, SpanPages, NumPages, Grown;
    BreakBound(v, live, brk, s);
    var b, b' := brk[s], brk[s] + n;
    SpanStartsAfterCounted(b, b');
    var fr := AllocN(v.used, SpanPages(b, b'));
    AllocNFresh(v.used, SpanPages(b, b'));
    if |fr| == SpanPages(b, b') {
      GrownKeepsVmInv(v, live, brk, s, b', fr);
    } else {
      assert brk[s := b] == brk;
    }
  }

  lemma ShrinkKeepsVmInv(v: Vm, live: set<nat>, brk: Breaks, s: nat, dest: nat)
    requires VmInv(v, live, brk) && s in live && s < NR_TASKS && L_HEAP_START <= dest <= brk[s]
    ensures VmInv(Released(v, s, SpanFirst(dest), SpanPages(dest, brk[s])), live, brk[s := dest])
  {
    assert CoveredTask(v.pt[s], brk[s]);
    SpanStartsAfterCounted(dest, brk[s]);
    HeapPagesMonotone(dest, brk[s]);
    HeapPagesMonotone(L_HEAP_START, dest);
    ReleaseKeepsMapping(v, s, SpanFirst(dest), SpanPages(dest, brk[s]));
  }

  /** An increment below minus the break wraps around zero in 32 bits. */
  predicate Wraps(brk: nat, n: int32) {
    n < 0 && brk != L_HEAP_START && brk + n < 0
  }

  /** sbrk keeps the memory invariant exactly when brk+n does not wrap below zero. */
  lemma SbrkKeepsVmInvIff(v: Vm, live: set<nat>, brk: Breaks, s: nat, n: int32)
    requires VmInv(v, live, brk) && s in live
    ensures s < NR_TASKS && L_HEAP_START <= brk[s] < 0x8000_0000
    ensures var o := Sbrk(v, s, brk[s], n); VmInv(o.vm, live, brk[s := o.brk]) <==> !Wraps(brk[s], n)
  {
    BreakBound(v, live, brk, s);
    var o := Sbrk(v, s, brk[s], n);
    if n > 0 {
      GrowKeepsVmInv(v, live, brk, s, n);
    } else if n == 0 || brk[s] == L_HEAP_START {
      assert brk[s := brk[s]] == brk;
    } else if !Wraps(brk[s], n) {
      ShrinkKeepsVmInv(v, live, brk, s, o.brk);
    } else {
      assert o.brk >= 0x8000_0000;
      HeapPagesIsCeiling(o.brk);
      assert brk[s := o.brk][s] == o.brk;
      assert !CoveredTask(o.vm.pt[s], o.brk);
    }
  }

  /** An address of the heap that the program may use. */
  predicate InHeap(brk: nat, addr: nat) {
    L_HEAP_START <= addr < brk
  }

  /** Every byte of [L_HEAP_START, brk) is on a mapped page. */
  lemma HeapCovered(v: Vm, live: set<nat>, brk: Breaks, s: nat, addr: nat)
    requires VmInv(v, live, brk) && s in live && s < NR_TASKS && InHeap(brk[s], addr)
    ensures OnPage(v.pt[s], addr, 1)
  {
    assert CoveredTask(v.pt[s], brk[s]);
    HeapPagesIsCeiling(brk[s]);
    assert UserPage(s, addr / 0x1000);
  }

  /** A heap that grows or shrinks keeps the bytes below both breaks, and no other
      task's reads change. */
  lemma SbrkKeepsContents(v: Vm, live: set<nat>, brk: Breaks, s: nat, n: int32, addr: nat)
    requires VmInv(v, live, brk) && s in live
    ensures s < NR_TASKS && L_HEAP_START <= brk[s] < 0x8000_0000
    ensures var o := Sbrk(v, s, brk[s], n);
            addr < brk[s] && addr < o.brk && OnPage(v.pt[s], addr, 1) ==>
              OnPage(o.vm.pt[s], addr, 1) && Read(o.vm, s, addr) == Read(v, s, addr)
    ensures var o := Sbrk(v, s, brk[s], n);
            forall t: nat :: t < NR_TASKS && t != s && OnPage(v.pt[t], addr, 1) ==>
              OnPage(o.vm.pt[t], addr, 1) && Read(o.vm, t, addr) == Read(v, t, addr)
  {
    BreakBound(v, live, brk, s);
    var o := Sbrk(v, s, brk[s], n);
    var lo := if o.brk < brk[s] then o.brk else brk[s];
    SpanStartsAfterCounted(lo, brk[s]);
    HeapPagesIsCeiling(lo);
  }

  // ---------------------------------------------------------------------------
  // Writes by the tasks themselves
  // ---------------------------------------------------------------------------

  /** A task stores a byte through its own table. */
  function Written(v: Vm, s: nat, addr: nat, b: Byte): Vm
    requires s < NR_TASKS && OnPage(v.pt[s], addr, 1)
  {
    var f := FrameOf(v.pt[s], addr);
    v.(ram := v.ram[f := Spliced(v.ram[f], addr % 0x1000, [b])])
  }

  /** Isolation: a write to a data, stack or heap page is seen by the writer, at that
      address only, and by no other live task. */
  lemma WriteIsPrivate(v: Vm, live: set<nat>, brk: Breaks, s: nat, addr: nat, b: Byte, t: nat, at: nat)
    requires VmInv(v, live, brk) && s in live && t in live
    requires s < NR_TASKS && t < NR_TASKS
    requires OnPage(v.pt[s], addr, 1) && PAG_LOG_INIT_DATA <= addr / 0x1000
    requires OnPage(v.pt[t], at, 1)
    ensures Read(Written(v, s, addr, b), t, at) == if s == t && addr == at then b else Read(v, t, at)
  {
    var p, q := addr / 0x1000, at / 0x1000;
    assert UserPage(s, p) && addr == p * 0x1000 + addr % 0x1000 && at == q * 0x1000 + at % 0x1000;
    if q < NUM_PAG_KERNEL {
      assert v.pt[t][q] == KernelTable()[q];
    } else if q < PAG_LOG_INIT_DATA {
      assert v.pt[t][q].frame == CodeFrame(q);
    } else {
      assert UserPage(t, q);
    }
  }
}
