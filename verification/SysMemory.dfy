/** The memory side of boot, fork, exit and sbrk, on the kernel's arrays
    (zeOS/mm.c:77-103, zeOS/sys.c:77-130, 160-169, 274-318). */
module SysMemory {
  import opened Layout
  import opened Frames
  import opened Paging
  import opened AddressSpace
  import opened HeapSpace

  /** `phys_mem`, `pagusr_table` and physical memory. */
  ghost predicate Sized(physMem: array<bool>, pt: array<Table>, ram: array<Page>) {
    physMem.Length == TOTAL_PAGES && pt.Length == NR_TASKS && ram.Length == TOTAL_PAGES
  }

  ghost function VmOf(physMem: array<bool>, pt: array<Table>, ram: array<Page>): Vm
    requires Sized(physMem, pt, ram)
    reads physMem, pt, ram
  {
    Vm(physMem[..], pt[..], ram[..])
  }

  /** The child's table while fork fills it: pages below `k` are done. */
  predicate FilledBelow(t: Table, own: Table, parent: Table, fr: seq<nat>, k: int)
    requires PAG_LOG_INIT_DATA + |fr| <= TOTAL_PAGES
  {
    forall p :: 0 <= p < TOTAL_PAGES ==> t[p] == if p < k then ChildTable(own, parent, fr)[p] else own[p]
  }

  /** fork, steps e-i-A and e-i-B: the child's table. */
  method FillChildTable(pt: array<Table>, parent: nat, child: nat, frames: array<int>, ghost fr: seq<nat>)
    requires pt.Length == NR_TASKS && parent < NR_TASKS && child < NR_TASKS && parent != child
    requires frames[..] == fr && PAG_LOG_INIT_DATA + |fr| <= TOTAL_PAGES
    modifies pt
    ensures pt[..] == old(pt[..])[child := ChildTable(old(pt[child]), old(pt[parent]), fr)]
  {
    ghost var was := pt[..];
    for i := 1 to NUM_PAG_KERNEL
      invariant forall s :: 0 <= s < NR_TASKS && s != child ==> pt[s] == was[s]
      invariant forall p :: 0 <= p < TOTAL_PAGES ==> pt[child][p] == if 2 <= p < 1 + i then was[parent][p] else was[child][p]
    {
      pt[child] := pt[child][1 + i := pt[parent][1 + i]];
    }
    for i := 0 to NUM_PAG_CODE
      invariant forall s :: 0 <= s < NR_TASKS && s != child ==> pt[s] == was[s]
      invariant forall p :: 0 <= p < TOTAL_PAGES && p != NUM_PAG_KERNEL ==>
        pt[child][p] == if p < PAG_LOG_INIT_CODE + i then ChildTable(was[child], was[parent], fr)[p] else was[child][p]
      invariant i > 0 ==> pt[child][NUM_PAG_KERNEL] == Entry(true, was[parent][NUM_PAG_KERNEL].frame)
    {
      var f := GetFrame(pt, parent, i + PAG_LOG_INIT_CODE);
      SetSsPag(pt, child, i + PAG_LOG_INIT_CODE, f);
    }
    for i := 0 to frames.Length
      invariant forall s :: 0 <= s < NR_TASKS && s != child ==> pt[s] == was[s]
      invariant FilledBelow(pt[child], was[child], was[parent], fr, PAG_LOG_INIT_DATA + i)
    {
      assert frames[i] == fr[i];
      SetSsPag(pt, child, i + PAG_LOG_INIT_DATA, frames[i]);
    }
    assert pt[child] == ChildTable(was[child], was[parent], fr);
  }

  /** One turn of the copying loop: map the new frame past the parent's pages, copy a
      page through the parent's table, unmap. */
  method CopyPageOver(pt: array<Table>, ram: array<Page>, parent: nat, i: nat, n: nat, frame: nat)
    requires pt.Length == NR_TASKS && ram.Length == TOTAL_PAGES && parent < NR_TASKS
    requires i < n && PAG_LOG_INIT_DATA + n + i < TOTAL_PAGES && frame < TOTAL_PAGES
    requires pt[parent][PAG_LOG_INIT_DATA + i].present
    requires pt[parent][PAG_LOG_INIT_DATA + i].frame < TOTAL_PAGES && pt[parent][PAG_LOG_INIT_DATA + i].frame != frame
    modifies pt, ram
    ensures pt[..] == old(pt[..])[parent := old(pt[parent])[PAG_LOG_INIT_DATA + n + i := NO_ENTRY]]
    ensures ram[..] == old(ram[..])[frame := old(ram[pt[parent][PAG_LOG_INIT_DATA + i].frame])]
  {
    var page := i + PAG_LOG_INIT_DATA;
    SetSsPag(pt, parent, page + n, frame);
    var t := pt[parent];
    assert t == old(pt[parent])[page + n := Entry(true, frame)];
    assert OnPage(t, page * PAGE_SIZE, PAGE_SIZE) && OnPage(t, (page + n) * PAGE_SIZE, PAGE_SIZE);
    CopiedPage(t, ram[..], page * PAGE_SIZE, (page + n) * PAGE_SIZE);
    CopyData(t, ram, page * PAGE_SIZE, (page + n) * PAGE_SIZE, PAGE_SIZE);
    DelSsPag(pt, parent, page + n);
    assert pt[..] == old(pt[..])[parent := pt[parent]];
    assert pt[parent] == old(pt[parent])[page + n := NO_ENTRY];
  }

  /** fork, step e-ii: the parent's counted pages are copied to the new frames. */
  method CopyPages(pt: array<Table>, ram: array<Page>, parent: nat, frames: array<int>, ghost fr: seq<nat>)
    requires pt.Length == NR_TASKS && ram.Length == TOTAL_PAGES && parent < NR_TASKS
    requires frames[..] == fr && PAG_LOG_INIT_DATA + 2 * |fr| <= TOTAL_PAGES && Distinct(fr) && InRam(fr)
    requires var src := Behind(pt[parent], PAG_LOG_INIT_DATA, |fr|);
             InRam(src) && forall i :: 0 <= i < |fr| ==> src[i] !in fr
    requires forall p :: PAG_LOG_INIT_DATA <= p < PAG_LOG_INIT_DATA + |fr| ==> pt[parent][p].present
    modifies pt, ram
    ensures pt[..] == old(pt[..])[parent := Cleared(old(pt[parent]), PAG_LOG_INIT_DATA + |fr|, |fr|)]
    ensures ram[..] == Duplicated(old(ram[..]), Behind(old(pt[parent]), PAG_LOG_INIT_DATA, |fr|), fr, |fr|)
  {
    ghost var was, mem, t := pt[..], ram[..], pt[parent];
    var n := frames.Length;
    ghost var src := Behind(t, PAG_LOG_INIT_DATA, n);
    assert Cleared(t, PAG_LOG_INIT_DATA + n, 0) == t;
    for i := 0 to n
      invariant pt[..] == was[parent := Cleared(t, PAG_LOG_INIT_DATA + n, i)]
      invariant ram[..] == Duplicated(mem, src, fr, i)
    {
      assert pt[parent] == pt[..][parent] == Cleared(t, PAG_LOG_INIT_DATA + n, i);
      DuplicatedElsewhere(mem, src, fr, i, src[i]);
      assert frames[i] == fr[i] && src[i] == pt[parent][PAG_LOG_INIT_DATA + i].frame;
      CopyPageOver(pt, ram, parent, i, n, frames[i]);
      assert Cleared(t, PAG_LOG_INIT_DATA + n, i)[PAG_LOG_INIT_DATA + n + i := NO_ENTRY] == Cleared(t, PAG_LOG_INIT_DATA + n, i + 1);
    }
  }

  lemma ForkIsReady(v: Vm, live: set<nat>, brks: Breaks, parent: nat, child: nat, n: nat)
    requires VmInv(v, live, brks) && parent in live && child !in live && parent < NR_TASKS && child < NR_TASKS
    requires n == NumPages(brks[parent]) && |AllocN(v.used, n)| == n
    ensures ForkReady(v, live, brks, parent, child, AllocN(v.used, n))
  {
    AllocNFresh(v.used, n);
    ForkBounds(v, live, brks, parent, child, AllocN(v.used, n));
  }

  /** fork, step e */
  method BuildChild(pt: array<Table>, ram: array<Page>, parent: nat, child: nat, frames: array<int>,
                    ghost v: Vm, ghost live: set<nat>, ghost brks: Breaks, ghost fr: seq<nat>)
    requires pt.Length == NR_TASKS && ram.Length == TOTAL_PAGES && pt[..] == v.pt && ram[..] == v.ram
    requires frames[..] == fr && ForkReady(v, live, brks, parent, child, fr)
    modifies pt, ram
    ensures pt[..] == ForkSpace(v, parent, child, fr).pt && ram[..] == ForkSpace(v, parent, child, fr).ram
  {
    forall i | 0 <= i < |fr| ensures Behind(v.pt[parent], PAG_LOG_INIT_DATA, |fr|)[i] !in fr {
      ForkBounds(v, live, brks, parent, child, fr);
      MappedIsNotFresh(v, live, brks, parent, PAG_LOG_INIT_DATA + i, fr);
    }
    assert CoveredTask(v.pt[parent], brks[parent]);
    assert pt[parent] == pt[..][parent] && pt[child] == pt[..][child];
    FillChildTable(pt, parent, child, frames, fr);
    assert pt[parent] == pt[..][parent];
    CopyPages(pt, ram, parent, frames, fr);
  }

  /** fork, steps d and e: new frames, the child's table, the copy. */
  method ForkMemory(physMem: array<bool>, pt: array<Table>, ram: array<Page>, parent: nat, child: nat, brk: nat,
                    ghost live: set<nat>, ghost brks: Breaks) returns (ok: bool)
    requires Sized(physMem, pt, ram) && VmInv(VmOf(physMem, pt, ram), live, brks)
    requires parent in live && child !in live && parent < NR_TASKS && child < NR_TASKS && brks[parent] == brk
    modifies physMem, pt, ram
    ensures NumPages(brk) >= 0
    ensures ok <==> |AllocN(old(physMem[..]), NumPages(brk))| == NumPages(brk)
    ensures ok ==> var v, fr := old(VmOf(physMem, pt, ram)), AllocN(old(physMem[..]), NumPages(brk));
                   && ForkReady(v, live, brks, parent, child, fr)
                   && VmOf(physMem, pt, ram) == ForkSpace(v, parent, child, fr)
    ensures !ok ==> VmOf(physMem, pt, ram) == old(VmOf(physMem, pt, ram))
  {
    ghost var v := VmOf(physMem, pt, ram);
    assert CoveredTask(v.pt[parent], brk) && FixedFrame(NUM_PAG_KERNEL);
    HeapPagesMonotone(L_HEAP_START, brk);
    assert physMem[NUM_PAG_KERNEL];
    hide VmInv, CoveredTask, FreshFrames;
    var heap := if brk % PAGE_SIZE != 0 then PagHeap(brk) + 1 else PagHeap(brk);
    var n := NUM_PAG_DATA + heap;
    var frames := new int[n];
    ok := AllocFrames(physMem, frames, n);
    if ok {
      ForkIsReady(v, live, brks, parent, child, n);
      BuildChild(pt, ram, parent, child, frames, v, live, brks, AllocN(v.used, n));
    }
  }

  /** The release loop of exit and of sbrk with a negative increment. */
  method ReleasePages(physMem: array<bool>, pt: array<Table>, d: nat, first: nat, pags: int)
    requires physMem.Length == TOTAL_PAGES && pt.Length == NR_TASKS && d < NR_TASKS
    requires first + pags <= TOTAL_PAGES
    modifies physMem, pt
    ensures physMem[..] == FreedBehind(old(physMem[..]), old(pt[d]), first, pags)
    ensures pt[..] == old(pt[..])[d := Cleared(old(pt[d]), first, pags)]
  {
    ghost var used, was, t := physMem[..], pt[..], pt[d];
    var i := 0;
    assert FreedBehind(used, t, first, 0) == used && Cleared(t, first, 0) == t;
    while i < pags
      invariant 0 <= i && (i <= pags || i == 0)
      invariant physMem[..] == FreedBehind(used, t, first, i)
      invariant pt[..] == was[d := Cleared(t, first, i)]
    {
      assert pt[d] == pt[..][d] == Cleared(t, first, i);
      var f := GetFrame(pt, d, first + i);
      FreeFrame(physMem, f);
      FreeNext(used, t, first, i);
      DelSsPag(pt, d, first + i);
      assert Cleared(t, first, i)[first + i := NO_ENTRY] == Cleared(t, first, i + 1);
      i := i + 1;
    }
    if pags < 0 {
      assert FreedBehind(used, t, first, pags) == used && Cleared(t, first, pags) == t;
    }
  }

  lemma FreeNext(used: FrameMap, t: Table, first: nat, i: nat)
    requires first + i < TOTAL_PAGES
    ensures Freed(FreedBehind(used, t, first, i), t[first + i].frame) == FreedBehind(used, t, first, i + 1)
  {
    var f := t[first + i].frame;
    forall g | 0 <= g < 1024 ensures Names(t, first, i + 1, g) <==> Names(t, first, i, g) || g == f {
      if g == f {
        assert first <= first + i < first + (i + 1);
      } else if Names(t, first, i + 1, g) {
        var p :| first <= p < first + (i + 1) && p < 1024 && t[p].frame == g;
        assert p != first + i;
      }
    }
  }

  /** exit, lines 160-169 */
  method ExitMemory(physMem: array<bool>, pt: array<Table>, ram: array<Page>, s: nat, brk: nat,
                    ghost live: set<nat>, ghost brks: Breaks)
    requires Sized(physMem, pt, ram) && VmInv(VmOf(physMem, pt, ram), live, brks)
    requires s in live && s < NR_TASKS && brks[s] == brk
    modifies physMem, pt
    ensures VmOf(physMem, pt, ram) == Released(old(VmOf(physMem, pt, ram)), s, PAG_LOG_INIT_DATA, NumPages(brk))
  {
    assert CoveredTask(VmOf(physMem, pt, ram).pt[s], brk);
    var heap := if brk % PAGE_SIZE != 0 then PagHeap(brk) + 1 else PagHeap(brk);
    ReleasePages(physMem, pt, s, PAG_LOG_INIT_DATA, NUM_PAG_DATA + heap);
  }

  /** The mapping loop of sbrk. */
  method InstallPages(pt: array<Table>, d: nat, first: nat, frames: array<int>, ghost fr: seq<nat>)
    requires pt.Length == NR_TASKS && d < NR_TASKS && frames[..] == fr && first + |fr| <= TOTAL_PAGES
    modifies pt
    ensures pt[..] == old(pt[..])[d := Installed(old(pt[d]), first, fr)]
  {
    ghost var was, t := pt[..], pt[d];
    assert Installed(t, first, fr[..0]) == t;
    for i := 0 to frames.Length
      invariant pt[..] == was[d := Installed(t, first, fr[..i])]
    {
      assert pt[d] == pt[..][d];
      assert frames[i] == fr[i];
      SetSsPag(pt, d, first + i, frames[i]);
      assert Installed(t, first, fr[..i])[first + i := Entry(true, fr[i])] == Installed(t, first, fr[..i + 1]);
    }
    assert fr[..|fr|] == fr;
  }

  /** Frames for `pags` pages from `first` on, or nothing at all. */
  method TakePages(physMem: array<bool>, pt: array<Table>, d: nat, first: nat, pags: nat) returns (ok: bool)
    requires physMem.Length == TOTAL_PAGES && pt.Length == NR_TASKS && d < NR_TASKS && physMem[NUM_PAG_KERNEL]
    requires |AllocN(physMem[..], pags)| == pags ==> first + pags <= TOTAL_PAGES
    modifies physMem, pt
    ensures ok <==> |AllocN(old(physMem[..]), pags)| == pags
    ensures ok ==> var fr := AllocN(old(physMem[..]), pags);
                   physMem[..] == Mark(old(physMem[..]), fr) && pt[..] == old(pt[..])[d := Installed(old(pt[d]), first, fr)]
    ensures !ok ==> physMem[..] == old(physMem[..]) && pt[..] == old(pt[..])
  {
    var frames := new int[pags];
    ok := AllocFrames(physMem, frames, pags);
    if ok {
      InstallPages(pt, d, first, frames, AllocN(old(physMem[..]), pags));
    }
  }

  lemma GrowIsReady(v: Vm, live: set<nat>, brks: Breaks, s: nat, n: nat)
    requires VmInv(v, live, brks) && s in live && |AllocN(v.used, n)| == n
    ensures PAG_LOG_INIT_DATA <= SpanFirst(brks[s]) && SpanFirst(brks[s]) + n <= 640
  {
    AllocNFresh(v.used, n);
    GrowBounds(v, live, brks, s, AllocN(v.used, n));
  }

  /** The two outcomes of a growth. */
  lemma SbrkGrows(v: Vm, s: nat, brk: nat, n: int32, pags: nat)
    requires s < NR_TASKS && n > 0 && L_HEAP_START <= brk < 0x8000_0000 && pags == SpanPages(brk, brk + n)
    ensures var fr := AllocN(v.used, pags);
            Sbrk(v, s, brk, n) == if |fr| == pags then SbrkOutcome(Grown(v, s, SpanFirst(brk), fr), brk + n, brk)
                                  else SbrkOutcome(v, brk, -1)
  {
  }

  /** sbrk with a positive increment */
  method GrowMemory(physMem: array<bool>, pt: array<Table>, ram: array<Page>, s: nat, brk: nat, n: int32,
                    ghost live: set<nat>, ghost brks: Breaks) returns (ok: bool)
    requires Sized(physMem, pt, ram) && VmInv(VmOf(physMem, pt, ram), live, brks)
    requires s in live && s < NR_TASKS && brks[s] == brk && n > 0 && L_HEAP_START <= brk < 0x8000_0000
    modifies physMem, pt
    ensures SbrkOutcome(VmOf(physMem, pt, ram), if ok then brk + n else brk, if ok then brk else -1)
            == Sbrk(old(VmOf(physMem, pt, ram)), s, brk, n)
  {
    ghost var v := VmOf(physMem, pt, ram);
    assert FixedFrame(NUM_PAG_KERNEL) && v.used[NUM_PAG_KERNEL];
    SpanStartsAfterCounted(brk, brk + n);
    var pags := PagHeap(U32(brk + n)) - PagHeap(brk);
    var iniPag := PageAligned(brk);
    if iniPag {
      pags := pags + 1;
    }
    var first := HEAP_FIRST_PAGE + PagHeap(brk) + if iniPag then 0 else 1;
    assert pags == SpanPages(brk, brk + n) && first == SpanFirst(brk);
    SbrkGrows(v, s, brk, n, pags);
    if |AllocN(v.used, pags)| == pags {
      GrowIsReady(v, live, brks, s, pags);
    }
    hide VmInv, PagHeap, FixedFrame, Sbrk, SpanPages, SpanFirst, PageAligned, AllocN;
    ok := TakePages(physMem, pt, s, first, pags);
  }

  /** sbrk with a negative increment */
  method ShrinkMemory(physMem: array<bool>, pt: array<Table>, ram: array<Page>, s: nat, brk: nat, n: int32)
    returns (dest: nat)
    requires Sized(physMem, pt, ram)
    requires s < NR_TASKS && n < 0 && L_HEAP_START < brk <= 0x280000
    modifies physMem, pt
    ensures SbrkOutcome(VmOf(physMem, pt, ram), dest, brk) == Sbrk(old(VmOf(physMem, pt, ram)), s, brk, n)
  {
    dest := if U32(brk + n) < L_HEAP_START then L_HEAP_START else U32(brk + n);
    var iniPag := PageAligned(dest);
    var pags := PagHeap(brk) - PagHeap(dest);
    if iniPag {
      pags := pags + 1;
    }
    SpanStartsAfterCounted(dest, brk);
    ReleasePages(physMem, pt, s, HEAP_FIRST_PAGE + PagHeap(dest) + if iniPag then 0 else 1, pags);
  }

  /** sys_sbrk; `brk` is the break field of the task in slot `s`. */
  method SbrkMemory(physMem: array<bool>, pt: array<Table>, ram: array<Page>, s: nat, brk: nat, n: int32,
                    ghost live: set<nat>, ghost brks: Breaks) returns (newBrk: nat, ret: int)
    requires Sized(physMem, pt, ram) && VmInv(VmOf(physMem, pt, ram), live, brks)
    requires s in live && s < NR_TASKS && brks[s] == brk
    modifies physMem, pt
    ensures L_HEAP_START <= brk < 0x8000_0000
    ensures SbrkOutcome(VmOf(physMem, pt, ram), newBrk, ret) == Sbrk(old(VmOf(physMem, pt, ram)), s, brk, n)
  {
    BreakBound(VmOf(physMem, pt, ram), live, brks, s);
    newBrk := brk;
    if brk == L_HEAP_START && n < 0 {
      return newBrk, -1;
    }
    if n > 0 {
      var ok := GrowMemory(physMem, pt, ram, s, brk, n, live, brks);
      if !ok {
        return newBrk, -1;
      }
      newBrk := brk + n;
    } else if n < 0 {
      newBrk := ShrinkMemory(physMem, pt, ram, s, brk, n);
    }
    ret := brk;
  }

  // ---------------------------------------------------------------------------
  // Boot
  // ---------------------------------------------------------------------------

  /** The map once boot has handed out `k` frames. */
  ghost predicate BootMap(used: seq<bool>, k: int) {
    |used| == 1024 && forall f :: 0 <= f < 1024 ==> used[f] == (f < NUM_PAG_KERNEL || (f < 256 + 2 * k && f % 2 == 0))
  }

  lemma NextBootFrame(used: FrameMap, k: nat)
    requires BootMap(used, k) && k < 384
    ensures FirstFree(used, NUM_PAG_KERNEL) == 256 + 2 * k
    ensures BootMap(used[256 + 2 * k := true], k + 1)
  {
    assert !used[256 + 2 * k];
    BootMapNext(used, k);
    hide FirstFree;
  }

  lemma BootMapNext(used: FrameMap, k: nat)
    requires BootMap(used, k) && k < 384
    ensures BootMap(used[256 + 2 * k := true], k + 1)
  {
  }

  /** set_user_pages: the code and data pages of the first task, with frames taken in order. */
  method SetUserPages(physMem: array<bool>, pt: array<Table>, d: nat)
    requires physMem.Length == TOTAL_PAGES && pt.Length == NR_TASKS && d < NR_TASKS
    requires BootMap(physMem[..], 0)
    requires forall s :: 0 <= s < NR_TASKS ==> pt[s] == KernelTable()
    modifies physMem, pt
    ensures BootMap(physMem[..], NUM_PAG_CODE + NUM_PAG_DATA)
    ensures forall s :: 0 <= s < NR_TASKS && s != d ==> pt[s] == KernelTable()
    ensures forall p :: 0 <= p < TOTAL_PAGES ==>
              pt[d][p] == if PAG_LOG_INIT_CODE <= p < HEAP_FIRST_PAGE then Entry(true, CodeFrame(p)) else KernelTable()[p]
  {
    for pag := 0 to NUM_PAG_CODE
      invariant BootMap(physMem[..], pag)
      invariant forall s :: 0 <= s < NR_TASKS && s != d ==> pt[s] == KernelTable()
      invariant forall p :: 0 <= p < TOTAL_PAGES ==>
                  pt[d][p] == if PAG_LOG_INIT_CODE <= p < PAG_LOG_INIT_CODE + pag then Entry(true, CodeFrame(p)) else KernelTable()[p]
    {
      NextBootFrame(physMem[..], pag);
      var f := AllocFrame(physMem);
      SetSsPag(pt, d, PAG_LOG_INIT_CODE + pag, f);
    }
    for pag := 0 to NUM_PAG_DATA
      invariant BootMap(physMem[..], NUM_PAG_CODE + pag)
      invariant forall s :: 0 <= s < NR_TASKS && s != d ==> pt[s] == KernelTable()
      invariant forall p :: 0 <= p < TOTAL_PAGES ==>
                  pt[d][p] == if PAG_LOG_INIT_CODE <= p < PAG_LOG_INIT_DATA + pag then Entry(true, CodeFrame(p)) else KernelTable()[p]
    {
      NextBootFrame(physMem[..], NUM_PAG_CODE + pag);
      var f := AllocFrame(physMem);
      SetSsPag(pt, d, PAG_LOG_INIT_DATA + pag, f);
    }
  }
}
