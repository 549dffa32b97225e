/** Virtual memory as a value: what fork, exit and sbrk do to frames, page tables and
    memory contents, and the invariant that all of them keep
    (zeOS/sys.c:61-175, 270-318; zeOS/mm.c:54-103). */
module AddressSpace {
  import opened Layout
  import opened Frames
  import opened Paging

  datatype Vm = Vm(used: FrameMap, pt: Tables, ram: Ram)

  /** A data, stack or heap page of some task slot. */
  predicate UserPage(s: int, p: int) {
    0 <= s < NR_TASKS && PAG_LOG_INIT_DATA <= p < TOTAL_PAGES
  }

  /** Frames that can back data pages: alloc_frame's frames without the eight code frames. */
  predicate PoolFrame(f: int) {
    272 <= f < TOTAL_PAGES && f % 2 == 0
  }

  /** Frames no address space releases: the kernel's and the shared code. */
  predicate FixedFrame(f: int) {
    0 <= f < NUM_PAG_KERNEL || (NUM_PAG_KERNEL <= f < 272 && f % 2 == 0)
  }

  // ---------------------------------------------------------------------------
  // The invariant
  // ---------------------------------------------------------------------------

  /** A mapped user page holds a used pool frame; the entry of any other is zero. */
  ghost predicate WellMapped(v: Vm) {
    forall s, p :: UserPage(s, p) ==>
      if v.pt[s][p].present then PoolFrame(v.pt[s][p].frame) && v.used[v.pt[s][p].frame] else v.pt[s][p] == NO_ENTRY
  }

  /** No two user pages, of one task or of two, hold the same frame. */
  ghost predicate Exclusive(v: Vm) {
    forall s, p, s', p' ::
      (UserPage(s, p) && UserPage(s', p') && v.pt[s][p].present && v.pt[s'][p'].present &&
       v.pt[s][p].frame == v.pt[s'][p'].frame) ==> s == s' && p == p'
  }

  /** Kernel and code frames stay used; frames alloc_frame skips stay free. */
  ghost predicate FixedFrames(v: Vm) {
    forall f :: 0 <= f < TOTAL_PAGES ==> (FixedFrame(f) ==> v.used[f]) && (v.used[f] ==> FixedFrame(f) || PoolFrame(f))
  }

  /** Every table maps the kernel pages onto themselves. */
  ghost predicate KernelPages(v: Vm) {
    forall s, p :: 0 <= s < NR_TASKS && 0 <= p < NUM_PAG_KERNEL ==> v.pt[s][p] == KernelTable()[p]
  }

  /** The frame of a code page, as boot allocates them. */
  function CodeFrame(p: int): int {
    256 + 2 * (p - PAG_LOG_INIT_CODE)
  }

  /** Live tasks share the eight code frames. */
  ghost predicate CodePages(v: Vm, live: set<nat>) {
    forall s, p :: s in live && s < NR_TASKS && PAG_LOG_INIT_CODE <= p < PAG_LOG_INIT_DATA ==>
      v.pt[s][p] == Entry(true, CodeFrame(p))
  }

  type Breaks = b: seq<nat> | |b| == 10 witness seq(10, _ => 0)

  /** All pages that fork and exit count for a live task are mapped. */
  ghost predicate Covered(v: Vm, live: set<nat>, brk: Breaks) {
    forall s :: s in live ==> s < NR_TASKS && CoveredTask(v.pt[s], brk[s])
  }

  ghost predicate CoveredTask(t: Table, brk: nat) {
    && L_HEAP_START <= brk
    && PAG_LOG_INIT_DATA + NumPages(brk) <= TOTAL_PAGES
    && forall p :: PAG_LOG_INIT_DATA <= p < PAG_LOG_INIT_DATA + NumPages(brk) ==> t[p].present
  }

  ghost predicate VmInv(v: Vm, live: set<nat>, brk: Breaks) {
    && WellMapped(v) && Exclusive(v) && FixedFrames(v) && KernelPages(v)
    && CodePages(v, live) && Covered(v, live, brk)
  }

  // ---------------------------------------------------------------------------
  // Counting: mapped pages are bounded by the frames that can be handed out
  // ---------------------------------------------------------------------------

  ghost function PoolBelow(k: nat): (s: set<nat>)
    requires k <= 376
  {
    set f: nat | 0 <= f < 272 + 2 * k && 272 <= f && f % 2 == 0
  }

  lemma {:induction false} PoolSize(k: nat)
    requires k <= 376
    ensures |PoolBelow(k)| == k
  {
    if k == 0 {
      assert PoolBelow(0) == {};
    } else {
      PoolSize(k - 1);
      assert PoolBelow(k) == PoolBelow(k - 1) + {272 + 2 * (k - 1)};
    }
  }

  /** The frames behind pages `first`, `first + 1`, ... of a table. */
  function Behind(t: Table, first: nat, n: nat): (fr: seq<nat>)
    requires first + n <= TOTAL_PAGES
    ensures |fr| == n && forall i :: 0 <= i < n ==> fr[i] == t[first + i].frame
  {
    seq<nat>(n, i requires 0 <= i < n => t[first + i].frame)
  }

  /** The `n` mapped pages of a task and the frames just taken from the map together
      number at most 376: this bounds every table index that fork and sbrk write. */
  lemma TableBound(v: Vm, s: nat, n: nat, fr: seq<nat>)
    requires WellMapped(v) && Exclusive(v) && FixedFrames(v)
    requires s < NR_TASKS && PAG_LOG_INIT_DATA + n <= TOTAL_PAGES
    requires forall p :: PAG_LOG_INIT_DATA <= p < PAG_LOG_INIT_DATA + n ==> v.pt[s][p].present
    requires FreshFrames(v.used, fr)
    ensures n + |fr| <= 376
    ensures forall i :: 0 <= i < |fr| ==> PoolFrame(fr[i])
  {
    var all := Behind(v.pt[s], PAG_LOG_INIT_DATA, n) + fr;
    forall i | 0 <= i < |all| ensures all[i] in PoolBelow(376) && (i < n ==> v.used[all[i]]) {
      if i < n {
        assert UserPage(s, PAG_LOG_INIT_DATA + i);
      } else {
        assert Allocatable(fr[i - n]) && !v.used[fr[i - n]];
      }
    }
    forall i, j | 0 <= i < j < |all| ensures all[i] != all[j] {
      if j < n {
        assert UserPage(s, PAG_LOG_INIT_DATA + i) && UserPage(s, PAG_LOG_INIT_DATA + j);
      } else if n <= i {
        assert fr[i - n] != fr[j - n];
      }
    }
    PoolSize(376);
    DistinctSize(all, PoolBelow(376));
  }

  // ---------------------------------------------------------------------------
  // fork
  // ---------------------------------------------------------------------------

  /** The child's table: kernel and code pages of the parent, then its own new frames;
      entries past those keep whatever the slot held before. */
  function ChildTable(own: Table, parent: Table, fr: seq<nat>): Table
    requires PAG_LOG_INIT_DATA + |fr| <= TOTAL_PAGES
  {
    seq(1024, p requires 0 <= p < 1024 =>
      if PAG_LOG_INIT_DATA <= p < PAG_LOG_INIT_DATA + |fr| then Entry(true, fr[p - PAG_LOG_INIT_DATA])
      else if PAG_LOG_INIT_CODE <= p < PAG_LOG_INIT_DATA then Entry(true, parent[p].frame)
      else if 2 <= p < PAG_LOG_INIT_CODE then parent[p]
      else own[p])
  }

  /** A table with `n` entries from `first` on set to zero. */
  function Cleared(t: Table, first: int, n: int): Table {
    seq(1024, p requires 0 <= p < 1024 => if first <= p < first + n then NO_ENTRY else t[p])
  }

  ghost predicate InRam(fr: seq<nat>) {
    forall i :: 0 <= i < |fr| ==> fr[i] < 1024
  }

  /** Memory after frame `fr[i]` has received the contents of frame `src[i]`, for i < k. */
  ghost function Duplicated(ram: Ram, src: seq<nat>, fr: seq<nat>, k: nat): Ram
    requires k <= |src| && k <= |fr| && InRam(src) && InRam(fr)
  {
    if k == 0 then ram else Duplicated(ram, src, fr, k - 1)[fr[k - 1] := ram[src[k - 1]]]
  }

  lemma {:induction false} DuplicatedElsewhere(ram: Ram, src: seq<nat>, fr: seq<nat>, k: nat, f: nat)
    requires k <= |src| && k <= |fr| && InRam(src) && InRam(fr) && f < 1024
    requires forall i :: 0 <= i < k ==> fr[i] != f
    ensures Duplicated(ram, src, fr, k)[f] == ram[f]
  {
    if k > 0 {
      DuplicatedElsewhere(ram, src, fr, k - 1, f);
      assert fr[k - 1] != f;
    }
  }

  lemma {:induction false} DuplicatedAt(ram: Ram, src: seq<nat>, fr: seq<nat>, k: nat, i: nat)
    requires i < k <= |src| && k <= |fr| && Distinct(fr) && InRam(src) && InRam(fr)
    ensures Duplicated(ram, src, fr, k)[fr[i]] == ram[src[i]]
  {
    if i < k - 1 {
      DuplicatedAt(ram, src, fr, k - 1, i);
      assert fr[i] != fr[k - 1];
    }
  }

  /** What a fork of `parent` into `child` with new frames `fr` does to memory. The
      temporary mappings have left the parent's table without entries just past its
      own pages. */
  ghost function ForkSpace(v: Vm, parent: nat, child: nat, fr: seq<nat>): Vm
    requires parent < NR_TASKS && child < NR_TASKS && parent != child
    requires PAG_LOG_INIT_DATA + 2 * |fr| <= TOTAL_PAGES
    requires InRam(fr) && InRam(Behind(v.pt[parent], PAG_LOG_INIT_DATA, |fr|))
  {
    var n := |fr|;
    Vm(Mark(v.used, fr),
       v.pt[child := ChildTable(v.pt[child], v.pt[parent], fr)]
           [parent := Cleared(v.pt[parent], PAG_LOG_INIT_DATA + n, n)],
       Duplicated(v.ram, Behind(v.pt[parent], PAG_LOG_INIT_DATA, n), fr, n))
  }

  /** When fork of a live task gets its frames. */
  ghost predicate CanFork(v: Vm, live: set<nat>, brk: Breaks, parent: nat, child: nat, fr: seq<nat>) {
    && VmInv(v, live, brk) && parent in live && child !in live && child < NR_TASKS
    && FreshFrames(v.used, fr) && |fr| == NumPages(brk[parent])
  }

  /** What a fork that has its frames relies on. */
  ghost predicate ForkReady(v: Vm, live: set<nat>, brk: Breaks, parent: nat, child: nat, fr: seq<nat>) {
    && CanFork(v, live, brk, parent, child, fr)
    && parent < NR_TASKS && PAG_LOG_INIT_DATA + 2 * |fr| <= 640
    && InRam(fr) && InRam(Behind(v.pt[parent], PAG_LOG_INIT_DATA, |fr|))
  }

  lemma ForkBounds(v: Vm, live: set<nat>, brk: Breaks, parent: nat, child: nat, fr: seq<nat>)
    requires CanFork(v, live, brk, parent, child, fr)
    ensures parent < NR_TASKS && PAG_LOG_INIT_DATA + 2 * |fr| <= 640
    ensures forall i :: 0 <= i < |fr| ==> PoolFrame(fr[i])
    ensures forall i :: 0 <= i < |fr| ==> PoolFrame(Behind(v.pt[parent], PAG_LOG_INIT_DATA, |fr|)[i])
  {
    assert CoveredTask(v.pt[parent], brk[parent]);
    TableBound(v, parent, |fr|, fr);
    forall i | 0 <= i < |fr| ensures PoolFrame(Behind(v.pt[parent], PAG_LOG_INIT_DATA, |fr|)[i]) {
      assert UserPage(parent, PAG_LOG_INIT_DATA + i);
    }
  }

  lemma ForkExclusive(v: Vm, live: set<nat>, brk: Breaks, parent: nat, child: nat, fr: seq<nat>)
    requires ForkReady(v, live, brk, parent, child, fr)
    ensures Exclusive(ForkSpace(v, parent, child, fr))
  {
  }

  lemma ForkKeepsVmInv(v: Vm, live: set<nat>, brk: Breaks, parent: nat, child: nat, fr: seq<nat>)
    requires CanFork(v, live, brk, parent, child, fr)
    ensures ForkReady(v, live, brk, parent, child, fr)
    ensures VmInv(ForkSpace(v, parent, child, fr), live + {child}, brk[child := brk[parent]])
  {
    ForkBounds(v, live, brk, parent, child, fr);
    ForkExclusive(v, live, brk, parent, child, fr);
    var v' := ForkSpace(v, parent, child, fr);
    assert WellMapped(v') && FixedFrames(v') && KernelPages(v');
    assert CodePages(v', live + {child}) && Covered(v', live + {child}, brk[child := brk[parent]]);
  }

  /** What a task reads at a virtual address of a mapped page. */
  ghost function Read(v: Vm, s: nat, addr: nat): Byte
    requires s < NR_TASKS && OnPage(v.pt[s], addr, 1)
  {
    v.ram[FrameOf(v.pt[s], addr)][addr % 0x1000]
  }

  /** The address is in the data, stack or heap pages that fork counts for the break. */
  predicate Counted(brk: nat, addr: nat) {
    PAG_LOG_INIT_DATA <= addr / 0x1000 < PAG_LOG_INIT_DATA + NumPages(brk)
  }

  /** A frame a live task can read is none of the frames just taken. */
  lemma MappedIsNotFresh(v: Vm, live: set<nat>, brk: Breaks, s: nat, p: nat, fr: seq<nat>)
    requires VmInv(v, live, brk) && s in live && p < TOTAL_PAGES
    requires FreshFrames(v.used, fr)
    ensures s < NR_TASKS && (v.pt[s][p].present ==> v.pt[s][p].frame !in fr)
  {
    assert CoveredTask(v.pt[s], brk[s]);
    var f := v.pt[s][p].frame;
    if v.pt[s][p].present {
      if p < NUM_PAG_KERNEL {
        assert v.pt[s][p] == KernelTable()[p] && FixedFrame(f);
      } else if p < PAG_LOG_INIT_DATA {
        assert f == CodeFrame(p) && FixedFrame(f);
      } else {
        assert UserPage(s, p);
      }
      assert f < TOTAL_PAGES && v.used[f];
    }
  }

  /** fork copies memory: on every counted page the child reads what the parent reads,
      the parent reads what it read before, and its counted pages keep their frames. */
  lemma ForkCopies(v: Vm, live: set<nat>, brk: Breaks, parent: nat, child: nat, fr: seq<nat>, addr: nat)
    requires ForkReady(v, live, brk, parent, child, fr) && Counted(brk[parent], addr)
    ensures var v' := ForkSpace(v, parent, child, fr);
            && OnPage(v.pt[parent], addr, 1) && OnPage(v'.pt[parent], addr, 1) && OnPage(v'.pt[child], addr, 1)
            && Read(v', child, addr) == Read(v', parent, addr) == Read(v, parent, addr)
            && v'.pt[parent][addr / 0x1000] == v.pt[parent][addr / 0x1000]
  {
    var n, p := |fr|, addr / 0x1000;
    var src := Behind(v.pt[parent], PAG_LOG_INIT_DATA, n);
    assert CoveredTask(v.pt[parent], brk[parent]);
    assert UserPage(parent, p) && src[p - PAG_LOG_INIT_DATA] == v.pt[parent][p].frame;
    MappedIsNotFresh(v, live, brk, parent, p, fr);
    DuplicatedAt(v.ram, src, fr, n, p - PAG_LOG_INIT_DATA);
    DuplicatedElsewhere(v.ram, src, fr, n, v.pt[parent][p].frame);
  }

  /** No other task's reads change. */
  lemma ForkSparesOthers(v: Vm, live: set<nat>, brk: Breaks, parent: nat, child: nat, fr: seq<nat>, addr: nat, s: nat)
    requires ForkReady(v, live, brk, parent, child, fr)
    requires s in live && s < NR_TASKS && s != parent && OnPage(v.pt[s], addr, 1)
    ensures var v' := ForkSpace(v, parent, child, fr);
            OnPage(v'.pt[s], addr, 1) && Read(v', s, addr) == Read(v, s, addr)
  {
    var f := v.pt[s][addr / 0x1000].frame;
    MappedIsNotFresh(v, live, brk, s, addr / 0x1000, fr);
    DuplicatedElsewhere(v.ram, Behind(v.pt[parent], PAG_LOG_INIT_DATA, |fr|), fr, |fr|, f);
  }
}
