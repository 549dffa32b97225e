/** Memory as each task sees it, in every run: although frames, tables and temporary
    mappings are shared, a task reads what it would read from a memory of its own
    (zeOS/sys.c:61-175, 270-318). */
module PrivateMemory {
  import opened Layout
  import opened Frames
  import opened Paging
  import opened AddressSpace
  import opened HeapSpace
  import opened Scheduler
  import opened SystemCalls
  import opened Runs

  /** Where the byte that a task has at an address after a call comes from. A page that
      sbrk maps is not cleared: it holds what its frame held. */
  datatype Origin = Unchanged | Inherited | Stored(b: Byte) | NewPage

  ghost function OriginOf(k: Kernel, c: Call, t: nat, addr: nat): Origin
    requires KInv(k)
  {
    match c
    case CallFork => if ForkSucceeds(k) && t == k.s.q.free[0] then Inherited else Unchanged
    case CallSbrk(_) => if t == k.s.cur && !Counted(k.s.task[t].brk, addr) then NewPage else Unchanged
    case UserStore(at, b) => if t == k.s.cur && at == addr && CanStore(k, at) then Stored(b) else Unchanged
    case _ => Unchanged
  }

  /** The byte that the table of a task leads to, if any. */
  ghost function ByteAt(v: Vm, t: nat, addr: nat): Byte {
    if t < NR_TASKS && OnPage(v.pt[t], addr, 1) then Read(v, t, addr) else 0
  }

  /** The private memory of task `t` after `i` calls of a run: its own last store, what its
      parent had at the fork, or what a new page came with. No frame or table occurs. */
  ghost function Private(ks: seq<Kernel>, cs: seq<Call>, i: nat, t: nat, addr: nat): Byte
    requires Trace(ks, cs) && i <= |cs|
    decreases i
  {
    if i == 0 then ByteAt(ks[0].vm, t, addr) else
    InvariantInEveryRun(ks, cs, i - 1);
    match OriginOf(ks[i - 1], cs[i - 1], t, addr)
    case Unchanged => Private(ks, cs, i - 1, t, addr)
    case Inherited => Private(ks, cs, i - 1, ks[i - 1].s.cur, addr)
    case Stored(b) => b
    case NewPage => ByteAt(ks[i].vm, t, addr)
  }

  // ---------------------------------------------------------------------------
  // One call
  // ---------------------------------------------------------------------------

  /** The task is live and counts the page of the address. */
  ghost predicate Owns(k: Kernel, t: nat, addr: nat) {
    t in Live(k.s) && Counted(k.s.task[t].brk, addr)
  }

  lemma OwnedIsMapped(k: Kernel, t: nat, addr: nat)
    requires KInv(k) && Owns(k, t, addr)
    ensures t < NR_TASKS && OnPage(k.vm.pt[t], addr, 1)
  {
    assert CoveredTask(k.vm.pt[t], Brks(k.s.task)[t]);
    assert UserPage(t, addr / 0x1000);
  }

  /** What a call does to the byte of a task that owns the address after it. */
  ghost predicate ByteStep(k: Kernel, c: Call, k': Kernel, t: nat, addr: nat)
    requires KInv(k)
  {
    match OriginOf(k, c, t, addr)
    case Unchanged => Owns(k, t, addr) && ByteAt(k'.vm, t, addr) == ByteAt(k.vm, t, addr)
    case Inherited => Owns(k, k.s.cur, addr) && ByteAt(k'.vm, t, addr) == ByteAt(k.vm, k.s.cur, addr)
    case Stored(b) => ByteAt(k'.vm, t, addr) == b
    case NewPage => true
  }

  lemma ForkByte(k: Kernel, t: nat, addr: nat)
    requires KInv(k) && Owns(Fork(k).0, t, addr)
    ensures ByteStep(k, CallFork, Fork(k).0, t, addr)
  {
    CurrentIsLive(k);
    if k.s.q.free != [] {
      ForkOutcome(k);
      FreeSlot(k);
      if ForkSucceeds(k) {
        ForkSuccessByte(k, t, addr);
      }
    }
  }

  lemma ForkSuccessByte(k: Kernel, t: nat, addr: nat)
    requires KInv(k) && ForkSucceeds(k) && Owns(Fork(k).0, t, addr)
    ensures ByteStep(k, CallFork, Fork(k).0, t, addr)
  {
    ForkOwners(k, t, addr);
    hide KInv, Fork, Owns, OnPage;
    if t == k.s.q.free[0] || t == k.s.cur {
      OwnedIsMapped(k, k.s.cur, addr);
      ForkOwnBytes(k, addr);
    } else {
      OwnedIsMapped(k, t, addr);
      OthersReadTheSame(k, CallFork, t, addr);
    }
  }

  /** Parent and child own the same addresses, the others what they owned. */
  lemma ForkOwners(k: Kernel, t: nat, addr: nat)
    requires KInv(k) && ForkSucceeds(k) && Owns(Fork(k).0, t, addr)
    ensures k.s.q.free[0] < NR_TASKS && k.s.q.free[0] != k.s.cur
    ensures t == k.s.q.free[0] || t == k.s.cur ==> Owns(k, k.s.cur, addr)
    ensures t != k.s.q.free[0] ==> Owns(k, t, addr)
  {
    CurrentIsLive(k);
    ForkOutcome(k);
    SpawnKeepsInvIff(k.s, k.nextPid);
    hide KInv, ForkSucceeds, ForkReady;
  }

  lemma ForkOwnBytes(k: Kernel, addr: nat)
    requires KInv(k) && ForkSucceeds(k) && Owns(k, k.s.cur, addr)
    ensures var k', p, c := Fork(k).0, k.s.cur, k.s.q.free[0];
            ByteAt(k'.vm, c, addr) == ByteAt(k'.vm, p, addr) == ByteAt(k.vm, p, addr)
  {
    CurrentIsLive(k);
    ForkCopiesMemory(k, addr);
  }

  lemma SbrkByte(k: Kernel, n: int32, t: nat, addr: nat)
    requires KInv(k) && Keeps(k, CallSbrk(n)) && Owns(SbrkCall(k, n).0, t, addr)
    ensures ByteStep(k, CallSbrk(n), SbrkCall(k, n).0, t, addr)
  {
    CurrentIsLive(k);
    var k' := SbrkCall(k, n).0;
    SbrkSameLive(k, n);
    if t != k.s.cur {
      OwnedIsMapped(k, t, addr);
      OthersReadTheSame(k, CallSbrk(n), t, addr);
    } else if Counted(k.s.task[t].brk, addr) {
      OwnedIsMapped(k, t, addr);
      SbrkKeepsCounted(k.vm, Live(k.s), Brks(k.s.task), t, n, addr);
    }
  }

  lemma SbrkSameLive(k: Kernel, n: int32)
    requires KInv(k)
    ensures Live(SbrkCall(k, n).0.s) == Live(k.s)
    ensures forall t :: 0 <= t < NR_TASKS && t != k.s.cur ==> SbrkCall(k, n).0.s.task[t] == k.s.task[t]
  {
    OtherFields(k.s, SbrkCall(k, n).0.s);
  }

  /** sbrk leaves the pages alone that are counted before and after it, to the last byte. */
  lemma SbrkKeepsCounted(v: Vm, live: set<nat>, brk: Breaks, s: nat, n: int32, addr: nat)
    requires VmInv(v, live, brk) && s in live && s < NR_TASKS && Counted(brk[s], addr) && OnPage(v.pt[s], addr, 1)
    ensures L_HEAP_START <= brk[s] < 0x8000_0000
    ensures var o := Sbrk(v, s, brk[s], n);
            Counted(o.brk, addr) ==> OnPage(o.vm.pt[s], addr, 1) && Read(o.vm, s, addr) == Read(v, s, addr)
  {
    BreakBound(v, live, brk, s);
    SpanStartsAfterCounted(brk[s], brk[s]);
    if n < 0 {
      SpanStartsAfterCounted(ShrinkTarget(brk[s], n), brk[s]);
    }
  }

  lemma StoreByte(k: Kernel, at: nat, b: Byte, t: nat, addr: nat)
    requires KInv(k) && Owns(Apply(k, UserStore(at, b)), t, addr)
    ensures ByteStep(k, UserStore(at, b), Apply(k, UserStore(at, b)), t, addr)
  {
    CurrentIsLive(k);
    OwnedIsMapped(k, t, addr);
    if CanStore(k, at) {
      WriteIsPrivate(k.vm, Live(k.s), Brks(k.s.task), k.s.cur, at, b, t, addr);
    }
  }

  lemma ExitByte(k: Kernel, t: nat, addr: nat)
    requires KInv(k) && CanSwitch(Leave(k.s)) && Owns(ExitCall(k), t, addr)
    ensures ByteStep(k, CallExit, ExitCall(k), t, addr)
  {
    ExitKeepsInvIff(k.s);
    OwnedIsMapped(k, t, addr);
    OthersReadTheSame(k, CallExit, t, addr);
  }

  lemma StepByte(k: Kernel, c: Call, t: nat, addr: nat)
    requires KInv(k) && Keeps(k, c) && !Stuck(k, c) && Owns(Apply(k, c), t, addr)
    ensures ByteStep(k, c, Apply(k, c), t, addr)
  {
    match c
    case CallFork => ForkByte(k, t, addr);
    case CallExit => ExitByte(k, t, addr);
    case CallSbrk(n) => SbrkByte(k, n, t, addr);
    case UserStore(at, b) => StoreByte(k, at, b, t, addr);
    case CallSetFps(fps) => SetNiceKeepsInvIff(k.s, if fps == -1 then 1 else 0);
    case ClockTick => ScheduleKeepsInv(k.s);
    case CallPutScreen(_) =>
  }

  // ---------------------------------------------------------------------------
  // Runs
  // ---------------------------------------------------------------------------

  /** The memory semantics of every run: a live task reads at each address of its counted
      pages exactly what its private memory holds. */
  lemma {:induction false} ReadsArePrivate(ks: seq<Kernel>, cs: seq<Call>, i: nat, t: nat, addr: nat)
    requires Trace(ks, cs) && i <= |cs| && Owns(ks[i], t, addr)
    ensures KInv(ks[i]) && t < NR_TASKS && OnPage(ks[i].vm.pt[t], addr, 1)
    ensures Read(ks[i].vm, t, addr) == Private(ks, cs, i, t, addr)
    decreases i
  {
    InvariantInEveryRun(ks, cs, i);
    OwnedIsMapped(ks[i], t, addr);
    if i > 0 {
      InvariantInEveryRun(ks, cs, i - 1);
      var k, c := ks[i - 1], cs[i - 1];
      assert StepOf(k, c, ks[i]);
      StepByte(k, c, t, addr);
      match OriginOf(k, c, t, addr)
      case Unchanged => ReadsArePrivate(ks, cs, i - 1, t, addr);
      case Inherited => ReadsArePrivate(ks, cs, i - 1, k.s.cur, addr);
      case Stored(_) =>
      case NewPage =>
    }
  }

  /** Call `m` leaves the byte as it is. */
  ghost predicate Untouched(ks: seq<Kernel>, cs: seq<Call>, m: nat, t: nat, addr: nat)
    requires m < |cs| < |ks|
  {
    KInv(ks[m]) && OriginOf(ks[m], cs[m], t, addr) == Unchanged
  }

  /** A task reads the byte it last stored at an address, until it stores another one
      there or gives up the page. */
  lemma LastStoreIsRead(ks: seq<Kernel>, cs: seq<Call>, i: nat, j: nat, t: nat, addr: nat, b: Byte)
    requires Trace(ks, cs) && i < j <= |cs| && KInv(ks[i]) && OriginOf(ks[i], cs[i], t, addr) == Stored(b)
    requires forall m :: i < m < j ==> Untouched(ks, cs, m, t, addr)
    requires Owns(ks[j], t, addr)
    ensures t < NR_TASKS && OnPage(ks[j].vm.pt[t], addr, 1) && Read(ks[j].vm, t, addr) == b
  {
    hide Untouched, Private, Trace, KInv, OriginOf, Owns;
    StoredIsPrivate(ks, cs, i, t, addr, b);
    ReadsArePrivate(ks, cs, j, t, addr);
    PrivateStays(ks, cs, i + 1, j, t, addr);
  }

  lemma StoredIsPrivate(ks: seq<Kernel>, cs: seq<Call>, i: nat, t: nat, addr: nat, b: Byte)
    requires Trace(ks, cs) && i < |cs| && KInv(ks[i]) && OriginOf(ks[i], cs[i], t, addr) == Stored(b)
    ensures Private(ks, cs, i + 1, t, addr) == b
  {
  }

  lemma {:induction false} PrivateStays(ks: seq<Kernel>, cs: seq<Call>, i: nat, j: nat, t: nat, addr: nat)
    requires Trace(ks, cs) && i <= j <= |cs|
    requires forall m :: i <= m < j ==> Untouched(ks, cs, m, t, addr)
    ensures Private(ks, cs, j, t, addr) == Private(ks, cs, i, t, addr)
  {
    hide Untouched, Private, Trace;
    if i < j {
      PrivateStays(ks, cs, i, j - 1, t, addr);
      PrivateStep(ks, cs, j, t, addr);
    }
  }

  lemma PrivateStep(ks: seq<Kernel>, cs: seq<Call>, j: nat, t: nat, addr: nat)
    requires Trace(ks, cs) && 0 < j <= |cs| && Untouched(ks, cs, j - 1, t, addr)
    ensures Private(ks, cs, j, t, addr) == Private(ks, cs, j - 1, t, addr)
  {
  }
}
