/** The context switch and the kernel entry frame (zeOS/entry.S:38-66, 111-199;
    zeOS/sys.c:56-59, 141-146). Memory is the task unions, word by word. */
module ContextSwitch {
  import opened Layout

  /** Return addresses that matter; `Site` stands for every place in C code. */
  datatype Target = AfterInner | AfterDispatch | RetFromFork | CpuIdle | Site(id: int)

  /** A 32-bit word: a number, the address of a word of a task union, a page directory,
      or a code address. */
  datatype Word = Num(n: int) | Ptr(slot: nat, idx: int) | Dir(dir: nat) | Code(to: Target)

  const KERNEL_STACK_SIZE: nat := 1024

  /** Words of the task structure, which lies at the bottom of the union. */
  const DIR_WORD: nat := 1
  const KERNEL_ESP_WORD: nat := 4
  const PCB_WORDS: nat := 16

  type Union = u: seq<Word> | |u| == 1024 witness seq(1024, _ => Num(0))
  const EMPTY_UNION: Union := seq(1024, _ => Num(0))
  type Unions = us: seq<Union> | |us| == 10 witness seq(10, _ => EMPTY_UNION)

  /** Memory, the stack pointer (`slot` and `esp`; current() masks it down to `slot`),
      the other registers, and the copies of whose kernel stack it is. */
  datatype State = State(mem: Unions, slot: nat, esp: int,
                         eax: Word, ebx: Word, ecx: Word, edx: Word, esi: Word, edi: Word, ebp: Word,
                         tssEsp0: Word, msr175: Word, cr3: Word)

  /** The stack pointer is inside a task's stack, with `words` words free below it. */
  predicate Room(slot: nat, esp: int, words: int) {
    slot < NR_TASKS && PCB_WORDS + words <= esp <= KERNEL_STACK_SIZE
  }

  /** Two unions agree on the fixed words of the task structure and from word `e` up. */
  ghost predicate AgreeFrom(u: Union, u': Union, e: int) {
    forall k :: 0 <= k < 1024 && (k <= KERNEL_ESP_WORD || e <= k) ==> u'[k] == u[k]
  }

  // ---------------------------------------------------------------------------
  // What a task leaves on its stack
  // ---------------------------------------------------------------------------

  /** What must come back when a task resumes: the registers a C function preserves, the
      stack pointer and the return address of its call of task_switch. */
  datatype Context = Context(esp: int, ebx: Word, esi: Word, edi: Word, ebp: Word, at: Target)

  /** Why a task is off the CPU. */
  datatype Parked = Suspended(x: Context) | Newborn | IdleTask

  /** The eight words task_switch and inner_task_switch push below the argument. */
  ghost predicate Frame(u: Union, s: nat, x: Context) {
    && PCB_WORDS + 8 <= x.esp < KERNEL_STACK_SIZE
    && u[x.esp - 1] == Code(x.at) && u[x.esp - 2] == x.ebp && u[x.esp - 3] == x.esi && u[x.esp - 4] == x.edi
    && u[x.esp - 5] == x.ebx && u[x.esp - 7] == Code(AfterInner) && u[x.esp - 8] == Ptr(s, x.esp - 2)
  }

  /** Where the kernel_esp field points. */
  function SavedEsp(p: Parked): int {
    match p
    case Suspended(x) => x.esp - 8
    case Newborn => 1024 - 0x13
    case IdleTask => 1022
  }

  /** The stack of a task that is off the CPU. */
  ghost predicate ParkedOn(u: Union, s: nat, p: Parked) {
    && u[DIR_WORD] == Dir(s) && u[KERNEL_ESP_WORD] == Ptr(s, SavedEsp(p))
    && match p
       case Suspended(x) => Frame(u, s, x)
       case Newborn => u[1024 - 0x13] == Num(0) && u[1024 - 0x12] == Code(RetFromFork) && u[1024 - 0x11] == Code(AfterDispatch)
       case IdleTask => u[1022] == Num(0) && u[1023] == Code(CpuIdle)
  }

  /** A stack tells in only one way how its task left the CPU. */
  lemma ParkedOneWay(u: Union, s: nat, p: Parked, p': Parked)
    requires ParkedOn(u, s, p) && ParkedOn(u, s, p')
    ensures p == p'
  {
  }

  /** The context of the running task as it calls task_switch, the argument pushed. */
  function ContextAt(c: State, at: Target): Context {
    Context(c.esp, c.ebx, c.esi, c.edi, c.ebp, at)
  }

  // ---------------------------------------------------------------------------
  // What a switch does
  // ---------------------------------------------------------------------------

  /** tss.esp0, MSR 0x175, CR3 and current() name the same task. */
  ghost predicate Agreeing(c: State) {
    c.slot < NR_TASKS && c.tssEsp0 == Ptr(c.slot, 1024) && c.msr175 == Ptr(c.slot, 1024) && c.cr3 == Dir(c.slot)
  }

  /** Two unions agree on the task structure but for kernel_esp, and from word `e` up. */
  ghost predicate AgreeButEsp(u: Union, u': Union, e: int) {
    forall k :: 0 <= k < 1024 && (k < KERNEL_ESP_WORD || e <= k) ==> u'[k] == u[k]
  }

  /** The running task can call task_switch for task `t`. */
  ghost predicate CanCall(c: State, t: nat, p: Parked) {
    && Room(c.slot, c.esp, 16) && c.esp < KERNEL_STACK_SIZE && t < NR_TASKS && t != c.slot
    && c.mem[c.slot][c.esp] == Ptr(t, 0) && c.mem[c.slot][DIR_WORD] == Dir(c.slot)
    && ParkedOn(c.mem[t], t, p)
  }

  /** The task that called task_switch is suspended with its context. */
  ghost predicate LeavesSuspended(c: State, c': State, at: Target)
    requires c.slot < NR_TASKS
  {
    && ParkedOn(c'.mem[c.slot], c.slot, Suspended(ContextAt(c, at)))
    && AgreeButEsp(c.mem[c.slot], c'.mem[c.slot], c.esp)
  }

  /** The registers with which control arrives in the new task, at `pc`. */
  ghost predicate Arrives(p: Parked, c': State, pc: Target) {
    match p
    case Suspended(x) => ContextAt(c', pc) == x
    case Newborn => pc == AfterDispatch && c'.esp == 1024 - 0x10 && c'.eax == Num(0)
    case IdleTask => pc == CpuIdle && c'.esp == 1024
  }

  /** A call of task_switch by the running task, from its first instruction to the one
      at which the new task goes on. */
  ghost predicate Switched(c: State, t: nat, p: Parked, at: Target, c': State, pc: Target)
    requires CanCall(c, t, p)
  {
    && c'.slot == t && Agreeing(c')
    && LeavesSuspended(c, c', at)
    && AgreeFrom(c.mem[t], c'.mem[t], SavedEsp(p))
    && (forall s :: 0 <= s < NR_TASKS && s != c.slot && s != t ==> c'.mem[s] == c.mem[s])
    && Arrives(p, c', pc)
  }

  // ---------------------------------------------------------------------------
  // Entering and leaving the kernel; fork
  // ---------------------------------------------------------------------------

  const USER_CS: Word := Num(0x23)
  const USER_DS: Word := Num(0x2B)
  const MAX_SYSCALL: int := 36

  /** sys_call_table has the entries 0 to 35; MAX_SYSCALL is their number. */
  predicate NamesEntry(n: int) {
    0 <= n < 36
  }

  const ENOSYS: int := 38

  /** What a process gets back when a system call returns. */
  datatype User = User(eax: Word, ebx: Word, esi: Word, edi: Word, ebp: Word, eip: Word, esp: Word,
                       ds: Word, es: Word, fs: Word, gs: Word)

  /** The context that the sixteen words of a handler frame restore, with result `eax`. */
  function Restored(u: Union, eax: Word): User {
    User(eax, u[1008], u[1011], u[1012], u[1013], u[1019], u[1022], u[1015], u[1016], u[1017], u[1018])
  }

  /** The frame, word by word, and what it restores. */
  lemma FrameRestores(u: Union, frame: seq<Word>)
    requires u[1008..] == frame
    ensures |frame| == 16
    ensures forall result :: Restored(u, result) == User(result, frame[0], frame[3], frame[4], frame[5], frame[11],
                                                         frame[14], frame[7], frame[8], frame[9], frame[10])
  {
    assert forall k :: 0 <= k < 16 ==> u[1008..][k] == u[1008 + k];
  }

  /** The running task is in a system call: the address after the dispatch lies below
      its handler frame. */
  predicate InCall(c: State) {
    Room(c.slot, c.esp, 0) && c.esp <= 1024 - 0x11 && c.mem[c.slot][1024 - 0x11] == Code(AfterDispatch)
  }

  /** The child's union: a copy of the parent's, with its own directory, a fake %ebp and
      ret_from_fork just below the return address of the dispatch. */
  function ForkedUnion(u: Union, child: nat): Union {
    u[DIR_WORD := Dir(child)][1024 - 0x13 := Num(0)][1024 - 0x12 := Code(RetFromFork)][KERNEL_ESP_WORD := Ptr(child, 1024 - 0x13)]
  }

  lemma ForkedIsNewborn(u: Union, child: nat)
    requires u[1024 - 0x11] == Code(AfterDispatch)
    ensures ParkedOn(ForkedUnion(u, child), child, Newborn)
    ensures forall eax :: Restored(ForkedUnion(u, child), eax) == Restored(u, eax)
  {
  }

  // ---------------------------------------------------------------------------
  // Runs
  // ---------------------------------------------------------------------------

  /** `Compute` is anything the running task does with its registers, its stack and the
      task structures: list links, statistics, PIDs and breaks, of any task. */
  datatype Step = Compute | Switch(t: nat, p: Parked, at: Target, pc: Target) | Spawn(child: nat)

  /** Two unions agree on the page directory, on kernel_esp and on all of the stack. */
  ghost predicate SameStack(u: Union, u': Union) {
    forall k :: 0 <= k < 1024 && (k == DIR_WORD || k == KERNEL_ESP_WORD || PCB_WORDS <= k) ==> u'[k] == u[k]
  }

  /** What a parked task resumes with is on its stack. */
  lemma StackIsParked(u: Union, u': Union, s: nat, p: Parked)
    requires ParkedOn(u, s, p) && SameStack(u, u')
    ensures ParkedOn(u', s, p)
  {
    if p.Suspended? {
      var e := p.x.esp;
      assert forall k :: e - 8 <= k < e ==> u'[k] == u[k];
    }
  }

  ghost predicate Computed(c: State, c': State) {
    && c'.slot == c.slot < NR_TASKS && c'.tssEsp0 == c.tssEsp0 && c'.msr175 == c.msr175 && c'.cr3 == c.cr3
    && c'.mem[c.slot][DIR_WORD] == c.mem[c.slot][DIR_WORD]
    && forall s :: 0 <= s < NR_TASKS && s != c.slot ==> SameStack(c.mem[s], c'.mem[s])
  }

  ghost predicate Stepped(c: State, e: Step, c': State) {
    match e
    case Compute => Computed(c, c')
    case Switch(t, p, at, pc) => CanCall(c, t, p) && Switched(c, t, p, at, c', pc)
    case Spawn(child) =>
      child < NR_TASKS && child != c.slot && InCall(c) &&
      c' == c.(mem := c.mem[child := ForkedUnion(c.mem[c.slot], child)])
  }

  ghost predicate Run(xs: seq<State>, es: seq<Step>) {
    |xs| == |es| + 1 && forall i :: 0 <= i < |es| ==> Stepped(xs[i], es[i], xs[i + 1])
  }

  /** The step gives task `s` the CPU or a new stack. */
  predicate Concerns(e: Step, s: nat) {
    (e.Switch? && e.t == s) || (e.Spawn? && e.child == s)
  }

  /** In every run tss.esp0, MSR 0x175, CR3 and current() name the same task. */
  lemma {:induction false} AlwaysAgreeing(xs: seq<State>, es: seq<Step>, i: nat)
    requires Run(xs, es) && i <= |es| && Agreeing(xs[0])
    ensures Agreeing(xs[i])
  {
    if i > 0 {
      AlwaysAgreeing(xs, es, i - 1);
      assert Stepped(xs[i - 1], es[i - 1], xs[i]);
    }
  }

  /** While a task is off the CPU its stack, page directory and kernel_esp do not change,
      whatever the others write into its task structure. */
  lemma {:induction false} ParkedStackUntouched(xs: seq<State>, es: seq<Step>, i: nat, j: nat, s: nat)
    requires Run(xs, es) && i <= j <= |es| && s < NR_TASKS && xs[i].slot != s
    requires forall m :: i <= m < j ==> !Concerns(es[m], s)
    ensures xs[j].slot != s && SameStack(xs[i].mem[s], xs[j].mem[s])
  {
    if i < j {
      ParkedStackUntouched(xs, es, i, j - 1, s);
      assert Stepped(xs[j - 1], es[j - 1], xs[j]);
    }
  }

  /** The step leaves task `s` off the CPU with something to resume. */
  ghost predicate Parks(c: State, e: Step, s: nat) {
    (e.Switch? && c.slot == s) || (e.Spawn? && e.child == s)
  }

  /** A task that was switched out, or forked, can be dispatched at any later moment. */
  lemma StaysDispatchable(xs: seq<State>, es: seq<Step>, i: nat, j: nat, s: nat) returns (p: Parked)
    requires Run(xs, es) && i < j <= |es| && s < NR_TASKS && Parks(xs[i], es[i], s)
    requires forall m :: i < m < j ==> !Concerns(es[m], s)
    ensures xs[j].slot != s && ParkedOn(xs[j].mem[s], s, p)
  {
    assert Stepped(xs[i], es[i], xs[i + 1]);
    if es[i].Switch? {
      p := Suspended(ContextAt(xs[i], es[i].at));
    } else {
      p := Newborn;
      ForkedIsNewborn(xs[i].mem[xs[i].slot], s);
    }
    ParkedStackUntouched(xs, es, i + 1, j, s);
    StackIsParked(xs[i + 1].mem[s], xs[j].mem[s], s, p);
  }

  /** Round trip: whatever the other tasks do meanwhile, a task that was switched out by
      task_switch resumes just after that call, with the same stack pointer and the same
      ebx, esi, edi and ebp. */
  lemma ResumesWhereItLeft(xs: seq<State>, es: seq<Step>, i: nat, j: nat)
    requires Run(xs, es) && i < j < |es| && es[i].Switch? && es[j].Switch? && es[j].t == xs[i].slot
    requires forall m :: i < m < j ==> !Concerns(es[m], xs[i].slot)
    ensures ContextAt(xs[j + 1], es[j].pc) == ContextAt(xs[i], es[i].at)
  {
    var s := xs[i].slot;
    assert Stepped(xs[i], es[i], xs[i + 1]) && Stepped(xs[j], es[j], xs[j + 1]);
    var p := Suspended(ContextAt(xs[i], es[i].at));
    ParkedStackUntouched(xs, es, i + 1, j, s);
    StackIsParked(xs[i + 1].mem[s], xs[j].mem[s], s, p);
    ParkedOneWay(xs[j].mem[s], s, p, es[j].p);
  }

  /** fork returns twice: at its first dispatch the child goes on after the dispatch of
      the system call with %eax 0, and what it returns to user mode with is what its
      parent's frame held at the fork, but for the result. */
  lemma ChildReturnsFromFork(xs: seq<State>, es: seq<Step>, i: nat, j: nat, eax: Word)
    requires Run(xs, es) && i < j < |es| && es[i].Spawn? && es[j].Switch? && es[j].t == es[i].child
    requires forall m :: i < m < j ==> !Concerns(es[m], es[i].child)
    ensures es[j].pc == AfterDispatch && xs[j + 1].eax == Num(0) && xs[j + 1].esp == 1024 - 0x10
    ensures xs[j + 1].slot == es[i].child && xs[i].slot < NR_TASKS && es[i].child < NR_TASKS
    ensures Restored(xs[j + 1].mem[es[i].child], Num(0)) == Restored(xs[i].mem[xs[i].slot], eax).(eax := Num(0))
    ensures xs[j + 1].mem[es[i].child][1024 - 0x11..] == xs[i].mem[xs[i].slot][1024 - 0x11..]
  {
    var s := es[i].child;
    assert Stepped(xs[i], es[i], xs[i + 1]) && Stepped(xs[j], es[j], xs[j + 1]);
    var u := xs[i].mem[xs[i].slot];
    ForkedIsNewborn(u, s);
    ParkedStackUntouched(xs, es, i + 1, j, s);
    StackIsParked(xs[i + 1].mem[s], xs[j].mem[s], s, Newborn);
    ParkedOneWay(xs[j].mem[s], s, Newborn, es[j].p);
    assert forall k :: 1024 - 0x11 <= k < 1024 ==> xs[j + 1].mem[s][k] == u[k];
  }

  class Cpu {
    const mem: array<Union>
    var slot: nat
    var esp: int
    var eax: Word
    var ebx: Word
    var ecx: Word
    var edx: Word
    var esi: Word
    var edi: Word
    var ebp: Word
    var tssEsp0: Word
    var msr175: Word
    var cr3: Word

    constructor (mem: array<Union>, slot: nat)
      requires mem.Length == NR_TASKS && slot < NR_TASKS
      ensures this.mem == mem && this.slot == slot && esp == KERNEL_STACK_SIZE && Agreeing(View())
    {
      this.mem, this.slot, esp := mem, slot, 1024;
      eax, ebx, ecx, edx, esi, edi, ebp := Num(0), Num(0), Num(0), Num(0), Num(0), Num(0), Num(0);
      tssEsp0, msr175, cr3 := Ptr(slot, 1024), Ptr(slot, 1024), Dir(slot);
    }

    function View(): State
      requires mem.Length == NR_TASKS
      reads this, mem
    {
      State(mem[..], slot, esp, eax, ebx, ecx, edx, esi, edi, ebp, tssEsp0, msr175, cr3)
    }

    // -------------------------------------------------------------------------
    // Instructions
    // -------------------------------------------------------------------------

    /** pushl */
    method Push(w: Word)
      requires mem.Length == NR_TASKS && Room(slot, esp, 1)
      modifies this`esp, mem
      ensures esp == old(esp) - 1
      ensures mem[slot] == old(mem[slot])[esp := w]
      ensures forall s :: 0 <= s < NR_TASKS && s != slot ==> mem[s] == old(mem[s])
    {
      esp := esp - 1;
      mem[slot] := mem[slot][esp := w];
    }

    /** popl */
    method Pop() returns (w: Word)
      requires mem.Length == NR_TASKS && Room(slot, esp, 0) && esp < KERNEL_STACK_SIZE
      modifies this`esp
      ensures w == mem[slot][old(esp)] && esp == old(esp) + 1
    {
      w := mem[slot][esp];
      esp := esp + 1;
    }

    /** The word `k` words above the one %ebp points at. */
    method AtEbp(k: nat) returns (w: Word)
      requires mem.Length == NR_TASKS && ebp.Ptr? && ebp.slot < NR_TASKS && 0 <= ebp.idx && ebp.idx + k < 1024
      ensures w == mem[ebp.slot][ebp.idx + k]
    {
      w := mem[ebp.slot][ebp.idx + k];
    }

    /** A call of a C function: it may leave anything in %eax, %ecx and %edx, below the
        stack pointer, and in the statistics of the running task. */
    method CallC()
      requires mem.Length == NR_TASKS && Room(slot, esp, 0)
      modifies this`eax, this`ecx, this`edx, mem
      ensures forall s :: 0 <= s < NR_TASKS && s != slot ==> mem[s] == old(mem[s])
      ensures AgreeFrom(old(mem[slot]), mem[slot], esp)
    {
      eax, ecx, edx := *, *, *;
      var junk: Union :| true;
      var u := mem[slot];
      mem[slot] := u[..KERNEL_ESP_WORD + 1] + junk[KERNEL_ESP_WORD + 1..esp] + u[esp..];
    }

    // -------------------------------------------------------------------------
    // task_switch and inner_task_switch
    // -------------------------------------------------------------------------

    /** The call of task_switch and its pushes of %ebp, %esi, %edi and %ebx. */
    method PushCallee(at: Target)
      requires mem.Length == NR_TASKS && Room(slot, esp, 16)
      modifies this`esp, this`ebp, mem
      ensures esp == old(esp) - 5 && ebp == Ptr(slot, esp + 3)
      ensures forall s :: 0 <= s < NR_TASKS && s != slot ==> mem[s] == old(mem[s])
      ensures mem[slot] == old(mem[slot])[esp + 4 := Code(at)][esp + 3 := old(ebp)][esp + 2 := esi][esp + 1 := edi][esp := ebx]
    {
      Push(Code(at));
      Push(ebp);
      ebp := Ptr(slot, esp);
      Push(esi);
      Push(edi);
      Push(ebx);
    }

    /** From the call of task_switch to the first two instructions of inner_task_switch. */
    method EnterSwitch(ghost t: nat, at: Target)
      requires mem.Length == NR_TASKS && Room(slot, esp, 16) && esp < KERNEL_STACK_SIZE && mem[slot][esp] == Ptr(t, 0)
      modifies this`esp, this`ebp, mem
      ensures esp == old(esp) - 8 && ebp == Ptr(slot, esp)
      ensures forall s :: 0 <= s < NR_TASKS && s != slot ==> mem[s] == old(mem[s])
      ensures Frame(mem[slot], slot, old(ContextAt(View(), at))) && mem[slot][esp + 2] == Ptr(t, 0)
      ensures AgreeFrom(old(mem[slot]), mem[slot], old(esp))
    {
      PushCallee(at);
      var arg := AtEbp(2);
      Push(arg);
      Push(Code(AfterInner));
      Push(ebp);
      ebp := Ptr(slot, esp);
    }

    /** writeMSR, with its two arguments on the stack */
    method WriteMsr(ghost value: Word)
      requires mem.Length == NR_TASKS && Room(slot, esp, 4) && esp < KERNEL_STACK_SIZE - 1
      requires mem[slot][esp] == Num(0x175) && mem[slot][esp + 1] == value
      modifies this`esp, this`ebp, this`eax, this`ecx, this`edx, this`msr175, mem
      ensures esp == old(esp) && ebp == old(ebp) && msr175 == value
      ensures forall s :: 0 <= s < NR_TASKS && s != slot ==> mem[s] == old(mem[s])
      ensures AgreeFrom(old(mem[slot]), mem[slot], esp)
    {
      Push(Code(Site(0)));
      Push(ebp);
      ebp := Ptr(slot, esp);
      ecx := AtEbp(2);
      eax := AtEbp(3);
      edx := Num(0);
      if ecx == Num(0x175) {
        msr175 := eax;
      }
      ebp := Pop();
      var _ := Pop();
    }

    /** The running task is inside inner_task_switch: %ebp and %esp at the saved %ebp, the
        argument two words up. */
    ghost predicate InInner(t: nat)
      reads this, mem
    {
      && mem.Length == NR_TASKS && Room(slot, esp, 8) && esp + 2 < KERNEL_STACK_SIZE && ebp == Ptr(slot, esp)
      && mem[slot][esp + 2] == Ptr(t, 0) && t < NR_TASKS && t != slot
    }

    /** inner_task_switch: tss.esp0 and MSR 0x175 get the new kernel stack. */
    method AnnounceStack(ghost t: nat)
      requires InInner(t)
      modifies this`esp, this`ebp, this`eax, this`ecx, this`edx, this`tssEsp0, this`msr175, mem
      ensures InInner(t) && esp == old(esp) && tssEsp0 == Ptr(t, 1024) && msr175 == Ptr(t, 1024)
      ensures forall s :: 0 <= s < NR_TASKS && s != slot ==> mem[s] == old(mem[s])
      ensures AgreeFrom(old(mem[slot]), mem[slot], esp)
    {
      edx := AtEbp(2);
      ecx := Ptr(edx.slot, 1024);
      tssEsp0 := ecx;
      Push(ecx);
      Push(Num(0x175));
      WriteMsr(Ptr(t, 1024));
      esp := esp + 2;
    }

    /** inner_task_switch: set_cr3 of the new task's directory. */
    method LoadDirectory(ghost t: nat)
      requires InInner(t)
      modifies this`esp, this`eax, this`ecx, this`edx, this`cr3, mem
      ensures InInner(t) && esp == old(esp) && cr3 == old(mem[t][DIR_WORD])
      ensures forall s :: 0 <= s < NR_TASKS && s != slot ==> mem[s] == old(mem[s])
      ensures AgreeFrom(old(mem[slot]), mem[slot], esp)
    {
      edx := AtEbp(2);
      Push(mem[edx.slot][DIR_WORD]);
      cr3 := mem[slot][esp];
      CallC();
      esp := esp + 1;
    }

    /** inner_task_switch: the old task's kernel_esp is saved, the new one's loaded. */
    method SwapEsp(ghost t: nat)
      requires InInner(t) && mem[t][KERNEL_ESP_WORD].Ptr? && mem[t][KERNEL_ESP_WORD].slot == t
      modifies this`slot, this`esp, this`eax, this`ecx, this`edx, mem
      ensures slot == t && Ptr(t, esp) == mem[t][KERNEL_ESP_WORD]
      ensures forall s :: 0 <= s < NR_TASKS && s != old(slot) ==> mem[s] == old(mem[s])
      ensures AgreeButEsp(old(mem[slot]), mem[old(slot)], old(esp))
      ensures mem[old(slot)][KERNEL_ESP_WORD] == Ptr(old(slot), old(esp))
    {
      CallC();                                  // current
      eax := Ptr(slot, 0);
      mem[eax.slot] := mem[eax.slot][KERNEL_ESP_WORD := ebp];
      edx := AtEbp(2);
      var saved := mem[edx.slot][KERNEL_ESP_WORD];
      slot, esp := saved.slot, saved.idx;
    }

    /** inner_task_switch up to the change of stacks. */
    method ChangeStacks(ghost t: nat)
      requires InInner(t)
      requires mem[t][DIR_WORD] == Dir(t) && mem[t][KERNEL_ESP_WORD].Ptr? && mem[t][KERNEL_ESP_WORD].slot == t
      modifies this`slot, this`esp, this`ebp, this`eax, this`ecx, this`edx, this`tssEsp0, this`msr175, this`cr3, mem
      ensures slot == t && Ptr(t, esp) == mem[t][KERNEL_ESP_WORD]
      ensures tssEsp0 == Ptr(t, 1024) && msr175 == Ptr(t, 1024) && cr3 == Dir(t)
      ensures forall s :: 0 <= s < NR_TASKS && s != old(slot) ==> mem[s] == old(mem[s])
      ensures AgreeButEsp(old(mem[slot]), mem[old(slot)], old(esp))
      ensures mem[old(slot)][KERNEL_ESP_WORD] == Ptr(old(slot), old(esp))
    {
      CallC();                                  // sys_to_user_ready
      AnnounceStack(t);
      LoadDirectory(t);
      SwapEsp(t);
    }

    /** The epilogue of task_switch. */
    method PopCallee(ghost x: Context) returns (pc: Target)
      requires mem.Length == NR_TASKS && slot < NR_TASKS && Frame(mem[slot], slot, x) && esp == x.esp - 6
      modifies this`esp, this`ebx, this`esi, this`edi, this`ebp
      ensures ContextAt(View(), pc) == x
    {
      esp := esp + 1;
      ebx := Pop();
      edi := Pop();
      esi := Pop();
      ebp := Pop();
      var to := Pop();
      pc := to.to;
    }

    /** What inner_task_switch pops decides where control goes: to the epilogue of
        task_switch, to ret_from_fork, or to cpu_idle. */
    method PopToTask(ghost p: Parked) returns (pc: Target)
      requires mem.Length == NR_TASKS && slot < NR_TASKS && ParkedOn(mem[slot], slot, p) && esp == SavedEsp(p)
      modifies this`esp, this`eax, this`ebx, this`esi, this`edi, this`ebp
      ensures Arrives(p, View(), pc)
    {
      ghost var u := mem[slot];
      assert u[esp + 1] == Code(match p case Suspended(_) => AfterInner case Newborn => RetFromFork case IdleTask => CpuIdle);
      ebp := Pop();
      var to := Pop();
      pc := to.to;
      if pc == AfterInner {
        pc := PopCallee(p.x);
      } else if pc == RetFromFork {
        eax := Num(0);
        to := Pop();
        pc := to.to;
      }
    }

    /** The rest of inner_task_switch and of task_switch, on the new stack. */
    method LeaveSwitch(ghost p: Parked) returns (pc: Target)
      requires mem.Length == NR_TASKS && slot < NR_TASKS && ParkedOn(mem[slot], slot, p) && esp == SavedEsp(p)
      modifies this`esp, this`eax, this`ebx, this`ecx, this`edx, this`esi, this`edi, this`ebp, mem
      ensures Arrives(p, View(), pc)
      ensures forall s :: 0 <= s < NR_TASKS && s != slot ==> mem[s] == old(mem[s])
      ensures AgreeFrom(old(mem[slot]), mem[slot], SavedEsp(p))
    {
      CallC();                                  // ready_to_sys
      assert ParkedOn(mem[slot], slot, p);
      pc := PopToTask(p);
    }

    /** A whole switch. */
    method TaskSwitch(ghost t: nat, ghost p: Parked, at: Target) returns (pc: Target)
      requires mem.Length == NR_TASKS && CanCall(View(), t, p)
      modifies this, mem
      ensures Switched(old(View()), t, p, at, View(), pc)
    {
      EnterSwitch(t, at);
      ChangeStacks(t);
      pc := LeaveSwitch(p);
    }

    // -------------------------------------------------------------------------
    // syscall_handler_sysenter and the stack of a child
    // -------------------------------------------------------------------------

    /** A row of pushl instructions. */
    method PushAll(ws: seq<Word>)
      requires mem.Length == NR_TASKS && Room(slot, esp, |ws|)
      modifies this`esp, mem
      ensures esp == old(esp) - |ws|
      ensures forall s :: 0 <= s < NR_TASKS && s != slot ==> mem[s] == old(mem[s])
      ensures forall k :: 0 <= k < 1024 ==>
                mem[slot][k] == if esp <= k < old(esp) then ws[old(esp) - 1 - k] else old(mem[slot])[k]
    {
      for i := 0 to |ws|
        invariant esp == old(esp) - i
        invariant forall s :: 0 <= s < NR_TASKS && s != slot ==> mem[s] == old(mem[s])
        invariant forall k :: 0 <= k < 1024 ==>
                    mem[slot][k] == if esp <= k < old(esp) then ws[old(esp) - 1 - k] else old(mem[slot])[k]
      {
        Push(ws[i]);
      }
    }

    /** The sixteen words of the handler frame: five for the return, and SAVE_ALL. */
    method SaveFrame(eip: Word, flags: Word, ds: Word, es: Word, fs: Word, gs: Word)
      requires mem.Length == NR_TASKS && slot < NR_TASKS && esp == KERNEL_STACK_SIZE
      modifies this`esp, mem
      ensures esp == 1024 - 0x10
      ensures mem[slot][1008..] == [ebx, ecx, edx, esi, edi, ebp, eax, ds, es, fs, gs, eip, USER_CS, flags, ebp, USER_DS]
    {
      PushAll([USER_DS, ebp, flags, USER_CS, eip]);
      PushAll([gs, fs, es, ds, eax, ebp, edi, esi, edx, ecx, ebx]);
    }

    /** sysenter up to the call through sys_call_table: the frame, and the return address of
        the dispatch if the call number is accepted. The process has its stack pointer in
        %ebp and its return address `eip` above it. */
    method SysenterEntry(eip: Word, flags: Word, ds: Word, es: Word, fs: Word, gs: Word) returns (accepted: bool)
      requires mem.Length == NR_TASKS && slot < NR_TASKS && esp == KERNEL_STACK_SIZE && eax.Num?
      modifies this`esp, this`eax, this`ecx, this`edx, mem
      ensures accepted <==> 0 <= old(eax).n <= MAX_SYSCALL
      ensures accepted ==> (NamesEntry(old(eax).n) <==> old(eax).n != MAX_SYSCALL)
      ensures if accepted then InCall(View()) && esp == 1024 - 0x11 && eax == old(eax)
              else esp == 1024 - 0x10 && eax == Num(-ENOSYS)
      ensures mem[slot][1008..] == [ebx, old(ecx), old(edx), esi, edi, ebp, old(eax), ds, es, fs, gs,
                                    eip, USER_CS, flags, ebp, USER_DS]
      ensures forall result :: Restored(mem[slot], result)
                == User(result, ebx, esi, edi, ebp, eip, ebp, ds, es, fs, gs)
    {
      SaveFrame(eip, flags, ds, es, fs, gs);
      ghost var frame := mem[slot][1008..];
      if eax.n < 0 || eax.n > MAX_SYSCALL {
        eax := Num(-ENOSYS);
        accepted := false;
      } else {
        DispatchCall();
        accepted := true;
      }
      assert mem[slot][1008..] == frame;
      FrameRestores(mem[slot], frame);
    }

    /** The statistics of an accepted call, and the return address of its dispatch. */
    method DispatchCall()
      requires mem.Length == NR_TASKS && slot < NR_TASKS && esp == 1024 - 0x10
      modifies this`esp, this`eax, this`ecx, this`edx, mem
      ensures InCall(View()) && esp == 1024 - 0x11 && eax == old(eax)
      ensures forall k :: 1008 <= k < 1024 ==> mem[slot][k] == old(mem[slot])[k]
    {
      Push(eax);
      CallC();                                  // user_to_sys
      eax := Pop();
      Push(Code(AfterDispatch));
    }

    /** From the return of the dispatch to sysexit. */
    method SysenterExit() returns (u: User)
      requires mem.Length == NR_TASKS && slot < NR_TASKS && esp == 1024 - 0x10
      modifies this, mem
      ensures u == Restored(old(mem[slot]), old(eax)) && slot == old(slot)
      ensures eax == u.eax && ebx == u.ebx && esi == u.esi && edi == u.edi && ebp == u.ebp && edx == u.eip && ecx == u.esp
    {
      Push(eax);
      CallC();                                  // sys_to_user_ready
      eax := Pop();
      u := SysenterFin();
    }

    /** sysenter_fin, where a refused call number leads directly. */
    method SysenterFin() returns (u: User)
      requires mem.Length == NR_TASKS && slot < NR_TASKS && esp == 1024 - 0x10
      modifies this, mem
      ensures u == Restored(old(mem[slot]), old(eax)) && slot == old(slot)
      ensures eax == u.eax && ebx == u.ebx && esi == u.esi && edi == u.edi && ebp == u.ebp && edx == u.eip && ecx == u.esp
    {
      mem[slot] := mem[slot][esp + 6 := eax];
      u := RestoreAll();
    }

    /** The general registers of RESTORE_ALL. */
    method PopGeneral()
      requires mem.Length == NR_TASKS && slot < NR_TASKS && esp == 1024 - 0x10
      modifies this`esp, this`eax, this`ebx, this`ecx, this`edx, this`esi, this`edi, this`ebp
      ensures esp == 1015 && eax == mem[slot][1014] && ebx == mem[slot][1008]
      ensures esi == mem[slot][1011] && edi == mem[slot][1012] && ebp == mem[slot][1013]
    {
      ebx := Pop();
      ecx := Pop();
      edx := Pop();
      esi := Pop();
      edi := Pop();
      ebp := Pop();
      eax := Pop();
    }

    /** RESTORE_ALL and the two loads before sysexit. */
    method RestoreAll() returns (u: User)
      requires mem.Length == NR_TASKS && slot < NR_TASKS && esp == 1024 - 0x10
      modifies this`esp, this`eax, this`ebx, this`ecx, this`edx, this`esi, this`edi, this`ebp
      ensures u == Restored(mem[slot], mem[slot][1014])
      ensures eax == u.eax && ebx == u.ebx && esi == u.esi && edi == u.edi && ebp == u.ebp && edx == u.eip && ecx == u.esp
    {
      PopGeneral();
      var ds := Pop();
      var es := Pop();
      var fs := Pop();
      var gs := Pop();
      edx := mem[slot][esp];
      ecx := mem[slot][esp + 3];
      u := User(eax, ebx, esi, edi, ebp, edx, ecx, ds, es, fs, gs);
    }

    /** fork, steps b, c and h: the child's union. */
    method ForkStack(child: nat)
      requires mem.Length == NR_TASKS && InCall(View()) && child < NR_TASKS && child != slot
      modifies mem
      ensures Stepped(old(View()), Spawn(child), View())
      ensures ParkedOn(mem[child], child, Newborn)
    {
      ForkedIsNewborn(mem[slot], child);
      mem[child] := mem[slot];
      mem[child] := mem[child][DIR_WORD := Dir(child)];
      mem[child] := mem[child][1024 - 0x13 := Num(0)];
      mem[child] := mem[child][1024 - 0x12 := Code(RetFromFork)];
      mem[child] := mem[child][KERNEL_ESP_WORD := Ptr(child, 1024 - 0x13)];
      assert mem[..] == old(mem[..])[child := mem[child]];
    }
  }
}
