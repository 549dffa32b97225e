# zeOS: the kernel's shared structures, modelled and proved in Dafny

zeOS is a teaching kernel for one 32-bit CPU. This project models the structures that
its system calls and its clock interrupt change together, and proves what every run of
them keeps.

* **Queues.** `Rings` and `TaskQueues` are the intrusive doubly linked rings of `list.c`
  over the ten task nodes, on the heap, with their `next`/`prev` assignments; ghost
  sequences say what the rings represent.
* **Memory.** `Frames`, `Paging` and `SysMemory` are the byte map of frames, the page
  tables and physical memory as arrays, with the loops of boot, `fork`, `exit` and
  `sbrk`; the copy that `fork` makes goes through temporary mappings in the parent's
  table, and the translation is explicit. `AddressSpace`, `HeapSpace` and
  `Conservation` say what these loops do and what they keep; `Ledger` counts the used
  frames in every run, and `PrivateMemory` says what a task reads in every run.
* **Scheduler and regulator.** `Scheduler`, `Regulator` and `Pacing` are the two-class
  round robin, the frame-rate regulator, and the two running against each other;
  `Contention` and `RegulatorRuns` say when the regulator survives what other tasks do;
  `RoundRobin` is the pattern of tasks of nice 1 among themselves.
* **The kernel.** `SystemCalls` joins memory, scheduler and regulator into one state with
  one step per call; `Runs` proves what holds in every run from boot; `Machine` is the
  code that changes the structures in place, proved against these steps. `TaskHistory`
  and `Screens` tell answers, breaks, classes, PIDs, turns and printed screens from the
  calls of a run alone. `Instances` are calls from boot on which the code fails.
* **Context switch.** `ContextSwitch` runs `task_switch`, `inner_task_switch` and the
  `sysenter` handler push by push on the task unions, and proves the round trip over
  arbitrary interleavings; `Dispatch` joins it to the kernel: whatever task the scheduler
  chooses can be resumed.
* **Keyboard buffer and tick accounting.** `Keyboard` and `Accounting`.

`dafny verify dfyconfig.toml` checks the whole project.

Where the code does not keep a property on all inputs, the code is kept as it is and the
exact condition is proved, for all inputs:

* A growth of the heap that ends on a page boundary maps one page more than `fork` and
  `exit` count (`sys.c:285-288` against `sys.c:79`, `sys.c:163`). Isolation and coverage
  hold regardless; exact accounting is kept by an `sbrk` if and only if it is not such a
  growth, with frames for it (`Conservation.SbrkKeepsExactIff`,
  `Runs.SbrkKeepsExactKernelIff`; from boot, `Instances.GrowByOnePage`). In every run
  the used frames exceed the counted ones by the number of such growths whose extra page
  no shrinking `sbrk` gave back (`Ledger.LedgerOfEveryRun`), and the accounting is exact
  if and only if that number is 0 (`Ledger.ExactIffAllGivenBack`).
* `brk + n` is unsigned 32-bit arithmetic (`sys.c:304`). `sbrk` keeps the memory
  invariant if and only if the sum does not wrap below zero
  (`HeapSpace.SbrkKeepsVmInvIff`; from boot, `sbrk(1)` and `sbrk(-0x200000)` break it,
  `Instances.ShrinkBelowZero`).
* `sched_next_rr` takes the first task of a queue without testing the queue
  (`sched.c:166-174`). A switch finds a task if and only if some runnable task has
  nice 1 (`Scheduler.SwitchFindsTaskIff`), and `fork`, `exit` and `set_fps` keep that
  condition exactly when their guards hold (`SystemCalls.StepKeepsKInvIff`). After
  `set_fps` and `fork` by the first process the next tick takes the head of the ready
  queue (`Instances.ForkAfterSetFps`).
* The countdown of the regulator passes through the value -1 that also means "off". It
  stays armed under any number of interrupts, the tasks staying as they are, if and only
  if `Pacing.Armed` holds of its present value (`Pacing.StaysArmedIff`). In every
  reachable state a call of `set_fps` that keeps the queues safe leaves it armed in that
  sense if and only if no other task of nice 0 waits (`Contention.SetFpsArmsInEveryRun`);
  two forks, `set_fps`, a tick and `set_fps` by the child lead to a state where one does
  (`Instances.SecondRegulatorDisarms`). When tasks come and go, each call of a run keeps
  the regulator armed if and only if `RegulatorRuns.KeepsArmed` holds of it
  (`RegulatorRuns.StepKeepsArmedIff`, over runs `RegulatorRuns.ArmedInEveryRunIff`): a
  fork, an exit or `set_fps(-1)` by the regulated task, a `set_fps` by another one, and
  the exit of another task while a third is ready and the countdown does not suit a turn
  that starts at once, do not keep it. The last happens from boot with two forks,
  `set_fps`, a tick and the exit of the child (`Instances.ExitOfChildDisarms`), without a
  second task of nice 0.
* `syscall_handler_sysenter` accepts the call numbers 0 to 36, and `sys_call_table` has
  the entries 0 to 35 (`ContextSwitch.Cpu.SysenterEntry`).

The clock routine (`interrupt.c:124-130`) calls `schedule_fps` before `schedule`. The
results of `Pacing` and `Contention`, and `RegulatorRuns.ExitOfOtherArmsIff`, are proved
for that order and for the opposite one; runs of the whole kernel take the code's order.

## Model

| member | source | states |
|---|---|---|
| Rings.InitListHead | zeOS/list.c:6-10 | the node becomes the head of an empty ring |
| Rings.ListAddBetween | zeOS/list.c:18-26 | the four links are set, also when both neighbours are one node |
| Rings.ListAdd | zeOS/list.c:36-39 | the ring of q becomes the ring of [node] + q, next and prev inverse all round |
| Rings.ListAddTail | zeOS/list.c:50-53 | the ring of q becomes the ring of q + [node] |
| Rings.ListDel | zeOS/list.c:62-79 | the ring loses exactly its i-th entry, whose links become NULL |
| Rings.ListEmpty | zeOS/list.c:96-99 | true exactly when the represented sequence is empty |
| Rings.ListFirst | zeOS/include/list.h:131-132 | the first entry, or the head itself when the ring is empty |
| TaskQueues.TaskRings.InitQueues | zeOS/sched.c:117-129 | three well-formed rings; the free one holds the slots 9 down to 0 |
| TaskQueues.TaskRings.UnlinkedIffInNoRing | zeOS/sched.c:155-161 | a task is in no ring exactly when both its links are NULL |
| TaskQueues.TaskRings.Push | zeOS/list.c:36-39 | list_add of a task: front of the chosen queue, the other two rings and all unqueued nodes untouched |
| TaskQueues.TaskRings.Append | zeOS/list.c:50-53 | list_add_tail of a task: back of the chosen queue, the rest untouched |
| TaskQueues.TaskRings.Delete | zeOS/list.c:74-79 | the task leaves whichever of the three queues holds it, links NULL |
| TaskQueues.TaskRings.TakeFirst | zeOS/sys.c:67-69 | the first task of a queue leaves it and is in no queue |
| TaskQueues.TaskRings.CopyLinks | zeOS/sys.c:72 | copying the task structure leaves all rings as they were |
| TaskQueues.TaskRings.UpdateProcessState | zeOS/sched.c:155-164 | the links decide whether the task leaves a ring; then it is last in the destination, or in no ring when that is null |
| Frames.InitFrames | zeOS/mm.c:195-207 | exactly the 256 kernel frames are used |
| Frames.FirstFree | zeOS/mm.c:211-224 | the least free even frame from a position on, or -1 when all are used |
| Frames.AllocFrame | zeOS/mm.c:211-224 | returns the least free even frame from 256 and marks it, or -1 and changes nothing |
| Frames.FreeFrame | zeOS/mm.c:239-243 | frees frames strictly between 256 and 1024, no other entry changes |
| Frames.FreedOnlyAbove | zeOS/mm.c:239-243 | a frame becomes free only if it is the one passed and lies above 256 |
| Frames.AllocNFresh | zeOS/sys.c:83-93 | frames taken by a loop of alloc_frame were free, are even and at least 256, and all different |
| Frames.AllocNSucceedsIff | zeOS/sys.c:83-93 | a loop of n calls succeeds exactly when n frames can be handed out |
| Frames.FreeFrames | zeOS/sys.c:88 | the roll-back restores the byte map |
| Frames.AllocFrames | zeOS/sys.c:83-93 | either n frames are marked used, or the byte map is exactly as before |
| Paging.InitTablePages | zeOS/mm.c:55-73 | every table maps the kernel pages 1 to 255 onto themselves and nothing else |
| Paging.SetSsPag | zeOS/mm.c:246-254 | one entry of one table is set, nothing else |
| Paging.DelSsPag | zeOS/mm.c:257-260 | one entry of one table becomes zero, nothing else |
| Paging.GetFrame | zeOS/mm.c:263-265 | the frame field of the page's entry |
| Paging.CopyData | zeOS/utils.c:6-20 | through a page table: the destination range holds the bytes of the source range, all other memory is unchanged |
| Paging.CopiedPage | zeOS/utils.c:6-20 | copying a whole page makes the destination frame equal to the source frame |
| Layout.HeapPagesIsCeiling | zeOS/sys.c:78-80 | the heap pages fork and exit count are the heap size in pages, rounded up |
| AddressSpace.TableBound | zeOS/sys.c:120-126 | mapped pages of a task and frames just taken number at most 376 together |
| AddressSpace.ForkBounds | zeOS/sys.c:113-126 | every table index a fork writes, temporary ones included, is below 640 |
| AddressSpace.ForkKeepsVmInv | zeOS/sys.c:101-130 | fork keeps isolation, frame marking, kernel and code pages and coverage, for parent, child and everybody else |
| AddressSpace.ForkCopies | zeOS/sys.c:113-130 | on every counted page the child reads what the parent reads, and the parent what it read before, in the same frames |
| AddressSpace.ForkSparesOthers | zeOS/sys.c:113-130 | no other live task reads anything different after a fork |
| HeapSpace.ReleasedFramesAreFreed | zeOS/mm.c:239-243 | each frame exit or sbrk passes to free_frame is above 256 and gets freed, or is 0 from an unmapped page |
| HeapSpace.ExitKeepsVmInv | zeOS/sys.c:160-169 | exit keeps the memory invariant for the remaining tasks |
| HeapSpace.SpanStartsAfterCounted | zeOS/sys.c:285-300 | sbrk's page arithmetic: it starts after the counted pages of the lower break and ends with the page of the higher one |
| HeapSpace.GrowBounds | zeOS/sys.c:291-301 | every table index sbrk writes is below 640 |
| HeapSpace.SbrkKeepsVmInvIff | zeOS/sys.c:274-318 | sbrk keeps isolation and coverage exactly when brk+n does not wrap below zero |
| HeapSpace.HeapCovered | zeOS/sys.c:274-318 | every byte between the heap start and the break is on a mapped page |
| HeapSpace.SbrkKeepsContents | zeOS/sys.c:274-318 | bytes below both breaks keep their values, and other tasks read what they read |
| HeapSpace.WriteIsPrivate | zeOS/sys.c:113-118 | a write to a data, stack or heap page is read back by the writer at that address only, and by no other task |
| Conservation.ForkKeepsExact | zeOS/sys.c:78-93 | fork keeps exact frame accounting |
| Conservation.ExitKeepsExact | zeOS/sys.c:162-169 | exit keeps exact frame accounting |
| Conservation.GrowthMaps | zeOS/sys.c:283-302 | a growth maps the heap through the page of the new break: one page more than counted when the break is a boundary |
| Conservation.GrowthSucceedsIff | zeOS/sys.c:283-302 | a growth succeeds exactly when the pages it needs do not outnumber the free frames |
| Conservation.SbrkKeepsExactIff | zeOS/sys.c:283-315 | sbrk keeps exact accounting exactly when it is not a growth to a page boundary for which there are frames |
| Conservation.BoundaryGrowthMapsOneMore | zeOS/sys.c:285-288 | with two frames free, growing an empty heap by 4096 maps 22 pages where 21 are counted |
| Conservation.UsedFramesAreAccounted | zeOS/mm.c:195-243 | the used frames number 256 + 8 + the pages counted for the live tasks |
| SysMemory.FillChildTable | zeOS/sys.c:101-118 | the child's whole table: kernel and code of the parent, then its own frames, old entries past them |
| SysMemory.CopyPageOver | zeOS/sys.c:123-126 | map, copy and unmap of one page: its effect on the parent's table and on memory |
| SysMemory.CopyPages | zeOS/sys.c:121-129 | all counted pages are copied to the new frames, from contents no earlier copy has touched |
| SysMemory.ForkMemory | zeOS/sys.c:77-130 | the memory side of fork: all of its effect, or none when frames are missing |
| SysMemory.ReleasePages | zeOS/sys.c:165-169 | the release loop frees and unmaps exactly the frames of the range |
| SysMemory.ExitMemory | zeOS/sys.c:160-169 | the memory side of exit, through the page arithmetic of the code |
| SysMemory.SbrkMemory | zeOS/sys.c:274-318 | sys_sbrk on the arrays: new state, new break and return value, in all branches |
| SysMemory.SetUserPages | zeOS/mm.c:78-103 | the first process's pages get frames 256, 258, ... in order, code first |
| Scheduler.SomeLowIff | zeOS/sched.c:169-173 | some runnable task has nice 1 exactly when the running one has or the ready queue is not empty |
| Scheduler.SwitchFindsTaskIff | zeOS/sched.c:166-179 | with somebody waiting, a switch finds a task exactly when some runnable task has nice 1 |
| Scheduler.ScheduleKeepsInv | zeOS/sched.c:181-191 | schedule never takes a queue head, keeps the partition and the queue classes, and re-establishes the safety condition |
| Scheduler.SwitchChangesTask | zeOS/sched.c:166-179 | a switch never dispatches the task that leaves the CPU |
| Scheduler.SpawnKeepsInvIff | zeOS/sys.c:133-150 | fork keeps the scheduler safe exactly when the running task has nice 1 or a ready task exists |
| Scheduler.ExitKeepsInvIff | zeOS/sys.c:171-173 | exit finds a successor and leaves the scheduler safe exactly under its guard |
| Scheduler.SetNiceKeepsInvIff | zeOS/sys.c:249-262 | set_fps keeps the scheduler safe exactly under its guard |
| Scheduler.DispatchedAfterWait | zeOS/sched.c:145-191 | a task at position p of a run queue is first dispatched by an exactly known switch, at most 2(p+1), later for later positions |
| Regulator.Globals.TickFps | zeOS/sched.c:193-202 | schedule_fps on the globals |
| Regulator.Globals.SysPutScreen | zeOS/sys.c:233-247 | sys_put_screen on the globals, with its return value |
| Regulator.Globals.SysSetFps | zeOS/sys.c:249-262 | sys_set_fps on the globals, with its return value |
| Regulator.ShownIsBounded | zeOS/sys.c:233-262 | while armed, at most f * (1 + t/18) screens are shown in t ticks after set_fps(f), for any run |
| Regulator.ShownAtLeast | zeOS/sys.c:233-262 | in any run in which each allowance is used up before the next, with the countdown within its period, at least f * (t/18 - 1) screens are shown in t ticks |
| Regulator.PutScreenAnswers | zeOS/sys.c:233-247 | put_screen returns 1 exactly when it has printed the screen; a regulated process told 0 has that screen pending |
| Regulator.RefillPrintsPending | zeOS/sched.c:196-201 | a refill prints the pending screen once, out of the new allowance, and leaves none pending |
| Regulator.LatestScreen | zeOS/sched.c:193-202 | in every run the last screen the process handed over is pending, or the last one printed for it |
| Regulator.PrintedAtRefill | zeOS/sched.c:196-201 | after each refill of a positive allowance the last screen handed over has been printed |
| Regulator.OffPrintsAll | zeOS/sys.c:249-254 | after set_fps(-1) every screen is printed at once, in order, and nothing else changes |
| Screens.KernelRunsRegulator | zeOS/sys.c:233-262 | between two calls of set_fps the kernel's regulator is the run of its ticks and screens |
| Screens.LatestScreenInEveryRun | zeOS/sched.c:193-202 | in every run of the kernel the last screen handed over is pending, or the last one printed for the process |
| Pacing.ClockRoutineIsTick | zeOS/sched.c:181-202 | schedule_fps followed by schedule is the tick of the results on pacing |
| Pacing.PacedTick | zeOS/sched.c:140-191 | a tick moves the 15 + 3 pattern one place forward |
| Pacing.CpuShare | zeOS/sched.c:166-179 | from a dispatch of the nice-0 task: 15 ticks for it, 3 for the first ready task, then again, the ready queue rotated by one |
| RoundRobin.LowRoundRobin | zeOS/sched.c:140-191 | with tasks of nice 1 only, each in queue order has the CPU for 15 ticks, and the state recurs after a round |
| Pacing.NeverDisarms | zeOS/sched.c:193-202 | with a fixed set of tasks: after set_fps at any remaining quantum, with no other nice-0 task, no run of ticks, screens and further calls leaves the countdown at -1, for either order within a tick |
| Pacing.UnarmedDisarms | zeOS/sched.c:193-197 | a countdown outside the condition is at -1 after exactly that many interrupts plus one |
| Pacing.StaysArmedIff | zeOS/sched.c:193-202 | the countdown stays armed for ever exactly when Armed holds of it |
| Pacing.RateIsKept | zeOS/sys.c:233-262 | with the nice-0 task paced, the rate bound holds for every run |
| Pacing.RateIsGuaranteed | zeOS/sched.c:193-202 | with the nice-0 task paced and using up its allowance, the lower bound holds for every run of ticks and screens |
| Contention.QuantaInEveryRun | zeOS/sched.c:176-177 | in every run each runnable task has quantum 3 and no turn is longer than 15 ticks |
| Contention.OffFor21 | zeOS/sched.c:145-191 | with another nice-0 task waiting, the running one is off the CPU for at least 21 ticks after its turn |
| Contention.ContendedDisarms | zeOS/sched.c:193-202 | with another nice-0 task waiting, the countdown set_fps starts is at -1 after 19 interrupts, for either order |
| Contention.SetFpsArmsIff | zeOS/sys.c:249-262 | set_fps leaves the regulator armed for any number of interrupts, the set of tasks fixed, exactly when no other nice-0 task waits |
| Contention.SetFpsArmsInEveryRun | zeOS/sys.c:249-262 | the same for every call of set_fps in every run from boot, the set of tasks fixed from then on |
| Contention.ContendedNeverStaysArmed | zeOS/sched.c:193-202 | with another nice-0 task waiting no countdown stays armed |
| RegulatorRuns.ForkIsPaced | zeOS/sys.c:148-150 | a fork by a nice-1 task leaves the 15 + 3 pattern and its phase as they are |
| RegulatorRuns.ExitOfOtherArmsIff | zeOS/sys.c:171-173 | the exit of a nice-1 task leaves the regulator armed exactly when no other task is ready or the countdown suits the start of a turn |
| RegulatorRuns.StepKeepsArmedIff | zeOS/sched.c:193-202 | each call keeps the regulator armed, with the tasks there then are, exactly under its condition |
| RegulatorRuns.SetFpsRegulates | zeOS/sys.c:249-262 | in every run a set_fps with no other nice-0 task starts a regulated stretch |
| RegulatorRuns.ArmedInEveryRunIff | zeOS/sched.c:193-202 | over every run of forks, exits, sbrk, stores, screens, set_fps and ticks the regulator is armed throughout exactly when each call meets its condition |
| Instances.SecondRegulatorDisarms | zeOS/sys.c:249-262 | a run from boot in which the second caller of set_fps ends up disarmed |
| Instances.ExitOfChildDisarms | zeOS/sys.c:171-173 | a run from boot in which the exit of a nice-1 task disarms the regulator |
| SystemCalls.ForkFailsIff | zeOS/sys.c:61-93 | fork fails exactly without a free slot or without enough frames; then memory, queues in order, live tasks and nextPID are as before |
| SystemCalls.SbrkFailsIff | zeOS/sys.c:279-298 | sbrk fails exactly on shrinking an empty heap or when frames are missing; then nothing changes |
| TaskHistory.ForkAnswers | zeOS/sys.c:65-93 | -EAGAIN exactly without a free slot, -ENOMEM exactly with one and too few frames, else the next PID |
| TaskHistory.ForkMoves | zeOS/sys.c:61-156 | the first free slot becomes a task like its parent with the next PID, last of its class; nothing else changes |
| TaskHistory.ForkTables | zeOS/sys.c:101-130 | every table entry after a fork, past the counted pages and in other tables too |
| TaskHistory.SbrkMoves | zeOS/sys.c:274-318 | the break moves by the argument, down to the heap start at most, and the old break is returned |
| TaskHistory.SbrkTables | zeOS/sys.c:283-315 | sbrk maps or unmaps exactly the pages from the first not counted for the lower break to that of the higher one |
| TaskHistory.GrowthIsUndone | zeOS/sys.c:274-318 | sbrk(n) followed by sbrk(-n) restores the break and the byte map |
| TaskHistory.ExitMoves | zeOS/sys.c:158-175 | the task that leaves has PID -1 and is the last free slot; its successor and its ticks |
| TaskHistory.ExitTables | zeOS/sys.c:165-169 | exit unmaps the counted pages and no other |
| TaskHistory.PidIsGone | zeOS/sys.c:171 | after an exit no live task has the PID that left, nor the one the slot now has |
| TaskHistory.SetFpsMoves | zeOS/sys.c:249-262 | the caller gets nice 1 for -1 and 0 otherwise, nobody else changes |
| TaskHistory.TickMoves | zeOS/sched.c:140-191 | queues, current task and counter after a tick: 15 ticks after a task of nice 1, 3 after one of nice 0, 3 when nobody waits |
| SystemCalls.ForkKeepsIff | zeOS/sys.c:61-156 | fork keeps the kernel invariant exactly under its guard |
| SystemCalls.ExitKeepsIff | zeOS/sys.c:158-175 | exit keeps the kernel invariant exactly under its guard |
| SystemCalls.SbrkKeepsIff | zeOS/sys.c:274-318 | sbrk keeps the kernel invariant exactly when brk+n does not wrap |
| SystemCalls.TickKeeps | zeOS/sched.c:181-202 | a clock tick always keeps the kernel invariant |
| SystemCalls.StepKeepsKInvIff | zeOS/sys.c:61-175 | each step keeps the invariant and never takes a queue head exactly under its guard |
| Runs.BootEstablishes | zeOS/system.c:88-100 | main establishes the invariant and exact frame accounting |
| Runs.InvariantInEveryRun | zeOS/sys.c:61-175 | partition of the ten slots, queue classes, isolation, coverage and unique PIDs after every step of every run |
| Runs.FixedPagesInEveryRun | zeOS/mm.c:54-92 | in every run page 0 is not mapped, pages 1 to 255 map themselves, code pages the frames 256 to 270 |
| TaskHistory.TraitsInEveryRun | zeOS/sys.c:61-318 | in every run PID, class and break of a live task are what its calls, or its parent's before the fork, say |
| TaskHistory.SbrkReturnsLastBreak | zeOS/sys.c:274-318 | in every run a successful sbrk returns the break that the last one left |
| TaskHistory.TurnLength | zeOS/sched.c:176-177 | in every run a change of the current task gives 3 ticks after a task whose last set_fps was not -1, else 15 |
| TaskHistory.TurnEndsInItsQueue | zeOS/sched.c:187-188 | in every run a tick that changes the current task leaves the old one last in the queue of its class |
| TaskHistory.LoweredGoesReady | zeOS/sys.c:251-254 | after set_fps(-1) the task ends its turn as the last ready task |
| Runs.OthersReadTheSame | zeOS/sys.c:61-175 | whatever the running task calls, or writes to its data, stack and heap pages, every other live task reads what it read |
| Runs.NothingChangesWhileWaiting | zeOS/sys.c:61-175 | over runs: while a task does not run, nothing it can read changes |
| Runs.ForkCopiesMemory | zeOS/sys.c:72-130 | a successful fork: the child, with its own directory and the parent's break, reads the parent's memory |
| PrivateMemory.ReadsArePrivate | zeOS/sys.c:61-175 | in every run a live task reads at each address of its counted pages its own last store, what it inherited at its fork, or what a new page came with, through its own calls and all others |
| PrivateMemory.LastStoreIsRead | zeOS/sys.c:61-175 | the byte a task stored is read until it stores there again or gives up the page |
| Runs.FramesAreConserved | zeOS/sys.c:78-93 | in every run without growth to a boundary the used frames number 256 + 8 + what the live tasks count |
| Runs.ExitReturnsFrames | zeOS/sys.c:162-169 | exit returns exactly the 20 + ceil(heap) frames that fork and sbrk took |
| Ledger.SbrkUncounted | zeOS/sys.c:283-315 | an sbrk adds one uncounted frame when it grows to a boundary, and gives one back when it shrinks from a boundary whose extra page is mapped |
| Ledger.LedgerOfEveryRun | zeOS/sys.c:78-93 | in every run the used frames number 256 + 8 + the counted pages + the growths to a boundary not given back |
| Ledger.ExactIffNoneUncounted | zeOS/sys.c:78-93 | the used frames are never fewer than the counted ones, and as many exactly when the accounting is exact |
| Ledger.ExactIffAllGivenBack | zeOS/sys.c:162-169 | in every run the accounting is exact exactly when every growth to a boundary was made up for |
| Instances.GrowByOnePage | zeOS/sys.c:285-288 | from boot, sbrk(4096) succeeds, maps 22 pages where 21 are counted and ends exact accounting |
| Instances.ShrinkBelowZero | zeOS/sys.c:304-306 | from boot, sbrk(1) and sbrk(-0x200000) leave the break at 0xFFF1C001 and break the invariant |
| Instances.ForkAfterSetFps | zeOS/sched.c:166-174 | from boot, set_fps then fork succeed, and the next tick takes the head of the empty ready queue |
| Machine.Zeos.constructor | zeOS/system.c:88-98 | boot on the real structures reaches the boot state, which satisfies the invariant |
| Machine.Zeos.SchedNextRr | zeOS/sched.c:166-179 | sched_next_rr on the linked queues is the scheduler's step |
| Machine.Zeos.NeedsSchedRr | zeOS/sched.c:145-153 | when a switch is needed, and the quantum restarted when nobody waits |
| Machine.Zeos.Schedule | zeOS/sched.c:181-191 | schedule on the linked queues is the scheduler's step |
| Machine.Zeos.ClockRoutine | zeOS/sched.c:181-202 | schedule_fps and schedule on the structures are the kernel's tick |
| Machine.Zeos.SysFork | zeOS/sys.c:61-156 | sys_fork on linked queues, arrays and task vector is the kernel's fork, with its return value |
| Machine.Zeos.SysExit | zeOS/sys.c:158-175 | sys_exit on the structures is the kernel's exit |
| Machine.Zeos.SysSbrk | zeOS/sys.c:274-318 | sys_sbrk on the structures is the kernel's sbrk, with its return value |
| Machine.Zeos.SysSetFps | zeOS/sys.c:249-262 | sys_set_fps on the structures is the kernel's step, with its return value |
| Machine.Zeos.SysPutScreen | zeOS/sys.c:233-247 | sys_put_screen for the current process |
| Machine.Zeos.Store | zeOS/sys.c:113-118 | a store of the running process through its page directory is the step of the run |
| Machine.Zeos.Perform | zeOS/sys.c:61-175 | any guarded call on the structures is the step of the run and keeps the invariant |
| Machine.Zeos.PerformAll | zeOS/sys.c:61-175 | the calls of any run, on linked queues, arrays and task vector, lead to its last state, with queues well linked and the invariant kept |
| ContextSwitch.ParkedOneWay | zeOS/entry.S:151-199 | a saved stack determines the context that will be resumed |
| ContextSwitch.AlwaysAgreeing | zeOS/entry.S:171-195 | after every step tss.esp0, MSR 0x175, CR3 and current() name the same task |
| ContextSwitch.ParkedStackUntouched | zeOS/entry.S:151-199 | while a task is off the CPU its stack, directory and kernel_esp do not change, whatever is written into its links and other fields |
| ContextSwitch.StaysDispatchable | zeOS/entry.S:188-199 | a task switched out or forked can be dispatched at any later moment |
| ContextSwitch.ResumesWhereItLeft | zeOS/entry.S:151-199 | round trip: after any interleaving a task resumes just after its call, with the same esp, ebx, esi, edi and ebp |
| ContextSwitch.ChildReturnsFromFork | zeOS/sys.c:141-146 | the child's first dispatch arrives after the dispatch of the call with eax 0 and the parent's 17-word frame |
| Dispatch.ChosenCanBeResumed | zeOS/sched.c:166-179 | the task that exit or the tick chooses can be switched to |
| Dispatch.ParkedInEveryRun | zeOS/sched.c:166-191 | in every run of calls and switches together the CPU runs the kernel's current task with its stack, MSR and directory, and every other live task can be resumed |
| Dispatch.ContextWaits | zeOS/entry.S:151-199 | while a live task waits, in any run, what it will resume with stays the same |
| Dispatch.JointIsRun | zeOS/entry.S:151-199 | every run of the kernel is a run of the stacks, to which the round trip applies |
| ContextSwitch.Cpu.EnterSwitch | zeOS/entry.S:151-169 | the eight words pushed by the two routines |
| ContextSwitch.Cpu.WriteMsr | zeOS/entry.S:141-149 | the MSR gets the second argument; ebp and esp are restored |
| ContextSwitch.Cpu.ChangeStacks | zeOS/entry.S:170-195 | tss.esp0, MSR, CR3 and esp move to the new task, kernel_esp of the old one is saved |
| ContextSwitch.Cpu.PopToTask | zeOS/entry.S:159-164 | what is popped decides where control goes and with which registers |
| ContextSwitch.Cpu.TaskSwitch | zeOS/entry.S:151-199 | a whole switch, from the call to the instruction at which the new task goes on |
| ContextSwitch.Cpu.SysenterEntry | zeOS/entry.S:111-131 | all sixteen words of the handler frame, and what they restore; the numbers 0 to 36 are accepted, which name a table entry except for 36, else the result is -ENOSYS |
| ContextSwitch.Cpu.SysenterExit | zeOS/entry.S:126-138 | the process gets back the frame's registers, and eax as result |
| ContextSwitch.Cpu.SysenterFin | zeOS/entry.S:132-138 | the way out that a refused call number takes: the frame's registers, and eax as result |
| ContextSwitch.Cpu.ForkStack | zeOS/sys.c:141-146 | the child's union is ready for its first dispatch |
| Keyboard.CircularBuffer.CircularInit | zeOS/circular_buffer.c:4-11 | the buffer represents the empty queue |
| Keyboard.CircularBuffer.CircularEmpty | zeOS/circular_buffer.c:13-15 | true exactly when no character is unread |
| Keyboard.CircularBuffer.CircularRead | zeOS/circular_buffer.c:17-26 | circular_read on the array |
| Keyboard.CircularBuffer.CircularWrite | zeOS/circular_buffer.c:28-31 | circular_write on the array |
| Keyboard.UnreadIsUnique | zeOS/circular_buffer.c:13-15 | the buffer determines its queue, so full and empty differ |
| Keyboard.WriteAppendsIff | zeOS/circular_buffer.c:28-31 | a write appends exactly when there is room and the character is not zero |
| Keyboard.ReadTakesOldest | zeOS/circular_buffer.c:17-26 | a read takes the oldest character or reports that there is none |
| Keyboard.ReadsAreFirstWrites | zeOS/circular_buffer.c:4-31 | over every run of reads and non-zero writes with at most 8 unread the characters read are the first of those written, in order |
| Keyboard.OverrunDrains | zeOS/tests/README.md:18 | after more than 8 writes into an empty buffer the next 8 reads give the last 8 characters, rotated by the number of writes mod 8 |
| Accounting.InitStat | zeOS/sched.c:57-68 | the accounts of a task start at its birth tick |
| Accounting.UserToSystem | zeOS/sched.c:204-211 | user_to_sys on the statistics |
| Accounting.SystemToUserOrReady | zeOS/sched.c:213-220 | sys_to_user_ready on the statistics |
| Accounting.ReadyToSystem | zeOS/sched.c:223-232 | ready_to_sys on the statistics |
| Accounting.AccountsBalance | zeOS/sched.c:204-232 | charged ticks, ticks lost between double readings and the birth tick add up to the last reading, for any interleaving |
| Accounting.EachAccount | zeOS/sched.c:204-232 | for any interleaving each counter is the sum of the times before the transitions of its kind since birth; dispatches and the last quantum are kept |
| Accounting.ChargedWithinAge | zeOS/sched.c:204-232 | charged ticks never exceed the task's age, and equal it exactly when all double readings agree |

## Left out

- Boot sector, GDT, IDT and TSS set-up, port I/O and the screen: hardware plumbing; only `tss.esp0`, MSR 0x175 and CR3 are kept, in `ContextSwitch`.
- The TLB: translation reads the tables directly, so flushes have no counterpart.
- Permission bits of page entries: an entry is a present bit and a frame. Stores to the shared code pages are therefore not steps of a run; isolation is about data, stack and heap pages.
- `Runs.OthersReadTheSame`: stores to the eight shared code pages, which `fork` maps writable in a child (`sys.c:107-111`), are no step of a run.
- `Machine.Zeos.SchedNextRr`: it is stated where the queue served has a task; from an empty one the code takes the queue head.
- Page faults: a store to a page that is not mapped is not a step.
- Kernel stack limits of the variable-length `frames` arrays (`sys.c:81`, `sys.c:289`): they are ordinary arrays.
- `Paging.SetSsPag`: a page table and a page of memory are fixed-length sequences stored in one array element each, so a store to an entry replaces the element; aliasing of tables or pages is expressed through slots and frame numbers.
- `Paging.InitTablePages`: the rw bit of the kernel entries is not modelled, as for all permission bits.
- `SysMemory.SetUserPages`: the user and rw bits of the code and data entries are not modelled.
- `Machine.Zeos.ClockRoutine`: the displayed clock and `zeos_ticks`, which no modelled code reads, are not kept.
- `Machine.Zeos.constructor`: kernel stacks, `tss` and MSR at boot are in `ContextSwitch`, the statistics in `Accounting`.
- `Machine.Zeos.NeedsSchedRr`: the increment of `total_trans` is not kept.
- `Machine.Zeos.SysFork`: the child's stack is in `ContextSwitch.Cpu.ForkStack` and its statistics in `Accounting.InitStat`; they are not joined to this step.
- `Machine.Zeos.SysExit`: an exit that finds no task in the queue served takes the queue head in the code; what follows is not modelled.
- `Paging.CopyData`: source and destination each lie inside one page, which is how fork uses it for memory; the copy of a whole task structure is one assignment.
- `Runs.InvariantInEveryRun`: runs take `exit`, `fork`, `set_fps` and `sbrk` only under their exact guards; what follows a step outside them (a dequeued queue head, a wrapped break) is not modelled.
- `SystemCalls.ForkFailsIff`: the statistics a child starts with are in `Accounting`, and its stack is in `ContextSwitch`, apart from the kernel state; `total_trans` of a restarted quantum (`sched.c:149`) is not kept.
- `Accounting.ChargedWithinAge`: tick counts are unbounded; the 32-bit wrap of the clock is not modelled.
- PIDs and `nextPID` are unbounded integers, and PIDs are stated for live tasks only.
- `ContextSwitch.Cpu.TaskSwitch`: a call of a C function is any change of the caller-saved registers, of the stack below the stack pointer and of the statistics words.
- The first process's return to user mode through `return_gate`, and `system_call_handler`, whose frame is that of `syscall_handler_sysenter`.
- `sys_write`, `access_ok`, `strlen`, `itoa`, `perror`, the wrappers in `wrapper.S`, `get_stats`, `gettime` and the `blocked` queue.
- Mixed reads and writes after the keyboard buffer has overrun, where it is no longer a queue; and the translation of scan codes.
