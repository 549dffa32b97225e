/** Memory layout of zeOS and the page arithmetic every page count rests on
    (zeOS/include/mm_address.h, zeOS/include/sched.h). */
module Layout {

  const NR_TASKS: nat := 10
  const TOTAL_PAGES: nat := 1024
  const NUM_PAG_KERNEL: nat := 256
  const PAG_LOG_INIT_CODE: nat := 256
  const NUM_PAG_CODE: nat := 8
  const PAG_LOG_INIT_DATA: nat := 264
  const NUM_PAG_DATA: nat := 20
  const HEAP_FIRST_PAGE: nat := 284
  const PAGE_SIZE: nat := 0x1000
  const L_HEAP_START: nat := 0x11C000

  /** The C type `int` of the program breaks' increments. */
  type int32 = n: int | -0x8000_0000 <= n < 0x8000_0000

  /** Unsigned 32-bit wrap-around of an exact sum. */
  function U32(n: int): (u: nat)
    ensures u < 0x1_0000_0000
    ensures 0 <= n < 0x1_0000_0000 ==> u == n
    ensures -0x1_0000_0000 <= n < 0 ==> u == n + 0x1_0000_0000
  {
    n % 0x1_0000_0000
  }

  /** PAG_HEAP: which heap page an address falls in. */
  function PagHeap(brk: int): int {
    (brk - 0x11C000) / 0x1000
  }

  predicate PageAligned(brk: int) {
    brk % 0x1000 == 0
  }

  /** The heap pages that fork and exit count for a break. */
  function HeapPages(brk: int): int {
    if !PageAligned(brk) then PagHeap(brk) + 1 else PagHeap(brk)
  }

  /** Data, stack and heap pages of an address space, as fork and exit count them. */
  function NumPages(brk: int): int {
    NUM_PAG_DATA + HeapPages(brk)
  }

  /** The count of fork and exit is the ceiling of the heap size in pages. */
  lemma HeapPagesIsCeiling(brk: int)
    ensures (HeapPages(brk) - 1) * 0x1000 < brk - L_HEAP_START <= HeapPages(brk) * 0x1000
  {
    assert (brk - 0x11C000) % 0x1000 == brk % 0x1000;
  }

  lemma HeapPagesMonotone(a: int, b: int)
    requires a <= b
    ensures PagHeap(a) <= PagHeap(b) && HeapPages(a) <= HeapPages(b)
  {
    HeapPagesIsCeiling(a);
    HeapPagesIsCeiling(b);
  }

  /** A sequence without repetitions. */
  ghost predicate Distinct<T>(q: seq<T>) {
    forall i, j :: 0 <= i < j < |q| ==> q[i] != q[j]
  }

  /** `n` applications of a step. */
  ghost function Iterate<T>(step: T -> T, x: T, n: nat): T {
    if n == 0 then x else step(Iterate(step, x, n - 1))
  }

  lemma {:induction false} IterateAdd<T>(step: T -> T, x: T, a: nat, b: nat)
    ensures Iterate(step, x, a + b) == Iterate(step, Iterate(step, x, a), b)
  {
    if b > 0 {
      IterateAdd(step, x, a, b - 1);
    }
  }
}
