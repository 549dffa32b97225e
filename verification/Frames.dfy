/** The byte map of physical frames, `phys_mem` (zeOS/mm.c:193-243). A frame is
    true in the map when it is USED_FRAME. */
module Frames {
  import opened Layout

  type FrameMap = used: seq<bool> | |used| == 1024 witness seq(1024, _ => false)

  /** The frames `alloc_frame` can hand out: it walks the map two by two. */
  predicate Allocatable(f: int) {
    NUM_PAG_KERNEL <= f < TOTAL_PAGES && f % 2 == 0
  }

  /** The first free frame alloc_frame meets from frame `i` on, or -1. */
  function FirstFree(used: FrameMap, i: nat): (f: int)
    requires i % 2 == 0 && NUM_PAG_KERNEL <= i
    ensures f == -1 || (Allocatable(f) && i <= f && !used[f])
    ensures forall g :: i <= g < (if f == -1 then TOTAL_PAGES else f) && g % 2 == 0 ==> used[g]
    decreases 1024 - i
  {
    if i >= TOTAL_PAGES then -1
    else if !used[i] then i
    else FirstFree(used, i + 2)
  }

  function Mark(used: FrameMap, fr: seq<nat>): FrameMap {
    seq(1024, f requires 0 <= f < 1024 => used[f] || f in fr)
  }

  /** What alloc_frame returns once the frames `taken` are marked too. */
  function NextFrame(used: FrameMap, taken: seq<nat>): int {
    FirstFree(Mark(used, taken), NUM_PAG_KERNEL)
  }

  /** The frames `n` calls of alloc_frame return, in order, up to the first failure. */
  function AllocN(used: FrameMap, n: nat): (fr: seq<nat>)
    ensures |fr| <= n
  {
    if n == 0 then [] else
    var before := AllocN(used, n - 1);
    if |before| < n - 1 then before else
    var f := NextFrame(used, before);
    if f < 0 then before else before + [f]
  }

  /** What the frames handed out have in common: they were free, can be handed out, and
      are all different. */
  ghost predicate FreshFrames(used: FrameMap, fr: seq<nat>) {
    && Distinct(fr)
    && forall i :: 0 <= i < |fr| ==> Allocatable(fr[i]) && !used[fr[i]]
  }

  lemma NextFrameFresh(used: FrameMap, taken: seq<nat>)
    requires FreshFrames(used, taken)
    ensures NextFrame(used, taken) >= 0 ==> FreshFrames(used, taken + [NextFrame(used, taken)])
    ensures NextFrame(used, taken) < 0 ==> forall f :: Allocatable(f) ==> used[f] || f in taken
  {
    var f := NextFrame(used, taken);
    if f < 0 {
      assert forall g :: Allocatable(g) ==> Mark(used, taken)[g];
    } else {
      assert !Mark(used, taken)[f];
    }
  }

  lemma {:induction false} AllocNFresh(used: FrameMap, n: nat)
    ensures FreshFrames(used, AllocN(used, n))
    ensures |AllocN(used, n)| < n ==> forall f :: Allocatable(f) ==> used[f] || f in AllocN(used, n)
  {
    if n > 0 {
      AllocNFresh(used, n - 1);
      NextFrameFresh(used, AllocN(used, n - 1));
    }
  }

  /** A failing n-th call ends the sequence: asking for more does not change it. */
  lemma {:induction false} AllocNStops(used: FrameMap, n: nat, m: nat)
    requires n <= m && |AllocN(used, n)| < n
    ensures AllocN(used, m) == AllocN(used, n)
  {
    if n < m {
      AllocNStops(used, n, m - 1);
    }
  }

  ghost function FreeSet(used: FrameMap): set<nat> {
    set f: nat | 0 <= f < 1024 && Allocatable(f) && !used[f]
  }

  lemma {:induction false} DistinctSize(q: seq<nat>, s: set<nat>)
    requires Distinct(q) && forall i :: 0 <= i < |q| ==> q[i] in s
    ensures |q| <= |s|
    ensures (forall x :: x in s ==> x in q) ==> |q| == |s|
  {
    if q == [] {
      assert (forall x :: x in s ==> x in q) ==> s == {};
    } else {
      var k := |q| - 1;
      var p, t := q[..k], s - {q[k]};
      DistinctSize(p, t);
      if forall x :: x in s ==> x in q {
        forall x | x in t ensures x in p {
          var i :| 0 <= i < |q| && q[i] == x;
          assert p[i] == x;
        }
      }
    }
  }

  /** Allocation of `n` frames fails exactly when fewer than `n` can be handed out. */
  lemma AllocNSucceedsIff(used: FrameMap, n: nat)
    ensures |AllocN(used, n)| == n <==> n <= |FreeSet(used)|
  {
    AllocNFresh(used, n);
    var fr := AllocN(used, n);
    DistinctSize(fr, FreeSet(used));
  }

  /** init_frames */
  method InitFrames(physMem: array<bool>)
    requires physMem.Length == TOTAL_PAGES
    modifies physMem
    ensures forall f :: 0 <= f < TOTAL_PAGES ==> physMem[f] == (f < NUM_PAG_KERNEL)
  {
    for i := 0 to TOTAL_PAGES
      invariant forall f :: 0 <= f < i ==> !physMem[f]
    {
      physMem[i] := false;
    }
    for i := 0 to NUM_PAG_KERNEL
      invariant forall f :: 0 <= f < TOTAL_PAGES ==> physMem[f] == (f < i)
    {
      physMem[i] := true;
    }
  }

  /** alloc_frame */
  method AllocFrame(physMem: array<bool>) returns (f: int)
    requires physMem.Length == TOTAL_PAGES
    modifies physMem
    ensures f == FirstFree(old(physMem[..]), NUM_PAG_KERNEL)
    ensures physMem[..] == if f < 0 then old(physMem[..]) else old(physMem[..])[f := true]
  {
    var i := NUM_PAG_KERNEL;
    while i < TOTAL_PAGES
      invariant i % 2 == 0 && NUM_PAG_KERNEL <= i <= TOTAL_PAGES
      invariant FirstFree(physMem[..], NUM_PAG_KERNEL) == FirstFree(physMem[..], i)
      invariant physMem[..] == old(physMem[..])
    {
      if !physMem[i] {
        physMem[i] := true;
        return i;
      }
      i := i + 2;
    }
    return -1;
  }

  /** What free_frame does to the map: frames outside (256, 1024) are left alone. */
  function Freed(used: FrameMap, f: int): FrameMap {
    if NUM_PAG_KERNEL < f < TOTAL_PAGES then used[f := false] else used
  }

  /** Only a frame strictly between 256 and 1024 can become free, and no other with it. */
  lemma FreedOnlyAbove(used: FrameMap, f: int, g: nat)
    requires g < 1024
    ensures Freed(used, f)[g] <==> used[g] && !(g == f && 256 < f)
  {
  }

  /** free_frame */
  method FreeFrame(physMem: array<bool>, frame: int)
    requires physMem.Length == TOTAL_PAGES
    modifies physMem
    ensures physMem[..] == Freed(old(physMem[..]), frame)
  {
    if frame > NUM_PAG_KERNEL && frame < TOTAL_PAGES {
      physMem[frame] := false;
    }
  }

  lemma MarkNone(used: FrameMap)
    ensures Mark(used, []) == used
  {
  }

  lemma MarkOne(used: FrameMap, fr: seq<nat>, f: nat)
    requires f < 1024
    ensures Mark(used, fr + [f]) == Mark(used, fr)[f := true]
  {
  }

  lemma FreeOne(used: FrameMap, fr: seq<nat>, j: nat)
    requires FreshFrames(used, fr) && j < |fr| && used[NUM_PAG_KERNEL]
    ensures Freed(Mark(used, fr[j..]), fr[j]) == Mark(used, fr[j + 1..])
  {
    assert fr[j..] == [fr[j]] + fr[j + 1..];
    assert fr[j] !in fr[j + 1..];
  }

  /** The roll-back loop: every frame taken so far goes back. It relies on frame 256
      never being among them, since free_frame refuses that one. */
  method FreeFrames(physMem: array<bool>, frames: array<int>, n: nat, ghost used: FrameMap, ghost fr: seq<nat>)
    requires physMem.Length == TOTAL_PAGES && n <= frames.Length && frames[..n] == fr
    requires FreshFrames(used, fr) && used[NUM_PAG_KERNEL] && physMem[..] == Mark(used, fr)
    modifies physMem
    ensures physMem[..] == used
  {
    for j := 0 to n
      invariant physMem[..] == Mark(used, fr[j..])
    {
      FreeOne(used, fr, j);
      assert frames[j] == frames[..n][j];
      FreeFrame(physMem, frames[j]);
    }
  }

  /** The allocation loop of fork and sbrk, with its roll-back: either `n` frames are
      marked used, or the map is as before. `frames` is the local array of the C code. */
  method AllocFrames(physMem: array<bool>, frames: array<int>, n: nat) returns (ok: bool)
    requires physMem.Length == TOTAL_PAGES && frames.Length == n && physMem[NUM_PAG_KERNEL]
    modifies physMem, frames
    ensures ok <==> |AllocN(old(physMem[..]), n)| == n
    ensures ok ==> frames[..] == AllocN(old(physMem[..]), n)
    ensures physMem[..] == if ok then Mark(old(physMem[..]), AllocN(old(physMem[..]), n)) else old(physMem[..])
  {
    hide FirstFree, Mark, FreshFrames;
    ghost var used := physMem[..];
    MarkNone(used);
    var i := 0;
    while i < n
      invariant 0 <= i <= n && |AllocN(used, i)| == i
      invariant frames[..i] == AllocN(used, i)
      invariant physMem[..] == Mark(used, AllocN(used, i))
    {
      ghost var before := AllocN(used, i);
      frames[i] := AllocFrame(physMem);
      assert frames[..i] == before && frames[i] == NextFrame(used, before);
      if frames[i] < 0 {
        AllocNStops(used, i + 1, n);
        AllocNFresh(used, i);
        FreeFrames(physMem, frames, i, used, before);
        return false;
      }
      MarkOne(used, before, frames[i]);
      assert frames[..i + 1] == before + [frames[i]];
      i := i + 1;
    }
    assert frames[..] == frames[..n];
    return true;
  }
}
