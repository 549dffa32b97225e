/** Page tables, translation and the copies made through it (zeOS/mm.c, zeOS/utils.c).
    `pagusr_table` is an array of ten tables and physical memory an array of 1024
    pages; a table or a page is a fixed-length sequence stored in its array element. */
module Paging {
  import opened Layout

  /** A page-table entry: the present bit and pbase_addr. */
  datatype Entry = Entry(present: bool, frame: nat)

  /** `entry = 0` */
  const NO_ENTRY: Entry := Entry(false, 0)

  newtype Byte = b: int | 0 <= b < 256

  type Table = t: seq<Entry> | |t| == 1024 witness seq(1024, _ => NO_ENTRY)
  type Page = p: seq<Byte> | |p| == 4096 witness seq(4096, _ => 0)
  const EMPTY_TABLE: Table := seq(1024, _ => NO_ENTRY)
  const EMPTY_PAGE: Page := seq(4096, _ => 0)
  type Tables = ts: seq<Table> | |ts| == 10 witness seq(10, _ => EMPTY_TABLE)
  type Ram = r: seq<Page> | |r| == 1024 witness seq(1024, _ => EMPTY_PAGE)

  /** The kernel pages are mapped onto themselves; page 0 is left out. */
  function KernelTable(): Table {
    seq(1024, p requires 0 <= p < 1024 => if 1 <= p < 256 then Entry(true, p) else NO_ENTRY)
  }

  /** init_table_pages */
  method InitTablePages(pt: array<Table>)
    requires pt.Length == NR_TASKS
    modifies pt
    ensures forall s :: 0 <= s < NR_TASKS ==> pt[s] == KernelTable()
  {
    for j := 0 to NR_TASKS
      invariant forall s :: 0 <= s < j ==> pt[s] == KernelTable()
    {
      for i := 0 to TOTAL_PAGES
        invariant forall s :: 0 <= s < j ==> pt[s] == KernelTable()
        invariant forall p :: 0 <= p < i ==> pt[j][p] == NO_ENTRY
      {
        pt[j] := pt[j][i := NO_ENTRY];
      }
      for i := 1 to NUM_PAG_KERNEL
        invariant forall s :: 0 <= s < j ==> pt[s] == KernelTable()
        invariant forall p :: 0 <= p < 1024 ==> pt[j][p] == if 1 <= p < i then Entry(true, p) else NO_ENTRY
      {
        pt[j] := pt[j][i := Entry(true, i)];
      }
      assert pt[j] == KernelTable();
    }
  }

  /** set_ss_pag, on the table of directory `d` */
  method SetSsPag(pt: array<Table>, d: nat, page: nat, frame: nat)
    requires d < pt.Length && page < TOTAL_PAGES
    modifies pt
    ensures pt[..] == old(pt[..])[d := old(pt[d])[page := Entry(true, frame)]]
  {
    pt[d] := pt[d][page := Entry(true, frame)];
  }

  /** del_ss_pag */
  method DelSsPag(pt: array<Table>, d: nat, page: nat)
    requires d < pt.Length && page < TOTAL_PAGES
    modifies pt
    ensures pt[..] == old(pt[..])[d := old(pt[d])[page := NO_ENTRY]]
  {
    pt[d] := pt[d][page := NO_ENTRY];
  }

  /** get_frame: 0 for a page that is not mapped */
  method GetFrame(pt: array<Table>, d: nat, page: nat) returns (frame: nat)
    requires d < pt.Length && page < TOTAL_PAGES
    ensures frame == pt[d][page].frame
  {
    frame := pt[d][page].frame;
  }

  /** The `k` bytes from a virtual address on lie on one page that the table maps to a frame. */
  predicate OnPage(t: Table, addr: nat, k: nat) {
    && addr % 0x1000 + k <= 0x1000
    && addr / 0x1000 < 1024
    && t[addr / 0x1000].present
    && t[addr / 0x1000].frame < 1024
  }

  function FrameOf(t: Table, addr: nat): (f: nat)
    requires OnPage(t, addr, 0)
    ensures f < 1024
  {
    t[addr / 0x1000].frame
  }

  /** `page` with the bytes `w` written at offset `o`. */
  function Spliced(page: Page, o: nat, w: seq<Byte>): Page
    requires o + |w| <= 4096
  {
    page[..o] + w + page[o + |w|..]
  }

  /** A load of `k` bytes through table `t`. */
  method Load(t: Table, ram: array<Page>, addr: nat, k: nat) returns (w: seq<Byte>)
    requires ram.Length == 1024 && OnPage(t, addr, k)
    ensures w == ram[FrameOf(t, addr)][addr % 0x1000..addr % 0x1000 + k]
  {
    w := ram[FrameOf(t, addr)][addr % 0x1000..addr % 0x1000 + k];
  }

  /** A store through table `t`. */
  method Store(t: Table, ram: array<Page>, addr: nat, w: seq<Byte>)
    requires ram.Length == 1024 && OnPage(t, addr, |w|)
    modifies ram
    ensures ram[..] == old(ram[..])[FrameOf(t, addr) := Spliced(old(ram[FrameOf(t, addr)]), addr % 0x1000, w)]
  {
    var f := FrameOf(t, addr);
    ram[f] := Spliced(ram[f], addr % 0x1000, w);
  }

  lemma SplicedTwice(page: Page, o: nat, src: seq<Byte>, c: nat, k: nat)
    requires c + k <= |src| && o + |src| <= 4096
    ensures Spliced(Spliced(page, o, src[..c]), o + c, src[c..c + k]) == Spliced(page, o, src[..c + k])
  {
    assert src[..c + k] == src[..c] + src[c..c + k];
  }

  /** Where a pointer moved on by `c` bytes inside one page points. */
  lemma Advance(t: Table, addr: nat, c: nat, k: nat, size: nat)
    requires OnPage(t, addr, size) && c + k <= size && 0 < k
    ensures OnPage(t, addr + c, k)
    ensures FrameOf(t, addr + c) == FrameOf(t, addr) && (addr + c) % 0x1000 == addr % 0x1000 + c
  {
    assert addr == (addr / 0x1000) * 0x1000 + addr % 0x1000;
    assert (addr + c) / 0x1000 == addr / 0x1000;
  }

  /** Physical memory once `c` of the `size` bytes have been copied. */
  function Copied(t: Table, was: Ram, start: nat, dest: nat, size: nat, c: nat): Ram
    requires OnPage(t, start, size) && OnPage(t, dest, size) && c <= size
  {
    var o := start % 0x1000;
    was[FrameOf(t, dest) := Spliced(was[FrameOf(t, dest)], dest % 0x1000, was[FrameOf(t, start)][o..o + c])]
  }

  /** `*q = *p` for a word (k = 4) or a byte (k = 1), `c` bytes into the copy. */
  method CopyUnit(t: Table, ram: array<Page>, p: nat, q: nat, k: nat,
                  ghost was: Ram, ghost start: nat, ghost dest: nat, ghost size: nat, ghost c: nat)
    requires ram.Length == 1024 && OnPage(t, start, size) && OnPage(t, dest, size)
    requires FrameOf(t, start) != FrameOf(t, dest)
    requires 0 < k && c + k <= size && p == start + c && q == dest + c
    requires ram[..] == Copied(t, was, start, dest, size, c)
    modifies ram
    ensures ram[..] == Copied(t, was, start, dest, size, c + k)
  {
    Advance(t, start, c, k, size);
    Advance(t, dest, c, k, size);
    ghost var f, g := FrameOf(t, start), FrameOf(t, dest);
    ghost var src := was[f][start % 0x1000..start % 0x1000 + size];
    assert src[..c] == was[f][start % 0x1000..start % 0x1000 + c];
    assert src[..c + k] == was[f][start % 0x1000..start % 0x1000 + (c + k)];
    assert ram[f] == ram[..][f] == was[f];
    assert ram[g] == ram[..][g];
    var w := Load(t, ram, p, k);
    assert w == src[c..c + k];
    Store(t, ram, q, w);
    SplicedTwice(was[g], dest % 0x1000, src, c, k);
  }

  /** copy_data: words while more than four bytes are left, then bytes. Source and
      destination are virtual addresses, each inside one page, on different frames. */
  method CopyData(t: Table, ram: array<Page>, start: nat, dest: nat, size: nat)
    requires ram.Length == 1024 && OnPage(t, start, size) && OnPage(t, dest, size)
    requires FrameOf(t, start) != FrameOf(t, dest)
    modifies ram
    ensures ram[..] == Copied(t, old(ram[..]), start, dest, size, size)
  {
    ghost var was := ram[..];
    ghost var c: nat := 0;
    var p, q, left := start, dest, size;
    assert Copied(t, was, start, dest, size, 0) == was by {
      assert Spliced(was[FrameOf(t, dest)], dest % 0x1000, []) == was[FrameOf(t, dest)];
    }
    while left > 4
      invariant c + left == size && p == start + c && q == dest + c
      invariant ram[..] == Copied(t, was, start, dest, size, c)
    {
      CopyUnit(t, ram, p, q, 4, was, start, dest, size, c);
      p, q, left, c := p + 4, q + 4, left - 4, c + 4;
    }
    while left > 0
      invariant 0 <= left && c + left == size && p == start + c && q == dest + c
      invariant ram[..] == Copied(t, was, start, dest, size, c)
    {
      CopyUnit(t, ram, p, q, 1, was, start, dest, size, c);
      p, q, left, c := p + 1, q + 1, left - 1, c + 1;
    }
  }

  /** Copying a whole page makes the destination frame equal to the source frame. */
  lemma CopiedPage(t: Table, was: Ram, start: nat, dest: nat)
    requires OnPage(t, start, 4096) && OnPage(t, dest, 4096)
    ensures Copied(t, was, start, dest, 4096, 4096) == was[FrameOf(t, dest) := was[FrameOf(t, start)]]
  {
    assert Spliced(was[FrameOf(t, dest)], 0, was[FrameOf(t, start)][0..4096]) == was[FrameOf(t, start)];
  }
}
