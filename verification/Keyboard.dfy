/** The keyboard's circular buffer (zeOS/circular_buffer.c): emptiness is a zero
    character at the read position, not a count. */
module Keyboard {

  const MAX_VAL: nat := 8
  const NUL: char := '\0'
  const ENOINP: int := 55

  type Slots = b: seq<char> | |b| == 8 witness seq(8, _ => '\0')

  datatype Ring = Ring(buffer: Slots, read: nat, write: nat)

  class CircularBuffer {
    const buffer: array<char>
    var read: nat
    var write: nat

    ghost predicate Valid()
      reads this
    {
      buffer.Length == MAX_VAL && read < MAX_VAL && write < MAX_VAL
    }

    ghost function View(): Ring
      requires Valid()
      reads this, buffer
    {
      Ring(buffer[..], read, write)
    }

    constructor ()
      ensures Valid() && Represents(View(), [])
    {
      buffer := new char[8];
      read, write := 0, 0;
      new;
      CircularInit();
    }

    /** circular_init: whatever the buffer held, it is now empty. */
    method CircularInit()
      requires buffer.Length == MAX_VAL
      modifies this, buffer
      ensures Valid() && Represents(View(), []) && read == 0
    {
      read := 0;
      write := 0;
      for i := 0 to MAX_VAL
        invariant read == 0 && write == 0
        invariant forall p :: 0 <= p < i ==> buffer[p] == NUL
      {
        buffer[i] := NUL;
      }
    }

    /** circular_empty */
    method CircularEmpty() returns (empty: bool)
      requires Valid()
      ensures empty <==> buffer[read] == NUL
      ensures forall q :: Unread(View(), q) ==> (empty <==> q == [])
    {
      empty := buffer[read] == NUL;
      forall q | Unread(View(), q) ensures empty <==> q == [] {
        EmptyIffNul(View(), q);
      }
    }

    /** circular_read */
    method CircularRead() returns (ret: int, rd: char)
      requires Valid()
      modifies this, buffer
      ensures Valid() && (View(), ret, rd) == ReadOne(old(View()))
    {
      var empty := CircularEmpty();
      if !empty {
        rd := buffer[read];
        buffer[read] := NUL;
        read := read + 1;
        read := read % MAX_VAL;
        return 1, rd;
      }
      return -ENOINP, NUL;
    }

    /** circular_write */
    method CircularWrite(wr: char)
      requires Valid()
      modifies this, buffer
      ensures Valid() && View() == Write(old(View()), wr)
    {
      buffer[write] := wr;
      write := write + 1;
      write := write % MAX_VAL;
    }
  }

  function Next(p: nat): (n: nat)
    requires p < MAX_VAL
    ensures n < MAX_VAL
  {
    if p + 1 == MAX_VAL then 0 else p + 1
  }

  function Write(r: Ring, c: char): Ring
    requires r.write < MAX_VAL
  {
    Ring(r.buffer[r.write := c], r.read, Next(r.write))
  }

  /** The state after a read, its return value and the character handed out. */
  function ReadOne(r: Ring): (Ring, int, char)
    requires r.read < MAX_VAL
  {
    if r.buffer[r.read] == NUL then (r, -ENOINP, NUL)
    else (Ring(r.buffer[r.read := NUL], Next(r.read), r.write), 1, r.buffer[r.read])
  }

  // ---------------------------------------------------------------------------
  // A queue of at most eight characters
  // ---------------------------------------------------------------------------

  /** The position `i` places after `from`. */
  function Pos(from: nat, i: nat): nat {
    if from + i < MAX_VAL then from + i else from + i - MAX_VAL
  }

  /** How far position `p` is after `from`. */
  function Offset(from: nat, p: nat): int {
    if from <= p then p - from else p + MAX_VAL - from
  }

  /** The characters still to be read are `q`, in that order; the other positions are zero. */
  ghost predicate Unread(r: Ring, q: seq<char>) {
    && r.read < MAX_VAL && |q| <= MAX_VAL && NUL !in q
    && forall p :: 0 <= p < MAX_VAL ==>
         r.buffer[p] == if Offset(r.read, p) < |q| then q[Offset(r.read, p)] else NUL
  }

  ghost predicate Represents(r: Ring, q: seq<char>) {
    Unread(r, q) && r.write == Pos(r.read, |q|)
  }

  lemma EmptyIffNul(r: Ring, q: seq<char>)
    requires Unread(r, q)
    ensures r.buffer[r.read] == NUL <==> q == []
  {
    assert r.buffer[r.read] == if 0 < |q| then q[0] else NUL;
    assert q != [] ==> q[0] in q;
  }

  lemma NotLonger(r: Ring, q: seq<char>, q': seq<char>)
    requires Unread(r, q) && Unread(r, q')
    ensures |q'| <= |q|
  {
    assert |q| < |q'| ==> q'[|q|] in q';
    assert |q| < MAX_VAL ==> r.buffer[Pos(r.read, |q|)] == NUL;
  }

  /** The buffer determines the queue: full and empty differ, though both have the read
      position equal to the write position. */
  lemma UnreadIsUnique(r: Ring, q: seq<char>, q': seq<char>)
    requires Unread(r, q) && Unread(r, q')
    ensures q == q'
  {
    NotLonger(r, q, q');
    NotLonger(r, q', q);
    forall i | 0 <= i < |q| ensures q[i] == q'[i] {
      assert r.buffer[Pos(r.read, i)] == q[i];
    }
  }

  /** A write appends exactly when the buffer has room and the character is not zero. */
  lemma WriteAppendsIff(r: Ring, q: seq<char>, c: char)
    requires Represents(r, q)
    ensures Represents(Write(r, c), q + [c]) <==> |q| < MAX_VAL && c != NUL
  {
    assert c in q + [c];
  }

  /** A read takes the oldest character, or reports that there is none. */
  lemma ReadTakesOldest(r: Ring, q: seq<char>)
    requires Unread(r, q)
    ensures var (r', ret, c) := ReadOne(r);
            if q == [] then r' == r && ret == -ENOINP && c == NUL
            else ret == 1 && c == q[0] && Unread(r', q[1..]) && r'.write == r.write
    ensures Represents(r, q) && q != [] ==> Represents(ReadOne(r).0, q[1..])
  {
    EmptyIffNul(r, q);
    assert q != [] ==> q == [q[0]] + q[1..];
  }

  // ---------------------------------------------------------------------------
  // Runs of reads and writes
  // ---------------------------------------------------------------------------

  datatype Op = Press(c: char) | GetKey

  /** What has happened so far: the buffer, and the characters written and read. */
  datatype History = History(r: Ring, written: seq<char>, got: seq<char>)

  ghost function Do(h: History, op: Op): History
    requires h.r.read < MAX_VAL && h.r.write < MAX_VAL
  {
    match op
    case Press(c) => h.(r := Write(h.r, c), written := h.written + [c])
    case GetKey =>
      var (r, ret, c) := ReadOne(h.r);
      h.(r := r, got := if ret == 1 then h.got + [c] else h.got)
  }

  /** The history of a run, if the indices stay in range, as they do. */
  ghost function After(r: Ring, ops: seq<Op>): (h: History)
    requires r.read < MAX_VAL && r.write < MAX_VAL
    ensures h.r.read < MAX_VAL && h.r.write < MAX_VAL
  {
    if ops == [] then History(r, [], []) else Do(After(r, ops[..|ops| - 1]), ops[|ops| - 1])
  }

  /** No zero is written, and nothing when eight characters are unread. */
  ghost predicate NeverOverrun(r: Ring, ops: seq<Op>)
    requires r.read < MAX_VAL && r.write < MAX_VAL
  {
    ops == [] || (
      var before, h := ops[..|ops| - 1], After(r, ops[..|ops| - 1]);
      && NeverOverrun(r, before)
      && (ops[|ops| - 1].Press? ==> ops[|ops| - 1].c != NUL && |h.written| - |h.got| < MAX_VAL))
  }

  /** The buffer over every run without overrun: the characters read are the first of
      those written, in order, and the buffer holds the others. */
  lemma {:induction false} ReadsAreFirstWrites(r: Ring, ops: seq<Op>)
    requires Represents(r, []) && NeverOverrun(r, ops)
    ensures var h := After(r, ops);
            && |h.got| <= |h.written| && h.got == h.written[..|h.got|]
            && Represents(h.r, h.written[|h.got|..])
  {
    if ops != [] {
      var before, op := ops[..|ops| - 1], ops[|ops| - 1];
      ReadsAreFirstWrites(r, before);
      var h := After(r, before);
      HistoryStep(h, op);
    }
  }

  lemma HistoryStep(h: History, op: Op)
    requires |h.got| <= |h.written| && h.got == h.written[..|h.got|] && Represents(h.r, h.written[|h.got|..])
    requires op.Press? ==> op.c != NUL && |h.written| - |h.got| < MAX_VAL
    requires h.r.write < MAX_VAL
    ensures var h' := Do(h, op);
            && |h'.got| <= |h'.written| && h'.got == h'.written[..|h'.got|]
            && Represents(h'.r, h'.written[|h'.got|..])
  {
    var q := h.written[|h.got|..];
    match op
    case Press(c) =>
      WriteAppendsIff(h.r, q, c);
      assert (h.written + [c])[|h.got|..] == q + [c];
    case GetKey =>
      ReadTakesOldest(h.r, q);
      if q != [] {
        assert q[1..] == h.written[|h.got| + 1..];
      }
  }

  // ---------------------------------------------------------------------------
  // Overrun
  // ---------------------------------------------------------------------------

  ghost function WriteAll(r: Ring, s: seq<char>): (r': Ring)
    requires r.write < MAX_VAL
    ensures r'.write < MAX_VAL && r'.read == r.read
  {
    if s == [] then r else Write(WriteAll(r, s[..|s| - 1]), s[|s| - 1])
  }

  /** How many writes ago a position was written, when it was among the last eight. */
  function Age(write: nat, p: nat): int {
    if p < write then write - 1 - p else write + 7 - p
  }

  /** Each position holds the last character written there. */
  ghost predicate LastWritten(r: Ring, s: seq<char>) {
    && r.write < MAX_VAL
    && forall p :: 0 <= p < MAX_VAL && Age(r.write, p) < |s| ==> r.buffer[p] == s[|s| - 1 - Age(r.write, p)]
  }

  lemma WriteIsLast(r: Ring, s: seq<char>, c: char)
    requires LastWritten(r, s)
    ensures LastWritten(Write(r, c), s + [c])
  {
  }

  lemma NextCount(n: nat)
    ensures (n + 1) % MAX_VAL == if n % MAX_VAL == 7 then 0 else n % MAX_VAL + 1
  {
  }

  lemma {:induction false} WriteAllAt(r: Ring, s: seq<char>)
    requires r.write < MAX_VAL
    ensures LastWritten(WriteAll(r, s), s) && WriteAll(r, s).write == Pos(r.write, |s| % MAX_VAL)
  {
    if s != [] {
      var t := s[..|s| - 1];
      WriteAllAt(r, t);
      WriteIsLast(WriteAll(r, t), t, s[|s| - 1]);
      assert s == t + [s[|s| - 1]];
      NextCount(|t|);
      hide LastWritten;
    }
  }

  /** The last eight characters written, rotated by the number of writes mod 8. */
  function Rotated(s: seq<char>): (t: seq<char>)
    requires |s| >= MAX_VAL
    ensures |t| == MAX_VAL
  {
    var last := s[|s| - MAX_VAL..];
    var k := MAX_VAL - |s| % MAX_VAL;
    last[k..] + last[..k]
  }

  lemma RotatedAt(s: seq<char>, i: nat, m: nat)
    requires |s| >= MAX_VAL && i < MAX_VAL && m == |s| % MAX_VAL
    ensures Rotated(s)[i] == s[|s| - MAX_VAL + if i < m then i + MAX_VAL - m else i - m]
  {
    var last := s[|s| - MAX_VAL..];
    assert Rotated(s)[i] == last[if i < m then i + MAX_VAL - m else i - m];
  }

  /** The position with offset `i` was written that long ago. */
  lemma AgeOfOffset(from: nat, m: nat, i: nat)
    requires from < MAX_VAL && m < MAX_VAL && i < MAX_VAL
    ensures Age(Pos(from, m), Pos(from, i)) == if i < m then m - 1 - i else m + 7 - i
  {
  }

  lemma OverrunAt(r: Ring, s: seq<char>, w: Ring, t: seq<char>, i: nat)
    requires r.read < MAX_VAL && r.write == r.read && i < MAX_VAL && |s| >= MAX_VAL
    requires w == WriteAll(r, s) && t == Rotated(s)
    ensures w.buffer[Pos(r.read, i)] == t[i] && t[i] in s
  {
    WriteAllAt(r, s);
    AgeOfOffset(r.read, |s| % MAX_VAL, i);
    RotatedAt(s, i, |s| % MAX_VAL);
  }

  /** After eight or more writes into an empty buffer, what it has to read is exactly the
      last eight characters, in rotated order. */
  lemma OverrunKeepsLastEight(r: Ring, s: seq<char>)
    requires Represents(r, []) && |s| >= MAX_VAL && NUL !in s
    ensures Unread(WriteAll(r, s), Rotated(s))
  {
    var w, t := WriteAll(r, s), Rotated(s);
    forall i | 0 <= i < MAX_VAL ensures w.buffer[Pos(r.read, i)] == t[i] && t[i] != NUL {
      OverrunAt(r, s, w, t, i);
    }
    EightRead(w, t);
  }

  lemma EightRead(r: Ring, q: seq<char>)
    requires r.read < MAX_VAL && |q| == MAX_VAL
    requires forall i :: 0 <= i < MAX_VAL ==> r.buffer[Pos(r.read, i)] == q[i] && q[i] != NUL
    ensures Unread(r, q)
  {
    forall p | 0 <= p < MAX_VAL ensures r.buffer[p] == q[Offset(r.read, p)] {
      assert Pos(r.read, Offset(r.read, p)) == p;
    }
  }

  /** What `n` reads hand out. */
  ghost function Drain(r: Ring, n: nat): seq<char>
    requires r.read < MAX_VAL
    decreases n
  {
    if n == 0 then [] else [ReadOne(r).2] + Drain(ReadOne(r).0, n - 1)
  }

  lemma {:induction false} DrainReadsAll(r: Ring, q: seq<char>)
    requires Unread(r, q)
    ensures Drain(r, |q|) == q
    decreases |q|
  {
    if q != [] {
      ReadTakesOldest(r, q);
      DrainReadsAll(ReadOne(r).0, q[1..]);
    }
  }

  /** The drain after an overrun: the next eight reads return the last eight characters,
      rotated by the number of writes mod 8. */
  lemma OverrunDrains(r: Ring, s: seq<char>)
    requires Represents(r, []) && |s| > MAX_VAL && NUL !in s
    ensures Drain(WriteAll(r, s), MAX_VAL) == Rotated(s)
  {
    hide Drain;
    OverrunKeepsLastEight(r, s);
    DrainReadsAll(WriteAll(r, s), Rotated(s));
  }
}
