/**
 * Removing the invalid bytes the unit attaches to every reading of a line.
 *
 * `Kept` and `After` read the stream one byte at a time and are the meaning of
 * the filter. `StripTruncation` is the filter itself: it compacts a chunk in
 * place, a whole run at a time, and carries its position to the next chunk.
 */
module Truncation {
  import opened Sequences
  import opened Arith
  import opened Layouts

  /** The line, the reading of that line, and the offset into that reading. */
  datatype State = State(line: nat, reading: nat, offset: nat)

  const START := State(0, 0, 0)

  /** One reading of a line: its length, and the offsets `[from, to)` that hold valid bytes. */
  datatype Cut = Cut(size: nat, from: nat, to: nat)

  /** The readings of a line, and the lines `[firstLine, endLine)` that are image. */
  datatype ShapeRecord = Shape(cuts: seq<Cut>, firstLine: nat, endLine: int)

  type Shape = sh: ShapeRecord | sh.cuts != [] && forall r :: 0 <= r < |sh.cuts| ==> sh.cuts[r].size >= 1
    witness Shape([Cut(1, 0, 1)], 0, 0)

  function ReadingBytes(l: Layout, reading: nat): nat {
    Max(l.BytesPerReading(reading) * l.packedRows, 1)
  }

  function ReadingCut(l: Layout, reading: nat): (c: Cut)
    ensures c.size >= 1
  {
    var edges := l.TruncatedBytes(reading);
    var size := ReadingBytes(l, reading);
    Cut(size, edges.first * l.packedRows, SatSub(size, edges.last * l.packedRows))
  }

  /** What a layout says of the stream's readings, packed rows and all. */
  function ShapeOf(l: Layout): (sh: Shape)
    ensures |sh.cuts| == l.Readings()
    ensures forall r :: 0 <= r < l.Readings() ==> sh.cuts[r] == ReadingCut(l, r)
    ensures sh.firstLine == l.truncatedLinesFrame.first
    ensures sh.endLine == l.lines - l.truncatedLinesFrame.last
  {
    Shape(seq(l.Readings(), r requires 0 <= r < l.Readings() => ReadingCut(l, r)),
          l.truncatedLinesFrame.first, l.lines - l.truncatedLinesFrame.last)
  }

  predicate Valid(sh: Shape, s: State) {
    s.reading < |sh.cuts| && s.offset < sh.cuts[s.reading].size
  }

  predicate InImage(sh: Shape, line: nat) {
    sh.firstLine <= line < sh.endLine
  }

  predicate Keeps(sh: Shape, s: State)
    requires Valid(sh, s)
  {
    InImage(sh, s.line) && sh.cuts[s.reading].from <= s.offset < sh.cuts[s.reading].to
  }

  /** The state that follows a reading. */
  function NextReading(sh: Shape, s: State): (t: State)
    requires s.reading < |sh.cuts|
    ensures Valid(sh, t)
  {
    if s.reading + 1 == |sh.cuts| then State(s.line + 1, 0, 0)
    else State(s.line, s.reading + 1, 0)
  }

  /** The state one byte on. */
  function Next(sh: Shape, s: State): (t: State)
    requires Valid(sh, s)
    ensures Valid(sh, t)
  {
    if s.offset + 1 == sh.cuts[s.reading].size then NextReading(sh, s)
    else s.(offset := s.offset + 1)
  }

  function After(sh: Shape, s: State, n: nat): (t: State)
    requires Valid(sh, s)
    ensures Valid(sh, t)
    decreases n
  {
    if n == 0 then s else After(sh, Next(sh, s), n - 1)
  }

  function Kept(sh: Shape, s: State, bytes: seq<Byte>): (out: seq<Byte>)
    requires Valid(sh, s)
    ensures |out| <= |bytes|
    decreases |bytes|
  {
    if bytes == [] then []
    else (if Keeps(sh, s) then [bytes[0]] else []) + Kept(sh, Next(sh, s), bytes[1..])
  }

  lemma {:induction false} AfterSplit(sh: Shape, s: State, m: nat, n: nat)
    requires Valid(sh, s)
    ensures After(sh, s, m + n) == After(sh, After(sh, s, m), n)
    decreases m
  {
    if m > 0 { AfterSplit(sh, Next(sh, s), m - 1, n); }
  }

  /** A stream may be cut anywhere: what is kept is kept of the pieces in turn. */
  lemma {:induction false} StripSplit(sh: Shape, s: State, a: seq<Byte>, b: seq<Byte>)
    requires Valid(sh, s)
    ensures Kept(sh, s, a + b) == Kept(sh, s, a) + Kept(sh, After(sh, s, |a|), b)
    decreases |a|
  {
    if a == [] {
      assert a + b == b;
    } else {
      assert (a + b)[1..] == a[1..] + b;
      StripSplit(sh, Next(sh, s), a[1..], b);
    }
  }

  /** The part of `run`, which starts at offset `off`, that falls in `[from, to)`. */
  function Overlap(off: nat, run: seq<Byte>, from: nat, to: nat): seq<Byte> {
    var lo, hi := Max(off, from), Min(off + |run|, to);
    if lo < hi then run[lo - off..hi - off] else []
  }

  lemma OverlapStep(off: nat, run: seq<Byte>, from: nat, to: nat)
    requires run != []
    ensures Overlap(off, run, from, to)
         == (if from <= off < to then [run[0]] else []) + Overlap(off + 1, run[1..], from, to)
  {
    var lo, hi := Max(off, from), Min(off + |run|, to);
    if from <= off < to {
      assert Overlap(off + 1, run[1..], from, to) == run[1..][..hi - off - 1] == run[1..hi - off];
    } else if lo < hi {
      SliceOfSlice(run, 1, |run|, lo - off - 1, hi - off - 1);
    }
  }

  /** The state after `n` bytes that do not pass the end of the reading. */
  lemma {:induction false} RunAfter(sh: Shape, s: State, n: nat)
    requires Valid(sh, s) && s.offset + n <= sh.cuts[s.reading].size
    ensures After(sh, s, n)
         == if s.offset + n == sh.cuts[s.reading].size then NextReading(sh, s) else s.(offset := s.offset + n)
    decreases n
  {
    if n > 1 { RunAfter(sh, Next(sh, s), n - 1); }
  }

  /** A run of bytes that stays inside one reading is kept as one slice. */
  lemma {:induction false} StripRun(sh: Shape, s: State, run: seq<Byte>)
    requires Valid(sh, s) && s.offset + |run| <= sh.cuts[s.reading].size
    ensures Kept(sh, s, run)
         == if InImage(sh, s.line)
            then Overlap(s.offset, run, sh.cuts[s.reading].from, sh.cuts[s.reading].to) else []
    decreases |run|
  {
    if run != [] {
      var c, rest := sh.cuts[s.reading], run[1..];
      var one := if Keeps(sh, s) then [run[0]] else [];
      calc {
        Kept(sh, s, run);
        one + Kept(sh, Next(sh, s), rest);
        { if rest != [] { StripRun(sh, Next(sh, s), rest); } }
        one + if InImage(sh, s.line) then Overlap(s.offset + 1, rest, c.from, c.to) else [];
        { OverlapStep(s.offset, run, c.from, c.to); }
        if InImage(sh, s.line) then Overlap(s.offset, run, c.from, c.to) else [];
      }
    }
  }

  /** Where the filter has got to, carried from one chunk to the next. */
  class TruncationState {
    var line: nat
    var reading: nat
    var offsetInReading: nat

    constructor ()
      ensures At() == START
    {
      line, reading, offsetInReading := 0, 0, 0;
    }

    function At(): State
      reads this
    {
      State(line, reading, offsetInReading)
    }

    /** Step over `n` bytes that do not pass the end of the reading. */
    method Advance(n: nat, readingBytes: nat, readings: nat)
      modifies this
      ensures At() == if old(offsetInReading) + n != readingBytes then old(At()).(offset := old(offsetInReading) + n)
                      else if old(reading) + 1 == readings then State(old(line) + 1, 0, 0)
                      else State(old(line), old(reading) + 1, 0)
    {
      offsetInReading := offsetInReading + n;
      if offsetInReading == readingBytes {
        offsetInReading := 0;
        reading := reading + 1;
        if reading == readings {
          reading := 0;
          line := line + 1;
        }
      }
    }
  }

  /**
   * Compact `buf` onto its valid bytes, which end up in `buf[..kept]`.
   *
   * The line range subtracts the trailing invalid lines from the layout's own,
   * so there must be no more of them than lines.
   */
  method StripTruncation(buf: array<Byte>, state: TruncationState, l: Layout) returns (kept: nat)
    requires l.truncatedLinesFrame.last <= l.lines
    requires Valid(ShapeOf(l), state.At())
    modifies buf, state
    ensures kept <= buf.Length
    ensures buf[..kept] == Kept(ShapeOf(l), old(state.At()), old(buf[..]))
    ensures state.At() == After(ShapeOf(l), old(state.At()), buf.Length)
  {
    ghost var whole, s0 := buf[..], state.At();
    var read, write: nat := 0, 0;
    while read < buf.Length
      invariant write <= read <= buf.Length
      invariant Valid(ShapeOf(l), state.At()) && state.At() == After(ShapeOf(l), s0, read)
      invariant buf[..write] == Kept(ShapeOf(l), s0, whole[..read])
      invariant buf[read..] == whole[read..]
      decreases buf.Length - read
    {
      ghost var run: seq<Byte>;
      ghost var done, read0 := buf[..write], read;
      read, write, run := StripOnce(buf, read, write, state, l);
      assert run == whole[read0..read] by { assert run <= whole[read0..]; }
      assert whole[..read] == whole[..read0] + run;
      StripSplit(ShapeOf(l), s0, whole[..read0], run);
      AfterSplit(ShapeOf(l), s0, read0, |run|);
      assert buf[read..] == whole[read0..][|run|..];
    }
    assert whole[..read] == whole;
    kept := write;
  }

  /** One turn of the filter: the rest of the reading in hand, or of the chunk. */
  method StripOnce(buf: array<Byte>, read: nat, write: nat, state: TruncationState, l: Layout)
    returns (read': nat, write': nat, ghost run: seq<Byte>)
    requires l.truncatedLinesFrame.last <= l.lines
    requires write <= read < buf.Length && Valid(ShapeOf(l), state.At())
    modifies buf, state
    ensures read < read' <= buf.Length && write <= write' <= read'
    ensures run == old(buf[read..])[..read' - read]
    ensures buf[..write'] == old(buf[..write]) + Kept(ShapeOf(l), old(state.At()), run)
    ensures buf[read'..] == old(buf[read..])[read' - read..]
    ensures state.At() == After(ShapeOf(l), old(state.At()), read' - read)
  {
    var s := state.At();
    var readingBytes := ReadingBytes(l, s.reading);
    var n: nat := Min(SatSub(readingBytes, s.offset), buf.Length - read);
    run := buf[read..read + n];
    StripRun(ShapeOf(l), s, run);
    RunAfter(ShapeOf(l), s, n);
    write' := KeepPart(buf, read, n, write, s, l);
    read' := read + n;
    state.Advance(n, readingBytes, l.Readings());
  }

  /** Keep what is valid of a run: its overlap with the valid offsets, on a line of the image. */
  method KeepPart(buf: array<Byte>, read: nat, n: nat, write: nat, s: State, l: Layout) returns (write': nat)
    requires l.truncatedLinesFrame.last <= l.lines
    requires write <= read && read + n <= buf.Length
    modifies buf
    ensures write <= write' <= read + n
    ensures buf[..write'] == old(buf[..write])
         + if InImage(ShapeOf(l), s.line)
           then Overlap(s.offset, old(buf[read..read + n]), ReadingCut(l, s.reading).from, ReadingCut(l, s.reading).to)
           else []
    ensures buf[read + n..] == old(buf[read + n..])
  {
    var edges := l.TruncatedBytes(s.reading);
    var keepFrom: nat := edges.first * l.packedRows;
    var keepTo := SatSub(ReadingBytes(l, s.reading), edges.last * l.packedRows);
    write' := write;
    if l.truncatedLinesFrame.first <= s.line < l.lines - l.truncatedLinesFrame.last {
      write' := KeepRun(buf, read, n, write, s.offset, keepFrom, keepTo);
    }
  }

  /** Move the part of the run `buf[read..read + n]` that falls in `[from, to)` down to `write`. */
  method KeepRun(buf: array<Byte>, read: nat, n: nat, write: nat, offset: nat, from: nat, to: nat)
    returns (write': nat)
    requires write <= read && read + n <= buf.Length
    modifies buf
    ensures write <= write' <= read + n
    ensures buf[..write'] == old(buf[..write]) + Overlap(offset, old(buf[read..read + n]), from, to)
    ensures buf[read + n..] == old(buf[read + n..])
  {
    var keepStart, keepEnd := Max(offset, from), Min(offset + n, to);
    write' := write;
    if keepStart < keepEnd {
      var src := read + (keepStart - offset);
      var len := keepEnd - keepStart;
      SliceOfSlice(buf[..], read, read + n, keepStart - offset, keepEnd - offset);
      ghost var tail := buf[read + n..];
      assert tail == buf[write + len..][read + n - (write + len)..];
      CopyWithin(buf, src, len, write);
      assert buf[read + n..] == buf[write + len..][read + n - (write + len)..];
      write' := write + len;
      assert buf[..write'] == buf[..write] + buf[write..write + len];
    }
  }

  /** Move `len` bytes down from `src` to `dst`, overlapping or not. */
  method CopyWithin(buf: array<Byte>, src: nat, len: nat, dst: nat)
    requires dst <= src && src + len <= buf.Length
    modifies buf
    ensures buf[..dst] == old(buf[..dst])
    ensures buf[dst..dst + len] == old(buf[src..src + len])
    ensures buf[dst + len..] == old(buf[dst + len..])
  {
    var i := 0;
    while i < len
      invariant 0 <= i <= len
      invariant buf[..dst] == old(buf[..dst])
      invariant buf[dst..dst + i] == old(buf[src..src + i])
      invariant buf[dst + i..] == old(buf[dst + i..])
    {
      assert buf[src + i] == old(buf[dst + i..])[src - dst];
      buf[dst + i] := buf[src + i];
      i := i + 1;
    }
  }
}
