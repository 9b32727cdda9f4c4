/** The frame tables a host and a unit exchange, as records of bytes. */
module Records {
  import opened Arith
  import opened Layouts
  import opened Wrappers
  import opened Sequences

  type Word = v: int | 0 <= v < 0x1_0000
  type Long = v: int | 0 <= v < 0x1_0000_0000

  // ----- big-endian numbers

  function BytesOfWord(v: Word): (b: seq<Byte>)
    ensures |b| == 2 && v == b[0] as int * 0x100 + b[1]
  {
    [v / 0x100, v % 0x100]
  }

  function WordOf(b: seq<Byte>): Word
    requires |b| == 2
  {
    b[0] as int * 0x100 + b[1] as int
  }

  function BytesOfLong(v: Long): (b: seq<Byte>)
    ensures |b| == 4 && v == b[0] as int * 0x100_0000 + b[1] as int * 0x1_0000 + b[2] as int * 0x100 + b[3]
  {
    BytesOfWord(v / 0x1_0000) + BytesOfWord(v % 0x1_0000)
  }

  function LongOf(b: seq<Byte>): Long
    requires |b| == 4
  {
    WordOf(b[..2]) as int * 0x1_0000 + WordOf(b[2..]) as int
  }

  lemma WordComesBack(v: Word)
    ensures WordOf(BytesOfWord(v)) == v
  {
  }

  lemma WordBytesComeBack(b: seq<Byte>)
    requires |b| == 2
    ensures BytesOfWord(WordOf(b)) == b
  {
  }

  lemma LongComesBack(v: Long)
    ensures LongOf(BytesOfLong(v)) == v
  {
    WordComesBack(v / 0x1_0000);
    WordComesBack(v % 0x1_0000);
    assert BytesOfLong(v)[..2] == BytesOfWord(v / 0x1_0000);
    assert BytesOfLong(v)[2..] == BytesOfWord(v % 0x1_0000);
  }

  lemma LongBytesComeBack(b: seq<Byte>)
    requires |b| == 4
    ensures BytesOfLong(LongOf(b)) == b
  {
    WordBytesComeBack(b[..2]);
    WordBytesComeBack(b[2..]);
    DivModUnique(LongOf(b), 0x1_0000, WordOf(b[..2]), WordOf(b[2..]));
    assert b == b[..2] + b[2..];
  }

  // ----- entries

  datatype Rect = Rect(top: Long, left: Long, bottom: Long, right: Long)

  datatype FramePosition = FramePosition(top: Long, perfNumber: Word, perfDecimal: Byte, pulseNumber: Byte)

  /** What the unit measured at one line of a thumbnail. */
  datatype Perforation = Perforation(number: Word, switching: bool, decimal: Byte, pulse: Byte)

  function BytesOfRect(r: Rect): (b: seq<Byte>)
    ensures |b| == 16
  {
    BytesOfLong(r.top) + BytesOfLong(r.left) + BytesOfLong(r.bottom) + BytesOfLong(r.right)
  }

  function RectOf(b: seq<Byte>): Rect
    requires |b| == 16
  {
    Rect(LongOf(b[0..4]), LongOf(b[4..8]), LongOf(b[8..12]), LongOf(b[12..16]))
  }

  function BytesOfPosition(f: FramePosition): (b: seq<Byte>)
    ensures |b| == 8
  {
    BytesOfLong(f.top) + BytesOfWord(f.perfNumber) + [f.perfDecimal, f.pulseNumber]
  }

  function PositionOf(b: seq<Byte>): FramePosition
    requires |b| == 8
  {
    FramePosition(LongOf(b[0..4]), WordOf(b[4..6]), b[6], b[7])
  }

  function PerforationOf(b: seq<Byte>): Perforation
    requires |b| == 4
  {
    Perforation(WordOf(b[0..2]), b[2] >= 0x80, b[2] % 0x80, b[3])
  }

  /** A frame's entry: a top, and the unit's own reading of where it is. */
  function Entry(top: Long, p: Perforation): FramePosition {
    FramePosition(top, p.number, if p.switching && p.decimal < 0x80 then p.decimal + 0x80 else p.decimal, p.pulse)
  }

  /** An entry carries the reading byte for byte as the unit gave it. */
  lemma EntryKeepsTheReading(top: Long, b: seq<Byte>)
    requires |b| == 4
    ensures BytesOfPosition(Entry(top, PerforationOf(b)))[4..] == b
  {
    WordBytesComeBack(b[0..2]);
    var e := Entry(top, PerforationOf(b));
    assert BytesOfPosition(e)[4..] == BytesOfWord(e.perfNumber) + [e.perfDecimal, e.pulseNumber];
  }

  lemma RectComesBack(r: Rect)
    ensures RectOf(BytesOfRect(r)) == r
  {
    LongComesBack(r.top);
    LongComesBack(r.left);
    LongComesBack(r.bottom);
    LongComesBack(r.right);
    var b := BytesOfRect(r);
    assert b[0..4] == BytesOfLong(r.top) && b[4..8] == BytesOfLong(r.left);
    assert b[8..12] == BytesOfLong(r.bottom) && b[12..16] == BytesOfLong(r.right);
  }

  lemma PositionComesBack(f: FramePosition)
    ensures PositionOf(BytesOfPosition(f)) == f
  {
    LongComesBack(f.top);
    WordComesBack(f.perfNumber);
    var b := BytesOfPosition(f);
    assert b[0..4] == BytesOfLong(f.top) && b[4..6] == BytesOfWord(f.perfNumber);
  }

  lemma PositionBytesComeBack(b: seq<Byte>)
    requires |b| == 8
    ensures BytesOfPosition(PositionOf(b)) == b
  {
    LongBytesComeBack(b[0..4]);
    WordBytesComeBack(b[4..6]);
    assert b == b[0..4] + b[4..6] + [b[6], b[7]];
  }

  // ----- records of rectangles

  datatype Refusal = NoFrames | TooMany

  const HEAD: nat := 4
  const RECT: nat := 16
  const BOUNDARY: nat := 8

  function BodyOfRects(frames: seq<Rect>): (b: seq<Byte>)
    ensures |b| == |frames| * RECT
  {
    if frames == [] then [] else BodyOfRects(frames[..|frames| - 1]) + BytesOfRect(frames[|frames| - 1])
  }

  /** A record of rectangles. Its length field counts the whole of it. */
  function RectsToBytes(frames: seq<Rect>): Result<seq<Byte>, Refusal> {
    if frames == [] then Err(NoFrames)
    else if |frames| > 0xFF then Err(TooMany)
    else Ok(BytesOfWord(HEAD + |frames| * RECT) + [|frames|, 0] + BodyOfRects(frames))
  }

  /** Reading one looks at the count and not at the length. */
  function RectsFromBytes(b: seq<Byte>): Option<seq<Rect>> {
    if |b| < HEAD then None
    else if |b| < HEAD + b[2] * RECT then None
    else Some(seq(b[2], n requires 0 <= n < b[2] => RectOf(b[HEAD + n * RECT..HEAD + n * RECT + RECT])))
  }

  lemma {:induction false} RectAt(frames: seq<Rect>, n: nat)
    requires n < |frames|
    ensures BodyOfRects(frames)[n * RECT..n * RECT + RECT] == BytesOfRect(frames[n])
  {
    var last := |frames| - 1;
    if n < last {
      RectAt(frames[..last], n);
      assert BodyOfRects(frames)[n * RECT..n * RECT + RECT] == BodyOfRects(frames[..last])[n * RECT..n * RECT + RECT];
    }
  }

  /**
   * A record of rectangles: its whole length, high byte first; how many there are; a
   * byte that is always zero; and the edges of each, clockwise from its top by
   * way of its left.
   */
  lemma RectRecord(frames: seq<Rect>, n: nat)
    requires RectsToBytes(frames).Ok? && n < |frames|
    ensures var b := RectsToBytes(frames).value;
            && |b| == 4 + 16 * |frames| == b[0] as int * 0x100 + b[1]
            && b[2] == |frames| && b[3] == 0
            && b[4 + 16 * n..20 + 16 * n] == BytesOfLong(frames[n].top) + BytesOfLong(frames[n].left)
                                             + BytesOfLong(frames[n].bottom) + BytesOfLong(frames[n].right)
  {
    RectAt(frames, n);
    var b, at := RectsToBytes(frames).value, n * RECT;
    assert b[HEAD + at..HEAD + at + RECT] == BodyOfRects(frames)[at..at + RECT];
  }

  /** A table of rectangles reads back as it was written, whatever follows it. */
  lemma RectsComeBack(frames: seq<Rect>, more: seq<Byte>)
    ensures RectsToBytes(frames).Ok? <==> 1 <= |frames| <= 0xFF
    ensures RectsToBytes(frames).Ok? ==> RectsFromBytes(RectsToBytes(frames).value + more) == Some(frames)
  {
    if 1 <= |frames| <= 0xFF {
      var b := RectsToBytes(frames).value + more;
      var got := RectsFromBytes(b).value;
      forall n | 0 <= n < |frames| ensures got[n] == frames[n] {
        RectAt(frames, n);
        RectComesBack(frames[n]);
        assert b[HEAD + n * RECT..HEAD + n * RECT + RECT] == BodyOfRects(frames)[n * RECT..n * RECT + RECT];
      }
      assert got == frames;
    }
  }

  // ----- records of positions

  function BodyOfPositions(frames: seq<FramePosition>): (b: seq<Byte>)
    ensures |b| == |frames| * BOUNDARY
  {
    if frames == [] then [] else BodyOfPositions(frames[..|frames| - 1]) + BytesOfPosition(frames[|frames| - 1])
  }

  /** A record of positions. Its length field is two short of the whole of it. */
  function PositionsToBytes(frames: seq<FramePosition>): Result<seq<Byte>, Refusal> {
    if frames == [] then Err(NoFrames)
    else if |frames| > 0xFF then Err(TooMany)
    else Ok(BytesOfWord(HEAD + |frames| * BOUNDARY - 2) + [|frames|, 0] + BodyOfPositions(frames))
  }

  function PositionsFromBytes(b: seq<Byte>): Option<seq<FramePosition>> {
    if |b| < HEAD then None
    else
      var total := WordOf(b[..2]) + 2;
      if total != HEAD + b[2] * BOUNDARY || |b| < total then None
      else Some(seq(b[2], n requires 0 <= n < b[2] =>
             PositionOf(b[HEAD + n * BOUNDARY..HEAD + n * BOUNDARY + BOUNDARY])))
  }

  lemma {:induction false} PositionAt(frames: seq<FramePosition>, n: nat)
    requires n < |frames|
    ensures BodyOfPositions(frames)[n * BOUNDARY..n * BOUNDARY + BOUNDARY] == BytesOfPosition(frames[n])
  {
    var last := |frames| - 1;
    if n < last {
      PositionAt(frames[..last], n);
      assert BodyOfPositions(frames)[n * BOUNDARY..n * BOUNDARY + BOUNDARY]
          == BodyOfPositions(frames[..last])[n * BOUNDARY..n * BOUNDARY + BOUNDARY];
    }
  }

  /** A record of positions counts two bytes less than its length, and each entry is its top and its reading. */
  lemma PositionRecord(frames: seq<FramePosition>, n: nat)
    requires PositionsToBytes(frames).Ok? && n < |frames|
    ensures var b := PositionsToBytes(frames).value;
            && |b| == 4 + 8 * |frames| == b[0] as int * 0x100 + b[1] + 2
            && b[2] == |frames| && b[3] == 0
            && b[4 + 8 * n..12 + 8 * n]
               == BytesOfLong(frames[n].top) + BytesOfWord(frames[n].perfNumber)
                  + [frames[n].perfDecimal, frames[n].pulseNumber]
  {
    PositionAt(frames, n);
    var b, at := PositionsToBytes(frames).value, n * BOUNDARY;
    assert b[HEAD + at..HEAD + at + BOUNDARY] == BodyOfPositions(frames)[at..at + BOUNDARY];
  }

  /** A table of positions reads back as it was written, whatever follows it. */
  lemma PositionsComeBack(frames: seq<FramePosition>, more: seq<Byte>)
    ensures PositionsToBytes(frames).Ok? <==> 1 <= |frames| <= 0xFF
    ensures PositionsToBytes(frames).Ok? ==> PositionsFromBytes(PositionsToBytes(frames).value + more) == Some(frames)
  {
    if 1 <= |frames| <= 0xFF {
      var b := PositionsToBytes(frames).value + more;
      WordComesBack(HEAD + |frames| * BOUNDARY - 2);
      assert b[..2] == BytesOfWord(HEAD + |frames| * BOUNDARY - 2);
      var got := PositionsFromBytes(b).value;
      forall n | 0 <= n < |frames| ensures got[n] == frames[n] {
        PositionAt(frames, n);
        PositionComesBack(frames[n]);
        assert b[HEAD + n * BOUNDARY..HEAD + n * BOUNDARY + BOUNDARY]
            == BodyOfPositions(frames)[n * BOUNDARY..n * BOUNDARY + BOUNDARY];
      }
      assert got == frames;
    }
  }

  /**
   * What reads as a table: for rectangles as many bytes as the count in the third says,
   * whatever the length field; for positions, with a length field that agrees.
   */
  lemma WhatIsATable(b: seq<Byte>)
    ensures RectsFromBytes(b).Some? <==> |b| >= 4 && |b| >= 4 + 16 * (b[2] as int)
    ensures RectsFromBytes(b).Some? ==> |RectsFromBytes(b).value| == b[2]
    ensures PositionsFromBytes(b).Some? <==> |b| >= 4 && |b| >= 4 + 8 * (b[2] as int) == b[0] as int * 0x100 + b[1] + 2
    ensures PositionsFromBytes(b).Some? ==> |PositionsFromBytes(b).value| == b[2]
  {
  }

  /**
   * A record that reads as a table of some frames is what writing the table gives,
   * but for its reserved byte and what follows its end.
   */
  lemma PositionBytesAreTheTable(b: seq<Byte>)
    requires PositionsFromBytes(b).Some? && PositionsFromBytes(b).value != []
    ensures var frames := PositionsFromBytes(b).value;
            var total := HEAD + |frames| * BOUNDARY;
            && |b| >= total && PositionsToBytes(frames).Ok?
            && PositionsToBytes(frames).value == b[..3] + [0] + b[HEAD..total]
  {
    var frames := PositionsFromBytes(b).value;
    var total := HEAD + |frames| * BOUNDARY;
    WordBytesComeBack(b[..2]);
    assert b[..3] == b[..2] + [b[2]];
    var body := b[HEAD..total];
    forall n | 0 <= n < |frames| ensures frames[n] == PositionOf(Eighth(body, n)) {
      SliceOfSlice(b, HEAD, total, n * BOUNDARY, n * BOUNDARY + BOUNDARY);
    }
    BodyOfRead(body, frames);
  }

  /** The `n`th eight bytes. */
  function Eighth(body: seq<Byte>, n: nat): (b: seq<Byte>)
    requires n * BOUNDARY + BOUNDARY <= |body|
    ensures |b| == BOUNDARY
  {
    body[n * BOUNDARY..n * BOUNDARY + BOUNDARY]
  }

  lemma {:induction false} BodyOfRead(body: seq<Byte>, frames: seq<FramePosition>)
    requires |body| == |frames| * BOUNDARY
    requires forall n :: 0 <= n < |frames| ==> frames[n] == PositionOf(Eighth(body, n))
    ensures BodyOfPositions(frames) == body
    decreases |frames|
  {
    if frames != [] {
      var last := |frames| - 1;
      var rest := body[..last * BOUNDARY];
      forall n | 0 <= n < last ensures frames[..last][n] == PositionOf(Eighth(rest, n)) {
        assert frames[n] == PositionOf(Eighth(body, n));
        assert Eighth(rest, n) == Eighth(body, n);
      }
      BodyOfRead(rest, frames[..last]);
      PositionBytesComeBack(Eighth(body, last));
      assert body == rest + Eighth(body, last);
    }
  }
}
