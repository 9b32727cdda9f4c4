/**
 * The shape of a pass's byte stream. Image data carries no header and no length
 * of its own, so every byte count below is computed from this record alone.
 */
module Layouts {
  import opened Arith

  type Byte = b: int | 0 <= b < 0x100
  type Sample = v: int | 0 <= v < 0x1_0000

  /** Window identifier of the infrared channel; every other identifier is a color. */
  const INFRARED: Byte := 9

  predicate IsColor(id: Byte) { id != INFRARED }

  /** How many of `channels` are colors, or how many are not. */
  function Count(channels: seq<Byte>, color: bool): (n: nat)
    ensures n <= |channels|
  {
    if channels == [] then 0
    else (if IsColor(channels[0]) == color then 1 else 0) + Count(channels[1..], color)
  }

  /** The bits of descriptor byte 44. */
  datatype Interleaving =
    | PixelWithoutDistance
    | LineWithoutDistance
    | Plane
    | PixelWithDistance
    | LineWithDistance
    | MultilineSimultaneous

  /** A count of padding at each end of an axis. */
  datatype Edges = Edges(first: nat, last: nat)

  const NO_EDGES := Edges(0, 0)

  /** The transfer lengths a READ may end on: `first`, then `rest` repeated to `line`. */
  datatype Granules = Granules(first: nat, rest: nat, line: nat)

  function Every(bytes: nat): Granules { Granules(bytes, bytes, bytes) }

  datatype Layout = Layout(
    pixels: nat,
    lines: nat,
    bytesPerSample: nat,
    bitsPerSample: nat,
    channels: seq<Byte>,
    interleaving: set<Interleaving>,
    readingsPerLine: nat,
    infraredPerReading: bool,
    ccdLines: nat,
    packedRows: nat,
    registrationGap: nat,
    granules: Granules,
    truncatedBytesLine: Edges,
    truncatedBytesOnce: Edges,
    truncatedLinesFrame: Edges,
    multilineRegistered: bool
  ) {
    function Colors(): nat { Count(channels, true) }

    /** Channels the unit reads once however often it reads a line. */
    function Once(): nat { |channels| - Colors() }

    function Readings(): nat { Max(readingsPerLine, 1) }

    /** Valid bits in a decoded sample: an average of several readings fills 16. */
    function SampleBits(): nat {
      if Readings() == 1 then bitsPerSample else 16
    }

    predicate EvenReadings() {
      Readings() == 1 || infraredPerReading || |channels| == Colors()
    }

    /** Invalid bytes at each end of one reading of a line. */
    function TruncatedBytes(reading: nat): Edges {
      if reading == 0 && !EvenReadings() then truncatedBytesOnce else truncatedBytesLine
    }

    /** Readouts one reading carries. */
    function ReadingReadouts(reading: nat): nat {
      if infraredPerReading then |channels|
      else Colors() + (if reading == 0 then Once() else 0)
    }

    /** Valid bytes of one reading of a line. */
    function ReadingPayload(reading: nat): nat {
      pixels * bytesPerSample * ReadingReadouts(reading)
    }

    function BytesPerReading(reading: nat): nat {
      ReadingPayload(reading) + TruncatedBytes(reading).first + TruncatedBytes(reading).last
    }

    /** Bytes of the readings `r..Readings()` of one line. */
    function BytesFrom(r: nat): nat
      decreases Readings() - r
    {
      if r >= Readings() then 0 else BytesPerReading(r) + BytesFrom(r + 1)
    }

    function BytesPerLine(): nat { BytesFrom(0) }

    function TotalBytes(): nat {
      BytesPerLine() * (lines + truncatedLinesFrame.first + truncatedLinesFrame.last)
    }

    /** Readouts the unit emits per line, with the raw reading count for the colors. */
    function Readouts(): nat {
      if infraredPerReading then |channels| * Readings()
      else Colors() * readingsPerLine + Once()
    }

    function ReadingGranules(): Granules {
      var first := Max(BytesPerReading(0) * packedRows, 1);
      if EvenReadings() then Every(first)
      else Granules(first, Max(BytesPerReading(1) * packedRows, 1), Max(BytesPerLine() * packedRows, 1))
    }

    /** No reading of a line is empty, so counting it as at least one byte changes nothing. */
    predicate ReadingsNonempty() {
      forall r :: 0 <= r < Readings() ==> BytesPerReading(r) * packedRows >= 1
    }
  }

  /** Every reading after the first is as long as the second. */
  lemma {:induction false} LaterReadings(l: Layout, r: nat)
    requires 1 <= r <= l.Readings()
    ensures l.BytesFrom(r) == (l.Readings() - r) * l.BytesPerReading(1)
    decreases l.Readings() - r
  {
    if r < l.Readings() {
      LaterReadings(l, r + 1);
      var n, b := l.Readings() - r, l.BytesPerReading(1);
      assert n * b == (n - 1) * b + b;
    }
  }

  /** A line is its first reading and then the second reading repeated. */
  lemma LineOfReadings(l: Layout)
    ensures l.BytesPerLine() == l.BytesPerReading(0) + (l.Readings() - 1) * l.BytesPerReading(1)
    ensures l.EvenReadings() ==> l.BytesPerLine() == l.Readings() * l.BytesPerReading(0)
  {
    LaterReadings(l, 1);
    if l.EvenReadings() && l.Readings() > 1 {
      assert l.ReadingReadouts(0) == l.ReadingReadouts(1);
      var n, b := l.Readings(), l.BytesPerReading(0);
      assert n * b == (n - 1) * b + b;
    }
  }
}
