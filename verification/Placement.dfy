/**
 * How a stream is scrambled, and where each sample of it belongs.
 *
 * A block is `gap` stage positions. A stage position holds its readouts, a
 * readout the sensor bar, and each pixel of the bar one sample per CCD row. The
 * block fills `gap * ccdLines` columns of the image, the rows of the CCD side by
 * side, and the bar reads out backwards down each column.
 */
module Placement {
  import opened Wrappers
  import opened Sequences
  import opened Arith
  import opened Layouts
  import opened Slots
  import opened Curves

  datatype Ordering = Ordering(
    rows: nat,
    cols: nat,
    ccdLines: nat,
    gap: nat,
    slots: seq<Slot>,
    readouts: nat,
    /** A readout: the bar, once for each CCD row */
    readout: nat,
    /** A stage position: all of its readouts */
    stage: nat,
    /** A block, in bytes */
    blockBytes: nat,
    bytesPerSample: nat,
    top: Sample,
    out: Sample,
    curves: Option<Curves>
  ) {
    /** Columns one block fills. */
    function Strip(): nat { gap * ccdLines }

    function BlockSamples(): nat { gap * stage }

    function Blocks(): nat
      requires Strip() > 0
    {
      cols / Strip()
    }
  }

  /** Whole blocks of columns tile the image. */
  predicate Tiled(o: Ordering) {
    o.gap > 0 && o.ccdLines > 0 && o.Strip() > 0 && o.cols % o.Strip() == 0
  }

  /** The sizes of a readout, a stage position and a block are what the bar and the readouts make them. */
  predicate Sized(o: Ordering) {
    && o.readout == o.rows * o.ccdLines
    && o.stage == o.readouts * o.readout
    && o.blockBytes == o.BlockSamples() * o.bytesPerSample
  }

  /** What a decoder builds and every block relies on. */
  ghost predicate WellFormed(o: Ordering) {
    && Tiled(o)
    && o.bytesPerSample in {1, 2}
    && o.top > 0
    && (forall i :: 0 <= i < |o.slots| ==> o.slots[i].readings >= 1 && SlotFits(o, o.slots[i]))
    && forall s: Spot :: InBlock(o, s) ==> SampleFits(o, s)
  }

  /** Every reading of the slot is a readout of the stage position. */
  ghost predicate SlotFits(o: Ordering, slot: Slot) {
    forall r :: 0 <= r < slot.readings ==> slot.Nth(r) < o.readouts
  }

  /** Where a sample sits in its block: the stage position, the readout, the bar pixel, the CCD row. */
  datatype Spot = Spot(position: nat, readout: nat, pixel: nat, line: nat)

  /** A place is in the block whatever readout it names. */
  predicate Placed(o: Ordering, s: Spot) {
    s.position < o.gap && s.pixel < o.rows && s.line < o.ccdLines
  }

  predicate InBlock(o: Ordering, s: Spot) {
    Placed(o, s) && s.readout < o.readouts
  }

  /** The bytes of the sample at a place are bytes of the block. */
  predicate SampleFits(o: Ordering, s: Spot) {
    WireIndex(o, s) * o.bytesPerSample + o.bytesPerSample <= o.blockBytes
  }

  /** Correcting the rows changes no place. */
  lemma CurvesChangeNoPlace(o: Ordering, curves: Option<Curves>)
    requires WellFormed(o)
    ensures WellFormed(o.(curves := curves))
  {
    var o' := o.(curves := curves);
    forall i | 0 <= i < |o.slots| ensures SlotFits(o', o.slots[i]) {
      assert SlotFits(o, o.slots[i]);
    }
    forall s: Spot | InBlock(o', s) ensures SampleFits(o', s) {
      assert InBlock(o, s) && SampleFits(o, s);
    }
  }

  lemma SizedFits(o: Ordering, s: Spot)
    requires Sized(o) && InBlock(o, s)
    ensures SampleFits(o, s)
  {
    LocateWireIndex(o, s);
    MulMono(WireIndex(o, s) + 1, o.BlockSamples(), o.bytesPerSample);
    assert (WireIndex(o, s) + 1) * o.bytesPerSample == WireIndex(o, s) * o.bytesPerSample + o.bytesPerSample;
  }

  /** The sample's index on the wire, from the start of its block. */
  function WireIndex(o: Ordering, s: Spot): nat {
    s.position * o.stage + s.line + s.pixel * o.ccdLines + s.readout * o.readout
  }

  /** The place a wire index names. */
  function Locate(o: Ordering, w: nat): Spot
    requires o.stage > 0 && o.readout > 0 && o.ccdLines > 0
  {
    var within := w % o.stage;
    var inner := within % o.readout;
    Spot(w / o.stage, within / o.readout, inner / o.ccdLines, inner % o.ccdLines)
  }

  /** A place in range has an index in range, which names it. */
  lemma LocateWireIndex(o: Ordering, s: Spot)
    requires Sized(o) && InBlock(o, s)
    ensures o.stage > 0 && o.readout > 0 && o.ccdLines > 0
    ensures WireIndex(o, s) < o.BlockSamples()
    ensures Locate(o, WireIndex(o, s)) == s
  {
    var inner := s.pixel * o.ccdLines + s.line;
    DigitBound(s.pixel, s.line, o.rows, o.ccdLines);
    DivModUnique(inner, o.ccdLines, s.pixel, s.line);
    var within := s.readout * o.readout + inner;
    DigitBound(s.readout, inner, o.readouts, o.readout);
    DivModUnique(within, o.readout, s.readout, inner);
    DigitBound(s.position, within, o.gap, o.stage);
    DivModUnique(s.position * o.stage + within, o.stage, s.position, within);
  }

  /** An index in range names a place in range, whose index it is. */
  lemma WireIndexLocate(o: Ordering, w: nat)
    requires Sized(o) && w < o.BlockSamples()
    ensures o.stage > 0 && o.readout > 0 && o.ccdLines > 0
    ensures InBlock(o, Locate(o, w))
    ensures WireIndex(o, Locate(o, w)) == w
  {
    assert o.stage > 0 && o.gap > 0;
    assert o.readout > 0;
    assert o.ccdLines > 0;
    DigitRange(w, o.gap, o.stage);
    FundamentalDivMod(w, o.stage);
    var within := w % o.stage;
    DigitRange(within, o.readouts, o.readout);
    FundamentalDivMod(within, o.readout);
    var inner := within % o.readout;
    DigitRange(inner, o.rows, o.ccdLines);
    FundamentalDivMod(inner, o.ccdLines);
    Commute(o.stage, w / o.stage);
    Commute(o.readout, within / o.readout);
    Commute(o.ccdLines, inner / o.ccdLines);
  }

  /** A block as the stage positions, of readouts, of bar pixels, of CCD rows that an ordering says. */
  predicate InShape<T>(o: Ordering, block: seq<seq<seq<seq<T>>>>) {
    && |block| == o.gap && Even(block, o.readouts)
    && forall p :: 0 <= p < o.gap ==>
         Even(block[p], o.rows) && forall q :: 0 <= q < o.readouts ==> Even(block[p][q], o.ccdLines)
  }

  /** The wire is the stage positions in turn, each its readouts in turn, each the bar, a sample a row at each pixel. */
  lemma WireIsInTurn<T>(o: Ordering, block: seq<seq<seq<seq<T>>>>, s: Spot)
    requires Sized(o) && InShape(o, block) && InBlock(o, s)
    ensures var wire := Flatten(Flatten(Flatten(block)));
            && |wire| == o.BlockSamples() && WireIndex(o, s) < |wire|
            && wire[WireIndex(o, s)] == block[s.position][s.readout][s.pixel][s.line]
  {
    var readouts, bars := Flatten(block), Flatten(Flatten(block));
    FlattenLength(block, o.readouts);
    FlattenEven(block, o.readouts, o.rows);
    FlattenLength(readouts, o.rows);
    assert Even(bars, o.ccdLines) by { BarsAreEven(o, block); }
    FlattenLength(bars, o.ccdLines);
    FlattenAt(block, o.readouts, s.position, s.readout);
    FlattenAt(readouts, o.rows, s.position * o.readouts + s.readout, s.pixel);
    FlattenAt(bars, o.ccdLines, (s.position * o.readouts + s.readout) * o.rows + s.pixel, s.line);
    InTurn(s.position, s.readout, s.pixel, s.line, o.readouts, o.rows, o.ccdLines);
    InTurn(o.gap, 0, 0, 0, o.readouts, o.rows, o.ccdLines);
  }

  lemma BarsAreEven<T>(o: Ordering, block: seq<seq<seq<seq<T>>>>)
    requires InShape(o, block)
    ensures Even(Flatten(Flatten(block)), o.ccdLines)
  {
    var readouts := Flatten(block);
    FlattenLength(block, o.readouts);
    FlattenEven(block, o.readouts, o.rows);
    forall n | 0 <= n < |readouts| ensures Even(readouts[n], o.ccdLines) {
      assert o.readouts > 0;
      DigitRange(n, o.gap, o.readouts);
      FundamentalDivMod(n, o.readouts);
      FlattenAt(block, o.readouts, n / o.readouts, n % o.readouts);
    }
    FlattenEven(readouts, o.rows, o.ccdLines);
  }

  lemma InTurn(position: nat, readout: nat, pixel: nat, line: nat, readouts: nat, rows: nat, ccdLines: nat)
    ensures ((position * readouts + readout) * rows + pixel) * ccdLines + line
         == position * (readouts * (rows * ccdLines)) + line + pixel * ccdLines + readout * (rows * ccdLines)
  {
    var bar := rows * ccdLines;
    assert (position * readouts + readout) * bar == position * (readouts * bar) + readout * bar;
    assert (position * readouts + readout) * rows * ccdLines == (position * readouts + readout) * bar;
  }

  lemma Commute(a: int, b: int)
    ensures a * b == b * a
  {
  }

  /** The image column of a place of block `n`. */
  function Column(o: Ordering, n: nat, s: Spot): nat {
    n * o.Strip() + (s.line * o.gap + s.position)
  }

  /** The image pixel of a place of block `n`, rows of `cols` samples one after another. */
  function Pixel(o: Ordering, n: nat, s: Spot): int {
    (o.rows - 1 - s.pixel) * o.cols + Column(o, n, s)
  }

  /** A plane's pixel and one reading of it. */
  datatype Dest = Dest(channel: nat, pixel: int, reading: nat)

  /** A block and a sample of it. */
  datatype Source = Source(block: nat, index: nat)

  /** The block and the place, but for the readout, that fill a pixel. */
  function Origin(o: Ordering, pixel: nat, readout: nat): (nat, Spot)
    requires o.cols > 0 && o.Strip() > 0 && o.gap > 0 && pixel < o.rows * o.cols
  {
    DigitRange(pixel, o.rows, o.cols);
    var x := pixel % o.cols;
    var col := x % o.Strip();
    (x / o.Strip(), Spot(col % o.gap, readout, o.rows - 1 - pixel / o.cols, col / o.gap))
  }

  /** A block's columns lie in the image. */
  lemma ColumnInImage(o: Ordering, n: nat, s: Spot)
    requires Tiled(o) && n < o.Blocks() && Placed(o, s)
    ensures n * o.Strip() <= Column(o, n, s) < n * o.Strip() + o.Strip() <= o.cols
    ensures 0 <= Pixel(o, n, s) < o.rows * o.cols
  {
    var strip := o.Strip();
    DigitBound(s.line, s.position, o.ccdLines, o.gap);
    Commute(o.gap, o.ccdLines);
    FundamentalDivMod(o.cols, strip);
    Commute(strip, o.cols / strip);
    MulMono(n + 1, o.cols / strip, strip);
    assert (n + 1) * strip == n * strip + strip;
    DigitBound(o.rows - 1 - s.pixel, Column(o, n, s), o.rows, o.cols);
  }

  /** A place of a block fills a pixel that it alone fills. */
  lemma OriginOfPixel(o: Ordering, n: nat, s: Spot)
    requires Tiled(o) && n < o.Blocks() && Placed(o, s)
    ensures 0 <= Pixel(o, n, s) < o.rows * o.cols && o.cols > 0
    ensures Origin(o, Pixel(o, n, s), s.readout) == (n, s)
  {
    ColumnInImage(o, n, s);
    var x := Column(o, n, s);
    DivModUnique(Pixel(o, n, s), o.cols, o.rows - 1 - s.pixel, x);
    DigitBound(s.line, s.position, o.ccdLines, o.gap);
    Commute(o.gap, o.ccdLines);
    DivModUnique(x, o.Strip(), n, s.line * o.gap + s.position);
    DivModUnique(s.line * o.gap + s.position, o.gap, s.line, s.position);
  }

  /** Every pixel of the image is filled by a place of a block. */
  lemma PixelOfOrigin(o: Ordering, pixel: nat, readout: nat)
    requires Tiled(o) && pixel < o.rows * o.cols
    ensures o.cols > 0
    ensures var (n, s) := Origin(o, pixel, readout);
            n < o.Blocks() && Placed(o, s) && Pixel(o, n, s) == pixel
  {
    assert o.cols > 0;
    DigitRange(pixel, o.rows, o.cols);
    FundamentalDivMod(pixel, o.cols);
    var x, strip := pixel % o.cols, o.Strip();
    FundamentalDivMod(o.cols, strip);
    Commute(strip, o.cols / strip);
    DigitRange(x, o.cols / strip, strip);
    FundamentalDivMod(x, strip);
    Commute(strip, x / strip);
    var col := x % strip;
    Commute(o.gap, o.ccdLines);
    DigitRange(col, o.ccdLines, o.gap);
    FundamentalDivMod(col, o.gap);
    Commute(o.gap, col / o.gap);
    Commute(o.cols, pixel / o.cols);
  }

  /** The slots of a channel list, which is what a decoder's ordering holds. */
  ghost predicate SlotsOf(o: Ordering, channels: seq<Byte>, readings: nat, infraredPerReading: bool) {
    && readings >= 1
    && o.readouts == ReadoutCount(channels, readings, infraredPerReading)
    && |o.slots| == |channels|
    && forall i :: 0 <= i < |channels| ==> o.slots[i] == SlotOf(channels, readings, infraredPerReading, i)
  }

  /** Which pixel and which reading of it a wire sample is. */
  function DestOf(o: Ordering, channels: seq<Byte>, readings: nat, infraredPerReading: bool, at: Source): Dest
    requires readings >= 1 && o.readouts == ReadoutCount(channels, readings, infraredPerReading)
    requires Sized(o) && at.index < o.BlockSamples()
  {
    WireIndexLocate(o, at.index);
    var s := Locate(o, at.index);
    var (channel, reading) := ReaderOf(channels, readings, infraredPerReading, s.readout);
    Dest(channel, Pixel(o, at.block, s), reading)
  }

  /** Which wire sample a reading of a pixel is. */
  function SourceOf(o: Ordering, dest: Dest): Source
    requires dest.channel < |o.slots| && 0 <= dest.pixel < o.rows * o.cols && o.cols > 0
    requires o.Strip() > 0 && o.gap > 0
  {
    var (n, s) := Origin(o, dest.pixel, o.slots[dest.channel].Nth(dest.reading));
    Source(n, WireIndex(o, s))
  }

  /** Every wire sample of every block is one reading of one pixel of one channel... */
  lemma EverySampleIsPlaced(o: Ordering, channels: seq<Byte>, readings: nat, infraredPerReading: bool, at: Source)
    requires Tiled(o) && Sized(o) && SlotsOf(o, channels, readings, infraredPerReading)
    requires at.block < o.Blocks() && at.index < o.BlockSamples()
    ensures var dest := DestOf(o, channels, readings, infraredPerReading, at);
            && dest.channel < |channels| && dest.reading < o.slots[dest.channel].readings
            && 0 <= dest.pixel < o.rows * o.cols && o.cols > 0
            && SourceOf(o, dest) == at
  {
    WireIndexLocate(o, at.index);
    var s := Locate(o, at.index);
    ReadoutHasReader(channels, readings, infraredPerReading, s.readout);
    OriginOfPixel(o, at.block, s);
  }

  /** ...and every reading of every pixel of every channel is one wire sample. */
  lemma EveryReadingHasASample(o: Ordering, channels: seq<Byte>, readings: nat, infraredPerReading: bool, dest: Dest)
    requires Tiled(o) && Sized(o) && SlotsOf(o, channels, readings, infraredPerReading)
    requires dest.channel < |channels| && dest.reading < o.slots[dest.channel].readings
    requires 0 <= dest.pixel < o.rows * o.cols
    ensures o.cols > 0
    ensures var at := SourceOf(o, dest);
            && at.block < o.Blocks() && at.index < o.BlockSamples()
            && DestOf(o, channels, readings, infraredPerReading, at) == dest
  {
    var q := o.slots[dest.channel].Nth(dest.reading);
    ReaderHasReadout(channels, readings, infraredPerReading, dest.channel, dest.reading);
    PixelOfOrigin(o, dest.pixel, q);
    var (n, s) := Origin(o, dest.pixel, q);
    LocateWireIndex(o, s);
  }
}
