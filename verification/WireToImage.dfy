/**
 * From the wire to the image. A scene is encoded as the unit sends it, padding
 * and all; the filter and the decoder between them give the scene back, however
 * the stream is cut into chunks.
 */
module WireToImage {
  import opened Wrappers
  import opened Arith
  import opened Layouts
  import opened Truncation
  import opened Padding
  import opened Slots
  import opened Averaging
  import opened Curves
  import opened Placement
  import opened Emission
  import opened Decoding

  /** A layout whose stream is one a decoder can be fed. */
  ghost predicate Scannable(l: Layout) {
    && Refused(l) == None
    && l.readingsPerLine >= 1
    && l.pixels > 0 && l.channels != []
  }

  /** The layout of a bare stream: one row at a time, 16 bits, every line read once. */
  function SingleLine(pixels: nat, lines: nat, channels: seq<Byte>): Layout {
    Layout(pixels, lines, 2, 16, channels, {LineWithoutDistance}, 1, false, 1, 1, 0,
           Layouts.Every(1), NO_EDGES, NO_EDGES, NO_EDGES, false)
  }

  /** Any bare stream of some pixels and channels is one whose scene comes back. */
  lemma SingleLineIsScannable(pixels: nat, lines: nat, channels: seq<Byte>)
    requires pixels > 0 && channels != []
    ensures var l := SingleLine(pixels, lines, channels);
            Scannable(l) && GroupsTile(l) && l.ReadingsNonempty()
  {
    var l := SingleLine(pixels, lines, channels);
    DivModUnique(lines, 1, lines, 0);
    assert Gap(l) * CcdLines(l) == 1;
    WhichReadingsAreEmpty(l);
  }

  /** The blocks of an accepted layout of some reading have bytes exactly when it has pixels and channels. */
  lemma BlocksHaveBytes(l: Layout)
    requires Refused(l) == None && l.readingsPerLine >= 1
    ensures OrderingOf(l).blockBytes > 0 <==> l.pixels > 0 && l.channels != []
  {
    if l.pixels > 0 && l.channels != [] {
      ScannableOrdering(l, None);
    } else {
      CountBoth(l.channels);
      var o := OrderingOf(l);
      if l.pixels == 0 {
        assert 0 * o.ccdLines == 0 && l.Readouts() * 0 == 0;
      } else {
        assert 0 * l.readingsPerLine == 0 && 0 * (l.pixels * o.ccdLines) == 0;
      }
      assert o.gap * 0 == 0 && 0 * l.bytesPerSample == 0;
    }
  }

  /** A bare stream with a reading count of zero is accepted, and its slots overrun their stage position. */
  lemma NoReadings()
    ensures var l := SingleLine(1, 1, [1]).(readingsPerLine := 0);
            Refused(l) == None && !WellFormed(OrderingOf(l))
  {
    var l := SingleLine(1, 1, [1]).(readingsPerLine := 0);
    assert Gap(l) * CcdLines(l) == 1;
    assert l.Colors() == 1 by { assert l.channels[1..] == []; }
    AcceptedIsWellFormed(l);
  }

  /**
   * The layouts with an empty reading: nothing but infrared, read more than once
   * but sent the first time only, and nothing attached to the others.
   */
  lemma WhichReadingsAreEmpty(l: Layout)
    requires Scannable(l) && l.packedRows >= 1
    ensures l.ReadingsNonempty() <==>
              l.Readings() == 1 || l.Colors() > 0 || l.infraredPerReading || l.truncatedBytesLine != NO_EDGES
  {
    CountBoth(l.channels);
    forall r | 0 <= r < l.Readings()
      ensures l.BytesPerReading(r) * l.packedRows >= 1 <==>
                r == 0 || l.Colors() > 0 || l.infraredPerReading || l.truncatedBytesLine != NO_EDGES
    {
      SomethingSent(l.pixels, l.bytesPerSample, l.ReadingReadouts(r));
      MulMono(0, l.BytesPerReading(r), l.packedRows);
      if l.BytesPerReading(r) >= 1 { MulMono(1, l.BytesPerReading(r), l.packedRows); }
    }
    if l.Readings() > 1 { assert l.BytesPerReading(1) * l.packedRows >= 0; }
  }

  /** One is infrared alone, sent with the first of two readings. */
  lemma InfraredAlone()
    ensures var l := Layout(1, 1, 1, 8, [9], {LineWithoutDistance}, 2, false, 1, 1, 0,
                            Granules(0, 0, 0), NO_EDGES, NO_EDGES, NO_EDGES, false);
            Scannable(l) && l.packedRows >= 1 && !l.ReadingsNonempty()
  {
    var l := Layout(1, 1, 1, 8, [9], {LineWithoutDistance}, 2, false, 1, 1, 0,
                    Granules(0, 0, 0), NO_EDGES, NO_EDGES, NO_EDGES, false);
    assert Gap(l) * CcdLines(l) == 1;
    WhichReadingsAreEmpty(l);
  }

  lemma SomethingSent(pixels: nat, bytes: nat, readouts: nat)
    requires pixels > 0 && bytes > 0
    ensures pixels * bytes * readouts > 0 <==> readouts > 0
  {
    MulMono(1, pixels, bytes);
    if readouts > 0 { MulMono(1, pixels * bytes, readouts); }
  }

  /** Rows of the CCD that the wire packs together tile the lines. */
  predicate GroupsTile(l: Layout) {
    l.packedRows >= 1 && l.lines % l.packedRows == 0
  }

  lemma ScannableOrdering(l: Layout, curves: Option<Curves>)
    requires Scannable(l)
    ensures var o := OrderingOf(l).(curves := curves);
            && WellFormed(o) && PlanesNumbered(o) && o.blockBytes > 0 && Sized(o)
            && SlotsOf(o, l.channels, l.Readings(), l.infraredPerReading)
            && ColorSlots(o.slots) == l.Colors()
  {
    AcceptedIsWellFormed(l);
    var o := OrderingOf(l);
    CountColorSlots(l.channels, o.slots);
    CountBoth(l.channels);
    assert l.Readouts() > 0 by {
      MulMono(1, l.Readings(), |l.channels|);
      MulMono(1, l.Readings(), l.Colors());
    }
    AllPositive(o.gap, o.readouts, o.rows, o.ccdLines, o.bytesPerSample);
    CurvesChangeNoPlace(o, curves);
  }

  lemma AllPositive(gap: nat, readouts: nat, rows: nat, ccd: nat, bytes: nat)
    requires gap > 0 && readouts > 0 && rows > 0 && ccd > 0 && bytes > 0
    ensures gap * (readouts * (rows * ccd)) * bytes > 0
  {
    MulMono(1, rows, ccd);
    MulMono(1, readouts, rows * ccd);
    MulMono(1, gap, readouts * (rows * ccd));
    MulMono(1, gap * (readouts * (rows * ccd)), bytes);
  }

  lemma {:induction false} CountColorSlots(channels: seq<Byte>, slots: seq<Slot>)
    requires |slots| == |channels|
    requires forall i :: 0 <= i < |channels| ==> slots[i].color == IsColor(channels[i])
    ensures ColorSlots(slots) == Count(channels, true)
    decreases |channels|
  {
    if channels != [] { CountColorSlots(channels[1..], slots[1..]); }
  }

  // ----- how many valid bytes there are

  /** Valid bytes of the readings `r..` of one line, as the unit sends them. */
  function PayloadFrom(l: Layout, r: nat): nat
    decreases l.Readings() - r
  {
    if r >= l.Readings() then 0
    else SentIn(l, r) + PayloadFrom(l, r + 1)
  }

  lemma {:induction false} LaterPayload(l: Layout, r: nat)
    requires 1 <= r <= l.Readings()
    ensures PayloadFrom(l, r) == (l.Readings() - r) * SentIn(l, 1)
    decreases l.Readings() - r
  {
    if r < l.Readings() {
      LaterPayload(l, r + 1);
      var n, b := l.Readings() - r, SentIn(l, 1);
      assert n * b == (n - 1) * b + b;
    }
  }

  /** Readouts of one line: the first reading's, and the later readings'. */
  lemma ReadoutsOfReadings(l: Layout)
    requires l.readingsPerLine >= 1
    ensures Carried(l, 0) + (l.Readings() - 1) * Carried(l, 1) == l.Readouts()
  {
    var c := if l.infraredPerReading then |l.channels| else l.Colors();
    Unfold(c, l.Readings());
  }

  /** A reading carries the readouts from its first to the next one's first. */
  lemma ReadingsOnTheWire(l: Layout, q: nat, r: nat)
    requires l.readingsPerLine >= 1 && q < l.Readouts()
    ensures ReaderOf(l.channels, l.Readings(), l.infraredPerReading, q).1 == r <==>
              var first := FirstReadout(l.channels, l.infraredPerReading, r);
              first <= q < first + Carried(l, r)
  {
    ReadingsInTurn(l.channels, l.Readings(), l.infraredPerReading, q, r);
    CarriedNext(l, r);
  }

  lemma CarriedNext(l: Layout, r: nat)
    ensures FirstReadout(l.channels, l.infraredPerReading, r + 1)
         == FirstReadout(l.channels, l.infraredPerReading, r) + Carried(l, r)
  {
    var n, c := |l.channels|, Count(l.channels, true);
    assert (r + 1) * n == r * n + n;
    if r > 0 { assert r * c == (r - 1) * c + c; }
  }

  lemma Unfold(c: nat, n: nat)
    requires n >= 1
    ensures c + (n - 1) * c == c * n
  {
  }

  lemma FactorOut(bar: nat, first: nat, n: nat, rest: nat)
    ensures bar * first + n * (bar * rest) == bar * (first + n * rest)
  {
    assert n * (bar * rest) == bar * (n * rest);
  }

  /** A line's valid bytes are its readouts, each the length of the bar. */
  lemma LinePayload(l: Layout)
    requires l.readingsPerLine >= 1
    ensures PayloadFrom(l, 0) == l.pixels * l.bytesPerSample * l.Readouts()
  {
    LaterPayload(l, 1);
    ReadoutsOfReadings(l);
    FactorOut(l.pixels * l.bytesPerSample, Carried(l, 0), l.Readings() - 1, Carried(l, 1));
  }

  /**
   * The wire's valid bytes are the decoder's blocks, no byte more or less, for
   * every layout a decoder accepts.
   */
  lemma BytesConserved(l: Layout)
    requires Refused(l) == None && l.readingsPerLine >= 1
    ensures OrderingOf(l).Strip() > 0
    ensures l.lines * PayloadFrom(l, 0) == OrderingOf(l).Blocks() * OrderingOf(l).blockBytes
  {
    LinePayload(l);
    MulMono(1, Gap(l), CcdLines(l));
    var o := OrderingOf(l);
    var strip, blocks := o.Strip(), o.Blocks();
    FundamentalDivMod(o.cols, strip);
    Commute(strip, blocks);
    Regroup(blocks, o.gap, o.readouts, o.rows, o.ccdLines, o.bytesPerSample);
  }

  lemma Regroup(blocks: nat, gap: nat, readouts: nat, rows: nat, ccd: nat, bytes: nat)
    ensures (blocks * (gap * ccd)) * (rows * bytes * readouts) == blocks * ((gap * (readouts * (rows * ccd))) * bytes)
  {
    calc {
      blocks * ((gap * (readouts * (rows * ccd))) * bytes);
      { assert (gap * (readouts * (rows * ccd))) * bytes == (gap * ccd) * (rows * bytes * readouts); }
      blocks * ((gap * ccd) * (rows * bytes * readouts));
      (blocks * (gap * ccd)) * (rows * bytes * readouts);
    }
  }

  /** The groups a pass of a layout is sent in. */
  function Groups(l: Layout): nat
    requires l.packedRows >= 1
  {
    l.lines / l.packedRows
  }

  lemma {:induction false} GroupPayload(l: Layout, r: nat)
    requires r <= l.Readings()
    ensures LineBody(PartsOf(l), r) == PayloadFrom(l, r) * l.packedRows
    decreases l.Readings() - r
  {
    if r < l.Readings() {
      GroupPayload(l, r + 1);
      AddTimes(SentIn(l, r), PayloadFrom(l, r + 1), l.packedRows);
    }
  }

  lemma AddTimes(a: nat, b: nat, n: nat)
    ensures a * n + b * n == (a + b) * n
  {
  }

  lemma RegroupLines(g: nat, n: nat, b: nat, lines: nat)
    requires lines == n * g
    ensures g * (b * n) == lines * b
  {
    assert g * (b * n) == (n * g) * b;
  }

  /** The groups of packed rows carry the same bytes as the lines. */
  lemma GroupsConserved(l: Layout)
    requires Refused(l) == None && l.readingsPerLine >= 1 && GroupsTile(l)
    ensures OrderingOf(l).Strip() > 0
    ensures Groups(l) * LineBody(PartsOf(l), 0) == OrderingOf(l).Blocks() * OrderingOf(l).blockBytes
  {
    BytesConserved(l);
    GroupPayload(l, 0);
    FundamentalDivMod(l.lines, l.packedRows);
    RegroupLines(Groups(l), l.packedRows, PayloadFrom(l, 0), l.lines);
  }

  // ----- a scene, and the payload that carries it

  /** What the sensor reads: by channel, reading, stage position, bar pixel and CCD row. */
  type Scene = (nat, nat, nat, nat, nat) -> Sample

  /** Every sample fits the width the layout sends. */
  ghost predicate FitsWidth(l: Layout, scene: Scene) {
    l.bytesPerSample == 1 ==> forall c, r, s, p, n :: scene(c, r, s, p, n) < 0x100
  }

  /** The sample at wire index `w` of the whole payload. */
  function SampleOf(l: Layout, scene: Scene, w: nat): Sample
    requires Scannable(l)
  {
    ScannableOrdering(l, None);
    PositiveStage(OrderingOf(l));
    var o := OrderingOf(l);
    var s := Locate(o, w);
    DigitRange(w % o.stage, o.readouts, o.readout);
    var (channel, reading) := ReaderOf(l.channels, l.Readings(), l.infraredPerReading, s.readout);
    scene(channel, reading, s.position, s.pixel, s.line)
  }

  lemma PositiveStage(o: Ordering)
    requires Sized(o) && o.blockBytes > 0
    ensures o.stage > 0 && o.readout > 0 && o.ccdLines > 0
  {
    assert o.gap * o.stage != 0;
    assert o.stage != 0;
    assert o.readout != 0;
  }

  /** Byte `k` of a sample of `width` bytes, high byte first. */
  function ByteOf(v: Sample, width: nat, k: nat): Byte
    requires width in {1, 2} && k < width
  {
    if width == 2 && k == 0 then v / 0x100 else v % 0x100
  }

  function StreamByte(width: nat, samples: nat -> Sample, j: nat): Byte
    requires width in {1, 2}
  {
    DivMono(0, j, width);
    ByteOf(samples(j / width), width, j % width)
  }

  /** Samples one after the other, as bytes. */
  ghost function Stream(bytes: nat, width: nat, samples: nat -> Sample): (stream: seq<Byte>)
    requires width in {1, 2}
    ensures |stream| == bytes
  {
    seq(bytes, j requires 0 <= j < bytes => StreamByte(width, samples, j))
  }

  ghost function SamplesOf(l: Layout, scene: Scene): nat -> Sample {
    (w: nat) => if Scannable(l) then SampleOf(l, scene, w) else 0
  }

  /** A scene as the valid bytes of a pass. */
  ghost function Payload(l: Layout, scene: Scene): (payload: seq<Byte>)
    requires Scannable(l)
    ensures OrderingOf(l).Strip() > 0
    ensures |payload| == OrderingOf(l).Blocks() * OrderingOf(l).blockBytes
  {
    ScannableOrdering(l, None);
    var o := OrderingOf(l);
    MulMono(0, o.Blocks(), o.blockBytes);
    Stream(o.Blocks() * o.blockBytes, o.bytesPerSample, SamplesOf(l, scene))
  }

  /** The wire index of a place of block `n`, counted from the start of the payload. */
  lemma IndexInPayload(o: Ordering, n: nat, s: Spot)
    requires Sized(o) && InBlock(o, s)
    ensures n * o.BlockSamples() + WireIndex(o, s) == WireIndex(o, s.(position := n * o.gap + s.position))
    ensures o.stage > 0 && o.readout > 0 && o.ccdLines > 0
    ensures Locate(o, n * o.BlockSamples() + WireIndex(o, s)) == s.(position := n * o.gap + s.position)
  {
    StageIndex(n, o.gap, o.stage, s.position);
    // A longer block would hold the same stage positions
    var o' := o.(gap := n * o.gap + o.gap, blockBytes := (n * o.gap + o.gap) * o.stage * o.bytesPerSample);
    LocateWireIndex(o', s.(position := n * o.gap + s.position));
  }

  lemma StageIndex(n: nat, gap: nat, stage: nat, position: nat)
    ensures n * (gap * stage) + position * stage == (n * gap + position) * stage
  {
    assert n * (gap * stage) == (n * gap) * stage;
  }

  lemma ByteIndex(n: nat, samples: nat, width: nat, index: nat, k: nat)
    requires k < width
    ensures (n * (samples * width) + (index * width + k)) / width == n * samples + index
    ensures (n * (samples * width) + (index * width + k)) % width == k
  {
    assert n * (samples * width) + index * width == (n * samples + index) * width;
    DivModUnique(n * (samples * width) + (index * width + k), width, n * samples + index, k);
  }

  function Blocks(l: Layout): nat
    requires Scannable(l)
  {
    MulMono(1, Gap(l), CcdLines(l));
    OrderingOf(l).Blocks()
  }

  /** A byte of a block is a byte of the sample it belongs to. */
  lemma BlockByte(blocks: nat, samples: nat, width: nat, f: nat -> Sample, n: nat, index: nat, k: nat)
    requires width in {1, 2} && n < blocks && index < samples && k < width
    ensures 0 <= samples * width && 0 <= blocks * (samples * width)
    ensures (n + 1) * (samples * width) <= blocks * (samples * width)
    ensures index * width + k < samples * width
    ensures Block(samples * width, Stream(blocks * (samples * width), width, f), n)[index * width + k]
         == ByteOf(f(n * samples + index), width, k)
  {
    MulMono(0, samples, width);
    MulMono(0, blocks, samples * width);
    MulMono(n + 1, blocks, samples * width);
    DigitBound(index, k, samples, width);
    ByteIndex(n, samples, width, index, k);
    var size, at := samples * width, index * width + k;
    assert (n + 1) * size == n * size + size;
    MulMono(0, n, size);
  }

  /** The sample at a place of block `n` is the scene's own there. */
  lemma SampleIsScene(l: Layout, scene: Scene, n: nat, s: Spot)
    requires Scannable(l) && InBlock(OrderingOf(l), s)
    ensures var o := OrderingOf(l);
            var (channel, reading) := ReaderOf(l.channels, l.Readings(), l.infraredPerReading, s.readout);
            SampleOf(l, scene, n * o.BlockSamples() + WireIndex(o, s))
            == scene(channel, reading, n * o.gap + s.position, s.pixel, s.line)
  {
    ScannableOrdering(l, None);
    IndexInPayload(OrderingOf(l), n, s);
  }

  /** A block that holds a sample's bytes at a place gives the sample back. */
  lemma RawOfBytes(o: Ordering, block: seq<Byte>, s: Spot, v: Sample)
    requires InBlock(o, s) && SampleFits(o, s) && |block| == o.blockBytes && o.bytesPerSample in {1, 2}
    requires o.bytesPerSample == 1 ==> v < 0x100
    requires forall k :: 0 <= k < o.bytesPerSample ==>
               block[WireIndex(o, s) * o.bytesPerSample + k] == ByteOf(v, o.bytesPerSample, k)
    ensures Raw(o, block, s) == v
  {
    var width, off := o.bytesPerSample, WireIndex(o, s) * o.bytesPerSample;
    var bytes := block[off..off + width];
    assert forall k :: 0 <= k < width ==> bytes[k] == block[off + k] == ByteOf(v, width, k);
    assert bytes[0] == ByteOf(v, width, 0);
    assert width == 2 ==> bytes[1] == ByteOf(v, width, 1);
  }

  /** A block of samples, read where a sample was put, gives that sample. */
  lemma RawOfStream(o: Ordering, blocks: nat, bytes: nat, f: nat -> Sample, n: nat, s: Spot, w: nat)
    requires Sized(o) && InBlock(o, s) && SampleFits(o, s) && o.bytesPerSample in {1, 2}
    requires n < blocks && bytes == blocks * o.blockBytes && w == n * o.BlockSamples() + WireIndex(o, s)
    requires o.bytesPerSample == 1 ==> forall w :: f(w) < 0x100
    ensures (n + 1) * o.blockBytes <= bytes
    ensures Raw(o, Block(o.blockBytes, Stream(bytes, o.bytesPerSample, f), n), s) == f(w)
  {
    LocateWireIndex(o, s);
    var index, width := WireIndex(o, s), o.bytesPerSample;
    BlockByte(blocks, o.BlockSamples(), width, f, n, index, 0);
    var block := Block(o.blockBytes, Stream(bytes, width, f), n);
    MulMono(0, index, width);
    forall k | 0 <= k < width ensures block[index * width + k] == ByteOf(f(w), width, k) {
      BlockByte(blocks, o.BlockSamples(), width, f, n, index, k);
    }
    RawOfBytes(o, block, s, f(w));
  }

  /** The decoder reads out of a block what the scene put into it. */
  lemma RawIsScene(l: Layout, scene: Scene, curves: Option<Curves>, n: nat, s: Spot)
    requires Scannable(l) && FitsWidth(l, scene)
    requires n < Blocks(l)
    requires InBlock(OrderingOf(l), s)
    ensures (n + 1) * OrderingOf(l).blockBytes <= |Payload(l, scene)|
    ensures SampleFits(OrderingOf(l), s)
    ensures var o := OrderingOf(l).(curves := curves);
            var (channel, reading) := ReaderOf(l.channels, l.Readings(), l.infraredPerReading, s.readout);
            Raw(o, Block(o.blockBytes, Payload(l, scene), n), s)
            == scene(channel, reading, n * o.gap + s.position, s.pixel, s.line)
  {
    AcceptedIsWellFormed(l);
    SampleIsScene(l, scene, n, s);
    SizedFits(OrderingOf(l), s);
    var o := OrderingOf(l);
    LocateWireIndex(o, s);
    MulMono(0, n, o.BlockSamples());
    RawOfStream(o, o.Blocks(), |Payload(l, scene)|, SamplesOf(l, scene), n, s, n * o.BlockSamples() + WireIndex(o, s));
  }

  // ----- the image a scene makes

  /** The first `n` readings of a channel at a place, each corrected onto the reference row, added up. */
  ghost function SceneSum(curves: Option<Curves>, scene: Scene, channel: nat, stage: nat, pixel: nat, line: nat,
                          n: nat): nat {
    if n == 0 then 0
    else
      SceneSum(curves, scene, channel, stage, pixel, line, n - 1)
      + match curves
        case Some(c) => c.Correct(line, scene(channel, n - 1, stage, pixel, line))
        case None => scene(channel, n - 1, stage, pixel, line)
  }

  /** How often a pass reads a channel. */
  function ReadingsOf(l: Layout, channel: nat): (n: nat)
    requires channel < |l.channels|
    ensures n >= 1
  {
    if IsColor(l.channels[channel]) || l.infraredPerReading then Max(l.readingsPerLine, 1) else 1
  }

  /** The stage position and the CCD row that image column `x` is read at. */
  function StageOf(x: nat, gap: nat, ccd: nat): (nat, nat)
    requires gap > 0 && ccd > 0
  {
    MulMono(1, gap, ccd);
    var strip: nat := gap * ccd;
    var col := x % strip;
    DivMono(0, x, strip);
    DivMono(0, col, gap);
    MulMono(0, x / strip, gap);
    (x / strip * gap + col % gap, col / gap)
  }

  /** Where image column `x` is read: a stage position for each column, unless several rows are read at once. */
  function ReadAt(l: Layout, x: nat): (nat, nat)
    requires Gap(l) > 0
  {
    if SeveralRows(l) then StageOf(x, l.registrationGap, l.ccdLines) else (x, 0)
  }

  /**
   * What the image of a scene holds: the sensor bar upside down along a column,
   * stage positions and CCD rows tiled across, and at each pixel the rounded
   * average of the channel's own readings there, which fills 16 bits in a pass
   * that reads its lines more than once.
   */
  ghost function Expected(l: Layout, curves: Option<Curves>, scene: Scene, channel: nat, y: nat, x: nat): Sample
    requires Gap(l) > 0 && channel < |l.channels| && y < l.pixels
  {
    var (stage, line) := ReadAt(l, x);
    Scaled(SceneSum(curves, scene, channel, stage, l.pixels - 1 - y, line, ReadingsOf(l, channel)),
           ReadingsOf(l, channel), Ceiling(l.bitsPerSample),
           if l.readingsPerLine <= 1 then Ceiling(l.bitsPerSample) else 0xFFFF)
  }

  /** One row at a time is a block a column. */
  lemma ReadAtStage(l: Layout, x: nat)
    requires Gap(l) > 0
    ensures ReadAt(l, x) == StageOf(x, Gap(l), CcdLines(l))
  {
    if !SeveralRows(l) {
      DivModUnique(x, 1, x, 0);
      DivModUnique(0, 1, 0, 0);
    }
  }

  /** The first `n` readings of a channel at a place are all `v`. */
  ghost predicate ReadAlike(scene: Scene, channel: nat, stage: nat, pixel: nat, line: nat, v: Sample, n: nat) {
    forall r :: 0 <= r < n ==> scene(channel, r, stage, pixel, line) == v
  }

  lemma {:induction false} AlikeSum(scene: Scene, channel: nat, stage: nat, pixel: nat, line: nat, v: Sample, n: nat)
    requires ReadAlike(scene, channel, stage, pixel, line, v, n)
    ensures SceneSum(None, scene, channel, stage, pixel, line, n) == n * v
  {
    if n > 0 {
      AlikeSum(scene, channel, stage, pixel, line, v, n - 1);
      assert n * v == (n - 1) * v + v;
    }
  }

  /** What a sample is shown as: itself in a pass that reads its lines once, and otherwise stretched to 16 bits. */
  function Shown(l: Layout, v: Sample): Sample {
    if l.readingsPerLine <= 1 then v else FullScale(l.bitsPerSample, v)
  }

  /**
   * A channel whose readings at a pixel are all alike shows that reading, at the
   * same scale whether the channel is read each time or once.
   */
  lemma AlikeReadingsAreShown(l: Layout, scene: Scene, channel: nat, y: nat, x: nat, v: Sample)
    requires Gap(l) > 0 && channel < |l.channels| && y < l.pixels && v <= Ceiling(l.bitsPerSample)
    requires var (stage, line) := ReadAt(l, x);
             ReadAlike(scene, channel, stage, l.pixels - 1 - y, line, v, ReadingsOf(l, channel))
    ensures Expected(l, None, scene, channel, y, x) == Shown(l, v)
  {
    var (stage, line) := ReadAt(l, x);
    var n := ReadingsOf(l, channel);
    AlikeSum(scene, channel, stage, l.pixels - 1 - y, line, v, n);
    if l.readingsPerLine <= 1 {
      assert n == 1 && 1 * v == v;
      OneReadingIsIdentity(v, Ceiling(l.bitsPerSample));
    } else {
      EqualReadingsAreFullScale(v, n, l.bitsPerSample);
    }
  }

  /** The channel whose samples a buffer ends up with: of two infrared channels, the last. */
  function ChannelOf(l: Layout, target: Target): Option<nat>
  {
    LastSlot(OrderingOf(l).slots, target, |l.channels|)
  }

  /** Slots that are numbered as the channels of their kind are. */
  predicate Numbered(channels: seq<Byte>, slots: seq<Slot>) {
    && |slots| == |channels|
    && forall j :: 0 <= j < |slots| ==>
         slots[j].color == IsColor(channels[j]) && slots[j].out == Rank(channels, j)
  }

  /** Plane `c` is that of the color with `c` colors before it. */
  lemma ColorOfPlane(channels: seq<Byte>, slots: seq<Slot>, c: nat)
    requires Numbered(channels, slots) && c < Count(channels, true)
    ensures LastSlot(slots, Color(c), |slots|) == Some(Ranked(channels, true, c))
  {
    var i := Ranked(channels, true, c);
    RankOfRanked(channels, true, c);
    forall j | i < j < |slots| ensures TargetOf(slots[j]) != Color(c) {
      if IsColor(channels[j]) { RankGrows(channels, i, j); }
    }
    LastSlotIs(slots, Color(c), i, |slots|);
  }

  /** Every other channel shares one buffer, which ends up with the last of them. */
  lemma LastOfTheOthers(channels: seq<Byte>, slots: seq<Slot>)
    requires Numbered(channels, slots)
    ensures var n := Count(channels, false);
            LastSlot(slots, Infrared, |slots|) == if n == 0 then None else Some(Ranked(channels, false, n - 1))
  {
    var n := Count(channels, false);
    if n > 0 {
      var i := Ranked(channels, false, n - 1);
      RankOfRanked(channels, false, n - 1);
      forall j | i < j < |slots| ensures TargetOf(slots[j]) != Infrared {
        if !IsColor(channels[j]) { RankGrows(channels, i, j); }
      }
      LastSlotIs(slots, Infrared, i, |slots|);
    } else {
      assert LastSlot(slots, Infrared, |slots|) == None;
    }
  }

  lemma SlotsAreNumbered(l: Layout)
    ensures Numbered(l.channels, OrderingOf(l).slots)
  {
    var slots := OrderingOf(l).slots;
    forall j | 0 <= j < |slots|
      ensures slots[j].color == IsColor(l.channels[j]) && slots[j].out == Rank(l.channels, j)
    {
      assert slots[j] == SlotOf(l.channels, l.Readings(), l.infraredPerReading, j);
    }
  }

  /** Which channel of a pass each buffer of its image holds. */
  lemma {:induction false} ChannelOfBuffer(l: Layout, c: nat)
    ensures c < l.Colors() ==> ChannelOf(l, Color(c)) == Some(Ranked(l.channels, true, c))
    ensures Count(l.channels, false) == l.Once()
    ensures ChannelOf(l, Infrared) == if l.Once() == 0 then None else Some(Ranked(l.channels, false, l.Once() - 1))
  {
    CountBoth(l.channels);
    SlotsAreNumbered(l);
    LastOfTheOthers(l.channels, OrderingOf(l).slots);
    if c < l.Colors() { ColorOfPlane(l.channels, OrderingOf(l).slots, c); }
  }

  lemma {:induction false} LastSlotIs(slots: seq<Slot>, target: Target, k: nat, m: nat)
    requires k < m <= |slots| && TargetOf(slots[k]) == target
    requires forall j :: k < j < m ==> TargetOf(slots[j]) != target
    ensures LastSlot(slots, target, m) == Some(k)
  {
    if k < m - 1 { LastSlotIs(slots, target, k, m - 1); }
  }

  /** A slot whose every raw sample at a place is the scene's adds up to what the scene does. */
  lemma {:induction false} SumOfScene(o: Ordering, block: seq<Byte>, slot: Slot, s: Spot, scene: Scene, channel: nat,
                                      stage: nat, m: nat)
    requires WellFormed(o) && Placed(o, s) && |block| == o.blockBytes && SlotFits(o, slot) && m <= slot.readings
    requires forall r :: 0 <= r < m ==>
               InBlock(o, s.(readout := slot.Nth(r)))
               && Raw(o, block, s.(readout := slot.Nth(r))) == scene(channel, r, stage, s.pixel, s.line)
    ensures Sum(o, block, slot, s, m) == SceneSum(o.curves, scene, channel, stage, s.pixel, s.line, m)
    decreases m
  {
    if m > 0 { SumOfScene(o, block, slot, s, scene, channel, stage, m - 1); }
  }

  lemma RawOfReading(l: Layout, scene: Scene, curves: Option<Curves>, n: nat, s: Spot, channel: nat, stage: nat, r: nat)
    requires Scannable(l) && FitsWidth(l, scene) && n < Blocks(l) && Placed(OrderingOf(l), s)
    requires stage == n * OrderingOf(l).gap + s.position
    requires channel < |l.channels| && r < OrderingOf(l).slots[channel].readings
    ensures (n + 1) * OrderingOf(l).blockBytes <= |Payload(l, scene)|
    ensures var at := s.(readout := OrderingOf(l).slots[channel].Nth(r));
            && InBlock(OrderingOf(l), at) && SampleFits(OrderingOf(l), at)
            && Raw(OrderingOf(l).(curves := curves), Block(OrderingOf(l).blockBytes, Payload(l, scene), n), at)
               == scene(channel, r, stage, s.pixel, s.line)
  {
    ReaderHasReadout(l.channels, l.Readings(), l.infraredPerReading, channel, r);
    RawIsScene(l, scene, curves, n, s.(readout := OrderingOf(l).slots[channel].Nth(r)));
  }

  lemma SumIsSceneSum(l: Layout, scene: Scene, curves: Option<Curves>, n: nat, s: Spot, channel: nat, stage: nat)
    requires Scannable(l) && FitsWidth(l, scene) && n < Blocks(l)
    requires WellFormed(OrderingOf(l).(curves := curves)) && Placed(OrderingOf(l), s)
    requires stage == n * OrderingOf(l).gap + s.position
    requires channel < |l.channels| && SlotFits(OrderingOf(l), OrderingOf(l).slots[channel])
    ensures (n + 1) * OrderingOf(l).blockBytes <= |Payload(l, scene)|
    ensures Sum(OrderingOf(l).(curves := curves), Block(OrderingOf(l).blockBytes, Payload(l, scene), n),
                OrderingOf(l).slots[channel], s, ReadingsOf(l, channel))
         == SceneSum(curves, scene, channel, stage, s.pixel, s.line, ReadingsOf(l, channel))
  {
    var o := OrderingOf(l).(curves := curves);
    MulMono(n + 1, o.Blocks(), o.blockBytes);
    var block, slot := Block(o.blockBytes, Payload(l, scene), n), o.slots[channel];
    forall r | 0 <= r < slot.readings
      ensures InBlock(o, s.(readout := slot.Nth(r)))
           && Raw(o, block, s.(readout := slot.Nth(r))) == scene(channel, r, stage, s.pixel, s.line)
    {
      RawOfReading(l, scene, curves, n, s, channel, stage, r);
    }
    SumOfScene(o, block, slot, s, scene, channel, stage, slot.readings);
  }

  /** One block changes the pixels that are its own, to the averages of the slot that has the buffer. */
  lemma PaintedAt(o: Ordering, n: nat, block: seq<Byte>, target: Target, plane: seq<Sample>, i: nat)
    requires WellFormed(o) && |block| == o.blockBytes && i < |plane|
    ensures i < o.rows * o.cols ==> o.cols > 0 && Placed(o, Origin(o, i, 0).1)
    ensures var last := LastSlot(o.slots, target, |o.slots|);
            Painted(o, n, block, target, plane)[i]
            == if last.Some? && i < o.rows * o.cols && Origin(o, i, 0).0 == n
               then Value(o, block, o.slots[last.value], Origin(o, i, 0).1) else plane[i]
  {
    if i < o.rows * o.cols {
      PixelOfOrigin(o, i, 0);
      ReachedWhole(o, n, i);
    }
  }

  /** The block a pixel belongs to gives it what the scene says. */
  lemma ValueIsExpected(l: Layout, scene: Scene, curves: Option<Curves>, channel: nat, n: nat, s: Spot, i: nat)
    requires Scannable(l) && FitsWidth(l, scene) && channel < |l.channels| && n < Blocks(l)
    requires WellFormed(OrderingOf(l).(curves := curves))
    requires Placed(OrderingOf(l), s)
    requires i < l.pixels * l.lines && l.lines > 0 && Origin(OrderingOf(l), i, 0) == (n, s)
    ensures (n + 1) * OrderingOf(l).blockBytes <= |Payload(l, scene)|
    ensures i / l.lines < l.pixels
    ensures var o := OrderingOf(l).(curves := curves);
            Value(o, Block(o.blockBytes, Payload(l, scene), n), o.slots[channel], s)
            == Expected(l, curves, scene, channel, i / l.lines, i % l.lines)
  {
    ScannableOrdering(l, None);
    OriginIsStage(OrderingOf(l), n, s, i);
    DigitRange(i, l.pixels, l.lines);
    ReadAtStage(l, i % l.lines);
    MulMono(0, n, OrderingOf(l).gap);
    SumIsSceneSum(l, scene, curves, n, s, channel, n * OrderingOf(l).gap + s.position);
  }

  /** The place a pixel comes from is at the stage position, the row and the bar pixel it shows. */
  lemma OriginIsStage(o: Ordering, n: nat, s: Spot, i: nat)
    requires o.gap > 0 && o.ccdLines > 0 && o.cols > 0 && o.Strip() > 0
    requires i < o.rows * o.cols && Origin(o, i, 0) == (n, s)
    ensures i / o.cols < o.rows && s.pixel == o.rows - 1 - i / o.cols
    ensures StageOf(i % o.cols, o.gap, o.ccdLines) == (n * o.gap + s.position, s.line)
  {
    DigitRange(i, o.rows, o.cols);
  }

  /** A decoded buffer, pixel by pixel, once the first `d` blocks of a scene's payload are in. */
  lemma {:induction false} BlocksHoldScene(l: Layout, scene: Scene, curves: Option<Curves>, target: Target,
                                           plane: seq<Sample>,
                                           d: nat, i: nat)
    requires Scannable(l) && FitsWidth(l, scene) && d <= Blocks(l)
    requires i < |plane|
    ensures d * OrderingOf(l).blockBytes <= |Payload(l, scene)|
    ensures WellFormed(OrderingOf(l).(curves := curves))
    ensures i < l.pixels * l.lines ==> l.lines > 0 && i / l.lines < l.pixels
    ensures var o := OrderingOf(l).(curves := curves);
            PaintedBlocks(o, target, plane, Payload(l, scene), 0, d)[i]
            == if ChannelOf(l, target).Some? && i < l.pixels * l.lines && Origin(o, i, 0).0 < d
               then Expected(l, curves, scene, ChannelOf(l, target).value, i / l.lines, i % l.lines)
               else plane[i]
    decreases d
  {
    var o := OrderingOf(l).(curves := curves);
    ScannableOrdering(l, curves);
    MulMono(d, Blocks(l), o.blockBytes);
    if i < l.pixels * l.lines {
      PixelOfOrigin(o, i, 0);
      DigitRange(i, l.pixels, l.lines);
    }
    if d > 0 {
      MulMono(d - 1, d, o.blockBytes);
      BlocksHoldScene(l, scene, curves, target, plane, d - 1, i);
      var before := PaintedBlocks(o, target, plane, Payload(l, scene), 0, d - 1);
      PaintedAt(o, d - 1, Block(o.blockBytes, Payload(l, scene), d - 1), target, before, i);
      if ChannelOf(l, target).Some? && i < l.pixels * l.lines && Origin(o, i, 0).0 == d - 1 {
        ValueIsExpected(l, scene, curves, ChannelOf(l, target).value, d - 1, Origin(o, i, 0).1, i);
      }
    }
  }

  /** A whole block reaches every pixel that is its own. */
  lemma ReachedWhole(o: Ordering, n: nat, i: nat)
    requires WellFormed(o) && i < o.rows * o.cols
    ensures o.cols > 0 && (Reached(o, n, i, o.Strip(), 0) <==> Origin(o, i, 0).0 == n)
  {
    PixelOfOrigin(o, i, 0);
    var s := Origin(o, i, 0).1;
    DigitBound(s.line, s.position, o.ccdLines, o.gap);
    Commute(o.gap, o.ccdLines);
  }

  // ----- the whole pass

  /** Every buffer of an image holds the scene, and what lies past the image is as it was. */
  ghost predicate HoldsScene(l: Layout, curves: Option<Curves>, scene: Scene, was: Image, now: Image)
    requires Gap(l) > 0
  {
    && |now.colors| == |was.colors|
    && (forall c :: 0 <= c < |was.colors| ==> PlaneHolds(l, curves, scene, Color(c), was.colors[c], now.colors[c]))
    && PlaneHolds(l, curves, scene, Infrared, was.ir, now.ir)
  }

  ghost predicate PlaneHolds(l: Layout, curves: Option<Curves>, scene: Scene, target: Target, was: seq<Sample>,
                             now: seq<Sample>)
    requires Gap(l) > 0
  {
    && |now| == |was|
    && forall i :: 0 <= i < |was| ==> now[i] == PixelHeld(l, curves, scene, target, was[i], i)
  }

  ghost function PixelHeld(l: Layout, curves: Option<Curves>, scene: Scene, target: Target, was: Sample, i: nat): Sample
    requires Gap(l) > 0
  {
    if ChannelOf(l, target).Some? && i < l.pixels * l.lines then
      DigitRange(i, l.pixels, l.lines);
      Expected(l, curves, scene, ChannelOf(l, target).value, i / l.lines, i % l.lines)
    else was
  }

  /** All of a scene's payload decodes to the scene's image, whatever follows it. */
  lemma PayloadDecodes(l: Layout, scene: Scene, curves: Option<Curves>, was: Image, extra: seq<Byte>)
    requires Scannable(l) && FitsWidth(l, scene)
    ensures WellFormed(OrderingOf(l).(curves := curves))
    ensures Blocks(l) * OrderingOf(l).blockBytes <= |Payload(l, scene) + extra|
    ensures HoldsScene(l, curves, scene, was,
                       Pictured(OrderingOf(l).(curves := curves), was, Payload(l, scene) + extra, 0, Blocks(l)))
  {
    var o := OrderingOf(l).(curves := curves);
    ScannableOrdering(l, curves);
    PicturedPrefix(o, was, Payload(l, scene), extra, 0, Blocks(l));
    PlaneDecodes(l, scene, curves, Infrared, was.ir);
    forall c | 0 <= c < |was.colors|
      ensures PlaneHolds(l, curves, scene, Color(c), was.colors[c],
                         Pictured(o, was, Payload(l, scene), 0, Blocks(l)).colors[c])
    {
      PlaneDecodes(l, scene, curves, Color(c), was.colors[c]);
    }
  }

  lemma PlaneDecodes(l: Layout, scene: Scene, curves: Option<Curves>, target: Target, plane: seq<Sample>)
    requires Scannable(l) && FitsWidth(l, scene)
    ensures WellFormed(OrderingOf(l).(curves := curves))
    ensures Blocks(l) * OrderingOf(l).blockBytes <= |Payload(l, scene)|
    ensures PlaneHolds(l, curves, scene, target, plane,
                       PaintedBlocks(OrderingOf(l).(curves := curves), target, plane, Payload(l, scene), 0, Blocks(l)))
  {
    var o := OrderingOf(l).(curves := curves);
    ScannableOrdering(l, curves);
    forall i | 0 <= i < |plane|
      ensures PaintedBlocks(o, target, plane, Payload(l, scene), 0, Blocks(l))[i]
           == PixelHeld(l, curves, scene, target, plane[i], i)
    {
      BlocksHoldScene(l, scene, curves, target, plane, Blocks(l), i);
      if i < l.pixels * l.lines {
        PixelOfOrigin(o, i, 0);
      }
    }
  }

  /** The wire of a scene, with no line of it invalid: every reading of every group padded. */
  ghost function Wire(l: Layout, scene: Scene, junk: Junk): seq<Byte>
    requires Scannable(l) && GroupsTile(l)
  {
    GroupsConserved(l);
    Padded(PartsOf(l), 0, Groups(l), Payload(l, scene), junk)
  }

  /** The filter's range of lines, which it counts in groups, begins at the first group and holds them all. */
  predicate RangeHolds(l: Layout)
    requires l.packedRows >= 1
  {
    l.truncatedLinesFrame.first == 0 && Groups(l) + l.truncatedLinesFrame.last <= l.lines
  }

  /** It does where no line is invalid. */
  lemma NoInvalidLines(l: Layout)
    requires l.packedRows >= 1 && l.truncatedLinesFrame == NO_EDGES
    ensures RangeHolds(l)
  {
    GroupsWithinLines(l);
  }

  /** Stripping the wire of a scene leaves its payload, and of what follows only ever more to drop. */
  lemma WireStrips(l: Layout, scene: Scene, junk: Junk, extra: seq<Byte>)
    requires Scannable(l) && GroupsTile(l) && l.ReadingsNonempty() && RangeHolds(l)
    ensures Kept(ShapeOf(l), START, Wire(l, scene, junk) + extra)
         == Payload(l, scene) + Kept(ShapeOf(l), State(Groups(l), 0, 0), extra)
  {
    var sh, parts, n := ShapeOf(l), PartsOf(l), Groups(l);
    GroupsConserved(l);
    LayoutInStep(l);
    StripWire(sh, parts, n, Payload(l, scene), junk);
    StripSplit(sh, START, Wire(l, scene, junk), extra);
    assert KeptFrom(sh, n) == 0 && KeptTo(sh, n) == n;
    assert 0 * LineBody(parts, 0) == 0;
    assert Payload(l, scene)[0..n * LineBody(parts, 0)] == Payload(l, scene);
  }

  lemma GroupsWithinLines(l: Layout)
    requires l.packedRows >= 1
    ensures Groups(l) <= l.lines
  {
    FundamentalDivMod(l.lines, l.packedRows);
    MulMono(1, l.packedRows, Groups(l));
  }
}
