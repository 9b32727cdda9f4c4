/**
 * One pass, chunk by chunk: strip what the unit attached, decode what is left.
 * The theorems put the filter, the decoder and the encoder together.
 */
module ScanPass {
  import opened Wrappers
  import opened Sequences
  import opened Arith
  import opened Layouts
  import opened Truncation
  import opened Padding
  import opened Slots
  import opened Averaging
  import opened Curves
  import opened Placement
  import opened Emission
  import opened Decoding
  import opened WireToImage

  /** How a pass over a stream of chunks ended. */
  datatype Pass = Pass(complete: bool, blocks: nat)

  /** The ordering a pass decodes with: only a pass of several CCD rows is corrected. */
  function PassOrdering(l: Layout, curves: Option<Curves>): Ordering {
    OrderingOf(l).(curves := if CcdLines(l) > 1 then curves else None)
  }

  /** The curves a pass has a use for: those of rows read at once. */
  function RowsCorrected(l: Layout, curves: Option<Curves>): Option<Curves> {
    if SeveralRows(l) then curves else None
  }

  /** The buffers of a pass before anything is written to them. */
  ghost function Blank(l: Layout): Image {
    var len := l.pixels * l.lines;
    Image(seq(l.Colors(), _ => seq(len, _ => 0)), seq(len * l.Once(), _ => 0))
  }

  /** What a pass has made of the bytes read so far, which is all it depends on. */
  ghost predicate InPass(sh: Shape, o: Ordering, blank: Image, decoder: Decoder, truncation: TruncationState,
                         samples: Samples, read: seq<Byte>)
    reads decoder, truncation, samples, samples.Arrays()
  {
    && decoder.Valid() && decoder.ordering == o
    && samples.Apart() && Lacks(o, samples) == None
    && Valid(sh, START) && Valid(sh, truncation.At()) && truncation.At() == After(sh, START, |read|)
    && decoder.history == Kept(sh, START, read)
    && decoder.done * o.blockBytes <= |decoder.history|
    && samples.Held() == Pictured(o, blank, decoder.history, 0, decoder.done)
  }

  /** Everything a pass needs before its first chunk. */
  method Begin(l: Layout, curves: Option<Curves>, samples: Samples)
    returns (decoder: Decoder, truncation: TruncationState)
    requires Scannable(l)
    modifies samples
    ensures fresh(decoder) && fresh(truncation) && fresh(samples.Arrays())
    ensures InPass(ShapeOf(l), PassOrdering(l, curves), Blank(l), decoder, truncation, samples, [])
  {
    decoder := NewDecoder(l, curves);
    truncation := new TruncationState();
    FreshBuffers(l, curves, samples);
    assert 0 * decoder.ordering.blockBytes == 0;
    PicturedNone(decoder.ordering, Blank(l), [], 0);
  }

  method NewDecoder(l: Layout, curves: Option<Curves>) returns (decoder: Decoder)
    requires Scannable(l)
    ensures fresh(decoder) && decoder.Valid() && decoder.ordering == PassOrdering(l, curves)
    ensures decoder.history == [] && decoder.done == 0
  {
    ScannableOrdering(l, None);
    decoder := new Decoder(OrderingOf(l));
    if curves.Some? {
      decoder.Correcting(curves.value);
    }
  }

  method FreshBuffers(l: Layout, curves: Option<Curves>, samples: Samples)
    requires Scannable(l)
    modifies samples
    ensures samples.Apart() && fresh(samples.Arrays())
    ensures Lacks(PassOrdering(l, curves), samples) == None
    ensures samples.Held() == Blank(l)
  {
    ScannableOrdering(l, None);
    samples.ResizeFor(PassOrdering(l, curves));
    BlankHeld(l, samples);
  }

  lemma BlankHeld(l: Layout, samples: Samples)
    requires |samples.colors| == l.Colors()
    requires forall c :: 0 <= c < |samples.colors| ==> IsBlank(samples.colors[c], l.pixels * l.lines)
    requires samples.ir.Some? <==> l.pixels * l.lines * l.Once() != 0
    requires samples.ir.Some? ==> IsBlank(samples.ir.value, l.pixels * l.lines * l.Once())
    ensures samples.Held() == Blank(l)
  {
    var held, blank := samples.Held(), Blank(l);
    forall c | 0 <= c < |held.colors| ensures held.colors[c] == blank.colors[c] {
      assert held.colors[c] == samples.colors[c][..];
    }
    assert held.colors == blank.colors;
  }

  /** Strip and decode one chunk. */
  method DecodeChunk(l: Layout, chunk: seq<Byte>, decoder: Decoder, truncation: TruncationState, samples: Samples,
                     ghost o: Ordering, ghost blank: Image, ghost read: seq<Byte>)
    requires l.truncatedLinesFrame.last <= l.lines
    requires InPass(ShapeOf(l), o, blank, decoder, truncation, samples, read)
    modifies decoder, truncation, samples.Arrays()
    ensures InPass(ShapeOf(l), o, blank, decoder, truncation, samples, read + chunk)
  {
    var buf := new Byte[|chunk|](i requires 0 <= i < |chunk| => chunk[i]);
    assert buf[..] == chunk;
    var kept := StripTruncation(buf, truncation, l);
    Extend(ShapeOf(l), read, chunk);
    PushKept(buf[..kept], decoder, samples, o, blank);
  }

  lemma Extend(sh: Shape, read: seq<Byte>, chunk: seq<Byte>)
    requires Valid(sh, START)
    ensures Kept(sh, START, read + chunk) == Kept(sh, START, read) + Kept(sh, After(sh, START, |read|), chunk)
    ensures After(sh, START, |read + chunk|) == After(sh, After(sh, START, |read|), |chunk|)
  {
    StripSplit(sh, START, read, chunk);
    AfterSplit(sh, START, |read|, |chunk|);
  }

  /** Decode what a chunk keeps. */
  method PushKept(valid: seq<Byte>, decoder: Decoder, samples: Samples, ghost o: Ordering, ghost blank: Image)
    requires decoder.Valid() && decoder.ordering == o && samples.Apart() && Lacks(o, samples) == None
    requires decoder.done * o.blockBytes <= |decoder.history|
    requires samples.Held() == Pictured(o, blank, decoder.history, 0, decoder.done)
    modifies decoder, samples.Arrays()
    ensures decoder.Valid() && decoder.ordering == o && Lacks(o, samples) == None
    ensures decoder.history == old(decoder.history) + valid
    ensures decoder.done * o.blockBytes <= |decoder.history|
    ensures samples.Held() == Pictured(o, blank, decoder.history, 0, decoder.done)
  {
    ghost var had, before := decoder.history, decoder.done;
    var refused := decoder.Push(valid, samples);
    Continues(o, blank, had, valid, before, decoder.done);
  }

  /** Blocks written before a chunk and after it are the blocks of the longer stream. */
  lemma Continues(o: Ordering, image: Image, had: seq<Byte>, more: seq<Byte>, before: nat, done: nat)
    requires WellFormed(o) && before <= done
    requires before * o.blockBytes <= |had| && done * o.blockBytes <= |had + more|
    ensures Pictured(o, Pictured(o, image, had, 0, before), had + more, before, done)
         == Pictured(o, image, had + more, 0, done)
  {
    PicturedPrefix(o, image, had, more, 0, before);
    PicturedJoin(o, image, had + more, 0, before, done);
  }

  /** A pass over a stream that arrives in chunks. */
  method DecodePass(l: Layout, curves: Option<Curves>, chunks: seq<seq<Byte>>, samples: Samples)
    returns (r: Option<Pass>)
    requires Refused(l) == None ==> Scannable(l)
    requires l.truncatedLinesFrame.last <= l.lines
    modifies samples
    ensures r.Some? <==> Refused(l) == None
    ensures r.Some? ==> Decoded(l, curves, Kept(ShapeOf(l), START, Flatten(chunks)), r.value, samples.Held())
  {
    if Refused(l).Some? {
      return None;
    }
    var decoder, truncation := Begin(l, curves, samples);
    ghost var o, blank := PassOrdering(l, curves), Blank(l);
    ReadAll(l, chunks, decoder, truncation, samples, o, blank);
    decoder.Progress();
    var complete := decoder.Complete();
    r := Some(Pass(complete, decoder.done));
  }

  method ReadAll(l: Layout, chunks: seq<seq<Byte>>, decoder: Decoder, truncation: TruncationState, samples: Samples,
                 ghost o: Ordering, ghost blank: Image)
    requires l.truncatedLinesFrame.last <= l.lines
    requires InPass(ShapeOf(l), o, blank, decoder, truncation, samples, [])
    modifies decoder, truncation, samples.Arrays()
    ensures InPass(ShapeOf(l), o, blank, decoder, truncation, samples, Flatten(chunks))
  {
    ghost var read: seq<Byte> := [];
    for k := 0 to |chunks|
      invariant InPass(ShapeOf(l), o, blank, decoder, truncation, samples, read)
      invariant read + Flatten(chunks[k..]) == Flatten(chunks)
    {
      DecodeChunk(l, chunks[k], decoder, truncation, samples, o, blank, read);
      read := read + chunks[k];
    }
    assert read == Flatten(chunks);
  }

  /** What a pass says and holds once a stream of valid bytes is through it. */
  ghost predicate Decoded(l: Layout, curves: Option<Curves>, stream: seq<Byte>, pass: Pass, held: Image) {
    var o := PassOrdering(l, curves);
    && WellFormed(o) && o.blockBytes > 0
    && pass.blocks == Min(o.Blocks(), |stream| / o.blockBytes)
    && pass.complete == (pass.blocks == o.Blocks())
    && pass.blocks * o.blockBytes <= |stream|
    && held == Pictured(o, Blank(l), stream, 0, pass.blocks)
  }

  /**
   * A scene, padded and sent as any chunks, with anything at all after it, comes
   * back complete: every plane holds the rounded average of its own readings at
   * its own pixel. Lines the unit attaches after it are part of what follows.
   */
  lemma SceneComesBack(l: Layout, curves: Option<Curves>, scene: Scene, junk: Junk, extra: seq<Byte>,
                       chunks: seq<seq<Byte>>, pass: Pass, held: Image)
    requires Scannable(l) && GroupsTile(l) && l.ReadingsNonempty() && FitsWidth(l, scene) && RangeHolds(l)
    requires Flatten(chunks) == Wire(l, scene, junk) + extra
    requires Decoded(l, curves, Kept(ShapeOf(l), START, Flatten(chunks)), pass, held)
    ensures pass.complete && pass.blocks == Blocks(l)
    ensures HoldsScene(l, RowsCorrected(l, curves), scene, Blank(l), held)
  {
    WireStrips(l, scene, junk, extra);
    var past := Kept(ShapeOf(l), State(Groups(l), 0, 0), extra);
    var o := PassOrdering(l, curves);
    var width := o.blockBytes;
    PayloadDecodes(l, scene, o.curves, Blank(l), past);
    FundamentalDivMod(|Payload(l, scene) + past|, width);
    EnoughBlocks(|Payload(l, scene) + past|, width, Blocks(l));
  }

  /** Every reading of a pixel is alike, and fits the depth. */
  ghost predicate Still(l: Layout, scene: Scene) {
    forall c, r, s, p, n :: scene(c, r, s, p, n) == scene(c, 0, s, p, n) <= Ceiling(l.bitsPerSample)
  }

  /** A buffer shows a channel of a still scene, each pixel where the sensor read it. */
  ghost predicate Shows(l: Layout, scene: Scene, channel: nat, plane: seq<Sample>)
    requires Gap(l) > 0
  {
    forall y, x :: 0 <= y < l.pixels && 0 <= x < l.lines ==> PixelShows(l, scene, channel, plane, y, x)
  }

  ghost predicate PixelShows(l: Layout, scene: Scene, channel: nat, plane: seq<Sample>, y: nat, x: nat)
    requires Gap(l) > 0 && y < l.pixels && x < l.lines
  {
    var (stage, line) := ReadAt(l, x);
    && 0 <= y * l.lines + x < |plane|
    && plane[y * l.lines + x] == Shown(l, scene(channel, 0, stage, l.pixels - 1 - y, line))
  }

  /**
   * A scene that does not change from reading to reading comes back as it is, at
   * its own depth where lines are read once and stretched to 16 bits where they
   * are read more often, in every plane and in the infrared of a single channel.
   */
  lemma StillSceneComesBack(l: Layout, curves: Option<Curves>, scene: Scene, junk: Junk, extra: seq<Byte>,
                            chunks: seq<seq<Byte>>, pass: Pass, held: Image)
    requires Scannable(l) && GroupsTile(l) && l.ReadingsNonempty() && FitsWidth(l, scene) && RangeHolds(l)
    requires Flatten(chunks) == Wire(l, scene, junk) + extra
    requires Decoded(l, curves, Kept(ShapeOf(l), START, Flatten(chunks)), pass, held)
    requires Still(l, scene) && (curves.None? || !SeveralRows(l))
    ensures ShowsScene(l, scene, held)
  {
    SceneComesBack(l, curves, scene, junk, extra, chunks, pass, held);
    HeldShows(l, scene, held);
  }

  /** Each color has its own plane, and the last of the other channels the infrared one. */
  ghost predicate ShowsScene(l: Layout, scene: Scene, held: Image)
    requires Gap(l) > 0
  {
    && |held.colors| == l.Colors()
    && (forall c :: 0 <= c < l.Colors() ==> Shows(l, scene, Ranked(l.channels, true, c), held.colors[c]))
    && (Count(l.channels, false) > 0 ==>
          Shows(l, scene, Ranked(l.channels, false, Count(l.channels, false) - 1), held.ir))
  }

  lemma HeldShows(l: Layout, scene: Scene, held: Image)
    requires Gap(l) > 0 && Still(l, scene) && HoldsScene(l, None, scene, Blank(l), held)
    ensures ShowsScene(l, scene, held)
  {
    forall c | 0 <= c < l.Colors() ensures Shows(l, scene, Ranked(l.channels, true, c), held.colors[c]) {
      ChannelOfBuffer(l, c);
      PlaneShows(l, scene, Color(c), Ranked(l.channels, true, c), Blank(l).colors[c], held.colors[c]);
    }
    InfraredShows(l, scene, held);
  }

  lemma InfraredShows(l: Layout, scene: Scene, held: Image)
    requires Gap(l) > 0 && Still(l, scene) && HoldsScene(l, None, scene, Blank(l), held)
    ensures Count(l.channels, false) > 0 ==>
              Shows(l, scene, Ranked(l.channels, false, Count(l.channels, false) - 1), held.ir)
  {
    ChannelOfBuffer(l, 0);
    if l.Once() > 0 {
      RoomForOne(l.pixels * l.lines, l.Once());
      assert |Blank(l).ir| >= l.pixels * l.lines;
      PlaneShows(l, scene, Infrared, Ranked(l.channels, false, l.Once() - 1), Blank(l).ir, held.ir);
    }
  }

  lemma RoomForOne(size: nat, n: nat)
    requires n >= 1
    ensures size * n >= size
  {
    MulMono(1, n, size);
  }

  lemma PlaneShows(l: Layout, scene: Scene, target: Target, channel: nat, was: seq<Sample>, now: seq<Sample>)
    requires Gap(l) > 0 && channel < |l.channels| && ChannelOf(l, target) == Some(channel)
    requires Still(l, scene) && PlaneHolds(l, None, scene, target, was, now) && |was| >= l.pixels * l.lines
    ensures Shows(l, scene, channel, now)
  {
    forall y, x | 0 <= y < l.pixels && 0 <= x < l.lines ensures PixelShows(l, scene, channel, now, y, x) {
      OnePixelShows(l, scene, target, channel, was, now, y, x);
    }
  }

  lemma OnePixelShows(l: Layout, scene: Scene, target: Target, channel: nat, was: seq<Sample>, now: seq<Sample>,
                      y: nat, x: nat)
    requires Gap(l) > 0 && channel < |l.channels| && ChannelOf(l, target) == Some(channel)
    requires Still(l, scene) && PlaneHolds(l, None, scene, target, was, now) && |was| >= l.pixels * l.lines
    requires y < l.pixels && x < l.lines
    ensures PixelShows(l, scene, channel, now, y, x)
  {
    var (stage, line) := ReadAt(l, x);
    DigitBound(y, x, l.pixels, l.lines);
    DivModUnique(y * l.lines + x, l.lines, y, x);
    var v := scene(channel, 0, stage, l.pixels - 1 - y, line);
    StillIsAlike(l, scene, channel, stage, l.pixels - 1 - y, line, ReadingsOf(l, channel));
    AlikeReadingsAreShown(l, scene, channel, y, x, v);
  }

  lemma StillIsAlike(l: Layout, scene: Scene, channel: nat, stage: nat, pixel: nat, line: nat, n: nat)
    requires Still(l, scene)
    ensures ReadAlike(scene, channel, stage, pixel, line, scene(channel, 0, stage, pixel, line), n)
    ensures scene(channel, 0, stage, pixel, line) <= Ceiling(l.bitsPerSample)
  {
  }

  /** The scene of every pass of a layout comes back, whatever the scene, the padding and the chunks. */
  ghost predicate ComesBack(l: Layout) {
    && Scannable(l) && GroupsTile(l)
    && forall curves, scene, junk, extra, chunks: seq<seq<Byte>>, pass, held ::
         Returns(l, curves, scene, junk, extra, chunks, pass, held)
  }

  ghost predicate Returns(l: Layout, curves: Option<Curves>, scene: Scene, junk: Junk, extra: seq<Byte>,
                          chunks: seq<seq<Byte>>, pass: Pass, held: Image)
    requires Scannable(l) && GroupsTile(l)
  {
    && FitsWidth(l, scene) && Flatten(chunks) == Wire(l, scene, junk) + extra
    && Decoded(l, curves, Kept(ShapeOf(l), START, Flatten(chunks)), pass, held)
    ==> pass.complete && HoldsScene(l, RowsCorrected(l, curves), scene, Blank(l), held)
  }

  lemma EveryScene(l: Layout)
    requires Scannable(l) && GroupsTile(l) && l.ReadingsNonempty() && RangeHolds(l)
    ensures ComesBack(l)
  {
    forall curves, scene, junk, extra, chunks: seq<seq<Byte>>, pass, held
      ensures Returns(l, curves, scene, junk, extra, chunks, pass, held)
    {
      if FitsWidth(l, scene) && Flatten(chunks) == Wire(l, scene, junk) + extra
         && Decoded(l, curves, Kept(ShapeOf(l), START, Flatten(chunks)), pass, held) {
        SceneComesBack(l, curves, scene, junk, extra, chunks, pass, held);
      }
    }
  }

  lemma EnoughBlocks(have: nat, width: nat, blocks: nat)
    requires width > 0
    ensures have / width >= blocks <==> have >= blocks * width
  {
    FundamentalDivMod(have, width);
    var q := have / width;
    assert width * q == q * width;
    if q >= blocks { MulMono(blocks, q, width); }
    if q + 1 <= blocks { MulMono(q + 1, blocks, width); assert (q + 1) * width == q * width + width; }
  }

  /** However many whole groups arrive, a pass is complete exactly when its range keeps as many as the image has. */
  lemma CompleteWithGroups(l: Layout, curves: Option<Curves>, n: nat, body: seq<Byte>, junk: Junk,
                           pass: Pass, held: Image)
    requires Scannable(l) && GroupsTile(l) && l.ReadingsNonempty() && l.lines > 0
    requires |body| == n * LineBody(PartsOf(l), 0)
    requires Decoded(l, curves, Kept(ShapeOf(l), START, Padded(PartsOf(l), 0, n, body, junk)), pass, held)
    ensures pass.complete <==> KeptGroups(l, n) >= Groups(l)
  {
    KeptLength(l, n, body, junk);
    GroupsConserved(l);
    SomeBlocks(l);
    KeptEnough(KeptGroups(l, n), Groups(l), LineBody(PartsOf(l), 0), PassOrdering(l, curves).blockBytes, Blocks(l));
  }

  /**
   * Where the unit attaches invalid lines the wire is that much longer than the
   * image, but the filter keeps a range of the image's own length less those lines,
   * and counts groups of packed rows against it. READs round the wire up to whole
   * groups. A pass is complete exactly when the lines after the image, so rounded,
   * make up for the groups skipped before it, and the range still holds as many
   * groups as the image has.
   */
  lemma CompleteWithInvalidLines(l: Layout, curves: Option<Curves>, body: seq<Byte>, junk: Junk, pass: Pass,
                                 held: Image)
    requires Scannable(l) && GroupsTile(l) && l.ReadingsNonempty() && l.lines > 0
    requires |body| == WireGroups(l) * LineBody(PartsOf(l), 0)
    requires Decoded(l, curves, Kept(ShapeOf(l), START, Padded(PartsOf(l), 0, WireGroups(l), body, junk)), pass, held)
    ensures pass.complete <==>
              && l.truncatedLinesFrame.first * (l.packedRows - 1) < l.truncatedLinesFrame.last + l.packedRows
              && l.truncatedLinesFrame.first + l.truncatedLinesFrame.last + l.lines / l.packedRows <= l.lines
  {
    CompleteWithGroups(l, curves, WireGroups(l), body, junk, pass, held);
    KeptEnoughGroups(l, WireGroups(l), l.packedRows - 1);
  }

  /** Where READs stop at the last whole group instead, the lines after the image have to be enough by themselves. */
  lemma CompleteWithoutRounding(l: Layout, curves: Option<Curves>, n: nat, body: seq<Byte>, junk: Junk,
                                pass: Pass, held: Image)
    requires Scannable(l) && GroupsTile(l) && l.ReadingsNonempty() && l.lines > 0
    requires n * l.packedRows <= WireLines(l) < n * l.packedRows + l.packedRows
    requires |body| == n * LineBody(PartsOf(l), 0)
    requires Decoded(l, curves, Kept(ShapeOf(l), START, Padded(PartsOf(l), 0, n, body, junk)), pass, held)
    ensures pass.complete <==>
              && l.truncatedLinesFrame.first * (l.packedRows - 1) <= l.truncatedLinesFrame.last
              && l.truncatedLinesFrame.first + l.truncatedLinesFrame.last + l.lines / l.packedRows <= l.lines
  {
    CompleteWithGroups(l, curves, n, body, junk, pass, held);
    KeptEnoughGroups(l, n, 0);
  }

  /** The groups a wire comes to, rounded up as READs are. */
  function WireGroups(l: Layout): nat
    requires l.packedRows >= 1
  {
    DivCeil(WireLines(l), l.packedRows)
  }

  /** Where the rows are not packed, that is when there are no invalid lines. */
  lemma CompleteWithoutInvalidLines(l: Layout, curves: Option<Curves>, body: seq<Byte>, junk: Junk, pass: Pass,
                                    held: Image)
    requires Scannable(l) && l.packedRows == 1 && l.ReadingsNonempty() && l.lines > 0
    requires |body| == WireLines(l) * LineBody(PartsOf(l), 0)
    requires Decoded(l, curves, Kept(ShapeOf(l), START, Padded(PartsOf(l), 0, WireLines(l), body, junk)), pass, held)
    ensures pass.complete <==> l.truncatedLinesFrame == NO_EDGES
  {
    DivModUnique(l.lines, 1, l.lines, 0);
    CompleteWithInvalidLines(l, curves, body, junk, pass, held);
  }

  /** Groups of a wire of `n` that the filter keeps. */
  function KeptGroups(l: Layout, n: nat): nat {
    KeptTo(ShapeOf(l), n) - KeptFrom(ShapeOf(l), n)
  }

  /** Groups of a wire whose lines are rounded by up to `up` more, or down to a whole group. */
  lemma KeptEnoughGroups(l: Layout, n: nat, up: nat)
    requires GroupsTile(l) && l.lines > 0 && up in {0, l.packedRows - 1}
    requires n * l.packedRows <= WireLines(l) + up < n * l.packedRows + l.packedRows
    ensures Groups(l) >= 1
    ensures KeptGroups(l, n) >= Groups(l) <==>
              && l.truncatedLinesFrame.first * (l.packedRows - 1) <= l.truncatedLinesFrame.last + up
              && l.truncatedLinesFrame.first + l.truncatedLinesFrame.last + Groups(l) <= l.lines
  {
    var first, last, p, g := l.truncatedLinesFrame.first, l.truncatedLinesFrame.last, l.packedRows, Groups(l);
    FundamentalDivMod(l.lines, p);
    assert g * p == l.lines;
    assert g >= 1 by { if g <= 0 { MulMono(g, 0, p); } }
    EnoughAfter(n, g, p, first, last + up);
  }

  /** The groups of the attached lines are no fewer than those skipped. */
  lemma EnoughAfter(n: nat, g: nat, p: nat, first: nat, last: nat)
    requires p >= 1 && n * p <= g * p + first + last < n * p + p
    ensures n - first >= g <==> first * (p - 1) <= last
  {
    assert (n - g) * p == n * p - g * p;
    assert first * p == first * (p - 1) + first;
    if n - g >= first {
      MulMono(first, n - g, p);
    } else {
      MulMono(n - g + 1, first, p);
      assert (n - g + 1) * p == (n - g) * p + p;
    }
  }

  lemma KeptLength(l: Layout, n: nat, body: seq<Byte>, junk: Junk)
    requires l.ReadingsNonempty()
    requires |body| == n * LineBody(PartsOf(l), 0)
    ensures |Kept(ShapeOf(l), START, Padded(PartsOf(l), 0, n, body, junk))|
         == KeptGroups(l, n) * LineBody(PartsOf(l), 0)
  {
    var sh, parts := ShapeOf(l), PartsOf(l);
    LayoutInStep(l);
    StripWire(sh, parts, n, body, junk);
    CutSizes(KeptFrom(sh, n), KeptTo(sh, n), n, LineBody(parts, 0));
  }

  /** Groups of bytes fill the blocks of as many groups exactly when there are as many. */
  lemma KeptEnough(kept: nat, groups: nat, size: nat, width: nat, blocks: nat)
    requires blocks > 0 && width > 0 && groups * size == blocks * width
    ensures 0 <= kept * size / width
    ensures Min(blocks, kept * size / width) == blocks <==> kept >= groups
  {
    MulMono(0, kept, size);
    DivMono(0, kept * size, width);
    EnoughBlocks(kept * size, width, blocks);
    MulMono(1, blocks, width);
    assert size > 0;
    if kept < groups {
      MulMono(kept + 1, groups, size);
      assert (kept + 1) * size == kept * size + size;
    } else {
      MulMono(groups, kept, size);
    }
  }

  // ----- the part of a scene that a range short of its image keeps

  /** The block that fills pixel `i`. */
  function BlockOfPixel(l: Layout, i: nat): nat
    requires l.lines > 0 && Gap(l) > 0
  {
    MulMono(1, Gap(l), CcdLines(l));
    DivMono(0, i % l.lines, Gap(l) * CcdLines(l));
    i % l.lines / (Gap(l) * CcdLines(l))
  }

  /** A buffer holds the scene where its first `d` blocks fill it, and elsewhere what it did. */
  ghost predicate PlaneHoldsBlocks(l: Layout, curves: Option<Curves>, scene: Scene, target: Target, d: nat,
                                   was: seq<Sample>, now: seq<Sample>)
    requires Gap(l) > 0
  {
    && |now| == |was|
    && forall i :: 0 <= i < |was| ==>
         now[i] == if l.lines > 0 && BlockOfPixel(l, i) < d
                   then PixelHeld(l, curves, scene, target, was[i], i) else was[i]
  }

  ghost predicate HoldsBlocks(l: Layout, curves: Option<Curves>, scene: Scene, d: nat, was: Image, now: Image)
    requires Gap(l) > 0
  {
    && |now.colors| == |was.colors|
    && (forall c :: 0 <= c < |was.colors| ==>
          PlaneHoldsBlocks(l, curves, scene, Color(c), d, was.colors[c], now.colors[c]))
    && PlaneHoldsBlocks(l, curves, scene, Infrared, d, was.ir, now.ir)
  }

  /**
   * Whatever lines are attached before and after an image, what a pass holds is the
   * scene that the groups after those skipped carry: the blocks that the groups of
   * the range fill hold it, and the others are blank. Where rows are not packed that
   * is the image's own scene; where they are, one that begins `first * (p - 1)` lines
   * into it.
   */
  lemma PartComesBack(l: Layout, curves: Option<Curves>, scene: Scene, n: nat, body: seq<Byte>, junk: Junk,
                      pass: Pass, held: Image)
    requires Scannable(l) && GroupsTile(l) && l.ReadingsNonempty() && FitsWidth(l, scene)
    requires |body| == n * LineBody(PartsOf(l), 0) && CarriesScene(l, scene, n, body)
    requires Decoded(l, curves, Kept(ShapeOf(l), START, Padded(PartsOf(l), 0, n, body, junk)), pass, held)
    ensures pass.blocks == Min(Blocks(l), KeptGroups(l, n) * LineBody(PartsOf(l), 0) / OrderingOf(l).blockBytes)
    ensures HoldsBlocks(l, RowsCorrected(l, curves), scene, pass.blocks, Blank(l), held)
  {
    var o := PassOrdering(l, curves);
    var kept := Kept(ShapeOf(l), START, Padded(PartsOf(l), 0, n, body, junk));
    KeptLength(l, n, body, junk);
    LayoutInStep(l);
    StripWire(ShapeOf(l), PartsOf(l), n, body, junk);
    MulMono(0, pass.blocks, o.blockBytes);
    MulMono(pass.blocks, Blocks(l), o.blockBytes);
    KeptCarriesScene(l, scene, n, body, pass.blocks * o.blockBytes);
    BlocksPictured(l, scene, o.curves, Blank(l), kept, pass.blocks);
  }

  /** Of a wire of `n` groups, those after the ones skipped carry the scene, as far as they and it go. */
  ghost predicate CarriesScene(l: Layout, scene: Scene, n: nat, body: seq<Byte>)
    requires Scannable(l) && l.packedRows >= 1
  {
    var size, first := LineBody(PartsOf(l), 0), Min(l.truncatedLinesFrame.first, n);
    var end := Min(n, first + Groups(l));
    0 <= first * size <= end * size <= |body| && body[first * size..end * size] <= Payload(l, scene)
  }

  /** Of one that do, as many bytes of the range as are the scene's are those of the scene. */
  lemma KeptCarriesScene(l: Layout, scene: Scene, n: nat, body: seq<Byte>, m: nat)
    requires Scannable(l) && GroupsTile(l) && CarriesScene(l, scene, n, body)
    requires |body| == n * LineBody(PartsOf(l), 0)
    requires m <= |Payload(l, scene)| && m <= KeptGroups(l, n) * LineBody(PartsOf(l), 0)
    ensures var size, sh := LineBody(PartsOf(l), 0), ShapeOf(l);
            && 0 <= KeptFrom(sh, n) * size <= KeptTo(sh, n) * size <= |body|
            && m <= |body[KeptFrom(sh, n) * size..KeptTo(sh, n) * size]|
            && body[KeptFrom(sh, n) * size..KeptTo(sh, n) * size][..m] == Payload(l, scene)[..m]
  {
    GroupsConserved(l);
    PrefixOfRange(body, Payload(l, scene), KeptFrom(ShapeOf(l), n), KeptTo(ShapeOf(l), n), n,
                  Groups(l), LineBody(PartsOf(l), 0), m);
  }

  lemma PrefixOfRange(body: seq<Byte>, payload: seq<Byte>, from: nat, to: nat, n: nat, g: nat, size: nat, m: nat)
    requires from <= to <= n && |body| == n * size && |payload| == g * size
    requires var end := Min(n, from + g);
             0 <= from * size <= end * size <= |body| && body[from * size..end * size] <= payload
    requires m <= |payload| && m <= (to - from) * size
    ensures 0 <= from * size <= to * size <= |body| && m <= to * size - from * size
    ensures body[from * size..to * size][..m] == payload[..m]
  {
    var end := Min(n, from + g);
    CutSizes(from, to, n, size);
    CutSizes(from, end, n, size);
    assert m <= (end - from) * size by {
      if to <= end { MulMono(to - from, end - from, size); }
    }
    SamePrefix(body, from * size, to * size, end * size, m);
  }

  lemma SamePrefix(body: seq<Byte>, first: nat, a: nat, b: nat, m: nat)
    requires first <= a <= |body| && first <= b <= |body| && m <= a - first && m <= b - first
    ensures body[first..a][..m] == body[first..b][..m]
  {
    SliceOfSlice(body, first, a, 0, m);
    SliceOfSlice(body, first, b, 0, m);
  }

  /** Streams that begin alike picture alike, as far as they do. */
  lemma SamePicture(o: Ordering, was: Image, a: seq<Byte>, b: seq<Byte>, d: nat)
    requires WellFormed(o) && d * o.blockBytes <= |a| && d * o.blockBytes <= |b|
    requires a[..d * o.blockBytes] == b[..d * o.blockBytes]
    ensures Pictured(o, was, a, 0, d) == Pictured(o, was, b, 0, d)
  {
    MulMono(0, d, o.blockBytes);
    var m := d * o.blockBytes;
    PicturedPrefix(o, was, a[..m], a[m..], 0, d);
    PicturedPrefix(o, was, b[..m], b[m..], 0, d);
    assert a[..m] + a[m..] == a && b[..m] + b[m..] == b;
  }

  /** The first `d` blocks of a stream that has those of a scene's payload hold the scene. */
  lemma BlocksPictured(l: Layout, scene: Scene, curves: Option<Curves>, was: Image, stream: seq<Byte>, d: nat)
    requires Scannable(l) && FitsWidth(l, scene) && d <= Blocks(l)
    requires d * OrderingOf(l).blockBytes <= |stream| && d * OrderingOf(l).blockBytes <= |Payload(l, scene)|
    requires stream[..d * OrderingOf(l).blockBytes] == Payload(l, scene)[..d * OrderingOf(l).blockBytes]
    ensures WellFormed(OrderingOf(l).(curves := curves))
    ensures HoldsBlocks(l, curves, scene, d, was, Pictured(OrderingOf(l).(curves := curves), was, stream, 0, d))
  {
    var o := OrderingOf(l).(curves := curves);
    ScannableOrdering(l, curves);
    SamePicture(o, was, stream, Payload(l, scene), d);
    BlocksPainted(l, scene, curves, Infrared, was.ir, d);
    forall c | 0 <= c < |was.colors|
      ensures PlaneHoldsBlocks(l, curves, scene, Color(c), d, was.colors[c],
                               Pictured(o, was, Payload(l, scene), 0, d).colors[c])
    {
      BlocksPainted(l, scene, curves, Color(c), was.colors[c], d);
    }
  }

  lemma BlocksPainted(l: Layout, scene: Scene, curves: Option<Curves>, target: Target, plane: seq<Sample>, d: nat)
    requires Scannable(l) && FitsWidth(l, scene) && d <= Blocks(l)
    ensures WellFormed(OrderingOf(l).(curves := curves))
    ensures d * OrderingOf(l).blockBytes <= |Payload(l, scene)|
    ensures PlaneHoldsBlocks(l, curves, scene, target, d, plane,
                             PaintedBlocks(OrderingOf(l).(curves := curves), target, plane, Payload(l, scene), 0, d))
  {
    var o := OrderingOf(l).(curves := curves);
    ScannableOrdering(l, curves);
    MulMono(d, Blocks(l), o.blockBytes);
    forall i | 0 <= i < |plane|
      ensures PaintedBlocks(o, target, plane, Payload(l, scene), 0, d)[i]
           == if l.lines > 0 && BlockOfPixel(l, i) < d
              then PixelHeld(l, curves, scene, target, plane[i], i) else plane[i]
    {
      BlocksHoldScene(l, scene, curves, target, plane, d, i);
    }
  }

  lemma SomeBlocks(l: Layout)
    requires Scannable(l) && l.lines > 0
    ensures Blocks(l) > 0
  {
    MulMono(1, Gap(l), CcdLines(l));
    FundamentalDivMod(l.lines, Gap(l) * CcdLines(l));
  }

  /** Lines on the wire: the image's, and the invalid ones before and after. */
  function WireLines(l: Layout): nat {
    l.lines + l.truncatedLinesFrame.first + l.truncatedLinesFrame.last
  }
}
