/**
 * What is planned, against what is accepted: which plans have a layout, which of
 * those a decoder takes, and which bring their scene back.
 */
module Plans {
  import opened Wrappers
  import opened Arith
  import opened Layouts
  import opened Decoding
  import opened WireToImage
  import opened Geometry
  import opened Scheduling
  import ImageChunks
  import ScanPass

  // ----- which plans have a layout

  /**
   * A planned set describes a stream unless the unit or the recipe names no
   * resolution, or infrared was asked for of a unit with one color channel.
   */
  lemma PlannedHasALayout(caps: Caps, recipe: Recipe, frame: Rect, divisor: nat, attached: Option<Attached>)
    requires WindowsOf(caps, recipe, frame).Ok?
    ensures PlanOf(caps, recipe, frame, divisor, attached).Ok?
       <==> recipe.dpi != 0 && caps.x.opticalDpi != 0 && (recipe.infrared ==> caps.rgb)
    ensures recipe.infrared && !caps.rgb ==> PlanOf(caps, recipe, frame, divisor, attached) == Err(DefaultNotAlone)
  {
    var ws := WindowsOf(caps, recipe, frame).value;
    var channels := ChannelsOf(caps, recipe.infrared);
    assert Ids(ws) == channels;
    ColorsOfChannels(caps, recipe.infrared);
    if recipe.infrared && !caps.rgb {
      assert ws[1].id == DEFAULT;
      assert ValidateSet(ws) == Some(DefaultNotAlone);
    } else {
      assert ValidateSet(ws) == None;
      BytesOfDepth(ws[0].bpp);
    }
  }

  /** What the layout of a plan is: the channels, depth and readings of its windows, and the rows of its unit. */
  lemma PlannedShape(caps: Caps, recipe: Recipe, frame: Rect, divisor: nat, attached: Option<Attached>, l: Layout)
    requires Parsed(caps) && PlanOf(caps, recipe, frame, divisor, attached) == Ok(l)
    ensures Supported(caps, recipe) == None && recipe.dpi != 0
    ensures l.channels == ChannelsOf(caps, recipe.infrared)
         == (if recipe.infrared then [9] else []) + if caps.rgb then [1, 2, 3] else [0]
    ensures l.readingsPerLine == recipe.samples && l.interleaving == recipe.interleaving
    ensures l.bitsPerSample == WindowsOf(caps, recipe, frame).value[0].bpp
    ensures l.bytesPerSample == if l.bitsPerSample <= 8 then 1 else 2
    ensures l.packedRows == (if recipe.Multiline() && !caps.raisesMultiLine then caps.lines else 1)
    ensures l.infraredPerReading == caps.infraredEveryReading
    ensures l.ccdLines == caps.lines && l.registrationGap == RegistrationGap(caps, recipe.dpi)
  {
    var ws := WindowsOf(caps, recipe, frame).value;
    assert Ids(ws) == ChannelsOf(caps, recipe.infrared);
    ColorsOfChannels(caps, recipe.infrared);
    PlannedHasALayout(caps, recipe, frame, divisor, attached);
    BytesOfDepth(ws[0].bpp);
  }

  /**
   * Its image is the window by the pitches the unit scans at, in sensor steps at the
   * unit's own divisor and in 1200ths of an inch at the coarse one;
   * and between two rows of the CCD are the lines that their gap is in the feed's.
   */
  lemma PlannedExtent(caps: Caps, recipe: Recipe, frame: Rect, divisor: nat, attached: Option<Attached>, l: Layout)
    requires Parsed(caps) && PlanOf(caps, recipe, frame, divisor, attached) == Ok(l)
    ensures recipe.dpi != 0
    ensures var w, optical := WindowsOf(caps, recipe, frame).value[0], caps.x.opticalDpi;
            var pitch := Snap(caps.pitchRule, optical / recipe.dpi);
            var linePitch := Snap(caps.pitchRule, Max(caps.y.opticalDpi, optical) / recipe.dpi);
            && l.pixels == (if divisor == 1200 then w.width * optical / (1200 * pitch) else w.width / pitch)
            && l.lines == (if divisor == 1200 then w.height * optical / (1200 * linePitch) else w.height / linePitch)
            && l.registrationGap == caps.lineGap / linePitch
  {
    PlannedHasALayout(caps, recipe, frame, divisor, attached);
    DivMono(0, caps.x.opticalDpi, recipe.dpi);
  }

  lemma PlannedLines(caps: Caps, recipe: Recipe, frame: Rect, divisor: nat, attached: Option<Attached>, l: Layout)
    requires Parsed(caps) && PlanOf(caps, recipe, frame, divisor, attached) == Ok(l)
    ensures l.lines == Outputs(FrameExtent(caps, recipe, frame), FeedPitch(caps, recipe), caps.x.opticalDpi, divisor)
    ensures l.pixels
         == Outputs(WindowsOf(caps, recipe, frame).value[0].width, BarPitch(caps, recipe), caps.x.opticalDpi, divisor)
  {
  }

  /**
   * The bytes and lines the unit reports are those the layout counts. What is attached
   * to a color and to a line is attached to every reading, but where the unit counts
   * the reading with infrared by itself, that count stands for the line's.
   */
  lemma PlannedIsAttached(caps: Caps, windows: seq<Window>, divisor: nat, attached: Option<Attached>, l: Layout)
    requires LayoutOf(caps, windows, divisor, attached) == Ok(l)
    ensures match attached
            case None => l.truncatedBytesLine == l.truncatedBytesOnce == l.truncatedLinesFrame == Edges(0, 0)
            case Some(a) =>
              && l.truncatedLinesFrame == a.lines
              && l.truncatedBytesLine.first == a.perColor.first + a.allColors.first
              && l.truncatedBytesLine.last == a.perColor.last + a.allColors.last
              && l.truncatedBytesOnce.first == a.perColor.first
                   + (if a.infraredCounted then a.infraredReading.first else a.allColors.first)
              && l.truncatedBytesOnce.last == a.perColor.last
                   + if a.infraredCounted then a.infraredReading.last else a.allColors.last
  {
  }

  /**
   * The lengths its READs end on are those of the layout itself: of readings where the
   * unit names that bit; of lines where it names neither, or where bytes are
   * attached across the colors; and otherwise of one color's line.
   */
  lemma PlannedGranules(caps: Caps, windows: seq<Window>, divisor: nat, attached: Option<Attached>, l: Layout)
    requires LayoutOf(caps, windows, divisor, attached) == Ok(l)
    ensures l.granules == ReadGranules(caps, l, attached)
    ensures caps.readLineColors ==> l.granules == l.ReadingGranules()
    ensures !caps.readLineColors && (!caps.readLine || AcrossColors(attached)) ==>
              l.granules == Every(Max(l.BytesPerLine() * l.packedRows, 1))
    ensures !caps.readLineColors && caps.readLine && !AcrossColors(attached) ==>
              l.granules == Every(Max(l.pixels * l.bytesPerSample + AttachedToColor(attached), 1))
  {
    LengthsAside(l, Every(1), 0);
  }

  predicate AcrossColors(attached: Option<Attached>) {
    attached.Some? && (attached.value.allColors.first > 0 || attached.value.allColors.last > 0)
  }

  function AttachedToColor(attached: Option<Attached>): nat {
    match attached case None => 0 case Some(a) => a.perColor.first + a.perColor.last
  }

  /** The lengths of readings are what the readings are long: the first, another, and the line they come to. */
  lemma ReadingLengths(l: Layout)
    requires l.packedRows >= 1 && l.ReadingsNonempty()
    ensures var g := l.ReadingGranules();
            && g.first == l.BytesPerReading(0) * l.packedRows
            && (l.Readings() > 1 ==> g.rest == l.BytesPerReading(1) * l.packedRows)
            && g.line == (if l.EvenReadings() then g.first else l.BytesPerLine() * l.packedRows)
  {
    LineIsWhole(l);
  }

  /** What sets of windows have a layout. */
  lemma WhatHasALayout(caps: Caps, windows: seq<Window>, divisor: nat, attached: Option<Attached>)
    ensures LayoutOf(caps, windows, divisor, attached).Ok? <==>
              && windows != []
              && (forall i :: 0 <= i < |windows| ==> Alike(windows[i], windows[0]))
              && (|windows| > 1 ==> forall i :: 0 <= i < |windows| ==> windows[i].id != 0)
              && OrderSettled(windows)
              && windows[0].composition != Bilevel
              && Count(Ids(windows), true) == (if windows[0].composition == MultilevelBW then 1 else 3)
              && caps.x.opticalDpi > 0 && windows[0].dpiX > 0
              && (1 <= windows[0].bpp <= 16 || 25 <= windows[0].bpp <= 32)
  {
    if windows != [] { WidthOfDepth(windows[0].bpp); }
  }

  /** The order of the colors is left to the unit, or named for each by itself. */
  predicate OrderSettled(windows: seq<Window>) {
    || (forall i :: 0 <= i < |windows| ==> windows[i].colorOrdering == 0)
    || ((forall i :: 0 <= i < |windows| ==> windows[i].colorOrdering != 0)
        && forall i, j :: 0 <= i < j < |windows| ==> windows[i].colorOrdering != windows[j].colorOrdering)
  }

  lemma WidthOfDepth(bpp: nat)
    ensures DivCeil(bpp, 8) in {1, 2, 4} <==> 1 <= bpp <= 16 || 25 <= bpp <= 32
  {
    var bytes := DivCeil(bpp, 8);
    assert bpp <= bytes * 8 < bpp + 8;
  }

  /** No set of windows describes infrared alone: its colors are one, or three. */
  lemma EverySetHasColors(caps: Caps, windows: seq<Window>, divisor: nat, attached: Option<Attached>)
    requires LayoutOf(caps, windows, divisor, attached).Ok?
    ensures LayoutOf(caps, windows, divisor, attached).value.Colors() in {1, 3}
  {
  }

  // ----- which blocks of window units tile

  /** Whether `blocks` blocks of window units come out as whole blocks of output lines. */
  predicate Tiles(lineGap: nat, lines: nat, pitch: nat, blocks: nat)
    requires 1 <= pitch <= lineGap && lines >= 1
  {
    DivMono(pitch, lineGap, pitch);
    DivModUnique(pitch, pitch, 1, 0);
    MulMono(1, lineGap / pitch, lines);
    (blocks * (lineGap * lines) / pitch) % (lineGap / pitch * lines) == 0
  }

  /** The blocks of output lines are those of window units where the pitch divides the gap. */
  lemma DividingPitchTiles(lineGap: nat, lines: nat, pitch: nat, blocks: nat)
    requires 1 <= pitch <= lineGap && lines >= 1 && lineGap % pitch == 0
    ensures Tiles(lineGap, lines, pitch, blocks)
  {
    var gap := lineGap / pitch;
    FundamentalDivMod(lineGap, pitch);
    var out := gap * lines;
    assert blocks * (lineGap * lines) == (blocks * out) * pitch by {
      Regroup(blocks, gap, lines, pitch, lineGap);
    }
    DivModUnique(blocks * (lineGap * lines), pitch, blocks * out, 0);
    DivMono(pitch, lineGap, pitch);
    DivModUnique(pitch, pitch, 1, 0);
    MulMono(1, gap, lines);
    ModShift(0, blocks, out);
    DivModUnique(0, out, 0, 0);
  }

  lemma Regroup(blocks: nat, gap: nat, lines: nat, pitch: nat, lineGap: nat)
    requires lineGap == pitch * gap
    ensures blocks * (lineGap * lines) == (blocks * (gap * lines)) * pitch
  {
    assert lineGap * lines == (gap * lines) * pitch;
  }

  /** A number of blocks that comes out ragged, where the pitch does not divide the gap. */
  function RaggedCount(lineGap: nat, lines: nat, pitch: nat): (blocks: nat)
    requires 1 <= pitch <= lineGap && lines >= 2 && lineGap % pitch != 0
    ensures 1 <= blocks <= pitch
    ensures !Tiles(lineGap, lines, pitch, blocks)
  {
    FundamentalDivMod(lineGap, pitch);
    var gap, over := lineGap / pitch, lineGap % pitch;
    DivMono(pitch, lineGap, pitch);
    DivModUnique(pitch, pitch, 1, 0);
    MulMono(1, over, lines);
    MulMono(1, gap, lines);
    var blocks := DivCeil(pitch, over * lines);
    RaggedBlocks(lineGap, lines, pitch, gap, over, blocks);
    blocks
  }

  lemma RaggedBlocks(lineGap: nat, lines: nat, pitch: nat, gap: nat, over: nat, blocks: nat)
    requires lineGap == pitch * gap + over && 0 < over < pitch && gap >= 1 && lines >= 2
    requires pitch <= blocks * (over * lines) < pitch + over * lines
    ensures 1 <= blocks <= pitch
    ensures (blocks * (lineGap * lines) / pitch) % (gap * lines) != 0
  {
    var out, past := gap * lines, over * lines;
    MulMono(1, over, lines);
    MulMono(1, gap, lines);
    FewBlocks(blocks, past, pitch);
    var extra := blocks * past;
    LessThanLines(extra, pitch, past, over, lines, blocks);
    assert lineGap * lines == out * pitch + past by { Spare(pitch, gap, over, lines); }
    Distribute(blocks, out, pitch, past);
    // At least one line too many, and not so many as to make a block
    RaggedRemainder(blocks * (lineGap * lines), extra, blocks, out, pitch);
  }

  lemma Spare(pitch: nat, gap: nat, over: nat, lines: nat)
    ensures (pitch * gap + over) * lines == (gap * lines) * pitch + over * lines
  {
  }

  lemma FewBlocks(blocks: nat, past: nat, pitch: nat)
    requires past >= 1 && pitch >= 1 && pitch <= blocks * past < pitch + past
    ensures 1 <= blocks <= pitch
  {
    assert blocks >= 1 by { if blocks == 0 { assert 0 * past == 0; } }
    assert blocks <= pitch by {
      if blocks > pitch {
        MulMono(pitch + 1, blocks, past);
        assert (pitch + 1) * past == pitch * past + past;
        MulMono(1, past, pitch);
      }
    }
  }

  lemma RaggedRemainder(whole: nat, extra: nat, blocks: nat, out: nat, pitch: nat)
    requires pitch >= 1 && whole == extra + (blocks * out) * pitch
    requires 1 <= extra / pitch < out
    ensures (whole / pitch) % out != 0
  {
    MulMono(0, blocks, out);
    ModShift(extra, blocks * out, pitch);
    ModShift(extra / pitch, blocks, out);
    DivModUnique(extra / pitch, out, 0, extra / pitch);
  }

  lemma Distribute(blocks: nat, out: nat, pitch: nat, past: nat)
    ensures blocks * (out * pitch + past) == blocks * past + (blocks * out) * pitch
  {
  }

  lemma LessThanLines(extra: nat, pitch: nat, past: nat, over: nat, lines: nat, blocks: nat)
    requires 0 < over < pitch && lines >= 2 && past == over * lines
    requires pitch <= extra < pitch + past && extra == blocks * past && blocks >= 1
    ensures 1 <= extra / pitch < lines
  {
    MulMono(over, pitch - 1, lines);
    assert (pitch - 1) * lines == pitch * lines - lines;
    assert extra < lines * pitch by {
      if past >= pitch {
        // One block is already enough
        assert blocks == 1 by { if blocks >= 2 { MulMono(2, blocks, past); } }
      } else {
        MulMono(2, lines, pitch);
      }
    }
    DigitRange(extra, lines, pitch);
    DivMono(pitch, extra, pitch);
    DivModUnique(pitch, pitch, 1, 0);
  }

  /** Every frame a whole number of blocks long decodes exactly when the pitch divides the line gap. */
  lemma EveryFrameTiles(lineGap: nat, lines: nat, pitch: nat)
    requires 1 <= pitch <= lineGap && lines >= 2
    ensures (forall k: nat :: Tiles(lineGap, lines, pitch, k)) <==> lineGap % pitch == 0
  {
    if lineGap % pitch == 0 {
      forall k: nat ensures Tiles(lineGap, lines, pitch, k) {
        DividingPitchTiles(lineGap, lines, pitch, k);
      }
    } else {
      var ragged := RaggedCount(lineGap, lines, pitch);
      assert !Tiles(lineGap, lines, pitch, ragged);
    }
  }

  /** Whether `k` steps of `n` parts each are, in wholes of `d` parts, a whole number of `m`. */
  predicate Evenly(n: nat, d: nat, m: nat, k: nat)
    requires d >= 1 && m >= 1
  {
    k * n / d % m == 0
  }

  /** Every number of steps is exactly when one of them is, with no parts left over. */
  lemma AlwaysEvenly(n: nat, d: nat, m: nat)
    requires d >= 1 && m >= 2
    ensures d * m >= 1
    ensures (forall k: nat :: Evenly(n, d, m, k)) <==> n % (d * m) == 0
  {
    MulMono(1, d, m);
    FundamentalDivMod(n, d * m);
    DivMono(0, n, d * m);
    var t, over := n / (d * m), n % (d * m);
    if over == 0 {
      forall k: nat ensures Evenly(n, d, m, k) {
        Steps(k, n, d, m, t, over);
        MulMono(0, k, t);
        MulMono(0, k * t, m);
        DivModUnique(k * n, d, (k * t) * m, 0);
        ModShift(0, k * t, m);
        DivModUnique(0, m, 0, 0);
      }
    } else {
      var k := if over >= d then 1 else DivCeil(d, over);
      assert 1 <= k * over / d < m by { SomeOver(d, m, over, k); }
      Steps(k, n, d, m, t, over);
      MulMono(0, k, t);
      MulMono(0, k, over);
      RaggedRemainder(k * n, k * over, k * t, m, d);
      assert !Evenly(n, d, m, k);
    }
  }

  lemma Steps(k: nat, n: nat, d: nat, m: nat, t: nat, over: nat)
    requires n == (d * m) * t + over
    ensures k * n == k * over + ((k * t) * m) * d
  {
    assert (d * m) * t == (t * m) * d;
    assert k * ((t * m) * d) == ((k * t) * m) * d;
  }

  lemma SomeOver(d: nat, m: nat, over: nat, k: nat)
    requires d >= 1 && m >= 2 && 1 <= over < d * m
    requires if over >= d then k == 1 else d <= k * over < d + over
    ensures 1 <= k * over / d < m
  {
    if over >= d {
      DigitRange(over, m, d);
      DivMono(d, over, d);
      DivModUnique(d, d, 1, 0);
    } else {
      DivModUnique(k * over, d, 1, k * over - d);
    }
  }

  /** At the coarse divisor, whether `blocks` blocks of window units come out as whole blocks of output lines. */
  predicate CoarseTiles(caps: Caps, pitch: nat, blocks: nat)
    requires pitch >= 1 && Strip(caps, pitch) >= 1
  {
    MulMono(0, BlockOf(caps), caps.x.opticalDpi);
    Evenly(BlockOf(caps) * caps.x.opticalDpi, COARSE_DIVISOR * pitch, Strip(caps, pitch), blocks)
  }

  /**
   * They do for every frame exactly when a block is whole blocks of output lines
   * to begin with; where the pitch divides the gap, exactly when a window unit is a
   * whole number of sensor steps.
   */
  lemma EveryCoarseFrameTiles(caps: Caps, pitch: nat)
    requires pitch >= 1 && Strip(caps, pitch) >= 2
    ensures COARSE_DIVISOR * pitch * Strip(caps, pitch) >= 1
    ensures (forall k: nat :: CoarseTiles(caps, pitch, k))
       <==> BlockOf(caps) * caps.x.opticalDpi % (COARSE_DIVISOR * pitch * Strip(caps, pitch)) == 0
    ensures caps.lineGap % pitch == 0 ==>
              ((forall k: nat :: CoarseTiles(caps, pitch, k)) <==> caps.x.opticalDpi % COARSE_DIVISOR == 0)
  {
    var strip, optical := Strip(caps, pitch), caps.x.opticalDpi;
    var n, d := BlockOf(caps) * optical, COARSE_DIVISOR * pitch;
    MulMono(0, BlockOf(caps), optical);
    AlwaysEvenly(n, d, strip);
    if forall k: nat :: CoarseTiles(caps, pitch, k) {
      forall k: nat ensures Evenly(n, d, strip, k) { assert CoarseTiles(caps, pitch, k); }
    }
    if n % (d * strip) == 0 {
      forall k: nat ensures CoarseTiles(caps, pitch, k) { assert Evenly(n, d, strip, k); }
    }
    if caps.lineGap % pitch == 0 {
      FundamentalDivMod(caps.lineGap, pitch);
      var whole := pitch * strip;
      MulMono(1, pitch, strip);
      BlockOfStrips(caps.lineGap, caps.lines, pitch, caps.lineGap / pitch);
      assert n == whole * optical && d * strip == whole * COARSE_DIVISOR;
      CommonFactor(whole, optical, COARSE_DIVISOR);
    }
  }

  lemma BlockOfStrips(lineGap: nat, lines: nat, pitch: nat, gap: nat)
    requires lineGap == pitch * gap
    ensures lineGap * lines == pitch * (gap * lines)
  {
  }

  lemma CommonFactor(c: nat, a: nat, b: nat)
    requires c >= 1 && b >= 1
    ensures c * b >= 1
    ensures c * a % (c * b) == 0 <==> a % b == 0
  {
    MulMono(1, c, b);
    FundamentalDivMod(a, b);
    var q, rest := a / b, a % b;
    assert c * a == q * (c * b) + c * rest by {
      assert c * (b * q) == q * (c * b);
      assert c * (b * q + rest) == c * (b * q) + c * rest;
    }
    MulMono(0, rest, c);
    MulMono(rest + 1, b, c);
    assert (rest + 1) * c == c * rest + c;
    DivModUnique(c * a, c * b, q, c * rest);
    if rest > 0 { MulMono(1, rest, c); }
  }

  // ----- which plans a decoder accepts

  /** How many blocks a recipe scans of a frame. */
  function BlocksOf(caps: Caps, recipe: Recipe, frame: Rect): nat {
    if BlockOf(caps) == 0 then 0 else Quotient(FrameExtent(caps, recipe, frame), BlockOf(caps))
  }

  /**
   * A decoder accepts a planned multi-line pass exactly when its lines are a whole
   * number of its blocks: at the unit's own divisor, when its blocks tile, which
   * every frame's do on a unit whose pitches divide its line gap; at the coarse
   * one, when they do in the coarser unit.
   */
  lemma PlannedIsAccepted(caps: Caps, recipe: Recipe, frame: Rect, divisor: nat, attached: Option<Attached>, l: Layout)
    requires Parsed(caps) && PlanOf(caps, recipe, frame, divisor, attached) == Ok(l)
    ensures !recipe.Multiline() ==> (Refused(l) == None <==> LineWithoutDistance in recipe.interleaving)
    ensures recipe.Multiline() && caps.lines == 1 ==> Refused(l) == None
    ensures recipe.Multiline() && caps.lines >= 2 ==>
              var pitch, blocks := FeedPitch(caps, recipe), BlocksOf(caps, recipe, frame);
              && pitch <= caps.lineGap
              && Strip(caps, pitch) >= 2
              && (Refused(l) == None <==>
                    if divisor == COARSE_DIVISOR then CoarseTiles(caps, pitch, blocks)
                    else Tiles(caps.lineGap, caps.lines, pitch, blocks))
              && (caps.pitchRule.DivisorsOf? && divisor != COARSE_DIVISOR ==> Refused(l) == None)
  {
    PlannedShape(caps, recipe, frame, divisor, attached, l);
    PlannedLines(caps, recipe, frame, divisor, attached, l);
    if !recipe.Multiline() || caps.lines == 1 {
      DivModUnique(l.lines, 1, l.lines, 0);
      assert Gap(l) * CcdLines(l) == 1;
    } else {
      var pitch, blocks := FeedPitch(caps, recipe), BlocksOf(caps, recipe, frame);
      PitchInGap(caps, recipe);
      ExtentInBlocks(caps, recipe, frame);
      if caps.pitchRule.DivisorsOf? {
        DividingPitchTiles(caps.lineGap, caps.lines, pitch, blocks);
      }
      if divisor == COARSE_DIVISOR {
        Associate(blocks, BlockOf(caps), caps.x.opticalDpi);
      }
    }
  }

  lemma Associate(a: nat, b: nat, c: nat)
    ensures a * b * c == a * (b * c)
  {
  }

  /** Output lines in a block. */
  function Strip(caps: Caps, pitch: nat): nat
    requires pitch >= 1
  {
    MulMono(0, Quotient(caps.lineGap, pitch), caps.lines);
    Quotient(caps.lineGap, pitch) * caps.lines
  }

  /** A pitch that leaves a gap is no more than the gap. */
  lemma PitchInGap(caps: Caps, recipe: Recipe)
    requires recipe.Multiline() && Supported(caps, recipe) == None
    ensures 1 <= FeedPitch(caps, recipe) <= caps.lineGap
    ensures caps.lineGap / FeedPitch(caps, recipe) >= 1
    ensures caps.lines >= 2 ==> Strip(caps, FeedPitch(caps, recipe)) >= 2
  {
    var pitch := FeedPitch(caps, recipe);
    assert pitch <= caps.lineGap by {
      if pitch > caps.lineGap { DivModUnique(caps.lineGap, pitch, 0, caps.lineGap); }
    }
    MulMono(1, Quotient(caps.lineGap, pitch), caps.lines);
  }

  lemma ExtentInBlocks(caps: Caps, recipe: Recipe, frame: Rect)
    requires recipe.Multiline() && caps.lineGap >= 1 && caps.lines >= 1
    ensures FrameExtent(caps, recipe, frame) == BlocksOf(caps, recipe, frame) * (caps.lineGap * caps.lines)
  {
    MulMono(1, caps.lineGap, caps.lines);
    var top := Clamp(frame.top, caps.y.addresses);
    StaysOnAxis(caps, recipe, top, SatSub(frame.bottom, top));
    WholeQuotient(FrameExtent(caps, recipe, frame), BlockOf(caps));
  }

  lemma WholeQuotient(a: nat, b: nat)
    requires b >= 1 && a % b == 0
    ensures a == a / b * b
  {
    FundamentalDivMod(a, b);
  }

  /** When the windows of a multi-line pass end on the Y axis. */
  lemma PlannedStaysOnAxis(caps: Caps, recipe: Recipe, frame: Rect)
    requires Parsed(caps) && Clampable(caps) && recipe.Multiline() && WindowsOf(caps, recipe, frame).Ok?
    ensures var top := Clamp(frame.top, caps.y.addresses);
            var b, room, asked := BlockOf(caps), Room(caps, top), SatSub(frame.bottom, top);
            && b >= 1
            && ((forall w :: w in WindowsOf(caps, recipe, frame).value ==> w.top + w.height <= caps.y.addresses.last)
                <==> asked <= (room / b + 1) * b)
            && (asked <= room ==> asked <= (room / b + 1) * b)
  {
    assert caps.lineGap >= 1 by {
      if caps.lineGap == 0 { DivModUnique(0, FeedPitch(caps, recipe), 0, 0); }
    }
    MulMono(1, caps.lineGap, caps.lines);
    var top := Clamp(frame.top, caps.y.addresses);
    StaysOnAxis(caps, recipe, top, SatSub(frame.bottom, top));
    ColorsOfChannels(caps, recipe.infrared);
    var ws := WindowsOf(caps, recipe, frame).value;
    assert ws[0] in ws;
    assert forall w :: w in ws ==> w.top == top && w.height == FrameExtent(caps, recipe, frame);
  }

  // ----- which plans bring their scene back

  /**
   * A planned and accepted pass at least a pixel wide is a stream a decoder can be
   * fed, and its scene comes back where the filter's range of lines holds its groups.
   */
  lemma PlannedIsScannable(caps: Caps, recipe: Recipe, frame: Rect, divisor: nat, attached: Option<Attached>, l: Layout)
    requires Parsed(caps) && PlanOf(caps, recipe, frame, divisor, attached) == Ok(l)
    requires Refused(l) == None && l.pixels > 0
    ensures Scannable(l) && GroupsTile(l) && l.ReadingsNonempty()
    ensures RangeHolds(l) ==> ScanPass.ComesBack(l)
  {
    PlannedShape(caps, recipe, frame, divisor, attached, l);
    PlannedLines(caps, recipe, frame, divisor, attached, l);
    ColorsOfChannels(caps, recipe.infrared);
    assert l.packedRows in {1, CcdLines(l)};
    GroupsDivide(l);
    ColorsArePayload(l);
    if RangeHolds(l) { ScanPass.EveryScene(l); }
  }

  lemma GroupsDivide(l: Layout)
    requires Refused(l) == None && l.packedRows in {1, CcdLines(l)}
    ensures GroupsTile(l)
  {
    MulMono(1, Gap(l), CcdLines(l));
    var strip := Gap(l) * CcdLines(l);
    FundamentalDivMod(l.lines, strip);
    var q := l.lines / strip;
    if l.packedRows == 1 {
      DivModUnique(l.lines, 1, l.lines, 0);
    } else {
      assert l.lines == (q * Gap(l)) * CcdLines(l) by { Commute(l.lines, Gap(l), CcdLines(l), q); }
      DivModUnique(l.lines, CcdLines(l), q * Gap(l), 0);
    }
  }

  lemma Commute(lines: nat, gap: nat, ccd: nat, q: nat)
    requires lines == (gap * ccd) * q
    ensures lines == (q * gap) * ccd
  {
  }

  /** A reading always carries the colors, so it is never empty. */
  lemma ColorsArePayload(l: Layout)
    requires l.pixels > 0 && l.bytesPerSample > 0 && l.Colors() > 0 && l.packedRows > 0
    ensures l.ReadingsNonempty()
  {
    MulMono(1, l.pixels, l.bytesPerSample);
    forall r | 0 <= r < l.Readings() ensures l.BytesPerReading(r) * l.packedRows >= 1 {
      var samples := l.pixels * l.bytesPerSample;
      MulMono(1, samples, l.ReadingReadouts(r));
      MulMono(1, l.BytesPerReading(r), l.packedRows);
    }
  }

  /**
   * On a unit whose pitches divide its line gap, with no invalid lines attached and
   * by a window unit that is whole sensor steps, every multi-line pass that is
   * planned is accepted, and its scene comes back from the wire.
   */
  lemma PlannedDecodes(caps: Caps, recipe: Recipe, frame: Rect, divisor: nat, attached: Option<Attached>, l: Layout)
    requires Parsed(caps) && caps.pitchRule.DivisorsOf? && recipe.Multiline()
    requires PlanOf(caps, recipe, frame, divisor, attached) == Ok(l)
    requires divisor == COARSE_DIVISOR ==> caps.x.opticalDpi % COARSE_DIVISOR == 0
    requires InvalidLines(attached) == NO_EDGES
    ensures Refused(l) == None && l.truncatedLinesFrame == NO_EDGES
    ensures l.pixels > 0 ==> ScanPass.ComesBack(l)
  {
    PlannedIsAccepted(caps, recipe, frame, divisor, attached, l);
    PlannedShape(caps, recipe, frame, divisor, attached, l);
    PlannedLines(caps, recipe, frame, divisor, attached, l);
    if divisor == COARSE_DIVISOR && caps.lines >= 2 {
      EveryCoarseFrameTiles(caps, FeedPitch(caps, recipe));
      assert CoarseTiles(caps, FeedPitch(caps, recipe), BlocksOf(caps, recipe, frame));
    }
    if l.pixels > 0 {
      PlannedIsScannable(caps, recipe, frame, divisor, attached, l);
      NoInvalidLines(l);
    }
  }

  // ----- how a plan is read

  /**
   * Whatever a READ may carry, the lengths chosen for a planned pass of some pixels
   * are ones to read it by; and by lines or by readings, where no lines are attached,
   * the READs of an accepted one bring exactly its bytes.
   */
  lemma PlannedReads(caps: Caps, recipe: Recipe, frame: Rect, divisor: nat, attached: Option<Attached>, l: Layout,
                     maxTransfer: nat, scsiBuffer: Option<nat>, preferred: nat, requiresGranules: bool)
    requires Parsed(caps) && PlanOf(caps, recipe, frame, divisor, attached) == Ok(l) && l.pixels > 0
    requires ImageChunks.ChunkSize(l, maxTransfer, scsiBuffer, preferred, requiresGranules).Some?
    ensures var (g, chunk) := ImageChunks.ChunkSize(l, maxTransfer, scsiBuffer, preferred, requiresGranules).value;
            && ImageChunks.Pass(g, l.TotalBytes(), l.multilineRegistered, chunk).Ready()
            && (Refused(l) == None && InvalidLines(attached) == NO_EDGES && (caps.readLineColors || !caps.readLine) ==>
                  Sum(Reads(g, chunk, 0, l.TotalBytes())) == l.TotalBytes())
  {
    var (g, chunk) := ImageChunks.ChunkSize(l, maxTransfer, scsiBuffer, preferred, requiresGranules).value;
    PlannedShape(caps, recipe, frame, divisor, attached, l);
    PlannedLines(caps, recipe, frame, divisor, attached, l);
    PlannedGranules(caps, WindowsOf(caps, recipe, frame).value, divisor, attached, l);
    ColorsOfChannels(caps, recipe.infrared);
    ColorsArePayload(l);
    PlannedGranuleIsWhole(caps, l, attached, g);
    if Refused(l) == None && InvalidLines(attached) == NO_EDGES && (caps.readLineColors || !caps.readLine) {
      assert l.packedRows in {1, CcdLines(l)};
      GroupsDivide(l);
      WholePassLands(l, chunk, g == l.ReadingGranules());
    }
  }

  /** Every length a planned pass may be read by begins a line again where a line ends. */
  lemma PlannedGranuleIsWhole(caps: Caps, l: Layout, attached: Option<Attached>, g: Granules)
    requires l.packedRows >= 1 && l.ReadingsNonempty()
    requires g == l.ReadingGranules() || g == ReadGranules(caps, l, attached)
    ensures WholeLine(g)
    ensures caps.readLineColors || !caps.readLine ==> g == l.ReadingGranules() || g == LineGranules(l)
  {
    LineIsWhole(l);
    if g != l.ReadingGranules() && g != LineGranules(l) { EveryIsWhole(g.line); }
  }

  // ----- plans that go wrong

  /** A window narrower than its pitch is planned, accepted and empty: its blocks have no bytes. */
  lemma NarrowPlan()
    ensures var plan := PlanOf(Unit(DivisorsOf(12), true), AtOnce(1000, false), Rect(0, 0, 36, 3), 4000, None);
            && Parsed(Unit(DivisorsOf(12), true)) && plan.Ok? && Refused(plan.value) == None
            && OrderingOf(plan.value).blockBytes == 0
  {
    var caps, recipe, frame := Unit(DivisorsOf(12), true), AtOnce(1000, false), Rect(0, 0, 36, 3);
    assert FrameExtent(caps, recipe, frame) == 36;
    assert FeedPitch(caps, recipe) == 4 && BarPitch(caps, recipe) == 4 && RegistrationGap(caps, 1000) == 3;
    assert Supported(caps, recipe) == None;
    PlannedHasALayout(caps, recipe, frame, 4000, None);
    var l := PlanOf(caps, recipe, frame, 4000, None).value;
    PlannedShape(caps, recipe, frame, 4000, None, l);
    PlannedLines(caps, recipe, frame, 4000, None, l);
    PlannedIsAccepted(caps, recipe, frame, 4000, None, l);
    BlocksHaveBytes(l);
  }

  /** A unit of 4000 dpi, its three rows 12 steps apart. */
  function Unit(rule: PitchRule, rgb: bool): Caps {
    Caps(Axis(4000, Span(100, 4000), Span(0, 10000), 10000), Axis(4000, Span(100, 4000), Span(0, 20000), 20000),
         12, 3, rule, rgb, {16}, true, false, {MultilineSimultaneous}, true, false, false, false)
  }

  /** A recipe that reads its three rows at once. */
  function AtOnce(dpi: nat, infrared: bool): Recipe { Recipe(dpi, 1, {MultilineSimultaneous}, infrared) }

  /** One block at 500 dpi is planned, and the decoder refuses it: 4 lines are not a whole number of 3. */
  lemma RaggedPlan()
    ensures var plan := PlanOf(Unit(Continuous, true), AtOnce(500, false), Rect(0, 0, 36, 100), 4000, None);
            Parsed(Unit(Continuous, true)) && plan.Ok? && Refused(plan.value) == Some(RaggedColumns)
  {
    var caps, recipe, frame := Unit(Continuous, true), AtOnce(500, false), Rect(0, 0, 36, 100);
    assert FrameExtent(caps, recipe, frame) == 36;
    assert FeedPitch(caps, recipe) == 8 && RegistrationGap(caps, 500) == 1;
    assert Supported(caps, recipe) == None;
    PlannedHasALayout(caps, recipe, frame, 4000, None);
    PlannedShape(caps, recipe, frame, 4000, None, PlanOf(caps, recipe, frame, 4000, None).value);
    PlannedLines(caps, recipe, frame, 4000, None, PlanOf(caps, recipe, frame, 4000, None).value);
  }

  /** At the coarse divisor even a pitch that divides the gap is refused: a block is 120 lines, not 36. */
  lemma CoarsePlan()
    ensures var caps, recipe := Unit(DivisorsOf(12), true), AtOnce(4000, false);
            var plan := PlanOf(caps, recipe, Rect(0, 0, 36, 100), COARSE_DIVISOR, None);
            Parsed(Unit(DivisorsOf(12), true)) && plan.Ok? && Refused(plan.value) == Some(RaggedColumns)
  {
    var caps, recipe, frame := Unit(DivisorsOf(12), true), AtOnce(4000, false), Rect(0, 0, 36, 100);
    assert FrameExtent(caps, recipe, frame) == 36;
    assert FeedPitch(caps, recipe) == 1 && RegistrationGap(caps, 4000) == 12;
    assert Supported(caps, recipe) == None;
    PlannedHasALayout(caps, recipe, frame, COARSE_DIVISOR, None);
    PlannedShape(caps, recipe, frame, COARSE_DIVISOR, None, PlanOf(caps, recipe, frame, COARSE_DIVISOR, None).value);
    PlannedLines(caps, recipe, frame, COARSE_DIVISOR, None, PlanOf(caps, recipe, frame, COARSE_DIVISOR, None).value);
  }

  /** Infrared is planned for a unit with one color channel, and the set is then refused. */
  lemma OneColorPlan()
    ensures Parsed(Unit(Continuous, false))
    ensures WindowsOf(Unit(Continuous, false), AtOnce(4000, true), Rect(0, 0, 36, 100)).Ok?
    ensures PlanOf(Unit(Continuous, false), AtOnce(4000, true), Rect(0, 0, 36, 100), 4000, None) == Err(DefaultNotAlone)
  {
    var caps, recipe, frame := Unit(Continuous, false), AtOnce(4000, true), Rect(0, 0, 36, 100);
    assert FrameExtent(caps, recipe, frame) == 36;
    assert RegistrationGap(caps, 4000) == 12;
    assert Supported(caps, recipe) == None;
    PlannedHasALayout(caps, recipe, frame, 4000, None);
  }

  /** A frame is planned 4968 long from 1000 short of the end of the axis: one block less is still far past it. */
  lemma PlanPastTheAxis()
    ensures var plan := WindowsOf(Unit(DivisorsOf(12), true), AtOnce(4000, false), Rect(19000, 0, 24000, 100));
            && Parsed(Unit(DivisorsOf(12), true)) && Clampable(Unit(DivisorsOf(12), true)) && plan.Ok?
            && forall w :: w in plan.value ==> w.top == 19000 && w.height == 4968
  {
    var caps, recipe, frame := Unit(DivisorsOf(12), true), AtOnce(4000, false), Rect(19000, 0, 24000, 100);
    ExtentPastTheAxis();
    assert Supported(caps, recipe) == None;
    assert forall w :: w in WindowsOf(caps, recipe, frame).value ==> w.height == FrameExtent(caps, recipe, frame);
  }

  lemma ExtentPastTheAxis()
    ensures FrameExtent(Unit(DivisorsOf(12), true), AtOnce(4000, false), Rect(19000, 0, 24000, 100)) == 4968
    ensures RegistrationGap(Unit(DivisorsOf(12), true), 4000) == 12
  {
    var caps := Unit(DivisorsOf(12), true);
    assert BlockOf(caps) == 36 && WholeBlocks(caps, 5000) == 5004;
    assert FeedPitch(caps, AtOnce(4000, false)) == 1;
  }
}
