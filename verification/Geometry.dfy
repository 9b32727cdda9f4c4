/**
 * From a frame on the film to the shape of a stream: the windows a recipe plans,
 * the layout the unit will answer them with, and what a decoder then makes of it.
 */
module Geometry {
  import opened Arith
  import opened Layouts
  import opened Wrappers
  import opened Scheduling

  /** The pitches a unit scans at. */
  datatype PitchRule = Continuous | EachPitch | DivisorsOf(gap: nat) | OnePlusEven

  datatype Span = Span(first: nat, last: nat)

  datatype Axis = Axis(opticalDpi: nat, ladder: Span, addresses: Span, boundary: nat)

  datatype Caps = Caps(
    x: Axis,
    y: Axis,
    lineGap: nat,
    lines: nat,
    pitchRule: PitchRule,
    rgb: bool,
    depths: set<nat>,
    multiReading: bool,
    highSpeed: bool,
    offered: set<Interleaving>,
    raisesMultiLine: bool,
    infraredEveryReading: bool,
    readLineColors: bool,
    readLine: bool
  )

  /** What reading the address page guarantees: some CCD rows, and one gap for both its uses. */
  predicate Parsed(caps: Caps) {
    caps.lines >= 1 && (caps.pitchRule.DivisorsOf? ==> caps.pitchRule.gap == caps.lineGap)
  }

  /** What clamping an origin onto the axes demands. */
  predicate Clampable(caps: Caps) {
    caps.x.addresses.first <= caps.x.addresses.last && caps.y.addresses.first <= caps.y.addresses.last
  }

  datatype Recipe = Recipe(dpi: nat, samples: nat, interleaving: set<Interleaving>, infrared: bool) {
    predicate Multiline() { MultilineSimultaneous in interleaving }
  }

  datatype Rect = Rect(top: nat, left: nat, bottom: nat, right: nat)

  datatype Composition = MultilevelBW | MultilevelRGB | Bilevel
  datatype Kind = Frame | Thumbnail
  datatype Mode = NormalQuality | HighSpeed | MultiReading

  datatype Window = Window(
    id: Byte,
    dpiX: nat, dpiY: nat,
    left: nat, top: nat,
    width: nat, height: nat,
    composition: Composition,
    bpp: nat,
    multipleReading: nat,
    colorOrdering: nat,
    positive: bool,
    averaging: bool,
    kind: Kind,
    mode: set<Mode>,
    interleaving: set<Interleaving>,
    aeValue: nat,
    exposure: nat
  )

  datatype Fault =
    | OffTheLadder | ReadingCount | NoMultisampling | NotOffered | OneOutputLine
    | NoFrame | PastBoundary | NoDepth
    | NoWindows | DefaultNotAlone | Disagreement | OrderPartlyPinned | OrderTwice | UnknownPlanes | PlaneCount
    | NoPitch | NoWidth

  // ----- pitches

  /** The largest divisor of `gap` that is no more than `pitch`. */
  function LargestDivisor(gap: nat, pitch: nat): (p: nat)
    requires pitch >= 1
    ensures 1 <= p <= pitch && gap % p == 0
    ensures forall q :: p < q <= pitch ==> gap % q != 0
  {
    if gap % pitch == 0 then pitch
    else (
      DivModUnique(gap, 1, gap, 0);
      LargestDivisor(gap, pitch - 1)
    )
  }

  /** The pitch a unit really scans at when asked for one: on its ladder, and no coarser than asked. */
  function Snap(rule: PitchRule, pitch: nat): (p: nat)
    ensures 1 <= p <= Max(pitch, 1)
    ensures rule.DivisorsOf? ==>
              rule.gap % p == 0 && forall q :: p < q <= pitch ==> rule.gap % q != 0
    ensures rule.OnePlusEven? ==> (p == 1 || p % 2 == 0) && Max(pitch, 1) - p <= 1
    ensures rule.Continuous? || rule.EachPitch? ==> p == Max(pitch, 1)
  {
    var pitch := Max(pitch, 1);
    match rule
    case Continuous => pitch
    case EachPitch => pitch
    case DivisorsOf(gap) => LargestDivisor(gap, pitch)
    case OnePlusEven => if pitch == 1 then 1 else pitch - pitch % 2
  }

  /** The sharper of the two axes, which the feed steps to. */
  function FeedDpi(caps: Caps): nat { Max(caps.y.opticalDpi, caps.x.opticalDpi) }

  function Quotient(a: nat, b: nat): nat
    requires b > 0
  {
    DivMono(0, a, b);
    a / b
  }

  /** Output lines between the CCD rows at a resolution. */
  function RegistrationGap(caps: Caps, dpi: nat): nat {
    Quotient(caps.lineGap, Snap(caps.pitchRule, Quotient(FeedDpi(caps), Max(dpi, 1))))
  }

  // ----- blocks

  /** Window units the CCD rows tile in. */
  function BlockOf(caps: Caps): nat {
    MulMono(0, caps.lineGap, caps.lines);
    caps.lineGap * caps.lines
  }

  /** An extent grown to a whole number of blocks, by less than one. */
  function WholeBlocks(caps: Caps, extent: nat): (grown: nat)
    ensures extent <= grown
    ensures BlockOf(caps) >= 1 ==> grown < extent + BlockOf(caps) && grown % BlockOf(caps) == 0
  {
    var b := BlockOf(caps);
    if b <= 1 then (
      if b == 1 then DivModUnique(extent, 1, extent, 0); extent else extent
    ) else (
      ModShift(0, DivCeil(extent, b), b);
      DivCeil(extent, b) * b
    )
  }

  /** The same, as far as the axis reaches: the most blocks that do, where it does not reach them all. */
  function ReachableBlocks(caps: Caps, extent: nat): (kept: nat)
    ensures kept <= caps.y.boundary && (BlockOf(caps) >= 1 ==> kept % BlockOf(caps) == 0)
    ensures if WholeBlocks(caps, extent) <= caps.y.boundary then kept == WholeBlocks(caps, extent)
            else caps.y.boundary < kept + Max(BlockOf(caps), 1)
  {
    var limit, grown, b := caps.y.boundary, WholeBlocks(caps, extent), BlockOf(caps);
    if grown <= limit then grown
    else if b <= 1 then (
      if b == 1 then DivModUnique(limit, 1, limit, 0); limit else limit
    ) else (
      FundamentalDivMod(limit, b);
      DivMono(0, limit, b);
      MulMono(0, limit / b, b);
      ModShift(0, limit / b, b);
      assert limit / b * b == b * (limit / b);
      limit / b * b
    )
  }

  /** What is left of the Y axis below a window's top. */
  function Room(caps: Caps, top: nat): nat {
    Min(SatSub(caps.y.addresses.last, top), caps.y.boundary)
  }

  /** The extent a recipe scans for one it was asked for. */
  function ExtentOf(caps: Caps, recipe: Recipe, top: nat, extent: nat): nat {
    if !recipe.Multiline() then extent
    else (
      var grown := WholeBlocks(caps, extent);
      if grown <= Room(caps, top) then grown else SatSub(grown, BlockOf(caps))
    )
  }

  /**
   * Rounding comes down by one block only, so a window stays on the axis exactly
   * when what was asked for is no more than one block past the blocks that fit.
   */
  lemma StaysOnAxis(caps: Caps, recipe: Recipe, top: nat, extent: nat)
    requires recipe.Multiline() && BlockOf(caps) >= 1
    ensures var b := BlockOf(caps);
            && ExtentOf(caps, recipe, top, extent) % b == 0
            && (ExtentOf(caps, recipe, top, extent) <= Room(caps, top)
                <==> extent <= (Room(caps, top) / b + 1) * b)
    ensures extent <= Room(caps, top) ==> ExtentOf(caps, recipe, top, extent) <= Room(caps, top)
  {
    var b, room, grown := BlockOf(caps), Room(caps, top), WholeBlocks(caps, extent);
    OneBlockDown(b, room, extent, grown);
  }

  lemma OneBlockDown(b: nat, room: nat, extent: nat, grown: nat)
    requires b >= 1 && extent <= grown < extent + b && grown % b == 0
    ensures grown >= 1 ==> grown >= b
    ensures SatSub(grown, b) % b == 0
    ensures (if grown <= room then grown else SatSub(grown, b)) <= room <==> extent <= (room / b + 1) * b
  {
    var q, k := room / b, grown / b;
    FundamentalDivMod(room, b);
    FundamentalDivMod(grown, b);
    DivMono(0, room, b);
    DivMono(0, grown, b);
    Blocks(b, room, q, extent, k);
    OneBlockLess(b, k);
  }

  lemma OneBlockLess(b: nat, k: nat)
    requires b >= 1
    ensures k == 0 ==> b * k == 0
    ensures k >= 1 ==> b * k >= b && (b * k - b) % b == 0
    ensures 0 % b == 0
  {
    DivModUnique(0, b, 0, 0);
    if k >= 1 {
      ModShift(0, k - 1, b);
      MulMono(1, k, b);
      assert (k - 1) * b == b * k - b;
    }
  }

  /**
   * A frame already a whole number of blocks long is scanned at its own length
   * exactly when it fits what is left of the axis.
   */
  lemma WholeFrameIsKept(caps: Caps, recipe: Recipe, top: nat, extent: nat)
    requires recipe.Multiline() && BlockOf(caps) >= 1 && extent >= 1 && extent % BlockOf(caps) == 0
    ensures ExtentOf(caps, recipe, top, extent) == extent <==> extent <= Room(caps, top)
  {
    var b, grown := BlockOf(caps), WholeBlocks(caps, extent);
    assert grown == extent by {
      FundamentalDivMod(grown, b);
      FundamentalDivMod(extent, b);
      SameMultiple(b, grown / b, extent / b);
    }
  }

  lemma SameMultiple(b: nat, j: int, k: int)
    requires b >= 1 && b * k <= b * j < b * k + b
    ensures j == k
  {
    if j < k {
      MulMono(j + 1, k, b);
    } else if j > k {
      MulMono(k + 1, j, b);
    }
  }

  /** `k` blocks are the fewest that hold `extent`; `q` are the most that `room` holds. */
  lemma Blocks(b: nat, room: nat, q: nat, extent: nat, k: nat)
    requires b >= 1 && b * q <= room < b * q + b
    requires extent <= b * k < extent + b
    ensures b * k <= room <==> k <= q
    ensures k >= 1 ==> (b * k - b <= room <==> extent <= (q + 1) * b)
    ensures k == 0 ==> extent <= (q + 1) * b
  {
    assert (q + 1) * b == b * q + b;
    if k <= q {
      MulMono(k, q, b);
      assert k * b == b * k && q * b == b * q;
    } else {
      MulMono(q + 1, k, b);
      assert k * b == b * k;
      if k > q + 1 {
        MulMono(q + 2, k, b);
        assert (q + 2) * b == b * q + b + b;
      }
    }
  }

  // ----- the windows of a recipe

  const MAX_SAMPLES: nat := 16

  /** The extent of a recipe's windows over a frame, from where they really start. */
  function FrameExtent(caps: Caps, recipe: Recipe, frame: Rect): nat {
    var top := Clamp(frame.top, caps.y.addresses);
    ExtentOf(caps, recipe, top, SatSub(frame.bottom, top))
  }

  const DEFAULT: Byte := 0

  function DeepestDepth(depths: set<nat>): Option<nat> {
    if 16 in depths then Some(16)
    else if 14 in depths then Some(14)
    else if 12 in depths then Some(12)
    else if 10 in depths then Some(10)
    else if 8 in depths then Some(8)
    else if 1 in depths then Some(1)
    else None
  }

  function Supported(caps: Caps, recipe: Recipe): Option<Fault> {
    if !(caps.x.ladder.first <= recipe.dpi <= caps.x.ladder.last) then Some(OffTheLadder)
    else if !(1 <= recipe.samples <= MAX_SAMPLES) then Some(ReadingCount)
    else if recipe.samples > 1 && !caps.multiReading then Some(NoMultisampling)
    else if |recipe.interleaving| != 1 || !(recipe.interleaving <= caps.offered) then Some(NotOffered)
    else if recipe.Multiline() && RegistrationGap(caps, recipe.dpi) == 0 then Some(OneOutputLine)
    else None
  }

  function Reachable(caps: Caps, extent: nat): Option<Fault> {
    if extent == 0 then Some(NoFrame)
    else if extent > caps.y.boundary then Some(PastBoundary)
    else None
  }

  function Clamp(v: nat, span: Span): nat {
    Min(Max(v, span.first), span.last)
  }

  function ChannelsOf(caps: Caps, infrared: bool): seq<Byte> {
    (if infrared then [INFRARED] else []) + (if caps.rgb then [1, 2, 3] else [DEFAULT])
  }

  /** The auto exposure value a unit takes for none given. */
  const DEFAULT_AE: nat := 255

  /** A descriptor carrying what every set agrees on. */
  function Blank(id: Byte, colors: nat, bpp: nat): Window {
    Window(id, 0, 0, 0, 0, 0, 0, if colors == 1 then MultilevelBW else MultilevelRGB, bpp, 0, 0,
           false, false, Frame, {}, {}, DEFAULT_AE, 0)
  }

  /** Whether the bar is handed back at its native pitch unless the pass is shaped as a preview is. */
  predicate Native(caps: Caps, recipe: Recipe) {
    recipe.Multiline() && recipe.dpi < caps.x.opticalDpi
  }

  /** What every window of a set shares: where it is, and how it is read. */
  function Shape(caps: Caps, recipe: Recipe, frame: Rect): Window {
    var left, top := Clamp(frame.left, caps.x.addresses), Clamp(frame.top, caps.y.addresses);
    Window(DEFAULT, recipe.dpi, recipe.dpi, left, top,
           Min(SatSub(frame.right, left), caps.x.boundary),
           FrameExtent(caps, recipe, frame),
           MultilevelRGB, 0, SatSub(recipe.samples, 1), 0, true, !Native(caps, recipe), Frame,
           (if Native(caps, recipe) && caps.highSpeed then {HighSpeed} else {NormalQuality})
             + (if recipe.samples > 1 then {MultiReading} else {}),
           recipe.interleaving, DEFAULT_AE, 0)
  }

  /** A descriptor given the geometry and the mode of another. */
  function Shaped(w: Window, like: Window): Window {
    like.(id := w.id, composition := w.composition, bpp := w.bpp, colorOrdering := w.colorOrdering,
          aeValue := w.aeValue, exposure := w.exposure)
  }

  /** The window of one channel. */
  function WindowOf(caps: Caps, recipe: Recipe, frame: Rect, id: Byte, bpp: nat): Window {
    Shaped(Blank(id, if caps.rgb then 3 else 1, bpp), Shape(caps, recipe, frame))
  }

  /** The set of windows a recipe plans for a frame: one a channel, alike but for the channel. */
  function WindowsOf(caps: Caps, recipe: Recipe, frame: Rect): Result<seq<Window>, Fault> {
    var extent := FrameExtent(caps, recipe, frame);
    var refused := Supported(caps, recipe);
    var bpp := DeepestDepth(caps.depths);
    if refused.Some? then Err(refused.value)
    else if Reachable(caps, extent).Some? then Err(Reachable(caps, extent).value)
    else if bpp.None? then Err(NoDepth)
    else
      var channels := ChannelsOf(caps, recipe.infrared);
      Ok(seq(|channels|, i requires 0 <= i < |channels| => WindowOf(caps, recipe, frame, channels[i], bpp.value)))
  }

  /** The windows that scan a frame, filled in one at a time. */
  method Windows(caps: Caps, recipe: Recipe, frame: Rect) returns (r: Result<seq<Window>, Fault>)
    requires Clampable(caps)
    ensures r == WindowsOf(caps, recipe, frame)
  {
    var refused := Supported(caps, recipe);
    if refused.Some? {
      return Err(refused.value);
    }
    var channels := if caps.rgb then [1, 2, 3] else [DEFAULT];
    if recipe.infrared {
      channels := [INFRARED] + channels;
    }
    var top := Clamp(frame.top, caps.y.addresses);
    var extent := ExtentOf(caps, recipe, top, SatSub(frame.bottom, top));
    var past := Reachable(caps, extent);
    if past.Some? {
      return Err(past.value);
    }
    var shape := ShapeFor(caps, recipe, frame, extent);
    var bpp := DeepestDepth(caps.depths);
    if bpp.None? {
      return Err(NoDepth);
    }
    ColorsOfChannels(caps, recipe.infrared);
    var colors := Count(channels, true);
    var blanks := seq(|channels|, i requires 0 <= i < |channels| => Blank(channels[i], colors, bpp.value));
    var windows := FillAll(blanks, shape);
    assert channels == ChannelsOf(caps, recipe.infrared);
    AllShaped(caps, recipe, frame, bpp.value, windows);
    r := Ok(windows);
  }

  /** `v` as near as a span allows. */
  predicate NearestOn(v: nat, span: Span, near: nat) {
    && span.first <= near <= span.last
    && (v < span.first ==> near == span.first)
    && (v > span.last ==> near == span.last)
    && (span.first <= v <= span.last ==> near == v)
  }

  /**
   * Where a planned window is along the bar. It begins where the frame does, as near
   * as the axis allows, and ends where the frame does, or at the boundary; it is
   * empty where the frame ends before it begins.
   */
  lemma WindowAlongTheBar(caps: Caps, recipe: Recipe, frame: Rect, w: Window)
    requires Clampable(caps) && WindowsOf(caps, recipe, frame).Ok? && w in WindowsOf(caps, recipe, frame).value
    ensures NearestOn(frame.left, caps.x.addresses, w.left)
    ensures frame.right <= w.left ==> w.width == 0
    ensures w.left <= frame.right <= w.left + caps.x.boundary ==> w.left + w.width == frame.right
    ensures w.left + caps.x.boundary <= frame.right ==> w.width == caps.x.boundary
  {
  }

  /**
   * And along the feed. A pass of one row at a time ends where the frame does. One of
   * several rows at once is whole blocks: the fewest that hold what is left of the
   * frame, or where those do not fit the axis, one less.
   */
  lemma WindowAlongTheFeed(caps: Caps, recipe: Recipe, frame: Rect, w: Window)
    requires Clampable(caps) && WindowsOf(caps, recipe, frame).Ok? && w in WindowsOf(caps, recipe, frame).value
    ensures NearestOn(frame.top, caps.y.addresses, w.top)
    ensures 0 < w.height <= caps.y.boundary
    ensures MultilineSimultaneous !in recipe.interleaving ==> w.top + w.height == frame.bottom
    ensures MultilineSimultaneous in recipe.interleaving ==>
              HeightInBlocks(caps, frame.bottom - w.top, w.height, Min(caps.y.addresses.last - w.top, caps.y.boundary))
  {
    var top := Clamp(frame.top, caps.y.addresses);
    var extent := FrameExtent(caps, recipe, frame);
    assert w.top == top && w.height == extent && Reachable(caps, extent) == None;
    ExtentInBlocksOrNot(caps, recipe, top, frame.bottom);
  }

  lemma ExtentInBlocksOrNot(caps: Caps, recipe: Recipe, top: nat, bottom: nat)
    requires top <= caps.y.addresses.last
    ensures var extent := ExtentOf(caps, recipe, top, SatSub(bottom, top));
            && (!recipe.Multiline() ==> extent == SatSub(bottom, top))
            && (recipe.Multiline() ==>
                  HeightInBlocks(caps, bottom - top, extent, Min(caps.y.addresses.last - top, caps.y.boundary)))
  {
    if recipe.Multiline() && BlockOf(caps) >= 1 {
      StaysOnAxis(caps, recipe, top, SatSub(bottom, top));
    }
  }

  predicate HeightInBlocks(caps: Caps, asked: int, height: nat, room: int) {
    var b := caps.lineGap * caps.lines;
    b >= 1 ==>
      && height % b == 0
      && if height >= asked then height < Max(asked, 0) + b && height <= room
         else asked <= height + b && room < height + b
  }

  /** How a planned window is read. */
  lemma WindowIsReadAs(caps: Caps, recipe: Recipe, frame: Rect, w: Window)
    requires WindowsOf(caps, recipe, frame).Ok? && w in WindowsOf(caps, recipe, frame).value
    ensures w.dpiX == w.dpiY == recipe.dpi && w.interleaving == recipe.interleaving && w.kind == Frame
    ensures w.multipleReading + 1 == recipe.samples <= 16
    ensures w.composition == (if caps.rgb then MultilevelRGB else MultilevelBW) && w.positive
    ensures w.bpp in caps.depths && w.bpp in {1, 8, 10, 12, 14, 16}
    ensures forall bpp :: bpp in caps.depths && bpp in {1, 8, 10, 12, 14, 16} ==> bpp <= w.bpp
    // Below the bar's own resolution a pass of several rows is shaped as a preview is
    ensures w.averaging <==> MultilineSimultaneous !in recipe.interleaving || caps.x.opticalDpi <= recipe.dpi
    ensures HighSpeed in w.mode <==> !w.averaging && caps.highSpeed
    ensures NormalQuality in w.mode <==> HighSpeed !in w.mode
    ensures MultiReading in w.mode <==> recipe.samples > 1
    ensures w.colorOrdering == 0 && w.aeValue == 255 && w.exposure == 0
  {
  }

  /** A window a channel, infrared before the colors. */
  lemma WindowsAreTheChannels(caps: Caps, recipe: Recipe, frame: Rect)
    requires WindowsOf(caps, recipe, frame).Ok?
    ensures Ids(WindowsOf(caps, recipe, frame).value)
         == (if recipe.infrared then [9] else []) + if caps.rgb then [1, 2, 3] else [0]
  {
    assert Ids(WindowsOf(caps, recipe, frame).value) == ChannelsOf(caps, recipe.infrared);
  }

  /** What can be planned: what the unit offers, with rows that come out apart, over some of the axis. */
  lemma WhatIsPlanned(caps: Caps, recipe: Recipe, frame: Rect)
    ensures WindowsOf(caps, recipe, frame).Ok? <==>
              && caps.x.ladder.first <= recipe.dpi <= caps.x.ladder.last
              && 1 <= recipe.samples <= 16 && (caps.multiReading || recipe.samples == 1)
              && (exists i :: i in caps.offered && recipe.interleaving == {i})
              && (recipe.Multiline() ==> FeedPitch(caps, recipe) <= caps.lineGap)
              && 1 <= FrameExtent(caps, recipe, frame) <= caps.y.boundary
              && (exists bpp :: bpp in caps.depths && bpp in {1, 8, 10, 12, 14, 16})
  {
    OneInterleaving(recipe.interleaving, caps.offered);
    PitchLeavesAGap(caps, recipe);
  }

  /** A refusal says what is wrong. */
  lemma WhyNotPlanned(caps: Caps, recipe: Recipe, frame: Rect)
    requires WindowsOf(caps, recipe, frame).Err?
    ensures match WindowsOf(caps, recipe, frame).error
            case OffTheLadder => recipe.dpi < caps.x.ladder.first || recipe.dpi > caps.x.ladder.last
            case ReadingCount => recipe.samples < 1 || recipe.samples > 16
            case NoMultisampling => recipe.samples > 1 && !caps.multiReading
            case NotOffered => forall i :: i in caps.offered ==> recipe.interleaving != {i}
            case OneOutputLine => recipe.Multiline() && FeedPitch(caps, recipe) > caps.lineGap
            case NoFrame => FrameExtent(caps, recipe, frame) == 0
            case PastBoundary => FrameExtent(caps, recipe, frame) > caps.y.boundary
            case NoDepth => forall bpp :: bpp in caps.depths ==> bpp !in {1, 8, 10, 12, 14, 16}
            case _ => false
  {
    OneInterleaving(recipe.interleaving, caps.offered);
    PitchLeavesAGap(caps, recipe);
  }

  lemma OneInterleaving(asked: set<Interleaving>, offered: set<Interleaving>)
    ensures |asked| == 1 && asked <= offered <==> exists i :: i in offered && asked == {i}
  {
    if |asked| == 1 && asked <= offered {
      var i :| i in asked;
      assert |asked - {i}| == 0;
      assert asked == {i};
    }
  }

  lemma PitchLeavesAGap(caps: Caps, recipe: Recipe)
    ensures RegistrationGap(caps, recipe.dpi) != 0 <==> FeedPitch(caps, recipe) <= caps.lineGap
  {
    var pitch := FeedPitch(caps, recipe);
    if pitch > caps.lineGap {
      DivModUnique(caps.lineGap, pitch, 0, caps.lineGap);
    } else {
      DivMono(pitch, caps.lineGap, pitch);
      DivModUnique(pitch, pitch, 1, 0);
    }
  }

  lemma AllShaped(caps: Caps, recipe: Recipe, frame: Rect, bpp: nat, windows: seq<Window>)
    requires Supported(caps, recipe) == None && DeepestDepth(caps.depths) == Some(bpp)
    requires Reachable(caps, FrameExtent(caps, recipe, frame)) == None
    requires |windows| == |ChannelsOf(caps, recipe.infrared)|
    requires forall k :: 0 <= k < |windows| ==>
               windows[k] == Shaped(Blank(ChannelsOf(caps, recipe.infrared)[k], if caps.rgb then 3 else 1, bpp),
                                    Shape(caps, recipe, frame))
    ensures WindowsOf(caps, recipe, frame) == Ok(windows)
  {
    assert WindowsOf(caps, recipe, frame).value == windows;
  }

  /** The shape of a recipe's windows, settled a field at a time. */
  method ShapeFor(caps: Caps, recipe: Recipe, frame: Rect, extent: nat) returns (shape: Window)
    requires recipe.samples >= 1
    requires extent == FrameExtent(caps, recipe, frame)
    ensures shape == Shape(caps, recipe, frame)
  {
    var left, top := Clamp(frame.left, caps.x.addresses), Clamp(frame.top, caps.y.addresses);
    var width := Min(SatSub(frame.right, left), caps.x.boundary);
    var native := recipe.Multiline() && recipe.dpi < caps.x.opticalDpi;
    var mode := if native && caps.highSpeed then {HighSpeed} else {NormalQuality};
    if recipe.samples > 1 {
      mode := mode + {MultiReading};
    }
    var averaging := false;
    if !native {
      averaging := true;
    }
    shape := Window(DEFAULT, recipe.dpi, recipe.dpi, left, top, width, extent, MultilevelRGB, 0,
                    recipe.samples - 1, 0, true, averaging, Frame, mode, recipe.interleaving, DEFAULT_AE, 0);
  }

  method FillAll(blanks: seq<Window>, like: Window) returns (windows: seq<Window>)
    ensures |windows| == |blanks|
    ensures forall i :: 0 <= i < |blanks| ==> windows[i] == Shaped(blanks[i], like)
  {
    windows := blanks;
    for i := 0 to |windows|
      invariant |windows| == |blanks|
      invariant forall k :: 0 <= k < i ==> windows[k] == Shaped(blanks[k], like)
      invariant forall k :: i <= k < |blanks| ==> windows[k] == blanks[k]
    {
      windows := windows[i := windows[i].(
        dpiX := like.dpiX, dpiY := like.dpiY,
        left := like.left, top := like.top,
        width := like.width, height := like.height,
        kind := like.kind, mode := like.mode,
        interleaving := like.interleaving,
        positive := like.positive, averaging := like.averaging,
        multipleReading := like.multipleReading
      )];
    }
  }

  lemma ColorsOfChannels(caps: Caps, infrared: bool)
    ensures Count(ChannelsOf(caps, infrared), true) == if caps.rgb then 3 else 1
    ensures |ChannelsOf(caps, infrared)| == Count(ChannelsOf(caps, infrared), true) + if infrared then 1 else 0
  {
    var c := ChannelsOf(caps, infrared);
    var colors: seq<Byte> := if caps.rgb then [1, 2, 3] else [DEFAULT];
    assert Count(colors, true) == |colors| by {
      if caps.rgb {
        assert colors[1..] == [2, 3] && colors[1..][1..] == [3] && colors[1..][1..][1..] == [];
        assert Count(colors[1..][1..], true) == 1 && Count(colors[1..], true) == 2;
      } else {
        assert colors[1..] == [];
      }
    }
    if infrared {
      assert c[0] == INFRARED && c[1..] == colors;
    } else {
      assert c == colors;
    }
  }

  // ----- the layout of a set of windows

  /** What a pass has attached to each reading and each frame, as the unit reports it. */
  datatype Attached = Attached(
    perColor: Edges, allColors: Edges, infraredReading: Edges, infraredCounted: bool, lines: Edges
  )

  predicate Alike(a: Window, b: Window) {
    && a.dpiX == b.dpiX && a.width == b.width && a.height == b.height && a.left == b.left && a.top == b.top
    && a.bpp == b.bpp && a.composition == b.composition && a.interleaving == b.interleaving
    && a.kind == b.kind && a.mode == b.mode && a.multipleReading == b.multipleReading
    && a.positive == b.positive && a.averaging == b.averaging
  }

  /** The rules that span a set of windows. */
  function ValidateSet(windows: seq<Window>): Option<Fault> {
    if windows == [] then Some(NoWindows)
    else if |windows| > 1 && (exists i :: 0 <= i < |windows| && windows[i].id == DEFAULT) then Some(DefaultNotAlone)
    else if exists i :: 0 <= i < |windows| && !Alike(windows[i], windows[0]) then Some(Disagreement)
    else if (
      && (exists i :: 0 <= i < |windows| && windows[i].colorOrdering != 0)
      && (exists i :: 0 <= i < |windows| && windows[i].colorOrdering == 0)
    ) then Some(OrderPartlyPinned)
    else if (
      && windows[0].colorOrdering != 0
      && exists i, j :: 0 <= i < j < |windows| && windows[i].colorOrdering == windows[j].colorOrdering
    ) then Some(OrderTwice)
    else if windows[0].composition == Bilevel then Some(UnknownPlanes)
    else if (if windows[0].composition == MultilevelBW then 1 else 3) != Count(Ids(windows), true) then Some(PlaneCount)
    else None
  }

  function Ids(windows: seq<Window>): (ids: seq<Byte>)
    ensures |ids| == |windows|
  {
    seq(|windows|, i requires 0 <= i < |windows| => windows[i].id)
  }

  /** Sensor steps one output pixel spans, along the bar and along the feed. */
  function Pitches(caps: Caps, w: Window): Option<(nat, nat)>
    ensures Pitches(caps, w).Some? ==> Pitches(caps, w).value.0 >= 1 && Pitches(caps, w).value.1 >= 1
  {
    if caps.x.opticalDpi == 0 || w.dpiX == 0 then None
    else
      var alongBar := Quotient(caps.x.opticalDpi, w.dpiX);
      var alongFeed := Quotient(FeedDpi(caps), if w.dpiY == 0 then w.dpiX else w.dpiY);
      Some(if w.kind.Thumbnail? then (Max(alongBar, 1), Max(alongFeed, 1))
           else (Snap(caps.pitchRule, alongBar), Snap(caps.pitchRule, alongFeed)))
  }

  function PackedRows(caps: Caps, interleaving: set<Interleaving>): (n: nat)
    ensures n >= 1
  {
    if MultilineSimultaneous in interleaving && !caps.raisesMultiLine then Max(caps.lines, 1) else 1
  }

  /** The lengths a READ has to end on. */
  function ReadGranules(caps: Caps, l: Layout, attached: Option<Attached>): Granules {
    if caps.readLineColors then l.ReadingGranules()
    else if !caps.readLine then LineGranules(l)
    else
      var (perColor, allColors) := if attached.None? then (0, 0) else
        (attached.value.perColor.first + attached.value.perColor.last,
         attached.value.allColors.first + attached.value.allColors.last);
      if allColors > 0 then LineGranules(l)
      else ColorGranules(l, perColor)
  }

  /** The measurement unit that is coarser than a sensor step. */
  const COARSE_DIVISOR: nat := 1200

  /** Output pixels across `extent` window units, which are sensor steps but at the coarse divisor. */
  function Outputs(extent: nat, pitch: nat, optical: nat, divisor: nat): nat
    requires pitch >= 1
  {
    if divisor == COARSE_DIVISOR then (
      MulMono(0, extent, optical);
      MulMono(1, pitch, COARSE_DIVISOR);
      Quotient(extent * optical, COARSE_DIVISOR * pitch)
    ) else Quotient(extent, pitch)
  }

  /** The bytes attached to a reading. */
  function AttachedToReading(attached: Option<Attached>): Edges {
    if attached.None? then NO_EDGES
    else Edges(attached.value.perColor.first + attached.value.allColors.first,
               attached.value.perColor.last + attached.value.allColors.last)
  }

  /** The bytes attached to the reading that infrared rides with, which the unit may count by themselves. */
  function AttachedToFirst(attached: Option<Attached>): Edges {
    if attached.None? || !attached.value.infraredCounted then AttachedToReading(attached)
    else Edges(attached.value.perColor.first + attached.value.infraredReading.first,
               attached.value.perColor.last + attached.value.infraredReading.last)
  }

  /** The lines of a frame that are no part of its image. */
  function InvalidLines(attached: Option<Attached>): Edges {
    if attached.None? then NO_EDGES else attached.value.lines
  }

  /** What a scan of a set of windows will produce, by the measurement unit in force. */
  function LayoutOf(caps: Caps, windows: seq<Window>, divisor: nat, attached: Option<Attached>): Result<Layout, Fault> {
    var refused := ValidateSet(windows);
    if refused.Some? then Err(refused.value)
    else
      var w := windows[0];
      var pitches := Pitches(caps, w);
      if pitches.None? then Err(NoPitch)
      else
        var (pitch, linePitch) := pitches.value;
        var bytes := DivCeil(w.bpp, 8);
        if bytes !in {1, 2, 4} then Err(NoWidth)
        else
          var l := Layout(
            Outputs(w.width, pitch, caps.x.opticalDpi, divisor),
            Outputs(w.height, linePitch, caps.x.opticalDpi, divisor),
            bytes, w.bpp, Ids(windows), w.interleaving,
            Min(w.multipleReading + 1, 255), caps.infraredEveryReading,
            caps.lines, PackedRows(caps, w.interleaving), Quotient(caps.lineGap, linePitch),
            Every(1), AttachedToReading(attached), AttachedToFirst(attached), InvalidLines(attached), false);
          Ok(l.(granules := ReadGranules(caps, l, attached)))
  }

  /** Sensor steps along the feed to one output line. */
  function FeedPitch(caps: Caps, recipe: Recipe): (p: nat)
    ensures p >= 1
  {
    Snap(caps.pitchRule, Quotient(FeedDpi(caps), Max(recipe.dpi, 1)))
  }

  /** Sensor steps along the bar to one output pixel. */
  function BarPitch(caps: Caps, recipe: Recipe): (p: nat)
    ensures p >= 1
  {
    Snap(caps.pitchRule, Quotient(caps.x.opticalDpi, Max(recipe.dpi, 1)))
  }

  /** The layout a recipe's own windows describe. */
  function PlanOf(caps: Caps, recipe: Recipe, frame: Rect, divisor: nat, attached: Option<Attached>): Result<Layout,
                  Fault> {
    match WindowsOf(caps, recipe, frame)
    case Err(fault) => Err(fault)
    case Ok(windows) => LayoutOf(caps, windows, divisor, attached)
  }

  lemma BytesOfDepth(bpp: nat)
    requires bpp in {1, 8, 10, 12, 14, 16}
    ensures DivCeil(bpp, 8) == if bpp <= 8 then 1 else 2
  {
  }
}
