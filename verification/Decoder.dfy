/**
 * Unscrambling a stream that arrives in chunks of any length: a carry holds the
 * part of a block the last chunk left, and whole blocks are written as they come.
 */
module Decoding {
  import opened Wrappers
  import opened Arith
  import opened Layouts
  import opened Slots
  import opened Averaging
  import opened Curves
  import opened Placement
  import opened Emission

  /** Why a stream or an output is refused. */
  datatype Refusal =
    | SampleWidth
    | NotDecodedYet
    | NoGap
    | RaggedColumns
    | ColorPlanes
    | ShortPlane
    | ShortInfrared

  /** CCD rows read at once. */
  function CcdLines(l: Layout): (n: nat)
    ensures n >= 1
  {
    if MultilineSimultaneous in l.interleaving then Max(l.ccdLines, 1) else 1
  }

  /** Stage positions in one interleave block. */
  function Gap(l: Layout): nat {
    if CcdLines(l) == 1 then 1 else l.registrationGap
  }

  /** What a decoder refuses about a layout, in the order it looks. */
  function Refused(l: Layout): Option<Refusal> {
    if l.bytesPerSample !in {1, 2} then Some(SampleWidth)
    else if MultilineSimultaneous !in l.interleaving && LineWithoutDistance !in l.interleaving then Some(NotDecodedYet)
    else if Gap(l) == 0 then Some(NoGap)
    else if (
      MulMono(1, Gap(l), CcdLines(l));
      l.lines % (Gap(l) * CcdLines(l)) != 0
    ) then Some(RaggedColumns)
    else None
  }

  /** Whether a stage position reads more than one row. */
  predicate SeveralRows(l: Layout) { MultilineSimultaneous in l.interleaving && l.ccdLines > 1 }

  /** Samples of one byte or two, and lines that come singly or fill blocks of the rows read at once. */
  lemma WhatIsAccepted(l: Layout)
    ensures Refused(l) == None <==>
              && l.bytesPerSample in {1, 2}
              && if SeveralRows(l) then
                   l.registrationGap > 0
                   && exists blocks: nat :: l.lines == blocks * (l.registrationGap * l.ccdLines)
                 else MultilineSimultaneous in l.interleaving || LineWithoutDistance in l.interleaving
    // A refusal says what is wrong
    ensures Refused(l) == Some(SampleWidth) <==> l.bytesPerSample !in {1, 2}
    ensures Refused(l) == Some(NotDecodedYet) ==>
              MultilineSimultaneous !in l.interleaving && LineWithoutDistance !in l.interleaving
    ensures Refused(l) == Some(NoGap) ==> SeveralRows(l) && l.registrationGap == 0
    ensures Refused(l) == Some(RaggedColumns) ==>
              SeveralRows(l) && forall blocks: nat :: l.lines != blocks * (l.registrationGap * l.ccdLines)
  {
    if SeveralRows(l) && l.registrationGap > 0 {
      WholeNumber(l.lines, l.registrationGap, l.ccdLines);
    } else if !SeveralRows(l) {
      WholeNumber(l.lines, 1, 1);
      DivModUnique(l.lines, 1, l.lines, 0);
    }
  }

  lemma WholeNumber(n: nat, gap: nat, ccdLines: nat)
    requires gap >= 1 && ccdLines >= 1
    ensures gap * ccdLines >= 1
    ensures n % (gap * ccdLines) == 0 <==> exists blocks: nat :: n == blocks * (gap * ccdLines)
  {
    MulMono(1, gap, ccdLines);
    var strip := gap * ccdLines;
    FundamentalDivMod(n, strip);
    DivMono(0, n, strip);
    if n % strip == 0 {
      var blocks: nat := n / strip;
      assert n == blocks * strip;
    }
    if blocks: nat :| n == blocks * strip {
      DivModUnique(n, strip, blocks, 0);
    }
  }

  /** The ordering a decoder builds for a layout it accepts. */
  function OrderingOf(l: Layout): Ordering {
    var slots := seq(|l.channels|, i requires 0 <= i < |l.channels| =>
                   SlotOf(l.channels, l.Readings(), l.infraredPerReading, i));
    ShapedOf(l, slots, l.pixels, CcdLines(l), Gap(l), l.Readouts())
  }

  function ShapedOf(l: Layout, slots: seq<Slot>, rows: nat, ccdLines: nat, gap: nat, readouts: nat): Ordering {
    MulMono(0, rows, ccdLines);
    MulMono(0, readouts, rows * ccdLines);
    MulMono(0, gap, readouts * (rows * ccdLines));
    MulMono(0, gap * (readouts * (rows * ccdLines)), l.bytesPerSample);
    Ordering(rows, l.lines, ccdLines, gap, slots, readouts, rows * ccdLines, readouts * (rows * ccdLines),
             gap * (readouts * (rows * ccdLines)) * l.bytesPerSample, l.bytesPerSample,
             Ceiling(l.bitsPerSample), Ceiling(l.SampleBits()), None)
  }

  /**
   * An accepted layout's blocks hold every readout its slots name exactly when
   * its reading count is not zero, or does not enter the readouts at all.
   */
  lemma AcceptedIsWellFormed(l: Layout)
    requires Refused(l) == None
    ensures WellFormed(OrderingOf(l))
       <==> l.readingsPerLine >= 1 || l.infraredPerReading || l.Colors() == 0
    ensures l.readingsPerLine >= 1 ==> SlotsOf(OrderingOf(l), l.channels, l.Readings(), l.infraredPerReading)
    ensures Tiled(OrderingOf(l)) && Sized(OrderingOf(l))
  {
    var o := OrderingOf(l);
    MulMono(1, Gap(l), CcdLines(l));
    forall s: Spot | InBlock(o, s) ensures SampleFits(o, s) {
      SizedFits(o, s);
    }
    if l.readingsPerLine >= 1 || l.infraredPerReading || l.Colors() == 0 {
      ReadoutsCounted(l);
      forall i | 0 <= i < |o.slots| ensures SlotFits(o, o.slots[i]) {
        forall r | 0 <= r < o.slots[i].readings ensures o.slots[i].Nth(r) < o.readouts {
          ReaderHasReadout(l.channels, l.Readings(), l.infraredPerReading, i, r);
        }
      }
    } else {
      FirstReadingsOverflow(l);
    }
  }

  lemma ReadoutsCounted(l: Layout)
    requires l.readingsPerLine >= 1 || l.infraredPerReading || l.Colors() == 0
    ensures l.Readouts() == ReadoutCount(l.channels, l.Readings(), l.infraredPerReading)
  {
    if l.Colors() == 0 {
      assert 0 * l.readingsPerLine == 0 && 0 * l.Readings() == 0;
    }
  }

  /** With no readings in the count, some channel's first readout is past the end of the stage position. */
  lemma FirstReadingsOverflow(l: Layout)
    requires l.readingsPerLine == 0 && !l.infraredPerReading && l.Colors() > 0
    ensures exists i :: 0 <= i < |l.channels| && !SlotFits(OrderingOf(l), OrderingOf(l).slots[i])
  {
    var o := OrderingOf(l);
    CountBoth(l.channels);
    assert l.Colors() * l.readingsPerLine == 0;
    var place := l.Once();
    // The channel at that place is read first at readout `Once()`, one past the last
    var i := ChannelAt(l.channels, place);
    PlaceOfChannelAt(l.channels, place);
    assert o.slots[i].readings >= 1;
    assert o.slots[i].Nth(0) == place;
    assert !SlotFits(o, o.slots[i]);
  }

  /** Bytes of block `n` of a stream. */
  function Block(width: nat, stream: seq<Byte>, n: nat): (block: seq<Byte>)
    requires (n + 1) * width <= |stream|
    ensures |block| == width
  {
    assert (n + 1) * width == n * width + width;
    stream[n * width..n * width + width]
  }

  lemma BlockPrefix(width: nat, stream: seq<Byte>, more: seq<Byte>, n: nat)
    requires (n + 1) * width <= |stream|
    ensures Block(width, stream + more, n) == Block(width, stream, n)
  {
    assert (n + 1) * width == n * width + width;
  }

  /** A buffer after the blocks `from..upto` of a stream are written. */
  ghost function PaintedBlocks(o: Ordering, target: Target, plane: seq<Sample>, stream: seq<Byte>, from: nat, upto: nat)
    : (plane': seq<Sample>)
    requires WellFormed(o) && upto * o.blockBytes <= |stream|
    ensures |plane'| == |plane|
    decreases upto
  {
    if from >= upto then plane
    else
      MulMono(upto - 1, upto, o.blockBytes);
      Painted(o, upto - 1, Block(o.blockBytes, stream, upto - 1), target,
              PaintedBlocks(o, target, plane, stream, from, upto - 1))
  }

  /** Blocks written in two goes are the blocks written at once. */
  lemma {:induction false} PaintedJoin(o: Ordering, target: Target, plane: seq<Sample>, stream: seq<Byte>,
                                       from: nat, mid: nat, upto: nat)
    requires WellFormed(o) && upto * o.blockBytes <= |stream| && from <= mid <= upto
    ensures mid * o.blockBytes <= |stream|
    ensures PaintedBlocks(o, target, PaintedBlocks(o, target, plane, stream, from, mid), stream, mid, upto)
         == PaintedBlocks(o, target, plane, stream, from, upto)
    decreases upto
  {
    MulMono(mid, upto, o.blockBytes);
    if mid < upto {
      MulMono(upto - 1, upto, o.blockBytes);
      PaintedJoin(o, target, plane, stream, from, mid, upto - 1);
    }
  }

  /** What follows the blocks of a stream does not enter them. */
  lemma {:induction false} PaintedPrefix(o: Ordering, target: Target, plane: seq<Sample>, stream: seq<Byte>,
                                         more: seq<Byte>, from: nat, upto: nat)
    requires WellFormed(o) && upto * o.blockBytes <= |stream|
    ensures PaintedBlocks(o, target, plane, stream + more, from, upto)
         == PaintedBlocks(o, target, plane, stream, from, upto)
    decreases upto
  {
    if from < upto {
      MulMono(upto - 1, upto, o.blockBytes);
      PaintedPrefix(o, target, plane, stream, more, from, upto - 1);
      BlockPrefix(o.blockBytes, stream, more, upto - 1);
    }
  }

  /** Every buffer after the blocks `from..upto` of a stream are written. */
  ghost function Pictured(o: Ordering, image: Image, stream: seq<Byte>, from: nat, upto: nat): Image
    requires WellFormed(o) && upto * o.blockBytes <= |stream|
  {
    Image(seq(|image.colors|, c requires 0 <= c < |image.colors| =>
            PaintedBlocks(o, Color(c), image.colors[c], stream, from, upto)),
          PaintedBlocks(o, Infrared, image.ir, stream, from, upto))
  }

  lemma PicturedNone(o: Ordering, image: Image, stream: seq<Byte>, n: nat)
    requires WellFormed(o) && n * o.blockBytes <= |stream|
    ensures Pictured(o, image, stream, n, n) == image
  {
    var p := Pictured(o, image, stream, n, n);
    assert p.colors == image.colors;
  }

  lemma PicturedOne(o: Ordering, image: Image, stream: seq<Byte>, n: nat)
    requires WellFormed(o) && (n + 1) * o.blockBytes <= |stream|
    ensures Pictured(o, image, stream, n, n + 1)
         == PaintedImage(o, n, Block(o.blockBytes, stream, n), image)
  {
    var p, q := Pictured(o, image, stream, n, n + 1), PaintedImage(o, n, Block(o.blockBytes, stream, n), image);
    PaintedOne(o, Infrared, image.ir, stream, n);
    forall c | 0 <= c < |image.colors| ensures p.colors[c] == q.colors[c] {
      PaintedOne(o, Color(c), image.colors[c], stream, n);
    }
  }

  lemma PaintedOne(o: Ordering, target: Target, plane: seq<Sample>, stream: seq<Byte>, n: nat)
    requires WellFormed(o) && (n + 1) * o.blockBytes <= |stream|
    ensures PaintedBlocks(o, target, plane, stream, n, n + 1)
         == Painted(o, n, Block(o.blockBytes, stream, n), target, plane)
  {
    MulMono(n, n + 1, o.blockBytes);
    assert PaintedBlocks(o, target, plane, stream, n, n) == plane;
  }

  lemma PicturedJoin(o: Ordering, image: Image, stream: seq<Byte>, from: nat, mid: nat, upto: nat)
    requires WellFormed(o) && upto * o.blockBytes <= |stream| && from <= mid <= upto
    ensures mid * o.blockBytes <= |stream|
    ensures Pictured(o, Pictured(o, image, stream, from, mid), stream, mid, upto)
         == Pictured(o, image, stream, from, upto)
  {
    PaintedJoin(o, Infrared, image.ir, stream, from, mid, upto);
    forall c | 0 <= c < |image.colors|
      ensures PaintedBlocks(o, Color(c), Pictured(o, image, stream, from, mid).colors[c], stream, mid, upto)
           == PaintedBlocks(o, Color(c), image.colors[c], stream, from, upto)
    {
      PaintedJoin(o, Color(c), image.colors[c], stream, from, mid, upto);
    }
  }

  lemma PicturedPrefix(o: Ordering, image: Image, stream: seq<Byte>, more: seq<Byte>, from: nat, upto: nat)
    requires WellFormed(o) && upto * o.blockBytes <= |stream|
    ensures Pictured(o, image, stream + more, from, upto) == Pictured(o, image, stream, from, upto)
  {
    PaintedPrefix(o, Infrared, image.ir, stream, more, from, upto);
    forall c | 0 <= c < |image.colors|
      ensures PaintedBlocks(o, Color(c), image.colors[c], stream + more, from, upto)
           == PaintedBlocks(o, Color(c), image.colors[c], stream, from, upto)
    {
      PaintedPrefix(o, Color(c), image.colors[c], stream, more, from, upto);
    }
  }

  /** The buffers one pass fills: one plane per color, infrared apart. */
  class Samples {
    var colors: seq<array<Sample>>
    var ir: Option<array<Sample>>

    constructor ()
      ensures colors == [] && ir == None
    {
      colors, ir := [], None;
    }

    /** No two buffers are the same one. */
    ghost predicate Apart()
      reads this
    {
      && (forall c, d :: 0 <= c < d < |colors| ==> colors[c] != colors[d])
      && (ir.Some? ==> forall c :: 0 <= c < |colors| ==> colors[c] != ir.value)
    }

    ghost function Arrays(): (arrays: set<array<Sample>>)
      reads this
    {
      (set c | 0 <= c < |colors| :: colors[c]) + if ir.Some? then {ir.value} else {}
    }

    /** What the buffers hold, an infrared one that is not there holding nothing. */
    ghost function Held(): Image
      reads this, Arrays()
    {
      Image(Contents(colors), if ir.Some? then ir.value[..] else [])
    }

    /** Clear and size every buffer for what `o` is about to produce. */
    method ResizeFor(o: Ordering)
      modifies this
      ensures Apart() && fresh(Arrays())
      ensures |colors| == ColorSlots(o.slots)
      ensures forall c :: 0 <= c < |colors| ==> IsBlank(colors[c], o.rows * o.cols)
      ensures ir.Some? <==> o.rows * o.cols * (|o.slots| - ColorSlots(o.slots)) != 0
      ensures ir.Some? ==> IsBlank(ir.value, o.rows * o.cols * (|o.slots| - ColorSlots(o.slots)))
    {
      var len := o.rows * o.cols;
      colors := [];
      while |colors| < ColorSlots(o.slots)
        invariant |colors| <= ColorSlots(o.slots)
        invariant forall c :: 0 <= c < |colors| ==> fresh(colors[c]) && IsBlank(colors[c], len)
        invariant forall c, d :: 0 <= c < d < |colors| ==> colors[c] != colors[d]
        decreases ColorSlots(o.slots) - |colors|
      {
        var plane := new Sample[len](_ => 0);
        colors := colors + [plane];
      }
      MulMono(0, |o.slots| - ColorSlots(o.slots), len);
      var needed: nat := len * (|o.slots| - ColorSlots(o.slots));
      if needed == 0 {
        ir := None;
      } else {
        var plane := new Sample[needed](_ => 0);
        ir := Some(plane);
      }
    }

    /** Stretch every buffer from `bits` deep to fill 16, in place. */
    method ToFullScale(bits: nat)
      requires Apart()
      modifies colors, if ir.Some? then {ir.value} else {}
      ensures forall c :: 0 <= c < |colors| ==> Stretched(bits, old(colors[c][..]), colors[c][..])
      ensures ir.Some? ==> Stretched(bits, old(ir.value[..]), ir.value[..])
    {
      if bits == 0 || bits >= 16 {
        return;
      }
      for c := 0 to |colors|
        invariant forall d :: 0 <= d < c ==> Stretched(bits, old(colors[d][..]), colors[d][..])
        invariant forall d :: c <= d < |colors| ==> colors[d][..] == old(colors[d][..])
        invariant ir.Some? ==> ir.value[..] == old(ir.value[..])
      {
        StretchPlane(colors[c], bits);
      }
      if ir.Some? {
        StretchPlane(ir.value, bits);
      }
    }
  }

  ghost predicate IsBlank(plane: array<Sample>, len: nat)
    reads plane
  {
    plane.Length == len && forall i :: 0 <= i < len ==> plane[i] == 0
  }

  ghost predicate Stretched(bits: nat, was: seq<Sample>, now: seq<Sample>) {
    |now| == |was| && forall i :: 0 <= i < |was| ==> now[i] == FullScale(bits, was[i])
  }

  method StretchPlane(plane: array<Sample>, bits: nat)
    requires 0 < bits < 16
    modifies plane
    ensures Stretched(bits, old(plane[..]), plane[..])
  {
    for i := 0 to plane.Length
      invariant forall j :: 0 <= j < i ==> plane[j] == FullScale(bits, old(plane[j]))
      invariant forall j :: i <= j < plane.Length ==> plane[j] == old(plane[j])
    {
      plane[i] := FullScale(bits, plane[i]);
    }
  }

  function ColorSlots(slots: seq<Slot>): (n: nat)
    ensures n <= |slots|
  {
    if slots == [] then 0 else (if slots[0].color then 1 else 0) + ColorSlots(slots[1..])
  }

  /** What an output lacks for an ordering, in the order a decoder looks. */
  function Lacks(o: Ordering, s: Samples): Option<Refusal>
    reads s
  {
    if |s.colors| != ColorSlots(o.slots) then Some(ColorPlanes)
    else if exists c :: 0 <= c < |s.colors| && s.colors[c].Length < o.rows * o.cols then Some(ShortPlane)
    else if (match s.ir case Some(a) => a.Length case None => 0)
            < o.rows * o.cols * (|o.slots| - ColorSlots(o.slots)) then Some(ShortInfrared)
    else None
  }

  /** Nothing, exactly where every channel has room for the whole image. */
  lemma WhatIsLacking(o: Ordering, s: Samples)
    ensures Lacks(o, s) == None <==>
              && |s.colors| == ColorSlots(o.slots)
              && (forall c :: 0 <= c < |s.colors| ==> o.rows * o.cols <= s.colors[c].Length)
              && (o.rows * o.cols * (|o.slots| - ColorSlots(o.slots)) > 0 ==>
                    s.ir.Some? && o.rows * o.cols * (|o.slots| - ColorSlots(o.slots)) <= s.ir.value.Length)
  {
    MulMono(0, |o.slots| - ColorSlots(o.slots), o.rows * o.cols);
  }

  /** Every color slot has a plane of its own number. */
  ghost predicate PlanesNumbered(o: Ordering) {
    forall i :: 0 <= i < |o.slots| && o.slots[i].color ==> o.slots[i].out < ColorSlots(o.slots)
  }

  lemma {:induction false} SomeInfrared(slots: seq<Slot>, i: nat)
    requires i < |slots| && !slots[i].color
    ensures ColorSlots(slots) < |slots|
    decreases |slots|
  {
    if i > 0 { SomeInfrared(slots[1..], i - 1); }
  }

  class Decoder {
    var ordering: Ordering
    /** The bytes of a block whose rest has yet to come */
    var carry: seq<Byte>
    /** Blocks written so far */
    var done: nat
    /** Every byte pushed so far, and the whole blocks among them */
    ghost var history: seq<Byte>
    ghost var seen: nat

    ghost predicate Valid()
      reads this
    {
      && WellFormed(ordering) && PlanesNumbered(ordering)
      && ordering.blockBytes > 0
      && |carry| < ordering.blockBytes
      && |history| == seen * ordering.blockBytes + |carry|
      && carry == history[seen * ordering.blockBytes..]
      && done == Min(ordering.Blocks(), seen)
    }

    constructor (o: Ordering)
      requires WellFormed(o) && PlanesNumbered(o) && o.blockBytes > 0
      ensures Valid() && ordering == o && history == [] && done == 0
    {
      ordering, carry, done, history, seen := o, [], 0, [], 0;
      assert 0 * o.blockBytes == 0;
    }

    /** Correct the CCD's rows against each other. A single-line pass has no rows to correct. */
    method Correcting(curves: Curves)
      requires Valid() && history == []
      modifies this`ordering
      ensures Valid()
      ensures ordering == if old(ordering).ccdLines > 1 then old(ordering).(curves := Some(curves)) else old(ordering)
    {
      if ordering.ccdLines > 1 {
        CurvesChangeNoPlace(ordering, Some(curves));
        ordering := ordering.(curves := Some(curves));
      }
    }

    predicate Complete()
      requires Valid()
      reads this
    {
      done == ordering.Blocks()
    }

    /**
     * How far a decoder is depends on the bytes it has had and not on how they
     * were cut: the whole blocks among them, and the rest in the carry.
     */
    lemma Progress()
      requires Valid()
      ensures var width := ordering.blockBytes;
              && done == Min(ordering.Blocks(), |history| / width)
              && |carry| == |history| % width
              && carry == history[|history| - |history| % width..]
    {
      DivModUnique(|history|, ordering.blockBytes, seen, |carry|);
    }

    /** Feed the next chunk, or refuse an output too small for the stream and touch nothing. */
    method Push(chunk: seq<Byte>, samples: Samples) returns (refused: Option<Refusal>)
      requires Valid() && samples.Apart()
      modifies this, samples.Arrays()
      ensures Valid() && ordering == old(ordering) && old(done) <= done
      ensures refused == Lacks(ordering, samples)
      ensures history == if refused.Some? then old(history) else old(history) + chunk
      ensures done * ordering.blockBytes <= |history|
      ensures samples.Held() == Pictured(ordering, old(samples.Held()), history, old(done), done)
    {
      MulMono(done, seen, ordering.blockBytes);
      refused := Lacks(ordering, samples);
      if refused.Some? {
        return;
      }
      var ir: array<Sample>;
      match samples.ir {
        case Some(a) => ir := a;
        case None => ir := new Sample[0];
      }
      assert Buffers(ordering, samples.colors, ir) by {
        InfraredFits(ordering, samples, ir);
      }
      PushInto(chunk, samples.colors, ir);
    }

    /** The same, against raw buffers. */
    method PushInto(chunk: seq<Byte>, colors: seq<array<Sample>>, ir: array<Sample>)
      requires Valid() && Buffers(ordering, colors, ir)
      modifies this, colors, ir
      ensures Valid() && ordering == old(ordering) && history == old(history) + chunk
      ensures old(done) <= done && done * ordering.blockBytes <= |history|
      ensures Held(colors, ir) == Pictured(ordering, old(Held(colors, ir)), history, old(done), done)
    {
      var width := ordering.blockBytes;
      ghost var stream := history + chunk;
      var rest := FinishCarry(chunk, colors, ir, stream);
      while |rest| >= width
        invariant Valid() && ordering == old(ordering) && width == ordering.blockBytes
        invariant (carry == [] || rest == []) && history + rest == stream
        invariant old(done) <= done && done * width <= |stream|
        invariant Held(colors, ir) == Pictured(ordering, old(Held(colors, ir)), stream, old(done), done)
        decreases |rest|
      {
        ghost var before := done;
        rest := NextBlock(rest, colors, ir, stream);
        PicturedJoin(ordering, old(Held(colors, ir)), stream, old(done), before, done);
      }
      Keep(rest);
    }

    /** Hold on to part of a block for the next chunk. */
    method Keep(rest: seq<Byte>)
      requires Valid() && |carry| + |rest| < ordering.blockBytes
      modifies this`carry, this`history
      ensures Valid() && history == old(history) + rest
    {
      carry := carry + rest;
      history := history + rest;
    }

    /** Write the block a chunk starts with, answering what is left of the chunk. */
    method NextBlock(chunk: seq<Byte>, colors: seq<array<Sample>>, ir: array<Sample>, ghost stream: seq<Byte>)
      returns (rest: seq<Byte>)
      requires history + chunk == stream
      requires Valid() && Buffers(ordering, colors, ir)
      requires carry == [] && |chunk| >= ordering.blockBytes
      modifies this`done, this`history, this`seen, colors, ir
      ensures Valid() && history + rest == stream && |rest| < |chunk|
      ensures old(done) <= done && done * ordering.blockBytes <= |stream|
      ensures Held(colors, ir) == Pictured(ordering, old(Held(colors, ir)), stream, old(done), done)
    {
      var width := ordering.blockBytes;
      var block := chunk[..width];
      rest := chunk[width..];
      BlockIsNext(width, seen, history, block, rest);
      assert history + block + rest == stream;
      history := history + block;
      Take(block, colors, ir, stream);
    }

    /** Finish the block the last chunk ended part-way through, answering what is left of this one. */
    method FinishCarry(chunk: seq<Byte>, colors: seq<array<Sample>>, ir: array<Sample>, ghost stream: seq<Byte>)
      returns (rest: seq<Byte>)
      requires history + chunk == stream
      requires Valid() && Buffers(ordering, colors, ir)
      modifies this`carry, this`done, this`history, this`seen, colors, ir
      ensures Valid() && history + rest == stream
      ensures carry == [] || rest == []
      ensures old(done) <= done && done * ordering.blockBytes <= |stream|
      ensures Held(colors, ir) == Pictured(ordering, old(Held(colors, ir)), stream, old(done), done)
    {
      MulMono(done, seen, ordering.blockBytes);
      rest := chunk;
      if carry == [] {
        PicturedNone(ordering, Held(colors, ir), stream, done);
        return;
      }
      var take := Min(ordering.blockBytes - |carry|, |rest|);
      rest := rest[take..];
      if |carry| + take < ordering.blockBytes {
        PicturedNone(ordering, Held(colors, ir), stream, done);
        Keep(chunk);
        return;
      }
      TakeCarried(chunk[..take], rest, colors, ir, stream);
    }

    /** Write the block that the carry and the start of a chunk make up. */
    method TakeCarried(start: seq<Byte>, ghost rest: seq<Byte>, colors: seq<array<Sample>>, ir: array<Sample>,
                       ghost stream: seq<Byte>)
      requires Valid() && Buffers(ordering, colors, ir)
      requires |carry| + |start| == ordering.blockBytes && history + start + rest == stream
      modifies this`carry, this`done, this`history, this`seen, colors, ir
      ensures Valid() && carry == [] && history + rest == stream
      ensures old(done) <= done && done * ordering.blockBytes <= |stream|
      ensures Held(colors, ir) == Pictured(ordering, old(Held(colors, ir)), stream, old(done), done)
    {
      CarriedBlock(ordering.blockBytes, seen, history, carry, start, rest);
      var block := carry + start;
      carry := [];
      history := history + start;
      Take(block, colors, ir, stream);
    }

    /** Write one block, unless the layout has already had every block it wanted. */
    method Take(block: seq<Byte>, colors: seq<array<Sample>>, ir: array<Sample>, ghost stream: seq<Byte>)
      requires WellFormed(ordering) && Buffers(ordering, colors, ir)
      requires (seen + 1) * ordering.blockBytes <= |stream|
      requires block == Block(ordering.blockBytes, stream, seen)
      requires done == Min(ordering.Blocks(), seen)
      modifies this`done, this`seen, colors, ir
      ensures seen == old(seen) + 1 && done == Min(ordering.Blocks(), seen)
      ensures old(done) <= done && done * ordering.blockBytes <= |stream|
      ensures Held(colors, ir) == Pictured(ordering, old(Held(colors, ir)), stream, old(done), done)
    {
      MulMono(done, seen + 1, ordering.blockBytes);
      seen := seen + 1;
      if done >= ordering.Blocks() {
        PicturedNone(ordering, Held(colors, ir), stream, done);
        return;
      }
      PicturedOne(ordering, Held(colors, ir), stream, done);
      Emit(ordering, done, block, colors, ir);
      done := done + 1;
    }
  }

  /** A block after `n` others of a stream is block `n` of it. */
  lemma BlockIsNext(width: nat, n: nat, whole: seq<Byte>, block: seq<Byte>, rest: seq<Byte>)
    requires |whole| == n * width && |block| == width
    ensures (n + 1) * width == |whole| + width <= |whole + block + rest|
    ensures Block(width, whole + block + rest, n) == block
  {
    assert (n + 1) * width == n * width + width;
  }

  /** A carry and the start of a chunk that fill a block are the stream's next block. */
  lemma CarriedBlock(width: nat, n: nat, history: seq<Byte>, carry: seq<Byte>, start: seq<Byte>, rest: seq<Byte>)
    requires |history| == n * width + |carry| && carry == history[n * width..]
    requires |carry| + |start| == width
    ensures |history + start| == (n + 1) * width <= |history + start + rest|
    ensures Block(width, history + start + rest, n) == carry + start
  {
    var whole := history[..n * width];
    assert history + start == whole + (carry + start);
    BlockIsNext(width, n, whole, carry + start, rest);
  }

  /** Buffers an output does not lack are big enough to write to. */
  lemma InfraredFits(o: Ordering, s: Samples, ir: array<Sample>)
    requires PlanesNumbered(o) && Lacks(o, s) == None && s.Apart()
    requires match s.ir case Some(a) => ir == a case None => ir.Length == 0 && ir !in s.colors
    ensures Buffers(o, s.colors, ir)
  {
    var size, once := o.rows * o.cols, |o.slots| - ColorSlots(o.slots);
    assert ir.Length >= size * once;
    forall i | 0 <= i < |o.slots| && !o.slots[i].color
      ensures size <= ir.Length
    {
      SomeInfrared(o.slots, i);
      MulMono(1, once, size);
    }
  }
}
