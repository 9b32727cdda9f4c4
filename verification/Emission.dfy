/**
 * Writing one block into the image. `Painted` is what a plane reads afterwards,
 * pixel by pixel; `Emit` walks columns, the bar, the slots and their readings.
 */
module Emission {
  import opened Wrappers
  import opened Arith
  import opened Layouts
  import opened Slots
  import opened Averaging
  import opened Placement

  /** The buffer a slot lands in. */
  datatype Target = Color(plane: nat) | Infrared

  function TargetOf(slot: Slot): Target {
    if slot.color then Color(slot.out) else Infrared
  }

  /** One big-endian sample of either width. */
  function SampleAt(bytes: seq<Byte>): (v: Sample)
    requires |bytes| in {1, 2}
  {
    if |bytes| == 1 then bytes[0] else bytes[0] as int * 0x100 + bytes[1]
  }

  /** The sample a place of a block holds. */
  function Raw(o: Ordering, block: seq<Byte>, s: Spot): Sample
    requires InBlock(o, s) && SampleFits(o, s) && |block| == o.blockBytes && o.bytesPerSample in {1, 2}
  {
    var off := WireIndex(o, s) * o.bytesPerSample;
    SampleAt(block[off..off + o.bytesPerSample])
  }

  /** The same, on the reference row's scale. */
  function Corrected(o: Ordering, block: seq<Byte>, s: Spot): Sample
    requires InBlock(o, s) && SampleFits(o, s) && |block| == o.blockBytes && o.bytesPerSample in {1, 2}
  {
    match o.curves
    case Some(curves) => curves.Correct(s.line, Raw(o, block, s))
    case None => Raw(o, block, s)
  }

  /** The first `n` readings of a slot at a place, added up. */
  ghost function Sum(o: Ordering, block: seq<Byte>, slot: Slot, s: Spot, n: nat): nat
    requires WellFormed(o) && Placed(o, s) && |block| == o.blockBytes
    requires n <= slot.readings && SlotFits(o, slot)
  {
    if n == 0 then 0
    else Sum(o, block, slot, s, n - 1) + Corrected(o, block, s.(readout := slot.Nth(n - 1)))
  }

  /** What a slot stores for a place: the rounded average of its readings there. */
  ghost function Value(o: Ordering, block: seq<Byte>, slot: Slot, s: Spot): Sample
    requires WellFormed(o) && Placed(o, s) && |block| == o.blockBytes
    requires slot in o.slots
  {
    Scaled(Sum(o, block, slot, s, slot.readings), slot.readings, o.top, o.out)
  }

  /** The last of the first `m` slots that lands in a buffer. */
  function LastSlot(slots: seq<Slot>, target: Target, m: nat): (k: Option<nat>)
    requires m <= |slots|
    ensures k.Some? ==> k.value < m && TargetOf(slots[k.value]) == target
  {
    if m == 0 then None
    else if TargetOf(slots[m - 1]) == target then Some(m - 1)
    else LastSlot(slots, target, m - 1)
  }

  /** A buffer after the first `m` slots of one place are written at pixel `at`. */
  ghost function Put(o: Ordering, block: seq<Byte>, target: Target, s: Spot, m: nat, at: nat, plane: seq<Sample>)
    : (plane': seq<Sample>)
    requires WellFormed(o) && Placed(o, s) && |block| == o.blockBytes && m <= |o.slots|
    requires LastSlot(o.slots, target, m).Some? ==> at < |plane|
    ensures |plane'| == |plane|
  {
    match LastSlot(o.slots, target, m)
    case None => plane
    case Some(k) => plane[at := Value(o, block, o.slots[k], s)]
  }

  /** The place of block `n` at column `col` of its strip and pixel `p` of the bar. */
  function SpotAt(o: Ordering, col: nat, p: nat): Spot
    requires o.gap > 0
  {
    Spot(col % o.gap, 0, p, col / o.gap)
  }

  /** The column a place takes in its block's strip. */
  function StripColumn(o: Ordering, s: Spot): nat { s.line * o.gap + s.position }

  /** Whether columns `..col`, and of column `col` the bar pixels `..p`, cover pixel `i`. */
  predicate Reached(o: Ordering, n: nat, i: nat, col: nat, p: nat)
    requires o.cols > 0 && o.Strip() > 0 && o.gap > 0 && i < o.rows * o.cols
  {
    var (block, s) := Origin(o, i, 0);
    block == n && (StripColumn(o, s) < col || (StripColumn(o, s) == col && s.pixel < p))
  }

  /** A buffer once columns `..col` and pixels `..p` of column `col` of block `n` are written. */
  ghost function PaintedTo(o: Ordering, n: nat, block: seq<Byte>, target: Target, plane: seq<Sample>, col: nat, p: nat)
    : (plane': seq<Sample>)
    requires WellFormed(o) && |block| == o.blockBytes
    ensures |plane'| == |plane|
  {
    seq(|plane|, i requires 0 <= i < |plane| => PixelTo(o, n, block, target, plane[i], i, col, p))
  }

  ghost function PixelTo(o: Ordering, n: nat, block: seq<Byte>, target: Target, was: Sample, i: nat, col: nat,
                         p: nat): Sample
    requires WellFormed(o) && |block| == o.blockBytes
  {
    var last := LastSlot(o.slots, target, |o.slots|);
    if last.Some? && i < o.rows * o.cols && Reached(o, n, i, col, p) then
      PixelOfOrigin(o, i, 0);
      Value(o, block, o.slots[last.value], Origin(o, i, 0).1)
    else was
  }

  /** A buffer after block `n`: the pixels of its columns hold their averages, and no other moves. */
  ghost function Painted(o: Ordering, n: nat, block: seq<Byte>, target: Target, plane: seq<Sample>): seq<Sample>
    requires WellFormed(o) && |block| == o.blockBytes
  {
    PaintedTo(o, n, block, target, plane, o.Strip(), 0)
  }

  /** A column of the strip is a place, and the place's column is that one. */
  lemma ColumnPlaced(o: Ordering, col: nat, p: nat)
    requires WellFormed(o) && col < o.Strip() && p < o.rows
    ensures Placed(o, SpotAt(o, col, p)) && StripColumn(o, SpotAt(o, col, p)) == col
  {
    Commute(o.gap, o.ccdLines);
    DigitRange(col, o.ccdLines, o.gap);
    FundamentalDivMod(col, o.gap);
    Commute(o.gap, col / o.gap);
  }

  lemma NothingPainted(o: Ordering, n: nat, block: seq<Byte>, target: Target, plane: seq<Sample>)
    requires WellFormed(o) && |block| == o.blockBytes
    ensures PaintedTo(o, n, block, target, plane, 0, 0) == plane
  {
  }

  /** A full column is the start of the next. */
  lemma ColumnDone(o: Ordering, n: nat, block: seq<Byte>, target: Target, plane: seq<Sample>, col: nat)
    requires WellFormed(o) && |block| == o.blockBytes
    ensures PaintedTo(o, n, block, target, plane, col, o.rows) == PaintedTo(o, n, block, target, plane, col + 1, 0)
  {
    forall i | 0 <= i < |plane| && i < o.rows * o.cols
      ensures o.cols > 0 && (Reached(o, n, i, col, o.rows) <==> Reached(o, n, i, col + 1, 0))
    {
      PixelOfOrigin(o, i, 0);
    }
  }

  /** One more pixel of a column is one more write. */
  lemma PixelDone(o: Ordering, n: nat, block: seq<Byte>, target: Target, plane: seq<Sample>, col: nat, p: nat)
    requires WellFormed(o) && |block| == o.blockBytes && n < o.Blocks()
    requires col < o.Strip() && p < o.rows
    requires LastSlot(o.slots, target, |o.slots|).Some? ==> o.rows * o.cols <= |plane|
    ensures Placed(o, SpotAt(o, col, p)) && 0 <= Pixel(o, n, SpotAt(o, col, p)) < o.rows * o.cols
    ensures PaintedTo(o, n, block, target, plane, col, p + 1)
         == Put(o, block, target, SpotAt(o, col, p), |o.slots|, Pixel(o, n, SpotAt(o, col, p)),
                PaintedTo(o, n, block, target, plane, col, p))
  {
    ColumnPlaced(o, col, p);
    var s := SpotAt(o, col, p);
    OriginOfPixel(o, n, s);
    var at := Pixel(o, n, s);
    forall i | 0 <= i < |plane| && i < o.rows * o.cols
      ensures o.cols > 0
      ensures Reached(o, n, i, col, p + 1) <==> Reached(o, n, i, col, p) || i == at
    {
      PixelOfOrigin(o, i, 0);
      SameColumn(o, Origin(o, i, 0).1, s);
    }
  }

  /** Two places in one column of the strip have one position and one CCD row. */
  lemma SameColumn(o: Ordering, s: Spot, t: Spot)
    requires o.gap > 0 && s.position < o.gap && t.position < o.gap
    ensures StripColumn(o, s) == StripColumn(o, t) <==> s.position == t.position && s.line == t.line
  {
    DivModUnique(StripColumn(o, s), o.gap, s.line, s.position);
    DivModUnique(StripColumn(o, t), o.gap, t.line, t.position);
  }

  /** Buffers big enough for every slot, none of them shared. */
  ghost predicate Buffers(o: Ordering, colors: seq<array<Sample>>, ir: array<Sample>) {
    && (forall c :: 0 <= c < |colors| ==> o.rows * o.cols <= colors[c].Length && colors[c] != ir)
    && (forall c, d :: 0 <= c < d < |colors| ==> colors[c] != colors[d])
    && (forall i :: 0 <= i < |o.slots| ==>
          if o.slots[i].color then o.slots[i].out < |colors| else o.rows * o.cols <= ir.Length)
  }

  ghost function Contents(colors: seq<array<Sample>>): (s: seq<seq<Sample>>)
    reads colors
    ensures |s| == |colors|
  {
    seq(|colors|, c requires 0 <= c < |colors| reads colors => colors[c][..])
  }

  /** What the buffers of a pass hold. */
  datatype Image = Image(colors: seq<seq<Sample>>, ir: seq<Sample>)

  ghost function Held(colors: seq<array<Sample>>, ir: array<Sample>): Image
    reads colors, ir
  {
    Image(Contents(colors), ir[..])
  }

  /** Every buffer after block `n` is written. */
  ghost function PaintedImage(o: Ordering, n: nat, block: seq<Byte>, image: Image): Image
    requires WellFormed(o) && |block| == o.blockBytes
  {
    Image(seq(|image.colors|, c requires 0 <= c < |image.colors| => Painted(o, n, block, Color(c), image.colors[c])),
          Painted(o, n, block, Infrared, image.ir))
  }

  /** The average of a slot's readings at one place. */
  method Average(o: Ordering, block: seq<Byte>, slot: Slot, s: Spot) returns (value: Sample)
    requires WellFormed(o) && Placed(o, s) && |block| == o.blockBytes && slot in o.slots
    ensures value == Value(o, block, slot, s)
  {
    var sum := 0;
    var base := s.position * o.stage + s.line + s.pixel * o.ccdLines;
    for r := 0 to slot.readings
      invariant sum == Sum(o, block, slot, s, r)
    {
      var t := s.(readout := slot.Nth(r));
      assert InBlock(o, t);
      var off := (base + slot.Nth(r) * o.readout) * o.bytesPerSample;
      var raw := SampleAt(block[off..off + o.bytesPerSample]);
      sum := sum + match o.curves { case Some(curves) => curves.Correct(s.line, raw) case None => raw };
    }
    value := Scaled(sum, slot.readings, o.top, o.out);
  }

  /** Write every slot of one place. */
  method EmitPixel(o: Ordering, block: seq<Byte>, s: Spot, at: nat, colors: seq<array<Sample>>, ir: array<Sample>)
    requires WellFormed(o) && Placed(o, s) && |block| == o.blockBytes
    requires Buffers(o, colors, ir) && at < o.rows * o.cols
    modifies colors, ir
    ensures forall c :: 0 <= c < |colors| ==>
              colors[c][..] == Put(o, block, Color(c), s, |o.slots|, at, old(colors[c][..]))
    ensures ir[..] == Put(o, block, Infrared, s, |o.slots|, at, old(ir[..]))
  {
    for k := 0 to |o.slots|
      invariant forall c :: 0 <= c < |colors| ==>
                  colors[c][..] == Put(o, block, Color(c), s, k, at, old(colors[c][..]))
      invariant ir[..] == Put(o, block, Infrared, s, k, at, old(ir[..]))
    {
      var slot := o.slots[k];
      var value := Average(o, block, slot, s);
      if slot.color {
        colors[slot.out][at] := value;
      } else {
        ir[at] := value;
      }
    }
  }

  /** Write block `n` into the image. */
  method Emit(o: Ordering, n: nat, block: seq<Byte>, colors: seq<array<Sample>>, ir: array<Sample>)
    requires WellFormed(o) && |block| == o.blockBytes && n < o.Blocks()
    requires Buffers(o, colors, ir)
    modifies colors, ir
    ensures Held(colors, ir) == PaintedImage(o, n, block, old(Held(colors, ir)))
  {
    ghost var was, irWas := Contents(colors), ir[..];
    var first := n * o.gap * o.ccdLines;
    forall c | 0 <= c < |colors| {
      NothingPainted(o, n, block, Color(c), was[c]);
    }
    NothingPainted(o, n, block, Infrared, irWas);
    for col := 0 to o.gap * o.ccdLines
      invariant forall c :: 0 <= c < |colors| ==> colors[c][..] == PaintedTo(o, n, block, Color(c), was[c], col, 0)
      invariant ir[..] == PaintedTo(o, n, block, Infrared, irWas, col, 0)
    {
      EmitColumn(o, n, block, col, first + col, colors, ir, was, irWas);
    }
  }

  /** Write one column of block `n`, the bar from its far end up. */
  method EmitColumn(o: Ordering, n: nat, block: seq<Byte>, col: nat, x: nat, colors: seq<array<Sample>>,
                    ir: array<Sample>, ghost was: seq<seq<Sample>>, ghost irWas: seq<Sample>)
    requires WellFormed(o) && |block| == o.blockBytes && n < o.Blocks() && col < o.Strip()
    requires x == n * o.gap * o.ccdLines + col
    requires Buffers(o, colors, ir) && |was| == |colors|
    requires forall c :: 0 <= c < |colors| ==> colors[c][..] == PaintedTo(o, n, block, Color(c), was[c], col, 0)
    requires ir[..] == PaintedTo(o, n, block, Infrared, irWas, col, 0)
    modifies colors, ir
    ensures forall c :: 0 <= c < |colors| ==> colors[c][..] == PaintedTo(o, n, block, Color(c), was[c], col + 1, 0)
    ensures ir[..] == PaintedTo(o, n, block, Infrared, irWas, col + 1, 0)
  {
    for p := 0 to o.rows
      invariant forall c :: 0 <= c < |colors| ==> colors[c][..] == PaintedTo(o, n, block, Color(c), was[c], col, p)
      invariant ir[..] == PaintedTo(o, n, block, Infrared, irWas, col, p)
    {
      var y := o.rows - 1 - p;
      forall c | 0 <= c < |colors| {
        PixelDone(o, n, block, Color(c), was[c], col, p);
      }
      PixelDone(o, n, block, Infrared, irWas, col, p);
      ColumnPlaced(o, col, p);
      PixelAddress(o, n, col, p);
      EmitPixel(o, block, SpotAt(o, col, p), y * o.cols + x, colors, ir);
    }
    forall c | 0 <= c < |colors| {
      ColumnDone(o, n, block, Color(c), was[c], col);
    }
    ColumnDone(o, n, block, Infrared, irWas, col);
  }

  lemma PixelAddress(o: Ordering, n: nat, col: nat, p: nat)
    requires WellFormed(o) && col < o.Strip() && p < o.rows && n < o.Blocks()
    ensures Pixel(o, n, SpotAt(o, col, p)) == (o.rows - 1 - p) * o.cols + (n * o.gap * o.ccdLines + col)
  {
    ColumnPlaced(o, col, p);
    assert n * o.gap * o.ccdLines == n * o.Strip();
  }
}
