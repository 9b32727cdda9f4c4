/**
 * Where the readouts of one stage position sit on the wire: every color, then
 * every channel read once, then the colors again for each further reading. With
 * infrared on every reading, every reading carries every channel.
 */
module Slots {
  import opened Arith
  import opened Layouts

  /** Where one output channel sits in a stage position. */
  datatype Slot = Slot(
    first: nat,
    next: nat,
    stride: nat,
    readings: nat,
    out: nat,
    color: bool
  ) {
    /** The readout of one reading of this channel. */
    function Nth(reading: nat): nat {
      if reading == 0 then first else next + (reading - 1) * stride
    }
  }

  lemma {:induction false} CountBoth(channels: seq<Byte>)
    ensures Count(channels, true) + Count(channels, false) == |channels|
  {
    if channels != [] { CountBoth(channels[1..]); }
  }

  lemma {:induction false} CountSplit(a: seq<Byte>, b: seq<Byte>, color: bool)
    ensures Count(a + b, color) == Count(a, color) + Count(b, color)
  {
    if a == [] {
      assert a + b == b;
    } else {
      assert (a + b)[1..] == a[1..] + b;
      CountSplit(a[1..], b, color);
    }
  }

  /** Channels of the kind of `channels[i]` that come before it. */
  function Rank(channels: seq<Byte>, i: nat): (rank: nat)
    requires i < |channels|
    ensures rank < Count(channels, IsColor(channels[i]))
  {
    var color := IsColor(channels[i]);
    assert channels == channels[..i] + ([channels[i]] + channels[i + 1..]);
    CountSplit(channels[..i], [channels[i]] + channels[i + 1..], color);
    CountSplit([channels[i]], channels[i + 1..], color);
    assert Count([channels[i]], color) == 1 + Count([], color);
    Count(channels[..i], color)
  }

  /** The channel of a kind with `rank` of its kind before it. */
  function Ranked(channels: seq<Byte>, color: bool, rank: nat): (i: nat)
    requires rank < Count(channels, color)
    ensures i < |channels| && IsColor(channels[i]) == color
    decreases |channels|
  {
    if IsColor(channels[0]) == color && rank == 0 then 0
    else 1 + Ranked(channels[1..], color, if IsColor(channels[0]) == color then rank - 1 else rank)
  }

  lemma {:induction false} RankOfRanked(channels: seq<Byte>, color: bool, rank: nat)
    requires rank < Count(channels, color)
    ensures Rank(channels, Ranked(channels, color, rank)) == rank
    decreases |channels|
  {
    var same := IsColor(channels[0]) == color;
    var i := Ranked(channels, color, rank);
    if i > 0 {
      RankOfRanked(channels[1..], color, if same then rank - 1 else rank);
      assert channels[..i] == [channels[0]] + channels[1..][..i - 1];
    }
  }

  lemma {:induction false} RankedOfRank(channels: seq<Byte>, i: nat)
    requires i < |channels|
    ensures Ranked(channels, IsColor(channels[i]), Rank(channels, i)) == i
    decreases |channels|
  {
    if i > 0 {
      assert channels[..i] == [channels[0]] + channels[1..][..i - 1];
      RankedOfRank(channels[1..], i - 1);
    }
  }

  /** A later channel of a kind has more of its kind before it. */
  lemma RankGrows(channels: seq<Byte>, i: nat, j: nat)
    requires i < j < |channels| && IsColor(channels[i]) == IsColor(channels[j])
    ensures Rank(channels, i) < Rank(channels, j)
  {
    var color := IsColor(channels[i]);
    assert channels[..j] == channels[..i] + ([channels[i]] + channels[i + 1..j]);
    CountSplit(channels[..i], [channels[i]] + channels[i + 1..j], color);
    CountSplit([channels[i]], channels[i + 1..j], color);
    assert Count([channels[i]], color) == 1 + Count([], color);
  }

  /** The slot of channel `i`. */
  function SlotOf(channels: seq<Byte>, readings: nat, infraredPerReading: bool, i: nat): Slot
    requires i < |channels|
  {
    var colors, once := Count(channels, true), |channels| - Count(channels, true);
    var stride := if infraredPerReading then |channels| else colors;
    var rank := Rank(channels, i);
    if IsColor(channels[i]) then
      Slot(rank, colors + once + rank, stride, readings, rank, true)
    else if infraredPerReading then
      Slot(colors + rank, |channels| + colors + rank, stride, readings, rank, false)
    else
      Slot(colors + rank, 0, 0, 1, rank, false)
  }

  /** One slot per output channel, in the order of the channel list. */
  method Every(channels: seq<Byte>, readings: nat, infraredPerReading: bool) returns (slots: seq<Slot>)
    ensures |slots| == |channels|
    ensures forall i :: 0 <= i < |channels| ==> slots[i] == SlotOf(channels, readings, infraredPerReading, i)
  {
    var colors := Count(channels, true);
    var once := |channels| - colors;
    var stride := if infraredPerReading then |channels| else colors;
    var color, ir := 0, 0;
    slots := [];
    while |slots| < |channels|
      invariant |slots| <= |channels|
      invariant color == Count(channels[..|slots|], true) && ir == Count(channels[..|slots|], false)
      invariant forall i :: 0 <= i < |slots| ==> slots[i] == SlotOf(channels, readings, infraredPerReading, i)
      decreases |channels| - |slots|
    {
      ghost var n := |slots|;
      assert channels[..n + 1] == channels[..n] + [channels[n]];
      CountSplit(channels[..n], [channels[n]], true);
      CountSplit(channels[..n], [channels[n]], false);
      if IsColor(channels[|slots|]) {
        color := color + 1;
        slots := slots + [Slot(color - 1, colors + once + color - 1, stride, readings, color - 1, true)];
      } else {
        ir := ir + 1;
        slots := slots + [
          if infraredPerReading then
            Slot(colors + ir - 1, |channels| + colors + ir - 1, stride, readings, ir - 1, false)
          else
            Slot(colors + ir - 1, 0, 0, 1, ir - 1, false)
        ];
      }
    }
  }

  /** Of `n` channels, `colors` of them color: the readout of reading `r` of the channel at `place`. */
  function ReadoutAt(n: nat, colors: nat, infraredPerReading: bool, place: nat, r: nat): nat {
    if infraredPerReading then r * n + place
    else if r == 0 then place
    else n + ((r - 1) * colors + place)
  }

  /** The place and the reading of readout `q`. */
  function PlaceAt(n: nat, colors: nat, infraredPerReading: bool, q: nat): (nat, nat)
    requires n > 0 && (!infraredPerReading && q >= n ==> colors > 0)
  {
    if infraredPerReading then (q % n, q / n)
    else if q < n then (q, 0)
    else ((q - n) % colors, (q - n) / colors + 1)
  }

  /** How often the channel at `place` is read. */
  function ReadingsAt(colors: nat, readings: nat, infraredPerReading: bool, place: nat): nat {
    if infraredPerReading || place < colors then readings else 1
  }

  function ReadoutsOf(n: nat, colors: nat, readings: nat, infraredPerReading: bool): nat
    requires colors <= n
  {
    if infraredPerReading then n * readings else colors * readings + (n - colors)
  }

  lemma PlaceOfReadout(n: nat, colors: nat, readings: nat, infraredPerReading: bool, q: nat)
    requires readings >= 1 && colors <= n && q < ReadoutsOf(n, colors, readings, infraredPerReading)
    ensures n > 0 && (!infraredPerReading && q >= n ==> colors > 0)
    ensures var (place, r) := PlaceAt(n, colors, infraredPerReading, q);
            && place < n && r < ReadingsAt(colors, readings, infraredPerReading, place)
            && ReadoutAt(n, colors, infraredPerReading, place, r) == q
  {
    if infraredPerReading {
      PlaceOfDigits(n, readings, q);
    } else if q >= n {
      assert colors * readings == colors * (readings - 1) + colors;
      PlaceOfDigits(colors, readings - 1, q - n);
    }
  }

  lemma ReadoutOfPlace(n: nat, colors: nat, readings: nat, infraredPerReading: bool, place: nat, r: nat)
    requires readings >= 1 && colors <= n && place < n
    requires r < ReadingsAt(colors, readings, infraredPerReading, place)
    ensures var q := ReadoutAt(n, colors, infraredPerReading, place, r);
            && q < ReadoutsOf(n, colors, readings, infraredPerReading)
            && (!infraredPerReading && q >= n ==> colors > 0)
            && PlaceAt(n, colors, infraredPerReading, q) == (place, r)
  {
    if infraredPerReading {
      DigitsOfPlace(n, readings, place, r);
    } else if r > 0 {
      DigitsOfPlace(colors, readings - 1, place, r - 1);
      assert colors * readings == colors * (readings - 1) + colors;
    } else {
      MulMono(1, readings, colors);
    }
  }

  lemma DigitsOfPlace(n: nat, readings: nat, place: nat, r: nat)
    requires place < n && r < readings
    ensures 0 <= r * n + place < n * readings
    ensures (r * n + place) % n == place && (r * n + place) / n == r
  {
    DigitBound(r, place, readings, n);
    DivModUnique(r * n + place, n, r, place);
  }

  lemma PlaceOfDigits(n: nat, readings: nat, q: nat)
    requires q < n * readings
    ensures n > 0 && 0 <= q % n < n && 0 <= q / n < readings && q / n * n + q % n == q
  {
    assert n > 0;
    DigitRange(q, readings, n);
    FundamentalDivMod(q, n);
  }

  /** The channel at a place of the order colors first, the others after. */
  function ChannelAt(channels: seq<Byte>, place: nat): (i: nat)
    requires place < |channels|
    ensures i < |channels|
    ensures IsColor(channels[i]) <==> place < Count(channels, true)
  {
    CountBoth(channels);
    if place < Count(channels, true) then Ranked(channels, true, place)
    else Ranked(channels, false, place - Count(channels, true))
  }

  /** Where channel `i` is in that order. */
  function PlaceOf(channels: seq<Byte>, i: nat): (place: nat)
    requires i < |channels|
    ensures place < |channels| && ChannelAt(channels, place) == i
  {
    CountBoth(channels);
    RankedOfRank(channels, i);
    if IsColor(channels[i]) then Rank(channels, i) else Count(channels, true) + Rank(channels, i)
  }

  lemma PlaceOfChannelAt(channels: seq<Byte>, place: nat)
    requires place < |channels|
    ensures PlaceOf(channels, ChannelAt(channels, place)) == place
  {
    CountBoth(channels);
    if place < Count(channels, true) {
      RankOfRanked(channels, true, place);
    } else {
      RankOfRanked(channels, false, place - Count(channels, true));
    }
  }

  /** A slot's arithmetic, in the order of places. */
  lemma NthIsReadoutAt(channels: seq<Byte>, readings: nat, infraredPerReading: bool, i: nat, r: nat)
    requires i < |channels|
    requires r < SlotOf(channels, readings, infraredPerReading, i).readings
    ensures var colors, place := Count(channels, true), PlaceOf(channels, i);
            && SlotOf(channels, readings, infraredPerReading, i).readings
               == ReadingsAt(colors, readings, infraredPerReading, place)
            && SlotOf(channels, readings, infraredPerReading, i).Nth(r)
               == ReadoutAt(|channels|, colors, infraredPerReading, place, r)
  {
    if infraredPerReading && r > 0 {
      assert r * |channels| == (r - 1) * |channels| + |channels|;
    }
  }

  /** Readouts of one stage position: a layout's `Readouts` for a reading count of at least one. */
  function ReadoutCount(channels: seq<Byte>, readings: nat, infraredPerReading: bool): nat {
    ReadoutsOf(|channels|, Count(channels, true), readings, infraredPerReading)
  }

  /** The channel and the reading whose sample is readout `q`. */
  function ReaderOf(channels: seq<Byte>, readings: nat, infraredPerReading: bool, q: nat): (cr: (nat, nat))
    requires readings >= 1 && q < ReadoutCount(channels, readings, infraredPerReading)
    ensures cr.0 < |channels|
  {
    PlaceOfReadout(|channels|, Count(channels, true), readings, infraredPerReading, q);
    var (place, r) := PlaceAt(|channels|, Count(channels, true), infraredPerReading, q);
    (ChannelAt(channels, place), r)
  }

  /** Every readout is one reading of one channel... */
  lemma ReadoutHasReader(channels: seq<Byte>, readings: nat, infraredPerReading: bool, q: nat)
    requires readings >= 1 && q < ReadoutCount(channels, readings, infraredPerReading)
    ensures var (i, r) := ReaderOf(channels, readings, infraredPerReading, q);
            && r < SlotOf(channels, readings, infraredPerReading, i).readings
            && SlotOf(channels, readings, infraredPerReading, i).Nth(r) == q
  {
    PlaceOfReadout(|channels|, Count(channels, true), readings, infraredPerReading, q);
    var (place, r) := PlaceAt(|channels|, Count(channels, true), infraredPerReading, q);
    PlaceOfChannelAt(channels, place);
    NthIsReadoutAt(channels, readings, infraredPerReading, ChannelAt(channels, place), r);
  }

  /** ...and every reading of every channel is a readout no other shares. */
  lemma ReaderHasReadout(channels: seq<Byte>, readings: nat, infraredPerReading: bool, i: nat, r: nat)
    requires readings >= 1 && i < |channels|
    requires r < SlotOf(channels, readings, infraredPerReading, i).readings
    ensures var q := SlotOf(channels, readings, infraredPerReading, i).Nth(r);
            q < ReadoutCount(channels, readings, infraredPerReading)
            && ReaderOf(channels, readings, infraredPerReading, q) == (i, r)
  {
    NthIsReadoutAt(channels, readings, infraredPerReading, i, r);
    ReadoutOfPlace(|channels|, Count(channels, true), readings, infraredPerReading, PlaceOf(channels, i), r);
  }

  /** The first readout of a reading: the first reading carries every channel, a later one the colors. */
  function FirstReadout(channels: seq<Byte>, infraredPerReading: bool, r: nat): nat {
    if infraredPerReading then r * |channels|
    else if r == 0 then 0
    else |channels| + (r - 1) * Count(channels, true)
  }

  /** The readouts of a stage position come reading by reading, each reading's own together. */
  lemma ReadingsInTurn(channels: seq<Byte>, readings: nat, infraredPerReading: bool, q: nat, r: nat)
    requires readings >= 1 && q < ReadoutCount(channels, readings, infraredPerReading)
    ensures ReaderOf(channels, readings, infraredPerReading, q).1 == r <==>
              FirstReadout(channels, infraredPerReading, r) <= q < FirstReadout(channels, infraredPerReading, r + 1)
  {
    var n, colors := |channels|, Count(channels, true);
    PlaceOfReadout(n, colors, readings, infraredPerReading, q);
    if infraredPerReading {
      InStep(q, n, r);
    } else if q >= n && r >= 1 {
      InStep(q - n, colors, r - 1);
    } else if q >= n {
      DivMono(0, q - n, colors);
    } else if r >= 1 {
      MulMono(0, r - 1, colors);
    }
  }

  /** Within a reading the colors come before the other channels, and each kind in the order of the channel list. */
  lemma ColorsComeFirst(channels: seq<Byte>, readings: nat, infraredPerReading: bool, p: nat, q: nat)
    requires readings >= 1
    requires p < ReadoutCount(channels, readings, infraredPerReading)
    requires q < ReadoutCount(channels, readings, infraredPerReading)
    requires ReaderOf(channels, readings, infraredPerReading, p).1
          == ReaderOf(channels, readings, infraredPerReading, q).1
    ensures var (i, j) := (ReaderOf(channels, readings, infraredPerReading, p).0,
                           ReaderOf(channels, readings, infraredPerReading, q).0);
            (p < q <==> if IsColor(channels[i]) == IsColor(channels[j]) then i < j else IsColor(channels[i]))
  {
    var n, colors := |channels|, Count(channels, true);
    PlaceOfReadout(n, colors, readings, infraredPerReading, p);
    PlaceOfReadout(n, colors, readings, infraredPerReading, q);
    var (a, r) := PlaceAt(n, colors, infraredPerReading, p);
    var (b, r') := PlaceAt(n, colors, infraredPerReading, q);
    assert p < q <==> a < b;
    PlacesInOrder(channels, a, b);
    PlacesInOrder(channels, b, a);
  }

  lemma PlacesInOrder(channels: seq<Byte>, a: nat, b: nat)
    requires a < |channels| && b < |channels|
    ensures var (i, j) := (ChannelAt(channels, a), ChannelAt(channels, b));
            a < b ==> if IsColor(channels[i]) == IsColor(channels[j]) then i < j else IsColor(channels[i])
  {
    PlaceOfChannelAt(channels, a);
    PlaceOfChannelAt(channels, b);
    var i, j := ChannelAt(channels, a), ChannelAt(channels, b);
    if IsColor(channels[i]) == IsColor(channels[j]) && j < i { RankGrows(channels, j, i); }
  }

  lemma InStep(q: nat, size: nat, r: nat)
    requires size > 0
    ensures q / size == r <==> r * size <= q < (r + 1) * size
  {
    FundamentalDivMod(q, size);
    assert (r + 1) * size == r * size + size && size * (q / size) == q / size * size;
    if r * size <= q < (r + 1) * size { DivModUnique(q, size, r, q - r * size); }
  }
}
