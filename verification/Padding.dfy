/**
 * What the unit does to a payload on its way to the wire, stated on its own: cut
 * it into readings and attach invalid bytes, of any value, to both ends of each.
 * The theorems say the filter of `Truncation` undoes exactly that.
 */
module Padding {
  import opened Sequences
  import opened Arith
  import opened Layouts
  import opened Truncation

  /** The value of an invalid byte, by line, reading and offset. Nothing bounds it. */
  type Junk = (nat, nat, nat) -> Byte

  /** Invalid, valid, and invalid bytes of one reading of a group of packed rows. */
  datatype Part = Part(head: nat, body: nat, tail: nat)

  /** Readouts a reading carries: the first one every channel, a later one the colors. */
  function Carried(l: Layout, r: nat): nat {
    if r == 0 || l.infraredPerReading then |l.channels| else Count(l.channels, true)
  }

  /** The invalid bytes at its ends. A first reading with a channel no later one carries has counts of its own. */
  function InvalidAt(l: Layout, r: nat): Edges {
    if && r == 0 && l.readingsPerLine > 1 && !l.infraredPerReading
       && exists i :: 0 <= i < |l.channels| && !IsColor(l.channels[i])
    then l.truncatedBytesOnce else l.truncatedBytesLine
  }

  /** Valid bytes of a reading: the bar, for each readout it carries. */
  function SentIn(l: Layout, r: nat): nat { l.pixels * l.bytesPerSample * Carried(l, r) }

  /** How a unit pads the readings of a line. */
  function PartsOf(l: Layout): (parts: seq<Part>)
    ensures |parts| == l.Readings()
  {
    seq(l.Readings(), r requires 0 <= r < l.Readings() =>
      Part(InvalidAt(l, r).first * l.packedRows, SentIn(l, r) * l.packedRows, InvalidAt(l, r).last * l.packedRows))
  }

  lemma {:induction false} NoneOtherCounted(channels: seq<Byte>)
    ensures Count(channels, true) == |channels| <==> forall i :: 0 <= i < |channels| ==> IsColor(channels[i])
  {
    if channels != [] {
      NoneOtherCounted(channels[1..]);
      assert forall i :: 1 <= i < |channels| ==> channels[i] == channels[1..][i - 1];
    }
  }

  /** What the filter and the schedule count of a reading is what the unit sends. */
  lemma ReadingIsAsSent(l: Layout, r: nat)
    ensures l.ReadingPayload(r) == SentIn(l, r)
    ensures r < l.Readings() ==> l.TruncatedBytes(r) == InvalidAt(l, r)
    ensures r < l.Readings() ==> l.BytesPerReading(r) == InvalidAt(l, r).first + SentIn(l, r) + InvalidAt(l, r).last
    ensures l.EvenReadings() <==> forall q :: 0 <= q < l.Readings() ==> Carried(l, q) == |l.channels|
  {
    NoneOtherCounted(l.channels);
    if l.Readings() > 1 { assert Carried(l, 1) == if l.infraredPerReading then |l.channels| else l.Colors(); }
  }

  /** The filter counts each reading as the unit sends it. */
  predicate InStep(sh: Shape, parts: seq<Part>) {
    && |sh.cuts| == |parts|
    && forall r :: 0 <= r < |parts| ==>
         sh.cuts[r] == Cut(parts[r].head + parts[r].body + parts[r].tail, parts[r].head, parts[r].head + parts[r].body)
  }

  /**
   * It counts a reading as a byte at least, so it is in step with the unit exactly
   * when no reading is empty.
   */
  lemma LayoutInStep(l: Layout)
    ensures InStep(ShapeOf(l), PartsOf(l)) <==> l.ReadingsNonempty()
  {
    var sh, parts := ShapeOf(l), PartsOf(l);
    forall r | 0 <= r < l.Readings()
      ensures sh.cuts[r]
              == Cut(parts[r].head + parts[r].body + parts[r].tail, parts[r].head, parts[r].head + parts[r].body)
         <==> l.BytesPerReading(r) * l.packedRows >= 1
    {
      ReadingFits(l, r);
    }
  }

  lemma ReadingFits(l: Layout, r: nat)
    requires r < l.Readings()
    ensures var head, body := InvalidAt(l, r).first * l.packedRows, SentIn(l, r) * l.packedRows;
            (ReadingCut(l, r) == Cut(head + body + InvalidAt(l, r).last * l.packedRows, head, head + body)
             <==> l.BytesPerReading(r) * l.packedRows >= 1)
  {
    ReadingIsAsSent(l, r);
    MulMono(0, l.BytesPerReading(r), l.packedRows);
    Distribute(SentIn(l, r), InvalidAt(l, r).first, InvalidAt(l, r).last, l.packedRows);
  }

  lemma Distribute(b: nat, a: nat, c: nat, n: nat)
    ensures (b + a + c) * n == a * n + b * n + c * n
  {
  }

  /** Valid bytes of the readings `r..` of one group. */
  function LineBody(parts: seq<Part>, r: nat): nat
    requires r <= |parts|
    decreases |parts| - r
  {
    if r == |parts| then 0 else parts[r].body + LineBody(parts, r + 1)
  }

  function PaddedReading(part: Part, g: nat, r: nat, body: seq<Byte>, junk: Junk): (wire: seq<Byte>)
    requires |body| == part.body
    ensures |wire| == part.head + part.body + part.tail
  {
    seq(part.head, i requires i >= 0 => junk(g, r, i))
    + body
    + seq(part.tail, i requires i >= 0 => junk(g, r, part.head + part.body + i))
  }

  function PaddedLine(parts: seq<Part>, g: nat, r: nat, body: seq<Byte>, junk: Junk): seq<Byte>
    requires r <= |parts| && |body| == LineBody(parts, r)
    decreases |parts| - r
  {
    if r == |parts| then []
    else
      PaddedReading(parts[r], g, r, body[..parts[r].body], junk)
      + PaddedLine(parts, g, r + 1, body[parts[r].body..], junk)
  }

  /** The wire of `n` groups from group `g` on. */
  function Padded(parts: seq<Part>, g: nat, n: nat, body: seq<Byte>, junk: Junk): seq<Byte>
    requires |body| == n * LineBody(parts, 0)
    decreases n
  {
    if n == 0 then []
    else
      GroupCut(n, LineBody(parts, 0));
      PaddedLine(parts, g, 0, body[..LineBody(parts, 0)], junk)
      + Padded(parts, g + 1, n - 1, body[LineBody(parts, 0)..], junk)
  }

  lemma GroupCut(n: nat, size: nat)
    requires n > 0
    ensures size <= n * size && n * size - size == (n - 1) * size
  {
    assert n * size == (n - 1) * size + size;
  }

  /** Stripping a padded reading leaves its valid bytes, or nothing outside the image. */
  lemma {:induction false} StripReading(sh: Shape, parts: seq<Part>, g: nat, r: nat, body: seq<Byte>, junk: Junk)
    requires InStep(sh, parts) && r < |parts| && |body| == parts[r].body
    ensures Valid(sh, State(g, r, 0))
    ensures Kept(sh, State(g, r, 0), PaddedReading(parts[r], g, r, body, junk)) == if InImage(sh, g) then body else []
    ensures After(sh, State(g, r, 0), |PaddedReading(parts[r], g, r, body, junk)|) == NextReading(sh, State(g, r, 0))
  {
    var wire := PaddedReading(parts[r], g, r, body, junk);
    StripRun(sh, State(g, r, 0), wire);
    RunAfter(sh, State(g, r, 0), |wire|);
    assert wire[parts[r].head..parts[r].head + parts[r].body] == body;
  }

  lemma {:induction false} StripLine(sh: Shape, parts: seq<Part>, g: nat, r: nat, body: seq<Byte>, junk: Junk)
    requires InStep(sh, parts) && r < |parts| && |body| == LineBody(parts, r)
    ensures Valid(sh, State(g, r, 0))
    ensures Kept(sh, State(g, r, 0), PaddedLine(parts, g, r, body, junk)) == if InImage(sh, g) then body else []
    ensures After(sh, State(g, r, 0), |PaddedLine(parts, g, r, body, junk)|) == State(g + 1, 0, 0)
    decreases |parts| - r
  {
    var head, rest := body[..parts[r].body], body[parts[r].body..];
    StripReading(sh, parts, g, r, head, junk);
    var p, q := PaddedReading(parts[r], g, r, head, junk), PaddedLine(parts, g, r + 1, rest, junk);
    assert body == head + rest && PaddedLine(parts, g, r, body, junk) == p + q;
    if r + 1 < |parts| {
      StripLine(sh, parts, g, r + 1, rest, junk);
      StripPair(sh, State(g, r, 0), State(g, r + 1, 0), State(g + 1, 0, 0), p, q);
    } else {
      assert rest == [] && q == [] && p + q == p;
    }
  }

  /** Groups all inside the image come back whole; groups all outside vanish. */
  lemma {:induction false} StripGroups(sh: Shape, parts: seq<Part>, g: nat, n: nat, body: seq<Byte>, junk: Junk,
                                       inside: bool)
    requires InStep(sh, parts) && |body| == n * LineBody(parts, 0)
    requires forall i :: g <= i < g + n ==> InImage(sh, i) == inside
    ensures Valid(sh, State(g, 0, 0))
    ensures Kept(sh, State(g, 0, 0), Padded(parts, g, n, body, junk)) == if inside then body else []
    ensures After(sh, State(g, 0, 0), |Padded(parts, g, n, body, junk)|) == State(g + n, 0, 0)
    decreases n
  {
    if n > 0 {
      GroupCut(n, LineBody(parts, 0));
      var head, rest := body[..LineBody(parts, 0)], body[LineBody(parts, 0)..];
      StripLine(sh, parts, g, 0, head, junk);
      StripGroups(sh, parts, g + 1, n - 1, rest, junk, inside);
      var p, q := PaddedLine(parts, g, 0, head, junk), Padded(parts, g + 1, n - 1, rest, junk);
      StripPair(sh, State(g, 0, 0), State(g + 1, 0, 0), State(g + n, 0, 0), p, q);
      assert body == head + rest && Padded(parts, g, n, body, junk) == p + q;
    } else {
      assert 0 * LineBody(parts, 0) == 0;
    }
  }

  /** Two stretches one after the other, the second taken up where the first left off. */
  lemma {:induction false} StripPair(sh: Shape, s: State, t: State, u: State, p: seq<Byte>, q: seq<Byte>)
    requires Valid(sh, s) && After(sh, s, |p|) == t && Valid(sh, t) && After(sh, t, |q|) == u
    ensures Kept(sh, s, p + q) == Kept(sh, s, p) + Kept(sh, t, q)
    ensures After(sh, s, |p + q|) == u
  {
    StripSplit(sh, s, p, q);
    AfterSplit(sh, s, |p|, |q|);
  }

  /** A stretch of groups is its first `m` and the others. */
  lemma {:induction false} PaddedSplit(parts: seq<Part>, g: nat, m: nat, n: nat, body: seq<Byte>, junk: Junk)
    requires m <= n && |body| == n * LineBody(parts, 0)
    ensures m * LineBody(parts, 0) <= |body|
    ensures |body| - m * LineBody(parts, 0) == (n - m) * LineBody(parts, 0)
    ensures Padded(parts, g, n, body, junk)
         == Padded(parts, g, m, body[..m * LineBody(parts, 0)], junk)
          + Padded(parts, g + m, n - m, body[m * LineBody(parts, 0)..], junk)
    decreases m
  {
    var size := LineBody(parts, 0);
    MulMono(m, n, size);
    assert (n - m) * size == n * size - m * size;
    if m > 0 {
      GroupCut(n, size);
      GroupCut(m, size);
      PaddedSplit(parts, g + 1, m - 1, n - 1, body[size..], junk);
      CutAtBoth(body, size, (m - 1) * size);
      var line := PaddedLine(parts, g, 0, body[..size], junk);
      var first := Padded(parts, g + 1, m - 1, body[size..][..(m - 1) * size], junk);
      var rest := Padded(parts, g + m, n - m, body[m * size..], junk);
      assert Padded(parts, g, n, body, junk) == line + (first + rest);
      assert Padded(parts, g, m, body[..m * size], junk) == line + first;
      Assoc(line, first, rest);
    } else {
      assert 0 * size == 0;
      assert body[0..] == body;
    }
  }

  lemma CutAtBoth(body: seq<Byte>, a: nat, b: nat)
    requires a + b <= |body|
    ensures body[a..][..b] == body[..a + b][a..] && body[a..][b..] == body[a + b..] && body[..a + b][..a] == body[..a]
    ensures body == body[..a] + body[a..]
  {
  }

  /**
   * A whole wire of `n` groups keeps the groups the line range names and drops
   * the others, whatever the invalid bytes read.
   */
  lemma {:induction false} StripWire(sh: Shape, parts: seq<Part>, n: nat, body: seq<Byte>, junk: Junk)
    requires InStep(sh, parts) && |body| == n * LineBody(parts, 0)
    ensures KeptFrom(sh, n) * LineBody(parts, 0) <= KeptTo(sh, n) * LineBody(parts, 0) <= |body|
    ensures Kept(sh, START, Padded(parts, 0, n, body, junk))
         == body[KeptFrom(sh, n) * LineBody(parts, 0)..KeptTo(sh, n) * LineBody(parts, 0)]
    ensures After(sh, START, |Padded(parts, 0, n, body, junk)|) == State(n, 0, 0)
  {
    var from, to := KeptFrom(sh, n), KeptTo(sh, n);
    CutSizes(from, to, n, LineBody(parts, 0));
    var (before, middle, past) := ThreeCut(LineBody(parts, 0), n, from, to, body);
    WireCut(parts, n, from, to, body, junk);
    var a, b, c := Padded(parts, 0, from, before, junk), Padded(parts, from, to - from, middle, junk),
                   Padded(parts, to, n - to, past, junk);
    StripGroups(sh, parts, 0, from, before, junk, false);
    StripGroups(sh, parts, from, to - from, middle, junk, true);
    StripGroups(sh, parts, to, n - to, past, junk, false);
    StripMiddle(sh, a, b, c, from, to, n);
  }

  lemma CutSizes(from: nat, to: nat, n: nat, size: nat)
    requires from <= to <= n
    ensures from * size <= to * size <= n * size
    ensures to * size - from * size == (to - from) * size
    ensures n * size - to * size == (n - to) * size
  {
    MulMono(from, to, size);
    MulMono(to, n, size);
  }

  /** A payload cut at two group boundaries. */
  function ThreeCut(size: nat, n: nat, from: nat, to: nat, body: seq<Byte>): (cut: (seq<Byte>, seq<Byte>, seq<Byte>))
    requires from <= to <= n && |body| == n * size
    ensures |cut.0| == from * size && |cut.1| == (to - from) * size && |cut.2| == (n - to) * size
  {
    CutSizes(from, to, n, size);
    (body[..from * size], body[from * size..to * size], body[to * size..])
  }

  /** Its wire is cut alike. */
  lemma {:induction false} WireCut(parts: seq<Part>, n: nat, from: nat, to: nat, body: seq<Byte>, junk: Junk)
    requires from <= to <= n && |body| == n * LineBody(parts, 0)
    ensures var cut := ThreeCut(LineBody(parts, 0), n, from, to, body);
            (Padded(parts, 0, n, body, junk)
             == Padded(parts, 0, from, cut.0, junk)
                + (Padded(parts, from, to - from, cut.1, junk) + Padded(parts, to, n - to, cut.2, junk)))
  {
    var size := LineBody(parts, 0);
    CutSizes(from, to, n, size);
    var rest := body[from * size..];
    PaddedSplit(parts, 0, from, n, body, junk);
    PaddedSplit(parts, from, to - from, n - from, rest, junk);
    CutAtBoth(body, from * size, (to - from) * size);
  }

  /** Of three stretches of groups of which only the second is image, the second is kept. */
  lemma {:induction false} StripMiddle(sh: Shape, a: seq<Byte>, b: seq<Byte>, c: seq<Byte>, from: nat, to: nat, n: nat)
    requires Kept(sh, START, a) == [] && After(sh, START, |a|) == State(from, 0, 0)
    requires After(sh, State(from, 0, 0), |b|) == State(to, 0, 0)
    requires Kept(sh, State(to, 0, 0), c) == [] && After(sh, State(to, 0, 0), |c|) == State(n, 0, 0)
    ensures Kept(sh, START, a + (b + c)) == Kept(sh, State(from, 0, 0), b)
    ensures After(sh, START, |a + (b + c)|) == State(n, 0, 0)
  {
    StripSplit(sh, START, a, b + c);
    StripSplit(sh, State(from, 0, 0), b, c);
    AfterSplit(sh, START, |a|, |b| + |c|);
    AfterSplit(sh, State(from, 0, 0), |b|, |c|);
    assert |a + (b + c)| == |a| + (|b| + |c|);
  }

  /** The groups `[KeptFrom, KeptTo)` of a wire of `n` are the ones the line range keeps. */
  function KeptFrom(sh: Shape, n: nat): (from: nat)
    ensures from <= n
    ensures forall i :: 0 <= i < from ==> !InImage(sh, i)
  {
    Min(sh.firstLine, n)
  }

  function KeptTo(sh: Shape, n: nat): (to: nat)
    ensures KeptFrom(sh, n) <= to <= n
    ensures forall i :: KeptFrom(sh, n) <= i < to ==> InImage(sh, i)
    ensures forall i :: to <= i < n ==> !InImage(sh, i)
  {
    Max(KeptFrom(sh, n), Min(sh.endLine, n))
  }

  /** What the filter keeps of each chunk in turn, its state carried across. */
  function StripChunks(sh: Shape, s: State, chunks: seq<seq<Byte>>): seq<seq<Byte>>
    requires Valid(sh, s)
    decreases |chunks|
  {
    if chunks == [] then []
    else [Kept(sh, s, chunks[0])] + StripChunks(sh, After(sh, s, |chunks[0]|), chunks[1..])
  }

  /** Every chunking of a stream strips to what the whole stream strips to. */
  lemma {:induction false} StripAnyChunking(sh: Shape, s: State, chunks: seq<seq<Byte>>)
    requires Valid(sh, s)
    ensures Flatten(StripChunks(sh, s, chunks)) == Kept(sh, s, Flatten(chunks))
    decreases |chunks|
  {
    if chunks != [] {
      StripSplit(sh, s, chunks[0], Flatten(chunks[1..]));
      StripAnyChunking(sh, After(sh, s, |chunks[0]|), chunks[1..]);
    }
  }
}
