/**
 * Where a READ may end. A line whose first reading is longer than the others
 * divides by no single length, so the lengths alternate with the position.
 */
module Scheduling {
  import opened Arith
  import opened Layouts

  predicate Uniform(g: Granules) { g.first == g.rest }

  /** The longest length, which is what one transfer has to be able to carry. */
  function Widest(g: Granules): nat { Max(g.first, g.rest) }

  /** No length is zero. */
  predicate Positive(g: Granules) { g.first >= 1 && g.rest >= 1 && g.line >= 1 }

  /** The line is the first length and a whole number of the others. */
  predicate WholeLine(g: Granules) {
    Positive(g) && g.first <= g.line && (g.line - g.first) % g.rest == 0
  }

  /** Where `more` bytes leave a stream that is `at` bytes into a line. */
  function Advance(g: Granules, at: nat, more: nat): (at': nat)
    requires Positive(g)
    ensures at' < g.line
  {
    (at + more) % g.line
  }

  /** A position in a line where a length ends. */
  predicate OnBoundary(g: Granules, at: nat)
    requires Positive(g)
  {
    at == 0 || (g.first <= at < g.line && (at - g.first) % g.rest == 0)
  }

  /** The length that comes next. */
  function NextLength(g: Granules, at: nat): nat {
    if at == 0 then g.first else g.rest
  }

  /** How much to ask for, length by length: until `left` is covered or `budget` is full. */
  function TakeLengths(g: Granules, at: nat, left: nat, budget: nat): nat
    requires Positive(g)
    decreases left
  {
    var unit := NextLength(g, at);
    if left == 0 || unit > budget then 0
    else unit + TakeLengths(g, Advance(g, at, unit), SatSub(left, unit), budget - unit)
  }

  /** The same for lengths that are all equal, in one step. */
  function TakeEqual(unit: nat, left: nat, budget: nat): nat
    requires unit >= 1
  {
    var whole := budget / unit * unit;
    if left >= whole then whole else DivCeil(left, unit) * unit
  }

  lemma DivStep(n: nat, unit: nat)
    requires unit >= 1 && n >= unit
    ensures n / unit == (n - unit) / unit + 1
  {
    ModShift(n - unit, 1, unit);
  }

  lemma CeilStep(n: nat, unit: nat)
    requires unit >= 1 && n >= 1
    ensures DivCeil(n, unit) == DivCeil(SatSub(n, unit), unit) + 1
  {
    if n >= unit {
      DivStep(n + unit - 1, unit);
    } else {
      DivModUnique(n + unit - 1, unit, 1, n - 1);
      DivModUnique(unit - 1, unit, 0, unit - 1);
    }
  }

  lemma OneMore(n: nat, unit: nat)
    ensures (n + 1) * unit == n * unit + unit
  {
  }

  lemma EqualStep(unit: nat, left: nat, budget: nat)
    requires unit >= 1 && left > 0 && unit <= budget
    ensures TakeEqual(unit, left, budget) == unit + TakeEqual(unit, SatSub(left, unit), budget - unit)
  {
    var lengths, owed := (budget - unit) / unit, DivCeil(SatSub(left, unit), unit);
    DivStep(budget, unit);
    CeilStep(left, unit);
    OneMore(lengths, unit);
    OneMore(owed, unit);
    MulMono(0, lengths, unit);
    if left < unit {
      DivModUnique(unit - 1, unit, 0, unit - 1);
      assert owed * unit == 0;
    }
  }

  /** The closed form is the walk. */
  lemma {:induction false} EqualLengths(g: Granules, at: nat, left: nat, budget: nat)
    requires Positive(g) && Uniform(g)
    ensures TakeEqual(g.rest, left, budget) == TakeLengths(g, at, left, budget)
    decreases left
  {
    var unit := g.rest;
    if budget < unit {
      DivModUnique(budget, unit, 0, budget);
      assert 0 * unit == 0;
    } else if left == 0 {
      DivModUnique(unit - 1, unit, 0, unit - 1);
      MulMono(0, budget / unit, unit);
      assert 0 * unit == 0;
    } else {
      EqualStep(unit, left, budget);
      EqualLengths(g, Advance(g, at, unit), SatSub(left, unit), budget - unit);
    }
  }

  /** How much to ask for `at` bytes into a line, with `left` owed and `budget` the most one transfer carries. */
  method Take(g: Granules, at: nat, left: nat, budget: nat) returns (taken: nat)
    requires Positive(g) && at < g.line
    ensures taken == TakeLengths(g, at, left, budget)
  {
    if Uniform(g) {
      EqualLengths(g, at, left, budget);
      var unit := g.rest;
      var whole := budget / unit * unit;
      return if left >= whole then whole else DivCeil(left, unit) * unit;
    }
    var at' := at;
    taken := 0;
    while taken < left
      invariant taken <= budget
      invariant TakeLengths(g, at, left, budget)
             == taken + TakeLengths(g, at', SatSub(left, taken), budget - taken)
      decreases left - taken
    {
      var unit := if at' == 0 then g.first else g.rest;
      if taken + unit > budget {
        break;
      }
      taken := taken + unit;
      at' := Advance(g, at', unit);
    }
  }

  lemma AdvanceTwice(g: Granules, at: nat, a: nat, b: nat)
    requires Positive(g)
    ensures Advance(g, Advance(g, at, a), b) == Advance(g, at, a + b)
  {
    FundamentalDivMod(at + a, g.line);
    var n := (at + a) / g.line;
    assert g.line * n == n * g.line;
    ModShift((at + a) % g.line + b, n, g.line);
  }

  /** One length on from a boundary is a boundary. */
  lemma LengthEndsOnBoundary(g: Granules, at: nat)
    requires WholeLine(g) && OnBoundary(g, at)
    ensures at + NextLength(g, at) <= g.line
    ensures OnBoundary(g, Advance(g, at, NextLength(g, at)))
  {
    if at > 0 {
      var n, m := (g.line - g.first) / g.rest, (at - g.first) / g.rest;
      FundamentalDivMod(g.line - g.first, g.rest);
      FundamentalDivMod(at - g.first, g.rest);
      assert g.line - at == g.rest * n - g.rest * m == (n - m) * g.rest;
      assert n - m >= 1 by { if n - m <= 0 { MulMono(n - m, 0, g.rest); } }
      MulMono(1, n - m, g.rest);
      ModShift(at - g.first, 1, g.rest);
    }
    var end := at + NextLength(g, at);
    if end == g.line {
      DivModUnique(end, g.line, 1, 0);
    } else {
      DivModUnique(end, g.line, 0, end);
      if at == 0 { DivModUnique(0, g.rest, 0, 0); }
    }
  }

  /**
   * What is asked for fits the budget and ends on a boundary, is something
   * wherever anything is owed, and stops short of what is owed only where one
   * more length would not fit.
   */
  lemma {:induction false} TakeIsRight(g: Granules, at: nat, left: nat, budget: nat)
    requires WholeLine(g) && OnBoundary(g, at)
    ensures var t := TakeLengths(g, at, left, budget);
            && t <= budget
            && OnBoundary(g, Advance(g, at, t))
            && (left > 0 && budget >= Widest(g) ==> t > 0)
            && (t < left ==> t + NextLength(g, Advance(g, at, t)) > budget)
            && (left > 0 ==> t < left + Widest(g))
    decreases left
  {
    var unit := NextLength(g, at);
    if left == 0 || unit > budget {
      AdvanceByNothing(g, at);
    } else {
      LengthEndsOnBoundary(g, at);
      var next := Advance(g, at, unit);
      TakeIsRight(g, next, SatSub(left, unit), budget - unit);
      AdvanceTwice(g, at, unit, TakeLengths(g, next, SatSub(left, unit), budget - unit));
    }
  }

  lemma AdvanceByNothing(g: Granules, at: nat)
    requires Positive(g) && OnBoundary(g, at)
    ensures Advance(g, at, 0) == at
  {
    DivModUnique(at, g.line, 0, at);
  }

  /** The lengths of the READs of a pass whose every READ is answered in full. */
  function Reads(g: Granules, chunk: nat, at: nat, left: nat): seq<nat>
    requires WholeLine(g) && OnBoundary(g, at) && chunk >= Widest(g)
    decreases left
  {
    if left == 0 then []
    else
      TakeIsRight(g, at, left, chunk);
      var t := TakeLengths(g, at, left, chunk);
      [t] + Reads(g, chunk, Advance(g, at, t), SatSub(left, t))
  }

  function Sum(s: seq<nat>): nat {
    if s == [] then 0 else s[0] + Sum(s[1..])
  }

  /** Every READ of such a pass is something and no more than one transfer, and ends on a boundary. */
  lemma {:induction false} EveryReadEndsOnBoundary(g: Granules, chunk: nat, at: nat, left: nat, n: nat)
    requires WholeLine(g) && OnBoundary(g, at) && chunk >= Widest(g)
    requires n <= |Reads(g, chunk, at, left)|
    ensures forall k :: 0 <= k < |Reads(g, chunk, at, left)| ==> 1 <= Reads(g, chunk, at, left)[k] <= chunk
    ensures OnBoundary(g, Advance(g, at, Sum(Reads(g, chunk, at, left)[..n])))
    decreases left
  {
    var all := Reads(g, chunk, at, left);
    if left > 0 {
      TakeIsRight(g, at, left, chunk);
      var t := TakeLengths(g, at, left, chunk);
      var next, rest := Advance(g, at, t), SatSub(left, t);
      EveryReadEndsOnBoundary(g, chunk, next, rest, if n == 0 then 0 else n - 1);
      if n > 0 {
        assert all[..n] == [t] + Reads(g, chunk, next, rest)[..n - 1];
        AdvanceTwice(g, at, t, Sum(Reads(g, chunk, next, rest)[..n - 1]));
      }
    }
    if n == 0 {
      assert all[..0] == [];
      AdvanceByNothing(g, at);
    }
  }

  /** A pass that ends on a boundary has a whole length left wherever it has anything left. */
  lemma LengthLeft(g: Granules, at: nat, left: nat)
    requires WholeLine(g) && OnBoundary(g, at) && left > 0
    requires OnBoundary(g, Advance(g, at, left))
    ensures left >= NextLength(g, at)
    ensures OnBoundary(g, Advance(g, Advance(g, at, NextLength(g, at)), left - NextLength(g, at)))
  {
    LengthEndsOnBoundary(g, at);
    var unit := NextLength(g, at);
    if left < unit {
      DivModUnique(at + left, g.line, 0, at + left);
      if at > 0 {
        FundamentalDivMod(at - g.first, g.rest);
        var m := (at - g.first) / g.rest;
        assert g.rest * m == m * g.rest;
        DivModUnique(at + left - g.first, g.rest, m, left);
      }
      assert false;
    }
    AdvanceTwice(g, at, unit, left - unit);
  }

  /** The walk never steps over a boundary that what is owed ends on. */
  lemma {:induction false} TakeStopsAtEnd(g: Granules, at: nat, left: nat, budget: nat)
    requires WholeLine(g) && OnBoundary(g, at)
    requires OnBoundary(g, Advance(g, at, left))
    ensures TakeLengths(g, at, left, budget) <= left
    decreases left
  {
    var unit := NextLength(g, at);
    if left > 0 && unit <= budget {
      LengthLeft(g, at, left);
      LengthEndsOnBoundary(g, at);
      TakeStopsAtEnd(g, Advance(g, at, unit), left - unit, budget - unit);
    }
  }

  /**
   * A pass answered in full is read past its end by less than one length, and
   * lands on its end exactly when its end is a boundary.
   */
  lemma {:induction false} PassLands(g: Granules, chunk: nat, at: nat, left: nat)
    requires WholeLine(g) && OnBoundary(g, at) && chunk >= Widest(g)
    ensures left <= Sum(Reads(g, chunk, at, left)) < left + Widest(g)
    ensures Sum(Reads(g, chunk, at, left)) == left <==> OnBoundary(g, Advance(g, at, left))
    decreases left
  {
    if left == 0 {
      AdvanceByNothing(g, at);
    } else {
      TakeIsRight(g, at, left, chunk);
      var t := TakeLengths(g, at, left, chunk);
      var next, rest := Advance(g, at, t), SatSub(left, t);
      PassLands(g, chunk, next, rest);
      if OnBoundary(g, Advance(g, at, left)) {
        TakeStopsAtEnd(g, at, left, chunk);
      }
      if t <= left {
        AdvanceTwice(g, at, t, rest);
      }
    }
  }

  // ----- the lengths of a layout

  /** A granule of one line, packed rows and all. */
  function LineGranules(l: Layout): Granules {
    Every(Max(l.BytesPerLine() * l.packedRows, 1))
  }

  lemma EveryIsWhole(n: nat)
    requires n >= 1
    ensures WholeLine(Every(n))
  {
    DivModUnique(0, n, 0, 0);
  }

  /**
   * Where the readings of a line differ, the granule of a line is the first and
   * then each of the others exactly when no reading of it is empty.
   */
  lemma UnevenLine(l: Layout)
    requires l.packedRows >= 1 && !l.EvenReadings()
    ensures var g := l.ReadingGranules();
            g.line == g.first + (l.Readings() - 1) * g.rest <==> l.ReadingsNonempty()
  {
    LineOfReadings(l);
    var n, rows := l.Readings() - 1, l.packedRows;
    var a, b := l.BytesPerReading(0), l.BytesPerReading(1);
    assert n >= 1;
    Spread(a, n, b, rows);
    MulMono(1, n, b * rows);
    if a >= 1 { MulMono(1, a, rows); }
    if b >= 1 { MulMono(1, b, rows); MulMono(1, a + n * b, rows); }
    if l.ReadingsNonempty() {
      assert a * rows >= 1 && b * rows >= 1;
    } else {
      var r :| 0 <= r < l.Readings() && l.BytesPerReading(r) * rows < 1;
      assert r == 0 || l.BytesPerReading(r) == b;
    }
    assert forall r :: 1 <= r < l.Readings() ==> l.BytesPerReading(r) == b;
  }

  lemma Spread(a: nat, n: nat, b: nat, rows: nat)
    ensures (a + n * b) * rows == a * rows + n * (b * rows)
  {
    assert (n * b) * rows == n * (b * rows);
  }

  /** The walk of a whole pass, whose end the packed rows divide, lands on that end. */
  lemma WholePassLands(l: Layout, chunk: nat, readings: bool)
    requires l.packedRows >= 1 && l.ReadingsNonempty()
    requires (l.lines + l.truncatedLinesFrame.first + l.truncatedLinesFrame.last) % l.packedRows == 0
    ensures var g := if readings then l.ReadingGranules() else LineGranules(l);
            && WholeLine(g)
            && (chunk >= Widest(g) ==> Sum(Reads(g, chunk, 0, l.TotalBytes())) == l.TotalBytes())
  {
    var g := if readings then l.ReadingGranules() else LineGranules(l);
    var rows := l.packedRows;
    var groups := (l.lines + l.truncatedLinesFrame.first + l.truncatedLinesFrame.last) / rows;
    FundamentalDivMod(l.lines + l.truncatedLinesFrame.first + l.truncatedLinesFrame.last, rows);
    GroupsOfRows(l.BytesPerLine(), rows, groups);
    LineIsWhole(l);
    var m := if readings && l.EvenReadings() then l.Readings() else 1;
    GroupsOfLengths(groups, m, g.line);
    ModShift(0, groups * m, g.line);
    DivModUnique(0, g.line, 0, 0);
    if chunk >= Widest(g) {
      PassLands(g, chunk, 0, l.TotalBytes());
    }
  }

  lemma GroupsOfRows(bytes: nat, rows: nat, groups: nat)
    ensures bytes * (rows * groups) == groups * (bytes * rows)
  {
  }

  lemma GroupsOfLengths(groups: nat, m: nat, line: nat)
    ensures groups * (m * line) == (groups * m) * line
  {
  }

  /** A line is a whole number of its granules' lines, and the granules tile it. */
  lemma LineIsWhole(l: Layout)
    requires l.packedRows >= 1 && l.ReadingsNonempty()
    ensures WholeLine(l.ReadingGranules()) && WholeLine(LineGranules(l))
    ensures l.BytesPerLine() * l.packedRows == LineGranules(l).line
    ensures l.BytesPerLine() * l.packedRows
         == (if l.EvenReadings() then l.Readings() else 1) * l.ReadingGranules().line
  {
    LineOfReadings(l);
    var n, rows, a, b := l.Readings() - 1, l.packedRows, l.BytesPerReading(0), l.BytesPerReading(1);
    assert a * rows >= 1;
    Spread(a, n, b, rows);
    MulMono(0, n, b * rows);
    EveryIsWhole(LineGranules(l).line);
    if l.EvenReadings() {
      EveryIsWhole(a * rows);
      assert (l.Readings() * a) * rows == l.Readings() * (a * rows);
    } else {
      UnevenLine(l);
      ModShift(0, n, l.ReadingGranules().rest);
      DivModUnique(0, l.ReadingGranules().rest, 0, 0);
    }
  }

  // ----- passes that do not end on a granule

  /** A pass in equal granules lands on its end exactly when that is a whole number of them, and else on the next. */
  lemma {:induction false} EqualGranulesLand(unit: nat, chunk: nat, left: nat)
    requires 1 <= unit <= chunk
    ensures WholeLine(Every(unit))
    ensures Sum(Reads(Every(unit), chunk, 0, left)) == DivCeil(left, unit) * unit
    ensures Sum(Reads(Every(unit), chunk, 0, left)) == left <==> left % unit == 0
  {
    EqualReadsAreWhole(unit, chunk, left);
    RoundedUp(Sum(Reads(Every(unit), chunk, 0, left)), unit, left);
  }

  lemma RoundedUp(sum: nat, unit: nat, left: nat)
    requires unit >= 1 && left <= sum < left + unit && sum % unit == 0
    ensures sum == DivCeil(left, unit) * unit
  {
    FundamentalDivMod(sum, unit);
    OneMultiple(left, unit, sum / unit, DivCeil(left, unit));
  }

  lemma {:induction false} EqualReadsAreWhole(unit: nat, chunk: nat, left: nat)
    requires 1 <= unit <= chunk
    ensures WholeLine(Every(unit))
    ensures var sum := Sum(Reads(Every(unit), chunk, 0, left));
            left <= sum < left + unit && sum % unit == 0 && (sum == left <==> left % unit == 0)
  {
    var g := Every(unit);
    EveryIsWhole(unit);
    var all := Reads(g, chunk, 0, left);
    PassLands(g, chunk, 0, left);
    EveryReadEndsOnBoundary(g, chunk, 0, left, |all|);
    assert all[..|all|] == all;
  }

  /** Only one multiple of a unit is no less than a number, and less than a unit more. */
  lemma OneMultiple(left: nat, unit: nat, q: int, k: int)
    requires unit >= 1
    requires left <= unit * q < left + unit && left <= k * unit < left + unit
    ensures q == k
  {
    assert unit * q == q * unit;
    assert (k + 1) * unit == k * unit + unit && (q + 1) * unit == q * unit + unit;
    if q > k { MulMono(k + 1, q, unit); }
    if q < k { MulMono(q + 1, k, unit); }
  }

  /** READs of whole lines round a pass up to whole groups of its packed rows. */
  lemma ReadsRoundUp(l: Layout, chunk: nat)
    requires l.packedRows >= 1 && l.ReadingsNonempty() && chunk >= Widest(LineGranules(l))
    ensures WholeLine(LineGranules(l))
    ensures var lines := l.lines + l.truncatedLinesFrame.first + l.truncatedLinesFrame.last;
            Sum(Reads(LineGranules(l), chunk, 0, l.TotalBytes()))
            == DivCeil(lines, l.packedRows) * LineGranules(l).line
  {
    var unit, lines := LineGranules(l).line, l.lines + l.truncatedLinesFrame.first + l.truncatedLinesFrame.last;
    LineIsWhole(l);
    EqualGranulesLand(unit, chunk, l.TotalBytes());
    Scale(lines, l.packedRows, l.BytesPerLine(), DivCeil(lines, l.packedRows));
    assert unit * DivCeil(l.TotalBytes(), unit) == DivCeil(l.TotalBytes(), unit) * unit;
    OneMultiple(l.TotalBytes(), unit, DivCeil(l.TotalBytes(), unit), DivCeil(lines, l.packedRows));
  }

  lemma Scale(lines: nat, rows: nat, bytes: nat, k: nat)
    requires bytes >= 1 && lines <= k * rows < lines + rows
    ensures bytes * lines <= k * (bytes * rows) < bytes * lines + bytes * rows
  {
    MulMono(lines, k * rows, bytes);
    MulMono(k * rows + 1, lines + rows, bytes);
    assert (k * rows) * bytes == k * (bytes * rows);
    assert (k * rows + 1) * bytes == (k * rows) * bytes + bytes;
    assert (lines + rows) * bytes == bytes * lines + bytes * rows;
  }

  /** A granule of one line of one color, as a unit that names the line bit alone reads it. */
  function ColorGranules(l: Layout, perColor: nat): Granules {
    MulMono(0, l.pixels, l.bytesPerSample);
    Every(Max(l.pixels * l.bytesPerSample + perColor, 1))
  }

  /**
   * Such a pass lands on its end exactly when its bytes are a whole number of
   * granules. Where the unit attaches `perColor` bytes to every reading, once and
   * not for each color, that is when what the other readouts are short of comes to
   * a whole number; where it attaches nothing, always.
   */
  lemma ColorPassLands(l: Layout, perColor: nat, chunk: nat)
    requires chunk >= Widest(ColorGranules(l, perColor))
    ensures WholeLine(ColorGranules(l, perColor))
    ensures Sum(Reads(ColorGranules(l, perColor), chunk, 0, l.TotalBytes())) == l.TotalBytes()
       <==> l.TotalBytes() % ColorGranules(l, perColor).line == 0
    ensures AttachesEach(l, perColor) && l.pixels * l.bytesPerSample > 0 ==>
              (l.TotalBytes() % ColorGranules(l, perColor).line == 0
               <==> Short(l, perColor) % ColorGranules(l, perColor).line == 0)
              && (perColor == 0 ==> l.TotalBytes() % ColorGranules(l, perColor).line == 0)
  {
    EqualGranulesLand(ColorGranules(l, perColor).line, chunk, l.TotalBytes());
    if AttachesEach(l, perColor) && l.pixels * l.bytesPerSample > 0 { ShortOfGranules(l, perColor); }
  }

  lemma ShortOfGranules(l: Layout, perColor: nat)
    requires AttachesEach(l, perColor) && l.pixels * l.bytesPerSample > 0
    ensures var unit := ColorGranules(l, perColor).line;
            && (l.TotalBytes() % unit == 0 <==> Short(l, perColor) % unit == 0)
            && (perColor == 0 ==> l.TotalBytes() % unit == 0)
  {
    var unit, readouts := ColorGranules(l, perColor).line, ReadoutsFrom(l, 0);
    var lines := l.lines + l.truncatedLinesFrame.first + l.truncatedLinesFrame.last;
    LineInGranules(l, perColor, 0);
    ShortOf(lines, readouts, unit, perColor * (readouts - l.Readings()));
    MulMono(0, lines, readouts);
    MultipleLess(lines * readouts, unit, Short(l, perColor), l.TotalBytes());
    if perColor == 0 {
      assert 0 * (readouts - l.Readings()) == 0 && lines * 0 == 0;
      DivModUnique(0, unit, 0, 0);
    }
  }

  /** Every reading has so many bytes attached to it. */
  ghost predicate AttachesEach(l: Layout, bytes: nat) {
    forall r :: 0 <= r < l.Readings() ==> l.BytesPerReading(r) == l.ReadingPayload(r) + bytes
  }

  /** Readouts of the readings `r..` of a line. */
  function ReadoutsFrom(l: Layout, r: nat): nat
    decreases l.Readings() - r
  {
    if r >= l.Readings() then 0 else l.ReadingReadouts(r) + ReadoutsFrom(l, r + 1)
  }

  /** By how much a pass is short of a granule for each of its readouts. */
  function Short(l: Layout, perColor: nat): int {
    (l.lines + l.truncatedLinesFrame.first + l.truncatedLinesFrame.last)
    * (perColor * (ReadoutsFrom(l, 0) - l.Readings()))
  }

  lemma {:induction false} LineInGranules(l: Layout, perColor: nat, r: nat)
    requires AttachesEach(l, perColor) && l.pixels * l.bytesPerSample > 0 && r <= l.Readings()
    ensures l.BytesFrom(r)
         == ReadoutsFrom(l, r) * ColorGranules(l, perColor).line
            - perColor * (ReadoutsFrom(l, r) - (l.Readings() - r))
    decreases l.Readings() - r
  {
    if r < l.Readings() {
      LineInGranules(l, perColor, r + 1);
      var bytes := l.pixels * l.bytesPerSample;
      OneReading(bytes, perColor, l.ReadingReadouts(r), ReadoutsFrom(l, r + 1), l.Readings() - r - 1);
    }
  }

  lemma OneReading(bytes: nat, perColor: nat, a: nat, b: nat, n: nat)
    ensures bytes * a + perColor + (b * (bytes + perColor) - perColor * (b - n))
         == (a + b) * (bytes + perColor) - perColor * (a + b - (n + 1))
  {
  }

  lemma ShortOf(lines: nat, readouts: nat, line: nat, short: int)
    ensures (readouts * line - short) * lines == lines * readouts * line - lines * short
  {
  }

  /** What a number is short of a multiple decides whether it is one. */
  lemma MultipleLess(q: nat, unit: nat, short: int, rest: int)
    requires unit >= 1 && rest == q * unit - short
    ensures rest % unit == 0 <==> short % unit == 0
  {
    FundamentalDivMod(rest, unit);
    FundamentalDivMod(short, unit);
    if rest % unit == 0 {
      assert short == (q - rest / unit) * unit;
      DivModUnique(short, unit, q - rest / unit, 0);
    }
    if short % unit == 0 {
      assert rest == (q - short / unit) * unit;
      DivModUnique(rest, unit, q - short / unit, 0);
    }
  }

  /** Packed rows do not enter it: where a group of them is longer, a READ may end between them. */
  lemma ColorReadsSplitRows(l: Layout, perColor: nat)
    requires l.packedRows >= 1 && l.TotalBytes() > 0
    requires ColorGranules(l, perColor).line < l.BytesPerLine() * l.packedRows
    ensures WholeLine(ColorGranules(l, perColor))
    ensures var unit := ColorGranules(l, perColor).line;
            Reads(ColorGranules(l, perColor), unit, 0, l.TotalBytes())[..1] == [unit]
  {
    var g := ColorGranules(l, perColor);
    EveryIsWhole(g.line);
    TakeIsRight(g, 0, l.TotalBytes(), g.line);
    assert TakeLengths(g, 0, l.TotalBytes(), g.line) == g.line;
  }

  /** What a layout's lengths are is no part of its line. */
  lemma {:induction false} LengthsAside(l: Layout, g: Granules, r: nat)
    ensures l.(granules := g).BytesFrom(r) == l.BytesFrom(r)
    decreases l.Readings() - r
  {
    if r < l.Readings() { LengthsAside(l, g, r + 1); }
  }
}
