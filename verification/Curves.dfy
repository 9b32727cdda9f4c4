/**
 * The remap of one CCD row onto the reference row, as a lookup table.
 *
 * `Mapped` says what one sample becomes, by a search of its own. `Table` fills
 * the whole table with a single cursor that only moves forward.
 */
module Curves {
  import opened Wrappers
  import opened Sequences
  import opened Arith
  import opened Layouts

  const LEVELS := 0x1_0000

  /** A row's curve has two points at least; both curves have the same number. */
  predicate Paired(from: seq<Sample>, onto: seq<Sample>) {
    |from| == |onto| >= 2
  }

  predicate Rising(curve: seq<Sample>) {
    forall i, j :: 0 <= i < j < |curve| ==> curve[i] < curve[j]
  }

  predicate NonDecreasing(curve: seq<Sample>) {
    forall i, j :: 0 <= i <= j < |curve| ==> curve[i] <= curve[j]
  }

  /** The segment a sample falls in, searching up from point `at`. */
  function Segment(from: seq<Sample>, sample: int, at: nat): (point: nat)
    requires at + 1 < |from|
    ensures at <= point < |from| - 1
    ensures forall i :: at < i <= point ==> from[i] <= sample
    ensures point + 2 < |from| ==> sample < from[point + 1]
    decreases |from| - at
  {
    if at + 2 < |from| && from[at + 1] <= sample then Segment(from, sample, at + 1) else at
  }

  /** Division that drops the fraction of either sign. */
  function TruncDiv(a: int, b: nat): int
    requires b > 0
  {
    if a >= 0 then a / b else -((-a) / b)
  }

  function Clamp16(v: int): Sample { Max(0, Min(v, 0xFFFF)) }

  /** How far a curve climbs from `point` to the next. */
  function Rise(curve: seq<Sample>, point: nat): int
    requires point + 1 < |curve|
  {
    curve[point + 1] as int - curve[point]
  }

  /** What `sample` becomes between points `point` and `point + 1`. */
  function Along(from: seq<Sample>, onto: seq<Sample>, sample: Sample, point: nat): Sample
    requires Paired(from, onto) && point + 1 < |from|
  {
    if Rise(from, point) <= 0 then sample
    else
      var along := SatSub(sample, from[point]);
      Clamp16(onto[point] + TruncDiv(along * Rise(onto, point), Rise(from, point)))
  }

  /** What one sample becomes, from a fresh search. */
  function Mapped(from: seq<Sample>, onto: seq<Sample>, sample: Sample): Sample
    requires Paired(from, onto)
  {
    if sample < from[0] then sample else Along(from, onto, sample, Segment(from, sample, 0))
  }

  /** A search may resume from where the search for a smaller sample stopped. */
  lemma {:induction false} SegmentResumes(from: seq<Sample>, smaller: int, sample: int, at: nat)
    requires at + 1 < |from| && smaller <= sample
    ensures Segment(from, sample, at) == Segment(from, sample, Segment(from, smaller, at))
    decreases |from| - at
  {
    if at + 2 < |from| && from[at + 1] <= smaller {
      SegmentResumes(from, smaller, sample, at + 1);
    }
  }

  /** One row's table, filled by one walk of the curve. */
  method Table(from: seq<Sample>, onto: seq<Sample>) returns (out: array<Sample>)
    requires Paired(from, onto)
    ensures fresh(out) && out.Length == LEVELS
    ensures forall s: Sample :: out[s] == Mapped(from, onto, s)
  {
    out := new Sample[LEVELS](_ => 0);
    var point: nat := 0;
    var sample := 0;
    while sample < LEVELS
      invariant 0 <= sample <= LEVELS && point + 1 < |from|
      invariant Segment(from, sample, 0) == Segment(from, sample, point)
      invariant forall s: Sample :: s < sample ==> out[s] == Mapped(from, onto, s)
    {
      ghost var start := point;
      while point + 2 < |from| && from[point + 1] <= sample
        invariant point + 1 < |from|
        invariant Segment(from, sample, start) == Segment(from, sample, point)
        decreases |from| - point
      {
        point := point + 1;
      }
      assert Segment(from, sample, 0) == point;
      out[sample] := if sample < from[0] then sample else Along(from, onto, sample, point);
      SegmentResumes(from, sample, sample + 1, 0);
      sample := sample + 1;
    }
  }

  /** On a nondecreasing curve the search finds the segment around the sample. */
  lemma SegmentSurrounds(from: seq<Sample>, sample: int, point: nat)
    requires |from| >= 2 && NonDecreasing(from) && from[0] <= sample
    requires point + 1 < |from|
    ensures Segment(from, sample, 0) == point <==>
            from[point] <= sample && (point + 2 < |from| ==> sample < from[point + 1])
  {
    var found := Segment(from, sample, 0);
    if from[point] <= sample && (point + 2 < |from| ==> sample < from[point + 1]) {
      assert point <= found;
    }
  }

  /** A row that reads like the reference is left alone, whatever its curve. */
  lemma ReferenceIsIdentity(curve: seq<Sample>, sample: Sample)
    requires |curve| >= 2
    ensures Mapped(curve, curve, sample) == sample
  {
    if sample >= curve[0] {
      var point := Segment(curve, sample, 0);
      var along, span := SatSub(sample, curve[point]), Rise(curve, point);
      if span > 0 {
        DivModUnique(along * span, span, along, 0);
      }
    }
  }

  /** On a rising curve every measured point lands on the reference's own reading. */
  lemma PointsMapToPoints(from: seq<Sample>, onto: seq<Sample>, k: nat)
    requires Paired(from, onto) && Rising(from) && k < |from|
    ensures Mapped(from, onto, from[k]) == onto[k]
  {
    var point := if k + 1 < |from| then k else k - 1;
    assert from[0] <= from[k] by { if 0 < k { assert from[0] < from[k]; } }
    assert NonDecreasing(from);
    SegmentSurrounds(from, from[k], point);
    var span, rise := Rise(from, point), Rise(onto, point);
    if k == point {
      assert 0 * rise == 0;
    } else {
      Exact(span, rise);
    }
  }

  lemma Exact(span: nat, rise: int)
    requires span > 0
    ensures TruncDiv(span * rise, span) == rise
  {
    if rise >= 0 {
      assert span * rise >= 0 by { MulMono(0, rise, span); }
      DivModUnique(span * rise, span, rise, 0);
    } else {
      assert span * rise < 0 by { MulMono(rise, -1, span); }
      assert -(span * rise) == (-rise) * span;
      DivModUnique(-(span * rise), span, -rise, 0);
    }
  }

  /** A rising segment maps larger samples no lower. */
  lemma AlongMonotone(from: seq<Sample>, onto: seq<Sample>, s: Sample, t: Sample, point: nat)
    requires Paired(from, onto) && Rising(from) && NonDecreasing(onto)
    requires point + 1 < |from| && from[point] <= s <= t
    ensures onto[point] <= Along(from, onto, s, point) <= Along(from, onto, t, point)
    ensures t <= from[point + 1] ==> Along(from, onto, t, point) <= onto[point + 1]
  {
    var lo, span, rise := from[point] as int, Rise(from, point), Rise(onto, point);
    MulMono(0, s - lo, rise);
    MulMono(s - lo, t - lo, rise);
    DivMono((s - lo) * rise, (t - lo) * rise, span);
    if t <= from[point + 1] {
      MulMono(t - lo, span, rise);
      DivMono((t - lo) * rise, span * rise, span);
      Exact(span, rise);
    }
  }

  /** Two samples at or above the first point keep their order. */
  lemma OrderKept(from: seq<Sample>, onto: seq<Sample>, s: Sample, t: Sample)
    requires Paired(from, onto) && Rising(from) && NonDecreasing(onto)
    requires from[0] <= s <= t
    ensures onto[0] <= Mapped(from, onto, s) <= Mapped(from, onto, t)
  {
    var p, q := Segment(from, s, 0), Segment(from, t, 0);
    SegmentResumes(from, s, t, 0);
    assert from[p] <= s;
    if p == q {
      AlongMonotone(from, onto, s, t, p);
    } else {
      AlongMonotone(from, onto, s, s, p);
      AlongMonotone(from, onto, t, t, q);
      assert onto[p + 1] <= onto[q];
    }
  }

  /**
   * The table never reverses two samples exactly when the reference's first
   * point is no lower than the last sample left alone below this row's own.
   */
  lemma TableMonotone(from: seq<Sample>, onto: seq<Sample>)
    requires Paired(from, onto) && Rising(from) && NonDecreasing(onto)
    ensures (forall s: Sample, t: Sample :: s <= t ==> Mapped(from, onto, s) <= Mapped(from, onto, t))
       <==> from[0] <= onto[0] as int + 1
  {
    if from[0] <= onto[0] as int + 1 {
      forall s: Sample, t: Sample | s <= t
        ensures Mapped(from, onto, s) <= Mapped(from, onto, t)
      {
        if from[0] <= s {
          OrderKept(from, onto, s, t);
        } else if from[0] <= t {
          OrderKept(from, onto, t, t);
        }
      }
    } else {
      PointsMapToPoints(from, onto, 0);
      var below: Sample := from[0] - 1;
      assert Mapped(from, onto, below) > Mapped(from, onto, from[0]);
    }
  }

  /** `climb` is to `rise` what `along` is to `span`, but for a fraction of one more toward it. */
  predicate InProportion(along: int, span: int, climb: int, rise: int) {
    && (rise >= 0 ==> climb * span <= along * rise < (climb + 1) * span)
    && (rise <= 0 ==> -climb * span <= along * -rise < (-climb + 1) * span)
  }

  /**
   * Between two points the curves are straight. With `k` the segment a sample
   * falls in, the sample maps as far along the reference's rise as it is along the
   * row's own, the fraction dropped toward the point it started at, and the ends of
   * the range hold whatever is past them. A sample below the first point, or on a
   * step that does not rise, is left alone.
   */
  lemma BetweenPoints(from: seq<Sample>, onto: seq<Sample>, s: Sample, k: nat) returns (m: int)
    requires |from| == |onto| >= 2 && k + 1 < |from|
    requires (forall i :: 0 < i <= k ==> from[i] <= s) && (k + 2 < |from| ==> s < from[k + 1])
    ensures Mapped(from, onto, s) == if m < 0 then 0 else if m > 0xFFFF then 0xFFFF else m
    ensures s < from[0] || from[k + 1] <= from[k] ==> m == s
    ensures s >= from[0] && from[k + 1] > from[k] ==>
              InProportion(Max(s as int - from[k], 0), from[k + 1] as int - from[k],
                           m - onto[k], onto[k + 1] as int - onto[k])
  {
    assert Segment(from, s, 0) == k;
    m := s;
    if s >= from[0] && Rise(from, k) > 0 {
      var along, span, rise := SatSub(s, from[k]), Rise(from, k), Rise(onto, k);
      var climb := TruncDiv(along * rise, span);
      m := onto[k] + climb;
      Quotient(along * rise, span, climb);
      Negated(along, rise);
      if rise >= 0 { MulMono(0, rise, along); }
      if rise <= 0 { MulMono(0, -rise, along); }
    }
  }

  // ----- above the last point

  /** No point of a curve is above `top`, and one is there. */
  predicate Top(curve: seq<Sample>, top: Sample) {
    top in curve && forall i :: 0 <= i < |curve| ==> curve[i] <= top
  }

  /**
   * The last segment, run on, passes within the step that is `sample` itself. A
   * fraction is dropped toward the level the segment starts at, the last sample is
   * also where everything beyond it is clamped to, and a flat step leaves alone
   * what is past it.
   */
  predicate RunsThrough(from: seq<Sample>, onto: seq<Sample>, sample: Sample)
    requires Paired(from, onto)
  {
    var point := |from| - 2;
    var lo, a, span, rise := from[point] as int, onto[point] as int, Rise(from, point), Rise(onto, point);
    || span <= 0
    || (rise >= 0 && (sample - a) * span <= (sample - lo) * rise
        && (sample == 0xFFFF || (sample - lo) * rise < (sample - a + 1) * span))
    || (rise < 0 && (a - sample) * span <= (sample - lo) * -rise < (a - sample + 1) * span)
  }

  /** Above every point a search ends in the last segment. */
  lemma LastSegment(from: seq<Sample>, top: Sample, s: Sample)
    requires |from| >= 2 && Top(from, top) && top < s
    ensures Segment(from, s, 0) == |from| - 2 && from[0] < s && from[|from| - 2] < s
  {
  }

  /** A sample above every point is left alone exactly when the last segment runs through it. */
  lemma LeftAloneAt(from: seq<Sample>, onto: seq<Sample>, top: Sample, s: Sample)
    requires Paired(from, onto) && Top(from, top) && top < s
    ensures Mapped(from, onto, s) == s <==> RunsThrough(from, onto, s)
  {
    LastSegment(from, top, s);
    var point := |from| - 2;
    var along, a, span, rise := s - from[point] as int, onto[point] as int, Rise(from, point), Rise(onto, point);
    if span > 0 {
      StepsTo(along, a, span, rise, s);
    }
  }

  /** Where on the way a sample is reached, the clamp at the top included. */
  lemma StepsTo(along: int, a: nat, span: nat, rise: int, s: Sample)
    requires along > 0 && span > 0 && s > 0 && a <= 0xFFFF
    ensures Clamp16(a + TruncDiv(along * rise, span)) == s <==>
              || (rise >= 0 && (s - a) * span <= along * rise && (s == 0xFFFF || along * rise < (s - a + 1) * span))
              || (rise < 0 && (a - s) * span <= along * -rise < (a - s + 1) * span)
  {
    Quotient(along * rise, span, s - a);
    Negated(along, rise);
    if rise >= 0 {
      MulMono(0, along, rise);
    } else {
      MulMono(0, along, -rise);
      Downward(along * rise, span);
    }
  }

  lemma Downward(num: int, span: nat)
    requires span > 0 && num <= 0
    ensures TruncDiv(num, span) <= 0
  {
    DivMono(0, -num, span);
    if num == 0 { DivModUnique(0, span, 0, 0); }
  }

  lemma Negated(a: int, b: int)
    ensures a * -b == -(a * b)
  {
  }

  /** Which quotients drop to `q`, of either sign, and which to `q` at least. */
  lemma Quotient(num: int, span: nat, q: int)
    requires span > 0
    ensures num >= 0 ==> (TruncDiv(num, span) == q <==> q * span <= num < (q + 1) * span)
    ensures num >= 0 ==> (TruncDiv(num, span) >= q <==> q * span <= num)
    ensures num <= 0 ==> (TruncDiv(num, span) == q <==> -q * span <= -num < (-q + 1) * span)
  {
    if num >= 0 {
      QuotientUp(num, span, q);
      QuotientUp(num, span, q + 1);
    }
    if num <= 0 {
      QuotientUp(-num, span, -q);
      QuotientUp(-num, span, -q + 1);
      if num == 0 { DivModUnique(0, span, 0, 0); }
    }
  }

  lemma QuotientUp(num: nat, span: nat, q: int)
    requires span > 0
    ensures num / span >= q <==> q * span <= num
  {
    FundamentalDivMod(num, span);
    var r := num / span;
    assert span * r == r * span;
    if r >= q {
      MulMono(q, r, span);
    } else {
      MulMono(r + 1, q, span);
      assert (r + 1) * span == r * span + span;
    }
  }

  /**
   * Every sample above the last point is left alone exactly when the first of
   * them is and the last two are, the line being straight and the clamp at the end.
   */
  lemma LeftAloneAbove(from: seq<Sample>, onto: seq<Sample>, top: Sample)
    requires Paired(from, onto) && Top(from, top)
    ensures (forall s: Sample :: top < s ==> Mapped(from, onto, s) == s)
       <==> (forall s: Sample :: top < s && (s == top + 1 || s >= 0xFFFE) ==> RunsThrough(from, onto, s))
  {
    if forall s: Sample :: top < s && (s == top + 1 || s >= 0xFFFE) ==> RunsThrough(from, onto, s) {
      forall s: Sample | top < s ensures Mapped(from, onto, s) == s {
        LeftAloneAt(from, onto, top, s);
        if top + 1 < s < 0xFFFE {
          RunsBetween(from, onto, top + 1, s);
        }
      }
    }
    if forall s: Sample :: top < s ==> Mapped(from, onto, s) == s {
      forall s: Sample | top < s && (s == top + 1 || s >= 0xFFFE) ensures RunsThrough(from, onto, s) {
        LeftAloneAt(from, onto, top, s);
      }
    }
  }

  /** A segment that runs through a sample and the one before the last runs through those between. */
  lemma RunsBetween(from: seq<Sample>, onto: seq<Sample>, first: Sample, s: Sample)
    requires Paired(from, onto) && first < s < 0xFFFE
    requires RunsThrough(from, onto, first) && RunsThrough(from, onto, 0xFFFE)
    ensures RunsThrough(from, onto, s)
  {
    var point := |from| - 2;
    var lo, a, span, rise := from[point] as int, onto[point] as int, Rise(from, point), Rise(onto, point);
    if span > 0 {
      Straight(rise - span, a * span - lo * rise, first, s, 0xFFFE);
      Over(first, lo, a, span, rise);
      Over(s, lo, a, span, rise);
      Over(0xFFFE, lo, a, span, rise);
    }
  }

  /** How far past its own step a segment is at a sample. */
  lemma Over(s: int, lo: int, a: int, span: int, rise: int)
    ensures (s - lo) * rise - (s - a) * span == (rise - span) * s + (a * span - lo * rise)
    ensures (s - lo) * -rise - (a - s) * span == -((rise - span) * s + (a * span - lo * rise))
    ensures (s - a + 1) * span == (s - a) * span + span
    ensures (a - s + 1) * span == (a - s) * span + span
  {
  }

  /** A line between two places is between what it is at them. */
  lemma Straight(m: int, c: int, x: int, y: int, z: int)
    requires x <= y <= z
    ensures Min(m * x + c, m * z + c) <= m * y + c <= Max(m * x + c, m * z + c)
  {
    if m >= 0 {
      MulMono(x, y, m);
      MulMono(y, z, m);
    } else {
      MulMono(x, y, -m);
      MulMono(y, z, -m);
    }
  }

  /** A curve that is not left alone above its last point, or anywhere above it. */
  lemma AboveTheCurve()
    ensures Mapped([0, 10], [0, 20], 20) == 40
    ensures forall s: Sample :: 10 < s < 0xFFFF ==> Mapped([0, 10], [0, 20], s) != s
  {
    assert Segment([0, 10], 20, 0) == 0;
    assert TruncDiv(20 * 20, 10) == 40;
    forall s: Sample | 10 < s < 0xFFFF ensures Mapped([0, 10], [0, 20], s) != s {
      LeftAloneAt([0, 10], [0, 20], 10, s);
    }
  }

  /** What the page about the curves says of a reply. */
  datatype CcdMeasurement = CcdMeasurement(points: nat, types: nat)

  /** A table per CCD row. */
  datatype Curves = Curves(rows: seq<seq<Sample>>) {
    /** A row no table covers is passed through. */
    function Correct(row: nat, sample: Sample): Sample {
      if row < |rows| && sample < |rows[row]| then rows[row][sample] else sample
    }
  }

  predicate Fits(ccd: CcdMeasurement, words: seq<Sample>, rows: nat, kind: nat) {
    ccd.points >= 2 && rows != 0 && kind < ccd.types && |words| >= rows * ccd.types * ccd.points
  }

  lemma CurveInside(ccd: CcdMeasurement, rows: nat, kind: nat, row: nat)
    requires row < rows && kind < ccd.types
    ensures 0 <= (row * ccd.types + kind) * ccd.points
    ensures (row * ccd.types + kind) * ccd.points + ccd.points <= rows * ccd.types * ccd.points
  {
    DigitBound(row, kind, rows, ccd.types);
    MulMono(0, row * ccd.types + kind, ccd.points);
    MulMono(row * ccd.types + kind + 1, rows * ccd.types, ccd.points);
    assert (row * ccd.types + kind + 1) * ccd.points == (row * ccd.types + kind) * ccd.points + ccd.points;
  }

  /** The curve of `row` in a reply laid out by row, then type, then point. */
  function Curve(ccd: CcdMeasurement, words: seq<Sample>, rows: nat, kind: nat, row: nat): (c: seq<Sample>)
    requires Fits(ccd, words, rows, kind) && row < rows
    ensures |c| == ccd.points
  {
    CurveInside(ccd, rows, kind, row);
    var at := (row * ccd.types + kind) * ccd.points;
    words[at..at + ccd.points]
  }

  /** The words of a reply: its rows, of its types, of their points. */
  function Reply(curves: seq<seq<seq<Sample>>>): seq<Sample> { Flatten(Flatten(curves)) }

  /** The curve of a row and type is the one the unit put there, whatever follows the reply. */
  lemma CurveOfReply(ccd: CcdMeasurement, curves: seq<seq<seq<Sample>>>, more: seq<Sample>, kind: nat, row: nat)
    requires ccd.points >= 2 && kind < ccd.types && row < |curves|
    requires Even(curves, ccd.types) && forall r :: 0 <= r < |curves| ==> Even(curves[r], ccd.points)
    ensures Fits(ccd, Reply(curves) + more, |curves|, kind)
    ensures Curve(ccd, Reply(curves) + more, |curves|, kind, row) == curves[row][kind]
  {
    ReplyInTurn(ccd.points, ccd.types, curves, kind, row);
    CurveInside(ccd, |curves|, kind, row);
    var at := (row * ccd.types + kind) * ccd.points;
    assert (Reply(curves) + more)[at..at + ccd.points] == Reply(curves)[at..at + ccd.points];
  }

  lemma ReplyInTurn(points: nat, types: nat, curves: seq<seq<seq<Sample>>>, kind: nat, row: nat)
    requires kind < types && row < |curves|
    requires Even(curves, types) && forall r :: 0 <= r < |curves| ==> Even(curves[r], points)
    ensures |Reply(curves)| == |curves| * types * points
    ensures 0 <= (row * types + kind) * points
    ensures (row * types + kind) * points + points <= |Reply(curves)|
    ensures Reply(curves)[(row * types + kind) * points..(row * types + kind) * points + points] == curves[row][kind]
  {
    FlattenLength(curves, types);
    FlattenEven(curves, types, points);
    FlattenAt(curves, types, row, kind);
    PartAt(Flatten(curves), points, row * types + kind);
  }

  /** Build the tables, or nothing where the reply and its page disagree. */
  method Parse(ccd: CcdMeasurement, words: seq<Sample>, rows: nat, kind: nat) returns (r: Option<Curves>)
    ensures r.Some? <==> Fits(ccd, words, rows, kind)
    ensures r.Some? ==> |r.value.rows| == rows
    ensures r.Some? ==> forall row: nat, s: Sample :: row < rows ==>
              r.value.Correct(row, s)
              == Mapped(Curve(ccd, words, rows, kind, row), Curve(ccd, words, rows, kind, rows / 2), s)
    ensures r.Some? ==> forall row: nat, s: Sample :: row >= rows || row == rows / 2 ==> r.value.Correct(row, s) == s
  {
    if ccd.points < 2 || rows == 0 || kind >= ccd.types || |words| < rows * ccd.types * ccd.points {
      return None;
    }
    var reference := Curve(ccd, words, rows, kind, rows / 2);
    var tables: seq<seq<Sample>> := [];
    while |tables| < rows
      invariant |tables| <= rows
      invariant forall row: nat :: row < |tables| ==> |tables[row]| == LEVELS
      invariant forall row: nat, s: Sample :: row < |tables| ==>
                  tables[row][s] == Mapped(Curve(ccd, words, rows, kind, row), reference, s)
      decreases rows - |tables|
    {
      var table := Table(Curve(ccd, words, rows, kind, |tables|), reference);
      tables := tables + [table[..]];
    }
    r := Some(Curves(tables));
    forall s: Sample ensures r.value.Correct(rows / 2, s) == s {
      ReferenceIsIdentity(reference, s);
    }
  }
}
