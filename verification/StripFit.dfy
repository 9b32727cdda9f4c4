/**
 * Finding the frames of a strip in its thumbnail: the film with pictures on it,
 * and then the one first gap and one pitch that read most like frames along it.
 */
module StripFit {
  import opened Wrappers
  import opened Arith
  import opened Ranks

  /** Columns either side of a gap that count as it. */
  const REACH: nat := 2
  /** The fewest columns of picture a frame may have. */
  const PICTURE: nat := 8
  /** The pitch to search, in twentieths of the format. */
  const PITCH_FIRST: nat := 18
  const PITCH_LAST: nat := 31
  const AGREEMENT: real := 2.0
  const TOLERANCE: real := 0.15

  datatype Span = Span(start: nat, end: nat) {
    function Len(): nat { SatSub(end, start) }
  }

  // ----- the detail of a pass, and its running totals

  datatype Detail = Detail(at: seq<real>, upto: seq<real>, level: seq<real>, flattest: seq<nat>)

  function Sum(at: seq<real>, a: nat, b: nat): real
    requires a <= b <= |at|
  {
    if a == b then 0.0 else Sum(at, a, b - 1) + at[b - 1]
  }

  lemma {:induction false} SumSplit(at: seq<real>, a: nat, b: nat, c: nat)
    requires a <= b <= c <= |at|
    ensures Sum(at, a, c) == Sum(at, a, b) + Sum(at, b, c)
    decreases c
  {
    if b < c { SumSplit(at, a, b, c - 1); }
  }

  /** `f` is the first of the flattest columns within reach of `x`. */
  predicate FlattestNear(at: seq<real>, x: nat, f: nat) {
    && f < |at| && x - REACH <= f <= x + REACH
    && forall j :: 0 <= j < |at| && x - REACH <= j <= x + REACH ==> at[f] <= at[j] && (j < f ==> at[f] < at[j])
  }

  /** Running totals and flattest columns that are those of the detail. */
  predicate Measured(d: Detail) {
    && |d.upto| == |d.at| + 1 && |d.flattest| == |d.at| == |d.level|
    && (forall i :: 0 <= i <= |d.at| ==> d.upto[i] == Sum(d.at, 0, i))
    && forall x :: 0 <= x < |d.at| ==> FlattestNear(d.at, x, d.flattest[x])
  }

  method Measure(at: seq<real>, level: seq<real>) returns (d: Detail)
    requires |at| == |level|
    ensures Measured(d) && d.at == at && d.level == level
  {
    var upto := [0.0];
    for i := 0 to |at|
      invariant |upto| == i + 1
      invariant forall k :: 0 <= k <= i ==> upto[k] == Sum(at, 0, k)
    {
      upto := upto + [upto[|upto| - 1] + at[i]];
    }
    var flattest: seq<nat> := [];
    for x := 0 to |at|
      invariant |flattest| == x
      invariant forall k :: 0 <= k < x ==> FlattestNear(at, k, flattest[k])
    {
      var f := Flattest(at, x);
      flattest := flattest + [f];
    }
    d := Detail(at, upto, level, flattest);
  }

  /** The flattest column within reach of one, the first where two are as flat. */
  method Flattest(at: seq<real>, x: nat) returns (f: nat)
    requires x < |at|
    ensures FlattestNear(at, x, f)
  {
    var end := Min(x + REACH + 1, |at|);
    var start := Min(SatSub(x, REACH), SatSub(end, 1));
    f := start;
    for j := start + 1 to end
      invariant start <= f < j && f < end
      invariant forall k :: start <= k < j ==> at[f] <= at[k] && (k < f ==> at[f] < at[k])
    {
      if at[j] < at[f] {
        f := j;
      }
    }
  }

  /** The average over a stretch of columns, 0 where there is none. */
  function Average(at: seq<real>, span: Span): real {
    var end := Min(span.end, |at|);
    if span.start >= end then 0.0 else Sum(at, span.start, end) / (end - span.start) as real
  }

  /** The same, off the running totals. */
  function Mean(d: Detail, span: Span): (m: real)
    requires Measured(d)
    ensures m == Average(d.at, span)
  {
    var end := Min(span.end, |d.at|);
    if span.start >= end then 0.0
    else (
      SumSplit(d.at, 0, span.start, end);
      (d.upto[end] - d.upto[span.start]) / (end - span.start) as real
    )
  }

  /** The flattest column within reach of where a gap is asked for. */
  function GapAt(d: Detail, x: nat): (g: nat)
    requires Measured(d) && d.at != []
    ensures FlattestNear(d.at, Min(x, |d.at| - 1), g)
  {
    d.flattest[Min(x, |d.flattest| - 1)]
  }

  // ----- the film with pictures on it

  function Quantile(v: seq<real>, percent: nat): real
    requires v != []
  {
    Kth(v, Min(|v| * percent / 100, |v| - 1))
  }

  /** Above this a column is picture, and not bare film. */
  function PictureLevel(at: seq<real>): real
    requires at != []
  {
    Quantile(at, 10) + (Quantile(at, 90) - Quantile(at, 10)) * TOLERANCE
  }

  /**
   * The runs of picture among the first `n` columns: each begins and ends on a
   * column of picture and holds no flat stretch longer than `close`; between two
   * is a longer one; and between them they hold every column of picture.
   */
  predicate Runs(at: seq<real>, level: real, close: nat, n: nat, runs: seq<Span>) {
    && n <= |at|
    && (forall i :: 0 <= i < |runs| ==> Run(at, level, close, n, runs[i]))
    && Apart(runs, close)
    && (forall x {:trigger Covered(runs, x)} :: 0 <= x < n && at[x] > level ==> Covered(runs, x))
  }

  /** Runs in order, with more than `close` columns between one and the next. */
  predicate Apart(runs: seq<Span>, close: nat) {
    forall i, j :: 0 <= i < j < |runs| ==> runs[i].end + close < runs[j].start
  }

  lemma ApartOneMore(runs: seq<Span>, close: nat, run: Span)
    requires Apart(runs, close)
    requires runs != [] ==> runs[|runs| - 1].start < runs[|runs| - 1].end && runs[|runs| - 1].end + close < run.start
    ensures Apart(runs + [run], close)
  {
    forall i | 0 <= i < |runs| ensures runs[i].end + close < run.start {
      assert i < |runs| - 1 ==> runs[i].end + close < runs[|runs| - 1].start;
    }
  }

  predicate Run(at: seq<real>, level: real, close: nat, n: nat, run: Span) {
    && run.start < run.end <= n <= |at| && at[run.start] > level && at[run.end - 1] > level
    && Unbroken(at, level, close, run)
  }

  predicate Covered(runs: seq<Span>, x: nat) {
    exists i :: 0 <= i < |runs| && runs[i].start <= x < runs[i].end
  }

  /** A run with no stretch of more than `close` columns without picture. */
  predicate Unbroken(at: seq<real>, level: real, close: nat, run: Span) {
    run.end <= |at|
    && forall a: nat :: run.start <= a && a + close < run.end ==> Picturesque(at, level, a, close)
  }

  /** Some column of `a..=a + close` is picture. */
  predicate Picturesque(at: seq<real>, level: real, a: nat, close: nat) {
    exists x :: a <= x <= a + close && x < |at| && at[x] > level
  }

  method FindRuns(at: seq<real>, level: real, close: nat) returns (runs: seq<Span>)
    ensures Runs(at, level, close, |at|, runs)
  {
    runs := [];
    var x := 0;
    while x < |at|
      invariant x <= |at| && Runs(at, level, close, x, runs)
    {
      if at[x] <= level {
        BareColumn(at, level, close, runs, x);
        x := x + 1;
        continue;
      }
      var first := x;
      while x + 1 < |at| && at[x + 1] > level
        invariant first <= x < |at| && forall y :: first <= y <= x ==> at[y] > level
      {
        x := x + 1;
      }
      var n := |runs|;
      if n > 0 && first - runs[n - 1].end <= close {
        Lengthened(at, level, close, runs, first, x + 1);
        runs := runs[n - 1 := Span(runs[n - 1].start, x + 1)];
      } else {
        AllPicture(at, level, close, first, x + 1);
        OneMoreRun(at, level, close, runs, Span(first, x + 1));
        runs := runs + [Span(first, x + 1)];
      }
      x := x + 1;
    }
  }

  lemma AllPicture(at: seq<real>, level: real, close: nat, first: nat, end: nat)
    requires first < end <= |at| && forall y :: first <= y < end ==> at[y] > level
    ensures Unbroken(at, level, close, Span(first, end))
  {
    forall a: nat | first <= a && a + close < end ensures Picturesque(at, level, a, close) {
      assert at[a] > level;
    }
  }

  lemma Merged(at: seq<real>, level: real, close: nat, last: Span, first: nat, end: nat)
    requires last.start < last.end <= first < end <= |at| && first - last.end <= close
    requires at[last.end - 1] > level && forall y :: first <= y < end ==> at[y] > level
    requires Unbroken(at, level, close, last)
    ensures Unbroken(at, level, close, Span(last.start, end))
  {
    forall a: nat | last.start <= a && a + close < end ensures Picturesque(at, level, a, close) {
      if a + close < last.end {
        assert Picturesque(at, level, a, close);
      } else {
        var y := if a < last.end then last.end - 1 else if a < first then first else a;
        assert at[y] > level;
      }
    }
  }

  /** What lengthening the last run by one more stretch of picture leaves. */
  lemma LastRunGrows(at: seq<real>, level: real, close: nat, before: seq<Span>, after: seq<Span>, first: nat, end: nat)
    requires Runs(at, level, close, first, before) && before != [] && first < end <= |at|
    requires after == before[|before| - 1 := Span(before[|before| - 1].start, end)]
    requires Run(at, level, close, end, after[|after| - 1])
    ensures Runs(at, level, close, end, after)
  {
    forall i | 0 <= i < |after| ensures Run(at, level, close, end, after[i]) {
      if i < |after| - 1 { assert Run(at, level, close, first, before[i]); }
    }
    assert Apart(after, close);
    forall x | 0 <= x < end && at[x] > level ensures Covered(after, x) {
      if x < first {
        assert Covered(before, x);
        var i :| 0 <= i < |before| && before[i].start <= x < before[i].end;
        assert after[i].start <= x < after[i].end;
      } else {
        var last := |after| - 1;
        assert Run(at, level, close, first, before[last]);
        assert after[last].start <= x < after[last].end;
      }
    }
  }

  lemma Lengthened(at: seq<real>, level: real, close: nat, runs: seq<Span>, first: nat, end: nat)
    requires Runs(at, level, close, first, runs) && runs != [] && first < end <= |at|
    requires first - runs[|runs| - 1].end <= close && forall y :: first <= y < end ==> at[y] > level
    ensures Runs(at, level, close, end, runs[|runs| - 1 := Span(runs[|runs| - 1].start, end)])
  {
    var last := runs[|runs| - 1];
    assert Run(at, level, close, first, last);
    Merged(at, level, close, last, first, end);
    LastRunGrows(at, level, close, runs, runs[|runs| - 1 := Span(last.start, end)], first, end);
  }

  /** And what one more run does. */
  lemma OneMoreRun(at: seq<real>, level: real, close: nat, before: seq<Span>, run: Span)
    requires Runs(at, level, close, run.start, before)
    requires before != [] ==> before[|before| - 1].end + close < run.start
    requires Run(at, level, close, run.end, run)
    ensures Runs(at, level, close, run.end, before + [run])
  {
    var after := before + [run];
    forall i | 0 <= i < |after| ensures Run(at, level, close, run.end, after[i]) {
      if i < |before| { assert Run(at, level, close, run.start, before[i]); }
    }
    if before != [] { assert Run(at, level, close, run.start, before[|before| - 1]); }
    ApartOneMore(before, close, run);
    forall x | 0 <= x < run.end && at[x] > level ensures Covered(after, x) {
      if x < run.start {
        assert Covered(before, x);
        var i :| 0 <= i < |before| && before[i].start <= x < before[i].end;
        assert after[i].start <= x < after[i].end;
      } else {
        assert after[|before|].start <= x < after[|before|].end;
      }
    }
  }

  /** A column of bare film changes nothing. */
  lemma BareColumn(at: seq<real>, level: real, close: nat, runs: seq<Span>, x: nat)
    requires Runs(at, level, close, x, runs) && x < |at| && at[x] <= level
    ensures Runs(at, level, close, x + 1, runs)
  {
    forall i | 0 <= i < |runs| ensures Run(at, level, close, x + 1, runs[i]) {
      assert Run(at, level, close, x, runs[i]);
    }
  }

  /** The runs long enough to be a frame's. */
  function Kept(runs: seq<Span>, least: nat): (kept: seq<Span>)
    ensures forall r :: r in kept <==> r in runs && r.Len() >= least
  {
    if runs == [] then []
    else (
      assert runs == [runs[0]] + runs[1..];
      (if runs[0].Len() >= least then [runs[0]] else []) + Kept(runs[1..], least)
    )
  }

  /** From the first run kept to the end of the last: whatever is between them is film too. */
  function Hull(runs: seq<Span>, least: nat): Span {
    var kept := Kept(runs, least);
    if kept == [] then Span(0, 0) else Span(kept[0].start, kept[|kept| - 1].end)
  }

  /** Runs in order along the film. */
  predicate InOrder(runs: seq<Span>) {
    && (forall i :: 0 <= i < |runs| ==> runs[i].start < runs[i].end)
    && (forall i, j :: 0 <= i < j < |runs| ==> runs[i].end < runs[j].start)
  }

  lemma {:induction false} KeptInOrder(runs: seq<Span>, least: nat)
    requires InOrder(runs)
    ensures InOrder(Kept(runs, least))
  {
    if runs != [] {
      var rest := runs[1..];
      assert InOrder(rest) && forall j :: 0 <= j < |rest| ==> runs[0].end < rest[j].start;
      KeptInOrder(rest, least);
      var kept := Kept(rest, least);
      forall j | 0 <= j < |kept| ensures runs[0].end < kept[j].start {
        assert kept[j] in rest;
      }
      InOrderAfter(runs[0], kept);
    }
  }

  lemma InOrderAfter(first: Span, rest: seq<Span>)
    requires InOrder(rest) && first.start < first.end
    requires forall j :: 0 <= j < |rest| ==> first.end < rest[j].start
    ensures InOrder([first] + rest) && InOrder([] + rest)
  {
  }

  lemma RunsInOrder(at: seq<real>, level: real, close: nat, runs: seq<Span>)
    requires Runs(at, level, close, |at|, runs)
    ensures InOrder(runs)
  {
    forall i | 0 <= i < |runs| ensures runs[i].start < runs[i].end {
      assert Run(at, level, close, |at|, runs[i]);
    }
  }

  /**
   * The film begins and ends on picture, spans every run long enough to be a
   * frame's, and is at least as long as one. There is none where no run is.
   */
  lemma HullHoldsTheFilm(at: seq<real>, level: real, close: nat, runs: seq<Span>, least: nat)
    requires Runs(at, level, close, |at|, runs) && least >= 1
    ensures var film := Hull(runs, least);
            && film.start <= film.end <= |at|
            && (film.Len() == 0 <==> forall r :: r in runs ==> r.Len() < least)
            && (film.Len() > 0 ==> film.Len() >= least && at[film.start] > level && at[film.end - 1] > level)
            && (forall r :: r in runs && r.Len() >= least ==> film.start <= r.start && r.end <= film.end)
  {
    var film, kept := Hull(runs, least), Kept(runs, least);
    RunsInOrder(at, level, close, runs);
    KeptInOrder(runs, least);
    HullSpans(kept);
    if kept == [] {
      assert forall r :: r in runs ==> r !in kept;
    } else {
      assert kept[0] in kept && kept[|kept| - 1] in kept;
      assert kept[0] in runs && kept[0].Len() >= least;
      RunOf(at, level, close, runs, kept[0]);
      RunOf(at, level, close, runs, kept[|kept| - 1]);
    }
    forall r | r in runs && r.Len() >= least ensures film.start <= r.start && r.end <= film.end {
      assert r in kept;
    }
  }

  /** A column of picture that the film leaves out is in a run too short to be a frame's. */
  lemma LeftOutIsShort(at: seq<real>, level: real, close: nat, runs: seq<Span>, least: nat, x: nat)
    requires Runs(at, level, close, |at|, runs) && least >= 1
    requires x < |at| && at[x] > level && !(Hull(runs, least).start <= x < Hull(runs, least).end)
    ensures exists r :: r in runs && r.start <= x < r.end && r.Len() < least
  {
    HullHoldsTheFilm(at, level, close, runs, least);
    assert Covered(runs, x);
    var i :| 0 <= i < |runs| && runs[i].start <= x < runs[i].end;
    assert runs[i] in runs;
  }

  lemma RunOf(at: seq<real>, level: real, close: nat, runs: seq<Span>, r: Span)
    requires Runs(at, level, close, |at|, runs) && r in runs
    ensures Run(at, level, close, |at|, r)
  {
    var i :| 0 <= i < |runs| && runs[i] == r;
  }

  /** The first start and the last end of runs in order hold all of them between them. */
  lemma HullSpans(kept: seq<Span>)
    requires InOrder(kept)
    ensures forall r :: r in kept ==> kept[0].start <= r.start < r.end <= kept[|kept| - 1].end
  {
    forall r | r in kept ensures kept[0].start <= r.start < r.end <= kept[|kept| - 1].end {
      var k :| 0 <= k < |kept| && kept[k] == r;
    }
  }

  /** The longest flat stretch that is inside one picture, and the least run that is a frame's. */
  function Close(length: nat): (n: nat)
    ensures 10 * n <= 7 * length < 10 * n + 10
  {
    length * 70 / 100
  }

  function Least(length: nat): (n: nat)
    ensures n >= 1 && length < 2 * n + 2 && (n > 1 ==> 2 * n <= length)
  {
    Max(length * 50 / 100, 1)
  }

  ghost predicate IsFilm(at: seq<real>, length: nat, film: Span)
    requires at != []
  {
    exists runs: seq<Span> :: Runs(at, PictureLevel(at), Close(length), |at|, runs) && film == Hull(runs, Least(length))
  }

  method Film(at: seq<real>, length: nat) returns (film: Span)
    requires at != []
    ensures IsFilm(at, length, film)
  {
    var runs := FindRuns(at, PictureLevel(at), Close(length));
    film := Hull(runs, Least(length));
  }

  lemma FilmIsInside(at: seq<real>, length: nat, film: Span)
    requires at != [] && IsFilm(at, length, film)
    ensures film.start <= film.end <= |at|
  {
    var runs: seq<Span> :| Runs(at, PictureLevel(at), Close(length), |at|, runs) && film == Hull(runs, Least(length));
    HullHoldsTheFilm(at, PictureLevel(at), Close(length), runs, Least(length));
  }

  /** A pass that reads the same from end to end has no film in it. */
  lemma FlatPassHasNoFilm(at: seq<real>, length: nat, film: Span)
    requires at != [] && IsFilm(at, length, film)
    requires forall x :: 0 <= x < |at| ==> at[x] == at[0]
    ensures film.Len() == 0
  {
    var runs: seq<Span> :| Runs(at, PictureLevel(at), Close(length), |at|, runs) && film == Hull(runs, Least(length));
    assert PictureLevel(at) == at[0];
    assert runs == [];
  }

  // ----- how well a fit reads as frames

  /** The picture between gap `k` and the next, clear of both. */
  function Picture(first: nat, pitch: nat, k: nat): Span {
    MulMono(0, k, pitch);
    var gap := first + k * pitch;
    Span(gap + REACH + 1, SatSub(gap + pitch, REACH))
  }

  /** The detail in the first `n` pictures. */
  function PictureSum(at: seq<real>, first: nat, pitch: nat, n: nat): real {
    if n == 0 then 0.0 else PictureSum(at, first, pitch, n - 1) + Average(at, Picture(first, pitch, n - 1))
  }

  /** Where gap `k` is taken to be. */
  function GapOf(d: Detail, first: nat, pitch: nat, k: nat): (g: nat)
    requires Measured(d) && d.at != []
    ensures g < |d.at|
  {
    MulMono(0, k, pitch);
    GapAt(d, first + k * pitch)
  }

  function GapSum(d: Detail, first: nat, pitch: nat, n: nat): real
    requires Measured(d) && d.at != []
  {
    if n == 0 then 0.0 else GapSum(d, first, pitch, n - 1) + d.at[GapOf(d, first, pitch, n - 1)]
  }

  /** The levels of the first `n` gaps. */
  function GapLevels(d: Detail, first: nat, pitch: nat, n: nat): (levels: seq<real>)
    requires Measured(d) && d.at != []
    ensures |levels| == n
  {
    seq(n, k requires 0 <= k < n => d.level[GapOf(d, first, pitch, k)])
  }

  /** Totals over so many pictures and one gap more, as one number. */
  function Weighed(pictures: real, gaps: real, spread: real, frames: nat): real
    requires frames >= 1
  {
    pictures / frames as real - gaps / (frames + 1) as real - AGREEMENT * spread
  }

  /** Detail in the pictures, less detail in the gaps, less how much the gaps disagree. */
  function Score(d: Detail, first: nat, pitch: nat, frames: nat): real
    requires Measured(d) && d.at != [] && frames >= 1
  {
    Weighed(PictureSum(d.at, first, pitch, frames), GapSum(d, first, pitch, frames + 1),
            Spread(GapLevels(d, first, pitch, frames + 1)), frames)
  }

  /** The pictures of a fit are each as much more detailed in `e` as `p` says. */
  ghost predicate PicturesBy(d: Detail, e: Detail, first: nat, pitch: nat, frames: nat, p: real) {
    forall k :: 0 <= k < frames ==>
      Average(e.at, Picture(first, pitch, k)) == Average(d.at, Picture(first, pitch, k)) + p
  }

  ghost predicate GapsBy(d: Detail, e: Detail, first: nat, pitch: nat, gaps: nat, g: real)
    requires Measured(d) && d.at != [] && Measured(e) && e.at != []
  {
    forall k :: 0 <= k < gaps ==> e.at[GapOf(e, first, pitch, k)] == d.at[GapOf(d, first, pitch, k)] + g
  }

  /**
   * Detail in every picture raises a score by as much, detail in every gap lowers it
   * by as much, and a disagreement of the gaps lowers it by twice as much, however
   * many frames there are.
   */
  lemma {:induction false} ScoreMoves(d: Detail, e: Detail, first: nat, pitch: nat, frames: nat, p: real, g: real)
    requires Measured(d) && d.at != [] && Measured(e) && e.at != [] && frames >= 1
    requires PicturesBy(d, e, first, pitch, frames, p) && GapsBy(d, e, first, pitch, frames + 1, g)
    ensures Score(e, first, pitch, frames)
         == Score(d, first, pitch, frames) + p - g
            - 2.0 * (Spread(GapLevels(e, first, pitch, frames + 1)) - Spread(GapLevels(d, first, pitch, frames + 1)))
  {
    PicturesMove(d, e, first, pitch, frames, frames, p);
    GapsMove(d, e, first, pitch, frames + 1, frames + 1, g);
    TotalsMove(d, e, first, pitch, frames, p, g);
  }

  lemma {:induction false} TotalsMove(d: Detail, e: Detail, first: nat, pitch: nat, frames: nat, p: real, g: real)
    requires Measured(d) && d.at != [] && Measured(e) && e.at != [] && frames >= 1
    requires PictureSum(e.at, first, pitch, frames) == PictureSum(d.at, first, pitch, frames) + Times(frames, p)
    requires GapSum(e, first, pitch, frames + 1) == GapSum(d, first, pitch, frames + 1) + Times(frames + 1, g)
    ensures Score(e, first, pitch, frames)
         == Score(d, first, pitch, frames) + p - g
            - 2.0 * (Spread(GapLevels(e, first, pitch, frames + 1)) - Spread(GapLevels(d, first, pitch, frames + 1)))
  {
    WeighedMoves(PictureSum(d.at, first, pitch, frames), PictureSum(e.at, first, pitch, frames),
                 GapSum(d, first, pitch, frames + 1), GapSum(e, first, pitch, frames + 1),
                 Spread(GapLevels(d, first, pitch, frames + 1)), Spread(GapLevels(e, first, pitch, frames + 1)),
                 frames, p, g);
  }

  /** `n` times `x`. */
  function Times(n: nat, x: real): real {
    if n == 0 then 0.0 else Times(n - 1, x) + x
  }

  lemma {:induction false} TimesIs(n: nat, x: real)
    ensures Times(n, x) == n as real * x
  {
    if n > 0 {
      TimesIs(n - 1, x);
      assert n as real * x == (n - 1) as real * x + x;
    }
  }

  /** Pictures that all come to `p` and gaps that all come to `g` score the difference, less twice the disagreement. */
  lemma {:induction false} EvenScore(d: Detail, first: nat, pitch: nat, frames: nat, p: real, g: real)
    requires Measured(d) && d.at != [] && frames >= 1
    requires forall k :: 0 <= k < frames ==> Average(d.at, Picture(first, pitch, k)) == p
    requires GapsRead(d, first, pitch, frames + 1, g)
    ensures Score(d, first, pitch, frames) == p - g - 2.0 * Spread(GapLevels(d, first, pitch, frames + 1))
  {
    EvenPictures(d, first, pitch, frames, frames, p);
    EvenGaps(d, first, pitch, frames + 1, frames + 1, g);
    EvenTotals(d, first, pitch, frames, p, g);
  }

  ghost predicate GapsRead(d: Detail, first: nat, pitch: nat, gaps: nat, g: real)
    requires Measured(d) && d.at != []
  {
    forall k :: 0 <= k < gaps ==> d.at[GapOf(d, first, pitch, k)] == g
  }

  lemma {:induction false} EvenPictures(d: Detail, first: nat, pitch: nat, frames: nat, n: nat, p: real)
    requires forall k :: 0 <= k < frames ==> Average(d.at, Picture(first, pitch, k)) == p
    requires n <= frames
    ensures PictureSum(d.at, first, pitch, n) == Times(n, p)
    decreases n
  {
    if n > 0 { EvenPictures(d, first, pitch, frames, n - 1, p); }
  }

  lemma {:induction false} EvenGaps(d: Detail, first: nat, pitch: nat, gaps: nat, n: nat, g: real)
    requires Measured(d) && d.at != [] && GapsRead(d, first, pitch, gaps, g) && n <= gaps
    ensures GapSum(d, first, pitch, n) == Times(n, g)
    decreases n
  {
    if n > 0 {
      EvenGaps(d, first, pitch, gaps, n - 1, g);
      assert d.at[GapOf(d, first, pitch, n - 1)] == g;
    }
  }

  lemma {:induction false} EvenTotals(d: Detail, first: nat, pitch: nat, frames: nat, p: real, g: real)
    requires Measured(d) && d.at != [] && frames >= 1
    requires PictureSum(d.at, first, pitch, frames) == Times(frames, p)
    requires GapSum(d, first, pitch, frames + 1) == Times(frames + 1, g)
    ensures Score(d, first, pitch, frames) == p - g - 2.0 * Spread(GapLevels(d, first, pitch, frames + 1))
  {
    var spread := Spread(GapLevels(d, first, pitch, frames + 1));
    WeighedMoves(0.0, PictureSum(d.at, first, pitch, frames), 0.0, GapSum(d, first, pitch, frames + 1), spread, spread,
                 frames, p, g);
  }

  lemma WeighedMoves(pictures: real, pictures': real, gaps: real, gaps': real, spread: real, spread': real,
                     frames: nat, p: real, g: real)
    requires frames >= 1
    requires pictures' == pictures + Times(frames, p) && gaps' == gaps + Times(frames + 1, g)
    ensures Weighed(pictures', gaps', spread', frames)
         == Weighed(pictures, gaps, spread, frames) + p - g - 2.0 * (spread' - spread)
  {
    MeanMoves(pictures, pictures', frames, p);
    MeanMoves(gaps, gaps', frames + 1, g);
  }

  lemma MeanMoves(total: real, total': real, n: nat, x: real)
    requires n >= 1 && total' == total + Times(n, x)
    ensures total' / n as real == total / n as real + x
  {
    TimesIs(n, x);
    Divided(total, total', x, n as real);
  }

  lemma Divided(a: real, b: real, x: real, n: real)
    requires n > 0.0 && b == a + n * x
    ensures b / n == a / n + x
  {
  }

  lemma {:induction false} PicturesMove(d: Detail, e: Detail, first: nat, pitch: nat, frames: nat, n: nat, p: real)
    requires PicturesBy(d, e, first, pitch, frames, p) && n <= frames
    ensures PictureSum(e.at, first, pitch, n) == PictureSum(d.at, first, pitch, n) + Times(n, p)
    decreases n
  {
    if n > 0 {
      PicturesMove(d, e, first, pitch, frames, n - 1, p);
      assert Average(e.at, Picture(first, pitch, n - 1)) == Average(d.at, Picture(first, pitch, n - 1)) + p;
    }
  }

  lemma {:induction false} GapsMove(d: Detail, e: Detail, first: nat, pitch: nat, gaps: nat, n: nat, g: real)
    requires Measured(d) && d.at != [] && Measured(e) && e.at != []
    requires GapsBy(d, e, first, pitch, gaps, g) && n <= gaps
    ensures GapSum(e, first, pitch, n) == GapSum(d, first, pitch, n) + Times(n, g)
    decreases n
  {
    if n > 0 {
      GapsMove(d, e, first, pitch, gaps, n - 1, g);
      assert e.at[GapOf(e, first, pitch, n - 1)] == d.at[GapOf(d, first, pitch, n - 1)] + g;
    }
  }

  ghost predicate PicturesBusier(d: Detail, e: Detail, first: nat, pitch: nat, frames: nat) {
    forall k :: 0 <= k < frames ==>
      Average(d.at, Picture(first, pitch, k)) <= Average(e.at, Picture(first, pitch, k))
  }

  ghost predicate GapsFlatter(d: Detail, e: Detail, first: nat, pitch: nat, gaps: nat)
    requires Measured(d) && d.at != [] && Measured(e) && e.at != []
  {
    forall k :: 0 <= k < gaps ==> e.at[GapOf(e, first, pitch, k)] <= d.at[GapOf(d, first, pitch, k)]
  }

  /** Busier pictures, flatter gaps, or gaps that agree better, all else no worse, never lower a fit's score. */
  lemma {:induction false} BetterScoresNoLower(d: Detail, e: Detail, first: nat, pitch: nat, frames: nat)
    requires Measured(d) && d.at != [] && Measured(e) && e.at != [] && frames >= 1
    requires PicturesBusier(d, e, first, pitch, frames)
    requires GapsFlatter(d, e, first, pitch, frames + 1)
    requires Spread(GapLevels(e, first, pitch, frames + 1)) <= Spread(GapLevels(d, first, pitch, frames + 1))
    ensures Score(d, first, pitch, frames) <= Score(e, first, pitch, frames)
  {
    BetterSums(d, e, first, pitch, frames);
    BetterTotals(d, e, first, pitch, frames);
  }

  lemma {:induction false} BetterSums(d: Detail, e: Detail, first: nat, pitch: nat, frames: nat)
    requires Measured(d) && d.at != [] && Measured(e) && e.at != []
    requires PicturesBusier(d, e, first, pitch, frames) && GapsFlatter(d, e, first, pitch, frames + 1)
    ensures PictureSum(d.at, first, pitch, frames) <= PictureSum(e.at, first, pitch, frames)
    ensures GapSum(e, first, pitch, frames + 1) <= GapSum(d, first, pitch, frames + 1)
  {
    BusierPictures(d, e, first, pitch, frames, frames);
    FlatterGaps(d, e, first, pitch, frames + 1, frames + 1);
  }

  lemma {:induction false} BetterTotals(d: Detail, e: Detail, first: nat, pitch: nat, frames: nat)
    requires Measured(d) && d.at != [] && Measured(e) && e.at != [] && frames >= 1
    requires PictureSum(d.at, first, pitch, frames) <= PictureSum(e.at, first, pitch, frames)
    requires GapSum(e, first, pitch, frames + 1) <= GapSum(d, first, pitch, frames + 1)
    requires Spread(GapLevels(e, first, pitch, frames + 1)) <= Spread(GapLevels(d, first, pitch, frames + 1))
    ensures Score(d, first, pitch, frames) <= Score(e, first, pitch, frames)
  {
    WeighedMono(PictureSum(d.at, first, pitch, frames), PictureSum(e.at, first, pitch, frames),
                GapSum(d, first, pitch, frames + 1), GapSum(e, first, pitch, frames + 1),
                Spread(GapLevels(d, first, pitch, frames + 1)), Spread(GapLevels(e, first, pitch, frames + 1)), frames);
  }

  lemma WeighedMono(pictures: real, pictures': real, gaps: real, gaps': real, spread: real, spread': real, frames: nat)
    requires frames >= 1 && pictures <= pictures' && gaps' <= gaps && spread' <= spread
    ensures Weighed(pictures, gaps, spread, frames) <= Weighed(pictures', gaps', spread', frames)
  {
    DividedMono(pictures, pictures', frames as real);
    DividedMono(gaps', gaps, (frames + 1) as real);
  }

  lemma DividedMono(a: real, b: real, n: real)
    requires n > 0.0 && a <= b
    ensures a / n <= b / n
  {
    var x := (b - a) / n;
    assert b == a + n * x;
    Divided(a, b, x, n);
  }

  lemma {:induction false} BusierPictures(d: Detail, e: Detail, first: nat, pitch: nat, frames: nat, n: nat)
    requires PicturesBusier(d, e, first, pitch, frames)
    requires n <= frames
    ensures PictureSum(d.at, first, pitch, n) <= PictureSum(e.at, first, pitch, n)
    decreases n
  {
    if n > 0 { BusierPictures(d, e, first, pitch, frames, n - 1); }
  }

  lemma {:induction false} FlatterGaps(d: Detail, e: Detail, first: nat, pitch: nat, gaps: nat, n: nat)
    requires Measured(d) && d.at != [] && Measured(e) && e.at != [] && n <= gaps
    requires GapsFlatter(d, e, first, pitch, gaps)
    ensures GapSum(e, first, pitch, n) <= GapSum(d, first, pitch, n)
    decreases n
  {
    if n > 0 { FlatterGaps(d, e, first, pitch, gaps, n - 1); }
  }

  method Disagreement(levels: seq<real>) returns (spread: real)
    requires levels != []
    ensures spread == Spread(levels)
  {
    var middle := Median(levels);
    var away := levels;
    for i := 0 to |away|
      invariant |away| == |levels|
      invariant forall k :: 0 <= k < |levels| ==> away[k] == if k < i then Abs(levels[k] - middle) else levels[k]
    {
      away := away[i := Abs(away[i] - middle)];
    }
    assert away == Away(levels, middle);
    spread := Median(away);
  }

  lemma OneMoreGap(d: Detail, first: nat, pitch: nat, n: nat)
    requires Measured(d) && d.at != []
    ensures GapLevels(d, first, pitch, n + 1) == GapLevels(d, first, pitch, n) + [d.level[GapOf(d, first, pitch, n)]]
    ensures GapSum(d, first, pitch, n + 1) == GapSum(d, first, pitch, n) + d.at[GapOf(d, first, pitch, n)]
  {
  }

  method ScoreOf(d: Detail, first: nat, pitch: nat, frames: nat) returns (score: real)
    requires Measured(d) && d.at != [] && frames >= 1
    ensures score == Score(d, first, pitch, frames)
  {
    var gaps := 0.0;
    var levels: seq<real> := [];
    for k := 0 to frames + 1
      invariant gaps == GapSum(d, first, pitch, k) && levels == GapLevels(d, first, pitch, k)
    {
      OneMoreGap(d, first, pitch, k);
      var x := GapOf(d, first, pitch, k);
      gaps := gaps + d.at[x];
      levels := levels + [d.level[x]];
    }
    var pictures := PicturesOf(d, first, pitch, frames);
    var spread := Disagreement(levels);
    score := pictures / frames as real - gaps / (frames + 1) as real - AGREEMENT * spread;
  }

  method PicturesOf(d: Detail, first: nat, pitch: nat, frames: nat) returns (pictures: real)
    requires Measured(d)
    ensures pictures == PictureSum(d.at, first, pitch, frames)
  {
    pictures := 0.0;
    for k := 0 to frames
      invariant pictures == PictureSum(d.at, first, pitch, k)
    {
      pictures := pictures + Mean(d, Picture(first, pitch, k));
    }
  }

  /** A column is picture from 15 hundredths of the way up from the tenth percentile to the ninetieth. */
  lemma PictureLevelIs(at: seq<real>)
    requires at != []
    ensures |at| * 10 / 100 < |at| && |at| * 90 / 100 < |at|
    ensures PictureLevel(at) == 0.85 * Kth(at, |at| * 10 / 100) + 0.15 * Kth(at, |at| * 90 / 100)
  {
  }

  // ----- the search

  const LEAST_PITCH: nat := PICTURE + 2 * REACH + 2

  /** The pitches a format is searched at. */
  function FirstPitch(length: nat): (p: nat)
    ensures p >= LEAST_PITCH
  {
    Max(length * PITCH_FIRST / 20, LEAST_PITCH)
  }

  function LastPitch(length: nat): (p: nat)
    ensures p >= LEAST_PITCH
  {
    Max(length * PITCH_LAST / 20, LEAST_PITCH)
  }

  /** How many frames a pitch puts on the film, to the nearest. */
  function FramesAt(film: Span, pitch: nat): nat
    requires pitch >= 1
  {
    DivMono(0, film.Len() + pitch / 2, pitch);
    (film.Len() + pitch / 2) / pitch
  }

  /** A fit on this strip: some frames, and no gap past the film by more than a frame, or off the pass. */
  predicate Admits(film: Span, cols: nat, length: nat, pitch: nat, first: nat) {
    && LEAST_PITCH <= FirstPitch(length) <= pitch <= LastPitch(length)
    && FramesAt(film, pitch) >= 1
    && SatSub(film.start, pitch) <= first
    && first + FramesAt(film, pitch) * pitch <= Min(film.end + pitch, SatSub(cols, 1))
  }

  /**
   * Every fit of a format is admitted that has some frames, the number nearest to the
   * length of the film over the pitch; whose first gap is no more than a pitch
   * before the film, and whose last no more than one after it and on the pass.
   */
  lemma WhatIsAdmitted(film: Span, cols: nat, length: nat, pitch: nat, first: nat, n: nat)
    requires film.start <= film.end && pitch >= 1
    requires n * pitch <= film.end - film.start + pitch / 2 < n * pitch + pitch
    ensures Admits(film, cols, length, pitch, first) <==>
              && n >= 1
              && Max(18 * length / 20, 14) <= pitch <= Max(31 * length / 20, 14)
              && film.start <= first + pitch
              && first + n * pitch <= film.end + pitch
              && first + n * pitch < cols
  {
    DivModUnique(film.Len() + pitch / 2, pitch, n, film.Len() + pitch / 2 - n * pitch);
    if n >= 1 { MulMono(1, n, pitch); }
  }

  /** The frames of an admitted fit. */
  function FramesOf(film: Span, pitch: nat, first: nat): (frames: seq<Span>)
    requires pitch >= 1
    ensures |frames| == FramesAt(film, pitch)
  {
    seq(FramesAt(film, pitch), k requires 0 <= k < FramesAt(film, pitch) => Picture(first, pitch, k))
  }

  /**
   * The frames of any admitted fit are all of one length, at least the fewest
   * columns of picture; a pitch apart; apart from one another; and in the pass.
   * They fill the film to within half a pitch.
   */
  lemma FramesOfAFit(film: Span, cols: nat, length: nat, pitch: nat, first: nat)
    requires Admits(film, cols, length, pitch, first)
    ensures var f := FramesOf(film, pitch, first);
            && |f| >= 1
            && (forall k :: 0 <= k < |f| ==> f[k].start < f[k].end < cols)
            && (forall k :: 0 <= k < |f| ==> f[k].Len() == pitch - 5 >= 8)
            && (forall k :: 0 <= k < |f| - 1 ==> f[k + 1].start == f[k].start + pitch && f[k].end <= f[k + 1].start)
            && 2 * (|f| * pitch) <= 2 * film.Len() + pitch
            && 2 * film.Len() <= 2 * (|f| * pitch) + pitch
    // From nine tenths of the format to a half over it
    ensures 18 * length < 20 * pitch + 20 && (pitch > 14 ==> 20 * pitch <= 31 * length)
  {
    var n := FramesAt(film, pitch);
    var f := FramesOf(film, pitch, first);
    forall k | 0 <= k < n
      ensures f[k].start < f[k].end < cols && f[k].Len() == pitch - 2 * REACH - 1
      ensures f[k].start == Picture(first, pitch, k).start && f[k].end == Picture(first, pitch, k).end
    {
      PictureInside(first, pitch, k, n, cols);
    }
    forall k | 0 <= k < n - 1
      ensures f[k + 1].start == f[k].start + pitch && f[k].end <= f[k + 1].start
    {
      PictureNext(first, pitch, k);
    }
    ToTheNearest(film.Len(), pitch);
  }

  lemma PictureInside(first: nat, pitch: nat, k: nat, n: nat, cols: nat)
    requires pitch >= LEAST_PITCH && k < n && first + n * pitch <= SatSub(cols, 1)
    ensures var p := Picture(first, pitch, k);
            p.start < p.end < cols && p.Len() == pitch - 2 * REACH - 1
  {
    PictureShape(first, pitch, k);
    MulMono(k + 1, n, pitch);
    MulMono(1, n, pitch);
  }

  lemma PictureNext(first: nat, pitch: nat, k: nat)
    requires pitch >= LEAST_PITCH
    ensures Picture(first, pitch, k + 1).start == Picture(first, pitch, k).start + pitch
    ensures Picture(first, pitch, k).end <= Picture(first, pitch, k + 1).start
  {
    PictureShape(first, pitch, k);
    PictureShape(first, pitch, k + 1);
  }

  lemma PictureShape(first: nat, pitch: nat, k: nat)
    requires pitch >= LEAST_PITCH
    ensures (k + 1) * pitch == k * pitch + pitch
    ensures Picture(first, pitch, k) == Span(first + k * pitch + REACH + 1, first + k * pitch + pitch - REACH)
  {
    MulMono(0, k, pitch);
  }

  lemma ToTheNearest(a: nat, b: nat)
    requires b >= 1
    ensures 2 * ((a + b / 2) / b * b) <= 2 * a + b
    ensures 2 * a <= 2 * ((a + b / 2) / b * b) + b
  {
    FundamentalDivMod(a + b / 2, b);
  }

  /** The column each gap is taken at is outside every frame. */
  lemma GapsAreBetweenFrames(d: Detail, film: Span, cols: nat, length: nat, pitch: nat, first: nat, g: nat, k: nat)
    requires Measured(d) && |d.at| == cols && cols >= 1
    requires Admits(film, cols, length, pitch, first)
    requires g <= FramesAt(film, pitch) && k < FramesAt(film, pitch)
    ensures var f := FramesOf(film, pitch, first)[k];
            !(f.start <= GapOf(d, first, pitch, g) < f.end)
  {
    var n := FramesAt(film, pitch);
    MulMono(g, n, pitch);
    MulMono(0, g, pitch);
    if g <= k {
      MulMono(g, k, pitch);
    } else {
      MulMono(k + 1, g, pitch);
      assert (k + 1) * pitch == k * pitch + pitch;
    }
  }

  // ----- the best of them

  /** A pitch and a first gap, in the order they are tried. */
  predicate Before(p: nat, f: nat, q: nat, g: nat) { p < q || (p == q && f < g) }

  datatype Fit = Fit(score: real, first: nat, pitch: nat)

  /**
   * The best of the fits in a set that come before a place, and of those that
   * score the same the first.
   */
  ghost predicate BestBefore(ok: (nat, nat) -> bool, value: (nat, nat) -> real, pitch: nat, first: nat,
                             best: Option<Fit>) {
    && (best.Some? ==>
          && ok(best.value.pitch, best.value.first)
          && Before(best.value.pitch, best.value.first, pitch, first)
          && best.value.score == value(best.value.pitch, best.value.first))
    && forall p: nat, f: nat :: ok(p, f) && Before(p, f, pitch, first) ==>
         && best.Some?
         && value(p, f) <= best.value.score
         && (Before(p, f, best.value.pitch, best.value.first) ==> value(p, f) < best.value.score)
  }

  /** Trying one more fit keeps the first of the best. */
  lemma OneMoreFit(ok: (nat, nat) -> bool, value: (nat, nat) -> real, pitch: nat, first: nat, best: Option<Fit>)
    requires ok(pitch, first) && BestBefore(ok, value, pitch, first, best)
    ensures BestBefore(ok, value, pitch, first + 1,
                       if best.None? || value(pitch, first) > best.value.score
                       then Some(Fit(value(pitch, first), first, pitch)) else best)
  {
  }

  /** Passing over first gaps that are not in the set changes nothing. */
  lemma SkipFirsts(ok: (nat, nat) -> bool, value: (nat, nat) -> real, pitch: nat, first: nat, later: nat,
                   best: Option<Fit>)
    requires BestBefore(ok, value, pitch, first, best)
    requires first <= later && forall f: nat :: first <= f < later ==> !ok(pitch, f)
    ensures BestBefore(ok, value, pitch, later, best)
  {
  }

  /** And so does going on to the next pitch once they are all tried. */
  lemma NextPitch(ok: (nat, nat) -> bool, value: (nat, nat) -> real, pitch: nat, first: nat, best: Option<Fit>)
    requires BestBefore(ok, value, pitch, first, best)
    requires forall f: nat :: first <= f ==> !ok(pitch, f)
    ensures BestBefore(ok, value, pitch + 1, 0, best)
  {
  }

  ghost function Admitted(film: Span, cols: nat, length: nat): (nat, nat) -> bool {
    (p: nat, f: nat) => Admits(film, cols, length, p, f)
  }

  ghost function Value(d: Detail, film: Span): (nat, nat) -> real {
    (p: nat, f: nat) =>
      if Measured(d) && d.at != [] && p >= 1 && FramesAt(film, p) >= 1 then Score(d, f, p, FramesAt(film, p)) else 0.0
  }

  /** The first gaps admitted at one pitch. */
  lemma AdmittedAt(film: Span, cols: nat, length: nat, pitch: nat)
    requires FirstPitch(length) <= pitch <= LastPitch(length)
    ensures forall f: nat :: Admitted(film, cols, length)(pitch, f) <==>
              && FramesAt(film, pitch) >= 1 && SatSub(film.start, pitch) <= f
              && f + FramesAt(film, pitch) * pitch <= Min(film.end + pitch, SatSub(cols, 1))
  {
  }

  datatype Strip = Strip(frames: seq<Span>, pitch: nat, contrast: real)

  /** The film of a pass, fitted: none where no fit is admitted, and otherwise the first of the best. */
  ghost predicate BestStrip(d: Detail, film: Span, length: nat, strip: Option<Strip>) {
    var ok, value := Admitted(film, |d.at|, length), Value(d, film);
    match strip
    case None => forall p: nat, f: nat :: !ok(p, f)
    case Some(s) => exists first: nat ::
      && s.pitch >= 1 && ok(s.pitch, first)
      && s.frames == FramesOf(film, s.pitch, first) && s.contrast == value(s.pitch, first)
      && forall p: nat, f: nat :: ok(p, f) ==>
           value(p, f) <= s.contrast && (Before(p, f, s.pitch, first) ==> value(p, f) < s.contrast)
  }

  function StripOf(film: Span, best: Option<Fit>): Option<Strip>
    requires best.Some? ==> best.value.pitch >= 1
  {
    match best
    case None => None
    case Some(fit) => Some(Strip(FramesOf(film, fit.pitch, fit.first), fit.pitch, fit.score))
  }

  /** The best once every pitch is tried is the best of all. */
  lemma BestOfAll(d: Detail, film: Span, length: nat, best: Option<Fit>)
    requires BestBefore(Admitted(film, |d.at|, length), Value(d, film), LastPitch(length) + 1, 0, best)
    ensures best.Some? ==> best.value.pitch >= 1
    ensures BestStrip(d, film, length, StripOf(film, best))
  {
    var ok, value := Admitted(film, |d.at|, length), Value(d, film);
    assert forall p: nat, f: nat :: ok(p, f) ==> Before(p, f, LastPitch(length) + 1, 0);
    if best.Some? {
      assert ok(best.value.pitch, best.value.first);
    }
  }

  /** Nothing is admitted before the first pitch. */
  lemma NothingYet(film: Span, cols: nat, length: nat, value: (nat, nat) -> real)
    ensures BestBefore(Admitted(film, cols, length), value, FirstPitch(length), 0, None)
  {
  }

  /** Fit the frames of a strip to what its thumbnail reads as. */
  method Find(at: seq<real>, level: seq<real>, length: nat) returns (strip: Option<Strip>, ghost d: Detail,
              ghost film: Span)
    requires |at| == |level|
    ensures length == 0 || at == [] ==> strip == None
    ensures length != 0 && at != [] ==>
              && Measured(d) && d.at == at && d.level == level
              && IsFilm(at, length, film) && BestStrip(d, film, length, strip)
  {
    d, film := Detail([], [], [], []), Span(0, 0);
    if length == 0 || at == [] {
      return None, d, film;
    }
    var detail := Measure(at, level);
    var found := Film(at, length);
    d, film := detail, found;
    FilmIsInside(at, length, found);
    var best: Option<Fit> := None;
    NothingYet(found, |at|, length, Value(detail, found));
    for pitch := FirstPitch(length) to LastPitch(length) + 1
      invariant BestBefore(Admitted(found, |at|, length), Value(detail, found), pitch, 0, best)
    {
      best := FirstsAt(detail, found, length, pitch, best);
    }
    BestOfAll(detail, found, length, best);
    strip := StripOf(found, best);
  }

  /** Every first gap at one pitch. */
  method FirstsAt(d: Detail, film: Span, length: nat, pitch: nat, had: Option<Fit>) returns (best: Option<Fit>)
    requires Measured(d) && d.at != [] && film.start <= film.end <= |d.at|
    requires FirstPitch(length) <= pitch <= LastPitch(length)
    requires BestBefore(Admitted(film, |d.at|, length), Value(d, film), pitch, 0, had)
    ensures BestBefore(Admitted(film, |d.at|, length), Value(d, film), pitch + 1, 0, best)
  {
    ghost var ok, value := Admitted(film, |d.at|, length), Value(d, film);
    AdmittedAt(film, |d.at|, length, pitch);
    best := had;
    var frames := FramesAt(film, pitch);
    if frames == 0 {
      NextPitch(ok, value, pitch, 0, best);
      return;
    }
    var start := SatSub(film.start, pitch);
    var end := Min(film.end + pitch, SatSub(|d.at|, 1));
    var taken := frames * pitch;
    MulMono(1, frames, pitch);
    if end < taken || end - taken < start {
      NextPitch(ok, value, pitch, 0, best);
      return;
    }
    SkipFirsts(ok, value, pitch, 0, start, best);
    best := TryFirsts(d, pitch, frames, start, end - taken, best, ok, value);
    NextPitch(ok, value, pitch, end - taken + 1, best);
  }

  method TryFirsts(d: Detail, pitch: nat, frames: nat, start: nat, last: nat, had: Option<Fit>,
                   ghost ok: (nat, nat) -> bool, ghost value: (nat, nat) -> real) returns (best: Option<Fit>)
    requires Measured(d) && d.at != [] && frames >= 1 && start <= last
    requires forall f: nat :: start <= f <= last ==> ok(pitch, f) && value(pitch, f) == Score(d, f, pitch, frames)
    requires BestBefore(ok, value, pitch, start, had)
    ensures BestBefore(ok, value, pitch, last + 1, best)
  {
    best := had;
    for first := start to last + 1
      invariant BestBefore(ok, value, pitch, first, best)
    {
      var score := ScoreOf(d, first, pitch, frames);
      assert ok(pitch, first) && score == value(pitch, first);
      OneMoreFit(ok, value, pitch, first, best);
      if best.None? || score > best.value.score {
        best := Some(Fit(score, first, pitch));
      }
    }
  }
}
