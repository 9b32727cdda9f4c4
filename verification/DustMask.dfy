/**
 * Which pixels dust removal rebuilds. A pixel is left alone where a dark bar nine
 * samples long stands four away from it on any side; the bars are found with two
 * passes of three taps each, split so that the inside of a line clamps nothing.
 */
module DustMask {
  import opened Arith

  predicate Plane(p: seq<bool>, rows: nat, cols: nat) {
    rows >= 1 && cols >= 1 && |p| == rows * cols
  }

  /** An index brought inside a line of `n`. */
  function Clip(x: int, n: nat): (c: nat)
    requires n >= 1
    ensures c < n && (0 <= x < n ==> c == x)
  {
    if x < 0 then 0 else if x >= n then n - 1 else x
  }

  // ----- one line

  /** Three taps, `k` apart, clamped to the line. */
  predicate Taps(line: seq<bool>, x: nat, k: nat)
    requires x < |line|
  {
    line[Clip(x - k, |line|)] && line[x] && line[Clip(x + k, |line|)]
  }

  function Tapped(line: seq<bool>, k: nat): (out: seq<bool>)
    ensures |out| == |line|
  {
    seq(|line|, x requires 0 <= x < |line| => Taps(line, x, k))
  }

  /** Every sample of the nine about `x` that the line has is set. */
  predicate Bar(line: seq<bool>, x: nat) {
    forall j :: 0 <= j < |line| && x - 4 <= j <= x + 4 ==> line[j]
  }

  /** Taps one apart and then three apart see all nine samples, on a line of any length. */
  lemma TwoPassesAreABar(line: seq<bool>, x: nat)
    requires x < |line|
    ensures Tapped(Tapped(line, 1), 3)[x] <==> Bar(line, x)
  {
    var n := |line|;
    var once := Tapped(line, 1);
    var l, r := Clip(x - 3, n), Clip(x + 3, n);
    assert Tapped(once, 3)[x] <==> Taps(line, l, 1) && Taps(line, x, 1) && Taps(line, r, 1);
    if Tapped(once, 3)[x] {
      forall j | 0 <= j < n && x - 4 <= j <= x + 4 ensures line[j] {
        var y := if j < x - 1 then l else if j > x + 1 then r else x;
        assert Taps(line, y, 1);
        assert j == Clip(y - 1, n) || j == y || j == Clip(y + 1, n);
      }
    }
  }

  // ----- a plane

  lemma IndexOf(rows: nat, cols: nat, y: nat, x: nat)
    requires y < rows && x < cols
    ensures 0 <= y * cols + x < rows * cols
    ensures (y * cols + x) / cols == y && (y * cols + x) % cols == x
  {
    DigitBound(y, x, rows, cols);
    DivModUnique(y * cols + x, cols, y, x);
  }

  function Row(p: seq<bool>, rows: nat, cols: nat, y: nat): (line: seq<bool>)
    requires Plane(p, rows, cols) && y < rows
    ensures |line| == cols
  {
    IndexOf(rows, cols, y, cols - 1);
    MulMono(0, y, cols);
    p[y * cols..y * cols + cols]
  }

  function Column(p: seq<bool>, rows: nat, cols: nat, x: nat): (line: seq<bool>)
    requires Plane(p, rows, cols) && x < cols
    ensures |line| == rows
  {
    seq(rows, y requires 0 <= y < rows => (
      IndexOf(rows, cols, y, x);
      p[y * cols + x]))
  }

  lemma Place(rows: nat, cols: nat, i: nat)
    requires i < rows * cols && cols >= 1
    ensures 0 <= i / cols < rows && 0 <= i % cols < cols && i == i / cols * cols + i % cols
  {
    DigitRange(i, rows, cols);
    FundamentalDivMod(i, cols);
  }

  predicate RowTaps(p: seq<bool>, rows: nat, cols: nat, k: nat, i: nat)
    requires Plane(p, rows, cols) && i < |p|
  {
    Place(rows, cols, i);
    Taps(Row(p, rows, cols, i / cols), i % cols, k)
  }

  predicate ColumnTaps(p: seq<bool>, rows: nat, cols: nat, k: nat, i: nat)
    requires Plane(p, rows, cols) && i < |p|
  {
    Place(rows, cols, i);
    Taps(Column(p, rows, cols, i % cols), i / cols, k)
  }

  /** A plane of the taps along the rows of another. */
  function AlongRows(p: seq<bool>, rows: nat, cols: nat, k: nat): (out: seq<bool>)
    requires Plane(p, rows, cols)
    ensures Plane(out, rows, cols)
  {
    seq(|p|, i requires 0 <= i < |p| => RowTaps(p, rows, cols, k, i))
  }

  /** And along its columns. */
  function AlongColumns(p: seq<bool>, rows: nat, cols: nat, k: nat): (out: seq<bool>)
    requires Plane(p, rows, cols)
    ensures Plane(out, rows, cols)
  {
    seq(|p|, i requires 0 <= i < |p| => ColumnTaps(p, rows, cols, k, i))
  }

  lemma RowTapsAt(p: seq<bool>, rows: nat, cols: nat, k: nat, y: nat, x: nat)
    requires Plane(p, rows, cols) && y < rows && x < cols
    ensures 0 <= y * cols + x < |p|
    ensures RowTaps(p, rows, cols, k, y * cols + x) == Taps(Row(p, rows, cols, y), x, k)
  {
    IndexOf(rows, cols, y, x);
  }

  lemma ColumnTapsAt(p: seq<bool>, rows: nat, cols: nat, k: nat, y: nat, x: nat)
    requires Plane(p, rows, cols) && y < rows && x < cols
    ensures 0 <= y * cols + x < |p|
    ensures ColumnTaps(p, rows, cols, k, y * cols + x) == Taps(Column(p, rows, cols, x), y, k)
  {
    IndexOf(rows, cols, y, x);
  }

  lemma RowAt(p: seq<bool>, rows: nat, cols: nat, y: nat, x: nat)
    requires Plane(p, rows, cols) && y < rows && x < cols
    ensures 0 <= y * cols + x < |p| && Row(p, rows, cols, y)[x] == p[y * cols + x]
  {
    IndexOf(rows, cols, y, x);
    IndexOf(rows, cols, y, cols - 1);
    MulMono(0, y, cols);
    SliceAt(p, y * cols, cols, x);
  }

  lemma SliceAt(p: seq<bool>, base: nat, n: nat, x: nat)
    requires base + n <= |p| && x < n
    ensures p[base..base + n][x] == p[base + x]
  {
  }

  lemma ColumnAt(p: seq<bool>, rows: nat, cols: nat, y: nat, x: nat)
    requires Plane(p, rows, cols) && y < rows && x < cols
    ensures 0 <= y * cols + x < |p| && Column(p, rows, cols, x)[y] == p[y * cols + x]
  {
    IndexOf(rows, cols, y, x);
  }

  lemma RowOfTaps(p: seq<bool>, rows: nat, cols: nat, k: nat, y: nat)
    requires Plane(p, rows, cols) && y < rows
    ensures Row(AlongRows(p, rows, cols, k), rows, cols, y) == Tapped(Row(p, rows, cols, y), k)
  {
    var out, line := Row(AlongRows(p, rows, cols, k), rows, cols, y), Tapped(Row(p, rows, cols, y), k);
    forall x | 0 <= x < cols ensures out[x] == line[x] {
      RowAt(AlongRows(p, rows, cols, k), rows, cols, y, x);
      RowTapsAt(p, rows, cols, k, y, x);
    }
  }

  lemma ColumnOfTaps(p: seq<bool>, rows: nat, cols: nat, k: nat, x: nat)
    requires Plane(p, rows, cols) && x < cols
    ensures Column(AlongColumns(p, rows, cols, k), rows, cols, x) == Tapped(Column(p, rows, cols, x), k)
  {
    var out, line := Column(AlongColumns(p, rows, cols, k), rows, cols, x), Tapped(Column(p, rows, cols, x), k);
    forall y | 0 <= y < rows ensures out[y] == line[y] {
      ColumnAt(AlongColumns(p, rows, cols, k), rows, cols, y, x);
      ColumnTapsAt(p, rows, cols, k, y, x);
    }
  }

  /** Two passes along the rows leave, at each place of a row, the bar about it. */
  lemma TwoRowPasses(p: seq<bool>, rows: nat, cols: nat, y: nat, x: nat)
    requires Plane(p, rows, cols) && y < rows && x < cols
    ensures Row(AlongRows(AlongRows(p, rows, cols, 1), rows, cols, 3), rows, cols, y)[x]
       <==> Bar(Row(p, rows, cols, y), x)
  {
    RowOfTaps(p, rows, cols, 1, y);
    RowOfTaps(AlongRows(p, rows, cols, 1), rows, cols, 3, y);
    TwoPassesAreABar(Row(p, rows, cols, y), x);
  }

  /** And along the columns likewise. */
  lemma TwoColumnPasses(p: seq<bool>, rows: nat, cols: nat, y: nat, x: nat)
    requires Plane(p, rows, cols) && y < rows && x < cols
    ensures Row(AlongColumns(AlongColumns(p, rows, cols, 1), rows, cols, 3), rows, cols, y)[x]
       <==> Bar(Column(p, rows, cols, x), y)
  {
    var out := AlongColumns(AlongColumns(p, rows, cols, 1), rows, cols, 3);
    ColumnOfTaps(p, rows, cols, 1, x);
    ColumnOfTaps(AlongColumns(p, rows, cols, 1), rows, cols, 3, x);
    TwoPassesAreABar(Column(p, rows, cols, x), y);
    RowAt(out, rows, cols, y, x);
    ColumnAt(out, rows, cols, y, x);
  }

  /** A pixel to rebuild: one that is considered, and has no dark bar on any side. */
  predicate Flagged(dark: seq<bool>, whole: seq<bool>, rows: nat, cols: nat, clampL3: bool, y: nat, x: nat)
    requires Plane(dark, rows, cols) && Plane(whole, rows, cols) && y < rows && x < cols
  {
    && !(clampL3 && Row(whole, rows, cols, y)[x])
    && !Bar(Row(dark, rows, cols, Clip(y - 4, rows)), x) && !Bar(Row(dark, rows, cols, Clip(y + 4, rows)), x)
    && !Bar(Column(dark, rows, cols, Clip(x - 4, cols)), y) && !Bar(Column(dark, rows, cols, Clip(x + 4, cols)), y)
  }

  /** Every pixel to rebuild. */
  function MaskOf(dark: seq<bool>, whole: seq<bool>, rows: nat, cols: nat, clampL3: bool): (mask: seq<bool>)
    requires Plane(dark, rows, cols) && Plane(whole, rows, cols)
    ensures Plane(mask, rows, cols)
  {
    seq(|dark|, i requires 0 <= i < |dark| => (
      Place(rows, cols, i);
      Flagged(dark, whole, rows, cols, clampL3, i / cols, i % cols)))
  }

  /** One row of a mask, by what the passes left in the rows about it. */
  function MaskRow(above: seq<bool>, below: seq<bool>, sides: seq<bool>, whole: seq<bool>,
                   clampL3: bool): (row: seq<bool>)
    requires |above| == |below| == |sides| == |whole|
    ensures |row| == |whole|
  {
    var n := |whole|;
    seq(n, x requires 0 <= x < n =>
      !(clampL3 && whole[x]) && !(above[x] || below[x] || sides[Clip(x - 4, n)] || sides[Clip(x + 4, n)]))
  }

  lemma MaskAt(dark: seq<bool>, whole: seq<bool>, rows: nat, cols: nat, clampL3: bool, y: nat, x: nat)
    requires Plane(dark, rows, cols) && Plane(whole, rows, cols) && y < rows && x < cols
    ensures Row(MaskOf(dark, whole, rows, cols, clampL3), rows, cols, y)[x]
         == Flagged(dark, whole, rows, cols, clampL3, y, x)
  {
    RowAt(MaskOf(dark, whole, rows, cols, clampL3), rows, cols, y, x);
    IndexOf(rows, cols, y, x);
  }

  /** Two passes each way see every pixel to rebuild, and no other. */
  lemma PassesSeeTheMask(dark: seq<bool>, whole: seq<bool>, rows: nat, cols: nat, clampL3: bool, y: nat)
    requires Plane(dark, rows, cols) && Plane(whole, rows, cols) && y < rows
    ensures var along := AlongRows(AlongRows(dark, rows, cols, 1), rows, cols, 3);
            var down := AlongColumns(AlongColumns(dark, rows, cols, 1), rows, cols, 3);
            (Row(MaskOf(dark, whole, rows, cols, clampL3), rows, cols, y)
             == MaskRow(Row(along, rows, cols, Clip(y - 4, rows)), Row(along, rows, cols, Clip(y + 4, rows)),
                        Row(down, rows, cols, y), Row(whole, rows, cols, y), clampL3))
  {
    var along := AlongRows(AlongRows(dark, rows, cols, 1), rows, cols, 3);
    var down := AlongColumns(AlongColumns(dark, rows, cols, 1), rows, cols, 3);
    var up, under := Clip(y - 4, rows), Clip(y + 4, rows);
    var want := Row(MaskOf(dark, whole, rows, cols, clampL3), rows, cols, y);
    var seen := MaskRow(Row(along, rows, cols, up), Row(along, rows, cols, under),
                        Row(down, rows, cols, y), Row(whole, rows, cols, y), clampL3);
    forall x | 0 <= x < cols ensures want[x] == seen[x] {
      MaskAt(dark, whole, rows, cols, clampL3, y, x);
      TwoRowPasses(dark, rows, cols, up, x);
      TwoRowPasses(dark, rows, cols, under, x);
      TwoColumnPasses(dark, rows, cols, y, Clip(x - 4, cols));
      TwoColumnPasses(dark, rows, cols, y, Clip(x + 4, cols));
    }
  }

  // ----- in place

  /** The samples over `first..until` are taps of the line at `base`, and no other has changed. */
  predicate Written(before: seq<bool>, after: seq<bool>, line: seq<bool>, base: nat, k: nat, first: nat, until: nat) {
    && base <= first <= until <= base + |line| <= |after| == |before|
    && (forall i :: first <= i < until ==> after[i] == Taps(line, i - base, k))
    && (forall i :: 0 <= i < first ==> after[i] == before[i])
    && (forall i :: until <= i < |after| ==> after[i] == before[i])
  }

  /** Taps along one row, its inside and then its two edges. */
  method TapRow(src: array<bool>, dst: array<bool>, base: nat, cols: nat, k: nat)
    requires src != dst && src.Length == dst.Length && base + cols <= src.Length && cols >= 1
    modifies dst
    ensures Written(old(dst[..]), dst[..], src[base..base + cols], base, k, base, base + cols)
  {
    ghost var line := src[base..base + cols];
    // The inside clamps nothing
    var body := SatSub(cols, 2 * k);
    var start, far := Min(k, cols), Min(2 * k, cols);
    for i := 0 to body
      invariant Written(old(dst[..]), dst[..], line, base, k, base + start, base + start + i)
    {
      assert line[i] == src[base + i] && line[start + i] == src[base + start + i];
      assert line[far + i] == src[base + far + i];
      assert Clip(start + i - k, cols) == i && Clip(start + i + k, cols) == far + i;
      dst[base + start + i] := src[base + i] && src[base + start + i] && src[base + far + i];
    }
    TapEdge(src, dst, base, cols, k, 0, start);
    TapEdge(src, dst, base, cols, k, SatSub(cols, k), cols);
  }

  /** The columns `first..until` of a row, whose taps clamp. */
  method TapEdge(src: array<bool>, dst: array<bool>, base: nat, cols: nat, k: nat, first: nat, until: nat)
    requires src != dst && src.Length == dst.Length && base + cols <= src.Length && cols >= 1
    requires first <= until <= cols
    modifies dst
    ensures Written(old(dst[..]), dst[..], src[base..base + cols], base, k, base + first, base + until)
  {
    ghost var line := src[base..base + cols];
    for x := first to until
      invariant Written(old(dst[..]), dst[..], line, base, k, base + first, base + x)
    {
      var lo, hi := SatSub(x, k), Min(x + k, cols - 1);
      assert lo == Clip(x - k, cols) && hi == Clip(x + k, cols);
      assert line[lo] == src[base + lo] && line[x] == src[base + x] && line[hi] == src[base + hi];
      dst[base + x] := src[base + lo] && src[base + x] && src[base + hi];
    }
  }

  /** Taps along every row. */
  method And3Cols(src: array<bool>, rows: nat, cols: nat, k: nat) returns (out: array<bool>)
    requires Plane(src[..], rows, cols)
    ensures fresh(out) && out[..] == AlongRows(src[..], rows, cols, k)
  {
    out := new bool[src.Length](_ => false);
    ghost var spec := AlongRows(src[..], rows, cols, k);
    for y := 0 to rows
      invariant 0 <= y * cols <= src.Length && out[..y * cols] == spec[..y * cols]
    {
      IndexOf(rows, cols, y, cols - 1);
      ghost var before := out[..];
      TapRow(src, out, y * cols, cols, k);
      RowWritten(src[..], rows, cols, k, y, before, out[..]);
    }
  }

  lemma RowWritten(p: seq<bool>, rows: nat, cols: nat, k: nat, y: nat, before: seq<bool>, after: seq<bool>)
    requires Plane(p, rows, cols) && y < rows && |before| == |p|
    requires 0 <= y * cols && y * cols + cols <= |p|
    requires Written(before, after, p[y * cols..y * cols + cols], y * cols, k, y * cols, y * cols + cols)
    requires before[..y * cols] == AlongRows(p, rows, cols, k)[..y * cols]
    ensures (y + 1) * cols == y * cols + cols
    ensures after[..(y + 1) * cols] == AlongRows(p, rows, cols, k)[..(y + 1) * cols]
  {
    var base := y * cols;
    forall i | 0 <= i < base + cols ensures after[i] == AlongRows(p, rows, cols, k)[i] {
      if i < base {
        assert before[..base][i] == AlongRows(p, rows, cols, k)[..base][i];
      } else {
        IndexOf(rows, cols, y, i - base);
      }
    }
  }

  lemma RowEndsAt(p: seq<bool>, rows: nat, cols: nat, y: nat)
    requires Plane(p, rows, cols) && y < rows
    ensures 0 <= y * cols && (y + 1) * cols == y * cols + cols <= |p|
    ensures p[..(y + 1) * cols] == p[..y * cols] + Row(p, rows, cols, y)
  {
    IndexOf(rows, cols, y, cols - 1);
    MulMono(0, y, cols);
    NextRow(y, cols);
  }

  lemma NextRow(y: nat, cols: nat)
    ensures (y + 1) * cols == y * cols + cols
  {
  }

  /** A row of the taps along columns takes three rows. */
  lemma RowOfColumnTaps(p: seq<bool>, rows: nat, cols: nat, k: nat, y: nat)
    requires Plane(p, rows, cols) && y < rows
    ensures forall x :: 0 <= x < cols ==>
              (Row(AlongColumns(p, rows, cols, k), rows, cols, y)[x] <==>
               Row(p, rows, cols, Clip(y - k, rows))[x] && Row(p, rows, cols, y)[x]
               && Row(p, rows, cols, Clip(y + k, rows))[x])
  {
    var up, down := Clip(y - k, rows), Clip(y + k, rows);
    var out := Row(AlongColumns(p, rows, cols, k), rows, cols, y);
    forall x | 0 <= x < cols
      ensures out[x] <==> Row(p, rows, cols, up)[x] && Row(p, rows, cols, y)[x] && Row(p, rows, cols, down)[x]
    {
      ColumnOfTaps(p, rows, cols, k, x);
      RowIsColumn(AlongColumns(p, rows, cols, k), rows, cols, y, x);
      RowIsColumn(p, rows, cols, up, x);
      RowIsColumn(p, rows, cols, y, x);
      RowIsColumn(p, rows, cols, down, x);
    }
  }

  lemma RowIsColumn(p: seq<bool>, rows: nat, cols: nat, y: nat, x: nat)
    requires Plane(p, rows, cols) && y < rows && x < cols
    ensures Row(p, rows, cols, y)[x] == Column(p, rows, cols, x)[y]
  {
    RowAt(p, rows, cols, y, x);
    ColumnAt(p, rows, cols, y, x);
  }

  /** Taps along every column, a row of them at a time. */
  method And3Rows(src: array<bool>, rows: nat, cols: nat, k: nat) returns (out: array<bool>)
    requires Plane(src[..], rows, cols)
    ensures fresh(out) && out[..] == AlongColumns(src[..], rows, cols, k)
  {
    out := new bool[src.Length](_ => false);
    ghost var spec := AlongColumns(src[..], rows, cols, k);
    for y := 0 to rows
      invariant 0 <= y * cols <= src.Length && out[..y * cols] == spec[..y * cols]
    {
      assert SatSub(y, k) == Clip(y - k, rows) && Min(y + k, rows - 1) == Clip(y + k, rows);
      var up := RowSlice(src, rows, cols, SatSub(y, k));
      var mid := RowSlice(src, rows, cols, y);
      var down := RowSlice(src, rows, cols, Min(y + k, rows - 1));
      RowOfColumnTaps(src[..], rows, cols, k, y);
      RowEndsAt(spec, rows, cols, y);
      AndRow(up, mid, down, out, y * cols, Row(spec, rows, cols, y));
    }
  }

  method AndRow(up: seq<bool>, mid: seq<bool>, down: seq<bool>, out: array<bool>, here: nat, ghost row: seq<bool>)
    requires |up| == |mid| == |down| == |row| && here + |row| <= out.Length
    requires forall x :: 0 <= x < |row| ==> (row[x] <==> up[x] && mid[x] && down[x])
    modifies out
    ensures out[..here + |row|] == old(out[..here]) + row
  {
    for x := 0 to |mid|
      invariant out[..here + x] == old(out[..here]) + row[..x]
    {
      out[here + x] := up[x] && mid[x] && down[x];
    }
  }

  /** Which pixels of a plane are worth rebuilding. */
  method Decide(dark: array<bool>, whole: array<bool>, rows: nat, cols: nat, clampL3: bool) returns (mask: array<bool>)
    requires Plane(dark[..], rows, cols) && Plane(whole[..], rows, cols)
    ensures fresh(mask) && mask[..] == MaskOf(dark[..], whole[..], rows, cols, clampL3)
  {
    var narrow := And3Cols(dark, rows, cols, 1);
    var rowDark := And3Cols(narrow, rows, cols, 3);
    var low := And3Rows(dark, rows, cols, 1);
    var colDark := And3Rows(low, rows, cols, 3);
    mask := new bool[dark.Length](_ => false);
    ghost var want := MaskOf(dark[..], whole[..], rows, cols, clampL3);
    ghost var along, down := rowDark[..], colDark[..];
    for y := 0 to rows
      invariant 0 <= y * cols <= mask.Length && mask[..y * cols] == want[..y * cols]
      invariant rowDark[..] == along && colDark[..] == down
      invariant forall i :: y * cols <= i < mask.Length ==> !mask[i]
    {
      var above := RowSlice(rowDark, rows, cols, SatSub(y, 4));
      var below := RowSlice(rowDark, rows, cols, Min(y + 4, rows - 1));
      var sides := RowSlice(colDark, rows, cols, y);
      var w := RowSlice(whole, rows, cols, y);
      assert SatSub(y, 4) == Clip(y - 4, rows) && Min(y + 4, rows - 1) == Clip(y + 4, rows);
      PassesSeeTheMask(dark[..], whole[..], rows, cols, clampL3, y);
      assert MaskRow(above, below, sides, w, clampL3) == Row(want, rows, cols, y);
      RowEndsAt(want, rows, cols, y);
      DecideRow(above, below, sides, w, mask, clampL3, y * cols);
    }
  }

  method RowSlice(plane: array<bool>, rows: nat, cols: nat, y: nat) returns (row: seq<bool>)
    requires Plane(plane[..], rows, cols) && y < rows
    ensures row == Row(plane[..], rows, cols, y)
  {
    IndexOf(rows, cols, y, cols - 1);
    MulMono(0, y, cols);
    row := plane[y * cols..y * cols + cols];
  }

  method DecideRow(above: seq<bool>, below: seq<bool>, sides: seq<bool>, whole: seq<bool>,
                   mask: array<bool>, clampL3: bool, here: nat)
    requires |above| == |below| == |sides| == |whole| && here + |whole| <= mask.Length
    requires forall i :: here <= i < mask.Length ==> !mask[i]
    modifies mask
    ensures mask[..here + |whole|] == old(mask[..here]) + MaskRow(above, below, sides, whole, clampL3)
    ensures forall i :: here + |whole| <= i < mask.Length ==> !mask[i]
  {
    var cols := |whole|;
    ghost var row := MaskRow(above, below, sides, whole, clampL3);
    for x := 0 to cols
      invariant mask[..here + x] == old(mask[..here]) + row[..x]
      invariant forall i :: here + x <= i < mask.Length ==> !mask[i]
    {
      assert row[..x + 1] == row[..x] + [row[x]];
      assert mask[..here + x + 1] == mask[..here + x] + [mask[here + x]];
      if clampL3 && whole[x] {
        continue;
      }
      assert SatSub(x, 4) == Clip(x - 4, cols) && Min(x + 4, cols - 1) == Clip(x + 4, cols);
      mask[here + x] := !(above[x] || below[x] || sides[SatSub(x, 4)] || sides[Min(x + 4, cols - 1)]);
    }
  }
}
