/**
 * The arithmetic of one decoded sample: the average of its readings, scaled to
 * the output's range before it is rounded.
 */
module Averaging {
  import opened Arith
  import opened Layouts

  /** Two to the `n`. */
  function Pow2(n: nat): (p: nat)
    ensures p >= 1
  {
    if n == 0 then 1 else 2 * Pow2(n - 1)
  }

  lemma {:induction false} Pow2Mono(m: nat, n: nat)
    requires m <= n
    ensures Pow2(m) <= Pow2(n)
    decreases n
  {
    if m < n { Pow2Mono(m, n - 1); }
  }

  /** The largest sample `bits` can hold. 0 means 16. */
  function Ceiling(bits: nat): (top: Sample)
    ensures top >= 1
    ensures 1 <= bits <= 16 ==> top == Pow2(bits) - 1
    ensures bits == 0 || bits >= 16 ==> top == 65535
  {
    assert Pow2(16) == 65536 by { assert Pow2(4) == 16 && Pow2(8) == 256 && Pow2(12) == 4096; }
    if bits == 0 || bits >= 16 then 0xFFFF
    else
      Pow2Mono(bits, 16);
      Pow2(bits) - 1
  }

  /** The stored value of `n` readings that add up to `sum`. */
  function Scaled(sum: nat, n: nat, top: nat, out: nat): Sample
    requires n > 0 && top > 0
  {
    MulMono(1, n, top);
    Min((2 * sum * out + n * top) / (2 * n * top), 0xFFFF)
  }

  /** `value` is nearest to `num / den`, and the upper of two that are equally near. */
  predicate Nearest(value: int, num: int, den: int) {
    2 * num - den < 2 * value * den <= 2 * num + den
  }

  lemma {:induction false} NearestUnique(v: int, w: int, num: int, den: int)
    requires den > 0 && Nearest(v, num, den) && Nearest(w, num, den)
    ensures v == w
  {
    if v < w { MulMono(v + 1, w, den); }
    if w < v { MulMono(w + 1, v, den); }
  }

  lemma RoundsToNearest(num: nat, den: nat)
    requires den > 0
    ensures Nearest((2 * num + den) / (2 * den), num, den)
  {
    var v := (2 * num + den) / (2 * den);
    FundamentalDivMod(2 * num + den, 2 * den);
    assert 2 * den * v == 2 * v * den;
  }

  /**
   * Readings that none exceed `top` store the integer nearest to their mean
   * times `out / top`, ties up, and never more than `out`.
   */
  lemma StoresNearestMean(sum: nat, n: nat, top: nat, out: Sample)
    requires n > 0 && top > 0 && sum <= n * top
    ensures Nearest(Scaled(sum, n, top, out), sum * out, n * top)
    ensures Scaled(sum, n, top, out) <= out
  {
    MulMono(1, n, top);
    var den := n * top;
    var v := (2 * (sum * out) + den) / (2 * den);
    RoundsToNearest(sum * out, den);
    assert 2 * sum * out == 2 * (sum * out) && 2 * n * top == 2 * den;
    MulMono(sum, den, out);
    assert 2 * v * den == 2 * (v * den);
    assert v <= out by {
      if v > out {
        MulMono(out + 1, v, den);
      }
    }
  }

  /** Readings that do exceed it store the nearest integer too, as far as a sample goes. */
  lemma StoresNearestOrTop(sum: nat, n: nat, top: nat, out: Sample)
    requires n > 0 && top > 0
    ensures if Scaled(sum, n, top, out) < 0xFFFF then Nearest(Scaled(sum, n, top, out), sum * out, n * top)
            else 2 * 0xFFFF * (n * top) <= 2 * (sum * out) + n * top
  {
    MulMono(1, n, top);
    MulMono(0, sum, out);
    var den := n * top;
    var v := (2 * (sum * out) + den) / (2 * den);
    RoundsToNearest(sum * out, den);
    assert 2 * sum * out == 2 * (sum * out) && 2 * n * top == 2 * den;
    if v >= 0xFFFF {
      MulMono(0xFFFF, v, den);
      assert 2 * v * den == 2 * (v * den);
    }
  }

  /** A brighter reading never stores a darker sample. */
  lemma StoresMonotone(sum: nat, sum': nat, n: nat, top: nat, out: nat)
    requires n > 0 && top > 0 && sum <= sum'
    ensures Scaled(sum, n, top, out) <= Scaled(sum', n, top, out)
  {
    MulMono(1, n, top);
    MulMono(sum, sum', out);
    var den := 2 * n * top;
    var a, b := 2 * sum * out + n * top, 2 * sum' * out + n * top;
    assert 2 * sum * out == 2 * (sum * out) && 2 * sum' * out == 2 * (sum' * out);
    DivMono(a, b, den);
  }

  /** One reading at the unit's own depth is stored as it is. */
  lemma OneReadingIsIdentity(v: Sample, top: Sample)
    requires 0 < top && v <= top
    ensures Scaled(v, 1, top, top) == v
  {
    StoresNearestMean(v, 1, top, top);
    assert Nearest(v, v * top, top) by { assert 2 * v * top == 2 * (v * top); }
    NearestUnique(Scaled(v, 1, top, top), v, v * top, top);
  }

  /** The entry of the full-scale table for `v`, `None` where samples fill 16 bits already. */
  function FullScale(bits: nat, v: Sample): Sample {
    if bits == 0 || bits >= 16 then v
    else
      var top := Ceiling(bits) as int;
      Min((Min(v, top) * 65535 + top / 2) / top, 0xFFFF)
  }

  /** Rounding half up by a floored half is the same for an odd divisor. */
  lemma OddHalf(num: nat, den: nat)
    requires den % 2 == 1
    ensures (num + den / 2) / den == (2 * num + den) / (2 * den)
  {
    var q := (num + den / 2) / den;
    FundamentalDivMod(num + den / 2, den);
    var r := (num + den / 2) % den;
    assert 2 * num + den == 2 * (num + den / 2) + 1;
    assert den * q == q * den && q * (2 * den) == 2 * (q * den);
    DivModUnique(2 * num + den, 2 * den, q, 2 * r + 1);
  }

  lemma CeilingOdd(bits: nat)
    ensures Ceiling(bits) % 2 == 1
  {
  }

  /**
   * Equal readings store what the full-scale table gives one of them, so a
   * channel read once and one read often come out at one scale.
   */
  lemma EqualReadingsAreFullScale(v: Sample, n: nat, bits: nat)
    requires n > 0 && v <= Ceiling(bits)
    ensures Scaled(n * v, n, Ceiling(bits), 0xFFFF) == FullScale(bits, v)
  {
    var top := Ceiling(bits) as int;
    MulMono(v, top, n);
    MulMono(1, n, top);
    StoresNearestMean(n * v, n, top, 0xFFFF);
    RoundsToNearest(v * 0xFFFF, top);
    var w := (2 * (v * 0xFFFF) + top) / (2 * top);
    ScaleNearest(w, v * 0xFFFF, top, n);
    assert n * v * 0xFFFF == n * (v * 0xFFFF);
    NearestUnique(Scaled(n * v, n, top, 0xFFFF), w, n * (v * 0xFFFF), n * top);
    CeilingOdd(bits);
    OddHalf(v * 0xFFFF, top);
    if bits == 0 || bits >= 16 {
      DivModUnique(2 * (v * 0xFFFF) + top, 2 * top, v, top);
    }
  }

  /** The table begins at nothing and is full from the ceiling on. */
  lemma FullScaleEnds(bits: nat, v: Sample)
    ensures FullScale(bits, 0) == 0
    ensures v >= Ceiling(bits) ==> FullScale(bits, v) == if v > 0 && 1 <= bits <= 15 then 65535 else v
  {
    var top := Ceiling(bits) as int;
    DivModUnique(top / 2, top, 0, top / 2);
    DivModUnique(top * 65535 + top / 2, top, 65535, top / 2);
  }

  lemma ScaleNearest(w: int, num: int, den: int, n: nat)
    requires n > 0 && den > 0 && Nearest(w, num, den)
    ensures Nearest(w, n * num, n * den)
  {
    var m := 2 * w * den;
    assert 2 * w * (n * den) == n * m;
    assert n * (2 * num - den) == 2 * (n * num) - n * den;
    assert n * (2 * num + den) == 2 * (n * num) + n * den;
    MulMono(2 * num - den + 1, m, n);
    MulMono(m, 2 * num + den, n);
    assert (2 * num - den + 1) * n == n * (2 * num - den) + n;
  }
}
