/** Order statistics: what the entry at a place of a sorted sequence says about the sequence. */
module Ranks {

  function Below(v: seq<real>, r: real): (n: nat)
    ensures n <= |v|
  {
    if v == [] then 0 else (if v[0] < r then 1 else 0) + Below(v[1..], r)
  }

  function Upto(v: seq<real>, r: real): (n: nat)
    ensures Below(v, r) <= n <= |v|
  {
    if v == [] then 0 else (if v[0] <= r then 1 else 0) + Upto(v[1..], r)
  }

  predicate Ordered(v: seq<real>) {
    forall i, j :: 0 <= i <= j < |v| ==> v[i] <= v[j]
  }

  function Insert(x: real, v: seq<real>): (s: seq<real>)
    ensures |s| == |v| + 1
  {
    if v == [] || x <= v[0] then [x] + v else [v[0]] + Insert(x, v[1..])
  }

  function Sorted(v: seq<real>): (s: seq<real>)
    ensures |s| == |v|
  {
    if v == [] then [] else Insert(v[0], Sorted(v[1..]))
  }

  lemma {:induction false} InsertKeeps(x: real, v: seq<real>, r: real)
    ensures Below(Insert(x, v), r) == Below(v, r) + if x < r then 1 else 0
    ensures Upto(Insert(x, v), r) == Upto(v, r) + if x <= r then 1 else 0
  {
    if v == [] || x <= v[0] {
      assert ([x] + v)[1..] == v;
    } else {
      InsertKeeps(x, v[1..], r);
      assert ([v[0]] + Insert(x, v[1..]))[1..] == Insert(x, v[1..]);
    }
  }

  lemma {:induction false} InsertOrders(x: real, v: seq<real>)
    requires Ordered(v)
    ensures Ordered(Insert(x, v))
    ensures Insert(x, v)[0] == if v == [] || x <= v[0] then x else v[0]
  {
    if v != [] && x > v[0] {
      InsertOrders(x, v[1..]);
    }
  }

  /** Sorting puts a sequence in order and changes no count of it. */
  lemma {:induction false} SortedKeeps(v: seq<real>, r: real)
    ensures Ordered(Sorted(v))
    ensures Below(Sorted(v), r) == Below(v, r) && Upto(Sorted(v), r) == Upto(v, r)
  {
    if v != [] {
      SortedKeeps(v[1..], r);
      InsertKeeps(v[0], Sorted(v[1..]), r);
      InsertOrders(v[0], Sorted(v[1..]));
    }
  }

  /** A value of `v` with no more than `k` others below it, and more than `k` no greater. */
  predicate IsKth(v: seq<real>, k: nat, r: real) {
    r in v && Below(v, r) <= k < Upto(v, r)
  }

  lemma {:induction false} OrderedKth(v: seq<real>, k: nat)
    requires Ordered(v) && k < |v|
    ensures IsKth(v, k, v[k])
  {
    if k > 0 {
      OrderedKth(v[1..], k - 1);
      assert v[1..][k - 1] == v[k];
    } else {
      NoneBelow(v, v[0]);
    }
  }

  lemma {:induction false} NoneBelow(v: seq<real>, r: real)
    requires forall i :: 0 <= i < |v| ==> r <= v[i]
    ensures Below(v, r) == 0
  {
    if v != [] { NoneBelow(v[1..], r); }
  }

  lemma SortedIsKth(v: seq<real>, k: nat)
    requires k < |v|
    ensures IsKth(v, k, Sorted(v)[k])
  {
    var r := Sorted(v)[k];
    SortedKeeps(v, r);
    OrderedKth(Sorted(v), k);
    HoldingMeansIn(v, r);
  }

  /** What sorting puts at place `k`. */
  function Kth(v: seq<real>, k: nat): (r: real)
    requires k < |v|
    ensures IsKth(v, k, r)
  {
    SortedIsKth(v, k);
    Sorted(v)[k]
  }

  lemma {:induction false} UptoBelow(v: seq<real>, r: real, s: real)
    requires r < s
    ensures Upto(v, r) <= Below(v, s)
  {
    if v != [] { UptoBelow(v[1..], r, s); }
  }

  /** And nothing else is at that rank. */
  lemma KthUnique(v: seq<real>, k: nat, r: real)
    requires k < |v| && Below(v, r) <= k < Upto(v, r)
    ensures r == Kth(v, k)
  {
    var s := Kth(v, k);
    if r < s { UptoBelow(v, r, s); }
    if s < r { UptoBelow(v, s, r); }
  }

  function Median(v: seq<real>): real
    requires v != []
  {
    Kth(v, |v| / 2)
  }

  function Abs(x: real): real { if x < 0.0 then -x else x }

  function Away(v: seq<real>, m: real): (d: seq<real>)
    ensures |d| == |v|
  {
    seq(|v|, i requires 0 <= i < |v| => Abs(v[i] - m))
  }

  /** How far the middle one of `v` is from the middle of `v`. */
  function Spread(v: seq<real>): real
    requires v != []
  {
    Median(Away(v, Median(v)))
  }

  /** How many of `v` are exactly `r`. */
  function Holding(v: seq<real>, r: real): int { Upto(v, r) - Below(v, r) }

  /** How many are exactly `r` are how many are no distance from it, and a distance is never less. */
  lemma {:induction false} HoldingAway(v: seq<real>, r: real)
    ensures Upto(Away(v, r), 0.0) == Holding(v, r) && Below(Away(v, r), 0.0) == 0
  {
    if v != [] {
      HoldingAway(v[1..], r);
      assert Away(v, r)[1..] == Away(v[1..], r);
    }
  }

  /** Where more than half of the values are one value, that is the median. */
  lemma MajorityIsMedian(v: seq<real>, r: real)
    requires v != [] && 2 * Holding(v, r) > |v|
    ensures Median(v) == r
  {
    KthUnique(v, |v| / 2, r);
  }

  lemma {:induction false} HoldingMeansIn(v: seq<real>, r: real)
    requires Holding(v, r) > 0
    ensures r in v
  {
    if v != [] && v[0] != r { HoldingMeansIn(v[1..], r); }
  }

  /**
   * The spread is nothing exactly when more than half of the values agree: what
   * the others are does not come into it.
   */
  lemma SpreadIsZero(v: seq<real>)
    requires v != []
    ensures Spread(v) == 0.0 <==> exists r :: 2 * Holding(v, r) > |v|
  {
    var m := Median(v);
    HoldingAway(v, m);
    if Spread(v) == 0.0 {
      assert |v| / 2 < Upto(Away(v, m), 0.0);
      assert 2 * Holding(v, m) > |v|;
    }
    if r :| 2 * Holding(v, r) > |v| {
      MajorityIsMedian(v, r);
      assert m == r;
      MajorityIsMedian(Away(v, m), 0.0);
    }
  }

  // ----- polarity

  /** The same levels on film of the other polarity. */
  function Inverted(v: seq<real>): (w: seq<real>)
    ensures |w| == |v|
  {
    seq(|v|, i requires 0 <= i < |v| => 1.0 - v[i])
  }

  lemma {:induction false} InvertedCounts(v: seq<real>, r: real)
    ensures Below(Inverted(v), 1.0 - r) == |v| - Upto(v, r)
    ensures Upto(Inverted(v), 1.0 - r) == |v| - Below(v, r)
  {
    if v != [] {
      InvertedCounts(v[1..], r);
      assert Inverted(v)[1..] == Inverted(v[1..]);
    }
  }

  /** Inverting turns the ranks about. */
  lemma InvertedKth(v: seq<real>, k: nat)
    requires k < |v|
    ensures Kth(Inverted(v), |v| - 1 - k) == 1.0 - Kth(v, k)
  {
    var r := Kth(v, k);
    InvertedCounts(v, r);
    KthUnique(Inverted(v), |v| - 1 - k, 1.0 - r);
  }

  /** An odd number of values spreads the same either way up, and so do two. */
  lemma SpreadInverted(v: seq<real>)
    requires |v| % 2 == 1 || |v| == 2
    ensures Spread(Inverted(v)) == Spread(v)
  {
    if |v| == 2 {
      PairSpread(v);
      PairSpread(Inverted(v));
    } else {
      var m := Median(v);
      InvertedKth(v, |v| / 2);
      assert Median(Inverted(v)) == 1.0 - m;
      AwayInverted(v, m);
    }
  }

  lemma AwayInverted(v: seq<real>, m: real)
    ensures Away(Inverted(v), 1.0 - m) == Away(v, m)
  {
  }

  lemma PairSpread(v: seq<real>)
    requires |v| == 2
    ensures Spread(v) == Abs(v[0] - v[1])
  {
    var m := if v[0] < v[1] then v[1] else v[0];
    PairKth(v, if v[0] < v[1] then 1 else 0);
    var d := Away(v, m);
    PairKth(d, if v[0] < v[1] then 0 else 1);
  }

  lemma PairKth(v: seq<real>, i: nat)
    requires |v| == 2 && i < 2 && v[0] <= v[i] && v[1] <= v[i]
    ensures Median(v) == v[i]
  {
    assert v[1..][1..] == [];
    KthUnique(v, 1, v[i]);
  }

  /** `n` times `x` and `y`, and then `p` and `q`. */
  function Pairs(n: nat, x: real, y: real, p: real, q: real): (v: seq<real>)
    ensures |v| == 2 * n + 2
  {
    if n == 0 then [p, q] else [x, y] + Pairs(n - 1, x, y, p, q)
  }

  function Bit(b: bool): int { if b then 1 else 0 }

  lemma {:induction false} PairsCounts(n: nat, x: real, y: real, p: real, q: real, r: real)
    ensures Below(Pairs(n, x, y, p, q), r) == n * (Bit(x < r) + Bit(y < r)) + Bit(p < r) + Bit(q < r)
    ensures Upto(Pairs(n, x, y, p, q), r) == n * (Bit(x <= r) + Bit(y <= r)) + Bit(p <= r) + Bit(q <= r)
  {
    var v := Pairs(n, x, y, p, q);
    if n == 0 {
      assert v[1..] == [q] && v[1..][1..] == [];
      assert Below([q], r) == Bit(q < r) && Upto([q], r) == Bit(q <= r);
    } else {
      PairsCounts(n - 1, x, y, p, q, r);
      assert v[1..] == [y] + Pairs(n - 1, x, y, p, q);
      assert v[1..][1..] == Pairs(n - 1, x, y, p, q);
    }
  }

  lemma AwaySplit(v: seq<real>, w: seq<real>, m: real)
    ensures Away(v + w, m) == Away(v, m) + Away(w, m)
  {
  }

  lemma InvertedSplit(v: seq<real>, w: seq<real>)
    ensures Inverted(v + w) == Inverted(v) + Inverted(w)
  {
  }

  lemma {:induction false} PairsAway(n: nat, x: real, y: real, p: real, q: real, m: real)
    ensures Away(Pairs(n, x, y, p, q), m) == Pairs(n, Abs(x - m), Abs(y - m), Abs(p - m), Abs(q - m))
  {
    if n > 0 {
      PairsAway(n - 1, x, y, p, q, m);
      AwaySplit([x, y], Pairs(n - 1, x, y, p, q), m);
    }
  }

  lemma {:induction false} PairsInverted(n: nat, x: real, y: real, p: real, q: real)
    ensures Inverted(Pairs(n, x, y, p, q)) == Pairs(n, 1.0 - x, 1.0 - y, 1.0 - p, 1.0 - q)
  {
    if n > 0 {
      PairsInverted(n - 1, x, y, p, q);
      InvertedSplit([x, y], Pairs(n - 1, x, y, p, q));
    }
  }

  lemma PairsMedian(n: nat, x: real, y: real, p: real, q: real, r: real, b: nat, u: nat)
    requires b == Bit(x < r) + Bit(y < r) && u == Bit(x <= r) + Bit(y <= r)
    requires n * b + Bit(p < r) + Bit(q < r) <= n + 1 < n * u + Bit(p <= r) + Bit(q <= r)
    ensures Median(Pairs(n, x, y, p, q)) == r
  {
    PairsCounts(n, x, y, p, q, r);
    KthUnique(Pairs(n, x, y, p, q), n + 1, r);
  }

  /** Levels that are 3 tenths apart one way up. */
  lemma Upright(n: nat)
    requires n >= 1
    ensures Spread(Pairs(n, 0.0, 1.0, 0.2, 0.3)) == 0.3
  {
    PairsMedian(n, 0.0, 1.0, 0.2, 0.3, 0.3, 1, 1);
    PairsAway(n, 0.0, 1.0, 0.2, 0.3, 0.3);
    PairsMedian(n, 0.3, 0.7, 0.1, 0.0, 0.3, 0, 1);
  }

  /** And 2 tenths the other. */
  lemma UpsideDown(n: nat)
    requires n >= 1
    ensures Spread(Pairs(n, 1.0, 0.0, 0.8, 0.7)) == 0.2
  {
    PairsMedian(n, 1.0, 0.0, 0.8, 0.7, 0.8, 1, 1);
    PairsAway(n, 1.0, 0.0, 0.8, 0.7, 0.8);
    PairsMedian(n, 0.2, 0.8, 0.0, 0.1, 0.2, 0, 1);
  }

  /** Whether how much the values disagree is the same whichever way up they are. */
  predicate EitherWayUp(v: seq<real>)
    requires v != []
  {
    Spread(Inverted(v)) == Spread(v)
  }

  /**
   * The polarity of the film never comes into how `n` gaps disagree exactly when
   * `n` is odd, or two.
   */
  lemma PolarityMatters(n: nat)
    requires n >= 1
    ensures (forall v: seq<real> :: |v| == n ==> EitherWayUp(v)) <==> n % 2 == 1 || n == 2
  {
    if n % 2 == 1 || n == 2 {
      forall v: seq<real> | |v| == n ensures EitherWayUp(v) {
        SpreadInverted(v);
      }
    } else {
      var pairs := n / 2 - 1;
      var v := Pairs(pairs, 0.0, 1.0, 0.2, 0.3);
      Upright(pairs);
      UpsideDown(pairs);
      PairsInverted(pairs, 0.0, 1.0, 0.2, 0.3);
      assert !EitherWayUp(v);
    }
  }
}
