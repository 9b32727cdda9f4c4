/** The few facts of sequences that Dafny is shown. */
module Sequences {
  import opened Arith

  lemma SliceOfSlice<T>(s: seq<T>, a: nat, b: nat, c: nat, d: nat)
    requires a <= b <= |s| && c <= d <= b - a
    ensures s[a..b][c..d] == s[a + c..a + d]
  {
    var t, u := s[a..b][c..d], s[a + c..a + d];
    assert |t| == |u| && forall i :: 0 <= i < |t| ==> t[i] == u[i];
  }

  lemma Assoc<T>(a: seq<T>, b: seq<T>, c: seq<T>)
    ensures a + (b + c) == (a + b) + c
  {
  }

  /** Parts one after another, as one sequence. */
  function Flatten<T>(parts: seq<seq<T>>): seq<T> {
    if parts == [] then [] else parts[0] + Flatten(parts[1..])
  }

  /** Every part is `size` long. */
  predicate Even<T>(parts: seq<seq<T>>, size: nat) {
    forall i :: 0 <= i < |parts| ==> |parts[i]| == size
  }

  lemma {:induction false} FlattenLength<T>(parts: seq<seq<T>>, size: nat)
    requires Even(parts, size)
    ensures |Flatten(parts)| == |parts| * size
  {
    if parts != [] {
      FlattenLength(parts[1..], size);
      var n := |parts|;
      assert n * size == (n - 1) * size + size;
    }
  }

  /** Place `j` of part `i`. */
  lemma {:induction false} FlattenAt<T>(parts: seq<seq<T>>, size: nat, i: nat, j: nat)
    requires Even(parts, size) && i < |parts| && j < size
    ensures 0 <= i * size + j < |Flatten(parts)| && Flatten(parts)[i * size + j] == parts[i][j]
    decreases i
  {
    FlattenLength(parts, size);
    DigitBound(i, j, |parts|, size);
    if i > 0 {
      FlattenAt(parts[1..], size, i - 1, j);
      assert i * size + j == size + ((i - 1) * size + j);
    }
  }

  /** The whole of part `i`. */
  lemma {:induction false} PartAt<T>(parts: seq<seq<T>>, size: nat, i: nat)
    requires Even(parts, size) && i < |parts|
    ensures |Flatten(parts)| == |parts| * size
    ensures 0 <= i * size && i * size + size <= |Flatten(parts)|
    ensures Flatten(parts)[i * size..i * size + size] == parts[i]
  {
    FlattenLength(parts, size);
    Inside(i, |parts|, size);
    var part := Flatten(parts)[i * size..i * size + size];
    forall j | 0 <= j < size ensures part[j] == parts[i][j] {
      FlattenAt(parts, size, i, j);
    }
  }

  lemma Inside(i: nat, n: nat, size: nat)
    requires i < n
    ensures 0 <= i * size && i * size + size <= n * size
  {
    MulMono(0, i, size);
    MulMono(i + 1, n, size);
    assert (i + 1) * size == i * size + size;
  }

  /** Even parts of even parts are even parts. */
  lemma FlattenEven<T>(parts: seq<seq<seq<T>>>, size: nat, width: nat)
    requires Even(parts, size) && forall i :: 0 <= i < |parts| ==> Even(parts[i], width)
    ensures Even(Flatten(parts), width)
  {
    FlattenLength(parts, size);
    forall n | 0 <= n < |Flatten(parts)| ensures |Flatten(parts)[n]| == width {
      assert size > 0;
      DigitRange(n, |parts|, size);
      FundamentalDivMod(n, size);
      FlattenAt(parts, size, n / size, n % size);
    }
  }
}
