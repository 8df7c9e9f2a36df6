/** Distances between two solution arrays of the same shape. */
module Distances {
  import opened Wrappers

  /** The number of positions where the two arrays differ. */
  function Mismatches<T(==)>(a: seq<T>, b: seq<T>): (r: nat)
    requires |a| == |b|
    ensures r <= |a|
    ensures r == 0 <==> a == b
    decreases |a|
  {
    if |a| == 0 then 0
    else
      var n := |a| - 1;
      assert a == a[..n] + [a[n]] && b == b[..n] + [b[n]];
      Mismatches(a[..n], b[..n]) + (if a[n] != b[n] then 1 else 0)
  }

  /** The set of positions where the two arrays differ. */
  function DiffSet<T(==)>(a: seq<T>, b: seq<T>): set<nat>
    requires |a| == |b|
  {
    set i: nat | i < |a| && a[i] != b[i]
  }

  /** The mismatch count is the number of differing positions. */
  lemma {:induction false} MismatchesIsCardinality<T>(a: seq<T>, b: seq<T>)
    requires |a| == |b|
    ensures Mismatches(a, b) == |DiffSet(a, b)|
  {
    if |a| > 0 {
      var n := |a| - 1;
      MismatchesIsCardinality(a[..n], b[..n]);
      if a[n] != b[n] {
        assert DiffSet(a, b) == DiffSet(a[..n], b[..n]) + {n};
      } else {
        assert DiffSet(a, b) == DiffSet(a[..n], b[..n]);
      }
    }
  }

  lemma {:induction false} MismatchesSymmetric<T>(a: seq<T>, b: seq<T>)
    requires |a| == |b|
    ensures Mismatches(a, b) == Mismatches(b, a)
  {
    if |a| > 0 {
      MismatchesSymmetric(a[..|a| - 1], b[..|a| - 1]);
    }
  }

  /** hamming_distance: a shape mismatch is a ValueError; otherwise the number of differing
      positions, zero exactly for equal arrays. */
  function HammingDistance<T(==)>(a: seq<T>, b: seq<T>): (r: Result<nat>)
    ensures r.Failure? <==> |a| != |b|
    ensures r.Failure? ==> r.error == ValueError
    ensures r.Success? ==> r.value == |DiffSet(a, b)| <= |a|
    ensures r.Success? ==> (r.value == 0 <==> a == b)
  {
    if |a| != |b| then Failure(ValueError)
    else
      MismatchesIsCardinality(a, b);
      Success(Mismatches(a, b))
  }

  function Abs(x: real): real {
    if x < 0.0 then -x else x
  }

  /** The sum of the absolute differences. */
  function AbsDiffSum(a: seq<real>, b: seq<real>): (r: real)
    requires |a| == |b|
    ensures r >= 0.0
    ensures r == 0.0 <==> a == b
    decreases |a|
  {
    if |a| == 0 then 0.0
    else
      var n := |a| - 1;
      assert a == a[..n] + [a[n]] && b == b[..n] + [b[n]];
      AbsDiffSum(a[..n], b[..n]) + Abs(a[n] - b[n])
  }

  lemma {:induction false} AbsDiffSumSymmetric(a: seq<real>, b: seq<real>)
    requires |a| == |b|
    ensures AbsDiffSum(a, b) == AbsDiffSum(b, a)
  {
    if |a| > 0 {
      AbsDiffSumSymmetric(a[..|a| - 1], b[..|a| - 1]);
    }
  }

  /** manhattan_distance: a shape mismatch is a ValueError; otherwise the order-1 norm of the
      difference, zero exactly for equal arrays. */
  function ManhattanDistance(a: seq<real>, b: seq<real>): (r: Result<real>)
    ensures r.Failure? <==> |a| != |b|
    ensures r.Failure? ==> r.error == ValueError
    ensures r.Success? ==> r.value == AbsDiffSum(a, b)
    ensures r.Success? ==> r.value >= 0.0 && (r.value == 0.0 <==> a == b)
  {
    if |a| != |b| then Failure(ValueError) else Success(AbsDiffSum(a, b))
  }

  /** Both distances are symmetric. */
  lemma DistancesSymmetric<T>(x: seq<T>, y: seq<T>, a: seq<real>, b: seq<real>)
    ensures HammingDistance(x, y) == HammingDistance(y, x)
    ensures ManhattanDistance(a, b) == ManhattanDistance(b, a)
  {
    if |x| == |y| {
      MismatchesSymmetric(x, y);
      MismatchesIsCardinality(x, y);
      MismatchesIsCardinality(y, x);
    }
    if |a| == |b| {
      AbsDiffSumSymmetric(a, b);
    }
  }
}
