/** Boundaries of the solution space: per attribute, a minimum, a maximum and the space size used
    to normalize a solution vector. The (3, n) array is kept as its three rows. */
module Boundary {
  import opened Wrappers

  /** The element type of the array: numpy's int or float. */
  datatype Dtype = IntType | FloatType

  /** numpy's float resolution, added to every space size so that it is never zero. */
  const Epsilon: real := 0.000000000000001

  /** Conversion of a float to an integer, truncating toward zero. */
  function Trunc(x: real): (r: int)
    ensures 0.0 <= x ==> r as real <= x < r as real + 1.0
    ensures x < 0.0 ==> r as real - 1.0 < x <= r as real
  {
    if x >= 0.0 then x.Floor else -((-x).Floor)
  }

  /** Storing a value in an array of the given type. */
  function Cast(x: real, dtype: Dtype): real {
    match dtype
    case IntType => Trunc(x) as real
    case FloatType => x
  }

  predicate Integral(x: real) {
    x.Floor as real == x
  }

  datatype Boundaries = Boundaries(mins: seq<real>, maxs: seq<real>, scales: seq<real>, dtype: Dtype) {
    /** Three rows of the same length, and no maximum below its minimum. */
    ghost predicate WellFormed() {
      |mins| == |maxs| == |scales| &&
      forall i :: 0 <= i < |mins| ==> mins[i] <= maxs[i]
    }

    function MaxVal(index: nat): real
      requires index < |maxs|
    {
      maxs[index]
    }

    function MaxVals(): seq<real> {
      maxs
    }

    function MinVal(index: nat): real
      requires index < |mins|
    {
      mins[index]
    }

    function MinVals(): seq<real> {
      mins
    }
  }

  /** The array the constructor builds: the two input rows and the space-size row, stored in the
      requested type. */
  function Build(minimums: seq<real>, maximums: seq<real>, dtype: Dtype): (b: Boundaries)
    requires |minimums| == |maximums|
    ensures |b.mins| == |b.maxs| == |b.scales| == |minimums| && b.dtype == dtype
  {
    Boundaries(
      seq(|minimums|, i requires 0 <= i < |minimums| => Cast(minimums[i], dtype)),
      seq(|minimums|, i requires 0 <= i < |minimums| => Cast(maximums[i], dtype)),
      seq(|minimums|, i requires 0 <= i < |minimums| => Cast(maximums[i] - minimums[i] + Epsilon, dtype)),
      dtype)
  }

  /** The constructor: unequal lengths, then every index whose maximum is below its minimum, are
      reported; otherwise the array is built. */
  method New(minimums: seq<real>, maximums: seq<real>, dtype: Dtype) returns (r: Result<Boundaries>)
    ensures |minimums| != |maximums| ==> r == Failure(ValueError)
    ensures |minimums| == |maximums| ==>
              (r.Failure? <==> exists i :: 0 <= i < |minimums| && maximums[i] < minimums[i])
    ensures r.Failure? && |minimums| == |maximums| ==>
              r.error.InvertedBounds? &&
              (forall i :: i in r.error.indexes <==> 0 <= i < |minimums| && maximums[i] < minimums[i]) &&
              (forall p, q :: 0 <= p < q < |r.error.indexes| ==> r.error.indexes[p] < r.error.indexes[q])
    ensures r.Success? ==> r.value == Build(minimums, maximums, dtype) && r.value.WellFormed()
  {
    var n := |minimums|;
    if n != |maximums| {
      return Failure(ValueError);
    }
    var errIndexes: seq<nat> := [];
    var i := 0;
    while i < n
      invariant 0 <= i <= n
      invariant forall k :: k in errIndexes <==> 0 <= k < i && maximums[k] < minimums[k]
      invariant forall p, q :: 0 <= p < q < |errIndexes| ==> errIndexes[p] < errIndexes[q]
      invariant forall p :: 0 <= p < |errIndexes| ==> errIndexes[p] < i
    {
      if maximums[i] < minimums[i] {
        errIndexes := errIndexes + [i];
      }
      i := i + 1;
    }
    if errIndexes != [] {
      assert errIndexes[0] in errIndexes;
      return Failure(InvertedBounds(errIndexes));
    }
    var b := Build(minimums, maximums, dtype);
    CastMonotone(dtype);
    r := Success(b);
  }

  lemma CastMonotone(dtype: Dtype)
    ensures forall x: real, y: real :: x <= y ==> Cast(x, dtype) <= Cast(y, dtype)
  {
    forall x: real, y: real | x <= y
      ensures Cast(x, dtype) <= Cast(y, dtype)
    {
      if dtype == IntType {
        assert Trunc(x) <= Trunc(y);
      }
    }
  }

  /** Float boundaries store the inputs unchanged and every space size is positive. */
  lemma FloatRows(minimums: seq<real>, maximums: seq<real>)
    requires |minimums| == |maximums|
    requires forall i :: 0 <= i < |minimums| ==> minimums[i] <= maximums[i]
    ensures Build(minimums, maximums, FloatType).MinVals() == minimums
    ensures Build(minimums, maximums, FloatType).MaxVals() == maximums
    ensures forall i :: 0 <= i < |minimums| ==>
              Build(minimums, maximums, FloatType).MinVal(i) == minimums[i] &&
              Build(minimums, maximums, FloatType).MaxVal(i) == maximums[i] &&
              Build(minimums, maximums, FloatType).scales[i] > 0.0
  {
  }

  /** Integer boundaries built from integral inputs store the inputs unchanged, and the space size
      is exactly the difference of maximum and minimum (the epsilon is truncated away). */
  lemma IntRows(minimums: seq<real>, maximums: seq<real>)
    requires |minimums| == |maximums|
    requires forall i :: 0 <= i < |minimums| ==> Integral(minimums[i]) && Integral(maximums[i])
    requires forall i :: 0 <= i < |minimums| ==> minimums[i] <= maximums[i]
    ensures Build(minimums, maximums, IntType).MinVals() == minimums
    ensures Build(minimums, maximums, IntType).MaxVals() == maximums
    ensures forall i :: 0 <= i < |minimums| ==>
              Build(minimums, maximums, IntType).scales[i] == maximums[i] - minimums[i]
  {
    var b := Build(minimums, maximums, IntType);
    forall i | 0 <= i < |minimums|
      ensures b.mins[i] == minimums[i] && b.maxs[i] == maximums[i]
      ensures b.scales[i] == maximums[i] - minimums[i]
    {
      IntegralTrunc(minimums[i]);
      IntegralTrunc(maximums[i]);
      var d := maximums[i] - minimums[i];
      assert d.Floor as real == d by {
        assert d == (maximums[i].Floor - minimums[i].Floor) as real;
      }
      assert Trunc(d + Epsilon) == d.Floor;
    }
  }

  lemma IntegralTrunc(x: real)
    requires Integral(x)
    ensures Trunc(x) as real == x
  {
    var n := x.Floor;
    if x < 0.0 {
      assert -x == (-n) as real;
      assert (-x).Floor == -n;
    }
  }

  /** normalize as written: elementwise division by the space-size row. A zero space size makes
      numpy produce inf or nan, which is reported as None. */
  function NormalizeAsWritten(b: Boundaries, v: seq<real>): (r: Option<seq<real>>)
    requires |v| == |b.scales|
    ensures r.None? <==> exists i :: 0 <= i < |v| && b.scales[i] == 0.0
    ensures r.Some? ==> |r.value| == |v| && forall i :: 0 <= i < |v| ==> r.value[i] * b.scales[i] == v[i]
  {
    if exists i :: 0 <= i < |v| && b.scales[i] == 0.0 then None
    else Some(seq(|v|, i requires 0 <= i < |v| => v[i] / b.scales[i]))
  }

  /** The space size of attribute i, computed as a float whatever the array's type. */
  function Divisor(b: Boundaries, i: nat): (d: real)
    requires b.WellFormed() && i < |b.mins|
    ensures d >= Epsilon
  {
    b.maxs[i] - b.mins[i] + Epsilon
  }

  /** normalize with the epsilon guard kept for integer arrays: each component is divided by a
      strictly positive space size. */
  function Normalize(b: Boundaries, v: seq<real>): (r: seq<real>)
    requires b.WellFormed() && |v| == |b.mins|
    ensures |r| == |v|
    ensures forall i :: 0 <= i < |v| ==> r[i] * Divisor(b, i) == v[i]
  {
    seq(|v|, i requires 0 <= i < |v| => v[i] / Divisor(b, i))
  }

  /** Normalizing keeps the sign of every component; in particular zero components stay zero and
      only they do. */
  lemma NormalizeKeepsSigns(b: Boundaries, v: seq<real>, i: nat)
    requires b.WellFormed() && |v| == |b.mins| && i < |v|
    ensures Normalize(b, v)[i] == 0.0 <==> v[i] == 0.0
    ensures Normalize(b, v)[i] > 0.0 <==> v[i] > 0.0
  {
    var d := Divisor(b, i);
    var x := Normalize(b, v)[i];
    assert x * d == v[i];
    if x > 0.0 {
      assert x * d > 0.0;
    } else if x < 0.0 {
      assert x * d < 0.0;
    }
  }

  /** For float boundaries both versions of normalize agree. */
  lemma NormalizeAgreesOnFloat(minimums: seq<real>, maximums: seq<real>, v: seq<real>)
    requires |minimums| == |maximums| == |v|
    requires forall i :: 0 <= i < |minimums| ==> minimums[i] <= maximums[i]
    ensures Build(minimums, maximums, FloatType).WellFormed()
    ensures NormalizeAsWritten(Build(minimums, maximums, FloatType), v)
            == Some(Normalize(Build(minimums, maximums, FloatType), v))
  {
    var b := Build(minimums, maximums, FloatType);
    assert forall i :: 0 <= i < |v| ==> b.scales[i] == Divisor(b, i) > 0.0;
    assert NormalizeAsWritten(b, v).value == Normalize(b, v);
  }

  /** Integer boundaries whose minimum equals its maximum get a zero space size, so normalize as
      written divides by zero. */
  lemma IntScaleTruncatesEpsilon()
    ensures Build([3.0], [3.0], IntType).scales == [0.0]
    ensures NormalizeAsWritten(Build([3.0], [3.0], IntType), [1.0]).None?
  {
    var b := Build([3.0], [3.0], IntType);
    assert 0.0 <= Epsilon < 1.0;
    assert Epsilon.Floor == 0;
    assert b.scales[0] == Cast(3.0 - 3.0 + Epsilon, IntType) == Trunc(Epsilon) as real;
  }
}
