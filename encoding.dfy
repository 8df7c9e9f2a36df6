/** Encodings of candidate solutions (binary, bounded integer, bounded real, permutation), and the
    solutions themselves. */
module Encodings {
  import opened Wrappers
  import opened Boundary
  import opened Distances
  import opened RandomDraws
  import Modif

  /** The order of the norm used for distances: 0 (count of nonzero components), 1 (sum of absolute
      values) or 2 (Euclidean). */
  datatype NormOrder = Order0 | Order1 | Order2

  datatype Encoding =
      /** The base class, built with optional boundaries and an optional norm order. */
    | Base(baseBounds: Option<Boundaries>, baseOrd: Option<NormOrder>)
    | BinaryEncoding(size: nat, bounds: Boundaries)
    | DiscreteEncoding(bounds: Boundaries)
    | RealEncoding(bounds: Boundaries)
    | PermutationEncoding(items: seq<int>)
  {
    function BoundsOf(): Option<Boundaries> {
      match this
      case Base(b, _) => b
      case PermutationEncoding(_) => None
      case _ => Some(bounds)
    }

    function Ord(): Option<NormOrder> {
      match this
      case Base(_, o) => o
      case BinaryEncoding(_, _) => Some(Order0)
      case DiscreteEncoding(_) => Some(Order1)
      case RealEncoding(_) => Some(Order2)
      case PermutationEncoding(_) => None
    }
  }

  /** What the constructors establish: well-formed boundaries of the required type and size. */
  ghost predicate ValidEncoding(e: Encoding) {
    match e
    case Base(b, _) => b.Some? ==> b.value.WellFormed()
    case BinaryEncoding(n, b) => b.WellFormed() && |b.mins| == n && b.dtype == IntType
    case DiscreteEncoding(b) => b.WellFormed() && b.dtype == IntType
    case RealEncoding(b) => b.WellFormed() && b.dtype == FloatType
    case PermutationEncoding(_) => true
  }

  /** A candidate solution: its values, the encoding it belongs to and its fitness, if computed.
      The encoding is compared by value. */
  datatype Solution<T> = Solution(values: seq<T>, encoding: Encoding, fitness: Option<real>)

  /** Solution.copy: the same values and encoding; the fitness only when asked for. */
  function Copy<T>(s: Solution<T>, copyFitness: bool): (c: Solution<T>)
    ensures c.values == s.values && c.encoding == s.encoding
    ensures c.fitness == if copyFitness then s.fitness else None
  {
    Solution(s.values, s.encoding, if copyFitness then s.fitness else None)
  }

  /** Solution.to_bounds on real values: every value is clipped into its attribute's range; an
      encoding without boundaries leaves the values as they are. */
  function ToBounds(s: Solution<real>): (r: Solution<real>)
    requires ValidEncoding(s.encoding)
    requires s.encoding.BoundsOf().Some? ==> |s.values| == |s.encoding.BoundsOf().value.mins|
    ensures r.encoding == s.encoding && r.fitness == s.fitness && |r.values| == |s.values|
    ensures s.encoding.BoundsOf().None? ==> r.values == s.values
    ensures s.encoding.BoundsOf().Some? ==>
              var b := s.encoding.BoundsOf().value;
              forall i :: 0 <= i < |s.values| ==>
                b.mins[i] <= r.values[i] <= b.maxs[i] &&
                (b.mins[i] <= s.values[i] <= b.maxs[i] ==> r.values[i] == s.values[i]) &&
                (s.values[i] < b.mins[i] ==> r.values[i] == b.mins[i]) &&
                (s.values[i] > b.maxs[i] ==> r.values[i] == b.maxs[i])
  {
    match s.encoding.BoundsOf()
    case None => s
    case Some(b) =>
      var clipped := seq(|s.values|, i requires 0 <= i < |s.values| =>
        if s.values[i] < b.mins[i] then b.mins[i]
        else if s.values[i] > b.maxs[i] then b.maxs[i]
        else s.values[i]);
      Solution(clipped, s.encoding, s.fitness)
  }

  /** A solution of integer values seen as floats, as numpy does when it subtracts them. */
  function AsReal(s: Solution<int>): (r: Solution<real>)
    ensures |r.values| == |s.values| && r.encoding == s.encoding && r.fitness == s.fitness
    ensures forall i :: 0 <= i < |s.values| ==> r.values[i] == s.values[i] as real
  {
    Solution(seq(|s.values|, i requires 0 <= i < |s.values| => s.values[i] as real), s.encoding, s.fitness)
  }

  /** BinaryEncoding(size): a non-positive size is a ValueError; otherwise the boundaries are 0 and 1
      for every attribute, stored as integers, and the distance is of order 0. */
  function NewBinary(size: int): (r: Result<Encoding>)
    ensures size <= 0 <==> r == Failure(ValueError)
    ensures r.Success? ==>
              r.value.BinaryEncoding? && r.value.size == size && ValidEncoding(r.value) &&
              r.value.Ord() == Some(Order0) &&
              forall i :: 0 <= i < size ==>
                r.value.bounds.MinVal(i) == 0.0 && r.value.bounds.MaxVal(i) == 1.0 &&
                r.value.bounds.scales[i] == 1.0
  {
    if size <= 0 then Failure(ValueError)
    else
      var zeros := seq(size, _ => 0.0);
      var ones := seq(size, _ => 1.0);
      assert 1.0 + Epsilon < 2.0;
      assert (1.0 - 0.0 + Epsilon).Floor == 1;
      Success(BinaryEncoding(size, Build(zeros, ones, IntType)))
  }

  /** DiscreteEncoding(boundaries): boundaries not stored as integers are a TypeError. */
  function NewDiscrete(b: Boundaries): (r: Result<Encoding>)
    requires b.WellFormed()
    ensures b.dtype != IntType <==> r == Failure(TypeError)
    ensures r.Success? ==> r.value == DiscreteEncoding(b) && ValidEncoding(r.value) && r.value.Ord() == Some(Order1)
  {
    if b.dtype != IntType then Failure(TypeError) else Success(DiscreteEncoding(b))
  }

  /** RealEncoding(boundaries): boundaries not stored as floats are a TypeError. */
  function NewReal(b: Boundaries): (r: Result<Encoding>)
    requires b.WellFormed()
    ensures b.dtype != FloatType <==> r == Failure(TypeError)
    ensures r.Success? ==> r.value == RealEncoding(b) && ValidEncoding(r.value) && r.value.Ord() == Some(Order2)
  {
    if b.dtype != FloatType then Failure(TypeError) else Success(RealEncoding(b))
  }

  /** PermutationEncoding(items): no boundaries and no distance. */
  function NewPermutation(items: seq<int>): (r: Encoding)
    ensures r.PermutationEncoding? && r.items == items && r.BoundsOf().None? && r.Ord().None?
  {
    PermutationEncoding(items)
  }

  /** MixedEncoding cannot be built. */
  function NewMixed(): (r: Result<Encoding>)
    ensures r.Failure? && r.error == NotImplementedError
  {
    Failure(NotImplementedError)
  }

  function Pow2(n: nat): (r: nat)
    ensures r >= 1
  {
    if n == 0 then 1 else 2 * Pow2(n - 1)
  }

  function Factorial(n: nat): (r: nat)
    ensures r >= 1
  {
    if n == 0 then 1 else n * Factorial(n - 1)
  }

  /** The product of (space size + 1) over the attributes, the number of integer values of each. */
  function ProductOfSizes(scales: seq<real>): int
    decreases |scales|
  {
    if scales == [] then 1
    else ProductOfSizes(scales[..|scales| - 1]) * (scales[|scales| - 1].Floor + 1)
  }

  /** space_size: 2^size for binary, the product of the attribute sizes for discrete (a reduction
      over no attribute is a TypeError), n! for a permutation of n items; the base class and
      real encodings do not define it. */
  function SpaceSize(e: Encoding): (r: Result<int>)
    ensures (e.Base? || e.RealEncoding?) <==> r == Failure(NotImplementedError)
    ensures e.DiscreteEncoding? && |e.bounds.scales| == 0 <==> r == Failure(TypeError)
    ensures e.BinaryEncoding? ==> r == Success(Pow2(e.size))
    ensures e.DiscreteEncoding? && |e.bounds.scales| > 0 ==> r == Success(ProductOfSizes(e.bounds.scales))
    ensures e.PermutationEncoding? ==> r == Success(Factorial(|e.items|))
  {
    match e
    case Base(_, _) => Failure(NotImplementedError)
    case RealEncoding(_) => Failure(NotImplementedError)
    case BinaryEncoding(n, _) => Success(Pow2(n))
    case DiscreteEncoding(b) =>
      if |b.scales| == 0 then Failure(TypeError) else Success(ProductOfSizes(b.scales))
    case PermutationEncoding(items) => Success(Factorial(|items|))
  }

  /** The product of (max - min + 1) over the attributes. */
  function CountOfValues(minimums: seq<real>, maximums: seq<real>): int
    requires |minimums| == |maximums|
    decreases |minimums|
  {
    if minimums == [] then 1
    else
      var n := |minimums| - 1;
      CountOfValues(minimums[..n], maximums[..n]) * ((maximums[n] - minimums[n]).Floor + 1)
  }

  /** A discrete encoding over integral bounds has as many solutions as there are integer points in
      the box of its bounds. */
  lemma {:induction false} DiscreteSpaceSizeCountsPoints(minimums: seq<real>, maximums: seq<real>)
    requires |minimums| == |maximums| > 0
    requires forall i :: 0 <= i < |minimums| ==> Integral(minimums[i]) && Integral(maximums[i])
    requires forall i :: 0 <= i < |minimums| ==> minimums[i] <= maximums[i]
    ensures SpaceSize(DiscreteEncoding(Build(minimums, maximums, IntType))) == Success(CountOfValues(minimums, maximums))
  {
    IntRows(minimums, maximums);
    ProductOfIntScales(minimums, maximums);
  }

  lemma {:induction false} ProductOfIntScales(minimums: seq<real>, maximums: seq<real>)
    requires |minimums| == |maximums|
    requires forall i :: 0 <= i < |minimums| ==> Integral(minimums[i]) && Integral(maximums[i])
    requires forall i :: 0 <= i < |minimums| ==> minimums[i] <= maximums[i]
    ensures ProductOfSizes(Build(minimums, maximums, IntType).scales) == CountOfValues(minimums, maximums)
    decreases |minimums|
  {
    if minimums != [] {
      var n := |minimums| - 1;
      var scales := Build(minimums, maximums, IntType).scales;
      IntRows(minimums, maximums);
      ProductOfIntScales(minimums[..n], maximums[..n]);
      assert scales[..n] == Build(minimums[..n], maximums[..n], IntType).scales;
    }
  }

  /** A binary encoding has as many solutions as a discrete encoding over its own boundaries. */
  lemma BinarySpaceSizeAgreesWithDiscrete(size: nat)
    requires size > 0
    ensures NewBinary(size).Success?
    ensures SpaceSize(DiscreteEncoding(NewBinary(size).value.bounds)) == SpaceSize(NewBinary(size).value)
  {
    var b := NewBinary(size).value.bounds;
    ProductOfTwos(b.scales);
  }

  /** One more attribute doubles the binary space; one more item multiplies the number of
      permutations by the new number of items. */
  lemma SpaceSizeGrows(n: nat, b: Boundaries, b': Boundaries, items: seq<int>, x: int)
    ensures SpaceSize(BinaryEncoding(n + 1, b')).value == 2 * SpaceSize(BinaryEncoding(n, b)).value
    ensures SpaceSize(PermutationEncoding(items + [x])).value == (|items| + 1) * SpaceSize(PermutationEncoding(items)).value
  {
  }

  /** A binary encoding of 10 attributes has 1024 solutions, a permutation of four items 24. */
  lemma SpaceSizeExamples()
    ensures NewBinary(10).Success? && SpaceSize(NewBinary(10).value) == Success(1024)
    ensures SpaceSize(NewPermutation([3, 1, 4, 2])) == Success(24)
  {
    assert Pow2(10) == 1024 by {
      assert Pow2(5) == 32;
    }
    assert Factorial(4) == 24 by {
      assert Factorial(2) == 2;
    }
  }

  lemma {:induction false} ProductOfTwos(scales: seq<real>)
    requires forall i :: 0 <= i < |scales| ==> scales[i] == 1.0
    ensures ProductOfSizes(scales) == Pow2(|scales|)
    decreases |scales|
  {
    if scales != [] {
      ProductOfTwos(scales[..|scales| - 1]);
    }
  }

  /** BinaryEncoding.generate_random_value: numpy.random.randint(2, size), whose draws are 0 or 1,
      returned as they are. */
  function GenerateBinary(e: Encoding, draws: seq<int>): (values: seq<int>)
    requires e.BinaryEncoding? && |draws| >= e.size
    requires forall i :: 0 <= i < e.size ==> 0 <= draws[i] <= 1
    ensures |values| == e.size && values == draws[..e.size]
    ensures forall i :: 0 <= i < |values| ==> 0 <= values[i] <= 1
  {
    draws[..e.size]
  }

  /** The integer range of attribute i of integer boundaries. */
  function Lo(b: Boundaries, i: nat): int
    requires i < |b.mins|
  {
    b.mins[i].Floor
  }

  function Hi(b: Boundaries, i: nat): int
    requires i < |b.maxs|
  {
    b.maxs[i].Floor
  }

  /** DiscreteEncoding.generate_random_value: a zeroed array filled, attribute by attribute, with
      numpy.random.random_integers(min, max); draws[i] is what that call returned. */
  method GenerateDiscrete(e: Encoding, draws: seq<int>) returns (values: seq<int>)
    requires e.DiscreteEncoding? && ValidEncoding(e)
    requires |draws| == |e.bounds.mins|
    requires forall i :: 0 <= i < |draws| ==> Lo(e.bounds, i) <= draws[i] <= Hi(e.bounds, i)
    ensures |values| == |e.bounds.mins|
    ensures forall i :: 0 <= i < |values| ==> Lo(e.bounds, i) <= values[i] <= Hi(e.bounds, i)
    ensures values == draws
  {
    var n := |e.bounds.mins|;
    var a := new int[n](_ => 0);
    var i := 0;
    while i < n
      invariant 0 <= i <= n
      invariant a[..i] == draws[..i]
    {
      a[i] := draws[i];
      i := i + 1;
    }
    values := a[..];
  }

  /** RealEncoding.generate_random_value: a zeroed array filled, attribute by attribute, with
      numpy.random.uniform(min, max); draws[i] is what that call returned. */
  method GenerateReal(e: Encoding, draws: seq<real>) returns (values: seq<real>)
    requires e.RealEncoding? && ValidEncoding(e)
    requires |draws| == |e.bounds.mins|
    requires forall i :: 0 <= i < |draws| ==> e.bounds.mins[i] <= draws[i] <= e.bounds.maxs[i]
    ensures |values| == |e.bounds.mins|
    ensures forall i :: 0 <= i < |values| ==> e.bounds.MinVal(i) <= values[i] <= e.bounds.MaxVal(i)
    ensures values == draws
  {
    var n := |e.bounds.mins|;
    var a := new real[n](_ => 0.0);
    var i := 0;
    while i < n
      invariant 0 <= i <= n
      invariant a[..i] == draws[..i]
    {
      a[i] := draws[i];
      i := i + 1;
    }
    values := a[..];
  }

  /** PermutationEncoding.generate_random_value: a shuffled copy of the items, so the same items
      with the same multiplicities. */
  function GeneratePermutation(e: Encoding, js: seq<nat>): (values: seq<int>)
    requires e.PermutationEncoding?
    ensures multiset(values) == multiset(e.items)
    ensures Modif.Distinct(e.items) ==> Modif.Distinct(values)
  {
    Shuffle(e.items, js)
  }

  /** The base class generates nothing. */
  function GenerateBase(e: Encoding): (r: Result<seq<int>>)
    requires e.Base?
    ensures r == Failure(NotImplementedError)
  {
    Failure(NotImplementedError)
  }

  /** The elementwise difference of two arrays. */
  function Diff(a: seq<real>, b: seq<real>): (d: seq<real>)
    requires |a| == |b|
    ensures |d| == |a| && forall i :: 0 <= i < |a| ==> d[i] == a[i] - b[i]
  {
    seq(|a|, i requires 0 <= i < |a| => a[i] - b[i])
  }

  function CountNonZero(v: seq<real>): (r: nat)
    ensures r <= |v|
    decreases |v|
  {
    if v == [] then 0 else CountNonZero(v[..|v| - 1]) + (if v[|v| - 1] != 0.0 then 1 else 0)
  }

  function SumAbs(v: seq<real>): (r: real)
    ensures r >= 0.0
    decreases |v|
  {
    if v == [] then 0.0 else SumAbs(v[..|v| - 1]) + Abs(v[|v| - 1])
  }

  function SumSquares(v: seq<real>): real
    decreases |v|
  {
    if v == [] then 0.0 else SumSquares(v[..|v| - 1]) + v[|v| - 1] * v[|v| - 1]
  }

  /** numpy.linalg.norm of a vector for the three orders; order 2 is given as its square. */
  function Norm(v: seq<real>, o: NormOrder): real {
    match o
    case Order0 => CountNonZero(v) as real
    case Order1 => SumAbs(v)
    case Order2 => SumSquares(v)
  }

  /** Encoding.distance, with the difference normalized whenever the encoding has boundaries. */
  function Distance(e: Encoding, s1: Solution<real>, s2: Solution<real>): (r: Result<real>)
    requires ValidEncoding(e)
    ensures e.Ord().None? ==> r == Failure(NotImplementedError)
    ensures e.Ord().Some? && (s1.encoding != e || s2.encoding != e) ==> r == Failure(ValueError)
    ensures r.Success? ==> e.Ord().Some? && s1.encoding == e && s2.encoding == e && |s1.values| == |s2.values|
    ensures r.Success? && e.BoundsOf().None? ==> r.value == Norm(Diff(s1.values, s2.values), e.Ord().value)
    ensures r.Success? && e.BoundsOf().Some? ==>
              |s1.values| == |e.BoundsOf().value.mins| &&
              r.value == Norm(Normalize(e.BoundsOf().value, Diff(s1.values, s2.values)), e.Ord().value)
  {
    if e.Ord().None? then Failure(NotImplementedError)
    else if s1.encoding != e || s2.encoding != e then Failure(ValueError)
    else if |s1.values| != |s2.values| then Failure(ValueError)
    else
      var d := Diff(s1.values, s2.values);
      match e.BoundsOf()
      case None => Success(Norm(d, e.Ord().value))
      case Some(b) =>
        if |d| != |b.mins| then Failure(ValueError)
        else Success(Norm(Normalize(b, d), e.Ord().value))
  }

  /** Encoding.distance as written: `if self.boundaries:` asks for the truth value of the (3, n)
      boundaries array, which numpy refuses with a ValueError as soon as it holds more than one
      element; an empty array is false and the difference is not normalized. */
  function DistanceAsWritten(e: Encoding, s1: Solution<real>, s2: Solution<real>): (r: Result<real>)
    ensures e.Ord().None? ==> r == Failure(NotImplementedError)
    ensures e.Ord().Some? && e.BoundsOf().Some? && |e.BoundsOf().value.mins| >= 1 ==> r.Failure?
  {
    if e.Ord().None? then Failure(NotImplementedError)
    else if s1.encoding != e || s2.encoding != e then Failure(ValueError)
    else if |s1.values| != |s2.values| then Failure(ValueError)
    else
      var d := Diff(s1.values, s2.values);
      match e.BoundsOf()
      case None => Success(Norm(d, e.Ord().value))
      case Some(b) =>
        if |b.mins| >= 1 then Failure(ValueError)
        else Success(Norm(d, e.Ord().value))
  }

  /** Any two binary solutions of the right size: the distance as written fails, the corrected one
      succeeds. */
  lemma DistanceAsWrittenFailsOnBinary(size: nat, v1: seq<int>, v2: seq<int>)
    requires size > 0 && |v1| == |v2| == size
    ensures NewBinary(size).Success?
    ensures DistanceAsWritten(NewBinary(size).value, AsReal(Solution(v1, NewBinary(size).value, None)),
                              AsReal(Solution(v2, NewBinary(size).value, None))) == Failure(ValueError)
    ensures Distance(NewBinary(size).value, AsReal(Solution(v1, NewBinary(size).value, None)),
                     AsReal(Solution(v2, NewBinary(size).value, None))).Success?
  {
  }

  lemma {:induction false} CountNonZeroMatches(x: seq<real>, p: seq<int>, q: seq<int>)
    requires |x| == |p| == |q|
    requires forall i :: 0 <= i < |x| ==> (x[i] != 0.0 <==> p[i] != q[i])
    ensures CountNonZero(x) == Mismatches(p, q)
    decreases |x|
  {
    if x != [] {
      var n := |x| - 1;
      CountNonZeroMatches(x[..n], p[..n], q[..n]);
    }
  }

  /** The binary distance is the Hamming distance of the two solutions. */
  lemma BinaryDistanceIsHamming(size: nat, v1: seq<int>, v2: seq<int>)
    requires size > 0 && |v1| == |v2| == size
    ensures NewBinary(size).Success?
    ensures Distance(NewBinary(size).value, AsReal(Solution(v1, NewBinary(size).value, None)),
                     AsReal(Solution(v2, NewBinary(size).value, None)))
            == Success(HammingDistance(v1, v2).value as real)
  {
    var e := NewBinary(size).value;
    var s1 := AsReal(Solution(v1, e, None));
    var s2 := AsReal(Solution(v2, e, None));
    var d := Diff(s1.values, s2.values);
    var nd := Normalize(e.bounds, d);
    forall i | 0 <= i < size
      ensures nd[i] != 0.0 <==> v1[i] != v2[i]
    {
      NormalizeKeepsSigns(e.bounds, d, i);
    }
    CountNonZeroMatches(nd, v1, v2);
    MismatchesIsCardinality(v1, v2);
  }

  /** manhattan_distance is the order-1 norm of the difference. */
  lemma {:induction false} AbsDiffSumIsSumAbs(a: seq<real>, b: seq<real>)
    requires |a| == |b|
    ensures AbsDiffSum(a, b) == SumAbs(Diff(a, b))
    decreases |a|
  {
    if a != [] {
      var n := |a| - 1;
      AbsDiffSumIsSumAbs(a[..n], b[..n]);
      assert Diff(a, b)[..n] == Diff(a[..n], b[..n]);
    }
  }

  /** The distance of a discrete encoding is the order-1 norm of the normalized difference. */
  lemma DiscreteDistanceValue(e: Encoding, s1: Solution<real>, s2: Solution<real>)
    requires e.DiscreteEncoding? && ValidEncoding(e)
    requires s1.encoding == e && s2.encoding == e
    requires |s1.values| == |s2.values| == |e.bounds.mins|
    ensures Distance(e, s1, s2) == Success(SumAbs(Normalize(e.bounds, Diff(s1.values, s2.values))))
  {
  }

  /** Without boundaries, a distance of order 1 is manhattan_distance of the two solutions. */
  lemma UnboundedOrder1IsManhattan(s1: Solution<real>, s2: Solution<real>)
    requires s1.encoding == Base(None, Some(Order1)) && s2.encoding == s1.encoding
    requires |s1.values| == |s2.values|
    ensures Distance(s1.encoding, s1, s2) == ManhattanDistance(s1.values, s2.values)
  {
    AbsDiffSumIsSumAbs(s1.values, s2.values);
  }

  lemma {:induction false} SumAbsZero(v: seq<real>)
    ensures SumAbs(v) == 0.0 <==> forall i :: 0 <= i < |v| ==> v[i] == 0.0
    decreases |v|
  {
    if v != [] {
      var n := |v| - 1;
      SumAbsZero(v[..n]);
      assert forall i :: 0 <= i < n ==> v[..n][i] == v[i];
    }
  }

  /** The distance between two solutions of a discrete encoding is zero exactly when they are
      equal. */
  lemma DiscreteDistanceZeroIffEqual(e: Encoding, s1: Solution<real>, s2: Solution<real>)
    requires e.DiscreteEncoding? && ValidEncoding(e)
    requires s1.encoding == e && s2.encoding == e
    requires |s1.values| == |s2.values| == |e.bounds.mins|
    ensures Distance(e, s1, s2).Success?
    ensures Distance(e, s1, s2).value == 0.0 <==> s1.values == s2.values
  {
    var d := Diff(s1.values, s2.values);
    var nd := Normalize(e.bounds, d);
    forall i | 0 <= i < |d|
      ensures nd[i] == 0.0 <==> s1.values[i] == s2.values[i]
    {
      NormalizeKeepsSigns(e.bounds, d, i);
    }
    SumAbsZero(nd);
  }

  lemma {:induction false} CountNonZeroNegated(x: seq<real>, y: seq<real>)
    requires |x| == |y| && forall i :: 0 <= i < |x| ==> y[i] == -x[i]
    ensures CountNonZero(x) == CountNonZero(y) && SumAbs(x) == SumAbs(y)
    decreases |x|
  {
    if x != [] {
      var n := |x| - 1;
      CountNonZeroNegated(x[..n], y[..n]);
    }
  }

  /** Distances of order 0 and 1 are symmetric. */
  lemma DistanceSymmetric(e: Encoding, s1: Solution<real>, s2: Solution<real>)
    requires ValidEncoding(e) && e.Ord() != Some(Order2)
    ensures Distance(e, s1, s2) == Distance(e, s2, s1)
  {
    if e.Ord().Some? && s1.encoding == e && s2.encoding == e && |s1.values| == |s2.values| {
      var d1 := Diff(s1.values, s2.values);
      var d2 := Diff(s2.values, s1.values);
      match e.BoundsOf()
      case None =>
        CountNonZeroNegated(d1, d2);
      case Some(b) =>
        if |d1| == |b.mins| {
          NormalizeNegated(b, d1, d2);
          CountNonZeroNegated(Normalize(b, d1), Normalize(b, d2));
        }
    }
  }

  lemma NormalizeNegated(b: Boundaries, d1: seq<real>, d2: seq<real>)
    requires b.WellFormed() && |d1| == |d2| == |b.mins|
    requires forall i :: 0 <= i < |d1| ==> d2[i] == -d1[i]
    ensures forall i :: 0 <= i < |d1| ==> Normalize(b, d2)[i] == -Normalize(b, d1)[i]
  {
    var n1 := Normalize(b, d1);
    var n2 := Normalize(b, d2);
    forall i | 0 <= i < |d1|
      ensures n2[i] == -n1[i]
    {
      var q := Divisor(b, i);
      assert n1[i] * q == d1[i];
      assert n2[i] * q == d2[i];
      assert (-n1[i]) * q == -(n1[i] * q);
      DivisorCancels(n2[i], -n1[i], q);
    }
  }

  lemma DivisorCancels(x: real, y: real, d: real)
    requires d > 0.0 && x * d == y * d
    ensures x == y
  {
  }

  /** The distance of a solution to itself is zero, whatever the order. */
  lemma DistanceToItself(e: Encoding, s: Solution<real>)
    requires ValidEncoding(e) && e.Ord().Some? && s.encoding == e
    requires e.BoundsOf().Some? ==> |s.values| == |e.BoundsOf().value.mins|
    ensures Distance(e, s, s) == Success(0.0)
  {
    var d := Diff(s.values, s.values);
    assert forall i :: 0 <= i < |d| ==> d[i] == 0.0;
    match e.BoundsOf()
    case None =>
      NormOfZeros(d);
    case Some(b) =>
      var nd := Normalize(b, d);
      forall i | 0 <= i < |d|
        ensures nd[i] == 0.0
      {
        NormalizeKeepsSigns(b, d, i);
      }
      NormOfZeros(nd);
  }

  lemma {:induction false} NormOfZeros(v: seq<real>)
    requires forall i :: 0 <= i < |v| ==> v[i] == 0.0
    ensures Norm(v, Order0) == 0.0 && Norm(v, Order1) == 0.0 && Norm(v, Order2) == 0.0
    decreases |v|
  {
    if v != [] {
      NormOfZeros(v[..|v| - 1]);
      assert v[|v| - 1] * v[|v| - 1] == 0.0 * 0.0;
    }
  }
}
