/** Move ranges: converters from a normalized step in [0.0, 1.0], chosen by a metaheuristic, to
    the step a move operator uses. */
module MoveRanges {
  import opened Wrappers

  /** A Python number: an int (bools included) or a float. */
  datatype Num = IntNum(i: int) | FloatNum(r: real) {
    function AsReal(): real {
      match this
      case IntNum(i) => i as real
      case FloatNum(r) => r
    }
  }

  /** The base-10 logarithm and power of numpy, which the logarithmic ranges use. */
  datatype Power = Power(log10: real -> real, pow10: real -> real)

  datatype MoveRange =
    | ContinuousMoveRange(low: real, high: real)
    | ContinuousLogMoveRange(low: real, high: real, power: Power)
    | DiscreteMoveRange(values: seq<int>, nbValues: int)
    | DiscreteLogMoveRange(values: seq<int>, nbValues: int, power: Power)
  {
    /** What the constructors establish. */
    ghost predicate Valid() {
      match this
      case ContinuousMoveRange(low, high) => low <= high
      case ContinuousLogMoveRange(low, high, _) => low <= high
      case DiscreteMoveRange(values, nb) => Consecutive(values, nb)
      case DiscreteLogMoveRange(values, nb, _) => Consecutive(values, nb)
    }
  }

  /** The values low, low + 1, ..., low + nb - 1, with at least one of them. */
  ghost predicate Consecutive(values: seq<int>, nb: int) {
    nb == |values| >= 1 && forall k :: 0 <= k < |values| ==> values[k] == values[0] + k
  }

  /** _check_step: only a float in [0.0, 1.0] is a normalized step. */
  function CheckStep(step: Num): (r: Outcome)
    ensures r == Fail(TypeError) <==> step.IntNum?
    ensures r == Fail(ValueError) <==> step.FloatNum? && (step.r < 0.0 || step.r > 1.0)
    ensures r == Pass <==> step.FloatNum? && 0.0 <= step.r <= 1.0
  {
    if !step.FloatNum? then Fail(TypeError)
    else if step.r > 1.0 || step.r < 0.0 then Fail(ValueError)
    else Pass
  }

  /** The continuous constructors: an inverted range is a ValueError, checked before the types;
      then both bounds must be floats. */
  function NewContinuous(low: Num, high: Num): (r: Result<MoveRange>)
    ensures high.AsReal() < low.AsReal() ==> r == Failure(ValueError)
    ensures low.AsReal() <= high.AsReal() && (low.IntNum? || high.IntNum?) ==> r == Failure(TypeError)
    ensures r.Success? <==> low.FloatNum? && high.FloatNum? && low.r <= high.r
    ensures r.Success? ==> r.value == ContinuousMoveRange(low.r, high.r) && r.value.Valid()
  {
    if high.AsReal() < low.AsReal() then Failure(ValueError)
    else if !low.FloatNum? then Failure(TypeError)
    else if !high.FloatNum? then Failure(TypeError)
    else Success(ContinuousMoveRange(low.r, high.r))
  }

  /** ContinuousLogMoveRange shares the continuous constructor. */
  function NewContinuousLog(low: Num, high: Num, power: Power): (r: Result<MoveRange>)
    ensures r.Failure? <==> NewContinuous(low, high).Failure?
    ensures r.Failure? ==> r.error == NewContinuous(low, high).error
    ensures r.Success? ==> r.value == ContinuousLogMoveRange(low.r, high.r, power) && r.value.Valid()
  {
    match NewContinuous(low, high)
    case Failure(e) => Failure(e)
    case Success(m) => Success(ContinuousLogMoveRange(m.low, m.high, power))
  }

  /** The integers low to high, both included. */
  function Range(low: int, high: int): (values: seq<int>)
    requires low <= high
    ensures Consecutive(values, high - low + 1) && values[0] == low && values[|values| - 1] == high
  {
    seq(high - low + 1, k requires 0 <= k < high - low + 1 => low + k)
  }

  /** The discrete constructors: an inverted range is a ValueError, checked before the types; then
      both bounds must be ints. The range stores the list of its values and their count. */
  function NewDiscrete(low: Num, high: Num): (r: Result<MoveRange>)
    ensures high.AsReal() < low.AsReal() ==> r == Failure(ValueError)
    ensures low.AsReal() <= high.AsReal() && (low.FloatNum? || high.FloatNum?) ==> r == Failure(TypeError)
    ensures r.Success? <==> low.IntNum? && high.IntNum? && low.i <= high.i
    ensures r.Success? ==> r.value.DiscreteMoveRange? && r.value.Valid() &&
                           r.value.nbValues == high.i - low.i + 1 &&
                           r.value.values[0] == low.i && r.value.values[r.value.nbValues - 1] == high.i
  {
    if high.AsReal() < low.AsReal() then Failure(ValueError)
    else if !low.IntNum? then Failure(TypeError)
    else if !high.IntNum? then Failure(TypeError)
    else Success(DiscreteMoveRange(Range(low.i, high.i), high.i - low.i + 1))
  }

  /** DiscreteLogMoveRange shares the discrete constructor. */
  function NewDiscreteLog(low: Num, high: Num, power: Power): (r: Result<MoveRange>)
    ensures r.Failure? <==> NewDiscrete(low, high).Failure?
    ensures r.Failure? ==> r.error == NewDiscrete(low, high).error
    ensures r.Success? ==> r.value.DiscreteLogMoveRange? && r.value.Valid() &&
                           r.value.values == NewDiscrete(low, high).value.values
  {
    match NewDiscrete(low, high)
    case Failure(e) => Failure(e)
    case Success(m) => Success(DiscreteLogMoveRange(m.values, m.nbValues, power))
  }

  /** Python's list indexing: a negative index counts from the end. */
  function PyIndex(values: seq<int>, k: int): (r: Result<int>)
    ensures r.Success? <==> -|values| <= k < |values|
    ensures 0 <= k < |values| ==> r == Success(values[k])
    ensures -|values| <= k < 0 ==> r == Success(values[|values| + k])
    ensures r.Failure? ==> r.error == IndexError
  {
    if 0 <= k < |values| then Success(values[k])
    else if -|values| <= k < 0 then Success(values[|values| + k])
    else Failure(IndexError)
  }

  /** numpy's round: to the nearest integer, halves to the even one. */
  function RoundHalfEven(x: real): (n: int)
    ensures x - 0.5 <= n as real <= x + 0.5
  {
    var f := x.Floor;
    var d := x - f as real;
    if d < 0.5 then f
    else if d > 0.5 then f + 1
    else if f % 2 == 0 then f else f + 1
  }

  function Min(a: int, b: int): int {
    if a <= b then a else b
  }

  /** The position a linear discrete range picks: floor(nb * step), capped at the last value. */
  function DiscreteIndex(nb: int, s: real): (k: int)
    requires nb >= 1 && 0.0 <= s <= 1.0
    ensures 0 <= k < nb
  {
    MulNonneg(nb as real, s);
    MulNonneg(nb as real, 1.0 - s);
    Min((nb as real * s).Floor, nb - 1)
  }

  lemma MulNonneg(a: real, b: real)
    requires a >= 0.0 && b >= 0.0
    ensures a * b >= 0.0
  {
  }

  /** ContinuousMoveRange.convert on a checked step: the affine map of [0.0, 1.0] onto the range. */
  function LinearStep(low: real, high: real, s: real): real {
    low + (high - low) * s
  }

  /** ContinuousLogMoveRange.convert on a checked step: the affine map in base-10 logarithms. */
  function LogStep(low: real, high: real, p: Power, s: real): real {
    var logLow := p.log10(low);
    var logHigh := p.log10(high);
    p.pow10(logLow + (logHigh - logLow) * s)
  }

  /** DiscreteMoveRange.convert on a checked step: the value at position floor(nb * step), capped
      at the last position. */
  function DiscreteStep(values: seq<int>, nb: int, s: real): int
    requires Consecutive(values, nb) && 0.0 <= s <= 1.0
  {
    values[DiscreteIndex(nb, s)]
  }

  /** DiscreteLogMoveRange.convert on a checked step: the position is round(10 ** (log10(nb) *
      step)) - 1, which Python's indexing may take from the end or reject. */
  function DiscreteLogStep(values: seq<int>, nb: int, p: Power, s: real): Result<int> {
    PyIndex(values, RoundHalfEven(p.pow10(p.log10(nb as real) * s)) - 1)
  }

  /** convert: the step is checked before anything is computed; then each kind of range converts
      it its own way. A linear continuous range answers a float in [low, high], a linear discrete
      range one of its values. */
  function Convert(m: MoveRange, step: Num): (r: Result<Num>)
    requires m.Valid()
    ensures CheckStep(step).Fail? ==> r == Failure(CheckStep(step).error)
    ensures CheckStep(step).Pass? && m.ContinuousMoveRange? ==>
              r == Success(FloatNum(LinearStep(m.low, m.high, step.r))) && m.low <= r.value.r <= m.high
    ensures CheckStep(step).Pass? && m.ContinuousLogMoveRange? ==>
              r == Success(FloatNum(LogStep(m.low, m.high, m.power, step.r)))
    ensures CheckStep(step).Pass? && m.DiscreteMoveRange? ==>
              r == Success(IntNum(DiscreteStep(m.values, m.nbValues, step.r))) && r.value.i in m.values
    ensures CheckStep(step).Pass? && m.DiscreteLogMoveRange? ==>
              (r.Success? <==> DiscreteLogStep(m.values, m.nbValues, m.power, step.r).Success?) &&
              (r.Success? ==> r.value == IntNum(DiscreteLogStep(m.values, m.nbValues, m.power, step.r).value)) &&
              (r.Failure? ==> r.error == IndexError)
  {
    match CheckStep(step)
    case Fail(e) => Failure(e)
    case Pass =>
      match m
      case ContinuousMoveRange(low, high) =>
        LinearStepWithin(low, high, step.r);
        Success(FloatNum(LinearStep(low, high, step.r)))
      case ContinuousLogMoveRange(low, high, p) => Success(FloatNum(LogStep(low, high, p, step.r)))
      case DiscreteMoveRange(values, nb) => Success(IntNum(DiscreteStep(values, nb, step.r)))
      case DiscreteLogMoveRange(values, nb, p) =>
        match DiscreteLogStep(values, nb, p, step.r)
        case Failure(e) => Failure(e)
        case Success(v) => Success(IntNum(v))
  }

  /** The linear continuous conversion lies in [low, high]. */
  lemma LinearStepWithin(low: real, high: real, s: real)
    requires low <= high && 0.0 <= s <= 1.0
    ensures low <= LinearStep(low, high, s) <= high
  {
    MulNonneg(high - low, s);
    MulNonneg(high - low, 1.0 - s);
  }

  /** The linear continuous conversion reaches low at 0.0 and high at 1.0, and a larger step never
      gives a smaller result. */
  lemma LinearStepEndsAndMonotone(low: real, high: real, s: real, t: real)
    requires low <= high && s <= t
    ensures LinearStep(low, high, 0.0) == low && LinearStep(low, high, 1.0) == high
    ensures LinearStep(low, high, s) <= LinearStep(low, high, t)
  {
    UnitScale(high - low);
    MulNonneg(high - low, t - s);
  }

  lemma UnitScale(x: real)
    ensures x * 0.0 == 0.0 && x * 1.0 == x
  {
  }

  lemma FloorMonotone(x: real, y: real)
    requires x <= y
    ensures x.Floor <= y.Floor
  {
  }

  /** The linear discrete conversion: the value at a position is low plus the position, the
      endpoints are reached at 0.0 and 1.0, and a larger step never gives a smaller value. */
  lemma DiscreteStepEndsAndMonotone(low: int, high: int, s: real, t: real)
    requires low <= high && 0.0 <= s <= t <= 1.0
    ensures var values := Range(low, high);
            var nb := high - low + 1;
            DiscreteStep(values, nb, 0.0) == low && DiscreteStep(values, nb, 1.0) == high &&
            low <= DiscreteStep(values, nb, s) <= DiscreteStep(values, nb, t) <= high
  {
    var nb := high - low + 1;
    var x := nb as real;
    MulNonneg(x, t - s);
    FloorMonotone(x * s, x * t);
    UnitScale(x);
    assert DiscreteIndex(nb, 0.0) == 0;
    assert DiscreteIndex(nb, 1.0) == nb - 1;
  }

  /** Converting with a range built by the discrete constructor: always one of low..high, low at
      0.0, high at 1.0, and non-decreasing in the step. */
  lemma DiscreteConvert(low: int, high: int, s: real, t: real)
    requires low <= high && 0.0 <= s <= t <= 1.0
    ensures NewDiscrete(IntNum(low), IntNum(high)).Success?
    ensures var m := NewDiscrete(IntNum(low), IntNum(high)).value;
            Convert(m, FloatNum(0.0)) == Success(IntNum(low)) &&
            Convert(m, FloatNum(1.0)) == Success(IntNum(high)) &&
            low <= Convert(m, FloatNum(s)).value.i <= Convert(m, FloatNum(t)).value.i <= high
  {
    var m := NewDiscrete(IntNum(low), IntNum(high)).value;
    assert m.values == Range(low, high);
    DiscreteStepEndsAndMonotone(low, high, s, t);
  }

  /** Converting with a range built by the continuous constructor: always in [low, high], low at
      0.0, high at 1.0, and non-decreasing in the step. */
  lemma ContinuousConvert(low: real, high: real, s: real, t: real)
    requires low <= high && 0.0 <= s <= t <= 1.0
    ensures NewContinuous(FloatNum(low), FloatNum(high)).Success?
    ensures var m := NewContinuous(FloatNum(low), FloatNum(high)).value;
            Convert(m, FloatNum(0.0)) == Success(FloatNum(low)) &&
            Convert(m, FloatNum(1.0)) == Success(FloatNum(high)) &&
            low <= Convert(m, FloatNum(s)).value.r <= Convert(m, FloatNum(t)).value.r <= high
  {
    LinearStepEndsAndMonotone(low, high, s, t);
    LinearStepWithin(low, high, t);
  }

  /** The documented example: the range 1..3 maps 0.0, 0.5 and 1.0 to 1, 2 and 3. */
  lemma DiscreteExample()
    ensures NewDiscrete(IntNum(1), IntNum(3)).Success?
    ensures Convert(NewDiscrete(IntNum(1), IntNum(3)).value, FloatNum(0.0)) == Success(IntNum(1))
    ensures Convert(NewDiscrete(IntNum(1), IntNum(3)).value, FloatNum(0.5)) == Success(IntNum(2))
    ensures Convert(NewDiscrete(IntNum(1), IntNum(3)).value, FloatNum(1.0)) == Success(IntNum(3))
  {
    var m := NewDiscrete(IntNum(1), IntNum(3)).value;
    assert m.values == [1, 2, 3];
    assert DiscreteIndex(3, 0.5) == 1 by {
      assert 3.0 * 0.5 == 1.5;
    }
    DiscreteConvert(1, 3, 0.5, 0.5);
  }

  /** The logarithmic continuous conversion reaches the endpoints when the power undoes the
      logarithm there. */
  lemma LogStepEndpoints(low: real, high: real, p: Power)
    requires p.pow10(p.log10(low)) == low && p.pow10(p.log10(high)) == high
    ensures LogStep(low, high, p, 0.0) == low && LogStep(low, high, p, 1.0) == high
  {
    UnitScale(p.log10(high) - p.log10(low));
  }

  /** The logarithmic discrete conversion picks the first value at 0.0 and the last at 1.0 when
      the power maps 0.0 to 1.0 and undoes the logarithm at the number of values. */
  lemma DiscreteLogStepEndpoints(values: seq<int>, p: Power)
    requires |values| >= 1
    requires p.pow10(0.0) == 1.0 && p.pow10(p.log10(|values| as real)) == |values| as real
    ensures DiscreteLogStep(values, |values|, p, 0.0) == Success(values[0])
    ensures DiscreteLogStep(values, |values|, p, 1.0) == Success(values[|values| - 1])
  {
    var n := |values| as real;
    UnitScale(p.log10(n));
    assert RoundHalfEven(1.0) == 1;
    assert RoundHalfEven(n) == |values|;
  }
}
