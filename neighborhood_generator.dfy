/** NeighborhoodGenerator: a move, a move range and a cap on the number of neighbours, fixed at
    construction. A call converts the metaheuristic's normalized step once with the move range
    and passes on, in order and unaltered, every (neighbour, modifs) pair the move yields for the
    converted step. */
module NeighborhoodGenerators {
  import opened Wrappers
  import opened Modif
  import opened Encodings
  import opened Distances
  import opened MoveRanges
  import opened Itertools
  import opened RandomDraws
  import opened MoveFunctions
  import opened EnumerationMoves

  /** An enumerating move: from the solution, the converted step and the cap, the neighbours it
      yields, or the error it raises before yielding any. */
  type Move<!T> = (Solution<T>, Num, Option<int>) -> Result<seq<Neighbor<T>>>

  /** The three attributes __init__ stores; nothing else is kept between calls. */
  datatype NeighborhoodGenerator<!T> = NeighborhoodGenerator(move: Move<T>, moveRange: MoveRange, maxNbNeighbors: Option<int>)

  /** __call__: the step is converted before the move runs, so an invalid step yields nothing and
      raises the move range's error; otherwise the result is the move's, for the converted step
      and the generator's cap. */
  function Generate<T>(g: NeighborhoodGenerator<T>, s: Solution<T>, step: Num): (r: Result<seq<Neighbor<T>>>)
    requires g.moveRange.Valid()
    ensures CheckStep(step).Fail? ==> r == Failure(CheckStep(step).error)
    ensures CheckStep(step).Pass? && g.moveRange.DiscreteMoveRange? ==>
              var k := DiscreteStep(g.moveRange.values, g.moveRange.nbValues, step.r);
              k in g.moveRange.values && r == g.move(s, IntNum(k), g.maxNbNeighbors)
    ensures CheckStep(step).Pass? && g.moveRange.ContinuousMoveRange? ==>
              var d := LinearStep(g.moveRange.low, g.moveRange.high, step.r);
              g.moveRange.low <= d <= g.moveRange.high && r == g.move(s, FloatNum(d), g.maxNbNeighbors)
    ensures CheckStep(step).Pass? && g.moveRange.ContinuousLogMoveRange? ==>
              r == g.move(s, FloatNum(LogStep(g.moveRange.low, g.moveRange.high, g.moveRange.power, step.r)), g.maxNbNeighbors)
    ensures CheckStep(step).Pass? && g.moveRange.DiscreteLogMoveRange? ==>
              var k := DiscreteLogStep(g.moveRange.values, g.moveRange.nbValues, g.moveRange.power, step.r);
              r == (if k.Success? then g.move(s, IntNum(k.value), g.maxNbNeighbors) else Failure(IndexError))
  {
    match Convert(g.moveRange, step)
    case Failure(e) => Failure(e)
    case Success(converted) => g.move(s, converted, g.maxNbNeighbors)
  }

  /** The neighbours of a solution for a list of flip candidates, in the candidates' order. */
  function FlipNeighbors(s: Solution<int>, cands: seq<seq<nat>>): (ns: seq<Neighbor<int>>)
    requires forall c :: c in cands ==> Below(c, |s.values|)
    ensures |ns| == |cands| && forall k :: 0 <= k < |cands| ==> ns[k] == FlipNeighbor(s, cands[k])
  {
    seq(|cands|, k requires 0 <= k < |cands| => FlipNeighbor(s, cands[k]))
  }

  /** The enumerating move_binary_flip as a move of a generator, for fixed shuffle draws: only a
      binary solution is accepted, itertools.combinations refuses a float size and a negative
      one. */
  function FlipMove(js: seq<nat>): Move<int> {
    (s: Solution<int>, step: Num, nb: Option<int>) =>
      if !s.encoding.BinaryEncoding? then Failure(NotImplementedError)
      else if step.FloatNum? then Failure(TypeError)
      else if step.i < 0 then Failure(ValueError)
      else Success(FlipNeighbors(s, FlipCandidates(|s.values|, step.i, js, nb)))
  }

  /** A generator made of move_binary_flip and the linear discrete range low..high, called with a
      valid step on a binary solution, flips k bits for one k of low..high: it yields C(n, k)
      neighbours (at most the cap), pairwise different, each at Hamming distance k from the
      solution with a record of k changed positions. */
  lemma GeneratedFlips(js: seq<nat>, s: Solution<int>, low: int, high: int, step: real, nb: Option<int>)
    requires s.encoding.BinaryEncoding? && 0 <= low <= high && 0.0 <= step <= 1.0
    ensures var g := NeighborhoodGenerator(FlipMove(js), DiscreteMoveRange(MoveRanges.Range(low, high), high - low + 1), nb);
            var k := DiscreteStep(MoveRanges.Range(low, high), high - low + 1, step);
            var r := Generate(g, s, FloatNum(step));
            low <= k <= high && r.Success? &&
            (nb.None? ==> |r.value| == Binom(|s.values|, k)) &&
            (nb.Some? && nb.value >= 0 ==> |r.value| == if nb.value < Binom(|s.values|, k) then nb.value else Binom(|s.values|, k)) &&
            (forall p :: 0 <= p < |r.value| ==>
               HammingDistance(s.values, r.value[p].solution.values) == Success(k) &&
               |r.value[p].modifs.entries| == k &&
               r.value[p].solution.fitness == s.fitness) &&
            (forall p, q :: 0 <= p < q < |r.value| ==> r.value[p].solution != r.value[q].solution)
  {
    var k := FlipGeneratorConverts(js, s, low, high, step, nb);
    var cands := FlipCandidates(|s.values|, k, js, nb);
    forall p | 0 <= p < |cands|
      ensures HammingDistance(s.values, FlipNeighbor(s, cands[p]).solution.values) == Success(k) &&
              |FlipNeighbor(s, cands[p]).modifs.entries| == k &&
              FlipNeighbor(s, cands[p]).solution.fitness == s.fitness
    {
      FlipCandidateIsDraw(|s.values|, k, js, nb, p);
      FlipNeighborFacts(s, cands[p], k);
    }
    FlipNeighborsDistinct(s, k, js, nb);
  }

  /** The generator of GeneratedFlips converts the step to a size k of low..high and yields the
      flips of the candidates of size k. */
  lemma FlipGeneratorConverts(js: seq<nat>, s: Solution<int>, low: int, high: int, step: real, nb: Option<int>)
    returns (k: int)
    requires s.encoding.BinaryEncoding? && 0 <= low <= high && 0.0 <= step <= 1.0
    ensures k == DiscreteStep(MoveRanges.Range(low, high), high - low + 1, step) && low <= k <= high
    ensures Generate(NeighborhoodGenerator(FlipMove(js), DiscreteMoveRange(MoveRanges.Range(low, high), high - low + 1), nb), s, FloatNum(step))
            == Success(FlipNeighbors(s, FlipCandidates(|s.values|, k, js, nb)))
  {
    var values := MoveRanges.Range(low, high);
    var g := NeighborhoodGenerator(FlipMove(js), DiscreteMoveRange(values, high - low + 1), nb);
    k := DiscreteStep(values, high - low + 1, step);
    assert k in values;
    assert CheckStep(FloatNum(step)) == Pass && g.moveRange.Valid();
    assert Convert(g.moveRange, FloatNum(step)) == Success(IntNum(k));
    assert Generate(g, s, FloatNum(step)) == FlipMove(js)(s, IntNum(k), nb);
  }

  /** One flip neighbour of k distinct positions is at Hamming distance k, records k changes and
      keeps the fitness. */
  lemma FlipNeighborFacts(s: Solution<int>, c: seq<nat>, k: nat)
    requires DistinctDraw(c, k, |s.values|)
    ensures HammingDistance(s.values, FlipNeighbor(s, c).solution.values) == Success(k) &&
            |FlipNeighbor(s, c).modifs.entries| == k &&
            FlipNeighbor(s, c).solution.fitness == s.fitness
  {
    FlipNeighborChanges(s, c);
    FlipNeighborRecord(s, c);
  }
}
