/** HillClimbing: from an evaluated initial solution, repeatedly evaluate the neighbours produced
    at a fixed base step and move to the best of them, until an iteration no longer lowers the
    fitness. */
module HillClimbers {
  import opened Wrappers
  import opened Encodings
  import opened Objectives
  import opened MoveRanges
  import opened MoveFunctions
  import opened NeighborhoodGenerators

  // ---------------------------------------------------------------------------------------------
  // Selection

  /** Every solution of the list carries a fitness. */
  predicate AllEvaluated<T>(ss: seq<Solution<T>>) {
    forall k :: 0 <= k < |ss| ==> ss[k].fitness.Some?
  }

  /** The candidates evaluated with their own modifications, in order. */
  function EvaluateAll<T>(o: Objective<T>, cands: seq<Neighbor<T>>): (evs: seq<Solution<T>>)
    ensures |evs| == |cands| && AllEvaluated(evs)
    ensures forall k :: 0 <= k < |cands| ==> evs[k] == Evaluate(o, cands[k].solution, Some(cands[k].modifs))
  {
    seq(|cands|, k requires 0 <= k < |cands| => Evaluate(o, cands[k].solution, Some(cands[k].modifs)))
  }

  /** The running choice of _select_solution: starting from the current solution, each evaluated
      candidate whose fitness is at most the best one so far replaces it. */
  function Best<T>(current: Solution<T>, evs: seq<Solution<T>>): (b: Solution<T>)
    requires current.fitness.Some? && AllEvaluated(evs)
    ensures b.fitness.Some?
    decreases |evs|
  {
    if evs == [] then current
    else
      var b := Best(current, evs[..|evs| - 1]);
      if evs[|evs| - 1].fitness.value <= b.fitness.value then evs[|evs| - 1] else b
  }

  /** The choice is a minimum: its fitness is at most the current one and at most that of every
      candidate; it is the current solution exactly when no candidate reaches the current
      fitness, and otherwise the last candidate with the minimal fitness, so that ties go to the
      later candidate. */
  lemma BestIsLastMinimum<T>(current: Solution<T>, evs: seq<Solution<T>>)
    requires current.fitness.Some? && AllEvaluated(evs)
    ensures var b := Best(current, evs);
            b.fitness.value <= current.fitness.value &&
            (forall k :: 0 <= k < |evs| ==> b.fitness.value <= evs[k].fitness.value) &&
            ((forall k :: 0 <= k < |evs| ==> evs[k].fitness.value > current.fitness.value) ==> b == current) &&
            ((exists k :: 0 <= k < |evs| && evs[k].fitness.value <= current.fitness.value) ==>
               exists j :: 0 <= j < |evs| && b == evs[j] &&
                 forall k :: j < k < |evs| ==> evs[k].fitness.value > b.fitness.value)
  {
    BestIsMinimum(current, evs);
    BestIsLast(current, evs);
  }

  /** The choice has the least fitness, and it stays the current solution while no candidate
      reaches the current fitness. */
  lemma {:induction false} BestIsMinimum<T>(current: Solution<T>, evs: seq<Solution<T>>)
    requires current.fitness.Some? && AllEvaluated(evs)
    ensures var b := Best(current, evs);
            b.fitness.value <= current.fitness.value &&
            (forall k :: 0 <= k < |evs| ==> b.fitness.value <= evs[k].fitness.value) &&
            ((forall k :: 0 <= k < |evs| ==> evs[k].fitness.value > current.fitness.value) ==> b == current)
    decreases |evs|
  {
    if evs != [] {
      var init := evs[..|evs| - 1];
      BestIsMinimum(current, init);
      assert forall k :: 0 <= k < |init| ==> init[k] == evs[k];
    }
  }

  /** The position of the running choice among the candidates, -1 while it is still the current
      solution. */
  function BestIndex<T>(current: Solution<T>, evs: seq<Solution<T>>): (j: int)
    requires current.fitness.Some? && AllEvaluated(evs)
    ensures -1 <= j < |evs|
    decreases |evs|
  {
    if evs == [] then -1
    else if evs[|evs| - 1].fitness.value <= Best(current, evs[..|evs| - 1]).fitness.value then |evs| - 1
    else BestIndex(current, evs[..|evs| - 1])
  }

  /** The choice sits at BestIndex (or is the current solution at -1), and every later candidate
      has a strictly greater fitness. */
  lemma {:induction false} BestAtIndex<T>(current: Solution<T>, evs: seq<Solution<T>>)
    requires current.fitness.Some? && AllEvaluated(evs)
    ensures var j := BestIndex(current, evs);
            var b := Best(current, evs);
            (j < 0 ==> b == current) && (0 <= j ==> b == evs[j]) &&
            forall k :: j < k < |evs| ==> evs[k].fitness.value > b.fitness.value
    decreases |evs|
  {
    if evs != [] {
      var init := evs[..|evs| - 1];
      BestAtIndex(current, init);
      assert forall k :: 0 <= k < |init| ==> init[k] == evs[k];
    }
  }

  /** When some candidate reaches the current fitness, the choice is a candidate that no later
      candidate reaches. */
  lemma BestIsLast<T>(current: Solution<T>, evs: seq<Solution<T>>)
    requires current.fitness.Some? && AllEvaluated(evs)
    ensures var b := Best(current, evs);
            (exists k :: 0 <= k < |evs| && evs[k].fitness.value <= current.fitness.value) ==>
              exists j :: 0 <= j < |evs| && b == evs[j] &&
                forall k :: j < k < |evs| ==> evs[k].fitness.value > b.fitness.value
  {
    BestAtIndex(current, evs);
    var j := BestIndex(current, evs);
    if exists k :: 0 <= k < |evs| && evs[k].fitness.value <= current.fitness.value {
      var k :| 0 <= k < |evs| && evs[k].fitness.value <= current.fitness.value;
      assert 0 <= j;
    }
  }

  // ---------------------------------------------------------------------------------------------
  // Stopping

  /** _stopping_criterion as a decision: stop when a previous fitness exists and is at most the
      current one; otherwise continue and record the current fitness. */
  function StopDecision(previous: Option<real>, current: real): (r: (bool, Option<real>))
    ensures r.0 <==> previous.Some? && previous.value <= current
    ensures r.1 == if r.0 then previous else Some(current)
  {
    if previous.Some? && previous.value <= current then (true, previous) else (false, Some(current))
  }

  /** The first decision never stops; a second one on an unchanged fitness always does. */
  lemma StopAfterNoProgress(current: real, next: real)
    ensures !StopDecision(None, current).0
    ensures var (_, recorded) := StopDecision(None, current);
            StopDecision(recorded, next).0 <==> current <= next
  {
  }

  // ---------------------------------------------------------------------------------------------
  // The metaheuristic

  /** The state of a hill climbing: the problem's objective and neighbourhood, the base step, the
      current solution (None before the run starts) and the best fitness of the previous
      iteration. */
  class HillClimbing<T(==)> {
    const objective: Objective<T>
    const neighborhood: Option<NeighborhoodGenerator<T>>
    const baseStep: real
    var solution: Option<Solution<T>>
    var previousFitness: Option<real>

    /** A run has an evaluated current solution. */
    predicate Started()
      reads this
    {
      solution.Some? && solution.value.fitness.Some?
    }

    /** __init__: no solution and no previous fitness yet; the default base step is 0.1. */
    constructor (objective: Objective<T>, neighborhood: Option<NeighborhoodGenerator<T>>, baseStep: real)
      ensures this.objective == objective && this.neighborhood == neighborhood && this.baseStep == baseStep
      ensures solution.None? && previousFitness.None?
    {
      this.objective := objective;
      this.neighborhood := neighborhood;
      this.baseStep := baseStep;
      solution := None;
      previousFitness := None;
    }

    /** _get_initial_solution: a solution generated from the encoding, evaluated before it is
        returned, so it carries the full fitness. The generated values are a parameter. */
    method GetInitialSolution(values: seq<T>, encoding: Encoding) returns (s: Solution<T>)
      ensures s.values == values && s.encoding == encoding
      ensures s.fitness == Some(objective.fitness(Solution(values, encoding, None)))
    {
      s := Solution(values, encoding, None);
      s := Evaluate(objective, s, None);
    }

    /** _get_candidates: every (neighbour, modifs) pair the problem's neighbourhood yields for the
        current solution at the base step; a problem without a neighbourhood raises
        NotImplementedError. */
    method GetCandidates() returns (r: Result<seq<Neighbor<T>>>)
      requires solution.Some? && (neighborhood.Some? ==> neighborhood.value.moveRange.Valid())
      ensures neighborhood.None? ==> r == Failure(NotImplementedError)
      ensures neighborhood.Some? ==> r == Generate(neighborhood.value, solution.value, FloatNum(baseStep))
      ensures neighborhood.Some? && !(0.0 <= baseStep <= 1.0) ==> r == Failure(ValueError)
    {
      if neighborhood.None? {
        return Failure(NotImplementedError);
      }
      r := Generate(neighborhood.value, solution.value, FloatNum(baseStep));
    }

    /** _select_solution: each candidate is evaluated with its own modifications, and one whose
        fitness is at most the best so far becomes the best. */
    method SelectSolution(candidates: seq<Neighbor<T>>) returns (best: Solution<T>)
      requires Started()
      ensures best == Best(solution.value, EvaluateAll(objective, candidates))
      ensures best.fitness.Some? && best.fitness.value <= solution.value.fitness.value
    {
      ghost var evs := EvaluateAll(objective, candidates);
      var current := solution.value;
      var bestFitness := current.fitness.value;
      best := current;
      for k := 0 to |candidates|
        invariant best == Best(current, evs[..k]) && best.fitness == Some(bestFitness)
      {
        var c := Evaluate(objective, candidates[k].solution, Some(candidates[k].modifs));
        assert evs[..k + 1][..k] == evs[..k] && evs[k] == c;
        if c.fitness.value <= bestFitness {
          bestFitness := c.fitness.value;
          best := c;
        }
      }
      assert evs[..|candidates|] == evs;
      BestIsLastMinimum(current, evs);
    }

    /** _stopping_criterion: stops when the previous fitness is at most the current one, and
        records the current fitness only when it does not stop. */
    method StoppingCriterion() returns (stop: bool)
      requires Started()
      modifies this
      ensures solution == old(solution)
      ensures (stop, previousFitness) == StopDecision(old(previousFitness), solution.value.fitness.value)
    {
      var noProgress := previousFitness.Some? && previousFitness.value <= solution.value.fitness.value;
      if noProgress {
        return true;
      }
      previousFitness := solution.value.fitness;
      return false;
    }
  }
}
