/** The wrapper around a problem's fitness functions. Calling it fills the fitness of a solution;
    a solution is a value here, so the call returns the solution with its fitness filled. */
module Objectives {
  import opened Wrappers
  import opened Modif
  import opened Encodings

  /** A full fitness function and an optional partial one that evaluates a solution from the
      modifications that produced it. The noisy variant also stores a standard deviation that
      it does not use. */
  datatype Objective<!T> =
    | Objective(fitness: Solution<T> -> real, fitnessPartial: Option<(Solution<T>, Ledger) -> real>)
    | ObjectiveNoisy(fitness: Solution<T> -> real, std: real, fitnessPartial: Option<(Solution<T>, Ledger) -> real>)

  /** The partial function is used when the solution already has a fitness, a non-empty record of
      modifications is given and a partial function exists. */
  predicate UsesPartial<T>(o: Objective<T>, s: Solution<T>, modifs: Option<Ledger>) {
    s.fitness.Some? && modifs.Some? && !modifs.value.IsEmpty() && o.fitnessPartial.Some?
  }

  /** _compute_fitness_value: the fitness function that applies to this call. */
  function ComputeFitnessValue<T>(o: Objective<T>, s: Solution<T>, modifs: Option<Ledger>): (f: real)
    ensures UsesPartial(o, s, modifs) ==> f == o.fitnessPartial.value(s, modifs.value)
    ensures !UsesPartial(o, s, modifs) ==> f == o.fitness(s)
  {
    if s.fitness.Some? && modifs.Some? && !modifs.value.IsEmpty() && o.fitnessPartial.Some? then
      o.fitnessPartial.value(s, modifs.value)
    else
      o.fitness(s)
  }

  /** __call__: the fitness is (re)computed when it is missing or when modifications are given;
      otherwise the solution is left as it is. Values and encoding never change. */
  function Evaluate<T>(o: Objective<T>, s: Solution<T>, modifs: Option<Ledger>): (r: Solution<T>)
    ensures r.values == s.values && r.encoding == s.encoding
    ensures r.fitness.Some?
    ensures s.fitness.None? || modifs.Some? ==> r.fitness == Some(ComputeFitnessValue(o, s, modifs))
    ensures s.fitness.Some? && modifs.None? ==> r == s
  {
    if s.fitness.None? || modifs.Some? then
      Solution(s.values, s.encoding, Some(ComputeFitnessValue(o, s, modifs)))
    else s
  }

  /** Without a partial function, or with an empty record of modifications, the full fitness
      function is used. */
  lemma FullFitnessWithoutPartialOrModifs<T>(o: Objective<T>, s: Solution<T>, modifs: Option<Ledger>)
    requires o.fitnessPartial.None? || modifs.None? || modifs.value.IsEmpty() || s.fitness.None?
    requires s.fitness.None? || modifs.Some?
    ensures Evaluate(o, s, modifs).fitness == Some(o.fitness(s))
  {
  }

  /** A second evaluation without modifications keeps the fitness of the first. */
  lemma EvaluateIdempotent<T>(o: Objective<T>, s: Solution<T>)
    ensures Evaluate(o, Evaluate(o, s, None), None) == Evaluate(o, s, None)
  {
  }

  /** When the partial function computes what the full function computes, the fitness put on the
      solution is the full fitness whichever function is chosen. */
  lemma PartialAgreesWithFull<T>(o: Objective<T>, s: Solution<T>, modifs: Option<Ledger>)
    requires o.fitnessPartial.Some? ==> forall m :: o.fitnessPartial.value(s, m) == o.fitness(s)
    requires s.fitness.None? || modifs.Some?
    ensures Evaluate(o, s, modifs).fitness == Some(o.fitness(s))
  {
  }

  /** ObjectiveNoisy evaluates exactly as the plain objective with the same functions. */
  lemma NoisyEvaluatesAsObjective<T>(f: Solution<T> -> real, std: real, p: Option<(Solution<T>, Ledger) -> real>,
                                     s: Solution<T>, modifs: Ledger)
    ensures Evaluate(ObjectiveNoisy(f, std, p), s, Some(modifs)) == Evaluate(Objective(f, p), s, Some(modifs))
  {
  }
}
