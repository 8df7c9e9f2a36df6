# metabench neighbourhood engine in Dafny

This project models the solution-representation and neighbour-generation engine of metabench, a
Python benchmark for metaheuristics. It proves properties of that model. It covers:

- **Modification ledger** (`Modif`). `Modifs` is a class with `AddModif`, specified by the pure
  `Record` on a `Ledger` value. It keeps, per attribute index, the first value before and the
  latest value after. Lemmas relate a recorded list of edits to the solution those edits produce.
- **Objective** (`Objectives`). The choice between full and incremental fitness, `__call__`, and
  the noisy objective.
- **Search space** (`Boundary`, `Encodings`, `Distances`).
  - `Boundaries` construction, accessors and `normalize`.
  - The binary, discrete, real and permutation encodings: constructors, `space_size`, random
    values, and distances of norm order 0 and 1.
  - Hamming and Manhattan distances.
  - The `Solution` operations `copy` and `to_bounds`, as the solution tests state them.
- **Move ranges** (`MoveRanges`). The step check and the linear continuous and discrete
  conversions of a normalized step in [0, 1].
- **Single-draw moves** (`MoveFunctions`). `move_binary_flip`, `move_swap`, `move_substitution`
  and `move_distance_continuous`, as methods that edit a copied solution and a `Modifs` in a loop.
- **Enumerating moves** (`EnumerationMoves`, `Itertools`, `RandomDraws`).
  - `itertools.combinations`, `itertools.product` and `numpy.random.shuffle`.
  - The candidate lists, their caps and the neighbour each candidate yields.
  - Each candidate is yielded once, and min(cap, total) of them are yielded.
- **Neighbourhood drivers** (`NeighborhoodGenerators`, `NeighborhoodOperators`).
  - The pass-through generator.
  - The factory.
  - The operator's retry loop, with deduplication by ledger content within one call.
- **Hill climbing** (`HillClimbers`). Candidate selection, the stopping rule and the initial
  solution, as a class over its current solution and previous fitness.
- **Parameters** (`ParameterChecks`). The value checks and the default-filling `Parameters`
  constructor.
- **Type-name filters** (`Decorators`). `implemented_for` and `not_implemented_for`.

Conventions:

- Floats are `real`.
- A solution is a value `Solution(values, encoding, fitness)`. An in-place edit of a solution
  becomes a new value.
- Every random draw (`numpy.random.choice`, `shuffle`, `randint`, `uniform`) is a parameter.
  - Its precondition states what numpy guarantees. For example, the indices drawn without
    replacement are distinct and in range.
  - For a shuffle, the parameter is the sequence of swap positions.
- Python exceptions are the `Failure` or `Fail` values of `Wrappers`.
- A generator is the sequence it yields, together with the error it ends with.

## Model

| member | source | states |
|---|---|---|
| Modif.Record | metabench/common/fitness/modif.py:25-42 | a known index keeps its first value before, takes the new value after and keeps its place; a new index is appended with both values; no other key changes; a valid ledger stays valid |
| Modif.Modifs.constructor | metabench/common/fitness/modif.py:22-23 | a new Modifs is empty and valid |
| Modif.Modifs.AddModif | metabench/common/fitness/modif.py:25-42 | the content after add_modif is Record of the content before, and validity (each key once, order listing exactly the keys) is kept |
| Modif.Modifs.SetItem | metabench/common/fitness/modif.py:44-46 | item assignment always raises NotImplementedError |
| Modif.FirstTouchFacts | metabench/common/fitness/modif.py:38-42 | the first-touch order lists each edited index once and only edited indices |
| Modif.RecordAllOrder | metabench/common/fitness/modif.py:38-42 | recording a list of edits gives a valid ledger whose keys come in first-touch order |
| Modif.RecordAllKeys | metabench/common/fitness/modif.py:38-42 | the keys of the recorded content are exactly the edited indices |
| Modif.RecordAllFirstLast | metabench/common/fitness/modif.py:28-30 | each key keeps the value before of its first edit and the value after of its last edit |
| Modif.DistinctRecordAll | metabench/common/fitness/modif.py:38-42 | with distinct indices, the content holds every edit as given, in edit order |
| Modif.DistinctEntryAt | metabench/common/fitness/modif.py:38-42 | with distinct indices, edit t is stored unchanged under its index |
| Modif.FirstTouchDistinct | metabench/common/fitness/modif.py:38-42 | on distinct indices the first-touch order is the edit order |
| Modif.ReplayRecordAll | metabench/common/fitness/modif.py:18-19 | replaying the recorded values after gives the same values as making the edits one by one |
| Modif.ChainedConsistent | metabench/common/fitness/modif.py:28-30 | when every edit records the value it overwrites, every recorded value before is the original value |
| Modif.RevertReplay | metabench/common/fitness/modif.py:18-19 | writing the recorded values before back onto the replayed solution restores the original |
| Modif.ReplayChangedAt | metabench/common/fitness/modif.py:18-19 | a replayed position differs from the original exactly when its two recorded values differ |
| Modif.RecordTwice | metabench/common/fitness/modif.py:28-30 | recording (i, a, b) then (i, b, c) leaves (a, c) under i, with i appended once |
| Modif.ApplyStep | metabench/common/fitness/modif.py:38-42 | one more edit writes its value after at its index and records one more add_modif |
| Modif.ApplyDistinct | metabench/common/fitness/modif.py:38-42 | with distinct indices, each edited position holds its edit's value after and every other position is unchanged |
| Modif.DistinctIndexCount | metabench/common/fitness/modif.py:38-42 | with distinct indices the ledger has one key per edit |
| Modif.DistinctIndexSetSize | metabench/common/fitness/modif.py:38-42 | with distinct indices the set of edited indices has one member per edit |
| Boundary.Trunc | metabench/common/representation/boundaries.py:60-63 | the integer cast truncates toward zero: within one of the value, on the side of zero |
| Boundary.Build | metabench/common/representation/boundaries.py:60-63 | the array has three rows of the inputs' length, stored in the requested type |
| Boundary.New | metabench/common/representation/boundaries.py:43-65 | unequal lengths raise ValueError; otherwise it fails exactly when some maximum is below its minimum, reporting all and only those indexes in increasing order; on success the array is Build of the inputs and well formed |
| Boundary.CastMonotone | metabench/common/representation/boundaries.py:60-63 | storing in either type keeps the order of values, so no stored maximum falls below its minimum |
| Boundary.FloatRows | metabench/common/representation/boundaries.py:67-81 | float boundaries return the inputs through min_val(s)/max_val(s), and every space size is positive |
| Boundary.IntRows | metabench/common/representation/boundaries.py:57-63 | integer boundaries over integral inputs keep the inputs, and the space size is exactly max - min (the epsilon is truncated away) |
| Boundary.IntegralTrunc | metabench/common/representation/boundaries.py:60-63 | an integral value survives the integer cast |
| Boundary.NormalizeAsWritten | metabench/common/representation/boundaries.py:83-97 | as written: undefined (None) exactly when some space size is zero; otherwise each component times its space size gives back the input |
| Boundary.Divisor | metabench/common/representation/boundaries.py:57-62 | the space size with its epsilon is at least epsilon |
| Boundary.Normalize | metabench/common/representation/boundaries.py:83-97 | each component times its strictly positive space size gives back the input |
| Boundary.NormalizeKeepsSigns | metabench/common/representation/boundaries.py:83-97 | normalizing keeps the sign of every component, and zero exactly at zero |
| Boundary.NormalizeAgreesOnFloat | metabench/common/representation/boundaries.py:83-97 | for float boundaries the as-written and guarded normalize agree |
| Boundary.IntScaleTruncatesEpsilon | metabench/common/representation/boundaries.py:57-63 | integer boundaries with min == max store a zero space size, so normalize as written divides by zero |
| Distances.Mismatches | metabench/misc/distances.py:15 | the mismatch count is at most the length and zero exactly for equal arrays |
| Distances.MismatchesIsCardinality | metabench/misc/distances.py:15 | the mismatch count is the number of positions where the arrays differ |
| Distances.MismatchesSymmetric | metabench/misc/distances.py:15 | the mismatch count does not depend on the order of the arrays |
| Distances.HammingDistance | metabench/misc/distances.py:12-15 | ValueError exactly on unequal shapes; otherwise the number of differing positions, zero exactly for equal arrays |
| Distances.AbsDiffSum | metabench/misc/distances.py:21 | the order-1 norm of the difference is non-negative and zero exactly for equal arrays |
| Distances.AbsDiffSumSymmetric | metabench/misc/distances.py:21 | the order-1 norm of the difference is symmetric |
| Distances.ManhattanDistance | metabench/misc/distances.py:18-21 | ValueError exactly on unequal shapes; otherwise the sum of the absolute elementwise differences, non-negative and zero exactly for equal arrays |
| Distances.DistancesSymmetric | metabench/misc/distances.py:12-21 | both distances are symmetric, including their errors |
| Encodings.Copy | metabench/tests/test_solution.py:42-87 | a copy has the same values and encoding, and the fitness only when asked for |
| Encodings.ToBounds | metabench/tests/test_solution.py:130-164 | every value is clipped into its attribute's range: values inside are kept, those below go to the minimum, those above to the maximum; without boundaries nothing changes |
| Encodings.AsReal | metabench/misc/distances.py:21 | integer values are seen as the same reals, encoding and fitness kept |
| Encodings.NewBinary | metabench/common/representation/encoding.py:108-116 | a non-positive size is exactly the ValueError case; otherwise integer boundaries 0 and 1 with space size 1 on every attribute, norm order 0 |
| Encodings.NewDiscrete | metabench/common/representation/encoding.py:144-148 | TypeError exactly when the boundaries are not integer; otherwise the encoding keeps them, norm order 1 |
| Encodings.NewReal | metabench/common/representation/encoding.py:182-186 | TypeError exactly when the boundaries are not float; otherwise the encoding keeps them, norm order 2 |
| Encodings.NewPermutation | metabench/common/representation/encoding.py:217-219 | the encoding keeps the items and has no boundaries and no norm order |
| Encodings.NewMixed | metabench/common/representation/encoding.py:240-241 | always NotImplementedError |
| Encodings.SpaceSize | metabench/common/representation/encoding.py:55-235 | NotImplementedError exactly for the base and real encodings; TypeError exactly for a discrete encoding over no attribute; otherwise 2 ** size for binary, the product of (space size + 1) for discrete, len(items)! for a permutation |
| Encodings.DiscreteSpaceSizeCountsPoints | metabench/common/representation/encoding.py:166-168 | a discrete encoding over integral bounds has as many solutions as integer points in its box |
| Encodings.ProductOfIntScales | metabench/common/representation/encoding.py:166-168 | the product of (space size + 1) is the product of (max - min + 1) |
| Encodings.BinarySpaceSizeAgreesWithDiscrete | metabench/common/representation/encoding.py:129-130 | 2^size equals the count of a discrete encoding over the binary boundaries |
| Encodings.ProductOfTwos | metabench/common/representation/encoding.py:129-130 | a product of n factors 2 is 2^n |
| Encodings.SpaceSizeGrows | metabench/common/representation/encoding.py:129-235 | one more attribute doubles the binary space size; one more item multiplies the permutation space size by the new number of items |
| Encodings.SpaceSizeExamples | metabench/common/representation/encoding.py:129-235 | a binary encoding of 10 attributes has 2 ** 10 = 1024 solutions, a permutation of four items 4! = 24 |
| Encodings.GenerateBinary | metabench/common/representation/encoding.py:118-127 | the size values drawn by randint(2), each 0 or 1, returned as drawn |
| Encodings.GenerateDiscrete | metabench/common/representation/encoding.py:150-164 | one drawn integer per attribute, each within that attribute's bounds |
| Encodings.GenerateReal | metabench/common/representation/encoding.py:188-202 | one drawn float per attribute, each within that attribute's bounds |
| Encodings.GeneratePermutation | metabench/common/representation/encoding.py:221-232 | a rearrangement of the items: the same multiset, and no repetition if the items had none |
| Encodings.GenerateBase | metabench/common/representation/encoding.py:46-53 | the base class raises NotImplementedError |
| Encodings.Distance | metabench/common/representation/encoding.py:64-92 | NotImplementedError without a norm order; ValueError when either solution has another encoding; a success means both are of this encoding and of equal length, and its value is the norm of the order of the encoding of the difference, normalized by the boundaries when there are some |
| Encodings.DistanceAsWritten | metabench/common/representation/encoding.py:89-90 | as written: any encoding with non-empty boundaries fails |
| Encodings.DistanceAsWrittenFailsOnBinary | metabench/common/representation/encoding.py:89-90 | on every pair of binary solutions the distance as written raises ValueError while the corrected distance succeeds |
| Encodings.CountNonZeroMatches | metabench/common/representation/encoding.py:92 | the order-0 norm counts the positions where the two arrays differ |
| Encodings.BinaryDistanceIsHamming | metabench/common/representation/encoding.py:95-99 | the binary distance equals the Hamming distance of the two solutions |
| Encodings.SumAbsZero | metabench/common/representation/encoding.py:92 | the order-1 norm is zero exactly on a zero vector |
| Encodings.AbsDiffSumIsSumAbs | metabench/misc/distances.py:21 | the Manhattan distance equals the order-1 norm of the difference used by Encoding.distance |
| Encodings.DiscreteDistanceValue | metabench/common/representation/encoding.py:84-92 | a discrete encoding's distance is the order-1 norm of the normalized difference |
| Encodings.UnboundedOrder1IsManhattan | metabench/common/representation/encoding.py:84-92 | without boundaries, a distance of order 1 is manhattan_distance of the two solutions |
| Encodings.DiscreteDistanceZeroIffEqual | metabench/common/representation/encoding.py:133-143 | the discrete distance is zero exactly for equal solutions |
| Encodings.CountNonZeroNegated | metabench/common/representation/encoding.py:92 | orders 0 and 1 give the same norm for a vector and its negation |
| Encodings.DistanceSymmetric | metabench/common/representation/encoding.py:64-92 | distances of order 0 and 1 are symmetric, errors included |
| Encodings.NormalizeNegated | metabench/common/representation/encoding.py:88-90 | normalizing the negated difference gives the negated normalized difference |
| Encodings.DistanceToItself | metabench/common/representation/encoding.py:64-92 | a solution is at distance zero from itself, for every order |
| Encodings.NormOfZeros | metabench/common/representation/encoding.py:92 | all three norms of a zero vector are zero |
| MoveRanges.CheckStep | metabench/operators/neighborhood/move_range.py:41-58 | a non-float is exactly the TypeError case, a float outside [0.0, 1.0] exactly the ValueError case, every other float passes |
| MoveRanges.NewContinuous | metabench/operators/neighborhood/move_range.py:92-103 | an inverted range is a ValueError before any type check; then a non-float bound is a TypeError; success exactly for float bounds with low <= high |
| MoveRanges.NewContinuousLog | metabench/operators/neighborhood/move_range.py:111 | the logarithmic range fails exactly when and as the continuous constructor does |
| MoveRanges.Range | metabench/operators/neighborhood/move_range.py:178 | the values low..high, consecutive, from low to high |
| MoveRanges.NewDiscrete | metabench/operators/neighborhood/move_range.py:170-179 | an inverted range is a ValueError before any type check; then a non-int bound is a TypeError; success exactly for int bounds with low <= high, storing high - low + 1 consecutive values from low to high |
| MoveRanges.NewDiscreteLog | metabench/operators/neighborhood/move_range.py:193 | the logarithmic range fails exactly when and as the discrete constructor does, and stores the same values |
| MoveRanges.PyIndex | metabench/operators/neighborhood/move_range.py:214-215 | an index in [-n, n) succeeds, a negative one counting from the end; anything else is an IndexError |
| MoveRanges.RoundHalfEven | metabench/operators/neighborhood/move_range.py:214 | the result is within one half of the value |
| MoveRanges.DiscreteIndex | metabench/operators/neighborhood/move_range.py:184-189 | the chosen position is a valid one |
| MoveRanges.Convert | metabench/operators/neighborhood/move_range.py:105-108 | a step that fails the check raises its error before any conversion; a linear continuous range answers a float in [low, high], a linear discrete range one of its values, the logarithmic ranges their power-law value or an IndexError |
| MoveRanges.LinearStepWithin | metabench/operators/neighborhood/move_range.py:105-108 | the linear conversion lies in [low, high] |
| MoveRanges.LinearStepEndsAndMonotone | metabench/operators/neighborhood/move_range.py:82-89 | the linear conversion gives low at 0.0, high at 1.0, and never decreases with the step |
| MoveRanges.DiscreteStepEndsAndMonotone | metabench/operators/neighborhood/move_range.py:181-190 | the linear discrete conversion gives low at 0.0, high at 1.0, and never decreases with the step |
| MoveRanges.DiscreteConvert | metabench/operators/neighborhood/move_range.py:160-190 | with a range from the discrete constructor, convert gives low at 0.0, high at 1.0, and values of low..high that never decrease with the step |
| MoveRanges.ContinuousConvert | metabench/operators/neighborhood/move_range.py:82-108 | with a range from the continuous constructor, convert gives low at 0.0, high at 1.0, and values in [low, high] that never decrease with the step |
| MoveRanges.DiscreteExample | metabench/operators/neighborhood/move_range.py:160-167 | the range 1..3 maps 0.0, 0.5 and 1.0 to 1, 2 and 3 |
| MoveRanges.LogStepEndpoints | metabench/operators/neighborhood/move_range.py:114-125 | the logarithmic conversion gives low at 0.0 and high at 1.0 when the power undoes the logarithm |
| MoveRanges.DiscreteLogStepEndpoints | metabench/operators/neighborhood/move_range.py:196-207 | the logarithmic discrete conversion picks the first value at 0.0 and the last at 1.0 |
| Objectives.ComputeFitnessValue | metabench/common/fitness/objective.py:52-66 | the partial function is used exactly when the solution has a fitness, a non-empty record of modifications is given and a partial function exists; otherwise the full function |
| Objectives.Evaluate | metabench/common/fitness/objective.py:37-50 | the fitness is recomputed exactly when it is missing or modifications are given; otherwise the solution is unchanged; values and encoding never change and a fitness is always present afterwards |
| Objectives.FullFitnessWithoutPartialOrModifs | metabench/common/fitness/objective.py:63-66 | without a partial function, a record of modifications or a previous fitness, a recomputation uses the full fitness function |
| Objectives.EvaluateIdempotent | metabench/common/fitness/objective.py:49 | a second call without modifications keeps the fitness of the first |
| Objectives.PartialAgreesWithFull | metabench/common/fitness/objective.py:52-66 | when the partial function agrees with the full one, the fitness set is the full fitness whichever is chosen |
| Objectives.NoisyEvaluatesAsObjective | metabench/common/fitness/objective.py:69-76 | the noisy objective evaluates exactly as the plain one with the same functions |
| MoveFunctions.FlipEdit | metabench/operators/neighborhood/move_functions.py:38-43 | a flip changes its bit, and on a 0/1 value records the value it overwrites |
| MoveFunctions.FlipEdits | metabench/operators/neighborhood/move_functions.py:37-43 | one flip per drawn position, in drawing order |
| MoveFunctions.MoveBinaryFlip | metabench/operators/neighborhood/move_functions.py:18-45 | a non-binary solution raises NotImplementedError; a step outside [0, n] is numpy's ValueError; otherwise the neighbour is the flip of the drawn positions |
| MoveFunctions.FlipBits | metabench/operators/neighborhood/move_functions.py:32-45 | the loop over the drawn positions builds exactly the flip neighbour and its record |
| MoveFunctions.FlipOne | metabench/operators/neighborhood/move_functions.py:38-43 | one iteration complements one bit of the copy and records (1, 0) or (0, 1) through add_modif |
| MoveFunctions.UntouchedByPrefix | metabench/operators/neighborhood/move_functions.py:37-43 | before a distinct position is flipped it still holds the source value |
| MoveFunctions.ChangedExactlyAt | metabench/operators/neighborhood/move_functions.py:37-43 | distinct changing edits change exactly their positions, so the Hamming distance is their number |
| MoveFunctions.FlipNeighborChanges | metabench/operators/neighborhood/move_functions.py:18-45 | a flip neighbour keeps the encoding and fitness, differs from the source exactly at the drawn positions with each bit complemented, and is at Hamming distance step |
| MoveFunctions.FlipNeighborRecord | metabench/operators/neighborhood/move_functions.py:32-45 | the record is valid, lists the drawn positions in drawing order, holds (1, 0) or (0, 1) at each, and replaying it gives the neighbour |
| MoveFunctions.FlipNeighborReverts | metabench/operators/neighborhood/move_functions.py:33-45 | on 0/1 values the record is consistent with the source, and writing its values before back restores the source |
| MoveFunctions.Shifted | metabench/operators/neighborhood/move_functions.py:68 | the shift adds the vector component by component |
| MoveFunctions.MoveDistanceContinuous | metabench/operators/neighborhood/move_functions.py:48-74 | NotImplementedError exactly for non-real solutions; otherwise an empty record and a neighbour clipped into the bounds, equal to the shifted source wherever that stays inside, at the bound it crosses elsewhere |
| MoveFunctions.ContinuousInsideBounds | metabench/operators/neighborhood/move_functions.py:64-69 | a shift that stays inside the bounds is kept as is; a zero shift gives back the source values |
| MoveFunctions.SwapEdits | metabench/operators/neighborhood/move_functions.py:129-133 | two records per drawn pair, every one at a valid position |
| MoveFunctions.SwapPairs | metabench/operators/neighborhood/move_functions.py:129-131 | exchanging pairs keeps the length |
| MoveFunctions.SwapPairsMultiset | metabench/operators/neighborhood/move_functions.py:129-131 | exchanging pairs keeps the multiset of values |
| MoveFunctions.SwapEditsIndices | metabench/operators/neighborhood/move_functions.py:132-133 | the recorded positions are the drawn ones, in drawing order |
| MoveFunctions.SwapEditsAt | metabench/operators/neighborhood/move_functions.py:132-133 | pair q is recorded as (vals[i], vals[j]) at i and (vals[j], vals[i]) at j |
| MoveFunctions.SwapPairsUntouched | metabench/operators/neighborhood/move_functions.py:129-131 | a position that was not drawn keeps its value |
| MoveFunctions.SwapPairsExchanged | metabench/operators/neighborhood/move_functions.py:129-131 | each drawn pair of distinct positions is exchanged |
| MoveFunctions.NotInPrefix | metabench/operators/neighborhood/move_functions.py:124 | a position drawn without replacement is not among the earlier ones |
| MoveFunctions.SwapEditsArePairSwaps | metabench/operators/neighborhood/move_functions.py:129-133 | making the recorded edits one by one is exchanging the pairs |
| MoveFunctions.SwapEditsStep | metabench/operators/neighborhood/move_functions.py:129-133 | one more pair of recorded edits writes the exchange of that pair |
| MoveFunctions.SwapPairsStep | metabench/operators/neighborhood/move_functions.py:129-131 | one more pair exchanges those two positions of the source |
| MoveFunctions.MoveSwap | metabench/operators/neighborhood/move_functions.py:107-135 | a non-permutation solution raises NotImplementedError; a step that needs more than n distinct draws is numpy's ValueError; otherwise the neighbour is the swap of the drawn pairs |
| MoveFunctions.SwapPositions | metabench/operators/neighborhood/move_functions.py:124-135 | the loop over the drawn pairs builds exactly the swap neighbour and its record |
| MoveFunctions.SwapOne | metabench/operators/neighborhood/move_functions.py:129-133 | one iteration exchanges two positions of the copy and records both through add_modif |
| MoveFunctions.SwapStep | metabench/operators/neighborhood/move_functions.py:129-133 | pair p of distinct positions extends both the values and the record by that exchange |
| MoveFunctions.SwapNeighborChanges | metabench/operators/neighborhood/move_functions.py:107-135 | a swap neighbour keeps the encoding, fitness and multiset of values, exchanges every drawn pair and keeps every other position; replaying its record gives it |
| MoveFunctions.SwapEditPartner | metabench/operators/neighborhood/move_functions.py:132-133 | every recorded edit stores the value of its pair's other position as value after |
| MoveFunctions.SwapRecordOrder | metabench/operators/neighborhood/move_functions.py:132-133 | the record is valid and lists every drawn position, in drawing order |
| MoveFunctions.SwapRecordEntries | metabench/operators/neighborhood/move_functions.py:132-133 | each drawn pair is recorded as the exchange of its two source values |
| MoveFunctions.SwapRecordConsistent | metabench/operators/neighborhood/move_functions.py:132-133 | every value before in the record is the source's |
| MoveFunctions.SwapNeighborRecord | metabench/operators/neighborhood/move_functions.py:124-135 | the record is valid, in drawing order, holds each pair's exchange and is consistent with the source |
| MoveFunctions.SwapEditsChange | metabench/operators/neighborhood/move_functions.py:129-133 | on distinct values every recorded edit really changes its position |
| MoveFunctions.SwapNeighborDistance | metabench/operators/neighborhood/move_functions.py:107-135 | on distinct values a swap of step pairs is at Hamming distance 2 * step |
| MoveFunctions.SwapRecordChanges | metabench/operators/neighborhood/move_functions.py:132-133 | on distinct values no recorded pair has equal values |
| MoveFunctions.IntRange | metabench/operators/neighborhood/move_functions.py:97-98 | the set holds exactly lo..hi |
| MoveFunctions.IntRangeCard | metabench/operators/neighborhood/move_functions.py:97-98 | lo..hi has hi - lo + 1 members, none when hi < lo |
| MoveFunctions.SubstitutionOutcome | metabench/operators/neighborhood/move_functions.py:97-100 | a current value outside its range is the KeyError of set.remove; a range with nothing left is the ValueError of the draw; otherwise the position passes |
| MoveFunctions.CheckSubstitution | metabench/operators/neighborhood/move_functions.py:97-100 | the per-position check computes SubstitutionOutcome |
| MoveFunctions.FailureFromSpec | metabench/operators/neighborhood/move_functions.py:96-102 | no failure exactly when every remaining position passes; otherwise the first failing position gives the error |
| MoveFunctions.SubstitutionEdits | metabench/operators/neighborhood/move_functions.py:101-102 | one record per drawn position, the source value before and the drawn value after |
| MoveFunctions.MoveSubstitutionAsWritten | metabench/operators/neighborhood/move_functions.py:77-104 | as written: every call fails; on a drawn value outside its range it is the KeyError, otherwise the draw from a set or the undefined name |
| MoveFunctions.SubstitutionLoop | metabench/operators/neighborhood/move_functions.py:96-102 | the loop stops at the first failing position with its error; without one the copy and the record are the substitution of all drawn positions |
| MoveFunctions.MoveSubstitution | metabench/operators/neighborhood/move_functions.py:77-104 | NotImplementedError for non-discrete solutions, numpy's ValueError for an impossible step, the first position's error, otherwise the substitution neighbour |
| MoveFunctions.SubstitutionNeighborChanges | metabench/operators/neighborhood/move_functions.py:93-104 | a substitution neighbour keeps the encoding and fitness, holds an allowed new value at each drawn position, changes exactly those positions and is at Hamming distance step |
| MoveFunctions.SubstitutionNeighborRecord | metabench/operators/neighborhood/move_functions.py:95-104 | the record is valid, in drawing order, holds (source value, new value) at each drawn position, is consistent with the source and replays to the neighbour |
| MoveFunctions.SubstitutionExample | metabench/operators/neighborhood/move_functions.py:97-104 | on the one-attribute range 0..2 the move as written raises while the corrected move substitutes 1 for 0 and records (0, 1) |
| EnumerationMoves.Capped | metabench/algorithmic/operators/neighborhood/move_functions.py:38-41 | the kept list is a prefix: all of it without a cap, the first nb for a non-negative cap, all but the last -nb for a negative one |
| EnumerationMoves.FlipCandidates | metabench/algorithmic/operators/neighborhood/move_functions.py:35-41 | the kept flip tuples are distinct, increasing step-tuples of positions; there are C(n, step) of them, or the cap if smaller |
| EnumerationMoves.FlipCandidateIsDraw | metabench/algorithmic/operators/neighborhood/move_functions.py:35 | every flip tuple is a draw of step distinct positions |
| EnumerationMoves.EnumBinaryFlip | metabench/algorithmic/operators/neighborhood/move_functions.py:17-51 | NotImplementedError for non-binary solutions, ValueError for a negative step; otherwise one flip neighbour per kept tuple, in order |
| EnumerationMoves.FlipEach | metabench/algorithmic/operators/neighborhood/move_functions.py:41-51 | the loop yields the flip neighbour of each kept tuple, in order |
| EnumerationMoves.FlipNeighborsDistinct | metabench/algorithmic/operators/neighborhood/move_functions.py:35-51 | the flip neighbours yielded are pairwise different |
| EnumerationMoves.FlipDrawsDiffer | metabench/algorithmic/operators/neighborhood/move_functions.py:44-50 | two different increasing flip tuples give different neighbours |
| EnumerationMoves.EnumDistanceContinuous | metabench/algorithmic/operators/neighborhood/move_functions.py:54-85 | NotImplementedError for non-real solutions, TypeError when nb_neighbors is None; otherwise max(nb, 0) clipped neighbours, each with an empty record |
| EnumerationMoves.SubstGroup | metabench/algorithmic/operators/neighborhood/move_functions.py:115 | one pair (i, x) per listed value, in order, none repeated when the listing has no repetition |
| EnumerationMoves.InSubstGroup | metabench/algorithmic/operators/neighborhood/move_functions.py:115 | a pair is in attribute i's group exactly when it is (i, x) for a listed x |
| EnumerationMoves.SubstGroups | metabench/algorithmic/operators/neighborhood/move_functions.py:108-115 | group i holds the substitutions of attribute i |
| EnumerationMoves.InComboProduct | metabench/algorithmic/operators/neighborhood/move_functions.py:118-121 | the product of the k-th combination of groups holds exactly the substitution tuples over the k-th increasing tuple of attributes |
| EnumerationMoves.AllSubstitutionsMembers | metabench/algorithmic/operators/neighborhood/move_functions.py:118-121 | all_subst holds exactly the substitution tuples: step attributes in increasing order, each with an allowed new value |
| EnumerationMoves.AllSubstitutionsDistinct | metabench/algorithmic/operators/neighborhood/move_functions.py:118-121 | all_subst holds each substitution tuple once |
| EnumerationMoves.SubstCandidates | metabench/algorithmic/operators/neighborhood/move_functions.py:118-127 | the kept substitution tuples are distinct and valid; without a cap they are exactly all the substitution tuples |
| EnumerationMoves.Substitute | metabench/algorithmic/operators/neighborhood/move_functions.py:128-133 | the inner loop builds exactly the substitution neighbour of one tuple |
| EnumerationMoves.SubstituteEach | metabench/algorithmic/operators/neighborhood/move_functions.py:127-133 | the loop yields the substitution neighbour of each kept tuple, in order |
| EnumerationMoves.EnumSubstitution | metabench/algorithmic/operators/neighborhood/move_functions.py:88-133 | NotImplementedError for non-discrete solutions, KeyError when a current value is out of range, ValueError for a negative step; otherwise one substitution neighbour per kept tuple, in order |
| EnumerationMoves.TupleIsDraw | metabench/algorithmic/operators/neighborhood/move_functions.py:118-133 | a substitution tuple is a valid draw of distinct attributes with allowed values, and none of them fails |
| EnumerationMoves.SubstNeighborFacts | metabench/algorithmic/operators/neighborhood/move_functions.py:127-133 | a substitution neighbour gives each attribute of the tuple its new value, changes nothing else, stays in range, is at Hamming distance step, and its record lists the attributes in order, is consistent and replays to it |
| EnumerationMoves.SubstNeighborsDiffer | metabench/algorithmic/operators/neighborhood/move_functions.py:127-133 | different substitution tuples give different neighbours |
| EnumerationMoves.EnumSubstitutionDistinct | metabench/algorithmic/operators/neighborhood/move_functions.py:118-133 | the substitution neighbours yielded are pairwise different |
| EnumerationMoves.SumLengthsSpan | metabench/algorithmic/operators/neighborhood/move_functions.py:108-121 | listings of lengths max_val(i) - min_val(i) add up to SpanSum |
| EnumerationMoves.ListingLength | metabench/algorithmic/operators/neighborhood/move_functions.py:110-113 | attribute i offers max_val(i) - min_val(i) substitutions |
| EnumerationMoves.SubstitutionCountStepOne | metabench/algorithmic/operators/neighborhood/move_functions.py:108-127 | with step 1 and no cap there are Σ (max_val(i) - min_val(i)) neighbours |
| EnumerationMoves.PairGroup | metabench/algorithmic/operators/neighborhood/move_functions.py:157-159 | the pairs (i, j) for i < j < n, in increasing j, none repeated |
| EnumerationMoves.InPairGroup | metabench/algorithmic/operators/neighborhood/move_functions.py:157-159 | a pair is in group i exactly when it is (i, j) with i < j < n |
| EnumerationMoves.PairGroups | metabench/algorithmic/operators/neighborhood/move_functions.py:155-160 | one group per i in range(n - 1) |
| EnumerationMoves.BuildPairGroups | metabench/algorithmic/operators/neighborhood/move_functions.py:155-160 | the nested loops build exactly PairGroups |
| EnumerationMoves.TestSwapUnicity | metabench/algorithmic/operators/neighborhood/move_functions.py:164-168 | true exactly when no two pairs share a position |
| EnumerationMoves.KeepDisjoint | metabench/algorithmic/operators/neighborhood/move_functions.py:172-173 | the filter keeps exactly the tuples whose pairs share no position |
| EnumerationMoves.KeepDisjointDistinct | metabench/algorithmic/operators/neighborhood/move_functions.py:172-173 | filtering a list without repetitions leaves one without repetitions |
| EnumerationMoves.FilterSwaps | metabench/algorithmic/operators/neighborhood/move_functions.py:170-174 | the filter loop computes KeepDisjoint |
| EnumerationMoves.SwapBlocks | metabench/algorithmic/operators/neighborhood/move_functions.py:171-174 | block k is the filtered product of the k-th combination |
| EnumerationMoves.InSwapComboProduct | metabench/algorithmic/operators/neighborhood/move_functions.py:162-173 | the product of the k-th combination holds exactly the tuples of pairs i < j < n over the k-th increasing tuple of first positions |
| EnumerationMoves.AllSwapsMembers | metabench/algorithmic/operators/neighborhood/move_functions.py:162-174 | list_swaps holds exactly the swap tuples: step pairs i < j < n with increasing first positions, no two sharing a position |
| EnumerationMoves.AllSwapsDistinct | metabench/algorithmic/operators/neighborhood/move_functions.py:162-174 | list_swaps holds each swap tuple once |
| EnumerationMoves.Flat | metabench/algorithmic/operators/neighborhood/move_functions.py:183 | the positions are laid out pair after pair |
| EnumerationMoves.FlatAt | metabench/algorithmic/operators/neighborhood/move_functions.py:183 | position a of the layout is the first or second of pair a / 2 |
| EnumerationMoves.FlatIsDraw | metabench/algorithmic/operators/neighborhood/move_functions.py:183-187 | the positions of a swap tuple are 2 * step distinct positions of the solution |
| EnumerationMoves.SwapCandidates | metabench/algorithmic/operators/neighborhood/move_functions.py:170-180 | the kept swap tuples are distinct and valid; without a cap they are exactly all the swap tuples |
| EnumerationMoves.SwapDraws | metabench/algorithmic/operators/neighborhood/move_functions.py:180-183 | the positions each kept tuple exchanges |
| EnumerationMoves.SwapDrawsValid | metabench/algorithmic/operators/neighborhood/move_functions.py:180-183 | each tuple's positions are 2 * step distinct positions |
| EnumerationMoves.SwapEach | metabench/algorithmic/operators/neighborhood/move_functions.py:180-188 | the loop yields the swap neighbour of each kept tuple, in order |
| EnumerationMoves.EnumSwap | metabench/algorithmic/operators/neighborhood/move_functions.py:136-188 | NotImplementedError for non-permutation solutions, ValueError for a negative step; otherwise one swap neighbour per kept tuple, in order |
| EnumerationMoves.KeepDisjointAll | metabench/algorithmic/operators/neighborhood/move_functions.py:172-173 | filtering a list of disjoint tuples keeps it whole |
| EnumerationMoves.SumLengthsTriangle | metabench/algorithmic/operators/neighborhood/move_functions.py:155-160 | lists of lengths n - 1, n - 2, ... add up to m (2n - 1 - m) / 2 after m of them |
| EnumerationMoves.SwapCountStepOne | metabench/algorithmic/operators/neighborhood/move_functions.py:155-180 | with step 1 and no cap there are n (n - 1) / 2 neighbours, one per pair i < j |
| EnumerationMoves.StepOneBlocks | metabench/algorithmic/operators/neighborhood/move_functions.py:155-174 | with step 1, block k holds the n - 1 - k pairs that start at k |
| EnumerationMoves.TriangleSum | metabench/algorithmic/operators/neighborhood/move_functions.py:155-160 | blocks of lengths n - 1, ..., 0 add up to n (n - 1) / 2 |
| EnumerationMoves.SwapTupleValues | metabench/algorithmic/operators/neighborhood/move_functions.py:181-185 | a swap neighbour keeps the encoding, fitness and multiset of values, exchanges every pair and keeps every other position |
| EnumerationMoves.SwapTupleRecord | metabench/algorithmic/operators/neighborhood/move_functions.py:182-187 | the record lists the positions pair by pair, each with the source's value before and the partner's after, and replays to the neighbour |
| EnumerationMoves.SwapTupleChanges | metabench/algorithmic/operators/neighborhood/move_functions.py:181-187 | on distinct values a swap neighbour is at Hamming distance 2 * step and every record changes its position |
| EnumerationMoves.SwapFirstNotIn | metabench/algorithmic/operators/neighborhood/move_functions.py:183-185 | a position that starts a pair in one tuple only holds different values in the two neighbours |
| EnumerationMoves.SwapSameFirsts | metabench/algorithmic/operators/neighborhood/move_functions.py:183-185 | tuples with the same first positions but different partners give different neighbours |
| EnumerationMoves.SwapPairValue | metabench/algorithmic/operators/neighborhood/move_functions.py:184 | the first position of each pair receives its partner's value |
| EnumerationMoves.SwapNeighborsDiffer | metabench/algorithmic/operators/neighborhood/move_functions.py:180-188 | on distinct values different swap tuples give different neighbours |
| EnumerationMoves.EnumSwapDistinct | metabench/algorithmic/operators/neighborhood/move_functions.py:170-188 | on distinct values the swap neighbours yielded are pairwise different |
| Itertools.Range | metabench/algorithmic/operators/neighborhood/move_functions.py:35 | range(lo, hi) holds hi - lo positions, the t-th being lo + t |
| Itertools.Prepend | metabench/algorithmic/operators/neighborhood/move_functions.py:35 | puts x in front of every tuple |
| Itertools.PrependMember | metabench/algorithmic/operators/neighborhood/move_functions.py:35 | a tuple is in the prepended list exactly when it starts with x and its tail is in the list |
| Itertools.IndexCombosMembers | metabench/algorithmic/operators/neighborhood/move_functions.py:35 | combinations(range(lo, hi), r) yields exactly the increasing r-tuples of positions in [lo, hi) |
| Itertools.IndexCombosSound | metabench/algorithmic/operators/neighborhood/move_functions.py:35 | every tuple it yields is an increasing r-tuple within [lo, hi) |
| Itertools.IndexCombosComplete | metabench/algorithmic/operators/neighborhood/move_functions.py:35 | every increasing r-tuple within [lo, hi) is yielded |
| Itertools.IndexCombosCount | metabench/algorithmic/operators/neighborhood/move_functions.py:35 | it yields C(hi - lo, r) tuples |
| Itertools.DistinctConcat | metabench/algorithmic/operators/neighborhood/move_functions.py:121 | two lists without repetitions and with no common element concatenate into one without repetitions |
| Itertools.PrependDistinct | metabench/algorithmic/operators/neighborhood/move_functions.py:35 | prepending keeps a list free of repetitions |
| Itertools.IndexCombosDistinct | metabench/algorithmic/operators/neighborhood/move_functions.py:35 | no tuple is yielded twice |
| Itertools.Pick | metabench/algorithmic/operators/neighborhood/move_functions.py:118 | picks the elements at the given positions, in order |
| Itertools.Combinations | metabench/algorithmic/operators/neighborhood/move_functions.py:118 | combinations of a list yield as many tuples as the index combinations |
| Itertools.CombinationAt | metabench/algorithmic/operators/neighborhood/move_functions.py:118 | the k-th combination of a list is the list picked at the k-th increasing tuple of positions |
| Itertools.IndexCombinations | metabench/algorithmic/operators/neighborhood/move_functions.py:35 | combinations(range(n), r) is exactly the increasing r-tuples of positions below n, C(n, r) of them, none repeated |
| Itertools.IndexCombosOfOne | metabench/algorithmic/operators/neighborhood/move_functions.py:118 | the 1-tuples of [lo, hi) are [lo], [lo + 1], ..., in order |
| Itertools.CombinationsOfOne | metabench/algorithmic/operators/neighborhood/move_functions.py:118 | combinations(xs, 1) is [xs[0]], [xs[1]], ..., in order |
| Itertools.ProductWith | metabench/algorithmic/operators/neighborhood/move_functions.py:121 | one tuple per choice from the first group and tuple of the rest |
| Itertools.ProductWithMember | metabench/algorithmic/operators/neighborhood/move_functions.py:121 | a tuple is in the product with a first group exactly when its head is in the group and its tail in the rest |
| Itertools.ProductMembers | metabench/algorithmic/operators/neighborhood/move_functions.py:121 | product(*groups) yields exactly the tuples that take their t-th element from the t-th group |
| Itertools.ConcatLength | metabench/algorithmic/operators/neighborhood/move_functions.py:119-121 | the list built by += has the summed length of the parts |
| Itertools.ConcatMembers | metabench/algorithmic/operators/neighborhood/move_functions.py:119-121 | an element is in the concatenation exactly when it is in one of the parts |
| Itertools.ConcatStep | metabench/algorithmic/operators/neighborhood/move_functions.py:120-121 | one more += appends the next part |
| Itertools.DistinctTail | metabench/algorithmic/operators/neighborhood/move_functions.py:121 | the tail of a list without repetitions has none and does not hold the head |
| Itertools.ProductWithDistinct | metabench/algorithmic/operators/neighborhood/move_functions.py:121 | the product with a group keeps a list free of repetitions |
| Itertools.ProductDistinct | metabench/algorithmic/operators/neighborhood/move_functions.py:121 | the product of groups without repetitions yields no tuple twice |
| Itertools.ConcatDistinct | metabench/algorithmic/operators/neighborhood/move_functions.py:119-121 | parts without repetitions and pairwise disjoint concatenate into a list without repetitions |
| Itertools.IncreasingUnique | metabench/algorithmic/operators/neighborhood/move_functions.py:35 | two increasing tuples with the same elements are equal |
| Itertools.PrefixFacts | metabench/algorithmic/operators/neighborhood/move_functions.py:38-41 | a prefix of a list keeps it free of repetitions and holds only its elements |
| Itertools.Products | metabench/algorithmic/operators/neighborhood/move_functions.py:120-121 | the product of each combination, in order |
| Itertools.DistinctCard | metabench/algorithmic/operators/neighborhood/move_functions.py:118-121 | a list without repetitions has as many elements as the set it lists |
| RandomDraws.DrawAt | metabench/algorithmic/operators/neighborhood/move_functions.py:36 | the index swapped at step i of the shuffle lies in [0, i] |
| RandomDraws.SwapAt | metabench/algorithmic/operators/neighborhood/move_functions.py:36 | exchanging two positions keeps the length and the multiset, exchanges the two values, keeps the rest and keeps a list free of repetitions |
| RandomDraws.SwapKeepsMultiset | metabench/algorithmic/operators/neighborhood/move_functions.py:36 | one exchange keeps the multiset of elements |
| RandomDraws.SwapKeepsDistinct | metabench/algorithmic/operators/neighborhood/move_functions.py:36 | one exchange keeps a list free of repetitions |
| RandomDraws.ShuffleDown | metabench/algorithmic/operators/neighborhood/move_functions.py:36 | the remaining steps of the shuffle keep the length, the multiset and the absence of repetitions |
| RandomDraws.Shuffle | metabench/algorithmic/operators/neighborhood/move_functions.py:36 | numpy.random.shuffle rearranges the list: same length, same multiset, still without repetitions |
| RandomDraws.ShuffleMembers | metabench/algorithmic/operators/neighborhood/move_functions.py:122 | shuffling neither adds nor removes an element |
| NeighborhoodGenerators.Generate | metabench/operators/neighborhood/neighborhood_generator.py:66-74 | an invalid step raises the move range's error before anything is yielded; otherwise the move's output for the converted step and for the generator's cap is passed on unaltered, for all four range kinds; for the two linear ranges the converted step also lies in the range, and a logarithmic discrete step that Python's indexing rejects raises IndexError |
| NeighborhoodGenerators.FlipNeighbors | metabench/algorithmic/operators/neighborhood/move_functions.py:42-51 | one flip neighbour per candidate, in the candidates' order |
| NeighborhoodGenerators.GeneratedFlips | metabench/operators/neighborhood/neighborhood_generator.py:46-49 | a generator of binary flips over the range low..high, called with a valid step, flips k bits for one k of low..high: it yields C(n, k) neighbours, or the cap if smaller, pairwise different, each at Hamming distance k with k recorded changes and the old fitness |
| NeighborhoodGenerators.FlipGeneratorConverts | metabench/operators/neighborhood/neighborhood_generator.py:66-74 | the step is converted to one size k of low..high and the flips of size k are yielded |
| NeighborhoodGenerators.FlipNeighborFacts | metabench/algorithmic/operators/neighborhood/move_functions.py:42-51 | flipping k distinct positions gives Hamming distance k, k recorded changes and the old fitness |
| NeighborhoodOperators.PyInt | metabench/operators/neighborhood/neighborhood_operator.py:24-26 | int() of a float truncates toward zero |
| NeighborhoodOperators.NeighborhoodFactory | metabench/operators/neighborhood/neighborhood_operator.py:16-28 | the continuous distance move gets a continuous range on float(min), float(max), any other move a discrete range on int(min), int(max), logarithmic exactly when log_range is set; it raises ValueError exactly when the converted bounds are inverted |
| NeighborhoodOperators.ConvertStep | metabench/operators/abstract_operator.py:67-69 | no move range gives no step; otherwise the move range's conversion, raising its error on a refused step |
| NeighborhoodOperators.Attempts | metabench/operators/neighborhood/neighborhood_operator.py:90-91 | the t-th attempt is the move's result for the t-th random state |
| NeighborhoodOperators.Successes | metabench/operators/neighborhood/neighborhood_operator.py:90-91 | the neighbours returned before the first attempt that raises |
| NeighborhoodOperators.LedgersOf | metabench/operators/neighborhood/neighborhood_operator.py:87-93 | the set of modifications seen holds exactly those of the accepted neighbours |
| NeighborhoodOperators.Call | metabench/operators/neighborhood/neighborhood_operator.py:86-95 | the loop yields exactly what CallSpec describes: the accepted neighbours up to max_nb_neighbors, ending with the first error raised or when the attempts run out |
| NeighborhoodOperators.NextAccepted | metabench/operators/neighborhood/neighborhood_operator.py:89-94 | the retry loop accepts exactly one more neighbour, or stops because the move raised or the attempts ran out |
| NeighborhoodOperators.Attempt | metabench/operators/neighborhood/neighborhood_operator.py:91-94 | one pass calls the move once and keeps its neighbour exactly when its modifications are empty or unseen |
| NeighborhoodOperators.KeptStep | metabench/operators/neighborhood/neighborhood_operator.py:92-94 | an attempt's neighbour is accepted exactly when it passes the test against the modifications accepted so far |
| NeighborhoodOperators.KeptAccept | metabench/operators/neighborhood/neighborhood_operator.py:92-94 | accepting a neighbour adds it to the yielded list and its modifications to the set seen; a refused neighbour changes neither |
| NeighborhoodOperators.LedgersOfSnoc | metabench/operators/neighborhood/neighborhood_operator.py:93 | one more accepted neighbour adds its modifications to the set seen |
| NeighborhoodOperators.KeptPrefix | metabench/operators/neighborhood/neighborhood_operator.py:88-95 | the neighbours accepted from fewer attempts start the list accepted from more |
| NeighborhoodOperators.KeptLedgers | metabench/operators/neighborhood/neighborhood_operator.py:92-93 | the accepted neighbours come from the attempts, and the set seen holds every modifications returned |
| NeighborhoodOperators.KeptEmpties | metabench/operators/neighborhood/neighborhood_operator.py:92 | a neighbour with empty modifications is always accepted |
| NeighborhoodOperators.KeptDistinctLedgers | metabench/operators/neighborhood/neighborhood_operator.py:92-93 | accepted neighbours with non-empty modifications have pairwise different modifications |
| NeighborhoodOperators.CallYields | metabench/operators/neighborhood/neighborhood_operator.py:86-95 | a call yields at most max_nb_neighbors neighbours, ends normally exactly when it yields all of them, and never repeats non-empty modifications |
| NeighborhoodOperators.CallEndsEarly | metabench/operators/neighborhood/neighborhood_operator.py:89-94 | a call that ends early has yielded every neighbour with empty modifications and every modifications the move returned |
| NeighborhoodOperators.CallAsWritten | metabench/operators/neighborhood/neighborhood_operator.py:87-93 | as written, the first neighbour the move returns makes the set test raise TypeError, so nothing is yielded |
| NeighborhoodOperators.DedupAsWrittenRaises | metabench/operators/neighborhood/neighborhood_operator.py:87-93 | whenever the move returns a neighbour on the first attempt, the call as written raises TypeError while the corrected call yields that neighbour first |
| HillClimbers.EvaluateAll | metabench/default/metaheuristics/hill_climbing.py:43-44 | every candidate is evaluated with its own modifications, in order |
| HillClimbers.Best | metabench/default/metaheuristics/hill_climbing.py:40-49 | the loop's choice always carries a fitness |
| HillClimbers.BestIsLastMinimum | metabench/default/metaheuristics/hill_climbing.py:40-49 | the choice's fitness is at most the current one and at most every candidate's; it is the current solution when every candidate is worse, and otherwise a candidate after which every candidate is strictly worse (ties go to the later one) |
| HillClimbers.BestIsMinimum | metabench/default/metaheuristics/hill_climbing.py:45-47 | the choice's fitness is at most the current one and every candidate's, and it is the current solution when every candidate is worse |
| HillClimbers.BestIndex | metabench/default/metaheuristics/hill_climbing.py:43-47 | the position of the last candidate the loop takes, or -1 for none |
| HillClimbers.BestAtIndex | metabench/default/metaheuristics/hill_climbing.py:43-47 | the choice is the candidate at BestIndex (the current solution at -1) and every later candidate is strictly worse |
| HillClimbers.BestIsLast | metabench/default/metaheuristics/hill_climbing.py:45-47 | when some candidate reaches the current fitness, the choice is a candidate after which every candidate is strictly worse |
| HillClimbers.StopDecision | metabench/default/metaheuristics/hill_climbing.py:51-58 | stop exactly when a previous fitness exists and is at most the current one; a decision to continue records the current fitness, one to stop keeps the previous |
| HillClimbers.StopAfterNoProgress | metabench/default/metaheuristics/hill_climbing.py:51-58 | the first decision never stops; the next stops exactly when the fitness did not decrease |
| HillClimbers.HillClimbing.constructor | metabench/default/metaheuristics/hill_climbing.py:24-27 | the problem and base step are stored, and no solution or previous fitness exists yet |
| HillClimbers.HillClimbing.GetInitialSolution | metabench/default/metaheuristics/hill_climbing.py:29-32 | the generated solution is returned evaluated by the objective |
| HillClimbers.HillClimbing.GetCandidates | metabench/default/metaheuristics/hill_climbing.py:34-38 | the candidates are the neighbourhood's output for the current solution and the base step; a base step outside [0, 1] raises ValueError, a missing neighbourhood NotImplementedError |
| HillClimbers.HillClimbing.SelectSolution | metabench/default/metaheuristics/hill_climbing.py:40-49 | the loop returns Best of the evaluated candidates, whose fitness is at most the current one |
| HillClimbers.HillClimbing.StoppingCriterion | metabench/default/metaheuristics/hill_climbing.py:51-58 | the decision and the new previous fitness are StopDecision's, and the solution is unchanged |
| ParameterChecks.CheckValue | metabench/parameters.py:30-125 | the base description raises NotImplementedError; a wrong type is exactly a TypeError (an int or bool for an int, a float for a float, a str for a str); a number passes exactly when within its bounds; an enum value passes exactly when equal to an allowed one; every failure is one of these three errors |
| ParameterChecks.CheckValueExamples | metabench/parameters.py:129-147 | the declared float refuses every int, the declared int accepts True and refuses -1, the declared enum accepts False and 0.0 (equal to 0) and refuses "B" |
| ParameterChecks.ArgsOutcomePass | metabench/parameters.py:151-153 | the positional arguments are accepted exactly when there are no more of them than descriptions and each passes its own description's check |
| ParameterChecks.Names | metabench/parameters.py:158-160 | the set of the declared names |
| ParameterChecks.Keywords | metabench/parameters.py:155-156 | the set of the keywords given |
| ParameterChecks.Parameters.constructor | metabench/parameters.py:129-150 | the holder starts with the declared descriptions and no values |
| ParameterChecks.Parameters.Init | metabench/parameters.py:149-160 | the outcome is the first IndexError or check failure among the positional arguments; on success the values are the positional ones, overwritten by the keywords, completed by the defaults |
| ParameterChecks.Parameters.GetItem | metabench/parameters.py:162-165 | a stored name gives its value, any other raises AttributeError |
| ParameterChecks.PositionalKeys | metabench/parameters.py:151-153 | the positional pass stores exactly the names of the first len(args) descriptions |
| ParameterChecks.PositionalAt | metabench/parameters.py:151-153 | the i-th positional argument is stored under the i-th description's name |
| ParameterChecks.WithKeywordsAt | metabench/parameters.py:155-156 | a keyword's value is the last one given for it; any other name keeps what it had |
| ParameterChecks.WithDefaultsAt | metabench/parameters.py:158-160 | a stored value is kept, a declared name still missing gets its default, and no undeclared name is added |
| ParameterChecks.ConstructedValues | metabench/parameters.py:149-160 | after a successful construction a name is stored exactly when it is declared or given as a keyword; a keyword wins, else the positional argument, else the default |
| Decorators.LowerChar | metabench/misc/decorators.py:17 | str.lower on one character: A-Z map to a-z, everything else is kept |
| Decorators.Lower | metabench/misc/decorators.py:17-21 | str.lower maps each character |
| Decorators.LowerIdempotent | metabench/misc/decorators.py:17-21 | lowering twice is lowering once, and leaves no capital letter |
| Decorators.ListedIgnoresCase | metabench/misc/decorators.py:17-42 | whether a class is listed depends neither on the case of its name nor on the case of the listed names |
| Decorators.Matches | metabench/misc/decorators.py:18-43 | the loop finds a match exactly when some listed name, lowered, equals the lowered class name |
| Decorators.ImplementedFor | metabench/misc/decorators.py:33-51 | no argument raises IndexError; f runs and its result is returned exactly when the first argument's class is listed, otherwise NotImplementedError |
| Decorators.NotImplementedFor | metabench/misc/decorators.py:12-30 | no argument raises IndexError; f runs and its result is returned exactly when the first argument's class is not listed, otherwise NotImplementedError |
| Decorators.ListedExamples | metabench/misc/decorators.py:33-51 | with no type names nothing is listed; a name matches its own class whatever the case |

## Left out

- Log conversions. The logarithmic move ranges use log10, `**` and round, which need
  transcendental functions.
  - They are modelled through a `Power` parameter.
  - Only their endpoints are proved, for a power that undoes the logarithm.
- Hypersphere sampling. `move_distance_continuous` draws a normal vector and divides by its norm.
  - The model takes the drawn shift as a parameter.
  - It keeps the copy, the clipping into the bounds and the empty ledger.
- Encodings.Distance: order 2 (the real encoding's norm) is modelled as the squared Euclidean
  norm, because the square root is not modelled. A real encoding's distance in the model is the
  square of numpy's; it is zero at the same points, and its symmetry is not proved.
- Encodings.Distance: encodings are compared by value. Python compares them by identity, because
  `Encoding` defines no `__eq__`, so two equal but distinct encoding objects raise ValueError
  in Python and pass in the model.
- Floating point. Rounding, inf and nan are not modelled, and integers are unbounded.
  - numpy's integer overflow is not modelled.
  - A division by a zero space size is reported as an undefined result.
- Order of `list(set(...))` and identity. The enumerating substitution turns the set of allowed
  values into a list in an order Python does not fix.
  - The model takes each shuffled listing as a parameter: the allowed values other than the
    current one, each once, in any order.
  - `value in list` is modelled as value equality, without `is` identity and without nan.
- Generator laziness. A generator is modelled as the whole sequence it yields and the error it
  ends with, not as interleaved steps.
- Operator retry loop. `NeighborhoodOperator.__call__` may retry forever when the move keeps
  returning seen modifications.
  - NeighborhoodOperators.Call bounds the attempts by a budget.
  - It reports `DrawsExhausted` when the budget is spent.
  - The move's random state is the attempt number, and the kind of move is not tied to
    the attempts.
- Solution. The `Solution` class is not part of this model. Its `copy` and `to_bounds` follow
  metabench/tests/test_solution.py.
- The `utils` decorators module. The moves import `implemented_for` from a `utils` module that is
  not part of this model.
  - Moves check the encoding variant directly.
  - The wrappers of metabench/misc/decorators.py are modelled on their own.
- Decorators.Lower: lowers ASCII letters only, not the full Unicode case mapping of `str.lower`.
- Python mechanics.
  - ndarray subclassing of `Boundaries` and `Solution`.
  - The factory taking `.value` of an enum of functions; the model passes the move directly.
  - Keyword arguments forwarded by the decorators.
  - Error messages.
- Default arguments. Every argument is passed explicitly: the operator call's `step=0.`, the hill
  climbing's `base_step=0.1`, the boundaries' `type=np.int` and the factory's `log_range=False`
  and `max_nb_neighbors=1` have no default in the model.
- `MixedEncoding`: only its constructor's NotImplementedError is modelled.
- The move stubs. The single-draw and enumerating `move_opt`, `move_insertion` and
  `move_inversion` are empty stubs, so they are not modelled.
- Metaheuristic run loop. The loop of metabench/models/metaheuristic.py that calls the hill
  climbing's steps is abstract glue and is not modelled. Its steps are.
- ParameterChecks.Parameters.Init: states the stored values only on success. After a failed
  check, Python has already stored the earlier arguments, and the model does not state them.
- HillClimbers.HillClimbing.GetCandidates: returns the generator's neighbours as a list and does
  not re-evaluate them; evaluation happens in SelectSolution.
- HillClimbers.HillClimbing: the neighbourhood is typed as a NeighborhoodGenerator only. Python
  accepts any neighbourhood callable there, a NeighborhoodOperator included; the model does not
  cover a hill climbing driven by an operator.
- Benchmark drivers, timing, plotting and I/O are not modelled, and neither are the superseded
  `prob`, `meta`, `representation` and `neighborhood.py` iterations of the same concepts.

## Findings

| source | as written | input that shows it | evidently intended | confidence | as-written member | corrected member |
|---|---|---|---|---|---|---|
| metabench/operators/neighborhood/move_functions.py:93-104 | `move_substitution` passes a `set` to `numpy.random.choice`, which raises ValueError. It also adds to and returns the unbound name `modif`, which raises NameError. The move can only raise. | one attribute bounded by 0..2 holding 0, step 1: ValueError, where the value 1 should be substituted | substitute a different allowed value at each drawn index and record it in the `Modifs` | not executed | MoveFunctions.MoveSubstitutionAsWritten, MoveFunctions.SubstitutionExample | MoveFunctions.MoveSubstitution |
| metabench/operators/neighborhood/neighborhood_operator.py:87-93 | the `Modifs` (an OrderedDict, which is unhashable) is tested against and added to a `set`, so the first neighbour raises TypeError | any call asking for one neighbour whose move returns a neighbour on the first attempt | deduplicate neighbours by the content of their modifications within one call | not executed | NeighborhoodOperators.CallAsWritten, NeighborhoodOperators.DedupAsWrittenRaises | NeighborhoodOperators.Call |
| metabench/common/representation/boundaries.py:57-97 | the space-size row `(max - min) + epsilon` is stored in the boundaries' integer type, so epsilon is truncated away and `normalize` divides by zero | integer boundaries with minimum 3 and maximum 3 | a strictly positive space size, so that `normalize` never divides by zero | not executed | Boundary.NormalizeAsWritten, Boundary.IntScaleTruncatesEpsilon | Boundary.Normalize |
| metabench/common/representation/encoding.py:89-90 | `if self.boundaries:` asks for the truth value of a (3, n) array, which numpy refuses with ValueError | any two binary solutions of size 1 or more | normalize the difference whenever the encoding has boundaries | not executed | Encodings.DistanceAsWritten, Encodings.DistanceAsWrittenFailsOnBinary | Encodings.Distance, Encodings.BinaryDistanceIsHamming |
