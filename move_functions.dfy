/** The single-draw move functions: each call copies the solution, changes the copy at randomly
    drawn positions and records every change in a fresh Modifs. The drawn positions and values
    are parameters. */
module MoveFunctions {
  import opened Wrappers
  import opened Modif
  import opened Encodings
  import opened Boundary
  import opened Distances
  import opened RandomDraws

  /** The moves a neighbourhood operator can be built with. */
  datatype MoveKind = BinaryFlip | DistanceContinuous | Substitution | Swap

  /** A neighbour and the modifications that lead to it from the solution it was computed from. */
  datatype Neighbor<T> = Neighbor(solution: Solution<T>, modifs: Ledger)

  predicate Below(idx: seq<nat>, n: nat) {
    forall t :: 0 <= t < |idx| ==> idx[t] < n
  }

  // ---------------------------------------------------------------------------------------------
  // Bit flip

  /** Flipping one bit: a set bit becomes 0 and is recorded as (1, 0), a clear bit becomes 1 and
      is recorded as (0, 1). */
  function FlipEdit(vals: seq<int>, i: nat): (e: Edit)
    requires i < |vals|
    ensures e.index == i && e.after != vals[i] && e.before != e.after
    ensures 0 <= vals[i] <= 1 ==> e.before == vals[i]
  {
    if vals[i] != 0 then Edit(i, 1, 0) else Edit(i, 0, 1)
  }

  function FlipEdits(vals: seq<int>, idx: seq<nat>): (edits: seq<Edit>)
    requires Below(idx, |vals|)
    ensures |edits| == |idx| && Indices(edits) == idx
    ensures forall t :: 0 <= t < |idx| ==> edits[t] == FlipEdit(vals, idx[t])
  {
    seq(|idx|, t requires 0 <= t < |idx| => FlipEdit(vals, idx[t]))
  }

  /** The neighbour a flip of the bits at idx gives: the copy carries the source's fitness. */
  function FlipNeighbor(s: Solution<int>, idx: seq<nat>): Neighbor<int>
    requires Below(idx, |s.values|)
  {
    var edits := FlipEdits(s.values, idx);
    Neighbor(Solution(Apply(s.values, edits), s.encoding, s.fitness), RecordAll(edits))
  }

  /** move_binary_flip: a binary solution is required, then numpy.random.choice draws step
      distinct positions (draws), and the bit at each is flipped in the copy and recorded. */
  method MoveBinaryFlip(s: Solution<int>, step: int, draws: seq<nat>) returns (r: Result<Neighbor<int>>)
    requires 0 <= step <= |s.values| ==> DistinctDraw(draws, step, |s.values|)
    ensures !s.encoding.BinaryEncoding? ==> r == Failure(NotImplementedError)
    ensures s.encoding.BinaryEncoding? && (step < 0 || step > |s.values|) ==> r == Failure(ValueError)
    ensures s.encoding.BinaryEncoding? && 0 <= step <= |s.values| ==> r == Success(FlipNeighbor(s, draws))
  {
    if !s.encoding.BinaryEncoding? {
      return Failure(NotImplementedError);
    }
    if step < 0 || step > |s.values| {
      return Failure(ValueError);
    }
    var n := FlipBits(s, draws);
    return Success(n);
  }

  /** The loop of move_binary_flip: the bit at each of the distinct positions idx is flipped in a
      copy carrying the source's fitness, and recorded. */
  method FlipBits(s: Solution<int>, idx: seq<nat>) returns (n: Neighbor<int>)
    requires DistinctDraw(idx, |idx|, |s.values|)
    ensures n == FlipNeighbor(s, idx)
  {
    var vals := s.values;
    var neighbor := new int[|vals|](k requires 0 <= k < |vals| => vals[k]);
    var modifs := new Modifs();
    ghost var edits := FlipEdits(vals, idx);
    var t := 0;
    while t < |idx|
      invariant 0 <= t <= |idx|
      invariant modifs.Valid() && modifs.Snapshot() == RecordAll(edits[..t])
      invariant neighbor[..] == Apply(vals, edits[..t])
    {
      ApplyStep(vals, edits, t);
      UntouchedByPrefix(vals, edits, t);
      FlipOne(vals, neighbor, modifs, idx[t]);
      t := t + 1;
    }
    assert edits[..t] == edits;
    n := Neighbor(Solution(neighbor[..], s.encoding, s.fitness), modifs.Snapshot());
  }

  /** The body of the loop of move_binary_flip: a set bit of the copy is cleared and recorded as
      (1, 0), a clear one is set and recorded as (0, 1). */
  method FlipOne(vals: seq<int>, neighbor: array<int>, modifs: Modifs, i: nat)
    requires neighbor.Length == |vals| && i < |vals| && neighbor[i] == vals[i] && modifs.Valid()
    modifies neighbor, modifs
    ensures modifs.Valid()
    ensures neighbor[..] == old(neighbor[..])[i := FlipEdit(vals, i).after]
    ensures modifs.Snapshot() == Record(old(modifs.Snapshot()), i, FlipEdit(vals, i).before, FlipEdit(vals, i).after)
  {
    if neighbor[i] != 0 {
      neighbor[i] := 0;
      modifs.AddModif(i, 1, 0);
    } else {
      neighbor[i] := 1;
      modifs.AddModif(i, 0, 1);
    }
  }

  /** Before edit t is made, its position still holds the source value, as the positions are
      distinct. */
  lemma UntouchedByPrefix(vals: seq<int>, edits: seq<Edit>, t: nat)
    requires t < |edits| && Below(Indices(edits), |vals|) && Distinct(Indices(edits))
    ensures Apply(vals, edits[..t])[edits[t].index] == vals[edits[t].index]
  {
    var pre := edits[..t];
    assert Indices(pre) == Indices(edits)[..t];
    ApplyDistinct(vals, pre);
    assert edits[t].index !in IndexSet(pre) by {
      assert forall u :: 0 <= u < t ==> Indices(edits)[u] != Indices(edits)[t];
    }
  }

  /** The positions where applying distinct edits changes the values, when every edit changes its
      position. */
  lemma ChangedExactlyAt(vals: seq<int>, edits: seq<Edit>)
    requires Below(Indices(edits), |vals|) && Distinct(Indices(edits))
    requires forall t :: 0 <= t < |edits| ==> edits[t].after != vals[edits[t].index]
    ensures forall k :: 0 <= k < |vals| ==> (Apply(vals, edits)[k] != vals[k] <==> k in Indices(edits))
    ensures DiffSet(vals, Apply(vals, edits)) == IndexSet(edits)
    ensures HammingDistance(vals, Apply(vals, edits)) == Success(|edits|)
  {
    ApplyDistinct(vals, edits);
    DistinctIndexCount(edits);
    var nb := Apply(vals, edits);
    forall k | 0 <= k < |vals|
      ensures nb[k] != vals[k] <==> k in Indices(edits)
    {
      if k in Indices(edits) {
        var t :| 0 <= t < |edits| && Indices(edits)[t] == k;
        assert nb[k] == edits[t].after;
      } else {
        assert k !in IndexSet(edits);
      }
    }
    assert DiffSet(vals, nb) == IndexSet(edits) by {
      forall k | k in IndexSet(edits) ensures k in DiffSet(vals, nb) {
        var t :| 0 <= t < |edits| && edits[t].index == k;
        assert Indices(edits)[t] == k;
      }
    }
  }

  /** A flip neighbour differs from the source exactly at the drawn positions, each bit
      complemented, and its Hamming distance to the source is the number of flips. */
  lemma FlipNeighborChanges(s: Solution<int>, idx: seq<nat>)
    requires DistinctDraw(idx, |idx|, |s.values|)
    ensures var nb := FlipNeighbor(s, idx).solution;
            nb.encoding == s.encoding && nb.fitness == s.fitness &&
            (forall k :: 0 <= k < |s.values| ==> (nb.values[k] != s.values[k] <==> k in idx)) &&
            (forall k :: 0 <= k < |s.values| && k in idx ==> nb.values[k] == if s.values[k] != 0 then 0 else 1) &&
            HammingDistance(s.values, nb.values) == Success(|idx|)
  {
    var vals := s.values;
    var edits := FlipEdits(vals, idx);
    ChangedExactlyAt(vals, edits);
    ApplyDistinct(vals, edits);
    forall k | 0 <= k < |vals| && k in idx
      ensures Apply(vals, edits)[k] == if vals[k] != 0 then 0 else 1
    {
      var t :| 0 <= t < |idx| && idx[t] == k;
      assert edits[t].index == k;
    }
  }

  /** The record of a flip holds exactly the drawn positions, in drawing order, as (1, 0) or
      (0, 1) pairs that each change their position, and replaying it gives the neighbour. */
  lemma FlipNeighborRecord(s: Solution<int>, idx: seq<nat>)
    requires DistinctDraw(idx, |idx|, |s.values|)
    ensures var l := FlipNeighbor(s, idx).modifs;
            l.Valid() && l.order == idx && |l.entries| == |idx| &&
            (forall k :: k in l.entries <==> k in idx) &&
            (forall k :: k in l.entries ==>
               l.entries[k] == (if s.values[k] != 0 then Change(1, 0) else Change(0, 1))) &&
            Replay(s.values, l) == FlipNeighbor(s, idx).solution.values
  {
    var vals := s.values;
    var edits := FlipEdits(vals, idx);
    DistinctRecordAll(edits);
    DistinctIndexCount(edits);
    ReplayRecordAll(vals, edits);
    var l := RecordAll(edits);
    forall k | k in l.entries
      ensures l.entries[k] == (if vals[k] != 0 then Change(1, 0) else Change(0, 1))
    {
      assert k in idx;
      var t :| 0 <= t < |idx| && idx[t] == k;
      assert edits[t].index == k;
    }
  }

  /** On 0/1 values the record's values before are the source's, so writing them back onto the
      neighbour restores the source. */
  lemma FlipNeighborReverts(s: Solution<int>, idx: seq<nat>)
    requires DistinctDraw(idx, |idx|, |s.values|)
    requires forall k :: 0 <= k < |s.values| ==> 0 <= s.values[k] <= 1
    ensures Consistent(s.values, FlipNeighbor(s, idx).modifs)
    ensures Revert(FlipNeighbor(s, idx).solution.values, FlipNeighbor(s, idx).modifs) == s.values
  {
    var n := FlipNeighbor(s, idx);
    var l := n.modifs;
    FlipNeighborRecord(s, idx);
    forall k | k in l.entries
      ensures k < |s.values| && l.entries[k].before == s.values[k]
    {
      assert k in idx;
      var t :| 0 <= t < |idx| && idx[t] == k;
      if s.values[k] != 0 {
        assert s.values[k] == 1;
      }
    }
    RevertReplay(s.values, l);
  }

  // ---------------------------------------------------------------------------------------------
  // Distance on real values

  /** Adding a vector to real values, component by component. */
  function Shifted(vals: seq<real>, vector: seq<real>): (r: seq<real>)
    requires |vector| == |vals|
    ensures |r| == |vals| && forall i :: 0 <= i < |vals| ==> r[i] == vals[i] + vector[i]
  {
    seq(|vals|, i requires 0 <= i < |vals| => vals[i] + vector[i])
  }

  /** move_distance_continuous: a real solution is required; the copy is moved by vector, the
      normal draw scaled to the length step (the point drawn on the sphere of radius step), then
      clipped into the boundaries. The record stays empty, which asks for a full evaluation. The
      copy takes the fitness exactly when copyFitness, the default of Solution.copy. */
  function MoveDistanceContinuous(s: Solution<real>, vector: seq<real>, copyFitness: bool): (r: Result<Neighbor<real>>)
    requires s.encoding.RealEncoding? ==>
               ValidEncoding(s.encoding) && |s.values| == |s.encoding.bounds.mins| && |vector| == |s.values|
    ensures !s.encoding.RealEncoding? <==> r == Failure(NotImplementedError)
    ensures r.Success? ==>
              var b, n := s.encoding.bounds, r.value.solution;
              r.value.modifs == Empty && n.encoding == s.encoding &&
              n.fitness == (if copyFitness then s.fitness else None) &&
              |n.values| == |s.values| &&
              forall i :: 0 <= i < |s.values| ==>
                b.mins[i] <= n.values[i] <= b.maxs[i] &&
                (b.mins[i] <= s.values[i] + vector[i] <= b.maxs[i] ==> n.values[i] == s.values[i] + vector[i]) &&
                (s.values[i] + vector[i] < b.mins[i] ==> n.values[i] == b.mins[i]) &&
                (s.values[i] + vector[i] > b.maxs[i] ==> n.values[i] == b.maxs[i])
  {
    if !s.encoding.RealEncoding? then Failure(NotImplementedError)
    else
      var c := Copy(s, copyFitness);
      Success(Neighbor(ToBounds(Solution(Shifted(c.values, vector), c.encoding, c.fitness)), Empty))
  }

  /** A neighbour moved within the boundaries is the source moved by vector; with a zero vector it
      is the source itself (up to its fitness). */
  lemma ContinuousInsideBounds(s: Solution<real>, vector: seq<real>, copyFitness: bool)
    requires s.encoding.RealEncoding? && ValidEncoding(s.encoding)
    requires |s.values| == |s.encoding.bounds.mins| && |vector| == |s.values|
    requires forall i :: 0 <= i < |s.values| ==>
               s.encoding.bounds.mins[i] <= s.values[i] + vector[i] <= s.encoding.bounds.maxs[i]
    ensures MoveDistanceContinuous(s, vector, copyFitness).value.solution.values == Shifted(s.values, vector)
    ensures (forall i :: 0 <= i < |vector| ==> vector[i] == 0.0) ==>
              MoveDistanceContinuous(s, vector, copyFitness).value.solution.values == s.values
  {
    var n := MoveDistanceContinuous(s, vector, copyFitness).value.solution;
    assert forall i :: 0 <= i < |s.values| ==> n.values[i] == Shifted(s.values, vector)[i];
  }

  // ---------------------------------------------------------------------------------------------
  // Swap

  /** The records of the first p pairs drawn as a (step, 2) array: the pair (i, j) =
      (idx[2q], idx[2q + 1]) is recorded as (vals[i], vals[j]) at i, then (vals[j], vals[i]) at j. */
  function SwapEdits(vals: seq<int>, idx: seq<nat>, p: nat): (edits: seq<Edit>)
    requires 2 * p <= |idx| && Below(idx, |vals|)
    ensures |edits| == 2 * p
    ensures forall t :: 0 <= t < |edits| ==> edits[t].index < |vals|
    decreases p
  {
    if p == 0 then []
    else
      var i, j := idx[2 * p - 2], idx[2 * p - 1];
      SwapEdits(vals, idx, p - 1) + [Edit(i, vals[i], vals[j]), Edit(j, vals[j], vals[i])]
  }

  /** The first p pairs exchanged one after the other. */
  function SwapPairs(vals: seq<int>, idx: seq<nat>, p: nat): (r: seq<int>)
    requires 2 * p <= |idx| && Below(idx, |vals|)
    ensures |r| == |vals|
    decreases p
  {
    if p == 0 then vals
    else
      var prev := SwapPairs(vals, idx, p - 1);
      var i, j := idx[2 * p - 2], idx[2 * p - 1];
      prev[i := prev[j]][j := prev[i]]
  }

  /** Exchanging pairs keeps the values with their multiplicities. */
  lemma {:induction false} SwapPairsMultiset(vals: seq<int>, idx: seq<nat>, p: nat)
    requires 2 * p <= |idx| && Below(idx, |vals|)
    ensures multiset(SwapPairs(vals, idx, p)) == multiset(vals)
  {
    if p > 0 {
      SwapPairsMultiset(vals, idx, p - 1);
      SwapKeepsMultiset(SwapPairs(vals, idx, p - 1), idx[2 * p - 2], idx[2 * p - 1]);
    }
  }

  /** The neighbour a swap of the drawn pairs gives: the copy carries the source's fitness. */
  function SwapNeighbor(s: Solution<int>, idx: seq<nat>, step: nat): Neighbor<int>
    requires 2 * step <= |idx| && Below(idx, |s.values|)
  {
    Neighbor(Solution(SwapPairs(s.values, idx, step), s.encoding, s.fitness),
             RecordAll(SwapEdits(s.values, idx, step)))
  }

  lemma {:induction false} SwapEditsIndices(vals: seq<int>, idx: seq<nat>, p: nat)
    requires 2 * p <= |idx| && Below(idx, |vals|)
    ensures Indices(SwapEdits(vals, idx, p)) == idx[..2 * p]
  {
    if p > 0 {
      SwapEditsIndices(vals, idx, p - 1);
      assert idx[..2 * p] == idx[..2 * p - 2] + [idx[2 * p - 2], idx[2 * p - 1]];
    }
  }

  /** Edit 2q records the first position of pair q, edit 2q + 1 the second. */
  lemma {:induction false} SwapEditsAt(vals: seq<int>, idx: seq<nat>, p: nat, q: nat)
    requires 2 * p <= |idx| && Below(idx, |vals|) && q < p
    ensures SwapEdits(vals, idx, p)[2 * q] == Edit(idx[2 * q], vals[idx[2 * q]], vals[idx[2 * q + 1]])
    ensures SwapEdits(vals, idx, p)[2 * q + 1] == Edit(idx[2 * q + 1], vals[idx[2 * q + 1]], vals[idx[2 * q]])
  {
    if q < p - 1 {
      SwapEditsAt(vals, idx, p - 1, q);
    }
  }

  /** Positions outside the first p pairs keep their values. */
  lemma {:induction false} SwapPairsUntouched(vals: seq<int>, idx: seq<nat>, p: nat, k: nat)
    requires 2 * p <= |idx| && Below(idx, |vals|) && k < |vals| && k !in idx[..2 * p]
    ensures SwapPairs(vals, idx, p)[k] == vals[k]
  {
    if p > 0 {
      assert idx[..2 * p - 2] == idx[..2 * p][..2 * p - 2];
      assert idx[2 * p - 2] == idx[..2 * p][2 * p - 2] && idx[2 * p - 1] == idx[..2 * p][2 * p - 1];
      SwapPairsUntouched(vals, idx, p - 1, k);
    }
  }

  /** After the first p pairs, each of them holds the source's values exchanged. */
  lemma {:induction false} SwapPairsExchanged(vals: seq<int>, idx: seq<nat>, p: nat, q: nat)
    requires 2 * p <= |idx| && DistinctDraw(idx, |idx|, |vals|) && q < p
    ensures SwapPairs(vals, idx, p)[idx[2 * q]] == vals[idx[2 * q + 1]]
    ensures SwapPairs(vals, idx, p)[idx[2 * q + 1]] == vals[idx[2 * q]]
  {
    var i, j := idx[2 * p - 2], idx[2 * p - 1];
    if q < p - 1 {
      SwapPairsExchanged(vals, idx, p - 1, q);
      assert idx[2 * q] != i && idx[2 * q] != j && idx[2 * q + 1] != i && idx[2 * q + 1] != j;
    } else {
      NotInPrefix(idx, 2 * p - 2, 2 * p - 2);
      NotInPrefix(idx, 2 * p - 2, 2 * p - 1);
      SwapPairsUntouched(vals, idx, p - 1, i);
      SwapPairsUntouched(vals, idx, p - 1, j);
    }
  }

  lemma NotInPrefix(idx: seq<nat>, m: nat, u: nat)
    requires Distinct(idx) && m <= u < |idx|
    ensures idx[u] !in idx[..m]
  {
    assert forall t :: 0 <= t < m ==> idx[..m][t] == idx[t] != idx[u];
  }

  /** Applying the swap records is exchanging the pairs one after the other. */
  lemma {:induction false} SwapEditsArePairSwaps(vals: seq<int>, idx: seq<nat>, p: nat)
    requires 2 * p <= |idx| && DistinctDraw(idx, |idx|, |vals|)
    ensures Apply(vals, SwapEdits(vals, idx, p)) == SwapPairs(vals, idx, p)
  {
    if p > 0 {
      SwapEditsArePairSwaps(vals, idx, p - 1);
      SwapEditsStep(vals, idx, p);
      SwapPairsStep(vals, idx, p);
    }
  }

  /** Applying the records of pair p after the earlier ones writes its two exchanged values. */
  lemma SwapEditsStep(vals: seq<int>, idx: seq<nat>, p: nat)
    requires 0 < p && 2 * p <= |idx| && Below(idx, |vals|)
    ensures var i, j := idx[2 * p - 2], idx[2 * p - 1];
            Apply(vals, SwapEdits(vals, idx, p)) == Apply(vals, SwapEdits(vals, idx, p - 1))[i := vals[j]][j := vals[i]]
  {
    var i, j := idx[2 * p - 2], idx[2 * p - 1];
    var pre := SwapEdits(vals, idx, p - 1);
    var e1, e2 := Edit(i, vals[i], vals[j]), Edit(j, vals[j], vals[i]);
    var all := pre + [e1, e2];
    assert SwapEdits(vals, idx, p) == all;
    assert all[..|all| - 1] == pre + [e1];
    assert (pre + [e1])[..|pre|] == pre;
  }

  /** Exchanging pair p after the earlier pairs writes the source's values, which its two
      positions still hold. */
  lemma SwapPairsStep(vals: seq<int>, idx: seq<nat>, p: nat)
    requires 0 < p && 2 * p <= |idx| && DistinctDraw(idx, |idx|, |vals|)
    ensures var i, j := idx[2 * p - 2], idx[2 * p - 1];
            SwapPairs(vals, idx, p) == SwapPairs(vals, idx, p - 1)[i := vals[j]][j := vals[i]]
  {
    var i, j := idx[2 * p - 2], idx[2 * p - 1];
    NotInPrefix(idx, 2 * p - 2, 2 * p - 2);
    NotInPrefix(idx, 2 * p - 2, 2 * p - 1);
    SwapPairsUntouched(vals, idx, p - 1, i);
    SwapPairsUntouched(vals, idx, p - 1, j);
  }

  /** move_swap: a permutation solution is required, then numpy.random.choice draws a (step, 2)
      array of distinct positions (draws, row by row), and each pair exchanges the source's
      values in the copy, recording both positions. */
  method MoveSwap(s: Solution<int>, step: int, draws: seq<nat>) returns (r: Result<Neighbor<int>>)
    requires 0 <= 2 * step <= |s.values| ==> DistinctDraw(draws, 2 * step, |s.values|)
    ensures !s.encoding.PermutationEncoding? ==> r == Failure(NotImplementedError)
    ensures s.encoding.PermutationEncoding? && (step < 0 || 2 * step > |s.values|) ==> r == Failure(ValueError)
    ensures s.encoding.PermutationEncoding? && 0 <= 2 * step <= |s.values| ==>
              r == Success(SwapNeighbor(s, draws, step))
  {
    if !s.encoding.PermutationEncoding? {
      return Failure(NotImplementedError);
    }
    if step < 0 || 2 * step > |s.values| {
      return Failure(ValueError);
    }
    var n := SwapPositions(s, draws, step);
    return Success(n);
  }

  /** The loop of move_swap: each of the step pairs of distinct positions in draws exchanges the
      source's values in a copy carrying the source's fitness, and both positions are recorded. */
  method SwapPositions(s: Solution<int>, draws: seq<nat>, step: nat) returns (n: Neighbor<int>)
    requires |draws| == 2 * step && DistinctDraw(draws, 2 * step, |s.values|)
    ensures n == SwapNeighbor(s, draws, step)
  {
    var vals := s.values;
    var neighbor := new int[|vals|](k requires 0 <= k < |vals| => vals[k]);
    var modifs := new Modifs();
    ghost var edits := SwapEdits(vals, draws, step);
    var p := 0;
    while p < step
      invariant 0 <= p <= step
      invariant modifs.Valid() && modifs.Snapshot() == RecordAll(edits[..2 * p])
      invariant neighbor[..] == Apply(vals, edits[..2 * p])
    {
      var i, j := draws[2 * p], draws[2 * p + 1];
      SwapStep(vals, draws, step, p);
      SwapOne(vals, neighbor, modifs, i, j);
      p := p + 1;
    }
    assert edits[..2 * p] == edits;
    SwapEditsArePairSwaps(vals, draws, step);
    n := Neighbor(Solution(neighbor[..], s.encoding, s.fitness), modifs.Snapshot());
  }

  /** The body of the loop of move_swap: the copy takes the source's values of the pair
      exchanged, and both positions are recorded, the first one first. */
  method SwapOne(vals: seq<int>, neighbor: array<int>, modifs: Modifs, i: nat, j: nat)
    requires neighbor.Length == |vals| && i < |vals| && j < |vals| && i != j && modifs.Valid()
    modifies neighbor, modifs
    ensures modifs.Valid()
    ensures neighbor[..] == old(neighbor[..])[i := vals[j]][j := vals[i]]
    ensures modifs.Snapshot() == Record(Record(old(modifs.Snapshot()), i, vals[i], vals[j]), j, vals[j], vals[i])
  {
    neighbor[i] := vals[j];
    neighbor[j] := vals[i];
    modifs.AddModif(i, vals[i], neighbor[i]);
    modifs.AddModif(j, vals[j], neighbor[j]);
  }

  /** Pair p of the draws: its two positions differ, and its two records, applied and recorded
      after those of the earlier pairs, exchange the source's values there. */
  lemma SwapStep(vals: seq<int>, idx: seq<nat>, step: nat, p: nat)
    requires |idx| == 2 * step && DistinctDraw(idx, |idx|, |vals|) && p < step
    ensures var i, j, edits := idx[2 * p], idx[2 * p + 1], SwapEdits(vals, idx, step);
            i != j &&
            Apply(vals, edits[..2 * p + 2]) == Apply(vals, edits[..2 * p])[i := vals[j]][j := vals[i]] &&
            RecordAll(edits[..2 * p + 2]) ==
              Record(Record(RecordAll(edits[..2 * p]), i, vals[i], vals[j]), j, vals[j], vals[i])
  {
    assert Below(idx, |vals|);
    var edits := SwapEdits(vals, idx, step);
    var i, j := idx[2 * p], idx[2 * p + 1];
    assert i != j;
    SwapEditsAt(vals, idx, step, p);
    assert edits[2 * p] == Edit(i, vals[i], vals[j]) && edits[2 * p + 1] == Edit(j, vals[j], vals[i]);
    ApplyStep(vals, edits, 2 * p);
    ApplyStep(vals, edits, 2 * p + 1);
  }

  /** A swap neighbour holds the source's values with the same multiplicities (a permutation stays
      a permutation): each drawn pair holds the source's values exchanged and every other
      position keeps its value. Replaying its record gives it. */
  lemma SwapNeighborChanges(s: Solution<int>, idx: seq<nat>, step: nat)
    requires |idx| == 2 * step && DistinctDraw(idx, |idx|, |s.values|)
    ensures var nb := SwapNeighbor(s, idx, step).solution;
            nb.encoding == s.encoding && nb.fitness == s.fitness &&
            multiset(nb.values) == multiset(s.values) &&
            (forall q :: 0 <= q < step ==>
               nb.values[idx[2 * q]] == s.values[idx[2 * q + 1]] &&
               nb.values[idx[2 * q + 1]] == s.values[idx[2 * q]]) &&
            (forall k :: 0 <= k < |s.values| && k !in idx ==> nb.values[k] == s.values[k])
    ensures Replay(s.values, SwapNeighbor(s, idx, step).modifs) == SwapNeighbor(s, idx, step).solution.values
  {
    forall q | 0 <= q < step
      ensures SwapPairs(s.values, idx, step)[idx[2 * q]] == s.values[idx[2 * q + 1]]
      ensures SwapPairs(s.values, idx, step)[idx[2 * q + 1]] == s.values[idx[2 * q]]
    {
      SwapPairsExchanged(s.values, idx, step, q);
    }
    forall k | 0 <= k < |s.values| && k !in idx
      ensures SwapPairs(s.values, idx, step)[k] == s.values[k]
    {
      assert idx[..2 * step] == idx;
      SwapPairsUntouched(s.values, idx, step, k);
    }
    SwapPairsMultiset(s.values, idx, step);
    ReplayRecordAll(s.values, SwapEdits(s.values, idx, step));
    SwapEditsArePairSwaps(s.values, idx, step);
  }

  /** Record t of a swap writes, at position idx[t], the source's value at the other position
      of its pair. */
  lemma SwapEditPartner(vals: seq<int>, idx: seq<nat>, step: nat, t: nat)
    requires |idx| == 2 * step && Below(idx, |vals|) && t < 2 * step
    ensures var u := if t % 2 == 0 then t + 1 else t - 1;
            u < |idx| && u != t &&
            SwapEdits(vals, idx, step)[t] == Edit(idx[t], vals[idx[t]], vals[idx[u]])
  {
    SwapEditsAt(vals, idx, step, t / 2);
  }

  /** The record of a swap lists the drawn positions in drawing order, each once. */
  lemma SwapRecordOrder(s: Solution<int>, idx: seq<nat>, step: nat)
    requires |idx| == 2 * step && DistinctDraw(idx, |idx|, |s.values|)
    ensures var l := SwapNeighbor(s, idx, step).modifs;
            l.Valid() && l.order == idx && |l.entries| == |idx|
  {
    var edits := SwapEdits(s.values, idx, step);
    SwapEditsIndices(s.values, idx, step);
    assert idx[..2 * step] == idx;
    DistinctRecordAll(edits);
    DistinctIndexCount(edits);
  }

  /** Each position of a drawn pair is recorded with the source's value before and the partner's
      value after. */
  lemma SwapRecordEntries(s: Solution<int>, idx: seq<nat>, step: nat, q: nat)
    requires |idx| == 2 * step && DistinctDraw(idx, |idx|, |s.values|) && q < step
    ensures var l := SwapNeighbor(s, idx, step).modifs;
            idx[2 * q] in l.entries && idx[2 * q + 1] in l.entries &&
            l.entries[idx[2 * q]] == Change(s.values[idx[2 * q]], s.values[idx[2 * q + 1]]) &&
            l.entries[idx[2 * q + 1]] == Change(s.values[idx[2 * q + 1]], s.values[idx[2 * q]])
  {
    var edits := SwapEdits(s.values, idx, step);
    SwapEditsIndices(s.values, idx, step);
    assert idx[..2 * step] == idx;
    SwapEditsAt(s.values, idx, step, q);
    DistinctEntryAt(edits, 2 * q);
    DistinctEntryAt(edits, 2 * q + 1);
  }

  /** Every recorded position holds, in the record, the source's value before. */
  lemma SwapRecordConsistent(s: Solution<int>, idx: seq<nat>, step: nat)
    requires |idx| == 2 * step && DistinctDraw(idx, |idx|, |s.values|)
    ensures Consistent(s.values, SwapNeighbor(s, idx, step).modifs)
  {
    var edits := SwapEdits(s.values, idx, step);
    SwapEditsIndices(s.values, idx, step);
    assert idx[..2 * step] == idx;
    RecordAllKeys(edits);
    var l := RecordAll(edits);
    forall k | k in l.entries
      ensures k < |s.values| && l.entries[k].before == s.values[k]
    {
      var t :| 0 <= t < |edits| && edits[t].index == k;
      SwapEditPartner(s.values, idx, step, t);
      DistinctEntryAt(edits, t);
    }
  }

  /** The record of a swap holds the drawn positions in drawing order, two per pair, each with the
      source's value before and the partner's value after; so it is consistent with the source. */
  lemma SwapNeighborRecord(s: Solution<int>, idx: seq<nat>, step: nat)
    requires |idx| == 2 * step && DistinctDraw(idx, |idx|, |s.values|)
    ensures var l := SwapNeighbor(s, idx, step).modifs;
            l.Valid() && l.order == idx && |l.entries| == |idx| &&
            (forall q :: 0 <= q < step ==>
               l.entries[idx[2 * q]] == Change(s.values[idx[2 * q]], s.values[idx[2 * q + 1]]) &&
               l.entries[idx[2 * q + 1]] == Change(s.values[idx[2 * q + 1]], s.values[idx[2 * q]])) &&
            Consistent(s.values, l)
  {
    SwapRecordOrder(s, idx, step);
    forall q | 0 <= q < step
      ensures var l := SwapNeighbor(s, idx, step).modifs;
              l.entries[idx[2 * q]] == Change(s.values[idx[2 * q]], s.values[idx[2 * q + 1]]) &&
              l.entries[idx[2 * q + 1]] == Change(s.values[idx[2 * q + 1]], s.values[idx[2 * q]])
    {
      SwapRecordEntries(s, idx, step, q);
    }
    SwapRecordConsistent(s, idx, step);
  }

  /** On a solution without repeated values, every record of a swap changes its position. */
  lemma SwapEditsChange(vals: seq<int>, idx: seq<nat>, step: nat)
    requires |idx| == 2 * step && DistinctDraw(idx, |idx|, |vals|) && Distinct(vals)
    ensures var edits := SwapEdits(vals, idx, step);
            forall t :: 0 <= t < |edits| ==> edits[t].before != edits[t].after && edits[t].before == vals[edits[t].index]
  {
    var edits := SwapEdits(vals, idx, step);
    forall t | 0 <= t < |edits|
      ensures edits[t].before != edits[t].after && edits[t].before == vals[edits[t].index]
    {
      SwapEditPartner(vals, idx, step, t);
    }
  }

  /** On a solution without repeated values, the swap neighbour is at Hamming distance 2 * step
      from the source. */
  lemma SwapNeighborDistance(s: Solution<int>, idx: seq<nat>, step: nat)
    requires |idx| == 2 * step && DistinctDraw(idx, |idx|, |s.values|) && Distinct(s.values)
    ensures HammingDistance(s.values, SwapNeighbor(s, idx, step).solution.values) == Success(2 * step)
  {
    var vals := s.values;
    var edits := SwapEdits(vals, idx, step);
    SwapEditsIndices(vals, idx, step);
    assert idx[..2 * step] == idx;
    SwapEditsChange(vals, idx, step);
    ChangedExactlyAt(vals, edits);
    SwapEditsArePairSwaps(vals, idx, step);
  }

  /** On a solution without repeated values, every recorded position of a swap changes value. */
  lemma SwapRecordChanges(s: Solution<int>, idx: seq<nat>, step: nat)
    requires |idx| == 2 * step && DistinctDraw(idx, |idx|, |s.values|) && Distinct(s.values)
    ensures var l := SwapNeighbor(s, idx, step).modifs;
            forall k :: k in l.entries ==> l.entries[k].before != l.entries[k].after
  {
    var edits := SwapEdits(s.values, idx, step);
    SwapEditsIndices(s.values, idx, step);
    assert idx[..2 * step] == idx;
    SwapEditsChange(s.values, idx, step);
    RecordAllKeys(edits);
    var l := RecordAll(edits);
    forall k | k in l.entries
      ensures l.entries[k].before != l.entries[k].after
    {
      var t :| 0 <= t < |edits| && edits[t].index == k;
      DistinctEntryAt(edits, t);
    }
  }

  // ---------------------------------------------------------------------------------------------
  // Substitution

  /** set(range(lo, hi + 1)). */
  function IntRange(lo: int, hi: int): (r: set<int>)
    ensures forall v :: v in r <==> lo <= v <= hi
    decreases if lo <= hi then hi - lo + 1 else 0
  {
    if lo > hi then {} else IntRange(lo, hi - 1) + {hi}
  }

  lemma {:induction false} IntRangeCard(lo: int, hi: int)
    ensures |IntRange(lo, hi)| == if lo <= hi then hi - lo + 1 else 0
    decreases if lo <= hi then hi - lo + 1 else 0
  {
    if lo <= hi {
      IntRangeCard(lo, hi - 1);
    }
  }

  /** The values attribute i of a discrete solution may take, range(min_val(i), max_val(i) + 1). */
  function Allowed(b: Boundaries, i: nat): set<int>
    requires i < |b.mins| && i < |b.maxs|
  {
    IntRange(Lo(b, i), Hi(b, i))
  }

  /** What substituting at position i meets, with the value drawn from the allowed values other
      than the current one: removing the current value fails with KeyError when it is outside the
      range, and drawing from no value left fails with ValueError. */
  function SubstitutionOutcome(b: Boundaries, vals: seq<int>, i: nat): (o: Outcome)
    requires i < |vals| == |b.mins| == |b.maxs|
    ensures o == Fail(KeyError) <==> vals[i] !in Allowed(b, i)
    ensures o == Fail(ValueError) <==> vals[i] in Allowed(b, i) && Allowed(b, i) - {vals[i]} == {}
    ensures o == Pass <==> vals[i] in Allowed(b, i) && Allowed(b, i) - {vals[i]} != {}
  {
    if !(Lo(b, i) <= vals[i] <= Hi(b, i)) then Fail(KeyError)
    else if Lo(b, i) == Hi(b, i) then Fail(ValueError)
    else
      assert (if vals[i] == Lo(b, i) then Hi(b, i) else Lo(b, i)) in Allowed(b, i) - {vals[i]};
      Pass
  }

  /** One substitution's checks, in the source's order: the current value is removed from the
      allowed values, which raises KeyError when it is not among them, and the draw from what is
      left raises ValueError when nothing is left. */
  method CheckSubstitution(b: Boundaries, vals: seq<int>, i: nat) returns (o: Outcome)
    requires i < |vals| == |b.mins| == |b.maxs|
    ensures o == SubstitutionOutcome(b, vals, i)
  {
    var allowed := IntRange(Lo(b, i), Hi(b, i));
    if vals[i] !in allowed {
      return Fail(KeyError);
    }
    allowed := allowed - {vals[i]};
    if allowed == {} {
      return Fail(ValueError);
    }
    return Pass;
  }

  /** The error met first when substituting at the positions idx[t..], in order, if any. */
  function FailureFrom(b: Boundaries, vals: seq<int>, idx: seq<nat>, t: nat): Option<Error>
    requires |vals| == |b.mins| == |b.maxs| && Below(idx, |vals|)
    decreases |idx| - t
  {
    if t >= |idx| then None
    else if SubstitutionOutcome(b, vals, idx[t]).Fail? then Some(SubstitutionOutcome(b, vals, idx[t]).error)
    else FailureFrom(b, vals, idx, t + 1)
  }

  /** No error is met exactly when every position passes; an error met is that of a failing
      position all of whose predecessors pass. */
  lemma {:induction false} FailureFromSpec(b: Boundaries, vals: seq<int>, idx: seq<nat>, t: nat)
    requires |vals| == |b.mins| == |b.maxs| && Below(idx, |vals|)
    ensures FailureFrom(b, vals, idx, t).None? <==>
              forall u :: t <= u < |idx| ==> SubstitutionOutcome(b, vals, idx[u]) == Pass
    ensures FailureFrom(b, vals, idx, t).Some? ==>
              exists u :: t <= u < |idx| && SubstitutionOutcome(b, vals, idx[u]) == Fail(FailureFrom(b, vals, idx, t).value) &&
                forall w :: t <= w < u ==> SubstitutionOutcome(b, vals, idx[w]) == Pass
    decreases |idx| - t
  {
    if t < |idx| && SubstitutionOutcome(b, vals, idx[t]) == Pass {
      FailureFromSpec(b, vals, idx, t + 1);
      if FailureFrom(b, vals, idx, t + 1).Some? {
        var u :| t + 1 <= u < |idx| && SubstitutionOutcome(b, vals, idx[u]) == Fail(FailureFrom(b, vals, idx, t).value) &&
                 forall w :: t + 1 <= w < u ==> SubstitutionOutcome(b, vals, idx[w]) == Pass;
        assert forall w :: t <= w < u ==> SubstitutionOutcome(b, vals, idx[w]) == Pass;
      }
    }
  }

  /** The records of the substitutions: position idx[t] goes from the source's value to newVals[t]. */
  function SubstitutionEdits(vals: seq<int>, idx: seq<nat>, newVals: seq<int>): (edits: seq<Edit>)
    requires |newVals| == |idx| && Below(idx, |vals|)
    ensures |edits| == |idx| && Indices(edits) == idx
    ensures forall t :: 0 <= t < |idx| ==> edits[t] == Edit(idx[t], vals[idx[t]], newVals[t])
  {
    seq(|idx|, t requires 0 <= t < |idx| => Edit(idx[t], vals[idx[t]], newVals[t]))
  }

  /** The neighbour the substitutions give: the copy carries the source's fitness. */
  function SubstitutionNeighbor(s: Solution<int>, idx: seq<nat>, newVals: seq<int>): Neighbor<int>
    requires |newVals| == |idx| && Below(idx, |s.values|)
  {
    var edits := SubstitutionEdits(s.values, idx, newVals);
    Neighbor(Solution(Apply(s.values, edits), s.encoding, s.fitness), RecordAll(edits))
  }

  /** What the draws of a substitution can be: step distinct positions, then at each position
      that can be substituted, one of its allowed values other than the current one. */
  predicate SubstitutionDraws(s: Solution<int>, step: nat, draws: seq<nat>, newVals: seq<int>)
    requires s.encoding.DiscreteEncoding? && ValidEncoding(s.encoding) && |s.values| == |s.encoding.bounds.mins|
  {
    var b := s.encoding.bounds;
    DistinctDraw(draws, step, |s.values|) && |newVals| == step &&
    forall t :: 0 <= t < step && SubstitutionOutcome(b, s.values, draws[t]) == Pass ==>
      newVals[t] in Allowed(b, draws[t]) && newVals[t] != s.values[draws[t]]
  }

  /** move_substitution as it is written: it can only raise. A step outside [0, len] is refused
      by numpy.random.choice (ValueError); with step 0 the loop does not run and the return names
      `modif`, which is never bound (NameError); otherwise the first substitution raises, either
      in removing a current value outside the range (KeyError) or in numpy.random.choice, which
      refuses a set (ValueError). */
  function MoveSubstitutionAsWritten(s: Solution<int>, step: int, draws: seq<nat>): (r: Result<Neighbor<int>>)
    requires s.encoding.DiscreteEncoding? ==> ValidEncoding(s.encoding) && |s.values| == |s.encoding.bounds.mins|
    requires s.encoding.DiscreteEncoding? && 0 <= step <= |s.values| ==> DistinctDraw(draws, step, |s.values|)
    ensures r.Failure?
    ensures !s.encoding.DiscreteEncoding? ==> r.error == NotImplementedError
    ensures s.encoding.DiscreteEncoding? && 0 < step <= |s.values| ==>
              (r.error == KeyError <==> s.values[draws[0]] !in Allowed(s.encoding.bounds, draws[0]))
  {
    if !s.encoding.DiscreteEncoding? then Failure(NotImplementedError)
    else if step < 0 || step > |s.values| then Failure(ValueError)
    else if step == 0 then Failure(NameError)
    else if s.values[draws[0]] !in Allowed(s.encoding.bounds, draws[0]) then Failure(KeyError)
    else Failure(ValueError)
  }

  /** The loop of move_substitution: for each drawn position in turn, the checks, then the new
      value written into the copy and recorded into the Modifs. The first failing check stops it
      with its error. */
  method SubstitutionLoop(b: Boundaries, vals: seq<int>, draws: seq<nat>, newVals: seq<int>, neighbor: array<int>, modifs: Modifs)
    returns (failure: Option<Error>)
    requires |vals| == |b.mins| == |b.maxs| && Below(draws, |vals|) && |newVals| == |draws|
    requires neighbor[..] == vals && modifs.Valid() && modifs.Snapshot() == Empty
    modifies neighbor, modifs
    ensures failure == FailureFrom(b, vals, draws, 0)
    ensures failure.None? ==> modifs.Valid() && modifs.Snapshot() == RecordAll(SubstitutionEdits(vals, draws, newVals)) &&
                              neighbor[..] == Apply(vals, SubstitutionEdits(vals, draws, newVals))
  {
    ghost var edits := SubstitutionEdits(vals, draws, newVals);
    for t := 0 to |draws|
      invariant FailureFrom(b, vals, draws, t) == FailureFrom(b, vals, draws, 0)
      invariant modifs.Valid() && modifs.Snapshot() == RecordAll(edits[..t])
      invariant neighbor[..] == Apply(vals, edits[..t])
    {
      var i := draws[t];
      var check := CheckSubstitution(b, vals, i);
      if check.Fail? {
        return Some(check.error);
      }
      ApplyStep(vals, edits, t);
      neighbor[i] := newVals[t];
      modifs.AddModif(i, vals[i], newVals[t]);
    }
    assert edits[..|draws|] == edits;
    return None;
  }

  /** move_substitution as intended: the record is written into the Modifs built for it and the
      new value is drawn from the allowed values other than the current one (newVals). The first
      position that cannot be substituted stops the move with its error. */
  method MoveSubstitution(s: Solution<int>, step: int, draws: seq<nat>, newVals: seq<int>) returns (r: Result<Neighbor<int>>)
    requires s.encoding.DiscreteEncoding? ==> ValidEncoding(s.encoding) && |s.values| == |s.encoding.bounds.mins|
    requires s.encoding.DiscreteEncoding? && 0 <= step <= |s.values| ==> SubstitutionDraws(s, step, draws, newVals)
    ensures !s.encoding.DiscreteEncoding? ==> r == Failure(NotImplementedError)
    ensures s.encoding.DiscreteEncoding? && (step < 0 || step > |s.values|) ==> r == Failure(ValueError)
    ensures s.encoding.DiscreteEncoding? && 0 <= step <= |s.values| ==>
              var f := FailureFrom(s.encoding.bounds, s.values, draws, 0);
              (f.Some? ==> r == Failure(f.value)) &&
              (f.None? ==> r == Success(SubstitutionNeighbor(s, draws, newVals)))
  {
    if !s.encoding.DiscreteEncoding? {
      return Failure(NotImplementedError);
    }
    if step < 0 || step > |s.values| {
      return Failure(ValueError);
    }
    var vals, b := s.values, s.encoding.bounds;
    assert DistinctDraw(draws, step, |vals|) && |newVals| == step;
    var neighbor := new int[|vals|](k requires 0 <= k < |vals| => vals[k]);
    var modifs := new Modifs();
    var failure := SubstitutionLoop(b, vals, draws, newVals, neighbor, modifs);
    if failure.Some? {
      return Failure(failure.value);
    }
    r := Success(Neighbor(Solution(neighbor[..], s.encoding, s.fitness), modifs.Snapshot()));
  }

  /** A substitution neighbour differs from the source exactly at the drawn positions, each of
      which holds an allowed value: it stays in the boundaries when the source was, and it is at
      Hamming distance step from the source. Its record lists the drawn positions in order, is
      consistent with the source and replays onto it. */
  lemma SubstitutionNeighborChanges(s: Solution<int>, step: nat, draws: seq<nat>, newVals: seq<int>)
    requires s.encoding.DiscreteEncoding? && ValidEncoding(s.encoding) && |s.values| == |s.encoding.bounds.mins|
    requires SubstitutionDraws(s, step, draws, newVals)
    requires FailureFrom(s.encoding.bounds, s.values, draws, 0).None?
    ensures var n, b := SubstitutionNeighbor(s, draws, newVals), s.encoding.bounds;
            n.solution.encoding == s.encoding && n.solution.fitness == s.fitness &&
            (forall t :: 0 <= t < step ==>
               n.solution.values[draws[t]] == newVals[t] && newVals[t] in Allowed(b, draws[t])) &&
            (forall k :: 0 <= k < |s.values| ==> (n.solution.values[k] != s.values[k] <==> k in draws)) &&
            HammingDistance(s.values, n.solution.values) == Success(step)
  {
    var edits := SubstitutionEdits(s.values, draws, newVals);
    FailureFromSpec(s.encoding.bounds, s.values, draws, 0);
    ApplyDistinct(s.values, edits);
    ChangedExactlyAt(s.values, edits);
  }

  lemma SubstitutionNeighborRecord(s: Solution<int>, step: nat, draws: seq<nat>, newVals: seq<int>)
    requires s.encoding.DiscreteEncoding? && ValidEncoding(s.encoding) && |s.values| == |s.encoding.bounds.mins|
    requires SubstitutionDraws(s, step, draws, newVals)
    ensures var l := SubstitutionNeighbor(s, draws, newVals).modifs;
            l.Valid() && l.order == draws &&
            (forall t :: 0 <= t < step ==> l.entries[draws[t]] == Change(s.values[draws[t]], newVals[t])) &&
            Consistent(s.values, l) &&
            Replay(s.values, l) == SubstitutionNeighbor(s, draws, newVals).solution.values
  {
    var edits := SubstitutionEdits(s.values, draws, newVals);
    DistinctRecordAll(edits);
    RecordAllKeys(edits);
    ReplayRecordAll(s.values, edits);
  }

  /** On the same draws the intended move can succeed where the written one cannot: on a single
      attribute in [0, 2] holding 0, substituting 1 gives the neighbour [1] recorded as (0, 1). */
  lemma SubstitutionExample()
    ensures var s := Solution([0], DiscreteEncoding(Build([0.0], [2.0], IntType)), None);
            MoveSubstitutionAsWritten(s, 1, [0]) == Failure(ValueError) &&
            FailureFrom(s.encoding.bounds, s.values, [0], 0).None? &&
            SubstitutionNeighbor(s, [0], [1]).solution.values == [1] &&
            SubstitutionNeighbor(s, [0], [1]).modifs == Ledger([0], map[0 := Change(0, 1)])
  {
    var s := Solution([0], DiscreteEncoding(Build([0.0], [2.0], IntType)), None);
    var b := s.encoding.bounds;
    assert Lo(b, 0) == 0 && Hi(b, 0) == 2;
    var edits := SubstitutionEdits(s.values, [0], [1]);
    assert edits == [Edit(0, 0, 1)];
    assert edits[..0] == [];
  }
}
