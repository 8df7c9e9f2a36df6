/** NeighborhoodOperator: a single-draw move, an optional move range and a number of neighbours.
    A call converts the step once, then calls the move again and again, accepting a neighbour
    when its modifications are empty or were not seen earlier in the same call, until it has
    accepted the requested number of neighbours. */
module NeighborhoodOperators {
  import opened Wrappers
  import opened Modif
  import opened Encodings
  import opened MoveRanges
  import opened MoveFunctions

  // ---------------------------------------------------------------------------------------------
  // The factory

  /** Python's int() on a number: a float is truncated toward zero. */
  function PyInt(x: Num): (r: int)
    ensures x.IntNum? ==> r == x.i
    ensures x.FloatNum? && x.r >= 0.0 ==> 0 <= r && r as real <= x.r < r as real + 1.0
    ensures x.FloatNum? && x.r < 0.0 ==> r <= 0 && r as real - 1.0 < x.r <= r as real
  {
    match x
    case IntNum(i) => i
    case FloatNum(v) => if v >= 0.0 then v.Floor else -((-v).Floor)
  }

  /** The operator's attributes: the move it calls, the move range of AbstractOperator (None when
      there is none) and the number of neighbours a call yields. */
  datatype NeighborhoodOperator = NeighborhoodOperator(move: MoveKind, moveRange: Option<MoveRange>, maxNbNeighbors: int)

  /** neigborhood_factory: the continuous distance move gets a range over float(min_range) and
      float(max_range), every other move a range over int(min_range) and int(max_range); the
      logarithmic variant exactly when log_range is set. The conversions leave the range
      constructors only an inverted range to refuse. */
  function NeighborhoodFactory(move: MoveKind, minRange: Num, maxRange: Num, logRange: bool, maxNbNeighbors: int, power: Power)
    : (r: Result<NeighborhoodOperator>)
    ensures move == DistanceContinuous ==> (r.Success? <==> minRange.AsReal() <= maxRange.AsReal())
    ensures move != DistanceContinuous ==> (r.Success? <==> PyInt(minRange) <= PyInt(maxRange))
    ensures r.Failure? ==> r.error == ValueError
    ensures r.Success? ==>
              var m := r.value.moveRange;
              r.value.move == move && r.value.maxNbNeighbors == maxNbNeighbors && m.Some? && m.value.Valid() &&
              (m.value.ContinuousLogMoveRange? || m.value.DiscreteLogMoveRange? <==> logRange) &&
              (m.value.ContinuousMoveRange? || m.value.ContinuousLogMoveRange? <==> move == DistanceContinuous)
    ensures r.Success? && move == DistanceContinuous ==>
              r.value.moveRange.value.low == minRange.AsReal() && r.value.moveRange.value.high == maxRange.AsReal()
    ensures r.Success? && move != DistanceContinuous ==>
              var m := r.value.moveRange.value;
              m.values[0] == PyInt(minRange) && m.values[|m.values| - 1] == PyInt(maxRange)
  {
    var range :=
      if move == DistanceContinuous then
        var low, high := FloatNum(minRange.AsReal()), FloatNum(maxRange.AsReal());
        if logRange then NewContinuousLog(low, high, power) else NewContinuous(low, high)
      else
        var low, high := IntNum(PyInt(minRange)), IntNum(PyInt(maxRange));
        if logRange then NewDiscreteLog(low, high, power) else MoveRanges.NewDiscrete(low, high);
    match range
    case Failure(e) => Failure(e)
    case Success(m) => Success(NeighborhoodOperator(move, Some(m), maxNbNeighbors))
  }

  // ---------------------------------------------------------------------------------------------
  // A call

  /** AbstractOperator._convert_step: no step without a move range, else the range's conversion. */
  function ConvertStep(moveRange: Option<MoveRange>, step: Num): (r: Result<Option<Num>>)
    requires moveRange.Some? ==> moveRange.value.Valid()
    ensures moveRange.None? ==> r == Success(None)
    ensures moveRange.Some? && CheckStep(step).Fail? ==> r == Failure(CheckStep(step).error)
    ensures moveRange.Some? && r.Success? ==> r.value.Some? && Convert(moveRange.value, step) == Success(r.value.value)
  {
    match moveRange
    case None => Success(None)
    case Some(m) =>
      match Convert(m, step)
      case Failure(e) => Failure(e)
      case Success(c) => Success(Some(c))
  }

  /** The single-draw move: for the solution, the converted step and the number of the attempt
      (which stands for the random state of that call), the neighbour it returns or the error it
      raises. */
  type SingleMove<!T> = (Solution<T>, Option<Num>, nat) -> Result<Neighbor<T>>

  /** The first budget attempts of the move on a solution and a converted step. */
  function Attempts<T(==)>(move: SingleMove<T>, s: Solution<T>, c: Option<Num>, budget: nat): (a: seq<Result<Neighbor<T>>>)
    ensures |a| == budget && forall t :: 0 <= t < budget ==> a[t] == move(s, c, t)
  {
    seq(budget, t requires 0 <= t < budget => move(s, c, t))
  }

  /** The neighbours of the attempts up to the first one that raises. */
  function Successes<T(==)>(a: seq<Result<Neighbor<T>>>): (ns: seq<Neighbor<T>>)
    ensures |ns| <= |a| && forall t :: 0 <= t < |ns| ==> a[t] == Success(ns[t])
    ensures |ns| < |a| ==> a[|ns|].Failure?
  {
    if a == [] || a[0].Failure? then [] else [a[0].value] + Successes(a[1..])
  }

  /** The modifications of a list of neighbours. */
  function LedgersOf<T(==)>(ns: seq<Neighbor<T>>): (ls: set<Ledger>)
    ensures forall n :: n in ns ==> n.modifs in ls
    ensures forall l :: l in ls ==> exists n :: n in ns && n.modifs == l
  {
    set n | n in ns :: n.modifs
  }

  /** The acceptance test of a neighbour: its modifications are empty or not seen yet. */
  predicate Accepts(seen: set<Ledger>, l: Ledger) {
    l.IsEmpty() || l !in seen
  }

  /** The neighbours the call accepts among a run of attempts, in order: each one whose
      modifications are empty or differ from those of every neighbour accepted before it. */
  function Kept<T(==)>(ns: seq<Neighbor<T>>): (ks: seq<Neighbor<T>>)
    decreases |ns|
  {
    if ns == [] then []
    else
      var pre := Kept(ns[..|ns| - 1]);
      if Accepts(LedgersOf(pre), ns[|ns| - 1].modifs) then pre + [ns[|ns| - 1]] else pre
  }

  /** No two neighbours of the list share non-empty modifications. */
  predicate NoRepeatedModifs<T>(ns: seq<Neighbor<T>>) {
    forall p, q :: 0 <= p < q < |ns| && !ns[p].modifs.IsEmpty() ==> ns[p].modifs != ns[q].modifs
  }

  /** The number of iterations of range(max_nb_neighbors). */
  function Count(maxNbNeighbors: int): nat {
    if maxNbNeighbors > 0 then maxNbNeighbors else 0
  }

  /** What a call yields and how it ends, given the move and a budget of attempts: a step the move
      range refuses yields nothing; otherwise the accepted neighbours, stopping at the requested
      number; the call ends early with the error of the first attempt that raises, or when the
      budget of attempts is spent. */
  function CallSpec<T(==)>(op: NeighborhoodOperator, move: SingleMove<T>, s: Solution<T>, step: Num, budget: nat)
    : (seq<Neighbor<T>>, Outcome)
    requires op.moveRange.Some? ==> op.moveRange.value.Valid()
  {
    match ConvertStep(op.moveRange, step)
    case Failure(e) => ([], Fail(e))
    case Success(c) =>
      var a := Attempts(move, s, c, budget);
      var ok := Successes(a);
      var kept := Kept(ok);
      var n := Count(op.maxNbNeighbors);
      if |kept| >= n then (kept[..n], Pass)
      else if |ok| < |a| then (kept, Fail(a[|ok|].error))
      else (kept, Fail(DrawsExhausted))
  }

  /** __call__ with content-based deduplication: the set of modifications seen grows within the
      call and is dropped at its end; the retry loop is bounded by the budget of attempts. */
  method Call<T(==)>(op: NeighborhoodOperator, move: SingleMove<T>, s: Solution<T>, step: Num, budget: nat)
    returns (out: seq<Neighbor<T>>, stop: Outcome)
    requires op.moveRange.Some? ==> op.moveRange.value.Valid()
    ensures (out, stop) == CallSpec(op, move, s, step, budget)
  {
    var converted := ConvertStep(op.moveRange, step);
    if converted.Failure? {
      return [], Fail(converted.error);
    }
    var c := converted.value;
    ghost var a := Attempts(move, s, c, budget);
    ghost var ok := Successes(a);
    var n := Count(op.maxNbNeighbors);
    var seen: set<Ledger> := {};
    out := [];
    var t: nat := 0;
    var i := 0;
    while i < n
      invariant 0 <= i <= n && |out| == i && t <= |ok|
      invariant out == Kept(ok[..t]) && seen == LedgersOf(out)
    {
      var raised;
      t, out, seen, raised := NextAccepted(move, s, c, budget, a, ok, t, out, seen);
      if raised.Some? {
        assert ok[..t] == ok;
        return out, Fail(raised.value);
      }
      i := i + 1;
    }
    KeptPrefix(ok, t);
    assert |Kept(ok)| >= n && out == Kept(ok)[..n];
    stop := Pass;
  }

  /** The retry loop of one iteration: the move is called again until a neighbour is accepted;
      an attempt that raises, or the budget being spent, ends it without accepting one. The
      attempts a are those of the move, and ok the neighbours up to the first one that raises. */
  method NextAccepted<T(==)>(move: SingleMove<T>, s: Solution<T>, c: Option<Num>, budget: nat,
                             ghost a: seq<Result<Neighbor<T>>>, ghost ok: seq<Neighbor<T>>,
                             t0: nat, out0: seq<Neighbor<T>>, seen0: set<Ledger>)
    returns (t: nat, out: seq<Neighbor<T>>, seen: set<Ledger>, raised: Option<Error>)
    requires |a| == budget && forall u :: 0 <= u < budget ==> a[u] == move(s, c, u)
    requires |ok| <= |a| && (forall u :: 0 <= u < |ok| ==> a[u] == Success(ok[u])) && (|ok| < |a| ==> a[|ok|].Failure?)
    requires t0 <= |ok| && out0 == Kept(ok[..t0]) && seen0 == LedgersOf(out0)
    ensures t <= |ok| && out == Kept(ok[..t]) && seen == LedgersOf(out)
    ensures raised.None? ==> |out| == |out0| + 1
    ensures raised.Some? ==>
              out == out0 && t == |ok| && raised.value == if |ok| < budget then a[|ok|].error else DrawsExhausted
  {
    t, out, seen, raised := t0, out0, seen0, None;
    var accepted := false;
    while !accepted && raised.None?
      invariant t <= |ok| && out == Kept(ok[..t]) && seen == LedgersOf(out)
      invariant if accepted then |out| == |out0| + 1 else out == out0
      invariant raised.Some? ==> !accepted && t == |ok| && raised.value == if |ok| < budget then a[|ok|].error else DrawsExhausted
      decreases budget - t, if raised.None? then 1 else 0
    {
      t, out, seen, accepted, raised := Attempt(move, s, c, budget, a, ok, t, out, seen);
    }
  }

  /** One pass of the retry loop: with the budget spent it raises DrawsExhausted; otherwise the
      move is called once, and its error is raised or its neighbour tested, and kept when the
      test passes. */
  method Attempt<T(==)>(move: SingleMove<T>, s: Solution<T>, c: Option<Num>, budget: nat,
                        ghost a: seq<Result<Neighbor<T>>>, ghost ok: seq<Neighbor<T>>,
                        t0: nat, out0: seq<Neighbor<T>>, seen0: set<Ledger>)
    returns (t: nat, out: seq<Neighbor<T>>, seen: set<Ledger>, accepted: bool, raised: Option<Error>)
    requires |a| == budget && forall u :: 0 <= u < budget ==> a[u] == move(s, c, u)
    requires |ok| <= |a| && (forall u :: 0 <= u < |ok| ==> a[u] == Success(ok[u])) && (|ok| < |a| ==> a[|ok|].Failure?)
    requires t0 <= |ok| && out0 == Kept(ok[..t0]) && seen0 == LedgersOf(out0)
    ensures t <= |ok| && out == Kept(ok[..t]) && seen == LedgersOf(out)
    ensures if accepted then |out| == |out0| + 1 else out == out0
    ensures raised.Some? ==> !accepted && t == |ok| && raised.value == if |ok| < budget then a[|ok|].error else DrawsExhausted
    ensures raised.None? ==> t == t0 + 1
  {
    t, out, seen, accepted, raised := t0, out0, seen0, false, None;
    if t == budget {
      raised := Some(DrawsExhausted);
      return;
    }
    var attempt := move(s, c, t);
    assert a[t] == attempt;
    if attempt.Failure? {
      raised := Some(attempt.error);
      return;
    }
    var neighbor := attempt.value;
    assert t < |ok| && ok[t] == neighbor;
    KeptAccept(ok, t, out, seen);
    if neighbor.modifs.IsEmpty() || neighbor.modifs !in seen {
      seen := seen + {neighbor.modifs};
      out := out + [neighbor];
      accepted := true;
    }
    t := t + 1;
  }

  // ---------------------------------------------------------------------------------------------
  // What a call promises

  /** One more attempt: its neighbour is accepted exactly when the test passes against the
      modifications accepted so far. */
  lemma KeptStep<T>(ns: seq<Neighbor<T>>, t: nat)
    requires t < |ns|
    ensures Kept(ns[..t + 1]) ==
              if Accepts(LedgersOf(Kept(ns[..t])), ns[t].modifs) then Kept(ns[..t]) + [ns[t]] else Kept(ns[..t])
  {
    assert ns[..t + 1][..t] == ns[..t];
  }

  /** The step of the retry loop: the neighbour of attempt t extends the accepted list exactly
      when the test passes against the modifications seen so far. */
  lemma KeptAccept<T>(ns: seq<Neighbor<T>>, t: nat, out: seq<Neighbor<T>>, seen: set<Ledger>)
    requires t < |ns| && out == Kept(ns[..t]) && seen == LedgersOf(out)
    ensures Accepts(seen, ns[t].modifs) ==>
              Kept(ns[..t + 1]) == out + [ns[t]] && LedgersOf(out + [ns[t]]) == seen + {ns[t].modifs}
    ensures !Accepts(seen, ns[t].modifs) ==> Kept(ns[..t + 1]) == out
  {
    KeptStep(ns, t);
    LedgersOfSnoc(out, ns[t]);
  }

  lemma LedgersOfSnoc<T>(ns: seq<Neighbor<T>>, n: Neighbor<T>)
    ensures LedgersOf(ns + [n]) == LedgersOf(ns) + {n.modifs}
  {
    forall l | l in LedgersOf(ns + [n])
      ensures l in LedgersOf(ns) + {n.modifs}
    {
      var m :| m in ns + [n] && m.modifs == l;
    }
  }

  /** Accepting neighbours is monotone: the neighbours accepted from the first t attempts start
      the list accepted from all of them. */
  lemma {:induction false} KeptPrefix<T>(ns: seq<Neighbor<T>>, t: nat)
    requires t <= |ns|
    ensures Kept(ns[..t]) <= Kept(ns)
    decreases |ns|
  {
    if t < |ns| {
      var init := ns[..|ns| - 1];
      assert init[..t] == ns[..t];
      KeptPrefix(init, t);
    } else {
      assert ns[..t] == ns;
    }
  }

  /** Every accepted neighbour comes from the attempts, and every modifications an attempt
      returned is among those of the accepted neighbours. */
  lemma {:induction false} KeptLedgers<T>(ns: seq<Neighbor<T>>)
    ensures forall k :: k in Kept(ns) ==> k in ns
    ensures LedgersOf(Kept(ns)) == LedgersOf(ns)
    decreases |ns|
  {
    if ns != [] {
      var init := ns[..|ns| - 1];
      KeptLedgers(init);
      assert ns == init + [ns[|ns| - 1]];
    }
  }

  /** A neighbour whose modifications are empty is always accepted. */
  lemma {:induction false} KeptEmpties<T>(ns: seq<Neighbor<T>>)
    ensures forall n :: n in ns && n.modifs.IsEmpty() ==> n in Kept(ns)
    decreases |ns|
  {
    if ns != [] {
      var init := ns[..|ns| - 1];
      KeptEmpties(init);
      assert ns == init + [ns[|ns| - 1]];
    }
  }

  /** Within one call, accepted neighbours with non-empty modifications have pairwise different
      modifications. */
  lemma {:induction false} KeptDistinctLedgers<T>(ns: seq<Neighbor<T>>)
    ensures NoRepeatedModifs(Kept(ns))
    decreases |ns|
  {
    if ns != [] {
      var init := ns[..|ns| - 1];
      KeptDistinctLedgers(init);
      var pre := Kept(init);
      var last := ns[|ns| - 1];
      if Accepts(LedgersOf(pre), last.modifs) {
        var ks := pre + [last];
        assert Kept(ns) == ks;
        forall p, q | 0 <= p < q < |ks| && !ks[p].modifs.IsEmpty()
          ensures ks[p].modifs != ks[q].modifs
        {
          if q == |pre| {
            assert ks[p] in pre && ks[q] == last;
            assert ks[p].modifs in LedgersOf(pre);
          } else {
            assert ks[p] == pre[p] && ks[q] == pre[q];
          }
        }
      } else {
        assert Kept(ns) == pre;
      }
    }
  }

  /** A call yields at most the requested number of neighbours, and it ends normally exactly when
      it yields all of them; within the call, non-empty modifications are never repeated. */
  lemma CallYields<T>(op: NeighborhoodOperator, move: SingleMove<T>, s: Solution<T>, step: Num, budget: nat)
    requires op.moveRange.Some? ==> op.moveRange.value.Valid()
    ensures var (out, stop) := CallSpec(op, move, s, step, budget);
            |out| <= Count(op.maxNbNeighbors) &&
            (stop == Pass <==> |out| == Count(op.maxNbNeighbors) && ConvertStep(op.moveRange, step).Success?) &&
            NoRepeatedModifs(out)
  {
    match ConvertStep(op.moveRange, step)
    case Failure(e) =>
    case Success(c) =>
      var ok := Successes(Attempts(move, s, c, budget));
      var kept := Kept(ok);
      KeptDistinctLedgers(ok);
      var out := CallSpec(op, move, s, step, budget).0;
      assert out <= kept;
      forall p, q | 0 <= p < q < |out| && !out[p].modifs.IsEmpty()
        ensures out[p].modifs != out[q].modifs
      {
        assert out[p] == kept[p] && out[q] == kept[q];
      }
  }

  /** A call that ends early has run the move until it raised or the budget was spent: every
      neighbour with empty modifications among the attempts so far was yielded, and every
      modifications they returned was yielded with some neighbour. */
  lemma CallEndsEarly<T>(op: NeighborhoodOperator, move: SingleMove<T>, s: Solution<T>, step: Num, budget: nat)
    requires op.moveRange.Some? ==> op.moveRange.value.Valid()
    requires ConvertStep(op.moveRange, step).Success? && CallSpec(op, move, s, step, budget).1.Fail?
    ensures var out := CallSpec(op, move, s, step, budget).0;
            var ok := Successes(Attempts(move, s, ConvertStep(op.moveRange, step).value, budget));
            (forall n :: n in ok && n.modifs.IsEmpty() ==> n in out) &&
            LedgersOf(out) == LedgersOf(ok)
  {
    var ok := Successes(Attempts(move, s, ConvertStep(op.moveRange, step).value, budget));
    KeptEmpties(ok);
    KeptLedgers(ok);
  }

  // ---------------------------------------------------------------------------------------------
  // The call as written

  /** __call__ as written: the modifications are an OrderedDict, which is unhashable, so the first
      neighbour the move returns makes the membership test or set.add raise TypeError; nothing is
      ever yielded. */
  function CallAsWritten<T(==)>(op: NeighborhoodOperator, move: SingleMove<T>, s: Solution<T>, step: Num, budget: nat)
    : (r: (seq<Neighbor<T>>, Outcome))
    requires op.moveRange.Some? ==> op.moveRange.value.Valid()
    ensures r.0 == []
    ensures ConvertStep(op.moveRange, step).Failure? ==> r.1 == Fail(ConvertStep(op.moveRange, step).error)
    ensures var c := ConvertStep(op.moveRange, step);
            c.Success? && Count(op.maxNbNeighbors) > 0 && budget > 0 && move(s, c.value, 0).Success? ==>
              r.1 == Fail(TypeError)
  {
    match ConvertStep(op.moveRange, step)
    case Failure(e) => ([], Fail(e))
    case Success(c) =>
      if Count(op.maxNbNeighbors) == 0 then ([], Pass)
      else if budget == 0 then ([], Fail(DrawsExhausted))
      else if move(s, c, 0).Failure? then ([], Fail(move(s, c, 0).error))
      else ([], Fail(TypeError))
  }

  /** Whenever the move returns a neighbour on the first attempt of a call that asks for one,
      the call as written raises without yielding, while the deduplicating call yields it. */
  lemma DedupAsWrittenRaises<T>(op: NeighborhoodOperator, move: SingleMove<T>, s: Solution<T>, step: Num, budget: nat)
    requires op.moveRange.Some? ==> op.moveRange.value.Valid()
    requires ConvertStep(op.moveRange, step).Success? && Count(op.maxNbNeighbors) > 0 && budget > 0
    requires move(s, ConvertStep(op.moveRange, step).value, 0).Success?
    ensures CallAsWritten(op, move, s, step, budget) == ([], Fail(TypeError))
    ensures var out := CallSpec(op, move, s, step, budget).0;
            |out| > 0 && out[0] == move(s, ConvertStep(op.moveRange, step).value, 0).value
  {
    var c := ConvertStep(op.moveRange, step).value;
    var ok := Successes(Attempts(move, s, c, budget));
    assert |ok| > 0 && ok[0] == move(s, c, 0).value;
    KeptPrefix(ok, 1);
    assert ok[..1] == [ok[0]];
    assert Kept(ok[..1]) == [ok[0]] by {
      assert ok[..1][..0] == [];
    }
  }
}
