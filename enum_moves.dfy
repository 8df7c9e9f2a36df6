/** The enumerating move functions of move_functions.py: generators that list the candidate moves
    of a solution, shuffle them, keep the first nb_neighbors, and yield one neighbour and its
    record per kept candidate. A generator is modelled by the list it yields, or by the error its
    first step raises; the shuffles' draws and the normal draws are parameters. */
module EnumerationMoves {
  import opened Wrappers
  import opened Modif
  import opened Encodings
  import opened Boundary
  import opened Distances
  import opened RandomDraws
  import opened Itertools
  import opened MoveFunctions

  /** `xs[:nb]`, after `nb = len(xs)` when nb is None: a prefix, which a negative nb counts from
      the end. */
  function Capped<T>(xs: seq<T>, nb: Option<int>): (r: seq<T>)
    ensures |r| <= |xs| && r == xs[..|r|]
    ensures nb.None? ==> r == xs
    ensures nb.Some? && 0 <= nb.value ==> |r| == if nb.value < |xs| then nb.value else |xs|
    ensures nb.Some? && nb.value < 0 ==> |r| == if |xs| + nb.value > 0 then |xs| + nb.value else 0
  {
    if nb.None? then xs
    else if 0 <= nb.value then (if nb.value < |xs| then xs[..nb.value] else xs)
    else if |xs| + nb.value > 0 then xs[..|xs| + nb.value]
    else []
  }

  // ---------------------------------------------------------------------------------------------
  // Bit flip

  /** The flips move_binary_flip makes: every increasing step-tuple of positions, shuffled, then
      the first nb of them. There are C(n, step) tuples, none repeated. */
  function FlipCandidates(n: nat, step: nat, js: seq<nat>, nb: Option<int>): (cs: seq<seq<nat>>)
    ensures Distinct(cs)
    ensures forall c :: c in cs ==> |c| == step && Increasing(c) && Within(c, 0, n)
    ensures nb.None? ==> |cs| == Binom(n, step)
    ensures nb.Some? && nb.value >= 0 ==> |cs| == if nb.value < Binom(n, step) then nb.value else Binom(n, step)
  {
    IndexCombinations(n, step);
    var all := Shuffle(Combinations(Range(0, n), step), js);
    forall c | c in all
      ensures |c| == step && Increasing(c) && Within(c, 0, n)
    {
      ShuffleMembers(Combinations(Range(0, n), step), js, c);
    }
    var cs := Capped(all, nb);
    PrefixFacts(all, |cs|);
    cs
  }

  /** Every flip tuple is a draw of distinct positions. */
  lemma FlipCandidateIsDraw(n: nat, step: nat, js: seq<nat>, nb: Option<int>, k: nat)
    requires k < |FlipCandidates(n, step, js, nb)|
    ensures DistinctDraw(FlipCandidates(n, step, js, nb)[k], step, n)
  {
    var c := FlipCandidates(n, step, js, nb)[k];
    assert c in FlipCandidates(n, step, js, nb);
    assert Distinct(c) by {
      forall p, q | 0 <= p < |c| && 0 <= q < |c| && p != q
        ensures c[p] != c[q]
      {
        if p < q { assert c[p] < c[q]; } else { assert c[q] < c[p]; }
      }
    }
  }

  /** move_binary_flip: a binary solution is required and combinations refuses a negative step;
      then a copy is made for each kept tuple of positions, with those bits flipped and recorded. */
  method EnumBinaryFlip(s: Solution<int>, step: int, nb: Option<int>, js: seq<nat>)
    returns (r: Result<seq<Neighbor<int>>>)
    ensures !s.encoding.BinaryEncoding? ==> r == Failure(NotImplementedError)
    ensures s.encoding.BinaryEncoding? && step < 0 ==> r == Failure(ValueError)
    ensures s.encoding.BinaryEncoding? && step >= 0 ==>
              var cands := FlipCandidates(|s.values|, step, js, nb);
              r.Success? && |r.value| == |cands| &&
              forall k :: 0 <= k < |cands| ==> r.value[k] == FlipNeighbor(s, cands[k])
  {
    if !s.encoding.BinaryEncoding? {
      return Failure(NotImplementedError);
    }
    if step < 0 {
      return Failure(ValueError);
    }
    var allFlips := Combinations(Range(0, |s.values|), step);
    allFlips := Shuffle(allFlips, js);
    var cands := Capped(allFlips, nb);
    assert cands == FlipCandidates(|s.values|, step, js, nb);
    forall u | 0 <= u < |cands|
      ensures DistinctDraw(cands[u], step, |s.values|) && Below(cands[u], |s.values|)
    {
      FlipCandidateIsDraw(|s.values|, step, js, nb, u);
    }
    var out := FlipEach(s, cands, step);
    return Success(out);
  }

  /** The loop of move_binary_flip over the kept tuples. */
  method FlipEach(s: Solution<int>, cands: seq<seq<nat>>, step: nat) returns (out: seq<Neighbor<int>>)
    requires forall u :: 0 <= u < |cands| ==> DistinctDraw(cands[u], step, |s.values|) && Below(cands[u], |s.values|)
    ensures |out| == |cands| && forall k :: 0 <= k < |cands| ==> out[k] == FlipNeighbor(s, cands[k])
  {
    out := [];
    for k := 0 to |cands|
      invariant |out| == k
      invariant forall u :: 0 <= u < k ==> out[u] == FlipNeighbor(s, cands[u])
    {
      var n := FlipBits(s, cands[k]);
      out := out + [n];
    }
  }

  /** Different flip tuples give different neighbours: the positions that differ from the source
      are those of the tuple, and an increasing tuple is fixed by its positions. */
  lemma FlipNeighborsDistinct(s: Solution<int>, step: nat, js: seq<nat>, nb: Option<int>)
    ensures var cands := FlipCandidates(|s.values|, step, js, nb);
            forall p, q :: 0 <= p < q < |cands| ==>
              FlipNeighbor(s, cands[p]).solution != FlipNeighbor(s, cands[q]).solution
  {
    var cands := FlipCandidates(|s.values|, step, js, nb);
    forall p, q | 0 <= p < q < |cands|
      ensures FlipNeighbor(s, cands[p]).solution != FlipNeighbor(s, cands[q]).solution
    {
      FlipCandidateIsDraw(|s.values|, step, js, nb, p);
      FlipCandidateIsDraw(|s.values|, step, js, nb, q);
      assert cands[p] in cands && cands[q] in cands;
      FlipDrawsDiffer(s, cands[p], cands[q]);
    }
  }

  /** Two different increasing flip tuples give different neighbours. */
  lemma FlipDrawsDiffer(s: Solution<int>, c1: seq<nat>, c2: seq<nat>)
    requires DistinctDraw(c1, |c1|, |s.values|) && DistinctDraw(c2, |c2|, |s.values|)
    requires Increasing(c1) && Increasing(c2) && c1 != c2
    ensures FlipNeighbor(s, c1).solution != FlipNeighbor(s, c2).solution
  {
    FlipNeighborChanges(s, c1);
    FlipNeighborChanges(s, c2);
    if FlipNeighbor(s, c1).solution == FlipNeighbor(s, c2).solution {
      forall x
        ensures x in c1 <==> x in c2
      {
        if x in c1 { assert x < |s.values|; }
        if x in c2 { assert x < |s.values|; }
      }
      IncreasingUnique(c1, c2);
    }
  }

  // ---------------------------------------------------------------------------------------------
  // Distance on real values

  /** move_distance_continuous: a real solution is required, and range(None) raises TypeError;
      otherwise nb_neighbors neighbours (none when it is not positive), neighbour k moved by
      vectors[k], each with an empty record. */
  method EnumDistanceContinuous(s: Solution<real>, nb: Option<int>, vectors: seq<seq<real>>)
    returns (r: Result<seq<Neighbor<real>>>)
    requires s.encoding.RealEncoding? ==> ValidEncoding(s.encoding) && |s.values| == |s.encoding.bounds.mins|
    requires s.encoding.RealEncoding? && nb.Some? ==> |vectors| >= nb.value
    requires forall k :: 0 <= k < |vectors| ==> |vectors[k]| == |s.values|
    ensures !s.encoding.RealEncoding? ==> r == Failure(NotImplementedError)
    ensures s.encoding.RealEncoding? && nb.None? ==> r == Failure(TypeError)
    ensures s.encoding.RealEncoding? && nb.Some? ==>
              r.Success? && |r.value| == (if nb.value > 0 then nb.value else 0) &&
              forall k :: 0 <= k < |r.value| ==>
                r.value[k] == MoveDistanceContinuous(s, vectors[k], true).value &&
                r.value[k].modifs == Empty
  {
    if !s.encoding.RealEncoding? {
      return Failure(NotImplementedError);
    }
    if nb.None? {
      return Failure(TypeError);
    }
    var out: seq<Neighbor<real>> := [];
    var k := 0;
    while k < nb.value
      invariant 0 <= k <= (if nb.value > 0 then nb.value else 0) && |out| == k
      invariant forall u :: 0 <= u < k ==> out[u] == MoveDistanceContinuous(s, vectors[u], true).value
    {
      var n := MoveDistanceContinuous(s, vectors[k], true).value;
      out := out + [n];
      k := k + 1;
    }
    return Success(out);
  }

  // ---------------------------------------------------------------------------------------------
  // Substitution

  /** Every current value lies in its range: otherwise removing it from the allowed values raises
      KeyError. */
  predicate AllAllowed(b: Boundaries, vals: seq<int>)
    requires |vals| <= |b.mins| && |vals| <= |b.maxs|
  {
    forall i :: 0 <= i < |vals| ==> vals[i] in Allowed(b, i)
  }

  /** list(allowed_values) once the current value is removed, as numpy shuffles it: the allowed
      values other than the current one, each once, in some order. */
  ghost predicate Listing(b: Boundaries, vals: seq<int>, i: nat, listing: seq<int>)
    requires i < |vals| && i < |b.mins| && i < |b.maxs|
  {
    Distinct(listing) && forall x :: x in listing <==> x in Allowed(b, i) && x != vals[i]
  }

  /** The listings a substitution enumeration is given: one per attribute whose value is in range. */
  ghost predicate ListingsFor(b: Boundaries, vals: seq<int>, listings: seq<seq<int>>)
    requires |vals| <= |b.mins| && |vals| <= |b.maxs|
  {
    |listings| == |vals| &&
    forall i :: 0 <= i < |vals| && vals[i] in Allowed(b, i) ==> Listing(b, vals, i, listings[i])
  }

  /** A discrete solution whose values all lie in range, with its listings. */
  ghost predicate SubstitutionSetting(s: Solution<int>, listings: seq<seq<int>>) {
    s.encoding.DiscreteEncoding? && ValidEncoding(s.encoding) &&
    |s.values| == |s.encoding.bounds.mins| &&
    AllAllowed(s.encoding.bounds, s.values) && ListingsFor(s.encoding.bounds, s.values, listings)
  }

  /** [(i, x) for x in listing]. */
  function SubstGroup(i: nat, listing: seq<int>): (g: seq<(nat, int)>)
    ensures |g| == |listing| && forall t :: 0 <= t < |g| ==> g[t] == (i, listing[t])
    ensures Distinct(listing) ==> Distinct(g)
  {
    seq(|listing|, t requires 0 <= t < |listing| => (i, listing[t]))
  }

  lemma InSubstGroup(i: nat, listing: seq<int>, x: (nat, int))
    ensures x in SubstGroup(i, listing) <==> x.0 == i && x.1 in listing
  {
    if x.0 == i && x.1 in listing {
      var t :| 0 <= t < |listing| && listing[t] == x.1;
      assert SubstGroup(i, listing)[t] == x;
    }
  }

  /** all_possibilities: the group of attribute i holds its substitutions. */
  function SubstGroups(listings: seq<seq<int>>): (gs: seq<seq<(nat, int)>>)
    ensures |gs| == |listings| && forall i :: 0 <= i < |gs| ==> gs[i] == SubstGroup(i, listings[i])
  {
    seq(|listings|, i requires 0 <= i < |listings| => SubstGroup(i, listings[i]))
  }

  function Firsts<U>(c: seq<(nat, U)>): (r: seq<nat>)
    ensures |r| == |c| && forall t :: 0 <= t < |c| ==> r[t] == c[t].0
  {
    seq(|c|, t requires 0 <= t < |c| => c[t].0)
  }

  function Seconds<U>(c: seq<(nat, U)>): (r: seq<U>)
    ensures |r| == |c| && forall t :: 0 <= t < |c| ==> r[t] == c[t].1
  {
    seq(|c|, t requires 0 <= t < |c| => c[t].1)
  }

  /** A list of substitutions move_substitution can make in one neighbour: step attributes in
      increasing order, each given an allowed value other than its current one. */
  predicate SubstitutionTuple(s: Solution<int>, step: nat, c: seq<(nat, int)>)
    requires s.encoding.DiscreteEncoding? && ValidEncoding(s.encoding) && |s.values| == |s.encoding.bounds.mins|
  {
    |c| == step && Increasing(Firsts(c)) && Within(Firsts(c), 0, |s.values|) &&
    forall t :: 0 <= t < |c| ==>
      c[t].1 in Allowed(s.encoding.bounds, c[t].0) && c[t].1 != s.values[c[t].0]
  }

  /** all_subst: the tuples of product(*comb) for each comb of combinations(groups, step). */
  function AllSubstitutions(groups: seq<seq<(nat, int)>>, step: nat): seq<seq<(nat, int)>> {
    Concat(Products(Combinations(groups, step)))
  }

  /** The product of the k-th combination of groups holds the substitution tuples whose
      attributes are the k-th increasing tuple of positions. */
  lemma InComboProduct(s: Solution<int>, listings: seq<seq<int>>, step: nat, k: nat, c: seq<(nat, int)>)
    requires SubstitutionSetting(s, listings)
    requires k < |Combinations(SubstGroups(listings), step)|
    ensures c in Product(Combinations(SubstGroups(listings), step)[k]) <==>
              SubstitutionTuple(s, step, c) && Firsts(c) == IndexCombos(0, |s.values|, step)[k]
  {
    var gs := SubstGroups(listings);
    var b := s.encoding.bounds;
    CombinationAt(gs, step, k);
    var pos := IndexCombos(0, |gs|, step)[k];
    var comb := Pick(gs, pos);
    ProductMembers(comb, c);
    if c in Product(comb) {
      forall t | 0 <= t < |c|
        ensures c[t].0 == pos[t] && c[t].1 in listings[pos[t]]
      {
        InSubstGroup(pos[t], listings[pos[t]], c[t]);
      }
      assert Firsts(c) == pos;
      forall t | 0 <= t < |c|
        ensures c[t].1 in Allowed(b, c[t].0) && c[t].1 != s.values[c[t].0]
      {
        assert Listing(b, s.values, pos[t], listings[pos[t]]);
      }
    }
    if SubstitutionTuple(s, step, c) && Firsts(c) == pos {
      forall t | 0 <= t < |comb|
        ensures c[t] in comb[t]
      {
        assert Listing(b, s.values, pos[t], listings[pos[t]]);
        InSubstGroup(pos[t], listings[pos[t]], c[t]);
      }
    }
  }

  /** all_subst holds exactly the substitution tuples. */
  lemma AllSubstitutionsMembers(s: Solution<int>, listings: seq<seq<int>>, step: nat, c: seq<(nat, int)>)
    requires SubstitutionSetting(s, listings)
    ensures c in AllSubstitutions(SubstGroups(listings), step) <==> SubstitutionTuple(s, step, c)
  {
    var gs := SubstGroups(listings);
    var ps := Products(Combinations(gs, step));
    ConcatMembers(ps, c);
    if c in Concat(ps) {
      var k :| 0 <= k < |ps| && c in ps[k];
      InComboProduct(s, listings, step, k, c);
    }
    if SubstitutionTuple(s, step, c) {
      IndexCombosMembers(0, |s.values|, step, Firsts(c));
      var k :| 0 <= k < |IndexCombos(0, |s.values|, step)| && IndexCombos(0, |s.values|, step)[k] == Firsts(c);
      InComboProduct(s, listings, step, k, c);
      assert c in ps[k];
    }
  }

  /** all_subst holds each substitution tuple once. */
  lemma AllSubstitutionsDistinct(s: Solution<int>, listings: seq<seq<int>>, step: nat)
    requires SubstitutionSetting(s, listings)
    ensures Distinct(AllSubstitutions(SubstGroups(listings), step))
  {
    var gs := SubstGroups(listings);
    var combs := Combinations(gs, step);
    var ps := Products(combs);
    forall k | 0 <= k < |ps|
      ensures Distinct(ps[k])
    {
      CombinationAt(gs, step, k);
      var pos := IndexCombos(0, |gs|, step)[k];
      forall t | 0 <= t < |combs[k]|
        ensures Distinct(combs[k][t])
      {
        assert combs[k][t] == SubstGroup(pos[t], listings[pos[t]]);
        assert Listing(s.encoding.bounds, s.values, pos[t], listings[pos[t]]);
      }
      ProductDistinct(combs[k]);
    }
    IndexCombosDistinct(0, |s.values|, step);
    forall k1, k2, x | 0 <= k1 < k2 < |ps| && x in ps[k1]
      ensures x !in ps[k2]
    {
      InComboProduct(s, listings, step, k1, x);
      InComboProduct(s, listings, step, k2, x);
    }
    ConcatDistinct(ps);
  }

  /** The substitutions move_substitution makes: all_subst shuffled, then the first nb. None is
      repeated, and without a cap every substitution tuple is there. */
  function SubstCandidates(s: Solution<int>, listings: seq<seq<int>>, step: nat, js: seq<nat>, nb: Option<int>)
    : (cs: seq<seq<(nat, int)>>)
    requires SubstitutionSetting(s, listings)
    ensures Distinct(cs)
    ensures forall c :: c in cs ==> SubstitutionTuple(s, step, c)
    ensures forall k :: 0 <= k < |cs| ==> Below(Firsts(cs[k]), |s.values|)
    ensures nb.None? ==> forall c :: c in cs <==> SubstitutionTuple(s, step, c)
    ensures var total := |AllSubstitutions(SubstGroups(listings), step)|;
            (nb.None? ==> |cs| == total) &&
            (nb.Some? && nb.value >= 0 ==> |cs| == if nb.value < total then nb.value else total)
  {
    var all := AllSubstitutions(SubstGroups(listings), step);
    AllSubstitutionsDistinct(s, listings, step);
    var shuffled := Shuffle(all, js);
    forall c
      ensures c in shuffled <==> SubstitutionTuple(s, step, c)
    {
      ShuffleMembers(all, js, c);
      AllSubstitutionsMembers(s, listings, step, c);
    }
    var cs := Capped(shuffled, nb);
    PrefixFacts(shuffled, |cs|);
    assert forall k :: 0 <= k < |cs| ==> cs[k] in shuffled;
    cs
  }

  /** The loop of move_substitution for one tuple: each attribute of the copy is given its new
      value, and the change from the source's value is recorded. */
  method Substitute(s: Solution<int>, c: seq<(nat, int)>) returns (n: Neighbor<int>)
    requires Below(Firsts(c), |s.values|)
    ensures n == SubstitutionNeighbor(s, Firsts(c), Seconds(c))
  {
    var vals := s.values;
    var neighbor := new int[|vals|](k requires 0 <= k < |vals| => vals[k]);
    var modifs := new Modifs();
    ghost var edits := SubstitutionEdits(vals, Firsts(c), Seconds(c));
    for t := 0 to |c|
      invariant modifs.Valid() && modifs.Snapshot() == RecordAll(edits[..t])
      invariant neighbor[..] == Apply(vals, edits[..t])
    {
      var (index, value) := c[t];
      ApplyStep(vals, edits, t);
      neighbor[index] := value;
      modifs.AddModif(index, vals[index], value);
    }
    assert edits[..|c|] == edits;
    n := Neighbor(Solution(neighbor[..], s.encoding, s.fitness), modifs.Snapshot());
  }

  /** The loop of move_substitution over the kept tuples. */
  method SubstituteEach(s: Solution<int>, cands: seq<seq<(nat, int)>>) returns (out: seq<Neighbor<int>>)
    requires forall u :: 0 <= u < |cands| ==> Below(Firsts(cands[u]), |s.values|)
    ensures |out| == |cands|
    ensures forall k :: 0 <= k < |cands| ==> out[k] == SubstitutionNeighbor(s, Firsts(cands[k]), Seconds(cands[k]))
  {
    out := [];
    for k := 0 to |cands|
      invariant |out| == k
      invariant forall u :: 0 <= u < k ==> out[u] == SubstitutionNeighbor(s, Firsts(cands[u]), Seconds(cands[u]))
    {
      var n := Substitute(s, cands[k]);
      out := out + [n];
    }
  }

  /** move_substitution: a discrete solution is required; removing a current value outside its
      range raises KeyError, and combinations refuses a negative step (ValueError). Otherwise a
      copy is made for each kept tuple, with its substitutions made and recorded. */
  method EnumSubstitution(s: Solution<int>, step: int, nb: Option<int>, listings: seq<seq<int>>, js: seq<nat>)
    returns (r: Result<seq<Neighbor<int>>>)
    requires s.encoding.DiscreteEncoding? ==>
               ValidEncoding(s.encoding) && |s.values| == |s.encoding.bounds.mins| &&
               ListingsFor(s.encoding.bounds, s.values, listings)
    ensures !s.encoding.DiscreteEncoding? ==> r == Failure(NotImplementedError)
    ensures s.encoding.DiscreteEncoding? && !AllAllowed(s.encoding.bounds, s.values) ==> r == Failure(KeyError)
    ensures s.encoding.DiscreteEncoding? && AllAllowed(s.encoding.bounds, s.values) && step < 0 ==>
              r == Failure(ValueError)
    ensures s.encoding.DiscreteEncoding? && AllAllowed(s.encoding.bounds, s.values) && step >= 0 ==>
              var cands := SubstCandidates(s, listings, step, js, nb);
              r.Success? && |r.value| == |cands| &&
              forall k :: 0 <= k < |cands| ==>
                r.value[k] == SubstitutionNeighbor(s, Firsts(cands[k]), Seconds(cands[k]))
  {
    if !s.encoding.DiscreteEncoding? {
      return Failure(NotImplementedError);
    }
    var vals, b := s.values, s.encoding.bounds;
    var groups: seq<seq<(nat, int)>> := [];
    for i := 0 to |vals|
      invariant |groups| == i && forall u :: 0 <= u < i ==> groups[u] == SubstGroup(u, listings[u])
      invariant forall u :: 0 <= u < i ==> vals[u] in Allowed(b, u)
    {
      var allowed := IntRange(Lo(b, i), Hi(b, i));
      if vals[i] !in allowed {
        return Failure(KeyError);
      }
      groups := groups + [SubstGroup(i, listings[i])];
    }
    assert groups == SubstGroups(listings);
    if step < 0 {
      return Failure(ValueError);
    }
    var combs := Combinations(groups, step);
    var all: seq<seq<(nat, int)>> := [];
    for k := 0 to |combs|
      invariant all == Concat(Products(combs)[..k])
    {
      ConcatStep(Products(combs), k);
      all := all + Product(combs[k]);
    }
    assert Products(combs)[..|combs|] == Products(combs);
    all := Shuffle(all, js);
    var cands := Capped(all, nb);
    assert cands == SubstCandidates(s, listings, step, js, nb);
    var out := SubstituteEach(s, cands);
    return Success(out);
  }

  /** A substitution tuple is a draw the single-draw move accepts, and none of its attributes
      fails. */
  lemma TupleIsDraw(s: Solution<int>, listings: seq<seq<int>>, step: nat, c: seq<(nat, int)>)
    requires SubstitutionSetting(s, listings) && SubstitutionTuple(s, step, c)
    ensures SubstitutionDraws(s, step, Firsts(c), Seconds(c))
    ensures FailureFrom(s.encoding.bounds, s.values, Firsts(c), 0).None?
  {
    var b, pos := s.encoding.bounds, Firsts(c);
    assert Distinct(pos) by {
      forall p, q | 0 <= p < q < |pos|
        ensures pos[p] != pos[q]
      {
        assert pos[p] < pos[q];
      }
    }
    forall u | 0 <= u < |pos|
      ensures SubstitutionOutcome(b, s.values, pos[u]) == Pass
    {
      assert c[u].1 in Allowed(b, pos[u]) - {s.values[pos[u]]};
    }
    FailureFromSpec(b, s.values, pos, 0);
  }

  /** A substitution neighbour gives each attribute of the tuple its new value and leaves the
      others alone, so it stays in range and lies at Hamming distance step from the source; its
      record lists the attributes in order, holds the source's values and replays onto it. */
  lemma SubstNeighborFacts(s: Solution<int>, listings: seq<seq<int>>, step: nat, c: seq<(nat, int)>)
    requires SubstitutionSetting(s, listings) && SubstitutionTuple(s, step, c)
    ensures var n := SubstitutionNeighbor(s, Firsts(c), Seconds(c));
            (forall t :: 0 <= t < |c| ==> n.solution.values[c[t].0] == c[t].1) &&
            (forall k :: 0 <= k < |s.values| ==> (n.solution.values[k] != s.values[k] <==> k in Firsts(c))) &&
            |n.solution.values| == |s.values| && AllAllowed(s.encoding.bounds, n.solution.values) &&
            HammingDistance(s.values, n.solution.values) == Success(step) &&
            n.modifs.order == Firsts(c) && Consistent(s.values, n.modifs) &&
            Replay(s.values, n.modifs) == n.solution.values
  {
    TupleIsDraw(s, listings, step, c);
    SubstitutionNeighborChanges(s, step, Firsts(c), Seconds(c));
    SubstitutionNeighborRecord(s, step, Firsts(c), Seconds(c));
    var n := SubstitutionNeighbor(s, Firsts(c), Seconds(c)).solution;
    forall k | 0 <= k < |s.values|
      ensures n.values[k] in Allowed(s.encoding.bounds, k)
    {
      if k in Firsts(c) {
        var t :| 0 <= t < |c| && Firsts(c)[t] == k;
      }
    }
  }

  /** Different substitution tuples give different neighbours. */
  lemma SubstNeighborsDiffer(s: Solution<int>, listings: seq<seq<int>>, step: nat, c1: seq<(nat, int)>, c2: seq<(nat, int)>)
    requires SubstitutionSetting(s, listings)
    requires SubstitutionTuple(s, step, c1) && SubstitutionTuple(s, step, c2) && c1 != c2
    ensures SubstitutionNeighbor(s, Firsts(c1), Seconds(c1)).solution !=
            SubstitutionNeighbor(s, Firsts(c2), Seconds(c2)).solution
  {
    SubstNeighborFacts(s, listings, step, c1);
    SubstNeighborFacts(s, listings, step, c2);
    var n1 := SubstitutionNeighbor(s, Firsts(c1), Seconds(c1)).solution;
    var n2 := SubstitutionNeighbor(s, Firsts(c2), Seconds(c2)).solution;
    if Firsts(c1) == Firsts(c2) {
      assert (forall t :: 0 <= t < |c1| ==> c1[t] == c2[t]) ==> c1 == c2;
      var t :| 0 <= t < |c1| && c1[t] != c2[t];
      assert Firsts(c1)[t] == Firsts(c2)[t];
      var i, v1, v2 := c1[t].0, c1[t].1, c2[t].1;
      assert c1[t] == (i, v1) && c2[t] == (i, v2);
      assert n1.values[i] == v1 && n2.values[i] == v2;
    } else if n1 == n2 {
      forall x
        ensures x in Firsts(c1) <==> x in Firsts(c2)
      {
        if x in Firsts(c1) {
          var t :| 0 <= t < |c1| && Firsts(c1)[t] == x;
        }
        if x in Firsts(c2) {
          var t :| 0 <= t < |c2| && Firsts(c2)[t] == x;
        }
      }
      IncreasingUnique(Firsts(c1), Firsts(c2));
    }
  }

  /** The neighbours move_substitution yields are pairwise different. */
  lemma EnumSubstitutionDistinct(s: Solution<int>, listings: seq<seq<int>>, step: nat, js: seq<nat>, nb: Option<int>)
    requires SubstitutionSetting(s, listings)
    ensures var cands := SubstCandidates(s, listings, step, js, nb);
            forall p, q :: 0 <= p < q < |cands| ==>
              SubstitutionNeighbor(s, Firsts(cands[p]), Seconds(cands[p])).solution !=
              SubstitutionNeighbor(s, Firsts(cands[q]), Seconds(cands[q])).solution
  {
    var cands := SubstCandidates(s, listings, step, js, nb);
    forall p, q | 0 <= p < q < |cands|
      ensures SubstitutionNeighbor(s, Firsts(cands[p]), Seconds(cands[p])).solution !=
              SubstitutionNeighbor(s, Firsts(cands[q]), Seconds(cands[q])).solution
    {
      assert cands[p] in cands && cands[q] in cands;
      SubstNeighborsDiffer(s, listings, step, cands[p], cands[q]);
    }
  }

  /** Σ (max_val(i) - min_val(i)) over the first n attributes. */
  function SpanSum(b: Boundaries, n: nat): int
    requires n <= |b.mins| && n <= |b.maxs|
  {
    if n == 0 then 0 else SpanSum(b, n - 1) + (Hi(b, n - 1) - Lo(b, n - 1))
  }

  lemma {:induction false} SumLengthsSpan<T>(b: Boundaries, xss: seq<seq<T>>, n: nat)
    requires n <= |xss| && n <= |b.mins| && n <= |b.maxs|
    requires forall i :: 0 <= i < n ==> |xss[i]| == Hi(b, i) - Lo(b, i)
    ensures SumLengths(xss[..n]) == SpanSum(b, n)
  {
    if n > 0 {
      SumLengthsSpan(b, xss, n - 1);
      assert xss[..n][..n - 1] == xss[..n - 1];
    }
  }

  /** The substitutions for attribute i number max_val(i) - min_val(i): all values of the range
      but the current one. */
  lemma ListingLength(b: Boundaries, vals: seq<int>, i: nat, listing: seq<int>)
    requires i < |vals| && i < |b.mins| && i < |b.maxs|
    requires vals[i] in Allowed(b, i) && Listing(b, vals, i, listing)
    ensures |listing| == Hi(b, i) - Lo(b, i)
  {
    IntRangeCard(Lo(b, i), Hi(b, i));
    DistinctCard(listing, Allowed(b, i) - {vals[i]});
  }

  /** With step 1 and no cap, move_substitution yields Σ (max_val(i) - min_val(i)) neighbours. */
  lemma SubstitutionCountStepOne(s: Solution<int>, listings: seq<seq<int>>, js: seq<nat>)
    requires SubstitutionSetting(s, listings)
    ensures |SubstCandidates(s, listings, 1, js, None)| == SpanSum(s.encoding.bounds, |s.values|)
  {
    var b := s.encoding.bounds;
    var gs := SubstGroups(listings);
    var ps := Products(Combinations(gs, 1));
    CombinationsOfOne(gs);
    forall i | 0 <= i < |ps|
      ensures |ps[i]| == Hi(b, i) - Lo(b, i)
    {
      var one: seq<seq<(nat, int)>> := [gs[i]];
      assert one[1..] == [];
      assert ps[i] == Product(one) == ProductWith(gs[i], Product(one[1..]));
      ListingLength(b, s.values, i, listings[i]);
    }
    ConcatLength(ps);
    SumLengthsSpan(b, ps, |ps|);
    assert ps[..|ps|] == ps;
  }

  // ---------------------------------------------------------------------------------------------
  // Swap

  /** [(i, j) for j in range(i + 1, n)]. */
  function PairGroup(i: nat, n: nat): (g: seq<(nat, nat)>)
    ensures |g| == if i + 1 <= n then n - i - 1 else 0
    ensures forall t :: 0 <= t < |g| ==> g[t] == (i, i + 1 + t)
    ensures Distinct(g)
  {
    seq(if i + 1 <= n then n - i - 1 else 0, t => (i, i + 1 + t))
  }

  lemma InPairGroup(i: nat, n: nat, x: (nat, nat))
    ensures x in PairGroup(i, n) <==> x.0 == i && i < x.1 < n
  {
    if x.0 == i && i < x.1 < n {
      assert PairGroup(i, n)[x.1 - i - 1] == x;
    }
  }

  /** all_swaps: for each i in range(n - 1), the pairs that start at i. */
  function PairGroups(n: nat): (gs: seq<seq<(nat, nat)>>)
    ensures |gs| == if n > 0 then n - 1 else 0
    ensures forall i :: 0 <= i < |gs| ==> gs[i] == PairGroup(i, n)
  {
    seq(if n > 0 then n - 1 else 0, i requires 0 <= i => PairGroup(i, n))
  }

  /** The first loops of move_swap, which append the pairs (i, j), j > i, group by group. */
  method BuildPairGroups(n: nat) returns (gs: seq<seq<(nat, nat)>>)
    ensures gs == PairGroups(n)
  {
    gs := [];
    var i := 0;
    while i < n - 1
      invariant 0 <= i <= (if n > 0 then n - 1 else 0) && |gs| == i
      invariant forall u :: 0 <= u < i ==> gs[u] == PairGroup(u, n)
    {
      var possibilities: seq<(nat, nat)> := [];
      var j := i + 1;
      while j < n
        invariant i + 1 <= j <= n && |possibilities| == j - i - 1
        invariant forall t :: 0 <= t < |possibilities| ==> possibilities[t] == (i, i + 1 + t)
      {
        possibilities := possibilities + [(i, j)];
        j := j + 1;
      }
      gs := gs + [possibilities];
      i := i + 1;
    }
    assert |gs| == |PairGroups(n)|;
  }

  /** set(x1) & set(x2) is empty. */
  predicate Apart(x1: (nat, nat), x2: (nat, nat)) {
    x1.0 != x2.0 && x1.0 != x2.1 && x1.1 != x2.0 && x1.1 != x2.1
  }

  /** No two pairs of val share a position. */
  predicate PairwiseDisjoint(val: seq<(nat, nat)>) {
    forall p, q :: 0 <= p < q < |val| ==> Apart(val[p], val[q])
  }

  /** _test_swap_unicity: the pairs of combinations(val, 2), in order, are checked for a shared
      position. */
  method TestSwapUnicity(val: seq<(nat, nat)>) returns (unique: bool)
    ensures unique <==> PairwiseDisjoint(val)
  {
    var p := 0;
    while p < |val|
      invariant 0 <= p <= |val|
      invariant forall p', q :: 0 <= p' < p && p' < q < |val| ==> Apart(val[p'], val[q])
    {
      var q := p + 1;
      while q < |val|
        invariant p + 1 <= q <= |val|
        invariant forall q' :: p < q' < q ==> Apart(val[p], val[q'])
      {
        var x1, x2 := val[p], val[q];
        assert {x1.0, x1.1} * {x2.0, x2.1} == {} <==> Apart(x1, x2) by {
          if !Apart(x1, x2) {
            var y := if x1.0 == x2.0 || x1.0 == x2.1 then x1.0 else x1.1;
            assert y in {x1.0, x1.1} * {x2.0, x2.1};
          }
        }
        if {x1.0, x1.1} * {x2.0, x2.1} != {} {
          return false;
        }
        q := q + 1;
      }
      p := p + 1;
    }
    return true;
  }

  /** filter(_test_swap_unicity, xs). */
  function KeepDisjoint(xs: seq<seq<(nat, nat)>>): (r: seq<seq<(nat, nat)>>)
    ensures forall x :: x in r <==> x in xs && PairwiseDisjoint(x)
    decreases |xs|
  {
    if xs == [] then []
    else
      var init, last := xs[..|xs| - 1], xs[|xs| - 1];
      assert xs == init + [last];
      var kept := KeepDisjoint(init);
      if PairwiseDisjoint(last) then kept + [last] else kept
  }

  /** Filtering a list without repetitions leaves a list without repetitions. */
  lemma {:induction false} KeepDisjointDistinct(xs: seq<seq<(nat, nat)>>)
    requires Distinct(xs)
    ensures Distinct(KeepDisjoint(xs))
    decreases |xs|
  {
    if xs != [] {
      var init, last := xs[..|xs| - 1], xs[|xs| - 1];
      assert Distinct(init) && last !in init by {
        forall p, q | 0 <= p < q < |init|
          ensures init[p] != init[q]
        {
          assert init[p] == xs[p] && init[q] == xs[q];
        }
        assert forall t :: 0 <= t < |init| ==> init[t] == xs[t];
      }
      KeepDisjointDistinct(init);
      DistinctConcat(KeepDisjoint(init), [last]);
    }
  }

  /** The filter loop: a list of tuples keeps those without shared positions, in order. */
  method FilterSwaps(xs: seq<seq<(nat, nat)>>) returns (kept: seq<seq<(nat, nat)>>)
    ensures kept == KeepDisjoint(xs)
  {
    kept := [];
    for u := 0 to |xs|
      invariant kept == KeepDisjoint(xs[..u])
    {
      assert xs[..u + 1][..u] == xs[..u];
      var unique := TestSwapUnicity(xs[u]);
      if unique {
        kept := kept + [xs[u]];
      }
    }
    assert xs[..|xs|] == xs;
  }

  /** A list of swaps move_swap can make in one neighbour: step pairs i < j < n, in increasing
      order of their first positions, no two of which share a position. */
  predicate SwapTuple(n: nat, step: nat, c: seq<(nat, nat)>) {
    |c| == step && Increasing(Firsts(c)) && PairwiseDisjoint(c) &&
    forall t :: 0 <= t < |c| ==> c[t].0 < c[t].1 < n
  }

  /** The filtered product of each combination of groups. */
  function SwapBlocks(combs: seq<seq<seq<(nat, nat)>>>): (bs: seq<seq<seq<(nat, nat)>>>)
    ensures |bs| == |combs| && forall k :: 0 <= k < |combs| ==> bs[k] == KeepDisjoint(Product(combs[k]))
  {
    seq(|combs|, k requires 0 <= k < |combs| => KeepDisjoint(Product(combs[k])))
  }

  /** list_swaps: the filtered tuples of product(*comb) for each comb of combinations(all_swaps,
      step), in order. */
  function AllSwaps(n: nat, step: nat): seq<seq<(nat, nat)>> {
    Concat(SwapBlocks(Combinations(PairGroups(n), step)))
  }

  /** The product of the k-th combination of groups holds the step-tuples of pairs i < j < n
      whose first positions are the k-th increasing tuple. */
  lemma InSwapComboProduct(n: nat, step: nat, k: nat, c: seq<(nat, nat)>)
    requires k < |Combinations(PairGroups(n), step)|
    ensures c in Product(Combinations(PairGroups(n), step)[k]) <==>
              |c| == step && Firsts(c) == IndexCombos(0, |PairGroups(n)|, step)[k] &&
              forall t :: 0 <= t < |c| ==> c[t].0 < c[t].1 < n
  {
    var gs := PairGroups(n);
    CombinationAt(gs, step, k);
    var pos := IndexCombos(0, |gs|, step)[k];
    var comb := Pick(gs, pos);
    ProductMembers(comb, c);
    if c in Product(comb) {
      forall t | 0 <= t < |c|
        ensures c[t].0 == pos[t] && c[t].0 < c[t].1 < n
      {
        InPairGroup(pos[t], n, c[t]);
      }
      assert Firsts(c) == pos;
    }
    if |c| == step && Firsts(c) == pos && forall t :: 0 <= t < |c| ==> c[t].0 < c[t].1 < n {
      forall t | 0 <= t < |comb|
        ensures c[t] in comb[t]
      {
        InPairGroup(pos[t], n, c[t]);
      }
    }
  }

  /** list_swaps holds exactly the swap tuples. */
  lemma AllSwapsMembers(n: nat, step: nat, c: seq<(nat, nat)>)
    ensures c in AllSwaps(n, step) <==> SwapTuple(n, step, c)
  {
    var gs := PairGroups(n);
    var bs := SwapBlocks(Combinations(gs, step));
    ConcatMembers(bs, c);
    if c in Concat(bs) {
      var k :| 0 <= k < |bs| && c in bs[k];
      InSwapComboProduct(n, step, k, c);
      IndexCombosMembers(0, |gs|, step, Firsts(c));
    }
    if SwapTuple(n, step, c) {
      IndexCombosMembers(0, |gs|, step, Firsts(c));
      var k :| 0 <= k < |IndexCombos(0, |gs|, step)| && IndexCombos(0, |gs|, step)[k] == Firsts(c);
      InSwapComboProduct(n, step, k, c);
      assert c in bs[k];
    }
  }

  /** list_swaps holds each swap tuple once. */
  lemma AllSwapsDistinct(n: nat, step: nat)
    ensures Distinct(AllSwaps(n, step))
  {
    var gs := PairGroups(n);
    var combs := Combinations(gs, step);
    var bs := SwapBlocks(combs);
    forall k | 0 <= k < |bs|
      ensures Distinct(bs[k])
    {
      CombinationAt(gs, step, k);
      ProductDistinct(combs[k]);
      KeepDisjointDistinct(Product(combs[k]));
    }
    IndexCombosDistinct(0, |gs|, step);
    forall k1, k2, x | 0 <= k1 < k2 < |bs| && x in bs[k1]
      ensures x !in bs[k2]
    {
      InSwapComboProduct(n, step, k1, x);
      InSwapComboProduct(n, step, k2, x);
    }
    ConcatDistinct(bs);
  }

  /** The pairs of a tuple laid out as move_swap walks them: i, j of the first pair, then of the
      second, and so on. */
  function Flat(c: seq<(nat, nat)>): (r: seq<nat>)
    ensures |r| == 2 * |c|
    ensures forall q :: 0 <= q < |c| ==> r[2 * q] == c[q].0 && r[2 * q + 1] == c[q].1
  {
    seq(2 * |c|, a requires 0 <= a < 2 * |c| => if a % 2 == 0 then c[a / 2].0 else c[a / 2].1)
  }

  lemma FlatAt(c: seq<(nat, nat)>, a: nat)
    requires a < 2 * |c|
    ensures Flat(c)[a] == if a % 2 == 0 then c[a / 2].0 else c[a / 2].1
  {
  }

  /** The positions of a swap tuple are distinct positions of the solution. */
  lemma FlatIsDraw(n: nat, step: nat, c: seq<(nat, nat)>)
    requires SwapTuple(n, step, c)
    ensures DistinctDraw(Flat(c), 2 * step, n) && Below(Flat(c), n)
  {
    var f := Flat(c);
    forall a, b | 0 <= a < b < |f|
      ensures f[a] != f[b]
    {
      FlatAt(c, a);
      FlatAt(c, b);
      var p, q := a / 2, b / 2;
      if p != q {
        assert p < q;
        assert Apart(c[p], c[q]);
      }
    }
  }

  /** The swaps move_swap makes: list_swaps shuffled, then the first nb. None is repeated, and
      without a cap every swap tuple is there. */
  function SwapCandidates(n: nat, step: nat, js: seq<nat>, nb: Option<int>): (cs: seq<seq<(nat, nat)>>)
    ensures Distinct(cs)
    ensures forall c :: c in cs ==> SwapTuple(n, step, c)
    ensures forall k :: 0 <= k < |cs| ==> SwapTuple(n, step, cs[k]) && |Flat(cs[k])| == 2 * step && Below(Flat(cs[k]), n)
    ensures nb.None? ==> forall c :: c in cs <==> SwapTuple(n, step, c)
    ensures var total := |AllSwaps(n, step)|;
            (nb.None? ==> |cs| == total) &&
            (nb.Some? && nb.value >= 0 ==> |cs| == if nb.value < total then nb.value else total)
  {
    var all := AllSwaps(n, step);
    AllSwapsDistinct(n, step);
    var shuffled := Shuffle(all, js);
    forall c
      ensures c in shuffled <==> SwapTuple(n, step, c)
    {
      ShuffleMembers(all, js, c);
      AllSwapsMembers(n, step, c);
    }
    var cs := Capped(shuffled, nb);
    PrefixFacts(shuffled, |cs|);
    forall k | 0 <= k < |cs|
      ensures SwapTuple(n, step, cs[k]) && |Flat(cs[k])| == 2 * step && Below(Flat(cs[k]), n)
    {
      assert cs[k] in shuffled;
      FlatIsDraw(n, step, cs[k]);
    }
    cs
  }

  /** The positions each kept tuple exchanges, pair after pair. */
  function SwapDraws(cands: seq<seq<(nat, nat)>>): (draws: seq<seq<nat>>)
    ensures |draws| == |cands| && forall k :: 0 <= k < |cands| ==> draws[k] == Flat(cands[k])
  {
    seq(|cands|, k requires 0 <= k < |cands| => Flat(cands[k]))
  }

  lemma SwapDrawsValid(n: nat, step: nat, cands: seq<seq<(nat, nat)>>)
    requires forall k :: 0 <= k < |cands| ==> SwapTuple(n, step, cands[k])
    ensures forall k :: 0 <= k < |cands| ==>
              |SwapDraws(cands)[k]| == 2 * step && DistinctDraw(SwapDraws(cands)[k], 2 * step, n) && Below(SwapDraws(cands)[k], n)
  {
    forall k | 0 <= k < |cands|
      ensures DistinctDraw(Flat(cands[k]), 2 * step, n) && Below(Flat(cands[k]), n)
    {
      FlatIsDraw(n, step, cands[k]);
    }
  }

  /** The loop of move_swap over the kept tuples, given as the positions they exchange. */
  method SwapEach(s: Solution<int>, draws: seq<seq<nat>>, step: nat) returns (out: seq<Neighbor<int>>)
    requires forall k :: 0 <= k < |draws| ==>
               |draws[k]| == 2 * step && DistinctDraw(draws[k], 2 * step, |s.values|) && Below(draws[k], |s.values|)
    ensures |out| == |draws|
    ensures forall k :: 0 <= k < |draws| ==> out[k] == SwapNeighbor(s, draws[k], step)
  {
    out := [];
    for k := 0 to |draws|
      invariant |out| == k && forall j :: 0 <= j < k ==> out[j] == SwapNeighbor(s, draws[j], step)
    {
      var n := SwapPositions(s, draws[k], step);
      out := out + [n];
    }
  }

  /** move_swap: a permutation solution is required and combinations refuses a negative step
      (ValueError); otherwise a copy is made for each kept tuple, each pair exchanging the
      source's values, and both positions of each pair are recorded. */
  method EnumSwap(s: Solution<int>, step: int, nb: Option<int>, js: seq<nat>) returns (r: Result<seq<Neighbor<int>>>)
    ensures !s.encoding.PermutationEncoding? ==> r == Failure(NotImplementedError)
    ensures s.encoding.PermutationEncoding? && step < 0 ==> r == Failure(ValueError)
    ensures s.encoding.PermutationEncoding? && step >= 0 ==>
              var cands := SwapCandidates(|s.values|, step, js, nb);
              r.Success? && |r.value| == |cands| &&
              forall k :: 0 <= k < |cands| ==> r.value[k] == SwapNeighbor(s, Flat(cands[k]), step)
  {
    if !s.encoding.PermutationEncoding? {
      return Failure(NotImplementedError);
    }
    var allSwaps := BuildPairGroups(|s.values|);
    if step < 0 {
      return Failure(ValueError);
    }
    var combs := Combinations(allSwaps, step);
    var listSwaps: seq<seq<(nat, nat)>> := [];
    for k := 0 to |combs|
      invariant listSwaps == Concat(SwapBlocks(combs)[..k])
    {
      var kept := FilterSwaps(Product(combs[k]));
      ConcatStep(SwapBlocks(combs), k);
      listSwaps := listSwaps + kept;
    }
    assert SwapBlocks(combs)[..|combs|] == SwapBlocks(combs);
    listSwaps := Shuffle(listSwaps, js);
    var cands := Capped(listSwaps, nb);
    assert cands == SwapCandidates(|s.values|, step, js, nb);
    SwapDrawsValid(|s.values|, step, cands);
    var out := SwapEach(s, SwapDraws(cands), step);
    return Success(out);
  }

  /** Filtering keeps a list none of whose tuples shares a position. */
  lemma {:induction false} KeepDisjointAll(xs: seq<seq<(nat, nat)>>)
    requires forall x :: x in xs ==> PairwiseDisjoint(x)
    ensures KeepDisjoint(xs) == xs
    decreases |xs|
  {
    if xs != [] {
      var init := xs[..|xs| - 1];
      assert forall x :: x in init ==> x in xs;
      KeepDisjointAll(init);
      assert xs == init + [xs[|xs| - 1]];
    }
  }

  /** Lists of lengths n - 1, n - 2, ... add up to m (2n - 1 - m) / 2 after m of them. */
  lemma {:induction false} SumLengthsTriangle<T>(xss: seq<seq<T>>, n: nat, m: nat)
    requires m <= |xss| && m <= n
    requires forall i :: 0 <= i < m ==> |xss[i]| + i + 1 == n
    ensures 2 * SumLengths(xss[..m]) == m * (2 * n - 1 - m)
  {
    if m > 0 {
      SumLengthsTriangle(xss, n, m - 1);
      assert xss[..m][..m - 1] == xss[..m - 1];
      assert (m - 1) * (2 * n - m) + 2 * (n - m) == m * (2 * n - 1 - m);
    }
  }

  /** With step 1 and no cap, move_swap yields n (n - 1) / 2 neighbours, one per pair i < j. */
  lemma SwapCountStepOne(n: nat, js: seq<nat>)
    ensures 2 * |SwapCandidates(n, 1, js, None)| == n * (n - 1)
  {
    var bs := SwapBlocks(Combinations(PairGroups(n), 1));
    StepOneBlocks(n);
    ConcatLength(bs);
    assert |SwapCandidates(n, 1, js, None)| == |AllSwaps(n, 1)| == SumLengths(bs);
    if n > 0 {
      TriangleSum(bs, n);
    }
  }

  /** With step 1, block k holds the n - 1 - k pairs (k, j), j > k. */
  lemma StepOneBlocks(n: nat)
    ensures var bs := SwapBlocks(Combinations(PairGroups(n), 1));
            |bs| == (if n > 0 then n - 1 else 0) && forall k :: 0 <= k < |bs| ==> |bs[k]| + k + 1 == n
  {
    var gs := PairGroups(n);
    var bs := SwapBlocks(Combinations(gs, 1));
    CombinationsOfOne(gs);
    forall k | 0 <= k < |bs|
      ensures |bs[k]| + k + 1 == n
    {
      var one: seq<seq<(nat, nat)>> := [gs[k]];
      assert one[1..] == [];
      assert Product(one) == ProductWith(gs[k], Product(one[1..]));
      forall x | x in Product(one)
        ensures PairwiseDisjoint(x)
      {
        ProductMembers(one, x);
      }
      KeepDisjointAll(Product(one));
    }
  }

  /** Blocks of lengths n - 1, n - 2, ..., 0 add up to n (n - 1) / 2. */
  lemma TriangleSum<T>(bs: seq<seq<T>>, n: nat)
    requires n > 0 && |bs| == n - 1 && forall k :: 0 <= k < |bs| ==> |bs[k]| + k + 1 == n
    ensures 2 * SumLengths(bs) == n * (n - 1)
  {
    var m := |bs|;
    SumLengthsTriangle(bs, n, m);
    assert bs[..m] == bs;
    var w := 2 * n - 1 - m;
    assert w == n;
    assert m * w == (n - 1) * n;
  }

  /** A swap neighbour exchanges the source's values at the two positions of each pair and keeps
      every other position, so it holds the same values, and it carries the source's fitness. */
  lemma SwapTupleValues(s: Solution<int>, step: nat, c: seq<(nat, nat)>)
    requires SwapTuple(|s.values|, step, c) && Below(Flat(c), |s.values|)
    ensures var n := SwapNeighbor(s, Flat(c), step).solution;
            n.encoding == s.encoding && n.fitness == s.fitness &&
            multiset(n.values) == multiset(s.values) &&
            (forall q :: 0 <= q < step ==> n.values[c[q].0] == s.values[c[q].1] && n.values[c[q].1] == s.values[c[q].0]) &&
            (forall k :: 0 <= k < |s.values| && k !in Flat(c) ==> n.values[k] == s.values[k])
  {
    FlatIsDraw(|s.values|, step, c);
    SwapNeighborChanges(s, Flat(c), step);
    var f := Flat(c);
    assert forall q :: 0 <= q < step ==> f[2 * q] == c[q].0 && f[2 * q + 1] == c[q].1;
  }

  /** The record of a swap neighbour lists the positions pair by pair, each with the source's
      value before and the partner's after, and replays onto the source. */
  lemma SwapTupleRecord(s: Solution<int>, step: nat, c: seq<(nat, nat)>)
    requires SwapTuple(|s.values|, step, c) && Below(Flat(c), |s.values|)
    ensures var n := SwapNeighbor(s, Flat(c), step);
            n.modifs.order == Flat(c) && |n.modifs.entries| == 2 * step &&
            (forall q :: 0 <= q < step ==>
               c[q].0 in n.modifs.entries && c[q].1 in n.modifs.entries &&
               n.modifs.entries[c[q].0] == Change(s.values[c[q].0], s.values[c[q].1]) &&
               n.modifs.entries[c[q].1] == Change(s.values[c[q].1], s.values[c[q].0])) &&
            Replay(s.values, n.modifs) == n.solution.values
  {
    var f := Flat(c);
    FlatIsDraw(|s.values|, step, c);
    SwapRecordOrder(s, f, step);
    forall q | 0 <= q < step
      ensures var l := SwapNeighbor(s, f, step).modifs;
              c[q].0 in l.entries && c[q].1 in l.entries &&
              l.entries[c[q].0] == Change(s.values[c[q].0], s.values[c[q].1]) &&
              l.entries[c[q].1] == Change(s.values[c[q].1], s.values[c[q].0])
    {
      SwapRecordEntries(s, f, step, q);
    }
    ReplayRecordAll(s.values, SwapEdits(s.values, f, step));
    SwapEditsArePairSwaps(s.values, f, step);
  }

  /** On a solution without repeated values, a swap neighbour lies at Hamming distance 2 * step
      from the source and every record changes its position. */
  lemma SwapTupleChanges(s: Solution<int>, step: nat, c: seq<(nat, nat)>)
    requires SwapTuple(|s.values|, step, c) && Below(Flat(c), |s.values|) && Distinct(s.values)
    ensures var n := SwapNeighbor(s, Flat(c), step);
            HammingDistance(s.values, n.solution.values) == Success(2 * step) &&
            forall k :: k in n.modifs.entries ==> n.modifs.entries[k].before != n.modifs.entries[k].after
  {
    FlatIsDraw(|s.values|, step, c);
    SwapNeighborDistance(s, Flat(c), step);
    SwapRecordChanges(s, Flat(c), step);
  }

  /** On a solution without repeated values, a position that starts a pair of c1 but no pair of
      c2 holds different values in the two neighbours. */
  lemma SwapFirstNotIn(s: Solution<int>, step: nat, c1: seq<(nat, nat)>, c2: seq<(nat, nat)>, t: nat)
    requires Distinct(s.values) && t < |c1|
    requires SwapTuple(|s.values|, step, c1) && Below(Flat(c1), |s.values|)
    requires SwapTuple(|s.values|, step, c2) && Below(Flat(c2), |s.values|)
    ensures c1[t].0 !in Firsts(c2) ==>
              SwapNeighbor(s, Flat(c1), step).solution.values[c1[t].0] !=
              SwapNeighbor(s, Flat(c2), step).solution.values[c1[t].0]
  {
    var x := c1[t].0;
    if x !in Firsts(c2) {
      SwapTupleValues(s, step, c1);
      SwapTupleValues(s, step, c2);
      var v, n2 := s.values, SwapNeighbor(s, Flat(c2), step).solution.values;
      if x in Flat(c2) {
        var a :| 0 <= a < |Flat(c2)| && Flat(c2)[a] == x;
        FlatAt(c2, a);
        var u := a / 2;
        assert a % 2 != 0 by {
          assert Firsts(c2)[u] == c2[u].0;
        }
        assert n2[x] == v[c2[u].0] && c2[u].0 < x;
      }
    }
  }

  /** Two swap tuples with the same first positions but different partners give neighbours that
      differ at a shared first position, when the source has no repeated values. */
  lemma SwapSameFirsts(s: Solution<int>, step: nat, c1: seq<(nat, nat)>, c2: seq<(nat, nat)>)
    requires Distinct(s.values) && c1 != c2 && Firsts(c1) == Firsts(c2)
    requires SwapTuple(|s.values|, step, c1) && Below(Flat(c1), |s.values|)
    requires SwapTuple(|s.values|, step, c2) && Below(Flat(c2), |s.values|)
    ensures SwapNeighbor(s, Flat(c1), step).solution.values != SwapNeighbor(s, Flat(c2), step).solution.values
  {
    assert (forall t :: 0 <= t < |c1| ==> c1[t] == c2[t]) ==> c1 == c2;
    var t :| 0 <= t < |c1| && c1[t] != c2[t];
    assert Firsts(c1)[t] == Firsts(c2)[t];
    var i, j1, j2 := c1[t].0, c1[t].1, c2[t].1;
    SwapPairValue(s, step, c1, t);
    SwapPairValue(s, step, c2, t);
    assert j1 != j2 by {
      assert c1[t] == (i, j1) && c2[t] == (i, j2);
    }
    assert j1 < |s.values| && j2 < |s.values|;
    assert s.values[j1] != s.values[j2] by {
      if j1 < j2 { assert s.values[j1] != s.values[j2]; } else { assert s.values[j2] != s.values[j1]; }
    }
  }

  /** The first position of the q-th pair receives the value of its partner. */
  lemma SwapPairValue(s: Solution<int>, step: nat, c: seq<(nat, nat)>, q: nat)
    requires SwapTuple(|s.values|, step, c) && Below(Flat(c), |s.values|) && q < step
    ensures SwapNeighbor(s, Flat(c), step).solution.values[c[q].0] == s.values[c[q].1]
  {
    SwapTupleValues(s, step, c);
  }

  /** On a solution without repeated values, different swap tuples give different neighbours. */
  lemma SwapNeighborsDiffer(s: Solution<int>, step: nat, c1: seq<(nat, nat)>, c2: seq<(nat, nat)>)
    requires Distinct(s.values) && c1 != c2
    requires SwapTuple(|s.values|, step, c1) && Below(Flat(c1), |s.values|)
    requires SwapTuple(|s.values|, step, c2) && Below(Flat(c2), |s.values|)
    ensures SwapNeighbor(s, Flat(c1), step).solution != SwapNeighbor(s, Flat(c2), step).solution
  {
    var n1 := SwapNeighbor(s, Flat(c1), step).solution;
    var n2 := SwapNeighbor(s, Flat(c2), step).solution;
    if Firsts(c1) == Firsts(c2) {
      SwapSameFirsts(s, step, c1, c2);
    } else if n1 == n2 {
      forall x
        ensures x in Firsts(c1) <==> x in Firsts(c2)
      {
        if x in Firsts(c1) {
          var t :| 0 <= t < |c1| && Firsts(c1)[t] == x;
          SwapFirstNotIn(s, step, c1, c2, t);
        }
        if x in Firsts(c2) {
          var t :| 0 <= t < |c2| && Firsts(c2)[t] == x;
          SwapFirstNotIn(s, step, c2, c1, t);
        }
      }
      IncreasingUnique(Firsts(c1), Firsts(c2));
    }
  }

  /** On a solution without repeated values, the neighbours move_swap yields are pairwise
      different. */
  lemma EnumSwapDistinct(s: Solution<int>, step: nat, js: seq<nat>, nb: Option<int>)
    requires Distinct(s.values)
    ensures var cands := SwapCandidates(|s.values|, step, js, nb);
            forall p, q :: 0 <= p < q < |cands| ==>
              SwapNeighbor(s, Flat(cands[p]), step).solution != SwapNeighbor(s, Flat(cands[q]), step).solution
  {
    var cands := SwapCandidates(|s.values|, step, js, nb);
    forall p, q | 0 <= p < q < |cands|
      ensures SwapNeighbor(s, Flat(cands[p]), step).solution != SwapNeighbor(s, Flat(cands[q]), step).solution
    {
      SwapNeighborsDiffer(s, step, cands[p], cands[q]);
    }
  }
}
