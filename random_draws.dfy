/** numpy's random draws, with the drawn numbers passed in. */
module RandomDraws {
  import opened Modif

  /** The index drawn at step i of numpy.random.shuffle, which walks i from the last position down
      to 1 and swaps position i with a position drawn from [0, i]. A draw outside [0, i], or a
      missing one, stands for drawing i itself (no swap). */
  function DrawAt(js: seq<nat>, i: nat): (j: nat)
    ensures j <= i
  {
    if i < |js| && js[i] <= i then js[i] else i
  }

  function SwapAt<T>(s: seq<T>, i: nat, j: nat): (r: seq<T>)
    requires i < |s| && j < |s|
    ensures |r| == |s| && multiset(r) == multiset(s)
    ensures r[i] == s[j] && r[j] == s[i]
    ensures forall k :: 0 <= k < |s| && k != i && k != j ==> r[k] == s[k]
    ensures Distinct(s) ==> Distinct(r)
  {
    SwapKeepsMultiset(s, i, j);
    SwapKeepsDistinct(s, i, j);
    s[i := s[j]][j := s[i]]
  }

  lemma SwapKeepsMultiset<T>(s: seq<T>, i: nat, j: nat)
    requires i < |s| && j < |s|
    ensures multiset(s[i := s[j]][j := s[i]]) == multiset(s)
  {
    if i != j {
      var t := s[i := s[j]];
      assert multiset(t) == multiset(s) - multiset{s[i]} + multiset{s[j]};
      assert multiset(t[j := s[i]]) == multiset(t) - multiset{s[j]} + multiset{s[i]};
    }
  }

  lemma SwapKeepsDistinct<T>(s: seq<T>, i: nat, j: nat)
    requires i < |s| && j < |s|
    ensures Distinct(s) ==> Distinct(s[i := s[j]][j := s[i]])
  {
    var r := s[i := s[j]][j := s[i]];
    if Distinct(s) {
      assert forall k :: 0 <= k < |s| ==> r[k] == s[if k == i then j else if k == j then i else k];
    }
  }

  /** Steps i - 1 down to 1 of the shuffle. */
  function ShuffleDown<T>(s: seq<T>, js: seq<nat>, i: nat): (r: seq<T>)
    requires i <= |s|
    ensures |r| == |s| && multiset(r) == multiset(s)
    ensures Distinct(s) ==> Distinct(r)
    decreases i
  {
    if i <= 1 then s else ShuffleDown(SwapAt(s, i - 1, DrawAt(js, i - 1)), js, i - 1)
  }

  /** numpy.random.shuffle of a list: a rearrangement of the same elements, so a list without
      repetitions stays without repetitions. */
  function Shuffle<T>(s: seq<T>, js: seq<nat>): (r: seq<T>)
    ensures |r| == |s| && multiset(r) == multiset(s)
    ensures Distinct(s) ==> Distinct(r)
  {
    ShuffleDown(s, js, |s|)
  }

  lemma ShuffleMembers<T>(s: seq<T>, js: seq<nat>, x: T)
    ensures x in Shuffle(s, js) <==> x in s
  {
    assert x in Shuffle(s, js) <==> x in multiset(Shuffle(s, js));
  }

  /** The outcome of numpy.random.choice(n, size, replace=False): size distinct positions of [0, n). */
  predicate DistinctDraw(draws: seq<nat>, size: nat, n: nat) {
    |draws| == size && Distinct(draws) && forall t :: 0 <= t < |draws| ==> draws[t] < n
  }
}
