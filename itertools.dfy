/** The parts of Python's itertools the enumerating moves use: combinations and product, which
    yield tuples (sequences here) in lexicographic order of the positions they take, and the
    concatenation of lists built with `+=`. */
module Itertools {
  import opened Modif

  /** range(lo, hi). */
  function Range(lo: nat, hi: nat): (r: seq<nat>)
    ensures |r| == if lo <= hi then hi - lo else 0
    ensures forall t :: 0 <= t < |r| ==> r[t] == lo + t
    decreases hi - lo
  {
    if lo >= hi then [] else [lo] + Range(lo + 1, hi)
  }

  /** Each sequence of cs with x put in front. */
  function Prepend<T>(x: T, cs: seq<seq<T>>): (r: seq<seq<T>>)
    ensures |r| == |cs| && forall i :: 0 <= i < |cs| ==> r[i] == [x] + cs[i]
  {
    seq(|cs|, i requires 0 <= i < |cs| => [x] + cs[i])
  }

  predicate Increasing(c: seq<nat>) {
    forall p, q :: 0 <= p < q < |c| ==> c[p] < c[q]
  }

  predicate Within(c: seq<nat>, lo: nat, hi: nat) {
    forall t :: 0 <= t < |c| ==> lo <= c[t] < hi
  }

  /** The binomial coefficient by Pascal's rule. */
  function Binom(n: nat, k: nat): nat {
    if k == 0 then 1
    else if n == 0 then 0
    else Binom(n - 1, k - 1) + Binom(n - 1, k)
  }

  /** The increasing r-tuples of positions in [lo, hi), in the order itertools.combinations
      yields them: those that take lo first, then those that do not. */
  function IndexCombos(lo: nat, hi: nat, r: nat): seq<seq<nat>>
    decreases hi - lo
  {
    if r == 0 then [[]]
    else if lo >= hi then []
    else Prepend(lo, IndexCombos(lo + 1, hi, r - 1)) + IndexCombos(lo + 1, hi, r)
  }

  lemma PrependMember<T>(x: T, cs: seq<seq<T>>, c: seq<T>)
    ensures c in Prepend(x, cs) <==> c != [] && c[0] == x && c[1..] in cs
  {
    if c != [] && c[0] == x && c[1..] in cs {
      var i :| 0 <= i < |cs| && cs[i] == c[1..];
      assert Prepend(x, cs)[i] == c;
    }
  }

  /** The tuples are exactly the increasing r-tuples of positions in [lo, hi). */
  lemma IndexCombosMembers(lo: nat, hi: nat, r: nat, c: seq<nat>)
    ensures c in IndexCombos(lo, hi, r) <==> |c| == r && Increasing(c) && Within(c, lo, hi)
  {
    if c in IndexCombos(lo, hi, r) {
      IndexCombosSound(lo, hi, r, c);
    }
    if |c| == r && Increasing(c) && Within(c, lo, hi) {
      IndexCombosComplete(lo, hi, r, c);
    }
  }

  lemma {:induction false} IndexCombosSound(lo: nat, hi: nat, r: nat, c: seq<nat>)
    requires c in IndexCombos(lo, hi, r)
    ensures |c| == r && Increasing(c) && Within(c, lo, hi)
    decreases hi - lo
  {
    if r != 0 && lo < hi {
      var pre := IndexCombos(lo + 1, hi, r - 1);
      if c in Prepend(lo, pre) {
        PrependMember(lo, pre, c);
        var tl := c[1..];
        IndexCombosSound(lo + 1, hi, r - 1, tl);
        assert forall t :: 1 <= t < |c| ==> c[t] == tl[t - 1];
        forall p, q | 0 <= p < q < |c|
          ensures c[p] < c[q]
        {
          if p > 0 {
            assert tl[p - 1] < tl[q - 1];
          } else {
            assert lo + 1 <= tl[q - 1];
          }
        }
      } else {
        IndexCombosSound(lo + 1, hi, r, c);
      }
    }
  }

  lemma {:induction false} IndexCombosComplete(lo: nat, hi: nat, r: nat, c: seq<nat>)
    requires |c| == r && Increasing(c) && Within(c, lo, hi)
    ensures c in IndexCombos(lo, hi, r)
    decreases hi - lo
  {
    if r == 0 {
      assert c == [];
    } else {
      assert lo <= c[0] < hi;
      var tl := c[1..];
      assert forall t :: 1 <= t < |c| ==> c[t] == tl[t - 1];
      assert Increasing(tl);
      if c[0] == lo {
        forall t | 0 <= t < |tl|
          ensures lo + 1 <= tl[t] < hi
        {
          assert c[0] < c[t + 1];
        }
        IndexCombosComplete(lo + 1, hi, r - 1, tl);
        PrependMember(lo, IndexCombos(lo + 1, hi, r - 1), c);
      } else {
        forall t | 0 <= t < |c|
          ensures lo + 1 <= c[t]
        {
          if t > 0 {
            assert c[0] < c[t];
          }
        }
        IndexCombosComplete(lo + 1, hi, r, c);
      }
    }
  }

  /** There are C(hi - lo, r) of them. */
  lemma {:induction false} IndexCombosCount(lo: nat, hi: nat, r: nat)
    ensures |IndexCombos(lo, hi, r)| == Binom(if lo <= hi then hi - lo else 0, r)
    decreases hi - lo
  {
    if r != 0 && lo < hi {
      IndexCombosCount(lo + 1, hi, r - 1);
      IndexCombosCount(lo + 1, hi, r);
    }
  }

  lemma DistinctConcat<T>(a: seq<T>, b: seq<T>)
    requires Distinct(a) && Distinct(b) && forall x :: x in a ==> x !in b
    ensures Distinct(a + b)
  {
    var ab := a + b;
    forall p, q | 0 <= p < q < |ab|
      ensures ab[p] != ab[q]
    {
      if p < |a| && q >= |a| {
        assert ab[p] in a && ab[q] == b[q - |a|];
      }
    }
  }

  lemma PrependDistinct<T>(x: T, cs: seq<seq<T>>)
    requires Distinct(cs)
    ensures Distinct(Prepend(x, cs))
  {
    var a := Prepend(x, cs);
    forall p, q | 0 <= p < q < |a|
      ensures a[p] != a[q]
    {
      assert a[p][1..] == cs[p] && a[q][1..] == cs[q];
    }
  }

  /** No tuple is yielded twice. */
  lemma {:induction false} IndexCombosDistinct(lo: nat, hi: nat, r: nat)
    ensures Distinct(IndexCombos(lo, hi, r))
    decreases hi - lo
  {
    if r != 0 && lo < hi {
      var a, b := Prepend(lo, IndexCombos(lo + 1, hi, r - 1)), IndexCombos(lo + 1, hi, r);
      IndexCombosDistinct(lo + 1, hi, r - 1);
      IndexCombosDistinct(lo + 1, hi, r);
      PrependDistinct(lo, IndexCombos(lo + 1, hi, r - 1));
      forall c | c in a
        ensures c !in b
      {
        PrependMember(lo, IndexCombos(lo + 1, hi, r - 1), c);
        IndexCombosMembers(lo + 1, hi, r, c);
      }
      DistinctConcat(a, b);
    }
  }

  /** The elements of xs at the positions pos, in that order. */
  function Pick<T>(xs: seq<T>, pos: seq<nat>): (r: seq<T>)
    requires forall t :: 0 <= t < |pos| ==> pos[t] < |xs|
    ensures |r| == |pos| && forall t :: 0 <= t < |pos| ==> r[t] == xs[pos[t]]
  {
    seq(|pos|, t requires 0 <= t < |pos| => xs[pos[t]])
  }

  /** itertools.combinations(xs, r): the elements of xs at each increasing r-tuple of positions,
      in the order of the tuples, as the documented pure-Python equivalent computes it. */
  function Combinations<T>(xs: seq<T>, r: nat): (cs: seq<seq<T>>)
    ensures |cs| == |IndexCombos(0, |xs|, r)|
  {
    var ps := IndexCombos(0, |xs|, r);
    assert forall k, t :: 0 <= k < |ps| && 0 <= t < |ps[k]| ==> ps[k][t] < |xs| by {
      forall k | 0 <= k < |ps|
        ensures Within(ps[k], 0, |xs|)
      {
        IndexCombosMembers(0, |xs|, r, ps[k]);
      }
    }
    seq(|ps|, k requires 0 <= k < |ps| => Pick(xs, ps[k]))
  }

  /** Combination k takes the elements at the k-th increasing tuple of positions. */
  lemma CombinationAt<T>(xs: seq<T>, r: nat, k: nat)
    requires k < |Combinations(xs, r)|
    ensures var pos := IndexCombos(0, |xs|, r)[k];
            |pos| == r && Increasing(pos) && Within(pos, 0, |xs|) &&
            Combinations(xs, r)[k] == Pick(xs, pos)
  {
    IndexCombosMembers(0, |xs|, r, IndexCombos(0, |xs|, r)[k]);
  }

  /** combinations(range(n), r) yields every increasing r-tuple of positions below n, each once,
      and C(n, r) of them. */
  lemma IndexCombinations(n: nat, r: nat)
    ensures Combinations(Range(0, n), r) == IndexCombos(0, n, r)
    ensures |Combinations(Range(0, n), r)| == Binom(n, r)
    ensures Distinct(Combinations(Range(0, n), r))
    ensures forall c :: c in Combinations(Range(0, n), r) <==> |c| == r && Increasing(c) && Within(c, 0, n)
  {
    var ps := IndexCombos(0, n, r);
    forall k | 0 <= k < |ps|
      ensures Combinations(Range(0, n), r)[k] == ps[k]
    {
      CombinationAt(Range(0, n), r, k);
    }
    IndexCombosCount(0, n, r);
    IndexCombosDistinct(0, n, r);
    forall c
      ensures c in ps <==> |c| == r && Increasing(c) && Within(c, 0, n)
    {
      IndexCombosMembers(0, n, r, c);
    }
  }

  /** The increasing 1-tuples are the positions, in order. */
  lemma {:induction false} IndexCombosOfOne(lo: nat, hi: nat)
    ensures |IndexCombos(lo, hi, 1)| == if lo <= hi then hi - lo else 0
    ensures forall k :: 0 <= k < |IndexCombos(lo, hi, 1)| ==> IndexCombos(lo, hi, 1)[k] == [lo + k]
    decreases hi - lo
  {
    if lo < hi {
      IndexCombosOfOne(lo + 1, hi);
      assert Prepend(lo, IndexCombos(lo + 1, hi, 0))[0] == [lo] + [];
    }
  }

  /** combinations(xs, 1) yields each element alone, in order. */
  lemma CombinationsOfOne<T>(xs: seq<T>)
    ensures |Combinations(xs, 1)| == |xs|
    ensures forall i :: 0 <= i < |xs| ==> Combinations(xs, 1)[i] == [xs[i]]
  {
    IndexCombosOfOne(0, |xs|);
  }

  /** The tuples with first element from g and the rest from rest, in that order. */
  function ProductWith<T>(g: seq<T>, rest: seq<seq<T>>): (ps: seq<seq<T>>)
    ensures |ps| == |g| * |rest|
    decreases |g|
  {
    if g == [] then [] else Prepend(g[0], rest) + ProductWith(g[1..], rest)
  }

  /** itertools.product(*gs): every tuple with one element of each group, the last group
      varying fastest. */
  function Product<T>(gs: seq<seq<T>>): seq<seq<T>>
    decreases |gs|
  {
    if gs == [] then [[]] else ProductWith(gs[0], Product(gs[1..]))
  }

  lemma {:induction false} ProductWithMember<T>(g: seq<T>, rest: seq<seq<T>>, p: seq<T>)
    ensures p in ProductWith(g, rest) <==> p != [] && p[0] in g && p[1..] in rest
    decreases |g|
  {
    if g != [] {
      PrependMember(g[0], rest, p);
      ProductWithMember(g[1..], rest, p);
      assert g == [g[0]] + g[1..];
    }
  }

  /** product(*gs) yields exactly the tuples with element t from group t. */
  lemma {:induction false} ProductMembers<T>(gs: seq<seq<T>>, p: seq<T>)
    ensures p in Product(gs) <==> |p| == |gs| && forall t :: 0 <= t < |gs| ==> p[t] in gs[t]
    decreases |gs|
  {
    if gs != [] {
      ProductWithMember(gs[0], Product(gs[1..]), p);
      if p != [] {
        ProductMembers(gs[1..], p[1..]);
        if |p| == |gs| {
          assert forall t :: 1 <= t < |gs| ==> p[t] == p[1..][t - 1] && gs[t] == gs[1..][t - 1];
        }
      }
    }
  }

  /** A list built by appending the lists of xss in order with `+=`. */
  function Concat<T>(xss: seq<seq<T>>): (r: seq<T>)
    decreases |xss|
  {
    if xss == [] then [] else Concat(xss[..|xss| - 1]) + xss[|xss| - 1]
  }

  function SumLengths<T>(xss: seq<seq<T>>): nat
    decreases |xss|
  {
    if xss == [] then 0 else SumLengths(xss[..|xss| - 1]) + |xss[|xss| - 1]|
  }

  lemma {:induction false} ConcatLength<T>(xss: seq<seq<T>>)
    ensures |Concat(xss)| == SumLengths(xss)
    decreases |xss|
  {
    if xss != [] {
      ConcatLength(xss[..|xss| - 1]);
    }
  }

  lemma {:induction false} ConcatMembers<T>(xss: seq<seq<T>>, x: T)
    ensures x in Concat(xss) <==> exists i :: 0 <= i < |xss| && x in xss[i]
    decreases |xss|
  {
    if xss != [] {
      var init := xss[..|xss| - 1];
      ConcatMembers(init, x);
      assert forall i :: 0 <= i < |init| ==> init[i] == xss[i];
      if x in Concat(xss) && x !in xss[|xss| - 1] {
        var i :| 0 <= i < |init| && x in init[i];
        assert x in xss[i];
      }
    }
  }

  /** The list after one more `+=`. */
  lemma ConcatStep<T>(xss: seq<seq<T>>, k: nat)
    requires k < |xss|
    ensures Concat(xss[..k + 1]) == Concat(xss[..k]) + xss[k]
  {
    assert xss[..k + 1][..k] == xss[..k];
  }

  lemma DistinctTail<T>(xs: seq<T>)
    requires Distinct(xs) && xs != []
    ensures Distinct(xs[1..]) && xs[0] !in xs[1..]
  {
    var tl := xs[1..];
    assert forall t :: 0 <= t < |tl| ==> tl[t] == xs[t + 1];
  }

  /** Over groups without repetitions, no tuple is yielded twice. */
  lemma {:induction false} ProductWithDistinct<T>(g: seq<T>, rest: seq<seq<T>>)
    requires Distinct(g) && Distinct(rest)
    ensures Distinct(ProductWith(g, rest))
    decreases |g|
  {
    if g != [] {
      DistinctTail(g);
      ProductWithDistinct(g[1..], rest);
      var a, b := Prepend(g[0], rest), ProductWith(g[1..], rest);
      PrependDistinct(g[0], rest);
      forall c | c in a
        ensures c !in b
      {
        PrependMember(g[0], rest, c);
        ProductWithMember(g[1..], rest, c);
      }
      DistinctConcat(a, b);
    }
  }

  lemma {:induction false} ProductDistinct<T>(gs: seq<seq<T>>)
    requires forall i :: 0 <= i < |gs| ==> Distinct(gs[i])
    ensures Distinct(Product(gs))
    decreases |gs|
  {
    if gs != [] {
      ProductDistinct(gs[1..]);
      ProductWithDistinct(gs[0], Product(gs[1..]));
    }
  }

  /** Lists without repetitions, no two of which share an element, concatenate into a list
      without repetitions. */
  lemma {:induction false} ConcatDistinct<T>(xss: seq<seq<T>>)
    requires forall k :: 0 <= k < |xss| ==> Distinct(xss[k])
    requires forall k1, k2, x :: 0 <= k1 < k2 < |xss| && x in xss[k1] ==> x !in xss[k2]
    ensures Distinct(Concat(xss))
    decreases |xss|
  {
    if xss != [] {
      var init := xss[..|xss| - 1];
      ConcatDistinct(init);
      forall x | x in Concat(init)
        ensures x !in xss[|xss| - 1]
      {
        ConcatMembers(init, x);
      }
      DistinctConcat(Concat(init), xss[|xss| - 1]);
    }
  }

  /** An increasing tuple of positions is determined by the positions it holds. */
  lemma {:induction false} IncreasingUnique(c1: seq<nat>, c2: seq<nat>)
    requires Increasing(c1) && Increasing(c2) && forall x :: x in c1 <==> x in c2
    ensures c1 == c2
    decreases |c1|
  {
    assert c1 != [] ==> c1[0] in c2;
    assert c2 != [] ==> c2[0] in c1;
    if c1 != [] && c2 != [] {
      var i :| 0 <= i < |c2| && c2[i] == c1[0];
      var j :| 0 <= j < |c1| && c1[j] == c2[0];
      assert c1[0] <= c1[j] && c2[0] <= c2[i];
      var t1, t2 := c1[1..], c2[1..];
      forall x
        ensures x in t1 <==> x in t2
      {
        assert x in t1 <==> x in c1 && x != c1[0] by {
          assert forall t :: 0 <= t < |t1| ==> t1[t] == c1[t + 1];
        }
        assert x in t2 <==> x in c2 && x != c2[0] by {
          assert forall t :: 0 <= t < |t2| ==> t2[t] == c2[t + 1];
        }
      }
      assert Increasing(t1) && Increasing(t2);
      IncreasingUnique(t1, t2);
      assert c1 == [c1[0]] + t1 && c2 == [c2[0]] + t2;
    }
  }

  /** A prefix keeps the absence of repetitions, and holds only elements of the list. */
  lemma PrefixFacts<T>(xs: seq<T>, k: nat)
    requires k <= |xs|
    ensures Distinct(xs) ==> Distinct(xs[..k])
    ensures forall x :: x in xs[..k] ==> x in xs
  {
    assert forall t :: 0 <= t < k ==> xs[..k][t] == xs[t];
  }

  /** product(*comb) for each comb, in order. */
  function Products<T>(combs: seq<seq<seq<T>>>): (ps: seq<seq<seq<T>>>)
    ensures |ps| == |combs| && forall k :: 0 <= k < |combs| ==> ps[k] == Product(combs[k])
  {
    seq(|combs|, k requires 0 <= k < |combs| => Product(combs[k]))
  }

  /** A list without repetitions has as many entries as the set of its elements. */
  lemma {:induction false} DistinctCard<T>(xs: seq<T>, elems: set<T>)
    requires Distinct(xs) && forall x :: x in xs <==> x in elems
    ensures |elems| == |xs|
    decreases |xs|
  {
    if xs != [] {
      var init, last := xs[..|xs| - 1], xs[|xs| - 1];
      assert forall x :: x in init ==> x in xs && x != last by {
        forall x | x in init
          ensures x in xs && x != last
        {
          var t :| 0 <= t < |init| && init[t] == x;
          assert xs[t] == x;
        }
      }
      forall x
        ensures x in init <==> x in elems - {last}
      {
        if x in xs && x != last {
          var t :| 0 <= t < |xs| && xs[t] == x;
          assert init[t] == x;
        }
      }
      DistinctCard(init, elems - {last});
    }
  }
}
