/** The record of the modifications a move made on a solution (an ordered
    dictionary from index to the pair (value before, value after)). */
module Modif {
  import opened Wrappers

  /** The value an index had before the first change and the value it has after the latest one. */
  datatype Change = Change(before: int, after: int)

  /** The content of a Modifs: its keys in insertion order and the pair stored under each key. */
  datatype Ledger = Ledger(order: seq<nat>, entries: map<nat, Change>) {
    /** Every key appears once in the insertion order, and the order lists exactly the keys. */
    ghost predicate Valid() {
      (forall p, q :: 0 <= p < q < |order| ==> order[p] != order[q]) &&
      (forall i :: i in entries <==> i in order)
    }

    /** Python truthiness of the dictionary: false exactly when it is empty. */
    predicate IsEmpty() {
      |entries| == 0
    }
  }

  const Empty: Ledger := Ledger([], map[])

  /** What add_modif does to the content: a known index keeps its first value before and takes
      the new value after, in place; a new index is appended with both values. */
  function Record(l: Ledger, index: nat, before: int, after: int): (r: Ledger)
    ensures l.Valid() ==> r.Valid()
    ensures r.entries.Keys == l.entries.Keys + {index}
    ensures r.entries[index] == Change(if index in l.entries then l.entries[index].before else before, after)
    ensures forall j :: j in l.entries && j != index ==> r.entries[j] == l.entries[j]
    ensures index in l.entries ==> r.order == l.order
    ensures index !in l.entries ==> r.order == l.order + [index]
  {
    if index in l.entries then
      Ledger(l.order, l.entries[index := Change(l.entries[index].before, after)])
    else
      Ledger(l.order + [index], l.entries[index := Change(before, after)])
  }

  /** Modifs: an ordered dictionary that may only be written through add_modif. */
  class Modifs {
    var order: seq<nat>
    var entries: map<nat, Change>

    function Snapshot(): Ledger
      reads this
    {
      Ledger(order, entries)
    }

    ghost predicate Valid()
      reads this
    {
      Snapshot().Valid()
    }

    constructor ()
      ensures Valid() && Snapshot() == Empty
    {
      order := [];
      entries := map[];
    }

    method AddModif(index: nat, valBefore: int, valAfter: int)
      requires Valid()
      modifies this
      ensures Valid()
      ensures Snapshot() == Record(old(Snapshot()), index, valBefore, valAfter)
    {
      if index in entries {
        var cur := entries[index];
        entries := entries[index := Change(cur.before, valAfter)];
      } else {
        order := order + [index];
        entries := entries[index := Change(valBefore, valAfter)];
      }
    }

    /** Item assignment is refused; the content is left as it was. */
    method SetItem(key: nat, value: Change) returns (e: Error)
      ensures e == NotImplementedError
    {
      e := NotImplementedError;
    }
  }

  /** One call of add_modif. */
  datatype Edit = Edit(index: nat, before: int, after: int)

  /** The content after the edits are recorded, in order, into a fresh Modifs. */
  function RecordAll(edits: seq<Edit>): Ledger
    decreases |edits|
  {
    if edits == [] then Empty
    else
      var e := edits[|edits| - 1];
      Record(RecordAll(edits[..|edits| - 1]), e.index, e.before, e.after)
  }

  function Indices(edits: seq<Edit>): (r: seq<nat>)
    ensures |r| == |edits| && forall t :: 0 <= t < |edits| ==> r[t] == edits[t].index
  {
    seq(|edits|, t requires 0 <= t < |edits| => edits[t].index)
  }

  predicate Distinct<T(==)>(s: seq<T>) {
    forall p, q :: 0 <= p < q < |s| ==> s[p] != s[q]
  }

  /** The indices in the order they are first met, each once. */
  function FirstTouch(xs: seq<nat>): seq<nat>
    decreases |xs|
  {
    if xs == [] then []
    else
      var r := FirstTouch(xs[..|xs| - 1]);
      if xs[|xs| - 1] in r then r else r + [xs[|xs| - 1]]
  }

  lemma {:induction false} FirstTouchFacts(xs: seq<nat>)
    ensures Distinct(FirstTouch(xs))
    ensures forall i :: i in FirstTouch(xs) <==> i in xs
  {
    if xs != [] {
      var init := xs[..|xs| - 1];
      FirstTouchFacts(init);
      assert forall i :: i in xs <==> i in init || i == xs[|xs| - 1] by {
        assert xs == init + [xs[|xs| - 1]];
      }
    }
  }

  /** The keys of the recorded content come in first-touch order: re-editing an index does not move it. */
  lemma {:induction false} RecordAllOrder(edits: seq<Edit>)
    ensures RecordAll(edits).Valid()
    ensures RecordAll(edits).order == FirstTouch(Indices(edits))
  {
    if edits != [] {
      var init := edits[..|edits| - 1];
      RecordAllOrder(init);
      assert Indices(edits)[..|edits| - 1] == Indices(init);
    }
  }

  /** The edited indices, as a set. */
  function IndexSet(edits: seq<Edit>): set<nat> {
    set t | 0 <= t < |edits| :: edits[t].index
  }

  /** The keys of the recorded content are exactly the edited indices. */
  lemma {:induction false} RecordAllKeys(edits: seq<Edit>)
    ensures RecordAll(edits).entries.Keys == IndexSet(edits)
  {
    if edits != [] {
      var init := edits[..|edits| - 1];
      RecordAllKeys(init);
      assert IndexSet(edits) == IndexSet(init) + {edits[|edits| - 1].index} by {
        assert forall t :: 0 <= t < |init| ==> init[t] == edits[t];
      }
    }
  }

  /** The recorded content keeps, for each index, the value before of its first edit and the
      value after of its last edit. */
  lemma {:induction false} RecordAllFirstLast(edits: seq<Edit>, t: nat)
    requires t < |edits|
    ensures edits[t].index in RecordAll(edits).entries
    ensures (forall u :: 0 <= u < t ==> edits[u].index != edits[t].index) ==>
              RecordAll(edits).entries[edits[t].index].before == edits[t].before
    ensures (forall u :: t < u < |edits| ==> edits[u].index != edits[t].index) ==>
              RecordAll(edits).entries[edits[t].index].after == edits[t].after
  {
    var init := edits[..|edits| - 1];
    if t < |edits| - 1 {
      RecordAllFirstLast(init, t);
      if forall u :: 0 <= u < t ==> edits[u].index != edits[t].index {
        assert forall u :: 0 <= u < t ==> init[u].index != init[t].index;
      }
    } else {
      var i := edits[t].index;
      if forall u :: 0 <= u < t ==> edits[u].index != i {
        RecordAllKeys(init);
        assert i !in IndexSet(init);
      }
    }
  }

  /** With distinct indices, the content holds each edit as given, in the order of the edits. */
  lemma DistinctRecordAll(edits: seq<Edit>)
    requires Distinct(Indices(edits))
    ensures RecordAll(edits).Valid()
    ensures RecordAll(edits).order == Indices(edits)
    ensures forall t :: 0 <= t < |edits| ==>
              RecordAll(edits).entries[edits[t].index] == Change(edits[t].before, edits[t].after)
  {
    RecordAllOrder(edits);
    FirstTouchDistinct(Indices(edits));
    forall t | 0 <= t < |edits|
      ensures RecordAll(edits).entries[edits[t].index] == Change(edits[t].before, edits[t].after)
    {
      DistinctEntryAt(edits, t);
    }
  }

  lemma DistinctEntryAt(edits: seq<Edit>, t: nat)
    requires Distinct(Indices(edits)) && t < |edits|
    ensures edits[t].index in RecordAll(edits).entries
    ensures RecordAll(edits).entries[edits[t].index] == Change(edits[t].before, edits[t].after)
  {
    var ix := Indices(edits);
    forall u | 0 <= u < t
      ensures edits[u].index != edits[t].index
    {
      assert ix[u] != ix[t];
    }
    forall u | t < u < |edits|
      ensures edits[u].index != edits[t].index
    {
      assert ix[t] != ix[u];
    }
    RecordAllFirstLast(edits, t);
    var c := RecordAll(edits).entries[edits[t].index];
    assert c.before == edits[t].before && c.after == edits[t].after;
  }

  lemma {:induction false} FirstTouchDistinct(xs: seq<nat>)
    requires Distinct(xs)
    ensures FirstTouch(xs) == xs
  {
    if xs != [] {
      var init := xs[..|xs| - 1];
      FirstTouchDistinct(init);
      FirstTouchFacts(init);
    }
  }

  /** The values after each edit has been written in turn. */
  function Apply(vals: seq<int>, edits: seq<Edit>): (r: seq<int>)
    requires forall t :: 0 <= t < |edits| ==> edits[t].index < |vals|
    ensures |r| == |vals|
    decreases |edits|
  {
    if edits == [] then vals
    else
      var e := edits[|edits| - 1];
      Apply(vals, edits[..|edits| - 1])[e.index := e.after]
  }

  /** The solution obtained by writing the recorded values after onto vals. */
  function Replay(vals: seq<int>, l: Ledger): (r: seq<int>)
    ensures |r| == |vals|
    ensures forall k :: 0 <= k < |vals| ==> r[k] == if k in l.entries then l.entries[k].after else vals[k]
  {
    seq(|vals|, k requires 0 <= k < |vals| => if k in l.entries then l.entries[k].after else vals[k])
  }

  /** The solution obtained by writing the recorded values before back onto vals. */
  function Revert(vals: seq<int>, l: Ledger): (r: seq<int>)
    ensures |r| == |vals|
    ensures forall k :: 0 <= k < |vals| ==> r[k] == if k in l.entries then l.entries[k].before else vals[k]
  {
    seq(|vals|, k requires 0 <= k < |vals| => if k in l.entries then l.entries[k].before else vals[k])
  }

  /** Every recorded value before is the value vals holds at that index. */
  ghost predicate Consistent(vals: seq<int>, l: Ledger) {
    forall k :: k in l.entries ==> k < |vals| && l.entries[k].before == vals[k]
  }

  /** Each edit records, as value before, the value its index holds when it is made. */
  ghost predicate Chained(vals: seq<int>, edits: seq<Edit>)
    requires forall t :: 0 <= t < |edits| ==> edits[t].index < |vals|
  {
    forall t :: 0 <= t < |edits| ==> edits[t].before == Apply(vals, edits[..t])[edits[t].index]
  }

  /** Replaying the recorded content gives the same values as making the edits. */
  lemma {:induction false} ReplayRecordAll(vals: seq<int>, edits: seq<Edit>)
    requires forall t :: 0 <= t < |edits| ==> edits[t].index < |vals|
    ensures Replay(vals, RecordAll(edits)) == Apply(vals, edits)
  {
    if edits != [] {
      ReplayRecordAll(vals, edits[..|edits| - 1]);
    }
  }

  /** When every edit records the value it overwrites, the content is consistent with the
      original values. */
  lemma {:induction false} ChainedConsistent(vals: seq<int>, edits: seq<Edit>)
    requires forall t :: 0 <= t < |edits| ==> edits[t].index < |vals|
    requires Chained(vals, edits)
    ensures Consistent(vals, RecordAll(edits))
  {
    if edits != [] {
      var n := |edits| - 1;
      var init := edits[..n];
      assert Chained(vals, init) by {
        forall t | 0 <= t < |init|
          ensures init[t].before == Apply(vals, init[..t])[init[t].index]
        {
          assert init[..t] == edits[..t];
        }
      }
      ChainedConsistent(vals, init);
      var i := edits[n].index;
      if i !in RecordAll(init).entries {
        assert edits[..n] == init;
        ReplayRecordAll(vals, init);
        assert Apply(vals, init)[i] == vals[i];
      }
    }
  }

  /** Writing the values before back onto the replayed solution restores the original. */
  lemma RevertReplay(vals: seq<int>, l: Ledger)
    requires Consistent(vals, l)
    ensures Revert(Replay(vals, l), l) == vals
  {
  }

  /** Under a consistent content, the replayed solution differs from the original exactly at the
      keys whose two recorded values differ. */
  lemma ReplayChangedAt(vals: seq<int>, l: Ledger, k: nat)
    requires Consistent(vals, l) && k < |vals|
    ensures Replay(vals, l)[k] != vals[k] <==> k in l.entries && l.entries[k].before != l.entries[k].after
  {
  }

  /** Recording (i, a, b) and then (i, b, c) leaves the pair (a, c) under i. */
  lemma RecordTwice(l: Ledger, i: nat, a: int, b: int, c: int)
    requires i !in l.entries
    ensures Record(Record(l, i, a, b), i, b, c).entries[i] == Change(a, c)
    ensures Record(Record(l, i, a, b), i, b, c).order == l.order + [i]
  {
  }

  /** Applying one more edit writes its value after at its index. */
  lemma ApplyStep(vals: seq<int>, edits: seq<Edit>, t: nat)
    requires t < |edits| && forall u :: 0 <= u < |edits| ==> edits[u].index < |vals|
    ensures Apply(vals, edits[..t + 1]) == Apply(vals, edits[..t])[edits[t].index := edits[t].after]
    ensures RecordAll(edits[..t + 1]) == Record(RecordAll(edits[..t]), edits[t].index, edits[t].before, edits[t].after)
  {
    assert edits[..t + 1][..t] == edits[..t];
  }

  /** With distinct indices, applying the edits writes each edit's value after at its index and
      leaves every other position as it was. */
  lemma ApplyDistinct(vals: seq<int>, edits: seq<Edit>)
    requires forall t :: 0 <= t < |edits| ==> edits[t].index < |vals|
    requires Distinct(Indices(edits))
    ensures forall t :: 0 <= t < |edits| ==> Apply(vals, edits)[edits[t].index] == edits[t].after
    ensures forall k :: 0 <= k < |vals| && k !in IndexSet(edits) ==> Apply(vals, edits)[k] == vals[k]
  {
    ReplayRecordAll(vals, edits);
    DistinctRecordAll(edits);
    RecordAllKeys(edits);
    var l := RecordAll(edits);
    var r := Apply(vals, edits);
    assert r == Replay(vals, l);
    forall t | 0 <= t < |edits|
      ensures r[edits[t].index] == edits[t].after
    {
      assert edits[t].index in l.entries;
    }
    forall k | 0 <= k < |vals| && k !in IndexSet(edits)
      ensures r[k] == vals[k]
    {
      assert k !in l.entries;
    }
  }

  /** With distinct indices, there are as many keys as edits. */
  lemma DistinctIndexCount(edits: seq<Edit>)
    requires Distinct(Indices(edits))
    ensures |IndexSet(edits)| == |edits|
    ensures |RecordAll(edits).entries| == |edits|
  {
    DistinctIndexSetSize(edits);
    RecordAllKeys(edits);
    assert |RecordAll(edits).entries| == |RecordAll(edits).entries.Keys|;
  }

  /** With distinct indices, the set of edited indices has one member per edit. */
  lemma {:induction false} DistinctIndexSetSize(edits: seq<Edit>)
    requires Distinct(Indices(edits))
    ensures |IndexSet(edits)| == |edits|
  {
    if edits != [] {
      var n := |edits| - 1;
      var init := edits[..n];
      assert Indices(init) == Indices(edits)[..n];
      DistinctIndexSetSize(init);
      IndexSetSnoc(edits);
      assert edits[n].index !in IndexSet(init) by {
        assert forall t :: 0 <= t < n ==> Indices(edits)[t] != Indices(edits)[n];
      }
    }
  }

  /** The indices of a non-empty list of edits: those of all but the last, and the last one's. */
  lemma IndexSetSnoc(edits: seq<Edit>)
    requires edits != []
    ensures IndexSet(edits) == IndexSet(edits[..|edits| - 1]) + {edits[|edits| - 1].index}
  {
    var init := edits[..|edits| - 1];
    assert forall t :: 0 <= t < |init| ==> init[t] == edits[t];
  }
}
