/**
 * The frequency table behind the degrees-of-separation charts: an ordered
 * map from integer keys to how many times each key was recorded.
 * Integer.MIN_VALUE and Integer.MAX_VALUE are ordinary keys here (the
 * reporters record INFINITY verbatim).
 */
module Histograms {
  import opened Wrappers
  import Sums

  type Table = map<int, nat>

  /** getOrDefault(key, 0). */
  function Count(m: Table, key: int): (c: nat)
    ensures key !in m ==> c == 0
    ensures key in m ==> c == m[key]
  {
    if key in m then m[key] else 0
  }

  /** The keys of `m` in the inclusive range [lo, hi]. */
  ghost function KeysIn(m: Table, lo: int, hi: int): set<int> {
    set k | k in m && lo <= k <= hi
  }

  /** The sum of the counts of the keys in `keys`. */
  ghost function Weight(m: Table, keys: set<int>): int {
    Sums.Sum(keys, k => Count(m, k))
  }

  /** One more occurrence of `key` adds exactly one to the total weight. */
  lemma WeightAfterRecord(m: Table, key: int)
    ensures Weight(m[key := Count(m, key) + 1], m.Keys + {key}) == Weight(m, m.Keys) + 1
  {
    var m' := m[key := Count(m, key) + 1];
    var f := k => Count(m, k);
    var f' := k => Count(m', k);
    if key in m {
      assert m.Keys + {key} == m.Keys;
      Sums.SumRemove(m.Keys, f', key);
      Sums.SumRemove(m.Keys, f, key);
      Sums.SumAgree(m.Keys - {key}, f', f);
    } else {
      Sums.SumAdd(m.Keys, f', key);
      Sums.SumAgree(m.Keys, f', f);
    }
  }

  /** Some element of a non-empty set. */
  lemma Pick<T>(s: set<T>) returns (x: T)
    requires s != {}
    ensures x in s
  {
    x :| x in s;
  }

  lemma {:induction false} Least(s: set<int>) returns (lo: int)
    requires s != {}
    ensures lo in s && forall k :: k in s ==> lo <= k
    decreases |s|
  {
    var x := Pick(s);
    if s == {x} {
      lo := x;
    } else {
      var lo' := Least(s - {x});
      lo := if x < lo' then x else lo';
      forall k | k in s
        ensures lo <= k
      {
        if k != x {
          assert k in s - {x};
        }
      }
    }
  }

  lemma {:induction false} Greatest(s: set<int>) returns (hi: int)
    requires s != {}
    ensures hi in s && forall k :: k in s ==> k <= hi
    decreases |s|
  {
    var x := Pick(s);
    if s == {x} {
      hi := x;
    } else {
      var hi' := Greatest(s - {x});
      hi := if x > hi' then x else hi';
      forall k | k in s
        ensures k <= hi
      {
        if k != x {
          assert k in s - {x};
        }
      }
    }
  }

  /** A non-empty set of keys has a least and a greatest element. */
  lemma Extremes(s: set<int>)
    requires s != {}
    ensures exists lo :: lo in s && forall k :: k in s ==> lo <= k
    ensures exists hi :: hi in s && forall k :: k in s ==> k <= hi
  {
    var lo := Least(s);
    var hi := Greatest(s);
  }

  class Histogram {
    const title: string
    const col1Label: string
    const col2Label: string
    /** The TreeMap from key to count. */
    var counts: Table
    /** How many times record has been called. */
    ghost var recorded: nat

    ghost predicate Valid()
      reads this
    {
      && (forall k :: k in counts ==> counts[k] >= 1)
      && Weight(counts, counts.Keys) == recorded
    }

    constructor (title: string, col1Label: string, col2Label: string)
      ensures Valid()
      ensures this.title == title && this.col1Label == col1Label && this.col2Label == col2Label
      ensures counts == map[] && recorded == 0
    {
      this.title := title;
      this.col1Label := col1Label;
      this.col2Label := col2Label;
      counts := map[];
      recorded := 0;
    }

    /** One more occurrence of `key`; no other count changes. */
    method Record(key: int)
      requires Valid()
      modifies this
      ensures Valid()
      ensures counts == old(counts)[key := Count(old(counts), key) + 1]
      ensures recorded == old(recorded) + 1
    {
      WeightAfterRecord(counts, key);
      assert counts[key := Count(counts, key) + 1].Keys == counts.Keys + {key};
      counts := counts[key := Count(counts, key) + 1];
      recorded := recorded + 1;
    }

    /** Empty exactly when nothing has been recorded. */
    function IsEmpty(): (b: bool)
      requires Valid()
      reads this
      ensures b <==> counts == map[]
      ensures b <==> recorded == 0
    {
      var m := counts;
      Sums.SumPositive(m.Keys, k => Count(m, k));
      assert |m| == 0 ==> m == map[];
      counts == map[]
    }

    /** firstKey(): the least recorded key; None where the TreeMap throws (empty table). */
    function Minimum(): (r: Option<int>)
      reads this
      ensures r.None? <==> counts == map[]
      ensures r.Some? ==> r.value in counts && forall k :: k in counts ==> r.value <= k
    {
      if counts == map[] then None
      else
        Extremes(counts.Keys);
        var lo :| lo in counts && forall k :: k in counts ==> lo <= k;
        Some(lo)
    }

    /** lastKey(): the greatest recorded key; None on an empty table. */
    function Maximum(): (r: Option<int>)
      reads this
      ensures r.None? <==> counts == map[]
      ensures r.Some? ==> r.value in counts && forall k :: k in counts ==> k <= r.value
    {
      if counts == map[] then None
      else
        Extremes(counts.Keys);
        var hi :| hi in counts && forall k :: k in counts ==> k <= hi;
        Some(hi)
    }

    /** The sum of the counts of the keys in [lo, hi], visiting the sub-map's keys. */
    method Total(lo: int, hi: int) returns (sum: int)
      ensures sum == Weight(counts, KeysIn(counts, lo, hi))
      ensures KeysIn(counts, lo, hi) == {} ==> sum == 0
    {
      sum := 0;
      var rest := set k | k in counts && lo <= k <= hi;
      ghost var m := counts;
      ghost var f := k => Count(m, k);
      while rest != {}
        invariant rest <= KeysIn(counts, lo, hi)
        invariant sum + Sums.Sum(rest, f) == Weight(counts, KeysIn(counts, lo, hi))
        decreases rest
      {
        var key :| key in rest;
        Sums.SumRemove(rest, f, key);
        sum := sum + counts[key];
        rest := rest - {key};
      }
    }
  }

  /** total(minimum(), maximum()) counts every record call. */
  lemma TotalOfFullRange(h: Histogram)
    requires h.Valid() && h.counts != map[]
    ensures KeysIn(h.counts, h.Minimum().value, h.Maximum().value) == h.counts.Keys
    ensures Weight(h.counts, KeysIn(h.counts, h.Minimum().value, h.Maximum().value)) == h.recorded
  {
  }

  /** Recording 1, 1, 2, 5 into a new histogram. */
  method RecordSample() returns (h: Histogram)
    ensures fresh(h) && h.Valid()
    ensures h.counts == map[1 := 2, 2 := 1, 5 := 1] && h.recorded == 4
  {
    h := new Histogram("Histogram", "Keys", "Frequency");
    h.Record(1);
    h.Record(1);
    h.Record(2);
    h.Record(5);
  }

  /** After recording 1, 1, 2, 5: minimum 1, maximum 5, total(1, 2) == 3. */
  method RecordExample() returns (lo: Option<int>, hi: Option<int>, t: int)
    ensures lo == Some(1) && hi == Some(5) && t == 3
  {
    var h := RecordSample();
    var m := h.counts;
    assert m.Keys == {1, 2, 5};
    lo := h.Minimum();
    assert lo.value <= 1;
    hi := h.Maximum();
    assert 5 <= hi.value;
    t := h.Total(1, 2);
    assert KeysIn(m, 1, 2) == {1, 2};
    var f := k => Count(m, k);
    Sums.SumRemove({1, 2}, f, 1);
    assert {1, 2} - {1} == {2};
    Sums.SumRemove({2}, f, 2);
    assert {2} - {2} == {};
  }
}
