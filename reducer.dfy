/** The reduce stage: `compute_sum_by_group` folds one group's values with
    `sum`, and `reducer` applies it to every group in turn. */
module Reducer {
  import opened Grouper

  /** Python's `sum`: 0, then each value added from left to right. */
  function Sum(xs: seq<int>): int {
    if xs == [] then 0 else Sum(xs[..|xs| - 1]) + xs[|xs| - 1]
  }

  /** `compute_sum_by_group`: the group's key with the sum of its values. */
  function ComputeSumByGroup<K>(group: (K, seq<int>)): (r: (K, int))
    ensures r.0 == group.0
    ensures (forall i :: 0 <= i < |group.1| ==> group.1[i] == 1) ==> r.1 == |group.1|
  {
    SumOfOnes(group.1);
    (group.0, Sum(group.1))
  }

  /** `reducer`: one aggregate per group, with the same key, in the same
      order; a group of ones becomes its size. */
  function Reduce<K>(groups: seq<(K, seq<int>)>): (r: seq<(K, int)>)
    ensures |r| == |groups|
    ensures forall i :: 0 <= i < |r| ==> r[i].0 == groups[i].0
    ensures forall i :: 0 <= i < |r| && (forall j :: 0 <= j < |groups[i].1| ==> groups[i].1[j] == 1) ==>
      r[i].1 == |groups[i].1|
  {
    seq(|groups|, i requires 0 <= i < |groups| => ComputeSumByGroup(groups[i]))
  }

  /** The values of a pair sequence, in order. */
  function Values<K, V>(pairs: seq<(K, V)>): (vs: seq<V>)
    ensures |vs| == |pairs|
  {
    seq(|pairs|, i requires 0 <= i < |pairs| => pairs[i].1)
  }

  /** The sum of all counts of an aggregate sequence. */
  function Total<K>(agg: seq<(K, int)>): int {
    Sum(Values(agg))
  }

  /** The sums of the values of the keys `ks`, added up. */
  function GroupSum<K(==)>(pairs: seq<(K, int)>, ks: seq<K>): int {
    if ks == [] then 0
    else GroupSum(pairs, ks[..|ks| - 1]) + Sum(ValuesOf(pairs, ks[|ks| - 1]))
  }

  // ---------------------------------------------------------------------
  // Lemmas

  /** The sum of a list of ones is its length. */
  lemma {:induction false} SumOfOnes(xs: seq<int>)
    ensures (forall i :: 0 <= i < |xs| ==> xs[i] == 1) ==> Sum(xs) == |xs|
  {
    if xs != [] {
      SumOfOnes(xs[..|xs| - 1]);
    }
  }

  /** `sum` distributes over concatenation. */
  lemma {:induction false} SumAppend(a: seq<int>, b: seq<int>)
    ensures Sum(a + b) == Sum(a) + Sum(b)
    decreases |b|
  {
    if b == [] {
      assert a + b == a;
    } else {
      assert (a + b)[..|a + b| - 1] == a + b[..|b| - 1];
      SumAppend(a, b[..|b| - 1]);
    }
  }

  /** When every value is 1, the sum of a key's group is its occurrence count. */
  lemma {:induction false} UnitGroupSum<K>(pairs: seq<(K, int)>, k: K)
    requires forall i :: 0 <= i < |pairs| ==> pairs[i].1 == 1
    ensures Sum(ValuesOf(pairs, k)) == Count(pairs, k)
  {
    if pairs != [] {
      var s := pairs[..|pairs| - 1];
      UnitGroupSum(s, k);
      SumAppend(ValuesOf(s, k), if pairs[|pairs| - 1].0 == k then [1] else []);
    }
  }

  /** Adding one more pair adds its value to exactly the group of its key. */
  lemma {:induction false} GroupSumSnoc<K>(s: seq<(K, int)>, p: (K, int), ks: seq<K>)
    requires forall i, j :: 0 <= i < j < |ks| ==> ks[i] != ks[j]
    ensures GroupSum(s + [p], ks) == GroupSum(s, ks) + (if p.0 in ks then p.1 else 0)
  {
    if ks != [] {
      var ks' := ks[..|ks| - 1];
      var k := ks[|ks| - 1];
      GroupSumSnoc(s, p, ks');
      assert (s + [p])[..|s|] == s;
      var vs := ValuesOf(s, k);
      assert ValuesOf(s + [p], k) == vs + (if p.0 == k then [p.1] else []);
      SumAppend(vs, if p.0 == k then [p.1] else []);
      assert p.0 in ks <==> p.0 in ks' || p.0 == k;
      assert k !in ks';
    }
  }

  /** Summing the groups gives the sum of all values: grouping loses and
      duplicates nothing. */
  lemma {:induction false} GroupSumTotal<K>(pairs: seq<(K, int)>)
    ensures GroupSum(pairs, DistinctKeys(pairs)) == Sum(Values(pairs))
  {
    if pairs != [] {
      var s := pairs[..|pairs| - 1];
      var p := pairs[|pairs| - 1];
      var d := DistinctKeys(s);
      assert pairs == s + [p];
      assert Values(pairs) == Values(s) + [p.1];
      assert Sum(Values(pairs)) == Sum(Values(s)) + p.1;
      GroupSumTotal(s);
      DistinctKeysUnique(s);
      GroupSumSnoc(s, p, d);
      if p.0 !in d {
        DistinctKeysMembership(s, p.0);
        ValuesOfLength(s, p.0);
        var d' := d + [p.0];
        assert DistinctKeys(pairs) == d';
        assert d'[..|d|] == d;
        assert ValuesOf(pairs, p.0) == [p.1];
        assert Sum([p.1]) == p.1;
        assert GroupSum(pairs, d') == GroupSum(pairs, d) + p.1;
      }
    }
  }

  /** The total of aggregates built from groups is the sum over their keys. */
  lemma {:induction false} TotalOfSums<K>(pairs: seq<(K, int)>, ks: seq<K>)
    ensures Total(seq(|ks|, i requires 0 <= i < |ks| => (ks[i], Sum(ValuesOf(pairs, ks[i])))))
      == GroupSum(pairs, ks)
  {
    var agg := seq(|ks|, i requires 0 <= i < |ks| => (ks[i], Sum(ValuesOf(pairs, ks[i]))));
    if ks != [] {
      var ks' := ks[..|ks| - 1];
      TotalOfSums(pairs, ks');
      var agg' := seq(|ks'|, i requires 0 <= i < |ks'| => (ks'[i], Sum(ValuesOf(pairs, ks'[i]))));
      assert Values(agg)[..|ks'|] == Values(agg');
    }
  }

  /** Conservation: the counts `reducer(shuffle_and_sort(pairs))` produces add
      up to the sum of all input values. */
  lemma ReduceTotal<K>(pairs: seq<(K, int)>)
    ensures Total(Reduce(GroupBy(pairs))) == Sum(Values(pairs))
  {
    var d := DistinctKeys(pairs);
    var agg := seq(|d|, i requires 0 <= i < |d| => (d[i], Sum(ValuesOf(pairs, d[i]))));
    assert Reduce(GroupBy(pairs)) == agg;
    TotalOfSums(pairs, d);
    GroupSumTotal(pairs);
  }

  /** Each aggregate of `reducer(shuffle_and_sort(pairs))` is the `i`-th
      distinct key with the sum of all that key's values, whatever the values. */
  lemma ReduceSums<K>(pairs: seq<(K, int)>)
    ensures |Reduce(GroupBy(pairs))| == |DistinctKeys(pairs)|
    ensures forall i :: 0 <= i < |Reduce(GroupBy(pairs))| ==>
      Reduce(GroupBy(pairs))[i] == (DistinctKeys(pairs)[i], Sum(ValuesOf(pairs, DistinctKeys(pairs)[i])))
  {
    var d := DistinctKeys(pairs);
    var r := Reduce(GroupBy(pairs));
    forall i | 0 <= i < |r| ensures r[i] == (d[i], Sum(ValuesOf(pairs, d[i]))) {
      assert GroupBy(pairs)[i] == (d[i], ValuesOf(pairs, d[i]));
    }
  }

  /** For `(word, 1)` pairs, `reducer(shuffle_and_sort(pairs))` holds exactly one
      aggregate per distinct word, in first-occurrence order, whose count is the
      word's number of occurrences; the counts add up to the number of pairs. */
  lemma ReduceCounts<K>(pairs: seq<(K, int)>)
    requires forall i :: 0 <= i < |pairs| ==> pairs[i].1 == 1
    ensures |Reduce(GroupBy(pairs))| == |DistinctKeys(pairs)|
    ensures forall i :: 0 <= i < |Reduce(GroupBy(pairs))| ==>
      Reduce(GroupBy(pairs))[i].0 == DistinctKeys(pairs)[i]
      && Reduce(GroupBy(pairs))[i].1 == Count(pairs, DistinctKeys(pairs)[i]) > 0
    ensures forall i, j :: 0 <= i < j < |Reduce(GroupBy(pairs))| ==>
      Reduce(GroupBy(pairs))[i].0 != Reduce(GroupBy(pairs))[j].0
    ensures Total(Reduce(GroupBy(pairs))) == |pairs|
  {
    var r := Reduce(GroupBy(pairs));
    var d := DistinctKeys(pairs);
    GroupBySpec(pairs);
    forall i | 0 <= i < |r| ensures r[i].1 == Count(pairs, d[i]) {
      UnitGroupSum(pairs, d[i]);
    }
    ReduceTotal(pairs);
    SumOfOnes(Values(pairs));
  }
}
