/** The shuffle stage: `shuffle_and_sort` groups values by key in a
    `defaultdict(list)`, whose `items()` come out in first-insertion order. */
module Grouper {

  /** The keys of a pair sequence, in order. */
  function Keys<K, V>(pairs: seq<(K, V)>): (ks: seq<K>)
    ensures |ks| == |pairs|
  {
    seq(|pairs|, i requires 0 <= i < |pairs| => pairs[i].0)
  }

  /** Number of pairs whose key is `k`. */
  function Count<K(==), V>(pairs: seq<(K, V)>, k: K): nat {
    if pairs == [] then 0
    else Count(pairs[..|pairs| - 1], k) + (if pairs[|pairs| - 1].0 == k then 1 else 0)
  }

  /** The values of the pairs whose key is `k`, in input order. */
  function ValuesOf<K(==), V>(pairs: seq<(K, V)>, k: K): seq<V> {
    if pairs == [] then []
    else ValuesOf(pairs[..|pairs| - 1], k)
         + (if pairs[|pairs| - 1].0 == k then [pairs[|pairs| - 1].1] else [])
  }

  /** The distinct keys, in the order of their first occurrence. */
  function DistinctKeys<K(==), V>(pairs: seq<(K, V)>): seq<K> {
    if pairs == [] then []
    else
      var d := DistinctKeys(pairs[..|pairs| - 1]);
      if pairs[|pairs| - 1].0 in d then d else d + [pairs[|pairs| - 1].0]
  }

  /** The stable group-by on the key: one group per distinct key, in
      first-occurrence order, holding that key's values in input order. */
  function GroupBy<K(==), V>(pairs: seq<(K, V)>): seq<(K, seq<V>)> {
    var d := DistinctKeys(pairs);
    seq(|d|, i requires 0 <= i < |d| => (d[i], ValuesOf(pairs, d[i])))
  }

  /** `shuffle_and_sort`: one pass over the pairs, appending each value to the
      list of its key; a key seen for the first time gets a fresh list at the
      end of the dictionary's insertion order. */
  method ShuffleAndSort<K(==), V>(pairs: seq<(K, V)>) returns (items: seq<(K, seq<V>)>)
    ensures items == GroupBy(pairs)
  {
    var order: seq<K> := [];
    var grouped: map<K, seq<V>> := map[];
    for i := 0 to |pairs|
      invariant order == DistinctKeys(pairs[..i])
      invariant forall k :: k in grouped <==> k in order
      invariant forall k :: k in grouped ==> grouped[k] == ValuesOf(pairs[..i], k)
    {
      var (k, v) := pairs[i];
      assert pairs[..i + 1][..i] == pairs[..i];
      if k !in grouped {
        DistinctKeysMembership(pairs[..i], k);
        ValuesOfLength(pairs[..i], k);
        order := order + [k];
        grouped := grouped[k := []];
      }
      grouped := grouped[k := grouped[k] + [v]];
    }
    assert pairs[..|pairs|] == pairs;
    items := seq(|order|, j requires 0 <= j < |order| => (order[j], grouped[order[j]]));
  }

  // ---------------------------------------------------------------------
  // Lemmas

  /** A key has as many values as it has occurrences. */
  lemma {:induction false} ValuesOfLength<K, V>(pairs: seq<(K, V)>, k: K)
    ensures |ValuesOf(pairs, k)| == Count(pairs, k)
  {
    if pairs != [] {
      ValuesOfLength(pairs[..|pairs| - 1], k);
    }
  }

  /** The values of a key in a concatenation are that key's values in the first
      part followed by its values in the second: input order is kept. */
  lemma {:induction false} ValuesOfAppend<K, V>(a: seq<(K, V)>, b: seq<(K, V)>, k: K)
    ensures ValuesOf(a + b, k) == ValuesOf(a, k) + ValuesOf(b, k)
    decreases |b|
  {
    if b == [] {
      assert a + b == a;
    } else {
      var b' := b[..|b| - 1];
      assert (a + b)[..|a + b| - 1] == a + b';
      ValuesOfAppend(a, b', k);
    }
  }

  /** A key is among the distinct keys exactly when it occurs in the input. */
  lemma {:induction false} DistinctKeysMembership<K, V>(pairs: seq<(K, V)>, k: K)
    ensures k in DistinctKeys(pairs) <==> k in Keys(pairs)
    ensures k in DistinctKeys(pairs) <==> Count(pairs, k) > 0
  {
    if pairs != [] {
      var s := pairs[..|pairs| - 1];
      DistinctKeysMembership(s, k);
      assert Keys(pairs) == Keys(s) + [pairs[|pairs| - 1].0];
    }
  }

  /** No key appears twice among the distinct keys. */
  lemma {:induction false} DistinctKeysUnique<K, V>(pairs: seq<(K, V)>)
    ensures forall i, j :: 0 <= i < j < |DistinctKeys(pairs)| ==>
      DistinctKeys(pairs)[i] != DistinctKeys(pairs)[j]
  {
    if pairs != [] {
      DistinctKeysUnique(pairs[..|pairs| - 1]);
    }
  }

  /** First-occurrence order: the keys discovered in any prefix of the input
      are the first keys of the whole input, in the same order. */
  lemma {:induction false} DistinctKeysPrefix<K, V>(pairs: seq<(K, V)>, n: nat)
    requires n <= |pairs|
    ensures DistinctKeys(pairs[..n]) <= DistinctKeys(pairs)
    decreases |pairs| - n
  {
    if n < |pairs| {
      DistinctKeysPrefix(pairs, n + 1);
      assert pairs[..n + 1][..n] == pairs[..n];
    } else {
      assert pairs[..n] == pairs;
    }
  }

  /** What `shuffle_and_sort` promises: exactly one group per distinct key of
      the input, in first-occurrence order, and each group holds the values of
      every pair with that key, so its length is the key's occurrence count
      and it is never empty. */
  lemma GroupBySpec<K, V>(pairs: seq<(K, V)>)
    ensures |GroupBy(pairs)| == |DistinctKeys(pairs)|
    ensures forall i, j :: 0 <= i < j < |GroupBy(pairs)| ==> GroupBy(pairs)[i].0 != GroupBy(pairs)[j].0
    ensures forall k :: k in Keys(pairs) <==> exists i :: 0 <= i < |GroupBy(pairs)| && GroupBy(pairs)[i].0 == k
    ensures forall i :: 0 <= i < |GroupBy(pairs)| ==>
      GroupBy(pairs)[i].1 == ValuesOf(pairs, GroupBy(pairs)[i].0)
      && |GroupBy(pairs)[i].1| == Count(pairs, GroupBy(pairs)[i].0) > 0
  {
    var g := GroupBy(pairs);
    var d := DistinctKeys(pairs);
    DistinctKeysUnique(pairs);
    forall k ensures k in Keys(pairs) <==> exists i :: 0 <= i < |g| && g[i].0 == k {
      DistinctKeysMembership(pairs, k);
      if k in d {
        var i :| 0 <= i < |d| && d[i] == k;
        assert g[i].0 == k;
      }
    }
    forall i | 0 <= i < |g| ensures |g[i].1| == Count(pairs, g[i].0) > 0 {
      ValuesOfLength(pairs, d[i]);
      DistinctKeysMembership(pairs, d[i]);
    }
  }
}
