/**
 `combineByKey(c1, c2, c3)` with the three list-building functions of mreduce.py:9-16.
 Within one partition each record's value is folded into its key's combiner (`c1` starts
 one, `c2` appends to it); combiners of different partitions are concatenated with `c3`.
 The result holds one record per key, keys in order of first appearance.
 */
module Combine {
  import opened Records

  /** `c1`: a new combiner holding one value. */
  function CreateCombiner<V>(v: V): seq<V>
  {
    [v]
  }

  /** `c2`: append one value to a combiner. */
  function MergeValue<V>(acc: seq<V>, v: V): seq<V>
  {
    acc + [v]
  }

  /** `c3`: append a second combiner's values to the first. */
  function MergeCombiners<V>(a: seq<V>, b: seq<V>): seq<V>
  {
    a + b
  }

  /** The combiner held for `k`, or the empty list when there is none. */
  ghost function Group<K, V>(acc: seq<(K, seq<V>)>, k: K): seq<V>
  {
    if k in KeySet(acc) then Lookup(acc, k) else []
  }

  lemma GroupCons<K, V>(x: (K, seq<V>), rest: seq<(K, seq<V>)>)
    ensures KeySet([x] + rest) == {x.0} + KeySet(rest)
    ensures DistinctKeys([x] + rest) <==> x.0 !in KeySet(rest) && DistinctKeys(rest)
    ensures forall k :: Group([x] + rest, k) == if x.0 == k then x.1 else Group(rest, k)
  {
    var a := [x] + rest;
    assert a[0] == x;
    assert a[1..] == rest;
    DistinctCons(x, rest);
  }

  /** Fold one record into the combiners: `c1` for a new key, `c2` for a known one. */
  function AddValue<K(==, !new), V(!new)>(acc: seq<(K, seq<V>)>, k: K, v: V): (r: seq<(K, seq<V>)>)
    requires DistinctKeys(acc)
    ensures DistinctKeys(r)
    ensures KeySet(r) == KeySet(acc) + {k}
    ensures forall k' :: Group(r, k') == if k' == k then Group(acc, k) + [v] else Group(acc, k')
    decreases |acc|
  {
    if |acc| == 0 then
      GroupCons((k, CreateCombiner(v)), []);
      assert [(k, CreateCombiner(v))] + [] == [(k, CreateCombiner(v))];
      [(k, CreateCombiner(v))]
    else
      assert acc == [acc[0]] + acc[1..];
      GroupCons(acc[0], acc[1..]);
      if acc[0].0 == k then
        var r := [(k, MergeValue(acc[0].1, v))] + acc[1..];
        GroupCons((k, MergeValue(acc[0].1, v)), acc[1..]);
        r
      else
        var rest := AddValue(acc[1..], k, v);
        GroupCons(acc[0], rest);
        [acc[0]] + rest
  }

  /**
   `combineByKey(c1, c2, c3)` over one partition: one combiner per key holding exactly
   that key's values in stream order, duplicates kept.
   */
  function CombineByKey<K(==, !new), V(!new)>(rs: seq<(K, V)>): (r: seq<(K, seq<V>)>)
    ensures DistinctKeys(r)
    ensures KeySet(r) == KeySet(rs)
    ensures forall k :: Group(r, k) == ValuesOf(rs, k)
  {
    if |rs| == 0 then []
    else
      var init := rs[..|rs| - 1];
      var last := rs[|rs| - 1];
      assert rs == init + [last];
      KeySetAppend(init, [last]);
      assert KeySet([last]) == {last.0};
      AddValue(CombineByKey(init), last.0, last.1)
  }

  /** Every record of the combined dataset holds its key's values, and at least one. */
  lemma CombineEntries<K(!new), V(!new)>(rs: seq<(K, V)>)
    ensures forall i :: 0 <= i < |CombineByKey(rs)| ==>
      CombineByKey(rs)[i].1 == ValuesOf(rs, CombineByKey(rs)[i].0) && |CombineByKey(rs)[i].1| >= 1
  {
    var r := CombineByKey(rs);
    forall i | 0 <= i < |r|
      ensures r[i].1 == ValuesOf(rs, r[i].0) && |r[i].1| >= 1
    {
      assert r[i].0 in KeySet(r);
      assert Group(r, r[i].0) == r[i].1;
      ValuesOfEmpty(rs, r[i].0);
    }
  }

  /** Merge one partition's combiner for `k` into the others with `c3`. */
  function MergeInto<K(==, !new), V(!new)>(acc: seq<(K, seq<V>)>, k: K, vs: seq<V>): (r: seq<(K, seq<V>)>)
    requires DistinctKeys(acc)
    ensures DistinctKeys(r)
    ensures KeySet(r) == KeySet(acc) + {k}
    ensures forall k' :: Group(r, k') == if k' == k then Group(acc, k) + vs else Group(acc, k')
    decreases |acc|
  {
    if |acc| == 0 then
      GroupCons((k, vs), []);
      assert [(k, vs)] + [] == [(k, vs)];
      [(k, vs)]
    else
      assert acc == [acc[0]] + acc[1..];
      GroupCons(acc[0], acc[1..]);
      if acc[0].0 == k then
        GroupCons((k, MergeCombiners(acc[0].1, vs)), acc[1..]);
        [(k, MergeCombiners(acc[0].1, vs))] + acc[1..]
      else
        var rest := MergeInto(acc[1..], k, vs);
        GroupCons(acc[0], rest);
        [acc[0]] + rest
  }

  /** Merge the combiners of a second partition into those of a first. */
  function MergePartitions<K(==, !new), V(!new)>(a: seq<(K, seq<V>)>, b: seq<(K, seq<V>)>): (r: seq<(K, seq<V>)>)
    requires DistinctKeys(a) && DistinctKeys(b)
    ensures DistinctKeys(r)
    ensures KeySet(r) == KeySet(a) + KeySet(b)
    ensures forall k :: Group(r, k) == Group(a, k) + Group(b, k)
    decreases |b|
  {
    if |b| == 0 then a
    else
      assert b == [b[0]] + b[1..];
      GroupCons(b[0], b[1..]);
      assert b[0].0 !in KeySet(b[1..]) by {
        forall i | 0 <= i < |b[1..]|
          ensures b[1..][i].0 != b[0].0
        {
          assert b[1..][i] == b[i + 1];
        }
      }
      MergePartitions(MergeInto(a, b[0].0, b[0].1), b[1..])
  }

  /**
   Combining two partitions separately and merging the results with `c3` groups the
   same values as combining their concatenation: the grouping does not depend on how
   the records are partitioned.
   */
  lemma CombinePartitioned<K(!new), V(!new)>(xs: seq<(K, V)>, ys: seq<(K, V)>)
    ensures KeySet(MergePartitions(CombineByKey(xs), CombineByKey(ys))) == KeySet(xs + ys)
    ensures forall k :: Group(MergePartitions(CombineByKey(xs), CombineByKey(ys)), k) == ValuesOf(xs + ys, k)
  {
    KeySetAppend(xs, ys);
    forall k
      ensures Group(MergePartitions(CombineByKey(xs), CombineByKey(ys)), k) == ValuesOf(xs + ys, k)
    {
      ValuesOfAppend(xs, ys, k);
    }
  }
}
