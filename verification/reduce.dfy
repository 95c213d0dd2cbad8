/**
 The counting pattern of mreduce.py:62-63 and 66-67: map every record to `(key, 1)` and
 `reduceByKey(add)`. The result holds one record per key, keys in order of first
 appearance, each with the number of times the key occurred.
 */
module Reduce {
  import opened Records

  /** A sum of ones over a non-empty group: never below one. */
  type Count = n: int | n >= 1 witness 1

  /** The running sum held for `k`, or 0 when there is none. */
  ghost function Tally<K>(acc: seq<(K, Count)>, k: K): nat
  {
    if k in KeySet(acc) then Lookup(acc, k) else 0
  }

  lemma TallyCons<K>(x: (K, Count), rest: seq<(K, Count)>)
    ensures KeySet([x] + rest) == {x.0} + KeySet(rest)
    ensures DistinctKeys([x] + rest) <==> x.0 !in KeySet(rest) && DistinctKeys(rest)
    ensures forall k :: Tally([x] + rest, k) == if x.0 == k then x.1 else Tally(rest, k)
  {
    var a := [x] + rest;
    assert a[0] == x;
    assert a[1..] == rest;
    DistinctCons(x, rest);
  }

  /** Add the record `(k, 1)` into the running sums with `add`. */
  function AddOne<K(==, !new)>(acc: seq<(K, Count)>, k: K): (r: seq<(K, Count)>)
    requires DistinctKeys(acc)
    ensures DistinctKeys(r)
    ensures KeySet(r) == KeySet(acc) + {k}
    ensures forall k' :: Tally(r, k') == Tally(acc, k') + (if k' == k then 1 else 0)
    decreases |acc|
  {
    if |acc| == 0 then
      TallyCons((k, 1), []);
      assert [(k, 1 as Count)] + [] == [(k, 1)];
      [(k, 1)]
    else
      assert acc == [acc[0]] + acc[1..];
      TallyCons(acc[0], acc[1..]);
      if acc[0].0 == k then
        TallyCons((k, acc[0].1 + 1), acc[1..]);
        [(k, acc[0].1 + 1)] + acc[1..]
      else
        var rest := AddOne(acc[1..], k);
        TallyCons(acc[0], rest);
        [acc[0]] + rest
  }

  /** `map(lambda x: (x, 1)).reduceByKey(add)`: how often each key occurs. */
  function CountByKey<K(==, !new)>(ks: seq<K>): (r: seq<(K, Count)>)
    ensures DistinctKeys(r)
    ensures forall k :: k in KeySet(r) <==> k in ks
    ensures forall k :: Tally(r, k) == multiset(ks)[k]
  {
    if |ks| == 0 then []
    else
      var init := ks[..|ks| - 1];
      var last := ks[|ks| - 1];
      assert ks == init + [last];
      AddOne(CountByKey(init), last)
  }

  /** Each record of the counted dataset holds its key's number of occurrences. */
  lemma CountEntries<K(!new)>(ks: seq<K>)
    ensures forall i :: 0 <= i < |CountByKey(ks)| ==> CountByKey(ks)[i].1 == multiset(ks)[CountByKey(ks)[i].0]
  {
    var r := CountByKey(ks);
    forall i | 0 <= i < |r|
      ensures r[i].1 == multiset(ks)[r[i].0]
    {
      assert r[i].0 in KeySet(r);
      assert Tally(r, r[i].0) == r[i].1;
    }
  }
}
