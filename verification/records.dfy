/**
 A dataset is a sequence of records; a keyed dataset is a sequence of (key, value)
 records. This module holds the vocabulary every stage of the pipeline is stated in:
 filtering, the keys of a keyed dataset, looking a key up, and the values recorded
 under one key.
 */
module Records {

  /** `rdd.filter(p)`: the records satisfying `p`, in order. */
  function Filter<T(!new)>(s: seq<T>, p: T -> bool): (r: seq<T>)
    ensures |r| <= |s|
    ensures forall i :: 0 <= i < |r| ==> p(r[i])
  {
    if |s| == 0 then []
    else
      var init := s[..|s| - 1];
      var last := s[|s| - 1];
      assert s == init + [last];
      Filter(init, p) + (if p(last) then [last] else [])
  }

  /** Filtering keeps every occurrence of a record that passes and none of one that fails. */
  lemma {:induction false} FilterMultiset<T(!new)>(s: seq<T>, p: T -> bool, x: T)
    ensures multiset(Filter(s, p))[x] == if p(x) then multiset(s)[x] else 0
  {
    if |s| > 0 {
      var init := s[..|s| - 1];
      assert s == init + [s[|s| - 1]];
      FilterMultiset(init, p, x);
    }
  }

  lemma {:induction false} FilterAppend<T(!new)>(a: seq<T>, b: seq<T>, p: T -> bool)
    ensures Filter(a + b, p) == Filter(a, p) + Filter(b, p)
    decreases |b|
  {
    if |b| == 0 {
      assert a + b == a;
    } else {
      var init := b[..|b| - 1];
      var last := b[|b| - 1];
      var tail := if p(last) then [last] else [];
      assert (a + b)[..|a + b| - 1] == a + init;
      assert (a + b)[|a + b| - 1] == last;
      assert Filter(a + b, p) == Filter(a + init, p) + tail;
      assert Filter(b, p) == Filter(init, p) + tail;
      FilterAppend(a, init, p);
      assert Filter(a, p) + Filter(init, p) + tail == Filter(a, p) + (Filter(init, p) + tail);
    }
  }

  /** A record is kept by the filter exactly when it is present and passes. */
  lemma FilterMembership<T(!new)>(s: seq<T>, p: T -> bool, x: T)
    ensures x in Filter(s, p) <==> x in s && p(x)
  {
    FilterMultiset(s, p, x);
  }

  /** True iff no two records share a key, as after every by-key aggregation. */
  ghost predicate DistinctKeys<K, V>(a: seq<(K, V)>)
  {
    forall i, j :: 0 <= i < j < |a| ==> a[i].0 != a[j].0
  }

  /** The keys of a keyed dataset. */
  ghost function KeySet<K, V>(a: seq<(K, V)>): set<K>
  {
    set i | 0 <= i < |a| :: a[i].0
  }

  lemma KeySetAppend<K, V>(a: seq<(K, V)>, b: seq<(K, V)>)
    ensures KeySet(a + b) == KeySet(a) + KeySet(b)
  {
    forall k | k in KeySet(a + b)
      ensures k in KeySet(a) + KeySet(b)
    {
      var i :| 0 <= i < |a + b| && (a + b)[i].0 == k;
      if i < |a| {
        assert a[i].0 == k;
      } else {
        assert b[i - |a|].0 == k;
      }
    }
    forall k | k in KeySet(a) + KeySet(b)
      ensures k in KeySet(a + b)
    {
      if k in KeySet(a) {
        var i :| 0 <= i < |a| && a[i].0 == k;
        assert (a + b)[i].0 == k;
      } else {
        var i :| 0 <= i < |b| && b[i].0 == k;
        assert (a + b)[|a| + i].0 == k;
      }
    }
  }

  /** A record in front of a keyed dataset adds its key, and keeps the keys distinct exactly when that key is new. */
  lemma DistinctCons<K, V>(x: (K, V), rest: seq<(K, V)>)
    ensures KeySet([x] + rest) == {x.0} + KeySet(rest)
    ensures DistinctKeys([x] + rest) <==> x.0 !in KeySet(rest) && DistinctKeys(rest)
  {
    var a := [x] + rest;
    KeySetAppend([x], rest);
    assert [x][0] == x;
    assert KeySet([x]) == {x.0};
    if DistinctKeys(a) {
      forall i, j | 0 <= i < j < |rest|
        ensures rest[i].0 != rest[j].0
      {
        assert a[i + 1] == rest[i] && a[j + 1] == rest[j];
      }
      forall i | 0 <= i < |rest|
        ensures rest[i].0 != x.0
      {
        assert a[0] == x && a[i + 1] == rest[i];
      }
      assert DistinctKeys(rest);
    }
    if x.0 !in KeySet(rest) && DistinctKeys(rest) {
      forall i, j | 0 <= i < j < |a|
        ensures a[i].0 != a[j].0
      {
        assert a[j] == rest[j - 1];
        if i > 0 {
          assert a[i] == rest[i - 1];
        } else {
          assert rest[j - 1].0 in KeySet(rest);
        }
      }
      assert DistinctKeys(a);
    }
  }

  /** A record after a keyed dataset adds its key, and keeps the keys distinct exactly when that key is new. */
  lemma DistinctSnoc<K, V>(init: seq<(K, V)>, last: (K, V))
    ensures KeySet(init + [last]) == KeySet(init) + {last.0}
    ensures DistinctKeys(init + [last]) <==> last.0 !in KeySet(init) && DistinctKeys(init)
  {
    var a := init + [last];
    KeySetAppend(init, [last]);
    assert [last][0] == last;
    assert KeySet([last]) == {last.0};
    if DistinctKeys(a) {
      forall i | 0 <= i < |init|
        ensures init[i].0 != last.0
      {
        assert a[i] == init[i] && a[|init|] == last;
      }
      forall i, j | 0 <= i < j < |init|
        ensures init[i].0 != init[j].0
      {
        assert a[i] == init[i] && a[j] == init[j];
      }
    }
    if last.0 !in KeySet(init) && DistinctKeys(init) {
      forall i, j | 0 <= i < j < |a|
        ensures a[i].0 != a[j].0
      {
        assert a[i] == init[i];
        if j < |init| {
          assert a[j] == init[j];
        } else {
          assert init[i].0 in KeySet(init);
        }
      }
    }
  }

  /** Under distinct keys, looking up in a dataset with one more record finds that record's value for its key. */
  lemma LookupSnoc<K, V>(init: seq<(K, V)>, last: (K, V), k: K)
    requires DistinctKeys(init + [last]) && k in KeySet(init + [last])
    ensures k != last.0 ==> k in KeySet(init) && Lookup(init + [last], k) == Lookup(init, k)
    ensures k == last.0 ==> Lookup(init + [last], k) == last.1
  {
    var a := init + [last];
    DistinctSnoc(init, last);
    assert a[|init|] == last;
    if k != last.0 {
      var i :| 0 <= i < |init| && init[i].0 == k;
      assert a[i] == init[i];
    }
  }

  /** Two keyed datasets with the same key at every position have the same keys, equally distinct. */
  lemma SameKeys<K, V, W>(a: seq<(K, V)>, b: seq<(K, W)>)
    requires |a| == |b|
    requires forall i :: 0 <= i < |a| ==> a[i].0 == b[i].0
    ensures KeySet(a) == KeySet(b)
    ensures DistinctKeys(a) <==> DistinctKeys(b)
  {
    forall k | k in KeySet(a)
      ensures k in KeySet(b)
    {
      var i :| 0 <= i < |a| && a[i].0 == k;
      assert b[i].0 == k;
    }
    forall k | k in KeySet(b)
      ensures k in KeySet(a)
    {
      var i :| 0 <= i < |b| && b[i].0 == k;
      assert a[i].0 == k;
    }
  }

  /** Filtering a keyed dataset keeps its keys distinct, and keeps exactly the keys of the passing records. */
  lemma {:induction false} FilterKeys<K(!new), V(!new)>(s: seq<(K, V)>, p: ((K, V)) -> bool)
    requires DistinctKeys(s)
    ensures DistinctKeys(Filter(s, p))
    ensures forall k :: k in KeySet(Filter(s, p)) <==> exists i :: 0 <= i < |s| && s[i].0 == k && p(s[i])
  {
    if |s| > 0 {
      var init := s[..|s| - 1];
      var last := s[|s| - 1];
      assert s == init + [last];
      DistinctSnoc(init, last);
      FilterKeys(init, p);
      var f := Filter(init, p);
      if p(last) {
        assert Filter(s, p) == f + [last];
        forall i | 0 <= i < |f|
          ensures f[i].0 != last.0
        {
          assert f[i].0 in KeySet(f);
          var j :| 0 <= j < |init| && init[j].0 == f[i].0 && p(init[j]);
          assert init[j].0 in KeySet(init);
        }
        DistinctSnoc(f, last);
      } else {
        assert Filter(s, p) == f;
      }
      forall k
        ensures k in KeySet(Filter(s, p)) <==> exists i :: 0 <= i < |s| && s[i].0 == k && p(s[i])
      {
        if exists i :: 0 <= i < |s| && s[i].0 == k && p(s[i]) {
          var i :| 0 <= i < |s| && s[i].0 == k && p(s[i]);
          if i < |init| {
            assert init[i] == s[i];
          }
        }
        if k in KeySet(f) {
          var j :| 0 <= j < |init| && init[j].0 == k && p(init[j]);
          assert s[j] == init[j];
        }
      }
    }
  }

  /** The value of the first record carrying key `k`. */
  ghost function Lookup<K, V>(a: seq<(K, V)>, k: K): (v: V)
    requires k in KeySet(a)
    ensures exists i :: 0 <= i < |a| && a[i].0 == k && a[i].1 == v
    ensures DistinctKeys(a) ==> forall i :: 0 <= i < |a| && a[i].0 == k ==> a[i].1 == v
  {
    if a[0].0 == k then a[0].1
    else
      assert k in KeySet(a[1..]) by {
        var i :| 0 <= i < |a| && a[i].0 == k;
        assert a[1..][i - 1].0 == k;
      }
      var v := Lookup(a[1..], k);
      assert exists i :: 0 <= i < |a| && a[i].0 == k && a[i].1 == v by {
        var j :| 0 <= j < |a[1..]| && a[1..][j].0 == k && a[1..][j].1 == v;
        assert a[j + 1] == a[1..][j];
      }
      v
  }

  /** Under distinct keys a record occurs at most once, and exactly when it is the key's entry. */
  lemma {:induction false} DistinctKeysMultiplicity<K, V>(a: seq<(K, V)>, k: K, v: V)
    requires DistinctKeys(a)
    ensures multiset(a)[(k, v)] == if k in KeySet(a) && Lookup(a, k) == v then 1 else 0
  {
    if |a| == 0 {
    } else {
      var init := a[..|a| - 1];
      var last := a[|a| - 1];
      assert a == init + [last];
      assert DistinctKeys(init);
      DistinctKeysMultiplicity(init, k, v);
      if last.0 == k {
        forall i | 0 <= i < |init|
          ensures init[i].0 != k
        {
          assert init[i] == a[i];
        }
        assert k !in KeySet(init);
        assert k in KeySet(a);
      } else {
        assert k in KeySet(a) <==> k in KeySet(init) by {
          if k in KeySet(a) {
            var i :| 0 <= i < |a| && a[i].0 == k;
            assert init[i].0 == k;
          }
          if k in KeySet(init) {
            var i :| 0 <= i < |init| && init[i].0 == k;
            assert a[i].0 == k;
          }
        }
        if k in KeySet(a) {
          var i :| 0 <= i < |init| && init[i].0 == k;
          assert a[i] == init[i];
        }
      }
    }
  }

  /** The values of every record with key `k`, in stream order, duplicates kept. */
  ghost function ValuesOf<K, V(!new)>(rs: seq<(K, V)>, k: K): (vs: seq<V>)
    ensures |vs| <= |rs|
    ensures forall v :: v in vs <==> (k, v) in rs
  {
    if |rs| == 0 then []
    else
      var init := rs[..|rs| - 1];
      var last := rs[|rs| - 1];
      assert rs == init + [last];
      ValuesOf(init, k) + (if last.0 == k then [last.1] else [])
  }

  lemma {:induction false} ValuesOfAppend<K, V(!new)>(a: seq<(K, V)>, b: seq<(K, V)>, k: K)
    ensures ValuesOf(a + b, k) == ValuesOf(a, k) + ValuesOf(b, k)
    decreases |b|
  {
    if |b| == 0 {
      assert a + b == a;
    } else {
      var init := b[..|b| - 1];
      assert (a + b)[..|a + b| - 1] == a + init;
      assert (a + b)[|a + b| - 1] == b[|b| - 1];
      ValuesOfAppend(a, init, k);
    }
  }

  /** A key has recorded values exactly when it is one of the dataset's keys. */
  lemma ValuesOfEmpty<K, V(!new)>(rs: seq<(K, V)>, k: K)
    ensures ValuesOf(rs, k) == [] <==> k !in KeySet(rs)
  {
    if k in KeySet(rs) {
      var i :| 0 <= i < |rs| && rs[i].0 == k;
      assert rs[i] == (k, rs[i].1);
      assert rs[i].1 in ValuesOf(rs, k);
    }
    if ValuesOf(rs, k) != [] {
      var v := ValuesOf(rs, k)[0];
      assert v in ValuesOf(rs, k);
      var i :| 0 <= i < |rs| && rs[i] == (k, v);
      assert rs[i].0 in KeySet(rs);
    }
  }

  /**
   When records carry (key, (tag, payload)) and no two records agree on both key and
   tag, the values recorded under one key have pairwise distinct tags.
   */
  lemma {:induction false} ValuesOfDistinctTags<K, T(!new), V(!new)>(rs: seq<(K, (T, V))>, k: K)
    requires forall i, j :: 0 <= i < j < |rs| ==> (rs[i].0, rs[i].1.0) != (rs[j].0, rs[j].1.0)
    ensures DistinctKeys(ValuesOf(rs, k))
  {
    if |rs| > 0 {
      var init := rs[..|rs| - 1];
      var last := rs[|rs| - 1];
      assert rs == init + [last];
      ValuesOfDistinctTags(init, k);
      var vs := ValuesOf(init, k);
      if last.0 == k {
        forall i | 0 <= i < |vs|
          ensures vs[i].0 != last.1.0
        {
          assert vs[i] in vs;
          var j :| 0 <= j < |init| && init[j] == (k, vs[i]);
          assert rs[j] == init[j];
        }
        assert ValuesOf(rs, k) == vs + [last.1];
      }
    }
  }
}
