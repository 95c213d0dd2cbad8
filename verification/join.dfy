/**
 `left.join(right)` on keyed datasets (mreduce.py:72 and 78): an inner join that pairs
 every left record with every right record of the same key. Left records whose key
 the right side lacks produce nothing.
 */
module Join {
  import opened Records

  /** The joined records one left record produces: one per right record with its key. */
  function Matches<K(==, !new), V(!new), W(!new)>(l: (K, V), right: seq<(K, W)>): (r: seq<(K, (V, W))>)
    ensures |r| <= |right|
    ensures forall x :: x in r <==> x.0 == l.0 && x.1.0 == l.1 && (l.0, x.1.1) in right
  {
    if |right| == 0 then []
    else
      assert right == [right[0]] + right[1..];
      (if right[0].0 == l.0 then [(l.0, (l.1, right[0].1))] else []) + Matches(l, right[1..])
  }

  /** The inner join of two keyed datasets, in left-major order. */
  function InnerJoin<K(==, !new), V(!new), W(!new)>(left: seq<(K, V)>, right: seq<(K, W)>): (r: seq<(K, (V, W))>)
    ensures forall x :: x in r <==> (x.0, x.1.0) in left && (x.0, x.1.1) in right
  {
    if |left| == 0 then []
    else
      var init := left[..|left| - 1];
      assert left == init + [left[|left| - 1]];
      InnerJoin(init, right) + Matches(left[|left| - 1], right)
  }

  /** A left record whose key the right side lacks is dropped. */
  lemma MatchesAbsent<K(!new), V(!new), W(!new)>(l: (K, V), right: seq<(K, W)>)
    requires l.0 !in KeySet(right)
    ensures Matches(l, right) == []
  {
  }

  /** Against distinct right keys, a left record whose key is present matches exactly once. */
  lemma {:induction false} MatchesUnique<K(!new), V(!new), W(!new)>(l: (K, V), right: seq<(K, W)>)
    requires DistinctKeys(right)
    requires l.0 in KeySet(right)
    ensures Matches(l, right) == [(l.0, (l.1, Lookup(right, l.0)))]
    decreases |right|
  {
    var rest := right[1..];
    assert DistinctKeys(rest);
    if right[0].0 == l.0 {
      assert l.0 !in KeySet(rest) by {
        forall i | 0 <= i < |rest|
          ensures rest[i].0 != l.0
        {
          assert rest[i] == right[i + 1];
        }
      }
      MatchesAbsent(l, rest);
    } else {
      assert l.0 in KeySet(rest) by {
        var i :| 0 <= i < |right| && right[i].0 == l.0;
        assert rest[i - 1].0 == l.0;
      }
      MatchesUnique(l, rest);
      var j :| 0 <= j < |rest| && rest[j].0 == l.0;
      assert right[j + 1] == rest[j];
    }
  }

  /**
   Joining against a right side with distinct keys that holds every left key drops
   nothing and adds nothing: the i-th joined record extends the i-th left record with
   its key's right value.
   */
  lemma {:induction false} JoinUniqueKeys<K(!new), V(!new), W(!new)>(left: seq<(K, V)>, right: seq<(K, W)>)
    requires DistinctKeys(right)
    requires forall i :: 0 <= i < |left| ==> left[i].0 in KeySet(right)
    ensures |InnerJoin(left, right)| == |left|
    ensures forall i :: 0 <= i < |left| ==>
      InnerJoin(left, right)[i] == (left[i].0, (left[i].1, Lookup(right, left[i].0)))
  {
    if |left| > 0 {
      var init := left[..|left| - 1];
      var last := left[|left| - 1];
      assert left == init + [last];
      forall i | 0 <= i < |init|
        ensures init[i].0 in KeySet(right)
      {
        assert init[i] == left[i];
      }
      JoinUniqueKeys(init, right);
      MatchesUnique(last, right);
      var j := InnerJoin(init, right);
      var tail := [(last.0, (last.1, Lookup(right, last.0)))];
      InnerJoinSnoc(init, last, right);
      var r := InnerJoin(left, right);
      assert r == j + tail;
      forall i | 0 <= i < |init|
        ensures r[i] == (left[i].0, (left[i].1, Lookup(right, left[i].0)))
      {
        assert r[i] == j[i];
        assert init[i] == left[i];
      }
      assert r[|init|] == tail[0];
    }
  }

  lemma InnerJoinSnoc<K(!new), V(!new), W(!new)>(init: seq<(K, V)>, last: (K, V), right: seq<(K, W)>)
    ensures InnerJoin(init + [last], right) == InnerJoin(init, right) + Matches(last, right)
  {
    var left := init + [last];
    assert left[..|left| - 1] == init;
  }
}
