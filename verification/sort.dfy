/**
 `sortBy(lambda a: a[1], False)` (mreduce.py:97): order scored terms by score, highest
 first. Spark does not fix the order of equal scores, so the contract is only that the
 result is in non-increasing score order and is a permutation of the input.
 */
module Sort {

  /** A `(term, score)` record. */
  type Scored = (string, real)

  /** Scores never increase along the sequence. */
  predicate Descending(s: seq<Scored>)
  {
    forall i, j :: 0 <= i < j < |s| ==> s[i].1 >= s[j].1
  }

  /** Every score in `s` is at most `x`'s score. */
  predicate Below(s: seq<Scored>, x: real)
  {
    forall i :: 0 <= i < |s| ==> s[i].1 <= x
  }

  /** A record placed in front of lower-scored records that are already sorted keeps them sorted. */
  lemma ConsDescending(x: Scored, s: seq<Scored>)
    requires Descending(s) && Below(s, x.1)
    ensures Descending([x] + s)
  {
    var r := [x] + s;
    forall i, j | 0 <= i < j < |r|
      ensures r[i].1 >= r[j].1
    {
      if i > 0 {
        assert r[i] == s[i - 1] && r[j] == s[j - 1];
      } else {
        assert r[j] == s[j - 1];
      }
    }
  }

  /** Insert `x` into a sorted sequence before the first record it is not below. */
  function Insert(x: Scored, s: seq<Scored>): (r: seq<Scored>)
    requires Descending(s)
    ensures Descending(r)
    ensures multiset(r) == multiset(s) + multiset{x}
  {
    if |s| == 0 then [x]
    else if x.1 >= s[0].1 then
      assert Below(s, x.1) by {
        forall i | 0 <= i < |s|
          ensures s[i].1 <= x.1
        {
          if i > 0 {
            assert s[0].1 >= s[i].1;
          }
        }
      }
      ConsDescending(x, s);
      [x] + s
    else
      var rest := s[1..];
      TailDescending(s);
      var tail := Insert(x, rest);
      PermutationBelow(tail, rest, x, s[0].1);
      ConsDescending(s[0], tail);
      assert s == [s[0]] + rest;
      [s[0]] + tail
  }

  /** The tail of a sorted sequence is sorted, and bounded by the head's score. */
  lemma TailDescending(s: seq<Scored>)
    requires Descending(s) && |s| > 0
    ensures Descending(s[1..]) && Below(s[1..], s[0].1)
  {
    var rest := s[1..];
    forall i, j | 0 <= i < j < |rest|
      ensures rest[i].1 >= rest[j].1
    {
      assert rest[i] == s[i + 1] && rest[j] == s[j + 1];
    }
    forall i | 0 <= i < |rest|
      ensures rest[i].1 <= s[0].1
    {
      assert rest[i] == s[i + 1];
    }
  }

  /** A permutation of bounded records plus one more bounded record is bounded. */
  lemma PermutationBelow(t: seq<Scored>, s: seq<Scored>, x: Scored, b: real)
    requires multiset(t) == multiset(s) + multiset{x}
    requires Below(s, b) && x.1 <= b
    ensures Below(t, b)
  {
    forall i | 0 <= i < |t|
      ensures t[i].1 <= b
    {
      assert t[i] in multiset(t);
      if t[i] != x {
        assert t[i] in multiset(s);
        var j :| 0 <= j < |s| && s[j] == t[i];
      }
    }
  }

  /** Insertion sort by score, highest first: sorted, and a permutation of the input. */
  function SortDescending(s: seq<Scored>): (r: seq<Scored>)
    ensures Descending(r)
    ensures multiset(r) == multiset(s)
  {
    if |s| == 0 then []
    else
      assert s == [s[0]] + s[1..];
      Insert(s[0], SortDescending(s[1..]))
  }
}
