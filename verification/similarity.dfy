/**
 `similarity` (mreduce.py:87-100): rank every other term of the matrix by its cosine
 score against the query term's vector, dropping zero scores, highest score first.
 */
module Similarity {
  import opened Records
  import opened Cosine
  import opened Sort
  import opened Text
  import opened Corpus
  import TfIdf

  predicate IsQuery(query: string, a: (string, Vector)) { a.0 == query }
  predicate IsOther(query: string, a: (string, Vector)) { a.0 != query }
  predicate IsNonZero(a: Scored) { a.1 != 0.0 }

  /** mreduce.py:89: the records of the query term. */
  function Select(m: TfIdf.Matrix, query: string): (r: TfIdf.Matrix)
    ensures forall i :: 0 <= i < |r| ==> r[i].0 == query
    ensures |r| == 0 <==> query !in KeySet(m)
    ensures DistinctKeys(m) && query in KeySet(m) ==> |r| > 0 && r[0].1 == Lookup(m, query)
  {
    var r := Filter(m, a => IsQuery(query, a));
    assert |r| == 0 <==> query !in KeySet(m) by {
      if query in KeySet(m) {
        var i :| 0 <= i < |m| && m[i].0 == query;
        FilterMembership(m, a => IsQuery(query, a), m[i]);
      }
      if |r| > 0 {
        FilterMembership(m, a => IsQuery(query, a), r[0]);
        assert r[0] in m;
      }
    }
    assert DistinctKeys(m) && |r| > 0 ==> r[0].1 == Lookup(m, query) by {
      if |r| > 0 {
        FilterMembership(m, a => IsQuery(query, a), r[0]);
      }
    }
    r
  }

  /** mreduce.py:94: the records of every other term. */
  function Others(m: TfIdf.Matrix, query: string): (r: TfIdf.Matrix)
    ensures forall i :: 0 <= i < |r| ==> r[i].0 != query
    ensures DistinctKeys(m) ==> DistinctKeys(r)
    ensures DistinctKeys(m) ==> forall t :: t in KeySet(r) <==> t in KeySet(m) && t != query
    ensures DistinctKeys(m) ==> forall i :: 0 <= i < |r| ==> r[i].0 in KeySet(m) && r[i].1 == Lookup(m, r[i].0)
  {
    var r := Filter(m, a => IsOther(query, a));
    assert DistinctKeys(m) ==> (DistinctKeys(r) && (forall t :: t in KeySet(r) <==> t in KeySet(m) && t != query) &&
      forall i :: 0 <= i < |r| ==> r[i].0 in KeySet(m) && r[i].1 == Lookup(m, r[i].0)) by {
      if DistinctKeys(m) {
        FilterKeys(m, a => IsOther(query, a));
        forall t
          ensures t in KeySet(r) <==> t in KeySet(m) && t != query
        {
          if t in KeySet(m) && t != query {
            var i :| 0 <= i < |m| && m[i].0 == t;
            assert IsOther(query, m[i]);
          }
        }
        forall i | 0 <= i < |r|
          ensures r[i].0 in KeySet(m) && r[i].1 == Lookup(m, r[i].0)
        {
          FilterMembership(m, a => IsOther(query, a), r[i]);
          assert r[i] in m;
        }
      }
    }
    r
  }

  /**
   The score the intended `f2` gives: the cosine score, or 0 (so that the record is then
   dropped with the other zero scores) when a vector has norm 0.
   */
  function F2OrZero(v: Vector, query: Vector, sqrt: real -> real): (s: real)
    ensures F2(v, query, sqrt).Ok? ==> F2(v, query, sqrt) == Ok(s)
    ensures SqrtFacts(sqrt) && (IsZeroVector(v) || IsZeroVector(query)) ==> s == 0.0
  {
    match F2(v, query, sqrt)
    case Ok(s) => s
    case ZeroDivisionError => 0.0
  }

  /** `mapValues(f2)` with the intended `f2`: one `(term, score)` record per row, in order. */
  function Scores(rows: TfIdf.Matrix, query: Vector, sqrt: real -> real): (r: seq<Scored>)
    ensures |r| == |rows|
    ensures forall i :: 0 <= i < |rows| ==> r[i].0 == rows[i].0 && r[i].1 == F2OrZero(rows[i].1, query, sqrt)
  {
    seq(|rows|, i requires 0 <= i < |rows| => (rows[i].0, F2OrZero(rows[i].1, query, sqrt)))
  }

  /**
   mreduce.py:97 `mapValues(f2)` as written: the job fails with `ZeroDivisionError` as soon as
   one row's score does, and otherwise yields one `(term, score)` record per row, in order.
   */
  function ScoreAll(rows: TfIdf.Matrix, query: Vector, sqrt: real -> real): (r: Outcome<seq<Scored>>)
    ensures r.Ok? <==> forall i :: 0 <= i < |rows| ==> F2(rows[i].1, query, sqrt).Ok?
    ensures r.Ok? ==> (|r.value| == |rows| &&
      forall i :: 0 <= i < |rows| ==> r.value[i].0 == rows[i].0 && F2(rows[i].1, query, sqrt) == Ok(r.value[i].1))
  {
    if |rows| == 0 then Ok([])
    else
      var rest := ScoreAll(rows[1..], query, sqrt);
      assert forall i :: 0 < i < |rows| ==> rows[1..][i - 1] == rows[i];
      match F2(rows[0].1, query, sqrt)
      case ZeroDivisionError => ZeroDivisionError
      case Ok(s) =>
        match rest
        case ZeroDivisionError =>
          assert !forall i :: 0 <= i < |rows| - 1 ==> F2(rows[1..][i].1, query, sqrt).Ok?;
          ZeroDivisionError
        case Ok(tail) =>
          assert forall i :: 0 <= i < |rows| ==> F2(rows[i].1, query, sqrt).Ok? by {
            forall i | 0 < i < |rows|
              ensures F2(rows[i].1, query, sqrt).Ok?
            {
              assert rows[1..][i - 1] == rows[i];
            }
          }
          Ok([(rows[0].0, s)] + tail)
  }

  /** mreduce.py:97 `filter(lambda a: a[1] != 0).sortBy(lambda a: a[1], False)`. */
  function Rank(scores: seq<Scored>): (r: seq<Scored>)
    ensures Descending(r)
    ensures forall x :: multiset(r)[x] == if IsNonZero(x) then multiset(scores)[x] else 0
  {
    var kept := Filter(scores, IsNonZero);
    assert forall x :: multiset(kept)[x] == if IsNonZero(x) then multiset(scores)[x] else 0 by {
      forall x
        ensures multiset(kept)[x] == if IsNonZero(x) then multiset(scores)[x] else 0
      {
        FilterMultiset(scores, IsNonZero, x);
      }
    }
    SortDescending(kept)
  }

  /** A ranked record is never a zero score. */
  lemma RankNonZero(scores: seq<Scored>)
    ensures forall i :: 0 <= i < |Rank(scores)| ==> Rank(scores)[i].1 != 0.0
  {
    var r := Rank(scores);
    forall i | 0 <= i < |r|
      ensures r[i].1 != 0.0
    {
      assert multiset(r)[r[i]] > 0;
    }
  }

  /** Ranking adds no term: when no score belongs to `query`, no ranked record does. */
  lemma RankKeys(scores: seq<Scored>, query: string)
    requires forall i :: 0 <= i < |scores| ==> scores[i].0 != query
    ensures forall i :: 0 <= i < |Rank(scores)| ==> Rank(scores)[i].0 != query
  {
    var r := Rank(scores);
    forall i | 0 <= i < |r|
      ensures r[i].0 != query
    {
      assert multiset(r)[r[i]] > 0;
      assert r[i] in scores;
    }
  }

  /**
   `similarity(sc, m, query)` (mreduce.py:87-100) as written: the empty list when the query
   is not a term of the matrix; otherwise every other term scored against the query's
   vector with `f2`, zero scores dropped, highest first, and `ZeroDivisionError` as soon as
   one score raises it.
   */
  function Similarity(m: TfIdf.Matrix, query: string, sqrt: real -> real): (r: Outcome<seq<Scored>>)
    ensures query !in KeySet(m) ==> r == Ok([])
    ensures r.Ok? ==> Descending(r.value)
    ensures r.Ok? ==> forall i :: 0 <= i < |r.value| ==> r.value[i].0 != query && r.value[i].1 != 0.0
  {
    var output := Select(m, query);
    if |output| == 0 then Ok([])
    else
      var others := Others(m, query);
      match ScoreAll(others, output[0].1, sqrt)
      case ZeroDivisionError => ZeroDivisionError
      case Ok(scores) =>
        RankNonZero(scores);
        RankKeys(scores, query);
        Ok(Rank(scores))
  }

  /**
   `similarity` with the intended `f2`: the same ranking, but a term whose vector (or the
   query's) has norm 0 scores 0 and is dropped instead of failing the whole query.
   */
  function SimilarityOrZero(m: TfIdf.Matrix, query: string, sqrt: real -> real): (r: seq<Scored>)
    ensures query !in KeySet(m) ==> r == []
    ensures Descending(r)
    ensures forall i :: 0 <= i < |r| ==> r[i].0 != query && r[i].1 != 0.0
  {
    var output := Select(m, query);
    if |output| == 0 then []
    else
      var scores := Scores(Others(m, query), output[0].1, sqrt);
      RankNonZero(scores);
      RankKeys(scores, query);
      Rank(scores)
  }

  /** Whenever the query does not fail, the intended ranking is what the code returns. */
  lemma SimilarityAgrees(m: TfIdf.Matrix, query: string, sqrt: real -> real)
    requires Similarity(m, query, sqrt).Ok?
    ensures Similarity(m, query, sqrt).value == SimilarityOrZero(m, query, sqrt)
  {
    var output := Select(m, query);
    if |output| > 0 {
      var others := Others(m, query);
      var scores := ScoreAll(others, output[0].1, sqrt).value;
      assert scores == Scores(others, output[0].1, sqrt);
    }
  }

  /**
   With distinct terms in the matrix, the intended ranking holds every other term with a
   nonzero score exactly once, with that score, and nothing else.
   */
  lemma SimilarityOrZeroContents(m: TfIdf.Matrix, query: string, sqrt: real -> real, t: string, s: real)
    requires DistinctKeys(m) && query in KeySet(m)
    ensures multiset(SimilarityOrZero(m, query, sqrt))[(t, s)] ==
      if t in KeySet(m) && t != query && F2OrZero(Lookup(m, t), Lookup(m, query), sqrt) == s && s != 0.0 then 1 else 0
  {
    var others := Others(m, query);
    var q := Select(m, query)[0].1;
    var scores := Scores(others, q, sqrt);
    assert SimilarityOrZero(m, query, sqrt) == Rank(scores);
    assert multiset(Rank(scores))[(t, s)] == if s != 0.0 then multiset(scores)[(t, s)] else 0;
    ScoresMultiplicity(others, q, sqrt, t, s);
    if t in KeySet(m) && t != query {
      OthersLookup(m, query, t);
    }
  }

  /** Under distinct keys, another term keeps its vector in `Others`. */
  lemma OthersLookup(m: TfIdf.Matrix, query: string, t: string)
    requires DistinctKeys(m) && t in KeySet(m) && t != query
    ensures t in KeySet(Others(m, query)) && Lookup(Others(m, query), t) == Lookup(m, t)
  {
    var others := Others(m, query);
    var i :| 0 <= i < |others| && others[i].0 == t;
    assert Lookup(others, t) == others[i].1;
  }

  /** With distinct row terms, each row's term occurs once among the scores, with its score. */
  lemma ScoresMultiplicity(rows: TfIdf.Matrix, q: Vector, sqrt: real -> real, t: string, s: real)
    requires DistinctKeys(rows)
    ensures multiset(Scores(rows, q, sqrt))[(t, s)] ==
      if t in KeySet(rows) && F2OrZero(Lookup(rows, t), q, sqrt) == s then 1 else 0
  {
    var scores := Scores(rows, q, sqrt);
    assert DistinctKeys(scores) by {
      forall i, j | 0 <= i < j < |scores|
        ensures scores[i].0 != scores[j].0
      {
        assert scores[i].0 == rows[i].0 && scores[j].0 == rows[j].0;
      }
    }
    DistinctKeysMultiplicity(scores, t, s);
    assert t in KeySet(scores) <==> t in KeySet(rows) by {
      if t in KeySet(scores) {
        var i :| 0 <= i < |scores| && scores[i].0 == t;
        assert rows[i].0 == t;
      }
      if t in KeySet(rows) {
        var i :| 0 <= i < |rows| && rows[i].0 == t;
        assert scores[i].0 == t;
      }
    }
    if t in KeySet(scores) {
      var i :| 0 <= i < |scores| && scores[i].0 == t;
      assert Lookup(scores, t) == scores[i].1;
      assert Lookup(rows, t) == rows[i].1;
    }
  }

  /**
   With distinct terms in the matrix and a query that does not fail, the result holds
   every other term whose `f2` score is nonzero exactly once, with that score, and nothing
   else (mreduce.py:94-97).
   */
  lemma SimilarityContents(m: TfIdf.Matrix, query: string, sqrt: real -> real, t: string, s: real)
    requires DistinctKeys(m) && query in KeySet(m)
    requires Similarity(m, query, sqrt).Ok?
    ensures multiset(Similarity(m, query, sqrt).value)[(t, s)] ==
      if t in KeySet(m) && t != query && F2(Lookup(m, t), Lookup(m, query), sqrt) == Ok(s) && s != 0.0 then 1 else 0
  {
    SimilarityAgrees(m, query, sqrt);
    SimilarityOrZeroContents(m, query, sqrt, t, s);
    if t in KeySet(m) && t != query {
      var others := Others(m, query);
      assert t in KeySet(others);
      var i :| 0 <= i < |others| && others[i].0 == t;
      assert F2(others[i].1, Select(m, query)[0].1, sqrt).Ok?;
    }
  }

  /**
   With distinct terms in the matrix, the query fails exactly when it is a term of the
   matrix and some other term's `f2` score raises `ZeroDivisionError`.
   */
  lemma SimilarityFails(m: TfIdf.Matrix, query: string, sqrt: real -> real)
    requires DistinctKeys(m)
    ensures Similarity(m, query, sqrt).ZeroDivisionError? <==>
      query in KeySet(m) && exists i :: 0 <= i < |m| && m[i].0 != query && F2(m[i].1, Lookup(m, query), sqrt).ZeroDivisionError?
  {
    if query in KeySet(m) {
      var q := Select(m, query)[0].1;
      assert q == Lookup(m, query);
      OthersExist(m, query, v => F2(v, q, sqrt).ZeroDivisionError?);
    }
  }

  /** Under distinct keys, some other term's vector has a property exactly when some record of `Others` does. */
  lemma OthersExist(m: TfIdf.Matrix, query: string, p: Vector -> bool)
    requires DistinctKeys(m)
    ensures (exists i :: 0 <= i < |m| && m[i].0 != query && p(m[i].1)) <==>
      (exists j :: 0 <= j < |Others(m, query)| && p(Others(m, query)[j].1))
  {
    var others := Others(m, query);
    if exists i :: 0 <= i < |m| && m[i].0 != query && p(m[i].1) {
      var i :| 0 <= i < |m| && m[i].0 != query && p(m[i].1);
      assert m[i].0 in KeySet(others);
      var j :| 0 <= j < |others| && others[j].0 == m[i].0;
      assert others[j].1 == m[i].1;
    }
    if exists j :: 0 <= j < |others| && p(others[j].1) {
      var j :| 0 <= j < |others| && p(others[j].1);
      assert others[j].0 in KeySet(m);
      var i :| 0 <= i < |m| && m[i].0 == others[j].0;
      assert m[i].1 == others[j].1;
    }
  }

  /**
   With distinct terms in the matrix and a proper square root, the query fails exactly
   when it is a term of the matrix and its own vector or another term's vector is all
   zeros (mreduce.py:38, reached from mreduce.py:97).
   */
  lemma SimilarityFailsOnZeroVector(m: TfIdf.Matrix, query: string, sqrt: real -> real)
    requires DistinctKeys(m) && SqrtFacts(sqrt)
    ensures Similarity(m, query, sqrt).ZeroDivisionError? <==>
      query in KeySet(m) && exists i :: 0 <= i < |m| && m[i].0 != query && (IsZeroVector(m[i].1) || IsZeroVector(Lookup(m, query)))
  {
    SimilarityFails(m, query, sqrt);
    if query in KeySet(m) {
      var q := Lookup(m, query);
      forall i | 0 <= i < |m|
        ensures F2(m[i].1, q, sqrt).ZeroDivisionError? <==> IsZeroVector(m[i].1) || IsZeroVector(q)
      {
      }
    }
  }

  /**
   A term whose vector is all zeros is never ranked by the intended `similarity`, whatever
   the query.
   */
  lemma SimilarityOrZeroSkipsZeroVector(m: TfIdf.Matrix, query: string, sqrt: real -> real, t: string)
    requires DistinctKeys(m) && SqrtFacts(sqrt)
    requires t in KeySet(m) && IsZeroVector(Lookup(m, t))
    ensures forall i :: 0 <= i < |SimilarityOrZero(m, query, sqrt)| ==> SimilarityOrZero(m, query, sqrt)[i].0 != t
  {
    var r := SimilarityOrZero(m, query, sqrt);
    forall i | 0 <= i < |r|
      ensures r[i].0 != t
    {
      if query in KeySet(m) {
        assert multiset(r)[r[i]] > 0;
        SimilarityOrZeroContents(m, query, sqrt, r[i].0, r[i].1);
      }
    }
  }

  /**
   The code as written: once the matrix holds a term whose vector is all zeros, every
   query for another term of the matrix fails with `ZeroDivisionError` (mreduce.py:38,
   reached through mreduce.py:97).
   */
  lemma ZeroVectorFailsQuery(m: TfIdf.Matrix, query: string, sqrt: real -> real, u: string)
    requires DistinctKeys(m) && SqrtFacts(sqrt)
    requires query in KeySet(m) && u in KeySet(m) && u != query && IsZeroVector(Lookup(m, u))
    ensures Similarity(m, query, sqrt) == ZeroDivisionError
  {
    SimilarityFailsOnZeroVector(m, query, sqrt);
    var i :| 0 <= i < |m| && m[i].0 == u;
  }

  /**
   The code as written, from the corpus: a vocabulary term whose document frequency
   equals the line count has idf `log10(1) = 0` (mreduce.py:59), so its vector is all
   zeros, and then every query for any other indexed term fails with `ZeroDivisionError`.
   */
  lemma UbiquitousTermFailsQuery(lines: seq<string>, log10: real -> real, sqrt: real -> real, query: string, u: string)
    requires SqrtFacts(sqrt) && log10(1.0) == 0.0
    requires |lines| >= 1 && IsVocab(u) && DocFreq(lines, u) == |lines|
    requires IsVocab(query) && DocFreq(lines, query) >= 1 && query != u
    ensures Similarity(TfIdf.BuildMatrix(lines, log10), query, sqrt) == ZeroDivisionError
  {
    var m := TfIdf.BuildMatrix(lines, log10);
    TfIdf.MatrixIsTfIdf(lines, log10);
    assert u in KeySet(m);
    var i :| 0 <= i < |m| && m[i].0 == u;
    TfIdf.UbiquitousRowIsZero(lines, log10, u, m[i].1);
    ZeroVectorFailsQuery(m, query, sqrt, u);
  }

  /**
   A concrete matrix of the shape the lines `"d1 dis_a gene_b"` and `"d2 dis_a"` produce:
   the all-zero row of `dis_a` and one weight `w` for `gene_b`. Querying `gene_b` fails,
   whatever `w` is. `ExampleLinesFailQuery` derives the failure from those lines.
   */
  lemma QueryNextToUbiquitousTermFails(sqrt: real -> real, w: real)
    requires SqrtFacts(sqrt)
    ensures Similarity([("dis_a", [("d1", 0.0), ("d2", 0.0)]), ("gene_b", [("d1", w)])], "gene_b", sqrt) == ZeroDivisionError
  {
    var m: TfIdf.Matrix := [("dis_a", [("d1", 0.0), ("d2", 0.0)]), ("gene_b", [("d1", w)])];
    assert m[0].0 == "dis_a" && m[1].0 == "gene_b";
    assert "dis_a" != "gene_b" by {
      assert "dis_a"[0] != "gene_b"[0];
    }
    assert DistinctKeys(m);
    assert "dis_a" in KeySet(m) && "gene_b" in KeySet(m);
    assert Lookup(m, "dis_a") == m[0].1;
    ZeroVectorFailsQuery(m, "gene_b", sqrt, "dis_a");
  }

  /**
   The code as written, from the lines `"d1 dis_a gene_b"` and `"d2 dis_a"`: `dis_a` is in
   both documents, so its idf is `log10(2 / 2) = 0`, and querying `gene_b` fails with
   `ZeroDivisionError`.
   */
  lemma ExampleLinesFailQuery(log10: real -> real, sqrt: real -> real)
    requires SqrtFacts(sqrt) && log10(1.0) == 0.0
    ensures Similarity(TfIdf.BuildMatrix(["d1 dis_a gene_b", "d2 dis_a"], log10), "gene_b", sqrt) == ZeroDivisionError
  {
    var l1, l2 := "d1 dis_a gene_b", "d2 dis_a";
    ExampleTerms();
    ExampleDocFreqs(l1, l2);
    UbiquitousTermFailsQuery([l1, l2], log10, sqrt, "gene_b", "dis_a");
  }

  /** The two example terms are vocabulary terms, and different. */
  lemma ExampleTerms()
    ensures IsVocab("dis_a") && IsVocab("gene_b") && "dis_a" != "gene_b"
  {
    assert "dis_" == "dis_a"[..4] && "gene_" == "gene_b"[..5];
    assert "dis_a"[0] != "gene_b"[0];
  }

  /** In the example lines `dis_a` is in both documents and `gene_b` in one. */
  lemma ExampleDocFreqs(l1: string, l2: string)
    requires l1 == "d1 dis_a gene_b" && l2 == "d2 dis_a"
    ensures DocFreq([l1, l2], "dis_a") == 2 && DocFreq([l1, l2], "gene_b") >= 1
  {
    ExampleSplits(l1, l2);
    TwoLineDocs(l1, l2, "dis_a");
    TwoLineDocs(l1, l2, "gene_b");
  }

  /** How the two example lines split: their ids and terms. */
  lemma ExampleSplits(l1: string, l2: string)
    requires l1 == "d1 dis_a gene_b" && l2 == "d2 dis_a"
    ensures DocId(l1) == "d1" && DocId(l2) == "d2" && "d1" != "d2"
    ensures "dis_a" in Split(l1) && "gene_b" in Split(l1) && "dis_a" in Split(l2)
    ensures "dis_a" != "d1" && "dis_a" != "d2" && "gene_b" != "d1"
  {
    SplitThree(l1);
    SplitTwo(l2);
    var p1, p2 := Split(l1), Split(l2);
    assert p1[1] == "dis_a" && p1[2] == "gene_b" && p2[1] == "dis_a";
    assert "d1"[1] != "d2"[1];
    assert "dis_a"[1] != "d1"[1] && "dis_a"[1] != "d2"[1] && "gene_b"[0] != "d1"[0];
  }

  /** The first example line splits into its id and two terms. */
  lemma SplitThree(l: string)
    requires l == "d1 dis_a gene_b"
    ensures Split(l) == ["d1", "dis_a", "gene_b"]
  {
    SplitUnsplit(["d1", "dis_a", "gene_b"]);
    assert l == Unsplit(["d1", "dis_a", "gene_b"]);
  }

  /** The second example line splits into its id and one term. */
  lemma SplitTwo(l: string)
    requires l == "d2 dis_a"
    ensures Split(l) == ["d2", "dis_a"]
  {
    SplitUnsplit(["d2", "dis_a"]);
    assert l == Unsplit(["d2", "dis_a"]);
  }

  /** Of two lines, a term of the first is in its document; a term of both, with different ids, is in two. */
  lemma TwoLineDocs(l1: string, l2: string, t: string)
    requires t != DocId(l1) && t in Split(l1)
    ensures DocId(l1) in DocsContaining([l1, l2], t)
    ensures t != DocId(l2) && t in Split(l2) && DocId(l1) != DocId(l2) ==> DocFreq([l1, l2], t) == 2
  {
    assert [l1, l2] == [l1] + [l2] && [l1] == [] + [l1];
    DocsContainingSnoc([], l1, t);
    DocsContainingSnoc([l1], l2, t);
    assert DocsContaining([], t) == {};
  }

  /**
   The intended behaviour, from the corpus: the same query succeeds, and the term whose
   document frequency equals the line count is simply not ranked.
   */
  lemma UbiquitousTermNotRanked(lines: seq<string>, log10: real -> real, sqrt: real -> real, query: string, u: string)
    requires SqrtFacts(sqrt) && log10(1.0) == 0.0
    requires |lines| >= 1 && IsVocab(u) && DocFreq(lines, u) == |lines|
    ensures forall i :: 0 <= i < |SimilarityOrZero(TfIdf.BuildMatrix(lines, log10), query, sqrt)| ==>
      SimilarityOrZero(TfIdf.BuildMatrix(lines, log10), query, sqrt)[i].0 != u
  {
    var m := TfIdf.BuildMatrix(lines, log10);
    TfIdf.MatrixIsTfIdf(lines, log10);
    assert u in KeySet(m);
    var i :| 0 <= i < |m| && m[i].0 == u;
    TfIdf.UbiquitousRowIsZero(lines, log10, u, m[i].1);
    SimilarityOrZeroSkipsZeroVector(m, query, sqrt, u);
  }
}
