/**
 The batch pipeline `tfidf` (mreduce.py:41-84), one function per dataset it builds, and
 the proof that the matrix it returns holds, for every vocabulary term, exactly the
 tf-idf weights of the reference measures in Corpus.
 */
module TfIdf {
  import opened Text
  import opened Records
  import opened Combine
  import opened Reduce
  import opened Join
  import opened Corpus
  import opened Tokenize
  import Cosine

  /** The term-by-document matrix: one `(term, row)` record per vocabulary term. */
  type Matrix = seq<(string, Cosine.Vector)>

  predicate IsNonBlankPair(p: (string, string))
  {
    IsNonBlank(p.0)
  }

  predicate IsVocabPair(p: (string, string))
  {
    IsVocab(p.0)
  }

  /** mreduce.py:55: the records of vocabulary terms. */
  function VocabPairs(lines: seq<string>): seq<(string, string)>
  {
    Filter(Pairs(lines), IsVocabPair)
  }

  /** mreduce.py:52: the records of non-blank terms, the document-length universe. */
  function NonBlankPairs(lines: seq<string>): seq<(string, string)>
  {
    Filter(Pairs(lines), IsNonBlankPair)
  }

  /** The doc id of each record (the key chosen at mreduce.py:66). */
  function DocsOf(ps: seq<(string, string)>): (ds: seq<string>)
    ensures |ds| == |ps|
    ensures forall i :: 0 <= i < |ps| ==> ds[i] == ps[i].1
  {
    seq(|ps|, i requires 0 <= i < |ps| => ps[i].1)
  }

  /** mreduce.py:62-63: `((term, doc_id), count)` for every vocabulary record. */
  function TermCounts(lines: seq<string>): seq<((string, string), Count)>
  {
    CountByKey(VocabPairs(lines))
  }

  /** mreduce.py:66-67: `(doc_id, length)`, counting non-blank records. */
  function DocLengths(lines: seq<string>): seq<(string, Count)>
  {
    CountByKey(DocsOf(NonBlankPairs(lines)))
  }

  /** mreduce.py:71: re-key the counts by doc id, `(doc_id, (term, count))`. */
  function KeyByDoc(counts: seq<((string, string), Count)>): (r: seq<(string, (string, Count))>)
    ensures |r| == |counts|
    ensures forall i :: 0 <= i < |r| ==> r[i] == (counts[i].0.1, (counts[i].0.0, counts[i].1))
  {
    seq(|counts|, i requires 0 <= i < |counts| => (counts[i].0.1, (counts[i].0.0, counts[i].1)))
  }

  /** mreduce.py:75: `(doc_id, ((term, count), length))` to `(term, (doc_id, count / length))`. */
  function DivideByLength(j: seq<(string, ((string, Count), Count))>): (r: seq<(string, (string, real))>)
    ensures |r| == |j|
    ensures forall i :: 0 <= i < |j| ==> r[i] == (j[i].1.0.0, (j[i].0, j[i].1.0.1 as real / j[i].1.1 as real))
  {
    seq(|j|, i requires 0 <= i < |j| => (j[i].1.0.0, (j[i].0, j[i].1.0.1 as real / j[i].1.1 as real)))
  }

  /** mreduce.py:72-75: join with the lengths and divide, `(term, (doc_id, tf))`. */
  function TfRecords(lines: seq<string>): seq<(string, (string, real))>
  {
    DivideByLength(InnerJoin(KeyByDoc(TermCounts(lines)), DocLengths(lines)))
  }

  /** mreduce.py:58: `(term, [doc_id, ...])`, one doc id per occurrence. */
  function DocGroups(lines: seq<string>): seq<(string, seq<string>)>
  {
    CombineByKey(VocabPairs(lines))
  }

  /** `len(set(ids))`. */
  function DistinctCount(ids: seq<string>): (n: nat)
    ensures n <= |ids|
    ensures |ids| >= 1 ==> n >= 1
  {
    var s := set x | x in ids;
    if |ids| >= 1 then
      assert ids[0] in s;
      CardBound(ids);
      |s|
    else
      CardBound(ids);
      |s|
  }

  lemma {:induction false} CardBound(ids: seq<string>)
    ensures |set x | x in ids| <= |ids|
  {
    if |ids| > 0 {
      var init := ids[..|ids| - 1];
      assert ids == init + [ids[|ids| - 1]];
      CardBound(init);
      assert (set x | x in ids) == (set x | x in init) + {ids[|ids| - 1]};
    }
  }

  /** mreduce.py:59: `(term, log10(total_docs / df))`, total_docs being the line count. */
  function IdfRecords(lines: seq<string>, log10: real -> real): seq<(string, real)>
  {
    var g := DocGroups(lines);
    // Every group is non-empty, so the divisor `DistinctCount(g[i].1)` is at least 1.
    CombineEntries(VocabPairs(lines));
    seq(|g|, i requires 0 <= i < |g| => (g[i].0, log10(|lines| as real / DistinctCount(g[i].1) as real)))
  }

  /** mreduce.py:82: the weight of a term in a document is its tf times its idf. */
  function Weight(tf: real, idf: real): real
  {
    tf * idf
  }

  /** A weight is non-negative when tf and idf are, and 0 when the idf is. */
  lemma WeightSign(tf: real, idf: real)
    ensures tf >= 0.0 && idf >= 0.0 ==> Weight(tf, idf) >= 0.0
    ensures idf == 0.0 ==> Weight(tf, idf) == 0.0
  {
  }

  /** mreduce.py:82: `(term, ((doc_id, tf), idf))` to `(term, (doc_id, tf * idf))`. */
  function MultiplyByIdf(j: seq<(string, ((string, real), real))>): (r: seq<(string, (string, real))>)
    ensures |r| == |j|
    ensures forall i :: 0 <= i < |j| ==> r[i].0 == j[i].0 && r[i].1.0 == j[i].1.0.0 && r[i].1.1 == Weight(j[i].1.0.1, j[i].1.1)
  {
    seq(|j|, i requires 0 <= i < |j| => (j[i].0, (j[i].1.0.0, Weight(j[i].1.0.1, j[i].1.1))))
  }

  /** mreduce.py:78-82: join tf with idf on the term and multiply, `(term, (doc_id, tf * idf))`. */
  function Weighted(lines: seq<string>, log10: real -> real): seq<(string, (string, real))>
  {
    MultiplyByIdf(InnerJoin(TfRecords(lines), IdfRecords(lines, log10)))
  }

  /** `tfidf`: group the weighted records by term into the matrix (mreduce.py:82). */
  function BuildMatrix(lines: seq<string>, log10: real -> real): Matrix
  {
    CombineByKey(Weighted(lines, log10))
  }

  /** A record `(t, d)` survives the vocabulary filter exactly when `t` is a vocabulary term occurring in `d`. */
  lemma VocabPairsMembership(lines: seq<string>, t: string, d: string)
    ensures multiset(VocabPairs(lines))[(t, d)] == if IsVocab(t) then TermCount(lines, t, d) else 0
    ensures (t, d) in VocabPairs(lines) <==> IsVocab(t) && TermCount(lines, t, d) >= 1
  {
    FilterMultiset(Pairs(lines), IsVocabPair, (t, d));
  }

  /**
   mreduce.py:62-63: one count per (vocabulary term, document) pair that occurs, equal to
   the term's number of occurrences in the document.
   */
  lemma TermCountsMatch(lines: seq<string>)
    ensures DistinctKeys(TermCounts(lines))
    ensures forall t, d :: (t, d) in KeySet(TermCounts(lines)) <==> IsVocab(t) && TermCount(lines, t, d) >= 1
    ensures forall i :: 0 <= i < |TermCounts(lines)| ==>
      TermCounts(lines)[i].1 == TermCount(lines, TermCounts(lines)[i].0.0, TermCounts(lines)[i].0.1)
  {
    var tc := TermCounts(lines);
    forall t, d
      ensures (t, d) in KeySet(tc) <==> IsVocab(t) && TermCount(lines, t, d) >= 1
    {
      VocabPairsMembership(lines, t, d);
    }
    CountEntries(VocabPairs(lines));
    forall i | 0 <= i < |tc|
      ensures tc[i].1 == TermCount(lines, tc[i].0.0, tc[i].0.1)
    {
      VocabPairsMembership(lines, tc[i].0.0, tc[i].0.1);
    }
  }

  lemma DocsOfAppend(a: seq<(string, string)>, b: seq<(string, string)>)
    ensures DocsOf(a + b) == DocsOf(a) + DocsOf(b)
  {
  }

  /** The non-blank records one line emits all carry its id, one per counted token. */
  lemma {:induction false} EmitNonBlankDocs(tokens: seq<string>, id: string, d: string)
    ensures multiset(DocsOf(Filter(Emit(tokens, id), IsNonBlankPair)))[d] == if d == id then CountedTokens(tokens, id) else 0
  {
    if |tokens| > 0 {
      var init := tokens[..|tokens| - 1];
      var last := tokens[|tokens| - 1];
      var tail := if last == id then [] else [(last, id)];
      var before := Filter(Emit(init, id), IsNonBlankPair);
      var here := Filter(tail, IsNonBlankPair);
      assert Emit(tokens, id) == Emit(init, id) + tail;
      FilterAppend(Emit(init, id), tail, IsNonBlankPair);
      DocsOfAppend(before, here);
      assert multiset(DocsOf(before + here)) == multiset(DocsOf(before)) + multiset(DocsOf(here));
      EmitNonBlankDocs(init, id, d);
      NonBlankTail(last, id);
      assert CountedTokens(tokens, id) == CountedTokens(init, id) + (if last != id && IsNonBlank(last) then 1 else 0);
    }
  }

  /** The record one token emits passes the blank filter exactly when the token is counted. */
  lemma NonBlankTail(last: string, id: string)
    ensures DocsOf(Filter(if last == id then [] else [(last, id)], IsNonBlankPair)) ==
      if last != id && IsNonBlank(last) then [id] else []
  {
    if last != id {
      assert Filter([(last, id)], IsNonBlankPair) == Filter([], IsNonBlankPair) + (if IsNonBlank(last) then [(last, id)] else []);
    }
  }

  /** mreduce.py:52 and 66-67 count, per document, exactly its reference length. */
  lemma {:induction false} NonBlankDocCount(lines: seq<string>, d: string)
    ensures multiset(DocsOf(NonBlankPairs(lines)))[d] == DocLength(lines, d)
  {
    if |lines| > 0 {
      var init := lines[..|lines| - 1];
      var last := lines[|lines| - 1];
      var a := Split(last);
      var before := NonBlankPairs(init);
      var here := Filter(Emit(a, a[0]), IsNonBlankPair);
      NonBlankPairsSnoc(lines);
      DocsOfAppend(before, here);
      assert multiset(DocsOf(before + here)) == multiset(DocsOf(before)) + multiset(DocsOf(here));
      NonBlankDocCount(init, d);
      EmitNonBlankDocs(a, a[0], d);
      assert DocLength(lines, d) == DocLength(init, d) + (if DocId(last) == d then CountedTokens(a, d) else 0);
    }
  }

  /** The non-blank records of one more line follow those of the lines before it. */
  lemma NonBlankPairsSnoc(lines: seq<string>)
    requires |lines| > 0
    ensures var a := Split(lines[|lines| - 1]);
      NonBlankPairs(lines) == NonBlankPairs(lines[..|lines| - 1]) + Filter(Emit(a, a[0]), IsNonBlankPair)
  {
    var init := lines[..|lines| - 1];
    var last := lines[|lines| - 1];
    var a := Split(last);
    assert Pairs(lines) == Pairs(init) + F1(last);
    assert F1(last) == Emit(a, a[0]);
    FilterAppend(Pairs(init), F1(last), IsNonBlankPair);
  }

  /**
   mreduce.py:66-67: one length per document that has a counted token, equal to the
   document's reference length.
   */
  lemma DocLengthsMatch(lines: seq<string>)
    ensures DistinctKeys(DocLengths(lines))
    ensures forall d :: d in KeySet(DocLengths(lines)) <==> DocLength(lines, d) >= 1
    ensures forall i :: 0 <= i < |DocLengths(lines)| ==> DocLengths(lines)[i].1 == DocLength(lines, DocLengths(lines)[i].0)
  {
    forall d
      ensures d in KeySet(DocLengths(lines)) <==> DocLength(lines, d) >= 1
    {
      NonBlankDocCount(lines, d);
    }
    CountEntries(DocsOf(NonBlankPairs(lines)));
    forall i | 0 <= i < |DocLengths(lines)|
      ensures DocLengths(lines)[i].1 == DocLength(lines, DocLengths(lines)[i].0)
    {
      NonBlankDocCount(lines, DocLengths(lines)[i].0);
    }
  }

  /** What is known of the i-th counted pair: a vocabulary term present in a document of positive length. */
  lemma CountedPair(lines: seq<string>, i: nat)
    requires i < |TermCounts(lines)|
    ensures IsVocab(TermCounts(lines)[i].0.0)
    ensures TermCounts(lines)[i].1 == TermCount(lines, TermCounts(lines)[i].0.0, TermCounts(lines)[i].0.1) >= 1
    ensures DocLength(lines, TermCounts(lines)[i].0.1) >= 1
    ensures TermCounts(lines)[i].0.1 in KeySet(DocLengths(lines))
    ensures Lookup(DocLengths(lines), TermCounts(lines)[i].0.1) == DocLength(lines, TermCounts(lines)[i].0.1)
  {
    var tc := TermCounts(lines);
    var (t, d) := tc[i].0;
    TermCountsMatch(lines);
    DocLengthsMatch(lines);
    assert tc[i].0 in KeySet(tc);
    TfInUnitInterval(lines, t, d);
  }

  /**
   mreduce.py:72-75: the join with the document lengths drops no count, and the i-th tf
   record is the reference term frequency of the i-th counted (term, document) pair.
   */
  lemma TfRecordsMatch(lines: seq<string>)
    ensures |TfRecords(lines)| == |TermCounts(lines)|
    ensures forall i :: 0 <= i < |TermCounts(lines)| ==>
      var t, d := TermCounts(lines)[i].0.0, TermCounts(lines)[i].0.1;
      IsVocab(t) && TermCount(lines, t, d) >= 1 && DocLength(lines, d) >= 1 &&
      TfRecords(lines)[i] == (t, (d, Tf(lines, t, d)))
  {
    var tc := TermCounts(lines);
    var dl := DocLengths(lines);
    var keyed := KeyByDoc(tc);
    DocLengthsMatch(lines);
    forall i | 0 <= i < |keyed|
      ensures keyed[i].0 in KeySet(dl)
    {
      CountedPair(lines, i);
    }
    JoinUniqueKeys(keyed, dl);
    var j := InnerJoin(keyed, dl);
    var tf := TfRecords(lines);
    forall i | 0 <= i < |tc|
      ensures var (t, d) := tc[i].0;
        IsVocab(t) && TermCount(lines, t, d) >= 1 && DocLength(lines, d) >= 1 &&
        tf[i] == (t, (d, Tf(lines, t, d)))
    {
      CountedPair(lines, i);
      var d := tc[i].0.1;
      assert j[i] == (d, ((tc[i].0.0, tc[i].1), Lookup(dl, d)));
    }
  }

  /** The doc ids grouped under a vocabulary term are, as a set, the documents containing it. */
  lemma GroupIsDocsContaining(lines: seq<string>, t: string)
    requires IsVocab(t)
    ensures (set x | x in ValuesOf(VocabPairs(lines), t)) == DocsContaining(lines, t)
  {
    forall x
      ensures x in ValuesOf(VocabPairs(lines), t) <==> x in DocsContaining(lines, t)
    {
      VocabPairsMembership(lines, t, x);
      ContainsIffCounted(lines, t, x);
    }
  }

  /** The terms that reach the grouping stage are the vocabulary terms that occur somewhere. */
  lemma VocabKeys(lines: seq<string>, t: string)
    ensures t in KeySet(VocabPairs(lines)) <==> IsVocab(t) && DocFreq(lines, t) >= 1
  {
    var vp := VocabPairs(lines);
    if t in KeySet(vp) {
      var i :| 0 <= i < |vp| && vp[i].0 == t;
      assert vp[i] in vp;
      VocabPairsMembership(lines, t, vp[i].1);
      ContainsIffCounted(lines, t, vp[i].1);
    }
    if IsVocab(t) && DocFreq(lines, t) >= 1 {
      var d :| d in DocsContaining(lines, t);
      ContainsIffCounted(lines, t, d);
      VocabPairsMembership(lines, t, d);
      var i :| 0 <= i < |vp| && vp[i] == (t, d);
      assert vp[i].0 in KeySet(vp);
    }
  }

  /** The idf dataset has the grouped dataset's keys, in the same order. */
  lemma IdfShape(lines: seq<string>, log10: real -> real)
    ensures |IdfRecords(lines, log10)| == |DocGroups(lines)|
    ensures forall i :: 0 <= i < |DocGroups(lines)| ==> IdfRecords(lines, log10)[i].0 == DocGroups(lines)[i].0
    ensures DistinctKeys(IdfRecords(lines, log10))
    ensures KeySet(IdfRecords(lines, log10)) == KeySet(VocabPairs(lines))
  {
    var g := DocGroups(lines);
    var idf := IdfRecords(lines, log10);
    assert forall i :: 0 <= i < |g| ==> idf[i].0 == g[i].0;
    SameKeys(idf, g);
  }

  lemma IdfEntry(lines: seq<string>, log10: real -> real, i: nat)
    requires i < |IdfRecords(lines, log10)|
    ensures IsVocab(IdfRecords(lines, log10)[i].0)
    ensures DocFreq(lines, IdfRecords(lines, log10)[i].0) >= 1
    ensures IdfRecords(lines, log10)[i].1 == Idf(lines, IdfRecords(lines, log10)[i].0, log10)
  {
    var g := DocGroups(lines);
    var vp := VocabPairs(lines);
    IdfShape(lines, log10);
    CombineEntries(vp);
    var t := g[i].0;
    assert t in KeySet(g);
    VocabKeys(lines, t);
    GroupIsDocsContaining(lines, t);
    assert DistinctCount(g[i].1) == DocFreq(lines, t);
  }

  /**
   mreduce.py:58-59: exactly one idf record per vocabulary term that occurs, holding
   `log10(total_docs / df)` with df the number of distinct documents containing it.
   */
  lemma IdfRecordsMatch(lines: seq<string>, log10: real -> real)
    ensures DistinctKeys(IdfRecords(lines, log10))
    ensures forall t :: t in KeySet(IdfRecords(lines, log10)) <==> IsVocab(t) && DocFreq(lines, t) >= 1
    ensures forall i :: 0 <= i < |IdfRecords(lines, log10)| ==>
      var t := IdfRecords(lines, log10)[i].0;
      IsVocab(t) && DocFreq(lines, t) >= 1 && IdfRecords(lines, log10)[i].1 == Idf(lines, t, log10)
  {
    IdfShape(lines, log10);
    forall t
      ensures t in KeySet(IdfRecords(lines, log10)) <==> IsVocab(t) && DocFreq(lines, t) >= 1
    {
      VocabKeys(lines, t);
    }
    forall i | 0 <= i < |IdfRecords(lines, log10)|
      ensures var t := IdfRecords(lines, log10)[i].0;
        IsVocab(t) && DocFreq(lines, t) >= 1 && IdfRecords(lines, log10)[i].1 == Idf(lines, t, log10)
    {
      IdfEntry(lines, log10, i);
    }
  }

  /** The reference tf-idf weight of term `t` in document `d`. */
  ghost function TfIdfWeight(lines: seq<string>, log10: real -> real, t: string, d: string): real
    requires DocLength(lines, d) >= 1 && DocFreq(lines, t) >= 1
  {
    Weight(Tf(lines, t, d), Idf(lines, t, log10))
  }

  /** The term of every counted pair has an idf record, holding its reference idf. */
  lemma CountedTermHasIdf(lines: seq<string>, log10: real -> real, i: nat)
    requires i < |TermCounts(lines)|
    ensures DocFreq(lines, TermCounts(lines)[i].0.0) >= 1
    ensures TermCounts(lines)[i].0.0 in KeySet(IdfRecords(lines, log10))
    ensures Lookup(IdfRecords(lines, log10), TermCounts(lines)[i].0.0) == Idf(lines, TermCounts(lines)[i].0.0, log10)
  {
    var t, d := TermCounts(lines)[i].0.0, TermCounts(lines)[i].0.1;
    CountedPair(lines, i);
    ContainsIffCounted(lines, t, d);
    assert d in DocsContaining(lines, t);
    IdfRecordsMatch(lines, log10);
    LookupIdf(lines, log10, IdfRecords(lines, log10), t);
  }

  /** In a dataset holding exactly the reference idf of each indexed term, an indexed term's lookup is its idf. */
  lemma LookupIdf(lines: seq<string>, log10: real -> real, idf: seq<(string, real)>, t: string)
    requires DistinctKeys(idf)
    requires forall t :: t in KeySet(idf) <==> IsVocab(t) && DocFreq(lines, t) >= 1
    requires forall i :: 0 <= i < |idf| ==>
      var t := idf[i].0;
      IsVocab(t) && DocFreq(lines, t) >= 1 && idf[i].1 == Idf(lines, t, log10)
    requires IsVocab(t) && DocFreq(lines, t) >= 1
    ensures t in KeySet(idf) && Lookup(idf, t) == Idf(lines, t, log10)
  {
    var j :| 0 <= j < |idf| && idf[j].0 == t;
    assert Lookup(idf, t) == idf[j].1;
  }

  /** mreduce.py:78: every tf record finds its term's idf record. */
  lemma IdfJoinAligned(lines: seq<string>, log10: real -> real)
    ensures |TfRecords(lines)| == |TermCounts(lines)|
    ensures |InnerJoin(TfRecords(lines), IdfRecords(lines, log10))| == |TfRecords(lines)|
    ensures forall i :: 0 <= i < |TfRecords(lines)| ==>
      var tf := TfRecords(lines)[i];
      tf.0 in KeySet(IdfRecords(lines, log10)) &&
      InnerJoin(TfRecords(lines), IdfRecords(lines, log10))[i] == (tf.0, (tf.1, Lookup(IdfRecords(lines, log10), tf.0)))
  {
    var tf := TfRecords(lines);
    var idf := IdfRecords(lines, log10);
    TfRecordsMatch(lines);
    IdfShape(lines, log10);
    forall i | 0 <= i < |tf|
      ensures tf[i].0 in KeySet(idf)
    {
      CountedTermHasIdf(lines, log10, i);
    }
    JoinUniqueKeys(tf, idf);
  }

  lemma WeightedEntry(lines: seq<string>, log10: real -> real, i: nat, t: string, d: string)
    requires i < |TermCounts(lines)| && TermCounts(lines)[i].0 == (t, d)
    ensures IsVocab(t) && TermCount(lines, t, d) >= 1 && DocLength(lines, d) >= 1 && DocFreq(lines, t) >= 1
    ensures i < |Weighted(lines, log10)|
    ensures Weighted(lines, log10)[i].0 == t && Weighted(lines, log10)[i].1.0 == d
    ensures Weighted(lines, log10)[i].1.1 == TfIdfWeight(lines, log10, t, d)
  {
    var j := InnerJoin(TfRecords(lines), IdfRecords(lines, log10));
    assert IsVocab(t) && TermCount(lines, t, d) >= 1 && DocLength(lines, d) >= 1 && DocFreq(lines, t) >= 1 &&
      i < |j| && j[i].0 == t && j[i].1.0.0 == d && j[i].1.0.1 == Tf(lines, t, d) && j[i].1.1 == Idf(lines, t, log10) by {
      IdfJoinAligned(lines, log10);
      TfRecordsMatch(lines);
      CountedTermHasIdf(lines, log10, i);
      assert j[i] == (t, ((d, Tf(lines, t, d)), Idf(lines, t, log10)));
    }
    assert Weighted(lines, log10) == MultiplyByIdf(j);
  }

  /**
   mreduce.py:78-82: the join with the idf records drops no tf record, and the i-th
   weighted record is the reference tf-idf weight of the i-th counted pair.
   */
  lemma WeightedMatch(lines: seq<string>, log10: real -> real)
    ensures |Weighted(lines, log10)| == |TermCounts(lines)|
    ensures forall i :: 0 <= i < |TermCounts(lines)| ==>
      var t, d := TermCounts(lines)[i].0.0, TermCounts(lines)[i].0.1;
      IsVocab(t) && TermCount(lines, t, d) >= 1 && DocLength(lines, d) >= 1 && DocFreq(lines, t) >= 1 &&
      Weighted(lines, log10)[i].0 == t && Weighted(lines, log10)[i].1.0 == d &&
      Weighted(lines, log10)[i].1.1 == TfIdfWeight(lines, log10, t, d)
  {
    IdfJoinAligned(lines, log10);
    forall i | 0 <= i < |TermCounts(lines)|
      ensures var t, d := TermCounts(lines)[i].0.0, TermCounts(lines)[i].0.1;
      IsVocab(t) && TermCount(lines, t, d) >= 1 && DocLength(lines, d) >= 1 && DocFreq(lines, t) >= 1 &&
      Weighted(lines, log10)[i].0 == t && Weighted(lines, log10)[i].1.0 == d &&
      Weighted(lines, log10)[i].1.1 == TfIdfWeight(lines, log10, t, d)
    {
      WeightedEntry(lines, log10, i, TermCounts(lines)[i].0.0, TermCounts(lines)[i].0.1);
    }
  }

  /**
   What the weighted dataset must be: records `(t, (d, w))` of a vocabulary term `t`
   occurring in document `d` with `w` its reference weight, no (term, document) pair twice,
   and every occurring (vocabulary term, document) pair present.
   */
  ghost predicate IsWeighting(lines: seq<string>, log10: real -> real, ws: seq<(string, (string, real))>)
  {
    (forall i :: 0 <= i < |ws| ==>
      IsVocab(ws[i].0) && TermCount(lines, ws[i].0, ws[i].1.0) >= 1 &&
      DocLength(lines, ws[i].1.0) >= 1 && DocFreq(lines, ws[i].0) >= 1 &&
      ws[i].1.1 == TfIdfWeight(lines, log10, ws[i].0, ws[i].1.0)) &&
    (forall a, b :: 0 <= a < b < |ws| ==> (ws[a].0, ws[a].1.0) != (ws[b].0, ws[b].1.0)) &&
    (forall t, d :: IsVocab(t) && TermCount(lines, t, d) >= 1 ==>
      exists i :: 0 <= i < |ws| && ws[i].0 == t && ws[i].1.0 == d)
  }

  /** mreduce.py:78-82 builds exactly such a weighted dataset. */
  lemma WeightedIsWeighting(lines: seq<string>, log10: real -> real)
    ensures IsWeighting(lines, log10, Weighted(lines, log10))
  {
    TermCountsMatch(lines);
    WeightedMatch(lines, log10);
    AlignedIsWeighting(lines, log10, TermCounts(lines), Weighted(lines, log10));
  }

  /**
   Records aligned one-to-one with the distinct counted (vocabulary term, document) pairs,
   each carrying its pair and the pair's reference weight, form a weighted dataset.
   */
  lemma AlignedIsWeighting(lines: seq<string>, log10: real -> real, tc: seq<((string, string), Count)>, ws: seq<(string, (string, real))>)
    requires DistinctKeys(tc)
    requires forall t, d :: (t, d) in KeySet(tc) <==> IsVocab(t) && TermCount(lines, t, d) >= 1
    requires |ws| == |tc|
    requires forall i :: 0 <= i < |tc| ==>
      var t, d := tc[i].0.0, tc[i].0.1;
      IsVocab(t) && TermCount(lines, t, d) >= 1 && DocLength(lines, d) >= 1 && DocFreq(lines, t) >= 1 &&
      ws[i].0 == t && ws[i].1.0 == d &&
      ws[i].1.1 == TfIdfWeight(lines, log10, t, d)
    ensures IsWeighting(lines, log10, ws)
  {
    forall a, b | 0 <= a < b < |ws|
      ensures (ws[a].0, ws[a].1.0) != (ws[b].0, ws[b].1.0)
    {
      assert tc[a].0 != tc[b].0;
    }
    forall t, d | IsVocab(t) && TermCount(lines, t, d) >= 1
      ensures exists i :: 0 <= i < |ws| && ws[i].0 == t && ws[i].1.0 == d
    {
      assert (t, d) in KeySet(tc);
      var i :| 0 <= i < |tc| && tc[i].0 == (t, d);
      assert ws[i].0 == t && ws[i].1.0 == d;
    }
  }

  /** A weighted dataset's records under one term form that term's tf-idf row. */
  lemma GroupedRow(lines: seq<string>, log10: real -> real, ws: seq<(string, (string, real))>, t: string)
    requires IsWeighting(lines, log10, ws)
    requires IsVocab(t) && DocFreq(lines, t) >= 1
    ensures RowIsTfIdf(lines, log10, t, ValuesOf(ws, t))
  {
    var row := ValuesOf(ws, t);
    ValuesOfDistinctTags(ws, t);
    forall d
      ensures d in KeySet(row) <==> TermCount(lines, t, d) >= 1
    {
      GroupedRowHas(lines, log10, ws, t, d);
    }
    forall j | 0 <= j < |row|
      ensures DocLength(lines, row[j].0) >= 1 && row[j].1 == TfIdfWeight(lines, log10, t, row[j].0)
    {
      assert row[j] in row;
      var i :| 0 <= i < |ws| && ws[i] == (t, row[j]);
    }
  }

  /** A document has a record in a term's group exactly when the term occurs in it. */
  lemma GroupedRowHas(lines: seq<string>, log10: real -> real, ws: seq<(string, (string, real))>, t: string, d: string)
    requires IsWeighting(lines, log10, ws)
    requires IsVocab(t)
    ensures d in KeySet(ValuesOf(ws, t)) <==> TermCount(lines, t, d) >= 1
  {
    var row := ValuesOf(ws, t);
    if d in KeySet(row) {
      var j :| 0 <= j < |row| && row[j].0 == d;
      assert row[j] in row;
      var i :| 0 <= i < |ws| && ws[i] == (t, row[j]);
    }
    if TermCount(lines, t, d) >= 1 {
      var i :| 0 <= i < |ws| && ws[i].0 == t && ws[i].1.0 == d;
      assert ws[i] == (t, ws[i].1);
      assert ws[i].1 in row;
      var j :| 0 <= j < |row| && row[j] == ws[i].1;
      assert row[j].0 in KeySet(row);
    }
  }

  /** A weighted dataset's terms are the vocabulary terms occurring in some document. */
  lemma WeightingKeys(lines: seq<string>, log10: real -> real, ws: seq<(string, (string, real))>, t: string)
    requires IsWeighting(lines, log10, ws)
    ensures t in KeySet(ws) <==> IsVocab(t) && DocFreq(lines, t) >= 1
  {
    if t in KeySet(ws) {
      var i :| 0 <= i < |ws| && ws[i].0 == t;
    }
    if IsVocab(t) && DocFreq(lines, t) >= 1 {
      var d :| d in DocsContaining(lines, t);
      ContainsIffCounted(lines, t, d);
      var i :| 0 <= i < |ws| && ws[i].0 == t && ws[i].1.0 == d;
      assert ws[i].0 in KeySet(ws);
    }
  }

  /**
   What a row of the matrix must hold for term `t`: one record per document containing
   `t`, each carrying the reference tf-idf weight of `t` in that document.
   */
  ghost predicate RowIsTfIdf(lines: seq<string>, log10: real -> real, t: string, row: Cosine.Vector)
  {
    DocFreq(lines, t) >= 1 &&
    DistinctKeys(row) &&
    (forall d :: d in KeySet(row) <==> TermCount(lines, t, d) >= 1) &&
    (forall j :: 0 <= j < |row| ==> DocLength(lines, row[j].0) >= 1 && row[j].1 == TfIdfWeight(lines, log10, t, row[j].0))
  }

  /** Grouping a weighted dataset by term gives the tf-idf matrix. */
  lemma GroupingIsTfIdf(lines: seq<string>, log10: real -> real, ws: seq<(string, (string, real))>)
    requires IsWeighting(lines, log10, ws)
    ensures DistinctKeys(CombineByKey(ws))
    ensures forall t :: t in KeySet(CombineByKey(ws)) <==> IsVocab(t) && DocFreq(lines, t) >= 1
    ensures forall i :: 0 <= i < |CombineByKey(ws)| ==> RowIsTfIdf(lines, log10, CombineByKey(ws)[i].0, CombineByKey(ws)[i].1)
  {
    var m := CombineByKey(ws);
    forall t
      ensures t in KeySet(m) <==> IsVocab(t) && DocFreq(lines, t) >= 1
    {
      WeightingKeys(lines, log10, ws, t);
    }
    CombineEntries(ws);
    forall i | 0 <= i < |m|
      ensures RowIsTfIdf(lines, log10, m[i].0, m[i].1)
    {
      assert m[i].0 in KeySet(m);
      WeightingKeys(lines, log10, ws, m[i].0);
      GroupedRow(lines, log10, ws, m[i].0);
    }
  }

  /**
   The main property of `tfidf` (mreduce.py:41-84): the matrix has exactly one row per
   vocabulary term occurring in some document, and each row holds exactly the documents
   containing that term, each with tf(t, d) * idf(t).
   */
  lemma MatrixIsTfIdf(lines: seq<string>, log10: real -> real)
    ensures DistinctKeys(BuildMatrix(lines, log10))
    ensures forall t :: t in KeySet(BuildMatrix(lines, log10)) <==> IsVocab(t) && DocFreq(lines, t) >= 1
    ensures forall i :: 0 <= i < |BuildMatrix(lines, log10)| ==>
      RowIsTfIdf(lines, log10, BuildMatrix(lines, log10)[i].0, BuildMatrix(lines, log10)[i].1)
  {
    WeightedIsWeighting(lines, log10);
    GroupingIsTfIdf(lines, log10, Weighted(lines, log10));
  }

  /** With a logarithm that is non-negative from 1 on, every weight of a tf-idf row is non-negative. */
  lemma RowWeightsNonNegative(lines: seq<string>, log10: real -> real, t: string, row: Cosine.Vector)
    requires LogFacts(log10) && RowIsTfIdf(lines, log10, t, row)
    ensures forall j :: 0 <= j < |row| ==> row[j].1 >= 0.0
  {
    forall j | 0 <= j < |row|
      ensures row[j].1 >= 0.0
    {
      var d := row[j].0;
      IdfNonNegative(lines, t, log10);
      assert Tf(lines, t, d) >= 0.0;
      WeightSign(Tf(lines, t, d), Idf(lines, t, log10));
    }
  }

  /**
   A term whose document frequency equals the line count has idf 0, so every weight in its row is 0: the row is
   a zero vector.
   */
  lemma UbiquitousRowIsZero(lines: seq<string>, log10: real -> real, t: string, row: Cosine.Vector)
    requires log10(1.0) == 0.0
    requires RowIsTfIdf(lines, log10, t, row)
    requires DocFreq(lines, t) == |lines|
    ensures forall j :: 0 <= j < |row| ==> row[j].1 == 0.0
  {
    UbiquitousIdfIsZero(lines, t, log10);
    forall j | 0 <= j < |row|
      ensures row[j].1 == 0.0
    {
      WeightSign(Tf(lines, t, row[j].0), Idf(lines, t, log10));
    }
  }
}
