/**
 Reference measures of a corpus, stated directly on its lines and independent of how
 the pipeline computes them. A line is one document occurrence: its first
 space-separated piece is the document id and every other piece that differs from the
 id is a term occurrence. Several lines may share an id; they then count as one
 document whose terms are pooled.
 */
module Corpus {
  import opened Text

  /** A line's document id: its first space-separated piece (`a[0]` in `f1`). */
  function DocId(line: string): string
  {
    Split(line)[0]
  }

  /** How many of `tokens` count towards a document's length: non-blank and not the id. */
  ghost function CountedTokens(tokens: seq<string>, id: string): nat
  {
    if |tokens| == 0 then 0
    else
      var last := tokens[|tokens| - 1];
      CountedTokens(tokens[..|tokens| - 1], id) + (if last != id && IsNonBlank(last) then 1 else 0)
  }

  /** How often term `t` occurs in document `d`, summed over the lines with id `d`. */
  ghost function TermCount(lines: seq<string>, t: string, d: string): nat
  {
    if |lines| == 0 then 0
    else
      var last := lines[|lines| - 1];
      TermCount(lines[..|lines| - 1], t, d) + (if DocId(last) == d && t != d then multiset(Split(last))[t] else 0)
  }

  /** Document `d`'s length: its counted tokens, summed over the lines with id `d`. */
  ghost function DocLength(lines: seq<string>, d: string): nat
  {
    if |lines| == 0 then 0
    else
      var last := lines[|lines| - 1];
      DocLength(lines[..|lines| - 1], d) + (if DocId(last) == d then CountedTokens(Split(last), d) else 0)
  }

  /** The ids of all lines. */
  ghost function DocIds(lines: seq<string>): set<string>
  {
    set l | l in lines :: DocId(l)
  }

  /** The ids of the documents in which `t` occurs as a term. */
  ghost function DocsContaining(lines: seq<string>, t: string): set<string>
  {
    set l | l in lines && t != DocId(l) && t in Split(l) :: DocId(l)
  }

  /** Document frequency: the number of distinct documents containing `t`. */
  ghost function DocFreq(lines: seq<string>, t: string): nat
  {
    |DocsContaining(lines, t)|
  }

  /** Term frequency: occurrences of `t` in `d` over the length of `d`. */
  ghost function Tf(lines: seq<string>, t: string, d: string): real
    requires DocLength(lines, d) >= 1
  {
    TermCount(lines, t, d) as real / DocLength(lines, d) as real
  }

  /** Inverse document frequency: `log10(total_docs / df)`, total_docs being the line count. */
  ghost function Idf(lines: seq<string>, t: string, log10: real -> real): real
    requires DocFreq(lines, t) >= 1
  {
    log10(|lines| as real / DocFreq(lines, t) as real)
  }

  /** The one fact about the logarithm the bounds need: it is non-negative from 1 on. */
  ghost predicate LogFacts(log10: real -> real)
  {
    forall x: real :: x >= 1.0 ==> log10(x) >= 0.0
  }

  /** Repeated ids make the number of distinct ids at most the number of lines. */
  lemma {:induction false} DocIdsBound(lines: seq<string>)
    ensures |DocIds(lines)| <= |lines|
  {
    if |lines| > 0 {
      var init := lines[..|lines| - 1];
      var last := lines[|lines| - 1];
      assert lines == init + [last];
      DocIdsBound(init);
      assert DocIds(lines) == DocIds(init) + {DocId(last)};
    }
  }

  /** A document contains `t` exactly when `t` occurs in it at least once. */
  lemma {:induction false} ContainsIffCounted(lines: seq<string>, t: string, d: string)
    ensures d in DocsContaining(lines, t) <==> TermCount(lines, t, d) >= 1
  {
    if |lines| > 0 {
      var init := lines[..|lines| - 1];
      var last := lines[|lines| - 1];
      assert lines == init + [last];
      ContainsIffCounted(init, t, d);
      DocsContainingSnoc(init, last, t);
      assert TermCount(lines, t, d) == TermCount(init, t, d) + (if DocId(last) == d && t != d then multiset(Split(last))[t] else 0);
      assert t in Split(last) <==> multiset(Split(last))[t] > 0;
    }
  }

  /** One more line adds its id to the documents containing `t` exactly when `t` is one of its terms. */
  lemma DocsContainingSnoc(init: seq<string>, last: string, t: string)
    ensures DocsContaining(init + [last], t) ==
      DocsContaining(init, t) + (if t != DocId(last) && t in Split(last) then {DocId(last)} else {})
  {
    var lines := init + [last];
    forall l | l in lines
      ensures l in init || l == last
    {
    }
  }

  /** Document frequency never exceeds the number of lines. */
  lemma DocFreqBound(lines: seq<string>, t: string)
    ensures DocFreq(lines, t) <= |lines|
  {
    DocIdsBound(lines);
    var a := DocsContaining(lines, t);
    var b := DocIds(lines);
    assert a <= b;
    assert b == a + (b - a);
    assert |b| == |a| + |b - a|;
  }

  /** A non-blank term other than the id occurs at most as often as the counted tokens. */
  lemma {:induction false} CountedTokensBound(tokens: seq<string>, id: string, t: string)
    requires IsNonBlank(t) && t != id
    ensures multiset(tokens)[t] <= CountedTokens(tokens, id)
  {
    if |tokens| > 0 {
      var init := tokens[..|tokens| - 1];
      assert tokens == init + [tokens[|tokens| - 1]];
      CountedTokensBound(init, id, t);
    }
  }

  /** A non-blank term occurs in a document at most as often as the document's length. */
  lemma {:induction false} TermCountWithinLength(lines: seq<string>, t: string, d: string)
    requires IsNonBlank(t)
    ensures TermCount(lines, t, d) <= DocLength(lines, d)
  {
    if |lines| > 0 {
      var last := lines[|lines| - 1];
      TermCountWithinLength(lines[..|lines| - 1], t, d);
      if DocId(last) == d && t != d {
        CountedTokensBound(Split(last), d, t);
      }
    }
  }

  lemma RatioInUnitInterval(c: int, l: int)
    requires 1 <= c <= l
    ensures 0.0 < c as real / l as real <= 1.0
  {
    var q := c as real / l as real;
    assert q * l as real == c as real;
    ScaleAboveOne(q, l as real);
  }

  /** Scaling a positive number by a factor above 1 enlarges it. */
  lemma ScaleAboveOne(q: real, l: real)
    requires l > 0.0
    ensures q > 1.0 ==> q * l > l
  {
  }

  /** The term frequency of a vocabulary term in a document containing it lies in (0, 1]. */
  lemma TfInUnitInterval(lines: seq<string>, t: string, d: string)
    requires IsVocab(t) && TermCount(lines, t, d) >= 1
    ensures DocLength(lines, d) >= TermCount(lines, t, d)
    ensures 0.0 < Tf(lines, t, d) <= 1.0
  {
    VocabIsNonBlank(t);
    TermCountWithinLength(lines, t, d);
    RatioInUnitInterval(TermCount(lines, t, d), DocLength(lines, d));
  }

  /** The idf argument `total_docs / df` is at least 1, so the idf is non-negative. */
  lemma IdfNonNegative(lines: seq<string>, t: string, log10: real -> real)
    requires LogFacts(log10) && DocFreq(lines, t) >= 1
    ensures |lines| as real / DocFreq(lines, t) as real >= 1.0
    ensures Idf(lines, t, log10) >= 0.0
  {
    DocFreqBound(lines, t);
  }

  /**
   A ubiquitous term, one whose document frequency equals the line count, has idf
   `log10(1)`, which is 0 for the logarithm Python computes. Such a term occurs in every
   line, no two lines share an id, and it is no line's id: two lines with the same id
   count as one document, so a term in both of them has df below the line count.
   */
  lemma UbiquitousIdfIsZero(lines: seq<string>, t: string, log10: real -> real)
    requires log10(1.0) == 0.0
    requires DocFreq(lines, t) == |lines| >= 1
    ensures Idf(lines, t, log10) == 0.0
  {
    assert |lines| as real / DocFreq(lines, t) as real == 1.0;
  }
}
