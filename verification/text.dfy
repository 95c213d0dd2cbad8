/**
 Token-level text handling of the tokenizer: Python's `str.split(' ')` and the two
 token tests the pipeline filters on.
 */
module Text {

  /**
   `s.split(' ')`: cut at every single space. Adjacent, leading or trailing spaces give
   empty pieces, and the empty string gives one empty piece, so there is always a first
   piece.
   */
  function Split(s: string): (r: seq<string>)
    ensures |r| >= 1
    ensures forall i :: 0 <= i < |r| ==> ' ' !in r[i]
  {
    if |s| == 0 then [""]
    else
      var rest := Split(s[1..]);
      if s[0] == ' ' then [""] + rest
      else [[s[0]] + rest[0]] + rest[1..]
  }

  /** Joining the pieces of a split with single spaces gives the string back. */
  lemma {:induction false} UnsplitSplit(s: string)
    ensures Unsplit(Split(s)) == s
  {
    if |s| > 0 {
      var rest := Split(s[1..]);
      UnsplitSplit(s[1..]);
      if s[0] == ' ' {
        assert Unsplit([""] + rest) == " " + Unsplit(rest);
      } else {
        var r := [[s[0]] + rest[0]] + rest[1..];
        assert Unsplit(r) == [s[0]] + Unsplit(rest) by {
          if |rest| > 1 {
            assert Unsplit(rest) == rest[0] + " " + Unsplit(rest[1..]);
            assert r[1..] == rest[1..];
          }
        }
      }
      assert s == [s[0]] + s[1..];
    }
  }

  /** `' '.join(pieces)`. */
  function Unsplit(pieces: seq<string>): string
    requires |pieces| >= 1
  {
    if |pieces| == 1 then pieces[0] else pieces[0] + " " + Unsplit(pieces[1..])
  }

  /** A piece without spaces followed by a space starts a new piece. */
  lemma {:induction false} SplitPiece(p: string, s: string)
    requires ' ' !in p
    ensures Split(p + " " + s) == [p] + Split(s)
    ensures Split(p) == [p]
    decreases |p|
  {
    SplitWord(p);
    if |p| == 0 {
      assert p + " " + s == [' '] + s;
      assert (p + " " + s)[1..] == s;
    } else {
      var q := p[1..];
      var line := p + " " + s;
      SplitPiece(q, s);
      assert line[0] == p[0] && line[1..] == q + " " + s;
      var rest := Split(q + " " + s);
      assert rest[0] == q && rest[1..] == Split(s);
      assert Split(line) == [[p[0]] + q] + Split(s);
      assert p == [p[0]] + q;
    }
  }

  /** A piece without spaces splits into itself. */
  lemma {:induction false} SplitWord(p: string)
    requires ' ' !in p
    ensures Split(p) == [p]
    decreases |p|
  {
    if |p| > 0 {
      var q := p[1..];
      SplitWord(q);
      assert p == [p[0]] + q;
    }
  }

  /** Splitting inverts joining when no piece contains a space. */
  lemma {:induction false} SplitUnsplit(pieces: seq<string>)
    requires |pieces| >= 1
    requires forall i :: 0 <= i < |pieces| ==> ' ' !in pieces[i]
    ensures Split(Unsplit(pieces)) == pieces
  {
    if |pieces| == 1 {
      SplitPiece(pieces[0], "");
    } else {
      SplitUnsplit(pieces[1..]);
      SplitPiece(pieces[0], Unsplit(pieces[1..]));
      assert pieces == [pieces[0]] + pieces[1..];
    }
  }

  /** The test at mreduce.py:52: a token is kept for document lengths unless it is blank. */
  predicate IsNonBlank(t: string)
  {
    t != "" && t != " " && t != "\n"
  }

  /** The test at mreduce.py:55: only `dis_` and `gene_` tokens are indexed. */
  predicate IsVocab(t: string)
  {
    "dis_" <= t || "gene_" <= t
  }

  /** Every vocabulary token is non-blank, so it also counts towards its document's length. */
  lemma VocabIsNonBlank(t: string)
    requires IsVocab(t)
    ensures IsNonBlank(t)
  {
  }
}
