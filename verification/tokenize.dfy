/**
 The tokenizer `f1` (mreduce.py:19-26) and the `flatMap(f1)` of mreduce.py:49. A line is
 split on single spaces; every piece that differs from the first piece is emitted as a
 `(term, doc_id)` record, in line order. Pieces equal to the id are skipped wherever they
 occur, not only in first position.
 */
module Tokenize {
  import opened Text
  import opened Corpus

  /** The loop of `f1`: one `(token, id)` record per token that differs from `id`. */
  function Emit(tokens: seq<string>, id: string): (r: seq<(string, string)>)
    ensures |r| == |tokens| - multiset(tokens)[id]
    ensures forall i :: 0 <= i < |r| ==> r[i].1 == id && r[i].0 != id
  {
    if |tokens| == 0 then []
    else
      var init := tokens[..|tokens| - 1];
      var last := tokens[|tokens| - 1];
      assert tokens == init + [last];
      Emit(init, id) + (if last == id then [] else [(last, id)])
  }

  /** Each non-id token is emitted as often as it occurs, paired with the id. */
  lemma {:induction false} EmitMultiset(tokens: seq<string>, id: string)
    ensures forall t, d :: multiset(Emit(tokens, id))[(t, d)] == if d == id && t != id then multiset(tokens)[t] else 0
  {
    if |tokens| > 0 {
      var init := tokens[..|tokens| - 1];
      assert tokens == init + [tokens[|tokens| - 1]];
      EmitMultiset(init, id);
    }
  }

  /**
   Records come out in token order: the token at position `i`, when it is not the id,
   is the record numbered by how many non-id tokens precede it.
   */
  lemma {:induction false} EmitOrder(tokens: seq<string>, id: string, i: nat)
    requires i < |tokens| && tokens[i] != id
    ensures i - multiset(tokens[..i])[id] < |Emit(tokens, id)|
    ensures Emit(tokens, id)[i - multiset(tokens[..i])[id]] == (tokens[i], id)
    decreases |tokens|
  {
    var init := tokens[..|tokens| - 1];
    var last := tokens[|tokens| - 1];
    var e := Emit(init, id);
    assert Emit(tokens, id) == e + (if last == id then [] else [(last, id)]);
    if i < |init| {
      EmitOrder(init, id, i);
      assert tokens[..i] == init[..i];
      assert init[i] == tokens[i];
    } else {
      assert tokens[..i] == init;
    }
  }

  /** `f1`: the `(term, doc_id)` records of one line. */
  function F1(line: string): (r: seq<(string, string)>)
    ensures |r| < |Split(line)|
    ensures forall i :: 0 <= i < |r| ==> r[i].1 == DocId(line) && r[i].0 != DocId(line)
    ensures forall t, d :: multiset(r)[(t, d)] == if d == DocId(line) && t != d then multiset(Split(line))[t] else 0
  {
    var a := Split(line);
    assert a == [a[0]] + a[1..];
    EmitMultiset(a, a[0]);
    Emit(a, a[0])
  }

  /** `flatMap(f1)` over the lines of the corpus, in line order. */
  function Pairs(lines: seq<string>): (r: seq<(string, string)>)
    ensures forall i :: 0 <= i < |r| ==> r[i].1 in DocIds(lines)
    ensures forall t, d :: multiset(r)[(t, d)] == TermCount(lines, t, d)
  {
    if |lines| == 0 then []
    else
      var init := lines[..|lines| - 1];
      var last := lines[|lines| - 1];
      assert lines == init + [last];
      assert DocIds(lines) == DocIds(init) + {DocId(last)};
      Pairs(init) + F1(last)
  }

  /** A record `(t, d)` is produced exactly when `t` occurs as a term of document `d`. */
  lemma PairsMembership(lines: seq<string>, t: string, d: string)
    ensures (t, d) in Pairs(lines) <==> TermCount(lines, t, d) >= 1
    ensures (t, d) in Pairs(lines) <==> d in DocsContaining(lines, t)
  {
    ContainsIffCounted(lines, t, d);
  }
}
