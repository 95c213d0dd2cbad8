# TF-IDF term relevance (`mreduce.py`) in Dafny

`mreduce.py` reads a corpus in which every line belongs to a document. The line's first
token is the document id, and the remaining tokens are its terms. Lines with the same id
pool their terms into one document. From this corpus the program builds a
TF-IDF term-by-document matrix over the `dis_`/`gene_` vocabulary. It then ranks every other
term of the matrix by cosine similarity to a query term. The Spark operations are pure
transformations over datasets, and this project models them as pure Dafny functions over
sequences:

- `records.dfy` (`Records`): a dataset is a `seq` of records. This module defines `filter`,
  the keys of a keyed dataset, lookup, and the values recorded under one key.
- `text.dfy` (`Text`): `str.split(' ')` and the two token tests of the pipeline. One is the
  non-blank test at line 52; the other is the `dis_`/`gene_` vocabulary test at line 55.
- `tokenize.dfy` (`Tokenize`): `f1`, and `flatMap(f1)` over all lines.
- `combine.dfy` (`Combine`): `c1`/`c2`/`c3` and `combineByKey`, with or without partitions.
- `reduce.dfy` (`Reduce`): `map(… , 1).reduceByKey(add)`, which counts per key.
- `join.dfy` (`Join`): the inner join of two keyed datasets.
- `corpus.dfy` (`Corpus`): reference definitions taken straight from the lines. These are
  term count, document length, document frequency, tf and idf, together with their bounds.
- `tfidf.dfy` (`TfIdf`): the data flow of `tfidf`. It is proved to produce, for every
  vocabulary term, exactly one row, and that row holds tf × idf for every document containing
  the term.
- `cosine.dfy` (`Cosine`): `f2`, which is a dot product over `dict(query)` divided by the product of
  the norms. A division by zero is the outcome `ZeroDivisionError`. The module also holds a
  loop version that mirrors the Python loops.
- `sort.dfy` (`Sort`): `sortBy(score, descending)` as a sorted permutation.
- `similarity.dfy` (`Similarity`): `similarity` as written, plus the intended variant that
  does not fail on all-zero vectors.

Model choices:

- A by-key result (`combineByKey`, `reduceByKey`) is an association list with distinct keys.
  Keys appear in order of first occurrence. Spark leaves that order open, and every
  property is stated independently of it.
- The matrix is such a list of `(term, vector)` records. A vector is a list of
  `(doc_id, weight)` records.
- `log(x, 10)` and `sqrt` are parameters of the model. The only facts used about them are
  the following:
  - `log10(x) >= 0` for `x >= 1`, and `log10(1) == 0`;
  - `sqrt(x) >= 0`, with `sqrt(x) == 0` exactly when `x == 0`, for `x >= 0`.
- Python floats are Dafny `real`s.

## Model

| member | source | states |
|---|---|---|
| Records.FilterMultiset | mreduce.py:52 | `filter` keeps every occurrence of a passing record and none of a failing one |
| Records.FilterMembership | mreduce.py:55 | a record survives `filter` exactly when it was present and passes the test |
| Records.FilterKeys | mreduce.py:94 | filtering a dataset with distinct keys keeps the keys distinct; the surviving keys are exactly those of passing records |
| Records.Lookup | mreduce.py:89-91 | the value found for a key is one that was recorded under the key; under distinct keys it is the only one |
| Records.DistinctKeysMultiplicity | mreduce.py:63 | under distinct keys a record occurs at most once, and occurs exactly when it is the key's entry |
| Records.ValuesOfDistinctTags | mreduce.py:63 | if no two records agree on both key and tag, the values grouped under one key have distinct tags |
| Text.Split | mreduce.py:20 | `split(' ')` always gives at least one piece, and no piece contains a space |
| Text.UnsplitSplit | mreduce.py:20 | joining the pieces of `split(' ')` with single spaces gives the line back |
| Text.SplitUnsplit | mreduce.py:20 | splitting undoes joining when no piece contains a space |
| Text.VocabIsNonBlank | mreduce.py:52-55 | every `dis_`/`gene_` token also passes the non-blank test, so it counts towards its document's length |
| Tokenize.Emit | mreduce.py:22-25 | one pair per token different from the id, each pair carrying the id and never the id as its term |
| Tokenize.EmitMultiset | mreduce.py:22-25 | each token other than the id is emitted as often as it occurs, and nothing else is emitted |
| Tokenize.EmitOrder | mreduce.py:22-25 | the pairs come out in token order: token `i` lands at `i` minus the number of id tokens before it |
| Tokenize.F1 | mreduce.py:19-26 | pairs carry the line's first token as doc id; every later occurrence of that token is skipped too; the other tokens are counted exactly |
| Tokenize.Pairs | mreduce.py:49 | across all lines, `(t, d)` occurs exactly TermCount(t, d) times, and every doc id belongs to the corpus |
| Tokenize.PairsMembership | mreduce.py:49 | `(t, d)` is emitted exactly when `t` occurs in a document with id `d` |
| Combine.AddValue | mreduce.py:9-13 | `c1` starts a key's list and `c2` appends to it; the keys stay distinct; no other key's list changes |
| Combine.CombineByKey | mreduce.py:9-16 | each key appears once, and its list holds exactly that key's values, in stream order, duplicates kept |
| Combine.CombineEntries | mreduce.py:58 | every grouped entry is the full, non-empty list of its key's values |
| Combine.MergeInto | mreduce.py:14-16 | `c3` appends a partition's list to the key's list; no other key changes |
| Combine.MergePartitions | mreduce.py:14-16 | merging two partitions' groupings concatenates each key's lists |
| Combine.CombinePartitioned | mreduce.py:9-16 | combining two partitions separately and merging them gives each key the values of the whole stream, in order |
| Reduce.AddOne | mreduce.py:63 | adding one occurrence increments only that key's count |
| Reduce.CountByKey | mreduce.py:62-63 | `reduceByKey(add)` over ones: distinct keys; each key's count is its number of occurrences |
| Reduce.CountEntries | mreduce.py:66-67 | every counted entry holds its key's multiplicity |
| Join.Matches | mreduce.py:72 | one left record pairs with exactly the right records with its key |
| Join.InnerJoin | mreduce.py:72 | `join` holds `(k, (v, w))` exactly when `(k, v)` is on the left and `(k, w)` is on the right |
| Join.MatchesAbsent | mreduce.py:78 | a left record whose key is missing on the right is dropped |
| Join.MatchesUnique | mreduce.py:78 | against a right side with distinct keys, a present key pairs exactly once, with the looked-up value |
| Join.JoinUniqueKeys | mreduce.py:72-78 | if the right side's keys are distinct and contain every left key, the join drops nothing and pairs each left record with its key's value |
| Corpus.DocIdsBound | mreduce.py:46 | there are at most as many distinct doc ids as lines |
| Corpus.ContainsIffCounted | mreduce.py:58-59 | a document is among the term's documents exactly when the term occurs in it |
| Corpus.DocFreqBound | mreduce.py:46-59 | document frequency is at most total_docs, the line count |
| Corpus.CountedTokensBound | mreduce.py:52 | a non-blank token other than the id occurs no more often than the document's non-blank tokens |
| Corpus.TermCountWithinLength | mreduce.py:62-67 | a term's count in a document never exceeds that document's length |
| Corpus.TfInUnitInterval | mreduce.py:75 | for an occurring vocabulary term, `0 < tf <= 1` |
| Corpus.IdfNonNegative | mreduce.py:59 | the argument `total_docs/df` is at least 1, so the idf is non-negative |
| Corpus.UbiquitousIdfIsZero | mreduce.py:59 | a term whose document frequency equals the line count (it occurs in every line, no two lines share an id, and it is no line's id) has idf `log10(1) = 0` |
| TfIdf.DistinctCount | mreduce.py:59 | `len(set(ids))` is at most the group size, and at least 1 for a non-empty group |
| TfIdf.VocabPairsMembership | mreduce.py:55 | after the vocabulary filter, `(t, d)` occurs TermCount(t, d) times if `t` is `dis_`/`gene_`, and never otherwise |
| TfIdf.TermCountsMatch | mreduce.py:62-63 | the per-(term, doc) counts are the reference term counts of exactly the occurring vocabulary pairs |
| TfIdf.EmitNonBlankDocs | mreduce.py:52 | per line, the doc ids after the non-blank filter count the line's non-blank non-id tokens |
| TfIdf.NonBlankPairsSnoc | mreduce.py:49-52 | the non-blank records of one more line follow those of the earlier lines |
| TfIdf.NonBlankDocCount | mreduce.py:52-66 | a doc id occurs after the non-blank filter as often as the document has non-blank tokens |
| TfIdf.DocLengthsMatch | mreduce.py:66-67 | document lengths are the reference lengths of exactly the documents with a non-blank token |
| TfIdf.CountedPair | mreduce.py:72 | every counted pair's document has a length, so the join at line 72 finds it |
| TfIdf.TfRecordsMatch | mreduce.py:71-75 | the tf dataset drops no pair and holds `tf(t, d)` for each counted vocabulary pair |
| TfIdf.GroupIsDocsContaining | mreduce.py:58-59 | the distinct doc ids grouped under a term are exactly the documents containing it |
| TfIdf.VocabKeys | mreduce.py:55-58 | the grouped terms are exactly the vocabulary terms that occur somewhere |
| TfIdf.IdfShape | mreduce.py:59 | the idf map has one distinct entry per grouped term |
| TfIdf.IdfEntry | mreduce.py:59 | each idf entry is the reference idf of a vocabulary term with a document |
| TfIdf.IdfRecordsMatch | mreduce.py:58-59 | the idf map is keyed by exactly the occurring vocabulary terms and holds their reference idf |
| TfIdf.CountedTermHasIdf | mreduce.py:78 | every counted term has an idf entry, so the join at line 78 finds it |
| TfIdf.IdfJoinAligned | mreduce.py:78 | the tf × idf join drops nothing and pairs each tf record with its term's idf |
| TfIdf.WeightedEntry | mreduce.py:78-82 | the weighted record for a counted pair is that pair with weight tf × idf |
| TfIdf.WeightedMatch | mreduce.py:62-82 | each counted pair has exactly one weighted record, with its reference tf × idf |
| TfIdf.WeightedIsWeighting | mreduce.py:82 | the weighted dataset holds each occurring vocabulary pair exactly once, with its tf × idf weight |
| TfIdf.AlignedIsWeighting | mreduce.py:78-82 | records that line up one-to-one with the distinct counted pairs, each holding its pair's tf × idf, form a weighted dataset |
| TfIdf.GroupedRowHas | mreduce.py:82 | a document has a record in a term's group exactly when the term occurs in it |
| TfIdf.GroupedRow | mreduce.py:82 | a term's grouped row holds exactly its documents, each with the term's tf × idf |
| TfIdf.WeightingKeys | mreduce.py:82 | the terms of the weighted dataset are exactly the occurring vocabulary terms |
| TfIdf.GroupingIsTfIdf | mreduce.py:82 | grouping the weighted dataset by term gives one row per occurring vocabulary term, each its tf × idf vector |
| TfIdf.MatrixIsTfIdf | mreduce.py:41-84 | every term appears once; the terms are exactly the occurring `dis_`/`gene_` terms; each row's doc ids are distinct and are the documents containing the term; each weight equals tf × idf |
| TfIdf.RowWeightsNonNegative | mreduce.py:59-82 | every matrix weight is non-negative |
| TfIdf.UbiquitousRowIsZero | mreduce.py:59-82 | the row of a term whose document frequency equals the line count is all zeros |
| Cosine.ToDict | mreduce.py:28 | `dict(pairs)` has exactly the pairs' keys; a key maps to its record's value unless a later record overwrites it |
| Cosine.ToDictDistinct | mreduce.py:28 | with distinct keys, `dict` maps each key to its own record's value |
| Cosine.SquaredNorm | mreduce.py:32-33 | the squared norm is non-negative, and zero exactly when every weight is zero |
| Cosine.MassDistinct | mreduce.py:34-35 | under distinct keys, a key's total weight is its looked-up weight, or 0 when absent |
| Cosine.InnerSymmetric | mreduce.py:32-35 | the reference double-sum inner product is symmetric |
| Cosine.DotIsInner | mreduce.py:32-35 | against a query with distinct doc ids, the loop's numerator is the reference inner product |
| Cosine.DotSymmetric | mreduce.py:28-35 | with distinct doc ids on both sides, the numerator does not depend on which vector is the query |
| Cosine.F2 | mreduce.py:27-38 | `f2` fails exactly when one vector is all zeros; otherwise the score is zero exactly when the numerator is |
| Cosine.F2Symmetric | mreduce.py:27-38 | with distinct doc ids, swapping the vector and the query gives the same outcome |
| Cosine.F2Loops | mreduce.py:27-38 | the two accumulation loops compute exactly `f2` |
| Sort.ConsDescending | mreduce.py:97 | a record at least as high as a sorted tail keeps it sorted |
| Sort.Insert | mreduce.py:97 | insertion keeps the scores non-increasing and adds exactly one record |
| Sort.SortDescending | mreduce.py:97 | `sortBy(score, False)` gives non-increasing scores and a permutation of its input |
| Similarity.Select | mreduce.py:89-90 | only query records are collected; none exactly when the query is not a term; under distinct keys the first is the query's vector |
| Similarity.Others | mreduce.py:94 | exactly the other terms survive, with their own vectors and distinct keys |
| Similarity.F2OrZero | mreduce.py:38 | the intended score agrees with `f2` whenever `f2` succeeds, and is 0 when a vector is all zeros |
| Similarity.OthersLookup | mreduce.py:94 | under distinct keys every other term keeps its own vector after the self-exclusion filter |
| Similarity.ScoresMultiplicity | mreduce.py:97 | with distinct row terms, each row's term is scored exactly once, with its own score, and nothing else is scored |
| Similarity.ScoreAll | mreduce.py:97 | `mapValues(f2)` fails exactly when some row's `f2` fails; otherwise it keeps each row's term and its `f2` score, in order |
| Similarity.Rank | mreduce.py:97 | the result is in non-increasing order and holds exactly the nonzero-score records, multiplicities kept |
| Similarity.RankNonZero | mreduce.py:97 | no ranked record has score 0 |
| Similarity.RankKeys | mreduce.py:94-97 | ranking introduces no term, so the query term stays out |
| Similarity.Similarity | mreduce.py:87-100 | an absent query gives the empty list; a success is in non-increasing order, without the query term and without zero scores |
| Similarity.SimilarityContents | mreduce.py:89-100 | on success, with distinct keys, each other term with a nonzero `f2` score appears exactly once with that score, and nothing else appears |
| Similarity.SimilarityFails | mreduce.py:89-97 | the query fails exactly when it is a term and some other term's `f2` fails |
| Similarity.SimilarityFailsOnZeroVector | mreduce.py:27-38 | the query fails exactly when it is a term and its own vector, or another term's vector, is all zeros |
| Similarity.ZeroVectorFailsQuery | mreduce.py:38 | as written: one all-zero row fails every query for another term |
| Similarity.UbiquitousTermFailsQuery | mreduce.py:59 | as written: a vocabulary term whose document frequency equals the line count (it occurs in every line, no two lines share an id, and it is no line's id) makes every query for another term of the matrix fail |
| Similarity.QueryNextToUbiquitousTermFails | mreduce.py:38 | as written: with rows `dis_a: [(d1, 0), (d2, 0)]` and `gene_b: [(d1, w)]`, querying `gene_b` fails for any `w` |
| Similarity.ExampleLinesFailQuery | mreduce.py:38 | as written: from the lines `d1 dis_a gene_b` and `d2 dis_a`, the matrix `tfidf` builds makes the query `gene_b` fail |
| Similarity.SimilarityOrZero | mreduce.py:87-100 | intended: never fails; an absent query gives the empty list; results are in non-increasing order, without the query term and without zero scores |
| Similarity.SimilarityAgrees | mreduce.py:87-100 | whenever the code as written succeeds, it returns exactly the intended result |
| Similarity.SimilarityOrZeroContents | mreduce.py:89-100 | intended: with distinct keys, each other term with a nonzero score appears exactly once with that score, and nothing else appears |
| Similarity.SimilarityOrZeroSkipsZeroVector | mreduce.py:38 | intended: a term with an all-zero vector is never ranked |
| Similarity.UbiquitousTermNotRanked | mreduce.py:59 | intended: a vocabulary term whose document frequency equals the line count (it occurs in every line, no two lines share an id, and it is no line's id) is simply left out of the ranking |

## Left out

- Spark setup, `.cache()`, partitioning and parallel execution are not modelled. They are
  execution plumbing with no effect on values. `Combine.CombinePartitioned` models the one
  place where partitioning reaches user code (`c3`).
- `sc.textFile` and the hard-coded data path are not modelled: that is I/O. The model starts
  from the lines as a `seq<string>`, and `total_docs` is their number.
- `main` is not modelled. Its interactive loop, `input`/`print` and `os.system('clear')` are
  user interface.
- The matrix is an association list, not a map. Spark's by-key results are unordered, and
  the model fixes first-occurrence order. No contract depends on that choice.
- Exact floating point is not modelled. Weights are real numbers, and `log(x, 10)` and `sqrt` are
  parameters. Only the facts listed above are assumed about them, so no numeric output value is
  proved.
- Sort.SortDescending: the order of equal scores is not fixed. Spark does not fix it either,
  so the contract is only "sorted and a permutation".
- Similarity.Select: the query vector is the first collected record. The lemmas that
  identify it with the query's row assume distinct terms in the matrix, as `tfidf`
  guarantees.
- Cosine.F2: Python computes the numerator as the int `0` when no document is shared. A
  real `0` is the same value here.

## Findings

| source | as written | input that shows it | evidently intended | confidence | as-written member | corrected member |
|---|---|---|---|---|---|---|
| mreduce.py:38 with mreduce.py:59 | `f2` divides by `sqrt(denom1)*sqrt(denom2)` unguarded. A vocabulary term whose document frequency equals the line count (it occurs in every line, no two lines share an id, and it is no line's id) gets idf `log10(1) = 0`, so its whole row is zeros and `denom1` is 0. `similarity` then raises `ZeroDivisionError` for every query of another term of the matrix. | lines `"d1 dis_a gene_b"` and `"d2 dis_a"`, query `gene_b`: the row of `dis_a` is `[(d1, 0), (d2, 0)]` | a term with an all-zero vector scores 0 and is dropped with the other zero scores; the query succeeds | high (not executed) | Similarity.UbiquitousTermFailsQuery | Similarity.SimilarityOrZero |

The model of `similarity` follows the code. `Similarity.Similarity` can return
`ZeroDivisionError`, and `Similarity.SimilarityFailsOnZeroVector` states exactly when it
does. `Similarity.ExampleLinesFailQuery` derives the failure from the two example lines, and
`Similarity.QueryNextToUbiquitousTermFails` shows it on a matrix of that shape for any weight.
`Similarity.SimilarityOrZero` is the corrected ranking:
- it never fails;
- it satisfies the same ordering and exclusion contract;
- it agrees with the code whenever the code succeeds (`Similarity.SimilarityAgrees`);
- it leaves out a term whose document frequency equals the line count (`Similarity.UbiquitousTermNotRanked`).
