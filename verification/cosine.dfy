/**
 The cosine score `f2` (mreduce.py:27-38) between a term's vector and the query's vector.
 A vector is a list of `(doc_id, weight)` records, as in a matrix row. The square root is
 a parameter; `SqrtFacts` states the two properties of it the proofs use.
 */
module Cosine {
  import opened Records

  /** A term vector: `(doc_id, weight)` records. */
  type Vector = seq<(string, real)>

  /** The result of an operation that may raise Python's `ZeroDivisionError`. */
  datatype Outcome<T> = Ok(value: T) | ZeroDivisionError

  /** `dict(q)` (mreduce.py:28): a later record for the same document overwrites an earlier one. */
  function ToDict(q: Vector): (m: map<string, real>)
    ensures m.Keys == KeySet(q)
    ensures forall i :: 0 <= i < |q| ==>
      q[i].0 in m && (m[q[i].0] == q[i].1 || exists j :: i < j < |q| && q[j].0 == q[i].0)
  {
    if |q| == 0 then map[]
    else
      var init := q[..|q| - 1];
      var last := q[|q| - 1];
      var m := ToDict(init);
      assert KeySet(q) == KeySet(init) + {last.0} by {
        assert q == init + [last];
        KeySetAppend(init, [last]);
        assert KeySet([last]) == {last.0};
      }
      forall i | 0 <= i < |q|
        ensures q[i].0 in m[last.0 := last.1]
        ensures m[last.0 := last.1][q[i].0] == q[i].1 || exists j :: i < j < |q| && q[j].0 == q[i].0
      {
        if i < |q| - 1 && q[i].0 != last.0 {
          assert q[i] == init[i];
          if m[q[i].0] != q[i].1 {
            var j :| i < j < |init| && init[j].0 == init[i].0;
            assert q[j] == init[j];
          }
        }
      }
      m[last.0 := last.1]
  }

  /** Under distinct document ids the dictionary holds exactly each record's weight. */
  lemma ToDictDistinct(q: Vector)
    requires DistinctKeys(q)
    ensures forall i :: 0 <= i < |q| ==> q[i].0 in ToDict(q) && ToDict(q)[q[i].0] == q[i].1
  {
  }

  /** True iff every weight of `v` is 0. */
  predicate IsZeroVector(v: Vector)
  {
    forall i :: 0 <= i < |v| ==> v[i].1 == 0.0
  }

  /** Real multiplication, named so that the proofs can treat a product as one term. */
  function Times(x: real, y: real): real
  {
    x * y
  }

  lemma SquareFacts(x: real)
    ensures Times(x, x) >= 0.0
    ensures Times(x, x) == 0.0 <==> x == 0.0
  {
    TimesZero(x, x);
    if x < 0.0 {
      assert x * x == (-x) * (-x);
      assert (-x) * (-x) > 0.0;
    }
  }

  lemma TimesZero(x: real, y: real)
    ensures Times(x, y) == 0.0 <==> x == 0.0 || y == 0.0
  {
    if x != 0.0 && y != 0.0 {
      if x > 0.0 && y > 0.0 { assert x * y > 0.0; }
      if x > 0.0 && y < 0.0 { assert x * (-y) > 0.0; }
      if x < 0.0 && y > 0.0 { assert (-x) * y > 0.0; }
      if x < 0.0 && y < 0.0 { assert (-x) * (-y) > 0.0; }
    }
  }

  lemma TimesCommutes(x: real, y: real)
    ensures Times(x, y) == Times(y, x)
  {
  }

  lemma Distribute(a: real, b: real, c: real)
    ensures Times(a, b + c) == Times(a, b) + Times(a, c)
  {
  }

  /** `denom1` / `denom2` (mreduce.py:33, 37): the sum of the squared weights. */
  function SquaredNorm(v: Vector): (n: real)
    ensures n >= 0.0
    ensures n == 0.0 <==> IsZeroVector(v)
  {
    if |v| == 0 then 0.0
    else
      var init := v[..|v| - 1];
      var w := v[|v| - 1].1;
      var n := SquaredNorm(init);
      SquareFacts(w);
      assert IsZeroVector(v) <==> IsZeroVector(init) && w == 0.0 by {
        if IsZeroVector(init) && w == 0.0 {
          forall i | 0 <= i < |v|
            ensures v[i].1 == 0.0
          {
            if i < |v| - 1 {
              assert v[i] == init[i];
            }
          }
        }
        if IsZeroVector(v) {
          forall i | 0 <= i < |init|
            ensures init[i].1 == 0.0
          {
            assert init[i] == v[i];
          }
        }
      }
      n + Times(w, w)
  }

  /**
   `numer` (mreduce.py:32-35): over the records of `v` whose document is a key of the query
   dictionary, the sum of weight times the query's weight for that document.
   */
  function Dot(v: Vector, q: map<string, real>): real
  {
    if |v| == 0 then 0.0
    else
      var last := v[|v| - 1];
      Dot(v[..|v| - 1], q) + (if last.0 in q then Times(last.1, q[last.0]) else 0.0)
  }

  /** The total weight `b` records for document `k`. */
  function Mass(b: Vector, k: string): real
  {
    if |b| == 0 then 0.0
    else
      var last := b[|b| - 1];
      Mass(b[..|b| - 1], k) + (if last.0 == k then last.1 else 0.0)
  }

  /**
   Reference inner product: the sum, over every pair of records of `a` and `b` on the same
   document, of the product of their weights.
   */
  function Inner(a: Vector, b: Vector): real
  {
    if |a| == 0 then 0.0
    else
      var last := a[|a| - 1];
      Inner(a[..|a| - 1], b) + Times(last.1, Mass(b, last.0))
  }

  /** Under distinct document ids the mass for a document is its one weight, or 0. */
  lemma {:induction false} MassDistinct(b: Vector, k: string)
    requires DistinctKeys(b)
    ensures Mass(b, k) == if k in KeySet(b) then Lookup(b, k) else 0.0
  {
    if |b| > 0 {
      var init := b[..|b| - 1];
      var last := b[|b| - 1];
      assert b == init + [last];
      DistinctSnoc(init, last);
      MassDistinct(init, k);
      if k in KeySet(b) {
        LookupSnoc(init, last, k);
      }
    }
  }

  lemma {:induction false} MassAppend(b: Vector, y: (string, real), k: string)
    ensures Mass(b + [y], k) == Mass(b, k) + (if y.0 == k then y.1 else 0.0)
  {
    assert (b + [y])[..|b + [y]| - 1] == b;
  }

  /** Adding a record to `b` adds its weight times `a`'s mass for its document. */
  lemma {:induction false} InnerAppendRight(a: Vector, b: Vector, y: (string, real))
    ensures Inner(a, b + [y]) == Inner(a, b) + Times(y.1, Mass(a, y.0))
  {
    if |a| == 0 {
      TimesZero(y.1, Mass(a, y.0));
    } else {
      var init := a[..|a| - 1];
      var last := a[|a| - 1];
      InnerAppendRight(init, b, y);
      MassAppend(b, y, last.0);
      var c := if y.0 == last.0 then y.1 else 0.0;
      var c' := if last.0 == y.0 then last.1 else 0.0;
      assert Mass(a, y.0) == Mass(init, y.0) + c';
      assert Mass(b + [y], last.0) == Mass(b, last.0) + c;
      Distribute(last.1, Mass(b, last.0), c);
      Distribute(y.1, Mass(init, y.0), c');
      assert Times(last.1, c) == Times(y.1, c') by {
        TimesCommutes(last.1, y.1);
        TimesZero(last.1, 0.0);
        TimesZero(y.1, 0.0);
      }
      assert Inner(a, b + [y]) == Inner(init, b + [y]) + Times(last.1, Mass(b + [y], last.0));
      assert Inner(a, b) == Inner(init, b) + Times(last.1, Mass(b, last.0));
      Rearrange(Inner(a, b + [y]), Inner(init, b + [y]), Times(last.1, Mass(b + [y], last.0)), Times(last.1, Mass(b, last.0)),
        Times(last.1, c), Inner(a, b), Inner(init, b), Times(y.1, Mass(init, y.0)), Times(y.1, Mass(a, y.0)));
    }
  }

  lemma Rearrange(a: real, a0: real, p: real, q: real, r: real, b: real, b0: real, s: real, t: real)
    requires a == a0 + p && a0 == b0 + s && p == q + r
    requires b == b0 + q && t == s + r
    ensures a == b + t
  {
  }

  /** The reference inner product is symmetric. */
  lemma {:induction false} InnerSymmetric(a: Vector, b: Vector)
    ensures Inner(a, b) == Inner(b, a)
    decreases |b|
  {
    if |b| == 0 {
      assert Inner(a, b) == 0.0 by {
        InnerEmptyRight(a);
      }
    } else {
      var init := b[..|b| - 1];
      var last := b[|b| - 1];
      assert b == init + [last];
      InnerAppendRight(a, init, last);
      InnerSymmetric(a, init);
    }
  }

  lemma {:induction false} InnerEmptyRight(a: Vector)
    ensures Inner(a, []) == 0.0
  {
    if |a| > 0 {
      InnerEmptyRight(a[..|a| - 1]);
    }
  }

  /** With distinct document ids in the query, `f2`'s numerator is the reference inner product. */
  lemma {:induction false} DotIsInner(v: Vector, q: Vector)
    requires DistinctKeys(q)
    ensures Dot(v, ToDict(q)) == Inner(v, q)
  {
    if |v| > 0 {
      var init := v[..|v| - 1];
      var last := v[|v| - 1];
      var m := ToDict(q);
      var x := if last.0 in m then Times(last.1, m[last.0]) else 0.0;
      assert Dot(v, m) == Dot(init, m) + x;
      assert Inner(v, q) == Inner(init, q) + Times(last.1, Mass(q, last.0));
      DotIsInner(init, q);
      MassDistinct(q, last.0);
      if last.0 in KeySet(q) {
        var i :| 0 <= i < |q| && q[i].0 == last.0;
        ToDictDistinct(q);
        assert m[last.0] == Mass(q, last.0);
      } else {
        TimesZero(last.1, Mass(q, last.0));
      }
      assert x == Times(last.1, Mass(q, last.0));
    }
  }

  /** mreduce.py:32-35: the numerator is symmetric in the two vectors when document ids are distinct. */
  lemma DotSymmetric(a: Vector, b: Vector)
    requires DistinctKeys(a) && DistinctKeys(b)
    ensures Dot(a, ToDict(b)) == Dot(b, ToDict(a))
  {
    DotIsInner(a, b);
    DotIsInner(b, a);
    InnerSymmetric(a, b);
  }

  /** What `f2` needs of `sqrt`: non-negative on non-negative arguments, and 0 exactly at 0. */
  ghost predicate SqrtFacts(sqrt: real -> real)
  {
    forall x: real :: x >= 0.0 ==> sqrt(x) >= 0.0 && (sqrt(x) == 0.0 <==> x == 0.0)
  }

  /**
   `f2((v, query))` (mreduce.py:27-38): the dot product over `dict(query)` divided by
   `sqrt(denom1) * sqrt(denom2)`; Python raises `ZeroDivisionError` when that is 0.
   With a proper square root this happens exactly when one of the vectors is all zeros,
   and a score that is computed is 0 exactly when the numerator is.
   */
  function F2(v: Vector, query: Vector, sqrt: real -> real): (r: Outcome<real>)
    ensures SqrtFacts(sqrt) ==> (r.ZeroDivisionError? <==> IsZeroVector(v) || IsZeroVector(query))
    ensures r.Ok? ==> (r.value == 0.0 <==> Dot(v, ToDict(query)) == 0.0)
  {
    var n1 := SquaredNorm(v);
    var n2 := SquaredNorm(query);
    var denom := Times(sqrt(n1), sqrt(n2));
    TimesZero(sqrt(n1), sqrt(n2));
    if denom == 0.0 then ZeroDivisionError
    else
      var numer := Dot(v, ToDict(query));
      QuotientZero(numer, denom);
      Ok(Quotient(numer, denom))
  }

  /** Real division, named for the same reason as `Times`. */
  function Quotient(n: real, d: real): real
    requires d != 0.0
  {
    n / d
  }

  lemma QuotientZero(n: real, d: real)
    requires d != 0.0
    ensures Quotient(n, d) == 0.0 <==> n == 0.0
  {
    assert n / d * d == n;
  }

  /** With distinct document ids on both sides, the score does not depend on the argument order. */
  lemma F2Symmetric(a: Vector, b: Vector, sqrt: real -> real)
    requires DistinctKeys(a) && DistinctKeys(b)
    ensures F2(a, b, sqrt) == F2(b, a, sqrt)
  {
    DotSymmetric(a, b);
    TimesCommutes(sqrt(SquaredNorm(a)), sqrt(SquaredNorm(b)));
  }

  lemma NormStep(v: Vector, i: nat)
    requires i < |v|
    ensures SquaredNorm(v[..i + 1]) == SquaredNorm(v[..i]) + Times(v[i].1, v[i].1)
  {
    assert v[..i + 1][..i] == v[..i];
  }

  lemma DotStep(v: Vector, i: nat, q: map<string, real>)
    requires i < |v|
    ensures Dot(v[..i + 1], q) == Dot(v[..i], q) + (if v[i].0 in q then Times(v[i].1, q[v[i].0]) else 0.0)
  {
    assert v[..i + 1][..i] == v[..i];
  }

  /**
   The two loops of mreduce.py:32-37 as written: one pass over `v` accumulating `denom1`
   and `numer`, one pass over `query` accumulating `denom2`, then the division.
   */
  method F2Loops(v: Vector, query: Vector, sqrt: real -> real) returns (r: Outcome<real>)
    ensures r == F2(v, query, sqrt)
  {
    var q := ToDict(query);
    var numer := 0.0;
    var denom1 := 0.0;
    var denom2 := 0.0;
    var i := 0;
    while i < |v|
      invariant 0 <= i <= |v|
      invariant denom1 == SquaredNorm(v[..i])
      invariant numer == Dot(v[..i], q)
    {
      NormStep(v, i);
      DotStep(v, i, q);
      denom1 := denom1 + Times(v[i].1, v[i].1);
      if v[i].0 in q {
        numer := numer + Times(v[i].1, q[v[i].0]);
      }
      i := i + 1;
    }
    assert v[..|v|] == v;
    var k := 0;
    while k < |query|
      invariant 0 <= k <= |query|
      invariant denom2 == SquaredNorm(query[..k])
    {
      NormStep(query, k);
      denom2 := denom2 + Times(query[k].1, query[k].1);
      k := k + 1;
    }
    assert query[..|query|] == query;
    var denom := Times(sqrt(denom1), sqrt(denom2));
    if denom == 0.0 {
      r := ZeroDivisionError;
    } else {
      r := Ok(Quotient(numer, denom));
    }
  }
}
