/**
 * Generic sequence operations the model is built from: order-preserving
 * filtering (Array.prototype.filter), removal of one index, and
 * first-occurrence de-duplication (spreading a `Set` back into an array).
 */
module Seqs {

  /** `a` can be obtained from `b` by deleting elements, keeping the order of the rest. */
  ghost predicate IsSubsequence<T>(a: seq<T>, b: seq<T>)
  {
    if |a| == 0 then true
    else if |b| == 0 then false
    else (a[0] == b[0] && IsSubsequence(a[1..], b[1..])) || IsSubsequence(a, b[1..])
  }

  /** No value occurs twice. */
  predicate NoDuplicates<T(==)>(s: seq<T>)
  {
    forall i, j :: 0 <= i < j < |s| ==> s[i] != s[j]
  }

  /** The elements of `xs` that satisfy `p`, in their original order. */
  function Filter<T(!new)>(xs: seq<T>, p: T -> bool): (r: seq<T>)
    ensures |r| <= |xs|
    ensures forall x :: x in r <==> x in xs && p(x)
    ensures IsSubsequence(r, xs)
  {
    if |xs| == 0 then []
    else if p(xs[0]) then [xs[0]] + Filter(xs[1..], p)
    else Filter(xs[1..], p)
  }

  /** A filter whose predicate holds of every element changes nothing. */
  lemma {:induction false} FilterKeepsAll<T(!new)>(xs: seq<T>, p: T -> bool)
    requires forall x :: x in xs ==> p(x)
    ensures Filter(xs, p) == xs
  {
    if |xs| > 0 {
      assert xs[0] in xs;
      assert forall x :: x in xs[1..] ==> x in xs;
      FilterKeepsAll(xs[1..], p);
      assert xs == [xs[0]] + xs[1..];
    }
  }

  /** Filters by predicates that agree on the elements give the same result. */
  lemma {:induction false} FilterExtensional<T(!new)>(xs: seq<T>, p: T -> bool, q: T -> bool)
    requires forall x :: x in xs ==> p(x) == q(x)
    ensures Filter(xs, p) == Filter(xs, q)
  {
    if |xs| > 0 {
      assert xs[0] in xs;
      assert forall x :: x in xs[1..] ==> x in xs;
      FilterExtensional(xs[1..], p, q);
    }
  }

  /** Two filters in a row are one filter by the conjunction of their predicates. */
  lemma {:induction false} FilterFusion<T(!new)>(xs: seq<T>, p: T -> bool, q: T -> bool, pq: T -> bool)
    requires forall x :: pq(x) == (p(x) && q(x))
    ensures Filter(Filter(xs, p), q) == Filter(xs, pq)
  {
    if |xs| > 0 {
      FilterFusion(xs[1..], p, q, pq);
      if p(xs[0]) {
        var tail := Filter(xs[1..], p);
        assert Filter(xs, p) == [xs[0]] + tail;
        assert ([xs[0]] + tail)[1..] == tail;
      }
    }
  }

  /** Filtering a second time by the same predicate changes nothing. */
  lemma FilterIdempotent<T(!new)>(xs: seq<T>, p: T -> bool)
    ensures Filter(Filter(xs, p), p) == Filter(xs, p)
  {
    FilterFusion(xs, p, p, p);
  }

  /** The elements of `xs` except the one at position `index - offset`. */
  function DropPosition<T>(xs: seq<T>, index: int, offset: int): (r: seq<T>)
    ensures offset <= index < offset + |xs| ==> r == xs[..index - offset] + xs[index - offset + 1..]
    ensures !(offset <= index < offset + |xs|) ==> r == xs
  {
    if |xs| == 0 then []
    else (if offset == index then [] else [xs[0]]) + DropPosition(xs[1..], index, offset + 1)
  }

  /**
   * `xs.filter((_, i) => i !== index)`: every element whose position differs
   * from `index`. An index outside the sequence removes nothing.
   */
  function RemoveAt<T>(xs: seq<T>, index: int): (r: seq<T>)
    ensures 0 <= index < |xs| ==> r == xs[..index] + xs[index + 1..]
    ensures 0 <= index < |xs| ==> |r| == |xs| - 1
    ensures !(0 <= index < |xs|) ==> r == xs
  {
    DropPosition(xs, index, 0)
  }

  /** The position of the first occurrence of `x` in `xs`. */
  function FirstIndex<T(==)>(xs: seq<T>, x: T): (k: nat)
    requires x in xs
    ensures k < |xs| && xs[k] == x && x !in xs[..k]
  {
    if xs[0] == x then 0
    else
      var k := 1 + FirstIndex(xs[1..], x);
      assert xs[..k] == [xs[0]] + xs[1..][..k - 1];
      k
  }

  /** A position holding `x` with no `x` before it is the first occurrence. */
  lemma FirstIndexUnique<T>(xs: seq<T>, x: T, k: nat)
    requires k < |xs| && xs[k] == x && x !in xs[..k]
    ensures FirstIndex(xs, x) == k
  {
  }

  /** A value that occurs in a prefix has its first occurrence there. */
  lemma FirstIndexInPrefix<T>(xs: seq<T>, n: nat, x: T)
    requires n <= |xs| && x in xs[..n]
    ensures FirstIndex(xs, x) == FirstIndex(xs[..n], x) < n
  {
    var k := FirstIndex(xs[..n], x);
    assert xs[..n][..k] == xs[..k];
    FirstIndexUnique(xs, x, k);
  }

  /**
   * The distinct values of `xs`, each kept at its first occurrence
   * (`[...new Set(xs)]`).
   */
  function Distinct<T(==,!new)>(xs: seq<T>): (r: seq<T>)
    ensures NoDuplicates(r)
    ensures forall x :: x in r <==> x in xs
  {
    if |xs| == 0 then []
    else
      var init := xs[..|xs| - 1];
      var last := xs[|xs| - 1];
      assert xs == init + [last];
      var d := Distinct(init);
      if last in d then d else d + [last]
  }

  /** `Distinct` lists the values in the order of their first occurrence in `xs`. */
  lemma {:induction false} DistinctFirstOccurrenceOrder<T(!new)>(xs: seq<T>)
    ensures forall i, j :: 0 <= i < j < |Distinct(xs)| ==>
              FirstIndex(xs, Distinct(xs)[i]) < FirstIndex(xs, Distinct(xs)[j])
  {
    if |xs| > 0 {
      var n := |xs| - 1;
      var init := xs[..n];
      var last := xs[n];
      var d := Distinct(init);
      DistinctFirstOccurrenceOrder(init);
      forall v | v in d
        ensures FirstIndex(xs, v) == FirstIndex(init, v) < n
      {
        FirstIndexInPrefix(xs, n, v);
      }
      if last !in d {
        FirstIndexUnique(xs, last, n);
        var r := d + [last];
        assert r == Distinct(xs);
        forall i, j | 0 <= i < j < |r|
          ensures FirstIndex(xs, r[i]) < FirstIndex(xs, r[j])
        {
          assert r[i] == d[i];
          if j < |d| {
            assert r[j] == d[j];
          }
        }
      }
    }
  }
}
