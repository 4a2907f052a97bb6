/** Sequence helpers shared by the text stages and the response validators:
    the `Array.prototype.filter` of the backend and the order-preserving
    subsequence relation used to state what a filter keeps. */
module Seqs {

  /** `a` can be obtained from `b` by deleting elements, keeping the order. */
  ghost predicate IsSubsequence<T>(a: seq<T>, b: seq<T>)
    decreases |b|
  {
    if a == [] then true
    else if b == [] then false
    else (a[0] == b[0] && IsSubsequence(a[1..], b[1..])) || IsSubsequence(a, b[1..])
  }

  /** `xs.filter(p)`: the elements of `xs` that satisfy `p`, in their order. */
  function Filter<T>(xs: seq<T>, p: T -> bool): (r: seq<T>)
    ensures |r| <= |xs|
    ensures forall i | 0 <= i < |r| :: p(r[i])
    ensures r == [] <==> forall i | 0 <= i < |xs| :: !p(xs[i])
    ensures (forall i | 0 <= i < |xs| :: p(xs[i])) ==> r == xs
  {
    if xs == [] then []
    else
      var rest := Filter(xs[1..], p);
      assert forall i | 1 <= i < |xs| :: xs[i] == xs[1..][i - 1];
      if p(xs[0]) then [xs[0]] + rest else rest
  }

  /** The filter keeps every element that satisfies the predicate, adds
      nothing, and keeps the order. */
  lemma {:induction false} FilterKeeps<T>(xs: seq<T>, p: T -> bool)
    ensures forall i | 0 <= i < |xs| && p(xs[i]) :: xs[i] in Filter(xs, p)
    ensures forall x | x in Filter(xs, p) :: x in xs && p(x)
    ensures IsSubsequence(Filter(xs, p), xs)
    decreases |xs|
  {
    if xs != [] {
      FilterKeeps(xs[1..], p);
      assert forall i | 1 <= i < |xs| :: xs[i] == xs[1..][i - 1];
    }
  }

  /** A property every element has is kept by the filter. */
  lemma {:induction false} FilterAll<T>(xs: seq<T>, p: T -> bool, q: T -> bool)
    requires forall i | 0 <= i < |xs| :: q(xs[i])
    ensures forall i | 0 <= i < |Filter(xs, p)| :: q(Filter(xs, p)[i])
    decreases |xs|
  {
    if xs != [] {
      assert forall i | 1 <= i < |xs| :: xs[i] == xs[1..][i - 1];
      FilterAll(xs[1..], p, q);
      var rest := Filter(xs[1..], p);
      assert forall i | 0 <= i < |rest| :: ([xs[0]] + rest)[i + 1] == rest[i];
    }
  }

  /** Filtering distributes over concatenation. */
  lemma {:induction false} FilterAppend<T>(a: seq<T>, b: seq<T>, p: T -> bool)
    ensures Filter(a + b, p) == Filter(a, p) + Filter(b, p)
  {
    if a != [] {
      assert (a + b)[1..] == a[1..] + b;
      FilterAppend(a[1..], b, p);
    } else {
      assert a + b == b;
    }
  }

  /** The concatenation of a sequence of strings, `parts.join('')`. */
  function Concat(parts: seq<string>): string
  {
    if parts == [] then [] else parts[0] + Concat(parts[1..])
  }

  lemma ConcatCons(x: string, parts: seq<string>)
    ensures Concat([x] + parts) == x + Concat(parts)
  {
    assert ([x] + parts)[1..] == parts;
  }

  /** The slices of a concatenation of three parts. */
  lemma SlicesOfThree<T>(a: seq<T>, w: seq<T>, b: seq<T>)
    ensures a + w + b == a + (w + b)
    ensures (a + w + b)[..|a|] == a && (a + w + b)[|a|..] == w + b
    ensures (a + w + b)[|a| + |w|..] == b
  {
  }

  /** Indexing past the head of a sequence. */
  lemma ConsIndex<T>(x: T, xs: seq<T>)
    ensures forall i | 1 <= i < |xs| + 1 :: ([x] + xs)[i] == xs[i - 1]
  {
  }

  /** Filters by predicates that agree everywhere keep the same elements. */
  lemma {:induction false} FilterExt<T>(xs: seq<T>, p: T -> bool, q: T -> bool)
    requires forall x :: p(x) == q(x)
    ensures Filter(xs, p) == Filter(xs, q)
    decreases |xs|
  {
    if xs != [] {
      FilterExt(xs[1..], p, q);
    }
  }

  /** Filtering twice is filtering once by both predicates. */
  lemma {:induction false} FilterFilter<T>(xs: seq<T>, p: T -> bool, q: T -> bool, both: T -> bool)
    requires forall x :: both(x) == (p(x) && q(x))
    ensures Filter(Filter(xs, p), q) == Filter(xs, both)
    decreases |xs|
  {
    if xs != [] {
      FilterFilter(xs[1..], p, q, both);
      var rest := Filter(xs[1..], p);
      if p(xs[0]) {
        assert ([xs[0]] + rest)[1..] == rest;
      }
    }
  }

  /** `s.startsWith(p)`. */
  predicate StartsWith(s: string, p: string) {
    |p| <= |s| && s[..|p|] == p
  }

  /** `s.endsWith(p)`. */
  predicate EndsWith(s: string, p: string) {
    |p| <= |s| && s[|s| - |p|..] == p
  }
}
