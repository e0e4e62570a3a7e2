/** Order-preserving filtering, the model of `stream().filter(...)`. */
module Seqs {

  /** `sub` can be obtained from `xs` by deleting elements. */
  ghost predicate IsSubsequence<T>(sub: seq<T>, xs: seq<T>)
    decreases |xs|
  {
    |sub| == 0 ||
    (|xs| > 0 &&
     ((sub[0] == xs[0] && IsSubsequence(sub[1..], xs[1..])) || IsSubsequence(sub, xs[1..])))
  }

  /** The elements of `xs` that satisfy `keep`, in their original order. */
  function Filter<T(!new)>(xs: seq<T>, keep: T -> bool): (r: seq<T>)
    ensures |r| <= |xs|
    ensures forall x :: x in r <==> x in xs && keep(x)
    decreases |xs|
  {
    if |xs| == 0 then []
    else
      var rest := Filter(xs[1..], keep);
      assert xs == [xs[0]] + xs[1..];
      if keep(xs[0]) then [xs[0]] + rest else rest
  }

  /** The filter deletes exactly the rejected elements: what it returns is a
      subsequence of its input holding every kept element as often as the
      input does, and nothing else. */
  lemma {:induction false} FilterKeepsOrder<T(!new)>(xs: seq<T>, keep: T -> bool)
    ensures IsSubsequence(Filter(xs, keep), xs)
    ensures forall x :: multiset(Filter(xs, keep))[x] == if keep(x) then multiset(xs)[x] else 0
    decreases |xs|
  {
    if |xs| > 0 {
      FilterKeepsOrder(xs[1..], keep);
      var rest := Filter(xs[1..], keep);
      assert xs == [xs[0]] + xs[1..];
      if keep(xs[0]) {
        assert ([xs[0]] + rest)[1..] == rest;
      }
    }
  }

  /** A chain of two filters keeps what their conjunction keeps. */
  lemma {:induction false} FilterFuse<T(!new)>(xs: seq<T>, p: T -> bool, q: T -> bool)
    ensures Filter(Filter(xs, p), q) == Filter(xs, x => p(x) && q(x))
    decreases |xs|
  {
    if |xs| > 0 {
      FilterFuse(xs[1..], p, q);
      if p(xs[0]) {
        assert ([xs[0]] + Filter(xs[1..], p))[1..] == Filter(xs[1..], p);
      }
    }
  }

  /** Filters that agree on every element of `xs` select the same elements. */
  lemma {:induction false} FilterAgree<T(!new)>(xs: seq<T>, p: T -> bool, q: T -> bool)
    requires forall x :: x in xs ==> p(x) == q(x)
    ensures Filter(xs, p) == Filter(xs, q)
    decreases |xs|
  {
    if |xs| > 0 {
      assert xs[0] in xs;
      forall x | x in xs[1..]
        ensures p(x) == q(x)
      {
        assert x in xs;
      }
      FilterAgree(xs[1..], p, q);
    }
  }

  /** A filter that accepts every element returns the sequence unchanged. */
  lemma {:induction false} FilterKeepsAll<T(!new)>(xs: seq<T>, keep: T -> bool)
    requires forall x :: x in xs ==> keep(x)
    ensures Filter(xs, keep) == xs
    decreases |xs|
  {
    if |xs| > 0 {
      assert xs[0] in xs;
      forall x | x in xs[1..]
        ensures keep(x)
      {
        assert x in xs;
      }
      FilterKeepsAll(xs[1..], keep);
      assert xs == [xs[0]] + xs[1..];
    }
  }

  /** Three chained filters keep what `all` keeps, when `all` is their conjunction. */
  lemma FilterChain3<T(!new)>(xs: seq<T>, p: T -> bool, q: T -> bool, w: T -> bool, all: T -> bool)
    requires forall x :: all(x) == (p(x) && q(x) && w(x))
    ensures Filter(Filter(Filter(xs, p), q), w) == Filter(xs, all)
  {
    var pq := x => p(x) && q(x);
    FilterFuse(xs, p, q);
    FilterFuse(xs, pq, w);
    FilterAgree(xs, x => pq(x) && w(x), all);
  }

  /** Four chained filters keep what `all` keeps, when `all` is their conjunction. */
  lemma FilterChain4<T(!new)>(xs: seq<T>, p: T -> bool, q: T -> bool, v: T -> bool, w: T -> bool,
                              all: T -> bool)
    requires forall x :: all(x) == (p(x) && q(x) && v(x) && w(x))
    ensures Filter(Filter(Filter(Filter(xs, p), q), v), w) == Filter(xs, all)
  {
    var pqv := x => p(x) && q(x) && v(x);
    FilterChain3(xs, p, q, v, pqv);
    FilterFuse(xs, pqv, w);
    FilterAgree(xs, x => pqv(x) && w(x), all);
  }
}
