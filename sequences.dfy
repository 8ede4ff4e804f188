/**
 * Order-preserving filtering of sequences: the meaning of a Python list
 * comprehension `[x for x in s if p(x)]`.
 */
module Sequences {

  /** `a` can be obtained from `b` by deleting elements, keeping the order of the rest. */
  ghost predicate IsSubsequence<T>(a: seq<T>, b: seq<T>)
    decreases |b|
  {
    a == [] ||
    (b != [] && ((a[0] == b[0] && IsSubsequence(a[1..], b[1..])) || IsSubsequence(a, b[1..])))
  }

  /** Number of elements of `s` that satisfy `p`. */
  function Count<T>(s: seq<T>, p: T -> bool): (n: nat)
    ensures n <= |s|
  {
    if s == [] then 0 else (if p(s[0]) then 1 else 0) + Count(s[1..], p)
  }

  /** The elements of `s` that satisfy `p`, in their original order. */
  function Filter<T>(s: seq<T>, p: T -> bool): (r: seq<T>)
    ensures |r| == Count(s, p)
    ensures forall i :: 0 <= i < |r| ==> p(r[i])
    ensures forall x :: x in r ==> x in s
    ensures forall x :: x in s && p(x) ==> x in r
    ensures IsSubsequence(r, s)
  {
    if s == [] then []
    else if p(s[0]) then [s[0]] + Filter(s[1..], p)
    else Filter(s[1..], p)
  }

  /** A subsequence made only of elements satisfying `p` has at most `Count(s, p)` elements. */
  lemma {:induction false} SubsequenceCountBound<T>(r: seq<T>, s: seq<T>, p: T -> bool)
    requires IsSubsequence(r, s)
    requires forall i :: 0 <= i < |r| ==> p(r[i])
    ensures |r| <= Count(s, p)
    decreases |s|
  {
    if r != [] {
      if r[0] == s[0] && IsSubsequence(r[1..], s[1..]) {
        SubsequenceCountBound(r[1..], s[1..], p);
      } else {
        SubsequenceCountBound(r, s[1..], p);
      }
    }
  }

  /**
   * `Filter` is the only subsequence of `s` made of elements satisfying `p`
   * that has `Count(s, p)` elements: the three properties in its contract
   * determine the result completely.
   */
  lemma {:induction false} FilterUnique<T>(r: seq<T>, s: seq<T>, p: T -> bool)
    requires IsSubsequence(r, s)
    requires forall i :: 0 <= i < |r| ==> p(r[i])
    requires |r| == Count(s, p)
    ensures r == Filter(s, p)
    decreases |s|
  {
    if s == [] {
    } else if r == [] {
    } else if r[0] == s[0] && IsSubsequence(r[1..], s[1..]) {
      FilterUnique(r[1..], s[1..], p);
    } else {
      SubsequenceCountBound(r, s[1..], p);
      FilterUnique(r, s[1..], p);
    }
  }

  /** Filtering distributes over concatenation. */
  lemma {:induction false} FilterConcat<T>(a: seq<T>, b: seq<T>, p: T -> bool)
    ensures Filter(a + b, p) == Filter(a, p) + Filter(b, p)
  {
    if a == [] {
      assert a + b == b;
    } else {
      assert (a + b)[0] == a[0];
      assert (a + b)[1..] == a[1..] + b;
      FilterConcat(a[1..], b, p);
    }
  }

  /** A sequence whose every element satisfies `p` is left unchanged. */
  lemma {:induction false} FilterKeepsAll<T>(s: seq<T>, p: T -> bool)
    requires forall i :: 0 <= i < |s| ==> p(s[i])
    ensures Filter(s, p) == s
  {
    if s != [] {
      FilterKeepsAll(s[1..], p);
    }
  }

  /** Filters that agree on every element of `s` select the same elements. */
  lemma {:induction false} FilterAgrees<T>(s: seq<T>, p: T -> bool, q: T -> bool)
    requires forall i :: 0 <= i < |s| ==> p(s[i]) == q(s[i])
    ensures Filter(s, p) == Filter(s, q)
  {
    if s != [] {
      FilterAgrees(s[1..], p, q);
    }
  }

  /** Concatenation of a sequence of sequences (Python's `"".join`). */
  function Concat<T>(ss: seq<seq<T>>): (r: seq<T>)
  {
    if ss == [] then [] else ss[0] + Concat(ss[1..])
  }
}
