/** Order-preserving selection over sequences (JavaScript's `Array.prototype.filter`)
    and the subsequence relation it establishes. */
module Seqs {

  /** `a` can be obtained from `b` by deleting elements, keeping the order of the rest. */
  ghost predicate Subsequence<T>(a: seq<T>, b: seq<T>)
    decreases |b|
  {
    if a == [] then true
    else if b == [] then false
    else (a[0] == b[0] && Subsequence(a[1..], b[1..])) || Subsequence(a, b[1..])
  }

  /** The elements of `s` that satisfy `p`, in their original order. */
  function Filter<T(!new)>(s: seq<T>, p: T -> bool): (r: seq<T>)
    ensures |r| <= |s|
    ensures forall i :: 0 <= i < |r| ==> p(r[i])
  {
    if s == [] then []
    else
      var rest := Filter(s[1..], p);
      assert s == [s[0]] + s[1..];
      if p(s[0]) then [s[0]] + rest else rest
  }

  /** Filtering a sequence with a known first element. */
  lemma FilterCons<T(!new)>(a: T, t: seq<T>, p: T -> bool)
    ensures Filter([a] + t, p) == (if p(a) then [a] else []) + Filter(t, p)
  {
    assert ([a] + t)[1..] == t;
  }

  /** Filtering keeps the relative order: the result is a subsequence of the input. */
  lemma {:induction false} FilterIsSubsequence<T(!new)>(s: seq<T>, p: T -> bool)
    ensures Subsequence(Filter(s, p), s)
    decreases |s|
  {
    if s != [] {
      FilterIsSubsequence(s[1..], p);
      var r := Filter(s, p);
      if p(s[0]) {
        assert r[0] == s[0] && r[1..] == Filter(s[1..], p);
      } else {
        assert r == Filter(s[1..], p);
        if r != [] {
          assert Subsequence(r, s[1..]);
        }
      }
    }
  }

  /** Filtering keeps every occurrence of a selected value and no occurrence of another. */
  lemma {:induction false} FilterMultiplicity<T(!new)>(s: seq<T>, p: T -> bool, x: T)
    ensures multiset(Filter(s, p))[x] == if p(x) then multiset(s)[x] else 0
    decreases |s|
  {
    if s != [] {
      FilterMultiplicity(s[1..], p, x);
      assert s == [s[0]] + s[1..];
    }
  }

  /** Membership in a filtered sequence, both directions. */
  lemma FilterMembership<T(!new)>(s: seq<T>, p: T -> bool, x: T)
    ensures x in Filter(s, p) <==> x in s && p(x)
  {
    FilterMultiplicity(s, p, x);
    var r := Filter(s, p);
    assert x in r <==> multiset(r)[x] > 0;
    assert x in s <==> multiset(s)[x] > 0;
  }

  /** Two predicates that agree on every element of `s` select the same subsequence. */
  lemma {:induction false} FilterCongruent<T(!new)>(s: seq<T>, p: T -> bool, q: T -> bool)
    requires forall i :: 0 <= i < |s| ==> p(s[i]) == q(s[i])
    ensures Filter(s, p) == Filter(s, q)
    decreases |s|
  {
    if s != [] {
      FilterCongruent(s[1..], p, q);
    }
  }
}
