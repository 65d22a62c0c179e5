/** Stable descending sort by an integer key, the behaviour of ECMAScript's
    `Array.prototype.sort` with a comparator `(a, b) => key(b) - key(a)`. */
module StableSort {
  import Seqs

  /** Keys never increase from left to right. */
  ghost predicate SortedDesc<T>(s: seq<T>, key: T -> int)
  {
    forall i, j :: 0 <= i < j < |s| ==> key(s[i]) >= key(s[j])
  }

  /** The elements of `s` whose key is `k`, in their order in `s`. */
  function WithKey<T(!new)>(s: seq<T>, key: T -> int, k: int): seq<T>
  {
    Seqs.Filter(s, HasKey(key, k))
  }

  /** The test "the key of this element is `k`". */
  function HasKey<T>(key: T -> int, k: int): T -> bool
  {
    y => key(y) == k
  }

  /** `r` is the stable descending sort of `s`: sorted, a permutation of `s`, and
      elements with equal keys keep their relative order. These three facts
      determine `r` uniquely. */
  ghost predicate IsStableSortDesc<T(!new)>(r: seq<T>, s: seq<T>, key: T -> int)
  {
    && SortedDesc(r, key)
    && multiset(r) == multiset(s)
    && forall k :: WithKey(r, key, k) == WithKey(s, key, k)
  }

  /** A head whose key is at least that of the first element extends a sorted list. */
  lemma ConsSorted<T>(h: T, rest: seq<T>, key: T -> int)
    requires SortedDesc(rest, key) && (rest != [] ==> key(rest[0]) <= key(h))
    ensures SortedDesc([h] + rest, key)
  {
    var r := [h] + rest;
    forall i, j | 0 <= i < j < |r|
      ensures key(r[i]) >= key(r[j])
    {
      if i == 0 {
        assert r[j] == rest[j - 1];
        assert key(rest[0]) >= key(rest[j - 1]);
      } else {
        assert r[i] == rest[i - 1] && r[j] == rest[j - 1];
      }
    }
  }

  /** Inserts `x` in front of the first element whose key is not larger than its own. */
  function Insert<T(!new)>(x: T, s: seq<T>, key: T -> int): (r: seq<T>)
    requires SortedDesc(s, key)
    ensures |r| == |s| + 1
    ensures SortedDesc(r, key)
    ensures multiset(r) == multiset(s) + multiset{x}
    ensures r[0] == x || (s != [] && r[0] == s[0])
    decreases |s|
  {
    if s == [] || key(s[0]) <= key(x) then
      ConsSorted(x, s, key);
      [x] + s
    else
      var rest := Insert(x, s[1..], key);
      assert s == [s[0]] + s[1..];
      assert key(rest[0]) <= key(s[0]);
      ConsSorted(s[0], rest, key);
      [s[0]] + rest
  }

  /** Stable insertion sort, descending by `key`. */
  function SortDesc<T(!new)>(s: seq<T>, key: T -> int): (r: seq<T>)
    ensures SortedDesc(r, key)
    ensures multiset(r) == multiset(s)
    decreases |s|
  {
    if s == [] then []
    else
      assert s == [s[0]] + s[1..];
      Insert(s[0], SortDesc(s[1..], key), key)
  }

  /** Selecting one key from a sequence with a known first element. */
  lemma WithKeyCons<T(!new)>(a: T, t: seq<T>, key: T -> int, k: int)
    ensures WithKey([a] + t, key, k) == (if key(a) == k then [a] else []) + WithKey(t, key, k)
  {
    Seqs.FilterCons(a, t, HasKey(key, k));
  }

  /** Insertion puts `x` ahead of every element with the same key. */
  lemma {:induction false} InsertWithKey<T(!new)>(x: T, s: seq<T>, key: T -> int, k: int)
    requires SortedDesc(s, key)
    ensures WithKey(Insert(x, s, key), key, k) == (if key(x) == k then [x] else []) + WithKey(s, key, k)
    decreases |s|
  {
    if s == [] || key(s[0]) <= key(x) {
      WithKeyCons(x, s, key, k);
    } else {
      var t := s[1..];
      var rest := Insert(x, t, key);
      assert Insert(x, s, key) == [s[0]] + rest;
      assert s == [s[0]] + t;
      InsertWithKey(x, t, key, k);
      WithKeyCons(s[0], rest, key, k);
      WithKeyCons(s[0], t, key, k);
      var w := WithKey(t, key, k);
      if key(x) == k {
        assert WithKey([s[0]] + rest, key, k) == [x] + w;
      } else {
        assert WithKey(rest, key, k) == w;
      }
    }
  }

  /** The sort is a stable sort: the per-key subsequences are unchanged. */
  lemma {:induction false} SortDescIsStable<T(!new)>(s: seq<T>, key: T -> int)
    ensures IsStableSortDesc(SortDesc(s, key), s, key)
    decreases |s|
  {
    if s != [] {
      SortDescIsStable(s[1..], key);
      assert s == [s[0]] + s[1..];
      forall k
        ensures WithKey(SortDesc(s, key), key, k) == WithKey(s, key, k)
      {
        InsertWithKey(s[0], SortDesc(s[1..], key), key, k);
        Seqs.FilterCons(s[0], s[1..], HasKey(key, k));
      }
    }
  }
}
