/** Python's `sorted(xs, key=...)` on integer keys: a stable sort. It orders the
    scheme-C key pairs by their order value and the clue lists by clue number. */
module Sorting {

  /** Inserts `x` in front of the first element whose key is not below its own,
      so that `x` stays ahead of the elements with an equal key. */
  function Insert<T>(x: T, s: seq<T>, key: T -> int): seq<T>
  {
    if s == [] || key(x) <= key(s[0]) then [x] + s
    else [s[0]] + Insert(x, s[1..], key)
  }

  /** `sorted(xs, key=key)`. */
  function SortBy<T>(xs: seq<T>, key: T -> int): seq<T>
  {
    if xs == [] then [] else Insert(xs[0], SortBy(xs[1..], key), key)
  }

  predicate SortedBy<T>(s: seq<T>, key: T -> int)
  {
    forall i, j :: 0 <= i < j < |s| ==> key(s[i]) <= key(s[j])
  }

  /** The elements of `s` whose key is `v`, in their order in `s`. A sort is
      stable when it leaves each of these subsequences as it was. */
  function WithKey<T>(s: seq<T>, key: T -> int, v: int): seq<T>
  {
    if s == [] then [] else (if key(s[0]) == v then [s[0]] else []) + WithKey(s[1..], key, v)
  }

  lemma {:induction false} InsertMultiset<T>(x: T, s: seq<T>, key: T -> int)
    ensures multiset(Insert(x, s, key)) == multiset(s) + multiset{x}
  {
    if s != [] && key(x) > key(s[0]) {
      InsertMultiset(x, s[1..], key);
      assert s == [s[0]] + s[1..];
    }
  }

  lemma {:induction false} InsertSorted<T>(x: T, s: seq<T>, key: T -> int)
    requires SortedBy(s, key)
    ensures SortedBy(Insert(x, s, key), key)
  {
    if s != [] && key(x) > key(s[0]) {
      var rest := Insert(x, s[1..], key);
      InsertSorted(x, s[1..], key);
      InsertMultiset(x, s[1..], key);
      forall j | 0 <= j < |rest|
        ensures key(s[0]) <= key(rest[j])
      {
        assert rest[j] in multiset(s[1..]) + multiset{x};
        if rest[j] != x {
          assert rest[j] in s[1..];
        }
      }
    }
  }

  lemma {:induction false} InsertWithKey<T>(x: T, s: seq<T>, key: T -> int, v: int)
    ensures WithKey(Insert(x, s, key), key, v) == WithKey([x] + s, key, v)
  {
    if s == [] || key(x) <= key(s[0]) {
    } else {
      InsertWithKey(x, s[1..], key, v);
      assert ([x] + s)[1..] == s;
      assert ([x] + s[1..])[1..] == s[1..];
      assert ([s[0]] + Insert(x, s[1..], key))[1..] == Insert(x, s[1..], key);
    }
  }

  lemma {:induction false} SortBySorted<T>(xs: seq<T>, key: T -> int)
    ensures SortedBy(SortBy(xs, key), key)
  {
    if xs != [] {
      SortBySorted(xs[1..], key);
      InsertSorted(xs[0], SortBy(xs[1..], key), key);
    }
  }

  lemma {:induction false} SortByMultiset<T>(xs: seq<T>, key: T -> int)
    ensures multiset(SortBy(xs, key)) == multiset(xs)
  {
    if xs != [] {
      SortByMultiset(xs[1..], key);
      InsertMultiset(xs[0], SortBy(xs[1..], key), key);
      assert xs == [xs[0]] + xs[1..];
    }
  }

  lemma {:induction false} SortByWithKey<T>(xs: seq<T>, key: T -> int, v: int)
    ensures WithKey(SortBy(xs, key), key, v) == WithKey(xs, key, v)
  {
    if xs != [] {
      SortByWithKey(xs[1..], key, v);
      InsertWithKey(xs[0], SortBy(xs[1..], key), key, v);
      assert ([xs[0]] + SortBy(xs[1..], key))[1..] == SortBy(xs[1..], key);
      assert xs == [xs[0]] + xs[1..];
    }
  }

  /** `sorted` returns a permutation of its input, ordered by key, and the
      elements that share a key keep their original relative order. */
  lemma SortByCorrect<T>(xs: seq<T>, key: T -> int)
    ensures |SortBy(xs, key)| == |xs|
    ensures SortedBy(SortBy(xs, key), key)
    ensures multiset(SortBy(xs, key)) == multiset(xs)
    ensures forall v :: WithKey(SortBy(xs, key), key, v) == WithKey(xs, key, v)
  {
    forall v
      ensures WithKey(SortBy(xs, key), key, v) == WithKey(xs, key, v)
    {
      SortByWithKey(xs, key, v);
    }
    SortBySorted(xs, key);
    SortByMultiset(xs, key);
    assert |multiset(SortBy(xs, key))| == |multiset(xs)|;
  }
}
