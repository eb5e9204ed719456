/** The stable comparison sort the repository takes from its algorithms
    package (its merge sort is not part of this model). Only its interface
    matters here: the result is ordered by the extracted key, is a
    permutation of the input, and keeps equal-key elements in input order.
    The body below is an insertion sort that meets that interface. */
module Sorting {

  /** `s` is in non-decreasing order of `key`. */
  ghost predicate SortedBy<T>(s: seq<T>, key: T -> real) {
    forall i, j | 0 <= i < j < |s| :: key(s[i]) <= key(s[j])
  }

  /** `s` is in strictly increasing order of `key`. */
  ghost predicate StrictlySortedBy<T>(s: seq<T>, key: T -> real) {
    forall i, j | 0 <= i < j < |s| :: key(s[i]) < key(s[j])
  }

  /** No two positions of `s` carry the same key. */
  ghost predicate DistinctBy<T>(s: seq<T>, key: T -> real) {
    forall i, j | 0 <= i < j < |s| :: key(s[i]) != key(s[j])
  }

  /** The elements of `s` whose key is `k`, in their order in `s`. */
  ghost function WithKey<T>(s: seq<T>, key: T -> real, k: real): seq<T> {
    if s == [] then []
    else (if key(s[0]) == k then [s[0]] else []) + WithKey(s[1..], key, k)
  }

  /** Places `x` in front of the first element whose key is not smaller. */
  function InsertByKey<T>(x: T, s: seq<T>, key: T -> real): (r: seq<T>)
    requires SortedBy(s, key)
    ensures SortedBy(r, key)
    ensures multiset(r) == multiset(s) + multiset{x}
    ensures r[0] == x || (s != [] && r[0] == s[0])
  {
    if s == [] || key(x) <= key(s[0]) then
      [x] + s
    else
      var rest := InsertByKey(x, s[1..], key);
      assert s == [s[0]] + s[1..];
      assert key(s[0]) <= key(rest[0]);
      [s[0]] + rest
  }

  /** Sorts `s` by `key`, keeping the input order of elements with equal keys. */
  function StableSortBy<T>(s: seq<T>, key: T -> real): (r: seq<T>)
    ensures SortedBy(r, key)
    ensures multiset(r) == multiset(s)
  {
    if s == [] then []
    else
      var rest := StableSortBy(s[1..], key);
      assert s == [s[0]] + s[1..];
      InsertByKey(s[0], rest, key)
  }

  lemma {:induction false} SortPreservesLength<T>(s: seq<T>, key: T -> real)
    ensures |StableSortBy(s, key)| == |s|
  {
    var r := StableSortBy(s, key);
    assert |r| == |multiset(r)| == |multiset(s)| == |s|;
  }

  /** Inserting `x` adds it in front of the elements that share its key. */
  lemma {:induction false} InsertByKeyStable<T>(x: T, s: seq<T>, key: T -> real, k: real)
    requires SortedBy(s, key)
    ensures WithKey(InsertByKey(x, s, key), key, k) == (if key(x) == k then [x] else []) + WithKey(s, key, k)
  {
    var r := InsertByKey(x, s, key);
    if s == [] || key(x) <= key(s[0]) {
      assert r[1..] == s;
    } else {
      var rest := InsertByKey(x, s[1..], key);
      assert r[1..] == rest;
      InsertByKeyStable(x, s[1..], key, k);
    }
  }

  /** Elements with equal keys keep their input order. */
  lemma {:induction false} SortIsStable<T>(s: seq<T>, key: T -> real, k: real)
    ensures WithKey(StableSortBy(s, key), key, k) == WithKey(s, key, k)
  {
    if s != [] {
      SortIsStable(s[1..], key, k);
      InsertByKeyStable(s[0], StableSortBy(s[1..], key), key, k);
    }
  }

  /** A sorted permutation of input with distinct keys is strictly sorted. */
  lemma SortOfDistinctIsStrict<T>(s: seq<T>, key: T -> real)
    requires DistinctBy(s, key)
    ensures StrictlySortedBy(StableSortBy(s, key), key)
  {
    var r := StableSortBy(s, key);
    forall i, j | 0 <= i < j < |r| ensures key(r[i]) < key(r[j]) {
      assert key(r[i]) <= key(r[j]);
      if key(r[i]) == key(r[j]) {
        TwoPositionsSameKey(s, r, key, i, j);
        assert false;
      }
    }
  }

  /** Two positions of a permutation of `s` map back to two positions of `s`. */
  lemma TwoPositionsSameKey<T>(s: seq<T>, r: seq<T>, key: T -> real, i: int, j: int)
    requires multiset(r) == multiset(s)
    requires 0 <= i < j < |r| && key(r[i]) == key(r[j])
    ensures !DistinctBy(s, key)
  {
    assert r[i] in multiset(s) && r[j] in multiset(s);
    if r[i] == r[j] {
      OccursTwice(r, i, j);
      var a, b := TwoPositionsOf(s, r[i]);
      assert key(s[a]) == key(s[b]);
    } else {
      var a :| 0 <= a < |s| && s[a] == r[i];
      var b :| 0 <= b < |s| && s[b] == r[j];
      if a < b {
        assert key(s[a]) == key(s[b]);
      } else {
        assert key(s[b]) == key(s[a]);
      }
    }
  }

  /** A value at two positions occurs at least twice. */
  lemma OccursTwice<T>(r: seq<T>, i: int, j: int)
    requires 0 <= i < j < |r| && r[i] == r[j]
    ensures multiset(r)[r[i]] >= 2
  {
    assert r == r[..j] + r[j..];
    assert r[i] in r[..j] && r[j] == r[j..][0];
    assert multiset(r) == multiset(r[..j]) + multiset(r[j..]);
  }

  /** A value occurring at least twice sits at two distinct positions. */
  lemma TwoPositionsOf<T>(s: seq<T>, x: T) returns (a: int, b: int)
    requires multiset(s)[x] >= 2
    ensures 0 <= a < b < |s| && s[a] == x && s[b] == x
  {
    assert x in multiset(s);
    var c :| 0 <= c < |s| && s[c] == x;
    var rest := s[..c] + s[c + 1..];
    assert s == s[..c] + [s[c]] + s[c + 1..];
    assert multiset(s) == multiset(rest) + multiset{x};
    assert x in multiset(rest);
    var d :| 0 <= d < |rest| && rest[d] == x;
    if d < c {
      a, b := d, c;
    } else {
      a, b := c, d + 1;
    }
  }
}
