/** The stable descending sort the code gets from `Array.prototype.sort`
    with a comparator `(a, b) => key(b) - key(a)`: an insertion sort that
    places an element before the first one whose key is not larger, so
    that elements with equal keys keep their input order. */
module Sorting {

  predicate SortedDesc<T>(s: seq<T>, key: T -> int) {
    forall i, j :: 0 <= i < j < |s| ==> key(s[i]) >= key(s[j])
  }

  /** Every element of `s` has a key at most `bound`. */
  predicate KeysAtMost<T>(s: seq<T>, key: T -> int, bound: int) {
    forall i :: 0 <= i < |s| ==> key(s[i]) <= bound
  }

  function InsertDesc<T>(x: T, s: seq<T>, key: T -> int): (r: seq<T>)
    requires SortedDesc(s, key)
    ensures SortedDesc(r, key)
    ensures multiset(r) == multiset(s) + multiset{x}
    ensures |r| == |s| + 1
    ensures forall b :: KeysAtMost(s, key, b) && key(x) <= b ==> KeysAtMost(r, key, b)
  {
    if s == [] || key(s[0]) <= key(x) then [x] + s
    else
      var rest := InsertDesc(x, s[1..], key);
      assert KeysAtMost(s[1..], key, key(s[0]));
      assert s == [s[0]] + s[1..];
      [s[0]] + rest
  }

  /** Sorted by key, descending, and a permutation of the input. */
  function SortDesc<T>(s: seq<T>, key: T -> int): (r: seq<T>)
    ensures SortedDesc(r, key)
    ensures multiset(r) == multiset(s)
    ensures |r| == |s|
  {
    if s == [] then []
    else
      assert s == [s[0]] + s[1..];
      InsertDesc(s[0], SortDesc(s[1..], key), key)
  }

  /** Sequences with the same multiset have the same members. */
  lemma SameMembers<T>(a: seq<T>, b: seq<T>)
    requires multiset(a) == multiset(b)
    ensures forall x :: x in a <==> x in b
  {
    forall x ensures x in a <==> x in b {
      assert x in a <==> x in multiset(a);
      assert x in b <==> x in multiset(b);
    }
  }

  /** A sorted sequence's prefix is sorted, is part of the whole, and an
      element of the whole left out of the prefix has a key no larger than
      any key inside it. */
  lemma PrefixOfSorted<T>(s: seq<T>, key: T -> int, n: nat)
    requires SortedDesc(s, key) && n <= |s|
    ensures SortedDesc(s[..n], key)
    ensures multiset(s[..n]) <= multiset(s)
    ensures forall x :: x in s && x !in s[..n] ==> forall i :: 0 <= i < n ==> key(s[..n][i]) >= key(x)
  {
    assert s == s[..n] + s[n..];
    forall x | x in s && x !in s[..n] ensures forall i :: 0 <= i < n ==> key(s[..n][i]) >= key(x) {
      var j :| 0 <= j < |s| && s[j] == x;
      assert j >= n;
    }
  }

  /** Sorting a list that is already sorted gives it back unchanged: ties
      keep their order. */
  lemma {:induction false} SortSortedIsIdentity<T>(s: seq<T>, key: T -> int)
    requires SortedDesc(s, key)
    ensures SortDesc(s, key) == s
  {
    if s != [] {
      assert SortedDesc(s[1..], key);
      SortSortedIsIdentity(s[1..], key);
      assert s == [s[0]] + s[1..];
    }
  }
}
