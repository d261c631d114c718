/** The Fisher–Yates shuffle the code writes out three times (the unclaimed
    squares in `distributeSquares`, the digits in `assignNumbers` and in the
    local `handleAssignNumbers`). `Math.random` is not modelled: the swap
    index is an arbitrary choice in [0, i], so every property proved here
    holds for every outcome of the random draws. */
module Shuffle {

  /** Fisher–Yates from the last position down to 1: the array ends up a
      permutation of what it held. */
  method ShuffleInPlace<T>(a: array<T>)
    modifies a
    ensures multiset(a[..]) == old(multiset(a[..]))
  {
    var i := a.Length - 1;
    while i > 0
      invariant -1 <= i < a.Length
      invariant multiset(a[..]) == old(multiset(a[..]))
    {
      var j :| 0 <= j <= i;
      a[i], a[j] := a[j], a[i];
      i := i - 1;
    }
  }

  /** The digits 0..9 in order, the array the shuffles start from. */
  function Digits(): (d: seq<int>)
    ensures |d| == 10 && forall i :: 0 <= i < 10 ==> d[i] == i
  {
    seq(10, i => i)
  }

  /** Ten numbers that are 0..9 in some order. */
  predicate IsDigitPermutation(s: seq<int>) {
    |s| == 10 && multiset(s) == multiset(Digits())
  }

  predicate Distinct<T(==)>(s: seq<T>) {
    forall i, j :: 0 <= i < j < |s| ==> s[i] != s[j]
  }

  /** Two equal elements at different positions occur at least twice. */
  lemma {:induction false} RepeatCountsTwice<T>(s: seq<T>, i: nat, j: nat)
    requires i < j < |s| && s[i] == s[j]
    ensures multiset(s)[s[i]] >= 2
  {
    assert s == s[..i] + [s[i]] + s[i + 1..j] + [s[j]] + s[j + 1..];
  }

  /** A sequence in which nothing occurs twice is distinct. */
  lemma MultiplicityOneDistinct<T>(s: seq<T>)
    requires forall x :: multiset(s)[x] <= 1
    ensures Distinct(s)
  {
    forall i, j | 0 <= i < j < |s| ensures s[i] != s[j] {
      if s[i] == s[j] {
        RepeatCountsTwice(s, i, j);
        assert false;
      }
    }
  }

  /** In a distinct sequence nothing occurs twice. */
  lemma {:induction false} DistinctMultiplicityOne<T>(s: seq<T>)
    requires Distinct(s)
    ensures forall x :: multiset(s)[x] <= 1
  {
    if s != [] {
      assert s == [s[0]] + s[1..];
      assert Distinct(s[1..]);
      DistinctMultiplicityOne(s[1..]);
      assert s[0] !in s[1..];
    }
  }

  /** A permutation of the digits holds each digit 0..9 exactly once, and
      nothing else. */
  lemma {:induction false} DigitPermutationFacts(s: seq<int>)
    requires IsDigitPermutation(s)
    ensures Distinct(s)
    ensures forall d :: 0 <= d < 10 ==> d in s
    ensures forall i :: 0 <= i < |s| ==> 0 <= s[i] < 10
  {
    var ds := Digits();
    assert Distinct(ds);
    DistinctMultiplicityOne(ds);
    MultiplicityOneDistinct(s);
    forall d | 0 <= d < 10 ensures d in s {
      assert ds[d] == d;
      assert d in multiset(ds);
    }
    forall i | 0 <= i < |s| ensures 0 <= s[i] < 10 {
      assert s[i] in multiset(s);
      var k :| 0 <= k < 10 && ds[k] == s[i];
    }
  }

  /** Shuffling the digits yields a permutation of the digits. */
  method ShuffleDigits() returns (r: seq<int>)
    ensures IsDigitPermutation(r)
  {
    var a := new int[10](i => i);
    assert a[..] == Digits();
    ShuffleInPlace(a);
    r := a[..];
  }
}
