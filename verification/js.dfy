/** The few JavaScript built-ins the client code leans on, with their
    JavaScript meaning: `Array.prototype.indexOf` (strict equality, -1 when
    absent) and the `%` operator on integral numbers, which truncates toward
    zero and so keeps the sign of the dividend; and the keys a property
    lookup on an object literal finds through `Object.prototype`. */
module Js {

  /** The properties every plain object literal inherits from
      `Object.prototype`; each holds a value that is neither `null` nor
      `undefined`. */
  const ObjectPrototypeKeys: set<string> := {
    "constructor", "hasOwnProperty", "isPrototypeOf", "propertyIsEnumerable", "toLocaleString",
    "toString", "valueOf", "__proto__", "__defineGetter__", "__defineSetter__", "__lookupGetter__",
    "__lookupSetter__"}

  /** `s.indexOf(x)`: the first position holding `x`, or -1. */
  function IndexOf<T(==)>(s: seq<T>, x: T): (k: int)
    ensures -1 <= k < |s|
    ensures k >= 0 ==> s[k] == x && forall j :: 0 <= j < k ==> s[j] != x
    ensures k == -1 <==> x !in s
  {
    IndexFrom(s, x, 0)
  }

  /** The first position at or after `from` holding `x`, or -1. */
  function IndexFrom<T(==)>(s: seq<T>, x: T, from: nat): (k: int)
    requires from <= |s|
    ensures -1 <= k < |s|
    ensures k >= 0 ==> from <= k && s[k] == x && forall j :: from <= j < k ==> s[j] != x
    ensures k == -1 <==> forall j :: from <= j < |s| ==> s[j] != x
    decreases |s| - from
  {
    if from == |s| then -1
    else if s[from] == x then from
    else IndexFrom(s, x, from + 1)
  }

  /** In a sequence without repeats, the element at position `k` is found
      at `k`. */
  lemma IndexOfDistinct<T>(s: seq<T>, k: nat)
    requires k < |s|
    requires forall i, j :: 0 <= i < j < |s| ==> s[i] != s[j]
    ensures IndexOf(s, s[k]) == k
  {
  }

  /** `a % b` for integral numbers and a positive divisor: the remainder of
      truncating division. */
  function Rem(a: int, b: int): (r: int)
    requires b > 0
    ensures a >= 0 ==> r == a % b
    ensures a >= 0 ==> 0 <= r < b
    ensures a < 0 ==> -b < r <= 0
  {
    if a >= 0 then a % b else -((-a) % b)
  }

  /** `Math.floor(a / b)` for a positive divisor. Dafny's `/` already rounds
      toward negative infinity when the divisor is positive. */
  function FloorDiv(a: int, b: int): (q: int)
    requires b > 0
    ensures q * b <= a < q * b + b
  {
    a / b
  }
}
