/** `_.sortBy`: sorts the given array in place by a numeric key and
    returns that same array. */
module Sorting {

  /** Ascending in the key: no element has a larger key than a later one. */
  ghost predicate SortedBy<T>(s: seq<T>, key: T -> int)
  {
    forall i, j :: 0 <= i < j < |s| ==> key(s[i]) <= key(s[j])
  }

  /** The first `len` elements of `a` are in ascending key order. */
  ghost predicate SortedPrefix<T>(a: array<T>, len: int, key: T -> int)
    requires 0 <= len <= a.Length
    reads a
  {
    SortedBy(a[..len], key)
  }

  /** Exchanges two neighbouring elements. */
  method SwapDown<T>(a: array<T>, j: int)
    requires 0 < j < a.Length
    modifies a
    ensures a[..] == old(a[..])[j - 1 := old(a[j])][j := old(a[j - 1])]
    ensures multiset(a[..]) == old(multiset(a[..]))
  {
    a[j - 1], a[j] := a[j], a[j - 1];
  }

  /** Moves `a[i]` down into the sorted prefix `a[..i]`. */
  method Insert<T>(a: array<T>, i: int, key: T -> int)
    requires 0 <= i < a.Length
    requires SortedPrefix(a, i, key)
    modifies a
    ensures SortedPrefix(a, i + 1, key)
    ensures multiset(a[..]) == old(multiset(a[..]))
    ensures a[i + 1..] == old(a[i + 1..])
  {
    var j := i;
    while j > 0 && key(a[j - 1]) > key(a[j])
      invariant 0 <= j <= i
      invariant forall p, q :: 0 <= p < q <= i && p != j && q != j ==> key(a[p]) <= key(a[q])
      invariant forall q :: j < q <= i ==> key(a[j]) <= key(a[q])
      invariant multiset(a[..]) == old(multiset(a[..]))
      invariant a[i + 1..] == old(a[i + 1..])
    {
      SwapDown(a, j);
      j := j - 1;
    }
  }

  /** `collection.sort((a, b) => key(a) - key(b))`. The engine's sort is not
      part of the model: any in-place sort meets this contract, and this one
      is an insertion sort. */
  method SortBy<T>(collection: array<T>, key: T -> int) returns (r: array<T>)
    modifies collection
    ensures r == collection
    ensures SortedBy(collection[..], key)
    ensures multiset(collection[..]) == old(multiset(collection[..]))
  {
    for i := 0 to collection.Length
      invariant SortedPrefix(collection, i, key)
      invariant multiset(collection[..]) == old(multiset(collection[..]))
    {
      Insert(collection, i, key);
    }
    r := collection;
  }
}
