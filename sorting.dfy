/**
  In-place sorting of an array by an integer key, the model of Rust's `sort_unstable_by_key`
  and of `sort_unstable` under an `Ord` that compares one integer field. Elements with equal
  keys may end up in any order.
 */
module Sorting {

  predicate SortedBy<T>(s: seq<T>, key: T -> int)
  {
    forall i, j :: 0 <= i < j < |s| ==> key(s[i]) <= key(s[j])
  }

  /** Exchanges the neighbours at `j - 1` and `j`. */
  method SwapDown<T>(a: array<T>, j: int)
    requires 0 < j < a.Length
    modifies a
    ensures a[..] == old(a[..])[j - 1 := old(a[j])][j := old(a[j - 1])]
    ensures multiset(a[..]) == old(multiset(a[..]))
  {
    a[j - 1], a[j] := a[j], a[j - 1];
  }

  /** Moves `a[i]` down into the sorted prefix `a[..i]`. */
  method InsertAt<T>(a: array<T>, key: T -> int, i: int)
    requires 0 <= i < a.Length
    requires SortedBy(a[..i], key)
    modifies a
    ensures SortedBy(a[..i + 1], key)
    ensures a[i + 1..] == old(a[i + 1..])
    ensures multiset(a[..]) == old(multiset(a[..]))
  {
    var j := i;
    while j > 0 && key(a[j - 1]) > key(a[j])
      invariant 0 <= j <= i
      invariant a[i + 1..] == old(a[i + 1..])
      invariant multiset(a[..]) == old(multiset(a[..]))
      invariant forall p, q :: 0 <= p < q <= i && p != j && q != j ==> key(a[p]) <= key(a[q])
      invariant forall q :: j < q <= i ==> key(a[j]) <= key(a[q])
      invariant 0 < j < i ==> key(a[j - 1]) <= key(a[j + 1])
    {
      SwapDown(a, j);
      j := j - 1;
    }
  }

  /** Insertion sort: afterwards the array is ordered by `key` and a permutation of its input. */
  method SortByKey<T>(a: array<T>, key: T -> int)
    modifies a
    ensures SortedBy(a[..], key)
    ensures multiset(a[..]) == old(multiset(a[..]))
  {
    var i := 0;
    while i < a.Length
      invariant 0 <= i <= a.Length
      invariant SortedBy(a[..i], key)
      invariant multiset(a[..]) == old(multiset(a[..]))
    {
      InsertAt(a, key, i);
      i := i + 1;
    }
    assert a[..] == a[..a.Length];
  }
}
