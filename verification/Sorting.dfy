// In-place insertion sort over a total order, standing for `sort.Strings`.
module Sorting {

  ghost predicate TotalOrder<T(!new)>(leq: (T, T) -> bool) {
    && (forall a, b :: leq(a, b) || leq(b, a))
    && (forall a, b :: leq(a, b) && leq(b, a) ==> a == b)
    && (forall a, b, c :: leq(a, b) && leq(b, c) ==> leq(a, c))
  }

  ghost predicate Sorted<T>(s: seq<T>, leq: (T, T) -> bool) {
    forall i, j :: 0 <= i < j < |s| ==> leq(s[i], s[j])
  }

  /** Sorted once position `hole` is left out. */
  ghost predicate SortedExcept<T>(s: seq<T>, leq: (T, T) -> bool, hole: int) {
    forall i, j :: 0 <= i < j < |s| && i != hole && j != hole ==> leq(s[i], s[j])
  }

  method Sort<T(!new)>(a: array<T>, leq: (T, T) -> bool)
    requires TotalOrder(leq)
    modifies a
    ensures Sorted(a[..], leq)
    ensures multiset(a[..]) == multiset(old(a[..]))
  {
    for n := 0 to a.Length
      invariant Sorted(a[..n], leq)
      invariant multiset(a[..]) == multiset(old(a[..]))
    {
      Insert(a, n, leq);
    }
    assert a[..a.Length] == a[..];
  }

  /** Sink a[n] into the sorted prefix before it. */
  method Insert<T(!new)>(a: array<T>, n: nat, leq: (T, T) -> bool)
    requires n < a.Length && Sorted(a[..n], leq) && TotalOrder(leq)
    modifies a
    ensures Sorted(a[..n + 1], leq)
    ensures multiset(a[..]) == multiset(old(a[..]))
  {
    var j := n;
    while j > 0 && !leq(a[j - 1], a[j])
      invariant 0 <= j <= n
      invariant SortedExcept(a[..n + 1], leq, j)
      invariant forall i :: j < i <= n ==> leq(a[j], a[i])
      invariant multiset(a[..]) == multiset(old(a[..]))
    {
      a[j - 1], a[j] := a[j], a[j - 1];
      j := j - 1;
    }
  }
}
