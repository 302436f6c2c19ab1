/** The public face of the heap: a binary min-heap over any element type,
    ordered by a comparator fixed at construction. The storage is an
    immutable sequence; each mutating operation returns the updated heap. */
module Heap {
  import opened Wrappers
  import opened Orders
  import opened Sift

  /** The storage `heaps` is a complete binary tree laid out level by level;
      `lessFunc` says when one element comes strictly before another. */
  datatype Heap<!T> = Heap(heaps: seq<T>, lessFunc: (T, T) -> bool)

  /** The heap property of a heap's storage under its own comparator. */
  predicate Valid<T>(h: Heap<T>) {
    HeapOrdered(h.heaps, h.lessFunc)
  }

  /** The error `NewAny` reports for a nil comparator. */
  const LessRequired := "less function is required to define heap ordering"

  /** Builds an empty heap around the given comparator; a nil comparator is
      an error and yields no heap. */
  function NewAny<T>(less: Option<(T, T) -> bool>): (r: Result<Heap<T>, string>)
    ensures r.Failure? <==> less.None?
    ensures r.Failure? ==> r.error == LessRequired
    ensures r.Success? ==> less == Some(r.value.lessFunc) && Size(r.value) == 0 && Valid(r.value)
  {
    match less
    case None => Failure(LessRequired)
    case Some(f) => Success(Heap([], f))
  }

  /** An empty heap of integers in their natural order. */
  function New(): (h: Heap<int>)
    ensures Size(h) == 0 && Valid(h)
    ensures forall a: int, b: int :: h.lessFunc(a, b) <==> a < b
    ensures StrictWeakOrder(h.lessFunc)
  {
    IntLessIsStrictWeakOrder();
    NewAny(Some((a: int, b: int) => a < b)).value
  }

  /** Number of stored elements. */
  function Size<T>(h: Heap<T>): (n: nat)
    ensures n == |multiset(h.heaps)|
  {
    |h.heaps|
  }

  /** Whether the heap holds no element. */
  predicate Empty<T>(h: Heap<T>)
    ensures Empty(h) <==> Size(h) == 0
    ensures Empty(h) <==> multiset(h.heaps) == multiset{}
  {
    |h.heaps| == 0
  }

  /** Appending at the end and sifting up keeps the heap property. */
  lemma PushKeepsHeapOrdered<T(!new)>(s: seq<T>, element: T, less: (T, T) -> bool)
    ensures StrictWeakOrder(less) && HeapOrdered(s, less) ==>
              HeapOrdered(Up(s + [element], |s|, less), less)
  {
    if StrictWeakOrder(less) && HeapOrdered(s, less) {
      var t := s + [element];
      assert UpInvariant(t, |s|, less) by {
        forall c | 0 < c < |t| && c != |s|
          ensures !less(t[c], t[Parent(c)])
        {
          assert t[c] == s[c] && t[Parent(c)] == s[Parent(c)];
        }
      }
      UpRestoresHeap(t, |s|, less);
    }
  }

  /** Adds an element: one more element, the same elements plus the new one,
      and the heap property kept. */
  function Push<T(!new)>(h: Heap<T>, element: T): (r: Heap<T>)
    ensures r.lessFunc == h.lessFunc
    ensures Size(r) == Size(h) + 1
    ensures multiset(r.heaps) == multiset(h.heaps) + multiset{element}
    ensures StrictWeakOrder(h.lessFunc) && Valid(h) ==> Valid(r)
  {
    PushKeepsHeapOrdered(h.heaps, element, h.lessFunc);
    var s := h.heaps + [element];
    h.(heaps := Up(s, |s| - 1, h.lessFunc))
  }

  /** The root of a non-empty heap: a stored element that no stored element
      strictly precedes. */
  function Top<T(!new)>(h: Heap<T>): (r: T)
    requires !Empty(h)
    ensures r in h.heaps
    ensures StrictWeakOrder(h.lessFunc) && Valid(h) ==>
              forall k :: 0 <= k < |h.heaps| ==> !h.lessFunc(h.heaps[k], r)
  {
    TopIsMinimum(h);
    h.heaps[0]
  }

  /** Under a strict weak order the root of a heap is a minimum. */
  lemma TopIsMinimum<T(!new)>(h: Heap<T>)
    requires !Empty(h)
    ensures StrictWeakOrder(h.lessFunc) && Valid(h) ==>
              forall k :: 0 <= k < |h.heaps| ==> !h.lessFunc(h.heaps[k], h.heaps[0])
  {
    if StrictWeakOrder(h.lessFunc) && Valid(h) {
      forall k | 0 <= k < |h.heaps|
        ensures !h.lessFunc(h.heaps[k], h.heaps[0])
      {
        RootPrecedesAll(h.heaps, h.lessFunc, k);
      }
    }
  }

  /** Moving the last element to the root of a shortened heap and sifting it
      down keeps the heap property. */
  lemma PopKeepsHeapOrdered<T(!new)>(s: seq<T>, less: (T, T) -> bool)
    requires |s| > 0
    ensures var t := Swap(s, 0, |s| - 1)[..|s| - 1];
            StrictWeakOrder(less) && HeapOrdered(s, less) && |t| > 0 ==>
              HeapOrdered(Down(t, 0, less), less)
  {
    var t := Swap(s, 0, |s| - 1)[..|s| - 1];
    if StrictWeakOrder(less) && HeapOrdered(s, less) && |t| > 0 {
      assert DownInvariant(t, 0, less) by {
        forall c | 0 < c < |t| && Parent(c) != 0
          ensures !less(t[c], t[Parent(c)])
        {
          assert t[c] == s[c] && t[Parent(c)] == s[Parent(c)];
        }
      }
      DownRestoresHeap(t, 0, less);
    }
  }

  /** Removing the last slot after exchanging it with the root removes
      exactly one occurrence of the root. */
  lemma SwapTruncateRemovesRoot<T>(s: seq<T>)
    requires |s| > 0
    ensures multiset(Swap(s, 0, |s| - 1)[..|s| - 1]) == multiset(s) - multiset{s[0]}
  {
    var w := Swap(s, 0, |s| - 1);
    assert w == w[..|s| - 1] + [w[|s| - 1]];
    assert multiset(w) == multiset(w[..|s| - 1]) + multiset{s[0]};
  }

  /** Removes the root. On an empty heap nothing happens; otherwise one
      occurrence of the former root leaves, nothing else does, and the heap
      property is kept. */
  function Pop<T(!new)>(h: Heap<T>): (r: Heap<T>)
    ensures r.lessFunc == h.lessFunc
    ensures Empty(h) ==> r.heaps == h.heaps
    ensures !Empty(h) ==> Size(r) == Size(h) - 1
    ensures !Empty(h) ==> multiset(r.heaps) == multiset(h.heaps) - multiset{Top(h)}
    ensures StrictWeakOrder(h.lessFunc) && Valid(h) ==> Valid(r)
  {
    if Empty(h) then h
    else
      var n := |h.heaps|;
      SwapTruncateRemovesRoot(h.heaps);
      PopKeepsHeapOrdered(h.heaps, h.lessFunc);
      var s := Swap(h.heaps, 0, n - 1)[..n - 1];
      if |s| > 0 then h.(heaps := Down(s, 0, h.lessFunc)) else h.(heaps := s)
  }
}
