/** Whole-lifetime properties of the heap: sequences of `Push`/`Pop` calls,
    draining a heap root by root, and the round trip of pushing then popping
    everything. */
module Runs {
  import opened Wrappers
  import opened Orders
  import opened Heap

  /** One call on a heap. */
  datatype Call<T> = PushCall(element: T) | PopCall

  function Step<T(!new)>(h: Heap<T>, call: Call<T>): Heap<T> {
    match call
    case PushCall(x) => Push(h, x)
    case PopCall => Pop(h)
  }

  /** Applies the calls left to right. */
  function Run<T(!new)>(h: Heap<T>, calls: seq<Call<T>>): Heap<T>
    decreases |calls|
  {
    if calls == [] then h else Run(Step(h, calls[0]), calls[1..])
  }

  function Pushes<T>(calls: seq<Call<T>>): nat {
    if calls == [] then 0 else (if calls[0].PushCall? then 1 else 0) + Pushes(calls[1..])
  }

  function Pops<T>(calls: seq<Call<T>>): nat {
    if calls == [] then 0 else (if calls[0].PopCall? then 1 else 0) + Pops(calls[1..])
  }

  /** The `Pop` calls of the run that find a non-empty heap; the others do
      nothing. */
  function EffectivePops<T(!new)>(h: Heap<T>, calls: seq<Call<T>>): nat
    decreases |calls|
  {
    if calls == [] then 0
    else
      (if calls[0].PopCall? && !Empty(h) then 1 else 0) + EffectivePops(Step(h, calls[0]), calls[1..])
  }

  /** Every `Pop` in the run finds a non-empty heap. */
  ghost predicate PopsOnlyNonEmpty<T(!new)>(h: Heap<T>, calls: seq<Call<T>>)
    decreases |calls|
  {
    calls == [] ||
    ((calls[0].PopCall? ==> !Empty(h)) && PopsOnlyNonEmpty(Step(h, calls[0]), calls[1..]))
  }

  /** After any sequence of `Push`/`Pop` calls the heap property still holds
      and the comparator is the one the heap was built with. */
  lemma {:induction false} RunKeepsHeapOrdered<T(!new)>(h: Heap<T>, calls: seq<Call<T>>)
    requires StrictWeakOrder(h.lessFunc)
    requires Valid(h)
    ensures Valid(Run(h, calls))
    ensures Run(h, calls).lessFunc == h.lessFunc
    decreases |calls|
  {
    if calls != [] {
      RunKeepsHeapOrdered(Step(h, calls[0]), calls[1..]);
    }
  }

  /** The size is exactly the initial size plus the pushes minus the pops that
      found a non-empty heap; hence it never exceeds the initial size plus the
      pushes, never falls below it minus the pops, and is exactly
      initial + pushes - pops when no `Pop` hits an empty heap. */
  lemma {:induction false} RunSize<T(!new)>(h: Heap<T>, calls: seq<Call<T>>)
    ensures Size(Run(h, calls)) == Size(h) + Pushes(calls) - EffectivePops(h, calls)
    ensures EffectivePops(h, calls) <= Pops(calls)
    ensures Size(Run(h, calls)) <= Size(h) + Pushes(calls)
    ensures Size(Run(h, calls)) >= Size(h) + Pushes(calls) - Pops(calls)
    ensures PopsOnlyNonEmpty(h, calls) ==>
              Size(Run(h, calls)) == Size(h) + Pushes(calls) - Pops(calls)
    decreases |calls|
  {
    if calls != [] {
      RunSize(Step(h, calls[0]), calls[1..]);
    }
  }

  /** Pushes every element of `xs` in order. */
  function PushAll<T(!new)>(h: Heap<T>, xs: seq<T>): (r: Heap<T>)
    ensures r.lessFunc == h.lessFunc
    ensures Size(r) == Size(h) + |xs|
    ensures multiset(r.heaps) == multiset(h.heaps) + multiset(xs)
    ensures StrictWeakOrder(h.lessFunc) && Valid(h) ==> Valid(r)
    decreases |xs|
  {
    if xs == [] then h
    else
      assert xs == [xs[0]] + xs[1..];
      PushAll(Push(h, xs[0]), xs[1..])
  }

  /** Calls `Pop` `n` times; pops past empty do nothing. */
  function PopTimes<T(!new)>(h: Heap<T>, n: nat): (r: Heap<T>)
    ensures r.lessFunc == h.lessFunc
    ensures Size(r) == if n >= Size(h) then 0 else Size(h) - n
    ensures Empty(h) ==> r.heaps == h.heaps
    decreases n
  {
    if n == 0 then h else PopTimes(Pop(h), n - 1)
  }

  /** Pushing `n` elements into an empty heap and popping `n` times leaves it
      empty; it is non-empty after the first push. */
  lemma PushAllPopAllRoundTrip<T(!new)>(h: Heap<T>, xs: seq<T>)
    requires Empty(h)
    ensures Empty(PopTimes(PushAll(h, xs), |xs|))
    ensures |xs| > 0 ==> !Empty(Push(h, xs[0]))
    ensures Empty(PopTimes(PopTimes(PushAll(h, xs), |xs|), 1))
  {
  }

  /** The elements obtained by reading `Top` and calling `Pop` until empty. */
  function Drain<T(!new)>(h: Heap<T>): (d: seq<T>)
    ensures |d| == Size(h)
    ensures multiset(d) == multiset(h.heaps)
    decreases Size(h)
  {
    if Empty(h) then []
    else [Top(h)] + Drain(Pop(h))
  }

  /** No stored element strictly precedes the top of a heap. */
  lemma NothingBeforeTop<T(!new)>(h: Heap<T>, x: T)
    requires StrictWeakOrder(h.lessFunc)
    requires Valid(h)
    requires x in multiset(h.heaps)
    ensures !h.lessFunc(x, Top(h))
  {
    var k :| 0 <= k < |h.heaps| && h.heaps[k] == x;
  }

  /** No later element of `d` strictly precedes an earlier one. */
  ghost predicate NonDecreasing<T>(d: seq<T>, less: (T, T) -> bool) {
    forall i, j :: 0 <= i < j < |d| ==> !less(d[j], d[i])
  }

  /** Prepending an element no later element precedes keeps the order. */
  lemma NonDecreasingCons<T>(x: T, e: seq<T>, less: (T, T) -> bool)
    requires NonDecreasing(e, less)
    requires forall y :: y in multiset(e) ==> !less(y, x)
    ensures NonDecreasing([x] + e, less)
  {
    var d := [x] + e;
    forall i, j | 0 <= i < j < |d|
      ensures !less(d[j], d[i])
    {
      assert d[j] == e[j - 1];
      if i > 0 {
        assert d[i] == e[i - 1];
      } else {
        assert d[j] in multiset(e);
      }
    }
  }

  /** Draining a heap yields its elements in non-decreasing order: no later
      element strictly precedes an earlier one. */
  lemma {:induction false} DrainIsSorted<T(!new)>(h: Heap<T>)
    requires StrictWeakOrder(h.lessFunc)
    requires Valid(h)
    ensures NonDecreasing(Drain(h), h.lessFunc)
    decreases Size(h)
  {
    if !Empty(h) {
      var rest := Pop(h);
      var e := Drain(rest);
      DrainIsSorted(rest);
      forall y | y in multiset(e)
        ensures !h.lessFunc(y, Top(h))
      {
        NothingBeforeTop(h, y);
      }
      NonDecreasingCons(Top(h), e, h.lessFunc);
    }
  }

  /** In a max-heap holding `m` and elements no greater than `m`, the top is `m`. */
  lemma MaxHeapTop(h: Heap<int>, m: int)
    requires forall a: int, b: int :: h.lessFunc(a, b) <==> a > b
    requires StrictWeakOrder(h.lessFunc)
    requires Valid(h)
    requires m in multiset(h.heaps)
    requires forall x :: x in multiset(h.heaps) ==> x <= m
    ensures !Empty(h) && Top(h) == m
  {
    assert m in h.heaps;
    var t := Top(h);
    assert t in multiset(h.heaps);
    NothingBeforeTop(h, m);
  }

  /** Popping the top 5 of a max-heap holding 3, 1, 4, 1, 5 leaves top 4. */
  lemma MaxHeapPopFive(h: Heap<int>)
    requires forall a: int, b: int :: h.lessFunc(a, b) <==> a > b
    requires StrictWeakOrder(h.lessFunc)
    requires Valid(h)
    requires multiset(h.heaps) == multiset{3, 1, 4, 1, 5}
    requires !Empty(h) && Top(h) == 5
    ensures !Empty(Pop(h)) && Top(Pop(h)) == 4
  {
    var p := Pop(h);
    assert multiset(p.heaps) == multiset{3, 1, 4, 1, 5} - multiset{5};
    assert multiset(p.heaps) == multiset{3, 1, 4, 1};
    MaxHeapTop(p, 4);
  }

  /** With `less(a, b) = a > b` (a max-heap), pushing 3, 1, 4, 1, 5 into an
      empty heap gives top 5, and after one `Pop` the top is 4. */
  lemma MaxHeapPushPop(e: Heap<int>, xs: seq<int>)
    requires forall a: int, b: int :: e.lessFunc(a, b) <==> a > b
    requires Empty(e)
    requires xs == [3, 1, 4, 1, 5]
    ensures var h := PushAll(e, xs);
            Top(h) == 5 && !Empty(Pop(h)) && Top(Pop(h)) == 4
  {
    IntGreaterIsStrictWeakOrder();
    assert StrictWeakOrder(e.lessFunc);
    var h := PushAll(e, xs);
    assert multiset(xs) == multiset{3, 1, 4, 1, 5};
    MaxHeapTop(h, 5);
    MaxHeapPopFive(h);
  }

  /** The same scenario built through the constructor. */
  lemma MaxHeapExample()
    ensures var h := PushAll(NewAny(Some((a: int, b: int) => a > b)).value, [3, 1, 4, 1, 5]);
            Top(h) == 5 && !Empty(Pop(h)) && Top(Pop(h)) == 4
  {
    var e := NewAny(Some((a: int, b: int) => a > b)).value;
    MaxHeapPushPop(e, [3, 1, 4, 1, 5]);
  }
}
