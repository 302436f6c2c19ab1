/** The storage-level helpers of the heap: index arithmetic of the implicit
    complete binary tree, `swap`, the recursive sift-up `up` and the recursive
    sift-down `down`, all on an immutable sequence, together with the heap
    property they maintain and the proofs that they maintain it. */
module Sift {
  import opened Orders

  /** Parent of a non-root node; `(index - 1) / 2` never rounds a negative
      number here because `index > 0`. */
  function Parent(index: nat): (p: nat)
    requires index > 0
    ensures p < index
  {
    (index - 1) / 2
  }

  function Left(index: nat): nat { 2 * index + 1 }

  function Right(index: nat): nat { 2 * index + 2 }

  /** The children of a node are exactly the nodes whose parent it is. */
  lemma ChildrenOfParent(c: nat, p: nat)
    requires c > 0
    ensures Parent(c) == p <==> c == Left(p) || c == Right(p)
  {
  }

  /** The heap property: no child strictly precedes its parent. */
  predicate HeapOrdered<T>(s: seq<T>, less: (T, T) -> bool) {
    forall c :: 0 < c < |s| ==> !less(s[c], s[Parent(c)])
  }

  /** Exchanges the elements at `i` and `j`; nothing else moves. */
  function Swap<T>(s: seq<T>, i: nat, j: nat): (r: seq<T>)
    requires i < |s| && j < |s|
    ensures |r| == |s|
    ensures r[i] == s[j] && r[j] == s[i]
    ensures forall k :: 0 <= k < |s| && k != i && k != j ==> r[k] == s[k]
    ensures multiset(r) == multiset(s)
  {
    s[i := s[j]][j := s[i]]
  }

  /** Sift-up: while the element at `index` strictly precedes its parent,
      exchange the two and continue from the parent. */
  function Up<T>(s: seq<T>, index: nat, less: (T, T) -> bool): (r: seq<T>)
    requires index == 0 || index < |s|
    ensures |r| == |s|
    ensures multiset(r) == multiset(s)
    decreases index
  {
    if index == 0 then s
    else
      var parent := Parent(index);
      if less(s[index], s[parent]) then Up(Swap(s, index, parent), parent, less)
      else s
  }

  /** The index sift-down moves the element at `index` to: the left child if
      it strictly precedes the element at `index`, then the right child if it
      strictly precedes whichever of the two is currently chosen. */
  function Smallest<T>(s: seq<T>, index: nat, less: (T, T) -> bool): (m: nat)
    ensures m == index || (m < |s| && (m == Left(index) || m == Right(index)))
    ensures m == index <==>
              && (Left(index) < |s| ==> !less(s[Left(index)], s[index]))
              && (Right(index) < |s| ==> !less(s[Right(index)], s[index]))
    ensures m == Right(index) ==>
              less(s[Right(index)], s[Left(index)]) || !less(s[Left(index)], s[index])
  {
    var left, right := Left(index), Right(index);
    var afterLeft := if left < |s| && less(s[left], s[index]) then left else index;
    if right < |s| && less(s[right], s[afterLeft]) then right else afterLeft
  }

  /** Sift-down: exchange the element at `index` with its chosen child and
      continue from that child, until no child strictly precedes it. */
  function Down<T>(s: seq<T>, index: nat, less: (T, T) -> bool): (r: seq<T>)
    ensures |r| == |s|
    ensures multiset(r) == multiset(s)
    decreases |s| - index
  {
    var smallest := Smallest(s, index, less);
    if smallest != index then Down(Swap(s, index, smallest), smallest, less)
    else s
  }

  /** Under a strict weak order the chosen index holds a minimum of the node
      and its children, strictly below the node whenever it is a child. */
  lemma SmallestIsMinimum<T(!new)>(s: seq<T>, index: nat, less: (T, T) -> bool)
    requires StrictWeakOrder(less)
    requires index < |s|
    ensures var m := Smallest(s, index, less);
            && m < |s|
            && !less(s[index], s[m])
            && (Left(index) < |s| ==> !less(s[Left(index)], s[m]))
            && (Right(index) < |s| ==> !less(s[Right(index)], s[m]))
            && (m != index ==> less(s[m], s[index]))
  {
    var left, right := Left(index), Right(index);
    var afterLeft := if left < |s| && less(s[left], s[index]) then left else index;
    if right < |s| && less(s[right], s[afterLeft]) {
      if afterLeft == left {
        Asymmetric(less, s[left], s[index]);
        Asymmetric(less, s[right], s[left]);
      } else {
        Asymmetric(less, s[right], s[index]);
        NotLessOfLess(less, s[right], s[index], s[left]);
      }
    } else if afterLeft == left {
      Asymmetric(less, s[left], s[index]);
    }
  }

  /** What holds while sift-up is at `i`: every parent/child pair is in order
      except possibly `i` and its parent, and `i`'s parent does not come after
      `i`'s children. */
  ghost predicate UpInvariant<T>(s: seq<T>, i: nat, less: (T, T) -> bool) {
    && i < |s|
    && (forall c :: 0 < c < |s| && c != i ==> !less(s[c], s[Parent(c)]))
    && (i > 0 && Left(i) < |s| ==> !less(s[Left(i)], s[Parent(i)]))
    && (i > 0 && Right(i) < |s| ==> !less(s[Right(i)], s[Parent(i)]))
  }

  /** What holds while sift-down is at `i`: every parent/child pair is in
      order except possibly `i` and its children, and `i`'s parent does not
      come after `i`'s children. */
  ghost predicate DownInvariant<T>(s: seq<T>, i: nat, less: (T, T) -> bool) {
    && (forall c :: 0 < c < |s| && Parent(c) != i ==> !less(s[c], s[Parent(c)]))
    && (i > 0 && Left(i) < |s| ==> !less(s[Left(i)], s[Parent(i)]))
    && (i > 0 && Right(i) < |s| ==> !less(s[Right(i)], s[Parent(i)]))
  }

  /** Sift-up from a node yields a heap when every pair is in order except
      possibly the node and its parent, and the node's parent does not come
      after the node's children (`UpInvariant`). */
  lemma {:induction false} UpRestoresHeap<T(!new)>(s: seq<T>, i: nat, less: (T, T) -> bool)
    requires StrictWeakOrder(less)
    requires UpInvariant(s, i, less)
    ensures HeapOrdered(Up(s, i, less), less)
    decreases i
  {
    if i == 0 {
      return;
    }
    var p := Parent(i);
    if !less(s[i], s[p]) {
      return;
    }
    var t := Swap(s, i, p);
    Asymmetric(less, s[i], s[p]);
    forall c | 0 < c < |t| && c != p
      ensures !less(t[c], t[Parent(c)])
    {
      if c == i {
      } else if Parent(c) == i {
        ChildrenOfParent(c, i);
      } else if Parent(c) == p {
        NotLessOfLess(less, s[i], s[p], s[c]);
      }
    }
    if p > 0 {
      var g := Parent(p);
      ChildrenOfParent(i, p);
      ChildrenOfParent(Left(p), p);
      ChildrenOfParent(Right(p), p);
      if Left(p) < |t| && Left(p) != i {
        NotLessTransitive(less, s[g], s[p], s[Left(p)]);
      }
      if Right(p) < |t| && Right(p) != i {
        NotLessTransitive(less, s[g], s[p], s[Right(p)]);
      }
    }
    UpRestoresHeap(t, p, less);
  }

  /** Sift-down from a node yields a heap when every pair is in order except
      possibly the node and its children, and the node's parent does not come
      after the node's children (`DownInvariant`). */
  lemma {:induction false} DownRestoresHeap<T(!new)>(s: seq<T>, i: nat, less: (T, T) -> bool)
    requires StrictWeakOrder(less)
    requires DownInvariant(s, i, less)
    ensures HeapOrdered(Down(s, i, less), less)
    decreases |s| - i
  {
    var m := Smallest(s, i, less);
    if m == i {
      forall c | 0 < c < |s|
        ensures !less(s[c], s[Parent(c)])
      {
        ChildrenOfParent(c, i);
      }
      return;
    }
    SmallestIsMinimum(s, i, less);
    var t := Swap(s, i, m);
    forall c | 0 < c < |t| && Parent(c) != m
      ensures !less(t[c], t[Parent(c)])
    {
      ChildrenOfParent(c, i);
      if c == m {
      } else if Parent(c) == i {
      } else if c == i {
      }
    }
    ChildrenOfParent(m, i);
    UpOrderAtChild(s, i, m, less);
    DownRestoresHeap(t, m, less);
  }

  /** After sift-down exchanges `i` with its chosen child `m`, the new parent
      of `m`'s children (the old element at `m`) does not come after them. */
  lemma UpOrderAtChild<T>(s: seq<T>, i: nat, m: nat, less: (T, T) -> bool)
    requires i < m < |s|
    requires m == Left(i) || m == Right(i)
    requires DownInvariant(s, i, less)
    ensures var t := Swap(s, i, m);
            && (Left(m) < |t| ==> !less(t[Left(m)], t[Parent(m)]))
            && (Right(m) < |t| ==> !less(t[Right(m)], t[Parent(m)]))
  {
    ChildrenOfParent(m, i);
    ChildrenOfParent(Left(m), m);
    ChildrenOfParent(Right(m), m);
  }

  /** In a heap ordered by a strict weak order no element strictly precedes
      the root. */
  lemma {:induction false} RootPrecedesAll<T(!new)>(s: seq<T>, less: (T, T) -> bool, k: nat)
    requires StrictWeakOrder(less)
    requires HeapOrdered(s, less)
    requires k < |s|
    ensures !less(s[k], s[0])
    decreases k
  {
    if k > 0 {
      RootPrecedesAll(s, less, Parent(k));
      NotLessTransitive(less, s[0], s[Parent(k)], s[k]);
    }
  }
}
