# Binary min-heap — a verified Dafny model

This project models the generic binary min-heap of `structure/heap/heap.go`:
a `Heap[T]` that keeps its elements in a slice laid out as a complete binary
tree (parent of `i` at `(i-1)/2`, children at `2i+1` and `2i+2`) and orders
them with a comparator `lessFunc` fixed at construction. `Push` appends and
sifts up; `Top` reads the root; `Pop` moves the last element to the root,
shortens the slice and sifts down; `Empty` and `Size` report the length.

The model is functional. The storage is a `seq<T>`, and each mutating
operation returns the new heap. The comparator is a total Dafny function
`(T, T) -> bool`. The heap never checks it, but every ordering result assumes
it is a strict weak order: irreflexive, transitive, and with transitive
incomparability (`Orders.StrictWeakOrder`).

Modules:

- `Wrappers`: `Option` (a comparator that may be nil) and `Result` (heap or error).
- `Orders`: the strict-weak-order assumption and the facts derived from it.
- `Sift`: index arithmetic, `swap`, the recursive `up` and `down`, the heap
  property, and the proofs that the sift helpers restore it.
- `Heap`: the heap value and its public operations `NewAny`, `New`, `Push`,
  `Top`, `Pop`, `Empty` and `Size`.
- `Runs`: properties across many calls. These are arbitrary `Push`/`Pop`
  sequences, size bookkeeping, draining in order, the push-all/pop-all round
  trip, and the max-heap scenario (`less(a, b) = a > b`, pushing 3, 1, 4, 1, 5).

## Model

| member | source | states |
|---|---|---|
| Sift.Parent | structure/heap/heap.go:91-92 | the parent of a non-root index is a strictly smaller index, so sift-up terminates at the root |
| Sift.Swap | structure/heap/heap.go:80-83 | the elements at the two indices trade places, every other index keeps its element, and the multiset and length are unchanged |
| Sift.Up | structure/heap/heap.go:85-99 | sift-up never changes the length and only permutes the elements (multiset preserved) |
| Sift.Smallest | structure/heap/heap.go:103-114 | the chosen index is the node or a child that is in range; it stays at the node exactly when no child strictly precedes the node; right wins only if it strictly precedes left or left did not beat the node |
| Sift.SmallestIsMinimum | structure/heap/heap.go:103-114 | under a strict weak order no member of the node/children family strictly precedes the chosen element, and a chosen child strictly precedes the node |
| Sift.Down | structure/heap/heap.go:101-121 | sift-down never changes the length and only permutes the elements (multiset preserved) |
| Sift.UpRestoresHeap | structure/heap/heap.go:86-99 | if every parent/child pair is in order except possibly the node and its parent, and the node's parent does not come after the node's children, then sift-up from that node yields storage where no child strictly precedes its parent |
| Sift.DownRestoresHeap | structure/heap/heap.go:102-121 | if every parent/child pair is in order except possibly the node and its children, and the node's parent does not come after the node's children, then sift-down from that node yields storage where no child strictly precedes its parent |
| Sift.RootPrecedesAll | structure/heap/heap.go:44-51 | in heap-ordered storage under a strict weak order, no element strictly precedes the element at index 0 |
| Heap.NewAny | structure/heap/heap.go:26-35 | a nil comparator gives an error with the source's message and no heap; a non-nil one gives an empty, heap-ordered heap holding exactly that comparator |
| Heap.New | structure/heap/heap.go:16-24 | gives an empty heap whose comparator is the natural `<` on integers, which is a strict weak order |
| Heap.Size | structure/heap/heap.go:75-78 | the size is the number of stored elements, counted with multiplicity |
| Heap.Empty | structure/heap/heap.go:70-73 | empty exactly when the size is 0, exactly when no element is stored |
| Heap.PushKeepsHeapOrdered | structure/heap/heap.go:39-42 | appending an element to heap-ordered storage and sifting up from the last index gives heap-ordered storage |
| Heap.Push | structure/heap/heap.go:37-42 | the size grows by one, the multiset gains exactly the pushed element, the comparator is kept, and a valid heap stays valid |
| Heap.Top | structure/heap/heap.go:44-51 | needs a non-empty heap; the result is a stored element, and under a strict weak order on a valid heap no stored element strictly precedes it |
| Heap.TopIsMinimum | structure/heap/heap.go:46-51 | under a strict weak order, no element of a valid non-empty heap strictly precedes its root |
| Heap.PopKeepsHeapOrdered | structure/heap/heap.go:60-67 | moving the last element to the root, dropping the last slot and sifting down from 0 (when anything is left) keeps heap-ordered storage heap-ordered |
| Heap.SwapTruncateRemovesRoot | structure/heap/heap.go:61-62 | swapping root and last and then truncating removes exactly one occurrence of the root from the multiset |
| Heap.Pop | structure/heap/heap.go:53-68 | on an empty heap the storage is unchanged; otherwise the size drops by one, exactly one occurrence of the former top leaves, and a valid heap stays valid |
| Runs.RunKeepsHeapOrdered | structure/heap/heap.go:37-68 | after any sequence of `Push`/`Pop` calls on a valid heap under a strict weak order, the heap is still valid and keeps its comparator |
| Runs.RunSize | structure/heap/heap.go:39-62 | for every run the final size is exactly the initial size plus the pushes minus the pops that met a non-empty heap (a `Pop` on an empty heap does nothing); hence it lies between initial + pushes - pops and initial + pushes, and equals the former when no `Pop` meets an empty heap |
| Runs.PushAll | structure/heap/heap.go:39-42 | pushing a sequence adds its length to the size and its elements to the multiset, and keeps a valid heap valid |
| Runs.PopTimes | structure/heap/heap.go:55-67 | `n` pops leave `max(0, size - n)` elements, and on an empty heap they change nothing (the extra pop is a no-op) |
| Runs.PushAllPopAllRoundTrip | structure/heap/heap.go:39-67 | from an empty heap, pushing `n` elements then popping `n` times gives an empty heap; the heap is non-empty after the first push; one more pop still leaves it empty |
| Runs.Drain | structure/heap/heap.go:46-67 | reading `Top` and popping until empty yields exactly the stored elements (same multiset, same count) |
| Runs.NothingBeforeTop | structure/heap/heap.go:46-51 | no element held by a valid heap strictly precedes its top |
| Runs.DrainIsSorted | structure/heap/heap.go:46-67 | under a strict weak order, draining a valid heap yields its elements so that no later element strictly precedes an earlier one |
| Runs.MaxHeapExample | structure/heap/heap.go:28-67 | with comparator `a > b`, pushing 3, 1, 4, 1, 5 gives top 5, and after one pop the top is 4 |

## Left out

- The `constraints.Ordered` type constraint of `New` is not modelled. `New` is modelled for `int` with `<` only, and `NewAny` is generic over any `T`.
- Nil-ness of a Go function value is modelled only at the constructor, as `Option`. Inside a heap the comparator is a total Dafny function.
- The panic of `Top` on an empty heap is modelled as a precondition (`!Empty(h)`), not as an abort.
- Go's `error` value is modelled as its message string.
- Slice capacity and `append`'s growth strategy are not modelled. The storage is a sequence, observable only through its contents and length.
- Go's machine `int` is not modelled: index arithmetic (`2*index+1`) uses unbounded integers. Overflow would need about 2^62 elements on 64-bit platforms and about 2^30 on 32-bit ones, where `2*index+2` in `down` would wrap.
- In-place mutation through the `*Heap` pointer is not modelled. Each operation returns the new heap value.
- Concurrency is not modelled. The type does no locking.
- That the comparator is pure and a strict weak order is assumed, not checked, matching the source. The ordering results hold only under that assumption; the size and multiset results hold for any comparator.
