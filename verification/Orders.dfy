/** The ordering assumptions the heap makes of its comparator. The heap only
    ever asks `less(a, b)`; for its invariant to mean "the root is a minimum"
    that relation has to be a strict weak order. The heap never checks this. */
module Orders {

  /** `less` is irreflexive, transitive, and incomparability (neither element
      precedes the other) is transitive. */
  ghost predicate StrictWeakOrder<T(!new)>(less: (T, T) -> bool) {
    && (forall a :: !less(a, a))
    && (forall a, b, c :: less(a, b) && less(b, c) ==> less(a, c))
    && (forall a, b, c ::
          !less(a, b) && !less(b, a) && !less(b, c) && !less(c, b) ==> !less(a, c) && !less(c, a))
  }

  /** A strict weak order is asymmetric. */
  lemma Asymmetric<T(!new)>(less: (T, T) -> bool, a: T, b: T)
    requires StrictWeakOrder(less)
    requires less(a, b)
    ensures !less(b, a)
  {
  }

  /** "Does not precede" is transitive: if `b` does not precede `a` and `c`
      does not precede `b`, then `c` does not precede `a`. */
  lemma NotLessTransitive<T(!new)>(less: (T, T) -> bool, a: T, b: T, c: T)
    requires StrictWeakOrder(less)
    requires !less(b, a) && !less(c, b)
    ensures !less(c, a)
  {
  }

  /** If `a` precedes `b` and `c` does not precede `b`, then `c` does not
      precede `a` either. */
  lemma NotLessOfLess<T(!new)>(less: (T, T) -> bool, a: T, b: T, c: T)
    requires StrictWeakOrder(less)
    requires less(a, b) && !less(c, b)
    ensures !less(c, a)
  {
    Asymmetric(less, a, b);
    NotLessTransitive(less, a, b, c);
  }

  /** The natural order on integers is a strict weak order. */
  lemma IntLessIsStrictWeakOrder()
    ensures StrictWeakOrder((a: int, b: int) => a < b)
  {
  }

  /** The reversed natural order on integers (a max-heap) is a strict weak order. */
  lemma IntGreaterIsStrictWeakOrder()
    ensures StrictWeakOrder((a: int, b: int) => a > b)
  {
  }
}
