/**
 * The comparator a priority queue is built with. The queue never compares
 * elements in any other way: `less(a, b)` means that `a` has priority over
 * `b` (for `(a, b) => a < b` the queue is a min-queue, for `(a, b) => a > b`
 * a max-queue).
 */
module Orders {

  /**
   * A strict weak order: irreflexive, transitive, and such that "not less"
   * is transitive too. Under such a relation `!less(b, a)` ("a ranks no
   * later than b") is a total preorder, which is what heap order needs.
   */
  ghost predicate StrictWeakOrder<T(!new)>(less: (T, T) -> bool) {
    && (forall a :: !less(a, a))
    && (forall a, b, c :: less(a, b) && less(b, c) ==> less(a, c))
    && (forall a, b, c :: !less(a, b) && !less(b, c) ==> !less(a, c))
  }

  /** Two elements are never each less than the other. */
  lemma Asymmetric<T(!new)>(less: (T, T) -> bool, a: T, b: T)
    requires StrictWeakOrder(less)
    ensures less(a, b) ==> !less(b, a)
  {
  }

  /** "Not less" chains: if b is not less than a and c not less than b, c is not less than a. */
  lemma NotLessTrans<T(!new)>(less: (T, T) -> bool, a: T, b: T, c: T)
    requires StrictWeakOrder(less)
    requires !less(b, a) && !less(c, b)
    ensures !less(c, a)
  {
  }
}
