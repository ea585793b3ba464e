// The comparators that the ordered containers are given.
module Ordering {

  ghost predicate StrictWeakOrder<K(!new)>(less: (K, K) -> bool) {
    && (forall x, y :: less(x, y) ==> !less(y, x))
    && (forall x, y, z :: less(x, y) && less(y, z) ==> less(x, z))
    && (forall x, y, z :: less(x, y) ==> less(x, z) || less(z, y))
  }

  predicate Equivalent<K>(less: (K, K) -> bool, x: K, y: K) {
    !less(x, y) && !less(y, x)
  }
}
