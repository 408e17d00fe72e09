// The key order every component is parameterised by (leveldb::Comparator).
module Ordering {

  // A user comparator: negative, zero or positive, as Comparator::Compare.
  type Comparator<!K> = (K, K) -> int

  function Compare<K>(c: Comparator<K>, a: K, b: K): int {
    c(a, b)
  }

  predicate Lt<K>(c: Comparator<K>, a: K, b: K) {
    Compare(c, a, b) < 0
  }

  predicate Le<K>(c: Comparator<K>, a: K, b: K) {
    Compare(c, a, b) <= 0
  }

  // What the engine demands of a comparator: a strict total order whose zero is equality.
  ghost predicate TotalOrder<K(!new)>(c: Comparator<K>) {
    && (forall a, b {:trigger Compare(c, a, b)} :: Compare(c, a, b) == 0 <==> a == b)
    && (forall a, b {:trigger Compare(c, a, b)} :: Compare(c, a, b) < 0 <==> Compare(c, b, a) > 0)
    && (forall a, b, d {:trigger Compare(c, a, b), Compare(c, b, d)} ::
          Compare(c, a, b) < 0 && Compare(c, b, d) < 0 ==> Compare(c, a, d) < 0)
  }
}
