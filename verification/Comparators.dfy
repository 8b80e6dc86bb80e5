/** Comparators as tables see them (leveldb/comparator.h). */
module Comparators {
  import opened Keys

  datatype Comparator = Comparator(less: (Bytes, Bytes) -> bool, findShortestSeparator: (Bytes, Bytes) -> Bytes,
                                   findShortSuccessor: Bytes -> Bytes)

  predicate Transits(less: (Bytes, Bytes) -> bool, a: Bytes, b: Bytes, c: Bytes) {
    && (less(a, b) && less(b, c) ==> less(a, c))
    && (!less(b, a) && less(b, c) ==> less(a, c))
    && (less(a, b) && !less(c, b) ==> less(a, c))
  }

  ghost predicate Ordering(less: (Bytes, Bytes) -> bool) {
    forall a, b, c :: Transits(less, a, b, c)
  }

  // A separator is at or after the last key of its block and before the next block.
  predicate Separates(c: Comparator, a: Bytes, b: Bytes) {
    var r := c.findShortestSeparator(a, b);
    |r| <= |a| && (c.less(a, b) ==> !c.less(r, a) && c.less(r, b))
  }

  predicate Succeeds(c: Comparator, a: Bytes) {
    var r := c.findShortSuccessor(a);
    |r| <= |a| && !c.less(r, a)
  }

  // A key after a block that is not after its separator is not the same as the next key.
  predicate NoneBetween(c: Comparator, same: (Bytes, Bytes) -> bool, a: Bytes, b: Bytes, k: Bytes) {
    c.less(a, b) && c.less(a, k) && !c.less(c.findShortestSeparator(a, b), k) ==> !same(k, b)
  }

  // What tables need of a comparator.
  ghost predicate Lawful(c: Comparator, same: (Bytes, Bytes) -> bool) {
    && Ordering(c.less)
    && (forall a, b :: Separates(c, a, b))
    && (forall a :: Succeeds(c, a))
    && (forall a, b, k :: NoneBetween(c, same, a, b, k))
  }

  lemma Mixed(less: (Bytes, Bytes) -> bool, a: Bytes, b: Bytes, c: Bytes)
    requires Ordering(less)
    ensures less(a, b) && less(b, c) ==> less(a, c)
    ensures !less(b, a) && less(b, c) ==> less(a, c)
    ensures less(a, b) && !less(c, b) ==> less(a, c)
  {
    assert Transits(less, a, b, c);
  }
}
