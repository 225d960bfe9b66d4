/**
 * What the skip list demands of its KeyComparator template argument: a
 * three-way comparison (negative, zero, positive) that is a strict total
 * order whose "equal" is equality of keys.
 */
module Orders {

  ghost predicate IsTotalOrder<K(!new)>(cmp: (K, K) -> int)
  {
    (forall a, b :: cmp(a, b) == 0 <==> a == b) &&
    (forall a, b :: cmp(a, b) < 0 <==> 0 < cmp(b, a)) &&
    (forall a, b, c {:trigger Chain(cmp, a, b, c)} :: cmp(a, b) < 0 && cmp(b, c) < 0 ==> cmp(a, c) < 0)
  }

  /**
   * The three keys a use of transitivity is about. Transitivity is only
   * instantiated where a proof names the chain, through Transitive.
   */
  ghost predicate Chain<K>(cmp: (K, K) -> int, a: K, b: K, c: K)
  {
    true
  }

  lemma Transitive<K(!new)>(cmp: (K, K) -> int, a: K, b: K, c: K)
    requires IsTotalOrder(cmp) && cmp(a, b) < 0 && cmp(b, c) < 0
    ensures cmp(a, c) < 0
  {
    assert Chain(cmp, a, b, c);
  }
}
