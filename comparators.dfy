/** Three-way comparators as the sorted map consumes them, and the laws a well-behaved one obeys. */
module Comparators {
  import opened Outcomes

  /**
   * `cmp(a, b)` is negative when `a` sorts before `b`, positive when after, zero when the
   * two are rank-equal; `None` stands for a non-numeric answer (NaN).
   */
  type Comparator<!K> = (K, K) -> Option<int>

  /** The answer says "sorts before". */
  predicate Before(c: Option<int>) { c.Some? && c.value < 0 }

  /** The answer says "sorts after". */
  predicate After(c: Option<int>) { c.Some? && c.value > 0 }

  /** The answer says "rank-equal". */
  predicate Tied(c: Option<int>) { c == Some(0) }

  /** "Not after" carries over from `a`, `b` and `b`, `c` to `a`, `c`. */
  ghost predicate Chained<K>(cmp: Comparator<K>, a: K, b: K, c: K) {
    !After(cmp(a, b)) && !After(cmp(b, c)) ==> !After(cmp(a, c))
  }

  /**
   * A comparator that always answers a number and is consistent with a total preorder:
   * swapping the arguments flips the sign, and "not after" is transitive.
   */
  ghost predicate TotalPreorder<K(!new)>(cmp: Comparator<K>) {
    && (forall a, b :: cmp(a, b).Some?)
    && (forall a, b :: Before(cmp(a, b)) <==> After(cmp(b, a)))
    && (forall a, b, c :: Chained(cmp, a, b, c))
  }

  /** Keys that are the same logical key (equal symbols) are rank-equal. */
  ghost predicate RespectsIdentity<K(!new), S>(cmp: Comparator<K>, symbolize: K -> S) {
    forall a, b :: symbolize(a) == symbolize(b) ==> Tied(cmp(a, b))
  }

  /** The consequences of the preorder laws that the proofs about buckets use. */
  lemma PreorderFacts<K(!new)>(cmp: Comparator<K>, a: K, b: K, c: K)
    requires TotalPreorder(cmp)
    ensures Tied(cmp(a, a))
    ensures Tied(cmp(a, b)) <==> Tied(cmp(b, a))
    ensures After(cmp(a, b)) <==> !Before(cmp(a, b)) && !Tied(cmp(a, b))
    ensures Tied(cmp(a, b)) && Tied(cmp(b, c)) ==> Tied(cmp(a, c))
    ensures Before(cmp(a, b)) && !After(cmp(b, c)) ==> Before(cmp(a, c))
    ensures !After(cmp(a, b)) && Before(cmp(b, c)) ==> Before(cmp(a, c))
  {
    assert cmp(a, b).Some? && cmp(b, a).Some? && cmp(a, a).Some?;
    assert cmp(b, c).Some? && cmp(c, b).Some? && cmp(a, c).Some? && cmp(c, a).Some?;
    assert Chained(cmp, a, b, c) && Chained(cmp, c, b, a) && Chained(cmp, b, c, a) && Chained(cmp, c, a, b);
  }
}
