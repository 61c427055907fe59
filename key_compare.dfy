/**
 * Three-way key comparison. A KeyCompare returns a key_ordering, and the
 * containers assume it is a total preorder: a total order up to
 * equivalence. Transparent lookup keys are taken to be of the key type.
 */
module KeyCompare {
  /** key_ordering. */
  datatype Ordering = Less | Equivalent | Greater

  /**
   * cmp(a, b) is Less exactly when cmp(b, a) is Greater, every key is
   * equivalent to itself, and "not greater" is transitive.
   */
  ghost predicate TotalPreorder<K(!new)>(cmp: (K, K) -> Ordering) {
    && (forall a: K, b: K :: cmp(a, b) == Less <==> cmp(b, a) == Greater)
    && (forall a: K :: cmp(a, a) == Equivalent)
    && (forall a: K, b: K, c: K {:trigger cmp(a, b), cmp(b, c), cmp(a, c)} :: cmp(a, b) != Greater && cmp(b, c) != Greater ==> cmp(a, c) != Greater)
  }

  lemma EquivalentSymmetric<K(!new)>(cmp: (K, K) -> Ordering, a: K, b: K)
    requires TotalPreorder(cmp) && cmp(a, b) == Equivalent
    ensures cmp(b, a) == Equivalent
  {
  }

  lemma EquivalentTransitive<K(!new)>(cmp: (K, K) -> Ordering, a: K, b: K, c: K)
    requires TotalPreorder(cmp) && cmp(a, b) == Equivalent && cmp(b, c) == Equivalent
    ensures cmp(a, c) == Equivalent
  {
    EquivalentSymmetric(cmp, a, b);
    EquivalentSymmetric(cmp, b, c);
    assert cmp(c, a) != Greater;
  }

  /** a < b and b <= c give a < c. */
  lemma LessNotGreater<K(!new)>(cmp: (K, K) -> Ordering, a: K, b: K, c: K)
    requires TotalPreorder(cmp) && cmp(a, b) == Less && cmp(b, c) != Greater
    ensures cmp(a, c) == Less
  {
  }

  /** a >= key and a <= b give b >= key. */
  lemma NotLessMonotone<K(!new)>(cmp: (K, K) -> Ordering, a: K, b: K, key: K)
    requires TotalPreorder(cmp) && cmp(a, key) != Less && cmp(a, b) != Greater
    ensures cmp(b, key) != Less
  {
    assert cmp(key, a) != Greater;
  }

  /** a > key and a <= b give b > key. */
  lemma GreaterMonotone<K(!new)>(cmp: (K, K) -> Ordering, a: K, b: K, key: K)
    requires TotalPreorder(cmp) && cmp(a, key) == Greater && cmp(a, b) != Greater
    ensures cmp(b, key) == Greater
  {
    assert cmp(key, a) == Less;
    LessNotGreater(cmp, key, a, b);
  }

  /** key_value_pair: a key with a value; the value does not take part in comparisons. */
  datatype KeyValuePair<K, V> = KeyValuePair(key: K, value: V)

  /** The comparator customisation for key_value_pair: compares the keys only. */
  function PairCompare<K(!new), V(!new)>(cmp: (K, K) -> Ordering): (r: (KeyValuePair<K, V>, KeyValuePair<K, V>) -> Ordering)
    ensures forall p: KeyValuePair<K, V>, q: KeyValuePair<K, V> :: r(p, q) == cmp(p.key, q.key)
  {
    (p: KeyValuePair<K, V>, q: KeyValuePair<K, V>) => cmp(p.key, q.key)
  }

  /** Comparing pairs by key is again a total preorder. */
  lemma PairCompareTotalPreorder<K(!new), V(!new)>(cmp: (K, K) -> Ordering)
    requires TotalPreorder(cmp)
    ensures TotalPreorder(PairCompare<K, V>(cmp))
  {
    var pc := PairCompare<K, V>(cmp);
    forall p: KeyValuePair<K, V>, q: KeyValuePair<K, V>
      ensures pc(p, q) == Less <==> pc(q, p) == Greater
    {
      assert pc(p, q) == cmp(p.key, q.key) && pc(q, p) == cmp(q.key, p.key);
    }
    forall p: KeyValuePair<K, V>
      ensures pc(p, p) == Equivalent
    {
      assert pc(p, p) == cmp(p.key, p.key);
    }
    forall p: KeyValuePair<K, V>, q: KeyValuePair<K, V>, r: KeyValuePair<K, V>
      | pc(p, q) != Greater && pc(q, r) != Greater
      ensures pc(p, r) != Greater
    {
      assert cmp(p.key, q.key) != Greater && cmp(q.key, r.key) != Greater;
    }
  }

  /** Pairs are ordered as their keys, whatever their values; equal keys make equivalent pairs. */
  lemma PairsOrderedByKey<K(!new), V(!new)>(cmp: (K, K) -> Ordering, p: KeyValuePair<K, V>, q: KeyValuePair<K, V>, v: V, w: V)
    requires TotalPreorder(cmp)
    ensures PairCompare(cmp)(KeyValuePair(p.key, v), KeyValuePair(q.key, w)) == PairCompare(cmp)(p, q)
    ensures p.key == q.key ==> PairCompare(cmp)(p, q) == Equivalent
  {
  }
}
