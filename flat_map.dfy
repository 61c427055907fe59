/**
 * The flat map and flat multimap: a flat set of keys and a dynamic array
 * of values, linked by position. Value i belongs to key i, so every
 * operation changes both at the same positions. Read as a sequence of
 * key-value pairs (Entries), a map behaves as a flat set of key_value_pair
 * ordered by key alone.
 */
module FlatMaps {
  import opened Wrappers
  import opened Growth
  import opened KeyCompare
  import opened SortedRange
  import opened Arrays
  import opened FlatSets

  /** The pairs of the keys and values at equal positions. */
  function Zip<K, V>(ks: seq<K>, vs: seq<V>): (r: seq<KeyValuePair<K, V>>)
    requires |ks| == |vs|
    ensures |r| == |ks|
    ensures forall i :: 0 <= i < |r| ==> r[i] == KeyValuePair(ks[i], vs[i])
  {
    seq(|ks|, i requires 0 <= i < |ks| => KeyValuePair(ks[i], vs[i]))
  }

  /**
   * The pairs insert_range reads: it takes a key and a value at a time and
   * stops as soon as either range is exhausted.
   */
  function Paired<K, V>(ks: seq<K>, vs: seq<V>): (r: seq<KeyValuePair<K, V>>)
    ensures |r| == (if |ks| < |vs| then |ks| else |vs|)
    ensures forall i :: 0 <= i < |r| ==> r[i] == KeyValuePair(ks[i], vs[i])
  {
    var n := if |ks| < |vs| then |ks| else |vs|;
    Zip(ks[..n], vs[..n])
  }

  class FlatMap<K(!new), V(!new)> {
    const keys: FlatSet<K>
    const values: Array<V>
    ghost var Repr: set<object>

    /** The frame: a valid key set and a valid value array, disjoint. */
    ghost predicate Framed()
      reads this, Repr
    {
      && this in Repr && keys in Repr && values in Repr
      && Repr == {this} + keys.Repr + values.Repr
      && this !in keys.Repr && this !in values.Repr
      && keys.Repr !! values.Repr
      && keys.Valid() && values.Valid()
    }

    /** The map invariant: one value for each key. */
    ghost predicate Valid()
      reads this, Repr
      ensures Valid() ==> this in Repr
    {
      Framed() && |keys.Keys()| == |values.Contents|
    }

    /** The keys, in ascending order. */
    ghost function Keys(): seq<K>
      reads this, keys, keys.arr
    {
      keys.Keys()
    }

    /** The values, value i belonging to key i. */
    ghost function Values(): seq<V>
      reads this, values
    {
      values.Contents
    }

    /** The key-value pairs. */
    ghost function Entries(): seq<KeyValuePair<K, V>>
      reads this, Repr
      requires Valid()
    {
      Zip(Keys(), Values())
    }

    /** An empty map: an empty key set and an empty value array over the same policy. */
    constructor (policy: Policy, cmp: (K, K) -> Ordering, allowDuplicates: bool)
      requires Sound(policy) && TotalPreorder(cmp)
      ensures Valid() && fresh(Repr) && Entries() == []
      ensures keys.cmp == cmp && keys.allowDuplicates == allowDuplicates
    {
      keys := new FlatSet<K>(policy, cmp, allowDuplicates);
      values := new Array<V>(policy);
      new;
      Repr := {this} + keys.Repr + values.Repr;
    }

    /** capacity: the smaller of the two capacities. */
    function Capacity(): (c: nat)
      reads this, Repr
      requires Valid()
      ensures |Keys()| <= c && c <= keys.arr.Capacity() && c <= values.Capacity()
      ensures c == keys.arr.Capacity() || c == values.Capacity()
    {
      var kc, vc := keys.arr.Capacity(), values.Capacity();
      if kc < vc then kc else vc
    }

    /** reserve: reserves the keys, then the values; the entries stay. */
    method Reserve(n: nat) returns (ok: bool)
      requires Valid()
      modifies Repr
      ensures Valid() && fresh(Repr - old(Repr))
      ensures Keys() == old(Keys()) && Values() == old(Values())
      ensures ok ==> Capacity() >= n
    {
      ok := keys.Reserve(n);
      Repr := {this} + keys.Repr + values.Repr;
      if !ok {
        return;
      }
      ok := values.Reserve(n);
      Repr := {this} + keys.Repr + values.Repr;
    }

    /**
     * try_emplace as written: try_emplace on the key set and, when the key
     * was inserted, emplace of the value at the key's position. The result
     * reports a duplicate exactly when nothing was inserted. When the value
     * cannot be allocated, the key stays inserted without a value.
     */
    method TryEmplaceAsWritten(key: K, v: V) returns (r: Option<InsertResult>)
      requires Valid()
      modifies Repr
      ensures Framed() && fresh(Repr - old(Repr))
      ensures r.Some? ==> Keys() == InsertKey(old(Keys()), key, keys.cmp, keys.allowDuplicates)
      ensures r.Some? ==> Values() == InsertValue(old(Keys()), old(Values()), key, v, keys.cmp, keys.allowDuplicates)
      ensures r.Some? ==> (r.value.wasDuplicate <==> !Inserts(old(Keys()), key, keys.cmp, keys.allowDuplicates))
      ensures r.None? ==> Values() == old(Values())
      ensures r.None? ==> Keys() == old(Keys()) || |Keys()| == |Values()| + 1
      ensures r.None? && old(|Keys()|) < old(keys.arr.Capacity()) ==>
        && Keys() == InsertKey(old(Keys()), key, keys.cmp, keys.allowDuplicates)
        && |Keys()| == |Values()| + 1 && !Valid()
    {
      var kr := keys.TryEmplace(key);
      Repr := {this} + keys.Repr + values.Repr;
      if kr.None? {
        return None;
      }
      if WasInserted(kr.value, keys.allowDuplicates) {
        var ok, iter := values.Emplace(kr.value.iter, v);
        Repr := {this} + keys.Repr + values.Repr;
        if !ok {
          return None;
        }
        r := Some(InsertResult(kr.value.iter, false));
      } else {
        r := Some(InsertResult(kr.value.iter, true));
      }
    }

    /**
     * try_emplace with the key taken out again when the value cannot be
     * allocated, so that a failure leaves the map as it was. Read as
     * entries, it is try_emplace of the pair into a set of pairs ordered
     * by key (EntryInsert).
     */
    method TryEmplace(key: K, v: V) returns (r: Option<InsertResult>)
      requires Valid()
      modifies Repr
      ensures Valid() && fresh(Repr - old(Repr))
      ensures r.Some? ==> Keys() == InsertKey(old(Keys()), key, keys.cmp, keys.allowDuplicates)
      ensures r.Some? ==> Values() == InsertValue(old(Keys()), old(Values()), key, v, keys.cmp, keys.allowDuplicates)
      ensures r.Some? ==> (r.value.wasDuplicate <==> !Inserts(old(Keys()), key, keys.cmp, keys.allowDuplicates))
      ensures r.Some? ==> r.value.iter < |Keys()| && keys.cmp(Keys()[r.value.iter], key) == Equivalent
      ensures r.Some? && !r.value.wasDuplicate ==> r.value.iter < |Values()| && Values()[r.value.iter] == v
      ensures r.None? ==> Keys() == old(Keys()) && Values() == old(Values())
      ensures old(|Keys()|) < old(Capacity()) ==> r.Some? && Capacity() == old(Capacity())
    {
      ghost var ks := Keys();
      var kr := keys.TryEmplace(key);
      Repr := {this} + keys.Repr + values.Repr;
      if kr.None? {
        return None;
      }
      if WasInserted(kr.value, keys.allowDuplicates) {
        var ok := EmplaceValueOrUndo(kr.value.iter, v, ks, key);
        if !ok {
          return None;
        }
        r := Some(InsertResult(kr.value.iter, false));
      } else {
        r := Some(InsertResult(kr.value.iter, true));
      }
    }

    /**
     * The value half of try_emplace, once key is in the key set at index i:
     * emplace of v at the same index or, when that cannot allocate, erasure
     * of the key again, so that keys and values stay in step.
     */
    method EmplaceValueOrUndo(i: nat, v: V, ghost ks: seq<K>, ghost key: K) returns (ok: bool)
      requires Framed() && i <= |ks| && |ks| == |Values()|
      requires Keys() == ks[..i] + [key] + ks[i..]
      modifies Repr
      ensures Valid() && fresh(Repr - old(Repr))
      ensures ok ==> Keys() == old(Keys()) && Values() == old(Values()[..i]) + [v] + old(Values()[i..])
      ensures ok ==> keys.arr.storage.block == old(keys.arr.storage.block)
      ensures !ok ==> Keys() == ks && Values() == old(Values())
      ensures old(|Values()|) < old(values.Capacity()) ==> ok && values.storage.block == old(values.storage.block)
    {
      var iter;
      ok, iter := values.Emplace(i, v);
      Repr := {this} + keys.Repr + values.Repr;
      if !ok {
        var _ := keys.Erase(i);
        RemoveInserted(ks, i, key);
      }
    }

    /**
     * emplace_or_assign: try_emplace, and when the key was already present
     * assignment of v to its value. Only for maps without duplicates.
     */
    method EmplaceOrAssign(key: K, v: V) returns (r: Option<InsertResult>)
      requires Valid() && !keys.allowDuplicates
      modifies Repr
      ensures Valid() && fresh(Repr - old(Repr))
      ensures r.Some? ==> Keys() == InsertKey(old(Keys()), key, keys.cmp, false)
      ensures r.Some? ==> r.value.iter < |Keys()| && keys.cmp(Keys()[r.value.iter], key) == Equivalent
      ensures r.Some? ==> Values()[r.value.iter] == v
      ensures r.Some? && !r.value.wasDuplicate ==> Values() == InsertValue(old(Keys()), old(Values()), key, v, keys.cmp, false)
      ensures r.Some? && r.value.wasDuplicate ==> Keys() == old(Keys()) && Values() == old(Values())[r.value.iter := v]
      ensures r.None? ==> Keys() == old(Keys()) && Values() == old(Values())
      ensures r.Some? && !r.value.wasDuplicate ==> Entries() == InsertKey(old(Entries()), KeyValuePair(key, v), PairCompare(keys.cmp), false)
      ensures r.Some? && r.value.wasDuplicate ==> Entries() == old(Entries())[r.value.iter := KeyValuePair(Keys()[r.value.iter], v)]
    {
      ghost var ks, vs := Keys(), Values();
      EntryInsert(ks, vs, key, v, keys.cmp, false);
      r := TryEmplace(key, v);
      if r.Some? && r.value.wasDuplicate {
        values.Set(r.value.iter, v);
        ZipUpdate(ks, vs, r.value.iter, v);
      }
    }

    /**
     * insert_range: reserves room for the pairs, then inserts key i with
     * value i until either range is exhausted. With the room reserved no
     * insertion can fail, so the pairs go in all together or not at all.
     */
    method InsertRange(ks: seq<K>, vs: seq<V>) returns (ok: bool)
      requires Valid()
      modifies Repr
      ensures Valid() && fresh(Repr - old(Repr))
      ensures ok ==> Entries() == InsertAll(old(Entries()), Paired(ks, vs), PairCompare(keys.cmp), keys.allowDuplicates)
      ensures !ok ==> Keys() == old(Keys()) && Values() == old(Values())
    {
      var n := if |ks| < |vs| then |ks| else |vs|;
      ok := Reserve(keys.arr.Size() + n);
      if ok {
        InsertEach(ks, vs);
      }
    }

    /** The loop of insert_range, into room already reserved. */
    method InsertEach(ks: seq<K>, vs: seq<V>)
      requires Valid() && |Keys()| + |Paired(ks, vs)| <= Capacity()
      modifies Repr
      ensures Valid() && fresh(Repr - old(Repr))
      ensures Entries() == InsertAll(old(Entries()), Paired(ks, vs), PairCompare(keys.cmp), keys.allowDuplicates)
    {
      ghost var start := Entries();
      ghost var pairs := Paired(ks, vs);
      var n := if |ks| < |vs| then |ks| else |vs|;
      var k := 0;
      assert pairs[..0] == [];
      while k < n
        invariant n == |pairs| && 0 <= k <= n
        invariant Valid() && fresh(Repr - old(Repr))
        invariant InsertedUpTo(start, pairs, k)
      {
        assert pairs[k] == KeyValuePair(ks[k], vs[k]);
        InsertNext(ks[k], vs[k], start, pairs, k);
        k := k + 1;
      }
      assert pairs[..k] == pairs;
    }

    /**
     * The state of the insert_range loop after k pairs: the first k pairs
     * are inserted and the room left holds the remaining ones.
     */
    ghost predicate InsertedUpTo(start: seq<KeyValuePair<K, V>>, pairs: seq<KeyValuePair<K, V>>, k: nat)
      reads this, Repr
    {
      && Valid() && k <= |pairs|
      && Entries() == InsertAll(start, pairs[..k], PairCompare(keys.cmp), keys.allowDuplicates)
      && |Keys()| + (|pairs| - k) <= Capacity()
    }

    /** One step of the insert_range loop: try_emplace of pair k, which has room. */
    method InsertNext(key: K, v: V, ghost start: seq<KeyValuePair<K, V>>, ghost pairs: seq<KeyValuePair<K, V>>, ghost k: nat)
      requires InsertedUpTo(start, pairs, k) && k < |pairs| && pairs[k] == KeyValuePair(key, v)
      modifies Repr
      ensures Valid() && fresh(Repr - old(Repr))
      ensures InsertedUpTo(start, pairs, k + 1)
    {
      ghost var ks0, vs0 := Keys(), Values();
      var r := TryEmplace(key, v);
      InsertRangeStep(start, pairs, k, ks0, vs0, Keys(), Values(), keys.cmp, keys.allowDuplicates);
    }

    /** clear: no key and no value is left. */
    method Clear()
      requires Valid()
      modifies Repr
      ensures Valid() && Repr == old(Repr)
      ensures Entries() == []
    {
      keys.Clear();
      values.Clear();
    }

    /** erase: removes the key and the value at pos; the result is pos. */
    method Erase(pos: nat) returns (r: nat)
      requires Valid() && pos < |Keys()|
      modifies Repr
      ensures Valid() && Repr == old(Repr)
      ensures r == pos
      ensures Keys() == old(Keys()[..pos] + Keys()[pos + 1..]) && Values() == old(Values()[..pos] + Values()[pos + 1..])
      ensures Entries() == old(Entries()[..pos] + Entries()[pos + 1..])
    {
      ghost var ks, vs := Keys(), Values();
      r := keys.Erase(pos);
      var _ := values.Erase(pos);
      ZipRemove(ks, vs, pos, pos + 1);
    }

    /** erase_range: removes the keys and the values of [b, e); the result is b. */
    method EraseRange(b: nat, e: nat) returns (r: nat)
      requires Valid() && b <= e <= |Keys()|
      modifies Repr
      ensures Valid() && Repr == old(Repr)
      ensures r == b
      ensures Keys() == old(Keys()[..b] + Keys()[e..]) && Values() == old(Values()[..b] + Values()[e..])
      ensures Entries() == old(Entries()[..b] + Entries()[e..])
    {
      ghost var ks, vs := Keys(), Values();
      r := keys.EraseRange(b, e);
      var _ := values.EraseRange(b, e);
      ZipRemove(ks, vs, b, e);
    }

    /**
     * erase_all: erases the equal range of key from both, so that exactly
     * the keys equivalent to key go, with their values; the result is how
     * many there were.
     */
    method EraseAll(key: K) returns (n: nat)
      requires Valid()
      modifies Repr
      ensures Valid() && Repr == old(Repr)
      ensures Keys() == WithoutEquivalents(old(Keys()), key, keys.cmp)
      ensures !Represented(key, Keys(), keys.cmp)
      ensures Entries() == old(Entries()[..keys.LowerBound(key)] + Entries()[keys.UpperBound(key)..])
      ensures n == CountEquivalent(old(Keys()), key, keys.cmp)
      ensures !keys.allowDuplicates ==> n <= 1
    {
      ghost var ks := Keys();
      var range := keys.EqualRange(key);
      n := keys.Count(key);
      var _ := EraseRange(range.0, range.1);
      EraseEqualRange(ks, key, keys.cmp);
      EraseLeavesNone(ks, key, keys.cmp, range.0, range.1);
    }

    /** find: the position of the first key equivalent to key, or the size when there is none. */
    function Find(key: K): (r: nat)
      reads this, Repr
      requires Valid()
      ensures r <= |Keys()|
      ensures r < |Keys()| ==> keys.cmp(Keys()[r], key) == Equivalent
      ensures forall i :: 0 <= i < r ==> keys.cmp(Keys()[i], key) != Equivalent
      ensures r == |Keys()| <==> !Represented(key, Keys(), keys.cmp)
    {
      keys.Find(key)
    }

    /** count: the number of keys equivalent to key; at most one without duplicates. */
    function Count(key: K): (n: nat)
      reads this, Repr
      requires Valid()
      ensures n == CountEquivalent(Keys(), key, keys.cmp)
      ensures n > 0 <==> Represented(key, Keys(), keys.cmp)
      ensures !keys.allowDuplicates ==> n <= 1
    {
      keys.Count(key)
    }

    /** try_lookup: the value of the first key equivalent to key, or nothing when there is none. */
    function TryLookup(key: K): (r: Option<V>)
      reads this, Repr
      requires Valid()
      ensures r.None? <==> !Represented(key, Keys(), keys.cmp)
      ensures r.Some? ==> Find(key) < |Values()| && r.value == Values()[Find(key)]
    {
      var iter := Find(key);
      if iter == values.Size() then None else Some(values.At(iter))
    }

    /** lookup: the value of the key equivalent to key, which the caller guarantees to be present. */
    function Lookup(key: K): (x: V)
      reads this, Repr
      requires Valid() && Represented(key, Keys(), keys.cmp)
      ensures Find(key) < |Values()| && x == Values()[Find(key)]
      ensures keys.cmp(Keys()[Find(key)], key) == Equivalent
    {
      values.At(Find(key))
    }

    /**
     * assign_range: clear, then insert_range. The entries end up as a fresh
     * map built from the pairs: sorted by key, holding exactly the pairs
     * for a multimap, and one pair per equivalent key otherwise.
     */
    method AssignRange(ks: seq<K>, vs: seq<V>) returns (ok: bool)
      requires Valid()
      modifies Repr
      ensures Valid() && fresh(Repr - old(Repr))
      ensures ok ==> Entries() == InsertAll([], Paired(ks, vs), PairCompare(keys.cmp), keys.allowDuplicates)
      ensures ok ==> AssignedFrom(Entries(), Paired(ks, vs), PairCompare(keys.cmp), keys.allowDuplicates)
      ensures !ok ==> Entries() == []
    {
      Clear();
      ok := InsertRange(ks, vs);
      if ok {
        PairCompareTotalPreorder<K, V>(keys.cmp);
        InsertAllAssigns(Paired(ks, vs), PairCompare(keys.cmp), keys.allowDuplicates);
      }
    }
  }

  /**
   * The pairs are ordered as their keys: the bounds of a pair among the
   * entries are the bounds of its key among the keys, whatever the values.
   */
  lemma ZipBounds<K(!new), V(!new)>(ks: seq<K>, vs: seq<V>, key: K, v: V, cmp: (K, K) -> Ordering)
    requires |ks| == |vs|
    ensures LowerBound(Zip(ks, vs), KeyValuePair(key, v), PairCompare(cmp)) == LowerBound(ks, key, cmp)
    ensures UpperBound(Zip(ks, vs), KeyValuePair(key, v), PairCompare(cmp)) == UpperBound(ks, key, cmp)
  {
    var z, p := Zip(ks, vs), KeyValuePair(key, v);
    assert forall i :: 0 <= i < |z| ==> PairCompare(cmp)(z[i], p) == cmp(ks[i], key);
  }

  /** Sorted keys make sorted entries, and keys free of equivalents make entries free of them. */
  lemma ZipOrder<K(!new), V(!new)>(ks: seq<K>, vs: seq<V>, cmp: (K, K) -> Ordering)
    requires |ks| == |vs|
    ensures Sorted(ks, cmp) <==> Sorted(Zip(ks, vs), PairCompare(cmp))
    ensures NoEquivalents(ks, cmp) <==> NoEquivalents(Zip(ks, vs), PairCompare(cmp))
  {
    var z := Zip(ks, vs);
    assert forall i, j :: 0 <= i < |z| && 0 <= j < |z| ==> PairCompare(cmp)(z[i], z[j]) == cmp(ks[i], ks[j]);
  }

  /** Inserting a key and its value at the same position inserts the pair there. */
  lemma ZipInsert<K, V>(ks: seq<K>, vs: seq<V>, h: nat, k: K, v: V)
    requires |ks| == |vs| && h <= |ks|
    ensures Zip(ks[..h] + [k] + ks[h..], vs[..h] + [v] + vs[h..]) == Zip(ks, vs)[..h] + [KeyValuePair(k, v)] + Zip(ks, vs)[h..]
  {
  }

  /** Removing the same range from the keys and the values removes those pairs. */
  lemma ZipRemove<K, V>(ks: seq<K>, vs: seq<V>, b: nat, e: nat)
    requires |ks| == |vs| && b <= e <= |ks|
    ensures Zip(ks[..b] + ks[e..], vs[..b] + vs[e..]) == Zip(ks, vs)[..b] + Zip(ks, vs)[e..]
  {
    var l, r := Zip(ks[..b] + ks[e..], vs[..b] + vs[e..]), Zip(ks, vs)[..b] + Zip(ks, vs)[e..];
    assert forall i :: 0 <= i < |l| ==> l[i] == r[i];
  }

  /** Assigning value i replaces the value of pair i. */
  lemma ZipUpdate<K, V>(ks: seq<K>, vs: seq<V>, i: nat, v: V)
    requires |ks| == |vs| && i < |ks|
    ensures Zip(ks, vs[i := v]) == Zip(ks, vs)[i := KeyValuePair(ks[i], v)]
  {
  }

  /** Taking out what was just inserted at h gives back the sequence. */
  lemma RemoveInserted<T>(s: seq<T>, h: nat, x: T)
    requires h <= |s|
    ensures (s[..h] + [x] + s[h..])[..h] + (s[..h] + [x] + s[h..])[h + 1..] == s
  {
    var t := s[..h] + [x] + s[h..];
    assert t[..h] == s[..h] && t[h + 1..] == s[h..];
  }

  /**
   * The effect of try_emplace on the values: v goes to the position where
   * the key goes, when the key is inserted.
   */
  function InsertValue<K, V>(ks: seq<K>, vs: seq<V>, key: K, v: V, cmp: (K, K) -> Ordering, allowDuplicates: bool): seq<V>
    requires |ks| == |vs|
  {
    var h := UpperBound(ks, key, cmp);
    if Inserts(ks, key, cmp, allowDuplicates) then vs[..h] + [v] + vs[h..] else vs
  }

  /**
   * A map's try_emplace is the set try_emplace of the pair among the
   * entries: keys and values grow together, and the pairs are those of
   * the pair inserted at the end of its equal range under the key order.
   */
  lemma EntryInsert<K(!new), V(!new)>(ks: seq<K>, vs: seq<V>, key: K, v: V, cmp: (K, K) -> Ordering, allowDuplicates: bool)
    requires |ks| == |vs|
    ensures |InsertKey(ks, key, cmp, allowDuplicates)| == |InsertValue(ks, vs, key, v, cmp, allowDuplicates)|
    ensures Zip(InsertKey(ks, key, cmp, allowDuplicates), InsertValue(ks, vs, key, v, cmp, allowDuplicates)) ==
      InsertKey(Zip(ks, vs), KeyValuePair(key, v), PairCompare(cmp), allowDuplicates)
  {
    ZipBounds(ks, vs, key, v, cmp);
    ZipInsert(ks, vs, UpperBound(ks, key, cmp), key, v);
  }

  /** One step of insert_range, read as entries. */
  lemma InsertRangeStep<K(!new), V(!new)>(start: seq<KeyValuePair<K, V>>, pairs: seq<KeyValuePair<K, V>>, k: nat,
                              ks0: seq<K>, vs0: seq<V>, ks1: seq<K>, vs1: seq<V>,
                              cmp: (K, K) -> Ordering, allowDuplicates: bool)
    requires k < |pairs| && |ks0| == |vs0|
    requires Zip(ks0, vs0) == InsertAll(start, pairs[..k], PairCompare(cmp), allowDuplicates)
    requires ks1 == InsertKey(ks0, pairs[k].key, cmp, allowDuplicates)
    requires vs1 == InsertValue(ks0, vs0, pairs[k].key, pairs[k].value, cmp, allowDuplicates)
    ensures |ks1| == |vs1|
    ensures Zip(ks1, vs1) == InsertAll(start, pairs[..k + 1], PairCompare(cmp), allowDuplicates)
  {
    EntryInsert(ks0, vs0, pairs[k].key, pairs[k].value, cmp, allowDuplicates);
    InsertAllSnoc(start, pairs[..k], pairs[k], PairCompare(cmp), allowDuplicates);
    assert pairs[..k + 1] == pairs[..k] + [pairs[k]];
  }
}
