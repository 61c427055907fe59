/**
 * The flat set and flat multiset: a dynamic array kept sorted under a
 * three-way comparator. Lookups are binary searches over the sorted
 * elements; insertion goes to the end of the key's equal range; in set
 * mode (duplicates disallowed) no two elements are equivalent.
 */
module FlatSets {
  import opened Wrappers
  import opened Growth
  import opened RawStorage
  import opened KeyCompare
  import opened SortedRange
  import opened NewStorage
  import opened Arrays

  /** insert_result: the position of the key, and whether an equivalent key was already present. */
  datatype InsertResult = InsertResult(iter: nat, wasDuplicate: bool)

  /** was_inserted: true when there was no duplicate, or the set allows duplicates. */
  function WasInserted(r: InsertResult, allowDuplicates: bool): (b: bool)
    ensures allowDuplicates ==> b
    ensures !allowDuplicates ==> (b <==> !r.wasDuplicate)
  {
    !r.wasDuplicate || allowDuplicates
  }

  /**
   * What assigning `input` to a set means: the elements are sorted; a
   * multiset holds exactly the input; a set holds no two equivalent
   * elements, only elements drawn from the input, and one equivalent to
   * each input element.
   */
  ghost predicate AssignedFrom<K(!new)>(r: seq<K>, input: seq<K>, cmp: (K, K) -> Ordering, allowDuplicates: bool) {
    && Sorted(r, cmp)
    && (allowDuplicates ==> multiset(r) == multiset(input))
    && (!allowDuplicates ==> NoEquivalents(r, cmp) && multiset(r) <= multiset(input))
    && (forall i :: 0 <= i < |input| ==> Represented(input[i], r, cmp))
  }

  class FlatSet<K(!new)> {
    const arr: Array<K>
    const cmp: (K, K) -> Ordering
    const allowDuplicates: bool
    ghost var Repr: set<object>

    /** The frame and the underlying array, without the ordering invariant. */
    ghost predicate Structured()
      reads this, Repr
    {
      && this in Repr && arr in Repr
      && Repr == {this} + arr.Repr
      && this !in arr.Repr
      && arr.Valid()
      && TotalPreorder(cmp)
    }

    /** The set invariant: sorted, and in set mode free of equivalent pairs. */
    ghost predicate Valid()
      reads this, Repr
      ensures Valid() ==> this in Repr
    {
      && Structured()
      && Sorted(arr.Contents, cmp)
      && (!allowDuplicates ==> NoEquivalents(arr.Contents, cmp))
    }

    /** The elements, in ascending order. */
    ghost function Keys(): seq<K>
      reads this, arr
    {
      arr.Contents
    }

    /** An empty set over a fresh array. */
    constructor (policy: Policy, cmp: (K, K) -> Ordering, allowDuplicates: bool)
      requires Sound(policy) && TotalPreorder(cmp)
      ensures Valid() && fresh(Repr) && Keys() == []
      ensures this.cmp == cmp && this.allowDuplicates == allowDuplicates
    {
      arr := new Array<K>(policy);
      this.cmp := cmp;
      this.allowDuplicates := allowDuplicates;
      new;
      Repr := {this} + arr.Repr;
    }

    /** min: the first element, which no element is below. */
    function Min(): (x: K)
      reads this, Repr
      requires Valid() && |Keys()| > 0
      ensures x == Keys()[0]
      ensures forall i :: 0 <= i < |Keys()| ==> cmp(x, Keys()[i]) != Greater
    {
      arr.At(0)
    }

    /** max: the last element, which no element is above. */
    function Max(): (x: K)
      reads this, Repr
      requires Valid() && |Keys()| > 0
      ensures x == Keys()[|Keys()| - 1]
      ensures forall i :: 0 <= i < |Keys()| ==> cmp(Keys()[i], x) != Greater
    {
      arr.At(arr.Size() - 1)
    }

    /** lower_bound: every element before the result is less than key, none from it on is. */
    function LowerBound(key: K): (r: nat)
      reads this, Repr
      requires Valid()
      ensures r <= |Keys()|
      ensures forall i :: 0 <= i < r ==> cmp(Keys()[i], key) == Less
      ensures forall i :: r <= i < |Keys()| ==> cmp(Keys()[i], key) != Less
    {
      SortedRange.EqualRange(arr.Contents, key, cmp);
      SortedRange.LowerBound(arr.Elements(), key, cmp)
    }

    /** upper_bound: every element before the result is not greater than key, every one from it on is. */
    function UpperBound(key: K): (r: nat)
      reads this, Repr
      requires Valid()
      ensures r <= |Keys()|
      ensures forall i :: 0 <= i < r ==> cmp(Keys()[i], key) != Greater
      ensures forall i :: r <= i < |Keys()| ==> cmp(Keys()[i], key) == Greater
    {
      SortedRange.EqualRange(arr.Contents, key, cmp);
      SortedRange.UpperBound(arr.Elements(), key, cmp)
    }

    /** equal_range: the positions holding an element equivalent to key, as one run. */
    function EqualRange(key: K): (r: (nat, nat))
      reads this, Repr
      requires Valid()
      ensures r.0 <= r.1 <= |Keys()| && r.0 == LowerBound(key) && r.1 == UpperBound(key)
      ensures forall i :: 0 <= i < |Keys()| ==> (cmp(Keys()[i], key) == Equivalent <==> r.0 <= i < r.1)
    {
      SortedRange.EqualRange(arr.Contents, key, cmp);
      (LowerBound(key), UpperBound(key))
    }

    /**
     * find: the first position whose element is equivalent to key, or the
     * size when no element is.
     */
    function Find(key: K): (r: nat)
      reads this, Repr
      requires Valid()
      ensures r <= |Keys()|
      ensures r < |Keys()| ==> cmp(Keys()[r], key) == Equivalent
      ensures forall i :: 0 <= i < r ==> cmp(Keys()[i], key) != Equivalent
      ensures r == |Keys()| <==> !Represented(key, Keys(), cmp)
    {
      var range := EqualRange(key);
      var lower := range.0;
      if lower == arr.Size() then arr.Size()
      else if cmp(arr.At(lower), key) == Equivalent then lower
      else arr.Size()
    }

    /** contains: whether some element is equivalent to key. */
    function Contains(key: K): (b: bool)
      reads this, Repr
      requires Valid()
      ensures b <==> Represented(key, Keys(), cmp)
    {
      Find(key) != arr.Size()
    }

    /** count: the number of elements equivalent to key; at most one in set mode. */
    function Count(key: K): (n: nat)
      reads this, Repr
      requires Valid()
      ensures n == CountEquivalent(Keys(), key, cmp)
      ensures n > 0 <==> Represented(key, Keys(), cmp)
      ensures !allowDuplicates ==> n <= 1
    {
      var range := EqualRange(key);
      EqualRangeCount(arr.Contents, key, cmp);
      if !allowDuplicates then SetModeCountAtMostOne(arr.Contents, key, cmp); range.1 - range.0
      else range.1 - range.0
    }

    /** lookup: the element equivalent to key, which the caller guarantees to be present. */
    function Lookup(key: K): (x: K)
      reads this, Repr
      requires Valid() && Represented(key, Keys(), cmp)
      ensures x in Keys() && cmp(x, key) == Equivalent
    {
      arr.At(Find(key))
    }

    /** try_lookup: the element equivalent to key, or nothing when there is none. */
    function TryLookup(key: K): (r: Option<K>)
      reads this, Repr
      requires Valid()
      ensures r.None? <==> !Represented(key, Keys(), cmp)
      ensures r.Some? ==> r.value in Keys() && cmp(r.value, key) == Equivalent
    {
      var iter := Find(key);
      if iter == arr.Size() then None else Some(arr.At(iter))
    }

    /**
     * try_emplace (and insert): when duplicates are allowed or no element
     * is equivalent, emplaces key at the end of its equal range; otherwise
     * leaves the set alone and points at the equivalent element.
     * Allocation can fail, and then nothing changes.
     */
    method TryEmplace(key: K) returns (r: Option<InsertResult>)
      requires Valid()
      modifies Repr
      ensures Valid() && fresh(Repr - old(Repr))
      ensures r.Some? ==> Keys() == InsertKey(old(Keys()), key, cmp, allowDuplicates)
      ensures r.Some? ==> (r.value.wasDuplicate <==> Represented(key, old(Keys()), cmp))
      ensures r.Some? ==> (WasInserted(r.value, allowDuplicates) <==> Inserts(old(Keys()), key, cmp, allowDuplicates))
      ensures r.Some? ==> r.value.iter < |Keys()| && cmp(Keys()[r.value.iter], key) == Equivalent
      ensures r.Some? && WasInserted(r.value, allowDuplicates) ==>
        r.value.iter == old(UpperBound(key)) && Keys()[r.value.iter] == key && |Keys()| == old(|Keys()|) + 1
      ensures r.Some? && !WasInserted(r.value, allowDuplicates) ==> Keys() == old(Keys())
      ensures r.None? ==> Keys() == old(Keys())
      ensures old(|Keys()|) < old(arr.Capacity()) ==> r.Some? && arr.storage.block == old(arr.storage.block)
    {
      ghost var s := arr.Contents;
      var range := EqualRange(key);
      var lo, hi := range.0, range.1;
      InsertKeyPosition(s, key, cmp, allowDuplicates);
      if allowDuplicates || lo == hi {
        InsertKeyProperties(s, key, cmp, allowDuplicates);
        var ok, iter := arr.Emplace(hi, key);
        Repr := {this} + arr.Repr;
        if !ok {
          return None;
        }
        r := Some(InsertResult(iter, lo != hi));
      } else {
        r := Some(InsertResult(lo, true));
      }
    }

    /**
     * The input-iterator insert_range: try_emplace of each element in
     * turn. When an allocation fails the elements before it stay inserted;
     * m is how many were processed.
     */
    method InsertRangeInput(vs: seq<K>) returns (ok: bool, ghost m: nat)
      requires Valid()
      modifies Repr
      ensures Valid() && fresh(Repr - old(Repr))
      ensures m <= |vs| && Keys() == InsertAll(old(Keys()), vs[..m], cmp, allowDuplicates)
      ensures ok <==> m == |vs|
      ensures old(|Keys()| + |vs|) <= old(arr.Capacity()) ==> ok
    {
      ghost var s := Keys();
      ghost var room := |Keys()| + |vs| <= arr.Capacity();
      ok := true;
      var k := 0;
      assert vs[..0] == [];
      while k < |vs|
        invariant 0 <= k <= |vs|
        invariant Valid() && fresh(Repr - old(Repr))
        invariant InsertedUpTo(s, vs, k, room)
      {
        var inserted := InsertNext(s, vs, k, room);
        if !inserted {
          ok, m := false, k;
          return;
        }
        k := k + 1;
      }
      m := |vs|;
      assert vs[..m] == vs;
    }

    /** One step of the input-iterator insert_range: try_emplace of element k. */
    method InsertNext(ghost s: seq<K>, vs: seq<K>, k: nat, ghost room: bool) returns (inserted: bool)
      requires InsertedUpTo(s, vs, k, room) && k < |vs|
      modifies Repr
      ensures Valid() && fresh(Repr - old(Repr))
      ensures inserted ==> InsertedUpTo(s, vs, k + 1, room)
      ensures !inserted ==> InsertedUpTo(s, vs, k, room) && !room
    {
      assert vs[..k + 1] == vs[..k] + [vs[k]];
      InsertAllSnoc(s, vs[..k], vs[k], cmp, allowDuplicates);
      var r := TryEmplace(vs[k]);
      inserted := r.Some?;
    }

    /**
     * The state of the insert_range loop after k elements: the first k are
     * inserted and, when the range had room, the room left holds the rest.
     */
    ghost predicate InsertedUpTo(s: seq<K>, vs: seq<K>, k: nat, room: bool)
      reads this, Repr
    {
      && Valid() && k <= |vs|
      && Keys() == InsertAll(s, vs[..k], cmp, allowDuplicates)
      && (room ==> |Keys()| + (|vs| - k) <= arr.Capacity())
    }

    /**
     * The forward-iterator insert_range: reserves room for every element
     * first, so that the insertions themselves cannot fail; the range is
     * therefore inserted entirely or not at all.
     */
    method InsertRange(vs: seq<K>) returns (ok: bool)
      requires Valid()
      modifies Repr
      ensures Valid() && fresh(Repr - old(Repr))
      ensures ok ==> Keys() == InsertAll(old(Keys()), vs, cmp, allowDuplicates)
      ensures ok ==> forall i :: 0 <= i < |vs| ==> Represented(vs[i], Keys(), cmp)
      ensures ok ==> multiset(old(Keys())) <= multiset(Keys()) <= multiset(old(Keys())) + multiset(vs)
      ensures !ok ==> Keys() == old(Keys())
    {
      ghost var s := Keys();
      ok := arr.Reserve(arr.Size() + |vs|);
      Repr := {this} + arr.Repr;
      if !ok {
        return;
      }
      var done, m := InsertRangeInput(vs);
      assert vs[..m] == vs;
      InsertAllRepresents(s, vs, cmp, allowDuplicates);
      InsertAllElements(s, vs, cmp, allowDuplicates);
    }

    /** reserve: the capacity becomes at least n; the elements stay. */
    method Reserve(n: nat) returns (ok: bool)
      requires Valid()
      modifies Repr
      ensures Valid() && fresh(Repr - old(Repr))
      ensures Keys() == old(Keys())
      ensures ok ==> arr.Capacity() >= n
      ensures n <= old(arr.Capacity()) ==> ok && arr.storage.block == old(arr.storage.block)
    {
      ok := arr.Reserve(n);
      Repr := {this} + arr.Repr;
    }

    /** clear: no element is left. */
    method Clear()
      requires Valid()
      modifies Repr
      ensures Valid() && Repr == old(Repr)
      ensures Keys() == []
    {
      arr.Clear();
    }

    /** erase: removes the element at pos, the rest keep their order; the result is pos. */
    method Erase(pos: nat) returns (r: nat)
      requires Valid() && pos < |Keys()|
      modifies Repr
      ensures Valid() && Repr == old(Repr)
      ensures r == pos && Keys() == old(Keys()[..pos] + Keys()[pos + 1..])
    {
      ghost var s := Keys();
      r := arr.Erase(pos);
      RemoveRangeKeepsOrder(s, pos, pos + 1, cmp);
    }

    /** erase_range: removes the elements of [b, e), the rest keep their order; the result is b. */
    method EraseRange(b: nat, e: nat) returns (r: nat)
      requires Valid() && b <= e <= |Keys()|
      modifies Repr
      ensures Valid() && Repr == old(Repr)
      ensures r == b && Keys() == old(Keys()[..b] + Keys()[e..])
    {
      ghost var s := Keys();
      r := arr.EraseRange(b, e);
      RemoveRangeKeepsOrder(s, b, e, cmp);
    }

    /**
     * erase_all: erases the equal range of key, so that exactly the
     * elements equivalent to key go, and returns how many there were.
     */
    method EraseAll(key: K) returns (n: nat)
      requires Valid()
      modifies Repr
      ensures Valid() && Repr == old(Repr)
      ensures Keys() == WithoutEquivalents(old(Keys()), key, cmp)
      ensures !Represented(key, Keys(), cmp)
      ensures n == CountEquivalent(old(Keys()), key, cmp)
      ensures !allowDuplicates ==> n <= 1
    {
      ghost var s := Keys();
      var range := EqualRange(key);
      n := Count(key);
      var _ := arr.EraseRange(range.0, range.1);
      RemoveRangeKeepsOrder(s, range.0, range.1, cmp);
      EraseEqualRange(s, key, cmp);
      EraseLeavesNone(s, key, cmp, range.0, range.1);
    }

    /**
     * Sorts the elements and, in set mode, collapses each run of
     * equivalent elements to its first one (std::unique) and erases the
     * rest: the common tail of the assignments.
     */
    method SortAndUnify()
      requires Structured()
      modifies Repr
      ensures Valid() && Repr == old(Repr)
      ensures AssignedFrom(Keys(), old(Keys()), cmp, allowDuplicates)
    {
      ghost var input := Keys();
      var sorted := SortBy(arr.Elements(), cmp);
      arr.Overwrite(sorted);
      assert arr.Contents == sorted;
      if !allowDuplicates {
        var u := Unique(sorted, cmp);
        UniqueOfSorted(sorted, cmp);
        arr.Overwrite(u);
        var _ := arr.EraseRange(|u|, arr.Size());
        assert arr.Contents == u;
      }
      SortUnifyAssigns(input, sorted, cmp, allowDuplicates);
    }

    /**
     * assign from an input view that hands over its memory: the array
     * adopts the block, then the elements are sorted and, in set mode,
     * made unique.
     */
    method AssignStealing(source: BlockStorageNew<K>, lo: nat, hi: nat)
      requires Valid() && source !in Repr && source.block !in Repr
      requires Constructed(source.block[..], lo, hi)
      modifies Repr, source, source.block
      ensures Valid()
      ensures AssignedFrom(Keys(), old(ValuesIn(source.block[..], lo, hi)), cmp, allowDuplicates)
      ensures fresh(source.block) && source.block.Length == 0
    {
      arr.AssignView(source, lo, hi);
      Repr := {this} + arr.Repr;
      SortAndUnify();
    }

    /**
     * assign from an input view that copies or moves its elements: clears,
     * reserves room for all of them, then inserts them one by one. The
     * reservation is the only step that can fail, and leaves the set empty.
     */
    method AssignCopying(vs: seq<K>) returns (ok: bool)
      requires Valid()
      modifies Repr
      ensures Valid() && fresh(Repr - old(Repr))
      ensures ok ==> Keys() == InsertAll([], vs, cmp, allowDuplicates)
      ensures ok ==> AssignedFrom(Keys(), vs, cmp, allowDuplicates)
      ensures !ok ==> Keys() == []
    {
      arr.Clear();
      ok := arr.Reserve(|vs|);
      Repr := {this} + arr.Repr;
      if !ok {
        return;
      }
      var done, m := InsertRangeInput(vs);
      assert vs[..m] == vs;
      InsertAllAssigns(vs, cmp, allowDuplicates);
    }

    /**
     * assign_range as written: assigns the range to the array and sorts
     * it, without removing equivalent elements. In set mode the result can
     * therefore break the set invariant (AssignRangeKeepsDuplicates).
     * It isolates that one defect: the array underneath is assigned through
     * the corrected Arrays.Array.AssignRange, so on allocation failure the
     * keys are empty rather than the stale end of
     * Arrays.Array.AssignRangeAsWritten.
     */
    method AssignRangeAsWritten(vs: seq<K>) returns (ok: bool)
      requires Valid()
      modifies Repr
      ensures Structured() && fresh(Repr - old(Repr))
      ensures Sorted(Keys(), cmp)
      ensures ok ==> multiset(Keys()) == multiset(vs)
      ensures !ok ==> Keys() == []
      ensures allowDuplicates ==> Valid()
    {
      ok := arr.AssignRange(vs);
      Repr := {this} + arr.Repr;
      var sorted := SortBy(arr.Elements(), cmp);
      assert |sorted| == |multiset(sorted)| == |arr.Contents|;
      arr.Overwrite(sorted);
      assert arr.Contents == sorted;
    }

    /**
     * assign_range as documented, the same as building a new set from the
     * range: assigns, sorts and, in set mode, makes the elements unique.
     * When the allocation fails the set is left empty.
     */
    method AssignRange(vs: seq<K>) returns (ok: bool)
      requires Valid()
      modifies Repr
      ensures Valid() && fresh(Repr - old(Repr))
      ensures ok ==> AssignedFrom(Keys(), vs, cmp, allowDuplicates)
      ensures !ok ==> Keys() == []
    {
      ok := arr.AssignRange(vs);
      Repr := {this} + arr.Repr;
      SortAndUnify();
    }
  }

  /** After erasing the run [lo, hi) of equivalents of key, none is left. */
  lemma EraseLeavesNone<K(!new)>(s: seq<K>, key: K, cmp: (K, K) -> Ordering, lo: nat, hi: nat)
    requires lo <= hi <= |s|
    requires forall i :: 0 <= i < |s| ==> (cmp(s[i], key) == Equivalent <==> lo <= i < hi)
    requires TotalPreorder(cmp)
    ensures !Represented(key, s[..lo] + s[hi..], cmp)
  {
    var r := s[..lo] + s[hi..];
    forall j | 0 <= j < |r| ensures cmp(key, r[j]) != Equivalent {
      var i := if j < lo then j else j + (hi - lo);
      assert r[j] == s[i];
    }
  }

  /** Inserting the input one by one into an empty sequence assigns it. */
  lemma InsertAllAssigns<K(!new)>(vs: seq<K>, cmp: (K, K) -> Ordering, allowDuplicates: bool)
    requires TotalPreorder(cmp)
    ensures AssignedFrom(InsertAll([], vs, cmp, allowDuplicates), vs, cmp, allowDuplicates)
  {
    InsertAllOrder([], vs, cmp, allowDuplicates);
    InsertAllElements([], vs, cmp, allowDuplicates);
    InsertAllRepresents([], vs, cmp, allowDuplicates);
  }

  /** A sorted permutation of the input, made unique in set mode, assigns the input. */
  lemma SortUnifyAssigns<K(!new)>(input: seq<K>, sorted: seq<K>, cmp: (K, K) -> Ordering, allowDuplicates: bool)
    requires TotalPreorder(cmp) && Sorted(sorted, cmp) && multiset(sorted) == multiset(input)
    ensures AssignedFrom(if allowDuplicates then sorted else Unique(sorted, cmp), input, cmp, allowDuplicates)
  {
    var r := if allowDuplicates then sorted else Unique(sorted, cmp);
    UniqueOfSorted(sorted, cmp);
    forall i | 0 <= i < |input| ensures Represented(input[i], r, cmp) {
      assert input[i] in multiset(input);
      var j :| 0 <= j < |sorted| && sorted[j] == input[i];
      if allowDuplicates {
        assert cmp(input[i], r[j]) == Equivalent;
      }
    }
  }

  /**
   * assign_range as written, in set mode: any arrangement of a range
   * holding one key twice still holds two equivalent elements, so the
   * set invariant fails after assigning [x, x].
   */
  lemma AssignRangeKeepsDuplicates<K(!new)>(x: K, r: seq<K>, cmp: (K, K) -> Ordering)
    requires TotalPreorder(cmp) && multiset(r) == multiset([x, x])
    ensures !NoEquivalents(r, cmp)
  {
    assert |r| == |multiset(r)| == 2;
    assert r == [r[0], r[1]];
    assert multiset{r[0], r[1]} == multiset{x, x};
    assert r[0] in multiset{x, x} && r[1] in multiset{x, x};
    assert cmp(r[0], r[1]) == Equivalent;
  }
}
