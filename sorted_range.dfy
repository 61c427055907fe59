/**
 * Sorted sequences under a three-way comparator: the lookup bounds the
 * flat containers binary-search for, the insertion they perform, and the
 * two standard algorithms their bulk assignment uses (sort and unique).
 * The bounds are specified by what they return, not by how they search.
 */
module SortedRange {
  import opened KeyCompare

  /** Every element is not greater than every later one. */
  ghost predicate Sorted<K>(s: seq<K>, cmp: (K, K) -> Ordering) {
    forall i, j :: 0 <= i < j < |s| ==> cmp(s[i], s[j]) != Greater
  }

  /** No two elements are equivalent: the set-mode invariant. */
  ghost predicate NoEquivalents<K>(s: seq<K>, cmp: (K, K) -> Ordering) {
    forall i, j :: 0 <= i < j < |s| ==> cmp(s[i], s[j]) != Equivalent
  }

  /** Some element of s is equivalent to x. */
  ghost predicate Represented<K>(x: K, s: seq<K>, cmp: (K, K) -> Ordering) {
    exists j :: 0 <= j < |s| && cmp(x, s[j]) == Equivalent
  }

  /** lower_bound: the first index whose element is not less than key. */
  function LowerBound<K>(s: seq<K>, key: K, cmp: (K, K) -> Ordering): (r: nat)
    ensures r <= |s|
    ensures forall i :: 0 <= i < r ==> cmp(s[i], key) == Less
    ensures r < |s| ==> cmp(s[r], key) != Less
  {
    if |s| == 0 || cmp(s[0], key) != Less then 0 else 1 + LowerBound(s[1..], key, cmp)
  }

  /** upper_bound: the first index whose element is greater than key. */
  function UpperBound<K>(s: seq<K>, key: K, cmp: (K, K) -> Ordering): (r: nat)
    ensures r <= |s|
    ensures forall i :: 0 <= i < r ==> cmp(s[i], key) != Greater
    ensures r < |s| ==> cmp(s[r], key) == Greater
  {
    if |s| == 0 || cmp(s[0], key) == Greater then 0 else 1 + UpperBound(s[1..], key, cmp)
  }

  /** The number of elements equivalent to key, wherever they are. */
  function CountEquivalent<K>(s: seq<K>, key: K, cmp: (K, K) -> Ordering): nat {
    if |s| == 0 then 0
    else (if cmp(s[0], key) == Equivalent then 1 else 0) + CountEquivalent(s[1..], key, cmp)
  }

  /**
   * equal_range on a sorted sequence: [LowerBound, UpperBound) is one
   * contiguous run holding exactly the elements equivalent to key; the
   * elements before it are less and the elements after it are greater.
   */
  lemma EqualRange<K(!new)>(s: seq<K>, key: K, cmp: (K, K) -> Ordering)
    requires TotalPreorder(cmp) && Sorted(s, cmp)
    ensures LowerBound(s, key, cmp) <= UpperBound(s, key, cmp)
    ensures forall i :: LowerBound(s, key, cmp) <= i < |s| ==> cmp(s[i], key) != Less
    ensures forall i :: UpperBound(s, key, cmp) <= i < |s| ==> cmp(s[i], key) == Greater
    ensures forall i :: 0 <= i < |s| ==>
      (cmp(s[i], key) == Equivalent <==> LowerBound(s, key, cmp) <= i < UpperBound(s, key, cmp))
  {
    var lo, hi := LowerBound(s, key, cmp), UpperBound(s, key, cmp);
    forall i | lo < i < |s| ensures cmp(s[i], key) != Less {
      NotLessMonotone(cmp, s[lo], s[i], key);
    }
    forall i | hi < i < |s| ensures cmp(s[i], key) == Greater {
      GreaterMonotone(cmp, s[hi], s[i], key);
    }
  }

  /** The equivalents of key are counted exactly by the width of any run that holds exactly them. */
  lemma {:induction false} CountOfRun<K>(s: seq<K>, key: K, cmp: (K, K) -> Ordering, lo: nat, hi: nat)
    requires lo <= hi <= |s|
    requires forall i :: 0 <= i < |s| ==> (cmp(s[i], key) == Equivalent <==> lo <= i < hi)
    ensures CountEquivalent(s, key, cmp) == hi - lo
  {
    if |s| > 0 {
      var t := s[1..];
      assert forall i :: 0 <= i < |t| ==> t[i] == s[i + 1];
      if cmp(s[0], key) == Equivalent {
        CountOfRun(t, key, cmp, 0, hi - 1);
      } else if lo == 0 {
        CountOfRun(t, key, cmp, 0, 0);
      } else {
        CountOfRun(t, key, cmp, lo - 1, hi - 1);
      }
    }
  }

  /** count: on a sorted sequence the width of equal_range is the number of equivalents. */
  lemma EqualRangeCount<K(!new)>(s: seq<K>, key: K, cmp: (K, K) -> Ordering)
    requires TotalPreorder(cmp) && Sorted(s, cmp)
    ensures UpperBound(s, key, cmp) - LowerBound(s, key, cmp) == CountEquivalent(s, key, cmp)
  {
    EqualRange(s, key, cmp);
    CountOfRun(s, key, cmp, LowerBound(s, key, cmp), UpperBound(s, key, cmp));
  }

  /** The elements not equivalent to key, in their order. */
  function WithoutEquivalents<K>(s: seq<K>, key: K, cmp: (K, K) -> Ordering): seq<K> {
    if |s| == 0 then []
    else if cmp(s[0], key) == Equivalent then WithoutEquivalents(s[1..], key, cmp)
    else [s[0]] + WithoutEquivalents(s[1..], key, cmp)
  }

  /** Cutting out a run that holds exactly the equivalents of key removes exactly them. */
  lemma {:induction false} CutRun<K>(s: seq<K>, key: K, cmp: (K, K) -> Ordering, lo: nat, hi: nat)
    requires lo <= hi <= |s|
    requires forall i :: 0 <= i < |s| ==> (cmp(s[i], key) == Equivalent <==> lo <= i < hi)
    ensures s[..lo] + s[hi..] == WithoutEquivalents(s, key, cmp)
  {
    if |s| > 0 {
      var t := s[1..];
      assert forall i :: 0 <= i < |t| ==> t[i] == s[i + 1];
      if cmp(s[0], key) == Equivalent {
        CutRun(t, key, cmp, 0, hi - 1);
        assert t[hi - 1..] == s[hi..];
      } else if lo == 0 {
        CutRun(t, key, cmp, 0, 0);
        assert s == [s[0]] + t;
      } else {
        CutRun(t, key, cmp, lo - 1, hi - 1);
        assert s[..lo] == [s[0]] + t[..lo - 1];
        assert t[hi - 1..] == s[hi..];
      }
    }
  }

  /** erase_all: on a sorted sequence, erasing equal_range removes exactly the equivalents of key. */
  lemma EraseEqualRange<K(!new)>(s: seq<K>, key: K, cmp: (K, K) -> Ordering)
    requires TotalPreorder(cmp) && Sorted(s, cmp)
    ensures s[..LowerBound(s, key, cmp)] + s[UpperBound(s, key, cmp)..] == WithoutEquivalents(s, key, cmp)
  {
    EqualRange(s, key, cmp);
    CutRun(s, key, cmp, LowerBound(s, key, cmp), UpperBound(s, key, cmp));
  }

  /** Any two elements of the equal range are equivalent to each other. */
  lemma EqualRangeMutuallyEquivalent<K(!new)>(s: seq<K>, key: K, cmp: (K, K) -> Ordering)
    requires TotalPreorder(cmp) && Sorted(s, cmp)
    ensures forall i, j :: LowerBound(s, key, cmp) <= i < j < UpperBound(s, key, cmp) ==>
      cmp(s[i], s[j]) == Equivalent
  {
    EqualRange(s, key, cmp);
    forall i, j | LowerBound(s, key, cmp) <= i < j < UpperBound(s, key, cmp)
      ensures cmp(s[i], s[j]) == Equivalent
    {
      EquivalentSymmetric(cmp, s[j], key);
      EquivalentTransitive(cmp, s[i], key, s[j]);
    }
  }

  /** In set mode the equal range holds at most one element. */
  lemma SetModeCountAtMostOne<K(!new)>(s: seq<K>, key: K, cmp: (K, K) -> Ordering)
    requires TotalPreorder(cmp) && Sorted(s, cmp) && NoEquivalents(s, cmp)
    ensures UpperBound(s, key, cmp) - LowerBound(s, key, cmp) <= 1
  {
    EqualRangeMutuallyEquivalent(s, key, cmp);
  }

  /**
   * The effect of try_emplace on the sequence: the key goes to the end of
   * its equal range, unless duplicates are disallowed and the range is
   * not empty.
   */
  function InsertKey<K>(s: seq<K>, key: K, cmp: (K, K) -> Ordering, allowDuplicates: bool): seq<K> {
    var hi := UpperBound(s, key, cmp);
    if allowDuplicates || LowerBound(s, key, cmp) == hi then s[..hi] + [key] + s[hi..] else s
  }

  /** Whether try_emplace inserts: duplicates are allowed or no element is equivalent. */
  function Inserts<K>(s: seq<K>, key: K, cmp: (K, K) -> Ordering, allowDuplicates: bool): bool {
    allowDuplicates || LowerBound(s, key, cmp) == UpperBound(s, key, cmp)
  }

  /**
   * Where try_emplace leaves the key: an equivalent key is present exactly
   * when the equal range is not empty; an inserted key sits at the old
   * upper bound, in a sequence one longer; otherwise the sequence is
   * unchanged and its lower bound holds an equivalent key.
   */
  lemma InsertKeyPosition<K(!new)>(s: seq<K>, key: K, cmp: (K, K) -> Ordering, allowDuplicates: bool)
    requires TotalPreorder(cmp) && Sorted(s, cmp)
    ensures Represented(key, s, cmp) <==> LowerBound(s, key, cmp) < UpperBound(s, key, cmp)
    ensures Inserts(s, key, cmp, allowDuplicates) ==>
      && |InsertKey(s, key, cmp, allowDuplicates)| == |s| + 1
      && InsertKey(s, key, cmp, allowDuplicates)[UpperBound(s, key, cmp)] == key
    ensures !Inserts(s, key, cmp, allowDuplicates) ==>
      && InsertKey(s, key, cmp, allowDuplicates) == s
      && LowerBound(s, key, cmp) < |s|
      && cmp(s[LowerBound(s, key, cmp)], key) == Equivalent
  {
    EqualRange(s, key, cmp);
    var lo, hi := LowerBound(s, key, cmp), UpperBound(s, key, cmp);
    if lo < hi {
      assert cmp(key, s[lo]) == Equivalent;
    }
    if Inserts(s, key, cmp, allowDuplicates) {
      assert (s[..hi] + [key] + s[hi..])[hi] == key;
    }
  }

  /**
   * try_emplace keeps the sequence sorted, keeps it free of equivalents in
   * set mode, adds exactly the key when it inserts and nothing otherwise,
   * and afterwards the key is always represented.
   */
  lemma InsertKeyProperties<K(!new)>(s: seq<K>, key: K, cmp: (K, K) -> Ordering, allowDuplicates: bool)
    requires TotalPreorder(cmp) && Sorted(s, cmp)
    ensures Sorted(InsertKey(s, key, cmp, allowDuplicates), cmp)
    ensures !allowDuplicates && NoEquivalents(s, cmp) ==> NoEquivalents(InsertKey(s, key, cmp, allowDuplicates), cmp)
    ensures multiset(InsertKey(s, key, cmp, allowDuplicates)) ==
      if Inserts(s, key, cmp, allowDuplicates) then multiset(s) + multiset{key} else multiset(s)
    ensures Represented(key, InsertKey(s, key, cmp, allowDuplicates), cmp)
  {
    EqualRange(s, key, cmp);
    InsertKeyElements(s, key, cmp, allowDuplicates);
    var lo, hi := LowerBound(s, key, cmp), UpperBound(s, key, cmp);
    if Inserts(s, key, cmp, allowDuplicates) {
      var r := s[..hi] + [key] + s[hi..];
      assert r[hi] == key;
      InsertAtSorted(s, hi, key, cmp);
      if !allowDuplicates && NoEquivalents(s, cmp) {
        InsertAtNoEquivalents(s, hi, key, cmp);
      }
    } else {
      assert cmp(s[lo], key) == Equivalent;
      EquivalentSymmetric(cmp, s[lo], key);
    }
  }

  /** try_emplace adds exactly the key when it inserts and nothing otherwise. */
  lemma InsertKeyElements<K>(s: seq<K>, key: K, cmp: (K, K) -> Ordering, allowDuplicates: bool)
    ensures multiset(InsertKey(s, key, cmp, allowDuplicates)) ==
      if Inserts(s, key, cmp, allowDuplicates) then multiset(s) + multiset{key} else multiset(s)
  {
    var hi := UpperBound(s, key, cmp);
    assert s == s[..hi] + s[hi..];
  }

  /** Inserting at a position with only non-greater elements before it and greater ones after it keeps the order. */
  lemma InsertAtSorted<K(!new)>(s: seq<K>, at: nat, key: K, cmp: (K, K) -> Ordering)
    requires TotalPreorder(cmp) && Sorted(s, cmp) && at <= |s|
    requires forall i :: 0 <= i < at ==> cmp(s[i], key) != Greater
    requires forall i :: at <= i < |s| ==> cmp(s[i], key) == Greater
    ensures Sorted(s[..at] + [key] + s[at..], cmp)
  {
    var r := s[..at] + [key] + s[at..];
    assert forall i :: 0 <= i < |r| ==> r[i] == if i < at then s[i] else if i == at then key else s[i - 1];
    forall i, j | 0 <= i < j < |r| ensures cmp(r[i], r[j]) != Greater {
      if i == at {
        assert cmp(s[j - 1], key) == Greater;
      }
    }
  }

  /** Inserting a key no element is equivalent to keeps a sequence free of equivalents. */
  lemma InsertAtNoEquivalents<K(!new)>(s: seq<K>, at: nat, key: K, cmp: (K, K) -> Ordering)
    requires TotalPreorder(cmp) && NoEquivalents(s, cmp) && at <= |s|
    requires forall i :: 0 <= i < |s| ==> cmp(s[i], key) != Equivalent
    ensures NoEquivalents(s[..at] + [key] + s[at..], cmp)
  {
    var r := s[..at] + [key] + s[at..];
    assert forall i :: 0 <= i < |r| ==> r[i] == if i < at then s[i] else if i == at then key else s[i - 1];
    forall i, j | 0 <= i < j < |r| ensures cmp(r[i], r[j]) != Equivalent {
      if i == at {
        assert cmp(s[j - 1], key) != Equivalent;
        assert cmp(key, s[j - 1]) != Equivalent by {
          if cmp(key, s[j - 1]) == Equivalent {
            EquivalentSymmetric(cmp, key, s[j - 1]);
          }
        }
      }
    }
  }

  /** The effect of inserting every element of vs in turn. */
  function InsertAll<K>(s: seq<K>, vs: seq<K>, cmp: (K, K) -> Ordering, allowDuplicates: bool): seq<K>
    decreases |vs|
  {
    if |vs| == 0 then s else InsertAll(InsertKey(s, vs[0], cmp, allowDuplicates), vs[1..], cmp, allowDuplicates)
  }

  /** Inserting one more element after a range is inserting it into the result. */
  lemma {:induction false} InsertAllSnoc<K>(s: seq<K>, vs: seq<K>, x: K, cmp: (K, K) -> Ordering, allowDuplicates: bool)
    ensures InsertAll(s, vs + [x], cmp, allowDuplicates) == InsertKey(InsertAll(s, vs, cmp, allowDuplicates), x, cmp, allowDuplicates)
    decreases |vs|
  {
    if |vs| > 0 {
      assert (vs + [x])[1..] == vs[1..] + [x];
      InsertAllSnoc(InsertKey(s, vs[0], cmp, allowDuplicates), vs[1..], x, cmp, allowDuplicates);
    } else {
      assert (vs + [x])[1..] == [];
    }
  }

  /** Inserting a range one by one keeps the sequence sorted, and free of equivalents in set mode. */
  lemma {:induction false} InsertAllOrder<K(!new)>(s: seq<K>, vs: seq<K>, cmp: (K, K) -> Ordering, allowDuplicates: bool)
    requires TotalPreorder(cmp) && Sorted(s, cmp)
    ensures Sorted(InsertAll(s, vs, cmp, allowDuplicates), cmp)
    ensures !allowDuplicates && NoEquivalents(s, cmp) ==> NoEquivalents(InsertAll(s, vs, cmp, allowDuplicates), cmp)
    decreases |vs|
  {
    if |vs| > 0 {
      InsertKeyProperties(s, vs[0], cmp, allowDuplicates);
      InsertAllOrder(InsertKey(s, vs[0], cmp, allowDuplicates), vs[1..], cmp, allowDuplicates);
    }
  }

  /**
   * Inserting a range one by one keeps every old element and adds only
   * elements of the range; with duplicates allowed it adds all of them.
   */
  lemma {:induction false} InsertAllElements<K>(s: seq<K>, vs: seq<K>, cmp: (K, K) -> Ordering, allowDuplicates: bool)
    ensures multiset(s) <= multiset(InsertAll(s, vs, cmp, allowDuplicates)) <= multiset(s) + multiset(vs)
    ensures allowDuplicates ==> multiset(InsertAll(s, vs, cmp, allowDuplicates)) == multiset(s) + multiset(vs)
    decreases |vs|
  {
    if |vs| > 0 {
      var t := InsertKey(s, vs[0], cmp, allowDuplicates);
      InsertKeyElements(s, vs[0], cmp, allowDuplicates);
      InsertAllElements(t, vs[1..], cmp, allowDuplicates);
      assert vs == [vs[0]] + vs[1..];
      assert multiset(vs) == multiset{vs[0]} + multiset(vs[1..]);
    }
  }

  /** After inserting a range one by one, every element of the range is represented. */
  lemma {:induction false} InsertAllRepresents<K(!new)>(s: seq<K>, vs: seq<K>, cmp: (K, K) -> Ordering, allowDuplicates: bool)
    requires TotalPreorder(cmp) && Sorted(s, cmp)
    ensures forall i :: 0 <= i < |vs| ==> Represented(vs[i], InsertAll(s, vs, cmp, allowDuplicates), cmp)
    decreases |vs|
  {
    if |vs| > 0 {
      var t := InsertKey(s, vs[0], cmp, allowDuplicates);
      var rest := vs[1..];
      InsertKeyProperties(s, vs[0], cmp, allowDuplicates);
      InsertAllRepresents(t, rest, cmp, allowDuplicates);
      InsertAllElements(t, rest, cmp, allowDuplicates);
      var r := InsertAll(t, rest, cmp, allowDuplicates);
      var j :| 0 <= j < |t| && cmp(vs[0], t[j]) == Equivalent;
      KeptRepresented(t, r, j, cmp);
      forall i | 0 < i < |vs| ensures Represented(vs[i], r, cmp) {
        assert vs[i] == rest[i - 1];
      }
    }
  }

  /** An element represented before inserting more stays represented. */
  lemma KeptRepresented<K(!new)>(t: seq<K>, r: seq<K>, j: nat, cmp: (K, K) -> Ordering)
    requires TotalPreorder(cmp) && j < |t| && multiset(t) <= multiset(r)
    ensures forall x :: cmp(x, t[j]) == Equivalent ==> Represented(x, r, cmp)
  {
    assert t[j] in multiset(r);
    var k :| 0 <= k < |r| && r[k] == t[j];
    forall x | cmp(x, t[j]) == Equivalent ensures Represented(x, r, cmp) {
      assert cmp(x, r[k]) == Equivalent;
    }
  }

  /**
   * std::sort with the comparator's "less": a sorted permutation. It is
   * defined as the insertion of every element into an empty sequence only
   * to have a definition; any sorted permutation would do for the
   * containers.
   */
  function SortBy<K(!new)>(s: seq<K>, cmp: (K, K) -> Ordering): (r: seq<K>)
    requires TotalPreorder(cmp)
    ensures Sorted(r, cmp) && multiset(r) == multiset(s)
  {
    InsertAllOrder([], s, cmp, true);
    InsertAllElements([], s, cmp, true);
    InsertAll([], s, cmp, true)
  }

  /**
   * The elements std::unique keeps after `last`, which it has already
   * kept: an element is kept when it is not equivalent to the previously
   * kept one.
   */
  function UniqueAfter<K>(last: K, s: seq<K>, cmp: (K, K) -> Ordering): (r: seq<K>)
    ensures |r| <= |s|
    ensures |r| > 0 ==> cmp(last, r[0]) != Equivalent
    ensures forall j :: 0 < j < |r| ==> cmp(r[j - 1], r[j]) != Equivalent
    decreases |s|
  {
    if |s| == 0 then []
    else if cmp(last, s[0]) == Equivalent then UniqueAfter(last, s[1..], cmp)
    else [s[0]] + UniqueAfter(s[0], s[1..], cmp)
  }

  /** std::unique with the comparator's "equivalent": the kept prefix. */
  function Unique<K>(s: seq<K>, cmp: (K, K) -> Ordering): (r: seq<K>)
    ensures |r| <= |s| && (|s| > 0 <==> |r| > 0)
    ensures |s| > 0 ==> r[0] == s[0]
    ensures forall j :: 0 < j < |r| ==> cmp(r[j - 1], r[j]) != Equivalent
  {
    if |s| == 0 then [] else [s[0]] + UniqueAfter(s[0], s[1..], cmp)
  }

  /** On a sorted run not below `last`, the kept elements are strictly increasing and above `last`. */
  lemma {:induction false} UniqueAfterOrder<K(!new)>(last: K, s: seq<K>, cmp: (K, K) -> Ordering)
    requires TotalPreorder(cmp) && Sorted(s, cmp)
    requires forall i :: 0 <= i < |s| ==> cmp(last, s[i]) != Greater
    ensures Sorted(UniqueAfter(last, s, cmp), cmp) && NoEquivalents(UniqueAfter(last, s, cmp), cmp)
    ensures forall j :: 0 <= j < |UniqueAfter(last, s, cmp)| ==> cmp(last, UniqueAfter(last, s, cmp)[j]) == Less
    decreases |s|
  {
    if |s| > 0 {
      var t := s[1..];
      if cmp(last, s[0]) == Equivalent {
        UniqueAfterOrder(last, t, cmp);
      } else {
        UniqueAfterOrder(s[0], t, cmp);
        var tail := UniqueAfter(s[0], t, cmp);
        var u := [s[0]] + tail;
        assert forall j :: 0 < j < |u| ==> u[j] == tail[j - 1];
        forall j | 0 <= j < |u| ensures cmp(last, u[j]) == Less {
          if j > 0 {
            LessNotGreater(cmp, last, s[0], tail[j - 1]);
          }
        }
      }
    }
  }

  /** The kept elements are drawn from the input. */
  lemma {:induction false} UniqueAfterDrawn<K>(last: K, s: seq<K>, cmp: (K, K) -> Ordering)
    ensures multiset(UniqueAfter(last, s, cmp)) <= multiset(s) && |UniqueAfter(last, s, cmp)| <= |s|
    decreases |s|
  {
    if |s| > 0 {
      assert s == [s[0]] + s[1..];
      UniqueAfterDrawn(last, s[1..], cmp);
      UniqueAfterDrawn(s[0], s[1..], cmp);
    }
  }

  /** Every input element is equivalent to `last` or to a kept element. */
  lemma {:induction false} UniqueAfterCovers<K(!new)>(last: K, s: seq<K>, cmp: (K, K) -> Ordering)
    requires TotalPreorder(cmp)
    ensures forall i :: 0 <= i < |s| ==>
      cmp(last, s[i]) == Equivalent || Represented(s[i], UniqueAfter(last, s, cmp), cmp)
    decreases |s|
  {
    if |s| > 0 {
      var t := s[1..];
      if cmp(last, s[0]) == Equivalent {
        UniqueAfterCovers(last, t, cmp);
        forall i | 0 < i < |s| ensures cmp(last, s[i]) == Equivalent || Represented(s[i], UniqueAfter(last, s, cmp), cmp) {
          assert s[i] == t[i - 1];
        }
      } else {
        UniqueAfterCovers(s[0], t, cmp);
        KeptHeadCovers(s, cmp);
      }
    }
  }

  /** [s[0]] + UniqueAfter(s[0], s[1..]) represents every element of s, given that the tail covers s[1..]. */
  lemma KeptHeadCovers<K(!new)>(s: seq<K>, cmp: (K, K) -> Ordering)
    requires TotalPreorder(cmp) && |s| > 0
    requires forall i :: 0 <= i < |s| - 1 ==>
      cmp(s[0], s[1..][i]) == Equivalent || Represented(s[1..][i], UniqueAfter(s[0], s[1..], cmp), cmp)
    ensures forall i :: 0 <= i < |s| ==> Represented(s[i], [s[0]] + UniqueAfter(s[0], s[1..], cmp), cmp)
  {
    var tail := UniqueAfter(s[0], s[1..], cmp);
    var u := [s[0]] + tail;
    assert cmp(s[0], u[0]) == Equivalent;
    forall i | 0 < i < |s| ensures Represented(s[i], u, cmp) {
      assert s[i] == s[1..][i - 1];
      if cmp(s[0], s[i]) == Equivalent {
        EquivalentSymmetric(cmp, s[0], s[i]);
        assert cmp(s[i], u[0]) == Equivalent;
      } else {
        var j :| 0 <= j < |tail| && cmp(s[i], tail[j]) == Equivalent;
        assert u[j + 1] == tail[j];
      }
    }
  }

  /**
   * std::unique on a sorted sequence leaves one representative of each
   * run of equivalents: sorted, free of equivalents, drawn from the input
   * and covering it.
   */
  lemma UniqueOfSorted<K(!new)>(s: seq<K>, cmp: (K, K) -> Ordering)
    requires TotalPreorder(cmp) && Sorted(s, cmp)
    ensures Sorted(Unique(s, cmp), cmp) && NoEquivalents(Unique(s, cmp), cmp)
    ensures multiset(Unique(s, cmp)) <= multiset(s) && |Unique(s, cmp)| <= |s|
    ensures forall i :: 0 <= i < |s| ==> Represented(s[i], Unique(s, cmp), cmp)
  {
    if |s| > 0 {
      var t := s[1..];
      var tail := UniqueAfter(s[0], t, cmp);
      var u := [s[0]] + tail;
      assert Unique(s, cmp) == u;
      assert s == [s[0]] + t;
      UniqueAfterOrder(s[0], t, cmp);
      UniqueAfterDrawn(s[0], t, cmp);
      UniqueAfterCovers(s[0], t, cmp);
      KeptHeadCovers(s, cmp);
      assert forall j :: 0 < j < |u| ==> u[j] == tail[j - 1];
    }
  }

  /** Removing a contiguous range keeps a sequence sorted, and free of equivalents. */
  lemma RemoveRangeKeepsOrder<K>(s: seq<K>, b: nat, e: nat, cmp: (K, K) -> Ordering)
    requires b <= e <= |s|
    ensures Sorted(s, cmp) ==> Sorted(s[..b] + s[e..], cmp)
    ensures NoEquivalents(s, cmp) ==> NoEquivalents(s[..b] + s[e..], cmp)
  {
    var r := s[..b] + s[e..];
    assert forall i :: 0 <= i < |r| ==> r[i] == s[if i < b then i else i + (e - b)];
  }
}
