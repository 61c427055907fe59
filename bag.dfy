/**
 * The bag: an unordered collection over the dynamic array. Insertion
 * appends; erasure does not keep the order, it moves the doomed elements
 * to the end of the array and truncates there, so that the remaining
 * multiset is what the contracts promise.
 */
module Bags {
  import opened Growth
  import opened Arrays

  class Bag<T> {
    const arr: Array<T>
    ghost var Repr: set<object>

    ghost predicate Valid()
      reads this, Repr
      ensures Valid() ==> this in Repr
    {
      && this in Repr && arr in Repr
      && Repr == {this} + arr.Repr
      && this !in arr.Repr
      && arr.Valid()
    }

    /** The elements, in the order of the underlying array. */
    ghost function Items(): seq<T>
      reads this, arr
    {
      arr.Contents
    }

    /** A bag without elements. */
    constructor (policy: Policy)
      requires Sound(policy)
      ensures Valid() && fresh(Repr) && Items() == []
    {
      arr := new Array<T>(policy);
      new;
      Repr := {this} + arr.Repr;
    }

    /** emplace / insert: emplace_back on the array; the result is the new element's position. */
    method Emplace(x: T) returns (ok: bool, r: nat)
      requires Valid()
      modifies Repr
      ensures Valid() && fresh(Repr - old(Repr))
      ensures ok ==> Items() == old(Items()) + [x] && r == |old(Items())| && Items()[r] == x
      ensures ok ==> multiset(Items()) == multiset(old(Items())) + multiset{x}
      ensures !ok ==> Items() == old(Items())
    {
      r := arr.Size();
      ok := arr.EmplaceBack(x);
      Repr := {this} + arr.Repr;
    }

    /**
     * insert_range: append_range on the array, so the elements go to the
     * end in order; the result is the first inserted position, which is
     * the end when vs is empty.
     */
    method InsertRange(vs: seq<T>) returns (ok: bool, r: nat)
      requires Valid()
      modifies Repr
      ensures Valid() && fresh(Repr - old(Repr))
      ensures r == |old(Items())|
      ensures ok ==> Items() == old(Items()) + vs
      ensures ok ==> multiset(Items()) == multiset(old(Items())) + multiset(vs)
      ensures !ok ==> Items() == old(Items())
    {
      ok, r := arr.AppendRange(vs);
      Repr := {this} + arr.Repr;
    }

    /** clear: no element is left. */
    method Clear()
      requires Valid()
      modifies Repr
      ensures Valid() && Repr == old(Repr)
      ensures Items() == [] && multiset(Items()) == multiset{}
    {
      arr.Clear();
    }

    /**
     * erase: swaps the element with the last one unless it is the last,
     * then pops the back. The result is pos, which now holds the former
     * last element unless pos was the last position.
     */
    method Erase(pos: nat) returns (r: nat)
      requires Valid() && pos < |Items()|
      modifies Repr
      ensures Valid() && Repr == old(Repr)
      ensures r == pos && Items() == SwapRemove(old(Items()), pos)
    {
      var last := arr.Size() - 1;
      if pos != last {
        arr.Exchange(pos, last);
      }
      arr.PopBack();
      r := pos;
    }

    /**
     * erase_range: brings the doomed range [b, e) to the end of the array
     * and erases the array from there. When it already ends at the end
     * nothing moves; when the elements after it are no more than the
     * range, they are moved down onto it; otherwise the range is swapped
     * with as many elements from the end. The result is b.
     */
    method EraseRange(b: nat, e: nat) returns (r: nat)
      requires Valid() && b <= e <= |Items()|
      modifies Repr
      ensures Valid() && Repr == old(Repr)
      ensures r == b && Items() == RangeErased(old(Items()), b, e)
    {
      var n := arr.Size();
      var atEnd := PositionAtEnd(b, e);
      assert Items()[..atEnd] + Items()[n..] == Items()[..atEnd];
      var _ := arr.EraseRange(atEnd, n);
      r := b;
    }

    /**
     * The position_at_end step of erase_range: moves the elements to keep
     * in front of the ones to remove and returns where the latter start,
     * so that the elements before that position are RangeErased.
     */
    method PositionAtEnd(b: nat, e: nat) returns (atEnd: nat)
      requires Valid() && b <= e <= |Items()|
      modifies Repr
      ensures Valid() && Repr == old(Repr)
      ensures |Items()| == old(|Items()|) && atEnd <= |Items()|
      ensures Items()[..atEnd] == RangeErased(old(Items()), b, e)
    {
      ghost var c := Items();
      var n := arr.Size();
      var count := e - b;
      var distance := n - e;
      if distance == 0 {
        atEnd := b;
        ArrangedPrefix(c, Items(), b, e, atEnd);
      } else if distance <= count {
        MoveTailDown(b, e);
        atEnd := b + distance;
        ArrangedPrefix(c, Items(), b, e, atEnd);
      } else {
        SwapWithTail(b, e);
        atEnd := n - count;
        ArrangedPrefix(c, Items(), b, e, atEnd);
      }
    }

    /** std::move of [e, end) onto b, for a tail no longer than [b, e). */
    method MoveTailDown(b: nat, e: nat)
      requires Valid() && b <= e <= |Items()| && |Items()| - e <= e - b
      modifies Repr
      ensures Valid() && Repr == old(Repr)
      ensures Items() == old(Items()[..b] + Items()[e..] + Items()[b + (|Items()| - e)..])
    {
      ghost var c := Items();
      var n := arr.Size();
      var i := 0;
      while i < n - e
        invariant 0 <= i <= n - e
        invariant Valid() && Repr == old(Repr)
        invariant Items() == MovedPrefix(c, b, e, i)
      {
        MoveOneDown(c, b, e, i);
        i := i + 1;
      }
      MovedAll(c, b, e);
    }

    /** One step of the std::move in MoveTailDown: the element at e + i is assigned to b + i. */
    method MoveOneDown(ghost c: seq<T>, b: nat, e: nat, i: nat)
      requires b <= e && e + i < |c| && |c| - e <= e - b
      requires Valid() && Items() == MovedPrefix(c, b, e, i)
      modifies Repr
      ensures Valid() && Repr == old(Repr)
      ensures Items() == MovedPrefix(c, b, e, i + 1)
    {
      MoveDownStep(c, b, e, i);
      var x := arr.At(e + i);
      arr.Set(b + i, x);
    }

    /** std::swap_ranges of [b, e) with the last e - b elements, which come after it. */
    method SwapWithTail(b: nat, e: nat)
      requires Valid() && b <= e <= |Items()| - (e - b)
      modifies Repr
      ensures Valid() && Repr == old(Repr)
      ensures Items() == old(Items()[..b] + Items()[|Items()| - (e - b)..] + Items()[e..|Items()| - (e - b)] + Items()[b..e])
    {
      var n := arr.Size();
      var t := n - (e - b);
      var i := 0;
      while i < e - b
        invariant 0 <= i <= e - b
        invariant Valid() && Repr == old(Repr)
        invariant Items() == SwappedPrefix(old(Items()), b, t, i)
      {
        SwapOne(old(Items()), b, t, i);
        i := i + 1;
      }
      SwappedPrefixDone(old(Items()), b, e, t, i);
    }

    /** One step of the std::swap_ranges in SwapWithTail: positions b + i and t + i trade elements. */
    method SwapOne(ghost c: seq<T>, b: nat, t: nat, i: nat)
      requires b + i < t && t + i < |c|
      requires Valid() && Items() == SwappedPrefix(c, b, t, i)
      modifies Repr
      ensures Valid() && Repr == old(Repr)
      ensures Items() == SwappedPrefix(c, b, t, i + 1)
    {
      SwappedPrefixStep(c, b, t, i, Items());
      arr.Exchange(b + i, t + i);
    }
  }

  /** std::move of the tail [e, |c|) down to b after its first i steps. */
  function MovedPrefix<T>(c: seq<T>, b: nat, e: nat, i: nat): (r: seq<T>)
    requires b <= e && e + i <= |c|
    ensures |r| == |c|
  {
    c[..b] + c[e..e + i] + c[b + i..]
  }

  /** One more step of the std::move in MoveTailDown overwrites position b + i with c[e + i]. */
  lemma MoveDownStep<T>(c: seq<T>, b: nat, e: nat, i: nat)
    requires b <= e && e + i < |c| && |c| - e <= e - b
    ensures MovedPrefix(c, b, e, i)[e + i] == c[e + i]
    ensures MovedPrefix(c, b, e, i)[b + i := c[e + i]] == MovedPrefix(c, b, e, i + 1)
  {
    var s, t := MovedPrefix(c, b, e, i), MovedPrefix(c, b, e, i + 1);
    forall k | 0 <= k < |c| ensures s[b + i := c[e + i]][k] == t[k] {
      if k < b {
        assert s[k] == c[k] == t[k];
      } else if k < b + i {
        assert s[k] == c[e + (k - b)] == t[k];
      } else if k > b + i {
        assert s[k] == c[k] == t[k];
      }
    }
  }

  /** Once the whole tail is moved, the state is the one MoveTailDown promises. */
  lemma MovedAll<T>(c: seq<T>, b: nat, e: nat)
    requires b <= e <= |c|
    ensures MovedPrefix(c, b, e, |c| - e) == c[..b] + c[e..] + c[b + (|c| - e)..]
  {
    assert c[e..e + (|c| - e)] == c[e..];
  }

  /** swap_ranges of [b, b + count) with [t, t + count) after its first i steps. */
  function SwappedPrefix<T>(c: seq<T>, b: nat, t: nat, i: nat): seq<T>
    requires b + i <= t && t + i <= |c|
  {
    seq(|c|, k requires 0 <= k < |c| =>
      if b <= k < b + i then c[t + (k - b)] else if t <= k < t + i then c[b + (k - t)] else c[k])
  }

  /** One more step of swap_ranges exchanges the next pair. */
  lemma SwappedPrefixStep<T>(c: seq<T>, b: nat, t: nat, i: nat, cur: seq<T>)
    requires b + i < t && t + i < |c| && cur == SwappedPrefix(c, b, t, i)
    ensures cur[b + i := cur[t + i]][t + i := cur[b + i]] == SwappedPrefix(c, b, t, i + 1)
  {
    assert cur[b + i] == c[b + i] && cur[t + i] == c[t + i];
  }

  /** All steps done: the range and the tail have changed places. */
  lemma SwappedPrefixDone<T>(c: seq<T>, b: nat, e: nat, t: nat, i: nat)
    requires b <= e && i == e - b && t == |c| - i && e <= t
    ensures SwappedPrefix(c, b, t, i) == c[..b] + c[t..] + c[e..t] + c[b..e]
  {
  }

  /** The sequence erase leaves: the last element moved into pos, then the last position dropped. */
  function SwapRemove<T>(c: seq<T>, pos: nat): seq<T>
    requires pos < |c|
  {
    c[pos := c[|c| - 1]][..|c| - 1]
  }

  /**
   * erase removes exactly one copy of the element at pos: one element
   * fewer, the former last element now at pos, every other position kept.
   */
  lemma SwapRemoveProperties<T>(c: seq<T>, pos: nat)
    requires pos < |c|
    ensures |SwapRemove(c, pos)| == |c| - 1
    ensures multiset(SwapRemove(c, pos)) == multiset(c) - multiset{c[pos]}
    ensures pos < |c| - 1 ==> SwapRemove(c, pos)[pos] == c[|c| - 1]
    ensures forall i :: 0 <= i < |c| - 1 && i != pos ==> SwapRemove(c, pos)[i] == c[i]
  {
    SwapRemoveMultiset(c, pos);
  }

  /** The multiset half of SwapRemoveProperties. */
  lemma SwapRemoveMultiset<T>(c: seq<T>, pos: nat)
    requires pos < |c|
    ensures multiset(SwapRemove(c, pos)) + multiset{c[pos]} == multiset(c)
  {
    var n := |c|;
    var d := c[pos := c[n - 1]];
    DropLast(d);
    UpdateMultiset(c, pos, c[n - 1]);
    Cancel(multiset(SwapRemove(c, pos)) + multiset{c[pos]}, multiset(c), c[n - 1]);
  }

  /** The multiset of a non-empty sequence is that of all but its last element, plus the last. */
  lemma DropLast<T>(d: seq<T>)
    requires |d| > 0
    ensures multiset(d) == multiset(d[..|d| - 1]) + multiset{d[|d| - 1]}
  {
    assert d == d[..|d| - 1] + [d[|d| - 1]];
  }

  /** Replacing element i by x trades one copy of s[i] for one of x. */
  lemma UpdateMultiset<T>(s: seq<T>, i: nat, x: T)
    requires i < |s|
    ensures multiset(s[i := x]) + multiset{s[i]} == multiset(s) + multiset{x}
  {
    assert s == s[..i] + [s[i]] + s[i + 1..];
    assert s[i := x] == s[..i] + [x] + s[i + 1..];
  }

  /** One copy of y can be taken off both sides. */
  lemma Cancel<T>(a: multiset<T>, b: multiset<T>, y: T)
    requires a + multiset{y} == b + multiset{y}
    ensures a == b
  {
    assert forall z :: a[z] == (a + multiset{y})[z] - multiset{y}[z];
  }

  /**
   * The sequence erase_range leaves, by the three placements of the
   * doomed range: already at the end, overwritten by the shorter tail, or
   * swapped with the last e - b elements.
   */
  function RangeErased<T>(c: seq<T>, b: nat, e: nat): seq<T>
    requires b <= e <= |c|
  {
    var n, count := |c|, e - b;
    if n - e == 0 then c[..b]
    else if n - e <= count then c[..b] + c[e..]
    else c[..b] + c[n - count..] + c[e..n - count]
  }

  /**
   * erase_range removes exactly the elements of [b, e): e - b fewer, the
   * remaining multiset is the old one minus the range, and the elements
   * before b stay in place.
   */
  lemma RangeErasedProperties<T>(c: seq<T>, b: nat, e: nat)
    requires b <= e <= |c|
    ensures |RangeErased(c, b, e)| == |c| - (e - b)
    ensures multiset(RangeErased(c, b, e)) + multiset(c[b..e]) == multiset(c)
    ensures RangeErased(c, b, e)[..b] == c[..b]
  {
    var n, count := |c|, e - b;
    if n - e == 0 {
      assert c == c[..b] + c[b..e];
    } else if n - e <= count {
      TakeOutMiddle(c[..b], c[b..e], c[e..], []);
      assert c == c[..b] + c[b..e] + c[e..] + [];
      assert RangeErased(c, b, e) == c[..b] + [] + c[e..];
    } else {
      var mid, last := c[e..n - count], c[n - count..];
      TakeOutMiddle(c[..b], c[b..e], mid, last);
      assert c == c[..b] + c[b..e] + mid + last;
      assert RangeErased(c, b, e) == c[..b] + last + mid;
    }
  }

  /** Taking m out of a + m + x + y and exchanging x and y leaves the rest of the multiset. */
  lemma TakeOutMiddle<T>(a: seq<T>, m: seq<T>, x: seq<T>, y: seq<T>)
    ensures multiset(a + y + x) + multiset(m) == multiset(a + m + x + y)
  {
    calc {
      multiset(a + m + x + y);
      multiset(a) + multiset(m) + multiset(x) + multiset(y);
      multiset(a + y + x) + multiset(m);
    }
  }

  /** The prefix left after moving the doomed range to the end is RangeErased. */
  lemma ArrangedPrefix<T>(c: seq<T>, arranged: seq<T>, b: nat, e: nat, atEnd: nat)
    requires b <= e <= |c| && |arranged| == |c|
    requires |c| - e == 0 ==> arranged == c && atEnd == b
    requires 0 < |c| - e <= e - b ==> arranged == c[..b] + c[e..] + c[b + (|c| - e)..] && atEnd == b + (|c| - e)
    requires |c| - e > e - b ==> arranged == c[..b] + c[|c| - (e - b)..] + c[e..|c| - (e - b)] + c[b..e] && atEnd == |c| - (e - b)
    ensures atEnd <= |c| && arranged[..atEnd] == RangeErased(c, b, e)
  {
  }
}
