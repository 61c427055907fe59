/**
 * The dynamic array: a heap block storage and an end position. Its
 * elements are the live prefix [0, endPos) of the owned block, and every
 * slot beyond it is raw memory. Iterators are indices into the block.
 * Allocation failure, the only error a mutator can raise here, is the
 * `ok == false` outcome.
 */
module Arrays {
  import opened Wrappers
  import opened RawStorage
  import opened Growth
  import opened NewStorage
  import opened BlockAlgorithms

  class Array<T> {
    const storage: BlockStorageNew<T>
    /** end_, as the number of live objects: the view always starts at the block start. */
    var endPos: nat
    ghost var Contents: seq<T>
    ghost var Repr: set<object>

    ghost predicate Valid()
      reads this, Repr
      ensures Valid() ==> this in Repr
    {
      && this in Repr && storage in Repr
      && Repr == {this, storage, storage.block}
      && Sound(storage.policy)
      && endPos == |Contents|
      && Constructed(storage.block[..], 0, endPos)
      && Holds(storage.block[..], 0, Contents)
    }

    /** An array without elements, owning no memory. */
    constructor (policy: Policy)
      requires Sound(policy)
      ensures Valid() && fresh(Repr)
      ensures Contents == [] && storage.policy == policy && storage.block.Length == 0
    {
      storage := new BlockStorageNew<T>(policy);
      endPos := 0;
      Contents := [];
      new;
      Repr := {this, storage, storage.block};
    }

    /**
     * The move constructor: starts empty, with the policy of `other`, and
     * swaps blocks with it, so that it owns the block and elements of
     * `other`, which is left empty and owning no memory.
     */
    constructor MoveFrom(other: Array<T>)
      requires other.Valid()
      modifies other.Repr
      ensures Valid() && other.Valid()
      ensures Contents == old(other.Contents) && storage.block == old(other.storage.block)
      ensures other.Contents == [] && other.storage.block.Length == 0
      ensures fresh(Repr - old(other.Repr)) && fresh(other.Repr - old(other.Repr))
      ensures Repr !! other.Repr
    {
      storage := new BlockStorageNew<T>(other.storage.policy);
      endPos := 0;
      Contents := [];
      new;
      Repr := {this, storage, storage.block};
      storage.Swap(other.storage);
      endPos, other.endPos := other.endPos, 0;
      Contents, other.Contents := other.Contents, [];
      Repr := {this, storage, storage.block};
      other.Repr := {other, other.storage, other.storage.block};
    }

    function Size(): (n: nat)
      reads this, Repr
      requires Valid()
      ensures n == |Contents|
    {
      endPos
    }

    /** capacity: the slots of the owned block, never fewer than the elements. */
    function Capacity(): (c: nat)
      reads this, Repr
      requires Valid()
      ensures c >= |Contents|
    {
      storage.block.Length
    }

    /** The elements, read out of the live prefix. */
    function Elements(): (vs: seq<T>)
      reads this, Repr
      requires Valid()
      ensures vs == Contents
    {
      HoldsUnique(storage.block[..], 0, ValuesIn(storage.block[..], 0, endPos), Contents);
      ValuesIn(storage.block[..], 0, endPos)
    }

    /** Element access. */
    function At(i: nat): (x: T)
      reads this, Repr
      requires Valid() && i < |Contents|
      ensures x == Contents[i]
    {
      storage.block[i].value
    }

    /** Assignment through an iterator: *(begin() + i) = x. */
    method Set(i: nat, x: T)
      requires Valid() && i < |Contents|
      modifies this, storage.block
      ensures Valid() && Repr == old(Repr)
      ensures Contents == old(Contents)[i := x]
    {
      Assign(storage.block, i, x);
      Contents := Contents[i := x];
    }

    /** std::iter_swap of the elements at i and j. */
    method Exchange(i: nat, j: nat)
      requires Valid() && i < |Contents| && j < |Contents|
      modifies this, storage.block
      ensures Valid() && Repr == old(Repr)
      ensures Contents == old(Contents)[i := old(Contents)[j]][j := old(Contents)[i]]
    {
      var x, y := At(i), At(j);
      Set(i, y);
      Set(j, x);
    }

    /** Assignment of vs over the first |vs| elements, as std::copy / std::move onto begin(). */
    method Overwrite(vs: seq<T>)
      requires Valid() && |vs| <= |Contents|
      modifies this, storage.block
      ensures Valid() && Repr == old(Repr)
      ensures Contents == vs + old(Contents)[|vs|..]
    {
      var _ := CopyOnto(vs, storage.block, 0);
      Contents := vs + Contents[|vs|..];
    }

    /**
     * reserve: grows the block only when it has fewer than n slots; on
     * success the capacity is at least n, and the elements never change.
     */
    method Reserve(n: nat) returns (ok: bool)
      requires Valid()
      modifies Repr
      ensures Valid() && fresh(Repr - old(Repr))
      ensures Contents == old(Contents)
      ensures ok ==> Capacity() >= n
      ensures n <= old(Capacity()) ==> ok && storage.block == old(storage.block)
      ensures ok && n > old(Capacity()) ==>
        Capacity() == storage.policy.growthSize(old(Capacity()), n - old(Capacity()))
      ensures !ok ==> storage.block == old(storage.block)
    {
      var cur := storage.block.Length;
      if n > cur {
        var r := storage.Reserve(n - cur, 0, endPos);
        if r.None? {
          return false;
        }
        endPos := r.value;
        Repr := {this, storage, storage.block};
      }
      ok := true;
    }

    /** shrink_to_fit: asks the policy for a block fitting the elements. */
    method ShrinkToFit() returns (ok: bool)
      requires Valid()
      modifies Repr
      ensures Valid() && fresh(Repr - old(Repr))
      ensures Contents == old(Contents)
      ensures ok ==> Capacity() == storage.policy.shrinkSize(old(Capacity()), |Contents|)
      ensures !ok ==> storage.block == old(storage.block)
    {
      var r := storage.ShrinkToFit(0, endPos);
      if r.None? {
        return false;
      }
      endPos := r.value;
      Repr := {this, storage, storage.block};
      ok := true;
    }

    /**
     * emplace_back: reserves room for one more element and constructs x at
     * the end. With spare capacity it cannot fail and does not reallocate.
     */
    method EmplaceBack(x: T) returns (ok: bool)
      requires Valid()
      modifies Repr
      ensures Valid() && fresh(Repr - old(Repr))
      ensures ok ==> Contents == old(Contents) + [x]
      ensures !ok ==> Contents == old(Contents) && storage.block == old(storage.block)
      ensures old(|Contents|) < old(Capacity()) ==> ok && storage.block == old(storage.block)
    {
      ok := Reserve(endPos + 1);
      if !ok {
        return;
      }
      Construct(storage.block, endPos, x);
      endPos := endPos + 1;
      Contents := Contents + [x];
    }

    /**
     * move_range(fromBegin, end, to): opens a gap of to - fromBegin slots at
     * fromBegin. The last elements are move-constructed into the raw slots
     * at the back, one at a time, and the rest are move-assigned backwards.
     * The gap keeps its moved-from objects.
     */
    method MoveRange(fromBegin: nat, fromEnd: nat, to: nat)
      requires Valid() && fromEnd == endPos && fromBegin <= to <= fromEnd
      requires endPos + (to - fromBegin) <= Capacity()
      modifies this, storage.block
      ensures Valid() && Repr == old(Repr)
      ensures Contents == old(Contents[..to] + Contents[fromBegin..])
    {
      var curEnd := endPos;
      var assignEnd := fromBegin + (curEnd - to);
      ghost var c := Contents;
      ConstructAtEnd(assignEnd);
      AssignBackward(fromBegin, assignEnd, curEnd, to, c);
    }

    /**
     * The construction loop of move_range: each element of [from, end) is
     * move-constructed at the end in turn, and the end advances with it, so
     * the array is its old contents followed by a copy of that tail.
     */
    method ConstructAtEnd(from: nat)
      requires Valid() && from <= endPos && endPos + (endPos - from) <= Capacity()
      modifies this, storage.block
      ensures Valid() && Repr == old(Repr)
      ensures Contents == old(Contents) + old(Contents)[from..]
    {
      ghost var c := Contents;
      var curEnd := endPos;
      var cur := from;
      while cur != curEnd
        invariant from <= cur <= curEnd == |c| && endPos == curEnd + (cur - from)
        invariant Valid() && Repr == old(Repr)
        invariant Contents == c + c[from..cur]
      {
        var x := storage.block[cur].value;
        assert x == Contents[cur];
        Construct(storage.block, endPos, x);
        endPos := endPos + 1;
        Contents := Contents + [x];
        assert c[from..cur + 1] == c[from..cur] + [c[cur]];
        cur := cur + 1;
      }
    }

    /**
     * The assignment step of move_range: std::move_backward of
     * [fromBegin, assignEnd) onto the slots ending at curEnd, once the
     * construction loop has appended c[assignEnd..] past the old end.
     */
    method AssignBackward(fromBegin: nat, assignEnd: nat, curEnd: nat, ghost to: nat, ghost c: seq<T>)
      requires curEnd == |c| && fromBegin <= to <= curEnd && assignEnd == fromBegin + (curEnd - to)
      requires Valid() && Contents == c + c[assignEnd..]
      modifies this, storage.block
      ensures Valid() && Repr == old(Repr)
      ensures Contents == c[..to] + c[fromBegin..]
    {
      ghost var a1 := storage.block[..];
      MoveBackward(storage.block, fromBegin, assignEnd, curEnd);
      ShiftedUp(a1, storage.block[..], c, fromBegin, to, assignEnd,
                curEnd - (assignEnd - fromBegin), assignEnd - fromBegin);
      Contents := c[..to] + c[fromBegin..];
    }

    /**
     * emplace: at the end it is emplace_back; elsewhere it reserves one
     * more slot, shifts the tail right by one and assigns x into the gap.
     * The result is the index of the new element.
     */
    method Emplace(index: nat, x: T) returns (ok: bool, r: nat)
      requires Valid() && index <= |Contents|
      modifies Repr
      ensures Valid() && fresh(Repr - old(Repr))
      ensures r == index
      ensures ok ==> Contents == old(Contents[..index]) + [x] + old(Contents[index..])
      ensures !ok ==> Contents == old(Contents) && storage.block == old(storage.block)
      ensures old(|Contents|) < old(Capacity()) ==> ok && storage.block == old(storage.block)
    {
      r := index;
      if index == endPos {
        ok := EmplaceBack(x);
        return;
      }
      ok := Reserve(endPos + 1);
      if !ok {
        return;
      }
      MoveRange(index, endPos, index + 1);
      Assign(storage.block, index, x);
      Contents := Contents[index := x];
    }

    /** pop_back: destroys the last element. */
    method PopBack()
      requires Valid() && |Contents| > 0
      modifies this, storage.block
      ensures Valid() && Repr == old(Repr)
      ensures Contents == old(Contents[..|Contents| - 1])
    {
      Destroy(storage.block, endPos - 1);
      endPos := endPos - 1;
      Contents := Contents[..endPos];
    }

    /**
     * erase: move-assigns the elements after pos one to the left and
     * destroys the last; the result, pos, is the position of the element
     * that followed the erased one.
     */
    method Erase(pos: nat) returns (r: nat)
      requires Valid() && pos < |Contents|
      modifies this, storage.block
      ensures Valid() && Repr == old(Repr)
      ensures r == pos && Contents == old(Contents[..pos] + Contents[pos + 1..])
    {
      ghost var a0 := storage.block[..];
      MoveForward(storage.block, pos + 1, endPos, pos);
      MovedDown(a0, storage.block[..], Contents, pos);
      Contents := Contents[..pos] + Contents[pos + 1..] + [Contents[|Contents| - 1]];
      PopBack();
      r := pos;
    }

    /**
     * erase_range: for a non-empty range, move-assigns the tail onto it and
     * destroys the now surplus objects at the end; the result is b.
     */
    method EraseRange(b: nat, e: nat) returns (r: nat)
      requires Valid() && b <= e <= |Contents|
      modifies this, storage.block
      ensures Valid() && Repr == old(Repr)
      ensures r == b && Contents == old(Contents[..b] + Contents[e..])
    {
      if b != e {
        ghost var a0 := storage.block[..];
        MoveForward(storage.block, e, endPos, b);
        ghost var a1 := storage.block[..];
        var n := e - b;
        DestroyRange(storage.block, endPos - n, endPos);
        ShiftedDown(a0, a1, storage.block[..], Contents, b, e);
        endPos := endPos - n;
        Contents := Contents[..b] + Contents[e..];
      }
      r := b;
    }

    /** clear: destroys every element and keeps the block. */
    method Clear()
      requires Valid()
      modifies this, storage.block
      ensures Valid() && Repr == old(Repr)
      ensures Contents == [] && Capacity() == old(Capacity())
    {
      DestroyRange(storage.block, 0, endPos);
      endPos := 0;
      Contents := [];
    }

    /**
     * append_range for input iterators, as written: push_back of each
     * element in turn. Allocation can fail part-way, leaving a prefix of vs
     * appended. The result is the position of the last element appended
     * (the old end when vs is empty), not the first one.
     */
    method AppendRangeInputAsWritten(vs: seq<T>) returns (ok: bool, r: nat)
      requires Valid()
      modifies Repr
      ensures Valid() && fresh(Repr - old(Repr))
      ensures |old(Contents)| <= |Contents| <= |old(Contents)| + |vs|
      ensures Contents == old(Contents) + vs[..|Contents| - |old(Contents)|]
      ensures ok ==> Contents == old(Contents) + vs
      ensures ok ==> r == if vs == [] then |old(Contents)| else |Contents| - 1
    {
      r := endPos;
      var k := 0;
      ok := true;
      while k < |vs|
        invariant 0 <= k <= |vs|
        invariant Valid() && fresh(Repr - old(Repr))
        invariant Contents == old(Contents) + vs[..k]
        invariant r == if k == 0 then |old(Contents)| else |Contents| - 1
      {
        ok := EmplaceBack(vs[k]);
        if !ok {
          return;
        }
        r := endPos - 1;
        k := k + 1;
      }
      assert vs[..k] == vs;
    }

    /**
     * append_range for forward iterators: one reservation for all of vs,
     * then each element is constructed at the end and end_ advanced. With
     * the reservation made nothing can fail, so the result is all or
     * nothing; it is the position of the first appended element.
     */
    method AppendRange(vs: seq<T>) returns (ok: bool, r: nat)
      requires Valid()
      modifies Repr
      ensures Valid() && fresh(Repr - old(Repr))
      ensures r == |old(Contents)|
      ensures ok ==> Contents == old(Contents) + vs
      ensures !ok ==> Contents == old(Contents) && storage.block == old(storage.block)
      ensures |old(Contents)| + |vs| <= old(Capacity()) ==> ok && storage.block == old(storage.block)
    {
      r := endPos;
      ok := Reserve(endPos + |vs|);
      if !ok {
        return;
      }
      ghost var reserved := Repr;
      var k := 0;
      while k < |vs|
        invariant 0 <= k <= |vs|
        invariant Valid() && Repr == reserved
        invariant endPos + (|vs| - k) <= Capacity()
        invariant Contents == old(Contents) + vs[..k]
      {
        Construct(storage.block, endPos, vs[k]);
        endPos := endPos + 1;
        Contents := Contents + [vs[k]];
        k := k + 1;
      }
      assert vs[..k] == vs;
    }

    /**
     * std::rotate over [first, last) with the given middle: the elements of
     * [middle, last) move in front of those of [first, middle).
     */
    method Rotate(first: nat, middle: nat, last: nat)
      requires Valid() && first <= middle <= last <= |Contents|
      modifies this, storage.block
      ensures Valid() && Repr == old(Repr)
      ensures Contents == old(Contents[..first] + Contents[middle..last] + Contents[first..middle] + Contents[last..])
    {
      ghost var c := Contents;
      ghost var target := c[..first] + c[middle..last] + c[first..middle] + c[last..];
      var rotated := ValuesIn(storage.block[..], middle, last) + ValuesIn(storage.block[..], first, middle);
      assert target == c[..first] + rotated + c[first + |rotated|..] by {
        ValuesOfHeld(storage.block[..], c, middle, last);
        ValuesOfHeld(storage.block[..], c, first, middle);
      }
      ghost var before := storage.block[..];
      var _ := CopyOnto(rotated, storage.block, first);
      HoldsSplice(before, storage.block[..], c, first, rotated);
      Contents := target;
    }

    /**
     * insert_range for forward iterators: appends vs, then rotates it into
     * place before index; the result is index.
     */
    method InsertRange(index: nat, vs: seq<T>) returns (ok: bool, r: nat)
      requires Valid() && index <= |Contents|
      modifies Repr
      ensures Valid() && fresh(Repr - old(Repr))
      ensures r == index
      ensures ok ==> Contents == old(Contents[..index]) + vs + old(Contents[index..])
      ensures !ok ==> Contents == old(Contents) && storage.block == old(storage.block)
    {
      var newBegin;
      ok, newBegin := AppendRange(vs);
      if ok {
        Rotate(index, newBegin, endPos);
      }
      r := index;
    }

    /**
     * append_range for input iterators with the documented result: the
     * position of the first appended element, which is the old end.
     */
    method AppendRangeInput(vs: seq<T>) returns (ok: bool, r: nat)
      requires Valid()
      modifies Repr
      ensures Valid() && fresh(Repr - old(Repr))
      ensures |old(Contents)| <= |Contents| <= |old(Contents)| + |vs|
      ensures Contents == old(Contents) + vs[..|Contents| - |old(Contents)|]
      ensures ok ==> Contents == old(Contents) + vs
      ensures r == |old(Contents)| && (|Contents| > r ==> Contents[r] == vs[0])
    {
      r := endPos;
      var last;
      ok, last := AppendRangeInputAsWritten(vs);
    }

    /**
     * insert_range for input iterators, as written: insert of each element
     * in turn, each after the previous one. As in AppendRangeInputAsWritten
     * a failure leaves a prefix of vs inserted. The result is the position
     * of the array's last element, which is an inserted one only when
     * inserting at the end (InputRangeResultIsLast).
     */
    method InsertRangeInputAsWritten(index: nat, vs: seq<T>) returns (ok: bool, r: nat)
      requires Valid() && index <= |Contents|
      modifies Repr
      ensures Valid() && fresh(Repr - old(Repr))
      ensures |old(Contents)| <= |Contents| <= |old(Contents)| + |vs|
      ensures Contents == old(Contents[..index]) + vs[..|Contents| - |old(Contents)|] + old(Contents[index..])
      ensures ok ==> Contents == old(Contents[..index]) + vs + old(Contents[index..])
      ensures ok ==> r == if vs == [] then |old(Contents)| else |Contents| - 1
    {
      r := endPos;
      var pos := index;
      var k := 0;
      ok := true;
      while k < |vs|
        invariant 0 <= k <= |vs| && pos == index + k
        invariant Valid() && fresh(Repr - old(Repr))
        invariant Contents == old(Contents[..index]) + vs[..k] + old(Contents[index..])
        invariant r == if k == 0 then |old(Contents)| else |Contents| - 1
      {
        ok, pos := Emplace(pos, vs[k]);
        if !ok {
          return;
        }
        r := endPos - 1;
        pos := pos + 1;
        k := k + 1;
      }
      assert vs[..k] == vs;
    }

    /**
     * insert_range for input iterators with the documented result: the
     * position of the first inserted element, or index when vs is empty.
     */
    method InsertRangeInput(index: nat, vs: seq<T>) returns (ok: bool, r: nat)
      requires Valid() && index <= |Contents|
      modifies Repr
      ensures Valid() && fresh(Repr - old(Repr))
      ensures |old(Contents)| <= |Contents| <= |old(Contents)| + |vs|
      ensures Contents == old(Contents[..index]) + vs[..|Contents| - |old(Contents)|] + old(Contents[index..])
      ensures ok ==> Contents == old(Contents[..index]) + vs + old(Contents[index..])
      ensures r == index && (|Contents| > |old(Contents)| ==> Contents[r] == vs[0])
    {
      var last;
      ok, last := InsertRangeInputAsWritten(index, vs);
      r := index;
    }

    /**
     * swap: exchanges the blocks of the two storages and with them the
     * elements.
     */
    method Swap(other: Array<T>)
      requires Valid() && other.Valid() && Repr !! other.Repr
      modifies Repr, other.Repr
      ensures Valid() && other.Valid() && Repr !! other.Repr
      ensures Repr + other.Repr == old(Repr + other.Repr)
      ensures Contents == old(other.Contents) && other.Contents == old(Contents)
      ensures storage.block == old(other.storage.block) && other.storage.block == old(storage.block)
    {
      storage.Swap(other.storage);
      endPos, other.endPos := other.endPos, endPos;
      Contents, other.Contents := other.Contents, Contents;
      Repr := {this, storage, storage.block};
      other.Repr := {other, other.storage, other.storage.block};
    }

    /**
     * Copy assignment: copy_assign, then end_ follows the new view. On
     * failure nothing changes. `other` may be this array itself.
     */
    method CopyAssign(other: Array<T>) returns (ok: bool)
      requires Valid() && other.Valid() && (other == this || Repr !! other.Repr)
      requires storage.policy == other.storage.policy
      modifies Repr
      ensures Valid() && fresh(Repr - old(Repr))
      ensures ok ==> Contents == old(other.Contents) && fresh(storage.block)
      ensures !ok ==> Contents == old(Contents) && storage.block == old(storage.block)
      ensures other != this ==> unchanged(other.Repr)
    {
      ghost var oc := other.Contents;
      HoldsUnique(other.storage.block[..], 0, ValuesIn(other.storage.block[..], 0, other.endPos), oc);
      var r := BlockAlgorithms.CopyAssign(storage, 0, endPos, other.storage, 0, other.endPos);
      if r.None? {
        return false;
      }
      endPos := r.value;
      Contents := oc;
      Repr := {this, storage, storage.block};
      ok := true;
    }

    /**
     * Move assignment: move_assign takes over the block and elements of
     * `other`, whose end_ is then reset to its (empty) block start.
     */
    method MoveAssign(other: Array<T>)
      requires Valid() && other.Valid() && Repr !! other.Repr
      modifies Repr, other, other.storage
      ensures Valid() && other.Valid() && Repr !! other.Repr
      ensures Contents == old(other.Contents) && storage.block == old(other.storage.block)
      ensures other.Contents == [] && fresh(other.storage.block) && other.storage.block.Length == 0
    {
      var lo, hi := BlockAlgorithms.MoveAssign(storage, 0, endPos, other.storage, 0, other.endPos);
      endPos := hi;
      other.endPos := 0;
      Contents, other.Contents := other.Contents, [];
      Repr := {this, storage, storage.block};
      other.Repr := {other, other.storage, other.storage.block};
    }

    /**
     * assign(input_view), for a view that hands over its storage: the
     * view's block and elements are taken over as by move assignment and
     * normalised to the front.
     */
    method AssignView(source: BlockStorageNew<T>, lo: nat, hi: nat)
      requires Valid() && source !in Repr && source.block !in Repr
      requires Constructed(source.block[..], lo, hi)
      modifies Repr, source, source.block
      ensures Valid()
      ensures Contents == old(ValuesIn(source.block[..], lo, hi))
      ensures storage.block == old(source.block)
      ensures fresh(source.block) && source.block.Length == 0
    {
      ghost var vs := ValuesIn(source.block[..], lo, hi);
      var newLo, newHi := BlockAlgorithms.MoveAssign(storage, 0, endPos, source, lo, hi);
      ghost var adopted := storage.block[..];
      assert Holds(adopted, newLo, vs);
      var n := MoveToFront(storage.block, newLo, newHi);
      assert Holds(storage.block[..], 0, vs) by {
        forall k | 0 <= k < |vs| ensures storage.block[k] == Live(vs[k]) {
          assert storage.block[k] == adopted[newLo + k];
        }
      }
      endPos := n;
      Contents := vs;
      Repr := {this, storage, storage.block};
    }

    /**
     * assign_range: assign_copy of vs into the storage, then end_ follows
     * the new view. When the allocation fails the old elements have
     * already been destroyed, and the array is left empty.
     */
    method AssignRange(vs: seq<T>) returns (ok: bool)
      requires Valid()
      modifies Repr
      ensures Valid() && fresh(Repr - old(Repr))
      ensures ok ==> Contents == vs
      ensures !ok ==> Contents == [] && storage.block == old(storage.block)
      ensures |vs| <= old(Capacity()) ==> ok && storage.block == old(storage.block)
    {
      var r := AssignCopy(storage, 0, endPos, vs);
      if r.None? {
        endPos := 0;
        Contents := [];
        return false;
      }
      endPos := r.value;
      Contents := vs;
      Repr := {this, storage, storage.block};
      ok := true;
    }

    /**
     * assign_range exactly as written: on allocation failure end_ is
     * assigned from the returned view only on success, so it keeps its old
     * value while every slot it covers is raw memory.
     */
    method AssignRangeAsWritten(vs: seq<T>) returns (ok: bool)
      requires Valid()
      modifies Repr
      ensures ok ==> Valid() && fresh(Repr - old(Repr)) && Contents == vs
      ensures !ok ==> endPos == old(endPos) && storage.block == old(storage.block)
      ensures !ok ==> RawIn(storage.block[..], 0, storage.block.Length)
    {
      var r := AssignCopy(storage, 0, endPos, vs);
      if r.None? {
        return false;
      }
      endPos := r.value;
      Contents := vs;
      Repr := {this, storage, storage.block};
      ok := true;
    }
  }

  /** The values read out of a range of a block holding vs are that slice of vs. */
  lemma ValuesOfHeld<T>(a: seq<Slot<T>>, vs: seq<T>, lo: nat, hi: nat)
    requires Holds(a, 0, vs) && lo <= hi <= |vs|
    ensures LiveIn(a, lo, hi) && ValuesIn(a, lo, hi) == vs[lo..hi]
  {
    assert LiveIn(a, lo, hi) by {
      forall i | lo <= i < hi ensures a[i].Live? {
        assert a[0 + i] == Live(vs[i]);
      }
    }
  }

  /**
   * The slots erase leaves before its pop_back: after the tail is
   * move-assigned one place down onto pos, the block holds the elements
   * without pos, followed by the moved-from last element.
   */
  lemma MovedDown<T>(a0: seq<Slot<T>>, a1: seq<Slot<T>>, c: seq<T>, pos: nat)
    requires Constructed(a0, 0, |c|) && Holds(a0, 0, c) && pos < |c| && |a1| == |a0|
    requires forall i :: pos <= i < |c| - 1 ==> a1[i] == a0[i + 1]
    requires forall i :: 0 <= i < |a1| && !(pos <= i < |c| - 1) ==> a1[i] == a0[i]
    ensures Constructed(a1, 0, |c|) && Holds(a1, 0, c[..pos] + c[pos + 1..] + [c[|c| - 1]])
  {
    var r := c[..pos] + c[pos + 1..] + [c[|c| - 1]];
    forall k | 0 <= k < |r| ensures a1[0 + k] == Live(r[k]) {
      if k < pos {
        assert a1[k] == a0[0 + k];
      } else if k < |c| - 1 {
        assert r[k] == c[k + 1] && a1[k] == a0[0 + (k + 1)];
      } else {
        assert a1[k] == a0[0 + k];
      }
    }
    forall k | |c| <= k < |a1| ensures a1[k] == Raw {
      assert a1[k] == a0[k];
    }
  }

  /**
   * The slots erase_range leaves: after the tail [e, end) is move-assigned
   * onto b and the last e - b objects are destroyed, the block holds the
   * elements without [b, e), and raw memory after them.
   */
  lemma ShiftedDown<T>(a0: seq<Slot<T>>, a1: seq<Slot<T>>, a2: seq<Slot<T>>, c: seq<T>, b: nat, e: nat)
    requires Constructed(a0, 0, |c|) && Holds(a0, 0, c) && b <= e <= |c|
    requires |a1| == |a0| && |a2| == |a0|
    requires forall i :: b <= i < b + (|c| - e) ==> a1[i] == a0[e + (i - b)]
    requires forall i :: 0 <= i < |a1| && !(b <= i < b + (|c| - e)) ==> a1[i] == a0[i]
    requires forall i :: 0 <= i < |a2| ==> a2[i] == if |c| - (e - b) <= i < |c| then Raw else a1[i]
    ensures Constructed(a2, 0, |c| - (e - b)) && Holds(a2, 0, c[..b] + c[e..])
  {
    var r := c[..b] + c[e..];
    forall k | 0 <= k < |r| ensures a2[0 + k] == Live(r[k]) {
      assert a2[k] == a1[k];
      if k < b {
        assert a1[k] == a0[0 + k];
      } else {
        assert r[k] == c[e + (k - b)] && a1[k] == a0[0 + (e + (k - b))];
      }
    }
    forall k | |r| <= k < |a2| ensures a2[k] == Raw {
      if k >= |c| {
        assert a2[k] == a1[k] == a0[k];
      }
    }
  }

  /**
   * The assignment step of MoveRange on the slots: a1 holds c followed by
   * c[src..], and a2 has [fromBegin, src) moved backward onto [to, |c|);
   * together they hold c with c[fromBegin..to) duplicated.
   */
  lemma ShiftedUp<T>(a1: seq<Slot<T>>, a2: seq<Slot<T>>, c: seq<T>,
                     fromBegin: nat, to: nat, src: nat, at: nat, n: nat)
    requires fromBegin <= to <= |c| && src == fromBegin + (|c| - to) && at == to && n == |c| - to
    requires Constructed(a1, 0, |c| + (|c| - src)) && Holds(a1, 0, c + c[src..])
    requires a2 == CopiedTo(a1, fromBegin, at, n)
    ensures Constructed(a2, 0, |c| + (|c| - src)) && Holds(a2, 0, c[..to] + c[fromBegin..])
  {
    var r, e := c[..to] + c[fromBegin..], c + c[src..];
    forall k | 0 <= k < |a2| ensures a2[k] == if k < |r| then Live(r[k]) else Raw {
      if k < to {
        assert a2[k] == a1[k] && a1[0 + k] == Live(e[k]);
      } else if k < |c| {
        var j := fromBegin + (k - at);
        assert a2[k] == a1[j] && a1[0 + j] == Live(e[j]);
      } else if k < |r| {
        assert a2[k] == a1[k] && a1[0 + k] == Live(e[k]);
        assert e[k] == c[src + (k - |c|)];
      } else {
        assert a2[k] == a1[k];
      }
    }
  }

  /**
   * The state AssignRangeAsWritten leaves after a failed allocation is not
   * an array: a non-zero end over raw memory.
   */
  lemma StaleEndIsInvalid<T>(a: Array<T>)
    requires 0 < a.endPos <= a.storage.block.Length
    requires RawIn(a.storage.block[..], 0, a.storage.block.Length)
    ensures !a.Valid()
  {
    assert a.storage.block[0] == Raw;
  }

  /**
   * The result of the input-iterator insert_range as written misses the
   * inserted elements: when InsertRangeInputAsWritten succeeds with a
   * non-empty vs before an existing element (its postconditions are the
   * hypotheses here), the returned position holds the old last element,
   * while vs[0] sits at index. With the array [a] and vs == [x], a != x,
   * the returned position holds a rather than x.
   */
  lemma InputRangeResultIsLast<T>(before: seq<T>, after: seq<T>, index: nat, vs: seq<T>, r: nat)
    requires index < |before| && |vs| > 0
    requires after == before[..index] + vs + before[index..]
    requires r == if vs == [] then |before| else |after| - 1
    ensures r < |after| && after[r] == before[|before| - 1] && after[index] == vs[0]
    ensures before[|before| - 1] != vs[0] ==> after[r] != vs[0]
  {
  }
}
