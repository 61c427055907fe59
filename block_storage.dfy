/**
 * The algorithms written once over any block storage: normalising the
 * live range to the front of the block, clearing, assigning from a range
 * or from copies of one object, and move and copy assignment of a whole
 * storage. They are stated over the heap storage, the one the containers
 * use.
 */
module BlockAlgorithms {
  import opened Wrappers
  import opened RawStorage
  import opened Growth
  import opened NewStorage

  /**
   * move_to_front: moves the live range [lo, hi) to the start of the block,
   * in order. Three cases: already at the front; the destination does not
   * overlap the source (destructive move); or it overlaps, and then the
   * first lo objects are move-constructed into the raw front, the rest are
   * move-assigned down and the trailing objects destroyed.
   */
  method MoveToFront<T>(a: array<Slot<T>>, lo: nat, hi: nat) returns (n: nat)
    requires Constructed(a[..], lo, hi)
    modifies a
    ensures n == hi - lo && Constructed(a[..], 0, n)
    ensures forall k :: 0 <= k < n ==> a[k] == old(a[lo + k])
    ensures lo == 0 ==> a[..] == old(a[..])
  {
    n := hi - lo;
    if lo == 0 {
      return;
    } else if lo >= hi - lo {
      RelocateDisjoint(a, lo, hi);
    } else {
      ShiftOverlapping(a, lo, hi);
    }
  }

  /** The non-overlapping case of MoveToFront, where hi - lo <= lo. */
  method RelocateDisjoint<T>(a: array<Slot<T>>, lo: nat, hi: nat)
    requires hi - lo <= lo && Constructed(a[..], lo, hi)
    modifies a
    ensures Constructed(a[..], 0, hi - lo)
    ensures forall k :: 0 <= k < hi - lo ==> a[k] == old(a[lo + k])
  {
    ghost var before := a[..];
    assert RawIn(before, 0, hi - lo);
    var _ := RelocateWithin(a, lo, hi, 0);
    assert forall k :: 0 <= k < hi - lo ==> a[k] == before[lo + k];
    assert forall k :: hi - lo <= k < a.Length ==> a[k] == Raw;
  }

  /** The overlapping case of MoveToFront, where 0 < lo < hi - lo. */
  method ShiftOverlapping<T>(a: array<Slot<T>>, lo: nat, hi: nat)
    requires 0 < lo < hi - lo && Constructed(a[..], lo, hi)
    modifies a
    ensures Constructed(a[..], 0, hi - lo)
    ensures forall k :: 0 <= k < hi - lo ==> a[k] == old(a[lo + k])
  {
    ghost var before := a[..];
    var mid := lo + lo;
    UninitializedMoveWithin(a, lo, mid, 0);
    assert forall k :: 0 <= k < lo ==> a[k] == before[lo + k];
    assert forall k :: lo <= k < a.Length ==> a[k] == before[k];
    MoveForward(a, mid, hi, lo);
    assert forall k :: 0 <= k < hi - lo ==> a[k] == before[lo + k];
    assert LiveIn(a[..], hi - lo, hi);
    DestroyRange(a, hi - lo, hi);
  }

  /**
   * clear_and_shrink: destroys every live object and leaves the storage
   * owning no memory; the former block, now all raw, is released.
   */
  method ClearAndShrink<T>(s: BlockStorageNew<T>, lo: nat, hi: nat)
    requires Constructed(s.block[..], lo, hi)
    modifies s, s.block
    ensures fresh(s.block) && s.block.Length == 0
    ensures RawIn(old(s.block)[..], 0, old(s.block).Length)
  {
    DestroyRange(s.block, lo, hi);
    var empty := new BlockStorageNew<T>(s.policy);
    s.Swap(empty);
    empty.Release();
  }

  /**
   * clear_and_reserve: destroys every live object, then makes sure the
   * block has at least newSize slots, reallocating only when it is too
   * small. Allocation can fail, and then the objects are already gone.
   * The result is where construction may begin (the block start).
   */
  method ClearAndReserve<T>(s: BlockStorageNew<T>, lo: nat, hi: nat, newSize: nat)
    returns (r: Option<nat>)
    requires Sound(s.policy) && Constructed(s.block[..], lo, hi)
    modifies s, s.block
    ensures RawIn(s.block[..], 0, s.block.Length)
    ensures r.Some? ==> r.value == 0 && s.block.Length >= newSize
    ensures newSize <= old(s.block.Length) ==> r.Some? && s.block == old(s.block)
    ensures newSize > old(s.block.Length) && r.Some? ==>
      fresh(s.block) && s.block.Length == s.policy.growthSize(old(s.block.Length), newSize - old(s.block.Length))
    ensures r.None? ==> s.block == old(s.block)
  {
    DestroyRange(s.block, lo, hi);
    if newSize <= s.block.Length {
      return Some(0);
    }
    r := s.Reserve(newSize - s.block.Length, 0, 0);
  }

  /**
   * assign_impl (assign_copy and assign_move alike): makes the storage hold
   * exactly `input`. After normalising to the front it assigns over the
   * existing objects and destroys the surplus, or assigns and then
   * constructs the rest into free slots, and only when the block is too
   * small clears and reallocates.
   */
  method AssignImpl<T>(s: BlockStorageNew<T>, lo: nat, hi: nat, input: seq<T>) returns (r: Option<nat>)
    requires Sound(s.policy) && Constructed(s.block[..], lo, hi)
    modifies s, s.block
    ensures r.Some? ==> r.value == |input| && Constructed(s.block[..], 0, |input|) && Holds(s.block[..], 0, input)
    ensures |input| <= old(s.block.Length) ==> r.Some? && s.block == old(s.block)
    ensures |input| > old(s.block.Length) && r.Some? ==>
      fresh(s.block) && s.block.Length == s.policy.growthSize(old(s.block.Length), |input| - old(s.block.Length))
    ensures r.None? ==> s.block == old(s.block) && RawIn(s.block[..], 0, s.block.Length)
  {
    var n := MoveToFront(s.block, lo, hi);
    if |input| <= s.block.Length {
      AssignWithinBlock(s.block, n, input);
    } else {
      var begin := ClearAndReserve(s, 0, n, |input|);
      if begin.None? {
        return None;
      }
      var e := UninitializedCopy(input, s.block, begin.value);
    }
    r := Some(|input|);
  }

  /**
   * The two cases of AssignImpl that reuse the block: assign over the
   * first objects and destroy the surplus, or assign over all of them and
   * construct the remainder.
   */
  method AssignWithinBlock<T>(a: array<Slot<T>>, n: nat, input: seq<T>)
    requires Constructed(a[..], 0, n) && |input| <= a.Length
    modifies a
    ensures Constructed(a[..], 0, |input|) && Holds(a[..], 0, input)
  {
    if |input| <= n {
      var e := CopyOnto(input, a, 0);
      DestroyRange(a, e, n);
    } else {
      var _ := CopyOnto(input[..n], a, 0);
      var e := UninitializedCopy(input[n..], a, n);
    }
  }

  /** assign_copy: AssignImpl copying from the input. */
  method AssignCopy<T>(s: BlockStorageNew<T>, lo: nat, hi: nat, input: seq<T>) returns (r: Option<nat>)
    requires Sound(s.policy) && Constructed(s.block[..], lo, hi)
    modifies s, s.block
    ensures r.Some? ==> r.value == |input| && Constructed(s.block[..], 0, |input|) && Holds(s.block[..], 0, input)
    ensures |input| <= old(s.block.Length) ==> r.Some? && s.block == old(s.block)
    ensures |input| > old(s.block.Length) && r.Some? ==>
      fresh(s.block) && s.block.Length == s.policy.growthSize(old(s.block.Length), |input| - old(s.block.Length))
    ensures r.None? ==> s.block == old(s.block) && RawIn(s.block[..], 0, s.block.Length)
  {
    r := AssignImpl(s, lo, hi, input);
  }

  /** assign_move: AssignImpl moving from the input. */
  method AssignMove<T>(s: BlockStorageNew<T>, lo: nat, hi: nat, input: seq<T>) returns (r: Option<nat>)
    requires Sound(s.policy) && Constructed(s.block[..], lo, hi)
    modifies s, s.block
    ensures r.Some? ==> r.value == |input| && Constructed(s.block[..], 0, |input|) && Holds(s.block[..], 0, input)
    ensures |input| <= old(s.block.Length) ==> r.Some? && s.block == old(s.block)
    ensures |input| > old(s.block.Length) && r.Some? ==>
      fresh(s.block) && s.block.Length == s.policy.growthSize(old(s.block.Length), |input| - old(s.block.Length))
    ensures r.None? ==> s.block == old(s.block) && RawIn(s.block[..], 0, s.block.Length)
  {
    r := AssignImpl(s, lo, hi, input);
  }

  /**
   * fill: makes the storage hold exactly n copies of x, with the same three
   * cases as AssignImpl.
   */
  method Fill<T>(s: BlockStorageNew<T>, lo: nat, hi: nat, n: nat, x: T) returns (r: Option<nat>)
    requires Sound(s.policy) && Constructed(s.block[..], lo, hi)
    modifies s, s.block
    ensures r.Some? ==> r.value == n && Constructed(s.block[..], 0, n)
    ensures r.Some? ==> forall k :: 0 <= k < n ==> s.block[k] == Live(x)
    ensures n <= old(s.block.Length) ==> r.Some? && s.block == old(s.block)
    ensures n > old(s.block.Length) && r.Some? ==>
      fresh(s.block) && s.block.Length == s.policy.growthSize(old(s.block.Length), n - old(s.block.Length))
    ensures r.None? ==> s.block == old(s.block) && RawIn(s.block[..], 0, s.block.Length)
  {
    var cur := MoveToFront(s.block, lo, hi);
    if n <= cur {
      var e := FillN(s.block, 0, n, x);
      DestroyRange(s.block, e, cur);
    } else if n <= s.block.Length {
      var _ := FillN(s.block, 0, cur, x);
      var e := UninitializedFill(s.block, cur, n - cur, x);
    } else {
      var begin := ClearAndReserve(s, 0, cur, n);
      if begin.None? {
        return None;
      }
      var e := UninitializedFill(s.block, begin.value, n, x);
    }
    r := Some(n);
  }

  /**
   * move_assign: clears `dest` and releases its block, then takes over the
   * block of `other` together with its live range; `other` ends up owning
   * nothing. The result is the live range now owned by `dest`.
   */
  method MoveAssign<T>(dest: BlockStorageNew<T>, dlo: nat, dhi: nat,
                       other: BlockStorageNew<T>, olo: nat, ohi: nat)
    returns (lo: nat, hi: nat)
    requires dest != other && dest.block != other.block
    requires Constructed(dest.block[..], dlo, dhi) && Constructed(other.block[..], olo, ohi)
    modifies dest, dest.block, other
    ensures dest.block == old(other.block) && dest.block[..] == old(other.block[..])
    ensures lo == olo && hi == ohi && Constructed(dest.block[..], lo, hi)
    ensures fresh(other.block) && other.block.Length == 0
    ensures RawIn(old(dest.block)[..], 0, old(dest.block).Length)
  {
    ClearAndShrink(dest, dlo, dhi);
    dest.Swap(other);
    lo, hi := olo, ohi;
  }

  /**
   * copy_assign: copies the live objects of `other` into a block newly
   * obtained with growth_size(0, count), then destroys the objects of
   * `dest` and hands it the new block, releasing the old one. Everything
   * that can fail happens before `dest` is touched, so on failure `dest`
   * is unchanged. Self-assignment (dest == other) is allowed: the copy is
   * taken before the objects are destroyed.
   */
  method CopyAssign<T>(dest: BlockStorageNew<T>, dlo: nat, dhi: nat,
                       other: BlockStorageNew<T>, olo: nat, ohi: nat)
    returns (r: Option<nat>)
    requires dest != other ==> dest.block != other.block
    requires dest.policy == other.policy
    requires Sound(other.policy)
    requires Constructed(dest.block[..], dlo, dhi) && LiveIn(other.block[..], olo, ohi)
    modifies dest, dest.block
    ensures r.Some? ==>
      && r.value == ohi - olo
      && fresh(dest.block) && dest.block.Length == dest.policy.growthSize(0, ohi - olo)
      && Constructed(dest.block[..], 0, ohi - olo)
      && Holds(dest.block[..], 0, old(ValuesIn(other.block[..], olo, ohi)))
      && RawIn(old(dest.block)[..], 0, old(dest.block).Length)
    ensures r.None? ==> dest.block == old(dest.block) && dest.block[..] == old(dest.block[..])
    ensures dest != other ==> unchanged(other, other.block)
  {
    var temp, ok := CopyToTemporary(other, olo, ohi);
    if !ok {
      return None;
    }
    DestroyRange(dest.block, dlo, dhi);
    temp.Swap(dest);
    temp.Release();
    r := Some(ohi - olo);
  }

  /**
   * Step 1 of copy_assign: a temporary storage with the arguments of
   * `other` reserves room for its live objects and copy-constructs them at
   * its front. Nothing else is touched, so a failure changes nothing.
   */
  method CopyToTemporary<T>(other: BlockStorageNew<T>, olo: nat, ohi: nat)
    returns (temp: BlockStorageNew<T>, ok: bool)
    requires Sound(other.policy) && LiveIn(other.block[..], olo, ohi)
    ensures fresh(temp) && temp.policy == other.policy
    ensures ok ==>
      && fresh(temp.block) && temp.block.Length == other.policy.growthSize(0, ohi - olo)
      && Constructed(temp.block[..], 0, ohi - olo)
      && Holds(temp.block[..], 0, ValuesIn(other.block[..], olo, ohi))
  {
    temp := new BlockStorageNew<T>(other.policy);
    var begin := temp.Reserve(ohi - olo, 0, 0);
    if begin.None? {
      return temp, false;
    }
    var vs := ValuesIn(other.block[..], olo, ohi);
    var e := UninitializedCopy(vs, temp.block, begin.value);
    ok := true;
  }
}
