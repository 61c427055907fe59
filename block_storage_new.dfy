/**
 * The heap block storage: it owns exactly one block, obtained from the
 * allocator, and grows or shrinks it through its growth policy. It does
 * not know which slots are live; callers pass the live range [lo, hi).
 */
module NewStorage {
  import opened Wrappers
  import opened RawStorage
  import opened Growth

  /**
   * new_block: a fresh block of `size` raw slots, or None when the
   * allocator fails (operator new throwing). Which of the two happens is
   * outside the model, so it is chosen nondeterministically.
   */
  method NewBlock<T>(size: nat) returns (r: Option<array<Slot<T>>>)
    ensures r.Some? ==> fresh(r.value) && r.value.Length == size && RawIn(r.value[..], 0, size)
  {
    var succeeds: bool :| true;
    if succeeds {
      var b := new Slot<T>[size](_ => Raw);
      r := Some(b);
    } else {
      r := None;
    }
  }

  class BlockStorageNew<T> {
    /** The owned block; an empty array stands for the null block. */
    var block: array<Slot<T>>
    /** The GrowthPolicy template argument. */
    const policy: Policy

    /** Default construction: owns no memory. */
    constructor (policy: Policy)
      ensures this.policy == policy
      ensures fresh(block) && block.Length == 0
    {
      this.policy := policy;
      block := new Slot<T>[0];
    }

    /**
     * The sized constructor: owns a block of exactly minInitialCapacity
     * slots, obtained through new_block. When new_block throws, no storage
     * comes into being, which is None here.
     */
    static method Sized(policy: Policy, minInitialCapacity: nat) returns (r: Option<BlockStorageNew<T>>)
      ensures r.Some? ==> fresh(r.value) && fresh(r.value.block) && r.value.policy == policy
      ensures r.Some? ==> r.value.block.Length == minInitialCapacity && RawIn(r.value.block[..], 0, minInitialCapacity)
    {
      var b := NewBlock<T>(minInitialCapacity);
      if b.None? {
        return None;
      }
      var s := new BlockStorageNew<T>(policy);
      s.block := b.value;
      r := Some(s);
    }

    /** The destructor: releases the owned block, so that it owns nothing. */
    method Release()
      modifies this
      ensures fresh(block) && block.Length == 0
    {
      block := new Slot<T>[0];
    }

    /** Takes over the block of `other`, which is left owning nothing. */
    method MoveConstruct(other: BlockStorageNew<T>)
      requires other != this
      modifies this, other
      ensures block == old(other.block)
      ensures fresh(other.block) && other.block.Length == 0
    {
      block := other.block;
      other.block := new Slot<T>[0];
    }

    /** Exchanges the two owned blocks; the live ranges travel with them. */
    method Swap(other: BlockStorageNew<T>)
      modifies this, other
      ensures block == old(other.block) && other.block == old(block)
    {
      block, other.block := other.block, block;
    }

    /**
     * Grows to growth_size(capacity, minAdditional) slots and relocates the
     * live range to the front of the new block. The new block is obtained
     * before anything moves, so a failed allocation changes nothing.
     * On success the result is the end of the relocated range.
     */
    method Reserve(minAdditional: nat, lo: nat, hi: nat) returns (r: Option<nat>)
      requires Sound(policy) && Constructed(block[..], lo, hi)
      modifies this, block
      ensures r.Some? ==>
        && r.value == hi - lo
        && fresh(block) && block.Length == policy.growthSize(old(block.Length), minAdditional)
        && Constructed(block[..], 0, hi - lo)
        && (forall k :: 0 <= k < hi - lo ==> block[k] == old(block[lo + k]))
        && RawIn(old(block)[..], 0, old(block).Length)
      ensures r.None? ==> block == old(block) && block[..] == old(block[..])
    {
      var bigger := NewBlock<T>(policy.growthSize(block.Length, minAdditional));
      if bigger.None? {
        return None;
      }
      var e := MoveElements(lo, hi, bigger.value);
      r := Some(e);
    }

    /**
     * Shrinks to shrink_size(capacity, live count) slots, relocating the
     * live range like Reserve does.
     */
    method ShrinkToFit(lo: nat, hi: nat) returns (r: Option<nat>)
      requires Sound(policy) && Constructed(block[..], lo, hi)
      modifies this, block
      ensures r.Some? ==>
        && r.value == hi - lo
        && fresh(block) && block.Length == policy.shrinkSize(old(block.Length), hi - lo)
        && Constructed(block[..], 0, hi - lo)
        && (forall k :: 0 <= k < hi - lo ==> block[k] == old(block[lo + k]))
        && RawIn(old(block)[..], 0, old(block).Length)
      ensures r.None? ==> block == old(block) && block[..] == old(block[..])
    {
      var smaller := NewBlock<T>(policy.shrinkSize(block.Length, hi - lo));
      if smaller.None? {
        return None;
      }
      var e := MoveElements(lo, hi, smaller.value);
      r := Some(e);
    }

    /**
     * Destructively moves the live range to the front of `target`, releases
     * the old block and adopts `target`. The old block is left without a
     * live object, so releasing it leaks nothing.
     */
    method MoveElements(lo: nat, hi: nat, target: array<Slot<T>>) returns (newEnd: nat)
      requires target != block && hi - lo <= target.Length
      requires Constructed(block[..], lo, hi) && RawIn(target[..], 0, target.Length)
      modifies this, block, target
      ensures newEnd == hi - lo && block == target
      ensures Constructed(block[..], 0, newEnd)
      ensures forall k :: 0 <= k < newEnd ==> block[k] == old(block[lo + k])
      ensures RawIn(old(block)[..], 0, old(block).Length)
    {
      var oldBlock := block;
      newEnd := RelocateInto(oldBlock, lo, hi, target, 0);
      block := target;
    }
  }
}
