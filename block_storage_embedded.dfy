/**
 * The embedded block storage: a fixed buffer of bufferBytes bytes inside
 * the object itself. It never allocates; a reservation that does not fit
 * raises embedded_storage_overflow. Sizes here are in bytes, as in the
 * overflow check, with elemSize standing for sizeof(T).
 */
module EmbeddedStorage {
  import opened Wrappers
  import opened RawStorage
  import opened BlockAlgorithms

  /** embedded_storage_overflow, the exception of a reservation that does not fit. */
  datatype Overflow = EmbeddedStorageOverflow

  /** memory_block: a block and its size in bytes. */
  datatype MemoryBlock<T> = MemoryBlock(memory: array<Slot<T>>, size: nat)

  class BlockStorageEmbedded<T> {
    /** The BufferBytes template argument. */
    const bufferBytes: nat
    /** sizeof(T). */
    const elemSize: nat
    /** The buffer, as the whole elements that fit into it. */
    const buffer: array<Slot<T>>

    ghost predicate Valid()
      ensures Valid() ==> elemSize > 0 && buffer.Length * elemSize <= bufferBytes < (buffer.Length + 1) * elemSize
    {
      if elemSize > 0 then
        DivisionBounds(bufferBytes, elemSize);
        buffer.Length == bufferBytes / elemSize
      else false
    }

    constructor (bufferBytes: nat, elemSize: nat)
      requires elemSize > 0
      ensures Valid() && this.bufferBytes == bufferBytes && this.elemSize == elemSize
      ensures fresh(buffer) && RawIn(buffer[..], 0, buffer.Length)
    {
      this.bufferBytes := bufferBytes;
      this.elemSize := elemSize;
      buffer := new Slot<T>[bufferBytes / elemSize](_ => Raw);
    }

    /**
     * block(): the whole buffer, BufferBytes in size, whose slots are all
     * the whole elements that fit into it.
     */
    function Block(): (b: MemoryBlock<T>)
      requires Valid()
      ensures b.memory == buffer && b.size == bufferBytes
      ensures b.memory.Length * elemSize <= b.size < (b.memory.Length + 1) * elemSize
    {
      DivisionBounds(bufferBytes, elemSize);
      MemoryBlock(buffer, bufferBytes)
    }

    /** empty_block(): the embedded storage is never without its buffer. */
    function EmptyBlock(): (b: MemoryBlock<T>)
      requires Valid()
      ensures b == Block()
    {
      Block()
    }

    /** The number of elements the buffer holds: all whole elements that fit. */
    function Capacity(): (c: nat)
      requires Valid()
      ensures c * elemSize <= bufferBytes < (c + 1) * elemSize
    {
      DivisionBounds(bufferBytes, elemSize);
      buffer.Length
    }

    /** max_size(): the buffer size in bytes, which bounds every element count. */
    function MaxSize(): (n: nat)
      requires Valid()
      ensures n == Block().size && Capacity() * elemSize <= n
    {
      bufferBytes
    }

    /**
     * reserve: first moves the live range to the front of the buffer, then
     * succeeds exactly when the live bytes plus minAdditionalBytes fit into
     * the buffer; the result is the end of the live range.
     */
    method Reserve(minAdditionalBytes: nat, lo: nat, hi: nat) returns (r: Result<nat, Overflow>)
      requires Valid() && Constructed(buffer[..], lo, hi)
      modifies buffer
      ensures Constructed(buffer[..], 0, hi - lo)
      ensures forall k :: 0 <= k < hi - lo ==> buffer[k] == old(buffer[lo + k])
      ensures r.Ok? <==> (hi - lo) * elemSize + minAdditionalBytes <= bufferBytes
      ensures r.Ok? ==> r.value == hi - lo
    {
      var newEnd := MoveToFront(buffer, lo, hi);
      if (hi - lo) * elemSize + minAdditionalBytes <= bufferBytes {
        r := Ok(newEnd);
      } else {
        r := Err(EmbeddedStorageOverflow);
      }
    }

    /** shrink_to_fit: nothing to release; only moves the live range to the front. */
    method ShrinkToFit(lo: nat, hi: nat) returns (newEnd: nat)
      requires Constructed(buffer[..], lo, hi)
      modifies buffer
      ensures newEnd == hi - lo && Constructed(buffer[..], 0, newEnd)
      ensures forall k :: 0 <= k < newEnd ==> buffer[k] == old(buffer[lo + k])
    {
      newEnd := MoveToFront(buffer, lo, hi);
    }

    /**
     * swap: the objects of the two buffers change places. Both live ranges
     * are moved to the front (the results are discarded, so the ranges must
     * already start there), the common prefix is swapped element by element
     * and the rest of the longer side is destructively moved across. The
     * results are the ends of the new live ranges, both starting at 0.
     */
    static method Swap(lhs: BlockStorageEmbedded<T>, lhsLo: nat, lhsHi: nat,
                       rhs: BlockStorageEmbedded<T>, rhsLo: nat, rhsHi: nat)
      returns (newLhsHi: nat, newRhsHi: nat)
      requires lhs.buffer != rhs.buffer && lhs.buffer.Length == rhs.buffer.Length
      requires lhsLo == 0 && rhsLo == 0
      requires Constructed(lhs.buffer[..], lhsLo, lhsHi) && Constructed(rhs.buffer[..], rhsLo, rhsHi)
      modifies lhs.buffer, rhs.buffer
      ensures newLhsHi == rhsHi && newRhsHi == lhsHi
      ensures Constructed(lhs.buffer[..], 0, newLhsHi) && Constructed(rhs.buffer[..], 0, newRhsHi)
      ensures forall k :: 0 <= k < newLhsHi ==> lhs.buffer[k] == old(rhs.buffer[k])
      ensures forall k :: 0 <= k < newRhsHi ==> rhs.buffer[k] == old(lhs.buffer[k])
    {
      var _ := MoveToFront(lhs.buffer, lhsLo, lhsHi);
      var _ := MoveToFront(rhs.buffer, rhsLo, rhsHi);
      var lhsSize, rhsSize := lhsHi - lhsLo, rhsHi - rhsLo;
      ExchangeFronts(lhs.buffer, lhsSize, rhs.buffer, rhsSize);
      newLhsHi, newRhsHi := rhsSize, lhsSize;
    }
  }

  /**
   * The exchange step of swap, on two buffers whose live ranges start at
   * 0: swap_ranges over the common prefix, then the longer tail moves over.
   */
  method ExchangeFronts<T>(a: array<Slot<T>>, aSize: nat, b: array<Slot<T>>, bSize: nat)
    requires a != b && a.Length == b.Length
    requires Constructed(a[..], 0, aSize) && Constructed(b[..], 0, bSize)
    modifies a, b
    ensures Constructed(a[..], 0, bSize) && Constructed(b[..], 0, aSize)
    ensures forall k :: 0 <= k < bSize ==> a[k] == old(b[k])
    ensures forall k :: 0 <= k < aSize ==> b[k] == old(a[k])
  {
    var minSize := if aSize < bSize then aSize else bSize;
    SwapPrefixes(a, b, minSize);
    if aSize > bSize {
      var _ := RelocateInto(a, minSize, aSize, b, minSize);
    } else {
      var _ := RelocateInto(b, minSize, bSize, a, minSize);
    }
  }

  /** Euclidean division leaves a remainder below the divisor. */
  lemma DivisionBounds(n: nat, d: nat)
    requires d > 0
    ensures (n / d) * d <= n < (n / d + 1) * d
  {
  }
}
