/**
 * Raw memory as a row of slots, and the object-lifetime primitives the
 * block storages and the array are written with (construct, destroy,
 * uninitialized move/copy/fill, destructive move, move assignment).
 *
 * A slot is either raw memory or holds a live object. Every primitive
 * demands the lifetime state that C++ demands: objects are constructed
 * only into raw slots, and only live objects are assigned to or destroyed.
 * A moved-from object stays live; its value is unspecified in C++ and is
 * kept unchanged here.
 */
module RawStorage {
  datatype Slot<T> = Raw | Live(value: T)

  /** Every slot of [lo, hi) holds a live object. */
  ghost predicate LiveIn<T>(a: seq<Slot<T>>, lo: int, hi: int) {
    0 <= lo <= hi <= |a| && forall i :: lo <= i < hi ==> a[i].Live?
  }

  /** Every slot of [lo, hi) is raw memory. */
  ghost predicate RawIn<T>(a: seq<Slot<T>>, lo: int, hi: int) {
    0 <= lo <= hi <= |a| && forall i :: lo <= i < hi ==> a[i] == Raw
  }

  /** The block holds live objects exactly on [lo, hi) and raw memory elsewhere. */
  ghost predicate Constructed<T>(a: seq<Slot<T>>, lo: int, hi: int) {
    LiveIn(a, lo, hi) && RawIn(a, 0, lo) && RawIn(a, hi, |a|)
  }

  /** Slots [at, at + |vs|) hold exactly the objects vs, in order. */
  ghost predicate Holds<T>(a: seq<Slot<T>>, at: int, vs: seq<T>) {
    0 <= at && at + |vs| <= |a| && forall k :: 0 <= k < |vs| ==> a[at + k] == Live(vs[k])
  }

  /** The slots a with the n slots starting at index from copied over the n slots starting at index at. */
  ghost function CopiedTo<T>(a: seq<Slot<T>>, from: nat, at: nat, n: nat): (r: seq<Slot<T>>)
    requires from + n <= |a| && at + n <= |a|
    ensures |r| == |a|
    ensures forall i :: at <= i < at + n ==> r[i] == a[from + (i - at)]
    ensures forall i :: 0 <= i < |a| && !(at <= i < at + n) ==> r[i] == a[i]
  {
    a[..at] + a[from..from + n] + a[at + n..]
  }

  /** The objects living in [lo, hi), in order. */
  function ValuesIn<T>(a: seq<Slot<T>>, lo: int, hi: int): (vs: seq<T>)
    requires LiveIn(a, lo, hi)
    ensures |vs| == hi - lo && Holds(a, lo, vs)
  {
    seq(hi - lo, k requires 0 <= k < hi - lo => a[lo + k].value)
  }

  /** Objects are determined by the slots that hold them. */
  lemma HoldsUnique<T>(a: seq<Slot<T>>, at: int, vs: seq<T>, ws: seq<T>)
    requires Holds(a, at, vs) && Holds(a, at, ws) && |vs| == |ws|
    ensures vs == ws
  {
    forall k | 0 <= k < |vs| ensures vs[k] == ws[k] {
      assert a[at + k] == Live(vs[k]) && a[at + k] == Live(ws[k]);
    }
  }

  /**
   * Writing the objects vs over the slots [at, at + |vs|) of a block that
   * holds c splices vs into c.
   */
  lemma HoldsSplice<T>(a: seq<Slot<T>>, b: seq<Slot<T>>, c: seq<T>, at: nat, vs: seq<T>)
    requires Holds(a, 0, c) && at + |vs| <= |c| && |b| == |a|
    requires forall i :: 0 <= i < |a| ==> b[i] == if at <= i < at + |vs| then Live(vs[i - at]) else a[i]
    ensures Holds(b, 0, c[..at] + vs + c[at + |vs|..])
  {
    var d := c[..at] + vs + c[at + |vs|..];
    forall k | 0 <= k < |d| ensures b[0 + k] == Live(d[k]) {
      if at <= k < at + |vs| {
        assert d[k] == vs[k - at];
      } else {
        assert d[k] == c[k] && a[0 + k] == Live(c[k]);
      }
    }
  }

  /** Placement construction into a raw slot. */
  method Construct<T>(a: array<Slot<T>>, i: nat, x: T)
    requires i < a.Length && a[i] == Raw
    modifies a
    ensures a[..] == old(a[..])[i := Live(x)]
  {
    a[i] := Live(x);
  }

  /** Destruction of a live object; its slot becomes raw memory. */
  method Destroy<T>(a: array<Slot<T>>, i: nat)
    requires i < a.Length && a[i].Live?
    modifies a
    ensures a[..] == old(a[..])[i := Raw]
  {
    a[i] := Raw;
  }

  /** Assignment to a live object. */
  method Assign<T>(a: array<Slot<T>>, i: nat, x: T)
    requires i < a.Length && a[i].Live?
    modifies a
    ensures a[..] == old(a[..])[i := Live(x)]
  {
    a[i] := Live(x);
  }

  /** destroy_range: ends the lifetime of every object in [lo, hi). */
  method DestroyRange<T>(a: array<Slot<T>>, lo: nat, hi: nat)
    requires LiveIn(a[..], lo, hi)
    modifies a
    ensures forall i :: 0 <= i < a.Length ==> a[i] == if lo <= i < hi then Raw else old(a[i])
  {
    var i := lo;
    while i < hi
      invariant lo <= i <= hi
      invariant forall j :: 0 <= j < a.Length ==> a[j] == if lo <= j < i then Raw else old(a[j])
    {
      a[i] := Raw;
      i := i + 1;
    }
  }

  /**
   * uninitialized_destructive_move inside one block: each object of [lo, hi)
   * is move-constructed into [to, to + (hi - lo)), then destroyed at its old
   * place. The destination lies wholly before the source.
   */
  method RelocateWithin<T>(a: array<Slot<T>>, lo: nat, hi: nat, to: nat) returns (newEnd: nat)
    requires LiveIn(a[..], lo, hi) && RawIn(a[..], to, to + (hi - lo)) && to + (hi - lo) <= lo
    modifies a
    ensures newEnd == to + (hi - lo)
    ensures forall i :: 0 <= i < a.Length ==>
      a[i] == if to <= i < newEnd then old(a[lo + (i - to)])
              else if lo <= i < hi then Raw
              else old(a[i])
  {
    var k := 0;
    while k < hi - lo
      invariant 0 <= k <= hi - lo
      invariant forall i :: 0 <= i < a.Length ==>
        a[i] == if to <= i < to + k then old(a[lo + (i - to)])
                else if lo <= i < lo + k then Raw
                else old(a[i])
    {
      a[to + k] := a[lo + k];
      a[lo + k] := Raw;
      k := k + 1;
    }
    newEnd := to + (hi - lo);
  }

  /**
   * uninitialized_destructive_move between two blocks: the objects of
   * src[lo, hi) are move-constructed, in order, at dst[at, ...) and
   * destroyed in src (construct first, then destroy).
   */
  method RelocateInto<T>(src: array<Slot<T>>, lo: nat, hi: nat, dst: array<Slot<T>>, at: nat)
    returns (newEnd: nat)
    requires src != dst
    requires LiveIn(src[..], lo, hi) && RawIn(dst[..], at, at + (hi - lo))
    modifies src, dst
    ensures newEnd == at + (hi - lo)
    ensures forall i :: 0 <= i < dst.Length ==>
      dst[i] == if at <= i < newEnd then old(src[lo + (i - at)]) else old(dst[i])
    ensures forall i :: 0 <= i < src.Length ==>
      src[i] == if lo <= i < hi then Raw else old(src[i])
  {
    var k := 0;
    while k < hi - lo
      invariant 0 <= k <= hi - lo
      invariant forall i :: 0 <= i < dst.Length ==>
        dst[i] == if at <= i < at + k then old(src[lo + (i - at)]) else old(dst[i])
      invariant forall i :: 0 <= i < src.Length ==>
        src[i] == if lo <= i < lo + k then Raw else old(src[i])
    {
      dst[at + k] := src[lo + k];
      src[lo + k] := Raw;
      k := k + 1;
    }
    newEnd := at + (hi - lo);
  }

  /**
   * uninitialized_move inside one block: move-constructs the objects of
   * [lo, hi) into raw [to, to + (hi - lo)); the sources stay live (moved-from).
   */
  method UninitializedMoveWithin<T>(a: array<Slot<T>>, lo: nat, hi: nat, to: nat)
    requires LiveIn(a[..], lo, hi) && RawIn(a[..], to, to + (hi - lo)) && to + (hi - lo) <= lo
    modifies a
    ensures forall i :: 0 <= i < a.Length ==>
      a[i] == if to <= i < to + (hi - lo) then old(a[lo + (i - to)]) else old(a[i])
  {
    var k := 0;
    while k < hi - lo
      invariant 0 <= k <= hi - lo
      invariant forall i :: 0 <= i < a.Length ==>
        a[i] == if to <= i < to + k then old(a[lo + (i - to)]) else old(a[i])
    {
      a[to + k] := a[lo + k];
      k := k + 1;
    }
  }

  /**
   * std::move(first, last, d_first) inside one block: move-assigns the objects
   * of [lo, hi) onto the live objects of [to, to + (hi - lo)), front to back,
   * which is safe for overlapping ranges as the destination starts first.
   */
  method MoveForward<T>(a: array<Slot<T>>, lo: nat, hi: nat, to: nat)
    requires to <= lo <= hi && LiveIn(a[..], to, hi)
    modifies a
    ensures forall i :: 0 <= i < a.Length ==>
      a[i] == if to <= i < to + (hi - lo) then old(a[lo + (i - to)]) else old(a[i])
  {
    var k := 0;
    while k < hi - lo
      invariant 0 <= k <= hi - lo
      invariant forall i :: 0 <= i < a.Length ==>
        a[i] == if to <= i < to + k then old(a[lo + (i - to)]) else old(a[i])
    {
      a[to + k] := a[lo + k];
      k := k + 1;
    }
  }

  /**
   * std::move_backward(first, last, d_last) inside one block: move-assigns
   * the objects of [lo, hi) onto the live objects ending at dEnd, back to
   * front, which is safe for overlapping ranges as the destination ends last.
   */
  method MoveBackward<T>(a: array<Slot<T>>, lo: nat, hi: nat, dEnd: nat)
    requires lo <= hi <= dEnd && LiveIn(a[..], lo, dEnd)
    modifies a
    ensures a[..] == CopiedTo(old(a[..]), lo, dEnd - (hi - lo), hi - lo)
  {
    var k := hi - lo;
    while k > 0
      invariant 0 <= k <= hi - lo
      invariant forall i :: 0 <= i < a.Length ==>
        a[i] == if dEnd - (hi - lo) + k <= i < dEnd then old(a[lo + (i - (dEnd - (hi - lo)))]) else old(a[i])
    {
      k := k - 1;
      a[dEnd - (hi - lo) + k] := a[lo + k];
    }
    ghost var r := CopiedTo(old(a[..]), lo, dEnd - (hi - lo), hi - lo);
    forall i | 0 <= i < a.Length ensures a[i] == r[i] {
      if dEnd - (hi - lo) <= i < dEnd {
        assert r[i] == old(a[..])[lo + (i - (dEnd - (hi - lo)))];
      }
    }
  }

  /** std::swap_ranges over the first n live objects of two distinct blocks. */
  method SwapPrefixes<T>(a: array<Slot<T>>, b: array<Slot<T>>, n: nat)
    requires a != b && LiveIn(a[..], 0, n) && LiveIn(b[..], 0, n)
    modifies a, b
    ensures forall i :: 0 <= i < a.Length ==> a[i] == if i < n then old(b[i]) else old(a[i])
    ensures forall i :: 0 <= i < b.Length ==> b[i] == if i < n then old(a[i]) else old(b[i])
  {
    var k := 0;
    while k < n
      invariant 0 <= k <= n
      invariant forall i :: 0 <= i < a.Length ==> a[i] == if i < k then old(b[i]) else old(a[i])
      invariant forall i :: 0 <= i < b.Length ==> b[i] == if i < k then old(a[i]) else old(b[i])
    {
      a[k], b[k] := b[k], a[k];
      k := k + 1;
    }
  }

  /** uninitialized_copy / uninitialized_move from an input range into raw slots. */
  method UninitializedCopy<T>(vs: seq<T>, a: array<Slot<T>>, at: nat) returns (newEnd: nat)
    requires RawIn(a[..], at, at + |vs|)
    modifies a
    ensures newEnd == at + |vs|
    ensures forall i :: 0 <= i < a.Length ==>
      a[i] == if at <= i < newEnd then Live(vs[i - at]) else old(a[i])
  {
    var k := 0;
    while k < |vs|
      invariant 0 <= k <= |vs|
      invariant forall i :: 0 <= i < a.Length ==>
        a[i] == if at <= i < at + k then Live(vs[i - at]) else old(a[i])
    {
      a[at + k] := Live(vs[k]);
      k := k + 1;
    }
    newEnd := at + |vs|;
  }

  /** std::copy / std::move from an input range onto live objects. */
  method CopyOnto<T>(vs: seq<T>, a: array<Slot<T>>, at: nat) returns (newEnd: nat)
    requires LiveIn(a[..], at, at + |vs|)
    modifies a
    ensures newEnd == at + |vs|
    ensures forall i :: 0 <= i < a.Length ==>
      a[i] == if at <= i < newEnd then Live(vs[i - at]) else old(a[i])
  {
    var k := 0;
    while k < |vs|
      invariant 0 <= k <= |vs|
      invariant forall i :: 0 <= i < a.Length ==>
        a[i] == if at <= i < at + k then Live(vs[i - at]) else old(a[i])
    {
      a[at + k] := Live(vs[k]);
      k := k + 1;
    }
    newEnd := at + |vs|;
  }

  /** uninitialized_fill: copy-constructs n copies of x into raw slots. */
  method UninitializedFill<T>(a: array<Slot<T>>, at: nat, n: nat, x: T) returns (newEnd: nat)
    requires RawIn(a[..], at, at + n)
    modifies a
    ensures newEnd == at + n
    ensures forall i :: 0 <= i < a.Length ==> a[i] == if at <= i < newEnd then Live(x) else old(a[i])
  {
    var k := 0;
    while k < n
      invariant 0 <= k <= n
      invariant forall i :: 0 <= i < a.Length ==> a[i] == if at <= i < at + k then Live(x) else old(a[i])
    {
      a[at + k] := Live(x);
      k := k + 1;
    }
    newEnd := at + n;
  }

  /** std::fill_n: copy-assigns x onto n live objects. */
  method FillN<T>(a: array<Slot<T>>, at: nat, n: nat, x: T) returns (newEnd: nat)
    requires LiveIn(a[..], at, at + n)
    modifies a
    ensures newEnd == at + n
    ensures forall i :: 0 <= i < a.Length ==> a[i] == if at <= i < newEnd then Live(x) else old(a[i])
  {
    var k := 0;
    while k < n
      invariant 0 <= k <= n
      invariant forall i :: 0 <= i < a.Length ==> a[i] == if at <= i < at + k then Live(x) else old(a[i])
    {
      a[at + k] := Live(x);
      k := k + 1;
    }
    newEnd := at + n;
  }
}
