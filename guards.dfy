/** Rollback primitives used while a multi-step construction is in flight.
    Storage slots are tracked by a lifetime ledger: a slot is either raw or holds a
    constructed object, and every destruction is logged, so "destroyed exactly once"
    is a statement about the log. */
module Guards {

  /** The consecutive slot numbers lo, lo+1, ..., lo+n-1. */
  function Span(lo: nat, n: nat): (r: seq<nat>)
    ensures |r| == n
    ensures forall k :: 0 <= k < n ==> r[k] == lo + k
  {
    seq(n, k => lo + k)
  }

  /** `live` with the slots [lo, lo+n) set to `b`. */
  function SetSpan(live: seq<bool>, lo: nat, n: nat, b: bool): (r: seq<bool>)
    ensures |r| == |live|
    ensures forall i :: 0 <= i < |live| ==> r[i] == (if lo <= i < lo + n then b else live[i])
  {
    seq(|live|, i requires 0 <= i < |live| => if lo <= i < lo + n then b else live[i])
  }

  /** True when every slot of [lo, lo+n) lies in `live` and holds an object. */
  ghost predicate AllLive(live: seq<bool>, lo: nat, n: nat)
  {
    lo + n <= |live| && forall i :: lo <= i < lo + n ==> live[i]
  }

  /** The lifetime ledger of one storage region (a buffer or a segment). */
  class Storage {
    var live: seq<bool>
    ghost var destroyed: seq<nat>

    constructor (n: nat)
      ensures live == seq(n, _ => false) && destroyed == []
    {
      live := seq(n, _ => false);
      destroyed := [];
    }

    /** Placement-construct an object in a raw slot. */
    method Construct(i: nat)
      requires i < |live| && !live[i]
      modifies this
      ensures live == old(live)[i := true] && destroyed == old(destroyed)
    {
      live := live[i := true];
    }

    /** Destroy the object in a slot; destroying a raw slot is refused by the precondition. */
    method Destroy(i: nat)
      requires i < |live| && live[i]
      modifies this
      ensures live == old(live)[i := false] && destroyed == old(destroyed) + [i]
    {
      live := live[i := false];
      destroyed := destroyed + [i];
    }
  }

  /** Selected for trivially destructible element types: every operation is a no-op. */
  class NullConstructionGuard {
    /** Accepts (and ignores) the arguments a real construction guard takes. */
    constructor (allocPtr: nat, storage: Storage)
    {
    }

    method Extend()
    {
    }

    method Release()
    {
    }

    /** The destructor: nothing is destroyed. */
    method Dispose()
    {
    }
  }

  /** Destroys, on scope exit, the `elemCount` objects constructed from `allocPtr` on. */
  class ConstructionGuard {
    var storage: Storage?
    var allocPtr: nat
    var elemCount: nat

    /** What the destructor will destroy is really there. */
    ghost predicate Covered()
      reads this, storage
    {
      elemCount == 0 || (storage != null && AllLive(storage.live, allocPtr, elemCount))
    }

    /** A default-constructed guard guards nothing. */
    constructor Default()
      ensures storage == null && elemCount == 0
    {
      storage := null;
      allocPtr := 0;
      elemCount := 0;
    }

    constructor (allocPtr: nat, storage: Storage)
      ensures this.storage == storage && this.allocPtr == allocPtr && elemCount == 0
    {
      this.storage := storage;
      this.allocPtr := allocPtr;
      elemCount := 0;
    }

    /** The move constructor: the count is transferred and the source no longer guards anything. */
    constructor MoveFrom(rhs: ConstructionGuard)
      modifies rhs
      ensures storage == old(rhs.storage) && allocPtr == old(rhs.allocPtr)
      ensures elemCount == old(rhs.elemCount)
      ensures rhs.elemCount == 0
      ensures rhs.storage == old(rhs.storage) && rhs.allocPtr == old(rhs.allocPtr)
    {
      storage := rhs.storage;
      allocPtr := rhs.allocPtr;
      elemCount := rhs.elemCount;
      new;
      rhs.elemCount := 0;
    }

    /** One more object was constructed after the guarded run. */
    method Extend()
      modifies this
      ensures elemCount == old(elemCount) + 1
      ensures storage == old(storage) && allocPtr == old(allocPtr)
    {
      elemCount := elemCount + 1;
    }

    /** The operation committed: nothing is to be destroyed. */
    method Release()
      modifies this
      ensures elemCount == 0
      ensures storage == old(storage) && allocPtr == old(allocPtr)
    {
      elemCount := 0;
    }

    /** The destructor: destroys exactly `elemCount` slots, ascending from `allocPtr`. */
    method Dispose()
      requires Covered()
      modifies this, storage
      ensures elemCount == 0 && storage == old(storage)
      ensures storage != null ==>
        storage.live == SetSpan(old(storage.live), old(allocPtr), old(elemCount), false) &&
        storage.destroyed == old(storage.destroyed) + Span(old(allocPtr), old(elemCount))
    {
      ghost var lo, n := allocPtr, elemCount;
      if storage == null {
        return;
      }
      ghost var live0, log0 := storage.live, storage.destroyed;
      while elemCount > 0
        invariant storage == old(storage) && storage != null
        invariant allocPtr + elemCount == lo + n && allocPtr >= lo
        invariant elemCount == 0 || AllLive(storage.live, allocPtr, elemCount)
        invariant storage.live == SetSpan(live0, lo, allocPtr - lo, false)
        invariant storage.destroyed == log0 + Span(lo, allocPtr - lo)
      {
        assert allocPtr < |storage.live| && storage.live[allocPtr];
        ghost var before := storage.live;
        elemCount := elemCount - 1;
        storage.Destroy(allocPtr);
        assert storage.live == before[allocPtr := false];
        assert forall i :: allocPtr < i < |before| ==> storage.live[i] == before[i];
        allocPtr := allocPtr + 1;
        assert AllLive(storage.live, allocPtr, elemCount);
      }
    }
  }

  /** Pairs a source run and a destination run of equal length: on success the
      source is destroyed, on failure the destination. */
  class NandConstructionGuard {
    var src: ConstructionGuard
    var dst: ConstructionGuard
    var dstReleased: bool

    ghost predicate Valid()
      reads this, src, dst, src.storage, dst.storage
    {
      src != dst && src.storage != null && dst.storage != null && src.storage != dst.storage &&
      (!dstReleased ==> src.elemCount == dst.elemCount) &&
      src.Covered() && (!dstReleased ==> dst.Covered()) &&
      (dstReleased ==> dst.elemCount == 0)
    }

    constructor (srcPtr: nat, srcStorage: Storage, dstPtr: nat, dstStorage: Storage)
      requires srcStorage != dstStorage
      ensures Valid() && fresh(src) && fresh(dst) && !dstReleased
      ensures src.storage == srcStorage && src.allocPtr == srcPtr && src.elemCount == 0
      ensures dst.storage == dstStorage && dst.allocPtr == dstPtr && dst.elemCount == 0
    {
      src := new ConstructionGuard(srcPtr, srcStorage);
      dst := new ConstructionGuard(dstPtr, dstStorage);
      dstReleased := false;
    }

    /** Both runs grow by one slot. */
    method Extend()
      requires Valid() && !dstReleased
      requires AllLive(src.storage.live, src.allocPtr, src.elemCount + 1)
      requires AllLive(dst.storage.live, dst.allocPtr, dst.elemCount + 1)
      modifies src, dst
      ensures Valid() && !dstReleased
      ensures src.elemCount == old(src.elemCount) + 1 && dst.elemCount == old(dst.elemCount) + 1
      ensures src.allocPtr == old(src.allocPtr) && dst.allocPtr == old(dst.allocPtr)
      ensures src.storage == old(src.storage) && dst.storage == old(dst.storage)
    {
      src.Extend();
      dst.Extend();
    }

    /** Success: the destination is kept, the source will be destroyed. */
    method Release()
      requires Valid()
      modifies this, dst
      ensures Valid() && dstReleased && dst.elemCount == 0
      ensures src == old(src) && dst == old(dst)
      ensures dst.storage == old(dst.storage) && dst.allocPtr == old(dst.allocPtr)
    {
      dst.Release();
      dstReleased := true;
    }

    /** The destructor: exactly one of the two runs is destroyed. */
    method Dispose()
      requires Valid()
      modifies src, dst, src.storage, dst.storage
      ensures src.storage == old(src.storage) && dst.storage == old(dst.storage)
      ensures old(dstReleased) ==>
        src.storage.live == SetSpan(old(src.storage.live), old(src.allocPtr), old(src.elemCount), false) &&
        src.storage.destroyed == old(src.storage.destroyed) + Span(old(src.allocPtr), old(src.elemCount)) &&
        dst.storage.live == old(dst.storage.live) && dst.storage.destroyed == old(dst.storage.destroyed)
      ensures !old(dstReleased) ==>
        dst.storage.live == SetSpan(old(dst.storage.live), old(dst.allocPtr), old(dst.elemCount), false) &&
        dst.storage.destroyed == old(dst.storage.destroyed) + Span(old(dst.allocPtr), old(dst.elemCount)) &&
        src.storage.live == old(src.storage.live) && src.storage.destroyed == old(src.storage.destroyed)
    {
      if !dstReleased {
        src.Release();
      }
      // members are destroyed in reverse order of declaration: dst, then src
      dst.Dispose();
      src.Dispose();
    }
  }

  /** The allocator's view of which buffers are currently inUse. */
  class Allocator {
    ghost var inUse: set<nat>
    var next: nat

    constructor ()
      ensures inUse == {} && next == 0
    {
      inUse := {};
      next := 0;
    }

    ghost predicate Valid()
      reads this
    {
      forall b :: b in inUse ==> b < next
    }

    method Allocate() returns (b: nat)
      requires Valid()
      modifies this
      ensures Valid() && b !in old(inUse) && inUse == old(inUse) + {b}
    {
      b := next;
      next := next + 1;
      inUse := inUse + {b};
    }

    method Deallocate(b: nat)
      requires b in inUse
      modifies this
      ensures inUse == old(inUse) - {b} && next == old(next)
    {
      inUse := inUse - {b};
    }
  }

  /** Deallocates a fresh buffer on scope exit unless released. A null pointer is `None`. */
  class AllocationGuard {
    var allocPtr: Option<nat>
    const allocSize: nat
    const allocator: Allocator

    constructor (allocPtr: nat, allocSize: nat, allocator: Allocator)
      ensures this.allocPtr == Some(allocPtr) && this.allocSize == allocSize && this.allocator == allocator
    {
      this.allocPtr := Some(allocPtr);
      this.allocSize := allocSize;
      this.allocator := allocator;
    }

    method Release()
      modifies this
      ensures allocPtr == None
    {
      allocPtr := None;
    }

    /** The destructor: the buffer is deallocated iff the guard was never released. */
    method Dispose()
      requires allocPtr.Some? ==> allocPtr.value in allocator.inUse
      modifies allocator
      ensures allocPtr.Some? ==> allocator.inUse == old(allocator.inUse) - {allocPtr.value}
      ensures allocPtr.None? ==> allocator.inUse == old(allocator.inUse)
    {
      if allocPtr.Some? {
        allocator.Deallocate(allocPtr.value);
      }
    }
  }

  datatype Option<T> = None | Some(value: T)
}
