/** The guarded construction procedures built from the guards: construct a run of
    objects, or move a run into another buffer, such that a throwing constructor
    leaves no object behind that nobody owns. A constructor call that throws is
    modelled by `budget`: the constructions numbered `budget` and later throw. */
module Construction {
  import opened Guards

  /** True when every slot of [lo, lo+n) lies in `live` and is raw. */
  ghost predicate AllRaw(live: seq<bool>, lo: nat, n: nat)
  {
    lo + n <= |live| && forall i :: lo <= i < lo + n ==> !live[i]
  }

  /** Construct `n` objects from `ptr` on under a construction guard; on failure the
      guard destroys, once each and in order, exactly the ones already constructed. */
  method ConstructN(s: Storage, ptr: nat, n: nat, budget: nat) returns (ok: bool)
    requires AllRaw(s.live, ptr, n)
    modifies s
    ensures ok <==> n <= budget
    ensures ok ==> s.live == SetSpan(old(s.live), ptr, n, true) && s.destroyed == old(s.destroyed)
    ensures !ok ==> s.live == old(s.live) && s.destroyed == old(s.destroyed) + Span(ptr, budget)
  {
    var guard := new ConstructionGuard(ptr, s);
    ok := true;
    var i := 0;
    while i < n
      invariant i <= n && i <= budget
      invariant guard.storage == s && guard.allocPtr == ptr && guard.elemCount == i
      invariant s.live == SetSpan(old(s.live), ptr, i, true) && s.destroyed == old(s.destroyed)
      invariant AllRaw(s.live, ptr + i, n - i)
    {
      if i == budget {
        ok := false;
        break;
      }
      s.Construct(ptr + i);
      guard.Extend();
      i := i + 1;
    }
    if ok {
      guard.Release();
    }
    ghost var live1 := s.live;
    guard.Dispose();
    if !ok {
      assert s.live == SetSpan(live1, ptr, budget, false);
    }
  }

  /** The same loop under a null guard (chosen for trivially destructible elements):
      on failure the objects already constructed are left in place. */
  method NullGuardedConstructN(s: Storage, ptr: nat, n: nat, budget: nat) returns (ok: bool)
    requires AllRaw(s.live, ptr, n)
    modifies s
    ensures ok <==> n <= budget
    ensures ok ==> s.live == SetSpan(old(s.live), ptr, n, true)
    ensures !ok ==> s.live == SetSpan(old(s.live), ptr, budget, true)
    ensures s.destroyed == old(s.destroyed)
  {
    var guard := new NullConstructionGuard(ptr, s);
    ok := true;
    var i := 0;
    while i < n
      invariant i <= n && i <= budget
      invariant s.live == SetSpan(old(s.live), ptr, i, true) && s.destroyed == old(s.destroyed)
      invariant AllRaw(s.live, ptr + i, n - i)
    {
      if i == budget {
        ok := false;
        break;
      }
      s.Construct(ptr + i);
      guard.Extend();
      i := i + 1;
    }
    if ok {
      guard.Release();
    }
    guard.Dispose();
  }

  /** Move-construct a run of `n` objects from `src` into raw slots of `dst` under a
      nand guard: on success the sources are destroyed and the copies kept, on
      failure the copies made so far are destroyed and the sources kept. */
  method MoveConstructRange(src: Storage, srcPtr: nat, dst: Storage, dstPtr: nat, n: nat, budget: nat)
    returns (ok: bool)
    requires src != dst
    requires AllLive(src.live, srcPtr, n) && AllRaw(dst.live, dstPtr, n)
    modifies src, dst
    ensures ok <==> n <= budget
    ensures ok ==>
      dst.live == SetSpan(old(dst.live), dstPtr, n, true) && dst.destroyed == old(dst.destroyed) &&
      src.live == SetSpan(old(src.live), srcPtr, n, false) &&
      src.destroyed == old(src.destroyed) + Span(srcPtr, n)
    ensures !ok ==>
      dst.live == old(dst.live) && dst.destroyed == old(dst.destroyed) + Span(dstPtr, budget) &&
      src.live == old(src.live) && src.destroyed == old(src.destroyed)
  {
    var guard := new NandConstructionGuard(srcPtr, src, dstPtr, dst);
    ok := true;
    var i := 0;
    while i < n
      invariant i <= n && i <= budget
      invariant guard.Valid() && !guard.dstReleased
      invariant guard.src.storage == src && guard.dst.storage == dst
      invariant guard.src.allocPtr == srcPtr && guard.dst.allocPtr == dstPtr
      invariant guard.src.elemCount == i && guard.dst.elemCount == i
      invariant fresh(guard.src) && fresh(guard.dst)
      invariant dst.live == SetSpan(old(dst.live), dstPtr, i, true) && dst.destroyed == old(dst.destroyed)
      invariant src.live == old(src.live) && src.destroyed == old(src.destroyed)
      invariant AllRaw(dst.live, dstPtr + i, n - i)
    {
      if i == budget {
        ok := false;
        break;
      }
      dst.Construct(dstPtr + i);
      guard.Extend();
      i := i + 1;
    }
    if ok {
      guard.Release();
    }
    ghost var srcLive, dstLive := src.live, dst.live;
    guard.Dispose();
    if ok {
      assert src.live == SetSpan(srcLive, srcPtr, n, false);
    } else {
      assert dst.live == SetSpan(dstLive, dstPtr, budget, false);
    }
  }
}
