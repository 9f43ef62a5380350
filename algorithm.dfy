/** The element-shifting loops the containers use to close or open gaps. A move
    leaves its source in a valid but unspecified state; in this value model the
    source keeps its value, which is one of the states the move may leave. */
module Algorithm {
  import opened SeqUtil

  /** Moves [first, last) to [dst, dst + (last - first)) front to back; correct when
      dst does not lie strictly inside the source range (a leftward or disjoint move). */
  method MoveIfNoexcept<T>(a: array<T>, first: nat, last: nat, dst: nat)
    requires first <= last <= a.Length && dst + (last - first) <= a.Length
    requires !(first < dst < last)
    modifies a
    ensures a[..] == Overwrite(old(a[..]), dst, old(a[first..last]))
  {
    ghost var s0 := a[..];
    var f, d := first, dst;
    while f != last
      invariant first <= f <= last && d == dst + (f - first)
      invariant forall i :: 0 <= i < a.Length && !(dst <= i < d) ==> a[i] == s0[i]
      invariant forall i :: dst <= i < d ==> a[i] == s0[i - dst + first]
    {
      a[d] := a[f];
      f, d := f + 1, d + 1;
    }
    assert a[..] == Overwrite(s0, dst, s0[first..last]);
  }

  /** Moves [first, last) so that it ends at dstLast, back to front; correct when
      dstLast does not lie strictly inside (first, last) (a rightward, disjoint
      or in-place move). */
  method MoveIfNoexceptBackward<T>(a: array<T>, first: nat, last: nat, dstLast: nat)
    requires first <= last <= a.Length && last - first <= dstLast <= a.Length
    requires !(first < dstLast < last)
    modifies a
    ensures a[..] == Overwrite(old(a[..]), dstLast - (last - first), old(a[first..last]))
  {
    ghost var s0 := a[..];
    ghost var dst := dstLast - (last - first);
    var l, d := last, dstLast;
    while l != first
      invariant first <= l <= last && d == dst + (l - first)
      invariant forall i :: 0 <= i < a.Length && !(d <= i < dstLast) ==> a[i] == s0[i]
      invariant forall i :: d <= i < dstLast ==> a[i] == s0[i - d + l]
    {
      d, l := d - 1, l - 1;
      a[d] := a[l];
    }
    assert a[..] == Overwrite(s0, dst, s0[first..last]);
  }
}
