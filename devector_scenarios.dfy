/** Call sequences on a devector whose outcome the container documents: reserving
    before a run of pushes, shrinking twice, and what a moved-from devector shares
    with the devector it was moved into. */
module DevectorScenarios {
  import opened SeqUtil
  import opened DevectorPolicy
  import opened Devector

  /** reserve_back(size + |xs|) followed by push_back of every element of `xs`:
      at most one reallocation, made by the reserve, and none by the pushes. */
  method ReserveBackThenPush<T(0)>(d: Devector<T>, xs: seq<T>) returns (st: Status)
    requires d.Valid() && d.Size() + |xs| <= SizeTypeMax
    modifies d.Repr
    ensures d.Valid() && fresh(d.Repr - old(d.Repr))
    ensures st != ElementError
    ensures st == LengthError <==> old(d.Capacity()) - old(d.front) < old(d.Size()) + |xs| &&
                                   old(d.Size()) + |xs| + old(d.FrontFree()) > SizeTypeMax
    ensures st == Success ==> d.Elements() == old(d.Elements()) + xs
    ensures d.allocations <= old(d.allocations) + 1
  {
    st := d.ReserveBack(d.Size() + |xs|);
    if st != Success {
      return;
    }
    ghost var reserved := d.allocations;
    var i := 0;
    while i < |xs|
      invariant 0 <= i <= |xs| && d.Valid() && fresh(d.Repr - old(d.Repr))
      invariant d.Elements() == old(d.Elements()) + xs[..i]
      invariant d.BackFree() >= |xs| - i && d.allocations == reserved
    {
      var pushed := d.PushBack(xs[i], false);
      assert xs[..i + 1] == xs[..i] + [xs[i]];
      i := i + 1;
    }
    assert xs[..i] == xs;
  }

  /** reserve_front(size + |xs|) followed by push_front of every element of `xs`:
      the elements end up in reverse order before the old ones, and the pushes do
      not reallocate. */
  method ReserveFrontThenPush<T(0)>(d: Devector<T>, xs: seq<T>) returns (st: Status)
    requires d.Valid() && d.Size() + |xs| <= SizeTypeMax
    modifies d.Repr
    ensures d.Valid() && fresh(d.Repr - old(d.Repr))
    ensures st != ElementError
    ensures st == LengthError <==> old(d.back) < old(d.Size()) + |xs| &&
                                   old(d.Size()) + |xs| + old(d.BackFree()) > SizeTypeMax
    ensures st == Success ==> d.Elements() == Reversed(xs) + old(d.Elements())
    ensures d.allocations <= old(d.allocations) + 1
  {
    st := d.ReserveFront(d.Size() + |xs|);
    if st != Success {
      return;
    }
    ghost var reserved := d.allocations;
    var i := 0;
    while i < |xs|
      invariant 0 <= i <= |xs| && d.Valid() && fresh(d.Repr - old(d.Repr))
      invariant d.Elements() == Reversed(xs[..i]) + old(d.Elements())
      invariant d.FrontFree() >= |xs| - i && d.allocations == reserved
    {
      ghost var e1 := d.Elements();
      var pushed := d.PushFront(xs[i], false);
      assert pushed == Success && d.Elements() == [xs[i]] + e1;
      ReversedPrefixStep(xs, i, old(d.Elements()));
      i := i + 1;
    }
    assert xs[..i] == xs;
  }

  /** One more element of xs, reversed, in front of e. */
  lemma ReversedPrefixStep<T>(xs: seq<T>, i: nat, e: seq<T>)
    requires i < |xs|
    ensures Reversed(xs[..i + 1]) + e == [xs[i]] + (Reversed(xs[..i]) + e)
  {
    assert xs[..i + 1] == xs[..i] + [xs[i]];
    ReversedSnoc(xs[..i], xs[i]);
  }

  /** Appending to a sequence prepends to its reversal. */
  lemma ReversedSnoc<T>(s: seq<T>, x: T)
    ensures Reversed(s + [x]) == [x] + Reversed(s)
  {
    var a, b := Reversed(s + [x]), [x] + Reversed(s);
    forall i | 0 <= i < |a|
      ensures a[i] == b[i]
    {
      if i > 0 {
        assert b[i] == Reversed(s)[i - 1];
      }
    }
  }

  /** A second shrink_to_fit changes neither the contents nor the capacity. */
  method ShrinkToFitTwice<T(0)>(d: Devector<T>)
    requires d.Valid()
    modifies d.Repr
    ensures d.Valid() && d.Elements() == old(d.Elements())
    ensures old(d.Size()) <= d.smallBufferSize ==> d.Capacity() == d.smallBufferSize
    ensures old(d.Size()) > d.smallBufferSize ==> d.Capacity() == old(d.Capacity())
  {
    d.ShrinkToFit();
    ghost var once := d.Capacity();
    d.ShrinkToFit();
    assert d.Capacity() == once;
  }

  /** With the move assignment as written, a moved-from devector and the devector
      it was moved into end up sharing one buffer once the latter has shrunk back
      into its small buffer: every later write through either is seen by the other. */
  method MoveAssignSharesBuffer() returns (d: Devector<int>, x: Devector<int>)
    ensures d.Valid() && d.buffer == x.buffer && x.buffer.Length == 4 && x.back == 0
  {
    d := new Devector<int>.Default(4);
    x := new Devector<int>.Reserved(4, 0, 8);
    d.MoveAssignAsWritten(x);
    d.Clear();
    d.ShrinkToFit();
  }

  /** The same calls with the corrected move assignment keep both devectors valid
      and their buffers apart. */
  method MoveAssignKeepsBuffersApart() returns (d: Devector<int>, x: Devector<int>)
    ensures d.Valid() && x.Valid() && d.buffer != x.buffer && d.Repr !! x.Repr
  {
    d := new Devector<int>.Default(4);
    x := new Devector<int>.Reserved(4, 0, 8);
    d.MoveAssign(x);
    d.Clear();
    d.ShrinkToFit();
  }
}
