/** The random-access iterator over `n` copies of one value, used to feed
    "n copies of x" into the range-based construction and insertion paths. The
    iterator counts down the copies still ahead of it, so incrementing decreases
    `size` and two iterators are equal when they have the same number left. */
module Iterators {
  import opened SeqUtil

  class ConstantIterator<T> {
    const value: T
    var size: int

    constructor (value: T, size: int)
      ensures this.value == value && this.size == size
    {
      this.value := value;
      this.size := size;
    }

    /** A copy of `it` (iterators are copied by value). */
    constructor Copy(it: ConstantIterator<T>)
      ensures value == it.value && size == it.size
    {
      value := it.value;
      size := it.size;
    }

    /** Every position yields the same value. */
    function Dereference(): (v: T)
      ensures v == value
    {
      value
    }

    /** Only the remaining count is compared; the referenced value is not. */
    predicate Equal(rhs: ConstantIterator<T>)
      reads this, rhs
      ensures Equal(rhs) <==> DistanceTo(rhs) == 0
    {
      size == rhs.size
    }

    method Increment()
      modifies this
      ensures size == old(size) - 1
    {
      size := size - 1;
    }

    method Decrement()
      modifies this
      ensures size == old(size) + 1
    {
      size := size + 1;
    }

    method Advance(n: int)
      modifies this
      ensures size == old(size) - n
    {
      size := size - n;
    }

    /** The signed number of increments that take this iterator to `b`. */
    function DistanceTo(b: ConstantIterator<T>): (d: int)
      reads this, b
      ensures b.size == size - d
    {
      size - b.size
    }
  }

  /** The pair (first, first + n) that "n copies of value" is passed as, walked from
      first to last as a range algorithm does: it yields exactly n copies of value. */
  method CopiesOf<T>(value: T, n: nat) returns (s: seq<T>)
    ensures s == Repeat(value, n)
  {
    var first := new ConstantIterator(value, n);
    var last := new ConstantIterator.Copy(first);
    last.Advance(n);
    assert first.DistanceTo(last) == n;
    s := [];
    while !first.Equal(last)
      invariant last.size == 0 && 0 <= first.size <= n
      invariant first.DistanceTo(last) == n - |s|
      invariant s == Repeat(value, |s|)
      decreases first.size
    {
      s := s + [first.Dereference()];
      first.Increment();
    }
  }
}
