/** Iterator arithmetic of the batch deque. An iterator is a pair of a map slot
    (the segment) and an index inside that segment; with a segment size of S its
    linear position is seg * S + idx. Iterators are small values that are copied
    freely, so their operations are modelled as functions returning the moved
    iterator. Arithmetic is on mathematical integers, except where the source's
    mixing of signed and unsigned 64-bit operands changes the result. */
module DequeIterator {

  const TwoTo63: int := 0x8000_0000_0000_0000
  const TwoTo64: int := 0x1_0000_0000_0000_0000

  datatype Iter = Iter(seg: int, idx: nat)

  /** An iterator whose in-segment index is below the segment size. */
  predicate Normal(it: Iter, S: nat)
  {
    it.idx < S
  }

  /** The linear position of an iterator. */
  function Lin(it: Iter, S: nat): int
  {
    it.seg * S + it.idx
  }

  /** Multiplying by S keeps the order. */
  lemma MulMono(a: int, b: int, S: nat)
    requires a <= b
    ensures a * S <= b * S
  {
    assert b * S - a * S == (b - a) * S;
  }

  /** A nonzero multiple of S is at least S away from zero. */
  lemma MultipleBound(d: int, S: nat)
    ensures d >= 1 ==> d * S >= S
    ensures d <= -1 ==> d * S + S <= 0
  {
  }

  /** Two normal iterators at the same linear position are equal: the pair is
      determined by the position. */
  lemma LinInjective(a: Iter, b: Iter, S: nat)
    requires S > 0 && Normal(a, S) && Normal(b, S) && Lin(a, S) == Lin(b, S)
    ensures a == b
  {
    var d := a.seg - b.seg;
    assert d * S == b.idx - a.idx;
    MultipleBound(d, S);
  }

  /** Bounds on a linear position bound the segment of a normal iterator. */
  lemma SegmentBounds(it: Iter, k: int, S: nat)
    requires S > 0 && Normal(it, S)
    ensures Lin(it, S) <= k * S ==> it.seg <= k
    ensures Lin(it, S) < k * S ==> it.seg < k
    ensures Lin(it, S) >= 0 ==> it.seg >= 0
    ensures Lin(it, S) == 0 ==> it == Iter(0, 0)
  {
    MultipleBound(it.seg - k, S);
    MultipleBound(-it.seg, S);
    assert Lin(it, S) - k * S == (it.seg - k) * S + it.idx;
  }

  /** The normal iterator at linear position p. */
  function AtLin(p: int, S: nat): (it: Iter)
    requires S > 0
    ensures Normal(it, S) && Lin(it, S) == p
  {
    Iter(p / S, p % S)
  }

  /** increment: one step forward, into the next segment after the last index. */
  function Increment(it: Iter, S: nat): (r: Iter)
    requires S > 1 && Normal(it, S)
    ensures Normal(r, S) && Lin(r, S) == Lin(it, S) + 1
  {
    if it.idx + 1 == S then Iter(it.seg + 1, 0) else Iter(it.seg, it.idx + 1)
  }

  /** decrement: one step back, to the last index of the previous segment from
      index 0. */
  function Decrement(it: Iter, S: nat): (r: Iter)
    requires S > 1 && Normal(it, S)
    ensures Normal(r, S) && Lin(r, S) == Lin(it, S) - 1
  {
    if it.idx != 0 then Iter(it.seg, it.idx - 1) else Iter(it.seg - 1, S - 1)
  }

  /** increment and decrement undo each other. */
  lemma IncrementDecrementInverse(it: Iter, S: nat)
    requires S > 1 && Normal(it, S)
    ensures Decrement(Increment(it, S), S) == it
    ensures Increment(Decrement(it, S), S) == it
  {
    LinInjective(Decrement(Increment(it, S), S), it, S);
    LinInjective(Increment(Decrement(it, S), S), it, S);
  }

  /** C++ integer division, which truncates toward zero. */
  function TruncDiv(a: int, b: nat): (q: int)
    requires b > 0
    ensures a >= 0 ==> q == a / b
    ensures a < 0 ==> q == -((-a) / b)
  {
    if a >= 0 then a / b else -((-a) / b)
  }

  /** The value a signed 64-bit operand takes when it meets an unsigned 64-bit one. */
  function ToUnsigned(n: int): (u: nat)
    requires -TwoTo63 <= n < TwoTo63
    ensures u < TwoTo64 && (u - n) % TwoTo64 == 0
  {
    if n < 0 then n + TwoTo64 else n
  }

  /** advance as written. For negative n the segment step is a truncating division
      arranged to round down, while the new index is computed from `n %
      segment_size`, in which the signed n is converted to the unsigned size type,
      that is, n + 2^64 is reduced. */
  function AdvanceAsWritten(it: Iter, n: int, S: nat): (r: Iter)
    requires S > 1 && S < TwoTo64 && Normal(it, S) && -TwoTo63 <= n < TwoTo63
    ensures Normal(r, S)
  {
    if n >= 0 then
      Iter(it.seg + (it.idx + n) / S, (it.idx + n) % S)
    else
      Iter(it.seg + TruncDiv(1 - S + it.idx + n, S), (it.idx + ToUnsigned(n) % S) % S)
  }

  /** advance with both parts computed by floor division: the iterator moves by
      exactly n positions and stays normal. */
  function Advance(it: Iter, n: int, S: nat): (r: Iter)
    requires S > 1 && Normal(it, S)
    ensures Normal(r, S) && Lin(r, S) == Lin(it, S) + n
  {
    AtLin(Lin(it, S) + n, S)
  }

  /** Floor division of a sum whose first part is a multiple of the divisor. */
  lemma DivShift(seg: int, r: int, S: nat)
    requires S > 0
    ensures (seg * S + r) / S == seg + r / S && (seg * S + r) % S == r % S
  {
    var q, m := r / S, r % S;
    assert r == q * S + m && 0 <= m < S;
    assert seg * S + r == (seg + q) * S + m;
    LinInjective(Iter(seg + q, m), AtLin(seg * S + r, S), S);
  }

  /** The corrected advance is the as-written formula with the segment step and
      the index both taken by floor division of idx + n. */
  lemma AdvanceSplits(it: Iter, n: int, S: nat)
    requires S > 1 && Normal(it, S)
    ensures Advance(it, n, S) == Iter(it.seg + (it.idx + n) / S, (it.idx + n) % S)
  {
    DivShift(it.seg, it.idx + n, S);
  }

  /** Below the divisor, floor division gives 0 and the remainder is the value. */
  lemma SmallDiv(x: int, S: nat)
    requires 0 <= x < S
    ensures x / S == 0 && x % S == x
  {
    LinInjective(AtLin(x, S), Iter(0, x), S);
  }

  /** The segment step of the written advance is right for every segment size:
      for negative n the truncating division of 1 - S + idx + n rounds idx + n down. */
  lemma AdvanceAsWrittenSegment(it: Iter, n: int, S: nat)
    requires S > 1 && S < TwoTo64 && Normal(it, S) && -TwoTo63 <= n < TwoTo63
    ensures AdvanceAsWritten(it, n, S).seg == Advance(it, n, S).seg
  {
    AdvanceSplits(it, n, S);
    if n < 0 {
      var m := it.idx + n;
      var a := S - 1 - m;
      var q, r := a / S, a % S;
      assert a == q * S + r && 0 <= r < S;
      assert TruncDiv(1 - S + m, S) == -q;
      var low := S - 1 - r;
      assert m == (-q) * S + low;
      DivShift(-q, low, S);
      SmallDiv(low, S);
    }
  }

  /** When S divides 2^64 (a power of two), the written advance is the corrected
      one: converting n to unsigned adds a multiple of S. */
  lemma AdvanceAsWrittenPowerOfTwo(it: Iter, n: int, S: nat)
    requires S > 1 && S < TwoTo64 && Normal(it, S) && -TwoTo63 <= n < TwoTo63
    requires TwoTo64 % S == 0
    ensures AdvanceAsWritten(it, n, S) == Advance(it, n, S)
  {
    AdvanceAsWrittenSegment(it, n, S);
    AdvanceSplits(it, n, S);
    if n < 0 {
      var k := TwoTo64 / S;
      assert TwoTo64 == k * S;
      DivShift(k, n, S);
      assert ToUnsigned(n) == k * S + n;
      var u := ToUnsigned(n) % S;
      assert u == n % S;
      DivShift(n / S, it.idx + u, S);
      assert it.idx + n == (n / S) * S + (it.idx + u);
    }
  }

  /** With segments of three elements, stepping back one from index 2 leaves the
      iterator where it was: 2^64 - 1 is a multiple of 3. A push_front into that
      deque constructs over its first element. */
  lemma AdvanceAsWrittenCounterexample()
    ensures AdvanceAsWritten(Iter(0, 2), -1, 3) == Iter(0, 2)
    ensures Advance(Iter(0, 2), -1, 3) == Iter(0, 1)
  {
    assert ToUnsigned(-1) == 0xFFFF_FFFF_FFFF_FFFF;
    assert 0xFFFF_FFFF_FFFF_FFFF == 3 * 0x5555_5555_5555_5555;
    assert ToUnsigned(-1) % 3 == 0;
    assert TruncDiv(-1, 3) == 0;
    assert Lin(Iter(0, 2), 3) - 1 == 1;
  }

  /** Stepping by one with advance is increment or decrement. */
  lemma AdvanceByOne(it: Iter, S: nat)
    requires S > 1 && Normal(it, S)
    ensures Advance(it, 1, S) == Increment(it, S)
    ensures Advance(it, -1, S) == Decrement(it, S)
  {
    LinInjective(Advance(it, 1, S), Increment(it, S), S);
    LinInjective(Advance(it, -1, S), Decrement(it, S), S);
  }

  /** Two advances compose into one. */
  lemma AdvanceCompose(it: Iter, m: int, n: int, S: nat)
    requires S > 1 && Normal(it, S)
    ensures Advance(Advance(it, m, S), n, S) == Advance(it, m + n, S)
  {
    LinInjective(Advance(Advance(it, m, S), n, S), Advance(it, m + n, S), S);
  }

  /** distance_to: how far b lies after a. */
  function DistanceTo(a: Iter, b: Iter, S: nat): (d: int)
    ensures d == Lin(b, S) - Lin(a, S)
  {
    S * (b.seg - a.seg - 1) + b.idx + (S - a.idx)
  }

  /** Advancing by the distance reaches the target, and the distance covered by an
      advance is its step. */
  lemma DistanceAdvance(a: Iter, b: Iter, n: int, S: nat)
    requires S > 1 && Normal(a, S) && Normal(b, S)
    ensures Advance(a, DistanceTo(a, b, S), S) == b
    ensures DistanceTo(a, Advance(a, n, S), S) == n
  {
    LinInjective(Advance(a, DistanceTo(a, b, S), S), b, S);
  }

  /** Iterator order: a lies before b. */
  predicate Less(a: Iter, b: Iter, S: nat)
  {
    Lin(a, S) < Lin(b, S)
  }

  /** operator< of the iterator facade is a positive distance_to: the same order. */
  lemma LessIsPositiveDistance(a: Iter, b: Iter, S: nat)
    ensures Less(a, b, S) <==> DistanceTo(a, b, S) > 0
  {
  }

  /** segment_count: the number of segments n elements need (a ceiling division). */
  function SegmentCount(n: nat, S: nat): (c: nat)
    requires S > 0
    ensures c * S >= n
    ensures c == 0 || (c - 1) * S < n
  {
    (n + S - 1) / S
  }

  /** new_map_capacity: the map grows by half plus one, or starts at four slots. */
  function NewMapCapacity(mapSize: nat): (c: nat)
    ensures c > mapSize
    ensures mapSize == 0 ==> c == 4
    ensures mapSize > 0 ==> c >= mapSize + mapSize / 2 + 1
  {
    if mapSize != 0 then mapSize + mapSize / 2 + 1 else 4
  }

  /** A segment iterator: a segment of the map and the index its live part starts
      at. */
  datatype SegIter = SegIter(seg: int, idx: nat)

  /** segment_begin: the segment of the first element, from its index. */
  function SegmentBegin(begin: Iter): SegIter
  {
    SegIter(begin.seg, begin.idx)
  }

  /** segment_end: one past the segment of the last element. */
  function SegmentEnd(end: Iter): (r: SegIter)
    ensures r.idx == 0
    ensures r.seg == end.seg || (end.idx > 0 && r.seg == end.seg + 1)
  {
    SegIter(end.seg + (if end.idx > 0 then 1 else 0), 0)
  }

  /** data_size: the live elements in this segment, from the iterator's index on. */
  function DataSize(it: SegIter, end: Iter, S: nat): int
  {
    if it.seg != end.seg then S - it.idx else end.idx - it.idx
  }

  /** Segment iterator increment: the next segment, from index 0. */
  function SegIncrement(it: SegIter): (r: SegIter)
    ensures r.seg == it.seg + 1 && r.idx == 0
  {
    SegIter(it.seg + 1, 0)
  }

  /** Segment iterator decrement: the previous segment; reaching the first segment
      restores the first element's index. */
  function SegDecrement(it: SegIter, begin: Iter): (r: SegIter)
    ensures r.seg == it.seg - 1
    ensures r.seg == begin.seg ==> r.idx == begin.idx
  {
    if it.seg - 1 == begin.seg then SegIter(it.seg - 1, begin.idx) else SegIter(it.seg - 1, it.idx)
  }

  /** Segment iterator advance: n segments on, from index 0. */
  function SegAdvance(it: SegIter, n: int): (r: SegIter)
    ensures r.seg == it.seg + n && r.idx == 0
  {
    SegIter(it.seg + n, 0)
  }

  /** Segment iterator distance: the number of segments between the two. */
  function SegDistance(a: SegIter, b: SegIter): (d: int)
    ensures SegAdvance(a, d).seg == b.seg
  {
    b.seg - a.seg
  }

  /** A step forward and back returns to a segment iterator that a walk from
      segment_begin can reach: the first segment's index is restored, any other
      segment is entered at index 0. */
  lemma SegDecrementUndoesIncrement(it: SegIter, begin: Iter)
    requires if it.seg == begin.seg then it.idx == begin.idx else it.idx == 0
    ensures SegDecrement(SegIncrement(it), begin) == it
  {
  }
}
