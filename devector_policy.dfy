/** Capacity arithmetic of the devector. The default growth policy declares
    `unsigned int` as the size type, so every capacity and index is a 32-bit
    unsigned value and sums of them wrap modulo 2^32. */
module DevectorPolicy {

  /** The largest value of the 32-bit size type. */
  const SizeTypeMax: nat := 0xFFFF_FFFF

  /** Unsigned 32-bit arithmetic: reduction modulo 2^32. */
  function Wrap(x: int): (r: nat)
    ensures r <= SizeTypeMax
    ensures 0 <= x <= SizeTypeMax ==> r == x
    ensures SizeTypeMax < x <= 2 * SizeTypeMax + 1 ==> r == x - (SizeTypeMax + 1)
  {
    x % (SizeTypeMax + 1)
  }

  /** The growth policy: four times the capacity (in 32-bit arithmetic), or 16 from empty. */
  function NewCapacity(capacity: nat): (r: nat)
    requires capacity <= SizeTypeMax
    ensures r <= SizeTypeMax
  {
    if capacity != 0 then Wrap(capacity * 4) else 16
  }

  /** Growth is geometric as long as four times the capacity is representable. */
  lemma NewCapacityGrows(capacity: nat)
    requires capacity <= SizeTypeMax
    ensures capacity == 0 ==> NewCapacity(capacity) == 16
    ensures 0 < capacity && 4 * capacity <= SizeTypeMax ==> NewCapacity(capacity) == 4 * capacity > capacity
    ensures 4 * capacity > SizeTypeMax ==> NewCapacity(capacity) < 4 * capacity
  {
  }

  /** The shrink policy: shrink when the contents fit in the small buffer. */
  predicate ShouldShrink(size: nat, capacity: nat, smallBufferSize: nat)
  {
    size <= smallBufferSize
  }

  /** The smaller of the allocator's limit and the size type's limit. */
  function MaxSize(allocMax: nat): (r: nat)
    ensures r <= SizeTypeMax && r <= allocMax
    ensures r == allocMax || r == SizeTypeMax
  {
    if allocMax <= SizeTypeMax then allocMax else SizeTypeMax
  }

  datatype CapacityResult = Ok(capacity: nat) | MaxSizeExceeded

  /** `calculate_new_capacity`: the result is at least what was asked for, at
      least the policy's proposal, and never more than `maxSize`; a request past
      `maxSize` is a length error. Its callers compute `requested` in the size
      type, where it wraps; the model's callers pass it unwrapped. */
  function CalculateNewCapacity(capacity: nat, requested: nat, maxSize: nat): (r: CapacityResult)
    requires capacity <= SizeTypeMax
    ensures r.Ok? <==> requested <= maxSize && capacity <= maxSize && (NewCapacity(capacity) <= maxSize || requested >= NewCapacity(capacity)) && (requested >= capacity || NewCapacity(capacity) >= capacity)
    ensures r.Ok? ==> capacity <= r.capacity <= maxSize && requested <= r.capacity
    ensures r.Ok? ==> r.capacity == requested || r.capacity == NewCapacity(capacity)
  {
    var policy := NewCapacity(capacity);
    var newCapacity := if requested < policy then policy else requested;
    if newCapacity > maxSize || newCapacity < capacity then MaxSizeExceeded else Ok(newCapacity)
  }

  /** Inserting 0xA000_0000 elements into a devector of capacity 0x6000_0000: the
      request wraps to 0, the wrapped policy proposal 0x8000_0000 passes both checks,
      and the buffer obtained is too small for what has to go into it. */
  lemma CalculateNewCapacityWrapCounterexample()
    ensures var capacity, n := 0x6000_0000, 0xA000_0000;
      CalculateNewCapacity(capacity, Wrap(capacity + n), SizeTypeMax) == Ok(0x8000_0000) &&
      0x8000_0000 < capacity + n &&
      CalculateNewCapacity(capacity, capacity + n, SizeTypeMax) == MaxSizeExceeded
  {
  }

  /** A reallocation the reserve operations ask for: the new capacity and the index
      the first element is moved to. */
  datatype Reallocation = NoChange | ReallocateAt(newCapacity: nat, offset: nat)

  /** `reserve_front` as written, on the indices of a valid devector. */
  function ReserveFrontAsWritten(capacity: nat, front: nat, back: nat, n: nat): (r: Reallocation)
    requires front <= back <= capacity <= SizeTypeMax && n <= SizeTypeMax
    ensures r.ReallocateAt? ==> r.newCapacity <= SizeTypeMax && r.offset <= SizeTypeMax
    ensures r.ReallocateAt? && n + (capacity - back) <= SizeTypeMax ==>
      r.newCapacity == n + (capacity - back) && r.offset + (back - front) == n
  {
    if back >= n then NoChange
    else ReallocateAt(Wrap(n + (capacity - back)), Wrap(n - (back - front)))
  }

  /** `reserve_back` as written, on the indices of a valid devector. */
  function ReserveBackAsWritten(capacity: nat, front: nat, back: nat, n: nat): (r: Reallocation)
    requires front <= back <= capacity <= SizeTypeMax && n <= SizeTypeMax
    ensures r.ReallocateAt? ==> r.newCapacity <= SizeTypeMax && r.offset == front
    ensures r.ReallocateAt? && n + front <= SizeTypeMax ==> r.newCapacity == n + front
  {
    if capacity - front >= n then NoChange
    else ReallocateAt(Wrap(n + front), front)
  }

  /** An empty devector of capacity 16: reserving 2^32 - 8 slots at the front
      reallocates to capacity 8 with the elements placed at index 2^32 - 8, and
      reserving them at the back of one whose indices sit at 16 reallocates to
      capacity 8 with the back index left at 16 - both past the new capacity, where
      a length error was due. */
  lemma ReserveWrapCounterexample()
    ensures ReserveFrontAsWritten(16, 0, 0, 0xFFFF_FFF8) == ReallocateAt(8, 0xFFFF_FFF8)
    ensures ReserveBackAsWritten(16, 16, 16, 0xFFFF_FFF8) == ReallocateAt(8, 16)
  {
  }
}
