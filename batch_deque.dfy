/** batch_deque: a double-ended queue whose elements live in fixed-size segments of
    S slots. A map (a sequence of segment pointers) holds the segments in order; the
    elements are the slots from the begin iterator up to the end iterator, read
    across the segments in map order. Iterator segment numbers are positions in the
    map, counted from its first entry, which is what save_iterators and
    restore_iterators keep when the map itself is reallocated. The field segments
    holds the map's entries. */
module BatchDeque {
  import opened DequeIterator
  import opened SegmentGrid
  import opened SeqUtil
  import Iterators

  datatype Status = Success | ElementError

  datatype Access<T> = Value(value: T) | OutOfRange

  /** back_free_capacity as written: the slot count from the end iterator's segment
      to the end of the map, plus the slots left in that segment. */
  function BackFreeAsWritten(mapSize: nat, end: Iter, S: nat): (r: int)
    requires S > 0
    ensures r >= BackFreeOf(mapSize, end, S)
  {
    (mapSize - end.seg) * S + (S - end.idx) % S
  }

  /** The free slots after the last element: every slot of the map from the end
      iterator on. */
  function BackFreeOf(mapSize: nat, end: Iter, S: nat): (r: int)
    ensures r + Lin(end, S) == mapSize * S
  {
    (mapSize - end.seg) * S - end.idx
  }

  /** A segment added before the map and an end iterator that keeps its entry
      leave the back free capacity as it was. */
  lemma BackFreeShift(mapSize: nat, end: Iter, S: nat)
    ensures BackFreeOf(mapSize + 1, Iter(end.seg + 1, end.idx), S) == BackFreeOf(mapSize, end, S)
  {
  }

  /** The count as written is right when the end iterator starts a segment and one
      segment too high otherwise: it counts the end iterator's segment in full and
      then its free slots a second time. */
  lemma BackFreeAsWrittenOverReports(mapSize: nat, end: Iter, S: nat)
    requires S > 1 && Normal(end, S)
    ensures end.idx == 0 ==> BackFreeAsWritten(mapSize, end, S) == BackFreeOf(mapSize, end, S)
    ensures end.idx > 0 ==> BackFreeAsWritten(mapSize, end, S) == BackFreeOf(mapSize, end, S) + S
  {
    if end.idx > 0 {
      assert (S - end.idx) % S == S - end.idx;
    }
  }

  /** One element in a one-segment map of eight slots: seven slots are free, fifteen
      are reported. */
  lemma BackFreeAsWrittenCounterexample()
    ensures BackFreeAsWritten(1, Iter(0, 1), 8) == 15
    ensures BackFreeOf(1, Iter(0, 1), 8) == 7
  {
  }

  /** The back loop of shrink_to_fit as written, after k rounds on a map of
      mapSize entries whose end iterator sits in entry endSeg: the loop iterator
      starts at entry endSeg and moves one entry on per round, releasing each
      segment it passes, while each round also removes the map's last entry. */
  datatype ShrinkRounds = ShrinkRounds(it: int, mapEnd: int, released: seq<int>, removed: seq<int>)

  function ShrinkBackAsWritten(mapSize: nat, endSeg: nat, k: nat): ShrinkRounds
  {
    ShrinkRounds(endSeg + k, mapSize - k, seq(k, i => endSeg + i), seq(k, i => mapSize - 1 - i))
  }

  /** The loop stops (its iterator meets the shrinking map end) only when the
      number of entries from endSeg on is even, after half of them; and whenever it
      stops after a round, the segment of entry endSeg has been released while its
      entry is still in the map. */
  lemma ShrinkBackAsWrittenStops(mapSize: nat, endSeg: nat, k: nat)
    requires endSeg <= mapSize
    ensures ShrinkBackAsWritten(mapSize, endSeg, k).it == ShrinkBackAsWritten(mapSize, endSeg, k).mapEnd
      <==> mapSize - endSeg == 2 * k
    ensures mapSize - endSeg == 2 * k && k > 0 ==>
      endSeg in ShrinkBackAsWritten(mapSize, endSeg, k).released
      && endSeg !in ShrinkBackAsWritten(mapSize, endSeg, k).removed
  {
    var r := ShrinkBackAsWritten(mapSize, endSeg, k);
    if mapSize - endSeg == 2 * k && k > 0 {
      assert r.released[0] == endSeg;
    }
  }

  /** A map of one entry whose end iterator is at its first slot (the deque was
      cleared): the loop never meets the map end. With two entries and the end
      iterator inside the first (one element): the loop stops after one round,
      having released the segment that holds the element and removed the entry
      of the other segment, which is never released. */
  lemma ShrinkBackAsWrittenCounterexample()
    ensures forall k: nat :: ShrinkBackAsWritten(1, 0, k).it != ShrinkBackAsWritten(1, 0, k).mapEnd
    ensures ShrinkBackAsWritten(2, 0, 1).it == ShrinkBackAsWritten(2, 0, 1).mapEnd
    ensures ShrinkBackAsWritten(2, 0, 1).released == [0] && ShrinkBackAsWritten(2, 0, 1).removed == [1]
  {
  }

  /** The iterators overwrite_buffer_impl leaves after assigning from a range of
      n elements, as written: an empty deque is left alone; otherwise the slots
      from the start of the map are written up to min(n, position of end), end
      follows the last written slot, and begin keeps its segment with index 0. */
  function AssignIteratorsAsWritten(begin: Iter, end: Iter, n: nat, S: nat): (Iter, Iter)
    requires S > 1
  {
    if begin == end then (begin, end)
    else (Iter(begin.seg, 0), AtLin(if n < Lin(end, S) then n else Lin(end, S), S))
  }

  /** push_back(1) on an empty deque of two-slot segments, then reserve_front(4),
      which prepends two segments, then assign of one element: begin is left at
      (2, 0) and end at (0, 1), before it. */
  lemma AssignAsWrittenCounterexample()
    ensures SegmentCount(4 - 1, 2) == 2
    ensures AssignIteratorsAsWritten(Iter(2, 0), Iter(2, 1), 1, 2) == (Iter(2, 0), Iter(0, 1))
    ensures Less(Iter(0, 1), Iter(2, 0), 2)
  {
    assert (3 + 2 - 1) / 2 == 2;
    assert Lin(Iter(2, 1), 2) == 5;
    assert 1 / 2 == 0 && 1 % 2 == 1;
    assert AtLin(1, 2) == Iter(0, 1);
    assert Iter(2, 0) != Iter(2, 1);
    assert AssignIteratorsAsWritten(Iter(2, 0), Iter(2, 1), 1, 2) == (Iter(2, 0), AtLin(1, 2));
    assert DistanceTo(Iter(0, 1), Iter(2, 0), 2) == 3;
  }

  /** The number of segments reserve_back adds, as written: it trusts the
      over-reported back free capacity. */
  function ReserveBackSegmentsAsWritten(mapSize: nat, begin: Iter, end: Iter, n: nat, S: nat): nat
    requires S > 0
  {
    var backCapacity := BackFreeAsWritten(mapSize, end, S) + DistanceTo(begin, end, S);
    if n <= backCapacity then 0 else SegmentCount(n - backCapacity, S)
  }

  /** reserve_back(16) on a deque holding one element in one segment of eight
      slots adds no segment, leaving room for eight elements at the back. */
  lemma ReserveBackAsWrittenCounterexample()
    ensures ReserveBackSegmentsAsWritten(1, Iter(0, 0), Iter(0, 1), 16, 8) == 0
    ensures DistanceTo(Iter(0, 0), Iter(0, 1), 8) + BackFreeOf(1, Iter(0, 1), 8) == 8
  {
    BackFreeAsWrittenCounterexample();
    assert Lin(Iter(0, 1), 8) == 1 && Lin(Iter(0, 0), 8) == 0;
    assert DistanceTo(Iter(0, 0), Iter(0, 1), 8) == 1;
  }

  /** The padding stable_insert appends to a temporary deque built from n
      elements, as written (its back free capacity) and as documented (up to the
      next segment boundary): whenever n is not a multiple of S a whole segment of
      default-constructed elements too many is inserted. */
  lemma StableInsertPaddingAsWritten(n: nat, S: nat)
    requires S > 1
    ensures n % S == 0 ==> BackFreeAsWritten(SegmentCount(n, S), AtLin(n, S), S) == 0
    ensures n % S != 0 ==> BackFreeAsWritten(SegmentCount(n, S), AtLin(n, S), S) == S + (S - n % S)
    ensures BackFreeOf(SegmentCount(n, S), AtLin(n, S), S) == (S - n % S) % S
  {
    var c, it := SegmentCount(n, S), AtLin(n, S);
    SegmentCountSplit(n, S);
    BackFreeAsWrittenOverReports(c, it, S);
    if it.idx == 0 {
      assert BackFreeOf(c, it, S) == 0;
      assert S % S == 0;
    } else {
      assert BackFreeOf(c, it, S) == S - it.idx;
      assert (S - it.idx) % S == S - it.idx;
    }
  }

  /** segment_count is the quotient, plus one for a partly filled last segment. */
  lemma SegmentCountSplit(n: nat, S: nat)
    requires S > 1
    ensures n % S == 0 ==> SegmentCount(n, S) == n / S
    ensures n % S != 0 ==> SegmentCount(n, S) == n / S + 1
  {
    var q, r := n / S, n % S;
    assert n == q * S + r;
    if r == 0 {
      DivShift(q, S - 1, S);
      SmallDiv(S - 1, S);
    } else {
      assert n + S - 1 == (q + 1) * S + (r - 1);
      DivShift(q + 1, r - 1, S);
      SmallDiv(r - 1, S);
    }
  }

  /** segment_count grows by one when a partly or fully used segment is added
      after k full ones. */
  lemma SegmentCountStep(k: nat, t: nat, S: nat)
    requires S > 1 && 0 < t <= S
    ensures SegmentCount(k * S, S) == k && SegmentCount(k * S + t, S) == k + 1
  {
    DivShift(k, S - 1, S);
    SmallDiv(S - 1, S);
    assert k * S + t + S - 1 == (k + 1) * S + (t - 1);
    DivShift(k + 1, t - 1, S);
    SmallDiv(t - 1, S);
  }

  /** opt_copy into a fresh segment: the source elements fill its first slots. */
  method FillSegment<T>(a: array<T>, src: seq<T>)
    requires |src| <= a.Length
    modifies a
    ensures a[..|src|] == src
  {
    var k := 0;
    while k < |src|
      invariant 0 <= k <= |src|
      invariant a[..k] == src[..k]
    {
      a[k] := src[k];
      k := k + 1;
      assert a[..k] == a[..k - 1] + [a[k - 1]];
    }
  }

  /** Appending a row whose first n slots continue a prefix of r extends the
      matched prefix of the layout by n. */
  lemma FlatExtendPrefix<T>(g: seq<seq<T>>, row: seq<T>, r: seq<T>, i: nat, n: nat)
    requires |Flat(g)| == i && i + n <= |r| && n <= |row|
    requires Flat(g) == r[..i] && row[..n] == r[i..i + n]
    ensures |Flat(g + [row])| == i + |row| && Flat(g + [row])[..i + n] == r[..i + n]
  {
    FlatConcat(g, [row]);
    FlatSingle(row);
    assert r[..i + n] == r[..i] + r[i..i + n];
  }

  /** Appending a row to a grid keeps every slice of its old layout. */
  lemma FlatSnocKeeps<T>(g: seq<seq<T>>, row: seq<T>, lo: int, hi: int)
    requires 0 <= lo <= hi <= |Flat(g)|
    ensures Flat(g + [row])[lo..hi] == Flat(g)[lo..hi]
  {
    FlatConcat(g, [row]);
    FlatSingle(row);
  }

  /** A row laid after a layout: a suffix slice running one slot into the row
      gains the row's first slot. */
  lemma AppendSlice<T>(b: seq<T>, row: seq<T>, first: nat)
    requires first <= |b| && |row| > 0
    ensures (b + row)[first..|b| + 1] == b[first..] + [row[0]]
  {
  }

  /** A row laid before a layout: a prefix slice starting at the row's last slot
      gains that slot. */
  lemma PrependedSlice<T>(row: seq<T>, b: seq<T>, hi: int)
    requires |row| > 0 && 0 <= hi <= |b|
    ensures (row + b)[|row| - 1..|row| + hi] == [row[|row| - 1]] + b[..hi]
  {
  }

  /** Slicing past a row laid before a layout slices the layout. */
  lemma ShiftedSlice<T>(row: seq<T>, b: seq<T>, i: int, j: int)
    requires 0 <= i <= j <= |b|
    ensures (row + b)[|row| + i..|row| + j] == b[i..j]
  {
  }

  /** Counting both iterators lo segments fewer, in a map with lo segments fewer
      in front, moves every linear position down by lo * S and keeps the order
      of the iterators and the back free capacity. */
  lemma RebaseBounds(S: nat, n: nat, begin: Iter, end: Iter, lo: int)
    requires S > 1 && Normal(begin, S) && Normal(end, S)
    requires 0 <= Lin(begin, S) <= Lin(end, S) <= n * S && 0 <= lo <= begin.seg
    ensures lo <= n && 0 <= lo * S <= Lin(begin, S) && (n - lo) * S == n * S - lo * S
    ensures Lin(Iter(begin.seg - lo, begin.idx), S) == Lin(begin, S) - lo * S
    ensures Lin(Iter(end.seg - lo, end.idx), S) == Lin(end, S) - lo * S
    ensures BackFreeOf(n - lo, Iter(end.seg - lo, end.idx), S) == BackFreeOf(n, end, S)
    ensures !Less(Iter(end.seg - lo, end.idx), Iter(begin.seg - lo, begin.idx), S)
    ensures lo == n ==> begin == end
  {
    SegmentBounds(begin, n, S);
    MulMono(0, lo, S);
    MulMono(lo, begin.seg, S);
    MulSub(begin.seg, lo, S);
    MulSub(end.seg, lo, S);
    MulSub(n, lo, S);
    if lo == n {
      LinInjective(begin, end, S);
    }
  }

  /** The default-constructed elements stable_insert adds after n inserted ones,
      with the corrected back free capacity: up to the end of the last started
      segment. */
  function Padding(n: nat, S: nat): (pad: nat)
    requires S > 1
    ensures pad < S && (n + pad) % S == 0
    ensures pad == BackFreeOf(SegmentCount(n, S), AtLin(n, S), S)
  {
    StableInsertPaddingAsWritten(n, S);
    PaddingFills(n, S);
    (S - n % S) % S
  }

  /** The padding is less than a segment and completes the last one. */
  lemma PaddingFills(n: nat, S: nat)
    requires S > 1
    ensures (S - n % S) % S < S && (n + (S - n % S) % S) % S == 0
  {
    var q, m := n / S, n % S;
    assert n == q * S + m;
    SmallDiv(0, S);
    if m == 0 {
      DivShift(1, 0, S);
      DivShift(q, 0, S);
    } else {
      SmallDiv(S - m, S);
      assert n + (S - m) == (q + 1) * S + 0;
      DivShift(q + 1, 0, S);
    }
  }

  /** An iterator p positions after begin lies in begin's segment or a later
      one; the first slot of a later one is after begin and at most p positions
      after it, and less than a segment before the iterator. */
  lemma SegmentStartOf(S: nat, begin: Iter, it: Iter, p: nat)
    requires S > 1 && Normal(begin, S) && Normal(it, S) && Lin(it, S) == Lin(begin, S) + p
    ensures it.seg >= begin.seg
    ensures it.seg == begin.seg ==> p < S
    ensures it.seg > begin.seg ==> 0 < it.seg * S - Lin(begin, S) <= p && p - (it.seg * S - Lin(begin, S)) < S
  {
    MulSub(it.seg, begin.seg, S);
    MultipleBound(it.seg - begin.seg, S);
    if it.seg > begin.seg {
      SegmentStartBounds(S, begin, it, it.seg);
    }
  }

  /** Putting t between the two parts of a buffer a + b inserts t into every
      slice of it that spans the cut. */
  lemma SpliceSlice<T>(a: seq<T>, t: seq<T>, b: seq<T>, lo: int, hi: int)
    requires 0 <= lo <= |a| <= hi <= |a| + |b|
    ensures (a + t + b)[lo..hi + |t|] == InsertAt((a + b)[lo..hi], |a| - lo, t)
  {
    var s := (a + b)[lo..hi];
    assert s[..|a| - lo] == a[lo..];
    assert s[|a| - lo..] == b[..hi - |a|];
    assert (a + t + b)[lo..hi + |t|] == a[lo..] + t + b[..hi - |a|];
  }

  /** Putting the rows tg before row hs of a grid g0 inserts their slots into
      every run of slots lb..le that spans the start of row hs. */
  lemma {:induction false} SpliceElements<T>(g0: seq<seq<T>>, tg: seq<seq<T>>, S: nat, hs: int, lb: int, le: int)
    requires Uniform(g0, S) && Uniform(tg, S) && 0 <= hs <= |g0|
    requires 0 <= lb <= hs * S <= le <= |g0| * S
    ensures |Flat(tg)| == |tg| * S
    ensures le + |tg| * S <= |Flat(g0[..hs] + tg + g0[hs..])|
    ensures |Flat(g0)| == |g0| * S
    ensures Flat(g0[..hs] + tg + g0[hs..])[lb..le + |tg| * S] == InsertAt(Flat(g0)[lb..le], hs * S - lb, Flat(tg))
  {
    var a, t, b := Flat(g0[..hs]), Flat(tg), Flat(g0[hs..]);
    FlatLength(tg, S);
    FlatLength(g0, S);
    FlatSplit(g0, S, hs);
    FlatConcat(g0[..hs] + tg, g0[hs..]);
    FlatConcat(g0[..hs], tg);
    assert Flat(g0[..hs] + tg + g0[hs..]) == a + t + b;
    assert |a| == hs * S && |t| == |tg| * S && a + b == Flat(g0);
    SpliceSlice(a, t, b, lb, le);
  }

  /** Rows spliced into a sequence of rows keep every old row in it. */
  lemma SplicedKeepsRows<A>(rows: seq<A>, added: seq<A>, hs: int)
    requires 0 <= hs <= |rows|
    ensures forall j :: 0 <= j < |rows| ==> rows[j] in rows[..hs] + added + rows[hs..]
  {
    forall j | 0 <= j < |rows|
      ensures rows[j] in rows[..hs] + added + rows[hs..]
    {
      var spliced := rows[..hs] + added + rows[hs..];
      if j >= hs {
        assert spliced[j + |added|] == rows[j];
      } else {
        assert spliced[j] == rows[j];
      }
    }
  }

  /** The window first..last of a grid g laid out as the spliced grid, first and
      last being the ends of lb..le moved past the inserted rows, is the
      insertion. */
  lemma SpliceWindow<T>(g: seq<seq<T>>, g0: seq<seq<T>>, tg: seq<seq<T>>, S: nat, hs: int, lb: int, le: int,
                        first: int, last: int)
    requires Uniform(g0, S) && Uniform(tg, S) && 0 <= hs <= |g0|
    requires 0 <= lb <= hs * S <= le <= |g0| * S
    requires Flat(g) == Flat(g0[..hs] + tg + g0[hs..]) && first == lb && last == le + |tg| * S
    ensures |Flat(g0)| == |g0| * S
    ensures 0 <= first <= last <= |Flat(g)|
    ensures Flat(g)[first..last] == InsertAt(Flat(g0)[lb..le], hs * S - lb, Flat(tg))
  {
    SpliceElements(g0, tg, S, hs, lb, le);
  }

  /** Counting tc more segments before end, in a map of tc more segments, moves
      end tc * S positions on and keeps it inside the map and not before begin. */
  lemma ShiftEnd(S: nat, begin: Iter, end: Iter, n: int, tc: nat)
    requires S > 1 && !Less(end, begin, S) && Lin(end, S) <= n * S
    ensures Lin(Iter(end.seg + tc, end.idx), S) == Lin(end, S) + tc * S <= (n + tc) * S
    ensures !Less(Iter(end.seg + tc, end.idx), begin, S)
  {
    MulAdd(end.seg, tc, S);
    MulAdd(n, tc, S);
  }

  /** How far a walk over the segments has got: the position of the segment
      iterator, but not past end. */
  function WalkPosition(it: SegIter, end: Iter, S: nat): int
  {
    var p := it.seg * S + it.idx;
    if p <= Lin(end, S) then p else Lin(end, S)
  }

  /** One step of the segment walk: a segment before segment_end holds
      data_size() live slots from the iterator's index on, and the walk then
      stands that many positions further on. */
  lemma WalkStep(S: nat, end: Iter, it: SegIter)
    requires S > 1 && Normal(end, S) && it.idx < S
    requires it.seg < SegmentEnd(end).seg && (it.seg == end.seg ==> it.idx <= end.idx)
    ensures 0 <= DataSize(it, end, S) && it.idx + DataSize(it, end, S) <= S
    ensures WalkPosition(it, end, S) == it.seg * S + it.idx
    ensures WalkPosition(SegIncrement(it), end, S) == it.seg * S + it.idx + DataSize(it, end, S)
  {
    MulAddOne(it.seg, S);
    if it.seg != end.seg {
      MulSub(end.seg, it.seg + 1, S);
      MultipleBound(end.seg - it.seg - 1, S);
    }
  }

  /** The n slots of row seg from idx on are the n slots of the layout from the
      row's position p on. */
  lemma RunOfSegment<T>(g: seq<seq<T>>, S: nat, seg: int, idx: nat, n: nat, p: int)
    requires Uniform(g, S) && 0 <= seg < |g| && idx + n <= S && p == seg * S + idx
    ensures p + n <= |Flat(g)| && Flat(g)[p..p + n] == g[seg][idx..idx + n]
  {
    FlatRun(g, S, seg, idx, idx + n);
  }

  /** Where the walk stops: at segment_end it has reached end. */
  lemma WalkEnd(S: nat, end: Iter)
    requires S > 1 && Normal(end, S)
    ensures WalkPosition(SegmentEnd(end), end, S) == Lin(end, S)
  {
    MulAddOne(end.seg, S);
  }

  lemma MulAdd(a: int, b: int, S: nat)
    ensures (a + b) * S == a * S + b * S
  {
  }

  /** A segment after begin's and not after end's starts after begin and not
      after end. */
  lemma SegmentStartBounds(S: nat, begin: Iter, end: Iter, hs: int)
    requires S > 1 && Normal(begin, S) && Normal(end, S) && begin.seg < hs <= end.seg
    ensures Lin(begin, S) < hs * S <= Lin(end, S)
  {
    MulSub(hs, begin.seg + 1, S);
    MulAddOne(begin.seg, S);
    MultipleBound(hs - begin.seg - 1, S);
    MulSub(end.seg, hs, S);
    MultipleBound(end.seg - hs, S);
  }

  /** A slice of a slice is a slice of the whole. */
  lemma InnerSlice<T>(b: seq<T>, a: int, c: int, x: int, y: int)
    requires 0 <= a <= c <= |b| && 0 <= x <= y <= c - a
    ensures b[a..c][x..y] == b[a + x..a + y]
  {
    var s := b[a..c];
    forall i | 0 <= i < y - x
      ensures s[x..y][i] == b[a + x..a + y][i]
    {
      assert s[x..y][i] == s[x + i] == b[a + x + i];
    }
  }

  /** The same index one segment further on is S slots further on. */
  lemma NextSegmentLin(it: Iter, S: nat)
    ensures Lin(Iter(it.seg + 1, it.idx), S) == Lin(it, S) + S
  {
    MulAddOne(it.seg, S);
  }

  /** Writing one slot inside a slice writes the matching element of the slice. */
  lemma SliceUpdate<T>(b: seq<T>, lo: int, hi: int, p: int, x: T)
    requires 0 <= lo <= p < hi <= |b|
    ensures b[p := x][lo..hi] == b[lo..hi][p - lo := x]
  {
  }

  /** Assigning the next element of r extends the overwritten run by one. */
  lemma OverwriteStep<T>(s: seq<T>, at: nat, r: seq<T>, k: nat)
    requires k < |r| && at + |r| <= |s|
    ensures Overwrite(s, at, r[..k])[at + k := r[k]] == Overwrite(s, at, r[..k + 1])
  {
  }

  /** Moving the tail over the erased run and cutting the end removes the run. */
  lemma EraseByMovingTail<T>(e: seq<T>, first: nat, last: nat)
    requires first <= last <= |e|
    ensures Overwrite(e, first, e[last..])[..first + (|e| - last)] == RemoveRange(e, first, last)
  {
  }

  /** Moving the head backward over the erased run and cutting the front removes
      the run. */
  lemma EraseByMovingHead<T>(e: seq<T>, first: nat, last: nat)
    requires first <= last <= |e|
    ensures Overwrite(e, last - first, e[..first])[last - first..] == RemoveRange(e, first, last)
  {
  }

  /** Pushing r at the back and rotating it to position pos inserts it there. */
  function RotateRun<T>(s: seq<T>, first: nat, middle: nat, last: nat): (o: seq<T>)
    requires first <= middle <= last <= |s|
    ensures |o| == |s|
  {
    s[..first] + Rotate(s[first..last], middle - first) + s[last..]
  }

  lemma InsertByRotation<T>(e: seq<T>, pos: nat, r: seq<T>, pushed: seq<T>)
    requires pos <= |e| && pushed == e + r
    ensures RotateRun(pushed, pos, |e|, |e| + |r|) == InsertAt(e, pos, r)
  {
    assert pushed[pos..|e| + |r|] == e[pos..] + r;
    assert pushed[..pos] == e[..pos];
  }

  /** Pushing r at the front and rotating the next pos elements before it inserts
      it at position pos. */
  lemma InsertByFrontRotation<T>(e: seq<T>, pos: nat, r: seq<T>, pushed: seq<T>)
    requires pos <= |e| && pushed == r + e
    ensures RotateRun(pushed, 0, |r|, |r| + pos) == InsertAt(e, pos, r)
  {
    assert pushed[0..|r| + pos] == r + e[..pos];
    assert pushed[|r| + pos..] == e[pos..];
  }

  /** Segments of a second map, none of them shared, entering a map before entry
      hs: the rows of the result are still its segments' contents, each segment
      belongs to one of the two footprints, and no segment appears twice. */
  lemma SpliceRows<T>(s0: seq<array<T>>, g0: seq<seq<T>>, t: seq<array<T>>, tg: seq<seq<T>>, hs: int, S: nat, R0: set<object>, R1: set<object>)
    requires 0 <= hs <= |s0| == |g0| && |t| == |tg| && R0 !! R1
    requires forall j :: 0 <= j < |s0| ==> s0[j] in R0 && s0[j].Length == S && s0[j][..] == g0[j]
    requires forall j :: 0 <= j < |t| ==> t[j] in R1 && t[j].Length == S && t[j][..] == tg[j]
    requires forall i, j :: 0 <= i < j < |s0| ==> s0[i] != s0[j]
    requires forall i, j :: 0 <= i < j < |t| ==> t[i] != t[j]
    ensures var s, g := s0[..hs] + t + s0[hs..], g0[..hs] + tg + g0[hs..];
      |s| == |g| && Uniform(g, S)
      && (forall j :: 0 <= j < |s| ==> s[j] in R0 + R1 && s[j].Length == S)
      && (forall j :: 0 <= j < |s| ==> s[j][..] == g[j])
      && (forall i, j :: 0 <= i < j < |s| ==> s[i] != s[j])
  {
    var s, g := s0[..hs] + t + s0[hs..], g0[..hs] + tg + g0[hs..];
    var tc := |t|;
    forall j | 0 <= j < |s|
      ensures s[j] in R0 + R1 && s[j].Length == S && s[j][..] == g[j] && |g[j]| == S
      ensures j < hs || hs + tc <= j ==> s[j] in R0
      ensures hs <= j < hs + tc ==> s[j] in R1
    {
      if j < hs {
        assert s[j] == s0[j] && g[j] == g0[j];
      } else if j < hs + tc {
        assert s[j] == t[j - hs] && g[j] == tg[j - hs];
      } else {
        assert s[j] == s0[j - tc] && g[j] == g0[j - tc];
      }
    }
    forall i, j | 0 <= i < j < |s|
      ensures s[i] != s[j]
    {
      if j < hs {
        assert s[i] == s0[i] && s[j] == s0[j];
      } else if i >= hs + tc {
        assert s[i] == s0[i - tc] && s[j] == s0[j - tc];
      } else if i < hs && j >= hs + tc {
        assert s[i] == s0[i] && s[j] == s0[j - tc];
      } else if hs <= i && j < hs + tc {
        assert s[i] == t[i - hs] && s[j] == t[j - hs];
      }
    }
  }

  /** One more element of r in front of its suffix from k + 1. */
  lemma ConsSuffix<T>(r: seq<T>, k: nat, e: seq<T>)
    requires k < |r|
    ensures [r[k]] + (r[k + 1..] + e) == r[k..] + e
  {
    assert r[k..] == [r[k]] + r[k + 1..];
  }

  /** With every slot of an n-segment map up to the end iterator, the second slot
      of a segment appended to the map is one past the end and still not before
      begin. */
  lemma AppendedEnd(S: nat, n: nat, begin: Iter, end: Iter)
    requires S > 1 && Lin(end, S) == n * S && Lin(begin, S) <= Lin(end, S)
    ensures Lin(Iter(n, 1), S) == n * S + 1 <= (n + 1) * S
    ensures !Less(Iter(n, 1), begin, S)
  {
  }

  /** A segment appended to the map adds S free slots at the back. */
  lemma BackFreeGrow(mapSize: nat, end: Iter, S: nat)
    ensures BackFreeOf(mapSize + 1, end, S) == BackFreeOf(mapSize, end, S) + S
  {
    MulAddOne(mapSize - end.seg, S);
  }

  lemma MulSub(a: int, b: int, S: nat)
    ensures (a - b) * S == a * S - b * S
  {
  }

  lemma MulAddOne(k: int, S: nat)
    ensures (k + 1) * S == k * S + S
  {
  }

  /** Cutting a map of n segments at entry hi, at or after segment_end, keeps end
      inside the map; cutting right at segment_end leaves less than a segment
      free at the back. */
  lemma DropBackBounds(S: nat, n: nat, begin: Iter, end: Iter, hi: int)
    requires S > 1 && Normal(begin, S) && Normal(end, S)
    requires 0 <= Lin(begin, S) <= Lin(end, S) <= n * S && SegmentEnd(end).seg <= hi <= n
    ensures Lin(end, S) <= hi * S <= n * S && end.seg <= hi
    ensures hi == SegmentEnd(end).seg ==> BackFreeOf(hi, end, S) < S
    ensures hi > 0 || begin == end
  {
    ShrinkBounds(S, n, begin, end, begin.seg, SegmentEnd(end).seg);
    MulMono(SegmentEnd(end).seg, hi, S);
    MulMono(hi, n, S);
    if hi == 0 {
      LinInjective(begin, end, S);
    }
  }

  /** The segments from begin's segment up to segment_end lie inside a map of n
      segments; counting from lo moves both iterators lo segments down and leaves
      less than one segment free at either end. */
  lemma ShrinkBounds(S: nat, n: nat, begin: Iter, end: Iter, lo: int, hi: int)
    requires S > 1 && Normal(begin, S) && Normal(end, S)
    requires 0 <= Lin(begin, S) <= Lin(end, S) <= n * S
    requires lo == begin.seg && hi == SegmentEnd(end).seg
    ensures 0 <= lo <= end.seg <= hi <= n && lo * S <= Lin(begin, S) && Lin(end, S) <= hi * S
    ensures Lin(Iter(0, begin.idx), S) == Lin(begin, S) - lo * S
    ensures Lin(Iter(end.seg - lo, end.idx), S) == Lin(end, S) - lo * S <= (hi - lo) * S
    ensures BackFreeOf(hi - lo, Iter(end.seg - lo, end.idx), S) < S
    ensures !Less(Iter(end.seg - lo, end.idx), Iter(0, begin.idx), S)
  {
    MulAddOne(end.seg, S);
    SegmentBounds(begin, end.seg + 1, S);
    SegmentBounds(end, n, S);
    MulSub(end.seg, lo, S);
    MulSub(hi, lo, S);
  }

  /** The segment iterator a walk from segment_begin stands on at segment k:
      begin's index in begin's segment, index 0 in later ones. */
  function WalkIter(begin: Iter, k: int): (it: SegIter)
    ensures it.seg == k && (k == begin.seg ==> it == SegmentBegin(begin))
  {
    SegIter(k, if k == begin.seg then begin.idx else 0)
  }

  /** The segment walk on the rows of g from segment_begin up to, not including,
      segment k: each segment's live run data()[0..data_size()) in turn. */
  ghost function WalkTo<T>(g: seq<seq<T>>, S: nat, begin: Iter, end: Iter, k: int): seq<T>
    requires Uniform(g, S) && Normal(begin, S) && Normal(end, S)
    requires 0 <= begin.seg <= k <= SegmentEnd(end).seg <= |g|
    requires begin.seg == end.seg ==> begin.idx <= end.idx
    decreases k - begin.seg
  {
    if k == begin.seg then []
    else
      var it := WalkIter(begin, k - 1);
      WalkTo(g, S, begin, end, k - 1) + g[k - 1][it.idx..it.idx + DataSize(it, end, S)]
  }

  /** The walk up to segment k reads the layout from begin up to the position of
      the walk's iterator at k. */
  lemma {:induction false} WalkToLayout<T>(g: seq<seq<T>>, S: nat, begin: Iter, end: Iter, k: int)
    requires S > 1 && Uniform(g, S) && Normal(begin, S) && Normal(end, S)
    requires 0 <= begin.seg <= k <= SegmentEnd(end).seg <= |g|
    requires begin.seg == end.seg ==> begin.idx <= end.idx
    requires 0 <= Lin(begin, S) <= Lin(end, S) <= |Flat(g)|
    ensures Lin(begin, S) <= WalkPosition(WalkIter(begin, k), end, S) <= Lin(end, S)
    ensures WalkTo(g, S, begin, end, k) == Flat(g)[Lin(begin, S)..WalkPosition(WalkIter(begin, k), end, S)]
    decreases k - begin.seg
  {
    if k == begin.seg {
      assert WalkPosition(WalkIter(begin, k), end, S) == Lin(begin, S);
    } else {
      WalkToLayout(g, S, begin, end, k - 1);
      WalkToStep(g, S, begin, end, k);
    }
  }

  /** The step of WalkToLayout: what holds of the walk up to segment k - 1 holds
      of the walk up to segment k. */
  lemma WalkToStep<T>(g: seq<seq<T>>, S: nat, begin: Iter, end: Iter, k: int)
    requires S > 1 && Uniform(g, S) && Normal(begin, S) && Normal(end, S)
    requires 0 <= begin.seg < k <= SegmentEnd(end).seg <= |g|
    requires begin.seg == end.seg ==> begin.idx <= end.idx
    requires 0 <= Lin(begin, S) <= Lin(end, S) <= |Flat(g)|
    requires Lin(begin, S) <= WalkPosition(WalkIter(begin, k - 1), end, S) <= Lin(end, S)
    requires WalkTo(g, S, begin, end, k - 1) == Flat(g)[Lin(begin, S)..WalkPosition(WalkIter(begin, k - 1), end, S)]
    ensures Lin(begin, S) <= WalkPosition(WalkIter(begin, k), end, S) <= Lin(end, S)
    ensures WalkTo(g, S, begin, end, k) == Flat(g)[Lin(begin, S)..WalkPosition(WalkIter(begin, k), end, S)]
  {
    var fg, lb := Flat(g), Lin(begin, S);
    var it := WalkIter(begin, k - 1);
    var n, p := DataSize(it, end, S), WalkPosition(it, end, S);
    assert WalkTo(g, S, begin, end, k) == WalkTo(g, S, begin, end, k - 1) + g[k - 1][it.idx..it.idx + n];
    assert p + n == WalkPosition(WalkIter(begin, k), end, S) && p + n <= |fg|
      && fg[p..p + n] == g[k - 1][it.idx..it.idx + n] by {
      assert WalkIter(begin, k) == SegIncrement(it);
      WalkStep(S, end, it);
      RunOfSegment(g, S, k - 1, it.idx, n, p);
    }
    assert fg[lb..p + n] == fg[lb..p] + fg[p..p + n];
  }

  /** Walking begin's segment up to segment_end yields the live elements of the
      layout, the slots from begin up to end. */
  lemma WalkIsElements<T>(g: seq<seq<T>>, S: nat, begin: Iter, end: Iter)
    requires S > 1 && Uniform(g, S) && Normal(begin, S) && Normal(end, S)
    requires 0 <= Lin(begin, S) <= Lin(end, S) <= |g| * S
    ensures 0 <= begin.seg <= SegmentEnd(end).seg <= |g| && (begin.seg == end.seg ==> begin.idx <= end.idx)
    ensures Lin(end, S) <= |Flat(g)|
    ensures WalkTo(g, S, begin, end, SegmentEnd(end).seg) == Flat(g)[Lin(begin, S)..Lin(end, S)]
  {
    FlatLength(g, S);
    ShrinkBounds(S, |g|, begin, end, begin.seg, SegmentEnd(end).seg);
    WalkToLayout(g, S, begin, end, SegmentEnd(end).seg);
    assert WalkIter(begin, SegmentEnd(end).seg) == SegmentEnd(end);
    WalkEnd(S, end);
  }

  /** The loop of the segment walk over a map segs whose contents are the rows
      of g: segment_begin up to segment_end, appending each segment's live run. */
  method WalkSegments<T>(segs: seq<array<T>>, ghost g: seq<seq<T>>, S: nat, begin: Iter, end: Iter) returns (out: seq<T>)
    requires |segs| == |g| && Uniform(g, S)
    requires forall j :: 0 <= j < |segs| ==> segs[j][..] == g[j]
    requires Normal(begin, S) && Normal(end, S) && 0 <= begin.seg <= SegmentEnd(end).seg <= |segs|
    requires begin.seg == end.seg ==> begin.idx <= end.idx
    ensures out == WalkTo(g, S, begin, end, SegmentEnd(end).seg)
  {
    var it, stop := SegmentBegin(begin), SegmentEnd(end);
    out := [];
    while it.seg != stop.seg
      invariant begin.seg <= it.seg <= stop.seg && it == WalkIter(begin, it.seg)
      invariant out == WalkTo(g, S, begin, end, it.seg)
      decreases stop.seg - it.seg
    {
      var n := DataSize(it, end, S);
      assert segs[it.seg][it.idx..it.idx + n] == g[it.seg][it.idx..it.idx + n] by {
        var a := segs[it.seg];
        assert a[..] == g[it.seg];
        assert a[it.idx..it.idx + n] == a[..][it.idx..it.idx + n];
      }
      out := out + segs[it.seg][it.idx..it.idx + n];
      it := SegIncrement(it);
    }
  }

  /** The first i elements of r fill the grid g from its first slot on: one row per
      started block of S elements, with every row but a partly used last one full. */
  ghost predicate FilledPrefix<T>(S: nat, r: seq<T>, i: nat, g: seq<seq<T>>)
    requires S > 1
  {
    i <= |r| && (i == |g| * S || i == |r|)
    && |g| == SegmentCount(i, S) && Uniform(g, S)
    && i <= |Flat(g)| == |g| * S && Flat(g)[..i] == r[..i]
  }

  /** Appending a row that holds the next n elements of r, n being S or what
      remains of r, keeps the prefix filled. */
  lemma FilledPrefixStep<T>(S: nat, r: seq<T>, i: nat, g: seq<seq<T>>, row: seq<T>, n: nat)
    requires S > 1 && FilledPrefix(S, r, i, g) && i < |r|
    requires n == if |r| - i < S then |r| - i else S
    requires |row| == S && row[..n] == r[i..i + n]
    ensures FilledPrefix(S, r, i + n, g + [row])
  {
    assert i == |g| * S;
    FlatExtendPrefix(g, row, r, i, n);
    SegmentCountStep(|g|, n, S);
    MulAddOne(|g|, S);
    assert Uniform(g + [row], S);
  }

  /** The segment loop of the range constructor: each fresh segment receives the
      next S elements of the range, or what remains of it. The map receives one
      segment per started block of S elements; g records the segments' contents. */
  method BuildSegments<T(0)>(S: nat, r: seq<T>) returns (m: seq<array<T>>, ghost g: seq<seq<T>>)
    requires S > 1
    ensures |m| == |g| == SegmentCount(|r|, S) && Uniform(g, S)
    ensures forall j :: 0 <= j < |m| ==> fresh(m[j]) && m[j].Length == S && m[j][..] == g[j]
    ensures forall i, j :: 0 <= i < j < |m| ==> m[i] != m[j]
    ensures |r| <= |Flat(g)| == |m| * S && Flat(g)[..|r|] == r
  {
    m, g := [], [];
    var i := 0;
    SegmentCountStep(0, S, S);
    while i < |r|
      invariant FilledPrefix(S, r, i, g) && |m| == |g|
      invariant forall j :: 0 <= j < |m| ==> fresh(m[j]) && m[j].Length == S && m[j][..] == g[j]
      invariant forall i, j :: 0 <= i < j < |m| ==> m[i] != m[j]
      decreases |r| - i
    {
      var n := if |r| - i < S then |r| - i else S;
      var a := new T[S];
      FillSegment(a, r[i..i + n]);
      FilledPrefixStep(S, r, i, g, a[..], n);
      m, g := m + [a], g + [a[..]];
      i := i + n;
    }
  }

  class BatchDeque<T(0)> {
    const S: nat
    var segments: seq<array<T>>
    var begin: Iter
    var end: Iter
    /** The contents of the segments, slot by slot, in map order. */
    ghost var grid: seq<seq<T>>
    ghost var Repr: set<object>

    /** invariants_ok: a non-empty map unless the deque is empty, begin not after
        end, both indices inside a segment, and both iterators inside the map. */
    predicate InvariantsOk()
      reads this
    {
      (|segments| > 0 || begin == end)
      && !Less(end, begin, S)
      && begin.idx < S && end.idx < S
      && begin.seg >= 0 && end.seg <= |segments|
    }

    ghost predicate Valid()
      reads this, Repr
    {
      this in Repr && S > 1 && InvariantsOk()
      && Lin(end, S) <= |segments| * S
      && |grid| == |segments| && Uniform(grid, S)
      && (forall j :: 0 <= j < |segments| ==> segments[j] in Repr && segments[j].Length == S)
      && (forall j :: 0 <= j < |segments| ==> segments[j][..] == grid[j])
      && (forall i, j :: 0 <= i < j < |segments| ==> segments[i] != segments[j])
    }

    /** Every slot of every segment, in map order. */
    ghost function Buffer(): seq<T>
      reads this
    {
      Flat(grid)
    }

    /** The elements: the slots from begin up to end. */
    ghost function Elements(): seq<T>
      reads this
    {
      var b, first, last := Flat(grid), Lin(begin, S), Lin(end, S);
      if 0 <= first <= last <= |b| then b[first..last] else []
    }

    /** The buffer holds S slots per segment and the elements are its slots from
        begin up to end. */
    lemma BufferLength()
      requires Valid()
      ensures |Buffer()| == |segments| * S && 0 <= Lin(begin, S) <= Lin(end, S) <= |Buffer()|
      ensures Elements() == Buffer()[Lin(begin, S)..Lin(end, S)]
    {
      FlatLength(grid, S);
    }

    /** The slot an iterator designates holds that position of the buffer. */
    lemma SlotIsBufferElement(it: Iter)
      requires Valid() && Normal(it, S) && 0 <= it.seg < |segments|
      ensures 0 <= Lin(it, S) < |Buffer()| && Buffer()[Lin(it, S)] == segments[it.seg][it.idx]
    {
      FlatIndex(grid, S, it.seg, it.idx);
      assert grid[it.seg] == segments[it.seg][..];
    }

    /** An iterator strictly before the end of the map lies in one of its segments. */
    lemma InsideMap(it: Iter)
      requires Valid() && Normal(it, S) && 0 <= Lin(it, S) < |segments| * S
      ensures 0 <= it.seg < |segments|
    {
      MultipleBound(it.seg - |segments|, S);
      MultipleBound(-it.seg, S);
      assert Lin(it, S) - |segments| * S == (it.seg - |segments|) * S + it.idx;
    }

    /** size */
    function Size(): (n: nat)
      requires Valid()
      reads this, Repr
      ensures n == |Elements()|
    {
      BufferLength();
      DistanceTo(begin, end, S)
    }

    /** empty */
    function Empty(): (e: bool)
      requires Valid()
      reads this, Repr
      ensures e <==> Elements() == []
    {
      BufferLength();
      if Lin(begin, S) == Lin(end, S) then LinInjective(begin, end, S); begin == end else begin == end
    }

    /** capacity: every slot of every segment. */
    function Capacity(): (c: nat)
      requires Valid()
      reads this, Repr
      ensures c == |Buffer()|
    {
      BufferLength();
      |segments| * S
    }

    /** front_free_capacity: the slots before the first element. */
    function FrontFree(): (f: nat)
      requires Valid()
      reads this, Repr
      ensures f + |Elements()| <= |Buffer()| && Elements() == Buffer()[f..f + |Elements()|]
    {
      BufferLength();
      begin.seg * S + begin.idx
    }

    /** back_free_capacity, corrected: the slots after the last element. */
    function BackFree(): (f: nat)
      requires Valid()
      reads this, Repr
      ensures FrontFree() + Size() + f == Capacity()
    {
      BackFreeOf(|segments|, end, S)
    }

    /** back_free_capacity() as written is positive exactly when a slot is free
        after the end iterator: where it over-reports, the end iterator lies inside
        a segment of the map, whose remaining slots are free. */
    lemma BackFreeAsWrittenDecides()
      requires Valid()
      ensures BackFreeAsWritten(|segments|, end, S) > 0 <==> BackFree() > 0
    {
      BackFreeAsWrittenOverReports(|segments|, end, S);
      if end.idx > 0 {
        MultipleBound(end.seg - |segments|, S);
        assert (end.seg - |segments|) * S + end.idx == Lin(end, S) - |segments| * S;
        assert end.seg < |segments|;
        MultipleBound(|segments| - end.seg, S);
      }
    }

    /** The segments from begin's segment up to segment_end: the ones that hold
        elements. */
    function LiveSegments(): (live: seq<array<T>>)
      requires Valid()
      reads this, Repr
      ensures |live| <= |segments|
    {
      BufferLength();
      ShrinkBounds(S, |segments|, begin, end, begin.seg, SegmentEnd(end).seg);
      segments[begin.seg..SegmentEnd(end).seg]
    }

    /** The free capacities and the size account for every slot. */
    lemma FreeCapacitiesPartition()
      requires Valid()
      ensures Buffer() == Buffer()[..FrontFree()] + Elements() + Buffer()[|Buffer()| - BackFree()..]
    {
      BufferLength();
    }

    /** operator[]: the element n places after the first. */
    method Get(n: nat) returns (x: T)
      requires Valid() && n < Size()
      ensures x == Elements()[n]
    {
      BufferLength();
      var it := Advance(begin, n, S);
      InsideMap(it);
      SlotIsBufferElement(it);
      x := segments[it.seg][it.idx];
    }

    /** at: the element n places after the first, or out_of_range. */
    method At(n: nat) returns (r: Access<T>)
      requires Valid()
      ensures r == OutOfRange <==> n >= Size()
      ensures r.Value? ==> r.value == Elements()[n]
    {
      if n >= Size() {
        return OutOfRange;
      }
      var x := Get(n);
      return Value(x);
    }

    /** front: the first element. */
    method Front() returns (x: T)
      requires Valid() && !Empty()
      ensures x == Elements()[0]
    {
      BufferLength();
      InsideMap(begin);
      SlotIsBufferElement(begin);
      x := segments[begin.seg][begin.idx];
    }

    /** back: the last element, just before end. */
    method Back() returns (x: T)
      requires Valid() && !Empty()
      ensures x == Elements()[Size() - 1]
    {
      BufferLength();
      var it := Decrement(end, S);
      InsideMap(it);
      SlotIsBufferElement(it);
      x := segments[it.seg][it.idx];
    }

    /** The default constructor: no map, both iterators at the start. */
    constructor Default(segmentSize: nat)
      requires segmentSize > 1
      ensures Valid() && fresh(Repr) && S == segmentSize
      ensures Elements() == [] && segments == []
    {
      S := segmentSize;
      segments, grid := [], [];
      begin, end := Iter(0, 0), Iter(0, 0);
      Repr := {this};
    }

    /** The forward-range constructor: a map of exactly the needed segments, the
        elements from the first slot on. */
    constructor FromRange(segmentSize: nat, r: seq<T>)
      requires segmentSize > 1
      ensures Valid() && fresh(Repr) && S == segmentSize
      ensures Elements() == r
      ensures begin == Iter(0, 0) && |segments| == SegmentCount(|r|, S)
    {
      var m;
      ghost var g;
      m, g := BuildSegments(segmentSize, r);
      S := segmentSize;
      segments, grid := m, g;
      begin := Iter(0, 0);
      end := Advance(Iter(0, 0), |r|, segmentSize);
      Repr := {this} + (set j | 0 <= j < |m| :: m[j] as object);
      new;
      SegmentBounds(end, |segments|, S);
    }

    /** The constructor from n copies of value, which reads the copies through a
        pair of constant iterators; with T() as the value it is also the
        constructor of n value-initialized elements. */
    constructor Filled(segmentSize: nat, n: nat, value: T)
      requires segmentSize > 1
      ensures Valid() && fresh(Repr) && S == segmentSize
      ensures Elements() == Repeat(value, n)
    {
      var r := Iterators.CopiesOf(value, n);
      var m;
      ghost var g;
      m, g := BuildSegments(segmentSize, r);
      S := segmentSize;
      segments, grid := m, g;
      begin := Iter(0, 0);
      end := Advance(Iter(0, 0), |r|, segmentSize);
      Repr := {this} + (set j | 0 <= j < |m| :: m[j] as object);
      new;
      SegmentBounds(end, |segments|, S);
    }

    /** Constructs x in the slot an iterator designates. */
    method WriteSlot(it: Iter, x: T)
      requires Valid() && Normal(it, S) && 0 <= it.seg < |segments|
      modifies this, segments[it.seg]
      ensures Valid() && Repr == old(Repr)
      ensures segments == old(segments) && begin == old(begin) && end == old(end)
      ensures 0 <= Lin(it, S) < |old(Buffer())| && Buffer() == old(Buffer())[Lin(it, S) := x]
    {
      FlatUpdate(grid, S, it.seg, it.idx, x);
      segments[it.seg][it.idx] := x;
      grid := grid[it.seg := grid[it.seg][it.idx := x]];
      forall j | 0 <= j < |segments|
        ensures segments[j][..] == grid[j]
      {
        if j != it.seg {
          assert segments[j] != segments[it.seg] by {
            if j < it.seg {} else {}
          }
        }
      }
    }

    /** unsafe_push_back: constructs x at end, which the caller guarantees is a free
        slot. */
    method UnsafePushBack(x: T)
      requires Valid() && BackFree() > 0
      modifies Repr
      ensures Valid() && Repr == old(Repr)
      ensures Elements() == old(Elements()) + [x]
      ensures segments == old(segments) && begin == old(begin)
      ensures BackFree() == old(BackFree()) - 1
    {
      BufferLength();
      InsideMap(end);
      WriteSlot(end, x);
      end := Increment(end, S);
      BufferLength();
    }

    /** unsafe_push_front, with begin stepped back by one slot (decrement)
        where the source computes `_begin - 1` through the written advance(-1),
        which agrees with it only when S divides 2^64: constructs x just before
        begin, which the caller guarantees is a free slot. */
    method UnsafePushFront(x: T)
      requires Valid() && FrontFree() > 0
      modifies Repr
      ensures Valid() && Repr == old(Repr)
      ensures Elements() == [x] + old(Elements())
      ensures segments == old(segments) && end == old(end)
      ensures FrontFree() == old(FrontFree()) - 1
    {
      BufferLength();
      var newBegin := Decrement(begin, S);
      InsideMap(newBegin);
      WriteSlot(newBegin, x);
      begin := newBegin;
      BufferLength();
    }

    /** Appends a fresh segment to the map (_map.push_back / unsafe_push_back of
        a newly allocated segment); the iterators keep their map positions. */
    method AppendSegment(a: array<T>)
      requires Valid() && a !in Repr && a.Length == S
      requires Lin(end, S) <= |segments| * S
      modifies this
      ensures segments == old(segments) + [a] && grid == old(grid) + [a[..]]
      ensures begin == old(begin) && end == old(end) && Repr == old(Repr) + {a}
      ensures Valid() && Elements() == old(Elements()) && Buffer() == old(Buffer()) + a[..]
    {
      BufferLength();
      FlatSnocKeeps(grid, a[..], Lin(begin, S), Lin(end, S));
      segments, grid := segments + [a], grid + [a[..]];
      Repr := Repr + {a};
      MulAddOne(|segments| - 1, S);
      forall i, j | 0 <= i < j < |segments|
        ensures segments[i] != segments[j]
      {
        if j < |segments| - 1 {
          assert segments[i] == old(segments)[i] && segments[j] == old(segments)[j];
        }
      }
    }

    /** Prepends a fresh segment to the map (_map.push_front of a newly allocated
        segment). The iterators keep designating the same map entries, which now
        sit one position further from the start of the map. */
    method PrependSegment(a: array<T>)
      requires Valid() && a !in Repr && a.Length == S
      modifies this
      ensures Valid() && Repr == old(Repr) + {a}
      ensures segments == [a] + old(segments) && Buffer() == a[..] + old(Buffer())
      ensures begin == Iter(old(begin).seg + 1, old(begin).idx)
      ensures end == Iter(old(end).seg + 1, old(end).idx)
      ensures Elements() == old(Elements())
    {
      BufferLength();
      ghost var b0, first, last := Buffer(), Lin(begin, S), Lin(end, S);
      FlatConcat([a[..]], grid);
      FlatSingle(a[..]);
      segments, grid := [a] + segments, [a[..]] + grid;
      Repr := Repr + {a};
      begin, end := Iter(begin.seg + 1, begin.idx), Iter(end.seg + 1, end.idx);
      NextSegmentLin(old(begin), S);
      NextSegmentLin(old(end), S);
      MulAddOne(|segments| - 1, S);
      forall i, j | 0 <= i < j < |segments|
        ensures segments[i] != segments[j]
      {
        if 0 < i {
          assert segments[i] == old(segments)[i - 1] && segments[j] == old(segments)[j - 1];
        }
      }
      assert Buffer() == a[..] + b0;
      ShiftedSlice(a[..], b0, first, last);
    }

    /** Appends a fresh segment whose first slot already holds the new last
        element and moves end just past that slot. */
    method AppendLastSlot(a: array<T>)
      requires Valid() && BackFree() == 0 && a !in Repr && a.Length == S
      modifies this
      ensures Valid() && Repr == old(Repr) + {a}
      ensures Elements() == old(Elements()) + [a[0]] && segments == old(segments) + [a]
      ensures begin == old(begin)
    {
      BufferLength();
      ghost var b0, first := Buffer(), Lin(begin, S);
      AppendedEnd(S, |segments|, begin, end);
      AppendSegment(a);
      end := Iter(|segments| - 1, 1);
      AppendSlice(b0, a[..], first);
    }

    /** emplace_back_slow_path: with no back free capacity, a fresh segment whose
        first slot receives x is appended to the map and end moves to its second
        slot. */
    method EmplaceBackSlowPath(x: T, ctorThrows: bool) returns (st: Status)
      requires Valid() && BackFree() == 0
      modifies this
      ensures Valid() && fresh(Repr - old(Repr))
      ensures st == ElementError <==> ctorThrows
      ensures st == Success ==> Elements() == old(Elements()) + [x] && |segments| == old(|segments|) + 1
      ensures st == ElementError ==> Elements() == old(Elements()) && segments == old(segments)
      ensures begin == old(begin) && old(segments) <= segments
    {
      if ctorThrows {
        return ElementError;
      }
      var a := new T[S];
      a[0] := x;
      AppendLastSlot(a);
      return Success;
    }

    /** Prepends a fresh segment whose last slot already holds the new first
        element and moves begin to that slot. */
    method PrependFirstSlot(a: array<T>)
      requires Valid() && FrontFree() == 0 && a !in Repr && a.Length == S
      modifies this
      ensures Valid() && Repr == old(Repr) + {a}
      ensures Elements() == [a[S - 1]] + old(Elements())
      ensures segments == [a] + old(segments) && BackFree() == old(BackFree())
      ensures end == Iter(old(end).seg + 1, old(end).idx) && begin == Iter(0, S - 1)
    {
      BufferLength();
      LinInjective(begin, Iter(0, 0), S);
      ghost var b0, last := Buffer(), Lin(end, S);
      assert Elements() == b0[..last];
      var newBegin := Iter(0, S - 1);
      NextSegmentLin(end, S);
      assert Lin(newBegin, S) == S - 1 < Lin(Iter(end.seg + 1, end.idx), S) == last + S;
      PrependSegment(a);
      begin := newBegin;
      ghost var row := a[..];
      assert Buffer() == row + b0;
      assert Lin(begin, S) == S - 1 && Lin(end, S) == S + last;
      assert InvariantsOk();
      BufferLength();
      PrependedSlice(row, b0, last);
      BackFreeShift(|segments| - 1, old(end), S);
    }

    /** emplace_front_slow_path: with no front free capacity, a fresh segment
        whose last slot receives x is prepended to the map and begin moves to that
        slot; end keeps its map entry, now one further from the map start. */
    method EmplaceFrontSlowPath(x: T, ctorThrows: bool) returns (st: Status)
      requires Valid() && FrontFree() == 0
      modifies this
      ensures Valid() && fresh(Repr - old(Repr))
      ensures st == ElementError <==> ctorThrows
      ensures st == Success ==> Elements() == [x] + old(Elements())
      ensures st == ElementError ==> Elements() == old(Elements()) && segments == old(segments)
      ensures st == Success ==>
        segments[1..] == old(segments) && end == Iter(old(end).seg + 1, old(end).idx) && begin == Iter(0, S - 1)
      ensures BackFree() == old(BackFree())
    {
      if ctorThrows {
        return ElementError;
      }
      var a := new T[S];
      a[S - 1] := x;
      PrependFirstSlot(a);
      return Success;
    }

    /** reserve_back, counting the back free capacity correctly: when fewer
        than n elements fit from the first element to the end of the map,
        segment_count of the shortfall fresh segments are appended to the map.
        reserve(n) is reserve_back(n). */
    method ReserveBack(n: nat)
      requires Valid()
      modifies this
      ensures Valid() && fresh(Repr - old(Repr))
      ensures Elements() == old(Elements()) && begin == old(begin) && end == old(end)
      ensures Size() + BackFree() >= n
      ensures old(segments) <= segments
      ensures n <= old(Size() + BackFree()) ==> segments == old(segments)
      ensures n > old(Size() + BackFree()) ==>
        |segments| == old(|segments|) + SegmentCount(n - old(Size() + BackFree()), S)
    {
      var backCapacity := BackFree() + Size();
      if n <= backCapacity {
        return;
      }
      var count := SegmentCount(n - backCapacity, S);
      ghost var m0, bf0 := |segments|, BackFree();
      var i := 0;
      while i < count
        invariant 0 <= i <= count
        invariant Valid() && fresh(Repr - old(Repr))
        invariant Elements() == old(Elements()) && begin == old(begin) && end == old(end)
        invariant old(segments) <= segments && |segments| == m0 + i
        invariant BackFreeOf(|segments|, end, S) == bf0 + i * S
      {
        GrowBack();
        MulAddOne(i, S);
        i := i + 1;
      }
    }

    /** reserve_front: when fewer than n elements fit from the start of the map
        to the last element, segment_count of the shortfall fresh segments are
        prepended to the map; the iterators keep their entries. */
    method ReserveFront(n: nat)
      requires Valid()
      modifies this
      ensures Valid() && fresh(Repr - old(Repr))
      ensures Elements() == old(Elements())
      ensures FrontFree() + Size() >= n
      ensures n <= old(FrontFree() + Size()) ==> segments == old(segments) && begin == old(begin)
      ensures n > old(FrontFree() + Size()) ==>
        |segments| == old(|segments|) + SegmentCount(n - old(FrontFree() + Size()), S)
        && segments[|segments| - old(|segments|)..] == old(segments)
    {
      var frontCapacity := FrontFree() + Size();
      if n <= frontCapacity {
        return;
      }
      var count := SegmentCount(n - frontCapacity, S);
      ghost var m0, f0 := segments, Lin(begin, S);
      var i := 0;
      while i < count
        invariant 0 <= i <= count
        invariant Valid() && fresh(Repr - old(Repr))
        invariant Elements() == old(Elements())
        invariant |segments| == |m0| + i && segments[i..] == m0
        invariant Lin(begin, S) == f0 + i * S
      {
        ghost var m1 := segments;
        GrowFront();
        assert segments[i + 1..] == m1[i..];
        MulAddOne(i, S);
        i := i + 1;
      }
    }

    /** One fresh segment appended to the map: S more free slots at the back. */
    method GrowBack()
      requires Valid()
      modifies this
      ensures Valid() && fresh(Repr - old(Repr))
      ensures Elements() == old(Elements()) && begin == old(begin) && end == old(end)
      ensures old(segments) <= segments && |segments| == old(|segments|) + 1
      ensures BackFreeOf(|segments|, end, S) == old(BackFreeOf(|segments|, end, S)) + S
    {
      var a := new T[S];
      BackFreeGrow(|segments|, end, S);
      AppendSegment(a);
    }

    /** One fresh segment prepended to the map: every element keeps its value and
        moves S positions further from the start of the map. */
    method GrowFront()
      requires Valid()
      modifies this
      ensures Valid() && fresh(Repr - old(Repr))
      ensures Elements() == old(Elements())
      ensures |segments| == old(|segments|) + 1 && segments[1..] == old(segments)
      ensures Lin(begin, S) == old(Lin(begin, S)) + S
    {
      var a := new T[S];
      NextSegmentLin(begin, S);
      PrependSegment(a);
    }

    /** Keeps the segments lo up to hi of the map, in order, and releases the
        others; the iterators are left for the caller to rebase. */
    method KeepSegments(lo: int, hi: int)
      requires Valid() && 0 <= lo <= hi <= |segments|
      modifies this
      ensures segments == old(segments)[lo..hi] && grid == old(grid)[lo..hi]
      ensures begin == old(begin) && end == old(end) && Repr == old(Repr)
      ensures |grid| == |segments| && Uniform(grid, S)
      ensures forall j :: 0 <= j < |segments| ==> segments[j] in Repr && segments[j].Length == S
      ensures forall j :: 0 <= j < |segments| ==> segments[j][..] == grid[j]
      ensures forall i, j :: 0 <= i < j < |segments| ==> segments[i] != segments[j]
    {
      segments, grid := segments[lo..hi], grid[lo..hi];
      forall i, j | 0 <= i < j < |segments|
        ensures segments[i] != segments[j]
      {
        assert segments[i] == old(segments)[lo + i] && segments[j] == old(segments)[lo + j];
      }
    }

    /** shrink_to_fit, with the back loop corrected: the map entries before the
        first element's segment and those after the last element's segment are
        removed (their segments released); the iterators keep their entries. */
    method ShrinkToFit()
      requires Valid()
      modifies this
      ensures Valid() && Repr == old(Repr)
      ensures Elements() == old(Elements())
      ensures segments == old(LiveSegments())
      ensures FrontFree() < S && BackFree() < S
    {
      var lo, hi := begin.seg, SegmentEnd(end).seg;
      ShrinkBounds(S, |segments|, begin, end, lo, hi);
      ghost var live := LiveSegments();
      DropBackSegments(hi);
      assert segments[lo..] == live;
      DropFrontSegments(lo);
      assert begin.seg == 0 && FrontFree() == begin.idx;
    }

    /** Releases the segments from map entry hi on, all after the last element. */
    method DropBackSegments(hi: int)
      requires Valid() && SegmentEnd(end).seg <= hi <= |segments|
      modifies this
      ensures Valid() && Repr == old(Repr) && begin == old(begin) && end == old(end)
      ensures segments == old(segments[..hi]) && Elements() == old(Elements())
      ensures hi == SegmentEnd(end).seg ==> BackFreeOf(|segments|, end, S) < S
    {
      BufferLength();
      DropBackBounds(S, |segments|, begin, end, hi);
      FlatSlice(grid, S, 0, hi);
      ghost var b0, s0 := Buffer(), segments;
      KeepSegments(0, hi);
      assert segments == s0[..hi];
      assert Buffer() == b0[..hi * S];
    }

    /** Releases the segments before map entry lo, all before the first element;
        both iterators then count lo segments fewer before them. */
    method DropFrontSegments(lo: int)
      requires Valid() && 0 <= lo <= begin.seg && lo <= |segments|
      modifies this
      ensures Valid() && Repr == old(Repr) && Elements() == old(Elements())
      ensures segments == old(segments)[lo..] && BackFree() == old(BackFree())
      ensures begin == Iter(old(begin).seg - lo, old(begin).idx) && end == Iter(old(end).seg - lo, old(end).idx)
    {
      BufferLength();
      FlatSlice(grid, S, lo, |grid|);
      RebaseBounds(S, |segments|, begin, end, lo);
      ghost var b0, base, first, last := Buffer(), lo * S, Lin(begin, S), Lin(end, S);
      ghost var n, backFree := |segments|, BackFree();
      var newBegin, newEnd := Iter(begin.seg - lo, begin.idx), Iter(end.seg - lo, end.idx);
      InnerSlice(b0, base, |b0|, first - base, last - base);
      KeepSegments(lo, |segments|);
      begin, end := newBegin, newEnd;
      assert Buffer() == b0[base..|b0|];
      assert Lin(begin, S) == first - base && Lin(end, S) == last - base;
      assert |segments| == n - lo && Lin(end, S) <= |segments| * S && !Less(end, begin, S);
      assert end.seg <= |segments| && (|segments| > 0 || begin == end);
      assert InvariantsOk() && Valid();
      assert Elements() == b0[first..last];
      assert BackFreeOf(|segments|, end, S) == backFree;
    }

    /** emplace_back / push_back: constructs at end while back_free_capacity() as
        written is positive (exactly when a slot is free after end, by
        BackFreeAsWrittenDecides), otherwise appends a fresh segment
        (emplace_back_slow_path) whose first slot receives x. A failing
        construction changes nothing: the fresh segment is released by its
        allocation guard. */
    method PushBack(x: T, ctorThrows: bool) returns (st: Status)
      requires Valid()
      modifies Repr
      ensures Valid() && fresh(Repr - old(Repr))
      ensures st == ElementError <==> ctorThrows
      ensures st == Success ==> Elements() == old(Elements()) + [x]
      ensures st == ElementError ==> Elements() == old(Elements()) && segments == old(segments)
      ensures begin == old(begin) && old(segments) <= segments
      ensures old(BackFree()) > 0 ==> segments == old(segments)
      ensures st == Success && old(BackFree()) == 0 ==> |segments| == old(|segments|) + 1
    {
      BackFreeAsWrittenDecides();
      if BackFreeAsWritten(|segments|, end, S) > 0 {
        if ctorThrows {
          return ElementError;
        }
        UnsafePushBack(x);
        return Success;
      }
      st := EmplaceBackSlowPath(x, ctorThrows);
    }

    /** emplace_front / push_front, with begin stepped back as UnsafePushFront
        does: constructs just before begin while there is front free capacity,
        otherwise prepends a fresh segment
        (emplace_front_slow_path) whose last slot receives x; every iterator then
        counts one more segment before it. */
    method PushFront(x: T, ctorThrows: bool) returns (st: Status)
      requires Valid()
      modifies Repr
      ensures Valid() && fresh(Repr - old(Repr))
      ensures st == ElementError <==> ctorThrows
      ensures st == Success ==> Elements() == [x] + old(Elements())
      ensures st == ElementError ==> Elements() == old(Elements()) && segments == old(segments)
      ensures old(FrontFree()) > 0 ==> segments == old(segments) && end == old(end)
      ensures st == Success && old(FrontFree()) == 0 ==>
        segments[1..] == old(segments) && end == Iter(old(end).seg + 1, old(end).idx)
      ensures st == Success && old(FrontFree()) == 0 ==> FrontFree() == S - 1
      ensures BackFree() == old(BackFree())
    {
      if FrontFree() > 0 {
        if ctorThrows {
          return ElementError;
        }
        UnsafePushFront(x);
        return Success;
      }
      st := EmplaceFrontSlowPath(x, ctorThrows);
    }

    /** An assignment through begin() + n: the element n places after the first
        becomes x. */
    method SetAt(n: nat, x: T)
      requires Valid() && n < Size()
      modifies Repr
      ensures Valid() && Repr == old(Repr)
      ensures segments == old(segments) && begin == old(begin) && end == old(end)
      ensures Elements() == old(Elements())[n := x]
    {
      BufferLength();
      var it := Advance(begin, n, S);
      InsideMap(it);
      ghost var b0 := Buffer();
      WriteSlot(it, x);
      BufferLength();
      SliceUpdate(b0, Lin(begin, S), Lin(end, S), Lin(it, S), x);
    }

    /** The elements [first, last), read one by one from begin() + first. */
    method ReadRange(first: nat, last: nat) returns (vals: seq<T>)
      requires Valid() && first <= last <= Size()
      ensures vals == Elements()[first..last]
    {
      vals := [];
      var k := first;
      while k < last
        invariant first <= k <= last
        invariant vals == Elements()[first..k]
      {
        var x := Get(k);
        vals := vals + [x];
        k := k + 1;
      }
    }

    /** std::move or std::copy into the deque: from position at on, the elements
        are assigned vals in order. */
    method OverwriteRange(at: nat, vals: seq<T>)
      requires Valid() && at + |vals| <= Size()
      modifies Repr
      ensures Valid() && Repr == old(Repr)
      ensures segments == old(segments) && begin == old(begin) && end == old(end)
      ensures Elements() == Overwrite(old(Elements()), at, vals)
    {
      ghost var e0 := Elements();
      var k := 0;
      while k < |vals|
        invariant 0 <= k <= |vals|
        invariant Valid() && Repr == old(Repr)
        invariant segments == old(segments) && begin == old(begin) && end == old(end)
        invariant Elements() == Overwrite(e0, at, vals[..k])
      {
        SetAt(at + k, vals[k]);
        OverwriteStep(e0, at, vals, k);
        k := k + 1;
      }
      assert vals[..k] == vals;
    }

    /** std::rotate(begin() + first, begin() + middle, begin() + last): the run
        [middle, last) moves in front of the run [first, middle). */
    method RotateRange(first: nat, middle: nat, last: nat)
      requires Valid() && first <= middle <= last <= Size()
      modifies Repr
      ensures Valid() && Repr == old(Repr)
      ensures segments == old(segments) && begin == old(begin) && end == old(end)
      ensures Elements() == RotateRun(old(Elements()), first, middle, last)
    {
      var vals := ReadRange(first, last);
      OverwriteRange(first, Rotate(vals, middle - first));
    }

    /** erase_at_end(begin() + n): the elements from position n on are destroyed
        and end moves back to position n. */
    method EraseAtEnd(n: nat)
      requires Valid() && n <= Size()
      modifies this
      ensures Valid() && Repr == old(Repr)
      ensures segments == old(segments) && begin == old(begin)
      ensures Elements() == old(Elements())[..n]
    {
      BufferLength();
      end := Advance(begin, n, S);
      SegmentBounds(end, |segments|, S);
      BufferLength();
    }

    /** erase_at_begin(begin() + n): the first n elements are destroyed and begin
        moves forward to position n. */
    method EraseAtBegin(n: nat)
      requires Valid() && n <= Size()
      modifies this
      ensures Valid() && Repr == old(Repr)
      ensures segments == old(segments) && end == old(end)
      ensures Elements() == old(Elements())[n..]
    {
      BufferLength();
      begin := Advance(begin, n, S);
      SegmentBounds(begin, |segments|, S);
      BufferLength();
    }

    /** erase(begin() + first, begin() + last): the shorter side is moved over the
        erased run (the tail forward, or the head backward), and the vacated end
        is destroyed. The result is the position of the element that followed the
        erased run. */
    method Erase(first: nat, last: nat) returns (r: nat)
      requires Valid() && first <= last <= Size()
      modifies Repr
      ensures Valid() && Repr == old(Repr) && segments == old(segments)
      ensures Elements() == RemoveRange(old(Elements()), first, last)
      ensures r == first
    {
      var size := Size();
      if size - last <= first {
        EraseByTail(first, last);
      } else {
        EraseByHead(first, last);
      }
      return first;
    }

    /** The tail branch of erase: the elements after the run move forward over
        it and the vacated end is destroyed. */
    method EraseByTail(first: nat, last: nat)
      requires Valid() && first <= last <= Size()
      modifies Repr
      ensures Valid() && Repr == old(Repr) && segments == old(segments)
      ensures Elements() == RemoveRange(old(Elements()), first, last)
    {
      ghost var e0 := Elements();
      var size := Size();
      var tail := ReadRange(last, size);
      OverwriteRange(first, tail);
      EraseAtEnd(first + (size - last));
      EraseByMovingTail(e0, first, last);
    }

    /** The head branch of erase: the elements before the run move backward over
        it and the vacated front is destroyed. */
    method EraseByHead(first: nat, last: nat)
      requires Valid() && first <= last <= Size()
      modifies Repr
      ensures Valid() && Repr == old(Repr) && segments == old(segments)
      ensures Elements() == RemoveRange(old(Elements()), first, last)
    {
      ghost var e0 := Elements();
      var head := ReadRange(0, first);
      OverwriteRange(last - first, head);
      EraseAtBegin(last - first);
      EraseByMovingHead(e0, first, last);
    }

    /** erase(position): the range of one element at position pos. */
    method EraseAt(pos: nat) returns (r: nat)
      requires Valid() && pos < Size()
      modifies Repr
      ensures Valid() && Repr == old(Repr) && segments == old(segments)
      ensures Elements() == old(Elements())[..pos] + old(Elements())[pos + 1..]
      ensures r == pos
    {
      r := Erase(pos, pos + 1);
    }

    /** A run of push_back calls, one per element of r, in order; construction
        fails once budget elements have been constructed. The elements pushed
        before a failure stay. */
    method PushBackAll(r: seq<T>, budget: nat) returns (st: Status)
      requires Valid()
      modifies Repr
      ensures Valid() && fresh(Repr - old(Repr))
      ensures st == ElementError <==> budget < |r|
      ensures st == Success ==> Elements() == old(Elements()) + r
      ensures st == ElementError ==> Elements() == old(Elements()) + r[..budget]
    {
      ghost var e0 := Elements();
      var k := 0;
      while k < |r|
        invariant 0 <= k <= |r| && k <= budget
        invariant Valid() && fresh(Repr - old(Repr))
        invariant Elements() == e0 + r[..k]
      {
        st := PushBack(r[k], k == budget);
        if st == ElementError {
          return;
        }
        assert r[..k + 1] == r[..k] + [r[k]];
        k := k + 1;
      }
      assert r[..k] == r;
      return Success;
    }

    /** pop_back called n times. */
    method PopBackN(n: nat)
      requires Valid() && n <= Size()
      modifies this
      ensures Valid() && Repr == old(Repr) && segments == old(segments)
      ensures Elements() == old(Elements())[..old(Size()) - n]
    {
      ghost var e0 := Elements();
      var k := n;
      while k > 0
        invariant 0 <= k <= n
        invariant Valid() && Repr == old(Repr) && segments == old(segments)
        invariant Elements() == e0[..|e0| - (n - k)]
      {
        PopBack();
        k := k - 1;
      }
    }

    /** pop_front called n times. */
    method PopFrontN(n: nat)
      requires Valid() && n <= Size()
      modifies this
      ensures Valid() && Repr == old(Repr) && segments == old(segments)
      ensures Elements() == old(Elements())[n..]
    {
      ghost var e0 := Elements();
      var k := n;
      while k > 0
        invariant 0 <= k <= n
        invariant Valid() && Repr == old(Repr) && segments == old(segments)
        invariant Elements() == e0[n - k..]
      {
        PopFront();
        k := k - 1;
      }
    }

    /** A run of push_front calls taking the elements of r from the last one
        back, so that r ends up in front in its own order; construction fails once
        budget elements have been constructed, and the pushed elements stay. */
    method PushFrontAll(r: seq<T>, budget: nat) returns (st: Status)
      requires Valid()
      modifies Repr
      ensures Valid() && fresh(Repr - old(Repr))
      ensures st == ElementError <==> budget < |r|
      ensures st == Success ==> Elements() == r + old(Elements())
      ensures st == ElementError ==> Elements() == r[|r| - budget..] + old(Elements())
    {
      ghost var e0 := Elements();
      var k := |r|;
      while k > 0
        invariant 0 <= k <= |r| && |r| - k <= budget
        invariant Valid() && fresh(Repr - old(Repr))
        invariant Elements() == r[k..] + e0
      {
        ghost var e1 := Elements();
        st := PushFront(r[k - 1], |r| - k == budget);
        if st == ElementError {
          assert Elements() == e1;
          return;
        }
        ConsSuffix(r, k - 1, e0);
        k := k - 1;
      }
      return Success;
    }

    /** emplace / insert of one element at position pos: at either end it is a
        push, elsewhere emplace_slow_path. The result is pos. */
    method Emplace(pos: nat, x: T, ctorThrows: bool) returns (st: Status, r: nat)
      requires Valid() && pos <= Size()
      modifies Repr
      ensures Valid() && fresh(Repr - old(Repr))
      ensures st == ElementError <==> ctorThrows
      ensures st == Success ==> Elements() == InsertAt(old(Elements()), pos, [x])
      ensures st == ElementError ==> Elements() == old(Elements())
      ensures r == pos
    {
      r := pos;
      InsertAtEnds(Elements(), [x]);
      if pos == Size() {
        st := PushBack(x, ctorThrows);
      } else if pos == 0 {
        st := PushFront(x, ctorThrows);
      } else {
        st := EmplaceSlowPath(pos, x, ctorThrows);
      }
    }

    /** emplace_slow_path: x is pushed at the end nearer to pos (the back when pos
        is at least half the size) and rotated into place. */
    method EmplaceSlowPath(pos: nat, x: T, ctorThrows: bool) returns (st: Status)
      requires Valid() && pos <= Size()
      modifies Repr
      ensures Valid() && fresh(Repr - old(Repr))
      ensures st == ElementError <==> ctorThrows
      ensures st == Success ==> Elements() == InsertAt(old(Elements()), pos, [x])
      ensures st == ElementError ==> Elements() == old(Elements())
    {
      var size := Size();
      if pos >= size / 2 {
        st := EmplaceByBackRotation(pos, x, ctorThrows);
      } else {
        st := EmplaceByFrontRotation(pos, x, ctorThrows);
      }
    }

    /** The back half of emplace_slow_path: x is pushed at the back and rotated
        before the elements from pos on. */
    method EmplaceByBackRotation(pos: nat, x: T, ctorThrows: bool) returns (st: Status)
      requires Valid() && pos <= Size()
      modifies Repr
      ensures Valid() && fresh(Repr - old(Repr))
      ensures st == ElementError <==> ctorThrows
      ensures st == Success ==> Elements() == InsertAt(old(Elements()), pos, [x])
      ensures st == ElementError ==> Elements() == old(Elements())
    {
      ghost var e0 := Elements();
      var size := Size();
      st := PushBack(x, ctorThrows);
      if st == Success {
        InsertByRotation(e0, pos, [x], Elements());
        RotateRange(pos, size, size + 1);
      }
    }

    /** The front half of emplace_slow_path: x is pushed at the front and the pos
        elements after it are rotated before it. */
    method EmplaceByFrontRotation(pos: nat, x: T, ctorThrows: bool) returns (st: Status)
      requires Valid() && pos <= Size()
      modifies Repr
      ensures Valid() && fresh(Repr - old(Repr))
      ensures st == ElementError <==> ctorThrows
      ensures st == Success ==> Elements() == InsertAt(old(Elements()), pos, [x])
      ensures st == ElementError ==> Elements() == old(Elements())
    {
      ghost var e0 := Elements();
      st := PushFront(x, ctorThrows);
      if st == Success {
        InsertByFrontRotation(e0, pos, [x], Elements());
        RotateRange(0, 1, pos + 1);
      }
    }

    /** insert_range: with a single-pass or forward range, or a position in the
        back half, the elements are pushed at the back and rotated into place;
        otherwise they are pushed at the front (last one first) and the old front
        part is rotated before them. The result is pos. A failing construction
        leaves the elements already pushed in place and rotates nothing (the basic
        guarantee). */
    method InsertRange(pos: nat, r: seq<T>, bidirectional: bool, budget: nat) returns (st: Status, res: nat)
      requires Valid() && pos <= Size()
      modifies Repr
      ensures Valid() && fresh(Repr - old(Repr))
      ensures st == ElementError <==> budget < |r|
      ensures st == Success ==> Elements() == InsertAt(old(Elements()), pos, r)
      ensures st == ElementError && (!bidirectional || pos >= old(Size()) / 2) ==>
        Elements() == old(Elements()) + r[..budget]
      ensures st == ElementError && bidirectional && pos < old(Size()) / 2 ==>
        Elements() == r[|r| - budget..] + old(Elements())
      ensures res == pos
    {
      res := pos;
      var size := Size();
      if !bidirectional || pos >= size / 2 {
        st := InsertByBackPushes(pos, r, budget);
      } else {
        st := InsertByFrontPushes(pos, r, budget);
      }
    }

    /** The back branch of insert_range: r is pushed at the back and rotated
        before the elements from pos on. */
    method InsertByBackPushes(pos: nat, r: seq<T>, budget: nat) returns (st: Status)
      requires Valid() && pos <= Size()
      modifies Repr
      ensures Valid() && fresh(Repr - old(Repr))
      ensures st == ElementError <==> budget < |r|
      ensures st == Success ==> Elements() == InsertAt(old(Elements()), pos, r)
      ensures st == ElementError ==> Elements() == old(Elements()) + r[..budget]
    {
      ghost var e0 := Elements();
      var size := Size();
      st := PushBackAll(r, budget);
      if st == Success {
        InsertByRotation(e0, pos, r, Elements());
        RotateRange(pos, size, size + |r|);
      }
    }

    /** The front branch of insert_range: r is pushed at the front, last element
        first, and the pos elements after it are rotated before it. */
    method InsertByFrontPushes(pos: nat, r: seq<T>, budget: nat) returns (st: Status)
      requires Valid() && pos <= Size()
      modifies Repr
      ensures Valid() && fresh(Repr - old(Repr))
      ensures st == ElementError <==> budget < |r|
      ensures st == Success ==> Elements() == InsertAt(old(Elements()), pos, r)
      ensures st == ElementError ==> Elements() == r[|r| - budget..] + old(Elements())
    {
      ghost var e0 := Elements();
      st := PushFrontAll(r, budget);
      if st == Success {
        InsertByFrontRotation(e0, pos, r, Elements());
        RotateRange(0, |r|, |r| + pos);
      }
    }

    /** insert(pos, n, x): the range of n copies of x, read through a pair of
        constant iterators, which are random access. */
    method InsertCopies(pos: nat, n: nat, x: T, budget: nat) returns (st: Status, res: nat)
      requires Valid() && pos <= Size()
      modifies Repr
      ensures Valid() && fresh(Repr - old(Repr))
      ensures st == ElementError <==> budget < n
      ensures st == Success ==> Elements() == InsertAt(old(Elements()), pos, Repeat(x, n))
      ensures res == pos
    {
      var r := Iterators.CopiesOf(x, n);
      st, res := InsertRange(pos, r, true, budget);
    }

    /** overwrite_buffer, with begin put at the start of the map: a non-empty deque
        receives the first elements of r in the slots from the start of the map on,
        as many as r has or as there are slots before end (the free front slots by
        construction, the elements by assignment), and those become its elements.
        An empty deque is left alone. Returns how many elements of r were used. */
    method OverwriteBuffer(r: seq<T>) returns (m: nat)
      requires Valid()
      modifies Repr
      ensures Valid() && Repr == old(Repr) && segments == old(segments)
      ensures m <= |r| && Elements() == r[..m]
      ensures old(Empty()) ==> m == 0 && begin == old(begin) && end == old(end)
      ensures !old(Empty()) ==> begin == Iter(0, 0)
      ensures !old(Empty()) ==> m <= old(FrontFree() + Size()) && (m == |r| || m == old(FrontFree() + Size()))
    {
      if Empty() {
        return 0;
      }
      BufferLength();
      var last := Lin(end, S);
      m := if |r| < last then |r| else last;
      WriteFromStart(r[..m]);
      begin, end := Iter(0, 0), AtLin(m, S);
      SegmentBounds(end, |segments|, S);
      BufferLength();
    }

    /** Writes vals into the slots from the start of the map on, one slot after
        the other. */
    method WriteFromStart(vals: seq<T>)
      requires Valid() && |vals| <= Capacity()
      modifies Repr
      ensures Valid() && Repr == old(Repr) && segments == old(segments)
      ensures begin == old(begin) && end == old(end)
      ensures Buffer() == Overwrite(old(Buffer()), 0, vals)
    {
      BufferLength();
      ghost var b0 := Buffer();
      var k := 0;
      while k < |vals|
        invariant 0 <= k <= |vals|
        invariant Valid() && Repr == old(Repr) && segments == old(segments)
        invariant begin == old(begin) && end == old(end)
        invariant Buffer() == Overwrite(b0, 0, vals[..k])
      {
        var it := AtLin(k, S);
        SegmentBounds(it, |segments|, S);
        WriteSlot(it, vals[k]);
        OverwriteStep(b0, 0, vals, k);
        k := k + 1;
      }
      assert vals[..k] == vals;
    }

    /** assign(first, last), with overwrite_buffer corrected: the deque's slots
        from the start of the map are reused for the first elements of r, and the
        rest are pushed at the back. A failing construction in the push_back run
        leaves a prefix of r as the elements (the basic guarantee). */
    method Assign(r: seq<T>, budget: nat) returns (st: Status)
      requires Valid()
      modifies Repr
      ensures Valid() && fresh(Repr - old(Repr))
      ensures st == Success ==> Elements() == r
      ensures st == ElementError ==> |Elements()| < |r| && Elements() == r[..|Elements()|]
    {
      var m := OverwriteBuffer(r);
      ghost var head := r[..m];
      var rest := r[m..];
      assert head + rest == r;
      st := PushBackAll(rest, budget);
      if st == ElementError {
        assert head + rest[..budget] == r[..m + budget];
      }
    }

    /** assign(n, t): n copies of t, read through a pair of constant iterators. */
    method AssignCopies(n: nat, t: T, budget: nat) returns (st: Status)
      requires Valid()
      modifies Repr
      ensures Valid() && fresh(Repr - old(Repr))
      ensures st == Success ==> Elements() == Repeat(t, n)
      ensures st == ElementError ==> |Elements()| < n && Elements() == Repeat(t, |Elements()|)
    {
      var r := Iterators.CopiesOf(t, n);
      st := Assign(r, budget);
    }

    /** The position of the first element of the segment that holds element p;
        0 inside begin's segment. */
    function SegmentStart(p: nat): (q: nat)
      requires Valid() && p <= Size()
      reads this, Repr
      ensures q <= p && p - q < S
      ensures Advance(begin, p, S).seg != begin.seg ==> q > 0 && q == Advance(begin, p, S).seg * S - Lin(begin, S)
    {
      var it := Advance(begin, p, S);
      SegmentStartOf(S, begin, it, p);
      if it.seg == begin.seg then 0 else it.seg * S - Lin(begin, S)
    }

    /** resize(size() + back_free_capacity()) on the copy of the range in
        stable_insert, with the corrected back free capacity: copies of c fill the
        free slots after the last element and no segment is added. */
    method FillBackFree(c: T)
      requires Valid()
      modifies Repr
      ensures Valid() && Repr == old(Repr) && segments == old(segments) && begin == old(begin)
      ensures Elements() == old(Elements()) + Repeat(c, old(BackFree()))
      ensures BackFree() == 0
    {
      ghost var e0, n := Elements(), BackFree();
      while BackFree() > 0
        invariant Valid() && Repr == old(Repr) && segments == old(segments) && begin == old(begin)
        invariant BackFree() <= n && Elements() == e0 + Repeat(c, n - BackFree())
        decreases BackFree()
      {
        ghost var k := n - BackFree();
        UnsafePushBack(c);
        assert Repeat(c, k) + [c] == Repeat(c, k + 1);
      }
    }

    /** The segments of tmp enter the map before entry hs, with their contents as
        the grid rows, and end becomes newEnd, which the caller has shifted. */
    method InsertSegments(hs: int, tmp: BatchDeque<T>, newEnd: Iter)
      requires Valid() && tmp.Valid() && tmp.S == S && tmp.Repr !! Repr && 0 <= hs <= |segments|
      requires Normal(newEnd, S) && !Less(newEnd, begin, S)
      requires 0 <= newEnd.seg <= |segments| + |tmp.segments| && Lin(newEnd, S) <= (|segments| + |tmp.segments|) * S
      modifies this
      ensures Valid() && begin == old(begin) && end == newEnd
      ensures segments == old(segments)[..hs] + tmp.segments + old(segments)[hs..]
      ensures grid == old(grid)[..hs] + tmp.grid + old(grid)[hs..]
      ensures Repr == old(Repr) + (tmp.Repr - {tmp})
    {
      end := newEnd;
      SpliceRows(segments, grid, tmp.segments, tmp.grid, hs, S, Repr, tmp.Repr - {tmp});
      segments := segments[..hs] + tmp.segments + segments[hs..];
      grid := grid[..hs] + tmp.grid + grid[hs..];
      Repr := Repr + (tmp.Repr - {tmp});
    }

    /** The map insertion of stable_insert: the segments of tmp, a deque whose
        elements fill its map from the first slot, enter the map before entry hs,
        and end counts them. No existing segment is touched. */
    method SpliceSegments(hs: int, at: nat, tmp: BatchDeque<T>)
      requires Valid() && tmp.Valid() && tmp.S == S && tmp.Repr !! Repr
      requires begin.seg < hs <= end.seg && at == hs * S - Lin(begin, S) && at <= Size()
      requires tmp.begin == Iter(0, 0) && tmp.BackFree() == 0
      modifies this
      ensures Valid() && Repr == old(Repr) + (tmp.Repr - {tmp})
      ensures segments == old(segments)[..hs] + tmp.segments + old(segments)[hs..]
      ensures begin == old(begin)
      ensures Elements() == InsertAt(old(Elements()), at, old(tmp.Elements()))
    {
      ghost var g0, tg, lb, le := grid, tmp.grid, Lin(begin, S), Lin(end, S);
      var tc := |tmp.segments|;
      var newEnd := Iter(end.seg + tc, end.idx);
      BufferLength();
      ghost var e0 := Elements();
      assert e0 == Flat(g0)[lb..le];
      ShiftEnd(S, begin, end, |segments|, tc);
      ghost var te := tmp.Elements();
      assert te == Flat(tg) by {
        tmp.BufferLength();
      }
      SegmentStartBounds(S, begin, end, hs);
      InsertSegments(hs, tmp, newEnd);
      SplicedElements(g0, tg, hs, lb, le);
      assert Elements() == InsertAt(e0, at, te);
    }

    /** The elements after a splice of the rows tg into the grid g0 before row hs,
        with end moved on by those rows. */
    lemma SplicedElements(g0: seq<seq<T>>, tg: seq<seq<T>>, hs: int, lb: int, le: int)
      requires Uniform(g0, S) && Uniform(tg, S) && 0 <= hs <= |g0|
      requires 0 <= lb <= hs * S <= le <= |g0| * S
      requires grid == g0[..hs] + tg + g0[hs..] && Lin(begin, S) == lb && Lin(end, S) == le + |tg| * S
      ensures |Flat(g0)| == |g0| * S
      ensures Elements() == InsertAt(Flat(g0)[lb..le], hs * S - lb, Flat(tg))
    {
      SpliceWindow(grid, g0, tg, S, hs, lb, le, Lin(begin, S), Lin(end, S));
    }

    /** stable_insert(position_hint, first, last), for a hint in a segment after
        begin's: a deque tmp is built from r and padded with copies of fill (the
        value-initialized element) up to the end of its last segment, and its
        segments enter the map before the hint's segment. The result is the
        position of the hint segment's first slot, now the first inserted element.
        A failing construction destroys tmp and leaves this deque as it was. */
    method StableInsertSplice(p: nat, r: seq<T>, fill: T, budget: nat) returns (st: Status, res: nat, ghost hs: int, ghost added: seq<array<T>>)
      requires Valid() && p < Size() && Advance(begin, p, S).seg != begin.seg
      modifies this
      ensures Valid() && fresh(Repr - old(Repr)) && begin == old(begin)
      ensures hs == Advance(old(begin), p, S).seg && 0 <= hs <= old(|segments|)
      ensures st == ElementError <==> budget < |r| + Padding(|r|, S)
      ensures st == ElementError ==> Elements() == old(Elements()) && segments == old(segments)
      ensures res == old(SegmentStart(p))
      ensures st == Success ==> Elements() == InsertAt(old(Elements()), res, r + Repeat(fill, Padding(|r|, S)))
      ensures st == Success ==> |added| == SegmentCount(|r|, S) && (forall a :: a in added ==> fresh(a))
      ensures st == Success ==> segments == old(segments)[..hs] + added + old(segments)[hs..]
    {
      var hint := Advance(begin, p, S);
      hs := hint.seg;
      res := SegmentStart(p);
      added := [];
      assert begin.seg < hs <= end.seg by {
        BufferLength();
        MulAddOne(end.seg, S);
        SegmentBounds(hint, end.seg + 1, S);
        SegmentStartOf(S, begin, hint, p);
      }
      if budget < |r| + Padding(|r|, S) {
        return ElementError, res, hs, added;
      }
      var tmp := new BatchDeque<T>.FromRange(S, r);
      assert tmp.BackFree() == Padding(|r|, S) by {
        tmp.BufferLength();
        LinInjective(tmp.end, AtLin(|r|, S), S);
      }
      tmp.FillBackFree(fill);
      added := tmp.segments;
      SpliceSegments(hint.seg, res, tmp);
      st := Success;
    }

    /** stable_insert(position_hint, first, last): at the end or in begin's
        segment the range is inserted with insert, at the hint or at begin
        respectively; anywhere else it goes in whole fresh segments before the
        hint's segment, and no existing segment moves or changes, so iterators
        and references into the deque stay valid. */
    method StableInsert(p: nat, r: seq<T>, fill: T, bidirectional: bool, budget: nat) returns (st: Status, res: nat)
      requires Valid() && p <= Size()
      modifies Repr
      ensures Valid() && fresh(Repr - old(Repr))
      ensures p == old(Size()) ==> (st == ElementError <==> budget < |r|)
      ensures p == old(Size()) && st == Success ==> Elements() == old(Elements()) + r && res == p
      ensures p < old(Size()) && Advance(old(begin), p, S).seg == old(begin).seg ==>
        (st == ElementError <==> budget < |r|) && (st == Success ==> Elements() == r + old(Elements()) && res == 0)
      ensures p < old(Size()) && Advance(old(begin), p, S).seg != old(begin).seg ==>
        (st == ElementError <==> budget < |r| + Padding(|r|, S))
        && (st == ElementError ==> Elements() == old(Elements()))
        && res == old(SegmentStart(p)) && 0 < res <= p
        && (st == Success ==> Elements() == InsertAt(old(Elements()), res, r + Repeat(fill, Padding(|r|, S))))
        && (forall j :: 0 <= j < old(|segments|) ==> old(segments)[j] in segments && old(segments)[j][..] == old(segments[j][..]))
    {
      var size := Size();
      if p == size {
        st, res := InsertRange(p, r, bidirectional, budget);
        return;
      }
      var hint := Advance(begin, p, S);
      if hint.seg == begin.seg {
        st, res := InsertRange(0, r, bidirectional, budget);
        return;
      }
      ghost var hs, added;
      ghost var segments0 := segments;
      st, res, hs, added := StableInsertSplice(p, r, fill, budget);
      if st == Success {
        SplicedKeepsRows(segments0, added, hs);
      }
    }

    /** The segment walk: from segment_begin() up to segment_end(), the live run
        data()[0..data_size()) of each segment, appended in order, gives the
        elements. */
    method SegmentWalk() returns (out: seq<T>)
      requires Valid()
      ensures out == Elements()
    {
      BufferLength();
      WalkIsElements(grid, S, begin, end);
      out := WalkSegments(segments, grid, S, begin, end);
    }

    /** resize_back(sz, c): copies of c are pushed at the back up to size sz, and
        if one fails to construct the pushed ones are popped again; a smaller sz
        destroys the elements from position sz on. resize_back(sz) is the same
        with value-initialized elements, given here as c. */
    method ResizeBack(sz: nat, c: T, budget: nat) returns (st: Status)
      requires Valid()
      modifies Repr
      ensures Valid() && fresh(Repr - old(Repr))
      ensures st == ElementError <==> old(Size()) < sz && budget < sz - old(Size())
      ensures st == Success && sz >= old(Size()) ==> Elements() == old(Elements()) + Repeat(c, sz - old(Size()))
      ensures sz < old(Size()) ==> Elements() == old(Elements())[..sz]
      ensures st == ElementError ==> Elements() == old(Elements())
    {
      var size := Size();
      if sz >= size {
        st := PushBackAll(Repeat(c, sz - size), budget);
        if st == ElementError {
          PopBackN(Size() - size);
        }
      } else {
        EraseAtEnd(sz);
        st := Success;
      }
    }

    /** resize_front(sz, c): copies of c are pushed at the front up to size sz,
        and if one fails to construct the pushed ones are popped again; a smaller
        sz destroys the first size() - sz elements. */
    method ResizeFront(sz: nat, c: T, budget: nat) returns (st: Status)
      requires Valid()
      modifies Repr
      ensures Valid() && fresh(Repr - old(Repr))
      ensures st == ElementError <==> old(Size()) < sz && budget < sz - old(Size())
      ensures st == Success && sz >= old(Size()) ==> Elements() == Repeat(c, sz - old(Size())) + old(Elements())
      ensures sz < old(Size()) ==> Elements() == old(Elements())[old(Size()) - sz..]
      ensures st == ElementError ==> Elements() == old(Elements())
    {
      var size := Size();
      if sz >= size {
        st := PushFrontAll(Repeat(c, sz - size), budget);
        if st == ElementError {
          PopFrontN(Size() - size);
        }
      } else {
        EraseAtBegin(size - sz);
        st := Success;
      }
    }

    /** pop_front: the first element is destroyed and begin steps forward. */
    method PopFront()
      requires Valid() && !Empty()
      modifies this
      ensures Valid() && Repr == old(Repr)
      ensures Elements() == old(Elements())[1..]
      ensures segments == old(segments) && end == old(end)
      ensures FrontFree() == old(FrontFree()) + 1
    {
      BufferLength();
      begin := Increment(begin, S);
      BufferLength();
    }

    /** pop_back: the last element is destroyed and end steps back. */
    method PopBack()
      requires Valid() && !Empty()
      modifies this
      ensures Valid() && Repr == old(Repr)
      ensures Elements() == old(Elements())[..old(Size()) - 1]
      ensures segments == old(segments) && begin == old(begin)
      ensures BackFree() == old(BackFree()) + 1
    {
      BufferLength();
      end := Decrement(end, S);
      BufferLength();
    }

    /** clear: every element is destroyed; both iterators go back to the first
        slot of the map, which keeps all its segments. */
    method Clear()
      requires Valid()
      modifies this
      ensures Valid() && Repr == old(Repr)
      ensures Elements() == [] && segments == old(segments)
      ensures FrontFree() == 0 && BackFree() == Capacity()
    {
      begin, end := Iter(0, 0), Iter(0, 0);
      BufferLength();
    }

    /** swap: the maps and the iterators are exchanged; no element moves. */
    method Swap(other: BatchDeque<T>)
      requires Valid() && other.Valid() && other.S == S
      requires other != this ==> Repr !! other.Repr
      modifies this, other
      ensures Valid() && other.Valid()
      ensures Elements() == old(other.Elements()) && other.Elements() == old(Elements())
      ensures segments == old(other.segments) && other.segments == old(segments)
      ensures other != this ==> Repr == old(other.Repr) - {other} + {this} && other.Repr == old(Repr) - {this} + {other}
    {
      if other == this {
        return;
      }
      ghost var e0, e1 := Elements(), other.Elements();
      ghost var r0, r1 := Repr, other.Repr;
      var m0, b0, f0 := segments, begin, end;
      ghost var g0 := grid;
      segments, grid, begin, end := other.segments, other.grid, other.begin, other.end;
      Repr := r1 - {other} + {this};
      assert forall j :: 0 <= j < |segments| ==> segments[j] in r1;
      assert Elements() == e1;
      other.segments, other.grid, other.begin, other.end := m0, g0, b0, f0;
      other.Repr := r0 - {this} + {other};
      assert forall j :: 0 <= j < |other.segments| ==> other.segments[j] in r0;
      assert other.Elements() == e0;
    }
  }
}
