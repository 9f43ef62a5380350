/** The devector: a contiguous buffer with free capacity at both ends. Elements live
    in buffer[front..back]; a small inline buffer of `smallBufferSize` slots is used
    whenever the capacity does not exceed it, a heap buffer otherwise. Every size and
    index is of the 32-bit size type of the default growth policy. A constructor of
    the element type that throws is modelled by a flag (one element) or a budget (a
    run of elements: constructions numbered `budget` and later throw). */
module Devector {
  import opened SeqUtil
  import opened DevectorPolicy
  import opened Algorithm
  import opened Iterators

  datatype Status = Success | LengthError | ElementError

  datatype Access<T> = Value(value: T) | OutOfRange

  /** Copies (moves) src[lo..hi] into dst from `at` on. */
  method CopyRange<T>(src: array<T>, lo: nat, hi: nat, dst: array<T>, at: nat)
    requires lo <= hi <= src.Length && at + (hi - lo) <= dst.Length
    requires src != dst || lo == hi
    modifies dst
    ensures dst[..] == Overwrite(old(dst[..]), at, old(src[..])[lo..hi])
    ensures src != dst ==> src[..] == old(src[..])
  {
    ghost var d0 := dst[..];
    ghost var r := src[..][lo..hi];
    var i := 0;
    while i < hi - lo
      invariant i <= hi - lo
      invariant forall k :: 0 <= k < dst.Length && !(at <= k < at + i) ==> dst[k] == d0[k]
      invariant forall k :: at <= k < at + i ==> dst[k] == r[k - at]
    {
      dst[at + i] := src[lo + i];
      i := i + 1;
    }
    assert dst[..] == Overwrite(d0, at, r);
  }

  /** Constructs the elements of `r` in dst from `at` on. */
  method WriteSeq<T>(dst: array<T>, at: nat, r: seq<T>)
    requires at + |r| <= dst.Length
    modifies dst
    ensures dst[..] == Overwrite(old(dst[..]), at, r)
  {
    ghost var d0 := dst[..];
    var i := 0;
    while i < |r|
      invariant i <= |r|
      invariant forall k :: 0 <= k < dst.Length && !(at <= k < at + i) ==> dst[k] == d0[k]
      invariant forall k :: at <= k < at + i ==> dst[k] == r[k - at]
    {
      dst[at + i] := r[i];
      i := i + 1;
    }
    assert dst[..] == Overwrite(d0, at, r);
  }

  /** Writing r at nf + idx (a1), then the first idx elements of src[f..b] at nf
      (a2), then the rest after r (a3), leaves InsertAt(src[f..b], idx, r) in
      [nf, nf + (b - f) + |r|). */
  lemma RelocatedRun<T>(a0: seq<T>, a1: seq<T>, a2: seq<T>, a3: seq<T>, nf: nat, idx: nat, src: seq<T>, f: nat, b: nat, r: seq<T>)
    requires f <= b <= |src| && idx <= b - f && nf + (b - f) + |r| <= |a0|
    requires a1 == Overwrite(a0, nf + idx, r) && a2 == Overwrite(a1, nf, src[f..f + idx])
    requires a3 == Overwrite(a2, nf + idx + |r|, src[f + idx..b])
    ensures a3[nf..nf + (b - f) + |r|] == InsertAt(src[f..b], idx, r)
  {
    var s := src[f..b];
    var head, tail := src[f..f + idx], src[f + idx..b];
    assert head == s[..idx] && tail == s[idx..];
    var ins := InsertAt(s, idx, r);
    forall k | 0 <= k < |s| + |r|
      ensures a3[nf + k] == ins[k]
    {
      if k < idx {
        assert a3[nf + k] == a2[nf + k] == head[k];
        assert ins[k] == ins[..idx][k] == s[k];
      } else if k < idx + |r| {
        assert a3[nf + k] == a2[nf + k] == a1[nf + k] == r[k - idx];
        assert ins[k] == ins[idx..idx + |r|][k - idx];
      } else {
        assert a3[nf + k] == tail[k - idx - |r|] == s[k - |r|];
        assert ins[k] == ins[idx + |r|..][k - idx - |r|] == s[idx..][k - idx - |r|];
      }
    }
  }

  /** The first two writes of a relocation: r at nf + idx, then src[f..f + idx]
      at nf. */
  method WriteRangeAndFront<T>(src: array<T>, f: nat, idx: nat, r: seq<T>, dst: array<T>, nf: nat)
    requires src != dst && f + idx <= src.Length && nf + idx + |r| <= dst.Length
    modifies dst
    ensures src[..] == old(src[..])
    ensures dst[..] == Overwrite(Overwrite(old(dst[..]), nf + idx, r), nf, old(src[..])[f..f + idx])
  {
    ghost var s0 := src[..];
    WriteSeq(dst, nf + idx, r);
    assert src[..] == s0;
    CopyRange(src, f, f + idx, dst, nf);
  }

  /** Moves src[f..b] into dst from `nf` on, with `r` constructed before index `idx`. */
  method RelocateInto<T>(src: array<T>, f: nat, b: nat, idx: nat, r: seq<T>, dst: array<T>, nf: nat)
    requires src != dst && f <= b <= src.Length && idx <= b - f && nf + (b - f) + |r| <= dst.Length
    modifies dst
    ensures dst[nf..nf + (b - f) + |r|] == InsertAt(old(src[f..b]), idx, r)
  {
    ghost var a0, s0 := dst[..], src[..];
    ghost var head, tail := s0[f..f + idx], s0[f + idx..b];
    assert s0[f..b] == old(src[f..b]);
    WriteRangeAndFront(src, f, idx, r, dst, nf);
    ghost var a1, a2 := Overwrite(a0, nf + idx, r), dst[..];
    assert a2 == Overwrite(a1, nf, head) && src[..] == s0;
    CopyRange(src, f + idx, b, dst, nf + idx + |r|);
    ghost var a3 := dst[..];
    assert a3 == Overwrite(a2, nf + idx + |r|, tail);
    RelocatedRun(a0, a1, a2, a3, nf, idx, s0, f, b, r);
    assert dst[nf..nf + (b - f) + |r|] == a3[nf..nf + (b - f) + |r|];
  }

  /** One element inserted before index `pos` of a[f..b] by shifting the front part
      one slot to the left: the run now starts at f - 1. */
  method ShiftFrontInsert<T>(a: array<T>, f: nat, b: nat, pos: nat, x: T)
    requires 0 < f && 0 < pos && f + pos <= b <= a.Length
    modifies a
    ensures a[f - 1..b] == InsertAt(old(a[f..b]), pos, [x])
  {
    ghost var a0 := a[..];
    a[f - 1] := a[f];
    ghost var a1 := a[..];
    assert a1 == a0[f - 1 := a0[f]];
    MoveIfNoexcept(a, f + 1, f + pos, f);
    ghost var a2 := a[..];
    assert a2 == Overwrite(a1, f, a1[f + 1..f + pos]);
    a[f - 1 + pos] := x;
    assert a[..] == a2[f - 1 + pos := x];
    ShiftFrontSteps(a0, f, b, pos, x);
  }

  /** The steps of the front shift on the slots a0: the first element moves one
      slot left, the next pos - 1 follow it, and x fills the slot freed. */
  lemma ShiftFrontSteps<T>(a0: seq<T>, f: nat, b: nat, pos: nat, x: T)
    requires 0 < f && 0 < pos && f + pos <= b <= |a0|
    ensures var a1 := a0[f - 1 := a0[f]];
      Overwrite(a1, f, a1[f + 1..f + pos])[f - 1 + pos := x][f - 1..b] == InsertAt(a0[f..b], pos, [x])
  {
    var s := a0[f..b];
    var a1 := a0[f - 1 := a0[f]];
    var a3 := Overwrite(a1, f, a1[f + 1..f + pos])[f - 1 + pos := x];
    var ins := InsertAt(s, pos, [x]);
    forall k | 0 <= k < |s| + 1
      ensures a3[f - 1 + k] == ins[k]
    {
      if k < pos {
        assert ins[k] == ins[..pos][k];
      } else if k > pos {
        assert ins[k] == ins[pos + 1..][k - pos - 1];
      }
    }
  }

  /** One element inserted before index `pos` of a[f..b] by shifting the back part
      one slot to the right: the run now ends at b + 1. */
  method ShiftBackInsert<T>(a: array<T>, f: nat, b: nat, pos: nat, x: T)
    requires f + pos < b < a.Length
    modifies a
    ensures a[f..b + 1] == InsertAt(old(a[f..b]), pos, [x])
  {
    ghost var a0 := a[..];
    a[b] := a[b - 1];
    ghost var a1 := a[..];
    assert a1 == a0[b := a0[b - 1]];
    MoveIfNoexceptBackward(a, f + pos, b - 1, b);
    ghost var a2 := a[..];
    assert a2 == Overwrite(a1, f + pos + 1, a1[f + pos..b - 1]);
    a[f + pos] := x;
    assert a[..] == a2[f + pos := x];
    ShiftBackSteps(a0, f, b, pos, x);
  }

  /** The steps of the back shift on the slots a0: the last element moves one slot
      right, the ones from pos on follow it, and x fills the slot freed. */
  lemma ShiftBackSteps<T>(a0: seq<T>, f: nat, b: nat, pos: nat, x: T)
    requires f + pos < b < |a0|
    ensures var a1 := a0[b := a0[b - 1]];
      Overwrite(a1, f + pos + 1, a1[f + pos..b - 1])[f + pos := x][f..b + 1] == InsertAt(a0[f..b], pos, [x])
  {
    var s := a0[f..b];
    var a1 := a0[b := a0[b - 1]];
    var a3 := Overwrite(a1, f + pos + 1, a1[f + pos..b - 1])[f + pos := x];
    var ins := InsertAt(s, pos, [x]);
    forall k | 0 <= k < |s| + 1
      ensures a3[f + k] == ins[k]
    {
      if k < pos {
        assert ins[k] == ins[..pos][k];
      } else if k > pos {
        assert ins[k] == ins[pos + 1..][k - pos - 1];
      }
    }
  }

  /** insert_range_slow_path_near_front on a[f..b]: the elements of `r` are
      constructed in front of the run and rotated into place before index `pos`;
      the run now starts at f - |r|. */
  method NearFrontInsert<T>(a: array<T>, f: nat, b: nat, pos: nat, r: seq<T>)
    requires |r| <= f && f + pos <= b <= a.Length
    modifies a
    ensures a[f - |r|..b] == InsertAt(old(a[f..b]), pos, r)
  {
    ghost var a0 := a[..];
    var nb := f - |r|;
    WriteSeq(a, nb, r);
    var rotated := Rotate(a[nb..f + pos], |r|);
    WriteSeq(a, nb, rotated);
    NearFrontSteps(a0, f, b, pos, r);
  }

  /** The steps of insert_range_slow_path_near_front on the slots a0: r is written
      just before the run at f, then r and the first pos elements are rotated. */
  lemma NearFrontSteps<T>(a0: seq<T>, f: nat, b: nat, pos: nat, r: seq<T>)
    requires |r| <= f && f + pos <= b <= |a0|
    ensures var nb := f - |r|;
      var a1 := Overwrite(a0, nb, r);
      var a2 := Overwrite(a1, nb, Rotate(a1[nb..f + pos], |r|));
      a2[nb..b] == InsertAt(a0[f..b], pos, r)
  {
    var nb, s := f - |r|, a0[f..b];
    var a1 := Overwrite(a0, nb, r);
    assert a1[nb..f + pos] == r + s[..pos] by {
      OverwriteFrom(a0, nb, r, f + pos);
      assert forall i :: 0 <= i < pos ==> a0[f..f + pos][i] == s[..pos][i];
      assert a0[f..f + pos] == s[..pos];
    }
    assert a1[f + pos..b] == s[pos..] by {
      OverwriteOutside(a0, nb, r, f + pos, b);
    }
    var x := r + s[..pos];
    assert x[|r|..] == s[..pos] && x[..|r|] == r;
    assert Rotate(x, |r|) == s[..pos] + r;
    OverwriteFrom(a1, nb, Rotate(x, |r|), b);
  }

  /** insert_range_slow_path_near_back on a[f..b]: the elements of `r` are
      constructed after the run and rotated into place before index `pos`; the run
      now ends at b + |r|. */
  method NearBackInsert<T>(a: array<T>, f: nat, b: nat, pos: nat, r: seq<T>)
    requires f + pos <= b && b + |r| <= a.Length
    modifies a
    ensures a[f..b + |r|] == InsertAt(old(a[f..b]), pos, r)
  {
    ghost var a0 := a[..];
    WriteSeq(a, b, r);
    var rotated := Rotate(a[f + pos..b + |r|], b - (f + pos));
    WriteSeq(a, f + pos, rotated);
    NearBackSteps(a0, f, b, pos, r);
  }

  /** The steps of insert_range_slow_path_near_back on the slots a0: r is written
      just after the run ending at b, then the last elements and r are rotated. */
  lemma NearBackSteps<T>(a0: seq<T>, f: nat, b: nat, pos: nat, r: seq<T>)
    requires f + pos <= b && b + |r| <= |a0|
    ensures var a1 := Overwrite(a0, b, r);
      var a2 := Overwrite(a1, f + pos, Rotate(a1[f + pos..b + |r|], b - (f + pos)));
      a2[f..b + |r|] == InsertAt(a0[f..b], pos, r)
  {
    var s := a0[f..b];
    var a1 := Overwrite(a0, b, r);
    assert a1[f + pos..b + |r|] == s[pos..] + r by {
      OverwriteAppends(a0, f + pos, b, r);
      assert forall i :: 0 <= i < b - (f + pos) ==> a0[f + pos..b][i] == s[pos..][i];
      assert a0[f + pos..b] == s[pos..];
    }
    assert a1[f..f + pos] == s[..pos] by {
      OverwriteOutside(a0, b, r, f, f + pos);
      assert forall i :: 0 <= i < pos ==> a0[f..f + pos][i] == s[..pos][i];
      assert a0[f..f + pos] == s[..pos];
    }
    var rotated := Rotate(a1[f + pos..b + |r|], b - (f + pos));
    assert rotated == r + s[pos..] by {
      var x := s[pos..] + r;
      assert x[b - (f + pos)..] == r && x[..b - (f + pos)] == s[pos..];
    }
    var a2 := Overwrite(a1, f + pos, rotated);
    assert a2[f..b + |r|] == s[..pos] + (r + s[pos..]) by {
      OverwriteOutside(a1, f + pos, rotated, f, f + pos);
      OverwriteFrom(a1, f + pos, rotated, b + |r|);
      assert a2[f..b + |r|] == a2[f..f + pos] + a2[f + pos..b + |r|];
    }
  }

  /** Inserting the two parts of a range one after the other inserts the range. */
  lemma InsertInTwoParts<T>(s: seq<T>, pos: nat, r: seq<T>, k: nat)
    requires pos <= |s| && k <= |r|
    ensures InsertAt(InsertAt(s, pos, r[..k]), pos + k, r[k..]) == InsertAt(s, pos, r)
  {
    assert r[..k] + r[k..] == r;
    var t := InsertAt(s, pos, r[..k]);
    assert t[..pos + k] == s[..pos] + r[..k];
    assert t[pos + k..] == s[pos..];
  }

  /** The front part a[f..f+first] moves backward over the gap a[f+first..f+last];
      the run now starts at f + (last - first). */
  method CloseGapFromFront<T>(a: array<T>, f: nat, b: nat, first: nat, last: nat)
    requires f + last <= b <= a.Length && first <= last
    modifies a
    ensures a[f + (last - first)..b] == RemoveRange(old(a[f..b]), first, last)
  {
    ghost var a0 := a[..];
    MoveIfNoexceptBackward(a, f, f + first, f + last);
    CloseGapFromFrontSteps(a0, f, b, first, last);
  }

  lemma CloseGapFromFrontSteps<T>(a0: seq<T>, f: nat, b: nat, first: nat, last: nat)
    requires f + last <= b <= |a0| && first <= last
    ensures Overwrite(a0, f + last - first, a0[f..f + first])[f + (last - first)..b] == RemoveRange(a0[f..b], first, last)
  {
    var a1 := Overwrite(a0, f + last - first, a0[f..f + first]);
    var e := RemoveRange(a0[f..b], first, last);
    forall k | 0 <= k < |e|
      ensures a1[f + (last - first) + k] == e[k]
    {
      if k < first {
        assert e[k] == e[..first][k];
      } else {
        assert e[k] == e[first..][k - first];
      }
    }
  }

  /** The back part a[f+last..b] moves forward over the gap a[f+first..f+last];
      the run now ends at b - (last - first). */
  method CloseGapFromBack<T>(a: array<T>, f: nat, b: nat, first: nat, last: nat)
    requires f + last <= b <= a.Length && first <= last
    modifies a
    ensures a[f..b - (last - first)] == RemoveRange(old(a[f..b]), first, last)
  {
    ghost var a0 := a[..];
    MoveIfNoexcept(a, f + last, b, f + first);
    CloseGapFromBackSteps(a0, f, b, first, last);
  }

  lemma CloseGapFromBackSteps<T>(a0: seq<T>, f: nat, b: nat, first: nat, last: nat)
    requires f + last <= b <= |a0| && first <= last
    ensures Overwrite(a0, f + first, a0[f + last..b])[f..b - (last - first)] == RemoveRange(a0[f..b], first, last)
  {
    var a1 := Overwrite(a0, f + first, a0[f + last..b]);
    var e := RemoveRange(a0[f..b], first, last);
    forall k | 0 <= k < |e|
      ensures a1[f + k] == e[k]
    {
      if k < first {
        assert e[k] == e[..first][k];
      } else {
        assert e[k] == e[first..][k - first];
      }
    }
  }

  /** A run of slots [lo, hi) that swap_small_small constructs in the other small
      buffer at the same indices: taken from the first devector when `fromA`, from
      the second otherwise. */
  datatype Run = Run(fromA: bool, lo: nat, hi: nat)

  predicate InRun(r: Run, fromA: bool, k: int)
  {
    r.fromA == fromA && r.lo <= k < r.hi
  }

  /** The front run of swap_small_small (copy_or_move_front): the elements of the
      devector with the smaller front index that lie before the other's front. */
  function SwapFrontRun(af: nat, ab: nat, bf: nat, bb: nat): (r: Run)
    requires af <= ab && bf <= bb
    ensures r.lo <= r.hi
  {
    if af < bf then Run(true, af, if ab < bf then ab else bf)
    else if af > bf then Run(false, bf, if bb < af then bb else af)
    else Run(true, af, af)
  }

  /** The back run of swap_small_small (copy_or_move_back): the elements of the
      devector with the larger back index that lie after the other's back. */
  function SwapBackRun(af: nat, ab: nat, bf: nat, bb: nat): (r: Run)
    requires af <= ab && bf <= bb
    ensures r.lo <= r.hi
  {
    if ab > bb then Run(true, if af < bb then bb else af, ab)
    else if ab < bb then Run(false, if bf < ab then ab else bf, bb)
    else Run(true, ab, ab)
  }

  /** The elements both runs construct: the ones without a partner slot. */
  function SwapCopyCount(af: nat, ab: nat, bf: nat, bb: nat): nat
    requires af <= ab && bf <= bb
  {
    var fr, br := SwapFrontRun(af, ab, bf, bb), SwapBackRun(af, ab, bf, bb);
    (fr.hi - fr.lo) + (br.hi - br.lo)
  }

  /** The range handed to swap_ranges as written: it starts at the larger front
      clamped to the first devector's back, and ends at the smaller back. */
  function SwapOverlapAsWritten(af: nat, ab: nat, bf: nat, bb: nat): (r: (nat, nat))
    ensures r.0 <= ab && r.1 <= ab && r.1 <= bb
  {
    var hiFront := if af < bf then bf else af;
    var last := if ab < bb then ab else bb;
    (if hiFront < ab then hiFront else ab, last)
  }

  /** The slots both devectors hold, [max of the fronts, min of the backs), and an
      empty range when the two runs do not meet. */
  function SwapOverlap(af: nat, ab: nat, bf: nat, bb: nat): (r: (nat, nat))
    ensures r.0 <= r.1
  {
    var hiFront := if af < bf then bf else af;
    var last := if ab < bb then ab else bb;
    (if hiFront < last then hiFront else last, last)
  }

  /** The plan covers every slot exactly once: a slot of one devector that the
      other does not hold is in exactly one run taken from it, a slot both hold is
      in the swapped range, and no other slot is touched. */
  lemma SwapSlotRoles(af: nat, ab: nat, bf: nat, bb: nat, k: int)
    requires af <= ab && bf <= bb
    ensures var fr, br := SwapFrontRun(af, ab, bf, bb), SwapBackRun(af, ab, bf, bb);
      (InRun(fr, true, k) || InRun(br, true, k)) <==> (af <= k < ab && !(bf <= k < bb))
    ensures var fr, br := SwapFrontRun(af, ab, bf, bb), SwapBackRun(af, ab, bf, bb);
      (InRun(fr, false, k) || InRun(br, false, k)) <==> (bf <= k < bb && !(af <= k < ab))
    ensures var fr, br := SwapFrontRun(af, ab, bf, bb), SwapBackRun(af, ab, bf, bb);
      !(fr.lo <= k < fr.hi && br.lo <= k < br.hi)
    ensures var ov := SwapOverlap(af, ab, bf, bb);
      ov.0 <= k < ov.1 <==> (af <= k < ab && bf <= k < bb)
  {
  }

  /** The written range is inverted exactly when the first devector's elements lie
      wholly after the second's; in every other case it is the corrected one. */
  lemma SwapOverlapAsWrittenInverted(af: nat, ab: nat, bf: nat, bb: nat)
    requires af <= ab && bf <= bb
    ensures SwapOverlapAsWritten(af, ab, bf, bb).0 > SwapOverlapAsWritten(af, ab, bf, bb).1 <==> af > bb
    ensures af <= bb ==> SwapOverlapAsWritten(af, ab, bf, bb) == SwapOverlap(af, ab, bf, bb)
  {
  }

  /** Two small buffers of 8 slots, a = [5, 7) and b = [0, 2): both runs are copied
      whole, and swap_ranges is handed the inverted range [5, 2). */
  lemma SwapOverlapAsWrittenCounterexample()
    ensures SwapFrontRun(5, 7, 0, 2) == Run(false, 0, 2) && SwapBackRun(5, 7, 0, 2) == Run(true, 5, 7)
    ensures SwapOverlapAsWritten(5, 7, 0, 2) == (5, 2)
    ensures SwapOverlap(5, 7, 0, 2) == (2, 2)
  {
  }

  /** Constructs the run [lo, hi) of one small buffer in the other at the same
      indices: from `a` into `b` when `fromA`, from `b` into `a` otherwise. */
  method CopyRun<T>(a: array<T>, b: array<T>, fromA: bool, lo: nat, hi: nat)
    requires a != b && a.Length == b.Length && lo <= hi <= a.Length
    modifies a, b
    ensures forall k :: 0 <= k < a.Length ==> a[k] == if !fromA && lo <= k < hi then old(b[k]) else old(a[k])
    ensures forall k :: 0 <= k < b.Length ==> b[k] == if fromA && lo <= k < hi then old(a[k]) else old(b[k])
  {
    var i := lo;
    while i < hi
      invariant lo <= i <= hi
      invariant forall k :: 0 <= k < a.Length ==> a[k] == if !fromA && lo <= k < i then old(b[k]) else old(a[k])
      invariant forall k :: 0 <= k < b.Length ==> b[k] == if fromA && lo <= k < i then old(a[k]) else old(b[k])
    {
      if fromA {
        b[i] := a[i];
      } else {
        a[i] := b[i];
      }
      i := i + 1;
    }
  }

  /** swap_ranges over the same indices of two buffers: the slots [lo, hi) are
      exchanged. */
  method SwapRanges<T>(a: array<T>, b: array<T>, lo: nat, hi: nat)
    requires a != b && a.Length == b.Length && lo <= hi <= a.Length
    modifies a, b
    ensures forall k :: 0 <= k < a.Length ==> a[k] == if lo <= k < hi then old(b[k]) else old(a[k])
    ensures forall k :: 0 <= k < b.Length ==> b[k] == if lo <= k < hi then old(a[k]) else old(b[k])
  {
    var i := lo;
    while i < hi
      invariant lo <= i <= hi
      invariant forall k :: 0 <= k < a.Length ==> a[k] == if lo <= k < i then old(b[k]) else old(a[k])
      invariant forall k :: 0 <= k < b.Length ==> b[k] == if lo <= k < i then old(a[k]) else old(b[k])
    {
      a[i], b[i] := b[i], a[i];
      i := i + 1;
    }
  }

  /** swap_small_small on the two small buffers, holding a = [af, ab) and
      b = [bf, bb): the elements without a partner slot in the other buffer are
      constructed there at the same indices, the front run and then the back run,
      each under a move guard; then the slots both hold are exchanged in place, and
      only then are both guards released. A construction that throws makes the
      guards destroy the copies made so far, which all lie outside the other
      devector's elements, so both keep their elements. `budget` is the number of
      constructions that succeed. */
  method SwapSmallBuffers<T>(a: array<T>, b: array<T>, af: nat, ab: nat, bf: nat, bb: nat, budget: nat)
    returns (ok: bool)
    requires a != b && a.Length == b.Length && af <= ab <= a.Length && bf <= bb <= b.Length
    modifies a, b
    ensures ok <==> SwapCopyCount(af, ab, bf, bb) <= budget
    ensures ok ==> a[bf..bb] == old(b[bf..bb]) && b[af..ab] == old(a[af..ab])
    ensures !ok ==> a[af..ab] == old(a[af..ab]) && b[bf..bb] == old(b[bf..bb])
  {
    var fr, br := SwapFrontRun(af, ab, bf, bb), SwapBackRun(af, ab, bf, bb);
    var ov := SwapOverlap(af, ab, bf, bb);
    ghost var a0, b0 := a[..], b[..];
    // copy_or_move_front, under the front guard
    if budget < fr.hi - fr.lo {
      CopyRun(a, b, fr.fromA, fr.lo, fr.lo + budget);
      SwapKeepsOwnSlots(a0, b0, a[..], b[..], af, ab, bf, bb, fr, fr.lo + budget);
      return false;
    }
    CopyRun(a, b, fr.fromA, fr.lo, fr.hi);
    ghost var a1, b1 := a[..], b[..];
    SwapKeepsOwnSlots(a0, b0, a1, b1, af, ab, bf, bb, fr, fr.hi);
    // copy_or_move_back, under the back guard
    var left := budget - (fr.hi - fr.lo);
    if left < br.hi - br.lo {
      CopyRun(a, b, br.fromA, br.lo, br.lo + left);
      SwapKeepsOwnSlots(a1, b1, a[..], b[..], af, ab, bf, bb, br, br.lo + left);
      return false;
    }
    CopyRun(a, b, br.fromA, br.lo, br.hi);
    ghost var a2, b2 := a[..], b[..];
    SwapRanges(a, b, ov.0, ov.1);
    // no more exceptions: both guards are released
    SwapPlanExchanges(a0, b0, a1, b1, a2, b2, a[..], b[..], af, ab, bf, bb);
    ok := true;
  }

  /** A partial or whole run copied between the buffers leaves every slot of
      both devectors' elements as it was. */
  lemma SwapKeepsOwnSlots<T>(a0: seq<T>, b0: seq<T>, a1: seq<T>, b1: seq<T>,
                             af: nat, ab: nat, bf: nat, bb: nat, r: Run, hi: nat)
    requires af <= ab <= |a0| && bf <= bb <= |b0| && |a0| == |b0| == |a1| == |b1|
    requires r == SwapFrontRun(af, ab, bf, bb) || r == SwapBackRun(af, ab, bf, bb)
    requires r.lo <= hi <= r.hi
    requires forall k :: 0 <= k < |a1| ==> a1[k] == if !r.fromA && r.lo <= k < hi then b0[k] else a0[k]
    requires forall k :: 0 <= k < |b1| ==> b1[k] == if r.fromA && r.lo <= k < hi then a0[k] else b0[k]
    ensures a1[af..ab] == a0[af..ab] && b1[bf..bb] == b0[bf..bb]
  {
    forall k | af <= k < ab ensures a1[k] == a0[k] {
      SwapSlotRoles(af, ab, bf, bb, k);
    }
    forall k | bf <= k < bb ensures b1[k] == b0[k] {
      SwapSlotRoles(af, ab, bf, bb, k);
    }
  }

  /** The two whole runs and the exchange of the common slots, in this order,
      give each buffer the other devector's elements at their indices. */
  lemma SwapPlanExchanges<T>(a0: seq<T>, b0: seq<T>, a1: seq<T>, b1: seq<T>, a2: seq<T>, b2: seq<T>,
                             a3: seq<T>, b3: seq<T>, af: nat, ab: nat, bf: nat, bb: nat)
    requires af <= ab <= |a0| && bf <= bb <= |b0|
    requires |a0| == |b0| == |a1| == |b1| == |a2| == |b2| == |a3| == |b3|
    requires var r := SwapFrontRun(af, ab, bf, bb);
      (forall k :: 0 <= k < |a1| ==> a1[k] == if !r.fromA && r.lo <= k < r.hi then b0[k] else a0[k]) &&
      (forall k :: 0 <= k < |b1| ==> b1[k] == if r.fromA && r.lo <= k < r.hi then a0[k] else b0[k])
    requires var r := SwapBackRun(af, ab, bf, bb);
      (forall k :: 0 <= k < |a2| ==> a2[k] == if !r.fromA && r.lo <= k < r.hi then b1[k] else a1[k]) &&
      (forall k :: 0 <= k < |b2| ==> b2[k] == if r.fromA && r.lo <= k < r.hi then a1[k] else b1[k])
    requires var ov := SwapOverlap(af, ab, bf, bb);
      (forall k :: 0 <= k < |a3| ==> a3[k] == if ov.0 <= k < ov.1 then b2[k] else a2[k]) &&
      (forall k :: 0 <= k < |b3| ==> b3[k] == if ov.0 <= k < ov.1 then a2[k] else b2[k])
    ensures a3[bf..bb] == b0[bf..bb] && b3[af..ab] == a0[af..ab]
  {
    forall k | bf <= k < bb ensures a3[k] == b0[k] {
      SwapSlotRoles(af, ab, bf, bb, k);
    }
    forall k | af <= k < ab ensures b3[k] == a0[k] {
      SwapSlotRoles(af, ab, bf, bb, k);
    }
  }

  class Devector<T(0)> {
    const smallBufferSize: nat
    /** The inline small buffer. */
    const small: array<T>
    var buffer: array<T>
    var front: nat
    var back: nat
    /** The number of heap allocations made so far (the statistics counter). */
    ghost var allocations: nat
    ghost var Repr: set<object>

    /** The source's invariants_ok: the indices are ordered within the capacity and
        the capacity never drops below the small buffer size. */
    predicate InvariantsOk()
      reads this
      ensures InvariantsOk() ==> FrontFree() + Size() + BackFree() == buffer.Length
    {
      front <= back <= buffer.Length && smallBufferSize <= buffer.Length
    }

    ghost predicate Valid()
      reads this, Repr
    {
      Repr == {this, small, buffer} &&
      InvariantsOk() &&
      small.Length == smallBufferSize &&
      buffer.Length <= SizeTypeMax &&
      (buffer == small <==> buffer.Length <= smallBufferSize)
    }

    /** The elements, front to back. */
    function Elements(): (s: seq<T>)
      requires Valid()
      reads Repr
      ensures |s| == Size()
    {
      buffer[front..back]
    }

    /** size(): the unsigned difference of the indices, which does not wrap
        while the front index does not pass the back index. */
    function Size(): (n: int)
      reads this
      ensures front <= back ==> 0 <= n <= back
    {
      back - front
    }

    /** empty(): true exactly when size() is zero. */
    predicate Empty()
      reads this
      ensures Empty() <==> Size() == 0
    {
      front == back
    }

    /** capacity(): every element lies within it while the indices are in order. */
    function Capacity(): (c: nat)
      reads this
      ensures front <= back <= buffer.Length ==> Size() <= c
    {
      buffer.Length
    }

    function MaxSize(): nat
    {
      SizeTypeMax
    }

    /** front_free_capacity(): the slots before the first element, which with
        the elements reach the back index. */
    function FrontFree(): (f: int)
      reads this
      ensures f + Size() == back
    {
      front
    }

    /** back_free_capacity(): the slots from the back index to the end of the
        capacity. */
    function BackFree(): (f: int)
      reads this
      ensures back + f == Capacity()
    {
      buffer.Length - back
    }

    /** The inline buffer is in use and is what the small buffer policy asked for. */
    predicate IsSmall()
      reads this
      ensures InvariantsOk() ==> (IsSmall() <==> 0 < smallBufferSize && Capacity() == smallBufferSize)
    {
      smallBufferSize > 0 && buffer.Length <= smallBufferSize
    }

    /** The capacity a reallocation making room for `k` more elements asks for. */
    function Grow(k: nat): CapacityResult
      reads this
      requires buffer.Length <= SizeTypeMax
    {
      CalculateNewCapacity(buffer.Length, buffer.Length + k, SizeTypeMax)
    }

    /** A default-constructed devector: empty, in the small buffer. */
    constructor Default(smallBufferSize: nat)
      requires smallBufferSize <= SizeTypeMax
      ensures this.smallBufferSize == smallBufferSize
      ensures Valid() && fresh(Repr) && Elements() == []
      ensures Capacity() == smallBufferSize && front == 0 && allocations == 0
    {
      this.smallBufferSize := smallBufferSize;
      var sb := new T[smallBufferSize];
      small := sb;
      buffer := sb;
      front, back := 0, 0;
      allocations := 0;
      Repr := {this, sb};
    }

    /** Reserves `frontCap` slots before and `backCap` slots after an empty range. */
    constructor Reserved(smallBufferSize: nat, frontCap: nat, backCap: nat)
      requires smallBufferSize <= SizeTypeMax && frontCap + backCap <= SizeTypeMax
      ensures this.smallBufferSize == smallBufferSize
      ensures Valid() && fresh(Repr) && Elements() == []
      ensures FrontFree() == frontCap && BackFree() >= backCap
      ensures Capacity() == (if frontCap + backCap < smallBufferSize then smallBufferSize else frontCap + backCap)
    {
      this.smallBufferSize := smallBufferSize;
      var sb := new T[smallBufferSize];
      small := sb;
      var capacity := if frontCap + backCap < smallBufferSize then smallBufferSize else frontCap + backCap;
      if capacity <= smallBufferSize {
        buffer := sb;
        allocations := 0;
      } else {
        buffer := new T[capacity];
        allocations := 1;
      }
      front, back := frontCap, frontCap;
      new;
      Repr := {this, small, buffer};
    }

    /** Copies of the elements of `r`, in a buffer of exactly |r| slots (or the small buffer). */
    constructor FromRange(smallBufferSize: nat, r: seq<T>)
      requires smallBufferSize <= SizeTypeMax && |r| <= SizeTypeMax
      ensures this.smallBufferSize == smallBufferSize
      ensures Valid() && fresh(Repr) && Elements() == r
      ensures front == 0 && Capacity() == (if |r| < smallBufferSize then smallBufferSize else |r|)
    {
      this.smallBufferSize := smallBufferSize;
      var sb := new T[smallBufferSize];
      small := sb;
      var capacity := if |r| < smallBufferSize then smallBufferSize else |r|;
      if capacity <= smallBufferSize {
        buffer := sb;
        allocations := 0;
      } else {
        buffer := new T[capacity];
        allocations := 1;
      }
      front, back := 0, |r|;
      new;
      WriteSeq(buffer, 0, r);
      Repr := {this, small, buffer};
    }

    /** `n` copies of `value`, fed through the constant iterator. */
    constructor Filled(smallBufferSize: nat, n: nat, value: T)
      requires smallBufferSize <= SizeTypeMax && n <= SizeTypeMax
      ensures this.smallBufferSize == smallBufferSize
      ensures Valid() && fresh(Repr) && Elements() == Repeat(value, n)
      ensures front == 0 && Capacity() == (if n < smallBufferSize then smallBufferSize else n)
    {
      var r := CopiesOf(value, n);
      this.smallBufferSize := smallBufferSize;
      var sb := new T[smallBufferSize];
      small := sb;
      var capacity := if n < smallBufferSize then smallBufferSize else n;
      if capacity <= smallBufferSize {
        buffer := sb;
        allocations := 0;
      } else {
        buffer := new T[capacity];
        allocations := 1;
      }
      front, back := 0, n;
      new;
      WriteSeq(buffer, 0, r);
      Repr := {this, small, buffer};
    }

    /** The move constructor: a heap buffer is taken over and `rhs` is left empty in
        its small buffer; elements in a small buffer are moved into this one's. */
    constructor Move(rhs: Devector<T>)
      requires rhs.Valid()
      modifies rhs
      ensures Valid() && rhs.Valid() && Elements() == old(rhs.Elements())
      ensures smallBufferSize == rhs.smallBufferSize
      ensures Capacity() == old(rhs.Capacity()) && front == old(rhs.front)
      ensures old(rhs.IsSmall()) ==> rhs.Elements() == old(rhs.Elements())
      ensures !old(rhs.IsSmall()) ==> rhs.Elements() == [] && rhs.Capacity() == rhs.smallBufferSize
      ensures fresh(Repr - old(rhs.Repr))
    {
      smallBufferSize := rhs.smallBufferSize;
      var sb := new T[rhs.smallBufferSize];
      small := sb;
      front, back := rhs.front, rhs.back;
      allocations := 0;
      if !rhs.IsSmall() {
        // an empty `rhs.small` stands for the null buffer of a devector without a
        // small buffer; each devector keeps its own
        buffer := if rhs.buffer == rhs.small then sb else rhs.buffer;
      } else {
        buffer := sb;
      }
      new;
      if !rhs.IsSmall() {
        rhs.buffer := rhs.small;
        rhs.front, rhs.back := 0, 0;
        rhs.Repr := {rhs, rhs.small};
      } else {
        CopyRange(rhs.buffer, rhs.front, rhs.back, buffer, front);
        assert buffer[front..back] == old(rhs.buffer[rhs.front..rhs.back]);
      }
      Repr := {this, small, buffer};
    }

    /** Element access without a check; the caller guarantees n < Size(). */
    function Get(n: nat): (v: T)
      requires Valid() && n < Size()
      reads Repr
      ensures v == Elements()[n]
    {
      buffer[front + n]
    }

    /** Checked element access. */
    function At(n: nat): (r: Access<T>)
      requires Valid()
      reads Repr
      ensures r.OutOfRange? <==> n >= |Elements()|
      ensures r.Value? ==> r.value == Elements()[n]
    {
      if Size() <= n then OutOfRange else Value(Get(n))
    }

    /** Moves the elements to a fresh heap buffer of `newCapacity` slots, starting at
        `newFront`, with `r` inserted before index `idx`: the common core of every
        reallocating path. */
    method Relocate(newCapacity: nat, newFront: nat, idx: nat, r: seq<T>)
      requires Valid()
      requires smallBufferSize < newCapacity <= SizeTypeMax
      requires idx <= Size() && newFront + Size() + |r| <= newCapacity
      modifies this
      ensures Valid() && fresh(buffer) && buffer.Length == newCapacity
      ensures front == newFront && Elements() == InsertAt(old(Elements()), idx, r)
      ensures allocations == old(allocations) + 1
    {
      var newBuffer := new T[newCapacity];
      RelocateInto(buffer, front, back, idx, r, newBuffer, newFront);
      var n := back - front;
      buffer := newBuffer;
      back := newFront + n + |r|;
      front := newFront;
      allocations := allocations + 1;
      Repr := {this, small, buffer};
    }

    /** emplace_back / push_back: constructs in place when there is back free
        capacity, otherwise reallocates keeping the front free capacity. */
    method PushBack(x: T, ctorThrows: bool) returns (st: Status)
      requires Valid()
      modifies Repr
      ensures Valid() && fresh(Repr - old(Repr))
      ensures st == LengthError <==> old(BackFree()) == 0 && old(Grow(1)).MaxSizeExceeded?
      ensures st == ElementError <==> ctorThrows && st != LengthError
      ensures st == Success ==> Elements() == old(Elements()) + [x]
      ensures st != Success ==> Elements() == old(Elements()) && buffer == old(buffer) && front == old(front)
      ensures old(BackFree()) > 0 ==> buffer == old(buffer) && allocations == old(allocations) && front == old(front)
      ensures st == Success && old(BackFree()) == 0 ==>
        Capacity() == old(Grow(1)).capacity && FrontFree() == old(FrontFree()) && allocations == old(allocations) + 1
    {
      if back < buffer.Length {
        if ctorThrows {
          return ElementError;
        }
        buffer[back] := x;
        back := back + 1;
        return Success;
      }
      st := EmplaceReallocating(false, back - front, x, ctorThrows);
    }

    /** emplace_front / push_front: constructs in place when there is front free
        capacity, otherwise reallocates keeping the back free capacity. */
    method PushFront(x: T, ctorThrows: bool) returns (st: Status)
      requires Valid()
      modifies Repr
      ensures Valid() && fresh(Repr - old(Repr))
      ensures st == LengthError <==> old(FrontFree()) == 0 && old(Grow(1)).MaxSizeExceeded?
      ensures st == ElementError <==> ctorThrows && st != LengthError
      ensures st == Success ==> Elements() == [x] + old(Elements())
      ensures st != Success ==> Elements() == old(Elements()) && buffer == old(buffer) && front == old(front)
      ensures old(FrontFree()) > 0 ==> buffer == old(buffer) && allocations == old(allocations) && back == old(back)
      ensures st == Success && old(FrontFree()) == 0 ==>
        Capacity() == old(Grow(1)).capacity && BackFree() == old(BackFree()) && allocations == old(allocations) + 1
    {
      if front > 0 {
        if ctorThrows {
          return ElementError;
        }
        buffer[front - 1] := x;
        front := front - 1;
        assert Elements() == [x] + old(Elements());
        return Success;
      }
      st := EmplaceReallocating(true, 0, x, ctorThrows);
    }

    /** emplace_reallocating_slow_path: grows to the policy's capacity, constructs
        the new element first, then moves the two halves around it. With
        `makeFrontFree` the back free capacity is kept, otherwise the front one. */
    method EmplaceReallocating(makeFrontFree: bool, idx: nat, x: T, ctorThrows: bool) returns (st: Status)
      requires Valid() && idx <= Size()
      modifies Repr
      ensures Valid() && fresh(Repr - old(Repr))
      ensures st == LengthError <==> old(Grow(1)).MaxSizeExceeded?
      ensures st == ElementError <==> ctorThrows && st != LengthError
      ensures st == Success ==> Elements() == InsertAt(old(Elements()), idx, [x])
      ensures st != Success ==> Elements() == old(Elements()) && buffer == old(buffer) && front == old(front)
      ensures st == Success ==> Capacity() == old(Grow(1)).capacity && allocations == old(allocations) + 1
      ensures st == Success && makeFrontFree ==> BackFree() == old(BackFree())
      ensures st == Success && !makeFrontFree ==> FrontFree() == old(FrontFree())
    {
      var c := CalculateNewCapacity(buffer.Length, buffer.Length + 1, SizeTypeMax);
      if c.MaxSizeExceeded? {
        return LengthError;
      }
      var newCapacity := c.capacity;
      if ctorThrows {
        return ElementError;
      }
      var newFront := if makeFrontFree then newCapacity - (buffer.Length - back) - (back - front) - 1 else front;
      Relocate(newCapacity, newFront, idx, [x]);
      st := Success;
    }

    /** pop_back: the last element is destroyed; nothing moves. */
    method PopBack()
      requires Valid() && !Empty()
      modifies this
      ensures Valid() && Repr == old(Repr) && buffer == old(buffer) && front == old(front)
      ensures allocations == old(allocations)
      ensures Elements() == old(Elements())[..old(Size()) - 1]
      ensures BackFree() == old(BackFree()) + 1
    {
      back := back - 1;
    }

    /** pop_front: the first element is destroyed; nothing moves. */
    method PopFront()
      requires Valid() && !Empty()
      modifies this
      ensures Valid() && Repr == old(Repr) && buffer == old(buffer) && back == old(back)
      ensures allocations == old(allocations)
      ensures Elements() == old(Elements())[1..]
      ensures FrontFree() == old(FrontFree()) + 1
    {
      front := front + 1;
    }

    /** reallocate_at: moves the elements to a fresh buffer of `newCapacity` slots,
        the first one to index `offset`. */
    method ReallocateAt(newCapacity: nat, offset: nat)
      requires Valid() && smallBufferSize < newCapacity <= SizeTypeMax && offset + Size() <= newCapacity
      modifies Repr
      ensures Valid() && fresh(Repr - old(Repr)) && Elements() == old(Elements())
      ensures Capacity() == newCapacity && front == offset && allocations == old(allocations) + 1
    {
      Relocate(newCapacity, offset, 0, []);
      assert InsertAt(old(Elements()), 0, []) == old(Elements());
    }

    /** reserve_front: afterwards `n` elements fit before the back index; the back
        free capacity is kept. A capacity past the maximum size is a length error. */
    method ReserveFront(n: nat) returns (st: Status)
      requires Valid() && n <= SizeTypeMax
      modifies Repr
      ensures Valid() && fresh(Repr - old(Repr)) && Elements() == old(Elements())
      ensures st != ElementError
      ensures st == LengthError <==> old(back) < n && n + old(BackFree()) > SizeTypeMax
      ensures st == Success ==> FrontFree() + Size() >= n && BackFree() == old(BackFree())
      ensures old(back) >= n || st == LengthError ==> buffer == old(buffer) && front == old(front)
      ensures st == Success && old(back) < n ==> Capacity() == n + old(BackFree()) && FrontFree() + Size() == n
      ensures allocations == old(allocations) + (if st == Success && old(back) < n then 1 else 0)
    {
      if back >= n {
        return Success;
      }
      if n + (buffer.Length - back) > SizeTypeMax {
        return LengthError;
      }
      ReallocateAt(n + (buffer.Length - back), n - (back - front));
      st := Success;
    }

    /** reserve_back: afterwards `n` elements fit after the front index; the front
        free capacity is kept. A capacity past the maximum size is a length error. */
    method ReserveBack(n: nat) returns (st: Status)
      requires Valid() && n <= SizeTypeMax
      modifies Repr
      ensures Valid() && fresh(Repr - old(Repr)) && Elements() == old(Elements())
      ensures st != ElementError
      ensures st == LengthError <==> old(Capacity()) - old(front) < n && n + old(FrontFree()) > SizeTypeMax
      ensures st == Success ==> Size() + BackFree() >= n && FrontFree() == old(FrontFree())
      ensures old(Capacity()) - old(front) >= n || st == LengthError ==> buffer == old(buffer) && front == old(front)
      ensures st == Success && old(Capacity()) - old(front) < n ==> Capacity() == n + old(FrontFree())
      ensures allocations == old(allocations) + (if st == Success && old(Capacity()) - old(front) < n then 1 else 0)
    {
      if buffer.Length - front >= n {
        return Success;
      }
      if n + front > SizeTypeMax {
        return LengthError;
      }
      ReallocateAt(n + front, front);
      st := Success;
    }

    /** shrink_to_fit under the default policy: contents that fit in the small buffer
        are moved there; otherwise nothing happens. */
    method ShrinkToFit()
      requires Valid()
      modifies Repr
      ensures Valid() && Repr <= old(Repr) && Elements() == old(Elements())
      ensures old(Size()) <= smallBufferSize ==> Capacity() == smallBufferSize && buffer == small
      ensures old(Size()) <= smallBufferSize && !old(IsSmall()) ==> front == 0 && back == old(Size())
      ensures old(IsSmall()) ==> front == old(front) && back == old(back)
      ensures old(Size()) > smallBufferSize ==> buffer == old(buffer) && front == old(front)
      ensures allocations == old(allocations)
    {
      if !ShouldShrink(back - front, buffer.Length, smallBufferSize) || IsSmall() {
        return;
      }
      // the default policy only shrinks contents that fit in the small buffer
      var n := back - front;
      CopyRange(buffer, front, back, small, 0);
      assert small[..n] == old(Elements());
      buffer := small;
      front, back := 0, n;
      Repr := {this, small, buffer};
    }

    /** emplace / insert of one element before index `pos`. Without reallocation
        when there is free capacity at either end: at an end it is constructed in
        place, inside the elements on the shorter side are shifted by one (towards
        the side that has room). */
    method Emplace(pos: nat, x: T, ctorThrows: bool) returns (st: Status, it: nat)
      requires Valid() && pos <= Size()
      modifies Repr
      ensures Valid() && fresh(Repr - old(Repr))
      ensures st == LengthError <==> old(FrontFree()) == 0 && old(BackFree()) == 0 && old(Grow(1)).MaxSizeExceeded?
      ensures st == ElementError <==> ctorThrows && st != LengthError
      ensures st == Success ==> Elements() == InsertAt(old(Elements()), pos, [x]) && it == pos
      ensures st != Success ==> Elements() == old(Elements()) && buffer == old(buffer) && front == old(front)
      ensures old(FrontFree()) + old(BackFree()) > 0 ==> buffer == old(buffer) && allocations == old(allocations)
    {
      if pos == back - front && back < buffer.Length {
        if ctorThrows {
          return ElementError, 0;
        }
        UnsafePushBack(x);
        InsertAtEnds(old(Elements()), [x]);
        return Success, pos;
      } else if pos == 0 && front > 0 {
        if ctorThrows {
          return ElementError, 0;
        }
        UnsafePushFront(x);
        InsertAtEnds(old(Elements()), [x]);
        return Success, 0;
      }
      st, it := EmplaceSlowPath(pos, x, ctorThrows);
    }

    /** emplace_slow_path: the new value is constructed first (a temporary), then
        the front part is shifted one to the left or the back part one to the right;
        with no free capacity at all the buffer is reallocated. */
    method EmplaceSlowPath(pos: nat, x: T, ctorThrows: bool) returns (st: Status, it: nat)
      requires Valid() && pos <= Size()
      requires pos == Size() ==> BackFree() == 0
      requires pos == 0 ==> FrontFree() == 0
      modifies Repr
      ensures Valid() && fresh(Repr - old(Repr))
      ensures st == LengthError <==> old(FrontFree()) == 0 && old(BackFree()) == 0 && old(Grow(1)).MaxSizeExceeded?
      ensures st == ElementError <==> ctorThrows && st != LengthError
      ensures st == Success ==> Elements() == InsertAt(old(Elements()), pos, [x]) && it == pos
      ensures st != Success ==> Elements() == old(Elements()) && buffer == old(buffer) && front == old(front)
      ensures old(FrontFree()) + old(BackFree()) > 0 ==> buffer == old(buffer) && allocations == old(allocations)
      ensures st == Success && old(FrontFree()) > 0 && (old(BackFree()) == 0 || 2 * pos <= old(Size())) ==>
        FrontFree() == old(FrontFree()) - 1
      ensures st == Success && old(FrontFree()) == 0 && old(BackFree()) > 0 ==> BackFree() == old(BackFree()) - 1
    {
      var preferMoveFront := 2 * pos <= back - front;
      if front > 0 && (back == buffer.Length || preferMoveFront) {
        if ctorThrows {
          return ElementError, 0;
        }
        var tmp := x;
        InsertByFrontShift(pos, tmp);
        return Success, pos;
      } else if back < buffer.Length {
        if ctorThrows {
          return ElementError, 0;
        }
        var tmp := x;
        InsertByBackShift(pos, tmp);
        return Success, pos;
      }
      st := EmplaceReallocating(preferMoveFront, pos, x, ctorThrows);
      it := pos;
    }

    /** The front part of the elements, up to index pos, moves one slot left into
        the front free capacity and x takes the slot freed. */
    method InsertByFrontShift(pos: nat, x: T)
      requires Valid() && FrontFree() > 0 && 0 < pos <= Size()
      modifies this, buffer
      ensures Valid() && Repr == old(Repr) && buffer == old(buffer) && back == old(back)
      ensures allocations == old(allocations)
      ensures Elements() == InsertAt(old(Elements()), pos, [x]) && FrontFree() == old(FrontFree()) - 1
    {
      ShiftFrontInsert(buffer, front, back, pos, x);
      front := front - 1;
    }

    /** The back part of the elements, from index pos on, moves one slot right
        into the back free capacity and x takes the slot freed. */
    method InsertByBackShift(pos: nat, x: T)
      requires Valid() && BackFree() > 0 && pos < Size()
      modifies this, buffer
      ensures Valid() && Repr == old(Repr) && buffer == old(buffer) && front == old(front)
      ensures allocations == old(allocations)
      ensures Elements() == InsertAt(old(Elements()), pos, [x]) && BackFree() == old(BackFree()) - 1
    {
      ShiftBackInsert(buffer, front, back, pos, x);
      back := back + 1;
    }

    /** unsafe_push_back: the caller guarantees back free capacity. */
    method UnsafePushBack(x: T)
      requires Valid() && BackFree() > 0
      modifies this, buffer
      ensures Valid() && Repr == old(Repr) && buffer == old(buffer) && front == old(front)
      ensures allocations == old(allocations)
      ensures Elements() == old(Elements()) + [x]
    {
      buffer[back] := x;
      back := back + 1;
    }

    /** unsafe_push_front: the caller guarantees front free capacity. */
    method UnsafePushFront(x: T)
      requires Valid() && FrontFree() > 0
      modifies this, buffer
      ensures Valid() && Repr == old(Repr) && buffer == old(buffer) && back == old(back)
      ensures allocations == old(allocations)
      ensures Elements() == [x] + old(Elements())
    {
      buffer[front - 1] := x;
      front := front - 1;
      assert Elements() == [x] + old(Elements());
    }

    /** Constructs the elements of r in the back free capacity: they follow the
        last element. */
    method ConstructBack(r: seq<T>)
      requires Valid() && |r| <= BackFree()
      modifies this, buffer
      ensures Valid() && Repr == old(Repr) && buffer == old(buffer) && front == old(front)
      ensures allocations == old(allocations)
      ensures Elements() == old(Elements()) + r
    {
      ghost var a0 := buffer[..];
      WriteSeq(buffer, back, r);
      OverwriteAppends(a0, front, back, r);
      back := back + |r|;
    }

    /** Constructs the elements of r in the front free capacity: they precede
        the first element. */
    method ConstructFront(r: seq<T>)
      requires Valid() && |r| <= FrontFree()
      modifies this, buffer
      ensures Valid() && Repr == old(Repr) && buffer == old(buffer) && back == old(back)
      ensures allocations == old(allocations)
      ensures Elements() == r + old(Elements())
    {
      ghost var a0 := buffer[..];
      WriteSeq(buffer, front - |r|, r);
      OverwritePrepends(a0, front, back, r);
      front := front - |r|;
    }

    /** The front part of a slow-path insertion: as many elements of `r` as fit in
        the front free capacity go in before index `pos`. */
    method InsertRangeNearFront(pos: nat, r: seq<T>) returns (inserted: nat)
      requires Valid() && pos <= Size()
      modifies this, buffer
      ensures Valid() && Repr == old(Repr) && buffer == old(buffer) && back == old(back)
      ensures allocations == old(allocations)
      ensures inserted == (if old(FrontFree()) < |r| then old(FrontFree()) else |r|)
      ensures Elements() == InsertAt(old(Elements()), pos, r[..inserted])
    {
      inserted := if front < |r| then front else |r|;
      NearFrontInsert(buffer, front, back, pos, r[..inserted]);
      front := front - inserted;
    }

    /** The back part of a slow-path insertion: as many elements of `r` as fit in
        the back free capacity go in before index `pos`. */
    method InsertRangeNearBack(pos: nat, r: seq<T>) returns (inserted: nat)
      requires Valid() && pos <= Size()
      modifies this, buffer
      ensures Valid() && Repr == old(Repr) && buffer == old(buffer) && front == old(front)
      ensures allocations == old(allocations)
      ensures inserted == (if old(BackFree()) < |r| then old(BackFree()) else |r|)
      ensures Elements() == InsertAt(old(Elements()), pos, r[..inserted])
    {
      inserted := if buffer.Length - back < |r| then buffer.Length - back else |r|;
      NearBackInsert(buffer, front, back, pos, r[..inserted]);
      back := back + inserted;
    }

    /** insert of a forward range before index `pos`. Without reallocation when the
        free capacity at both ends together suffices; otherwise the buffer grows and
        the new free space goes to the side of the shorter half. */
    method InsertRange(pos: nat, r: seq<T>) returns (st: Status, it: nat)
      requires Valid() && pos <= Size()
      modifies Repr
      ensures Valid() && fresh(Repr - old(Repr))
      ensures st != ElementError
      ensures st == LengthError <==> old(FrontFree()) + old(BackFree()) < |r| && old(Grow(|r|)).MaxSizeExceeded?
      ensures st == Success ==> Elements() == InsertAt(old(Elements()), pos, r) && it == pos
      ensures st == LengthError ==> Elements() == old(Elements()) && buffer == old(buffer) && front == old(front)
      ensures old(FrontFree()) + old(BackFree()) >= |r| ==> buffer == old(buffer) && allocations == old(allocations)
      ensures st == Success && old(FrontFree()) + old(BackFree()) < |r| ==>
        Capacity() == old(Grow(|r|)).capacity &&
        (if 2 * pos <= old(Size()) then BackFree() == old(BackFree()) else FrontFree() == old(FrontFree()))
    {
      var n := |r|;
      if pos == back - front && buffer.Length - back >= n {
        var i := 0;
        while i < n
          invariant i <= n && Valid() && Repr == old(Repr) && buffer == old(buffer) && front == old(front)
          invariant allocations == old(allocations)
          invariant Elements() == old(Elements()) + r[..i]
        {
          UnsafePushBack(r[i]);
          assert r[..i + 1] == r[..i] + [r[i]];
          i := i + 1;
        }
        assert r[..n] == r;
        return Success, back - front - n;
      } else if pos == 0 && front >= n {
        var inserted := InsertRangeNearFront(0, r);
        assert r[..inserted] == r;
        return Success, 0;
      }
      st, it := InsertRangeSlowPath(pos, r);
    }

    /** insert_range_slow_path and its reallocating branch. */
    method InsertRangeSlowPath(pos: nat, r: seq<T>) returns (st: Status, it: nat)
      requires Valid() && pos <= Size()
      modifies Repr
      ensures Valid() && fresh(Repr - old(Repr))
      ensures st != ElementError
      ensures st == LengthError <==> old(FrontFree()) + old(BackFree()) < |r| && old(Grow(|r|)).MaxSizeExceeded?
      ensures st == Success ==> Elements() == InsertAt(old(Elements()), pos, r) && it == pos
      ensures st == LengthError ==> Elements() == old(Elements()) && buffer == old(buffer) && front == old(front)
      ensures old(FrontFree()) + old(BackFree()) >= |r| ==> buffer == old(buffer) && allocations == old(allocations)
      ensures st == Success && old(FrontFree()) + old(BackFree()) < |r| ==>
        Capacity() == old(Grow(|r|)).capacity &&
        (if 2 * pos <= old(Size()) then BackFree() == old(BackFree()) else FrontFree() == old(FrontFree()))
    {
      var n := |r|;
      if front + (buffer.Length - back) >= n {
        ghost var s := Elements();
        var k := InsertRangeNearFront(pos, r);
        if n - k > 0 {
          var k2 := InsertRangeNearBack(pos + k, r[k..]);
          assert r[k..][..k2] == r[k..];
        } else {
          assert r[k..] == [] && r[..k] == r;
        }
        InsertInTwoParts(s, pos, r, k);
        return Success, pos;
      }
      var preferMoveFront := 2 * pos <= back - front;
      var c := CalculateNewCapacity(buffer.Length, buffer.Length + n, SizeTypeMax);
      if c.MaxSizeExceeded? {
        return LengthError, 0;
      }
      var newCapacity := c.capacity;
      var newFront := if preferMoveFront then newCapacity - (buffer.Length - back) - (back - front) - n else front;
      Relocate(newCapacity, newFront, pos, r);
      st, it := Success, pos;
    }

    /** insert(pos, n, x): `n` copies of `x`, fed through the constant iterator. */
    method InsertCopies(pos: nat, n: nat, x: T) returns (st: Status, it: nat)
      requires Valid() && pos <= Size()
      modifies Repr
      ensures Valid() && fresh(Repr - old(Repr))
      ensures st != ElementError
      ensures st == Success ==> Elements() == InsertAt(old(Elements()), pos, Repeat(x, n)) && it == pos
      ensures st == LengthError ==> Elements() == old(Elements()) && buffer == old(buffer)
      ensures old(FrontFree()) + old(BackFree()) >= n ==> st == Success && buffer == old(buffer)
    {
      var r := CopiesOf(x, n);
      st, it := InsertRange(pos, r);
    }

    /** erase of [first, last): the shorter side is moved over the gap, so the free
        capacity grows on that side; the returned index is that of the element
        that followed the erased range. */
    method Erase(first: nat, last: nat) returns (it: nat)
      requires Valid() && first <= last <= Size()
      modifies this, buffer
      ensures Valid() && Repr == old(Repr) && buffer == old(buffer)
      ensures Elements() == RemoveRange(old(Elements()), first, last) && it == first
      ensures last < old(Size()) - first ==> FrontFree() == old(FrontFree()) + (last - first) && back == old(back)
      ensures last >= old(Size()) - first ==> BackFree() == old(BackFree()) + (last - first) && front == old(front)
    {
      var n := last - first;
      if last < (back - front) - first {
        CloseGapFromFront(buffer, front, back, first, last);
        front := front + n;
      } else {
        CloseGapFromBack(buffer, front, back, first, last);
        back := back - n;
      }
      it := first;
    }

    /** erase of the single element at `pos`. */
    method EraseAt(pos: nat) returns (it: nat)
      requires Valid() && pos < Size()
      modifies this, buffer
      ensures Valid() && Repr == old(Repr) && buffer == old(buffer)
      ensures Elements() == old(Elements())[..pos] + old(Elements())[pos + 1..] && it == pos
    {
      it := Erase(pos, pos + 1);
    }

    /** clear: every element is destroyed, the buffer is kept. */
    method Clear()
      requires Valid()
      modifies this
      ensures Valid() && Repr == old(Repr) && buffer == old(buffer)
      ensures Elements() == [] && FrontFree() == 0 && BackFree() == Capacity()
    {
      front, back := 0, 0;
    }

    /** resize_back / resize: grows by copies of `v` after the last element, in
        place when the back capacity suffices and otherwise in a buffer that keeps
        the front free capacity; shrinks by popping from the back. `budget` is how
        many copies can be constructed before one throws; a failure leaves the
        devector unchanged. */
    method ResizeBack(sz: nat, v: T, budget: nat) returns (st: Status)
      requires Valid() && sz <= SizeTypeMax
      modifies Repr
      ensures Valid() && fresh(Repr - old(Repr))
      ensures st == LengthError <==> (sz > old(Capacity()) - old(front) &&
        CalculateNewCapacity(old(Capacity()), sz + old(FrontFree()), SizeTypeMax).MaxSizeExceeded?)
      ensures st == ElementError <==> st != LengthError && sz > old(Size()) && budget < sz - old(Size())
      ensures st != Success ==> Elements() == old(Elements()) && buffer == old(buffer) && front == old(front)
      ensures st == Success && sz <= old(Size()) ==> Elements() == old(Elements())[..sz]
      ensures st == Success && sz > old(Size()) ==> Elements() == old(Elements()) + Repeat(v, sz - old(Size()))
      ensures st == Success ==> FrontFree() == old(FrontFree())
      ensures sz <= old(Capacity()) - old(front) ==> buffer == old(buffer) && allocations == old(allocations)
    {
      var size := back - front;
      if sz > size {
        var n := sz - size;
        if sz <= buffer.Length - front {
          if budget < n {
            return ElementError;
          }
          ConstructBack(Repeat(v, n));
          return Success;
        }
        var c := CalculateNewCapacity(buffer.Length, sz + front, SizeTypeMax);
        if c.MaxSizeExceeded? {
          return LengthError;
        }
        if budget < n {
          return ElementError;
        }
        Relocate(c.capacity, front, size, Repeat(v, n));
        return Success;
      }
      while back - front > sz
        invariant Valid() && Repr == old(Repr) && buffer == old(buffer) && front == old(front)
        invariant allocations == old(allocations)
        invariant sz <= Size() && Elements() == old(Elements())[..Size()]
        decreases back - front
      {
        PopBack();
      }
      return Success;
    }

    /** resize_front: grows by copies of `v` before the first element, in place when
        the front capacity suffices and otherwise into a buffer whose elements end
        at its last slot; shrinks by popping from the front. */
    method ResizeFront(sz: nat, v: T, budget: nat) returns (st: Status)
      requires Valid() && sz <= SizeTypeMax
      modifies Repr
      ensures Valid() && fresh(Repr - old(Repr))
      ensures st == LengthError <==> (sz > old(back) &&
        CalculateNewCapacity(old(Capacity()), sz + old(BackFree()), SizeTypeMax).MaxSizeExceeded?)
      ensures st == ElementError <==> st != LengthError && sz > old(Size()) && budget < sz - old(Size())
      ensures st != Success ==> Elements() == old(Elements()) && buffer == old(buffer) && front == old(front)
      ensures st == Success && sz <= old(Size()) ==> Elements() == old(Elements())[old(Size()) - sz..]
      ensures st == Success && sz > old(Size()) ==> Elements() == Repeat(v, sz - old(Size())) + old(Elements())
      ensures st == Success && sz <= old(back) ==> BackFree() == old(BackFree())
      ensures st == Success && sz > old(back) ==> BackFree() == 0
      ensures sz <= old(back) ==> buffer == old(buffer) && allocations == old(allocations)
    {
      var size := back - front;
      if sz > size {
        var n := sz - size;
        if sz <= back {
          if budget < n {
            return ElementError;
          }
          ConstructFront(Repeat(v, n));
          return Success;
        }
        var c := CalculateNewCapacity(buffer.Length, sz + (buffer.Length - back), SizeTypeMax);
        if c.MaxSizeExceeded? {
          return LengthError;
        }
        if budget < n {
          return ElementError;
        }
        var newOldElemIndex := c.capacity - size;
        Relocate(c.capacity, newOldElemIndex - n, 0, Repeat(v, n));
        return Success;
      }
      while back - front > sz
        invariant Valid() && Repr == old(Repr) && buffer == old(buffer) && back == old(back)
        invariant allocations == old(allocations)
        invariant sz <= Size() <= old(Size()) && Elements() == old(Elements())[old(Size()) - Size()..]
        decreases back - front
      {
        PopFront();
      }
      return Success;
    }

    /** overwrite_buffer: the new contents are written from the start of the
        current buffer, whose capacity suffices. */
    method OverwriteBuffer(r: seq<T>)
      requires Valid() && |r| <= Capacity()
      modifies this, buffer
      ensures Valid() && Repr == old(Repr) && buffer == old(buffer) && allocations == old(allocations)
      ensures Elements() == r && front == 0
    {
      WriteSeq(buffer, 0, r);
      front, back := 0, |r|;
    }

    /** allocate_and_copy_range: the new contents go into a fresh buffer of exactly
        their size, which is larger than the current capacity. */
    method AllocateAndCopyRange(r: seq<T>)
      requires Valid() && Capacity() < |r| <= SizeTypeMax
      modifies this
      ensures Valid() && fresh(buffer) && Repr == {this, small, buffer}
      ensures Elements() == r && front == 0 && Capacity() == |r| && allocations == old(allocations) + 1
    {
      var newBuffer := new T[|r|];
      WriteSeq(newBuffer, 0, r);
      buffer := newBuffer;
      front, back := 0, |r|;
      allocations := allocations + 1;
      Repr := {this, small, buffer};
    }

    /** assign from a forward range: the buffer is reused when its capacity
        suffices, otherwise replaced by one of exactly the range's size. */
    method Assign(r: seq<T>)
      requires Valid() && |r| <= SizeTypeMax
      modifies Repr
      ensures Valid() && fresh(Repr - old(Repr))
      ensures Elements() == r && front == 0
      ensures |r| <= old(Capacity()) ==> buffer == old(buffer) && allocations == old(allocations)
      ensures |r| > old(Capacity()) ==> Capacity() == |r| && allocations == old(allocations) + 1
    {
      if buffer.Length >= |r| {
        OverwriteBuffer(r);
      } else {
        AllocateAndCopyRange(r);
      }
    }

    /** assign(n, u): `n` copies of `u`, fed through the constant iterator. */
    method AssignCopies(n: nat, u: T)
      requires Valid() && n <= SizeTypeMax
      modifies Repr
      ensures Valid() && fresh(Repr - old(Repr))
      ensures Elements() == Repeat(u, n) && front == 0
      ensures n <= old(Capacity()) ==> buffer == old(buffer)
    {
      var r := CopiesOf(u, n);
      Assign(r);
    }

    /** Copy assignment: self-assignment does nothing; otherwise the contents of `x`
        are assigned as a range. */
    method CopyAssign(x: Devector<T>)
      requires Valid() && x.Valid()
      requires x == this || Repr !! x.Repr
      modifies Repr
      ensures Valid() && fresh(Repr - old(Repr))
      ensures Elements() == old(x.Elements())
      ensures x != this ==> x.Elements() == old(x.Elements())
      ensures old(x.Size()) <= old(Capacity()) ==> buffer == old(buffer)
    {
      if x == this {
        return;
      }
      var r := x.buffer[x.front..x.back];
      Assign(r);
    }

    /** Move assignment, with the moved-from devector reset to its own small
        buffer: a heap buffer of `x` is taken over, small contents are copied. */
    method MoveAssign(x: Devector<T>)
      requires Valid() && x.Valid() && x != this && x.smallBufferSize == smallBufferSize
      requires Repr !! x.Repr
      modifies Repr, x
      ensures Valid() && x.Valid() && Repr !! x.Repr
      ensures Repr + x.Repr <= old(Repr + x.Repr) + (Repr - old(Repr))
      ensures Elements() == old(x.Elements())
      ensures !old(x.IsSmall()) ==> (Capacity() == old(x.Capacity()) && front == old(x.front) &&
        x.Elements() == [] && x.buffer == x.small)
      ensures old(x.Capacity()) > smallBufferSize ==> buffer == old(x.buffer)
      ensures old(x.IsSmall()) ==> x.Elements() == old(x.Elements()) && x.buffer == old(x.buffer)
    {
      if !x.IsSmall() {
        buffer := if x.buffer == x.small then small else x.buffer;
        front, back := x.front, x.back;
        Repr := {this, small, buffer};
        x.buffer := x.small;
        x.front, x.back := 0, 0;
        x.Repr := {x, x.small};
      } else {
        var r := x.buffer[x.front..x.back];
        Assign(r);
      }
    }

    /** Move assignment as written: the moved-from devector's buffer is reset to
        the small buffer of the assigned-to devector instead of its own. */
    method MoveAssignAsWritten(x: Devector<T>)
      requires Valid() && x.Valid() && x != this && x.smallBufferSize == smallBufferSize
      requires Repr !! x.Repr && !x.IsSmall()
      modifies this, x
      ensures Valid() && Elements() == old(x.Elements()) && Capacity() == old(x.Capacity())
      ensures Repr <= old(Repr) + old(x.Repr)
      ensures x.buffer == small && x.front == 0 && x.back == 0
    {
      buffer := if x.buffer == x.small then small else x.buffer;
      front, back := x.front, x.back;
      Repr := {this, small, buffer};
      x.buffer := small;
      x.front, x.back := 0, 0;
    }

    /** swap_small_big, `this` in its small buffer and `other` on the heap: the
        small contents are constructed in the other's small buffer at the same
        indices, under a construction guard, and the heap buffer changes hands;
        then the indices are exchanged. A throw destroys the copies made so far
        and leaves both devectors as they were. */
    method SwapSmallBig(other: Devector<T>, budget: nat) returns (ok: bool)
      requires Valid() && other.Valid() && other.smallBufferSize == smallBufferSize
      requires Repr !! other.Repr && IsSmall() && !other.IsSmall()
      modifies this, other, other.small
      ensures Valid() && other.Valid() && Repr !! other.Repr
      ensures Repr + other.Repr == old(Repr + other.Repr)
      ensures ok <==> old(Size()) <= budget
      ensures ok ==> Elements() == old(other.Elements()) && other.Elements() == old(Elements())
      ensures ok ==> Capacity() == old(other.Capacity()) && other.Capacity() == old(Capacity())
      ensures ok ==> front == old(other.front) && other.front == old(front)
      ensures !ok ==> Elements() == old(Elements()) && other.Elements() == old(other.Elements())
      ensures !ok ==> buffer == old(buffer) && other.buffer == old(other.buffer)
      ensures !ok ==> front == old(front) && other.front == old(other.front)
    {
      var mine := buffer[front..back];
      if budget < |mine| {
        WriteSeq(other.small, front, mine[..budget]);
        return false;
      }
      WriteSeq(other.small, front, mine);
      buffer, other.buffer := other.buffer, other.small;
      front, other.front := other.front, front;
      back, other.back := other.back, back;
      Repr := {this, small, buffer};
      other.Repr := {other, other.small, other.buffer};
      ok := true;
    }

    /** swap_small_small followed by the exchange of the indices. */
    method SwapSmallSmall(other: Devector<T>, budget: nat) returns (ok: bool)
      requires Valid() && other.Valid() && other.smallBufferSize == smallBufferSize
      requires Repr !! other.Repr && IsSmall() && other.IsSmall()
      modifies this, other, small, other.small
      ensures Valid() && other.Valid() && Repr == old(Repr) && other.Repr == old(other.Repr)
      ensures ok <==> old(SwapCopyCount(front, back, other.front, other.back)) <= budget
      ensures ok ==> Elements() == old(other.Elements()) && other.Elements() == old(Elements())
      ensures ok ==> front == old(other.front) && other.front == old(front)
      ensures !ok ==> Elements() == old(Elements()) && other.Elements() == old(other.Elements())
      ensures !ok ==> front == old(front) && other.front == old(other.front)
    {
      ok := SwapSmallBuffers(small, other.small, front, back, other.front, other.back, budget);
      if ok {
        front, other.front := other.front, front;
        back, other.back := other.back, back;
      }
    }

    /** swap_big_big, followed by the index exchange: two devectors that do not
        use their small buffers exchange their buffers by pointer, so no element
        is constructed. A zero-size small buffer in use stays with its owner. */
    method SwapBigBig(other: Devector<T>)
      requires Valid() && other.Valid() && other != this && other.smallBufferSize == smallBufferSize
      requires Repr !! other.Repr && !IsSmall() && !other.IsSmall()
      modifies this, other
      ensures Valid() && other.Valid() && Repr !! other.Repr
      ensures Repr + other.Repr == old(Repr + other.Repr)
      ensures Elements() == old(other.Elements()) && other.Elements() == old(Elements())
      ensures Capacity() == old(other.Capacity()) && other.Capacity() == old(Capacity())
      ensures front == old(other.front) && other.front == old(front)
    {
      var b1 := if buffer == small then other.small else buffer;
      var b2 := if other.buffer == other.small then small else other.buffer;
      buffer, other.buffer := b2, b1;
      front, other.front := other.front, front;
      back, other.back := other.back, back;
      Repr := {this, small, buffer};
      other.Repr := {other, other.small, other.buffer};
    }

    /** The element constructions swap performs: the elements without a partner
        slot when both devectors are small, the small one's elements when one is,
        none otherwise. */
    function SwapConstructions(other: Devector<T>): nat
      reads this, other
      requires front <= back && other.front <= other.back
    {
      if IsSmall() && other.IsSmall() then SwapCopyCount(front, back, other.front, other.back)
      else if IsSmall() then back - front
      else if other.IsSmall() then other.back - other.front
      else 0
    }

    /** swap: the contents, indices and capacities are exchanged. Two small
        devectors go through swap_small_small; with one small devector,
        swap_small_big moves its contents to the other's small buffer and hands
        over the heap buffer; two heap buffers are exchanged by pointer. `budget`
        is the number of element constructions that succeed; when one throws,
        both devectors keep their elements, buffers and indices. Swapping a
        devector with itself goes through swap_small_small or swap_big_big with
        equal indices, which construct nothing and leave every slot as it was, so
        it returns at once. */
    method Swap(other: Devector<T>, budget: nat) returns (ok: bool)
      requires Valid() && other.Valid() && other.smallBufferSize == smallBufferSize
      requires other == this || Repr !! other.Repr
      modifies Repr, other.Repr
      ensures Valid() && other.Valid() && (other == this || Repr !! other.Repr)
      ensures Repr + other.Repr == old(Repr + other.Repr)
      ensures ok <==> old(SwapConstructions(other)) <= budget
      ensures ok ==> Elements() == old(other.Elements()) && other.Elements() == old(Elements())
      ensures ok ==> Capacity() == old(other.Capacity()) && other.Capacity() == old(Capacity())
      ensures ok ==> front == old(other.front) && other.front == old(front)
      ensures !ok ==> Elements() == old(Elements()) && other.Elements() == old(other.Elements())
      ensures !ok ==> buffer == old(buffer) && other.buffer == old(other.buffer)
      ensures !ok ==> front == old(front) && other.front == old(other.front)
    {
      if other == this {
        return true;
      }
      var thisSmall, otherSmall := IsSmall(), other.IsSmall();
      if thisSmall && otherSmall {
        ok := SwapSmallSmall(other, budget);
      } else if thisSmall {
        ok := SwapSmallBig(other, budget);
      } else if otherSmall {
        ok := other.SwapSmallBig(this, budget);
      } else {
        SwapBigBig(other);
        ok := true;
      }
    }
  }
}
