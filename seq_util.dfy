/** Sequence vocabulary shared by the containers' specifications. */
module SeqUtil {

  /** `s` with the run starting at `at` overwritten by `r`. */
  function Overwrite<T>(s: seq<T>, at: nat, r: seq<T>): (o: seq<T>)
    requires at + |r| <= |s|
    ensures |o| == |s|
    ensures forall i :: 0 <= i < |s| ==> o[i] == (if at <= i < at + |r| then r[i - at] else s[i])
  {
    s[..at] + r + s[at + |r|..]
  }

  /** Read from `at` on, an overwritten sequence holds the new run and then the
      old contents. */
  lemma OverwriteFrom<T>(s: seq<T>, at: nat, r: seq<T>, hi: nat)
    requires at + |r| <= hi <= |s|
    ensures Overwrite(s, at, r)[at..hi] == r + s[at + |r|..hi]
  {
    assert Overwrite(s, at, r)[at..hi] == (s[..at] + r + s[at + |r|..])[at..hi];
    assert (s[..at] + r + s[at + |r|..])[at..hi] == r + s[at + |r|..hi];
  }

  /** Overwriting leaves the runs before and after the new one as they were. */
  lemma OverwriteOutside<T>(s: seq<T>, at: nat, r: seq<T>, lo: nat, hi: nat)
    requires at + |r| <= |s| && lo <= hi <= |s| && (hi <= at || at + |r| <= lo)
    ensures Overwrite(s, at, r)[lo..hi] == s[lo..hi]
  {
    assert forall i :: lo <= i < hi ==> Overwrite(s, at, r)[i] == s[i];
  }

  /** Writing r just after the run s[f..b] extends the run by r. */
  lemma OverwriteAppends<T>(s: seq<T>, f: nat, b: nat, r: seq<T>)
    requires f <= b && b + |r| <= |s|
    ensures Overwrite(s, b, r)[f..b + |r|] == s[f..b] + r
  {
    OverwriteOutside(s, b, r, f, b);
    OverwriteFrom(s, b, r, b + |r|);
    assert Overwrite(s, b, r)[f..b + |r|] == Overwrite(s, b, r)[f..b] + Overwrite(s, b, r)[b..b + |r|];
  }

  /** Writing r just before the run s[f..b] extends the run by r at its front. */
  lemma OverwritePrepends<T>(s: seq<T>, f: nat, b: nat, r: seq<T>)
    requires |r| <= f <= b <= |s|
    ensures Overwrite(s, f - |r|, r)[f - |r|..b] == r + s[f..b]
  {
    OverwriteFrom(s, f - |r|, r, b);
  }

  /** `n` copies of `v`. */
  function Repeat<T>(v: T, n: nat): (r: seq<T>)
    ensures |r| == n
    ensures forall i :: 0 <= i < n ==> r[i] == v
  {
    seq(n, _ => v)
  }

  /** `s` back to front: what a run of push_front calls builds from it. */
  function Reversed<T>(s: seq<T>): (r: seq<T>)
    ensures |r| == |s|
    ensures forall i :: 0 <= i < |s| ==> r[i] == s[|s| - 1 - i]
  {
    if s == [] then [] else Reversed(s[1..]) + [s[0]]
  }

  /** What `std::rotate(first, middle, last)` leaves in [first, last). */
  function Rotate<T>(s: seq<T>, middle: nat): (r: seq<T>)
    requires middle <= |s|
    ensures |r| == |s|
    ensures forall i :: 0 <= i < |s| - middle ==> r[i] == s[middle + i]
    ensures forall i :: |s| - middle <= i < |s| ==> r[i] == s[i - (|s| - middle)]
  {
    assert s == s[..middle] + s[middle..];
    s[middle..] + s[..middle]
  }

  /** `s` with `r` inserted before position `at`. */
  function InsertAt<T>(s: seq<T>, at: nat, r: seq<T>): (o: seq<T>)
    requires at <= |s|
    ensures |o| == |s| + |r|
    ensures o[..at] == s[..at] && o[at..at + |r|] == r && o[at + |r|..] == s[at..]
  {
    assert s == s[..at] + s[at..];
    s[..at] + r + s[at..]
  }

  /** Inserting at either end is appending or prepending. */
  lemma InsertAtEnds<T>(e: seq<T>, r: seq<T>)
    ensures InsertAt(e, |e|, r) == e + r && InsertAt(e, 0, r) == r + e
  {
    assert e[..|e|] == e && e[|e|..] == [] && e[..0] == [] && e[0..] == e;
  }

  /** `s` without the run [first, last). */
  function RemoveRange<T>(s: seq<T>, first: nat, last: nat): (o: seq<T>)
    requires first <= last <= |s|
    ensures |o| == |s| - (last - first)
    ensures o[..first] == s[..first] && o[first..] == s[last..]
  {
    s[..first] + s[last..]
  }

  /** Rotation and insertion only rearrange: no element is lost or duplicated. */
  lemma PermutationFacts<T>(s: seq<T>, middle: nat, at: nat, r: seq<T>)
    requires middle <= |s| && at <= |s|
    ensures multiset(Rotate(s, middle)) == multiset(s)
    ensures multiset(InsertAt(s, at, r)) == multiset(s) + multiset(r)
  {
    assert s == s[..middle] + s[middle..];
    assert s == s[..at] + s[at..];
  }

  lemma {:induction false} InsertRemoveRoundTrip<T>(s: seq<T>, at: nat, r: seq<T>)
    requires at <= |s|
    ensures RemoveRange(InsertAt(s, at, r), at, at + |r|) == s
  {
    var o := InsertAt(s, at, r);
    assert o[..at] + o[at + |r|..] == s[..at] + s[at..];
    assert s[..at] + s[at..] == s;
  }
}
