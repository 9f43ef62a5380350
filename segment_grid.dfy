/** The storage of a batch deque seen as values: the segments in map order form a
    grid of rows of S slots each, and laid end to end they form one sequence in
    which the slot at (seg, idx) sits at seg * S + idx. */
module SegmentGrid {

  /** Every row holds S slots. */
  ghost predicate Uniform<T>(g: seq<seq<T>>, S: nat)
  {
    forall j :: 0 <= j < |g| ==> |g[j]| == S
  }

  /** The rows laid end to end. */
  function Flat<T>(g: seq<seq<T>>): seq<T>
  {
    if g == [] then [] else Flat(g[..|g| - 1]) + g[|g| - 1]
  }

  /** Laying out two parts of a grid one after the other. */
  lemma {:induction false} FlatConcat<T>(g1: seq<seq<T>>, g2: seq<seq<T>>)
    ensures Flat(g1 + g2) == Flat(g1) + Flat(g2)
    decreases |g2|
  {
    if g2 == [] {
      assert g1 + g2 == g1;
    } else {
      var n := |g2|;
      assert (g1 + g2)[..|g1 + g2| - 1] == g1 + g2[..n - 1];
      FlatConcat(g1, g2[..n - 1]);
    }
  }

  /** A uniform grid lays out to |g| * S slots. */
  lemma {:induction false} FlatLength<T>(g: seq<seq<T>>, S: nat)
    requires Uniform(g, S)
    ensures |Flat(g)| == |g| * S
  {
    if g != [] {
      FlatLength(g[..|g| - 1], S);
      assert |g| * S == (|g| - 1) * S + S;
    }
  }

  /** Cutting the layout at a row boundary cuts the grid there. */
  lemma {:induction false} FlatSplit<T>(g: seq<seq<T>>, S: nat, k: nat)
    requires Uniform(g, S) && k <= |g|
    ensures |Flat(g[..k])| == k * S
    ensures Flat(g) == Flat(g[..k]) + Flat(g[k..])
    ensures Flat(g)[..k * S] == Flat(g[..k]) && Flat(g)[k * S..] == Flat(g[k..])
  {
    assert g == g[..k] + g[k..];
    FlatConcat(g[..k], g[k..]);
    FlatLength(g[..k], S);
  }

  /** The rows lo up to hi lay out to the slots lo * S up to hi * S. */
  lemma {:induction false} FlatSlice<T>(g: seq<seq<T>>, S: nat, lo: nat, hi: nat)
    requires Uniform(g, S) && lo <= hi <= |g|
    ensures |Flat(g)| == |g| * S && lo * S <= hi * S <= |g| * S
    ensures Flat(g[lo..hi]) == Flat(g)[lo * S..hi * S]
  {
    FlatSplit(g, S, hi);
    FlatSplit(g[..hi], S, lo);
    assert g[..hi][lo..] == g[lo..hi];
    FlatLength(g, S);
    assert |g| * S == hi * S + (|g| - hi) * S;
  }

  /** The slot (seg, idx) sits at seg * S + idx of the layout. */
  lemma {:induction false} FlatIndex<T>(g: seq<seq<T>>, S: nat, seg: nat, idx: nat)
    requires Uniform(g, S) && seg < |g| && idx < S
    ensures |Flat(g)| == |g| * S && seg * S + idx < |g| * S
    ensures Flat(g)[seg * S + idx] == g[seg][idx]
  {
    FlatLength(g, S);
    FlatSplit(g, S, seg);
    assert g[seg..] == [g[seg]] + g[seg + 1..];
    FlatConcat([g[seg]], g[seg + 1..]);
    assert Flat([g[seg]]) == g[seg] by {
      assert [g[seg]][..0] == [];
    }
    assert (seg + 1) * S <= |g| * S by {
      assert |g| * S == (seg + 1) * S + (|g| - seg - 1) * S;
    }
  }

  /** The layout of a grid is the layout before row seg, that row, and the layout after it. */
  lemma {:induction false} FlatAround<T>(g: seq<seq<T>>, seg: nat)
    requires seg < |g|
    ensures Flat(g) == Flat(g[..seg]) + g[seg] + Flat(g[seg + 1..])
  {
    var a, m, b := g[..seg], [g[seg]], g[seg + 1..];
    assert g == a + (m + b);
    FlatConcat(a, m + b);
    FlatConcat(m, b);
    assert Flat(m) == g[seg] by { assert m[..0] == []; }
  }

  /** The slots a up to b of row seg sit at seg * S + a up to seg * S + b of the
      layout. */
  lemma {:induction false} FlatRun<T>(g: seq<seq<T>>, S: nat, seg: nat, a: nat, b: nat)
    requires Uniform(g, S) && seg < |g| && a <= b <= S
    ensures |Flat(g)| == |g| * S && seg * S + b <= |g| * S
    ensures Flat(g)[seg * S + a..seg * S + b] == g[seg][a..b]
  {
    FlatAround(g, seg);
    FlatSplit(g, S, seg);
    FlatLength(g, S);
    assert (seg + 1) * S <= |g| * S by {
      assert |g| * S == (seg + 1) * S + (|g| - seg - 1) * S;
    }
  }

  /** Laying out a grid whose row seg is replaced: the slots of that row are replaced. */
  lemma {:induction false} FlatRow<T>(g: seq<seq<T>>, S: nat, seg: nat, row: seq<T>)
    requires Uniform(g, S) && seg < |g| && |row| == S
    ensures |Flat(g)| == |g| * S && seg * S + S <= |g| * S
    ensures Flat(g[seg := row]) == Flat(g)[..seg * S] + row + Flat(g)[seg * S + S..]
  {
    var h := g[seg := row];
    FlatAround(g, seg);
    FlatAround(h, seg);
    assert h[..seg] == g[..seg] && h[seg + 1..] == g[seg + 1..];
    var left, right := Flat(g[..seg]), Flat(g[seg + 1..]);
    FlatSplit(g, S, seg);
    FlatLength(g, S);
    assert |Flat(g)| == |left| + S + |right|;
    assert Flat(g)[..|left|] == left;
    assert Flat(g)[|left| + S..] == right;
  }

  /** Writing one slot of the grid writes one element of the layout. */
  lemma {:induction false} FlatUpdate<T>(g: seq<seq<T>>, S: nat, seg: nat, idx: nat, x: T)
    requires Uniform(g, S) && seg < |g| && idx < S
    ensures seg * S + idx < |Flat(g)|
    ensures Flat(g[seg := g[seg][idx := x]]) == Flat(g)[seg * S + idx := x]
  {
    FlatRow(g, S, seg, g[seg][idx := x]);
    FlatRow(g, S, seg, g[seg]);
    assert g[seg := g[seg]] == g;
  }

  /** A grid of one row lays out to that row. */
  lemma {:induction false} FlatSingle<T>(row: seq<T>)
    ensures Flat([row]) == row
  {
    assert [row][..0] == [];
  }
}
