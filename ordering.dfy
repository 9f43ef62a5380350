/** The comparison operators both containers define on their element sequences:
    `==` is a size check followed by an element-wise comparison, `<` is the
    lexicographical comparison under the element type's `<`, and `!=`, `>`, `>=`,
    `<=` are derived from these two. */
module Ordering {

  /** `lt` is a strict total order on `T`. */
  ghost predicate StrictTotalOrder<T(!new)>(lt: (T, T) -> bool)
  {
    (forall a :: !lt(a, a)) &&
    (forall a, b, c :: lt(a, b) && lt(b, c) ==> lt(a, c)) &&
    (forall a, b :: a != b ==> lt(a, b) || lt(b, a))
  }

  /** Size check, then element-wise comparison. */
  predicate Equal<T(==)>(x: seq<T>, y: seq<T>)
    ensures Equal(x, y) <==> x == y
  {
    |x| == |y| && forall i :: 0 <= i < |x| ==> x[i] == y[i]
  }

  predicate NotEqual<T(==)>(x: seq<T>, y: seq<T>)
    ensures NotEqual(x, y) <==> x != y
  {
    !Equal(x, y)
  }

  /** Lexicographical comparison: the first mismatching element decides, and a proper
      prefix is smaller. */
  predicate LexLess<T>(x: seq<T>, y: seq<T>, lt: (T, T) -> bool)
    decreases |x|
  {
    if |y| == 0 then false
    else if |x| == 0 then true
    else if lt(x[0], y[0]) then true
    else if lt(y[0], x[0]) then false
    else LexLess(x[1..], y[1..], lt)
  }

  predicate Greater<T>(x: seq<T>, y: seq<T>, lt: (T, T) -> bool)
  {
    LexLess(y, x, lt)
  }

  predicate GreaterEq<T>(x: seq<T>, y: seq<T>, lt: (T, T) -> bool)
  {
    !LexLess(x, y, lt)
  }

  predicate LessEq<T>(x: seq<T>, y: seq<T>, lt: (T, T) -> bool)
  {
    !LexLess(y, x, lt)
  }

  /** A proper prefix compares less; nothing compares less than itself. */
  lemma {:induction false} LexLessPrefix<T>(x: seq<T>, y: seq<T>, lt: (T, T) -> bool)
    requires forall a :: !lt(a, a)
    ensures LexLess(x, x + y, lt) <==> |y| > 0
  {
    if |x| > 0 {
      assert (x + y)[0] == x[0];
      assert (x + y)[1..] == x[1..] + y;
      LexLessPrefix(x[1..], y, lt);
    }
  }

  lemma {:induction false} LexLessTransitive<T(!new)>(x: seq<T>, y: seq<T>, z: seq<T>, lt: (T, T) -> bool)
    requires StrictTotalOrder(lt)
    requires LexLess(x, y, lt) && LexLess(y, z, lt)
    ensures LexLess(x, z, lt)
  {
    if |x| > 0 && !lt(x[0], y[0]) && !lt(y[0], z[0]) {
      assert x[0] == y[0] && y[0] == z[0];
      LexLessTransitive(x[1..], y[1..], z[1..], lt);
    }
  }

  /** Under a strict total order exactly one of x < y, x == y, y < x holds. */
  lemma {:induction false} LexTrichotomy<T(!new)>(x: seq<T>, y: seq<T>, lt: (T, T) -> bool)
    requires StrictTotalOrder(lt)
    ensures LexLess(x, y, lt) || x == y || LexLess(y, x, lt)
    ensures !(LexLess(x, y, lt) && LexLess(y, x, lt))
    ensures x == y ==> !LexLess(x, y, lt)
  {
    if |x| > 0 && |y| > 0 && !lt(x[0], y[0]) && !lt(y[0], x[0]) {
      assert x[0] == y[0];
      LexTrichotomy(x[1..], y[1..], lt);
      if x[1..] == y[1..] {
        assert x == [x[0]] + x[1..] && y == [y[0]] + y[1..];
      }
    }
  }

  /** The derived operators agree with the order they are derived from. */
  lemma LessEqIsLessOrEqual<T(!new)>(x: seq<T>, y: seq<T>, lt: (T, T) -> bool)
    requires StrictTotalOrder(lt)
    ensures LessEq(x, y, lt) <==> LexLess(x, y, lt) || x == y
    ensures GreaterEq(x, y, lt) <==> Greater(x, y, lt) || x == y
  {
    LexTrichotomy(x, y, lt);
  }
}
