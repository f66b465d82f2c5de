/** The list helpers of index.js (`all`, `any`, `chain`, `filter`, `map`,
    `range`, `or`). Each loop of the source is a method proved against the
    pure function (or quantifier) that the rest of the model uses. */
module Lists {

  // ---------------------------------------------------------------------
  // Specification functions
  // ---------------------------------------------------------------------

  /** The elements of `xs` that satisfy `p`, in their original order. */
  function Filtered<T>(xs: seq<T>, p: T -> bool): (r: seq<T>)
    ensures |r| <= |xs|
    ensures forall i :: 0 <= i < |r| ==> r[i] in xs
    ensures forall i :: 0 <= i < |xs| && p(xs[i]) ==> xs[i] in r
    ensures forall i :: 0 <= i < |r| ==> p(r[i])
  {
    if xs == [] then []
    else (if p(xs[0]) then [xs[0]] else []) + Filtered(xs[1..], p)
  }

  /** The concatenation of `f(x)` over the elements `x` of `xs`, in order. */
  function Chained<A, B>(xs: seq<A>, f: A -> seq<B>): (r: seq<B>)
  {
    if xs == [] then [] else f(xs[0]) + Chained(xs[1..], f)
  }

  /** `start, start + 1, ..., stop - 1`. */
  function Interval(start: int, stop: int): (r: seq<int>)
    decreases stop - start
  {
    if start < stop then [start] + Interval(start + 1, stop) else []
  }

  /** A list that is not empty has a member. */
  lemma HeadIsMember<T>(s: seq<T>)
    ensures s != [] ==> s[0] in s
  {
  }

  /** `or(xs, ys)`: `xs` unless it is empty, in which case `ys`. */
  function Or<T>(xs: seq<T>, ys: seq<T>): (r: seq<T>)
    ensures r == [] ==> xs == [] && ys == []
    ensures xs != [] ==> r == xs
    ensures xs == [] ==> r == ys
  {
    if xs == [] then ys else xs
  }

  /** `a` is `b` with some elements removed, the rest kept in order. */
  ghost predicate Subsequence<T>(a: seq<T>, b: seq<T>)
    decreases |b|
  {
    if a == [] then true
    else if b == [] then false
    else if a[0] == b[0] then Subsequence(a[1..], b[1..])
    else Subsequence(a, b[1..])
  }

  ghost predicate StrictlyIncreasing(s: seq<int>) {
    forall i, j :: 0 <= i < j < |s| ==> s[i] < s[j]
  }

  // ---------------------------------------------------------------------
  // Lemmas about the specification functions
  // ---------------------------------------------------------------------

  lemma {:induction false} FilteredIsSubsequence<T>(xs: seq<T>, p: T -> bool)
    ensures Subsequence(Filtered(xs, p), xs)
  {
    if xs != [] {
      FilteredIsSubsequence(xs[1..], p);
      if p(xs[0]) {
        assert Filtered(xs, p) == [xs[0]] + Filtered(xs[1..], p);
      } else {
        assert Filtered(xs, p) == Filtered(xs[1..], p);
        SubsequenceDropFront(Filtered(xs[1..], p), xs);
      }
    }
  }

  lemma {:induction false} SubsequenceDropFront<T>(a: seq<T>, b: seq<T>)
    requires b != []
    requires Subsequence(a, b[1..])
    ensures Subsequence(a, b)
    decreases |b|, 0
  {
    if a != [] && a[0] == b[0] && |b| > 1 {
      if a[0] == b[1] {
        SubsequenceDropFront(a[1..], b[1..]);
      } else {
        SubsequenceTail(a, b[1..]);
      }
    }
  }

  /** A subsequence of `b` with its head removed is still a subsequence of `b`. */
  lemma {:induction false} SubsequenceTail<T>(a: seq<T>, b: seq<T>)
    requires a != []
    requires Subsequence(a, b)
    ensures Subsequence(a[1..], b)
    decreases |b|, 1
  {
    if a[0] == b[0] {
      SubsequenceDropFront(a[1..], b);
    } else {
      SubsequenceTail(a, b[1..]);
      SubsequenceDropFront(a[1..], b);
    }
  }

  /** Appending to the longer list keeps a subsequence. */
  lemma {:induction false} SubsequenceSnocRight<T>(a: seq<T>, b: seq<T>, x: T)
    requires Subsequence(a, b)
    ensures Subsequence(a, b + [x])
    decreases |b|
  {
    if a != [] {
      assert b != [];
      assert (b + [x])[0] == b[0] && (b + [x])[1..] == b[1..] + [x];
      if a[0] == b[0] {
        SubsequenceSnocRight(a[1..], b[1..], x);
      } else {
        SubsequenceSnocRight(a, b[1..], x);
      }
    }
  }

  /** Appending the same element to both lists keeps a subsequence. */
  lemma {:induction false} SubsequenceSnocBoth<T>(a: seq<T>, b: seq<T>, x: T)
    requires Subsequence(a, b)
    ensures Subsequence(a + [x], b + [x])
    decreases |b|
  {
    if a == [] {
      assert a + [x] == [x];
      SubsequenceOfSingleton(b, x);
    } else {
      assert b != [];
      assert (a + [x])[0] == a[0] && (a + [x])[1..] == a[1..] + [x];
      assert (b + [x])[0] == b[0] && (b + [x])[1..] == b[1..] + [x];
      if a[0] == b[0] {
        SubsequenceSnocBoth(a[1..], b[1..], x);
      } else {
        SubsequenceSnocBoth(a, b[1..], x);
      }
    }
  }

  lemma {:induction false} SubsequenceOfSingleton<T>(b: seq<T>, x: T)
    ensures Subsequence([x], b + [x])
    decreases |b|
  {
    if b != [] {
      assert (b + [x])[1..] == b[1..] + [x];
      if b[0] != x {
        SubsequenceOfSingleton(b[1..], x);
      }
    }
  }

  /** Every element of a subsequence is an element of the original. */
  lemma {:induction false} SubsequenceMembers<T>(a: seq<T>, b: seq<T>, x: T)
    requires Subsequence(a, b)
    requires x in a
    ensures x in b
    decreases |b|
  {
    if a[0] == b[0] {
      if x != a[0] {
        SubsequenceMembers(a[1..], b[1..], x);
      }
    } else {
      SubsequenceMembers(a, b[1..], x);
    }
  }

  lemma {:induction false} ChainedAppend<A, B>(xs: seq<A>, ys: seq<A>, f: A -> seq<B>)
    ensures Chained(xs + ys, f) == Chained(xs, f) + Chained(ys, f)
  {
    if xs == [] {
      assert xs + ys == ys;
    } else {
      assert (xs + ys)[0] == xs[0] && (xs + ys)[1..] == xs[1..] + ys;
      ChainedAppend(xs[1..], ys, f);
    }
  }

  /** `chain` yields an empty list exactly when every `f(x)` is empty. */
  lemma {:induction false} ChainedEmpty<A, B>(xs: seq<A>, f: A -> seq<B>)
    ensures Chained(xs, f) == [] <==> forall i :: 0 <= i < |xs| ==> f(xs[i]) == []
  {
    if xs != [] {
      ChainedEmpty(xs[1..], f);
      assert forall i :: 1 <= i < |xs| ==> xs[i] == xs[1..][i - 1];
    }
  }

  /** Every element of `chain(xs, f)` comes from `f` of some element of `xs`, and back. */
  lemma {:induction false} ChainedMembers<A, B>(xs: seq<A>, f: A -> seq<B>, y: B)
    ensures y in Chained(xs, f) <==> exists i :: 0 <= i < |xs| && y in f(xs[i])
  {
    if xs != [] {
      ChainedMembers(xs[1..], f, y);
      if y in Chained(xs[1..], f) {
        var i :| 0 <= i < |xs[1..]| && y in f(xs[1..][i]);
        assert y in f(xs[i + 1]);
      }
      if exists i :: 0 <= i < |xs| && y in f(xs[i]) {
        var i :| 0 <= i < |xs| && y in f(xs[i]);
        if i > 0 {
          assert xs[1..][i - 1] == xs[i];
        }
      }
    }
  }

  /** Nothing passes, nothing is kept. */
  lemma {:induction false} FilteredNone<T>(xs: seq<T>, p: T -> bool)
    requires forall i :: 0 <= i < |xs| ==> !p(xs[i])
    ensures Filtered(xs, p) == []
  {
    if xs != [] {
      FilteredNone(xs[1..], p);
    }
  }

  /** Everything passes, everything is kept. */
  lemma {:induction false} FilteredAll<T>(xs: seq<T>, p: T -> bool)
    requires forall i :: 0 <= i < |xs| ==> p(xs[i])
    ensures Filtered(xs, p) == xs
  {
    if xs != [] {
      FilteredAll(xs[1..], p);
    }
  }

  lemma {:induction false} IntervalShape(start: int, stop: int)
    ensures |Interval(start, stop)| == if start < stop then stop - start else 0
    ensures forall i :: 0 <= i < |Interval(start, stop)| ==> Interval(start, stop)[i] == start + i
    decreases stop - start
  {
    if start < stop {
      IntervalShape(start + 1, stop);
    }
  }

  // ---------------------------------------------------------------------
  // The loops of the source
  // ---------------------------------------------------------------------

  /** `all`: stops at the first element that fails `pred`. */
  method All<T>(xs: seq<T>, pred: T -> bool) returns (b: bool)
    ensures b <==> forall i :: 0 <= i < |xs| ==> pred(xs[i])
  {
    var idx := 0;
    while idx < |xs|
      invariant 0 <= idx <= |xs|
      invariant forall i :: 0 <= i < idx ==> pred(xs[i])
    {
      if !pred(xs[idx]) {
        return false;
      }
      idx := idx + 1;
    }
    return true;
  }

  /** `any`: stops at the first element that satisfies `pred`. */
  method Any<T>(xs: seq<T>, pred: T -> bool) returns (b: bool)
    ensures b <==> exists i :: 0 <= i < |xs| && pred(xs[i])
  {
    var idx := 0;
    while idx < |xs|
      invariant 0 <= idx <= |xs|
      invariant forall i :: 0 <= i < idx ==> !pred(xs[i])
    {
      if pred(xs[idx]) {
        return true;
      }
      idx := idx + 1;
    }
    return false;
  }

  /** `chain`: pushes every `f(xs[idx])` onto one result list. */
  method Chain<A, B>(xs: seq<A>, f: A -> seq<B>) returns (result: seq<B>)
    ensures result == Chained(xs, f)
  {
    result := [];
    var idx := 0;
    while idx < |xs|
      invariant 0 <= idx <= |xs|
      invariant result == Chained(xs[..idx], f)
    {
      ChainedAppend(xs[..idx], [xs[idx]], f);
      assert xs[..idx + 1] == xs[..idx] + [xs[idx]];
      result := result + f(xs[idx]);
      idx := idx + 1;
    }
    assert xs[..idx] == xs;
  }

  /** `filter`: pushes the elements that satisfy `pred`. */
  method Filter<T>(xs: seq<T>, pred: T -> bool) returns (result: seq<T>)
    ensures result == Filtered(xs, pred)
  {
    result := [];
    var idx := 0;
    while idx < |xs|
      invariant 0 <= idx <= |xs|
      invariant result == Filtered(xs[..idx], pred)
    {
      FilteredAppend(xs[..idx], xs[idx], pred);
      assert xs[..idx + 1] == xs[..idx] + [xs[idx]];
      if pred(xs[idx]) {
        result := result + [xs[idx]];
      }
      idx := idx + 1;
    }
    assert xs[..idx] == xs;
  }

  lemma {:induction false} FilteredAppend<T>(xs: seq<T>, x: T, p: T -> bool)
    ensures Filtered(xs + [x], p) == Filtered(xs, p) + (if p(x) then [x] else [])
  {
    if xs != [] {
      assert (xs + [x])[1..] == xs[1..] + [x];
      FilteredAppend(xs[1..], x, p);
    }
  }

  /** `map`: pushes `f(xs[idx])` for every index. */
  method Map<A, B>(xs: seq<A>, f: A -> B) returns (result: seq<B>)
    ensures |result| == |xs|
    ensures forall i :: 0 <= i < |xs| ==> result[i] == f(xs[i])
  {
    result := [];
    var idx := 0;
    while idx < |xs|
      invariant 0 <= idx <= |xs|
      invariant |result| == idx
      invariant forall i :: 0 <= i < idx ==> result[i] == f(xs[i])
    {
      result := result + [f(xs[idx])];
      idx := idx + 1;
    }
  }

  /** `range`: the integers from `start` up to, not including, `stop`. */
  method Range(start: int, stop: int) returns (result: seq<int>)
    ensures result == Interval(start, stop)
  {
    result := [];
    var n := start;
    while n < stop
      invariant result + Interval(n, stop) == Interval(start, stop)
      decreases stop - n
    {
      assert Interval(n, stop) == [n] + Interval(n + 1, stop);
      result := result + [n];
      n := n + 1;
    }
  }
}
