/**
 * Sequence operations behind the comparison's list comprehensions and
 * pandas calls: a row filter that keeps order and duplicates, an
 * element-wise map, first-occurrence de-duplication (`Series.unique()`),
 * and the facts about them that the comparison's properties rest on.
 */
module Seqs {

  /** Python's `[x for x in xs if keep(x)]`: the elements that pass, in
      order, duplicates kept. */
  function Filter<T>(xs: seq<T>, keep: T -> bool): (r: seq<T>)
    ensures |r| <= |xs|
    ensures forall k :: 0 <= k < |r| ==> r[k] in xs && keep(r[k])
  {
    if xs == [] then []
    else
      var rest := Filter(xs[1..], keep);
      assert forall k :: 1 <= k < |xs| ==> xs[k] == xs[1..][k - 1];
      (if keep(xs[0]) then [xs[0]] else []) + rest
  }

  /** Nothing that passes is lost: every element of `xs` that `keep`
      accepts is in the filtered sequence. */
  lemma {:induction false} FilterComplete<T>(xs: seq<T>, keep: T -> bool)
    ensures forall k :: 0 <= k < |xs| && keep(xs[k]) ==> xs[k] in Filter(xs, keep)
  {
    if xs != [] {
      FilterComplete(xs[1..], keep);
      assert forall k :: 1 <= k < |xs| ==> xs[k] == xs[1..][k - 1];
    }
  }

  /** Membership in a filtered sequence, both directions. */
  lemma InFilter<T>(xs: seq<T>, keep: T -> bool, x: T)
    ensures x in Filter(xs, keep) <==> x in xs && keep(x)
  {
    FilterComplete(xs, keep);
  }

  /** `[f(x) for x in xs]`. */
  function MapSeq<A, B>(xs: seq<A>, f: A -> B): (r: seq<B>)
    ensures |r| == |xs| && forall k :: 0 <= k < |xs| ==> r[k] == f(xs[k])
  {
    seq(|xs|, k requires 0 <= k < |xs| => f(xs[k]))
  }

  /** A value is in the mapped sequence exactly when some element maps to it. */
  lemma InMapSeq<A, B>(xs: seq<A>, f: A -> B, y: B)
    ensures y in MapSeq(xs, f) <==> exists i :: 0 <= i < |xs| && f(xs[i]) == y
  {
    if y in MapSeq(xs, f) {
      var i :| 0 <= i < |xs| && MapSeq(xs, f)[i] == y;
    }
  }

  /** `a` can be obtained from `b` by deleting elements. */
  ghost predicate IsSubsequence<T>(a: seq<T>, b: seq<T>)
    decreases |b|
  {
    a == [] || (b != [] && ((a[0] == b[0] && IsSubsequence(a[1..], b[1..])) || IsSubsequence(a, b[1..])))
  }

  ghost predicate NoDups<T>(s: seq<T>)
  {
    forall i, j :: 0 <= i < j < |s| ==> s[i] != s[j]
  }

  function Elements<T>(s: seq<T>): set<T>
  {
    set x | x in s
  }

  /** The position of the first occurrence of `x` in `xs`. */
  function IndexOf<T(==)>(xs: seq<T>, x: T): (r: nat)
    requires x in xs
    ensures r < |xs| && xs[r] == x
    ensures forall k :: 0 <= k < r ==> xs[k] != x
  {
    if xs[0] == x then 0 else 1 + IndexOf(xs[1..], x)
  }

  /** pandas `Series.unique()`: each distinct value once, at the place of its
      first occurrence. */
  function Dedup<T(==)>(xs: seq<T>): (r: seq<T>)
    ensures |r| <= |xs|
    ensures forall k :: 0 <= k < |r| ==> r[k] in xs
    ensures forall k :: 0 <= k < |xs| ==> xs[k] in r
    ensures NoDups(r)
    decreases |xs|
  {
    if xs == [] then []
    else
      var init := xs[..|xs| - 1];
      var d := Dedup(init);
      assert xs == init + [xs[|xs| - 1]];
      if xs[|xs| - 1] in d then d else d + [xs[|xs| - 1]]
  }

  /** Filtering distributes over concatenation. */
  lemma {:induction false} FilterConcat<T>(a: seq<T>, b: seq<T>, keep: T -> bool)
    ensures Filter(a + b, keep) == Filter(a, keep) + Filter(b, keep)
    decreases |a|
  {
    if a == [] {
      assert a + b == b;
    } else {
      var t := a[1..];
      var h := if keep(a[0]) then [a[0]] else [];
      assert (a + b)[0] == a[0] && (a + b)[1..] == t + b;
      FilterConcat(t, b, keep);
      assert Filter(a + b, keep) == h + Filter(t + b, keep);
      assert Filter(a, keep) == h + Filter(t, keep);
    }
  }

  /** Filtering one more element appends it exactly when it passes. */
  lemma FilterSnoc<T>(xs: seq<T>, x: T, keep: T -> bool)
    ensures Filter(xs + [x], keep) == Filter(xs, keep) + (if keep(x) then [x] else [])
  {
    FilterConcat(xs, [x], keep);
  }

  /** The filter keeps the input's order: its result is a subsequence. */
  lemma {:induction false} FilterIsSubsequence<T>(xs: seq<T>, keep: T -> bool)
    ensures IsSubsequence(Filter(xs, keep), xs)
    decreases |xs|
  {
    if xs != [] {
      FilterIsSubsequence(xs[1..], keep);
      var r := Filter(xs, keep);
      var rest := Filter(xs[1..], keep);
      if keep(xs[0]) {
        assert r == [xs[0]] + rest;
        assert r[0] == xs[0] && r[1..] == rest;
      } else {
        assert r == rest;
      }
    }
  }

  /** Filtering twice with the same test is filtering once. */
  lemma {:induction false} FilterIdempotent<T>(xs: seq<T>, keep: T -> bool)
    ensures Filter(Filter(xs, keep), keep) == Filter(xs, keep)
    decreases |xs|
  {
    if xs != [] {
      FilterIdempotent(xs[1..], keep);
      var r := Filter(xs, keep);
      var rest := Filter(xs[1..], keep);
      if keep(xs[0]) {
        assert r == [xs[0]] + rest;
        assert r[0] == xs[0] && r[1..] == rest;
        assert Filter(r, keep) == [xs[0]] + Filter(rest, keep);
      } else {
        assert r == rest;
      }
    }
  }

  /** When every element passes, the filter returns its input. */
  lemma {:induction false} FilterAllPass<T>(xs: seq<T>, keep: T -> bool)
    requires forall k :: 0 <= k < |xs| ==> keep(xs[k])
    ensures Filter(xs, keep) == xs
    decreases |xs|
  {
    if xs != [] {
      FilterAllPass(xs[1..], keep);
      assert [xs[0]] + xs[1..] == xs;
    }
  }

  /** A filter and its complement split the input: no element is lost or
      counted twice. */
  lemma {:induction false} FilterPartition<T>(xs: seq<T>, keep: T -> bool, drop: T -> bool)
    requires forall k :: 0 <= k < |xs| ==> drop(xs[k]) == !keep(xs[k])
    ensures |Filter(xs, keep)| + |Filter(xs, drop)| == |xs|
    decreases |xs|
  {
    if xs != [] {
      FilterPartition(xs[1..], keep, drop);
    }
  }

  /** Two tests that agree on every element filter alike. */
  lemma {:induction false} FilterCongruent<T>(xs: seq<T>, p: T -> bool, q: T -> bool)
    requires forall k :: 0 <= k < |xs| ==> p(xs[k]) == q(xs[k])
    ensures Filter(xs, p) == Filter(xs, q)
    decreases |xs|
  {
    if xs != [] {
      FilterCongruent(xs[1..], p, q);
    }
  }

  /** Filtering by `p` and then by `q` is filtering by both at once. */
  lemma {:induction false} FilterFilter<T>(xs: seq<T>, p: T -> bool, q: T -> bool, both: T -> bool)
    requires forall k :: 0 <= k < |xs| ==> both(xs[k]) == (p(xs[k]) && q(xs[k]))
    ensures Filter(Filter(xs, p), q) == Filter(xs, both)
    decreases |xs|
  {
    if xs != [] {
      FilterFilter(xs[1..], p, q, both);
      var rest := Filter(xs[1..], p);
      if p(xs[0]) {
        var r := Filter(xs, p);
        assert r == [xs[0]] + rest;
        assert r[0] == xs[0] && r[1..] == rest;
        assert Filter(r, q) == (if q(xs[0]) then [xs[0]] else []) + Filter(rest, q);
      } else {
        assert Filter(xs, p) == rest;
      }
      assert Filter(xs, both) == (if both(xs[0]) then [xs[0]] else []) + Filter(xs[1..], both);
    }
  }

  lemma IsSubsequenceOfFilterFilter<T>(xs: seq<T>, p: T -> bool, q: T -> bool)
    ensures IsSubsequence(Filter(Filter(xs, p), q), xs)
  {
    FilterFilter(xs, p, q, x => p(x) && q(x));
    FilterIsSubsequence(xs, x => p(x) && q(x));
  }

  /** A sequence without duplicates has as many elements as its set. */
  lemma {:induction false} NoDupsCardinality<T>(s: seq<T>)
    requires NoDups(s)
    ensures |Elements(s)| == |s|
    decreases |s|
  {
    if s != [] {
      var init := s[..|s| - 1];
      var last := s[|s| - 1];
      assert NoDups(init);
      NoDupsCardinality(init);
      assert s == init + [last];
      assert last !in init;
      assert Elements(s) == Elements(init) + {last};
    }
  }

  /** `len(xs.unique())` is the number of distinct values. */
  lemma DedupLength<T>(xs: seq<T>)
    ensures |Dedup(xs)| == |Elements(xs)|
  {
    NoDupsCardinality(Dedup(xs));
    assert Elements(Dedup(xs)) == Elements(xs);
  }

  /** A set built from a sequence has at most as many elements. */
  lemma ElementsBound<T>(s: seq<T>)
    ensures |Elements(s)| <= |s|
  {
    DedupLength(s);
  }

  /** Appending an element does not move the first occurrence of anything
      already present; a new element's first occurrence is at the end. */
  lemma IndexOfSnoc<T>(xs: seq<T>, x: T, y: T)
    requires y in xs + [x]
    ensures y in xs ==> IndexOf(xs + [x], y) == IndexOf(xs, y)
    ensures y !in xs ==> IndexOf(xs + [x], y) == |xs|
  {
    var i := IndexOf(xs + [x], y);
    if y in xs {
      var j := IndexOf(xs, y);
      assert (xs + [x])[j] == y;
    }
  }

  /** The distinct values of a mapped-then-filtered sequence are the images
      of the elements whose image passes. */
  lemma ElementsOfFilterMap<A, B>(xs: seq<A>, f: A -> B, keep: B -> bool)
    ensures Elements(Filter(MapSeq(xs, f), keep)) == set x | x in xs && keep(f(x)) :: f(x)
  {
    var ys := MapSeq(xs, f);
    forall y | y in Elements(Filter(ys, keep))
      ensures exists x :: x in xs && keep(f(x)) && f(x) == y
    {
      InFilter(ys, keep, y);
      var j :| 0 <= j < |ys| && ys[j] == y;
      assert xs[j] in xs;
    }
    forall x | x in xs && keep(f(x))
      ensures f(x) in Elements(Filter(ys, keep))
    {
      var j :| 0 <= j < |xs| && xs[j] == x;
      assert ys[j] == f(x);
      InFilter(ys, keep, f(x));
    }
  }

  /** Mapping distributes over concatenation. */
  lemma MapSeqConcat<A, B>(a: seq<A>, b: seq<A>, f: A -> B)
    ensures MapSeq(a + b, f) == MapSeq(a, f) + MapSeq(b, f)
  {
  }

  lemma MapSeqSingleton<A, B>(x: A, f: A -> B)
    ensures MapSeq([x], f) == [f(x)]
  {
    assert MapSeq([x], f)[0] == f(x);
  }

  lemma ElementsSingleton<T>(x: T)
    ensures Elements([x]) == {x}
  {
  }

  lemma DedupSingleton<T>(x: T)
    ensures Dedup([x]) == [x]
  {
    assert [x][..0] == [];
  }

  /** Dedup lists values in the order of their first occurrence. */
  lemma {:induction false} DedupFirstOccurrenceOrder<T>(xs: seq<T>)
    ensures forall i, j :: 0 <= i < j < |Dedup(xs)| ==>
              IndexOf(xs, Dedup(xs)[i]) < IndexOf(xs, Dedup(xs)[j])
    decreases |xs|
  {
    if xs != [] {
      var init := xs[..|xs| - 1];
      var x := xs[|xs| - 1];
      assert xs == init + [x];
      DedupFirstOccurrenceOrder(init);
      var d := Dedup(init);
      forall y | y in d
        ensures IndexOf(xs, y) == IndexOf(init, y)
      {
        IndexOfSnoc(init, x, y);
      }
      if x !in d {
        IndexOfSnoc(init, x, x);
        assert Dedup(xs) == d + [x];
        forall i, j | 0 <= i < j < |Dedup(xs)|
          ensures IndexOf(xs, Dedup(xs)[i]) < IndexOf(xs, Dedup(xs)[j])
        {
          if j < |d| {
            assert Dedup(xs)[i] == d[i] && Dedup(xs)[j] == d[j];
          } else {
            assert Dedup(xs)[i] == d[i] && Dedup(xs)[j] == x;
            assert d[i] in init;
          }
        }
      }
    }
  }

  /** A filter keeps a strictly increasing ranking of the elements: whatever
      order the input is in, the kept elements are in it too. */
  lemma {:induction false} FilterKeepsRank<T>(xs: seq<T>, keep: T -> bool, rank: T -> int)
    requires forall i, j :: 0 <= i < j < |xs| ==> rank(xs[i]) < rank(xs[j])
    ensures forall i, j :: 0 <= i < j < |Filter(xs, keep)| ==>
              rank(Filter(xs, keep)[i]) < rank(Filter(xs, keep)[j])
    decreases |xs|
  {
    if xs != [] {
      var tail := xs[1..];
      assert forall i, j :: 0 <= i < j < |tail| ==> tail[i] == xs[i + 1] && tail[j] == xs[j + 1];
      FilterKeepsRank(tail, keep, rank);
      var rest := Filter(tail, keep);
      forall k | 0 <= k < |rest|
        ensures rank(xs[0]) < rank(rest[k])
      {
        var m :| 0 <= m < |tail| && tail[m] == rest[k];
        assert tail[m] == xs[m + 1];
      }
    }
  }

  /** Filtering the de-duplicated values keeps them distinct and in the
      order of their first occurrence. */
  lemma FilterDedupOrder<T>(xs: seq<T>, keep: T -> bool)
    ensures var r := Filter(Dedup(xs), keep);
      && NoDups(r)
      && (forall k :: 0 <= k < |r| ==> r[k] in xs)
      && (forall i, j :: 0 <= i < j < |r| ==> IndexOf(xs, r[i]) < IndexOf(xs, r[j]))
  {
    var d := Dedup(xs);
    var rank := (x: T) => if x in xs then IndexOf(xs, x) else 0;
    DedupFirstOccurrenceOrder(xs);
    assert forall i, j :: 0 <= i < j < |d| ==> rank(d[i]) < rank(d[j]);
    FilterKeepsRank(d, keep, rank);
    var r := Filter(d, keep);
    assert forall k :: 0 <= k < |r| ==> r[k] in xs;
    assert forall i, j :: 0 <= i < j < |r| ==> rank(r[i]) < rank(r[j]);
  }
}
