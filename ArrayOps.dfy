// The numpy operations the detection post-processing is built from, stated on
// sequences of reals: a one-sided score mask, np.where on a 1-D mask, fancy
// indexing along the first axis, np.sort and the rank cutoff taken from it.

module ArrayOps {

  /** A one-sided score test, as written inside an np.where call. */
  datatype Mask = Greater(t: real) | AtLeast(t: real) {
    predicate Holds(x: real) {
      match this
      case Greater(t) => x > t
      case AtLeast(t) => x >= t
    }
  }

  /** numpy's where on a 1-D mask: the positions whose value passes, in increasing order. */
  function Where(xs: seq<real>, m: Mask): (inds: seq<nat>)
    ensures forall k :: 0 <= k < |inds| ==> inds[k] < |xs|
    ensures forall k, l :: 0 <= k < l < |inds| ==> inds[k] < inds[l]
    ensures forall r :: 0 <= r < |xs| ==> (r in inds <==> m.Holds(xs[r]))
  {
    if xs == [] then []
    else
      var n := |xs| - 1;
      Where(xs[..n], m) + (if m.Holds(xs[n]) then [n] else [])
  }

  /** s[inds]: fancy indexing along the first axis. */
  function Gather<T>(s: seq<T>, inds: seq<nat>): seq<T>
    requires forall k :: 0 <= k < |inds| ==> inds[k] < |s|
  {
    seq(|inds|, k requires 0 <= k < |inds| => s[inds[k]])
  }

  /** The values of `xs` that pass `m`, in their original order. */
  function Filter(xs: seq<real>, m: Mask): seq<real>
  {
    if xs == [] then []
    else
      var n := |xs| - 1;
      Filter(xs[..n], m) + (if m.Holds(xs[n]) then [xs[n]] else [])
  }

  /** How many values of `xs` pass `m`. */
  function Count(xs: seq<real>, m: Mask): nat
  {
    |Filter(xs, m)|
  }

  /** Indexing by the positions Where finds is the same as filtering the values. */
  lemma {:induction false} GatherWhere(xs: seq<real>, m: Mask)
    ensures Gather(xs, Where(xs, m)) == Filter(xs, m)
  {
    if xs != [] {
      var n := |xs| - 1;
      var front := Where(xs[..n], m);
      GatherWhere(xs[..n], m);
      assert Gather(xs, front) == Gather(xs[..n], front);
      var tail: seq<nat> := if m.Holds(xs[n]) then [n] else [];
      assert Where(xs, m) == front + tail;
      assert Gather(xs, front + tail) == Gather(xs, front) + Gather(xs, tail);
    }
  }

  lemma {:induction false} FilterAppend(a: seq<real>, b: seq<real>, m: Mask)
    ensures Filter(a + b, m) == Filter(a, m) + Filter(b, m)
  {
    if b == [] {
      assert a + b == a;
    } else {
      var n := |b| - 1;
      FilterAppend(a, b[..n], m);
      assert (a + b)[..|a| + n] == a + b[..n];
      assert (a + b)[|a| + n] == b[n];
    }
  }

  /** No value is ever gained by filtering. */
  lemma {:induction false} CountBound(xs: seq<real>, m: Mask)
    ensures Count(xs, m) <= |xs|
  {
    if xs != [] {
      CountBound(xs[..|xs| - 1], m);
    }
  }

  lemma {:induction false} CountAll(xs: seq<real>, m: Mask)
    requires forall k :: 0 <= k < |xs| ==> m.Holds(xs[k])
    ensures Count(xs, m) == |xs|
  {
    if xs != [] {
      CountAll(xs[..|xs| - 1], m);
    }
  }

  lemma {:induction false} CountNone(xs: seq<real>, m: Mask)
    requires forall k :: 0 <= k < |xs| ==> !m.Holds(xs[k])
    ensures Count(xs, m) == 0
  {
    if xs != [] {
      CountNone(xs[..|xs| - 1], m);
    }
  }

  /** Filtering first by a weaker mask does not change what a stronger one keeps. */
  lemma {:induction false} FilterFilter(xs: seq<real>, weak: Mask, strong: Mask)
    requires forall x :: strong.Holds(x) ==> weak.Holds(x)
    ensures Filter(Filter(xs, weak), strong) == Filter(xs, strong)
  {
    if xs != [] {
      var n := |xs| - 1;
      FilterFilter(xs[..n], weak, strong);
      var tail := if weak.Holds(xs[n]) then [xs[n]] else [];
      FilterAppend(Filter(xs[..n], weak), tail, strong);
    }
  }

  ghost predicate Ascending(s: seq<real>)
  {
    forall k, l :: 0 <= k < l < |s| ==> s[k] <= s[l]
  }

  ghost predicate Distinct(s: seq<real>)
  {
    forall k, l :: 0 <= k < l < |s| ==> s[k] != s[l]
  }

  lemma AscendingCons(h: real, t: seq<real>)
    requires Ascending(t) && (t == [] || h <= t[0])
    ensures Ascending([h] + t)
  {
  }

  /** Inserts `x` in front of the first value of `s` that is not below it. */
  function Insert(x: real, s: seq<real>): (r: seq<real>)
    ensures |r| == |s| + 1
    ensures r[0] == x || (|s| > 0 && r[0] == s[0])
    ensures multiset(r) == multiset(s) + multiset{x}
  {
    if s == [] || x <= s[0] then [x] + s
    else
      assert s == [s[0]] + s[1..];
      [s[0]] + Insert(x, s[1..])
  }

  lemma {:induction false} InsertAscending(x: real, s: seq<real>)
    requires Ascending(s)
    ensures Ascending(Insert(x, s))
  {
    if s == [] || x <= s[0] {
      AscendingCons(x, s);
    } else {
      InsertAscending(x, s[1..]);
      AscendingCons(s[0], Insert(x, s[1..]));
    }
  }

  /** numpy's sort: the values of `s` in ascending order (insertion sort). */
  function SortAsc(s: seq<real>): (r: seq<real>)
    ensures |r| == |s|
    ensures multiset(r) == multiset(s)
    ensures Ascending(r)
  {
    if s == [] then []
    else
      assert s == [s[0]] + s[1..];
      InsertAscending(s[0], SortAsc(s[1..]));
      Insert(s[0], SortAsc(s[1..]))
  }

  lemma {:induction false} InsertCount(x: real, s: seq<real>, m: Mask)
    ensures Count(Insert(x, s), m) == Count([x] + s, m)
  {
    if s != [] && x > s[0] {
      InsertCount(x, s[1..], m);
      assert s == [s[0]] + s[1..];
      FilterAppend([s[0]], Insert(x, s[1..]), m);
      FilterAppend([x], s[1..], m);
      FilterAppend([x], s, m);
      FilterAppend([s[0]], s[1..], m);
    }
  }

  /** Sorting keeps how many values pass any mask. */
  lemma {:induction false} SortCount(s: seq<real>, m: Mask)
    ensures Count(SortAsc(s), m) == Count(s, m)
  {
    if s != [] {
      SortCount(s[1..], m);
      InsertCount(s[0], SortAsc(s[1..]), m);
      FilterAppend([s[0]], SortAsc(s[1..]), m);
      FilterAppend([s[0]], s[1..], m);
      assert s == [s[0]] + s[1..];
    }
  }

  /** In an ascending sequence, at least |s| - p values are at or above position p. */
  lemma AscendingRankAtLeast(s: seq<real>, p: nat)
    requires Ascending(s) && p < |s|
    ensures Count(s, AtLeast(s[p])) >= |s| - p
  {
    assert s == s[..p] + s[p..];
    FilterAppend(s[..p], s[p..], AtLeast(s[p]));
    CountAll(s[p..], AtLeast(s[p]));
  }

  /** In an ascending sequence, fewer than |s| - p values are strictly above position p. */
  lemma AscendingRankAbove(s: seq<real>, p: nat)
    requires Ascending(s) && p < |s|
    ensures Count(s, Greater(s[p])) < |s| - p
  {
    var q := p + 1;
    assert s == s[..q] + s[q..];
    FilterAppend(s[..q], s[q..], Greater(s[p]));
    CountNone(s[..q], Greater(s[p]));
    CountBound(s[q..], Greater(s[p]));
  }

  lemma SortedRank(xs: seq<real>, p: nat)
    requires p < |xs|
    ensures SortAsc(xs)[p] in xs
    ensures Count(xs, AtLeast(SortAsc(xs)[p])) >= |xs| - p
    ensures Count(xs, Greater(SortAsc(xs)[p])) < |xs| - p
  {
    var s := SortAsc(xs);
    var c := s[p];
    assert c in multiset(s);
    AscendingRankAtLeast(s, p);
    AscendingRankAbove(s, p);
    SortCount(xs, AtLeast(c));
    SortCount(xs, Greater(c));
  }

  /** The m-th largest value of `xs`: the ascending sort read m places from its end. */
  function KthLargest(xs: seq<real>, m: nat): (c: real)
    requires 0 < m <= |xs|
    ensures c in xs
    ensures Count(xs, AtLeast(c)) >= m
    ensures Count(xs, Greater(c)) < m
  {
    var p := |xs| - m;
    var s := SortAsc(xs);
    SortedRank(xs, p);
    s[p]
  }

  lemma {:induction false} InsertDistinct(x: real, s: seq<real>)
    requires Distinct(s) && x !in s
    ensures Distinct(Insert(x, s))
  {
    if s != [] && x > s[0] {
      var rest := Insert(x, s[1..]);
      InsertDistinct(x, s[1..]);
      assert s[0] !in multiset(s[1..]) + multiset{x};
      assert s[0] !in rest by {
        assert s[0] !in multiset(rest);
      }
    }
  }

  lemma {:induction false} SortDistinct(s: seq<real>)
    requires Distinct(s)
    ensures Distinct(SortAsc(s))
  {
    if s != [] {
      SortDistinct(s[1..]);
      assert s[0] !in s[1..];
      assert s[0] !in SortAsc(s[1..]) by {
        assert s[0] !in multiset(SortAsc(s[1..]));
      }
      InsertDistinct(s[0], SortAsc(s[1..]));
    }
  }

  /** When no two values tie, exactly m values are at or above the m-th largest. */
  lemma KthLargestDistinct(xs: seq<real>, m: nat)
    requires 0 < m <= |xs| && Distinct(xs)
    ensures Count(xs, AtLeast(KthLargest(xs, m))) == m
  {
    var s := SortAsc(xs);
    var p := |xs| - m;
    var c := s[p];
    SortDistinct(xs);
    assert s == s[..p] + s[p..];
    FilterAppend(s[..p], s[p..], AtLeast(c));
    CountNone(s[..p], AtLeast(c));
    CountAll(s[p..], AtLeast(c));
    SortCount(xs, AtLeast(c));
  }
}
