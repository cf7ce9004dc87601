/**
 * Sorting and counting over real numbers: the order-statistics machinery
 * that numpy's median and percentile routines and scipy's
 * `percentileofscore` rely on.
 */
module OrderStats {

  /** Non-decreasing order. */
  predicate Sorted(s: seq<real>) {
    forall i, j :: 0 <= i < j < |s| ==> s[i] <= s[j]
  }

  /** Inserts `x` into the sorted sequence `s` at its place. */
  function Insert(x: real, s: seq<real>): (r: seq<real>)
    requires Sorted(s)
    ensures Sorted(r)
    ensures multiset(r) == multiset(s) + multiset{x}
    ensures |r| == |s| + 1
    ensures r[0] == if |s| == 0 || x <= s[0] then x else s[0]
  {
    if |s| == 0 || x <= s[0] then [x] + s
    else
      assert s == [s[0]] + s[1..];
      [s[0]] + Insert(x, s[1..])
  }

  /** The sorted permutation of `xs` (insertion sort). */
  function Sort(xs: seq<real>): (r: seq<real>)
    ensures Sorted(r)
    ensures multiset(r) == multiset(xs)
    ensures |r| == |xs|
  {
    if |xs| == 0 then []
    else
      assert xs == [xs[0]] + xs[1..];
      Insert(xs[0], Sort(xs[1..]))
  }

  /** Two sorted sequences holding the same values are equal: the order
    * statistics of a collection do not depend on how it was sorted. */
  lemma {:induction false} SortedUnique(a: seq<real>, b: seq<real>)
    requires Sorted(a) && Sorted(b)
    requires multiset(a) == multiset(b)
    ensures a == b
  {
    assert |a| == |multiset(a)| == |multiset(b)| == |b|;
    if |a| > 0 {
      assert a[0] in multiset(b);
      assert b[0] in multiset(a);
      assert a[0] == b[0];
      assert a == [a[0]] + a[1..];
      assert b == [b[0]] + b[1..];
      assert multiset(a[1..]) == multiset(a) - multiset{a[0]};
      assert multiset(b[1..]) == multiset(b) - multiset{b[0]};
      SortedUnique(a[1..], b[1..]);
    }
  }

  /** Any sorted permutation of `xs` is `Sort(xs)`. */
  lemma SortIsCanonical(xs: seq<real>, s: seq<real>)
    requires Sorted(s) && multiset(s) == multiset(xs)
    ensures s == Sort(xs)
  {
    SortedUnique(s, Sort(xs));
  }

  /** The smallest element. */
  function MinOf(s: seq<real>): (m: real)
    requires |s| > 0
    ensures m in s
    ensures forall k :: 0 <= k < |s| ==> m <= s[k]
  {
    if |s| == 1 then s[0]
    else
      var rest := MinOf(s[1..]);
      if s[0] <= rest then s[0] else rest
  }

  /** The largest element. */
  function MaxOf(s: seq<real>): (m: real)
    requires |s| > 0
    ensures m in s
    ensures forall k :: 0 <= k < |s| ==> s[k] <= m
  {
    if |s| == 1 then s[0]
    else
      var rest := MaxOf(s[1..]);
      if s[0] >= rest then s[0] else rest
  }

  /** The first element of a sorted permutation is the minimum. */
  lemma SortedFirstIsMin(xs: seq<real>, s: seq<real>)
    requires |xs| > 0 && Sorted(s) && multiset(s) == multiset(xs)
    ensures |s| == |xs| && s[0] == MinOf(xs)
  {
    assert |s| == |multiset(s)| == |xs|;
    assert s[0] in multiset(xs);
    var lo := MinOf(xs);
    assert lo in multiset(s);
    var i :| 0 <= i < |s| && s[i] == lo;
    assert s[0] <= s[i];
  }

  /** The last element of a sorted permutation is the maximum. */
  lemma SortedLastIsMax(xs: seq<real>, s: seq<real>)
    requires |xs| > 0 && Sorted(s) && multiset(s) == multiset(xs)
    ensures |s| == |xs| && s[|s| - 1] == MaxOf(xs)
  {
    assert |s| == |multiset(s)| == |xs|;
    assert s[|s| - 1] in multiset(xs);
    var hi := MaxOf(xs);
    assert hi in multiset(s);
    var j :| 0 <= j < |s| && s[j] == hi;
    assert s[j] <= s[|s| - 1];
  }

  /** The first and last elements of the sorted permutation are the
    * minimum and the maximum. */
  lemma SortEnds(xs: seq<real>)
    requires |xs| > 0
    ensures Sort(xs)[0] == MinOf(xs)
    ensures Sort(xs)[|xs| - 1] == MaxOf(xs)
  {
    SortedFirstIsMin(xs, Sort(xs));
    SortedLastIsMax(xs, Sort(xs));
  }

  /** Number of elements strictly below `v`. */
  function CountBelow(d: seq<real>, v: real): (c: nat)
    ensures c <= |d|
  {
    if |d| == 0 then 0 else (if d[0] < v then 1 else 0) + CountBelow(d[1..], v)
  }

  /** Number of elements at most `v`. */
  function CountAtMost(d: seq<real>, v: real): (c: nat)
    ensures c <= |d|
  {
    if |d| == 0 then 0 else (if d[0] <= v then 1 else 0) + CountAtMost(d[1..], v)
  }

  /** Number of elements at least `v`. */
  function CountAtLeast(d: seq<real>, v: real): (c: nat)
    ensures c <= |d|
  {
    if |d| == 0 then 0 else (if d[0] >= v then 1 else 0) + CountAtLeast(d[1..], v)
  }

  /** A value strictly below `v` is at most `v`. */
  lemma {:induction false} BelowAtMost(d: seq<real>, v: real)
    ensures CountBelow(d, v) <= CountAtMost(d, v)
  {
    if |d| > 0 { BelowAtMost(d[1..], v); }
  }

  /** Both counts grow with the threshold, and everything at most `v` is
    * strictly below any larger `w`. */
  lemma {:induction false} CountsMonotone(d: seq<real>, v: real, w: real)
    requires v <= w
    ensures CountBelow(d, v) <= CountBelow(d, w)
    ensures CountAtMost(d, v) <= CountAtMost(d, w)
    ensures v < w ==> CountAtMost(d, v) <= CountBelow(d, w)
  {
    if |d| > 0 { CountsMonotone(d[1..], v, w); }
  }

  /** Counting over a sequence with a given first element. */
  lemma CountsCons(a: real, t: seq<real>, v: real)
    ensures CountAtMost([a] + t, v) == (if a <= v then 1 else 0) + CountAtMost(t, v)
    ensures CountAtLeast([a] + t, v) == (if a >= v then 1 else 0) + CountAtLeast(t, v)
  {
    assert ([a] + t)[1..] == t;
  }

  /** Inserting into a sorted sequence adds one to the counts `x` falls in. */
  lemma {:induction false} InsertCounts(x: real, s: seq<real>, v: real)
    requires Sorted(s)
    ensures CountAtMost(Insert(x, s), v) == CountAtMost(s, v) + (if x <= v then 1 else 0)
    ensures CountAtLeast(Insert(x, s), v) == CountAtLeast(s, v) + (if x >= v then 1 else 0)
  {
    if |s| == 0 || x <= s[0] {
      CountsCons(x, s, v);
    } else {
      InsertCounts(x, s[1..], v);
      CountsCons(s[0], Insert(x, s[1..]), v);
      CountsCons(s[0], s[1..], v);
      assert s == [s[0]] + s[1..];
    }
  }

  /** Sorting does not change how many values lie on either side of `v`. */
  lemma {:induction false} SortPreservesCounts(xs: seq<real>, v: real)
    ensures CountAtMost(Sort(xs), v) == CountAtMost(xs, v)
    ensures CountAtLeast(Sort(xs), v) == CountAtLeast(xs, v)
  {
    if |xs| > 0 {
      SortPreservesCounts(xs[1..], v);
      InsertCounts(xs[0], Sort(xs[1..]), v);
      CountsCons(xs[0], xs[1..], v);
      assert xs == [xs[0]] + xs[1..];
    }
  }

  /** If the first `k` elements are at most `v`, at least `k` elements are. */
  lemma {:induction false} PrefixAtMost(s: seq<real>, v: real, k: nat)
    requires k <= |s|
    requires forall i :: 0 <= i < k ==> s[i] <= v
    ensures CountAtMost(s, v) >= k
  {
    if k > 0 { PrefixAtMost(s[1..], v, k - 1); }
  }

  /** If every element from index `k` on is at least `v`, at least
    * `|s| - k` elements are. */
  lemma {:induction false} SuffixAtLeast(s: seq<real>, v: real, k: nat)
    requires k <= |s|
    requires forall i :: k <= i < |s| ==> s[i] >= v
    ensures CountAtLeast(s, v) >= |s| - k
  {
    if |s| > 0 { SuffixAtLeast(s[1..], v, if k > 0 then k - 1 else 0); }
  }
}
