/**
 * numpy's NaN-ignoring reductions, `np.nanmedian` and `np.nanpercentile`
 * with the default linear interpolation, over a column whose entries may be
 * NaN (`None`).
 */
module NanStats {
  import opened Wrappers
  import opened OrderStats

  /** The entries that are not NaN, in their original order. */
  function Present(xs: seq<Option<real>>): (p: seq<real>)
    ensures |p| <= |xs|
    ensures forall x :: x in p <==> Some(x) in xs
  {
    if |xs| == 0 then []
    else
      assert xs == [xs[0]] + xs[1..];
      (if xs[0].Some? then [xs[0].value] else []) + Present(xs[1..])
  }

  /** A single entry keeps its value, or vanishes when it is NaN. */
  lemma PresentOne(x: Option<real>)
    ensures Present([x]) == if x.Some? then [x.value] else []
  {
    assert [x][1..] == [];
  }

  /** Dropping NaNs distributes over concatenation, so every present value
    * is kept as often as it occurs, and in order. */
  lemma {:induction false} PresentSplit(xs: seq<Option<real>>, ys: seq<Option<real>>)
    ensures Present(xs + ys) == Present(xs) + Present(ys)
  {
    if |xs| == 0 {
      assert xs + ys == ys;
    } else {
      assert (xs + ys)[0] == xs[0];
      assert (xs + ys)[1..] == xs[1..] + ys;
      PresentSplit(xs[1..], ys);
    }
  }

  /** True when every entry is NaN (or there are none). */
  predicate AllMissing(xs: seq<Option<real>>) {
    forall k :: 0 <= k < |xs| ==> xs[k].None?
  }

  lemma {:induction false} PresentEmpty(xs: seq<Option<real>>)
    ensures Present(xs) == [] <==> AllMissing(xs)
  {
    if |xs| > 0 {
      PresentEmpty(xs[1..]);
      assert forall k :: 1 <= k < |xs| ==> xs[k] == xs[1..][k - 1];
    }
  }

  /**
   * The value at virtual index `pos / 100` of the sorted sequence `s`:
   * linear interpolation between the order statistics at the floor and at
   * the ceiling of that index, numpy's default 'linear' method.
   */
  function Interpolate(s: seq<real>, pos: nat): real
    requires |s| > 0 && pos <= 100 * (|s| - 1)
  {
    var lo := pos / 100;
    var frac := pos % 100;
    if frac == 0 then s[lo]
    else s[lo] + (frac as real / 100.0) * (s[lo + 1] - s[lo])
  }

  /** Arithmetic proof helper: a product of non-negative reals is
    * non-negative. */
  lemma MulNonneg(a: real, b: real)
    requires a >= 0.0 && b >= 0.0
    ensures a * b >= 0.0
  {
  }

  /** Arithmetic proof helper: multiplying by a non-negative real keeps
    * the order of non-negative reals. */
  lemma MulGrows(a: real, b: real, d: real)
    requires 0.0 <= a <= b && d >= 0.0
    ensures a * d <= b * d
  {
    MulNonneg(b - a, d);
  }

  /** Arithmetic proof helper: the same for natural numbers. */
  lemma NatMulGrows(a: nat, b: nat, m: nat)
    requires a <= b
    ensures a * m <= b * m
  {
  }

  /** The virtual index, times 100, of the `q`th percentile of `n` values:
    * q (n - 1), which lies within the sorted sequence. */
  function VirtualIndex(q: nat, n: nat): (pos: nat)
    requires q <= 100 && n > 0
    ensures pos <= 100 * (n - 1)
  {
    NatMulGrows(q, 100, n - 1);
    q * (n - 1)
  }

  /** A higher percentage has a higher virtual index. */
  lemma VirtualIndexMonotone(q1: nat, q2: nat, n: nat)
    requires q1 <= q2 <= 100 && n > 0
    ensures VirtualIndex(q1, n) <= VirtualIndex(q2, n)
  {
    NatMulGrows(q1, q2, n - 1);
  }

  /** The interpolated value lies between the two order statistics it
    * interpolates. */
  lemma InterpolateBetween(s: seq<real>, pos: nat)
    requires Sorted(s) && |s| > 0 && pos <= 100 * (|s| - 1)
    ensures pos % 100 > 0 ==> pos / 100 + 1 < |s|
    ensures s[pos / 100] <= Interpolate(s, pos)
    ensures Interpolate(s, pos) <= s[if pos % 100 == 0 then pos / 100 else pos / 100 + 1]
  {
    var lo := pos / 100;
    var frac := pos % 100;
    assert pos == 100 * lo + frac;
    if frac > 0 {
      var d := s[lo + 1] - s[lo];
      MulGrows(0.0, frac as real / 100.0, d);
      MulGrows(frac as real / 100.0, 1.0, d);
    }
  }

  /** Linear interpolation between a <= b grows with the factor. */
  lemma LerpMonotone(a: real, b: real, t1: real, t2: real)
    requires a <= b && 0.0 <= t1 <= t2
    ensures a + t1 * (b - a) <= a + t2 * (b - a)
  {
    MulGrows(t1, t2, b - a);
  }

  /** The interpolated value never decreases as the virtual index grows. */
  lemma InterpolateMonotone(s: seq<real>, p1: nat, p2: nat)
    requires Sorted(s) && |s| > 0 && p1 <= p2 <= 100 * (|s| - 1)
    ensures Interpolate(s, p1) <= Interpolate(s, p2)
  {
    InterpolateBetween(s, p1);
    InterpolateBetween(s, p2);
    var lo1, lo2 := p1 / 100, p2 / 100;
    assert p1 == 100 * lo1 + p1 % 100 && p2 == 100 * lo2 + p2 % 100;
    if lo1 == lo2 {
      if p1 % 100 > 0 {
        var a, b := s[lo1], s[lo1 + 1];
        var t1, t2 := (p1 % 100) as real / 100.0, (p2 % 100) as real / 100.0;
        assert Interpolate(s, p1) == a + t1 * (b - a);
        assert Interpolate(s, p2) == a + t2 * (b - a);
        LerpMonotone(a, b, t1, t2);
      }
    } else {
      assert lo1 < lo2;
      assert s[lo1 + 1] <= s[lo2];
    }
  }

  /** `np.nanpercentile(xs, q)` for an integer percentage `q`. */
  function NanPercentile(xs: seq<Option<real>>, q: nat): (r: Option<real>)
    requires q <= 100
    ensures r.None? <==> AllMissing(xs)
  {
    PresentEmpty(xs);
    var p := Present(xs);
    if |p| == 0 then None
    else
      Some(Interpolate(Sort(p), VirtualIndex(q, |p|)))
  }

  /** `np.nanmedian(xs)`: the middle present value, or the mean of the two
    * middle ones when their number is even. */
  function NanMedian(xs: seq<Option<real>>): (r: Option<real>)
    ensures r.None? <==> AllMissing(xs)
  {
    PresentEmpty(xs);
    var p := Present(xs);
    var n := |p|;
    if n == 0 then None else Some(MiddleOf(Sort(p)))
  }

  /** The middle element of `s`, or the mean of the two middle ones. */
  function MiddleOf(s: seq<real>): real
    requires |s| > 0
  {
    var n := |s|;
    if n % 2 == 1 then s[n / 2] else (s[n / 2 - 1] + s[n / 2]) / 2.0
  }

  /** The middle of a sorted sequence lies between its two middle
    * elements (the same one when the length is odd). */
  lemma MiddleBetween(s: seq<real>)
    requires Sorted(s) && |s| > 0
    ensures s[(|s| - 1) / 2] <= MiddleOf(s) <= s[|s| / 2]
  {
  }

  lemma InterpolateWhole(s: seq<real>, lo: nat)
    requires lo < |s|
    ensures Interpolate(s, 100 * lo) == s[lo]
  {
    assert (100 * lo) / 100 == lo && (100 * lo) % 100 == 0;
  }

  lemma InterpolateHalf(s: seq<real>, lo: nat)
    requires lo + 1 < |s|
    ensures Interpolate(s, 100 * lo + 50) == (s[lo] + s[lo + 1]) / 2.0
  {
    assert (100 * lo + 50) / 100 == lo && (100 * lo + 50) % 100 == 50;
  }

  /** The middle of a sequence is its value at the 50th percentile's
    * virtual index. */
  lemma MiddleIsHalfway(s: seq<real>)
    requires |s| > 0
    ensures MiddleOf(s) == Interpolate(s, VirtualIndex(50, |s|))
  {
    var n := |s|;
    var k := n / 2;
    assert VirtualIndex(50, n) == 50 * (n - 1);
    if n % 2 == 1 {
      assert 50 * (n - 1) == 100 * k;
      InterpolateWhole(s, k);
    } else {
      assert 50 * (n - 1) == 100 * (k - 1) + 50;
      InterpolateHalf(s, k - 1);
    }
  }

  /** The median is the 50th percentile. */
  lemma MedianIsPercentile50(xs: seq<Option<real>>)
    ensures NanMedian(xs) == NanPercentile(xs, 50)
  {
    var p := Present(xs);
    if |p| > 0 {
      MiddleIsHalfway(Sort(p));
    }
  }

  /** A higher percentage never gives a lower percentile. */
  lemma {:induction false} PercentileMonotone(xs: seq<Option<real>>, q1: nat, q2: nat)
    requires q1 <= q2 <= 100
    ensures NanPercentile(xs, q1).Some? ==> NanPercentile(xs, q1).value <= NanPercentile(xs, q2).value
  {
    var p := Present(xs);
    if |p| > 0 {
      VirtualIndexMonotone(q1, q2, |p|);
      InterpolateMonotone(Sort(p), VirtualIndex(q1, |p|), VirtualIndex(q2, |p|));
    }
  }

  lemma InterpolateFirst(s: seq<real>)
    requires |s| > 0
    ensures Interpolate(s, VirtualIndex(0, |s|)) == s[0]
  {
    assert VirtualIndex(0, |s|) == 100 * 0;
    InterpolateWhole(s, 0);
  }

  lemma InterpolateLast(s: seq<real>)
    requires |s| > 0
    ensures Interpolate(s, VirtualIndex(100, |s|)) == s[|s| - 1]
  {
    assert VirtualIndex(100, |s|) == 100 * (|s| - 1);
    InterpolateWhole(s, |s| - 1);
  }

  /** The 0th percentile is the smallest present value. */
  lemma PercentileZeroIsMin(xs: seq<Option<real>>)
    requires !AllMissing(xs)
    ensures NanPercentile(xs, 0) == Some(MinOf(Present(xs)))
  {
    PresentEmpty(xs);
    var p := Present(xs);
    var s := Sort(p);
    SortedFirstIsMin(p, s);
    InterpolateFirst(s);
  }

  /** The 100th percentile is the largest present value. */
  lemma PercentileHundredIsMax(xs: seq<Option<real>>)
    requires !AllMissing(xs)
    ensures NanPercentile(xs, 100) == Some(MaxOf(Present(xs)))
  {
    PresentEmpty(xs);
    var p := Present(xs);
    var s := Sort(p);
    SortedLastIsMax(p, s);
    InterpolateLast(s);
  }

  /** Every percentile lies between the smallest and largest present value. */
  lemma PercentileBounds(xs: seq<Option<real>>, q: nat)
    requires q <= 100
    ensures NanPercentile(xs, q).Some? ==>
      MinOf(Present(xs)) <= NanPercentile(xs, q).value <= MaxOf(Present(xs))
  {
    if !AllMissing(xs) {
      PercentileZeroIsMin(xs);
      PercentileHundredIsMax(xs);
      PercentileMonotone(xs, 0, q);
      PercentileMonotone(xs, q, 100);
    }
  }

  /** The median lies between the smallest and largest present value. */
  lemma MedianBounds(xs: seq<Option<real>>)
    ensures NanMedian(xs).Some? ==>
      MinOf(Present(xs)) <= NanMedian(xs).value <= MaxOf(Present(xs))
  {
    MedianIsPercentile50(xs);
    PercentileBounds(xs, 50);
  }

  /** When every present value lies in [lo, hi], so does the median. */
  lemma MedianWithin(xs: seq<Option<real>>, lo: real, hi: real)
    requires forall k :: 0 <= k < |xs| && xs[k].Some? ==> lo <= xs[k].value <= hi
    ensures NanMedian(xs).Some? ==> lo <= NanMedian(xs).value <= hi
  {
    var p := Present(xs);
    if |p| > 0 {
      MedianBounds(xs);
      var a, b := MinOf(p), MaxOf(p);
      assert Some(a) in xs && Some(b) in xs;
      var i :| 0 <= i < |xs| && xs[i] == Some(a);
      var j :| 0 <= j < |xs| && xs[j] == Some(b);
    }
  }

  /** A non-empty column without NaN whose values lie in [lo, hi] has a
    * median in [lo, hi]. */
  lemma BoundedColumnMedian(xs: seq<Option<real>>, lo: real, hi: real)
    requires |xs| > 0
    requires forall k :: 0 <= k < |xs| ==> xs[k].Some? && lo <= xs[k].value <= hi
    ensures NanMedian(xs).Some? && lo <= NanMedian(xs).value <= hi
  {
    assert !AllMissing(xs) by { assert xs[0].Some?; }
    MedianWithin(xs, lo, hi);
  }

  /** The 90th percentile is at least the median. */
  lemma P90AtLeastMedian(xs: seq<Option<real>>)
    ensures NanMedian(xs).Some? ==> NanMedian(xs).value <= NanPercentile(xs, 90).value
  {
    MedianIsPercentile50(xs);
    PercentileMonotone(xs, 50, 90);
  }

  /**
   * The median splits the present values in halves: at least half of them
   * are at most the median and at least half are at least the median. This
   * states the median without reference to sorting.
   */
  lemma MedianSplitsHalves(xs: seq<Option<real>>)
    ensures NanMedian(xs).Some? ==>
      var p, m := Present(xs), NanMedian(xs).value;
      2 * CountAtMost(p, m) >= |p| && 2 * CountAtLeast(p, m) >= |p|
  {
    var p := Present(xs);
    if |p| > 0 {
      var s := Sort(p);
      var m := MiddleOf(s);
      assert NanMedian(xs) == Some(m);
      MiddleSplits(s);
      SortPreservesCounts(p, m);
    }
  }

  /** The middle of a sorted sequence has at least half of the elements on
    * each side. */
  lemma MiddleSplits(s: seq<real>)
    requires Sorted(s) && |s| > 0
    ensures 2 * CountAtMost(s, MiddleOf(s)) >= |s|
    ensures 2 * CountAtLeast(s, MiddleOf(s)) >= |s|
  {
    var n, m := |s|, MiddleOf(s);
    var k := n / 2;
    if n % 2 == 1 {
      assert m == s[k];
      assert forall i :: 0 <= i < k + 1 ==> s[i] <= m;
      assert forall i :: k <= i < n ==> s[i] >= m;
      PrefixAtMost(s, m, k + 1);
      SuffixAtLeast(s, m, k);
    } else {
      assert m == (s[k - 1] + s[k]) / 2.0;
      assert s[k - 1] <= m <= s[k];
      assert forall i :: 0 <= i < k ==> s[i] <= s[k - 1];
      assert forall i :: k <= i < n ==> s[k] <= s[i];
      PrefixAtMost(s, m, k);
      SuffixAtLeast(s, m, k);
    }
  }

  /** Only the present values matter, not their order nor where the NaNs
    * sit: two columns with the same present values as a multiset have the
    * same median and percentiles. */
  lemma OrderIndependent(xs: seq<Option<real>>, ys: seq<Option<real>>, q: nat)
    requires q <= 100
    requires multiset(Present(xs)) == multiset(Present(ys))
    ensures NanMedian(xs) == NanMedian(ys)
    ensures NanPercentile(xs, q) == NanPercentile(ys, q)
  {
    var p, p' := Present(xs), Present(ys);
    assert |p| == |multiset(p)| == |multiset(p')| == |p'|;
    SortIsCanonical(p', Sort(p));
    assert Sort(p) == Sort(p');
  }
}
