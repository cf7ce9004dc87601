/**
 * scipy.stats.percentileofscore with its default kind 'rank': with
 * L = #(d < v), R = #(d <= v) and N = |d|, the rank is
 * (L + R + [R > L]) * 50 / N.
 */
module PercentileRank {
  import opened Wrappers
  import opened OrderStats
  import opened NanStats

  /** A numerator `k` of at most 2n over `n` values, scaled by 50 / n:
    * a percentage. */
  function Scale(k: nat, n: nat): (r: real)
    requires 0 < n && k <= 2 * n
    ensures 0.0 <= r <= 100.0
    ensures r == 0.0 <==> k == 0
    ensures r == 100.0 <==> k == 2 * n
  {
    var f := 50.0 / n as real;
    assert f * n as real == 50.0;
    MulGrows(0.0, k as real, f);
    MulGrows(k as real, (2 * n) as real, f);
    k as real * f
  }

  lemma ScaleMonotone(k1: nat, k2: nat, n: nat)
    requires 0 < n && k1 <= k2 <= 2 * n
    ensures Scale(k1, n) <= Scale(k2, n)
  {
    var f := 50.0 / n as real;
    assert f > 0.0;
    var a, b := k1 as real, k2 as real;
    var x, y := Scale(k1, n), Scale(k2, n);
    assert x == a * f && y == b * f;
    MulNonneg(b - a, f);
    assert y - x == (b - a) * f;
  }

  /** The numerator L + R + [R > L] of the rank. */
  function RankNumerator(d: seq<real>, score: real): (k: nat)
    ensures k <= 2 * |d|
    ensures k == 0 <==> CountAtMost(d, score) == 0
  {
    BelowAtMost(d, score);
    var left := CountBelow(d, score);
    var right := CountAtMost(d, score);
    left + right + (if left < right then 1 else 0)
  }

  /** `percentileofscore(d, score)`; `None` when `d` is empty, where the
    * division by the size of the distribution gives NaN. */
  function PercentileOfScore(d: seq<real>, score: real): (r: Option<real>)
    ensures r.None? <==> |d| == 0
    ensures r.Some? ==> 0.0 <= r.value <= 100.0
  {
    if |d| == 0 then None
    else
      Some(Scale(RankNumerator(d, score), |d|))
  }

  /** The rank never decreases as the score grows. */
  lemma RankNumeratorMonotone(d: seq<real>, v: real, w: real)
    requires v <= w
    ensures RankNumerator(d, v) <= RankNumerator(d, w)
  {
    CountsMonotone(d, v, w);
    BelowAtMost(d, v);
    BelowAtMost(d, w);
  }

  lemma PercentileMonotoneInScore(d: seq<real>, v: real, w: real)
    requires |d| > 0 && v <= w
    ensures PercentileOfScore(d, v).value <= PercentileOfScore(d, w).value
  {
    var kv, kw := RankNumerator(d, v), RankNumerator(d, w);
    RankNumeratorMonotone(d, v, w);
    ScaleMonotone(kv, kw, |d|);
  }

  /** A score below every value of the distribution ranks 0 and only such
    * a score does. */
  lemma {:induction false} CountAtMostZero(d: seq<real>, v: real)
    ensures CountAtMost(d, v) == 0 <==> forall k :: 0 <= k < |d| ==> d[k] > v
  {
    if |d| > 0 {
      CountAtMostZero(d[1..], v);
      assert forall k :: 1 <= k < |d| ==> d[k] == d[1..][k - 1];
    }
  }

  lemma PercentileZeroIff(d: seq<real>, v: real)
    requires |d| > 0
    ensures PercentileOfScore(d, v).value == 0.0 <==> forall k :: 0 <= k < |d| ==> d[k] > v
  {
    CountAtMostZero(d, v);
  }

  /** A score above every value of the distribution ranks 100. */
  lemma {:induction false} CountsAllBelow(d: seq<real>, v: real)
    requires forall k :: 0 <= k < |d| ==> d[k] < v
    ensures CountBelow(d, v) == |d| && CountAtMost(d, v) == |d|
  {
    if |d| > 0 {
      assert forall k :: 0 <= k < |d[1..]| ==> d[1..][k] == d[k + 1];
      CountsAllBelow(d[1..], v);
    }
  }

  lemma PercentileAboveAll(d: seq<real>, v: real)
    requires |d| > 0
    requires forall k :: 0 <= k < |d| ==> d[k] < v
    ensures PercentileOfScore(d, v) == Some(100.0)
  {
    CountsAllBelow(d, v);
    assert RankNumerator(d, v) == 2 * |d|;
  }

  /**
   * The rank of a score against a league column whose entries may be NaN.
   * A NaN score, or a NaN anywhere in the column, gives NaN (scipy's
   * default nan_policy 'propagate').
   */
  function RankInColumn(column: seq<Option<real>>, score: Option<real>): (r: Option<real>)
    ensures r.Some? ==> 0.0 <= r.value <= 100.0
    ensures r.Some? <==> score.Some? && |column| > 0 && forall k :: 0 <= k < |column| ==> column[k].Some?
  {
    if score.None? || exists k :: 0 <= k < |column| && column[k].None? then None
    else
      AllPresent(column);
      PercentileOfScore(Present(column), score.value)
  }

  /** A non-empty column without NaN has a median and ranks every score. */
  lemma RankedWhenPresent(column: seq<Option<real>>, score: real)
    requires |column| > 0
    requires forall k :: 0 <= k < |column| ==> column[k].Some?
    ensures NanMedian(column).Some?
    ensures RankInColumn(column, Some(score)).Some?
  {
  }

  /** Without NaNs, Present keeps every entry. */
  lemma {:induction false} AllPresent(xs: seq<Option<real>>)
    requires forall k :: 0 <= k < |xs| ==> xs[k].Some?
    ensures |Present(xs)| == |xs|
    ensures forall k :: 0 <= k < |xs| ==> Present(xs)[k] == xs[k].value
  {
    if |xs| > 0 {
      assert forall k :: 0 <= k < |xs[1..]| ==> xs[1..][k] == xs[k + 1];
      AllPresent(xs[1..]);
    }
  }

  /** An example: a hard-hit column [50, 60, 70, 80, 90] and a
    * player at 70: L = 2, R = 3, so the rank is (2 + 3 + 1) * 10 = 60. */
  lemma RankExample()
    ensures PercentileOfScore([50.0, 60.0, 70.0, 80.0, 90.0], 70.0) == Some(60.0)
  {
    var d := [50.0, 60.0, 70.0, 80.0, 90.0];
    assert CountBelow(d, 70.0) == 2;
    assert CountAtMost(d, 70.0) == 3;
  }
}
