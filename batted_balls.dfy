/**
 * Batted-ball events and the per-player reductions of the dashboard:
 * median and 90th-percentile launch speed, median launch angle, the share
 * of balls hit at an optimal angle and the share of hard-hit balls.
 */
module BattedBalls {
  import opened Wrappers
  import opened OrderStats
  import opened NanStats

  type BatterId = int

  /** One batted ball. A missing speed or angle is NaN in the table. */
  datatype Event = Event(
    batter: BatterId,
    batterName: string,
    launchSpeed: Option<real>,
    launchAngle: Option<real>)

  /** The exception the percentage helpers raise for a batter with no rows
    * (Python's integer division by a zero `len`). */
  datatype Error = ZeroDivision

  /** A ball is hard hit at 95 mph or more. */
  const HardHitSpeed: real := 95.0

  /** The optimal launch-angle range, both ends included. */
  const OptimalAngleLow: real := 15.0
  const OptimalAngleHigh: real := 40.0

  /** The rows of one batter, `bbes[bbes.batter == playerid]`. */
  function RowsOf(events: seq<Event>, id: BatterId): (rows: seq<Event>)
    ensures |rows| <= |events|
  {
    if |events| == 0 then []
    else
      (if events[0].batter == id then [events[0]] else []) + RowsOf(events[1..], id)
  }

  /** The rows of a batter are exactly the events of that batter. */
  lemma {:induction false} RowsOfMembers(events: seq<Event>, id: BatterId)
    ensures forall e :: e in RowsOf(events, id) <==> e in events && e.batter == id
  {
    if |events| > 0 {
      assert events == [events[0]] + events[1..];
      RowsOfMembers(events[1..], id);
    }
  }

  /** The launch-speed column of some rows. */
  function Speeds(rows: seq<Event>): (c: seq<Option<real>>)
    ensures |c| == |rows|
    ensures forall k :: 0 <= k < |rows| ==> c[k] == rows[k].launchSpeed
  {
    seq(|rows|, k requires 0 <= k < |rows| => rows[k].launchSpeed)
  }

  /** The launch-angle column of some rows. */
  function Angles(rows: seq<Event>): (c: seq<Option<real>>)
    ensures |c| == |rows|
    ensures forall k :: 0 <= k < |rows| ==> c[k] == rows[k].launchAngle
  {
    seq(|rows|, k requires 0 <= k < |rows| => rows[k].launchAngle)
  }

  /** The speed column is all NaN exactly when every row's speed is
    * missing. */
  lemma SpeedsMissing(rows: seq<Event>)
    ensures AllMissing(Speeds(rows)) <==> forall e :: e in rows ==> e.launchSpeed.None?
  {
    var c := Speeds(rows);
    if AllMissing(c) {
      forall e | e in rows ensures e.launchSpeed.None? {
        var k :| 0 <= k < |rows| && rows[k] == e;
        assert c[k].None?;
      }
    }
  }

  /** The angle column is all NaN exactly when every row's angle is
    * missing. */
  lemma AnglesMissing(rows: seq<Event>)
    ensures AllMissing(Angles(rows)) <==> forall e :: e in rows ==> e.launchAngle.None?
  {
    var c := Angles(rows);
    if AllMissing(c) {
      forall e | e in rows ensures e.launchAngle.None? {
        var k :| 0 <= k < |rows| && rows[k] == e;
        assert c[k].None?;
      }
    }
  }

  /** The columns of concatenated rows are the concatenated columns. */
  lemma ColumnsSplit(a: seq<Event>, b: seq<Event>)
    ensures Speeds(a + b) == Speeds(a) + Speeds(b)
    ensures Angles(a + b) == Angles(a) + Angles(b)
  {
    assert forall k :: 0 <= k < |a + b| ==> Speeds(a + b)[k] == (Speeds(a) + Speeds(b))[k];
    assert forall k :: 0 <= k < |a + b| ==> Angles(a + b)[k] == (Angles(a) + Angles(b))[k];
  }

  /** The mask `(launch_angle >= 15) & (launch_angle <= 40)`; NaN fails it. */
  predicate IsOptimalAngle(e: Event) {
    e.launchAngle.Some? && OptimalAngleLow <= e.launchAngle.value <= OptimalAngleHigh
  }

  /** The mask `launch_speed >= 95`; NaN fails it. */
  predicate IsHardHit(e: Event) {
    e.launchSpeed.Some? && e.launchSpeed.value >= HardHitSpeed
  }

  /** The rows with an optimal launch angle. */
  function OptimalRows(rows: seq<Event>): (r: seq<Event>)
    ensures |r| <= |rows|
  {
    if |rows| == 0 then []
    else
      (if IsOptimalAngle(rows[0]) then [rows[0]] else []) + OptimalRows(rows[1..])
  }

  /** The optimal rows are exactly the rows with an optimal angle. */
  lemma {:induction false} OptimalRowsMembers(rows: seq<Event>)
    ensures forall e :: e in OptimalRows(rows) <==> e in rows && IsOptimalAngle(e)
  {
    if |rows| > 0 {
      assert rows == [rows[0]] + rows[1..];
      OptimalRowsMembers(rows[1..]);
    }
  }

  /** The hard-hit rows. */
  function HardHitRows(rows: seq<Event>): (r: seq<Event>)
    ensures |r| <= |rows|
  {
    if |rows| == 0 then []
    else
      (if IsHardHit(rows[0]) then [rows[0]] else []) + HardHitRows(rows[1..])
  }

  /** The hard-hit rows are exactly the rows hit at 95 mph or more. */
  lemma {:induction false} HardHitRowsMembers(rows: seq<Event>)
    ensures forall e :: e in HardHitRows(rows) <==> e in rows && IsHardHit(e)
  {
    if |rows| > 0 {
      assert rows == [rows[0]] + rows[1..];
      HardHitRowsMembers(rows[1..]);
    }
  }

  /** `part / whole * 100` with Python's error on a zero denominator. */
  function Percent(part: nat, whole: nat): (r: Result<real, Error>)
    requires part <= whole
    ensures r.Failure? <==> whole == 0
    ensures r.Success? ==> 0.0 <= r.value <= 100.0
    ensures r.Success? ==> (r.value == 0.0 <==> part == 0)
    ensures r.Success? ==> (r.value == 100.0 <==> part == whole)
    ensures r.Success? ==> r.value * whole as real == 100.0 * part as real
  {
    if whole == 0 then Failure(ZeroDivision)
    else Success(part as real / whole as real * 100.0)
  }

  /** All rows of a sequence have the property exactly when filtering on it
    * keeps them all. */
  lemma {:induction false} OptimalRowsAll(rows: seq<Event>)
    ensures |OptimalRows(rows)| == |rows| <==> forall e :: e in rows ==> IsOptimalAngle(e)
    ensures |OptimalRows(rows)| == 0 <==> forall e :: e in rows ==> !IsOptimalAngle(e)
  {
    if |rows| > 0 {
      OptimalRowsAll(rows[1..]);
      assert rows == [rows[0]] + rows[1..];
    }
  }

  lemma {:induction false} HardHitRowsAll(rows: seq<Event>)
    ensures |HardHitRows(rows)| == |rows| <==> forall e :: e in rows ==> IsHardHit(e)
    ensures |HardHitRows(rows)| == 0 <==> forall e :: e in rows ==> !IsHardHit(e)
  {
    if |rows| > 0 {
      HardHitRowsAll(rows[1..]);
      assert rows == [rows[0]] + rows[1..];
    }
  }

  /** `get_median_launch_speed`: NaN exactly when every speed of the batter
    * is missing; otherwise between the batter's slowest and fastest ball. */
  function MedianLaunchSpeed(events: seq<Event>, id: BatterId): (r: Option<real>)
    ensures r.None? <==> forall e :: e in RowsOf(events, id) ==> e.launchSpeed.None?
    ensures r.Some? ==>
      var p := Present(Speeds(RowsOf(events, id)));
      MinOf(p) <= r.value <= MaxOf(p)
  {
    MedianBounds(Speeds(RowsOf(events, id)));
    NanMedian(Speeds(RowsOf(events, id)))
  }

  /** `get_90th_launch_speed`: NaN exactly when every speed is missing;
    * otherwise at least the median and at most the fastest ball. */
  function P90LaunchSpeed(events: seq<Event>, id: BatterId): (r: Option<real>)
    ensures r.None? <==> forall e :: e in RowsOf(events, id) ==> e.launchSpeed.None?
    ensures r.Some? ==>
      var p := Present(Speeds(RowsOf(events, id)));
      MedianLaunchSpeed(events, id).value <= r.value <= MaxOf(p)
  {
    var speeds := Speeds(RowsOf(events, id));
    P90AtLeastMedian(speeds);
    PercentileBounds(speeds, 90);
    NanPercentile(speeds, 90)
  }

  /** `get_median_launch_angle`, with the same NaN policy. */
  function MedianLaunchAngle(events: seq<Event>, id: BatterId): (r: Option<real>)
    ensures r.None? <==> forall e :: e in RowsOf(events, id) ==> e.launchAngle.None?
    ensures r.Some? ==>
      var p := Present(Angles(RowsOf(events, id)));
      MinOf(p) <= r.value <= MaxOf(p)
  {
    MedianBounds(Angles(RowsOf(events, id)));
    NanMedian(Angles(RowsOf(events, id)))
  }

  /** `get_optimal_pct`: the share, in percent, of ALL the batter's rows
    * whose angle is within 15 to 40 degrees inclusive; a row with a missing
    * angle counts against it. A batter with no rows raises. */
  function OptimalPct(events: seq<Event>, id: BatterId): (r: Result<real, Error>)
    ensures r.Failure? <==> RowsOf(events, id) == []
    ensures r.Success? ==> 0.0 <= r.value <= 100.0
    ensures r.Success? ==> (r.value == 100.0 <==>
      forall e :: e in RowsOf(events, id) ==>
        e.launchAngle.Some? && 15.0 <= e.launchAngle.value <= 40.0)
    ensures r.Success? ==> (r.value == 0.0 <==>
      forall e :: e in RowsOf(events, id) ==>
        !(e.launchAngle.Some? && 15.0 <= e.launchAngle.value <= 40.0))
  {
    var hitter := RowsOf(events, id);
    OptimalRowsAll(hitter);
    Percent(|OptimalRows(hitter)|, |hitter|)
  }

  /** `get_hardhit_pct`: the share, in percent, of ALL the batter's rows hit
    * at 95 mph or more; a row with a missing speed counts against it. */
  function HardHitPct(events: seq<Event>, id: BatterId): (r: Result<real, Error>)
    ensures r.Failure? <==> RowsOf(events, id) == []
    ensures r.Success? ==> 0.0 <= r.value <= 100.0
    ensures r.Success? ==> (r.value == 100.0 <==>
      forall e :: e in RowsOf(events, id) ==> e.launchSpeed.Some? && e.launchSpeed.value >= 95.0)
    ensures r.Success? ==> (r.value == 0.0 <==>
      forall e :: e in RowsOf(events, id) ==> !(e.launchSpeed.Some? && e.launchSpeed.value >= 95.0))
  {
    var hitter := RowsOf(events, id);
    HardHitRowsAll(hitter);
    Percent(|HardHitRows(hitter)|, |hitter|)
  }

  /** The rows whose angle is present but outside the optimal range. */
  function OutsideRows(rows: seq<Event>): (r: seq<Event>)
    ensures forall e :: e in r <==> e in rows && e.launchAngle.Some? && !IsOptimalAngle(e)
  {
    if |rows| == 0 then []
    else
      assert rows == [rows[0]] + rows[1..];
      (if rows[0].launchAngle.Some? && !IsOptimalAngle(rows[0]) then [rows[0]] else [])
        + OutsideRows(rows[1..])
  }

  /** The rows whose angle is missing. */
  function MissingAngleRows(rows: seq<Event>): (r: seq<Event>)
    ensures forall e :: e in r <==> e in rows && e.launchAngle.None?
  {
    if |rows| == 0 then []
    else
      assert rows == [rows[0]] + rows[1..];
      (if rows[0].launchAngle.None? then [rows[0]] else []) + MissingAngleRows(rows[1..])
  }

  /** Optimal, present-but-outside and missing angles partition a batter's
    * rows, so the denominator of the optimal share is all three together. */
  lemma {:induction false} AnglePartition(rows: seq<Event>)
    ensures |OptimalRows(rows)| + |OutsideRows(rows)| + |MissingAngleRows(rows)| == |rows|
  {
    if |rows| > 0 { AnglePartition(rows[1..]); }
  }

  /** A new ball for the batter with a missing angle adds to the
    * denominator of the optimal share and not to its numerator. */
  lemma {:induction false} MissingAngleOnlyInDenominator(events: seq<Event>, e: Event)
    requires e.launchAngle.None?
    ensures RowsOf(events + [e], e.batter) == RowsOf(events, e.batter) + [e]
    ensures |OptimalRows(RowsOf(events + [e], e.batter))| == |OptimalRows(RowsOf(events, e.batter))|
  {
    RowsOfAppend(events, e);
    OptimalRowsAppend(RowsOf(events, e.batter), e);
  }

  /** A speed missing likewise counts only in the hard-hit denominator. */
  lemma {:induction false} MissingSpeedOnlyInDenominator(events: seq<Event>, e: Event)
    requires e.launchSpeed.None?
    ensures RowsOf(events + [e], e.batter) == RowsOf(events, e.batter) + [e]
    ensures |HardHitRows(RowsOf(events + [e], e.batter))| == |HardHitRows(RowsOf(events, e.batter))|
  {
    RowsOfAppend(events, e);
    HardHitRowsAppend(RowsOf(events, e.batter), e);
  }

  lemma {:induction false} RowsOfAppend(events: seq<Event>, e: Event)
    ensures RowsOf(events + [e], e.batter) == RowsOf(events, e.batter) + [e]
  {
    if |events| == 0 {
      assert events + [e] == [e];
    } else {
      assert (events + [e])[1..] == events[1..] + [e];
      RowsOfAppend(events[1..], e);
    }
  }

  lemma {:induction false} OptimalRowsAppend(rows: seq<Event>, e: Event)
    ensures OptimalRows(rows + [e]) == OptimalRows(rows) + (if IsOptimalAngle(e) then [e] else [])
  {
    if |rows| == 0 {
      assert rows + [e] == [e] + [];
      OptimalRowsCons(e, []);
    } else {
      var t := rows[1..];
      assert rows == [rows[0]] + t;
      assert rows + [e] == [rows[0]] + (t + [e]);
      OptimalRowsCons(rows[0], t + [e]);
      OptimalRowsCons(rows[0], t);
      OptimalRowsAppend(t, e);
    }
  }

  lemma {:induction false} HardHitRowsAppend(rows: seq<Event>, e: Event)
    ensures HardHitRows(rows + [e]) == HardHitRows(rows) + (if IsHardHit(e) then [e] else [])
  {
    if |rows| == 0 {
      assert rows + [e] == [e] + [];
      HardHitRowsCons(e, []);
    } else {
      var t := rows[1..];
      assert rows == [rows[0]] + t;
      assert rows + [e] == [rows[0]] + (t + [e]);
      HardHitRowsCons(rows[0], t + [e]);
      HardHitRowsCons(rows[0], t);
      HardHitRowsAppend(t, e);
    }
  }

  /** Three balls of batter 1 at (speed, angle) (90, 10), (100, 20) and
    * (80, 50), and one ball of batter 2 at (95, 25). */
  function ExampleEvents(): seq<Event> {
    [Event(1, "p1", Some(90.0), Some(10.0)),
     Event(1, "p1", Some(100.0), Some(20.0)),
     Event(1, "p1", Some(80.0), Some(50.0)),
     Event(2, "p2", Some(95.0), Some(25.0))]
  }

  lemma RowsOfCons(e: Event, t: seq<Event>, id: BatterId)
    ensures RowsOf([e] + t, id) == (if e.batter == id then [e] else []) + RowsOf(t, id)
  {
    assert ([e] + t)[1..] == t;
  }

  lemma OptimalRowsCons(e: Event, t: seq<Event>)
    ensures OptimalRows([e] + t) == (if IsOptimalAngle(e) then [e] else []) + OptimalRows(t)
  {
    assert ([e] + t)[1..] == t;
  }

  lemma HardHitRowsCons(e: Event, t: seq<Event>)
    ensures HardHitRows([e] + t) == (if IsHardHit(e) then [e] else []) + HardHitRows(t)
  {
    assert ([e] + t)[1..] == t;
  }

  /** Selecting the rows of a batter distributes over concatenation. */
  lemma {:induction false} RowsOfSplit(a: seq<Event>, b: seq<Event>, id: BatterId)
    ensures RowsOf(a + b, id) == RowsOf(a, id) + RowsOf(b, id)
  {
    if |a| > 0 {
      var x, t := a[0], a[1..];
      assert a + b == [x] + (t + b);
      assert a == [x] + t;
      RowsOfCons(x, t + b, id);
      RowsOfCons(x, t, id);
      RowsOfSplit(t, b, id);
      var own := if x.batter == id then [x] else [];
      assert RowsOf(a + b, id) == own + (RowsOf(t, id) + RowsOf(b, id));
      assert RowsOf(a, id) == own + RowsOf(t, id);
    } else {
      assert a + b == b;
    }
  }

  /** Rows that all belong to `id` are all selected. */
  lemma {:induction false} RowsOfAll(rows: seq<Event>, id: BatterId)
    requires forall k :: 0 <= k < |rows| ==> rows[k].batter == id
    ensures RowsOf(rows, id) == rows
  {
    if |rows| > 0 {
      assert rows == [rows[0]] + rows[1..];
      RowsOfCons(rows[0], rows[1..], id);
      assert forall k :: 0 <= k < |rows[1..]| ==> rows[1..][k] == rows[k + 1];
      RowsOfAll(rows[1..], id);
    }
  }

  /** Rows none of which belongs to `id` are all dropped. */
  lemma {:induction false} RowsOfNone(rows: seq<Event>, id: BatterId)
    requires forall k :: 0 <= k < |rows| ==> rows[k].batter != id
    ensures RowsOf(rows, id) == []
  {
    if |rows| > 0 {
      assert rows == [rows[0]] + rows[1..];
      RowsOfCons(rows[0], rows[1..], id);
      assert forall k :: 0 <= k < |rows[1..]| ==> rows[1..][k] == rows[k + 1];
      RowsOfNone(rows[1..], id);
    }
  }

  /** The example's rows of batter 1 are its first three events, those of
    * batter 2 its last one. */
  lemma ExampleRows()
    ensures RowsOf(ExampleEvents(), 1) == ExampleEvents()[..3]
    ensures RowsOf(ExampleEvents(), 2) == ExampleEvents()[3..]
  {
    var events := ExampleEvents();
    var first, last := events[..3], events[3..];
    assert events == first + last;
    assert first == [events[0], events[1], events[2]] && last == [events[3]];
    RowsOfSplit(first, last, 1);
    RowsOfSplit(first, last, 2);
    RowsOfAll(first, 1);
    RowsOfNone(first, 2);
    RowsOfNone(last, 1);
    RowsOfAll(last, 2);
  }

  /** Batter 1 has one ball in three at an optimal angle (only the
    * 20-degree one) and one in three hard hit (only the 100 mph one). */
  lemma ExampleShares1()
    ensures OptimalPct(ExampleEvents(), 1) == Success(100.0 / 3.0)
    ensures HardHitPct(ExampleEvents(), 1) == Success(100.0 / 3.0)
  {
    ExampleRows();
    var events := ExampleEvents();
    var e1, e2, e3 := events[0], events[1], events[2];
    assert events[..3] == [e1] + ([e2] + [e3]);
    OptimalRowsCons(e3, []);
    OptimalRowsCons(e2, [e3]);
    OptimalRowsCons(e1, [e2] + [e3]);
    HardHitRowsCons(e3, []);
    HardHitRowsCons(e2, [e3]);
    HardHitRowsCons(e1, [e2] + [e3]);
    assert |OptimalRows(events[..3])| == 1;
    assert |HardHitRows(events[..3])| == 1;
  }

  /** Both bounds of the optimal-angle mask and the hard-hit threshold are
    * inclusive; values just outside them, and NaN, fail. */
  lemma MaskBoundsInclusive()
    ensures IsOptimalAngle(Event(1, "p1", None, Some(15.0)))
    ensures IsOptimalAngle(Event(1, "p1", None, Some(40.0)))
    ensures !IsOptimalAngle(Event(1, "p1", None, Some(14.5)))
    ensures !IsOptimalAngle(Event(1, "p1", None, Some(40.5)))
    ensures !IsOptimalAngle(Event(1, "p1", None, None))
    ensures IsHardHit(Event(1, "p1", Some(95.0), None))
    ensures !IsHardHit(Event(1, "p1", Some(94.5), None))
    ensures !IsHardHit(Event(1, "p1", None, None))
  {
  }

  /** Batter 2's single ball is both optimal and hard hit. */
  lemma ExampleShares2()
    ensures OptimalPct(ExampleEvents(), 2) == Success(100.0)
    ensures HardHitPct(ExampleEvents(), 2) == Success(100.0)
  {
    ExampleRows();
    var events := ExampleEvents();
    var e4 := events[3];
    assert events[3..] == [e4] + [];
    OptimalRowsCons(e4, []);
    HardHitRowsCons(e4, []);
  }
}
