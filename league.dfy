/**
 * The league table built by `get_data` (one row per distinct batter) and
 * the leaderboard view of it: batters above a minimum number of batted
 * balls, keyed by name, fastest median launch speed first.
 */
module League {
  import opened Wrappers
  import opened BattedBalls

  /** The batter ids that occur in the events. */
  function Ids(events: seq<Event>): set<BatterId> {
    set e | e in events :: e.batter
  }

  predicate Distinct(s: seq<BatterId>) {
    forall i, j :: 0 <= i < j < |s| ==> s[i] != s[j]
  }

  /** `bbes.batter.unique()`: each id once, in order of first appearance. */
  function Hitters(events: seq<Event>): (h: seq<BatterId>)
    ensures Distinct(h)
    ensures forall id :: id in h <==> id in Ids(events)
  {
    if |events| == 0 then []
    else
      var last := events[|events| - 1];
      var init := events[..|events| - 1];
      assert events == init + [last];
      var u := Hitters(init);
      if last.batter in u then u else u + [last.batter]
  }

  /** Event `k` is the first event of batter `id`. */
  predicate IsFirstEvent(events: seq<Event>, id: BatterId, k: int) {
    0 <= k < |events| && events[k].batter == id &&
    forall j :: 0 <= j < k ==> events[j].batter != id
  }

  /** The first event of a batter after a first event of another batter. */
  lemma FirstEventShift(events: seq<Event>, id: BatterId, k: int)
    requires |events| > 0 && events[0].batter != id
    requires IsFirstEvent(events[1..], id, k)
    ensures IsFirstEvent(events, id, k + 1)
  {
    forall j | 1 <= j < k + 1 ensures events[j].batter != id {
      assert events[j] == events[1..][j - 1];
    }
  }

  /** The first row of a batter is that batter's first event. */
  lemma {:induction false} FirstRow(events: seq<Event>, id: BatterId)
    requires id in Ids(events)
    ensures |RowsOf(events, id)| > 0
    ensures exists k :: IsFirstEvent(events, id, k) && RowsOf(events, id)[0] == events[k]
  {
    var tail := events[1..];
    assert events == [events[0]] + tail;
    RowsOfCons(events[0], tail, id);
    if events[0].batter == id {
      assert IsFirstEvent(events, id, 0);
    } else {
      assert id in Ids(tail);
      FirstRow(tail, id);
      var k :| IsFirstEvent(tail, id, k) && RowsOf(tail, id)[0] == tail[k];
      FirstEventShift(events, id, k);
      assert RowsOf(events, id)[0] == events[k + 1];
    }
  }

  /** `bbes[bbes.batter == hitter].batter_name.iloc[0]`: the name on the
    * batter's first event. */
  function HitterName(events: seq<Event>, id: BatterId): (name: string)
    requires id in Ids(events)
    ensures exists k :: IsFirstEvent(events, id, k) && events[k].batterName == name
  {
    FirstRow(events, id);
    RowsOf(events, id)[0].batterName
  }

  /** The metric columns of one league row. */
  datatype Metrics = Metrics(
    medianLaunchSpeed: Option<real>,
    p90LaunchSpeed: Option<real>,
    medianLaunchAngle: Option<real>,
    optimalPct: real,
    hardHitPct: real)

  /** One row of `league_values`. */
  datatype LeagueRow = LeagueRow(hitterName: string, metrics: Metrics)

  /** A batter that occurs has at least one row, so its percentages exist. */
  lemma HasRows(events: seq<Event>, id: BatterId)
    requires id in Ids(events)
    ensures |RowsOf(events, id)| >= 1
  {
    var e :| e in events && e.batter == id;
    RowsOfMembers(events, id);
    assert e in RowsOf(events, id);
  }

  /** The league row of one batter: every column is its helper applied to
    * the batter's id. */
  function RowFor(events: seq<Event>, id: BatterId): (row: LeagueRow)
    requires id in Ids(events)
    ensures 0.0 <= row.metrics.optimalPct <= 100.0
    ensures 0.0 <= row.metrics.hardHitPct <= 100.0
    ensures OptimalPct(events, id) == Success(row.metrics.optimalPct)
    ensures HardHitPct(events, id) == Success(row.metrics.hardHitPct)
    ensures exists k :: IsFirstEvent(events, id, k) && row.hitterName == events[k].batterName
  {
    HasRows(events, id);
    LeagueRow(
      HitterName(events, id),
      Metrics(
        MedianLaunchSpeed(events, id),
        P90LaunchSpeed(events, id),
        MedianLaunchAngle(events, id),
        OptimalPct(events, id).value,
        HardHitPct(events, id).value))
  }

  /** `league_values`, indexed by batter id: exactly one row per distinct
    * batter in the events, named after that batter's first event. */
  function LeagueTable(events: seq<Event>): (t: map<BatterId, LeagueRow>)
    ensures t.Keys == Ids(events)
  {
    map id | id in Ids(events) :: RowFor(events, id)
  }

  /** Each row of the table holds that batter's reductions, shares that are
    * percentages, and the name on the batter's first event. */
  lemma LeagueTableRow(events: seq<Event>, id: BatterId)
    requires id in Ids(events)
    ensures id in LeagueTable(events)
    ensures
      var m := LeagueTable(events)[id].metrics;
      && m.medianLaunchSpeed == MedianLaunchSpeed(events, id)
      && m.p90LaunchSpeed == P90LaunchSpeed(events, id)
      && m.medianLaunchAngle == MedianLaunchAngle(events, id)
      && OptimalPct(events, id) == Success(m.optimalPct)
      && HardHitPct(events, id) == Success(m.hardHitPct)
      && 0.0 <= m.optimalPct <= 100.0 && 0.0 <= m.hardHitPct <= 100.0
    ensures exists k :: IsFirstEvent(events, id, k) && LeagueTable(events)[id].hitterName == events[k].batterName
  {
    var row := RowFor(events, id);
    assert LeagueTable(events)[id] == row;
  }

  /** Every share of the table is a percentage. */
  lemma LeagueTableShares(events: seq<Event>)
    ensures forall id :: id in LeagueTable(events) ==>
      && 0.0 <= LeagueTable(events)[id].metrics.optimalPct <= 100.0
      && 0.0 <= LeagueTable(events)[id].metrics.hardHitPct <= 100.0
  {
    forall id | id in LeagueTable(events)
      ensures 0.0 <= LeagueTable(events)[id].metrics.optimalPct <= 100.0
      ensures 0.0 <= LeagueTable(events)[id].metrics.hardHitPct <= 100.0
    {
      LeagueTableRow(events, id);
    }
  }

  /** The number of batted balls of a batter, `bbes.batter.value_counts()`. */
  function EventCount(events: seq<Event>, id: BatterId): nat {
    |RowsOf(events, id)|
  }

  /** A batter has balls exactly when it occurs in the events. */
  lemma EventCountPositive(events: seq<Event>, id: BatterId)
    ensures EventCount(events, id) > 0 <==> id in Ids(events)
  {
    RowsOfMembers(events, id);
    if id in Ids(events) {
      HasRows(events, id);
    }
    if EventCount(events, id) > 0 {
      assert RowsOf(events, id)[0] in RowsOf(events, id);
    }
  }

  /** The ids of `ids` with more than `minBbes` batted balls, in order. */
  function Qualified(events: seq<Event>, ids: seq<BatterId>, minBbes: int): (r: seq<BatterId>)
    ensures forall id :: id in r <==> id in ids && EventCount(events, id) > minBbes
    ensures Distinct(ids) ==> Distinct(r)
  {
    if |ids| == 0 then []
    else
      assert ids == [ids[0]] + ids[1..];
      (if EventCount(events, ids[0]) > minBbes then [ids[0]] else [])
        + Qualified(events, ids[1..], minBbes)
  }

  /** `a` may come before `b` when sorting by median launch speed,
    * descending, NaN last. */
  predicate RanksBefore(a: LeagueRow, b: LeagueRow) {
    match (a.metrics.medianLaunchSpeed, b.metrics.medianLaunchSpeed)
    case (Some(x), Some(y)) => x >= y
    case (_, None) => true
    case (None, Some(_)) => false
  }

  predicate DescendingBySpeed(rows: seq<LeagueRow>) {
    forall i, j :: 0 <= i < j < |rows| ==> RanksBefore(rows[i], rows[j])
  }

  function InsertRow(x: LeagueRow, rows: seq<LeagueRow>): (r: seq<LeagueRow>)
    requires DescendingBySpeed(rows)
    ensures DescendingBySpeed(r)
    ensures multiset(r) == multiset(rows) + multiset{x}
    ensures |r| == |rows| + 1
    ensures r[0] == if |rows| == 0 || RanksBefore(x, rows[0]) then x else rows[0]
  {
    if |rows| == 0 || RanksBefore(x, rows[0]) then [x] + rows
    else
      assert rows == [rows[0]] + rows[1..];
      [rows[0]] + InsertRow(x, rows[1..])
  }

  /** `sort_values("median_launch_speed", ascending=False)`. */
  function SortBySpeed(rows: seq<LeagueRow>): (r: seq<LeagueRow>)
    ensures DescendingBySpeed(r)
    ensures multiset(r) == multiset(rows)
  {
    if |rows| == 0 then []
    else
      assert rows == [rows[0]] + rows[1..];
      InsertRow(rows[0], SortBySpeed(rows[1..]))
  }

  lemma {:induction false} DistinctCard(s: seq<BatterId>)
    requires Distinct(s)
    ensures |set x | x in s| == |s|
  {
    if |s| > 0 {
      assert (set x | x in s) == {s[0]} + (set x | x in s[1..]);
      assert s[0] !in s[1..];
      DistinctCard(s[1..]);
    }
  }

  /** There are as many hitters as distinct ids. */
  lemma HittersCount(events: seq<Event>)
    ensures |Hitters(events)| == |Ids(events)|
  {
    var h := Hitters(events);
    DistinctCard(h);
    assert (set x | x in h) == Ids(events);
  }

  /** The set of batters the leaderboard keeps. */
  function QualifiedIds(events: seq<Event>, minBbes: int): set<BatterId> {
    set id | id in Ids(events) && EventCount(events, id) > minBbes
  }

  /** The table rows of the given ids, in the order of the ids. */
  function RowsAt(table: map<BatterId, LeagueRow>, ids: seq<BatterId>): (rows: seq<LeagueRow>)
    requires forall k :: 0 <= k < |ids| ==> ids[k] in table
    ensures |rows| == |ids|
    ensures forall k :: 0 <= k < |ids| ==> rows[k] == table[ids[k]]
    ensures forall row :: row in rows <==> exists id :: id in ids && row == table[id]
  {
    if |ids| == 0 then []
    else
      assert ids == [ids[0]] + ids[1..];
      var rest := RowsAt(table, ids[1..]);
      var rows := [table[ids[0]]] + rest;
      forall row
        ensures row in rows <==> exists id :: id in ids && row == table[id]
      {
        if row in rest {
          var id :| id in ids[1..] && row == table[id];
          assert id in ids;
        }
        if exists id :: id in ids && row == table[id] {
          var id :| id in ids && row == table[id];
          if id != ids[0] {
            assert id in ids[1..];
          }
        }
      }
      rows
  }

  /** Sorting keeps the elements and the length. */
  lemma SortKeepsRows(rows: seq<LeagueRow>)
    ensures forall row :: row in SortBySpeed(rows) <==> row in rows
    ensures |SortBySpeed(rows)| == |rows|
  {
    var r := SortBySpeed(rows);
    assert forall row :: row in r <==> row in multiset(r);
    assert |r| == |multiset(r)| == |multiset(rows)| == |rows|;
  }

  /** The kept ids are exactly the qualifying batters, each once. */
  lemma QualifiedHitters(events: seq<Event>, minBbes: int)
    ensures forall id :: id in Qualified(events, Hitters(events), minBbes) <==> id in QualifiedIds(events, minBbes)
    ensures |Qualified(events, Hitters(events), minBbes)| == |QualifiedIds(events, minBbes)|
  {
    var kept := Qualified(events, Hitters(events), minBbes);
    assert (set x | x in kept) == QualifiedIds(events, minBbes);
    DistinctCard(kept);
  }

  /** The kept ids, `Qualified` over the hitters: each qualifying batter
    * once. */
  function KeptIds(events: seq<Event>, minBbes: int): (kept: seq<BatterId>)
    ensures Distinct(kept)
    ensures forall id :: id in kept <==> id in QualifiedIds(events, minBbes)
    ensures |kept| == |QualifiedIds(events, minBbes)|
    ensures forall k :: 0 <= k < |kept| ==> kept[k] in LeagueTable(events)
  {
    QualifiedHitters(events, minBbes);
    var kept := Qualified(events, Hitters(events), minBbes);
    assert forall k :: 0 <= k < |kept| ==> kept[k] in kept;
    kept
  }

  /** The table rows of the kept ids, `league_values.loc[kept]`: row k is
    * the row of the k-th kept batter. */
  function QualifiedRows(events: seq<Event>, minBbes: int): (rows: seq<LeagueRow>)
    ensures |rows| == |KeptIds(events, minBbes)|
    ensures forall k :: 0 <= k < |rows| ==>
      rows[k] == LeagueTable(events)[KeptIds(events, minBbes)[k]]
    ensures forall row :: row in rows <==>
      exists id :: id in QualifiedIds(events, minBbes) && row == LeagueTable(events)[id]
  {
    RowsAt(LeagueTable(events), KeptIds(events, minBbes))
  }

  /**
   * The leaderboard: the league rows of the batters with more than
   * `minBbes` batted balls, one row each, keyed by name, ordered by median
   * launch speed from fastest to slowest with NaN last.
   */
  function Leaderboard(events: seq<Event>, minBbes: int): (board: seq<LeagueRow>)
    ensures DescendingBySpeed(board)
    ensures multiset(board) == multiset(QualifiedRows(events, minBbes))
    ensures forall row :: row in board <==>
      exists id :: id in QualifiedIds(events, minBbes) && row == LeagueTable(events)[id]
    ensures |board| == |QualifiedIds(events, minBbes)|
  {
    var rows := QualifiedRows(events, minBbes);
    SortKeepsRows(rows);
    SortBySpeed(rows)
  }

  /** With a minimum of 0 every batter is on the leaderboard. */
  lemma LeaderboardAtZeroKeepsAll(events: seq<Event>)
    ensures |Leaderboard(events, 0)| == |LeagueTable(events)|
    ensures forall id :: id in LeagueTable(events) ==> LeagueTable(events)[id] in Leaderboard(events, 0)
  {
    forall id | id in Ids(events) ensures EventCount(events, id) > 0 {
      HasRows(events, id);
    }
    assert QualifiedIds(events, 0) == Ids(events);
    assert |LeagueTable(events)| == |LeagueTable(events).Keys|;
  }
}
