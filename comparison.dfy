/**
 * The individual-player view: one player's values recomputed from the rows
 * selected by name, the league reference (the NaN-ignoring median of each
 * league column) and the player's percentile rank within that column.
 */
module Comparison {
  import opened Wrappers
  import opened NanStats
  import opened PercentileRank
  import opened BattedBalls
  import opened League

  /** The rows of one player, `bbes[bbes["batter_name"] == player]`. */
  function NamedRows(events: seq<Event>, name: string): (rows: seq<Event>)
    ensures |rows| <= |events|
  {
    if |events| == 0 then []
    else
      (if events[0].batterName == name then [events[0]] else []) + NamedRows(events[1..], name)
  }

  /** The selection by name holds exactly the events with that name, so it
    * is empty exactly when no event has the name. */
  lemma {:induction false} NamedRowsMembers(events: seq<Event>, name: string)
    ensures forall e :: e in NamedRows(events, name) <==> e in events && e.batterName == name
    ensures |NamedRows(events, name)| == 0 <==> forall e :: e in events ==> e.batterName != name
  {
    if |events| > 0 {
      assert events == [events[0]] + events[1..];
      assert events[0] in events;
      NamedRowsMembers(events[1..], name);
    }
  }

  lemma NamedRowsCons(e: Event, t: seq<Event>, name: string)
    ensures NamedRows([e] + t, name) == (if e.batterName == name then [e] else []) + NamedRows(t, name)
  {
    assert ([e] + t)[1..] == t;
  }

  /** Selecting by name distributes over concatenation, so each event of
    * that name is kept once, in order. */
  lemma {:induction false} NamedRowsSplit(a: seq<Event>, b: seq<Event>, name: string)
    ensures NamedRows(a + b, name) == NamedRows(a, name) + NamedRows(b, name)
  {
    if |a| > 0 {
      var x, t := a[0], a[1..];
      assert a + b == [x] + (t + b);
      assert a == [x] + t;
      NamedRowsCons(x, t + b, name);
      NamedRowsCons(x, t, name);
      NamedRowsSplit(t, b, name);
      var own := if x.batterName == name then [x] else [];
      assert NamedRows(a + b, name) == own + (NamedRows(t, name) + NamedRows(b, name));
      assert NamedRows(a, name) == own + NamedRows(t, name);
    } else {
      assert a + b == b;
    }
  }

  /** A single event is selected exactly when it has the name. */
  lemma NamedRowsOne(e: Event, name: string)
    ensures NamedRows([e], name) == if e.batterName == name then [e] else []
  {
    NamedRowsCons(e, [], name);
    assert [e] + [] == [e];
  }

  /** The league columns the comparison reads. */
  datatype Stat = MedianSpeed | P90Speed | MedianAngle | OptimalShare | HardHitShare

  function StatOf(m: Metrics, stat: Stat): Option<real> {
    match stat
    case MedianSpeed => m.medianLaunchSpeed
    case P90Speed => m.p90LaunchSpeed
    case MedianAngle => m.medianLaunchAngle
    case OptimalShare => Some(m.optimalPct)
    case HardHitShare => Some(m.hardHitPct)
  }

  /** `league_values[column]`: the entry of `stat` for each id of `order`,
    * in that order. */
  function Column(table: map<BatterId, LeagueRow>, order: seq<BatterId>, stat: Stat): (c: seq<Option<real>>)
    requires forall k :: 0 <= k < |order| ==> order[k] in table
    ensures |c| == |order|
    ensures forall k :: 0 <= k < |order| ==> c[k] == StatOf(table[order[k]].metrics, stat)
  {
    seq(|order|, k requires 0 <= k < |order| => StatOf(table[order[k]].metrics, stat))
  }

  /** Every batter of the table order has a row. */
  lemma HittersInTable(events: seq<Event>)
    ensures forall k :: 0 <= k < |Hitters(events)| ==> Hitters(events)[k] in LeagueTable(events)
  {
    var h, t := Hitters(events), LeagueTable(events);
    forall k | 0 <= k < |h| ensures h[k] in t {
      assert h[k] in h;
    }
  }

  /** The column of `stat` over the league table, in batter order. */
  function LeagueColumn(events: seq<Event>, stat: Stat): (c: seq<Option<real>>)
    ensures |c| == |Ids(events)| == |Hitters(events)|
    ensures forall k :: 0 <= k < |c| ==>
      Hitters(events)[k] in LeagueTable(events) && c[k] == StatOf(LeagueTable(events)[Hitters(events)[k]].metrics, stat)
  {
    HittersCount(events);
    HittersInTable(events);
    Column(LeagueTable(events), Hitters(events), stat)
  }

  /** Every batter's entry occurs in the league column. */
  lemma LeagueColumnHasEveryBatter(events: seq<Event>, stat: Stat)
    ensures forall id :: id in Ids(events) ==>
      id in LeagueTable(events) && StatOf(LeagueTable(events)[id].metrics, stat) in LeagueColumn(events, stat)
  {
    var h, t := Hitters(events), LeagueTable(events);
    HittersInTable(events);
    var c := LeagueColumn(events, stat);
    assert c == Column(t, h, stat);
    forall id | id in Ids(events)
      ensures id in t && StatOf(t[id].metrics, stat) in c
    {
      var k :| 0 <= k < |h| && h[k] == id;
      assert c[k] == StatOf(t[id].metrics, stat);
    }
  }

  /** A share column holds a percentage for every batter of a table whose
    * shares are percentages. */
  lemma ShareColumnBounds(table: map<BatterId, LeagueRow>, order: seq<BatterId>, stat: Stat)
    requires stat.OptimalShare? || stat.HardHitShare?
    requires forall k :: 0 <= k < |order| ==> order[k] in table
    requires forall id :: id in table ==>
      0.0 <= table[id].metrics.optimalPct <= 100.0 && 0.0 <= table[id].metrics.hardHitPct <= 100.0
    ensures forall k :: 0 <= k < |order| ==>
      Column(table, order, stat)[k].Some? && 0.0 <= Column(table, order, stat)[k].value <= 100.0
  {
    var c := Column(table, order, stat);
    forall k | 0 <= k < |order| ensures c[k].Some? && 0.0 <= c[k].value <= 100.0 {
      var id := order[k];
      assert id in table;
      var m := table[id].metrics;
      assert 0.0 <= m.optimalPct <= 100.0 && 0.0 <= m.hardHitPct <= 100.0;
      if stat.OptimalShare? {
        assert c[k] == Some(m.optimalPct);
      } else {
        assert c[k] == Some(m.hardHitPct);
      }
    }
  }

  /** One line of a summary table: player, league and percentile. */
  datatype StatLine = StatLine(player: Option<real>, league: Option<real>, percentile: Option<real>)

  datatype PlayerComparison = PlayerComparison(
    medianSpeed: StatLine,
    p90Speed: StatLine,
    hardHitPct: StatLine,
    medianAngle: StatLine,
    optimalPct: StatLine)

  /** The player's value against the league column of `stat`. */
  function Line(events: seq<Event>, stat: Stat, player: Option<real>): (line: StatLine)
    ensures line.player == player
    ensures line.percentile.Some? ==> 0.0 <= line.percentile.value <= 100.0
  {
    var column := LeagueColumn(events, stat);
    StatLine(player, NanMedian(column), RankInColumn(column, player))
  }

  /**
   * The comparison for the player called `name`. The hard-hit share
   * divides by the number of the player's rows, so a name with no rows
   * raises.
   */
  function Compare(events: seq<Event>, name: string): (r: Result<PlayerComparison, Error>)
    ensures r.Failure? <==> forall e :: e in events ==> e.batterName != name
    ensures r.Success? ==> ComparisonShares(r.value)
  {
    var hitter := NamedRows(events, name);
    NamedRowsMembers(events, name);
    if |hitter| == 0 then Failure(ZeroDivision)
    else
      var e := hitter[0];
      assert e in events && e.batterName == name;
      Success(CompareRows(events, hitter))
  }

  /** Both shares of a comparison are present percentages with a league
    * median and a percentile rank. */
  predicate ComparisonShares(c: PlayerComparison) {
    && c.hardHitPct.player.Some? && 0.0 <= c.hardHitPct.player.value <= 100.0
    && c.optimalPct.player.Some? && 0.0 <= c.optimalPct.player.value <= 100.0
    && c.hardHitPct.league.Some? && 0.0 <= c.hardHitPct.league.value <= 100.0
    && c.optimalPct.league.Some? && 0.0 <= c.optimalPct.league.value <= 100.0
    && c.hardHitPct.percentile.Some? && 0.0 <= c.hardHitPct.percentile.value <= 100.0
    && c.optimalPct.percentile.Some? && 0.0 <= c.optimalPct.percentile.value <= 100.0
  }

  /** The comparison of the non-empty rows `hitter` of a batter of the
    * league. The two share columns hold no NaN, so their league medians
    * and the player's ranks in them always exist. */
  function CompareRows(events: seq<Event>, hitter: seq<Event>): (c: PlayerComparison)
    requires |hitter| > 0 && hitter[0].batter in Ids(events)
    ensures ComparisonShares(c)
  {
    var speeds := Speeds(hitter);
    var angles := Angles(hitter);
    var playerHardHit := Percent(|HardHitRows(hitter)|, |hitter|).value;
    var playerOptimal := Percent(|OptimalRows(hitter)|, |hitter|).value;
    ShareColumnRanked(events, HardHitShare, playerHardHit);
    ShareColumnRanked(events, OptimalShare, playerOptimal);
    PlayerComparison(
      Line(events, MedianSpeed, NanMedian(speeds)),
      Line(events, P90Speed, NanPercentile(speeds, 90)),
      Line(events, HardHitShare, Some(playerHardHit)),
      Line(events, MedianAngle, NanMedian(angles)),
      Line(events, OptimalShare, Some(playerOptimal)))
  }

  /** A share column of the league table has no NaN, and holds
    * percentages. */
  lemma LeagueShareColumn(events: seq<Event>, stat: Stat)
    requires stat.OptimalShare? || stat.HardHitShare?
    ensures forall k :: 0 <= k < |LeagueColumn(events, stat)| ==>
      LeagueColumn(events, stat)[k].Some? && 0.0 <= LeagueColumn(events, stat)[k].value <= 100.0
  {
    var t, h := LeagueTable(events), Hitters(events);
    HittersInTable(events);
    LeagueTableShares(events);
    ShareColumnBounds(t, h, stat);
    assert LeagueColumn(events, stat) == Column(t, h, stat);
  }

  /** A share column over a non-empty order of a table whose shares are
    * percentages has a median, itself a percentage. */
  lemma ShareColumnMedianBounds(table: map<BatterId, LeagueRow>, order: seq<BatterId>, stat: Stat)
    requires stat.OptimalShare? || stat.HardHitShare?
    requires |order| > 0
    requires forall k :: 0 <= k < |order| ==> order[k] in table
    requires forall id :: id in table ==>
      0.0 <= table[id].metrics.optimalPct <= 100.0 && 0.0 <= table[id].metrics.hardHitPct <= 100.0
    ensures NanMedian(Column(table, order, stat)).Some?
    ensures 0.0 <= NanMedian(Column(table, order, stat)).value <= 100.0
  {
    ShareColumnBounds(table, order, stat);
    BoundedColumnMedian(Column(table, order, stat), 0.0, 100.0);
  }

  /** A share column of a non-empty league has a median, itself a
    * percentage. */
  lemma ShareColumnMedian(events: seq<Event>, stat: Stat)
    requires stat.OptimalShare? || stat.HardHitShare?
    requires Ids(events) != {}
    ensures NanMedian(LeagueColumn(events, stat)).Some?
    ensures 0.0 <= NanMedian(LeagueColumn(events, stat)).value <= 100.0
  {
    var t, h := LeagueTable(events), Hitters(events);
    HittersCount(events);
    HittersInTable(events);
    LeagueTableShares(events);
    var id :| id in Ids(events);
    assert |h| > 0;
    ShareColumnMedianBounds(t, h, stat);
    assert LeagueColumn(events, stat) == Column(t, h, stat);
  }

  /** A share column of a non-empty league has a median in [0, 100] and
    * ranks every score. */
  lemma ShareColumnRanked(events: seq<Event>, stat: Stat, score: real)
    requires stat.OptimalShare? || stat.HardHitShare?
    requires Ids(events) != {}
    ensures Line(events, stat, Some(score)).league.Some?
    ensures 0.0 <= Line(events, stat, Some(score)).league.value <= 100.0
    ensures Line(events, stat, Some(score)).percentile.Some?
  {
    var column := LeagueColumn(events, stat);
    assert Line(events, stat, Some(score)) == StatLine(Some(score), NanMedian(column), RankInColumn(column, Some(score)));
    ShareColumnMedian(events, stat);
    LeagueShareColumn(events, stat);
    RankedWhenPresent(column, score);
  }

  /** When the name picks out exactly the rows of one batter id, the rows
    * selected by name are that batter's rows. */
  lemma {:induction false} NamedRowsAreRowsOf(events: seq<Event>, name: string, id: BatterId)
    requires forall e :: e in events ==> (e.batterName == name <==> e.batter == id)
    ensures NamedRows(events, name) == RowsOf(events, id)
  {
    if |events| > 0 {
      assert events == [events[0]] + events[1..];
      assert events[0] in events;
      NamedRowsAreRowsOf(events[1..], name, id);
    }
  }

  /**
   * With names and ids in one-to-one correspondence, the player values of
   * the comparison equal the league-table entries of that batter: the
   * recomputation from the rows selected by name agrees with `get_data`.
   */
  lemma ComparisonMatchesTable(events: seq<Event>, name: string, id: BatterId)
    requires id in Ids(events)
    requires forall e :: e in events ==> (e.batterName == name <==> e.batter == id)
    ensures Compare(events, name).Success?
    ensures
      var c, m := Compare(events, name).value, LeagueTable(events)[id].metrics;
      && c.medianSpeed.player == m.medianLaunchSpeed
      && c.p90Speed.player == m.p90LaunchSpeed
      && c.hardHitPct.player == Some(m.hardHitPct)
      && c.medianAngle.player == m.medianLaunchAngle
      && c.optimalPct.player == Some(m.optimalPct)
  {
    NamedRowsAreRowsOf(events, name, id);
    HasRows(events, id);
    var e :| e in events && e.batter == id;
    assert e.batterName == name;
  }

  /** The league row of that batter also carries the player's name. */
  lemma TableNameMatches(events: seq<Event>, name: string, id: BatterId)
    requires id in Ids(events)
    requires forall e :: e in events ==> (e.batterName == name <==> e.batter == id)
    ensures LeagueTable(events)[id].hitterName == name
  {
    var t := LeagueTable(events);
    assert id in t;
    var k :| IsFirstEvent(events, id, k) && t[id].hitterName == events[k].batterName;
    assert 0 <= k < |events|;
    assert events[k] in events;
  }
}
