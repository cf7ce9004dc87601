# Statcast dashboard: batted-ball statistics engine

A Dafny model of the statistics engine behind the Streamlit dashboard in
`dashboard.py`. The engine works on an in-memory table of batted-ball
events. Each event carries a batter id, a batter name, a launch speed and a
launch angle, and either number may be missing (NaN). From that table it
computes:

- per-batter reductions: median and 90th-percentile launch speed, median
  launch angle, the share of balls hit at an optimal angle (15 to 40
  degrees inclusive) and the share of hard-hit balls (95 mph or more);
- the league table, one row per distinct batter;
- the leaderboard: batters with more than a minimum number of batted
  balls, keyed by name, fastest median launch speed first;
- the individual-player comparison: the player's own values recomputed
  from the rows with that name, the league median of each column, and the
  player's percentile rank in each column (`scipy.stats.percentileofscore`,
  kind `'rank'`).

The code is pure (mask selections, `len`, numpy reductions, dict
comprehensions), so the model is datatypes, functions and lemmas:

| file | module | what it holds |
|---|---|---|
| `wrappers.dfy` | `Wrappers` | `Option` (None is NaN) and `Result` (Failure is a raised exception) |
| `order_stats.dfy` | `OrderStats` | insertion sort, minimum and maximum, threshold counts |
| `nan_stats.dfy` | `NanStats` | `np.nanmedian` and `np.nanpercentile` (linear interpolation) |
| `percentile_rank.dfy` | `PercentileRank` | `percentileofscore` with kind `'rank'` |
| `batted_balls.dfy` | `BattedBalls` | events and the five per-batter helpers |
| `league.dfy` | `League` | `get_data`'s league table and the leaderboard |
| `comparison.dfy` | `Comparison` | the individual-player comparison |

Speeds and angles are `real`, and a missing value is `None`. NaN fails
every comparison, so a row with a missing value never passes a mask. The
percentile is modelled for an integer percentage `q` in 0..100. The source
only uses `q = 90`, and the generality lets the median be proved equal to
the 50th percentile.

Points of the code's behaviour that the model follows closely:

- Percentile rank. `percentileofscore` is called with its default kind
  `'rank'`, which gives (L + R + [R > L]) * 50 / N, with L = #(d < v),
  R = #(d <= v) and N = |d|. So [50, 60, 70, 80, 90] ranks 70 at 60
  (`PercentileRank.RankExample`).
- Zero rows. The two percentage helpers and the player's hard-hit share
  divide by a Python integer `len`, so a batter or name with no rows raises
  `ZeroDivisionError`. That is `Failure(ZeroDivision)`.
- Leaderboard minimum. It keeps the batters whose ball count is
  `> min_bbes` (`value_counts() > min_bbes`).
- Mask bounds. The optimal-angle mask includes both 15 and 40 degrees, and
  the hard-hit mask includes 95 mph (`BattedBalls.OptimalRowsMembers`,
  `BattedBalls.HardHitRowsMembers`, and the boundary cases in
  `BattedBalls.MaskBoundsInclusive`).

## Model

| member | source | states |
|---|---|---|
| `OrderStats.Sort` | dashboard.py:33-42 | the sorted order numpy reduces over: sorted, a permutation of the input, same length |
| `OrderStats.Insert` | dashboard.py:33-42 | inserting into a sorted sequence keeps it sorted and adds exactly that element |
| `OrderStats.SortedUnique` | dashboard.py:33-42 | two sorted sequences with the same elements are equal, so order statistics do not depend on the sorting method |
| `OrderStats.SortIsCanonical` | dashboard.py:33-42 | any sorted permutation of the values is `Sort` of them |
| `OrderStats.MinOf` | dashboard.py:33-42 | the minimum is an element and at most every element |
| `OrderStats.MaxOf` | dashboard.py:33-42 | the maximum is an element and at least every element |
| `OrderStats.SortEnds` | dashboard.py:33-42 | the first sorted value is the minimum and the last is the maximum |
| `OrderStats.SortedFirstIsMin` | dashboard.py:33-42 | the first element of a sorted permutation is the minimum |
| `OrderStats.SortedLastIsMax` | dashboard.py:33-42 | the last element of a sorted permutation is the maximum |
| `OrderStats.CountBelow` | dashboard.py:122-124 | L = #(d < v), at most |d| |
| `OrderStats.CountAtMost` | dashboard.py:122-124 | R = #(d <= v), at most |d| |
| `OrderStats.BelowAtMost` | dashboard.py:122-124 | L <= R in the rank formula |
| `OrderStats.CountsMonotone` | dashboard.py:122-124 | L and R grow with the score, and R(v) <= L(w) when v < w |
| `OrderStats.InsertCounts` | dashboard.py:33-34 | inserting an element changes the counts at most and at least v by that element alone |
| `OrderStats.SortPreservesCounts` | dashboard.py:33-34 | sorting changes neither the count at most v nor the count at least v |
| `OrderStats.PrefixAtMost` | dashboard.py:33-34 | a prefix of k elements at most v gives at least k such elements |
| `OrderStats.SuffixAtLeast` | dashboard.py:33-34 | a suffix of elements at least v gives at least that many such elements |
| `NanStats.Present` | dashboard.py:33-42 | NaN entries are dropped and exactly the present values remain |
| `NanStats.PresentOne` | dashboard.py:33-42 | a single entry keeps its value, or vanishes when NaN |
| `NanStats.PresentSplit` | dashboard.py:33-42 | dropping NaNs distributes over concatenation, so each present value is kept as often as it occurs, in order |
| `NanStats.PresentEmpty` | dashboard.py:33-42 | no present value exactly when every entry is NaN |
| `NanStats.NanMedian` | dashboard.py:33-34 | `np.nanmedian`: NaN exactly when every entry is NaN |
| `NanStats.NanPercentile` | dashboard.py:37-38 | `np.nanpercentile`: NaN exactly when every entry is NaN |
| `NanStats.VirtualIndex` | dashboard.py:37-38 | the virtual index q(n-1) of the linear method, times 100, lies within the sorted values |
| `NanStats.VirtualIndexMonotone` | dashboard.py:37-38 | a higher percentage has a higher virtual index |
| `NanStats.Interpolate` | dashboard.py:37-38 | numpy's linear method: the value at virtual index pos / 100 of the sorted values |
| `NanStats.InterpolateBetween` | dashboard.py:37-38 | the percentile lies between the order statistics at the floor and at the ceiling of rank q(n-1)/100 |
| `NanStats.InterpolateMonotone` | dashboard.py:37-38 | the interpolated value never decreases as the rank grows |
| `NanStats.MedianIsPercentile50` | dashboard.py:33-38 | the median (middle value, or mean of the two middles) equals the 50th percentile |
| `NanStats.MiddleOf` | dashboard.py:33-34 | the middle sorted value, or the mean of the two middle ones |
| `NanStats.MiddleBetween` | dashboard.py:33-34 | on sorted values the middle lies between the two middle elements |
| `NanStats.MiddleIsHalfway` | dashboard.py:33-38 | the middle value (or mean of the two middles) is the value at the 50th percentile's virtual index |
| `NanStats.PercentileMonotone` | dashboard.py:37-38 | a higher percentage never gives a lower percentile |
| `NanStats.InterpolateFirst` | dashboard.py:37-38 | virtual index 0 selects the first sorted value |
| `NanStats.InterpolateLast` | dashboard.py:37-38 | the virtual index of q = 100 selects the last sorted value |
| `NanStats.PercentileZeroIsMin` | dashboard.py:37-38 | the 0th percentile is the smallest present value |
| `NanStats.PercentileHundredIsMax` | dashboard.py:37-38 | the 100th percentile is the largest present value |
| `NanStats.PercentileBounds` | dashboard.py:37-38 | every percentile lies between the smallest and largest present value |
| `NanStats.MedianBounds` | dashboard.py:33-34 | the median lies between the smallest and largest present value |
| `NanStats.BoundedColumnMedian` | dashboard.py:33-34 | a non-empty NaN-free column of values in [lo, hi] has a median in [lo, hi] |
| `NanStats.MedianWithin` | dashboard.py:33-34 | when every present value lies in [lo, hi], so does the median |
| `NanStats.P90AtLeastMedian` | dashboard.py:33-38 | the 90th percentile is at least the median |
| `NanStats.MedianSplitsHalves` | dashboard.py:33-34 | at least half the present values are at most the median and at least half are at least it |
| `NanStats.MiddleSplits` | dashboard.py:33-34 | the middle of a sorted sequence has at least half of the elements on each side |
| `NanStats.OrderIndependent` | dashboard.py:33-42 | median and percentiles depend only on the multiset of present values |
| `PercentileRank.RankNumerator` | dashboard.py:122-124 | L + R + [R > L] is at most 2N, and 0 exactly when no value is at most the score |
| `PercentileRank.Scale` | dashboard.py:122-124 | the numerator scaled by 50 / N is in [0, 100], 0 iff the numerator is 0, 100 iff it is 2N |
| `PercentileRank.ScaleMonotone` | dashboard.py:122-124 | scaling keeps the order of numerators |
| `PercentileRank.PercentileOfScore` | dashboard.py:122-124 | the rank is in [0, 100], and it is absent exactly for an empty distribution |
| `PercentileRank.RankNumeratorMonotone` | dashboard.py:122-124 | the numerator never decreases as the score grows |
| `PercentileRank.PercentileMonotoneInScore` | dashboard.py:122-124 | the percentile rank never decreases as the score grows |
| `PercentileRank.CountAtMostZero` | dashboard.py:122-124 | R = 0 exactly when every value exceeds the score |
| `PercentileRank.PercentileZeroIff` | dashboard.py:122-124 | rank 0 exactly when the score is below every value |
| `PercentileRank.CountsAllBelow` | dashboard.py:122-124 | a score above every value has L = R = N |
| `PercentileRank.PercentileAboveAll` | dashboard.py:122-124 | a score above every value ranks 100 |
| `PercentileRank.RankInColumn` | dashboard.py:122-124 | a NaN score or a NaN in the column gives NaN; otherwise the rank is present and in [0, 100] |
| `PercentileRank.RankedWhenPresent` | dashboard.py:202-205 | a non-empty NaN-free column has a median and ranks every score |
| `PercentileRank.AllPresent` | dashboard.py:122-124 | a NaN-free column keeps every entry, in order |
| `PercentileRank.RankExample` | dashboard.py:124 | [50, 60, 70, 80, 90] ranks 70 at 60 |
| `BattedBalls.RowsOf` | dashboard.py:47 | `bbes[bbes.batter == playerid]` has at most as many rows as the events |
| `BattedBalls.RowsOfMembers` | dashboard.py:47 | the selection holds exactly the events of that batter |
| `BattedBalls.RowsOfSplit` | dashboard.py:47 | selecting a batter's rows distributes over concatenation |
| `BattedBalls.RowsOfAll` | dashboard.py:47 | events that all belong to the batter are all selected |
| `BattedBalls.RowsOfNone` | dashboard.py:47 | events none of which belongs to the batter are all dropped |
| `BattedBalls.IsOptimalAngle` | dashboard.py:48 | the mask `(launch_angle >= 15) & (launch_angle <= 40)`; a NaN angle fails it |
| `BattedBalls.OptimalRows` | dashboard.py:48 | the rows passing the mask, at most as many as the rows |
| `BattedBalls.OptimalRowsMembers` | dashboard.py:48 | the mask keeps exactly the rows with a present angle in 15..40 inclusive |
| `BattedBalls.IsHardHit` | dashboard.py:55 | the mask `launch_speed >= 95`; a NaN speed fails it |
| `BattedBalls.HardHitRows` | dashboard.py:55 | the rows passing the mask, at most as many as the rows |
| `BattedBalls.HardHitRowsMembers` | dashboard.py:55 | the mask keeps exactly the rows with a present speed of 95 or more |
| `BattedBalls.SpeedsMissing` | dashboard.py:33-38 | the speed column is all NaN exactly when every row's speed is missing |
| `BattedBalls.AnglesMissing` | dashboard.py:41-42 | the angle column is all NaN exactly when every row's angle is missing |
| `BattedBalls.ColumnsSplit` | dashboard.py:34-42 | the speed and angle columns of concatenated rows are the concatenated columns |
| `BattedBalls.Percent` | dashboard.py:49 | `part / whole * 100`: raises for whole 0, otherwise in [0, 100], 0 iff part is 0, 100 iff part is whole |
| `BattedBalls.OptimalRowsAll` | dashboard.py:48 | the mask keeps every row iff all rows qualify, and none iff no row does |
| `BattedBalls.HardHitRowsAll` | dashboard.py:55 | the same for the hard-hit mask |
| `BattedBalls.MedianLaunchSpeed` | dashboard.py:33-34 | NaN exactly when all the batter's speeds are missing, otherwise between their min and max |
| `BattedBalls.P90LaunchSpeed` | dashboard.py:37-38 | NaN exactly when all speeds are missing, otherwise at least the median and at most the max |
| `BattedBalls.MedianLaunchAngle` | dashboard.py:41-42 | NaN exactly when all angles are missing, otherwise between their min and max |
| `BattedBalls.OptimalPct` | dashboard.py:45-49 | raises iff the batter has no rows; else in [0, 100], 100 iff every row has 15 <= angle <= 40, 0 iff none has |
| `BattedBalls.HardHitPct` | dashboard.py:52-56 | raises iff the batter has no rows; else in [0, 100], 100 iff every row has speed >= 95, 0 iff none has |
| `BattedBalls.OutsideRows` | dashboard.py:48 | exactly the rows whose angle is present but outside 15..40 |
| `BattedBalls.MissingAngleRows` | dashboard.py:48 | exactly the rows whose angle is missing |
| `BattedBalls.AnglePartition` | dashboard.py:45-49 | optimal + outside + missing angles = all rows, the optimal share's denominator |
| `BattedBalls.MissingAngleOnlyInDenominator` | dashboard.py:45-49 | a new ball with a missing angle adds a row but no optimal row |
| `BattedBalls.MissingSpeedOnlyInDenominator` | dashboard.py:52-56 | a new ball with a missing speed adds a row but no hard-hit row |
| `BattedBalls.RowsOfAppend` | dashboard.py:47 | a new event of the batter is appended to that batter's rows |
| `BattedBalls.OptimalRowsAppend` | dashboard.py:48 | the mask of an appended row decides whether it is an optimal row |
| `BattedBalls.HardHitRowsAppend` | dashboard.py:55 | the same for the hard-hit mask |
| `BattedBalls.ExampleRows` | dashboard.py:47 | in an example, the rows of batter 1 are its first three events and those of batter 2 its last |
| `BattedBalls.MaskBoundsInclusive` | dashboard.py:45-56 | angles of exactly 15 and 40 and a speed of exactly 95 pass the masks; 14.5, 40.5, 94.5 and NaN fail |
| `BattedBalls.ExampleShares1` | dashboard.py:45-56 | in that example, batter 1 has optimal and hard-hit shares of 100/3 |
| `BattedBalls.ExampleShares2` | dashboard.py:45-56 | batter 2 has both shares at 100 |
| `League.Hitters` | dashboard.py:62 | `bbes.batter.unique()`: every id that occurs, each once |
| `League.HittersCount` | dashboard.py:62 | there are as many hitters as distinct ids |
| `League.FirstEventShift` | dashboard.py:70 | the first event of a batter other than the head batter is one later in the full sequence |
| `League.FirstRow` | dashboard.py:70 | a batter's first row is that batter's first event |
| `League.HitterName` | dashboard.py:70 | the display name is the name on the batter's first event |
| `League.HasRows` | dashboard.py:62-68 | every batter that occurs has at least one row, so its shares exist |
| `League.RowFor` | dashboard.py:64-70 | a row's shares are in [0, 100] and equal the helpers' successful results |
| `League.LeagueTable` | dashboard.py:62-82 | one row per distinct batter id |
| `League.LeagueTableRow` | dashboard.py:62-82 | each row holds that batter's median speed, 90th percentile, median angle and both shares, the shares in [0, 100], and the name on the first event |
| `League.LeagueTableShares` | dashboard.py:64-68 | every share of the table is in [0, 100] |
| `League.EventCount` | dashboard.py:220 | `value_counts()` of a batter: the number of its rows |
| `League.EventCountPositive` | dashboard.py:220 | a batter has balls exactly when it occurs in the events |
| `League.Qualified` | dashboard.py:219-221 | keeps exactly the ids with more than `min_bbes` balls, without duplicates |
| `League.DistinctCard` | dashboard.py:62 | a duplicate-free list has as many elements as its set |
| `League.RowsAt` | dashboard.py:219-224 | the table rows of the kept ids, one per id, in order |
| `League.RanksBefore` | dashboard.py:226 | the order of `sort_values(..., ascending=False)`: higher median speed first, NaN last |
| `League.InsertRow` | dashboard.py:226 | insertion keeps the descending order and adds exactly that row |
| `League.SortBySpeed` | dashboard.py:226 | descending by median launch speed with NaN last, and a permutation of its input |
| `League.SortKeepsRows` | dashboard.py:226 | sorting keeps the rows and their number |
| `League.QualifiedHitters` | dashboard.py:219-221 | the kept ids are exactly the qualifying batters, each once |
| `League.KeptIds` | dashboard.py:219-221 | the kept ids are duplicate-free, are exactly the qualifying batters, and each has a table row |
| `League.QualifiedRows` | dashboard.py:219-224 | row k is the table row of the k-th kept batter, one row per kept id |
| `League.Leaderboard` | dashboard.py:219-226 | descending by median speed with NaN last, and a permutation (as a multiset) of the qualifying batters' table rows, one per batter with more than `min_bbes` balls |
| `League.LeaderboardAtZeroKeepsAll` | dashboard.py:219-221 | with `min_bbes = 0` every row of the league table is on the leaderboard |
| `Comparison.NamedRows` | dashboard.py:105 | `bbes[bbes["batter_name"] == player]` has at most as many rows as the events |
| `Comparison.NamedRowsMembers` | dashboard.py:105 | the selection holds exactly the events with that name, and is empty exactly when no event has it |
| `Comparison.NamedRowsSplit` | dashboard.py:105 | selecting by name distributes over concatenation, so each event of that name is kept once, in order |
| `Comparison.NamedRowsOne` | dashboard.py:105 | a single event is selected exactly when it has the name |
| `Comparison.HittersInTable` | dashboard.py:62-82 | every batter of the table order has a league row |
| `Comparison.LeagueColumn` | dashboard.py:112-114 | a league column has one entry per distinct batter: entry k is the value of the k-th batter of `unique()`, each batter exactly once |
| `Comparison.LeagueColumnHasEveryBatter` | dashboard.py:112-114 | every batter's entry occurs in the league column |
| `Comparison.ShareColumnBounds` | dashboard.py:114 | the hard-hit and optimal columns hold a percentage in [0, 100] for every batter |
| `Comparison.LeagueShareColumn` | dashboard.py:114 | the league's share columns hold no NaN, only percentages in [0, 100] |
| `Comparison.Line` | dashboard.py:122-124 | a summary line keeps the player's value, and its percentile is in [0, 100] when present |
| `Comparison.ShareColumnMedianBounds` | dashboard.py:199-205 | a share column over a non-empty batter order of a table whose shares are percentages has a median in [0, 100] |
| `Comparison.ShareColumnMedian` | dashboard.py:199-205 | a share column of a non-empty league has a median, and it is in [0, 100] |
| `Comparison.ShareColumnRanked` | dashboard.py:199-205 | a share column of a non-empty league has a median in [0, 100] and ranks every score |
| `Comparison.Compare` | dashboard.py:105-124 | raises iff no event has that name; otherwise the player's two shares, their league medians and their ranks all exist, in [0, 100] |
| `Comparison.CompareRows` | dashboard.py:108-124 | for non-empty rows of a league batter, both shares, their league medians and their ranks exist, in [0, 100] |
| `Comparison.NamedRowsAreRowsOf` | dashboard.py:105 | when name and id pick out the same events, the rows by name are the rows by id |
| `Comparison.ComparisonMatchesTable` | dashboard.py:117-119 | with a one-to-one name and id, the player's median, 90th percentile, hard-hit share, median angle and optimal share equal that batter's league-table entries |
| `Comparison.TableNameMatches` | dashboard.py:70 | with a one-to-one name and id, the league row of that batter carries the player's name |

## Left out

- The Streamlit interface: sidebar, radio, select box, slider, tables and
  `st.cache_data`. The slider's range (0 to 400) does not constrain
  `min_bbes` in the model.
- Plotting and styling: seaborn and matplotlib settings, histograms, the
  vertical lines and the shaded range, and `knuth_bin_width`.
- Loading the data: the pybaseball cache setup and `pd.read_parquet`. The
  event sequence is a parameter.
- numpy's RuntimeWarnings ("All-NaN slice encountered", "Mean of empty
  slice") on an all-NaN or empty column are not modelled; the NaN result
  they accompany is.
- Formatting percentiles to one decimal, which is display only.
- IEEE-754 arithmetic. Values are exact reals, and the interpolation factor
  0.9 is exact, so rounding differences with numpy are not modelled.
- NanPercentile: takes an integer percentage. numpy also accepts
  fractional ones, but the source passes only 90.
- RankInColumn: follows the NaN propagation of recent scipy releases (any
  NaN in the column gives NaN). Older releases treat NaN in the
  distribution differently; that version-dependent behaviour is not
  modelled. An empty distribution gives `None`.
- Hitters: does not state that ids come in order of first appearance. Only
  the leaderboard's order among equal median speeds depends on it, and
  pandas does not fix that order either.
- SortBySpeed: pandas' default sort is not stable, so rows with equal median
  speed may come out in any order. The model fixes one order and states only
  the descending order and the permutation. NaN rows go last, as with
  pandas' default `na_position`.
- Compare: the median-speed, 90th-percentile and median-angle lines may hold
  NaN (a column or a player with missing speeds), and only their bounds are
  stated for them.
