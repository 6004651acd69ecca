/**
 * The heatmap engine of the topic view (client/src/components/heatmap.tsx):
 * the intensity level of a value, the 371-day calendar grid ending at today,
 * and the statistics shown under it. Everything is a function of the topic's
 * data and of "now", which the component reads from the clock and this model
 * takes as a parameter.
 */
module Heatmap {
  import opened Schema

  // ---------------------------------------------------------------------------
  // Folds over a topic's values
  // ---------------------------------------------------------------------------

  /** `values.reduce((sum, val) => sum + val, 0)`: the sum of the values, added from the last entry back. */
  function Total(data: Data): (sum: real)
    ensures data == [] ==> sum == 0.0
    ensures NonNegative(data) ==> sum >= 0.0
  {
    if data == [] then 0.0
    else data[0].value + Total(data[1..])
  }

  /** `Math.max(...values, 1)`. */
  function MaxValue(data: Data): (m: real)
    ensures m >= 1.0
    ensures forall i :: 0 <= i < |data| ==> data[i].value <= m
    ensures m == 1.0 || exists i :: 0 <= i < |data| && data[i].value == m
  {
    if data == [] then 1.0
    else
      var rest := MaxValue(data[1..]);
      if data[0].value > rest then data[0].value
      else
        assert rest == 1.0 || exists i :: 0 <= i < |data| && data[i].value == rest by {
          if rest != 1.0 {
            var i :| 0 <= i < |data[1..]| && data[1..][i].value == rest;
            assert data[i + 1].value == rest;
          }
        }
        rest
  }

  // ---------------------------------------------------------------------------
  // Weekly total
  // ---------------------------------------------------------------------------

  /** `weekAgo`: the same instant seven days earlier. */
  function WeekAgo(now: Instant): (r: Instant)
    ensures DayOf(r) == DayOf(now) - 7
    ensures r % MsPerDay == now % MsPerDay
  {
    now - 7 * MsPerDay
  }

  /** `Object.entries(data).filter(([date]) => new Date(date) >= cutoff)`; a date parses to its UTC midnight. */
  function Since(data: Data, cutoff: Instant): (r: Data)
    ensures forall e :: e in r <==> e in data && e.date * MsPerDay >= cutoff
    ensures |r| <= |data|
  {
    if data == [] then []
    else
      assert forall e :: e in data[1..] ==> e in data;
      var rest := Since(data[1..], cutoff);
      if data[0].date * MsPerDay >= cutoff then [data[0]] + rest else rest
  }

  /** `thisWeek` (and the sidebar's `getWeekTotal`): the sum of the entries dated on or after `weekAgo`. */
  function WeekTotal(data: Data, now: Instant): (sum: real)
    ensures (forall i :: 0 <= i < |data| ==> data[i].date * MsPerDay < WeekAgo(now)) ==> sum == 0.0
  {
    var r := Since(data, WeekAgo(now));
    assert r != [] ==> r[0] in data;
    Total(r)
  }

  /**
   * The window the weekly total covers: the seven days ending today, every
   * future-dated entry, and the day a week ago only when "now" is exactly
   * midnight.
   */
  lemma WeekWindow(data: Data, now: Instant, e: Entry)
    ensures e in Since(data, WeekAgo(now)) <==>
      e in data && (e.date > DayOf(now) - 7 || (e.date == DayOf(now) - 7 && now % MsPerDay == 0))
  {
    var t := DayOf(now);
    var d := e.date;
    assert now == t * MsPerDay + now % MsPerDay;
    if d > t - 7 {
      assert d * MsPerDay >= (t - 6) * MsPerDay;
    } else if d < t - 7 {
      assert d * MsPerDay <= (t - 8) * MsPerDay;
    }
  }

  /** With non-negative values the weekly total never exceeds the total. */
  lemma {:induction false} WeekTotalAtMostTotal(data: Data, now: Instant)
    requires NonNegative(data)
    ensures 0.0 <= WeekTotal(data, now) <= Total(data)
  {
    if data != [] {
      assert NonNegative(data[1..]);
      WeekTotalAtMostTotal(data[1..], now);
    }
  }

  // ---------------------------------------------------------------------------
  // Intensity levels
  // ---------------------------------------------------------------------------

  /**
   * `getHeatmapLevel`: 0 for no activity, otherwise the fifth of
   * `(0, maxValue]` the ratio `value / maxValue` falls in, each bucket closed
   * at its upper end; ratios above 1 stay at 5 and negative values get 1.
   */
  function Level(value: real, maxValue: real): (level: nat)
    requires maxValue > 0.0
    ensures level <= 5
    ensures level == 0 <==> value == 0.0
    ensures value < 0.0 ==> level == 1
    ensures value > 0.0 && level < 5 ==> 5.0 * value <= (level as real) * maxValue
    ensures value > 0.0 && level > 1 ==> ((level - 1) as real) * maxValue < 5.0 * value
  {
    if value == 0.0 then 0
    else if 5.0 * value <= maxValue then 1
    else if 5.0 * value <= 2.0 * maxValue then 2
    else if 5.0 * value <= 3.0 * maxValue then 3
    else if 5.0 * value <= 4.0 * maxValue then 4
    else 5
  }

  /** For a fixed maximum the level never decreases as the value grows. */
  lemma LevelMonotone(v1: real, v2: real, maxValue: real)
    requires maxValue > 0.0 && 0.0 <= v1 <= v2
    ensures Level(v1, maxValue) <= Level(v2, maxValue)
  {
  }

  /** A topic's largest value, when it is at least 1, is the maximum and is shown at level 5. */
  lemma PeakGetsTopLevel(data: Data, i: nat)
    requires i < |data| && data[i].value >= 1.0
    requires forall j :: 0 <= j < |data| ==> data[j].value <= data[i].value
    ensures MaxValue(data) == data[i].value
    ensures Level(data[i].value, MaxValue(data)) == 5
  {
    var m := MaxValue(data);
    if m != 1.0 {
      var j :| 0 <= j < |data| && data[j].value == m;
    }
  }

  /** When every value is at most 0.8 the maximum is the default 1 and no cell reaches level 5. */
  lemma NoTopLevelBelowFourFifths(data: Data, d: Day)
    requires forall j :: 0 <= j < |data| ==> data[j].value <= 0.8
    ensures MaxValue(data) == 1.0
    ensures Level(ValueOn(data, d), MaxValue(data)) < 5
  {
    if Get(data, d).Some? {
      var j :| 0 <= j < |data| && data[j] == Entry(d, Get(data, d).value);
    }
  }

  // ---------------------------------------------------------------------------
  // The calendar grid
  // ---------------------------------------------------------------------------

  /** 53 weeks of 7 days. */
  const GridCells: nat := 371

  datatype Cell = Cell(date: Day, value: real, level: nat)

  /**
   * What the grid built at `now` holds: 371 cells on consecutive dates,
   * starting at the Sunday among the seven days that end 364 days before
   * today, each with the entry of its date (0 when absent) and that value's
   * level against the topic's maximum.
   */
  ghost predicate IsYearGrid(grid: seq<Cell>, data: Data, now: Instant)
  {
    && |grid| == GridCells
    && DayOfWeek(grid[0].date) == 0
    && DayOf(now) - 370 <= grid[0].date <= DayOf(now) - 364
    && forall i :: 0 <= i < |grid| ==>
         && grid[i].date == grid[0].date + i
         && grid[i].value == ValueOn(data, grid[i].date)
         && grid[i].level == Level(grid[i].value, MaxValue(data))
  }

  /**
   * The grid starts on or before the day 364 days ago and ends between today
   * and six days after it; its dates being consecutive, it shows every day
   * of the year ending today.
   */
  lemma GridCoversYear(grid: seq<Cell>, data: Data, now: Instant)
    requires IsYearGrid(grid, data, now)
    ensures grid[0].date <= DayOf(now) - 364
    ensures DayOf(now) <= grid[|grid| - 1].date <= DayOf(now) + 6
  {
    assert grid[|grid| - 1].date == grid[0].date + 370;
  }

  /** Two dates one apart are one apart in the week, except across Saturday/Sunday. */
  lemma DayOfWeekStep(d: Day)
    requires DayOfWeek(d) != 0
    ensures DayOfWeek(d - 1) == DayOfWeek(d) - 1
  {
    var w := DayOfWeek(d);
    assert d + 4 == 7 * ((d + 4) / 7) + w;
    assert (d - 1) + 4 == 7 * ((d + 4) / 7) + (w - 1);
  }

  /** The grid loops of the component: step back to a Sunday, then push 371 cells. */
  method BuildGrid(data: Data, now: Instant) returns (grid: seq<Cell>)
    ensures IsYearGrid(grid, data, now)
  {
    var maxValue := MaxValue(data);
    var startDate := DayOf(now) - 364;
    var currentDate := startDate;
    while DayOfWeek(currentDate) != 0
      invariant startDate - DayOfWeek(startDate) <= currentDate <= startDate
      invariant DayOfWeek(currentDate) == DayOfWeek(startDate) - (startDate - currentDate)
      decreases DayOfWeek(currentDate)
    {
      DayOfWeekStep(currentDate);
      currentDate := currentDate - 1;
    }
    var first := currentDate;
    grid := [];
    for i := 0 to GridCells
      invariant currentDate == first + i
      invariant |grid| == i
      invariant forall j :: 0 <= j < i ==>
        grid[j] == Cell(first + j, ValueOn(data, first + j), Level(ValueOn(data, first + j), maxValue))
    {
      var value := ValueOn(data, currentDate);
      var level := Level(value, maxValue);
      grid := grid + [Cell(currentDate, value, level)];
      currentDate := currentDate + 1;
    }
  }

  // ---------------------------------------------------------------------------
  // The streak
  // ---------------------------------------------------------------------------

  /**
   * `n` is the current streak at `today`: the `n` days ending today all have
   * a positive entry and the day before them does not.
   */
  ghost predicate IsStreak(data: Data, today: Day, n: nat)
  {
    (forall d :: today - n < d <= today ==> Positive(data, d)) && !Positive(data, today - n)
  }

  /** The streak is the longest run of positive days ending today, so it is unique. */
  lemma StreakIsLongest(data: Data, today: Day, n: nat, m: nat)
    requires IsStreak(data, today, n)
    requires forall d :: today - m < d <= today ==> Positive(data, d)
    ensures m <= n
  {
  }

  /**
   * A run of `n` consecutive dates that all have an entry needs at least `n`
   * entries: deleting the earliest date of the run leaves a shorter run in a
   * shorter object.
   */
  lemma {:induction false} RunFitsInData(data: Data, today: Day, n: nat)
    requires forall d :: today - n < d <= today ==> Get(data, d).Some?
    ensures n <= |data|
    decreases |data|
  {
    if n > 0 {
      var rest := Delete(data, today - n + 1);
      assert Get(data, today - n + 1).Some?;
      RunFitsInData(rest, today, n - 1);
    }
  }

  /** The streak loop: count back from today while the day has a positive entry. */
  method CurrentStreak(data: Data, now: Instant) returns (streak: nat)
    ensures IsStreak(data, DayOf(now), streak)
    ensures streak <= |data|
  {
    var today := DayOf(now);
    streak := 0;
    var checkDate := today;
    while Positive(data, checkDate)
      invariant checkDate == today - streak
      invariant forall d :: today - streak < d <= today ==> Positive(data, d)
      invariant streak <= |data|
      decreases |data| - streak
    {
      forall d | today - (streak + 1) < d <= today
        ensures Get(data, d).Some?
      {
        assert Positive(data, d);
      }
      RunFitsInData(data, today, streak + 1);
      streak := streak + 1;
      checkDate := checkDate - 1;
    }
  }

  // ---------------------------------------------------------------------------
  // The whole projection
  // ---------------------------------------------------------------------------

  datatype Stats = Stats(totalThisYear: real, thisWeek: real, todayValue: real, streak: nat)

  /** The component's memoised computation: the grid and the four statistics. */
  method Project(data: Data, now: Instant) returns (grid: seq<Cell>, stats: Stats)
    ensures IsYearGrid(grid, data, now)
    ensures stats.totalThisYear == Total(data)
    ensures stats.thisWeek == WeekTotal(data, now)
    ensures stats.todayValue == ValueOn(data, DayOf(now))
    ensures IsStreak(data, DayOf(now), stats.streak) && stats.streak <= |data|
  {
    grid := BuildGrid(data, now);
    var totalThisYear := Total(data);
    var thisWeek := WeekTotal(data, now);
    var todayValue := ValueOn(data, DayOf(now));
    var streak := CurrentStreak(data, now);
    stats := Stats(totalThisYear, thisWeek, todayValue, streak);
  }

  // ---------------------------------------------------------------------------
  // Worked examples
  // ---------------------------------------------------------------------------

  /** 2024-01-10 as a day number. */
  const Jan10: Day := 19732

  /**
   * Entries on 2024-01-10, 2024-01-09 and 2024-01-07 with "now" on
   * 2024-01-10: 2024-01-08 is missing, so the streak is 2 (and by
   * `StreakIsLongest` no other number is).
   */
  lemma StreakExample()
    ensures IsStreak([Entry(Jan10, 5.0), Entry(Jan10 - 1, 3.0), Entry(Jan10 - 3, 2.0)], Jan10, 2)
  {
    var data := [Entry(Jan10, 5.0), Entry(Jan10 - 1, 3.0), Entry(Jan10 - 3, 2.0)];
    forall d | Jan10 - 2 < d <= Jan10
      ensures Positive(data, d)
    {
      assert d == Jan10 || d == Jan10 - 1;
    }
  }

  /**
   * Entries on 2024-01-03 (100) and 2024-01-10 (5) with "now" at noon on
   * 2024-01-10: the entry of a week ago is before the cutoff, so the weekly
   * total is 5 while the total is 105.
   */
  lemma WeekExample()
    ensures WeekTotal([Entry(Jan10 - 7, 100.0), Entry(Jan10, 5.0)], Jan10 * MsPerDay + MsPerDay / 2) == 5.0
    ensures Total([Entry(Jan10 - 7, 100.0), Entry(Jan10, 5.0)]) == 105.0
  {
    var data := [Entry(Jan10 - 7, 100.0), Entry(Jan10, 5.0)];
    var now := Jan10 * MsPerDay + MsPerDay / 2;
    assert data[1..] == [Entry(Jan10, 5.0)];
    assert Since(data, WeekAgo(now)) == [Entry(Jan10, 5.0)];
  }
}
