/**
 * The sidebar (client/src/components/sidebar.tsx): its own weekly total of a
 * topic, and the quick-add form that hands a date and a value to the page.
 * `parseFloat` is a parameter: `None` stands for NaN.
 */
module SidebarPanel {
  import opened Schema
  import Heatmap

  /**
   * `getWeekTotal`: one pass over `Object.entries(data)` adding the values
   * dated on or after the instant seven days before `now`.
   */
  function GetWeekTotal(topic: Topic, now: Instant): (sum: real)
    ensures sum == Heatmap.WeekTotal(topic.data, now)
  {
    WeekSumIsHeatmapWeek(topic.data, now - 7 * MsPerDay);
    WeekSum(topic.data, now - 7 * MsPerDay)
  }

  /** The `filter` and `reduce` of `getWeekTotal` fused into one fold. */
  function WeekSum(data: Data, cutoff: Instant): (sum: real)
    ensures data == [] ==> sum == 0.0
  {
    if data == [] then 0.0
    else (if data[0].date * MsPerDay >= cutoff then data[0].value else 0.0) + WeekSum(data[1..], cutoff)
  }

  /** The sidebar and the heatmap report the same weekly total for the same data and "now". */
  lemma {:induction false} WeekSumIsHeatmapWeek(data: Data, cutoff: Instant)
    ensures WeekSum(data, cutoff) == Heatmap.Total(Heatmap.Since(data, cutoff))
  {
    if data != [] {
      WeekSumIsHeatmapWeek(data[1..], cutoff);
    }
  }

  /** The quick-add form's state. */
  class Sidebar {
    /** `quickValue`: the value input's text. */
    var quickValue: string
    /** `quickDate`: the date input, `None` when it is cleared. */
    var quickDate: Option<Day>

    /** The form starts empty, dated today. */
    constructor(now: Instant)
      ensures quickValue == "" && quickDate == Some(DayOf(now))
    {
      quickValue := "";
      quickDate := Some(DayOf(now));
    }

    /**
     * `handleQuickSubmit`: a value that parses to a number of at least 0,
     * with a date set, goes to `onQuickAdd` and the value input is cleared;
     * anything else is ignored and nothing changes. The date is kept.
     */
    method QuickSubmit(parse: string -> Option<real>) returns (added: Option<Entry>)
      modifies this
      ensures added.Some? <==> parse(old(quickValue)).Some? && parse(old(quickValue)).value >= 0.0 && old(quickDate).Some?
      ensures added.Some? ==> added.value == Entry(old(quickDate).value, parse(old(quickValue)).value)
      ensures added.Some? ==> added.value.value >= 0.0
      ensures added.Some? ==> quickValue == ""
      ensures added.None? ==> quickValue == old(quickValue)
      ensures quickDate == old(quickDate)
    {
      var value := parse(quickValue);
      if value.Some? && value.value >= 0.0 && quickDate.Some? {
        added := Some(Entry(quickDate.value, value.value));
        quickValue := "";
      } else {
        added := None;
      }
    }
  }
}
