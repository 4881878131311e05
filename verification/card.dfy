/**
  What the command-line entry point derives from a list of events before
  drawing the card: the per-day aggregate, the streak statistics, the number
  of days with commits, and the date-range captions under the two streaks.
*/
module Card {
  import opened Wrappers
  import opened Days
  import opened Streaks
  import opened Events

  const NO_ACTIVE_STREAK: string := "No active streak"

  /**
    How dates are printed: `day_fmt`, `short_day_fmt`, and the calendar year
    of a day ordinal. The first two depend on the platform's `strftime` and
    the third on Python's calendar, so all three are parameters.
  */
  datatype DateFormat = DateFormat(dayFmt: int -> string, shortDayFmt: int -> string, yearOf: int -> int)

  predicate StartsWith(s: string, prefix: string) {
    |prefix| <= |s| && s[..|prefix|] == prefix
  }

  predicate EndsWith(s: string, suffix: string) {
    |suffix| <= |s| && s[|s| - |suffix|..] == suffix
  }

  /**
    `format_range`: the caption of a span of days. A span with a missing day
    reads "No active streak". Any other caption opens with the first day (in
    the short form when both days fall in the same year of a longer span) and
    closes with the last day in full.
  */
  function FormatRange(start: Option<int>, end: Option<int>, fmt: DateFormat): (caption: string)
    ensures start.None? || end.None? ==> caption == NO_ACTIVE_STREAK
    ensures start.Some? && end.Some? ==> EndsWith(caption, fmt.dayFmt(end.value))
    ensures start.Some? && end.Some? ==>
              StartsWith(caption,
                         if start.value != end.value && fmt.yearOf(start.value) == fmt.yearOf(end.value)
                         then fmt.shortDayFmt(start.value) else fmt.dayFmt(start.value))
  {
    if start.None? || end.None? then NO_ACTIVE_STREAK
    else if start.value == end.value then fmt.dayFmt(start.value)
    else if fmt.yearOf(start.value) == fmt.yearOf(end.value) then
      fmt.shortDayFmt(start.value) + " - " + fmt.dayFmt(end.value)
    else fmt.dayFmt(start.value) + " - " + fmt.dayFmt(end.value)
  }

  /** The figures and captions the card shows, and the day count the run reports. */
  datatype Summary = Summary(stats: StreakStats, currentRange: string, longestRange: string, daysWithCommits: nat)

  /**
    What `main` reports for `events` in the zone `tz` on the local date
    `today`: the statistics `compute_streaks` gives for the per-day aggregate,
    the aggregate's number of days, and the `format_range` captions of the
    two spans.
  */
  ghost predicate Describes(card: Summary, events: seq<Event>, tz: UtcOffset, today: int, fmt: DateFormat) {
    var days := Aggregate(events, tz);
    && card.stats.totalContributions == CountedCommits(events)
    && card.daysWithCommits == |days|
    && (card.daysWithCommits == 0 <==> forall i :: 0 <= i < |events| ==> !Counts(events[i]))
    && (days == map[] ==> card.stats == StreakStats(0, 0, 0, None, None, None, None))
    && (days != map[] ==> LongestSpec(days, card.stats))
    && (days != map[] ==> CurrentSpec(days, today, card.stats.currentStreak, card.stats.currentStart, card.stats.currentEnd))
    && card.stats.currentStreak <= card.stats.longestStreak <= card.daysWithCommits
    && (card.stats.longestStreak == 0 <==> forall i :: 0 <= i < |events| ==> !Counts(events[i]))
    && card.currentRange == FormatRange(card.stats.currentStart, card.stats.currentEnd, fmt)
    && card.longestRange == FormatRange(card.stats.longestStart, card.stats.longestEnd, fmt)
  }

  /**
    What `main` and `render_svg` compute from the events: aggregate per local
    day, compute the streaks as of `today` (the caller's local date), and
    caption both spans as the card does.
  */
  method Summarize(events: seq<Event>, tz: UtcOffset, today: int, fmt: DateFormat) returns (card: Summary)
    ensures Describes(card, events, tz, today, fmt)
    ensures card.stats.currentStreak == 0 ==> card.currentRange == NO_ACTIVE_STREAK
    ensures card.stats.currentStreak == 1 ==> card.stats.currentEnd.Some? && card.currentRange == fmt.dayFmt(card.stats.currentEnd.value)
    ensures card.stats.longestStreak == 0 ==> card.longestRange == NO_ACTIVE_STREAK
    ensures card.stats.longestStreak == 1 ==> card.stats.longestEnd.Some? && card.longestRange == fmt.dayFmt(card.stats.longestEnd.value)
  {
    var days := Aggregate(events, tz);
    AggregateEmpty(events, tz);
    AggregateTotal(events, tz);
    var stats := ComputeStreaks(days, today);
    if days != map[] {
      RunFitsInDays(days, stats.longestStart.value, stats.longestEnd.value);
    }
    card := Summary(stats,
                    FormatRange(stats.currentStart, stats.currentEnd, fmt),
                    FormatRange(stats.longestStart, stats.longestEnd, fmt),
                    |days|);
  }

  /**
    `main` from the `--timezone-offset` argument on: nothing when the offset
    is one Python rejects (the program stops with an exception: `ValueError`
    from `timezone`, or `OverflowError` from `timedelta` beyond 999999999 days,
    before any event is read), and otherwise the summary in that zone.
  */
  method Report(events: seq<Event>, offsetHours: int, today: int, fmt: DateFormat) returns (card: Option<Summary>)
    ensures card.None? <==> !(-24 < offsetHours < 24)
    ensures card.Some? ==> Describes(card.value, events, offsetHours, today, fmt)
  {
    var tz := ParseTimezone(offsetHours);
    if tz.None? {
      return None;
    }
    var summary := Summarize(events, tz.value, today, fmt);
    card := Some(summary);
  }
}
