# DailyStreaks in Dafny

A verified model of the commit-streak logic of `src/dailystreaks.py`. The program reads
GitHub push events and draws a small SVG card with three figures: total commits, the
current streak and the longest streak of consecutive days with commits, each streak
with a date-range caption. The model covers the pure core of that pipeline:

- **Aggregation** (`Events`): events are filtered to pushes that have commits and a
  timestamp. Each one is bucketed on its local calendar day in a fixed whole-hour UTC
  offset, and the commit counts are summed per day.
- **Streaks** (`Streaks`): the single pass over the sorted contribution days that finds
  the total, the longest run and the current run. The current run counts only while
  the latest contribution day is today or yesterday.
- **Pagination** (`LinkHeader`): extraction of the `rel="next"` target from a `Link`
  header, together with the `str.split`, `str.strip`, `str.find` and `in` behaviour it
  relies on. Also the oldest timestamp of a page of events (`Events`).
- **Glue** (`Card`): what `main` derives between reading events and rendering (the
  aggregate, the statistics and the number of days with commits), together with the two
  `format_range` captions that `render_svg` writes onto the card.

Days are Python date ordinals (`date.toordinal()`), so "the next day" is `d + 1`.
Timestamps are whole seconds since the Unix epoch in UTC. The local day of instant `t`
at offset `h` hours is `719163 + floor((t + 3600 h) / 86400)`; 719163 is the ordinal of
1970-01-01. `Days` holds the shared pieces: sorted keys, minimum and maximum day, and
the order-independent sum of a contribution map. `Wrappers` holds `Option`, which stands
for Python's `None`.

The repository also contains a synchronisation relay, which this model does not cover.

## Model

| member | source | states |
|---|---|---|
| Streaks.ComputeStreaks | src/dailystreaks.py:166-224 | An empty map gives total 0, both streaks 0 and all four spans absent. Otherwise the total is the sum of all day counts. The longest span is a run of contribution days of length at least 1, no run is longer, and it is the earliest run of that length. The current span is absent with streak 0 when the latest day is more than one day before today. Otherwise it is the maximal run ending on the latest day. The current streak never exceeds the longest. |
| Streaks.LongestRun | src/dailystreaks.py:175-201 | The scan returns a run whose length is end - start + 1 >= 1. Every run of contribution days is at most that long. A run of equal length never starts earlier, because a later run replaces the longest only when strictly longer. |
| Streaks.CurrentRunStart | src/dailystreaks.py:209-214 | Walking back from the latest day while the previous day has contributions stops at a day whose predecessor is absent. Every day from it to the latest day is present. |
| Streaks.CurrentRun | src/dailystreaks.py:203-214 | The current streak is 0 with no span when the latest contribution day is before yesterday. Otherwise it ends on the latest day and starts at the first day of the unbroken run reaching it. The streak is 0 exactly when there is no span. |
| Streaks.CloseRun | src/dailystreaks.py:187-191 | Closing a run keeps the invariant of the scan. Every run starting before the next unvisited day is bounded by the new longest length, and the earliest run of that length is the recorded one. |
| Streaks.RunStopsAtGap | src/dailystreaks.py:183-185 | When two neighbouring sorted days are not consecutive, no run crosses the gap between them. |
| Streaks.LongestSpecUnique | src/dailystreaks.py:182-201 | Any two results that satisfy the longest-streak properties agree on the length and on both ends. The properties determine the longest span completely. |
| Streaks.CurrentSpecUnique | src/dailystreaks.py:203-214 | Any two results that satisfy the current-streak properties agree on the length and on both ends. |
| Streaks.RunFitsInDays | src/dailystreaks.py:331 | No run is longer than the number of days with commits. |
| Days.SortedDays | src/dailystreaks.py:172 | The sorted days list every key of the map exactly once, in strictly ascending order. |
| Days.SumOverRemove | src/dailystreaks.py:173 | Any day may be taken out of the sum first. The total does not depend on the order in which the values are added. |
| Days.SumUpdate | src/dailystreaks.py:161 | Setting one day's count to v changes the total by v minus the day's previous count (0 when absent). |
| Days.EnumerationBounds | src/dailystreaks.py:176-204 | The first sorted day is the earliest contribution day and the last is the latest. Every day lies between them. |
| Events.LocalDay | src/dailystreaks.py:159-160 | The local day is the one whose local midnight is the last one at or before the instant shifted by the offset. |
| Events.Aggregate | src/dailystreaks.py:139-163 | Every stored count is positive. For every day, the stored count (0 when absent) is the sum of the commit counts of the counted events on that day. Counted events are pushes with at least one commit and a timestamp. |
| Events.AggregateDays | src/dailystreaks.py:144-161 | A day is present in the aggregate exactly when some counted event falls on it. |
| Events.AggregateEmpty | src/dailystreaks.py:144-163 | The aggregate is empty exactly when no event is counted. |
| Events.AggregateTotal | src/dailystreaks.py:150-161 | The counts of the aggregate add up to the commits of all counted events. No commit is lost or counted twice. |
| Events.CommitsOnPositive | src/dailystreaks.py:146-161 | The commits counted on a day are positive exactly when some counted event falls on that day. |
| Events.PageOldestTimestamp | src/dailystreaks.py:66-79 | The result is absent exactly when no event has a timestamp. Otherwise it is the timestamp of one of the events and no event has an earlier one. |
| LinkHeader.Find | src/dailystreaks.py:58-59 | `str.find` returns -1 exactly when the character is absent. Otherwise it returns an index holding the character, with no earlier occurrence. |
| LinkHeader.FindAt | src/dailystreaks.py:58-59 | Any index that holds the character and has no earlier occurrence is what `find` returns. |
| LinkHeader.Contains | src/dailystreaks.py:55 | The substring test holds exactly when the pattern occurs at some index. |
| LinkHeader.StripMeaning | src/dailystreaks.py:54 | `strip()` returns a slice of its input, removes only whitespace (Python's `str.isspace` set), and leaves no whitespace at either end. |
| LinkHeader.StripTrimmed | src/dailystreaks.py:54 | A chunk with no whitespace at its ends strips to itself, with or without one leading space. |
| LinkHeader.Split | src/dailystreaks.py:53 | `split(",")` returns at least one piece. No piece holds a comma, and joining the pieces with commas gives the input back. |
| LinkHeader.SplitJoin | src/dailystreaks.py:53 | Splitting a comma-join of comma-free pieces gives the pieces back. |
| LinkHeader.TargetMeaning | src/dailystreaks.py:55-61 | A chunk yields a target exactly when it contains `rel="next"` and a `<` precedes its first `>`. The target is the text strictly between the first `<` and the first `>`, so it holds no `>`. |
| LinkHeader.FirstSome | src/dailystreaks.py:53-63 | The loop returns at the first chunk with a target. The result is absent exactly when no entry is present. Otherwise it is an entry with no present entry before it. |
| LinkHeader.FirstTargetMeaning | src/dailystreaks.py:53-63 | Over trimmed chunks, the first target is absent exactly when no chunk yields a target. Otherwise it is the target of a chunk before which no chunk yields one. |
| LinkHeader.ParseNextUrl | src/dailystreaks.py:47-63 | A missing or empty header gives nothing. A result never holds `>` or `,`, because each chunk is comma-free and a target stops before the chunk's first `>`. Which chunk supplies the result is stated by `ParseNextUrlChunks`. |
| LinkHeader.ParseNextUrlChunks | src/dailystreaks.py:50-63 | A non-empty header gives nothing exactly when none of its comma-separated, stripped chunks has a target. Otherwise it gives the target of the first chunk that has one. |
| LinkHeader.RenderedMentionsNext | src/dailystreaks.py:55 | A link written as `<url>; rel="r"` contains `rel="next"` exactly when r is `next`, provided the link is `Renderable`: no quote in url or r, no `>` or `,` in url, no `,` in r. |
| LinkHeader.RenderedOccursIsNext | src/dailystreaks.py:55 | Wherever `rel="next"` occurs in a written link, its relation is `next`. The relation cannot be a longer word that merely contains `next`, because the quotes pin it down. |
| LinkHeader.RenderedTarget | src/dailystreaks.py:55-61 | The target of a written link is its url when its relation is `next`, and nothing otherwise. |
| LinkHeader.ParseRenderedHeader | src/dailystreaks.py:47-63 | Round trip: a header written as GitHub writes it (links `<url>; rel="r"` joined by `, `) parses to the url of its first `next` link, and to nothing when it has none. |
| Card.Summarize | src/dailystreaks.py:273-331 | The figures are those of `compute_streaks` on the per-day aggregate of the events. The total is the commits of all counted events, and the day count is the number of days in the aggregate. For a non-empty aggregate the longest span is the earliest longest run and the current span is the run ending on the latest day, or absent when that day is before yesterday. For an empty one everything is 0 and absent. The current streak is at most the longest, which is at most the number of days. Both captions are `format_range` of their spans: "No active streak" for a zero streak and the single date for a one-day streak. |
| Card.FormatRange | src/dailystreaks.py:239-248 | A span missing either day is captioned "No active streak". Any other caption closes with the last day in full and opens with the first day, in the short form when the days differ but share a year. `Summarize` adds that a one-day streak is captioned by its single date. |
| Card.Report | src/dailystreaks.py:282-316 | `main` stops with an exception and no summary exactly when the hour offset is outside the range `datetime.timezone` accepts, strictly between -24 and 24. The exception is `ValueError` from `timezone`, or `OverflowError` from `timedelta` beyond 999999999 days. Otherwise it reports the summary of the events in that fixed-offset zone, with every guarantee of `Summarize`. |

## Left out

- `fetch_events` (network I/O through urllib, HTTP error handling, the wall-clock cutoff and page clamping), `build_headers`, `render_svg` (a fixed template), and `main`'s argument parsing, file reads and writes and stdout. They are I/O or fixed text.
- The synchronisation relay (state store, delta computation, broadcast fan-out, producer retry loop): a separate component, not the streak card.
- ISO 8601 parsing (`fromisoformat`): timestamps arrive as integer seconds. A missing or empty `created_at` is an absent timestamp.
- Events are reduced to their `type`, their number of commits (0 when the payload or its commit list is missing) and their timestamp. Other JSON shapes, such as a non-list `commits` value, are not modelled.
- Time zones are whole-hour fixed offsets, as `parse_timezone` builds them. The local date is computed from the offset rather than through `astimezone`.
- The clock: `today` is a parameter of `ComputeStreaks`, `Summarize` and `Report`.
- `day_fmt`, `short_day_fmt` and the calendar year of a day ordinal are parameters (`DateFormat`). Their output depends on the platform's `strftime` and on Python's calendar.
- Python's `date` range (years 1 to 9999) is not enforced. Day ordinals are unbounded integers.
- `parse_next_url` follows the code, not section 3 of RFC 8288: no quoted-comma handling, and the target is cut at the first `<` and `>`. The target may therefore hold a `<` after the opening one.
- `FormatRange` states the opening and closing dates of a caption but not the `" - "` between them. `format_range` tests `not start`, which is false for every `date`, so only an absent day gives "No active streak".
