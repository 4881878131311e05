/**
  GitHub activity events reduced to what the streak card reads from them,
  the fixed-offset time zone they are bucketed in, and the two passes over
  events: per-day commit aggregation and the oldest timestamp of a page.
*/
module Events {
  import opened Wrappers
  import opened Days

  /**
    One activity event. `kind` is the `type` field (absent when missing),
    `commits` the number of entries of `payload.commits` (0 when either is
    missing), and `createdAt` the `created_at` instant in whole seconds since
    1970-01-01T00:00:00Z, absent when the field is missing or empty.
  */
  datatype Event = Event(kind: Option<string>, commits: nat, createdAt: Option<int>)

  const PUSH_EVENT: string := "PushEvent"

  const SECONDS_PER_HOUR: int := 3600
  const SECONDS_PER_DAY: int := 86400

  /** The day ordinal of 1970-01-01 (Python's `date(1970, 1, 1).toordinal()`). */
  const EPOCH_ORDINAL: int := 719163

  /** A fixed UTC offset in whole hours; Python's `timezone` accepts only offsets strictly within a day. */
  type UtcOffset = h: int | -24 < h < 24

  /**
    `parse_timezone`: the offset of `hours`, or none where Python raises
    (`ValueError` from `timezone`, or `OverflowError` from `timedelta` beyond
    999999999 days).
  */
  function ParseTimezone(hours: int): Option<UtcOffset> {
    if -24 < hours < 24 then Some(hours) else None
  }

  /**
    The local calendar day of the UTC instant `t` in the zone `tz`: the
    ordinal of the day whose local midnight is the last one at or before `t`.
  */
  function LocalDay(t: int, tz: UtcOffset): (day: int)
    ensures (day - EPOCH_ORDINAL) * SECONDS_PER_DAY <= t + tz * SECONDS_PER_HOUR
    ensures t + tz * SECONDS_PER_HOUR < (day - EPOCH_ORDINAL + 1) * SECONDS_PER_DAY
  {
    EPOCH_ORDINAL + (t + tz * SECONDS_PER_HOUR) / SECONDS_PER_DAY
  }

  /** The event is a push with at least one commit and a timestamp: only these are counted. */
  predicate Counts(e: Event) {
    e.kind == Some(PUSH_EVENT) && e.commits > 0 && e.createdAt.Some?
  }

  /** The local day a counted event falls on. */
  function DayOf(e: Event, tz: UtcOffset): int
    requires Counts(e)
  {
    LocalDay(e.createdAt.value, tz)
  }

  /** The commits an event adds to day `d`. */
  function CommitsOnDay(e: Event, tz: UtcOffset, d: int): nat {
    if Counts(e) && DayOf(e, tz) == d then e.commits else 0
  }

  /** Commits of counted events that fall on day `d`, summed from the front of the list. */
  function CommitsOn(events: seq<Event>, tz: UtcOffset, d: int): nat
    decreases |events|
  {
    if events == [] then 0
    else CommitsOnDay(events[0], tz, d) + CommitsOn(events[1..], tz, d)
  }

  /** Commits of all counted events, summed from the front of the list. */
  function CountedCommits(events: seq<Event>): nat
    decreases |events|
  {
    if events == [] then 0
    else (if Counts(events[0]) then events[0].commits else 0) + CountedCommits(events[1..])
  }

  lemma {:induction false} CommitsOnAppend(events: seq<Event>, e: Event, tz: UtcOffset, d: int)
    ensures CommitsOn(events + [e], tz, d) == CommitsOn(events, tz, d) + CommitsOnDay(e, tz, d)
    decreases |events|
  {
    if events == [] {
      assert [e][1..] == [];
    } else {
      assert (events + [e])[1..] == events[1..] + [e];
      CommitsOnAppend(events[1..], e, tz, d);
    }
  }

  lemma {:induction false} CountedCommitsAppend(events: seq<Event>, e: Event)
    ensures CountedCommits(events + [e]) == CountedCommits(events) + (if Counts(e) then e.commits else 0)
    decreases |events|
  {
    if events == [] {
      assert [e][1..] == [];
    } else {
      assert (events + [e])[1..] == events[1..] + [e];
      CountedCommitsAppend(events[1..], e);
    }
  }

  /**
    `aggregate_commit_days`: walk the events in order and add the commit
    count of each counted one to its local day. Each day's entry is the total
    of the commits that fell on it, and only days that received commits appear.
  */
  function Aggregate(events: seq<Event>, tz: UtcOffset): (m: Contributions)
    ensures forall d :: d in m ==> m[d] > 0
    ensures forall d :: Get(m, d) == CommitsOn(events, tz, d)
    decreases |events|
  {
    if events == [] then map[]
    else
      var init, e := events[..|events| - 1], events[|events| - 1];
      assert events == init + [e];
      var m := Aggregate(init, tz);
      var m' := if Counts(e) then m[DayOf(e, tz) := Get(m, DayOf(e, tz)) + e.commits] else m;
      assert forall d :: Get(m', d) == CommitsOn(events, tz, d) by {
        forall d ensures Get(m', d) == CommitsOn(events, tz, d) {
          CommitsOnAppend(init, e, tz, d);
        }
      }
      m'
  }

  /** A day appears in the aggregate exactly when some counted event falls on it. */
  lemma {:induction false} CommitsOnPositive(events: seq<Event>, tz: UtcOffset, d: int)
    ensures CommitsOn(events, tz, d) > 0 <==>
            exists i :: 0 <= i < |events| && Counts(events[i]) && DayOf(events[i], tz) == d
    decreases |events|
  {
    if events != [] {
      CommitsOnPositive(events[1..], tz, d);
      if exists i :: 0 <= i < |events| && Counts(events[i]) && DayOf(events[i], tz) == d {
        var i :| 0 <= i < |events| && Counts(events[i]) && DayOf(events[i], tz) == d;
        if i > 0 {
          assert events[1..][i - 1] == events[i];
        }
      }
      if exists j :: 0 <= j < |events[1..]| && Counts(events[1..][j]) && DayOf(events[1..][j], tz) == d {
        var j :| 0 <= j < |events[1..]| && Counts(events[1..][j]) && DayOf(events[1..][j], tz) == d;
        assert events[j + 1] == events[1..][j];
      }
    }
  }

  lemma {:induction false} AggregateDays(events: seq<Event>, tz: UtcOffset, d: int)
    ensures d in Aggregate(events, tz) <==>
            exists i :: 0 <= i < |events| && Counts(events[i]) && DayOf(events[i], tz) == d
  {
    CommitsOnPositive(events, tz, d);
  }

  /** The aggregate is empty exactly when no event is counted. */
  lemma {:induction false} AggregateEmpty(events: seq<Event>, tz: UtcOffset)
    ensures Aggregate(events, tz) == map[] <==> forall i :: 0 <= i < |events| ==> !Counts(events[i])
  {
    var m := Aggregate(events, tz);
    if i :| 0 <= i < |events| && Counts(events[i]) {
      AggregateDays(events, tz, DayOf(events[i], tz));
      assert DayOf(events[i], tz) in m;
    }
    if m != map[] {
      NonEmptyHasMember(m.Keys);
      var d :| d in m;
      AggregateDays(events, tz, d);
    }
  }

  /** The aggregate's counts add up to the commits of all counted events: none is lost or doubled. */
  lemma {:induction false} AggregateTotal(events: seq<Event>, tz: UtcOffset)
    ensures Sum(Aggregate(events, tz)) == CountedCommits(events)
    decreases |events|
  {
    if events == [] {
      SumSmall(0, 0);
    } else {
      var init, e := events[..|events| - 1], events[|events| - 1];
      assert events == init + [e];
      AggregateTotal(init, tz);
      CountedCommitsAppend(init, e);
      if Counts(e) {
        var m := Aggregate(init, tz);
        SumUpdate(m, DayOf(e, tz), Get(m, DayOf(e, tz)) + e.commits);
      }
    }
  }

  /**
    `page_oldest_timestamp`: the earliest `created_at` among the events that
    carry one, found by a left-to-right scan.
  */
  function PageOldestTimestamp(events: seq<Event>): (oldest: Option<int>)
    ensures oldest.None? <==> forall i :: 0 <= i < |events| ==> events[i].createdAt.None?
    ensures oldest.Some? ==> exists i :: 0 <= i < |events| && events[i].createdAt == oldest
    ensures oldest.Some? ==> forall i :: 0 <= i < |events| && events[i].createdAt.Some? ==>
                               oldest.value <= events[i].createdAt.value
    decreases |events|
  {
    if events == [] then None
    else
      var init, e := events[..|events| - 1], events[|events| - 1];
      assert forall i :: 0 <= i < |init| ==> init[i] == events[i];
      var prior := PageOldestTimestamp(init);
      match e.createdAt
      case None => prior
      case Some(candidate) =>
        if prior.None? || candidate < prior.value then Some(candidate) else prior
  }
}
