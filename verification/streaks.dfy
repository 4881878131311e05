/**
  The streak summary shown on the card: total commits, the longest run of
  consecutive contribution days and the run that is still going. Days are
  ordinals, so "the next day" is `d + 1` and a run is an interval of days
  that are all present in the contribution map.
*/
module Streaks {
  import opened Wrappers
  import opened Days

  /** The seven values the card displays; a span is absent when there is no such run. */
  datatype StreakStats = StreakStats(
    totalContributions: int,
    currentStreak: nat,
    longestStreak: nat,
    currentStart: Option<int>,
    currentEnd: Option<int>,
    longestStart: Option<int>,
    longestEnd: Option<int>)

  /** Every day from `a` to `b` (inclusive, `a <= b`) has an entry in `m`. */
  ghost predicate IsRun(m: Contributions, a: int, b: int) {
    a <= b && forall d :: a <= d <= b ==> d in m
  }

  /**
    The longest span of `s` is a run of `m`, no run of `m` is longer, and
    among the runs of that length it is the earliest.
  */
  ghost predicate LongestSpec(m: Contributions, s: StreakStats) {
    && s.longestStart.Some? && s.longestEnd.Some?
    && IsRun(m, s.longestStart.value, s.longestEnd.value)
    && s.longestStreak == s.longestEnd.value - s.longestStart.value + 1
    && (forall a, b :: IsRun(m, a, b) ==> b - a + 1 <= s.longestStreak)
    && (forall a, b :: IsRun(m, a, b) && b - a + 1 == s.longestStreak ==> s.longestStart.value <= a)
  }

  /**
    When the latest contribution day is more than one day before `today`
    there is no current streak; otherwise the current span is the maximal
    run that ends on the latest day.
  */
  ghost predicate CurrentSpec(m: Contributions, today: int, streak: nat, start: Option<int>, end: Option<int>)
    requires m != map[]
  {
    var latest := MaxOf(m.Keys);
    if today - latest > 1 then
      streak == 0 && start == None && end == None
    else
      && end == Some(latest)
      && start.Some?
      && IsRun(m, start.value, latest)
      && start.value - 1 !in m
      && streak == latest - start.value + 1
  }

  /** The two ends of a run are contribution days. */
  lemma RunEnds(m: Contributions, a: int, b: int)
    requires IsRun(m, a, b)
    ensures a in m && b in m
  {
  }

  /**
    A run that starts before `days[i]` ends no later than `days[i - 1]` when
    the two are not consecutive days.
  */
  lemma RunStopsAtGap(m: Contributions, days: seq<int>, i: int, a: int, b: int)
    requires Enumerates(days, m.Keys)
    requires 0 < i < |days| && days[i] - days[i - 1] != 1
    requires IsRun(m, a, b) && a < days[i]
    ensures b <= days[i - 1]
  {
    RunEnds(m, a, b);
    NoDayBetween(days, m.Keys, i, a);
    if b > days[i - 1] {
      var next := days[i - 1] + 1;
      assert next in m;
      assert days[i - 1] < days[i];
      NoDayBetween(days, m.Keys, i, next);
      assert false;
    }
  }

  /** Every run lies between the earliest and the latest contribution day. */
  lemma RunWithinDays(m: Contributions, days: seq<int>, a: int, b: int)
    requires Enumerates(days, m.Keys) && |days| > 0
    requires IsRun(m, a, b)
    ensures days[0] <= a && b <= days[|days| - 1]
  {
    RunEnds(m, a, b);
    EnumerationBounds(days, m.Keys);
  }

  /** The days from `a` to `b`. */
  function Span(a: int, b: int): (days: set<int>)
    ensures forall d :: d in days <==> a <= d <= b
    decreases b - a
  {
    if b < a then {} else Span(a, b - 1) + {b}
  }

  lemma {:induction false} SpanSize(a: int, b: int)
    requires a <= b
    ensures |Span(a, b)| == b - a + 1
    decreases b - a
  {
    if a < b {
      SpanSize(a, b - 1);
      assert Span(a, b) == Span(a, b - 1) + {b};
    } else {
      assert Span(a, b) == {a};
    }
  }

  lemma {:induction false} SubsetSize(x: set<int>, y: set<int>)
    requires x <= y
    ensures |x| <= |y|
    decreases x
  {
    if x != {} {
      NonEmptyHasMember(x);
      var d :| d in x;
      SubsetSize(x - {d}, y - {d});
    }
  }

  /** A run is never longer than the number of contribution days. */
  lemma RunFitsInDays(m: Contributions, a: int, b: int)
    requires IsRun(m, a, b)
    ensures b - a + 1 <= |m|
  {
    SpanSize(a, b);
    SubsetSize(Span(a, b), m.Keys);
  }

  /** Prolonging a run by one contribution day on the left keeps it a run. */
  lemma ExtendRunLeft(m: Contributions, a: int, b: int)
    requires IsRun(m, a, b) && a - 1 in m
    ensures IsRun(m, a - 1, b)
  {
  }

  /**
    The run `[runStart, runEnd]` has just been closed: either it becomes the
    longest span or the longest span stays. Either way, every run starting
    before `next` is bounded by the new longest length, and the earliest of
    the runs of that length is the new longest span.
  */
  lemma CloseRun(m: Contributions, runStart: int, runEnd: int, next: int,
                 oldLen: int, oldStart: int, newLen: int, newStart: int)
    requires IsRun(m, runStart, runEnd) && runEnd < next
    requires oldStart <= runStart
    requires forall a, b :: IsRun(m, a, b) && a < runStart ==> b - a + 1 <= oldLen
    requires forall a, b :: IsRun(m, a, b) && a < runStart && b - a + 1 == oldLen ==> oldStart <= a
    requires forall a, b :: IsRun(m, a, b) && runStart <= a < next ==> b <= runEnd
    requires runEnd - runStart + 1 > oldLen ==> newLen == runEnd - runStart + 1 && newStart == runStart
    requires runEnd - runStart + 1 <= oldLen ==> newLen == oldLen && newStart == oldStart
    ensures forall a, b :: IsRun(m, a, b) && a < next ==> b - a + 1 <= newLen
    ensures forall a, b :: IsRun(m, a, b) && a < next && b - a + 1 == newLen ==> newStart <= a
  {
    forall a, b | IsRun(m, a, b) && a < next
      ensures b - a + 1 <= newLen
      ensures b - a + 1 == newLen ==> newStart <= a
    {
      if a >= runStart {
        assert b <= runEnd;
      }
    }
  }

  /**
    The single pass of `compute_streaks` over the sorted contribution days:
    it keeps the run being walked and the longest run closed so far, and a
    closed run replaces the longest one only when it is strictly longer.
  */
  method LongestRun(m: Contributions, days: seq<int>) returns (len: nat, start: int, end: int)
    requires Enumerates(days, m.Keys) && |days| > 0
    ensures len >= 1 && IsRun(m, start, end) && len == end - start + 1
    ensures forall a, b :: IsRun(m, a, b) ==> b - a + 1 <= len
    ensures forall a, b :: IsRun(m, a, b) && b - a + 1 == len ==> start <= a
  {
    len := 1;
    start, end := days[0], days[0];
    var runStart, prev := days[0], days[0];
    assert days[0] in days;
    forall a, b | IsRun(m, a, b) ensures days[0] <= a {
      RunWithinDays(m, days, a, b);
    }

    var i := 1;
    while i < |days|
      invariant 1 <= i <= |days|
      invariant prev == days[i - 1]
      invariant IsRun(m, runStart, prev)
      invariant IsRun(m, start, end) && len == end - start + 1
      invariant start <= runStart
      invariant forall a, b :: IsRun(m, a, b) && a < runStart ==> b - a + 1 <= len
      invariant forall a, b :: IsRun(m, a, b) && a < runStart && b - a + 1 == len ==> start <= a
    {
      var day := days[i];
      assert day in days;
      assert prev < day;
      if day - prev == 1 {
        prev := day;
      } else {
        var runLen := prev - runStart + 1;
        ghost var oldLen, oldStart := len, start;
        if runLen > len {
          len := runLen;
          start := runStart;
          end := prev;
        }
        forall a, b | IsRun(m, a, b) && runStart <= a < day ensures b <= prev {
          RunStopsAtGap(m, days, i, a, b);
        }
        CloseRun(m, runStart, prev, day, oldLen, oldStart, len, start);
        runStart := day;
        prev := day;
      }
      i := i + 1;
    }

    // The final run is closed after the loop.
    var runLen := prev - runStart + 1;
    ghost var oldLen, oldStart := len, start;
    if runLen > len {
      len := runLen;
      start := runStart;
      end := prev;
    }
    forall a, b | IsRun(m, a, b) && runStart <= a < prev + 1 ensures b <= prev {
      RunWithinDays(m, days, a, b);
    }
    CloseRun(m, runStart, prev, prev + 1, oldLen, oldStart, len, start);
    forall a, b | IsRun(m, a, b) ensures a < prev + 1 {
      RunWithinDays(m, days, a, b);
    }
  }

  /**
    The backward walk of `compute_streaks` from the latest day: step to the
    previous day while it has contributions.
  */
  method CurrentRunStart(m: Contributions, days: seq<int>) returns (start: int)
    requires Enumerates(days, m.Keys) && |days| > 0
    ensures IsRun(m, start, days[|days| - 1])
    ensures start - 1 !in m
  {
    EnumerationBounds(days, m.Keys);
    var latest := days[|days| - 1];
    assert latest in days;
    start := latest;
    while start - 1 in m
      invariant days[0] <= start <= latest
      invariant IsRun(m, start, latest)
      decreases start - days[0]
    {
      ExtendRunLeft(m, start, latest);
      start := start - 1;
    }
  }

  /**
    The current streak of `compute_streaks`: none when the latest day is
    before yesterday, and otherwise the run that ends on the latest day.
  */
  method CurrentRun(m: Contributions, days: seq<int>, today: int) returns (len: nat, start: Option<int>, end: Option<int>)
    requires Enumerates(days, m.Keys) && |days| > 0
    ensures m != map[] && CurrentSpec(m, today, len, start, end)
    ensures len == 0 <==> start == None
    ensures start.Some? ==> IsRun(m, start.value, days[|days| - 1])
  {
    EnumerationBounds(days, m.Keys);
    var latest := days[|days| - 1];
    if today - latest > 1 {
      return 0, None, None;
    }
    var first := CurrentRunStart(m, days);
    len, start, end := latest - first + 1, Some(first), Some(latest);
  }

  /**
    Mirrors `compute_streaks`: the total of all counts, the longest run, and
    the current run, which counts only while the latest contribution day is
    today or yesterday.
  */
  method ComputeStreaks(m: Contributions, today: int) returns (s: StreakStats)
    ensures m == map[] ==> s == StreakStats(0, 0, 0, None, None, None, None)
    ensures s.totalContributions == Sum(m)
    ensures m != map[] ==> s.longestStreak >= 1 && LongestSpec(m, s)
    ensures m != map[] ==> CurrentSpec(m, today, s.currentStreak, s.currentStart, s.currentEnd)
    ensures s.currentStreak <= s.longestStreak
    ensures s.currentStreak == 0 <==> s.currentStart == None
  {
    if m == map[] {
      return StreakStats(0, 0, 0, None, None, None, None);
    }
    var days := SortedDays(m.Keys);
    var total := Sum(m);
    var longestLen, longestStart, longestEnd := LongestRun(m, days);
    var currentLen, currentStart, currentEnd := CurrentRun(m, days, today);
    s := StreakStats(total, currentLen, longestLen, currentStart, currentEnd,
                     Some(longestStart), Some(longestEnd));
  }

  /** The longest-streak properties pin the longest span down completely. */
  lemma LongestSpecUnique(m: Contributions, s1: StreakStats, s2: StreakStats)
    requires LongestSpec(m, s1) && LongestSpec(m, s2)
    ensures s1.longestStreak == s2.longestStreak
    ensures s1.longestStart == s2.longestStart && s1.longestEnd == s2.longestEnd
  {
  }

  /** The current-streak properties pin the current span down completely. */
  lemma CurrentSpecUnique(m: Contributions, today: int,
                          len1: nat, start1: Option<int>, end1: Option<int>,
                          len2: nat, start2: Option<int>, end2: Option<int>)
    requires m != map[]
    requires CurrentSpec(m, today, len1, start1, end1) && CurrentSpec(m, today, len2, start2, end2)
    ensures len1 == len2 && start1 == start2 && end1 == end2
  {
  }
}
