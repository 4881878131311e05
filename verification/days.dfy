/**
  Calendar days as integer ordinals (the value Python's `date.toordinal()`
  gives; consecutive days differ by one), and contribution maps from a day to
  its commit count. This module holds what the streak computation needs of
  them: the least and greatest day of a set, the days of a map in ascending
  order (`sorted(d.keys())`), and the sum of a map's counts
  (`sum(d.values())`).
*/
module Days {

  /** Commit count per calendar day. */
  type Contributions = map<int, int>

  /** The count recorded for `d`, or 0 when `d` is absent (`dict.get(d, 0)`). */
  function Get(m: Contributions, d: int): int {
    if d in m then m[d] else 0
  }

  lemma NonEmptyHasMember(s: set<int>)
    requires s != {}
    ensures exists d :: d in s
  {
    if forall d :: d !in s {
      assert false;
    }
  }

  /** `lo` is the earliest day of `s`. */
  predicate IsLeast(s: set<int>, lo: int) {
    lo in s && forall d :: d in s ==> lo <= d
  }

  /** `hi` is the latest day of `s`. */
  predicate IsGreatest(s: set<int>, hi: int) {
    hi in s && forall d :: d in s ==> d <= hi
  }

  /** Every non-empty finite set of days has a least member. */
  lemma {:induction false} LeastMemberExists(s: set<int>)
    requires s != {}
    ensures exists lo :: IsLeast(s, lo)
    decreases s
  {
    NonEmptyHasMember(s);
    var x :| x in s;
    var rest := s - {x};
    if rest == {} {
      assert s == {x};
      assert IsLeast(s, x);
    } else {
      LeastMemberExists(rest);
      var r :| IsLeast(rest, r);
      var lo := if x < r then x else r;
      forall d | d in s ensures lo <= d {
        if d != x { assert d in rest; }
      }
      assert IsLeast(s, lo);
    }
  }

  /** Every non-empty finite set of days has a greatest member. */
  lemma {:induction false} GreatestMemberExists(s: set<int>)
    requires s != {}
    ensures exists hi :: IsGreatest(s, hi)
    decreases s
  {
    NonEmptyHasMember(s);
    var x :| x in s;
    var rest := s - {x};
    if rest == {} {
      assert s == {x};
      assert IsGreatest(s, x);
    } else {
      GreatestMemberExists(rest);
      var r :| IsGreatest(rest, r);
      var hi := if x > r then x else r;
      forall d | d in s ensures d <= hi {
        if d != x { assert d in rest; }
      }
      assert IsGreatest(s, hi);
    }
  }

  /** The earliest day of a non-empty set. */
  function MinOf(s: set<int>): (lo: int)
    requires s != {}
    ensures lo in s
    ensures forall d :: d in s ==> lo <= d
  {
    LeastMemberExists(s);
    var lo :| IsLeast(s, lo); lo
  }

  /** The latest day of a non-empty set. */
  function MaxOf(s: set<int>): (hi: int)
    requires s != {}
    ensures hi in s
    ensures forall d :: d in s ==> d <= hi
  {
    GreatestMemberExists(s);
    var hi :| IsGreatest(s, hi); hi
  }

  /** Each element of `days` comes strictly after the ones before it. */
  predicate StrictlyIncreasing(days: seq<int>) {
    forall i, j :: 0 <= i < j < |days| ==> days[i] < days[j]
  }

  /** `days` lists exactly the days of `s`, each once, in ascending order. */
  ghost predicate Enumerates(days: seq<int>, s: set<int>) {
    StrictlyIncreasing(days) && forall d :: d in days <==> d in s
  }

  /** The days of `s` in ascending order, as `sorted` returns them. */
  function SortedDays(s: set<int>): (days: seq<int>)
    ensures Enumerates(days, s)
    ensures |days| == |s|
    decreases s
  {
    if s == {} then []
    else
      var lo := MinOf(s);
      var rest := SortedDays(s - {lo});
      assert forall d :: d in rest ==> lo < d;
      [lo] + rest
  }

  /** The first and last entries of an enumeration are the set's least and greatest day. */
  lemma EnumerationBounds(days: seq<int>, s: set<int>)
    requires Enumerates(days, s) && |days| > 0
    ensures s != {}
    ensures days[0] == MinOf(s) && days[|days| - 1] == MaxOf(s)
    ensures forall d :: d in s ==> days[0] <= d <= days[|days| - 1]
  {
    assert days[0] in days && days[|days| - 1] in days;
    forall d | d in s ensures days[0] <= d <= days[|days| - 1] {
      var k :| 0 <= k < |days| && days[k] == d;
      assert k == 0 || days[0] < days[k];
      assert k == |days| - 1 || days[k] < days[|days| - 1];
    }
    assert MinOf(s) in s && MaxOf(s) in s;
  }

  /** A day of `s` that lies before `days[i]` lies at or before `days[i - 1]`. */
  lemma NoDayBetween(days: seq<int>, s: set<int>, i: int, d: int)
    requires Enumerates(days, s)
    requires 0 < i < |days|
    requires d in s && d < days[i]
    ensures d <= days[i - 1]
  {
    var k :| 0 <= k < |days| && days[k] == d;
    assert k < i;
    assert k == i - 1 || days[k] < days[i - 1];
  }

  /** The sum of the counts of the days `ds` of `m`, taken in ascending day order. */
  function SumOver(m: Contributions, ds: set<int>): (total: int)
    requires ds <= m.Keys
    ensures (forall d :: d in ds ==> m[d] >= 0) ==> total >= 0
    decreases ds
  {
    if ds == {} then 0
    else
      var lo := MinOf(ds);
      m[lo] + SumOver(m, ds - {lo})
  }

  /** The sum of all counts of `m`. */
  function Sum(m: Contributions): int {
    SumOver(m, m.Keys)
  }

  /** Any day of `ds` may be taken out of the sum first: the order of summation does not matter. */
  lemma {:induction false} SumOverRemove(m: Contributions, ds: set<int>, d: int)
    requires ds <= m.Keys && d in ds
    ensures SumOver(m, ds) == m[d] + SumOver(m, ds - {d})
    decreases ds
  {
    var lo := MinOf(ds);
    if lo != d {
      SumOverRemove(m, ds - {lo}, d);
      var rest := ds - {d};
      assert lo in rest;
      assert MinOf(rest) == lo by {
        var r := MinOf(rest);
        assert r in ds && r <= lo && lo <= r;
      }
      assert rest - {lo} == (ds - {lo}) - {d};
    }
  }

  /** Two maps that agree on `ds` have the same sum over `ds`. */
  lemma {:induction false} SumOverAgree(m1: Contributions, m2: Contributions, ds: set<int>)
    requires ds <= m1.Keys && ds <= m2.Keys
    requires forall d :: d in ds ==> m1[d] == m2[d]
    ensures SumOver(m1, ds) == SumOver(m2, ds)
    decreases ds
  {
    if ds != {} {
      SumOverAgree(m1, m2, ds - {MinOf(ds)});
    }
  }

  /** Setting the count of day `d` to `v` changes the total by `v` minus the old count. */
  lemma SumUpdate(m: Contributions, d: int, v: int)
    ensures Sum(m[d := v]) == Sum(m) - Get(m, d) + v
  {
    var m' := m[d := v];
    SumOverRemove(m', m'.Keys, d);
    assert m'.Keys - {d} == m.Keys - {d};
    SumOverAgree(m', m, m.Keys - {d});
    if d in m {
      SumOverRemove(m, m.Keys, d);
    } else {
      assert m.Keys - {d} == m.Keys;
    }
  }

  /** The empty map sums to 0 and a one-day map to that day's count. */
  lemma SumSmall(d: int, c: int)
    ensures Sum(map[]) == 0
    ensures Sum(map[d := c]) == c
  {
    SumUpdate(map[], d, c);
  }
}
