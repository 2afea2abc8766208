/**
 * The query planner `create_one_year_time_ranges`: a date range is cut into
 * windows of at most 365 days (start + 364), the cursor advancing by 365 days.
 * Dates are day numbers; adding a `timedelta(days=n)` is adding `n`.
 */
module Planner {

  function Min(a: int, b: int): int {
    if a <= b then a else b
  }

  /** The windows the loop appends once its cursor stands at `start`. */
  function Windows(start: int, end: int): (r: seq<(int, int)>)
    decreases end - start
    ensures forall k :: 0 <= k < |r| ==> start <= r[k].0 < r[k].1 <= end
  {
    if start < end then [(start, Min(start + 364, end))] + Windows(start + 365, end) else []
  }

  /** The planner's loop, as written: `while start < end`, clip the window end to `end`. */
  method PlanRanges(startDate: int, endDate: int) returns (ranges: seq<(int, int)>)
    ensures ranges == Windows(startDate, endDate)
  {
    ranges := [];
    var rangeStart := startDate;
    while rangeStart < endDate
      invariant ranges + Windows(rangeStart, endDate) == Windows(startDate, endDate)
      decreases endDate - rangeStart
    {
      var rangeEnd := rangeStart + 364;
      if rangeEnd > endDate {
        rangeEnd := endDate;
      }
      assert Windows(rangeStart, endDate) == [(rangeStart, rangeEnd)] + Windows(rangeStart + 365, endDate);
      ranges := ranges + [(rangeStart, rangeEnd)];
      rangeStart := rangeStart + 365;
    }
  }

  /** The k-th window starts 365k days after `start`; there is one exactly while that start is before `end`. */
  lemma {:induction false} WindowAt(start: int, end: int, k: nat)
    decreases k
    ensures k < |Windows(start, end)| <==> start + 365 * k < end
    ensures k < |Windows(start, end)| ==>
      Windows(start, end)[k] == (start + 365 * k, Min(start + 365 * k + 364, end))
  {
    if start < end && k > 0 {
      WindowAt(start + 365, end, k - 1);
    }
  }

  /** A range that is empty or reversed, including `start == end`, plans no window. */
  lemma NoWindowsUnlessBefore(start: int, end: int)
    ensures Windows(start, end) == [] <==> end <= start
  {
  }

  /** Every window is non-empty and inside the range, and each starts the day after the previous one ends. */
  lemma WindowsShape(start: int, end: int)
    ensures forall k :: 0 <= k < |Windows(start, end)| ==>
      start <= Windows(start, end)[k].0 < Windows(start, end)[k].1 <= end
    ensures forall k :: 0 <= k < |Windows(start, end)| - 1 ==>
      Windows(start, end)[k + 1].0 == Windows(start, end)[k].1 + 1
  {
    var w := Windows(start, end);
    forall k | 0 <= k < |w| ensures start <= w[k].0 < w[k].1 <= end {
      WindowAt(start, end, k);
    }
    forall k | 0 <= k < |w| - 1 ensures w[k + 1].0 == w[k].1 + 1 {
      WindowAt(start, end, k);
      WindowAt(start, end, k + 1);
    }
  }

  /** Windows are disjoint: an earlier window ends before a later one starts. */
  lemma WindowsDisjoint(start: int, end: int, i: nat, j: nat)
    requires i < j < |Windows(start, end)|
    ensures Windows(start, end)[i].1 < Windows(start, end)[j].0
  {
    WindowAt(start, end, i);
    WindowAt(start, end, j);
  }

  /** The number of windows is the number of 365-day steps needed to reach `end`. */
  lemma WindowCount(start: int, end: int)
    ensures |Windows(start, end)| == if start < end then (end - start - 1) / 365 + 1 else 0
  {
    var n := |Windows(start, end)|;
    if start < end {
      var q := (end - start - 1) / 365;
      WindowAt(start, end, q);
      WindowAt(start, end, q + 1);
      assert q < n;
      assert !(q + 1 < n);
    } else {
      NoWindowsUnlessBefore(start, end);
    }
  }

  /**
   * The last window ends at `end`, except when `end - start` is a multiple of 365:
   * then the cursor lands on `end` itself, the loop stops, and the last window ends the day before.
   */
  lemma LastWindowEnd(start: int, end: int)
    requires start < end
    ensures |Windows(start, end)| > 0
    ensures Windows(start, end)[|Windows(start, end)| - 1].1 ==
      if (end - start) % 365 == 0 then end - 1 else end
  {
    var n := |Windows(start, end)|;
    WindowAt(start, end, 0);
    WindowAt(start, end, n - 1);
    WindowAt(start, end, n);
    var q := (end - start) / 365;
    assert end - start == 365 * q + (end - start) % 365;
  }

  /** Day `d` lies in one of the windows. */
  ghost predicate Covered(windows: seq<(int, int)>, d: int) {
    exists k :: 0 <= k < |windows| && windows[k].0 <= d <= windows[k].1
  }

  /**
   * The days the plan covers: every day from `start` to `end`, but the last
   * day is lost when `end - start` is a positive multiple of 365, and a
   * one-day range (`start == end`) covers nothing.
   */
  lemma WindowsCoverage(start: int, end: int, d: int)
    ensures Covered(Windows(start, end), d) <==>
      start < end && start <= d <= end && !(d == end && (end - start) % 365 == 0)
  {
    var w := Windows(start, end);
    WindowsShape(start, end);
    if start < end && start <= d < end {
      var k := (d - start) / 365;
      assert start + 365 * k <= d < start + 365 * k + 365;
      WindowAt(start, end, k);
      assert w[k].0 <= d <= w[k].1;
    }
    if start < end {
      LastWindowEnd(start, end);
      var n := |w|;
      if (end - start) % 365 == 0 && Covered(w, end) {
        var k :| 0 <= k < n && w[k].0 <= end <= w[k].1;
        if k < n - 1 {
          WindowsDisjoint(start, end, k, n - 1);
        }
        assert false;
      }
      if (end - start) % 365 != 0 {
        assert w[n - 1].0 <= end <= w[n - 1].1;
      }
    }
  }

  /** The plan as evidently intended: `while start <= end`, so that every day of the range is searched. */
  function WindowsThrough(start: int, end: int): (r: seq<(int, int)>)
    decreases end - start + 1
    ensures forall k :: 0 <= k < |r| ==> start <= r[k].0 <= r[k].1 <= end
  {
    if start <= end then [(start, Min(start + 364, end))] + WindowsThrough(start + 365, end) else []
  }

  lemma {:induction false} WindowThroughAt(start: int, end: int, k: nat)
    decreases k
    ensures k < |WindowsThrough(start, end)| <==> start + 365 * k <= end
    ensures k < |WindowsThrough(start, end)| ==>
      WindowsThrough(start, end)[k] == (start + 365 * k, Min(start + 365 * k + 364, end))
  {
    if start <= end && k > 0 {
      WindowThroughAt(start + 365, end, k - 1);
    }
  }

  /** The corrected plan covers exactly the days from `start` to `end`, each in one window only. */
  lemma WindowsThroughCoverage(start: int, end: int, d: int)
    ensures Covered(WindowsThrough(start, end), d) <==> start <= d <= end
    ensures forall i, j :: 0 <= i < j < |WindowsThrough(start, end)| ==>
      WindowsThrough(start, end)[i].1 < WindowsThrough(start, end)[j].0
  {
    var w := WindowsThrough(start, end);
    if start <= d <= end {
      var k := (d - start) / 365;
      assert start + 365 * k <= d < start + 365 * k + 365;
      WindowThroughAt(start, end, k);
      assert w[k].0 <= d <= w[k].1;
    }
    if Covered(w, d) {
      var k :| 0 <= k < |w| && w[k].0 <= d <= w[k].1;
      WindowThroughAt(start, end, k);
    }
    forall i, j | 0 <= i < j < |w| ensures w[i].1 < w[j].0 {
      WindowThroughAt(start, end, i);
      WindowThroughAt(start, end, j);
    }
  }

  /** The smallest range that shows the lost day: 0..365 plans only [0, 364]. */
  lemma LastDayLost()
    ensures Windows(0, 365) == [(0, 364)]
    ensures !Covered(Windows(0, 365), 365)
    ensures Covered(WindowsThrough(0, 365), 365)
  {
    WindowsCoverage(0, 365, 365);
    WindowsThroughCoverage(0, 365, 365);
    assert Windows(365, 365) == [];
  }
}
