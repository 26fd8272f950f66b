/**
 * compute_stats: the four daily averages over the normalised rows. Each one
 * groups its rows by (user, date_stamp), sums one quantity per group and
 * divides the total by the number of groups.
 */
module Stats {
  import opened Wrappers
  import opened Calendar
  import opened Records
  import opened Reduction
  import opened Ordering
  import opened Inactivity

  /** The threshold, in steps per hour, above which a step interval counts as activity. */
  const ActiveRate: real := 2000.0

  /** The grouping key of every metric. */
  type DayKey = (string, ValidDateTime)

  /** The returned dictionary; None where there is no group to average over. */
  datatype Metrics = Metrics(
    avgDailySteps: Option<real>,
    avgDailyDistance: Option<real>,
    avgDailyActivityMins: Option<real>,
    avgDailyInactivityMins: Option<real>)

  function DayOf(r: Row): DayKey
  {
    (r.user, r.dateStamp)
  }

  /** The rows that satisfy p, in their order: every copy of such a row, and nothing else. */
  function Filter(rows: seq<Row>, p: Row -> bool): (r: seq<Row>)
    ensures |r| <= |rows|
    ensures forall x {:trigger multiset(r)[x]} :: multiset(r)[x] == if p(x) then multiset(rows)[x] else 0
    ensures forall x {:trigger x in r} :: x in r <==> x in rows && p(x)
  {
    if rows == [] then []
    else
      var n := |rows| - 1;
      var prev := Filter(rows[..n], p);
      var last := if p(rows[n]) then [rows[n]] else [];
      assert rows == rows[..n] + [rows[n]];
      assert multiset(rows) == multiset(rows[..n]) + multiset{rows[n]};
      assert multiset(prev + last) == multiset(prev) + multiset(last);
      prev + last
  }

  /** Selecting from a non-empty frame is selecting from all but its last row, then that row if it satisfies p. */
  lemma FilterStep(rows: seq<Row>, p: Row -> bool)
    requires rows != []
    ensures Filter(rows, p) == Filter(rows[..|rows| - 1], p) + if p(rows[|rows| - 1]) then [rows[|rows| - 1]] else []
  {
  }

  /**
   * The selection keeps the input order: its j-th row is the input row at
   * idx[j], the indices strictly increase, and every row satisfying p is
   * among them.
   */
  lemma {:induction false} FilterInOrder(rows: seq<Row>, p: Row -> bool) returns (idx: seq<nat>)
    ensures |idx| == |Filter(rows, p)|
    ensures forall j {:trigger Filter(rows, p)[j]} :: 0 <= j < |idx| ==> idx[j] < |rows| && Filter(rows, p)[j] == rows[idx[j]]
    ensures forall j, l :: 0 <= j < l < |idx| ==> idx[j] < idx[l]
    ensures forall i {:trigger p(rows[i])} :: 0 <= i < |rows| && p(rows[i]) ==> i in idx
  {
    if rows == [] {
      idx := [];
    } else {
      var n := |rows| - 1;
      var before := FilterInOrder(rows[..n], p);
      FilterStep(rows, p);
      if p(rows[n]) {
        idx := before + [n];
      } else {
        idx := before;
      }
      forall j | 0 <= j < |before| ensures idx[j] < |rows| && Filter(rows, p)[j] == rows[idx[j]] {
        assert idx[j] == before[j];
        assert Filter(rows, p)[j] == Filter(rows[..n], p)[j];
        assert rows[..n][before[j]] == rows[before[j]];
      }
      forall j, l | 0 <= j < l < |idx| ensures idx[j] < idx[l] {
        assert idx[j] == before[j] < n;
        if l < |before| {
          assert idx[l] == before[l];
        }
      }
      forall i | 0 <= i < |rows| && p(rows[i]) ensures i in idx {
        if i < n {
          assert rows[..n][i] == rows[i];
          var k :| 0 <= k < |before| && before[k] == i;
          assert idx[k] == i;
        } else {
          assert idx[|before|] == i;
        }
      }
    }
  }

  /** Taking the ties of k out of a selection is selecting on both conditions at once. */
  lemma {:induction false} TiesOfFilter(rows: seq<Row>, p: Row -> bool, q: Row -> bool, k: Row)
    requires forall x :: q(x) == (p(x) && SameKey(x, k))
    ensures Ties(Filter(rows, p), k) == Filter(rows, q)
  {
    if rows != [] {
      var n := |rows| - 1;
      var last := if p(rows[n]) then [rows[n]] else [];
      TiesOfFilter(rows[..n], p, q, k);
      TiesAppend(Filter(rows[..n], p), last, k);
      assert Ties(last, k) == if q(rows[n]) then [rows[n]] else [];
    }
  }

  /** The rows of one record type. */
  function OfType(rows: seq<Row>, recordType: string): seq<Row>
  {
    Filter(rows, (r: Row) => r.recordType == recordType)
  }

  /** Each row's value under its day. */
  function ValueEntries(rows: seq<Row>): seq<Entry<DayKey>>
  {
    seq(|rows|, i requires 0 <= i < |rows| => Entry(DayOf(rows[i]), rows[i].value))
  }

  /** active_time_mins: the end date minus the start date, in whole minutes; negative for an inverted interval. */
  function ActiveTimeMins(r: Row): int
  {
    Minutes(r.endDate) - Minutes(r.startDate)
  }

  /** value_per_hour: the value divided by the duration in hours; undefined for a zero-length interval. */
  function ValuePerHour(r: Row): (rate: Option<real>)
    ensures rate.Some? <==> ActiveTimeMins(r) != 0
    ensures rate.Some? ==> rate.value * (ActiveTimeMins(r) as real / 60.0) == r.value
  {
    var mins := ActiveTimeMins(r);
    RateTimesHours(r.value, mins);
    if mins == 0 then None else Some(r.value / (mins as real / 60.0))
  }

  /** A rate per hour times the hours it was taken over gives back the amount. */
  lemma RateTimesHours(x: real, mins: int)
    ensures mins != 0 ==> (x / (mins as real / 60.0)) * (mins as real / 60.0) == x
  {
  }

  /** A step-count row whose rate is strictly above the threshold. */
  predicate IsActive(r: Row)
  {
    r.recordType == StepCount && ValuePerHour(r).Some? && ValuePerHour(r).value > ActiveRate
  }

  function ActiveSteps(rows: seq<Row>): seq<Row>
  {
    Filter(rows, IsActive)
  }

  /** Each row's active minutes under its day. */
  function ActiveTimeEntries(rows: seq<Row>): seq<Entry<DayKey>>
  {
    seq(|rows|, i requires 0 <= i < |rows| => Entry(DayOf(rows[i]), ActiveTimeMins(rows[i]) as real))
  }

  /** Each row's gap under its day. */
  function GapEntries(rows: seq<Row>, gaps: seq<real>): seq<Entry<DayKey>>
    requires |gaps| == |rows|
  {
    seq(|rows|, i requires 0 <= i < |rows| => Entry(DayOf(rows[i]), gaps[i]))
  }

  /** The active rows in the order the inactivity scan visits them. */
  function ScanOrder(rows: seq<Row>): seq<Row>
  {
    SortByUserEnd(ActiveSteps(rows))
  }

  /**
   * compute_stats. Every metric is the total of its quantity divided by the
   * number of distinct (user, date_stamp) days that contribute to it: step
   * values of step-count rows, distance values of distance rows, active
   * minutes of the active step rows, and capped gaps of those same rows
   * scanned in (user, end_date) order.
   */
  method ComputeStats(rows: seq<Row>) returns (stats: Metrics)
    ensures stats.avgDailySteps == TotalPerKey(ValueEntries(OfType(rows, StepCount)))
    ensures stats.avgDailyDistance == TotalPerKey(ValueEntries(OfType(rows, DistanceWalkingRunning)))
    ensures stats.avgDailyActivityMins == TotalPerKey(ActiveTimeEntries(ActiveSteps(rows)))
    ensures stats.avgDailyInactivityMins == TotalPerKey(GapEntries(ScanOrder(rows), Gaps(ScanOrder(rows))))
  {
    var steps := ValueEntries(OfType(rows, StepCount));
    var distance := ValueEntries(OfType(rows, DistanceWalkingRunning));
    var active := ActiveSteps(rows);
    var activeTime := ActiveTimeEntries(active);
    var scan := SortByUserEnd(active);
    var gaps := AnnotateGaps(scan);
    var inactivity := GapEntries(scan, gaps);
    DailyMeanIsTotalPerKey(steps);
    DailyMeanIsTotalPerKey(distance);
    DailyMeanIsTotalPerKey(activeTime);
    DailyMeanIsTotalPerKey(inactivity);
    stats := Metrics(DailyMean(steps), DailyMean(distance), DailyMean(activeTime), DailyMean(inactivity));
  }

  lemma ProductSign(a: real, b: real)
    ensures a > 0.0 && b > 0.0 ==> a * b > 0.0
  {
  }

  /** A quotient is above c exactly when the dividend is above c times the divisor, the other way round for a negative divisor. */
  lemma QuotientAbove(x: real, h: real, c: real)
    requires h != 0.0
    ensures h > 0.0 ==> (x / h > c <==> x > c * h)
    ensures h < 0.0 ==> (x / h > c <==> x < c * h)
  {
    var q := x / h;
    assert q * h == x;
    if h > 0.0 {
      ProductSign(q - c, h);
      ProductSign(c - q, h);
      assert (q - c) * h == x - c * h;
      assert (c - q) * h == c * h - x;
    } else {
      ProductSign(q - c, -h);
      ProductSign(c - q, -h);
      assert (q - c) * (-h) == c * h - x;
      assert (c - q) * (-h) == x - c * h;
    }
  }

  /**
   * Whether a row is active, without the division: over a forward interval
   * the value must exceed 2000 steps for each hour of it; over an inverted
   * one the bound is negative and the comparison reverses; a zero-length
   * interval never counts, and neither does a rate of exactly 2000.
   */
  lemma ActiveThreshold(r: Row)
    ensures ActiveTimeMins(r) > 0 ==>
      (IsActive(r) <==> r.recordType == StepCount && r.value > ActiveRate * (ActiveTimeMins(r) as real / 60.0))
    ensures ActiveTimeMins(r) < 0 ==>
      (IsActive(r) <==> r.recordType == StepCount && r.value < ActiveRate * (ActiveTimeMins(r) as real / 60.0))
    ensures ActiveTimeMins(r) == 0 ==> !IsActive(r)
    ensures ValuePerHour(r) == Some(ActiveRate) ==> !IsActive(r)
  {
    var mins := ActiveTimeMins(r);
    if mins != 0 {
      var rate := r.value / (mins as real / 60.0);
      assert ValuePerHour(r) == Some(rate);
      assert IsActive(r) <==> r.recordType == StepCount && rate > ActiveRate;
      RateAboveThreshold(r.value, mins);
    }
  }

  /** The threshold test on a value and a non-zero length in minutes, without the division. */
  lemma RateAboveThreshold(x: real, mins: int)
    requires mins != 0
    ensures mins > 0 ==> (x / (mins as real / 60.0) > ActiveRate <==> x > ActiveRate * (mins as real / 60.0))
    ensures mins < 0 ==> (x / (mins as real / 60.0) > ActiveRate <==> x < ActiveRate * (mins as real / 60.0))
  {
    QuotientAbove(x, mins as real / 60.0, ActiveRate);
  }

  /** An interval whose end precedes its start in calendar order has negative active minutes. */
  lemma InvertedIntervalIsNegative(r: Row)
    ensures ActiveTimeMins(r) < 0 <==> Before(r.endDate, r.startDate)
    ensures ActiveTimeMins(r) == 0 <==> r.endDate == r.startDate
  {
    MinutesOrderIsCalendarOrder(r.endDate, r.startDate);
  }

  /**
   * The active rows are the step-count rows of the input whose rate is above
   * the threshold, each copy of such a row included and no other row; the
   * scan visits exactly those rows, as often as they occur.
   */
  lemma ActiveRowsAreFastSteps(rows: seq<Row>)
    ensures forall r ::
      multiset(ActiveSteps(rows))[r] ==
        if r.recordType == StepCount && ValuePerHour(r).Some? && ValuePerHour(r).value > ActiveRate
        then multiset(rows)[r] else 0
    ensures multiset(ScanOrder(rows)) == multiset(ActiveSteps(rows))
  {
  }

  /**
   * Active rows that tie in the scan, with the same user and end time, are
   * visited in their input order: the j-th of them is the input row at
   * idx[j], the indices strictly increase, and every such input row is there.
   */
  lemma ScanTiesInInputOrder(rows: seq<Row>, k: Row) returns (idx: seq<nat>)
    ensures |idx| == |Ties(ScanOrder(rows), k)|
    ensures forall j {:trigger Ties(ScanOrder(rows), k)[j]} :: 0 <= j < |idx| ==> idx[j] < |rows| && Ties(ScanOrder(rows), k)[j] == rows[idx[j]]
    ensures forall j, l :: 0 <= j < l < |idx| ==> idx[j] < idx[l]
    ensures forall i {:trigger SameKey(rows[i], k)} :: 0 <= i < |rows| && IsActive(rows[i]) && SameKey(rows[i], k) ==> i in idx
  {
    var q := (x: Row) => IsActive(x) && SameKey(x, k);
    SortIsStable(ActiveSteps(rows), k);
    TiesOfFilter(rows, IsActive, q, k);
    idx := FilterInOrder(rows, q);
    assert Ties(ScanOrder(rows), k) == Filter(rows, q);
    forall j | 0 <= j < |idx| ensures idx[j] < |rows| && Ties(ScanOrder(rows), k)[j] == rows[idx[j]] {
      assert Ties(ScanOrder(rows), k)[j] == Filter(rows, q)[j];
    }
    forall i | 0 <= i < |rows| && IsActive(rows[i]) && SameKey(rows[i], k) ensures i in idx {
      assert q(rows[i]);
    }
  }
}
