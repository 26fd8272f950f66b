/**
 * The gap before each active interval (calc_mins_since_last_active and the
 * shifted columns it reads): the minutes between the previous row's end and
 * this row's start, zero when the previous row belongs to another user or
 * there is none, and capped at 500 so that overnight and other long breaks
 * do not swamp the metric.
 */
module Inactivity {
  import opened Wrappers
  import opened Calendar
  import opened Records
  import opened Ordering

  /** The cap on one gap, in minutes. */
  const MaxGap: real := 500.0

  /** mins_since_last_active: this row's start minus the previous row's end, in whole minutes. */
  function MinsSinceLastActive(cur: Row, prior: Row): int
  {
    Minutes(cur.startDate) - Minutes(prior.endDate)
  }

  /** calc_mins_since_last_active for a row and the row before it in the sorted frame, if any. */
  function CalcMinsSinceLastActive(cur: Row, prior: Option<Row>): real
  {
    if prior.None? || cur.user != prior.value.user then 0.0
    else if MinsSinceLastActive(cur, prior.value) as real > MaxGap then MaxGap
    else MinsSinceLastActive(cur, prior.value) as real
  }

  /** The row shift(1) lines up with row i: the one before it, or none for the first row. */
  function Prior(rows: seq<Row>, i: nat): Option<Row>
    requires i < |rows|
  {
    if i == 0 then None else Some(rows[i - 1])
  }

  /**
   * The gap is never above the cap; it is 0 without a previous row of the
   * same user; otherwise it is the raw difference capped at 500, so the raw
   * difference survives exactly when it is at most 500, negative ones included.
   */
  lemma GapIsCappedDifference(cur: Row, prior: Option<Row>)
    ensures CalcMinsSinceLastActive(cur, prior) <= MaxGap
    ensures prior.None? || prior.value.user != cur.user ==> CalcMinsSinceLastActive(cur, prior) == 0.0
    ensures prior.Some? && prior.value.user == cur.user ==>
      var raw := MinsSinceLastActive(cur, prior.value);
      && (CalcMinsSinceLastActive(cur, prior) == raw as real <==> raw as real <= MaxGap)
      && (raw as real > MaxGap ==> CalcMinsSinceLastActive(cur, prior) == MaxGap)
  {
  }

  /** The gap column the loop fills in, stated row by row. */
  function Gaps(rows: seq<Row>): (gaps: seq<real>)
    ensures |gaps| == |rows|
  {
    seq(|rows|, i requires 0 <= i < |rows| => CalcMinsSinceLastActive(rows[i], Prior(rows, i)))
  }

  /**
   * Fills filtered_mins_since_last_active by scanning the sorted rows and
   * comparing each with the one before it.
   */
  method AnnotateGaps(rows: seq<Row>) returns (gaps: seq<real>)
    ensures gaps == Gaps(rows)
    ensures forall i :: 0 <= i < |rows| ==> gaps[i] <= MaxGap
    ensures forall i :: 0 <= i < |rows| && (i == 0 || rows[i - 1].user != rows[i].user) ==> gaps[i] == 0.0
  {
    gaps := [];
    var i := 0;
    while i < |rows|
      invariant i <= |rows|
      invariant |gaps| == i
      invariant forall j :: 0 <= j < i ==> gaps[j] == Gaps(rows)[j]
    {
      var prior := if i == 0 then None else Some(rows[i - 1]);
      gaps := gaps + [CalcMinsSinceLastActive(rows[i], prior)];
      i := i + 1;
    }
  }

  /**
   * In a frame sorted by user and end date, the first row of every user's
   * block has gap 0, and every other row's gap is measured from the previous
   * row of that same user.
   */
  lemma {:induction false} GapsRestartPerUser(rows: seq<Row>, i: nat)
    requires Sorted(rows) && i < |rows|
    ensures (forall j :: 0 <= j < i ==> rows[j].user != rows[i].user) ==> Gaps(rows)[i] == 0.0
    ensures (exists j :: 0 <= j < i && rows[j].user == rows[i].user) ==>
      rows[i - 1].user == rows[i].user
      && Gaps(rows)[i] == CalcMinsSinceLastActive(rows[i], Some(rows[i - 1]))
  {
    if exists j :: 0 <= j < i && rows[j].user == rows[i].user {
      var j :| 0 <= j < i && rows[j].user == rows[i].user;
      var prev: nat := i - 1;
      if j < prev {
        UsersContiguous(rows, j, prev, i);
      }
      assert rows[prev].user == rows[i].user;
    }
  }
}
