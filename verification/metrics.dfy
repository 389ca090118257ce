/**
  The scheduling metrics the handler returns next to the order: the number
  of tasks, the sum of their estimated hours, and the earliest and latest due
  dates, each a `reduce` over the task list.
*/
module Metrics {
  import opened Tasks

  datatype ScheduleMetrics = ScheduleMetrics(
    totalTasks: nat,
    totalEstimatedHours: int,
    earliestDueDate: int,
    latestDueDate: int)

  /** The hours of the tasks, summed from 0, left to right. */
  function TotalHours(ts: seq<Task>): int
  {
    if ts == [] then 0 else TotalHours(ts[..|ts| - 1]) + ts[|ts| - 1].hours
  }

  /** The earliest-due-date `reduce`, started from `seed`: a task replaces the
      running value only when it is strictly earlier. */
  function EarliestFrom(ts: seq<Task>, seed: int): int
  {
    if ts == [] then seed
    else
      var earliest := EarliestFrom(ts[..|ts| - 1], seed);
      if ts[|ts| - 1].due < earliest then ts[|ts| - 1].due else earliest
  }

  /** The latest-due-date `reduce`, started from `seed`. */
  function LatestFrom(ts: seq<Task>, seed: int): int
  {
    if ts == [] then seed
    else
      var latest := LatestFrom(ts[..|ts| - 1], seed);
      if ts[|ts| - 1].due > latest then ts[|ts| - 1].due else latest
  }

  /** The metrics object. Both date reductions are seeded with the first
      task's due date, so the list must not be empty. */
  function ComputeMetrics(ts: seq<Task>): ScheduleMetrics
    requires ts != []
  {
    ScheduleMetrics(|ts|, TotalHours(ts), EarliestFrom(ts, ts[0].due), LatestFrom(ts, ts[0].due))
  }

  /** The running value never exceeds the seed or any due date, and it is
      the seed or one of the due dates. */
  lemma {:induction false} EarliestFromIsMin(ts: seq<Task>, seed: int)
    ensures EarliestFrom(ts, seed) <= seed
    ensures forall i :: 0 <= i < |ts| ==> EarliestFrom(ts, seed) <= ts[i].due
    ensures EarliestFrom(ts, seed) == seed || exists i :: 0 <= i < |ts| && EarliestFrom(ts, seed) == ts[i].due
  {
    if ts != [] {
      var prefix := ts[..|ts| - 1];
      EarliestFromIsMin(prefix, seed);
      if EarliestFrom(ts, seed) != seed && EarliestFrom(ts, seed) != ts[|ts| - 1].due {
        var i :| 0 <= i < |prefix| && EarliestFrom(prefix, seed) == prefix[i].due;
        assert ts[i] == prefix[i];
      }
    }
  }

  lemma {:induction false} LatestFromIsMax(ts: seq<Task>, seed: int)
    ensures LatestFrom(ts, seed) >= seed
    ensures forall i :: 0 <= i < |ts| ==> LatestFrom(ts, seed) >= ts[i].due
    ensures LatestFrom(ts, seed) == seed || exists i :: 0 <= i < |ts| && LatestFrom(ts, seed) == ts[i].due
  {
    if ts != [] {
      var prefix := ts[..|ts| - 1];
      LatestFromIsMax(prefix, seed);
      if LatestFrom(ts, seed) != seed && LatestFrom(ts, seed) != ts[|ts| - 1].due {
        var i :| 0 <= i < |prefix| && LatestFrom(prefix, seed) == prefix[i].due;
        assert ts[i] == prefix[i];
      }
    }
  }

  /** The metrics describe the list: its length, its total effort, and the
      minimum and maximum due date, each attained by some task. */
  lemma MetricsMeaning(ts: seq<Task>)
    requires ts != []
    ensures ComputeMetrics(ts).totalTasks == |ts|
    ensures ComputeMetrics(ts).totalEstimatedHours == TotalHours(ts)
    ensures forall i :: 0 <= i < |ts| ==>
      ComputeMetrics(ts).earliestDueDate <= ts[i].due <= ComputeMetrics(ts).latestDueDate
    ensures exists i :: 0 <= i < |ts| && ComputeMetrics(ts).earliestDueDate == ts[i].due
    ensures exists i :: 0 <= i < |ts| && ComputeMetrics(ts).latestDueDate == ts[i].due
  {
    EarliestFromIsMin(ts, ts[0].due);
    LatestFromIsMax(ts, ts[0].due);
  }
}
