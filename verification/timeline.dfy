/**
  Facts shared by the four algorithms: how a trace of slices is read (CPU time
  per process, completion times, makespan), what makes a trace a feasible
  single-CPU schedule, and the metric and total computation every algorithm
  ends with.
 */
module Timeline {
  import opened SchedulerTypes
  import opened Ordering

  /** The process of each slice, in timeline order. */
  function Procs(sl: seq<Slice>): (r: seq<nat>)
    ensures |r| == |sl|
    ensures forall k :: 0 <= k < |sl| ==> r[k] == sl[k].proc
  {
    seq(|sl|, k requires 0 <= k < |sl| => sl[k].proc)
  }

  /** The process of each completion, in the order completions were recorded. */
  function DoneProcs(d: seq<Completion>): (r: seq<nat>)
    ensures |r| == |d|
    ensures forall k :: 0 <= k < |d| ==> r[k] == d[k].proc
  {
    seq(|d|, k requires 0 <= k < |d| => d[k].proc)
  }

  /** Total CPU time the slices give to process `i`. */
  function Executed(sl: seq<Slice>, i: nat): int {
    if |sl| == 0 then 0
    else
      var x := sl[|sl| - 1];
      Executed(sl[..|sl| - 1], i) + (if x.proc == i then x.end - x.start else 0)
  }

  /** End of the last slice of process `i` (0 when it never ran). */
  function LastEnd(sl: seq<Slice>, i: nat): int {
    if |sl| == 0 then 0
    else if sl[|sl| - 1].proc == i then sl[|sl| - 1].end
    else LastEnd(sl[..|sl| - 1], i)
  }

  /** Where the timeline stops: the end of its last slice, or the initial clock 0. */
  function PrevEnd(sl: seq<Slice>): int {
    if |sl| == 0 then 0 else sl[|sl| - 1].end
  }

  /** Where the clock stood before the k-th slice: the end of the previous
      slice, or the initial 0. */
  function PrevEndAt(sl: seq<Slice>, k: nat): int
    requires k <= |sl|
  {
    if k == 0 then 0 else sl[k - 1].end
  }

  /** Each slice ends no later than the next one starts. */
  predicate Ordered(sl: seq<Slice>) {
    forall k :: 0 <= k < |sl| - 1 ==> sl[k].end <= sl[k + 1].start
  }

  /** Each slice runs an input process, not before it arrives, for a positive time. */
  predicate SlicesValid(ps: seq<Process>, sl: seq<Slice>) {
    forall k :: 0 <= k < |sl| ==>
      sl[k].proc < |ps| && ps[sl[k].proc].arrivalTime <= sl[k].start < sl[k].end
  }

  /** Every process that arrived before time `t` has received its whole burst
      in `sl`: a CPU idle until `t` after `sl` left no ready work behind. */
  predicate FinishedBefore(ps: seq<Process>, sl: seq<Slice>, t: int) {
    forall i :: 0 <= i < |ps| && ps[i].arrivalTime < t ==> Executed(sl, i) == ps[i].burstTime
  }

  /** A complete single-CPU schedule of `ps`: valid, non-overlapping slices; each
      process gets exactly its burst and is completed exactly once, at the end of
      its last slice; the clock stops where the timeline does. */
  ghost predicate Feasible(ps: seq<Process>, t: Trace) {
    && SlicesValid(ps, t.slices)
    && Ordered(t.slices)
    && (forall i :: 0 <= i < |ps| ==> Executed(t.slices, i) == ps[i].burstTime)
    && |t.done| == |ps|
    && Distinct(DoneProcs(t.done))
    && InRange(DoneProcs(t.done), |ps|)
    && (forall i :: 0 <= i < |ps| ==> i in DoneProcs(t.done))
    && (forall k :: 0 <= k < |t.done| ==> t.done[k].time == LastEnd(t.slices, t.done[k].proc))
    && t.clock == PrevEnd(t.slices)
  }

  /** How appending one slice changes the readings of a timeline. */
  lemma AppendSlice(sl: seq<Slice>, x: Slice)
    ensures Procs(sl + [x]) == Procs(sl) + [x.proc]
    ensures PrevEnd(sl + [x]) == x.end
    ensures forall i :: Executed(sl + [x], i) == Executed(sl, i) + (if x.proc == i then x.end - x.start else 0)
    ensures forall i :: LastEnd(sl + [x], i) == (if x.proc == i then x.end else LastEnd(sl, i))
    ensures forall k :: 0 <= k <= |sl| ==> (sl + [x])[..k] == sl[..k]
  {
    assert (sl + [x])[..|sl|] == sl;
  }

  /** In an ordered timeline of non-empty slices no two slices overlap, and
      start times strictly increase. */
  lemma {:induction false} NoOverlap(sl: seq<Slice>, j: nat, k: nat)
    requires Ordered(sl)
    requires forall m :: 0 <= m < |sl| ==> sl[m].start <= sl[m].end
    requires j < k < |sl|
    ensures sl[j].end <= sl[k].start
    decreases k - j
  {
    if j + 1 < k {
      NoOverlap(sl, j + 1, k);
    }
  }

  /** The last slice of a process ends after every other slice of it. */
  lemma {:induction false} LastEndLatest(sl: seq<Slice>, i: nat, k: nat)
    requires Ordered(sl)
    requires forall m :: 0 <= m < |sl| ==> sl[m].start <= sl[m].end
    requires k < |sl| && sl[k].proc == i
    ensures sl[k].end <= LastEnd(sl, i)
  {
    var n := |sl|;
    if k < n - 1 {
      NoOverlap(sl, k, n - 1);
      if sl[n - 1].proc != i {
        var pre := sl[..n - 1];
        assert pre[k] == sl[k];
        assert Ordered(pre) by {
          forall m | 0 <= m < |pre| - 1
            ensures pre[m].end <= pre[m + 1].start
          {
            assert pre[m] == sl[m] && pre[m + 1] == sl[m + 1];
          }
        }
        LastEndLatest(pre, i, k);
      }
    }
  }

  /** CPU time received inside a window: if every slice of `i` lies within
      [a, bound], the slices of `i` add up to at most bound - a. */
  lemma {:induction false} ExecutedBound(sl: seq<Slice>, i: nat, a: int, bound: int)
    requires Ordered(sl)
    requires forall m :: 0 <= m < |sl| ==> sl[m].start <= sl[m].end
    requires forall m :: 0 <= m < |sl| && sl[m].proc == i ==> a <= sl[m].start && sl[m].end <= bound
    ensures Executed(sl, i) == 0 || Executed(sl, i) <= bound - a
  {
    var n := |sl|;
    if n > 0 {
      var pre := sl[..n - 1];
      var x := sl[n - 1];
      assert forall m :: 0 <= m < |pre| ==> pre[m] == sl[m];
      assert Ordered(pre);
      if x.proc == i {
        forall m | 0 <= m < |pre| && pre[m].proc == i
          ensures pre[m].end <= x.start
        {
          NoOverlap(sl, m, n - 1);
        }
        ExecutedBound(pre, i, a, x.start);
      } else {
        ExecutedBound(pre, i, a, bound);
      }
    }
  }

  /** In a feasible schedule each process finishes at least `burstTime` after it
      arrives, so its turnaround covers its burst and its waiting time is not negative. */
  lemma CompletionBound(ps: seq<Process>, t: Trace, k: nat)
    requires PositiveBursts(ps) && Feasible(ps, t)
    requires k < |t.done|
    ensures t.done[k].time - ps[t.done[k].proc].arrivalTime >= ps[t.done[k].proc].burstTime
  {
    var i := t.done[k].proc;
    var sl := t.slices;
    forall m | 0 <= m < |sl| && sl[m].proc == i
      ensures ps[i].arrivalTime <= sl[m].start && sl[m].end <= LastEnd(sl, i)
    {
      LastEndLatest(sl, i, m);
    }
    ExecutedBound(sl, i, ps[i].arrivalTime, LastEnd(sl, i));
  }

  /** A reported timeline entry: the slice with the process's id and name. */
  function Segment(ps: seq<Process>, s: Slice): ExecutedProcess
    requires s.proc < |ps|
  {
    ExecutedProcess(ps[s.proc].id, ps[s.proc].name, s.start, s.end)
  }

  /** turnaround = completion - arrival and waiting = turnaround - burst. */
  function Metric(ps: seq<Process>, c: Completion): ProcessMetric
    requires c.proc < |ps|
  {
    var p := ps[c.proc];
    var turnaround := c.time - p.arrivalTime;
    ProcessMetric(p.id, p.name, turnaround - p.burstTime, turnaround)
  }

  function SumWaiting(ms: seq<ProcessMetric>): int {
    if |ms| == 0 then 0 else SumWaiting(ms[..|ms| - 1]) + ms[|ms| - 1].waitingTime
  }

  function SumTurnaround(ms: seq<ProcessMetric>): int {
    if |ms| == 0 then 0 else SumTurnaround(ms[..|ms| - 1]) + ms[|ms| - 1].turnaroundTime
  }

  /** `total / count` as the source computes it; dividing by zero processes gives NaN. */
  function Average(total: int, count: nat): (r: Average)
    ensures r.NotANumber? <==> count == 0
    ensures r.Mean? ==> r.value * (count as real) == total as real
  {
    if count == 0 then NotANumber else Mean(total as real / count as real)
  }

  /** The computation every algorithm ends with: the timeline, one metric per
      recorded completion, both averages over the input size, and the final clock
      as the total time. */
  function Report(ps: seq<Process>, t: Trace): (r: ScheduleResult)
    requires InRange(Procs(t.slices), |ps|) && InRange(DoneProcs(t.done), |ps|)
    ensures |r.timeline| == |t.slices| && |r.processMetrics| == |t.done|
    ensures forall k :: 0 <= k < |t.slices| ==>
      && r.timeline[k].processId == ps[t.slices[k].proc].id
      && r.timeline[k].name == ps[t.slices[k].proc].name
      && r.timeline[k].startTime == t.slices[k].start && r.timeline[k].endTime == t.slices[k].end
    ensures forall k :: 0 <= k < |t.done| ==>
      && r.processMetrics[k].processId == ps[t.done[k].proc].id
      && r.processMetrics[k].name == ps[t.done[k].proc].name
      && r.processMetrics[k].turnaroundTime == t.done[k].time - ps[t.done[k].proc].arrivalTime
      && r.processMetrics[k].waitingTime == r.processMetrics[k].turnaroundTime - ps[t.done[k].proc].burstTime
    ensures r.totalTime == t.clock
    ensures r.avgWaitingTime == Average(SumWaiting(r.processMetrics), |ps|)
    ensures r.avgTurnaroundTime == Average(SumTurnaround(r.processMetrics), |ps|)
  {
    var timeline := seq(|t.slices|, k requires 0 <= k < |t.slices| => Segment(ps, t.slices[k]));
    var metrics := seq(|t.done|, k requires 0 <= k < |t.done| => Metric(ps, t.done[k]));
    ScheduleResult(
      timeline,
      Average(SumWaiting(metrics), |ps|),
      Average(SumTurnaround(metrics), |ps|),
      t.clock,
      metrics)
  }

  /** A non-preemptive result: `order` lists every process exactly once, and
      timeline entry k is the single segment of process order[k], as long as its
      burst, with metric k belonging to it: the wait runs from arrival to the
      start of the segment and the turnaround from arrival to its end. */
  predicate RunsToCompletion(ps: seq<Process>, r: ScheduleResult, order: seq<nat>) {
    && |order| == |ps|
    && InRange(order, |ps|)
    && Distinct(order)
    && |r.timeline| == |ps|
    && |r.processMetrics| == |ps|
    && forall k :: 0 <= k < |ps| ==>
         && r.timeline[k].processId == ps[order[k]].id
         && r.timeline[k].endTime - r.timeline[k].startTime == ps[order[k]].burstTime
         && r.processMetrics[k].processId == ps[order[k]].id
         && r.processMetrics[k].waitingTime == r.timeline[k].startTime - ps[order[k]].arrivalTime
         && r.processMetrics[k].turnaroundTime == r.timeline[k].endTime - ps[order[k]].arrivalTime
  }

  /** A trace whose k-th slice runs the k-th process of `order` for its whole
      burst, completing it at the slice's end, reports a run to completion. */
  lemma ReportRunsToCompletion(ps: seq<Process>, t: Trace, order: seq<nat>)
    requires |order| == |ps| && InRange(order, |ps|) && Distinct(order)
    requires |t.slices| == |ps| && |t.done| == |ps|
    requires forall k :: 0 <= k < |ps| ==>
      && t.slices[k].proc == order[k]
      && t.slices[k].end == t.slices[k].start + ps[order[k]].burstTime
      && t.done[k] == Completion(order[k], t.slices[k].end)
    ensures InRange(Procs(t.slices), |ps|) && InRange(DoneProcs(t.done), |ps|)
    ensures RunsToCompletion(ps, Report(ps, t), order)
  {
    var r := Report(ps, t);
    forall k | 0 <= k < |ps|
      ensures r.timeline[k] == Segment(ps, t.slices[k])
      ensures r.processMetrics[k] == Metric(ps, t.done[k])
    {
    }
  }

  lemma {:induction false} SumsNonNegative(ms: seq<ProcessMetric>)
    requires forall k :: 0 <= k < |ms| ==> 0 <= ms[k].waitingTime <= ms[k].turnaroundTime
    ensures 0 <= SumWaiting(ms) <= SumTurnaround(ms)
  {
    if |ms| > 0 {
      var pre := ms[..|ms| - 1];
      assert forall k :: 0 <= k < |pre| ==> pre[k] == ms[k];
      SumsNonNegative(pre);
    }
  }

  /** What every reported result of a feasible schedule guarantees: one metric per
      process, segments in time order that never overlap, no negative waiting
      time, turnaround at least the burst, the total time at the end of the last
      segment, and averages that are defined and ordered for a non-empty input. */
  lemma ReportOfFeasible(ps: seq<Process>, t: Trace)
    requires PositiveBursts(ps) && Feasible(ps, t)
    ensures InRange(Procs(t.slices), |ps|) && InRange(DoneProcs(t.done), |ps|)
    ensures var r := Report(ps, t);
      && |r.processMetrics| == |ps|
      && (forall k :: 0 <= k < |r.timeline| ==> r.timeline[k].startTime < r.timeline[k].endTime)
      && (forall j, k :: 0 <= j < k < |r.timeline| ==> r.timeline[j].endTime <= r.timeline[k].startTime)
      && (forall k :: 0 <= k < |r.processMetrics| ==>
            0 <= r.processMetrics[k].waitingTime &&
            r.processMetrics[k].turnaroundTime >= ps[t.done[k].proc].burstTime)
      && r.totalTime == (if |r.timeline| == 0 then 0 else r.timeline[|r.timeline| - 1].endTime)
      && (|ps| > 0 ==>
            && r.avgWaitingTime.Mean? && r.avgTurnaroundTime.Mean?
            && 0.0 <= r.avgWaitingTime.value <= r.avgTurnaroundTime.value)
  {
    ReportSegments(ps, t);
    ReportMetrics(ps, t);
    ReportAverages(ps, t);
  }

  lemma ReportSegments(ps: seq<Process>, t: Trace)
    requires PositiveBursts(ps) && Feasible(ps, t)
    ensures InRange(Procs(t.slices), |ps|) && InRange(DoneProcs(t.done), |ps|)
    ensures var r := Report(ps, t);
      && (forall k :: 0 <= k < |r.timeline| ==> r.timeline[k].startTime < r.timeline[k].endTime)
      && (forall j, k :: 0 <= j < k < |r.timeline| ==> r.timeline[j].endTime <= r.timeline[k].startTime)
      && r.totalTime == (if |r.timeline| == 0 then 0 else r.timeline[|r.timeline| - 1].endTime)
  {
    var r := Report(ps, t);
    forall j, k | 0 <= j < k < |r.timeline|
      ensures r.timeline[j].endTime <= r.timeline[k].startTime
    {
      NoOverlap(t.slices, j, k);
    }
  }

  lemma ReportMetrics(ps: seq<Process>, t: Trace)
    requires PositiveBursts(ps) && Feasible(ps, t)
    ensures InRange(Procs(t.slices), |ps|) && InRange(DoneProcs(t.done), |ps|)
    ensures var r := Report(ps, t);
      && |r.processMetrics| == |ps|
      && (forall k :: 0 <= k < |r.processMetrics| ==>
            0 <= r.processMetrics[k].waitingTime <= r.processMetrics[k].turnaroundTime &&
            r.processMetrics[k].turnaroundTime >= ps[t.done[k].proc].burstTime)
  {
    var r := Report(ps, t);
    forall k | 0 <= k < |r.processMetrics|
      ensures 0 <= r.processMetrics[k].waitingTime <= r.processMetrics[k].turnaroundTime
      ensures r.processMetrics[k].turnaroundTime >= ps[t.done[k].proc].burstTime
    {
      CompletionBound(ps, t, k);
    }
  }

  lemma ReportAverages(ps: seq<Process>, t: Trace)
    requires InRange(Procs(t.slices), |ps|) && InRange(DoneProcs(t.done), |ps|)
    requires var ms := Report(ps, t).processMetrics;
      forall k :: 0 <= k < |ms| ==> 0 <= ms[k].waitingTime <= ms[k].turnaroundTime
    ensures var r := Report(ps, t);
      |ps| > 0 ==>
        && r.avgWaitingTime.Mean? && r.avgTurnaroundTime.Mean?
        && 0.0 <= r.avgWaitingTime.value <= r.avgTurnaroundTime.value
  {
    var r := Report(ps, t);
    var ms := r.processMetrics;
    SumsNonNegative(ms);
    AverageMonotone(SumWaiting(ms), SumTurnaround(ms), |ps|);
  }

  /** Averages over the same count keep the order of the totals. */
  lemma AverageMonotone(a: int, b: int, n: nat)
    requires 0 <= a <= b
    ensures n > 0 ==> Average(a, n).Mean? && 0.0 <= Average(a, n).value <= Average(b, n).value
  {
    if n > 0 {
      var x, y, d := a as real, b as real, n as real;
      assert y / d - x / d == (y - x) / d;
    }
  }
}
