/**
  The simulation entry point: reject an empty process list, otherwise run the
  selected algorithm (Round Robin with a quantum of 2) on processes that meet
  the input form's bounds.
 */
module Engine {
  import opened SchedulerTypes
  import opened Ordering
  import opened Timeline
  import opened NonPreemptive
  import opened Fcfs
  import opened RoundRobin

  /** The quantum the simulation passes to Round Robin. */
  const SimulationQuantum: int := 2

  /** An empty process list is refused before any algorithm runs. */
  datatype Outcome = NoProcesses | Ran(result: ScheduleResult)

  /** The trace the selected algorithm builds. */
  function AlgorithmTrace(alg: Algorithm, ps: seq<Process>): (t: Trace)
    ensures InRange(Procs(t.slices), |ps|) && InRange(DoneProcs(t.done), |ps|)
  {
    match alg
    case FCFS => FcfsTrace(ps)
    case SJF => NpTrace(ps, ByBurst)
    case RR => RrTrace(ps, SimulationQuantum)
    case Priority => NpTrace(ps, ByPriority)
  }

  /** The `switch (selectedAlgorithm)` of the simulation handler. */
  function AlgorithmSchedule(alg: Algorithm, ps: seq<Process>): ScheduleResult {
    match alg
    case FCFS => FcfsSchedule(ps)
    case SJF => SjfSchedule(ps)
    case RR => RoundRobinSchedule(ps, SimulationQuantum)
    case Priority => PrioritySchedule(ps)
  }

  /** Every algorithm yields a feasible schedule of processes with positive bursts. */
  lemma AlgorithmFeasible(alg: Algorithm, ps: seq<Process>)
    requires PositiveBursts(ps)
    ensures Feasible(ps, AlgorithmTrace(alg, ps))
  {
    match alg
    case FCFS => FcfsCorrect(ps);
    case SJF => NpTraceCorrect(ps, ByBurst);
    case RR => RoundRobinFeasible(ps, SimulationQuantum);
    case Priority => NpTraceCorrect(ps, ByPriority);
  }

  /** What the simulation promises about a result for `ps`: one metric per
      process, segments of positive length in time order that never overlap,
      non-negative waiting times, turnaround above the wait, a total time at
      the end of the last segment, and defined averages with the average wait
      not above the average turnaround. */
  predicate SoundResult(ps: seq<Process>, res: ScheduleResult) {
    && |res.processMetrics| == |ps|
    && (forall k :: 0 <= k < |res.timeline| ==> res.timeline[k].startTime < res.timeline[k].endTime)
    && (forall j, k :: 0 <= j < k < |res.timeline| ==> res.timeline[j].endTime <= res.timeline[k].startTime)
    && (forall k :: 0 <= k < |res.processMetrics| ==>
          0 <= res.processMetrics[k].waitingTime < res.processMetrics[k].turnaroundTime)
    && |res.timeline| > 0
    && res.totalTime == res.timeline[|res.timeline| - 1].endTime
    && res.avgWaitingTime.Mean? && res.avgTurnaroundTime.Mean?
    && 0.0 <= res.avgWaitingTime.value <= res.avgTurnaroundTime.value
  }

  /** Each algorithm reports the trace it builds. */
  lemma ScheduleReportsTrace(alg: Algorithm, ps: seq<Process>)
    ensures AlgorithmSchedule(alg, ps) == Report(ps, AlgorithmTrace(alg, ps))
  {
  }

  /** The report of a feasible trace of a non-empty list with positive bursts is sound. */
  lemma FeasibleSound(ps: seq<Process>, t: Trace)
    requires |ps| > 0 && PositiveBursts(ps) && Feasible(ps, t)
    ensures InRange(Procs(t.slices), |ps|) && InRange(DoneProcs(t.done), |ps|)
    ensures SoundResult(ps, Report(ps, t))
  {
    ReportOfFeasible(ps, t);
    var r := Report(ps, t);
    forall k | 0 <= k < |r.processMetrics|
      ensures r.processMetrics[k].waitingTime < r.processMetrics[k].turnaroundTime
    {
      assert ps[t.done[k].proc].burstTime >= 1;
    }
    assert |t.slices| > 0 by {
      assert Executed(t.slices, 0) == ps[0].burstTime;
    }
  }

  /** On a non-empty list of admissible processes every algorithm's report is sound. */
  lemma AdmissibleSound(alg: Algorithm, ps: seq<Process>)
    requires |ps| > 0 && forall i :: 0 <= i < |ps| ==> Admissible(ps[i])
    ensures SoundResult(ps, AlgorithmSchedule(alg, ps))
  {
    assert PositiveBursts(ps) by {
      forall i | 0 <= i < |ps|
        ensures ps[i].burstTime >= 1
      {
        assert Admissible(ps[i]);
      }
    }
    AlgorithmFeasible(alg, ps);
    FeasibleSound(ps, AlgorithmTrace(alg, ps));
    ScheduleReportsTrace(alg, ps);
  }

  /** Run a simulation: refuse an empty list, otherwise report the selected
      algorithm's schedule, which is sound for admissible processes. */
  function Simulate(alg: Algorithm, ps: seq<Process>): (r: Outcome)
    requires forall i :: 0 <= i < |ps| ==> Admissible(ps[i])
    ensures r.NoProcesses? <==> |ps| == 0
    ensures r.Ran? ==> r.result == AlgorithmSchedule(alg, ps) && SoundResult(ps, r.result)
  {
    if |ps| == 0 then NoProcesses
    else
      AdmissibleSound(alg, ps);
      Ran(AlgorithmSchedule(alg, ps))
  }
}
