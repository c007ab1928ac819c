/**
  The records the scheduling engine consumes and produces, and the internal
  trace every algorithm builds before it is reported.

  A process is referred to inside the engine by its position in the input
  sequence: the source identifies processes by object identity (the `splice`
  after `indexOf`, the shared `remainingTime` objects in the Round Robin queue),
  and its string ids are not guaranteed to be unique.
 */
module SchedulerTypes {

  /** One schedulable unit, as entered by the user. The display colour is left out. */
  datatype Process = Process(id: string, name: string, arrivalTime: int, burstTime: int, priority: int)

  /** One timeline entry of the reported result. */
  datatype ExecutedProcess = ExecutedProcess(processId: string, name: string, startTime: int, endTime: int)

  /** Waiting and turnaround time of one finished process. */
  datatype ProcessMetric = ProcessMetric(processId: string, name: string, waitingTime: int, turnaroundTime: int)

  /** The quotient of a sum by the process count; dividing by an empty count yields NaN. */
  datatype Average = Mean(value: real) | NotANumber

  datatype ScheduleResult = ScheduleResult(
    timeline: seq<ExecutedProcess>,
    avgWaitingTime: Average,
    avgTurnaroundTime: Average,
    totalTime: int,
    processMetrics: seq<ProcessMetric>)

  datatype Algorithm = FCFS | SJF | RR | Priority

  /** The CPU runs input process `proc` over the half-open interval [start, end). */
  datatype Slice = Slice(proc: nat, start: int, end: int)

  /** Input process `proc` finished at `time`. */
  datatype Completion = Completion(proc: nat, time: int)

  /** What a simulation run produces: the segments, the completions in the
      order they were recorded, and the final value of the clock. */
  datatype Trace = Trace(slices: seq<Slice>, done: seq<Completion>, clock: int)

  /** Every process needs at least one unit of CPU time (the input form's lower
      bound on the burst time). */
  predicate PositiveBursts(ps: seq<Process>) {
    forall i :: 0 <= i < |ps| ==> ps[i].burstTime >= 1
  }

  /** The bounds the input form enforces on each process. */
  predicate Admissible(p: Process) {
    && 0 <= p.arrivalTime <= 1000
    && 1 <= p.burstTime <= 1000
    && 1 <= p.priority <= 100
  }

  function Max(a: int, b: int): int { if a >= b then a else b }

  function Min(a: int, b: int): int { if a <= b then a else b }
}
