# CPU scheduling engine, modelled in Dafny

This project models the engine of a CPU scheduling simulator and proves
properties of it. The engine has four pure algorithms:

- first-come-first-serve (FCFS);
- shortest-job-first, non-preemptive (SJF);
- round robin with a fixed quantum (RR);
- priority scheduling, non-preemptive.

Each one takes a list of processes, each with an arrival time, a burst time
and a priority. It returns a `ScheduleResult` with three parts:

- a timeline of execution segments;
- a waiting and turnaround metric for each finished process;
- the two averages and the total time.

The simulation handler refuses an empty list. Otherwise it dispatches on the
selected algorithm and runs round robin with quantum 2.

## How the model is built

- **Process references.** A process is referred to by its position in the
  input list (`nat`). The source identifies processes by object identity (the
  `splice(indexOf(...))`, the shared `remainingTime` records of the RR queue),
  and its ids are not guaranteed unique.
- **Traces.** Every algorithm builds a `Trace`:
  - slices `Slice(proc, start, end)`;
  - completions `Completion(proc, time)`, in the order the source pushes its metrics;
  - the final clock.

  `Timeline.Report` turns a trace into the source's `ScheduleResult`. It looks
  up `id` and `name`, computes `turnaround = completion - arrival` and
  `waiting = turnaround - burst`, and divides the sums by the number of input
  processes.
- **Sorting.** JavaScript's `Array.prototype.sort` is stable, so every
  `sort((a, b) => a.k - b.k)` is modelled as a stable insertion sort
  (`Ordering.StableSort`) that compares one key. On an index-increasing input
  this yields the strict (key, input position) order (`Ordering.SortedBy`).
  That order is unique (`Ordering.SortedUnique`).
- **SJF and Priority.** The two share one loop, `NonPreemptive.NpTrace(ps, key)`,
  because their code differs only in the comparator. The loop is proved to obey
  a declarative policy, `NonPreemptive.NonPreemptiveSchedule`, and that policy
  determines the timeline.
- **FCFS.** With positive bursts, its timeline (the slices, not the
  completion records) is proved equal to that of the same non-preemptive loop
  keyed by arrival time.
- **Round robin.** It is a step function on `RrState`, which holds:
  - the clock;
  - the FIFO queue;
  - the admission index into the arrival order;
  - the remaining times;
  - the slices and completions so far.

  It terminates by a measure: the sum of positive remaining times, plus the
  queue length, plus the number of processes not yet admitted, then an idle
  flag.
- **Feasibility.** `Timeline.Feasible` is the shared correctness notion. It holds
  when the slices meet all of these conditions:
  - each slice is valid: it runs an input process, not before that process arrives, for a positive time;
  - the slices do not overlap;
  - every process gets exactly its burst;
  - every process is completed once, at the end of its last slice;
  - the clock stops where the timeline does.

  All four algorithms are proved feasible on positive bursts.
- **Averages.** An average is `Mean(real)` or `NotANumber`. The latter is what
  dividing by `processes.length == 0` gives in JavaScript.

## Model

| member | source | states |
|---|---|---|
| `Ordering.StableSort` | CPU-Scheudling-Algo/src/lib/schedulers.ts:5 | the sorted list is a permutation of its input (same multiset, same length) |
| `Ordering.StableSortSorted` | CPU-Scheudling-Algo/src/lib/schedulers.ts:62 | sorting an index-increasing list by a key yields the order of smaller key first, ties kept in input order (what a stable sort guarantees) |
| `Ordering.SortedUnique` | CPU-Scheudling-Algo/src/lib/schedulers.ts:110 | two lists with the same elements both in (key, input position) order are equal, so the stable sort's result is determined |
| `Ordering.ArrivalOrderFacts` | CPU-Scheudling-Algo/src/lib/schedulers.ts:5 | the arrival order lists every process exactly once, by non-decreasing arrival, equal arrivals in input order |
| `Ordering.MinArrival` | CPU-Scheudling-Algo/src/lib/schedulers.ts:58 | the result is the arrival time of some remaining process and no remaining process arrives earlier |
| `Ordering.Arrived` | CPU-Scheudling-Algo/src/lib/schedulers.ts:55 | a process is in the filtered list exactly when it is remaining and has arrived by the clock |
| `Ordering.ArrivedIncreasing` | CPU-Scheudling-Algo/src/lib/schedulers.ts:181 | the filter keeps the input order of the remaining processes |
| `Ordering.Remove` | CPU-Scheudling-Algo/src/lib/schedulers.ts:87 | removing a present process leaves one element fewer: the multiset minus that process |
| `Ordering.RemoveMembers` | CPU-Scheudling-Algo/src/lib/schedulers.ts:213 | after the splice the remaining list holds exactly the other processes |
| `Timeline.Average` | CPU-Scheudling-Algo/src/lib/schedulers.ts:35-36 | the average is NaN exactly when the process count is zero, and otherwise times the count gives back the sum |
| `Timeline.Report` | CPU-Scheudling-Algo/src/lib/schedulers.ts:14-42 | one timeline entry per slice carrying its process's id and name and the slice's start and end; one metric per completion, in completion order, with the process's id and name, turnaround = completion time - arrival and waiting = turnaround - burst; the averages are the metric sums over the number of input processes; the total time is the final clock |
| `Timeline.CompletionBound` | CPU-Scheudling-Algo/src/lib/schedulers.ts:149-150 | in a feasible schedule a process completes no earlier than its arrival plus its burst, so its wait is non-negative |
| `Timeline.NoOverlap` | CPU-Scheudling-Algo/src/lib/schedulers.ts:127-139 | in a timeline whose consecutive slices are ordered, any earlier slice ends before any later one starts |
| `Timeline.ReportOfFeasible` | CPU-Scheudling-Algo/src/lib/schedulers.ts:35-42 | the report of a feasible schedule has one metric per process, positive-length non-overlapping segments, non-negative waits, turnaround at least the burst, total time at the last segment's end, and for a non-empty list defined averages with the average wait not above the average turnaround |
| `Timeline.ReportRunsToCompletion` | CPU-Scheudling-Algo/src/lib/schedulers.ts:65-84 | a trace that runs a permutation of the processes one after another, each for its whole burst and completed at its slice's end, reports waits from arrival to start and turnarounds from arrival to end |
| `NonPreemptive.Pick` | CPU-Scheudling-Algo/src/lib/schedulers.ts:62-63 | the picked process is one of the available ones |
| `NonPreemptive.PickChoice` | CPU-Scheudling-Algo/src/lib/schedulers.ts:55-63 | the pick is a remaining process that has arrived and whose key is smallest among the remaining arrived ones, ties to the earliest in input order |
| `NonPreemptive.NpStepProgress` | CPU-Scheudling-Algo/src/lib/schedulers.ts:54-60 | an idle step moves the clock strictly forward, changes nothing else, and leaves some process arrived; a dispatch step removes one process and emits one segment |
| `NonPreemptive.NpDispatchShape` | CPU-Scheudling-Algo/src/lib/schedulers.ts:63-87 | a dispatch runs the chosen process from the clock for its whole burst, records its completion at the segment's end, advances the clock there and removes it |
| `NonPreemptive.NpRun` | CPU-Scheudling-Algo/src/lib/schedulers.ts:54-88 | the loop terminates with no process remaining |
| `NonPreemptive.NpTraceCorrect` | CPU-Scheudling-Algo/src/lib/schedulers.ts:54-88 | with positive bursts the loop's trace is feasible and every dispatch obeys the non-preemptive policy for its key |
| `NonPreemptive.NonPreemptiveUnique` | CPU-Scheudling-Algo/src/lib/schedulers.ts:180-213 | at most one timeline obeys the policy, so the loop's timeline is the policy's |
| `NonPreemptive.TieToInputOrder` | CPU-Scheudling-Algo/src/lib/schedulers.ts:188-189 | under the policy, of two processes with equal keys and equal arrivals the one earlier in the input runs first |
| `NonPreemptive.PriorityTieBreak` | CPU-Scheudling-Algo/src/lib/schedulers.ts:180-189 | the Priority loop runs equal-priority processes that arrive together in input order |
| `NonPreemptive.NpRunsToCompletion` | CPU-Scheudling-Algo/src/lib/schedulers.ts:65-87 | whatever the bursts, the loop runs every process exactly once for its whole burst, and its metric is the wait from arrival to start and the turnaround from arrival to end |
| `NonPreemptive.SjfSchedule` | CPU-Scheudling-Algo/src/lib/schedulers.ts:48-100 | the SJF result has one segment and one metric per process, in loop order, each segment as long as the burst, with wait and turnaround measured from arrival |
| `NonPreemptive.PrioritySchedule` | CPU-Scheudling-Algo/src/lib/schedulers.ts:174-226 | the Priority result has one segment and one metric per process, in loop order, each segment as long as the burst, with wait and turnaround measured from arrival |
| `Fcfs.FcfsLoop` | CPU-Scheudling-Algo/src/lib/schedulers.ts:10-33 | the `forEach` adds exactly one segment per process still to run |
| `Fcfs.FcfsStepInv` | CPU-Scheudling-Algo/src/lib/schedulers.ts:11-32 | one iteration extends the loop invariant: the new segment starts at the later of the clock and the arrival and lasts the burst |
| `Fcfs.FcfsRunsInArrivalOrder` | CPU-Scheudling-Algo/src/lib/schedulers.ts:5-32 | FCFS runs the processes in arrival order, equal arrivals in input order, each from the later of the previous end and its arrival for exactly its burst |
| `Fcfs.FcfsCorrect` | CPU-Scheudling-Algo/src/lib/schedulers.ts:10-33 | with positive bursts the FCFS trace is feasible and obeys the non-preemptive policy keyed by arrival time |
| `Fcfs.FcfsIsNonPreemptiveByArrival` | CPU-Scheudling-Algo/src/lib/schedulers.ts:4-45 | the FCFS timeline equals the timeline of the non-preemptive loop that picks by arrival time |
| `Fcfs.FcfsSchedule` | CPU-Scheudling-Algo/src/lib/schedulers.ts:4-45 | the FCFS result has one segment and one metric per process, in arrival order, each segment as long as the burst, with wait and turnaround measured from arrival |
| `RoundRobin.Admit` | CPU-Scheudling-Algo/src/lib/schedulers.ts:115-118 | admission appends the next processes of the arrival order, all arrived by the clock, and stops at the first that has not arrived |
| `RoundRobin.RrStepProgress` | CPU-Scheudling-Algo/src/lib/schedulers.ts:114-159 | with quantum at least 1, each iteration lowers the termination measure, or keeps it while leaving the idle state |
| `RoundRobin.RrRun` | CPU-Scheudling-Algo/src/lib/schedulers.ts:114-159 | the loop terminates with an empty queue and every process admitted |
| `RoundRobin.RoundRobinRequeue` | CPU-Scheudling-Algo/src/lib/schedulers.ts:125-158 | a dispatch runs the head for min(quantum, remaining) and decrements its remaining time, then admits the arrivals up to the new clock. The preempted head goes behind them; a finished head's completion is recorded at the segment's end |
| `RoundRobin.RemainingNeverNegative` | CPU-Scheudling-Algo/src/lib/schedulers.ts:126-138 | an iteration from any state the loop can be in (one meeting its invariant) leaves every remaining time non-negative, with CPU time given plus time remaining equal to the burst |
| `RoundRobin.RoundRobinFeasible` | CPU-Scheudling-Algo/src/lib/schedulers.ts:103-171 | with positive bursts and quantum at least 1 the RR trace is feasible: every process gets exactly its burst in non-overlapping slices and is completed once, at the end of its last slice |
| `RoundRobin.RoundRobinSlices` | CPU-Scheudling-Algo/src/lib/schedulers.ts:114-139 | every slice lasts 1 to quantum units; a slice shorter than the quantum is its process's last; a slice after idle time starts exactly at its own process's arrival, and every process that arrived earlier had already finished |
| `RoundRobin.RoundRobinFirstSlice` | CPU-Scheudling-Algo/src/lib/schedulers.ts:111-123 | with no arrival before 0, the first slice starts at the arrival of its process and no process arrives earlier: the CPU idles from 0 until the first arrival |
| `RoundRobin.RoundRobinSchedule` | CPU-Scheudling-Algo/src/lib/schedulers.ts:103-171 | with positive bursts, one timeline entry per slice with its process's id, start and end, lasting 1 to quantum units; every process reported exactly once, with turnaround = end of its last slice - arrival and waiting = turnaround - burst; total time at the end of the last slice |
| `Engine.FeasibleSound` | CPU-Scheudling-Algo/src/lib/schedulers.ts:35-42 | the report of a feasible trace of a non-empty list has all the promised result properties, with every wait below its turnaround |
| `Engine.AdmissibleSound` | CPU-Scheudling-Algo/src/pages/Index.tsx:55-70 | for admissible non-empty input, every algorithm's result is sound: one metric per process, ordered positive non-overlapping segments, defined and ordered averages |
| `Engine.Simulate` | CPU-Scheudling-Algo/src/pages/Index.tsx:43-70 | the simulation is refused exactly when there are no processes; otherwise its result is the selected algorithm's and is sound |
| `Scenarios.FcfsScenario` | CPU-Scheudling-Algo/src/lib/schedulers.ts:10-33 | on A(0,5), B(1,3), C(2,8) FCFS runs A over [0,5), B over [5,8) and C over [8,16) |
| `Scenarios.FcfsIdleScenario` | CPU-Scheudling-Algo/src/lib/schedulers.ts:11 | a single process arriving at 5 runs from 5, not 0 |
| `Scenarios.FcfsMetrics` | CPU-Scheudling-Algo/src/lib/schedulers.ts:22-23 | in that example the waits are 0, 4, 6 and the turnarounds 5, 7, 14 |
| `Scenarios.FcfsAverages` | CPU-Scheudling-Algo/src/lib/schedulers.ts:35-41 | in that example the average wait is 10/3, the average turnaround 26/3 and the total time 16 |
| `Scenarios.SjfScenario` | CPU-Scheudling-Algo/src/lib/schedulers.ts:54-88 | on A(0,7), B(2,4), C(4,1), D(5,4) SJF runs A over [0,7), C over [7,8), B over [8,12) and D over [12,16) |
| `Scenarios.RrIdleScenario` | CPU-Scheudling-Algo/src/lib/schedulers.ts:120-123 | under RR with quantum 2, a single process arriving at 5 first runs at 5, not 0 |
| `Scenarios.RoundRobinScenario` | CPU-Scheudling-Algo/src/lib/schedulers.ts:114-159 | on A(0,5), B(1,3), C(2,1) with quantum 2 RR runs A, B, C, A, B, A over [0,2), [2,4), [4,5), [5,7), [7,8), [8,9), and completes C at 5, B at 8 and A at 9 |

## Left out

- The React components, the animation timers, toasts, the JSON export and the
  process colour are presentation or I/O. They are not part of this model.
- The `zod` input form (`ProcessControlPanel.tsx:27-32`) is a library call. Its
  bounds become the `SchedulerTypes.Admissible` precondition of `Engine.Simulate`.
- Times are integers, as in the source. The form parses arrival, burst and
  priority with `parseInt` (`ProcessControlPanel.tsx:87-91`), so only whole
  numbers reach the engine, and `int` represents them exactly.
- The averages are exact rationals (`real`), not IEEE doubles. `toFixed`
  formatting is display code.
- The `default:` branch of the algorithm switch cannot be reached from the closed
  `Algorithm` datatype, so it has no counterpart.
- Round robin requires `quantum >= 1`. With quantum 0 or less the source loop
  never ends, and the only caller passes 2.
- RoundRobin.RoundRobinSchedule: states its segment and metric facts only for
  positive bursts. With a zero burst the source emits a zero-length segment. The
  source promises nothing there, and the form rules it out.
- Tie-break rule. Among equal keys, SJF and Priority break ties by input order,
  which is what the code does: the arrived list is filtered from `remaining`,
  which keeps input order, and then stably sorted. Breaking ties by earliest
  arrival first would give a different order; this model follows the code.
- Run-to-run determinism needs no statement. Every operation here is a
  mathematical function.

