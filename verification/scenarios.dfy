/**
  Worked examples: three processes under FCFS, SJF and Round Robin with
  quantum 2, and a lone process that arrives late, each proved to produce
  its exact timeline and metrics.
 */
module Scenarios {
  import opened SchedulerTypes
  import opened Ordering
  import opened Timeline
  import opened NonPreemptive
  import opened Fcfs
  import opened RoundRobin

  function P(id: string, arrival: int, burst: int): Process {
    Process(id, id, arrival, burst, 1)
  }

  /** The arrival order of processes listed by non-decreasing arrival is the input order. */
  lemma ArrivalOrderOfSorted(ps: seq<Process>)
    requires forall i, j :: 0 <= i < j < |ps| ==> ps[i].arrivalTime <= ps[j].arrivalTime
    ensures ArrivalOrder(ps) == Indices(|ps|)
  {
    var all := Indices(|ps|);
    ArrivalOrderFacts(ps);
    assert multiset(ArrivalOrder(ps)) == multiset(all);
    SortedUnique(ps, ByArrival, ArrivalOrder(ps), all);
  }

  /** A, B and C arrive at 0, 1 and 2 needing 5, 3 and 8 units. */
  function FcfsPs(): seq<Process> {
    [P("A", 0, 5), P("B", 1, 3), P("C", 2, 8)]
  }

  /** First come, first served runs them back to back: A over [0, 5), B over
      [5, 8) and C over [8, 16). */
  lemma FcfsScenario(ps: seq<Process>)
    requires ps == FcfsPs()
    ensures FcfsTrace(ps).slices == [Slice(0, 0, 5), Slice(1, 5, 8), Slice(2, 8, 16)]
  {
    FcfsArrivalOrder(ps);
    FcfsRunsInArrivalOrder(ps);
    var sl := FcfsTrace(ps).slices;
    assert Procs(sl) == [0, 1, 2];
    assert sl[0] == Slice(0, 0, 5);
    assert sl[1] == Slice(1, 5, 8);
    assert sl[2] == Slice(2, 8, 16);
  }

  function RrPs(): seq<Process> {
    [P("A", 0, 5), P("B", 1, 3), P("C", 2, 1)]
  }

  /** The k-th slice the Round Robin loop runs on `RrPs()` with quantum 2. */
  function RrSliceAt(k: nat): Slice
    requires k < 6
  {
    [Slice(0, 0, 2), Slice(1, 2, 4), Slice(2, 4, 5), Slice(0, 5, 7), Slice(1, 7, 8), Slice(0, 8, 9)][k]
  }

  /** The k-th completion it records. */
  function RrCompletionAt(k: nat): Completion
    requires k < 3
  {
    [Completion(2, 5), Completion(1, 8), Completion(0, 9)][k]
  }

  function RrSlices(n: nat): (r: seq<Slice>)
    requires n <= 6
    ensures |r| == n && InRange(Procs(r), 3)
  {
    if n == 0 then [] else RrSlices(n - 1) + [RrSliceAt(n - 1)]
  }

  function RrDone(n: nat): (r: seq<Completion>)
    requires n <= 3
    ensures |r| == n && InRange(DoneProcs(r), 3)
  {
    if n == 0 then [] else RrDone(n - 1) + [RrCompletionAt(n - 1)]
  }

  /** The states between the iterations of the Round Robin loop on `RrPs()` with quantum 2. */
  function RrStates(i: nat): RrState
    requires i <= 6
  {
    if i == 0 then RrState(0, [], 0, [5, 3, 1], RrSlices(0), RrDone(0))
    else if i == 1 then RrState(2, [1, 2, 0], 3, [3, 3, 1], RrSlices(1), RrDone(0))
    else if i == 2 then RrState(4, [2, 0, 1], 3, [3, 1, 1], RrSlices(2), RrDone(0))
    else if i == 3 then RrState(5, [0, 1], 3, [3, 1, 0], RrSlices(3), RrDone(1))
    else if i == 4 then RrState(7, [1, 0], 3, [1, 1, 0], RrSlices(4), RrDone(1))
    else if i == 5 then RrState(8, [0], 3, [1, 0, 0], RrSlices(5), RrDone(2))
    else RrState(9, [], 3, [0, 0, 0], RrSlices(6), RrDone(3))
  }

  /** At time 0 only A has arrived. */
  lemma Admit1a()
    ensures Admit(RrPs(), [0, 1, 2], RrStates(0)) == RrState(0, [0], 1, [5, 3, 1], [], [])
  {
    var ps := RrPs();
    var s0 := RrState(0, [], 0, [5, 3, 1], [], []);
    assert RrStates(0) == s0;
    assert Admit(ps, [0, 1, 2], s0.(queue := [0], next := 1)) == s0.(queue := [0], next := 1);
  }

  /** By the end of A's first slice, at time 2, B and C have arrived. */
  lemma Admit1b(ps: seq<Process>, order: seq<nat>, mid: RrState)
    requires RrWf(ps, order, mid) && order == [0, 1, 2]
    requires ps[1].arrivalTime <= 2 && ps[2].arrivalTime <= 2
    requires mid.clock == 2 && mid.queue == [] && mid.next == 1
    ensures Admit(ps, order, mid) == mid.(queue := [1, 2], next := 3)
  {
    var b := mid.(queue := [1, 2], next := 3);
    assert Admit(ps, order, b) == b;
    assert Admit(ps, order, mid.(queue := [1], next := 2)) == b;
  }

  lemma RrStep1()
    ensures RrStep(RrPs(), [0, 1, 2], 2, RrStates(0)) == RrStates(1)
  {
    Admit1a();
    Admit1b(RrPs(), [0, 1, 2], RrState(2, [], 1, [3, 3, 1], RrSlices(1), []));
    var a := RrState(0, [0], 1, [5, 3, 1], [], []);
    assert a.queue[1..] == [];
    assert a.left[0 := 3] == [3, 3, 1];
    assert a.slices + [Slice(0, 0, 2)] == RrSlices(1);
  }

  /** Once every process is admitted, a step runs the queue head `p` for at
      most a quantum, up to `end`, and re-queues it or records its completion. */
  lemma StepAllAdmitted(ps: seq<Process>, order: seq<nat>, quantum: int, s: RrState, p: nat, end: int, left: seq<int>)
    requires RrWf(ps, order, s) && |s.queue| > 0 && s.next == |order|
    requires p == s.queue[0] && end == s.clock + Min(quantum, s.left[p])
    requires left == s.left[p := s.left[p] - Min(quantum, s.left[p])]
    ensures var r := RrStep(ps, order, quantum, s);
      && r.clock == end && r.next == s.next && r.left == left
      && r.slices == s.slices + [Slice(p, s.clock, end)]
      && r.queue == (if left[p] > 0 then s.queue[1..] + [p] else s.queue[1..])
      && r.done == (if left[p] > 0 then s.done else s.done + [Completion(p, end)])
  {
    assert Admit(ps, order, s) == s;
    AppendSlice(s.slices, Slice(p, s.clock, end));
    var mid := RrState(end, s.queue[1..], s.next, left, s.slices + [Slice(p, s.clock, end)], s.done);
    assert Admit(ps, order, mid) == mid;
  }

  /** Each state's timeline extends the previous one by the slice just run, and
      its completions extend the previous ones by at most the one just recorded. */
  lemma RrStatesNext(k: nat)
    requires 1 <= k <= 6
    ensures RrStates(k).slices == RrStates(k - 1).slices + [RrSliceAt(k - 1)]
    ensures k in {3, 5, 6} ==>
      (|RrStates(k - 1).done| < 3 &&
       RrStates(k).done == RrStates(k - 1).done + [RrCompletionAt(|RrStates(k - 1).done|)])
    ensures k !in {3, 5, 6} ==> RrStates(k).done == RrStates(k - 1).done
  {
  }

  lemma RrStep2(ps: seq<Process>, order: seq<nat>, s: RrState)
    requires RrWf(ps, order, s) && order == [0, 1, 2] && s == RrStates(1)
    ensures RrStep(ps, order, 2, s) == RrStates(2)
  {
    var t := RrStates(2);
    assert [3, 3, 1][1 := 1] == [3, 1, 1];
    assert s.queue[1..] + [1] == t.queue;
    StepAllAdmitted(ps, order, 2, s, 1, 4, [3, 1, 1]);
    RrStatesNext(2);
    var r := RrStep(ps, order, 2, s);
    assert r.slices == t.slices;
    assert r.done == t.done;
  }

  lemma RrStep3(ps: seq<Process>, order: seq<nat>, s: RrState)
    requires RrWf(ps, order, s) && order == [0, 1, 2] && s == RrStates(2)
    ensures RrStep(ps, order, 2, s) == RrStates(3)
  {
    var t := RrStates(3);
    assert [3, 1, 1][2 := 0] == [3, 1, 0];
    assert s.queue[1..] == t.queue;
    StepAllAdmitted(ps, order, 2, s, 2, 5, [3, 1, 0]);
    RrStatesNext(3);
    var r := RrStep(ps, order, 2, s);
    assert r.slices == t.slices;
    assert r.done == t.done;
  }

  lemma RrStep4(ps: seq<Process>, order: seq<nat>, s: RrState)
    requires RrWf(ps, order, s) && order == [0, 1, 2] && s == RrStates(3)
    ensures RrStep(ps, order, 2, s) == RrStates(4)
  {
    var t := RrStates(4);
    assert [3, 1, 0][0 := 1] == [1, 1, 0];
    assert s.queue[1..] + [0] == t.queue;
    StepAllAdmitted(ps, order, 2, s, 0, 7, [1, 1, 0]);
    RrStatesNext(4);
    var r := RrStep(ps, order, 2, s);
    assert r.slices == t.slices;
    assert r.done == t.done;
  }

  lemma RrStep5(ps: seq<Process>, order: seq<nat>, s: RrState)
    requires RrWf(ps, order, s) && order == [0, 1, 2] && s == RrStates(4)
    ensures RrStep(ps, order, 2, s) == RrStates(5)
  {
    var t := RrStates(5);
    assert [1, 1, 0][1 := 0] == [1, 0, 0];
    assert s.queue[1..] == t.queue;
    StepAllAdmitted(ps, order, 2, s, 1, 8, [1, 0, 0]);
    RrStatesNext(5);
    var r := RrStep(ps, order, 2, s);
    assert r.slices == t.slices;
    assert r.done == t.done;
  }

  lemma RrStep6(ps: seq<Process>, order: seq<nat>, s: RrState)
    requires RrWf(ps, order, s) && order == [0, 1, 2] && s == RrStates(5)
    ensures RrStep(ps, order, 2, s) == RrStates(6)
  {
    var t := RrStates(6);
    assert [1, 0, 0][0 := 0] == [0, 0, 0];
    assert s.queue[1..] == t.queue;
    StepAllAdmitted(ps, order, 2, s, 0, 9, [0, 0, 0]);
    RrStatesNext(6);
    var r := RrStep(ps, order, 2, s);
    assert r.slices == t.slices;
    assert r.done == t.done;
  }

  /** Every state of the run is well formed for `RrPs()` in arrival order. */
  lemma RrStatesWf(i: nat)
    requires i <= 6
    ensures RrWf(RrPs(), [0, 1, 2], RrStates(i))
  {
  }

  lemma RrStepAt(ps: seq<Process>, order: seq<nat>, i: nat)
    requires ps == RrPs() && order == [0, 1, 2] && i < 6
    requires RrWf(ps, order, RrStates(i))
    ensures RrStep(ps, order, 2, RrStates(i)) == RrStates(i + 1)
  {
    if i == 0 { RrStep1(); }
    else if i == 1 { RrStep2(ps, order, RrStates(1)); }
    else if i == 2 { RrStep3(ps, order, RrStates(2)); }
    else if i == 3 { RrStep4(ps, order, RrStates(3)); }
    else if i == 4 { RrStep5(ps, order, RrStates(4)); }
    else { RrStep6(ps, order, RrStates(5)); }
  }

  /** From any intermediate state the loop reaches the final state. */
  lemma {:induction false} RrRunFrom(i: nat)
    requires i <= 6
    ensures RrRun(RrPs(), [0, 1, 2], 2, RrStates(i)) == RrStates(6)
    decreases 6 - i
  {
    if i < 6 {
      RrStatesWf(i);
      RrStepAt(RrPs(), [0, 1, 2], i);
      RrRunFrom(i + 1);
    }
  }

  lemma RrArrivalOrder()
    ensures ArrivalOrder(RrPs()) == [0, 1, 2]
  {
    var ps := RrPs();
    assert |ps| == 3 && Indices(3) == [0, 1, 2];
    ArrivalOrderOfSorted(ps);
  }

  /** The processes of `RrPs()` are listed by arrival, so the loop starts from `RrStates(0)`. */
  lemma RrInitial()
    ensures ArrivalOrder(RrPs()) == [0, 1, 2]
    ensures RrStart(RrPs()) == RrStates(0)
  {
    RrArrivalOrder();
    RrBursts();
  }

  lemma RrBursts()
    ensures RrStart(RrPs()) == RrStates(0)
  {
    var b := Bursts(RrPs());
    assert b[0] == 5 && b[1] == 3 && b[2] == 1;
    assert b == [5, 3, 1];
  }

  lemma RrTraceFinal(ps: seq<Process>)
    requires ps == RrPs()
    ensures RrTrace(ps, 2) == Trace(RrStates(6).slices, RrStates(6).done, RrStates(6).clock)
  {
    var order := [0, 1, 2];
    RrInitial();
    RrRunFrom(0);
    var f := RrRun(ps, order, 2, RrStates(0));
    assert RrTrace(ps, 2) == Trace(f.slices, f.done, f.clock);
  }

  /** The trace the Round Robin loop yields on `RrPs()` with quantum 2. */
  function RrFinalTrace(): Trace {
    Trace([Slice(0, 0, 2), Slice(1, 2, 4), Slice(2, 4, 5), Slice(0, 5, 7), Slice(1, 7, 8), Slice(0, 8, 9)],
          [Completion(2, 5), Completion(1, 8), Completion(0, 9)], 9)
  }

  lemma RrFinalFields(t: Trace)
    requires t == Trace(RrStates(6).slices, RrStates(6).done, RrStates(6).clock)
    ensures t == RrFinalTrace()
  {
    assert RrSlices(2) == [Slice(0, 0, 2), Slice(1, 2, 4)];
    assert RrSlices(4) == [Slice(0, 0, 2), Slice(1, 2, 4), Slice(2, 4, 5), Slice(0, 5, 7)];
    assert t.slices == RrFinalTrace().slices;
    assert t.done == RrFinalTrace().done;
  }

  /** A, B and C arrive at 0, 1 and 2 needing 5, 3 and 1 units; with quantum 2
      the CPU runs A, B, C, A, B, A and the three finish at 9, 8 and 5. */
  lemma RoundRobinScenario(ps: seq<Process>)
    requires ps == [P("A", 0, 5), P("B", 1, 3), P("C", 2, 1)]
    ensures RrTrace(ps, 2) == RrFinalTrace()
  {
    RrTraceFinal(ps);
    RrFinalFields(RrTrace(ps, 2));
  }

  function SjfPs(): seq<Process> {
    [P("A", 0, 7), P("B", 2, 4), P("C", 4, 1), P("D", 5, 4)]
  }

  function SjfSlices(): seq<Slice> {
    [Slice(0, 0, 7), Slice(2, 7, 8), Slice(1, 8, 12), Slice(3, 12, 16)]
  }

  lemma SjfDispatch(k: nat)
    requires k < 4
    ensures InRange(Procs(SjfSlices()), 4) && DispatchOk(SjfPs(), ByBurst, SjfSlices(), k)
  {
    var sl := SjfSlices();
    assert Procs(sl) == [0, 2, 1, 3];
    assert Procs(sl)[..k] == [0, 2, 1, 3][..k];
  }

  lemma SjfPolicy()
    ensures NonPreemptiveSchedule(SjfPs(), ByBurst, SjfSlices())
  {
    var sl := SjfSlices();
    assert Procs(sl) == [0, 2, 1, 3];
    forall k | 0 <= k < |sl|
      ensures DispatchOk(SjfPs(), ByBurst, sl, k)
    {
      SjfDispatch(k);
    }
  }

  /** A runs first, alone at time 0; when it ends at 7 B, C and D have arrived
      and C is the shortest; B and D then tie on 4 units and B, earlier in the
      input, goes first. */
  lemma SjfScenario()
    ensures NpTrace(SjfPs(), ByBurst).slices == SjfSlices()
  {
    var ps := SjfPs();
    assert PositiveBursts(ps);
    NpTraceCorrect(ps, ByBurst);
    SjfPolicy();
    NonPreemptiveUnique(ps, ByBurst, NpTrace(ps, ByBurst).slices, SjfSlices());
  }

  /** A process that arrives after the CPU has gone idle starts at its arrival,
      not at the previous end. */
  lemma FcfsIdleScenario()
    ensures FcfsTrace([P("A", 5, 3)]).slices == [Slice(0, 5, 8)]
  {
    var ps := [P("A", 5, 3)];
    ArrivalOrderOfSorted(ps);
    assert Indices(1) == [0];
    FcfsRunsInArrivalOrder(ps);
    var sl := FcfsTrace(ps).slices;
    assert Procs(sl) == [0];
    assert sl[0] == Slice(0, 5, 8);
  }

  /** Round Robin leaves the CPU idle the same way: the lone process's first
      slice starts at its arrival, 5. */
  lemma RrIdleScenario(ps: seq<Process>)
    requires ps == [P("A", 5, 3)]
    ensures |RrTrace(ps, 2).slices| > 0 && RrTrace(ps, 2).slices[0].start == 5
  {
    RoundRobinFirstSlice(ps, 2);
  }

  lemma SumsOfThree(ms: seq<ProcessMetric>)
    requires |ms| == 3
    ensures SumWaiting(ms) == ms[0].waitingTime + ms[1].waitingTime + ms[2].waitingTime
    ensures SumTurnaround(ms) == ms[0].turnaroundTime + ms[1].turnaroundTime + ms[2].turnaroundTime
  {
    var two, one := ms[..2], ms[..1];
    assert two[..1] == one && one[..0] == [];
    assert two[1] == ms[1] && one[0] == ms[0];
    assert SumWaiting(one) == ms[0].waitingTime;
    assert SumTurnaround(one) == ms[0].turnaroundTime;
    assert SumWaiting(two) == SumWaiting(one) + ms[1].waitingTime;
    assert SumTurnaround(two) == SumTurnaround(one) + ms[1].turnaroundTime;
  }

  lemma FcfsTimeline(ps: seq<Process>)
    requires ps == FcfsPs()
    ensures var tl := FcfsSchedule(ps).timeline;
      && |tl| == 3
      && tl[0].startTime == 0 && tl[1].startTime == 5 && tl[2].startTime == 8
      && tl[0].endTime == 5 && tl[1].endTime == 8 && tl[2].endTime == 16
  {
    FcfsScenario(ps);
    assert FcfsSchedule(ps) == Report(ps, FcfsTrace(ps));
  }

  /** The waiting times of `FcfsScenario` are 0, 4 and 6 and the turnaround
      times 5, 7 and 14. */
  lemma FcfsMetrics(ps: seq<Process>)
    requires ps == FcfsPs()
    ensures var ms := FcfsSchedule(ps).processMetrics;
      && |ms| == 3
      && ms[0].waitingTime == 0 && ms[0].turnaroundTime == 5
      && ms[1].waitingTime == 4 && ms[1].turnaroundTime == 7
      && ms[2].waitingTime == 6 && ms[2].turnaroundTime == 14
  {
    var r := FcfsSchedule(ps);
    FcfsArrivalOrder(ps);
    assert RunsToCompletion(ps, r, [0, 1, 2]);
    FcfsTimeline(ps);
    var ms := r.processMetrics;
    assert ms[0].waitingTime == r.timeline[0].startTime - 0;
    assert ms[1].waitingTime == r.timeline[1].startTime - 1;
    assert ms[2].waitingTime == r.timeline[2].startTime - 2;
  }

  lemma FcfsArrivalOrder(ps: seq<Process>)
    requires ps == FcfsPs()
    ensures ArrivalOrder(ps) == [0, 1, 2]
  {
    assert |ps| == 3 && Indices(3) == [0, 1, 2];
    ArrivalOrderOfSorted(ps);
  }

  /** Hence the averages are 10/3 and 26/3, and the total time is the last end. */
  lemma FcfsAverages(ps: seq<Process>)
    requires ps == FcfsPs()
    ensures var r := FcfsSchedule(ps);
      && r.avgWaitingTime == Mean(10.0 / 3.0)
      && r.avgTurnaroundTime == Mean(26.0 / 3.0)
      && r.totalTime == 16
  {
    var r := FcfsSchedule(ps);
    FcfsTimeline(ps);
    FcfsMetrics(ps);
    SumsOfThree(r.processMetrics);
    assert r == Report(ps, FcfsTrace(ps));
    assert r.avgWaitingTime == Timeline.Average(SumWaiting(r.processMetrics), 3);
    assert r.avgTurnaroundTime == Timeline.Average(SumTurnaround(r.processMetrics), 3);
  }
}
