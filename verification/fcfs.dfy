/**
  First-Come-First-Serve: stably sort the processes by arrival time, then run
  each to completion in that order, starting it when both the CPU is free and
  the process has arrived.
 */
module Fcfs {
  import opened SchedulerTypes
  import opened Ordering
  import opened Timeline
  import opened NonPreemptive

  /** The `forEach` over the sorted processes, from position k of `order` on. */
  function FcfsLoop(ps: seq<Process>, order: seq<nat>, k: nat, t: Trace): (r: Trace)
    requires k <= |order| && InRange(order, |ps|)
    requires InRange(Procs(t.slices), |ps|) && InRange(DoneProcs(t.done), |ps|)
    ensures InRange(Procs(r.slices), |ps|) && InRange(DoneProcs(r.done), |ps|)
    ensures |r.slices| == |t.slices| + |order| - k
    decreases |order| - k
  {
    if k == |order| then t
    else
      var p := order[k];
      var start := Max(t.clock, ps[p].arrivalTime);
      var end := start + ps[p].burstTime;
      AppendSlice(t.slices, Slice(p, start, end));
      FcfsLoop(ps, order, k + 1, Trace(t.slices + [Slice(p, start, end)], t.done + [Completion(p, end)], end))
  }

  function FcfsTrace(ps: seq<Process>): (t: Trace)
    ensures InRange(Procs(t.slices), |ps|) && InRange(DoneProcs(t.done), |ps|)
  {
    FcfsLoop(ps, ArrivalOrder(ps), 0, Trace([], [], 0))
  }

  /** `fcfsSchedule`: every process runs once, to completion, in arrival order. */
  function FcfsSchedule(ps: seq<Process>): (r: ScheduleResult)
    ensures RunsToCompletion(ps, r, ArrivalOrder(ps))
  {
    FcfsRunsToCompletion(ps);
    Report(ps, FcfsTrace(ps))
  }

  /** The m-th slice runs the m-th process of `order` from the later of the
      previous end and its arrival, for exactly its burst. */
  predicate FcfsSlot(ps: seq<Process>, order: seq<nat>, sl: seq<Slice>, m: nat)
    requires m < |sl| && m < |order| && InRange(order, |ps|)
  {
    && sl[m].proc == order[m]
    && sl[m].start == Max(PrevEndAt(sl, m), ps[order[m]].arrivalTime)
    && sl[m].end == sl[m].start + ps[order[m]].burstTime
  }

  /** The state of the `forEach` after k processes of `order`. */
  ghost predicate FcfsInv(ps: seq<Process>, order: seq<nat>, k: nat, t: Trace)
    requires k <= |order| && InRange(order, |ps|)
  {
    && |t.slices| == k && |t.done| == k
    && (forall m :: 0 <= m < k ==> FcfsSlot(ps, order, t.slices, m))
    && (forall m :: 0 <= m < k ==> t.done[m] == Completion(order[m], t.slices[m].end))
    && t.clock == PrevEnd(t.slices)
    && (forall i :: 0 <= i < |ps| ==> Executed(t.slices, i) == (if i in order[..k] then ps[i].burstTime else 0))
    && (forall m :: 0 <= m < k ==> LastEnd(t.slices, order[m]) == t.slices[m].end)
  }

  lemma FcfsStepInv(ps: seq<Process>, order: seq<nat>, k: nat, t: Trace)
    requires k < |order| && InRange(order, |ps|) && Distinct(order)
    requires FcfsInv(ps, order, k, t)
    ensures var p := order[k];
      var start := Max(t.clock, ps[p].arrivalTime);
      var end := start + ps[p].burstTime;
      FcfsInv(ps, order, k + 1, Trace(t.slices + [Slice(p, start, end)], t.done + [Completion(p, end)], end))
  {
    var p := order[k];
    var start := Max(t.clock, ps[p].arrivalTime);
    var end := start + ps[p].burstTime;
    var x := Slice(p, start, end);
    var sl := t.slices + [x];
    var t' := Trace(sl, t.done + [Completion(p, end)], end);
    AppendSlice(t.slices, x);
    forall m | 0 <= m < k + 1
      ensures FcfsSlot(ps, order, sl, m)
    {
      if m < k {
        assert FcfsSlot(ps, order, t.slices, m);
        assert sl[m] == t.slices[m];
        if m > 0 {
          assert sl[m - 1] == t.slices[m - 1];
        }
      } else {
        assert sl[m] == x;
        if m > 0 {
          assert sl[m - 1] == t.slices[m - 1];
        }
      }
    }
    assert order[..k + 1] == order[..k] + [p];
    assert p !in order[..k] by {
      forall m | 0 <= m < k
        ensures order[..k][m] != p
      {
        assert order[m] != order[k];
      }
    }
    forall m | 0 <= m < k
      ensures LastEnd(sl, order[m]) == sl[m].end
    {
      assert order[m] != order[k];
      assert sl[m] == t.slices[m];
    }
    forall m | 0 <= m < k + 1
      ensures t'.done[m] == Completion(order[m], sl[m].end)
    {
      if m < k {
        assert sl[m] == t.slices[m];
      }
    }
  }

  lemma {:induction false} FcfsLoopInv(ps: seq<Process>, order: seq<nat>, k: nat, t: Trace)
    requires k <= |order| && InRange(order, |ps|) && Distinct(order)
    requires InRange(Procs(t.slices), |ps|) && InRange(DoneProcs(t.done), |ps|)
    requires FcfsInv(ps, order, k, t)
    ensures FcfsInv(ps, order, |order|, FcfsLoop(ps, order, k, t))
    decreases |order| - k
  {
    if k < |order| {
      var p := order[k];
      var start := Max(t.clock, ps[p].arrivalTime);
      var end := start + ps[p].burstTime;
      var t' := Trace(t.slices + [Slice(p, start, end)], t.done + [Completion(p, end)], end);
      FcfsStepInv(ps, order, k, t);
      AppendSlice(t.slices, Slice(p, start, end));
      assert DoneProcs(t'.done) == DoneProcs(t.done) + [p];
      assert FcfsLoop(ps, order, k, t) == FcfsLoop(ps, order, k + 1, t');
      FcfsLoopInv(ps, order, k + 1, t');
    }
  }

  /** What the finished loop holds. */
  lemma FcfsFinal(ps: seq<Process>) returns (order: seq<nat>)
    ensures order == ArrivalOrder(ps)
    ensures SortedBy(ps, ByArrival, order) && Distinct(order)
    ensures forall i :: 0 <= i < |ps| ==> i in order
    ensures FcfsInv(ps, order, |order|, FcfsTrace(ps))
    ensures Procs(FcfsTrace(ps).slices) == order
  {
    order := ArrivalOrder(ps);
    ArrivalOrderFacts(ps);
    FcfsLoopInv(ps, order, 0, Trace([], [], 0));
    var sl := FcfsTrace(ps).slices;
    forall m | 0 <= m < |sl|
      ensures Procs(sl)[m] == order[m]
    {
      assert FcfsSlot(ps, order, sl, m);
    }
  }

  /** FCFS runs the processes in arrival order, equal arrivals in input order;
      each starts at the later of the previous end (0 at first) and its arrival
      and runs for exactly its burst. */
  lemma FcfsRunsInArrivalOrder(ps: seq<Process>)
    ensures Procs(FcfsTrace(ps).slices) == ArrivalOrder(ps)
    ensures SortedBy(ps, ByArrival, Procs(FcfsTrace(ps).slices))
    ensures var sl := FcfsTrace(ps).slices;
      forall m :: 0 <= m < |sl| ==>
        && sl[m].start == Max(PrevEndAt(sl, m), ps[sl[m].proc].arrivalTime)
        && sl[m].end == sl[m].start + ps[sl[m].proc].burstTime
  {
    var order := FcfsFinal(ps);
    var sl := FcfsTrace(ps).slices;
    forall m | 0 <= m < |sl|
      ensures sl[m].start == Max(PrevEndAt(sl, m), ps[sl[m].proc].arrivalTime)
      ensures sl[m].end == sl[m].start + ps[sl[m].proc].burstTime
    {
      assert FcfsSlot(ps, order, sl, m);
    }
  }

  lemma FcfsFeasible(ps: seq<Process>, order: seq<nat>, t: Trace)
    requires PositiveBursts(ps) && order == ArrivalOrder(ps)
    requires Distinct(order) && forall i :: 0 <= i < |ps| ==> i in order
    requires FcfsInv(ps, order, |order|, t)
    ensures Feasible(ps, t)
  {
    FcfsShape(ps, order, t);
    FcfsCompletions(ps, order, t);
  }

  /** The slices are valid and in time order. */
  lemma FcfsShape(ps: seq<Process>, order: seq<nat>, t: Trace)
    requires PositiveBursts(ps) && InRange(order, |ps|)
    requires FcfsInv(ps, order, |order|, t)
    ensures SlicesValid(ps, t.slices) && Ordered(t.slices)
  {
    var sl := t.slices;
    forall m | 0 <= m < |sl| - 1
      ensures sl[m].end <= sl[m + 1].start
    {
      assert FcfsSlot(ps, order, sl, m + 1);
    }
    forall m | 0 <= m < |sl|
      ensures sl[m].proc < |ps| && ps[sl[m].proc].arrivalTime <= sl[m].start < sl[m].end
    {
      assert FcfsSlot(ps, order, sl, m);
    }
  }

  /** Every process gets its burst and one completion, at the end of its slice. */
  lemma FcfsCompletions(ps: seq<Process>, order: seq<nat>, t: Trace)
    requires |order| == |ps| && InRange(order, |ps|)
    requires Distinct(order) && forall i :: 0 <= i < |ps| ==> i in order
    requires FcfsInv(ps, order, |order|, t)
    ensures forall i :: 0 <= i < |ps| ==> Executed(t.slices, i) == ps[i].burstTime
    ensures |t.done| == |ps| && DoneProcs(t.done) == order
    ensures forall k :: 0 <= k < |t.done| ==> t.done[k].time == LastEnd(t.slices, t.done[k].proc)
    ensures t.clock == PrevEnd(t.slices)
  {
    assert order[..|order|] == order;
  }

  lemma FcfsDispatch(ps: seq<Process>, order: seq<nat>, t: Trace, k: nat)
    requires order == ArrivalOrder(ps) && SortedBy(ps, ByArrival, order)
    requires Distinct(order) && forall i :: 0 <= i < |ps| ==> i in order
    requires FcfsInv(ps, order, |order|, t) && Procs(t.slices) == order
    requires k < |t.slices|
    ensures InRange(Procs(t.slices), |ps|) && DispatchOk(ps, ByArrival, t.slices, k)
  {
    var sl := t.slices;
    var p := order[k];
    assert FcfsSlot(ps, order, sl, k);
    forall j | 0 <= j < |ps| && j !in Procs(sl)[..k]
      ensures j == p || Precedes(ps, ByArrival, p, j)
    {
      assert j in order;
      var m :| 0 <= m < |order| && order[m] == j;
    }
  }

  /** FCFS yields a feasible schedule, and it obeys the same non-preemptive policy
      as SJF and Priority with the arrival time as the key. */
  lemma FcfsCorrect(ps: seq<Process>)
    requires PositiveBursts(ps)
    ensures Feasible(ps, FcfsTrace(ps))
    ensures NonPreemptiveSchedule(ps, ByArrival, FcfsTrace(ps).slices)
  {
    var order := FcfsFinal(ps);
    var t := FcfsTrace(ps);
    FcfsFeasible(ps, order, t);
    forall k | 0 <= k < |t.slices|
      ensures DispatchOk(ps, ByArrival, t.slices, k)
    {
      FcfsDispatch(ps, order, t, k);
    }
  }

  /** The fixed-order FCFS loop and the generic non-preemptive loop keyed by
      arrival time produce the same timeline. */
  lemma FcfsIsNonPreemptiveByArrival(ps: seq<Process>)
    requires PositiveBursts(ps)
    ensures FcfsTrace(ps).slices == NpTrace(ps, ByArrival).slices
  {
    FcfsCorrect(ps);
    NpTraceCorrect(ps, ByArrival);
    NonPreemptiveUnique(ps, ByArrival, FcfsTrace(ps).slices, NpTrace(ps, ByArrival).slices);
  }

  /** Whatever the bursts, FCFS runs every process exactly once, in arrival
      order, for its whole burst. */
  lemma FcfsRunsToCompletion(ps: seq<Process>)
    ensures RunsToCompletion(ps, Report(ps, FcfsTrace(ps)), ArrivalOrder(ps))
  {
    var order := FcfsFinal(ps);
    var t := FcfsTrace(ps);
    forall k | 0 <= k < |ps|
      ensures t.slices[k].proc == order[k]
      ensures t.slices[k].end == t.slices[k].start + ps[order[k]].burstTime
      ensures t.done[k] == Completion(order[k], t.slices[k].end)
    {
      assert FcfsSlot(ps, order, t.slices, k);
    }
    ReportRunsToCompletion(ps, t, order);
  }
}
