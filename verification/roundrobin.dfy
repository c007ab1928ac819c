/**
  Round Robin scheduling: a FIFO ready queue, a time quantum, and admission of
  newly arrived processes both before a dispatch and right after a slice ends,
  so that a preempted process rejoins the queue behind everything that arrived
  while it ran.
 */
module RoundRobin {
  import opened SchedulerTypes
  import opened Ordering
  import opened Timeline

  /** The loop state: the clock, the ready queue, how many processes of the
      arrival order have been admitted, the remaining CPU time of every process,
      and the timeline and completions emitted so far. */
  datatype RrState = RrState(
    clock: int,
    queue: seq<nat>,
    next: nat,
    left: seq<int>,
    slices: seq<Slice>,
    done: seq<Completion>)

  predicate RrWf(ps: seq<Process>, order: seq<nat>, s: RrState) {
    && |order| == |ps|
    && InRange(order, |ps|)
    && s.next <= |order|
    && |s.left| == |ps|
    && InRange(s.queue, |ps|)
    && InRange(Procs(s.slices), |ps|)
    && InRange(DoneProcs(s.done), |ps|)
  }

  /** Every process starts with its whole burst still to run. */
  function Bursts(ps: seq<Process>): (r: seq<int>)
    ensures |r| == |ps|
    ensures forall i :: 0 <= i < |ps| ==> r[i] == ps[i].burstTime
  {
    seq(|ps|, i requires 0 <= i < |ps| => ps[i].burstTime)
  }

  /** The admission loop: append to the queue, in arrival order, every process
      not yet admitted whose arrival time has been reached. It stops at the first
      process of the arrival order that has not arrived yet. */
  function Admit(ps: seq<Process>, order: seq<nat>, s: RrState): (r: RrState)
    requires RrWf(ps, order, s)
    ensures RrWf(ps, order, r)
    ensures s.next <= r.next <= |order|
    ensures r == s.(queue := s.queue + order[s.next..r.next], next := r.next)
    ensures forall m :: s.next <= m < r.next ==> ps[order[m]].arrivalTime <= s.clock
    ensures r.next < |order| ==> s.clock < ps[order[r.next]].arrivalTime
    decreases |order| - s.next
  {
    if s.next < |order| && ps[order[s.next]].arrivalTime <= s.clock then
      var r := Admit(ps, order, s.(queue := s.queue + [order[s.next]], next := s.next + 1));
      assert order[s.next..r.next] == [order[s.next]] + order[s.next + 1..r.next];
      r
    else
      s
  }

  /** One iteration of the `while (queue.length > 0 || index < sorted.length)` loop:
      admit; on an empty queue jump the clock to the next arrival, otherwise
      run the queue head for one slice. */
  function RrStep(ps: seq<Process>, order: seq<nat>, quantum: int, s: RrState): (r: RrState)
    requires RrWf(ps, order, s) && (|s.queue| > 0 || s.next < |order|)
    ensures RrWf(ps, order, r)
  {
    var a := Admit(ps, order, s);
    if |a.queue| == 0 then
      a.(clock := ps[order[a.next]].arrivalTime)
    else
      Dispatch(ps, order, quantum, a)
  }

  /** Run the queue head for `min(quantum, remaining)`, admit what arrived by
      the end of the slice, then re-enqueue the head if it has time left or
      record its completion. */
  function Dispatch(ps: seq<Process>, order: seq<nat>, quantum: int, a: RrState): (r: RrState)
    requires RrWf(ps, order, a) && |a.queue| > 0
    ensures RrWf(ps, order, r)
  {
    var p := a.queue[0];
    var run := Min(quantum, a.left[p]);
    var end := a.clock + run;
    AppendSlice(a.slices, Slice(p, a.clock, end));
    var b := Admit(ps, order, RrState(end, a.queue[1..], a.next, a.left[p := a.left[p] - run],
                                      a.slices + [Slice(p, a.clock, end)], a.done));
    if b.left[p] > 0 then
      b.(queue := b.queue + [p])
    else
      b.(done := b.done + [Completion(p, end)])
  }

  /** The positive part of the remaining times: the CPU time still owed. */
  function SumPos(s: seq<int>): nat {
    if |s| == 0 then 0 else SumPos(s[..|s| - 1]) + Max(s[|s| - 1], 0)
  }

  lemma {:induction false} SumPosUpdate(s: seq<int>, i: nat, v: int)
    requires i < |s|
    ensures SumPos(s[i := v]) == SumPos(s) - Max(s[i], 0) + Max(v, 0)
  {
    var n := |s|;
    if i == n - 1 {
      assert s[i := v][..n - 1] == s[..n - 1];
    } else {
      assert s[i := v][..n - 1] == s[..n - 1][i := v];
      SumPosUpdate(s[..n - 1], i, v);
    }
  }

  /** Owed CPU time, plus one for every queued and every not yet admitted process. */
  function RrMeasure(ps: seq<Process>, order: seq<nat>, s: RrState): int
    requires RrWf(ps, order, s)
  {
    SumPos(s.left) + |s.queue| + (|order| - s.next)
  }

  /** 1 when the next step will find the queue empty and only move the clock. */
  function RrIdle(ps: seq<Process>, order: seq<nat>, s: RrState): int
    requires RrWf(ps, order, s)
  {
    if |Admit(ps, order, s).queue| == 0 then 1 else 0
  }

  /** With a quantum of at least one, every dispatch lowers the measure, and an
      idle step keeps it while making the following step a dispatch. */
  lemma RrStepProgress(ps: seq<Process>, order: seq<nat>, quantum: int, s: RrState)
    requires RrWf(ps, order, s) && (|s.queue| > 0 || s.next < |order|) && quantum >= 1
    ensures var r := RrStep(ps, order, quantum, s);
      || RrMeasure(ps, order, r) < RrMeasure(ps, order, s)
      || (RrMeasure(ps, order, r) == RrMeasure(ps, order, s) && RrIdle(ps, order, s) == 1 && RrIdle(ps, order, r) == 0)
  {
    var a := Admit(ps, order, s);
    assert RrMeasure(ps, order, a) == RrMeasure(ps, order, s);
    if |a.queue| > 0 {
      DispatchProgress(ps, order, quantum, a);
    } else {
      var r := RrStep(ps, order, quantum, s);
      assert r == a.(clock := ps[order[a.next]].arrivalTime);
      assert |Admit(ps, order, r).queue| > 0;
    }
  }

  /** Running a slice strictly lowers the measure: the head either loses at
      least one unit of remaining time or leaves the queue. */
  lemma DispatchProgress(ps: seq<Process>, order: seq<nat>, quantum: int, a: RrState)
    requires RrWf(ps, order, a) && |a.queue| > 0 && quantum >= 1
    ensures RrMeasure(ps, order, Dispatch(ps, order, quantum, a)) < RrMeasure(ps, order, a)
  {
    var p := a.queue[0];
    var run := Min(quantum, a.left[p]);
    SumPosUpdate(a.left, p, a.left[p] - run);
  }

  /** The loop, run until the queue is empty and every process has been admitted. */
  function RrRun(ps: seq<Process>, order: seq<nat>, quantum: int, s: RrState): (r: RrState)
    requires RrWf(ps, order, s) && quantum >= 1
    ensures RrWf(ps, order, r) && |r.queue| == 0 && r.next == |order|
    decreases RrMeasure(ps, order, s), RrIdle(ps, order, s)
  {
    if |s.queue| == 0 && s.next == |order| then s
    else
      RrStepProgress(ps, order, quantum, s);
      RrRun(ps, order, quantum, RrStep(ps, order, quantum, s))
  }

  function RrStart(ps: seq<Process>): RrState {
    RrState(0, [], 0, Bursts(ps), [], [])
  }

  /** The trace of a run: time 0, an empty queue, nothing admitted. */
  function RrTrace(ps: seq<Process>, quantum: int): (t: Trace)
    requires quantum >= 1
    ensures InRange(Procs(t.slices), |ps|) && InRange(DoneProcs(t.done), |ps|)
  {
    var f := RrRun(ps, ArrivalOrder(ps), quantum, RrStart(ps));
    Trace(f.slices, f.done, f.clock)
  }

  /** `roundRobinSchedule`: with positive bursts, the timeline is the run's
      slices, each between one unit and one quantum long; every process is
      reported exactly once, with turnaround = end of its last slice - arrival
      and waiting = turnaround - burst; the total time is where the last slice
      ends. */
  function RoundRobinSchedule(ps: seq<Process>, quantum: int): (r: ScheduleResult)
    requires quantum >= 1
    ensures PositiveBursts(ps) ==> RoundRobinResult(ps, quantum, RrTrace(ps, quantum), r)
  {
    RoundRobinReport(ps, quantum);
    Report(ps, RrTrace(ps, quantum))
  }

  /** What `roundRobinSchedule` reports about the run `t`. */
  ghost predicate RoundRobinResult(ps: seq<Process>, quantum: int, t: Trace, r: ScheduleResult)
    requires InRange(Procs(t.slices), |ps|) && InRange(DoneProcs(t.done), |ps|)
  {
    && |r.timeline| == |t.slices|
    && (forall k :: 0 <= k < |t.slices| ==>
          && r.timeline[k].processId == ps[t.slices[k].proc].id
          && r.timeline[k].startTime == t.slices[k].start
          && r.timeline[k].endTime == t.slices[k].end
          && 1 <= r.timeline[k].endTime - r.timeline[k].startTime <= quantum)
    && |r.processMetrics| == |t.done| == |ps|
    && Distinct(DoneProcs(t.done))
    && (forall i :: 0 <= i < |ps| ==> i in DoneProcs(t.done))
    && (forall k :: 0 <= k < |t.done| ==>
          var i := t.done[k].proc;
          && r.processMetrics[k].processId == ps[i].id
          && r.processMetrics[k].turnaroundTime == LastEnd(t.slices, i) - ps[i].arrivalTime
          && r.processMetrics[k].waitingTime == r.processMetrics[k].turnaroundTime - ps[i].burstTime)
    && r.totalTime == PrevEnd(t.slices)
  }

  lemma RoundRobinReport(ps: seq<Process>, quantum: int)
    requires quantum >= 1
    ensures PositiveBursts(ps) ==>
      RoundRobinResult(ps, quantum, RrTrace(ps, quantum), Report(ps, RrTrace(ps, quantum)))
  {
    if PositiveBursts(ps) {
      RoundRobinFeasible(ps, quantum);
      RoundRobinSlices(ps, quantum);
    }
  }

  // ---------------------------------------------------------------------------
  // The loop invariant. `extra` lists processes that belong to the ready queue
  // but are appended only after the admission that follows a slice (the
  // preempted process), so the invariant can be stated between the slice and
  // that admission.

  /** `order` is a valid arrival order: every process once, sorted by arrival. */
  predicate OrderOk(ps: seq<Process>, order: seq<nat>) {
    && |order| == |ps|
    && InRange(order, |ps|)
    && SortedBy(ps, ByArrival, order)
    && Distinct(order)
    && forall i :: 0 <= i < |ps| ==> i in order
  }

  /** The effective queue holds admitted processes with time left, each once. */
  ghost predicate QueueOk(ps: seq<Process>, order: seq<nat>, s: RrState, extra: seq<nat>)
    requires RrWf(ps, order, s)
  {
    var q := s.queue + extra;
    && InRange(extra, |ps|)
    && Distinct(q)
    && forall k :: 0 <= k < |q| ==> q[k] in order[..s.next] && s.left[q[k]] > 0
  }

  /** Completions name admitted processes with no time left, each once. */
  ghost predicate DoneOk(ps: seq<Process>, order: seq<nat>, s: RrState)
    requires RrWf(ps, order, s)
  {
    && Distinct(DoneProcs(s.done))
    && forall k :: 0 <= k < |s.done| ==> s.done[k].proc in order[..s.next] && s.left[s.done[k].proc] == 0
  }

  /** Every admitted process is queued or done. */
  ghost predicate Covered(ps: seq<Process>, order: seq<nat>, s: RrState, extra: seq<nat>)
    requires RrWf(ps, order, s)
  {
    var q := s.queue + extra;
    && (forall i :: 0 <= i < |ps| && i in order[..s.next] ==> i in q || i in DoneProcs(s.done))
    && |q| + |s.done| == s.next
  }

  /** The CPU time given plus the time left is the burst; processes not yet
      admitted are untouched. */
  ghost predicate CpuOk(ps: seq<Process>, order: seq<nat>, s: RrState)
    requires RrWf(ps, order, s)
  {
    && (forall i :: 0 <= i < |ps| ==> Executed(s.slices, i) + s.left[i] == ps[i].burstTime)
    && (forall i :: 0 <= i < |ps| && i !in order[..s.next] ==> s.left[i] == ps[i].burstTime)
  }

  /** Admitted processes had arrived by the clock. */
  ghost predicate ArrivedOk(ps: seq<Process>, order: seq<nat>, s: RrState)
    requires RrWf(ps, order, s)
  {
    forall m :: 0 <= m < s.next ==> ps[order[m]].arrivalTime <= s.clock
  }

  /** Slices are valid, ordered, at most a quantum long and over by the clock;
      completions carry the end of their process's last slice. */
  ghost predicate SlicesOk(ps: seq<Process>, quantum: int, s: RrState) {
    && SlicesValid(ps, s.slices)
    && Ordered(s.slices)
    && PrevEnd(s.slices) <= s.clock
    && (forall k :: 0 <= k < |s.slices| ==> s.slices[k].end - s.slices[k].start <= quantum)
    && (forall k :: 0 <= k < |s.done| ==> s.done[k].time == LastEnd(s.slices, s.done[k].proc))
  }

  /** The CPU idles only when nothing is ready, and only until the next
      arrival: a clock ahead of the timeline stands at the arrival of the
      process that runs next (the queue head, or else the next process to be
      admitted), and every process that arrived earlier has finished; every
      gap in the timeline ends the same way. */
  ghost predicate IdleOk(ps: seq<Process>, order: seq<nat>, s: RrState, extra: seq<nat>)
    requires RrWf(ps, order, s)
  {
    && (s.clock > PrevEnd(s.slices) ==>
          && extra == []
          && FinishedBefore(ps, s.slices, s.clock)
          && if |s.queue| > 0 then ps[s.queue[0]].arrivalTime == s.clock
             else s.next < |order| && ps[order[s.next]].arrivalTime == s.clock)
    && (forall k :: 0 <= k < |s.slices| ==> GapOk(ps, s.slices, k))
  }

  /** A gap before slice k ends at the arrival of the process that slice runs,
      and every process that arrived earlier had finished before it. */
  ghost predicate GapOk(ps: seq<Process>, sl: seq<Slice>, k: nat)
    requires k < |sl|
  {
    PrevEndAt(sl, k) < sl[k].start ==>
      && sl[k].proc < |ps|
      && ps[sl[k].proc].arrivalTime == sl[k].start
      && FinishedBefore(ps, sl[..k], sl[k].start)
  }

  lemma GapExtend(ps: seq<Process>, sl: seq<Slice>, x: Slice, k: nat)
    requires k < |sl| && GapOk(ps, sl, k)
    ensures GapOk(ps, sl + [x], k)
  {
    var sl' := sl + [x];
    assert sl'[k] == sl[k];
    assert sl'[..k] == sl[..k];
    if k > 0 {
      assert sl'[k - 1] == sl[k - 1];
    }
  }

  lemma GapLast(ps: seq<Process>, sl: seq<Slice>, x: Slice)
    requires PrevEnd(sl) < x.start ==>
      x.proc < |ps| && ps[x.proc].arrivalTime == x.start && FinishedBefore(ps, sl, x.start)
    ensures GapOk(ps, sl + [x], |sl|)
  {
    assert (sl + [x])[..|sl|] == sl;
  }

  /** A slice shorter than the quantum finished its process: it has no time
      left and no later slice. */
  ghost predicate ShortOk(ps: seq<Process>, order: seq<nat>, quantum: int, s: RrState)
    requires RrWf(ps, order, s)
  {
    && (forall j, k :: 0 <= j < k < |s.slices| && s.slices[j].end - s.slices[j].start < quantum ==>
          s.slices[k].proc != s.slices[j].proc)
    && (forall k :: 0 <= k < |s.slices| && s.slices[k].end - s.slices[k].start < quantum ==>
          s.left[s.slices[k].proc] == 0)
  }

  ghost predicate RrInv(ps: seq<Process>, order: seq<nat>, quantum: int, s: RrState, extra: seq<nat>) {
    && RrWf(ps, order, s)
    && QueueOk(ps, order, s, extra)
    && DoneOk(ps, order, s)
    && Covered(ps, order, s, extra)
    && CpuOk(ps, order, s)
    && ArrivedOk(ps, order, s)
    && SlicesOk(ps, quantum, s)
    && IdleOk(ps, order, s, extra)
    && ShortOk(ps, order, quantum, s)
  }

  lemma DistinctMiddle(a: seq<nat>, m: seq<nat>, c: seq<nat>)
    requires Distinct(a + c) && Distinct(m)
    requires forall x :: x in m ==> x !in a + c
    ensures Distinct(a + m + c)
  {
    var s := a + m + c;
    var ac := a + c;
    forall i, j | 0 <= i < j < |s|
      ensures s[i] != s[j]
    {
      if |a| <= i < |a| + |m| && |a| <= j < |a| + |m| {
        assert s[i] == m[i - |a|] && s[j] == m[j - |a|];
      } else if |a| <= i < |a| + |m| {
        var y := if j < |a| then j else j - |m|;
        assert s[i] == m[i - |a|] && s[j] == ac[y] && ac[y] in ac;
      } else if |a| <= j < |a| + |m| {
        var x := if i < |a| then i else i - |m|;
        assert s[j] == m[j - |a|] && s[i] == ac[x] && ac[x] in ac;
      } else {
        var x := if i < |a| then i else i - |m|;
        var y := if j < |a| then j else j - |m|;
        assert s[i] == ac[x] && s[j] == ac[y];
      }
    }
  }

  /** The processes an admission appends were not admitted before, and are distinct. */
  lemma AdmittedFresh(ps: seq<Process>, order: seq<nat>, s: RrState)
    requires OrderOk(ps, order) && RrWf(ps, order, s)
    ensures var r := Admit(ps, order, s);
      && order[..r.next] == order[..s.next] + order[s.next..r.next]
      && Distinct(order[s.next..r.next])
      && forall x :: x in order[s.next..r.next] ==> x !in order[..s.next]
  {
    var r := Admit(ps, order, s);
    assert order[..r.next] == order[..s.next] + order[s.next..r.next];
    DistinctSplit(order, s.next, r.next);
  }

  /** The processes an admission appends are new to the effective queue. */
  lemma AdmitDistinct(ps: seq<Process>, order: seq<nat>, s: RrState, extra: seq<nat>)
    requires OrderOk(ps, order) && RrWf(ps, order, s)
    requires Distinct(s.queue + extra)
    requires forall k :: 0 <= k < |s.queue + extra| ==> (s.queue + extra)[k] in order[..s.next]
    ensures Distinct(Admit(ps, order, s).queue + extra)
  {
    var r := Admit(ps, order, s);
    var admitted := order[s.next..r.next];
    AdmittedFresh(ps, order, s);
    var q := s.queue + extra;
    assert r.queue + extra == s.queue + admitted + extra;
    forall x | x in admitted
      ensures x !in q
    {
    }
    DistinctMiddle(s.queue, admitted, extra);
  }

  /** Every entry of the effective queue after an admission is admitted and has time left. */
  lemma AdmitEntries(ps: seq<Process>, order: seq<nat>, s: RrState, extra: seq<nat>)
    requires OrderOk(ps, order) && PositiveBursts(ps) && RrWf(ps, order, s)
    requires forall k :: 0 <= k < |s.queue + extra| ==>
      (s.queue + extra)[k] in order[..s.next] && s.left[(s.queue + extra)[k]] > 0
    requires forall i :: 0 <= i < |ps| && i !in order[..s.next] ==> s.left[i] == ps[i].burstTime
    ensures var r := Admit(ps, order, s);
      forall k :: 0 <= k < |r.queue + extra| ==>
        (r.queue + extra)[k] in order[..r.next] && r.left[(r.queue + extra)[k]] > 0
  {
    var r := Admit(ps, order, s);
    var admitted := order[s.next..r.next];
    AdmittedFresh(ps, order, s);
    var q := s.queue + extra;
    var q' := r.queue + extra;
    assert q' == s.queue + admitted + extra;
    forall k | 0 <= k < |q'|
      ensures q'[k] in order[..r.next] && r.left[q'[k]] > 0
    {
      if k < |s.queue| {
        assert q'[k] == q[k];
      } else if k < |s.queue| + |admitted| {
        assert q'[k] in admitted;
      } else {
        assert q'[k] == q[k - |admitted|];
      }
    }
  }

  /** After an admission every admitted process is still queued or done. */
  lemma AdmitCovers(ps: seq<Process>, order: seq<nat>, s: RrState, extra: seq<nat>)
    requires OrderOk(ps, order) && RrWf(ps, order, s)
    requires forall i :: 0 <= i < |ps| && i in order[..s.next] ==> i in s.queue + extra || i in DoneProcs(s.done)
    ensures var r := Admit(ps, order, s);
      forall i :: 0 <= i < |ps| && i in order[..r.next] ==> i in r.queue + extra || i in DoneProcs(r.done)
  {
    var r := Admit(ps, order, s);
    var admitted := order[s.next..r.next];
    AdmittedFresh(ps, order, s);
    var q' := r.queue + extra;
    assert q' == s.queue + admitted + extra;
    assert order[..r.next] == order[..s.next] + admitted;
    forall i | 0 <= i < |ps| && i in order[..r.next]
      ensures i in q' || i in DoneProcs(r.done)
    {
      if i in admitted {
        assert i in s.queue + admitted;
      } else if i in s.queue {
        assert i in s.queue + admitted;
      } else if i in extra {
        assert i in q';
      }
    }
  }

  /** Admission keeps the queue, completion, coverage and CPU-time parts of
      the invariant. */
  lemma AdmitKeepsCounts(ps: seq<Process>, order: seq<nat>, s: RrState, extra: seq<nat>)
    requires OrderOk(ps, order) && PositiveBursts(ps) && RrWf(ps, order, s)
    requires QueueOk(ps, order, s, extra) && DoneOk(ps, order, s)
    requires Covered(ps, order, s, extra) && CpuOk(ps, order, s)
    ensures var r := Admit(ps, order, s);
      && QueueOk(ps, order, r, extra) && DoneOk(ps, order, r)
      && Covered(ps, order, r, extra) && CpuOk(ps, order, r)
  {
    var r := Admit(ps, order, s);
    AdmitDistinct(ps, order, s, extra);
    AdmitEntries(ps, order, s, extra);
    AdmitCovers(ps, order, s, extra);
    AdmittedFresh(ps, order, s);
    assert |r.queue + extra| + |r.done| == r.next;
    forall k | 0 <= k < |r.done|
      ensures r.done[k].proc in order[..r.next]
    {
      assert s.done[k].proc in order[..s.next];
    }
  }

  lemma AdmitTime(ps: seq<Process>, order: seq<nat>, quantum: int, s: RrState, extra: seq<nat>)
    requires RrWf(ps, order, s)
    requires ArrivedOk(ps, order, s) && SlicesOk(ps, quantum, s)
    requires IdleOk(ps, order, s, extra) && ShortOk(ps, order, quantum, s)
    ensures var r := Admit(ps, order, s);
      && ArrivedOk(ps, order, r) && SlicesOk(ps, quantum, r)
      && IdleOk(ps, order, r, extra) && ShortOk(ps, order, quantum, r)
  {
    var r := Admit(ps, order, s);
    assert r.slices == s.slices && r.done == s.done && r.clock == s.clock && r.left == s.left;
    if r.clock > PrevEnd(r.slices) {
      if |s.queue| > 0 {
        assert r.queue[0] == s.queue[0];
      } else {
        assert s.next < r.next;
        assert r.queue[0] == order[s.next];
      }
    }
  }

  /** Admission at an unchanged clock keeps the invariant. */
  lemma AdmitPreserves(ps: seq<Process>, order: seq<nat>, quantum: int, s: RrState, extra: seq<nat>)
    requires OrderOk(ps, order) && PositiveBursts(ps)
    requires RrInv(ps, order, quantum, s, extra)
    ensures RrInv(ps, order, quantum, Admit(ps, order, s), extra)
  {
    AdmitKeepsCounts(ps, order, s, extra);
    AdmitTime(ps, order, quantum, s, extra);
  }

  /** When the queue is empty after admission, every process that arrived
      before the next one to be admitted has already received its whole burst. */
  lemma IdleFinished(ps: seq<Process>, order: seq<nat>, a: RrState)
    requires OrderOk(ps, order) && RrWf(ps, order, a)
    requires |a.queue| == 0 && a.next < |order|
    requires DoneOk(ps, order, a) && Covered(ps, order, a, []) && CpuOk(ps, order, a)
    ensures FinishedBefore(ps, a.slices, ps[order[a.next]].arrivalTime)
  {
    assert a.queue + [] == [];
    forall i | 0 <= i < |ps| && ps[i].arrivalTime < ps[order[a.next]].arrivalTime
      ensures Executed(a.slices, i) == ps[i].burstTime
    {
      assert i in order;
      var m :| 0 <= m < |order| && order[m] == i;
      assert order[..a.next][m] == i;
      assert i in order[..a.next];
      assert i in DoneProcs(a.done);
      var k :| 0 <= k < |a.done| && DoneProcs(a.done)[k] == i;
      assert a.done[k].proc == i;
    }
  }

  /** An idle step jumps the clock to the next arrival and keeps the invariant. */
  lemma IdlePreserves(ps: seq<Process>, order: seq<nat>, quantum: int, a: RrState)
    requires OrderOk(ps, order)
    requires RrInv(ps, order, quantum, a, [])
    requires |a.queue| == 0 && a.next < |order| && a.clock < ps[order[a.next]].arrivalTime
    ensures RrInv(ps, order, quantum, a.(clock := ps[order[a.next]].arrivalTime), [])
  {
    IdleFinished(ps, order, a);
  }

  /** The queue head is an admitted, arrived process with time left, queued once
      and not done. */
  ghost predicate HeadReady(ps: seq<Process>, order: seq<nat>, a: RrState)
    requires RrWf(ps, order, a) && |a.queue| > 0
  {
    var p := a.queue[0];
    && a.left[p] > 0
    && ps[p].arrivalTime <= a.clock
    && p in order[..a.next]
    && p !in a.queue[1..]
    && p !in DoneProcs(a.done)
  }

  lemma HeadFacts(ps: seq<Process>, order: seq<nat>, a: RrState)
    requires RrWf(ps, order, a) && |a.queue| > 0
    requires QueueOk(ps, order, a, []) && DoneOk(ps, order, a) && ArrivedOk(ps, order, a)
    ensures HeadReady(ps, order, a)
  {
    var p := a.queue[0];
    var qa := a.queue + [];
    assert qa[0] == p;
    var m :| 0 <= m < a.next && order[m] == p;
    forall k | 0 <= k < |a.queue| - 1
      ensures a.queue[1..][k] != p
    {
      assert a.queue[1..][k] == qa[k + 1];
    }
    forall k | 0 <= k < |a.done|
      ensures DoneProcs(a.done)[k] != p
    {
    }
  }

  /** The state right after a slice of the queue head, with the completion
      recorded if it finished; the second component is the preempted process, if
      any, that rejoins the queue after the admission that follows. */
  function AfterSlice(ps: seq<Process>, order: seq<nat>, quantum: int, a: RrState): (r: (RrState, seq<nat>))
    requires RrWf(ps, order, a) && |a.queue| > 0
    ensures RrWf(ps, order, r.0) && InRange(r.1, |ps|)
  {
    var p := a.queue[0];
    var run := Min(quantum, a.left[p]);
    var end := a.clock + run;
    var left := a.left[p := a.left[p] - run];
    var sl := a.slices + [Slice(p, a.clock, end)];
    AppendSlice(a.slices, Slice(p, a.clock, end));
    if left[p] > 0 then
      (RrState(end, a.queue[1..], a.next, left, sl, a.done), [p])
    else
      (RrState(end, a.queue[1..], a.next, left, sl, a.done + [Completion(p, end)]), [])
  }

  lemma DispatchQueue(ps: seq<Process>, order: seq<nat>, quantum: int, a: RrState)
    requires RrWf(ps, order, a) && |a.queue| > 0 && quantum >= 1
    requires HeadReady(ps, order, a) && QueueOk(ps, order, a, [])
    ensures var (mid, extra) := AfterSlice(ps, order, quantum, a);
      QueueOk(ps, order, mid, extra)
  {
    var (mid, extra) := AfterSlice(ps, order, quantum, a);
    var p := a.queue[0];
    var qa := a.queue + [];
    var q := mid.queue + extra;
    assert qa == [p] + mid.queue;
    assert Distinct(q) by {
      assert Distinct(mid.queue + []) by {
        assert mid.queue + [] == mid.queue;
        forall i, j | 0 <= i < j < |mid.queue|
          ensures mid.queue[i] != mid.queue[j]
        {
          assert mid.queue[i] == qa[i + 1] && mid.queue[j] == qa[j + 1];
        }
      }
      DistinctMiddle(mid.queue, extra, []);
      assert mid.queue + extra + [] == q;
    }
    forall k | 0 <= k < |q|
      ensures q[k] in order[..mid.next] && mid.left[q[k]] > 0
    {
      if k < |mid.queue| {
        assert q[k] == qa[k + 1];
      }
    }
  }

  lemma DispatchDone(ps: seq<Process>, order: seq<nat>, quantum: int, a: RrState)
    requires RrWf(ps, order, a) && |a.queue| > 0 && quantum >= 1
    requires HeadReady(ps, order, a) && DoneOk(ps, order, a)
    ensures DoneOk(ps, order, AfterSlice(ps, order, quantum, a).0)
  {
    var (mid, extra) := AfterSlice(ps, order, quantum, a);
    var p := a.queue[0];
    if mid.done != a.done {
      forall i, j | 0 <= i < j < |mid.done|
        ensures DoneProcs(mid.done)[i] != DoneProcs(mid.done)[j]
      {
        assert DoneProcs(a.done)[i] == DoneProcs(mid.done)[i];
        if j < |a.done| {
          assert DoneProcs(a.done)[j] == DoneProcs(mid.done)[j];
        }
      }
    }
    forall k | 0 <= k < |mid.done|
      ensures mid.done[k].proc in order[..mid.next] && mid.left[mid.done[k].proc] == 0
    {
      if k < |a.done| {
        assert DoneProcs(a.done)[k] != p;
      }
    }
  }

  lemma DispatchCover(ps: seq<Process>, order: seq<nat>, quantum: int, a: RrState)
    requires RrWf(ps, order, a) && |a.queue| > 0 && quantum >= 1
    requires HeadReady(ps, order, a) && Covered(ps, order, a, [])
    ensures var (mid, extra) := AfterSlice(ps, order, quantum, a);
      Covered(ps, order, mid, extra)
  {
    var (mid, extra) := AfterSlice(ps, order, quantum, a);
    var p := a.queue[0];
    var qa := a.queue + [];
    var q := mid.queue + extra;
    forall i | 0 <= i < |ps| && i in order[..mid.next]
      ensures i in q || i in DoneProcs(mid.done)
    {
      if i in DoneProcs(a.done) {
        var k :| 0 <= k < |a.done| && DoneProcs(a.done)[k] == i;
        assert DoneProcs(mid.done)[k] == i;
      } else if i != p {
        var k :| 0 <= k < |qa| && qa[k] == i;
        assert q[k - 1] == i;
      } else if extra == [] {
        assert DoneProcs(mid.done)[|a.done|] == p;
      } else {
        assert q[|q| - 1] == p;
      }
    }
  }

  lemma DispatchCpu(ps: seq<Process>, order: seq<nat>, quantum: int, a: RrState)
    requires RrWf(ps, order, a) && |a.queue| > 0 && quantum >= 1
    requires HeadReady(ps, order, a) && CpuOk(ps, order, a)
    ensures CpuOk(ps, order, AfterSlice(ps, order, quantum, a).0)
  {
    var p := a.queue[0];
    var run := Min(quantum, a.left[p]);
    AppendSlice(a.slices, Slice(p, a.clock, a.clock + run));
  }

  lemma DispatchSlices(ps: seq<Process>, order: seq<nat>, quantum: int, a: RrState)
    requires RrWf(ps, order, a) && |a.queue| > 0 && quantum >= 1
    requires HeadReady(ps, order, a) && ArrivedOk(ps, order, a) && SlicesOk(ps, quantum, a)
    ensures var mid := AfterSlice(ps, order, quantum, a).0;
      ArrivedOk(ps, order, mid) && SlicesOk(ps, quantum, mid)
  {
    var mid := AfterSlice(ps, order, quantum, a).0;
    var p := a.queue[0];
    var run := Min(quantum, a.left[p]);
    var x := Slice(p, a.clock, a.clock + run);
    AppendSlice(a.slices, x);
    assert mid.slices == a.slices + [x];
    forall k | 0 <= k < |a.done|
      ensures a.done[k].proc != p
    {
      assert DoneProcs(a.done)[k] != p;
    }
  }

  lemma DispatchIdle(ps: seq<Process>, order: seq<nat>, quantum: int, a: RrState)
    requires RrWf(ps, order, a) && |a.queue| > 0 && quantum >= 1
    requires HeadReady(ps, order, a) && IdleOk(ps, order, a, [])
    ensures var (mid, extra) := AfterSlice(ps, order, quantum, a);
      IdleOk(ps, order, mid, extra)
  {
    var mid := AfterSlice(ps, order, quantum, a).0;
    var p := a.queue[0];
    var run := Min(quantum, a.left[p]);
    var x := Slice(p, a.clock, a.clock + run);
    var sl := mid.slices;
    assert sl == a.slices + [x];
    assert PrevEnd(sl) == mid.clock;
    forall k | 0 <= k < |sl|
      ensures GapOk(ps, sl, k)
    {
      if k < |a.slices| {
        GapExtend(ps, a.slices, x, k);
      } else {
        GapLast(ps, a.slices, x);
      }
    }
  }

  lemma DispatchShort(ps: seq<Process>, order: seq<nat>, quantum: int, a: RrState)
    requires RrWf(ps, order, a) && |a.queue| > 0 && quantum >= 1
    requires HeadReady(ps, order, a) && ShortOk(ps, order, quantum, a)
    ensures ShortOk(ps, order, quantum, AfterSlice(ps, order, quantum, a).0)
  {
    var mid := AfterSlice(ps, order, quantum, a).0;
    var p := a.queue[0];
    var run := Min(quantum, a.left[p]);
    var x := Slice(p, a.clock, a.clock + run);
    var sl := mid.slices;
    assert sl == a.slices + [x];
    forall j, k | 0 <= j < k < |sl| && sl[j].end - sl[j].start < quantum
      ensures sl[k].proc != sl[j].proc
    {
      assert sl[j] == a.slices[j];
      if k < |a.slices| {
        assert sl[k] == a.slices[k];
      }
    }
    forall k | 0 <= k < |sl| && sl[k].end - sl[k].start < quantum
      ensures mid.left[sl[k].proc] == 0
    {
      if k < |a.slices| {
        assert sl[k] == a.slices[k];
      }
    }
  }

  /** A dispatch keeps the invariant up to the admission that follows it. */
  lemma DispatchPreserves(ps: seq<Process>, order: seq<nat>, quantum: int, a: RrState)
    requires quantum >= 1 && RrInv(ps, order, quantum, a, []) && |a.queue| > 0
    ensures var (mid, extra) := AfterSlice(ps, order, quantum, a);
      RrInv(ps, order, quantum, mid, extra)
  {
    HeadFacts(ps, order, a);
    DispatchQueue(ps, order, quantum, a);
    DispatchDone(ps, order, quantum, a);
    DispatchCover(ps, order, quantum, a);
    DispatchCpu(ps, order, quantum, a);
    DispatchSlices(ps, order, quantum, a);
    DispatchIdle(ps, order, quantum, a);
    DispatchShort(ps, order, quantum, a);
  }

  /** Admission never looks at the completions. */
  lemma {:induction false} AdmitFrame(ps: seq<Process>, order: seq<nat>, s: RrState, d: seq<Completion>)
    requires RrWf(ps, order, s) && InRange(DoneProcs(d), |ps|)
    ensures Admit(ps, order, s.(done := d)) == Admit(ps, order, s).(done := d)
    decreases |order| - s.next
  {
    if s.next < |order| && ps[order[s.next]].arrivalTime <= s.clock {
      AdmitFrame(ps, order, s.(queue := s.queue + [order[s.next]], next := s.next + 1), d);
      assert s.(done := d).(queue := s.queue + [order[s.next]], next := s.next + 1)
          == s.(queue := s.queue + [order[s.next]], next := s.next + 1).(done := d);
    }
  }

  /** Appending the preempted process to the queue turns the pending `extra` into
      a real queue entry. */
  lemma Requeue(ps: seq<Process>, order: seq<nat>, quantum: int, b: RrState, p: nat)
    requires RrInv(ps, order, quantum, b, [p])
    ensures RrInv(ps, order, quantum, b.(queue := b.queue + [p]), [])
  {
    assert b.(queue := b.queue + [p]).queue + [] == b.queue + [p];
  }

  /** A dispatch is the admission after the slice, followed by the re-enqueue
      of a preempted head. */
  lemma DispatchShape(ps: seq<Process>, order: seq<nat>, quantum: int, a: RrState)
    requires RrWf(ps, order, a) && |a.queue| > 0
    ensures var (mid, extra) := AfterSlice(ps, order, quantum, a);
      var b := Admit(ps, order, mid);
      && (extra == [] || extra == [a.queue[0]])
      && Dispatch(ps, order, quantum, a) == b.(queue := b.queue + extra)
  {
    var p := a.queue[0];
    var run := Min(quantum, a.left[p]);
    var end := a.clock + run;
    AppendSlice(a.slices, Slice(p, a.clock, end));
    var mid0 := RrState(end, a.queue[1..], a.next, a.left[p := a.left[p] - run],
                        a.slices + [Slice(p, a.clock, end)], a.done);
    if a.left[p] - run <= 0 {
      FinishedShape(ps, order, quantum, a, mid0);
      var (mid, extra) := AfterSlice(ps, order, quantum, a);
      var b := Admit(ps, order, mid);
      assert b.(queue := b.queue + extra) == b;
    } else {
      PreemptedShape(ps, order, quantum, a);
    }
  }

  /** When the head keeps time left, it is re-queued behind the admitted processes. */
  lemma PreemptedShape(ps: seq<Process>, order: seq<nat>, quantum: int, a: RrState)
    requires RrWf(ps, order, a) && |a.queue| > 0
    requires a.left[a.queue[0]] - Min(quantum, a.left[a.queue[0]]) > 0
    ensures var (mid, extra) := AfterSlice(ps, order, quantum, a);
      var b := Admit(ps, order, mid);
      && extra == [a.queue[0]]
      && Dispatch(ps, order, quantum, a) == b.(queue := b.queue + extra)
  {
  }

  /** When the head finishes, its completion is recorded after the admission
      in the source and before it in `AfterSlice`; admission ignores it. */
  lemma FinishedShape(ps: seq<Process>, order: seq<nat>, quantum: int, a: RrState, mid0: RrState)
    requires RrWf(ps, order, a) && |a.queue| > 0
    requires var p := a.queue[0];
      var run := Min(quantum, a.left[p]);
      && a.left[p] - run <= 0
      && mid0 == RrState(a.clock + run, a.queue[1..], a.next, a.left[p := a.left[p] - run],
                         a.slices + [Slice(p, a.clock, a.clock + run)], a.done)
    requires RrWf(ps, order, mid0)
    ensures var (mid, extra) := AfterSlice(ps, order, quantum, a);
      extra == [] && Dispatch(ps, order, quantum, a) == Admit(ps, order, mid)
  {
    var (mid, extra) := AfterSlice(ps, order, quantum, a);
    var p := a.queue[0];
    var d := a.done + [Completion(p, mid0.clock)];
    assert mid == mid0.(done := d);
    AdmitFrame(ps, order, mid0, d);
  }

  /** A dispatch together with the admission that follows it keeps the invariant. */
  lemma DispatchStepPreserves(ps: seq<Process>, order: seq<nat>, quantum: int, a: RrState)
    requires OrderOk(ps, order) && PositiveBursts(ps) && quantum >= 1
    requires RrInv(ps, order, quantum, a, []) && |a.queue| > 0
    ensures RrInv(ps, order, quantum, Dispatch(ps, order, quantum, a), [])
  {
    DispatchPreserves(ps, order, quantum, a);
    var (mid, extra) := AfterSlice(ps, order, quantum, a);
    AdmitPreserves(ps, order, quantum, mid, extra);
    DispatchShape(ps, order, quantum, a);
    var b := Admit(ps, order, mid);
    if extra == [] {
      assert b.(queue := b.queue + []) == b;
    } else {
      Requeue(ps, order, quantum, b, a.queue[0]);
    }
  }

  lemma StepPreserves(ps: seq<Process>, order: seq<nat>, quantum: int, s: RrState)
    requires OrderOk(ps, order) && PositiveBursts(ps) && quantum >= 1
    requires RrInv(ps, order, quantum, s, []) && (|s.queue| > 0 || s.next < |order|)
    ensures RrInv(ps, order, quantum, RrStep(ps, order, quantum, s), [])
  {
    var a := Admit(ps, order, s);
    AdmitPreserves(ps, order, quantum, s, []);
    if |a.queue| == 0 {
      IdlePreserves(ps, order, quantum, a);
    } else {
      DispatchStepPreserves(ps, order, quantum, a);
    }
  }

  lemma {:induction false} RunPreserves(ps: seq<Process>, order: seq<nat>, quantum: int, s: RrState)
    requires OrderOk(ps, order) && PositiveBursts(ps) && quantum >= 1
    requires RrInv(ps, order, quantum, s, [])
    ensures RrInv(ps, order, quantum, RrRun(ps, order, quantum, s), [])
    decreases RrMeasure(ps, order, s), RrIdle(ps, order, s)
  {
    if !(|s.queue| == 0 && s.next == |order|) {
      RrStepProgress(ps, order, quantum, s);
      StepPreserves(ps, order, quantum, s);
      RunPreserves(ps, order, quantum, RrStep(ps, order, quantum, s));
    }
  }

  lemma InvInit(ps: seq<Process>, order: seq<nat>, quantum: int)
    requires OrderOk(ps, order)
    ensures RrInv(ps, order, quantum, RrStart(ps), [])
  {
    assert order[..0] == [];
  }

  /** A finished run holds a feasible schedule. */
  lemma FinalFeasible(ps: seq<Process>, order: seq<nat>, quantum: int, f: RrState)
    requires OrderOk(ps, order) && RrInv(ps, order, quantum, f, [])
    requires |f.queue| == 0 && f.next == |order|
    ensures Feasible(ps, Trace(f.slices, f.done, f.clock))
  {
    assert f.queue + [] == [];
    assert order[..f.next] == order;
    forall i | 0 <= i < |ps|
      ensures i in DoneProcs(f.done) && Executed(f.slices, i) == ps[i].burstTime
    {
      assert i in order[..f.next];
      var k :| 0 <= k < |f.done| && DoneProcs(f.done)[k] == i;
      assert f.done[k].proc == i;
    }
  }

  /** The invariant of the run that `roundRobinSchedule` performs. */
  lemma TraceInv(ps: seq<Process>, quantum: int)
    requires PositiveBursts(ps) && quantum >= 1
    ensures var order := ArrivalOrder(ps);
      var f := RrRun(ps, order, quantum, RrStart(ps));
      OrderOk(ps, order) && RrInv(ps, order, quantum, f, [])
  {
    var order := ArrivalOrder(ps);
    ArrivalOrderFacts(ps);
    InvInit(ps, order, quantum);
    RunPreserves(ps, order, quantum, RrStart(ps));
  }

  /** Round Robin yields a feasible single-CPU schedule: every process gets
      exactly its burst and completes exactly once, at the end of its last slice. */
  lemma RoundRobinFeasible(ps: seq<Process>, quantum: int)
    requires PositiveBursts(ps) && quantum >= 1
    ensures Feasible(ps, RrTrace(ps, quantum))
  {
    var order := ArrivalOrder(ps);
    TraceInv(ps, quantum);
    FinalFeasible(ps, order, quantum, RrRun(ps, order, quantum, RrStart(ps)));
  }

  /** Every slice lasts at least one unit and at most one quantum; a slice
      shorter than the quantum is the last one of its process; and a slice
      that follows idle time starts exactly when its own process arrives, with
      every process that arrived earlier already finished. */
  lemma RoundRobinSlices(ps: seq<Process>, quantum: int)
    requires PositiveBursts(ps) && quantum >= 1
    ensures var sl := RrTrace(ps, quantum).slices;
      && (forall k :: 0 <= k < |sl| ==> 1 <= sl[k].end - sl[k].start <= quantum)
      && (forall j, k :: 0 <= j < k < |sl| && sl[j].end - sl[j].start < quantum ==> sl[k].proc != sl[j].proc)
      && (forall k :: 0 <= k < |sl| && PrevEndAt(sl, k) < sl[k].start ==>
            && ps[sl[k].proc].arrivalTime == sl[k].start
            && forall i :: 0 <= i < |ps| && ps[i].arrivalTime < sl[k].start ==>
                 Executed(sl[..k], i) == ps[i].burstTime)
  {
    var order := ArrivalOrder(ps);
    TraceInv(ps, quantum);
    var f := RrRun(ps, order, quantum, RrStart(ps));
    var sl := f.slices;
    assert RrTrace(ps, quantum).slices == sl;
    forall k | 0 <= k < |sl| && PrevEndAt(sl, k) < sl[k].start
      ensures ps[sl[k].proc].arrivalTime == sl[k].start && FinishedBefore(ps, sl[..k], sl[k].start)
    {
      assert GapOk(ps, sl, k);
    }
  }

  /** With no arrival before time 0, the CPU first runs at the earliest
      arrival: the first slice starts when its own process arrives, and no
      process arrives before it. */
  lemma RoundRobinFirstSlice(ps: seq<Process>, quantum: int)
    requires PositiveBursts(ps) && quantum >= 1 && |ps| > 0
    requires forall i :: 0 <= i < |ps| ==> 0 <= ps[i].arrivalTime
    ensures var sl := RrTrace(ps, quantum).slices;
      && |sl| > 0
      && ps[sl[0].proc].arrivalTime == sl[0].start
      && forall i :: 0 <= i < |ps| ==> sl[0].start <= ps[i].arrivalTime
  {
    var sl := RrTrace(ps, quantum).slices;
    RoundRobinFeasible(ps, quantum);
    RoundRobinSlices(ps, quantum);
    assert Executed(sl, 0) == ps[0].burstTime;
    if 0 < sl[0].start {
      assert sl[..0] == [];
      forall i | 0 <= i < |ps|
        ensures sl[0].start <= ps[i].arrivalTime
      {
        assert Executed(sl[..0], i) == 0;
      }
    }
  }

  /** The queue discipline of one dispatch: the head runs for the smaller of
      the quantum and its remaining time, starting at the clock; every process
      that arrived by the end of the slice joins the queue, in arrival order,
      ahead of the preempted head, and none that arrived later does; the head
      is re-enqueued exactly when it still has time left, and otherwise its
      completion is recorded at the end of the slice. */
  lemma RoundRobinRequeue(ps: seq<Process>, order: seq<nat>, quantum: int, a: RrState)
    requires OrderOk(ps, order) && RrWf(ps, order, a) && |a.queue| > 0
    ensures var p := a.queue[0];
      var end := a.clock + Min(quantum, a.left[p]);
      var r := Dispatch(ps, order, quantum, a);
      && r.clock == end
      && r.slices == a.slices + [Slice(p, a.clock, end)]
      && r.left == a.left[p := a.left[p] - Min(quantum, a.left[p])]
      && a.next <= r.next
      && r.queue == a.queue[1..] + order[a.next..r.next] + (if r.left[p] > 0 then [p] else [])
      && (forall m :: a.next <= m < r.next ==> ps[order[m]].arrivalTime <= end)
      && (forall m :: r.next <= m < |order| ==> end < ps[order[m]].arrivalTime)
      && r.done == a.done + (if r.left[p] > 0 then [] else [Completion(p, end)])
  {
  }

  /** Under the loop invariant no remaining time is negative and the CPU time
      already given plus the remaining time is the burst. */
  lemma InvRemaining(ps: seq<Process>, order: seq<nat>, quantum: int, s: RrState)
    requires PositiveBursts(ps) && RrInv(ps, order, quantum, s, [])
    ensures forall i :: 0 <= i < |ps| ==>
      0 <= s.left[i] && Executed(s.slices, i) + s.left[i] == ps[i].burstTime
  {
    forall i | 0 <= i < |ps|
      ensures 0 <= s.left[i]
    {
      if i in order[..s.next] {
        if i in s.queue + [] {
          var k :| 0 <= k < |s.queue + []| && (s.queue + [])[k] == i;
        } else {
          var k :| 0 <= k < |s.done| && DoneProcs(s.done)[k] == i;
          assert s.done[k].proc == i;
        }
      }
    }
  }

  /** An iteration from any state the loop passes through leaves no remaining
      time negative, and the CPU time given plus the time remaining is still
      the burst. */
  lemma RemainingNeverNegative(ps: seq<Process>, order: seq<nat>, quantum: int, s: RrState)
    requires OrderOk(ps, order) && PositiveBursts(ps) && quantum >= 1
    requires RrInv(ps, order, quantum, s, []) && (|s.queue| > 0 || s.next < |order|)
    ensures var r := RrStep(ps, order, quantum, s);
      forall i :: 0 <= i < |ps| ==>
        0 <= r.left[i] && Executed(r.slices, i) + r.left[i] == ps[i].burstTime
  {
    StepPreserves(ps, order, quantum, s);
    InvRemaining(ps, order, quantum, RrStep(ps, order, quantum, s));
  }
}
