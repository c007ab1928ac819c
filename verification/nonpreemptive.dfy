/**
  Shortest Job First and Priority scheduling. Both are the same
  non-preemptive loop over a shrinking list of remaining processes; they
  differ only in the field the stable sort of the arrived processes compares
  (`burstTime` for SJF, `priority` for Priority).
 */
module NonPreemptive {
  import opened SchedulerTypes
  import opened Ordering
  import opened Timeline

  /** The loop state: the processes not yet run (in input order), the clock,
      and the timeline and completions emitted so far. */
  datatype NpState = NpState(remaining: seq<nat>, clock: int, slices: seq<Slice>, done: seq<Completion>)

  predicate NpWf(ps: seq<Process>, s: NpState) {
    && InRange(s.remaining, |ps|)
    && Increasing(s.remaining)
    && InRange(Procs(s.slices), |ps|)
    && InRange(DoneProcs(s.done), |ps|)
  }

  /** The process a step runs: the head of the stably sorted arrived list. */
  function Pick(ps: seq<Process>, key: Key, available: seq<nat>): (p: nat)
    requires |available| > 0 && InRange(available, |ps|)
    ensures p < |ps| && p in available
  {
    var sorted := StableSort(ps, key, available);
    assert sorted[0] in multiset(available);
    sorted[0]
  }

  /** The choice a step makes: a remaining process that has arrived, with the
      smallest key among the remaining arrived ones, ties going to the one
      earliest in the input. */
  lemma PickChoice(ps: seq<Process>, key: Key, s: NpState)
    requires NpWf(ps, s) && |Arrived(ps, s.remaining, s.clock)| > 0
    ensures var p := Pick(ps, key, Arrived(ps, s.remaining, s.clock));
      && p in s.remaining
      && ps[p].arrivalTime <= s.clock
      && forall j :: 0 <= j < |ps| && j in s.remaining && ps[j].arrivalTime <= s.clock ==>
           j == p || Precedes(ps, key, p, j)
  {
    var available := Arrived(ps, s.remaining, s.clock);
    var sorted := StableSort(ps, key, available);
    ArrivedIncreasing(ps, s.remaining, s.clock);
    StableSortSorted(ps, key, available);
    forall j | 0 <= j < |ps| && j in s.remaining && ps[j].arrivalTime <= s.clock
      ensures j == sorted[0] || Precedes(ps, key, sorted[0], j)
    {
      assert j in multiset(available);
      assert j in multiset(sorted);
      var m :| 0 <= m < |sorted| && sorted[m] == j;
    }
  }

  /** One iteration of the `while (remaining.length > 0)` loop. */
  function NpStep(ps: seq<Process>, key: Key, s: NpState): (r: NpState)
    requires NpWf(ps, s) && |s.remaining| > 0
    ensures NpWf(ps, r)
  {
    var available := Arrived(ps, s.remaining, s.clock);
    if |available| == 0 then
      s.(clock := MinArrival(ps, s.remaining))
    else
      var p := Pick(ps, key, available);
      var end := s.clock + ps[p].burstTime;
      RemoveIncreasing(s.remaining, p);
      RemoveMembers(s.remaining, p);
      AppendSlice(s.slices, Slice(p, s.clock, end));
      NpState(Remove(s.remaining, p), end, s.slices + [Slice(p, s.clock, end)], s.done + [Completion(p, end)])
  }

  /** A step either runs a process, removing it from the remaining list, or
      jumps the clock strictly forward to the earliest remaining arrival without
      emitting anything, after which some remaining process has arrived. */
  lemma NpStepProgress(ps: seq<Process>, key: Key, s: NpState)
    requires NpWf(ps, s) && |s.remaining| > 0
    ensures var r := NpStep(ps, key, s);
      if |Arrived(ps, s.remaining, s.clock)| == 0 then
        && r.clock > s.clock
        && r.remaining == s.remaining && r.slices == s.slices && r.done == s.done
        && |Arrived(ps, r.remaining, r.clock)| > 0
      else
        && |r.remaining| == |s.remaining| - 1
        && |r.slices| == |s.slices| + 1
  {
    if |Arrived(ps, s.remaining, s.clock)| == 0 {
      var m := MinArrival(ps, s.remaining);
      var k :| 0 <= k < |s.remaining| && ps[s.remaining[k]].arrivalTime == m;
      assert s.remaining[k] !in Arrived(ps, s.remaining, s.clock);
      assert s.remaining[k] in Arrived(ps, s.remaining, m);
    }
  }

  /** The loop, run until no process remains. */
  function NpRun(ps: seq<Process>, key: Key, s: NpState): (r: NpState)
    requires NpWf(ps, s)
    ensures NpWf(ps, r) && |r.remaining| == 0
    decreases |s.remaining|, if |Arrived(ps, s.remaining, s.clock)| == 0 then 1 else 0
  {
    if |s.remaining| == 0 then s
    else
      NpStepProgress(ps, key, s);
      NpRun(ps, key, NpStep(ps, key, s))
  }

  /** The trace of a run starting at time 0 with every process remaining. */
  function NpTrace(ps: seq<Process>, key: Key): (t: Trace)
    ensures InRange(Procs(t.slices), |ps|) && InRange(DoneProcs(t.done), |ps|)
  {
    var f := NpRun(ps, key, NpState(Indices(|ps|), 0, [], []));
    Trace(f.slices, f.done, f.clock)
  }

  /** `sjfSchedule`: every process runs once, to completion, in the order the
      loop picks them. */
  function SjfSchedule(ps: seq<Process>): (r: ScheduleResult)
    ensures RunsToCompletion(ps, r, Procs(NpTrace(ps, ByBurst).slices))
  {
    NpRunsToCompletion(ps, ByBurst);
    Report(ps, NpTrace(ps, ByBurst))
  }

  /** `prioritySchedule`: every process runs once, to completion, in the order
      the loop picks them. */
  function PrioritySchedule(ps: seq<Process>): (r: ScheduleResult)
    ensures RunsToCompletion(ps, r, Procs(NpTrace(ps, ByPriority).slices))
  {
    NpRunsToCompletion(ps, ByPriority);
    Report(ps, NpTrace(ps, ByPriority))
  }

  // ---------------------------------------------------------------------------
  // The non-preemptive policy, stated on a finished timeline.

  /** The k-th slice obeys the non-preemptive policy for `key`: its process has
      arrived and runs its whole burst; it starts as soon as the CPU is free,
      unless no unscheduled process had arrived, in which case it starts at the
      earliest unscheduled arrival; and among the unscheduled processes that have
      arrived by then it has the smallest key, ties to the earliest in the input. */
  ghost predicate DispatchOk(ps: seq<Process>, key: Key, sl: seq<Slice>, k: nat)
    requires k < |sl| && InRange(Procs(sl), |ps|)
  {
    var p := sl[k].proc;
    var start := sl[k].start;
    && ps[p].arrivalTime <= start
    && sl[k].end == start + ps[p].burstTime
    && PrevEndAt(sl, k) <= start
    && (PrevEndAt(sl, k) < start ==>
          forall j :: 0 <= j < |ps| && j !in Procs(sl)[..k] ==> start <= ps[j].arrivalTime)
    && (forall j :: 0 <= j < |ps| && j !in Procs(sl)[..k] && ps[j].arrivalTime <= start ==>
          j == p || Precedes(ps, key, p, j))
  }

  /** A timeline that runs every process once, each dispatch obeying the policy. */
  ghost predicate NonPreemptiveSchedule(ps: seq<Process>, key: Key, sl: seq<Slice>) {
    && |sl| == |ps|
    && InRange(Procs(sl), |ps|)
    && Distinct(Procs(sl))
    && forall k :: 0 <= k < |sl| ==> DispatchOk(ps, key, sl, k)
  }

  lemma DispatchOkExtend(ps: seq<Process>, key: Key, sl: seq<Slice>, x: Slice, k: nat)
    requires k < |sl| && InRange(Procs(sl), |ps|) && InRange(Procs(sl + [x]), |ps|)
    requires DispatchOk(ps, key, sl, k)
    ensures DispatchOk(ps, key, sl + [x], k)
  {
    AppendSlice(sl, x);
    assert (sl + [x])[k] == sl[k];
    assert Procs(sl + [x])[..k] == Procs(sl)[..k];
    if k > 0 {
      assert (sl + [x])[k - 1] == sl[k - 1];
    }
  }

  /** Two timelines that both obey the policy agree at position k once they agree before it. */
  lemma SameDispatch(ps: seq<Process>, key: Key, a: seq<Slice>, b: seq<Slice>, k: nat)
    requires NonPreemptiveSchedule(ps, key, a) && NonPreemptiveSchedule(ps, key, b)
    requires k < |a| && a[..k] == b[..k]
    ensures a[k] == b[k]
  {
    assert Procs(a)[..k] == Procs(b)[..k] by {
      forall m | 0 <= m < k
        ensures Procs(a)[m] == Procs(b)[m]
      {
        assert a[..k][m] == b[..k][m];
      }
    }
    if k > 0 {
      assert a[..k][k - 1] == b[..k][k - 1];
    }
    var pa, pb := a[k].proc, b[k].proc;
    assert pa !in Procs(a)[..k] && pb !in Procs(b)[..k] by {
      forall m | 0 <= m < k
        ensures Procs(a)[m] != pa && Procs(b)[m] != pb
      {
      }
    }
    assert DispatchOk(ps, key, a, k) && DispatchOk(ps, key, b, k);
    if a[k].start != b[k].start {
      assert false;
    }
    if pa != pb {
      assert false;
    }
  }

  /** The policy determines the timeline: at most one timeline obeys it. */
  lemma NonPreemptiveUnique(ps: seq<Process>, key: Key, a: seq<Slice>, b: seq<Slice>)
    requires NonPreemptiveSchedule(ps, key, a) && NonPreemptiveSchedule(ps, key, b)
    ensures a == b
  {
    var k := 0;
    while k < |a|
      invariant k <= |a| && a[..k] == b[..k]
    {
      SameDispatch(ps, key, a, b, k);
      assert a[..k + 1] == a[..k] + [a[k]] && b[..k + 1] == b[..k] + [b[k]];
      k := k + 1;
    }
    assert a == a[..|a|] && b == b[..|b|];
  }

  /** Two processes with the same key that arrive together run in input order:
      when the later one is dispatched, the earlier one already ran. */
  lemma TieToInputOrder(ps: seq<Process>, key: Key, sl: seq<Slice>, i: nat, j: nat, k: nat)
    requires NonPreemptiveSchedule(ps, key, sl)
    requires i < j < |ps| && KeyOf(ps[i], key) == KeyOf(ps[j], key)
    requires ps[i].arrivalTime == ps[j].arrivalTime
    requires k < |sl| && sl[k].proc == j
    ensures i in Procs(sl)[..k]
  {
    assert DispatchOk(ps, key, sl, k);
  }

  /** Under the Priority loop, equal priorities and equal arrivals keep the input order. */
  lemma PriorityTieBreak(ps: seq<Process>, i: nat, j: nat, k: nat)
    requires PositiveBursts(ps)
    requires i < j < |ps| && ps[i].priority == ps[j].priority && ps[i].arrivalTime == ps[j].arrivalTime
    requires k < |NpTrace(ps, ByPriority).slices| && NpTrace(ps, ByPriority).slices[k].proc == j
    ensures i in Procs(NpTrace(ps, ByPriority).slices)[..k]
  {
    NpTraceCorrect(ps, ByPriority);
    TieToInputOrder(ps, ByPriority, NpTrace(ps, ByPriority).slices, i, j, k);
  }

  // ---------------------------------------------------------------------------
  // The loop invariant.

  ghost predicate NpInv(ps: seq<Process>, key: Key, s: NpState) {
    && NpWf(ps, s)
    && Distinct(Procs(s.slices))
    && (forall i :: 0 <= i < |ps| ==> (i in s.remaining <==> i !in Procs(s.slices)))
    && |s.slices| + |s.remaining| == |ps|
    && (forall k :: 0 <= k < |s.slices| ==> DispatchOk(ps, key, s.slices, k))
    && PrevEnd(s.slices) <= s.clock
    && (s.clock == PrevEnd(s.slices) ||
          (|s.remaining| > 0 &&
           forall j :: 0 <= j < |ps| && j in s.remaining ==> s.clock <= ps[j].arrivalTime))
    && |s.done| == |s.slices|
    && (forall k :: 0 <= k < |s.slices| ==> s.done[k] == Completion(s.slices[k].proc, s.slices[k].end))
    && (forall i :: 0 <= i < |ps| ==> Executed(s.slices, i) == (if i in s.remaining then 0 else ps[i].burstTime))
    && (forall k :: 0 <= k < |s.slices| ==> LastEnd(s.slices, s.slices[k].proc) == s.slices[k].end)
  }

  lemma NpInvInit(ps: seq<Process>, key: Key)
    ensures NpInv(ps, key, NpState(Indices(|ps|), 0, [], []))
  {
    var s := NpState(Indices(|ps|), 0, [], []);
    assert Procs(s.slices) == [] && DoneProcs(s.done) == [];
    assert Increasing(s.remaining) && InRange(s.remaining, |ps|);
    forall i | 0 <= i < |ps|
      ensures i in s.remaining && Executed(s.slices, i) == 0
    {
      assert s.remaining[i] == i;
    }
  }

  lemma NpDispatchPreserves(ps: seq<Process>, key: Key, s: NpState)
    requires NpInv(ps, key, s) && |s.remaining| > 0
    requires |Arrived(ps, s.remaining, s.clock)| > 0
    ensures NpInv(ps, key, NpStep(ps, key, s))
  {
    var p := NpDispatchShape(ps, key, s);
    NpDispatchMembers(ps, key, s, p);
    NpDispatchPolicy(ps, key, s, p);
    NpNewLastEnd(ps, key, s, p);
    RemoveIncreasing(s.remaining, p);
  }

  /** What a dispatching step does: it runs `p`, an arrived remaining process
      that precedes every other one, from the clock for its whole burst. */
  lemma NpDispatchShape(ps: seq<Process>, key: Key, s: NpState) returns (p: nat)
    requires NpWf(ps, s) && |s.remaining| > 0
    requires |Arrived(ps, s.remaining, s.clock)| > 0
    ensures p < |ps| && p in s.remaining && ps[p].arrivalTime <= s.clock
    ensures forall j :: 0 <= j < |ps| && j in s.remaining && ps[j].arrivalTime <= s.clock ==>
      j == p || Precedes(ps, key, p, j)
    ensures var end := s.clock + ps[p].burstTime;
      NpStep(ps, key, s)
        == NpState(Remove(s.remaining, p), end, s.slices + [Slice(p, s.clock, end)], s.done + [Completion(p, end)])
  {
    p := Pick(ps, key, Arrived(ps, s.remaining, s.clock));
    PickChoice(ps, key, s);
  }

  lemma NpDispatchMembers(ps: seq<Process>, key: Key, s: NpState, p: nat)
    requires NpInv(ps, key, s) && p < |ps| && p in s.remaining
    ensures var x := Slice(p, s.clock, s.clock + ps[p].burstTime);
      var sl := s.slices + [x];
      && InRange(Procs(sl), |ps|)
      && Distinct(Procs(sl))
      && (forall i :: 0 <= i < |ps| ==> (i in Remove(s.remaining, p) <==> i !in Procs(sl)))
      && |sl| + |Remove(s.remaining, p)| == |ps|
  {
    var x := Slice(p, s.clock, s.clock + ps[p].burstTime);
    AppendSlice(s.slices, x);
    RemoveMembers(s.remaining, p);
    assert p !in Procs(s.slices);
  }

  lemma NpDispatchPolicy(ps: seq<Process>, key: Key, s: NpState, p: nat)
    requires NpInv(ps, key, s) && p < |ps| && p in s.remaining && ps[p].arrivalTime <= s.clock
    requires forall j :: 0 <= j < |ps| && j in s.remaining && ps[j].arrivalTime <= s.clock ==>
      j == p || Precedes(ps, key, p, j)
    ensures var sl := s.slices + [Slice(p, s.clock, s.clock + ps[p].burstTime)];
      InRange(Procs(sl), |ps|) && forall k :: 0 <= k < |sl| ==> DispatchOk(ps, key, sl, k)
  {
    var x := Slice(p, s.clock, s.clock + ps[p].burstTime);
    var sl := s.slices + [x];
    NpNewDispatch(ps, key, s, p);
    forall k | 0 <= k < |s.slices|
      ensures DispatchOk(ps, key, sl, k)
    {
      DispatchOkExtend(ps, key, s.slices, x, k);
    }
  }

  /** The slice a dispatch appends obeys the policy. */
  lemma NpNewDispatch(ps: seq<Process>, key: Key, s: NpState, p: nat)
    requires NpInv(ps, key, s) && p < |ps| && p in s.remaining && ps[p].arrivalTime <= s.clock
    requires forall j :: 0 <= j < |ps| && j in s.remaining && ps[j].arrivalTime <= s.clock ==>
      j == p || Precedes(ps, key, p, j)
    ensures var sl := s.slices + [Slice(p, s.clock, s.clock + ps[p].burstTime)];
      InRange(Procs(sl), |ps|) && DispatchOk(ps, key, sl, |s.slices|)
  {
    var x := Slice(p, s.clock, s.clock + ps[p].burstTime);
    var sl := s.slices + [x];
    var k := |s.slices|;
    AppendSlice(s.slices, x);
    assert Procs(sl)[..k] == Procs(s.slices);
    assert PrevEndAt(sl, k) == PrevEnd(s.slices);
    if PrevEndAt(sl, k) < s.clock {
      forall j | 0 <= j < |ps| && j !in Procs(sl)[..k]
        ensures s.clock <= ps[j].arrivalTime
      {
        assert j in s.remaining;
      }
    }
    forall j | 0 <= j < |ps| && j !in Procs(sl)[..k] && ps[j].arrivalTime <= s.clock
      ensures j == p || Precedes(ps, key, p, j)
    {
      assert j in s.remaining;
    }
  }

  /** After a dispatch the clock is the end of the new slice, every slice still
      ends its process's last run, each slice has its completion, and the
      dispatched process has received its burst. */
  lemma NpNewLastEnd(ps: seq<Process>, key: Key, s: NpState, p: nat)
    requires NpInv(ps, key, s) && p < |ps| && p in s.remaining
    ensures var end := s.clock + ps[p].burstTime;
      var sl := s.slices + [Slice(p, s.clock, end)];
      var done := s.done + [Completion(p, end)];
      && PrevEnd(sl) == end
      && |done| == |sl|
      && (forall k :: 0 <= k < |sl| ==> done[k] == Completion(sl[k].proc, sl[k].end))
      && (forall k :: 0 <= k < |sl| ==> LastEnd(sl, sl[k].proc) == sl[k].end)
      && (forall i :: 0 <= i < |ps| ==> Executed(sl, i) == (if i in Remove(s.remaining, p) then 0 else ps[i].burstTime))
  {
    var end := s.clock + ps[p].burstTime;
    var x := Slice(p, s.clock, end);
    var sl := s.slices + [x];
    var done := s.done + [Completion(p, end)];
    AppendSlice(s.slices, x);
    RemoveMembers(s.remaining, p);
    forall k | 0 <= k < |sl|
      ensures LastEnd(sl, sl[k].proc) == sl[k].end
      ensures done[k] == Completion(sl[k].proc, sl[k].end)
    {
      if k < |s.slices| {
        assert sl[k] == s.slices[k];
        assert Procs(s.slices)[k] != p;
      }
    }
  }

  lemma NpStepPreserves(ps: seq<Process>, key: Key, s: NpState)
    requires NpInv(ps, key, s) && |s.remaining| > 0
    ensures NpInv(ps, key, NpStep(ps, key, s))
  {
    var available := Arrived(ps, s.remaining, s.clock);
    if |available| == 0 {
      NpStepProgress(ps, key, s);
      var m := MinArrival(ps, s.remaining);
      var r := NpStep(ps, key, s);
      assert r == s.(clock := m);
      forall j | 0 <= j < |ps| && j in s.remaining
        ensures m <= ps[j].arrivalTime
      {
        var k :| 0 <= k < |s.remaining| && s.remaining[k] == j;
      }
    } else {
      NpDispatchPreserves(ps, key, s);
    }
  }

  lemma {:induction false} NpRunPreserves(ps: seq<Process>, key: Key, s: NpState)
    requires NpInv(ps, key, s)
    ensures NpInv(ps, key, NpRun(ps, key, s))
    decreases |s.remaining|, if |Arrived(ps, s.remaining, s.clock)| == 0 then 1 else 0
  {
    if |s.remaining| > 0 {
      NpStepProgress(ps, key, s);
      NpStepPreserves(ps, key, s);
      NpRunPreserves(ps, key, NpStep(ps, key, s));
    }
  }

  /** A finished loop state holds a feasible schedule. */
  lemma NpFinalFeasible(ps: seq<Process>, key: Key, s: NpState)
    requires PositiveBursts(ps) && NpInv(ps, key, s) && |s.remaining| == 0
    ensures Feasible(ps, Trace(s.slices, s.done, s.clock))
  {
    NpFinalShape(ps, key, s);
    NpFinalCompletions(ps, key, s);
  }

  /** Policy-obeying slices are valid and in time order. */
  lemma NpFinalShape(ps: seq<Process>, key: Key, s: NpState)
    requires PositiveBursts(ps) && NpInv(ps, key, s)
    ensures SlicesValid(ps, s.slices) && Ordered(s.slices)
  {
    var sl := s.slices;
    forall k | 0 <= k < |sl| - 1
      ensures sl[k].end <= sl[k + 1].start
    {
      assert DispatchOk(ps, key, sl, k + 1);
    }
    forall k | 0 <= k < |sl|
      ensures ps[sl[k].proc].arrivalTime <= sl[k].start < sl[k].end
    {
      assert DispatchOk(ps, key, sl, k);
    }
  }

  /** Once nothing remains, every process has been completed exactly once. */
  lemma NpFinalCompletions(ps: seq<Process>, key: Key, s: NpState)
    requires NpInv(ps, key, s) && |s.remaining| == 0
    ensures |s.done| == |ps| && Distinct(DoneProcs(s.done))
    ensures forall i :: 0 <= i < |ps| ==> i in DoneProcs(s.done)
  {
    var d := DoneProcs(s.done);
    assert d == Procs(s.slices);
    forall i | 0 <= i < |ps|
      ensures i in d
    {
      assert i in Procs(s.slices);
    }
  }

  /** The SJF / Priority loop produces a feasible schedule that obeys the
      non-preemptive policy for its key. */
  lemma NpTraceCorrect(ps: seq<Process>, key: Key)
    requires PositiveBursts(ps)
    ensures Feasible(ps, NpTrace(ps, key))
    ensures NonPreemptiveSchedule(ps, key, NpTrace(ps, key).slices)
  {
    NpInvInit(ps, key);
    var s0 := NpState(Indices(|ps|), 0, [], []);
    NpRunPreserves(ps, key, s0);
    var f := NpRun(ps, key, s0);
    assert NpTrace(ps, key) == Trace(f.slices, f.done, f.clock);
    NpFinalFeasible(ps, key, f);
  }

  /** Whatever the bursts, the loop runs every process exactly once, for its
      whole burst, and records its completion right after its segment. */
  lemma NpRunsToCompletion(ps: seq<Process>, key: Key)
    ensures var t := NpTrace(ps, key);
      RunsToCompletion(ps, Report(ps, t), Procs(t.slices))
  {
    NpInvInit(ps, key);
    var s0 := NpState(Indices(|ps|), 0, [], []);
    NpRunPreserves(ps, key, s0);
    var f := NpRun(ps, key, s0);
    var t := NpTrace(ps, key);
    assert t == Trace(f.slices, f.done, f.clock);
    var order := Procs(t.slices);
    forall k | 0 <= k < |ps|
      ensures t.slices[k].proc == order[k]
      ensures t.slices[k].end == t.slices[k].start + ps[order[k]].burstTime
      ensures t.done[k] == Completion(order[k], t.slices[k].end)
    {
      assert DispatchOk(ps, key, t.slices, k);
    }
    ReportRunsToCompletion(ps, t, order);
  }
}
