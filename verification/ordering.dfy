/**
  Orders on process indices: the stable sort the engine applies to its
  process lists, the earliest-arrival search of the idle jump, and the
  filtering and removal the non-preemptive loops perform.
 */
module Ordering {
  import opened SchedulerTypes

  /** The field a comparator looks at. */
  datatype Key = ByArrival | ByBurst | ByPriority

  function KeyOf(p: Process, key: Key): int {
    match key
    case ByArrival => p.arrivalTime
    case ByBurst => p.burstTime
    case ByPriority => p.priority
  }

  predicate InRange(s: seq<nat>, n: nat) {
    forall k :: 0 <= k < |s| ==> s[k] < n
  }

  predicate Increasing(s: seq<nat>) {
    forall i, j :: 0 <= i < j < |s| ==> s[i] < s[j]
  }

  predicate Distinct<T(==)>(s: seq<T>) {
    forall i, j :: 0 <= i < j < |s| ==> s[i] != s[j]
  }

  /** `a` comes strictly before `b`: a smaller key, ties to the earlier input position. */
  predicate Precedes(ps: seq<Process>, key: Key, a: nat, b: nat)
    requires a < |ps| && b < |ps|
  {
    KeyOf(ps[a], key) < KeyOf(ps[b], key) || (KeyOf(ps[a], key) == KeyOf(ps[b], key) && a < b)
  }

  predicate SortedBy(ps: seq<Process>, key: Key, s: seq<nat>)
    requires InRange(s, |ps|)
  {
    forall i, j :: 0 <= i < j < |s| ==> Precedes(ps, key, s[i], s[j])
  }

  /** The input positions 0, 1, ..., n - 1. */
  function Indices(n: nat): (r: seq<nat>)
    ensures |r| == n
    ensures forall k :: 0 <= k < n ==> r[k] == k
  {
    if n == 0 then [] else Indices(n - 1) + [n - 1]
  }

  /** Inserts `x` in front of the first element whose key is not smaller than
      its own, which is where a stable sort puts an element that came first
      in its input. */
  function Insert(ps: seq<Process>, key: Key, x: nat, s: seq<nat>): (r: seq<nat>)
    requires x < |ps| && InRange(s, |ps|)
    ensures multiset(r) == multiset(s) + multiset{x}
    ensures |r| == |s| + 1 && InRange(r, |ps|)
  {
    if |s| == 0 then [x]
    else if KeyOf(ps[x], key) <= KeyOf(ps[s[0]], key) then [x] + s
    else
      assert s == [s[0]] + s[1..];
      [s[0]] + Insert(ps, key, x, s[1..])
  }

  /** A stable sort that compares `key` only, as the source's
      `sort((a, b) => a.k - b.k)` does (the JavaScript sort is stable). */
  function StableSort(ps: seq<Process>, key: Key, s: seq<nat>): (r: seq<nat>)
    requires InRange(s, |ps|)
    ensures multiset(r) == multiset(s)
    ensures |r| == |s| && InRange(r, |ps|)
  {
    if |s| == 0 then []
    else
      assert s == [s[0]] + s[1..];
      Insert(ps, key, s[0], StableSort(ps, key, s[1..]))
  }

  /** A stretch of a list without repetitions has none either, and shares
      nothing with what precedes it. */
  lemma DistinctSplit(order: seq<nat>, lo: nat, hi: nat)
    requires Distinct(order) && lo <= hi <= |order|
    ensures Distinct(order[lo..hi])
    ensures forall x :: x in order[lo..hi] ==> x !in order[..lo]
  {
    var mid := order[lo..hi];
    forall x | x in mid
      ensures x !in order[..lo]
    {
      var k :| 0 <= k < |mid| && mid[k] == x;
      forall m | 0 <= m < lo
        ensures order[..lo][m] != x
      {
        assert order[m] != order[lo + k];
      }
    }
    forall i, j | 0 <= i < j < |mid|
      ensures mid[i] != mid[j]
    {
      assert mid[i] == order[lo + i] && mid[j] == order[lo + j];
    }
  }

  /** Every element of an insertion result is the inserted one or came from the list. */
  lemma InsertMembers(ps: seq<Process>, key: Key, x: nat, s: seq<nat>, j: nat)
    requires x < |ps| && InRange(s, |ps|)
    requires j < |Insert(ps, key, x, s)|
    ensures Insert(ps, key, x, s)[j] == x || exists m :: 0 <= m < |s| && s[m] == Insert(ps, key, x, s)[j]
  {
    var r := Insert(ps, key, x, s);
    assert r[j] in multiset(r);
    if r[j] != x {
      assert r[j] in multiset(s);
      assert r[j] in s;
    }
  }

  /** A head that precedes every element of a sorted tail gives a sorted list. */
  lemma SortedCons(ps: seq<Process>, key: Key, h: nat, t: seq<nat>)
    requires h < |ps| && InRange(t, |ps|) && SortedBy(ps, key, t)
    requires forall j :: 0 <= j < |t| ==> Precedes(ps, key, h, t[j])
    ensures InRange([h] + t, |ps|) && SortedBy(ps, key, [h] + t)
  {
    var r := [h] + t;
    forall i, j | 0 <= i < j < |r|
      ensures Precedes(ps, key, r[i], r[j])
    {
      assert r[j] == t[j - 1];
      if i > 0 {
        assert r[i] == t[i - 1];
      }
    }
  }

  lemma {:induction false} InsertSorted(ps: seq<Process>, key: Key, x: nat, s: seq<nat>)
    requires x < |ps| && InRange(s, |ps|)
    requires SortedBy(ps, key, s)
    requires forall k :: 0 <= k < |s| ==> x < s[k]
    ensures SortedBy(ps, key, Insert(ps, key, x, s))
  {
    var r := Insert(ps, key, x, s);
    if |s| == 0 {
    } else if KeyOf(ps[x], key) <= KeyOf(ps[s[0]], key) {
      assert r == [x] + s;
      forall j | 0 <= j < |s|
        ensures Precedes(ps, key, x, s[j])
      {
        if j > 0 {
          assert Precedes(ps, key, s[0], s[j]);
        }
      }
      SortedCons(ps, key, x, s);
    } else {
      var t := s[1..];
      assert forall m :: 0 <= m < |t| ==> t[m] == s[m + 1];
      InsertSorted(ps, key, x, t);
      var rt := Insert(ps, key, x, t);
      assert r == [s[0]] + rt;
      forall j | 0 <= j < |rt|
        ensures Precedes(ps, key, s[0], rt[j])
      {
        InsertMembers(ps, key, x, t, j);
        if rt[j] != x {
          var m :| 0 <= m < |t| && t[m] == rt[j];
          assert Precedes(ps, key, s[0], s[m + 1]);
        }
      }
      SortedCons(ps, key, s[0], rt);
    }
  }

  /** On an input listed in increasing position order, the stable sort by a key
      is the strict order "smaller key, then earlier position". */
  lemma {:induction false} StableSortSorted(ps: seq<Process>, key: Key, s: seq<nat>)
    requires InRange(s, |ps|) && Increasing(s)
    ensures SortedBy(ps, key, StableSort(ps, key, s))
  {
    if |s| > 0 {
      var t := s[1..];
      StableSortSorted(ps, key, t);
      var st := StableSort(ps, key, t);
      forall k | 0 <= k < |st|
        ensures s[0] < st[k]
      {
        assert st[k] in multiset(st);
        assert st[k] in multiset(t);
        var m :| 0 <= m < |t| && t[m] == st[k];
        assert s[m + 1] == st[k];
      }
      InsertSorted(ps, key, s[0], st);
    }
  }

  lemma SortedTail(ps: seq<Process>, key: Key, a: seq<nat>)
    requires |a| > 0 && InRange(a, |ps|) && SortedBy(ps, key, a)
    ensures InRange(a[1..], |ps|) && SortedBy(ps, key, a[1..])
  {
    forall i, j | 0 <= i < j < |a[1..]|
      ensures Precedes(ps, key, a[1..][i], a[1..][j])
    {
      assert a[1..][i] == a[i + 1] && a[1..][j] == a[j + 1];
    }
  }

  /** The head of a sorted sequence precedes every other element, so two sorted
      permutations of one multiset start with the same element. */
  lemma SortedHeads(ps: seq<Process>, key: Key, a: seq<nat>, b: seq<nat>)
    requires |a| > 0 && |b| > 0 && InRange(a, |ps|) && InRange(b, |ps|)
    requires multiset(a) == multiset(b)
    requires SortedBy(ps, key, a) && SortedBy(ps, key, b)
    ensures a[0] == b[0]
  {
    assert a[0] in multiset(b);
    assert b[0] in multiset(a);
    var i :| 0 <= i < |b| && b[i] == a[0];
    var j :| 0 <= j < |a| && a[j] == b[0];
    if i != 0 {
      assert false;
    }
  }

  /** Two permutations of the same elements that are both sorted by a strict
      order are the same sequence: the sorted order is unique. */
  lemma {:induction false} SortedUnique(ps: seq<Process>, key: Key, a: seq<nat>, b: seq<nat>)
    requires InRange(a, |ps|) && InRange(b, |ps|)
    requires multiset(a) == multiset(b)
    requires SortedBy(ps, key, a) && SortedBy(ps, key, b)
    ensures a == b
  {
    assert |a| == |multiset(a)| == |multiset(b)| == |b|;
    if |a| > 0 {
      SortedHeads(ps, key, a, b);
      assert a == [a[0]] + a[1..] && b == [b[0]] + b[1..];
      assert multiset(a[1..]) == multiset(a) - multiset{a[0]};
      assert multiset(b[1..]) == multiset(b) - multiset{b[0]};
      SortedTail(ps, key, a);
      SortedTail(ps, key, b);
      SortedUnique(ps, key, a[1..], b[1..]);
    }
  }

  /** The input positions stably sorted by arrival time
      (`[...processes].sort((a, b) => a.arrivalTime - b.arrivalTime)`). */
  function ArrivalOrder(ps: seq<Process>): (order: seq<nat>)
    ensures |order| == |ps| && InRange(order, |ps|)
  {
    StableSort(ps, ByArrival, Indices(|ps|))
  }

  /** The arrival order lists every process exactly once, by arrival time, with
      equal arrivals kept in input order. */
  lemma ArrivalOrderFacts(ps: seq<Process>)
    ensures SortedBy(ps, ByArrival, ArrivalOrder(ps))
    ensures Distinct(ArrivalOrder(ps))
    ensures forall i :: 0 <= i < |ps| ==> i in ArrivalOrder(ps)
  {
    var order := ArrivalOrder(ps);
    var all := Indices(|ps|);
    StableSortSorted(ps, ByArrival, all);
    forall i | 0 <= i < |ps|
      ensures i in order
    {
      assert all[i] == i;
      assert i in multiset(all);
      assert i in multiset(order);
    }
  }

  /** The earliest arrival time among the processes listed in `s`
      (`Math.min(...remaining.map(p => p.arrivalTime))`). */
  function MinArrival(ps: seq<Process>, s: seq<nat>): (r: int)
    requires |s| > 0 && InRange(s, |ps|)
    ensures exists k :: 0 <= k < |s| && ps[s[k]].arrivalTime == r
    ensures forall k :: 0 <= k < |s| ==> r <= ps[s[k]].arrivalTime
  {
    if |s| == 1 then ps[s[0]].arrivalTime
    else
      var m := MinArrival(ps, s[1..]);
      assert forall k :: 1 <= k < |s| ==> s[k] == s[1..][k - 1];
      Min(ps[s[0]].arrivalTime, m)
  }

  /** The processes of `s` that have arrived by `clock`, in the order of `s`. */
  function Arrived(ps: seq<Process>, s: seq<nat>, clock: int): (r: seq<nat>)
    requires InRange(s, |ps|)
    ensures InRange(r, |ps|) && |r| <= |s|
    ensures forall x :: x in r <==> x in s && x < |ps| && ps[x].arrivalTime <= clock
  {
    if |s| == 0 then []
    else
      assert s == [s[0]] + s[1..];
      var rest := Arrived(ps, s[1..], clock);
      if ps[s[0]].arrivalTime <= clock then [s[0]] + rest else rest
  }

  lemma {:induction false} ArrivedIncreasing(ps: seq<Process>, s: seq<nat>, clock: int)
    requires InRange(s, |ps|) && Increasing(s)
    ensures Increasing(Arrived(ps, s, clock))
  {
    if |s| > 0 {
      ArrivedIncreasing(ps, s[1..], clock);
      var rest := Arrived(ps, s[1..], clock);
      forall k | 0 <= k < |rest|
        ensures s[0] < rest[k]
      {
        assert rest[k] in rest;
        var m :| 0 <= m < |s[1..]| && s[1..][m] == rest[k];
        assert s[m + 1] == rest[k];
      }
    }
  }

  /** The first position of `x` in `s` (`indexOf`). */
  function IndexOf(s: seq<nat>, x: nat): (i: nat)
    requires x in s
    ensures i < |s| && s[i] == x
    ensures forall j :: 0 <= j < i ==> s[j] != x
  {
    if s[0] == x then 0
    else
      assert x in s[1..];
      1 + IndexOf(s[1..], x)
  }

  /** Removes the first occurrence of `x` (`splice(indexOf(x), 1)`). */
  function Remove(s: seq<nat>, x: nat): (r: seq<nat>)
    requires x in s
    ensures |r| == |s| - 1
    ensures multiset(r) == multiset(s) - multiset{x}
  {
    var i := IndexOf(s, x);
    assert s == s[..i] + [x] + s[i + 1..];
    s[..i] + s[i + 1..]
  }

  /** Removing an element from an increasing list keeps it increasing. */
  lemma RemoveIncreasing(s: seq<nat>, x: nat)
    requires x in s && Increasing(s)
    ensures Increasing(Remove(s, x))
  {
    var i := IndexOf(s, x);
    var r := Remove(s, x);
    assert r == s[..i] + s[i + 1..];
    forall a, b | 0 <= a < b < |r|
      ensures r[a] < r[b]
    {
      var a' := if a < i then a else a + 1;
      var b' := if b < i then b else b + 1;
      assert r[a] == s[a'] && r[b] == s[b'];
    }
  }

  /** Removing an element from a list without repetitions keeps every other element. */
  lemma RemoveMembers(s: seq<nat>, x: nat)
    requires x in s && Increasing(s)
    ensures forall y :: y in Remove(s, x) <==> y in s && y != x
  {
    var r := Remove(s, x);
    forall y | y != x
      ensures y in r <==> y in s
    {
      assert multiset(r)[y] == multiset(s)[y];
    }
    RemoveDrops(s, x);
  }

  lemma RemoveDrops(s: seq<nat>, x: nat)
    requires x in s && Increasing(s)
    ensures x !in Remove(s, x)
  {
    var i := IndexOf(s, x);
    var r := Remove(s, x);
    assert r == s[..i] + s[i + 1..];
    forall m | 0 <= m < |r|
      ensures r[m] != x
    {
      if m < i {
        assert r[m] == s[m];
      } else {
        assert r[m] == s[m + 1];
      }
    }
  }
}
