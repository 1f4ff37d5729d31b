/** The process record shared by the three scheduling engines, the integer sums they
    accumulate, and the arrival-time sort that FCFS and Round-Robin run first. */
module Processes {

  datatype Option<T> = None | Some(value: T)

  /** One simulated job. Arrival and burst come from the input; the engines fill in the rest. */
  datatype Process = Process(
    at: int,        // arrival time
    bt: int,        // burst time
    st: int,        // start time (first dispatch)
    ct: int,        // completion time
    tt: int,        // turnaround time
    rt: int,        // response time
    wt: int,        // wait time
    rbt: int,       // remaining burst time (Round-Robin)
    queued: bool,   // has been put on the Round-Robin ready queue
    finished: bool)

  /** A record as the input parser builds it: only arrival, burst and remaining burst are set. */
  function NewProcess(at: int, bt: int): (p: Process)
    ensures Pending(p) && p.at == at && p.bt == bt
  {
    Process(at, bt, 0, 0, 0, 0, 0, bt, false, false)
  }

  /** What every engine expects of a record it has not touched yet. */
  predicate Pending(p: Process)
  {
    p.rbt == p.bt && !p.queued && !p.finished
  }

  /** The three metrics of a process agree with its start and completion times. */
  predicate Accounted(p: Process)
  {
    p.tt == p.ct - p.at && p.rt == p.st - p.at && p.wt == p.tt - p.bt
  }

  /** The record started at `start`, ran its whole burst without interruption, and carries the
      metrics derived from those times. */
  predicate RunsFrom(p: Process, start: int)
  {
    p.st == start && p.ct == start + p.bt && Accounted(p)
  }

  /** The record with its start time set to `start`, run without preemption for its whole
      burst, and its three metrics derived. */
  function Scheduled(p: Process, start: int): (q: Process)
    ensures RunsFrom(q, start)
    ensures q.(st := p.st, ct := p.ct, tt := p.tt, rt := p.rt, wt := p.wt) == p
  {
    var ct := start + p.bt;
    p.(st := start, ct := ct, tt := ct - p.at, rt := start - p.at, wt := ct - p.at - p.bt)
  }

  function Max(a: int, b: int): int
  {
    if a < b then b else a
  }

  /** Integer sums of turnaround, response and wait time; the engines divide these by the
      number of processes to report averages. */
  datatype Totals = Totals(tt: int, rt: int, wt: int)

  function Add(m: Totals, p: Process): Totals
  {
    Totals(m.tt + p.tt, m.rt + p.rt, m.wt + p.wt)
  }

  /** The sums over every record of `s`. */
  function TotalsOf(s: seq<Process>): Totals
  {
    if s == [] then Totals(0, 0, 0) else Add(TotalsOf(s[..|s| - 1]), s[|s| - 1])
  }

  /** The sums over the finished records of `s` only. */
  function FinishedTotals(s: seq<Process>): Totals
  {
    if s == [] then Totals(0, 0, 0)
    else if s[|s| - 1].finished then Add(FinishedTotals(s[..|s| - 1]), s[|s| - 1])
    else FinishedTotals(s[..|s| - 1])
  }

  function SumBurst(s: seq<Process>): int
  {
    if s == [] then 0 else SumBurst(s[..|s| - 1]) + s[|s| - 1].bt
  }

  /** The number of finished records. */
  function CountFinished(s: seq<Process>): (n: nat)
    ensures n <= |s|
  {
    if s == [] then 0 else CountFinished(s[..|s| - 1]) + if s[|s| - 1].finished then 1 else 0
  }

  /** When every record's metrics agree with its times, the wait-time sum is the
      turnaround-time sum less the total burst. */
  lemma {:induction false} TotalsBalance(s: seq<Process>)
    requires forall i :: 0 <= i < |s| ==> Accounted(s[i])
    ensures TotalsOf(s).wt == TotalsOf(s).tt - SumBurst(s)
  {
    if s != [] {
      TotalsBalance(s[..|s| - 1]);
    }
  }

  /** Marking one more record finished adds exactly its metrics to the finished sums. */
  lemma {:induction false} FinishOne(s: seq<Process>, k: nat, p: Process)
    requires k < |s| && !s[k].finished && p.finished
    ensures FinishedTotals(s[k := p]) == Add(FinishedTotals(s), p)
    ensures CountFinished(s[k := p]) == CountFinished(s) + 1
  {
    var n := |s| - 1;
    if k < n {
      assert s[k := p][..n] == s[..n][k := p];
      FinishOne(s[..n], k, p);
    } else {
      assert s[k := p][..n] == s[..n];
    }
  }

  /** Changing a record without changing its finished flag leaves the finished count alone;
      when the record was not finished, the finished sums are left alone too. */
  lemma {:induction false} TouchOne(s: seq<Process>, k: nat, p: Process)
    requires k < |s| && p.finished == s[k].finished
    ensures CountFinished(s[k := p]) == CountFinished(s)
    ensures !p.finished ==> FinishedTotals(s[k := p]) == FinishedTotals(s)
  {
    var n := |s| - 1;
    if k < n {
      assert s[k := p][..n] == s[..n][k := p];
      TouchOne(s[..n], k, p);
    } else {
      assert s[k := p][..n] == s[..n];
    }
  }

  /** Before any record is finished, the finished count and sums are zero. */
  lemma {:induction false} NoneFinished(s: seq<Process>)
    requires forall i :: 0 <= i < |s| ==> !s[i].finished
    ensures CountFinished(s) == 0 && FinishedTotals(s) == Totals(0, 0, 0)
  {
    if s != [] {
      NoneFinished(s[..|s| - 1]);
    }
  }

  /** When every record is finished, the finished sums are the sums over all records. */
  lemma {:induction false} AllFinishedTotals(s: seq<Process>)
    requires forall i :: 0 <= i < |s| ==> s[i].finished
    ensures FinishedTotals(s) == TotalsOf(s)
  {
    if s != [] {
      AllFinishedTotals(s[..|s| - 1]);
    }
  }

  /** The finished count reaches the length exactly when every record is finished. */
  lemma {:induction false} CountFinishedFull(s: seq<Process>)
    ensures CountFinished(s) == |s| <==> forall i :: 0 <= i < |s| ==> s[i].finished
  {
    if s != [] {
      var n := |s| - 1;
      CountFinishedFull(s[..n]);
      assert forall i :: 0 <= i < n ==> s[..n][i] == s[i];
    }
  }

  /** Every entry of a list of record indices is below n. */
  predicate IndicesIn(indices: seq<nat>, n: nat)
  {
    forall b :: 0 <= b < |indices| ==> indices[b] < n
  }

  /** No record index occurs twice. */
  predicate Distinct(indices: seq<nat>)
  {
    forall b, c :: 0 <= b < c < |indices| ==> indices[b] != indices[c]
  }

  /** The part of a record that the input determines. */
  datatype Job = Job(at: int, bt: int)

  function JobOf(p: Process): Job
  {
    Job(p.at, p.bt)
  }

  /** The jobs of the records, in order. */
  function Jobs(s: seq<Process>): (r: seq<Job>)
    ensures |r| == |s|
  {
    if s == [] then [] else Jobs(s[..|s| - 1]) + [JobOf(s[|s| - 1])]
  }

  /** Records that agree on arrival and burst, index by index, have the same jobs. */
  lemma {:induction false} SameJobs(s: seq<Process>, t: seq<Process>)
    requires |s| == |t| && forall i :: 0 <= i < |s| ==> JobOf(s[i]) == JobOf(t[i])
    ensures Jobs(s) == Jobs(t)
  {
    if s != [] {
      SameJobs(s[..|s| - 1], t[..|t| - 1]);
    }
  }

  lemma {:induction false} JobsConcat(s: seq<Process>, t: seq<Process>)
    ensures Jobs(s + t) == Jobs(s) + Jobs(t)
  {
    if t != [] {
      var n := |t| - 1;
      assert (s + t)[..|s + t| - 1] == s + t[..n];
      assert (s + t)[|s + t| - 1] == t[n];
      JobsConcat(s, t[..n]);
      assert Jobs(s + t) == Jobs(s + t[..n]) + [JobOf(t[n])];
    } else {
      assert s + t == s;
    }
  }

  /** Dropping the last element of `s` and an equal element of its permutation `t` leaves two
      permutations of each other. */
  lemma DropMatching<A>(s: seq<A>, t: seq<A>, k: nat)
    requires multiset(s) == multiset(t) && s != [] && k < |t| && t[k] == s[|s| - 1]
    ensures multiset(s[..|s| - 1]) == multiset(t[..k] + t[k + 1..])
  {
    var n, x := |s| - 1, s[|s| - 1];
    var t1, t2 := t[..k], t[k + 1..];
    assert s == s[..n] + [x];
    assert multiset(s) == multiset(s[..n]) + multiset{x};
    assert t == t1 + [x] + t2;
    assert multiset(t) == multiset(t1) + multiset{x} + multiset(t2);
    assert multiset(t1 + t2) == multiset(t1) + multiset(t2);
    forall y ensures multiset(s[..n])[y] == multiset(t1 + t2)[y] {
      assert multiset(s)[y] == multiset(t)[y];
    }
  }

  /** Taking one record out of a sequence takes its job out of the jobs. */
  lemma JobsWithout(t: seq<Process>, k: nat)
    requires k < |t|
    ensures multiset(Jobs(t)) == multiset(Jobs(t[..k] + t[k + 1..])) + multiset{JobOf(t[k])}
  {
    var t1, t2 := t[..k], t[k + 1..];
    assert t == t1 + [t[k]] + t2;
    JobsConcat(t1 + [t[k]], t2);
    JobsConcat(t1, [t[k]]);
    JobsConcat(t1, t2);
    assert Jobs([t[k]]) == [JobOf(t[k])];
    var m1, m2 := Jobs(t1), Jobs(t2);
    assert multiset(m1 + [JobOf(t[k])] + m2) == multiset(m1) + multiset{JobOf(t[k])} + multiset(m2);
    assert multiset(m1 + m2) == multiset(m1) + multiset(m2);
  }

  /** Two permutations of each other have the same jobs, counted with multiplicity. */
  lemma {:induction false} JobsPermutation(s: seq<Process>, t: seq<Process>)
    requires multiset(s) == multiset(t)
    ensures multiset(Jobs(s)) == multiset(Jobs(t))
    decreases |s|
  {
    if s == [] {
      assert |t| == |multiset(t)| == 0;
    } else {
      var n := |s| - 1;
      assert s == s[..n] + [s[n]];
      assert s[n] in multiset(t);
      var k :| 0 <= k < |t| && t[k] == s[n];
      DropMatching(s, t, k);
      JobsPermutation(s[..n], t[..k] + t[k + 1..]);
      JobsWithout(t, k);
    }
  }

  /** Non-decreasing arrival times. */
  predicate ArrivalSorted(s: seq<Process>)
  {
    forall i, j :: 0 <= i < j < |s| ==> s[i].at <= s[j].at
  }

  /** Sorts the records by arrival time. The source hands a "less arrival time" comparer to an
      unstable sort, so the order of records with equal arrival times is not promised. */
  method SortByArrival(a: array<Process>)
    modifies a
    ensures ArrivalSorted(a[..])
    ensures multiset(a[..]) == multiset(old(a[..]))
  {
    var i := 0;
    while i < a.Length
      invariant 0 <= i <= a.Length
      invariant ArrivalSorted(a[..i])
      invariant multiset(a[..]) == multiset(old(a[..]))
    {
      InsertLast(a, i);
      i := i + 1;
    }
  }

  /** Moves a[i] down into the sorted prefix a[..i], swapping it with larger neighbours. */
  method InsertLast(a: array<Process>, i: nat)
    requires i < a.Length && ArrivalSorted(a[..i])
    modifies a
    ensures ArrivalSorted(a[..i + 1])
    ensures multiset(a[..]) == multiset(old(a[..]))
    ensures a[i + 1..] == old(a[i + 1..])
  {
    var j := i;
    while 0 < j && a[j].at < a[j - 1].at
      invariant 0 <= j <= i
      invariant a[i + 1..] == old(a[i + 1..])
      invariant forall x, y :: 0 <= x < y <= i && x != j && y != j ==> a[x].at <= a[y].at
      invariant forall y :: j < y <= i ==> a[j].at <= a[y].at
      invariant multiset(a[..]) == multiset(old(a[..]))
    {
      SwapDown(a, j);
      j := j - 1;
    }
    assert forall x :: 0 <= x < j ==> a[x].at <= a[j].at by {
      if 0 < j {
        assert forall x :: 0 <= x < j - 1 ==> a[x].at <= a[j - 1].at;
      }
    }
  }

  /** Exchanges a[j - 1] and a[j]. */
  method SwapDown(a: array<Process>, j: nat)
    requires 0 < j < a.Length
    modifies a
    ensures a[j - 1] == old(a[j]) && a[j] == old(a[j - 1])
    ensures forall k :: 0 <= k < a.Length && k != j - 1 && k != j ==> a[k] == old(a[k])
    ensures multiset(a[..]) == multiset(old(a[..]))
  {
    a[j - 1], a[j] := a[j], a[j - 1];
  }
}
