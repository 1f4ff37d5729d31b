/** First-Come-First-Served: the records run one after another in arrival order, each to
    completion. */
module Fcfs {
  import opened Processes

  /** The start rule of the engine: each record starts when it has arrived and its
      predecessor in the list has completed (the first one at its own arrival), runs its whole
      burst without interruption, and carries the metrics derived from those times. */
  ghost predicate IsFcfsTimeline(s: seq<Process>)
  {
    forall i {:trigger FcfsStart(s, i)} :: 0 <= i < |s| ==> RunsFrom(s[i], FcfsStart(s, i))
  }

  /** The start time the engine gives the record at index `i` of `s`. */
  function FcfsStart(s: seq<Process>, i: nat): int
    requires i < |s|
  {
    if i == 0 then s[i].at else Max(s[i].at, s[i - 1].ct)
  }

  lemma TimelinePrefix(s: seq<Process>, n: nat)
    requires IsFcfsTimeline(s) && n <= |s|
    ensures IsFcfsTimeline(s[..n])
  {
    forall i | 0 <= i < n ensures RunsFrom(s[..n][i], FcfsStart(s[..n], i)) {
      assert RunsFrom(s[i], FcfsStart(s, i));
    }
  }

  lemma TimelineExtend(s: seq<Process>, p: Process)
    requires IsFcfsTimeline(s)
    requires RunsFrom(p, FcfsStart(s + [p], |s|))
    ensures IsFcfsTimeline(s + [p])
  {
    forall i | 0 <= i < |s| + 1 ensures RunsFrom((s + [p])[i], FcfsStart(s + [p], i)) {
      if i < |s| {
        assert RunsFrom(s[i], FcfsStart(s, i));
      }
    }
  }

  /** On an FCFS timeline with non-negative bursts no process waits before arriving, response
      time equals wait time, and the executions never overlap: every record completes no later
      than any later record starts. */
  lemma {:induction false} FcfsTimelineFacts(s: seq<Process>)
    requires IsFcfsTimeline(s)
    requires forall i :: 0 <= i < |s| ==> s[i].bt >= 0
    ensures forall i :: 0 <= i < |s| ==> s[i].at <= s[i].st <= s[i].ct && s[i].rt == s[i].wt
    ensures forall i, j :: 0 <= i < j < |s| ==> s[i].ct <= s[j].st
  {
    if s != [] {
      var n := |s| - 1;
      var t := s[..n];
      TimelinePrefix(s, n);
      FcfsTimelineFacts(t);
      assert RunsFrom(s[n], FcfsStart(s, n));
      forall i | 0 <= i < n ensures s[i].ct <= s[n].st {
        assert t[i] == s[i];
        if i < n - 1 {
          assert t[i].ct <= t[n - 1].st;
          assert t[n - 1] == s[n - 1];
        }
      }
      forall i, j | 0 <= i < j < |s| ensures s[i].ct <= s[j].st {
        if j < n {
          assert t[i] == s[i] && t[j] == s[j];
        }
      }
    }
  }

  /** Summed over an FCFS timeline, total response time equals total wait time. */
  lemma {:induction false} FcfsResponseTotalsWait(s: seq<Process>)
    requires IsFcfsTimeline(s)
    ensures TotalsOf(s).rt == TotalsOf(s).wt
  {
    if s != [] {
      var n := |s| - 1;
      TimelinePrefix(s, n);
      FcfsResponseTotalsWait(s[..n]);
      assert RunsFrom(s[n], FcfsStart(s, n));
    }
  }

  /** The FCFS engine, owning its copy of the records. */
  class FcfsScheduler {
    var procs: array<Process>

    constructor (processes: seq<Process>)
      ensures fresh(procs) && procs[..] == processes
    {
      procs := new Process[|processes|](i requires 0 <= i < |processes| => processes[i]);
    }

    /** Sorts the records by arrival and runs them in that order; returns the sums of the
        three metrics (the source divides them by the number of records). */
    method Start() returns (totals: Totals, ghost sorted: seq<Process>)
      modifies procs
      ensures ArrivalSorted(procs[..])
      ensures multiset(Jobs(procs[..])) == multiset(Jobs(old(procs[..])))
      ensures |sorted| == procs.Length && ArrivalSorted(sorted) && multiset(sorted) == multiset(old(procs[..]))
      ensures forall k :: 0 <= k < procs.Length ==> procs[k] == Scheduled(sorted[k], procs[k].st)
      ensures IsFcfsTimeline(procs[..])
      ensures totals == TotalsOf(procs[..])
    {
      SortByArrival(procs);
      sorted := procs[..];
      JobsPermutation(sorted, old(procs[..]));
      totals := RunInListOrder();
      SameJobs(procs[..], sorted);
    }

    /** The pass of the engine over the sorted records. */
    method RunInListOrder() returns (totals: Totals)
      modifies procs
      ensures forall k :: 0 <= k < procs.Length ==> JobOf(procs[k]) == JobOf(old(procs[k]))
      ensures forall k :: 0 <= k < procs.Length ==> procs[k] == Scheduled(old(procs[k]), procs[k].st)
      ensures IsFcfsTimeline(procs[..])
      ensures totals == TotalsOf(procs[..])
    {
      totals := Totals(0, 0, 0);
      var i := 0;
      while i < procs.Length
        invariant 0 <= i <= procs.Length
        invariant forall k :: 0 <= k < i ==> procs[k] == Scheduled(old(procs[k]), procs[k].st)
        invariant forall k :: i <= k < procs.Length ==> procs[k] == old(procs[k])
        invariant IsFcfsTimeline(procs[..i])
        invariant totals == TotalsOf(procs[..i])
      {
        ghost var done := procs[..i];
        var start := if i == 0 then procs[i].at else Max(procs[i].at, procs[i - 1].ct);
        procs[i] := Scheduled(procs[i], start);
        totals := Add(totals, procs[i]);
        assert procs[..i] == done;
        assert procs[..i + 1] == done + [procs[i]];
        TimelineExtend(done, procs[i]);
        i := i + 1;
      }
      assert procs[..] == procs[..i];
    }
  }
}
