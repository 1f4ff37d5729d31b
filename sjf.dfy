/** Non-preemptive Shortest-Job-First: a discrete clock; at each decision the shortest
    arrived, unfinished job runs to completion, and the clock idles one unit at a time when
    nothing has arrived. */
module Sjf {
  import opened Processes

  /** The record may be dispatched at `time`: it has arrived and is not finished. */
  predicate Eligible(p: Process, time: int)
  {
    !p.finished && p.at <= time
  }

  /** Record i is preferred to record j: shorter burst, then earlier arrival, then earlier
      place in the list. */
  predicate Precedes(s: seq<Process>, i: nat, j: nat)
    requires i < |s| && j < |s|
  {
    s[i].bt < s[j].bt || (s[i].bt == s[j].bt && (s[i].at < s[j].at || (s[i].at == s[j].at && i <= j)))
  }

  /** The selection rule: a pick is eligible and preferred to every eligible record; no pick
      means no record is eligible. */
  predicate IsShortestPick(s: seq<Process>, time: int, pick: Option<nat>)
  {
    match pick
    case Some(k) =>
      k < |s| && Eligible(s[k], time) &&
      forall j :: 0 <= j < |s| && Eligible(s[j], time) ==> Precedes(s, k, j)
    case None =>
      forall j :: 0 <= j < |s| ==> !Eligible(s[j], time)
  }

  /** The record is the one the engine dispatched at `start`: it ran its whole burst from
      there and is finished; nothing else about it changed. */
  function Dispatched(p: Process, start: int): (q: Process)
  {
    Scheduled(p, start).(finished := true)
  }

  /** The completion time of the record dispatched just before position `a` of `order`, or 0
      (the initial clock) for the first one. */
  function Previous(s: seq<Process>, order: seq<nat>, a: nat): int
    requires a <= |order| && forall b :: 0 <= b < |order| ==> order[b] < |s|
  {
    if a == 0 then 0 else s[order[a - 1]].ct
  }

  /** The dispatch at position `a` of `order` obeys the engine's rules:
      - the record had arrived and the previous one had completed;
      - the clock went past that completion only while every record still to be dispatched
        had not yet arrived;
      - every record still waiting that had arrived by then is not preferred to it. */
  ghost predicate DispatchOk(s: seq<Process>, order: seq<nat>, a: nat)
    requires a < |order| && IndicesIn(order, |s|)
  {
    var k := order[a];
    s[k].at <= s[k].st && Previous(s, order, a) <= s[k].st &&
    (s[k].st == Previous(s, order, a) ||
     forall j :: 0 <= j < |s| && j !in order[..a] ==> s[k].st <= s[j].at) &&
    (forall j :: 0 <= j < |s| && j !in order[..a + 1] && s[j].at <= s[k].st ==> Precedes(s, k, j))
  }

  /** `order` lists the records in the order the engine dispatched them, and every dispatch
      obeys the engine's rules. */
  ghost predicate IsSjfSchedule(s: seq<Process>, order: seq<nat>)
  {
    IndicesIn(order, |s|) && forall a :: 0 <= a < |order| ==> DispatchOk(s, order, a)
  }

  /** Dispatching one more record: the records already dispatched keep their times, arrivals
      and bursts stay as they were, and the new record obeys the rules at its start time. */
  lemma ScheduleExtend(s: seq<Process>, order: seq<nat>, s': seq<Process>, k: nat)
    requires IsSjfSchedule(s, order) && |s'| == |s| && k < |s| && k !in order
    requires forall j :: 0 <= j < |s| ==> s'[j].at == s[j].at && s'[j].bt == s[j].bt
    requires forall j :: 0 <= j < |s| && j != k ==> s'[j] == s[j]
    requires s'[k].at <= s'[k].st && Previous(s, order, |order|) <= s'[k].st
    requires s'[k].st == Previous(s, order, |order|) ||
             forall j :: 0 <= j < |s| && j !in order ==> s'[k].st <= s[j].at
    requires forall j :: 0 <= j < |s| && j !in order && j != k && s[j].at <= s'[k].st ==> Precedes(s, k, j)
    ensures IsSjfSchedule(s', order + [k])
  {
    var o := order + [k];
    assert IndicesIn(o, |s'|);
    forall a | 0 <= a < |o| ensures DispatchOk(s', o, a) {
      if a < |order| {
        OldDispatchKept(s, order, s', k, a);
      } else {
        assert o[..a] == order && o[..a + 1] == o;
        assert Previous(s', o, a) == Previous(s, order, |order|) by {
          if a > 0 {
            assert order[a - 1] in order;
          }
        }
      }
    }
  }

  lemma OldDispatchKept(s: seq<Process>, order: seq<nat>, s': seq<Process>, k: nat, a: nat)
    requires IsSjfSchedule(s, order) && |s'| == |s| && k < |s| && k !in order && a < |order|
    requires forall j :: 0 <= j < |s| ==> s'[j].at == s[j].at && s'[j].bt == s[j].bt
    requires forall j :: 0 <= j < |s| && j != k ==> s'[j] == s[j]
    ensures IndicesIn(order + [k], |s'|) && DispatchOk(s', order + [k], a)
  {
    var o := order + [k];
    assert DispatchOk(s, order, a);
    assert o[..a] == order[..a] && o[..a + 1] == order[..a + 1];
    assert o[a] == order[a] && order[a] in order;
    if a > 0 {
      assert o[a - 1] == order[a - 1] && order[a - 1] in order;
    }
    forall j | 0 <= j < |s| ensures Precedes(s', order[a], j) == Precedes(s, order[a], j) {
    }
  }

  /** Every record in a schedule that covers all of them completes no later than the next one
      starts, when no burst is negative: the executions never overlap. */
  lemma {:induction false} SjfNoOverlap(s: seq<Process>, order: seq<nat>, a: nat, b: nat)
    requires IsSjfSchedule(s, order)
    requires forall i :: 0 <= i < |s| ==> s[i].ct == s[i].st + s[i].bt && s[i].bt >= 0
    requires a < b < |order|
    ensures s[order[a]].ct <= s[order[b]].st
    decreases b - a
  {
    assert DispatchOk(s, order, b);
    if a + 1 < b {
      SjfNoOverlap(s, order, a, b - 1);
      assert s[order[b - 1]].st <= s[order[b - 1]].ct;
    }
  }

  /** The as-written scan over records i.. of s. `threshold` starts at the largest int; an
      eligible record is taken when its burst is below the threshold or, when a record is
      already picked and the burst equals the threshold, when it arrived earlier than the pick. */
  function ScanAsWritten(s: seq<Process>, time: int, i: nat, threshold: int, pick: Option<nat>): (r: Option<nat>)
    requires i <= |s| && (pick.Some? ==> pick.value < |s|)
    ensures r.Some? ==> r.value < |s|
    ensures r != pick ==> r.Some? && i <= r.value && Eligible(s[r.value], time)
    ensures r.None? ==> pick.None? && forall j :: i <= j < |s| && Eligible(s[j], time) ==> s[j].bt >= threshold
    decreases |s| - i
  {
    if i == |s| then pick
    else if s[i].finished || s[i].at > time then ScanAsWritten(s, time, i + 1, threshold, pick)
    else
      var found := if s[i].bt == threshold && pick.Some? then s[i].at < s[pick.value].at
                   else s[i].bt < threshold;
      if found then ScanAsWritten(s, time, i + 1, s[i].bt, Some(i))
      else ScanAsWritten(s, time, i + 1, threshold, pick)
  }

  /** The largest value of the source's 32-bit `int`, the scan's initial threshold. */
  const IntMax: int := 0x7FFF_FFFF

  /** As written, a record whose burst is the largest int is never picked: alone in the
      list, it is eligible from time 0 on, yet the scan finds nothing, so the engine idles
      forever. */
  lemma MaxBurstNeverPicked(time: int)
    requires time >= 0
    ensures Eligible(NewProcess(0, IntMax), time)
    ensures ScanAsWritten([NewProcess(0, IntMax)], time, 0, IntMax, None) == None
  {
  }

  /** As long as every burst is below the largest int, the as-written scan obeys the
      selection rule. */
  lemma {:induction false} ScanAsWrittenBelowMax(s: seq<Process>, time: int, i: nat, threshold: int, pick: Option<nat>)
    requires i <= |s| && forall j :: 0 <= j < |s| ==> s[j].bt < IntMax
    requires pick.Some? ==> pick.value < i && threshold == s[pick.value].bt && Eligible(s[pick.value], time) &&
                            forall j :: 0 <= j < i && Eligible(s[j], time) ==> Precedes(s, pick.value, j)
    requires pick.None? ==> threshold == IntMax && forall j :: 0 <= j < i ==> !Eligible(s[j], time)
    ensures IsShortestPick(s, time, ScanAsWritten(s, time, i, threshold, pick))
    decreases |s| - i
  {
    if i < |s| {
      if s[i].finished || s[i].at > time {
        ScanAsWrittenBelowMax(s, time, i + 1, threshold, pick);
      } else {
        var found := if s[i].bt == threshold && pick.Some? then s[i].at < s[pick.value].at
                     else s[i].bt < threshold;
        if found {
          ScanAsWrittenBelowMax(s, time, i + 1, s[i].bt, Some(i));
        } else {
          ScanAsWrittenBelowMax(s, time, i + 1, threshold, pick);
        }
      }
    }
  }

  /** The idle measure: how far, summed over the unfinished records, the clock still is from
      their arrivals. */
  function Gap(s: seq<Process>, time: int): nat
  {
    if s == [] then 0
    else
      var p := s[|s| - 1];
      Gap(s[..|s| - 1], time) + if !p.finished && p.at > time then p.at - time else 0
  }

  /** Advancing an idle clock by one unit brings some unfinished record closer. */
  lemma {:induction false} GapShrinks(s: seq<Process>, time: int)
    ensures Gap(s, time + 1) <= Gap(s, time)
    ensures (exists i :: 0 <= i < |s| && !s[i].finished && s[i].at > time) ==> Gap(s, time + 1) < Gap(s, time)
  {
    if s != [] {
      var n := |s| - 1;
      GapShrinks(s[..n], time);
      if exists i :: 0 <= i < |s| && !s[i].finished && s[i].at > time {
        var i :| 0 <= i < |s| && !s[i].finished && s[i].at > time;
        if i < n {
          assert s[..n][i] == s[i];
        }
      }
    }
  }

  /** What holds at the head of the engine's loop, for the records `s0` it started from, the
      current records `s`, the dispatch order so far, the clock and the sums. */
  ghost predicate SjfInvariant(s0: seq<Process>, s: seq<Process>, order: seq<nat>, time: int, totals: Totals)
  {
    |s| == |s0| && Distinct(order) && IndicesIn(order, |s|) && |order| == CountFinished(s) &&
    (forall i :: 0 <= i < |s| ==> (s[i].finished <==> i in order)) &&
    (forall i :: 0 <= i < |s| && !s[i].finished ==> s[i] == s0[i]) &&
    (forall i :: 0 <= i < |s| && s[i].finished ==> s[i] == Dispatched(s0[i], s[i].st)) &&
    IsSjfSchedule(s, order) &&
    Previous(s, order, |order|) <= time &&
    (time == Previous(s, order, |order|) || forall j :: 0 <= j < |s| && !s[j].finished ==> time <= s[j].at) &&
    totals == FinishedTotals(s)
  }

  /** The loop starts in the invariant. */
  lemma InvariantInitially(s0: seq<Process>)
    requires forall i :: 0 <= i < |s0| ==> Pending(s0[i])
    ensures SjfInvariant(s0, s0, [], 0, Totals(0, 0, 0))
  {
    NoneFinished(s0);
  }

  /** An idle turn keeps the invariant and, while some record is unfinished, shrinks the idle
      measure. */
  lemma InvariantAfterIdle(s0: seq<Process>, s: seq<Process>, order: seq<nat>, time: int, totals: Totals)
    requires SjfInvariant(s0, s, order, time, totals) && IsShortestPick(s, time, None)
    requires |order| < |s|
    ensures SjfInvariant(s0, s, order, time + 1, totals)
    ensures Gap(s, time + 1) < Gap(s, time)
  {
    CountFinishedFull(s);
    GapShrinks(s, time);
  }

  /** A dispatch turn keeps the invariant with one more record in the order. */
  lemma InvariantAfterDispatch(s0: seq<Process>, s: seq<Process>, order: seq<nat>, time: int, totals: Totals, k: nat,
                               s': seq<Process>)
    requires SjfInvariant(s0, s, order, time, totals) && IsShortestPick(s, time, Some(k))
    requires s' == s[k := Dispatched(s[k], time)]
    ensures SjfInvariant(s0, s', order + [k], s'[k].ct, Add(totals, s'[k]))
  {
    var p := Dispatched(s[k], time);
    FinishOne(s, k, p);
    DispatchSchedule(s0, s, order, time, totals, k, s');
    DispatchRecords(s0, s, order, time, totals, k, s');
    var o := order + [k];
    assert Previous(s', o, |o|) == p.ct;
  }

  lemma DispatchSchedule(s0: seq<Process>, s: seq<Process>, order: seq<nat>, time: int, totals: Totals, k: nat,
                         s': seq<Process>)
    requires SjfInvariant(s0, s, order, time, totals) && IsShortestPick(s, time, Some(k))
    requires s' == s[k := Dispatched(s[k], time)]
    ensures IsSjfSchedule(s', order + [k])
  {
    ScheduleExtend(s, order, s', k);
  }

  lemma DispatchRecords(s0: seq<Process>, s: seq<Process>, order: seq<nat>, time: int, totals: Totals, k: nat,
                        s': seq<Process>)
    requires SjfInvariant(s0, s, order, time, totals) && IsShortestPick(s, time, Some(k))
    requires s' == s[k := Dispatched(s[k], time)]
    ensures Distinct(order + [k]) && IndicesIn(order + [k], |s'|)
    ensures forall i :: 0 <= i < |s'| ==> (s'[i].finished <==> i in order + [k])
    ensures forall i :: 0 <= i < |s'| && !s'[i].finished ==> s'[i] == s0[i]
    ensures forall i :: 0 <= i < |s'| && s'[i].finished ==> s'[i] == Dispatched(s0[i], s'[i].st)
  {
    var o := order + [k];
    assert Distinct(o) by {
      forall b | 0 <= b < |order| ensures order[b] != k {
        assert order[b] in order;
      }
    }
    forall i | 0 <= i < |s'| ensures s'[i].finished <==> i in o {
    }
  }

  /** Once every record is dispatched, each is its original dispatched at its start, every
      index is in the order, and the sums are those of all the records. */
  lemma InvariantAtEnd(s0: seq<Process>, s: seq<Process>, order: seq<nat>, time: int, totals: Totals)
    requires SjfInvariant(s0, s, order, time, totals) && |order| == |s|
    ensures forall i :: 0 <= i < |s| ==> s[i] == Dispatched(s0[i], s[i].st) && i in order
    ensures totals == TotalsOf(s)
  {
    CountFinishedFull(s);
    AllFinishedTotals(s);
  }

  /** The SJF engine, owning its copy of the records. */
  class SjfScheduler {
    var procs: array<Process>

    constructor (processes: seq<Process>)
      ensures fresh(procs) && procs[..] == processes
    {
      procs := new Process[|processes|](i requires 0 <= i < |processes| => processes[i]);
    }

    /** One scan of the list at `time` for the record to dispatch. The source keeps the
        threshold at the largest int until a record is picked; here "nothing picked yet"
        admits any eligible record (see ScanAsWritten for the difference). */
    method PickShortest(time: int) returns (pick: Option<nat>)
      ensures IsShortestPick(procs[..], time, pick)
    {
      pick := None;
      var i := 0;
      while i < procs.Length
        invariant 0 <= i <= procs.Length
        invariant pick.Some? ==> pick.value < i && Eligible(procs[pick.value], time) &&
                                 forall j :: 0 <= j < i && Eligible(procs[j], time) ==> Precedes(procs[..], pick.value, j)
        invariant pick.None? ==> forall j :: 0 <= j < i ==> !Eligible(procs[j], time)
      {
        var p := procs[i];
        if !p.finished && p.at <= time {
          var found := pick.None? || p.bt < procs[pick.value].bt ||
                       (p.bt == procs[pick.value].bt && p.at < procs[pick.value].at);
          if found {
            pick := Some(i);
          }
        }
        i := i + 1;
      }
    }

    /** One turn of the engine's loop: with nothing eligible the clock moves on by one unit
        and nothing else changes; otherwise the picked record runs from `time` to completion,
        becomes finished, and the clock jumps to its completion time. */
    method Step(time: int) returns (next: int, pick: Option<nat>)
      modifies procs
      ensures IsShortestPick(old(procs[..]), time, pick)
      ensures pick.None? ==> next == time + 1 && procs[..] == old(procs[..])
      ensures pick.Some? ==> procs[..] == old(procs[..])[pick.value := Dispatched(old(procs[pick.value]), time)] &&
                             next == procs[pick.value].ct
    {
      pick := PickShortest(time);
      if pick.None? {
        next := time + 1;
        return;
      }
      var k := pick.value;
      procs[k] := Dispatched(procs[k], time);
      next := procs[k].ct;
    }

    /** One pass of the engine's loop: dispatch the shortest eligible record, or let the
        clock idle one unit when none is eligible. */
    method Round(ghost s0: seq<Process>, time: int, totals: Totals, ghost order: seq<nat>)
        returns (time': int, totals': Totals, ghost order': seq<nat>, dispatched: bool)
      requires SjfInvariant(s0, procs[..], order, time, totals) && |order| < procs.Length
      modifies procs
      ensures SjfInvariant(s0, procs[..], order', time', totals')
      ensures dispatched ==> |order'| == |order| + 1
      ensures !dispatched ==> order' == order && procs[..] == old(procs[..]) &&
                              Gap(procs[..], time') < Gap(procs[..], time)
    {
      ghost var before := procs[..];
      var next, pick := Step(time);
      if pick.None? {
        InvariantAfterIdle(s0, before, order, time, totals);
        time', totals', order', dispatched := next, totals, order, false;
      } else {
        var k := pick.value;
        InvariantAfterDispatch(s0, before, order, time, totals, k, procs[..]);
        time', totals', order', dispatched := next, Add(totals, procs[k]), order + [k], true;
      }
    }

    /** Runs the clock until every record is finished; returns the sums of the three metrics
        (the source divides them by the number of records) and, as a ghost, the order in which
        the records were dispatched. */
    method Start() returns (totals: Totals, ghost order: seq<nat>)
      requires forall i :: 0 <= i < procs.Length ==> Pending(procs[i])
      modifies procs
      ensures forall i :: 0 <= i < procs.Length ==> procs[i] == Dispatched(old(procs[i]), procs[i].st)
      ensures Distinct(order) && IndicesIn(order, procs.Length)
      ensures forall i :: 0 <= i < procs.Length ==> i in order
      ensures IsSjfSchedule(procs[..], order)
      ensures totals == TotalsOf(procs[..])
    {
      var n := procs.Length;
      totals := Totals(0, 0, 0);
      var time := 0;
      var finishedCount := 0;
      order := [];
      InvariantInitially(procs[..]);
      while finishedCount < n
        invariant finishedCount == |order| && n == procs.Length
        invariant SjfInvariant(old(procs[..]), procs[..], order, time, totals)
        decreases n - finishedCount, Gap(procs[..], time)
      {
        var dispatched;
        time, totals, order, dispatched := Round(old(procs[..]), time, totals, order);
        if dispatched {
          finishedCount := finishedCount + 1;
        }
      }
      InvariantAtEnd(old(procs[..]), procs[..], order, time, totals);
    }
  }
}
