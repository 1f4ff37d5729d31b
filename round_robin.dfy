/** Round-Robin with a fixed quantum: a FIFO ready queue of record indices; each turn the
    head runs for at most one quantum, newly arrived records join the queue, and a preempted
    record goes back to the tail after them. */
module RoundRobin {
  import opened Processes

  /** One turn of the head record `p` at clock `time`: the record and the clock afterwards.
      While nothing of its burst is used yet the record starts at the later of the clock and
      its arrival, and the clock moves there. Then, if more than a quantum remains, it runs one
      quantum; otherwise it runs what remains and finishes, with its completion time and
      metrics set. */
  function Slice(p: Process, time: int, quantum: int): (Process, int)
  {
    var first := p.rbt == p.bt;
    var begin := if first then Max(time, p.at) else time;
    var st := if first then begin else p.st;
    if p.rbt - quantum > 0 then
      (p.(st := st, rbt := p.rbt - quantum), begin + quantum)
    else
      var now := begin + p.rbt;
      (p.(st := st, ct := now, tt := now - p.at, rt := st - p.at, wt := now - p.at - p.bt,
          rbt := 0, finished := true), now)
  }

  /** A record the engine can take: untouched, with a burst that is not negative. */
  predicate Runnable(p: Process)
  {
    Pending(p) && p.bt >= 0
  }

  /** Record i joins the queue in the arrival sweep at `time`: it is not the first record, it
      is neither queued nor finished, and it has arrived. */
  predicate Arriving(s: seq<Process>, i: nat, time: int)
    requires i < |s|
  {
    1 <= i && !s[i].queued && !s[i].finished && s[i].at <= time
  }

  /** The indices below `hi` that the arrival sweep at `time` enqueues, in list order. */
  function Arrivals(s: seq<Process>, time: int, hi: nat): seq<nat>
    requires hi <= |s|
  {
    if hi <= 1 then []
    else Arrivals(s, time, hi - 1) + if Arriving(s, hi - 1, time) then [hi - 1] else []
  }

  /** The sweep enqueues exactly the arriving records, each once, in increasing index order. */
  lemma ArrivalsExactly(s: seq<Process>, time: int, hi: nat)
    requires hi <= |s|
    ensures forall x: nat :: x in Arrivals(s, time, hi) <==> x < hi && Arriving(s, x, time)
    ensures forall b, c :: 0 <= b < c < |Arrivals(s, time, hi)| ==> Arrivals(s, time, hi)[b] < Arrivals(s, time, hi)[c]
  {
    ArrivalsMembers(s, time, hi);
    ArrivalsIncreasing(s, time, hi);
  }

  lemma {:induction false} ArrivalsMembers(s: seq<Process>, time: int, hi: nat)
    requires hi <= |s|
    ensures forall x: nat :: x in Arrivals(s, time, hi) <==> x < hi && Arriving(s, x, time)
  {
    if hi > 1 {
      ArrivalsMembers(s, time, hi - 1);
      var a := Arrivals(s, time, hi - 1);
      var e := if Arriving(s, hi - 1, time) then [hi - 1] else [];
      assert Arrivals(s, time, hi) == a + e;
      forall x: nat ensures x in a + e <==> x < hi && Arriving(s, x, time) {
        assert x in a + e <==> x in a || x in e;
      }
    }
  }

  lemma {:induction false} ArrivalsIncreasing(s: seq<Process>, time: int, hi: nat)
    requires hi <= |s|
    ensures forall b, c :: 0 <= b < c < |Arrivals(s, time, hi)| ==> Arrivals(s, time, hi)[b] < Arrivals(s, time, hi)[c]
  {
    if hi > 1 {
      ArrivalsIncreasing(s, time, hi - 1);
      ArrivalsMembers(s, time, hi - 1);
      var a := Arrivals(s, time, hi - 1);
      forall b | 0 <= b < |a| ensures a[b] < hi - 1 {
        assert a[b] in a;
      }
    }
  }

  /** The remaining burst, summed over the records (negative values count as zero). */
  function Remaining(s: seq<Process>): nat
  {
    if s == [] then 0
    else Remaining(s[..|s| - 1]) + if s[|s| - 1].rbt > 0 then s[|s| - 1].rbt else 0
  }

  function Positive(x: int): nat
  {
    if x > 0 then x else 0
  }

  lemma {:induction false} RemainingUpdate(s: seq<Process>, k: nat, p: Process)
    requires k < |s|
    ensures Remaining(s[k := p]) == Remaining(s) - Positive(s[k].rbt) + Positive(p.rbt)
  {
    var n := |s| - 1;
    if k < n {
      assert s[k := p][..n] == s[..n][k := p];
      RemainingUpdate(s[..n], k, p);
    } else {
      assert s[k := p][..n] == s[..n];
    }
  }

  /** Every index on the queue is of an unfinished record that is the first record or is
      flagged as queued, and is not `cur`. */
  ghost predicate QueueMembersOk(s: seq<Process>, queue: seq<nat>, cur: int)
  {
    IndicesIn(queue, |s|) &&
    forall b :: 0 <= b < |queue| ==>
      !s[queue[b]].finished && (queue[b] == 0 || s[queue[b]].queued) && queue[b] != cur
  }

  /** Every unfinished record that is the first record or is flagged as queued, other than
      `cur`, is on the queue. */
  ghost predicate QueueComplete(s: seq<Process>, queue: seq<nat>, cur: int)
  {
    forall i :: 0 <= i < |s| && i != cur && !s[i].finished && (i == 0 || s[i].queued) ==> i in queue
  }

  /** The ready queue holds distinct indices of unfinished records, each the first record or
      one flagged as queued; every such record is in the queue, except `cur`, the record taken
      off its head in the current turn (-1 between turns). */
  ghost predicate QueueOk(s: seq<Process>, queue: seq<nat>, cur: int)
  {
    Distinct(queue) && QueueMembersOk(s, queue, cur) && QueueComplete(s, queue, cur) &&
    (0 <= cur ==> cur < |s| && (cur == 0 || s[cur].queued))
  }

  /** What every record satisfies between and inside turns, given its sorted original `p0`:
      its arrival and burst are unchanged; a finished record has used all its burst, ran from
      its start (at or after its arrival) for at least its burst, completed by `time`, and
      carries derived metrics; an unfinished one has used part of its burst, and only after
      starting; a record past the first that was never queued never ran. */
  predicate RecordOk(p0: Process, p: Process, i: nat, time: int)
  {
    JobOf(p) == JobOf(p0) &&
    (p.finished ==> p.rbt == 0 && Accounted(p) && p.at <= p.st && p.st + p.bt <= p.ct <= time) &&
    (!p.finished ==> 0 <= p.rbt <= p.bt && (p.rbt < p.bt ==> p.at <= p.st && p.st + p.bt - p.rbt <= time)) &&
    (1 <= i && !p.queued ==> !p.finished && p.rbt == p.bt)
  }

  ghost predicate RecordsOk(s0: seq<Process>, s: seq<Process>, time: int)
  {
    |s| == |s0| && forall i :: 0 <= i < |s| ==> RecordOk(s0[i], s[i], i, time)
  }

  /** What holds at the head of the engine's loop: the records and the queue are as above,
      the count and sums are those of the finished records, and while some record is
      unfinished the queue is not empty, so taking its head is defined. */
  ghost predicate RrInvariant(s0: seq<Process>, s: seq<Process>, queue: seq<nat>, time: int, finished: nat, totals: Totals)
  {
    RecordsOk(s0, s, time) && QueueOk(s, queue, -1) &&
    finished == CountFinished(s) && totals == FinishedTotals(s) &&
    (finished < |s| ==> queue != [])
  }

  /** The loop starts in the invariant, with only the first record on the queue. */
  lemma InvariantInitially(s: seq<Process>)
    requires |s| > 0 && forall i :: 0 <= i < |s| ==> Runnable(s[i])
    ensures RrInvariant(s, s, [0], 0, 0, Totals(0, 0, 0))
  {
    NoneFinished(s);
  }

  /** Taking the head off the queue and running it one turn keeps every record in order and
      leaves the rest of the queue in order around it; the finished count and sums take in the
      record if it finished, and the remaining work plus the number of unfinished records
      drops. */
  lemma AfterSlice(s0: seq<Process>, s: seq<Process>, queue: seq<nat>, time: int, quantum: int,
                   s': seq<Process>, now: int)
    requires RecordsOk(s0, s, time) && QueueOk(s, queue, -1) && queue != [] && quantum > 0
    requires var k := queue[0]; |s'| == |s| && s' == s[k := s'[k]] && (s'[k], now) == Slice(s[k], time, quantum)
    ensures var k := queue[0];
      (RecordsOk(s0, s', now) && QueueOk(s', queue[1..], k) && time <= now &&
       CountFinished(s') == CountFinished(s) + (if s'[k].finished then 1 else 0) &&
       FinishedTotals(s') == (if s'[k].finished then Add(FinishedTotals(s), s'[k]) else FinishedTotals(s)) &&
       Remaining(s') + (|s'| - CountFinished(s')) < Remaining(s) + (|s| - CountFinished(s)))
  {
    var k := queue[0];
    SliceRecords(s0, s, k, time, quantum, s', now);
    SliceQueue(s, queue, s');
    SliceCounts(s, k, s'[k]);
  }

  lemma SliceRecords(s0: seq<Process>, s: seq<Process>, k: nat, time: int, quantum: int, s': seq<Process>, now: int)
    requires RecordsOk(s0, s, time) && k < |s| && !s[k].finished && (k == 0 || s[k].queued) && quantum > 0
    requires |s'| == |s| && s' == s[k := s'[k]] && (s'[k], now) == Slice(s[k], time, quantum)
    ensures RecordsOk(s0, s', now) && time <= now
  {
    assert RecordOk(s0[k], s[k], k, time);
    forall i | 0 <= i < |s'| ensures RecordOk(s0[i], s'[i], i, now) {
      assert RecordOk(s0[i], s[i], i, time);
    }
  }

  lemma SliceQueue(s: seq<Process>, queue: seq<nat>, s': seq<Process>)
    requires QueueOk(s, queue, -1) && queue != []
    requires var k := queue[0]; |s'| == |s| && s' == s[k := s'[k]] && s'[k].queued == s[k].queued
    ensures QueueOk(s', queue[1..], queue[0])
  {
    var k := queue[0];
    assert queue == [k] + queue[1..];
    forall b | 0 <= b < |queue| - 1 ensures queue[1..][b] != k {
      assert queue[b + 1] != queue[0];
    }
  }

  lemma SliceCounts(s: seq<Process>, k: nat, q: Process)
    requires k < |s| && !s[k].finished && s[k].rbt >= 0
    requires q.finished ==> q.rbt == 0
    requires !q.finished ==> 0 <= q.rbt < s[k].rbt
    ensures var s' := s[k := q];
      CountFinished(s') == CountFinished(s) + (if q.finished then 1 else 0) &&
      FinishedTotals(s') == (if q.finished then Add(FinishedTotals(s), q) else FinishedTotals(s)) &&
      Remaining(s') + (|s'| - CountFinished(s')) < Remaining(s) + (|s| - CountFinished(s))
  {
    RemainingUpdate(s, k, q);
    if q.finished {
      FinishOne(s, k, q);
    } else {
      TouchOne(s, k, q);
    }
  }

  /** The records after the arrival sweep at `time`: exactly the arriving records are flagged
      as queued. */
  function Sweep(s: seq<Process>, time: int): (s': seq<Process>)
    ensures |s'| == |s|
    ensures forall i :: 0 <= i < |s| ==> s'[i] == if Arriving(s, i, time) then s[i].(queued := true) else s[i]
  {
    seq(|s|, i requires 0 <= i < |s| => if Arriving(s, i, time) then s[i].(queued := true) else s[i])
  }

  /** The arrival sweep keeps every record in order. */
  lemma SweepRecords(s0: seq<Process>, s: seq<Process>, time: int, s': seq<Process>)
    requires RecordsOk(s0, s, time) && s' == Sweep(s, time)
    ensures RecordsOk(s0, s', time)
  {
    forall i | 0 <= i < |s'| ensures RecordOk(s0[i], s'[i], i, time) {
      assert RecordOk(s0[i], s[i], i, time);
    }
  }

  /** The arrival sweep appends the arriving records, which were not on the queue, so the
      queue stays free of repeats. */
  lemma SweepDistinct(s: seq<Process>, queue: seq<nat>, k: nat, time: int)
    requires QueueMembersOk(s, queue, k) && Distinct(queue) && (k < |s| && (k == 0 || s[k].queued))
    ensures var a := Arrivals(s, time, |s|);
      Distinct(queue + a) && forall b :: 0 <= b < |a| ==> a[b] != k && a[b] < |s| && Arriving(s, a[b], time)
  {
    var a := Arrivals(s, time, |s|);
    ArrivalsExactly(s, time, |s|);
    forall b | 0 <= b < |a| ensures a[b] !in queue && a[b] != k && a[b] < |s| && Arriving(s, a[b], time) {
      assert a[b] in a;
    }
    var q := queue + a;
    forall b, c | 0 <= b < c < |q| ensures q[b] != q[c] {
      if c >= |queue| && b < |queue| {
        assert q[c] == a[c - |queue|];
      } else if b >= |queue| {
        assert q[b] == a[b - |queue|] && q[c] == a[c - |queue|];
      }
    }
  }

  /** The arrival sweep appends the arriving records and flags them queued, keeping the queue in
      order. */
  lemma SweepQueue(s: seq<Process>, queue: seq<nat>, k: nat, time: int, s': seq<Process>)
    requires QueueOk(s, queue, k) && s' == Sweep(s, time)
    ensures QueueOk(s', queue + Arrivals(s, time, |s|), k)
  {
    var a := Arrivals(s, time, |s|);
    SweepDistinct(s, queue, k, time);
    var q := queue + a;
    forall b | 0 <= b < |q|
      ensures q[b] < |s'| && !s'[q[b]].finished && (q[b] == 0 || s'[q[b]].queued) && q[b] != k
    {
      if b >= |queue| {
        assert q[b] == a[b - |queue|];
      } else {
        assert q[b] == queue[b];
      }
    }
    forall i | 0 <= i < |s'| && i != k && !s'[i].finished && (i == 0 || s'[i].queued) ensures i in q {
      if !(i == 0 || s[i].queued) {
        ArrivalsExactly(s, time, |s|);
        assert Arriving(s, i, time);
        assert i in a;
      } else {
        assert i in queue;
      }
    }
  }

  /** Changing only the queued flags changes neither the finished count and sums nor the
      remaining work. */
  lemma {:induction false} QueuedOnly(s: seq<Process>, s': seq<Process>)
    requires |s'| == |s| && forall i :: 0 <= i < |s| ==> s'[i] == s[i].(queued := s'[i].queued)
    ensures CountFinished(s') == CountFinished(s) && FinishedTotals(s') == FinishedTotals(s)
    ensures Remaining(s') == Remaining(s)
  {
    if s != [] {
      var n := |s| - 1;
      QueuedOnly(s[..n], s'[..n]);
    }
  }

  /** Putting the current record back at the tail when it did not finish closes the turn's
      queue. */
  lemma AfterRequeue(s: seq<Process>, queue: seq<nat>, k: nat)
    requires QueueOk(s, queue, k)
    ensures QueueOk(s, if s[k].finished then queue else queue + [k], -1)
  {
    var q := if s[k].finished then queue else queue + [k];
    forall b | 0 <= b < |queue| ensures queue[b] != k {
    }
    assert Distinct(q);
    forall i | 0 <= i < |s| && !s[i].finished && (i == 0 || s[i].queued) ensures i in q {
      if i != k {
        assert i in queue;
      }
    }
  }

  /** The recovery of an empty queue: if it finds no record it is because every record is
      finished; otherwise the queue holds just the record it found and is in order again. */
  lemma AfterRefill(s0: seq<Process>, s: seq<Process>, queue: seq<nat>, time: int, s': seq<Process>, q: seq<nat>)
    requires RecordsOk(s0, s, time) && QueueOk(s, queue, -1) && |s| >= 1
    requires (s', q) == Refilled(s, queue)
    ensures RecordsOk(s0, s', time) && QueueOk(s', q, -1)
    ensures CountFinished(s') == CountFinished(s) && FinishedTotals(s') == FinishedTotals(s)
    ensures Remaining(s') == Remaining(s)
    ensures CountFinished(s') < |s'| ==> q != []
  {
    var j := FirstUnfinished(s, 1);
    if queue == [] && j == |s| {
      RefillNone(s);
    } else if queue == [] {
      RefillOne(s0, s, time, j, s');
      QueuedOnly(s, s');
    }
  }

  /** With the queue empty and every record after the first finished, every record is
      finished: the first one, unfinished, would be on the queue. */
  lemma RefillNone(s: seq<Process>)
    requires QueueOk(s, [], -1) && |s| >= 1 && forall j :: 1 <= j < |s| ==> s[j].finished
    ensures CountFinished(s) == |s|
  {
    assert s[0].finished by {
      assert QueueComplete(s, [], -1);
    }
    CountFinishedFull(s);
  }

  /** With the queue empty, enqueuing one unfinished record after the first and flagging it
      queued puts the queue back in order: no other unfinished record was flagged. */
  lemma RefillOne(s0: seq<Process>, s: seq<Process>, time: int, j: nat, s': seq<Process>)
    requires RecordsOk(s0, s, time) && QueueOk(s, [], -1)
    requires 1 <= j < |s| && !s[j].finished && s' == s[j := s[j].(queued := true)]
    ensures RecordsOk(s0, s', time) && QueueOk(s', [j], -1)
  {
    assert QueueComplete(s, [], -1);
    forall i | 0 <= i < |s'| ensures RecordOk(s0[i], s'[i], i, time) {
      assert RecordOk(s0[i], s[i], i, time);
    }
    assert forall i :: 0 <= i < |s'| && i != j ==> s'[i] == s[i];
  }

  /** The first unfinished record at or after `from`, or |s| when there is none. */
  function FirstUnfinished(s: seq<Process>, from: nat): (j: nat)
    requires from <= |s|
    ensures from <= j <= |s| && (j < |s| ==> !s[j].finished)
    ensures forall i :: from <= i < j ==> s[i].finished
    decreases |s| - from
  {
    if from == |s| || !s[from].finished then from else FirstUnfinished(s, from + 1)
  }

  /** The recovery of an empty queue, giving the records and the queue afterwards: a
      non-empty queue is left alone; an empty one gets the first unfinished record after the
      first, flagged as queued, if there is one. */
  function Refilled(s: seq<Process>, queue: seq<nat>): (seq<Process>, seq<nat>)
    requires |s| >= 1
  {
    if queue != [] then (s, queue)
    else
      var j := FirstUnfinished(s, 1);
      if j == |s| then (s, []) else (s[j := s[j].(queued := true)], [j])
  }

  /** The end of the turn of record k, which has run and left the clock at `now`, with `rest`
      the queue behind it: the arrival sweep appends the arrivals, then k goes back to the
      tail if it did not finish, then an empty queue is refilled. */
  function EndOfTurn(s: seq<Process>, rest: seq<nat>, k: nat, now: int): (seq<Process>, seq<nat>)
    requires k < |s|
  {
    var swept := Sweep(s, now);
    Refilled(swept, rest + Arrivals(s, now, |s|) + (if swept[k].finished then [] else [k]))
  }

  /** The end of a turn, step by step: sweep and re-queue, then refill. */
  lemma EndOfTurnSteps(s: seq<Process>, rest: seq<nat>, k: nat, now: int,
                       swept: seq<Process>, q: seq<nat>, s': seq<Process>, q': seq<nat>)
    requires k < |s| && swept == Sweep(s, now)
    requires q == rest + Arrivals(s, now, |s|) + (if swept[k].finished then [] else [k])
    requires (s', q') == Refilled(swept, q)
    ensures (s', q') == EndOfTurn(s, rest, k, now)
  {
  }

  /** What the engine's loop works on: the records, the ready queue and the clock. */
  datatype RrState = RrState(records: seq<Process>, queue: seq<nat>, clock: int)

  /** One turn of the engine: the head of the queue is taken off and runs one slice, then the
      turn ends as `EndOfTurn` says. */
  function NextTurn(quantum: int, a: RrState): RrState
    requires a.queue != [] && a.queue[0] < |a.records|
  {
    var k := a.queue[0];
    var (p, now) := Slice(a.records[k], a.clock, quantum);
    var (s, q) := EndOfTurn(a.records[k := p], a.queue[1..], k, now);
    RrState(s, q, now)
  }

  /** Turn t of a run: some record was still unfinished, so the loop went round again, and
      state t + 1 is the engine's turn from state t. */
  ghost predicate TurnAt(quantum: int, states: seq<RrState>, t: nat)
    requires t + 1 < |states|
  {
    CountFinished(states[t].records) < |states[t].records| &&
    states[t].queue != [] && states[t].queue[0] < |states[t].records| &&
    states[t + 1] == NextTurn(quantum, states[t])
  }

  /** A whole run of the loop from the records `s0`: clock 0 with only the first record
      queued, one engine turn per step while some record is unfinished, and every record
      finished at the end. */
  ghost predicate RrRun(quantum: int, s0: seq<Process>, states: seq<RrState>)
  {
    |states| >= 1 && states[0] == RrState(s0, [0], 0) &&
    (forall t :: 0 <= t < |states| - 1 ==> TurnAt(quantum, states, t)) &&
    AllFinished(states[|states| - 1].records)
  }

  predicate AllFinished(s: seq<Process>)
  {
    forall i :: 0 <= i < |s| ==> s[i].finished
  }

  /** Appending the state a turn leads to extends the turns of a run. */
  lemma RunExtend(quantum: int, states: seq<RrState>, b: RrState)
    requires |states| >= 1 && forall t :: 0 <= t < |states| - 1 ==> TurnAt(quantum, states, t)
    requires var a := states[|states| - 1];
      CountFinished(a.records) < |a.records| && a.queue != [] && a.queue[0] < |a.records| &&
      b == NextTurn(quantum, a)
    ensures forall t :: 0 <= t < |states| ==> TurnAt(quantum, states + [b], t)
  {
    var states' := states + [b];
    forall t | 0 <= t < |states| ensures TurnAt(quantum, states', t) {
      if t < |states| - 1 {
        assert TurnAt(quantum, states, t);
      }
      assert states'[t] == states[t] && states'[t + 1] == (if t + 1 < |states| then states[t + 1] else b);
    }
  }

  /** The Round-Robin engine, owning its copy of the records, with a fixed quantum. */
  class RrScheduler {
    var procs: array<Process>
    var quantum: int

    constructor (processes: seq<Process>, quantum: int)
      ensures fresh(procs) && procs[..] == processes && this.quantum == quantum
    {
      procs := new Process[|processes|](i requires 0 <= i < |processes| => processes[i]);
      this.quantum := quantum;
    }

    /** Runs record k for one turn from clock `time`; returns the clock afterwards. */
    method RunSlice(k: nat, time: int) returns (now: int)
      requires k < procs.Length
      modifies procs
      ensures procs[..] == old(procs[..])[k := procs[k]]
      ensures (procs[k], now) == Slice(old(procs[k]), time, quantum)
    {
      now := time;
      var curr := procs[k];
      if curr.rbt == curr.bt {
        curr := curr.(st := Max(now, curr.at));
        now := curr.st;
      }
      if curr.rbt - quantum > 0 {
        curr := curr.(rbt := curr.rbt - quantum);
        now := now + quantum;
      } else {
        now := now + curr.rbt;
        curr := curr.(ct := now);
        curr := curr.(tt := curr.ct - curr.at, rt := curr.st - curr.at);
        curr := curr.(wt := curr.tt - curr.bt);
        curr := curr.(rbt := 0, finished := true);
      }
      procs[k] := curr;
    }

    /** The arrival sweep at `time`: scans the records after the first in list order and
        enqueues, and flags as queued, each one that is neither queued nor finished and has
        arrived. */
    method EnqueueArrivals(queue: seq<nat>, time: int) returns (q: seq<nat>)
      requires procs.Length >= 1
      modifies procs
      ensures q == queue + Arrivals(old(procs[..]), time, procs.Length)
      ensures procs[..] == Sweep(old(procs[..]), time)
    {
      q := queue;
      var i := 1;
      while i < procs.Length
        invariant 1 <= i <= procs.Length
        invariant q == queue + Arrivals(old(procs[..]), time, i)
        invariant forall j :: 0 <= j < procs.Length ==>
          procs[j] == if j < i && Arriving(old(procs[..]), j, time) then old(procs[j]).(queued := true) else old(procs[j])
      {
        if !(procs[i].queued || procs[i].finished) && procs[i].at <= time {
          q := q + [i];
          procs[i] := procs[i].(queued := true);
        }
        i := i + 1;
      }
    }

    /** When the queue has run empty, enqueues, and flags as queued, the first unfinished
        record after the first one in list order, if there is one. */
    method Refill(queue: seq<nat>) returns (q: seq<nat>)
      requires procs.Length >= 1
      modifies procs
      ensures (procs[..], q) == Refilled(old(procs[..]), queue)
    {
      q := queue;
      if queue != [] {
        return;
      }
      var i := 1;
      while i < procs.Length
        invariant 1 <= i <= procs.Length
        invariant forall j :: 1 <= j < i ==> procs[j].finished
        invariant procs[..] == old(procs[..])
        invariant FirstUnfinished(procs[..], i) == FirstUnfinished(procs[..], 1)
      {
        if !procs[i].finished {
          q := [i];
          procs[i] := procs[i].(queued := true);
          return;
        }
        i := i + 1;
      }
    }

    /** Sorts the records by arrival and runs the ready queue, seeded with the first record,
        until every record is finished; returns the sums of the three metrics (the source
        divides them by the number of records). */
    method Start() returns (totals: Totals, ghost states: seq<RrState>)
      requires quantum > 0
      requires forall i :: 0 <= i < procs.Length ==> Runnable(procs[i])
      modifies procs
      ensures |states| >= 1 && RrRun(quantum, states[0].records, states)
      ensures ArrivalSorted(states[0].records) && multiset(states[0].records) == multiset(old(procs[..]))
      ensures states[|states| - 1].records == procs[..]
      ensures ArrivalSorted(procs[..])
      ensures multiset(Jobs(procs[..])) == multiset(Jobs(old(procs[..])))
      ensures forall i :: 0 <= i < procs.Length ==>
        procs[i].finished && procs[i].rbt == 0 && Accounted(procs[i]) &&
        procs[i].at <= procs[i].st && procs[i].st + procs[i].bt <= procs[i].ct
      ensures totals == TotalsOf(procs[..])
    {
      SortByArrival(procs);
      ghost var sorted := procs[..];
      JobsPermutation(sorted, old(procs[..]));
      RunnablePermuted(sorted, old(procs[..]));
      var time;
      time, totals, states := RunQueue(sorted);
      AfterRun(sorted, procs[..], time);
      AllFinishedTotals(procs[..]);
      assert Jobs(procs[..]) == Jobs(sorted);
    }

    /** The loop of the engine: turns until every record is finished, from clock 0 with only
        the first record queued. Returns the final clock and the sums of the metrics. */
    method RunQueue(ghost s0: seq<Process>) returns (time: int, totals: Totals, ghost states: seq<RrState>)
      requires quantum > 0 && procs[..] == s0
      requires forall i :: 0 <= i < procs.Length ==> Runnable(procs[i])
      modifies procs
      ensures RrRun(quantum, s0, states)
      ensures states[|states| - 1].records == procs[..] && states[|states| - 1].clock == time
      ensures procs.Length == 0 || RecordsOk(s0, procs[..], time)
      ensures forall i :: 0 <= i < procs.Length ==> procs[i].finished
      ensures totals == FinishedTotals(procs[..])
    {
      var n := procs.Length;
      totals := Totals(0, 0, 0);
      time := 0;
      var queue: seq<nat> := [0];
      var finishedCount: nat := 0;
      states := [RrState(s0, queue, time)];
      if n > 0 {
        InvariantInitially(s0);
      } else {
        assert procs[..] == [];
      }
      while finishedCount < n
        invariant n == procs.Length
        invariant n == 0 || RrInvariant(s0, procs[..], queue, time, finishedCount, totals)
        invariant n == 0 ==> totals == Totals(0, 0, 0)
        invariant |states| >= 1 && states[0] == RrState(s0, [0], 0)
        invariant states[|states| - 1] == RrState(procs[..], queue, time)
        invariant forall t :: 0 <= t < |states| - 1 ==> TurnAt(quantum, states, t)
        decreases Remaining(procs[..]) + (n - finishedCount)
      {
        queue, time, finishedCount, totals := Turn(s0, queue, time, finishedCount, totals);
        RunExtend(quantum, states, RrState(procs[..], queue, time));
        states := states + [RrState(procs[..], queue, time)];
      }
      if n > 0 {
        CountFinishedFull(procs[..]);
      } else {
        assert procs[..] == [];
      }
    }

    /** One iteration of the engine's loop: the head of the queue runs one turn, then the
        queue is brought up to date. The invariant is kept and the remaining work plus the
        number of unfinished records drops. */
    method Turn(ghost s0: seq<Process>, queue: seq<nat>, time: int, finishedCount: nat, totals: Totals)
      returns (queue': seq<nat>, time': int, finishedCount': nat, totals': Totals)
      requires quantum > 0 && procs.Length > 0 && finishedCount < procs.Length
      requires RrInvariant(s0, procs[..], queue, time, finishedCount, totals)
      modifies procs
      ensures queue != [] && queue[0] < procs.Length
      ensures RrState(procs[..], queue', time') == NextTurn(quantum, RrState(old(procs[..]), queue, time))
      ensures RrInvariant(s0, procs[..], queue', time', finishedCount', totals')
      ensures Remaining(procs[..]) + (procs.Length - finishedCount') < old(Remaining(procs[..])) + (procs.Length - finishedCount)
    {
      var k, rest;
      k, rest, time', finishedCount', totals' := Dispatch(s0, queue, time, finishedCount, totals);
      queue' := UpdateQueue(s0, k, rest, time', finishedCount', totals');
    }

    /** Takes the head off the queue and runs it one turn, adding it to the finished count and
        sums if it finished. */
    method Dispatch(ghost s0: seq<Process>, queue: seq<nat>, time: int, finishedCount: nat, totals: Totals)
      returns (k: nat, rest: seq<nat>, time': int, finishedCount': nat, totals': Totals)
      requires quantum > 0 && procs.Length > 0 && finishedCount < procs.Length
      requires RrInvariant(s0, procs[..], queue, time, finishedCount, totals)
      modifies procs
      ensures k == queue[0] && rest == queue[1..] && k < procs.Length
      ensures procs[..] == old(procs[..])[k := procs[k]] && (procs[k], time') == Slice(old(procs[k]), time, quantum)
      ensures MidTurn(s0, procs[..], rest, k, time', finishedCount', totals')
      ensures Remaining(procs[..]) + (procs.Length - finishedCount') < old(Remaining(procs[..])) + (procs.Length - finishedCount)
    {
      ghost var s1 := procs[..];
      k := queue[0];
      rest := queue[1..];
      time' := RunSlice(k, time);
      AfterSlice(s0, s1, queue, time, quantum, procs[..], time');
      finishedCount', totals' := finishedCount, totals;
      if procs[k].finished {
        totals' := Add(totals, procs[k]);
        finishedCount' := finishedCount + 1;
      }
    }

    /** After the turn of record k: the arrival sweep, then k back to the tail if it did not
        finish, then the recovery of an empty queue. */
    method UpdateQueue(ghost s0: seq<Process>, k: nat, queue: seq<nat>, time: int, finishedCount: nat, totals: Totals)
      returns (queue': seq<nat>)
      requires procs.Length > 0 && MidTurn(s0, procs[..], queue, k, time, finishedCount, totals)
      modifies procs
      ensures (procs[..], queue') == EndOfTurn(old(procs[..]), queue, k, time)
      ensures RrInvariant(s0, procs[..], queue', time, finishedCount, totals)
      ensures Remaining(procs[..]) == old(Remaining(procs[..]))
    {
      ghost var s2 := procs[..];
      var q := Requeue(s0, k, queue, time, finishedCount, totals);
      ghost var s3 := procs[..];
      queue' := Refill(q);
      AfterRefill(s0, s3, q, time, procs[..], queue');
      EndOfTurnSteps(s2, queue, k, time, s3, q, procs[..], queue');
    }

    /** The arrival sweep after the turn of record k, then k back to the tail if it did not
        finish. */
    method Requeue(ghost s0: seq<Process>, k: nat, queue: seq<nat>, time: int, finishedCount: nat, totals: Totals)
      returns (queue': seq<nat>)
      requires procs.Length > 0 && MidTurn(s0, procs[..], queue, k, time, finishedCount, totals)
      modifies procs
      ensures k < procs.Length && procs[..] == Sweep(old(procs[..]), time)
      ensures queue' == queue + Arrivals(old(procs[..]), time, procs.Length) + (if procs[k].finished then [] else [k])
      ensures RecordsOk(s0, procs[..], time) && QueueOk(procs[..], queue', -1)
      ensures finishedCount == CountFinished(procs[..]) && totals == FinishedTotals(procs[..])
      ensures Remaining(procs[..]) == old(Remaining(procs[..]))
    {
      ghost var s2 := procs[..];
      queue' := EnqueueArrivals(queue, time);
      SweepRecords(s0, s2, time, procs[..]);
      SweepQueue(s2, queue, k, time, procs[..]);
      QueuedOnly(s2, procs[..]);
      ghost var q3 := queue';
      if !procs[k].finished {
        queue' := queue' + [k];
      }
      AfterRequeue(procs[..], q3, k);
    }
  }

  /** What holds in the middle of a turn, once record `cur` has been taken off the queue and
      has run. */
  ghost predicate MidTurn(s0: seq<Process>, s: seq<Process>, queue: seq<nat>, cur: nat, time: int, finished: nat, totals: Totals)
  {
    RecordsOk(s0, s, time) && QueueOk(s, queue, cur) &&
    finished == CountFinished(s) && totals == FinishedTotals(s)
  }

  /** Sorting keeps every record runnable. */
  lemma RunnablePermuted(s: seq<Process>, t: seq<Process>)
    requires multiset(s) == multiset(t) && forall i :: 0 <= i < |t| ==> Runnable(t[i])
    ensures forall i :: 0 <= i < |s| ==> Runnable(s[i])
  {
    forall i | 0 <= i < |s| ensures Runnable(s[i]) {
      assert s[i] in multiset(t);
    }
  }

  /** When the loop ends every record is finished: each keeps its job, has used all its
      burst and carries its metrics, and ran from its start, at or after its arrival, for at
      least its burst. */
  lemma AfterRun(s0: seq<Process>, s: seq<Process>, time: int)
    requires |s| == |s0|
    requires |s0| > 0 ==> RecordsOk(s0, s, time)
    requires forall i :: 0 <= i < |s| ==> s[i].finished
    ensures Jobs(s) == Jobs(s0)
    ensures ArrivalSorted(s0) ==> ArrivalSorted(s)
    ensures forall i :: 0 <= i < |s| ==>
      s[i].rbt == 0 && Accounted(s[i]) && s[i].at <= s[i].st && s[i].st + s[i].bt <= s[i].ct
  {
    forall i | 0 <= i < |s|
      ensures JobOf(s[i]) == JobOf(s0[i]) &&
        s[i].rbt == 0 && Accounted(s[i]) && s[i].at <= s[i].st && s[i].st + s[i].bt <= s[i].ct
    {
      assert RecordOk(s0[i], s[i], i, time);
    }
    SameJobs(s, s0);
  }
}
