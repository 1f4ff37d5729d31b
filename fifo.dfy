/** First-in first-out page replacement: a hit changes nothing; a miss evicts the page that
    has been in the frame longest when the frame is full, then appends the reference. */
module Fifo {
  import opened Frames

  /** The frame after reference r meets `frame`. */
  function FifoStep(capacity: nat, frame: seq<Page>, r: Page): (f: seq<Page>)
    requires capacity >= 1
    ensures r in f
    ensures forall y :: y in f ==> y in frame || y == r
    ensures r in frame ==> f == frame
    ensures |frame| <= capacity && NoDuplicates(frame) ==> |f| <= capacity && NoDuplicates(f)
  {
    if r in frame then frame
    else (if |frame| >= capacity then frame[1..] else frame) + [r]
  }

  /** `frames` is the run of the policy over `refs` from an empty frame. */
  ghost predicate FifoTrace(capacity: nat, refs: seq<Page>, frames: seq<seq<Page>>)
  {
    capacity >= 1 && |frames| == |refs| + 1 && frames[0] == [] &&
    forall t :: 0 <= t < |refs| ==> FifoStepAt(capacity, refs, frames, t)
  }

  /** Reference t takes frames[t] to frames[t + 1]. */
  ghost predicate FifoStepAt(capacity: nat, refs: seq<Page>, frames: seq<seq<Page>>, t: nat)
    requires capacity >= 1 && t < |refs| && t + 1 < |frames|
  {
    frames[t + 1] == FifoStep(capacity, frames[t], refs[t])
  }

  /** Counts the page faults of the policy with `capacity` frames over `references`; `frames`
      is the run the loop goes through. */
  method Fifo(capacity: nat, references: seq<Page>) returns (faults: nat, ghost frames: seq<seq<Page>>)
    requires capacity >= 1
    ensures FifoTrace(capacity, references, frames)
    ensures faults == Misses(references, frames, |references|)
    ensures |Elems(references)| <= faults <= |references|
  {
    faults := 0;
    var frame: seq<Page> := [];
    frames := [[]];
    var i := 0;
    while i < |references|
      invariant i <= |references|
      invariant |frames| == i + 1 && frames[0] == [] && frames[i] == frame
      invariant forall t :: 0 <= t < i ==> FifoStepAt(capacity, references, frames, t)
      invariant faults == Misses(references, frames, i)
    {
      var reference := references[i];
      var k := Find(frame, reference);
      if k == |frame| {
        if |frame| >= capacity {
          frame := frame[1..];
        }
        frame := frame + [reference];
        faults := faults + 1;
      }
      MissesStep(references, frames, frame, i);
      ghost var before := frames;
      frames := frames + [frame];
      forall t | 0 <= t <= i ensures FifoStepAt(capacity, references, frames, t) {
        if t < i {
          assert FifoStepAt(capacity, references, before, t);
          assert frames[t] == before[t] && frames[t + 1] == before[t + 1];
        }
      }
      i := i + 1;
    }
    FifoFaultBounds(capacity, references, frames);
  }

  /** A run holds each reference once it is made, brings in nothing else, and keeps the frame
      within capacity and free of repeats. */
  lemma {:induction false} FifoReplays(capacity: nat, refs: seq<Page>, frames: seq<seq<Page>>)
    requires FifoTrace(capacity, refs, frames)
    ensures Replays(refs, frames) && Bounded(capacity, frames)
  {
    forall t | 0 <= t < |frames| ensures |frames[t]| <= capacity && NoDuplicates(frames[t]) {
      FifoBoundedAt(capacity, refs, frames, t);
    }
    forall t | 0 <= t < |refs|
      ensures refs[t] in frames[t + 1] && forall y :: y in frames[t + 1] ==> y in frames[t] || y == refs[t]
    {
      assert FifoStepAt(capacity, refs, frames, t);
    }
  }

  lemma {:induction false} FifoBoundedAt(capacity: nat, refs: seq<Page>, frames: seq<seq<Page>>, t: nat)
    requires FifoTrace(capacity, refs, frames) && t < |frames|
    ensures |frames[t]| <= capacity && NoDuplicates(frames[t])
  {
    if t > 0 {
      FifoBoundedAt(capacity, refs, frames, t - 1);
      assert FifoStepAt(capacity, refs, frames, t - 1);
    }
  }

  /** First in, first out: the frame is always the last `capacity` pages that missed, in the
      order they were brought in, so a miss on a full frame evicts the earliest of them. */
  lemma {:induction false} FifoKeepsLastMissed(capacity: nat, refs: seq<Page>, frames: seq<seq<Page>>, t: nat)
    requires FifoTrace(capacity, refs, frames) && t <= |refs|
    ensures frames[t] == Last(MissedPages(refs, frames, t), capacity)
  {
    if t > 0 {
      FifoKeepsLastMissed(capacity, refs, frames, t - 1);
      assert FifoStepAt(capacity, refs, frames, t - 1);
      MissedStep(capacity, refs, frames, t - 1);
    }
  }

  lemma MissedStep(capacity: nat, refs: seq<Page>, frames: seq<seq<Page>>, t: nat)
    requires capacity >= 1 && t < |refs| && t + 1 < |frames|
    requires frames[t] == Last(MissedPages(refs, frames, t), capacity)
    requires FifoStepAt(capacity, refs, frames, t)
    ensures frames[t + 1] == Last(MissedPages(refs, frames, t + 1), capacity)
  {
    var r, m := refs[t], MissedPages(refs, frames, t);
    assert MissedPages(refs, frames, t + 1) == if r in frames[t] then m else m + [r];
    WindowStep(capacity, m, r);
  }

  /** One step of the policy on the window of the last `capacity` misses is the window of the
      misses with this reference's added if it missed. */
  lemma WindowStep(capacity: nat, m: seq<Page>, r: Page)
    requires capacity >= 1
    ensures var w := Last(m, capacity);
      FifoStep(capacity, w, r) == Last(if r in w then m else m + [r], capacity)
  {
    if r !in Last(m, capacity) {
      LastAppend(m, r, capacity);
    }
  }

  /** Appending to a sequence moves its window of the last k elements on by one once the
      window is full. */
  lemma LastAppend(m: seq<Page>, r: Page, k: nat)
    requires k >= 1
    ensures Last(m + [r], k) == (if |Last(m, k)| >= k then Last(m, k)[1..] else Last(m, k)) + [r]
  {
    var m' := m + [r];
    if |m| >= k {
      assert m'[|m'| - k..] == m[|m| - k..][1..] + [r];
    }
  }

  /** Over a whole run: the frame stays within capacity and free of repeats, and the fault
      count lies between the number of distinct pages referenced and the number of
      references. */
  lemma FifoFaultBounds(capacity: nat, refs: seq<Page>, frames: seq<seq<Page>>)
    requires FifoTrace(capacity, refs, frames)
    ensures Bounded(capacity, frames)
    ensures |Elems(refs)| <= Misses(refs, frames, |refs|) <= |refs|
  {
    FifoReplays(capacity, refs, frames);
    RunFaultBounds(refs, frames);
  }
}
