/** Optimal (Belady) page replacement: a hit changes nothing; a miss fills a free frame slot,
    or else overwrites, in place, the slot of a page whose next use lies farthest ahead. */
module Opt {
  import opened Frames

  /** How far ahead a page is next used: a number of references, or never. */
  datatype Dist = At(d: nat) | Never

  predicate DistLe(a: Dist, b: Dist)
  {
    b.Never? || (a.At? && a.d <= b.d)
  }

  /** The distance from position `from` to the first use of page p at or after it. */
  function Distance(refs: seq<Page>, from: nat, p: Page): (d: Dist)
    decreases |refs| - from
    ensures d.At? ==>
      (from + d.d < |refs| && refs[from + d.d] == p && forall j :: from <= j < from + d.d ==> refs[j] != p)
    ensures d.Never? ==> forall j :: from <= j < |refs| ==> refs[j] != p
  {
    if from >= |refs| then Never
    else if refs[from] == p then At(0)
    else match Distance(refs, from + 1, p)
      case Never => Never
      case At(d) => At(d + 1)
  }

  /** Slot k of the frame holds a page whose next use, from position t, is at least as far
      ahead as that of every page in the frame. */
  ghost predicate Farthest(refs: seq<Page>, t: nat, frame: seq<Page>, k: nat)
  {
    k < |frame| &&
    forall j :: 0 <= j < |frame| ==> DistLe(Distance(refs, t, frame[j]), Distance(refs, t, frame[k]))
  }

  /** What reference t may do to `frame`, giving `next`: nothing on a hit; on a miss, append
      when the frame has room, and otherwise overwrite the slot of a farthest page (which one
      among equally far pages is left open). */
  ghost predicate OptStepOk(capacity: nat, frame: seq<Page>, refs: seq<Page>, t: nat, next: seq<Page>)
    requires t < |refs|
  {
    var r := refs[t];
    if r in frame then next == frame
    else if |frame| < capacity then next == frame + [r]
    else exists k: nat :: Farthest(refs, t, frame, k) && next == frame[k := r]
  }

  /** Reference t takes frames[t] to frames[t + 1] as the policy may. */
  ghost predicate OptStepAt(capacity: nat, refs: seq<Page>, frames: seq<seq<Page>>, t: nat)
    requires t < |refs| && t + 1 < |frames|
  {
    OptStepOk(capacity, frames[t], refs, t, frames[t + 1])
  }

  /** `frames` is a run of the policy over `refs` from an empty frame. */
  ghost predicate OptTrace(capacity: nat, refs: seq<Page>, frames: seq<seq<Page>>)
  {
    capacity >= 1 && |frames| == |refs| + 1 && frames[0] == [] &&
    forall t :: 0 <= t < |refs| ==> OptStepAt(capacity, refs, frames, t)
  }

  /** Counts the page faults of the policy with `capacity` frames over `references`; `frames`
      is the run the loop goes through. */
  method Opt(capacity: nat, references: seq<Page>) returns (faults: nat, ghost frames: seq<seq<Page>>)
    requires capacity >= 1
    ensures OptTrace(capacity, references, frames)
    ensures faults == Misses(references, frames, |references|)
    ensures |Elems(references)| <= faults <= |references|
  {
    faults := 0;
    var frame: seq<Page> := [];
    frames := [[]];
    var i := 0;
    while i < |references|
      invariant i <= |references|
      invariant |frames| == i + 1 && frames[0] == [] && frames[i] == frame
      invariant forall t :: 0 <= t < i ==> OptStepAt(capacity, references, frames, t)
      invariant faults == Misses(references, frames, i)
    {
      var reference := references[i];
      var k := Find(frame, reference);
      if k == |frame| {
        if |frame| < capacity {
          frame := frame + [reference];
        } else {
          var slot := FarthestSlot(frame, references, i);
          frame := frame[slot := reference];
          assert Farthest(references, i, frames[i], slot) && frame == frames[i][slot := reference];
        }
        faults := faults + 1;
      }
      assert OptStepOk(capacity, frames[i], references, i, frame);
      MissesStep(references, frames, frame, i);
      ghost var before := frames;
      frames := frames + [frame];
      forall t | 0 <= t <= i ensures OptStepAt(capacity, references, frames, t) {
        if t < i {
          assert OptStepAt(capacity, references, before, t);
          assert frames[t] == before[t] && frames[t + 1] == before[t + 1];
        }
      }
      i := i + 1;
    }
    OptFaultBounds(capacity, references, frames);
  }

  /** The slot to overwrite on a miss at position `start` with a full frame: the distances of
      the frame's pages are collected in a map, a page of greatest distance is taken from it
      (the map's order, which decides among pages never used again, is not specified), and
      its slot is found. */
  method FarthestSlot(frame: seq<Page>, references: seq<Page>, start: nat) returns (slot: nat)
    requires |frame| >= 1 && start <= |references|
    ensures Farthest(references, start, frame, slot)
  {
    var distances := PageDistances(frame, references, start);
    var best := FarthestExists(references, start, frame);
    assert frame[best] in distances;
    forall q | q in distances ensures DistLe(distances[q], distances[frame[best]]) {
      assert q in Elems(frame);
      var j :| 0 <= j < |frame| && frame[j] == q;
    }
    var victim :| victim in distances && forall q :: q in distances ==> DistLe(distances[q], distances[victim]);
    assert victim in Elems(frame);
    slot := Find(frame, victim);
    forall j | 0 <= j < |frame| ensures DistLe(Distance(references, start, frame[j]), Distance(references, start, frame[slot])) {
      assert frame[j] in distances;
    }
  }

  /** The map from each page in the frame to the distance to its next use from `start`. */
  method PageDistances(frame: seq<Page>, references: seq<Page>, start: nat) returns (distances: map<Page, Dist>)
    requires start <= |references|
    ensures distances.Keys == Elems(frame)
    ensures forall p :: p in distances ==> distances[p] == Distance(references, start, p)
  {
    distances := map[];
    var j := 0;
    while j < |frame|
      invariant j <= |frame|
      invariant distances.Keys == Elems(frame[..j])
      invariant forall p :: p in distances ==> distances[p] == Distance(references, start, p)
    {
      var d := NextUse(references, start, frame[j]);
      distances := distances[frame[j] := d];
      assert frame[..j + 1] == frame[..j] + [frame[j]];
      j := j + 1;
    }
    assert frame[..j] == frame;
  }

  /** Scans forward from `start` for the first use of `page`. */
  method NextUse(references: seq<Page>, start: nat, page: Page) returns (distance: Dist)
    requires start <= |references|
    ensures distance == Distance(references, start, page)
  {
    distance := Never;
    var e := start;
    while e < |references|
      invariant start <= e <= |references|
      invariant forall j :: start <= j < e ==> references[j] != page
    {
      if references[e] == page {
        distance := At(e - start);
        DistanceIsFirstUse(references, start, page, e);
        return;
      }
      e := e + 1;
    }
    DistanceNever(references, start, page);
  }

  /** The distance is that of the first use. */
  lemma DistanceIsFirstUse(refs: seq<Page>, from: nat, p: Page, e: nat)
    requires from <= e < |refs| && refs[e] == p && forall j :: from <= j < e ==> refs[j] != p
    ensures Distance(refs, from, p) == At(e - from)
  {
  }

  lemma DistanceNever(refs: seq<Page>, from: nat, p: Page)
    requires from <= |refs| && forall j :: from <= j < |refs| ==> refs[j] != p
    ensures Distance(refs, from, p) == Never
  {
  }

  /** Every nonempty frame has a slot whose page is used farthest ahead. */
  lemma {:induction false} FarthestExists(refs: seq<Page>, t: nat, frame: seq<Page>) returns (k: nat)
    requires |frame| >= 1
    ensures Farthest(refs, t, frame, k)
  {
    if |frame| == 1 {
      k := 0;
    } else {
      var pre := frame[..|frame| - 1];
      var k' := FarthestExists(refs, t, pre);
      var n := |frame| - 1;
      if DistLe(Distance(refs, t, frame[n]), Distance(refs, t, pre[k'])) {
        k := k';
        forall j | 0 <= j < |frame| ensures DistLe(Distance(refs, t, frame[j]), Distance(refs, t, frame[k])) {
          if j < n {
            assert frame[j] == pre[j];
          }
        }
      } else {
        k := n;
        forall j | 0 <= j < |frame| ensures DistLe(Distance(refs, t, frame[j]), Distance(refs, t, frame[k])) {
          if j < n {
            assert frame[j] == pre[j];
            assert DistLe(Distance(refs, t, pre[j]), Distance(refs, t, pre[k']));
          }
        }
      }
    }
  }

  lemma {:induction false} OptBoundedAt(capacity: nat, refs: seq<Page>, frames: seq<seq<Page>>, t: nat)
    requires OptTrace(capacity, refs, frames) && t < |frames|
    ensures |frames[t]| <= capacity && NoDuplicates(frames[t])
  {
    if t > 0 {
      OptBoundedAt(capacity, refs, frames, t - 1);
      var f, r := frames[t - 1], refs[t - 1];
      assert OptStepAt(capacity, refs, frames, t - 1);
      if r !in f && |f| >= capacity {
        var k: nat :| Farthest(refs, t - 1, f, k) && frames[t] == f[k := r];
        forall i, j | 0 <= i < j < |frames[t]| ensures frames[t][i] != frames[t][j] {
          if i != k && j != k {
            assert frames[t][i] == f[i] && frames[t][j] == f[j];
          } else if i == k {
            assert frames[t][j] == f[j];
          } else {
            assert frames[t][i] == f[i];
          }
        }
      }
    }
  }

  /** A run holds each reference once it is made, brings in nothing else, and keeps the frame
      within capacity and free of repeats. */
  lemma OptReplays(capacity: nat, refs: seq<Page>, frames: seq<seq<Page>>)
    requires OptTrace(capacity, refs, frames)
    ensures Replays(refs, frames) && Bounded(capacity, frames)
  {
    forall t | 0 <= t < |frames| ensures |frames[t]| <= capacity && NoDuplicates(frames[t]) {
      OptBoundedAt(capacity, refs, frames, t);
    }
    forall t | 0 <= t < |refs|
      ensures refs[t] in frames[t + 1] && forall y :: y in frames[t + 1] ==> y in frames[t] || y == refs[t]
    {
      var f, r := frames[t], refs[t];
      assert OptStepAt(capacity, refs, frames, t);
      if r !in f && |f| >= capacity {
        var k: nat :| Farthest(refs, t, f, k) && frames[t + 1] == f[k := r];
        assert frames[t + 1][k] == r;
        forall x | x in frames[t + 1] ensures x in f || x == r {
          var i :| 0 <= i < |frames[t + 1]| && frames[t + 1][i] == x;
          if i != k {
            assert f[i] == x;
          }
        }
      }
    }
  }

  /** On a miss with a full frame, a page never used again is evicted whenever the frame
      holds one, and otherwise the page evicted is used again no sooner than any other. */
  lemma OptEvictsFarthest(capacity: nat, refs: seq<Page>, frames: seq<seq<Page>>, t: nat, p: Page)
    requires OptTrace(capacity, refs, frames) && t < |refs|
    requires refs[t] !in frames[t] && |frames[t]| >= capacity && p in frames[t]
    ensures exists k :: (0 <= k < |frames[t]| && frames[t + 1] == frames[t][k := refs[t]] &&
                         DistLe(Distance(refs, t, p), Distance(refs, t, frames[t][k])))
  {
    var f := frames[t];
    assert OptStepAt(capacity, refs, frames, t);
    var k: nat :| Farthest(refs, t, f, k) && frames[t + 1] == f[k := refs[t]];
    var j :| 0 <= j < |f| && f[j] == p;
  }

  /** Over a whole run: the frame stays within capacity and free of repeats, and the fault
      count lies between the number of distinct pages referenced and the number of
      references. */
  lemma OptFaultBounds(capacity: nat, refs: seq<Page>, frames: seq<seq<Page>>)
    requires OptTrace(capacity, refs, frames)
    ensures Bounded(capacity, frames)
    ensures |Elems(refs)| <= Misses(refs, frames, |refs|) <= |refs|
  {
    OptReplays(capacity, refs, frames);
    RunFaultBounds(refs, frames);
  }
}
