/** Least-recently-used page replacement: a hit moves the page to the back of the frame; a miss
    evicts the front page when the frame is full, then appends the reference. */
module Lru {
  import opened Frames

  /** The frame after reference r meets `frame`. */
  function LruStep(capacity: nat, frame: seq<Page>, r: Page): (f: seq<Page>)
    requires capacity >= 1
    ensures |f| > 0 && f[|f| - 1] == r
    ensures forall y :: y in f ==> y in frame || y == r
    ensures r in frame ==> forall y :: y in f <==> y in frame
    ensures |frame| <= capacity && NoDuplicates(frame) ==> |f| <= capacity && NoDuplicates(f)
  {
    if r in frame then
      var rest := Remove(frame, r);
      AppendKeepsDistinct(rest, r);
      rest + [r]
    else (if |frame| >= capacity then frame[1..] else frame) + [r]
  }

  /** `frames` is the run of the policy over `refs` from an empty frame. */
  ghost predicate LruTrace(capacity: nat, refs: seq<Page>, frames: seq<seq<Page>>)
  {
    capacity >= 1 && |frames| == |refs| + 1 && frames[0] == [] &&
    forall t :: 0 <= t < |refs| ==> LruStepAt(capacity, refs, frames, t)
  }

  /** Reference t takes frames[t] to frames[t + 1]. */
  ghost predicate LruStepAt(capacity: nat, refs: seq<Page>, frames: seq<seq<Page>>, t: nat)
    requires capacity >= 1 && t < |refs| && t + 1 < |frames|
  {
    frames[t + 1] == LruStep(capacity, frames[t], refs[t])
  }

  /** The pages referenced in `refs`, each once, from the least to the most recently used. */
  function Recency(refs: seq<Page>): (r: seq<Page>)
    ensures NoDuplicates(r) && forall y :: y in r <==> y in refs
  {
    if refs == [] then []
    else
      var pre, last := refs[..|refs| - 1], refs[|refs| - 1];
      var rest := Remove(Recency(pre), last);
      assert refs == pre + [last];
      AppendKeepsDistinct(rest, last);
      rest + [last]
  }

  /** Counts the page faults of the policy with `capacity` frames over `references`; `frames`
      is the run the loop goes through. */
  method Lru(capacity: nat, references: seq<Page>) returns (faults: nat, ghost frames: seq<seq<Page>>)
    requires capacity >= 1
    ensures LruTrace(capacity, references, frames)
    ensures faults == Misses(references, frames, |references|)
    ensures |Elems(references)| <= faults <= |references|
  {
    faults := 0;
    var frame: seq<Page> := [];
    frames := [[]];
    var i := 0;
    while i < |references|
      invariant i <= |references|
      invariant |frames| == i + 1 && frames[0] == [] && frames[i] == frame
      invariant forall t :: 0 <= t < i ==> LruStepAt(capacity, references, frames, t)
      invariant faults == Misses(references, frames, i)
      invariant |frame| <= capacity && NoDuplicates(frame)
    {
      var reference := references[i];
      var fault;
      frame, fault := Visit(capacity, frame, reference);
      if fault {
        faults := faults + 1;
      }
      MissesStep(references, frames, frame, i);
      LruExtend(capacity, references, frames, frame, i);
      frames := frames + [frame];
      i := i + 1;
    }
    LruFaultBounds(capacity, references, frames);
  }

  /** Appending the frame that reference i leads to extends a run of the first i references
      to one of the first i + 1. */
  lemma LruExtend(capacity: nat, refs: seq<Page>, frames: seq<seq<Page>>, f: seq<Page>, i: nat)
    requires capacity >= 1 && i < |refs| && |frames| == i + 1
    requires forall t :: 0 <= t < i ==> LruStepAt(capacity, refs, frames, t)
    requires f == LruStep(capacity, frames[i], refs[i])
    ensures forall t :: 0 <= t <= i ==> LruStepAt(capacity, refs, frames + [f], t)
  {
    forall t | 0 <= t <= i ensures LruStepAt(capacity, refs, frames + [f], t) {
      if t < i {
        assert LruStepAt(capacity, refs, frames, t);
        assert (frames + [f])[t] == frames[t] && (frames + [f])[t + 1] == frames[t + 1];
      }
    }
  }

  /** One reference: on a hit the page is erased from its place and appended; on a miss the
      front page is evicted from a full frame and the reference appended. */
  method Visit(capacity: nat, frame: seq<Page>, reference: Page) returns (frame': seq<Page>, fault: bool)
    requires capacity >= 1 && |frame| <= capacity && NoDuplicates(frame)
    ensures frame' == LruStep(capacity, frame, reference)
    ensures fault <==> reference !in frame
    ensures |frame'| <= capacity && NoDuplicates(frame')
  {
    var k := Find(frame, reference);
    fault := k == |frame|;
    if !fault {
      EraseIsRemove(frame, k);
      frame' := frame[..k] + frame[k + 1..];
      frame' := frame' + [reference];
    } else {
      frame' := frame;
      if |frame'| >= capacity {
        frame' := frame'[1..];
      }
      frame' := frame' + [reference];
    }
  }

  lemma {:induction false} LruBoundedAt(capacity: nat, refs: seq<Page>, frames: seq<seq<Page>>, t: nat)
    requires LruTrace(capacity, refs, frames) && t < |frames|
    ensures |frames[t]| <= capacity && NoDuplicates(frames[t])
    ensures t > 0 ==> |frames[t]| > 0 && frames[t][|frames[t]| - 1] == refs[t - 1]
  {
    if t > 0 {
      LruBoundedAt(capacity, refs, frames, t - 1);
      assert LruStepAt(capacity, refs, frames, t - 1);
    }
  }

  /** A run holds each reference once it is made, brings in nothing else, keeps the frame
      within capacity and free of repeats, and ends each step with the page just referenced
      at the back. */
  lemma LruReplays(capacity: nat, refs: seq<Page>, frames: seq<seq<Page>>)
    requires LruTrace(capacity, refs, frames)
    ensures Replays(refs, frames) && Bounded(capacity, frames)
    ensures forall t :: 1 <= t < |frames| ==> |frames[t]| > 0 && frames[t][|frames[t]| - 1] == refs[t - 1]
  {
    forall t | 0 <= t < |frames|
      ensures |frames[t]| <= capacity && NoDuplicates(frames[t])
      ensures t > 0 ==> |frames[t]| > 0 && frames[t][|frames[t]| - 1] == refs[t - 1]
    {
      LruBoundedAt(capacity, refs, frames, t);
    }
    forall t | 0 <= t < |refs|
      ensures refs[t] in frames[t + 1] && forall y :: y in frames[t + 1] ==> y in frames[t] || y == refs[t]
    {
      assert LruStepAt(capacity, refs, frames, t);
    }
  }

  /** The frame is always the `capacity` most recently used pages, least recent first. */
  lemma {:induction false} LruKeepsMostRecent(capacity: nat, refs: seq<Page>, frames: seq<seq<Page>>, t: nat)
    requires LruTrace(capacity, refs, frames) && t <= |refs|
    ensures frames[t] == Last(Recency(refs[..t]), capacity)
  {
    if t > 0 {
      LruKeepsMostRecent(capacity, refs, frames, t - 1);
      var r := refs[t - 1];
      assert LruStepAt(capacity, refs, frames, t - 1);
      assert refs[..t][..t - 1] == refs[..t - 1];
      WindowStep(capacity, Recency(refs[..t - 1]), r);
    }
  }

  /** One step of the policy on the window of the `capacity` most recently used pages is the
      window after the reference becomes the most recent. */
  lemma WindowStep(capacity: nat, s: seq<Page>, r: Page)
    requires capacity >= 1 && NoDuplicates(s)
    ensures LruStep(capacity, Last(s, capacity), r) == Last(Remove(s, r) + [r], capacity)
  {
    if |s| <= capacity {
      if r !in s {
        AppendWindow(s, r, capacity);
      }
    } else if r in Last(s, capacity) {
      WindowHit(capacity, s, r);
    } else {
      var w := Last(s, capacity);
      assert s == s[..|s| - capacity] + w;
      WindowMiss(s[..|s| - capacity], w, r);
    }
  }

  lemma WindowHit(capacity: nat, s: seq<Page>, r: Page)
    requires capacity >= 1 && NoDuplicates(s) && |s| > capacity && r in Last(s, capacity)
    ensures Remove(Last(s, capacity), r) + [r] == Last(Remove(s, r) + [r], capacity)
  {
    var w := Last(s, capacity);
    var p := s[..|s| - capacity];
    assert s == p + w;
    SplitDistinct(p, w, r);
    RemoveConcat(p, w, r);
    assert Remove(s, r) + [r] == p + (Remove(w, r) + [r]);
    WindowOfTail(p, Remove(w, r) + [r], capacity);
  }

  /** Splitting a list without repeats: each part is without repeats, and a page of the second
      part is not in the first. */
  lemma SplitDistinct(p: seq<Page>, w: seq<Page>, r: Page)
    requires NoDuplicates(p + w) && r in w
    ensures NoDuplicates(w) && r !in p
  {
    var s := p + w;
    forall i, j | 0 <= i < j < |w| ensures w[i] != w[j] {
      assert w[i] == s[|p| + i] && w[j] == s[|p| + j];
    }
    var j :| 0 <= j < |w| && w[j] == r;
    forall i | 0 <= i < |p| ensures p[i] != r {
      assert p[i] == s[i] && r == s[|p| + j];
    }
  }

  lemma WindowMiss(p: seq<Page>, w: seq<Page>, r: Page)
    requires |w| >= 1 && r !in w
    ensures Last(Remove(p + w, r) + [r], |w|) == w[1..] + [r]
  {
    RemoveConcat(p, w, r);
    var q := Remove(p, r);
    assert Remove(p + w, r) == q + w;
    ShiftFront(q, w, r);
    WindowOfTail(q + [w[0]], w[1..] + [r], |w|);
  }

  lemma ShiftFront(q: seq<Page>, w: seq<Page>, r: Page)
    requires |w| >= 1
    ensures (q + w) + [r] == (q + [w[0]]) + (w[1..] + [r])
  {
    assert w == [w[0]] + w[1..];
  }

  lemma AppendWindow(m: seq<Page>, r: Page, k: nat)
    requires k >= 1 && |m| <= k
    ensures Last(m + [r], k) == (if |m| >= k then m[1..] else m) + [r]
  {
    if |m| == k {
      assert (m + [r])[1..] == m[1..] + [r];
    }
  }

  lemma WindowOfTail(p: seq<Page>, w: seq<Page>, k: nat)
    requires |w| == k
    ensures Last(p + w, k) == w
  {
    assert (p + w)[|p|..] == w;
  }

  /** The position of the last use of page x in refs, or -1 if it is never used. */
  function LastUse(refs: seq<Page>, x: Page): (i: int)
    ensures -1 <= i < |refs|
    ensures 0 <= i ==> refs[i] == x && forall j :: i < j < |refs| ==> refs[j] != x
    ensures i == -1 <==> x !in refs
  {
    if refs == [] then -1
    else if refs[|refs| - 1] == x then |refs| - 1
    else
      var i := LastUse(refs[..|refs| - 1], x);
      assert refs == refs[..|refs| - 1] + [refs[|refs| - 1]];
      i
  }

  /** Pages ordered by the position of their last use in refs. */
  ghost predicate ByLastUse(refs: seq<Page>, s: seq<Page>)
  {
    forall i, j :: 0 <= i < j < |s| ==> LastUse(refs, s[i]) < LastUse(refs, s[j])
  }

  lemma {:induction false} RemoveKeepsOrder(refs: seq<Page>, s: seq<Page>, x: Page)
    requires ByLastUse(refs, s)
    ensures ByLastUse(refs, Remove(s, x))
  {
    if s != [] {
      var pre, last := s[..|s| - 1], s[|s| - 1];
      RemoveKeepsOrder(refs, pre, x);
      var rest := Remove(pre, x);
      assert s == pre + [last];
      if last != x {
        forall y | y in rest ensures LastUse(refs, y) < LastUse(refs, last) {
          var j :| 0 <= j < |pre| && pre[j] == y;
          assert s[j] == y;
        }
        ByLastUseLatest(refs, rest, last);
      }
    }
  }

  /** A further reference to `last` leaves the last use of every other page where it was. */
  lemma LastUseAppend(pre: seq<Page>, last: Page, y: Page)
    requires y != last
    ensures LastUse(pre + [last], y) == LastUse(pre, y)
  {
    assert (pre + [last])[..|pre|] == pre;
  }

  lemma ByLastUseAppend(pre: seq<Page>, last: Page, s: seq<Page>)
    requires ByLastUse(pre, s) && last !in s
    ensures ByLastUse(pre + [last], s)
  {
    forall i, j | 0 <= i < j < |s| ensures LastUse(pre + [last], s[i]) < LastUse(pre + [last], s[j]) {
      LastUseAppend(pre, last, s[i]);
      LastUseAppend(pre, last, s[j]);
    }
  }

  lemma ByLastUseLatest(refs: seq<Page>, rest: seq<Page>, last: Page)
    requires ByLastUse(refs, rest) && forall y :: y in rest ==> LastUse(refs, y) < LastUse(refs, last)
    ensures ByLastUse(refs, rest + [last])
  {
    var s := rest + [last];
    forall i, j | 0 <= i < j < |s| ensures LastUse(refs, s[i]) < LastUse(refs, s[j]) {
      assert s[i] == rest[i] && rest[i] in rest;
      if j < |rest| {
        assert s[j] == rest[j];
      }
    }
  }

  /** The recency list orders the referenced pages by their last use. */
  lemma {:induction false} RecencyByLastUse(refs: seq<Page>)
    ensures ByLastUse(refs, Recency(refs))
  {
    if refs != [] {
      var pre, last := refs[..|refs| - 1], refs[|refs| - 1];
      assert refs == pre + [last];
      RecencyByLastUse(pre);
      RemoveKeepsOrder(pre, Recency(pre), last);
      var rest := Remove(Recency(pre), last);
      ByLastUseAppend(pre, last, rest);
      forall y | y in rest ensures LastUse(refs, y) < LastUse(refs, last) {
        LastUseAppend(pre, last, y);
      }
      ByLastUseLatest(refs, rest, last);
    }
  }

  /** In a list ordered by last use, every page outside its window of the last k was last
      used before every page inside it. */
  lemma WindowMostRecent(refs: seq<Page>, s: seq<Page>, k: nat, x: Page, y: Page)
    requires ByLastUse(refs, s) && x in s && x !in Last(s, k) && y in Last(s, k)
    ensures LastUse(refs, x) < LastUse(refs, y)
  {
    var w := Last(s, k);
    var d := |s| - |w|;
    assert w == s[d..];
    var i :| 0 <= i < |s| && s[i] == x;
    var j :| 0 <= j < |w| && w[j] == y;
    assert s[d + j] == y;
    assert forall e :: d <= e < |s| ==> s[e] == w[e - d];
    assert i < d;
  }

  lemma WindowByLastUse(refs: seq<Page>, s: seq<Page>, k: nat)
    requires ByLastUse(refs, s)
    ensures ByLastUse(refs, Last(s, k))
  {
    var w := Last(s, k);
    var d := |s| - |w|;
    assert w == s[d..];
    forall i, j | 0 <= i < j < |w| ensures LastUse(refs, w[i]) < LastUse(refs, w[j]) {
      assert w[i] == s[d + i] && w[j] == s[d + j];
    }
  }

  /** Least recently used: the frame is ordered by last use, so on a miss with a full frame
      the page evicted (the front one) was last used before every other page in it; and every
      referenced page outside the frame was last used before every page in it. */
  lemma LruEvictsLeastRecentlyUsed(capacity: nat, refs: seq<Page>, frames: seq<seq<Page>>, t: nat)
    requires LruTrace(capacity, refs, frames) && t <= |refs|
    ensures ByLastUse(refs[..t], frames[t])
    ensures forall x, y :: x in refs[..t] && x !in frames[t] && y in frames[t] ==>
      LastUse(refs[..t], x) < LastUse(refs[..t], y)
  {
    LruKeepsMostRecent(capacity, refs, frames, t);
    var s := Recency(refs[..t]);
    RecencyByLastUse(refs[..t]);
    WindowByLastUse(refs[..t], s, capacity);
    forall x, y | x in refs[..t] && x !in frames[t] && y in frames[t]
      ensures LastUse(refs[..t], x) < LastUse(refs[..t], y)
    {
      assert x in s;
      WindowMostRecent(refs[..t], s, capacity, x, y);
    }
  }

  /** Over a whole run: the frame stays within capacity and free of repeats, and the fault
      count lies between the number of distinct pages referenced and the number of
      references. */
  lemma LruFaultBounds(capacity: nat, refs: seq<Page>, frames: seq<seq<Page>>)
    requires LruTrace(capacity, refs, frames)
    ensures Bounded(capacity, frames)
    ensures |Elems(refs)| <= Misses(refs, frames, |refs|) <= |refs|
  {
    LruReplays(capacity, refs, frames);
    RunFaultBounds(refs, frames);
  }
}
