/** What the three page-replacement policies share: pages, frames as sequences of pages, the
    trace of frames a run goes through, and the fault count of a trace. */
module Frames {
  type Page = nat

  /** The pages that occur in a frame or a reference string. */
  function Elems(s: seq<Page>): set<Page>
  {
    set x | x in s
  }

  predicate NoDuplicates(s: seq<Page>)
  {
    forall i, j :: 0 <= i < j < |s| ==> s[i] != s[j]
  }

  /** The last k elements of s, or all of s when it is shorter. */
  function Last(s: seq<Page>, k: nat): (r: seq<Page>)
    ensures |r| == if |s| <= k then |s| else k
  {
    if |s| <= k then s else s[|s| - k..]
  }

  lemma ElemsAppend(s: seq<Page>, x: Page)
    ensures Elems(s + [x]) == Elems(s) + {x}
  {
  }

  /** s without x. */
  function Remove(s: seq<Page>, x: Page): (r: seq<Page>)
    ensures forall y :: y in r <==> y in s && y != x
    ensures NoDuplicates(s) ==> NoDuplicates(r)
    ensures x !in s ==> r == s
    ensures NoDuplicates(s) && x in s ==> |r| == |s| - 1
  {
    if s == [] then []
    else
      var pre, last := s[..|s| - 1], s[|s| - 1];
      var init := Remove(pre, x);
      assert s == pre + [last];
      assert NoDuplicates(s) ==> last !in pre;
      if last == x then init
      else
        AppendKeepsDistinct(init, last);
        init + [last]
  }

  lemma AppendKeepsDistinct(s: seq<Page>, x: Page)
    ensures NoDuplicates(s) && x !in s ==> NoDuplicates(s + [x])
  {
    if NoDuplicates(s) && x !in s {
      forall i, j | 0 <= i < j < |s| + 1 ensures (s + [x])[i] != (s + [x])[j] {
        if j == |s| {
          assert s[i] in s;
        }
      }
    }
  }

  lemma {:induction false} RemoveConcat(a: seq<Page>, b: seq<Page>, x: Page)
    ensures Remove(a + b, x) == Remove(a, x) + Remove(b, x)
  {
    if b == [] {
      assert a + b == a;
    } else {
      var n := |b| - 1;
      assert (a + b)[..|a + b| - 1] == a + b[..n];
      RemoveConcat(a, b[..n], x);
    }
  }

  /** Erasing the element found at position i is removing that page, when pages do not
      repeat. */
  lemma {:induction false} EraseIsRemove(s: seq<Page>, i: nat)
    requires i < |s| && NoDuplicates(s)
    ensures s[..i] + s[i + 1..] == Remove(s, s[i])
  {
    assert s == s[..i] + [s[i]] + s[i + 1..];
    RemoveConcat(s[..i] + [s[i]], s[i + 1..], s[i]);
    RemoveConcat(s[..i], [s[i]], s[i]);
    assert s[i] !in s[..i] && s[i] !in s[i + 1..];
    assert [s[i]] == [] + [s[i]];
  }

  /** `frames` is a run over `refs` from an empty frame: after each reference the frame holds
      it, and holds nothing else that was not there before. */
  ghost predicate Replays(refs: seq<Page>, frames: seq<seq<Page>>)
  {
    |frames| == |refs| + 1 && frames[0] == [] &&
    forall t :: 0 <= t < |refs| ==>
      refs[t] in frames[t + 1] && forall y :: y in frames[t + 1] ==> y in frames[t] || y == refs[t]
  }

  /** Every frame of the trace holds at most `capacity` pages, none twice. */
  ghost predicate Bounded(capacity: nat, frames: seq<seq<Page>>)
  {
    forall t :: 0 <= t < |frames| ==> |frames[t]| <= capacity && NoDuplicates(frames[t])
  }

  /** The number of the first n references that were missing from the frame they met. */
  function Misses(refs: seq<Page>, frames: seq<seq<Page>>, n: nat): (m: nat)
    requires n <= |refs| && n < |frames|
    ensures m <= n
  {
    if n == 0 then 0
    else Misses(refs, frames, n - 1) + if refs[n - 1] in frames[n - 1] then 0 else 1
  }

  /** The first n references that missed, in order. */
  function MissedPages(refs: seq<Page>, frames: seq<seq<Page>>, n: nat): (m: seq<Page>)
    requires n <= |refs| && n < |frames|
    ensures |m| == Misses(refs, frames, n)
  {
    if n == 0 then []
    else MissedPages(refs, frames, n - 1) + if refs[n - 1] in frames[n - 1] then [] else [refs[n - 1]]
  }

  /** The count of misses so far does not depend on the frames still to come. */
  lemma {:induction false} MissesExtend(refs: seq<Page>, frames: seq<seq<Page>>, f: seq<Page>, n: nat)
    requires n <= |refs| && n < |frames|
    ensures Misses(refs, frames + [f], n) == Misses(refs, frames, n)
  {
    if n > 0 {
      MissesExtend(refs, frames, f, n - 1);
      assert (frames + [f])[n - 1] == frames[n - 1];
    }
  }

  /** Appending the frame met by reference i + 1 leaves the count of the first i + 1 misses as
      the first i plus one if reference i missed. */
  lemma MissesStep(refs: seq<Page>, frames: seq<seq<Page>>, f: seq<Page>, i: nat)
    requires i < |refs| && |frames| == i + 1
    ensures Misses(refs, frames + [f], i + 1) == Misses(refs, frames, i) + if refs[i] in frames[i] then 0 else 1
  {
    MissesExtend(refs, frames, f, i);
    assert (frames + [f])[i] == frames[i];
  }

  /** A frame only ever holds pages referenced so far. */
  lemma {:induction false} FramesSeen(refs: seq<Page>, frames: seq<seq<Page>>, t: nat)
    requires Replays(refs, frames) && t <= |refs|
    ensures forall y :: y in frames[t] ==> y in refs[..t]
  {
    if t > 0 {
      FramesSeen(refs, frames, t - 1);
      assert refs[..t] == refs[..t - 1] + [refs[t - 1]];
    }
  }

  /** The first reference to each page misses, and no reference misses twice: a run faults at
      least once per distinct page and at most once per reference. */
  lemma {:induction false} FaultBounds(refs: seq<Page>, frames: seq<seq<Page>>, n: nat)
    requires Replays(refs, frames) && n <= |refs|
    ensures |Elems(refs[..n])| <= Misses(refs, frames, n) <= n
  {
    if n == 0 {
      assert Elems(refs[..0]) == {};
    } else {
      FaultBounds(refs, frames, n - 1);
      FaultStep(refs, frames, n - 1);
    }
  }

  lemma FaultStep(refs: seq<Page>, frames: seq<seq<Page>>, n: nat)
    requires Replays(refs, frames) && n < |refs|
    requires |Elems(refs[..n])| <= Misses(refs, frames, n)
    ensures |Elems(refs[..n + 1])| <= Misses(refs, frames, n + 1)
  {
    ElemsStep(refs, n);
    FirstUseMisses(refs, frames, n);
    assert Misses(refs, frames, n) <= Misses(refs, frames, n + 1);
  }

  /** A reference to a page not referenced before misses. */
  lemma FirstUseMisses(refs: seq<Page>, frames: seq<seq<Page>>, n: nat)
    requires Replays(refs, frames) && n < |refs|
    ensures refs[n] !in refs[..n] ==> Misses(refs, frames, n + 1) == Misses(refs, frames, n) + 1
  {
    FramesSeen(refs, frames, n);
  }

  /** One more reference adds one distinct page exactly when it was not referenced before. */
  lemma ElemsStep(refs: seq<Page>, n: nat)
    requires n < |refs|
    ensures |Elems(refs[..n + 1])| == |Elems(refs[..n])| + if refs[n] in refs[..n] then 0 else 1
  {
    var seen := Elems(refs[..n]);
    assert refs[..n + 1] == refs[..n] + [refs[n]];
    ElemsAppend(refs[..n], refs[n]);
    if refs[n] in refs[..n] {
      assert seen + {refs[n]} == seen;
    } else {
      assert |seen + {refs[n]}| == |seen| + 1;
    }
  }

  /** The bounds over a whole run. */
  lemma RunFaultBounds(refs: seq<Page>, frames: seq<seq<Page>>)
    requires Replays(refs, frames)
    ensures |Elems(refs)| <= Misses(refs, frames, |refs|) <= |refs|
  {
    FaultBounds(refs, frames, |refs|);
    assert refs[..|refs|] == refs;
  }

  /** The position of the first occurrence of x in frame, or |frame| when it is absent (the
      library search each policy starts with). */
  method Find(frame: seq<Page>, x: Page) returns (i: nat)
    ensures i <= |frame|
    ensures i < |frame| <==> x in frame
    ensures i < |frame| ==> frame[i] == x
    ensures forall j :: 0 <= j < i ==> frame[j] != x
  {
    i := 0;
    while i < |frame| && frame[i] != x
      invariant i <= |frame|
      invariant forall j :: 0 <= j < i ==> frame[j] != x
    {
      i := i + 1;
    }
  }
}
