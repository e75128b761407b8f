/**
 The ownership discipline of a handler's trace: which buffer an event gives
 up or reads, and how per-iteration facts about releases carry over to the
 whole trace of a loop.
 */
module Ownership {
  import opened Camera

  /** `e` gives `buf` up: a frame goes back to the pool, a heap buffer is freed. */
  predicate Releases(e: Event, buf: Buffer) {
    (e.Return? && buf == FrameBuffer(e.frame)) || e == Free(buf)
  }

  /** `e` sends bytes straight out of a buffer. */
  predicate IsPayload(e: Event) {
    e.Send? && e.part.Payload?
  }

  /** Nothing in `events` reads a buffer after it has been given up. */
  predicate NoUseAfterRelease(events: seq<Event>) {
    forall i, j :: 0 <= i < j < |events| && IsPayload(events[j]) ==> !Releases(events[i], events[j].part.buf)
  }

  /** The frame an event is about, or -1 for a send that reads no buffer. */
  function FrameOf(e: Event): int {
    match e
    case Return(k) => k
    case Free(buf) => buf.frame
    case Send(part) => if part.Payload? then part.buf.frame else -1
  }

  /** Every event of `events` is about frame `k` or about no frame. */
  predicate AboutFrame(events: seq<Event>, k: nat) {
    forall i :: 0 <= i < |events| ==> FrameOf(events[i]) == k || FrameOf(events[i]) == -1
  }

  predicate AboutFramesBelow(events: seq<Event>, n: nat) {
    forall i :: 0 <= i < |events| ==> FrameOf(events[i]) < n
  }

  /** The events of successive iterations, one after another. */
  function Flatten(steps: seq<seq<Event>>): seq<Event> {
    if steps == [] then [] else Flatten(steps[..|steps| - 1]) + steps[|steps| - 1]
  }

  /** How many times `e` occurs in `events`. */
  function Count(events: seq<Event>, e: Event): nat {
    if events == [] then 0 else (if events[0] == e then 1 else 0) + Count(events[1..], e)
  }

  lemma {:induction false} CountAppend(a: seq<Event>, b: seq<Event>, e: Event)
    ensures Count(a + b, e) == Count(a, e) + Count(b, e)
  {
    if a == [] {
      assert a + b == b;
    } else {
      assert (a + b)[0] == a[0] && (a + b)[1..] == a[1..] + b;
      CountAppend(a[1..], b, e);
    }
  }

  /** Counting around a middle stretch: what comes before, the stretch, what comes after. */
  lemma CountAround(pre: seq<Event>, mid: seq<Event>, post: seq<Event>, e: Event)
    ensures Count(pre + mid + post, e) == Count(pre, e) + Count(mid, e) + Count(post, e)
  {
    CountAppend(pre, mid, e);
    CountAppend(pre + mid, post, e);
  }

  /** A stretch of sends gives nothing up. */
  lemma {:induction false} SendsReleaseNothing(sends: seq<Event>, e: Event)
    requires forall i :: 0 <= i < |sends| ==> sends[i].Send?
    requires !e.Send?
    ensures Count(sends, e) == 0
  {
    if sends != [] {
      assert sends[0].Send?;
      SendsReleaseNothing(sends[1..], e);
    }
  }

  lemma AboutFrameAppend(a: seq<Event>, b: seq<Event>, k: nat)
    requires AboutFrame(a, k) && AboutFrame(b, k)
    ensures AboutFrame(a + b, k)
  {
  }

  /** Iteration `k` only touches frame `k`, so the first `n` iterations only
      touch frames below `n`. */
  lemma {:induction false} FlattenFrames(steps: seq<seq<Event>>)
    requires forall k :: 0 <= k < |steps| ==> AboutFrame(steps[k], k)
    ensures AboutFramesBelow(Flatten(steps), |steps|)
  {
    if steps != [] {
      var init := steps[..|steps| - 1];
      var last := steps[|steps| - 1];
      forall k | 0 <= k < |init| ensures AboutFrame(init[k], k) {
        assert init[k] == steps[k];
      }
      FlattenFrames(init);
      var ev := Flatten(init) + last;
      forall i | 0 <= i < |ev| ensures FrameOf(ev[i]) < |steps| {
        if i >= |Flatten(init)| {
          assert ev[i] == last[i - |Flatten(init)|];
        }
      }
    }
  }

  /** An event that only iteration `m` can produce occurs in the whole trace
      as often as in iteration `m`. */
  lemma {:induction false} FlattenCount(steps: seq<seq<Event>>, e: Event, m: nat)
    requires forall k :: 0 <= k < |steps| && k != m ==> Count(steps[k], e) == 0
    ensures Count(Flatten(steps), e) == if m < |steps| then Count(steps[m], e) else 0
  {
    if steps != [] {
      var init := steps[..|steps| - 1];
      forall k | 0 <= k < |init| && k != m ensures Count(init[k], e) == 0 {
        assert init[k] == steps[k];
      }
      FlattenCount(init, e, m);
      CountAppend(Flatten(init), steps[|steps| - 1], e);
      if m < |init| {
        assert init[m] == steps[m];
      }
    }
  }

  /** Appending an iteration that reads only its own frame's buffers, none of
      which anything before it released, keeps buffers unused after release. */
  lemma NoUseAfterReleaseAppend(a: seq<Event>, b: seq<Event>, k: nat)
    requires NoUseAfterRelease(a) && NoUseAfterRelease(b)
    requires AboutFramesBelow(a, k) && AboutFrame(b, k)
    ensures NoUseAfterRelease(a + b)
  {
  }

  /** Iterations that each use their buffers only before releasing them, and
      touch only their own frame, make a trace that does the same. */
  lemma {:induction false} FlattenNoUseAfterRelease(steps: seq<seq<Event>>)
    requires forall k :: 0 <= k < |steps| ==> NoUseAfterRelease(steps[k]) && AboutFrame(steps[k], k)
    ensures NoUseAfterRelease(Flatten(steps))
  {
    if steps != [] {
      var init := steps[..|steps| - 1];
      forall k | 0 <= k < |init| ensures NoUseAfterRelease(init[k]) && AboutFrame(init[k], k) {
        assert init[k] == steps[k];
      }
      FlattenNoUseAfterRelease(init);
      FlattenFrames(init);
      NoUseAfterReleaseAppend(Flatten(init), steps[|steps| - 1], |steps| - 1);
    }
  }
}
