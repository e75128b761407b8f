/**
 The `/stream` handler: an endless loop that captures a frame, makes sure
 its bytes are JPEG, sends one multipart part (header, JPEG bytes,
 boundary) and gives the bytes back, until something fails.

 The loop runs over a finite list of rounds, each carrying what the outside
 world does in that iteration: the capture, the conversion, whether each of
 the three sends goes through, and the clock. Rounds running out is not an
 exit of the handler; it only ends what the model looks at.
 */
module Stream {
  import opened Options
  import opened Camera
  import opened Multipart
  import opened Ownership

  /** `last_frame` on entry to the loop: the stored value, or the clock if it was 0. */
  function StartFrame(lastFrameIn: int, startClock: int): int {
    if lastFrameIn == 0 then startClock else lastFrameIn
  }

  /** `last_frame` after `n` successful iterations: the clock read at the end of the last one. */
  function FrameClock(rounds: seq<Round>, n: nat, start: int): int
    requires n <= |rounds|
  {
    if n == 0 then start else rounds[n - 1].clock
  }

  /** The outcome of `frame2jpg` on a frame that is not JPEG already. */
  datatype Conversion = Converted(len: Size) | ConversionFailed

  /** One iteration's outcomes. `conversion` is consulted only for non-JPEG frames. */
  datatype Round = Round(shot: Shot, conversion: Conversion,
                         headerSent: bool, payloadSent: bool, boundarySent: bool,
                         clock: int)

  /** How the handler ended: `set_type` refused before the loop, the loop broke
      out in iteration `at`, or it is still streaming when the rounds run out. */
  datatype Exit = TypeNotSet | Broke(at: nat) | Streaming

  /** The iteration has JPEG bytes to send. */
  predicate HasJpeg(r: Round) {
    r.shot.Frame? && (r.shot.format.Jpeg? || r.conversion.Converted?)
  }

  /** The iteration ends without error, so the loop goes on. */
  predicate RoundOk(r: Round) {
    HasJpeg(r) && r.headerSent && r.payloadSent && r.boundarySent
  }

  /** The first `n` iterations all end without error. */
  predicate AllOk(rounds: seq<Round>, n: nat)
    requires n <= |rounds|
  {
    n == 0 || (AllOk(rounds, n - 1) && RoundOk(rounds[n - 1]))
  }

  lemma {:induction false} AllOkMeans(rounds: seq<Round>, n: nat)
    requires n <= |rounds|
    ensures AllOk(rounds, n) <==> forall j :: 0 <= j < n ==> RoundOk(rounds[j])
  {
    if n > 0 {
      AllOkMeans(rounds, n - 1);
    }
  }

  /** Which buffer iteration `k` sends, and how many bytes. */
  function Source(k: nat, r: Round): (Buffer, Size)
    requires HasJpeg(r)
  {
    if r.shot.format.Jpeg? then (FrameBuffer(k), r.shot.len) else (HeapBuffer(k), r.conversion.len)
  }

  /** One part: header, payload, boundary, each tried only if the one before went through. */
  function PartSends(buf: Buffer, len: Size, r: Round): seq<Event> {
    var text := PartText(len);
    [Send(PartHeader(text, |text|))]
    + (if !r.headerSent then []
       else [Send(Payload(buf, len))] + (if !r.payloadSent then [] else [Send(Boundary(STREAM_BOUNDARY))]))
  }

  /**
   What iteration `k` should do, by the ownership of its bytes: a JPEG frame
   is sent from the pool's buffer and then returned; any other frame is
   returned as soon as it is converted, and the converted buffer is freed
   after sending. A failed capture touches nothing.
   */
  function RoundEvents(k: nat, r: Round): seq<Event> {
    match r.shot
    case NoFrame => []
    case Frame(format, len) =>
      if format.Jpeg? then PartSends(FrameBuffer(k), len, r) + [Return(k)]
      else match r.conversion
        case ConversionFailed => [Return(k)]
        case Converted(n) => [Return(k)] + PartSends(HeapBuffer(k), n, r) + [Free(HeapBuffer(k))]
  }

  /** The events of each of the first `n` iterations, the `k`-th acquiring frame `k`. */
  function Steps(rounds: seq<Round>, n: nat): (s: seq<seq<Event>>)
    requires n <= |rounds|
    ensures |s| == n
    ensures forall k :: 0 <= k < n ==> s[k] == RoundEvents(k, rounds[k])
  {
    seq(n, k requires 0 <= k < n <= |rounds| => RoundEvents(k, rounds[k]))
  }

  /** The first `n` iterations of `rounds`, one after another. */
  function Trace(rounds: seq<Round>, n: nat): seq<Event>
    requires n <= |rounds|
  {
    if n == 0 then [] else Trace(rounds, n - 1) + RoundEvents(n - 1, rounds[n - 1])
  }

  lemma {:induction false} TraceIsFlatten(rounds: seq<Round>, n: nat)
    requires n <= |rounds|
    ensures Trace(rounds, n) == Flatten(Steps(rounds, n))
  {
    if n > 0 {
      TraceIsFlatten(rounds, n - 1);
      var steps := Steps(rounds, n);
      assert steps[..n - 1] == Steps(rounds, n - 1);
    }
  }

  /** A non-JPEG frame whose conversion succeeded: its bytes live in a heap buffer. */
  predicate Converts(r: Round) {
    r.shot.Frame? && r.shot.format.Raw? && r.conversion.Converted?
  }

  /** The parts handed to the transport, in order. */
  function Sends(events: seq<Event>): seq<Part> {
    if events == [] then [] else SentBy(events[0]) + Sends(events[1..])
  }

  /** The part an event hands to the transport, if it is a send. */
  function SentBy(e: Event): seq<Part> {
    if e.Send? then [e.part] else []
  }

  lemma {:induction false} SendsAppend(a: seq<Event>, b: seq<Event>)
    ensures Sends(a + b) == Sends(a) + Sends(b)
  {
    if a == [] {
      assert a + b == b;
    } else {
      var ab := a + b;
      assert ab[0] == a[0] && ab[1..] == a[1..] + b;
      SendsAppend(a[1..], b);
    }
  }

  lemma SendsOfPart(buf: Buffer, len: Size, r: Round)
    ensures Sends(PartSends(buf, len, r)) == [PartHeader(PartText(len), |PartText(len)|)]
              + (if !r.headerSent then []
                 else [Payload(buf, len)] + (if !r.payloadSent then [] else [Boundary(STREAM_BOUNDARY)]))
  {
    var text := PartText(len);
    var rest := if !r.headerSent then []
                else [Send(Payload(buf, len))] + (if !r.payloadSent then [] else [Send(Boundary(STREAM_BOUNDARY))]);
    SendsAppend([Send(PartHeader(text, |text|))], rest);
    if r.headerSent {
      SendsAppend([Send(Payload(buf, len))], if !r.payloadSent then [] else [Send(Boundary(STREAM_BOUNDARY))]);
    }
  }

  /**
   Framing of one iteration. With JPEG bytes to send, it sends the part
   header, then the payload, then the boundary, each only if the one before
   went through; the header's Content-Length is the payload's length and the
   header fits its 64-byte buffer. Without JPEG bytes it sends nothing.
   */
  lemma RoundFraming(k: nat, r: Round)
    ensures !HasJpeg(r) ==> Sends(RoundEvents(k, r)) == []
    ensures HasJpeg(r) ==>
              var (buf, len) := Source(k, r);
              var s := Sends(RoundEvents(k, r));
              && 1 <= |s| <= 3
              && s[0].PartHeader? && s[0].count == |s[0].text| < PART_BUF_SIZE
              && ContentLength(s[0].text) == Some(len as nat)
              && (|s| >= 2 <==> r.headerSent)
              && (|s| >= 2 ==> s[1] == Payload(buf, len))
              && (|s| == 3 <==> r.headerSent && r.payloadSent)
              && (|s| == 3 ==> s[2] == Boundary(STREAM_BOUNDARY))
  {
    if HasJpeg(r) {
      var (buf, len) := Source(k, r);
      PartTextLength(len);
      SendsOfPart(buf, len, r);
      JpegRoundSends(k, r);
    } else if r.shot.Frame? {
      assert RoundEvents(k, r) == [Return(k)];
    }
  }

  /** What an iteration with JPEG bytes sends is its part. */
  lemma JpegRoundSends(k: nat, r: Round)
    requires HasJpeg(r)
    ensures Sends(RoundEvents(k, r)) == Sends(PartSends(Source(k, r).0, Source(k, r).1, r))
  {
    var (buf, len) := Source(k, r);
    var part := PartSends(buf, len, r);
    if r.shot.format.Jpeg? {
      SendsAppend(part, [Return(k)]);
    } else {
      SendsAppend([Return(k)], part);
      SendsAppend([Return(k)] + part, [Free(HeapBuffer(k))]);
    }
  }

  /** A part only sends, and reads no buffer but its own. */
  lemma PartSendsOnly(buf: Buffer, len: Size, r: Round)
    ensures forall i :: 0 <= i < |PartSends(buf, len, r)| ==> PartSends(buf, len, r)[i].Send?
    ensures AboutFrame(PartSends(buf, len, r), buf.frame)
  {
  }

  /**
   Release discipline of one iteration, counted for any frame number `m`:
   the frame it acquired goes back to the pool exactly once, a converted
   buffer is freed exactly once, a pool buffer is never freed, and nothing
   of any other iteration is touched. A failed capture releases nothing.
   */
  lemma RoundReleases(k: nat, r: Round, m: nat)
    ensures Count(RoundEvents(k, r), Return(m)) == if m == k && r.shot.Frame? then 1 else 0
    ensures Count(RoundEvents(k, r), Free(HeapBuffer(m))) == if m == k && Converts(r) then 1 else 0
    ensures Count(RoundEvents(k, r), Free(FrameBuffer(m))) == 0
    ensures AboutFrame(RoundEvents(k, r), k)
  {
    var ev := RoundEvents(k, r);
    if HasJpeg(r) {
      JpegRoundCount(k, r, Return(m));
      JpegRoundCount(k, r, Free(HeapBuffer(m)));
      JpegRoundCount(k, r, Free(FrameBuffer(m)));
      JpegRoundAboutFrame(k, r);
    } else if r.shot.Frame? {
      assert ev == [Return(k)];
    } else {
      assert ev == [];
    }
  }

  /** An iteration that sends a part releases what it acquired around the
      part: the frame, and the converted buffer when there is one. */
  lemma JpegRoundCount(k: nat, r: Round, e: Event)
    requires HasJpeg(r) && !e.Send?
    ensures Count(RoundEvents(k, r), e)
            == (if e == Return(k) then 1 else 0)
               + (if e == Free(HeapBuffer(k)) && !r.shot.format.Jpeg? then 1 else 0)
  {
    var (buf, len) := Source(k, r);
    var part := PartSends(buf, len, r);
    PartSendsOnly(buf, len, r);
    SendsReleaseNothing(part, e);
    var (pre, post) := if r.shot.format.Jpeg? then ([], [Return(k)])
                       else ([Return(k)], [Free(HeapBuffer(k))]);
    assert RoundEvents(k, r) == pre + part + post;
    CountAround(pre, part, post, e);
  }

  /** Such an iteration touches only its own frame's buffers. */
  lemma JpegRoundAboutFrame(k: nat, r: Round)
    requires HasJpeg(r)
    ensures AboutFrame(RoundEvents(k, r), k)
  {
    var (buf, len) := Source(k, r);
    var part := PartSends(buf, len, r);
    PartSendsOnly(buf, len, r);
    var (pre, post) := if r.shot.format.Jpeg? then ([], [Return(k)])
                       else ([Return(k)], [Free(HeapBuffer(k))]);
    assert RoundEvents(k, r) == pre + part + post;
    AboutFrameAppend(pre, part, k);
    AboutFrameAppend(pre + part, post, k);
  }

  /** Over any number of iterations, every frame acquired is returned exactly
      once, every converted buffer is freed exactly once, and no pool buffer is
      ever freed. */
  lemma TraceReleases(rounds: seq<Round>, n: nat, m: nat)
    requires n <= |rounds|
    ensures Count(Trace(rounds, n), Return(m)) == if m < n && rounds[m].shot.Frame? then 1 else 0
    ensures Count(Trace(rounds, n), Free(HeapBuffer(m))) == if m < n && Converts(rounds[m]) then 1 else 0
    ensures Count(Trace(rounds, n), Free(FrameBuffer(m))) == 0
  {
    var steps := Steps(rounds, n);
    TraceIsFlatten(rounds, n);
    forall k | 0 <= k < n
      ensures k != m ==> Count(steps[k], Return(m)) == 0
      ensures k != m ==> Count(steps[k], Free(HeapBuffer(m))) == 0
      ensures Count(steps[k], Free(FrameBuffer(m))) == 0
    {
      RoundReleases(k, rounds[k], m);
    }
    FlattenCount(steps, Return(m), m);
    FlattenCount(steps, Free(HeapBuffer(m)), m);
    FlattenCount(steps, Free(FrameBuffer(m)), m);
    if m < n {
      RoundReleases(m, rounds[m], m);
    }
  }

  /** The buffer an iteration sends from is given up exactly once: returned to
      the pool if it is the frame's own, freed if it came from the converter. */
  lemma SentBufferReleasedOnce(rounds: seq<Round>, n: nat, k: nat)
    requires k < n <= |rounds| && HasJpeg(rounds[k])
    ensures var (buf, _) := Source(k, rounds[k]);
            var t := Trace(rounds, n);
            match buf
            case FrameBuffer(f) => Count(t, Return(f)) == 1 && Count(t, Free(buf)) == 0
            case HeapBuffer(f) => Count(t, Free(buf)) == 1
  {
    TraceReleases(rounds, n, k);
  }

  lemma RoundNoUseAfterRelease(k: nat, r: Round)
    ensures NoUseAfterRelease(RoundEvents(k, r))
  {
    if HasJpeg(r) {
      var (buf, len) := Source(k, r);
      var part := PartSends(buf, len, r);
      var (pre, post) := if r.shot.format.Jpeg? then ([], [Return(k)])
                         else ([Return(k)], [Free(HeapBuffer(k))]);
      var ev := RoundEvents(k, r);
      assert ev == pre + part + post;
      forall i, j | 0 <= i < j < |ev| && IsPayload(ev[j]) ensures !Releases(ev[i], ev[j].part.buf) {
        assert |pre| <= j < |pre| + |part| && ev[j] == part[j - |pre|];
        if i >= |pre| {
          assert ev[i] == part[i - |pre|];
        }
      }
    }
  }

  /** No byte is ever sent out of a buffer that was already given up. */
  lemma TraceNoUseAfterRelease(rounds: seq<Round>, n: nat)
    requires n <= |rounds|
    ensures NoUseAfterRelease(Trace(rounds, n))
  {
    var steps := Steps(rounds, n);
    TraceIsFlatten(rounds, n);
    forall k | 0 <= k < n ensures NoUseAfterRelease(steps[k]) && AboutFrame(steps[k], k) {
      RoundNoUseAfterRelease(k, rounds[k]);
      RoundReleases(k, rounds[k], k);
    }
    FlattenNoUseAfterRelease(steps);
  }

  /**
   One iteration of the handler's loop, statement by statement: `fb` and
   `jpgBuf` are the pointers `fb` and `_jpg_buf`, with `None` for NULL.
   `_jpg_buf` and its length outlive the iteration, as in the source, so they
   come in and go out; the loop keeps `_jpg_buf` NULL between iterations,
   and only then does the iteration behave as `RoundEvents` says.
   */
  method Iterate(k: nat, r: Round, jpgBufIn: Option<Buffer>, jpgLenIn: Size)
    returns (events: seq<Event>, ok: bool, jpgBuf: Option<Buffer>, jpgLen: Size)
    requires jpgBufIn == None
    ensures events == RoundEvents(k, r)
    ensures ok <==> RoundOk(r)
    ensures jpgBuf == None
  {
    var fb: Option<nat> := None;
    jpgBuf, jpgLen := jpgBufIn, jpgLenIn;
    events := [];
    ok := true;
    // acquire, and convert unless the frame is JPEG already
    match r.shot {
      case NoFrame =>
        ok := false;
      case Frame(format, len) =>
        fb := Some(k);
        if !format.Jpeg? {
          var converted := r.conversion.Converted?;
          if converted {
            jpgBuf := Some(HeapBuffer(k));
            jpgLen := r.conversion.len;
          }
          events := events + [Return(fb.value)];
          fb := None;
          if !converted {
            ok := false;
          }
        } else {
          jpgLen := len;
          jpgBuf := Some(FrameBuffer(k));
        }
    }
    // header, payload, boundary
    if ok {
      var (text, hlen) := Snprintf(PART_BUF_SIZE, PartText(jpgLen));
      events := events + [Send(PartHeader(text, hlen))];
      ok := r.headerSent;
    }
    if ok {
      events := events + [Send(Payload(jpgBuf.value, jpgLen))];
      ok := r.payloadSent;
    }
    if ok {
      events := events + [Send(Boundary(STREAM_BOUNDARY))];
      ok := r.boundarySent;
    }
    // give the bytes back
    if fb.Some? {
      events := events + [Return(fb.value)];
      fb := None;
      jpgBuf := None;
    } else if jpgBuf.Some? {
      events := events + [Free(jpgBuf.value)];
      jpgBuf := None;
    }
  }

  /**
   One pass through the loop body: the iteration, appended to the events
   so far, and the update of `last_frame` that follows the `break` check.
   */
  method Advance(rounds: seq<Round>, i: nat, sentIn: seq<Event>, jpgBufIn: Option<Buffer>, jpgLenIn: Size,
                 lastFrameIn: int)
    returns (sent: seq<Event>, ok: bool, jpgBuf: Option<Buffer>, jpgLen: Size, lastFrame: int)
    requires i < |rounds| && sentIn == Trace(rounds, i) && jpgBufIn == None
    requires AllOk(rounds, i)
    ensures sent == Trace(rounds, i + 1)
    ensures ok <==> AllOk(rounds, i + 1)
    ensures !ok ==> !RoundOk(rounds[i])
    ensures jpgBuf == None
    ensures lastFrame == if ok then rounds[i].clock else lastFrameIn
  {
    var step;
    step, ok, jpgBuf, jpgLen := Iterate(i, rounds[i], jpgBufIn, jpgLenIn);
    sent := sentIn + step;
    lastFrame := lastFrameIn;
    if ok {
      lastFrame := rounds[i].clock;
    }
  }

  /**
   The `while (true)` loop, from the first capture to the `break`.
   `lastFrame` is the static `last_frame`, which each successful iteration
   sets to the clock read at its end.
   */
  method StreamLoop(rounds: seq<Round>, lastFrameIn: int)
    returns (sent: seq<Event>, exit: Exit, lastFrame: int)
    ensures exit != TypeNotSet
    ensures exit.Broke? ==> && exit.at < |rounds| && !RoundOk(rounds[exit.at])
                            && AllOk(rounds, exit.at)
                            && sent == Trace(rounds, exit.at + 1)
    ensures exit == Streaming ==> && AllOk(rounds, |rounds|)
                                  && sent == Trace(rounds, |rounds|)
                                  && lastFrame == FrameClock(rounds, |rounds|, lastFrameIn)
  {
    var jpgBuf: Option<Buffer> := None;
    var jpgLen: Size := 0;
    lastFrame := lastFrameIn;
    sent := [];
    var i := 0;
    while i < |rounds|
      invariant 0 <= i <= |rounds|
      invariant jpgBuf == None
      invariant sent == Trace(rounds, i)
      invariant AllOk(rounds, i)
      invariant i == 0 ==> lastFrame == lastFrameIn
      invariant i > 0 ==> lastFrame == rounds[i - 1].clock
    {
      var ok;
      sent, ok, jpgBuf, jpgLen, lastFrame := Advance(rounds, i, sent, jpgBuf, jpgLen, lastFrame);
      if !ok {
        return sent, Broke(i), lastFrame;
      }
      i := i + 1;
    }
    exit := Streaming;
  }

  /**
   The handler. `set_type` may refuse the response before the loop starts;
   `last_frame` is the static timestamp of the previous frame, set from the
   clock on entry when it is 0 and reset to 0 when the loop breaks. The
   handler's events are the content type followed by `Trace`, so every
   property of `Trace` is a property of the handler.
   */
  method StreamHandler(typeSet: bool, rounds: seq<Round>, lastFrameIn: int, startClock: int)
    returns (events: seq<Event>, exit: Exit, lastFrame: int)
    ensures exit == TypeNotSet <==> !typeSet
    ensures events != [] && events[0] == Send(ContentType(STREAM_CONTENT_TYPE))
    ensures !typeSet ==> |events| == 1
    ensures !typeSet ==> lastFrame == StartFrame(lastFrameIn, startClock)
    ensures exit.Broke? ==> && typeSet
                            && exit.at < |rounds| && !RoundOk(rounds[exit.at])
                            && AllOk(rounds, exit.at)
                            && events[1..] == Trace(rounds, exit.at + 1)
                            && lastFrame == 0
    ensures exit == Streaming ==> && typeSet
                                  && AllOk(rounds, |rounds|)
                                  && events[1..] == Trace(rounds, |rounds|)
                                  && lastFrame == FrameClock(rounds, |rounds|, StartFrame(lastFrameIn, startClock))
  {
    lastFrame := lastFrameIn;
    if lastFrame == 0 {
      lastFrame := startClock;
    }
    var head := Send(ContentType(STREAM_CONTENT_TYPE));
    if !typeSet {
      return [head], TypeNotSet, lastFrame;
    }
    var sent;
    sent, exit, lastFrame := StreamLoop(rounds, lastFrame);
    if exit.Broke? {
      lastFrame := 0;
    }
    events := [head] + sent;
    assert events[1..] == sent;
  }
}
