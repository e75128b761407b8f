/**
 The `/capture` handler as it runs: one frame, sent as the whole response
 body when it is JPEG already, otherwise encoded to JPEG chunk by chunk
 through the sink. (The code after that block, which converts through an
 RGB888 matrix, is never reached: the block always returns.)
 */
module Capture {
  import opened Camera
  import opened Ownership
  import opened Options
  import ChunkSink

  const JPEG_CONTENT_TYPE: string := "image/jpeg"
  const DISPOSITION: Part := HeaderField("Content-Disposition", "inline; filename=capture.jpg")

  /** What the outside world does during one request: the capture, whether
      `httpd_resp_send` takes a JPEG frame's bytes, and for any other frame
      the encoder's calls into the sink and whether `frame2jpg_cb` succeeds. */
  datatype World = World(shot: Shot, bodySent: bool, calls: seq<ChunkSink.SinkCall>, encoded: bool)

  /** The handler's `esp_err_t`: `ESP_OK`, or any other code (`ESP_FAIL`, or
      whatever error `httpd_resp_send` returns) collapsed into `EspFail`. */
  datatype Status = EspOk | EspFail

  /** The trace, the handler's result, and the byte count it logs, if it
      logs one. */
  datatype Reply = Reply(events: seq<Event>, status: Status, loggedLen: Option<Size>)

  /** The bytes that the chunk sends among `events` put on the wire. */
  function ChunkBytes(events: seq<Event>): nat {
    if events == [] then 0
    else (if events[0].Send? && events[0].part.Chunk? then events[0].part.size else 0) + ChunkBytes(events[1..])
  }

  /** The sends the sink makes: each call hands its chunk to
      `httpd_resp_send_chunk`, in the encoder's order, so the chunk sends
      carry exactly the bytes the encoder produced. */
  function ChunkSends(calls: seq<ChunkSink.SinkCall>): (s: seq<Event>)
    ensures |s| == |calls|
    ensures forall i :: 0 <= i < |s| ==> s[i] == Send(Chunk(calls[i].size))
    ensures ChunkBytes(s) == ChunkSink.Total(calls)
  {
    if calls == [] then []
    else
      var s := [Send(Chunk(calls[0].size))] + ChunkSends(calls[1..]);
      assert s[1..] == ChunkSends(calls[1..]);
      s
  }

  /** Sends about `frame` at most, then the frame's return: the frame is
      returned once, nothing is freed, nothing is read after the return. */
  lemma ReleasedLast(sends: seq<Event>, frame: nat)
    requires forall i :: 0 <= i < |sends| ==> sends[i].Send?
    requires AboutFrame(sends, frame)
    ensures var events := sends + [Return(frame)];
            && Count(events, Return(frame)) == 1
            && AboutFrame(events, frame)
            && (forall i :: 0 <= i < |events| ==> !events[i].Free?)
            && NoUseAfterRelease(events)
  {
    var events := sends + [Return(frame)];
    SendsReleaseNothing(sends, Return(frame));
    CountAppend(sends, [Return(frame)], Return(frame));
    forall i | 0 <= i < |events| ensures FrameOf(events[i]) == frame || FrameOf(events[i]) == -1 {
      if i < |sends| { assert events[i] == sends[i]; }
    }
  }

  /** The chunked body of a converted frame reads no buffer of the frame. */
  lemma ChunkedBodySends(head: seq<Event>, calls: seq<ChunkSink.SinkCall>, frame: nat)
    requires forall i :: 0 <= i < |head| ==> head[i].Send? && !head[i].part.Payload?
    ensures var sends := head + ChunkSends(calls) + [Send(EndOfChunks)];
            && (forall i :: 0 <= i < |sends| ==> sends[i].Send?)
            && AboutFrame(sends, frame)
  {
  }

  /** What the handler sends once it holds a frame: the headers, then the
      frame's own bytes if it is JPEG, otherwise the encoder's chunks and the
      end of the chunked body. */
  function CaptureSends(frame: nat, w: World): (sends: seq<Event>)
    requires w.shot.Frame?
    ensures forall i :: 0 <= i < |sends| ==> sends[i].Send?
    ensures AboutFrame(sends, frame)
    ensures w.shot.format.Jpeg? ==>
              sends == [Send(ContentType(JPEG_CONTENT_TYPE)), Send(DISPOSITION),
                        Send(Payload(FrameBuffer(frame), w.shot.len))]
  {
    var head := [Send(ContentType(JPEG_CONTENT_TYPE)), Send(DISPOSITION)];
    if w.shot.format.Jpeg? then
      head + [Send(Payload(FrameBuffer(frame), w.shot.len))]
    else
      ChunkedBodySends(head, w.calls, frame);
      head + ChunkSends(w.calls) + [Send(EndOfChunks)]
  }

  /**
   The releases and sends of one request acquiring frame `frame`. A failed
   capture answers 500 and releases nothing; otherwise the frame goes back
   to the pool exactly once, as the very last step, after everything that
   reads it. A JPEG frame is sent as it is, in one piece, straight from the
   pool's buffer.
   */
  function CaptureEvents(frame: nat, w: World): (events: seq<Event>)
    ensures w.shot.NoFrame? ==> events == [Send(Status500)]
    ensures Count(events, Return(frame)) == if w.shot.Frame? then 1 else 0
    ensures AboutFrame(events, frame)
    ensures forall i :: 0 <= i < |events| ==> !events[i].Free?
    ensures w.shot.Frame? ==> events != [] && events[|events| - 1] == Return(frame)
    ensures NoUseAfterRelease(events)
    ensures w.shot.Frame? && w.shot.format.Jpeg? ==>
              events[..|events| - 1] == [Send(ContentType(JPEG_CONTENT_TYPE)), Send(DISPOSITION),
                                         Send(Payload(FrameBuffer(frame), w.shot.len))]
    ensures w.shot.Frame? && w.shot.format.Raw? ==>
              events == [Send(ContentType(JPEG_CONTENT_TYPE)), Send(DISPOSITION)]
                        + ChunkSends(w.calls) + [Send(EndOfChunks), Return(frame)]
  {
    if w.shot.NoFrame? then [Send(Status500)]
    else
      var sends := CaptureSends(frame, w);
      ReleasedLast(sends, frame);
      var events := sends + [Return(frame)];
      assert events[..|events| - 1] == sends;
      events
  }

  /** The handler's result: it fails exactly when there is no frame, when a
      JPEG frame's bytes are not taken, or when encoding another frame fails. */
  function CaptureStatus(w: World): (s: Status)
    ensures s == EspFail <==> w.shot.NoFrame? || (w.shot.format.Jpeg? && !w.bodySent) || (w.shot.format.Raw? && !w.encoded)
  {
    match w.shot
    case NoFrame => EspFail
    case Frame(format, _) =>
      if format.Jpeg? then (if w.bodySent then EspOk else EspFail)
      else (if w.encoded then EspOk else EspFail)
  }

  /** The byte count the handler logs: a JPEG frame's length, or the sink's
      count; nothing is logged when the capture fails. */
  function LoggedLength(w: World): Option<Size> {
    match w.shot
    case NoFrame => None
    case Frame(format, len) =>
      Some(if format.Jpeg? then len else ChunkSink.Feed(ChunkSink.Chunking(0), w.calls).len)
  }

  /** The sends of a held frame never include a 500: the handler answers
      500 only when the capture fails. */
  lemma NoStatus500(frame: nat, w: World)
    requires w.shot.Frame?
    ensures Send(Status500) !in CaptureSends(frame, w)
  {
    var sends := CaptureSends(frame, w);
    if w.shot.format.Raw? {
      var chunks := ChunkSends(w.calls);
      assert sends == [Send(ContentType(JPEG_CONTENT_TYPE)), Send(DISPOSITION)] + chunks + [Send(EndOfChunks)];
      forall i | 0 <= i < |sends| ensures sends[i] != Send(Status500) {
        if 2 <= i < 2 + |chunks| {
          assert sends[i] == chunks[i - 2];
        }
      }
    }
  }

  /**
   The whole handler. A 500 is sent, and no length logged, exactly when the
   capture fails; any later failure (a refused body, a failed encode) still
   returns the frame, as the last step, and a converted frame's chunked body
   is always closed, whether or not the encode succeeded.
   */
  function CaptureHandler(frame: nat, w: World): (r: Reply)
    ensures r.status == CaptureStatus(w)
    ensures Send(Status500) in r.events <==> w.shot.NoFrame?
    ensures r.loggedLen.None? <==> w.shot.NoFrame?
    ensures w.shot.Frame? && w.shot.format.Jpeg? ==> r.loggedLen == Some(w.shot.len)
    ensures w.shot.NoFrame? ==> r.events == [Send(Status500)] && r.status == EspFail
    ensures w.shot.Frame? ==> r.events != [] && r.events[|r.events| - 1] == Return(frame) && Count(r.events, Return(frame)) == 1
    ensures w.shot.Frame? && w.shot.format.Raw? ==> |r.events| >= 2 && r.events[|r.events| - 2] == Send(EndOfChunks)
  {
    var events := CaptureEvents(frame, w);
    if w.shot.NoFrame? then Reply(events, CaptureStatus(w), LoggedLength(w))
    else
      NoStatus500(frame, w);
      assert events == CaptureSends(frame, w) + [Return(frame)];
      Reply(events, CaptureStatus(w), LoggedLength(w))
  }

  /**
   The length the handler logs for a converted frame is the number of bytes
   of the chunks the transport took (modulo 2^32), even when a send failed.
   */
  lemma LoggedLengthIsDelivered(frame: nat, w: World)
    requires w.shot.Frame? && w.shot.format.Raw?
    requires w.calls != [] && w.calls[0].index == 0 && ChunkSink.NoRestart(w.calls[1..])
    ensures CaptureHandler(frame, w).loggedLen == Some(ChunkSink.Delivered(w.calls) % SIZE_MODULUS)
  {
    ChunkSink.EncodeCountsDelivered(ChunkSink.Chunking(0), w.calls);
  }

  /**
   When every chunk got through, the length logged for a converted frame is
   the number of bytes the chunk sends carried, which is every byte the
   encoder pushed through the sink.
   */
  lemma LoggedLengthIsEncodedSize(frame: nat, w: World)
    requires w.shot.Frame? && w.shot.format.Raw?
    requires w.calls != [] && w.calls[0].index == 0
    requires ChunkSink.AllDelivered(w.calls) && ChunkSink.NoRestart(w.calls[1..])
    ensures CaptureHandler(frame, w).loggedLen == Some(ChunkBytes(ChunkSends(w.calls)) % SIZE_MODULUS)
  {
    ChunkSink.EncodeCountsAllBytes(ChunkSink.Chunking(0), w.calls);
  }
}
