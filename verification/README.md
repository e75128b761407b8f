# ESP32-CAM robot car web server — Dafny model

This project models the request handlers in `app_httpd.cpp` of a small
ESP32-CAM robot car. The handlers are listed below.

- **`/control` (`cmd_handler`)**: reads `var` and `val` from the query string and decodes `val` with C `atoi`. It then does one of the following:
  - sets the camera's frame size or JPEG quality;
  - drives the flash LED, the servo or the four motor PWM channels;
  - stores the drive speed that later motion commands use.

  It answers 404 when the query is missing, 500 when the request is refused, and otherwise an empty 200 with `Access-Control-Allow-Origin: *`.
- **`/stream` (`stream_handler`)**: an endless loop.
  - Each iteration captures a frame and converts it to JPEG if needed.
  - It then sends one `multipart/x-mixed-replace` part: a header with `Content-Length`, the JPEG bytes, and the boundary.
  - Finally it gives the bytes back: a pool frame is returned, a converted buffer is freed.
- **`/capture` (`capture_handler`)**: sends one frame.
  - A JPEG frame is sent in one piece.
  - Any other frame is encoded chunk by chunk through `jpg_encode_stream`, the sink that forwards each chunk and counts bytes.

The outside world becomes data in the model:
- the HTTP transport, whether each send succeeds;
- the camera's captures, the JPEG converter and the sensor setters;
- the clock.

The model records each handler's visible behaviour as values:
- the PWM writes, sensor calls and response for `/control`;
- an event trace for `/stream` and `/capture`: the parts sent, frames returned to the pool, and buffers freed;
- for `/capture`, the `esp_err_t` result and the length logged, when one is logged.

Modules:

- `Options`: the `Option` type.
- `Decimal`: decimal numerals. It covers `%u` rendering and reading a numeral back.
- `CAtoi`: the C `atoi` function over `int`, where the value is defined.
- `Command`: `cmd_handler`, plus a sequence of requests sharing the global `speed`.
- `Camera`: the shared types: `size_t` as `Size`, frames, buffers, parts and events.
- `Ownership`: when an event gives a buffer up, and the no-use-after-release property of traces.
- `ChunkSink`: `jpg_encode_stream`.
- `Multipart`: the stream's constants, the part header and `snprintf` into its 64-byte buffer.
- `Stream`: the `stream_handler` loop.
- `Capture`: `capture_handler`.

Modelling conventions:
- `size_t` is 32 bits (ESP32). `jpg_chunking_t.len` wraps modulo 2^32.
- `ledcWrite` takes a `uint32_t` duty, so an `int` argument is reduced modulo 2^32. This matters for `flash` with a negative value.
- The servo rule is modelled as written:
  - values below 225 become 325;
  - values above 650 become 650;
  - 225..324 pass through, below the 325 minimum of the control page's slider.

  `Command.ServoDutyRange` states the resulting duty range and exactly which inputs land below the slider's range.

## Model

| member | source | states |
|---|---|---|
| Command.ToDuty | app_httpd.cpp:231 | An `int` passed as the `uint32_t` duty is kept when in range and otherwise wrapped by 2^32. For example, -1 becomes 2^32-1. |
| Command.ClampSpeed | app_httpd.cpp:236-238 | The stored speed is the value clamped to [0, 255]. It is unchanged exactly when the value is already in range. |
| Command.ServoAngle | app_httpd.cpp:245-246 | The servo value always lands in [225, 650]. Values below 225 reset to 325, values above 650 are cut to 650, and the value passes through exactly when it is within [225, 650]. |
| Command.ServoDutyRange | app_httpd.cpp:241-248 | A `servo` command makes exactly one write, on channel 8. Its duty lies in [2250, 6500]. The duty is below the slider's 3250 exactly when the value is in 225..324. |
| Command.MotionOf | app_httpd.cpp:250-295 | A `car` value selects a motion exactly when it is 1 to 5. |
| Command.CarWrites | app_httpd.cpp:249-296 | The channel-by-channel writes of each `car` value are the H-bridge writes of a differential drive doing the labelled motion: forward, turn left, stop, turn right, backward. Any other value writes nothing. |
| Command.NoShootThrough | app_httpd.cpp:249-296 | Every motion writes all four channels. No motion ever drives both inputs of one wheel's H-bridge at once. |
| Command.Dispatch | app_httpd.cpp:213-308 | Once `var` and `val` are read, the answer is never 404. It is 500 exactly when the name is unknown, or `quality` fails, or `framesize` fails while the sensor is in JPEG. Only `speed` changes the speed. Only `quality` calls a setter, and so does `framesize` when the sensor is in JPEG. Only `flash`, `servo` and `car` write PWM. |
| Command.Handle | app_httpd.cpp:180-309 | A request that is missing `var` or `val` touches nothing. It gets 500 exactly when the query buffer could not be allocated, and 404 otherwise. A complete request is dispatched on `atoi(val)`. The stored speed stays within [0, 255]. |
| Command.Serve | app_httpd.cpp:3 | Serving a sequence of requests, with the global `speed` carried from one to the next, gives one response per request. The speed stays in [0, 255] when it starts there. |
| Command.ServeIsReplies | app_httpd.cpp:180-309 | Serving requests one after another is the same as handling each on its own at the speed the requests before it stored. Response `i` is request `i`'s response. The PWM writes and sensor calls are the requests' own, in request order. |
| Command.HandleSpeed | app_httpd.cpp:233-239 | One request changes the speed only if it is a `speed` command, and then to the clamped value. |
| Command.SpeedIsLastStored | app_httpd.cpp:233-239 | After any sequence of requests, the speed is the one stored by the last `speed` command, or the starting speed if there was none. |
| Command.CarUsesStoredSpeed | app_httpd.cpp:249-296 | Starting from 255, a motion command succeeds, leaves the speed unchanged, and drives the wheels at the speed the last `speed` command stored. |
| CAtoi.Atoi | app_httpd.cpp:213 | `atoi` is negative only when a minus sign follows the leading white space. A nonzero value needs a digit somewhere in the text. |
| CAtoi.SkipSpaces | app_httpd.cpp:213 | `atoi` skips exactly the leading C white space. |
| CAtoi.DigitPrefix | app_httpd.cpp:213 | `atoi` reads the longest run of digits. |
| CAtoi.AtoiOfDigits | app_httpd.cpp:213 | `atoi` of white space, an optional sign, any non-empty run of decimal digits (leading zeros included, as in `0325`) and any non-digit tail is the run's signed value. |
| CAtoi.AtoiOfNumeral | app_httpd.cpp:213 | `atoi` of white space, an optional sign, the numeral `%u` prints and any non-digit tail is the numeral's signed value. |
| CAtoi.AtoiNoDigits | app_httpd.cpp:213 | Text with no digit after the white space and sign decodes to 0. Garbage values therefore become 0. |
| Decimal.Render | app_httpd.cpp:145 | `%u` gives a non-empty run of digits with no leading zero. |
| Decimal.ValueOfRender | app_httpd.cpp:145 | Reading back a `%u` numeral gives the number printed. |
| Decimal.RenderInjective | app_httpd.cpp:145 | Different numbers print as different numerals, so a numeral names exactly one number. |
| Decimal.RenderLength32 | app_httpd.cpp:145 | A `size_t` prints in at most ten digits. |
| Multipart.PartText | app_httpd.cpp:19 | The formatted part header is shorter than the 64-byte buffer it is written into. |
| Multipart.PartTextLength | app_httpd.cpp:145 | A client reading the part header finds the payload's exact length in `Content-Length`. |
| Multipart.Snprintf | app_httpd.cpp:145 | `snprintf` returns the full text length. The buffer keeps a prefix shorter than the capacity, and the whole text exactly when it fits. |
| Multipart.PartHeaderFits | app_httpd.cpp:145-146 | The header is never truncated, so the `hlen` bytes sent are exactly the header, and they carry the right length. |
| ChunkSink.Sink | app_httpd.cpp:24-34 | The sink returns either 0 or the chunk size. It returns 0 exactly when the send failed or the chunk was empty. A failed send leaves the count where the call started. A delivered chunk adds its size modulo 2^32. Chunk index 0 restarts the count. |
| ChunkSink.FeedAddsChunks | app_httpd.cpp:26-32 | Within one encode, the count grows by the sizes of the chunks the transport took, modulo 2^32. A refused chunk adds nothing. |
| ChunkSink.EncodeCountsDelivered | app_httpd.cpp:24-34 | An encode that starts at index 0 leaves the count at the bytes delivered during it, modulo 2^32. This holds whatever the count was before and whichever chunks were refused. |
| ChunkSink.EncodeCountsAllBytes | app_httpd.cpp:24-34 | An encode that starts at index 0 and delivers everything leaves the count at the image's byte total, whatever the count was before. |
| ChunkSink.OffsetEncodeCountsAllBytes | app_httpd.cpp:24-34 | The same holds when the encoder numbers chunks by byte offset and sends no empty chunk. |
| Stream.AllOkMeans | app_httpd.cpp:162-164 | The recursive "every iteration so far succeeded" is the same as the quantified one. |
| Stream.Iterate | app_httpd.cpp:124-164 | One loop iteration, statement by statement, produces exactly the sends and releases that the buffer-ownership reference `RoundEvents` prescribes. It continues exactly when the frame reached JPEG and all three sends succeeded. It leaves `_jpg_buf` NULL. |
| Stream.Advance | app_httpd.cpp:123-167 | One pass through the loop body appends exactly the next iteration's events. It continues exactly when every iteration so far succeeded. `_jpg_buf` stays NULL, and `last_frame` moves to the iteration's clock only when the loop goes on. |
| Stream.StreamLoop | app_httpd.cpp:123-173 | The loop breaks at the first failing iteration, after running it in full, with every earlier iteration successful. The events are exactly the iterations run, in order. While streaming, `last_frame` holds the last iteration's clock. |
| Stream.StreamHandler | app_httpd.cpp:105-177 | The handler sets the multipart content type first. It stops before the loop exactly when that fails, and then `last_frame` is not reset. Otherwise it runs the iterations in order and breaks at the first failing one, resetting `last_frame` to 0. While streaming, `last_frame` is the last iteration's clock. |
| Stream.SendsOfPart | app_httpd.cpp:144-153 | A part sends its header, then the payload only after the header went out, then the boundary only after the payload went out. |
| Stream.RoundFraming | app_httpd.cpp:144-153 | With JPEG bytes, an iteration sends 1 to 3 parts in framing order. The header fits its buffer and its `Content-Length` equals the payload length. The payload comes from the right buffer. Without JPEG bytes, nothing is sent. |
| Stream.RoundReleases | app_httpd.cpp:124-161 | In one iteration, the captured frame is returned exactly once and a converted buffer is freed exactly once. A pool buffer is never freed, and no other iteration's buffer is touched. |
| Stream.TraceReleases | app_httpd.cpp:123-173 | Over any number of iterations, every captured frame is returned exactly once, every converted buffer is freed exactly once, and no pool frame is ever freed. |
| Stream.SentBufferReleasedOnce | app_httpd.cpp:154-161 | The buffer an iteration sends from is given up exactly once, in the way its origin demands. |
| Stream.RoundNoUseAfterRelease | app_httpd.cpp:130-161 | Within an iteration, no payload is sent from a buffer already returned or freed. For example, a converted frame is returned before sending, but only its heap copy is read. |
| Stream.TraceNoUseAfterRelease | app_httpd.cpp:123-173 | Across the whole stream, no byte is ever sent from a buffer that was already given up. |
| Capture.ChunkSends | app_httpd.cpp:29 | Each sink call hands its chunk to `httpd_resp_send_chunk`, in the encoder's order. The chunk sends carry exactly the bytes the encoder produced. |
| Capture.CaptureEvents | app_httpd.cpp:36-65 | A failed capture sends only a 500. Otherwise the frame is returned exactly once, as the last step; nothing is freed, and nothing reads the frame after its return. A JPEG frame is sent as the content type, the disposition header and the frame's own bytes. Any other frame is sent as the two headers, one chunk per sink call and the closing empty chunk. |
| Capture.CaptureHandler | app_httpd.cpp:36-69 | A 500 is sent, and no length logged, exactly when the capture fails. A later failure (a refused body, a failed encode) still returns the frame, as the last step. A converted frame's chunked body is always closed, even when the encode fails. For a JPEG frame the logged length is the frame's own length. |
| Capture.CaptureStatus | app_httpd.cpp:38-68 | The handler fails exactly when there is no frame, when a JPEG frame's body send fails, or when encoding another frame fails. |
| Capture.LoggedLengthIsDelivered | app_httpd.cpp:55-67 | For a converted frame, the logged length is the bytes of the chunks the transport took, modulo 2^32, even when a send failed. |
| Capture.LoggedLengthIsEncodedSize | app_httpd.cpp:55-67 | For a converted frame whose chunks all got through, the logged length is the number of bytes the chunk sends carried, modulo 2^32. |

## Left out

- The ESP-IDF HTTP server: reading and splitting the query string, sending, and chunked encoding. These are parameters: `Query`, and the success flags of each send. `esp_http_server.h` is not part of this model.
- The camera driver and the JPEG converters (`esp_camera_fb_get`, `frame2jpg`, `frame2jpg_cb`, sensor setters). Their results are parameters. `esp_camera.h` and `img_converters.h` are not part of this model.
- `frame2jpg` is assumed to leave its output pointer untouched when it fails, so `_jpg_buf` stays NULL. The converter's source is not part of this model.
- How the encoder reacts to the sink returning 0. The sink calls are an arbitrary sequence given as a parameter.
- Serial logging, except the byte count `capture_handler` logs; `esp_timer_get_time` and the frame-time arithmetic. The clock is a per-iteration parameter; only `last_frame` is modelled.
- Lines 71-102 of `capture_handler` (the RGB888 matrix path). They are unreachable, because the block before them always returns.
- Server start-up, URI registration and the page handlers outside the three handlers above.
- Concurrency: `/control` requests are modelled one at a time. Any concurrent handling of `/control` requests, which share the global `speed`, is not modelled.
- The PWM timer's resolution and frequency: a duty is modelled as the `uint32_t` passed to `ledcWrite`. `esp32-hal-ledc.h` is not part of this model.
- The endless stream loop is modelled over a finite list of iterations. Running out of iterations is not an exit of the handler.
- Command.Handle: requires that `atoi(val)` fits in an `int`, because `atoi` overflow is undefined behaviour in C.
- Command.Serve: requires the same of every request in the sequence.
- Command.ServeIsReplies: requires the same of every request in the sequence.
