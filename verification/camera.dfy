/**
 What the HTTP handlers see of the camera and of the response they write:
 frames handed out by the camera driver's frame pool, buffers holding JPEG
 bytes, and the trace of releases and sends a handler performs.
 */
module Camera {

  const SIZE_MODULUS: int := 0x1_0000_0000

  /** `size_t`, 32 bits wide on the ESP32. */
  type Size = n: int | 0 <= n < SIZE_MODULUS

  /** A frame's pixel format: already JPEG, or anything that must be converted. */
  datatype Format = Jpeg | Raw

  /** The outcome of `esp_camera_fb_get`: no frame, or a frame of `len` bytes. */
  datatype Shot = NoFrame | Frame(format: Format, len: Size)

  /**
   Where JPEG bytes live. The frames a handler acquires are numbered in the
   order it acquires them; frame `k`'s own buffer belongs to the frame pool
   and goes back with `esp_camera_fb_return`, while a buffer the JPEG
   converter allocated for frame `k` is the handler's to `free`.
   */
  datatype Buffer = FrameBuffer(frame: nat) | HeapBuffer(frame: nat)

  /** What a handler hands to the HTTP server. */
  datatype Part =
    | ContentType(text: string)                 // httpd_resp_set_type
    | HeaderField(name: string, value: string)  // httpd_resp_set_hdr
    | Status500                                 // httpd_resp_send_500
    | PartHeader(text: string, count: nat)      // `count` bytes of a formatted part header
    | Payload(buf: Buffer, len: Size)           // `len` bytes straight out of `buf`
    | Boundary(text: string)                    // the text between two parts
    | Chunk(size: Size)                         // one chunk from the JPEG encoder
    | EndOfChunks                               // the empty chunk closing a chunked response

  /** One step of a handler's trace. */
  datatype Event = Return(frame: nat) | Free(buf: Buffer) | Send(part: Part)
}
