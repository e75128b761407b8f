/**
 The text of the `multipart/x-mixed-replace` stream: the content type, the
 boundary between parts, and the header in front of each JPEG, formatted
 with `snprintf` into a 64-byte buffer.
 */
module Multipart {
  import opened Options
  import opened Camera
  import Decimal

  const PART_BOUNDARY: string := "123456789000000000000987654321"
  const STREAM_CONTENT_TYPE: string := "multipart/x-mixed-replace;boundary=" + PART_BOUNDARY
  const STREAM_BOUNDARY: string := "\r\n--" + PART_BOUNDARY + "\r\n"

  /** `_STREAM_PART` split at its `%u`. */
  const PART_PREFIX: string := "Content-Type: image/jpeg\r\nContent-Length: "
  const PART_SUFFIX: string := "\r\n\r\n"

  /** The size of the buffer the part header is formatted into. */
  const PART_BUF_SIZE: nat := 64

  /** `_STREAM_PART` with the payload length written by `%u`: at most
      46 characters of text plus ten digits, so it always fits its buffer. */
  function PartText(len: Size): (t: string)
    ensures |t| < PART_BUF_SIZE
  {
    Decimal.RenderLength32(len);
    PART_PREFIX + Decimal.Render(len) + PART_SUFFIX
  }

  /** A client reading the header finds the payload's exact length. */
  lemma PartTextLength(len: Size)
    ensures ContentLength(PartText(len)) == Some(len as nat)
  {
    var digits := Decimal.Render(len);
    Decimal.ValueOfRender(len);
    var t := PART_PREFIX + digits + PART_SUFFIX;
    assert t[..|PART_PREFIX|] == PART_PREFIX;
    assert t[|PART_PREFIX|..|t| - |PART_SUFFIX|] == digits;
    assert t[|t| - |PART_SUFFIX|..] == PART_SUFFIX;
  }

  /** How a client reads the length back out of a part header. */
  function ContentLength(h: string): Option<nat> {
    var n := |PART_PREFIX|;
    var m := |PART_SUFFIX|;
    if |h| > n + m && h[..n] == PART_PREFIX && h[|h| - m..] == PART_SUFFIX
       && Decimal.AllDigits(h[n..|h| - m])
    then Some(Decimal.Value(h[n..|h| - m]))
    else None
  }

  /**
   `snprintf(buf, cap, ...)` once the text is formatted: the buffer keeps at
   most `cap - 1` characters (room for the terminating NUL) and the return
   value is the length of the whole text, truncated or not.
   */
  function Snprintf(cap: nat, text: string): (r: (string, nat))
    requires cap > 0
    ensures r.1 == |text|
    ensures r.0 <= text && |r.0| < cap
    ensures |text| < cap <==> r.0 == text
  {
    (if |text| < cap then text else text[..cap - 1], |text|)
  }

  /** The header of every part fits its buffer, so the byte count handed to
      the transport is exactly the formatted text and nothing past it. */
  lemma PartHeaderFits(len: Size)
    ensures var (buf, hlen) := Snprintf(PART_BUF_SIZE, PartText(len));
            && buf == PartText(len)
            && hlen == |buf|
            && ContentLength(buf) == Some(len as nat)
  {
    PartTextLength(len);
  }
}
