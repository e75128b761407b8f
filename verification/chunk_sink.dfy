/**
 `jpg_encode_stream`, the sink the JPEG encoder calls with each chunk of its
 output: it forwards the chunk to the open chunked response and keeps a
 running byte count, reset whenever a new encode starts (chunk index 0).
 Whether the transport accepts a chunk is an oracle carried by the call.
 */
module ChunkSink {
  import opened Camera

  /** `jpg_chunking_t` without the request handle: the running byte count. */
  datatype Chunking = Chunking(len: Size)

  /** One call from the encoder: the chunk's offset and size, and whether
      `httpd_resp_send_chunk` accepted it. */
  datatype SinkCall = SinkCall(index: Size, size: Size, delivered: bool)

  /** The count a call starts from: 0 at the start of an encode. */
  function Base(st: Chunking, c: SinkCall): Size {
    if c.index == 0 then 0 else st.len
  }

  /**
   One call. The result is the new state and the value returned to the
   encoder: the chunk size when the transport took the chunk, 0 (stop) when
   it did not, in which case the count is not advanced.
   */
  function Sink(st: Chunking, c: SinkCall): (r: (Chunking, Size))
    ensures r.1 == 0 || r.1 == c.size
    ensures r.1 == 0 <==> !c.delivered || c.size == 0
    ensures !c.delivered ==> r.0.len == Base(st, c)
    ensures c.delivered ==> (Base(st, c) + c.size - r.0.len) % SIZE_MODULUS == 0
  {
    var base := Chunking(Base(st, c));
    if !c.delivered then (base, 0)
    else (Chunking((base.len + c.size) % SIZE_MODULUS), c.size)
  }

  /** The encoder's calls, one after another. */
  function Feed(st: Chunking, calls: seq<SinkCall>): Chunking
    decreases |calls|
  {
    if calls == [] then st else Feed(Sink(st, calls[0]).0, calls[1..])
  }

  function Total(calls: seq<SinkCall>): nat {
    if calls == [] then 0 else calls[0].size + Total(calls[1..])
  }

  predicate AllDelivered(calls: seq<SinkCall>) {
    forall i :: 0 <= i < |calls| ==> calls[i].delivered
  }

  predicate NoRestart(calls: seq<SinkCall>) {
    forall i :: 0 <= i < |calls| ==> calls[i].index != 0
  }

  /** Reducing the first addend first does not change the sum modulo 2^32. */
  lemma ModAdd(a: nat, b: nat)
    ensures (a % SIZE_MODULUS + b) % SIZE_MODULUS == (a + b) % SIZE_MODULUS
  {
  }

  /** The bytes of the chunks the transport took. */
  function Delivered(calls: seq<SinkCall>): nat {
    if calls == [] then 0 else (if calls[0].delivered then calls[0].size else 0) + Delivered(calls[1..])
  }

  /** Within one encode, the count grows by every delivered chunk, modulo
      2^32; a chunk the transport refused adds nothing. */
  lemma {:induction false} FeedAddsChunks(st: Chunking, calls: seq<SinkCall>)
    requires NoRestart(calls)
    ensures Feed(st, calls).len == (st.len + Delivered(calls)) % SIZE_MODULUS
    decreases |calls|
  {
    if calls != [] {
      var c := calls[0];
      var added := if c.delivered then c.size else 0;
      var next := Sink(st, c).0;
      assert next.len == (st.len + added) % SIZE_MODULUS;
      assert NoRestart(calls[1..]) by {
        forall i | 0 <= i < |calls[1..]| ensures calls[1..][i] == calls[i + 1] { }
      }
      FeedAddsChunks(next, calls[1..]);
      ModAdd(st.len + added, Delivered(calls[1..]));
    }
  }

  /**
   An encode that starts at index 0 leaves the count at the bytes delivered
   during it (modulo 2^32), whatever the count was before and whichever
   chunks the transport refused.
   */
  lemma EncodeCountsDelivered(st: Chunking, calls: seq<SinkCall>)
    requires calls != [] && calls[0].index == 0 && NoRestart(calls[1..])
    ensures Feed(st, calls).len == Delivered(calls) % SIZE_MODULUS
    ensures Delivered(calls) < SIZE_MODULUS ==> Feed(st, calls).len == Delivered(calls)
  {
    var rest := calls[1..];
    var first := Sink(st, calls[0]).0;
    var added := if calls[0].delivered then calls[0].size else 0;
    assert first.len == added % SIZE_MODULUS;
    assert Feed(st, calls) == Feed(first, rest);
    FeedAddsChunks(first, rest);
    assert Delivered(calls) == added + Delivered(rest);
    SumResidue(added, Delivered(rest), Feed(st, calls).len);
  }

  /** When every chunk gets through, the delivered bytes are all the bytes. */
  lemma {:induction false} DeliveredAll(calls: seq<SinkCall>)
    requires AllDelivered(calls)
    ensures Delivered(calls) == Total(calls)
  {
    if calls != [] {
      assert AllDelivered(calls[1..]) by {
        forall i | 0 <= i < |calls[1..]| ensures calls[1..][i] == calls[i + 1] { }
      }
      DeliveredAll(calls[1..]);
    }
  }

  /**
   An encode that starts at index 0 and whose chunks all get through leaves
   the count at the total of the chunk sizes (modulo 2^32, so exactly the
   total for any image below 4 GiB), whatever the count was before.
   */
  lemma EncodeCountsAllBytes(st: Chunking, calls: seq<SinkCall>)
    requires calls != [] && calls[0].index == 0
    requires AllDelivered(calls) && NoRestart(calls[1..])
    ensures Feed(st, calls).len == Total(calls) % SIZE_MODULUS
    ensures Total(calls) < SIZE_MODULUS ==> Feed(st, calls).len == Total(calls)
  {
    EncodeCountsDelivered(st, calls);
    DeliveredAll(calls);
  }

  /** The residue of a sum whose first addend was reduced first, and that
      residue for a sum below 2^32. */
  lemma SumResidue(a: nat, b: nat, len: nat)
    requires len == (a % SIZE_MODULUS + b) % SIZE_MODULUS
    ensures len == (a + b) % SIZE_MODULUS
    ensures a + b < SIZE_MODULUS ==> len == a + b
  {
    ModAdd(a, b);
  }

  /** The encoder's own numbering: each chunk's index is the number of bytes before it. */
  predicate Offsets(calls: seq<SinkCall>) {
    forall i :: 0 <= i < |calls| ==> calls[i].index == Total(calls[..i])
  }

  lemma {:induction false} TotalPrefix(calls: seq<SinkCall>, i: nat)
    requires 0 < i <= |calls|
    ensures Total(calls[..i]) >= calls[0].size
  {
  }

  /** With the encoder's offsets and no empty chunk, every chunk after the
      first has a nonzero index, so the count covers the whole image. */
  lemma OffsetEncodeCountsAllBytes(st: Chunking, calls: seq<SinkCall>)
    requires calls != [] && Offsets(calls) && AllDelivered(calls)
    requires forall i :: 0 <= i < |calls| ==> calls[i].size > 0
    ensures Feed(st, calls).len == Total(calls) % SIZE_MODULUS
  {
    assert calls[..0] == [];
    forall i | 0 <= i < |calls[1..]| ensures calls[1..][i].index != 0 {
      TotalPrefix(calls, i + 1);
    }
    EncodeCountsAllBytes(st, calls);
  }
}
