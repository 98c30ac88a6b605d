/** The byte arithmetic of `/dump`: the UTF-8 encoding of an article is cut into slices of
    `max_length - 1` bytes, each decoded back to text and sent behind an `[i/n] ` header. */
module Chunking {
  import opened Outcomes
  import opened Utf8
  import opened Numerals

  /** `max_length`: a 100-byte radio payload less 6 bytes kept for the header. */
  const MaxLength: nat := 100 - 6

  /** The number of content bytes each chunk carries, `max_length - 1`. Below, the offset of
      slice `k` is written `93 * k`, with the value of `ChunkBytes` spelled out, so that it
      stays linear arithmetic for the verifier. */
  const ChunkBytes: nat := MaxLength - 1

  /** The `index`-th slice of the content, decoded. */
  datatype Chunk = Chunk(index: nat, payload: string)

  /** The chunks produced before the loop ended, and whether it ran to the end of the data
      (`false`: a slice failed to decode and the loop raised). */
  datatype Dump = Dump(chunks: seq<Chunk>, complete: bool)

  function Min(a: int, b: int): int {
    if a <= b then a else b
  }

  /** `data[i:i + max_length - 1]` for `i == 93 * k`. */
  function Slice(bs: seq<byte>, k: nat): seq<byte>
    requires 93 * k < |bs|
  {
    bs[93 * k..Min(93 * k + ChunkBytes, |bs|)]
  }

  /** What `data[i:i + max_length - 1].decode("utf-8")` gives for a slice: the text, or `None`
      where Python raises. */
  type Decoder = seq<byte> -> Option<string>

  /** The decoder gives back text whose encoding is the slice. */
  ghost predicate Inverts(decode: Decoder) {
    forall x :: decode(x).Some? ==> Encode(decode(x).value) == x
  }

  /** The decoder accepts every slice of bytes below 0x80. */
  ghost predicate AcceptsAscii(decode: Decoder) {
    forall x :: (forall i :: 0 <= i < |x| ==> x[i] < 0x80) ==> decode(x).Some?
  }

  /** Python's strict UTF-8 decoder has both properties. */
  lemma StrictDecoder()
    ensures Inverts(Decode) && AcceptsAscii(Decode)
  {
    forall x | Decode(x).Some?
      ensures Encode(Decode(x).value) == x
    {
      EncodeDecode(x, Decode(x).value);
    }
    forall x | forall i :: 0 <= i < |x| ==> x[i] < 0x80
      ensures Decode(x).Some?
    {
      DecodeAsciiBytes(x);
    }
  }

  /** The loop `for i in range(0, len(data), max_length - 1)` from slice `k` on. */
  function ChunksFrom(bs: seq<byte>, k: nat, decode: Decoder): Dump
    decreases |bs| - 93 * k
  {
    if 93 * k >= |bs| then Dump([], true)
    else
      match decode(Slice(bs, k))
      case None => Dump([], false)
      case Some(p) =>
        var rest := ChunksFrom(bs, k + 1, decode);
        Dump([Chunk(k, p)] + rest.chunks, rest.complete)
  }

  /** The loop over the whole article with Python's strict UTF-8 decoder. */
  function Chunks(bs: seq<byte>): Dump {
    ChunksFrom(bs, 0, Decode)
  }

  /** `ceil(n / 93)`: the number of slices `range(0, n, 93)` visits. */
  function ChunkCount(n: nat): nat {
    (n + ChunkBytes - 1) / ChunkBytes
  }

  /** `f"[{i // 93}/{num_chunks}] "`. */
  function Header(index: nat, total: nat): string {
    "[" + NatToString(index) + "/" + NatToString(total) + "] "
  }

  /** The message sent for a chunk. */
  function Render(c: Chunk, total: nat): string {
    Header(c.index, total) + c.payload
  }

  /** The payloads of the chunks, in order, concatenated. */
  function Payloads(cs: seq<Chunk>): string
    decreases |cs|
  {
    if |cs| == 0 then "" else cs[0].payload + Payloads(cs[1..])
  }

  lemma ChunkCountStep(m: nat)
    requires m > 0
    ensures ChunkCount(m) == 1 + (if m <= ChunkBytes then 0 else ChunkCount(m - ChunkBytes))
  {
    var x := m - 1;
    assert ChunkCount(m) == (x + 93) / 93;
    assert (x + 93) / 93 == x / 93 + 1;
    if m > ChunkBytes {
      assert ChunkCount(m - ChunkBytes) == x / 93;
    }
  }

  /** One turn of the loop: a slice that decodes becomes chunk `k`, and the loop goes on. */
  lemma ChunksFromStep(bs: seq<byte>, k: nat, decode: Decoder)
    requires 93 * k < |bs| && decode(Slice(bs, k)).Some?
    ensures var rest := ChunksFrom(bs, k + 1, decode);
      ChunksFrom(bs, k, decode) == Dump([Chunk(k, decode(Slice(bs, k)).value)] + rest.chunks, rest.complete)
  {
  }

  /** `c` is slice `i` of the data: numbered `i`, and what that slice decodes to. */
  predicate IsSlice(bs: seq<byte>, decode: Decoder, c: Chunk, i: nat) {
    c.index == i && 93 * i < |bs| && decode(Slice(bs, i)) == Some(c.payload)
  }

  /** Chunk `j` from slice `k` on is slice `k + j`: numbered `k + j`, and the decoding of
      that slice. */
  lemma {:induction false} ChunksFromSlices(bs: seq<byte>, k: nat, decode: Decoder)
    ensures forall j :: 0 <= j < |ChunksFrom(bs, k, decode).chunks| ==>
      IsSlice(bs, decode, ChunksFrom(bs, k, decode).chunks[j], k + j)
    decreases |bs| - 93 * k
  {
    if 93 * k < |bs| && decode(Slice(bs, k)).Some? {
      ChunksFromSlices(bs, k + 1, decode);
      ChunksFromStep(bs, k, decode);
      var d := ChunksFrom(bs, k, decode).chunks;
      var rest := ChunksFrom(bs, k + 1, decode).chunks;
      assert IsSlice(bs, decode, d[0], k);
      forall j | 1 <= j < |d|
        ensures IsSlice(bs, decode, d[j], k + j)
      {
        assert d[j] == rest[j - 1] && IsSlice(bs, decode, rest[j - 1], (k + 1) + (j - 1));
      }
    }
  }

  /** A complete run from slice `k` visits every remaining slice. */
  lemma {:induction false} ChunksFromCount(bs: seq<byte>, k: nat, decode: Decoder)
    requires ChunksFrom(bs, k, decode).complete
    ensures |ChunksFrom(bs, k, decode).chunks| == if 93 * k >= |bs| then 0 else ChunkCount(|bs| - 93 * k)
    decreases |bs| - 93 * k
  {
    if 93 * k < |bs| {
      ChunksFromCount(bs, k + 1, decode);
      var m := |bs| - 93 * k;
      ChunkCountStep(m);
      assert m - ChunkBytes == |bs| - 93 * (k + 1);
    }
  }

  /** An incomplete run stops at the first slice that does not decode. */
  lemma {:induction false} ChunksFromStop(bs: seq<byte>, k: nat, decode: Decoder)
    requires !ChunksFrom(bs, k, decode).complete
    ensures var n := |ChunksFrom(bs, k, decode).chunks|;
      93 * (k + n) < |bs| && decode(Slice(bs, k + n)).None?
    decreases |bs| - 93 * k
  {
    if 93 * k < |bs| && decode(Slice(bs, k)).Some? {
      ChunksFromStop(bs, k + 1, decode);
      ChunksFromStep(bs, k, decode);
      assert k + |ChunksFrom(bs, k, decode).chunks| == (k + 1) + |ChunksFrom(bs, k + 1, decode).chunks|;
    }
  }

  /** The data from slice `k` on is slice `k` followed by the data from slice `k + 1` on. */
  lemma SliceThenRest(bs: seq<byte>, k: nat)
    requires 93 * k < |bs|
    ensures bs[93 * k..] == Slice(bs, k) + bs[Min(93 * (k + 1), |bs|)..]
  {
    var lo, hi := 93 * k, Min(93 * k + ChunkBytes, |bs|);
    assert hi == Min(93 * (k + 1), |bs|);
    assert bs[lo..] == bs[lo..hi] + bs[hi..];
  }

  lemma PayloadsCons(c: Chunk, rest: seq<Chunk>)
    ensures Payloads([c] + rest) == c.payload + Payloads(rest)
  {
    assert ([c] + rest)[1..] == rest;
  }

  /** A complete run's payloads encode exactly the data from slice `k` on. */
  lemma {:induction false} ChunksFromPayloads(bs: seq<byte>, k: nat, decode: Decoder)
    requires Inverts(decode)
    requires ChunksFrom(bs, k, decode).complete
    ensures Encode(Payloads(ChunksFrom(bs, k, decode).chunks)) == bs[Min(93 * k, |bs|)..]
    decreases |bs| - 93 * k
  {
    if 93 * k < |bs| {
      assert decode(Slice(bs, k)).Some?;
      var p := decode(Slice(bs, k)).value;
      ChunksFromStep(bs, k, decode);
      var rest := ChunksFrom(bs, k + 1, decode).chunks;
      ChunksFromPayloads(bs, k + 1, decode);
      PayloadsCons(Chunk(k, p), rest);
      EncodeAppend(p, Payloads(rest));
      SliceThenRest(bs, k);
    }
  }

  /** The chunks are numbered from zero in order. */
  lemma ChunkIndices(bs: seq<byte>)
    ensures forall j :: 0 <= j < |Chunks(bs).chunks| ==> Chunks(bs).chunks[j].index == j
  {
    var cs := Chunks(bs).chunks;
    ChunksFromSlices(bs, 0, Decode);
    forall j | 0 <= j < |cs|
      ensures cs[j].index == j
    {
      assert IsSlice(bs, Decode, cs[j], 0 + j);
    }
  }

  /** When every slice decodes, the payloads put back together are the article. */
  lemma DumpRoundTrip(content: string)
    requires Chunks(Encode(content)).complete
    ensures Payloads(Chunks(Encode(content)).chunks) == content
    ensures |Chunks(Encode(content)).chunks| == ChunkCount(|Encode(content)|)
  {
    var bs := Encode(content);
    StrictDecoder();
    ChunksFromPayloads(bs, 0, Decode);
    ChunksFromCount(bs, 0, Decode);
    assert 93 * 0 == 0;
    assert ChunkCount(0) == 0;
    assert bs[0..] == bs;
    EncodeInjective(Payloads(Chunks(bs).chunks), content);
  }

  lemma {:induction false} AsciiChunksFromComplete(bs: seq<byte>, k: nat, decode: Decoder)
    requires AcceptsAscii(decode)
    requires forall i :: 0 <= i < |bs| ==> bs[i] < 0x80
    ensures ChunksFrom(bs, k, decode).complete
    decreases |bs| - 93 * k
  {
    if 93 * k < |bs| {
      AsciiChunksFromComplete(bs, k + 1, decode);
    }
  }

  /** Every slice of an ASCII article decodes, so its dump runs to the end. */
  lemma AsciiDumpCompletes(content: string)
    requires IsAscii(content)
    ensures Chunks(Encode(content)).complete
  {
    EncodeAscii(content);
    StrictDecoder();
    AsciiChunksFromComplete(Encode(content), 0, Decode);
  }
}
