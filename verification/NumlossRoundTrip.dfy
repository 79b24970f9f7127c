/** The codec as a whole: host encoder, host decoder and kernel decoder together. */
module NumlossRoundTrip {
  import opened Bytes
  import opened NumlossTransforms
  import opened NumlossFormat
  import opened KernelTransforms
  import opened KernelDecoder
  import Encoder
  import PyDecoder

  lemma WithinFits(archive: seq<byte>)
    requires Within(archive, TRANSFORM_BUF_SIZE)
    ensures SingleFits(archive) && TextFits(archive)
  {
  }

  lemma {:induction false} EachWithinFits(data: seq<byte>)
    requires EachWithin(data, TRANSFORM_BUF_SIZE)
    ensures EachChunkFits(data) && EachTextFits(data)
    decreases |data|
  {
    if data != [] && FirstChunk(data).Some? {
      var chunk := FirstChunk(data).value;
      WithinFits(chunk);
      EachWithinFits(data[|chunk|..]);
    }
  }

  lemma {:induction false} EachWithinLarger(data: seq<byte>, small: nat, limit: nat)
    requires small <= limit && EachWithin(data, small)
    ensures EachWithin(data, limit)
    decreases |data|
  {
    if data != [] && FirstChunk(data).Some? {
      EachWithinLarger(data[|FirstChunk(data).value|..], small, limit);
    }
  }

  /** Whatever the host encodes, the host decodes to the same bytes. */
  method HostRoundTrip(texts: Encoder.Texts, data: seq<byte>, chunkSize: Option<int>) returns (archive: seq<byte>, back: Option<seq<byte>>)
    requires texts.Ordered() && |data| <= 0xFFFFFFFF
    requires chunkSize.None? || |data| <= chunkSize.value || 0 < chunkSize.value
    ensures back == Meaning(texts.ds, archive)
    ensures Encoder.SizesFit(Encoder.PartSize(|data|, chunkSize)) ==> Meaning(texts.ds, archive) == Some(data)
  {
    var r := Encoder.Encode(texts, data, chunkSize);
    archive := r.value;
    back := PyDecoder.Decode(texts.ds, archive);
  }

  /**
    Whatever the host encodes in parts of at most 256 KiB, the kernel decodes to the same bytes, whichever
    version, transform, dictionary or chunking the encoder chose.
   */
  method KernelRoundTrip(texts: Encoder.Texts, data: seq<byte>, chunkSize: Option<int>,
                         kernel: Decoder, output: array<byte>, cap: nat)
    returns (archive: seq<byte>, rc: int, size: nat)
    requires texts.Ordered() && kernel.Valid() && kernel.Separate(output) && kernel.dicts == texts.ds
    requires chunkSize.None? || |data| <= chunkSize.value || 0 < chunkSize.value
    requires Encoder.PartSize(|data|, chunkSize) <= TRANSFORM_BUF_SIZE
    requires |data| <= cap <= MAX_BUFFER && cap <= output.Length
    modifies output, kernel.visit.bytes, kernel.transformBuf
    ensures Meaning(texts.ds, archive) == Some(data)
    ensures |archive| <= Encoder.ArchiveBound(|data|, chunkSize)
    ensures |archive| <= MAX_BUFFER ==> rc == NUMLOSS_OK && size == |data| && output[..size] == data
  {
    rc, size := NUMLOSS_ERR_FORMAT, 0;
    var r := Encoder.Encode(texts, data, chunkSize);
    archive := r.value;
    if |archive| <= MAX_BUFFER {
      if ArchiveVersion(archive) == VERSION_V2 {
        EachWithinLarger(archive[HEADER_SIZE..], Encoder.PartSize(|data|, chunkSize), TRANSFORM_BUF_SIZE);
        EachWithinFits(archive[HEADER_SIZE..]);
      } else {
        WithinFits(archive);
      }
      rc, size := kernel.Decode(archive, output, cap);
    }
  }

  /**
    The two decoders agree: within the kernel's limits they accept the same archives and yield the same bytes,
    for well-formed and malformed input alike.
   */
  method DecodersAgree(kernel: Decoder, input: seq<byte>, output: array<byte>, cap: nat)
    returns (host: Option<seq<byte>>, rc: int, size: nat)
    requires kernel.Valid() && kernel.Separate(output) && ArchiveFits(input) && TextsFit(input)
    requires |input| <= MAX_BUFFER && cap <= MAX_BUFFER && cap <= output.Length
    requires HEADER_SIZE <= |input| ==> OriginalSize(input) <= cap
    modifies output, kernel.visit.bytes, kernel.transformBuf
    ensures host == Meaning(kernel.dicts, input)
    ensures rc == NUMLOSS_OK <==> host.Some?
    ensures rc == NUMLOSS_OK ==> size <= output.Length && host == Some(output[..size])
  {
    host := PyDecoder.Decode(kernel.dicts, input);
    rc, size := kernel.Decode(input, output, cap);
  }
}
