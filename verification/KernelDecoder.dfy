/** The kernel's numloss decoder (src/kernel/numloss.c), proved against NumlossFormat. */
module KernelDecoder {
  import opened Bytes
  import opened NumlossTransforms
  import opened NumlossFormat
  import opened ByteBuffer
  import opened KernelTransforms

  const NUMLOSS_OK := 0
  const NUMLOSS_ERR_OUTPUT := -3
  const NUMLOSS_ERR_FORMAT := -4

  /** Buffers this far below 4 GiB keep every `uint32_t` position sum of the decoder from wrapping. */
  const MAX_BUFFER: int := 0xFFFF_0000

  // ---------------------------------------------------------------- token streams

  /** How a method that carries out one token reports back. */
  ghost predicate Performs(rc: int, token: Token, before: Lz, cap: nat, after: Lz) {
    if rc == NUMLOSS_OK then Apply(token, before, cap) == Some(after) else Apply(token, before, cap).None?
  }

  method EmitLiteral(payload: seq<byte>, inPos: nat, len: nat, output: array<byte>, base: nat, cap: nat, outPos: nat,
                     overflow: int, ghost last: nat)
    returns (rc: int, outNext: nat)
    requires inPos + len <= |payload| && len <= 262 && overflow != NUMLOSS_OK
    requires outPos <= cap <= MAX_BUFFER && base + cap <= output.Length
    modifies output
    ensures outPos <= outNext <= cap && OnlyChanged(output, base + outPos, cap - outPos)
    ensures Performs(rc, Literal(payload[inPos..inPos + len]), Lz(old(output[base..base + outPos]), last), cap,
                     Lz(output[base..base + outNext], last))
  {
    if Add32(outPos, len) > cap { return overflow, outPos; }
    CopyLiteral(output, base, outPos, payload, inPos, len);
    return NUMLOSS_OK, outPos + len;
  }

  method EmitRun(value: byte, len: nat, output: array<byte>, base: nat, cap: nat, outPos: nat, overflow: int, ghost last: nat)
    returns (rc: int, outNext: nat)
    requires len <= 262 && overflow != NUMLOSS_OK && outPos <= cap <= MAX_BUFFER && base + cap <= output.Length
    modifies output
    ensures outPos <= outNext <= cap && OnlyChanged(output, base + outPos, cap - outPos)
    ensures Performs(rc, Run(len, value), Lz(old(output[base..base + outPos]), last), cap, Lz(output[base..base + outNext], last))
  {
    if Add32(outPos, len) > cap { return overflow, outPos; }
    FillRun(output, base, outPos, value, len);
    return NUMLOSS_OK, outPos + len;
  }

  method EmitMatch(offset: nat, len: nat, output: array<byte>, base: nat, cap: nat, outPos: nat, ghost last: nat)
    returns (rc: int, outNext: nat)
    requires len <= 262 && outPos <= cap <= MAX_BUFFER && base + cap <= output.Length
    modifies output
    ensures outPos <= outNext <= cap && OnlyChanged(output, base + outPos, cap - outPos)
    ensures Performs(rc, Match(len, offset), Lz(old(output[base..base + outPos]), last), cap, Lz(output[base..base + outNext], offset))
  {
    if offset == 0 || offset > outPos { return NUMLOSS_ERR_FORMAT, outPos; }
    if Add32(outPos, len) > cap { return NUMLOSS_ERR_OUTPUT, outPos; }
    CopyMatch(output, base, outPos, offset, len);
    return NUMLOSS_OK, outPos + len;
  }

  method DecodeMatchToken(payload: seq<byte>, inPos: nat, output: array<byte>, base: nat, cap: nat, outPos: nat, lastOffset: nat)
    returns (rc: int, inNext: nat, outNext: nat, last: nat)
    requires inPos < |payload| <= MAX_BUFFER && outPos <= cap <= MAX_BUFFER && base + cap <= output.Length
    requires payload[inPos] > 0x7f
    modifies output
    ensures OnlyChanged(output, base + outPos, cap - outPos) && outPos <= outNext <= cap
    ensures rc == NUMLOSS_OK ==> Parse(Modern, payload[inPos..]).Some?
    ensures match Parse(Modern, payload[inPos..])
            case None => rc != NUMLOSS_OK
            case Some(parsed) =>
              && inNext == inPos + parsed.size
              && Performs(rc, parsed.token, Lz(old(output[base..base + outPos]), lastOffset), cap,
                          Lz(output[base..base + outNext], last))
  {
    var token: int := payload[inPos];
    inNext, outNext, last := inPos + 1, outPos, lastOffset;

    if token <= 0xdf {
      if inNext >= |payload| { return NUMLOSS_ERR_FORMAT, inNext, outNext, last; }
      var code := (token - 0x80) * 256 + payload[inNext] as int;
      inNext := inNext + 1;
      var len, offset := UnpackShortMatch(code);
      if len > SHORT_MATCH_MAX { return NUMLOSS_ERR_FORMAT, inNext, outNext, last; }
      last := offset;
      rc, outNext := EmitMatch(last, len, output, base, cap, outPos, lastOffset);
    } else if token <= 0xfe {
      rc, outNext := EmitMatch(last, 3 + (token - 0xe0), output, base, cap, outPos, lastOffset);
    } else {
      if token != 0xff || Add32(inNext, 3) > |payload| { return NUMLOSS_ERR_FORMAT, inNext, outNext, last; }
      var len := 4 + payload[inNext] as int;
      last := payload[inNext + 1] as int + 256 * payload[inNext + 2] as int;
      rc, outNext := EmitMatch(last, len, output, base, cap, outPos, lastOffset);
      inNext := inNext + 3;
    }
  }

  method DecodeToken(payload: seq<byte>, inPos: nat, output: array<byte>, base: nat, cap: nat, outPos: nat, lastOffset: nat)
    returns (rc: int, inNext: nat, outNext: nat, last: nat)
    requires inPos < |payload| <= MAX_BUFFER && outPos <= cap <= MAX_BUFFER && base + cap <= output.Length
    modifies output
    ensures OnlyChanged(output, base + outPos, cap - outPos) && outPos <= outNext <= cap
    ensures rc == NUMLOSS_OK ==> Parse(Modern, payload[inPos..]).Some?
    ensures match Parse(Modern, payload[inPos..])
            case None => rc != NUMLOSS_OK
            case Some(parsed) =>
              && inNext == inPos + parsed.size
              && Performs(rc, parsed.token, Lz(old(output[base..base + outPos]), lastOffset), cap,
                          Lz(output[base..base + outNext], last))
  {
    ghost var p := payload[inPos..];
    var token: int := payload[inPos];
    inNext, outNext, last := inPos + 1, outPos, lastOffset;

    if token <= 0x3f {
      var len := token + 1;
      if Add32(inNext, len) > |payload| { return NUMLOSS_ERR_FORMAT, inNext, outNext, last; }
      assert payload[inNext..inNext + len] == p[1..1 + len];
      rc, outNext := EmitLiteral(payload, inNext, len, output, base, cap, outPos, NUMLOSS_ERR_FORMAT, last);
      inNext := inNext + len;
    } else if token <= 0x7f {
      if inNext >= |payload| { return NUMLOSS_ERR_FORMAT, inNext, outNext, last; }
      rc, outNext := EmitRun(payload[inNext], token - 0x40 + 3, output, base, cap, outPos, NUMLOSS_ERR_FORMAT, last);
      inNext := inNext + 1;
    } else {
      rc, inNext, outNext, last := DecodeMatchToken(payload, inPos, output, base, cap, outPos, lastOffset);
    }
  }

  method DecodeMatchStream(payload: seq<byte>, output: array<byte>, base: nat, cap: nat) returns (rc: int, size: nat)
    requires |payload| <= MAX_BUFFER && cap <= MAX_BUFFER && base + cap <= output.Length
    modifies output
    ensures OnlyChanged(output, base, cap)
    ensures rc == NUMLOSS_OK <==> Steps(Modern, payload, Lz([], 0), cap).Some?
    ensures rc == NUMLOSS_OK ==> size <= cap && Steps(Modern, payload, Lz([], 0), cap).value.out == output[base..base + size]
  {
    var inPos: nat, outPos: nat, lastOffset: nat := 0, 0, 0;
    ghost var start := Lz([], 0);
    while inPos < |payload|
      invariant inPos <= |payload| && outPos <= cap
      invariant OnlyChanged(output, base, cap)
      invariant Steps(Modern, payload, start, cap)
             == Steps(Modern, payload[inPos..], Lz(output[base..base + outPos], lastOffset), cap)
    {
      ghost var p, st := payload[inPos..], Lz(output[base..base + outPos], lastOffset);
      var inNext, outNext, last;
      rc, inNext, outNext, last := DecodeToken(payload, inPos, output, base, cap, outPos, lastOffset);
      if rc != NUMLOSS_OK { return rc, 0; }
      assert payload[inNext..] == p[inNext - inPos..];
      inPos, outPos, lastOffset := inNext, outNext, last;
    }
    return NUMLOSS_OK, outPos;
  }

  method DecodeTokenV1(payload: seq<byte>, inPos: nat, output: array<byte>, base: nat, cap: nat, outPos: nat, ghost lastOffset: nat)
    returns (rc: int, inNext: nat, outNext: nat, ghost last: nat)
    requires inPos < |payload| <= MAX_BUFFER && outPos <= cap <= MAX_BUFFER && base + cap <= output.Length
    modifies output
    ensures OnlyChanged(output, base + outPos, cap - outPos) && outPos <= outNext <= cap
    ensures rc == NUMLOSS_OK ==> Parse(Legacy, payload[inPos..]).Some?
    ensures match Parse(Legacy, payload[inPos..])
            case None => rc != NUMLOSS_OK
            case Some(parsed) =>
              && inNext == inPos + parsed.size
              && Performs(rc, parsed.token, Lz(old(output[base..base + outPos]), lastOffset), cap,
                          Lz(output[base..base + outNext], last))
  {
    ghost var p := payload[inPos..];
    var kind := payload[inPos] as int / 64;
    var low: nat := payload[inPos] as int % 64;
    inNext, outNext, last := inPos + 1, outPos, lastOffset;

    if kind == 0 {
      var len := low + 1;
      if Add32(inNext, len) > |payload| { return NUMLOSS_ERR_FORMAT, inNext, outNext, last; }
      assert payload[inNext..inNext + len] == p[1..1 + len];
      rc, outNext := EmitLiteral(payload, inNext, len, output, base, cap, outPos, NUMLOSS_ERR_OUTPUT, last);
      inNext := inNext + len;
    } else if kind == 1 {
      if inNext >= |payload| { return NUMLOSS_ERR_FORMAT, inNext, outNext, last; }
      rc, outNext := EmitRun(payload[inNext], low + 3, output, base, cap, outPos, NUMLOSS_ERR_OUTPUT, last);
      inNext := inNext + 1;
    } else if kind == 2 {
      if Add32(inNext, 2) > |payload| { return NUMLOSS_ERR_FORMAT, inNext, outNext, last; }
      var offset := payload[inNext] as int + 256 * payload[inNext + 1] as int;
      rc, outNext := EmitMatch(offset, low + 3, output, base, cap, outPos, lastOffset);
      last := offset;
      inNext := inNext + 2;
    } else {
      rc := NUMLOSS_ERR_FORMAT;
    }
  }

  method DecodeStreamV1(payload: seq<byte>, output: array<byte>, base: nat, cap: nat) returns (rc: int, size: nat)
    requires |payload| <= MAX_BUFFER && cap <= MAX_BUFFER && base + cap <= output.Length
    modifies output
    ensures OnlyChanged(output, base, cap)
    ensures rc == NUMLOSS_OK <==> Steps(Legacy, payload, Lz([], 0), cap).Some?
    ensures rc == NUMLOSS_OK ==> size <= cap && Steps(Legacy, payload, Lz([], 0), cap).value.out == output[base..base + size]
  {
    var inPos: nat, outPos: nat := 0, 0;
    ghost var lastOffset: nat := 0;
    ghost var start := Lz([], 0);
    while inPos < |payload|
      invariant inPos <= |payload| && outPos <= cap
      invariant OnlyChanged(output, base, cap)
      invariant Steps(Legacy, payload, start, cap)
             == Steps(Legacy, payload[inPos..], Lz(output[base..base + outPos], lastOffset), cap)
    {
      ghost var p := payload[inPos..];
      var inNext, outNext;
      ghost var last;
      rc, inNext, outNext, last := DecodeTokenV1(payload, inPos, output, base, cap, outPos, lastOffset);
      if rc != NUMLOSS_OK { return rc, 0; }
      assert payload[inNext..] == p[inNext - inPos..];
      inPos, outPos, lastOffset := inNext, outNext, last;
    }
    return NUMLOSS_OK, outPos;
  }

  // ---------------------------------------------------------------- text dictionaries

  /** Read the next token: the bytes it stands for and where the following one starts. */
  method NextPiece(input: array<byte>, inputSize: nat, inPos: nat, dict: Dictionary)
    returns (ok: bool, piece: seq<byte>, inNext: nat)
    requires inPos < inputSize <= input.Length
    ensures match FirstPiece(dict, input[inPos..inputSize])
            case None => !ok
            case Some(p) => ok && piece == p.bytes && inNext == inPos + p.size
  {
    var token := input[inPos];
    inNext := inPos + 1;
    if token == 0 {
      if inNext >= inputSize { return false, [], inNext; }
      return true, [input[inNext]], inNext + 1;
    }
    if token < 0x80 { return true, [token], inNext; }
    var index := token as int - 0x80;
    if index >= |dict| { return false, [], inNext; }
    return true, dict[index], inNext;
  }

  method InverseTextDictionary(input: array<byte>, inputSize: nat, dict: Dictionary, output: array<byte>, base: nat, cap: nat)
    returns (rc: int, outputSize: nat)
    requires inputSize <= input.Length && input != output
    requires cap <= MAX_BUFFER && base + cap <= output.Length
    modifies output
    ensures OnlyChanged(output, base, cap)
    ensures rc == NUMLOSS_OK <==> Expand(dict, input[..inputSize], []).Some? && |Expand(dict, input[..inputSize], []).value| <= cap
    ensures rc == NUMLOSS_OK ==> outputSize <= cap && Expand(dict, input[..inputSize], []) == Some(output[base..base + outputSize])
  {
    ghost var text := input[..inputSize];
    ghost var meaning := Expand(dict, text, []);
    var inPos: nat, outPos: nat := 0, 0;
    while inPos < inputSize
      invariant inPos <= inputSize && outPos <= cap && text == input[..inputSize]
      invariant OnlyChanged(output, base, cap)
      invariant meaning == Expand(dict, text[inPos..], output[base..base + outPos])
    {
      assert input[inPos..inputSize] == text[inPos..];
      var ok, piece, inNext := NextPiece(input, inputSize, inPos, dict);
      if !ok { return NUMLOSS_ERR_FORMAT, 0; }
      if Add32(outPos, |piece|) > cap { return NUMLOSS_ERR_OUTPUT, 0; }
      CopyLiteral(output, base, outPos, piece, 0, |piece|);
      assert piece[0..|piece|] == piece;
      assert text[inNext..] == text[inPos..][inNext - inPos..];
      inPos, outPos := inNext, outPos + |piece|;
    }
    return NUMLOSS_OK, outPos;
  }

  // ---------------------------------------------------------------- archives

  /** Undoing a lane grouping walks a bitmap of 256 Ki bits: larger outputs have no place in it. */
  predicate GroupFits(transform: byte, size: nat) {
    match RecipeOf(transform)
    case None => true
    case Some(recipe) => recipe.width > 1 ==> size <= 8 * VISIT_BITMAP_BYTES
  }

  /** The version 3 headers of an archive or chunk stay within the bitmap. */
  predicate SingleFits(data: seq<byte>) {
    ArchiveVersion(data) == VERSION_V3 ==> GroupFits(data[5], OriginalSize(data))
  }

  /** The token text of a version 4 archive or chunk stays within the transform buffer. */
  predicate TextFits(data: seq<byte>) {
    ArchiveVersion(data) == VERSION_V4 && HEADER_SIZE + 4 <= |data| ==> TextSize(data) <= TRANSFORM_BUF_SIZE
  }

  predicate EachChunkFits(data: seq<byte>)
    decreases |data|
  {
    data == [] ||
      match FirstChunk(data)
      case None => true
      case Some(chunk) => SingleFits(chunk) && EachChunkFits(data[|chunk|..])
  }

  predicate EachTextFits(data: seq<byte>)
    decreases |data|
  {
    data == [] ||
      match FirstChunk(data)
      case None => true
      case Some(chunk) => TextFits(chunk) && EachTextFits(data[|chunk|..])
  }

  /** Every grouped version 3 part of the archive stays within the visit bitmap. */
  predicate ArchiveFits(data: seq<byte>) {
    if ArchiveVersion(data) == VERSION_V2 then EachChunkFits(data[HEADER_SIZE..]) else SingleFits(data)
  }

  /** Every version 4 part of the archive stays within the transform buffer. */
  predicate TextsFit(data: seq<byte>) {
    if ArchiveVersion(data) == VERSION_V2 then EachTextFits(data[HEADER_SIZE..]) else TextFits(data)
  }

  method ReadU32(input: seq<byte>, offset: nat) returns (r: u32)
    requires offset + 4 <= |input|
    ensures r == U32FromLe(input, offset)
  {
    LeValue4(input[offset..offset + 4]);
    r := input[offset] as int + 256 * (input[offset + 1] as int + 256 * (input[offset + 2] as int + 256 * input[offset + 3] as int));
  }

  method ReadHeader(input: seq<byte>) returns (rc: int, originalSize: u32, payloadSize: nat)
    ensures rc == NUMLOSS_OK <==>
              || ArchiveVersion(input) == VERSION_V2
              || (IsSingleVersion(ArchiveVersion(input)) && HEADER_SIZE + PayloadSize(input) <= |input|)
    ensures rc == NUMLOSS_OK ==>
              && originalSize == OriginalSize(input)
              && payloadSize == if ArchiveVersion(input) == VERSION_V2 then |input| - HEADER_SIZE else PayloadSize(input)
  {
    var version := ArchiveVersion(input);
    if version == 0 { return NUMLOSS_ERR_FORMAT, 0, 0; }
    if version == VERSION_V1 || version == VERSION_V3 || version == VERSION_V4 {
      payloadSize := ReadU32(input, 12);
      if payloadSize > |input| - HEADER_SIZE { return NUMLOSS_ERR_FORMAT, 0, 0; }
    } else if version == VERSION_V2 {
      payloadSize := |input| - HEADER_SIZE;
    } else {
      return NUMLOSS_ERR_FORMAT, 0, 0;
    }
    originalSize := ReadU32(input, 8);
    rc := NUMLOSS_OK;
  }

  method ReadChunkHeader(rest: seq<byte>) returns (rc: int, version: byte, originalSize: u32, size: nat)
    ensures rc == NUMLOSS_OK <==> FirstChunk(rest).Some?
    ensures rc == NUMLOSS_OK ==>
              && HEADER_SIZE <= size <= |rest| && FirstChunk(rest) == Some(rest[..size])
              && version == ArchiveVersion(rest[..size]) && IsSingleVersion(version)
              && originalSize == OriginalSize(rest[..size])
  {
    version, originalSize, size := 0, 0, 0;
    if |rest| < HEADER_SIZE { return NUMLOSS_ERR_FORMAT, version, originalSize, size; }
    version := ArchiveVersion(rest);
    if version != VERSION_V1 && version != VERSION_V3 && version != VERSION_V4 {
      return NUMLOSS_ERR_FORMAT, version, originalSize, size;
    }
    var payload;
    rc, originalSize, payload := ReadHeader(rest);
    if rc != NUMLOSS_OK { return; }
    size := HEADER_SIZE + payload;
    if size > |rest| { return NUMLOSS_ERR_FORMAT, version, originalSize, size; }
    ChunkHeader(rest, size);
  }

  /** The bounds check before a chunk; its sum may wrap, but then the chunk is larger than the room left. */
  method ChunkOverflows(outPos: nat, chunkOriginal: u32, originalSize: nat, cap: nat) returns (over: bool)
    requires outPos <= originalSize <= cap <= MAX_BUFFER
    ensures over ==> outPos + chunkOriginal > originalSize
    ensures !over && chunkOriginal <= cap - outPos ==> outPos + chunkOriginal <= originalSize
  {
    over := Add32(outPos, chunkOriginal) > originalSize || Add32(outPos, chunkOriginal) > cap;
  }

  class Decoder {
    const visit: VisitBitmap
    const transformBuf: array<byte>
    const dicts: Dictionaries

    constructor (dicts: Dictionaries)
      ensures Valid() && this.dicts == dicts && fresh(visit.bytes) && fresh(transformBuf)
    {
      visit := new VisitBitmap();
      transformBuf := new byte[TRANSFORM_BUF_SIZE](_ => 0);
      this.dicts := dicts;
    }

    predicate Valid() {
      && visit.bytes.Length == VISIT_BITMAP_BYTES
      && transformBuf.Length == TRANSFORM_BUF_SIZE
      && visit.bytes as object != transformBuf
    }

    /** The caller's buffer is none of the decoder's own. */
    predicate Separate(output: array<byte>) {
      output != transformBuf && visit.bytes as object != output
    }

    method UndoGroup(data: array<byte>, base: nat, size: nat, width: nat)
      requires Valid() && Separate(data) && base + size <= data.Length
      requires 1 < width && size <= 8 * VISIT_BITMAP_BYTES
      modifies data, visit.bytes
      ensures OnlyChanged(data, base, size)
      ensures data[base..base + size] == Undo(Recipe(width, Plain), old(data[base..base + size]))
    {
      InverseGroupInPlace(data, base, size, width, visit);
    }

    method UndoGroupDelta(data: array<byte>, base: nat, size: nat, width: nat)
      requires Valid() && Separate(data) && base + size <= data.Length
      requires 1 < width && size <= 8 * VISIT_BITMAP_BYTES
      modifies data, visit.bytes
      ensures OnlyChanged(data, base, size)
      ensures data[base..base + size] == Undo(Recipe(width, Prev(Delta)), old(data[base..base + size]))
    {
      InverseDeltaInPlace(data, base, size);
      InverseGroupInPlace(data, base, size, width, visit);
    }

    method UndoGroupXor(data: array<byte>, base: nat, size: nat, width: nat)
      requires Valid() && Separate(data) && base + size <= data.Length
      requires 1 < width && size <= 8 * VISIT_BITMAP_BYTES
      modifies data, visit.bytes
      ensures OnlyChanged(data, base, size)
      ensures data[base..base + size] == Undo(Recipe(width, Prev(ExclusiveOr)), old(data[base..base + size]))
    {
      InverseXorInPlace(data, base, size);
      InverseGroupInPlace(data, base, size, width, visit);
    }

    /** The transforms that begin with a lane grouping; anything else is left alone. */
    method InverseGrouped(data: array<byte>, base: nat, size: nat, transform: byte) returns (hit: bool)
      requires Valid() && Separate(data) && base + size <= data.Length && GroupFits(transform, size)
      modifies data, visit.bytes
      ensures OnlyChanged(data, base, size)
      ensures hit <==> RecipeOf(transform).Some? && RecipeOf(transform).value.width > 1
      ensures data[base..base + size]
           == if hit then Undo(RecipeOf(transform).value, old(data[base..base + size])) else old(data[base..base + size])
    {
      hit := true;
      if transform == GROUP4 { UndoGroup(data, base, size, 4); return; }
      if transform == GROUP4_DELTA8 { UndoGroupDelta(data, base, size, 4); return; }
      if transform == GROUP4_XOR8 { UndoGroupXor(data, base, size, 4); return; }
      if transform == GROUP8 { UndoGroup(data, base, size, 8); return; }
      if transform == GROUP8_DELTA8 { UndoGroupDelta(data, base, size, 8); return; }
      if transform == GROUP8_XOR8 { UndoGroupXor(data, base, size, 8); return; }
      if transform == GROUP2 { UndoGroup(data, base, size, 2); return; }
      if transform == GROUP2_DELTA8 { UndoGroupDelta(data, base, size, 2); return; }
      if transform == GROUP2_XOR8 { UndoGroupXor(data, base, size, 2); return; }
      hit := false;
    }

    /** The transforms without a lane grouping. */
    method InverseUngrouped(data: array<byte>, base: nat, size: nat, transform: byte) returns (hit: bool)
      requires base + size <= data.Length
      modifies data
      ensures OnlyChanged(data, base, size)
      ensures hit <==> RecipeOf(transform).Some? && RecipeOf(transform).value.width == 1
      ensures data[base..base + size]
           == if hit then UndoStep(RecipeOf(transform).value.step, old(data[base..base + size])) else old(data[base..base + size])
    {
      hit := true;
      if transform == RAW { return; }
      if transform == DELTA8 { InverseDeltaInPlace(data, base, size); return; }
      if transform == XOR8 { InverseXorInPlace(data, base, size); return; }
      if transform == DELTA8_DELTA8 { InverseDelta2InPlace(data, base, size); return; }
      if transform == DELTA32LE { InverseDelta32InPlace(data, base, size); return; }
      hit := false;
    }

    method InverseTransform(data: array<byte>, base: nat, size: nat, transform: byte) returns (rc: int)
      requires Valid() && Separate(data) && base + size <= data.Length && GroupFits(transform, size)
      modifies data, visit.bytes
      ensures OnlyChanged(data, base, size)
      ensures rc == NUMLOSS_OK <==> RecipeOf(transform).Some?
      ensures rc == NUMLOSS_OK ==> data[base..base + size] == Undo(RecipeOf(transform).value, old(data[base..base + size]))
    {
      var hit := InverseUngrouped(data, base, size, transform);
      if !hit { hit := InverseGrouped(data, base, size, transform); }
      rc := if hit then NUMLOSS_OK else NUMLOSS_ERR_FORMAT;
    }

    method DecodeV1(input: seq<byte>, output: array<byte>, base: nat, cap: nat) returns (rc: int, size: nat)
      requires |input| <= MAX_BUFFER && cap <= MAX_BUFFER && base + cap <= output.Length
      modifies output
      ensures OnlyChanged(output, base, cap)
      ensures rc == NUMLOSS_OK <==>
                ArchiveVersion(input) == VERSION_V1 && Contents(dicts, input).Some? && OriginalSize(input) <= cap
      ensures rc == NUMLOSS_OK ==> size == OriginalSize(input) && Contents(dicts, input) == Some(output[base..base + size])
    {
      var originalSize, payloadSize;
      rc, originalSize, payloadSize := ReadHeader(input);
      if rc != NUMLOSS_OK { return rc, 0; }
      if ArchiveVersion(input) != VERSION_V1 { return NUMLOSS_ERR_FORMAT, 0; }
      if |input| != HEADER_SIZE + payloadSize { return NUMLOSS_ERR_FORMAT, 0; }
      if originalSize > cap { return NUMLOSS_ERR_OUTPUT, 0; }
      rc, size := DecodeStreamV1(input[HEADER_SIZE..], output, base, originalSize);
      if rc != NUMLOSS_OK { return rc, 0; }
      if size != originalSize { return NUMLOSS_ERR_FORMAT, 0; }
    }

    /** The part of a version 3 archive behind its checked header. */
    method DecodeTransformed(input: seq<byte>, output: array<byte>, base: nat, originalSize: nat) returns (rc: int)
      requires Valid() && Separate(output)
      requires HEADER_SIZE <= |input| <= MAX_BUFFER && GroupFits(input[5], originalSize)
      requires originalSize == OriginalSize(input) <= MAX_BUFFER && base + originalSize <= output.Length
      modifies output, visit.bytes
      ensures OnlyChanged(output, base, originalSize)
      ensures if rc == NUMLOSS_OK then Transformed(input) == Some(output[base..base + originalSize]) else Transformed(input).None?
    {
      var size;
      rc, size := DecodeMatchStream(input[HEADER_SIZE..], output, base, originalSize);
      if rc != NUMLOSS_OK || size != originalSize { return NUMLOSS_ERR_FORMAT; }
      assert Stream(Modern, input[HEADER_SIZE..], originalSize) == Some(output[base..base + size]);
      rc := InverseTransform(output, base, originalSize, input[5]);
    }

    method DecodeV3(input: seq<byte>, output: array<byte>, base: nat, cap: nat) returns (rc: int, size: nat)
      requires Valid() && Separate(output) && SingleFits(input)
      requires |input| <= MAX_BUFFER && cap <= MAX_BUFFER && base + cap <= output.Length
      modifies output, visit.bytes
      ensures OnlyChanged(output, base, cap)
      ensures rc == NUMLOSS_OK <==>
                ArchiveVersion(input) == VERSION_V3 && Contents(dicts, input).Some? && OriginalSize(input) <= cap
      ensures rc == NUMLOSS_OK ==> size == OriginalSize(input) && Contents(dicts, input) == Some(output[base..base + size])
    {
      var originalSize, payloadSize;
      rc, originalSize, payloadSize := ReadHeader(input);
      if rc != NUMLOSS_OK { return rc, 0; }
      if ArchiveVersion(input) != VERSION_V3 { return NUMLOSS_ERR_FORMAT, 0; }
      if |input| != HEADER_SIZE + payloadSize { return NUMLOSS_ERR_FORMAT, 0; }
      if originalSize > cap { return NUMLOSS_ERR_OUTPUT, 0; }
      rc := DecodeTransformed(input, output, base, originalSize);
      size := originalSize;
    }

    /** The token stream of a version 4 payload, unpacked into the transform buffer and expanded from there. */
    method DecodeText(payload: seq<byte>, transformedSize: nat, dict: Dictionary, output: array<byte>, base: nat, cap: nat,
                      originalSize: nat)
      returns (rc: int, size: nat)
      requires Valid() && Separate(output) && transformedSize <= transformBuf.Length && originalSize <= cap
      requires |payload| <= MAX_BUFFER && cap <= MAX_BUFFER && base + cap <= output.Length
      modifies output, transformBuf
      ensures OnlyChanged(output, base, cap)
      ensures var text := Stream(Modern, payload, transformedSize);
              if rc == NUMLOSS_OK
              then size == originalSize && text.Some? && Expand(dict, text.value, []) == Some(output[base..base + size])
              else text.Some? && Expand(dict, text.value, []).Some? ==> |Expand(dict, text.value, []).value| != originalSize
    {
      var decodedSize;
      rc, decodedSize := DecodeMatchStream(payload, transformBuf, 0, transformedSize);
      if rc != NUMLOSS_OK || decodedSize != transformedSize { return NUMLOSS_ERR_FORMAT, 0; }
      assert transformBuf[0..transformedSize] == transformBuf[..transformedSize];
      rc, size := InverseTextDictionary(transformBuf, transformedSize, dict, output, base, cap);
      if rc != NUMLOSS_OK || size != originalSize { return NUMLOSS_ERR_FORMAT, 0; }
    }

    method DecodeV4(input: seq<byte>, output: array<byte>, base: nat, cap: nat) returns (rc: int, size: nat)
      requires Valid() && Separate(output)
      requires |input| <= MAX_BUFFER && cap <= MAX_BUFFER && base + cap <= output.Length
      modifies output, transformBuf
      ensures OnlyChanged(output, base, cap)
      ensures rc == NUMLOSS_OK <==>
                && ArchiveVersion(input) == VERSION_V4 && Contents(dicts, input).Some? && OriginalSize(input) <= cap
                && TextFits(input)
      ensures rc == NUMLOSS_OK ==> size == OriginalSize(input) && Contents(dicts, input) == Some(output[base..base + size])
    {
      var originalSize, payloadSize;
      rc, originalSize, payloadSize := ReadHeader(input);
      if rc != NUMLOSS_OK { return rc, 0; }
      if ArchiveVersion(input) != VERSION_V4 { return NUMLOSS_ERR_FORMAT, 0; }
      var dict := DictionaryFor(dicts, input[5]);
      if dict.None? || payloadSize < 4 || |input| != HEADER_SIZE + payloadSize { return NUMLOSS_ERR_FORMAT, 0; }
      if originalSize > cap { return NUMLOSS_ERR_OUTPUT, 0; }
      var transformedSize := ReadU32(input, HEADER_SIZE);
      if transformedSize > transformBuf.Length { return NUMLOSS_ERR_OUTPUT, 0; }
      rc, size := DecodeText(input[HEADER_SIZE + 4..], transformedSize, dict.value, output, base, cap, originalSize);
    }
  
    /** One unchunked archive, by version. */
    method DecodeSingle(version: byte, input: seq<byte>, output: array<byte>, base: nat, cap: nat) returns (rc: int, size: nat)
      requires Valid() && Separate(output) && SingleFits(input)
      requires version == ArchiveVersion(input) && IsSingleVersion(version)
      requires |input| <= MAX_BUFFER && cap <= MAX_BUFFER && base + cap <= output.Length
      modifies output, visit.bytes, transformBuf
      ensures OnlyChanged(output, base, cap)
      ensures rc == NUMLOSS_OK <==> Single(dicts, input).Some? && OriginalSize(input) <= cap && TextFits(input)
      ensures rc == NUMLOSS_OK ==> size == OriginalSize(input) && Single(dicts, input) == Some(output[base..base + size])
    {
      SingleIsContents(dicts, input);
      if version == VERSION_V1 {
        rc, size := DecodeV1(input, output, base, cap);
      } else if version == VERSION_V3 {
        rc, size := DecodeV3(input, output, base, cap);
      } else {
        rc, size := DecodeV4(input, output, base, cap);
      }
    }

    /** No continuation of `out` by the chunks in `rest` is a whole archive of `size` bytes the kernel can hold. */
    ghost predicate Rejects(rest: seq<byte>, out: seq<byte>, size: nat) {
      var meaning := Chunks(dicts, rest, out);
      meaning.None? || |meaning.value| != size || !EachTextFits(rest)
    }

    /** One round of the chunk loop: `size` is the length of the chunk decoded, `outNext` the new end of the output. */
    method DecodeChunk(rest: seq<byte>, originalSize: nat, output: array<byte>, cap: nat, outPos: nat)
      returns (rc: int, size: nat, outNext: nat)
      requires Valid() && Separate(output) && (FirstChunk(rest).Some? ==> SingleFits(FirstChunk(rest).value))
      requires |rest| <= MAX_BUFFER && outPos <= originalSize <= cap <= MAX_BUFFER && cap <= output.Length
      modifies output, visit.bytes, transformBuf
      ensures OnlyChanged(output, outPos, cap - outPos)
      ensures rc == NUMLOSS_OK ==>
                && HEADER_SIZE <= size <= |rest| && outPos <= outNext <= originalSize
                && FirstChunk(rest) == Some(rest[..size]) && TextFits(rest[..size])
                && Single(dicts, rest[..size]) == Some(output[outPos..outNext])
      ensures rc != NUMLOSS_OK && FirstChunk(rest).Some? ==>
                var chunk := FirstChunk(rest).value;
                !TextFits(chunk) || Single(dicts, chunk).None? || outPos + OriginalSize(chunk) > originalSize
    {
      outNext := outPos;
      var version, chunkOriginal;
      rc, version, chunkOriginal, size := ReadChunkHeader(rest);
      if rc != NUMLOSS_OK { return; }
      var over := ChunkOverflows(outPos, chunkOriginal, originalSize, cap);
      if over { return NUMLOSS_ERR_OUTPUT, size, outNext; }
      var chunkOut;
      rc, chunkOut := DecodeSingle(version, rest[..size], output, outPos, cap - outPos);
      if rc != NUMLOSS_OK { return; }
      if chunkOut != chunkOriginal { return NUMLOSS_ERR_FORMAT, size, outNext; }
      outNext := outPos + chunkOut;
    }

    lemma RoundRejects(rest: seq<byte>, out: seq<byte>, originalSize: nat)
      requires rest != [] && |out| <= originalSize
      requires FirstChunk(rest).Some? ==>
                 var chunk := FirstChunk(rest).value;
                 !TextFits(chunk) || Single(dicts, chunk).None? || |out| + OriginalSize(chunk) > originalSize
      ensures Rejects(rest, out, originalSize)
    {
      if FirstChunk(rest).Some? {
        ChunksStep(dicts, rest, FirstChunk(rest).value, out);
        FitsStep(rest, FirstChunk(rest).value);
      }
    }

    lemma RoundAccepts(input: seq<byte>, inPos: nat, size: nat, out: seq<byte>, bytes: seq<byte>)
      requires inPos < inPos + size <= |input| && FirstChunk(input[inPos..]) == Some(input[inPos..][..size])
      requires TextFits(input[inPos..][..size]) && Single(dicts, input[inPos..][..size]) == Some(bytes)
      ensures Chunks(dicts, input[inPos..], out) == Chunks(dicts, input[inPos + size..], out + bytes)
      ensures EachTextFits(input[inPos..]) == EachTextFits(input[inPos + size..])
      ensures EachChunkFits(input[inPos..]) ==> EachChunkFits(input[inPos + size..])
    {
      var rest := input[inPos..];
      assert rest[size..] == input[inPos + size..];
      ChunksStep(dicts, rest, rest[..size], out);
      FitsStep(rest, rest[..size]);
    }

    /** The chunks from `i` on after `out` mean the same as the chunks from `j` on after `more`. */
    ghost predicate SameFrom(input: seq<byte>, i: nat, out: seq<byte>, j: nat, more: seq<byte>)
      requires i <= |input| && j <= |input|
    {
      && Chunks(dicts, input[i..], out) == Chunks(dicts, input[j..], more)
      && EachTextFits(input[i..]) == EachTextFits(input[j..])
      && (EachChunkFits(input[i..]) ==> EachChunkFits(input[j..]))
    }

    method DecodeRound(input: seq<byte>, originalSize: nat, output: array<byte>, cap: nat, inPos: nat, outPos: nat)
      returns (rc: int, inNext: nat, outNext: nat)
      requires Valid() && Separate(output) && inPos < |input| && EachChunkFits(input[inPos..])
      requires |input| <= MAX_BUFFER && outPos <= originalSize <= cap <= MAX_BUFFER && cap <= output.Length
      modifies output, visit.bytes, transformBuf
      ensures OnlyChanged(output, outPos, cap - outPos)
      ensures if rc == NUMLOSS_OK
              then && inPos < inNext <= |input| && outPos <= outNext <= originalSize
                   && SameFrom(input, inPos, old(output[..outPos]), inNext, output[..outNext])
              else Rejects(input[inPos..], old(output[..outPos]), originalSize)
    {
      ghost var out := output[..outPos];
      FitsFirst(input[inPos..]);
      var chunkSize;
      rc, chunkSize, outNext := DecodeChunk(input[inPos..], originalSize, output, cap, outPos);
      inNext := inPos;
      if rc != NUMLOSS_OK {
        RoundRejects(input[inPos..], out, originalSize);
        return;
      }
      inNext := inPos + chunkSize;
      assert output[..outNext] == out + output[outPos..outNext];
      RoundAccepts(input, inPos, chunkSize, out, output[outPos..outNext]);
    }

    method DecodeChunks(input: seq<byte>, originalSize: nat, output: array<byte>, cap: nat) returns (rc: int, size: nat)
      requires Valid() && Separate(output) && HEADER_SIZE <= |input| && EachChunkFits(input[HEADER_SIZE..])
      requires |input| <= MAX_BUFFER && originalSize <= cap <= MAX_BUFFER && cap <= output.Length
      modifies output, visit.bytes, transformBuf
      ensures OnlyChanged(output, 0, cap)
      ensures if rc == NUMLOSS_OK
              then && size == originalSize && Chunks(dicts, input[HEADER_SIZE..], []) == Some(output[..size])
                   && EachTextFits(input[HEADER_SIZE..])
              else Rejects(input[HEADER_SIZE..], [], originalSize)
    {
      var inPos: nat, outPos: nat := HEADER_SIZE, 0;
      while inPos < |input|
        invariant HEADER_SIZE <= inPos <= |input| && outPos <= originalSize
        invariant OnlyChanged(output, 0, cap)
        invariant SameFrom(input, HEADER_SIZE, [], inPos, output[..outPos])
      {
        rc, inPos, outPos := DecodeRound(input, originalSize, output, cap, inPos, outPos);
        if rc != NUMLOSS_OK { return rc, 0; }
      }
      if outPos != originalSize { return NUMLOSS_ERR_FORMAT, 0; }
      return NUMLOSS_OK, outPos;
    }

    method Decode(input: seq<byte>, output: array<byte>, cap: nat) returns (rc: int, size: nat)
      requires Valid() && Separate(output) && ArchiveFits(input)
      requires |input| <= MAX_BUFFER && cap <= MAX_BUFFER && cap <= output.Length
      modifies output, visit.bytes, transformBuf
      ensures OnlyChanged(output, 0, cap)
      ensures rc == NUMLOSS_OK <==> Meaning(dicts, input).Some? && OriginalSize(input) <= cap && TextsFit(input)
      ensures rc == NUMLOSS_OK ==> size == OriginalSize(input) && Meaning(dicts, input) == Some(output[..size])
    {
      var version := ArchiveVersion(input);
      SingleIsContents(dicts, input);
      if IsSingleVersion(version) {
        rc, size := DecodeSingle(version, input, output, 0, cap);
        return;
      }
      if version != VERSION_V2 { return NUMLOSS_ERR_FORMAT, 0; }
      size := 0;
      var originalSize, payload;
      rc, originalSize, payload := ReadHeader(input);
      if rc == NUMLOSS_OK {
        if originalSize > cap { return NUMLOSS_ERR_OUTPUT, 0; }
        rc, size := DecodeChunks(input, originalSize, output, cap);
      }
    }
  }

  lemma FitsStep(rest: seq<byte>, chunk: seq<byte>)
    requires rest != [] && FirstChunk(rest) == Some(chunk)
    ensures EachTextFits(rest) <==> TextFits(chunk) && EachTextFits(rest[|chunk|..])
    ensures EachChunkFits(rest) <==> SingleFits(chunk) && EachChunkFits(rest[|chunk|..])
  {
  }

  lemma FitsFirst(rest: seq<byte>)
    requires rest != [] && EachChunkFits(rest)
    ensures FirstChunk(rest).Some? ==> SingleFits(FirstChunk(rest).value)
  {
  }
}
