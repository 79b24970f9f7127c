/** The host numloss decoder (tools/numloss_codec.py), proved against NumlossFormat. */
module PyDecoder {
  import opened Bytes
  import opened ByteBuffer
  import opened NumlossTransforms
  import opened NumlossFormat
  import PyTransforms

  /** How a method that carries out one token reports back; a refusal stands for the source's ValueError. */
  ghost predicate Performs(ok: bool, token: Token, before: Lz, cap: nat, after: Lz) {
    if ok then Apply(token, before, cap) == Some(after) else Apply(token, before, cap).None?
  }

  ghost predicate Reports(d: Dialect, p: seq<byte>, ok: bool, inPos: nat, inNext: nat, before: Lz, cap: nat, after: Lz)
    requires p != []
  {
    match Parse(d, p)
    case None => !ok
    case Some(parsed) => inNext == inPos + parsed.size && Performs(ok, parsed.token, before, cap, after)
  }

  method CopyBackChecked(out: array<byte>, outPos: nat, offset: nat, length: nat, ghost last: nat) returns (ok: bool, outNext: nat)
    requires outPos <= out.Length
    modifies out
    ensures outPos <= outNext <= out.Length
    ensures Performs(ok, Match(length, offset), Lz(old(out[..outPos]), last), out.Length, Lz(out[..outNext], offset))
  {
    if offset == 0 || offset > outPos || outPos + length > out.Length { return false, outPos; }
    CopyMatch(out, 0, outPos, offset, length);
    assert old(out[0..outPos]) == old(out[..outPos]) && out[0..outPos + length] == out[..outPos + length];
    return true, outPos + length;
  }

  method FillChecked(out: array<byte>, outPos: nat, value: byte, length: nat, ghost last: nat) returns (ok: bool, outNext: nat)
    requires outPos <= out.Length
    modifies out
    ensures outPos <= outNext <= out.Length
    ensures Performs(ok, Run(length, value), Lz(old(out[..outPos]), last), out.Length, Lz(out[..outNext], last))
  {
    if outPos + length > out.Length { return false, outPos; }
    FillRun(out, 0, outPos, value, length);
    assert old(out[0..outPos]) == old(out[..outPos]) && out[0..outPos + length] == out[..outPos + length];
    return true, outPos + length;
  }

  method LiteralChecked(out: array<byte>, outPos: nat, payload: seq<byte>, inPos: nat, length: nat, ghost last: nat)
    returns (ok: bool, outNext: nat)
    requires outPos <= out.Length && inPos + length <= |payload|
    modifies out
    ensures outPos <= outNext <= out.Length
    ensures Performs(ok, Literal(payload[inPos..inPos + length]), Lz(old(out[..outPos]), last), out.Length, Lz(out[..outNext], last))
  {
    if outPos + length > out.Length { return false, outPos; }
    CopyLiteral(out, 0, outPos, payload, inPos, length);
    assert old(out[0..outPos]) == old(out[..outPos]) && out[0..outPos + length] == out[..outPos + length];
    return true, outPos + length;
  }

  method TokenV1(payload: seq<byte>, inPos: nat, out: array<byte>, outPos: nat, ghost last: nat)
    returns (ok: bool, inNext: nat, outNext: nat, ghost newLast: nat)
    requires inPos < |payload| && outPos <= out.Length
    modifies out
    ensures ok ==> Parse(Legacy, payload[inPos..]).Some?
    ensures outPos <= outNext <= out.Length
    ensures Reports(Legacy, payload[inPos..], ok, inPos, inNext, Lz(old(out[..outPos]), last), out.Length, Lz(out[..outNext], newLast))
  {
    ghost var p := payload[inPos..];
    var token: int := payload[inPos];
    inNext, outNext, newLast := inPos + 1, outPos, last;
    var kind := token / 64;
    if kind == 0 {
      var length := token % 64 + 1;
      if inNext + length > |payload| { return false, inNext, outNext, newLast; }
      assert payload[inNext..inNext + length] == p[1..1 + length];
      ok, outNext := LiteralChecked(out, outPos, payload, inNext, length, last);
      inNext := inNext + length;
    } else if kind == 1 {
      if inNext >= |payload| { return false, inNext, outNext, newLast; }
      ok, outNext := FillChecked(out, outPos, payload[inNext], token % 64 + 3, last);
      inNext := inNext + 1;
    } else if kind == 2 {
      if inNext + 2 > |payload| { return false, inNext, outNext, newLast; }
      var offset := payload[inNext] as int + 256 * payload[inNext + 1] as int;
      ok, outNext := CopyBackChecked(out, outPos, offset, token % 64 + 3, last);
      newLast := offset;
      inNext := inNext + 2;
    } else {
      ok := false;
    }
  }

  method MatchTokenV3(payload: seq<byte>, inPos: nat, out: array<byte>, outPos: nat, last: nat)
    returns (ok: bool, inNext: nat, outNext: nat, newLast: nat)
    requires inPos < |payload| && outPos <= out.Length && payload[inPos] > 0x7F
    modifies out
    ensures ok ==> Parse(Modern, payload[inPos..]).Some?
    ensures outPos <= outNext <= out.Length
    ensures Reports(Modern, payload[inPos..], ok, inPos, inNext, Lz(old(out[..outPos]), last), out.Length, Lz(out[..outNext], newLast))
  {
    var token: int := payload[inPos];
    inNext, outNext, newLast := inPos + 1, outPos, last;
    if token <= 0xDF {
      if inNext >= |payload| { return false, inNext, outNext, newLast; }
      var code := (token - 0x80) * 256 + payload[inNext] as int;
      inNext := inNext + 1;
      var length, offset := UnpackShortMatch(code);
      if length > SHORT_MATCH_MAX { return false, inNext, outNext, newLast; }
      newLast := offset;
      ok, outNext := CopyBackChecked(out, outPos, newLast, length, last);
    } else if token <= 0xFE {
      ok, outNext := CopyBackChecked(out, outPos, last, 3 + (token - 0xE0), last);
    } else {
      if token != 0xFF || inNext + 3 > |payload| { return false, inNext, outNext, newLast; }
      newLast := payload[inNext + 1] as int + 256 * payload[inNext + 2] as int;
      ok, outNext := CopyBackChecked(out, outPos, newLast, 4 + payload[inNext] as int, last);
      inNext := inNext + 3;
    }
  }

  method TokenV3(payload: seq<byte>, inPos: nat, out: array<byte>, outPos: nat, last: nat)
    returns (ok: bool, inNext: nat, outNext: nat, newLast: nat)
    requires inPos < |payload| && outPos <= out.Length
    modifies out
    ensures ok ==> Parse(Modern, payload[inPos..]).Some?
    ensures outPos <= outNext <= out.Length
    ensures Reports(Modern, payload[inPos..], ok, inPos, inNext, Lz(old(out[..outPos]), last), out.Length, Lz(out[..outNext], newLast))
  {
    ghost var p := payload[inPos..];
    var token: int := payload[inPos];
    inNext, outNext, newLast := inPos + 1, outPos, last;
    if token <= 0x3F {
      var length := token + 1;
      if inNext + length > |payload| { return false, inNext, outNext, newLast; }
      assert payload[inNext..inNext + length] == p[1..1 + length];
      ok, outNext := LiteralChecked(out, outPos, payload, inNext, length, last);
      inNext := inNext + length;
    } else if token <= 0x7F {
      if inNext >= |payload| { return false, inNext, outNext, newLast; }
      ok, outNext := FillChecked(out, outPos, payload[inNext], token - 0x40 + 3, last);
      inNext := inNext + 1;
    } else {
      ok, inNext, outNext, newLast := MatchTokenV3(payload, inPos, out, outPos, last);
    }
  }

  method DecodeStreamV1(payload: seq<byte>, size: nat) returns (r: Option<seq<byte>>)
    ensures r == Stream(Legacy, payload, size)
  {
    var out := new byte[size](_ => 0);
    var inPos: nat, outPos: nat := 0, 0;
    ghost var last: nat := 0;
    while inPos < |payload|
      invariant inPos <= |payload| && outPos <= size
      invariant Steps(Legacy, payload, Lz([], 0), size) == Steps(Legacy, payload[inPos..], Lz(out[..outPos], last), size)
    {
      ghost var p := payload[inPos..];
      var ok, inNext, outNext;
      ghost var newLast;
      ok, inNext, outNext, newLast := TokenV1(payload, inPos, out, outPos, last);
      if !ok { return None; }
      assert payload[inNext..] == p[inNext - inPos..];
      inPos, outPos, last := inNext, outNext, newLast;
    }
    if outPos != size { return None; }
    assert out[..size] == out[..];
    return Some(out[..]);
  }

  method DecodeMatchStream(payload: seq<byte>, size: nat) returns (r: Option<seq<byte>>)
    ensures r == Stream(Modern, payload, size)
  {
    var out := new byte[size](_ => 0);
    var inPos: nat, outPos: nat, last: nat := 0, 0, 0;
    while inPos < |payload|
      invariant inPos <= |payload| && outPos <= size
      invariant Steps(Modern, payload, Lz([], 0), size) == Steps(Modern, payload[inPos..], Lz(out[..outPos], last), size)
    {
      ghost var p := payload[inPos..];
      var ok, inNext, outNext, newLast := TokenV3(payload, inPos, out, outPos, last);
      if !ok { return None; }
      assert payload[inNext..] == p[inNext - inPos..];
      inPos, outPos, last := inNext, outNext, newLast;
    }
    if outPos != size { return None; }
    assert out[..size] == out[..];
    return Some(out[..]);
  }

  method UngroupDelta(data: seq<byte>, width: nat) returns (r: seq<byte>)
    requires 1 < width
    ensures r == Undo(Recipe(width, Prev(Delta)), data)
  {
    r := PyTransforms.DeltaInverse(data);
    r := PyTransforms.UngroupBytes(r, width);
  }

  method UngroupXor(data: seq<byte>, width: nat) returns (r: seq<byte>)
    requires 1 < width
    ensures r == Undo(Recipe(width, Prev(ExclusiveOr)), data)
  {
    r := PyTransforms.XorInverse(data);
    r := PyTransforms.UngroupBytes(r, width);
  }

  /** The transforms that begin with a lane grouping. */
  method UndoGrouped(data: seq<byte>, transform: byte) returns (r: Option<seq<byte>>)
    ensures r.Some? <==> RecipeOf(transform).Some? && RecipeOf(transform).value.width > 1
    ensures r.Some? ==> r.value == Undo(RecipeOf(transform).value, data)
  {
    var s;
    if transform == GROUP4 { s := PyTransforms.UngroupBytes(data, 4); return Some(s); }
    if transform == GROUP4_DELTA8 { s := UngroupDelta(data, 4); return Some(s); }
    if transform == GROUP4_XOR8 { s := UngroupXor(data, 4); return Some(s); }
    if transform == GROUP8 { s := PyTransforms.UngroupBytes(data, 8); return Some(s); }
    if transform == GROUP8_DELTA8 { s := UngroupDelta(data, 8); return Some(s); }
    if transform == GROUP8_XOR8 { s := UngroupXor(data, 8); return Some(s); }
    if transform == GROUP2 { s := PyTransforms.UngroupBytes(data, 2); return Some(s); }
    if transform == GROUP2_DELTA8 { s := UngroupDelta(data, 2); return Some(s); }
    if transform == GROUP2_XOR8 { s := UngroupXor(data, 2); return Some(s); }
    return None;
  }

  method UndoTransform(data: seq<byte>, transform: byte) returns (r: Option<seq<byte>>)
    ensures r == match RecipeOf(transform) case None => None case Some(recipe) => Some(Undo(recipe, data))
  {
    var s;
    if transform == RAW { return Some(data); }
    if transform == DELTA8 { s := PyTransforms.DeltaInverse(data); return Some(s); }
    if transform == XOR8 { s := PyTransforms.XorInverse(data); return Some(s); }
    if transform == DELTA8_DELTA8 { s := PyTransforms.DeltaInverse(data); s := PyTransforms.DeltaInverse(s); return Some(s); }
    if transform == DELTA32LE { s := PyTransforms.Delta32Inverse(data); return Some(s); }
    r := UndoGrouped(data, transform);
  }

  /** What a version 4 text stands for, provided it has the announced size. */
  ghost function SizedExpansion(dict: Dictionary, text: seq<byte>, size: nat): Option<seq<byte>> {
    match Expand(dict, text, [])
    case None => None
    case Some(out) => if |out| == size then Some(out) else None
  }

  method UndoTextDictionary(data: seq<byte>, dict: Dictionary, originalSize: nat) returns (r: Option<seq<byte>>)
    ensures r == SizedExpansion(dict, data, originalSize)
  {
    var out: seq<byte> := [];
    var pos: nat := 0;
    while pos < |data|
      invariant pos <= |data|
      invariant Expand(dict, data, []) == Expand(dict, data[pos..], out)
    {
      ghost var rest := data[pos..];
      var value := data[pos];
      pos := pos + 1;
      if value == 0 {
        if pos >= |data| { return None; }
        assert data[pos + 1..] == rest[2..];
        out, pos := out + [data[pos]], pos + 1;
      } else if value < 0x80 {
        assert data[pos..] == rest[1..];
        out := out + [value];
      } else {
        var index := value as int - 0x80;
        if index >= |dict| { return None; }
        assert data[pos..] == rest[1..];
        out := out + dict[index];
      }
      if |out| > originalSize { return None; }
    }
    if |out| != originalSize { return None; }
    return Some(out);
  }

  method ReadHeader(data: seq<byte>) returns (r: Option<(nat, nat)>)
    ensures r.Some? <==>
              || ArchiveVersion(data) == VERSION_V2
              || (IsSingleVersion(ArchiveVersion(data)) && HEADER_SIZE + PayloadSize(data) <= |data|)
    ensures r.Some? ==> r.value.0 == OriginalSize(data)
    ensures r.Some? ==> r.value.1 == if ArchiveVersion(data) == VERSION_V2 then |data| - HEADER_SIZE else PayloadSize(data)
  {
    var version := ArchiveVersion(data);
    if !(version == VERSION_V1 || version == VERSION_V2 || version == VERSION_V3 || version == VERSION_V4) { return None; }
    var payloadSize: nat := |data| - HEADER_SIZE;
    if version != VERSION_V2 {
      payloadSize := U32FromLe(data, 12);
      if payloadSize > |data| - HEADER_SIZE { return None; }
    }
    return Some((U32FromLe(data, 8), payloadSize));
  }

  method DecodeV3(data: seq<byte>) returns (r: Option<seq<byte>>)
    requires HEADER_SIZE <= |data|
    ensures r == Transformed(data)
  {
    var transformed := DecodeMatchStream(data[HEADER_SIZE..], U32FromLe(data, 8));
    if transformed.None? { return None; }
    r := UndoTransform(transformed.value, data[5]);
  }

  method DecodeV4(ds: Dictionaries, data: seq<byte>) returns (r: Option<seq<byte>>)
    requires HEADER_SIZE <= |data|
    ensures r == Text(ds, data)
  {
    if |data| < HEADER_SIZE + 4 { return None; }
    var transformed := DecodeMatchStream(data[HEADER_SIZE + 4..], U32FromLe(data, HEADER_SIZE));
    if transformed.None? { return None; }
    var dict := DictionaryFor(ds, data[5]);
    if dict.None? { return None; }
    r := UndoTextDictionary(transformed.value, dict.value, U32FromLe(data, 8));
  }

  /** One unchunked archive. */
  method DecodeSingle(ds: Dictionaries, data: seq<byte>) returns (r: Option<seq<byte>>)
    requires IsSingleVersion(ArchiveVersion(data))
    ensures r == Single(ds, data)
  {
    SingleIsContents(ds, data);
    var version := ArchiveVersion(data);
    var header := ReadHeader(data);
    if header.None? || |data| != HEADER_SIZE + header.value.1 { return None; }
    if version == VERSION_V1 {
      r := DecodeStreamV1(data[HEADER_SIZE..], U32FromLe(data, 8));
    } else if version == VERSION_V3 {
      r := DecodeV3(data);
    } else {
      r := DecodeV4(ds, data);
    }
  }

  /** The length and declared size of the chunk `rest` starts with. */
  method ChunkShape(rest: seq<byte>) returns (ok: bool, size: nat, originalSize: nat)
    ensures ok <==> FirstChunk(rest).Some?
    ensures ok ==> HEADER_SIZE <= size <= |rest| && FirstChunk(rest) == Some(rest[..size])
    ensures ok ==> originalSize == OriginalSize(rest[..size]) && IsSingleVersion(ArchiveVersion(rest[..size]))
  {
    if |rest| < HEADER_SIZE { return false, 0, 0; }
    var version := ArchiveVersion(rest);
    if !(version == VERSION_V1 || version == VERSION_V3 || version == VERSION_V4) { return false, 0, 0; }
    var header := ReadHeader(rest);
    if header.None? { return false, 0, 0; }
    size, originalSize := HEADER_SIZE + header.value.1, header.value.0;
    ChunkHeader(rest, size);
    ok := true;
  }

  /** One round of the chunk loop. */
  method DecodeRound(ds: Dictionaries, data: seq<byte>, inPos: nat, out: seq<byte>) returns (inNext: nat, more: Option<seq<byte>>)
    requires inPos < |data|
    ensures more.Some? ==> inPos < inNext <= |data| && Chunks(ds, data[inPos..], out) == Chunks(ds, data[inNext..], more.value)
    ensures more.None? ==> Chunks(ds, data[inPos..], out).None?
  {
    var rest := data[inPos..];
    var ok, size, originalSize := ChunkShape(rest);
    if !ok || inPos + size > |data| { return inPos, None; }
    ChunksStep(ds, rest, rest[..size], out);
    var chunk := DecodeSingle(ds, rest[..size]);
    if chunk.None? { return inPos, None; }
    if |chunk.value| != originalSize { return inPos, None; }
    assert data[inPos + size..] == rest[size..];
    return inPos + size, Some(out + chunk.value);
  }

  method DecodeChunks(ds: Dictionaries, data: seq<byte>) returns (r: Option<seq<byte>>)
    requires HEADER_SIZE <= |data|
    ensures r == Chunks(ds, data[HEADER_SIZE..], [])
  {
    var out: seq<byte> := [];
    var inPos: nat := HEADER_SIZE;
    while inPos < |data|
      invariant HEADER_SIZE <= inPos <= |data|
      invariant Chunks(ds, data[HEADER_SIZE..], []) == Chunks(ds, data[inPos..], out)
    {
      var inNext, more := DecodeRound(ds, data, inPos, out);
      if more.None? { return None; }
      inPos, out := inNext, more.value;
    }
    return Some(out);
  }

  /** The host decoder computes exactly what the format says an archive means. */
  method Decode(ds: Dictionaries, data: seq<byte>) returns (r: Option<seq<byte>>)
    ensures r == Meaning(ds, data)
  {
    var version := ArchiveVersion(data);
    SingleIsContents(ds, data);
    if IsSingleVersion(version) {
      r := DecodeSingle(ds, data);
      return;
    }
    if version != VERSION_V2 { return None; }
    r := DecodeChunks(ds, data);
    if r.Some? && |r.value| != U32FromLe(data, 8) { return None; }
  }
}
