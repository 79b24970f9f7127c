/** The numloss archive format: what an archive means, independently of either decoder. */
module NumlossFormat {
  import opened Bytes
  import opened NumlossTransforms

  const HEADER_SIZE := 16
  const MAGIC: seq<byte> := [78, 77, 76, 83]
  const VERSION_V1 := 1
  const VERSION_V2 := 2
  const VERSION_V3 := 3
  const VERSION_V4 := 4
  const SHORT_MATCH_RANGE := 6144
  const SHORT_MATCH_MIN := 4
  const SHORT_MATCH_MAX := 7

  // ---------------------------------------------------------------- token streams

  /** The legacy dialect is the token set of version 1, the modern one that of versions 3 and 4. */
  datatype Dialect = Legacy | Modern

  datatype Token =
    | Literal(data: seq<byte>)
    | Run(length: nat, value: byte)
    | Match(length: nat, offset: nat)
    | Repeat(length: nat)

  datatype Parsed = Parsed(token: Token, size: nat)

  function ParseLiteral(length: nat, p: seq<byte>): (r: Option<Parsed>)
    ensures r.Some? ==> 0 < r.value.size <= |p|
  {
    if 1 + length <= |p| then Some(Parsed(Literal(p[1..1 + length]), 1 + length)) else None
  }

  function ParseLegacy(p: seq<byte>): (r: Option<Parsed>)
    requires p != []
    ensures r.Some? ==> 0 < r.value.size <= |p|
  {
    var low: nat := p[0] % 64;
    match p[0] / 64
    case 0 => ParseLiteral(low + 1, p)
    case 1 => if |p| < 2 then None else Some(Parsed(Run(low + 3, p[1]), 2))
    case 2 => if |p| < 3 then None else Some(Parsed(Match(low + 3, p[1] as int + 256 * p[2] as int), 3))
    case _ => None
  }

  /** Length and offset of a short match share one number. */
  function ShortMatch(code: nat): (t: Token)
    ensures t.Match?
  {
    Match(SHORT_MATCH_MIN + code / SHORT_MATCH_RANGE, 1 + code % SHORT_MATCH_RANGE)
  }

  /** The division both decoders do. */
  method UnpackShortMatch(code: nat) returns (len: nat, offset: nat)
    ensures Match(len, offset) == ShortMatch(code)
  {
    len := SHORT_MATCH_MIN + code / SHORT_MATCH_RANGE;
    offset := 1 + code % SHORT_MATCH_RANGE;
  }

  function ParseModern(p: seq<byte>): (r: Option<Parsed>)
    requires p != []
    ensures r.Some? ==> 0 < r.value.size <= |p|
  {
    var t: int := p[0];
    if t <= 0x3f then ParseLiteral(t + 1, p)
    else if t <= 0x7f then
      if |p| < 2 then None else Some(Parsed(Run(t - 0x40 + 3, p[1]), 2))
    else if t <= 0xdf then
      if |p| < 2 then None else
        var m := ShortMatch((t - 0x80) * 256 + p[1] as int);
        if m.length > SHORT_MATCH_MAX then None else Some(Parsed(m, 2))
    else if t <= 0xfe then Some(Parsed(Repeat(3 + (t - 0xe0)), 1))
    else if |p| < 4 then None
    else Some(Parsed(Match(4 + p[1] as int, p[2] as int + 256 * p[3] as int), 4))
  }

  function Parse(d: Dialect, p: seq<byte>): (r: Option<Parsed>)
    requires p != []
    ensures r.Some? ==> 0 < r.value.size <= |p|
  {
    if d.Legacy? then ParseLegacy(p) else ParseModern(p)
  }

  /** Decoder state: the bytes produced so far and the offset of the last match. */
  datatype Lz = Lz(out: seq<byte>, last: nat)

  function Repeated(value: byte, n: nat): (r: seq<byte>) {
    seq(n, _ => value)
  }

  /** Append `n` bytes, each a copy of the byte `offset` back; source and target may overlap. */
  function CopyBack(out: seq<byte>, offset: nat, n: nat): (r: seq<byte>)
    requires 1 <= offset <= |out|
    ensures |r| == |out| + n
  {
    if n == 0 then out else
      var c := CopyBack(out, offset, n - 1);
      c + [c[|c| - offset]]
  }

  function Apply(t: Token, st: Lz, cap: nat): (r: Option<Lz>)
    ensures r.Some? ==> |st.out| <= |r.value.out| <= cap
  {
    match t
    case Literal(data) =>
      if |st.out| + |data| <= cap then Some(Lz(st.out + data, st.last)) else None
    case Run(length, value) =>
      if |st.out| + length <= cap then Some(Lz(st.out + Repeated(value, length), st.last)) else None
    case Match(length, offset) =>
      if 1 <= offset <= |st.out| && |st.out| + length <= cap
      then Some(Lz(CopyBack(st.out, offset, length), offset)) else None
    case Repeat(length) =>
      if 1 <= st.last <= |st.out| && |st.out| + length <= cap
      then Some(Lz(CopyBack(st.out, st.last, length), st.last)) else None
  }

  /** Run a whole token stream from a state, never producing more than `cap` bytes. */
  function Steps(d: Dialect, p: seq<byte>, st: Lz, cap: nat): (r: Option<Lz>)
    decreases |p|
  {
    if p == [] then Some(st) else
      match Parse(d, p)
      case None => None
      case Some(Parsed(token, size)) =>
        match Apply(token, st, cap)
        case None => None
        case Some(next) => Steps(d, p[size..], next, cap)
  }

  function Stream(d: Dialect, p: seq<byte>, size: nat): (r: Option<seq<byte>>)
    ensures r.Some? ==> |r.value| == size
  {
    match Steps(d, p, Lz([], 0), size)
    case None => None
    case Some(st) => if |st.out| == size then Some(st.out) else None
  }

  lemma ParseExtend(d: Dialect, a: seq<byte>, b: seq<byte>)
    requires a != [] && Parse(d, a).Some?
    ensures Parse(d, a + b) == Parse(d, a)
  {
    var r := Parse(d, a).value;
    if r.token.Literal? {
      assert (a + b)[1..r.size] == a[1..r.size];
    }
  }

  /** Running a concatenation is running its first part and then its second. */
  lemma {:induction false} StepsConcat(d: Dialect, a: seq<byte>, b: seq<byte>, st: Lz, cap: nat)
    requires Steps(d, a, st, cap).Some?
    ensures Steps(d, a + b, st, cap) == Steps(d, b, Steps(d, a, st, cap).value, cap)
    decreases |a|
  {
    if a == [] {
      assert a + b == b;
    } else {
      var Parsed(token, size) := Parse(d, a).value;
      ParseExtend(d, a, b);
      assert (a + b)[size..] == a[size..] + b;
      StepsConcat(d, a[size..], b, Apply(token, st, cap).value, cap);
    }
  }

  /** Appending one more token to a stream that runs to `st` runs on to what the token makes of `st`. */
  lemma StepsAppend(d: Dialect, a: seq<byte>, t: seq<byte>, st0: Lz, st: Lz, cap: nat)
    requires Steps(d, a, st0, cap) == Some(st)
    requires t != [] && Parse(d, t).Some? && Parse(d, t).value.size == |t|
    ensures Steps(d, a + t, st0, cap) == Apply(Parse(d, t).value.token, st, cap)
  {
    StepsConcat(d, a, t, st0, cap);
    assert t[|t|..] == [];
  }

  /** `s` repeats itself at distance `offset` for `length` bytes from `pos` on. */
  ghost predicate IsMatch(s: seq<byte>, pos: nat, offset: nat, length: nat) {
    && 1 <= offset <= pos
    && pos + length <= |s|
    && forall k :: pos <= k < pos + length ==> s[k] == s[k - offset]
  }

  /** Copying back reproduces the source wherever it really repeats, overlap included. */
  lemma {:induction false} CopyBackMatch(s: seq<byte>, pos: nat, offset: nat, length: nat)
    requires IsMatch(s, pos, offset, length)
    ensures CopyBack(s[..pos], offset, length) == s[..pos + length]
  {
    if length > 0 {
      CopyBackMatch(s, pos, offset, length - 1);
      var c := s[..pos + (length - 1)];
      assert c[|c| - offset] == s[pos + (length - 1) - offset];
      assert s[..pos + length] == c + [s[pos + (length - 1)]];
    }
  }

  // ---------------------------------------------------------------- text dictionaries

  /** A token names one of at most 128 nonempty entries whose length fits a byte. */
  type Dictionary = d: seq<seq<byte>> | |d| <= 128 && forall i :: 0 <= i < |d| ==> 0 < |d[i]| <= 255
  datatype Dictionaries = Dictionaries(prose: Dictionary, code: Dictionary)

  function DictionaryFor(ds: Dictionaries, transform: byte): Option<Dictionary> {
    if transform == TEXT_PROSE then Some(ds.prose)
    else if transform == TEXT_CODE then Some(ds.code)
    else None
  }

  datatype Piece = Piece(bytes: seq<byte>, size: nat)

  /** What the first token of `s` stands for: an escaped byte, a plain one or a dictionary entry. */
  function FirstPiece(dict: Dictionary, s: seq<byte>): (r: Option<Piece>)
    requires s != []
    ensures r.Some? ==> 0 < r.value.size <= |s| && 0 < |r.value.bytes| <= 255
  {
    if s[0] == 0 then if |s| < 2 then None else Some(Piece([s[1]], 2))
    else if s[0] < 0x80 then Some(Piece([s[0]], 1))
    else
      var index := s[0] as int - 0x80;
      if index < |dict| then Some(Piece(dict[index], 1)) else None
  }

  /** `out` followed by what the tokens of `s` stand for. */
  function Expand(dict: Dictionary, s: seq<byte>, out: seq<byte>): (r: Option<seq<byte>>)
    ensures r.Some? ==> out <= r.value
    decreases |s|
  {
    if s == [] then Some(out) else
      match FirstPiece(dict, s)
      case None => None
      case Some(Piece(bytes, size)) => Expand(dict, s[size..], out + bytes)
  }

  lemma {:induction false} ExpandConcat(dict: Dictionary, a: seq<byte>, b: seq<byte>, out: seq<byte>)
    requires Expand(dict, a, out).Some?
    ensures Expand(dict, a + b, out) == Expand(dict, b, Expand(dict, a, out).value)
    decreases |a|
  {
    if a == [] {
      assert a + b == b;
    } else {
      var Piece(bytes, size) := FirstPiece(dict, a).value;
      assert FirstPiece(dict, a + b) == FirstPiece(dict, a);
      assert (a + b)[size..] == a[size..] + b;
      ExpandConcat(dict, a[size..], b, out + bytes);
    }
  }

  // ---------------------------------------------------------------- archives

  function WriteHeader(version: byte, originalSize: nat, payloadSize: nat, flags: byte): (r: seq<byte>)
    ensures |r| == HEADER_SIZE
  {
    MAGIC + [version, flags, 0, 0] + U32ToLe(originalSize) + U32ToLe(payloadSize)
  }

  function ArchiveVersion(data: seq<byte>): byte {
    if |data| < HEADER_SIZE || data[..4] != MAGIC then 0 else data[4]
  }

  function OriginalSize(data: seq<byte>): u32
    requires HEADER_SIZE <= |data|
  {
    U32FromLe(data, 8)
  }

  function PayloadSize(data: seq<byte>): u32
    requires HEADER_SIZE <= |data|
  {
    U32FromLe(data, 12)
  }

  lemma HeaderFields(version: byte, originalSize: nat, payloadSize: nat, flags: byte, body: seq<byte>)
    ensures var data := WriteHeader(version, originalSize, payloadSize, flags) + body;
            && ArchiveVersion(data) == version
            && data[5] == flags
            && OriginalSize(data) == originalSize % 0x1_0000_0000
            && PayloadSize(data) == payloadSize % 0x1_0000_0000
            && data[HEADER_SIZE..] == body
  {
    var data := WriteHeader(version, originalSize, payloadSize, flags) + body;
    assert data[..4] == MAGIC;
    assert data[8..8 + 4] == U32ToLe(originalSize);
    assert data[12..12 + 4] == U32ToLe(payloadSize);
    U32RoundTrip(originalSize, data, 8);
    U32RoundTrip(payloadSize, data, 12);
  }

  /** What a decoder reads from `data`: version, flags, the two sizes and the payload. */
  ghost predicate HasFields(data: seq<byte>, version: byte, flags: byte, originalSize: nat, payload: seq<byte>) {
    && ArchiveVersion(data) == version
    && |data| == HEADER_SIZE + |payload|
    && data[5] == flags
    && OriginalSize(data) == originalSize
    && PayloadSize(data) == |payload|
    && data[HEADER_SIZE..] == payload
  }

  /** A header whose sizes fit 32 bits is read back as it was written. */
  lemma HeaderReadsBack(version: byte, originalSize: nat, flags: byte, payload: seq<byte>)
    requires originalSize < 0x1_0000_0000 && |payload| < 0x1_0000_0000
    ensures HasFields(WriteHeader(version, originalSize, |payload|, flags) + payload, version, flags, originalSize, payload)
  {
    HeaderFields(version, originalSize, |payload|, flags, payload);
  }

  predicate IsSingleVersion(version: byte) {
    version == VERSION_V1 || version == VERSION_V3 || version == VERSION_V4
  }

  /** The bytes an unchunked archive stands for; None when it is malformed. */
  function Contents(ds: Dictionaries, data: seq<byte>): (r: Option<seq<byte>>)
    ensures r.Some? ==> HEADER_SIZE <= |data| && |r.value| == OriginalSize(data)
    ensures r.Some? ==> IsSingleVersion(ArchiveVersion(data)) && |data| == HEADER_SIZE + PayloadSize(data)
  {
    var version := ArchiveVersion(data);
    if !IsSingleVersion(version) || |data| != HEADER_SIZE + PayloadSize(data) then None
    else if version == VERSION_V1 then Stream(Legacy, data[HEADER_SIZE..], OriginalSize(data))
    else if version == VERSION_V3 then Transformed(data)
    else Text(ds, data)
  }

  /** Contents, folded away behind a counter so that proofs about chunks see only its contract. */
  function Folded(ds: Dictionaries, data: seq<byte>, n: nat): (r: Option<seq<byte>>)
    ensures r.Some? ==> HEADER_SIZE <= |data| && |r.value| == OriginalSize(data)
    ensures r.Some? ==> IsSingleVersion(ArchiveVersion(data)) && |data| == HEADER_SIZE + PayloadSize(data)
  {
    if n == 0 then Contents(ds, data) else Folded(ds, data, n - 1)
  }

  function Single(ds: Dictionaries, data: seq<byte>): (r: Option<seq<byte>>)
    ensures r.Some? ==> HEADER_SIZE <= |data| && |r.value| == OriginalSize(data)
    ensures r.Some? ==> IsSingleVersion(ArchiveVersion(data)) && |data| == HEADER_SIZE + PayloadSize(data)
  {
    Folded(ds, data, |data|)
  }

  lemma {:induction false} UnfoldTo(ds: Dictionaries, data: seq<byte>, n: nat)
    ensures Folded(ds, data, n) == Contents(ds, data)
  {
    if n > 0 { UnfoldTo(ds, data, n - 1); }
  }

  lemma SingleIsContents(ds: Dictionaries, data: seq<byte>)
    ensures Single(ds, data) == Contents(ds, data)
  {
    UnfoldTo(ds, data, |data|);
  }

  function Transformed(data: seq<byte>): (r: Option<seq<byte>>)
    requires HEADER_SIZE <= |data|
    ensures r.Some? ==> |r.value| == OriginalSize(data)
  {
    match RecipeOf(data[5])
    case None => None
    case Some(recipe) =>
      match Stream(Modern, data[HEADER_SIZE..], OriginalSize(data))
      case None => None
      case Some(out) => Some(Undo(recipe, out))
  }

  /** The size of the token text of a version 4 archive, stored after its header. */
  function TextSize(data: seq<byte>): u32
    requires HEADER_SIZE + 4 <= |data|
  {
    U32FromLe(data, HEADER_SIZE)
  }

  function Text(ds: Dictionaries, data: seq<byte>): (r: Option<seq<byte>>)
    requires HEADER_SIZE <= |data|
    ensures r.Some? ==> |r.value| == OriginalSize(data) && HEADER_SIZE + 4 <= |data|
  {
    if |data| < HEADER_SIZE + 4 then None else
      match DictionaryFor(ds, data[5])
      case None => None
      case Some(dict) =>
        match Stream(Modern, data[HEADER_SIZE + 4..], TextSize(data))
        case None => None
        case Some(text) =>
          match Expand(dict, text, [])
          case None => None
          case Some(out) => if |out| == OriginalSize(data) then Some(out) else None
  }

  /** The first chunk of `data`, if a whole one is there. */
  function FirstChunk(data: seq<byte>): (r: Option<seq<byte>>)
    ensures r.Some? ==> HEADER_SIZE <= |r.value| <= |data| && r.value <= data
  {
    if !IsSingleVersion(ArchiveVersion(data)) || PayloadSize(data) > |data| - HEADER_SIZE then None
    else Some(data[..HEADER_SIZE + PayloadSize(data)])
  }

  /** `out` followed by the contents of the chunks in `data`. */
  function Chunks(ds: Dictionaries, data: seq<byte>, out: seq<byte>): (r: Option<seq<byte>>)
    ensures r.Some? ==> out <= r.value
    decreases |data|
  {
    if data == [] then Some(out) else
      match FirstChunk(data)
      case None => None
      case Some(chunk) =>
        match Single(ds, chunk)
        case None => None
        case Some(bytes) => Chunks(ds, data[|chunk|..], out + bytes)
  }

  /** The bytes an archive stands for; None when it is malformed. */
  function Meaning(ds: Dictionaries, data: seq<byte>): (r: Option<seq<byte>>)
    ensures r.Some? ==> HEADER_SIZE <= |data| && |r.value| == OriginalSize(data)
  {
    if ArchiveVersion(data) != VERSION_V2 then Single(ds, data) else
      match Chunks(ds, data[HEADER_SIZE..], [])
      case None => None
      case Some(out) => if |out| == OriginalSize(data) then Some(out) else None
  }

  lemma ChunkHeader(rest: seq<byte>, size: nat)
    requires HEADER_SIZE <= size <= |rest|
    ensures ArchiveVersion(rest[..size]) == ArchiveVersion(rest) && rest[..size][5] == rest[5]
    ensures OriginalSize(rest[..size]) == OriginalSize(rest) && PayloadSize(rest[..size]) == PayloadSize(rest)
  {
    assert rest[..size][..4] == rest[..4];
    assert rest[..size][8..12] == rest[8..12] && rest[..size][12..16] == rest[12..16];
  }

  lemma ChunksStep(ds: Dictionaries, rest: seq<byte>, chunk: seq<byte>, out: seq<byte>)
    requires rest != [] && FirstChunk(rest) == Some(chunk)
    ensures Single(ds, chunk).None? ==> Chunks(ds, rest, out).None?
    ensures Single(ds, chunk).Some? ==> Chunks(ds, rest, out) == Chunks(ds, rest[|chunk|..], out + Single(ds, chunk).value)
    ensures Chunks(ds, rest, out).Some? ==> |Chunks(ds, rest, out).value| >= |out| + OriginalSize(chunk)
  {
  }

  lemma FirstChunkOf(ds: Dictionaries, chunk: seq<byte>, rest: seq<byte>)
    requires Single(ds, chunk).Some?
    ensures FirstChunk(chunk + rest) == Some(chunk)
  {
    var data := chunk + rest;
    assert data[..4] == chunk[..4];
    assert data[12..16] == chunk[12..16];
    assert data[..|chunk|] == chunk;
  }

  lemma ChunksFirst(ds: Dictionaries, chunk: seq<byte>, rest: seq<byte>, out: seq<byte>)
    requires Single(ds, chunk).Some?
    ensures Chunks(ds, chunk + rest, out) == Chunks(ds, rest, out + Single(ds, chunk).value)
  {
    FirstChunkOf(ds, chunk, rest);
    assert (chunk + rest)[|chunk|..] == rest;
  }

  lemma ChunksPeel(ds: Dictionaries, a: seq<byte>, out: seq<byte>) returns (first: seq<byte>)
    requires a != [] && Chunks(ds, a, out).Some?
    ensures first != [] && first <= a && Single(ds, first).Some?
    ensures Chunks(ds, a, out) == Chunks(ds, a[|first|..], out + Single(ds, first).value)
  {
    first := FirstChunk(a).value;
    ChunksStep(ds, a, first, out);
  }

  lemma {:induction false} ChunksAppend(ds: Dictionaries, a: seq<byte>, chunk: seq<byte>, out: seq<byte>)
    requires Chunks(ds, a, out).Some? && Single(ds, chunk).Some?
    ensures Chunks(ds, a + chunk, out) == Some(Chunks(ds, a, out).value + Single(ds, chunk).value)
    decreases |a|
  {
    if a == [] {
      assert a + chunk == chunk + [];
      ChunksFirst(ds, chunk, [], out);
    } else {
      var first := ChunksPeel(ds, a, out);
      var rest := a[|first|..];
      assert a + chunk == first + (rest + chunk);
      ChunksFirst(ds, first, rest + chunk, out);
      ChunksAppend(ds, rest, chunk, out + Single(ds, first).value);
    }
  }

  /** Neither the contents nor the token text of an unchunked archive is larger than `limit`. */
  predicate Within(data: seq<byte>, limit: nat) {
    && HEADER_SIZE <= |data| && OriginalSize(data) <= limit
    && (ArchiveVersion(data) == VERSION_V4 && HEADER_SIZE + 4 <= |data| ==> TextSize(data) <= limit)
  }

  predicate EachWithin(data: seq<byte>, limit: nat)
    decreases |data|
  {
    data == [] ||
      match FirstChunk(data)
      case None => true
      case Some(chunk) => Within(chunk, limit) && EachWithin(data[|chunk|..], limit)
  }

  lemma EachWithinFirst(ds: Dictionaries, chunk: seq<byte>, rest: seq<byte>, limit: nat)
    requires Single(ds, chunk).Some?
    ensures EachWithin(chunk + rest, limit) <==> Within(chunk, limit) && EachWithin(rest, limit)
  {
    FirstChunkOf(ds, chunk, rest);
    assert (chunk + rest)[|chunk|..] == rest;
  }

  lemma EachWithinJoin(ds: Dictionaries, a: seq<byte>, first: seq<byte>, rest: seq<byte>, chunk: seq<byte>, limit: nat)
    requires Single(ds, first).Some? && a == first + rest && EachWithin(a, limit)
    ensures EachWithin(rest, limit)
    ensures EachWithin(rest + chunk, limit) ==> EachWithin(a + chunk, limit)
  {
    EachWithinFirst(ds, first, rest, limit);
    EachWithinFirst(ds, first, rest + chunk, limit);
    assert a + chunk == first + (rest + chunk);
  }

  lemma {:induction false} EachWithinAppend(ds: Dictionaries, a: seq<byte>, chunk: seq<byte>, out: seq<byte>, limit: nat)
    requires Chunks(ds, a, out).Some? && Single(ds, chunk).Some?
    requires EachWithin(a, limit) && Within(chunk, limit)
    ensures EachWithin(a + chunk, limit)
    decreases |a|
  {
    if a == [] {
      assert a + chunk == chunk + [];
      EachWithinFirst(ds, chunk, [], limit);
    } else {
      var first := ChunksPeel(ds, a, out);
      var rest := a[|first|..];
      EachWithinJoin(ds, a, first, rest, chunk, limit);
      EachWithinAppend(ds, rest, chunk, out + Single(ds, first).value, limit);
    }
  }
}
