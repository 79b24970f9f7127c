/** The host numloss encoder (tools/numloss_codec.py): every archive it writes means its input. */
module Encoder {
  import opened Bytes
  import opened NumlossTransforms
  import opened NumlossFormat
  import PyTransforms

  const LITERAL_MAX := 64
  const RUN_MIN_V1 := 4
  const RUN_MIN_V3 := 3
  const RUN_MAX := 66
  const MATCH_MIN := 4
  const MATCH_MAX_V1 := 66
  const MATCH_MAX_V3 := 258
  const OFFSET_MAX := 65535
  const REPEAT_MATCH_MIN := 3
  const REPEAT_MATCH_MAX := 33
  const HASH_SIZE := 8192
  const HASH_WAYS := 8
  const INVALID_POS := 0xFFFFFFFF

  // ---------------------------------------------------------------- match history

  /** For every hash value the latest positions that have it, newest first. */
  type History = h: seq<seq<nat>> | |h| == HASH_SIZE witness seq(HASH_SIZE, _ => [])

  function Hash4(data: seq<byte>, pos: nat): (r: nat)
    requires pos + 4 <= |data|
    ensures r < HASH_SIZE
  {
    var value := 16777216 * data[pos] as int + 65536 * data[pos + 1] as int + 256 * data[pos + 2] as int + data[pos + 3] as int;
    (value * 2654435761) % 0x1_0000_0000 / 524288 % HASH_SIZE
  }

  function HistoryReset(): History {
    seq(HASH_SIZE, _ => seq(HASH_WAYS, _ => INVALID_POS))
  }

  function HistoryInsert(history: History, data: seq<byte>, pos: nat): History {
    if pos + 3 >= |data| then history else
      var h := Hash4(data, pos);
      var slot := [pos] + history[h];
      history[h := if |slot| > HASH_WAYS then slot[..HASH_WAYS] else slot]
  }

  method HistoryInsertAll(history: History, data: seq<byte>, pos: nat, length: nat) returns (r: History) {
    r := history;
    for delta := 0 to length {
      r := HistoryInsert(r, data, pos + delta);
    }
  }

  // ---------------------------------------------------------------- candidates

  ghost predicate IsRun(s: seq<byte>, pos: nat, length: nat) {
    pos + length <= |s| && forall k :: pos <= k < pos + length ==> s[k] == s[pos]
  }

  /** The longest run from `pos` on, up to `runMax` bytes. */
  method FindRunLen(data: seq<byte>, pos: nat, runMax: nat) returns (length: nat)
    requires pos < |data| && 0 < runMax
    ensures 1 <= length <= runMax && IsRun(data, pos, length)
    ensures length == runMax || pos + length == |data| || data[pos + length] != data[pos]
  {
    length := 1;
    var limit := Min(runMax, |data| - pos);
    while length < limit && data[pos + length] == data[pos]
      invariant 1 <= length <= limit && IsRun(data, pos, length)
    {
      length := length + 1;
    }
  }

  /** How far the data at `pos` repeats the data at `candidate`, once it does so for `known` bytes. */
  method ExtendMatch(data: seq<byte>, candidate: nat, pos: nat, known: nat, limit: nat) returns (length: nat)
    requires candidate < pos && known <= limit && pos + limit <= |data|
    requires IsMatch(data, pos, pos - candidate, known)
    ensures known <= length <= limit && IsMatch(data, pos, pos - candidate, length)
    ensures length == limit || data[candidate + length] != data[pos + length]
  {
    length := known;
    while length < limit && data[candidate + length] == data[pos + length]
      invariant known <= length <= limit && IsMatch(data, pos, pos - candidate, length)
    {
      length := length + 1;
    }
  }

  /** A history entry usable at `pos`: in the past, within reach and equal for the first four bytes. */
  predicate Usable(data: seq<byte>, candidate: nat, pos: nat)
    requires pos + MATCH_MIN <= |data|
  {
    && candidate != INVALID_POS && candidate < pos && pos - candidate <= OFFSET_MAX
    && data[candidate] == data[pos] && data[candidate + 1] == data[pos + 1]
    && data[candidate + 2] == data[pos + 2] && data[candidate + 3] == data[pos + 3]
  }

  lemma UsableIsMatch(data: seq<byte>, candidate: nat, pos: nat)
    requires pos + MATCH_MIN <= |data| && Usable(data, candidate, pos)
    ensures IsMatch(data, pos, pos - candidate, MATCH_MIN)
  {
    forall k | pos <= k < pos + MATCH_MIN ensures data[k] == data[k - (pos - candidate)] {
      assert k == pos || k == pos + 1 || k == pos + 2 || k == pos + 3;
    }
  }

  /** Nothing found, or a match of `min` to `max` bytes within reach `reach`. */
  ghost predicate Found(data: seq<byte>, pos: nat, length: nat, offset: nat, max: nat, reach: nat) {
    length == 0 || (MATCH_MIN <= length <= max && offset <= reach && IsMatch(data, pos, offset, length))
  }

  method FindMatchV1(history: History, data: seq<byte>, pos: nat) returns (bestLen: nat, bestOffset: nat)
    requires pos < |data|
    ensures Found(data, pos, bestLen, bestOffset, MATCH_MAX_V1, OFFSET_MAX)
  {
    bestLen, bestOffset := 0, 0;
    if pos + MATCH_MIN > |data| { return; }
    var limit := Min(MATCH_MAX_V1, |data| - pos);
    var slot := history[Hash4(data, pos)];
    for i := 0 to |slot|
      invariant Found(data, pos, bestLen, bestOffset, MATCH_MAX_V1, OFFSET_MAX)
    {
      var candidate := slot[i];
      if !Usable(data, candidate, pos) { continue; }
      UsableIsMatch(data, candidate, pos);
      var length := ExtendMatch(data, candidate, pos, MATCH_MIN, limit);
      if length > bestLen {
        bestLen, bestOffset := length, pos - candidate;
        if length == limit { break; }
      }
    }
  }

  method FindCandidatesV3(history: History, data: seq<byte>, pos: nat)
    returns (longLen: nat, longOffset: nat, shortLen: nat, shortOffset: nat)
    requires pos < |data|
    ensures Found(data, pos, longLen, longOffset, MATCH_MAX_V3, OFFSET_MAX)
    ensures Found(data, pos, shortLen, shortOffset, SHORT_MATCH_MAX, SHORT_MATCH_RANGE)
  {
    longLen, longOffset, shortLen, shortOffset := 0, 0, 0, 0;
    if pos + MATCH_MIN > |data| { return; }
    var limit := Min(MATCH_MAX_V3, |data| - pos);
    var slot := history[Hash4(data, pos)];
    for i := 0 to |slot|
      invariant Found(data, pos, longLen, longOffset, MATCH_MAX_V3, OFFSET_MAX)
      invariant Found(data, pos, shortLen, shortOffset, SHORT_MATCH_MAX, SHORT_MATCH_RANGE)
    {
      var candidate := slot[i];
      if !Usable(data, candidate, pos) { continue; }
      UsableIsMatch(data, candidate, pos);
      var offset := pos - candidate;
      var length := ExtendMatch(data, candidate, pos, MATCH_MIN, limit);
      if length > longLen { longLen, longOffset := length, offset; }
      if offset <= SHORT_MATCH_RANGE {
        var short := Min(length, SHORT_MATCH_MAX);
        if short > shortLen { shortLen, shortOffset := short, offset; }
      }
      if longLen == limit && shortLen == SHORT_MATCH_MAX { break; }
    }
  }

  method FindRepeatLen(data: seq<byte>, pos: nat, lastOffset: nat) returns (length: nat)
    requires pos < |data|
    ensures length <= REPEAT_MATCH_MAX
    ensures length > 0 ==> IsMatch(data, pos, lastOffset, length)
  {
    if lastOffset <= 0 || lastOffset > pos { return 0; }
    length := ExtendMatch(data, pos - lastOffset, pos, 0, Min(REPEAT_MATCH_MAX, |data| - pos));
  }

  // ---------------------------------------------------------------- choosing a token

  datatype Kind = KindLiteral | KindRun | KindShort | KindRepeat | KindLong
  datatype Choice = Choice(kind: Kind, length: nat, offset: nat, cost: nat, gain: int)

  function PickBetter(best: Choice, c: Choice): (r: Choice)
    ensures r == best || (r == c && c.gain >= best.gain)
    ensures r.gain >= best.gain && r.gain >= c.gain
  {
    if c.gain > best.gain then c
    else if c.gain == best.gain && c.cost < best.cost then c
    else if c.gain == best.gain && c.cost == best.cost && c.length > best.length then c
    else best
  }

  /** A choice that stands for the data at `pos` and whose token does not take more bytes than it covers. */
  ghost predicate Valid(data: seq<byte>, pos: nat, last: nat, c: Choice) {
    match c.kind
    case KindLiteral => c == Choice(KindLiteral, 1, 0, 2, 0)
    case KindRun => RUN_MIN_V3 <= c.length <= RUN_MAX && IsRun(data, pos, c.length) && c.gain == c.length - 2
    case KindShort =>
      && SHORT_MATCH_MIN <= c.length <= SHORT_MATCH_MAX && c.offset <= SHORT_MATCH_RANGE
      && IsMatch(data, pos, c.offset, c.length) && c.gain == c.length - 2
    case KindRepeat =>
      && REPEAT_MATCH_MIN <= c.length <= REPEAT_MATCH_MAX && c.offset == last
      && IsMatch(data, pos, last, c.length) && c.gain == c.length - 1
    case KindLong =>
      && MATCH_MIN <= c.length <= MATCH_MAX_V3 && c.offset <= OFFSET_MAX
      && IsMatch(data, pos, c.offset, c.length) && c.gain == c.length - 4
  }

  method PickShort(data: seq<byte>, pos: nat, ghost last: nat, choice: Choice, shortLen: nat, shortOffset: nat)
    returns (best: Choice)
    requires Valid(data, pos, last, choice) && Found(data, pos, shortLen, shortOffset, SHORT_MATCH_MAX, SHORT_MATCH_RANGE)
    ensures Valid(data, pos, last, best)
  {
    best := choice;
    if shortLen >= SHORT_MATCH_MIN {
      for length := SHORT_MATCH_MIN to shortLen + 1
        invariant Valid(data, pos, last, best)
      {
        best := PickBetter(best, Choice(KindShort, length, shortOffset, 2, length - 2));
      }
    }
  }

  method ChooseSequenceV3(history: History, data: seq<byte>, pos: nat, lastOffset: nat) returns (best: Choice)
    requires pos < |data|
    ensures Valid(data, pos, lastOffset, best)
  {
    best := Choice(KindLiteral, 1, 0, 2, 0);
    var runLen := FindRunLen(data, pos, RUN_MAX);
    if runLen >= RUN_MIN_V3 {
      best := PickBetter(best, Choice(KindRun, runLen, 0, 2, runLen - 2));
    }
    var longLen, longOffset, shortLen, shortOffset := FindCandidatesV3(history, data, pos);
    best := PickShort(data, pos, lastOffset, best, shortLen, shortOffset);
    if longLen >= MATCH_MIN {
      best := PickBetter(best, Choice(KindLong, longLen, longOffset, 4, longLen - 4));
    }
    var repeatLen := FindRepeatLen(data, pos, lastOffset);
    if repeatLen >= REPEAT_MATCH_MIN {
      best := PickBetter(best, Choice(KindRepeat, repeatLen, lastOffset, 1, repeatLen - 1));
    }
  }

  // ---------------------------------------------------------------- writing tokens

  /** Literal tokens for `s`, at most 64 bytes each. */
  function LiteralTokens(s: seq<byte>): (r: seq<byte>) {
    if s == [] then [] else
      var n := Min(|s|, LITERAL_MAX);
      [n - 1] + s[..n] + LiteralTokens(s[n..])
  }

  method EmitLiterals(out: seq<byte>, data: seq<byte>, start: nat, length: nat) returns (r: seq<byte>)
    requires start + length <= |data|
    ensures r == out + LiteralTokens(data[start..start + length])
  {
    r := out;
    var from: nat, left: nat := start, length;
    while left > 0
      invariant start <= from && from + left == start + length
      invariant r + LiteralTokens(data[from..start + length]) == out + LiteralTokens(data[start..start + length])
    {
      var chunk := Min(left, LITERAL_MAX);
      ghost var rest := data[from..start + length];
      assert rest[..chunk] == data[from..from + chunk] && rest[chunk..] == data[from + chunk..start + length];
      assert LiteralTokens(rest) == [chunk - 1] + rest[..chunk] + LiteralTokens(rest[chunk..]);
      assert r + LiteralTokens(rest) == r + [chunk - 1] + rest[..chunk] + LiteralTokens(rest[chunk..]);
      r := r + [chunk - 1] + data[from..from + chunk];
      from, left := from + chunk, left - chunk;
    }
    assert data[from..start + length] == [];
  }

  lemma LiteralRuns(d: Dialect, s: seq<byte>, st: Lz, cap: nat)
    requires 0 < |s| <= LITERAL_MAX && |st.out| + |s| <= cap
    ensures var t := [|s| - 1] + s;
            && Parse(d, t) == Some(Parsed(Literal(s), |t|))
            && Apply(Literal(s), st, cap) == Some(Lz(st.out + s, st.last))
            && LiteralTokens(s) == t
  {
    var t := [|s| - 1] + s;
    assert t[1..1 + |s|] == s;
    assert s[..|s|] == s && s[|s|..] == [];
  }

  /** The pending literals, if any, brought into the stream. */
  lemma FlushRuns(d: Dialect, body: seq<byte>, source: seq<byte>, start: nat, length: nat, last: nat)
    requires length <= LITERAL_MAX && start + length <= |source|
    requires Steps(d, body, Lz([], 0), |source|) == Some(Lz(source[..start], last))
    ensures Steps(d, body + LiteralTokens(source[start..start + length]), Lz([], 0), |source|)
         == Some(Lz(source[..start + length], last))
    ensures |LiteralTokens(source[start..start + length])| == if length == 0 then 0 else length + 1
  {
    var s := source[start..start + length];
    if length == 0 {
      assert body + LiteralTokens(s) == body;
    } else {
      LiteralRuns(d, s, Lz(source[..start], last), |source|);
      StepsAppend(d, body, [|s| - 1] + s, Lz([], 0), Lz(source[..start], last), |source|);
      assert source[..start] + s == source[..start + length];
    }
  }

  function RunToken(length: nat, value: byte): (t: seq<byte>)
    requires RUN_MIN_V3 <= length <= RUN_MAX
    ensures |t| == 2 && forall d :: Parse(d, t) == Some(Parsed(Run(length, value), 2))
  {
    [0x40 + (length - RUN_MIN_V3), value]
  }

  function MatchTokenV1(length: nat, offset: nat): (t: seq<byte>)
    requires MATCH_MIN <= length <= MATCH_MAX_V1 && offset <= OFFSET_MAX
    ensures |t| == 3 && Parse(Legacy, t) == Some(Parsed(Match(length, offset), 3))
  {
    [0x80 + (length - 3), offset % 256, offset / 256 % 256]
  }

  function ShortMatchToken(length: nat, offset: nat): (t: seq<byte>)
    requires SHORT_MATCH_MIN <= length <= SHORT_MATCH_MAX && 1 <= offset <= SHORT_MATCH_RANGE
    ensures |t| == 2 && Parse(Modern, t) == Some(Parsed(Match(length, offset), 2))
  {
    var code := (length - SHORT_MATCH_MIN) * SHORT_MATCH_RANGE + (offset - 1);
    [0x80 + code / 256, code % 256]
  }

  function RepeatToken(length: nat): (t: seq<byte>)
    requires REPEAT_MATCH_MIN <= length <= REPEAT_MATCH_MAX
    ensures |t| == 1 && Parse(Modern, t) == Some(Parsed(Repeat(length), 1))
  {
    [0xE0 + (length - REPEAT_MATCH_MIN)]
  }

  function LongMatchToken(length: nat, offset: nat): (t: seq<byte>)
    requires MATCH_MIN <= length <= MATCH_MAX_V3 && offset <= OFFSET_MAX
    ensures |t| == 4 && Parse(Modern, t) == Some(Parsed(Match(length, offset), 4))
  {
    [0xFF, length - MATCH_MIN, offset % 256, offset / 256 % 256]
  }

  lemma RunAdvances(source: seq<byte>, pos: nat, length: nat, last: nat)
    requires pos < |source| && IsRun(source, pos, length)
    ensures Apply(Run(length, source[pos]), Lz(source[..pos], last), |source|) == Some(Lz(source[..pos + length], last))
  {
    assert source[..pos] + Repeated(source[pos], length) == source[..pos + length];
  }

  lemma MatchAdvances(source: seq<byte>, pos: nat, offset: nat, length: nat, last: nat)
    requires IsMatch(source, pos, offset, length)
    ensures Apply(Match(length, offset), Lz(source[..pos], last), |source|) == Some(Lz(source[..pos + length], offset))
    ensures last == offset ==>
      Apply(Repeat(length), Lz(source[..pos], last), |source|) == Some(Lz(source[..pos + length], offset))
  {
    CopyBackMatch(source, pos, offset, length);
  }

  /** The token for a choice other than a literal, and the match offset it leaves behind. */
  method TokenFor(source: seq<byte>, pos: nat, last: nat, c: Choice) returns (t: seq<byte>, newLast: nat)
    requires pos < |source| && Valid(source, pos, last, c) && !c.kind.KindLiteral?
    ensures t != [] && Parse(Modern, t).Some? && Parse(Modern, t).value.size == |t|
    ensures Apply(Parse(Modern, t).value.token, Lz(source[..pos], last), |source|) == Some(Lz(source[..pos + c.length], newLast))
  {
    newLast := last;
    match c.kind
    case KindRun =>
      t := RunToken(c.length, source[pos]);
      RunAdvances(source, pos, c.length, last);
    case KindShort =>
      t := ShortMatchToken(c.length, c.offset);
      newLast := c.offset;
      MatchAdvances(source, pos, c.offset, c.length, last);
    case KindRepeat =>
      t := RepeatToken(c.length);
      MatchAdvances(source, pos, last, c.length, last);
    case KindLong =>
      t := LongMatchToken(c.length, c.offset);
      newLast := c.offset;
      MatchAdvances(source, pos, c.offset, c.length, last);
    case KindLiteral =>
      assert false;
  }

  // ---------------------------------------------------------------- streams

  /** An archive of the given header fields around `prefix` and a stream that decodes to `source`. */
  ghost predicate Archives(archive: seq<byte>, version: byte, originalSize: nat, transform: byte, prefix: seq<byte>, source: seq<byte>) {
    exists body :: ArchiveOf(archive, version, originalSize, transform, prefix, body, source)
  }

  ghost predicate ArchiveOf(archive: seq<byte>, version: byte, originalSize: nat, transform: byte, prefix: seq<byte>,
                            body: seq<byte>, source: seq<byte>)
  {
    && archive == WriteHeader(version, originalSize, |prefix| + |body|, transform) + (prefix + body)
    && Stream(Modern, body, |source|) == Some(source)
  }

  /** Bring out the pending literals and then the token for `c`. */
  method EmitChoice(body: seq<byte>, source: seq<byte>, start: nat, length: nat, pos: nat, last: nat, c: Choice)
    returns (r: seq<byte>, newLast: nat)
    requires length <= LITERAL_MAX && length <= pos < |source| && (length > 0 ==> start == pos - length)
    requires Steps(Modern, body, Lz([], 0), |source|) == Some(Lz(source[..pos - length], last))
    requires Valid(source, pos, last, c) && !c.kind.KindLiteral?
    ensures pos + c.length <= |source|
    ensures Steps(Modern, r, Lz([], 0), |source|) == Some(Lz(source[..pos + c.length], newLast))
  {
    r := FlushLiterals(Modern, body, source, start, length, pos, last);
    var t;
    t, newLast := TokenFor(source, pos, last, c);
    StepsAppend(Modern, r, t, Lz([], 0), Lz(source[..pos], last), |source|);
    r := r + t;
  }

  method EncodeTokens(source: seq<byte>) returns (body: seq<byte>)
    ensures Stream(Modern, body, |source|) == Some(source)
  {
    var history := HistoryReset();
    body := [];
    var pos: nat, literalStart: nat, literalLen: nat, lastOffset: nat := 0, 0, 0, 0;
    while pos < |source|
      invariant pos <= |source| && literalLen < LITERAL_MAX && literalLen <= pos
      invariant literalLen > 0 ==> literalStart == pos - literalLen
      invariant Steps(Modern, body, Lz([], 0), |source|) == Some(Lz(source[..pos - literalLen], lastOffset))
    {
      var choice := ChooseSequenceV3(history, source, pos, lastOffset);
      if !choice.kind.KindLiteral? {
        body, lastOffset := EmitChoice(body, source, literalStart, literalLen, pos, lastOffset, choice);
        history := HistoryInsertAll(history, source, pos, choice.length);
        pos := pos + choice.length;
        literalLen, literalStart := 0, pos;
      } else {
        if literalLen == 0 { literalStart := pos; }
        history := HistoryInsert(history, source, pos);
        literalLen, pos := literalLen + 1, pos + 1;
        if literalLen == LITERAL_MAX {
          body := FlushLiterals(Modern, body, source, literalStart, literalLen, pos, lastOffset);
          literalLen, literalStart := 0, pos;
        }
      }
    }
    body := FlushLiterals(Modern, body, source, literalStart, literalLen, pos, lastOffset);
    assert source[..|source|] == source;
  }

  method EncodeMatchStream(source: seq<byte>, version: byte, originalSize: nat, transform: byte, prefix: seq<byte>)
    returns (archive: seq<byte>)
    ensures Archives(archive, version, originalSize, transform, prefix, source)
  {
    var body := EncodeTokens(source);
    archive := WriteHeader(version, originalSize, |prefix| + |body|, transform) + (prefix + body);
    assert ArchiveOf(archive, version, originalSize, transform, prefix, body, source);
  }

  method FlushLiterals(ghost d: Dialect, body: seq<byte>, source: seq<byte>, start: nat, length: nat, pos: nat, ghost last: nat)
    returns (r: seq<byte>)
    requires length <= LITERAL_MAX && length <= pos <= |source| && (length > 0 ==> start == pos - length)
    requires Steps(d, body, Lz([], 0), |source|) == Some(Lz(source[..pos - length], last))
    ensures Steps(d, r, Lz([], 0), |source|) == Some(Lz(source[..pos], last))
    ensures |r| == |body| + if length == 0 then 0 else length + 1
  {
    r := body;
    if length > 0 {
      FlushRuns(d, body, source, start, length, last);
      r := EmitLiterals(body, source, start, length);
    }
  }

  // ---------------------------------------------------------------- version 1

  /** A version 1 choice: the token and how many bytes of `data` it covers; no token for a literal. */
  method ChooseV1(history: History, data: seq<byte>, pos: nat, ghost last: nat)
    returns (t: seq<byte>, length: nat, ghost newLast: nat)
    requires pos < |data|
    ensures 1 <= length && pos + length <= |data|
    ensures t == [] ==> length == 1
    ensures t != [] ==>
              && |t| < length
              && Parse(Legacy, t).Some? && Parse(Legacy, t).value.size == |t|
              && Apply(Parse(Legacy, t).value.token, Lz(data[..pos], last), |data|) == Some(Lz(data[..pos + length], newLast))
  {
    newLast := last;
    var runLen := FindRunLen(data, pos, RUN_MAX);
    var matchLen, matchOffset := FindMatchV1(history, data, pos);
    if runLen >= RUN_MIN_V1 && runLen >= matchLen + 1 {
      t, length := RunToken(runLen, data[pos]), runLen;
      RunAdvances(data, pos, length, last);
    } else if matchLen >= MATCH_MIN {
      t, length := MatchTokenV1(matchLen, matchOffset), matchLen;
      newLast := matchOffset;
      MatchAdvances(data, pos, matchOffset, length, last);
    } else {
      t, length := [], 1;
    }
  }

  /** The token stream of version 1. It is at most a sixty-fourth larger than the data, and one byte. */
  method EncodeBodyV1(data: seq<byte>) returns (body: seq<byte>)
    ensures Stream(Legacy, body, |data|) == Some(data)
    ensures |body| <= |data| + |data| / 64 + 1
  {
    var history := HistoryReset();
    body := [];
    ghost var last: nat := 0;
    var pos: nat, literalStart: nat, literalLen: nat := 0, 0, 0;
    while pos < |data|
      invariant pos <= |data| && literalLen < LITERAL_MAX && literalLen <= pos
      invariant literalLen > 0 ==> literalStart == pos - literalLen
      invariant Steps(Legacy, body, Lz([], 0), |data|) == Some(Lz(data[..pos - literalLen], last))
      invariant 64 * (|body| - (pos - literalLen)) <= pos - literalLen
    {
      ghost var newLast;
      var t, length;
      t, length, newLast := ChooseV1(history, data, pos, last);
      if t != [] {
        body := FlushLiterals(Legacy, body, data, literalStart, literalLen, pos, last);
        StepsAppend(Legacy, body, t, Lz([], 0), Lz(data[..pos], last), |data|);
        body := body + t;
        history := HistoryInsertAll(history, data, pos, length);
        last := newLast;
        pos := pos + length;
        literalLen, literalStart := 0, pos;
      } else {
        if literalLen == 0 { literalStart := pos; }
        history := HistoryInsert(history, data, pos);
        literalLen, pos := literalLen + 1, pos + 1;
        if literalLen == LITERAL_MAX {
          body := FlushLiterals(Legacy, body, data, literalStart, literalLen, pos, last);
          literalLen, literalStart := 0, pos;
        }
      }
    }
    body := FlushLiterals(Legacy, body, data, literalStart, literalLen, pos, last);
    assert data[..|data|] == data;
  }

  /** The header's size fields hold what a version 1 archive of `n` bytes may need. */
  predicate SizesFit(n: nat) {
    n + n / 64 + 1 < 0x1_0000_0000
  }

  method EncodeV1(ghost ds: Dictionaries, data: seq<byte>) returns (archive: seq<byte>)
    ensures SizesFit(|data|) ==> Single(ds, archive) == Some(data) && Within(archive, |data|)
    ensures |archive| <= HEADER_SIZE + |data| + |data| / 64 + 1
  {
    var body := EncodeBodyV1(data);
    archive := WriteHeader(VERSION_V1, |data|, |body|, 0) + body;
    if SizesFit(|data|) {
      HeaderReadsBack(VERSION_V1, |data|, 0, body);
      SingleIsContents(ds, archive);
    }
  }

  // ---------------------------------------------------------------- version 3

  method GroupDelta(data: seq<byte>, width: nat) returns (r: seq<byte>)
    requires 1 < width
    ensures r == Do(Recipe(width, Prev(Delta)), data)
  {
    r := PyTransforms.GroupBytes(data, width);
    r := PyTransforms.DeltaForward(r);
  }

  method GroupXor(data: seq<byte>, width: nat) returns (r: seq<byte>)
    requires 1 < width
    ensures r == Do(Recipe(width, Prev(ExclusiveOr)), data)
  {
    r := PyTransforms.GroupBytes(data, width);
    r := PyTransforms.XorForward(r);
  }

  method ApplyGrouped(data: seq<byte>, transform: byte) returns (r: seq<byte>)
    requires RecipeOf(transform).Some? && RecipeOf(transform).value.width > 1
    ensures r == Do(RecipeOf(transform).value, data)
  {
    if transform == GROUP4 { r := PyTransforms.GroupBytes(data, 4); return; }
    if transform == GROUP4_DELTA8 { r := GroupDelta(data, 4); return; }
    if transform == GROUP4_XOR8 { r := GroupXor(data, 4); return; }
    if transform == GROUP8 { r := PyTransforms.GroupBytes(data, 8); return; }
    if transform == GROUP8_DELTA8 { r := GroupDelta(data, 8); return; }
    if transform == GROUP8_XOR8 { r := GroupXor(data, 8); return; }
    if transform == GROUP2 { r := PyTransforms.GroupBytes(data, 2); return; }
    if transform == GROUP2_DELTA8 { r := GroupDelta(data, 2); return; }
    r := GroupXor(data, 2);
  }

  method ApplyTransform(data: seq<byte>, transform: byte) returns (r: seq<byte>)
    requires RecipeOf(transform).Some?
    ensures r == Do(RecipeOf(transform).value, data)
  {
    if transform == RAW { return data; }
    if transform == DELTA8 { r := PyTransforms.DeltaForward(data); return; }
    if transform == XOR8 { r := PyTransforms.XorForward(data); return; }
    if transform == DELTA8_DELTA8 { r := PyTransforms.DeltaForward(data); r := PyTransforms.DeltaForward(r); return; }
    if transform == DELTA32LE { r := PyTransforms.Delta32Forward(data); return; }
    r := ApplyGrouped(data, transform);
  }

  method EncodeV3(data: seq<byte>, transform: byte) returns (archive: seq<byte>)
    requires RecipeOf(transform).Some?
    ensures Archives(archive, VERSION_V3, |data|, transform, [], Do(RecipeOf(transform).value, data))
  {
    var source := ApplyTransform(data, transform);
    archive := EncodeMatchStream(source, VERSION_V3, |data|, transform, []);
  }

  /** Any version 3 archive whose payload size fits its header means the data it was made from. */
  lemma V3Means(ds: Dictionaries, archive: seq<byte>, data: seq<byte>, transform: byte)
    requires RecipeOf(transform).Some?
    requires Archives(archive, VERSION_V3, |data|, transform, [], Do(RecipeOf(transform).value, data))
    requires |data| < 0x1_0000_0000 && |archive| - HEADER_SIZE < 0x1_0000_0000
    ensures Single(ds, archive) == Some(data) && Within(archive, |data|)
  {
    var source := Do(RecipeOf(transform).value, data);
    var body :| ArchiveOf(archive, VERSION_V3, |data|, transform, [], body, source);
    assert [] + body == body;
    HeaderReadsBack(VERSION_V3, |data|, transform, body);
    V3FieldsMean(ds, archive, data, transform, body);
  }

  lemma V3FieldsMean(ds: Dictionaries, archive: seq<byte>, data: seq<byte>, transform: byte, body: seq<byte>)
    requires RecipeOf(transform).Some? && HasFields(archive, VERSION_V3, transform, |data|, body)
    requires Stream(Modern, body, |data|) == Some(Do(RecipeOf(transform).value, data))
    ensures Single(ds, archive) == Some(data) && Within(archive, |data|)
  {
    UndoDo(RecipeOf(transform).value, data);
    SingleIsContents(ds, archive);
  }

  // ---------------------------------------------------------------- version 4

  /** Order in which the dictionary entries are tried. */
  ghost predicate IsOrder(order: seq<nat>, dict: Dictionary) {
    forall i :: 0 <= i < |order| ==> order[i] < |dict|
  }

  function Printable(value: byte): bool {
    value == 9 || value == 10 || value == 13 || 32 <= value < 127
  }

  function CountPrintable(data: seq<byte>): (n: nat)
    ensures n <= |data|
  {
    if data == [] then 0 else CountPrintable(data[..|data| - 1]) + if Printable(data[|data| - 1]) then 1 else 0
  }

  method LooksTextLike(data: seq<byte>) returns (r: bool)
    ensures r <==> data != [] && 8 * CountPrintable(data) >= 7 * |data|
  {
    if data == [] { return false; }
    var printable := 0;
    for i := 0 to |data|
      invariant printable == CountPrintable(data[..i])
    {
      assert data[..i + 1][..i] == data[..i];
      if Printable(data[i]) { printable := printable + 1; }
    }
    assert data[..|data|] == data;
    return printable * 8 >= |data| * 7;
  }

  /** The first entry, in the given order, that the data starts with at `pos`. */
  method FindEntry(data: seq<byte>, pos: nat, dict: Dictionary, order: seq<nat>) returns (r: Option<nat>)
    requires IsOrder(order, dict) && pos < |data|
    ensures r.Some? ==> r.value < |dict| && dict[r.value] <= data[pos..]
    ensures r.None? ==> forall i :: 0 <= i < |order| ==> !(dict[order[i]] <= data[pos..])
  {
    for i := 0 to |order|
      invariant forall k :: 0 <= k < i ==> !(dict[order[k]] <= data[pos..])
    {
      if dict[order[i]] <= data[pos..] { return Some(order[i]); }
    }
    return None;
  }

  lemma PieceAppends(dict: Dictionary, out: seq<byte>, t: seq<byte>, data: seq<byte>, pos: nat, next: nat)
    requires pos <= next <= |data| && t != []
    requires Expand(dict, out, []) == Some(data[..pos])
    requires FirstPiece(dict, t) == Some(Piece(data[pos..next], |t|))
    ensures Expand(dict, out + t, []) == Some(data[..next])
  {
    ExpandConcat(dict, out, t, []);
    assert t[|t|..] == [];
    assert data[..pos] + data[pos..next] == data[..next];
  }

  /** Replace what the dictionary knows by one-byte tokens; fails when that would not shrink the text. */
  method ApplyTextDictionary(data: seq<byte>, dict: Dictionary, order: seq<nat>) returns (r: Option<seq<byte>>)
    requires IsOrder(order, dict)
    ensures r.Some? ==> |r.value| <= |data| && Expand(dict, r.value, []) == Some(data)
  {
    var textLike := LooksTextLike(data);
    if !textLike { return None; }
    var out: seq<byte> := [];
    var pos: nat := 0;
    while pos < |data|
      invariant pos <= |data| && |out| <= |data|
      invariant Expand(dict, out, []) == Some(data[..pos])
    {
      var found := FindEntry(data, pos, dict, order);
      var t: seq<byte>, next: nat;
      if found.Some? {
        var entry := dict[found.value];
        t, next := [0x80 + found.value], pos + |entry|;
        assert data[pos..next] == entry;
      } else {
        var value := data[pos];
        t, next := if value == 0 || value > 0x7F then [0, value] else [value], pos + 1;
        assert data[pos..next] == [value];
      }
      if |out| + |t| > |data| { return None; }
      PieceAppends(dict, out, t, data, pos, next);
      out, pos := out + t, next;
    }
    assert data[..|data|] == data;
    return Some(out);
  }

  method EncodeV4(data: seq<byte>, transform: byte, dict: Dictionary, order: seq<nat>)
    returns (r: Option<seq<byte>>, ghost text: seq<byte>)
    requires IsOrder(order, dict)
    ensures r.Some? ==>
              && |text| <= |data| && Expand(dict, text, []) == Some(data)
              && Archives(r.value, VERSION_V4, |data|, transform, U32ToLe(|text|), text)
  {
    text := [];
    var transformed := ApplyTextDictionary(data, dict, order);
    if transformed.None? { return None, []; }
    text := transformed.value;
    var archive := EncodeMatchStream(transformed.value, VERSION_V4, |data|, transform, U32ToLe(|transformed.value|));
    return Some(archive), text;
  }

  lemma V4Means(ds: Dictionaries, archive: seq<byte>, data: seq<byte>, transform: byte, text: seq<byte>)
    requires DictionaryFor(ds, transform).Some?
    requires |text| <= |data| && Expand(DictionaryFor(ds, transform).value, text, []) == Some(data)
    requires Archives(archive, VERSION_V4, |data|, transform, U32ToLe(|text|), text)
    requires |data| < 0x1_0000_0000 && |archive| - HEADER_SIZE < 0x1_0000_0000
    ensures Single(ds, archive) == Some(data) && Within(archive, |data|)
  {
    var size := U32ToLe(|text|);
    var body :| ArchiveOf(archive, VERSION_V4, |data|, transform, size, body, text);
    HeaderReadsBack(VERSION_V4, |data|, transform, size + body);
    V4FieldsMean(ds, archive, data, transform, text, body);
  }

  lemma V4FieldsMean(ds: Dictionaries, archive: seq<byte>, data: seq<byte>, transform: byte, text: seq<byte>, body: seq<byte>)
    requires DictionaryFor(ds, transform).Some? && |text| <= |data| < 0x1_0000_0000
    requires HasFields(archive, VERSION_V4, transform, |data|, U32ToLe(|text|) + body)
    requires Stream(Modern, body, |text|) == Some(text)
    requires Expand(DictionaryFor(ds, transform).value, text, []) == Some(data)
    ensures Single(ds, archive) == Some(data) && Within(archive, |data|)
  {
    TextParts(archive, |text|, body);
    V4TextMeans(ds, archive, data, text, body);
    SingleIsContents(ds, archive);
  }

  lemma V4TextMeans(ds: Dictionaries, archive: seq<byte>, data: seq<byte>, text: seq<byte>, body: seq<byte>)
    requires HEADER_SIZE + 4 <= |archive| && OriginalSize(archive) == |data|
    requires TextSize(archive) == |text| && archive[HEADER_SIZE + 4..] == body && Stream(Modern, body, |text|) == Some(text)
    requires DictionaryFor(ds, archive[5]).Some? && Expand(DictionaryFor(ds, archive[5]).value, text, []) == Some(data)
    ensures Text(ds, archive) == Some(data)
  {
  }

  lemma TextParts(archive: seq<byte>, size: nat, body: seq<byte>)
    requires HEADER_SIZE <= |archive| && size < 0x1_0000_0000 && archive[HEADER_SIZE..] == U32ToLe(size) + body
    ensures HEADER_SIZE + 4 <= |archive| && TextSize(archive) == size && archive[HEADER_SIZE + 4..] == body
  {
    assert archive[HEADER_SIZE..HEADER_SIZE + 4] == archive[HEADER_SIZE..][..4];
    assert archive[HEADER_SIZE + 4..] == archive[HEADER_SIZE..][4..];
    U32RoundTrip(size, archive, HEADER_SIZE);
  }

  // ---------------------------------------------------------------- choosing an archive

  const TRANSFORM_CANDIDATES: seq<byte> :=
    [RAW, DELTA8, XOR8, GROUP4, GROUP4_DELTA8, GROUP4_XOR8, GROUP8, GROUP8_DELTA8, GROUP8_XOR8,
     GROUP2, GROUP2_DELTA8, GROUP2_XOR8, DELTA8_DELTA8, DELTA32LE]

  /** The dictionaries and the orders in which their entries are tried, longest first. */
  datatype Texts = Texts(ds: Dictionaries, proseOrder: seq<nat>, codeOrder: seq<nat>) {
    ghost predicate Ordered() {
      IsOrder(proseOrder, ds.prose) && IsOrder(codeOrder, ds.code)
    }
  }

  /** An archive of `data` that decodes to it and is no larger than its version 1 form. */
  ghost predicate Good(ds: Dictionaries, archive: seq<byte>, data: seq<byte>) {
    && (SizesFit(|data|) ==> Single(ds, archive) == Some(data) && Within(archive, |data|))
    && |archive| <= HEADER_SIZE + |data| + |data| / 64 + 1
  }

  method BetterV3(ghost ds: Dictionaries, data: seq<byte>, transform: byte, best: seq<byte>) returns (r: seq<byte>)
    requires RecipeOf(transform).Some? && Good(ds, best, data)
    ensures Good(ds, r, data)
  {
    r := EncodeV3(data, transform);
    if |r| >= |best| { return best; }
    if SizesFit(|data|) { V3Means(ds, r, data, transform); }
  }

  method BetterV4(texts: Texts, data: seq<byte>, transform: byte, dict: Dictionary, order: seq<nat>, best: seq<byte>)
    returns (r: seq<byte>)
    requires IsOrder(order, dict) && DictionaryFor(texts.ds, transform) == Some(dict) && Good(texts.ds, best, data)
    ensures Good(texts.ds, r, data)
  {
    ghost var text;
    var candidate;
    candidate, text := EncodeV4(data, transform, dict, order);
    if candidate.None? || |candidate.value| >= |best| { return best; }
    r := candidate.value;
    if SizesFit(|data|) { V4Means(texts.ds, r, data, transform, text); }
  }

  method EncodeBest(texts: Texts, data: seq<byte>) returns (best: seq<byte>)
    requires texts.Ordered()
    ensures Good(texts.ds, best, data)
  {
    best := EncodeV1(texts.ds, data);
    for i := 0 to |TRANSFORM_CANDIDATES|
      invariant Good(texts.ds, best, data)
    {
      best := BetterV3(texts.ds, data, TRANSFORM_CANDIDATES[i], best);
    }
    best := BetterV4(texts, data, TEXT_PROSE, texts.ds.prose, texts.proseOrder, best);
    best := BetterV4(texts, data, TEXT_CODE, texts.ds.code, texts.codeOrder, best);
  }

  /** The size of the largest part that is encoded on its own. */
  function PartSize(n: nat, chunkSize: Option<int>): nat {
    if chunkSize.Some? && 0 < chunkSize.value < n then chunkSize.value else n
  }

  /** How many chunks `n` bytes are cut into. */
  function Parts(n: nat, chunkSize: nat): nat
    requires 0 < chunkSize
  {
    if n == 0 then 0 else if n <= chunkSize then 1 else 1 + Parts(n - chunkSize, chunkSize)
  }

  /** The largest archive `n` bytes can get: a sixty-fourth more, and 17 bytes for every part and 16 for a chunked whole. */
  function ArchiveBound(n: nat, chunkSize: Option<int>): nat {
    if chunkSize.Some? && 0 < chunkSize.value < n then HEADER_SIZE + n + n / 64 + (HEADER_SIZE + 1) * Parts(n, chunkSize.value)
    else HEADER_SIZE + n + n / 64 + 1
  }

  /** The chunks in `body` hold `prefix`, none of them larger than `limit`. */
  ghost predicate Holds(ds: Dictionaries, body: seq<byte>, prefix: seq<byte>, limit: nat) {
    Chunks(ds, body, []) == Some(prefix) && EachWithin(body, limit)
  }

  lemma AppendPart(ds: Dictionaries, body: seq<byte>, archive: seq<byte>, data: seq<byte>, start: nat, end: nat, limit: nat)
    requires start <= end <= |data| && end - start <= limit && SizesFit(limit)
    requires Holds(ds, body, data[..start], limit) && Good(ds, archive, data[start..end])
    ensures Holds(ds, body + archive, data[..end], limit)
  {
    WithinMonotone(archive, end - start, limit);
    ChunksAppend(ds, body, archive, []);
    EachWithinAppend(ds, body, archive, [], limit);
    assert data[..start] + data[start..end] == data[..end];
  }

  method EncodeParts(texts: Texts, data: seq<byte>, chunkSize: nat) returns (body: seq<byte>)
    requires texts.Ordered() && 0 < chunkSize
    ensures SizesFit(chunkSize) ==> Holds(texts.ds, body, data, chunkSize)
    ensures |body| <= |data| + |data| / 64 + (HEADER_SIZE + 1) * Parts(|data|, chunkSize)
  {
    body := [];
    var start: nat := 0;
    ghost var parts: nat := 0;
    while start < |data|
      invariant start <= |data|
      invariant Parts(|data|, chunkSize) == parts + Parts(|data| - start, chunkSize)
      invariant |body| <= start + start / 64 + (HEADER_SIZE + 1) * parts
      invariant SizesFit(chunkSize) ==> Holds(texts.ds, body, data[..start], chunkSize)
    {
      var end := Min(start + chunkSize, |data|);
      var archive := EncodeBest(texts, data[start..end]);
      if SizesFit(chunkSize) { AppendPart(texts.ds, body, archive, data, start, end, chunkSize); }
      body := body + archive;
      start, parts := end, parts + 1;
    }
    assert data[..|data|] == data;
  }

  method EncodeChunked(texts: Texts, data: seq<byte>, chunkSize: nat) returns (out: seq<byte>)
    requires texts.Ordered() && 0 < chunkSize < |data| < 0x1_0000_0000
    ensures HEADER_SIZE <= |out| <= ArchiveBound(|data|, Some(chunkSize)) && ArchiveVersion(out) == VERSION_V2
    ensures SizesFit(chunkSize) ==> Meaning(texts.ds, out) == Some(data) && EachWithin(out[HEADER_SIZE..], chunkSize)
  {
    var body := EncodeParts(texts, data, chunkSize);
    out := WrapParts(texts.ds, data, chunkSize, body);
    ChunkedBound(|data|, chunkSize);
  }

  lemma ChunkedBound(n: nat, chunkSize: nat)
    requires 0 < chunkSize < n
    ensures ArchiveBound(n, Some(chunkSize)) == HEADER_SIZE + n + n / 64 + (HEADER_SIZE + 1) * Parts(n, chunkSize)
  {
  }

  method WrapParts(ghost ds: Dictionaries, data: seq<byte>, chunkSize: nat, body: seq<byte>) returns (out: seq<byte>)
    requires 0 < chunkSize < |data| < 0x1_0000_0000
    ensures |out| == HEADER_SIZE + |body| && ArchiveVersion(out) == VERSION_V2
    ensures Holds(ds, body, data, chunkSize) ==> Meaning(ds, out) == Some(data) && EachWithin(out[HEADER_SIZE..], chunkSize)
  {
    HeaderFields(VERSION_V2, |data|, chunkSize, 0, body);
    out := WriteHeader(VERSION_V2, |data|, chunkSize, 0) + body;
  }

  lemma WithinMonotone(archive: seq<byte>, small: nat, limit: nat)
    requires small <= limit
    ensures SizesFit(limit) ==> SizesFit(small)
    ensures Within(archive, small) ==> Within(archive, limit)
  {
  }

  /** Whatever is encoded decodes to the input, unless a part is so large that its sizes overflow the header. */
  method Encode(texts: Texts, data: seq<byte>, chunkSize: Option<int>) returns (r: Option<seq<byte>>)
    requires texts.Ordered()
    ensures r.None? <==> |data| > 0xFFFFFFFF || (chunkSize.Some? && chunkSize.value < |data| && chunkSize.value <= 0)
    ensures r.Some? ==> |r.value| <= ArchiveBound(|data|, chunkSize)
    ensures r.Some? && SizesFit(PartSize(|data|, chunkSize)) ==>
              && Meaning(texts.ds, r.value) == Some(data)
              && if ArchiveVersion(r.value) == VERSION_V2
                 then EachWithin(r.value[HEADER_SIZE..], PartSize(|data|, chunkSize))
                 else Within(r.value, PartSize(|data|, chunkSize))
  {
    if |data| > 0xFFFFFFFF { return None; }
    if chunkSize.None? || |data| <= chunkSize.value {
      var best := EncodeBest(texts, data);
      return Some(best);
    }
    if chunkSize.value <= 0 { return None; }
    var out := EncodeChunked(texts, data, chunkSize.value);
    return Some(out);
  }
}
