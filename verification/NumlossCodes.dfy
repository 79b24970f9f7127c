/**
  The archive format spelled out in numbers: what every code, token and header byte stands for. Nothing here is computed;
  each definition says when some bytes stand for others, and the theorem at the end says that archives mean exactly that.
 */
module NumlossCodes {
  import opened Bytes
  import opened NumlossTransforms
  import opened NumlossFormat

  // ---------------------------------------------------------------- transforms

  function Before(s: seq<byte>, i: nat): byte
    requires i <= |s|
  {
    if i == 0 then 0 else s[i - 1]
  }

  /** Every byte of `out` is the one before it plus the byte of `s`. */
  ghost predicate SumsUp(s: seq<byte>, out: seq<byte>) {
    |out| == |s| && forall i: nat :: i < |s| ==> out[i] == (Before(out, i) + s[i]) % 256
  }

  /** Bit `k` of a number, the lowest being bit 0. */
  function Bit(x: nat, k: nat): nat {
    if k == 0 then x % 2 else Bit(x / 2, k - 1)
  }

  /** Every bit of `c` is set if just one of those of `a` and `b` is. */
  ghost predicate IsXor(a: byte, b: byte, c: byte) {
    forall k: nat :: k < 8 ==> Bit(c, k) == (Bit(a, k) + Bit(b, k)) % 2
  }

  ghost predicate XorsUp(s: seq<byte>, out: seq<byte>) {
    |out| == |s| && forall i: nat :: i < |s| ==> IsXor(Before(out, i), s[i], out[i])
  }

  /** Where byte `j` of the words lies among the lanes, `n` bytes each. */
  function LaneOf(j: nat, n: nat, width: nat): nat
    requires 0 < width
  {
    j % width * n + j / width
  }

  ghost predicate UnlanedBy(s: seq<byte>, out: seq<byte>, width: nat, n: nat, head: nat)
    requires 0 < width
  {
    && |out| == |s|
    && (forall j: nat :: j < head && j < |s| ==> LaneOf(j, n, width) < |s| && out[j] == s[LaneOf(j, n, width)])
    && (forall j: nat :: head <= j < |s| ==> out[j] == s[j])
  }

  /** The bytes of `s` lane by lane are those of `out` word by word; what is no whole word stays. */
  ghost predicate Unlaned(s: seq<byte>, out: seq<byte>, width: nat)
    requires 0 < width
  {
    UnlanedBy(s, out, width, |s| / width, |s| / width * width)
  }

  /** The little-endian word at `at`. */
  function Word(s: seq<byte>, at: nat): nat
    requires at + 4 <= |s|
  {
    s[at] as nat + 0x100 * s[at + 1] as nat + 0x1_0000 * s[at + 2] as nat + 0x100_0000 * s[at + 3] as nat
  }

  /** Every word of `out` is the one before it plus the word of `s`; what is no whole word stays. */
  ghost predicate WordsSumUp(s: seq<byte>, out: seq<byte>) {
    && |out| == |s|
    && (forall k: nat :: 4 * k + 4 <= |s| ==>
          Word(out, 4 * k) == ((if k == 0 then 0 else Word(out, 4 * k - 4)) + Word(s, 4 * k)) % 0x1_0000_0000)
    && (forall j: nat :: |s| / 4 * 4 <= j < |s| ==> out[j] == s[j])
  }

  /** What transform number `code` makes of `s` when it is undone. */
  ghost predicate Restored(code: int, s: seq<byte>, out: seq<byte>) {
    match code
    case 0 => out == s
    case 1 => SumsUp(s, out)
    case 2 => XorsUp(s, out)
    case 3 => Unlaned(s, out, 4)
    case 4 => exists m :: SumsUp(s, m) && Unlaned(m, out, 4)
    case 5 => exists m :: XorsUp(s, m) && Unlaned(m, out, 4)
    case 6 => Unlaned(s, out, 8)
    case 7 => exists m :: SumsUp(s, m) && Unlaned(m, out, 8)
    case 8 => exists m :: XorsUp(s, m) && Unlaned(m, out, 8)
    case 9 => Unlaned(s, out, 2)
    case 10 => exists m :: SumsUp(s, m) && Unlaned(m, out, 2)
    case 11 => exists m :: XorsUp(s, m) && Unlaned(m, out, 2)
    case 12 => exists m :: SumsUp(s, m) && SumsUp(m, out)
    case 15 => WordsSumUp(s, out)
    case _ => false
  }

  /** Two sequences built by the same rule from their own last byte are the same. */
  lemma {:induction false} SameFrom(op: PrevOp, s: seq<byte>, a: seq<byte>, b: seq<byte>, i: nat)
    requires |a| == |s| == |b| && i < |s|
    requires forall i: nat :: i < |s| ==> a[i] == Combine(op, Before(a, i), s[i])
    requires forall i: nat :: i < |s| ==> b[i] == Combine(op, Before(b, i), s[i])
    ensures a[i] == b[i]
  {
    if i > 0 { SameFrom(op, s, a, b, i - 1); }
  }

  lemma RestoredBy(op: PrevOp, s: seq<byte>, out: seq<byte>)
    ensures (|out| == |s| && forall i: nat :: i < |s| ==> out[i] == Combine(op, Before(out, i), s[i])) <==> out == PrevInverse(op, s)
  {
    var r := PrevInverse(op, s);
    forall i: nat | i < |s| ensures r[i] == Combine(op, Before(r, i), s[i]) { PrevInverseAt(op, s, i); }
    if |out| == |s| && forall i: nat :: i < |s| ==> out[i] == Combine(op, Before(out, i), s[i]) {
      forall i | 0 <= i < |s| ensures out[i] == r[i] { SameFrom(op, s, out, r, i); }
    }
  }

  lemma SumsUpIs(s: seq<byte>, out: seq<byte>)
    ensures SumsUp(s, out) <==> out == PrevInverse(Delta, s)
  {
    RestoredBy(Delta, s, out);
  }

  lemma {:induction false} XorBit(a: nat, b: nat, k: nat)
    ensures Bit(Xor(a, b), k) == (Bit(a, k) + Bit(b, k)) % 2
  {
    XorDigits(a, b);
    if k > 0 { XorBit(a / 2, b / 2, k - 1); }
  }

  /** The bits of a number determine it. */
  lemma {:induction false} SameBits(x: nat, y: nat, n: nat)
    requires x < Pow2(n) && y < Pow2(n) && forall k: nat :: k < n ==> Bit(x, k) == Bit(y, k)
    ensures x == y
  {
    if n > 0 {
      assert Bit(x, 0) == Bit(y, 0);
      forall k: nat | k < n - 1 ensures Bit(x / 2, k) == Bit(y / 2, k) {
        assert Bit(x, k + 1) == Bit(y, k + 1);
      }
      SameBits(x / 2, y / 2, n - 1);
    }
  }

  lemma XorIs(a: byte, b: byte)
    ensures IsXor(a, b, Xor8(a, b))
  {
    forall k: nat | k < 8 ensures Bit(Xor8(a, b), k) == (Bit(a, k) + Bit(b, k)) % 2 { XorBit(a, b, k); }
  }

  lemma OneXor(a: byte, b: byte, c: byte, d: byte)
    requires IsXor(a, b, c) && IsXor(a, b, d)
    ensures c == d
  {
    assert Pow2(8) == 256;
    SameBits(c, d, 8);
  }

  lemma XorIff(a: byte, b: byte, c: byte)
    ensures IsXor(a, b, c) <==> c == Combine(ExclusiveOr, a, b)
  {
    XorIs(a, b);
    if IsXor(a, b, c) { OneXor(a, b, c, Xor8(a, b)); }
  }

  lemma XorsUpIs(s: seq<byte>, out: seq<byte>)
    ensures XorsUp(s, out) <==> out == PrevInverse(ExclusiveOr, s)
  {
    if |out| == |s| {
      forall i: nat | i < |s| ensures IsXor(Before(out, i), s[i], out[i]) <==> out[i] == Combine(ExclusiveOr, Before(out, i), s[i]) {
        XorIff(Before(out, i), s[i], out[i]);
      }
    }
    RestoredBy(ExclusiveOr, s, out);
  }

  lemma LaneCell(s: seq<byte>, width: nat, j: nat, n: nat, head: nat)
    requires 0 < width && j < |s| && n == |s| / width && head == n * width
    ensures if j < head then LaneOf(j, n, width) < |s| && Ungroup(s, width)[j] == s[LaneOf(j, n, width)]
            else Ungroup(s, width)[j] == s[j]
  {
    UngroupCell(s, width, j);
  }

  lemma HeadFits(size: nat, width: nat)
    requires 0 < width
    ensures size / width * width <= size
  {
  }

  lemma UnlanedIs(s: seq<byte>, out: seq<byte>, width: nat)
    requires 0 < width
    ensures Unlaned(s, out, width) <==> out == Ungroup(s, width)
  {
    var n, head, r := |s| / width, |s| / width * width, Ungroup(s, width);
    HeadFits(|s|, width);
    forall j: nat | j < |s|
      ensures if j < head then LaneOf(j, n, width) < |s| && r[j] == s[LaneOf(j, n, width)] else r[j] == s[j]
    {
      LaneCell(s, width, j, n, head);
    }
    UnlanedOnly(s, out, r, width, n, head);
  }

  lemma UnlanedOnly(s: seq<byte>, out: seq<byte>, r: seq<byte>, width: nat, n: nat, head: nat)
    requires 0 < width && head <= |s| == |r|
    requires forall j: nat :: j < |s| ==> if j < head then LaneOf(j, n, width) < |s| && r[j] == s[LaneOf(j, n, width)] else r[j] == s[j]
    ensures UnlanedBy(s, out, width, n, head) <==> out == r
  {
    if UnlanedBy(s, out, width, n, head) {
      forall j | 0 <= j < |s| ensures out[j] == r[j] {
      }
    }
  }

  // ---------------------------------------------------------------- words

  lemma WordIs(s: seq<byte>, at: nat)
    requires at + 4 <= |s|
    ensures Word(s, at) == U32FromLe(s, at)
  {
    LeValue4(s[at..at + 4]);
  }

  lemma SameWord(s: seq<byte>, t: seq<byte>, at: nat)
    requires at + 4 <= |s| && at + 4 <= |t| && Word(s, at) == Word(t, at)
    ensures s[at..at + 4] == t[at..at + 4]
  {
    WordIs(s, at);
    WordIs(t, at);
    U32ToLeInverse(s, at);
    U32ToLeInverse(t, at);
  }

  lemma {:induction false} WordSumsAt(w: seq<u32>, k: nat)
    requires k < |w|
    ensures WordSums(w)[k] == Add32(if k == 0 then 0 else WordSums(w)[k - 1], w[k])
  {
    if k < |w| - 1 { WordSumsAt(w[..|w| - 1], k); }
  }

  lemma InverseWord(s: seq<byte>, k: nat)
    requires 4 * k + 4 <= |s|
    ensures Word(WordInverse(s), 4 * k) == WordSums(ToWords(s))[k] && ToWords(s)[k] == Word(s, 4 * k)
  {
    var sums := WordSums(ToWords(s));
    assert WordInverse(s)[..4 * |sums|] == FromWords(sums);
    ToWordsAt(sums, WordInverse(s), k);
    WordIs(WordInverse(s), 4 * k);
    WordsUpToAt(s, |s| / 4, k);
    WordIs(s, 4 * k);
  }

  lemma InverseSumsUp(s: seq<byte>)
    ensures WordsSumUp(s, WordInverse(s))
  {
    var out := WordInverse(s);
    forall k: nat | 4 * k + 4 <= |s|
      ensures Word(out, 4 * k) == ((if k == 0 then 0 else Word(out, 4 * k - 4)) + Word(s, 4 * k)) % 0x1_0000_0000
    {
      InverseWord(s, k);
      WordSumsAt(ToWords(s), k);
      if k > 0 { InverseWord(s, k - 1); }
    }
  }

  lemma {:induction false} WordsOnce(s: seq<byte>, a: seq<byte>, b: seq<byte>, k: nat)
    requires WordsSumUp(s, a) && WordsSumUp(s, b) && 4 * k <= |s|
    ensures a[..4 * k] == b[..4 * k]
  {
    if k > 0 {
      WordsOnce(s, a, b, k - 1);
      var at := 4 * (k - 1);
      if k > 1 { assert Word(a, at - 4) == Word(b, at - 4) by { SameEarlier(a, b, at); } }
      assert Word(a, 4 * (k - 1)) == Word(b, 4 * (k - 1));
      SameWord(a, b, at);
      assert a[..at + 4] == a[..at] + a[at..at + 4] && b[..at + 4] == b[..at] + b[at..at + 4];
    }
  }

  lemma SameEarlier(a: seq<byte>, b: seq<byte>, at: nat)
    requires 4 <= at <= |a| && at <= |b| && a[..at] == b[..at]
    ensures Word(a, at - 4) == Word(b, at - 4)
  {
    assert a[..at][at - 4..at] == a[at - 4..at] && b[..at][at - 4..at] == b[at - 4..at];
    WordIs(a, at - 4);
    WordIs(b, at - 4);
  }

  lemma WordsSumUpIs(s: seq<byte>, out: seq<byte>)
    ensures WordsSumUp(s, out) <==> out == WordInverse(s)
  {
    InverseSumsUp(s);
    if WordsSumUp(s, out) {
      var n := |s| / 4;
      WordsOnce(s, out, WordInverse(s), n);
      assert out == out[..4 * n] + out[4 * n..];
      assert WordInverse(s) == WordInverse(s)[..4 * n] + WordInverse(s)[4 * n..];
    }
  }

  lemma LanesOfSums(s: seq<byte>, out: seq<byte>, width: nat)
    requires 0 < width
    ensures (exists m :: SumsUp(s, m) && Unlaned(m, out, width)) <==> out == Ungroup(PrevInverse(Delta, s), width)
  {
    var sums := PrevInverse(Delta, s);
    forall m ensures SumsUp(s, m) <==> m == sums { SumsUpIs(s, m); }
    UnlanedIs(sums, out, width);
  }

  lemma LanesOfXors(s: seq<byte>, out: seq<byte>, width: nat)
    requires 0 < width
    ensures (exists m :: XorsUp(s, m) && Unlaned(m, out, width)) <==> out == Ungroup(PrevInverse(ExclusiveOr, s), width)
  {
    var xors := PrevInverse(ExclusiveOr, s);
    forall m ensures XorsUp(s, m) <==> m == xors { XorsUpIs(s, m); }
    UnlanedIs(xors, out, width);
  }

  lemma SumsOfSums(s: seq<byte>, out: seq<byte>)
    ensures (exists m :: SumsUp(s, m) && SumsUp(m, out)) <==> out == PrevInverse(Delta, PrevInverse(Delta, s))
  {
    var sums := PrevInverse(Delta, s);
    forall m ensures SumsUp(s, m) <==> m == sums { SumsUpIs(s, m); }
    SumsUpIs(sums, out);
  }

  lemma LanesIs(code: byte, s: seq<byte>, out: seq<byte>, width: nat)
    requires (width == 4 && 3 <= code <= 5) || (width == 8 && 6 <= code <= 8) || (width == 2 && 9 <= code <= 11)
    ensures Restored(code, s, out) <==> RecipeOf(code).Some? && out == Undo(RecipeOf(code).value, s)
  {
    if code == 3 || code == 6 || code == 9 {
      UnlanedIs(s, out, width);
    } else if code == 4 || code == 7 || code == 10 {
      LanesOfSums(s, out, width);
    } else {
      LanesOfXors(s, out, width);
    }
  }

  /** Exactly the fourteen numbers stand for a transform, each for the one it is said to. */
  lemma RestoredIs(code: byte, s: seq<byte>, out: seq<byte>)
    ensures Restored(code, s, out) <==> RecipeOf(code).Some? && out == Undo(RecipeOf(code).value, s)
  {
    if code == 1 {
      SumsUpIs(s, out);
    } else if code == 2 {
      XorsUpIs(s, out);
    } else if 3 <= code <= 11 {
      LanesIs(code, s, out, if code <= 5 then 4 else if code <= 8 then 8 else 2);
    } else if code == 12 {
      SumsOfSums(s, out);
    } else if code == 15 {
      WordsSumUpIs(s, out);
    }
  }

  // ---------------------------------------------------------------- tokens

  /** `out` continued by `n` bytes, each the one `offset` before it. */
  ghost predicate Copied(out: seq<byte>, next: seq<byte>, offset: nat, n: nat) {
    && 1 <= offset <= |out| && |next| == |out| + n && out <= next
    && forall i: nat :: |out| <= i < |next| ==> next[i] == next[i - offset]
  }

  /** `out` continued by `n` bytes of one value. */
  ghost predicate Filled(out: seq<byte>, next: seq<byte>, value: byte, n: nat) {
    |next| == |out| + n && out <= next && forall i: nat :: |out| <= i < |next| ==> next[i] == value
  }

  /** The first `size` bytes of `p`, a token of version 3 or 4, turn `out` and the last match offset into `next` and `last'`. */
  ghost predicate NewToken(p: seq<byte>, size: nat, out: seq<byte>, last: nat, next: seq<byte>, last': nat)
    requires 0 < size <= |p|
  {
    var t := p[0] as nat;
    if t <= 63 then size == t + 2 && next == out + p[1..size] && last' == last
    else if t <= 127 then size == 2 && Filled(out, next, p[1], t - 61) && last' == last
    else if t <= 223 then
      && size == 2
      && var code := 256 * (t - 128) + p[1] as nat;
        last' == code % 6144 + 1 && Copied(out, next, last', code / 6144 + 4)
    else if t <= 254 then size == 1 && Copied(out, next, last, t - 221) && last' == last
    else size == 4 && last' == p[2] as nat + 256 * p[3] as nat && Copied(out, next, last', p[1] as nat + 4)
  }

  /** The same for a token of version 1. */
  ghost predicate OldToken(p: seq<byte>, size: nat, out: seq<byte>, last: nat, next: seq<byte>, last': nat)
    requires 0 < size <= |p|
  {
    var t := p[0] as nat;
    if t <= 63 then size == t + 2 && next == out + p[1..size] && last' == last
    else if t <= 127 then size == 2 && Filled(out, next, p[1], t - 61) && last' == last
    else if t <= 191 then size == 3 && last' == p[1] as nat + 256 * p[2] as nat && Copied(out, next, last', t - 125)
    else false
  }

  ghost predicate TokenStep(d: Dialect, p: seq<byte>, size: nat, out: seq<byte>, last: nat, next: seq<byte>, last': nat)
    requires 0 < size <= |p|
  {
    if d.Legacy? then OldToken(p, size, out, last, next, last') else NewToken(p, size, out, last, next, last')
  }

  /** The tokens of `p`, one after the other, turn `out` and `last` into `all`. */
  ghost predicate Spells(d: Dialect, p: seq<byte>, out: seq<byte>, last: nat, all: seq<byte>)
    decreases |p|
  {
    if p == [] then out == all
    else exists size: nat, next: seq<byte>, last': nat ::
      0 < size <= |p| && TokenStep(d, p, size, out, last, next, last') && Spells(d, p[size..], next, last', all)
  }

  lemma {:induction false} CopyBackAt(out: seq<byte>, offset: nat, n: nat)
    requires 1 <= offset <= |out|
    ensures Copied(out, CopyBack(out, offset, n), offset, n)
  {
    if n > 0 { CopyBackAt(out, offset, n - 1); }
  }

  lemma CopiedIs(out: seq<byte>, next: seq<byte>, offset: nat, n: nat)
    ensures Copied(out, next, offset, n) <==> 1 <= offset <= |out| && next == CopyBack(out, offset, n)
  {
    if 1 <= offset <= |out| { CopyBackAt(out, offset, n); }
    if Copied(out, next, offset, n) {
      CopyBackMatch(next, |out|, offset, n);
      assert next[..|out|] == out && next[..|out| + n] == next;
    }
  }

  lemma FilledIs(out: seq<byte>, next: seq<byte>, value: byte, n: nat)
    ensures Filled(out, next, value, n) <==> next == out + Repeated(value, n)
  {
    if Filled(out, next, value, n) {
      assert next == out + next[|out|..];
      assert next[|out|..] == Repeated(value, n);
    }
  }

  /** What the model's parser and interpreter make of one token. */
  ghost predicate Interprets(d: Dialect, p: seq<byte>, size: nat, out: seq<byte>, last: nat, next: seq<byte>, last': nat)
    requires 0 < size <= |p|
  {
    && Parse(d, p).Some? && Parse(d, p).value.size == size
    && Apply(Parse(d, p).value.token, Lz(out, last), |next|) == Some(Lz(next, last'))
  }

  lemma OldTokenIs(p: seq<byte>, size: nat, out: seq<byte>, last: nat, next: seq<byte>, last': nat)
    requires 0 < size <= |p|
    ensures OldToken(p, size, out, last, next, last') <==> Interprets(Legacy, p, size, out, last, next, last')
  {
    var t := p[0] as nat;
    if 64 <= t <= 127 && |p| >= 2 { FilledIs(out, next, p[1], t - 61); }
    if 128 <= t <= 191 && |p| >= 3 { CopiedIs(out, next, p[1] as nat + 256 * p[2] as nat, t - 125); }
  }

  lemma ShortCode(t: nat, b: byte)
    requires 128 <= t <= 223
    ensures (256 * (t - 128) + b as nat) / 6144 + 4 <= 7
  {
  }

  lemma ShortIs(p: seq<byte>, size: nat, out: seq<byte>, last: nat, next: seq<byte>, last': nat)
    requires 0 < size <= |p| && 128 <= p[0] <= 223
    ensures NewToken(p, size, out, last, next, last') <==> Interprets(Modern, p, size, out, last, next, last')
  {
    if |p| >= 2 {
      ShortCode(p[0], p[1]);
      var code := 256 * (p[0] as nat - 128) + p[1] as nat;
      CopiedIs(out, next, code % 6144 + 1, code / 6144 + 4);
      assert ParseModern(p) == Some(Parsed(Match(code / 6144 + 4, code % 6144 + 1), 2));
    }
  }

  lemma NewTokenIs(p: seq<byte>, size: nat, out: seq<byte>, last: nat, next: seq<byte>, last': nat)
    requires 0 < size <= |p|
    ensures NewToken(p, size, out, last, next, last') <==> Interprets(Modern, p, size, out, last, next, last')
  {
    var t := p[0] as nat;
    if t <= 63 {
    } else if t <= 127 {
      if |p| >= 2 { FilledIs(out, next, p[1], t - 61); }
    } else if t <= 223 {
      ShortIs(p, size, out, last, next, last');
    } else if t <= 254 {
      CopiedIs(out, next, last, t - 221);
    } else if |p| >= 4 {
      CopiedIs(out, next, p[2] as nat + 256 * p[3] as nat, p[1] as nat + 4);
    }
  }

  lemma TokenIs(d: Dialect, p: seq<byte>, size: nat, out: seq<byte>, last: nat, next: seq<byte>, last': nat)
    requires 0 < size <= |p|
    ensures TokenStep(d, p, size, out, last, next, last') <==> Interprets(d, p, size, out, last, next, last')
  {
    if d.Legacy? { OldTokenIs(p, size, out, last, next, last'); } else { NewTokenIs(p, size, out, last, next, last'); }
  }

  lemma ApplyCap(t: Token, st: Lz, cap: nat, next: Lz)
    ensures Apply(t, st, cap) == Some(next) <==> Apply(t, st, |next.out|) == Some(next) && |next.out| <= cap
  {
  }

  /** The model's interpreter turns `p` into `all`. */
  ghost predicate Runs(d: Dialect, p: seq<byte>, out: seq<byte>, last: nat, all: seq<byte>) {
    var r := Steps(d, p, Lz(out, last), |all|);
    |out| <= |all| && r.Some? && r.value.out == all
  }

  lemma RunsFirst(d: Dialect, p: seq<byte>, out: seq<byte>, last: nat, all: seq<byte>)
    requires p != [] && Runs(d, p, out, last, all)
    ensures exists size: nat, next: seq<byte>, last': nat ::
      0 < size <= |p| && TokenStep(d, p, size, out, last, next, last') && Runs(d, p[size..], next, last', all)
  {
    var Parsed(token, size) := Parse(d, p).value;
    var st := Apply(token, Lz(out, last), |all|).value;
    ApplyCap(token, Lz(out, last), |all|, st);
    TokenIs(d, p, size, out, last, st.out, st.last);
    assert TokenStep(d, p, size, out, last, st.out, st.last) && Runs(d, p[size..], st.out, st.last, all);
  }

  lemma RunsMore(d: Dialect, p: seq<byte>, size: nat, out: seq<byte>, last: nat, next: seq<byte>, last': nat, all: seq<byte>)
    requires 0 < size <= |p| && TokenStep(d, p, size, out, last, next, last') && Runs(d, p[size..], next, last', all)
    ensures Runs(d, p, out, last, all)
  {
    TokenIs(d, p, size, out, last, next, last');
    ApplyCap(Parse(d, p).value.token, Lz(out, last), |all|, Lz(next, last'));
  }

  lemma {:induction false} SpellsIs(d: Dialect, p: seq<byte>, out: seq<byte>, last: nat, all: seq<byte>)
    ensures Spells(d, p, out, last, all) <==> Runs(d, p, out, last, all)
    decreases |p|
  {
    if p != [] {
      forall size: nat, next: seq<byte>, last': nat | 0 < size <= |p|
        ensures Spells(d, p[size..], next, last', all) <==> Runs(d, p[size..], next, last', all)
      {
        SpellsIs(d, p[size..], next, last', all);
      }
      if Spells(d, p, out, last, all) {
        var size: nat, next: seq<byte>, last': nat :|
          0 < size <= |p| && TokenStep(d, p, size, out, last, next, last') && Spells(d, p[size..], next, last', all);
        RunsMore(d, p, size, out, last, next, last', all);
      }
      if Runs(d, p, out, last, all) { RunsFirst(d, p, out, last, all); }
    }
  }

  lemma StreamIs(d: Dialect, p: seq<byte>, all: seq<byte>)
    ensures Stream(d, p, |all|) == Some(all) <==> Spells(d, p, [], 0, all)
  {
    SpellsIs(d, p, [], 0, all);
  }

  // ---------------------------------------------------------------- dictionaries

  /** Byte 0 escapes the byte after it, bytes below 128 stand for themselves and the others for an entry. */
  ghost predicate Expands(dict: seq<seq<byte>>, s: seq<byte>, all: seq<byte>)
    decreases |s|
  {
    if s == [] then all == []
    else if s[0] == 0 then |s| >= 2 && all != [] && all[0] == s[1] && Expands(dict, s[2..], all[1..])
    else if s[0] < 128 then all != [] && all[0] == s[0] && Expands(dict, s[1..], all[1..])
    else
      var index := s[0] as int - 128;
      index < |dict| && dict[index] <= all && Expands(dict, s[1..], all[|dict[index]|..])
  }

  lemma {:induction false} ExpandsIs(dict: Dictionary, s: seq<byte>, out: seq<byte>, all: seq<byte>)
    ensures Expands(dict, s, all) <==> Expand(dict, s, out) == Some(out + all)
    decreases |s|
  {
    if s == [] {
      assert out + [] == out;
      if out + all == out { assert |all| == 0; }
    } else if FirstPiece(dict, s).Some? {
      var Piece(bytes, size) := FirstPiece(dict, s).value;
      if Expand(dict, s, out) == Some(out + all) { PrefixCancel(out, bytes, all); }
      if bytes <= all {
        var rest := all[|bytes|..];
        ExpandsIs(dict, s[size..], out + bytes, rest);
        assert out + bytes + rest == out + all;
      }
    }
  }

  lemma PrefixCancel(out: seq<byte>, a: seq<byte>, b: seq<byte>)
    requires out + a <= out + b
    ensures a <= b
  {
    forall i | 0 <= i < |a| ensures a[i] == b[i] {
      assert (out + a)[|out| + i] == (out + b)[|out| + i];
    }
  }

  // ---------------------------------------------------------------- archives

  /** The letters NMLS in front of a header of 16 bytes. */
  ghost predicate Signed(data: seq<byte>) {
    |data| >= 16 && data[0] == 0x4E && data[1] == 0x4D && data[2] == 0x4C && data[3] == 0x53
  }

  /** An archive that is no sequence of others: byte 4 is the version, byte 5 the transform, then come the two sizes. */
  ghost predicate StandsAlone(ds: Dictionaries, data: seq<byte>, out: seq<byte>) {
    && Signed(data) && Word(data, 8) == |out| && Word(data, 12) == |data| - 16
    && match data[4]
       case 1 => Spells(Legacy, data[16..], [], 0, out)
       case 3 => exists s :: |s| == |out| && Spells(Modern, data[16..], [], 0, s) && Restored(data[5], s, out)
       case 4 =>
         && |data| >= 20 && (data[5] == 13 || data[5] == 14)
         && exists text ::
              && |text| == Word(data, 16) && Spells(Modern, data[20..], [], 0, text)
              && Expands(if data[5] == 13 then ds.prose else ds.code, text, out)
       case _ => false
  }

  /** Archives one after the other. */
  ghost predicate StandsInRow(ds: Dictionaries, body: seq<byte>, out: seq<byte>)
    decreases |body|
  {
    if body == [] then out == []
    else
      && |body| >= 16
      && var n := 16 + Word(body, 12);
         && n <= |body|
         && exists k: nat :: k <= |out| && StandsAlone(ds, body[..n], out[..k]) && StandsInRow(ds, body[n..], out[k..])
  }

  /** What an archive stands for, from its bytes. */
  ghost predicate Stands(ds: Dictionaries, data: seq<byte>, out: seq<byte>) {
    if Signed(data) && data[4] == 2 then Word(data, 8) == |out| && StandsInRow(ds, data[16..], out)
    else StandsAlone(ds, data, out)
  }

  lemma SignedIs(data: seq<byte>)
    ensures Signed(data) <==> |data| >= HEADER_SIZE && data[..4] == MAGIC
    ensures ArchiveVersion(data) == if Signed(data) then data[4] else 0
    ensures |data| >= 16 ==> OriginalSize(data) == Word(data, 8) && PayloadSize(data) == Word(data, 12)
    ensures |data| >= 20 ==> TextSize(data) == Word(data, 16)
  {
    if |data| >= 16 {
      assert data[..4] == [data[0], data[1], data[2], data[3]];
      WordIs(data, 8);
      WordIs(data, 12);
    }
    if |data| >= 20 { WordIs(data, 16); }
  }

  lemma TransformedIs(data: seq<byte>, out: seq<byte>)
    requires |data| >= 16 && |out| == OriginalSize(data)
    ensures (exists s :: |s| == |out| && Spells(Modern, data[16..], [], 0, s) && Restored(data[5], s, out))
       <==> Transformed(data) == Some(out)
  {
    forall s | |s| == |out| ensures Stream(Modern, data[16..], |out|) == Some(s) <==> Spells(Modern, data[16..], [], 0, s) {
      StreamIs(Modern, data[16..], s);
    }
    forall s ensures Restored(data[5], s, out) <==> RecipeOf(data[5]).Some? && out == Undo(RecipeOf(data[5]).value, s) {
      RestoredIs(data[5], s, out);
    }
    if Transformed(data) == Some(out) {
      var s := Stream(Modern, data[16..], |out|).value;
      assert |s| == |out| && Spells(Modern, data[16..], [], 0, s) && Restored(data[5], s, out);
    }
  }

  lemma TextIs(ds: Dictionaries, data: seq<byte>, dict: Dictionary, out: seq<byte>)
    requires |data| >= 20 && |out| == OriginalSize(data) && DictionaryFor(ds, data[5]) == Some(dict)
    ensures (exists text :: |text| == Word(data, 16) && Spells(Modern, data[20..], [], 0, text) && Expands(dict, text, out))
       <==> Text(ds, data) == Some(out)
  {
    var n := TextSize(data);
    SignedIs(data);
    forall text | |text| == n ensures Stream(Modern, data[20..], n) == Some(text) <==> Spells(Modern, data[20..], [], 0, text) {
      StreamIs(Modern, data[20..], text);
    }
    forall text ensures Expands(dict, text, out) <==> Expand(dict, text, []) == Some(out) {
      ExpandsIs(dict, text, [], out);
      assert [] + out == out;
    }
    if Text(ds, data) == Some(out) {
      var text := Stream(Modern, data[20..], n).value;
      assert |text| == Word(data, 16) && Spells(Modern, data[20..], [], 0, text) && Expands(dict, text, out);
    }
  }

  lemma AloneIs(ds: Dictionaries, data: seq<byte>, out: seq<byte>)
    ensures StandsAlone(ds, data, out) <==> Single(ds, data) == Some(out)
  {
    SingleIsContents(ds, data);
    SignedIs(data);
    if Signed(data) && Word(data, 8) == |out| && Word(data, 12) == |data| - 16 {
      if data[4] == 1 { StreamIs(Legacy, data[16..], out); }
      if data[4] == 3 { TransformedIs(data, out); }
      if data[4] == 4 && |data| >= 20 && (data[5] == 13 || data[5] == 14) {
        TextIs(ds, data, if data[5] == 13 then ds.prose else ds.code, out);
      }
    }
  }

  lemma FirstIs(ds: Dictionaries, body: seq<byte>, piece: seq<byte>)
    requires |body| >= 16 && 16 + Word(body, 12) <= |body|
    ensures var chunk := body[..16 + Word(body, 12)];
      StandsAlone(ds, chunk, piece) <==> FirstChunk(body) == Some(chunk) && Single(ds, chunk) == Some(piece)
  {
    var chunk := body[..16 + Word(body, 12)];
    AloneIs(ds, chunk, piece);
    SignedIs(body);
    ChunkHeader(body, |chunk|);
  }

  lemma RowStep(ds: Dictionaries, body: seq<byte>, out: seq<byte>, rest: seq<byte>, n: nat, k: nat)
    requires |body| >= 16 && n == 16 + Word(body, 12) <= |body| && k <= |rest|
    requires StandsInRow(ds, body[n..], rest[k..]) <==> Chunks(ds, body[n..], out + rest[..k]) == Some(out + rest)
    ensures StandsAlone(ds, body[..n], rest[..k]) ==>
      (StandsInRow(ds, body[n..], rest[k..]) <==> Chunks(ds, body, out) == Some(out + rest))
  {
    if StandsAlone(ds, body[..n], rest[..k]) { FirstIs(ds, body, rest[..k]); }
  }

  lemma RowFirst(ds: Dictionaries, body: seq<byte>, out: seq<byte>, rest: seq<byte>) returns (n: nat, k: nat)
    requires body != [] && Chunks(ds, body, out) == Some(out + rest)
    ensures |body| >= 16 && n == 16 + Word(body, 12) <= |body| && k <= |rest| && StandsAlone(ds, body[..n], rest[..k])
  {
    SignedIs(body);
    var chunk := FirstChunk(body).value;
    var bytes := Single(ds, chunk).value;
    assert out + bytes <= out + rest;
    PrefixCancel(out, bytes, rest);
    n, k := |chunk|, |bytes|;
    assert bytes == rest[..k];
    FirstIs(ds, body, bytes);
  }

  lemma {:induction false} RowIs(ds: Dictionaries, body: seq<byte>, out: seq<byte>, rest: seq<byte>)
    ensures StandsInRow(ds, body, rest) <==> Chunks(ds, body, out) == Some(out + rest)
    decreases |body|
  {
    if body == [] {
      assert out + [] == out;
      if out + rest == out { assert |rest| == 0; }
    } else {
      if |body| >= 16 && 16 + Word(body, 12) <= |body| {
        var n := 16 + Word(body, 12);
        forall k: nat | k <= |rest|
          ensures StandsAlone(ds, body[..n], rest[..k]) ==>
            (StandsInRow(ds, body[n..], rest[k..]) <==> Chunks(ds, body, out) == Some(out + rest))
        {
          RowIs(ds, body[n..], out + rest[..k], rest[k..]);
          assert out + rest[..k] + rest[k..] == out + rest;
          RowStep(ds, body, out, rest, n, k);
        }
      }
      if Chunks(ds, body, out) == Some(out + rest) {
        var n, k := RowFirst(ds, body, out, rest);
      }
    }
  }

  /** For every byte string, well formed or not: it means some bytes exactly when it stands for them. */
  lemma MeaningIs(ds: Dictionaries, data: seq<byte>, out: seq<byte>)
    ensures Meaning(ds, data) == Some(out) <==> Stands(ds, data, out)
  {
    SignedIs(data);
    if Signed(data) && data[4] == 2 {
      RowIs(ds, data[16..], [], out);
      assert [] + out == out;
    } else {
      AloneIs(ds, data, out);
    }
  }

  lemma OneLiteral(p: seq<byte>, s: seq<byte>)
    requires 1 <= |s| <= 64 && p == [(|s| - 1) as byte] + s
    ensures Spells(Modern, p, [], 0, s)
  {
    assert p[1..|s| + 1] == s && p[|s| + 1..] == [] && [] + s == s;
    assert TokenStep(Modern, p, |s| + 1, [], 0, s, 0) && Spells(Modern, p[|s| + 1..], s, 0, s);
  }

  /** The archive of one literal token and any transform, byte by byte. */
  lemma LiteralArchive(ds: Dictionaries, code: byte, s: seq<byte>, out: seq<byte>)
    requires 1 <= |s| <= 64 && |out| == |s|
    ensures var n: byte := |s|;
      Meaning(ds, [0x4E, 0x4D, 0x4C, 0x53, 3, code, 0, 0, n, 0, 0, 0, n + 1, 0, 0, 0, n - 1] + s) == Some(out) <==> Restored(code, s, out)
  {
    var n: byte := |s|;
    var head: seq<byte> := [0x4E, 0x4D, 0x4C, 0x53, 3, code, 0, 0, n, 0, 0, 0, n + 1, 0, 0, 0, n - 1];
    var data := head + s;
    assert data[16..] == [(n - 1) as byte] + s;
    OneLiteral(data[16..], s);
    assert Signed(data) && data[4] == 3 && data[5] == code && Word(data, 8) == |s| && Word(data, 12) == |data| - 16;
    LiteralStands(ds, data, s, out);
    MeaningIs(ds, data, out);
  }

  lemma LiteralStands(ds: Dictionaries, data: seq<byte>, s: seq<byte>, out: seq<byte>)
    requires Signed(data) && data[4] == 3 && Word(data, 8) == |s| == |out| && Word(data, 12) == |data| - 16
    requires Spells(Modern, data[16..], [], 0, s)
    ensures Stands(ds, data, out) <==> Restored(data[5], s, out)
  {
    forall t | Spells(Modern, data[16..], [], 0, t) && |t| == |s| ensures t == s {
      StreamIs(Modern, data[16..], s);
      StreamIs(Modern, data[16..], t);
    }
  }
}
