/**
  SHA-256 with its message fed in pieces. The compression function is a parameter, so what is proved holds for
  whatever one block does to the chaining value.
 */
module TlsSha256 {
  import opened Bytes

  const BLOCK: nat := 64
  const WRAP64: nat := 0x1_0000_0000_0000_0000

  /** The chaining value after the whole blocks of `bytes`. */
  ghost function Fold<H>(compress: (H, seq<byte>) -> H, h: H, bytes: seq<byte>): H {
    if |bytes| < BLOCK then h else Fold(compress, compress(h, bytes[..BLOCK]), bytes[BLOCK..])
  }

  lemma {:induction false} FoldSnoc<H>(compress: (H, seq<byte>) -> H, h: H, bytes: seq<byte>, n: nat, block: seq<byte>)
    requires |bytes| == BLOCK * n && |block| == BLOCK
    ensures Fold(compress, h, bytes + block) == compress(Fold(compress, h, bytes), block)
    decreases n
  {
    var all := bytes + block;
    if n == 0 {
      assert bytes == [] && all == block && all[..BLOCK] == block && all[BLOCK..] == [];
    } else {
      assert all[..BLOCK] == bytes[..BLOCK] && all[BLOCK..] == bytes[BLOCK..] + block;
      FoldSnoc(compress, compress(h, bytes[..BLOCK]), bytes[BLOCK..], n - 1, block);
    }
  }

  // ----- Padding, section 5.1.1 of FIPS 180-4 -----

  function Zeros(n: nat): (z: seq<byte>)
    ensures |z| == n && forall k :: 0 <= k < n ==> z[k] == 0
  {
    seq(n, _ => 0)
  }

  /** The number of zero bytes after the 0x80 marker. */
  function Gap(len: nat): (z: nat) {
    if len % BLOCK < 56 then 55 - len % BLOCK else 119 - len % BLOCK
  }

  /** The message, a one bit, zeros, and the bit length as 64 bits. */
  function Pad(message: seq<byte>): seq<byte> {
    message + [0x80] + Zeros(Gap(|message|)) + BeBytes(8 * |message| % WRAP64, 8)
  }

  lemma GapIs(q: nat, r: nat)
    requires r < BLOCK
    ensures Gap(BLOCK * q + r) == if r < 56 then 55 - r else 119 - r
  {
    assert (BLOCK * q + r) % BLOCK == r;
  }

  lemma PadLength(len: nat)
    ensures (len + 1 + Gap(len) + 8) % BLOCK == 0
    ensures (len + 1 + Gap(len) + 8) / BLOCK == len / BLOCK + if len % BLOCK < 56 then 1 else 2
  {
    var q, r := len / BLOCK, len % BLOCK;
    assert len + 1 + Gap(len) + 8 == BLOCK * (q + if r < 56 then 1 else 2);
  }

  lemma GapLeast(len: nat, z: nat)
    requires (len + 1 + z + 8) % BLOCK == 0
    ensures Gap(len) <= z
  {
    PadLength(len);
  }

  /** The padding fills whole blocks, one more or two; no shorter gap would. */
  lemma PadFits(message: seq<byte>, z: nat)
    ensures |Pad(message)| % BLOCK == 0
    ensures |Pad(message)| / BLOCK == |message| / BLOCK + if |message| % BLOCK < 56 then 1 else 2
    ensures (|message| + 1 + z + 8) % BLOCK == 0 ==> Gap(|message|) <= z
  {
    if (|message| + 1 + z + 8) % BLOCK == 0 { GapLeast(|message|, z); }
    PadLength(|message|);
  }

  ghost function Digest<H>(compress: (H, seq<byte>) -> H, initial: H, message: seq<byte>): H {
    Fold(compress, initial, Pad(message))
  }

  // ----- Streaming -----

  lemma AddWrapped(a: nat, b: nat)
    ensures (a % WRAP64 + b) % WRAP64 == (a + b) % WRAP64
  {
  }

  lemma BitLength(len: nat)
    ensures len % WRAP64 * 8 % WRAP64 == 8 * len % WRAP64
  {
    var q, r := len / WRAP64, len % WRAP64;
    assert 8 * len == WRAP64 * (8 * q) + 8 * r;
  }

  class Sha256<H(0)> {
    const compress: (H, seq<byte>) -> H
    const initial: H
    var state: H
    const block: array<byte>
    var blockLen: nat
    var totalLen: nat
    /** All bytes fed in so far. */
    ghost var message: seq<byte>
    /** How many whole blocks of it are folded in. */
    ghost var blocks: nat

    /** Whole blocks are folded in and the rest waits in the block buffer, which may just have filled up. */
    ghost predicate Buffered()
      reads this, block
    {
      && block.Length == BLOCK && blockLen <= BLOCK && |message| == BLOCK * blocks + blockLen
      && state == Fold(compress, initial, message[..BLOCK * blocks])
      && block[..blockLen] == message[BLOCK * blocks..]
    }

    ghost predicate Valid()
      reads this, block
    {
      Buffered() && blockLen < BLOCK && totalLen == |message| % WRAP64
    }

    constructor (compress: (H, seq<byte>) -> H, initial: H)
      ensures Valid() && message == [] && this.compress == compress && this.initial == initial && fresh(block)
    {
      this.compress, this.initial, state := compress, initial, initial;
      block := new byte[BLOCK](_ => 0);
      blockLen, totalLen, message, blocks := 0, 0, [], 0;
    }

    method PutByte(b: byte)
      requires Buffered() && blockLen < BLOCK
      modifies this`blockLen, this`message, block
      ensures Buffered() && message == old(message) + [b] && blockLen == old(blockLen) + 1
    {
      block[blockLen] := b;
      blockLen := blockLen + 1;
      message := message + [b];
      assert message[..BLOCK * blocks] == old(message)[..BLOCK * blocks];
      assert block[..blockLen] == old(block[..blockLen]) + [b];
    }

    method Flush()
      requires Buffered() && blockLen == BLOCK
      modifies this`blockLen, this`state, this`blocks
      ensures Buffered() && blockLen == 0
    {
      ghost var whole := message[..BLOCK * blocks];
      assert block[..] == message[BLOCK * blocks..] && message == whole + block[..];
      FoldSnoc(compress, initial, whole, blocks, block[..]);
      state := compress(state, block[..]);
      blockLen, blocks := 0, blocks + 1;
      assert message[..BLOCK * blocks] == message;
    }

    /** As much of `data` as fits the block. */
    method Fill(data: seq<byte>)
      requires Buffered() && blockLen + |data| <= BLOCK
      modifies this`blockLen, this`message, block
      ensures Buffered() && message == old(message) + data && blockLen == old(blockLen) + |data|
    {
      for i := 0 to |data|
        invariant Buffered() && message == old(message) + data[..i] && blockLen == old(blockLen) + i
      {
        PutByte(data[i]);
        assert data[..i + 1] == data[..i] + [data[i]];
      }
      assert data[..|data|] == data;
    }

    /** Fills the block and, if that made it full, folds it in. */
    method Take(data: seq<byte>)
      requires Buffered() && blockLen + |data| <= BLOCK && 0 < |data|
      modifies this`blockLen, this`message, this`state, this`blocks, block
      ensures Buffered() && blockLen < BLOCK && message == old(message) + data
    {
      Fill(data);
      if blockLen == BLOCK { Flush(); }
    }

    method Update(data: seq<byte>)
      requires Valid()
      modifies this`blockLen, this`message, this`state, this`totalLen, this`blocks, block
      ensures Valid() && message == old(message) + data
    {
      var newLen := (totalLen + |data|) % WRAP64;
      assert newLen == |message + data| % WRAP64 by { AddWrapped(|message|, |data|); }
      totalLen := newLen;
      var pos := 0;
      while pos < |data|
        invariant pos <= |data| && Buffered() && blockLen < BLOCK && message == old(message) + data[..pos]
        invariant totalLen == newLen
      {
        var chunk := Min(|data| - pos, BLOCK - blockLen);
        Take(data[pos..pos + chunk]);
        assert data[..pos + chunk] == data[..pos] + data[pos..pos + chunk];
        pos := pos + chunk;
      }
      assert data[..pos] == data;
    }

    method ZeroFill(upTo: nat)
      requires Buffered() && blockLen <= upTo <= BLOCK
      modifies this`blockLen, this`message, block
      ensures Buffered() && blockLen == upTo && message == old(message) + Zeros(upTo - old(blockLen))
    {
      while blockLen < upTo
        invariant Buffered() && blockLen <= upTo && message == old(message) + Zeros(blockLen - old(blockLen))
      {
        PutByte(0);
      }
    }

    /** Zeros up to the length field, through the next block when the marker left no room for it. */
    method ZeroGap()
      requires Buffered() && blockLen > 0
      modifies this`blockLen, this`message, this`state, this`blocks, block
      ensures Buffered() && blockLen == 56
      ensures message == old(message) + Zeros(Gap(BLOCK * old(blocks) + old(blockLen) - 1))
    {
      GapIs(blocks, blockLen - 1);
      if blockLen > 56 {
        ZeroFill(BLOCK);
        Flush();
      }
      ZeroFill(56);
    }

    method LengthField() returns (field: seq<byte>)
      requires Valid()
      ensures field == BeBytes(8 * |message| % WRAP64, 8)
    {
      BitLength(|message|);
      field := BeBytes(totalLen * 8 % WRAP64, 8);
    }

    method Final() returns (digest: H)
      requires Valid()
      modifies this`blockLen, this`message, this`state, this`blocks, block
      ensures digest == Digest(compress, initial, old(message))
    {
      ghost var m := message;
      var field := LengthField();
      PutByte(0x80);
      ZeroGap();
      Fill(field);
      Flush();
      digest := state;
      assert message[..BLOCK * blocks] == message == Pad(m);
    }
  }

  // ----- Any split gives the one-shot digest -----

  ghost function Joined(parts: seq<seq<byte>>): seq<byte> {
    if parts == [] then [] else Joined(parts[..|parts| - 1]) + parts[|parts| - 1]
  }

  /** However the message is cut into updates, the result is the digest of the whole. */
  method DigestOfParts<H(0)>(compress: (H, seq<byte>) -> H, initial: H, parts: seq<seq<byte>>) returns (digest: H)
    ensures digest == Digest(compress, initial, Joined(parts))
  {
    var ctx := new Sha256<H>(compress, initial);
    for i := 0 to |parts|
      invariant ctx.Valid() && ctx.message == Joined(parts[..i]) && fresh(ctx) && fresh(ctx.block)
      invariant ctx.compress == compress && ctx.initial == initial
    {
      ctx.Update(parts[i]);
      assert parts[..i + 1][..i] == parts[..i];
    }
    assert parts[..|parts|] == parts;
    digest := ctx.Final();
  }
}
