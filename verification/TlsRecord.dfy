/** The encrypted TLS record: MAC, then padding, then CBC encryption, and the way back. */
module TlsRecord {
  import opened Bytes
  import opened TlsAesSbox
  import opened TlsAes

  const TLS_MAX_FRAGMENT_LEN: nat := 1200
  const TLS_SHA256_LEN: nat := 32
  const RECORD_HEADER: nat := 5

  /** The MAC, with its key already applied. */
  type Mac = seq<bv8> -> seq<bv8>

  ghost predicate IsMac(mac: Mac) {
    forall m :: |mac(m)| == TLS_SHA256_LEN
  }

  function Be(value: nat, n: nat): (b: seq<bv8>)
    ensures |b| == n
  {
    var bytes := BeBytes(value, n);
    seq(n, i requires 0 <= i < n => bytes[i] as bv8)
  }

  function ReadBe16(s: seq<bv8>): nat
    requires |s| == 2
  {
    256 * (s[0] as nat) + s[1] as nat
  }

  lemma Be16Back(value: nat)
    requires value < 0x1_0000
    ensures ReadBe16(Be(value, 2)) == value
  {
    assert BeBytes(value, 2) == BeBytes(value / 256, 1) + [value % 256];
    assert BeBytes(value / 256, 1) == BeBytes(value / 256 / 256, 0) + [value / 256 % 256];
    ByteAndBack(value / 256 % 256);
    ByteAndBack(value % 256);
  }

  // ----- Sealing -----

  /** What the MAC covers: the sequence number, the header as it would be unencrypted, and the plaintext. */
  function Covered(seqNum: nat, kind: bv8, version: nat, plain: seq<bv8>): seq<bv8> {
    Be(seqNum, 8) + [kind] + Be(version, 2) + Be(|plain|, 2) + plain
  }

  function PadLength(len: nat): nat {
    15 - len % AES_BLOCK
  }

  /** One more byte than `n`, each saying n. */
  function Padding(n: nat): (p: seq<bv8>)
    requires n < 256
    ensures |p| == n + 1
  {
    seq(n + 1, _ => n as bv8)
  }

  function Inner(mac: Mac, seqNum: nat, kind: bv8, version: nat, plain: seq<bv8>): seq<bv8> {
    var body := plain + mac(Covered(seqNum, kind, version, plain));
    body + Padding(PadLength(|body|))
  }

  /** The header, the initialization vector and the ciphertext. */
  function Framed(kind: bv8, version: nat, iv: Block, cipher: seq<bv8>): seq<bv8> {
    [kind] + Be(version, 2) + Be(AES_BLOCK + |cipher|, 2) + iv + cipher
  }

  lemma FrameFields(kind: bv8, version: nat, iv: Block, cipher: seq<bv8>)
    requires AES_BLOCK + |cipher| < 0x1_0000
    ensures var wire := Framed(kind, version, iv, cipher);
      && |wire| == 21 + |cipher| && wire[0] == kind && ReadBe16(wire[3..5]) == AES_BLOCK + |cipher|
      && wire[5..21] == iv && wire[21..] == cipher
  {
    Be16Back(AES_BLOCK + |cipher|);
    assert Framed(kind, version, iv, cipher)[3..5] == Be(AES_BLOCK + |cipher|, 2);
  }

  ghost function Sealed(c: Steps, keys: seq<bv8>, mac: Mac, seqNum: nat, kind: bv8, version: nat, plain: seq<bv8>, iv: Block): seq<bv8>
    requires |keys| == KEY_BYTES
  {
    Framed(kind, version, iv, Chained(c, keys, iv, Inner(mac, seqNum, kind, version, plain)))
  }

  // ----- Opening -----

  predicate PaddedWith(s: seq<bv8>, pad: bv8, n: nat)
    requires n <= |s|
  {
    forall i :: |s| - n <= i < |s| ==> s[i] == pad
  }

  /** The plaintext of a decrypted record body, if its padding and MAC are right. */
  function Checked(mac: Mac, seqNum: nat, kind: bv8, version: nat, body: seq<bv8>): Option<seq<bv8>>
    requires body != []
  {
    var pad := body[|body| - 1];
    var padding := pad as nat + 1;
    if padding > |body| || !PaddedWith(body, pad, padding) || |body| - padding < TLS_SHA256_LEN then None
    else
      var n := |body| - padding - TLS_SHA256_LEN;
      if mac(Covered(seqNum, kind, version, body[..n])) != body[n..n + TLS_SHA256_LEN] then None
      else Some(body[..n])
  }

  /** Type, initialization vector and ciphertext of a record with a payload of `len` bytes. */
  function Parts(wire: seq<bv8>, len: nat, cap: nat): Option<(bv8, Block, seq<bv8>)> {
    if len > cap || RECORD_HEADER + len > |wire| || len < 2 * AES_BLOCK || len % AES_BLOCK != 0 then None
    else Some((wire[0], wire[5..21], wire[21..5 + len]))
  }

  function Unframed(wire: seq<bv8>, cap: nat): Option<(bv8, Block, seq<bv8>)> {
    if |wire| < RECORD_HEADER then None else Parts(wire, ReadBe16(wire[3..5]), cap)
  }

  function Accepted(mac: Mac, seqNum: nat, kind: bv8, version: nat, body: seq<bv8>): Option<(bv8, seq<bv8>)> {
    if body == [] then None
    else match Checked(mac, seqNum, kind, version, body)
      case None => None
      case Some(plain) => Some((kind, plain))
  }

  /** What the receiver takes from the wire: record type and plaintext, or nothing. */
  ghost function Opened(c: Steps, keys: seq<bv8>, mac: Mac, seqNum: nat, version: nat, wire: seq<bv8>, cap: nat): Option<(bv8, seq<bv8>)>
    requires |keys| == KEY_BYTES
  {
    match Unframed(wire, cap)
    case None => None
    case Some((kind, iv, cipher)) => Accepted(mac, seqNum, kind, version, Unchained(c, keys, iv, cipher))
  }

  lemma UnframedFramed(kind: bv8, version: nat, iv: Block, cipher: seq<bv8>, n: nat, cap: nat)
    requires |cipher| == AES_BLOCK * n && n > 0 && AES_BLOCK + |cipher| < 0x1_0000 && AES_BLOCK + |cipher| <= cap
    ensures Unframed(Framed(kind, version, iv, cipher), cap) == Some((kind, iv, cipher))
  {
    FrameFields(kind, version, iv, cipher);
    PartsOf(Framed(kind, version, iv, cipher), iv, cipher, n, cap);
  }

  lemma PartsOf(wire: seq<bv8>, iv: Block, cipher: seq<bv8>, n: nat, cap: nat)
    requires |wire| == 21 + |cipher| && wire[5..21] == iv && wire[21..] == cipher
    requires |cipher| == AES_BLOCK * n && n > 0 && AES_BLOCK + |cipher| <= cap
    ensures Parts(wire, AES_BLOCK + |cipher|, cap) == Some((wire[0], iv, cipher))
  {
    assert wire[21..5 + AES_BLOCK + |cipher|] == wire[21..];
    assert (AES_BLOCK + AES_BLOCK * n) % AES_BLOCK == 0;
  }

  /** A sealed body passes its own check. */
  lemma CheckedInner(mac: Mac, seqNum: nat, kind: bv8, version: nat, plain: seq<bv8>)
    requires IsMac(mac)
    ensures Inner(mac, seqNum, kind, version, plain) != []
    ensures Checked(mac, seqNum, kind, version, Inner(mac, seqNum, kind, version, plain)) == Some(plain)
  {
    var tag := mac(Covered(seqNum, kind, version, plain));
    var body := plain + tag;
    var n := PadLength(|body|);
    var inner := Inner(mac, seqNum, kind, version, plain);
    assert inner == body + Padding(n);
    ByteAndBack(n);
    assert inner[|inner| - 1] == n as bv8;
    assert PaddedWith(inner, n as bv8, n + 1);
    assert inner[..|plain|] == plain && inner[|plain|..|plain| + TLS_SHA256_LEN] == tag;
  }

  lemma InnerBlocks(mac: Mac, seqNum: nat, kind: bv8, version: nat, plain: seq<bv8>) returns (n: nat)
    requires IsMac(mac)
    ensures |Inner(mac, seqNum, kind, version, plain)| == AES_BLOCK * n && n >= 3
    ensures |Inner(mac, seqNum, kind, version, plain)| <= |plain| + 48
  {
    n := (|plain| + TLS_SHA256_LEN) / AES_BLOCK + 1;
  }

  /**
    The receiver gets back the type and plaintext the sender sealed: for every fragment the sender accepts, any
    initialization vector, any round keys and any MAC, given matching keys and sequence numbers.
   */
  lemma OpenedSealed(c: Steps, keys: seq<bv8>, mac: Mac, seqNum: nat, kind: bv8, version: nat, plain: seq<bv8>, iv: Block, cap: nat)
    requires Invertible(c) && |keys| == KEY_BYTES && IsMac(mac)
    requires |plain| + 64 <= cap && |plain| + 64 < 0x1_0000
    ensures Opened(c, keys, mac, seqNum, version, Sealed(c, keys, mac, seqNum, kind, version, plain, iv), cap) == Some((kind, plain))
  {
    var inner := Inner(mac, seqNum, kind, version, plain);
    var n := InnerBlocks(mac, seqNum, kind, version, plain);
    UnchainedChained(c, keys, iv, inner, n);
    UnframedFramed(kind, version, iv, Chained(c, keys, iv, inner), n, cap);
    CheckedInner(mac, seqNum, kind, version, plain);
    assert Accepted(mac, seqNum, kind, version, inner) == Some((kind, plain));
  }

  // ----- In buffers -----

  method StoreAt(data: array<bv8>, at: nat, s: seq<bv8>)
    requires at + |s| <= data.Length
    modifies data
    ensures data[at..at + |s|] == s
    ensures forall j :: 0 <= j < at || at + |s| <= j < data.Length ==> data[j] == old(data[j])
  {
    for i := 0 to |s|
      invariant forall j :: 0 <= j < i ==> data[at + j] == s[j]
      invariant forall j :: 0 <= j < at || at + |s| <= j < data.Length ==> data[j] == old(data[j])
    {
      data[at + i] := s[i];
    }
  }

  method FillPadding(data: array<bv8>, at: nat, padLen: nat)
    requires padLen < AES_BLOCK && at + padLen + 1 == data.Length
    modifies data
    ensures data[at..] == Padding(padLen) && data[..at] == old(data[..at])
  {
    for i := 0 to padLen + 1
      invariant forall j :: at <= j < at + i ==> data[j] == padLen as bv8
      invariant forall j :: 0 <= j < at ==> data[j] == old(data[j])
    {
      data[at + i] := padLen as bv8;
    }
  }

  /** The body of a record before encryption, behind room for the header and the initialization vector. */
  method BuildBody(mac: Mac, version: nat, writeSeq: nat, kind: bv8, plain: seq<bv8>) returns (record: array<bv8>)
    requires IsMac(mac)
    ensures fresh(record) && record.Length == 21 + |Inner(mac, writeSeq, kind, version, plain)|
    ensures record[21..] == Inner(mac, writeSeq, kind, version, plain)
  {
    var tag := mac(Covered(writeSeq, kind, version, plain));
    var innerLen := |plain| + |tag|;
    var padLen := 15 - innerLen % AES_BLOCK;
    record := new bv8[21 + innerLen + padLen + 1];
    StoreAt(record, 21, plain);
    StoreAt(record, 21 + |plain|, tag);
    assert record[21..21 + innerLen] == plain + tag;
    ghost var before := record[..];
    FillPadding(record, 21 + innerLen, padLen);
    assert record[21..21 + innerLen] == record[..21 + innerLen][21..] == before[..21 + innerLen][21..] == before[21..21 + innerLen];
    assert record[21..] == record[21..21 + innerLen] + record[21 + innerLen..];
  }

  method PutHeader(record: array<bv8>, kind: bv8, version: nat, iv: Block)
    requires record.Length >= 21
    modifies record
    ensures record[..] == Framed(kind, version, iv, old(record[21..]))
  {
    ghost var cipher := record[21..];
    StoreAt(record, 5, iv);
    StoreAt(record, 0, [kind]);
    StoreAt(record, 1, Be(version, 2));
    StoreAt(record, 3, Be(record.Length - 5, 2));
    assert record[0..1] == [kind] && record[1..3] == Be(version, 2) && record[3..5] == Be(AES_BLOCK + |cipher|, 2);
    assert record[5..21] == iv && record[21..] == cipher;
    FiveParts(record[..]);
  }

  lemma FiveParts<T>(s: seq<T>)
    requires |s| >= 21
    ensures s == s[0..1] + s[1..3] + s[3..5] + s[5..21] + s[21..]
  {
    assert s[0..1] + s[1..3] == s[..3];
    assert s[..3] + s[3..5] == s[..5];
    assert s[..5] + s[5..21] == s[..21];
  }

  method EncryptBody(keys: seq<bv8>, iv: Block, record: array<bv8>, ghost c: Steps, ghost n: nat)
    requires |keys| == KEY_BYTES && IsAes(c, |keys|) && record.Length == 21 + AES_BLOCK * n
    modifies record
    ensures record[21..] == Chained(c, keys, iv, old(record[21..]))
  {
    ghost var body := record[21..];
    assert record[21..21 + AES_BLOCK * n] == body;
    CbcEncrypt(keys, iv, record, 21, (record.Length - 21) / AES_BLOCK, c);
    assert record[21..21 + AES_BLOCK * n] == record[21..];
  }

  /** The bytes handed to TCP, or nothing for an oversized fragment. */
  method SendEncryptedRecord(keys: seq<bv8>, mac: Mac, version: nat, writeSeq: nat, kind: bv8, plain: seq<bv8>, iv: Block, ghost c: Steps)
    returns (sent: Option<seq<bv8>>, nextSeq: nat)
    requires |keys| == KEY_BYTES && IsMac(mac) && IsAes(c, |keys|)
    ensures sent.None? <==> |plain| > TLS_MAX_FRAGMENT_LEN
    ensures sent.Some? ==> sent.value == Sealed(c, keys, mac, writeSeq, kind, version, plain, iv)
    ensures nextSeq == if sent.Some? then (writeSeq + 1) % 0x1_0000_0000_0000_0000 else writeSeq
  {
    if |plain| > TLS_MAX_FRAGMENT_LEN { return None, writeSeq; }
    ghost var n := InnerBlocks(mac, writeSeq, kind, version, plain);
    var record := BuildBody(mac, version, writeSeq, kind, plain);
    EncryptBody(keys, iv, record, c, n);
    PutHeader(record, kind, version, iv);
    return Some(record[..]), (writeSeq + 1) % 0x1_0000_0000_0000_0000;
  }

  /** Padding and MAC of the decrypted body, and where the plaintext ends. */
  method CheckBody(mac: Mac, version: nat, readSeq: nat, kind: bv8, body: seq<bv8>) returns (plainLen: Option<nat>)
    requires body != []
    ensures plainLen.None? <==> Checked(mac, readSeq, kind, version, body).None?
    ensures plainLen.Some? ==> plainLen.value <= |body| && Checked(mac, readSeq, kind, version, body) == Some(body[..plainLen.value])
  {
    var padByte := body[|body| - 1];
    var padding := padByte as nat + 1;
    if padding > |body| { return None; }
    for i := 0 to padding
      invariant forall j :: |body| - i <= j < |body| ==> body[j] == padByte
    {
      if body[|body| - 1 - i] != padByte {
        assert !PaddedWith(body, padByte, padding);
        return None;
      }
    }
    var rest := |body| - padding;
    if rest < TLS_SHA256_LEN { return None; }
    var n := rest - TLS_SHA256_LEN;
    var tag := mac(Covered(readSeq, kind, version, body[..n]));
    if tag != body[n..n + TLS_SHA256_LEN] { return None; }
    return Some(n);
  }

  /** The payload of the record at the front of the wire, if it is complete, fits, and is whole blocks. */
  method ReceivePayload(wire: seq<bv8>, buf: array<bv8>, cap: nat) returns (len: Option<nat>)
    requires cap <= buf.Length
    modifies buf
    ensures len.None? <==> Unframed(wire, cap).None?
    ensures len.Some? ==>
      && 2 * AES_BLOCK <= len.value <= cap && (len.value - AES_BLOCK) % AES_BLOCK == 0 && wire != []
      && Unframed(wire, cap) == Some((wire[0], buf[..AES_BLOCK], buf[AES_BLOCK..len.value]))
  {
    if |wire| < RECORD_HEADER { return None; }
    var n := ReadBe16(wire[3..5]);
    len := TakePayload(wire, n, buf, cap);
  }

  method TakePayload(wire: seq<bv8>, n: nat, buf: array<bv8>, cap: nat) returns (len: Option<nat>)
    requires cap <= buf.Length && RECORD_HEADER <= |wire|
    modifies buf
    ensures len.None? <==> Parts(wire, n, cap).None?
    ensures len.Some? ==>
      && 2 * AES_BLOCK <= len.value <= cap && (len.value - AES_BLOCK) % AES_BLOCK == 0
      && Parts(wire, n, cap) == Some((wire[0], buf[..AES_BLOCK], buf[AES_BLOCK..len.value]))
  {
    if n > cap { return None; }
    if RECORD_HEADER + n > |wire| { return None; }
    StoreAt(buf, 0, wire[5..5 + n]);
    if n < 2 * AES_BLOCK { return None; }
    if (n - AES_BLOCK) % AES_BLOCK != 0 { return None; }
    assert buf[0..n] == wire[5..5 + n];
    assert buf[..AES_BLOCK] == buf[0..n][..AES_BLOCK] == wire[5..21];
    assert buf[AES_BLOCK..n] == buf[0..n][AES_BLOCK..] == wire[21..5 + n];
    return Some(n);
  }

  method DecryptPayload(keys: seq<bv8>, buf: array<bv8>, len: nat, ghost c: Steps)
    requires |keys| == KEY_BYTES && IsAes(c, |keys|) && 2 * AES_BLOCK <= len <= buf.Length
    requires (len - AES_BLOCK) % AES_BLOCK == 0
    modifies buf
    ensures buf[AES_BLOCK..len] == Unchained(c, keys, old(buf[..AES_BLOCK]), old(buf[AES_BLOCK..len]))
  {
    var n := (len - AES_BLOCK) / AES_BLOCK;
    assert AES_BLOCK + AES_BLOCK * n == len;
    CbcDecrypt(keys, buf[..AES_BLOCK], buf, AES_BLOCK, n, c);
  }

  /** Checks the decrypted body and moves its plaintext to the front. */
  method TakePlain(mac: Mac, version: nat, readSeq: nat, kind: bv8, buf: array<bv8>, len: nat) returns (n: Option<nat>)
    requires AES_BLOCK < len <= buf.Length
    modifies buf
    ensures var plain := Checked(mac, readSeq, kind, version, old(buf[AES_BLOCK..len]));
      if n.None? then plain.None? else n.value <= buf.Length && plain == Some(buf[..n.value])
  {
    var body := buf[AES_BLOCK..len];
    n := CheckBody(mac, version, readSeq, kind, body);
    if n.Some? {
      StoreAt(buf, 0, body[..n.value]);
      assert buf[0..n.value] == buf[..n.value];
    }
  }

  /** One encrypted record from the wire into `buf`. */
  method RecvRecord(keys: seq<bv8>, mac: Mac, version: nat, readSeq: nat, wire: seq<bv8>, buf: array<bv8>, cap: nat, ghost c: Steps)
    returns (received: Option<(bv8, nat)>, nextSeq: nat)
    requires |keys| == KEY_BYTES && IsAes(c, |keys|) && cap <= buf.Length
    modifies buf
    ensures received.None? <==> Opened(c, keys, mac, readSeq, version, wire, cap).None?
    ensures received.Some? ==>
      && received.value.1 <= buf.Length
      && Opened(c, keys, mac, readSeq, version, wire, cap) == Some((received.value.0, buf[..received.value.1]))
    ensures nextSeq == if received.Some? then (readSeq + 1) % 0x1_0000_0000_0000_0000 else readSeq
  {
    var len := ReceivePayload(wire, buf, cap);
    if len.None? { return None, readSeq; }
    DecryptPayload(keys, buf, len.value, c);
    var n := TakePlain(mac, version, readSeq, wire[0], buf, len.value);
    if n.None? { return None, readSeq; }
    return Some((wire[0], n.value)), (readSeq + 1) % 0x1_0000_0000_0000_0000;
  }

  /** Sender and receiver together, over AES: what is received is what was sent. */
  method RecordRoundTrip(keys: seq<bv8>, mac: Mac, version: nat, seqNum: nat, kind: bv8, plain: seq<bv8>, iv: Block, buf: array<bv8>, cap: nat, ghost c: Steps)
    returns (wire: seq<bv8>, received: Option<(bv8, nat)>)
    requires |keys| == KEY_BYTES && IsAes(c, |keys|) && IsMac(mac)
    requires |plain| <= TLS_MAX_FRAGMENT_LEN && |plain| + 64 <= cap <= buf.Length
    modifies buf
    ensures wire == Sealed(c, keys, mac, seqNum, kind, version, plain, iv)
    ensures Opened(c, keys, mac, seqNum, version, wire, cap) == Some((kind, plain))
    ensures received == Some((kind, |plain|)) && buf[..|plain|] == plain
  {
    AesSteps(c, |keys|);
    var sent, _ := SendEncryptedRecord(keys, mac, version, seqNum, kind, plain, iv, c);
    wire := sent.value;
    OpenedSealed(c, keys, mac, seqNum, kind, version, plain, iv, cap);
    var next;
    received, next := RecvRecord(keys, mac, version, seqNum, wire, buf, cap, c);
  }
}
