/** What the TLS client puts where: the bytes a MAC covers, the header and padding of a record, the padding of a hash. */
module TlsBytes {
  import opened Bytes
  import opened TlsAesSbox
  import A = TlsAes
  import R = TlsRecord
  import S = TlsSha256

  /** Byte i of an n-byte big-endian number. */
  lemma {:induction false} BigEndian(value: nat, n: nat, i: nat)
    requires i < n
    ensures BeBytes(value, n)[i] == value / Power(n - 1 - i) % 256
  {
    if i < n - 1 {
      BigEndian(value / 256, n - 1, i);
      Divides(value, Power(n - 2 - i));
    }
  }

  ghost function Power(k: nat): (p: nat)
    ensures p > 0
  {
    if k == 0 then 1 else 256 * Power(k - 1)
  }

  lemma Divides(value: nat, p: nat)
    requires p > 0
    ensures value / 256 / p == value / (256 * p)
  {
    var q, r := value / 256, value % 256;
    var t, u := q / p, q % p;
    assert value == 256 * q + r && q == p * t + u;
    assert 256 * (p * t) == (256 * p) * t;
    DivModUnique(t, 256 * u + r, 256 * p);
    assert value == t * (256 * p) + (256 * u + r);
  }

  lemma Powers()
    ensures Power(0) == 1 && Power(1) == 0x100 && Power(2) == 0x1_0000 && Power(3) == 0x100_0000
    ensures Power(4) == 0x1_0000_0000 && Power(5) == 0x100_0000_0000
    ensures Power(6) == 0x1_0000_0000_0000 && Power(7) == 0x100_0000_0000_0000
  {
    assert Power(2) == 256 * Power(1) && Power(3) == 256 * Power(2) && Power(4) == 256 * Power(3);
    assert Power(5) == 256 * Power(4) && Power(6) == 256 * Power(5) && Power(7) == 256 * Power(6);
  }

  /** Eight bytes hold a number, the most significant first. */
  ghost predicate Holds64(s: seq<byte>, value: nat) {
    && |s| == 8
    && s[0] == value / 0x100_0000_0000_0000 % 256 && s[1] == value / 0x1_0000_0000_0000 % 256
    && s[2] == value / 0x100_0000_0000 % 256 && s[3] == value / 0x1_0000_0000 % 256
    && s[4] == value / 0x100_0000 % 256 && s[5] == value / 0x1_0000 % 256
    && s[6] == value / 0x100 % 256 && s[7] == value % 256
  }

  lemma EightBytes(value: nat)
    ensures Holds64(BeBytes(value, 8), value)
  {
    Powers();
    BigEndian(value, 8, 0);
    BigEndian(value, 8, 1);
    BigEndian(value, 8, 2);
    BigEndian(value, 8, 3);
    BigEndian(value, 8, 4);
    BigEndian(value, 8, 5);
    BigEndian(value, 8, 6);
    BigEndian(value, 8, 7);
  }

  ghost function Octets(s: seq<bv8>): seq<byte> {
    seq(|s|, i requires 0 <= i < |s| => s[i] as byte)
  }

  lemma OctetsOf(value: nat, n: nat)
    ensures Octets(R.Be(value, n)) == BeBytes(value, n)
  {
    forall i | 0 <= i < n ensures Octets(R.Be(value, n))[i] == BeBytes(value, n)[i] {
      ByteAndBack(BeBytes(value, n)[i]);
    }
  }

  /** Thirteen bytes go before the plaintext: sequence number, record type, version, length. */
  lemma CoveredBytes(seqNum: nat, kind: bv8, version: nat, plain: seq<bv8>)
    requires version < 0x1_0000 && |plain| < 0x1_0000
    ensures var c := R.Covered(seqNum, kind, version, plain);
      && |c| == 13 + |plain| && Holds64(Octets(c[..8]), seqNum) && c[8] == kind
      && c[9] as nat == version / 256 && c[10] as nat == version % 256
      && c[11] as nat == |plain| / 256 && c[12] as nat == |plain| % 256 && c[13..] == plain
  {
    var c := R.Covered(seqNum, kind, version, plain);
    assert c[..8] == R.Be(seqNum, 8);
    OctetsOf(seqNum, 8);
    EightBytes(seqNum);
    TwoBytes(version);
    TwoBytes(|plain|);
    assert c[9] == R.Be(version, 2)[0] && c[10] == R.Be(version, 2)[1];
    assert c[11] == R.Be(|plain|, 2)[0] && c[12] == R.Be(|plain|, 2)[1];
  }

  lemma TwoBytes(value: nat)
    requires value < 0x1_0000
    ensures R.Be(value, 2)[0] as nat == value / 256 && R.Be(value, 2)[1] as nat == value % 256
  {
    Powers();
    BigEndian(value, 2, 0);
    BigEndian(value, 2, 1);
    ByteAndBack(value / 256);
    ByteAndBack(value % 256);
  }

  /** The five header bytes of a record: type, version, length of what follows. */
  lemma HeaderBytes(kind: bv8, version: nat, iv: A.Block, cipher: seq<bv8>)
    requires version < 0x1_0000 && 16 + |cipher| < 0x1_0000
    ensures var wire := R.Framed(kind, version, iv, cipher);
      && |wire| == 21 + |cipher| && wire[0] == kind && wire[1] as nat == version / 256 && wire[2] as nat == version % 256
      && wire[3] as nat == (16 + |cipher|) / 256 && wire[4] as nat == (16 + |cipher|) % 256
      && wire[5..21] == iv && wire[21..] == cipher
  {
    var wire := R.Framed(kind, version, iv, cipher);
    R.FrameFields(kind, version, iv, cipher);
    TwoBytes(version);
    TwoBytes(16 + |cipher|);
    assert wire[1] == R.Be(version, 2)[0] && wire[2] == R.Be(version, 2)[1];
    assert wire[3] == R.Be(16 + |cipher|, 2)[0] && wire[4] == R.Be(16 + |cipher|, 2)[1];
  }

  /** The body of a record before encryption: plaintext, MAC of what is covered, and 1 to 16 equal bytes that say how many. */
  lemma BodyBytes(mac: R.Mac, seqNum: nat, kind: bv8, version: nat, plain: seq<bv8>)
    requires R.IsMac(mac)
    ensures var b, n := R.Inner(mac, seqNum, kind, version, plain), |plain|;
      && |b| % 16 == 0 && n + 32 < |b| <= n + 48 && b[..n] == plain
      && b[n..n + 32] == mac(R.Covered(seqNum, kind, version, plain))
      && forall k :: n + 32 <= k < |b| ==> b[k] as nat == |b| - (n + 32) - 1
  {
    var len := |plain| + 32;
    ByteAndBack(15 - len % 16);
    assert (len + (15 - len % 16) + 1) % 16 == 0;
  }

  /** Section 5.1.1 of FIPS 180-4: 0x80 after the message, zeros, and the length in bits in the last eight bytes. */
  lemma PadBytes(message: seq<byte>)
    ensures var p, n := S.Pad(message), |message|;
      && |p| >= n + 9 && |p| % 64 == 0 && p[..n] == message && p[n] == 0x80
      && (forall k :: n < k < |p| - 8 ==> p[k] == 0)
      && Holds64(p[|p| - 8..], 8 * n % 0x1_0000_0000_0000_0000)
  {
    var p := S.Pad(message);
    S.PadFits(message, 0);
    EightBytes(8 * |message| % 0x1_0000_0000_0000_0000);
    assert p[|p| - 8..] == BeBytes(8 * |message| % 0x1_0000_0000_0000_0000, 8);
  }
}
