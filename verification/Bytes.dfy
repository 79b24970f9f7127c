/** Bytes, little-endian words and the byte-wise operators the codec uses. */
module Bytes {

  type byte = x: int | 0 <= x < 256
  type u32 = x: int | 0 <= x < 0x1_0000_0000

  datatype Option<+T> = None | Some(value: T)

  /** C's `uint32_t` addition. */
  function Add32(a: nat, b: nat): (r: u32) {
    (a + b) % 0x1_0000_0000
  }

  function Sub32(a: u32, b: u32): (r: u32) {
    (a as int - b as int) % 0x1_0000_0000
  }

  /** C's `uint8_t` addition and subtraction. */
  function Add8(a: byte, b: byte): byte {
    (a as int + b as int) % 256
  }

  function Sub8(a: byte, b: byte): byte {
    (a as int - b as int) % 256
  }

  /** A product by repeated addition, for proofs that need no arithmetic about it. */
  function Times(a: nat, b: nat): (r: nat) {
    if a == 0 then 0 else b + Times(a - 1, b)
  }

  lemma {:induction false} TimesIsProduct(a: nat, b: nat)
    ensures Times(a, b) == a * b
  {
    if a > 0 {
      TimesIsProduct(a - 1, b);
      assert a * b == (a - 1) * b + b;
    }
  }

  function Min(a: int, b: int): int {
    if a < b then a else b
  }

  /** The low `n` bytes of `v`, least significant first. */
  function LeBytes(v: nat, n: nat): (r: seq<byte>)
    ensures |r| == n
    decreases v + n
  {
    if n == 0 then [] else [v % 256] + LeBytes(v / 256, n - 1)
  }

  function LeValue(s: seq<byte>): nat {
    if s == [] then 0 else s[0] as int + 256 * LeValue(s[1..])
  }

  function U32ToLe(v: nat): (r: seq<byte>)
    ensures |r| == 4
  {
    LeBytes(v, 4)
  }

  function U32FromLe(d: seq<byte>, offset: nat): (r: u32)
    requires offset + 4 <= |d|
  {
    LeValue4(d[offset..offset + 4]);
    LeValue(d[offset..offset + 4])
  }

  lemma LeBytes4(v: nat)
    ensures LeBytes(v, 4) == [v % 256, v / 256 % 256, v / 256 / 256 % 256, v / 256 / 256 / 256 % 256]
  {
    var q1 := v / 256;
    var q2 := q1 / 256;
    var q3 := q2 / 256;
    assert LeBytes(q3, 1) == [q3 % 256];
    assert LeBytes(q2, 2) == [q2 % 256, q3 % 256];
    assert LeBytes(q1, 3) == [q1 % 256, q2 % 256, q3 % 256];
  }

  lemma LeValue4(s: seq<byte>)
    requires |s| == 4
    ensures LeValue(s) == s[0] as int + 256 * (s[1] as int + 256 * (s[2] as int + 256 * s[3] as int))
    ensures LeValue(s) < 0x1_0000_0000
  {
    var s1, s2, s3 := s[1..], s[2..], s[3..];
    assert s1[1..] == s2 && s2[1..] == s3 && s3[1..] == [];
    assert LeValue(s3) == s[3];
    assert LeValue(s2) == s[2] as int + 256 * LeValue(s3);
    assert LeValue(s1) == s[1] as int + 256 * LeValue(s2);
  }

  lemma FourDigits(v: nat, q1: nat, q2: nat, q3: nat, q4: nat, d0: byte, d1: byte, d2: byte, d3: byte)
    requires v == 256 * q1 + d0 && q1 == 256 * q2 + d1 && q2 == 256 * q3 + d2 && q3 == 256 * q4 + d3
    ensures d0 as int + 256 * (d1 as int + 256 * (d2 as int + 256 * d3 as int)) == v % 0x1_0000_0000
  {
    var low: int := d0 as int + 256 * (d1 as int + 256 * (d2 as int + 256 * d3 as int));
    assert v == 0x1_0000_0000 * q4 + low;
  }

  lemma DigitsValue(v: nat)
    ensures v % 256 + 256 * (v / 256 % 256 + 256 * (v / 256 / 256 % 256 + 256 * (v / 256 / 256 / 256 % 256)))
         == v % 0x1_0000_0000
  {
    var q1 := v / 256;
    var q2 := q1 / 256;
    var q3 := q2 / 256;
    FourDigits(v, q1, q2, q3, q3 / 256, v % 256, q1 % 256, q2 % 256, q3 % 256);
  }

  lemma U32RoundTrip(v: nat, d: seq<byte>, offset: nat)
    requires offset + 4 <= |d|
    requires d[offset..offset + 4] == U32ToLe(v)
    ensures U32FromLe(d, offset) == v % 0x1_0000_0000
    ensures v < 0x1_0000_0000 ==> U32FromLe(d, offset) == v
  {
    LeBytes4(v);
    LeValue4(U32ToLe(v));
    DigitsValue(v);
  }

  lemma ValueDigits(b0: byte, b1: byte, b2: byte, b3: byte)
    ensures var v := b0 as int + 256 * (b1 as int + 256 * (b2 as int + 256 * b3 as int));
            v % 256 == b0 && v / 256 % 256 == b1 && v / 256 / 256 % 256 == b2 && v / 256 / 256 / 256 % 256 == b3
  {
    var q2: int := b2 as int + 256 * b3 as int;
    var q1: int := b1 as int + 256 * q2;
    var v: int := b0 as int + 256 * q1;
    assert v / 256 == q1 && q1 / 256 == q2 && q2 / 256 == b3;
  }

  lemma U32ToLeInverse(d: seq<byte>, offset: nat)
    requires offset + 4 <= |d|
    ensures U32ToLe(U32FromLe(d, offset)) == d[offset..offset + 4]
  {
    var s := d[offset..offset + 4];
    LeValue4(s);
    LeBytes4(LeValue(s));
    ValueDigits(s[0], s[1], s[2], s[3]);
  }

  /** The low n bytes of a number, most significant first. */
  function BeBytes(value: nat, n: nat): (b: seq<byte>)
    ensures |b| == n
  {
    if n == 0 then [] else BeBytes(value / 256, n - 1) + [value % 256]
  }

  lemma SignOfProduct(d: int, m: nat)
    ensures d >= 1 ==> m * d >= m
    ensures d <= -1 ==> m * d <= 0 - m
  {
  }

  lemma DivModUnique(q: nat, r: nat, m: nat)
    requires r < m
    ensures (q * m + r) / m == q && (q * m + r) % m == r
  {
    var x := q * m + r;
    assert x == m * (x / m) + x % m;
    var dq := x / m - q;
    assert m * dq == r - x % m;
    SignOfProduct(dq, m);
  }

  lemma SliceOfSlice<T>(s: seq<T>, start: nat, n: nat, offset: nat, avail: nat)
    requires start + n <= |s| && offset + avail <= n
    ensures s[start..start + n][offset..offset + avail] == s[start + offset..start + offset + avail]
  {
    var a, b := s[start..start + n][offset..offset + avail], s[start + offset..start + offset + avail];
    forall k | 0 <= k < avail ensures a[k] == b[k] {
      assert a[k] == s[start..start + n][offset + k] == s[start + (offset + k)];
    }
  }

  lemma SlicePrefix<T>(s: seq<T>, n: nat, i: nat, j: nat)
    requires i <= j <= n <= |s|
    ensures s[..n][i..j] == s[i..j]
  {
  }

  /** Bitwise exclusive or, bit by bit from the least significant end. */
  function Xor(a: nat, b: nat): nat
    decreases a + b
  {
    if a == 0 && b == 0 then 0 else 2 * Xor(a / 2, b / 2) + (a + b) % 2
  }

  lemma {:induction false} XorBound(a: nat, b: nat, bound: nat, bits: nat)
    requires a < bound && b < bound && bound == Pow2(bits)
    ensures Xor(a, b) < bound
    decreases bits
  {
    if bits > 0 && !(a == 0 && b == 0) {
      XorBound(a / 2, b / 2, Pow2(bits - 1), bits - 1);
    }
  }

  function Pow2(n: nat): (r: nat)
    ensures r > 0
  {
    if n == 0 then 1 else 2 * Pow2(n - 1)
  }

  function Xor8(a: byte, b: byte): byte {
    XorBound(a, b, 256, 8); Xor(a, b)
  }

  lemma XorDigits(a: nat, b: nat)
    ensures Xor(a, b) / 2 == Xor(a / 2, b / 2) && Xor(a, b) % 2 == (a + b) % 2
  {
    if a == 0 && b == 0 { assert Xor(0, 0) == 0; }
  }

  lemma SameHalves(x: nat, y: nat)
    requires x / 2 == y / 2 && x % 2 == y % 2
    ensures x == y
  {
  }

  lemma ParityCancel(a: nat, b: nat, x: nat)
    requires x % 2 == (b + a) % 2
    ensures (a + x) % 2 == b % 2
  {
  }

  lemma {:induction false} XorCancel(a: nat, b: nat)
    ensures Xor(a, Xor(b, a)) == b
    decreases a + b
  {
    if a != 0 || b != 0 {
      var x := Xor(b, a);
      XorDigits(b, a);
      XorDigits(a, x);
      assert Xor(a, x) / 2 == b / 2 by { XorCancel(a / 2, b / 2); }
      ParityCancel(a, b, x);
      SameHalves(Xor(a, x), b);
    }
  }

  /** Only the `size` bytes from `base` on may differ. */
  twostate predicate OnlyChanged(data: array<byte>, base: nat, size: nat)
    reads data
  {
    forall k :: 0 <= k < data.Length && !(base <= k < base + size) ==> data[k] == old(data[k])
  }
}
