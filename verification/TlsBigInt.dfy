/** Big-endian modular exponentiation as the TLS client does it, digit by digit and in place. */
module TlsBigInt {
  import opened Bytes

  const BIG_MAX: nat := 256

  function Pow256(n: nat): (p: nat)
    ensures p > 0
  {
    if n == 0 then 1 else 256 * Pow256(n - 1)
  }

  /** The number a big-endian byte string stands for. */
  ghost function Value(s: seq<byte>): (v: nat) {
    if s == [] then 0 else s[0] * Pow256(|s| - 1) + Value(s[1..])
  }

  lemma {:induction false} ValueBound(s: seq<byte>)
    ensures Value(s) < Pow256(|s|)
  {
    if s != [] {
      ValueBound(s[1..]);
      Scale(s[0], 255, Pow256(|s| - 1));
    }
  }

  lemma Scale(a: int, b: int, p: int)
    requires a <= b && p >= 0
    ensures a * p <= b * p
  {
  }

  lemma {:induction false} ValueSnoc(s: seq<byte>, d: byte)
    ensures Value(s + [d]) == 256 * Value(s) + d
  {
    if s == [] {
      assert [d][1..] == [];
      assert Value([d]) == d * Pow256(0) + Value([]);
    } else {
      assert (s + [d])[1..] == s[1..] + [d];
      ValueSnoc(s[1..], d);
      var p := Pow256(|s| - 1);
      assert Pow256(|s|) == 256 * p;
      assert s[0] * (256 * p) == 256 * (s[0] * p);
    }
  }

  // ----- Comparing -----

  lemma LeadingDigit(x: int, y: int, p: int, vx: int, vy: int)
    requires x < y && 0 <= vx < p && 0 <= vy
    ensures x * p + vx < y * p + vy
  {
    Scale(x + 1, y, p);
    assert (x + 1) * p == x * p + p;
  }

  lemma {:induction false} DecidedAt(a: seq<byte>, b: seq<byte>, k: nat)
    requires |a| == |b| && k < |a| && a[..k] == b[..k] && a[k] < b[k]
    ensures Value(a) < Value(b)
  {
    if k == 0 {
      ValueBound(a[1..]);
      LeadingDigit(a[0], b[0], Pow256(|a| - 1), Value(a[1..]), Value(b[1..]));
    } else {
      assert a[0] == a[..k][0] == b[..k][0] == b[0];
      assert a[1..][..k - 1] == a[..k][1..] == b[..k][1..] == b[1..][..k - 1];
      DecidedAt(a[1..], b[1..], k - 1);
    }
  }

  method Compare(a: array<byte>, b: array<byte>) returns (sign: int)
    requires a.Length == b.Length
    ensures sign < 0 <==> Value(a[..]) < Value(b[..])
    ensures sign == 0 <==> Value(a[..]) == Value(b[..])
  {
    for i := 0 to a.Length
      invariant forall j :: 0 <= j < i ==> a[j] == b[j]
    {
      if a[i] == b[i] { continue; }
      if a[i] < b[i] {
        DecidedAt(a[..], b[..], i);
        return -1;
      }
      DecidedAt(b[..], a[..], i);
      return 1;
    }
    assert a[..] == b[..];
    return 0;
  }

  // ----- Adding and subtracting in place -----

  /** One more digit in front: what the digits and the carry add up to. */
  lemma DigitStep(x: int, y: int, carry: int, d: int, carryOut: int, p: int, vx: int, vy: int, vd: int)
    requires x + y + carry == d + 256 * carryOut && vx + vy == vd + carry * p
    ensures (x * p + vx) + (y * p + vy) == (d * p + vd) + carryOut * (256 * p)
  {
    assert (x + y + carry) * p == x * p + y * p + carry * p;
    assert (d + 256 * carryOut) * p == d * p + carryOut * (256 * p);
  }

  lemma ValueAt(s: seq<byte>, i: nat)
    requires i < |s|
    ensures Value(s[i..]) == s[i] * Pow256(|s| - i - 1) + Value(s[i + 1..])
  {
    assert s[i..][1..] == s[i + 1..];
  }

  /** From digit i on, the digits of `sum` and a carry of that weight are the two numbers added. */
  ghost predicate Adds(x: seq<byte>, y: seq<byte>, sum: seq<byte>, i: nat, carry: int)
    requires |x| == |y| == |sum| && i <= |x|
  {
    Value(x[i..]) + Value(y[i..]) == Value(sum[i..]) + carry * Pow256(|x| - i)
  }

  lemma AddsStep(x: seq<byte>, y: seq<byte>, sum: seq<byte>, next: seq<byte>, i: nat, carry: int, carryOut: int)
    requires |x| == |y| == |sum| == |next| && i < |x| && Adds(x, y, sum, i + 1, carry)
    requires next[i + 1..] == sum[i + 1..] && x[i] as int + y[i] as int + carry == next[i] as int + 256 * carryOut
    ensures Adds(x, y, next, i, carryOut)
  {
    ValueAt(x, i);
    ValueAt(y, i);
    ValueAt(next, i);
    DigitStep(x[i], y[i], carry, next[i], carryOut, Pow256(|x| - i - 1), Value(x[i + 1..]), Value(y[i + 1..]), Value(next[i + 1..]));
  }

  method Add(a: array<byte>, b: array<byte>) returns (ghost carried: int)
    requires a != b && a.Length == b.Length
    modifies a
    ensures carried == 0 || carried == 1
    ensures Value(a[..]) == old(Value(a[..])) + Value(b[..]) - carried * Pow256(a.Length)
  {
    ghost var was := a[..];
    var i, carry := a.Length, 0;
    while i > 0
      invariant 0 <= i <= a.Length && 0 <= carry <= 1 && a[..i] == was[..i]
      invariant Adds(was, b[..], a[..], i, carry)
    {
      ghost var sum := a[..];
      var value := a[i - 1] as int + b[i - 1] as int + carry;
      a[i - 1] := value % 256;
      AddsStep(was, b[..], sum, a[..], i - 1, carry, value / 256);
      carry := value / 256;
      i := i - 1;
    }
    carried := carry;
    assert was[0..] == was && a[..][0..] == a[..] && b[..][0..] == b[..];
  }

  /** Subtraction is the addition that gives back the minuend. */
  method Sub(a: array<byte>, b: array<byte>) returns (ghost borrowed: int)
    requires a != b && a.Length == b.Length
    modifies a
    ensures borrowed == 0 || borrowed == 1
    ensures Value(a[..]) == old(Value(a[..])) - Value(b[..]) + borrowed * Pow256(a.Length)
  {
    ghost var was := a[..];
    var i, borrow := a.Length, 0;
    while i > 0
      invariant 0 <= i <= a.Length && 0 <= borrow <= 1 && a[..i] == was[..i]
      invariant Adds(a[..], b[..], was, i, borrow)
    {
      ghost var diff := a[..];
      var value := a[i - 1] as int - b[i - 1] as int - borrow;
      ghost var borrowIn := borrow;
      if value < 0 {
        value := value + 256;
        borrow := 1;
      } else {
        borrow := 0;
      }
      a[i - 1] := value;
      SubsStep(was, b[..], diff, a[..], i - 1, borrowIn, borrow);
      i := i - 1;
    }
    borrowed := borrow;
    assert was[0..] == was && a[..][0..] == a[..] && b[..][0..] == b[..];
  }

  lemma SubsStep(x: seq<byte>, y: seq<byte>, diff: seq<byte>, next: seq<byte>, i: nat, borrow: int, borrowOut: int)
    requires |x| == |y| == |diff| == |next| && i < |x| && Adds(diff, y, x, i + 1, borrow)
    requires next[i + 1..] == diff[i + 1..] && next[i] as int + y[i] as int + borrow == x[i] as int + 256 * borrowOut
    ensures Adds(next, y, x, i, borrowOut)
  {
    ValueAt(x, i);
    ValueAt(y, i);
    ValueAt(next, i);
    DigitStep(next[i], y[i], borrow, x[i], borrowOut, Pow256(|x| - i - 1), Value(next[i + 1..]), Value(y[i + 1..]), Value(x[i + 1..]));
  }

  // ----- Reducing -----

  lemma ModIs(x: int, q: int, m: int, r: int)
    requires m > 0 && x == q * m + r && 0 <= r < m
    ensures x % m == r
  {
    assert (q + 1) * m == q * m + m && (x / m + 1) * m == x / m * m + m;
    if q < x / m {
      Scale(q + 1, x / m, m);
    } else if q > x / m {
      Scale(x / m + 1, q, m);
    }
  }

  /** Subtracts the modulus until the number is below it. */
  method Reduce(acc: array<byte>, mod: array<byte>)
    requires acc != mod && acc.Length == mod.Length && Value(mod[..]) > 0
    modifies acc
    ensures Value(acc[..]) == old(Value(acc[..])) % Value(mod[..])
  {
    ghost var m, v, q := Value(mod[..]), Value(acc[..]), 0;
    var sign := Compare(acc, mod);
    while sign >= 0
      invariant sign < 0 <==> Value(acc[..]) < m
      invariant v == q * m + Value(acc[..])
      decreases Value(acc[..]), sign
    {
      ghost var w := Value(acc[..]);
      ValueBound(acc[..]);
      ghost var borrowed := Sub(acc, mod);
      ValueBound(acc[..]);
      assert (q + 1) * m == q * m + m;
      q := q + 1;
      sign := Compare(acc, mod);
    }
    ModIs(v, q, m, Value(acc[..]));
  }

  /** The sum loses its carry out of the top digit before it is reduced. */
  method AddMod(acc: array<byte>, value: array<byte>, mod: array<byte>)
    requires acc != value && acc != mod && acc.Length == value.Length == mod.Length && Value(mod[..]) > 0
    modifies acc
    ensures Value(acc[..]) == (old(Value(acc[..])) + Value(value[..])) % Pow256(acc.Length) % Value(mod[..])
  {
    ghost var sum := Value(acc[..]) + Value(value[..]);
    ghost var carried := Add(acc, value);
    ValueBound(acc[..]);
    ModIs(sum, carried, Pow256(acc.Length), Value(acc[..]));
    Reduce(acc, mod);
  }

  /** So `AddMod` is addition modulo m exactly when the sum of the two residues has no carry. */
  lemma AddModExact(x: nat, y: nat, m: nat, w: nat)
    requires x < m && y < m && 0 < m < w
    ensures (x + y) % w % m == (x + y) % m <==> x + y < w
  {
    if x + y >= w {
      ModIs(x + y, 1, w, x + y - w);
      ModIs(x + y - w, 0, m, x + y - w);
      ModIs(x + y, 1, m, x + y - m);
    } else {
      ModIs(x + y, 0, w, x + y);
    }
  }

  method DoubleDigits(value: array<byte>) returns (carry: int)
    modifies value
    ensures 0 <= carry <= 1
    ensures Value(value[..]) == 2 * old(Value(value[..])) - carry * Pow256(value.Length)
  {
    ghost var was := value[..];
    var i := value.Length;
    carry := 0;
    while i > 0
      invariant 0 <= i <= value.Length && 0 <= carry <= 1 && value[..i] == was[..i]
      invariant Adds(was, was, value[..], i, carry)
    {
      ghost var sum := value[..];
      var v := 2 * (value[i - 1] as int) + carry;
      value[i - 1] := v % 256;
      AddsStep(was, was, sum, value[..], i - 1, carry, v / 256);
      carry := v / 256;
      i := i - 1;
    }
    assert was[0..] == was && value[..][0..] == value[..];
  }

  /** One subtraction brings a doubled residue below the modulus. */
  lemma Halved(v: int, m: int, w: int, carry: int, x: int, borrowed: int, y: int)
    requires 0 <= v < m < w && 0 <= carry <= 1 && 2 * v == carry * w + x && (carry == 1 || x >= m)
    requires 0 <= borrowed <= 1 && y == x - m + borrowed * w && 0 <= y < w
    ensures y == 2 * v - m && y < m
  {
  }

  /** Doubling keeps its carry, so it needs no room above the modulus. */
  method DoubleMod(value: array<byte>, mod: array<byte>)
    requires value != mod && value.Length == mod.Length && Value(value[..]) < Value(mod[..])
    modifies value
    ensures Value(value[..]) == 2 * old(Value(value[..])) % Value(mod[..])
  {
    ghost var m, v, w := Value(mod[..]), Value(value[..]), Pow256(value.Length);
    ValueBound(mod[..]);
    var carry := DoubleDigits(value);
    var sign := Compare(value, mod);
    ghost var q := 0;
    while carry != 0 || sign >= 0
      invariant 0 <= carry <= 1 && (sign < 0 <==> Value(value[..]) < m) && 0 <= q <= 1
      invariant q == 0 ==> 2 * v == carry * w + Value(value[..])
      invariant q == 1 ==> carry == 0 && 2 * v == m + Value(value[..]) && Value(value[..]) < m
      decreases 1 - q
    {
      ghost var x := Value(value[..]);
      ghost var borrowed := Sub(value, mod);
      ValueBound(value[..]);
      Halved(v, m, w, carry, x, borrowed, Value(value[..]));
      carry := 0;
      q := q + 1;
      sign := Compare(value, mod);
    }
    ModIs(2 * v, q, m, Value(value[..]));
  }

  // ----- Multiplying -----

  lemma ModSum(x: nat, y: nat, z: nat, m: nat)
    requires m > 0
    ensures (x % m + y % m * z) % m == (x + y * z) % m
  {
    DivMod(x, m);
    DivMod(y, m);
    SumOfParts(x / m, y / m, x % m, y % m, z, m);
  }

  lemma DivMod(x: nat, m: nat)
    requires m > 0
    ensures x == x / m * m + x % m
  {
  }

  lemma SumOfParts(a: nat, b: nat, r: nat, t: nat, z: nat, m: nat)
    requires m > 0
    ensures (r + t * z) % m == ((a * m + r) + (b * m + t) * z) % m
  {
    Regroup(a, b, r, t, z, m);
    ShiftMod(r + t * z, a + b * z, m);
  }

  lemma Distribute(p: int, q: int, r: int)
    ensures (p + q) * r == p * r + q * r
  {
  }

  lemma Swap(b: int, m: int, z: int)
    ensures b * m * z == b * z * m
  {
    assert b * m * z == b * (m * z) && b * z * m == b * (z * m);
  }

  lemma Regroup(a: int, b: int, r: int, t: int, z: int, m: int)
    ensures (a * m + r) + (b * m + t) * z == (a + b * z) * m + (r + t * z)
  {
    Distribute(b * m, t, z);
    Distribute(a, b * z, m);
    Swap(b, m, z);
  }

  lemma ShiftMod(r: nat, k: nat, m: nat)
    requires m > 0
    ensures (k * m + r) % m == r % m
  {
    assert r == r / m * m + r % m;
    assert k * m + r == (k + r / m) * m + r % m;
    ModIs(k * m + r, k + r / m, m, r % m);
  }

  ghost predicate Residue(a: array<byte>, mod: array<byte>)
    reads a, mod
  {
    a.Length == mod.Length && Value(a[..]) < Value(mod[..])
  }

  // ----- Shift-and-add as it is written -----

  /** Shift-and-add from the lowest bit of `rest`; the sum loses what does not fit below `w` before it is reduced. */
  ghost function ShiftAdd(acc: nat, cur: nat, rest: nat, m: nat, w: nat): nat
    requires m > 0 && w > 0
    decreases rest
  {
    if rest == 0 then acc
    else ShiftAdd(if rest % 2 == 1 then (acc + cur) % w % m else acc, 2 * cur % m, rest / 2, m, w)
  }

  ghost function TimesWritten(a: nat, b: nat, m: nat, w: nat): nat
    requires m > 0 && w > 0
  {
    ShiftAdd(0, a, b, m, w)
  }

  method AddIf(acc: array<byte>, cur: array<byte>, mod: array<byte>, bit: bool)
    requires acc != cur && acc != mod && Residue(acc, mod) && Residue(cur, mod)
    modifies acc
    ensures Value(acc[..]) ==
      if bit then (old(Value(acc[..])) + Value(cur[..])) % Pow256(mod.Length) % Value(mod[..]) else old(Value(acc[..]))
  {
    if bit {
      AddMod(acc, cur, mod);
    }
  }

  method MulBit(acc: array<byte>, cur: array<byte>, mod: array<byte>, bit: bool, ghost rest: nat)
    requires acc != cur && acc != mod && cur != mod && Residue(acc, mod) && Residue(cur, mod)
    requires bit <==> rest % 2 == 1
    modifies acc, cur
    ensures Residue(acc, mod) && Residue(cur, mod)
    ensures ShiftAdd(Value(acc[..]), Value(cur[..]), rest / 2, Value(mod[..]), Pow256(mod.Length))
         == ShiftAdd(old(Value(acc[..])), old(Value(cur[..])), rest, Value(mod[..]), Pow256(mod.Length))
  {
    AddIf(acc, cur, mod, bit);
    DoubleMod(cur, mod);
  }

  lemma HalfRest(prefix: nat, half: nat, bits: nat)
    ensures (Times(prefix, 2 * half) + bits) % 2 == bits % 2
    ensures (Times(prefix, 2 * half) + bits) / 2 == Times(prefix, half) + bits / 2
  {
    TimesOfTwice(prefix, half);
  }

  lemma {:induction false} TimesOfTwice(a: nat, t: nat)
    ensures Times(a, 2 * t) == 2 * Times(a, t)
  {
    if a > 0 {
      TimesOfTwice(a - 1, t);
    }
  }

  /** The eight bits of one multiplier byte, lowest first. */
  method MulByte(acc: array<byte>, cur: array<byte>, mod: array<byte>, digit: byte, ghost prefix: nat)
    requires acc != cur && acc != mod && cur != mod && Residue(acc, mod) && Residue(cur, mod)
    modifies acc, cur
    ensures Residue(acc, mod) && Residue(cur, mod)
    ensures ShiftAdd(Value(acc[..]), Value(cur[..]), prefix, Value(mod[..]), Pow256(mod.Length))
         == ShiftAdd(old(Value(acc[..])), old(Value(cur[..])), 256 * prefix + digit, Value(mod[..]), Pow256(mod.Length))
  {
    ghost var m, w := Value(mod[..]), Pow256(mod.Length);
    ghost var total := ShiftAdd(Value(acc[..]), Value(cur[..]), 256 * prefix + digit, m, w);
    var bits: nat := digit;
    ghost var rest: nat, weight: nat := 256 * prefix + digit, 256;
    assert Pow2(8) == 256;
    TimesIsProduct(prefix, 256);
    TimesIsProduct(prefix, 1);
    for bit := 0 to 8
      invariant Residue(acc, mod) && Residue(cur, mod)
      invariant weight == Pow2(8 - bit) && bits < weight && rest == Times(prefix, weight) + bits
      invariant ShiftAdd(Value(acc[..]), Value(cur[..]), rest, m, w) == total
    {
      ghost var half := Pow2(7 - bit);
      HalfRest(prefix, half, bits);
      MulBit(acc, cur, mod, bits % 2 == 1, rest);
      bits, rest, weight := bits / 2, rest / 2, half;
    }
  }

  lemma {:induction false} ValueZeros(s: seq<byte>)
    requires forall k :: 0 <= k < |s| ==> s[k] == 0
    ensures Value(s) == 0
  {
    if s != [] { ValueZeros(s[1..]); }
  }

  method CopyDigits(from: array<byte>, to: array<byte>)
    requires from.Length == to.Length
    modifies to
    ensures to[..] == old(from[..])
  {
    ghost var was := from[..];
    for i := 0 to from.Length
      invariant forall k :: 0 <= k < i ==> to[k] == was[k]
      invariant from == to || from[..] == was
      invariant from == to ==> to[..] == was
    {
      to[i] := from[i];
    }
    assert to[..] == was;
  }

  /** Shift-and-add of whole numbers. The operands and the output may be the same array. */
  method MulMod(a: array<byte>, b: array<byte>, mod: array<byte>, out: array<byte>)
    requires a.Length == b.Length == mod.Length == out.Length && out != mod && Residue(a, mod)
    modifies out
    ensures Value(out[..]) == TimesWritten(old(Value(a[..])), old(Value(b[..])), Value(mod[..]), Pow256(mod.Length))
    ensures Residue(out, mod)
  {
    var len := mod.Length;
    var acc := new byte[len](_ => 0);
    var cur := new byte[len](_ => 0);
    CopyDigits(a, cur);
    ValueZeros(acc[..]);
    ghost var m, w := Value(mod[..]), Pow256(mod.Length);
    ghost var total := TimesWritten(Value(a[..]), Value(b[..]), m, w);
    assert b[..len] == b[..];
    for i := 0 to len
      invariant Residue(acc, mod) && Residue(cur, mod)
      invariant ShiftAdd(Value(acc[..]), Value(cur[..]), Value(b[..len - i]), m, w) == total
    {
      assert b[..len - i] == b[..len - 1 - i] + [b[len - 1 - i]];
      ValueSnoc(b[..len - 1 - i], b[len - 1 - i]);
      MulByte(acc, cur, mod, b[len - 1 - i], Value(b[..len - 1 - i]));
    }
    assert b[..0] == [];
    CopyDigits(acc, out);
  }

  // ----- When shift-and-add multiplies -----

  /** Two different weights below the modulus cannot both bring the multiplicand to its highest residue. */
  lemma TopOnce(a: nat, s: nat, t: nat, m: nat)
    requires s < t < m && m > 1
    ensures !(a * s % m == m - 1 && a * t % m == m - 1)
  {
    if a * s % m == m - 1 && a * t % m == m - 1 {
      var q, r := a * s / m, a * t / m;
      DivMod(a * s, m);
      DivMod(a * t, m);
      TopTwice(a, s, t, m, q, r);
      NotMultiple((q + 1) * (t - s) - (r - q) * s, t - s, m);
    }
  }

  lemma TopTwice(a: int, s: int, t: int, m: int, q: int, r: int)
    requires a * s == q * m + m - 1 && a * t == r * m + m - 1
    ensures m * ((q + 1) * (t - s) - (r - q) * s) == t - s
  {
    var d := t - s;
    calc {
      m * ((q + 1) * d - (r - q) * s);
      { Distribute((q + 1) * d, -(r - q) * s, m); }
      (q + 1) * d * m - (r - q) * s * m;
      { Swap(q + 1, d, m); Swap(r - q, s, m); }
      (q + 1) * m * d - (r - q) * m * s;
      { assert (q + 1) * m == a * s + 1; assert (r - q) * m == a * t - a * s == a * d; }
      (a * s + 1) * d - a * d * s;
      { Distribute(a * s, 1, d); Swap(a, s, d); }
      d;
    }
  }

  lemma NotMultiple(k: int, d: int, m: int)
    requires 0 < d < m
    ensures m * k != d
  {
    if k <= 0 {
      Scale(k, 0, m);
    } else {
      Scale(1, k, m);
    }
  }

  /** The sum of what is accumulated and the next multiple fits below `w`, so no carry is lost. */
  lemma NoCarry(a: nat, s: nat, t: nat, acc: nat, cur: nat, m: nat, w: nat)
    requires m > 1 && acc == a * s % m && cur == a * t % m && s < t < m && 2 * m - 2 <= w
    ensures acc + cur < w
  {
    TopOnce(a, s, t, m);
  }

  lemma AddMultiples(a: nat, s: nat, t: nat, m: nat)
    requires m > 0
    ensures (a * s % m + a * t % m) % m == a * (s + t) % m
  {
    ModSum(a * s, a * t, 1, m);
    assert a * t % m * 1 == a * t % m && a * t * 1 == a * t;
    assert a * (s + t) == a * s + a * t;
  }

  /** The bits of the multiplier `b` below weight `t` are in `s`, those above in `rest`. */
  ghost predicate Splits(b: nat, s: nat, t: nat, rest: nat) {
    s < t && b == s + Times(rest, t)
  }

  lemma {:induction false} TimesTwice(h: nat, t: nat)
    ensures Times(2 * h, t) == Times(h, 2 * t)
  {
    if h > 0 {
      TimesTwice(h - 1, t);
      assert Times(2 * h, t) == t + Times(2 * h - 1, t) == t + (t + Times(2 * h - 2, t));
    }
  }

  lemma SplitBit(b: nat, s: nat, t: nat, rest: nat)
    requires Splits(b, s, t, rest) && rest > 0
    ensures Splits(b, if rest % 2 == 1 then s + t else s, 2 * t, rest / 2) && (rest % 2 == 1 ==> t <= b)
  {
    TimesTwice(rest / 2, t);
    if rest % 2 == 1 {
      assert Times(rest, t) == t + Times(rest - 1, t);
    }
  }

  /** Shift-and-add from the point where `a * s` is accumulated and `a * t` comes next. */
  lemma {:induction false} ShiftAddExact(a: nat, b: nat, s: nat, t: nat, acc: nat, cur: nat, rest: nat, m: nat, w: nat)
    requires m > 1 && acc == a * s % m && cur == a * t % m && Splits(b, s, t, rest) && b < m && 2 * m - 2 <= w && w > 0
    ensures ShiftAdd(acc, cur, rest, m, w) == a * b % m
    decreases rest
  {
    if rest > 0 {
      SplitBit(b, s, t, rest);
      AddMultiples(a, t, t, m);
      var next := if rest % 2 == 1 then (acc + cur) % w % m else acc;
      if rest % 2 == 1 {
        NoCarry(a, s, t, acc, cur, m, w);
        ModIs(acc + cur, 0, w, acc + cur);
        AddMultiples(a, s, t, m);
      }
      ShiftAddExact(a, b, if rest % 2 == 1 then s + t else s, 2 * t, next, 2 * cur % m, rest / 2, m, w);
    }
  }

  lemma TimesWrittenRight(a: nat, b: nat, m: nat, w: nat)
    requires 1 < m && a < m && b < m && 2 * m - 2 <= w
    ensures TimesWritten(a, b, m, w) == a * b % m
  {
    assert a * 0 == 0 && a * 1 == a;
    ModIs(0, 0, m, 0);
    ModIs(a, 0, m, a);
    TimesIsProduct(b, 1);
    ShiftAddExact(a, b, 0, 1, 0, a, b, m, w);
  }

  /** Without that room the dropped carry shows: multiplying m - 1 by 3 is wrong. */
  lemma CarryLost(m: nat, w: nat)
    requires m < w <= 2 * m - 3
    ensures TimesWritten(m - 1, 3, m, w) != (m - 1) * 3 % m
  {
    ModIs(m - 1, 0, w, m - 1);
    ModIs(m - 1, 0, m, m - 1);
    ModIs(2 * (m - 1), 1, m, m - 2);
    ModIs(2 * m - 3, 1, w, 2 * m - 3 - w);
    ModIs(2 * m - 3 - w, 0, m, 2 * m - 3 - w);
    ModIs((m - 1) * 3, 2, m, m - 3);
    var x := ShiftAdd(m - 1, m - 2, 1, m, w);
    assert TimesWritten(m - 1, 3, m, w) == x;
    assert x == ShiftAdd((2 * m - 3) % w % m, 2 * (m - 2) % m, 0, m, w) == 2 * m - 3 - w;
  }

  /** What is written multiplies all residues of a modulus below `w` exactly when twice the highest residue is at most `w`. */
  lemma TimesWrittenExact(m: nat, w: nat)
    requires 1 < m < w
    ensures (forall a: nat, b: nat | a < m && b < m :: TimesWritten(a, b, m, w) == a * b % m) <==> 2 * (m - 1) <= w
  {
    if 2 * (m - 1) <= w {
      forall a: nat, b: nat | a < m && b < m ensures TimesWritten(a, b, m, w) == a * b % m {
        TimesWrittenRight(a, b, m, w);
      }
    } else {
      CarryLost(m, w);
      assert 3 < m;
    }
  }

  // ----- Exponentiation -----

  ghost function Power(b: nat, e: nat): nat {
    if e == 0 then 1 else b * Power(b, e - 1)
  }

  lemma {:induction false} PowerDouble(b: nat, h: nat)
    ensures Power(b, 2 * h) == Power(b * b, h)
  {
    if h > 0 {
      PowerDouble(b, h - 1);
      assert Power(b, 2 * h) == b * (b * Power(b, 2 * h - 2));
      assert b * (b * Power(b, 2 * h - 2)) == b * b * Power(b, 2 * h - 2);
    }
  }

  lemma MulModParts(x: nat, y: nat, m: nat)
    requires m > 0
    ensures x % m * (y % m) % m == x * y % m
  {
    ModSum(0, x, y, m);
    ModSum(0, y, x % m, m);
    ModIs(0, 0, m, 0);
    assert x % m * y == y * (x % m) && y % m * (x % m) == x % m * (y % m);
  }

  lemma {:induction false} PowerMod(b: nat, e: nat, m: nat)
    requires m > 0
    ensures Power(b % m, e) % m == Power(b, e) % m
  {
    if e > 0 {
      PowerMod(b, e - 1, m);
      MulModParts(b % m, Power(b % m, e - 1), m);
      MulModParts(b, Power(b, e - 1), m);
      ModIs(b % m, 0, m, b % m);
    }
  }

  lemma ProductMod(x: nat, y: nat, u: nat, v: nat, m: nat)
    requires m > 0 && x % m == u % m && y % m == v % m
    ensures x * y % m == u * v % m
  {
    MulModParts(x, y, m);
    MulModParts(u, v, m);
  }

  /** One exponent bit of square-and-multiply. */
  lemma ExpStep(r: nat, p: nat, e: nat, m: nat, squared: nat)
    requires 0 < e && r < m && p < m && (squared == p * p % m || e / 2 == 0)
    ensures (if e % 2 == 1 then r * p % m else r) * Power(squared, e / 2) % m == r * Power(p, e) % m
  {
    var h := e / 2;
    var q := Power(p * p, h);
    PowerDouble(p, h);
    if h > 0 { PowerMod(p * p, h, m); }
    assert Power(squared, h) % m == q % m;
    if e % 2 == 1 {
      assert Power(p, e) == p * q && r * (p * q) == r * p * q;
      ModIs(r * p % m, 0, m, r * p % m);
      ProductMod(r * p % m, Power(squared, h), r * p, q, m);
    } else {
      ProductMod(r, Power(squared, h), r, q, m);
    }
  }

  // ----- Square and multiply as it is written -----

  ghost function PowerWritten(r: nat, p: nat, e: nat, m: nat, w: nat): nat
    requires m > 0 && w > 0
    decreases e
  {
    if e == 0 then r
    else PowerWritten(if e % 2 == 1 then TimesWritten(r, p, m, w) else r,
                      if e / 2 > 0 then TimesWritten(p, p, m, w) else p, e / 2, m, w)
  }

  /** With room for twice the highest residue it is exponentiation. */
  lemma {:induction false} PowerWrittenRight(r: nat, p: nat, e: nat, m: nat, w: nat)
    requires 1 < m && r < m && p < m && 2 * (m - 1) <= w
    ensures PowerWritten(r, p, e, m, w) == r * Power(p, e) % m
    decreases e
  {
    if e == 0 {
      assert r * 1 == r;
      ModIs(r, 0, m, r);
    } else {
      TimesWrittenRight(r, p, m, w);
      TimesWrittenRight(p, p, m, w);
      var squared := if e / 2 > 0 then p * p % m else p;
      ExpStep(r, p, e, m, squared);
      PowerWrittenRight(if e % 2 == 1 then r * p % m else r, squared, e / 2, m, w);
    }
  }

  /** Square and multiply, for every exponent and every length the buffers hold. */
  method ModExp(base: array<byte>, exponent: u32, modulus: array<byte>, out: array<byte>) returns (ok: bool)
    requires base.Length == modulus.Length == out.Length && out != modulus
    requires Residue(base, modulus) && Value(modulus[..]) > 1
    modifies out
    ensures ok <==> modulus.Length <= BIG_MAX
    ensures var written := PowerWritten(1, old(Value(base[..])), exponent, Value(modulus[..]), Pow256(modulus.Length));
      ok ==> Value(out[..]) == written
    ensures ok && 2 * (Value(modulus[..]) - 1) <= Pow256(modulus.Length) ==>
      Value(out[..]) == Power(old(Value(base[..])), exponent) % Value(modulus[..])
  {
    var len := modulus.Length;
    if len > BIG_MAX { return false; }
    var result := One(len);
    var power := new byte[len](_ => 0);
    CopyDigits(base, power);
    ghost var b, m, w := Value(base[..]), Value(modulus[..]), Pow256(modulus.Length);
    var e: nat := exponent;
    while e > 0
      invariant fresh(result) && fresh(power) && result != power
      invariant Residue(result, modulus) && Residue(power, modulus)
      invariant PowerWritten(Value(result[..]), Value(power[..]), e, m, w) == PowerWritten(1, b, exponent, m, w)
    {
      e := ExpRound(result, power, modulus, e);
    }
    CopyDigits(result, out);
    if 2 * (m - 1) <= w {
      PowerWrittenRight(1, b, exponent, m, w);
      assert 1 * Power(b, exponent) == Power(b, exponent);
    }
    return true;
  }

  method ExpRound(result: array<byte>, power: array<byte>, modulus: array<byte>, exponent: nat) returns (e: nat)
    requires result != power && result != modulus && power != modulus && exponent > 0
    requires Residue(result, modulus) && Residue(power, modulus)
    modifies result, power
    ensures e == exponent / 2 && Residue(result, modulus) && Residue(power, modulus)
    ensures var m, w := Value(modulus[..]), Pow256(modulus.Length);
      PowerWritten(Value(result[..]), Value(power[..]), e, m, w)
      == PowerWritten(old(Value(result[..])), old(Value(power[..])), exponent, m, w)
  {
    if exponent % 2 == 1 { MulMod(result, power, modulus, result); }
    e := exponent / 2;
    if e > 0 { MulMod(power, power, modulus, power); }
  }

  method One(len: nat) returns (a: array<byte>)
    requires len > 0
    ensures fresh(a) && a.Length == len && Value(a[..]) == 1
  {
    a := new byte[len](_ => 0);
    a[len - 1] := 1;
    assert a[..] == a[..len - 1] + [1];
    ValueZeros(a[..len - 1]);
    ValueSnoc(a[..len - 1], 1);
  }
}
