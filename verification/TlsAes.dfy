/** The AES block cipher and its CBC mode as the TLS client runs them, in place on byte arrays. */
module TlsAes {
  import opened TlsAesField
  import opened TlsAesSbox

  const AES_BLOCK: nat := 16
  const KEY_BYTES: nat := 176

  type Block = s: seq<bv8> | |s| == AES_BLOCK witness seq(AES_BLOCK, _ => 0)

  // ----- The four steps of a round and their inverses -----

  function Added(s: seq<bv8>, k: seq<bv8>): (r: seq<bv8>)
    requires |s| == |k|
    ensures |r| == |s|
  {
    if s == [] then [] else Added(s[..|s| - 1], k[..|s| - 1]) + [Plus(s[|s| - 1], k[|s| - 1])]
  }

  /** A byte map applied to every byte. */
  function Mapped<T>(f: T -> T, s: seq<T>): (r: seq<T>)
    ensures |r| == |s|
  {
    if s == [] then [] else Mapped(f, s[..|s| - 1]) + [f(s[|s| - 1])]
  }

  function Shifted(s: Block): Block {
    [s[0], s[5], s[10], s[15], s[4], s[9], s[14], s[3], s[8], s[13], s[2], s[7], s[12], s[1], s[6], s[11]]
  }

  function InvShifted(s: Block): Block {
    [s[0], s[13], s[10], s[7], s[4], s[1], s[14], s[11], s[8], s[5], s[2], s[15], s[12], s[9], s[6], s[3]]
  }

  function MixedColumn(a: bv8, b: bv8, c: bv8, d: bv8): (r: seq<bv8>)
    ensures |r| == 4
  {
    [Sum(Mul(a, 2), Mul(b, 3), c, d), Sum(a, Mul(b, 2), Mul(c, 3), d),
     Sum(a, b, Mul(c, 2), Mul(d, 3)), Sum(Mul(a, 3), b, c, Mul(d, 2))]
  }

  function InvMixedColumn(a: bv8, b: bv8, c: bv8, d: bv8): (r: seq<bv8>)
    ensures |r| == 4
  {
    [Sum(Mul(a, 14), Mul(b, 11), Mul(c, 13), Mul(d, 9)), Sum(Mul(a, 9), Mul(b, 14), Mul(c, 11), Mul(d, 13)),
     Sum(Mul(a, 13), Mul(b, 9), Mul(c, 14), Mul(d, 11)), Sum(Mul(a, 11), Mul(b, 13), Mul(c, 9), Mul(d, 14))]
  }

  type ColumnMap<!T> = (T, T, T, T) -> seq<T>

  ghost predicate FourWide<T(!new)>(f: ColumnMap<T>) {
    forall a, b, c, d :: |f(a, b, c, d)| == 4
  }

  /** A column map applied to each of n columns. */
  ghost function Columns<T(!new)>(f: ColumnMap<T>, s: seq<T>, n: nat): (r: seq<T>)
    requires |s| == 4 * n && FourWide(f)
    ensures |r| == |s|
    decreases n, s
  {
    if n == 0 then [] else
      var k := 4 * (n - 1);
      Columns(f, s[..k], n - 1) + f(s[k], s[k + 1], s[k + 2], s[k + 3])
  }

  ghost predicate Undoes<T(!new)>(f: ColumnMap<T>, g: ColumnMap<T>)
    requires FourWide(f)
  {
    forall a, b, c, d :: var m := f(a, b, c, d); g(m[0], m[1], m[2], m[3]) == [a, b, c, d]
  }

  lemma ColumnsSnoc<T(!new)>(g: ColumnMap<T>, t: seq<T>, col: seq<T>, n: nat)
    requires n > 0 && |t| == 4 * (n - 1) && |col| == 4 && FourWide(g)
    ensures Columns(g, t + col, n) == Columns(g, t, n - 1) + g(col[0], col[1], col[2], col[3])
  {
    assert (t + col)[..4 * (n - 1)] == t;
  }

  lemma {:induction false} ColumnsBack<T(!new)>(f: ColumnMap<T>, g: ColumnMap<T>, s: seq<T>, n: nat)
    requires |s| == 4 * n && FourWide(f) && FourWide(g) && Undoes(f, g)
    ensures Columns(g, Columns(f, s, n), n) == s
    decreases n
  {
    if n > 0 {
      var k := 4 * (n - 1);
      var col := s[k..];
      assert s == s[..k] + col && col == [col[0], col[1], col[2], col[3]];
      ColumnsSnoc(f, s[..k], col, n);
      ColumnsSnoc(g, Columns(f, s[..k], n - 1), f(col[0], col[1], col[2], col[3]), n);
      ColumnsBack(f, g, s[..k], n - 1);
    }
  }

  lemma AddedSnoc(s: seq<bv8>, k: seq<bv8>, a: bv8, b: bv8)
    requires |s| == |k|
    ensures Added(s + [a], k + [b]) == Added(s, k) + [Plus(a, b)]
  {
    assert (s + [a])[..|s|] == s && (k + [b])[..|s|] == k;
  }

  lemma {:induction false} AddedTwice(s: seq<bv8>, k: seq<bv8>)
    requires |s| == |k|
    ensures Added(Added(s, k), k) == s
  {
    if s != [] {
      var n := |s| - 1;
      assert s == s[..n] + [s[n]] && k == k[..n] + [k[n]];
      AddedTwice(s[..n], k[..n]);
      AddedSnoc(s[..n], k[..n], s[n], k[n]);
      AddedSnoc(Added(s[..n], k[..n]), k[..n], Plus(s[n], k[n]), k[n]);
      PlusTwice(s[n], k[n]);
    }
  }

  lemma PlusTwice(a: bv8, b: bv8)
    ensures Plus(Plus(a, b), b) == a
  {
  }

  lemma {:induction false} MappedBack<T(!new)>(f: T -> T, g: T -> T, s: seq<T>)
    requires forall x :: g(f(x)) == x
    ensures Mapped(g, Mapped(f, s)) == s
  {
    if s != [] {
      var n := |s| - 1;
      MappedBack(f, g, s[..n]);
      assert Mapped(f, s)[..n] == Mapped(f, s[..n]);
    }
  }

  lemma ShiftedBack(s: Block)
    ensures InvShifted(Shifted(s)) == s
  {
  }

  lemma ColumnBack(a: bv8, b: bv8, c: bv8, d: bv8)
    ensures var m := MixedColumn(a, b, c, d); InvMixedColumn(m[0], m[1], m[2], m[3]) == [a, b, c, d]
  {
    var m := MixedColumn(a, b, c, d);
    assert m[0] == Mix(a, b, c, d);
    assert m[1] == Mix(b, c, d, a) by { SumRotates(a, Mul(b, 2), Mul(c, 3), d); }
    assert m[2] == Mix(c, d, a, b) by { SumRotates(a, b, Mul(c, 2), Mul(d, 3)); SumRotates(b, Mul(c, 2), Mul(d, 3), a); }
    assert m[3] == Mix(d, a, b, c) by { SumRotates(Mul(d, 2), Mul(a, 3), b, c); }
    RowsBack(m[0], m[1], m[2], m[3]);
    Unmixed(a, b, c, d);
    Unmixed(b, c, d, a);
    Unmixed(c, d, a, b);
    Unmixed(d, a, b, c);
  }

  /** Each row of the inverse is the first row on a rotated column. */
  lemma RowsBack(p: bv8, q: bv8, r: bv8, s: bv8)
    ensures InvMixedColumn(p, q, r, s) == [InvMix(p, q, r, s), InvMix(q, r, s, p), InvMix(r, s, p, q), InvMix(s, p, q, r)]
  {
    SumRotates(Mul(p, 9), Mul(q, 14), Mul(r, 11), Mul(s, 13));
    SumRotates(Mul(p, 13), Mul(q, 9), Mul(r, 14), Mul(s, 11));
    SumRotates(Mul(q, 9), Mul(r, 14), Mul(s, 11), Mul(p, 13));
    SumRotates(Mul(s, 14), Mul(p, 11), Mul(q, 13), Mul(r, 9));
  }

  // ----- The block cipher, for any steps that come with inverses -----

  datatype Steps = Steps(sub: Block -> Block, unsub: Block -> Block, shift: Block -> Block, unshift: Block -> Block,
                         mix: Block -> Block, unmix: Block -> Block)

  ghost predicate Inverts(f: Block -> Block, g: Block -> Block) {
    forall s :: g(f(s)) == s
  }

  ghost predicate Invertible(c: Steps) {
    Inverts(c.sub, c.unsub) && Inverts(c.shift, c.unshift) && Inverts(c.mix, c.unmix)
  }

  function Key(keys: seq<bv8>, round: nat): Block
    requires |keys| == KEY_BYTES && round <= 10
  {
    keys[AES_BLOCK * round..AES_BLOCK * round + AES_BLOCK]
  }

  function WithKey(s: Block, k: Block): Block {
    Added(s, k)
  }

  /** The state after the first key and n full rounds. */
  ghost function Rounds(c: Steps, keys: seq<bv8>, s: Block, n: nat): Block
    requires |keys| == KEY_BYTES && n <= 10
    decreases n, s
  {
    if n == 0 then WithKey(s, Key(keys, 0)) else WithKey(c.mix(c.shift(c.sub(Rounds(c, keys, s, n - 1)))), Key(keys, n))
  }

  ghost function Encrypt(c: Steps, keys: seq<bv8>, s: Block): Block
    requires |keys| == KEY_BYTES
  {
    WithKey(c.shift(c.sub(Rounds(c, keys, s, 9))), Key(keys, 10))
  }

  /** The state once rounds 9 down to n + 1 are undone. */
  ghost function Unrounds(c: Steps, keys: seq<bv8>, s: Block, n: nat): Block
    requires |keys| == KEY_BYTES && n <= 9
    decreases 9 - n, s
  {
    if n == 9 then WithKey(s, Key(keys, 10))
    else c.unmix(WithKey(c.unsub(c.unshift(Unrounds(c, keys, s, n + 1))), Key(keys, n + 1)))
  }

  ghost function Decrypt(c: Steps, keys: seq<bv8>, s: Block): Block
    requires |keys| == KEY_BYTES
  {
    WithKey(c.unsub(c.unshift(Unrounds(c, keys, s, 0))), Key(keys, 0))
  }

  /** Undoing rounds of a ciphertext meets the encryption halfway, at every round. */
  lemma {:induction false} RoundsMeet(c: Steps, keys: seq<bv8>, s: Block, n: nat)
    requires Invertible(c) && |keys| == KEY_BYTES && n <= 9
    ensures Unrounds(c, keys, Encrypt(c, keys, s), n) == c.shift(c.sub(Rounds(c, keys, s, n)))
    decreases 9 - n
  {
    if n == 9 {
      AddedTwice(c.shift(c.sub(Rounds(c, keys, s, 9))), Key(keys, 10));
    } else {
      RoundsMeet(c, keys, s, n + 1);
      AddedTwice(c.mix(c.shift(c.sub(Rounds(c, keys, s, n)))), Key(keys, n + 1));
    }
  }

  /** Decryption undoes encryption for any round keys at all. */
  lemma DecryptEncrypt(c: Steps, keys: seq<bv8>, s: Block)
    requires Invertible(c) && |keys| == KEY_BYTES
    ensures Decrypt(c, keys, Encrypt(c, keys, s)) == s
  {
    RoundsMeet(c, keys, s, 0);
    AddedTwice(s, Key(keys, 0));
  }

  // ----- CBC -----

  ghost function Chained(c: Steps, keys: seq<bv8>, prev: Block, s: seq<bv8>): (r: seq<bv8>)
    requires |keys| == KEY_BYTES
    decreases |s|
  {
    if |s| < AES_BLOCK then [] else
      var block := Encrypt(c, keys, WithKey(s[..AES_BLOCK], prev));
      block + Chained(c, keys, block, s[AES_BLOCK..])
  }

  ghost function Unchained(c: Steps, keys: seq<bv8>, prev: Block, s: seq<bv8>): (r: seq<bv8>)
    requires |keys| == KEY_BYTES
    decreases |s|
  {
    if |s| < AES_BLOCK then [] else
      WithKey(Decrypt(c, keys, s[..AES_BLOCK]), prev) + Unchained(c, keys, s[..AES_BLOCK], s[AES_BLOCK..])
  }

  lemma BlockBack(c: Steps, keys: seq<bv8>, p: Block, prev: Block)
    requires Invertible(c) && |keys| == KEY_BYTES
    ensures WithKey(Decrypt(c, keys, Encrypt(c, keys, WithKey(p, prev))), prev) == p
  {
    DecryptEncrypt(c, keys, WithKey(p, prev));
    AddedTwice(p, prev);
  }

  lemma ChainStep(c: Steps, keys: seq<bv8>, prev: Block, p: Block, rest: seq<bv8>)
    requires |keys| == KEY_BYTES
    ensures var block := Encrypt(c, keys, WithKey(p, prev));
      Chained(c, keys, prev, p + rest) == block + Chained(c, keys, block, rest)
  {
    assert (p + rest)[..AES_BLOCK] == p && (p + rest)[AES_BLOCK..] == rest;
  }

  lemma UnchainStep(c: Steps, keys: seq<bv8>, prev: Block, block: Block, rest: seq<bv8>)
    requires |keys| == KEY_BYTES
    ensures Unchained(c, keys, prev, block + rest) == WithKey(Decrypt(c, keys, block), prev) + Unchained(c, keys, block, rest)
  {
    assert (block + rest)[..AES_BLOCK] == block && (block + rest)[AES_BLOCK..] == rest;
  }

  /** CBC decryption undoes CBC encryption over any number of blocks. */
  lemma {:induction false} UnchainedChained(c: Steps, keys: seq<bv8>, iv: Block, s: seq<bv8>, n: nat)
    requires Invertible(c) && |keys| == KEY_BYTES && |s| == AES_BLOCK * n
    ensures |Chained(c, keys, iv, s)| == |s| && Unchained(c, keys, iv, Chained(c, keys, iv, s)) == s
    decreases n
  {
    if n > 0 {
      var p: Block, rest := s[..AES_BLOCK], s[AES_BLOCK..];
      var block := Encrypt(c, keys, WithKey(p, iv));
      assert s == p + rest;
      UnchainedChained(c, keys, block, rest, n - 1);
      ChainStep(c, keys, iv, p, rest);
      UnchainStep(c, keys, iv, block, Chained(c, keys, block, rest));
      BlockBack(c, keys, p, iv);
    }
  }

  // ----- The steps of AES -----

  ghost function SubState(s: Block): Block {
    Mapped(Sub, s)
  }

  ghost function InvSubState(s: Block): Block {
    Mapped(InvSub, s)
  }

  ghost function MixState(s: Block): Block {
    Columns(MixedColumn, s, 4)
  }

  ghost function InvMixState(s: Block): Block {
    Columns(InvMixedColumn, s, 4)
  }

  lemma SubStateBack(s: Block)
    ensures InvSubState(SubState(s)) == s
  {
    forall x ensures InvSub(Sub(x)) == x {
      InvSubSub(x);
    }
    MappedBack(Sub, InvSub, s);
  }

  lemma MixStateBack(s: Block)
    ensures InvMixState(MixState(s)) == s
  {
    forall a, b, c, d ensures var m := MixedColumn(a, b, c, d); InvMixedColumn(m[0], m[1], m[2], m[3]) == [a, b, c, d] {
      ColumnBack(a, b, c, d);
    }
    ColumnsBack(MixedColumn, InvMixedColumn, s, 4);
  }

  ghost function Aes(): Steps {
    Steps(SubState, InvSubState, Shifted, InvShifted, MixState, InvMixState)
  }

  /** The S-boxes, row shifts and column maps of AES do invert each other. */
  lemma AesInvertible()
    ensures Invertible(Aes())
  {
    forall s: Block ensures InvSubState(SubState(s)) == s {
      SubStateBack(s);
    }
    forall s: Block ensures InvShifted(Shifted(s)) == s {
      ShiftedBack(s);
    }
    forall s: Block ensures InvMixState(MixState(s)) == s {
      MixStateBack(s);
    }
  }

  // ----- In place -----

  lemma {:induction false} AddedAt(s: seq<bv8>, k: seq<bv8>, i: nat)
    requires |s| == |k| && i < |s|
    ensures Added(s, k)[i] == Plus(s[i], k[i])
  {
    if i < |s| - 1 { AddedAt(s[..|s| - 1], k[..|s| - 1], i); }
  }

  lemma {:induction false} MappedAt<T>(f: T -> T, s: seq<T>, i: nat)
    requires i < |s|
    ensures Mapped(f, s)[i] == f(s[i])
  {
    if i < |s| - 1 { MappedAt(f, s[..|s| - 1], i); }
  }

  /** Adds `k` to the bytes from `at` on. */
  method XorInto(data: array<bv8>, at: nat, k: seq<bv8>)
    requires at + |k| <= data.Length
    modifies data
    ensures data[at..at + |k|] == Added(old(data[at..at + |k|]), k)
    ensures forall j :: 0 <= j < at || at + |k| <= j < data.Length ==> data[j] == old(data[j])
  {
    ghost var was := data[at..at + |k|];
    ghost var sum := Added(was, k);
    for i := 0 to |k|
      invariant forall j :: 0 <= j < i ==> data[at + j] == sum[j]
      invariant forall j :: 0 <= j < at || at + i <= j < data.Length ==> data[j] == old(data[j])
    {
      AddedAt(was, k, i);
      data[at + i] := Plus(data[at + i], k[i]);
    }
  }

  method AddRoundKey(state: array<bv8>, keys: seq<bv8>, round: nat)
    requires state.Length == AES_BLOCK && |keys| == KEY_BYTES && round <= 10
    modifies state
    ensures state[..] == WithKey(old(state[..]), Key(keys, round))
  {
    ghost var was := state[..];
    XorInto(state, 0, Key(keys, round));
    assert state[..] == state[0..AES_BLOCK] && was == was[0..AES_BLOCK];
  }

  method MapBytes(state: array<bv8>, f: bv8 -> bv8)
    modifies state
    ensures state[..] == Mapped(f, old(state[..]))
  {
    ghost var was := state[..];
    for i := 0 to state.Length
      invariant forall j :: 0 <= j < i ==> state[j] == Mapped(f, was)[j]
      invariant forall j :: i <= j < state.Length ==> state[j] == was[j]
    {
      MappedAt(f, was, i);
      state[i] := f(state[i]);
    }
  }

  method Store(state: array<bv8>, s: seq<bv8>)
    requires state.Length == |s|
    modifies state
    ensures state[..] == s
  {
    for i := 0 to |s|
      invariant state[..i] == s[..i]
    {
      state[i] := s[i];
    }
  }

  lemma SumIs(a: bv8, b: bv8, c: bv8, d: bv8)
    ensures a ^ b ^ c ^ d == Sum(a, b, c, d)
  {
  }

  method MixByte(p: bv8, i: bv8, q: bv8, j: bv8, r: bv8, k: bv8, s: bv8, l: bv8) returns (m: bv8)
    ensures m == Sum(Mul(p, i), Mul(q, j), Mul(r, k), Mul(s, l))
  {
    var a := MulLoop(p, i);
    var b := MulLoop(q, j);
    var c := MulLoop(r, k);
    var d := MulLoop(s, l);
    SumIs(a, b, c, d);
    m := a ^ b ^ c ^ d;
  }

  /** One byte of a mixed column: two neighbours times 2 and 3, the other two as they are. */
  method MixPair(a: bv8, b: bv8, c: bv8, d: bv8) returns (m: bv8)
    ensures m == Sum(Mul(a, 2), Mul(b, 3), c, d)
  {
    var p := MulLoop(a, 2);
    var q := MulLoop(b, 3);
    SumIs(p, q, c, d);
    m := p ^ q ^ c ^ d;
  }

  method MixOne(a: bv8, b: bv8, c: bv8, d: bv8) returns (col: seq<bv8>)
    ensures col == MixedColumn(a, b, c, d)
  {
    var p := MixPair(a, b, c, d);
    var q := MixPair(b, c, d, a);
    var r := MixPair(c, d, a, b);
    var s := MixPair(d, a, b, c);
    SumRotates(a, Mul(b, 2), Mul(c, 3), d);
    SumRotates(a, b, Mul(c, 2), Mul(d, 3));
    SumRotates(b, Mul(c, 2), Mul(d, 3), a);
    SumRotates(Mul(d, 2), Mul(a, 3), b, c);
    col := [p, q, r, s];
  }

  method InvMixOne(a: bv8, b: bv8, c: bv8, d: bv8) returns (col: seq<bv8>)
    ensures col == InvMixedColumn(a, b, c, d)
  {
    var p := MixByte(a, 14, b, 11, c, 13, d, 9);
    var q := MixByte(a, 9, b, 14, c, 11, d, 13);
    var r := MixByte(a, 13, b, 9, c, 14, d, 11);
    var s := MixByte(a, 11, b, 13, c, 9, d, 14);
    col := [p, q, r, s];
  }

  lemma {:induction false} ColumnsAt<T(!new)>(f: ColumnMap<T>, s: seq<T>, n: nat, c: nat)
    requires |s| == 4 * n && c < n && FourWide(f)
    ensures Columns(f, s, n)[4 * c..4 * c + 4] == f(s[4 * c], s[4 * c + 1], s[4 * c + 2], s[4 * c + 3])
    decreases n
  {
    var k := 4 * (n - 1);
    if c < n - 1 {
      ColumnsAt(f, s[..k], n - 1, c);
      assert Columns(f, s, n)[..k] == Columns(f, s[..k], n - 1);
    }
  }

  method StoreColumn(state: array<bv8>, at: nat, col: seq<bv8>)
    requires at + 4 <= state.Length && |col| == 4
    modifies state
    ensures forall j :: at <= j < at + 4 ==> state[j] == col[j - at]
    ensures forall j :: 0 <= j < at || at + 4 <= j < state.Length ==> state[j] == old(state[j])
  {
    state[at] := col[0];
    state[at + 1] := col[1];
    state[at + 2] := col[2];
    state[at + 3] := col[3];
  }

  /** `f` is what the mixing, or unmixing, method computes; the depth only hides the definition. */
  ghost predicate Mixes(f: ColumnMap<bv8>, inverse: bool, depth: nat) {
    if depth > 0 then Mixes(f, inverse, depth - 1)
    else if inverse then f == InvMixedColumn else f == MixedColumn
  }

  lemma {:induction false} MixesMeaning(f: ColumnMap<bv8>, inverse: bool, depth: nat)
    ensures Mixes(f, inverse, depth) <==> if inverse then f == InvMixedColumn else f == MixedColumn
  {
    if depth > 0 {
      MixesMeaning(f, inverse, depth - 1);
    }
  }

  method MapOne(inverse: bool, a: bv8, b: bv8, c: bv8, d: bv8, ghost f: ColumnMap<bv8>, ghost depth: nat) returns (col: seq<bv8>)
    requires Mixes(f, inverse, depth)
    ensures |col| == 4 && col == f(a, b, c, d)
  {
    MixesMeaning(f, inverse, depth);
    if inverse {
      col := InvMixOne(a, b, c, d);
    } else {
      col := MixOne(a, b, c, d);
    }
  }

  /** Mixes, or unmixes, the four columns in place. */
  method MapColumns(state: array<bv8>, inverse: bool, n: nat, ghost f: ColumnMap<bv8>, ghost depth: nat)
    requires state.Length == 4 * n && FourWide(f) && Mixes(f, inverse, depth)
    modifies state
    ensures state[..] == Columns(f, old(state[..]), n)
  {
    ghost var was := state[..];
    ghost var mapped := Columns(f, was, n);
    for c := 0 to n
      invariant forall j :: 0 <= j < 4 * c ==> state[j] == mapped[j]
      invariant forall j :: 4 * c <= j < 4 * n ==> state[j] == was[j]
    {
      var k := 4 * c;
      var col := MapOne(inverse, state[k], state[k + 1], state[k + 2], state[k + 3], f, depth);
      ColumnsAt(f, was, n, c);
      assert forall j :: k <= j < k + 4 ==> mapped[j] == mapped[k..k + 4][j - k];
      StoreColumn(state, k, col);
    }
  }

  /** c holds the steps of AES; the depth only keeps the definition out of proofs that do not need it. */
  ghost predicate IsAes(c: Steps, depth: nat) {
    if depth == 0 then c == Aes() else IsAes(c, depth - 1)
  }

  lemma {:induction false} AesOnly(c: Steps, depth: nat)
    ensures IsAes(c, depth) <==> c == Aes()
  {
    if depth > 0 { AesOnly(c, depth - 1); }
  }

  lemma AesSteps(c: Steps, depth: nat)
    requires IsAes(c, depth)
    ensures Invertible(c)
  {
    AesOnly(c, depth);
    AesInvertible();
  }

  method SubBytes(state: array<bv8>, ghost c: Steps, ghost depth: nat)
    requires state.Length == AES_BLOCK && IsAes(c, depth)
    modifies state
    ensures state[..] == c.sub(old(state[..]))
  {
    AesOnly(c, depth);
    MapBytes(state, Sub);
  }

  method InvSubBytes(state: array<bv8>, ghost c: Steps, ghost depth: nat)
    requires state.Length == AES_BLOCK && IsAes(c, depth)
    modifies state
    ensures state[..] == c.unsub(old(state[..]))
  {
    AesOnly(c, depth);
    MapBytes(state, InvSub);
  }

  method ShiftRows(state: array<bv8>, ghost c: Steps, ghost depth: nat)
    requires state.Length == AES_BLOCK && IsAes(c, depth)
    modifies state
    ensures state[..] == c.shift(old(state[..]))
  {
    AesOnly(c, depth);
    Store(state, Shifted(state[..]));
  }

  method InvShiftRows(state: array<bv8>, ghost c: Steps, ghost depth: nat)
    requires state.Length == AES_BLOCK && IsAes(c, depth)
    modifies state
    ensures state[..] == c.unshift(old(state[..]))
  {
    AesOnly(c, depth);
    Store(state, InvShifted(state[..]));
  }

  method MixColumns(state: array<bv8>, ghost c: Steps, ghost depth: nat)
    requires state.Length == AES_BLOCK && IsAes(c, depth)
    modifies state
    ensures state[..] == c.mix(old(state[..]))
  {
    AesOnly(c, depth);
    MixesMeaning(MixedColumn, false, depth);
    MapColumns(state, false, 4, MixedColumn, depth);
  }

  method InvMixColumns(state: array<bv8>, ghost c: Steps, ghost depth: nat)
    requires state.Length == AES_BLOCK && IsAes(c, depth)
    modifies state
    ensures state[..] == c.unmix(old(state[..]))
  {
    AesOnly(c, depth);
    MixesMeaning(InvMixedColumn, true, depth);
    MapColumns(state, true, 4, InvMixedColumn, depth);
  }

  method EncryptRound(keys: seq<bv8>, state: array<bv8>, round: nat, ghost was: Block, ghost c: Steps)
    requires |keys| == KEY_BYTES && state.Length == AES_BLOCK && IsAes(c, |keys|) && 1 <= round < 10
    requires state[..] == Rounds(c, keys, was, round - 1)
    modifies state
    ensures state[..] == Rounds(c, keys, was, round)
  {
    SubBytes(state, c, |keys|);
    ShiftRows(state, c, |keys|);
    MixColumns(state, c, |keys|);
    AddRoundKey(state, keys, round);
  }

  method EncryptState(keys: seq<bv8>, state: array<bv8>, ghost c: Steps)
    requires |keys| == KEY_BYTES && state.Length == AES_BLOCK && IsAes(c, |keys|)
    modifies state
    ensures state[..] == Encrypt(c, keys, old(state[..]))
  {
    ghost var was := state[..];
    AddRoundKey(state, keys, 0);
    for round := 1 to 10
      invariant state[..] == Rounds(c, keys, was, round - 1)
    {
      EncryptRound(keys, state, round, was, c);
    }
    SubBytes(state, c, |keys|);
    ShiftRows(state, c, |keys|);
    AddRoundKey(state, keys, 10);
  }

  method DecryptRound(keys: seq<bv8>, state: array<bv8>, round: nat, ghost was: Block, ghost c: Steps)
    requires |keys| == KEY_BYTES && state.Length == AES_BLOCK && IsAes(c, |keys|) && 1 <= round <= 9
    requires state[..] == Unrounds(c, keys, was, round)
    modifies state
    ensures state[..] == Unrounds(c, keys, was, round - 1)
  {
    InvShiftRows(state, c, |keys|);
    InvSubBytes(state, c, |keys|);
    AddRoundKey(state, keys, round);
    InvMixColumns(state, c, |keys|);
  }

  method DecryptState(keys: seq<bv8>, state: array<bv8>, ghost c: Steps)
    requires |keys| == KEY_BYTES && state.Length == AES_BLOCK && IsAes(c, |keys|)
    modifies state
    ensures state[..] == Decrypt(c, keys, old(state[..]))
  {
    ghost var was := state[..];
    AddRoundKey(state, keys, 10);
    var round := 9;
    while round > 0
      invariant 0 <= round <= 9 && state[..] == Unrounds(c, keys, was, round)
    {
      DecryptRound(keys, state, round, was, c);
      round := round - 1;
    }
    InvShiftRows(state, c, |keys|);
    InvSubBytes(state, c, |keys|);
    AddRoundKey(state, keys, 0);
  }

  method CopyOut(data: array<bv8>, at: nat, block: Block)
    requires at + AES_BLOCK <= data.Length
    modifies data
    ensures data[at..at + AES_BLOCK] == block
    ensures forall j :: 0 <= j < at || at + AES_BLOCK <= j < data.Length ==> data[j] == old(data[j])
  {
    for i := 0 to AES_BLOCK
      invariant forall j :: 0 <= j < i ==> data[at + j] == block[j]
      invariant forall j :: 0 <= j < at || at + AES_BLOCK <= j < data.Length ==> data[j] == old(data[j])
    {
      data[at + i] := block[i];
    }
  }

  method EncryptBlock(keys: seq<bv8>, data: array<bv8>, at: nat, ghost c: Steps)
    requires |keys| == KEY_BYTES && at + AES_BLOCK <= data.Length && IsAes(c, |keys|)
    modifies data
    ensures data[at..at + AES_BLOCK] == Encrypt(c, keys, old(data[at..at + AES_BLOCK]))
    ensures forall j :: 0 <= j < at || at + AES_BLOCK <= j < data.Length ==> data[j] == old(data[j])
  {
    var state := new bv8[AES_BLOCK];
    Store(state, data[at..at + AES_BLOCK]);
    EncryptState(keys, state, c);
    CopyOut(data, at, state[..]);
  }

  method DecryptBlock(keys: seq<bv8>, data: array<bv8>, at: nat, ghost c: Steps)
    requires |keys| == KEY_BYTES && at + AES_BLOCK <= data.Length && IsAes(c, |keys|)
    modifies data
    ensures data[at..at + AES_BLOCK] == Decrypt(c, keys, old(data[at..at + AES_BLOCK]))
    ensures forall j :: 0 <= j < at || at + AES_BLOCK <= j < data.Length ==> data[j] == old(data[j])
  {
    var state := new bv8[AES_BLOCK];
    Store(state, data[at..at + AES_BLOCK]);
    DecryptState(keys, state, c);
    CopyOut(data, at, state[..]);
  }

  method ChainBlock(keys: seq<bv8>, prev: Block, data: array<bv8>, at: nat, ghost c: Steps)
    requires |keys| == KEY_BYTES && at + AES_BLOCK <= data.Length && IsAes(c, |keys|)
    modifies data
    ensures data[at..at + AES_BLOCK] == Encrypt(c, keys, WithKey(old(data[at..at + AES_BLOCK]), prev))
    ensures forall j :: 0 <= j < at || at + AES_BLOCK <= j < data.Length ==> data[j] == old(data[j])
  {
    XorInto(data, at, prev);
    EncryptBlock(keys, data, at, c);
  }

  method UnchainBlock(keys: seq<bv8>, prev: Block, data: array<bv8>, at: nat, ghost c: Steps)
    requires |keys| == KEY_BYTES && at + AES_BLOCK <= data.Length && IsAes(c, |keys|)
    modifies data
    ensures data[at..at + AES_BLOCK] == WithKey(Decrypt(c, keys, old(data[at..at + AES_BLOCK])), prev)
    ensures forall j :: 0 <= j < at || at + AES_BLOCK <= j < data.Length ==> data[j] == old(data[j])
  {
    DecryptBlock(keys, data, at, c);
    XorInto(data, at, prev);
  }

  /** What is done so far and what chaining the rest will add make up the whole; the depth only hides the definition. */
  ghost predicate ChainsTo(c: Steps, keys: seq<bv8>, whole: seq<bv8>, done: seq<bv8>, prev: Block, left: seq<bv8>, depth: nat)
    requires |keys| == KEY_BYTES
    decreases depth, left
  {
    if depth == 0 then whole == done + Chained(c, keys, prev, left)
    else ChainsTo(c, keys, whole, done, prev, left, depth - 1)
  }

  lemma ChainsMeaning(c: Steps, keys: seq<bv8>, whole: seq<bv8>, done: seq<bv8>, prev: Block, left: seq<bv8>)
    requires |keys| == KEY_BYTES
    ensures ChainsTo(c, keys, whole, done, prev, left, 3) <==> whole == done + Chained(c, keys, prev, left)
  {
    assert ChainsTo(c, keys, whole, done, prev, left, 3) == ChainsTo(c, keys, whole, done, prev, left, 2)
        == ChainsTo(c, keys, whole, done, prev, left, 1) == ChainsTo(c, keys, whole, done, prev, left, 0);
  }

  ghost predicate UnchainsTo(c: Steps, keys: seq<bv8>, whole: seq<bv8>, done: seq<bv8>, prev: Block, left: seq<bv8>, depth: nat)
    requires |keys| == KEY_BYTES
    decreases depth, left
  {
    if depth == 0 then whole == done + Unchained(c, keys, prev, left)
    else UnchainsTo(c, keys, whole, done, prev, left, depth - 1)
  }

  lemma UnchainsMeaning(c: Steps, keys: seq<bv8>, whole: seq<bv8>, done: seq<bv8>, prev: Block, left: seq<bv8>)
    requires |keys| == KEY_BYTES
    ensures UnchainsTo(c, keys, whole, done, prev, left, 3) <==> whole == done + Unchained(c, keys, prev, left)
  {
    assert UnchainsTo(c, keys, whole, done, prev, left, 3) == UnchainsTo(c, keys, whole, done, prev, left, 2)
        == UnchainsTo(c, keys, whole, done, prev, left, 1) == UnchainsTo(c, keys, whole, done, prev, left, 0);
  }

  lemma ArrayParts(data: array<bv8>, lo: nat, mid: nat, hi: nat)
    requires lo <= mid <= hi <= data.Length
    ensures data[lo..hi] == data[lo..mid] + data[mid..hi]
    ensures data[lo..hi][..mid - lo] == data[lo..mid] && data[lo..hi][mid - lo..] == data[mid..hi]
  {
  }

  lemma ChainsStart(c: Steps, keys: seq<bv8>, iv: Block, left: seq<bv8>)
    requires |keys| == KEY_BYTES
    ensures ChainsTo(c, keys, Chained(c, keys, iv, left), [], iv, left, 3)
  {
    ChainsMeaning(c, keys, Chained(c, keys, iv, left), [], iv, left);
  }

  lemma ChainsEnd(c: Steps, keys: seq<bv8>, whole: seq<bv8>, done: seq<bv8>, prev: Block)
    requires |keys| == KEY_BYTES && ChainsTo(c, keys, whole, done, prev, [], 3)
    ensures whole == done
  {
    ChainsMeaning(c, keys, whole, done, prev, []);
  }

  lemma ChainsStep(c: Steps, keys: seq<bv8>, whole: seq<bv8>, done: seq<bv8>, prev: Block, left: seq<bv8>, next: Block)
    requires |keys| == KEY_BYTES && AES_BLOCK <= |left| && ChainsTo(c, keys, whole, done, prev, left, 3)
    requires next == Encrypt(c, keys, WithKey(left[..AES_BLOCK], prev))
    ensures ChainsTo(c, keys, whole, done + next, next, left[AES_BLOCK..], 3)
  {
    var p: Block, rest := left[..AES_BLOCK], left[AES_BLOCK..];
    assert left == p + rest;
    ChainStep(c, keys, prev, p, rest);
    ChainsMeaning(c, keys, whole, done, prev, left);
    ChainsMeaning(c, keys, whole, done + next, next, rest);
    assert done + (next + Chained(c, keys, next, rest)) == done + next + Chained(c, keys, next, rest);
  }

  lemma UnchainsStart(c: Steps, keys: seq<bv8>, iv: Block, left: seq<bv8>)
    requires |keys| == KEY_BYTES
    ensures UnchainsTo(c, keys, Unchained(c, keys, iv, left), [], iv, left, 3)
  {
    UnchainsMeaning(c, keys, Unchained(c, keys, iv, left), [], iv, left);
  }

  lemma UnchainsEnd(c: Steps, keys: seq<bv8>, whole: seq<bv8>, done: seq<bv8>, prev: Block)
    requires |keys| == KEY_BYTES && UnchainsTo(c, keys, whole, done, prev, [], 3)
    ensures whole == done
  {
    UnchainsMeaning(c, keys, whole, done, prev, []);
  }

  lemma UnchainsStep(c: Steps, keys: seq<bv8>, whole: seq<bv8>, done: seq<bv8>, prev: Block, left: seq<bv8>, plain: Block)
    requires |keys| == KEY_BYTES && AES_BLOCK <= |left| && UnchainsTo(c, keys, whole, done, prev, left, 3)
    requires plain == WithKey(Decrypt(c, keys, left[..AES_BLOCK]), prev)
    ensures UnchainsTo(c, keys, whole, done + plain, left[..AES_BLOCK], left[AES_BLOCK..], 3)
  {
    var p: Block, rest := left[..AES_BLOCK], left[AES_BLOCK..];
    assert left == p + rest;
    UnchainStep(c, keys, prev, p, rest);
    UnchainsMeaning(c, keys, whole, done, prev, left);
    UnchainsMeaning(c, keys, whole, done + plain, p, rest);
    assert done + (plain + Unchained(c, keys, p, rest)) == done + plain + Unchained(c, keys, p, rest);
  }

  method ChainNext(keys: seq<bv8>, prev: Block, data: array<bv8>, at: nat, off: nat, ghost whole: seq<bv8>, ghost left: seq<bv8>, ghost c: Steps)
    returns (next: Block)
    requires |keys| == KEY_BYTES && at <= off && off + |left| <= data.Length && AES_BLOCK <= |left| && IsAes(c, |keys|)
    requires data[off..off + |left|] == left && ChainsTo(c, keys, whole, data[at..off], prev, left, 3)
    modifies data
    ensures data[off + AES_BLOCK..off + |left|] == left[AES_BLOCK..]
    ensures ChainsTo(c, keys, whole, data[at..off + AES_BLOCK], next, left[AES_BLOCK..], 3)
    ensures forall j :: 0 <= j < at || off + |left| <= j < data.Length ==> data[j] == old(data[j])
  {
    ghost var done, rest := data[at..off], left[AES_BLOCK..];
    ArrayParts(data, off, off + AES_BLOCK, off + |left|);
    ChainBlock(keys, prev, data, off, c);
    next := data[off..off + AES_BLOCK];
    ChainsStep(c, keys, whole, done, prev, left, next);
    ArrayParts(data, at, off, off + AES_BLOCK);
    assert data[at..off] == done;
    assert data[off + AES_BLOCK..off + |left|] == rest;
  }

  method UnchainNext(keys: seq<bv8>, prev: Block, data: array<bv8>, at: nat, off: nat, ghost whole: seq<bv8>, ghost left: seq<bv8>, ghost c: Steps)
    returns (next: Block)
    requires |keys| == KEY_BYTES && at <= off && off + |left| <= data.Length && AES_BLOCK <= |left| && IsAes(c, |keys|)
    requires data[off..off + |left|] == left && UnchainsTo(c, keys, whole, data[at..off], prev, left, 3)
    modifies data
    ensures data[off + AES_BLOCK..off + |left|] == left[AES_BLOCK..]
    ensures UnchainsTo(c, keys, whole, data[at..off + AES_BLOCK], next, left[AES_BLOCK..], 3)
    ensures forall j :: 0 <= j < at || off + |left| <= j < data.Length ==> data[j] == old(data[j])
  {
    next := data[off..off + AES_BLOCK];
    ghost var done, rest := data[at..off], left[AES_BLOCK..];
    ArrayParts(data, off, off + AES_BLOCK, off + |left|);
    UnchainBlock(keys, prev, data, off, c);
    UnchainsStep(c, keys, whole, done, prev, left, data[off..off + AES_BLOCK]);
    ArrayParts(data, at, off, off + AES_BLOCK);
    assert data[at..off] == done;
    assert data[off + AES_BLOCK..off + |left|] == rest;
  }

  /** The n blocks from `at` on, in place. */
  method CbcEncrypt(keys: seq<bv8>, iv: Block, data: array<bv8>, at: nat, n: nat, ghost c: Steps)
    requires |keys| == KEY_BYTES && at + AES_BLOCK * n <= data.Length && IsAes(c, |keys|)
    modifies data
    ensures data[at..at + AES_BLOCK * n] == Chained(c, keys, iv, old(data[at..at + AES_BLOCK * n]))
    ensures forall j :: 0 <= j < at || at + AES_BLOCK * n <= j < data.Length ==> data[j] == old(data[j])
  {
    var end := at + AES_BLOCK * n;
    ghost var left, blocks := data[at..end], n;
    ghost var whole := Chained(c, keys, iv, left);
    var prev: Block := iv;
    var off := at;
    ChainsStart(c, keys, iv, left);
    assert data[at..at] == [];
    while off < end
      invariant at <= off <= end && end - off == AES_BLOCK * blocks == |left| && data[off..end] == left
      invariant ChainsTo(c, keys, whole, data[at..off], prev, left, 3)
      invariant forall j :: 0 <= j < at || end <= j < data.Length ==> data[j] == old(data[j])
    {
      prev := ChainNext(keys, prev, data, at, off, whole, left, c);
      off, left, blocks := off + AES_BLOCK, left[AES_BLOCK..], blocks - 1;
    }
    assert left == [];
    ChainsEnd(c, keys, whole, data[at..end], prev);
  }

  method CbcDecrypt(keys: seq<bv8>, iv: Block, data: array<bv8>, at: nat, n: nat, ghost c: Steps)
    requires |keys| == KEY_BYTES && at + AES_BLOCK * n <= data.Length && IsAes(c, |keys|)
    modifies data
    ensures data[at..at + AES_BLOCK * n] == Unchained(c, keys, iv, old(data[at..at + AES_BLOCK * n]))
    ensures forall j :: 0 <= j < at || at + AES_BLOCK * n <= j < data.Length ==> data[j] == old(data[j])
  {
    var end := at + AES_BLOCK * n;
    ghost var left, blocks := data[at..end], n;
    ghost var whole := Unchained(c, keys, iv, left);
    var prev: Block := iv;
    var off := at;
    UnchainsStart(c, keys, iv, left);
    assert data[at..at] == [];
    while off < end
      invariant at <= off <= end && end - off == AES_BLOCK * blocks == |left| && data[off..end] == left
      invariant UnchainsTo(c, keys, whole, data[at..off], prev, left, 3)
      invariant forall j :: 0 <= j < at || end <= j < data.Length ==> data[j] == old(data[j])
    {
      prev := UnchainNext(keys, prev, data, at, off, whole, left, c);
      off, left, blocks := off + AES_BLOCK, left[AES_BLOCK..], blocks - 1;
    }
    assert left == [];
    UnchainsEnd(c, keys, whole, data[at..end], prev);
  }
}
