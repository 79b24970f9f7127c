/** The rounds of the cipher cell by cell, as FIPS 197 defines them. */
module TlsFips {
  import opened TlsAesField
  import opened TlsAesSbox
  import opened TlsAes

  lemma {:induction false} MappedAt<T>(f: T -> T, s: seq<T>, j: nat)
    requires j < |s|
    ensures Mapped(f, s)[j] == f(s[j])
  {
    if j < |s| - 1 { MappedAt(f, s[..|s| - 1], j); }
  }

  lemma {:induction false} AddedAt(s: seq<bv8>, k: seq<bv8>, j: nat)
    requires |s| == |k| && j < |s|
    ensures Added(s, k)[j] == Plus(s[j], k[j])
  {
    if j < |s| - 1 { AddedAt(s[..|s| - 1], k[..|s| - 1], j); }
  }

  lemma {:induction false} ColumnAt<T(!new)>(f: ColumnMap<T>, s: seq<T>, n: nat, c: nat, i: nat)
    requires |s| == 4 * n && FourWide(f) && c < n && i < 4
    ensures Columns(f, s, n)[4 * c + i] == f(s[4 * c], s[4 * c + 1], s[4 * c + 2], s[4 * c + 3])[i]
    decreases n
  {
    if c < n - 1 { ColumnAt(f, s[..4 * (n - 1)], n - 1, c, i); }
  }

  /** The byte of row i and column c, which wraps. */
  ghost function Cell(s: Block, i: nat, c: nat): bv8
    requires i < 4
  {
    s[i + 4 * (c % 4)]
  }

  /** Section 5.1.2: row r of the state, kept column by column, is rotated left by r. */
  lemma RowsRotate(s: Block, r: nat, c: nat)
    requires r < 4 && c < 4
    ensures Shifted(s)[4 * c + r] == Cell(s, r, c + r)
    ensures Cell(InvShifted(s), r, c + r) == s[4 * c + r]
  {
    if r == 0 { } else if r == 1 { } else if r == 2 { } else { }
  }

  /** What stands in row r of column c once bytes are substituted and rows shifted. */
  ghost function Moved(f: bv8 -> bv8, s: Block, r: nat, c: nat): bv8
    requires r < 4
  {
    f(Cell(s, r, c + r))
  }

  lemma CellMapped(f: bv8 -> bv8, s: Block, t: Block, i: nat, c: nat)
    requires i < 4 && t == Mapped(f, s)
    ensures Cell(t, i, c) == f(Cell(s, i, c))
  {
    MappedAt(f, s, i + 4 * (c % 4));
  }

  lemma MovedAt(f: bv8 -> bv8, s: Block, i: nat, c: nat)
    requires i < 4 && c < 4
    ensures Shifted(Mapped(f, s))[4 * c + i] == Moved(f, s, i, c)
  {
    var t: Block := Mapped(f, s);
    RowsRotate(t, i, c);
    CellMapped(f, s, t, i, c + i);
  }

  /** Section 4.2.1: the double of a byte, reduced by 0x11B. */
  ghost function Twice(a: bv8): bv8 {
    (a << 1) ^ (if a & 0x80 == 0x80 then 0x1B else 0)
  }

  lemma XtimeIs(a: bv8)
    ensures Xtime(a) == Twice(a)
  {
  }

  lemma Doubled(a: bv8)
    ensures Mul(a, 2) == Twice(a)
  {
    XtimeIs(a);
    MulStep(a, 2);
    MulByOne(Xtime(a));
    PlusZero(Xtime(a));
  }

  lemma Tripled(a: bv8)
    ensures Mul(a, 3) == Plus(a, Twice(a))
  {
    XtimeIs(a);
    MulStep(a, 3);
    MulByOne(Xtime(a));
  }

  /** Section 5.1.3: twice the cell, three times the one below it, and the other two of the column. */
  ghost function Row(a: bv8, b: bv8, c: bv8, d: bv8): bv8 {
    Sum(Twice(a), Plus(b, Twice(b)), c, d)
  }

  lemma RowIs(a: bv8, b: bv8, c: bv8, d: bv8)
    ensures Sum(Mul(a, 2), Mul(b, 3), c, d) == Row(a, b, c, d)
  {
    Doubled(a);
    Tripled(b);
  }

  lemma MixedCell(a: bv8, b: bv8, c: bv8, d: bv8)
    ensures MixedColumn(a, b, c, d) == [Row(a, b, c, d), Row(b, c, d, a), Row(c, d, a, b), Row(d, a, b, c)]
  {
    RowIs(a, b, c, d);
    RowIs(b, c, d, a);
    RowIs(c, d, a, b);
    RowIs(d, a, b, c);
    SumRotates(a, Mul(b, 2), Mul(c, 3), d);
    SumRotates(a, b, Mul(c, 2), Mul(d, 3));
    SumRotates(b, Mul(c, 2), Mul(d, 3), a);
    SumRotates(Mul(d, 2), Mul(a, 3), b, c);
  }

  ghost function Mixed(f: bv8 -> bv8, s: Block, i: nat, c: nat): bv8
    requires i < 4
  {
    Row(Moved(f, s, i, c), Moved(f, s, (i + 1) % 4, c), Moved(f, s, (i + 2) % 4, c), Moved(f, s, (i + 3) % 4, c))
  }

  lemma MixedRow(f: bv8 -> bv8, s: Block, i: nat, c: nat)
    requires i < 4
    ensures MixedColumn(Moved(f, s, 0, c), Moved(f, s, 1, c), Moved(f, s, 2, c), Moved(f, s, 3, c))[i] == Mixed(f, s, i, c)
  {
    MixedCell(Moved(f, s, 0, c), Moved(f, s, 1, c), Moved(f, s, 2, c), Moved(f, s, 3, c));
    Turned(Row, seq(4, r requires 0 <= r < 4 => Moved(f, s, r, c)), i);
  }

  lemma Turned<T>(g: (T, T, T, T) -> T, a: seq<T>, i: nat)
    requires |a| == 4 && i < 4
    ensures [g(a[0], a[1], a[2], a[3]), g(a[1], a[2], a[3], a[0]), g(a[2], a[3], a[0], a[1]), g(a[3], a[0], a[1], a[2])][i]
      == g(a[i], a[(i + 1) % 4], a[(i + 2) % 4], a[(i + 3) % 4])
  {
    if i == 0 { } else if i == 1 { } else if i == 2 { } else { }
  }

  lemma ColumnOf<T(!new)>(g: ColumnMap<T>, t: seq<T>, c: nat, i: nat, a0: T, a1: T, a2: T, a3: T)
    requires |t| == 16 && FourWide(g) && c < 4 && i < 4
    requires t[4 * c] == a0 && t[4 * c + 1] == a1 && t[4 * c + 2] == a2 && t[4 * c + 3] == a3
    ensures Columns(g, t, 4)[4 * c + i] == g(a0, a1, a2, a3)[i]
  {
    ColumnAt(g, t, 4, c, i);
  }

  lemma MixedOf(f: bv8 -> bv8, s: Block, t: Block, i: nat, c: nat)
    requires i < 4 && c < 4 && t[4 * c] == Moved(f, s, 0, c) && t[4 * c + 1] == Moved(f, s, 1, c)
    requires t[4 * c + 2] == Moved(f, s, 2, c) && t[4 * c + 3] == Moved(f, s, 3, c)
    ensures MixState(t)[4 * c + i] == Mixed(f, s, i, c)
  {
    ColumnOf(MixedColumn, t, c, i, Moved(f, s, 0, c), Moved(f, s, 1, c), Moved(f, s, 2, c), Moved(f, s, 3, c));
    MixedRow(f, s, i, c);
  }

  lemma MixedState(f: bv8 -> bv8, s: Block, i: nat, c: nat)
    requires i < 4 && c < 4
    ensures MixState(Shifted(Mapped(f, s)))[4 * c + i] == Mixed(f, s, i, c)
  {
    MovedAt(f, s, 0, c);
    MovedAt(f, s, 1, c);
    MovedAt(f, s, 2, c);
    MovedAt(f, s, 3, c);
    MixedOf(f, s, Shifted(Mapped(f, s)), i, c);
  }

  lemma KeyedAt(s: Block, keys: seq<bv8>, n: nat, j: nat)
    requires |keys| == 176 && n <= 10 && j < 16
    ensures WithKey(s, Key(keys, n))[j] == Plus(s[j], keys[16 * n + j])
  {
    AddedAt(s, Key(keys, n), j);
  }

  /** Section 5.1, byte by byte for every state and key: the first key is added, */
  lemma FirstKey(keys: seq<bv8>, s: Block, j: nat)
    requires |keys| == 176 && j < 16
    ensures Rounds(Aes(), keys, s, 0)[j] == Plus(s[j], keys[j])
  {
    KeyedAt(s, keys, 0, j);
  }

  lemma RoundAt(c: Steps, keys: seq<bv8>, s: Block, n: nat, j: nat)
    requires |keys| == 176 && 0 < n < 10 && j < 16
    ensures Rounds(c, keys, s, n)[j] == Plus(c.mix(c.shift(c.sub(Rounds(c, keys, s, n - 1))))[j], keys[16 * n + j])
  {
    KeyedAt(c.mix(c.shift(c.sub(Rounds(c, keys, s, n - 1)))), keys, n, j);
  }

  /** nine rounds substitute, shift, mix and add theirs, */
  lemma FullRound(keys: seq<bv8>, s: Block, n: nat, i: nat, c: nat)
    requires |keys| == 176 && 0 < n < 10 && i < 4 && c < 4
    ensures Rounds(Aes(), keys, s, n)[4 * c + i] ==
      Plus(Mixed(Sub, Rounds(Aes(), keys, s, n - 1), i, c), keys[16 * n + 4 * c + i])
  {
    RoundAt(Aes(), keys, s, n, 4 * c + i);
    MixedState(Sub, Rounds(Aes(), keys, s, n - 1), i, c);
  }

  /** and the last does not mix. */
  lemma LastRound(keys: seq<bv8>, s: Block, i: nat, c: nat)
    requires |keys| == 176 && i < 4 && c < 4
    ensures Encrypt(Aes(), keys, s)[4 * c + i] ==
      Plus(Moved(Sub, Rounds(Aes(), keys, s, 9), i, c), keys[160 + 4 * c + i])
  {
    var last := Rounds(Aes(), keys, s, 9);
    MovedAt(Sub, last, i, c);
    KeyedAt(Shifted(SubState(last)), keys, 10, 4 * c + i);
  }

  /** Section 5.1.1: two entries of the table. */
  lemma SboxValues()
    ensures SubEntry(0x00) == 0x63 && SubEntry(0x53) == 0xED && InvSubEntry(0x63) == 0x00 && InvSubEntry(0xED) == 0x53
  {
  }
}
