/** What the reversible numloss transforms compute, and that each is undone by its inverse. */
module NumlossTransforms {
  import opened Bytes

  // ---------------------------------------------------------------- delta and xor against the previous byte

  datatype PrevOp = Delta | ExclusiveOr

  function Combine(op: PrevOp, prev: byte, v: byte): byte {
    match op
    case Delta => Add8(prev, v)
    case ExclusiveOr => Xor8(prev, v)
  }

  function Difference(op: PrevOp, v: byte, prev: byte): byte {
    match op
    case Delta => Sub8(v, prev)
    case ExclusiveOr => Xor8(v, prev)
  }

  lemma CombineDifference(op: PrevOp, v: byte, prev: byte)
    ensures Combine(op, prev, Difference(op, v, prev)) == v
  {
    if op.ExclusiveOr? { XorCancel(prev, v); }
  }

  function Last(s: seq<byte>): byte {
    if s == [] then 0 else s[|s| - 1]
  }

  /** Every byte replaced by its difference from the byte before it (0 before the first). */
  function PrevForward(op: PrevOp, s: seq<byte>): (r: seq<byte>)
    ensures |r| == |s|
  {
    seq(|s|, i requires 0 <= i < |s| => Difference(op, s[i], Last(s[..i])))
  }

  /** Every byte combined with the already restored byte before it. */
  function PrevInverse(op: PrevOp, s: seq<byte>): (r: seq<byte>)
    ensures |r| == |s|
  {
    if s == [] then [] else
      var r := PrevInverse(op, s[..|s| - 1]);
      r + [Combine(op, Last(r), s[|s| - 1])]
  }

  lemma PrevForwardPrefix(op: PrevOp, s: seq<byte>, n: nat)
    requires n <= |s|
    ensures PrevForward(op, s)[..n] == PrevForward(op, s[..n])
  {
    forall i | 0 <= i < n ensures PrevForward(op, s)[i] == PrevForward(op, s[..n])[i] {
      assert s[..n][..i] == s[..i];
    }
  }

  lemma PrevInverseStep(op: PrevOp, s: seq<byte>)
    requires s != []
    ensures var r := PrevInverse(op, s[..|s| - 1]);
            PrevInverse(op, s) == r + [Combine(op, Last(r), s[|s| - 1])]
  {
  }

  /** Each restored byte combines the one before it with its own difference. */
  lemma {:induction false} PrevInverseAt(op: PrevOp, s: seq<byte>, k: nat)
    requires k < |s|
    ensures PrevInverse(op, s)[k] == Combine(op, if k == 0 then 0 else PrevInverse(op, s)[k - 1], s[k])
  {
    if k < |s| - 1 { PrevInverseAt(op, s[..|s| - 1], k); }
  }

  lemma {:induction false} PrevRoundTrip(op: PrevOp, s: seq<byte>)
    ensures PrevInverse(op, PrevForward(op, s)) == s
  {
    if s != [] {
      var n := |s| - 1;
      var f := PrevForward(op, s);
      PrevForwardPrefix(op, s, n);
      PrevRoundTrip(op, s[..n]);
      var r := PrevInverse(op, f[..n]);
      assert r == s[..n];
      CombineDifference(op, s[n], Last(s[..n]));
      PrevInverseStep(op, f);
      assert s == s[..n] + [s[n]];
    }
  }

  // ---------------------------------------------------------------- delta between 32-bit little-endian words

  function LastWord(w: seq<u32>): u32 {
    if w == [] then 0 else w[|w| - 1]
  }

  function WordDeltas(w: seq<u32>): (r: seq<u32>)
    ensures |r| == |w|
  {
    seq(|w|, i requires 0 <= i < |w| => Sub32(w[i], LastWord(w[..i])))
  }

  function WordSums(w: seq<u32>): (r: seq<u32>)
    ensures |r| == |w|
  {
    if w == [] then [] else
      var r := WordSums(w[..|w| - 1]);
      r + [Add32(LastWord(r), w[|w| - 1])]
  }

  lemma WordSumsSnoc(w: seq<u32>, i: nat)
    requires i < |w|
    ensures WordSums(w[..i + 1]) == WordSums(w[..i]) + [Add32(LastWord(WordSums(w[..i])), w[i])]
  {
    assert w[..i + 1][..i] == w[..i];
  }

  lemma WordCancel(prev: u32, w: u32)
    ensures Add32(prev, Sub32(w, prev)) == w
  {
  }

  lemma {:induction false} WordSumsUndo(w: seq<u32>)
    ensures WordSums(WordDeltas(w)) == w
  {
    if w != [] {
      var n := |w| - 1;
      assert WordDeltas(w)[..n] == WordDeltas(w[..n]) by {
        forall i | 0 <= i < n ensures WordDeltas(w)[i] == WordDeltas(w[..n])[i] {
          assert w[..n][..i] == w[..i];
        }
      }
      WordSumsUndo(w[..n]);
      WordCancel(LastWord(w[..n]), w[n]);
      assert w == w[..n] + [w[n]];
    }
  }

  function WordsUpTo(s: seq<byte>, k: nat): (r: seq<u32>)
    requires 4 * k <= |s|
    ensures |r| == k
  {
    if k == 0 then [] else WordsUpTo(s, k - 1) + [U32FromLe(s, 4 * (k - 1))]
  }

  /** The whole words of `s`; up to three bytes at its end belong to none. */
  function ToWords(s: seq<byte>): (r: seq<u32>)
    ensures |r| == |s| / 4
  {
    WordsUpTo(s, |s| / 4)
  }

  lemma {:induction false} WordsUpToAt(s: seq<byte>, k: nat, i: nat)
    requires i < k && 4 * k <= |s|
    ensures WordsUpTo(s, k)[i] == U32FromLe(s, 4 * i)
  {
    if i < k - 1 { WordsUpToAt(s, k - 1, i); }
  }

  function FromWords(w: seq<u32>): (r: seq<byte>)
    ensures |r| == 4 * |w|
  {
    if w == [] then [] else FromWords(w[..|w| - 1]) + U32ToLe(w[|w| - 1])
  }

  lemma FromWordsSnoc(w: seq<u32>, v: u32)
    ensures FromWords(w + [v]) == FromWords(w) + U32ToLe(v)
  {
    assert (w + [v])[..|w|] == w;
  }

  lemma {:induction false} FromWordsAt(w: seq<u32>, i: nat)
    requires i < |w|
    ensures FromWords(w)[4 * i..4 * i + 4] == U32ToLe(w[i])
  {
    if i < |w| - 1 {
      FromWordsAt(w[..|w| - 1], i);
      assert FromWords(w)[4 * i..4 * i + 4] == FromWords(w[..|w| - 1])[4 * i..4 * i + 4];
    }
  }

  lemma ToWordsAt(w: seq<u32>, s: seq<byte>, i: nat)
    requires i < |w| && 4 * |w| <= |s| && s[..4 * |w|] == FromWords(w)
    ensures U32FromLe(s, 4 * i) == w[i]
  {
    FromWordsAt(w, i);
    SlicePrefix(s, 4 * |w|, 4 * i, 4 * i + 4);
    U32RoundTrip(w[i], s, 4 * i);
  }

  lemma {:induction false} FromWordsUpTo(s: seq<byte>, k: nat)
    requires 4 * k <= |s|
    ensures FromWords(WordsUpTo(s, k)) == s[..4 * k]
  {
    if k > 0 {
      FromWordsUpTo(s, k - 1);
      FromWordsSnoc(WordsUpTo(s, k - 1), U32FromLe(s, 4 * (k - 1)));
      U32ToLeInverse(s, 4 * (k - 1));
      assert s[..4 * k] == s[..4 * (k - 1)] + s[4 * (k - 1)..4 * (k - 1) + 4];
    }
  }

  function WordForward(s: seq<byte>): (r: seq<byte>)
    ensures |r| == |s|
  {
    FromWords(WordDeltas(ToWords(s))) + s[4 * (|s| / 4)..]
  }

  function WordInverse(s: seq<byte>): (r: seq<byte>)
    ensures |r| == |s|
  {
    FromWords(WordSums(ToWords(s))) + s[4 * (|s| / 4)..]
  }

  lemma ToWordsOf(w: seq<u32>, s: seq<byte>)
    requires |w| == |s| / 4 && s[..4 * |w|] == FromWords(w)
    ensures ToWords(s) == w
  {
    forall i | 0 <= i < |w| ensures ToWords(s)[i] == w[i] {
      WordsUpToAt(s, |w|, i);
      ToWordsAt(w, s, i);
    }
  }

  lemma WordsOfForward(s: seq<byte>)
    ensures ToWords(WordForward(s)) == WordDeltas(ToWords(s))
    ensures WordForward(s)[4 * (|s| / 4)..] == s[4 * (|s| / 4)..]
  {
    var deltas, k := WordDeltas(ToWords(s)), |s| / 4;
    assert WordForward(s)[..4 * k] == FromWords(deltas);
    ToWordsOf(deltas, WordForward(s));
  }

  lemma WordRoundTrip(s: seq<byte>)
    ensures WordInverse(WordForward(s)) == s
  {
    var k := |s| / 4;
    WordsOfForward(s);
    WordSumsUndo(ToWords(s));
    FromWordsUpTo(s, k);
    assert s[..4 * k] + s[4 * k..] == s;
  }

  // ---------------------------------------------------------------- grouping the bytes of equal-width words by lane

  /** Where position `k` of the grouped data takes its byte from. */
  function GroupFrom(k: nat, n: nat, width: nat): nat
    requires 0 < width
  {
    var words := n / width;
    if words == 0 || k >= words * width then k else (k % words) * width + k / words
  }

  /** Where position `j` of the restored data takes its byte from. */
  function UngroupFrom(j: nat, n: nat, width: nat): nat
    requires 0 < width
  {
    var words := n / width;
    if j >= words * width then j else (j % width) * words + j / width
  }

  lemma ProductMonotone(a: nat, b: nat, m: nat)
    ensures a <= b ==> a * m <= b * m
  {
  }

  lemma QuotientBound(x: nat, m: nat, k: nat)
    requires 0 < m && x < k * m
    ensures x / m < k
  {
    ProductMonotone(k, x / m, m);
    assert x == m * (x / m) + x % m;
  }

  lemma CellBound(row: nat, rows: nat, col: nat, cols: nat)
    requires row < rows && col < cols
    ensures row * cols + col < rows * cols
  {
    assert (row + 1) * cols <= rows * cols;
    assert (row + 1) * cols == row * cols + cols;
  }

  lemma GroupFromInverse(j: nat, n: nat, width: nat)
    requires 0 < width && j < n
    ensures UngroupFrom(j, n, width) < n
    ensures GroupFrom(UngroupFrom(j, n, width), n, width) == j
    ensures j < n / width * width <==> UngroupFrom(j, n, width) < n / width * width
  {
    var words := n / width;
    assert words * width <= n;
    if j < words * width {
      QuotientBound(j, width, words);
      var lane, row := j % width, j / width;
      assert width * words == words * width;
      CellBound(lane, width, row, words);
      DivModUnique(lane, row, words);
      assert row * width + lane == j;
    }
  }

  lemma UngroupFromInverse(k: nat, n: nat, width: nat)
    requires 0 < width && k < n
    ensures GroupFrom(k, n, width) < n
    ensures UngroupFrom(GroupFrom(k, n, width), n, width) == k
    ensures k < n / width * width <==> GroupFrom(k, n, width) < n / width * width
  {
    var words := n / width;
    assert words * width <= n;
    if k < words * width {
      assert words * width == width * words;
      assert words != 0;
      QuotientBound(k, words, width);
      var lane, row := k / words, k % words;
      CellBound(row, words, lane, width);
      DivModUnique(row, lane, width);
      assert lane * words + row == k;
    }
  }

  function Grouped(s: seq<byte>, width: nat): (r: seq<byte>)
    requires 0 < width
    ensures |r| == |s|
  {
    seq(|s|, k requires 0 <= k < |s| => UngroupFromInverse(k, |s|, width); s[GroupFrom(k, |s|, width)])
  }

  function Ungrouped(s: seq<byte>, width: nat): (r: seq<byte>)
    requires 0 < width
    ensures |r| == |s|
  {
    seq(|s|, j requires 0 <= j < |s| => GroupFromInverse(j, |s|, width); s[UngroupFrom(j, |s|, width)])
  }

  // Grouped and Ungrouped, folded away behind a counter: proofs that use a transform as a whole
  // then meet no division by a variable width.

  function FoldedGroup(s: seq<byte>, width: nat, n: nat): (r: seq<byte>)
    requires 0 < width
    ensures |r| == |s|
  {
    if n == 0 then Grouped(s, width) else FoldedGroup(s, width, n - 1)
  }

  function FoldedUngroup(s: seq<byte>, width: nat, n: nat): (r: seq<byte>)
    requires 0 < width
    ensures |r| == |s|
  {
    if n == 0 then Ungrouped(s, width) else FoldedUngroup(s, width, n - 1)
  }

  function Group(s: seq<byte>, width: nat): (r: seq<byte>)
    requires 0 < width
    ensures |r| == |s|
  {
    FoldedGroup(s, width, |s|)
  }

  function Ungroup(s: seq<byte>, width: nat): (r: seq<byte>)
    requires 0 < width
    ensures |r| == |s|
  {
    FoldedUngroup(s, width, |s|)
  }

  lemma {:induction false} UnfoldGroup(s: seq<byte>, width: nat, n: nat)
    requires 0 < width
    ensures FoldedGroup(s, width, n) == Grouped(s, width) && FoldedUngroup(s, width, n) == Ungrouped(s, width)
  {
    if n > 0 { UnfoldGroup(s, width, n - 1); }
  }

  lemma GroupCell(s: seq<byte>, width: nat, k: nat)
    requires 0 < width && k < |s|
    ensures GroupFrom(k, |s|, width) < |s| && Group(s, width)[k] == s[GroupFrom(k, |s|, width)]
  {
    UngroupFromInverse(k, |s|, width);
    UnfoldGroup(s, width, |s|);
  }

  lemma UngroupCell(s: seq<byte>, width: nat, j: nat)
    requires 0 < width && j < |s|
    ensures UngroupFrom(j, |s|, width) < |s| && Ungroup(s, width)[j] == s[UngroupFrom(j, |s|, width)]
  {
    GroupFromInverse(j, |s|, width);
    UnfoldGroup(s, width, |s|);
  }

  lemma GroupRoundTripAt(s: seq<byte>, width: nat, j: nat)
    requires 0 < width && j < |s|
    ensures Ungroup(Group(s, width), width)[j] == s[j]
  {
    GroupFromInverse(j, |s|, width);
    UngroupCell(Group(s, width), width, j);
    GroupCell(s, width, UngroupFrom(j, |s|, width));
  }

  lemma GroupRoundTrip(s: seq<byte>, width: nat)
    requires 0 < width
    ensures Ungroup(Group(s, width), width) == s
  {
    forall j | 0 <= j < |s| ensures Ungroup(Group(s, width), width)[j] == s[j] {
      GroupRoundTripAt(s, width, j);
    }
  }

  // ---------------------------------------------------------------- the transform numbers of the archive header

  const RAW := 0
  const DELTA8 := 1
  const XOR8 := 2
  const GROUP4 := 3
  const GROUP4_DELTA8 := 4
  const GROUP4_XOR8 := 5
  const GROUP8 := 6
  const GROUP8_DELTA8 := 7
  const GROUP8_XOR8 := 8
  const GROUP2 := 9
  const GROUP2_DELTA8 := 10
  const GROUP2_XOR8 := 11
  const DELTA8_DELTA8 := 12
  const TEXT_PROSE := 13
  const TEXT_CODE := 14
  const DELTA32LE := 15

  /** A transform is a lane grouping (width 1 for none) followed by a per-byte or per-word step. */
  datatype Step = Plain | Prev(op: PrevOp) | DeltaTwice | Words
  datatype Recipe = Recipe(width: nat, step: Step)

  function RecipeOf(transform: byte): (r: Option<Recipe>)
    ensures r.Some? ==> r.value.width in {1, 2, 4, 8}
    ensures r.Some? ==> (r.value.step.DeltaTwice? || r.value.step.Words? ==> r.value.width == 1)
  {
    if transform == RAW then Some(Recipe(1, Plain))
    else if transform == DELTA8 then Some(Recipe(1, Prev(Delta)))
    else if transform == XOR8 then Some(Recipe(1, Prev(ExclusiveOr)))
    else if transform == GROUP4 then Some(Recipe(4, Plain))
    else if transform == GROUP4_DELTA8 then Some(Recipe(4, Prev(Delta)))
    else if transform == GROUP4_XOR8 then Some(Recipe(4, Prev(ExclusiveOr)))
    else if transform == GROUP8 then Some(Recipe(8, Plain))
    else if transform == GROUP8_DELTA8 then Some(Recipe(8, Prev(Delta)))
    else if transform == GROUP8_XOR8 then Some(Recipe(8, Prev(ExclusiveOr)))
    else if transform == GROUP2 then Some(Recipe(2, Plain))
    else if transform == GROUP2_DELTA8 then Some(Recipe(2, Prev(Delta)))
    else if transform == GROUP2_XOR8 then Some(Recipe(2, Prev(ExclusiveOr)))
    else if transform == DELTA8_DELTA8 then Some(Recipe(1, DeltaTwice))
    else if transform == DELTA32LE then Some(Recipe(1, Words))
    else None
  }

  function DoStep(step: Step, s: seq<byte>): (r: seq<byte>)
    ensures |r| == |s|
  {
    match step
    case Plain => s
    case Prev(op) => PrevForward(op, s)
    case DeltaTwice => PrevForward(Delta, PrevForward(Delta, s))
    case Words => WordForward(s)
  }

  function UndoStep(step: Step, s: seq<byte>): (r: seq<byte>)
    ensures |r| == |s|
  {
    match step
    case Plain => s
    case Prev(op) => PrevInverse(op, s)
    case DeltaTwice => PrevInverse(Delta, PrevInverse(Delta, s))
    case Words => WordInverse(s)
  }

  function Do(r: Recipe, s: seq<byte>): (t: seq<byte>)
    requires 0 < r.width
    ensures |t| == |s|
  {
    DoStep(r.step, if r.width == 1 then s else Group(s, r.width))
  }

  function Undo(r: Recipe, s: seq<byte>): (t: seq<byte>)
    requires 0 < r.width
    ensures |t| == |s|
  {
    var u := UndoStep(r.step, s);
    if r.width == 1 then u else Ungroup(u, r.width)
  }

  /** Every transform the encoder tries is undone by its inverse, for every input. */
  lemma UndoDo(r: Recipe, s: seq<byte>)
    requires 0 < r.width
    ensures Undo(r, Do(r, s)) == s
  {
    var g := if r.width == 1 then s else Group(s, r.width);
    match r.step {
      case Plain =>
      case Prev(op) => PrevRoundTrip(op, g);
      case DeltaTwice =>
        PrevRoundTrip(Delta, PrevForward(Delta, g));
        PrevRoundTrip(Delta, g);
      case Words => WordRoundTrip(g);
    }
    if r.width != 1 { GroupRoundTrip(s, r.width); }
  }
}
