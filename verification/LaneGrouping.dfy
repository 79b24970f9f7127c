/** The lane grouping of a buffer as a permutation of its cells. */
module LaneGrouping {
  import opened Bytes
  import opened NumlossTransforms

  // The shape of the grouping, by repeated addition and subtraction.

  ghost function WordsOf(n: nat, width: nat): (r: nat)
    requires 0 < width
  {
    if n < width then 0 else 1 + WordsOf(n - width, width)
  }

  /** Lane by lane: the bytes of lane 0 go to every `width`-th cell, those of the next lane one further. */
  ghost function TargetOf(k: nat, words: nat, width: nat): (r: nat)
    requires 0 < words
  {
    if k < words then Times(k, width) else 1 + TargetOf(k - words, words, width)
  }

  lemma {:induction false} WordsOfIsQuotient(n: nat, width: nat)
    requires 0 < width
    ensures WordsOf(n, width) == n / width
  {
    if n >= width {
      WordsOfIsQuotient(n - width, width);
      QuotientStep(n, width);
    }
  }

  lemma QuotientStep(k: nat, words: nat)
    requires 0 < words <= k
    ensures k / words == (k - words) / words + 1 && k % words == (k - words) % words
  {
    var m := k - words;
    assert k == (m / words + 1) * words + m % words;
    DivModUnique(m / words + 1, m % words, words);
  }

  lemma {:induction false} TargetOfIsCell(k: nat, words: nat, width: nat)
    requires 0 < words
    ensures TargetOf(k, words, width) == (k % words) * width + k / words
  {
    if k < words {
      TimesIsProduct(k, width);
      DivModUnique(0, k, words);
    } else {
      TargetOfIsCell(k - words, words, width);
      QuotientStep(k, words);
    }
  }

  method GroupShape(size: nat, width: nat) returns (words: nat, headSize: nat)
    requires 0 < width
    ensures words == WordsOf(size, width) && headSize == Times(words, width) <= size
  {
    words := size / width;
    headSize := words * width;
    WordsOfIsQuotient(size, width);
    TimesIsProduct(words, width);
  }

  ghost predicate IsTargets(to: seq<int>, words: nat, width: nat) {
    0 < words && forall k :: 0 <= k < |to| ==> to[k] == if k >= Times(words, width) then k else TargetOf(k, words, width)
  }

  /** A permutation of the first |from| indices: cell `j` receives the byte of cell `from[j]`. */
  ghost predicate Inverse(to: seq<int>, from: seq<int>) {
    && |to| == |from|
    && (forall j :: 0 <= j < |from| ==> 0 <= from[j] < |from| && to[from[j]] == j)
    && (forall k :: 0 <= k < |to| ==> 0 <= to[k] < |to| && from[to[k]] == k)
  }

  lemma TargetIsGroupFrom(k: nat, n: nat, width: nat)
    requires 0 < width && 0 < WordsOf(n, width)
    ensures var words := WordsOf(n, width);
            GroupFrom(k, n, width) == if k >= Times(words, width) then k else TargetOf(k, words, width)
  {
    var words := WordsOf(n, width);
    WordsOfIsQuotient(n, width);
    TimesIsProduct(words, width);
    TargetOfIsCell(k, words, width);
  }

  lemma GroupFromInHead(k: nat, n: nat, width: nat)
    requires 0 < width && k < n
    ensures GroupFrom(k, n, width) < n
    ensures k < Times(WordsOf(n, width), width) ==> GroupFrom(k, n, width) < Times(WordsOf(n, width), width)
  {
    WordsOfIsQuotient(n, width);
    TimesIsProduct(WordsOf(n, width), width);
    UngroupFromInverse(k, n, width);
  }

  /** Grouping `n` bytes into lanes is a permutation that keeps the tail in place. */
  lemma GroupMaps(n: nat, width: nat, words: nat) returns (to: seq<int>, from: seq<int>)
    requires 0 < width && words == WordsOf(n, width) > 0
    ensures |from| == n && Inverse(to, from) && IsTargets(to, words, width)
    ensures forall k :: 0 <= k < n && k < Times(words, width) ==> 0 <= to[k] < Times(words, width)
  {
    to := seq(n, k requires 0 <= k < n => GroupFrom(k, n, width));
    from := seq(n, j requires 0 <= j < n => UngroupFrom(j, n, width));
    forall k | 0 <= k < n
      ensures 0 <= to[k] < n && from[to[k]] == k && (k < Times(words, width) ==> 0 <= to[k] < Times(words, width))
      ensures to[k] == if k >= Times(words, width) then k else TargetOf(k, words, width)
    {
      UngroupFromInverse(k, n, width);
      GroupFromInHead(k, n, width);
      TargetIsGroupFrom(k, n, width);
    }
    forall j | 0 <= j < n ensures 0 <= from[j] < n && to[from[j]] == j {
      GroupFromInverse(j, n, width);
    }
  }

  lemma OriginIsUngroupFrom(to: seq<int>, from: seq<int>, width: nat, j: nat)
    requires 0 < width && Inverse(to, from) && IsTargets(to, WordsOf(|to|, width), width) && j < |to|
    ensures from[j] == UngroupFrom(j, |to|, width)
  {
    GroupFromInverse(j, |to|, width);
    var k := UngroupFrom(j, |to|, width);
    TargetIsGroupFrom(k, |to|, width);
    assert to[k] == j;
  }

  lemma NothingToUngroup(was: seq<byte>, width: nat)
    requires 0 < width && (WordsOf(|was|, width) == 0 || Times(WordsOf(|was|, width), width) == 0)
    ensures Ungroup(was, width) == was
  {
    WordsOfIsQuotient(|was|, width);
    TimesIsProduct(WordsOf(|was|, width), width);
    forall j | 0 <= j < |was| ensures Ungroup(was, width)[j] == was[j] { UngroupCell(was, width, j); }
  }

  /** Walking the lanes in order visits the cells in the order of their targets. */
  lemma {:induction false} TargetOfLane(lane: nat, index: nat, words: nat, width: nat)
    requires index < words
    ensures TargetOf(Times(lane, words) + index, words, width) == Times(index, width) + lane
  {
    if lane > 0 { TargetOfLane(lane - 1, index, words, width); }
  }

  lemma LanesInOrder(lane: nat, index: nat, words: nat, width: nat)
    requires lane < width && index < words
    ensures Times(lane, words) + index < Times(words, width)
    ensures Times(lane + 1, words) == Times(lane, words) + words
    ensures Times(width, words) == Times(words, width)
  {
    TimesIsProduct(lane, words);
    TimesIsProduct(words, width);
    TimesIsProduct(width, words);
    CellBound(lane, width, index, words);
    assert width * words == words * width;
  }

  lemma GroupAt(data: seq<byte>, width: nat, to: seq<int>, k: nat)
    requires 0 < width && |to| == |data| && k < |data| && IsTargets(to, WordsOf(|data|, width), width)
    requires forall i :: 0 <= i < |to| ==> 0 <= to[i] < |to|
    ensures Group(data, width)[k] == data[to[k]]
  {
    GroupCell(data, width, k);
    TargetIsGroupFrom(k, |data|, width);
  }

  lemma UngroupAt(data: seq<byte>, width: nat, to: seq<int>, from: seq<int>, j: nat)
    requires 0 < width && |to| == |data| && j < |data| && IsTargets(to, WordsOf(|data|, width), width) && Inverse(to, from)
    ensures Ungroup(data, width)[j] == data[from[j]]
  {
    UngroupCell(data, width, j);
    OriginIsUngroupFrom(to, from, width, j);
  }

  lemma NothingToGroup(data: seq<byte>, width: nat)
    requires 0 < width && WordsOf(|data|, width) == 0
    ensures Group(data, width) == data
  {
    WordsOfIsQuotient(|data|, width);
    forall k | 0 <= k < |data| ensures Group(data, width)[k] == data[k] { GroupCell(data, width, k); }
  }
}
