/** The host codec's transforms (tools/numloss_codec.py), proved against NumlossTransforms. */
module PyTransforms {
  import opened Bytes
  import opened NumlossTransforms
  import opened LaneGrouping

  method DeltaForward(data: seq<byte>) returns (r: seq<byte>)
    ensures r == PrevForward(Delta, data)
  {
    var out := new byte[|data|](_ => 0);
    var prev: byte := 0;
    for index := 0 to |data|
      invariant prev == Last(data[..index])
      invariant out[..index] == PrevForward(Delta, data)[..index]
    {
      out[index] := Sub8(data[index], prev);
      prev := data[index];
      assert out[..index + 1] == out[..index] + [out[index]];
    }
    return out[..];
  }

  method XorForward(data: seq<byte>) returns (r: seq<byte>)
    ensures r == PrevForward(ExclusiveOr, data)
  {
    var out := new byte[|data|](_ => 0);
    var prev: byte := 0;
    for index := 0 to |data|
      invariant prev == Last(data[..index])
      invariant out[..index] == PrevForward(ExclusiveOr, data)[..index]
    {
      out[index] := Xor8(data[index], prev);
      prev := data[index];
      assert out[..index + 1] == out[..index] + [out[index]];
    }
    return out[..];
  }

  lemma PrevInverseStepAt(op: PrevOp, data: seq<byte>, index: nat)
    requires index < |data|
    ensures PrevInverse(op, data[..index + 1])
         == PrevInverse(op, data[..index]) + [Combine(op, Last(PrevInverse(op, data[..index])), data[index])]
  {
    assert data[..index + 1][..index] == data[..index];
  }

  method DeltaInverse(data: seq<byte>) returns (r: seq<byte>)
    ensures r == PrevInverse(Delta, data)
  {
    var out := new byte[|data|](_ => 0);
    var prev: byte := 0;
    for index := 0 to |data|
      invariant out[..index] == PrevInverse(Delta, data[..index])
      invariant prev == Last(PrevInverse(Delta, data[..index]))
    {
      PrevInverseStepAt(Delta, data, index);
      prev := Add8(prev, data[index]);
      out[index] := prev;
      assert out[..index + 1] == out[..index] + [prev];
    }
    assert data[..|data|] == data;
    return out[..];
  }

  method XorInverse(data: seq<byte>) returns (r: seq<byte>)
    ensures r == PrevInverse(ExclusiveOr, data)
  {
    var out := new byte[|data|](_ => 0);
    var prev: byte := 0;
    for index := 0 to |data|
      invariant out[..index] == PrevInverse(ExclusiveOr, data[..index])
      invariant prev == Last(PrevInverse(ExclusiveOr, data[..index]))
    {
      PrevInverseStepAt(ExclusiveOr, data, index);
      prev := Xor8(prev, data[index]);
      out[index] := prev;
      assert out[..index + 1] == out[..index] + [prev];
    }
    assert data[..|data|] == data;
    return out[..];
  }

  lemma WordsUpToIs(s: seq<byte>, k: nat, i: nat)
    requires k <= |s| / 4 && i < k
    ensures ToWords(s)[i] == U32FromLe(s, 4 * i)
  {
    WordsUpToAt(s, |s| / 4, i);
  }

  lemma DeltasStep(data: seq<byte>, i: nat)
    requires i < |data| / 4
    ensures var w := ToWords(data);
            var diff := Sub32(U32FromLe(data, 4 * i), LastWord(w[..i]));
            && FromWords(WordDeltas(w)[..i + 1]) == FromWords(WordDeltas(w)[..i]) + U32ToLe(diff)
            && LastWord(w[..i + 1]) == U32FromLe(data, 4 * i)
  {
    var deltas := WordDeltas(ToWords(data));
    WordsUpToIs(data, |data| / 4, i);
    assert deltas[..i + 1] == deltas[..i] + [deltas[i]];
    FromWordsSnoc(deltas[..i], deltas[i]);
  }

  method Delta32Forward(data: seq<byte>) returns (r: seq<byte>)
    ensures r == WordForward(data)
  {
    ghost var w := ToWords(data);
    ghost var deltas := WordDeltas(w);
    var out: seq<byte> := [];
    var prev: u32 := 0;
    var words := |data| / 4;
    for index := 0 to words
      invariant prev == LastWord(w[..index])
      invariant out == FromWords(deltas[..index])
    {
      var value := U32FromLe(data, 4 * index);
      DeltasStep(data, index);
      out := out + U32ToLe(Sub32(value, prev));
      prev := value;
    }
    assert deltas[..words] == deltas;
    return out + data[4 * words..];
  }

  method Delta32Inverse(data: seq<byte>) returns (r: seq<byte>)
    ensures r == WordInverse(data)
  {
    ghost var w := ToWords(data);
    ghost var sums: seq<u32> := [];
    var out: seq<byte> := [];
    var prev: u32 := 0;
    var words := |data| / 4;
    for index := 0 to words
      invariant sums == WordSums(w[..index]) && prev == LastWord(sums)
      invariant out == FromWords(sums)
    {
      var delta := U32FromLe(data, 4 * index);
      WordsUpToIs(data, words, index);
      WordSumsSnoc(w, index);
      prev := Add32(prev, delta);
      FromWordsSnoc(sums, prev);
      out := out + U32ToLe(prev);
      sums := sums + [prev];
    }
    assert w[..words] == w;
    return out + data[4 * words..];
  }

  method Cell(index: nat, width: nat, lane: nat) returns (r: nat)
    ensures r == Times(index, width) + lane
  {
    TimesIsProduct(index, width);
    r := index * width + lane;
  }

  method GroupBytes(data: seq<byte>, width: nat) returns (r: seq<byte>)
    requires 0 < width
    ensures r == Group(data, width)
  {
    var words, headSize := GroupShape(|data|, width);
    if words == 0 {
      NothingToGroup(data, width);
      return data;
    }
    ghost var to, from := GroupMaps(|data|, width, words);
    var grouped: seq<byte> := [];
    for lane := 0 to width
      invariant |grouped| == Times(lane, words) <= headSize
      invariant forall k :: 0 <= k < |grouped| ==> grouped[k] == data[to[k]]
    {
      LanesInOrder(lane, words - 1, words, width);
      for index := 0 to words
        invariant |grouped| == Times(lane, words) + index <= headSize
        invariant forall k :: 0 <= k < |grouped| ==> grouped[k] == data[to[k]]
      {
        LanesInOrder(lane, index, words, width);
        TargetOfLane(lane, index, words, width);
        var cell := Cell(index, width, lane);
        assert cell == to[|grouped|];
        grouped := grouped + [data[cell]];
      }
    }
    LanesInOrder(0, 0, words, width);
    GroupDone(grouped, data, width, to);
    r := grouped + data[headSize..];
  }

  lemma GroupDone(grouped: seq<byte>, data: seq<byte>, width: nat, to: seq<int>)
    requires 0 < width && |to| == |data| && IsTargets(to, WordsOf(|data|, width), width)
    requires forall i :: 0 <= i < |to| ==> 0 <= to[i] < |to|
    requires |grouped| == Times(WordsOf(|data|, width), width) <= |data|
    requires forall k :: 0 <= k < |grouped| ==> grouped[k] == data[to[k]]
    ensures grouped + data[|grouped|..] == Group(data, width)
  {
    var r := grouped + data[|grouped|..];
    forall k | 0 <= k < |data| ensures r[k] == Group(data, width)[k] {
      GroupAt(data, width, to, k);
    }
  }

  /** One lane of the restored data: `words` bytes from `start` on, one to every `width`-th cell. */
  method UngroupLane(data: seq<byte>, restored: array<byte>, lane: nat, words: nat, width: nat, start: nat,
                     ghost to: seq<int>, ghost from: seq<int>)
    requires |to| == |data| == restored.Length && Inverse(to, from) && IsTargets(to, words, width)
    requires lane < width && start == Times(lane, words) <= |data| && Times(words, width) <= |data|
    requires forall k :: 0 <= k < start ==> restored[to[k]] == data[k]
    modifies restored
    ensures start + words == Times(lane + 1, words) <= Times(words, width)
    ensures forall k :: 0 <= k < start + words ==> restored[to[k]] == data[k]
  {
    LanesInOrder(lane, words - 1, words, width);
    for index := 0 to words
      invariant forall k :: 0 <= k < start + index ==> restored[to[k]] == data[k]
    {
      LanesInOrder(lane, index, words, width);
      TargetOfLane(lane, index, words, width);
      var cell := Cell(index, width, lane);
      assert cell == to[start + index];
      forall k | 0 <= k < start + index ensures to[k] != cell { assert from[to[k]] == k && from[cell] == start + index; }
      restored[cell] := data[start + index];
    }
  }

  method UngroupBytes(data: seq<byte>, width: nat) returns (r: seq<byte>)
    requires 0 < width
    ensures r == Ungroup(data, width)
  {
    var words, headSize := GroupShape(|data|, width);
    if words == 0 {
      NothingToUngroup(data, width);
      return data;
    }
    ghost var to, from := GroupMaps(|data|, width, words);
    var restored := new byte[|data|](_ => 0);
    var src: nat := 0;
    for lane := 0 to width
      invariant src == Times(lane, words) <= headSize
      invariant forall k :: 0 <= k < src ==> restored[to[k]] == data[k]
    {
      UngroupLane(data, restored, lane, words, width, src, to, from);
      src := src + words;
    }
    LanesInOrder(0, 0, words, width);
    UngroupDone(restored[..headSize], data, width, to, from);
    r := restored[..headSize] + data[headSize..];
  }

  lemma UngroupDone(restored: seq<byte>, data: seq<byte>, width: nat, to: seq<int>, from: seq<int>)
    requires 0 < width && |to| == |data| && IsTargets(to, WordsOf(|data|, width), width) && Inverse(to, from)
    requires |restored| == Times(WordsOf(|data|, width), width) <= |data|
    requires forall k :: 0 <= k < |restored| ==> 0 <= to[k] < |restored| && restored[to[k]] == data[k]
    ensures restored + data[|restored|..] == Ungroup(data, width)
  {
    var r := restored + data[|restored|..];
    forall j | 0 <= j < |data| ensures r[j] == Ungroup(data, width)[j] {
      UngroupAt(data, width, to, from, j);
      assert to[from[j]] == j;
    }
  }
}
