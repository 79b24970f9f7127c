/** The kernel's in-place inverse transforms (src/kernel/numloss.c), proved against NumlossTransforms. */
module KernelTransforms {
  import opened Bytes
  import opened NumlossTransforms
  import opened LaneGrouping

  const VISIT_BITMAP_BYTES := (256 * 1024 + 7) / 8
  const TRANSFORM_BUF_SIZE := 256 * 1024

  // ---------------------------------------------------------------- visit bitmap

  ghost predicate Bit(b: bv8, k: nat) {
    if k == 0 then b & 1 != 0 else Bit(b >> 1, k - 1)
  }

  function Mask(k: nat): bv8
    requires k < 8
  {
    (1 as bv8) << k
  }

  lemma MaskValues()
    ensures Mask(0) == 1 && Mask(1) == 2 && Mask(2) == 4 && Mask(3) == 8
    ensures Mask(4) == 16 && Mask(5) == 32 && Mask(6) == 64 && Mask(7) == 128
  {
  }

  lemma ShiftMask(b: bv8, k: nat)
    requires 0 < k < 8
    ensures (b >> 1) & Mask(k - 1) != 0 <==> b & Mask(k) != 0
  {
    MaskValues();
  }

  lemma {:induction false} BitIsMasked(b: bv8, k: nat)
    requires k < 8
    ensures Bit(b, k) <==> b & Mask(k) != 0
  {
    if k > 0 {
      BitIsMasked(b >> 1, k - 1);
      ShiftMask(b, k);
    }
  }

  lemma SetBit(b: bv8, k: nat, other: nat)
    requires k < 8 && other < 8
    ensures Bit(b | Mask(k), other) <==> k == other || Bit(b, other)
  {
    BitIsMasked(b, other);
    BitIsMasked(b | Mask(k), other);
    MaskValues();
  }

  lemma {:induction false} NoBits(k: nat)
    ensures !Bit(0, k)
  {
    if k > 0 { NoBits(k - 1); }
  }

  class VisitBitmap {
    const bytes: array<bv8>

    constructor ()
      ensures fresh(bytes) && bytes.Length == VISIT_BITMAP_BYTES
    {
      bytes := new bv8[VISIT_BITMAP_BYTES];
    }

    ghost predicate Marked(index: nat)
      requires index / 8 < bytes.Length
      reads bytes
    {
      Bit(bytes[index / 8], index % 8)
    }

    method Get(index: nat) returns (r: bool)
      requires index / 8 < bytes.Length
      ensures r == Marked(index)
    {
      BitIsMasked(bytes[index / 8], index % 8);
      r := bytes[index / 8] & Mask(index % 8) != 0;
    }

    method Clear(bits: nat)
      requires bits <= 8 * bytes.Length
      modifies bytes
      ensures forall i :: 0 <= i < bits ==> !Marked(i)
    {
      var count := (bits + 7) / 8;
      for k := 0 to count
        invariant forall j :: 0 <= j < k ==> bytes[j] == 0
      {
        bytes[k] := 0;
      }
      forall i | 0 <= i < bits ensures !Marked(i) { NoBits(i % 8); }
    }

    method Set(index: nat)
      requires index / 8 < bytes.Length
      modifies bytes
      ensures Marked(index)
      ensures forall j :: 0 <= j && j / 8 < bytes.Length && j != index ==> Marked(j) == old(Marked(j))
    {
      ghost var before := bytes[index / 8];
      bytes[index / 8] := bytes[index / 8] | Mask(index % 8);
      SetBit(before, index % 8, index % 8);
      forall j | 0 <= j && j / 8 < bytes.Length && j != index ensures Marked(j) == old(Marked(j)) {
        if j / 8 == index / 8 { SetBit(before, index % 8, j % 8); }
      }
    }
  }

  // ---------------------------------------------------------------- running sums

  method InverseDeltaInPlace(data: array<byte>, base: nat, size: nat)
    requires base + size <= data.Length
    modifies data
    ensures OnlyChanged(data, base, size)
    ensures data[base..base + size] == PrevInverse(Delta, old(data[base..base + size]))
  {
    ghost var was := data[base..base + size];
    ghost var restored := PrevInverse(Delta, was);
    var prev: byte := 0;
    for index := 0 to size
      invariant OnlyChanged(data, base, index)
      invariant forall k :: base <= k < base + index ==> data[k] == restored[k - base]
      invariant prev == if index == 0 then 0 else restored[index - 1]
    {
      PrevInverseAt(Delta, was, index);
      prev := Add8(prev, data[base + index]);
      data[base + index] := prev;
    }
  }

  method InverseXorInPlace(data: array<byte>, base: nat, size: nat)
    requires base + size <= data.Length
    modifies data
    ensures OnlyChanged(data, base, size)
    ensures data[base..base + size] == PrevInverse(ExclusiveOr, old(data[base..base + size]))
  {
    ghost var was := data[base..base + size];
    ghost var restored := PrevInverse(ExclusiveOr, was);
    var prev: byte := 0;
    for index := 0 to size
      invariant OnlyChanged(data, base, index)
      invariant forall k :: base <= k < base + index ==> data[k] == restored[k - base]
      invariant prev == if index == 0 then 0 else restored[index - 1]
    {
      PrevInverseAt(ExclusiveOr, was, index);
      prev := Xor8(prev, data[base + index]);
      data[base + index] := prev;
    }
  }

  /** One pass that keeps both sums is two passes of the simple inverse. */
  method InverseDelta2InPlace(data: array<byte>, base: nat, size: nat)
    requires base + size <= data.Length
    modifies data
    ensures OnlyChanged(data, base, size)
    ensures data[base..base + size] == PrevInverse(Delta, PrevInverse(Delta, old(data[base..base + size])))
  {
    ghost var was := data[base..base + size];
    ghost var once := PrevInverse(Delta, was);
    ghost var twice := PrevInverse(Delta, once);
    var delta: byte, value: byte := 0, 0;
    for index := 0 to size
      invariant OnlyChanged(data, base, index)
      invariant forall k :: base <= k < base + index ==> data[k] == twice[k - base]
      invariant delta == if index == 0 then 0 else once[index - 1]
      invariant value == if index == 0 then 0 else twice[index - 1]
    {
      PrevInverseAt(Delta, was, index);
      PrevInverseAt(Delta, once, index);
      delta := Add8(delta, data[base + index]);
      value := Add8(value, delta);
      data[base + index] := value;
    }
  }

  method ReadWord(data: array<byte>, offset: nat) returns (r: u32)
    requires offset + 4 <= data.Length
    ensures r == U32FromLe(data[..], offset)
  {
    LeValue4(data[offset..offset + 4]);
    assert data[..][offset..offset + 4] == data[offset..offset + 4];
    r := data[offset] as int + 256 * (data[offset + 1] as int + 256 * (data[offset + 2] as int + 256 * data[offset + 3] as int));
  }

  method WriteWord(data: array<byte>, offset: nat, value: u32)
    requires offset + 4 <= data.Length
    modifies data
    ensures OnlyChanged(data, offset, 4)
    ensures data[offset..offset + 4] == U32ToLe(value)
  {
    LeBytes4(value);
    data[offset] := value % 256;
    data[offset + 1] := value / 256 % 256;
    data[offset + 2] := value / 256 / 256 % 256;
    data[offset + 3] := value / 256 / 256 / 256 % 256;
  }

  lemma WordInPlace(now: seq<byte>, was: seq<byte>, base: nat, index: nat)
    requires 4 * index + 4 <= |was| && base + |was| <= |now|
    requires forall j :: base + 4 * index <= j < base + |was| ==> now[j] == was[j - base]
    ensures U32FromLe(now, base + 4 * index) == ToWords(was)[index]
  {
    var n, w := now[base + 4 * index..base + 4 * index + 4], was[4 * index..4 * index + 4];
    forall k | 0 <= k < 4 ensures n[k] == w[k] {
      assert now[base + 4 * index + k] == was[4 * index + k];
    }
    assert n == w;
    WordsUpToAt(was, |was| / 4, index);
  }

  /** The first `index` words of `was` are summed in place, the rest of it is untouched. */
  ghost predicate Summed(data: array<byte>, base: nat, was: seq<byte>, sums: seq<u32>, index: nat)
    reads data
  {
    && base + |was| <= data.Length && index <= |was| / 4
    && sums == WordSums(ToWords(was)[..index])
    && data[base..base + 4 * index] == FromWords(sums)
    && forall j :: base + 4 * index <= j < base + |was| ==> data[j] == was[j - base]
  }

  method SumWord(data: array<byte>, base: nat, index: nat, prev: u32, ghost was: seq<byte>, ghost sums: seq<u32>)
    returns (value: u32)
    requires index < |was| / 4 && Summed(data, base, was, sums, index) && prev == LastWord(sums)
    modifies data
    ensures OnlyChanged(data, base, |was|)
    ensures Summed(data, base, was, sums + [value], index + 1)
  {
    var offset := index * 4;
    var delta := ReadWord(data, base + offset);
    WordInPlace(data[..], was, base, index);
    WordSumsSnoc(ToWords(was), index);
    value := Add32(prev, delta);
    FromWordsSnoc(sums, value);
    AppendWord(data, base, 4 * index, value);
  }

  method AppendWord(data: array<byte>, base: nat, size: nat, value: u32)
    requires base + size + 4 <= data.Length
    modifies data
    ensures OnlyChanged(data, base + size, 4)
    ensures data[base..base + size + 4] == old(data[base..base + size]) + U32ToLe(value)
  {
    WriteWord(data, base + size, value);
    assert data[base..base + size] == old(data[base..base + size]);
    assert data[base..base + size + 4] == data[base..base + size] + data[base + size..base + size + 4];
  }

  method InverseDelta32InPlace(data: array<byte>, base: nat, size: nat)
    requires base + size <= data.Length
    modifies data
    ensures OnlyChanged(data, base, size)
    ensures data[base..base + size] == WordInverse(old(data[base..base + size]))
  {
    ghost var was := data[base..base + size];
    ghost var sums: seq<u32> := [];
    var prev: u32 := 0;
    for index := 0 to size / 4
      invariant OnlyChanged(data, base, size)
      invariant Summed(data, base, was, sums, index) && prev == LastWord(sums)
    {
      prev := SumWord(data, base, index, prev, was, sums);
      sums := sums + [prev];
    }
    WordInverseDone(data[base..base + size], was, sums);
  }

  lemma WordInverseDone(now: seq<byte>, was: seq<byte>, sums: seq<u32>)
    requires |now| == |was| && sums == WordSums(ToWords(was)[..|was| / 4])
    requires now[..4 * (|was| / 4)] == FromWords(sums)
    requires forall j :: 4 * (|was| / 4) <= j < |was| ==> now[j] == was[j]
    ensures now == WordInverse(was)
  {
    assert ToWords(was)[..|was| / 4] == ToWords(was);
    assert now == now[..4 * (|was| / 4)] + was[4 * (|was| / 4)..];
  }

  // ---------------------------------------------------------------- ungrouping along the cycles of the permutation

  method GroupInverseTarget(index: nat, words: nat, width: nat) returns (target: nat)
    requires 0 < words
    ensures target == if index >= Times(words, width) then index else TargetOf(index, words, width)
  {
    var headSize := words * width;
    TimesIsProduct(words, width);
    if index >= headSize { return index; }
    var lane := index / words;
    var row := index % words;
    target := row * width + lane;
    TargetOfIsCell(index, words, width);
  }

  /** The cells in `done` have given their byte away; every other cell still has its own. */
  ghost predicate Moved(now: seq<byte>, was: seq<byte>, from: seq<int>, done: set<int>)
    requires |now| == |was| == |from|
  {
    forall j :: 0 <= j < |was| ==>
      0 <= from[j] < |was| && now[j] == if from[j] in done then was[from[j]] else was[j]
  }

  /** Complete cycles only: a cell was moved exactly when the cell it came from was. */
  ghost predicate Closed(from: seq<int>, done: set<int>) {
    forall j :: 0 <= j < |from| ==> (j in done <==> from[j] in done)
  }

  /** As Closed, but for the cycle from `start` that is open at `cur`. */
  ghost predicate OpenAt(from: seq<int>, done: set<int>, start: nat, cur: nat)
    requires start < |from| && cur < |from|
  {
    && (forall j :: 0 <= j < |from| && j != start && j != cur ==> (j in done <==> from[j] in done))
    && cur !in done
    && (cur == start ==> from[cur] !in done)
    && (cur != start ==> start in done && from[start] !in done && from[cur] in done)
  }

  lemma {:induction false} CellsFinite(done: set<int>, n: nat)
    requires forall i :: i in done ==> 0 <= i < n
    ensures |done| <= n
  {
    if n == 0 {
      assert forall i :: i !in done;
    } else {
      CellsFinite(done - {n - 1}, n - 1);
    }
  }

  lemma WalkStep(now: seq<byte>, was: seq<byte>, to: seq<int>, from: seq<int>, done: set<int>, start: nat, cur: nat)
    requires |now| == |was| == |from| && Inverse(to, from)
    requires start < |from| && cur < |from| && to[start] != start
    requires Moved(now, was, from, done) && OpenAt(from, done, start, cur)
    ensures now[to[cur]] == was[to[cur]]
    ensures Moved(now[to[cur] := was[cur]], was, from, done + {cur})
    ensures to[cur] != start ==> OpenAt(from, done + {cur}, start, to[cur])
    ensures to[cur] == start ==> Closed(from, done + {cur})
  {
    var next := to[cur];
    assert from[next] == cur;
    forall j | 0 <= j < |from| ensures from[j] == cur <==> j == next {
      assert to[from[j]] == j;
    }
  }

  lemma FixedPoint(now: seq<byte>, was: seq<byte>, to: seq<int>, from: seq<int>, done: set<int>, start: nat)
    requires |now| == |was| == |from| && Inverse(to, from)
    requires Moved(now, was, from, done) && Closed(from, done)
    requires start < |from| && start !in done && to[start] == start
    ensures Moved(now, was, from, done + {start}) && Closed(from, done + {start})
  {
    assert from[start] == start;
    forall j | 0 <= j < |from| ensures from[j] == start <==> j == start {
      assert to[from[j]] == j;
    }
  }

  /** Once every cell of the head is done, the walk has produced what copying to a second buffer would. */
  lemma MovedAll(now: seq<byte>, was: seq<byte>, to: seq<int>, from: seq<int>, width: nat, done: set<int>)
    requires |now| == |was| == |from| && 0 < width && Inverse(to, from)
    requires IsTargets(to, WordsOf(|was|, width), width)
    requires Moved(now, was, from, done)
    requires forall i :: 0 <= i < Times(WordsOf(|was|, width), width) ==> i in done
    ensures now == Ungroup(was, width)
  {
    var n := |was|;
    var head := Times(WordsOf(n, width), width);
    forall j | 0 <= j < n ensures now[j] == Ungroup(was, width)[j] {
      UngroupAt(was, width, to, from, j);
      if from[j] !in done {
        assert from[j] >= head;
        assert to[from[j]] == from[j];
      }
    }
  }

  /** Bitmap and ghost set agree on the first `n` cells, and nothing else is in the set. */
  ghost predicate Tracks(visit: VisitBitmap, n: nat, done: set<int>)
    requires n <= 8 * visit.bytes.Length
    reads visit.bytes
  {
    && (forall i :: i in done ==> 0 <= i < n)
    && (forall i :: 0 <= i < n ==> (visit.Marked(i) <==> i in done))
  }

  /** One move of the walk: the byte in hand goes to its cell, and that cell's byte is in hand next. */
  method MoveOne(data: array<byte>, base: nat, size: nat, words: nat, width: nat, visit: VisitBitmap, start: nat, cur: nat,
                 temp: byte, head: nat, ghost was: seq<byte>, ghost to: seq<int>, ghost from: seq<int>, ghost done: set<int>)
    returns (next: nat, saved: byte)
    requires base + size <= data.Length && visit.bytes as object != data
    requires |was| == |from| == size && Inverse(to, from) && IsTargets(to, words, width)
    requires head == Times(words, width) && start < head <= size && head <= 8 * visit.bytes.Length && to[start] != start
    requires forall k :: 0 <= k < head ==> 0 <= to[k] < head
    requires Tracks(visit, head, done) && cur < head && OpenAt(from, done, start, cur)
    requires Moved(data[base..base + size], was, from, done) && temp == was[cur]
    modifies data, visit.bytes
    ensures OnlyChanged(data, base, size)
    ensures Tracks(visit, head, done + {cur}) && Moved(data[base..base + size], was, from, done + {cur})
    ensures next < head && saved == was[next]
    ensures next != start ==> OpenAt(from, done + {cur}, start, next)
    ensures next == start ==> Closed(from, done + {cur})
  {
    visit.Set(cur);
    next := GroupInverseTarget(cur, words, width);
    ghost var before := data[base..base + size];
    WalkStep(before, was, to, from, done, start, cur);
    saved := data[base + next];
    assert before[next] == saved;
    data[base + next] := temp;
    assert data[base..base + size] == before[next := temp];
  }

  /** Move the bytes of the cycle through `start` by one place each. */
  method MoveCycle(data: array<byte>, base: nat, size: nat, words: nat, width: nat, visit: VisitBitmap, start: nat,
                   head: nat, ghost was: seq<byte>, ghost to: seq<int>, ghost from: seq<int>, ghost done0: set<int>)
    returns (ghost done: set<int>)
    requires base + size <= data.Length && visit.bytes as object != data
    requires |was| == |from| == size && Inverse(to, from) && IsTargets(to, words, width)
    requires head == Times(words, width) && start < head <= size && head <= 8 * visit.bytes.Length && to[start] != start
    requires forall k :: 0 <= k < head ==> 0 <= to[k] < head
    requires Tracks(visit, head, done0) && start !in done0
    requires Moved(data[base..base + size], was, from, done0) && Closed(from, done0)
    modifies data, visit.bytes
    ensures OnlyChanged(data, base, size)
    ensures Tracks(visit, head, done) && done0 + {start} <= done
    ensures Moved(data[base..base + size], was, from, done) && Closed(from, done)
  {
    done := done0;
    var temp := data[base + start];
    var cur: nat := start;
    assert data[base..base + size][start] == temp;
    while true
      invariant OnlyChanged(data, base, size)
      invariant Tracks(visit, head, done) && done0 <= done
      invariant cur < head && Moved(data[base..base + size], was, from, done)
      invariant temp == was[cur] && OpenAt(from, done, start, cur)
      decreases head - |done|
    {
      var next, saved := MoveOne(data, base, size, words, width, visit, start, cur, temp, head, was, to, from, done);
      temp := saved;
      done := done + {cur};
      CellsFinite(done, head);
      cur := next;
      if cur == start { break; }
    }
  }

  /** The part of the loop body for one start cell: skip it if seen, else settle its whole cycle. */
  method SettleCell(data: array<byte>, base: nat, size: nat, words: nat, width: nat, visit: VisitBitmap, start: nat,
                    head: nat, ghost was: seq<byte>, ghost to: seq<int>, ghost from: seq<int>, ghost done0: set<int>)
    returns (ghost done: set<int>)
    requires base + size <= data.Length && visit.bytes as object != data
    requires |was| == |from| == size && Inverse(to, from) && IsTargets(to, words, width)
    requires head == Times(words, width) && start < head <= size && head <= 8 * visit.bytes.Length
    requires forall k :: 0 <= k < head ==> 0 <= to[k] < head
    requires Tracks(visit, head, done0)
    requires Moved(data[base..base + size], was, from, done0) && Closed(from, done0)
    modifies data, visit.bytes
    ensures OnlyChanged(data, base, size)
    ensures Tracks(visit, head, done) && done0 + {start} <= done
    ensures Moved(data[base..base + size], was, from, done) && Closed(from, done)
  {
    done := done0;
    var seen := visit.Get(start);
    if seen { return; }
    var next := GroupInverseTarget(start, words, width);
    if next == start {
      visit.Set(start);
      FixedPoint(data[base..base + size], was, to, from, done, start);
      done := done + {start};
      return;
    }
    done := MoveCycle(data, base, size, words, width, visit, start, head, was, to, from, done);
  }

  method InverseGroupInPlace(data: array<byte>, base: nat, size: nat, width: nat, visit: VisitBitmap)
    requires base + size <= data.Length && 0 < width && visit.bytes as object != data
    requires visit.bytes.Length == VISIT_BITMAP_BYTES && size <= 8 * VISIT_BITMAP_BYTES
    modifies data, visit.bytes
    ensures OnlyChanged(data, base, size)
    ensures data[base..base + size] == Ungroup(old(data[base..base + size]), width)
  {
    var words, headSize := GroupShape(size, width);
    ghost var was := data[base..base + size];
    if words == 0 || headSize == 0 {
      NothingToUngroup(was, width);
      return;
    }
    ghost var to, from := GroupMaps(size, width, words);
    ghost var done: set<int> := {};
    visit.Clear(headSize);
    for start := 0 to headSize
      invariant OnlyChanged(data, base, size)
      invariant Moved(data[base..base + size], was, from, done) && Closed(from, done)
      invariant Tracks(visit, headSize, done)
      invariant forall i :: 0 <= i < start ==> i in done
    {
      done := SettleCell(data, base, size, words, width, visit, start, headSize, was, to, from, done);
    }
    MovedAll(data[base..base + size], was, to, from, width, done);
  }
}
