/** Loading the PT_LOAD segments of an ELF image page by page. */
module ElfLoader {
  import opened Bytes

  const PAGE_SIZE: nat := 4096
  const WRAP: nat := 0x1_0000_0000_0000_0000
  /** Signed 64-bit page arithmetic is exact below this. */
  const LIMIT: nat := 0x4000_0000_0000_0000
  const USER_VIRTUAL_BASE: nat := 0x6000_0000

  const ELF_OK: int := 0
  const ELF_ERR_IO: int := -1
  const ELF_ERR_NOMEM: int := -7
  const ELF_ERR_MAP: int := -8

  /** A segment at its biased address. */
  datatype Segment = Segment(vaddr: nat, offset: nat, filesz: nat, memsz: nat, writable: bool)

  datatype Page = Page(frame: nat, writable: bool)

  /** The segment lies inside the file and its arithmetic does not overflow. */
  predicate InFile(seg: Segment, data: seq<byte>) {
    seg.filesz <= seg.memsz && seg.offset + seg.filesz <= |data| && seg.vaddr + seg.memsz < LIMIT
  }

  predicate AllInFile(segs: seq<Segment>, data: seq<byte>) {
    forall k :: 0 <= k < |segs| ==> InFile(segs[k], data)
  }

  function FirstPage(seg: Segment): nat {
    seg.vaddr / PAGE_SIZE
  }

  /** One past the last page; an empty segment has no pages. */
  function EndPage(seg: Segment): nat {
    if seg.memsz == 0 then FirstPage(seg) else (seg.vaddr + seg.memsz + PAGE_SIZE - 1) / PAGE_SIZE
  }

  predicate Touches(seg: Segment, page: nat) {
    FirstPage(seg) <= page < EndPage(seg)
  }

  // ----- The image, byte by byte -----

  predicate HasFileByte(seg: Segment, v: nat) {
    seg.vaddr <= v < seg.vaddr + seg.filesz
  }

  /** What address v holds: the file byte of the last segment that has one there, or zero. */
  function ByteAt(segs: seq<Segment>, data: seq<byte>, v: nat): byte
    requires AllInFile(segs, data)
  {
    if segs == [] then 0
    else
      var seg := segs[|segs| - 1];
      if HasFileByte(seg, v) then data[seg.offset + v - seg.vaddr] else ByteAt(segs[..|segs| - 1], data, v)
  }

  // ----- The image, page by page -----

  function Zeros(): (z: seq<byte>)
    ensures |z| == PAGE_SIZE
  {
    seq(PAGE_SIZE, _ => 0)
  }

  /** Where in the page the file bytes of a segment start and end. */
  function CopyStart(seg: Segment, page: nat): nat {
    if seg.vaddr <= page * PAGE_SIZE then 0 else Min(seg.vaddr - page * PAGE_SIZE, PAGE_SIZE)
  }

  function CopyEnd(seg: Segment, page: nat): nat {
    if seg.vaddr + seg.filesz <= page * PAGE_SIZE then 0 else Min(seg.vaddr + seg.filesz - page * PAGE_SIZE, PAGE_SIZE)
  }

  function Overlay(s: seq<byte>, seg: Segment, data: seq<byte>, page: nat): (r: seq<byte>)
    requires |s| == PAGE_SIZE && InFile(seg, data)
    ensures |r| == PAGE_SIZE
  {
    var lo, hi := CopyStart(seg, page), CopyEnd(seg, page);
    if lo >= hi then s
    else
      var from := seg.offset + page * PAGE_SIZE + lo - seg.vaddr;
      s[..lo] + data[from..from + (hi - lo)] + s[hi..]
  }

  function PageImage(segs: seq<Segment>, data: seq<byte>, page: nat): (r: seq<byte>)
    requires AllInFile(segs, data)
    ensures |r| == PAGE_SIZE
  {
    if segs == [] then Zeros() else Overlay(PageImage(segs[..|segs| - 1], data, page), segs[|segs| - 1], data, page)
  }

  lemma OverlayAt(s: seq<byte>, seg: Segment, data: seq<byte>, page: nat, i: nat)
    requires |s| == PAGE_SIZE && InFile(seg, data) && i < PAGE_SIZE
    ensures var v := page * PAGE_SIZE + i;
      Overlay(s, seg, data, page)[i] == if HasFileByte(seg, v) then data[seg.offset + v - seg.vaddr] else s[i]
  {
  }

  ghost predicate Agrees(segs: seq<Segment>, data: seq<byte>, page: nat, i: nat)
    requires AllInFile(segs, data) && i < PAGE_SIZE
  {
    PageImage(segs, data, page)[i] == ByteAt(segs, data, page * PAGE_SIZE + i)
  }

  lemma AgreesStep(segs: seq<Segment>, seg: Segment, data: seq<byte>, page: nat, i: nat)
    requires AllInFile(segs, data) && InFile(seg, data) && i < PAGE_SIZE && Agrees(segs, data, page, i)
    ensures AllInFile(segs + [seg], data) && Agrees(segs + [seg], data, page, i)
  {
    OverlayAt(PageImage(segs, data, page), seg, data, page, i);
    assert (segs + [seg])[..|segs|] == segs;
  }

  /** The page-wise copies realise the byte-wise image. */
  lemma {:induction false} PageImageAt(segs: seq<Segment>, data: seq<byte>, page: nat, i: nat)
    requires AllInFile(segs, data) && i < PAGE_SIZE
    ensures Agrees(segs, data, page, i)
  {
    if segs != [] {
      var n := |segs| - 1;
      PageImageAt(segs[..n], data, page, i);
      AgreesStep(segs[..n], segs[n], data, page, i);
      assert segs == segs[..n] + [segs[n]];
    }
  }

  lemma UntouchedOverlay(s: seq<byte>, seg: Segment, data: seq<byte>, page: nat)
    requires |s| == PAGE_SIZE && InFile(seg, data) && !Touches(seg, page)
    ensures Overlay(s, seg, data, page) == s
  {
  }

  lemma {:induction false} UntouchedPage(segs: seq<Segment>, data: seq<byte>, page: nat)
    requires AllInFile(segs, data) && forall k :: 0 <= k < |segs| ==> !Touches(segs[k], page)
    ensures PageImage(segs, data, page) == Zeros()
  {
    if segs != [] {
      var n := |segs| - 1;
      UntouchedPage(segs[..n], data, page);
      UntouchedOverlay(PageImage(segs[..n], data, page), segs[n], data, page);
    }
  }

  // ----- What the image promises for segments that do not overlap -----

  predicate Disjoint(a: Segment, b: Segment) {
    a.vaddr + a.memsz <= b.vaddr || b.vaddr + b.memsz <= a.vaddr
  }

  /** Every address of a segment holds its own file byte, or zero past the file bytes. */
  lemma {:induction false} SegmentBytes(segs: seq<Segment>, data: seq<byte>, k: nat, v: nat)
    requires AllInFile(segs, data) && k < |segs| && segs[k].vaddr <= v < segs[k].vaddr + segs[k].memsz
    requires forall i, j :: 0 <= i < j < |segs| ==> Disjoint(segs[i], segs[j])
    ensures ByteAt(segs, data, v) == if HasFileByte(segs[k], v) then data[segs[k].offset + v - segs[k].vaddr] else 0
  {
    var n := |segs| - 1;
    if k == n {
      if !HasFileByte(segs[n], v) { NoOtherBytes(segs[..n], data, v); }
    } else {
      assert Disjoint(segs[k], segs[n]);
      SegmentBytes(segs[..n], data, k, v);
    }
  }

  lemma {:induction false} NoOtherBytes(segs: seq<Segment>, data: seq<byte>, v: nat)
    requires AllInFile(segs, data) && forall k :: 0 <= k < |segs| ==> !HasFileByte(segs[k], v)
    ensures ByteAt(segs, data, v) == 0
  {
    if segs != [] { NoOtherBytes(segs[..|segs| - 1], data, v); }
  }

  ghost predicate TouchedBy(segs: seq<Segment>, page: nat) {
    exists k :: 0 <= k < |segs| && Touches(segs[k], page)
  }

  ghost predicate WrittenBy(segs: seq<Segment>, page: nat) {
    exists k :: 0 <= k < |segs| && Touches(segs[k], page) && segs[k].writable
  }

  lemma Extended(segs: seq<Segment>, seg: Segment, data: seq<byte>, page: nat)
    requires AllInFile(segs, data) && InFile(seg, data)
    ensures AllInFile(segs + [seg], data)
    ensures TouchedBy(segs + [seg], page) <==> TouchedBy(segs, page) || Touches(seg, page)
    ensures WrittenBy(segs + [seg], page) <==> WrittenBy(segs, page) || (Touches(seg, page) && seg.writable)
    ensures PageImage(segs + [seg], data, page) == Overlay(PageImage(segs, data, page), seg, data, page)
    ensures !Touches(seg, page) ==> PageImage(segs + [seg], data, page) == PageImage(segs, data, page)
  {
    var all := segs + [seg];
    assert all[..|segs|] == segs && all[|segs|] == seg;
    assert forall k :: 0 <= k < |segs| ==> all[k] == segs[k];
    if !Touches(seg, page) { UntouchedOverlay(PageImage(segs, data, page), seg, data, page); }
  }

  // ----- Program headers -----

  datatype ProgramHeader = ProgramHeader(load: bool, vaddr: nat, offset: nat, filesz: nat, memsz: nat, writable: bool)

  function Biased(ph: ProgramHeader, bias: nat): Segment {
    Segment((ph.vaddr + bias) % WRAP, ph.offset, ph.filesz, ph.memsz, ph.writable)
  }

  predicate NoOverflow(ph: ProgramHeader, bias: nat) {
    ph.filesz <= ph.memsz && ph.offset + ph.filesz < WRAP && (ph.vaddr + bias) % WRAP + ph.memsz < LIMIT
  }

  /** The loadable segments at their final addresses, in header order. */
  function Loads(phdrs: seq<ProgramHeader>, bias: nat): seq<Segment> {
    if phdrs == [] then []
    else
      var before, last := Loads(phdrs[..|phdrs| - 1], bias), phdrs[|phdrs| - 1];
      if last.load then before + [Biased(last, bias)] else before
  }

  /** The running lowest and highest mapped addresses; a base of zero means none yet. */
  function Extent(extent: (nat, nat), seg: Segment): (nat, nat) {
    if seg.memsz == 0 then extent
    else
      var start, end := FirstPage(seg) * PAGE_SIZE, EndPage(seg) * PAGE_SIZE;
      (if extent.0 == 0 || start < extent.0 then start else extent.0, if end > extent.1 then end else extent.1)
  }

  function Extents(segs: seq<Segment>): (nat, nat) {
    if segs == [] then (0, 0) else Extent(Extents(segs[..|segs| - 1]), segs[|segs| - 1])
  }

  function Start(seg: Segment): nat {
    FirstPage(seg) * PAGE_SIZE
  }

  /** The end is above every mapped page. */
  lemma {:induction false} EndAboveAll(segs: seq<Segment>, k: nat)
    requires k < |segs| && segs[k].memsz > 0
    ensures EndPage(segs[k]) * PAGE_SIZE <= Extents(segs).1
  {
    if k < |segs| - 1 { EndAboveAll(segs[..|segs| - 1], k); }
  }

  /** Some segment starts on page zero, but the last non-empty one does not. */
  ghost predicate ForgetsZero(segs: seq<Segment>) {
    if segs == [] then false
    else
      var before, last := segs[..|segs| - 1], segs[|segs| - 1];
      if last.memsz == 0 then ForgetsZero(before) else Start(last) != 0 && StartsAtZero(before)
  }

  ghost predicate StartsAtZero(segs: seq<Segment>) {
    exists k :: 0 <= k < |segs| && segs[k].memsz > 0 && Start(segs[k]) == 0
  }

  ghost predicate BaseBelowAll(segs: seq<Segment>) {
    forall k :: 0 <= k < |segs| && segs[k].memsz > 0 ==> Extents(segs).0 <= Start(segs[k])
  }

  lemma BaseIsZero(segs: seq<Segment>)
    requires BaseBelowAll(segs) && StartsAtZero(segs)
    ensures Extents(segs).0 == 0
  {
  }

  /**
    The base is below every mapped page unless a page-zero start was forgotten: zero also stands for "none yet", so
    the next segment replaces it.
   */
  lemma {:induction false} BaseExact(segs: seq<Segment>)
    ensures BaseBelowAll(segs) <==> !ForgetsZero(segs)
    ensures Extents(segs).0 == 0 ==> forall k :: 0 <= k < |segs| && segs[k].memsz > 0 ==> Start(segs[k]) == 0 || StartsAtZero(segs)
  {
    if segs != [] {
      var n := |segs| - 1;
      var before, last := segs[..n], segs[n];
      BaseExact(before);
      assert forall k :: 0 <= k < n ==> segs[k] == before[k];
      if last.memsz > 0 && Start(last) != 0 && StartsAtZero(before) {
        var z :| 0 <= z < n && before[z].memsz > 0 && Start(before[z]) == 0;
        assert segs[z].memsz > 0 && Start(segs[z]) == 0;
        if BaseBelowAll(before) { BaseIsZero(before); }
        assert Extents(segs).0 > 0;
      } else if last.memsz > 0 && Start(last) == 0 {
        assert Extents(segs).0 == 0;
      } else if last.memsz > 0 {
        assert BaseBelowAll(before) by { NeverForgets(before); }
      } else {
        assert Extents(segs) == Extents(before);
        assert BaseBelowAll(segs) <==> BaseBelowAll(before);
      }
    }
  }

  /** An image of two segments, on page zero and on page one: the base ends up at page one. */
  lemma ZeroForgotten(size: nat)
    requires 0 < size <= PAGE_SIZE
    ensures var segs := [Segment(0, 0, 0, size, false), Segment(PAGE_SIZE, 0, 0, size, false)];
      ForgetsZero(segs) && Extents(segs).0 == PAGE_SIZE && !BaseBelowAll(segs)
  {
    var low, high := Segment(0, 0, 0, size, false), Segment(PAGE_SIZE, 0, 0, size, false);
    var segs := [low, high];
    assert segs[..1] == [low] && [low][..0] == [];
    assert Extents([low]) == Extent(Extents([]), low);
    assert Start(segs[0]) == 0 && Start(high) == PAGE_SIZE;
    assert [low][0] == low;
  }

  lemma {:induction false} NeverForgets(segs: seq<Segment>)
    requires !StartsAtZero(segs)
    ensures !ForgetsZero(segs)
  {
    if segs != [] {
      var before := segs[..|segs| - 1];
      assert forall k :: 0 <= k < |before| ==> segs[k] == before[k];
      NeverForgets(before);
    }
  }

  // ----- The loader -----

  class AddressSpace {
    /** Page number to frame; frames are numbered in allocation order. */
    var table: map<nat, Page>
    var frames: seq<seq<byte>>
    /** Frames the allocator can still hand out. */
    var free: nat

    ghost predicate Valid()
      reads this
    {
      && (forall k :: 0 <= k < |frames| ==> |frames[k]| == PAGE_SIZE)
      && (forall p :: p in table ==> table[p].frame < |frames|)
      && (forall p, q :: p in table && q in table && p != q ==> table[p].frame != table[q].frame)
    }

    ghost function Contents(page: nat): (s: seq<byte>)
      reads this
      requires Valid() && page in table
      ensures |s| == PAGE_SIZE
    {
      frames[table[page].frame]
    }

    /** Maps the page, zero-filled, unless it is already mapped; write permission is only ever added. */
    method EnsurePage(page: nat, writable: bool, canMap: bool) returns (err: int)
      requires Valid()
      modifies this
      ensures Valid()
      ensures err == ELF_OK ==> table.Keys == old(table.Keys) + {page}
      ensures err == ELF_OK ==> table[page].writable == (writable || (page in old(table) && old(table)[page].writable))
      ensures err == ELF_OK ==> Contents(page) == if page in old(table) then old(Contents(page)) else Zeros()
      ensures err == ELF_OK ==>
        forall p :: p in old(table) && p != page ==> Contents(p) == old(Contents(p)) && table[p].writable == old(table)[p].writable
    {
      if page in table {
        table := table[page := table[page].(writable := table[page].writable || writable)];
      } else {
        if free == 0 { return ELF_ERR_NOMEM; }
        free := free - 1;
        if !canMap {
          free := free + 1;
          return ELF_ERR_MAP;
        }
        table := table[page := Page(|frames|, writable)];
        frames := frames + [Zeros()];
      }
      return ELF_OK;
    }

    /** Overwrites part of one mapped page; no other page changes. */
    method CopyIn(page: nat, start: nat, bytes: seq<byte>)
      requires Valid() && page in table && start + |bytes| <= PAGE_SIZE
      modifies this`frames
      ensures Valid() && |frames| == |old(frames)|
      ensures Contents(page) == old(Contents(page))[..start] + bytes + old(Contents(page))[start + |bytes|..]
      ensures forall p :: p in table && p != page ==> Contents(p) == old(Contents(p))
    {
      var f := table[page].frame;
      frames := frames[f := frames[f][..start] + bytes + frames[f][start + |bytes|..]];
    }

    /** The file bytes of the segment that fall in this page. */
    method CopyPage(data: seq<byte>, seg: Segment, page: nat)
      requires Valid() && page in table && InFile(seg, data) && Touches(seg, page) && page * PAGE_SIZE < LIMIT
      modifies this`frames
      ensures Valid() && Contents(page) == Overlay(old(Contents(page)), seg, data, page)
      ensures forall p :: p in table && p != page ==> Contents(p) == old(Contents(p))
    {
      var segOffset := page * PAGE_SIZE - seg.vaddr;
      if segOffset < seg.filesz {
        var into := if segOffset < 0 then 0 else segOffset;
        var fileOff := seg.offset + into;
        var copyStart := if segOffset < 0 then -segOffset else 0;
        var copyCount := PAGE_SIZE - copyStart;
        var avail := seg.filesz - into;
        if copyCount > avail { copyCount := avail; }
        if fileOff + copyCount > |data| { copyCount := if fileOff < |data| then |data| - fileOff else 0; }
        if copyCount > 0 {
          CopyIn(page, copyStart, data[fileOff..fileOff + copyCount]);
        }
      }
    }
  
    /** The pages from `first` up to `page` show the segments with `seg` on top, all others without it. */
    ghost predicate ShowsUpTo(segs: seq<Segment>, seg: Segment, data: seq<byte>, page: nat)
      reads this
    {
      && Valid() && AllInFile(segs, data) && InFile(seg, data)
      && (forall p: nat :: p in table <==> TouchedBy(segs, p) || FirstPage(seg) <= p < page)
      && (forall p: nat :: p in table ==>
            && Contents(p) == (if FirstPage(seg) <= p < page then PageImage(segs + [seg], data, p) else PageImage(segs, data, p))
            && (table[p].writable <==> WrittenBy(segs, p) || (FirstPage(seg) <= p < page && seg.writable)))
    }

    /** The mapped pages are exactly those the segments touch, with exactly their bytes and permissions. */
    ghost predicate Shows(segs: seq<Segment>, data: seq<byte>)
      reads this
    {
      && Valid() && AllInFile(segs, data)
      && (forall p: nat :: p in table <==> TouchedBy(segs, p))
      && (forall p: nat :: p in table ==> Contents(p) == PageImage(segs, data, p) && (table[p].writable <==> WrittenBy(segs, p)))
    }

    /** Maps the page if need be and lays the segment's file bytes over it. */
    method FillPage(data: seq<byte>, seg: Segment, page: nat, canMap: bool) returns (err: int)
      requires Valid() && InFile(seg, data) && Touches(seg, page) && page * PAGE_SIZE < LIMIT
      modifies this
      ensures Valid()
      ensures err == ELF_OK ==> table.Keys == old(table.Keys) + {page}
      ensures err == ELF_OK ==> table[page].writable == (seg.writable || (page in old(table) && old(table)[page].writable))
      ensures err == ELF_OK ==>
        Contents(page) == Overlay(if page in old(table) then old(Contents(page)) else Zeros(), seg, data, page)
      ensures err == ELF_OK ==>
        forall p :: p in old(table) && p != page ==> Contents(p) == old(Contents(p)) && table[p].writable == old(table)[p].writable
    {
      err := EnsurePage(page, seg.writable, canMap);
      if err == ELF_OK { CopyPage(data, seg, page); }
    }

    method MapPage(data: seq<byte>, ghost segs: seq<Segment>, seg: Segment, page: nat, canMap: bool) returns (err: int)
      requires ShowsUpTo(segs, seg, data, page) && Touches(seg, page) && page * PAGE_SIZE < LIMIT
      modifies this
      ensures Valid() && (err == ELF_OK ==> ShowsUpTo(segs, seg, data, page + 1))
    {
      if page !in table { UntouchedPage(segs, data, page); }
      Extended(segs, seg, data, page);
      err := FillPage(data, seg, page, canMap);
    }

    lemma AllShown(segs: seq<Segment>, seg: Segment, data: seq<byte>)
      requires ShowsUpTo(segs, seg, data, EndPage(seg))
      ensures Shows(segs + [seg], data)
    {
      forall p: nat ensures TouchedBy(segs + [seg], p) <==> TouchedBy(segs, p) || Touches(seg, p) {
        Extended(segs, seg, data, p);
      }
      forall p: nat | p in table
        ensures Contents(p) == PageImage(segs + [seg], data, p) && (table[p].writable <==> WrittenBy(segs + [seg], p))
      {
        Extended(segs, seg, data, p);
      }
    }

    method MapSegment(data: seq<byte>, ghost segs: seq<Segment>, seg: Segment, canMap: nat -> bool) returns (err: int)
      requires Shows(segs, data) && InFile(seg, data)
      modifies this
      ensures Valid() && (err == ELF_OK ==> Shows(segs + [seg], data))
    {
      var page, end := FirstPage(seg), EndPage(seg);
      while page < end
        invariant FirstPage(seg) <= page <= end && ShowsUpTo(segs, seg, data, page)
      {
        err := MapPage(data, segs, seg, page, canMap(page));
        if err != ELF_OK { return; }
        page := page + 1;
      }
      AllShown(segs, seg, data);
      return ELF_OK;
    }

    /** After loading, every address of a segment is mapped, holds its file byte or zero, and is writable if asked. */
    lemma LoadedByte(segs: seq<Segment>, data: seq<byte>, k: nat, v: nat)
      requires Shows(segs, data) && k < |segs| && segs[k].vaddr <= v < segs[k].vaddr + segs[k].memsz
      requires forall i, j :: 0 <= i < j < |segs| ==> Disjoint(segs[i], segs[j])
      ensures v / PAGE_SIZE in table && (segs[k].writable ==> table[v / PAGE_SIZE].writable)
      ensures Contents(v / PAGE_SIZE)[v % PAGE_SIZE] ==
        if HasFileByte(segs[k], v) then data[segs[k].offset + v - segs[k].vaddr] else 0
    {
      assert Touches(segs[k], v / PAGE_SIZE);
      assert TouchedBy(segs, v / PAGE_SIZE);
      PageImageAt(segs, data, v / PAGE_SIZE, v % PAGE_SIZE);
      SegmentBytes(segs, data, k, v);
      assert v / PAGE_SIZE * PAGE_SIZE + v % PAGE_SIZE == v;
    }

    /** The PT_LOAD loop: on success the space shows exactly the image of the segments, in order. */
    method LoadSegments(data: seq<byte>, phdrs: seq<ProgramHeader>, bias: nat, canMap: nat -> bool) returns (err: int, extent: (nat, nat))
      requires Valid() && table == map[]
      requires forall k :: 0 <= k < |phdrs| && phdrs[k].load ==> NoOverflow(phdrs[k], bias)
      modifies this
      ensures Valid()
      ensures err == ELF_OK ==> Shows(Loads(phdrs, bias), data)
      ensures err == ELF_OK ==> extent == Extents(Loads(phdrs, bias))
    {
      extent := (0, 0);
      assert Shows([], data);
      for i := 0 to |phdrs|
        invariant Shows(Loads(phdrs[..i], bias), data) && extent == Extents(Loads(phdrs[..i], bias))
      {
        assert phdrs[..i + 1][..i] == phdrs[..i];
        if phdrs[i].load {
          if phdrs[i].offset + phdrs[i].filesz > |data| { return ELF_ERR_IO, extent; }
          var seg := Biased(phdrs[i], bias);
          err := MapSegment(data, Loads(phdrs[..i], bias), seg, canMap);
          if err != ELF_OK { return; }
          extent := Extent(extent, seg);
          assert (Loads(phdrs[..i], bias) + [seg])[..|Loads(phdrs[..i], bias)|] == Loads(phdrs[..i], bias);
        }
      }
      assert phdrs[..|phdrs|] == phdrs;
      err := ELF_OK;
    }
  }

  // ----- Load bias -----

  /** Page start of the lowest loadable segment, or the given start value. */
  function Lowest(phdrs: seq<ProgramHeader>): Option<nat> {
    if phdrs == [] then None
    else
      var before, last := Lowest(phdrs[..|phdrs| - 1]), phdrs[|phdrs| - 1];
      if !last.load || last.memsz == 0 then before
      else
        var start := last.vaddr - last.vaddr % PAGE_SIZE;
        if before.None? || start < before.value then Some(start) else before
  }

  /** The bias of a position-independent image; other images get none. */
  method ComputeLoadBias(dynamic: bool, phdrs: seq<ProgramHeader>) returns (bias: nat)
    requires forall k :: 0 <= k < |phdrs| ==> phdrs[k].vaddr < WRAP
    ensures bias < WRAP && (!dynamic || Lowest(phdrs).None? ==> bias == 0)
    ensures dynamic && Lowest(phdrs).Some? ==> (Lowest(phdrs).value + bias) % WRAP == USER_VIRTUAL_BASE
  {
    if !dynamic { return 0; }
    var min := WRAP - 1;
    for i := 0 to |phdrs|
      invariant 0 <= min < WRAP
      invariant min == if Lowest(phdrs[..i]).None? then WRAP - 1 else Lowest(phdrs[..i]).value
      invariant Lowest(phdrs[..i]).Some? ==> min <= WRAP - PAGE_SIZE
    {
      assert phdrs[..i + 1][..i] == phdrs[..i];
      if phdrs[i].load && phdrs[i].memsz != 0 {
        var start := phdrs[i].vaddr - phdrs[i].vaddr % PAGE_SIZE;
        if start < min { min := start; }
      }
    }
    assert phdrs[..|phdrs|] == phdrs;
    if min == WRAP - 1 { return 0; }
    return (USER_VIRTUAL_BASE + WRAP - min) % WRAP;
  }

  lemma {:induction false} LowestBelow(phdrs: seq<ProgramHeader>, k: nat)
    requires k < |phdrs| && phdrs[k].load && phdrs[k].memsz > 0
    ensures Lowest(phdrs).Some? && Lowest(phdrs).value <= phdrs[k].vaddr
  {
    if k < |phdrs| - 1 { LowestBelow(phdrs[..|phdrs| - 1], k); }
  }

  /** Biasing moves every segment by the same amount, to the user base and above, as long as the image fits. */
  lemma BiasMovesAll(phdrs: seq<ProgramHeader>, bias: nat, k: nat)
    requires k < |phdrs| && phdrs[k].load && phdrs[k].memsz > 0 && bias < WRAP && phdrs[k].vaddr < WRAP
    requires Lowest(phdrs).Some? && (Lowest(phdrs).value + bias) % WRAP == USER_VIRTUAL_BASE
    requires phdrs[k].vaddr - Lowest(phdrs).value < LIMIT
    ensures Biased(phdrs[k], bias).vaddr == USER_VIRTUAL_BASE + (phdrs[k].vaddr - Lowest(phdrs).value) >= USER_VIRTUAL_BASE
  {
    LowestBelow(phdrs, k);
    ShiftedBy(Lowest(phdrs).value + bias, phdrs[k].vaddr - Lowest(phdrs).value);
  }

  lemma ShiftedBy(x: nat, shift: nat)
    requires x % WRAP == USER_VIRTUAL_BASE && shift < LIMIT
    ensures (x + shift) % WRAP == USER_VIRTUAL_BASE + shift
  {
  }
}
