/** What every operation keeps, what it does to the files, and so what holds in every reachable state. */
module Fat32Runs {
  import opened Bytes
  import opened Fat32Spec
  import opened Fat32Tree
  import opened Fat32Safety
  import opened Fat32Alloc
  import opened Fat32Names
  import opened Fat32Ops

  // ---------------------------------------------------------------------------
  // The invariant
  // ---------------------------------------------------------------------------

  /** An open descriptor agrees with the entry it was opened on. */
  ghost predicate FdOk(fs: Fs, fd: Descriptor) {
    fd.inUse ==>
      && Listed(fs, fd.dir, fd.index) && !IsDir(Slot(fs, fd.dir, fd.index))
      && First(Slot(fs, fd.dir, fd.index)) == fd.first && Size(Slot(fs, fd.dir, fd.index)) == fd.size
      && fd.position <= fd.size && fd.capacity <= RoomOf(fs, fd.first)
      && (fd.first != 0 ==> fs.vol.bpc <= fd.capacity)
  }

  /** No file is open twice. */
  ghost predicate Apart(fds: seq<Descriptor>) {
    forall f, g | 0 <= f < g < |fds| && fds[f].inUse && fds[g].inUse :: (fds[f].dir, fds[f].index) != (fds[g].dir, fds[g].index)
  }

  ghost predicate FdsOk(s: Sys) {
    && |s.fds| == MAX_OPEN_FILES && Apart(s.fds)
    && forall f | 0 <= f < |s.fds| :: FdOk(s.fs, s.fds[f])
  }

  /** The invariant of the driver. */
  ghost predicate SysOk(s: Sys) {
    SysOkAt(s, 3)
  }

  /** The depth only keeps the definition out of proofs that do not need it. */
  ghost predicate SysOkAt(s: Sys, depth: nat)
    decreases depth, s
  {
    if depth == 0 then FsOk(s.fs) && FdsOk(s) && (s.cur == 0 || s.cur in s.fs.dirs) else SysOkAt(s, depth - 1)
  }

  lemma SysMeaning(s: Sys)
    ensures SysOk(s) <==> FsOk(s.fs) && FdsOk(s) && (s.cur == 0 || s.cur in s.fs.dirs)
  {
    assert SysOkAt(s, 3) == SysOkAt(s, 2) == SysOkAt(s, 1) == SysOkAt(s, 0);
  }

  function SlotAt(fd: Descriptor): (nat, nat) {
    (fd.dir, fd.index)
  }

  /** The bytes of the file a descriptor is open on. */
  ghost function BytesOf(s: Sys, f: nat): seq<byte>
    requires f < |s.fds|
  {
    Contents(s.fs, s.fds[f].first, s.fds[f].size)
  }

  lemma OpenFile(s: Sys, f: nat)
    requires SysOk(s) && IsOpen(s, f)
    ensures var fd := s.fds[f];
      && FsOk(s.fs) && FdOk(s.fs, fd)
      && SlotAt(fd) in Tree(s.fs) && Tree(s.fs)[SlotAt(fd)].File?
      && Tree(s.fs)[SlotAt(fd)] == ItemOf(s.fs, Slot(s.fs, fd.dir, fd.index))
      && Tree(s.fs)[SlotAt(fd)].bytes == BytesOf(s, f) && |BytesOf(s, f)| == fd.size
      && InDisk(s.fs, fd.dir, fd.index) && HasSlot(s.fs, fd.dir, fd.index) && fd.position <= fd.size < TOP
      && (fd.first == 0 ==> fd.size == 0)
      && (fd.first != 0 ==> fd.first in s.fs.chains && fd.first !in s.fs.dirs && OwnsFile(s.fs, fd.dir, fd.index, fd.first))
  {
    var fd := s.fds[f];
    SysMeaning(s);
    assert FdOk(s.fs, fd);
    FsMeaning(s.fs);
    TreeMeaning(s.fs);
    DirCluster(s.fs, fd.dir);
    assert EntryOk(s.fs, Slot(s.fs, fd.dir, fd.index));
    if fd.first != 0 {
      ChainWithin(s.fs, fd.first);
    }
  }

  // ---------------------------------------------------------------------------
  // Descriptors through a change
  // ---------------------------------------------------------------------------

  lemma RoomKept(fs: Fs, gs: Fs, first: nat)
    requires VolumeOk(fs) && VolumeOk(gs) && fs.vol.bpc == gs.vol.bpc
    requires first in fs.chains ==> first in gs.chains && |fs.chains[first]| <= |gs.chains[first]|
    ensures RoomOf(fs, first) <= RoomOf(gs, first)
  {
    if first in fs.chains {
      ChainWithin(fs, first);
      ChainWithin(gs, first);
      MulMonotone(|fs.chains[first]|, |gs.chains[first]|, fs.vol.bpc);
    }
  }

  lemma FdsKept(s: Sys, gs: Fs)
    requires SysOk(s) && FsOk(gs) && SameDirs(s.fs, gs)
    requires forall a | a in s.fs.chains :: a in gs.chains && |s.fs.chains[a]| <= |gs.chains[a]|
    ensures SysOk(s.(fs := gs))
  {
    SysMeaning(s);
    SysMeaning(s.(fs := gs));
    ShapedOk(s.fs);
    ShapedOk(gs);
    forall f | 0 <= f < |s.fds| ensures FdOk(gs, s.fds[f]) {
      assert FdOk(s.fs, s.fds[f]);
      RoomKept(s.fs, gs, s.fds[f].first);
    }
  }

  /** The descriptor moved to another state that agrees with its entry. */
  lemma FdReplaced(s: Sys, f: nat, fd: Descriptor)
    requires SysOk(s) && IsOpen(s, f) && FdOk(s.fs, fd) && fd.inUse && SlotAt(fd) == SlotAt(s.fds[f])
    ensures SysOk(s.(fds := s.fds[f := fd]))
  {
    SysMeaning(s);
    SysMeaning(s.(fds := s.fds[f := fd]));
  }

  /** The entry and the descriptor revised together. */
  function Revised(s: Sys, f: nat, e: Entry, fd: Descriptor): Sys
    requires f < |s.fds| && InDisk(s.fs, s.fds[f].dir, s.fds[f].index)
  {
    s.(fs := Rewritten(s.fs, s.fds[f].dir, s.fds[f].index, e), fds := s.fds[f := fd])
  }

  ghost predicate Agrees(fs: Fs, e: Entry, fd: Descriptor) {
    && fd.inUse && First(e) == fd.first && Size(e) == fd.size && fd.position <= fd.size
    && fd.capacity <= RoomOf(fs, fd.first) && (fd.first != 0 ==> fs.vol.bpc <= fd.capacity)
  }

  lemma OtherFdKept(fs: Fs, gs: Fs, d: nat, i: nat, e: Entry, fd: Descriptor)
    requires FdOk(fs, fd) && (fd.inUse ==> SlotAt(fd) != (d, i))
    requires fd.inUse ==> ListedAs(fs, gs, d, i, e, fd.dir, fd.index)
    requires gs.chains == fs.chains && gs.vol.bpc == fs.vol.bpc && VolumeOk(fs) && VolumeOk(gs)
    ensures FdOk(gs, fd)
  {
    RoomKept(fs, gs, fd.first);
  }

  lemma RevisedFds(s: Sys, gs: Fs, f: nat, e: Entry, fd: Descriptor)
    requires SysOk(s) && IsOpen(s, f) && Agrees(s.fs, e, fd) && SlotAt(fd) == SlotAt(s.fds[f]) && !IsDir(e)
    requires gs.chains == s.fs.chains && gs.vol.bpc == s.fs.vol.bpc && VolumeOk(gs)
    requires forall x, y :: ListedAs(s.fs, gs, fd.dir, fd.index, e, x, y)
    ensures FdsOk(s.(fs := gs, fds := s.fds[f := fd]))
  {
    SysMeaning(s);
    ShapedOk(s.fs);
    RoomKept(s.fs, gs, fd.first);
    assert FdOk(s.fs, s.fds[f]);
    assert ListedAs(s.fs, gs, fd.dir, fd.index, e, fd.dir, fd.index);
    var fds := s.fds[f := fd];
    forall g | 0 <= g < |fds| ensures FdOk(gs, fds[g]) {
      if g != f {
        assert FdOk(s.fs, s.fds[g]);
        assert ListedAs(s.fs, gs, fd.dir, fd.index, e, fds[g].dir, fds[g].index);
        OtherFdKept(s.fs, gs, fd.dir, fd.index, e, fds[g]);
      }
    }
  }

  lemma RevisedKeeps(s: Sys, f: nat, e: Entry, fd: Descriptor)
    requires SysOk(s) && IsOpen(s, f) && InDisk(s.fs, s.fds[f].dir, s.fds[f].index)
    requires Listed(s.fs, s.fds[f].dir, s.fds[f].index) && Revises(s.fs, s.fds[f].dir, s.fds[f].index, e)
    requires Agrees(s.fs, e, fd) && SlotAt(fd) == SlotAt(s.fds[f])
    ensures var t := Revised(s, f, e, fd);
      && SysOk(t) && TopBitsKept(s.fs.vol, t.fs.vol)
      && Tree(t.fs) == Tree(s.fs)[SlotAt(fd) := ItemOf(s.fs, e)]
  {
    var t := Revised(s, f, e, fd);
    SysMeaning(s);
    SysMeaning(t);
    FsMeaning(s.fs);
    EntryRevised(s.fs, fd.dir, fd.index, e);
    RewrittenSlots(s.fs, fd.dir, fd.index, e);
    RevisedListed(s.fs, t.fs, fd.dir, fd.index, e);
    RevisedFds(s, t.fs, f, e, fd);
  }

  // ---------------------------------------------------------------------------
  // Write: the first cluster
  // ---------------------------------------------------------------------------

  lemma FreshFds(s: Sys)
    requires SysOk(s) && Next(s.fs) != 0
    ensures SysOk(s.(fs := Fresh(s.fs)))
  {
    SysMeaning(s);
    FreshKeeps(s.fs);
    FdsKept(s, Fresh(s.fs));
  }

  /** The entry that takes a first cluster, and the descriptor that goes with it. */
  lemma AdoptedEntry(s: Sys, f: nat, c: nat)
    requires SysOk(s) && IsOpen(s, f) && s.fds[f].first == 0 && Loose(s.fs, c) && s.fs.chains[c] == [c] && c < TOP
    requires Listed(s.fs, s.fds[f].dir, s.fds[f].index)
    ensures var fd := s.fds[f];
      var old_ := Slot(s.fs, fd.dir, fd.index);
      var e := WithFirst(old_, c);
      && Revises(s.fs, fd.dir, fd.index, e) && ItemOf(s.fs, e) == ItemOf(s.fs, old_)
      && Agrees(s.fs, e, fd.(first := c, capacity := s.fs.vol.bpc))
  {
    var fd := s.fds[f];
    OpenFile(s, f);
    FirstWritten(Slot(s.fs, fd.dir, fd.index), c);
    NoChainAtZero(s.fs);
    ShapedOk(s.fs);
    ChainWithin(s.fs, c);
  }

  lemma AdoptedOn(s: Sys, f: nat, c: nat)
    requires SysOk(s) && IsOpen(s, f) && s.fds[f].first == 0 && Loose(s.fs, c) && s.fs.chains[c] == [c] && c < TOP
    ensures InDisk(s.fs, s.fds[f].dir, s.fds[f].index)
    ensures var fd := s.fds[f];
      var t := Revised(s, f, WithFirst(Slot(s.fs, fd.dir, fd.index), c), fd.(first := c, capacity := s.fs.vol.bpc));
      SysOk(t) && Tree(t.fs) == Tree(s.fs) && TopBitsKept(s.fs.vol, t.fs.vol)
  {
    var fd := s.fds[f];
    OpenFile(s, f);
    AdoptedEntry(s, f, c);
    RevisedKeeps(s, f, WithFirst(Slot(s.fs, fd.dir, fd.index), c), fd.(first := c, capacity := s.fs.vol.bpc));
    assert Tree(s.fs)[SlotAt(fd) := ItemOf(s.fs, Slot(s.fs, fd.dir, fd.index))] == Tree(s.fs);
  }

  lemma AdoptedRevised(s: Sys, f: nat)
    requires SysOk(s) && IsOpen(s, f) && s.fds[f].first == 0 && Next(s.fs) != 0
    ensures var t, r := Adopted(s, f), s.(fs := Fresh(s.fs));
      SysOk(t) && Tree(t.fs) == Tree(r.fs) && TopBitsKept(r.fs.vol, t.fs.vol) && Table(t.fs.vol) == Table(r.fs.vol)
  {
    SysMeaning(s);
    FreshKeeps(s.fs);
    FreshFds(s);
    ShapedOk(s.fs);
    AdoptedOn(s.(fs := Fresh(s.fs)), f, Next(s.fs));
  }

  /** A file without clusters gets one; its contents stay empty. */
  lemma AdoptedKeeps(s: Sys, f: nat)
    requires SysOk(s) && IsOpen(s, f) && s.fds[f].first == 0 && Next(s.fs) != 0
    ensures var t := Adopted(s, f);
      && SysOk(t) && Tree(t.fs) == Tree(s.fs) && TopBitsKept(s.fs.vol, t.fs.vol)
      && FreeOf(t.fs) == FreeOf(s.fs) - 1 && t.fs.vol.bpc == s.fs.vol.bpc
  {
    var g := Fresh(s.fs);
    SysMeaning(s);
    FreshKeeps(s.fs);
    AdoptedRevised(s, f);
    TopBitsTransitive(s.fs.vol, g.vol, Adopted(s, f).fs.vol);
  }

  lemma NoChainAtZero(fs: Fs)
    requires FsOk(fs)
    ensures 0 !in fs.chains
  {
    FsMeaning(fs);
    forall a | a in fs.chains ensures a != 0 {
      ChainWithin(fs, a);
    }
  }

  // ---------------------------------------------------------------------------
  // Write: growing and filling
  // ---------------------------------------------------------------------------

  lemma GrownFds(s: Sys, f: nat, add: nat)
    requires SysOk(s) && IsOpen(s, f) && s.fds[f].first != 0
    ensures var g := Grown(s.fs, s.fds[f].first, add);
      SysOk(s.(fs := g)) && GrewBy(s.fs, g, s.fds[f].first, Min(add, FreeOf(s.fs)))
  {
    OpenFile(s, f);
    GrownKeeps(s.fs, s.fds[f].first, add);
    FdsKept(s, Grown(s.fs, s.fds[f].first, add));
  }

  lemma PouredVolume(fs: Fs, first: nat, pos: nat, buf: seq<byte>)
    requires FsOk(fs) && first in fs.chains && first !in fs.dirs && pos + |buf| <= RoomOf(fs, first)
    ensures pos + |buf| <= |Stream(fs.vol, fs.chains[first])|
    ensures var g, p := Poured(fs, first, pos, buf), fs.chains[first];
      && g == fs.(vol := g.vol) && g.vol.fats == fs.vol.fats && g.vol.bpc == fs.vol.bpc && Shaped(g.vol)
      && (forall c: nat | c !in p :: Cluster(g.vol, c) == Cluster(fs.vol, c))
      && Stream(g.vol, p) == Overwritten(Stream(fs.vol, p), pos, buf)
  {
    FsMeaning(fs);
    ChainWithin(fs, first);
    var p := fs.chains[first];
    SpreadMeaning(fs.vol, p, Overwritten(Stream(fs.vol, p), pos, buf));
  }

  /** Writing over the bytes of a chain changes the one file that owns it. */
  lemma PouredTree(fs: Fs, first: nat, pos: nat, buf: seq<byte>, d: nat, i: nat)
    requires FsOk(fs) && first in fs.chains && first !in fs.dirs && pos + |buf| <= RoomOf(fs, first)
    requires OwnsFile(fs, d, i, first)
    ensures var g := Poured(fs, first, pos, buf);
      && FsOk(g) && SameDirs(fs, g) && g.chains == fs.chains && TopBitsKept(fs.vol, g.vol)
      && Tree(g) == Tree(fs)[(d, i) := ItemOf(g, Slot(fs, d, i))]
  {
    PouredVolume(fs, first, pos, buf);
    var g := Poured(fs, first, pos, buf);
    FileOverwritten(fs, g, first);
    ListedSame(fs, g);
    FsMeaning(fs);
    TreeMeaning(fs);
    TreeMeaning(g);
    forall x | x in Tree(g) && x != (d, i) ensures Tree(g)[x] == Tree(fs)[x] {
      assert !OwnsFile(fs, x.0, x.1, first);
    }
    assert Tree(g)[(d, i)] == ItemOf(g, Slot(fs, d, i));
  }

  lemma OverwrittenPrefix<T>(s: seq<T>, size: nat, pos: nat, buf: seq<T>, end: nat)
    requires pos <= size <= |s| && pos + |buf| <= |s| && end == if pos + |buf| > size then pos + |buf| else size
    ensures Overwritten(s, pos, buf)[..end] == Overwritten(s[..size], pos, buf)
  {
  }

  /** What the file holds after the bytes are in place and the size is brought up to date. */
  ghost predicate FileIs(s: Sys, t: Sys, f: nat, bytes: seq<byte>)
    requires f < |s.fds|
  {
    var x := SlotAt(s.fds[f]);
    x in Tree(s.fs) && Tree(t.fs) == Tree(s.fs)[x := File(Tree(s.fs)[x].name, Tree(s.fs)[x].attr, bytes)]
  }

  lemma PouredKeeps(s: Sys, f: nat, buf: seq<byte>)
    requires SysOk(s) && IsOpen(s, f) && s.fds[f].first != 0
    requires s.fds[f].position + |buf| <= RoomOf(s.fs, s.fds[f].first)
    ensures var fd := s.fds[f];
      var t := s.(fs := Poured(s.fs, fd.first, fd.position, buf));
      && SysOk(t) && TopBitsKept(s.fs.vol, t.fs.vol)
      && t.fs.chains == s.fs.chains && t.fs.vol.bpc == s.fs.vol.bpc
      && FileIs(s, t, f, Contents(t.fs, fd.first, fd.size))
  {
    OpenFile(s, f);
    var fd := s.fds[f];
    PouredTree(s.fs, fd.first, fd.position, buf, fd.dir, fd.index);
    FdsKept(s, Poured(s.fs, fd.first, fd.position, buf));
  }

  lemma PouredBytes(s: Sys, f: nat, buf: seq<byte>, size: nat)
    requires SysOk(s) && IsOpen(s, f) && s.fds[f].first != 0
    requires s.fds[f].position + |buf| <= RoomOf(s.fs, s.fds[f].first)
    requires size == if s.fds[f].position + |buf| > s.fds[f].size then s.fds[f].position + |buf| else s.fds[f].size
    ensures var fd := s.fds[f];
      && fd.position <= |BytesOf(s, f)|
      && Contents(Poured(s.fs, fd.first, fd.position, buf), fd.first, size) == Overwritten(BytesOf(s, f), fd.position, buf)
      && size <= RoomOf(s.fs, fd.first)
  {
    OpenFile(s, f);
    var fd := s.fds[f];
    FsMeaning(s.fs);
    ChainWithin(s.fs, fd.first);
    PouredVolume(s.fs, fd.first, fd.position, buf);
    EntryFits(s.fs, fd.dir, fd.index);
    OverwrittenPrefix(Stream(s.fs.vol, s.fs.chains[fd.first]), fd.size, fd.position, buf, size);
  }

  lemma GrownSize(s: Sys, f: nat, size: nat)
    requires SysOk(s) && IsOpen(s, f) && s.fds[f].first != 0 && size < TOP
    requires size <= RoomOf(s.fs, s.fds[f].first)
    ensures InDisk(s.fs, s.fds[f].dir, s.fds[f].index)
    ensures var fd := s.fds[f];
      var t := Revised(s, f, WithSize(Slot(s.fs, fd.dir, fd.index), size), fd.(position := size, size := size));
      && SysOk(t) && TopBitsKept(s.fs.vol, t.fs.vol)
      && FileIs(s, t, f, Contents(s.fs, fd.first, size))
  {
    OpenFile(s, f);
    var fd := s.fds[f];
    ShapedOk(s.fs);
    ChainWithin(s.fs, fd.first);
    var e := WithSize(Slot(s.fs, fd.dir, fd.index), size);
    SizeWritten(Slot(s.fs, fd.dir, fd.index), size);
    RevisedKeeps(s, f, e, fd.(position := size, size := size));
  }

  /** Once the chain is long enough, the bytes go into the file and into no other. */
  lemma FilledKeeps(s: Sys, f: nat, buf: seq<byte>)
    requires SysOk(s) && IsOpen(s, f) && s.fds[f].first != 0 && s.fds[f].position + |buf| < TOP
    requires s.fds[f].position + |buf| <= RoomOf(s.fs, s.fds[f].first)
    ensures var t := Filled(s, f, buf);
      && SysOk(t) && TopBitsKept(s.fs.vol, t.fs.vol) && s.fds[f].position <= |BytesOf(s, f)|
      && FileIs(s, t, f, Overwritten(BytesOf(s, f), s.fds[f].position, buf))
  {
    var fd := s.fds[f];
    var end := fd.position + |buf|;
    var size := if end > fd.size then end else fd.size;
    PouredKeeps(s, f, buf);
    PouredBytes(s, f, buf, size);
    var m := s.(fs := Poured(s.fs, fd.first, fd.position, buf));
    if end > fd.size {
      GrownSize(m, f, end);
      TopBitsTransitive(s.fs.vol, m.fs.vol, Filled(s, f, buf).fs.vol);
      FileIsTwice(s, m, Filled(s, f, buf), f, Contents(m.fs, fd.first, fd.size), Contents(m.fs, fd.first, end));
    } else {
      OpenFile(m, f);
      FdReplaced(m, f, fd.(position := end));
    }
  }

  lemma FileIsTwice(s: Sys, m: Sys, t: Sys, f: nat, a: seq<byte>, b: seq<byte>)
    requires f < |s.fds| && m.fds == s.fds && FileIs(s, m, f, a) && FileIs(m, t, f, b)
    ensures FileIs(s, t, f, b)
  {
  }

  // ---------------------------------------------------------------------------
  // Write
  // ---------------------------------------------------------------------------

  lemma EnoughClusters(cap: nat, end: nat, bpc: nat)
    requires bpc > 0
    ensures end <= cap + Times(Needed(cap, end, bpc), bpc)
  {
    if end > cap {
      ClustersCover(end - cap, bpc);
    }
  }

  lemma MulSum(a: nat, b: nat, k: nat)
    ensures (a + b) * k == a * k + b * k
  {
  }

  lemma LongerRoom(fs: Fs, gs: Fs, first: nat, n: nat)
    requires VolumeOk(fs) && VolumeOk(gs) && fs.vol.bpc == gs.vol.bpc && Longer(fs.chains, gs.chains, first, n)
    ensures RoomOf(gs, first) == RoomOf(fs, first) + Times(n, fs.vol.bpc)
  {
    ChainWithin(fs, first);
    ChainWithin(gs, first);
    TimesIsProduct(n, fs.vol.bpc);
    MulSum(|fs.chains[first]|, n, fs.vol.bpc);
  }

  /** Whether a write to a file with a chain goes through. */
  ghost predicate Fits(s: Sys, f: nat, buf: seq<byte>)
    requires f < |s.fds|
  {
    var end := s.fds[f].position + |buf|;
    end < TOP && Needed(s.fds[f].capacity, end, s.fs.vol.bpc) <= FreeOf(s.fs)
  }

  /** The descriptor after a write that did or did not go through. */
  ghost predicate Advanced(fd: Descriptor, fd': Descriptor, n: nat) {
    && fd'.inUse == fd.inUse && SlotAt(fd') == SlotAt(fd) && fd'.flags == fd.flags && fd'.attr == fd.attr
    && fd'.position == fd.position + n
    && fd'.size == if fd.position + n > fd.size then fd.position + n else fd.size
  }

  /** Every other descriptor is as it was. */
  ghost predicate OnlyFd(s: Sys, t: Sys, f: nat)
    requires f < |s.fds|
  {
    |t.fds| == |s.fds| && t.cur == s.cur && t.fds == s.fds[f := t.fds[f]]
  }

  ghost predicate WriteDone(s: Sys, t: Sys, f: nat, buf: seq<byte>)
    requires f < |s.fds|
  {
    && SysOk(t) && TopBitsKept(s.fs.vol, t.fs.vol) && OnlyFd(s, t, f)
    && Advanced(s.fds[f], t.fds[f], |buf|)
    && s.fds[f].position <= |BytesOf(s, f)|
    && FileIs(s, t, f, Overwritten(BytesOf(s, f), s.fds[f].position, buf))
  }

  ghost predicate WriteFailed(s: Sys, t: Sys, f: nat)
    requires f < |s.fds|
  {
    && SysOk(t) && TopBitsKept(s.fs.vol, t.fs.vol) && OnlyFd(s, t, f)
    && Advanced(s.fds[f], t.fds[f], 0) && Tree(t.fs) == Tree(s.fs)
  }

  lemma EnlargedRoom(fs: Fs, fd: Descriptor, end: nat, need: nat)
    requires FsOk(fs) && fd.first in fs.chains && fd.capacity <= RoomOf(fs, fd.first)
    requires need == Needed(fd.capacity, end, fs.vol.bpc) && need <= FreeOf(fs)
    ensures end <= fd.capacity + Times(need, fs.vol.bpc) <= RoomOf(Grown(fs, fd.first, need), fd.first)
  {
    var g := Grown(fs, fd.first, need);
    GrownKeeps(fs, fd.first, need);
    ShapedOk(fs);
    ShapedOk(g);
    EnoughClusters(fd.capacity, end, fs.vol.bpc);
    LongerRoom(fs, g, fd.first, need);
  }

  lemma GrownSteady(s: Sys, f: nat, add: nat)
    requires SysOk(s) && IsOpen(s, f) && s.fds[f].first != 0
    ensures var g := Grown(s.fs, s.fds[f].first, add);
      SysOk(s.(fs := g)) && Steady(s.fs, g)
  {
    GrownFds(s, f, add);
  }

  /** With enough free clusters the chain grows to hold the write, and no file changes. */
  lemma EnlargedKeeps(s: Sys, f: nat, buf: seq<byte>, need: nat)
    requires SysOk(s) && IsOpen(s, f) && s.fds[f].first != 0
    requires need == Needed(s.fds[f].capacity, s.fds[f].position + |buf|, s.fs.vol.bpc) && need <= FreeOf(s.fs)
    ensures var t := Enlarged(s, f, need);
      && SysOk(t) && Steady(s.fs, t.fs) && s.fds[f].position + |buf| <= RoomOf(t.fs, s.fds[f].first)
  {
    var fd := s.fds[f];
    GrownSteady(s, f, need);
    OpenRoom(s, f);
    EnlargedRoom(s.fs, fd, fd.position + |buf|, need);
    CapacityRaised(s.(fs := Grown(s.fs, fd.first, need)), f, fd.capacity + Times(need, s.fs.vol.bpc));
  }

  lemma OpenRoom(s: Sys, f: nat)
    requires SysOk(s) && IsOpen(s, f) && s.fds[f].first != 0
    ensures FsOk(s.fs) && s.fds[f].first in s.fs.chains && s.fds[f].capacity <= RoomOf(s.fs, s.fds[f].first)
  {
    OpenFile(s, f);
  }

  lemma CapacityRaised(s: Sys, f: nat, cap: nat)
    requires SysOk(s) && IsOpen(s, f) && s.fds[f].capacity <= cap <= RoomOf(s.fs, s.fds[f].first)
    ensures SysOk(s.(fds := s.fds[f := s.fds[f].(capacity := cap)]))
  {
    OpenFile(s, f);
    FdReplaced(s, f, s.fds[f].(capacity := cap));
  }

  /** The bytes of an open file are what the tree holds at its slot. */
  lemma SteadyBytes(s: Sys, t: Sys, f: nat)
    requires SysOk(s) && SysOk(t) && IsOpen(s, f) && IsOpen(t, f) && SlotAt(s.fds[f]) == SlotAt(t.fds[f])
    requires Tree(t.fs) == Tree(s.fs)
    ensures BytesOf(t, f) == BytesOf(s, f)
  {
    OpenFile(s, f);
    OpenFile(t, f);
  }

  lemma WrittenDone(s: Sys, f: nat, buf: seq<byte>)
    requires SysOk(s) && IsOpen(s, f) && s.fds[f].first != 0 && Fits(s, f, buf) && buf != []
    ensures var (t, r) := WrittenOn(s, f, buf);
      r == |buf| && WriteDone(s, t, f, buf)
  {
    var fd := s.fds[f];
    var need := Needed(fd.capacity, fd.position + |buf|, s.fs.vol.bpc);
    var m := Enlarged(s, f, need);
    EnlargedKeeps(s, f, buf, need);
    SteadyBytes(s, m, f);
    FilledKeeps(m, f, buf);
    TopBitsTransitive(s.fs.vol, m.fs.vol, Filled(m, f, buf).fs.vol);
  }

  lemma FailedAs(s: Sys, g: Fs, f: nat)
    requires SysOk(s) && IsOpen(s, f) && SysOk(s.(fs := g)) && TopBitsKept(s.fs.vol, g.vol) && Tree(g) == Tree(s.fs)
    ensures WriteFailed(s, s.(fs := g), f)
  {
    assert s.fds[f := s.fds[f]] == s.fds;
    OpenFile(s, f);
  }

  lemma WrittenFailed(s: Sys, f: nat, buf: seq<byte>)
    requires SysOk(s) && IsOpen(s, f) && s.fds[f].first != 0 && !Fits(s, f, buf)
    ensures var (t, r) := WrittenOn(s, f, buf);
      r == -1 && WriteFailed(s, t, f)
  {
    var fd := s.fds[f];
    if fd.position + |buf| < TOP {
      var need := Needed(fd.capacity, fd.position + |buf|, s.fs.vol.bpc);
      GrownFds(s, f, need);
      FailedAs(s, Grown(s.fs, fd.first, need), f);
    } else {
      FailedAs(s, s.fs, f);
    }
  }

  /** The exact condition for a write of at least one byte: the size fits 32 bits and the clusters suffice. */
  ghost predicate Goes(s: Sys, f: nat, buf: seq<byte>)
    requires f < |s.fds|
  {
    var fd, bpc := s.fds[f], s.fs.vol.bpc;
    var end := fd.position + |buf|;
    && end < TOP
    && (if fd.first != 0 then Needed(fd.capacity, end, bpc) else 1 + Needed(bpc, end, bpc)) <= FreeOf(s.fs)
  }

  /**
   * A write overwrites or extends exactly the bytes from the position on, of that file alone; or,
   * when it does not fit, it changes no file.
   */
  lemma WriteMeaning(s: Sys, f: nat, buf: seq<byte>, count: nat)
    requires SysOk(s) && IsOpen(s, f) && WriteFlags(s.fds[f].flags) && 0 < |buf| == count % TOP
    ensures var (t, r) := Written(s, f, buf, count);
      if Goes(s, f, buf) then r == |buf| && WriteDone(s, t, f, buf) else r == -1 && WriteFailed(s, t, f)
  {
    if s.fds[f].first != 0 {
      if Fits(s, f, buf) {
        WrittenDone(s, f, buf);
      } else {
        WrittenFailed(s, f, buf);
      }
    } else {
      NextMeaning(s.fs);
      if Next(s.fs) == 0 {
        FailedAs(s, s.fs, f);
      } else {
        WriteMeaningFirst(s, f, buf);
      }
    }
  }

  lemma WriteMeaningFirst(s: Sys, f: nat, buf: seq<byte>)
    requires SysOk(s) && IsOpen(s, f) && s.fds[f].first == 0 && Next(s.fs) != 0 && 0 < |buf| < TOP
    ensures var (t, r) := WrittenOn(Adopted(s, f), f, buf);
      if Goes(s, f, buf) then r == |buf| && WriteDone(s, t, f, buf) else r == -1 && WriteFailed(s, t, f)
  {
    AdoptedKeeps(s, f);
    OpenFile(s, f);
    var m := Adopted(s, f);
    SteadyBytes(s, m, f);
    assert m.fds[f].first != 0 && SlotAt(m.fds[f]) == SlotAt(s.fds[f]);
    assert Fits(m, f, buf) <==> Goes(s, f, buf);
    var (t, r) := WrittenOn(m, f, buf);
    if Fits(m, f, buf) {
      WrittenDone(m, f, buf);
    } else {
      WrittenFailed(m, f, buf);
    }
    TopBitsTransitive(s.fs.vol, m.fs.vol, t.fs.vol);
    assert t.fds == s.fds[f := t.fds[f]];
  }

  lemma PouredNone(fs: Fs, first: nat, pos: nat)
    requires FsOk(fs)
    ensures Poured(fs, first, pos, []) == fs
  {
    if first in fs.chains && pos <= |Stream(fs.vol, fs.chains[first])| {
      var p := fs.chains[first];
      FsMeaning(fs);
      ChainWithin(fs, first);
      OverwrittenNone(Stream(fs.vol, p), pos);
      SpreadUnique(fs.vol, fs.vol, p);
    }
  }

  lemma FilledNone(s: Sys, f: nat)
    requires SysOk(s) && IsOpen(s, f)
    ensures Filled(s, f, []) == s
  {
    OpenFile(s, f);
    var fd := s.fds[f];
    PouredNone(s.fs, fd.first, fd.position);
    assert s.fds[f := fd.(position := fd.position + 0)] == s.fds;
  }

  lemma NothingOn(s: Sys, f: nat)
    requires SysOk(s) && IsOpen(s, f) && s.fds[f].first != 0
    ensures var (t, r) := WrittenOn(s, f, []);
      (r == 0 || r == -1) && WriteFailed(s, t, f)
  {
    if Fits(s, f, []) {
      var fd := s.fds[f];
      var need := Needed(fd.capacity, fd.position, s.fs.vol.bpc);
      EnlargedKeeps(s, f, [], need);
      FilledNone(Enlarged(s, f, need), f);
      OpenFile(s, f);
    } else {
      WrittenFailed(s, f, []);
    }
  }

  /** A write of a multiple of 2^32 bytes changes no file and moves no position, whether it reports success or failure. */
  lemma WriteOfNothing(s: Sys, f: nat, count: nat)
    requires SysOk(s) && IsOpen(s, f) && WriteFlags(s.fds[f].flags) && 0 < count && count % TOP == 0
    ensures var (t, r) := Written(s, f, [], count);
      (r == 0 || r == -1) && WriteFailed(s, t, f)
  {
    if s.fds[f].first != 0 {
      NothingOn(s, f);
    } else {
      NextMeaning(s.fs);
      if Next(s.fs) == 0 {
        FailedAs(s, s.fs, f);
      } else {
        AdoptedKeeps(s, f);
        var m := Adopted(s, f);
        assert m.fds[f].first != 0 && SlotAt(m.fds[f]) == SlotAt(s.fds[f]);
        NothingOn(m, f);
        OpenFile(s, f);
        var (t, r) := WrittenOn(m, f, []);
        TopBitsTransitive(s.fs.vol, m.fs.vol, t.fs.vol);
        assert t.fds == s.fds[f := t.fds[f]];
      }
    }
  }

  // ---------------------------------------------------------------------------
  // Read
  // ---------------------------------------------------------------------------

  /** A read moves the position only, and never past the end. */
  lemma ReadKeeps(s: Sys, f: nat, count: nat)
    requires SysOk(s) && IsOpen(s, f)
    ensures var (t, n) := ReadFrom(s, f, count);
      && SysOk(t) && t.fs == s.fs && OnlyFd(s, t, f) && Advanced(s.fds[f], t.fds[f], n)
      && 0 <= n <= count && s.fds[f].position + n <= |BytesOf(s, f)|
      && (n < count % TOP ==> s.fds[f].position + n == |BytesOf(s, f)|)
  {
    OpenFile(s, f);
    var fd := s.fds[f];
    FdReplaced(s, f, fd.(position := fd.position + ReadCount(fd, count)));
  }

  /** A read gives all that is asked for and there exactly when the count is below 2^32 or its low 32 bits reach the end. */
  lemma ReadLength(s: Sys, f: nat, count: nat)
    requires SysOk(s) && IsOpen(s, f)
    ensures var rest := |BytesOf(s, f)| - s.fds[f].position;
      0 <= rest && (ReadFrom(s, f, count).1 == Min(count, rest) <==> count < TOP || rest <= count % TOP)
  {
    OpenFile(s, f);
  }

  /** So a read of 2^32 bytes reads nothing, wherever it stands. */
  lemma ReadOfTop(s: Sys, f: nat)
    requires SysOk(s) && IsOpen(s, f)
    ensures ReadFrom(s, f, TOP) == (s, 0)
  {
    var fd := s.fds[f];
    assert s.fds[f := fd.(position := fd.position + ReadCount(fd, TOP))] == s.fds;
  }

  /** Any descriptor on the written file reads from the new bytes afterwards, across any cluster boundary. */
  lemma ReadAfterWrite(s: Sys, f: nat, buf: seq<byte>, count: nat, u: Sys, g: nat)
    requires SysOk(s) && IsOpen(s, f) && WriteFlags(s.fds[f].flags) && 0 < |buf| == count % TOP && Goes(s, f, buf)
    requires SysOk(u) && u.fs == Written(s, f, buf, count).0.fs && IsOpen(u, g) && SlotAt(u.fds[g]) == SlotAt(s.fds[f])
    ensures s.fds[f].position <= |BytesOf(s, f)|
    ensures BytesOf(u, g) == Overwritten(BytesOf(s, f), s.fds[f].position, buf)
  {
    WriteMeaning(s, f, buf, count);
    OpenFile(u, g);
  }
}
