/** Opening and creating: path lookup on a sound file system, and what a new entry does to it. */
module Fat32Open {
  import opened Bytes
  import opened Fat32Spec
  import opened Fat32Tree
  import opened Fat32Safety
  import opened Fat32Alloc
  import opened Fat32Names
  import opened Fat32Ops
  import opened Fat32Runs

  // ---------------------------------------------------------------------------
  // Path lookup
  // ---------------------------------------------------------------------------

  lemma FindInDir(fs: Fs, d: nat, name: seq<byte>)
    requires FsOk(fs) && (d == 0 || d in fs.dirs) && Find(Cluster(fs.vol, d), name).Some?
    ensures var i := Find(Cluster(fs.vol, d), name).value;
      Listed(fs, d, i) && Name(Slot(fs, d, i)) == name && EntryOk(fs, Slot(fs, d, i)) && InDisk(fs, d, i)
  {
    FsMeaning(fs);
    FindMeaning(Cluster(fs.vol, d), name);
    var i := Find(Cluster(fs.vol, d), name).value;
    assert Listed(fs, d, i);
    DirCluster(fs, d);
  }

  lemma DescendDir(fs: Fs, d: nat, comp: seq<byte>)
    requires FsOk(fs) && (d == 0 || d in fs.dirs) && Descend(fs.vol, d, comp).Some?
    ensures Descend(fs.vol, d, comp).value == 0 || Descend(fs.vol, d, comp).value in fs.dirs
  {
    FindInDir(fs, d, Formatted(comp).value);
  }

  /** A path leads through directories only. */
  lemma {:induction false} SplitDir(fs: Fs, d: nat, path: seq<byte>, comp: seq<byte>)
    requires FsOk(fs) && (d == 0 || d in fs.dirs)
    ensures var r := Split(fs.vol, d, path, comp);
      r.Some? ==> r.value.0 == 0 || r.value.0 in fs.dirs
    decreases |path|
  {
    if path != [] {
      if path[0] != SLASH {
        SplitDir(fs, d, path[1..], comp + [path[0]]);
      } else if comp == [] {
        SplitDir(fs, d, path[1..], []);
      } else if Descend(fs.vol, d, comp).Some? {
        DescendDir(fs, d, comp);
        SplitDir(fs, Descend(fs.vol, d, comp).value, path[1..], []);
      }
    }
  }

  ghost predicate Starts(s: Sys) {
    FsOk(s.fs) && (s.cur == 0 || s.cur in s.fs.dirs)
  }

  lemma ResolveDir(s: Sys, path: seq<byte>)
    requires Starts(s)
    ensures var r := Resolve(s.fs.vol, s.fs.root, s.cur, path);
      r.Some? ==> r.value.0 == 0 || r.value.0 in s.fs.dirs
  {
    FsMeaning(s.fs);
    SplitDir(s.fs, StartOf(s.fs.root, s.cur, path), Rest(path), []);
  }

  /** Lookup finds listed entries only. */
  lemma SlotListed(s: Sys, path: seq<byte>)
    requires Starts(s) && SlotOf(s, path).Some?
    ensures var (d, i) := SlotOf(s, path).value;
      Listed(s.fs, d, i) && InDisk(s.fs, d, i)
  {
    ResolveDir(s, path);
    var r := Resolve(s.fs.vol, s.fs.root, s.cur, path);
    FindInDir(s.fs, r.value.0, Formatted(r.value.1).value);
  }

  // ---------------------------------------------------------------------------
  // Creating an entry
  // ---------------------------------------------------------------------------

  /** Clearing the new cluster after writing the entry comes to the same as before. */
  lemma CreateOrder(fs: Fs, d: nat, i: nat, e: Entry, c: nat)
    requires InDisk(fs, d, i) && c != d
    ensures InDisk(Zeroed(fs, c), d, i)
    ensures Zeroed(Rewritten(fs, d, i, e), c) == Rewritten(Zeroed(fs, c), d, i, e)
  {
    var x, y := Zeroed(Rewritten(fs, d, i, e), c), Rewritten(Zeroed(fs, c), d, i, e);
    assert x.vol.data == y.vol.data;
  }

  /** The slot, name and entry of a creation that goes through. */
  ghost predicate CreatesAt(fs: Fs, d: nat, comp: seq<byte>, i: nat) {
    && d in fs.dirs && Formatted(comp).Some? && 0 !in comp
    && Find(Cluster(fs.vol, d), Formatted(comp).value).None?
    && GapFrom(Cluster(fs.vol, d), 0) == Some(i) && Next(fs) != 0
  }

  lemma CreatedReady(fs: Fs, d: nat, comp: seq<byte>, i: nat)
    requires FsOk(fs) && CreatesAt(fs, d, comp, i)
    ensures Next(fs) < TOP && InDisk(Allocated(fs, Next(fs)), d, i) && d != Next(fs)
    ensures |Formatted(comp).value| == 11
    ensures Creates(Fresh(fs), d, i, NewEntry(Formatted(comp).value, CaseFlags(comp), Next(fs)))
    ensures InDisk(Fresh(fs), d, i) && Cluster(Fresh(fs).vol, d) == Cluster(fs.vol, d) && FsOk(Fresh(fs))
  {
    FreshKeeps(fs);
    ShapedOk(fs);
    DirCluster(fs, d);
    FormattedLength(comp);
    GapMeaning(Cluster(fs.vol, d), 0);
  }

  function CreatedFs(fs: Fs, d: nat, comp: seq<byte>, i: nat): Fs
    requires Formatted(comp).Some? && Next(fs) < TOP && InDisk(Fresh(fs), d, i)
  {
    FormattedLength(comp);
    Rewritten(Fresh(fs), d, i, NewEntry(Formatted(comp).value, CaseFlags(comp), Next(fs)))
  }

  lemma CreatedIs(fs: Fs, d: nat, comp: seq<byte>, i: nat)
    requires FsOk(fs) && CreatesAt(fs, d, comp, i)
    ensures Next(fs) < TOP && InDisk(Fresh(fs), d, i)
    ensures Created(fs, Some((d, comp))) == (CreatedFs(fs, d, comp, i), true)
  {
    CreatedReady(fs, d, comp, i);
    var e := NewEntry(Formatted(comp).value, CaseFlags(comp), Next(fs));
    CreateOrder(Allocated(fs, Next(fs)), d, i, e, Next(fs));
  }

  /** A creation either does nothing or fills the first gap with a new empty file. */
  lemma CreatedCases(fs: Fs, d: nat, comp: seq<byte>)
    requires FsOk(fs) && (d == 0 || d in fs.dirs) && 0 !in comp
    ensures var (gs, ok) := Created(fs, Some((d, comp)));
      && (!ok ==> gs == fs)
      && (ok ==> exists i :: CreatesAt(fs, d, comp, i))
  {
    var (gs, ok) := Created(fs, Some((d, comp)));
    if ok {
      var i := GapFrom(Cluster(fs.vol, d), 0).value;
      assert CreatesAt(fs, d, comp, i);
    }
  }

  /** The tree gains the file, unless its name starts with the byte that marks deleted entries. */
  lemma CreatedKeeps(fs: Fs, d: nat, comp: seq<byte>, i: nat)
    requires FsOk(fs) && CreatesAt(fs, d, comp, i)
    ensures Next(fs) < TOP && InDisk(Fresh(fs), d, i) && |Formatted(comp).value| == 11
    ensures var gs, name := CreatedFs(fs, d, comp, i), Formatted(comp).value;
      && FsOk(gs) && TopBitsKept(fs.vol, gs.vol) && (d, i) !in Tree(fs)
      && Tree(gs) == if name[0] == DELETED then Tree(fs) else Tree(fs)[(d, i) := File(name, ATTR_ARCHIVE, [])]
  {
    CreatedReady(fs, d, comp, i);
    FreshKeeps(fs);
    EntryCreated(Fresh(fs), d, i, NewEntry(Formatted(comp).value, CaseFlags(comp), Next(fs)));
    TopBitsTransitive(fs.vol, Fresh(fs).vol, CreatedFs(fs, d, comp, i).vol);
  }

  lemma CreatedFds(s: Sys, d: nat, comp: seq<byte>, i: nat)
    requires SysOk(s) && FsOk(s.fs) && CreatesAt(s.fs, d, comp, i)
    ensures Next(s.fs) < TOP && InDisk(Fresh(s.fs), d, i)
    ensures SysOk(s.(fs := CreatedFs(s.fs, d, comp, i)))
  {
    CreatedReady(s.fs, d, comp, i);
    CreatedKeeps(s.fs, d, comp, i);
    var r, gs := s.(fs := Fresh(s.fs)), CreatedFs(s.fs, d, comp, i);
    var e := NewEntry(Formatted(comp).value, CaseFlags(comp), Next(s.fs));
    FreshFds(s);
    SysMeaning(r);
    SysMeaning(s.(fs := gs));
    FsMeaning(r.fs);
    RewrittenSlots(r.fs, d, i, e);
    CreatedListed(r.fs, gs, d, i, e);
    forall f | 0 <= f < |s.fds| ensures FdOk(gs, s.fds[f]) {
      assert FdOk(r.fs, s.fds[f]);
      assert s.fds[f].inUse ==> ListedAs(r.fs, gs, d, i, e, s.fds[f].dir, s.fds[f].index);
      OtherFdKept(r.fs, gs, d, i, e, s.fds[f]);
    }
  }

  // ---------------------------------------------------------------------------
  // The path of a created file
  // ---------------------------------------------------------------------------

  lemma FindSame(b: seq<byte>, c: seq<byte>, name: seq<byte>)
    requires forall k: nat :: Matches(b, name, k) == Matches(c, name, k)
    ensures Find(b, name) == Find(c, name)
  {
    FindMeaning(b, name);
    FindMeaning(c, name);
  }

  /** What the searches see after an entry of a new name filled a gap. */
  ghost predicate Gained(fs: Fs, gs: Fs, d: nat, i: nat, name: seq<byte>) {
    && gs.dirs == fs.dirs && d in fs.dirs && name != [] && name[0] != DELETED
    && Listed(gs, d, i) && Name(Slot(gs, d, i)) == name && !Listed(fs, d, i)
    && forall x, y | !(x == d && y == i) ::
        && Listed(gs, x, y) == Listed(fs, x, y)
        && (Listed(fs, x, y) ==> Slot(gs, x, y) == Slot(fs, x, y))
  }

  lemma CreatedGained(fs: Fs, d: nat, comp: seq<byte>, i: nat)
    requires FsOk(fs) && CreatesAt(fs, d, comp, i) && Formatted(comp).value[..1] != [DELETED]
    ensures Next(fs) < TOP && InDisk(Fresh(fs), d, i)
    ensures Gained(fs, CreatedFs(fs, d, comp, i), d, i, Formatted(comp).value)
  {
    CreatedReady(fs, d, comp, i);
    FreshKeeps(fs);
    ListedSame(fs, Fresh(fs));
    var r, gs := Fresh(fs), CreatedFs(fs, d, comp, i);
    var e := NewEntry(Formatted(comp).value, CaseFlags(comp), Next(fs));
    FsMeaning(r);
    RewrittenSlots(r, d, i, e);
    CreatedListed(r, gs, d, i, e);
    assert Formatted(comp).value[..1] == [Formatted(comp).value[0]];
    forall x, y | !(x == d && y == i)
      ensures Listed(gs, x, y) == Listed(fs, x, y) && (Listed(fs, x, y) ==> Slot(gs, x, y) == Slot(fs, x, y))
    {
      assert ListedAs(r, gs, d, i, e, x, y);
    }
  }

  /** A name that was found before is found in the same place. */
  lemma FindStays(fs: Fs, gs: Fs, d: nat, i: nat, name: seq<byte>, x: nat, other: seq<byte>)
    requires Gained(fs, gs, d, i, name) && x in fs.dirs && (x == d ==> other != name)
    ensures Find(Cluster(gs.vol, x), other) == Find(Cluster(fs.vol, x), other)
  {
    var b, c := Cluster(fs.vol, x), Cluster(gs.vol, x);
    forall k: nat ensures Matches(b, other, k) == Matches(c, other, k) {
      assert Listed(fs, x, k) == Live(b, k) && Listed(gs, x, k) == Live(c, k);
      if !(x == d && k == i) {
        assert Listed(fs, x, k) ==> Slot(gs, x, k) == Slot(fs, x, k);
      }
    }
    FindSame(b, c, other);
  }

  /** The new name is found in its gap. */
  lemma FindGained(fs: Fs, gs: Fs, d: nat, i: nat, name: seq<byte>)
    requires Gained(fs, gs, d, i, name) && Find(Cluster(fs.vol, d), name).None?
    ensures Find(Cluster(gs.vol, d), name) == Some(i)
  {
    var b, c := Cluster(fs.vol, d), Cluster(gs.vol, d);
    FindMeaning(b, name);
    FindMeaning(c, name);
    assert Matches(c, name, i);
    forall k: nat | k != i ensures !Matches(c, name, k) {
      assert !Matches(b, name, k);
      assert Listed(fs, d, k) == Live(b, k) && Listed(gs, d, k) == Live(c, k);
      assert Listed(fs, d, k) ==> Slot(gs, d, k) == Slot(fs, d, k);
    }
  }

  lemma DescendStays(fs: Fs, gs: Fs, d: nat, i: nat, name: seq<byte>, x: nat, comp: seq<byte>)
    requires FsOk(fs) && Gained(fs, gs, d, i, name) && Find(Cluster(fs.vol, d), name).None?
    requires (x == 0 || x in fs.dirs) && Descend(fs.vol, x, comp).Some?
    ensures Descend(gs.vol, x, comp) == Descend(fs.vol, x, comp)
  {
    var other := Formatted(comp).value;
    FindInDir(fs, x, other);
    FindStays(fs, gs, d, i, name, x, other);
    var k := Find(Cluster(fs.vol, x), other).value;
    assert Slot(gs, x, k) == Slot(fs, x, k);
  }

  lemma {:induction false} SplitStays(fs: Fs, gs: Fs, d: nat, i: nat, name: seq<byte>, x: nat, path: seq<byte>, comp: seq<byte>)
    requires FsOk(fs) && Gained(fs, gs, d, i, name) && Find(Cluster(fs.vol, d), name).None?
    requires (x == 0 || x in fs.dirs) && Split(fs.vol, x, path, comp).Some?
    ensures Split(gs.vol, x, path, comp) == Split(fs.vol, x, path, comp)
    decreases |path|
  {
    if path != [] {
      if path[0] != SLASH {
        SplitStays(fs, gs, d, i, name, x, path[1..], comp + [path[0]]);
      } else if comp == [] {
        SplitStays(fs, gs, d, i, name, x, path[1..], []);
      } else {
        DescendStays(fs, gs, d, i, name, x, comp);
        DescendDir(fs, x, comp);
        SplitStays(fs, gs, d, i, name, Descend(fs.vol, x, comp).value, path[1..], []);
      }
    }
  }

  /** After a creation the path leads to the new entry. */
  lemma CreatedLocated(s: Sys, path: seq<byte>, gs: Fs, i: nat)
    requires Starts(s) && gs.root == s.fs.root
    requires var r := Resolve(s.fs.vol, s.fs.root, s.cur, path);
      && r.Some? && Formatted(r.value.1).Some?
      && Gained(s.fs, gs, r.value.0, i, Formatted(r.value.1).value)
      && Find(Cluster(s.fs.vol, r.value.0), Formatted(r.value.1).value).None?
    ensures SlotOf(s.(fs := gs), path) == Some((Resolve(s.fs.vol, s.fs.root, s.cur, path).value.0, i))
  {
    var r := Resolve(s.fs.vol, s.fs.root, s.cur, path);
    var name := Formatted(r.value.1).value;
    FsMeaning(s.fs);
    SplitStays(s.fs, gs, r.value.0, i, name, StartOf(s.fs.root, s.cur, path), Rest(path), []);
    FindGained(s.fs, gs, r.value.0, i, name);
  }

  // ---------------------------------------------------------------------------
  // Open
  // ---------------------------------------------------------------------------

  ghost predicate Unopened(s: Sys, x: (nat, nat)) {
    forall f | IsOpen(s, f) :: SlotAt(s.fds[f]) != x
  }

  lemma {:induction false} FreeFdMeaning(fds: seq<Descriptor>, i: nat)
    requires i <= |fds|
    ensures var f := FreeFd(fds, i);
      i <= f <= |fds| && (f < |fds| ==> !fds[f].inUse) && forall k | i <= k < f :: fds[k].inUse
    decreases |fds| - i
  {
    if i < |fds| && fds[i].inUse {
      FreeFdMeaning(fds, i + 1);
    }
  }

  lemma PlacedKeeps(s: Sys, f: nat, fd: Descriptor)
    requires SysOk(s) && f < |s.fds| && !s.fds[f].inUse && fd.inUse && FdOk(s.fs, fd) && Unopened(s, SlotAt(fd))
    ensures SysOk(s.(fds := s.fds[f := fd]))
  {
    SysMeaning(s);
    SysMeaning(s.(fds := s.fds[f := fd]));
    forall g | 0 <= g < |s.fds| && s.fds[g].inUse ensures SlotAt(s.fds[g]) != SlotAt(fd) {
      assert IsOpen(s, g);
    }
  }

  /** Whether an entry can be opened with these flags. */
  predicate Openable(e: Entry, flags: nat) {
    !IsDir(e) && !(WriteFlags(flags) && Attr(e) % 2 == 1)
  }

  function FdFor(fs: Fs, d: nat, i: nat, flags: nat, size: nat): Descriptor
    requires InDisk(fs, d, i)
  {
    var e := Slot(fs, d, i);
    Descriptor(true, First(e), size, if Has(flags, O_APPEND) then size else 0, RoomOf(fs, First(e)), d, i, Attr(e), flags)
  }

  lemma FdForOk(s: Sys, d: nat, i: nat, flags: nat)
    requires SysOk(s) && Listed(s.fs, d, i) && InDisk(s.fs, d, i) && !IsDir(Slot(s.fs, d, i))
    ensures FdOk(s.fs, FdFor(s.fs, d, i, flags, Size(Slot(s.fs, d, i))))
  {
    SysMeaning(s);
    FsMeaning(s.fs);
    var first := First(Slot(s.fs, d, i));
    assert EntryOk(s.fs, Slot(s.fs, d, i));
    if first != 0 {
      ChainWithin(s.fs, first);
      MulMonotone(1, |s.fs.chains[first]|, s.fs.vol.bpc);
    }
  }

  lemma CutKeeps(s: Sys, f: nat, fd: Descriptor)
    requires SysOk(s) && IsOpen(s, f) && fd == s.fds[f].(size := 0, position := 0)
    ensures InDisk(s.fs, fd.dir, fd.index)
    ensures var t := s.(fs := SetSize(s.fs, fd.dir, fd.index, 0), fds := s.fds[f := fd]);
      SysOk(t) && TopBitsKept(s.fs.vol, t.fs.vol) && FileIs(s, t, f, [])
  {
    OpenFile(s, f);
    var e := Slot(s.fs, fd.dir, fd.index);
    SizeWritten(e, 0);
    FsMeaning(s.fs);
    assert EntryOk(s.fs, e);
    RevisedKeeps(s, f, WithSize(e, 0), fd);
  }

  /** The file at the slot is as it was, or empty if it was to be cut. */
  ghost predicate CutAs(s: Fs, t: Fs, x: (nat, nat), cut: bool) {
    && x in Tree(s) && Tree(s)[x].File?
    && Tree(t) == if cut then Tree(s)[x := File(Tree(s)[x].name, Tree(s)[x].attr, [])] else Tree(s)
  }

  /** A descriptor just opened on slot `x`. */
  ghost predicate OpenedOn(s: Sys, t: Sys, r: int, x: (nat, nat), flags: nat) {
    && 0 <= r < |s.fds| && !s.fds[r].inUse && OnlyFd(s, t, r) && t.fds[r].inUse
    && SlotAt(t.fds[r]) == x && t.fds[r].flags == flags
    && t.fds[r].position == (if Has(flags, O_APPEND) then t.fds[r].size else 0)
    && CutAs(s.fs, t.fs, x, Has(flags, O_TRUNC))
  }

  lemma OpenedAtKeeps(s: Sys, d: nat, i: nat, flags: nat)
    requires SysOk(s) && Listed(s.fs, d, i) && InDisk(s.fs, d, i) && Unopened(s, (d, i))
    ensures var (t, r) := OpenedAt(s, d, i, flags);
      && SysOk(t) && TopBitsKept(s.fs.vol, t.fs.vol)
      && (if Openable(Slot(s.fs, d, i), flags) && FreeFd(s.fds, 0) < |s.fds| then OpenedOn(s, t, r, (d, i), flags)
          else r == -1 && t == s)
  {
    var e, f := Slot(s.fs, d, i), FreeFd(s.fds, 0);
    FreeFdMeaning(s.fds, 0);
    if Openable(e, flags) && f < |s.fds| {
      var fd := FdFor(s.fs, d, i, flags, Size(e));
      FdForOk(s, d, i, flags);
      PlacedKeeps(s, f, fd);
      var m := s.(fds := s.fds[f := fd]);
      OpenFile(m, f);
      if Has(flags, O_TRUNC) {
        CutKeeps(m, f, FdFor(s.fs, d, i, flags, 0));
        assert m.fds[f := FdFor(s.fs, d, i, flags, 0)] == s.fds[f := FdFor(s.fs, d, i, flags, 0)];
      }
    }
  }

  /** Opening a file that exists. */
  lemma OpenExisting(s: Sys, path: seq<byte>, flags: nat)
    requires SysOk(s) && SlotOf(s, path).Some? && Unopened(s, SlotOf(s, path).value)
    ensures var x := SlotOf(s, path).value;
      var (t, r) := Opened(s, path, flags);
      && Listed(s.fs, x.0, x.1) && SysOk(t) && TopBitsKept(s.fs.vol, t.fs.vol)
      && (if Openable(Slot(s.fs, x.0, x.1), flags) && FreeFd(s.fds, 0) < |s.fds| then OpenedOn(s, t, r, x, flags)
          else r == -1 && t == s)
  {
    SysMeaning(s);
    SlotListed(s, path);
    var (d, i) := SlotOf(s, path).value;
    OpenedAtKeeps(s, d, i, flags);
  }

  lemma NewUnopened(s: Sys, d: nat, i: nat)
    requires SysOk(s) && !Listed(s.fs, d, i)
    ensures Unopened(s, (d, i))
  {
    forall f | IsOpen(s, f) ensures SlotAt(s.fds[f]) != (d, i) {
      OpenFile(s, f);
    }
  }

  /** A file opened for reading only can be written to, as far as the volume has room. */
  lemma ReadOnlyWrites(s: Sys, path: seq<byte>, buf: seq<byte>)
    requires SysOk(s) && SlotOf(s, path).Some? && Unopened(s, SlotOf(s, path).value) && FreeFd(s.fds, 0) < |s.fds|
    requires var x := SlotOf(s, path).value; InDisk(s.fs, x.0, x.1) && Openable(Slot(s.fs, x.0, x.1), O_RDONLY)
    requires 0 < |buf| < TOP
    ensures var (t, r) := Opened(s, path, O_RDONLY);
      && IsOpen(t, r)
      && (Goes(t, r, buf) ==> Written(t, r, buf, |buf|).1 == |buf| && WriteDone(t, Written(t, r, buf, |buf|).0, r, buf))
  {
    OpenExisting(s, path, O_RDONLY);
    var (t, r) := Opened(s, path, O_RDONLY);
    WriteMeaning(t, r, buf, |buf|);
  }

  /** And a file with the read-only attribute cannot be opened even for reading. */
  lemma ReadOnlyRefused(s: Sys, path: seq<byte>)
    requires SysOk(s) && SlotOf(s, path).Some? && Unopened(s, SlotOf(s, path).value)
    requires var x := SlotOf(s, path).value; InDisk(s.fs, x.0, x.1) && Attr(Slot(s.fs, x.0, x.1)) % 2 == 1
    ensures Opened(s, path, O_RDONLY) == (s, -1)
  {
    OpenExisting(s, path, O_RDONLY);
  }

  /** Creating the file of a path that leads nowhere: what the open works on next. */
  lemma CreatedOpen(s: Sys, path: seq<byte>, d: nat, comp: seq<byte>, i: nat)
    requires SysOk(s) && FsOk(s.fs) && CreatesAt(s.fs, d, comp, i) && Formatted(comp).value[..1] != [DELETED]
    requires Resolve(s.fs.vol, s.fs.root, s.cur, path) == Some((d, comp))
    ensures Next(s.fs) < TOP && InDisk(Fresh(s.fs), d, i)
    ensures var m := s.(fs := CreatedFs(s.fs, d, comp, i));
      SysOk(m) && SlotOf(m, path) == Some((d, i)) && Listed(m.fs, d, i) && InDisk(m.fs, d, i)
  {
    CreatedFds(s, d, comp, i);
    CreatedGained(s.fs, d, comp, i);
    SysMeaning(s);
    var m := s.(fs := CreatedFs(s.fs, d, comp, i));
    CreatedLocated(s, path, m.fs, i);
    SysMeaning(m);
    SlotListed(m, path);
  }

  lemma CreatedUnopened(s: Sys, d: nat, comp: seq<byte>, i: nat)
    requires SysOk(s) && FsOk(s.fs) && CreatesAt(s.fs, d, comp, i)
    ensures Next(s.fs) < TOP && InDisk(Fresh(s.fs), d, i)
    ensures Unopened(s.(fs := CreatedFs(s.fs, d, comp, i)), (d, i))
  {
    CreatedKeeps(s.fs, d, comp, i);
    TreeMeaning(s.fs);
    NewUnopened(s, d, i);
    var m := s.(fs := CreatedFs(s.fs, d, comp, i));
    forall f | IsOpen(m, f) ensures SlotAt(m.fds[f]) != (d, i) {
      assert IsOpen(s, f);
    }
  }

  lemma CreatedAttr(fs: Fs, d: nat, comp: seq<byte>, i: nat)
    requires FsOk(fs) && CreatesAt(fs, d, comp, i)
    ensures Next(fs) < TOP && InDisk(Fresh(fs), d, i)
    ensures var g := CreatedFs(fs, d, comp, i);
      InDisk(g, d, i) && Attr(Slot(g, d, i)) == ATTR_ARCHIVE
  {
    CreatedReady(fs, d, comp, i);
    ShapedOk(Fresh(fs));
    RewrittenSlots(Fresh(fs), d, i, NewEntry(Formatted(comp).value, CaseFlags(comp), Next(fs)));
  }

  ghost predicate CreatesOn(s: Sys, path: seq<byte>, flags: nat, d: nat, comp: seq<byte>, i: nat) {
    && SysOk(s) && FsOk(s.fs) && SlotOf(s, path).None? && Has(flags, O_CREAT)
    && Resolve(s.fs.vol, s.fs.root, s.cur, path) == Some((d, comp)) && CreatesAt(s.fs, d, comp, i)
  }

  /** Creating the file and then looking it up leads to its new slot. */
  lemma OpenNewIs(s: Sys, path: seq<byte>, flags: nat, d: nat, comp: seq<byte>, i: nat)
    requires CreatesOn(s, path, flags, d, comp, i) && Formatted(comp).value[..1] != [DELETED]
    ensures Next(s.fs) < TOP && InDisk(Fresh(s.fs), d, i)
    ensures Opened(s, path, flags) == OpenedAt(s.(fs := CreatedFs(s.fs, d, comp, i)), d, i, flags)
  {
    CreatedIs(s.fs, d, comp, i);
    CreatedOpen(s, path, d, comp, i);
  }

  lemma ArchiveOpenable(e: Entry, flags: nat)
    requires Attr(e) == ATTR_ARCHIVE
    ensures Openable(e, flags)
  {
  }

  lemma NewSlotOpenable(s: Sys, path: seq<byte>, flags: nat, d: nat, comp: seq<byte>, i: nat)
    requires CreatesOn(s, path, flags, d, comp, i) && Formatted(comp).value[..1] != [DELETED]
    ensures Next(s.fs) < TOP && InDisk(Fresh(s.fs), d, i)
    ensures var m := s.(fs := CreatedFs(s.fs, d, comp, i));
      && SysOk(m) && Listed(m.fs, d, i) && InDisk(m.fs, d, i) && Unopened(m, (d, i)) && Openable(Slot(m.fs, d, i), flags)
  {
    CreatedOpen(s, path, d, comp, i);
    CreatedUnopened(s, d, comp, i);
    var m := s.(fs := CreatedFs(s.fs, d, comp, i));
    assert Openable(Slot(m.fs, d, i), flags) by {
      CreatedAttr(s.fs, d, comp, i);
      ArchiveOpenable(Slot(m.fs, d, i), flags);
    }
  }

  lemma OpenNewAt(s: Sys, path: seq<byte>, flags: nat, d: nat, comp: seq<byte>, i: nat)
    requires CreatesOn(s, path, flags, d, comp, i) && Formatted(comp).value[..1] != [DELETED]
    ensures Next(s.fs) < TOP && InDisk(Fresh(s.fs), d, i)
    ensures var m := s.(fs := CreatedFs(s.fs, d, comp, i));
      var (t, r) := Opened(s, path, flags);
      && SysOk(t) && TopBitsKept(m.fs.vol, t.fs.vol)
      && (if FreeFd(s.fds, 0) < |s.fds| then OpenedOn(m, t, r, (d, i), flags) else r == -1 && t == m)
  {
    OpenNewIs(s, path, flags, d, comp, i);
    NewSlotOpenable(s, path, flags, d, comp, i);
    OpenedAtKeeps(s.(fs := CreatedFs(s.fs, d, comp, i)), d, i, flags);
  }

  /** An empty file of that name appeared at the slot, and it is open if there was a descriptor left. */
  ghost predicate NewFile(s: Sys, t: Sys, r: int, x: (nat, nat), name: seq<byte>) {
    && Tree(t.fs) == Tree(s.fs)[x := File(name, ATTR_ARCHIVE, [])]
    && (if FreeFd(s.fds, 0) < |s.fds| then
          0 <= r < |s.fds| && !s.fds[r].inUse && OnlyFd(s, t, r) && t.fds[r].inUse && SlotAt(t.fds[r]) == x
        else r == -1 && t.fds == s.fds)
  }

  lemma NewFileOpened(s: Sys, m: Sys, t: Sys, r: int, x: (nat, nat), name: seq<byte>, flags: nat)
    requires m == s.(fs := m.fs) && Tree(m.fs) == Tree(s.fs)[x := File(name, ATTR_ARCHIVE, [])]
    requires if FreeFd(s.fds, 0) < |s.fds| then OpenedOn(m, t, r, x, flags) else r == -1 && t == m
    ensures NewFile(s, t, r, x, name)
  {
  }

  /** Opening with O_CREAT where nothing is: an empty file appears at the path and is open. */
  lemma OpenNew(s: Sys, path: seq<byte>, flags: nat, d: nat, comp: seq<byte>, i: nat)
    requires CreatesOn(s, path, flags, d, comp, i) && Formatted(comp).value[..1] != [DELETED]
    ensures var (t, r) := Opened(s, path, flags);
      SysOk(t) && TopBitsKept(s.fs.vol, t.fs.vol) && NewFile(s, t, r, (d, i), Formatted(comp).value)
  {
    CreatedKeeps(s.fs, d, comp, i);
    OpenNewAt(s, path, flags, d, comp, i);
    assert Formatted(comp).value[..1] == [Formatted(comp).value[0]];
    var m := s.(fs := CreatedFs(s.fs, d, comp, i));
    var (t, r) := Opened(s, path, flags);
    TopBitsTransitive(s.fs.vol, m.fs.vol, t.fs.vol);
    NewFileOpened(s, m, t, r, (d, i), Formatted(comp).value, flags);
  }

  lemma CreatedFree(fs: Fs, d: nat, comp: seq<byte>, i: nat)
    requires FsOk(fs) && CreatesAt(fs, d, comp, i)
    ensures Next(fs) < TOP && InDisk(Fresh(fs), d, i) && FreeOf(CreatedFs(fs, d, comp, i)) == FreeOf(fs) - 1
  {
    CreatedReady(fs, d, comp, i);
    FreshKeeps(fs);
  }

  /** A name that starts with the deletion mark takes a cluster and an entry, and no file appears. */
  lemma OpenHidden(s: Sys, path: seq<byte>, flags: nat, d: nat, comp: seq<byte>, i: nat)
    requires CreatesOn(s, path, flags, d, comp, i) && Formatted(comp).value[..1] == [DELETED]
    ensures var (t, r) := Opened(s, path, flags);
      && SysOk(t) && TopBitsKept(s.fs.vol, t.fs.vol) && r == -1 && Tree(t.fs) == Tree(s.fs) && t.fds == s.fds && t.cur == s.cur
      && FreeOf(t.fs) == FreeOf(s.fs) - 1
  {
    CreatedIs(s.fs, d, comp, i);
    CreatedFree(s.fs, d, comp, i);
    CreatedKeeps(s.fs, d, comp, i);
    CreatedFds(s, d, comp, i);
    assert Formatted(comp).value[..1] == [Formatted(comp).value[0]];
    CreatedHidden(s, path, d, comp, i);
  }

  /** A name that starts with the deletion mark is created but never found. */
  lemma CreatedHidden(s: Sys, path: seq<byte>, d: nat, comp: seq<byte>, i: nat)
    requires SysOk(s) && FsOk(s.fs) && SlotOf(s, path).None?
    requires Resolve(s.fs.vol, s.fs.root, s.cur, path) == Some((d, comp)) && CreatesAt(s.fs, d, comp, i)
    requires |Formatted(comp).value| == 11 && Formatted(comp).value[0] == DELETED
    ensures Next(s.fs) < TOP && InDisk(Fresh(s.fs), d, i)
    ensures SlotOf(s.(fs := CreatedFs(s.fs, d, comp, i)), path).None?
  {
    CreatedFds(s, d, comp, i);
    var m := s.(fs := CreatedFs(s.fs, d, comp, i));
    SysMeaning(m);
    if Resolve(m.fs.vol, m.fs.root, m.cur, path).Some? {
      SplitComponent(s.fs.vol, m.fs.vol, StartOf(s.fs.root, s.cur, path), StartOf(s.fs.root, s.cur, path), Rest(path), []);
      var x := Resolve(m.fs.vol, m.fs.root, m.cur, path).value.0;
      FindMeaning(Cluster(m.fs.vol, x), Formatted(comp).value);
    }
  }

  /** The last component depends on the path alone. */
  lemma {:induction false} SplitComponent(v: Volume, w: Volume, x: nat, y: nat, path: seq<byte>, comp: seq<byte>)
    requires Split(v, x, path, comp).Some? && Split(w, y, path, comp).Some?
    ensures Split(v, x, path, comp).value.1 == Split(w, y, path, comp).value.1
    decreases |path|
  {
    if path != [] {
      if path[0] != SLASH {
        SplitComponent(v, w, x, y, path[1..], comp + [path[0]]);
      } else if comp == [] {
        SplitComponent(v, w, x, y, path[1..], []);
      } else {
        SplitComponent(v, w, Descend(v, x, comp).value, Descend(w, y, comp).value, path[1..], []);
      }
    }
  }

  lemma SplitBytes(v: Volume, d: nat, path: seq<byte>, comp: seq<byte>)
    requires 0 !in path && 0 !in comp
    ensures Split(v, d, path, comp).Some? ==> 0 !in Split(v, d, path, comp).value.1
    decreases |path|
  {
    if path != [] {
      if path[0] != SLASH {
        SplitBytes(v, d, path[1..], comp + [path[0]]);
      } else if comp == [] {
        SplitBytes(v, d, path[1..], []);
      } else if Descend(v, d, comp).Some? {
        SplitBytes(v, Descend(v, d, comp).value, path[1..], []);
      }
    }
  }

  /** Open keeps the invariant, whatever the path and the flags. */
  lemma OpenKeeps(s: Sys, path: seq<byte>, flags: nat)
    requires SysOk(s) && 0 !in path
    requires SlotOf(s, path).Some? ==> Unopened(s, SlotOf(s, path).value)
    ensures SysOk(Opened(s, path, flags).0) && TopBitsKept(s.fs.vol, Opened(s, path, flags).0.fs.vol)
  {
    if SlotOf(s, path).Some? {
      OpenExisting(s, path, flags);
    } else if Has(flags, O_CREAT) {
      OpenMissing(s, path, flags);
    }
  }

  lemma OpenMissing(s: Sys, path: seq<byte>, flags: nat)
    requires SysOk(s) && 0 !in path && SlotOf(s, path).None? && Has(flags, O_CREAT)
    ensures SysOk(Opened(s, path, flags).0) && TopBitsKept(s.fs.vol, Opened(s, path, flags).0.fs.vol)
  {
    var r := Resolve(s.fs.vol, s.fs.root, s.cur, path);
    if r.Some? && Created(s.fs, r).1 {
      var (d, comp) := r.value;
      var i := CreatedSlot(s, path, d, comp);
      if Formatted(comp).value[..1] == [DELETED] {
        OpenHidden(s, path, flags, d, comp, i);
      } else {
        OpenNew(s, path, flags, d, comp, i);
      }
    }
  }

  /** Creation keeps the invariant. */
  lemma CreateKeeps(s: Sys, path: seq<byte>)
    requires SysOk(s) && 0 !in path
    ensures var fs := Created(s.fs, Resolve(s.fs.vol, s.fs.root, s.cur, path)).0;
      SysOk(s.(fs := fs)) && FsOk(fs)
  {
    SysMeaning(s);
    var r := Resolve(s.fs.vol, s.fs.root, s.cur, path);
    if r.Some? && Created(s.fs, r).1 {
      var (d, comp) := r.value;
      var i := CreatedSlot(s, path, d, comp);
      CreatedIs(s.fs, d, comp, i);
      CreatedFds(s, d, comp, i);
      SysMeaning(s.(fs := CreatedFs(s.fs, d, comp, i)));
    }
  }

  lemma CreatedSlot(s: Sys, path: seq<byte>, d: nat, comp: seq<byte>) returns (i: nat)
    requires SysOk(s) && 0 !in path && Resolve(s.fs.vol, s.fs.root, s.cur, path) == Some((d, comp))
    requires Created(s.fs, Some((d, comp))).1
    ensures FsOk(s.fs) && CreatesAt(s.fs, d, comp, i)
  {
    SysMeaning(s);
    ResolveDir(s, path);
    SplitBytes(s.fs.vol, StartOf(s.fs.root, s.cur, path), Rest(path), []);
    CreatedCases(s.fs, d, comp);
    i :| CreatesAt(s.fs, d, comp, i);
  }
}
