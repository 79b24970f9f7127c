/** From the staged files to the bytes a program reads: building, mounting, opening and reading. */
module DiskBoot {
  import opened Bytes
  import opened Fat32Spec
  import opened Fat32Tree
  import opened Fat32Alloc
  import opened Fat32Names
  import opened Fat32Layout
  import opened Fat32Device
  import opened Fat32Ops
  import opened Fat32Runs
  import opened Fat32Open
  import opened Fat32Reach
  import opened Fat32Driver
  import opened DiskNames
  import opened DiskFat
  import opened DiskBuilder
  import opened DiskVolume
  import opened DiskImage
  import opened DiskStage

  ghost function StagedLayout(st: Stage, mb: nat): (l: Layout)
    requires SizeOk(mb) && PlanFits(PlanOf(st), ClusterLimit(mb))
    ensures LayoutFits(l, mb) && LayoutOk(l, ClusterLimit(mb)) && l.rs == Order(st)
  {
    PlanLayoutOk(PlanOf(st), ClusterLimit(mb));
    LayoutOf(PlanOf(st), ClusterLimit(mb))
  }

  /** The sectors of the image built from a stage. */
  ghost function StagedDisk(st: Stage, mb: nat): seq<Sector>
    requires SizeOk(mb) && PlanFits(PlanOf(st), ClusterLimit(mb))
  {
    Sectors(Image(StagedLayout(st, mb), mb))
  }

  lemma ReservedParts(mb: nat, free: u32, next: u32)
    ensures var b := Reserved(mb, free, next);
      b[..SECTOR] == BootSector(mb) && b[SECTOR..2 * SECTOR] == FsInfo(free, next)
  {
  }

  lemma HeadSectors(l: Layout, mb: nat)
    requires LayoutFits(l, mb)
    ensures |Sectors(Image(l, mb))| == 2048 * mb
    ensures Sectors(Image(l, mb))[0] == BootSector(mb)
    ensures Sectors(Image(l, mb))[1] == FsInfo(ClusterLimit(mb) - NextCluster(l.rs), NextCluster(l.rs))
  {
    var free, next := ClusterLimit(mb) - NextCluster(l.rs), NextCluster(l.rs);
    ImageLength(l, mb);
    ReservedParts(mb, free, next);
    var image, a := Image(l, mb), Reserved(mb, free, next);
    assert image[..SECTOR] == a[..SECTOR];
    assert image[SECTOR..2 * SECTOR] == a[SECTOR..2 * SECTOR];
    assert image[SECTOR * 0..SECTOR * 0 + SECTOR] == image[..SECTOR];
    assert image[SECTOR * 1..SECTOR * 1 + SECTOR] == image[SECTOR..2 * SECTOR];
  }

  /** FSInfo counts the free clusters of the volume the driver sees. */
  lemma InfoAgrees(l: Layout, mb: nat)
    requires LayoutFits(l, mb) && LayoutOk(l, ClusterLimit(mb))
    ensures var disk := Sectors(Image(l, mb));
      |disk| == 2048 * mb && U32FromLe(disk[1], 488) == FreeCount(Table(BuiltVolume(l, ClusterLimit(mb))))
  {
    HeadSectors(l, mb);
    FsInfoFree(ClusterLimit(mb) - NextCluster(l.rs), NextCluster(l.rs));
    BuiltFree(l, ClusterLimit(mb));
  }

  /** The driver mounts the image and sees the volume the builder laid out, with the free count FSInfo gives. */
  lemma StagedMount(st: Stage, mb: nat)
    requires SizeOk(mb) && PlanFits(PlanOf(st), ClusterLimit(mb))
    ensures var disk := StagedDisk(st, mb);
      && |disk| == 2048 * mb && LooksValid(disk[0]) && MountedGeometry(disk[0]) == ImageGeometry(mb)
      && DiskOk(ImageGeometry(mb), disk)
      && View(ImageGeometry(mb), disk) == BuiltVolume(StagedLayout(st, mb), ClusterLimit(mb))
      && U32FromLe(disk[1], 488) == FreeCount(Table(View(ImageGeometry(mb), disk)))
  {
    MountAgrees(StagedLayout(st, mb), mb);
  }

  lemma MountAgrees(l: Layout, mb: nat)
    requires LayoutFits(l, mb) && LayoutOk(l, ClusterLimit(mb))
    ensures var disk := Sectors(Image(l, mb));
      && |disk| == 2048 * mb && LooksValid(disk[0]) && MountedGeometry(disk[0]) == ImageGeometry(mb)
      && DiskOk(ImageGeometry(mb), disk) && View(ImageGeometry(mb), disk) == BuiltVolume(l, ClusterLimit(mb))
      && U32FromLe(disk[1], 488) == FreeCount(Table(View(ImageGeometry(mb), disk)))
  {
    HeadSectors(l, mb);
    BootAgrees(mb);
    ImageView(l, mb);
    InfoAgrees(l, mb);
  }

  // ---------------------------------------------------------------------------
  // Reading a file off a disk
  // ---------------------------------------------------------------------------

  /** From the directory a mount makes current the path leads to a plain file with these bytes. */
  ghost predicate Carries(fs: Fs, path: seq<byte>, x: (nat, nat), data: seq<byte>) {
    && FsOk(fs) && x in Tree(fs) && Tree(fs)[x].File? && Tree(fs)[x].attr == ATTR_FILE && Tree(fs)[x].bytes == data
    && Locate(fs.vol, Resolve(fs.vol, fs.root, HomeOf(fs), path)) == Some(x)
  }

  lemma AllClosed(s: Sys)
    requires s.fds == seq(MAX_OPEN_FILES, _ => CLOSED)
    ensures FreeFd(s.fds, 0) == 0 && forall x :: Unopened(s, x)
  {
  }

  lemma OpensCarried(s: Sys, path: seq<byte>, x: (nat, nat), data: seq<byte>)
    requires SysOk(s) && s.fds == seq(MAX_OPEN_FILES, _ => CLOSED) && s.cur == HomeOf(s.fs) && Carries(s.fs, path, x, data)
    ensures SlotOf(s, path) == Some(x) && Unopened(s, x)
    ensures var (t, r) := Opened(s, path, 1);
      r == 0 && IsOpen(t, 0) && SysOk(t) && t.fds[0].position == 0 && BytesOf(t, 0) == data
  {
    AllClosed(s);
    OpenExisting(s, path, 1);
    ListedAttr(s.fs, x);
    var (t, r) := Opened(s, path, 1);
    OpenFile(t, 0);
  }

  lemma ListedAttr(fs: Fs, x: (nat, nat))
    requires x in Tree(fs) && Tree(fs)[x].File?
    ensures Listed(fs, x.0, x.1) && Attr(Slot(fs, x.0, x.1)) == Tree(fs)[x].attr && !IsDir(Slot(fs, x.0, x.1))
  {
    TreeMeaning(fs);
  }

  lemma ReadsAll(s: Sys, count: nat)
    requires SysOk(s) && IsOpen(s, 0) && s.fds[0].position == 0
    ensures ReadFrom(s, 0, count).1 == Min(count % TOP, |BytesOf(s, 0)|)
  {
    OpenFile(s, 0);
  }

  /** Mount, open, read: the bytes of the file the path leads to, all of them if the low 32 bits of the count reach its end. */
  method ReadFile(g: Geometry, disk: seq<Sector>, path: seq<byte>, count: nat,
                  ghost fs: Fs, ghost x: (nat, nat), ghost data: seq<byte>) returns (out: seq<byte>)
    requires DiskOk(g, disk) && fs == Fs(View(g, disk), fs.chains, fs.dirs, g.root) && 0 !in path
    requires Carries(fs, path, x, data)
    ensures out == data[..Min(count % TOP, |data|)]
    ensures out == data <==> |data| <= count % TOP
  {
    var dev := new Device(g, disk);
    var driver := new Driver(dev, fs.chains, fs.dirs);
    OpensCarried(driver.System(), path, x, data);
    var fd := driver.Open(path, 1);
    ReadsAll(driver.System(), count);
    var n;
    n, out := driver.Read(fd, count);
    assert data[0..n] == data[..n];
  }

  // ---------------------------------------------------------------------------
  // Reading a staged file
  // ---------------------------------------------------------------------------

  /** A staged file and a path to it. */
  ghost predicate Staged(st: Stage, mb: nat, d: nat, i: nat, dirs: seq<seq<byte>>, ks: seq<nat>, path: seq<byte>, data: seq<byte>) {
    && SizeOk(mb) && PlanFits(PlanOf(st), ClusterLimit(mb)) && ROOT < d < FIRST_FILE && i < |Listing(PlanOf(st), d)|
    && Findable(PlanOf(st), d, i) && Leads(dirs, ks, ROOT, d)
    && var r := PlanOf(st).rs[Listing(PlanOf(st), d)[i]];
      path == [SLASH] + PathOf(dirs, r.name) && data == r.data && 0 !in path
  }

  lemma StagedCarried(st: Stage, mb: nat, d: nat, i: nat, dirs: seq<seq<byte>>, ks: seq<nat>, path: seq<byte>, data: seq<byte>)
    requires Staged(st, mb, d, i, dirs, ks, path, data)
    ensures Carries(BuiltFs(StagedLayout(st, mb), ClusterLimit(mb)), path, (d, HeadSize(d) + i), data)
  {
    var fs, n := BuiltFs(StagedLayout(st, mb), ClusterLimit(mb)), ClusterLimit(mb);
    StagedFile(st, n, d, i, dirs, ks, [], HomeOf(fs));
  }

  /** What is staged is what the kernel reads back from the built image. */
  method ReadStaged(disk: seq<Sector>, path: seq<byte>, count: nat, ghost st: Stage, ghost mb: nat, ghost d: nat, ghost i: nat,
                    ghost dirs: seq<seq<byte>>, ghost ks: seq<nat>, ghost data: seq<byte>) returns (out: seq<byte>)
    requires Staged(st, mb, d, i, dirs, ks, path, data) && disk == StagedDisk(st, mb)
    ensures out == data[..Min(count % TOP, |data|)]
    ensures out == data <==> |data| <= count % TOP
  {
    StagedMount(st, mb);
    StagedCarried(st, mb, d, i, dirs, ks, path, data);
    ghost var fs := BuiltFs(StagedLayout(st, mb), ClusterLimit(mb));
    out := ReadFile(MountedGeometry(disk[0]), disk, path, count, fs, (d, HeadSize(d) + i), data);
  }
}
