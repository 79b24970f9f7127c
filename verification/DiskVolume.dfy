/** The built volume as the driver sees it: sound, and every staged file where it belongs. */
module DiskVolume {
  import opened Bytes
  import opened Fat32Spec
  import opened Fat32Tree
  import opened Fat32Alloc
  import opened Fat32Names
  import opened DiskNames
  import opened DiskFat
  import opened DiskParts
  import opened DiskBuilder

  // ---------------------------------------------------------------------------
  // The data area
  // ---------------------------------------------------------------------------

  /** A file's bytes up to a whole number of clusters. */
  function PadData(r: Record): (b: seq<byte>)
    ensures |b| == CLUSTER * ClusterCount(|r.data|)
  {
    r.data + Zeros(CLUSTER * ClusterCount(|r.data|) - |r.data|)
  }

  function Payload(rs: seq<Record>): seq<byte> {
    if rs == [] then [] else PadData(rs[0]) + Payload(rs[1..])
  }

  lemma {:induction false} PayloadLength(rs: seq<Record>)
    ensures |Payload(rs)| == CLUSTER * Sum(Counts(rs))
  {
    if rs != [] {
      PayloadLength(rs[1..]);
    }
  }

  /** The payload of record `k` comes after those of the records before it. */
  lemma {:induction false} PayloadAt(rs: seq<Record>, k: nat, at: nat)
    requires k < |rs| && at == CLUSTER * Before(Counts(rs), k)
    ensures at + |PadData(rs[k])| <= |Payload(rs)| && Payload(rs)[at..at + |PadData(rs[k])|] == PadData(rs[k])
    decreases k
  {
    if k > 0 {
      var rest := rs[1..];
      assert Counts(rs)[1..] == Counts(rest);
      var inner := CLUSTER * Before(Counts(rest), k - 1);
      PayloadAt(rest, k - 1, inner);
      SliceOfConcat(PadData(rs[0]), Payload(rest), inner, inner + |PadData(rs[k])|);
    }
  }

  type Dir = es: seq<Entry> | |es| <= 128

  /** The records, the entries of the eight directories, and the record each entry is for (-1 for a directory). */
  datatype Layout = Layout(rs: seq<Record>, dirs: seq<Dir>, who: seq<seq<int>>)

  /** What an entry is for: a fixed directory or a record with bytes. */
  ghost predicate KindOk(rs: seq<Record>, e: Entry, k: int) {
    if k < 0 then DirLike(e) else EntryFor(rs, k, e) && rs[k].data != []
  }

  ghost predicate LayoutOk(l: Layout, n: nat) {
    && NextCluster(l.rs) <= n <= FAT_WORDS && |l.dirs| == 8 == |l.who|
    && (forall d | 0 <= d < 8 :: |l.who[d]| == |l.dirs[d]| && Plain(l.dirs[d]))
    && (forall d, i | 0 <= d < 8 && 0 <= i < |l.dirs[d]| :: KindOk(l.rs, l.dirs[d][i], l.who[d][i]))
  }

  /** No record has two entries. */
  ghost predicate OneEntry(l: Layout) {
    forall d, i, e, j | 0 <= d < |l.who| && 0 <= e < |l.who| && 0 <= i < |l.who[d]| && 0 <= j < |l.who[e]|
      && 0 <= l.who[d][i] == l.who[e][j] :: d == e && i == j
  }

  function Blocks(dirs: seq<Dir>): (bs: seq<seq<byte>>)
    ensures |bs| == |dirs| && AllSized(bs, CLUSTER) && forall d | 0 <= d < |dirs| :: bs[d] == DirBytes(dirs[d])
  {
    seq(|dirs|, d requires 0 <= d < |dirs| => DirBytes(dirs[d]))
  }

  lemma DirAreaLength(dirs: seq<Dir>)
    ensures |Concat(Blocks(dirs))| == CLUSTER * |dirs|
  {
    ConcatLength(Blocks(dirs), CLUSTER);
    TimesIsProduct(|dirs|, CLUSTER);
  }

  /** The data area: the directories, then the files. */
  function Area(l: Layout): seq<byte> {
    Concat(Blocks(l.dirs)) + Payload(l.rs)
  }

  lemma AreaLength(l: Layout)
    requires |l.dirs| == 8
    ensures |Area(l)| == CLUSTER * (NextCluster(l.rs) - ROOT)
  {
    DirAreaLength(l.dirs);
    PayloadLength(l.rs);
  }

  /** Cluster `i` of the data area; what lies past the payload is zero. */
  function AreaCluster(area: seq<byte>, i: nat): (b: seq<byte>)
    ensures |b| == CLUSTER
  {
    if CLUSTER * i + CLUSTER <= |area| then area[CLUSTER * i..CLUSTER * i + CLUSTER] else Zeros(CLUSTER)
  }

  lemma AreaDir(l: Layout, d: nat)
    requires d < |l.dirs|
    ensures AreaCluster(Area(l), d) == DirBytes(l.dirs[d])
  {
    ConcatAt(Blocks(l.dirs), CLUSTER, d);
    TimesIsProduct(d, CLUSTER);
    DirAreaLength(l.dirs);
  }

  lemma AreaFile(l: Layout, k: nat)
    requires |l.dirs| == 8 && k < |l.rs| && l.rs[k].data != []
    ensures var at, len := CLUSTER * (ClusterOf(l.rs, k) - ROOT), |PadData(l.rs[k])|;
      0 <= at && at + len <= |Area(l)| && Area(l)[at..at + len] == PadData(l.rs[k])
  {
    StartIs(FIRST_FILE, Counts(l.rs), k);
    var at := CLUSTER * Before(Counts(l.rs), k);
    PayloadAt(l.rs, k, at);
    DirAreaLength(l.dirs);
    SliceOfConcat(Concat(Blocks(l.dirs)), Payload(l.rs), at, at + |PadData(l.rs[k])|);
  }

  // ---------------------------------------------------------------------------
  // The volume
  // ---------------------------------------------------------------------------

  lemma {:induction false} RunsLow(t: seq<nat>, c: nat, counts: seq<nat>)
    requires (forall k | 0 <= k < |t| :: t[k] < LOW_BITS) && c + Sum(counts) <= |t| <= FAT_WORDS
    ensures forall k | 0 <= k < |t| :: WithRuns(t, c, counts)[k] < LOW_BITS
    decreases |counts|
  {
    if counts != [] {
      RunsLow(WithRun(t, c, counts[0]), c + counts[0], counts[1..]);
    }
  }

  function Words(t: seq<nat>): (w: seq<u32>)
    requires forall k | 0 <= k < |t| :: t[k] < LOW_BITS
    ensures |w| == |t| && forall k | 0 <= k < |t| :: w[k] == t[k]
  {
    seq(|t|, k requires 0 <= k < |t| => t[k])
  }

  function BuiltWords(rs: seq<Record>, n: nat): (w: seq<u32>)
    requires NextCluster(rs) <= n <= FAT_WORDS
    ensures |w| == n && forall c | 0 <= c < n :: w[c] == BuiltTable(rs, n)[c]
  {
    RunsLow(BaseTable(n), FIRST_FILE, Counts(rs));
    Words(BuiltTable(rs, n))
  }

  function BuiltVolume(l: Layout, n: nat): (v: Volume)
    requires NextCluster(l.rs) <= n <= FAT_WORDS
    ensures Shaped(v) && v.bpc == CLUSTER && |v.data| == n - ROOT && Mirrored(v)
    ensures v.fats == [BuiltWords(l.rs, n), BuiltWords(l.rs, n)]
    ensures forall i | 0 <= i < n - ROOT :: v.data[i] == AreaCluster(Area(l), i)
  {
    var w, area := BuiltWords(l.rs, n), Area(l);
    Volume(CLUSTER, [w, w], seq(n - ROOT, i requires 0 <= i < n - ROOT => AreaCluster(area, i)))
  }

  lemma BuiltVolumeTable(l: Layout, n: nat)
    requires NextCluster(l.rs) <= n <= FAT_WORDS
    ensures Table(BuiltVolume(l, n)) == BuiltTable(l.rs, n)
  {
    RunsLow(BaseTable(n), FIRST_FILE, Counts(l.rs));
  }

  /** A run of clusters holds the stretch of the area at its place. */
  lemma {:induction false} RunStream(v: Volume, area: seq<byte>, c: nat, n: nat)
    requires forall i | 0 <= i < |v.data| :: v.data[i] == AreaCluster(area, i)
    requires ROOT <= c && c + n <= |v.data| + ROOT && CLUSTER * (c - ROOT + n) <= |area|
    ensures Stream(v, RunOf(c, n)) == area[CLUSTER * (c - ROOT)..CLUSTER * (c - ROOT + n)]
    decreases n
  {
    if n > 0 {
      assert RunOf(c, n)[1..] == RunOf(c + 1, n - 1);
      RunStream(v, area, c + 1, n - 1);
      var at := CLUSTER * (c - ROOT);
      assert area[at..at + CLUSTER] + area[at + CLUSTER..CLUSTER * (c - ROOT + n)] == area[at..CLUSTER * (c - ROOT + n)];
    }
  }

  function BuiltFs(l: Layout, n: nat): Fs
    requires NextCluster(l.rs) <= n <= FAT_WORDS
  {
    Fs(BuiltVolume(l, n), BuiltChains(l.rs), {2, 3, 4, 5, 6, 7, 8, 9}, ROOT)
  }

  lemma BuiltVolumeOk(l: Layout, n: nat)
    requires LayoutOk(l, n)
    ensures VolumeOk(BuiltFs(l, n))
  {
    BuiltThreaded(l.rs, n);
    BuiltVolumeTable(l, n);
    forall d: nat | 2 <= d < 10 ensures d in BuiltChains(l.rs) {
      BuiltDirChain(l.rs, d);
    }
  }

  /** What is free on the volume is what the FSInfo sector says: all that the files leave. */
  lemma BuiltFree(l: Layout, n: nat)
    requires LayoutOk(l, n)
    ensures FreeCount(Table(BuiltVolume(l, n))) == (n - ROOT) - (NextCluster(l.rs) - ROOT)
  {
    BuiltThreaded(l.rs, n);
    BuiltVolumeTable(l, n);
  }

  /** The directories of the file system are those of the layout. */
  ghost predicate Shows(fs: Fs, l: Layout) {
    && |l.dirs| == 8 && (forall d: nat :: d in fs.dirs <==> ROOT <= d < FIRST_FILE)
    && (forall d | 0 <= d < 8 :: Plain(l.dirs[d]))
    && forall d: nat | ROOT <= d < FIRST_FILE :: Cluster(fs.vol, d) == DirBytes(l.dirs[d - 2])
  }

  lemma BuiltShows(l: Layout, n: nat)
    requires LayoutOk(l, n)
    ensures Shows(BuiltFs(l, n), l)
  {
    forall d: nat | ROOT <= d < FIRST_FILE ensures Cluster(BuiltVolume(l, n), d) == DirBytes(l.dirs[d - 2]) {
      AreaDir(l, d - 2);
    }
  }

  lemma ShownSlot(fs: Fs, l: Layout, d: nat, i: nat)
    requires Shows(fs, l)
    ensures Listed(fs, d, i) <==> ROOT <= d < FIRST_FILE && i < |l.dirs[d - 2]|
    ensures Listed(fs, d, i) ==> Slot(fs, d, i) == l.dirs[d - 2][i]
  {
    if ROOT <= d < FIRST_FILE {
      assert Cluster(fs.vol, d) == DirBytes(l.dirs[d - 2]);
      DirLive(l.dirs[d - 2], i);
    }
  }

  /** Every file entry starts the chain of its record. */
  ghost predicate ChainsFor(fs: Fs, rs: seq<Record>) {
    && fs.vol.bpc == CLUSTER && (forall d: nat | d in fs.dirs :: d < FIRST_FILE)
    && forall k: nat | k < |rs| && rs[k].data != [] ::
         ClusterOf(rs, k) in fs.chains && |fs.chains[ClusterOf(rs, k)]| == Counts(rs)[k]
  }

  lemma BuiltChainsFor(l: Layout, n: nat)
    requires LayoutOk(l, n)
    ensures ChainsFor(BuiltFs(l, n), l.rs)
  {
    forall k: nat | k < |l.rs| && l.rs[k].data != []
      ensures ClusterOf(l.rs, k) in BuiltChains(l.rs) && |BuiltChains(l.rs)[ClusterOf(l.rs, k)]| == Counts(l.rs)[k]
    {
      BuiltChainOf(l.rs, k);
    }
  }

  lemma KindEntryOk(fs: Fs, rs: seq<Record>, e: Entry, k: int)
    requires ChainsFor(fs, rs) && KindOk(rs, e, k) && forall d: nat | ROOT <= d < FIRST_FILE :: d in fs.dirs
    ensures EntryOk(fs, e)
  {
    if k >= 0 {
      CountPositive(rs, k);
      ClusterBounds(rs, k);
      assert !IsDir(e);
      assert ClusterOf(rs, k) in fs.chains;
    }
  }

  lemma ShownOwner(fs: Fs, l: Layout, n: nat, d: nat, i: nat, first: nat)
    requires Shows(fs, l) && LayoutOk(l, n) && OwnsFile(fs, d, i, first)
    ensures ROOT <= d < FIRST_FILE && i < |l.dirs[d - 2]| && 0 <= l.who[d - 2][i] < |l.rs|
    ensures l.rs[l.who[d - 2][i]].data != [] && ClusterOf(l.rs, l.who[d - 2][i]) == first
  {
    ShownSlot(fs, l, d, i);
    assert KindOk(l.rs, l.dirs[d - 2][i], l.who[d - 2][i]);
  }

  lemma ShownUnshared(fs: Fs, l: Layout, n: nat)
    requires Shows(fs, l) && LayoutOk(l, n) && OneEntry(l)
    ensures Unshared(fs)
  {
    forall d: nat, i: nat, e: nat, j: nat, first: nat | OwnsFile(fs, d, i, first) && OwnsFile(fs, e, j, first)
      ensures d == e && i == j
    {
      ShownOwner(fs, l, n, d, i, first);
      ShownOwner(fs, l, n, e, j, first);
      ClusterDistinct(l.rs, l.who[d - 2][i], l.who[e - 2][j]);
    }
  }

  lemma ShownEntriesOk(fs: Fs, l: Layout, n: nat)
    requires Shows(fs, l) && LayoutOk(l, n) && ChainsFor(fs, l.rs)
    ensures EntriesOk(fs) && DirsTidy(fs)
  {
    forall d: nat, i: nat | Listed(fs, d, i) ensures EntryOk(fs, Slot(fs, d, i)) {
      ShownSlot(fs, l, d, i);
      KindEntryOk(fs, l.rs, l.dirs[d - 2][i], l.who[d - 2][i]);
    }
    forall d: nat | d in fs.dirs ensures Tidy(Cluster(fs.vol, d)) {
      assert Cluster(fs.vol, d) == DirBytes(l.dirs[d - 2]);
      DirTidy(l.dirs[d - 2]);
    }
  }

  /** The built volume is sound, so everything proved about runs of the driver holds from it on. */
  lemma BuiltSound(l: Layout, n: nat)
    requires LayoutOk(l, n) && OneEntry(l)
    ensures FsOk(BuiltFs(l, n))
  {
    var fs := BuiltFs(l, n);
    BuiltVolumeOk(l, n);
    BuiltShows(l, n);
    BuiltChainsFor(l, n);
    ShownUnshared(fs, l, n);
    ShownEntriesOk(fs, l, n);
    FsMeaning(fs);
  }

  lemma FileStream(l: Layout, n: nat, k: nat)
    requires LayoutOk(l, n) && k < |l.rs| && l.rs[k].data != []
    ensures Stream(BuiltVolume(l, n), RunOf(ClusterOf(l.rs, k), Counts(l.rs)[k])) == PadData(l.rs[k])
  {
    ClusterBounds(l.rs, k);
    AreaFile(l, k);
    CountsAt(l.rs, k);
    RunStream(BuiltVolume(l, n), Area(l), ClusterOf(l.rs, k), Counts(l.rs)[k]);
  }

  lemma FileContents(l: Layout, n: nat, k: nat)
    requires LayoutOk(l, n) && k < |l.rs| && l.rs[k].data != []
    ensures Contents(BuiltFs(l, n), ClusterOf(l.rs, k), |l.rs[k].data|) == l.rs[k].data
  {
    BuiltChainOf(l.rs, k);
    FileStream(l, n, k);
  }

  /** The file at its entry has exactly the staged bytes. */
  lemma BuiltBytes(l: Layout, n: nat, d: nat, i: nat)
    requires LayoutOk(l, n) && ROOT <= d < FIRST_FILE && i < |l.dirs[d - 2]| && l.who[d - 2][i] >= 0
    ensures var fs, k := BuiltFs(l, n), l.who[d - 2][i];
      && k < |l.rs| && HostShort(l.rs[k].name).Some? && (d, i) in Tree(fs)
      && Tree(fs)[(d, i)] == File(HostShort(l.rs[k].name).value, ATTR_FILE, l.rs[k].data)
  {
    var k := l.who[d - 2][i];
    assert KindOk(l.rs, l.dirs[d - 2][i], k);
    BuiltShows(l, n);
    FileContents(l, n, k);
    ShownItem(BuiltFs(l, n), l, d, i, k);
  }

  lemma ShownItem(fs: Fs, l: Layout, d: nat, i: nat, k: nat)
    requires Shows(fs, l) && ROOT <= d < FIRST_FILE && i < |l.dirs[d - 2]| && EntryFor(l.rs, k, l.dirs[d - 2][i])
    requires Contents(fs, ClusterOf(l.rs, k), |l.rs[k].data|) == l.rs[k].data
    ensures (d, i) in Tree(fs) && Tree(fs)[(d, i)] == File(HostShort(l.rs[k].name).value, ATTR_FILE, l.rs[k].data)
  {
    ShownSlot(fs, l, d, i);
    TreeAtSlot(fs, d, i);
  }
}
