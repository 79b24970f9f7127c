/** The image file byte by byte, and the volume a driver finds when it mounts it. */
module DiskImage {
  import opened Bytes
  import opened Fat32Spec
  import opened Fat32Tree
  import opened Fat32Alloc
  import opened Fat32Layout
  import opened DiskFat
  import opened DiskParts
  import opened DiskBuilder
  import opened DiskVolume

  /** The fixed geometry of an image of `mb` megabytes. */
  function ImageGeometry(mb: nat): Geometry {
    Geometry(32, 2, 160, 8, 2048 * mb, ROOT)
  }

  /** One more than the highest cluster number. */
  function ClusterLimit(mb: nat): nat
    requires 1 <= mb
  {
    256 * mb - 42
  }

  /** The sizes the 160-sector FAT covers. */
  predicate SizeOk(mb: nat) {
    1 <= mb <= 80
  }

  lemma GeometryFits(mb: nat)
    requires SizeOk(mb)
    ensures ImageGeometry(mb).Ok() && ImageGeometry(mb).Clusters() == ClusterLimit(mb) - 2
    ensures ImageGeometry(mb).Bpc() == CLUSTER && ClusterLimit(mb) <= FAT_WORDS
  {
    assert ImageGeometry(mb).DataStart() == 352;
    assert (2048 * mb - 352) / 8 == 256 * mb - 44;
  }

  // ---------------------------------------------------------------------------
  // Boot sector and FSInfo
  // ---------------------------------------------------------------------------

  function BootStart(): (b: seq<byte>)
    ensures |b| == 32
  {
    [0xEB, 0x58, 0x90, 78, 85, 77, 79, 83, 49, 46, 48]
    + [0, 2, 8, 32, 0, 2, 0, 0, 0, 0, 0xF8, 0, 0, 63, 0, 16, 0, 0, 0, 0, 0]
  }

  function BootRest(): (b: seq<byte>)
    ensures |b| == 464
  {
    [1, 0, 6, 0] + Zeros(12) + [0x80, 0, 0x29] + U32ToLe(0x1234_5678)
    + [78, 85, 77, 79, 83, 32, 68, 73, 83, 75, 32] + [70, 65, 84, 51, 50, 32, 32, 32] + Zeros(420) + [0x55, 0xAA]
  }

  function BootSector(mb: nat): (b: seq<byte>)
    ensures |b| == SECTOR
  {
    BootStart() + U32ToLe(2048 * mb) + U32ToLe(160) + [0, 0, 0, 0] + U32ToLe(ROOT) + BootRest()
  }

  function PowerOfTwo(v: byte): bool {
    v == 1 || v == 2 || v == 4 || v == 8 || v == 16 || v == 32 || v == 64 || v == 128
  }

  /** The driver's test of a boot sector. */
  predicate LooksValid(b: seq<byte>)
    requires |b| == SECTOR
  {
    && b[510] == 0x55 && b[511] == 0xAA && U16FromLe(b, 11) == 512 && PowerOfTwo(b[13])
    && U16FromLe(b, 14) != 0 && b[16] != 0 && U32FromLe(b, 32) != 0 && U32FromLe(b, 36) != 0 && U32FromLe(b, 44) >= 2
  }

  /** The layout the driver computes from it. */
  function MountedGeometry(b: seq<byte>): Geometry
    requires |b| == SECTOR
  {
    Geometry(U16FromLe(b, 14), b[16], U32FromLe(b, 36), b[13], U32FromLe(b, 32), U32FromLe(b, 44))
  }

  /** The driver accepts the builder's boot sector and computes the builder's geometry from it. */
  lemma BootAgrees(mb: nat)
    requires SizeOk(mb)
    ensures LooksValid(BootSector(mb)) && MountedGeometry(BootSector(mb)) == ImageGeometry(mb)
  {
    BootWords(mb);
    BootBytes(mb);
  }

  lemma FieldAt(a: seq<byte>, v: u32, c: seq<byte>)
    ensures U32FromLe(a + U32ToLe(v) + c, |a|) == v
  {
    var b := a + U32ToLe(v) + c;
    assert b[|a|..|a| + 4] == U32ToLe(v);
    U32RoundTrip(v, b, |a|);
  }

  lemma FirstField(a: seq<byte>, p: u32, y: seq<byte>, mid: seq<byte>, z: seq<byte>, rest: seq<byte>)
    ensures U32FromLe(a + U32ToLe(p) + y + mid + z + rest, |a|) == p
  {
    assert a + U32ToLe(p) + y + mid + z + rest == a + U32ToLe(p) + (y + mid + z + rest);
    FieldAt(a, p, y + mid + z + rest);
  }

  lemma SecondField(a: seq<byte>, q: u32, mid: seq<byte>, z: seq<byte>, rest: seq<byte>)
    ensures U32FromLe(a + U32ToLe(q) + mid + z + rest, |a|) == q
  {
    assert a + U32ToLe(q) + mid + z + rest == a + U32ToLe(q) + (mid + z + rest);
    FieldAt(a, q, mid + z + rest);
  }

  lemma BootFields(a: seq<byte>, p: u32, q: u32, mid: seq<byte>, r: u32, rest: seq<byte>, b: seq<byte>)
    requires |a| == 32 && |mid| == 4 && b == a + U32ToLe(p) + U32ToLe(q) + mid + U32ToLe(r) + rest
    ensures U32FromLe(b, 32) == p && U32FromLe(b, 36) == q && U32FromLe(b, 44) == r
  {
    FirstField(a, p, U32ToLe(q), mid, U32ToLe(r), rest);
    SecondField(a + U32ToLe(p), q, mid, U32ToLe(r), rest);
    FieldAt(a + U32ToLe(p) + U32ToLe(q) + mid, r, rest);
  }

  lemma BootWords(mb: nat)
    requires SizeOk(mb)
    ensures var b := BootSector(mb);
      U32FromLe(b, 32) == 2048 * mb && U32FromLe(b, 36) == 160 && U32FromLe(b, 44) == ROOT
  {
    BootFields(BootStart(), 2048 * mb, 160, [0, 0, 0, 0], ROOT, BootRest(), BootSector(mb));
  }

  lemma BootBytes(mb: nat)
    ensures var b := BootSector(mb);
      && b[11] == 0 && b[12] == 2 && b[13] == 8 && b[14] == 32 && b[15] == 0 && b[16] == 2
      && b[510] == 0x55 && b[511] == 0xAA
  {
  }

  function FsInfo(free: u32, next: u32): (b: seq<byte>)
    ensures |b| == SECTOR
  {
    U32ToLe(0x4161_5252) + Zeros(480) + U32ToLe(0x6141_7272) + U32ToLe(free) + U32ToLe(next) + Zeros(12) + U32ToLe(0xAA55_0000)
  }

  lemma FsInfoFree(free: u32, next: u32)
    ensures U32FromLe(FsInfo(free, next), 488) == free && U32FromLe(FsInfo(free, next), 492) == next
  {
    var b := FsInfo(free, next);
    assert b[488..492] == U32ToLe(free);
    assert b[492..496] == U32ToLe(next);
    U32RoundTrip(free, b, 488);
    U32RoundTrip(next, b, 492);
  }

  // ---------------------------------------------------------------------------
  // The image
  // ---------------------------------------------------------------------------

  function WordBlocks(w: seq<u32>): (bs: seq<seq<byte>>)
    ensures |bs| == |w| && AllSized(bs, 4) && forall c | 0 <= c < |w| :: bs[c] == U32ToLe(w[c])
  {
    seq(|w|, c requires 0 <= c < |w| => U32ToLe(w[c]))
  }

  function FatBytes(w: seq<u32>): seq<byte> {
    Concat(WordBlocks(w))
  }

  lemma FatBytesAt(w: seq<u32>, c: nat)
    requires c < |w|
    ensures |FatBytes(w)| == 4 * |w| && FatBytes(w)[4 * c..4 * c + 4] == U32ToLe(w[c])
  {
    ConcatAt(WordBlocks(w), 4, c);
    ConcatLength(WordBlocks(w), 4);
    TimesIsProduct(c, 4);
    TimesIsProduct(|w|, 4);
  }

  function Reserved(mb: nat, free: u32, next: u32): (b: seq<byte>)
    ensures |b| == 32 * SECTOR
  {
    BootSector(mb) + FsInfo(free, next) + Zeros(4 * SECTOR) + BootSector(mb) + Zeros(25 * SECTOR)
  }

  /** The whole image: reserved sectors, two FATs, the data area, and zeros to the end. */
  function Image(l: Layout, mb: nat): seq<byte>
    requires SizeOk(mb) && |l.dirs| == 8 && NextCluster(l.rs) <= ClusterLimit(mb) <= FAT_WORDS
  {
    var fat := FatBytes(BuiltWords(l.rs, FAT_WORDS));
    AreaLength(l);
    Reserved(mb, ClusterLimit(mb) - NextCluster(l.rs), NextCluster(l.rs)) + fat + fat
    + (Area(l) + Zeros(CLUSTER * (ClusterLimit(mb) - 2) - |Area(l)|))
  }

  function Sectors(b: seq<byte>): (r: seq<Sector>)
    ensures |r| == |b| / SECTOR && forall s | 0 <= s < |r| :: r[s] == b[SECTOR * s..SECTOR * s + SECTOR]
  {
    seq(|b| / SECTOR, s requires 0 <= s < |b| / SECTOR => b[SECTOR * s..SECTOR * s + SECTOR])
  }

  /** Where the pieces of the image are. */
  ghost predicate Pieces(l: Layout, mb: nat, image: seq<byte>) {
    && SizeOk(mb) && |image| == SECTOR * (2048 * mb) && NextCluster(l.rs) <= FAT_WORDS
    && (forall k, c | 0 <= k < 2 && 0 <= c < FAT_WORDS ::
          FatCell(image, k, c) == U32ToLe(BuiltWords(l.rs, FAT_WORDS)[c]))
    && (forall i | 0 <= i < ClusterLimit(mb) - 2 :: DataCell(image, mb, i) == AreaCluster(Area(l), i))
  }

  function FatCell(image: seq<byte>, k: nat, c: nat): seq<byte> {
    var at := 16384 + 81920 * k + 4 * c;
    if at + 4 <= |image| then image[at..at + 4] else []
  }

  function DataCell(image: seq<byte>, mb: nat, i: nat): seq<byte> {
    var at := 180224 + CLUSTER * i;
    if at + CLUSTER <= |image| then image[at..at + CLUSTER] else []
  }

  ghost predicate LayoutFits(l: Layout, mb: nat) {
    SizeOk(mb) && |l.dirs| == 8 && NextCluster(l.rs) <= ClusterLimit(mb) <= FAT_WORDS
  }

  /** Four pieces end to end. */
  lemma FirstCopy(a: seq<byte>, b: seq<byte>, c: seq<byte>, at: nat, len: nat)
    requires at + len <= |b|
    ensures (a + b + b + c)[|a| + at..|a| + at + len] == b[at..at + len]
  {
  }

  lemma SecondCopy(a: seq<byte>, b: seq<byte>, c: seq<byte>, at: nat, len: nat)
    requires at + len <= |b|
    ensures (a + b + b + c)[|a| + |b| + at..|a| + |b| + at + len] == b[at..at + len]
  {
  }

  lemma LastPart(a: seq<byte>, b: seq<byte>, c: seq<byte>, at: nat, len: nat)
    requires at + len <= |c|
    ensures (a + b + b + c)[|a| + |b| + |b| + at..|a| + |b| + |b| + at + len] == c[at..at + len]
  {
  }

  lemma ImageLength(l: Layout, mb: nat)
    requires LayoutFits(l, mb)
    ensures |Image(l, mb)| == SECTOR * (2048 * mb) && |FatBytes(BuiltWords(l.rs, FAT_WORDS))| == 81920
  {
    FatBytesAt(BuiltWords(l.rs, FAT_WORDS), 0);
    AreaLength(l);
  }

  /** The image by its four pieces. */
  lemma ImageParts(l: Layout, mb: nat) returns (a: seq<byte>, b: seq<byte>, d: seq<byte>)
    requires LayoutFits(l, mb)
    ensures Image(l, mb) == a + b + b + d && |a| == 16384 && |b| == 81920 && |Image(l, mb)| == 180224 + |d|
    ensures b == FatBytes(BuiltWords(l.rs, FAT_WORDS))
    ensures |Area(l)| <= CLUSTER * (ClusterLimit(mb) - 2) && |Area(l)| % CLUSTER == 0
    ensures d == Area(l) + Zeros(CLUSTER * (ClusterLimit(mb) - 2) - |Area(l)|)
  {
    AreaLength(l);
    ImageLength(l, mb);
    a := Reserved(mb, ClusterLimit(mb) - NextCluster(l.rs), NextCluster(l.rs));
    b := FatBytes(BuiltWords(l.rs, FAT_WORDS));
    d := Area(l) + Zeros(CLUSTER * (ClusterLimit(mb) - 2) - |Area(l)|);
  }

  lemma CopyCell(image: seq<byte>, a: seq<byte>, b: seq<byte>, d: seq<byte>, k: nat, c: nat)
    requires image == a + b + b + d && |a| == 16384 && |b| == 81920 && k < 2 && c < FAT_WORDS
    ensures FatCell(image, k, c) == b[4 * c..4 * c + 4]
  {
    if k == 0 {
      FirstCopy(a, b, d, 4 * c, 4);
    } else {
      SecondCopy(a, b, d, 4 * c, 4);
    }
  }

  lemma ImageFat(l: Layout, mb: nat, k: nat, c: nat)
    requires LayoutFits(l, mb) && k < 2 && c < FAT_WORDS
    ensures FatCell(Image(l, mb), k, c) == U32ToLe(BuiltWords(l.rs, FAT_WORDS)[c])
  {
    var a, b, d := ImageParts(l, mb);
    FatBytesAt(BuiltWords(l.rs, FAT_WORDS), c);
    CopyCell(Image(l, mb), a, b, d, k, c);
  }

  lemma TailCell(area: seq<byte>, m: nat, i: nat, at: nat)
    requires |area| <= CLUSTER * m && |area| % CLUSTER == 0 && i < m && at == CLUSTER * i
    ensures (area + Zeros(CLUSTER * m - |area|))[at..at + CLUSTER] == AreaCluster(area, i)
  {
    var all := area + Zeros(CLUSTER * m - |area|);
    if at + CLUSTER <= |area| {
      assert all[at..at + CLUSTER] == area[at..at + CLUSTER];
    } else {
      assert |area| <= at;
      assert all[at..at + CLUSTER] == Zeros(CLUSTER);
    }
  }

  lemma ImageData(l: Layout, mb: nat, i: nat)
    requires LayoutFits(l, mb) && i < ClusterLimit(mb) - 2
    ensures DataCell(Image(l, mb), mb, i) == AreaCluster(Area(l), i)
  {
    var a, b, d := ImageParts(l, mb);
    TailCell(Area(l), ClusterLimit(mb) - 2, i, CLUSTER * i);
    LastPart(a, b, d, CLUSTER * i, CLUSTER);
  }

  lemma ImagePieces(l: Layout, mb: nat)
    requires LayoutFits(l, mb)
    ensures Pieces(l, mb, Image(l, mb))
  {
    ImageLength(l, mb);
    forall k, c | 0 <= k < 2 && 0 <= c < FAT_WORDS
      ensures FatCell(Image(l, mb), k, c) == U32ToLe(BuiltWords(l.rs, FAT_WORDS)[c])
    {
      ImageFat(l, mb, k, c);
    }
    forall i | 0 <= i < ClusterLimit(mb) - 2 ensures DataCell(Image(l, mb), mb, i) == AreaCluster(Area(l), i) {
      ImageData(l, mb, i);
    }
  }

  // ---------------------------------------------------------------------------
  // What the driver sees
  // ---------------------------------------------------------------------------

  lemma {:induction false} FlatSectors(b: seq<byte>, lo: nat, m: nat)
    requires lo + m <= |b| / SECTOR
    ensures Flat(Sectors(b)[lo..lo + m]) == b[SECTOR * lo..SECTOR * (lo + m)]
    decreases m
  {
    if m > 0 {
      var s := Sectors(b);
      assert s[lo..lo + m] == s[lo..lo + m - 1] + [s[lo + m - 1]];
      FlatSnoc(s[lo..lo + m - 1], s[lo + m - 1]);
      FlatSectors(b, lo, m - 1);
      assert b[SECTOR * lo..SECTOR * (lo + m)] == b[SECTOR * lo..SECTOR * (lo + m - 1)] + s[lo + m - 1];
    } else {
      assert Sectors(b)[lo..lo] == [];
    }
  }

  lemma SectorSlice(b: seq<byte>, s: nat, o: nat, len: nat)
    requires SECTOR * s + SECTOR <= |b| && o + len <= SECTOR
    ensures b[SECTOR * s..SECTOR * s + SECTOR][o..o + len] == b[SECTOR * s + o..SECTOR * s + o + len]
  {
    SliceOfSlice(b, SECTOR * s, SECTOR, o, len);
  }

  lemma SeenWord(l: Layout, mb: nat, image: seq<byte>, k: nat, c: nat)
    requires Pieces(l, mb, image) && k < 2 && c < FAT_WORDS
    ensures 32 + 160 * k + 4 * c / SECTOR < |Sectors(image)|
    ensures NextCluster(l.rs) <= FAT_WORDS
    ensures Word(Sectors(image)[32 + 160 * k + 4 * c / SECTOR], c) == BuiltWords(l.rs, FAT_WORDS)[c]
  {
    var s, o := 32 + 160 * k + 4 * c / SECTOR, 4 * c % SECTOR;
    WordOffset(c);
    assert FatCell(image, k, c) == U32ToLe(BuiltWords(l.rs, FAT_WORDS)[c]);
    SectorSlice(image, s, o, 4);
    assert SECTOR * s + o == 16384 + 81920 * k + 4 * c;
    U32RoundTrip(BuiltWords(l.rs, FAT_WORDS)[c], Sectors(image)[s], o);
  }

  lemma SeenCluster(l: Layout, mb: nat, image: seq<byte>, i: nat)
    requires Pieces(l, mb, image) && i < ClusterLimit(mb) - 2
    ensures 352 + 8 * i + 8 <= |Sectors(image)|
    ensures Flat(Sectors(image)[352 + 8 * i..352 + 8 * i + 8]) == AreaCluster(Area(l), i)
  {
    assert DataCell(image, mb, i) == AreaCluster(Area(l), i);
    FlatSectors(image, 352 + 8 * i, 8);
  }

  lemma {:induction false} RunsPrefix(t: seq<nat>, c: nat, counts: seq<nat>, n: nat)
    requires c + Sum(counts) <= n <= |t|
    ensures WithRuns(t, c, counts)[..n] == WithRuns(t[..n], c, counts)
    decreases |counts|
  {
    if counts != [] {
      assert WithRun(t, c, counts[0])[..n] == WithRun(t[..n], c, counts[0]);
      RunsPrefix(WithRun(t, c, counts[0]), c + counts[0], counts[1..], n);
    }
  }

  lemma WordsPrefix(rs: seq<Record>, n: nat, c: nat)
    requires NextCluster(rs) <= n <= FAT_WORDS && c < n
    ensures BuiltWords(rs, FAT_WORDS)[c] == BuiltWords(rs, n)[c]
  {
    var t := BaseTable(FAT_WORDS);
    RunsPrefix(t, FIRST_FILE, Counts(rs), n);
    assert t[..n] == BaseTable(n);
    assert BuiltTable(rs, FAT_WORDS)[..n][c] == BuiltTable(rs, n)[c];
  }

  /** Mounting the image gives the volume the builder laid out. */
  lemma ImageView(l: Layout, mb: nat)
    requires LayoutFits(l, mb)
    ensures DiskOk(ImageGeometry(mb), Sectors(Image(l, mb)))
    ensures View(ImageGeometry(mb), Sectors(Image(l, mb))) == BuiltVolume(l, ClusterLimit(mb))
  {
    var image := Image(l, mb);
    ImagePieces(l, mb);
    GeometryFits(mb);
    SeenView(l, mb, image);
  }

  lemma SeenView(l: Layout, mb: nat, image: seq<byte>)
    requires LayoutFits(l, mb) && Pieces(l, mb, image) && DiskOk(ImageGeometry(mb), Sectors(image))
    requires ImageGeometry(mb).Clusters() == ClusterLimit(mb) - 2 && ImageGeometry(mb).Bpc() == CLUSTER
    ensures View(ImageGeometry(mb), Sectors(image)) == BuiltVolume(l, ClusterLimit(mb))
  {
    var g, disk, n := ImageGeometry(mb), Sectors(image), ClusterLimit(mb);
    var v, u := View(g, disk), BuiltVolume(l, n);
    forall k | 0 <= k < 2 ensures v.fats[k] == u.fats[k] {
      forall c | 0 <= c < n ensures v.fats[k][c] == u.fats[k][c] {
        ViewWord(g, disk, k, c);
        SeenWord(l, mb, image, k, c);
        WordsPrefix(l.rs, n, c);
      }
    }
    forall i | 0 <= i < n - 2 ensures v.data[i] == u.data[i] {
      SeenData(l, mb, image, i);
    }
    assert v.fats == u.fats && v.data == u.data;
  }

  lemma SeenData(l: Layout, mb: nat, image: seq<byte>, i: nat)
    requires Pieces(l, mb, image) && DiskOk(ImageGeometry(mb), Sectors(image)) && i < ClusterLimit(mb) - 2
    requires ImageGeometry(mb).Clusters() == ClusterLimit(mb) - 2
    ensures View(ImageGeometry(mb), Sectors(image)).data[i] == AreaCluster(Area(l), i)
  {
    SeenCluster(l, mb, image, i);
    ClusterSectorBounds(ImageGeometry(mb), i + 2);
    assert ImageGeometry(mb).ClusterSector(i + 2) == 352 + 8 * i;
  }
}
