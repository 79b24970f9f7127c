/**
 * Where the volume lies on the disk: 512-byte sectors, the FAT copies one after the other,
 * then the data clusters.
 */
module Fat32Layout {
  import opened Bytes
  import opened Fat32Spec

  const SECTOR: nat := 512

  type Sector = s: seq<byte> | |s| == SECTOR witness seq(512, _ => 0)

  /** The layout fields the driver takes from the boot sector. */
  datatype Geometry = Geometry(reserved: nat, numFats: nat, fatSize: nat, spc: nat, totalSectors: nat, root: nat) {
    function DataStart(): nat {
      reserved + numFats * fatSize
    }

    function Clusters(): nat
      requires 0 < spc && DataStart() <= totalSectors
    {
      (totalSectors - DataStart()) / spc
    }

    function Bpc(): nat {
      spc * SECTOR
    }

    /** At most a 4096-byte cluster, and a FAT with an entry for every cluster. */
    ghost predicate Ok() {
      && 0 < reserved && 0 < numFats && 0 < spc <= 8 && DataStart() <= totalSectors
      && Clusters() + 2 <= BAD && 4 * (Clusters() + 2) <= SECTOR * fatSize
      && totalSectors < 0x1_0000_0000
      && Clusters() * Bpc() < 0x1_0000_0000
    }

    function FatSector(k: nat, c: nat): nat {
      reserved + k * fatSize + 4 * c / SECTOR
    }

    function ClusterSector(c: nat): nat
      requires 2 <= c
    {
      DataStart() + (c - 2) * spc
    }
  }

  ghost predicate DiskOk(g: Geometry, disk: seq<Sector>) {
    g.Ok() && |disk| == g.totalSectors
  }

  lemma FatSectorBounds(g: Geometry, k: nat, c: nat)
    requires g.Ok() && k < g.numFats && c < g.Clusters() + 2
    ensures 4 * c / SECTOR < g.fatSize
    ensures g.FatSector(k, c) < g.DataStart() <= g.totalSectors
  {
    assert 4 * c / SECTOR < g.fatSize;
    CopyBelow(k, g.numFats, g.fatSize);
  }

  lemma CopyBelow(k: nat, n: nat, size: nat)
    requires k < n
    ensures k * size + size <= n * size
  {
    assert (k + 1) * size <= n * size;
  }

  /** Two FAT words share a sector only within one copy. */
  lemma FatSectorApart(g: Geometry, k: nat, c: nat, k': nat, c': nat)
    requires g.Ok() && k < g.numFats && k' < g.numFats && c < g.Clusters() + 2 && c' < g.Clusters() + 2
    requires g.FatSector(k, c) == g.FatSector(k', c')
    ensures k == k' && 4 * c / SECTOR == 4 * c' / SECTOR
  {
    FatSectorBounds(g, k, c);
    FatSectorBounds(g, k', c');
    if k < k' {
      CopyBelow(k, k', g.fatSize);
    } else if k' < k {
      CopyBelow(k', k, g.fatSize);
    }
  }

  lemma ClusterSectorBounds(g: Geometry, c: nat)
    requires g.Ok() && 2 <= c < g.Clusters() + 2
    ensures g.DataStart() <= g.ClusterSector(c) <= g.ClusterSector(c) + g.spc <= g.totalSectors
  {
    CopyBelow(c - 2, g.Clusters(), g.spc);
    FloorMul(g.totalSectors - g.DataStart(), g.spc);
  }

  lemma FloorMul(n: nat, k: nat)
    requires 0 < k
    ensures n / k * k <= n
  {
  }

  lemma ClusterSectorApart(g: Geometry, c: nat, d: nat)
    requires g.Ok() && 2 <= c && 2 <= d && c != d
    ensures g.ClusterSector(c) + g.spc <= g.ClusterSector(d) || g.ClusterSector(d) + g.spc <= g.ClusterSector(c)
  {
    if c < d {
      CopyBelow(c - 2, d - 2, g.spc);
    } else {
      CopyBelow(d - 2, c - 2, g.spc);
    }
  }

  // ---------------------------------------------------------------------------
  // The volume on the disk
  // ---------------------------------------------------------------------------

  lemma WordOffset(c: nat)
    ensures 4 * c % SECTOR + 4 <= SECTOR
  {
    assert 4 * c % SECTOR == 4 * (c % 128);
  }

  function Word(s: Sector, c: nat): u32 {
    WordOffset(c);
    U32FromLe(s, 4 * c % SECTOR)
  }

  function WithWord(s: Sector, c: nat, w: u32): Sector {
    WordOffset(c);
    Overwritten(s, 4 * c % SECTOR, U32ToLe(w))
  }

  lemma WordWritten(s: Sector, c: nat, w: u32, d: nat)
    ensures Word(WithWord(s, c, w), c) == w
    ensures 4 * c / SECTOR == 4 * d / SECTOR && c != d ==> Word(WithWord(s, c, w), d) == Word(s, d)
  {
    WordOffset(c);
    WordOffset(d);
    var t := WithWord(s, c, w);
    var o := 4 * c % SECTOR;
    assert t[o..o + 4] == U32ToLe(w);
    U32RoundTrip(w, t, o);
    if 4 * c / SECTOR == 4 * d / SECTOR && c != d {
      var p := 4 * d % SECTOR;
      assert p + 4 <= o || o + 4 <= p;
      assert t[p..p + 4] == s[p..p + 4];
    }
  }

  function Flat(sectors: seq<Sector>): (b: seq<byte>)
    ensures |b| == |sectors| * SECTOR
  {
    if sectors == [] then [] else sectors[0] + Flat(sectors[1..])
  }

  lemma {:induction false} FlatSnoc(a: seq<Sector>, s: Sector)
    ensures Flat(a + [s]) == Flat(a) + s
  {
    if a == [] {
      assert a + [s] == [s];
      assert [s][1..] == [];
      assert Flat([s]) == s + Flat([s][1..]);
    } else {
      assert (a + [s])[1..] == a[1..] + [s];
      FlatSnoc(a[1..], s);
    }
  }

  function FatCopy(g: Geometry, disk: seq<Sector>, k: nat): (t: seq<u32>)
    requires DiskOk(g, disk) && k < g.numFats
    ensures |t| == g.Clusters() + 2
  {
    seq(g.Clusters() + 2, c requires 0 <= c < g.Clusters() + 2 =>
      FatSectorBounds(g, k, c);
      Word(disk[g.FatSector(k, c)], c))
  }

  function ClusterBytes(g: Geometry, disk: seq<Sector>, c: nat): (b: seq<byte>)
    requires DiskOk(g, disk) && 2 <= c < g.Clusters() + 2
    ensures |b| == g.Bpc()
  {
    ClusterSectorBounds(g, c);
    Flat(disk[g.ClusterSector(c)..g.ClusterSector(c) + g.spc])
  }

  /** What the FAT and cluster accesses see of the disk. */
  function View(g: Geometry, disk: seq<Sector>): (v: Volume)
    requires DiskOk(g, disk)
    ensures Shaped(v) && |v.fats| == g.numFats && |v.data| == g.Clusters() && v.bpc == g.Bpc()
  {
    Volume(g.Bpc(),
      seq(g.numFats, k requires 0 <= k < g.numFats => FatCopy(g, disk, k)),
      seq(g.Clusters(), i requires 0 <= i < g.Clusters() => ClusterBytes(g, disk, i + 2)))
  }

  lemma ViewWord(g: Geometry, disk: seq<Sector>, k: nat, c: nat)
    requires DiskOk(g, disk) && k < g.numFats && c < g.Clusters() + 2
    ensures g.FatSector(k, c) < |disk|
    ensures View(g, disk).fats[k][c] == Word(disk[g.FatSector(k, c)], c)
  {
    FatSectorBounds(g, k, c);
  }

  /** The volume with one word of one copy replaced. */
  function WithCopyWord(v: Volume, k: nat, c: nat, w: u32): Volume
    requires k < |v.fats| && c < |v.fats[k]|
  {
    var row: seq<u32> := v.fats[k][c := w];
    v.(fats := v.fats[k := row])
  }

  /** Writing a FAT word changes that word of that copy and nothing else of the volume. */
  lemma WordInView(g: Geometry, disk: seq<Sector>, k: nat, c: nat, w: u32)
    requires DiskOk(g, disk) && k < g.numFats && c < g.Clusters() + 2
    ensures g.FatSector(k, c) < |disk|
    ensures var s := g.FatSector(k, c);
      var after := disk[s := WithWord(disk[s], c, w)];
      var v := View(g, disk);
      View(g, after) == WithCopyWord(v, k, c, w)
  {
    FatSectorBounds(g, k, c);
    var s := g.FatSector(k, c);
    var after := disk[s := WithWord(disk[s], c, w)];
    var v, u := View(g, disk), View(g, after);
    forall k', c' | 0 <= k' < g.numFats && 0 <= c' < g.Clusters() + 2
      ensures u.fats[k'][c'] == if k' == k && c' == c then w else v.fats[k'][c']
    {
      ViewWord(g, disk, k', c');
      ViewWord(g, after, k', c');
      if g.FatSector(k', c') == s {
        FatSectorApart(g, k, c, k', c');
        WordWritten(disk[s], c, w, c');
      }
    }
    var x := WithCopyWord(v, k, c, w);
    forall k' | 0 <= k' < g.numFats ensures u.fats[k'] == x.fats[k'] {
    }
    forall i | 0 <= i < g.Clusters() ensures u.data[i] == v.data[i] {
      ClusterSectorBounds(g, i + 2);
      var lo := g.ClusterSector(i + 2);
      assert after[lo..lo + g.spc] == disk[lo..lo + g.spc];
    }
    assert u.fats == x.fats;
    assert u.data == v.data;
  }

  /** Writing the sectors of a cluster changes that cluster and nothing else of the volume. */
  lemma ClusterInView(g: Geometry, disk: seq<Sector>, after: seq<Sector>, c: nat)
    requires DiskOk(g, disk) && DiskOk(g, after) && 2 <= c < g.Clusters() + 2
    requires forall s | 0 <= s < |disk| && !(g.ClusterSector(c) <= s < g.ClusterSector(c) + g.spc) :: after[s] == disk[s]
    ensures View(g, after) == WithCluster(View(g, disk), c, ClusterBytes(g, after, c))
  {
    ClusterSectorBounds(g, c);
    var v, u := View(g, disk), View(g, after);
    forall k | 0 <= k < g.numFats ensures u.fats[k] == v.fats[k] {
      forall j | 0 <= j < g.Clusters() + 2 ensures u.fats[k][j] == v.fats[k][j] {
        FatSectorBounds(g, k, j);
        ViewWord(g, disk, k, j);
        ViewWord(g, after, k, j);
      }
    }
    forall i | 0 <= i < g.Clusters() && i + 2 != c ensures u.data[i] == v.data[i] {
      ClusterSectorBounds(g, i + 2);
      ClusterSectorApart(g, c, i + 2);
      var lo := g.ClusterSector(i + 2);
      assert after[lo..lo + g.spc] == disk[lo..lo + g.spc];
    }
    assert u.fats == v.fats;
    assert u.data == v.data[c - 2 := ClusterBytes(g, after, c)];
  }
}
