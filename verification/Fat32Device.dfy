/** Sector-level access to the FAT and the clusters, through the driver's scratch buffer. */
module Fat32Device {
  import opened Bytes
  import opened Fat32Spec
  import opened Fat32Layout

  /**
   * The mounted volume.  `clusterBuffer` is the part of the shared 4096-byte buffer that holds
   * one cluster; every cluster read overwrites it.
   */
  class Device {
    const g: Geometry
    const totalClusters: nat
    const bytesPerCluster: nat
    var disk: seq<Sector>
    var clusterBuffer: seq<byte>
    ghost var vol: Volume

    ghost predicate Valid()
      reads this
    {
      && OnDisk(g, disk, vol, 3) && Shaped(vol)
      && |vol.data| == totalClusters && vol.bpc == bytesPerCluster && |clusterBuffer| == bytesPerCluster
    }

    constructor (g: Geometry, disk: seq<Sector>)
      requires DiskOk(g, disk)
      ensures Valid() && this.g == g && this.disk == disk && vol == View(g, disk)
    {
      this.g := g;
      this.totalClusters := g.Clusters();
      this.bytesPerCluster := g.Bpc();
      this.disk := disk;
      this.clusterBuffer := seq(g.Bpc(), _ => 0);
      this.vol := View(g, disk);
      OnDiskMeaning(g, disk, View(g, disk));
    }

    /** The 28-bit entry of a cluster; a bad-cluster mark outside the volume. */
    method ReadFatEntry(cluster: nat) returns (r: nat)
      requires Valid()
      ensures r == if 2 <= cluster < |vol.data| + 2 then Table(vol)[cluster] else BAD
    {
      if cluster < 2 || totalClusters + 2 <= cluster {
        return BAD;
      }
      OnDiskMeaning(g, disk, vol);
      ViewWord(g, disk, 0, cluster);
      var fatOffset := cluster * 4;
      var fatSector := g.reserved + fatOffset / SECTOR;
      WordOffset(cluster);
      var sectorBuffer := disk[fatSector];
      r := U32FromLe(sectorBuffer, fatOffset % SECTOR) % LOW_BITS;
    }

    /** Writes the entry in every copy, keeping each copy's top four bits. */
    method WriteFatEntry(cluster: nat, value: u32) returns (ok: bool)
      requires Valid()
      modifies this`disk, this`vol
      ensures Valid()
      ensures ok == (2 <= cluster < |old(vol).data| + 2)
      ensures vol == if ok then WithEntry(old(vol), cluster, value % LOW_BITS) else old(vol)
    {
      if cluster < 2 || totalClusters + 2 <= cluster {
        return false;
      }
      OnDiskMeaning(g, disk, vol);
      var masked := value % LOW_BITS;
      ghost var v := vol;
      var fat := 0;
      while fat < g.numFats
        invariant fat <= g.numFats && DiskOk(g, disk) && vol == View(g, disk)
        invariant vol.data == v.data && vol.bpc == v.bpc && |vol.fats| == |v.fats|
        invariant forall k | 0 <= k < fat :: vol.fats[k] == WithEntry(v, cluster, masked).fats[k]
        invariant forall k | fat <= k < g.numFats :: vol.fats[k] == v.fats[k]
      {
        WordInView(g, disk, fat, cluster, Merged(v.fats[fat][cluster], masked));
        ViewWord(g, disk, fat, cluster);
        var sector := g.FatSector(fat, cluster);
        WordOffset(cluster);
        var current := U32FromLe(disk[sector], 4 * cluster % SECTOR);
        var merged := current / LOW_BITS * LOW_BITS + masked;
        disk := disk[sector := WithWord(disk[sector], cluster, merged)];
        vol := View(g, disk);
        fat := fat + 1;
      }
      assert vol.fats == WithEntry(v, cluster, masked).fats;
      OnDiskMeaning(g, disk, vol);
      ok := true;
    }

    /** Reads a cluster into the buffer, sector by sector. */
    method ReadCluster(cluster: nat) returns (ok: bool)
      requires Valid()
      modifies this`clusterBuffer
      ensures Valid()
      ensures ok == (2 <= cluster < |vol.data| + 2)
      ensures clusterBuffer == if ok then Cluster(vol, cluster) else old(clusterBuffer)
    {
      if cluster < 2 || totalClusters + 2 <= cluster {
        return false;
      }
      OnDiskMeaning(g, disk, vol);
      ClusterSectorBounds(g, cluster);
      var first := g.DataStart() + (cluster - 2) * g.spc;
      var buffer := [];
      for i := 0 to g.spc
        invariant buffer == Flat(disk[first..first + i])
      {
        assert disk[first..first + i + 1] == disk[first..first + i] + [disk[first + i]];
        FlatSnoc(disk[first..first + i], disk[first + i]);
        buffer := buffer + disk[first + i];
      }
      clusterBuffer := buffer;
      ok := true;
    }

    /** Writes the buffer to a cluster, sector by sector. */
    method WriteCluster(cluster: nat) returns (ok: bool)
      requires Valid()
      modifies this`disk, this`vol
      ensures Valid()
      ensures ok == (2 <= cluster < |old(vol).data| + 2)
      ensures vol == if ok then WithCluster(old(vol), cluster, clusterBuffer) else old(vol)
    {
      if cluster < 2 || totalClusters + 2 <= cluster {
        return false;
      }
      OnDiskMeaning(g, disk, vol);
      ClusterSectorBounds(g, cluster);
      var first := g.DataStart() + (cluster - 2) * g.spc;
      ghost var before := disk;
      for i := 0 to g.spc
        invariant DiskOk(g, disk)
        invariant forall s | 0 <= s < |disk| && !(first <= s < first + i) :: disk[s] == before[s]
        invariant Flat(disk[first..first + i]) == clusterBuffer[..i * SECTOR]
      {
        BufferSector(i, g.spc);
        var sector: Sector := clusterBuffer[i * SECTOR..i * SECTOR + SECTOR];
        ghost var done := disk[first..first + i];
        disk := disk[first + i := sector];
        assert disk[first..first + i + 1] == done + [sector];
        FlatSnoc(done, sector);
        assert clusterBuffer[..(i + 1) * SECTOR] == clusterBuffer[..i * SECTOR] + sector;
      }
      ClusterInView(g, before, disk, cluster);
      assert clusterBuffer[..g.spc * SECTOR] == clusterBuffer;
      vol := View(g, disk);
      OnDiskMeaning(g, disk, vol);
      ok := true;
    }
  }

  /** The disk holds the volume; the depth only keeps the definition out of proofs that do not need it. */
  ghost predicate OnDisk(g: Geometry, disk: seq<Sector>, vol: Volume, depth: nat)
    decreases depth, disk
  {
    if depth == 0 then DiskOk(g, disk) && vol == View(g, disk) else OnDisk(g, disk, vol, depth - 1)
  }

  lemma OnDiskMeaning(g: Geometry, disk: seq<Sector>, vol: Volume)
    ensures OnDisk(g, disk, vol, 3) <==> DiskOk(g, disk) && vol == View(g, disk)
  {
    assert OnDisk(g, disk, vol, 3) == OnDisk(g, disk, vol, 2) == OnDisk(g, disk, vol, 1) == OnDisk(g, disk, vol, 0);
  }

  lemma BufferSector(i: nat, n: nat)
    requires i < n
    ensures i * SECTOR + SECTOR <= n * SECTOR
    ensures (i + 1) * SECTOR == i * SECTOR + SECTOR
  {
  }
}
