/** The FAT32 driver: cluster allocation, directories, and open, read and write on descriptors. */
module Fat32Driver {
  import opened Bytes
  import opened Fat32Spec
  import opened Fat32Tree
  import opened Fat32Safety
  import opened Fat32Alloc
  import opened Fat32Names
  import opened Fat32Layout
  import opened Fat32Device
  import opened Fat32Ops
  import opened Fat32Runs
  import opened Fat32Open
  import opened Fat32Reach

  /** The path "/home". */
  const HOME: seq<byte> := [47, 104, 111, 109, 101]

  /** The directory a mount makes current. */
  function HomeOf(fs: Fs): nat {
    match SlotOf(Sys(fs, [], fs.root), HOME)
    case None => fs.root
    case Some((d, i)) => if InDisk(fs, d, i) && IsDir(Slot(fs, d, i)) then First(Slot(fs, d, i)) else fs.root
  }

  class Driver {
    const dev: Device
    var fds: seq<Descriptor>
    var currentDirectory: nat
    ghost var chains: Chains
    ghost var dirs: set<nat>

    ghost function State(): Fs
      reads this, dev
    {
      Fs(dev.vol, chains, dirs, dev.g.root)
    }

    ghost function System(): Sys
      reads this, dev
    {
      Sys(State(), fds, currentDirectory)
    }

    /** The volume is on the disk and its chains and entries are in order. */
    ghost predicate Sound()
      reads this, dev
    {
      dev.Valid() && FsOk(State())
    }

    ghost predicate Valid()
      reads this, dev
    {
      dev.Valid() && SysOk(System())
    }

    /** Mounts a sound volume; the current directory is /home where there is one. */
    constructor (dev: Device, ghost chains: Chains, ghost dirs: set<nat>)
      requires dev.Valid() && FsOk(Fs(dev.vol, chains, dirs, dev.g.root))
      modifies dev`clusterBuffer
      ensures Valid() && this.dev == dev && State() == Fs(dev.vol, chains, dirs, dev.g.root)
      ensures fds == seq(MAX_OPEN_FILES, _ => CLOSED)
      ensures currentDirectory == HomeOf(State())
    {
      this.dev := dev;
      this.fds := seq(MAX_OPEN_FILES, _ => CLOSED);
      this.currentDirectory := dev.g.root;
      this.chains := chains;
      this.dirs := dirs;
      new;
      RootSystem(System());
      SysMeaning(System());
      var slot, e := FindEntry(HOME);
      HomeDir(State());
      if slot.Some? && IsDir(e) {
        currentDirectory := First(e);
      }
      SysMeaning(System());
    }

    // -------------------------------------------------------------------------
    // Clusters
    // -------------------------------------------------------------------------

    method NextCluster(cluster: nat) returns (r: nat)
      requires dev.Valid()
      ensures r == NextOf(dev.vol, cluster)
    {
      var next := dev.ReadFatEntry(cluster);
      if EOC_MIN <= next && next <= EOC_MAX {
        return 0;
      }
      if next == BAD || next == FREE {
        return 0;
      }
      r := next;
    }

    /** How many clusters are free; unknown as soon as an entry reads as bad. */
    method CountFreeClusters() returns (r: nat)
      requires dev.Valid()
      ensures r == if BAD in Table(dev.vol)[2..] then 0xFFFF_FFFF else FreeCount(Table(dev.vol))
    {
      r := 0;
      ghost var t := Table(dev.vol);
      for cluster := 2 to dev.totalClusters + 2
        invariant r == FreeBelow(t, cluster)
        invariant BAD !in t[2..cluster]
      {
        var entry := dev.ReadFatEntry(cluster);
        if entry == BAD {
          assert t[2..][cluster - 2] == BAD;
          return 0xFFFF_FFFF;
        }
        if entry == FREE {
          r := r + 1;
        }
        assert t[2..cluster + 1] == t[2..cluster] + [t[cluster]];
      }
      assert t[2..|t|] == t[2..];
    }

    method FindFreeCluster() returns (r: nat)
      requires dev.Valid()
      ensures r == LowestFree(Table(dev.vol), 2)
    {
      ghost var t := Table(dev.vol);
      for c := 2 to dev.totalClusters + 2
        invariant LowestFree(t, 2) == LowestFree(t, c)
      {
        var entry := dev.ReadFatEntry(c);
        if entry == FREE {
          return c;
        }
      }
      r := 0;
    }

    method AllocClusterRaw() returns (r: nat)
      requires Sound()
      modifies this`chains, dev`disk, dev`vol
      ensures dev.Valid() && r == Next(old(State()))
      ensures State() == if r == 0 then old(State()) else Allocated(old(State()), r)
    {
      r := FindFreeCluster();
      if r == 0 {
        return;
      }
      NextMeaning(State());
      ShapedOk(State());
      LowWord(EOC_MAX);
      var ok := dev.WriteFatEntry(r, EOC_MAX);
      chains := chains[r := [r]];
    }

    method ZeroCluster(c: nat)
      requires dev.Valid()
      modifies dev`clusterBuffer, dev`disk, dev`vol
      ensures dev.Valid() && State() == Zeroed(old(State()), c)
    {
      dev.clusterBuffer := Zeros(dev.bytesPerCluster);
      var ok := dev.WriteCluster(c);
    }

    /** A new one-cluster chain of zero bytes that nothing uses yet. */
    method AllocCluster() returns (r: nat)
      requires Sound()
      modifies this`chains, dev
      ensures Sound() && r == Next(old(State())) && State() == Fresh(old(State()))
    {
      ghost var before := State();
      r := AllocClusterRaw();
      if r == 0 {
        return;
      }
      FreshKeeps(before);
      ZeroCluster(r);
    }

    /** The end of a chain. */
    method LastCluster(first: nat, ghost p: seq<nat>) returns (r: nat)
      requires dev.Valid() && IsChain(dev.vol, p) && p[0] == first
      ensures r == Last(p)
    {
      var cluster := first;
      NextInChain(dev.vol, p, 0);
      var next := NextCluster(cluster);
      ghost var i := 0;
      while next != 0
        invariant 0 <= i < |p| && cluster == p[i]
        invariant next == if i + 1 < |p| then p[i + 1] else 0
        decreases |p| - i
      {
        cluster := next;
        i := i + 1;
        NextInChain(dev.vol, p, i);
        next := NextCluster(cluster);
      }
      r := cluster;
    }

    /** The cluster `index` steps down a chain, or zero if the chain is shorter. */
    method WalkTo(first: nat, index: nat, ghost p: seq<nat>) returns (cluster: nat)
      requires dev.Valid() && IsChain(dev.vol, p) && p[0] == first
      ensures cluster == if index < |p| then p[index] else 0
    {
      cluster := first;
      for i := 0 to index
        invariant i < |p| && cluster == p[i]
      {
        NextInChain(dev.vol, p, i);
        cluster := NextCluster(cluster);
        if cluster == 0 {
          return;
        }
      }
    }

    /** The number of bytes the clusters of a chain hold. */
    method Capacity(first: nat, ghost p: seq<nat>) returns (cap: nat)
      requires dev.Valid() && (first == 0 ==> p == []) && (first != 0 ==> IsChain(dev.vol, p) && p[0] == first)
      ensures cap == Times(|p|, dev.vol.bpc)
    {
      cap := 0;
      var scan := first;
      ghost var i := 0;
      while scan != 0
        invariant 0 <= i <= |p| && scan == if i < |p| then p[i] else 0
        invariant cap == Times(i, dev.vol.bpc)
        decreases |p| - i
      {
        cap := cap + dev.bytesPerCluster;
        NextInChain(dev.vol, p, i);
        scan := NextCluster(scan);
        i := i + 1;
      }
    }

    // -------------------------------------------------------------------------
    // Growing a chain
    // -------------------------------------------------------------------------

    /** Allocates a cluster and links it to the end of a chain. */
    method AddCluster(first: nat, last: nat) returns (n: nat)
      requires Sound() && first in chains && chains[first] != [] && last == Last(chains[first])
      modifies this`chains, dev
      ensures Sound() && n == Next(old(State()))
      ensures State() == if n == 0 then old(State()) else Appended(old(State()), first)
      ensures n != 0 ==> chains == old(chains)[first := old(chains)[first] + [n]]
    {
      ghost var before := State();
      n := AllocCluster();
      if n == 0 {
        return;
      }
      AppendedKeeps(before, first);
      FreshKeeps(before);
      ShapedOk(before);
      ChainWithin(before, first);
      LowWord(n);
      var ok := dev.WriteFatEntry(last, n);
      chains := Joined(chains, first, n);
    }

    /** Adds clusters to the end of a chain one at a time, and stops when none is left. */
    method Grow(first: nat, add: nat) returns (ok: bool)
      requires Sound() && first in chains
      modifies this`chains, dev
      ensures Sound() && State() == Grown(old(State()), first, add)
      ensures ok <==> add <= FreeOf(old(State()))
    {
      ghost var before := State();
      ChainOf(before, first);
      var last := LastCluster(first, chains[first]);
      for i := 0 to add
        invariant Sound() && first in chains && chains[first] != [] && last == Last(chains[first])
        invariant Growing(before, State(), first, add, i)
      {
        GrowingStep(before, State(), first, add, i);
        var n := AddCluster(first, last);
        if n == 0 {
          return false;
        }
        last := n;
      }
      ok := true;
    }

    // -------------------------------------------------------------------------
    // Moving bytes
    // -------------------------------------------------------------------------

    /** One round of a read: the next stretch of a chain, empty once all that is wanted is there. */
    method ReadChunk(cluster: nat, offset: nat, avail: nat, ghost p: seq<nat>, ghost index: nat, ghost start: nat,
                     ghost pos: nat, ghost total: nat)
      returns (chunk: seq<byte>)
      requires dev.Valid() && IsChain(dev.vol, p) && index < |p| && cluster == p[index] && start == Times(index, dev.vol.bpc)
      requires offset + avail <= dev.vol.bpc && pos + total <= |Stream(dev.vol, p)| && (avail > 0 ==> start + offset == pos + total)
      modifies dev`clusterBuffer
      ensures dev.Valid() && |chunk| == avail && pos + total + avail <= |Stream(dev.vol, p)|
      ensures Stream(dev.vol, p)[pos..pos + total] + chunk == Stream(dev.vol, p)[pos..pos + total + avail]
    {
      var ok := dev.ReadCluster(cluster);
      if avail > 0 {
        ChunkRead(dev.vol, p, index, start, pos, total, offset, avail);
      }
      chunk := dev.clusterBuffer[offset..offset + avail];
    }

    /** The round and the step to the next cluster. */
    method ReadRound(cluster: nat, offset: nat, avail: nat, ghost p: seq<nat>, ghost index: nat, ghost start: nat,
                     ghost pos: nat, ghost total: nat, ghost n: nat)
      returns (chunk: seq<byte>, next: nat)
      requires dev.Valid() && IsChain(dev.vol, p) && pos + n <= |Stream(dev.vol, p)| && total <= n && cluster != 0
      requires Transfer(p, index, cluster, dev.vol.bpc, start, offset, pos + total, total < n)
      requires avail == Min(dev.vol.bpc - offset, n - total)
      modifies dev`clusterBuffer
      ensures dev.Valid() && |chunk| == avail && total + avail <= n
      ensures Stream(dev.vol, p)[pos..pos + total] + chunk == Stream(dev.vol, p)[pos..pos + total + avail]
      ensures Transfer(p, index + 1, next, dev.vol.bpc, start + dev.vol.bpc, 0, pos + total + avail, total + avail < n)
    {
      chunk := ReadChunk(cluster, offset, avail, p, index, start, pos, total);
      GoOn(dev.vol, p, index, cluster, start, offset, pos + total + avail, pos + n);
      next := NextCluster(cluster);
    }

    /** The cluster byte `pos` of a chain lies in, and where in it; zero at the end of the chain. */
    method Seek(first: nat, pos: nat, ghost p: seq<nat>) returns (cluster: nat, offset: nat, ghost index: nat, ghost start: nat)
      requires dev.Valid() && IsChain(dev.vol, p) && p[0] == first && pos <= |Stream(dev.vol, p)|
      ensures pos < |Stream(dev.vol, p)| ==> At(p, index, cluster, dev.vol.bpc, start, offset, pos)
      ensures pos == |Stream(dev.vol, p)| ==> cluster == 0
    {
      if pos < |Stream(dev.vol, p)| {
        AtStart(dev.vol, p, pos);
      } else {
        AtEnd(dev.vol, p);
      }
      cluster := WalkTo(first, pos / dev.bytesPerCluster, p);
      offset := pos % dev.bytesPerCluster;
      index, start := pos / dev.bytesPerCluster, pos - offset;
    }

    /**
      Collects bytes of a chain from byte `pos` on, cluster by cluster. What is left to copy is cut to 32 bits in every
      round, so of a longer `count` only the low 32 bits are ever copied; the walk then goes on to the end of the chain.
     */
    method CopyOut(first: nat, pos: nat, count: nat, ghost p: seq<nat>) returns (out: seq<byte>)
      requires dev.Valid() && IsChain(dev.vol, p) && p[0] == first
      requires pos < |Stream(dev.vol, p)| && pos + count % TOP <= |Stream(dev.vol, p)|
      modifies dev`clusterBuffer
      ensures dev.Valid() && out == Stream(dev.vol, p)[pos..pos + count % TOP]
    {
      ghost var n := count % TOP;
      var bpc := dev.bytesPerCluster;
      var cluster, offset, index, start := Seek(first, pos, p);
      out := [];
      var total: nat := 0;
      while total < count && cluster != 0
        invariant dev.Valid() && total <= n && out == Stream(dev.vol, p)[pos..pos + total]
        invariant Transfer(p, index, cluster, bpc, start, offset, pos + total, total < n)
        decreases |p| - index
      {
        CutRemaining(count, total);
        var avail: nat := Min(bpc - offset, (count - total) % TOP);
        var chunk;
        chunk, cluster := ReadRound(cluster, offset, avail, p, index, start, pos, total, n);
        out, total, offset := out + chunk, total + avail, 0;
        start := start + bpc;
        index := index + 1;
      }
    }

    /** Reads a cluster, changes part of it and writes it back. */
    method PatchCluster(cluster: nat, offset: nat, chunk: seq<byte>)
      requires dev.Valid() && 2 <= cluster < |dev.vol.data| + 2 && offset + |chunk| <= dev.vol.bpc
      modifies dev
      ensures dev.Valid() && |Cluster(old(dev.vol), cluster)| == dev.vol.bpc
      ensures dev.vol == WithCluster(old(dev.vol), cluster, Overwritten(Cluster(old(dev.vol), cluster), offset, chunk))
    {
      var ok := dev.ReadCluster(cluster);
      dev.clusterBuffer := Overwritten(dev.clusterBuffer, offset, chunk);
      ok := dev.WriteCluster(cluster);
    }

    /** One round of a write: the next stretch goes into the cluster it belongs to; an empty one leaves the cluster as it is. */
    method WriteChunk(ghost p: seq<nat>, ghost v: Volume, ghost s: seq<byte>, pos: nat, ghost done: seq<byte>,
                      ghost index: nat, cluster: nat, ghost start: nat, offset: nat, chunk: seq<byte>)
      requires dev.Valid() && IsChain(v, p) && Progress(v, dev.vol, p, s, pos, done) && index < |p| && cluster == p[index]
      requires chunk != [] ==> At(p, index, cluster, dev.vol.bpc, start, offset, pos + |done|)
      requires offset + |chunk| <= dev.vol.bpc && pos + |done| + |chunk| <= |s|
      modifies dev
      ensures dev.Valid() && Progress(v, dev.vol, p, s, pos, done + chunk)
    {
      ProgressUnfolds(v, dev.vol, p, s, pos, done);
      if chunk != [] {
        ChunkWritten(dev.vol, p, index, start, offset, chunk, s, pos, done);
      } else {
        SameCluster(dev.vol, cluster, offset);
        assert done + chunk == done;
      }
      PatchCluster(cluster, offset, chunk);
      ProgressUnfolds(v, dev.vol, p, s, pos, done + chunk);
    }

    /**
      Writes bytes over those of a chain from byte `pos` on, cluster by cluster. As in a read, what is left of `count` is
      cut to 32 bits in every round; once all is written the walk goes on to the end of the chain and changes nothing.
     */
    method CopyIn(first: nat, pos: nat, buf: seq<byte>, count: nat, ghost p: seq<nat>) returns (ok: bool)
      requires dev.Valid() && IsChain(dev.vol, p) && p[0] == first
      requires pos + |buf| <= |Stream(dev.vol, p)| && |buf| == count % TOP
      modifies dev
      ensures ok <==> pos < |Stream(old(dev.vol), p)|
      ensures dev.Valid() && Progress(old(dev.vol), dev.vol, p, Stream(old(dev.vol), p), pos, buf)
    {
      ghost var s, v := Stream(dev.vol, p), dev.vol;
      var bpc := dev.bytesPerCluster;
      var cluster, offset, index, start := Seek(first, pos, p);
      ProgressNone(v, p, pos);
      if cluster == 0 {
        return false;
      }
      var total: nat := 0;
      while total < count && cluster != 0
        invariant dev.Valid() && total <= |buf| && Progress(v, dev.vol, p, s, pos, buf[..total])
        invariant Transfer(p, index, cluster, bpc, start, offset, pos + total, total < |buf|)
        decreases |p| - index
      {
        CutRemaining(count, total);
        var avail: nat := Min(bpc - offset, (count - total) % TOP);
        WriteRound(p, v, s, pos, buf, total, index, cluster, start, offset, avail);
        total := total + avail;
        GoOn(dev.vol, p, index, cluster, start, offset, pos + total, pos + |buf|);
        cluster := NextCluster(cluster);
        offset := 0;
        start := start + bpc;
        index := index + 1;
      }
      assert buf[..total] == buf;
      ok := true;
    }

    method WriteRound(ghost p: seq<nat>, ghost v: Volume, ghost s: seq<byte>, pos: nat, buf: seq<byte>, total: nat,
                      ghost index: nat, cluster: nat, ghost start: nat, offset: nat, avail: nat)
      requires dev.Valid() && IsChain(v, p) && s == Stream(v, p) && pos + |buf| <= |s| && total + avail <= |buf|
      requires Progress(v, dev.vol, p, s, pos, buf[..total]) && index < |p| && cluster == p[index] && offset + avail <= dev.vol.bpc
      requires avail > 0 ==> At(p, index, cluster, dev.vol.bpc, start, offset, pos + total)
      modifies dev
      ensures dev.Valid() && Progress(v, dev.vol, p, s, pos, buf[..total + avail])
      ensures IsChain(dev.vol, p) && dev.vol.bpc == v.bpc && |Stream(dev.vol, p)| == |s|
    {
      WriteChunk(p, v, s, pos, buf[..total], index, cluster, start, offset, buf[total..total + avail]);
      assert buf[..total] + buf[total..total + avail] == buf[..total + avail];
      ProgressChain(v, dev.vol, p, s, pos, buf[..total + avail]);
    }

    // -------------------------------------------------------------------------
    // Directory entries
    // -------------------------------------------------------------------------

    method UpdateEntrySize(d: nat, i: nat, size: u32) returns (ok: bool)
      requires dev.Valid()
      modifies dev
      ensures dev.Valid() && ok == InDisk(old(State()), d, i)
      ensures State() == SetSize(old(State()), d, i, size)
    {
      ok := dev.ReadCluster(d);
      if !ok {
        return;
      }
      if dev.bytesPerCluster / 32 <= i {
        return false;
      }
      StoreEntry(d, i, WithSize(EntryAt(dev.clusterBuffer, i), size));
    }

    method UpdateEntryCluster(d: nat, i: nat, c: u32) returns (ok: bool)
      requires dev.Valid()
      modifies dev
      ensures dev.Valid() && ok == InDisk(old(State()), d, i)
      ensures State() == SetFirst(old(State()), d, i, c)
    {
      ok := dev.ReadCluster(d);
      if !ok {
        return;
      }
      if dev.bytesPerCluster / 32 <= i {
        return false;
      }
      StoreEntry(d, i, WithFirst(EntryAt(dev.clusterBuffer, i), c));
    }

    /** Searches one directory cluster for a short name. */
    method FindEntryInCluster(cluster: nat, name: seq<byte>) returns (r: Option<nat>, e: Entry)
      requires dev.Valid()
      modifies dev`clusterBuffer
      ensures dev.Valid() && r == Find(Cluster(dev.vol, cluster), name)
      ensures r.Some? ==> 32 * r.value + 32 <= |Cluster(dev.vol, cluster)| && e == EntryAt(Cluster(dev.vol, cluster), r.value)
    {
      e := Zeros(32);
      var ok := dev.ReadCluster(cluster);
      if !ok {
        return None, e;
      }
      var n := dev.bytesPerCluster / 32;
      for i := 0 to n
        invariant dev.Valid() && dev.clusterBuffer == Cluster(dev.vol, cluster)
        invariant Find(dev.clusterBuffer, name) == FindFrom(dev.clusterBuffer, name, i)
      {
        e := EntryAt(dev.clusterBuffer, i);
        if e[0] == 0 {
          return None, e;
        }
        if e[0] != DELETED && Attr(e) != ATTR_LONG_NAME && Name(e) == name {
          return Some(i), e;
        }
      }
      r := None;
    }

    /** Walks a path to the directory and the name of its last component. */
    method SplitPath(path: seq<byte>) returns (r: Option<(nat, seq<byte>)>)
      requires dev.Valid()
      modifies dev`clusterBuffer
      ensures dev.Valid() && Equivalent(r, Resolve(dev.vol, dev.g.root, currentDirectory, path))
    {
      var current := currentDirectory;
      var rest := path;
      if path != [] && path[0] == SLASH {
        current := dev.g.root;
        rest := path[1..];
      }
      ghost var target := Split(dev.vol, current, rest, []);
      var comp := [];
      for i := 0 to |rest|
        invariant dev.Valid() && |comp| <= 255
        invariant Equivalent(Split(dev.vol, current, rest[i..], comp), target)
      {
        assert rest[i..][1..] == rest[i + 1..];
        if rest[i] == SLASH {
          if comp != [] {
            var name := FormatName(comp);
            if name.None? {
              return None;
            }
            var index, e := FindEntryInCluster(current, name.value);
            if index.None? || !IsDir(e) {
              return None;
            }
            current := First(e);
            comp := [];
          }
        } else {
          if |comp| < 255 {
            comp := comp + [rest[i]];
          } else {
            SplitLong(dev.vol, current, rest[i + 1..], comp);
            SplitLong(dev.vol, current, rest[i + 1..], comp + [rest[i]]);
          }
        }
      }
      if comp == [] {
        return None;
      }
      if |comp| + 1 > 255 {
        LongUnformatted(comp);
        return None;
      }
      r := Some((current, comp));
    }

    /** Looks a path up. */
    method FindEntry(path: seq<byte>) returns (slot: Option<(nat, nat)>, e: Entry)
      requires dev.Valid()
      modifies dev`clusterBuffer
      ensures dev.Valid() && slot == SlotOf(System(), path)
      ensures slot.Some? ==> InDisk(State(), slot.value.0, slot.value.1) && e == Slot(State(), slot.value.0, slot.value.1)
    {
      e := Zeros(32);
      var target := SplitPath(path);
      if target.None? {
        return None, e;
      }
      var name := FormatName(target.value.1);
      if name.None? {
        return None, e;
      }
      var index;
      index, e := FindEntryInCluster(target.value.0, name.value);
      if index.None? {
        return None, e;
      }
      slot := Some((target.value.0, index.value));
    }

    /** The first entry of the buffered directory that is free or deleted. */
    method FindGap() returns (r: Option<nat>)
      requires dev.Valid()
      ensures r == GapFrom(dev.clusterBuffer, 0)
    {
      var n := dev.bytesPerCluster / 32;
      for i := 0 to n
        invariant GapFrom(dev.clusterBuffer, 0) == GapFrom(dev.clusterBuffer, i)
      {
        var mark := EntryAt(dev.clusterBuffer, i)[0];
        if mark == 0 || mark == DELETED {
          return Some(i);
        }
      }
      r := None;
    }

    /** Creates an empty file at a path that names none. */
    method CreateFile(path: seq<byte>) returns (ok: bool)
      requires Sound()
      modifies this`chains, dev
      ensures dev.Valid()
      ensures (State(), ok) == Created(old(State()), Resolve(old(dev.vol), dev.g.root, currentDirectory, path))
    {
      var target := SplitPath(path);
      if target.None? {
        return false;
      }
      var (parent, comp) := target.value;
      var name := FormatName(comp);
      if name.None? {
        return false;
      }
      FormattedLength(comp);
      ok := CreateIn(parent, comp, name.value);
    }

    method CreateIn(parent: nat, comp: seq<byte>, name: seq<byte>) returns (ok: bool)
      requires Sound() && Formatted(comp) == Some(name) && |name| == 11
      modifies this`chains, dev
      ensures dev.Valid()
      ensures State() == Created(old(State()), Some((parent, comp))).0 && ok == Created(old(State()), Some((parent, comp))).1
    {
      CreatedNot(State(), parent, comp);
      var found, e := FindEntryInCluster(parent, name);
      if found.Some? {
        return false;
      }
      ok := dev.ReadCluster(parent);
      if !ok {
        return false;
      }
      var gap := FindGap();
      if gap.None? {
        return false;
      }
      ok := CreateAt(parent, comp, name, gap.value);
    }

    /** Takes a cluster, fills the gap in the buffered directory and clears the cluster. */
    method CreateAt(parent: nat, comp: seq<byte>, name: seq<byte>, gap: nat) returns (ok: bool)
      requires Sound() && Formatted(comp) == Some(name) && |name| == 11
      requires 2 <= parent < |dev.vol.data| + 2 && dev.clusterBuffer == Cluster(dev.vol, parent)
      requires Find(Cluster(dev.vol, parent), name).None? && GapFrom(Cluster(dev.vol, parent), 0) == Some(gap)
      modifies this`chains, dev
      ensures dev.Valid()
      ensures State() == Created(old(State()), Some((parent, comp))).0 && ok == Created(old(State()), Some((parent, comp))).1
    {
      CreatedNot(State(), parent, comp);
      CreatedDone(State(), parent, comp, name, gap);
      var c := AllocClusterRaw();
      if c == 0 {
        return false;
      }
      StoreEntry(parent, gap, NewEntry(name, CaseFlags(comp), c));
      ZeroCluster(c);
      ok := true;
    }

    /** Puts an entry into the buffered directory cluster and writes the cluster back. */
    method StoreEntry(d: nat, i: nat, e: Entry)
      requires dev.Valid() && InDisk(State(), d, i) && dev.clusterBuffer == Cluster(dev.vol, d)
      modifies dev
      ensures dev.Valid() && State() == Rewritten(old(State()), d, i, e)
    {
      dev.clusterBuffer := WithEntryAt(dev.clusterBuffer, i, e);
      var ok := dev.WriteCluster(d);
    }

    // -------------------------------------------------------------------------
    // Open and close
    // -------------------------------------------------------------------------

    method FindDescriptor() returns (f: nat)
      ensures f == FreeFd(fds, 0)
    {
      f := 0;
      while f < |fds| && fds[f].inUse
        invariant f <= |fds| && FreeFd(fds, 0) == FreeFd(fds, f)
      {
        f := f + 1;
      }
    }

    method OpenSlot(d: nat, i: nat, e: Entry, flags: nat) returns (r: int)
      requires Sound() && Listed(State(), d, i) && InDisk(State(), d, i) && e == Slot(State(), d, i)
      modifies this`fds, dev
      ensures dev.Valid() && (System(), r) == OpenedAt(old(System()), d, i, flags)
    {
      if IsDir(e) {
        return -1;
      }
      if WriteFlags(flags) && Attr(e) % 2 == 1 {
        return -1;
      }
      var f := FindDescriptor();
      if f >= |fds| {
        return -1;
      }
      ghost var p := EntryChain(State(), d, i);
      var capacity := Capacity(First(e), p);
      var size: nat := Size(e);
      var position := 0;
      if Has(flags, O_APPEND) {
        position := size;
      }
      if Has(flags, O_TRUNC) {
        size := 0;
        position := 0;
        var ok := UpdateEntrySize(d, i, 0);
      }
      fds := fds[f := Descriptor(true, First(e), size, position, capacity, d, i, Attr(e), flags)];
      r := f;
    }

    method Open(path: seq<byte>, flags: nat) returns (r: int)
      requires Valid() && Allowed(System(), Event.Open(path, flags))
      modifies this, dev
      ensures Valid() && (System(), r) == Opened(old(System()), path, flags)
    {
      ghost var s := System();
      SysMeaning(s);
      OpenKeeps(s, path, flags);
      var slot, e := FindEntry(path);
      if slot.None? {
        if !Has(flags, O_CREAT) {
          return -1;
        }
        CreateKeeps(s, path);
        var ok := CreateFile(path);
        if !ok {
          return -1;
        }
        slot, e := FindEntry(path);
        if slot.None? {
          return -1;
        }
      }
      SysMeaning(System());
      SlotListed(System(), path);
      r := OpenSlot(slot.value.0, slot.value.1, e, flags);
    }

    method Close(fd: int) returns (r: int)
      requires Valid()
      modifies this`fds
      ensures Valid() && (System(), r) == Closed(old(System()), fd)
    {
      CloseKeeps(System(), fd);
      if fd < 0 || fd >= |fds| {
        return -1;
      }
      if !fds[fd].inUse {
        return -1;
      }
      fds := fds[fd := CLOSED];
      r := 0;
    }

    // -------------------------------------------------------------------------
    // Read and write
    // -------------------------------------------------------------------------

    /** Collects bytes of an open file from its position on. */
    method ReadBytes(f: nat, count: nat) returns (out: seq<byte>)
      requires Valid() && IsOpen(System(), f) && fds[f].position < fds[f].size && fds[f].position + count % TOP <= fds[f].size
      modifies dev`clusterBuffer
      ensures Valid() && |out| == count % TOP && fds[f].position + count % TOP <= |BytesOf(System(), f)|
      ensures out == BytesOf(System(), f)[fds[f].position..fds[f].position + count % TOP]
    {
      OpenFile(System(), f);
      ghost var first := fds[f].first;
      ChainOf(State(), first);
      SliceOfPrefix(Stream(dev.vol, chains[first]), fds[f].size, fds[f].position, count % TOP);
      out := CopyOut(fds[f].first, fds[f].position, count, chains[first]);
    }

    /** Reads from the position on, up to the low 32 bits of `count` or the end of the file. */
    method Read(fd: int, count: nat) returns (r: int, out: seq<byte>)
      requires Valid()
      modifies this`fds, dev`clusterBuffer
      ensures Valid()
      ensures System() == ReadFrom(old(System()), fd, count).0 && r == ReadFrom(old(System()), fd, count).1
      ensures IsOpen(old(System()), fd) ==>
        && r == |out| && old(fds)[fd].position + r <= |BytesOf(old(System()), fd)|
        && out == BytesOf(old(System()), fd)[old(fds)[fd].position..old(fds)[fd].position + r]
    {
      out := [];
      if fd < 0 || fd >= |fds| || !fds[fd].inUse {
        return -1, out;
      }
      ReadKeeps(System(), fd, count);
      OpenFile(System(), fd);
      var pos, size := fds[fd].position, fds[fd].size;
      if pos >= size {
        assert fds[fd := fds[fd].(position := pos + 0)] == fds;
        return 0, out;
      }
      var n := if count % TOP > size - pos then size - pos else count;
      out := ReadBytes(fd, n);
      fds := fds[fd := fds[fd].(position := pos + |out|)];
      r := |out|;
    }

    /** Gives a file without clusters its first one. */
    method AdoptCluster(f: nat) returns (ok: bool)
      requires Valid() && IsOpen(System(), f) && fds[f].first == 0
      modifies this`fds, this`chains, dev
      ensures Valid() && ok == (Next(old(State())) != 0)
      ensures System() == if ok then Adopted(old(System()), f) else old(System())
    {
      ghost var s := System();
      SystemSound(s);
      NextBelowTop(s.fs);
      var c := AllocCluster();
      if c == 0 {
        return false;
      }
      AdoptedKeeps(s, f);
      ok := UpdateEntryCluster(fds[f].dir, fds[f].index, c);
      fds := fds[f := fds[f].(first := c, capacity := dev.bytesPerCluster)];
      ok := true;
    }

    /** Grows the chain of a file to hold `end` bytes and records its new capacity. */
    method Reserve(f: nat, end: nat) returns (ok: bool)
      requires Valid() && IsOpen(System(), f) && fds[f].first != 0
      modifies this`fds, this`chains, dev
      ensures dev.Valid()
      ensures ok <==> Needed(old(fds)[f].capacity, end, old(dev.vol).bpc) <= FreeOf(old(State()))
      ensures var need := Needed(old(fds)[f].capacity, end, old(dev.vol).bpc);
        System() == if ok then Enlarged(old(System()), f, need)
                    else old(System()).(fs := Grown(old(State()), old(fds)[f].first, need))
    {
      ghost var s := System();
      OpenRoom(s, f);
      var fd, bpc := fds[f], dev.bytesPerCluster;
      assert fds[f := fd.(capacity := fd.capacity + 0)] == fds;
      if end <= fd.capacity {
        return true;
      }
      var extra := end - fd.capacity;
      ClustersCeil(extra, bpc);
      var add: nat := (extra + bpc - 1) / bpc;
      ok := Grow(fd.first, add);
      if ok {
        TimesIsProduct(add, bpc);
        fds := fds[f := fd.(capacity := fd.capacity + add * bpc)];
      }
    }

    /** Puts the bytes in place, moves the position and brings the size up to date. */
    method Fill(f: nat, buf: seq<byte>, count: nat) returns (ok: bool)
      requires Valid() && IsOpen(System(), f) && fds[f].first != 0 && fds[f].position + |buf| < TOP && |buf| == count % TOP
      requires fds[f].position + |buf| <= RoomOf(State(), fds[f].first)
      modifies this`fds, dev
      ensures ok <==> old(fds)[f].position < RoomOf(old(State()), old(fds)[f].first)
      ensures Valid() && System() == if ok then Filled(old(System()), f, buf) else old(System())
    {
      ghost var s := System();
      FilledKeeps(s, f, buf);
      OpenRoom(s, f);
      var fd := fds[f];
      ChainOf(State(), fd.first);
      ok := CopyIn(fd.first, fd.position, buf, count, chains[fd.first]);
      PouredIs(s.fs, dev.vol, fd.first, fd.position, buf);
      if !ok {
        PouredNone(s.fs, fd.first, fd.position);
        return;
      }
      var end := fd.position + |buf|;
      if end > fd.size {
        var updated := UpdateEntrySize(fd.dir, fd.index, end);
        fds := fds[f := fd.(position := end, size := end)];
      } else {
        fds := fds[f := fd.(position := end)];
      }
    }

    method WriteChain(f: nat, buf: seq<byte>, count: nat) returns (r: int)
      requires Valid() && IsOpen(System(), f) && fds[f].first != 0 && |buf| == count % TOP
      modifies this`fds, this`chains, dev
      ensures Valid()
      ensures System() == WrittenOn(old(System()), f, buf).0 && r == WrittenOn(old(System()), f, buf).1
    {
      PositionFits(System(), f);
      WrapTest(fds[f].position, |buf|);
      var end := Add32(fds[f].position, |buf|);
      if end < fds[f].position {
        return -1;
      }
      ReserveKeeps(System(), f, buf);
      var ok := Reserve(f, end);
      if !ok {
        return -1;
      }
      ok := Fill(f, buf, count);
      r := if ok then |buf| else -1;
    }

    /** Writes the low 32 bits' worth of `count` from the position on, or, for want of clusters, nothing. */
    method Write(fd: int, buf: seq<byte>, count: nat) returns (r: int)
      requires Valid() && |buf| == count % TOP
      modifies this`fds, this`chains, dev
      ensures Valid() && (System(), r) == Written(old(System()), fd, buf, count)
    {
      if fd < 0 || fd >= |fds| || !fds[fd].inUse {
        return -1;
      }
      if !WriteFlags(fds[fd].flags) {
        return -1;
      }
      if count == 0 {
        return 0;
      }
      if fds[fd].first == 0 {
        NextMeaning(State());
        var ok := AdoptCluster(fd);
        if !ok {
          return -1;
        }
      }
      r := WriteChain(fd, buf, count);
    }

    /** Any one call. */
    method Perform(e: Event)
      requires Valid() && Allowed(System(), e)
      modifies this, dev
      ensures Valid() && System() == Step(old(System()), e)
    {
      match e {
        case Open(path, flags) =>
          var r := Open(path, flags);
        case Close(fd) =>
          var r := Close(fd);
        case Read(fd, count) =>
          var r, out := Read(fd, count);
        case Write(fd, buf, count) =>
          var r := Write(fd, buf, count);
      }
    }
  }

  /** After `i` clusters of `add`. */
  ghost predicate Growing(before: Fs, now: Fs, first: nat, add: nat, i: nat) {
    i <= add && Grown(before, first, add) == Grown(now, first, add - i) && FreeOf(before) == FreeOf(now) + i
  }

  lemma GrowingStep(before: Fs, now: Fs, first: nat, add: nat, i: nat)
    requires Growing(before, now, first, add, i) && i < add && FsOk(now) && first in now.chains
    ensures Next(now) == 0 ==> Grown(before, first, add) == now && FreeOf(before) == i
    ensures Next(now) != 0 ==> Growing(before, Appended(now, first), first, add, i + 1)
  {
    NextMeaning(now);
    if Next(now) != 0 {
      AppendedOk(now, first);
    }
  }

  lemma LowWord(n: nat)
    requires n < LOW_BITS
    ensures n % LOW_BITS == n
  {
  }

  lemma RootSystem(s: Sys)
    requires FsOk(s.fs) && s.cur == s.fs.root && s.fds == seq(MAX_OPEN_FILES, _ => CLOSED)
    ensures SysOk(s)
  {
    SysMeaning(s);
    FsMeaning(s.fs);
  }

  lemma HomeDir(fs: Fs)
    requires FsOk(fs)
    ensures HomeOf(fs) == 0 || HomeOf(fs) in fs.dirs
  {
    var s := Sys(fs, [], fs.root);
    FsMeaning(fs);
    if SlotOf(s, HOME).Some? {
      SlotListed(s, HOME);
    }
  }

  /** The transfer stands at byte `at`, `offset` bytes into cluster `index` of the chain, which holds the bytes from `start` on. */
  ghost predicate At(p: seq<nat>, index: nat, cluster: nat, bpc: nat, start: nat, offset: nat, at: nat) {
    index < |p| && cluster == p[index] && start == Times(index, bpc) && start + offset == at && offset < bpc
  }

  /** A transfer stands at cluster `index` of the chain or has passed its end; `more` says that it is not done yet. */
  ghost predicate Transfer(p: seq<nat>, index: nat, cluster: nat, bpc: nat, start: nat, offset: nat, at: nat, more: bool) {
    && index <= |p| && cluster == (if index < |p| then p[index] else 0) && start == Times(index, bpc) && offset < bpc
    && (more ==> At(p, index, cluster, bpc, start, offset, at))
  }

  lemma CutRemaining(count: nat, total: nat)
    requires total <= count % TOP
    ensures (count - total) % TOP == count % TOP - total
  {
    assert count - total == TOP * (count / TOP) + (count % TOP - total);
  }

  /** The volume `w` is `v` with `done` written over the bytes `s` of the chain from `pos` on. */
  ghost predicate Progress(v: Volume, w: Volume, p: seq<nat>, s: seq<byte>, pos: nat, done: seq<byte>) {
    ProgressAt(v, w, p, s, pos, done, 3)
  }

  /** The depth only keeps the definition out of proofs that do not need it. */
  ghost predicate ProgressAt(v: Volume, w: Volume, p: seq<nat>, s: seq<byte>, pos: nat, done: seq<byte>, depth: nat)
    decreases depth, p
  {
    if depth > 0 then ProgressAt(v, w, p, s, pos, done, depth - 1)
    else
      && Shaped(w) && w.fats == v.fats && w.bpc == v.bpc && |w.data| == |v.data|
      && (forall c: nat | c !in p :: Cluster(w, c) == Cluster(v, c))
      && pos <= |s| && Stream(w, p) == Overwritten(s, pos, done)
  }

  lemma ProgressUnfolds(v: Volume, w: Volume, p: seq<nat>, s: seq<byte>, pos: nat, done: seq<byte>)
    ensures Progress(v, w, p, s, pos, done) <==>
      && Shaped(w) && w.fats == v.fats && w.bpc == v.bpc && |w.data| == |v.data|
      && (forall c: nat | c !in p :: Cluster(w, c) == Cluster(v, c))
      && pos <= |s| && Stream(w, p) == Overwritten(s, pos, done)
  {
    assert ProgressAt(v, w, p, s, pos, done, 3) == ProgressAt(v, w, p, s, pos, done, 2)
        == ProgressAt(v, w, p, s, pos, done, 1) == ProgressAt(v, w, p, s, pos, done, 0);
  }

  lemma ProgressChain(v: Volume, w: Volume, p: seq<nat>, s: seq<byte>, pos: nat, done: seq<byte>)
    requires IsChain(v, p) && Progress(v, w, p, s, pos, done)
    ensures IsChain(w, p) && w.bpc == v.bpc && |Stream(w, p)| == |Stream(v, p)|
  {
    ProgressUnfolds(v, w, p, s, pos, done);
    assert Table(w) == Table(v);
    StreamLength(v, p);
    StreamLength(w, p);
  }

  lemma ProgressNone(v: Volume, p: seq<nat>, pos: nat)
    requires IsChain(v, p) && pos <= |Stream(v, p)|
    ensures Progress(v, v, p, Stream(v, p), pos, [])
  {
    ProgressUnfolds(v, v, p, Stream(v, p), pos, []);
    OverwrittenNone(Stream(v, p), pos);
  }

  /** A byte position below the end of a chain lies in one of its clusters. */
  lemma InsideChain(pos: nat, bpc: nat, n: nat)
    requires 0 < bpc && pos < n * bpc
    ensures 0 <= pos / bpc < n && 0 <= pos % bpc < bpc && pos / bpc * bpc + pos % bpc == pos && pos % bpc <= pos
  {
    MulMonotone(0, pos / bpc, bpc);
    if n <= pos / bpc {
      MulMonotone(n, pos / bpc, bpc);
    }
  }

  lemma AtStart(v: Volume, p: seq<nat>, pos: nat)
    requires IsChain(v, p) && pos < |Stream(v, p)|
    ensures 0 <= pos / v.bpc < |p| && 0 <= pos % v.bpc <= pos
    ensures At(p, pos / v.bpc, p[pos / v.bpc], v.bpc, pos - pos % v.bpc, pos % v.bpc, pos)
  {
    StreamLength(v, p);
    InsideChain(pos, v.bpc, |p|);
    TimesIsProduct(pos / v.bpc, v.bpc);
  }

  lemma MulBound(a: nat, b: nat, k: nat)
    requires a * k < b * k
    ensures a < b
  {
  }

  lemma AtEnd(v: Volume, p: seq<nat>)
    requires IsChain(v, p)
    ensures v.bpc > 0 && |p| <= |Stream(v, p)| / v.bpc
  {
    StreamLength(v, p);
    PastAll(|p|, v.bpc, |p| * v.bpc);
  }

  lemma PastAll(n: nat, k: nat, pos: nat)
    requires 0 < k && pos == n * k
    ensures n <= pos / k
  {
    assert (n + 1) * k == pos + k;
    InsideChain(pos, k, n + 1);
    var q := pos / k;
    assert (q + 1) * k == q * k + k;
    MulBound(n, q + 1, k);
  }

  /** Where the transfer stands after a cluster, if it goes on. */
  lemma AtStep(v: Volume, p: seq<nat>, index: nat, cluster: nat, start: nat, offset: nat, end: nat)
    requires IsChain(v, p) && end <= |Stream(v, p)|
    requires At(p, index, cluster, v.bpc, start, offset, start + offset) && start + v.bpc < end
    ensures index + 1 < |p| && NextOf(v, cluster) == p[index + 1]
    ensures At(p, index + 1, p[index + 1], v.bpc, start + v.bpc, 0, start + v.bpc)
  {
    StreamLength(v, p);
    TimesIsProduct(index + 1, v.bpc);
    assert Times(index + 1, v.bpc) == start + v.bpc;
    MulBound(index + 1, |p|, v.bpc);
    NextInChain(v, p, index);
  }

  /** Where a transfer stands after a cluster, whether it is done or not. */
  lemma GoOn(v: Volume, p: seq<nat>, index: nat, cluster: nat, start: nat, offset: nat, at: nat, end: nat)
    requires IsChain(v, p) && end <= |Stream(v, p)| && index < |p| && cluster == p[index] && start == Times(index, v.bpc)
    requires 0 < v.bpc && offset < v.bpc && (at < end ==> at == start + v.bpc)
    ensures Transfer(p, index + 1, NextOf(v, cluster), v.bpc, start + v.bpc, 0, at, at < end)
  {
    NextInChain(v, p, index);
    assert Times(index + 1, v.bpc) == start + v.bpc;
    if at < end {
      AtStep(v, p, index, cluster, start, offset, end);
    }
  }

  /** The bytes read so far and a stretch of the next cluster make a longer stretch of the chain. */
  lemma ChunkRead(v: Volume, p: seq<nat>, index: nat, start: nat, pos: nat, total: nat, offset: nat, avail: nat)
    requires Shaped(v) && Within(v, p) && index < |p|
    requires start == Times(index, v.bpc) && start + offset == pos + total && offset + avail <= v.bpc
    ensures pos + total + avail <= |Stream(v, p)|
    ensures |Cluster(v, p[index])| == v.bpc
    ensures Stream(v, p)[pos..pos + total] + Cluster(v, p[index])[offset..offset + avail] == Stream(v, p)[pos..pos + total + avail]
  {
    StreamSlice(v, p, index, start);
    SliceAppend(Stream(v, p), start, v.bpc, pos, total, offset, avail);
  }

  lemma SliceAppend<T>(s: seq<T>, start: nat, n: nat, pos: nat, total: nat, offset: nat, avail: nat)
    requires start + n <= |s| && start + offset == pos + total && offset + avail <= n
    ensures s[pos..pos + total] + s[start..start + n][offset..offset + avail] == s[pos..pos + total + avail]
  {
    var at := start + offset;
    SliceOfSlice(s, start, n, offset, avail);
    assert s[pos..at] + s[at..at + avail] == s[pos..at + avail];
  }

  lemma SameCluster(v: Volume, c: nat, offset: nat)
    requires Shaped(v) && 2 <= c < |v.data| + 2 && offset <= v.bpc
    ensures |Cluster(v, c)| == v.bpc && WithCluster(v, c, Overwritten(Cluster(v, c), offset, [])) == v
  {
    OverwrittenNone(Cluster(v, c), offset);
  }

  /** Writing the next stretch of one cluster extends what has been written to the chain so far. */
  lemma ChunkWritten(v: Volume, p: seq<nat>, index: nat, start: nat, offset: nat, chunk: seq<byte>,
                     s: seq<byte>, pos: nat, done: seq<byte>)
    requires Shaped(v) && Within(v, p) && index < |p| && offset + |chunk| <= v.bpc
    requires forall j | 0 <= j < |p| && j != index :: p[j] != p[index]
    requires pos + |done| + |chunk| <= |s| && Stream(v, p) == Overwritten(s, pos, done)
    requires start == Times(index, v.bpc) && start + offset == pos + |done|
    ensures |Cluster(v, p[index])| == v.bpc
    ensures var w := WithCluster(v, p[index], Overwritten(Cluster(v, p[index]), offset, chunk));
      && Shaped(w) && Stream(w, p) == Overwritten(s, pos, done + chunk)
      && forall c: nat | c != p[index] :: Cluster(w, c) == Cluster(v, c)
  {
    ChunkStream(v, p, index, start, offset, chunk, s, pos, done);
    ClusterWritten(v, p[index], Overwritten(Cluster(v, p[index]), offset, chunk));
  }

  lemma ChunkStream(v: Volume, p: seq<nat>, index: nat, start: nat, offset: nat, chunk: seq<byte>,
                    s: seq<byte>, pos: nat, done: seq<byte>)
    requires Shaped(v) && Within(v, p) && index < |p| && offset + |chunk| <= v.bpc
    requires forall j | 0 <= j < |p| && j != index :: p[j] != p[index]
    requires pos + |done| + |chunk| <= |s| && Stream(v, p) == Overwritten(s, pos, done)
    requires start == Times(index, v.bpc) && start + offset == pos + |done|
    ensures |Cluster(v, p[index])| == v.bpc
    ensures Stream(WithCluster(v, p[index], Overwritten(Cluster(v, p[index]), offset, chunk)), p) == Overwritten(s, pos, done + chunk)
  {
    ChunkInside(v, p, index, start, offset, chunk, s, pos, done);
    StreamPatched(v, p, index, start, Overwritten(Cluster(v, p[index]), offset, chunk));
  }

  lemma ChunkInside(v: Volume, p: seq<nat>, index: nat, start: nat, offset: nat, chunk: seq<byte>,
                    s: seq<byte>, pos: nat, done: seq<byte>)
    requires Shaped(v) && Within(v, p) && index < |p| && offset + |chunk| <= v.bpc
    requires pos + |done| + |chunk| <= |s| && Stream(v, p) == Overwritten(s, pos, done)
    requires start == Times(index, v.bpc) && start + offset == pos + |done|
    ensures start <= |Stream(v, p)| && |Cluster(v, p[index])| == v.bpc
    ensures |Overwritten(Cluster(v, p[index]), offset, chunk)| == v.bpc
    ensures Overwritten(Stream(v, p), start, Overwritten(Cluster(v, p[index]), offset, chunk)) == Overwritten(s, pos, done + chunk)
  {
    StreamSlice(v, p, index, start);
    OverwrittenFurther(Stream(v, p), s, pos, done, start, Cluster(v, p[index]), offset, chunk);
  }

  lemma OverwrittenFurther<T>(t: seq<T>, s: seq<T>, pos: nat, done: seq<T>, start: nat, was: seq<T>, offset: nat, chunk: seq<T>)
    requires pos + |done| + |chunk| <= |s| && t == Overwritten(s, pos, done)
    requires start + |was| <= |t| && t[start..start + |was|] == was && offset + |chunk| <= |was| && start + offset == pos + |done|
    ensures Overwritten(t, start, Overwritten(was, offset, chunk)) == Overwritten(s, pos, done + chunk)
  {
    OverwrittenInside(t, start, |was|, offset, chunk);
    OverwrittenTwice(s, pos, done, chunk);
  }

  lemma SliceOfPrefix<T>(s: seq<T>, size: nat, pos: nat, n: nat)
    requires pos + n <= size <= |s|
    ensures s[..size][pos..pos + n] == s[pos..pos + n]
  {
  }

  lemma PouredIs(fs: Fs, w: Volume, first: nat, pos: nat, buf: seq<byte>)
    requires FsOk(fs) && first in fs.chains
    requires Progress(fs.vol, w, fs.chains[first], Stream(fs.vol, fs.chains[first]), pos, buf)
    ensures Poured(fs, first, pos, buf) == fs.(vol := w)
  {
    var p := fs.chains[first];
    ChainOf(fs, first);
    ProgressUnfolds(fs.vol, w, p, Stream(fs.vol, p), pos, buf);
    SpreadUnique(fs.vol, w, p);
  }

  lemma NextBelowTop(fs: Fs)
    requires FsOk(fs)
    ensures Next(fs) < TOP && |Table(fs.vol)| == |fs.vol.data| + 2
  {
    ShapedOk(fs);
    NextMeaning(fs);
  }

  /** When nothing is created. */
  lemma CreatedNot(fs: Fs, d: nat, comp: seq<byte>)
    requires Formatted(comp).Some?
    ensures var b := Cluster(fs.vol, d);
      Find(b, Formatted(comp).value).Some? || GapFrom(b, 0).None? || Next(fs) == 0 ==> Created(fs, Some((d, comp))) == (fs, false)
  {
  }

  /** What is created otherwise. */
  lemma CreatedDone(fs: Fs, d: nat, comp: seq<byte>, name: seq<byte>, gap: nat)
    requires FsOk(fs) && Formatted(comp) == Some(name) && |name| == 11 && 2 <= d < |fs.vol.data| + 2
    requires Find(Cluster(fs.vol, d), name).None? && GapFrom(Cluster(fs.vol, d), 0) == Some(gap)
    ensures Next(fs) < TOP && InDisk(fs, d, gap) && InDisk(Allocated(fs, Next(fs)), d, gap)
    ensures var made := Rewritten(Allocated(fs, Next(fs)), d, gap, NewEntry(name, CaseFlags(comp), Next(fs)));
      Next(fs) != 0 ==> Created(fs, Some((d, comp))) == (Zeroed(made, Next(fs)), true)
  {
    GapFits(Cluster(fs.vol, d), 0);
    NextBelowTop(fs);
  }

  lemma {:induction false} GapFits(b: seq<byte>, i: nat)
    ensures GapFrom(b, i).Some? ==> 32 * GapFrom(b, i).value + 32 <= |b|
    decreases |b| - 32 * i
  {
    if 32 * i + 32 <= |b| {
      GapFits(b, i + 1);
    }
  }

  /** The chain of a listed file, empty if it has none. */
  ghost function EntryChain(fs: Fs, d: nat, i: nat): (p: seq<nat>)
    requires FsOk(fs) && Listed(fs, d, i) && !IsDir(Slot(fs, d, i))
    ensures First(Slot(fs, d, i)) == 0 ==> p == []
    ensures First(Slot(fs, d, i)) != 0 ==> IsChain(fs.vol, p) && p[0] == First(Slot(fs, d, i))
    ensures Times(|p|, fs.vol.bpc) == RoomOf(fs, First(Slot(fs, d, i)))
  {
    var first := First(Slot(fs, d, i));
    FsMeaning(fs);
    assert EntryOk(fs, Slot(fs, d, i));
    NoChainAtZero(fs);
    if first == 0 then []
    else
      ChainOf(fs, first);
      TimesIsProduct(|fs.chains[first]|, fs.vol.bpc);
      fs.chains[first]
  }

  /** The driver's rounding up is the number of clusters needed. */
  lemma {:induction false} ClustersCeil(n: nat, bpc: nat)
    requires bpc > 0
    ensures 0 <= (n + bpc - 1) / bpc && (n + bpc - 1) / bpc == Clusters(n, bpc)
    decreases n
  {
    if n > bpc {
      ClustersCeil(n - bpc, bpc);
      DivStep(n - 1, bpc);
    } else if n > 0 {
      DivUnique(n + bpc - 1, bpc, 1, n - 1);
    } else {
      DivUnique(bpc - 1, bpc, 0, bpc - 1);
    }
  }

  lemma DivUnique(x: nat, b: nat, q: nat, r: nat)
    requires b > 0 && x == q * b + r && r < b
    ensures x / b == q
  {
    if x / b < q {
      MulMonotone(x / b + 1, q, b);
    } else if q < x / b {
      MulMonotone(q + 1, x / b, b);
    }
  }

  lemma DivStep(x: nat, b: nat)
    requires b > 0
    ensures (x + b) / b == x / b + 1
  {
    DivUnique(x + b, b, x / b + 1, x % b);
  }

  lemma SystemSound(s: Sys)
    requires SysOk(s)
    ensures FsOk(s.fs)
  {
    SysMeaning(s);
  }

  lemma PositionFits(s: Sys, f: nat)
    requires SysOk(s) && IsOpen(s, f)
    ensures s.fds[f].position < TOP
  {
    OpenFile(s, f);
  }

  /** Both outcomes of growing the chain for a write keep the invariant. */
  lemma ReserveKeeps(s: Sys, f: nat, buf: seq<byte>)
    requires SysOk(s) && IsOpen(s, f) && s.fds[f].first != 0
    ensures var need := Needed(s.fds[f].capacity, s.fds[f].position + |buf|, s.fs.vol.bpc);
      if need <= FreeOf(s.fs) then
        && SysOk(Enlarged(s, f, need))
        && s.fds[f].position + |buf| <= RoomOf(Enlarged(s, f, need).fs, s.fds[f].first)
      else SysOk(s.(fs := Grown(s.fs, s.fds[f].first, need)))
  {
    var need := Needed(s.fds[f].capacity, s.fds[f].position + |buf|, s.fs.vol.bpc);
    if need <= FreeOf(s.fs) {
      EnlargedKeeps(s, f, buf, need);
    } else {
      GrownSteady(s, f, need);
    }
  }

  /** The unsigned sum comes out smaller exactly when it wrapped. */
  lemma WrapTest(pos: nat, n: nat)
    requires pos < TOP && n < TOP
    ensures Add32(pos, n) < pos <==> TOP <= pos + n
    ensures pos + n < TOP ==> Add32(pos, n) == pos + n
  {
  }
}
