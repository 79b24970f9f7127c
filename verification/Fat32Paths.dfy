/** Opening and reading by path, told from the bytes on the disk. */
module Fat32Paths {
  import opened Bytes
  import opened Fat32Spec
  import opened Fat32Tree
  import opened Fat32Safety
  import opened Fat32Alloc
  import opened Fat32Names
  import opened Fat32Ops
  import opened Fat32Runs
  import opened Fat32Open
  import opened Fat32Reach
  import opened Fat32Bytes
  import opened Fat32Driver

  // ---------------------------------------------------------------------------
  // The bytes of a file
  // ---------------------------------------------------------------------------

  /** The first `n` bytes from cluster `c` on, cluster after cluster as the FAT leads. */
  ghost function Followed(v: Volume, c: nat, n: nat): seq<byte>
    requires Shaped(v)
    decreases n
  {
    var b := Cluster(v, c);
    if |b| != v.bpc then []
    else if n <= v.bpc then b[..n]
    else b + Followed(v, NextOf(v, c), n - v.bpc)
  }

  lemma StreamFirst(v: Volume, p: seq<nat>)
    requires p != []
    ensures Stream(v, p) == Cluster(v, p[0]) + Stream(v, p[1..])
  {
  }

  lemma {:induction false} FollowedIs(v: Volume, p: seq<nat>, i: nat, n: nat)
    requires IsChain(v, p) && i < |p| && n <= |Stream(v, p[i..])|
    ensures Followed(v, p[i], n) == Stream(v, p[i..])[..n]
    decreases |p| - i
  {
    var rest := p[i..];
    assert 2 <= p[i] < |v.data| + 2;
    StreamFirst(v, rest);
    assert rest[1..] == p[i + 1..];
    if n > v.bpc {
      NextInChain(v, p, i);
      FollowedIs(v, p, i + 1, n - v.bpc);
    }
  }

  /** The bytes of a file that has some: those its chain holds, up to its size. */
  lemma ContentsIs(fs: Fs, first: nat, size: nat)
    requires FsOk(fs) && first in fs.chains && size <= |fs.chains[first]| * fs.vol.bpc
    ensures Shaped(fs.vol) && Contents(fs, first, size) == Followed(fs.vol, first, size)
  {
    ChainOf(fs, first);
    var p := fs.chains[first];
    assert p[0..] == p;
    FollowedIs(fs.vol, p, 0, size);
  }

  // ---------------------------------------------------------------------------
  // Finding an entry by its path
  // ---------------------------------------------------------------------------

  /** The words lead to the directory at cluster `d`, and `last` names its entry `i`. */
  ghost predicate LeadsBy(v: Volume, dir: nat, path: seq<byte>, d: nat, i: nat, words: seq<seq<byte>>, last: seq<byte>) {
    Joins(path, words, last) && Reaches(v, dir, words, d) && NamesEntry(v, d, last, i)
  }

  /** Entry `i` is the first in use of that directory whose short name is that of `comp`. */
  ghost predicate NamesEntry(v: Volume, d: nat, comp: seq<byte>, i: nat) {
    exists short: seq<byte> :: ShortFor(comp, short) && FirstNamed(Cluster(v, d), short, i)
  }

  /** From the root or the current directory, the path leads to entry `i` of the directory at cluster `d`. */
  ghost predicate PathTo(v: Volume, root: nat, cur: nat, path: seq<byte>, d: nat, i: nat) {
    exists words: seq<seq<byte>>, last: seq<byte> :: LeadsBy(v, StartsAt(root, cur, path), path, d, i, words, last)
  }

  lemma NamesIs(v: Volume, d: nat, comp: seq<byte>, i: nat)
    ensures NamesEntry(v, d, comp, i) <==> Locate(v, Some((d, comp))) == Some((d, i))
  {
    var b := Cluster(v, d);
    forall short: seq<byte> ensures ShortFor(comp, short) <==> Formatted(comp) == Some(short) { ShortIs(comp, short); }
    if Formatted(comp).Some? { FindIs(b, Formatted(comp).value, i); }
  }

  lemma LocateDir(v: Volume, target: Option<(nat, seq<byte>)>, d: nat, i: nat)
    requires Locate(v, target) == Some((d, i))
    ensures target.Some? && target.value.0 == d
  {
  }

  lemma SlotLeads(s: Sys, path: seq<byte>, d: nat, i: nat)
    requires SlotOf(s, path) == Some((d, i))
    ensures PathTo(s.fs.vol, s.fs.root, s.cur, path, d, i)
  {
    var v, target := s.fs.vol, Resolve(s.fs.vol, s.fs.root, s.cur, path);
    LocateDir(v, target, d, i);
    var last := target.value.1;
    assert target == Some((d, last));
    PathIs(v, s.fs.root, s.cur, path, d, last);
    NamesIs(v, d, last, i);
    var words: seq<seq<byte>> :| Joins(path, words, last) && Reaches(v, StartsAt(s.fs.root, s.cur, path), words, d);
    assert LeadsBy(v, StartsAt(s.fs.root, s.cur, path), path, d, i, words, last);
  }

  lemma LeadsToSlot(s: Sys, path: seq<byte>, d: nat, i: nat)
    requires PathTo(s.fs.vol, s.fs.root, s.cur, path, d, i)
    ensures SlotOf(s, path) == Some((d, i))
  {
    var v := s.fs.vol;
    var words: seq<seq<byte>>, last: seq<byte> :| LeadsBy(v, StartsAt(s.fs.root, s.cur, path), path, d, i, words, last);
    assert Joins(path, words, last) && Reaches(v, StartsAt(s.fs.root, s.cur, path), words, d);
    PathIs(v, s.fs.root, s.cur, path, d, last);
    NamesIs(v, d, last, i);
  }

  /** Lookup finds the entry the path leads to, and only that. */
  lemma SlotIs(s: Sys, path: seq<byte>, d: nat, i: nat)
    ensures SlotOf(s, path) == Some((d, i)) <==> PathTo(s.fs.vol, s.fs.root, s.cur, path, d, i)
  {
    if SlotOf(s, path) == Some((d, i)) { SlotLeads(s, path, d, i); }
    if PathTo(s.fs.vol, s.fs.root, s.cur, path, d, i) { LeadsToSlot(s, path, d, i); }
  }

  /** A bare name leads to the entry of that name in the current directory, and nowhere else. */
  lemma BareSlot(s: Sys, name: seq<byte>, d: nat, i: nat)
    requires IsWord(name)
    ensures SlotOf(s, name) == Some((d, i)) <==> d == s.cur && NamesEntry(s.fs.vol, s.cur, name, i)
  {
    BareName(s.fs.vol, s.fs.root, s.cur, name);
    NamesIs(s.fs.vol, s.cur, name, i);
  }

  // ---------------------------------------------------------------------------
  // Opening
  // ---------------------------------------------------------------------------

  /** The lowest descriptor that is not in use. */
  ghost predicate LowestFree(fds: seq<Descriptor>, f: int) {
    0 <= f < |fds| && !fds[f].inUse && forall g | 0 <= g < f :: fds[g].inUse
  }

  lemma {:induction false} LowestFreeIs(fds: seq<Descriptor>, i: nat)
    requires i <= |fds| && forall g | 0 <= g < i :: fds[g].inUse
    ensures FreeFd(fds, i) < |fds| ==> LowestFree(fds, FreeFd(fds, i))
    ensures FreeFd(fds, i) >= |fds| ==> forall g | 0 <= g < |fds| :: fds[g].inUse
    decreases |fds| - i
  {
    if i < |fds| && fds[i].inUse { LowestFreeIs(fds, i + 1); }
  }

  /** A file that may be opened: no directory, and not read-only if flag 1 or 2 is set. */
  ghost predicate MayOpen(b: seq<byte>, i: nat, flags: nat)
    requires 32 * i + 32 <= |b|
  {
    !DirectoryIn(b, i) && !(flags % 4 != 0 && b[32 * i + 11] % 2 == 1)
  }

  ghost predicate HasFree(fds: seq<Descriptor>) {
    exists g | 0 <= g < |fds| :: !fds[g].inUse
  }

  /** A descriptor just opened on entry `i` of directory `d`: at the start of the file, or at its end with flag 16. */
  ghost predicate IsAt(s: Sys, t: Sys, r: int, d: nat, i: nat, flags: nat) {
    && LowestFree(s.fds, r) && IsOpen(t, r) && OnlyFd(s, t, r) && SlotAt(t.fds[r]) == (d, i)
    && t.fds[r].position == (if flags / 16 % 2 == 1 then |BytesOf(t, r)| else 0)
  }

  lemma OpenSlot(s: Sys, path: seq<byte>, flags: nat, d: nat, i: nat)
    requires SysOk(s) && SlotOf(s, path) == Some((d, i)) && Unopened(s, (d, i))
    requires 32 * i + 32 <= |Cluster(s.fs.vol, d)| && MayOpen(Cluster(s.fs.vol, d), i, flags) && HasFree(s.fds)
    ensures (d, i) in Tree(s.fs) && Tree(s.fs)[(d, i)].File?
    ensures var (t, r) := Opened(s, path, flags);
      && SysOk(t) && IsAt(s, t, r, d, i, flags) && (flags / 8 % 2 == 0 ==> t.fs == s.fs)
      && BytesOf(t, r) == (if flags / 8 % 2 == 1 then [] else Tree(s.fs)[(d, i)].bytes)
  {
    OpenExisting(s, path, flags);
    EntryIs(Cluster(s.fs.vol, d), i);
    LowestFreeIs(s.fds, 0);
    var (t, r) := Opened(s, path, flags);
    OpenFile(t, r);
  }

  /** Opening what a path leads to gives the lowest free descriptor on it; with flag 8 the file is empty afterwards. */
  lemma OpenAt(s: Sys, path: seq<byte>, flags: nat, d: nat, i: nat)
    requires SysOk(s) && PathTo(s.fs.vol, s.fs.root, s.cur, path, d, i) && Unopened(s, (d, i))
    requires 32 * i + 32 <= |Cluster(s.fs.vol, d)| && MayOpen(Cluster(s.fs.vol, d), i, flags) && HasFree(s.fds)
    ensures (d, i) in Tree(s.fs) && Tree(s.fs)[(d, i)].File?
    ensures var (t, r) := Opened(s, path, flags);
      && SysOk(t) && IsAt(s, t, r, d, i, flags) && (flags / 8 % 2 == 0 ==> t.fs == s.fs)
      && BytesOf(t, r) == (if flags / 8 % 2 == 1 then [] else Tree(s.fs)[(d, i)].bytes)
  {
    LeadsToSlot(s, path, d, i);
    OpenSlot(s, path, flags, d, i);
  }

  /** A directory, a read-only file with flag 1 or 2, and a full table of descriptors are refused. */
  lemma OpenRefused(s: Sys, path: seq<byte>, flags: nat, d: nat, i: nat)
    requires SysOk(s) && PathTo(s.fs.vol, s.fs.root, s.cur, path, d, i) && Unopened(s, (d, i))
    requires 32 * i + 32 <= |Cluster(s.fs.vol, d)| && !(MayOpen(Cluster(s.fs.vol, d), i, flags) && HasFree(s.fds))
    ensures Opened(s, path, flags) == (s, -1)
  {
    LeadsToSlot(s, path, d, i);
    OpenExisting(s, path, flags);
    EntryIs(Cluster(s.fs.vol, d), i);
    LowestFreeIs(s.fds, 0);
  }

  /** Opening with flag 8 empties that file and changes no other. */
  lemma OpenCuts(s: Sys, path: seq<byte>, flags: nat, d: nat, i: nat, x: (nat, nat))
    requires SysOk(s) && PathTo(s.fs.vol, s.fs.root, s.cur, path, d, i) && Unopened(s, (d, i))
    ensures var t := Opened(s, path, flags).0;
      && (x in Tree(t.fs) <==> x in Tree(s.fs))
      && (x in Tree(s.fs) && x != (d, i) ==> Tree(t.fs)[x] == Tree(s.fs)[x])
  {
    LeadsToSlot(s, path, d, i);
    OpenExisting(s, path, flags);
  }

  /** Opening what no path leads to fails without flag 4. */
  lemma OpenNothing(s: Sys, path: seq<byte>, flags: nat)
    requires flags / 4 % 2 == 0 && forall d: nat, i: nat :: !PathTo(s.fs.vol, s.fs.root, s.cur, path, d, i)
    ensures Opened(s, path, flags) == (s, -1)
  {
    if SlotOf(s, path).Some? { SlotLeads(s, path, SlotOf(s, path).value.0, SlotOf(s, path).value.1); }
  }

  /** Entry `i` is the first whose first byte is 0 or 0xE5. */
  ghost predicate FirstFreeEntry(b: seq<byte>, i: nat) {
    && 32 * i + 32 <= |b| && (b[32 * i] == 0 || b[32 * i] == 0xE5)
    && forall j: nat :: j < i ==> FirstByte(b, j) != 0 && FirstByte(b, j) != 0xE5
  }

  lemma {:induction false} GapIs(b: seq<byte>, k: nat, i: nat)
    requires k <= i && FirstFreeEntry(b, i)
    ensures GapFrom(b, k) == Some(i)
    decreases i - k
  {
    if k < i {
      assert FirstByte(b, k) == b[32 * k];
      GapIs(b, k + 1, i);
    }
  }

  /**
   * With flag 4 a bare name that the current directory does not have appears there, in the first free
   * entry, as an empty file; unless its short name starts with 0xE5.
   */
  lemma CreateBare(s: Sys, name: seq<byte>, short: seq<byte>, flags: nat, i: nat)
    requires SysOk(s) && FsOk(s.fs) && s.cur in s.fs.dirs && flags / 4 % 2 == 1 && FreeOf(s.fs) > 0
    requires IsWord(name) && 0 !in name && ShortFor(name, short) && short[..1] != [0xE5]
    requires (forall j: nat :: !Bears(Cluster(s.fs.vol, s.cur), short, j)) && FirstFreeEntry(Cluster(s.fs.vol, s.cur), i)
    ensures var (t, r) := Opened(s, name, flags);
      && SysOk(t) && Tree(t.fs) == Tree(s.fs)[(s.cur, i) := File(short, 0x20, [])]
      && (if HasFree(s.fds) then
            LowestFree(s.fds, r) && IsOpen(t, r) && OnlyFd(s, t, r) && SlotAt(t.fds[r]) == (s.cur, i)
          else r == -1 && t.fds == s.fds)
  {
    var b := Cluster(s.fs.vol, s.cur);
    BareName(s.fs.vol, s.fs.root, s.cur, name);
    ShortIs(name, short);
    FindIs(b, short, 0);
    GapIs(b, 0, i);
    NextMeaning(s.fs);
    assert SlotOf(s, name).None?;
    assert CreatesOn(s, name, flags, s.cur, name, i);
    OpenNew(s, name, flags, s.cur, name, i);
    NewFd(s, name, flags, i);
    LowestFreeIs(s.fds, 0);
  }

  lemma NewFd(s: Sys, name: seq<byte>, flags: nat, i: nat)
    requires CreatesOn(s, name, flags, s.cur, name, i) && Formatted(name).value[..1] != [DELETED]
    ensures Opened(s, name, flags).1 == if FreeFd(s.fds, 0) < |s.fds| then FreeFd(s.fds, 0) else -1
  {
    OpenNewIs(s, name, flags, s.cur, name, i);
    NewSlotOpenable(s, name, flags, s.cur, name, i);
  }

  // ---------------------------------------------------------------------------
  // Reading
  // ---------------------------------------------------------------------------

  /** What a listed file holds, from its entry and the FAT. */
  lemma FileBytes(fs: Fs, d: nat, i: nat)
    requires FsOk(fs) && (d, i) in Tree(fs) && Tree(fs)[(d, i)].File?
    ensures Shaped(fs.vol) && 32 * i + 32 <= |Cluster(fs.vol, d)|
    ensures var b := Cluster(fs.vol, d);
      Tree(fs)[(d, i)].bytes == if ClusterIn(b, i) == 0 then [] else Followed(fs.vol, ClusterIn(b, i), SizeIn(b, i))
  {
    TreeMeaning(fs);
    FsMeaning(fs);
    EntryIs(Cluster(fs.vol, d), i);
    var e := Slot(fs, d, i);
    assert EntryOk(fs, e);
    if First(e) != 0 {
      ContentsIs(fs, First(e), Size(e));
    } else {
      assert Contents(fs, 0, 0) == [];
    }
  }

  /** The bytes of the file whose entry is number `i` of the directory at cluster `d`. */
  ghost function FileAt(v: Volume, d: nat, i: nat): seq<byte>
    requires Shaped(v) && 32 * i + 32 <= |Cluster(v, d)|
  {
    var b := Cluster(v, d);
    if ClusterIn(b, i) == 0 then [] else Followed(v, ClusterIn(b, i), SizeIn(b, i))
  }

  /** The path leads to a file that may be opened for reading, and it is not open. */
  ghost predicate Readable(s: Sys, path: seq<byte>, d: nat, i: nat) {
    && 0 !in path && PathTo(s.fs.vol, s.fs.root, s.cur, path, d, i)
    && 32 * i + 32 <= |Cluster(s.fs.vol, d)| && MayOpen(Cluster(s.fs.vol, d), i, 1)
    && Unopened(s, (d, i)) && HasFree(s.fds)
  }

  /** Descriptor `r` stands at the start of a file with these bytes. */
  ghost predicate ReadyAt(t: Sys, r: int, data: seq<byte>) {
    SysOk(t) && IsOpen(t, r) && t.fds[r].position == 0 && BytesOf(t, r) == data
  }

  lemma Ready(s: Sys, t: Sys, r: int, d: nat, i: nat, flags: nat)
    requires SysOk(s) && SysOk(t) && flags == 1 && IsAt(s, t, r, d, i, flags)
    requires (d, i) in Tree(s.fs) && Tree(s.fs)[(d, i)].File? && BytesOf(t, r) == Tree(s.fs)[(d, i)].bytes
    ensures Shaped(s.fs.vol) && 32 * i + 32 <= |Cluster(s.fs.vol, d)| && ReadyAt(t, r, FileAt(s.fs.vol, d, i))
  {
    TreeBytes(s, d, i);
  }

  lemma TreeBytes(s: Sys, d: nat, i: nat)
    requires SysOk(s) && (d, i) in Tree(s.fs) && Tree(s.fs)[(d, i)].File?
    ensures Shaped(s.fs.vol) && 32 * i + 32 <= |Cluster(s.fs.vol, d)| && Tree(s.fs)[(d, i)].bytes == FileAt(s.fs.vol, d, i)
  {
    SysMeaning(s);
    FileBytes(s.fs, d, i);
  }

  lemma ReadableOpens(s: Sys, path: seq<byte>, flags: nat, d: nat, i: nat)
    requires SysOk(s) && Readable(s, path, d, i) && flags == 1
    ensures Shaped(s.fs.vol) && SlotOf(s, path) == Some((d, i))
    ensures var (t, r) := Opened(s, path, flags); ReadyAt(t, r, FileAt(s.fs.vol, d, i))
  {
    LeadsToSlot(s, path, d, i);
    OpenSlot(s, path, flags, d, i);
    var (t, r) := Opened(s, path, flags);
    Ready(s, t, r, d, i, flags);
  }

  method ReadOpen(driver: Driver, fd: int, count: nat, ghost data: seq<byte>) returns (out: seq<byte>)
    requires driver.Valid() && ReadyAt(driver.System(), fd, data)
    modifies driver, driver.dev
    ensures out == data[..Min(count % 0x1_0000_0000, |data|)]
  {
    OpenFile(driver.System(), fd);
    var n;
    n, out := driver.Read(fd, count);
    assert data[0..n] == data[..n];
  }

  /** Opens what a path leads to, from the root or the current directory, and reads it. */
  method ReadPath(driver: Driver, path: seq<byte>, count: nat, ghost d: nat, ghost i: nat) returns (out: seq<byte>)
    requires driver.Valid() && Readable(driver.System(), path, d, i)
    modifies driver, driver.dev
    ensures Shaped(old(driver.dev.vol))
    ensures var data := FileAt(old(driver.dev.vol), d, i);
      out == data[..Min(count % 0x1_0000_0000, |data|)]
  {
    ReadableOpens(driver.System(), path, 1, d, i);
    ghost var data := FileAt(driver.dev.vol, d, i);
    var fd := driver.Open(path, 1);
    out := ReadOpen(driver, fd, count, data);
  }

  /** A bare name leads into the current directory: so that is where `ReadPath` reads it. */
  lemma BareLeads(v: Volume, root: nat, cur: nat, name: seq<byte>, i: nat)
    requires IsWord(name) && NamesEntry(v, cur, name, i)
    ensures PathTo(v, root, cur, name, cur, i)
  {
    assert name[0] in name;
    assert StartsAt(root, cur, name) == cur;
    assert LeadsBy(v, StartsAt(root, cur, name), name, cur, i, [], name);
  }
}
