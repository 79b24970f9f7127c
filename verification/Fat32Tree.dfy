/**
 * Directories and files: what the directory entries and the chains mean together.
 *
 * The driver looks at one cluster per directory.  An entry is 32 bytes; its slot is the pair
 * of its directory's cluster and its index there.
 */
module Fat32Tree {
  import opened Bytes
  import opened Fat32Spec

  const DELETED: byte := 0xE5
  const ATTR_LONG_NAME: byte := 0x0F
  const ATTR_ARCHIVE: byte := 0x20

  // ---------------------------------------------------------------------------
  // Directory entries
  // ---------------------------------------------------------------------------

  function U16FromLe(d: seq<byte>, offset: nat): nat
    requires offset + 2 <= |d|
  {
    d[offset] as int + 256 * d[offset + 1] as int
  }

  function U16ToLe(v: nat): (r: seq<byte>)
    ensures |r| == 2
  {
    [v % 256, v / 256 % 256]
  }

  type Entry = e: seq<byte> | |e| == 32 witness seq(32, _ => 0)

  function Name(e: Entry): seq<byte> {
    e[..11]
  }

  function Attr(e: Entry): byte {
    e[11]
  }

  function First(e: Entry): nat {
    U16FromLe(e, 20) * 65536 + U16FromLe(e, 26)
  }

  function Size(e: Entry): u32 {
    U32FromLe(e, 28)
  }

  predicate IsDir(e: Entry) {
    Attr(e) / 16 % 2 == 1
  }

  function WithSize(e: Entry, size: u32): Entry {
    e[..28] + U32ToLe(size)
  }

  function WithFirst(e: Entry, c: u32): Entry {
    e[..20] + U16ToLe(c / 65536) + e[22..26] + U16ToLe(c % 65536) + e[28..]
  }

  lemma SizeWritten(e: Entry, size: u32)
    ensures var f := WithSize(e, size);
      Size(f) == size && First(f) == First(e) && Name(f) == Name(e) && Attr(f) == Attr(e)
  {
    var f := WithSize(e, size);
    assert f[20..22] == e[20..22] && f[26..28] == e[26..28] && f[..11] == e[..11];
    assert f[28..32] == U32ToLe(size);
    U32RoundTrip(size, f, 28);
  }

  lemma FirstWritten(e: Entry, c: u32)
    ensures var f := WithFirst(e, c);
      Size(f) == Size(e) && First(f) == c && Name(f) == Name(e) && Attr(f) == Attr(e)
  {
    var f := WithFirst(e, c);
    assert f[28..32] == e[28..32];
    U16RoundTrip(c / 65536);
    U16RoundTrip(c % 65536);
    assert f[20..22] == U16ToLe(c / 65536) && f[26..28] == U16ToLe(c % 65536);
  }

  lemma U16RoundTrip(v: nat)
    requires v < 65536
    ensures U16FromLe(U16ToLe(v), 0) == v
  {
  }

  // ---------------------------------------------------------------------------
  // One directory cluster
  // ---------------------------------------------------------------------------

  function EntryAt(b: seq<byte>, i: nat): Entry
    requires 32 * i + 32 <= |b|
  {
    b[32 * i..32 * i + 32]
  }

  /** The first byte of entry `i`: zero past the end of the directory. */
  function Mark(b: seq<byte>, i: nat): byte
    requires 32 * i + 32 <= |b|
  {
    EntryAt(b, i)[0]
  }

  function WithEntryAt(b: seq<byte>, i: nat, e: Entry): seq<byte>
    requires 32 * i + 32 <= |b|
  {
    Overwritten(b, 32 * i, e)
  }

  lemma EntryReplaced(b: seq<byte>, i: nat, e: Entry, j: nat)
    requires 32 * i + 32 <= |b| && 32 * j + 32 <= |b|
    ensures |WithEntryAt(b, i, e)| == |b|
    ensures EntryAt(WithEntryAt(b, i, e), j) == if i == j then e else EntryAt(b, j)
  {
    var w := WithEntryAt(b, i, e);
    if i < j {
      assert 32 * i + 32 <= 32 * j;
    } else if j < i {
      assert 32 * j + 32 <= 32 * i;
    }
  }

  /** No end mark up to and including entry `i`. */
  ghost predicate Reached(b: seq<byte>, i: nat)
    requires 32 * i + 32 <= |b|
  {
    forall j: nat | j <= i :: Mark(b, j) != 0
  }

  /** An entry the search looks at. */
  ghost predicate Live(b: seq<byte>, i: nat) {
    32 * i + 32 <= |b| && Reached(b, i) && Mark(b, i) != DELETED && Attr(EntryAt(b, i)) != ATTR_LONG_NAME
  }

  /** Nothing but end marks after the first end mark. */
  ghost predicate Tidy(b: seq<byte>) {
    forall i: nat, j: nat | i < j && 32 * j + 32 <= |b| && Mark(b, i) == 0 :: Mark(b, j) == 0
  }

  // ---------------------------------------------------------------------------
  // The file system
  // ---------------------------------------------------------------------------

  datatype Fs = Fs(vol: Volume, chains: Chains, dirs: set<nat>, root: nat)

  datatype Item =
    | Dir(name: seq<byte>, attr: byte, first: nat)
    | File(name: seq<byte>, attr: byte, bytes: seq<byte>)

  ghost predicate HasSlot(fs: Fs, d: nat, i: nat) {
    d in fs.dirs && 32 * i + 32 <= |Cluster(fs.vol, d)|
  }

  ghost predicate Listed(fs: Fs, d: nat, i: nat) {
    d in fs.dirs && Live(Cluster(fs.vol, d), i)
  }

  function Slot(fs: Fs, d: nat, i: nat): Entry
    requires 32 * i + 32 <= |Cluster(fs.vol, d)|
  {
    EntryAt(Cluster(fs.vol, d), i)
  }

  /** The bytes of the file that starts at `first` and has the given size. */
  function Contents(fs: Fs, first: nat, size: nat): seq<byte> {
    if first in fs.chains && size <= |Stream(fs.vol, fs.chains[first])| then
      Stream(fs.vol, fs.chains[first])[..size]
    else
      []
  }

  function ItemOf(fs: Fs, e: Entry): Item {
    if IsDir(e) then Dir(Name(e), Attr(e), First(e))
    else File(Name(e), Attr(e), Contents(fs, First(e), Size(e)))
  }

  /** Everything a user of the file system can see: the items by slot. */
  ghost function Tree(fs: Fs): imap<(nat, nat), Item> {
    TreeAt(fs, 3)
  }

  /** The depth only keeps the definition out of proofs that do not need it. */
  ghost function TreeAt(fs: Fs, depth: nat): imap<(nat, nat), Item>
    decreases depth, fs
  {
    if depth == 0 then imap x: (nat, nat) | Listed(fs, x.0, x.1) :: ItemOf(fs, Slot(fs, x.0, x.1))
    else TreeAt(fs, depth - 1)
  }

  lemma TreeMeaning(fs: Fs)
    ensures Tree(fs) == imap x: (nat, nat) | Listed(fs, x.0, x.1) :: ItemOf(fs, Slot(fs, x.0, x.1))
  {
    assert Tree(fs) == TreeAt(fs, 3) == TreeAt(fs, 2) == TreeAt(fs, 1) == TreeAt(fs, 0);
  }

  lemma TreeAtSlot(fs: Fs, d: nat, i: nat)
    requires Listed(fs, d, i)
    ensures (d, i) in Tree(fs) && Tree(fs)[(d, i)] == ItemOf(fs, Slot(fs, d, i))
  {
    TreeMeaning(fs);
  }

  /** A file has no clusters and no bytes, or a chain of its own that is long enough. */
  ghost predicate EntryOk(fs: Fs, e: Entry) {
    if IsDir(e) then First(e) == 0 || First(e) in fs.dirs
    else if First(e) == 0 then Size(e) == 0
    else First(e) in fs.chains && First(e) !in fs.dirs && Size(e) <= |fs.chains[First(e)]| * fs.vol.bpc
  }

  ghost predicate VolumeOk(fs: Fs) {
    && Shaped(fs.vol) && Mirrored(fs.vol) && fs.vol.bpc % 32 == 0
    && |fs.vol.data| * fs.vol.bpc < 0x1_0000_0000
    && Threaded(Table(fs.vol), fs.chains)
    && fs.root in fs.dirs
    && (forall d | d in fs.dirs :: d in fs.chains)
  }

  ghost predicate EntriesOk(fs: Fs) {
    forall d, i | Listed(fs, d, i) :: EntryOk(fs, Slot(fs, d, i))
  }

  ghost predicate OwnsFile(fs: Fs, d: nat, i: nat, first: nat) {
    first != 0 && Listed(fs, d, i) && !IsDir(Slot(fs, d, i)) && First(Slot(fs, d, i)) == first
  }

  /** No two entries share a chain. */
  ghost predicate Unshared(fs: Fs) {
    forall d, i, e, j, first | OwnsFile(fs, d, i, first) && OwnsFile(fs, e, j, first) :: d == e && i == j
  }

  ghost predicate DirsTidy(fs: Fs) {
    forall d | d in fs.dirs :: Tidy(Cluster(fs.vol, d))
  }

  /** The file system invariant. */
  ghost predicate FsOk(fs: Fs) {
    FsOkAt(fs, 3)
  }

  /** The depth only keeps the definition out of proofs that do not need it. */
  ghost predicate FsOkAt(fs: Fs, depth: nat)
    decreases depth, fs
  {
    if depth == 0 then VolumeOk(fs) && EntriesOk(fs) && Unshared(fs) && DirsTidy(fs) else FsOkAt(fs, depth - 1)
  }

  lemma FsMeaning(fs: Fs)
    ensures FsOk(fs) <==> VolumeOk(fs) && EntriesOk(fs) && Unshared(fs) && DirsTidy(fs)
  {
    assert FsOkAt(fs, 3) == FsOkAt(fs, 2) == FsOkAt(fs, 1) == FsOkAt(fs, 0);
  }

  /** A chain that no directory and no file uses yet. */
  ghost predicate Loose(fs: Fs, c: nat) {
    && c in fs.chains && c !in fs.dirs && c != 0
    && forall d, i :: !OwnsFile(fs, d, i, c)
  }

  // ---------------------------------------------------------------------------
  // Facts
  // ---------------------------------------------------------------------------

  lemma ChainWithin(fs: Fs, a: nat)
    requires VolumeOk(fs) && a in fs.chains
    ensures Within(fs.vol, fs.chains[a]) && fs.chains[a] != [] && fs.chains[a][0] == a && 2 <= a
    ensures |Stream(fs.vol, fs.chains[a])| == |fs.chains[a]| * fs.vol.bpc
  {
    var t, p := Table(fs.vol), fs.chains[a];
    assert Linked(t, p);
    forall i | 0 <= i < |p| ensures 2 <= p[i] < |fs.vol.data| + 2 {
      assert Follows(t, p, i);
    }
    StreamLength(fs.vol, p);
  }

  lemma DirCluster(fs: Fs, d: nat)
    requires VolumeOk(fs) && d in fs.dirs
    ensures 2 <= d < |fs.vol.data| + 2 && |Cluster(fs.vol, d)| == fs.vol.bpc
  {
    ChainWithin(fs, d);
  }

  /** The chain of a file is at most as long as the volume, so its size fits the entry's field. */
  lemma {:induction false} ChainFits(fs: Fs, a: nat)
    requires VolumeOk(fs) && a in fs.chains
    ensures |fs.chains[a]| <= |fs.vol.data|
    ensures |fs.chains[a]| * fs.vol.bpc < 0x1_0000_0000
  {
    var p := fs.chains[a];
    ChainWithin(fs, a);
    assert forall i, j | 0 <= i < |p| && 0 <= j < |p| && p[i] == p[j] :: i == j;
    PigeonHole(p, |fs.vol.data|);
    MulMonotone(|p|, |fs.vol.data|, fs.vol.bpc);
  }

  lemma MulMonotone(a: nat, b: nat, k: nat)
    requires a <= b
    ensures a * k <= b * k
  {
  }

  function Range(n: nat): (s: set<nat>)
    ensures forall x: nat :: x in s <==> 2 <= x < n + 2
    ensures |s| == n
  {
    if n == 0 then {} else Range(n - 1) + {n + 1}
  }

  function Members(p: seq<nat>): (s: set<nat>)
    ensures forall x: nat :: x in s <==> x in p
  {
    if p == [] then {} else Members(p[1..]) + {p[0]}
  }

  lemma {:induction false} MembersCount(p: seq<nat>)
    requires forall i, j | 0 <= i < |p| && 0 <= j < |p| && p[i] == p[j] :: i == j
    ensures |Members(p)| == |p|
  {
    if p != [] {
      var q := p[1..];
      forall i, j | 0 <= i < |q| && 0 <= j < |q| && q[i] == q[j] ensures i == j {
        assert p[i + 1] == p[j + 1];
      }
      MembersCount(q);
      assert p[0] !in q;
    }
  }

  lemma SubsetCount(a: set<nat>, b: set<nat>)
    requires a <= b
    ensures |a| <= |b|
  {
    assert b == a + (b - a);
  }

  lemma PigeonHole(p: seq<nat>, n: nat)
    requires forall i, j | 0 <= i < |p| && 0 <= j < |p| && p[i] == p[j] :: i == j
    requires forall i | 0 <= i < |p| :: 2 <= p[i] < n + 2
    ensures |p| <= n
  {
    MembersCount(p);
    SubsetCount(Members(p), Range(n));
  }
}
