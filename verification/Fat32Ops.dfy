/** What open, close, read and write do to the file system and the descriptor table. */
module Fat32Ops {
  import opened Bytes
  import opened Fat32Spec
  import opened Fat32Tree
  import opened Fat32Safety
  import opened Fat32Alloc
  import opened Fat32Names

  const MAX_OPEN_FILES: nat := 16
  const TOP: nat := 0x1_0000_0000

  const O_RDONLY: nat := 0x01
  const O_CREAT: nat := 0x04
  const O_TRUNC: nat := 0x08
  const O_APPEND: nat := 0x10

  predicate Has(flags: nat, bit: nat)
    requires bit > 0
  {
    flags / bit % 2 == 1
  }

  /** O_RDONLY is 1, O_WRONLY 2 and O_RDWR 3, so any of the three passes the driver's write test. */
  predicate WriteFlags(flags: nat) {
    flags % 4 != 0
  }

  datatype Descriptor = Descriptor(inUse: bool, first: nat, size: nat, position: nat, capacity: nat,
                                   dir: nat, index: nat, attr: byte, flags: nat)

  const CLOSED := Descriptor(false, 0, 0, 0, 0, 0, 0, 0, 0)

  datatype Sys = Sys(fs: Fs, fds: seq<Descriptor>, cur: nat)

  predicate IsOpen(s: Sys, f: int) {
    0 <= f < |s.fds| && s.fds[f].inUse
  }

  // ---------------------------------------------------------------------------
  // Writing
  // ---------------------------------------------------------------------------

  predicate InDisk(fs: Fs, d: nat, i: nat) {
    2 <= d < |fs.vol.data| + 2 && 32 * i + 32 <= |Cluster(fs.vol, d)|
  }

  function SetSize(fs: Fs, d: nat, i: nat, size: nat): Fs {
    if InDisk(fs, d, i) && size < TOP then Rewritten(fs, d, i, WithSize(Slot(fs, d, i), size)) else fs
  }

  function SetFirst(fs: Fs, d: nat, i: nat, c: nat): Fs {
    if InDisk(fs, d, i) && c < TOP then Rewritten(fs, d, i, WithFirst(Slot(fs, d, i), c)) else fs
  }

  /** The volume with `s` spread over the clusters of `p`. */
  function Spread(v: Volume, p: seq<nat>, s: seq<byte>): Volume
    decreases |p|
  {
    if p == [] || |s| < v.bpc || !(2 <= p[0] < |v.data| + 2) then v
    else Spread(WithCluster(v, p[0], s[..v.bpc]), p[1..], s[v.bpc..])
  }

  /** How many bytes the chain from `first` holds. */
  function RoomOf(fs: Fs, first: nat): nat {
    if first in fs.chains then |Stream(fs.vol, fs.chains[first])| else 0
  }

  /** Bytes written over those of a chain. */
  function Poured(fs: Fs, first: nat, pos: nat, buf: seq<byte>): Fs {
    if first in fs.chains && pos <= |Stream(fs.vol, fs.chains[first])| then
      fs.(vol := Spread(fs.vol, fs.chains[first], Overwritten(Stream(fs.vol, fs.chains[first]), pos, buf)))
    else fs
  }

  /** How many clusters a file has to grow by to hold `end` bytes. */
  function Needed(cap: nat, end: nat, bpc: nat): nat {
    if end <= cap || bpc == 0 then 0 else Clusters(end - cap, bpc)
  }

  function Clusters(n: nat, bpc: nat): nat
    requires bpc > 0
    decreases n
  {
    if n == 0 then 0 else if n <= bpc then 1 else 1 + Clusters(n - bpc, bpc)
  }

  /** The first cluster of a file that had none. */
  function Adopted(s: Sys, f: nat): Sys
    requires f < |s.fds|
  {
    var fd, c := s.fds[f], Next(s.fs);
    s.(fs := SetFirst(Fresh(s.fs), fd.dir, fd.index, c),
       fds := s.fds[f := fd.(first := c, capacity := s.fs.vol.bpc)])
  }

  /** The bytes written and the size brought up to date, once the chain is long enough. */
  function Filled(s: Sys, f: nat, buf: seq<byte>): Sys
    requires f < |s.fds|
  {
    var fd := s.fds[f];
    var end := fd.position + |buf|;
    var fs := Poured(s.fs, fd.first, fd.position, buf);
    if end > fd.size then
      s.(fs := SetSize(fs, fd.dir, fd.index, end), fds := s.fds[f := fd.(position := end, size := end)])
    else
      s.(fs := fs, fds := s.fds[f := fd.(position := end)])
  }

  /** The chain grown and the descriptor's capacity with it. */
  function Enlarged(s: Sys, f: nat, need: nat): Sys
    requires f < |s.fds|
  {
    var fd := s.fds[f];
    s.(fs := Grown(s.fs, fd.first, need),
       fds := s.fds[f := fd.(capacity := fd.capacity + Times(need, s.fs.vol.bpc))])
  }

  /** A write to a file that has a chain. */
  function WrittenOn(s: Sys, f: nat, buf: seq<byte>): (Sys, int)
    requires f < |s.fds|
  {
    var fd := s.fds[f];
    var end := fd.position + |buf|;
    if end >= TOP then (s, -1)
    else
      var need := Needed(fd.capacity, end, s.fs.vol.bpc);
      if need > FreeOf(s.fs) then (s.(fs := Grown(s.fs, fd.first, need)), -1)
      else
        var m := Enlarged(s, f, need);
        if fd.position >= RoomOf(m.fs, fd.first) then (m, -1) else (Filled(m, f, buf), |buf|)
  }

  /** A write of `count` bytes, of which only the low 32 bits of the count are ever copied: `buf` holds those. */
  function Written(s: Sys, f: int, buf: seq<byte>, count: nat): (Sys, int) {
    if !IsOpen(s, f) || !WriteFlags(s.fds[f].flags) then (s, -1)
    else if count == 0 then (s, 0)
    else if s.fds[f].first != 0 then WrittenOn(s, f, buf)
    else if Next(s.fs) == 0 then (s, -1)
    else WrittenOn(Adopted(s, f), f, buf)
  }

  /** Every cluster of the chain holds its stretch, and no other cluster changes. */
  lemma {:induction false} SpreadMeaning(v: Volume, p: seq<nat>, s: seq<byte>)
    requires Shaped(v) && Within(v, p) && |s| == |p| * v.bpc
    requires forall i, j | 0 <= i < |p| && 0 <= j < |p| && p[i] == p[j] :: i == j
    ensures var w := Spread(v, p, s);
      && Shaped(w) && w.fats == v.fats && w.bpc == v.bpc && |w.data| == |v.data|
      && (forall c: nat | c !in p :: Cluster(w, c) == Cluster(v, c))
      && Stream(w, p) == s
    decreases |p|
  {
    if p != [] {
      var q := p[1..];
      assert |p| * v.bpc == v.bpc + |q| * v.bpc;
      var u := WithCluster(v, p[0], s[..v.bpc]);
      ClusterWritten(v, p[0], s[..v.bpc]);
      forall i, j | 0 <= i < |q| && 0 <= j < |q| && q[i] == q[j] ensures i == j {
        assert p[i + 1] == p[j + 1];
      }
      SpreadMeaning(u, q, s[v.bpc..]);
      assert p[0] !in q by {
        assert forall j | 0 <= j < |q| :: q[j] == p[j + 1];
      }
      assert s == s[..v.bpc] + s[v.bpc..];
    }
  }

  /** A volume that differs only in the clusters of a chain is its own bytes spread over that chain. */
  lemma SpreadUnique(v: Volume, w: Volume, p: seq<nat>)
    requires Shaped(v) && Shaped(w) && Within(v, p)
    requires forall i, j | 0 <= i < |p| && 0 <= j < |p| && p[i] == p[j] :: i == j
    requires w.fats == v.fats && w.bpc == v.bpc && |w.data| == |v.data|
    requires forall c: nat | c !in p :: Cluster(w, c) == Cluster(v, c)
    ensures Spread(v, p, Stream(w, p)) == w
  {
    StreamLength(w, p);
    SpreadMeaning(v, p, Stream(w, p));
    VolumeSame(Spread(v, p, Stream(w, p)), w, p);
  }

  lemma VolumeSame(u: Volume, w: Volume, p: seq<nat>)
    requires Shaped(u) && Shaped(w) && Within(u, p) && Within(w, p) && u.bpc == w.bpc
    requires u.fats == w.fats && |u.data| == |w.data| && Stream(u, p) == Stream(w, p)
    requires forall c: nat | c !in p :: Cluster(u, c) == Cluster(w, c)
    ensures u == w
  {
    forall i | 0 <= i < |w.data| ensures u.data[i] == w.data[i] {
      var c := i + 2;
      assert u.data[i] == Cluster(u, c) && w.data[i] == Cluster(w, c);
      if c in p {
        ClusterSame(u, w, p, c);
      }
    }
  }

  lemma ClusterSame(u: Volume, w: Volume, p: seq<nat>, c: nat)
    requires Shaped(u) && Shaped(w) && Within(u, p) && Within(w, p) && u.bpc == w.bpc && c in p
    requires Stream(u, p) == Stream(w, p)
    ensures Cluster(u, c) == Cluster(w, c)
  {
    var k: nat :| k < |p| && p[k] == c;
    SliceSame(u, w, p, k, Times(k, u.bpc));
  }

  lemma SliceSame(u: Volume, w: Volume, p: seq<nat>, k: nat, start: nat)
    requires Shaped(u) && Shaped(w) && Within(u, p) && Within(w, p) && u.bpc == w.bpc && k < |p|
    requires Stream(u, p) == Stream(w, p) && start == Times(k, u.bpc)
    ensures Cluster(u, p[k]) == Cluster(w, p[k])
  {
    StreamSlice(u, p, k, start);
    StreamSlice(w, p, k, start);
  }

  lemma {:induction false} ClustersCover(n: nat, bpc: nat)
    requires bpc > 0
    ensures n <= Times(Clusters(n, bpc), bpc)
    decreases n
  {
    if n > bpc {
      ClustersCover(n - bpc, bpc);
    }
  }

  // ---------------------------------------------------------------------------
  // Reading and closing
  // ---------------------------------------------------------------------------

  function Closed(s: Sys, f: int): (Sys, int) {
    if IsOpen(s, f) then (s.(fds := s.fds[f := CLOSED]), 0) else (s, -1)
  }

  /** The length asked for is cut to 32 bits, and then to what is left of the file. */
  function ReadCount(fd: Descriptor, count: nat): nat {
    if fd.position >= fd.size then 0 else Min(count % TOP, fd.size - fd.position)
  }

  function ReadFrom(s: Sys, f: int, count: nat): (Sys, int) {
    if !IsOpen(s, f) then (s, -1)
    else
      var fd := s.fds[f];
      (s.(fds := s.fds[f := fd.(position := fd.position + ReadCount(fd, count))]), ReadCount(fd, count) as int)
  }

  // ---------------------------------------------------------------------------
  // Opening
  // ---------------------------------------------------------------------------

  predicate HasLower(s: seq<byte>) {
    exists i | 0 <= i < |s| :: 97 <= s[i] <= 122
  }

  predicate HasUpper(s: seq<byte>) {
    exists i | 0 <= i < |s| :: 65 <= s[i] <= 90
  }

  /** The case bits: base or extension all lower case. */
  function CaseFlags(comp: seq<byte>): byte {
    var base := if HasLower(Base(comp)) && !HasUpper(Base(comp)) then 0x08 else 0;
    var ext := if HasLower(Extension(comp)) && !HasUpper(Extension(comp)) then 0x10 else 0;
    base + ext
  }

  function NewEntry(name: seq<byte>, flags: byte, c: u32): (e: Entry)
    requires |name| == 11
    ensures Name(e) == name && Attr(e) == ATTR_ARCHIVE && First(e) == c && Size(e) == 0
  {
    var blank: Entry := name + [ATTR_ARCHIVE, flags] + Zeros(19);
    FirstWritten(blank, c);
    SizeZero(blank);
    WithFirst(blank, c)
  }

  lemma SizeZero(e: Entry)
    requires e[28..] == Zeros(4)
    ensures Size(e) == 0
  {
    LeValue4(e[28..32]);
  }

  /** The first entry at or after `i` that is past the end or deleted. */
  function GapFrom(b: seq<byte>, i: nat): Option<nat>
    decreases |b| - 32 * i
  {
    if |b| < 32 * i + 32 then None
    else if Mark(b, i) == 0 || Mark(b, i) == DELETED then Some(i)
    else GapFrom(b, i + 1)
  }

  lemma {:induction false} GapMeaning(b: seq<byte>, i: nat)
    requires 32 * i + 32 <= |b| ==> forall j: nat | j < i :: Mark(b, j) != 0
    ensures GapFrom(b, i).Some? ==> FirstGap(b, GapFrom(b, i).value)
    decreases |b| - 32 * i
  {
    if 32 * i + 32 <= |b| && Mark(b, i) != 0 && Mark(b, i) != DELETED {
      GapMeaning(b, i + 1);
    }
  }

  /** A new empty file of one cleared cluster, if the name, the directory and the volume allow it. */
  function Created(fs: Fs, target: Option<(nat, seq<byte>)>): (Fs, bool) {
    if Unusable(target) then (fs, false)
    else
      var (d, comp) := target.value;
      FormattedLength(comp);
      var name := Formatted(comp).value;
      var gap := GapFrom(Cluster(fs.vol, d), 0);
      if Find(Cluster(fs.vol, d), name).Some? || gap.None? || Next(fs) == 0 || Next(fs) >= TOP then (fs, false)
      else
        var taken := Allocated(fs, Next(fs));
        var e := NewEntry(name, CaseFlags(comp), Next(fs));
        if InDisk(taken, d, gap.value) then (Zeroed(Rewritten(taken, d, gap.value, e), Next(fs)), true) else (fs, false)
  }

  function FreeFd(fds: seq<Descriptor>, i: nat): nat
    decreases |fds| - i
  {
    if |fds| <= i || !fds[i].inUse then i else FreeFd(fds, i + 1)
  }

  /** A descriptor on a located entry, and the file cut to nothing if that is asked for. */
  function OpenedAt(s: Sys, d: nat, i: nat, flags: nat): (Sys, int) {
    if !InDisk(s.fs, d, i) then (s, -1)
    else
      var e := Slot(s.fs, d, i);
      var f := FreeFd(s.fds, 0);
      if IsDir(e) || (WriteFlags(flags) && Attr(e) % 2 == 1) || f >= |s.fds| then (s, -1)
      else
        var trunc := Has(flags, O_TRUNC);
        var size := if trunc then 0 else Size(e);
        var fd := Descriptor(true, First(e), size, if Has(flags, O_APPEND) then size else 0,
          RoomOf(s.fs, First(e)), d, i, Attr(e), flags);
        (s.(fs := if trunc then SetSize(s.fs, d, i, 0) else s.fs, fds := s.fds[f := fd]), f as int)
  }

  function SlotOf(s: Sys, path: seq<byte>): Option<(nat, nat)> {
    Locate(s.fs.vol, Resolve(s.fs.vol, s.fs.root, s.cur, path))
  }

  function Opened(s: Sys, path: seq<byte>, flags: nat): (Sys, int) {
    match SlotOf(s, path)
    case Some((d, i)) => OpenedAt(s, d, i, flags)
    case None =>
      if !Has(flags, O_CREAT) then (s, -1)
      else
        var (fs, ok) := Created(s.fs, Resolve(s.fs.vol, s.fs.root, s.cur, path));
        if !ok then (s, -1)
        else
          var t := s.(fs := fs);
          match SlotOf(t, path)
          case None => (t, -1)
          case Some((d, i)) => OpenedAt(t, d, i, flags)
  }
}
