/** The image builder: cluster assignment, the FAT, the directories and the payload area. */
module DiskBuilder {
  import opened Bytes
  import opened Fat32Spec
  import opened Fat32Tree
  import opened Fat32Alloc
  import opened Fat32Names
  import opened DiskNames
  import opened DiskFat
  import opened DiskParts

  const ROOT: nat := 2
  const FIRST_FILE: nat := 10
  const FAT_WORDS: nat := 20480
  const ATTR_DIRECTORY: byte := 0x10
  const ATTR_FILE: byte := 0x20

  // ---------------------------------------------------------------------------
  // Staged files and their clusters
  // ---------------------------------------------------------------------------

  datatype Record = Record(name: seq<byte>, flags: byte, data: seq<byte>)

  function ClusterCount(size: nat): nat {
    if size == 0 then 0 else (size + CLUSTER - 1) / CLUSTER
  }

  function Counts(rs: seq<Record>): (c: seq<nat>)
    ensures |c| == |rs|
  {
    if rs == [] then [] else [ClusterCount(|rs[0].data|)] + Counts(rs[1..])
  }

  lemma {:induction false} CountsAt(rs: seq<Record>, k: nat)
    requires k < |rs|
    ensures Counts(rs)[k] == ClusterCount(|rs[k].data|)
  {
    if k > 0 {
      CountsAt(rs[1..], k - 1);
    }
  }

  /** The first cluster of record `k`; zero for an empty file. */
  function ClusterOf(rs: seq<Record>, k: nat): nat
    requires k < |rs|
  {
    if rs[k].data == [] then 0 else StartAt(FIRST_FILE, Counts(rs), k)
  }

  /** The first cluster after all files. */
  function NextCluster(rs: seq<Record>): nat {
    FIRST_FILE + Sum(Counts(rs))
  }

  lemma CountPositive(rs: seq<Record>, k: nat)
    requires k < |rs| && rs[k].data != []
    ensures Counts(rs)[k] > 0 && |rs[k].data| <= Counts(rs)[k] * CLUSTER
  {
    CountsAt(rs, k);
  }

  lemma ClusterBounds(rs: seq<Record>, k: nat)
    requires k < |rs| && rs[k].data != []
    ensures FIRST_FILE <= ClusterOf(rs, k) && ClusterOf(rs, k) + Counts(rs)[k] <= NextCluster(rs)
  {
    StartBounds(FIRST_FILE, Counts(rs), k);
  }

  /** Different files with bytes start at different clusters. */
  lemma ClusterDistinct(rs: seq<Record>, j: nat, k: nat)
    requires j < |rs| && k < |rs| && rs[j].data != [] && rs[k].data != [] && ClusterOf(rs, j) == ClusterOf(rs, k)
    ensures j == k
  {
    CountPositive(rs, j);
    CountPositive(rs, k);
    if j < k {
      StartOrder(FIRST_FILE, Counts(rs), j, k);
    } else if k < j {
      StartOrder(FIRST_FILE, Counts(rs), k, j);
    }
  }

  /** Assigns clusters record by record. */
  method AssignClusters(rs: seq<Record>) returns (clusters: seq<nat>, next: nat)
    ensures |clusters| == |rs| && next == NextCluster(rs)
    ensures forall k | 0 <= k < |rs| :: clusters[k] == ClusterOf(rs, k)
  {
    clusters := [];
    next := FIRST_FILE;
    ghost var counts := Counts(rs);
    for k := 0 to |rs|
      invariant |clusters| == k && next == StartAt(FIRST_FILE, counts, k)
      invariant forall j | 0 <= j < k :: clusters[j] == ClusterOf(rs, j)
    {
      CountsAt(rs, k);
      StartBounds(FIRST_FILE, counts, k);
      var n := ClusterCount(|rs[k].data|);
      if n == 0 {
        clusters := clusters + [0];
      } else {
        clusters := clusters + [next];
        next := next + n;
      }
    }
    StartTotal(FIRST_FILE, counts);
  }

  lemma {:induction false} StartTotal(c: nat, counts: seq<nat>)
    ensures StartAt(c, counts, |counts|) == c + Sum(counts)
    decreases |counts|
  {
    if counts != [] {
      StartTotal(c + counts[0], counts[1..]);
    }
  }

  // ---------------------------------------------------------------------------
  // The FAT
  // ---------------------------------------------------------------------------

  /** The table before the files: the two reserved words and a one-cluster chain per directory. */
  function BaseTable(n: nat): (t: seq<nat>)
    ensures |t| == n
  {
    seq(n, c requires 0 <= c < n => if c == 0 then 0x0FFF_FFF8 else if c < FIRST_FILE then EOC_MAX else FREE)
  }

  function BuiltTable(rs: seq<Record>, n: nat): (t: seq<nat>)
    ensures |t| == n
  {
    WithRuns(BaseTable(n), FIRST_FILE, Counts(rs))
  }

  function BaseChains(): Chains {
    map c: nat | 2 <= c < 10 :: [c]
  }

  function BuiltChains(rs: seq<Record>): Chains {
    Chained(BaseChains(), FIRST_FILE, Counts(rs))
  }

  lemma BaseThreaded(n: nat)
    requires FIRST_FILE <= n <= BAD
    ensures Threaded(BaseTable(n), BaseChains()) && FreeCount(BaseTable(n)) == n - FIRST_FILE
  {
    var t, ch := BaseTable(n), BaseChains();
    forall a | a in ch ensures Linked(t, ch[a]) && ch[a][0] == a {
      assert Follows(t, ch[a], 0);
    }
    forall c: nat | 2 <= c < |t| && t[c] != FREE && t[c] != BAD ensures Owned(ch, c) {
      assert c in ch[c];
    }
    BaseFree(n, n);
  }

  lemma {:induction false} BaseFree(n: nat, k: nat)
    requires FIRST_FILE <= n && k <= n
    ensures FreeBelow(BaseTable(n), k) == if k <= FIRST_FILE then 0 else k - FIRST_FILE
  {
    if k > 2 {
      BaseFree(n, k - 1);
    }
  }

  /** The FAT is sound, and what is free is all that is left after the files. */
  lemma BuiltThreaded(rs: seq<Record>, n: nat)
    requires NextCluster(rs) <= n <= BAD
    ensures Threaded(BuiltTable(rs, n), BuiltChains(rs))
    ensures FreeCount(BuiltTable(rs, n)) == n - NextCluster(rs)
  {
    BaseThreaded(n);
    RunsKeep(BaseTable(n), BaseChains(), FIRST_FILE, Counts(rs));
  }

  lemma BuiltChainOf(rs: seq<Record>, k: nat)
    requires k < |rs| && rs[k].data != []
    ensures ClusterOf(rs, k) in BuiltChains(rs)
    ensures BuiltChains(rs)[ClusterOf(rs, k)] == RunOf(ClusterOf(rs, k), Counts(rs)[k])
  {
    CountPositive(rs, k);
    ChainedAt(BaseChains(), FIRST_FILE, Counts(rs), k);
  }

  lemma BuiltDirChain(rs: seq<Record>, d: nat)
    requires 2 <= d < FIRST_FILE
    ensures d in BuiltChains(rs) && BuiltChains(rs)[d] == [d]
  {
    ChainedStays(BaseChains(), FIRST_FILE, Counts(rs), d);
  }

  /** Links one file's clusters in the table. */
  method AppendChain(fat: array<nat>, next: nat, count: nat)
    requires next + count <= fat.Length
    modifies fat
    ensures fat[..] == WithRun(old(fat[..]), next, count)
  {
    for offset := 0 to count
      invariant forall k | 0 <= k < fat.Length ::
        fat[k] == if next <= k < next + offset then RunEntry(next, count, k - next) else old(fat[..])[k]
    {
      fat[next + offset] := if offset == count - 1 then EOC_MAX else next + offset + 1;
    }
  }

  /** Builds the whole table, directories first, then the files in order. */
  method CreateFat(rs: seq<Record>, fat: array<nat>)
    requires NextCluster(rs) <= fat.Length
    modifies fat
    ensures fat[..] == BuiltTable(rs, fat.Length)
  {
    for c := 0 to fat.Length
      invariant fat[..c] == BaseTable(fat.Length)[..c]
    {
      fat[c] := if c == 0 then 0x0FFF_FFF8 else if c < FIRST_FILE then EOC_MAX else FREE;
      assert fat[..c + 1] == fat[..c] + [fat[c]];
    }
    ghost var base, counts := BaseTable(fat.Length), Counts(rs);
    assert fat[..] == base;
    var next := FIRST_FILE;
    for k := 0 to |rs|
      invariant next == StartAt(FIRST_FILE, counts, k)
      invariant WithRuns(fat[..], next, counts[k..]) == BuiltTable(rs, fat.Length)
    {
      CountsAt(rs, k);
      StartBounds(FIRST_FILE, counts, k);
      AppendChain(fat, next, ClusterCount(|rs[k].data|));
      next := next + ClusterCount(|rs[k].data|);
      assert counts[k..][1..] == counts[k + 1..];
    }
  }

  // ---------------------------------------------------------------------------
  // Directories
  // ---------------------------------------------------------------------------

  const DOT_NAME: seq<byte> := [46]
  const DOTS_NAME: seq<byte> := [46, 46]
  const INIT_NAME: seq<byte> := [73, 78, 73, 84]
  const BIN_NAME: seq<byte> := [66, 73, 78]
  const RUN_NAME: seq<byte> := [82, 85, 78]
  const HOME_NAME: seq<byte> := [72, 79, 77, 69]
  const INCLUDE_NAME: seq<byte> := [73, 78, 67, 76, 85, 68, 69]
  const BOOT_NAME: seq<byte> := [66, 79, 79, 84]
  const GRUB_NAME: seq<byte> := [71, 82, 85, 66]

  /** A directory's entry, for a cluster of the fixed ones or none. */
  ghost predicate DirLike(e: Entry) {
    && 0 < e[0] < 128 && Attr(e) != ATTR_LONG_NAME && IsDir(e)
    && (First(e) == 0 || ROOT <= First(e) < FIRST_FILE)
  }

  function DirEntry(name: seq<byte>, attr: byte, c: nat): (e: Entry)
    requires 0 < |name| <= 11 && 0 < name[0] < 128 && (c == 0 || ROOT <= c < FIRST_FILE) && (attr == 0x10 || attr == 0x11)
    ensures Name(e) == Padded(name, 11) && Attr(e) == attr && First(e) == c && Size(e) == 0
    ensures DirLike(e)
  {
    var e := MakeEntry(Padded(name, 11), attr, c, 0, 0);
    assert Name(e)[0] == e[0];
    e
  }

  /** A subdirectory to list. */
  datatype Sub = Sub(name: seq<byte>, attr: byte, cluster: nat)

  predicate SubOk(x: Sub) {
    && 0 < |x.name| <= 11 && 0 < x.name[0] < 128 && (x.attr == 0x10 || x.attr == 0x11)
    && (x.cluster == 0 || ROOT <= x.cluster < FIRST_FILE)
  }

  type GoodSub = x: Sub | SubOk(x) witness Sub([65], 0x10, 0)

  /** The directories a directory lists before its files. */
  function Subs(d: nat): seq<GoodSub>
    requires ROOT <= d < FIRST_FILE
  {
    var dots := [Sub(DOT_NAME, 0x10, d), Sub(DOTS_NAME, 0x10, if d == 2 then 0 else if d == 9 then 8 else 2)];
    if d == 2 then
      dots + [Sub(INIT_NAME, 0x11, 3), Sub(BIN_NAME, 0x10, 4), Sub(RUN_NAME, 0x10, 5), Sub(HOME_NAME, 0x10, 6),
              Sub(INCLUDE_NAME, 0x10, 7), Sub(BOOT_NAME, 0x10, 8)]
    else if d == 8 then dots + [Sub(GRUB_NAME, 0x10, 9)]
    else dots
  }

  function SubEntry(x: GoodSub): (e: Entry)
    ensures DirLike(e) && Name(e) == Padded(x.name, 11) && First(e) == x.cluster
  {
    DirEntry(x.name, x.attr, x.cluster)
  }

  /** The entries a directory has before its files. */
  function Head(d: nat): (es: seq<Entry>)
    requires ROOT <= d < FIRST_FILE
    ensures |es| == (if d == 2 then 8 else if d == 8 then 3 else 2) == |Subs(d)|
    ensures forall i | 0 <= i < |es| ::
      DirLike(es[i]) && Name(es[i]) == Padded(Subs(d)[i].name, 11) && First(es[i]) == Subs(d)[i].cluster
  {
    seq(|Subs(d)|, i requires 0 <= i < |Subs(d)| => SubEntry(Subs(d)[i]))
  }

  /** The records in order, and for each directory from the root on the places of its files in that order. */
  datatype Plan = Plan(rs: seq<Record>, files: seq<seq<nat>>)

  ghost predicate PlanOk(pl: Plan) {
    |pl.files| == 8 && forall d, i | 0 <= d < 8 && 0 <= i < |pl.files[d]| :: pl.files[d][i] < |pl.rs|
  }

  /** Every record is in at most one directory, once. */
  ghost predicate OnePlace(pl: Plan) {
    && PlanOk(pl)
    && forall d, e, i, j | 0 <= d < 8 && 0 <= e < 8 && 0 <= i < |pl.files[d]| && 0 <= j < |pl.files[e]|
         && pl.files[d][i] == pl.files[e][j] :: d == e && i == j
  }

  /** The files that get an entry: those with bytes, while there is room. */
  function Shown(rs: seq<Record>, ks: seq<nat>, room: nat): (r: seq<nat>)
    requires forall i | 0 <= i < |ks| :: ks[i] < |rs|
    ensures |r| <= room
    ensures forall i | 0 <= i < |r| :: r[i] in ks && rs[r[i]].data != []
    decreases |ks|
  {
    if ks == [] || room == 0 then []
    else if rs[ks[0]].data == [] then Shown(rs, ks[1..], room)
    else
      var rest := Shown(rs, ks[1..], room - 1);
      assert forall i | 0 <= i < |rest| :: rest[i] in ks[1..] && rest[i] in ks;
      [ks[0]] + rest
  }

  ghost predicate Distinct(ks: seq<nat>) {
    forall i, j | 0 <= i < |ks| && 0 <= j < |ks| && ks[i] == ks[j] :: i == j
  }

  lemma ConsDistinct(x: nat, tail: seq<nat>)
    requires Distinct(tail) && x !in tail
    ensures Distinct([x] + tail)
  {
    var r := [x] + tail;
    forall i, j | 0 <= i < |r| && 0 <= j < |r| && r[i] == r[j] ensures i == j {
      assert i > 0 ==> r[i] == tail[i - 1] && r[i] in tail;
      assert j > 0 ==> r[j] == tail[j - 1] && r[j] in tail;
    }
  }

  lemma TailDistinct(ks: seq<nat>)
    requires Distinct(ks) && ks != []
    ensures Distinct(ks[1..]) && ks[0] !in ks[1..]
  {
    var rest := ks[1..];
    forall i, j | 0 <= i < |rest| && 0 <= j < |rest| && rest[i] == rest[j] ensures i == j {
      assert ks[i + 1] == ks[j + 1];
    }
    assert forall i | 0 <= i < |rest| :: rest[i] == ks[i + 1];
  }

  lemma {:induction false} ShownDistinct(rs: seq<Record>, ks: seq<nat>, room: nat)
    requires (forall i | 0 <= i < |ks| :: ks[i] < |rs|) && Distinct(ks)
    ensures Distinct(Shown(rs, ks, room))
    decreases |ks|
  {
    if ks != [] && room > 0 {
      TailDistinct(ks);
      if rs[ks[0]].data == [] {
        ShownDistinct(rs, ks[1..], room);
      } else {
        ShownDistinct(rs, ks[1..], room - 1);
        ConsDistinct(ks[0], Shown(rs, ks[1..], room - 1));
      }
    }
  }

  /** The plan fits: every name has a short form in ASCII, and the FAT has room for every cluster. */
  ghost predicate PlanFits(pl: Plan, n: nat) {
    && PlanOk(pl) && NextCluster(pl.rs) <= n <= FAT_WORDS
    && forall k | 0 <= k < |pl.rs| :: GoodName(pl.rs[k].name)
  }

  ghost predicate GoodName(name: seq<byte>) {
    HostShort(name).Some? && forall i | 0 <= i < |name| :: 0 < name[i] < 128
  }

  lemma GoodShort(name: seq<byte>)
    requires GoodName(name)
    ensures |HostShort(name).value| == 11 && 0 < HostShort(name).value[0] < 128
  {
  }

  function FileEntry(rs: seq<Record>, k: nat): (e: Entry)
    requires k < |rs| && GoodName(rs[k].name) && ClusterOf(rs, k) < 0x1_0000_0000 && |rs[k].data| < 0x1_0000_0000
    ensures Name(e) == HostShort(rs[k].name).value && Attr(e) == ATTR_FILE
    ensures First(e) == ClusterOf(rs, k) && Size(e) == |rs[k].data|
  {
    GoodShort(rs[k].name);
    MakeEntry(HostShort(rs[k].name).value, ATTR_FILE, ClusterOf(rs, k), |rs[k].data|, rs[k].flags)
  }

  lemma SmallFile(rs: seq<Record>, n: nat, k: nat)
    requires NextCluster(rs) <= n <= FAT_WORDS && k < |rs|
    ensures ClusterOf(rs, k) < 0x1_0000_0000 && |rs[k].data| < 0x1_0000_0000
  {
    if rs[k].data != [] {
      CountPositive(rs, k);
      ClusterBounds(rs, k);
    }
  }

  function HeadSize(d: nat): nat {
    if d == 2 then 8 else if d == 8 then 3 else 2
  }

  /** The records listed in directory `d`. */
  function Listing(pl: Plan, d: nat): (r: seq<nat>)
    requires PlanOk(pl) && ROOT <= d < FIRST_FILE
    ensures HeadSize(d) + |r| <= 128
    ensures forall i | 0 <= i < |r| :: r[i] in pl.files[d - 2] && pl.rs[r[i]].data != []
  {
    Shown(pl.rs, pl.files[d - 2], 128 - HeadSize(d))
  }

  function FileEntries(rs: seq<Record>, n: nat, ks: seq<nat>): (es: seq<Entry>)
    requires NextCluster(rs) <= n <= FAT_WORDS && forall i | 0 <= i < |ks| :: ks[i] < |rs| && GoodName(rs[ks[i]].name)
    ensures |es| == |ks|
  {
    if ks == [] then []
    else
      SmallFile(rs, n, ks[0]);
      [FileEntry(rs, ks[0])] + FileEntries(rs, n, ks[1..])
  }

  /** What an entry says about record `k`. */
  ghost predicate EntryFor(rs: seq<Record>, k: nat, e: Entry) {
    && k < |rs| && HostShort(rs[k].name).Some? && Name(e) == HostShort(rs[k].name).value && Attr(e) == ATTR_FILE
    && First(e) == ClusterOf(rs, k) && Size(e) == |rs[k].data| && 0 < e[0] < 128
  }

  lemma {:induction false} FileEntriesAt(rs: seq<Record>, n: nat, ks: seq<nat>, i: nat)
    requires NextCluster(rs) <= n <= FAT_WORDS && forall j | 0 <= j < |ks| :: ks[j] < |rs| && GoodName(rs[ks[j]].name)
    requires i < |ks|
    ensures EntryFor(rs, ks[i], FileEntries(rs, n, ks)[i])
    decreases |ks|
  {
    if i == 0 {
      SmallFile(rs, n, ks[0]);
      GoodShort(rs[ks[0]].name);
      var e := FileEntry(rs, ks[0]);
      assert Name(e)[0] == e[0];
    } else {
      FileEntriesAt(rs, n, ks[1..], i - 1);
    }
  }

  lemma FileEntriesAll(rs: seq<Record>, n: nat, ks: seq<nat>)
    requires NextCluster(rs) <= n <= FAT_WORDS && forall j | 0 <= j < |ks| :: ks[j] < |rs| && GoodName(rs[ks[j]].name)
    ensures forall i | 0 <= i < |ks| :: EntryFor(rs, ks[i], FileEntries(rs, n, ks)[i])
  {
    forall i | 0 <= i < |ks| ensures EntryFor(rs, ks[i], FileEntries(rs, n, ks)[i]) {
      FileEntriesAt(rs, n, ks, i);
    }
  }

  /** All entries of directory `d`. */
  ghost function Entries(pl: Plan, n: nat, d: nat): (es: seq<Entry>)
    requires PlanFits(pl, n) && ROOT <= d < FIRST_FILE
    ensures |es| == HeadSize(d) + |Listing(pl, d)| <= 128
    ensures forall i | 0 <= i < HeadSize(d) :: es[i] == Head(d)[i]
    ensures forall i | 0 <= i < |Listing(pl, d)| :: EntryFor(pl.rs, Listing(pl, d)[i], es[HeadSize(d) + i])
  {
    FileEntriesAll(pl.rs, n, Listing(pl, d));
    Head(d) + FileEntries(pl.rs, n, Listing(pl, d))
  }

  lemma EntriesPlain(pl: Plan, n: nat, d: nat)
    requires PlanFits(pl, n) && ROOT <= d < FIRST_FILE
    ensures Plain(Entries(pl, n, d))
  {
    var es, ks := Entries(pl, n, d), Listing(pl, d);
    forall i | 0 <= i < |es| ensures es[i][0] != 0 && es[i][0] != DELETED && Attr(es[i]) != ATTR_LONG_NAME {
      if i < HeadSize(d) {
        assert DirLike(Head(d)[i]);
      } else {
        assert EntryFor(pl.rs, ks[i - HeadSize(d)], es[HeadSize(d) + (i - HeadSize(d))]);
      }
    }
  }
}
