/** The builder and the reader together: what is staged is what the kernel reads back. */
module DiskStage {
  import opened Bytes
  import opened Fat32Spec
  import opened Fat32Tree
  import opened Fat32Alloc
  import opened Fat32Names
  import opened Fat32Ops
  import opened Fat32Bytes
  import opened DiskNames
  import opened DiskFat
  import opened DiskParts
  import opened DiskBuilder
  import opened DiskVolume

  /** What goes into the image: the optional init program and header, and the files of each directory. */
  datatype Stage = Stage(init: Option<Record>, header: Option<Record>, bin: seq<Record>, run: seq<Record>,
                         home: seq<Record>, boot: seq<Record>, grub: seq<Record>)

  function One(r: Option<Record>): seq<Record> {
    match r
    case None => []
    case Some(x) => [x]
  }

  /** The records in the order their clusters are assigned and their payloads written. */
  function Order(st: Stage): seq<Record> {
    One(st.init) + One(st.header) + st.bin + st.run + st.home + st.boot + st.grub
  }

  /** Which records go into which directory, by their places in the order. */
  function PlanOf(st: Stage): Plan {
    var a, b := |One(st.init)|, |One(st.header)|;
    var bin := a + b;
    var run := bin + |st.bin|;
    var home := run + |st.run|;
    var boot := home + |st.home|;
    var grub := boot + |st.boot|;
    Plan(Order(st), [[], [], RunOf(0, a) + RunOf(bin, |st.bin|), RunOf(run, |st.run|), RunOf(home, |st.home|),
                     RunOf(a, b), RunOf(boot, |st.boot|), RunOf(grub, |st.grub|)])
  }

  /** The directory, counted from the root, that a place in the order belongs to. */
  function DirFor(st: Stage, k: nat): nat {
    var a, b := |One(st.init)|, |One(st.header)|;
    var run := a + b + |st.bin|;
    var home := run + |st.run|;
    var boot := home + |st.home|;
    if k < a then 2 else if k < a + b then 5 else if k < run then 2 else if k < home then 3
    else if k < boot then 4 else if k < boot + |st.boot| then 6 else 7
  }

  function FilesOf(st: Stage, d: nat): seq<nat>
    requires d < 8
  {
    PlanOf(st).files[d]
  }

  lemma PlanFiles(st: Stage, d: nat, i: nat)
    requires d < 8 && i < |FilesOf(st, d)|
    ensures FilesOf(st, d)[i] < |Order(st)| && DirFor(st, FilesOf(st, d)[i]) == d
    ensures forall j | 0 <= j < |FilesOf(st, d)| && j != i :: FilesOf(st, d)[j] != FilesOf(st, d)[i]
  {
  }

  /** Every staged record is listed in at most one directory, at most once. */
  lemma PlanOnePlace(st: Stage)
    ensures OnePlace(PlanOf(st))
  {
    var pl := PlanOf(st);
    forall d, i | 0 <= d < 8 && 0 <= i < |pl.files[d]| ensures pl.files[d][i] < |pl.rs| {
      PlanFiles(st, d, i);
    }
    forall d, e, i, j | 0 <= d < 8 && 0 <= e < 8 && 0 <= i < |pl.files[d]| && 0 <= j < |pl.files[e]|
        && pl.files[d][i] == pl.files[e][j] ensures d == e && i == j
    {
      PlanFiles(st, d, i);
      PlanFiles(st, e, j);
    }
  }

  // ---------------------------------------------------------------------------
  // The layout of a plan
  // ---------------------------------------------------------------------------

  ghost function EntriesOf(pl: Plan, n: nat, d: nat): (es: Dir)
    requires PlanFits(pl, n) && ROOT <= d < FIRST_FILE
    ensures es == Entries(pl, n, d)
  {
    Entries(pl, n, d)
  }

  ghost function DirsOf(pl: Plan, n: nat): (ds: seq<Dir>)
    requires PlanFits(pl, n)
    ensures |ds| == 8 && forall d | 0 <= d < 8 :: ds[d] == Entries(pl, n, d + 2)
  {
    seq(8, d requires 0 <= d < 8 => EntriesOf(pl, n, d + 2))
  }

  /** For which record entry `i` of directory `d` is. */
  function WhoAt(pl: Plan, d: nat, i: nat): int
    requires PlanOk(pl) && ROOT <= d < FIRST_FILE && i < HeadSize(d) + |Listing(pl, d)|
  {
    if i < HeadSize(d) then -1 else Listing(pl, d)[i - HeadSize(d)]
  }

  function WhoIn(pl: Plan, d: nat): (w: seq<int>)
    requires PlanOk(pl) && ROOT <= d < FIRST_FILE
    ensures |w| == HeadSize(d) + |Listing(pl, d)| && forall i | 0 <= i < |w| :: w[i] == WhoAt(pl, d, i)
  {
    seq(HeadSize(d) + |Listing(pl, d)|, i requires 0 <= i < HeadSize(d) + |Listing(pl, d)| => WhoAt(pl, d, i))
  }

  function WhoOf(pl: Plan): (w: seq<seq<int>>)
    requires PlanOk(pl)
    ensures |w| == 8 && forall d | 0 <= d < 8 :: w[d] == WhoIn(pl, d + 2)
  {
    seq(8, d requires 0 <= d < 8 => WhoIn(pl, d + 2))
  }

  ghost function LayoutOf(pl: Plan, n: nat): Layout
    requires PlanFits(pl, n)
  {
    Layout(pl.rs, DirsOf(pl, n), WhoOf(pl))
  }

  lemma EntryKind(pl: Plan, n: nat, d: nat, i: nat)
    requires PlanFits(pl, n) && ROOT <= d < FIRST_FILE && i < |Entries(pl, n, d)|
    ensures KindOk(pl.rs, Entries(pl, n, d)[i], WhoAt(pl, d, i))
  {
    if i < HeadSize(d) {
      assert DirLike(Head(d)[i]);
    } else {
      var j := i - HeadSize(d);
      assert EntryFor(pl.rs, Listing(pl, d)[j], Entries(pl, n, d)[HeadSize(d) + j]);
    }
  }

  lemma PlanLayoutOk(pl: Plan, n: nat)
    requires PlanFits(pl, n)
    ensures LayoutOk(LayoutOf(pl, n), n)
  {
    var l := LayoutOf(pl, n);
    forall d | 0 <= d < 8 ensures |l.who[d]| == |l.dirs[d]| && Plain(l.dirs[d]) {
      EntriesPlain(pl, n, d + 2);
    }
    forall d, i | 0 <= d < 8 && 0 <= i < |l.dirs[d]| ensures KindOk(l.rs, l.dirs[d][i], l.who[d][i]) {
      EntryKind(pl, n, d + 2, i);
    }
  }

  lemma ListingApart(pl: Plan, d: nat, i: nat, e: nat, j: nat)
    requires OnePlace(pl) && ROOT <= d < FIRST_FILE && ROOT <= e < FIRST_FILE && i < |Listing(pl, d)| && j < |Listing(pl, e)|
    requires Listing(pl, d)[i] == Listing(pl, e)[j]
    ensures d == e && i == j
  {
    var k := Listing(pl, d)[i];
    assert k in pl.files[d - 2] && k in pl.files[e - 2];
    var x :| 0 <= x < |pl.files[d - 2]| && pl.files[d - 2][x] == k;
    var y :| 0 <= y < |pl.files[e - 2]| && pl.files[e - 2][y] == k;
    assert d - 2 == e - 2;
    assert Distinct(pl.files[d - 2]);
    ShownDistinct(pl.rs, pl.files[d - 2], 128 - HeadSize(d));
  }

  lemma WhoApart(pl: Plan, d: nat, i: nat, e: nat, j: nat)
    requires OnePlace(pl) && ROOT <= d < FIRST_FILE && ROOT <= e < FIRST_FILE
    requires i < HeadSize(d) + |Listing(pl, d)| && j < HeadSize(e) + |Listing(pl, e)|
    requires 0 <= WhoAt(pl, d, i) == WhoAt(pl, e, j)
    ensures d == e && i == j
  {
    ListingApart(pl, d, i - HeadSize(d), e, j - HeadSize(e));
  }

  lemma WhoOnce(pl: Plan, w: seq<seq<int>>)
    requires OnePlace(pl) && |w| == 8
    requires forall d | 0 <= d < 8 :: |w[d]| == HeadSize(d + 2) + |Listing(pl, d + 2)|
    requires forall d, i | 0 <= d < 8 && 0 <= i < |w[d]| :: w[d][i] == WhoAt(pl, d + 2, i)
    ensures forall d, i, e, j | 0 <= d < |w| && 0 <= e < |w| && 0 <= i < |w[d]| && 0 <= j < |w[e]| && 0 <= w[d][i] == w[e][j] ::
      d == e && i == j
  {
    forall d, i, e, j | 0 <= d < |w| && 0 <= e < |w| && 0 <= i < |w[d]| && 0 <= j < |w[e]| && 0 <= w[d][i] == w[e][j]
      ensures d == e && i == j
    {
      WhoApart(pl, d + 2, i, e + 2, j);
    }
  }

  lemma PlanOneEntry(pl: Plan, n: nat)
    requires PlanFits(pl, n) && OnePlace(pl)
    ensures OneEntry(LayoutOf(pl, n))
  {
    WhoOnce(pl, WhoOf(pl));
  }

  // ---------------------------------------------------------------------------
  // Paths
  // ---------------------------------------------------------------------------

  /** A path of directories and a last component. */
  function PathOf(dirs: seq<seq<byte>>, name: seq<byte>): seq<byte> {
    if dirs == [] then name else dirs[0] + [SLASH] + PathOf(dirs[1..], name)
  }

  lemma SplitStep(v: Volume, d: nat, w: seq<byte>, rest: seq<byte>, next: nat)
    requires SLASH !in w && w != [] && Descend(v, d, w) == Some(next)
    ensures Split(v, d, w + [SLASH] + rest, []) == Split(v, next, rest, [])
  {
    SplitAtSlash(v, d, w, rest);
  }

  // ---------------------------------------------------------------------------
  // Looking up a directory
  // ---------------------------------------------------------------------------

  lemma PaddedShape(a: seq<byte>)
    requires |a| <= 11 && SPACE !in a
    ensures forall i | 0 <= i < |a| :: Padded(a, 11)[i] == a[i] != SPACE
    ensures |a| < 11 ==> Padded(a, 11)[|a|] == SPACE
  {
  }

  lemma PaddedSame(a: seq<byte>, b: seq<byte>)
    requires |a| <= 11 && |b| <= 11 && SPACE !in a && SPACE !in b && Padded(a, 11) == Padded(b, 11)
    ensures a == b
  {
    PaddedShape(a);
    PaddedShape(b);
  }

  lemma SubsDiffer(p: nat, j: nat, k: nat)
    requires ROOT <= p < FIRST_FILE && j < k < |Subs(p)|
    ensures Subs(p)[j].name != Subs(p)[k].name && SPACE !in Subs(p)[j].name && SPACE !in Subs(p)[k].name
  {
  }

  /** A component that names subdirectory `k` of directory `p`. */
  ghost predicate Spells(comp: seq<byte>, p: nat, k: nat)
    requires ROOT <= p < FIRST_FILE && k < |Subs(p)|
  {
    SLASH !in comp && comp != [] && Formatted(comp) == Some(Padded(Subs(p)[k].name, 11))
  }

  lemma HeadFound(pl: Plan, n: nat, p: nat, k: nat)
    requires PlanFits(pl, n) && ROOT <= p < FIRST_FILE && k < |Subs(p)|
    ensures k < |Entries(pl, n, p)| && Entries(pl, n, p)[k] == Head(p)[k]
    ensures Find(DirBytes(Entries(pl, n, p)), Padded(Subs(p)[k].name, 11)) == Some(k)
  {
    var es, name := Entries(pl, n, p), Padded(Subs(p)[k].name, 11);
    assert es[k] == Head(p)[k];
    EntriesPlain(pl, n, p);
    forall j | 0 <= j < k ensures Name(es[j]) != name {
      assert es[j] == Head(p)[j];
      SubsDiffer(p, j, k);
      if Name(es[j]) == name {
        PaddedSame(Subs(p)[j].name, Subs(p)[k].name);
      }
    }
    DirFind(es, name, k);
  }

  lemma DescendFixed(pl: Plan, n: nat, v: Volume, p: nat, k: nat, comp: seq<byte>)
    requires PlanFits(pl, n) && ROOT <= p < FIRST_FILE && k < |Subs(p)| && Spells(comp, p, k)
    requires Cluster(v, p) == DirBytes(Entries(pl, n, p))
    ensures Descend(v, p, comp) == Some(Subs(p)[k].cluster)
  {
    HeadFound(pl, n, p, k);
    EntriesPlain(pl, n, p);
    DirLive(Entries(pl, n, p), k);
    assert DirLike(Head(p)[k]);
  }

  // ---------------------------------------------------------------------------
  // Looking up a file
  // ---------------------------------------------------------------------------

  /** The components lead from directory `p` to directory `d` through the subdirectories `ks`. */
  ghost predicate Leads(dirs: seq<seq<byte>>, ks: seq<nat>, p: nat, d: nat)
    decreases |dirs|
  {
    && |dirs| == |ks| && ROOT <= p < FIRST_FILE
    && if dirs == [] then p == d
       else ks[0] < |Subs(p)| && Spells(dirs[0], p, ks[0]) && Leads(dirs[1..], ks[1..], Subs(p)[ks[0]].cluster, d)
  }

  lemma LeadsStep(pl: Plan, n: nat, v: Volume, p: nat, k: nat, w: seq<byte>, rest: seq<byte>)
    requires PlanFits(pl, n) && ROOT <= p < FIRST_FILE && k < |Subs(p)| && Spells(w, p, k)
    requires Cluster(v, p) == DirBytes(Entries(pl, n, p))
    ensures Split(v, p, w + [SLASH] + rest, []) == Split(v, Subs(p)[k].cluster, rest, [])
  {
    DescendFixed(pl, n, v, p, k, w);
    SplitStep(v, p, w, rest, Subs(p)[k].cluster);
  }

  ghost predicate HasDirs(pl: Plan, n: nat, v: Volume)
    requires PlanFits(pl, n)
  {
    forall p: nat | ROOT <= p < FIRST_FILE :: Cluster(v, p) == DirBytes(Entries(pl, n, p))
  }

  lemma {:induction false} LeadsTo(pl: Plan, n: nat, v: Volume, dirs: seq<seq<byte>>, ks: seq<nat>, p: nat, d: nat, name: seq<byte>)
    requires PlanFits(pl, n) && HasDirs(pl, n, v) && Leads(dirs, ks, p, d) && SLASH !in name && name != []
    ensures Split(v, p, PathOf(dirs, name), []) == Some((d, name))
    decreases |dirs|
  {
    if dirs == [] {
      SplitLast(v, d, name);
    } else {
      LeadsStep(pl, n, v, p, ks[0], dirs[0], PathOf(dirs[1..], name));
      LeadsTo(pl, n, v, dirs[1..], ks[1..], Subs(p)[ks[0]].cluster, d, name);
    }
  }

  /** A name the kernel spells as the builder did, that no entry before it in the directory has. */
  ghost predicate Findable(pl: Plan, d: nat, i: nat)
    requires PlanOk(pl) && ROOT <= d < FIRST_FILE && i < |Listing(pl, d)|
  {
    var name := pl.rs[Listing(pl, d)[i]].name;
    && SLASH !in name && DOT !in HostBase(name)
    && (forall j | 0 <= j < i :: HostShort(pl.rs[Listing(pl, d)[j]].name) != HostShort(name))
    && (d == 8 ==> HostShort(name) != Some(Padded(GRUB_NAME, 11)))
  }

  lemma NotDots(name: seq<byte>, d: nat, j: nat)
    requires HostShort(name).Some? && DOT !in HostBase(name) && ROOT < d < FIRST_FILE && j < |Subs(d)|
    requires d == 8 ==> HostShort(name) != Some(Padded(GRUB_NAME, 11))
    ensures Padded(Subs(d)[j].name, 11) != HostShort(name).value
  {
    if j < 2 {
      assert Padded(Subs(d)[j].name, 11)[0] == DOT;
      assert HostShort(name).value[0] == Upper(HostBase(name)[0]);
      assert HostBase(name)[0] in HostBase(name);
    }
  }

  lemma FindableName(pl: Plan, n: nat, d: nat, i: nat)
    requires PlanFits(pl, n) && ROOT < d < FIRST_FILE && i < |Listing(pl, d)| && Findable(pl, d, i)
    ensures var name := pl.rs[Listing(pl, d)[i]].name; HostShort(name).Some? && Formatted(name) == HostShort(name) && name != []
  {
    ShortNamesAgree(pl.rs[Listing(pl, d)[i]].name);
  }

  /** No entry before it bears the name. */
  lemma EarlierDiffers(pl: Plan, n: nat, d: nat, i: nat, j: nat)
    requires PlanFits(pl, n) && ROOT < d < FIRST_FILE && i < |Listing(pl, d)| && Findable(pl, d, i) && j < HeadSize(d) + i
    ensures Some(Name(Entries(pl, n, d)[j])) != HostShort(pl.rs[Listing(pl, d)[i]].name)
  {
    if j < HeadSize(d) {
      assert Entries(pl, n, d)[j] == Head(d)[j];
      NotDots(pl.rs[Listing(pl, d)[i]].name, d, j);
    } else {
      var m := j - HeadSize(d);
      assert EntryFor(pl.rs, Listing(pl, d)[m], Entries(pl, n, d)[HeadSize(d) + m]);
    }
  }

  lemma FileFound(pl: Plan, n: nat, d: nat, i: nat)
    requires PlanFits(pl, n) && ROOT < d < FIRST_FILE && i < |Listing(pl, d)| && Findable(pl, d, i)
    ensures var name := pl.rs[Listing(pl, d)[i]].name;
      && HostShort(name).Some? && Formatted(name) == HostShort(name) && name != []
      && Find(DirBytes(Entries(pl, n, d)), HostShort(name).value) == Some(HeadSize(d) + i)
  {
    var es := Entries(pl, n, d);
    FindableName(pl, n, d, i);
    EntriesPlain(pl, n, d);
    assert EntryFor(pl.rs, Listing(pl, d)[i], es[HeadSize(d) + i]);
    forall j | 0 <= j < HeadSize(d) + i ensures Some(Name(es[j])) != HostShort(pl.rs[Listing(pl, d)[i]].name) {
      EarlierDiffers(pl, n, d, i, j);
    }
    DirFind(es, HostShort(pl.rs[Listing(pl, d)[i]].name).value, HeadSize(d) + i);
  }

  lemma BuiltDirs(pl: Plan, n: nat)
    requires PlanFits(pl, n)
    ensures HasDirs(pl, n, BuiltVolume(LayoutOf(pl, n), n))
  {
    PlanLayoutOk(pl, n);
    BuiltShows(LayoutOf(pl, n), n);
  }

  lemma ResolveFromRoot(v: Volume, cur: nat, rest: seq<byte>)
    ensures Resolve(v, ROOT, cur, [SLASH] + rest) == Split(v, ROOT, rest, [])
  {
    assert ([SLASH] + rest)[1..] == rest;
  }

  lemma LocateIn(v: Volume, d: nat, name: seq<byte>, short: seq<byte>, i: nat)
    requires Formatted(name) == Some(short) && Find(Cluster(v, d), short) == Some(i)
    ensures Locate(v, Some((d, name))) == Some((d, i))
  {
  }

  /** The path of a listed file leads to its entry, whatever the current directory. */
  lemma PathFound(pl: Plan, n: nat, v: Volume, d: nat, i: nat, dirs: seq<seq<byte>>, ks: seq<nat>, cur: nat)
    requires PlanFits(pl, n) && HasDirs(pl, n, v) && ROOT < d < FIRST_FILE && i < |Listing(pl, d)| && Findable(pl, d, i)
    requires Leads(dirs, ks, ROOT, d)
    ensures var name := pl.rs[Listing(pl, d)[i]].name;
      Locate(v, Resolve(v, ROOT, cur, [SLASH] + PathOf(dirs, name))) == Some((d, HeadSize(d) + i))
  {
    var name := pl.rs[Listing(pl, d)[i]].name;
    FileFound(pl, n, d, i);
    LeadsTo(pl, n, v, dirs, ks, ROOT, d, name);
    ResolveFromRoot(v, cur, PathOf(dirs, name));
    LocateIn(v, d, name, HostShort(name).value, HeadSize(d) + i);
  }

  lemma PlanWho(pl: Plan, d: nat, i: nat)
    requires PlanOk(pl) && ROOT < d < FIRST_FILE && i < |Listing(pl, d)|
    ensures |WhoOf(pl)[d - 2]| > HeadSize(d) + i && WhoOf(pl)[d - 2][HeadSize(d) + i] == Listing(pl, d)[i]
  {
    assert WhoOf(pl)[d - 2] == WhoIn(pl, d);
  }

  lemma BytesFor(l: Layout, n: nat, d: nat, i: nat, k: nat)
    requires LayoutOk(l, n) && ROOT <= d < FIRST_FILE && i < |l.who[d - 2]| && l.who[d - 2][i] == k
    ensures k < |l.rs| && HostShort(l.rs[k].name).Some? && (d, i) in Tree(BuiltFs(l, n))
    ensures Tree(BuiltFs(l, n))[(d, i)] == File(HostShort(l.rs[k].name).value, ATTR_FILE, l.rs[k].data)
  {
    BuiltBytes(l, n, d, i);
  }

  lemma PlanBytes(pl: Plan, n: nat, d: nat, i: nat)
    requires PlanFits(pl, n) && ROOT < d < FIRST_FILE && i < |Listing(pl, d)|
    ensures var fs, r, x := BuiltFs(LayoutOf(pl, n), n), pl.rs[Listing(pl, d)[i]], (d, HeadSize(d) + i);
      HostShort(r.name).Some? && x in Tree(fs) && Tree(fs)[x] == File(HostShort(r.name).value, ATTR_FILE, r.data)
  {
    PlanLayoutOk(pl, n);
    PlanWho(pl, d, i);
    BytesFor(LayoutOf(pl, n), n, d, HeadSize(d) + i, Listing(pl, d)[i]);
  }

  lemma PlanSound(pl: Plan, n: nat)
    requires PlanFits(pl, n) && OnePlace(pl)
    ensures FsOk(BuiltFs(LayoutOf(pl, n), n))
  {
    PlanLayoutOk(pl, n);
    PlanOneEntry(pl, n);
    BuiltSound(LayoutOf(pl, n), n);
  }

  // ---------------------------------------------------------------------------
  // The agreement
  // ---------------------------------------------------------------------------

  /**
   * Builder and reader agree: the built volume is sound, and the path of every listed file leads to a
   * file with exactly the staged bytes.
   */
  lemma StagedFile(st: Stage, n: nat, d: nat, i: nat, dirs: seq<seq<byte>>, ks: seq<nat>, fds: seq<Descriptor>, cur: nat)
    requires PlanFits(PlanOf(st), n) && ROOT < d < FIRST_FILE && i < |Listing(PlanOf(st), d)|
    requires Findable(PlanOf(st), d, i) && Leads(dirs, ks, ROOT, d)
    ensures var pl := PlanOf(st);
      var fs, r, x := BuiltFs(LayoutOf(pl, n), n), pl.rs[Listing(pl, d)[i]], (d, HeadSize(d) + i);
      && FsOk(fs) && SlotOf(Sys(fs, fds, cur), [SLASH] + PathOf(dirs, r.name)) == Some(x)
      && HostShort(r.name).Some? && x in Tree(fs) && Tree(fs)[x] == File(HostShort(r.name).value, ATTR_FILE, r.data)
  {
    var pl := PlanOf(st);
    PlanOnePlace(st);
    PlanSound(pl, n);
    BuiltDirs(pl, n);
    PathFound(pl, n, BuiltVolume(LayoutOf(pl, n), n), d, i, dirs, ks, cur);
    PlanBytes(pl, n, d, i);
  }

  /** A name that no listed file and no fixed entry has is not found, an empty staged file's for one. */
  lemma AbsentFile(pl: Plan, n: nat, d: nat, name: seq<byte>)
    requires PlanFits(pl, n) && ROOT <= d < FIRST_FILE
    requires forall j | 0 <= j < |Subs(d)| :: Padded(Subs(d)[j].name, 11) != name
    requires forall j | 0 <= j < |Listing(pl, d)| :: HostShort(pl.rs[Listing(pl, d)[j]].name) != Some(name)
    ensures Find(Cluster(BuiltFs(LayoutOf(pl, n), n).vol, d), name).None?
  {
    var es, ks := Entries(pl, n, d), Listing(pl, d);
    BuiltDirs(pl, n);
    EntriesPlain(pl, n, d);
    forall j | 0 <= j < |es| ensures Name(es[j]) != name {
      if j < HeadSize(d) {
        assert es[j] == Head(d)[j];
      } else {
        var m := j - HeadSize(d);
        assert EntryFor(pl.rs, ks[m], es[HeadSize(d) + m]);
      }
    }
    DirMissing(es, name);
  }
}
