/** Every staged file by its own path: where the builder puts it, and that the kernel reads it there. */
module DiskStaged {
  import opened Bytes
  import opened Fat32Spec
  import opened Fat32Tree
  import opened Fat32Alloc
  import opened Fat32Names
  import opened Fat32Layout
  import opened Fat32Ops
  import opened Fat32Bytes
  import opened Fat32Driver
  import opened DiskNames
  import opened DiskFat
  import opened DiskParts
  import opened DiskBuilder
  import opened DiskVolume
  import opened DiskImage
  import opened DiskStage
  import opened DiskBoot

  // ---------------------------------------------------------------------------
  // Which files a directory lists
  // ---------------------------------------------------------------------------

  /** The files staged for a directory, by its cluster: 4 is /bin, 5 /run, 6 /home, 7 /include, 8 /boot, 9 /boot/grub. */
  function StagedIn(st: Stage, d: nat): seq<Record> {
    match d
    case 4 => (if st.init.Some? then [st.init.value] else []) + st.bin
    case 5 => st.run
    case 6 => st.home
    case 7 => if st.header.Some? then [st.header.value] else []
    case 8 => st.boot
    case 9 => st.grub
    case _ => []
  }

  /** The records that have bytes, in order. */
  function WithBytes(rs: seq<Record>): seq<Record> {
    if rs == [] then []
    else (if rs[0].data == [] then [] else [rs[0]]) + WithBytes(rs[1..])
  }

  function Pick(rs: seq<Record>, ks: seq<nat>): (r: seq<Record>)
    requires forall i | 0 <= i < |ks| :: ks[i] < |rs|
    ensures |r| == |ks| && forall i | 0 <= i < |ks| :: r[i] == rs[ks[i]]
  {
    seq(|ks|, i requires 0 <= i < |ks| => rs[ks[i]])
  }

  function Take<T>(s: seq<T>, n: nat): seq<T> {
    if n <= |s| then s[..n] else s
  }

  lemma PickCons(rs: seq<Record>, k: nat, ks: seq<nat>)
    requires k < |rs| && forall i | 0 <= i < |ks| :: ks[i] < |rs|
    ensures Pick(rs, [k] + ks) == [rs[k]] + Pick(rs, ks)
  {
  }

  lemma WithBytesCons(x: Record, rs: seq<Record>)
    ensures WithBytes([x] + rs) == (if x.data == [] then [] else [x]) + WithBytes(rs)
  {
    assert ([x] + rs)[1..] == rs;
  }

  lemma TakeFirst(x: Record, s: seq<Record>, n: nat)
    requires n > 0
    ensures Take([x] + s, n) == [x] + Take(s, n - 1)
  {
  }

  ghost predicate Places(rs: seq<Record>, ks: seq<nat>) {
    forall i | 0 <= i < |ks| :: ks[i] < |rs|
  }

  lemma ShownNext(rs: seq<Record>, k: nat, tail: seq<nat>, room: nat)
    requires Places(rs, [k] + tail) && Places(rs, tail) && k < |rs| && room > 0
    ensures Shown(rs, [k] + tail, room) == if rs[k].data == [] then Shown(rs, tail, room) else [k] + Shown(rs, tail, room - 1)
  {
    assert ([k] + tail)[1..] == tail;
  }

  lemma TakeNext(x: Record, t: seq<Record>, room: nat)
    requires room > 0
    ensures Take(WithBytes([x] + t), room) == if x.data == [] then Take(WithBytes(t), room) else [x] + Take(WithBytes(t), room - 1)
  {
    WithBytesCons(x, t);
    if x.data == [] { assert [] + WithBytes(t) == WithBytes(t); } else { TakeFirst(x, WithBytes(t), room); }
  }

  /** What is shown of the places `ks` are their records with bytes, up to the room. */
  ghost predicate ShowsFirst(rs: seq<Record>, ks: seq<nat>, room: nat)
    requires Places(rs, ks)
  {
    Pick(rs, Shown(rs, ks, room)) == Take(WithBytes(Pick(rs, ks)), room)
  }

  lemma ShowsNext(rs: seq<Record>, k: nat, tail: seq<nat>, room: nat)
    requires Places(rs, [k] + tail) && Places(rs, tail) && k < |rs| && room > 0
    requires ShowsFirst(rs, tail, room) && ShowsFirst(rs, tail, room - 1)
    ensures ShowsFirst(rs, [k] + tail, room)
  {
    ShownNext(rs, k, tail, room);
    PickCons(rs, k, tail);
    TakeNext(rs[k], Pick(rs, tail), room);
    if rs[k].data != [] { PickCons(rs, k, Shown(rs, tail, room - 1)); }
  }

  lemma {:induction false} ShownIs(rs: seq<Record>, ks: seq<nat>, room: nat)
    requires Places(rs, ks)
    ensures ShowsFirst(rs, ks, room)
    decreases |ks|
  {
    if ks == [] || room == 0 {
      assert Take(WithBytes(Pick(rs, ks)), room) == [];
    } else {
      var k, tail := ks[0], ks[1..];
      ShownIs(rs, tail, room);
      ShownIs(rs, tail, room - 1);
      assert ks == [k] + tail;
      ShowsNext(rs, k, tail, room);
    }
  }

  /** A run of places picks the records that lie there. */
  lemma PickRun(rs: seq<Record>, a: seq<Record>, b: seq<Record>, c: seq<Record>)
    requires rs == a + b + c
    ensures forall i | 0 <= i < |RunOf(|a|, |b|)| :: RunOf(|a|, |b|)[i] < |rs|
    ensures Pick(rs, RunOf(|a|, |b|)) == b
  {
  }

  lemma PickBoth(rs: seq<Record>, x: seq<nat>, y: seq<nat>)
    requires (forall i | 0 <= i < |x| :: x[i] < |rs|) && (forall i | 0 <= i < |y| :: y[i] < |rs|)
    ensures Pick(rs, x + y) == Pick(rs, x) + Pick(rs, y)
  {
  }

  lemma Regroup(ab: seq<Record>, bin: seq<Record>, run: seq<Record>, home: seq<Record>, boot: seq<Record>, grub: seq<Record>)
    ensures var rs := ab + bin + run + home + boot + grub;
      && rs == ab + bin + (run + home + boot + grub) && rs == (ab + bin) + run + (home + boot + grub)
      && rs == (ab + bin + run) + home + (boot + grub) && rs == (ab + bin + run + home) + boot + grub
      && rs == (ab + bin + run + home + boot) + grub + []
  {
  }

  ghost predicate Picks(rs: seq<Record>, ks: seq<nat>, xs: seq<Record>) {
    (forall i | 0 <= i < |ks| :: ks[i] < |rs|) && Pick(rs, ks) == xs
  }

  /** The program comes before the files of /bin, wherever the header lies between them. */
  lemma BinPicks(rs: seq<Record>, a: seq<Record>, b: seq<Record>, bin: seq<Record>, rest: seq<Record>)
    requires rs == a + b + bin + rest
    ensures Picks(rs, RunOf(0, |a|) + RunOf(|a| + |b|, |bin|), a + bin) && Picks(rs, RunOf(|a|, |b|), b)
  {
    assert rs == [] + a + (b + bin + rest) && rs == (a + b) + bin + rest && rs == a + b + (bin + rest);
    PickRun(rs, [], a, b + bin + rest);
    PickRun(rs, a + b, bin, rest);
    PickRun(rs, a, b, bin + rest);
    PickBoth(rs, RunOf(0, |a|), RunOf(|a| + |b|, |bin|));
  }

  /** The records that come before those of directory `d`, for the directories after /bin. */
  function Earlier(st: Stage, d: nat): seq<Record> {
    var bin := One(st.init) + One(st.header) + st.bin;
    if d == 5 then bin
    else if d == 6 then bin + st.run
    else if d == 8 then bin + st.run + st.home
    else bin + st.run + st.home + st.boot
  }

  function Later(st: Stage, d: nat): seq<Record> {
    if d == 5 then st.home + st.boot + st.grub
    else if d == 6 then st.boot + st.grub
    else if d == 8 then st.grub
    else []
  }

  lemma RunFiles(st: Stage, d: nat)
    requires d == 5 || d == 6 || d == 8 || d == 9
    ensures FilesOf(st, d - 2) == RunOf(|Earlier(st, d)|, |StagedIn(st, d)|)
    ensures Order(st) == Earlier(st, d) + StagedIn(st, d) + Later(st, d)
  {
    Regroup(One(st.init) + One(st.header), st.bin, st.run, st.home, st.boot, st.grub);
  }

  lemma BinFiles(st: Stage)
    ensures Picks(Order(st), FilesOf(st, 2), StagedIn(st, 4)) && Picks(Order(st), FilesOf(st, 5), StagedIn(st, 7))
  {
    var a, b, rest := One(st.init), One(st.header), st.run + st.home + st.boot + st.grub;
    assert Order(st) == a + b + st.bin + rest;
    BinPicks(Order(st), a, b, st.bin, rest);
  }

  /** The places of a directory's files in the order are those of the files staged for it. */
  lemma FilesAre(st: Stage, d: nat)
    requires 2 <= d < 10
    ensures Picks(Order(st), FilesOf(st, d - 2), StagedIn(st, d))
  {
    if d == 4 || d == 7 {
      BinFiles(st);
    } else if d >= 5 {
      RunFiles(st, d);
      PickRun(Order(st), Earlier(st, d), StagedIn(st, d), Later(st, d));
    }
  }

  /** A directory lists exactly the files staged for it that have bytes, in order, as far as its 128 entries go. */
  lemma ListedFiles(st: Stage, d: nat)
    requires 2 <= d < 10
    ensures PlanOk(PlanOf(st))
    ensures var pl := PlanOf(st);
      Picks(pl.rs, Listing(pl, d), Take(WithBytes(StagedIn(st, d)), if d == 2 then 120 else if d == 8 then 125 else 126))
  {
    PlanOnePlace(st);
    FilesAre(st, d);
    var pl := PlanOf(st);
    ShownIs(pl.rs, pl.files[d - 2], 128 - HeadSize(d));
    forall i | 0 <= i < |Listing(pl, d)| ensures Listing(pl, d)[i] < |pl.rs| {
      assert Listing(pl, d)[i] in pl.files[d - 2];
    }
  }

  // ---------------------------------------------------------------------------
  // The entry of a staged file
  // ---------------------------------------------------------------------------

  lemma {:induction false} WithBytesBoth(a: seq<Record>, b: seq<Record>)
    ensures WithBytes(a + b) == WithBytes(a) + WithBytes(b)
    decreases |a|
  {
    if a == [] {
      assert a + b == b && WithBytes(a) + WithBytes(b) == WithBytes(b);
    } else {
      var x, rest := a[0], a[1..];
      WithBytesBoth(rest, b);
      assert a == [x] + rest && a + b == [x] + (rest + b);
      WithBytesCons(x, rest);
      WithBytesCons(x, rest + b);
    }
  }

  lemma WithBytesAt(s: seq<Record>, k: nat)
    requires k < |s| && s[k].data != []
    ensures var i := |WithBytes(s[..k])|; i < |WithBytes(s)| && WithBytes(s)[i] == s[k] && WithBytes(s)[..i] == WithBytes(s[..k])
  {
    assert s == s[..k] + s[k..];
    WithBytesBoth(s[..k], s[k..]);
  }

  lemma {:induction false} WithBytesFrom(s: seq<Record>, j: nat)
    requires j < |WithBytes(s)|
    ensures exists m | 0 <= m < |s| :: s[m] == WithBytes(s)[j] && s[m].data != []
    decreases |s|
  {
    if s[0].data == [] {
      WithBytesFrom(s[1..], j);
      var m :| 0 <= m < |s[1..]| && s[1..][m] == WithBytes(s[1..])[j] && s[1..][m].data != [];
      assert s[m + 1] == s[1..][m];
    } else if j == 0 {
      assert s[0] == WithBytes(s)[0];
    } else {
      WithBytesFrom(s[1..], j - 1);
      var m :| 0 <= m < |s[1..]| && s[1..][m] == WithBytes(s[1..])[j - 1] && s[1..][m].data != [];
      assert s[m + 1] == s[1..][m];
    }
  }

  function RoomIn(d: nat): nat {
    if d == 8 then 125 else 126
  }

  /** Staged file `k` of directory `d` has bytes, a place in the directory, and a name the kernel spells as the builder does. */
  ghost predicate Kept(st: Stage, d: nat, k: nat) {
    var fs := StagedIn(st, d);
    && 4 <= d < 10 && k < |fs| && fs[k].data != [] && |WithBytes(fs[..k])| < RoomIn(d)
    && 47 !in fs[k].name && 46 !in HostBase(fs[k].name)
    && (forall m | 0 <= m < k && fs[m].data != [] :: HostShort(fs[m].name) != HostShort(fs[k].name))
    && (d == 8 ==> HostShort(fs[k].name) != Some([71, 82, 85, 66, 32, 32, 32, 32, 32, 32, 32]))
  }

  function PlaceOf(st: Stage, d: nat, k: nat): nat
    requires k < |StagedIn(st, d)|
  {
    |WithBytes(StagedIn(st, d)[..k])|
  }

  lemma GrubName()
    ensures Padded(GRUB_NAME, 11) == [71, 82, 85, 66, 32, 32, 32, 32, 32, 32, 32]
  {
  }

  lemma KeptAt(st: Stage, d: nat, k: nat)
    requires Kept(st, d, k)
    ensures PlanOk(PlanOf(st)) && PlaceOf(st, d, k) < |Listing(PlanOf(st), d)|
    ensures var pl, i := PlanOf(st), PlaceOf(st, d, k);
      && Listing(pl, d)[i] < |pl.rs| && pl.rs[Listing(pl, d)[i]] == StagedIn(st, d)[k]
      && forall j | 0 <= j < i :: Listing(pl, d)[j] < |pl.rs| && pl.rs[Listing(pl, d)[j]] == WithBytes(StagedIn(st, d)[..k])[j]
  {
    var fs, pl, i := StagedIn(st, d), PlanOf(st), PlaceOf(st, d, k);
    ListedFiles(st, d);
    WithBytesAt(fs, k);
    var listed := Pick(pl.rs, Listing(pl, d));
    assert listed == Take(WithBytes(fs), RoomIn(d));
    assert listed[..i] == WithBytes(fs[..k]);
    forall j | 0 <= j < i ensures Listing(pl, d)[j] < |pl.rs| && pl.rs[Listing(pl, d)[j]] == WithBytes(fs[..k])[j] {
      assert listed[j] == listed[..i][j];
    }
  }

  /** So the kernel finds it there. */
  lemma KeptFindable(st: Stage, d: nat, k: nat)
    requires Kept(st, d, k)
    ensures PlanOk(PlanOf(st)) && PlaceOf(st, d, k) < |Listing(PlanOf(st), d)| && Findable(PlanOf(st), d, PlaceOf(st, d, k))
  {
    var fs, pl, i := StagedIn(st, d), PlanOf(st), PlaceOf(st, d, k);
    KeptAt(st, d, k);
    GrubName();
    forall j | 0 <= j < i ensures HostShort(pl.rs[Listing(pl, d)[j]].name) != HostShort(fs[k].name) {
      WithBytesFrom(fs[..k], j);
      var m :| 0 <= m < k && fs[..k][m] == WithBytes(fs[..k])[j] && fs[..k][m].data != [];
      assert fs[m] == fs[..k][m];
    }
  }

  // ---------------------------------------------------------------------------
  // Its path
  // ---------------------------------------------------------------------------

  /** The path of a directory, with a slash at its end. */
  function DirPath(d: nat): seq<byte> {
    match d
    case 4 => [47, 98, 105, 110, 47]
    case 5 => [47, 114, 117, 110, 47]
    case 6 => [47, 104, 111, 109, 101, 47]
    case 7 => [47, 105, 110, 99, 108, 117, 100, 101, 47]
    case 8 => [47, 98, 111, 111, 116, 47]
    case 9 => [47, 98, 111, 111, 116, 47, 103, 114, 117, 98, 47]
    case _ => [47]
  }

  /** A word of small letters has the short name of its capitals. */
  lemma SmallLetters(w: seq<byte>, name: seq<byte>)
    requires 0 < |w| <= 8 && |name| == |w| && forall i | 0 <= i < |w| :: 97 <= w[i] <= 122 && name[i] == w[i] - 32
    ensures Formatted(w) == Some(Padded(name, 11)) && SLASH !in w
  {
    assert ShortAt(w, |w|, Padded(name, 11));
    ShortIs(w, Padded(name, 11));
  }

  function WordOf(d: nat): seq<byte> {
    match d
    case 4 => [98, 105, 110]
    case 5 => [114, 117, 110]
    case 6 => [104, 111, 109, 101]
    case 7 => [105, 110, 99, 108, 117, 100, 101]
    case _ => [98, 111, 111, 116]
  }

  const GRUB_WORD: seq<byte> := [103, 114, 117, 98]

  lemma TopLevel(d: nat)
    requires 4 <= d <= 8
    ensures d - 1 < |Subs(2)| && Subs(2)[d - 1].cluster == d && Spells(WordOf(d), 2, d - 1)
  {
    SmallLetters(WordOf(d), Subs(2)[d - 1].name);
  }

  lemma OneWord(d: nat)
    requires 4 <= d <= 8
    ensures Leads([WordOf(d)], [d - 1], ROOT, d)
  {
    TopLevel(d);
    assert [WordOf(d)][1..] == [] && [d - 1][1..] == [];
    assert Leads([], [], d, d);
  }

  lemma TwoWords()
    ensures Leads([WordOf(8), GRUB_WORD], [7, 2], ROOT, 9)
  {
    TopLevel(8);
    SmallLetters(GRUB_WORD, Subs(8)[2].name);
    assert [WordOf(8), GRUB_WORD][1..] == [GRUB_WORD] && [7, 2][1..] == [2];
    assert [GRUB_WORD][1..] == [] && [2][1..] == [];
    assert Leads([], [], 9, 9);
    assert Leads([GRUB_WORD], [2], 8, 9);
  }

  function WordsTo(d: nat): seq<seq<byte>> {
    if d == 9 then [WordOf(8), GRUB_WORD] else [WordOf(d)]
  }

  function StepsTo(d: nat): seq<nat>
    requires d > 0
  {
    if d == 9 then [7, 2] else [d - 1]
  }

  lemma OnePath(w: seq<byte>, name: seq<byte>)
    ensures [SLASH] + PathOf([w], name) == [SLASH] + w + [SLASH] + name
  {
    assert [w][1..] == [];
    assert PathOf([w], name) == w + [SLASH] + name;
  }

  lemma TwoPath(w: seq<byte>, x: seq<byte>, name: seq<byte>)
    ensures [SLASH] + PathOf([w, x], name) == [SLASH] + w + [SLASH] + x + [SLASH] + name
  {
    assert [w, x][1..] == [x] && [x][1..] == [];
    assert PathOf([x], name) == x + [SLASH] + name;
    assert PathOf([w, x], name) == w + [SLASH] + (x + [SLASH] + name);
  }

  lemma DirPathIs(d: nat)
    requires 4 <= d <= 8
    ensures [SLASH] + WordOf(d) + [SLASH] == DirPath(d)
  {
  }

  lemma GrubPathIs()
    ensures [SLASH] + WordOf(8) + [SLASH] + GRUB_WORD + [SLASH] == DirPath(9)
  {
  }

  lemma PathTo(d: nat, name: seq<byte>)
    requires 4 <= d < 10
    ensures Leads(WordsTo(d), StepsTo(d), ROOT, d) && [SLASH] + PathOf(WordsTo(d), name) == DirPath(d) + name
  {
    if d == 9 {
      TwoWords();
      TwoPath(WordOf(8), GRUB_WORD, name);
      GrubPathIs();
    } else {
      OneWord(d);
      OnePath(WordOf(d), name);
      DirPathIs(d);
    }
  }

  // ---------------------------------------------------------------------------
  // Reading it
  // ---------------------------------------------------------------------------

  /** What is staged for a directory is what the kernel reads under that directory's path. */
  method ReadStagedFile(disk: seq<Sector>, path: seq<byte>, count: nat, ghost st: Stage, ghost mb: nat, ghost d: nat, ghost k: nat)
    returns (out: seq<byte>)
    requires SizeOk(mb) && PlanFits(PlanOf(st), ClusterLimit(mb)) && disk == StagedDisk(st, mb) && Kept(st, d, k)
    requires path == DirPath(d) + StagedIn(st, d)[k].name
    ensures var data := StagedIn(st, d)[k].data; out == data[..Min(count % 0x1_0000_0000, |data|)]
  {
    ghost var r := StagedIn(st, d)[k];
    KeptAt(st, d, k);
    KeptFindable(st, d, k);
    PathTo(d, r.name);
    NoZero(d, r.name);
    out := ReadStaged(disk, path, count, st, mb, d, PlaceOf(st, d, k), WordsTo(d), StepsTo(d), r.data);
  }

  lemma NoZero(d: nat, name: seq<byte>)
    requires 0 !in name
    ensures 0 !in DirPath(d) + name
  {
    assert 0 !in DirPath(d);
  }

  // ---------------------------------------------------------------------------
  // Reading a file of /home by its bare name
  // ---------------------------------------------------------------------------

  lemma HomeName()
    ensures Formatted(WordOf(6)) == Some(Padded(HOME_NAME, 11)) && HOME == [SLASH] + WordOf(6) && IsWord(WordOf(6))
  {
    SmallLetters(WordOf(6), HOME_NAME);
  }

  lemma HomeSlot(pl: Plan, n: nat, fs: Fs)
    requires PlanFits(pl, n) && HasDirs(pl, n, fs.vol) && fs.root == ROOT
    ensures SlotOf(Sys(fs, [], fs.root), HOME) == Some((2, 5))
  {
    HomeName();
    ResolveFromRoot(fs.vol, fs.root, WordOf(6));
    SplitLast(fs.vol, ROOT, WordOf(6));
    HeadFound(pl, n, 2, 5);
    LocateIn(fs.vol, 2, WordOf(6), Padded(HOME_NAME, 11), 5);
  }

  lemma HomeEntry(pl: Plan, n: nat, v: Volume)
    requires PlanFits(pl, n) && HasDirs(pl, n, v)
    ensures 32 * 5 + 32 <= |Cluster(v, 2)| && IsDir(EntryAt(Cluster(v, 2), 5)) && First(EntryAt(Cluster(v, 2), 5)) == 6
  {
    HeadFound(pl, n, 2, 5);
    EntriesPlain(pl, n, 2);
    DirLive(Entries(pl, n, 2), 5);
    assert DirLike(Head(2)[5]);
  }

  lemma HomeIs(fs: Fs, d: nat, i: nat)
    requires SlotOf(Sys(fs, [], fs.root), HOME) == Some((d, i)) && 2 <= d && 32 * i + 32 <= |Cluster(fs.vol, d)|
    requires IsDir(EntryAt(Cluster(fs.vol, d), i))
    ensures HomeOf(fs) == First(EntryAt(Cluster(fs.vol, d), i))
  {
  }

  /** Mounting the image makes /home, at cluster 6, the current directory. */
  lemma MountsHome(st: Stage, n: nat)
    requires PlanFits(PlanOf(st), n)
    ensures HomeOf(BuiltFs(LayoutOf(PlanOf(st), n), n)) == 6
  {
    var pl := PlanOf(st);
    var fs := BuiltFs(LayoutOf(pl, n), n);
    BuiltDirs(pl, n);
    HomeSlot(pl, n, fs);
    HomeEntry(pl, n, fs.vol);
    HomeIs(fs, 2, 5);
  }

  lemma HomeCarries(st: Stage, n: nat, k: nat)
    requires PlanFits(PlanOf(st), n) && Kept(st, 6, k)
    ensures Carries(BuiltFs(LayoutOf(PlanOf(st), n), n), st.home[k].name, (6, 2 + PlaceOf(st, 6, k)), st.home[k].data)
  {
    var pl, i, name := PlanOf(st), PlaceOf(st, 6, k), st.home[k].name;
    var fs := BuiltFs(LayoutOf(pl, n), n);
    KeptAt(st, 6, k);
    KeptFindable(st, 6, k);
    PathTo(6, name);
    StagedFile(st, n, 6, i, WordsTo(6), StepsTo(6), [], 6);
    MountsHome(st, n);
    FileFound(pl, n, 6, i);
    BuiltDirs(pl, n);
    BareName(fs.vol, fs.root, 6, name);
    LocateIn(fs.vol, 6, name, HostShort(name).value, 2 + i);
  }

  /** A file staged for /home is read by its bare name, for the mount starts there. */
  method ReadFromHome(disk: seq<Sector>, name: seq<byte>, count: nat, ghost st: Stage, ghost mb: nat, ghost k: nat)
    returns (out: seq<byte>)
    requires SizeOk(mb) && PlanFits(PlanOf(st), ClusterLimit(mb)) && disk == StagedDisk(st, mb) && Kept(st, 6, k)
    requires name == st.home[k].name
    ensures var data := st.home[k].data; out == data[..Min(count % 0x1_0000_0000, |data|)]
  {
    ghost var n := ClusterLimit(mb);
    StagedMount(st, mb);
    HomeCarries(st, n, k);
    KeptAt(st, 6, k);
    ghost var fs := BuiltFs(StagedLayout(st, mb), n);
    out := ReadFile(MountedGeometry(disk[0]), disk, name, count, fs, (6, 2 + PlaceOf(st, 6, k)), st.home[k].data);
  }
}
