/** What every change the driver makes to the volume keeps, and what it does to the tree of files. */
module Fat32Safety {
  import opened Bytes
  import opened Fat32Spec
  import opened Fat32Tree

  // ---------------------------------------------------------------------------
  // Changes that leave the directories alone
  // ---------------------------------------------------------------------------

  ghost predicate SameDirs(fs: Fs, gs: Fs) {
    && gs.dirs == fs.dirs && gs.root == fs.root && gs.vol.bpc == fs.vol.bpc
    && forall d | d in fs.dirs :: Cluster(gs.vol, d) == Cluster(fs.vol, d)
  }

  /** The chain may have grown, and the bytes it had are still the same. */
  ghost predicate Kept(fs: Fs, gs: Fs, first: nat) {
    && first in fs.chains && first in gs.chains
    && fs.chains[first] <= gs.chains[first]
    && Stream(gs.vol, fs.chains[first]) == Stream(fs.vol, fs.chains[first])
  }

  ghost predicate KeptBut(fs: Fs, gs: Fs, a: nat) {
    forall d, i, first | OwnsFile(fs, d, i, first) && first != a :: Kept(fs, gs, first)
  }

  lemma KeptContents(fs: Fs, gs: Fs, first: nat, size: nat)
    requires Kept(fs, gs, first) && size <= |Stream(fs.vol, fs.chains[first])|
    ensures Contents(gs, first, size) == Contents(fs, first, size)
  {
    var p, q := fs.chains[first], gs.chains[first];
    assert q == p + q[|p|..];
    StreamAppend(gs.vol, p, q[|p|..]);
  }

  lemma ListedSame(fs: Fs, gs: Fs)
    requires SameDirs(fs, gs)
    ensures forall d, i :: Listed(gs, d, i) == Listed(fs, d, i)
    ensures forall d, i | Listed(fs, d, i) :: Slot(gs, d, i) == Slot(fs, d, i)
    ensures forall d, i, first :: OwnsFile(gs, d, i, first) == OwnsFile(fs, d, i, first)
  {
  }

  lemma EntryFits(fs: Fs, d: nat, i: nat)
    requires FsOk(fs) && Listed(fs, d, i) && !IsDir(Slot(fs, d, i)) && First(Slot(fs, d, i)) != 0
    ensures var first := First(Slot(fs, d, i));
      && OwnsFile(fs, d, i, first) && first in fs.chains
      && Size(Slot(fs, d, i)) <= |Stream(fs.vol, fs.chains[first])|
  {
    FsMeaning(fs);
    assert EntryOk(fs, Slot(fs, d, i));
    ChainWithin(fs, First(Slot(fs, d, i)));
  }

  lemma ItemSame(fs: Fs, gs: Fs, a: nat, d: nat, i: nat)
    requires FsOk(fs) && SameDirs(fs, gs) && KeptBut(fs, gs, a) && VolumeOk(gs)
    requires Listed(fs, d, i) && !OwnsFile(fs, d, i, a)
    ensures ItemOf(gs, Slot(fs, d, i)) == ItemOf(fs, Slot(fs, d, i))
  {
    FsMeaning(fs);
    var e := Slot(fs, d, i);
    if !IsDir(e) {
      if First(e) == 0 {
        assert EntryOk(fs, e);
        assert Size(e) == 0;
      } else {
        EntryFits(fs, d, i);
        KeptContents(fs, gs, First(e), Size(e));
      }
    }
  }

  lemma EntryStillOk(fs: Fs, gs: Fs, a: nat, d: nat, i: nat)
    requires FsOk(fs) && SameDirs(fs, gs) && KeptBut(fs, gs, a) && VolumeOk(gs)
    requires a in fs.chains ==> a in gs.chains && |fs.chains[a]| <= |gs.chains[a]|
    requires Listed(fs, d, i)
    ensures EntryOk(gs, Slot(fs, d, i))
  {
    FsMeaning(fs);
    var e := Slot(fs, d, i);
    assert EntryOk(fs, e);
    if !IsDir(e) && First(e) != 0 {
      var first := First(e);
      assert OwnsFile(fs, d, i, first);
      MulMonotone(|fs.chains[first]|, |gs.chains[first]|, fs.vol.bpc);
    }
  }

  /** A change outside the directories touches at most the one file whose chain is `a`. */
  lemma Framed(fs: Fs, gs: Fs, a: nat)
    requires FsOk(fs) && SameDirs(fs, gs) && KeptBut(fs, gs, a) && VolumeOk(gs)
    requires a in fs.chains ==> a in gs.chains && |fs.chains[a]| <= |gs.chains[a]|
    ensures FsOk(gs)
    ensures forall x | x in Tree(fs) && !OwnsFile(fs, x.0, x.1, a) :: x in Tree(gs) && Tree(gs)[x] == Tree(fs)[x]
    ensures forall x :: x in Tree(gs) <==> x in Tree(fs)
  {
    FsMeaning(fs);
    FsMeaning(gs);
    TreeMeaning(fs);
    TreeMeaning(gs);
    ListedSame(fs, gs);
    forall d, i | Listed(gs, d, i) ensures EntryOk(gs, Slot(gs, d, i)) {
      EntryStillOk(fs, gs, a, d, i);
    }
    forall x | x in Tree(fs) && !OwnsFile(fs, x.0, x.1, a) ensures x in Tree(gs) && Tree(gs)[x] == Tree(fs)[x] {
      ItemSame(fs, gs, a, x.0, x.1);
    }
  }

  lemma TreeFramed(fs: Fs, gs: Fs)
    requires FsOk(fs) && SameDirs(fs, gs) && KeptBut(fs, gs, 0) && VolumeOk(gs)
    ensures FsOk(gs) && Tree(gs) == Tree(fs)
  {
    FsMeaning(fs);
    if 0 in fs.chains {
      ChainWithin(fs, 0);
    }
    Framed(fs, gs, 0);
  }

  /** Taking a free cluster. */
  function Allocated(fs: Fs, c: nat): Fs {
    fs.(vol := WithEntry(fs.vol, c, EOC_MAX), chains := fs.chains[c := [c]])
  }

  lemma AllocatedVolume(fs: Fs, c: nat)
    requires VolumeOk(fs) && 2 <= c < |fs.vol.data| + 2 && Table(fs.vol)[c] == FREE
    ensures var gs := Allocated(fs, c);
      && VolumeOk(gs) && gs.vol.data == fs.vol.data && c !in fs.chains
      && FreeCount(Table(gs.vol)) == FreeCount(Table(fs.vol)) - 1
  {
    EntryWritten(fs.vol, c, EOC_MAX);
    AllocKeeps(Table(fs.vol), fs.chains, c);
    FreeUpdate(Table(fs.vol), c, EOC_MAX, |fs.vol.data| + 2);
  }

  lemma AllocatedKeeps(fs: Fs, c: nat)
    requires FsOk(fs) && Shaped(fs.vol) && 2 <= c < |fs.vol.data| + 2 && Table(fs.vol)[c] == FREE
    ensures var gs := Allocated(fs, c);
      && FsOk(gs) && Tree(gs) == Tree(fs) && Loose(gs, c) && c !in fs.chains
      && FreeCount(Table(gs.vol)) == FreeCount(Table(fs.vol)) - 1
  {
    FsMeaning(fs);
    var gs := Allocated(fs, c);
    AllocatedVolume(fs, c);
    forall d, i, first | OwnsFile(fs, d, i, first) ensures Kept(fs, gs, first) && first != c {
      EntryFits(fs, d, i);
      StreamSame(fs.vol, gs.vol, fs.chains[first]);
    }
    TreeFramed(fs, gs);
    ListedSame(fs, gs);
  }

  /** Overwriting a cluster that nothing uses yet. */
  lemma LooseOverwritten(fs: Fs, c: nat, b: seq<byte>)
    requires FsOk(fs) && Loose(fs, c) && fs.chains[c] == [c] && |b| == fs.vol.bpc
    ensures 2 <= c < |fs.vol.data| + 2
    ensures var gs := fs.(vol := WithCluster(fs.vol, c, b));
      FsOk(gs) && Tree(gs) == Tree(fs) && Loose(gs, c)
  {
    FsMeaning(fs);
    ChainWithin(fs, c);
    var gs := fs.(vol := WithCluster(fs.vol, c, b));
    ClusterWritten(fs.vol, c, b);
    forall d, i, first | OwnsFile(fs, d, i, first) ensures Kept(fs, gs, first) {
      EntryFits(fs, d, i);
      OtherChain(fs, c, 0, first);
      StreamSame(fs.vol, gs.vol, fs.chains[first]);
    }
    TreeFramed(fs, gs);
    ListedSame(fs, gs);
  }

  /** A cluster of one chain is in no other. */
  lemma OtherChain(fs: Fs, a: nat, i: nat, b: nat)
    requires VolumeOk(fs) && a in fs.chains && b in fs.chains && a != b && i < |fs.chains[a]|
    ensures forall j | 0 <= j < |fs.chains[b]| :: fs.chains[b][j] != fs.chains[a][i]
  {
  }

  /** Linking an unused cluster to the end of a chain. */
  function Extended(fs: Fs, a: nat, n: nat): Fs
    requires a in fs.chains && n in fs.chains && fs.chains[a] != [] && n < LOW_BITS
  {
    fs.(vol := WithEntry(fs.vol, Last(fs.chains[a]), n), chains := Joined(fs.chains, a, n))
  }

  lemma ExtendedVolume(fs: Fs, a: nat, n: nat)
    requires VolumeOk(fs) && a in fs.chains && n in fs.chains && n !in fs.dirs && a != n && fs.chains[n] == [n]
    ensures fs.chains[a] != [] && n < LOW_BITS
    ensures var gs := Extended(fs, a, n);
      && VolumeOk(gs) && gs.vol.data == fs.vol.data && gs.chains[a] == fs.chains[a] + [n]
      && FreeCount(Table(gs.vol)) == FreeCount(Table(fs.vol))
  {
    ChainWithin(fs, a);
    ChainWithin(fs, n);
    var last := Last(fs.chains[a]);
    LinkKeeps(Table(fs.vol), fs.chains, a, n);
    EntryWritten(fs.vol, last, n);
    assert Follows(Table(fs.vol), fs.chains[a], |fs.chains[a]| - 1);
    FreeUpdate(Table(fs.vol), last, n, |fs.vol.data| + 2);
  }

  lemma ExtendedKeeps(fs: Fs, a: nat, n: nat)
    requires FsOk(fs) && a in fs.chains && Loose(fs, n) && a != n && fs.chains[n] == [n]
    ensures fs.chains[a] != [] && n < LOW_BITS
    ensures var gs := Extended(fs, a, n);
      && FsOk(gs) && Tree(gs) == Tree(fs) && SameDirs(fs, gs) && TopBitsKept(fs.vol, gs.vol)
      && FreeCount(Table(gs.vol)) == FreeCount(Table(fs.vol)) && 2 <= Last(fs.chains[a]) < |fs.vol.data| + 2
  {
    FsMeaning(fs);
    ExtendedVolume(fs, a, n);
    var gs := Extended(fs, a, n);
    ChainWithin(fs, a);
    EntryWritten(fs.vol, Last(fs.chains[a]), n);
    ExtendedFiles(fs, a, n);
    TreeFramed(fs, gs);
  }

  lemma ExtendedFiles(fs: Fs, a: nat, n: nat)
    requires FsOk(fs) && a in fs.chains && fs.chains[a] != [] && Loose(fs, n) && a != n && n < LOW_BITS
    ensures var gs := Extended(fs, a, n);
      SameDirs(fs, gs) && KeptBut(fs, gs, 0)
  {
    FsMeaning(fs);
    var gs := Extended(fs, a, n);
    forall d, i, first | OwnsFile(fs, d, i, first) ensures Kept(fs, gs, first) {
      EntryFits(fs, d, i);
      StreamSame(fs.vol, gs.vol, fs.chains[first]);
    }
  }

  /** A change inside the clusters of one file's chain reaches that file alone. */
  lemma FileOverwritten(fs: Fs, gs: Fs, a: nat)
    requires FsOk(fs) && a in fs.chains && a !in fs.dirs
    requires gs == fs.(vol := gs.vol) && gs.vol.fats == fs.vol.fats && gs.vol.bpc == fs.vol.bpc && Shaped(gs.vol)
    requires forall c: nat | c !in fs.chains[a] :: Cluster(gs.vol, c) == Cluster(fs.vol, c)
    ensures FsOk(gs) && SameDirs(fs, gs)
    ensures forall x | x in Tree(fs) && !OwnsFile(fs, x.0, x.1, a) :: x in Tree(gs) && Tree(gs)[x] == Tree(fs)[x]
    ensures forall x :: x in Tree(gs) <==> x in Tree(fs)
  {
    FsMeaning(fs);
    assert Table(gs.vol) == Table(fs.vol);
    assert |gs.vol.data| == |fs.vol.data|;
    forall b | b in fs.chains && b != a
      ensures forall j | 0 <= j < |fs.chains[b]| :: fs.chains[b][j] !in fs.chains[a]
    {
    }
    forall d | d in fs.dirs ensures Cluster(gs.vol, d) == Cluster(fs.vol, d) {
      ChainWithin(fs, d);
    }
    forall d, i, first | OwnsFile(fs, d, i, first) && first != a ensures Kept(fs, gs, first) {
      EntryFits(fs, d, i);
      StreamSame(fs.vol, gs.vol, fs.chains[first]);
    }
    Framed(fs, gs, a);
  }

  // ---------------------------------------------------------------------------
  // Changes to a directory entry
  // ---------------------------------------------------------------------------

  function Rewritten(fs: Fs, d: nat, i: nat, e: Entry): Fs
    requires 2 <= d < |fs.vol.data| + 2 && 32 * i + 32 <= |Cluster(fs.vol, d)|
  {
    fs.(vol := WithCluster(fs.vol, d, WithEntryAt(Cluster(fs.vol, d), i, e)))
  }

  /** `c` is `b` with entry `i` replaced by `e`. */
  ghost predicate EntriesReplaced(b: seq<byte>, c: seq<byte>, i: nat, e: Entry) {
    && |c| == |b| && 32 * i + 32 <= |b| && EntryAt(c, i) == e
    && forall j: nat | 32 * j + 32 <= |b| && j != i :: EntryAt(c, j) == EntryAt(b, j)
  }

  ghost predicate SlotReplaced(fs: Fs, gs: Fs, d: nat, i: nat, e: Entry) {
    && gs.dirs == fs.dirs && d in fs.dirs && gs.chains == fs.chains
    && EntriesReplaced(Cluster(fs.vol, d), Cluster(gs.vol, d), i, e)
    && forall c: nat | c != d :: Cluster(gs.vol, c) == Cluster(fs.vol, c)
  }

  lemma ReplacedEntries(b: seq<byte>, i: nat, e: Entry)
    requires 32 * i + 32 <= |b|
    ensures EntriesReplaced(b, WithEntryAt(b, i, e), i, e)
  {
    var c := WithEntryAt(b, i, e);
    EntryReplaced(b, i, e, i);
    forall j: nat | 32 * j + 32 <= |b| && j != i ensures EntryAt(c, j) == EntryAt(b, j) {
      EntryReplaced(b, i, e, j);
    }
  }

  /** The slots after rewriting one of them. */
  lemma RewrittenSlots(fs: Fs, d: nat, i: nat, e: Entry)
    requires VolumeOk(fs) && HasSlot(fs, d, i)
    ensures 2 <= d < |fs.vol.data| + 2
    ensures var gs := Rewritten(fs, d, i, e);
      VolumeOk(gs) && SlotReplaced(fs, gs, d, i, e) && gs.vol.bpc == fs.vol.bpc
  {
    DirCluster(fs, d);
    ReplacedEntries(Cluster(fs.vol, d), i, e);
    ClusterWritten(fs.vol, d, WithEntryAt(Cluster(fs.vol, d), i, e));
  }

  /** Rewriting an entry leaves the bytes of every chain that no directory starts. */
  lemma RewrittenStream(fs: Fs, d: nat, i: nat, e: Entry, first: nat)
    requires VolumeOk(fs) && HasSlot(fs, d, i) && first in fs.chains && first !in fs.dirs
    ensures 2 <= d < |fs.vol.data| + 2
    ensures var gs := Rewritten(fs, d, i, e);
      forall size :: Contents(gs, first, size) == Contents(fs, first, size)
  {
    RewrittenSlots(fs, d, i, e);
    ChainWithin(fs, d);
    OtherChain(fs, d, 0, first);
    StreamSame(fs.vol, Rewritten(fs, d, i, e).vol, fs.chains[first]);
  }

  lemma RewrittenItem(fs: Fs, d: nat, i: nat, e: Entry, f: Entry)
    requires FsOk(fs) && HasSlot(fs, d, i) && EntryOk(fs, f)
    ensures 2 <= d < |fs.vol.data| + 2
    ensures var gs := Rewritten(fs, d, i, e);
      ItemOf(gs, f) == ItemOf(fs, f) && EntryOk(gs, f)
  {
    FsMeaning(fs);
    RewrittenSlots(fs, d, i, e);
    if !IsDir(f) {
      if First(f) == 0 {
        assert Size(f) == 0;
      } else {
        RewrittenStream(fs, d, i, e, First(f));
      }
    }
  }

  /** Which entries are listed after one of them is replaced by another of the same name and attributes. */
  lemma LiveReplaced(b: seq<byte>, c: seq<byte>, i: nat, e: Entry)
    requires EntriesReplaced(b, c, i, e) && Name(e) == Name(EntryAt(b, i)) && Attr(e) == Attr(EntryAt(b, i))
    ensures forall j: nat :: Live(c, j) == Live(b, j)
    ensures Tidy(b) ==> Tidy(c)
  {
    assert Mark(b, i) == Name(e)[0] == Mark(c, i);
    assert forall j: nat | 32 * j + 32 <= |b| :: Mark(b, j) == Mark(c, j);
    forall j: nat | 32 * j + 32 <= |b| ensures Reached(b, j) == Reached(c, j) {
    }
  }

  /** The entry keeps its name; its chain is the one it had or one that nothing used. */
  ghost predicate Revises(fs: Fs, d: nat, i: nat, e: Entry)
    requires Listed(fs, d, i)
  {
    var old_ := Slot(fs, d, i);
    && Name(e) == Name(old_) && Attr(e) == Attr(old_) && !IsDir(old_)
    && EntryOk(fs, e)
    && (First(e) == First(old_) || Loose(fs, First(e)))
  }

  ghost predicate ListedAs(fs: Fs, gs: Fs, d: nat, i: nat, e: Entry, x: nat, y: nat) {
    && Listed(gs, x, y) == Listed(fs, x, y)
    && (Listed(fs, x, y) ==> Slot(gs, x, y) == if x == d && y == i then e else Slot(fs, x, y))
  }

  lemma RevisedListed(fs: Fs, gs: Fs, d: nat, i: nat, e: Entry)
    requires SlotReplaced(fs, gs, d, i, e) && Name(e) == Name(Slot(fs, d, i)) && Attr(e) == Attr(Slot(fs, d, i))
    requires DirsTidy(fs)
    ensures forall x, y :: ListedAs(fs, gs, d, i, e, x, y)
    ensures DirsTidy(gs)
  {
    LiveReplaced(Cluster(fs.vol, d), Cluster(gs.vol, d), i, e);
    forall x: nat, y: nat ensures ListedAs(fs, gs, d, i, e, x, y) {
      if x != d {
        assert Cluster(gs.vol, x) == Cluster(fs.vol, x);
      }
    }
  }

  lemma RevisedUnshared(fs: Fs, gs: Fs, d: nat, i: nat, e: Entry)
    requires Unshared(fs) && Listed(fs, d, i) && Revises(fs, d, i, e)
    requires forall x, y :: ListedAs(fs, gs, d, i, e, x, y)
    ensures Unshared(gs)
  {
    assert ListedAs(fs, gs, d, i, e, d, i);
    forall x, y, first | OwnsFile(gs, x, y, first) && !(x == d && y == i)
      ensures OwnsFile(fs, x, y, first) && first != First(e)
    {
      assert ListedAs(fs, gs, d, i, e, x, y);
      assert OwnsFile(fs, x, y, first);
      if First(e) == First(Slot(fs, d, i)) {
        assert first == First(e) ==> OwnsFile(fs, d, i, first);
      } else {
        assert !OwnsFile(fs, x, y, First(e));
      }
    }
  }

  /** Revising a file's entry changes that file alone. */
  lemma EntryRevised(fs: Fs, d: nat, i: nat, e: Entry)
    requires FsOk(fs) && Listed(fs, d, i) && Revises(fs, d, i, e)
    ensures 2 <= d < |fs.vol.data| + 2
    ensures var gs := Rewritten(fs, d, i, e);
      FsOk(gs) && Tree(gs) == Tree(fs)[(d, i) := ItemOf(fs, e)]
  {
    FsMeaning(fs);
    RewrittenSlots(fs, d, i, e);
    var gs := Rewritten(fs, d, i, e);
    FsMeaning(gs);
    RevisedListed(fs, gs, d, i, e);
    RevisedUnshared(fs, gs, d, i, e);
    forall x, y | Listed(gs, x, y)
      ensures EntryOk(gs, Slot(gs, x, y))
      ensures ItemOf(gs, Slot(gs, x, y)) == ItemOf(fs, Slot(gs, x, y))
    {
      assert ListedAs(fs, gs, d, i, e, x, y);
      RewrittenItem(fs, d, i, e, Slot(gs, x, y));
    }
    assert ListedAs(fs, gs, d, i, e, d, i);
    TreeReplaced(fs, gs, d, i, e);
  }

  // ---------------------------------------------------------------------------
  // A new directory entry
  // ---------------------------------------------------------------------------

  /** The first entry that is free or deleted. */
  ghost predicate FirstGap(b: seq<byte>, i: nat) {
    && 32 * i + 32 <= |b| && (Mark(b, i) == 0 || Mark(b, i) == DELETED)
    && forall j: nat | j < i :: Mark(b, j) != 0
  }

  lemma LiveFilled(b: seq<byte>, c: seq<byte>, i: nat, e: Entry)
    requires EntriesReplaced(b, c, i, e) && FirstGap(b, i) && Tidy(b) && Name(e)[0] != 0 && Attr(e) != ATTR_LONG_NAME
    ensures forall j: nat | j != i :: Live(c, j) == Live(b, j)
    ensures !Live(b, i)
    ensures Live(c, i) <==> Name(e)[0] != DELETED
    ensures Tidy(c)
  {
    assert Mark(c, i) == Name(e)[0];
    assert forall j: nat | 32 * j + 32 <= |b| && j != i :: Mark(b, j) == Mark(c, j);
    forall j: nat | 32 * j + 32 <= |b| && i < j ensures Reached(b, j) == Reached(c, j) {
      if Mark(b, i) == 0 {
        assert Mark(b, j) == 0;
      }
    }
  }

  ghost predicate Creates(fs: Fs, d: nat, i: nat, e: Entry) {
    && d in fs.dirs && FirstGap(Cluster(fs.vol, d), i)
    && Name(e)[0] != 0 && Attr(e) == ATTR_ARCHIVE && Size(e) == 0 && Loose(fs, First(e))
  }

  lemma CreatedListed(fs: Fs, gs: Fs, d: nat, i: nat, e: Entry)
    requires SlotReplaced(fs, gs, d, i, e) && Creates(fs, d, i, e) && DirsTidy(fs)
    ensures forall x, y | !(x == d && y == i) :: ListedAs(fs, gs, d, i, e, x, y)
    ensures Listed(gs, d, i) <==> Name(e)[0] != DELETED
    ensures !Listed(fs, d, i)
    ensures DirsTidy(gs)
  {
    LiveFilled(Cluster(fs.vol, d), Cluster(gs.vol, d), i, e);
    forall x: nat, y: nat | !(x == d && y == i) ensures ListedAs(fs, gs, d, i, e, x, y) {
      if x != d {
        assert Cluster(gs.vol, x) == Cluster(fs.vol, x);
      }
    }
  }

  lemma CreatedUnshared(fs: Fs, gs: Fs, d: nat, i: nat, e: Entry)
    requires Unshared(fs) && SlotReplaced(fs, gs, d, i, e) && Creates(fs, d, i, e)
    requires forall x, y | !(x == d && y == i) :: ListedAs(fs, gs, d, i, e, x, y)
    ensures Unshared(gs)
  {
    forall x, y, first | OwnsFile(gs, x, y, first) && !(x == d && y == i)
      ensures OwnsFile(fs, x, y, first) && first != First(e)
    {
      assert ListedAs(fs, gs, d, i, e, x, y);
      assert !OwnsFile(fs, x, y, First(e));
    }
    assert forall first | OwnsFile(gs, d, i, first) :: first == First(e);
  }

  lemma CreatedItems(fs: Fs, d: nat, i: nat, e: Entry)
    requires FsOk(fs) && Creates(fs, d, i, e)
    ensures 2 <= d < |fs.vol.data| + 2
    ensures var gs := Rewritten(fs, d, i, e);
      forall x, y | Listed(gs, x, y) :: EntryOk(gs, Slot(gs, x, y)) && ItemOf(gs, Slot(gs, x, y)) == ItemOf(fs, Slot(gs, x, y))
  {
    FsMeaning(fs);
    RewrittenSlots(fs, d, i, e);
    var gs := Rewritten(fs, d, i, e);
    CreatedListed(fs, gs, d, i, e);
    assert EntryOk(fs, e);
    forall x, y | Listed(gs, x, y) ensures EntryOk(fs, Slot(gs, x, y)) {
      assert !(x == d && y == i) ==> ListedAs(fs, gs, d, i, e, x, y);
    }
    forall x, y | Listed(gs, x, y)
      ensures EntryOk(gs, Slot(gs, x, y)) && ItemOf(gs, Slot(gs, x, y)) == ItemOf(fs, Slot(gs, x, y))
    {
      RewrittenItem(fs, d, i, e, Slot(gs, x, y));
    }
  }

  /** The new entry shows, unless its name starts with the byte that marks deleted entries. */
  lemma EntryCreated(fs: Fs, d: nat, i: nat, e: Entry)
    requires FsOk(fs) && Creates(fs, d, i, e)
    ensures 2 <= d < |fs.vol.data| + 2 && (d, i) !in Tree(fs)
    ensures var gs := Rewritten(fs, d, i, e);
      && FsOk(gs)
      && Tree(gs) == if Name(e)[0] == DELETED then Tree(fs) else Tree(fs)[(d, i) := File(Name(e), Attr(e), [])]
  {
    FsMeaning(fs);
    RewrittenSlots(fs, d, i, e);
    var gs := Rewritten(fs, d, i, e);
    CreatedListed(fs, gs, d, i, e);
    CreatedUnshared(fs, gs, d, i, e);
    CreatedItems(fs, d, i, e);
    FsMeaning(gs);
    TreeMeaning(fs);
    assert ItemOf(fs, e) == File(Name(e), Attr(e), []);
    TreeReplaced(fs, gs, d, i, e);
  }

  /** The tree after one slot changed, given that no other item did. */
  lemma TreeReplaced(fs: Fs, gs: Fs, d: nat, i: nat, e: Entry)
    requires forall x, y | !(x == d && y == i) :: ListedAs(fs, gs, d, i, e, x, y)
    requires forall x, y | Listed(gs, x, y) :: ItemOf(gs, Slot(gs, x, y)) == ItemOf(fs, Slot(gs, x, y))
    requires Listed(gs, d, i) ==> Slot(gs, d, i) == e
    requires Listed(fs, d, i) ==> Listed(gs, d, i)
    ensures Tree(gs) == if Listed(gs, d, i) then Tree(fs)[(d, i) := ItemOf(fs, e)] else Tree(fs)
  {
    TreeMeaning(fs);
    TreeMeaning(gs);
    var t := if Listed(gs, d, i) then Tree(fs)[(d, i) := ItemOf(fs, e)] else Tree(fs);
    forall x: (nat, nat) ensures x in Tree(gs) <==> x in t {
      assert x != (d, i) ==> ListedAs(fs, gs, d, i, e, x.0, x.1);
    }
    forall x: (nat, nat) | x in Tree(gs) ensures Tree(gs)[x] == t[x] {
      assert x != (d, i) ==> ListedAs(fs, gs, d, i, e, x.0, x.1);
    }
  }
}
