/** Cluster allocation and the growth of chains, as functions on the file system. */
module Fat32Alloc {
  import opened Bytes
  import opened Fat32Spec
  import opened Fat32Tree
  import opened Fat32Safety

  function Zeros(n: nat): seq<byte> {
    seq(n, _ => 0)
  }

  /** The lowest free cluster from `c` on, or zero. */
  function LowestFree(t: seq<nat>, c: nat): nat
    decreases |t| - c
  {
    if |t| <= c then 0 else if t[c] == FREE then c else LowestFree(t, c + 1)
  }

  lemma {:induction false} LowestFreeMeaning(t: seq<nat>, c: nat)
    requires 2 <= c
    ensures var r := LowestFree(t, c);
      if r == 0 then forall j | c <= j < |t| :: t[j] != FREE
      else c <= r < |t| && t[r] == FREE && forall j | c <= j < r :: t[j] != FREE
    decreases |t| - c
  {
    if c < |t| && t[c] != FREE {
      LowestFreeMeaning(t, c + 1);
    }
  }

  function Next(fs: Fs): nat {
    LowestFree(Table(fs.vol), 2)
  }

  function FreeOf(fs: Fs): nat {
    FreeCount(Table(fs.vol))
  }

  lemma NextMeaning(fs: Fs)
    ensures Next(fs) == 0 <==> FreeOf(fs) == 0
    ensures Next(fs) != 0 ==> 2 <= Next(fs) < |Table(fs.vol)| && Table(fs.vol)[Next(fs)] == FREE
  {
    LowestFreeMeaning(Table(fs.vol), 2);
    NoneFree(Table(fs.vol), |Table(fs.vol)|);
  }

  function Zeroed(fs: Fs, c: nat): Fs {
    if 2 <= c < |fs.vol.data| + 2 then fs.(vol := WithCluster(fs.vol, c, Zeros(fs.vol.bpc))) else fs
  }

  /** The lowest free cluster taken and cleared. */
  function Fresh(fs: Fs): Fs {
    if Next(fs) == 0 then fs else Zeroed(Allocated(fs, Next(fs)), Next(fs))
  }

  /** One more cluster at the end of a chain. */
  function Appended(fs: Fs, first: nat): Fs {
    var g, c := Fresh(fs), Next(fs);
    if c != 0 && first in g.chains && c in g.chains && g.chains[first] != [] && c < LOW_BITS then Extended(g, first, c)
    else g
  }

  /** Up to `add` more clusters at the end of a chain, as many as there are. */
  function Grown(fs: Fs, first: nat, add: nat): Fs
    decreases add
  {
    if add == 0 || Next(fs) == 0 then fs else Grown(Appended(fs, first), first, add - 1)
  }

  /** No file changes, no directory changes, no reserved bit changes. */
  ghost predicate Steady(fs: Fs, gs: Fs) {
    && FsOk(gs) && SameDirs(fs, gs) && Tree(gs) == Tree(fs) && TopBitsKept(fs.vol, gs.vol)
    && |gs.vol.data| == |fs.vol.data|
  }

  lemma TopBitsTransitive(u: Volume, v: Volume, w: Volume)
    requires TopBitsKept(u, v) && TopBitsKept(v, w)
    ensures TopBitsKept(u, w)
  {
    forall k, c | 0 <= k < |u.fats| && 0 <= c < |u.fats[k]| ensures High(w.fats[k][c]) == High(u.fats[k][c]) {
      assert High(v.fats[k][c]) == High(u.fats[k][c]);
    }
  }

  lemma SteadyTransitive(a: Fs, b: Fs, c: Fs)
    requires Steady(a, b) && Steady(b, c)
    ensures Steady(a, c)
  {
    TopBitsTransitive(a.vol, b.vol, c.vol);
  }

  lemma ShapedOk(fs: Fs)
    requires FsOk(fs)
    ensures VolumeOk(fs) && |Table(fs.vol)| == |fs.vol.data| + 2
  {
    FsMeaning(fs);
  }

  lemma TakenKeeps(fs: Fs)
    requires FsOk(fs) && Next(fs) != 0
    ensures var c, g := Next(fs), Allocated(fs, Next(fs));
      && Steady(fs, g) && Loose(g, c) && c !in fs.chains && 2 <= c < |fs.vol.data| + 2
      && FreeOf(g) == FreeOf(fs) - 1
  {
    ShapedOk(fs);
    NextMeaning(fs);
    AllocatedKeeps(fs, Next(fs));
    EntryWritten(fs.vol, Next(fs), EOC_MAX);
  }

  lemma ZeroedKeeps(fs: Fs, c: nat)
    requires FsOk(fs) && Loose(fs, c) && fs.chains[c] == [c]
    ensures var g := Zeroed(fs, c);
      Steady(fs, g) && Loose(g, c) && FreeOf(g) == FreeOf(fs) && Cluster(g.vol, c) == Zeros(fs.vol.bpc)
  {
    ShapedOk(fs);
    LooseOverwritten(fs, c, Zeros(fs.vol.bpc));
    ClusterWritten(fs.vol, c, Zeros(fs.vol.bpc));
  }

  /** Taking a cluster makes a one-cluster chain of zero bytes that nothing uses. */
  lemma FreshKeeps(fs: Fs)
    requires FsOk(fs) && Next(fs) != 0
    ensures var c, g := Next(fs), Fresh(fs);
      && Steady(fs, g) && Loose(g, c) && c !in fs.chains && g.chains == fs.chains[c := [c]]
      && FreeOf(g) == FreeOf(fs) - 1 && Cluster(g.vol, c) == Zeros(fs.vol.bpc) && 2 <= c < |fs.vol.data| + 2
  {
    TakenKeeps(fs);
    var g := Allocated(fs, Next(fs));
    ZeroedKeeps(g, Next(fs));
    SteadyTransitive(fs, g, Fresh(fs));
  }

  lemma JoinedFresh(ch: Chains, a: nat, n: nat)
    requires a in ch && n !in ch
    ensures Joined(ch[n := [n]], a, n) == ch[a := ch[a] + [n]]
  {
  }

  lemma AppendedKeeps(fs: Fs, first: nat)
    requires FsOk(fs) && first in fs.chains && Next(fs) != 0
    ensures var g := Appended(fs, first);
      && Steady(fs, g) && g.chains == fs.chains[first := fs.chains[first] + [Next(fs)]]
      && FreeOf(g) == FreeOf(fs) - 1
    ensures fs.chains[first] != [] && Next(fs) < LOW_BITS && Appended(fs, first) == Extended(Fresh(fs), first, Next(fs))
  {
    var g, c := Fresh(fs), Next(fs);
    FreshKeeps(fs);
    ExtendedKeeps(g, first, c);
    JoinedFresh(fs.chains, first, c);
    SteadyTransitive(fs, g, Extended(g, first, c));
  }

  /** The chains after growing one of them: that one longer, the others as they were. */
  ghost predicate Longer(ch: Chains, ch': Chains, first: nat, n: nat) {
    && first in ch && first in ch' && ch' == ch[first := ch'[first]]
    && ch[first] <= ch'[first] && |ch'[first]| == |ch[first]| + n
  }

  lemma LongerStep(a: Chains, b: Chains, c: Chains, first: nat, x: nat, n: nat)
    requires first in a && b == a[first := a[first] + [x]] && Longer(b, c, first, n)
    ensures Longer(a, c, first, n + 1)
  {
    assert c == a[first := c[first]];
  }

  ghost predicate GrewBy(fs: Fs, g: Fs, first: nat, n: nat) {
    Steady(fs, g) && Longer(fs.chains, g.chains, first, n) && FreeOf(fs) == FreeOf(g) + n
  }

  lemma GrewNone(fs: Fs, first: nat)
    requires FsOk(fs) && first in fs.chains
    ensures GrewBy(fs, fs, first, 0)
  {
    assert fs.chains[first := fs.chains[first]] == fs.chains;
  }

  lemma GrewStep(fs: Fs, g: Fs, first: nat, n: nat)
    requires FsOk(fs) && first in fs.chains && Next(fs) != 0
    requires GrewBy(Appended(fs, first), g, first, n)
    ensures GrewBy(fs, g, first, n + 1)
  {
    var h := Appended(fs, first);
    AppendedKeeps(fs, first);
    SteadyTransitive(fs, h, g);
    LongerStep(fs.chains, h.chains, g.chains, first, Next(fs), n);
  }

  lemma AppendedOk(fs: Fs, first: nat)
    requires FsOk(fs) && first in fs.chains && Next(fs) != 0
    ensures var h := Appended(fs, first);
      FsOk(h) && first in h.chains && FreeOf(h) == FreeOf(fs) - 1
  {
    AppendedKeeps(fs, first);
  }

  /** Growing a chain adds what was asked for or all there is, and changes no file. */
  lemma {:induction false} GrownKeeps(fs: Fs, first: nat, add: nat)
    requires FsOk(fs) && first in fs.chains
    ensures GrewBy(fs, Grown(fs, first, add), first, Min(add, FreeOf(fs)))
    decreases add
  {
    NextMeaning(fs);
    if add == 0 || Next(fs) == 0 {
      GrewNone(fs, first);
    } else {
      var h := Appended(fs, first);
      AppendedOk(fs, first);
      GrownKeeps(h, first, add - 1);
      GrewStep(fs, Grown(h, first, add - 1), first, Min(add - 1, FreeOf(h)));
    }
  }
}
