/** Every run of opens, closes, reads and writes from a sound volume. */
module Fat32Reach {
  import opened Bytes
  import opened Fat32Spec
  import opened Fat32Tree
  import opened Fat32Alloc
  import opened Fat32Names
  import opened Fat32Ops
  import opened Fat32Runs
  import opened Fat32Open

  // ---------------------------------------------------------------------------
  // Chain walks
  // ---------------------------------------------------------------------------

  /** The next cluster as the driver reads it: zero at an end, a bad or a free entry. */
  function NextOf(v: Volume, c: nat): nat
    requires Shaped(v)
  {
    var e := if 2 <= c < |v.data| + 2 then Table(v)[c] else BAD;
    if EOC_MIN <= e <= EOC_MAX || e == BAD || e == FREE then 0 else e
  }

  /** Where `n` steps lead from `c`. */
  function Walked(v: Volume, c: nat, n: nat): nat
    requires Shaped(v)
    decreases n
  {
    if n == 0 then c else Walked(v, NextOf(v, c), n - 1)
  }

  ghost predicate Ends(v: Volume, c: nat)
    requires Shaped(v)
  {
    Walked(v, c, |v.data| + 1) == 0
  }

  lemma {:induction false} WalkedFromZero(v: Volume, n: nat)
    requires Shaped(v)
    ensures Walked(v, 0, n) == 0
  {
    if n > 0 {
      WalkedFromZero(v, n - 1);
    }
  }

  /** The clusters of `p` in order, each once. */
  ghost predicate IsChain(v: Volume, p: seq<nat>) {
    && Shaped(v) && Linked(Table(v), p) && Within(v, p)
    && forall i, j | 0 <= i < |p| && 0 <= j < |p| && p[i] == p[j] :: i == j
  }

  lemma ChainOf(fs: Fs, a: nat)
    requires FsOk(fs) && a in fs.chains
    ensures IsChain(fs.vol, fs.chains[a]) && fs.chains[a] != [] && fs.chains[a][0] == a && 2 <= a
    ensures |Stream(fs.vol, fs.chains[a])| == |fs.chains[a]| * fs.vol.bpc
    ensures |fs.chains[a]| <= |fs.vol.data| && |fs.chains[a]| * fs.vol.bpc < TOP
  {
    FsMeaning(fs);
    ChainWithin(fs, a);
    ChainFits(fs, a);
  }

  /** Along a chain the next cluster is the next one of the chain, and zero after the last. */
  lemma NextInChain(v: Volume, p: seq<nat>, i: nat)
    requires IsChain(v, p) && i < |p|
    ensures NextOf(v, p[i]) == if i + 1 < |p| then p[i + 1] else 0
  {
    assert Follows(Table(v), p, i);
    if i + 1 < |p| {
      assert Follows(Table(v), p, i + 1);
    }
  }

  lemma {:induction false} ChainWalked(v: Volume, p: seq<nat>, i: nat, n: nat)
    requires IsChain(v, p) && i < |p| && |p| - i <= n
    ensures Walked(v, p[i], n) == 0
    decreases n
  {
    NextInChain(v, p, i);
    if i + 1 < |p| {
      ChainWalked(v, p, i + 1, n - 1);
    } else {
      WalkedFromZero(v, n - 1);
    }
  }

  /** Every walk, wherever it starts, ends within as many steps as there are clusters, or at once. */
  lemma WalkEnds(fs: Fs, c: nat)
    requires FsOk(fs)
    ensures Shaped(fs.vol) && Ends(fs.vol, c)
  {
    FsMeaning(fs);
    var t, n := Table(fs.vol), |fs.vol.data| + 1;
    if 2 <= c < |t| && t[c] != FREE && t[c] != BAD {
      assert Owned(fs.chains, c);
      var a :| a in fs.chains && c in fs.chains[a];
      var i: nat :| i < |fs.chains[a]| && fs.chains[a][i] == c;
      ChainOf(fs, a);
      ChainWalked(fs.vol, fs.chains[a], i, n);
    } else {
      WalkedFromZero(fs.vol, n - 1);
    }
  }

  // ---------------------------------------------------------------------------
  // Runs
  // ---------------------------------------------------------------------------

  datatype Event =
    | Open(path: seq<byte>, flags: nat)
    | Close(fd: int)
    | Read(fd: int, count: nat)
    | Write(fd: int, buf: seq<byte>, count: nat)

  function Step(s: Sys, e: Event): Sys {
    match e
    case Open(path, flags) => Opened(s, path, flags).0
    case Close(fd) => Closed(s, fd).0
    case Read(fd, count) => ReadFrom(s, fd, count).0
    case Write(fd, buf, count) => Written(s, fd, buf, count).0
  }

  /** Paths end at their first zero byte, a file is open once at a time, and a write comes with the bytes it copies. */
  ghost predicate Allowed(s: Sys, e: Event) {
    match e
    case Open(path, _) => 0 !in path && (SlotOf(s, path).Some? ==> Unopened(s, SlotOf(s, path).value))
    case Close(_) => true
    case Read(_, _) => true
    case Write(_, buf, count) => |buf| == count % TOP
  }

  lemma CloseKeeps(s: Sys, f: int)
    requires SysOk(s)
    ensures SysOk(Closed(s, f).0)
  {
    SysMeaning(s);
    SysMeaning(Closed(s, f).0);
  }

  lemma TopBitsSame(v: Volume)
    ensures TopBitsKept(v, v)
  {
  }

  lemma StepKeeps(s: Sys, e: Event)
    requires SysOk(s) && Allowed(s, e)
    ensures SysOk(Step(s, e)) && TopBitsKept(s.fs.vol, Step(s, e).fs.vol)
  {
    TopBitsSame(s.fs.vol);
    match e
    case Open(path, flags) => OpenKeeps(s, path, flags);
    case Close(f) => CloseKeeps(s, f);
    case Read(f, count) =>
      if IsOpen(s, f) {
        ReadKeeps(s, f, count);
      }
    case Write(f, buf, count) =>
      if IsOpen(s, f) && WriteFlags(s.fds[f].flags) && count != 0 {
        if buf != [] {
          WriteMeaning(s, f, buf, count);
        } else {
          WriteOfNothing(s, f, count);
        }
      }
  }

  function Run(s: Sys, events: seq<Event>): Sys
    decreases |events|
  {
    if events == [] then s else Run(Step(s, events[0]), events[1..])
  }

  ghost predicate Possible(s: Sys, events: seq<Event>)
    decreases |events|
  {
    events == [] || (Allowed(s, events[0]) && Possible(Step(s, events[0]), events[1..]))
  }

  lemma {:induction false} RunKeeps(s: Sys, events: seq<Event>)
    requires SysOk(s) && Possible(s, events)
    ensures SysOk(Run(s, events)) && TopBitsKept(s.fs.vol, Run(s, events).fs.vol)
    decreases |events|
  {
    if events == [] {
      TopBitsSame(s.fs.vol);
    } else {
      var m := Step(s, events[0]);
      StepKeeps(s, events[0]);
      RunKeeps(m, events[1..]);
      TopBitsTransitive(s.fs.vol, m.fs.vol, Run(s, events).fs.vol);
    }
  }

  /** The FAT itself: mirrored copies, disjoint ended chains, nothing dangling, every walk finite. */
  ghost predicate FatSound(fs: Fs) {
    && Shaped(fs.vol) && Mirrored(fs.vol) && Threaded(Table(fs.vol), fs.chains)
    && (forall c: nat | 2 <= c < |fs.vol.data| + 2 && Table(fs.vol)[c] != FREE && Table(fs.vol)[c] < BAD ::
          2 <= Table(fs.vol)[c] < |fs.vol.data| + 2 && Table(fs.vol)[Table(fs.vol)[c]] != FREE)
    && (forall c: nat :: Ends(fs.vol, c))
  }

  lemma SoundFat(fs: Fs)
    requires FsOk(fs)
    ensures FatSound(fs)
  {
    FsMeaning(fs);
    forall c: nat ensures Ends(fs.vol, c) {
      WalkEnds(fs, c);
    }
    forall c: nat | 2 <= c < |fs.vol.data| + 2 && Table(fs.vol)[c] != FREE && Table(fs.vol)[c] < BAD
      ensures 2 <= Table(fs.vol)[c] < |fs.vol.data| + 2 && Table(fs.vol)[Table(fs.vol)[c]] != FREE
    {
      NoDangling(Table(fs.vol), fs.chains, c);
    }
  }

  /** In every state a run reaches, the FAT is sound and no reserved bit has changed. */
  lemma EveryRunSound(s: Sys, events: seq<Event>)
    requires SysOk(s) && Possible(s, events)
    ensures FatSound(Run(s, events).fs) && TopBitsKept(s.fs.vol, Run(s, events).fs.vol)
  {
    RunKeeps(s, events);
    SysMeaning(Run(s, events));
    SoundFat(Run(s, events).fs);
  }
}
