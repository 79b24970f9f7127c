/**
 * The on-disk format in numbers: what the bytes of names, entries, FAT words and paths stand for.
 * Each definition says when bytes mean something, and a lemma says that the model reads them so.
 */
module Fat32Bytes {
  import opened Bytes
  import opened Fat32Spec
  import opened Fat32Tree
  import opened Fat32Names
  import opened Fat32Layout
  import opened Fat32Reach

  // ---------------------------------------------------------------------------
  // Short names
  // ---------------------------------------------------------------------------

  function Capital(c: byte): byte {
    if 97 <= c <= 122 then c - 32 else c
  }

  /** Byte `dot` of the name is its first dot, or there is none. */
  ghost predicate SplitsAt(comp: seq<byte>, dot: nat) {
    dot <= |comp| && (forall i: nat :: i < dot ==> comp[i] != 46) && (dot < |comp| ==> comp[dot] == 46)
  }

  /** Eight capitals of the part before the first dot and three of the part after it, filled up with blanks. */
  ghost predicate ShortAt(comp: seq<byte>, dot: nat, name: seq<byte>) {
    && SplitsAt(comp, dot) && dot <= 8 && |comp| <= dot + 4 && |name| == 11
    && (forall i: nat :: i < 8 ==> name[i] == if i < dot then Capital(comp[i]) else 32)
    && (forall i: nat :: 8 <= i < 11 ==> name[i] == if dot + (i - 7) < |comp| then Capital(comp[dot + (i - 7)]) else 32)
  }

  ghost predicate ShortFor(comp: seq<byte>, name: seq<byte>) {
    exists dot: nat :: ShortAt(comp, dot, name)
  }

  lemma ShortIs(comp: seq<byte>, name: seq<byte>)
    ensures ShortFor(comp, name) <==> Formatted(comp) == Some(name)
  {
    var dot := FirstDot(comp);
    assert SplitsAt(comp, dot) by {
      forall i: nat | i < dot ensures comp[i] != 46 { assert comp[i] == comp[..dot][i]; }
    }
    forall d: nat | SplitsAt(comp, d) ensures d == dot {
      assert DOT !in comp[..d];
      DotUnique(comp, d);
    }
    ShortWith(comp, dot, name);
  }

  lemma ShortWith(comp: seq<byte>, dot: nat, name: seq<byte>)
    requires dot == FirstDot(comp) && SplitsAt(comp, dot)
    ensures ShortAt(comp, dot, name) <==> Formatted(comp) == Some(name)
  {
    if ShortAt(comp, dot, name) {
      var full := Formatted(comp).value;
      forall i | 0 <= i < 11 ensures name[i] == full[i] {
      }
      assert name == full;
    }
  }

  // ---------------------------------------------------------------------------
  // Directory entries
  // ---------------------------------------------------------------------------

  /** Entry `i` of a directory is in use: no entry up to it starts with 0, and it is neither deleted nor part of a long name. */
  ghost predicate InUse(b: seq<byte>, i: nat) {
    && 32 * i + 32 <= |b| && (forall j: nat :: j <= i ==> FirstByte(b, j) != 0)
    && FirstByte(b, i) != 0xE5 && b[32 * i + 11] != 0x0F
  }

  function FirstByte(b: seq<byte>, j: nat): byte {
    if 32 * j + 32 <= |b| then b[32 * j] else 0
  }

  ghost predicate Bears(b: seq<byte>, name: seq<byte>, i: nat) {
    InUse(b, i) && b[32 * i..32 * i + 11] == name
  }

  /** Entry `i` is the first that is in use and bears the name. */
  ghost predicate FirstNamed(b: seq<byte>, name: seq<byte>, i: nat) {
    Bears(b, name, i) && forall j: nat :: j < i ==> !Bears(b, name, j)
  }

  lemma BearsIs(b: seq<byte>, name: seq<byte>, i: nat)
    ensures Bears(b, name, i) <==> Matches(b, name, i)
  {
    if 32 * i + 32 <= |b| {
      assert EntryAt(b, i)[..11] == b[32 * i..32 * i + 11];
      forall j: nat | j <= i ensures 32 * j + 32 <= |b| && FirstByte(b, j) == Mark(b, j) {
      }
    }
  }

  lemma FindIs(b: seq<byte>, name: seq<byte>, i: nat)
    ensures Find(b, name) == Some(i) <==> FirstNamed(b, name, i)
    ensures Find(b, name).None? <==> forall j: nat :: !Bears(b, name, j)
  {
    FindMeaning(b, name);
    forall j: nat ensures Bears(b, name, j) <==> Matches(b, name, j) { BearsIs(b, name, j); }
  }

  /** The first cluster, from bytes 20, 21, 26 and 27. */
  function ClusterIn(b: seq<byte>, i: nat): nat
    requires 32 * i + 32 <= |b|
  {
    var at := 32 * i;
    b[at + 26] as nat + 0x100 * b[at + 27] as nat + 0x1_0000 * b[at + 20] as nat + 0x100_0000 * b[at + 21] as nat
  }

  /** The size, from bytes 28 to 31. */
  function SizeIn(b: seq<byte>, i: nat): nat
    requires 32 * i + 32 <= |b|
  {
    var at := 32 * i;
    b[at + 28] as nat + 0x100 * b[at + 29] as nat + 0x1_0000 * b[at + 30] as nat + 0x100_0000 * b[at + 31] as nat
  }

  /** The directory bit of byte 11. */
  predicate DirectoryIn(b: seq<byte>, i: nat)
    requires 32 * i + 32 <= |b|
  {
    b[32 * i + 11] / 16 % 2 == 1
  }

  lemma EntryIs(b: seq<byte>, i: nat)
    requires 32 * i + 32 <= |b|
    ensures var e := EntryAt(b, i);
      && First(e) == ClusterIn(b, i) && Size(e) == SizeIn(b, i) && (IsDir(e) <==> DirectoryIn(b, i))
      && Name(e) == b[32 * i..32 * i + 11] && Attr(e) == b[32 * i + 11]
  {
    var e := EntryAt(b, i);
    LeValue4(e[28..32]);
    assert e[..11] == b[32 * i..32 * i + 11];
  }

  // ---------------------------------------------------------------------------
  // FAT words and clusters on the disk
  // ---------------------------------------------------------------------------

  /** The little-endian word at `o`. */
  function Le4(s: Sector, o: nat): nat
    requires o + 4 <= 512
  {
    s[o] as nat + 0x100 * s[o + 1] as nat + 0x1_0000 * s[o + 2] as nat + 0x100_0000 * s[o + 3] as nat
  }

  /** Word `c` of FAT copy `k`: four bytes to a word, 128 words to a sector, the copies behind the reserved sectors. */
  lemma WordOnDisk(g: Geometry, disk: seq<Sector>, k: nat, c: nat, s: nat)
    requires DiskOk(g, disk) && k < g.numFats && c < g.Clusters() + 2 && s == g.reserved + k * g.fatSize + c / 128
    ensures s < |disk| && View(g, disk).fats[k][c] == Le4(disk[s], 4 * (c % 128))
  {
    ViewWord(g, disk, k, c);
    assert 4 * c / SECTOR == c / 128 && 4 * c % SECTOR == 4 * (c % 128);
    LeValue4(disk[s][4 * c % SECTOR..4 * c % SECTOR + 4]);
  }

  lemma {:induction false} FlatAt(sectors: seq<Sector>, o: nat)
    requires o < |sectors| * 512
    ensures o / 512 < |sectors| && Flat(sectors)[o] == sectors[o / 512][o % 512]
  {
    if o >= 512 {
      FlatAt(sectors[1..], o - 512);
      assert (o - 512) / 512 == o / 512 - 1 && (o - 512) % 512 == o % 512;
    }
  }

  /** Byte `o` of cluster `c`: the clusters lie behind the FAT copies, the first one being number 2. */
  lemma ClusterOnDisk(g: Geometry, disk: seq<Sector>, c: nat, o: nat)
    requires DiskOk(g, disk) && 2 <= c < g.Clusters() + 2 && o < g.spc * 512
    ensures var s := g.reserved + g.numFats * g.fatSize + (c - 2) * g.spc + o / 512;
      && |Cluster(View(g, disk), c)| == g.spc * 512 && s < |disk| && Cluster(View(g, disk), c)[o] == disk[s][o % 512]
  {
    ClusterSectorBounds(g, c);
    FlatAt(disk[g.ClusterSector(c)..g.ClusterSector(c) + g.spc], o);
  }

  /** The low 28 bits of a word lead on; 0 is free, 0x0FFFFFF7 is bad, and all above ends the chain. */
  lemma NextIs(v: Volume, c: nat)
    requires Shaped(v) && 2 <= c < |v.data| + 2
    ensures var low := v.fats[0][c] % 0x1000_0000;
      NextOf(v, c) == if low == 0 || low >= 0x0FFF_FFF7 then 0 else low
  {
  }

  // ---------------------------------------------------------------------------
  // Paths
  // ---------------------------------------------------------------------------

  /** The path walk takes a component without slashes whole. */
  lemma {:induction false} SplitWord(v: Volume, d: nat, w: seq<byte>, rest: seq<byte>, comp: seq<byte>)
    requires SLASH !in w
    ensures Split(v, d, w + rest, comp) == Split(v, d, rest, comp + w)
    decreases |w|
  {
    if w == [] {
      assert w + rest == rest && comp + w == comp;
    } else {
      assert (w + rest)[1..] == w[1..] + rest;
      assert comp + [w[0]] + w[1..] == comp + w;
      SplitWord(v, d, w[1..], rest, comp + [w[0]]);
    }
  }

  lemma SplitAtSlash(v: Volume, d: nat, w: seq<byte>, rest: seq<byte>)
    requires SLASH !in w && w != []
    ensures Split(v, d, w + [SLASH] + rest, [])
         == match Descend(v, d, w) case None => None case Some(next) => Split(v, next, rest, [])
  {
    assert w + [SLASH] + rest == w + ([SLASH] + rest);
    SplitWord(v, d, w, [SLASH] + rest, []);
    assert [] + w == w && ([SLASH] + rest)[1..] == rest;
  }

  lemma SplitLast(v: Volume, d: nat, name: seq<byte>)
    requires SLASH !in name && name != []
    ensures Split(v, d, name, []) == Some((d, name))
  {
    assert name + [] == name && [] + name == name;
    SplitWord(v, d, name, [], []);
  }

  /** A nonempty string without slashes. */
  predicate IsWord(w: seq<byte>) {
    w != [] && 47 !in w
  }

  /** The path is the words and then `last`, with at least one slash between any two and any number in front. */
  ghost predicate Joins(path: seq<byte>, words: seq<seq<byte>>, last: seq<byte>)
    decreases |path|
  {
    if path == [] then false
    else if path[0] == 47 then Joins(path[1..], words, last)
    else if words == [] then path == last && IsWord(path)
    else
      var n := |words[0]|;
      n < |path| && IsWord(words[0]) && path[..n] == words[0] && path[n] == 47 && Joins(path[n + 1..], words[1..], last)
  }

  /** Directory `dir` has a subdirectory of that name, at cluster `next`. */
  ghost predicate Enters(v: Volume, dir: nat, comp: seq<byte>, next: nat) {
    var b := Cluster(v, dir);
    exists name: seq<byte>, i: nat ::
      ShortFor(comp, name) && FirstNamed(b, name, i) && DirectoryIn(b, i) && ClusterIn(b, i) == next
  }

  /** The words lead from directory `dir` to directory `d`. */
  ghost predicate Reaches(v: Volume, dir: nat, words: seq<seq<byte>>, d: nat)
    decreases |words|
  {
    if words == [] then d == dir
    else exists next: nat :: Enters(v, dir, words[0], next) && Reaches(v, next, words[1..], d)
  }

  lemma EntersIs(v: Volume, dir: nat, comp: seq<byte>, next: nat)
    ensures Enters(v, dir, comp, next) <==> Descend(v, dir, comp) == Some(next)
  {
    var b := Cluster(v, dir);
    forall name: seq<byte> ensures ShortFor(comp, name) <==> Formatted(comp) == Some(name) { ShortIs(comp, name); }
    forall name: seq<byte>, i: nat ensures FirstNamed(b, name, i) <==> Find(b, name) == Some(i) { FindIs(b, name, i); }
    if Formatted(comp).Some? && Find(b, Formatted(comp).value).Some? {
      var name := Formatted(comp).value;
      var i := Find(b, name).value;
      assert ShortFor(comp, name) && FirstNamed(b, name, i);
      EntryIs(b, i);
    }
  }

  lemma {:induction false} JoinsSplit(v: Volume, dir: nat, path: seq<byte>, words: seq<seq<byte>>, d: nat, last: seq<byte>)
    requires Joins(path, words, last) && Reaches(v, dir, words, d)
    ensures Split(v, dir, path, []) == Some((d, last))
    decreases |path|
  {
    if path[0] == 47 {
      JoinsSplit(v, dir, path[1..], words, d, last);
    } else if words == [] {
      SplitLast(v, dir, path);
    } else {
      var w := words[0];
      var rest := path[|w| + 1..];
      assert path == w + [SLASH] + rest;
      SplitAtSlash(v, dir, w, rest);
      var next: nat :| Enters(v, dir, w, next) && Reaches(v, next, words[1..], d);
      EntersIs(v, dir, w, next);
      JoinsSplit(v, next, rest, words[1..], d, last);
    }
  }

  lemma {:induction false} FirstSlash(path: seq<byte>) returns (n: nat)
    ensures n <= |path| && 47 !in path[..n] && (n < |path| ==> path[n] == 47)
  {
    n := 0;
    while n < |path| && path[n] != 47
      invariant n <= |path| && 47 !in path[..n]
    {
      n := n + 1;
    }
  }

  lemma {:induction false} SplitJoins(v: Volume, dir: nat, path: seq<byte>) returns (words: seq<seq<byte>>)
    requires Split(v, dir, path, []).Some?
    ensures var (d, last) := Split(v, dir, path, []).value;
      Joins(path, words, last) && Reaches(v, dir, words, d)
    decreases |path|
  {
    if path[0] == 47 {
      words := SplitJoins(v, dir, path[1..]);
    } else {
      var n := FirstSlash(path);
      var w := path[..n];
      if n == |path| {
        assert w == path;
        SplitLast(v, dir, path);
        words := [];
      } else {
        var rest := path[n + 1..];
        assert path == w + [SLASH] + rest;
        SplitAtSlash(v, dir, w, rest);
        var next := Descend(v, dir, w).value;
        EntersIs(v, dir, w, next);
        var more := SplitJoins(v, next, rest);
        words := [w] + more;
        assert words[1..] == more;
      }
    }
  }

  /** Where a path starts: at the root if its first byte is a slash, else at the current directory. */
  function StartsAt(root: nat, cur: nat, path: seq<byte>): nat {
    if |path| > 0 && path[0] == 47 then root else cur
  }

  lemma ResolveIs(v: Volume, root: nat, cur: nat, path: seq<byte>)
    ensures Resolve(v, root, cur, path) == Split(v, StartsAt(root, cur, path), path, [])
  {
  }

  /** For every path: it resolves to a directory and a name exactly when its words lead there. */
  lemma PathIs(v: Volume, root: nat, cur: nat, path: seq<byte>, d: nat, name: seq<byte>)
    ensures Resolve(v, root, cur, path) == Some((d, name)) <==>
      exists words: seq<seq<byte>> :: Joins(path, words, name) && Reaches(v, StartsAt(root, cur, path), words, d)
  {
    var dir := StartsAt(root, cur, path);
    ResolveIs(v, root, cur, path);
    if Split(v, dir, path, []) == Some((d, name)) {
      var words := SplitJoins(v, dir, path);
      assert Joins(path, words, name) && Reaches(v, dir, words, d);
    }
    forall words: seq<seq<byte>> | Joins(path, words, name) && Reaches(v, dir, words, d)
      ensures Split(v, dir, path, []) == Some((d, name))
    {
      JoinsSplit(v, dir, path, words, d, name);
    }
  }

  /** A bare name is looked for in the current directory, whatever the root. */
  lemma BareName(v: Volume, root: nat, cur: nat, name: seq<byte>)
    requires IsWord(name)
    ensures Resolve(v, root, cur, name) == Some((cur, name))
  {
    SplitLast(v, cur, name);
  }

  /** A path that does not begin with a slash does not depend on the root, and one that does not on the current directory. */
  lemma StartMatters(v: Volume, root: nat, cur: nat, path: seq<byte>, other: nat)
    ensures path == [] || path[0] != 47 ==> Resolve(v, root, cur, path) == Resolve(v, other, cur, path)
    ensures path != [] && path[0] == 47 ==> Resolve(v, root, cur, path) == Resolve(v, root, other, path)
  {
  }
}
