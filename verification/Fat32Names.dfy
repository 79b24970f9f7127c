/** Short names, path lookup and directory search. */
module Fat32Names {
  import opened Bytes
  import opened Fat32Spec
  import opened Fat32Tree

  const SLASH: byte := 47
  const DOT: byte := 46
  const SPACE: byte := 32

  // ---------------------------------------------------------------------------
  // Short names
  // ---------------------------------------------------------------------------

  function Upper(c: byte): byte {
    if 97 <= c <= 122 then c - 32 else c
  }

  function UpperAll(s: seq<byte>): (r: seq<byte>)
    ensures |r| == |s|
  {
    seq(|s|, i requires 0 <= i < |s| => Upper(s[i]))
  }

  function Padded(s: seq<byte>, n: nat): (r: seq<byte>)
    requires |s| <= n
    ensures |r| == n
  {
    s + seq(n - |s|, _ => SPACE)
  }

  /** Where the first dot is, or the length if there is none. */
  function FirstDot(s: seq<byte>): (r: nat)
    ensures r <= |s|
    ensures DOT !in s[..r]
    ensures r < |s| ==> s[r] == DOT
  {
    if s == [] || s[0] == DOT then 0
    else
      var r := FirstDot(s[1..]) + 1;
      assert s[..r] == [s[0]] + s[1..][..r - 1];
      r
  }

  function Base(s: seq<byte>): seq<byte> {
    s[..FirstDot(s)]
  }

  function Extension(s: seq<byte>): seq<byte> {
    if FirstDot(s) < |s| then s[FirstDot(s) + 1..] else []
  }

  /** The 11-byte name for a base and an extension, if they fit. */
  function ShortName(base: seq<byte>, ext: seq<byte>): Option<seq<byte>> {
    if |base| <= 8 && |ext| <= 3 then Some(Padded(UpperAll(base), 8) + Padded(UpperAll(ext), 3)) else None
  }

  /** The kernel's short name: the split is at the first dot. */
  function Formatted(s: seq<byte>): Option<seq<byte>> {
    ShortName(Base(s), Extension(s))
  }

  lemma LongUnformatted(s: seq<byte>)
    requires |s| > 12
    ensures Formatted(s) == None
  {
  }

  lemma FormattedLength(s: seq<byte>)
    ensures Formatted(s).Some? ==> |Formatted(s).value| == 11
    ensures Formatted(s).Some? && 0 !in s ==> Formatted(s).value[0] != 0
  {
    if Formatted(s).Some? && 0 !in s && FirstDot(s) > 0 {
      assert Formatted(s).value[0] == Upper(s[0]);
    }
  }

  method FormatName(filename: seq<byte>) returns (formatted: Option<seq<byte>>)
    ensures formatted == Formatted(filename)
  {
    var dot := 0;
    while dot < |filename| && filename[dot] != DOT
      invariant dot <= |filename|
      invariant DOT !in filename[..dot]
    {
      dot := dot + 1;
    }
    DotUnique(filename, dot);
    var base := filename[..dot];
    var ext := if dot < |filename| then filename[dot + 1..] else [];
    if |base| > 8 || |ext| > 3 {
      return None;
    }
    var out := seq(11, _ => SPACE);
    for i := 0 to |base|
      invariant |out| == 11
      invariant forall k | 0 <= k < 11 :: out[k] == if k < i then Upper(base[k]) else SPACE
    {
      out := out[i := Upper(base[i])];
    }
    for i := 0 to |ext|
      invariant |out| == 11
      invariant forall k | 0 <= k < 8 :: out[k] == if k < |base| then Upper(base[k]) else SPACE
      invariant forall k | 8 <= k < 11 :: out[k] == if k - 8 < i then Upper(ext[k - 8]) else SPACE
    {
      out := out[8 + i := Upper(ext[i])];
    }
    assert out == Padded(UpperAll(base), 8) + Padded(UpperAll(ext), 3);
    formatted := Some(out);
  }

  lemma DotUnique(s: seq<byte>, dot: nat)
    requires dot <= |s| && DOT !in s[..dot] && (dot < |s| ==> s[dot] == DOT)
    ensures FirstDot(s) == dot
  {
  }

  // ---------------------------------------------------------------------------
  // Directory search
  // ---------------------------------------------------------------------------

  /** The first live entry of that name at or after `i`. */
  function FindFrom(b: seq<byte>, name: seq<byte>, i: nat): Option<nat>
    decreases |b| - 32 * i
  {
    if |b| < 32 * i + 32 || Mark(b, i) == 0 then None
    else if Mark(b, i) == DELETED || Attr(EntryAt(b, i)) == ATTR_LONG_NAME || Name(EntryAt(b, i)) != name then
      FindFrom(b, name, i + 1)
    else Some(i)
  }

  function Find(b: seq<byte>, name: seq<byte>): Option<nat> {
    FindFrom(b, name, 0)
  }

  ghost predicate Matches(b: seq<byte>, name: seq<byte>, i: nat) {
    Live(b, i) && Name(EntryAt(b, i)) == name
  }

  lemma {:induction false} FindFromMeaning(b: seq<byte>, name: seq<byte>, i: nat)
    requires 32 * i + 32 <= |b| ==> forall j: nat | j < i :: Mark(b, j) != 0
    ensures match FindFrom(b, name, i)
      case None => forall k: nat | i <= k :: !Matches(b, name, k)
      case Some(j) => i <= j && Matches(b, name, j) && forall k: nat | i <= k < j :: !Matches(b, name, k)
    decreases |b| - 32 * i
  {
    if |b| < 32 * i + 32 {
    } else if Mark(b, i) == 0 {
      assert forall k: nat | i <= k && 32 * k + 32 <= |b| :: !Reached(b, k);
    } else {
      assert Reached(b, i);
      FindFromMeaning(b, name, i + 1);
    }
  }

  /** The search finds the first listed entry of that name, and fails only if there is none. */
  lemma FindMeaning(b: seq<byte>, name: seq<byte>)
    ensures match Find(b, name)
      case None => forall k: nat :: !Matches(b, name, k)
      case Some(j) => Matches(b, name, j) && forall k: nat | k < j :: !Matches(b, name, k)
  {
    FindFromMeaning(b, name, 0);
  }

  // ---------------------------------------------------------------------------
  // Paths
  // ---------------------------------------------------------------------------

  /**
   * The directory and last component a path leads to.  `comp` holds the component read so far;
   * every component but the last has to name a directory.
   */
  function Split(v: Volume, dir: nat, path: seq<byte>, comp: seq<byte>): Option<(nat, seq<byte>)>
    decreases |path|
  {
    if path == [] then
      if comp == [] then None else Some((dir, comp))
    else if path[0] != SLASH then Split(v, dir, path[1..], comp + [path[0]])
    else if comp == [] then Split(v, dir, path[1..], [])
    else
      match Descend(v, dir, comp)
      case None => None
      case Some(next) => Split(v, next, path[1..], [])
  }

  function Descend(v: Volume, dir: nat, comp: seq<byte>): Option<nat> {
    match Formatted(comp)
    case None => None
    case Some(name) =>
      match Find(Cluster(v, dir), name)
      case None => None
      case Some(i) =>
        FindFits(Cluster(v, dir), name, 0);
        var e := EntryAt(Cluster(v, dir), i);
        if IsDir(e) then Some(First(e)) else None
  }

  lemma {:induction false} FindFits(b: seq<byte>, name: seq<byte>, i: nat)
    ensures FindFrom(b, name, i).Some? ==> 32 * FindFrom(b, name, i).value + 32 <= |b|
    decreases |b| - 32 * i
  {
    if 32 * i + 32 <= |b| && Mark(b, i) != 0 {
      FindFits(b, name, i + 1);
    }
  }

  /** The slot of the final component in the directory it is looked up in. */
  function Locate(v: Volume, target: Option<(nat, seq<byte>)>): Option<(nat, nat)> {
    match target
    case None => None
    case Some((dir, comp)) =>
      match Formatted(comp)
      case None => None
      case Some(name) =>
        match Find(Cluster(v, dir), name)
        case None => None
        case Some(i) => Some((dir, i))
  }

  function StartOf(root: nat, current: nat, path: seq<byte>): nat {
    if path != [] && path[0] == SLASH then root else current
  }

  function Rest(path: seq<byte>): seq<byte> {
    if path != [] && path[0] == SLASH then path[1..] else path
  }

  /** Path resolution from the root or the current directory. */
  function Resolve(v: Volume, root: nat, current: nat, path: seq<byte>): Option<(nat, seq<byte>)> {
    Split(v, StartOf(root, current, path), Rest(path), [])
  }

  /** A target that no entry can match. */
  predicate Unusable(target: Option<(nat, seq<byte>)>) {
    target.None? || Formatted(target.value.1) == None
  }

  predicate Equivalent(a: Option<(nat, seq<byte>)>, b: Option<(nat, seq<byte>)>) {
    a == b || (Unusable(a) && Unusable(b))
  }

  /** A component past 12 bytes stays unusable however it goes on, so cutting it at 255 changes nothing. */
  lemma {:induction false} SplitLong(v: Volume, dir: nat, path: seq<byte>, comp: seq<byte>)
    requires |comp| > 12
    ensures Unusable(Split(v, dir, path, comp))
    decreases |path|
  {
    LongUnformatted(comp);
    if path != [] && path[0] != SLASH {
      SplitLong(v, dir, path[1..], comp + [path[0]]);
    }
  }
}
