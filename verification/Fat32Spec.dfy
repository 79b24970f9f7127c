/**
 * The FAT as a set of linked chains, and the byte stream a chain holds.
 *
 * A volume is the driver's view of the disk: the FAT copies as 32-bit words and the
 * data clusters as byte strings.  Cluster numbers start at 2.
 */
module Fat32Spec {
  import opened Bytes

  const FREE: nat := 0
  const BAD: nat := 0x0FFF_FFF7
  const EOC_MIN: nat := 0x0FFF_FFF8
  const EOC_MAX: nat := 0x0FFF_FFFF
  const LOW_BITS: nat := 0x1000_0000

  datatype Volume = Volume(bpc: nat, fats: seq<seq<u32>>, data: seq<seq<byte>>)

  /** Every copy has a word for every cluster, and cluster numbers stay below the special marks. */
  ghost predicate Shaped(v: Volume) {
    && 0 < |v.fats|
    && |v.data| + 2 <= BAD
    && (forall k | 0 <= k < |v.fats| :: |v.fats[k]| == |v.data| + 2)
    && (forall i | 0 <= i < |v.data| :: |v.data[i]| == v.bpc)
    && 0 < v.bpc
  }

  function Low(w: u32): nat {
    w % LOW_BITS
  }

  function High(w: u32): nat {
    w / LOW_BITS
  }

  /** The word a FAT write leaves: its own top four bits, the value's low 28. */
  function Merged(w: u32, value: nat): (r: u32)
    requires value < LOW_BITS
    ensures Low(r) == value && High(r) == High(w)
  {
    High(w) * LOW_BITS + value
  }

  /** The low 28 bits of the first copy: the table the chains are threaded through. */
  function Table(v: Volume): (t: seq<nat>)
    ensures |v.fats| > 0 ==> |t| == |v.fats[0]| && forall c | 0 <= c < |t| :: t[c] == Low(v.fats[0][c])
  {
    if v.fats == [] then [] else seq(|v.fats[0]|, c requires 0 <= c < |v.fats[0]| => Low(v.fats[0][c]))
  }

  ghost predicate Mirrored(v: Volume) {
    forall k, c | 0 <= k < |v.fats| && 0 <= c < |v.fats[k]| :: c < |v.fats[0]| && Low(v.fats[k][c]) == Low(v.fats[0][c])
  }

  /** No copy changed the four reserved bits of any word. */
  ghost predicate TopBitsKept(v: Volume, w: Volume) {
    && |w.fats| == |v.fats|
    && (forall k | 0 <= k < |v.fats| :: |w.fats[k]| == |v.fats[k]|)
    && forall k, c | 0 <= k < |v.fats| && 0 <= c < |v.fats[k]| :: High(w.fats[k][c]) == High(v.fats[k][c])
  }

  function WithEntry(v: Volume, c: nat, value: nat): (w: Volume)
    requires value < LOW_BITS
  {
    v.(fats := seq(|v.fats|, k requires 0 <= k < |v.fats| =>
      if c < |v.fats[k]| then v.fats[k][c := Merged(v.fats[k][c], value)] else v.fats[k]))
  }

  function Cluster(v: Volume, c: nat): seq<byte> {
    if 2 <= c < |v.data| + 2 then v.data[c - 2] else []
  }

  function WithCluster(v: Volume, c: nat, b: seq<byte>): (w: Volume)
    requires 2 <= c < |v.data| + 2
  {
    v.(data := v.data[c - 2 := b])
  }

  // ---------------------------------------------------------------------------
  // Writing one entry or one cluster
  // ---------------------------------------------------------------------------

  /** A FAT write changes one 28-bit entry in every copy alike and no reserved bit anywhere. */
  lemma EntryWritten(v: Volume, c: nat, value: nat)
    requires Shaped(v) && c < |v.data| + 2 && value < LOW_BITS
    ensures var w := WithEntry(v, c, value);
      && Shaped(w) && w.data == v.data
      && Table(w) == Table(v)[c := value]
      && (Mirrored(v) ==> Mirrored(w))
      && TopBitsKept(v, w)
  {
    var w := WithEntry(v, c, value);
    assert Table(w) == Table(v)[c := value];
  }

  lemma ClusterWritten(v: Volume, c: nat, b: seq<byte>)
    requires Shaped(v) && 2 <= c < |v.data| + 2 && |b| == v.bpc
    ensures var w := WithCluster(v, c, b);
      && Shaped(w) && Table(w) == Table(v) && (Mirrored(v) ==> Mirrored(w))
      && Cluster(w, c) == b
      && forall d: nat | d != c :: Cluster(w, d) == Cluster(v, d)
  {
  }

  // ---------------------------------------------------------------------------
  // Chains
  // ---------------------------------------------------------------------------

  /** Every chain by its first cluster. */
  type Chains = map<nat, seq<nat>>

  /** Entry `i` of chain `p` leads to entry `i + 1`, or ends the chain. */
  ghost predicate Follows(t: seq<nat>, p: seq<nat>, i: nat)
    requires i < |p|
  {
    && 2 <= p[i] < |t|
    && if i + 1 < |p| then t[p[i]] == p[i + 1] else EOC_MIN <= t[p[i]]
  }

  ghost predicate Linked(t: seq<nat>, p: seq<nat>) {
    p != [] && forall i: nat {:trigger Follows(t, p, i)} | i < |p| :: Follows(t, p, i)
  }

  ghost predicate AllLinked(t: seq<nat>, ch: Chains) {
    forall a | a in ch :: Linked(t, ch[a]) && ch[a][0] == a
  }

  /** No cluster occurs twice, neither within a chain nor in two chains. */
  ghost predicate Separate(ch: Chains) {
    forall a, b, i, j | a in ch && b in ch && 0 <= i < |ch[a]| && 0 <= j < |ch[b]| && ch[a][i] == ch[b][j] ::
      a == b && i == j
  }

  ghost predicate Owned(ch: Chains, c: nat) {
    exists a :: a in ch && c in ch[a]
  }

  ghost predicate Covered(t: seq<nat>, ch: Chains) {
    forall c: nat | 2 <= c < |t| && t[c] != FREE && t[c] != BAD :: Owned(ch, c)
  }

  /** The table is exactly the chains: disjoint, acyclic, ended, and nothing else is in use. */
  ghost predicate Threaded(t: seq<nat>, ch: Chains) {
    |t| <= BAD && AllLinked(t, ch) && Separate(ch) && Covered(t, ch)
  }

  lemma MemberFollows(t: seq<nat>, ch: Chains, a: nat, i: nat)
    requires AllLinked(t, ch) && a in ch && i < |ch[a]|
    ensures Follows(t, ch[a], i)
  {
    assert Linked(t, ch[a]);
  }

  /** A free cluster belongs to no chain. */
  lemma FreeUnowned(t: seq<nat>, ch: Chains, c: nat)
    requires |t| <= BAD && AllLinked(t, ch) && c < |t| && t[c] == FREE
    ensures !Owned(ch, c)
  {
    forall a, i: nat | a in ch && i < |ch[a]| ensures ch[a][i] != c {
      MemberFollows(t, ch, a, i);
      if i + 1 < |ch[a]| {
        MemberFollows(t, ch, a, i + 1);
      }
    }
  }

  /** No entry points at a free cluster, at a bad one or outside the table. */
  lemma NoDangling(t: seq<nat>, ch: Chains, c: nat)
    requires Threaded(t, ch) && 2 <= c < |t| && t[c] != FREE && t[c] < BAD
    ensures 2 <= t[c] < |t| && t[t[c]] != FREE && t[t[c]] != BAD
  {
    assert Owned(ch, c);
    var a :| a in ch && c in ch[a];
    var i: nat :| i < |ch[a]| && ch[a][i] == c;
    MemberFollows(t, ch, a, i);
    MemberFollows(t, ch, a, i + 1);
    if i + 2 < |ch[a]| {
      MemberFollows(t, ch, a, i + 2);
    }
  }

  lemma UnownedFresh(ch: Chains, c: nat)
    requires !Owned(ch, c)
    ensures forall a, i: nat | a in ch && i < |ch[a]| :: ch[a][i] != c
  {
    forall a, i: nat | a in ch && i < |ch[a]| ensures ch[a][i] != c {
      assert ch[a][i] in ch[a];
    }
  }

  /** A change to an entry outside the chain keeps the chain. */
  lemma LinkedElsewhere(t: seq<nat>, p: seq<nat>, c: nat, value: nat)
    requires Linked(t, p) && c < |t| && c !in p
    ensures Linked(t[c := value], p)
  {
    var u := t[c := value];
    forall i: nat | i < |p| ensures Follows(u, p, i) {
      assert Follows(t, p, i);
      assert p[i] in p;
    }
  }

  /** Marking a free cluster as an end of chain adds the one-cluster chain. */
  lemma AllocKeeps(t: seq<nat>, ch: Chains, c: nat)
    requires Threaded(t, ch) && 2 <= c < |t| && t[c] == FREE
    ensures c !in ch
    ensures Threaded(t[c := EOC_MAX], ch[c := [c]])
  {
    var u, ch' := t[c := EOC_MAX], ch[c := [c]];
    FreeUnowned(t, ch, c);
    UnownedFresh(ch, c);
    forall a | a in ch ensures a != c {
      assert Linked(t, ch[a]) && ch[a][0] == a;
    }
    forall a | a in ch' ensures Linked(u, ch'[a]) && ch'[a][0] == a {
      if a == c {
        assert Follows(u, [c], 0);
      } else {
        LinkedElsewhere(t, ch[a], c, EOC_MAX);
      }
    }
    forall d: nat | 2 <= d < |u| && u[d] != FREE && u[d] != BAD ensures Owned(ch', d) {
      if d == c {
        assert c in ch'[c];
      } else {
        assert Owned(ch, d);
        var a :| a in ch && d in ch[a];
        assert d in ch'[a];
      }
    }
  }

  function Last(p: seq<nat>): nat
    requires p != []
  {
    p[|p| - 1]
  }

  function Joined(ch: Chains, a: nat, n: nat): Chains
    requires a in ch && n in ch
  {
    (ch - {n})[a := ch[a] + ch[n]]
  }

  lemma LinkedJoined(t: seq<nat>, p: seq<nat>, q: seq<nat>)
    requires Linked(t, p) && Linked(t, q) && Last(p) !in q
    requires forall i: nat | i + 1 < |p| :: p[i] != Last(p)
    ensures Last(p) < |t| && Linked(t[Last(p) := q[0]], p + q)
  {
    assert Follows(t, p, |p| - 1);
    var u := t[Last(p) := q[0]];
    forall i: nat | i < |p + q| ensures Follows(u, p + q, i) {
      if i < |p| {
        assert Follows(t, p, i);
        if |p| <= i + 1 {
          assert (p + q)[i + 1] == q[0];
        }
      } else {
        assert Follows(t, q, i - |p|);
        assert q[i - |p|] in q;
      }
    }
  }

  lemma SeparateJoined(ch: Chains, a: nat, n: nat)
    requires Separate(ch) && a in ch && n in ch && a != n
    ensures Separate(Joined(ch, a, n))
  {
    var ch' := Joined(ch, a, n);
    forall x, y, i, j | x in ch' && y in ch' && 0 <= i < |ch'[x]| && 0 <= j < |ch'[y]| && ch'[x][i] == ch'[y][j]
      ensures x == y && i == j
    {
      var (x0, i0) := if x != a then (x, i) else if i < |ch[a]| then (a, i) else (n, i - |ch[a]|);
      var (y0, j0) := if y != a then (y, j) else if j < |ch[a]| then (a, j) else (n, j - |ch[a]|);
      assert ch[x0][i0] == ch[y0][j0];
    }
  }

  /** Pointing the end of one chain at the start of another joins the two. */
  lemma LinkKeeps(t: seq<nat>, ch: Chains, a: nat, n: nat)
    requires Threaded(t, ch) && a in ch && n in ch && a != n
    ensures ch[a] != [] && Last(ch[a]) < |t| && Threaded(t[Last(ch[a]) := n], Joined(ch, a, n))
  {
    var p, q := ch[a], ch[n];
    assert Linked(t, p) && Linked(t, q);
    var l := Last(p);
    assert Follows(t, p, |p| - 1);
    forall b, i: nat | b in ch && i < |ch[b]| && !(b == a && i == |p| - 1) ensures ch[b][i] != l {
    }
    LinkedJoined(t, p, q);
    SeparateJoined(ch, a, n);
    var u, ch' := t[l := n], Joined(ch, a, n);
    forall b | b in ch' ensures Linked(u, ch'[b]) && ch'[b][0] == b {
      if b != a {
        LinkedElsewhere(t, ch[b], l, n);
      }
    }
    forall d: nat | 2 <= d < |u| && u[d] != FREE && u[d] != BAD ensures Owned(ch', d) {
      assert d != l ==> Owned(ch, d);
      if d == l {
        assert p[|p| - 1] in ch'[a];
      } else {
        var b :| b in ch && d in ch[b];
        if b == n {
          assert d in ch'[a];
        } else {
          assert d in ch'[b];
        }
      }
    }
  }

  // ---------------------------------------------------------------------------
  // Free clusters
  // ---------------------------------------------------------------------------

  /** How many of clusters 2 .. n - 1 are free. */
  function FreeBelow(t: seq<nat>, n: nat): nat
    requires n <= |t|
  {
    if n <= 2 then 0 else FreeBelow(t, n - 1) + (if t[n - 1] == FREE then 1 else 0)
  }

  function FreeCount(t: seq<nat>): nat {
    FreeBelow(t, |t|)
  }

  lemma {:induction false} FreeUpdate(t: seq<nat>, c: nat, value: nat, n: nat)
    requires 2 <= c < |t| && n <= |t|
    ensures FreeBelow(t[c := value], n) ==
      FreeBelow(t, n) - (if c < n && t[c] == FREE then 1 else 0) + (if c < n && value == FREE then 1 else 0)
  {
    if n > 2 {
      FreeUpdate(t, c, value, n - 1);
    }
  }

  lemma {:induction false} NoneFree(t: seq<nat>, n: nat)
    requires n <= |t|
    ensures FreeBelow(t, n) == 0 <==> forall c | 2 <= c < n :: t[c] != FREE
  {
    if n > 2 {
      NoneFree(t, n - 1);
    }
  }

  // ---------------------------------------------------------------------------
  // The bytes of a chain
  // ---------------------------------------------------------------------------

  /** The clusters of `p` one after the other. */
  function Stream(v: Volume, p: seq<nat>): seq<byte> {
    if p == [] then [] else Cluster(v, p[0]) + Stream(v, p[1..])
  }

  ghost predicate Within(v: Volume, p: seq<nat>) {
    forall i | 0 <= i < |p| :: 2 <= p[i] < |v.data| + 2
  }

  lemma {:induction false} StreamLength(v: Volume, p: seq<nat>)
    requires Shaped(v) && Within(v, p)
    ensures |Stream(v, p)| == |p| * v.bpc
  {
    if p != [] {
      StreamLength(v, p[1..]);
      assert |p| * v.bpc == v.bpc + (|p| - 1) * v.bpc;
    }
  }

  lemma {:induction false} StreamAppend(v: Volume, p: seq<nat>, q: seq<nat>)
    ensures Stream(v, p + q) == Stream(v, p) + Stream(v, q)
  {
    if p == [] {
      assert p + q == q;
    } else {
      assert (p + q)[1..] == p[1..] + q;
      StreamAppend(v, p[1..], q);
    }
  }

  lemma {:induction false} StreamSame(v: Volume, w: Volume, p: seq<nat>)
    requires forall i | 0 <= i < |p| :: Cluster(v, p[i]) == Cluster(w, p[i])
    ensures Stream(v, p) == Stream(w, p)
  {
    if p != [] {
      StreamSame(v, w, p[1..]);
    }
  }

  lemma StreamParts(v: Volume, p: seq<nat>, i: nat)
    requires i < |p|
    ensures Stream(v, p) == Stream(v, p[..i]) + Cluster(v, p[i]) + Stream(v, p[i + 1..])
  {
    var c, q := p[i..i + 1], p[i + 1..];
    assert p == p[..i] + (c + q);
    StreamAppend(v, p[..i], c + q);
    StreamAppend(v, c, q);
    assert c[1..] == [];
    assert Stream(v, c) == Cluster(v, p[i]) + Stream(v, []);
  }

  lemma PrefixLength(v: Volume, p: seq<nat>, i: nat)
    requires Shaped(v) && Within(v, p) && i <= |p|
    ensures |Stream(v, p[..i])| == Times(i, v.bpc)
  {
    StreamLength(v, p[..i]);
    TimesIsProduct(i, v.bpc);
  }

  /** The `i`-th cluster of a chain is the `i`-th stretch of its bytes. */
  lemma StreamSlice(v: Volume, p: seq<nat>, i: nat, start: nat)
    requires Shaped(v) && Within(v, p) && i < |p| && start == Times(i, v.bpc)
    ensures start + v.bpc <= |Stream(v, p)|
    ensures Stream(v, p)[start..start + v.bpc] == Cluster(v, p[i])
  {
    StreamParts(v, p, i);
    PrefixLength(v, p, i);
  }

  /** The bytes of `s` with `b` written over them from `pos` on. */
  function Overwritten<T>(s: seq<T>, pos: nat, b: seq<T>): seq<T>
    requires pos <= |s|
  {
    s[..pos] + b + (if pos + |b| < |s| then s[pos + |b|..] else [])
  }

  lemma OverwrittenMiddle<T>(a: seq<T>, c: seq<T>, d: seq<T>, b: seq<T>)
    requires |b| == |c|
    ensures |a| <= |a + c + d| && Overwritten(a + c + d, |a|, b) == a + b + d
  {
  }

  lemma StreamReplaced(v: Volume, p: seq<nat>, i: nat, b: seq<byte>)
    requires Within(v, p) && i < |p|
    requires forall j | 0 <= j < |p| && j != i :: p[j] != p[i]
    ensures Stream(WithCluster(v, p[i], b), p) == Stream(v, p[..i]) + b + Stream(v, p[i + 1..])
  {
    var w := WithCluster(v, p[i], b);
    StreamParts(w, p, i);
    StreamSame(v, w, p[..i]);
    StreamSame(v, w, p[i + 1..]);
  }

  /** Writing one cluster of a chain overwrites that stretch of the chain's bytes. */
  lemma StreamPatched(v: Volume, p: seq<nat>, i: nat, start: nat, b: seq<byte>)
    requires Shaped(v) && Within(v, p) && i < |p| && |b| == v.bpc && start == Times(i, v.bpc)
    requires forall j | 0 <= j < |p| && j != i :: p[j] != p[i]
    ensures start <= |Stream(v, p)|
    ensures Stream(WithCluster(v, p[i], b), p) == Overwritten(Stream(v, p), start, b)
  {
    StreamParts(v, p, i);
    StreamReplaced(v, p, i, b);
    PrefixLength(v, p, i);
    OverwrittenMiddle(Stream(v, p[..i]), Cluster(v, p[i]), Stream(v, p[i + 1..]), b);
  }

  lemma OverwrittenNone<T>(s: seq<T>, pos: nat)
    requires pos <= |s|
    ensures Overwritten(s, pos, []) == s
  {
  }

  /** A second overwrite that starts where the first ended extends it. */
  lemma OverwrittenTwice<T>(s: seq<T>, pos: nat, a: seq<T>, b: seq<T>)
    requires pos + |a| + |b| <= |s|
    ensures |Overwritten(s, pos, a)| == |s|
    ensures Overwritten(Overwritten(s, pos, a), pos + |a|, b) == Overwritten(s, pos, a + b)
  {
  }

  /** Overwriting a stretch with itself patched at `off` is overwriting at `start + off`. */
  lemma OverwrittenInside<T>(s: seq<T>, start: nat, n: nat, off: nat, b: seq<T>)
    requires start + n <= |s| && off + |b| <= n
    ensures Overwritten(s, start, Overwritten(s[start..start + n], off, b)) == Overwritten(s, start + off, b)
  {
    var inner := Overwritten(s[start..start + n], off, b);
    assert |inner| == n;
    var x, y := Overwritten(s, start, inner), Overwritten(s, start + off, b);
    assert |x| == |s| == |y|;
    forall k | 0 <= k < |s| ensures x[k] == y[k] {
    }
  }
}
