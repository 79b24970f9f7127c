/** The FAT the image builder writes: one run of consecutive clusters per directory and per file. */
module DiskFat {
  import opened Bytes
  import opened Fat32Spec

  /** The clusters from `c` on. */
  function RunOf(c: nat, n: nat): (p: seq<nat>)
    ensures |p| == n && forall i | 0 <= i < n :: p[i] == c + i
  {
    seq(n, i requires 0 <= i < n => c + i)
  }

  /** The entry of cluster `c + i` in a run of `n`. */
  function RunEntry(c: nat, n: nat, i: nat): nat {
    if i + 1 == n then EOC_MAX else c + i + 1
  }

  function CellAfter(t: seq<nat>, c: nat, n: nat, k: nat): nat
    requires k < |t|
  {
    if c <= k < c + n then RunEntry(c, n, k - c) else t[k]
  }

  /** The table with a run written into it. */
  function WithRun(t: seq<nat>, c: nat, n: nat): (r: seq<nat>)
    ensures |r| == |t| && forall k | 0 <= k < |t| :: r[k] == CellAfter(t, c, n, k)
  {
    seq(|t|, k requires 0 <= k < |t| => CellAfter(t, c, n, k))
  }

  ghost predicate FreeRun(t: seq<nat>, c: nat, n: nat) {
    2 <= c && c + n <= |t| && forall k | c <= k < c + n :: t[k] == FREE
  }

  lemma RunLinked(t: seq<nat>, c: nat, n: nat)
    requires FreeRun(t, c, n) && 0 < n && |t| <= BAD
    ensures Linked(WithRun(t, c, n), RunOf(c, n))
  {
    var u, p := WithRun(t, c, n), RunOf(c, n);
    forall i: nat | i < |p| ensures Follows(u, p, i) {
    }
  }

  lemma RunElsewhere(t: seq<nat>, ch: Chains, c: nat, n: nat, a: nat)
    requires Threaded(t, ch) && FreeRun(t, c, n) && a in ch
    ensures Linked(WithRun(t, c, n), ch[a])
    ensures forall i | 0 <= i < |ch[a]| :: !(c <= ch[a][i] < c + n)
  {
    var u, p := WithRun(t, c, n), ch[a];
    assert Linked(t, p);
    forall i: nat | i < |p| ensures !(c <= p[i] < c + n) {
      assert Follows(t, p, i);
      assert p[i] in ch[a];
      if c <= p[i] < c + n {
        FreeUnowned(t, ch, p[i]);
      }
    }
    forall i: nat | i < |p| ensures Follows(u, p, i) {
      assert Follows(t, p, i);
    }
  }

  /** A run written over free clusters adds one chain. */
  lemma RunKeeps(t: seq<nat>, ch: Chains, c: nat, n: nat)
    requires Threaded(t, ch) && FreeRun(t, c, n) && 0 < n
    ensures c !in ch && Threaded(WithRun(t, c, n), ch[c := RunOf(c, n)])
  {
    var u, ch' := WithRun(t, c, n), ch[c := RunOf(c, n)];
    RunLinked(t, c, n);
    forall a | a in ch ensures Linked(u, ch[a]) && a != c && forall i | 0 <= i < |ch[a]| :: !(c <= ch[a][i] < c + n) {
      RunElsewhere(t, ch, c, n, a);
      assert Linked(t, ch[a]) && ch[a][0] == a;
    }
    forall d: nat | 2 <= d < |u| && u[d] != FREE && u[d] != BAD ensures Owned(ch', d) {
      if c <= d < c + n {
        assert RunOf(c, n)[d - c] == d;
        assert d in ch'[c];
      } else {
        assert Owned(ch, d);
        var a :| a in ch && d in ch[a];
        assert d in ch'[a];
      }
    }
  }

  lemma {:induction false} RunFree(t: seq<nat>, c: nat, n: nat, k: nat)
    requires FreeRun(t, c, n) && k <= |t|
    ensures FreeBelow(WithRun(t, c, n), k) == FreeBelow(t, k) - (if k <= c then 0 else if k < c + n then k - c else n)
  {
    if k > 2 {
      RunFree(t, c, n, k - 1);
      assert WithRun(t, c, n)[k - 1] == CellAfter(t, c, n, k - 1);
      assert c <= k - 1 < c + n ==> t[k - 1] == FREE;
    }
  }

  // ---------------------------------------------------------------------------
  // All runs
  // ---------------------------------------------------------------------------

  /** The runs of files of these lengths, one after the other; a file without clusters has none. */
  function WithRuns(t: seq<nat>, c: nat, counts: seq<nat>): (r: seq<nat>)
    ensures |r| == |t|
    decreases |counts|
  {
    if counts == [] then t else WithRuns(WithRun(t, c, counts[0]), c + counts[0], counts[1..])
  }

  function Sum(counts: seq<nat>): nat {
    if counts == [] then 0 else counts[0] + Sum(counts[1..])
  }

  function Chained(ch: Chains, c: nat, counts: seq<nat>): Chains
    decreases |counts|
  {
    if counts == [] then ch
    else Chained(if counts[0] == 0 then ch else ch[c := RunOf(c, counts[0])], c + counts[0], counts[1..])
  }

  lemma WithoutRun(t: seq<nat>, c: nat)
    ensures WithRun(t, c, 0) == t
  {
  }

  /** Files laid out one after the other over free clusters make one chain each and use up exactly their clusters. */
  lemma {:induction false} RunsKeep(t: seq<nat>, ch: Chains, c: nat, counts: seq<nat>)
    requires Threaded(t, ch) && FreeRun(t, c, Sum(counts))
    ensures Threaded(WithRuns(t, c, counts), Chained(ch, c, counts))
    ensures FreeCount(WithRuns(t, c, counts)) == FreeCount(t) - Sum(counts)
    decreases |counts|
  {
    if counts != [] {
      var n := counts[0];
      var u := WithRun(t, c, n);
      RunFree(t, c, n, |t|);
      if n == 0 {
        WithoutRun(t, c);
        RunsKeep(t, ch, c, counts[1..]);
      } else {
        RunKeeps(t, ch, c, n);
        RunsKeep(u, ch[c := RunOf(c, n)], c + n, counts[1..]);
      }
    }
  }

  /** The first cluster of file `k`. */
  function StartAt(c: nat, counts: seq<nat>, k: nat): nat
    requires k <= |counts|
    decreases k
  {
    if k == 0 then c else StartAt(c + counts[0], counts[1..], k - 1)
  }

  /** The clusters of the files before file `k`. */
  function Before(counts: seq<nat>, k: nat): nat
    requires k <= |counts|
    decreases k
  {
    if k == 0 then 0 else counts[0] + Before(counts[1..], k - 1)
  }

  lemma {:induction false} StartIs(c: nat, counts: seq<nat>, k: nat)
    requires k <= |counts|
    ensures StartAt(c, counts, k) == c + Before(counts, k)
    decreases k
  {
    if k > 0 {
      StartIs(c + counts[0], counts[1..], k - 1);
    }
  }

  lemma {:induction false} StartBounds(c: nat, counts: seq<nat>, k: nat)
    requires k < |counts|
    ensures c <= StartAt(c, counts, k) && StartAt(c, counts, k) + counts[k] == StartAt(c, counts, k + 1) <= c + Sum(counts)
    decreases k
  {
    if k == 0 {
      assert StartAt(c, counts, 1) == StartAt(c + counts[0], counts[1..], 0);
    } else {
      StartBounds(c + counts[0], counts[1..], k - 1);
    }
  }

  lemma {:induction false} StartOrder(c: nat, counts: seq<nat>, j: nat, k: nat)
    requires j < k < |counts|
    ensures StartAt(c, counts, j) + counts[j] <= StartAt(c, counts, k)
    decreases k
  {
    StartBounds(c, counts, k - 1);
    if j < k - 1 {
      StartOrder(c, counts, j, k - 1);
    }
  }

  /** Every chain that was there stays, and every file has its run. */
  lemma {:induction false} ChainedAt(ch: Chains, c: nat, counts: seq<nat>, k: nat)
    requires k < |counts| && counts[k] > 0 && forall a | a in ch :: a < c
    ensures var s := StartAt(c, counts, k);
      s in Chained(ch, c, counts) && Chained(ch, c, counts)[s] == RunOf(s, counts[k])
    decreases |counts|
  {
    var next := if counts[0] == 0 then ch else ch[c := RunOf(c, counts[0])];
    if k == 0 {
      ChainedStays(next, c + counts[0], counts[1..], c);
    } else {
      ChainedAt(next, c + counts[0], counts[1..], k - 1);
    }
  }

  lemma {:induction false} ChainedStays(ch: Chains, c: nat, counts: seq<nat>, a: nat)
    requires a in ch && a < c
    ensures a in Chained(ch, c, counts) && Chained(ch, c, counts)[a] == ch[a]
    decreases |counts|
  {
    if counts != [] {
      ChainedStays(if counts[0] == 0 then ch else ch[c := RunOf(c, counts[0])], c + counts[0], counts[1..], a);
    }
  }
}
