/** The pieces of an image: blocks laid end to end, directory entries and directory clusters. */
module DiskParts {
  import opened Bytes
  import opened Fat32Spec
  import opened Fat32Tree
  import opened Fat32Alloc
  import opened Fat32Names

  const CLUSTER: nat := 4096

  // ---------------------------------------------------------------------------
  // Blocks of one size
  // ---------------------------------------------------------------------------

  function Concat<T>(bs: seq<seq<T>>): seq<T> {
    if bs == [] then [] else bs[0] + Concat(bs[1..])
  }

  ghost predicate AllSized<T>(bs: seq<seq<T>>, n: nat) {
    forall i | 0 <= i < |bs| :: |bs[i]| == n
  }

  lemma {:induction false} ConcatLength<T>(bs: seq<seq<T>>, n: nat)
    requires AllSized(bs, n)
    ensures |Concat(bs)| == Times(|bs|, n)
  {
    if bs != [] {
      ConcatLength(bs[1..], n);
    }
  }

  lemma {:induction false} TimesLe(a: nat, b: nat, n: nat)
    requires a <= b
    ensures Times(a, n) <= Times(b, n)
  {
    if a > 0 {
      TimesLe(a - 1, b - 1, n);
    }
  }

  /** Block `i` is the `i`-th stretch. */
  lemma {:induction false} ConcatAt<T>(bs: seq<seq<T>>, n: nat, i: nat)
    requires AllSized(bs, n) && i < |bs|
    ensures Times(i, n) + n <= |Concat(bs)| && Concat(bs)[Times(i, n)..Times(i, n) + n] == bs[i]
  {
    ConcatLength(bs, n);
    TimesLe(i + 1, |bs|, n);
    if i > 0 {
      ConcatAt(bs[1..], n, i - 1);
      var t := Times(i - 1, n);
      assert Times(i, n) == n + t;
      assert Concat(bs)[n + t..n + t + n] == Concat(bs[1..])[t..t + n];
    }
  }

  lemma SliceOfConcat<T>(a: seq<T>, b: seq<T>, i: nat, j: nat)
    requires i <= j <= |b|
    ensures (a + b)[|a| + i..|a| + j] == b[i..j]
  {
  }

  // ---------------------------------------------------------------------------
  // Directory entries
  // ---------------------------------------------------------------------------

  /** One 32-byte entry as the builder packs it. */
  function MakeEntry(name: seq<byte>, attr: byte, cluster: u32, size: u32, flags: byte): (e: Entry)
    requires |name| == 11
    ensures Name(e) == name && Attr(e) == attr && First(e) == cluster && Size(e) == size
  {
    var plain: Entry := name + [attr, flags, 0, 0, 0, 0x21, 0, 0x21, 0] + [0, 0] + [0, 0, 0x21, 0] + [0, 0] + [0, 0, 0, 0];
    FirstWritten(plain, cluster);
    SizeWritten(WithFirst(plain, cluster), size);
    WithSize(WithFirst(plain, cluster), size)
  }

  // ---------------------------------------------------------------------------
  // A directory cluster: entries, then zeros
  // ---------------------------------------------------------------------------

  function DirBytes(es: seq<Entry>): (b: seq<byte>)
    requires |es| <= 128
    ensures |b| == CLUSTER
  {
    EntriesLength(es);
    Concat(es) + Zeros(CLUSTER - 32 * |es|)
  }

  lemma EntriesLength(es: seq<Entry>)
    ensures |Concat(es)| == 32 * |es|
  {
    ConcatLength(es, 32);
    TimesIsProduct(|es|, 32);
  }

  lemma DirEntryAt(es: seq<Entry>, i: nat)
    requires |es| <= 128 && i < 128
    ensures EntryAt(DirBytes(es), i) == if i < |es| then es[i] else Zeros(32)
  {
    EntriesLength(es);
    if i < |es| {
      ConcatAt(es, 32, i);
      TimesIsProduct(i, 32);
    }
  }

  ghost predicate Plain(es: seq<Entry>) {
    |es| <= 128 && forall i | 0 <= i < |es| :: es[i][0] != 0 && es[i][0] != DELETED && Attr(es[i]) != ATTR_LONG_NAME
  }

  /** Exactly the entries put in are listed. */
  lemma DirLive(es: seq<Entry>, i: nat)
    requires Plain(es)
    ensures Live(DirBytes(es), i) <==> i < |es|
    ensures i < |es| ==> EntryAt(DirBytes(es), i) == es[i]
  {
    var b := DirBytes(es);
    if i < 128 {
      DirEntryAt(es, i);
      if i < |es| {
        forall j: nat | j <= i ensures Mark(b, j) != 0 {
          DirEntryAt(es, j);
        }
      } else {
        assert Mark(b, i) == 0;
      }
    }
  }

  lemma DirTidy(es: seq<Entry>)
    requires Plain(es)
    ensures Tidy(DirBytes(es))
  {
    var b := DirBytes(es);
    forall i: nat, j: nat | i < j && 32 * j + 32 <= |b| && Mark(b, i) == 0 ensures Mark(b, j) == 0 {
      DirEntryAt(es, i);
      DirEntryAt(es, j);
    }
  }

  /** A name is found at the first entry that has it. */
  lemma DirFind(es: seq<Entry>, name: seq<byte>, k: nat)
    requires Plain(es) && k < |es| && Name(es[k]) == name
    requires forall j | 0 <= j < k :: Name(es[j]) != name
    ensures Find(DirBytes(es), name) == Some(k)
  {
    var b := DirBytes(es);
    FindMeaning(b, name);
    DirLive(es, k);
    assert Matches(b, name, k);
    forall j: nat | j < k ensures !Matches(b, name, j) {
      DirLive(es, j);
    }
  }

  /** A name no entry has is not found. */
  lemma DirMissing(es: seq<Entry>, name: seq<byte>)
    requires Plain(es) && forall j | 0 <= j < |es| :: Name(es[j]) != name
    ensures Find(DirBytes(es), name).None?
  {
    var b := DirBytes(es);
    FindMeaning(b, name);
    forall j: nat ensures !Matches(b, name, j) {
      DirLive(es, j);
    }
  }
}
