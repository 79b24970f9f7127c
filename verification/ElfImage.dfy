/** The loaded image, said from the program headers. */
module ElfImage {
  import opened Bytes
  import opened ElfLoader

  /** The positions of the loadable headers, in order. */
  ghost function Loadable(phdrs: seq<ProgramHeader>): seq<nat> {
    if phdrs == [] then []
    else Loadable(phdrs[..|phdrs| - 1]) + if phdrs[|phdrs| - 1].load then [|phdrs| - 1] else []
  }

  ghost predicate Ascends(at: seq<nat>, n: nat) {
    (forall j :: 0 <= j < |at| ==> at[j] < n) && (forall i, j :: 0 <= i < j < |at| ==> at[i] < at[j])
  }

  lemma {:induction false} LoadableAscends(phdrs: seq<ProgramHeader>)
    ensures Ascends(Loadable(phdrs), |phdrs|)
  {
    if phdrs != [] { LoadableAscends(phdrs[..|phdrs| - 1]); }
  }

  /** Segment j is header k at its biased address. */
  ghost predicate IsSegment(phdrs: seq<ProgramHeader>, bias: nat, j: nat, k: nat) {
    j < |Loads(phdrs, bias)| && k < |phdrs| && phdrs[k].load && Loads(phdrs, bias)[j] == Biased(phdrs[k], bias)
  }

  lemma {:induction false} LoadsAre(phdrs: seq<ProgramHeader>, bias: nat, j: nat)
    ensures |Loads(phdrs, bias)| == |Loadable(phdrs)|
    ensures j < |Loadable(phdrs)| ==> IsSegment(phdrs, bias, j, Loadable(phdrs)[j])
  {
    if phdrs != [] { LoadsAre(phdrs[..|phdrs| - 1], bias, j); }
  }

  lemma {:induction false} EachLoadable(phdrs: seq<ProgramHeader>, k: nat) returns (j: nat)
    requires k < |phdrs| && phdrs[k].load
    ensures j < |Loadable(phdrs)| && Loadable(phdrs)[j] == k
  {
    var n := |phdrs| - 1;
    if k < n { j := EachLoadable(phdrs[..n], k); } else { j := |Loadable(phdrs[..n])|; }
  }

  /** Where header k's bytes begin in memory. */
  ghost function Address(phdrs: seq<ProgramHeader>, bias: nat, k: nat): nat
    requires k < |phdrs|
  {
    (phdrs[k].vaddr + bias) % 0x1_0000_0000_0000_0000
  }

  ghost predicate Apart(phdrs: seq<ProgramHeader>, bias: nat) {
    forall i, j :: 0 <= i < j < |phdrs| && phdrs[i].load && phdrs[j].load ==>
      || Address(phdrs, bias, i) + phdrs[i].memsz <= Address(phdrs, bias, j)
      || Address(phdrs, bias, j) + phdrs[j].memsz <= Address(phdrs, bias, i)
  }

  lemma SegmentsApart(phdrs: seq<ProgramHeader>, bias: nat)
    requires Apart(phdrs, bias)
    ensures forall i, j :: 0 <= i < j < |Loads(phdrs, bias)| ==> Disjoint(Loads(phdrs, bias)[i], Loads(phdrs, bias)[j])
  {
    LoadableAscends(phdrs);
    forall i, j | 0 <= i < j < |Loads(phdrs, bias)| ensures Disjoint(Loads(phdrs, bias)[i], Loads(phdrs, bias)[j]) {
      LoadsAre(phdrs, bias, i);
      LoadsAre(phdrs, bias, j);
      assert Loadable(phdrs)[i] < Loadable(phdrs)[j];
    }
  }

  /** A loadable header is one of the segments the loader shows. */
  lemma HeaderLoaded(phdrs: seq<ProgramHeader>, bias: nat, k: nat) returns (j: nat)
    requires k < |phdrs| && phdrs[k].load
    ensures IsSegment(phdrs, bias, j, k)
  {
    j := EachLoadable(phdrs, k);
    LoadsAre(phdrs, bias, j);
  }

  /** Every address of a loadable header is mapped and holds the header's file byte, or zero past them. */
  lemma HeaderByte(space: AddressSpace, phdrs: seq<ProgramHeader>, bias: nat, data: seq<byte>, k: nat, v: nat)
    requires space.Shows(Loads(phdrs, bias), data) && Apart(phdrs, bias) && k < |phdrs| && phdrs[k].load
    requires Address(phdrs, bias, k) <= v < Address(phdrs, bias, k) + phdrs[k].memsz
    ensures v / 4096 in space.table && (phdrs[k].writable ==> space.table[v / 4096].writable)
    ensures var ph, i := phdrs[k], v - Address(phdrs, bias, k);
      && (i < ph.filesz ==> ph.offset + i < |data|)
      && space.Contents(v / 4096)[v % 4096] == if i < ph.filesz then data[ph.offset + i] else 0
  {
    var j := HeaderLoaded(phdrs, bias, k);
    SegmentsApart(phdrs, bias);
    space.LoadedByte(Loads(phdrs, bias), data, j, v);
  }

  /** A page is mapped only for a loadable header with an address in it. */
  lemma MappedByHeader(space: AddressSpace, phdrs: seq<ProgramHeader>, bias: nat, data: seq<byte>, page: nat) returns (k: nat)
    requires space.Shows(Loads(phdrs, bias), data) && page in space.table
    ensures k < |phdrs| && phdrs[k].load && phdrs[k].memsz > 0
    ensures Address(phdrs, bias, k) < (page + 1) * 4096 && page * 4096 < Address(phdrs, bias, k) + phdrs[k].memsz
  {
    assert TouchedBy(Loads(phdrs, bias), page);
    var j :| 0 <= j < |Loads(phdrs, bias)| && Touches(Loads(phdrs, bias)[j], page);
    LoadsAre(phdrs, bias, j);
    k := Loadable(phdrs)[j];
    TouchedPage(Loads(phdrs, bias)[j], page);
  }

  lemma TouchedPage(seg: Segment, page: nat)
    requires Touches(seg, page)
    ensures seg.memsz > 0 && seg.vaddr < (page + 1) * 4096 && page * 4096 < seg.vaddr + seg.memsz
  {
  }
}
