/** The image builder's short names, and when the kernel forms the same ones. */
module DiskNames {
  import opened Bytes
  import opened Fat32Names

  /** Where the last dot is, or the length if there is none. */
  function LastDot(s: seq<byte>): (r: nat)
    ensures r <= |s|
    ensures r < |s| ==> s[r] == DOT && DOT !in s[r + 1..]
    ensures r == |s| ==> DOT !in s
  {
    if s == [] then 0
    else if s[|s| - 1] == DOT then |s| - 1
    else
      var r := LastDot(s[..|s| - 1]);
      if r < |s| - 1 then
        assert s[r + 1..] == s[..|s| - 1][r + 1..] + [s[|s| - 1]];
        r
      else
        assert s == s[..|s| - 1] + [s[|s| - 1]];
        |s|
  }

  /** Where the host splits base and extension: at the last dot, unless only dots come before it. */
  function HostSplit(s: seq<byte>): (r: nat)
    ensures r <= |s|
  {
    var i := LastDot(s);
    if i < |s| && exists j | 0 <= j < i :: s[j] != DOT then i else |s|
  }

  function HostBase(s: seq<byte>): seq<byte> {
    s[..HostSplit(s)]
  }

  function HostExtension(s: seq<byte>): seq<byte> {
    if HostSplit(s) < |s| then s[HostSplit(s) + 1..] else []
  }

  /** The builder's short name; a name without a base is refused. */
  function HostShort(s: seq<byte>): Option<seq<byte>> {
    if HostBase(s) == [] then None else ShortName(HostBase(s), HostExtension(s))
  }

  lemma SameSplit(s: seq<byte>)
    requires DOT !in HostBase(s) && HostBase(s) != []
    ensures Base(s) == HostBase(s) && Extension(s) == HostExtension(s)
  {
    DotUnique(s, HostSplit(s));
  }

  lemma DottedBase(s: seq<byte>)
    requires DOT in HostBase(s) && |HostBase(s)| <= 8
    ensures FirstDot(s) < |HostBase(s)| && HostBase(s)[FirstDot(s)] == DOT
  {
    var j: nat :| j < |HostBase(s)| && HostBase(s)[j] == DOT;
    assert FirstDot(s) <= j;
  }

  /**
   * For a name the builder accepts, the kernel forms the same short name exactly when no dot is left
   * in the builder's base: at most one dot, and that not leading.
   */
  lemma ShortNamesAgree(s: seq<byte>)
    requires HostShort(s).Some?
    ensures Formatted(s) == HostShort(s) <==> DOT !in HostBase(s)
  {
    if DOT !in HostBase(s) {
      SameSplit(s);
    } else {
      DottedBase(s);
      var k := FirstDot(s);
      assert HostShort(s).value[k] == Upper(DOT);
      if Formatted(s).Some? {
        assert Formatted(s).value[k] == SPACE;
      }
    }
  }
}
