/** Writing decoded bytes into a buffer: the copies and fills both decoders perform. */
module ByteBuffer {
  import opened Bytes
  import opened NumlossFormat

  method CopyLiteral(output: array<byte>, base: nat, outPos: nat, payload: seq<byte>, inPos: nat, len: nat)
    requires base + outPos + len <= output.Length && inPos + len <= |payload|
    modifies output
    ensures OnlyChanged(output, base + outPos, len)
    ensures output[base..base + outPos + len] == old(output[base..base + outPos]) + payload[inPos..inPos + len]
  {
    for i := 0 to len
      invariant OnlyChanged(output, base + outPos, i)
      invariant output[base + outPos..base + outPos + i] == payload[inPos..inPos + i]
    {
      output[base + outPos + i] := payload[inPos + i];
      assert output[base + outPos..base + outPos + i + 1] == output[base + outPos..base + outPos + i] + [payload[inPos + i]];
    }
    assert output[base..base + outPos] == old(output[base..base + outPos]);
  }

  method FillRun(output: array<byte>, base: nat, outPos: nat, value: byte, len: nat)
    requires base + outPos + len <= output.Length
    modifies output
    ensures OnlyChanged(output, base + outPos, len)
    ensures output[base..base + outPos + len] == old(output[base..base + outPos]) + Repeated(value, len)
  {
    for i := 0 to len
      invariant OnlyChanged(output, base + outPos, i)
      invariant forall k :: base + outPos <= k < base + outPos + i ==> output[k] == value
    {
      output[base + outPos + i] := value;
    }
  }

  /** Byte by byte, so that a match may run into the bytes it is producing. */
  method CopyMatch(output: array<byte>, base: nat, outPos: nat, offset: nat, len: nat)
    requires base + outPos + len <= output.Length && 1 <= offset <= outPos
    modifies output
    ensures OnlyChanged(output, base + outPos, len)
    ensures output[base..base + outPos + len] == CopyBack(old(output[base..base + outPos]), offset, len)
  {
    ghost var was := output[base..base + outPos];
    for i := 0 to len
      invariant OnlyChanged(output, base + outPos, i)
      invariant output[base..base + outPos + i] == CopyBack(was, offset, i)
    {
      ghost var c := output[base..base + outPos + i];
      output[base + outPos + i] := output[base + outPos - offset + i];
      assert output[base..base + outPos + i] == c;
      assert output[base..base + outPos + (i + 1)] == c + [c[|c| - offset]];
    }
  }
}
