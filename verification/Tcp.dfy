/** The connection as the driver keeps it: fields updated in place and a ring buffer for received bytes. */
module Tcp {
  import opened Bytes
  import opened TcpSpec
  import opened TcpSafety

  function Slot(k: nat): int {
    if k < NET_TCP_RECV_BUFFER_SIZE then k else k - NET_TCP_RECV_BUFFER_SIZE
  }

  class TcpConn {
    var state: TcpState
    var sndUna: u32
    var sndNxt: u32
    var rcvNxt: u32
    var reset: bool
    var remoteClosed: bool
    const buffer: array<byte>
    var head: nat
    var tail: nat
    /** What the ring holds, oldest byte first. */
    ghost var queued: seq<byte>

    ghost predicate Valid()
      reads this, buffer
    {
      && buffer.Length == NET_TCP_RECV_BUFFER_SIZE
      && head < NET_TCP_RECV_BUFFER_SIZE && |queued| < NET_TCP_RECV_BUFFER_SIZE && tail == Slot(head + |queued|)
      && forall k :: 0 <= k < |queued| ==> buffer[Slot(head + k)] == queued[k]
    }

    ghost function View(): Conn
      reads this
    {
      Conn(state, sndUna, sndNxt, rcvNxt, queued, reset, remoteClosed)
    }

    /** The state connect gives a connection before its first SYN. */
    constructor (iss: u32)
      ensures Valid() && fresh(buffer) && View() == Start(iss).conn
    {
      state, sndUna, sndNxt, rcvNxt, reset, remoteClosed := SynSent, iss, iss, 0, false, false;
      buffer := new byte[NET_TCP_RECV_BUFFER_SIZE];
      head, tail, queued := 0, 0, [];
    }

    method RxLen() returns (len: nat)
      requires Valid()
      ensures len == |queued|
    {
      if tail >= head { return tail - head; }
      return NET_TCP_RECV_BUFFER_SIZE - head + tail;
    }

    method RxSpace() returns (space: nat)
      requires Valid()
      ensures space == NET_TCP_RECV_BUFFER_SIZE - 1 - |queued|
    {
      var len := RxLen();
      return NET_TCP_RECV_BUFFER_SIZE - 1 - len;
    }

    method PushByte(b: byte)
      requires Valid() && |queued| + 1 < NET_TCP_RECV_BUFFER_SIZE
      modifies buffer, this`tail, this`queued
      ensures Valid() && queued == old(queued) + [b]
    {
      buffer[tail] := b;
      tail := (tail + 1) % NET_TCP_RECV_BUFFER_SIZE;
      queued := queued + [b];
    }

    method PopByte() returns (b: byte)
      requires Valid() && queued != []
      modifies this`head, this`queued
      ensures Valid() && b == old(queued)[0] && queued == old(queued)[1..]
    {
      b := buffer[Slot(head)];
      head := (head + 1) % NET_TCP_RECV_BUFFER_SIZE;
      queued := queued[1..];
    }

    method QueueBytes(data: seq<byte>) returns (ok: bool)
      requires Valid()
      modifies buffer, this`tail, this`queued
      ensures Valid() && ok == (|data| <= NET_TCP_RECV_BUFFER_SIZE - 1 - |old(queued)|)
      ensures queued == if ok then old(queued) + data else old(queued)
    {
      var space := RxSpace();
      if |data| > space { return false; }
      for i := 0 to |data|
        invariant Valid() && queued == old(queued) + data[..i]
      {
        PushByte(data[i]);
        assert data[..i + 1] == data[..i] + [data[i]];
      }
      assert data[..|data|] == data;
      return true;
    }

    method DequeueBytes(out: array<byte>, len: nat) returns (copied: nat)
      requires Valid() && len <= out.Length && out != buffer
      modifies out, this`head, this`queued
      ensures Valid() && copied == Min(len, |old(queued)|)
      ensures (View(), out[..copied]) == Receive(old(View()), len)
      ensures forall k :: copied <= k < out.Length ==> out[k] == old(out[k])
    {
      copied := 0;
      while copied < len && head != tail
        invariant Valid() && copied <= len && copied <= |old(queued)|
        invariant queued == old(queued)[copied..]
        invariant forall k :: 0 <= k < copied ==> out[k] == old(queued)[k]
        invariant forall k :: copied <= k < out.Length ==> out[k] == old(out[k])
      {
        var b := PopByte();
        out[copied] := b;
        copied := copied + 1;
      }
      assert out[..copied] == old(queued)[..copied];
    }

    method AckUpdate(ackNum: u32)
      requires Valid()
      modifies this`sndUna, this`state
      ensures Valid() && View() == UpdateAck(old(View()), ackNum)
    {
      if SeqBefore(ackNum, sndUna) || SeqAfter(ackNum, sndNxt) { return; }
      if SeqAfter(ackNum, sndUna) { sndUna := ackNum; }
      if state == FinWait1 && sndUna == sndNxt {
        state := if remoteClosed then Closed else FinWait2;
      } else if state == Closing && sndUna == sndNxt {
        state := Closed;
      } else if state == LastAck && sndUna == sndNxt {
        state := Closed;
      }
    }

    method FinArrived()
      requires Valid()
      modifies this`remoteClosed, this`rcvNxt, this`state
      ensures Valid() && View() == HandleFin(old(View()))
    {
      remoteClosed := true;
      rcvNxt := Add32(rcvNxt, 1);
      if state == Established {
        state := CloseWait;
      } else if state == FinWait1 {
        state := if sndUna == sndNxt then Closed else Closing;
      } else if state == FinWait2 {
        state := Closed;
      }
    }

    /** One received segment. The acknowledgements it provokes carry no sequence numbers and change no field here. */
    method HandleTcp(seg: Segment)
      requires Valid()
      modifies this, buffer
      ensures Valid() && View() == Handle(old(View()), seg)
    {
      if seg.rst {
        reset, state, remoteClosed := true, Reset, true;
        return;
      }
      if state == SynSent {
        if !(seg.syn && seg.ack) { return; }
        if SeqBefore(seg.ackNum, sndUna) || SeqAfter(seg.ackNum, sndNxt) || seg.ackNum != sndNxt { return; }
        sndUna, rcvNxt, state := seg.ackNum, Add32(seg.seqNum, 1), Established;
        return;
      }
      if seg.ack { AckUpdate(seg.ackNum); }
      if |seg.data| > 0 && seg.seqNum == rcvNxt {
        var ok := QueueBytes(seg.data);
        if ok { rcvNxt := Add32(rcvNxt, |seg.data| % WRAP); }
      }
      if seg.fin {
        var finSeq := Add32(seg.seqNum, |seg.data| % WRAP);
        if finSeq == rcvNxt { FinArrived(); }
      }
    }

    /** What sending does to the counters; `ok` is the answer of the IP layer. */
    method SendSegment(syn: bool, fin: bool, len: nat, ok: bool)
      requires Valid()
      modifies this`sndNxt
      ensures Valid() && View() == Sent(old(View()), syn, fin, len, ok)
    {
      if len > NET_TCP_TX_MSS { return; }
      if !ok { return; }
      if syn { sndNxt := Add32(sndNxt, 1); }
      if fin { sndNxt := Add32(sndNxt, 1); }
      sndNxt := Add32(sndNxt, len);
    }

    method ConnectRound(ok: bool)
      requires Valid()
      modifies this`sndNxt
      ensures Valid() && View() == SendSyn(old(View()), ok)
    {
      sndNxt := sndUna;
      SendSegment(true, false, 0, ok);
    }

    method SendRound(len: nat, ok: bool)
      requires Valid()
      modifies this`sndNxt
      ensures Valid() && View() == SendChunk(old(View()), len, ok)
    {
      if reset { return; }
      if state != Established && state != CloseWait { return; }
      if remoteClosed { return; }
      sndNxt := sndUna;
      SendSegment(false, false, len, ok);
    }

    method CloseCall(ok: bool)
      requires Valid()
      modifies this`sndNxt, this`state
      ensures Valid() && View() == Close(old(View()), ok)
    {
      if state == Established {
        SendSegment(false, true, 0, ok);
        if !ok { return; }
        state := FinWait1;
      } else if state == CloseWait {
        SendSegment(false, true, 0, ok);
        if !ok { return; }
        state := LastAck;
      }
    }

    /** Any one event, as the step of a run. */
    method Perform(e: Event, ghost w: World)
      requires Valid() && w.conn == View()
      modifies this, buffer
      ensures Valid() && View() == Step(w, e).conn
    {
      match e {
        case Arrive(seg) => HandleTcp(seg);
        case RetrySyn(ok) => ConnectRound(ok);
        case HandOut =>
        case SendRound(data, ok) => SendRound(|data|, ok);
        case CallClose(ok) => CloseCall(ok);
        case CallReceive(len) =>
          var out := new byte[len];
          var n := DequeueBytes(out, len);
      }
    }
  }
}
