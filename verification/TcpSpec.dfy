/** One TCP connection as a value, and what each handler does to it. */
module TcpSpec {
  import opened Bytes

  const NET_TCP_RECV_BUFFER_SIZE: nat := 8192
  const NET_TCP_TX_MSS: nat := 1200
  const WRAP: nat := 0x1_0000_0000
  const HALF: nat := 0x8000_0000

  datatype TcpState = Closed | SynSent | Established | CloseWait | FinWait1 | FinWait2 | Closing | LastAck | Reset

  /** `rx` is what the receive ring holds, oldest byte first. */
  datatype Conn = Conn(state: TcpState, sndUna: u32, sndNxt: u32, rcvNxt: u32, rx: seq<byte>, reset: bool, remoteClosed: bool)

  datatype Segment = Segment(seqNum: u32, ackNum: u32, fin: bool, syn: bool, rst: bool, ack: bool, data: seq<byte>)

  // ----- Sequence numbers -----

  /** The sign of the 32-bit difference. */
  predicate SeqBefore(a: u32, b: u32) {
    Sub32(a, b) >= HALF
  }

  predicate SeqAfter(a: u32, b: u32) {
    0 < Sub32(a, b) < HALF
  }

  predicate AckValid(c: Conn, ack: u32) {
    !SeqBefore(ack, c.sndUna) && !SeqAfter(ack, c.sndNxt)
  }

  /** How much has been sent and not acknowledged. */
  function InFlight(c: Conn): u32 {
    Sub32(c.sndNxt, c.sndUna)
  }

  /** The two signed comparisons are membership in the window, as long as the window is under half the number space. */
  lemma AckValidIsMembership(c: Conn, ack: u32)
    requires InFlight(c) < HALF
    ensures AckValid(c, ack) <==> Sub32(ack, c.sndUna) <= InFlight(c)
  {
  }

  // ----- Handlers -----

  function UpdateAck(c: Conn, ack: u32): Conn {
    if !AckValid(c, ack) then c
    else
      var d := if SeqAfter(ack, c.sndUna) then c.(sndUna := ack) else c;
      if d.sndUna != d.sndNxt then d
      else match d.state
        case FinWait1 => d.(state := if d.remoteClosed then Closed else FinWait2)
        case Closing => d.(state := Closed)
        case LastAck => d.(state := Closed)
        case _ => d
  }

  function Queue(c: Conn, data: seq<byte>): Conn {
    if |data| > NET_TCP_RECV_BUFFER_SIZE - 1 - |c.rx| then c
    else c.(rx := c.rx + data, rcvNxt := Add32(c.rcvNxt, |data| % WRAP))
  }

  function HandleFin(c: Conn): Conn {
    var d := c.(remoteClosed := true, rcvNxt := Add32(c.rcvNxt, 1));
    match d.state
    case Established => d.(state := CloseWait)
    case FinWait1 => d.(state := if d.sndUna == d.sndNxt then Closed else Closing)
    case FinWait2 => d.(state := Closed)
    case _ => d
  }

  function TakeData(c: Conn, seg: Segment): Conn {
    if |seg.data| > 0 && seg.seqNum == c.rcvNxt then Queue(c, seg.data) else c
  }

  predicate TakesFin(c: Conn, seg: Segment) {
    seg.fin && Add32(seg.seqNum, |seg.data| % WRAP) == TakeData(Acked(c, seg), seg).rcvNxt
  }

  function Acked(c: Conn, seg: Segment): Conn {
    if seg.ack then UpdateAck(c, seg.ackNum) else c
  }

  predicate Opens(c: Conn, seg: Segment) {
    c.state.SynSent? && !seg.rst && seg.syn && seg.ack && AckValid(c, seg.ackNum) && seg.ackNum == c.sndNxt
  }

  /** A segment arrives. */
  function Handle(c: Conn, seg: Segment): Conn {
    if seg.rst then c.(reset := true, state := Reset, remoteClosed := true)
    else if c.state.SynSent? then
      if Opens(c, seg) then c.(sndUna := seg.ackNum, rcvNxt := Add32(seg.seqNum, 1), state := Established) else c
    else
      var d := TakeData(Acked(c, seg), seg);
      if TakesFin(c, seg) then HandleFin(d) else d
  }

  /** A segment leaves, if it is not oversized and the layer below accepts it: SYN and FIN take one number each. */
  function Sent(c: Conn, syn: bool, fin: bool, len: nat, ok: bool): Conn {
    if !ok || len > NET_TCP_TX_MSS then c
    else
      var afterSyn := if syn then Add32(c.sndNxt, 1) else c.sndNxt;
      var afterFin := if fin then Add32(afterSyn, 1) else afterSyn;
      c.(sndNxt := Add32(afterFin, len))
  }

  lemma AddInFlight(una: u32, nxt: u32, k: nat)
    requires Sub32(nxt, una) + k < WRAP
    ensures Sub32(Add32(nxt, k), una) == Sub32(nxt, una) + k
  {
  }

  lemma SentInFlight(c: Conn, syn: bool, fin: bool, len: nat, ok: bool)
    requires InFlight(c) < HALF
    ensures InFlight(Sent(c, syn, fin, len, ok)) ==
      InFlight(c) + if ok && len <= NET_TCP_TX_MSS then (if syn then 1 else 0) + (if fin then 1 else 0) + len else 0
  {
    var afterSyn := if syn then Add32(c.sndNxt, 1) else c.sndNxt;
    var afterFin := if fin then Add32(afterSyn, 1) else afterSyn;
    AddInFlight(c.sndUna, c.sndNxt, 1);
    AddInFlight(c.sndUna, afterSyn, 1);
    if len <= NET_TCP_TX_MSS { AddInFlight(c.sndUna, afterFin, len); }
  }

  function SendSyn(c: Conn, ok: bool): Conn {
    Sent(c.(sndNxt := c.sndUna), true, false, 0, ok)
  }

  /** One round of the send loop: the chunk goes out from the oldest unacknowledged number. */
  function SendChunk(c: Conn, len: nat, ok: bool): Conn {
    if c.reset || !(c.state.Established? || c.state.CloseWait?) || c.remoteClosed then c
    else Sent(c.(sndNxt := c.sndUna), false, false, len, ok)
  }

  function Close(c: Conn, ok: bool): Conn {
    match c.state
    case Established => if ok then Sent(c, false, true, 0, ok).(state := FinWait1) else c
    case CloseWait => if ok then Sent(c, false, true, 0, ok).(state := LastAck) else c
    case _ => c
  }

  function Receive(c: Conn, len: nat): (Conn, seq<byte>) {
    var n := Min(len, |c.rx|);
    (c.(rx := c.rx[n..]), c.rx[..n])
  }
}
