/** What holds of a connection in every run, whatever the network delivers. */
module TcpSafety {
  import opened Bytes
  import opened TcpSpec

  /** Bytes put on the wire, with the place of the first one counted from the initial sequence number. */
  datatype Transmission = Transmission(at: nat, data: seq<byte>)

  /**
    A connection with its history: the bytes already returned to the reader, whether the handshake completed, whether
    the peer's FIN was consumed and ours sent, and whether `connect` is still running, so that nobody holds the handle yet.
    Counted from the initial sequence number without wrapping, everything before `acked` is acknowledged and `sent` is one
    past the highest number ever sent; `clean` says that our FIN went out above everything else; `wire` is all data sent.
   */
  datatype World = World(conn: Conn, delivered: seq<byte>, established: bool, finTaken: bool, finSent: bool, opening: bool,
                         iss: u32, acked: nat, sent: nat, clean: bool, wire: seq<Transmission>)

  datatype Event =
    | Arrive(seg: Segment)
    | RetrySyn(ok: bool)
    | HandOut
    | SendRound(data: seq<byte>, ok: bool)
    | CallClose(ok: bool)
    | CallReceive(len: nat)

  function Start(iss: u32): World {
    World(Conn(SynSent, iss, iss, 0, [], false, false), [], false, false, false, true, iss, 0, 0, false, [])
  }

  ghost predicate Enabled(w: World, e: Event) {
    match e
    case Arrive(_) => true
    case RetrySyn(_) => w.opening && !w.conn.state.Established? && !w.conn.state.Reset?
    case HandOut => w.opening && w.conn.state.Established?
    case _ => !w.opening
  }

  /** One past the last number in flight. */
  function End(w: World): nat {
    w.acked + InFlight(w.conn)
  }

  function Arrived(w: World, seg: Segment): World {
    w.(conn := Handle(w.conn, seg),
       established := w.established || Opens(w.conn, seg),
       finTaken := w.finTaken || (!seg.rst && !w.conn.state.SynSent? && TakesFin(w.conn, seg)),
       acked := w.acked + Sub32(Handle(w.conn, seg).sndUna, w.conn.sndUna))
  }

  /** The connection after a send, and the highest number with it. */
  function Transmitted(w: World, c: Conn): World {
    var v := w.(conn := c);
    v.(sent := if End(v) > w.sent then End(v) else w.sent)
  }

  predicate Sends(c: Conn) {
    !c.reset && (c.state.Established? || c.state.CloseWait?) && !c.remoteClosed
  }

  predicate ClosesNow(c: Conn, ok: bool) {
    ok && (c.state.Established? || c.state.CloseWait?)
  }

  /** What the caller of close can test: nothing was sent above the number the FIN will get. */
  predicate NothingAbove(w: World) {
    w.sent <= End(w) + 1
  }

  function Step(w: World, e: Event): World {
    match e
    case Arrive(seg) => Arrived(w, seg)
    case RetrySyn(ok) => Transmitted(w, SendSyn(w.conn, ok))
    case HandOut => w.(opening := false)
    case SendRound(data, ok) =>
      var wire := if ok && |data| <= NET_TCP_TX_MSS && Sends(w.conn) then w.wire + [Transmission(w.acked, data)] else w.wire;
      Transmitted(w, SendChunk(w.conn, |data|, ok)).(wire := wire)
    case CallClose(ok) =>
      var v := Transmitted(w, Close(w.conn, ok));
      if ClosesNow(w.conn, ok) then v.(finSent := true, clean := NothingAbove(w)) else v
    case CallReceive(len) => w.(conn := Receive(w.conn, len).0, delivered := w.delivered + Receive(w.conn, len).1)
  }

  // ----- The invariant: window, flags and states -----

  /** The most that can be in flight: a FIN only follows the last data chunk. */
  ghost function MaxInFlight(s: TcpState): nat {
    if s.SynSent? || s.Established? || s.CloseWait? then NET_TCP_TX_MSS else NET_TCP_TX_MSS + 1
  }

  ghost predicate Invariant(w: World) {
    var c := w.conn;
    && InFlight(c) <= MaxInFlight(c.state)
    && |c.rx| < NET_TCP_RECV_BUFFER_SIZE
    && (c.state.Reset? <==> c.reset)
    && (c.remoteClosed <==> w.finTaken || c.reset)
    && (c.state.SynSent? || c.state.Established? || c.state.FinWait1? || c.state.FinWait2? ==> !c.remoteClosed)
    && (c.state.CloseWait? || c.state.Closing? || c.state.LastAck? || c.state.Closed? ==> w.finTaken)
    && (c.state.FinWait2? || c.state.Closed? ==> c.sndUna == c.sndNxt)
    && (c.state.FinWait1? || c.state.FinWait2? || c.state.Closing? || c.state.LastAck? || c.state.Closed? ==> w.finSent)
    && (c.state.SynSent? ==> !w.established && c.rx == [])
    && (!w.established ==> w.opening && (c.state.SynSent? || c.state.Reset?))
    && (w.opening ==> c.state.SynSent? || c.state.Established? || c.state.CloseWait? || c.state.Reset?)
  }

  lemma UpdateAckKeeps(c: Conn, ack: u32)
    requires InFlight(c) < HALF
    ensures InFlight(UpdateAck(c, ack)) <= InFlight(c)
    ensures UpdateAck(c, ack).state != c.state ==> c.state.FinWait1? || c.state.Closing? || c.state.LastAck?
    ensures UpdateAck(c, ack).state != c.state ==> UpdateAck(c, ack).sndUna == c.sndNxt
  {
    AckValidIsMembership(c, ack);
  }

  lemma AckedKeeps(w: World, seg: Segment)
    requires Invariant(w) && !w.conn.state.SynSent?
    ensures Invariant(w.(conn := Acked(w.conn, seg)))
  {
    if seg.ack { UpdateAckKeeps(w.conn, seg.ackNum); }
  }

  lemma FinKeeps(w: World)
    requires Invariant(w) && !w.conn.state.SynSent?
    ensures Invariant(w.(conn := HandleFin(w.conn), finTaken := true))
  {
  }

  lemma ArrivedKeeps(w: World, seg: Segment)
    requires Invariant(w)
    ensures Invariant(Arrived(w, seg))
  {
    if seg.rst || w.conn.state.SynSent? {
      AckValidIsMembership(w.conn, seg.ackNum);
    } else {
      AckedKeeps(w, seg);
      var data := w.(conn := TakeData(Acked(w.conn, seg), seg));
      assert Invariant(data);
      if TakesFin(w.conn, seg) { FinKeeps(data); }
    }
  }

  lemma SentKeeps(w: World, e: Event)
    requires Invariant(w) && Enabled(w, e) && (e.RetrySyn? || e.SendRound? || e.CallClose?)
    ensures Invariant(Step(w, e))
  {
    var c := w.conn;
    match e {
      case RetrySyn(ok) => SentInFlight(c.(sndNxt := c.sndUna), true, false, 0, ok);
      case SendRound(data, ok) => SentInFlight(c.(sndNxt := c.sndUna), false, false, |data|, ok);
      case CallClose(ok) => SentInFlight(c, false, true, 0, ok);
    }
  }

  /** Every step keeps the invariant, for any segments at all, forged ones included. */
  lemma StepKeeps(w: World, e: Event)
    requires Invariant(w) && Enabled(w, e)
    ensures Invariant(Step(w, e))
  {
    match e {
      case Arrive(seg) => ArrivedKeeps(w, seg);
      case HandOut =>
      case CallReceive(_) =>
      case _ => SentKeeps(w, e);
    }
  }

  // ----- Whole runs -----

  ghost predicate Possible(w: World, es: seq<Event>)
    decreases |es|
  {
    es == [] || (Enabled(w, es[0]) && Possible(Step(w, es[0]), es[1..]))
  }

  ghost function Run(w: World, es: seq<Event>): World
    decreases |es|
  {
    if es == [] then w else Run(Step(w, es[0]), es[1..])
  }

  lemma {:induction false} RunKeeps(w: World, es: seq<Event>)
    requires Invariant(w) && Possible(w, es)
    ensures Invariant(Run(w, es))
    decreases |es|
  {
    if es != [] {
      StepKeeps(w, es[0]);
      RunKeeps(Step(w, es[0]), es[1..]);
    }
  }

  /** In every run at most 1201 sequence numbers are in flight, so the ACK test is exact membership. */
  lemma WindowBounded(iss: u32, es: seq<Event>, ack: u32)
    requires Possible(Start(iss), es)
    ensures var c := Run(Start(iss), es).conn;
      InFlight(c) <= NET_TCP_TX_MSS + 1 && (AckValid(c, ack) <==> Sub32(ack, c.sndUna) <= InFlight(c))
  {
    RunKeeps(Start(iss), es);
    AckValidIsMembership(Run(Start(iss), es).conn, ack);
  }

  /** A connection is CLOSED only once both FINs have passed and the sender counts nothing in flight. */
  lemma ClosedMeansDone(iss: u32, es: seq<Event>)
    requires Possible(Start(iss), es) && Run(Start(iss), es).conn.state.Closed?
    ensures var w := Run(Start(iss), es); w.established && w.finTaken && w.finSent && w.conn.sndUna == w.conn.sndNxt
  {
    RunKeeps(Start(iss), es);
  }

  /** No step leaves RESET. */
  lemma {:induction false} ResetAbsorbs(w: World, es: seq<Event>)
    requires w.conn.state.Reset? && w.conn.reset && Possible(w, es)
    ensures Run(w, es).conn.state.Reset? && Run(w, es).conn.reset
    decreases |es|
  {
    if es != [] {
      ResetStays(w, es[0]);
      ResetAbsorbs(Step(w, es[0]), es[1..]);
    }
  }

  lemma ResetStays(w: World, e: Event)
    requires w.conn.state.Reset? && w.conn.reset && Enabled(w, e)
    ensures Step(w, e).conn.state.Reset? && Step(w, e).conn.reset
  {
    match e {
      case Arrive(seg) => ResetHandles(w.conn, seg);
      case _ =>
    }
  }

  lemma ResetHandles(c: Conn, seg: Segment)
    requires c.state.Reset? && c.reset
    ensures Handle(c, seg).state.Reset? && Handle(c, seg).reset
  {
  }

  // ----- Receiving -----

  /** The peer: its initial sequence number and the bytes it has to send. */
  datatype Peer = Peer(irs: u32, stream: seq<byte>)

  ghost predicate At(peer: Peer, seg: Segment, off: nat) {
    && off + |seg.data| <= |peer.stream| && seg.data == peer.stream[off..off + |seg.data|]
    && seg.seqNum == (peer.irs + 1 + off) % WRAP
    && (seg.fin ==> off + |seg.data| == |peer.stream|)
  }

  /** A segment the peer did send: any piece of its stream, its FIN after the last byte, its SYN, a reset, or a bare acknowledgement. */
  ghost predicate Genuine(peer: Peer, seg: Segment) {
    || seg.rst
    || (seg.syn && seg.seqNum == peer.irs && seg.data == [] && !seg.fin)
    || (!seg.syn && exists off: nat :: At(peer, seg, off))
    || (!seg.syn && !seg.fin && seg.data == [])
  }

  /** What has been read and what is queued is a prefix of the peer's stream, and `rcv_nxt` says how long it is. */
  ghost predicate ReceivedPrefix(peer: Peer, w: World) {
    var n := |w.delivered| + |w.conn.rx|;
    if w.established then
      && n <= |peer.stream| && w.delivered + w.conn.rx == peer.stream[..n]
      && w.conn.rcvNxt == (peer.irs + 1 + n + if w.finTaken then 1 else 0) % WRAP
      && (w.finTaken ==> n == |peer.stream|)
    else w.delivered == []
  }

  lemma SameOffset(irs: u32, a: nat, b: nat)
    requires (irs + 1 + a) % WRAP == (irs + 1 + b) % WRAP && a <= HALF && b <= HALF
    ensures a == b
  {
  }

  lemma Advance(irs: u32, n: nat, len: nat)
    ensures Add32((irs + 1 + n) % WRAP, len % WRAP) == (irs + 1 + n + len) % WRAP
  {
  }

  lemma PrefixGrows(stream: seq<byte>, delivered: seq<byte>, rx: seq<byte>, data: seq<byte>)
    requires var n := |delivered| + |rx|;
      n + |data| <= |stream| && delivered + rx == stream[..n] && data == stream[n..n + |data|]
    ensures delivered + (rx + data) == stream[..|delivered| + |rx + data|]
  {
    var n := |delivered| + |rx|;
    assert stream[..n + |data|] == stream[..n] + data;
    assert delivered + (rx + data) == (delivered + rx) + data;
  }

  /** Data is accepted only at the next position, and never after the FIN. */
  lemma TakenAt(peer: Peer, w: World, seg: Segment) returns (off: nat)
    requires |peer.stream| < HALF && w.established && ReceivedPrefix(peer, w) && Genuine(peer, seg) && !seg.rst
    requires |seg.data| > 0 && seg.seqNum == w.conn.rcvNxt
    ensures At(peer, seg, off) && !w.finTaken && off == |w.delivered| + |w.conn.rx|
  {
    off :| At(peer, seg, off);
    SameOffset(peer.irs, off, |w.delivered| + |w.conn.rx| + if w.finTaken then 1 else 0);
  }

  lemma DataKeeps(peer: Peer, w: World, seg: Segment)
    requires |peer.stream| < HALF && w.established && ReceivedPrefix(peer, w) && Genuine(peer, seg) && !seg.rst
    ensures ReceivedPrefix(peer, w.(conn := TakeData(w.conn, seg)))
  {
    if |seg.data| > 0 && seg.seqNum == w.conn.rcvNxt && TakeData(w.conn, seg) != w.conn {
      var off := TakenAt(peer, w, seg);
      PrefixGrows(peer.stream, w.delivered, w.conn.rx, seg.data);
      Advance(peer.irs, off, |seg.data|);
    }
  }

  /** The FIN is consumed only after the last byte, and once. */
  lemma FinOffset(peer: Peer, w: World, seg: Segment)
    requires |peer.stream| < HALF && w.established && ReceivedPrefix(peer, w) && Genuine(peer, seg) && !seg.rst && seg.fin
    requires Add32(seg.seqNum, |seg.data| % WRAP) == w.conn.rcvNxt
    ensures !w.finTaken && |w.delivered| + |w.conn.rx| == |peer.stream|
  {
    var off: nat :| At(peer, seg, off);
    Advance(peer.irs, off, |seg.data|);
    SameOffset(peer.irs, |peer.stream|, |w.delivered| + |w.conn.rx| + if w.finTaken then 1 else 0);
  }

  lemma FinAt(peer: Peer, w: World)
    requires w.established && ReceivedPrefix(peer, w) && !w.finTaken && |w.delivered| + |w.conn.rx| == |peer.stream|
    ensures ReceivedPrefix(peer, w.(conn := HandleFin(w.conn), finTaken := true))
  {
    Advance(peer.irs, |peer.stream|, 1);
  }

  lemma HandledPrefix(peer: Peer, w: World, seg: Segment)
    requires |peer.stream| < HALF && w.established && !w.conn.state.SynSent? && !seg.rst
    requires ReceivedPrefix(peer, w) && Genuine(peer, seg)
    ensures ReceivedPrefix(peer, w.(conn := Handle(w.conn, seg), finTaken := w.finTaken || TakesFin(w.conn, seg)))
  {
    AckedQueue(w.conn, seg);
    var acked := w.(conn := Acked(w.conn, seg));
    DataKeeps(peer, acked, seg);
    if TakesFin(w.conn, seg) {
      var data := w.(conn := TakeData(acked.conn, seg));
      FinOffset(peer, data, seg);
      FinAt(peer, data);
    }
  }

  lemma OpenedPrefix(peer: Peer, w: World, seg: Segment)
    requires !w.established && Invariant(w) && ReceivedPrefix(peer, w) && Genuine(peer, seg)
    ensures ReceivedPrefix(peer, Arrived(w, seg))
  {
  }

  lemma ArrivedPrefix(peer: Peer, w: World, seg: Segment)
    requires |peer.stream| < HALF && Invariant(w) && ReceivedPrefix(peer, w) && Genuine(peer, seg)
    ensures ReceivedPrefix(peer, Arrived(w, seg))
  {
    if !w.established {
      OpenedPrefix(peer, w, seg);
    } else if !seg.rst {
      HandledPrefix(peer, w, seg);
    }
  }

  lemma ReceiveKeeps(peer: Peer, w: World, len: nat)
    requires ReceivedPrefix(peer, w) && w.established
    ensures ReceivedPrefix(peer, Step(w, CallReceive(len)))
  {
    var n := Min(len, |w.conn.rx|);
    assert w.conn.rx == w.conn.rx[..n] + w.conn.rx[n..];
    assert w.delivered + w.conn.rx == (w.delivered + w.conn.rx[..n]) + w.conn.rx[n..];
  }

  ghost predicate AllGenuine(peer: Peer, es: seq<Event>) {
    forall k :: 0 <= k < |es| && es[k].Arrive? ==> Genuine(peer, es[k].seg)
  }

  lemma {:induction false} RunPrefix(peer: Peer, w: World, es: seq<Event>)
    requires |peer.stream| < HALF && Invariant(w) && ReceivedPrefix(peer, w) && Possible(w, es) && AllGenuine(peer, es)
    ensures ReceivedPrefix(peer, Run(w, es))
    decreases |es|
  {
    if es != [] {
      var e := es[0];
      StepKeeps(w, e);
      match e {
        case Arrive(seg) => ArrivedPrefix(peer, w, seg);
        case CallReceive(len) => ReceiveKeeps(peer, w, len);
        case _ =>
      }
      RunPrefix(peer, Step(w, e), es[1..]);
    }
  }

  /**
    Whatever is dropped, duplicated or reordered, the reader has seen a prefix of the peer's stream, and after a
    completed handshake so is everything queued; end of stream is reported only after all of it.
   */
  lemma ReceiveSafety(peer: Peer, iss: u32, es: seq<Event>)
    requires |peer.stream| < HALF && Possible(Start(iss), es) && AllGenuine(peer, es)
    ensures var w := Run(Start(iss), es);
      && w.delivered <= peer.stream
      && (w.established ==> w.delivered + w.conn.rx <= peer.stream)
      && (w.established ==>
          w.conn.rcvNxt == (peer.irs + 1 + |w.delivered| + |w.conn.rx| + if w.finTaken then 1 else 0) % WRAP)
      && (w.conn.remoteClosed && !w.conn.reset ==> w.delivered + w.conn.rx == peer.stream)
  {
    RunPrefix(peer, Start(iss), es);
    RunKeeps(Start(iss), es);
  }

  /** The place in the peer's stream that sequence number zero stands for, where a connection begins to count. */
  function ZeroOffset(peer: Peer): nat {
    (2 * WRAP - 1 - peer.irs) % WRAP
  }

  /** Without a handshake, what is queued is the piece of the stream at that place. */
  ghost predicate QueuedAt(peer: Peer, w: World) {
    var z, n := ZeroOffset(peer), |w.conn.rx|;
    !w.established ==>
      && w.delivered == [] && (n > 0 || w.finTaken ==> z + n <= |peer.stream|)
      && (n > 0 ==> w.conn.rx == peer.stream[z..z + n])
      && w.conn.rcvNxt == n + (if w.finTaken then 1 else 0)
      && (w.finTaken ==> z + n == |peer.stream|)
  }

  lemma ZeroCounts(peer: Peer, off: nat, k: nat)
    requires off <= HALF && k <= HALF && (peer.irs + 1 + off) % WRAP == k
    ensures ZeroOffset(peer) + k == off || ZeroOffset(peer) + k == off + WRAP
  {
  }

  lemma ZeroStands(peer: Peer, k: nat)
    requires ZeroOffset(peer) + k <= HALF
    ensures (peer.irs + 1 + ZeroOffset(peer) + k) % WRAP == k
  {
  }

  lemma PieceGrows(stream: seq<byte>, z: nat, rx: seq<byte>, data: seq<byte>)
    requires z + |rx| + |data| <= |stream| && rx == stream[z..z + |rx|] && data == stream[z + |rx|..z + |rx| + |data|]
    ensures rx + data == stream[z..z + |rx + data|]
  {
  }

  lemma StrayPlace(peer: Peer, w: World, end: nat)
    requires |peer.stream| < HALF && Invariant(w) && !w.established && QueuedAt(peer, w) && end <= |peer.stream|
    requires (peer.irs + 1 + end) % WRAP == w.conn.rcvNxt
    ensures !w.finTaken && ZeroOffset(peer) + |w.conn.rx| == end
  {
    ZeroCounts(peer, end, w.conn.rcvNxt);
    ZeroBelow(peer);
  }

  lemma ZeroBelow(peer: Peer)
    ensures ZeroOffset(peer) < WRAP
  {
  }

  lemma SmallSum(a: nat, b: nat)
    requires a + b < WRAP
    ensures Add32(a, b % WRAP) == a + b
  {
  }

  lemma QueueGrows(peer: Peer, w: World, data: seq<byte>)
    requires !w.established && QueuedAt(peer, w) && !w.finTaken && |w.conn.rx| + |data| < NET_TCP_RECV_BUFFER_SIZE
    requires var at := ZeroOffset(peer) + |w.conn.rx|; at + |data| <= |peer.stream| && data == peer.stream[at..at + |data|]
    ensures QueuedAt(peer, w.(conn := Queue(w.conn, data)))
  {
    SmallSum(|w.conn.rx|, |data|);
    PieceGrows(peer.stream, ZeroOffset(peer), w.conn.rx, data);
  }

  lemma StrayTaken(peer: Peer, w: World, seg: Segment)
    requires |peer.stream| < HALF && Invariant(w) && !w.established && QueuedAt(peer, w) && Genuine(peer, seg) && !seg.rst
    ensures QueuedAt(peer, w.(conn := TakeData(w.conn, seg)))
  {
    if |seg.data| > 0 && seg.seqNum == w.conn.rcvNxt && |seg.data| <= NET_TCP_RECV_BUFFER_SIZE - 1 - |w.conn.rx| {
      var off: nat :| At(peer, seg, off);
      StrayPlace(peer, w, off);
      QueueGrows(peer, w, seg.data);
    }
  }

  lemma StrayFin(peer: Peer, w: World, seg: Segment)
    requires |peer.stream| < HALF && Invariant(w) && !w.established && QueuedAt(peer, w) && Genuine(peer, seg) && !seg.rst
    requires seg.fin && Add32(seg.seqNum, |seg.data| % WRAP) == w.conn.rcvNxt
    ensures QueuedAt(peer, w.(conn := HandleFin(w.conn), finTaken := true))
  {
    var off: nat :| At(peer, seg, off);
    Advance(peer.irs, off, |seg.data|);
    StrayPlace(peer, w, |peer.stream|);
    SmallSum(w.conn.rcvNxt, 1);
  }

  lemma AckedQueue(c: Conn, seg: Segment)
    ensures Acked(c, seg).rx == c.rx && Acked(c, seg).rcvNxt == c.rcvNxt
  {
  }

  lemma StrayHandled(peer: Peer, w: World, seg: Segment)
    requires |peer.stream| < HALF && Invariant(w) && !w.established && !w.conn.state.SynSent? && !seg.rst
    requires QueuedAt(peer, w) && Genuine(peer, seg)
    ensures QueuedAt(peer, w.(conn := Handle(w.conn, seg), finTaken := w.finTaken || TakesFin(w.conn, seg)))
  {
    AckedKeeps(w, seg);
    AckedQueue(w.conn, seg);
    var acked := w.(conn := Acked(w.conn, seg));
    StrayTaken(peer, acked, seg);
    if TakesFin(w.conn, seg) {
      var data := w.(conn := TakeData(acked.conn, seg));
      assert Invariant(data);
      StrayFin(peer, data, seg);
    }
  }

  lemma StrayArrives(peer: Peer, w: World, seg: Segment)
    requires |peer.stream| < HALF && Invariant(w) && QueuedAt(peer, w) && Genuine(peer, seg)
    ensures QueuedAt(peer, Arrived(w, seg))
  {
    if !seg.rst && !w.established && !w.conn.state.SynSent? {
      StrayHandled(peer, w, seg);
    }
  }

  lemma {:induction false} RunQueued(peer: Peer, w: World, es: seq<Event>)
    requires |peer.stream| < HALF && Invariant(w) && QueuedAt(peer, w) && Possible(w, es) && AllGenuine(peer, es)
    ensures QueuedAt(peer, Run(w, es))
    decreases |es|
  {
    if es != [] {
      var e := es[0];
      StepKeeps(w, e);
      if e.Arrive? { StrayArrives(peer, w, e.seg); }
      RunQueued(peer, Step(w, e), es[1..]);
    }
  }

  /** A run of genuine segments that never completes a handshake. */
  ghost predicate NeverOpened(peer: Peer, iss: u32, es: seq<Event>) {
    Possible(Start(iss), es) && AllGenuine(peer, es) && !Run(Start(iss), es).established
  }

  /** Some piece of the stream that fits the receive ring stands where counting begins, and is not how the stream begins. */
  ghost predicate Prone(peer: Peer, n: nat) {
    var z := ZeroOffset(peer);
    0 < n < NET_TCP_RECV_BUFFER_SIZE && z + n <= |peer.stream| && peer.stream[z..z + n] != peer.stream[..n]
  }

  /** The run that queues such a piece: a reset and then the piece. */
  lemma StrayQueued(peer: Peer, iss: u32, n: nat) returns (es: seq<Event>)
    requires |peer.stream| < HALF && 0 < n < NET_TCP_RECV_BUFFER_SIZE && ZeroOffset(peer) + n <= |peer.stream|
    ensures NeverOpened(peer, iss, es)
    ensures Run(Start(iss), es).conn.rx == peer.stream[ZeroOffset(peer)..ZeroOffset(peer) + n]
  {
    var z := ZeroOffset(peer);
    ZeroStands(peer, 0);
    var rst := Arrive(Segment(0, 0, false, false, true, false, []));
    var stray := Arrive(Segment(0, 0, false, false, false, false, peer.stream[z..z + n]));
    es := [rst, stray];
    assert At(peer, stray.seg, z);
    assert es[1..] == [stray] && [stray][1..] == [];
    var w := Step(Step(Start(iss), rst), stray);
    assert Possible(w, []) && Possible(Step(Start(iss), rst), [stray]);
    assert Run(Start(iss), es) == Run(Step(Start(iss), rst), [stray]) == Run(w, []) == w;
  }

  /**
    Without a handshake the queue is empty or the piece of the peer's stream at the place of number zero. So it is a
    prefix of the stream in all such runs if and only if no such piece differs from the beginning of the stream.
   */
  lemma QueuedWithoutHandshake(peer: Peer, iss: u32)
    requires |peer.stream| < HALF
    ensures (forall es: seq<Event> | NeverOpened(peer, iss, es) :: Run(Start(iss), es).conn.rx <= peer.stream)
      <==> (forall n: nat :: !Prone(peer, n))
    ensures forall es: seq<Event> | NeverOpened(peer, iss, es) ::
      var rx, z := Run(Start(iss), es).conn.rx, ZeroOffset(peer);
      rx == [] || (z + |rx| <= |peer.stream| && rx == peer.stream[z..z + |rx|])
  {
    forall es: seq<Event> | NeverOpened(peer, iss, es)
      ensures var rx, z := Run(Start(iss), es).conn.rx, ZeroOffset(peer);
        |rx| < NET_TCP_RECV_BUFFER_SIZE && (rx == [] || (z + |rx| <= |peer.stream| && rx == peer.stream[z..z + |rx|]))
    {
      RunQueued(peer, Start(iss), es);
      RunKeeps(Start(iss), es);
    }
    if forall n: nat :: !Prone(peer, n) {
      forall es: seq<Event> | NeverOpened(peer, iss, es) ensures Run(Start(iss), es).conn.rx <= peer.stream {
        assert !Prone(peer, |Run(Start(iss), es).conn.rx|);
      }
    } else {
      var n: nat :| Prone(peer, n);
      var es := StrayQueued(peer, iss, n);
      assert |Run(Start(iss), es).conn.rx| == n && Run(Start(iss), es).conn.rx != peer.stream[..n];
    }
  }

  /** The handshake is needed: after a reset that precedes it, bytes from the middle of the stream can be queued. */
  lemma StrayBytesBeforeHandshake() returns (peer: Peer, es: seq<Event>)
    ensures |peer.stream| < HALF && Possible(Start(1), es) && AllGenuine(peer, es)
    ensures !(Run(Start(1), es).conn.rx <= peer.stream)
  {
    peer := Peer(0xFFFF_FFFE, [1, 2]);
    es := StrayQueued(peer, 1, 1);
    assert Run(Start(1), es).conn.rx == [2] && peer.stream[0] == 1;
  }

  // ----- Resending -----

  /** Two transmissions put the same byte on every number they share. */
  ghost predicate SameBytes(a: Transmission, b: Transmission) {
    forall k: nat | ByteAt(a, k).Some? && ByteAt(b, k).Some? :: ByteAt(a, k) == ByteAt(b, k)
  }

  /** The byte a transmission puts on number `k`. */
  function ByteAt(t: Transmission, k: nat): Option<byte> {
    if t.at <= k < t.at + |t.data| then Some(t.data[k - t.at]) else None
  }

  /** The chunk goes out, a segment arrives, and the chunk goes out again. */
  function Resent(w: World, chunk: seq<byte>, seg: Segment): World {
    Step(Step(Step(w, SendRound(chunk, true)), Arrive(seg)), SendRound(chunk, true))
  }

  /** How much of a chunk of `len` bytes sent from `w` on the segment acknowledges. */
  function Acknowledges(w: World, len: nat, seg: Segment): (k: nat)
    ensures k <= len
  {
    var k := Sub32(seg.ackNum, w.conn.sndUna);
    if seg.ack && k <= len then k else 0
  }

  /** The connection still sends after the chunk has gone out and the segment has come in. */
  predicate SendsOn(w: World, len: nat, seg: Segment) {
    Sends(w.conn) && Sends(Handle(SendChunk(w.conn, len, true), seg))
  }

  lemma ChunkInFlight(c: Conn, len: nat)
    requires len <= NET_TCP_TX_MSS && Sends(c)
    ensures var d := SendChunk(c, len, true);
      InFlight(d) == len && d.sndUna == c.sndUna && d == c.(sndNxt := d.sndNxt)
  {
    SentInFlight(c.(sndNxt := c.sndUna), false, false, len, true);
  }

  lemma HandledUna(c: Conn, seg: Segment)
    requires !seg.rst && !c.state.SynSent?
    ensures Handle(c, seg).sndUna == Acked(c, seg).sndUna
  {
  }

  lemma AcknowledgedBy(w: World, chunk: seq<byte>, seg: Segment)
    requires 0 < |chunk| <= NET_TCP_TX_MSS && SendsOn(w, |chunk|, seg)
    ensures Step(Step(w, SendRound(chunk, true)), Arrive(seg)).acked == w.acked + Acknowledges(w, |chunk|, seg)
  {
    var c := SendChunk(w.conn, |chunk|, true);
    ChunkInFlight(w.conn, |chunk|);
    HandledUna(c, seg);
    AckValidIsMembership(c, seg.ackNum);
  }

  lemma ResentWire(w: World, chunk: seq<byte>, seg: Segment)
    requires 0 < |chunk| <= NET_TCP_TX_MSS && SendsOn(w, |chunk|, seg)
    ensures Resent(w, chunk, seg).wire
         == w.wire + [Transmission(w.acked, chunk), Transmission(w.acked + Acknowledges(w, |chunk|, seg), chunk)]
  {
    var v := Step(w, SendRound(chunk, true));
    assert v.wire == w.wire + [Transmission(w.acked, chunk)];
    var u := Step(v, Arrive(seg));
    AcknowledgedBy(w, chunk, seg);
    assert Resent(w, chunk, seg).wire == u.wire + [Transmission(u.acked, chunk)];
  }

  /** Shifted by `k` the chunk agrees with itself. */
  ghost predicate Harmless(k: nat, chunk: seq<byte>) {
    forall i: nat | k + i < |chunk| :: chunk[k + i] == chunk[i]
  }

  lemma ShiftedAgrees(at: nat, k: nat, chunk: seq<byte>)
    ensures SameBytes(Transmission(at, chunk), Transmission(at + k, chunk)) <==> Harmless(k, chunk)
  {
    var a, b := Transmission(at, chunk), Transmission(at + k, chunk);
    if SameBytes(a, b) {
      forall i: nat | k + i < |chunk| ensures chunk[k + i] == chunk[i] {
        assert ByteAt(a, at + k + i) == Some(chunk[k + i]) && ByteAt(b, at + k + i) == Some(chunk[i]);
      }
    }
  }

  /** A one and then zeros. */
  function Marked(len: nat): (s: seq<byte>)
    ensures |s| == len
  {
    seq(len, k => if k == 0 then 1 else 0)
  }

  /** The two transmissions of a chunk agree. */
  ghost predicate ResendAgrees(w: World, chunk: seq<byte>, seg: Segment) {
    var wire := Resent(w, chunk, seg).wire;
    |wire| >= 2 && SameBytes(wire[|wire| - 2], wire[|wire| - 1])
  }

  /** For one chunk: the transmissions agree if and only if the chunk agrees with itself shifted by what was acknowledged. */
  lemma ResendIs(w: World, chunk: seq<byte>, seg: Segment)
    requires 0 < |chunk| <= NET_TCP_TX_MSS && SendsOn(w, |chunk|, seg)
    ensures ResendAgrees(w, chunk, seg) <==> Harmless(Acknowledges(w, |chunk|, seg), chunk)
    ensures Acknowledges(w, |chunk|, seg) in {0, |chunk|} ==> ResendAgrees(w, chunk, seg)
  {
    ResentWire(w, chunk, seg);
    ShiftedAgrees(w.acked, Acknowledges(w, |chunk|, seg), chunk);
  }

  lemma MarkedDisagrees(w: World, len: nat, seg: Segment)
    requires 0 < len <= NET_TCP_TX_MSS && SendsOn(w, len, seg) && 0 < Acknowledges(w, len, seg) < len
    ensures !ResendAgrees(w, Marked(len), seg)
  {
    var chunk, k := Marked(len), Acknowledges(w, len, seg);
    ResendIs(w, chunk, seg);
    assert chunk[k + 0] == 0 && chunk[0] == 1;
  }

  /**
    The send loop resends the whole chunk at `snd_una`. Whatever segment arrives in between, the two transmissions agree
    for all contents if and only if the segment acknowledges nothing of the chunk, or all of it.
   */
  lemma ResendRightOnlyFromStart(w: World, len: nat, seg: Segment)
    requires 0 < len <= NET_TCP_TX_MSS && SendsOn(w, len, seg)
    ensures (forall chunk: seq<byte> | |chunk| == len :: ResendAgrees(w, chunk, seg))
      <==> (Acknowledges(w, len, seg) == 0 || Acknowledges(w, len, seg) == len)
  {
    var k := Acknowledges(w, len, seg);
    if k == 0 || k == len {
      forall chunk: seq<byte> | |chunk| == len ensures ResendAgrees(w, chunk, seg) { ResendIs(w, chunk, seg); }
    } else {
      MarkedDisagrees(w, len, seg);
    }
  }

  /** The peer acknowledges the first `k` bytes of what is in flight. */
  function PartialAck(w: World, k: nat): Segment {
    Segment(w.conn.rcvNxt, Add32(w.conn.sndUna, k), false, false, false, true, [])
  }

  /** Every part of a chunk can be acknowledged on its own, and the connection then sends on. */
  lemma PartlyAcknowledged(w: World, len: nat, k: nat)
    requires k <= len <= NET_TCP_TX_MSS && Sends(w.conn)
    ensures SendsOn(w, len, PartialAck(w, k)) && Acknowledges(w, len, PartialAck(w, k)) == k
  {
    ChunkInFlight(w.conn, len);
  }

  /** So from every sending state a partial acknowledgement leads to two transmissions that disagree. */
  lemma PartialResendWrong(w: World, len: nat, k: nat) returns (chunk: seq<byte>)
    requires 0 < k < len <= NET_TCP_TX_MSS && Sends(w.conn)
    ensures |chunk| == len && !ResendAgrees(w, chunk, PartialAck(w, k))
  {
    PartlyAcknowledged(w, len, k);
    MarkedDisagrees(w, len, PartialAck(w, k));
    chunk := Marked(len);
  }

  /**
    After an acknowledgement of all of it, a resend takes the numbers that the next chunk will get: the two agree for
    all contents of the next chunk only if that is the chunk itself.
   */
  lemma LateResend(w: World, chunk: seq<byte>, next: seq<byte>, seg: Segment)
    requires 0 < |chunk| == |next| <= NET_TCP_TX_MSS && SendsOn(w, |chunk|, seg) && Acknowledges(w, |chunk|, seg) == |chunk|
    ensures var wire := Step(Resent(w, chunk, seg), SendRound(next, true)).wire;
      |wire| >= 2 && (SameBytes(wire[|wire| - 2], wire[|wire| - 1]) <==> chunk == next)
  {
    var u := Step(Step(w, SendRound(chunk, true)), Arrive(seg));
    var v := Resent(w, chunk, seg);
    ResentWire(w, chunk, seg);
    AcknowledgedBy(w, chunk, seg);
    ChunkInFlight(u.conn, |chunk|);
    var at := w.acked + |chunk|;
    assert v.acked == at && Sends(v.conn);
    var wire := Step(v, SendRound(next, true)).wire;
    assert wire == v.wire + [Transmission(at, next)];
    var a, b := Transmission(at, chunk), Transmission(at, next);
    if chunk != next {
      var i :| 0 <= i < |chunk| && chunk[i] != next[i];
      assert ByteAt(a, at + i) == Some(chunk[i]) && ByteAt(b, at + i) == Some(next[i]);
    }
  }

  // ----- What CLOSED says about what was sent -----

  /** The unwrapped counts are the connection's own numbers, and nothing in flight lies above what was sent. */
  ghost predicate Counted(w: World) {
    && w.conn.sndUna == Add32(w.iss, w.acked) && w.conn.sndNxt == Add32(w.iss, End(w))
    && End(w) <= w.sent
  }

  lemma AckMoves(c: Conn, ack: u32)
    requires InFlight(c) < HALF
    ensures var d := UpdateAck(c, ack);
      d.sndNxt == c.sndNxt && Sub32(d.sndUna, c.sndUna) + InFlight(d) == InFlight(c)
  {
    AckValidIsMembership(c, ack);
    if AckValid(c, ack) {
      SubSplit(c.sndUna, ack, c.sndNxt);
    }
  }

  lemma SubSplit(una: u32, ack: u32, nxt: u32)
    requires Sub32(ack, una) <= Sub32(nxt, una)
    ensures Sub32(ack, una) + Sub32(nxt, ack) == Sub32(nxt, una) && Sub32(una, una) == 0
  {
  }

  /** An acknowledgement moves the lower end of the window and leaves the upper end. */
  lemma ArrivedMoves(w: World, seg: Segment)
    requires Invariant(w)
    ensures var c, d := w.conn, Handle(w.conn, seg);
      d.sndNxt == c.sndNxt && Sub32(d.sndUna, c.sndUna) + InFlight(d) == InFlight(c) && End(Arrived(w, seg)) == End(w)
  {
    HandleMoves(w.conn, seg);
  }

  lemma HandleMoves(c: Conn, seg: Segment)
    requires InFlight(c) < HALF
    ensures var d := Handle(c, seg);
      d.sndNxt == c.sndNxt && Sub32(d.sndUna, c.sndUna) + InFlight(d) == InFlight(c)
  {
    if !seg.rst {
      if c.state.SynSent? {
        AckValidIsMembership(c, seg.ackNum);
      } else {
        HandleNumbers(c, seg);
        if seg.ack {
          AckMoves(c, seg.ackNum);
        }
      }
    }
  }

  /** Data and FIN leave the sender's numbers alone. */
  lemma HandleNumbers(c: Conn, seg: Segment)
    requires !seg.rst && !c.state.SynSent?
    ensures Handle(c, seg).sndUna == Acked(c, seg).sndUna && Handle(c, seg).sndNxt == Acked(c, seg).sndNxt
  {
  }

  lemma AddTwice(a: u32, b: nat, c: nat)
    ensures Add32(Add32(a, b), c) == Add32(a, b + c)
  {
  }

  lemma ForwardBy(una: u32, up: u32)
    ensures Add32(una, Sub32(up, una)) == up
  {
  }

  lemma ArrivedCounted(w: World, seg: Segment)
    requires Invariant(w) && Counted(w)
    ensures Counted(Arrived(w, seg))
  {
    ArrivedMoves(w, seg);
    var una := Handle(w.conn, seg).sndUna;
    ForwardBy(w.conn.sndUna, una);
    AddTwice(w.iss, w.acked, Sub32(una, w.conn.sndUna));
  }

  lemma SentCounted(w: World, c: Conn)
    requires Counted(w) && c.sndUna == w.conn.sndUna
    ensures Counted(Transmitted(w, c))
  {
    ForwardBy(c.sndUna, c.sndNxt);
    AddTwice(w.iss, w.acked, InFlight(c));
  }

  lemma StepCounted(w: World, e: Event)
    requires Invariant(w) && Enabled(w, e) && Counted(w)
    ensures Counted(Step(w, e))
  {
    match e {
      case Arrive(seg) => ArrivedCounted(w, seg);
      case RetrySyn(ok) => SentCounted(w, SendSyn(w.conn, ok));
      case SendRound(data, ok) => SentCounted(w, SendChunk(w.conn, |data|, ok));
      case CallClose(ok) => SentCounted(w, Close(w.conn, ok));
      case _ =>
    }
  }

  /** Once our FIN is out the upper end stands still, and whether anything lies above it is settled. */
  ghost predicate FinSettled(w: World) {
    w.finSent ==>
      && !(w.conn.state.SynSent? || w.conn.state.Established? || w.conn.state.CloseWait?)
      && (w.clean <==> w.sent == End(w))
  }

  lemma StepSettled(w: World, e: Event)
    requires Invariant(w) && Enabled(w, e) && Counted(w) && FinSettled(w)
    ensures FinSettled(Step(w, e))
  {
    match e {
      case Arrive(seg) => ArrivedMoves(w, seg);
      case CallClose(ok) => SentInFlight(w.conn, false, true, 0, ok);
      case _ =>
    }
  }

  lemma {:induction false} RunSettled(w: World, es: seq<Event>)
    requires Invariant(w) && Counted(w) && FinSettled(w) && Possible(w, es)
    ensures Counted(Run(w, es)) && FinSettled(Run(w, es))
    decreases |es|
  {
    if es != [] {
      StepKeeps(w, es[0]);
      StepCounted(w, es[0]);
      StepSettled(w, es[0]);
      RunSettled(Step(w, es[0]), es[1..]);
    }
  }

  /** CLOSED means that everything ever sent is acknowledged exactly when our FIN went out above all of it. */
  lemma ClosedAcknowledged(iss: u32, es: seq<Event>)
    requires Possible(Start(iss), es) && Run(Start(iss), es).conn.state.Closed?
    ensures var w := Run(Start(iss), es); w.acked == w.sent <==> w.clean
  {
    RunKeeps(Start(iss), es);
    RunSettled(Start(iss), es);
  }

  /** A round that sends fewer numbers than are still unacknowledged, a failed round being one that sends none. */
  predicate Shrinks(w: World, e: Event) {
    match e
    case RetrySyn(ok) => w.acked + (if ok then 1 else 0) < w.sent
    case SendRound(data, ok) =>
      Sends(w.conn) && w.acked + (if ok && |data| <= NET_TCP_TX_MSS then |data| else 0) < w.sent
    case _ => false
  }

  ghost predicate NeverShrinks(w: World, es: seq<Event>)
    decreases |es|
  {
    es == [] || (!Shrinks(w, es[0]) && NeverShrinks(Step(w, es[0]), es[1..]))
  }

  lemma StepTop(w: World, e: Event)
    requires Invariant(w) && Enabled(w, e) && w.sent == End(w) && !Shrinks(w, e) && (w.finSent ==> w.clean)
    ensures var v := Step(w, e); v.sent == End(v) && (v.finSent ==> v.clean)
  {
    var c := w.conn;
    match e {
      case Arrive(seg) => ArrivedMoves(w, seg);
      case RetrySyn(ok) => SentInFlight(c.(sndNxt := c.sndUna), true, false, 0, ok);
      case SendRound(data, ok) => SentInFlight(c.(sndNxt := c.sndUna), false, false, |data|, ok);
      case CallClose(ok) => SentInFlight(c, false, true, 0, ok);
      case _ =>
    }
  }

  lemma {:induction false} RunTop(w: World, es: seq<Event>)
    requires Invariant(w) && w.sent == End(w) && (w.finSent ==> w.clean) && Possible(w, es) && NeverShrinks(w, es)
    ensures var v := Run(w, es); v.sent == End(v) && (v.finSent ==> v.clean)
    decreases |es|
  {
    if es != [] {
      StepTop(w, es[0]);
      StepKeeps(w, es[0]);
      RunTop(Step(w, es[0]), es[1..]);
    }
  }

  /** If no round ever sends fewer numbers than are unacknowledged, CLOSED does mean that all was acknowledged. */
  lemma ClosedAfterSteadySending(iss: u32, es: seq<Event>)
    requires Possible(Start(iss), es) && NeverShrinks(Start(iss), es) && Run(Start(iss), es).conn.state.Closed?
    ensures var w := Run(Start(iss), es); w.acked == w.sent
  {
    RunTop(Start(iss), es);
    RunKeeps(Start(iss), es);
  }

  /** The peer acknowledges our FIN and sends its own. */
  function FinalSegment(w: World): Segment {
    Segment(w.conn.rcvNxt, w.conn.sndNxt, true, false, false, true, [])
  }

  /** Otherwise it need not: from any open state with two numbers above the window, a close can end CLOSED without them. */
  lemma ClosedWithoutAcknowledgement(w: World)
    requires Invariant(w) && Counted(w) && w.conn.state.Established? && !w.opening && End(w) + 1 < w.sent
    ensures var v := Step(w, CallClose(true));
      var es := [CallClose(true), Arrive(FinalSegment(v))];
      && Possible(w, es) && Run(w, es).conn.state.Closed? && Run(w, es).acked < Run(w, es).sent == w.sent
  {
    var v := Step(w, CallClose(true));
    var seg := FinalSegment(v);
    var es := [CallClose(true), Arrive(seg)];
    StepKeeps(w, CallClose(true));
    SentInFlight(w.conn, false, true, 0, true);
    ClosingSegment(v);
    assert es[1..] == [Arrive(seg)] && es[1..][1..] == [];
    assert Possible(v, es[1..]) by {
      assert Possible(Step(v, Arrive(seg)), []);
    }
    assert Run(w, es) == Run(v, es[1..]) == Run(Step(v, Arrive(seg)), []) == Step(v, Arrive(seg));
  }

  lemma ClosingSegment(v: World)
    requires Invariant(v) && v.conn.state.FinWait1?
    ensures var u := Step(v, Arrive(FinalSegment(v)));
      u.conn.state.Closed? && u.acked == End(v) && u.sent == v.sent
  {
    var seg := FinalSegment(v);
    AckValidIsMembership(v.conn, seg.ackNum);
    ArrivedMoves(v, seg);
    var c := Acked(v.conn, seg);
    assert c.sndUna == c.sndNxt;
  }

  // ----- A run that gets there -----

  ghost predicate Reached(start: World, es: seq<Event>, w: World) {
    Possible(start, es) && Run(start, es) == w
  }

  /** A run goes on by one event. */
  lemma {:induction false} Extended(start: World, es: seq<Event>, w: World, e: Event)
    requires Reached(start, es, w) && Enabled(w, e)
    ensures Reached(start, es + [e], Step(w, e))
    decreases |es|
  {
    if es == [] {
      assert [e][1..] == [] && es + [e] == [e];
      assert Possible(Step(w, e), []) && Run(Step(w, e), []) == Step(w, e);
    } else {
      assert (es + [e])[1..] == es[1..] + [e];
      Extended(Step(start, es[0]), es[1..], w, e);
    }
  }

  /** What the sender has sent and what it still counts. */
  ghost predicate Counts(w: World, state: TcpState, una: u32, nxt: u32, acked: nat, sent: nat) {
    && w.conn.state == state && w.conn.sndUna == una && w.conn.sndNxt == nxt && !w.conn.reset && !w.conn.remoteClosed
    && w.acked == acked && w.sent == sent
  }

  lemma SynSentOnce(w: World)
    requires w.opening && Counts(w, SynSent, 1, 1, 0, 0)
    ensures Enabled(w, RetrySyn(true)) && Counts(Step(w, RetrySyn(true)), SynSent, 1, 2, 0, 1) && Step(w, RetrySyn(true)).opening
  {
  }

  lemma Answered(w: World, seg: Segment)
    requires w.opening && Counts(w, SynSent, 1, 2, 0, 1) && seg == Segment(5, 2, false, true, false, true, [])
    ensures Counts(Step(w, Arrive(seg)), Established, 2, 2, 1, 1) && Step(w, Arrive(seg)).opening
  {
  }

  lemma ChunkSent(w: World, data: seq<byte>, nxt: u32, sent: nat)
    requires !w.opening && Counts(w, Established, 2, nxt, 1, sent) && 1 + |data| <= 1201
    ensures var v := Step(w, SendRound(data, true));
      && Enabled(w, SendRound(data, true)) && !v.opening
      && Counts(v, Established, 2, 2 + |data|, 1, if 1 + |data| > sent then 1 + |data| else sent)
  {
  }

  /** Such a state is reached: 1200 bytes, then a call that sends 10, leave 1190 numbers above the window. */
  lemma ShrunkReachable(start: World, big: seq<byte>, small: seq<byte>) returns (es: seq<Event>)
    requires start == Start(1) && |big| == 1200 && |small| == 10
    ensures Possible(start, es)
    ensures var w := Run(start, es); w.conn.state.Established? && !w.opening && w.sent == End(w) + 1190
  {
    var seg := Segment(5, 2, false, true, false, true, []);
    SynSentOnce(start);
    var w1 := Step(start, RetrySyn(true));
    Extended(start, [], start, RetrySyn(true));
    Answered(w1, seg);
    var w2 := Step(w1, Arrive(seg));
    Extended(start, [] + [RetrySyn(true)], w1, Arrive(seg));
    es := [] + [RetrySyn(true)] + [Arrive(seg)];
    es := ShrunkFrom(start, es, w2, big, small);
  }

  lemma ShrunkFrom(start: World, es: seq<Event>, w: World, big: seq<byte>, small: seq<byte>) returns (all: seq<Event>)
    requires Reached(start, es, w) && w.opening && Counts(w, Established, 2, 2, 1, 1) && |big| == 1200 && |small| == 10
    ensures Possible(start, all)
    ensures var v := Run(start, all); v.conn.state.Established? && !v.opening && v.sent == End(v) + 1190
  {
    var w3 := Step(w, HandOut);
    Extended(start, es, w, HandOut);
    ChunkSent(w3, big, 2, 1);
    var w4 := Step(w3, SendRound(big, true));
    Extended(start, es + [HandOut], w3, SendRound(big, true));
    ChunkSent(w4, small, 1202, 1201);
    var w5 := Step(w4, SendRound(small, true));
    Extended(start, es + [HandOut] + [SendRound(big, true)], w4, SendRound(small, true));
    all := es + [HandOut] + [SendRound(big, true)] + [SendRound(small, true)];
  }

  lemma {:induction false} RunAppend(w: World, es: seq<Event>, more: seq<Event>)
    requires Possible(w, es) && Possible(Run(w, es), more)
    ensures Possible(w, es + more) && Run(w, es + more) == Run(Run(w, es), more)
    decreases |es|
  {
    if es == [] {
      assert es + more == more;
    } else {
      assert (es + more)[1..] == es[1..] + more;
      RunAppend(Step(w, es[0]), es[1..], more);
    }
  }

  lemma StartSound(iss: u32)
    ensures Invariant(Start(iss)) && Counted(Start(iss)) && FinSettled(Start(iss))
  {
  }

  lemma CloseFrom(w: World) returns (es: seq<Event>)
    requires Invariant(w) && Counted(w) && w.conn.state.Established? && !w.opening && End(w) + 1 < w.sent
    ensures Possible(w, es) && Run(w, es).conn.state.Closed? && Run(w, es).acked < Run(w, es).sent
  {
    ClosedWithoutAcknowledgement(w);
    es := [CallClose(true), Arrive(FinalSegment(Step(w, CallClose(true))))];
  }

  /** The run ends CLOSED with numbers sent and never acknowledged. */
  ghost predicate ClosesShort(start: World, es: seq<Event>) {
    Possible(start, es) && Run(start, es).conn.state.Closed? && Run(start, es).acked < Run(start, es).sent
  }

  lemma ShortAfter(start: World, first: seq<Event>) returns (es: seq<Event>)
    requires Invariant(start) && Counted(start) && FinSettled(start) && Possible(start, first)
    requires var w := Run(start, first); w.conn.state.Established? && !w.opening && End(w) + 1 < w.sent
    ensures ClosesShort(start, es)
  {
    RunKeeps(start, first);
    RunSettled(start, first);
    var last := CloseFrom(Run(start, first));
    RunAppend(start, first, last);
    es := first + last;
  }

  lemma UnacknowledgedClose(start: World, big: seq<byte>, small: seq<byte>) returns (es: seq<Event>)
    requires start == Start(1) && |big| == 1200 && |small| == 10
    ensures ClosesShort(start, es)
  {
    var first := ShrunkReachable(start, big, small);
    StartSound(start.iss);
    es := ShortAfter(start, first);
  }
}
