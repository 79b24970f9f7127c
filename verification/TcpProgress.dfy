/** What one segment does, said of the connection before and after it, and when the whole stream comes through. */
module TcpProgress {
  import opened Bytes
  import opened TcpSpec
  import opened TcpSafety

  // ----- One segment -----

  /** The segment stands at the next expected number and its bytes fit the 8191 the ring can hold. */
  ghost predicate Fits(c: Conn, seg: Segment) {
    seg.seqNum == c.rcvNxt && |c.rx| + |seg.data| <= 8191
  }

  /** The FIN stands at the next expected number, once the data before it is taken. */
  ghost predicate Consumes(c: Conn, seg: Segment) {
    seg.fin && (Fits(c, seg) || (seg.seqNum + |seg.data|) % 0x1_0000_0000 == c.rcvNxt)
  }

  ghost predicate Receives(c: Conn, seg: Segment, r: Conn) {
    && r.rx == (if Fits(c, seg) then c.rx + seg.data else c.rx)
    && r.rcvNxt == (c.rcvNxt + (if Fits(c, seg) then |seg.data| else 0) + if Consumes(c, seg) then 1 else 0) % 0x1_0000_0000
    && r.remoteClosed == (c.remoteClosed || Consumes(c, seg)) && r.reset == c.reset && r.sndNxt == c.sndNxt
  }

  lemma Adds(a: u32, len: nat, more: nat)
    requires len < 0x1_0000_0000
    ensures Add32(a, len % WRAP) == (a + len) % 0x1_0000_0000
    ensures Add32((a + len) % 0x1_0000_0000, more) == (a + len + more) % 0x1_0000_0000
    ensures len > 0 ==> (a + len) % 0x1_0000_0000 != a
  {
  }

  lemma DataReceived(c: Conn, seg: Segment)
    requires |c.rx| < 8192 && |seg.data| < 0x1_0000_0000
    ensures var d := TakeData(c, seg);
      && d == c.(rx := d.rx, rcvNxt := d.rcvNxt) && d.rx == (if Fits(c, seg) then c.rx + seg.data else c.rx)
      && d.rcvNxt == (if Fits(c, seg) then (c.rcvNxt + |seg.data|) % 0x1_0000_0000 else c.rcvNxt)
  {
    Adds(c.rcvNxt, |seg.data|, 0);
  }

  lemma FinReceived(c: Conn, seg: Segment)
    requires |c.rx| < 8192 && |seg.data| < 0x1_0000_0000
    ensures TakesFin(c, seg) <==> Consumes(c, seg)
  {
    AckedQueue(c, seg);
    DataReceived(Acked(c, seg), seg);
    Adds(seg.seqNum, |seg.data|, 0);
  }

  /** In every state but SYN_SENT, data in order that fits is queued and counted, and nothing else is. */
  lemma SegmentReceived(c: Conn, seg: Segment)
    requires !seg.rst && !c.state.SynSent? && |c.rx| < 8192 && |seg.data| < 0x1_0000_0000
    ensures Receives(c, seg, Handle(c, seg))
  {
    AckedQueue(c, seg);
    AckedRest(c, seg);
    DataReceived(Acked(c, seg), seg);
    FinReceived(c, seg);
    FinCounted(TakeData(Acked(c, seg), seg));
    var len := if Fits(c, seg) then |seg.data| else 0;
    Adds(c.rcvNxt, len, 1);
    Adds(c.rcvNxt, 0, 0);
  }

  lemma FinCounted(c: Conn)
    ensures HandleFin(c) == c.(remoteClosed := true, rcvNxt := Add32(c.rcvNxt, 1), state := HandleFin(c).state)
  {
  }

  lemma AckedRest(c: Conn, seg: Segment)
    ensures var d := Acked(c, seg); d.remoteClosed == c.remoteClosed && d.reset == c.reset && d.sndNxt == c.sndNxt
  {
  }

  // ----- Acknowledgements and states -----

  /** The number lies between the oldest unacknowledged one and the next to be sent. */
  ghost predicate InWindow(c: Conn, ack: u32) {
    (ack + 0x1_0000_0000 - c.sndUna) % 0x1_0000_0000 <= (c.sndNxt + 0x1_0000_0000 - c.sndUna) % 0x1_0000_0000
  }

  /** Everything sent is acknowledged by the segment. */
  ghost predicate AcksAll(c: Conn, seg: Segment) {
    seg.ack && InWindow(c, seg.ackNum) && seg.ackNum == c.sndNxt
  }

  /** Where a segment leads that is no reset. */
  ghost function Leads(state: TcpState, acksAll: bool, fin: bool): TcpState {
    match state
    case Established => if fin then CloseWait else Established
    case FinWait1 => if acksAll && fin then Closed else if acksAll then FinWait2 else if fin then Closing else FinWait1
    case FinWait2 => if fin then Closed else FinWait2
    case Closing => if acksAll then Closed else Closing
    case LastAck => if acksAll then Closed else LastAck
    case other => other
  }

  /** While our FIN is unacknowledged something is in flight. */
  ghost predicate FinInFlight(c: Conn) {
    c.state.FinWait1? || c.state.Closing? || c.state.LastAck? ==> c.sndUna != c.sndNxt
  }

  lemma AckLeads(c: Conn, ack: u32)
    requires InFlight(c) < HALF && FinInFlight(c) && !c.state.SynSent?
    requires c.state.FinWait1? ==> !c.remoteClosed
    ensures var d := UpdateAck(c, ack);
      && d == c.(sndUna := d.sndUna, state := d.state)
      && d.sndUna == (if InWindow(c, ack) then ack else c.sndUna)
      && d.state == Leads(c.state, InWindow(c, ack) && ack == c.sndNxt, false) && FinInFlight(d)
  {
    AckValidIsMembership(c, ack);
  }

  /** The acknowledgement moves inside the window only, and the states follow RFC 793. */
  lemma SegmentLeads(w: World, seg: Segment)
    requires Invariant(w) && FinInFlight(w.conn) && !seg.rst && !w.conn.state.SynSent? && |seg.data| < 0x1_0000_0000
    ensures var c, r := w.conn, Handle(w.conn, seg);
      && r.sndUna == (if seg.ack && InWindow(c, seg.ackNum) then seg.ackNum else c.sndUna)
      && r.state == Leads(c.state, AcksAll(c, seg), Consumes(c, seg)) && FinInFlight(r)
  {
    if seg.ack { AckLeads(w.conn, seg.ackNum); }
    AckedQueue(w.conn, seg);
    DataReceived(Acked(w.conn, seg), seg);
    FinReceived(w.conn, seg);
  }

  lemma FinFlies(w: World, e: Event)
    requires Invariant(w) && FinInFlight(w.conn) && Enabled(w, e) && (e.Arrive? ==> |e.seg.data| < 0x1_0000_0000)
    ensures FinInFlight(Step(w, e).conn)
  {
    match e {
      case Arrive(seg) => if !seg.rst && !w.conn.state.SynSent? { SegmentLeads(w, seg); }
      case CallClose(ok) => SentInFlight(w.conn, false, true, 0, ok);
      case _ =>
    }
  }

  /** Segments as the header's lengths allow them. */
  ghost predicate Sized(es: seq<Event>) {
    forall k :: 0 <= k < |es| && es[k].Arrive? ==> |es[k].seg.data| < 0x1_0000_0000
  }

  /** So in every run the states move exactly as the table says. */
  lemma {:induction false} FinFliesOn(w: World, es: seq<Event>)
    requires Invariant(w) && FinInFlight(w.conn) && Possible(w, es) && Sized(es)
    ensures Invariant(Run(w, es)) && FinInFlight(Run(w, es).conn)
    decreases |es|
  {
    if es != [] {
      StepKeeps(w, es[0]);
      FinFlies(w, es[0]);
      FinFliesOn(Step(w, es[0]), es[1..]);
    }
  }

  /** A connection that waits for its handshake takes SYN and ACK for the number it sent, and nothing else. */
  lemma HandshakeIs(c: Conn, seg: Segment)
    requires c.state.SynSent? && InFlight(c) < HALF && !seg.rst
    ensures Handle(c, seg) ==
      if seg.syn && seg.ack && seg.ackNum == c.sndNxt
      then c.(state := Established, sndUna := c.sndNxt, rcvNxt := (seg.seqNum + 1) % 0x1_0000_0000) else c
  {
    AckValidIsMembership(c, seg.ackNum);
  }

  /** A reset ends it in any state, and the bytes already queued stay. */
  lemma ResetIs(c: Conn, seg: Segment)
    requires seg.rst
    ensures Handle(c, seg) == c.(state := Reset, reset := true, remoteClosed := true)
  {
  }

  /** The numbers that leave: one for SYN or FIN, one for each byte, from the oldest unacknowledged number on. */
  lemma SendsAre(c: Conn, len: nat)
    requires len <= 1200
    ensures SendSyn(c, true) == c.(sndNxt := (c.sndUna + 1) % 0x1_0000_0000)
    ensures !c.reset && (c.state.Established? || c.state.CloseWait?) && !c.remoteClosed ==>
      SendChunk(c, len, true) == c.(sndNxt := (c.sndUna + len) % 0x1_0000_0000)
    ensures c.state.Established? ==> Close(c, true) == c.(state := FinWait1, sndNxt := (c.sndNxt + 1) % 0x1_0000_0000)
    ensures c.state.CloseWait? ==> Close(c, true) == c.(state := LastAck, sndNxt := (c.sndNxt + 1) % 0x1_0000_0000)
  {
  }

  // ----- The peer's stream in pieces -----

  ghost function Flat(pieces: seq<seq<byte>>): seq<byte> {
    if pieces == [] then [] else Flat(pieces[..|pieces| - 1]) + pieces[|pieces| - 1]
  }

  /** The peer always cuts its stream at the same places. */
  ghost predicate Cuts(peer: Peer, pieces: seq<seq<byte>>) {
    && |peer.stream| < 0x8000_0000 && Flat(pieces) == peer.stream
    && forall k :: 0 <= k < |pieces| ==> pieces[k] != []
  }

  ghost function Offset(pieces: seq<seq<byte>>, k: nat): nat
    requires k <= |pieces|
  {
    |Flat(pieces[..k])|
  }

  lemma FlatStep(pieces: seq<seq<byte>>, k: nat)
    requires k < |pieces|
    ensures Flat(pieces[..k + 1]) == Flat(pieces[..k]) + pieces[k]
  {
    assert pieces[..k + 1][..k] == pieces[..k];
  }

  lemma {:induction false} OffsetGrows(pieces: seq<seq<byte>>, i: nat, j: nat)
    requires i <= j <= |pieces| && forall k :: 0 <= k < |pieces| ==> pieces[k] != []
    ensures Offset(pieces, i) + j - i <= Offset(pieces, j)
    decreases j - i
  {
    if i < j {
      FlatStep(pieces, j - 1);
      OffsetGrows(pieces, i, j - 1);
    }
  }

  /** The number of the first byte of piece k; of the FIN when there is no such piece. */
  ghost function Place(peer: Peer, pieces: seq<seq<byte>>, k: nat): nat
    requires k <= |pieces|
  {
    (peer.irs + 1 + Offset(pieces, k)) % 0x1_0000_0000
  }

  /** Piece k, with the FIN on the last piece or alone behind it. */
  ghost predicate IsPiece(peer: Peer, pieces: seq<seq<byte>>, seg: Segment, k: nat) {
    && k <= |pieces| && !seg.rst && seg.seqNum == Place(peer, pieces, k)
    && seg.data == (if k < |pieces| then pieces[k] else [])
    && (if k < |pieces| then seg.fin ==> k == |pieces| - 1 else seg.fin)
  }

  /** How many pieces are taken after the segment, the FIN counted as the one behind the last. */
  ghost function Taking(pieces: seq<seq<byte>>, next: nat, k: nat, fin: bool, fits: bool): nat {
    if k == next && fits then (if fin then |pieces| + 1 else next + 1)
    else if next == |pieces| && fin then |pieces| + 1
    else next
  }

  /** The first `next` pieces are read or queued, and the FIN is taken when `next` is past the last. */
  ghost predicate Has(peer: Peer, pieces: seq<seq<byte>>, w: World, next: nat) {
    && next <= |pieces| + 1 && w.established && w.finTaken == (next == |pieces| + 1)
    && var k := Min(next, |pieces|);
      && w.delivered + w.conn.rx == Flat(pieces[..k])
      && w.conn.rcvNxt == (peer.irs + 1 + Offset(pieces, k) + if w.finTaken then 1 else 0) % 0x1_0000_0000
  }

  lemma EndOffset(peer: Peer, pieces: seq<seq<byte>>, k: nat)
    requires Cuts(peer, pieces) && k <= |pieces|
    ensures Offset(pieces, k) <= |peer.stream| && (Offset(pieces, k) == |peer.stream| <==> k == |pieces|)
  {
    assert pieces[..|pieces|] == pieces;
    OffsetGrows(pieces, k, |pieces|);
  }

  lemma SameNumber(irs: u32, a: nat, b: nat)
    requires a <= 0x8000_0000 && b <= 0x8000_0000
    ensures (irs + 1 + a) % 0x1_0000_0000 == (irs + 1 + b) % 0x1_0000_0000 <==> a == b
  {
  }

  /** A piece stands at the next expected number if and only if it is the next piece. */
  lemma PieceHere(peer: Peer, pieces: seq<seq<byte>>, w: World, next: nat, k: nat)
    requires Cuts(peer, pieces) && Has(peer, pieces, w, next) && k <= |pieces|
    ensures Place(peer, pieces, k) == w.conn.rcvNxt <==> k == next
  {
    var n := Min(next, |pieces|);
    EndOffset(peer, pieces, k);
    EndOffset(peer, pieces, n);
    SameNumber(peer.irs, Offset(pieces, k), Offset(pieces, n) + if w.finTaken then 1 else 0);
    if k <= n { OffsetGrows(pieces, k, n); } else { OffsetGrows(pieces, n, k); }
  }

  lemma Counts(irs: u32, off: nat, more: nat)
    ensures ((irs + 1 + off) % 0x1_0000_0000 + more) % 0x1_0000_0000 == (irs + 1 + off + more) % 0x1_0000_0000
  {
  }

  lemma FinHere(peer: Peer, pieces: seq<seq<byte>>, w: World, next: nat, seg: Segment, k: nat)
    requires Cuts(peer, pieces) && Has(peer, pieces, w, next) && IsPiece(peer, pieces, seg, k) && seg.fin
    ensures (seg.seqNum + |seg.data|) % 0x1_0000_0000 == w.conn.rcvNxt <==> next == |pieces|
  {
    if k < |pieces| { FlatStep(pieces, k); }
    PieceHere(peer, pieces, w, next, |pieces|);
    Counts(peer.irs, Offset(pieces, k), |seg.data|);
  }

  /** w with the next piece, the FIN, both or neither. */
  ghost predicate Gains(pieces: seq<seq<byte>>, w: World, v: World, next: nat, data: bool, fin: bool) {
    && (data ==> next < |pieces|) && (fin ==> next + (if data then 1 else 0) == |pieces|)
    && v.delivered == w.delivered && v.established == w.established && v.finTaken == (w.finTaken || fin)
    && v.conn.rx == (if data then w.conn.rx + pieces[next] else w.conn.rx)
    && v.conn.rcvNxt == (w.conn.rcvNxt + (if data then |pieces[next]| else 0) + if fin then 1 else 0) % 0x1_0000_0000
  }

  lemma GainsHas(peer: Peer, pieces: seq<seq<byte>>, w: World, v: World, next: nat, data: bool, fin: bool)
    requires Has(peer, pieces, w, next) && Gains(pieces, w, v, next, data, fin)
    ensures Has(peer, pieces, v, next + (if data then 1 else 0) + if fin then 1 else 0)
  {
    if data {
      FlatStep(pieces, next);
      assert w.delivered + (w.conn.rx + pieces[next]) == (w.delivered + w.conn.rx) + pieces[next];
    }
    if data || fin {
      Counts(peer.irs, Offset(pieces, next), (if data then |pieces[next]| else 0) + if fin then 1 else 0);
    }
  }

  lemma PieceGains(peer: Peer, pieces: seq<seq<byte>>, w: World, seg: Segment, k: nat, next: nat)
    requires Cuts(peer, pieces) && Invariant(w) && Has(peer, pieces, w, next) && IsPiece(peer, pieces, seg, k)
    ensures var fits := k == next && |w.conn.rx| + |seg.data| <= 8191;
      Gains(pieces, w, Step(w, Arrive(seg)), next, fits && k < |pieces|, seg.fin && (fits || next == |pieces|))
  {
    PieceSized(peer, pieces, k);
    SegmentReceived(w.conn, seg);
    FinReceived(w.conn, seg);
    PieceHere(peer, pieces, w, next, k);
    if seg.fin { FinHere(peer, pieces, w, next, seg, k); }
  }

  /** A piece that arrives is taken if and only if it is the next one and fits; anything else changes nothing. */
  lemma PieceTaken(peer: Peer, pieces: seq<seq<byte>>, w: World, seg: Segment, k: nat, next: nat)
    requires Cuts(peer, pieces) && Invariant(w) && Has(peer, pieces, w, next) && IsPiece(peer, pieces, seg, k)
    ensures Has(peer, pieces, Step(w, Arrive(seg)),
                Taking(pieces, next, k, seg.fin, |w.conn.rx| + |seg.data| <= 8191))
  {
    var fits := k == next && |w.conn.rx| + |seg.data| <= 8191;
    PieceGains(peer, pieces, w, seg, k, next);
    GainsHas(peer, pieces, w, Step(w, Arrive(seg)), next, fits && k < |pieces|, seg.fin && (fits || next == |pieces|));
  }

  lemma PieceSized(peer: Peer, pieces: seq<seq<byte>>, k: nat)
    requires Cuts(peer, pieces) && k <= |pieces|
    ensures k < |pieces| ==> |pieces[k]| < 0x1_0000_0000
  {
    if k < |pieces| {
      FlatStep(pieces, k);
      EndOffset(peer, pieces, k + 1);
    }
  }

  // ----- Whole runs -----

  /** No data, no FIN, no reset. */
  ghost predicate Bare(seg: Segment) {
    seg.data == [] && !seg.fin && !seg.rst
  }

  ghost predicate SomePiece(peer: Peer, pieces: seq<seq<byte>>, seg: Segment) {
    exists k: nat :: IsPiece(peer, pieces, seg, k)
  }

  /** Only pieces and bare segments arrive, in any order and any number of times. */
  ghost predicate Ordinary(peer: Peer, pieces: seq<seq<byte>>, es: seq<Event>) {
    forall j :: 0 <= j < |es| && es[j].Arrive? ==> Bare(es[j].seg) || SomePiece(peer, pieces, es[j].seg)
  }

  /** The reads keep room free for whatever arrives. */
  ghost predicate Roomy(w: World, es: seq<Event>)
    decreases |es|
  {
    es == [] || ((es[0].Arrive? ==> |w.conn.rx| + |es[0].seg.data| <= 8191) && Roomy(Step(w, es[0]), es[1..]))
  }

  /** Among everything else, piece k, the pieces behind it and the FIN arrive in this order. */
  ghost predicate Brings(peer: Peer, pieces: seq<seq<byte>>, es: seq<Event>, k: nat)
    decreases |es|
  {
    || k > |pieces|
    || (es != [] && es[0].Arrive? && IsPiece(peer, pieces, es[0].seg, k)
        && Brings(peer, pieces, es[1..], if es[0].seg.fin then |pieces| + 1 else k + 1))
    || (es != [] && Brings(peer, pieces, es[1..], k))
  }

  lemma BareChangesNothing(peer: Peer, pieces: seq<seq<byte>>, w: World, seg: Segment, next: nat)
    requires Invariant(w) && Has(peer, pieces, w, next) && Bare(seg)
    ensures Has(peer, pieces, Step(w, Arrive(seg)), next)
  {
    SegmentReceived(w.conn, seg);
    FinReceived(w.conn, seg);
    assert w.conn.rx + seg.data == w.conn.rx;
    GainsHas(peer, pieces, w, Step(w, Arrive(seg)), next, false, false);
  }

  lemma LocalKeeps(peer: Peer, pieces: seq<seq<byte>>, w: World, e: Event, next: nat)
    requires Invariant(w) && Has(peer, pieces, w, next) && Enabled(w, e) && !e.Arrive?
    ensures Has(peer, pieces, Step(w, e), next)
  {
    if e.CallReceive? {
      var n := Min(e.len, |w.conn.rx|);
      assert w.conn.rx == w.conn.rx[..n] + w.conn.rx[n..];
      assert w.delivered + w.conn.rx == (w.delivered + w.conn.rx[..n]) + w.conn.rx[n..];
    }
  }

  /** One event: the count of pieces never falls, and an arrival that brings piece k leaves more than k behind. */
  lemma EventTakes(peer: Peer, pieces: seq<seq<byte>>, w: World, e: Event, next: nat) returns (more: nat)
    requires Cuts(peer, pieces) && Invariant(w) && Has(peer, pieces, w, next) && Enabled(w, e)
    requires e.Arrive? ==> Bare(e.seg) || SomePiece(peer, pieces, e.seg)
    requires e.Arrive? ==> |w.conn.rx| + |e.seg.data| <= 8191
    ensures next <= more && Has(peer, pieces, Step(w, e), more)
    ensures e.Arrive? && IsPiece(peer, pieces, e.seg, next) ==> more == if e.seg.fin then |pieces| + 1 else next + 1
    ensures e.Arrive? && e.seg.fin && next >= |pieces| ==> more == |pieces| + 1
  {
    if !e.Arrive? {
      LocalKeeps(peer, pieces, w, e, next);
      more := next;
    } else if Bare(e.seg) {
      BareChangesNothing(peer, pieces, w, e.seg, next);
      more := next;
    } else {
      var k: nat :| IsPiece(peer, pieces, e.seg, k);
      PieceHere(peer, pieces, w, next, k);
      PieceTaken(peer, pieces, w, e.seg, k, next);
      more := Taking(pieces, next, k, e.seg.fin, true);
    }
  }

  /** Everything is read or queued and the FIN taken once all pieces have come in order, whatever else came. */
  lemma {:induction false} StreamComes(peer: Peer, pieces: seq<seq<byte>>, w: World, es: seq<Event>, next: nat, k: nat)
    requires Cuts(peer, pieces) && Invariant(w) && Has(peer, pieces, w, next) && k <= next
    requires Possible(w, es) && Ordinary(peer, pieces, es) && Roomy(w, es) && Brings(peer, pieces, es, k)
    ensures Has(peer, pieces, Run(w, es), |pieces| + 1)
    decreases |es|
  {
    if es != [] {
      StepKeeps(w, es[0]);
      var more := EventTakes(peer, pieces, w, es[0], next);
      if Brings(peer, pieces, es[1..], k) {
        StreamComes(peer, pieces, Step(w, es[0]), es[1..], more, k);
      } else {
        StreamComes(peer, pieces, Step(w, es[0]), es[1..], more, if es[0].seg.fin then |pieces| + 1 else k + 1);
      }
    }
  }

  /** A connection is opened: SYN out, the peer's SYN and ACK in, the handle given to the caller. */
  ghost function Opening(peer: Peer, iss: u32): seq<Event> {
    [RetrySyn(true), Arrive(Segment(peer.irs, (iss + 1) % 0x1_0000_0000, false, true, false, true, [])), HandOut]
  }

  lemma Opened(peer: Peer, pieces: seq<seq<byte>>, iss: u32)
    ensures Possible(Start(iss), Opening(peer, iss))
    ensures var w := Run(Start(iss), Opening(peer, iss));
      && Has(peer, pieces, w, 0) && Invariant(w) && !w.opening && w.conn.state.Established?
      && w.delivered == [] && w.conn.rx == []
  {
    var es, w0 := Opening(peer, iss), Start(iss);
    var w1 := Step(w0, es[0]);
    SentInFlight(w0.conn, true, false, 0, true);
    HandshakeIs(w1.conn, es[1].seg);
    var w2 := Step(w1, es[1]);
    StepKeeps(w0, es[0]);
    StepKeeps(w1, es[1]);
    StepKeeps(w2, es[2]);
    assert es[1..] == [es[1], es[2]] && [es[1], es[2]][1..] == [es[2]] && [es[2]][1..] == [];
    assert Possible(w2, [es[2]]) && Possible(w1, [es[1], es[2]]);
    assert Run(w0, es) == Run(w1, [es[1], es[2]]) == Run(w2, [es[2]]) == Run(Step(w2, es[2]), []);
  }

  /**
    After a handshake, when the pieces and the FIN have come in order among whatever else came, and the reads kept
    room free, one more read of what is queued gives the reader exactly the peer's stream, and its end.
   */
  lemma StreamDelivered(peer: Peer, pieces: seq<seq<byte>>, iss: u32, es: seq<Event>, len: nat)
    requires Cuts(peer, pieces) && Possible(Run(Start(iss), Opening(peer, iss)), es) && Ordinary(peer, pieces, es)
    requires Roomy(Run(Start(iss), Opening(peer, iss)), es) && Brings(peer, pieces, es, 0)
    requires len >= |Run(Run(Start(iss), Opening(peer, iss)), es).conn.rx|
    ensures var w := Step(Run(Run(Start(iss), Opening(peer, iss)), es), CallReceive(len));
      w.delivered == peer.stream && w.finTaken && w.conn.remoteClosed && w.conn.rx == []
  {
    Opened(peer, pieces, iss);
    var w := Run(Start(iss), Opening(peer, iss));
    StreamComes(peer, pieces, w, es, 0, 0);
    RunKeeps(w, es);
    assert pieces[..|pieces|] == pieces;
  }

  // ----- A run that does so -----

  ghost function PieceSegment(peer: Peer, pieces: seq<seq<byte>>, k: nat): Segment
    requires k <= |pieces|
  {
    Segment(Place(peer, pieces, k), 0, k == |pieces|, false, false, false, if k < |pieces| then pieces[k] else [])
  }

  /** Piece after piece arrives and is read. */
  ghost function Feed(peer: Peer, pieces: seq<seq<byte>>, k: nat): seq<Event>
    requires k <= |pieces|
    decreases |pieces| - k
  {
    [Arrive(PieceSegment(peer, pieces, k)), CallReceive(8191)] + if k < |pieces| then Feed(peer, pieces, k + 1) else []
  }

  lemma TwoSteps(w: World, a: Event, b: Event, es: seq<Event>)
    requires Enabled(w, a) && Enabled(Step(w, a), b) && Possible(Step(Step(w, a), b), es)
    ensures Possible(w, [a, b] + es) && Run(w, [a, b] + es) == Run(Step(Step(w, a), b), es)
  {
    assert ([a, b] + es)[1..] == [b] + es && ([b] + es)[1..] == es;
    assert Possible(Step(w, a), [b] + es);
  }

  lemma FeedStep(peer: Peer, pieces: seq<seq<byte>>, w: World, k: nat)
    requires Cuts(peer, pieces) && Invariant(w) && !w.opening && Has(peer, pieces, w, k) && w.conn.rx == []
    requires k <= |pieces| && (k < |pieces| ==> |pieces[k]| <= 8191)
    ensures var v := Step(Step(w, Arrive(PieceSegment(peer, pieces, k))), CallReceive(8191));
      Invariant(v) && !v.opening && Has(peer, pieces, v, k + 1) && v.conn.rx == []
  {
    var seg := PieceSegment(peer, pieces, k);
    StepKeeps(w, Arrive(seg));
    PieceTaken(peer, pieces, w, seg, k, k);
    var u := Step(w, Arrive(seg));
    StepKeeps(u, CallReceive(8191));
    LocalKeeps(peer, pieces, u, CallReceive(8191), k + 1);
  }

  /** Every stream below 2^31 bytes in pieces that fit the ring is delivered whole by its own run. */
  lemma {:induction false} FeedDelivers(peer: Peer, pieces: seq<seq<byte>>, w: World, k: nat)
    requires Cuts(peer, pieces) && Invariant(w) && !w.opening && Has(peer, pieces, w, k) && w.conn.rx == []
    requires k <= |pieces| && forall j :: 0 <= j < |pieces| ==> |pieces[j]| <= 8191
    ensures Possible(w, Feed(peer, pieces, k))
    ensures Run(w, Feed(peer, pieces, k)).delivered == peer.stream && Run(w, Feed(peer, pieces, k)).finTaken
    decreases |pieces| - k
  {
    var seg := PieceSegment(peer, pieces, k);
    var v := Step(Step(w, Arrive(seg)), CallReceive(8191));
    FeedStep(peer, pieces, w, k);
    if k < |pieces| {
      FeedDelivers(peer, pieces, v, k + 1);
      TwoSteps(w, Arrive(seg), CallReceive(8191), Feed(peer, pieces, k + 1));
    } else {
      assert pieces[..|pieces|] == pieces;
      TwoSteps(w, Arrive(seg), CallReceive(8191), []);
    }
  }

  lemma FeedFromStart(peer: Peer, pieces: seq<seq<byte>>, iss: u32)
    requires Cuts(peer, pieces) && forall j :: 0 <= j < |pieces| ==> |pieces[j]| <= 8191
    ensures var w := Run(Start(iss), Opening(peer, iss));
      && Possible(w, Feed(peer, pieces, 0))
      && Run(w, Feed(peer, pieces, 0)).delivered == peer.stream && Run(w, Feed(peer, pieces, 0)).finTaken
  {
    Opened(peer, pieces, iss);
    FeedDelivers(peer, pieces, Run(Start(iss), Opening(peer, iss)), 0);
  }
}
