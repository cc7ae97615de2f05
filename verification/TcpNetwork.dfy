/**
 Two established endpoints over a network that loses, repeats and reorders segments.
 A segment put out stays available for delivery, any number of times and in any order,
 until the network loses it.
 */
module TcpNetwork {
  import opened Common
  import opened TcpSpec
  import opened TcpStream

  /** An endpoint, with what its caller passed to `send` and what `on_segment` handed up. */
  datatype End = End(conn: Conn, passed: seq<byte>, closed: bool, given: seq<byte>) {
    function Stream(): seq<Sym> { DataSyms(passed) + (if closed then [Fin] else []) }

    /** How many symbols of the peer's stream this end has taken. */
    function Rcvd(): nat { |given| + (if conn.peerFinished then 1 else 0) }
  }

  /** `isnA` is where A's stream starts in the sequence space, `isnB` where B's does. */
  datatype World = World(a: End, b: End, ab: set<Segment>, ba: set<Segment>, isnA: u32, isnB: u32) {
    function Flip(): World { World(b, a, ba, ab, isnB, isnA) }
  }

  datatype Op =
    | OpSend(payload: seq<byte>, now: u64, room: nat)
    | OpClose(now: u64, room: nat)
    | OpTimeout(now: u64, room: nat)
    | OpDeliver(s: Segment, now: u64, room: nat)
    | OpLose(s: Segment)

  /** A step is an operation at one end; only a segment the network holds can be delivered. */
  datatype Step = Step(left: bool, op: Op)

  function Put(net: set<Segment>, s: Option<Segment>): set<Segment>
  {
    if s.Some? then net + {s.value} else net
  }

  function ActA(w: World, op: Op): World
  {
    match op
    case OpSend(payload, now, room) =>
      var (c, out) := Send(w.a.conn, payload, now, room);
      w.(a := w.a.(conn := c, passed := if out.Some? then w.a.passed + payload else w.a.passed), ab := Put(w.ab, out))
    case OpClose(now, room) =>
      var (c, out) := Close(w.a.conn, now, room);
      w.(a := w.a.(conn := c, closed := w.a.closed || out.Some?), ab := Put(w.ab, out))
    case OpTimeout(now, room) =>
      var (c, out) := OnTimeout(w.a.conn, now, room);
      w.(a := w.a.(conn := c), ab := Put(w.ab, out))
    case OpDeliver(s, now, room) =>
      if s !in w.ba then w
      else
        var r := OnSegment(w.a.conn, s, now, room);
        w.(a := w.a.(conn := r.conn, given := w.a.given + s.payload[..r.accepted]), ab := Put(w.ab, r.reply))
    case OpLose(s) => w.(ba := w.ba - {s})
  }

  function Act(w: World, step: Step): World
  {
    if step.left then ActA(w, step.op) else ActA(w.Flip(), step.op).Flip()
  }

  // ----- the invariant, one direction at a time -----

  /** `s` travelled from an end whose stream is `stream` and which had taken at most `rcvd` symbols. */
  ghost predicate Travelling(s: Segment, isn: u32, stream: seq<Sym>, back: u32, rcvd: nat)
  {
    && !s.flags.syn && !s.flags.rst
    && (exists at: nat :: Carries(s, isn, at, stream))
    && (exists j: nat :: Acks(s.ackNo, back, j, rcvd))
  }

  predicate Acks(ackNo: u32, isn: u32, j: nat, rcvd: nat) { j <= rcvd && ackNo == WrapAdd(isn, j) }

  ghost predicate NetOk(net: set<Segment>, isn: u32, stream: seq<Sym>, back: u32, rcvd: nat)
  {
    forall s :: s in net ==> Travelling(s, isn, stream, back, rcvd)
  }

  const HALF := 0x8000_0000

  /** What sender `s` and receiver `r` agree on about the stream from `s` to `r`. */
  ghost predicate Dir(s: End, r: End, isn: u32)
  {
    && |s.passed| + 1 < HALF
    && SenderInv(s.conn, isn, s.Stream())
    && s.conn.state in {Established, FinWait, Done, Aborted}
    && (s.conn.state == Established ==> !s.closed)
    && (s.conn.state in {FinWait, Done} ==> s.closed)
    && r.conn.rcvNxt == WrapAdd(isn, r.Rcvd())
    && r.given <= s.passed
    && (r.conn.peerFinished ==> s.closed && r.given == s.passed)
    && (s.conn.state != Aborted ==> Una(s.conn, s.Stream()) <= r.Rcvd())
    && (exists j: nat :: Acks(s.conn.sndUna, isn, j, r.Rcvd()))
    && (s.conn.state == Done ==> r.Rcvd() == |s.Stream()| && s.conn.peerFinished)
  }

  ghost predicate Inv(w: World)
  {
    && Dir(w.a, w.b, w.isnA) && Dir(w.b, w.a, w.isnB)
    && NetOk(w.ab, w.isnA, w.a.Stream(), w.isnB, w.a.Rcvd())
    && NetOk(w.ba, w.isnB, w.b.Stream(), w.isnA, w.b.Rcvd())
  }

  // ----- what the network holds stays true -----

  lemma NetGrows(net: set<Segment>, isn: u32, stream: seq<Sym>, more: seq<Sym>, back: u32, rcvd: nat, rcvd': nat)
    requires NetOk(net, isn, stream, back, rcvd) && rcvd <= rcvd'
    ensures NetOk(net, isn, stream + more, back, rcvd')
  {
    forall s | s in net ensures Travelling(s, isn, stream + more, back, rcvd') {
      assert Travelling(s, isn, stream, back, rcvd);
      var at: nat :| Carries(s, isn, at, stream);
      var n := SequenceLen(s.flags, s.payload);
      assert (stream + more)[at..at + n] == stream[at..at + n];
      assert Carries(s, isn, at, stream + more);
      var j: nat :| Acks(s.ackNo, back, j, rcvd);
      assert Acks(s.ackNo, back, j, rcvd');
    }
  }

  lemma NetPut(net: set<Segment>, out: Option<Segment>, isn: u32, stream: seq<Sym>, back: u32, rcvd: nat, at: nat)
    requires NetOk(net, isn, stream, back, rcvd)
    requires out.Some? ==> !out.value.flags.syn && !out.value.flags.rst && Carries(out.value, isn, at, stream)
                           && out.value.ackNo == WrapAdd(back, rcvd)
    ensures NetOk(Put(net, out), isn, stream, back, rcvd)
  {
    if out.Some? {
      assert Acks(out.value.ackNo, back, rcvd, rcvd);
    }
  }

  lemma RcvdWithin(s: End, r: End, isn: u32)
    requires Dir(s, r, isn)
    ensures r.Rcvd() <= |s.Stream()| < HALF
  {}

  // ----- what is sent -----

  lemma SendStep(w: World, payload: seq<byte>, now: u64, room: nat)
    requires Inv(w) && |w.a.passed| + |payload| + 1 < HALF
    ensures Inv(ActA(w, OpSend(payload, now, room)))
  {
    var (c, out) := Send(w.a.conn, payload, now, room);
    var w' := ActA(w, OpSend(payload, now, room));
    SendKeeps(w.a.conn, payload, now, room, w.isnA, w.a.Stream());
    if out.Some? {
      assert w'.a.Stream() == w.a.Stream() + DataSyms(payload);
      NetGrows(w.ab, w.isnA, w.a.Stream(), DataSyms(payload), w.isnB, w.a.Rcvd(), w.a.Rcvd());
      NetPut(w.ab, out, w.isnA, w'.a.Stream(), w.isnB, w.a.Rcvd(), |w.a.Stream()|);
    }
  }

  lemma CloseStep(w: World, now: u64, room: nat)
    requires Inv(w)
    ensures Inv(ActA(w, OpClose(now, room)))
  {
    var (c, out) := Close(w.a.conn, now, room);
    var w' := ActA(w, OpClose(now, room));
    CloseKeeps(w.a.conn, now, room, w.isnA, w.a.Stream());
    if out.Some? {
      assert w'.a.Stream() == w.a.Stream() + [Fin];
      NetGrows(w.ab, w.isnA, w.a.Stream(), [Fin], w.isnB, w.a.Rcvd(), w.a.Rcvd());
      NetPut(w.ab, out, w.isnA, w'.a.Stream(), w.isnB, w.a.Rcvd(), |w.a.Stream()|);
    }
  }

  lemma SynLeads(flags: Flags, payload: seq<byte>)
    ensures flags.syn ==> Syms(flags, payload) != [] && Syms(flags, payload)[0] == Syn
  {}

  /** An end whose stream has no SYN in it never retransmits one. */
  lemma RetransmitIsClean(c: Conn, now: u64, room: nat, isn: u32, stream: seq<Sym>)
    requires SenderInv(c, isn, stream) && Syn !in stream
    ensures var (r, out) := OnTimeout(c, now, room);
            out.Some? ==> !out.value.flags.syn && !out.value.flags.rst && out.value.ackNo == c.rcvNxt
  {
    if c.unacked != [] {
      SynLeads(c.unacked[0].flags, c.unacked[0].payload);
    }
  }

  lemma TimeoutFrame(c: Conn, now: u64, room: nat)
    ensures var r := OnTimeout(c, now, room).0;
            && r == c.(unacked := r.unacked, rto := r.rto, retransmissions := r.retransmissions, state := r.state)
            && (r.state == c.state || r.state == Aborted)
  {}

  lemma TimeoutStep(w: World, now: u64, room: nat)
    requires Inv(w)
    ensures Inv(ActA(w, OpTimeout(now, room)))
  {
    hide OnTimeout, NetOk;
    var (c, out) := OnTimeout(w.a.conn, now, room);
    TimeoutFrame(w.a.conn, now, room);
    TimeoutKeeps(w.a.conn, now, room, w.isnA, w.a.Stream());
    RetransmitIsClean(w.a.conn, now, room, w.isnA, w.a.Stream());
    NetPut(w.ab, out, w.isnA, w.a.Stream(), w.isnB, w.a.Rcvd(), Una(w.a.conn, w.a.Stream()));
  }

  // ----- what is delivered -----

  /** An acknowledgement the peer really sent releases only what the peer has taken. */
  lemma AckedUna(c: Conn, ack: u32, now: u64, isn: u32, stream: seq<Sym>, j: nat, rcvd: nat)
    requires SenderInv(c, isn, stream) && c.state != SynSent
    requires rcvd <= |stream| < HALF && Una(c, stream) <= rcvd && Acks(ack, isn, j, rcvd)
    ensures Una(Acknowledge(c, ack, now), stream) <= rcvd
  {
    var una := Una(c, stream);
    AcknowledgeKeeps(c, ack, now, isn, stream);
    AckReleasesAsUnbounded(c.unacked, isn, una, stream, j);
    ReleasedReach(c.unacked, una, j);
  }

  lemma ByteSpells(flags: Flags, payload: seq<byte>, at: nat, e: End, i: nat)
    requires !flags.syn && at + SequenceLen(flags, payload) <= |e.Stream()| && i < |payload|
    requires Syms(flags, payload) == e.Stream()[at..at + SequenceLen(flags, payload)]
    ensures at + i < |e.passed| && payload[i] == e.passed[at + i]
  {
    assert Syms(flags, payload)[i] == Data(payload[i]);
    assert e.Stream()[at..at + SequenceLen(flags, payload)][i] == e.Stream()[at + i];
  }

  /** Which bytes a slice of a stream without SYN spells. */
  lemma SliceSpells(flags: Flags, payload: seq<byte>, at: nat, e: End)
    requires !flags.syn && at + SequenceLen(flags, payload) <= |e.Stream()|
    requires Syms(flags, payload) == e.Stream()[at..at + SequenceLen(flags, payload)]
    ensures payload != [] ==> at + |payload| <= |e.passed| && payload == e.passed[at..at + |payload|]
    ensures flags.fin ==> e.closed && at + |payload| == |e.passed|
  {
    forall i | 0 <= i < |payload| ensures at + i < |e.passed| && payload[i] == e.passed[at + i] {
      ByteSpells(flags, payload, at, e, i);
    }
    if payload != [] {
      ByteSpells(flags, payload, at, e, |payload| - 1);
      assert payload == e.passed[at..at + |payload|];
    }
    if flags.fin {
      assert Syms(flags, payload)[|payload|] == Fin;
      assert e.Stream()[at..at + SequenceLen(flags, payload)][|payload|] == e.Stream()[at + |payload|];
    }
  }

  /** A segment starting where the receiver stands carries exactly what it lacks next. */
  lemma NextInStream(s: Segment, isn: u32, at: nat, from: End, to: End)
    requires Carries(s, isn, at, from.Stream()) && !s.flags.syn
    requires Dir(from, to, isn) && s.seqNo == to.conn.rcvNxt
    ensures to.given + s.payload <= from.passed
    ensures s.flags.fin ==> from.closed && to.given + s.payload == from.passed
    ensures to.conn.peerFinished ==> s.payload == [] && !s.flags.fin
  {
    RcvdWithin(from, to, isn);
    SamePosition(isn, at, to.Rcvd());
    SliceSpells(s.flags, s.payload, at, from);
    assert to.given + [] == to.given;
    if s.payload != [] {
      assert to.given + s.payload == from.passed[..at + |s.payload|];
    }
  }

  lemma DeliverUnexpected(w: World, s: Segment, now: u64, room: nat, j: nat)
    requires Inv(w) && s in w.ba && w.a.conn.state in {Established, FinWait} && s.seqNo != w.a.conn.rcvNxt
    requires Acks(s.ackNo, w.isnA, j, w.b.Rcvd())
    ensures var r := OnUnexpected(w.a.conn, s, now, room);
            Inv(w.(a := w.a.(conn := r.conn), ab := Put(w.ab, r.reply)))
  {
    hide NetOk;
    var c, stream := w.a.conn, w.a.Stream();
    var r := OnUnexpected(c, s, now, room);
    RcvdWithin(w.a, w.b, w.isnA);
    AcknowledgeFrame(c.(sndWnd := s.window), s.ackNo, now);
    AckedUna(c.(sndWnd := s.window), s.ackNo, now, w.isnA, stream, j, w.b.Rcvd());
    UnexpectedKeeps(c, s, now, room, w.isnA, stream);
    BareAckCarriesNothing(r.conn, room, w.isnA, stream);
    NetPut(w.ab, r.reply, w.isnA, stream, w.isnB, w.a.Rcvd(), |stream|);
  }

  /** The acknowledging half of a segment taken in order. */
  lemma DeliverAck(w: World, s: Segment, now: u64, room: nat, j: nat, e: End)
    requires Inv(w) && w.a.conn.state in {Established, FinWait}
    requires Acks(s.ackNo, w.isnA, j, w.b.Rcvd())
    requires e.conn == OnExpected(w.a.conn, s, now, room).conn && e.passed == w.a.passed && e.closed == w.a.closed
    ensures Dir(e, w.b, w.isnA)
  {
    var c, stream := w.a.conn, w.a.Stream();
    RcvdWithin(w.a, w.b, w.isnA);
    ExpectedFrame(c, s, now, room);
    ExpectedKeeps(c, s, now, room, w.isnA, stream);
    AckedUna(c.(sndUna := s.ackNo, sndWnd := s.window), s.ackNo, now, w.isnA, stream, j, w.b.Rcvd());
    if !s.flags.ack {
      var i: nat :| Acks(c.sndUna, w.isnA, i, w.b.Rcvd());
      DoneMeansAll(e.conn, w.isnA, stream, i, w.b.Rcvd());
    } else {
      DoneMeansAll(e.conn, w.isnA, stream, j, w.b.Rcvd());
    }
  }

  lemma DoneMeansAll(c: Conn, isn: u32, stream: seq<Sym>, j: nat, rcvd: nat)
    requires Acks(c.sndUna, isn, j, rcvd) && c.sndNxt == WrapAdd(isn, |stream|) && rcvd <= |stream| < HALF
    ensures c.sndUna == c.sndNxt ==> rcvd == |stream|
  {
    if c.sndUna == c.sndNxt {
      SamePosition(isn, j, |stream|);
    }
  }

  /** The receiving half. */
  lemma DeliverData(w: World, s: Segment, now: u64, room: nat, e: End)
    requires Inv(w) && s in w.ba && s.seqNo == w.a.conn.rcvNxt
    requires e.conn == OnExpected(w.a.conn, s, now, room).conn && e.given == w.a.given + s.payload
    ensures Dir(w.b, e, w.isnB) && e.Rcvd() >= w.a.Rcvd()
  {
    assert Travelling(s, w.isnB, w.b.Stream(), w.isnA, w.b.Rcvd());
    var at: nat :| Carries(s, w.isnB, at, w.b.Stream());
    NextInStream(s, w.isnB, at, w.b, w.a);
    ExpectedFrame(w.a.conn, s, now, room);
    WrapAddWraps(w.isnB, w.a.Rcvd(), SequenceLen(s.flags, s.payload));
    assert e.Rcvd() == w.a.Rcvd() + SequenceLen(s.flags, s.payload);
    var i: nat :| Acks(w.b.conn.sndUna, w.isnB, i, w.a.Rcvd());
    assert Acks(w.b.conn.sndUna, w.isnB, i, e.Rcvd());
  }

  lemma DeliverExpected(w: World, s: Segment, now: u64, room: nat, j: nat)
    requires Inv(w) && s in w.ba && w.a.conn.state in {Established, FinWait} && s.seqNo == w.a.conn.rcvNxt
    requires Acks(s.ackNo, w.isnA, j, w.b.Rcvd())
    ensures var r := OnExpected(w.a.conn, s, now, room);
            Inv(w.(a := w.a.(conn := r.conn, given := w.a.given + s.payload), ab := Put(w.ab, r.reply)))
  {
    var r := OnExpected(w.a.conn, s, now, room);
    var e := w.a.(conn := r.conn, given := w.a.given + s.payload);
    var stream := e.Stream();
    DeliverAck(w, s, now, room, j, e);
    DeliverData(w, s, now, room, e);
    assert stream + [] == stream;
    NetGrows(w.ab, w.isnA, stream, [], w.isnB, w.a.Rcvd(), e.Rcvd());
    BareAckCarriesNothing(r.conn, room, w.isnA, stream);
    NetPut(w.ab, r.reply, w.isnA, stream, w.isnB, e.Rcvd(), |stream|);
  }

  lemma DeliverStep(w: World, s: Segment, now: u64, room: nat)
    requires Inv(w)
    ensures Inv(ActA(w, OpDeliver(s, now, room)))
  {
    var c := w.a.conn;
    assert w.a.given + s.payload[..0] == w.a.given;
    assert s.payload[..|s.payload|] == s.payload;
    if s in w.ba && s.dstPort == c.localPort && s.srcPort == c.remotePort && c.state in {Established, FinWait} {
      assert Travelling(s, w.isnB, w.b.Stream(), w.isnA, w.b.Rcvd());
      var j: nat :| Acks(s.ackNo, w.isnA, j, w.b.Rcvd());
      if s.seqNo != c.rcvNxt {
        DeliverUnexpected(w, s, now, room, j);
      } else {
        DeliverExpected(w, s, now, room, j);
      }
    }
  }

  // ----- every run -----

  lemma LoseStep(w: World, s: Segment)
    requires Inv(w)
    ensures Inv(ActA(w, OpLose(s)))
  {}

  lemma ActKeeps(w: World, op: Op)
    requires Inv(w)
    requires op.OpSend? ==> |w.a.passed| + |op.payload| + 1 < HALF
    ensures Inv(ActA(w, op))
  {
    match op {
      case OpSend(payload, now, room) => SendStep(w, payload, now, room);
      case OpClose(now, room) => CloseStep(w, now, room);
      case OpTimeout(now, room) => TimeoutStep(w, now, room);
      case OpDeliver(s, now, room) => DeliverStep(w, s, now, room);
      case OpLose(s) => LoseStep(w, s);
    }
  }

  /** Both handshakes are over, nothing has been sent since, and the network is empty. */
  predicate Opened(w: World)
  {
    && w.a.conn.state == w.b.conn.state == Established
    && w.a.conn.unacked == w.b.conn.unacked == []
    && w.a.passed == w.b.passed == w.a.given == w.b.given == []
    && !w.a.closed && !w.b.closed && !w.a.conn.peerFinished && !w.b.conn.peerFinished
    && w.a.conn.sndNxt == w.a.conn.sndUna == w.b.conn.rcvNxt == w.isnA
    && w.b.conn.sndNxt == w.b.conn.sndUna == w.a.conn.rcvNxt == w.isnB
    && w.ab == w.ba == {}
  }

  /** Fewer than 2^31 - 1 bytes are passed in each direction. */
  predicate Within(w: World, step: Step)
  {
    step.op.OpSend? ==> |(if step.left then w.a else w.b).passed| + |step.op.payload| + 1 < HALF
  }

  predicate Reaches(start: World, steps: seq<Step>, w: World)
    decreases |steps|
  {
    if steps == [] then w == start
    else Within(start, steps[0]) && Reaches(Act(start, steps[0]), steps[1..], w)
  }

  lemma OpenedInv(w: World)
    requires Opened(w)
    ensures Inv(w)
  {
    assert Acks(w.isnA, w.isnA, 0, 0) && Acks(w.isnB, w.isnB, 0, 0);
  }

  lemma {:induction false} RunKeeps(start: World, steps: seq<Step>, w: World)
    requires Inv(start) && Reaches(start, steps, w)
    ensures Inv(w)
    decreases |steps|
  {
    if steps != [] {
      if steps[0].left {
        ActKeeps(start, steps[0].op);
      } else {
        ActKeeps(start.Flip(), steps[0].op);
      }
      RunKeeps(Act(start, steps[0]), steps[1..], w);
    }
  }

  /** The bytes an end still holds for retransmission. */
  function Buffered(q: seq<Unacked>): seq<byte>
  {
    if q == [] then [] else q[0].payload + Buffered(q[1..])
  }

  lemma {:induction false} BufferedIsSuffix(q: seq<Unacked>, isn: u32, at: nat, e: End)
    requires Contiguous(q, isn, at, e.Stream())
    ensures Buffered(q) == if at <= |e.passed| then e.passed[at..] else []
    decreases |q|
  {
    if q != [] {
      var u := q[0];
      SynLeads(u.flags, u.payload);
      SliceSpells(u.flags, u.payload, at, e);
      BufferedIsSuffix(q[1..], isn, at + u.span, e);
    }
  }

  /**
   On every run: each end has been given a prefix of what the other passed to `send`; an
   end that has seen the peer's FIN has been given all of it; and what has not been taken
   yet is still held by an end that has not given up.
   */
  lemma StreamsArriveInOrder(start: World, steps: seq<Step>, w: World)
    requires Opened(start) && Reaches(start, steps, w)
    ensures w.b.given <= w.a.passed && w.a.given <= w.b.passed
    ensures w.b.conn.peerFinished ==> w.a.closed && w.b.given == w.a.passed
    ensures w.a.conn.peerFinished ==> w.b.closed && w.a.given == w.b.passed
    ensures w.a.conn.state != Aborted ==> StillHeld(w.a, w.b)
    ensures w.b.conn.state != Aborted ==> StillHeld(w.b, w.a)
  {
    OpenedInv(start);
    RunKeeps(start, steps, w);
    BufferedIsSuffix(w.a.conn.unacked, w.isnA, Una(w.a.conn, w.a.Stream()), w.a);
    BufferedIsSuffix(w.b.conn.unacked, w.isnB, Una(w.b.conn, w.b.Stream()), w.b);
  }

  /** Every byte `r` has not been given is at the back of what `s` holds. */
  predicate StillHeld(s: End, r: End)
    requires |r.given| <= |s.passed|
  {
    var lacking := s.passed[|r.given|..];
    var held := Buffered(s.conn.unacked);
    |lacking| <= |held| && held[|held| - |lacking|..] == lacking
  }

  /** An end is `Done` only when both directions have been taken whole. */
  lemma DoneMeansBothTaken(start: World, steps: seq<Step>, w: World)
    requires Opened(start) && Reaches(start, steps, w) && w.a.conn.state == Done
    ensures w.b.given == w.a.passed && w.b.conn.peerFinished
    ensures w.a.given == w.b.passed && w.a.conn.peerFinished
  {
    OpenedInv(start);
    RunKeeps(start, steps, w);
  }
}
