/**
 Whole runs of one connection, from `connect` on, against a peer and a network that may
 deliver any segment whatever at any moment.
 */
module TcpRun {
  import opened Common
  import opened TcpSpec
  import opened TcpStream

  datatype Event =
    | DoSyn(now: u64, room: nat)
    | DoSend(payload: seq<byte>, now: u64, room: nat)
    | DoClose(now: u64, room: nat)
    | DoTimeout(now: u64, room: nat)
    | DoSegment(s: Segment, now: u64, room: nat)

  /** The connection, everything it was asked to send, and every segment it has put out. */
  datatype History = History(conn: Conn, stream: seq<Sym>, emitted: seq<Segment>)

  function Start(localPort: u16, remotePort: u16, isn: u32): History
  {
    History(Connect(localPort, remotePort, isn), [Syn], [])
  }

  /** `syn` opens the connection: a caller makes it once, before anything else is held. */
  predicate Enabled(h: History, e: Event)
  {
    e.DoSyn? ==> h.conn.state == SynSent && h.conn.unacked == []
  }

  function Logged(h: History, c: Conn, more: seq<Sym>, out: Option<Segment>): History
  {
    if out.None? then h.(conn := c) else History(c, h.stream + more, h.emitted + [out.value])
  }

  function Next(h: History, e: Event): History
  {
    match e
    case DoSyn(now, room) => var (c, out) := SynOp(h.conn, now, room); Logged(h, c, [], out)
    case DoSend(payload, now, room) =>
      var (c, out) := Send(h.conn, payload, now, room); Logged(h, c, DataSyms(payload), out)
    case DoClose(now, room) => var (c, out) := Close(h.conn, now, room); Logged(h, c, [Fin], out)
    case DoTimeout(now, room) => var (c, out) := OnTimeout(h.conn, now, room); Logged(h, c, [], out)
    case DoSegment(s, now, room) => var r := OnSegment(h.conn, s, now, room); Logged(h, r.conn, [], r.reply)
  }

  /** `h` is reached from the start by some sequence of enabled events. */
  predicate Reaches(start: History, events: seq<Event>, h: History)
    decreases |events|
  {
    if events == [] then h == start
    else Enabled(start, events[0]) && Reaches(Next(start, events[0]), events[1..], h)
  }

  ghost predicate CarriesSomewhere(s: Segment, isn: u32, stream: seq<Sym>)
  {
    exists at: nat :: Carries(s, isn, at, stream)
  }

  /** Every segment ever put out carries its own part of the one stream. */
  ghost predicate AllCarry(emitted: seq<Segment>, isn: u32, stream: seq<Sym>)
  {
    forall i :: 0 <= i < |emitted| ==> CarriesSomewhere(emitted[i], isn, stream)
  }

  ghost predicate RunInv(h: History, isn: u32)
  {
    SenderInv(h.conn, isn, h.stream) && AllCarry(h.emitted, isn, h.stream)
  }

  lemma CarriesMore(s: Segment, isn: u32, at: nat, stream: seq<Sym>, more: seq<Sym>)
    requires Carries(s, isn, at, stream)
    ensures Carries(s, isn, at, stream + more)
  {
    var n := SequenceLen(s.flags, s.payload);
    assert (stream + more)[at..at + n] == stream[at..at + n];
  }

  lemma AllCarryMore(emitted: seq<Segment>, isn: u32, stream: seq<Sym>, more: seq<Sym>, s: Segment, at: nat)
    requires AllCarry(emitted, isn, stream) && Carries(s, isn, at, stream + more)
    ensures AllCarry(emitted + [s], isn, stream + more)
  {
    var all := emitted + [s];
    forall i | 0 <= i < |all| ensures CarriesSomewhere(all[i], isn, stream + more) {
      if i < |emitted| {
        var k: nat :| Carries(emitted[i], isn, k, stream);
        CarriesMore(emitted[i], isn, k, stream, more);
        assert Carries(all[i], isn, k, stream + more);
      } else {
        assert Carries(all[i], isn, at, stream + more);
      }
    }
  }

  lemma SynKeeps(c: Conn, now: u64, room: nat, isn: u32, stream: seq<Sym>)
    requires SenderInv(c, isn, stream) && c.state == SynSent && c.unacked == []
    ensures var (r, out) := SynOp(c, now, room);
            SenderInv(r, isn, stream) && (out.Some? ==> Carries(out.value, isn, 0, stream))
  {
    var (r, out) := SynOp(c, now, room);
    if out.Some? {
      assert r.unacked == [r.unacked[0]] && r.unacked[1..] == [];
      assert Syms(SYN, []) == [Syn] == stream[0..1];
    }
  }

  lemma StepKeeps(h: History, e: Event, isn: u32)
    requires RunInv(h, isn) && Enabled(h, e)
    ensures RunInv(Next(h, e), isn)
  {
    assert h.stream + [] == h.stream;
    match e {
      case DoSyn(now, room) =>
        SynKeeps(h.conn, now, room, isn, h.stream);
        var (c, out) := SynOp(h.conn, now, room);
        if out.Some? { AllCarryMore(h.emitted, isn, h.stream, [], out.value, 0); }
      case DoSend(payload, now, room) =>
        SendKeeps(h.conn, payload, now, room, isn, h.stream);
        var (c, out) := Send(h.conn, payload, now, room);
        if out.Some? { AllCarryMore(h.emitted, isn, h.stream, DataSyms(payload), out.value, |h.stream|); }
      case DoClose(now, room) =>
        CloseKeeps(h.conn, now, room, isn, h.stream);
        var (c, out) := Close(h.conn, now, room);
        if out.Some? { AllCarryMore(h.emitted, isn, h.stream, [Fin], out.value, |h.stream|); }
      case DoTimeout(now, room) =>
        TimeoutKeeps(h.conn, now, room, isn, h.stream);
        var (c, out) := OnTimeout(h.conn, now, room);
        if out.Some? { AllCarryMore(h.emitted, isn, h.stream, [], out.value, Una(h.conn, h.stream)); }
      case DoSegment(s, now, room) =>
        SegmentKeeps(h.conn, s, now, room, isn, h.stream);
        var r := OnSegment(h.conn, s, now, room);
        if r.reply.Some? { AllCarryMore(h.emitted, isn, h.stream, [], r.reply.value, |h.stream|); }
    }
  }

  lemma {:induction false} RunKeeps(start: History, events: seq<Event>, h: History, isn: u32)
    requires RunInv(start, isn) && Reaches(start, events, h)
    ensures RunInv(h, isn)
    decreases |events|
  {
    if events != [] {
      StepKeeps(start, events[0], isn);
      RunKeeps(Next(start, events[0]), events[1..], h, isn);
    }
  }

  /**
   Whatever arrives, at the end of every run the send buffer holds at most four segments,
   contiguous, in order, and ending exactly at `snd_nxt`.
   */
  lemma SendBufferAlwaysContiguous(localPort: u16, remotePort: u16, isn: u32, events: seq<Event>, h: History)
    requires Reaches(Start(localPort, remotePort, isn), events, h)
    ensures |h.conn.unacked| <= MAX_UNACKED
    ensures h.conn.sndNxt == WrapAdd(isn, |h.stream|)
    ensures 0 <= Una(h.conn, h.stream) && Contiguous(h.conn.unacked, isn, Una(h.conn, h.stream), h.stream)
  {
    RunKeeps(Start(localPort, remotePort, isn), events, h, isn);
  }

  /**
   A sequence number sent twice carries the same symbol both times, on every run whose
   stream has not wrapped the whole sequence space.
   */
  lemma SameNumberSameByte(localPort: u16, remotePort: u16, isn: u32, events: seq<Event>, h: History,
                           i: nat, j: nat, x: nat, y: nat)
    requires Reaches(Start(localPort, remotePort, isn), events, h)
    requires |h.stream| <= WRAP && i < |h.emitted| && j < |h.emitted|
    requires x < |Syms(h.emitted[i].flags, h.emitted[i].payload)|
    requires y < |Syms(h.emitted[j].flags, h.emitted[j].payload)|
    requires WrapAdd(h.emitted[i].seqNo, x) == WrapAdd(h.emitted[j].seqNo, y)
    ensures Syms(h.emitted[i].flags, h.emitted[i].payload)[x] == Syms(h.emitted[j].flags, h.emitted[j].payload)[y]
  {
    var k := EmittedAt(localPort, remotePort, isn, events, h, i);
    var l := EmittedAt(localPort, remotePort, isn, events, h, j);
    SymbolAt(h.emitted[i], isn, k, h.stream, x);
    SymbolAt(h.emitted[j], isn, l, h.stream, y);
    SamePosition(isn, k + x, l + y);
  }

  /** Where in the stream the `i`-th segment put out stands. */
  lemma EmittedAt(localPort: u16, remotePort: u16, isn: u32, events: seq<Event>, h: History, i: nat) returns (at: nat)
    requires Reaches(Start(localPort, remotePort, isn), events, h) && i < |h.emitted|
    ensures Carries(h.emitted[i], isn, at, h.stream)
  {
    RunKeeps(Start(localPort, remotePort, isn), events, h, isn);
    assert CarriesSomewhere(h.emitted[i], isn, h.stream);
    at :| Carries(h.emitted[i], isn, at, h.stream);
  }

  lemma SymbolAt(s: Segment, isn: u32, at: nat, stream: seq<Sym>, x: nat)
    requires Carries(s, isn, at, stream) && x < |Syms(s.flags, s.payload)|
    ensures at + x < |stream| && WrapAdd(s.seqNo, x) == WrapAdd(isn, at + x)
    ensures Syms(s.flags, s.payload)[x] == stream[at + x]
  {
    WrapAddWraps(isn, at, x);
  }

  // ----- what `Done` does not promise against an arbitrary peer -----

  /**
   `snd_una` is copied from any acknowledgement taken in order, so a connection can be
   `Done` with its FIN unacknowledged: a peer acknowledges one number too many in its
   SYN-ACK, and then finishes without acknowledging at all.
   */
  lemma DoneWithFinStillHeld()
    ensures var synAck := Segment(2, 1, 70, 2, SYN.(ack := true), 4096, []);
            var fin := Segment(2, 1, 71, 0, SYN.(syn := false, fin := true), 4096, []);
            var h1 := Next(Start(1, 2, 0), DoSyn(0, 20));
            var h2 := Next(h1, DoSegment(synAck, 1, 20));
            var h3 := Next(h2, DoClose(2, 20));
            var h4 := Next(h3, DoSegment(fin, 3, 20));
            h4.conn.state == Done && |h4.conn.unacked| == 1 && h4.conn.unacked[0].flags.fin
  {
    var synAck := Segment(2, 1, 70, 2, SYN.(ack := true), 4096, []);
    var h1 := Next(Start(1, 2, 0), DoSyn(0, 20));
    var h2 := Next(h1, DoSegment(synAck, 1, 20));
    OverAcknowledged();
    FinishedWith(Next(h2, DoClose(2, 20)));
  }

  lemma OverAcknowledged()
    ensures var synAck := Segment(2, 1, 70, 2, SYN.(ack := true), 4096, []);
            var h2 := Next(Next(Start(1, 2, 0), DoSyn(0, 20)), DoSegment(synAck, 1, 20));
            && h2.conn.state == Established && h2.conn.localPort == 1 && h2.conn.remotePort == 2
            && h2.conn.unacked == [] && h2.conn.sndUna == 2 && h2.conn.sndNxt == 1 && h2.conn.rcvNxt == 71
            && h2.conn.sndWnd == 4096
  {
    var h1 := Next(Start(1, 2, 0), DoSyn(0, 20));
    assert h1.conn.unacked == [Unacked(0, SYN, [], 1, 0, 1_000_000_000, 0)];
    assert h1.conn.unacked[1..] == [];
    assert Released(h1.conn.unacked, 2) == 1;
  }

  lemma FinishedWith(h: History)
    requires h.conn.state == FinWait && h.conn.localPort == 1 && h.conn.remotePort == 2 && h.conn.rcvNxt == 71
    requires |h.conn.unacked| == 1 && h.conn.unacked[0].flags.fin && h.conn.sndUna == h.conn.sndNxt == 2
    ensures var fin := Segment(2, 1, 71, 0, SYN.(syn := false, fin := true), 4096, []);
            var c := Next(h, DoSegment(fin, 3, 20)).conn;
            c.state == Done && |c.unacked| == 1 && c.unacked[0].flags.fin
  {}

  /** The segment is for this connection, is no reset, starts where the connection stands, and carries a FIN. */
  predicate InOrderFin(c: Conn, s: Segment)
  {
    && s.dstPort == c.localPort && s.srcPort == c.remotePort && !s.flags.rst
    && s.seqNo == c.rcvNxt && s.flags.fin
  }

  /**
   A closing connection is `Done` with something still held exactly when an in-order FIN without an acknowledgement
   finds `snd_una` at `snd_nxt` and the buffer not empty.
   */
  lemma DoneLeavesHeldIff(c: Conn, s: Segment, now: u64, room: nat, isn: u32, stream: seq<Sym>)
    requires SenderInv(c, isn, stream) && c.state == FinWait
    ensures var r := OnSegment(c, s, now, room).conn;
      r.state == Done && r.unacked != [] <==>
      InOrderFin(c, s) && !s.flags.ack && c.sndUna == c.sndNxt && c.unacked != []
  {
    ExpectedFrame(c, s, now, room);
    UnexpectedStays(c, s, now, room);
    if s.flags.ack && s.ackNo == c.sndNxt {
      var una := Una(c, stream);
      InFlightBound(c.unacked, isn, una, stream);
      AckReleasesAsUnbounded(c.unacked, isn, una, stream, |stream|);
      AllReleased(c.unacked, isn, una, stream);
      AcknowledgeFrame(c.(sndUna := s.ackNo, sndWnd := s.window), s.ackNo, now);
    }
  }

  lemma UnexpectedStays(c: Conn, s: Segment, now: u64, room: nat)
    ensures OnUnexpected(c, s, now, room).conn.state == c.state
  {
    AcknowledgeFrame(c.(sndWnd := s.window), s.ackNo, now);
  }

  lemma {:induction false} InFlightBound(q: seq<Unacked>, isn: u32, at: nat, stream: seq<Sym>)
    requires Contiguous(q, isn, at, stream)
    ensures InFlight(q) <= |q| * (MAX_PAYLOAD + 2) && |stream| == at + InFlight(q)
    decreases |q|
  {
    if q != [] {
      InFlightBound(q[1..], isn, at + q[0].span, stream);
    }
  }

  lemma {:induction false} AllReleased(q: seq<Unacked>, isn: u32, at: nat, stream: seq<Sym>)
    requires Contiguous(q, isn, at, stream)
    ensures ReleasedBefore(q, at, |stream|) == |q|
    decreases |q|
  {
    if q != [] {
      AllReleased(q[1..], isn, at + q[0].span, stream);
    }
  }
}
