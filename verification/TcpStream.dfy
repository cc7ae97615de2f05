/**
 The sending half against unbounded arithmetic. Everything a connection ever sends is
 one stream of symbols at unbounded positions; sequence numbers are those positions
 modulo 2^32. Incoming segments are arbitrary throughout.
 */
module TcpStream {
  import opened Common
  import opened TcpSpec

  /** A segment with these fields carries the symbols of `stream` from position `at` on. */
  predicate CarriesAt(seqNo: u32, flags: Flags, payload: seq<byte>, isn: u32, at: nat, stream: seq<Sym>)
  {
    && seqNo == WrapAdd(isn, at)
    && at + SequenceLen(flags, payload) <= |stream|
    && Syms(flags, payload) == stream[at..at + SequenceLen(flags, payload)]
  }

  predicate Carries(s: Segment, isn: u32, at: nat, stream: seq<Sym>)
  {
    CarriesAt(s.seqNo, s.flags, s.payload, isn, at, stream)
  }

  /** The buffer holds the whole of `stream` from position `at` on, in order and without gaps. */
  predicate Contiguous(q: seq<Unacked>, isn: u32, at: nat, stream: seq<Sym>)
    decreases |q|
  {
    if q == [] then at == |stream|
    else
      && q[0].span == SequenceLen(q[0].flags, q[0].payload)
      && |q[0].payload| <= MAX_PAYLOAD && q[0].flags in {SYN, ACK_PSH, ACK_FIN}
      && CarriesAt(q[0].seqNo, q[0].flags, q[0].payload, isn, at, stream)
      && Contiguous(q[1..], isn, at + q[0].span, stream)
  }

  /** The position of the oldest unacknowledged symbol. */
  function Una(c: Conn, stream: seq<Sym>): int { |stream| - InFlight(c.unacked) }

  predicate SenderInv(c: Conn, isn: u32, stream: seq<Sym>)
  {
    && |c.unacked| <= MAX_UNACKED
    && Una(c, stream) >= 0
    && c.sndNxt == WrapAdd(isn, |stream|)
    && Contiguous(c.unacked, isn, Una(c, stream), stream)
    && (c.state == SynSent ==> stream == [Syn] && c.sndUna == isn)
  }

  // ----- wrapping against unbounded positions -----

  /** Within half the sequence space, `seq_leq` is the order of the unbounded positions. */
  lemma SeqLeqIsOrder(isn: int, x: int, y: int)
    requires -0x8000_0000 <= y - x < 0x8000_0000
    ensures SeqLeq(WrapAdd(isn, x), WrapAdd(isn, y)) <==> x <= y
  {
    WrapSubWraps(isn + y, isn + x);
    if x <= y {
      assert (y - x) % WRAP == y - x;
    } else {
      assert (y - x) % WRAP == y - x + WRAP;
    }
  }

  lemma WrapSubWraps(a: int, b: int)
    ensures (a % WRAP - b % WRAP) % WRAP == (a - b) % WRAP
  {
    var q := a / WRAP - b / WRAP;
    assert a - b == (a % WRAP - b % WRAP) + q * WRAP;
  }

  lemma WrapAddWraps(isn: int, x: int, n: int)
    ensures WrapAdd(WrapAdd(isn, x), n) == WrapAdd(isn, x + n)
  {
    assert isn + x == (isn + x) / WRAP * WRAP + (isn + x) % WRAP;
  }

  /** Equal sequence numbers at positions less than 2^32 apart are the same position. */
  lemma SamePosition(isn: int, x: int, y: int)
    requires WrapAdd(isn, x) == WrapAdd(isn, y)
    requires -WRAP < x - y < WRAP
    ensures x == y
  {
    WrapSubWraps(isn + x, isn + y);
    assert (x - y) % WRAP == 0;
  }

  // ----- the buffer -----

  lemma SymsLength(flags: Flags, payload: seq<byte>)
    ensures |Syms(flags, payload)| == SequenceLen(flags, payload)
  {}

  lemma {:induction false} InFlightAppend(q: seq<Unacked>, r: seq<Unacked>)
    ensures InFlight(q + r) == InFlight(q) + InFlight(r)
  {
    if q == [] {
      assert q + r == r;
    } else {
      assert (q + r)[1..] == q[1..] + r;
      InFlightAppend(q[1..], r);
    }
  }

  /** Sending more leaves what is held where it was, and puts the new symbols behind it. */
  lemma {:induction false} ContiguousAppend(q: seq<Unacked>, isn: u32, at: nat, stream: seq<Sym>, u: Unacked)
    requires Contiguous(q, isn, at, stream)
    requires u.seqNo == WrapAdd(isn, |stream|) && u.span == SequenceLen(u.flags, u.payload)
    requires |u.payload| <= MAX_PAYLOAD && u.flags in {SYN, ACK_PSH, ACK_FIN}
    ensures Contiguous(q + [u], isn, at, stream + Syms(u.flags, u.payload))
    decreases |q|
  {
    var more := stream + Syms(u.flags, u.payload);
    SymsLength(u.flags, u.payload);
    if q == [] {
      assert [u][1..] == [];
      assert more[|stream|..|stream| + u.span] == Syms(u.flags, u.payload);
    } else {
      ContiguousAppend(q[1..], isn, at + q[0].span, stream, u);
      assert (q + [u])[1..] == q[1..] + [u];
      assert more[at..at + q[0].span] == stream[at..at + q[0].span];
    }
  }

  lemma {:induction false} ContiguousDrop(q: seq<Unacked>, isn: u32, at: nat, stream: seq<Sym>, n: nat)
    requires Contiguous(q, isn, at, stream) && n <= |q|
    ensures Contiguous(q[n..], isn, at + InFlight(q[..n]), stream)
    ensures InFlight(q) == InFlight(q[..n]) + InFlight(q[n..])
    decreases n
  {
    assert q == q[..n] + q[n..];
    InFlightAppend(q[..n], q[n..]);
    if n > 0 {
      ContiguousDrop(q[1..], isn, at + q[0].span, stream, n - 1);
      assert q[1..][n - 1..] == q[n..];
      assert q[..n][1..] == q[1..][..n - 1];
    }
  }

  /** Only sequence fields matter to contiguity, so timers may change freely. */
  lemma ContiguousRetimed(q: seq<Unacked>, u: Unacked, isn: u32, at: nat, stream: seq<Sym>)
    requires q != [] && Contiguous(q, isn, at, stream)
    requires u == q[0].(deadline := u.deadline, retransmits := u.retransmits)
    ensures Contiguous(q[0 := u], isn, at, stream) && InFlight(q[0 := u]) == InFlight(q)
  {
    assert q[0 := u][1..] == q[1..];
  }

  // ----- cumulative acknowledgement -----

  /** How many segments end at or before position `p`, in unbounded arithmetic. */
  function ReleasedBefore(q: seq<Unacked>, at: nat, p: int): nat
  {
    if q == [] || at + q[0].span > p then 0 else 1 + ReleasedBefore(q[1..], at + q[0].span, p)
  }

  lemma {:induction false} ContiguousLength(q: seq<Unacked>, isn: u32, at: nat, stream: seq<Sym>)
    requires Contiguous(q, isn, at, stream)
    ensures at + InFlight(q) == |stream|
    decreases |q|
  {
    if q != [] {
      ContiguousLength(q[1..], isn, at + q[0].span, stream);
    }
  }

  /** An acknowledgement within 2^31 of everything held releases what unbounded integers would. */
  lemma {:induction false} AckReleasesAsUnbounded(q: seq<Unacked>, isn: u32, at: nat, stream: seq<Sym>, p: int)
    requires Contiguous(q, isn, at, stream)
    requires |stream| - 0x8000_0000 <= p < at + 0x8000_0000
    ensures Released(q, WrapAdd(isn, p)) == ReleasedBefore(q, at, p)
    decreases |q|
  {
    if q != [] {
      var end := at + q[0].span;
      ContiguousLength(q, isn, at, stream);
      WrapAddWraps(isn, at, q[0].span);
      SeqLeqIsOrder(isn, end, p);
      if end <= p {
        AckReleasesAsUnbounded(q[1..], isn, end, stream, p);
      }
    }
  }

  /** What such an acknowledgement releases reaches no further than the position acknowledged. */
  lemma {:induction false} ReleasedReach(q: seq<Unacked>, at: nat, p: int)
    ensures ReleasedBefore(q, at, p) <= |q|
    ensures at + InFlight(q[..ReleasedBefore(q, at, p)]) <= Max(at, p)
    ensures ReleasedBefore(q, at, p) < |q| ==>
              p < at + InFlight(q[..ReleasedBefore(q, at, p)]) + q[ReleasedBefore(q, at, p)].span
    decreases |q|
  {
    if q != [] && at + q[0].span <= p {
      var n := ReleasedBefore(q[1..], at + q[0].span, p);
      ReleasedReach(q[1..], at + q[0].span, p);
      assert q[..n + 1][1..] == q[1..][..n];
    }
  }

  /** An acknowledgement touches the buffer and the timer, nothing else. */
  lemma AcknowledgeFrame(c: Conn, ack: u32, now: u64)
    ensures var r := Acknowledge(c, ack, now);
            && r == c.(unacked := r.unacked, srtt := r.srtt, rttvar := r.rttvar, rto := r.rto)
            && r.unacked == if Released(c.unacked, ack) == 0 then c.unacked
                            else Rearm(c.unacked[Released(c.unacked, ack)..], SatAdd(now, r.rto))
  {}

  /** Whatever is acknowledged, a suffix of the buffer stays, in place. */
  lemma AcknowledgeKeeps(c: Conn, ack: u32, now: u64, isn: u32, stream: seq<Sym>)
    requires SenderInv(c.(state := Established), isn, stream)
    ensures var r := Acknowledge(c, ack, now);
            && SenderInv(r.(state := Established), isn, stream)
            && Una(r, stream) == Una(c, stream) + InFlight(c.unacked[..Released(c.unacked, ack)])
            && r == c.(unacked := r.unacked, srtt := r.srtt, rttvar := r.rttvar, rto := r.rto)
  {
    AcknowledgeFrame(c, ack, now);
    var n := Released(c.unacked, ack);
    ContiguousDrop(c.unacked, isn, Una(c, stream), stream, n);
    if n > 0 && n < |c.unacked| {
      var rest := c.unacked[n..];
      var r := Acknowledge(c, ack, now);
      ContiguousRetimed(rest, r.unacked[0], isn, Una(c, stream) + InFlight(c.unacked[..n]), stream);
    }
  }

  // ----- every entry point keeps the invariant -----

  lemma SendKeeps(c: Conn, payload: seq<byte>, now: u64, room: nat, isn: u32, stream: seq<Sym>)
    requires SenderInv(c, isn, stream)
    ensures var (r, out) := Send(c, payload, now, room);
            if out.None? then r == c
            else
              && SenderInv(r, isn, stream + DataSyms(payload))
              && Una(r, stream + DataSyms(payload)) == Una(c, stream)
              && Carries(out.value, isn, |stream|, stream + DataSyms(payload))
  {
    var (r, out) := Send(c, payload, now, room);
    if out.Some? {
      assert Syms(ACK_PSH, payload) == DataSyms(payload);
      QueuedKeeps(c, r, isn, stream, payload);
    }
  }

  lemma QueuedKeeps(c: Conn, r: Conn, isn: u32, stream: seq<Sym>, payload: seq<byte>)
    requires SenderInv(c, isn, stream) && |r.unacked| == |c.unacked| + 1 <= MAX_UNACKED
    requires r.unacked[..|c.unacked|] == c.unacked
    requires var u := r.unacked[|c.unacked|];
             && u.payload == payload && |payload| <= MAX_PAYLOAD && u.flags in {SYN, ACK_PSH, ACK_FIN}
             && u.seqNo == c.sndNxt && u.span == SequenceLen(u.flags, payload)
             && r.sndNxt == WrapAdd(c.sndNxt, u.span)
    requires r.state != SynSent
    ensures var more := stream + Syms(r.unacked[|c.unacked|].flags, payload);
            && SenderInv(r, isn, more) && Una(r, more) == Una(c, stream)
            && CarriesAt(c.sndNxt, r.unacked[|c.unacked|].flags, payload, isn, |stream|, more)
  {
    var u := r.unacked[|c.unacked|];
    var more := stream + Syms(u.flags, payload);
    SymsLength(u.flags, payload);
    assert r.unacked == c.unacked + [u];
    InFlightAppend(c.unacked, [u]);
    assert InFlight([u]) == u.span by { assert [u][1..] == []; }
    ContiguousAppend(c.unacked, isn, Una(c, stream), stream, u);
    WrapAddWraps(isn, |stream|, u.span);
    assert more[|stream|..|stream| + u.span] == Syms(u.flags, payload);
  }

  lemma CloseKeeps(c: Conn, now: u64, room: nat, isn: u32, stream: seq<Sym>)
    requires SenderInv(c, isn, stream)
    ensures var (r, out) := Close(c, now, room);
            if out.None? then r == c
            else
              && SenderInv(r, isn, stream + [Fin])
              && Una(r, stream + [Fin]) == Una(c, stream)
              && Carries(out.value, isn, |stream|, stream + [Fin])
  {
    var (r, out) := Close(c, now, room);
    if out.Some? {
      assert Syms(ACK_FIN, []) == [Fin];
      QueuedKeeps(c, r, isn, stream, []);
    }
  }

  lemma TimeoutKeeps(c: Conn, now: u64, room: nat, isn: u32, stream: seq<Sym>)
    requires SenderInv(c, isn, stream)
    ensures var (r, out) := OnTimeout(c, now, room);
            && SenderInv(r, isn, stream)
            && (r.state != Aborted ==> Una(r, stream) == Una(c, stream))
            && (out.Some? ==> Carries(out.value, isn, Una(c, stream), stream))
  {
    var (r, out) := OnTimeout(c, now, room);
    if out.Some? {
      ContiguousRetimed(c.unacked, r.unacked[0], isn, Una(c, stream), stream);
    }
  }

  lemma BareAckCarriesNothing(c: Conn, room: nat, isn: u32, stream: seq<Sym>)
    requires c.sndNxt == WrapAdd(isn, |stream|)
    ensures BareAck(c, room).Some? ==> Carries(BareAck(c, room).value, isn, |stream|, stream)
  {
    assert Syms(ACK, []) == [];
  }

  lemma SynAckKeeps(c: Conn, s: Segment, now: u64, room: nat, isn: u32, stream: seq<Sym>)
    requires SenderInv(c, isn, stream)
    ensures var r := OnSynAck(c, s, now, room);
            SenderInv(r.conn, isn, stream) && Una(r.conn, stream) >= Una(c, stream)
  {
    var c1 := c.(rcvNxt := WrapAdd(s.seqNo, 1), sndUna := s.ackNo, state := Established, sndWnd := s.window);
    AcknowledgeKeeps(c1, s.ackNo, now, isn, stream);
  }

  lemma UnexpectedKeeps(c: Conn, s: Segment, now: u64, room: nat, isn: u32, stream: seq<Sym>)
    requires SenderInv(c, isn, stream) && c.state != SynSent
    ensures var r := OnUnexpected(c, s, now, room);
            SenderInv(r.conn, isn, stream) && Una(r.conn, stream) >= Una(c, stream)
  {
    AcknowledgeKeeps(c.(sndWnd := s.window), s.ackNo, now, isn, stream);
  }

  /** A segment taken in order moves the receiving half and the timer, and acknowledges. */
  lemma ExpectedFrame(c: Conn, s: Segment, now: u64, room: nat)
    ensures var r := OnExpected(c, s, now, room).conn;
            var c1 := if s.flags.ack then Acknowledge(c.(sndUna := s.ackNo, sndWnd := s.window), s.ackNo, now) else c;
            && r.unacked == c1.unacked && r.sndNxt == c.sndNxt
            && r.sndUna == (if s.flags.ack then s.ackNo else c.sndUna)
            && r.rcvNxt == WrapAdd(c.rcvNxt, SequenceLen(s.flags, s.payload))
            && r.peerFinished == (c.peerFinished || s.flags.fin)
            && r.state == if s.flags.fin && c.state == FinWait && r.sndUna == r.sndNxt then Done else c.state
  {
    AcknowledgeFrame(c.(sndUna := s.ackNo, sndWnd := s.window), s.ackNo, now);
  }

  lemma ExpectedKeeps(c: Conn, s: Segment, now: u64, room: nat, isn: u32, stream: seq<Sym>)
    requires SenderInv(c, isn, stream) && c.state != SynSent
    ensures var r := OnExpected(c, s, now, room);
            SenderInv(r.conn, isn, stream) && Una(r.conn, stream) >= Una(c, stream)
  {
    var c1 := c.(sndUna := s.ackNo, sndWnd := s.window);
    AcknowledgeKeeps(c1, s.ackNo, now, isn, stream);
    ExpectedFrame(c, s, now, room);
  }

  /** Any segment at all: the buffer only loses a prefix, and the reply carries no new symbols. */
  lemma SegmentKeeps(c: Conn, s: Segment, now: u64, room: nat, isn: u32, stream: seq<Sym>)
    requires SenderInv(c, isn, stream)
    ensures var r := OnSegment(c, s, now, room);
            && SenderInv(r.conn, isn, stream)
            && Una(r.conn, stream) >= Una(c, stream)
            && (r.reply.Some? ==> Carries(r.reply.value, isn, |stream|, stream))
  {
    if s.dstPort != c.localPort || s.srcPort != c.remotePort || s.flags.rst {
      return;
    }
    match c.state {
      case SynSent =>
        SynAckKeeps(c, s, now, room, isn, stream);
        BareAckCarriesNothing(OnSynAck(c, s, now, room).conn, room, isn, stream);
      case Established | FinWait =>
        UnexpectedKeeps(c, s, now, room, isn, stream);
        BareAckCarriesNothing(OnUnexpected(c, s, now, room).conn, room, isn, stream);
        ExpectedKeeps(c, s, now, room, isn, stream);
        BareAckCarriesNothing(OnExpected(c, s, now, room).conn, room, isn, stream);
      case _ =>
    }
  }
}
