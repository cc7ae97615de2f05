/**
 `Connection` as it runs: fields updated in place and a four-slot send buffer. Every
 method is proved to do to the connection's value exactly what TcpSpec says.
 */
module TcpConnection {
  import opened Common
  import opened TcpSpec

  class Connection {
    var state: State
    const localPort: u16
    const remotePort: u16
    var sndNxt: u32
    var sndUna: u32
    var rcvNxt: u32
    var peerFinished: bool
    var srtt: Option<nat>
    var rttvar: nat
    var rto: u64
    var retransmissions: nat
    const unacked: array<Option<Unacked>>
    var sndWnd: u16

    /** The segments held, oldest first. */
    ghost var held: seq<Unacked>

    /** The buffer is a gap-free prefix of slots: `held` fills the front and nothing follows it. */
    ghost predicate Valid()
      reads this, unacked
    {
      && unacked.Length == MAX_UNACKED
      && |held| <= MAX_UNACKED
      && (forall i :: 0 <= i < |held| ==> unacked[i] == Some(held[i]))
      && (forall i :: |held| <= i < MAX_UNACKED ==> unacked[i] == None)
    }

    /** The connection's value. */
    ghost function View(): Conn
      reads this
    {
      Conn(state, localPort, remotePort, sndNxt, sndUna, rcvNxt, peerFinished, srtt, rttvar, rto,
           retransmissions, held, sndWnd)
    }

    constructor Connect(localPort: u16, remotePort: u16, isn: u32)
      ensures Valid() && fresh(unacked)
      ensures View() == TcpSpec.Connect(localPort, remotePort, isn)
    {
      this.state := SynSent;
      this.localPort := localPort;
      this.remotePort := remotePort;
      sndNxt := WrapAdd(isn, 1);
      sndUna := isn;
      rcvNxt := 0;
      peerFinished := false;
      srtt := None;
      rttvar := 0;
      rto := INITIAL_RTO;
      retransmissions := 0;
      unacked := new Option<Unacked>[MAX_UNACKED](_ => None);
      sndWnd := MAX_PAYLOAD;
      held := [];
    }

    /** The first empty slot, or the capacity when the buffer is full. */
    method FirstEmpty() returns (slot: nat)
      requires Valid()
      ensures slot == |held|
    {
      slot := 0;
      while slot < MAX_UNACKED && unacked[slot].Some?
        invariant slot <= |held|
      {
        slot := slot + 1;
      }
    }

    method SpanInFlight() returns (total: nat)
      requires Valid()
      ensures total == InFlight(held)
    {
      total := 0;
      for i := 0 to MAX_UNACKED
        invariant total + InFlight(held[Min(i, |held|)..]) == InFlight(held)
      {
        if unacked[i].Some? {
          total := total + unacked[i].value.span;
          assert held[i..][1..] == held[i + 1..];
        }
      }
      assert held[|held|..] == [];
    }

    method RoomFor(bytes: nat) returns (ok: bool)
      requires Valid()
      ensures ok == HasRoomFor(View(), bytes)
    {
      var slot := FirstEmpty();
      var used := SpanInFlight();
      ok := slot < MAX_UNACKED && used + bytes <= sndWnd;
    }

    method Queue(seqNo: u32, flags: Flags, payload: seq<byte>, span: nat, now: u64)
      requires Valid()
      modifies this`held, unacked
      ensures Valid()
      ensures View() == TcpSpec.Queue(old(View()), seqNo, flags, payload, span, now)
    {
      var slot := FirstEmpty();
      if slot < MAX_UNACKED {
        var u := Unacked(seqNo, flags, payload, span, now, SatAdd(now, rto), 0);
        unacked[slot] := Some(u);
        held := held + [u];
      }
    }

    method Syn(now: u64, room: nat) returns (out: Option<Segment>)
      requires Valid()
      modifies this`held, unacked
      ensures Valid()
      ensures (View(), out) == SynOp(old(View()), now, room)
    {
      out := Emit(room, Segment(localPort, remotePort, sndUna, 0, SYN, WINDOW, []));
      if out.Some? {
        Queue(sndUna, SYN, [], 1, now);
      }
    }

    method Ack(room: nat) returns (out: Option<Segment>)
      ensures out == BareAck(View(), room)
    {
      out := Emit(room, Segment(localPort, remotePort, sndNxt, rcvNxt, ACK, WINDOW, []));
    }

    method Send(payload: seq<byte>, now: u64, room: nat) returns (out: Option<Segment>)
      requires Valid()
      modifies this`sndNxt, this`held, unacked
      ensures Valid()
      ensures (View(), out) == TcpSpec.Send(old(View()), payload, now, room)
    {
      if state != Established {
        return None;
      }
      var ok := RoomFor(|payload|);
      if |payload| > MAX_PAYLOAD || !ok {
        return None;
      }
      var seqNo := sndNxt;
      out := Emit(room, Segment(localPort, remotePort, seqNo, rcvNxt, ACK_PSH, WINDOW, payload));
      if out.Some? {
        sndNxt := WrapAdd(sndNxt, |payload|);
        Queue(seqNo, ACK_PSH, payload, |payload|, now);
      }
    }

    method Close(now: u64, room: nat) returns (out: Option<Segment>)
      requires Valid()
      modifies this`state, this`sndNxt, this`held, unacked
      ensures Valid()
      ensures (View(), out) == TcpSpec.Close(old(View()), now, room)
    {
      var ok := RoomFor(1);
      if state != Established || !ok {
        return None;
      }
      var seqNo := sndNxt;
      out := Emit(room, Segment(localPort, remotePort, seqNo, rcvNxt, ACK_FIN, WINDOW, []));
      if out.Some? {
        sndNxt := WrapAdd(sndNxt, 1);
        state := FinWait;
        Queue(seqNo, ACK_FIN, [], 1, now);
      }
    }

    method OnTimeout(now: u64, room: nat) returns (out: Option<Segment>)
      requires Valid()
      modifies this`state, this`rto, this`retransmissions, this`held, unacked
      ensures Valid()
      ensures (View(), out) == TcpSpec.OnTimeout(old(View()), now, room)
    {
      if unacked[0].None? {
        return None;
      }
      var front := unacked[0].value;
      if now < front.deadline {
        return None;
      }
      if front.retransmits >= MAX_RETRANSMISSIONS || SatSub(now, front.sentAt) >= GIVE_UP {
        for i := 0 to MAX_UNACKED
          invariant forall k :: 0 <= k < i ==> unacked[k] == None
          invariant View() == old(View())
        {
          unacked[i] := None;
        }
        held := [];
        state := Aborted;
        return None;
      }
      rto := Min(2 * rto, MAX_RTO);
      front := front.(retransmits := front.retransmits + 1,
                      deadline := Min(SatAdd(now, rto), SatAdd(front.sentAt, GIVE_UP)));
      retransmissions := retransmissions + 1;
      out := Emit(room, Segment(localPort, remotePort, front.seqNo, rcvNxt, front.flags, WINDOW, front.payload));
      if out.Some? {
        unacked[0] := Some(front);
        held := held[0 := front];
      }
    }

    method SampleRtt(measured: nat)
      modifies this`srtt, this`rttvar, this`rto
      ensures View() == TcpSpec.SampleRtt(old(View()), measured)
    {
      match srtt {
        case None =>
          srtt := Some(measured);
          rttvar := measured / 2;
        case Some(smoothed) =>
          var difference := if smoothed >= measured then smoothed - measured else measured - smoothed;
          rttvar := (rttvar * 3 + difference) / 4;
          srtt := Some((smoothed * 7 + measured) / 8);
      }
      rto := Timeout(srtt.value, rttvar);
    }

    /** Shifts the buffer left by `n` slots and empties what that exposes at the back. */
    method Release(n: nat)
      requires Valid() && n <= |held|
      modifies this`held, unacked
      ensures Valid()
      ensures View() == old(View()).(unacked := old(held)[n..])
    {
      var before := unacked[..];
      forall i | 0 <= i < MAX_UNACKED {
        unacked[i] := before[(i + n) % MAX_UNACKED];
      }
      for slot := MAX_UNACKED - n to MAX_UNACKED
        invariant forall i :: 0 <= i < MAX_UNACKED - n ==> unacked[i] == before[i + n]
        invariant forall i :: MAX_UNACKED - n <= i < slot ==> unacked[i] == None
        invariant View() == old(View())
      {
        unacked[slot] := None;
      }
      held := held[n..];
    }

    /** Walks the covered prefix of the buffer, keeping the newest round trip it may measure. */
    method ScanCovered(ack: u32, now: u64) returns (released: nat, sample: Option<u64>)
      requires Valid()
      ensures released == Released(held, ack)
      ensures sample == SampleOf(held[..released], now)
    {
      released, sample := 0, None;
      while released < MAX_UNACKED && unacked[released].Some? && Covered(unacked[released].value, ack)
        invariant released <= |held|
        invariant forall i :: 0 <= i < released ==> Covered(held[i], ack)
        invariant sample == SampleOf(held[..released], now)
      {
        assert held[..released + 1][..released] == held[..released];
        if unacked[released].value.retransmits == 0 {
          sample := Some(SatSub(now, unacked[released].value.sentAt));
        }
        released := released + 1;
      }
      ReleasedIs(held, ack, released);
    }

    method Acknowledge(ack: u32, now: u64)
      requires Valid()
      modifies this`srtt, this`rttvar, this`rto, this`held, unacked
      ensures Valid()
      ensures View() == TcpSpec.Acknowledge(old(View()), ack, now)
    {
      var released, sample := ScanCovered(ack, now);
      if released == 0 {
        return;
      }
      Release(released);
      if sample.Some? {
        SampleRtt(sample.value);
      }
      Restart(now);
    }

    /** Starts the timer again for whatever is now at the front. */
    method Restart(now: u64)
      requires Valid()
      modifies this`held, unacked
      ensures Valid()
      ensures View() == old(View()).(unacked := Rearm(old(held), SatAdd(now, rto)))
    {
      if unacked[0].Some? {
        var front := unacked[0].value.(deadline := SatAdd(now, rto));
        unacked[0] := Some(front);
        held := held[0 := front];
      }
    }

    method TakeSynAck(s: Segment, now: u64, room: nat) returns (reply: Option<Segment>)
      requires Valid()
      modifies this, unacked
      ensures Valid()
      ensures Taken(View(), 0, reply) == OnSynAck(old(View()), s, now, room)
    {
      rcvNxt := WrapAdd(s.seqNo, 1);
      sndUna := s.ackNo;
      state := Established;
      sndWnd := s.window;
      Acknowledge(s.ackNo, now);
      reply := Ack(room);
    }

    method TakeUnexpected(s: Segment, now: u64, room: nat) returns (reply: Option<Segment>)
      requires Valid()
      modifies this, unacked
      ensures Valid()
      ensures Taken(View(), 0, reply) == OnUnexpected(old(View()), s, now, room)
    {
      if s.flags.ack {
        sndWnd := s.window;
        Acknowledge(s.ackNo, now);
      }
      reply := Ack(room);
    }

    method TakeFin()
      modifies this`peerFinished, this`state
      ensures View() == OnFin(old(View()))
    {
      peerFinished := true;
      if state == FinWait && sndUna == sndNxt {
        state := Done;
      }
    }

    method TakeExpected(s: Segment, now: u64, room: nat) returns (accepted: nat, reply: Option<Segment>)
      requires Valid()
      modifies this, unacked
      ensures Valid()
      ensures Taken(View(), accepted, reply) == OnExpected(old(View()), s, now, room)
    {
      if s.flags.ack {
        sndUna := s.ackNo;
        sndWnd := s.window;
        Acknowledge(s.ackNo, now);
      }
      rcvNxt := WrapAdd(rcvNxt, SequenceLen(s.flags, s.payload));
      if s.flags.fin {
        TakeFin();
      }
      accepted, reply := |s.payload|, None;
      if |s.payload| > 0 || s.flags.fin {
        reply := Ack(room);
      }
    }

    method OnSegment(s: Segment, now: u64, room: nat) returns (accepted: nat, reply: Option<Segment>)
      requires Valid()
      modifies this, unacked
      ensures Valid()
      ensures Taken(View(), accepted, reply) == TcpSpec.OnSegment(old(View()), s, now, room)
    {
      accepted, reply := 0, None;
      if s.dstPort != localPort || s.srcPort != remotePort {
        return;
      }
      if s.flags.rst {
        state := Reset;
        return;
      }
      match state {
        case SynSent =>
          if s.flags.syn && s.flags.ack {
            reply := TakeSynAck(s, now, room);
          }
        case Established | FinWait =>
          if s.seqNo != rcvNxt {
            reply := TakeUnexpected(s, now, room);
          } else {
            accepted, reply := TakeExpected(s, now, room);
          }
        case _ =>
      }
    }
  }

  /** A scan that stops at the first uncovered segment has counted what an acknowledgement releases. */
  lemma {:induction false} ReleasedIs(q: seq<Unacked>, ack: u32, n: nat)
    requires n <= |q|
    requires forall i :: 0 <= i < n ==> Covered(q[i], ack)
    requires n < |q| ==> !Covered(q[n], ack)
    ensures Released(q, ack) == n
  {
    if n > 0 {
      assert forall i :: 0 <= i < n - 1 ==> q[1..][i] == q[i + 1];
      ReleasedIs(q[1..], ack, n - 1);
    }
  }
}
