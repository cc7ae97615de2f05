/**
 The TCP connection as a value: what each entry point of `Connection` does to its
 state, as functions. The class in TcpConnection.dfy is proved to compute them.
 */
module TcpSpec {
  import opened Common

  // ----- sequence numbers -----

  const WRAP := 0x1_0000_0000

  function WrapAdd(a: int, b: int): u32 { (a + b) % WRAP }

  function WrapSub(a: int, b: int): u32 { (a - b) % WRAP }

  /** `seq_leq`: subtract, and look at the sign of the 32-bit difference. */
  predicate SeqLeq(a: u32, b: u32) { WrapSub(b, a) < 0x8000_0000 }

  // ----- segments -----

  /** The flags byte, bit by bit; `other` is the three high bits this module never reads. */
  datatype Flags = Flags(fin: bool, syn: bool, rst: bool, psh: bool, ack: bool, other: nat)

  const ACK := Flags(false, false, false, false, true, 0)
  const ACK_PSH := ACK.(psh := true)
  const ACK_FIN := ACK.(fin := true)
  const SYN := Flags(false, true, false, false, false, 0)

  const HEADER_LEN := 20
  const WINDOW: u16 := 4096

  datatype Segment = Segment(srcPort: u16, dstPort: u16, seqNo: u32, ackNo: u32, flags: Flags, window: u16,
                             payload: seq<byte>)

  /** One unit of sequence space. */
  datatype Sym = Syn | Data(b: byte) | Fin

  /** What a segment with these flags and payload occupies in the sequence space. */
  function Syms(flags: Flags, payload: seq<byte>): seq<Sym>
  {
    (if flags.syn then [Syn] else []) + DataSyms(payload) + (if flags.fin then [Fin] else [])
  }

  function DataSyms(payload: seq<byte>): (s: seq<Sym>)
    ensures |s| == |payload|
  {
    seq(|payload|, i requires 0 <= i < |payload| => Data(payload[i]))
  }

  /** `Segment::sequence_len`. */
  function SequenceLen(flags: Flags, payload: seq<byte>): nat
  {
    |payload| + (if flags.syn then 1 else 0) + (if flags.fin then 1 else 0)
  }

  // ----- the connection -----

  const INITIAL_RTO: u64 := 1_000_000_000
  const MIN_RTO: u64 := 200_000_000
  const MAX_RTO: u64 := 60_000_000_000
  const GRANULARITY: u64 := 1_000_000
  const MAX_RETRANSMISSIONS := 3
  const GIVE_UP: u64 := 8_000_000_000
  const MAX_PAYLOAD := 256
  const MAX_UNACKED := 4

  datatype State = Closed | SynSent | Established | FinWait | Done | Reset | Aborted

  datatype Unacked = Unacked(seqNo: u32, flags: Flags, payload: seq<byte>, span: nat,
                             sentAt: u64, deadline: u64, retransmits: nat)

  datatype Conn = Conn(state: State, localPort: u16, remotePort: u16,
                       sndNxt: u32, sndUna: u32, rcvNxt: u32, peerFinished: bool,
                       srtt: Option<nat>, rttvar: nat, rto: u64, retransmissions: nat,
                       unacked: seq<Unacked>, sndWnd: u16)

  /** `write` into a buffer of `room` bytes: refused when the segment does not fit. */
  function Emit(room: nat, s: Segment): Option<Segment>
  {
    if HEADER_LEN + |s.payload| <= room then Some(s) else None
  }

  function SegmentOf(c: Conn, seqNo: u32, ackNo: u32, flags: Flags, payload: seq<byte>): Segment
  {
    Segment(c.localPort, c.remotePort, seqNo, ackNo, flags, WINDOW, payload)
  }

  function Connect(localPort: u16, remotePort: u16, isn: u32): Conn
  {
    Conn(SynSent, localPort, remotePort, WrapAdd(isn, 1), isn, 0, false, None, 0, INITIAL_RTO, 0, [], MAX_PAYLOAD)
  }

  function InFlight(q: seq<Unacked>): nat
  {
    if q == [] then 0 else q[0].span + InFlight(q[1..])
  }

  predicate HasRoomFor(c: Conn, bytes: nat)
  {
    |c.unacked| < MAX_UNACKED && InFlight(c.unacked) + bytes <= c.sndWnd
  }

  function Queue(c: Conn, seqNo: u32, flags: Flags, payload: seq<byte>, span: nat, now: u64): Conn
  {
    if |c.unacked| >= MAX_UNACKED then c
    else c.(unacked := c.unacked + [Unacked(seqNo, flags, payload, span, now, SatAdd(now, c.rto), 0)])
  }

  function SynOp(c: Conn, now: u64, room: nat): (Conn, Option<Segment>)
  {
    var s := Emit(room, SegmentOf(c, c.sndUna, 0, SYN, []));
    if s.None? then (c, None) else (Queue(c, c.sndUna, SYN, [], 1, now), s)
  }

  function BareAck(c: Conn, room: nat): Option<Segment>
  {
    Emit(room, SegmentOf(c, c.sndNxt, c.rcvNxt, ACK, []))
  }

  function Send(c: Conn, payload: seq<byte>, now: u64, room: nat): (Conn, Option<Segment>)
  {
    if c.state != Established || |payload| > MAX_PAYLOAD || !HasRoomFor(c, |payload|) then (c, None)
    else
      var s := Emit(room, SegmentOf(c, c.sndNxt, c.rcvNxt, ACK_PSH, payload));
      if s.None? then (c, None)
      else (Queue(c.(sndNxt := WrapAdd(c.sndNxt, |payload|)), c.sndNxt, ACK_PSH, payload, |payload|, now), s)
  }

  function Close(c: Conn, now: u64, room: nat): (Conn, Option<Segment>)
  {
    if c.state != Established || !HasRoomFor(c, 1) then (c, None)
    else
      var s := Emit(room, SegmentOf(c, c.sndNxt, c.rcvNxt, ACK_FIN, []));
      if s.None? then (c, None)
      else (Queue(c.(sndNxt := WrapAdd(c.sndNxt, 1), state := FinWait), c.sndNxt, ACK_FIN, [], 1, now), s)
  }

  function OnTimeout(c: Conn, now: u64, room: nat): (Conn, Option<Segment>)
  {
    if c.unacked == [] || now < c.unacked[0].deadline then (c, None)
    else
      var held := c.unacked[0];
      if held.retransmits >= MAX_RETRANSMISSIONS || SatSub(now, held.sentAt) >= GIVE_UP then
        (c.(unacked := [], state := Aborted), None)
      else
        var rto := Min(2 * c.rto, MAX_RTO);
        var deadline := Min(SatAdd(now, rto), SatAdd(held.sentAt, GIVE_UP));
        var c1 := c.(rto := rto, retransmissions := c.retransmissions + 1);
        var s := Emit(room, SegmentOf(c, held.seqNo, c.rcvNxt, held.flags, held.payload));
        if s.None? then (c1, None)
        else (c1.(unacked := c.unacked[0 := held.(retransmits := held.retransmits + 1, deadline := deadline)]), s)
  }

  predicate Covered(u: Unacked, ack: u32) { SeqLeq(WrapAdd(u.seqNo, u.span), ack) }

  /** How many segments at the front of the buffer an acknowledgement releases. */
  function Released(q: seq<Unacked>, ack: u32): (n: nat)
    ensures n <= |q|
  {
    if q == [] || !Covered(q[0], ack) then 0 else 1 + Released(q[1..], ack)
  }

  /** The round trip of the newest segment of `q` that was sent exactly once. */
  function SampleOf(q: seq<Unacked>, now: u64): Option<u64>
  {
    if q == [] then None
    else
      var last := q[|q| - 1];
      if last.retransmits == 0 then Some(SatSub(now, last.sentAt)) else SampleOf(q[..|q| - 1], now)
  }

  function Clamp(x: int, lo: int, hi: int): int { if x < lo then lo else if x > hi then hi else x }

  /** RFC 6298 (2.2) and (2.3): the smoothed round trip and its variation after one more measurement. */
  function Smoothed(srtt: Option<nat>, measured: nat): nat
  {
    if srtt.None? then measured else (srtt.value * 7 + measured) / 8
  }

  function Variation(srtt: Option<nat>, rttvar: nat, measured: nat): nat
  {
    if srtt.None? then measured / 2
    else (rttvar * 3 + (if srtt.value >= measured then srtt.value - measured else measured - srtt.value)) / 4
  }

  function Timeout(srtt: nat, rttvar: nat): u64
  {
    Clamp(srtt + Max(4 * rttvar, GRANULARITY), MIN_RTO, MAX_RTO)
  }

  function SampleRtt(c: Conn, measured: nat): Conn
  {
    var srtt := Smoothed(c.srtt, measured);
    var rttvar := Variation(c.srtt, c.rttvar, measured);
    c.(srtt := Some(srtt), rttvar := rttvar, rto := Timeout(srtt, rttvar))
  }

  function Rearm(q: seq<Unacked>, deadline: u64): seq<Unacked>
  {
    if q == [] then q else q[0 := q[0].(deadline := deadline)]
  }

  function Acknowledge(c: Conn, ack: u32, now: u64): Conn
  {
    var n := Released(c.unacked, ack);
    if n == 0 then c
    else
      var sample := SampleOf(c.unacked[..n], now);
      var c1 := c.(unacked := c.unacked[n..]);
      var c2 := if sample.Some? then SampleRtt(c1, sample.value) else c1;
      c2.(unacked := Rearm(c2.unacked, SatAdd(now, c2.rto)))
  }

  /** What `on_segment` returns: how much payload is new, and the reply it owes. */
  datatype Taken = Taken(conn: Conn, accepted: nat, reply: Option<Segment>)

  function OnSynAck(c: Conn, s: Segment, now: u64, room: nat): Taken
  {
    var c1 := c.(rcvNxt := WrapAdd(s.seqNo, 1), sndUna := s.ackNo, state := Established, sndWnd := s.window);
    var c2 := Acknowledge(c1, s.ackNo, now);
    Taken(c2, 0, BareAck(c2, room))
  }

  /** A gap or a repeat: only its acknowledgement counts. */
  function OnUnexpected(c: Conn, s: Segment, now: u64, room: nat): Taken
  {
    var c1 := if s.flags.ack then Acknowledge(c.(sndWnd := s.window), s.ackNo, now) else c;
    Taken(c1, 0, BareAck(c1, room))
  }

  /** The peer's FIN, once everything before it has been taken. */
  function OnFin(c: Conn): Conn
  {
    var c1 := c.(peerFinished := true);
    if c.state == FinWait && c.sndUna == c.sndNxt then c1.(state := Done) else c1
  }

  function OnExpected(c: Conn, s: Segment, now: u64, room: nat): Taken
  {
    var c1 := if s.flags.ack
              then Acknowledge(c.(sndUna := s.ackNo, sndWnd := s.window), s.ackNo, now) else c;
    var c2 := c1.(rcvNxt := WrapAdd(c1.rcvNxt, SequenceLen(s.flags, s.payload)));
    var c3 := if s.flags.fin then OnFin(c2) else c2;
    Taken(c3, |s.payload|, if |s.payload| > 0 || s.flags.fin then BareAck(c3, room) else None)
  }

  function OnSegment(c: Conn, s: Segment, now: u64, room: nat): (t: Taken)
    ensures t.accepted == 0 || t.accepted == |s.payload|
  {
    if s.dstPort != c.localPort || s.srcPort != c.remotePort then Taken(c, 0, None)
    else if s.flags.rst then Taken(c.(state := Reset), 0, None)
    else match c.state
      case SynSent =>
        if s.flags.syn && s.flags.ack then OnSynAck(c, s, now, room) else Taken(c, 0, None)
      case Established | FinWait =>
        if s.seqNo != c.rcvNxt then OnUnexpected(c, s, now, room) else OnExpected(c, s, now, room)
      case _ => Taken(c, 0, None)
  }
}
