/**
 The retransmission timer (RFC 6298) over whole runs: bounds on the timeout, what the
 smoothed round trip may be, and when a silent peer is given up on.
 */
module TcpTimer {
  import opened Common
  import opened TcpSpec
  import opened TcpRun

  // ----- which measurement an event makes -----

  function AckSample(c: Conn, ack: u32, now: u64): Option<u64>
  {
    var n := Released(c.unacked, ack);
    if n == 0 then None else SampleOf(c.unacked[..n], now)
  }

  /** The round trip an event measures, if it measures one. */
  function Measured(c: Conn, e: Event): Option<u64>
  {
    if !e.DoSegment? || e.s.dstPort != c.localPort || e.s.srcPort != c.remotePort || e.s.flags.rst then None
    else match c.state
      case SynSent => if e.s.flags.syn && e.s.flags.ack then AckSample(c, e.s.ackNo, e.now) else None
      case Established | FinWait => if e.s.flags.ack then AckSample(c, e.s.ackNo, e.now) else None
      case _ => None
  }

  function Log(samples: seq<nat>, m: Option<u64>): seq<nat>
  {
    if m.Some? then samples + [m.value] else samples
  }

  /** `h` is reached by `events`, which measured exactly `samples` after `before`. */
  predicate Measures(start: History, events: seq<Event>, h: History, before: seq<nat>, samples: seq<nat>)
    decreases |events|
  {
    if events == [] then h == start && samples == before
    else
      && Enabled(start, events[0])
      && Measures(Next(start, events[0]), events[1..], h, Log(before, Measured(start.conn, events[0])), samples)
  }

  // ----- what every event keeps -----

  predicate AllWithin(samples: seq<nat>, lo: nat, hi: nat)
  {
    forall i :: 0 <= i < |samples| ==> lo <= samples[i] <= hi
  }

  /** RTO in its bounds; SRTT where every measurement so far lies, and absent before the first. */
  ghost predicate TimerInv(c: Conn, samples: seq<nat>)
  {
    && MIN_RTO <= c.rto <= MAX_RTO
    && (c.srtt.None? <==> samples == [])
    && (c.srtt.None? ==> c.rttvar == 0)
    && forall lo: nat, hi: nat :: AllWithin(samples, lo, hi) && samples != [] ==>
         lo <= c.srtt.value <= hi && c.rttvar <= hi
  }

  /** A smoothed estimate cannot leave an interval that holds it and the measurement. */
  lemma SmoothingStaysBetween(srtt: Option<nat>, rttvar: nat, measured: nat, lo: nat, hi: nat)
    requires lo <= measured <= hi && rttvar <= hi && (srtt.Some? ==> lo <= srtt.value <= hi)
    ensures lo <= Smoothed(srtt, measured) <= hi && Variation(srtt, rttvar, measured) <= hi
  {}

  lemma SampleKeeps(c: Conn, samples: seq<nat>, m: nat)
    requires TimerInv(c, samples)
    ensures TimerInv(SampleRtt(c, m), samples + [m])
  {
    forall lo: nat, hi: nat | AllWithin(samples + [m], lo, hi)
      ensures lo <= Smoothed(c.srtt, m) <= hi && Variation(c.srtt, c.rttvar, m) <= hi
    {
      assert (samples + [m])[|samples|] == m;
      assert forall i :: 0 <= i < |samples| ==> (samples + [m])[i] == samples[i];
      assert AllWithin(samples, lo, hi);
      SmoothingStaysBetween(c.srtt, c.rttvar, m, lo, hi);
    }
  }

  predicate SameTimer(c: Conn, d: Conn) { c.srtt == d.srtt && c.rttvar == d.rttvar && c.rto == d.rto }

  lemma SegmentSamples(c: Conn, s: Segment, now: u64, room: nat)
    ensures var m := Measured(c, DoSegment(s, now, room));
            SameTimer(OnSegment(c, s, now, room).conn, if m.Some? then SampleRtt(c, m.value) else c)
  {
    if s.dstPort != c.localPort || s.srcPort != c.remotePort || s.flags.rst {
      return;
    }
  }

  lemma EventKeepsTimer(h: History, e: Event, samples: seq<nat>)
    requires TimerInv(h.conn, samples)
    ensures TimerInv(Next(h, e).conn, Log(samples, Measured(h.conn, e)))
  {
    var m := Measured(h.conn, e);
    if e.DoSegment? {
      SegmentSamples(h.conn, e.s, e.now, e.room);
      if m.Some? {
        SampleKeeps(h.conn, samples, m.value);
      }
    }
  }

  lemma {:induction false} RunKeepsTimer(start: History, events: seq<Event>, h: History,
                                         before: seq<nat>, samples: seq<nat>)
    requires TimerInv(start.conn, before) && Measures(start, events, h, before, samples)
    ensures TimerInv(h.conn, samples)
    decreases |events|
  {
    if events != [] {
      EventKeepsTimer(start, events[0], before);
      RunKeepsTimer(Next(start, events[0]), events[1..], h, Log(before, Measured(start.conn, events[0])), samples);
    }
  }

  /** In every reachable state the timeout is in bounds and SRTT lies among the measurements. */
  lemma TimeoutAlwaysInBounds(localPort: u16, remotePort: u16, isn: u32, events: seq<Event>, h: History,
                              samples: seq<nat>, lo: nat, hi: nat)
    requires Measures(Start(localPort, remotePort, isn), events, h, [], samples)
    requires AllWithin(samples, lo, hi)
    ensures MIN_RTO <= h.conn.rto <= MAX_RTO
    ensures h.conn.srtt.None? <==> samples == []
    ensures h.conn.srtt.Some? ==> lo <= h.conn.srtt.value <= hi && h.conn.rttvar <= hi
  {
    RunKeepsTimer(Start(localPort, remotePort, isn), events, h, [], samples);
  }

  /** Every intermediate of `sample_rtt` fits 64 bits while measurements stay at or below an eighth of 2^64. */
  lemma EstimatorFits(c: Conn, samples: seq<nat>, m: nat)
    requires TimerInv(c, samples) && AllWithin(samples + [m], 0, U64_MAX / 8)
    ensures c.srtt.Some? ==> c.srtt.value * 7 + m <= U64_MAX
    ensures c.rttvar * 3 + (if c.srtt.Some? && c.srtt.value >= m then c.srtt.value - m else m) <= U64_MAX
    ensures 4 * SampleRtt(c, m).rttvar <= U64_MAX
  {
    assert (samples + [m])[|samples|] == m;
    assert forall i :: 0 <= i < |samples| ==> (samples + [m])[i] == samples[i];
    assert AllWithin(samples, 0, U64_MAX / 8);
    SmoothingStaysBetween(c.srtt, c.rttvar, m, 0, U64_MAX / 8);
  }

  // ----- giving up -----

  /** The moments a caller wakes, always at `retransmit_at`, while the peer stays silent. */
  function Wakes(c: Conn, room: nat): (seq<u64>, Conn)
    requires c.unacked != [] && room >= HEADER_LEN + |c.unacked[0].payload|
    decreases MAX_RETRANSMISSIONS - c.unacked[0].retransmits
  {
    var now := c.unacked[0].deadline;
    var (r, out) := OnTimeout(c, now, room);
    if out.None? then ([now], r)
    else
      var (later, last) := Wakes(r, room);
      ([now] + later, last)
  }

  /** A silent peer sees at most three retransmissions, and the end comes by eight seconds after the first send. */
  lemma {:induction false} SilentPeerIsGivenUp(c: Conn, room: nat)
    requires c.unacked != [] && room >= HEADER_LEN + |c.unacked[0].payload|
    ensures var (times, last) := Wakes(c, room);
            var limit := Max(c.unacked[0].deadline, SatAdd(c.unacked[0].sentAt, GIVE_UP));
            && last.state == Aborted && last.unacked == []
            && 1 <= |times|
            && |times| - 1 <= Max(0, MAX_RETRANSMISSIONS - c.unacked[0].retransmits)
            && last.retransmissions == c.retransmissions + |times| - 1
            && forall i :: 0 <= i < |times| ==> times[i] <= limit
    decreases MAX_RETRANSMISSIONS - c.unacked[0].retransmits
  {
    var (r, out) := OnTimeout(c, c.unacked[0].deadline, room);
    if out.Some? {
      SilentPeerIsGivenUp(r, room);
    }
  }

  /** From a fresh connection the attempts fall 1, 3 and 7 seconds after the SYN, and the end at 8. */
  lemma FreshConnectionSchedule(localPort: u16, remotePort: u16, isn: u32, t: u64, room: nat)
    requires t < 0x8000_0000_0000_0000 && room >= HEADER_LEN
    ensures var c := SynOp(Connect(localPort, remotePort, isn), t, room).0;
            c.unacked != [] && c.unacked[0].payload == [] &&
            Wakes(c, room).0 == [t + 1_000_000_000, t + 3_000_000_000, t + 7_000_000_000, t + 8_000_000_000]
  {
    var c := SynOp(Connect(localPort, remotePort, isn), t, room).0;
    var c1 := OnTimeout(c, t + 1_000_000_000, room).0;
    var c2 := OnTimeout(c1, t + 3_000_000_000, room).0;
    var c3 := OnTimeout(c2, t + 7_000_000_000, room).0;
    assert Wakes(c3, room).0 == [t + 8_000_000_000];
    assert Wakes(c2, room).0 == [t + 7_000_000_000, t + 8_000_000_000];
    assert Wakes(c1, room).0 == [t + 3_000_000_000, t + 7_000_000_000, t + 8_000_000_000];
  }
}
