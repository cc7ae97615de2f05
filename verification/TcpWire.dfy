/** TCP segments on the wire: written in place with their checksum, and read back. */
module TcpWire {
  import opened Common
  import opened Buffers
  import opened Checksum
  import Udp
  import TcpSpec

  const PROTOCOL: byte := 6

  /** A segment as `parse` returns it, its flags still a byte. */
  datatype Raw = Raw(srcPort: u16, dstPort: u16, seqNo: u32, ackNo: u32, flags: byte, window: u16, payload: seq<byte>)

  predicate Fits(payload: seq<byte>) { 20 + |payload| <= 0xffff }

  function Front(s: Raw): (b: seq<byte>)
    ensures |b| == 16
  {
    Be16(s.srcPort) + Be16(s.dstPort) + Be32(s.seqNo) + Be32(s.ackNo) + [0x50, s.flags] + Be16(s.window)
  }

  function Bytes(s: Raw, check: u16): (b: seq<byte>)
    ensures |b| == 20 + |s.payload|
  {
    Front(s) + Be16(check) + Be16(0) + s.payload
  }

  function Summed(p: Udp.Peers, s: Raw): nat
    requires Fits(s.payload)
  {
    Udp.PseudoHeader(p, PROTOCOL, 20 + |s.payload|) + Total(Bytes(s, 0))
  }

  lemma SummedFits(p: Udp.Peers, s: Raw)
    requires p.Ok() && Fits(s.payload)
    ensures 0 < Summed(p, s) <= 0x8020_0000
  {
    Udp.PseudoBounds(p, PROTOCOL, 20 + |s.payload|);
    TotalBound(Bytes(s, 0));
  }

  function Written(p: Udp.Peers, s: Raw): seq<byte>
    requires p.Ok() && Fits(s.payload)
  {
    SummedFits(p, s);
    Bytes(s, OnWire(Fold(Summed(p, s))))
  }

  lemma BytesTotal(s: Raw, check: u16)
    ensures Total(Bytes(s, check)) == Total(Bytes(s, 0)) + check
  {
    TotalWord(check);
    TotalWord(0);
    TotalAppend(Front(s), Be16(check));
    TotalAppend(Front(s), Be16(0));
    TotalAppend(Front(s) + Be16(check), Be16(0));
    TotalAppend(Front(s) + Be16(0), Be16(0));
    TotalAppend(Front(s) + Be16(check) + Be16(0), s.payload);
    TotalAppend(Front(s) + Be16(0) + Be16(0), s.payload);
  }

  /** `write_with_window` into `out`: refused when it does not fit, otherwise exactly these bytes. */
  method Write(out: array<byte>, p: Udp.Peers, s: Raw) returns (r: Option<nat>)
    requires p.Ok()
    modifies out
    ensures r.Some? <==> Fits(s.payload) && 20 + |s.payload| <= out.Length
    ensures r.Some? ==> r.value == 20 + |s.payload| && out[..] == Spliced(old(out[..]), 0, Written(p, s))
  {
    hide *;
    FitsIs(s);
    var len := 20 + |s.payload|;
    if len > out.Length {
      return None;
    }
    ghost var start := out[..];
    FrontIs(s);
    PutFront(out, s);
    Copy(out, 16, Be16(0));
    SpliceNext(start, 0, Front(s), Be16(0));
    Copy(out, 18, Be16(0));
    SpliceNext(start, 0, Front(s) + Be16(0), Be16(0));
    Copy(out, 20, s.payload);
    SpliceNext(start, 0, Front(s) + Be16(0) + Be16(0), s.payload);
    BytesAre(s, 0);
    SpliceRead(start, 0, Bytes(s, 0));
    assert out[..len] == out[..][0..len];
    if len > 0xffff {
      return None;
    }
    SummedFits(p, s);
    Udp.AddFits(len);
    var sum := Udp.SumPseudoHeader(p, PROTOCOL, len);
    sum := Add(sum, out[..len]);
    SummedIs(p, s);
    var check := OnWire(Fold(sum));
    Copy(out, 16, Be16(check));
    assert Front(s) + Be16(0) + (Be16(0) + s.payload) == Front(s) + Be16(0) + Be16(0) + s.payload;
    assert Front(s) + Be16(check) + (Be16(0) + s.payload) == Front(s) + Be16(check) + Be16(0) + s.payload;
    SpliceInside(start, 0, Front(s), Be16(0), Be16(check), Be16(0) + s.payload);
    BytesAre(s, check);
    return Some(len);
  }

  /** The fields before the checksum. */
  method PutFront(out: array<byte>, s: Raw)
    requires out.Length >= 20
    modifies out
    ensures out[..] == Spliced(old(out[..]), 0, Front(s))
  {
    hide *;
    ghost var start := out[..];
    Copy(out, 0, Be16(s.srcPort));
    Copy(out, 2, Be16(s.dstPort));
    SpliceNext(start, 0, Be16(s.srcPort), Be16(s.dstPort));
    ghost var a := Be16(s.srcPort) + Be16(s.dstPort);
    Copy(out, 4, Be32(s.seqNo));
    SpliceNext(start, 0, a, Be32(s.seqNo));
    Copy(out, 8, Be32(s.ackNo));
    SpliceNext(start, 0, a + Be32(s.seqNo), Be32(s.ackNo));
    Copy(out, 12, [0x50, s.flags]);
    SpliceNext(start, 0, a + Be32(s.seqNo) + Be32(s.ackNo), [0x50, s.flags]);
    Copy(out, 14, Be16(s.window));
    SpliceNext(start, 0, a + Be32(s.seqNo) + Be32(s.ackNo) + [0x50, s.flags], Be16(s.window));
    FrontIs(s);
  }

  lemma FitsIs(s: Raw)
    ensures Fits(s.payload) <==> 20 + |s.payload| <= 0xffff
  {}

  lemma FrontIs(s: Raw)
    ensures Front(s) == Be16(s.srcPort) + Be16(s.dstPort) + Be32(s.seqNo) + Be32(s.ackNo) + [0x50, s.flags] + Be16(s.window)
  {}

  lemma BytesAre(s: Raw, check: u16)
    ensures Bytes(s, check) == Front(s) + Be16(check) + Be16(0) + s.payload
  {}

  lemma SummedIs(p: Udp.Peers, s: Raw)
    requires p.Ok() && Fits(s.payload) && 20 + |s.payload| <= 0xffff && 0 < Summed(p, s) <= 0x8020_0000
    ensures Summed(p, s) == Udp.PseudoHeader(p, PROTOCOL, 20 + |s.payload|) + Total(Bytes(s, 0))
    ensures Written(p, s) == Bytes(s, OnWire(Fold(Summed(p, s))))
  {}

  /** `tcp::parse`: the whole slice is the segment, options are skipped, the checksum must verify. */
  function Parse(b: seq<byte>, p: Udp.Peers): Option<Raw>
    requires p.Ok()
  {
    if |b| < 20 then None
    else
      var offset := b[12] / 16 * 4;
      if offset < 20 || offset > |b| || |b| > 0xffff then None
      else
        ParseFits(b, p);
        if Fold(Udp.PseudoHeader(p, PROTOCOL, |b|) + Total(b)) != 0 then None
        else Some(Raw(Word(b, 0), Word(b, 2), Word32(b, 4), Word32(b, 8), b[13], Word(b, 14), b[offset..]))
  }

  lemma ParseFits(b: seq<byte>, p: Udp.Peers)
    requires p.Ok() && |b| <= 0xffff
    ensures 0 < Udp.PseudoHeader(p, PROTOCOL, |b|) + Total(b) <= 0x8020_0000
  {
    Udp.PseudoBounds(p, PROTOCOL, |b|);
    TotalBound(b);
  }

  lemma BytesRead(s: Raw, check: u16)
    ensures var b := Bytes(s, check);
            && Word(b, 0) == s.srcPort && Word(b, 2) == s.dstPort && Word32(b, 4) == s.seqNo && Word32(b, 8) == s.ackNo
            && b[12] == 0x50 && b[13] == s.flags && Word(b, 14) == s.window && b[20..] == s.payload && Word(b, 16) == check
  {
    var b := Bytes(s, check);
    var f := Front(s);
    assert b[..16] == f && b[16..18] == Be16(check);
    assert f[0..2] == Be16(s.srcPort) && f[2..4] == Be16(s.dstPort);
    assert f[4..8] == Be32(s.seqNo) && f[8..12] == Be32(s.ackNo) && f[12..14] == [0x50, s.flags] && f[14..16] == Be16(s.window);
    Read16(b, 0, s.srcPort);
    Read16(b, 2, s.dstPort);
    Read32(b, 4, s.seqNo);
    Read32(b, 8, s.ackNo);
    Read16(b, 14, s.window);
    Read16(b, 16, check);
    assert b[12] == f[12..14][0] && b[13] == f[12..14][1];
  }

  lemma Read16(b: seq<byte>, at: nat, v: u16)
    requires at + 2 <= |b| && b[at..at + 2] == Be16(v)
    ensures Word(b, at) == v
  {
    assert b[at] == b[at..at + 2][0] && b[at + 1] == b[at..at + 2][1];
  }

  lemma Read32(b: seq<byte>, at: nat, v: u32)
    requires at + 4 <= |b| && b[at..at + 4] == Be32(v)
    ensures Word32(b, at) == v
  {
    assert b[at..at + 2] == b[at..at + 4][..2] == Be16(v / 0x1_0000);
    assert b[at + 2..at + 4] == b[at..at + 4][2..] == Be16(v % 0x1_0000);
    Read16(b, at, v / 0x1_0000);
    Read16(b, at + 2, v % 0x1_0000);
  }

  /** A written segment verifies and reads back, over either family. */
  lemma RoundTrip(p: Udp.Peers, s: Raw)
    requires p.Ok() && Fits(s.payload)
    ensures Parse(Written(p, s), p) == Some(s)
  {
    SummedFits(p, s);
    var check := OnWire(Fold(Summed(p, s)));
    BytesRead(s, check);
    BytesTotal(s, check);
    Completes(Summed(p, s), check);
    FoldsToZero(Summed(p, s) + check);
  }

  // ----- a zero checksum -----

  /**
   The documentation says a zero checksum is refused. The code refuses one exactly when the
   sum over everything else is not already a multiple of 65535.
   */
  lemma ZeroChecksumRefusedIff(p: Udp.Peers, s: Raw)
    requires p.Ok() && Fits(s.payload)
    ensures Parse(Bytes(s, 0), p).None? <==> Summed(p, s) % 0xffff != 0
  {
    SummedFits(p, s);
    BytesRead(s, 0);
    FoldsToZero(Summed(p, s));
  }

  /** And there is one it accepts: between all-zero IPv4 addresses, one window away from the rest. */
  lemma ZeroChecksumAccepted()
    ensures var p := Udp.V4([0, 0, 0, 0], [0, 0, 0, 0]);
            var s := Raw(0, 0, 0, 0, 0, 0xafe5, []);
            Word(Bytes(s, 0), 16) == 0 && Parse(Bytes(s, 0), p) == Some(s)
  {
    var zero: seq<byte> := [0, 0, 0, 0];
    var p := Udp.V4(zero, zero);
    var s := Raw(0, 0, 0, 0, 0, 0xafe5, []);
    assert zero[2..] == [0, 0] && zero[2..][2..] == [];
    assert Total(zero) == 0;
    FrontTotal(s);
    TotalWord(0);
    TotalAppend(Front(s), Be16(0));
    TotalAppend(Front(s) + Be16(0), Be16(0));
    TotalAppend(Front(s) + Be16(0) + Be16(0), s.payload);
    assert Summed(p, s) == 0xffff;
    ZeroChecksumRefusedIff(p, s);
    BytesRead(s, 0);
  }

  lemma FrontTotal(s: Raw)
    ensures Total(Front(s)) == s.srcPort + s.dstPort + s.seqNo / 0x1_0000 + s.seqNo % 0x1_0000 +
                               s.ackNo / 0x1_0000 + s.ackNo % 0x1_0000 + 0x5000 + s.flags as int + s.window
  {
    TotalWord(s.srcPort);
    TotalWord(s.dstPort);
    TotalWord32(s.seqNo);
    TotalWord32(s.ackNo);
    TotalWord(s.window);
    var f: seq<byte> := [0x50, s.flags];
    assert f[2..] == [];
    var a := Be16(s.srcPort) + Be16(s.dstPort);
    TotalAppend(Be16(s.srcPort), Be16(s.dstPort));
    TotalAppend(a, Be32(s.seqNo));
    TotalAppend(a + Be32(s.seqNo), Be32(s.ackNo));
    TotalAppend(a + Be32(s.seqNo) + Be32(s.ackNo), f);
    TotalAppend(a + Be32(s.seqNo) + Be32(s.ackNo) + f, Be16(s.window));
  }

  // ----- the flags byte -----

  function FlagsByte(f: TcpSpec.Flags): byte
    requires f.other < 8
  {
    (if f.fin then 1 else 0) + (if f.syn then 2 else 0) + (if f.rst then 4 else 0) + (if f.psh then 8 else 0) +
    (if f.ack then 16 else 0) + 32 * f.other
  }

  function FlagsOf(b: byte): TcpSpec.Flags
  {
    TcpSpec.Flags(b % 2 == 1, b / 2 % 2 == 1, b / 4 % 2 == 1, b / 8 % 2 == 1, b / 16 % 2 == 1, b / 32)
  }

  function ToRaw(s: TcpSpec.Segment): Raw
    requires s.flags.other < 8
  {
    Raw(s.srcPort, s.dstPort, s.seqNo, s.ackNo, FlagsByte(s.flags), s.window, s.payload)
  }

  function FromRaw(r: Raw): TcpSpec.Segment
  {
    TcpSpec.Segment(r.srcPort, r.dstPort, r.seqNo, r.ackNo, FlagsOf(r.flags), r.window, r.payload)
  }

  /** What a connection emits arrives as the segment it emitted. */
  lemma SegmentRoundTrip(p: Udp.Peers, s: TcpSpec.Segment)
    requires p.Ok() && s.flags.other < 8 && Fits(s.payload)
    ensures Parse(Written(p, ToRaw(s)), p).Some? && FromRaw(Parse(Written(p, ToRaw(s)), p).value) == s
  {
    RoundTrip(p, ToRaw(s));
    FlagsBack(s.flags);
  }

  lemma FlagsBack(f: TcpSpec.Flags)
    requires f.other < 8
    ensures FlagsOf(FlagsByte(f)) == f
  {
    var b := FlagsByte(f);
    var b4 := (if f.ack then 1 else 0) + 2 * f.other;
    var b3 := (if f.psh then 1 else 0) + 2 * b4;
    var b2 := (if f.rst then 1 else 0) + 2 * b3;
    var b1 := (if f.syn then 1 else 0) + 2 * b2;
    LowFlag(b, f.fin, b1);
    LowFlag(b1, f.syn, b2);
    LowFlag(b2, f.rst, b3);
    LowFlag(b3, f.psh, b4);
    LowFlag(b4, f.ack, f.other);
    Shifts(b);
  }

  lemma LowFlag(v: nat, on: bool, rest: nat)
    requires v == (if on then 1 else 0) + 2 * rest
    ensures v / 2 == rest && (v % 2 == 1 <==> on)
  {}

  lemma Shifts(v: nat)
    ensures v / 4 == v / 2 / 2 && v / 8 == v / 4 / 2 && v / 16 == v / 8 / 2 && v / 32 == v / 16 / 2
  {}
}
