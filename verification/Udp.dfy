/** UDP over either family: the pseudo-header checksum, writing a datagram and reading one back. */
module Udp {
  import opened Common
  import opened Buffers
  import opened Checksum

  /** The addresses a datagram travels between. */
  datatype Peers = V4(src: seq<byte>, dst: seq<byte>) | V6(src: seq<byte>, dst: seq<byte>)
  {
    predicate Ok() { if V4? then |src| == |dst| == 4 else |src| == |dst| == 16 }
  }

  const HEADER_LEN := 8
  const PROTO_UDP: byte := 17

  /** The sum of the pseudo-header each family puts in front of a datagram. */
  function PseudoHeader(p: Peers, protocol: byte, len: u16): nat
  {
    match p
    case V4(src, dst) => Total(src) + Total(dst) + protocol as int + len
    case V6(src, dst) => Total(src) + Total(dst) + 0 + len + 0 + protocol as int
  }

  lemma PseudoBounds(p: Peers, protocol: byte, len: u16)
    requires p.Ok()
    ensures protocol as int <= PseudoHeader(p, protocol, len) <= 0xffff * 16 + 0xffff + 255
  {
    TotalBound(p.src);
    TotalBound(p.dst);
  }

  /** `Peers::pseudo_header`, piece by piece as it is summed. */
  method SumPseudoHeader(p: Peers, protocol: byte, len: u16) returns (sum: u32)
    requires p.Ok()
    ensures sum == PseudoHeader(p, protocol, len) <= 0xffff * 16 + 0xffff + 255
  {
    PseudoBounds(p, protocol, len);
    TotalBound(p.src);
    sum := Add(0, p.src);
    sum := Add(sum, p.dst);
    if p.V4? {
      sum := sum + protocol as int;
      sum := sum + len;
    } else {
      sum := sum + (len as int) / 0x1_0000;
      sum := sum + len % 0x1_0000;
      sum := sum + 0;
      sum := sum + protocol as int;
    }
  }

  datatype Datagram = Datagram(srcPort: u16, dstPort: u16, payload: seq<byte>)

  predicate Fits(payload: seq<byte>) { HEADER_LEN + |payload| <= 0xffff }

  /** A datagram's bytes around whatever its checksum field holds. */
  function Bytes(d: Datagram, check: u16): (b: seq<byte>)
    requires Fits(d.payload)
    ensures |b| == HEADER_LEN + |d.payload|
  {
    Be16(d.srcPort) + Be16(d.dstPort) + Be16(HEADER_LEN + |d.payload|) + Be16(check) + d.payload
  }

  function Summed(p: Peers, d: Datagram): nat
    requires Fits(d.payload)
  {
    PseudoHeader(p, PROTO_UDP, HEADER_LEN + |d.payload|) + Total(Bytes(d, 0))
  }

  lemma SummedFits(p: Peers, d: Datagram)
    requires p.Ok() && Fits(d.payload)
    ensures 0 < Summed(p, d) <= 0x8020_0000
  {
    PseudoBounds(p, PROTO_UDP, HEADER_LEN + |d.payload|);
    TotalBound(Bytes(d, 0));
  }

  /** What `write` puts on the wire. */
  function Written(p: Peers, d: Datagram): seq<byte>
    requires p.Ok() && Fits(d.payload)
  {
    SummedFits(p, d);
    Bytes(d, OnWire(Fold(Summed(p, d))))
  }

  lemma BytesTotal(d: Datagram, check: u16)
    requires Fits(d.payload)
    ensures Total(Bytes(d, check)) == Total(Bytes(d, 0)) + check
  {
    BytesTotalIs(d, check);
    BytesTotalIs(d, 0);
  }

  lemma BytesTotalIs(d: Datagram, check: u16)
    requires Fits(d.payload)
    ensures Total(Bytes(d, check)) == d.srcPort + d.dstPort + (HEADER_LEN + |d.payload|) + check + Total(d.payload)
  {
    var len: u16 := HEADER_LEN + |d.payload|;
    TotalWord(d.srcPort);
    TotalWord(d.dstPort);
    TotalWord(len);
    TotalWord(check);
    TotalAppend(Be16(d.srcPort), Be16(d.dstPort));
    TotalAppend(Be16(d.srcPort) + Be16(d.dstPort), Be16(len));
    TotalAppend(Be16(d.srcPort) + Be16(d.dstPort) + Be16(len), Be16(check));
    TotalAppend(Be16(d.srcPort) + Be16(d.dstPort) + Be16(len) + Be16(check), d.payload);
  }

  /** `udp::write` into the slice `out[lo..hi]`: refused when it does not fit, otherwise exactly these bytes. */
  method Write(out: array<byte>, lo: nat, hi: nat, p: Peers, d: Datagram) returns (r: Option<nat>)
    requires lo <= hi <= out.Length && p.Ok()
    modifies out
    ensures r.Some? <==> Fits(d.payload) && HEADER_LEN + |d.payload| <= hi - lo
    ensures r.None? ==> out[..] == old(out[..])
    ensures r.Some? ==> r.value == HEADER_LEN + |d.payload| && out[..] == Spliced(old(out[..]), lo, Written(p, d))
  {
    hide *;
    FitsIs(d);
    var len := 8 + |d.payload|;
    if len > 0xffff || len > hi - lo {
      return None;
    }
    ghost var start := out[..];
    ghost var head := Be16(d.srcPort) + Be16(d.dstPort) + Be16(len);
    Copy(out, lo, Be16(d.srcPort));
    Copy(out, lo + 2, Be16(d.dstPort));
    SpliceNext(start, lo, Be16(d.srcPort), Be16(d.dstPort));
    Copy(out, lo + 4, Be16(len));
    SpliceNext(start, lo, Be16(d.srcPort) + Be16(d.dstPort), Be16(len));
    Copy(out, lo + 6, Be16(0));
    SpliceNext(start, lo, head, Be16(0));
    Copy(out, lo + 8, d.payload);
    SpliceNext(start, lo, head + Be16(0), d.payload);
    BytesAre(d, 0);
    SpliceRead(start, lo, Bytes(d, 0));
    assert out[lo..lo + len] == out[..][lo..lo + len];
    SummedFits(p, d);
    AddFits(len);
    var sum := SumPseudoHeader(p, PROTO_UDP, len);
    sum := Add(sum, out[lo..lo + len]);
    SummedIs(p, d);
    var check := OnWire(Fold(sum));
    Copy(out, lo + 6, Be16(check));
    SpliceInside(start, lo, head, Be16(0), Be16(check), d.payload);
    BytesAre(d, check);
    return Some(len);
  }

  lemma FitsIs(d: Datagram)
    ensures Fits(d.payload) <==> 8 + |d.payload| <= 0xffff
    ensures HEADER_LEN == 8
  {}

  lemma AddFits(len: nat)
    requires len <= 0xffff
    ensures 0xffff * 16 + 0xffff + 255 + 0xffff * ((len + 1) / 2) <= U32_MAX
  {}

  lemma BytesAre(d: Datagram, check: u16)
    requires Fits(d.payload)
    ensures 8 + |d.payload| <= 0xffff
    ensures Bytes(d, check) == Be16(d.srcPort) + Be16(d.dstPort) + Be16(8 + |d.payload|) + Be16(check) + d.payload
  {}

  lemma SummedIs(p: Peers, d: Datagram)
    requires p.Ok() && Fits(d.payload) && 0 <= 8 + |d.payload| <= 0xffff && 0 < Summed(p, d) <= 0x8020_0000
    ensures Summed(p, d) == PseudoHeader(p, PROTO_UDP, 8 + |d.payload|) + Total(Bytes(d, 0))
    ensures Written(p, d) == Bytes(d, OnWire(Fold(Summed(p, d))))
  {}

  /** `udp::parse`. */
  function Parse(b: seq<byte>, p: Peers): Option<Datagram>
    requires p.Ok()
  {
    if |b| < HEADER_LEN then None
    else
      var len := Word(b, 4);
      if len < HEADER_LEN || len > |b| then None
      else
        var stated := Word(b, 6);
        var d := Datagram(Word(b, 0), Word(b, 2), b[HEADER_LEN..len]);
        if stated == 0 then (if p.V4? then Some(d) else None)
        else
          var sum := PseudoHeader(p, PROTO_UDP, len) + Total(b[..len]);
          ParseFits(b, len, p);
          if Fold(sum) != 0 then None else Some(d)
  }

  lemma ParseFits(b: seq<byte>, len: u16, p: Peers)
    requires p.Ok() && len <= |b|
    ensures PseudoHeader(p, PROTO_UDP, len) + Total(b[..len]) <= 0x8020_0000
  {
    PseudoBounds(p, PROTO_UDP, len);
    TotalBound(b[..len]);
  }

  lemma BytesRead(d: Datagram, check: u16, pad: seq<byte>)
    requires Fits(d.payload)
    ensures var b := Bytes(d, check) + pad;
            && Word(b, 0) == d.srcPort && Word(b, 2) == d.dstPort && Word(b, 4) == HEADER_LEN + |d.payload| && Word(b, 6) == check
            && b[..HEADER_LEN + |d.payload|] == Bytes(d, check) && b[HEADER_LEN..HEADER_LEN + |d.payload|] == d.payload
  {
    var b := Bytes(d, check) + pad;
    assert b[..8] == Be16(d.srcPort) + Be16(d.dstPort) + Be16(HEADER_LEN + |d.payload|) + Be16(check);
    assert Word(b, 0) == Word(b[..8], 0) && Word(b, 2) == Word(b[..8], 2) && Word(b, 4) == Word(b[..8], 4) && Word(b, 6) == Word(b[..8], 6);
  }

  /** Whatever follows it, a written datagram verifies and reads back, over either family. */
  lemma RoundTrip(p: Peers, d: Datagram, pad: seq<byte>)
    requires p.Ok() && Fits(d.payload)
    ensures Parse(Written(p, d) + pad, p) == Some(d)
  {
    SummedFits(p, d);
    var check := OnWire(Fold(Summed(p, d)));
    BytesRead(d, check, pad);
    BytesTotal(d, check);
    Completes(Summed(p, d), check);
    FoldsToZero(Summed(p, d) + check);
  }

  /** A datagram that parses either verifies against these addresses or, over IPv4 only, says it was not summed. */
  lemma ParsedVerifies(b: seq<byte>, p: Peers)
    requires p.Ok() && Parse(b, p).Some?
    ensures |b| >= HEADER_LEN && HEADER_LEN <= Word(b, 4) <= |b|
    ensures if Word(b, 6) == 0 then p.V4?
            else Verifies(PseudoHeader(p, PROTO_UDP, Word(b, 4)) + Total(b[..Word(b, 4)]))
  {
    ParseFits(b, Word(b, 4), p);
    FoldsToZero(PseudoHeader(p, PROTO_UDP, Word(b, 4)) + Total(b[..Word(b, 4)]));
  }
}
