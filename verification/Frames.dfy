/** Whole frames: UDP in IPv4 or IPv6 in Ethernet, built in one buffer and read back through padding. */
module Frames {
  import opened Common
  import opened Buffers
  import opened IpHeaders
  import Udp

  /** The datagram's parts together with where it came from. */
  datatype Received4 = Received4(src: Addr4, dst: Addr4, datagram: Udp.Datagram)
  datatype Received6 = Received6(src: Addr6, dst: Addr6, datagram: Udp.Datagram)

  const HEADERS4 := 42
  const HEADERS6 := 62

  predicate Fits4Frame(d: Udp.Datagram) { 28 + |d.payload| <= 0xffff }

  function Frame4(srcMac: Mac, dstMac: Mac, src: Addr4, dst: Addr4, id: u16, d: Udp.Datagram): (b: seq<byte>)
    requires Fits4Frame(d)
    ensures |b| == HEADERS4 + |d.payload|
  {
    EthHeader(dstMac, srcMac, ETHERTYPE_IPV4) + V4Header(src, dst, Udp.PROTO_UDP, id, 8 + |d.payload|) +
    Udp.Written(Udp.V4(src, dst), d)
  }

  /** `build_udp_frame`: all three layers, or nothing when the frame does not fit. */
  method BuildUdpFrame(out: array<byte>, srcMac: Mac, dstMac: Mac, src: Addr4, dst: Addr4, id: u16, d: Udp.Datagram)
    returns (r: Option<nat>)
    modifies out
    ensures r.Some? <==> Fits4Frame(d) && HEADERS4 + |d.payload| <= out.Length
    ensures r.Some? ==> r.value == HEADERS4 + |d.payload|
                        && out[..] == Spliced(old(out[..]), 0, Frame4(srcMac, dstMac, src, dst, id, d))
  {
    FrameFacts(d);
    var frameLen := 42 + |d.payload|;
    if frameLen > out.Length {
      return None;
    }
    ghost var start := out[..];
    var afterEth := EthWrite(out, 0, frameLen, dstMac, srcMac, ETHERTYPE_IPV4);
    var udpLen := 8 + |d.payload|;
    Fits4Is(udpLen);
    var afterIp := V4Write(out, 14, frameLen, src, dst, Udp.PROTO_UDP, id, udpLen);
    if afterIp.None? {
      return None;
    }
    SpliceNext(start, 0, EthHeader(dstMac, srcMac, ETHERTYPE_IPV4), V4Header(src, dst, Udp.PROTO_UDP, id, udpLen));
    var p := Udp.V4(src, dst);
    Udp.FitsIs(d);
    WrittenLength(p, d);
    var written := Udp.Write(out, 34, frameLen, p, d);
    SpliceNext(start, 0, EthHeader(dstMac, srcMac, ETHERTYPE_IPV4) + V4Header(src, dst, Udp.PROTO_UDP, id, udpLen), Udp.Written(p, d));
    return Some(frameLen);
  }

  lemma FrameFacts(d: Udp.Datagram)
    ensures Fits4Frame(d) <==> 28 + |d.payload| <= 0xffff
    ensures HEADERS4 == 42 && HEADERS6 == 62 && ETH_LEN == 14 && V4_LEN == 20 && V6_LEN == 40 && Udp.HEADER_LEN == 8
  {}

  lemma PeersOk6(src: Addr6, dst: Addr6)
    ensures Udp.V6(src, dst).Ok()
  {}

  lemma WrittenLength(p: Udp.Peers, d: Udp.Datagram)
    requires p.Ok() && Udp.Fits(d.payload)
    ensures |Udp.Written(p, d)| == 8 + |d.payload|
  {}

  /** `parse_udp_frame`. */
  function ParseUdpFrame(b: seq<byte>, ours: Mac): Option<Received4>
  {
    match EthParse(b)
    case None => None
    case Some(f) =>
      if f.ethertype != ETHERTYPE_IPV4 then None
      else if f.dst != BROADCAST && f.dst != ours then None
      else
        match V4Parse(f.payload)
        case None => None
        case Some(p) =>
          if p.protocol != Udp.PROTO_UDP then None
          else
            match Udp.Parse(p.payload, Udp.V4(p.src, p.dst))
            case None => None
            case Some(d) => Some(Received4(p.src, p.dst, d))
  }

  /** A built frame, however much padding a NIC appends, gives back exactly what went in. */
  lemma FrameRoundTrip(srcMac: Mac, dstMac: Mac, src: Addr4, dst: Addr4, id: u16, d: Udp.Datagram, pad: seq<byte>, ours: Mac)
    requires Fits4Frame(d) && (dstMac == BROADCAST || dstMac == ours)
    ensures ParseUdpFrame(Frame4(srcMac, dstMac, src, dst, id, d) + pad, ours) == Some(Received4(src, dst, d))
  {
    var h := EthHeader(dstMac, srcMac, ETHERTYPE_IPV4);
    var ip := V4Header(src, dst, Udp.PROTO_UDP, id, 8 + |d.payload|);
    var u := Udp.Written(Udp.V4(src, dst), d);
    assert Frame4(srcMac, dstMac, src, dst, id, d) + pad == h + (ip + u + pad);
    EthRoundTrip(dstMac, srcMac, ETHERTYPE_IPV4, ip + u + pad);
    V4RoundTrip(src, dst, Udp.PROTO_UDP, id, u, pad);
    Udp.RoundTrip(Udp.V4(src, dst), d, []);
    assert u + [] == u;
  }

  // ----- IPv6 -----

  function Frame6(srcMac: Mac, src: Addr6, dst: Addr6, d: Udp.Datagram): (b: seq<byte>)
    requires Udp.Fits(d.payload)
    ensures |b| == HEADERS6 + |d.payload|
  {
    EthHeader(MulticastMac(dst), srcMac, ETHERTYPE_IPV6) + V6Header(src, dst, Udp.PROTO_UDP, 64, 8 + |d.payload|) +
    Udp.Written(Udp.V6(src, dst), d)
  }

  /** `build_udp6_frame`: only to a group, because a unicast needs a neighbour nobody has asked for. */
  method BuildUdp6Frame(out: array<byte>, srcMac: Mac, src: Addr6, dst: Addr6, d: Udp.Datagram) returns (r: Option<nat>)
    modifies out
    ensures r.Some? <==> Multicast(dst) && Udp.Fits(d.payload) && HEADERS6 + |d.payload| <= out.Length
    ensures r.Some? ==> r.value == HEADERS6 + |d.payload| && out[..] == Spliced(old(out[..]), 0, Frame6(srcMac, src, dst, d))
  {
    hide *;
    FrameFacts(d);
    Udp.FitsIs(d);
    MulticastIs(dst);
    if dst[0] != 0xff {
      return None;
    }
    var frameLen := 62 + |d.payload|;
    if frameLen > out.Length {
      return None;
    }
    ghost var start := out[..];
    var afterEth := EthWrite(out, 0, frameLen, MulticastMac(dst), srcMac, ETHERTYPE_IPV6);
    var udpLen := 8 + |d.payload|;
    var afterIp := V6Write(out, 14, frameLen, src, dst, Udp.PROTO_UDP, 64, udpLen);
    if afterIp.None? {
      return None;
    }
    ghost var h := EthHeader(MulticastMac(dst), srcMac, ETHERTYPE_IPV6);
    SpliceNext(start, 0, h, V6Header(src, dst, Udp.PROTO_UDP, 64, udpLen));
    var p := Udp.V6(src, dst);
    PeersOk6(src, dst);
    WrittenLength(p, d);
    var written := Udp.Write(out, 54, frameLen, p, d);
    SpliceNext(start, 0, h + V6Header(src, dst, Udp.PROTO_UDP, 64, udpLen), Udp.Written(p, d));
    Frame6Is(srcMac, src, dst, d);
    return Some(frameLen);
  }

  lemma MulticastIs(a: Addr6)
    ensures Multicast(a) <==> a[0] == 0xff
  {}

  lemma Frame6Is(srcMac: Mac, src: Addr6, dst: Addr6, d: Udp.Datagram)
    requires Udp.Fits(d.payload) && Udp.V6(src, dst).Ok() && 8 + |d.payload| <= 0xffff
    ensures Frame6(srcMac, src, dst, d) ==
            EthHeader(MulticastMac(dst), srcMac, ETHERTYPE_IPV6) + V6Header(src, dst, Udp.PROTO_UDP, 64, 8 + |d.payload|) +
            Udp.Written(Udp.V6(src, dst), d)
  {}

  /** `parse_udp6_frame`. */
  function ParseUdp6Frame(b: seq<byte>, ours: Mac, ourAddr: Addr6): Option<Received6>
  {
    match EthParse(b)
    case None => None
    case Some(f) =>
      if f.ethertype != ETHERTYPE_IPV6 then None
      else if f.dst[0] != 0x33 && f.dst != ours then None
      else
        match V6Parse(f.payload)
        case None => None
        case Some(p) =>
          if p.nextHeader != Udp.PROTO_UDP then None
          else if p.dst != ourAddr && !Multicast(p.dst) then None
          else
            match Udp.Parse(p.payload, Udp.V6(p.src, p.dst))
            case None => None
            case Some(d) => Some(Received6(p.src, p.dst, d))
  }

  lemma Frame6RoundTrip(srcMac: Mac, src: Addr6, dst: Addr6, d: Udp.Datagram, pad: seq<byte>, ours: Mac, ourAddr: Addr6)
    requires Udp.Fits(d.payload) && Multicast(dst)
    ensures ParseUdp6Frame(Frame6(srcMac, src, dst, d) + pad, ours, ourAddr) == Some(Received6(src, dst, d))
  {
    var h := EthHeader(MulticastMac(dst), srcMac, ETHERTYPE_IPV6);
    var ip := V6Header(src, dst, Udp.PROTO_UDP, 64, 8 + |d.payload|);
    var u := Udp.Written(Udp.V6(src, dst), d);
    assert Frame6(srcMac, src, dst, d) + pad == h + (ip + u + pad);
    EthRoundTrip(MulticastMac(dst), srcMac, ETHERTYPE_IPV6, ip + u + pad);
    V6RoundTrip(src, dst, Udp.PROTO_UDP, 64, u, pad);
    Udp.RoundTrip(Udp.V6(src, dst), d, []);
    assert u + [] == u;
  }
}
