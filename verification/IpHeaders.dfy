/** IPv4, IPv6 and Ethernet headers: written in place, and read back whatever follows. */
module IpHeaders {
  import opened Common
  import opened Buffers
  import opened Checksum

  // ----- Ethernet -----

  type Mac = m: seq<byte> | |m| == 6 witness [0, 0, 0, 0, 0, 0]

  const BROADCAST: Mac := [0xff, 0xff, 0xff, 0xff, 0xff, 0xff]
  const ETHERTYPE_IPV4: u16 := 0x0800
  const ETHERTYPE_IPV6: u16 := 0x86dd
  const ETH_LEN := 14

  datatype Frame = Frame(dst: Mac, src: Mac, ethertype: u16, payload: seq<byte>)

  function EthHeader(dst: Mac, src: Mac, ethertype: u16): (b: seq<byte>)
    ensures |b| == ETH_LEN
  {
    dst + src + Be16(ethertype)
  }

  /** `eth::write_header` into `out[lo..hi]`; the result is where what follows begins. */
  method EthWrite(out: array<byte>, lo: nat, hi: nat, dst: Mac, src: Mac, ethertype: u16) returns (r: Option<nat>)
    requires lo <= hi <= out.Length
    modifies out
    ensures r.Some? <==> ETH_LEN <= hi - lo
    ensures r.None? ==> out[..] == old(out[..])
    ensures r.Some? ==> r.value == lo + ETH_LEN && out[..] == Spliced(old(out[..]), lo, EthHeader(dst, src, ethertype))
  {
    if hi - lo < ETH_LEN {
      return None;
    }
    ghost var start := out[..];
    Copy(out, lo, dst);
    Copy(out, lo + 6, src);
    SpliceNext(start, lo, dst, src);
    Copy(out, lo + 12, Be16(ethertype));
    SpliceNext(start, lo, dst + src, Be16(ethertype));
    return Some(lo + ETH_LEN);
  }

  function EthParse(b: seq<byte>): Option<Frame>
  {
    if |b| < ETH_LEN then None else Some(Frame(b[..6], b[6..12], Word(b, 12), b[ETH_LEN..]))
  }

  lemma EthRoundTrip(dst: Mac, src: Mac, ethertype: u16, payload: seq<byte>)
    ensures EthParse(EthHeader(dst, src, ethertype) + payload) == Some(Frame(dst, src, ethertype, payload))
  {
    var b := EthHeader(dst, src, ethertype) + payload;
    assert b[..6] == dst && b[6..12] == src && b[12..14] == Be16(ethertype) && b[14..] == payload;
    assert Word(b, 12) == Word(b[12..14], 0);
  }

  // ----- IPv4 -----

  type Addr4 = a: seq<byte> | |a| == 4 witness [0, 0, 0, 0]

  const V4_LEN := 20

  datatype Packet4 = Packet4(src: Addr4, dst: Addr4, protocol: byte, payload: seq<byte>)

  predicate Fits4(payloadLen: nat) { V4_LEN + payloadLen <= 0xffff }

  /** The header around whatever its checksum field holds. */
  function V4Bytes(src: Addr4, dst: Addr4, protocol: byte, id: u16, payloadLen: nat, check: u16): (b: seq<byte>)
    requires Fits4(payloadLen)
    ensures |b| == V4_LEN
  {
    [0x45, 0] + Be16(V4_LEN + payloadLen) + Be16(id) + Be16(0) + [64, protocol] + Be16(check) + src + dst
  }

  function V4Header(src: Addr4, dst: Addr4, protocol: byte, id: u16, payloadLen: nat): (b: seq<byte>)
    requires Fits4(payloadLen)
    ensures |b| == V4_LEN
  {
    TotalBound(V4Bytes(src, dst, protocol, id, payloadLen, 0));
    V4Bytes(src, dst, protocol, id, payloadLen, Fold(Total(V4Bytes(src, dst, protocol, id, payloadLen, 0))))
  }

  lemma V4TotalIs(src: Addr4, dst: Addr4, protocol: byte, id: u16, payloadLen: nat, check: u16)
    requires Fits4(payloadLen)
    ensures Total(V4Bytes(src, dst, protocol, id, payloadLen, check)) ==
            0x4500 + (V4_LEN + payloadLen) + id + 0x4000 + protocol as int + check + Total(src) + Total(dst)
  {
    var len: u16 := V4_LEN + payloadLen;
    TotalPair(0x45, 0);
    TotalPair(64, protocol);
    TotalWord(len);
    TotalWord(id);
    TotalWord(0);
    TotalWord(check);
    var a: seq<byte> := [0x45, 0];
    var h: seq<byte> := [64, protocol];
    TotalAppend(a, Be16(len));
    TotalAppend(a + Be16(len), Be16(id));
    TotalAppend(a + Be16(len) + Be16(id), Be16(0));
    TotalAppend(a + Be16(len) + Be16(id) + Be16(0), h);
    TotalAppend(a + Be16(len) + Be16(id) + Be16(0) + h, Be16(check));
    TotalAppend(a + Be16(len) + Be16(id) + Be16(0) + h + Be16(check), src);
    TotalAppend(a + Be16(len) + Be16(id) + Be16(0) + h + Be16(check) + src, dst);
  }

  lemma TotalPair(x: byte, y: byte)
    ensures Total([x, y]) == 256 * (x as int) + y as int
  {
    assert [x, y][2..] == [];
  }

  /** `ipv4::write_header` into `out[lo..hi]`; the result is where the payload goes. */
  method V4Write(out: array<byte>, lo: nat, hi: nat, src: Addr4, dst: Addr4, protocol: byte, id: u16, payloadLen: nat)
    returns (r: Option<nat>)
    requires lo <= hi <= out.Length
    modifies out
    ensures r.Some? <==> Fits4(payloadLen) && V4_LEN + payloadLen <= hi - lo
    ensures r.None? ==> out[..] == old(out[..])
    ensures r.Some? ==> r.value == lo + V4_LEN
                        && out[..] == Spliced(old(out[..]), lo, V4Header(src, dst, protocol, id, payloadLen))
  {
    Fits4Is(payloadLen);
    var len := 20 + payloadLen;
    if len > 0xffff || len > hi - lo {
      return None;
    }
    ghost var start := out[..];
    ghost var front := [0x45, 0] + Be16(len) + Be16(id) + Be16(0) + [64, protocol];
    Copy(out, lo, [0x45, 0]);
    Copy(out, lo + 2, Be16(len));
    SpliceNext(start, lo, [0x45, 0], Be16(len));
    Copy(out, lo + 4, Be16(id));
    SpliceNext(start, lo, [0x45, 0] + Be16(len), Be16(id));
    Copy(out, lo + 6, Be16(0));
    SpliceNext(start, lo, [0x45, 0] + Be16(len) + Be16(id), Be16(0));
    Copy(out, lo + 8, [64, protocol]);
    SpliceNext(start, lo, [0x45, 0] + Be16(len) + Be16(id) + Be16(0), [64, protocol]);
    Copy(out, lo + 10, Be16(0));
    SpliceNext(start, lo, front, Be16(0));
    Copy(out, lo + 12, src);
    SpliceNext(start, lo, front + Be16(0), src);
    Copy(out, lo + 16, dst);
    SpliceNext(start, lo, front + Be16(0) + src, dst);
    V4BytesAre(src, dst, protocol, id, payloadLen, 0);
    SpliceRead(start, lo, front + Be16(0) + src + dst);
    assert out[lo..lo + 20] == out[..][lo..lo + 20];
    var sum := Add(0, out[lo..lo + 20]);
    V4HeaderIs(src, dst, protocol, id, payloadLen);
    var check := Fold(sum);
    Copy(out, lo + 10, Be16(check));
    assert front + Be16(0) + (src + dst) == front + Be16(0) + src + dst;
    assert front + Be16(check) + (src + dst) == front + Be16(check) + src + dst;
    SpliceInside(start, lo, front, Be16(0), Be16(check), src + dst);
    V4BytesAre(src, dst, protocol, id, payloadLen, check);
    return Some(lo + 20);
  }

  lemma Fits4Is(n: nat)
    ensures Fits4(n) <==> 20 + n <= 0xffff
    ensures V4_LEN == 20
  {}

  lemma V4BytesAre(src: Addr4, dst: Addr4, protocol: byte, id: u16, payloadLen: nat, check: u16)
    requires Fits4(payloadLen)
    ensures 20 + payloadLen <= 0xffff
    ensures V4Bytes(src, dst, protocol, id, payloadLen, check) ==
            [0x45, 0] + Be16(20 + payloadLen) + Be16(id) + Be16(0) + [64, protocol] + Be16(check) + src + dst
  {}

  lemma V4HeaderIs(src: Addr4, dst: Addr4, protocol: byte, id: u16, payloadLen: nat)
    requires Fits4(payloadLen)
    ensures 0 <= Total(V4Bytes(src, dst, protocol, id, payloadLen, 0)) <= 0xffff_ffff
    ensures V4Header(src, dst, protocol, id, payloadLen) ==
            V4Bytes(src, dst, protocol, id, payloadLen, Fold(Total(V4Bytes(src, dst, protocol, id, payloadLen, 0))))
  {
    TotalBound(V4Bytes(src, dst, protocol, id, payloadLen, 0));
  }

  /** `ipv4::parse`: no fragments, no bad checksum, and the payload cut to the total length. */
  function V4Parse(b: seq<byte>): Option<Packet4>
  {
    if |b| == 0 || b[0] / 16 != 4 then None
    else
      var headerLen := b[0] % 16 * 4;
      if headerLen < V4_LEN || headerLen > |b| then None
      else
        TotalBound(b[..headerLen]);
        if Fold(Total(b[..headerLen])) != 0 then None
        else if Word(b, 6) % 0x4000 != 0 then None
        else
          var len := Word(b, 2);
          if len < headerLen || len > |b| then None
          else Some(Packet4(b[12..16], b[16..20], b[9], b[headerLen..len]))
  }

  /** A written header verifies, and cuts its payload out of whatever padding follows. */
  lemma V4RoundTrip(src: Addr4, dst: Addr4, protocol: byte, id: u16, payload: seq<byte>, pad: seq<byte>)
    requires Fits4(|payload|)
    ensures V4Parse(V4Header(src, dst, protocol, id, |payload|) + payload + pad) == Some(Packet4(src, dst, protocol, payload))
  {
    hide *;
    V4HeaderIs(src, dst, protocol, id, |payload|);
    var acc := Total(V4Bytes(src, dst, protocol, id, |payload|, 0));
    var check := Fold(acc);
    V4Verifies(src, dst, protocol, id, |payload|);
    V4Fields(src, dst, protocol, id, |payload|, check, payload + pad);
    var h := V4Header(src, dst, protocol, id, |payload|);
    assert h + payload + pad == h + (payload + pad);
    assert (h + (payload + pad))[20..20 + |payload|] == payload;
    V4Accepts(h + (payload + pad), src, dst, protocol, payload);
  }

  lemma V4Verifies(src: Addr4, dst: Addr4, protocol: byte, id: u16, n: nat)
    requires Fits4(n)
    ensures |V4Header(src, dst, protocol, id, n)| == 20 && 0 <= Total(V4Header(src, dst, protocol, id, n)) <= U32_MAX
    ensures Fold(Total(V4Header(src, dst, protocol, id, n))) == 0
  {
    V4HeaderIs(src, dst, protocol, id, n);
    var acc := Total(V4Bytes(src, dst, protocol, id, n, 0));
    V4TotalIs(src, dst, protocol, id, n, 0);
    V4TotalIs(src, dst, protocol, id, n, Fold(acc));
    TotalBound(V4Header(src, dst, protocol, id, n));
    Completes(acc, Fold(acc));
    FoldsToZero(acc + Fold(acc));
  }

  lemma V4Accepts(b: seq<byte>, src: Addr4, dst: Addr4, protocol: byte, payload: seq<byte>)
    requires |b| >= 20 + |payload| && b[0] == 0x45 && 0 <= Total(b[..20]) <= U32_MAX && Fold(Total(b[..20])) == 0
    requires Word(b, 6) == 0 && Word(b, 2) == 20 + |payload|
    requires b[9] == protocol && b[12..16] == src && b[16..20] == dst && b[20..20 + |payload|] == payload
    ensures V4Parse(b) == Some(Packet4(src, dst, protocol, payload))
  {
    hide Total;
    hide Fold;
    hide Word;
  }

  lemma V4Fields(src: Addr4, dst: Addr4, protocol: byte, id: u16, n: nat, check: u16, rest: seq<byte>)
    requires Fits4(n)
    ensures var b := V4Bytes(src, dst, protocol, id, n, check) + rest;
            && b[0] == 0x45 && b[..20] == V4Bytes(src, dst, protocol, id, n, check) && Word(b, 2) == 20 + n && Word(b, 6) == 0
            && b[9] == protocol && b[12..16] == src && b[16..20] == dst
  {
    var h := V4Bytes(src, dst, protocol, id, n, check);
    var b := h + rest;
    assert h[2..4] == Be16(20 + n) && h[6..8] == Be16(0) && h[8..10] == [64, protocol] && h[12..16] == src && h[16..20] == dst;
    assert Word(b, 2) == Word(h[2..4], 0) && Word(b, 6) == Word(h[6..8], 0) && b[9] == h[8..10][1];
    assert b[12..16] == h[12..16] && b[16..20] == h[16..20] && b[..20] == h;
  }

  // ----- IPv6 -----

  type Addr6 = a: seq<byte> | |a| == 16 witness [0, 0, 0, 0, 0, 0, 0, 0, 0, 0, 0, 0, 0, 0, 0, 0]

  const V6_LEN := 40

  datatype Packet6 = Packet6(src: Addr6, dst: Addr6, nextHeader: byte, payload: seq<byte>)

  function V6Header(src: Addr6, dst: Addr6, nextHeader: byte, hopLimit: byte, payloadLen: u16): (b: seq<byte>)
    ensures |b| == V6_LEN
  {
    [0x60, 0] + Be16(0) + Be16(payloadLen) + [nextHeader, hopLimit] + src + dst
  }

  /** `ipv6::write_header_hop` into `out[lo..hi]`. */
  method V6Write(out: array<byte>, lo: nat, hi: nat, src: Addr6, dst: Addr6, nextHeader: byte, hopLimit: byte, payloadLen: nat)
    returns (r: Option<nat>)
    requires lo <= hi <= out.Length
    modifies out
    ensures r.Some? <==> payloadLen <= 0xffff && V6_LEN + payloadLen <= hi - lo
    ensures r.None? ==> out[..] == old(out[..])
    ensures r.Some? ==> r.value == lo + V6_LEN
                        && out[..] == Spliced(old(out[..]), lo, V6Header(src, dst, nextHeader, hopLimit, payloadLen))
  {
    if payloadLen > 0xffff || 40 + payloadLen > hi - lo {
      return None;
    }
    ghost var start := out[..];
    ghost var front := [0x60, 0] + Be16(0) + Be16(payloadLen) + [nextHeader, hopLimit];
    Copy(out, lo, [0x60, 0]);
    Copy(out, lo + 2, Be16(0));
    SpliceNext(start, lo, [0x60, 0], Be16(0));
    Copy(out, lo + 4, Be16(payloadLen));
    SpliceNext(start, lo, [0x60, 0] + Be16(0), Be16(payloadLen));
    Copy(out, lo + 6, [nextHeader, hopLimit]);
    SpliceNext(start, lo, [0x60, 0] + Be16(0) + Be16(payloadLen), [nextHeader, hopLimit]);
    Copy(out, lo + 8, src);
    SpliceNext(start, lo, front, src);
    Copy(out, lo + 24, dst);
    SpliceNext(start, lo, front + src, dst);
    return Some(lo + 40);
  }

  function V6Parse(b: seq<byte>): Option<Packet6>
  {
    if |b| < V6_LEN || b[0] / 16 != 6 then None
    else
      var end := V6_LEN + Word(b, 4);
      if end > |b| then None else Some(Packet6(b[8..24], b[24..40], b[6], b[V6_LEN..end]))
  }

  lemma V6RoundTrip(src: Addr6, dst: Addr6, nextHeader: byte, hopLimit: byte, payload: seq<byte>, pad: seq<byte>)
    requires |payload| <= 0xffff
    ensures V6Parse(V6Header(src, dst, nextHeader, hopLimit, |payload|) + payload + pad) ==
            Some(Packet6(src, dst, nextHeader, payload))
  {
    var h := V6Header(src, dst, nextHeader, hopLimit, |payload|);
    var b := h + payload + pad;
    assert h[4..6] == Be16(|payload|) && h[6..8] == [nextHeader, hopLimit] && h[8..24] == src && h[24..40] == dst;
    assert Word(b, 4) == Word(h[4..6], 0) && b[6] == h[6..8][0] && b[0] == h[0];
    assert b[8..24] == h[8..24] && b[24..40] == h[24..40] && b[40..40 + |payload|] == payload;
  }

  predicate Multicast(a: Addr6) { a[0] == 0xff }

  /** RFC 2464: `33:33` and the low four bytes. */
  function MulticastMac(a: Addr6): Mac { [0x33, 0x33, a[12], a[13], a[14], a[15]] }
}
