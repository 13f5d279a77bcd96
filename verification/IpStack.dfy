/** The IPv4, UDP and ICMP packets of the Ethernet build: the builders, the parsers, and that they undo each other. */
module IpStack {
  import opened Words
  import opened Checksum

  const ICMP: byte := 0x01
  const UDP: byte := 0x11
  const PACKET_MAX: nat := 1586   // prepare_send_packet refuses more

  type Ip = a: bytes | |a| == 4 witness [0, 0, 0, 0]

  function Hi(x: uint16): byte { x / 256 }
  function Lo(x: uint16): byte { x % 256 }

  // ---------- IPv4 ----------

  /** The 20-byte header both responders write: DF set, TTL 64. */
  function Header(total: uint16, proto: byte, src: Ip, dst: Ip, chksum: uint16): (h: bytes)
    ensures |h| == 20
  {
    [0x45, 0, Hi(total), Lo(total), 0, 0, 0x40, 0, 0x40, proto, Hi(chksum), Lo(chksum)] + src + dst
  }

  function HeaderChecksum(total: uint16, proto: byte, src: Ip, dst: Ip): uint16
  {
    65535 - Reduce(WordSum(Header(total, proto, src, dst, 0), 10, 5))
  }

  function Ipv4Packet(proto: byte, src: Ip, dst: Ip, body: bytes): bytes
    requires |body| + 20 <= 65535
  {
    Header(20 + |body|, proto, src, dst, HeaderChecksum(20 + |body|, proto, src, dst)) + body
  }

  datatype Datagram = Datagram(proto: byte, src: Ip, body: bytes)

  /** net_on_ipv4: `buf` is the packet buffer, of which sz bytes were received. */
  function ParseIpv4(buf: bytes, sz: nat, me: Ip): Option<Datagram>
    requires sz <= |buf| && 60 <= |buf|
  {
    if sz < 20 || buf[0] / 16 != 4 then None else
    var hdrLen := (buf[0] % 16) * 4;
    if hdrLen < 20 then None else
    if !CompareTest(WordSum(buf, hdrLen / 2, 5), Word(buf, 5)) then None else
    var total := Word(buf, 1);
    if buf[16..20] != me then None else
    if (buf[6] / 32) % 2 == 1 || buf[6] % 32 != 0 || buf[7] != 0 then None else   // a fragment
    if hdrLen > sz || hdrLen > total || total > sz then None else
    Some(Datagram(buf[9], buf[12..16], buf[hdrLen..total]))
  }

  /** net_on_ipv4 with its checksum loop. */
  method OnIpv4(buf: bytes, sz: nat, me: Ip) returns (d: Option<Datagram>)
    requires sz <= |buf| && 60 <= |buf|
    ensures d == ParseIpv4(buf, sz, me)
  {
    d := None;
    if sz < 20 { return; }
    if buf[0] / 16 != 4 { return; }
    var hdrLen := (buf[0] % 16) * 4;
    if hdrLen < 20 { return; }
    var chksum := Accumulate(buf, hdrLen / 2, 5, 0, 0);
    if 65535 - chksum != Word(buf, 5) { return; }
    var total := Word(buf, 1);
    if buf[16..20] != me { return; }
    var flags := buf[6] / 32;
    if flags % 2 == 1 { return; }
    var fragOffset := buf[6] % 32 + (buf[7] as int) * 32;
    if fragOffset != 0 { return; }
    if hdrLen > sz || hdrLen > total || total > sz { return; }
    d := Some(Datagram(buf[9], buf[12..16], buf[hdrLen..total]));
  }

  /** The stores both responders make into the first 20 bytes of the transmit buffer, checksum last. */
  method FillHeader(p: array<byte>, total: uint16, proto: byte, me: Ip, dst: Ip)
    requires p.Length >= 20
    modifies p
    ensures p[..20] == Header(total, proto, me, dst, HeaderChecksum(total, proto, me, dst))
    ensures p[20..] == old(p[20..])
  {
    FillFields(p, total, proto, me, dst);
    var chksum := Accumulate(p[..20], 10, 5, 0, 0);
    var ck: uint16 := 65535 - chksum;
    p[10], p[11] := ck / 256, ck % 256;
    assert p[..20] == Header(total, proto, me, dst, 0)[10 := Hi(ck)][11 := Lo(ck)];
  }

  method FillFields(p: array<byte>, total: uint16, proto: byte, me: Ip, dst: Ip)
    requires p.Length >= 20
    modifies p
    ensures p[..20] == Header(total, proto, me, dst, 0)
    ensures p[20..] == old(p[20..])
  {
    FillFront(p, total, proto);
    ghost var front := p[..12];
    CopyAddress(p, 12, me);
    assert p[..12] == front;
    CopyAddress(p, 16, dst);
    assert p[..12] == front && p[12..16] == me;
    assert p[..20] == p[..12] + p[12..16] + p[16..20];
  }

  /** The header cleared, then its first 12 bytes but for the checksum. */
  method FillFront(p: array<byte>, total: uint16, proto: byte)
    requires p.Length >= 20
    modifies p
    ensures p[..12] == [0x45, 0, Hi(total), Lo(total), 0, 0, 0x40, 0, 0x40, proto, 0, 0]
    ensures forall k :: 20 <= k < p.Length ==> p[k] == old(p[k])
  {
    for i := 0 to 20
      invariant forall k :: 0 <= k < i ==> p[k] == 0
      invariant forall k :: 20 <= k < p.Length ==> p[k] == old(p[k])
    {
      p[i] := 0;
    }
    p[0] := 0x45;
    p[2], p[3] := total / 256, total % 256;
    p[6], p[8], p[9] := 0x40, 0x40, proto;
  }

  method CopyAddress(p: array<byte>, at: nat, a: Ip)
    requires at + 4 <= p.Length
    modifies p
    ensures p[at..at + 4] == a
    ensures forall k :: 0 <= k < p.Length && !(at <= k < at + 4) ==> p[k] == old(p[k])
  {
    for i := 0 to 4
      invariant p[at..at + i] == a[..i]
      invariant forall k :: 0 <= k < p.Length && !(at <= k < at + 4) ==> p[k] == old(p[k])
    {
      p[at + i] := a[i];
    }
  }

  lemma HeaderWords(total: uint16, proto: byte, src: Ip, dst: Ip, chksum: uint16, body: bytes)
    ensures var h := Header(total, proto, src, dst, chksum) + body;
            && Word(h, 5) == chksum && Word(h, 1) == total
            && h[0] == 0x45 && h[6] == 0x40 && h[7] == 0 && h[9] == proto && h[12..16] == src && h[16..20] == dst
            && WordSum(h, 10, 5) == WordSum(Header(total, proto, src, dst, 0), 10, 5)
  {
    var h := Header(total, proto, src, dst, chksum) + body;
    var z := Header(total, proto, src, dst, 0);
    forall i | 0 <= i < 10 && i != 5
      ensures Word(h, i) == Word(z, i)
    {
      assert h[2 * i] == z[2 * i] && h[2 * i + 1] == z[2 * i + 1];
    }
    WordSumFrame(h, z, 10, 5);
  }

  /** A packet one end builds is accepted at its destination, whatever lies behind it in the buffer. */
  lemma Ipv4RoundTrip(proto: byte, src: Ip, dst: Ip, body: bytes, tail: bytes)
    requires |body| + 20 <= 65535
    requires |body| + 20 + |tail| >= 60
    ensures var p := Ipv4Packet(proto, src, dst, body);
            && ParseIpv4(p + tail, |p|, dst) == Some(Datagram(proto, src, body))
            && Word(p, 1) == |p| && Word(p, 3) == 0x4000 && p[8] == 64   // total length, don't fragment, time to live
  {
    hide WordSum, Reduce;
    var total := 20 + |body|;
    var ck := HeaderChecksum(total, proto, src, dst);
    HeaderWords(total, proto, src, dst, ck, body + tail);
    var p := Ipv4Packet(proto, src, dst, body);
    assert p + tail == Header(total, proto, src, dst, ck) + (body + tail);
    assert (p + tail)[20..total] == body;
  }

  /** What acceptance means, in the terms of RFC 791: a version 4 header whose words add up to all ones (save where the
      computed checksum is 0), addressed to us, whole, and with a total length that holds the header and was received. */
  lemma AcceptedIpv4Iff(buf: bytes, sz: nat, me: Ip)
    requires sz <= |buf| && 60 <= |buf|
    ensures var ihl := buf[0] % 16;
            ParseIpv4(buf, sz, me).Some? <==>
              && sz >= 20 && buf[0] / 16 == 4 && 5 <= ihl
              && Reduce(WordSum(buf, 2 * ihl, 2 * ihl)) == 65535
              && !(Reduce(WordSum(buf, 2 * ihl, 5)) == 65535 && Word(buf, 5) == 65535)
              && buf[16..20] == me
              && Word(buf, 3) % 0x4000 == 0             // neither more fragments nor a fragment offset
              && 4 * ihl <= Word(buf, 1) <= sz
  {
    hide WordSum, Reduce;
    var ihl := buf[0] % 16;
    if 5 <= ihl { HeaderTestIsRfc1071(buf, 2 * ihl, 5); }
    WholeDatagram(buf[6], buf[7]);
  }

  lemma WholeDatagram(a: byte, b: byte)
    ensures !((a / 32) % 2 == 1 || a % 32 != 0 || b != 0) <==> (a * 256 + b) % 0x4000 == 0
  {
  }

  // ---------- UDP ----------

  /** The segment make_udp_response writes: ports swapped, checksum field 0 (no checksum). */
  function UdpSegment(srcPort: uint16, dstPort: uint16, payload: bytes): (seg: bytes)
    requires |payload| + 8 <= 65535
    ensures |seg| == 8 + |payload| && Word(seg, 2) == |seg|
    ensures Word(seg, 0) == dstPort && Word(seg, 1) == srcPort && Word(seg, 3) == 0
  {
    [Hi(dstPort), Lo(dstPort), Hi(srcPort), Lo(srcPort), Hi(|payload| + 8), Lo(|payload| + 8), 0, 0] + payload
  }

  datatype Segment = Segment(srcPort: uint16, dstPort: uint16, payload: bytes)

  /** The pseudo header that the UDP checksum covers. */
  function Pseudo(src: Ip, me: Ip, len: uint16): bytes { src + me + [0, UDP, Hi(len), Lo(len)] }

  /** Everything the UDP checksum covers except its own field; an odd last byte is padded with a zero byte. */
  function UdpSum(src: Ip, me: Ip, seg: bytes): nat
    requires 8 <= |seg| <= 65535
  {
    WordSum(Pseudo(src, me, |seg|), 6, 6) + WordSum(seg, |seg| / 2, 3)
      + (if |seg| % 2 == 1 then (seg[|seg| - 1] as int) * 256 else 0)
  }

  /** The checks of net_on_ipv4_udp, up to the payload it hands to the command server. */
  function ParseUdp(src: Ip, me: Ip, seg: bytes): Option<Segment>
    requires |seg| <= 65535
  {
    if |seg| < 8 then None else
    var field := Word(seg, 3);
    if field != 0 && !CompareTest(UdpSum(src, me, seg), field) then None else
    var n := if Word(seg, 2) > |seg| - 8 then |seg| - 8 else Word(seg, 2);
    Some(Segment(Word(seg, 0), Word(seg, 1), seg[8..8 + n]))
  }

  /** The three checksum loops of net_on_ipv4_udp. */
  method UdpChecksum(src: Ip, me: Ip, seg: bytes) returns (chksum: uint16)
    requires 8 <= |seg| <= 65535
    ensures chksum == Reduce(UdpSum(src, me, seg))
  {
    hide WordSum, Reduce;
    assert Reduce(0) == 0 by { ReduceZero(); }
    var pseudo := src + me + [0, UDP, |seg| / 256, |seg| % 256];
    ghost var t1 := WordSum(pseudo, 6, 6);
    ghost var t2 := WordSum(seg, |seg| / 2, 3);
    chksum := Accumulate(pseudo, 6, 6, 0, 0);
    chksum := Accumulate(seg, |seg| / 2, 3, chksum, t1);
    if |seg| % 2 == 1 {
      var last := (seg[|seg| - 1] as int) * 256;
      RoundReduces(t1 + t2, last);
      var t := chksum + last;
      t := t + t / 65536;
      chksum := t % 65536;
    }
  }

  lemma ReduceZero()
    ensures Reduce(0) == 0
  {
  }

  /** net_on_ipv4_udp up to the command server. */
  method OnUdp(src: Ip, me: Ip, seg: bytes) returns (s: Option<Segment>)
    requires |seg| <= 65535
    ensures s == ParseUdp(src, me, seg)
  {
    hide UdpSum, Reduce;
    s := None;
    if |seg| < 8 { return; }
    var field := Word(seg, 3);
    if field != 0 {
      var chksum := UdpChecksum(src, me, seg);
      if 65535 - chksum != field { return; }
    }
    var n := Word(seg, 2);
    if n > |seg| - 8 { n := |seg| - 8; }
    s := Some(Segment(Word(seg, 0), Word(seg, 1), seg[8..8 + n]));
  }

  /** A checksummed UDP segment, odd lengths included, passes the code's test exactly when it passes that of RFC 1071,
      unless its computed checksum is 0: such a segment carries 0xFFFF by RFC 768 and is dropped. */
  lemma UdpTestIsRfc1071(src: Ip, me: Ip, seg: bytes)
    requires 8 <= |seg| <= 65535 && Word(seg, 3) != 0
    ensures ParseUdp(src, me, seg).Some? <==>
              Rfc1071Test(UdpSum(src, me, seg), Word(seg, 3))
              && !(Reduce(UdpSum(src, me, seg)) == 65535 && Word(seg, 3) == 65535)
  {
    TestsAgree(UdpSum(src, me, seg), Word(seg, 3));
  }

  /** What the checksum of a segment covers, as RFC 768 puts it together: source, destination, a zero, the protocol, the
      UDP length, and the segment with its checksum field zero, padded with a zero byte to an even length. */
  function Covered(src: Ip, me: Ip, seg: bytes): (b: bytes)
    requires 8 <= |seg| <= 65535
    ensures |b| % 2 == 0
  {
    src + me + [0, 17, |seg| / 256, |seg| % 256] + (seg[..6] + [0, 0] + seg[8..]) + (if |seg| % 2 == 1 then [0] else [])
  }

  /** The three loops sum exactly that, odd lengths included. */
  lemma UdpSumIsCovered(src: Ip, me: Ip, seg: bytes)
    requires 8 <= |seg| <= 65535
    ensures var b := Covered(src, me, seg); UdpSum(src, me, seg) == WordSum(b, |b| / 2, |b| / 2)
  {
    hide WordSum;
    var pseudo := Pseudo(src, me, |seg|);
    var zeroed: bytes := seg[..6] + [0, 0] + seg[8..];
    var pad: bytes := if |seg| % 2 == 1 then [0] else [];
    var b := Covered(src, me, seg);
    var n := |seg| / 2;
    assert b == pseudo + (zeroed + pad);
    WordSumConcat(pseudo, zeroed + pad, |zeroed + pad| / 2);
    ZeroedSum(seg, zeroed + pad);
    if |seg| % 2 == 1 {
      LastWord(zeroed + pad, n);
    }
  }

  lemma LastWord(b: bytes, n: nat)
    requires |b| == 2 * n + 2 && b[2 * n + 1] == 0
    ensures WordSum(b, n + 1, n + 1) == WordSum(b, n, n) + (b[2 * n] as int) * 256
  {
    WordSumAll(b, n, 0);
  }

  /** The words of the segment with its field zeroed are those the loop adds. */
  lemma ZeroedSum(seg: bytes, z: bytes)
    requires |seg| >= 8 && |z| >= |seg| && z[6] == 0 && z[7] == 0
    requires forall i :: 0 <= i < |seg| && i != 6 && i != 7 ==> z[i] == seg[i]
    ensures WordSum(z, |seg| / 2, |seg| / 2) == WordSum(seg, |seg| / 2, 3)
  {
    hide WordSum;
    var n := |seg| / 2;
    forall i | 0 <= i < n && i != 3
      ensures Word(z, i) == Word(seg, i)
    {
    }
    WordSumFrame(z, seg, n, 3);
    WordSumAll(z, n, 3);
  }

  /** The field an RFC 768 sender puts in: the complement of the sum, all ones in place of 0. */
  function SenderField(src: Ip, me: Ip, seg: bytes): uint16
    requires 8 <= |seg| <= 65535
  {
    var b := Covered(src, me, seg);
    var c := 65535 - Reduce(WordSum(b, |b| / 2, |b| / 2));
    if c == 0 then 65535 else c
  }

  /** Every correctly checksummed segment, of odd or even length, is accepted exactly when its checksum is not 0. */
  lemma SenderAcceptedIff(src: Ip, me: Ip, seg: bytes)
    requires 8 <= |seg| <= 65535 && Word(seg, 3) == SenderField(src, me, seg)
    ensures var b := Covered(src, me, seg);
            ParseUdp(src, me, seg).Some? <==> Reduce(WordSum(b, |b| / 2, |b| / 2)) != 65535
  {
    hide WordSum, Reduce, UdpSum, Covered;
    UdpSumIsCovered(src, me, seg);
  }

  /** A request with a checksum field of all ones, which is what RFC 768 asks for when the computed checksum is 0. */
  function AllOnes(srcPort: uint16, dstPort: uint16, payload: bytes): (seg: bytes)
    requires |payload| + 8 <= 65535
    ensures |seg| == 8 + |payload| && Word(seg, 0) == srcPort && Word(seg, 3) == 65535
  {
    var len := |payload| + 8;
    [Hi(srcPort), Lo(srcPort), Hi(dstPort), Lo(dstPort), Hi(len), Lo(len), 255, 255] + payload
  }

  /** Such segments exist for every pair of hosts, port and payload: sent from one source port, a correctly checksummed
      request is dropped. */
  lemma SomePortIsDropped(src: Ip, me: Ip, dstPort: uint16, payload: bytes) returns (srcPort: uint16)
    requires |payload| + 8 <= 65535
    ensures var seg := AllOnes(srcPort, dstPort, payload);
            && Reduce(UdpSum(src, me, seg)) == 65535
            && Rfc1071Test(UdpSum(src, me, seg), Word(seg, 3)) && ParseUdp(src, me, seg).None?
  {
    hide AllOnes, Reduce, UdpSum;
    var t := UdpSum(src, me, AllOnes(0, dstPort, payload));
    srcPort := 65535 - Reduce(t);
    PortAdds(src, me, srcPort, dstPort, payload);
    RoundReduces(t, srcPort);
    TestsAgree(t + srcPort, 65535);
  }

  /** The source port enters the sum as one more word. */
  lemma PortAdds(src: Ip, me: Ip, srcPort: uint16, dstPort: uint16, payload: bytes)
    requires |payload| + 8 <= 65535
    ensures UdpSum(src, me, AllOnes(srcPort, dstPort, payload)) == UdpSum(src, me, AllOnes(0, dstPort, payload)) + srcPort
  {
    hide WordSum;
    var p, q := AllOnes(srcPort, dstPort, payload), AllOnes(0, dstPort, payload);
    assert forall i :: 2 <= i < |p| ==> p[i] == q[i];
    forall i | 0 <= i < |p| / 2 && i != 3 && i != 0
      ensures Word(p, i) == Word(q, i)
    {
    }
    WordSumChange(p, q, |p| / 2, 3, 0);
  }

  /** make_udp_response and the copy of the payload, as stores into the transmit buffer; None when the length check or
      prepare_send_packet refuses. */
  method MakeUdpResponse(me: Ip, srcIp: Ip, srcPort: uint16, dstPort: uint16, payload: bytes)
    returns (r: Option<bytes>)
    ensures r.Some? <==> 14 + 20 + 8 + |payload| <= 1600
    ensures r.Some? ==> r.value == Ipv4Packet(UDP, me, srcIp, UdpSegment(srcPort, dstPort, payload))
  {
    var len := |payload|;
    if len < 0 || len > 1600 - 20 { return None; }
    if 28 + len > PACKET_MAX { return None; }
    var total := 28 + len;
    var p: array<byte> := new byte[total];
    hide Header, HeaderChecksum;
    FillHeader(p, total, UDP, me, srcIp);
    FillUdp(p, srcPort, dstPort, payload);
    assert p[..] == p[..20] + p[20..];
    r := Some(p[..]);
  }

  /** The UDP header and payload, behind the IPv4 header. */
  method FillUdp(p: array<byte>, srcPort: uint16, dstPort: uint16, payload: bytes)
    requires p.Length == 28 + |payload| <= PACKET_MAX
    modifies p
    ensures p[..20] == old(p[..20]) && p[20..] == UdpSegment(srcPort, dstPort, payload)
  {
    var len := |payload|;
    ghost var h := p[..20];
    p[20], p[21] := dstPort / 256, dstPort % 256;
    p[22], p[23] := srcPort / 256, srcPort % 256;
    p[24], p[25] := (len + 8) / 256, (len + 8) % 256;
    p[26], p[27] := 0, 0;
    assert p[..20] == h;
    ghost var u := [Hi(dstPort), Lo(dstPort), Hi(srcPort), Lo(srcPort), Hi(len + 8), Lo(len + 8), 0, 0];
    assert p[20..28] == u;
    CopyPayload(p, payload);
    assert p[..20] == h && p[20..28] == u;
    assert p[20..] == p[20..28] + p[28..];
  }

  method CopyPayload(p: array<byte>, payload: bytes)
    requires p.Length == 28 + |payload|
    modifies p
    ensures p[28..] == payload
    ensures forall k :: 0 <= k < 28 ==> p[k] == old(p[k])
  {
    for i := 0 to |payload|
      invariant forall k :: 0 <= k < 28 ==> p[k] == old(p[k])
      invariant p[28..28 + i] == payload[..i]
    {
      p[28 + i] := payload[i];
    }
    assert p[28..] == p[28..28 + |payload|];
    assert payload[..|payload|] == payload;
  }

  /** Builder and parsers undo each other: the requester accepts the response and finds the payload, with its own port
      as the destination. */
  lemma UdpRoundTrip(me: Ip, srcIp: Ip, srcPort: uint16, dstPort: uint16, payload: bytes, tail: bytes)
    requires 28 + |payload| <= 65535 && 28 + |payload| + |tail| >= 60
    ensures var p := Ipv4Packet(UDP, me, srcIp, UdpSegment(srcPort, dstPort, payload));
            var d := ParseIpv4(p + tail, |p|, srcIp);
            && d.Some? && d.value.proto == UDP && d.value.src == me
            && |d.value.body| <= 65535
            && ParseUdp(me, srcIp, d.value.body) == Some(Segment(dstPort, srcPort, payload))
  {
    hide ParseIpv4, ParseUdp, Ipv4Packet;
    var seg := UdpSegment(srcPort, dstPort, payload);
    Ipv4RoundTrip(UDP, me, srcIp, seg, tail);
    SegmentRoundTrip(me, srcIp, srcPort, dstPort, payload);
  }

  lemma SegmentRoundTrip(me: Ip, srcIp: Ip, srcPort: uint16, dstPort: uint16, payload: bytes)
    requires 28 + |payload| <= 65535
    ensures ParseUdp(me, srcIp, UdpSegment(srcPort, dstPort, payload)) == Some(Segment(dstPort, srcPort, payload))
  {
    hide UdpSum;
    var seg := UdpSegment(srcPort, dstPort, payload);
    assert seg[8..8 + |payload|] == payload;
  }

  /** net_on_ipv4_udp takes the length field for the length of the payload: of what follows a segment in its datagram, up
      to eight bytes are handed up with it. */
  lemma PaddingIsHandedUp(me: Ip, srcIp: Ip, srcPort: uint16, dstPort: uint16, payload: bytes, pad: bytes)
    requires 28 + |payload| + |pad| <= 65535
    ensures ParseUdp(me, srcIp, UdpSegment(srcPort, dstPort, payload) + pad) ==
              Some(Segment(dstPort, srcPort, payload + pad[..if |pad| < 8 then |pad| else 8]))
  {
    hide UdpSum;
    var u := UdpSegment(srcPort, dstPort, payload);
    var seg := u + pad;
    var k := if |pad| < 8 then |pad| else 8;
    assert forall i :: 0 <= i < 4 ==> Word(seg, i) == Word(u, i);
    assert seg[8..8 + |payload| + k] == payload + pad[..k];
  }

  // ---------- ICMP echo ----------

  /** The test at the top of net_on_ipv4_icmp; the last byte of an odd message is not summed. */
  predicate IcmpOk(m: bytes)
  {
    |m| >= 8 && CompareTest(WordSum(m, |m| / 2, 1), Word(m, 1))
  }

  /** The echo reply: type 0, the checksum recomputed, everything else copied. */
  function EchoReply(m: bytes): (r: bytes)
    requires |m| >= 8
    ensures |r| == |m|
  {
    var z := [0] + m[1..];
    var ck := 65535 - Reduce(WordSum(z, |m| / 2, 1));
    [0, m[1], Hi(ck), Lo(ck)] + m[4..]
  }

  /** net_on_ipv4_icmp: the packet sent back, if any. */
  method OnIcmp(me: Ip, srcIp: Ip, m: bytes) returns (r: Option<bytes>)
    ensures r.Some? <==> IcmpOk(m) && m[0] == 8 && m[1] == 0 && 14 + 20 + |m| <= 1600
    ensures r.Some? ==> r.value == Ipv4Packet(ICMP, me, srcIp, EchoReply(m))
  {
    hide Header, HeaderChecksum, EchoReply;
    if |m| < 8 { return None; }
    var chksum := Accumulate(m, |m| / 2, 1, 0, 0);
    if 65535 - chksum != Word(m, 1) { return None; }
    if m[0] != 8 || m[1] != 0 { return None; }
    if 20 + |m| > PACKET_MAX { return None; }
    var p: array<byte> := new byte[20];
    FillHeader(p, 20 + |m|, ICMP, me, srcIp);
    var hdr := p[..20];
    var reply := EchoBody(m);
    r := Some(hdr + reply);
  }

  /** The copied message with its type cleared and its checksum recomputed. */
  method EchoBody(m: bytes) returns (r: bytes)
    requires |m| >= 8
    ensures r == EchoReply(m)
  {
    hide WordSum, Reduce;
    assert Reduce(0) == 0 by { ReduceZero(); }
    var icmp: array<byte> := new byte[|m|](i requires 0 <= i < |m| => m[i]);
    icmp[0] := 0;
    assert icmp[..] == [0] + m[1..];
    var chksum := Accumulate(icmp[..], |m| / 2, 1, 0, 0);
    var ck: uint16 := 65535 - chksum;
    icmp[2], icmp[3] := ck / 256, ck % 256;
    r := icmp[..];
  }

  /** A message of even length is accepted exactly when all its words add up to all ones, save where the computed checksum
      is 0. */
  lemma IcmpTestIsRfc1071(m: bytes)
    requires |m| >= 8 && |m| % 2 == 0
    ensures var n := |m| / 2;
            IcmpOk(m) <==> Reduce(WordSum(m, n, n)) == 65535 && !(Reduce(WordSum(m, n, 1)) == 65535 && Word(m, 1) == 65535)
  {
    hide WordSum, Reduce;
    HeaderTestIsRfc1071(m, |m| / 2, 1);
  }

  /** For every accepted echo request the reply passes the requester's IPv4 and ICMP tests, differs from the
      request only in type and checksum, and its checksum is the request's plus 0x0800 in one's complement. */
  lemma EchoReplyIsValid(me: Ip, srcIp: Ip, m: bytes, tail: bytes)
    requires IcmpOk(m) && m[0] == 8 && m[1] == 0 && 20 + |m| <= PACKET_MAX
    requires 20 + |m| + |tail| >= 60
    ensures var r := EchoReply(m);
            var p := Ipv4Packet(ICMP, me, srcIp, r);
            && ParseIpv4(p + tail, |p|, srcIp) == Some(Datagram(ICMP, me, r))
            && IcmpOk(r) && r[0] == 0 && r[1] == m[1] && r[4..] == m[4..]
            && Word(r, 1) % 65535 == (Word(m, 1) + 0x0800) % 65535
  {
    hide WordSum, Reduce, EchoReply, ParseIpv4;
    Ipv4RoundTrip(ICMP, me, srcIp, EchoReply(m), tail);
    EchoSums(m);
    ComplementShift(WordSum([0] + m[1..], |m| / 2, 1));
  }

  /** The sums behind an echo request and its reply. */
  lemma EchoSums(m: bytes)
    requires |m| >= 8 && m[0] == 8 && m[1] == 0
    ensures var r, z, n := EchoReply(m), [0] + m[1..], |m| / 2;
            && WordSum(r, n, 1) == WordSum(z, n, 1) && WordSum(m, n, 1) == WordSum(z, n, 1) + 0x0800
            && Word(r, 1) == 65535 - Reduce(WordSum(z, n, 1))
            && r[0] == 0 && r[1] == m[1] && r[4..] == m[4..]
  {
    hide Reduce;
    var r, z, n := EchoReply(m), [0] + m[1..], |m| / 2;
    forall i | 0 <= i < n && i != 1
      ensures Word(r, i) == Word(z, i) && (i != 0 ==> Word(z, i) == Word(m, i))
    {
      if i == 0 { assert r[0] == z[0] && r[1] == z[1]; }
      else { assert r[2 * i] == m[2 * i] == z[2 * i] && r[2 * i + 1] == m[2 * i + 1] == z[2 * i + 1]; }
    }
    WordSumFrame(r, z, n, 1);
    WordSumChange(m, z, n, 1, 0);
  }

  /** Complementing: lowering the sum by 0x0800 raises the checksum by 0x0800, modulo 65535. */
  lemma ComplementShift(t: nat)
    ensures (65535 - Reduce(t)) % 65535 == (65535 - Reduce(t + 0x0800) + 0x0800) % 65535
  {
    RoundReduces(t, 0x0800);
    hide Reduce;
    var r := Reduce(t);
    assert Reduce(t + 0x0800) == Round(r, 0x0800);
  }
}
