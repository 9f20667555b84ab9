/** What a receiver reads out of the frames that the send path builds (RFC 768, RFC 791 section 3.1). */
module Encapsulation {
  import opened ByteOrder
  import opened Checksum
  import opened Messages
  import opened Stack
  import NeSend
  import opened Ring

  datatype Option<T> = None | Some(value: T)

  /** Addresses and ports are kept as the bytes that are on the wire. */
  datatype Datagram = Datagram(
    dstMac: seq<int>, srcMac: seq<int>, src: seq<int>, dst: seq<int>,
    tos: int, id: int, ttl: int, sPort: seq<int>, dPort: seq<int>, payload: seq<int>)

  /** Big-endian fields. */
  function Be16(f: seq<int>, i: nat): int
    requires i + 2 <= |f|
  {
    f[i] * 0x100 + f[i + 1]
  }

  /** The header checksum of RFC 791, section 3.1, comes out. */
  predicate HeaderOk(h: seq<int>)
    requires |h| == 20
  {
    (forall i :: 0 <= i < 20 ==> 0 <= h[i] < 0x100) && Check(WordsOf(h)) == 0
  }

  /** A receiver of UDP over IP without options over Ethernet that takes whole datagrams with a right
      header checksum, some time to live, and no UDP checksum (RFC 768 sends 0 for none). The UDP length
      says how much of the IP payload is UDP data; RFC 768 does not ask that this be all of it, but a
      strict receiver does. */
  function Decode(f: seq<int>, strict: bool): Option<Datagram>
  {
    if |f| < 42 || Be16(f, 12) != 0x0800 || f[14] != 0x45 || f[22] == 0 || f[23] != 17
       || Fragment(Be16(f, 20)) || !HeaderOk(f[14..34]) || Be16(f, 40) != 0
    then None
    else
      var total, len := Be16(f, 16), Be16(f, 38);
      if total < 28 || |f| < 14 + total || len < 8 || total - 20 < len || (strict && len != total - 20) then None
      else
        Some(Datagram(f[..6], f[6..12], f[26..30], f[30..34], f[15], Be16(f, 18), f[22], f[34..36], f[36..38],
                      f[42..34 + len]))
  }

  /** The flag for more fragments or the fragment offset is set. */
  predicate Fragment(word: int) { word % 0x4000 != 0 }

  // ----- the headers read back -----

  lemma HiLo(x: short)
    ensures Hi(x) * 0x100 + Lo(x) == x
  {
  }

  lemma IpHeaderReads(left: seq<byte>, length: short, protocol: byte, sip: long, dip: long)
    requires |left| >= 20
    ensures var h: seq<int> := IpHeader(left, length, protocol, sip, dip);
            && |h| == 20 && h[0] == 0x45 && Be16(h, 2) == length && h[9] == protocol
            && h[6] == left[6] % 8 && h[7] == 0
            && h[1] == left[1] && Be16(h, 4) == 1 && h[8] == 60
            && h[12..16] == LongBytes(sip) && h[16..20] == LongBytes(dip)
  {
    var h: seq<int> := IpHeader(left, length, protocol, sip, dip);
    HiLo(length);
    var f: seq<int> := IpFields(left, length, protocol, sip, dip);
    var front: seq<int>, s: seq<int>, d: seq<int> := IpFront(left, length, protocol), LongBytes(sip), LongBytes(dip);
    assert f == front + s + d && |front| == 12 && |s| == 4 && |d| == 4;
    assert f[12..16] == s && f[16..20] == d;
    WordReplaced(f, ShortBytes(Check(WordsOf(IpFields(left, length, protocol, sip, dip)))));
  }

  /** Storing the checksum leaves the other fields. */
  lemma WordReplaced(f: seq<int>, c: seq<int>)
    requires |f| == 20 && |c| == 2
    ensures var h := f[..10] + c + f[12..];
            |h| == 20 && h[..10] == f[..10] && h[12..16] == f[12..16] && h[16..20] == f[16..20]
  {
  }

  lemma UdpHeaderReads(sPort: short, dPort: short, length: short)
    ensures var h: seq<int> := UdpHeader(sPort, dPort, length);
            h[..2] == ShortBytes(sPort) && h[2..4] == ShortBytes(dPort) && Be16(h, 4) == length && Be16(h, 6) == 0
  {
  }

  /** Fields of a frame made of an Ethernet, an IP and a UDP header and a payload. */
  lemma FrameReads(e: seq<int>, h: seq<int>, u: seq<int>, d: seq<int>)
    requires |e| == 14 && |h| == 20 && |u| == 8
    ensures var f := e + h + u + d;
            && |f| == 42 + |d| && f[..6] == e[..6] && f[6..12] == e[6..12] && Be16(f, 12) == Be16(e, 12)
            && f[14] == h[0] && f[23] == h[9] && Be16(f, 16) == Be16(h, 2) && Be16(f, 20) == Be16(h, 6)
            && f[15] == h[1] && Be16(f, 18) == Be16(h, 4) && f[22] == h[8] && Be16(f, 40) == Be16(u, 6)
            && f[14..34] == h && f[26..30] == h[12..16] && f[30..34] == h[16..20]
            && f[34..36] == u[..2] && f[36..38] == u[2..4] && Be16(f, 38) == Be16(u, 4)
            && f[42..] == d
  {
  }

  /** A payload whose lengths fit the 16-bit fields of the headers. */
  predicate FitsDatagram(data: Msg)
  {
    data.Piece? && Sendable(data) && 0 <= data.len <= Length(data) < 0x1_0000 - 28
  }

  /** The frame that `udpSend` hands to the driver; `sip` is `htonl(hostIp())`. Lengths are 16-bit. */
  function Frame(data: Msg, sip: long, dIP: long, dPort: short, sPort: short, left: seq<byte>, dHost: seq<byte>,
                 sHost: seq<byte>): seq<int>
    requires data.Piece? && Sendable(data) && |left| >= 20
  {
    EthHeader(dHost, sHost, ETHERTYPE_IP)
    + IpHeader(left, (28 + Length(data)) % 0x1_0000, IPPOTO_UDP, sip, dIP)
    + UdpHeader(sPort, dPort, (8 + data.len) % 0x1_0000) + Concat(data)
  }

  /** net/udp.c:7-21 with net/ip.c:53 and net/ethernet.c:15-27. `left` is what the allocation of the
      IP header held, the hardware addresses come from the address cache. */
  method UdpSend(data: Msg, sip: long, dIP: long, dPort: short, sPort: short, left: seq<byte>, dHost: seq<byte>,
                 sHost: seq<byte>)
    returns (msg: Msg)
    requires data.Piece? && Sendable(data) && |left| == 22 && |dHost| == 6 && |sHost| == 6
    ensures msg.Piece? && Sendable(msg) && Length(msg) == 42 + Length(data) && Extent(msg) == 42 + Extent(data)
    ensures Concat(msg) == Frame(data, sip, dIP, dPort, sPort, left, dHost, sHost)
  {
    var udp := UdpPiece(data, dPort, sPort);
    var ip := IpPiece(dIP, sip, udp, IPPOTO_UDP, left);
    msg := EthSend(ip, dHost, sHost, ETHERTYPE_IP);
    assert UdpHeader(sPort, dPort, (8 + data.len) % 0x1_0000) == udp.msg[..8];
    Flatten(msg, ip, udp, data);
    assert (20 + Length(udp)) % 0x1_0000 == (28 + Length(data)) % 0x1_0000;
    assert Extent(udp) == 8 + Extent(data) && Extent(ip) == 20 + Extent(udp) && Extent(msg) == 14 + Extent(ip);
  }

  lemma SmallMod(x: int)
    requires 0 <= x < 0x1_0000
    ensures x % 0x1_0000 == x
  {
  }

  lemma Flatten(eth: Msg, ip: Msg, udp: Msg, data: Msg)
    requires Sendable(data) && udp.Piece? && udp.next == data && ip.Piece? && ip.next == udp && eth.Piece?
             && eth.next == ip
    requires eth.len == 14 <= |eth.msg| && ip.len == 20 <= |ip.msg| && udp.len == 8 <= |udp.msg|
    ensures Sendable(eth) && Length(eth) == 42 + Length(data) && Length(udp) == 8 + Length(data)
    ensures Concat(eth) == eth.msg[..14] + ip.msg[..20] + udp.msg[..8] + Concat(data)
  {
    assert Sendable(udp) && Concat(udp) == udp.msg[..8] + Concat(data) && Length(udp) == 8 + Length(data);
    assert Sendable(ip) && Concat(ip) == ip.msg[..20] + Concat(udp) && Length(ip) == 20 + Length(udp);
    assert Sendable(eth) && Concat(eth) == eth.msg[..14] + Concat(ip);
  }

  /** What the allocation of the IP header held does no harm: its flag bits, which become part of the
      fragment offset, are 0, and its checksum word is one of the two zeros. */
  predicate Harmless(left: seq<byte>)
    requires |left| >= 20
  {
    left[6] % 8 == 0 && (Short(left[11], left[10]) == 0 || Short(left[11], left[10]) == 0xFFFF)
  }

  /** A strict receiver accepts exactly the payloads of one piece, and any receiver exactly when the
      leftover in the header is harmless. What it gets back are addresses, ports and the first piece,
      since `udpSend` counts no more. */
  lemma RoundTrip(data: Msg, sip: long, dIP: long, dPort: short, sPort: short,
                  left: seq<byte>, dHost: seq<byte>, sHost: seq<byte>, strict: bool)
    requires FitsDatagram(data) && |left| >= 20 && |dHost| == 6 && |sHost| == 6
    ensures Decode(Frame(data, sip, dIP, dPort, sPort, left, dHost, sHost), strict)
            == if Harmless(left) && (strict ==> data.next == Nil) then
                 Some(Datagram(dHost, sHost, LongBytes(sip), LongBytes(dIP), left[1], 1, 60,
                               ShortBytes(sPort), ShortBytes(dPort), data.msg[..data.len]))
               else
                 None
  {
    FirstLength(data);
    var total, udp := 28 + Length(data), 8 + data.len;
    SmallMod(total);
    SmallMod(udp);
    Received(Frame(data, sip, dIP, dPort, sPort, left, dHost, sHost),
             Concat(data), data.msg[..data.len], data.next == Nil,
             total, udp, sip, dIP, dPort, sPort, left, dHost, sHost, strict);
  }

  lemma HeaderAccepted(left: seq<byte>, length: short, protocol: byte, sip: long, dip: long)
    requires |left| >= 20
    ensures var h: seq<int> := IpHeader(left, length, protocol, sip, dip);
            |h| == 20 && (!Fragment(Be16(h, 6)) && HeaderOk(h) <==> Harmless(left))
  {
    var h: seq<int> := IpHeader(left, length, protocol, sip, dip);
    IpHeaderReads(left, length, protocol, sip, dip);
    HeaderChecks(left, length, protocol, sip, dip);
    FragmentBits(h[6]);
    assert HeaderOk(h) <==> Check(WordsOf(IpHeader(left, length, protocol, sip, dip))) == 0;
  }

  lemma FragmentBits(x: int)
    requires 0 <= x < 8
    ensures Fragment(x * 0x100 + 0) <==> x != 0
  {
  }

  /** `p` is the part of the IP payload `d` that the UDP length covers, which may be the whole. */
  lemma Received(f: seq<int>, d: seq<int>, p: seq<int>, whole: bool, total: short, udp: short,
                 sip: long, dIP: long, dPort: short, sPort: short,
                 left: seq<byte>, dHost: seq<byte>, sHost: seq<byte>, strict: bool)
    requires |left| >= 20 && |dHost| == 6 && |sHost| == 6 && total == 28 + |d| && 8 <= udp <= 8 + |d|
    requires f == EthHeader(dHost, sHost, ETHERTYPE_IP) + IpHeader(left, total, IPPOTO_UDP, sip, dIP)
                  + UdpHeader(sPort, dPort, udp) + d
    requires p == d[..udp - 8] && (whole <==> udp == 8 + |d|)
    ensures Decode(f, strict)
            == if Harmless(left) && (strict ==> whole) then
                 Some(Datagram(dHost, sHost, LongBytes(sip), LongBytes(dIP), left[1], 1, 60,
                               ShortBytes(sPort), ShortBytes(dPort), p))
               else
                 None
  {
    var h := IpHeader(left, total, IPPOTO_UDP, sip, dIP);
    IpHeaderReads(left, total, IPPOTO_UDP, sip, dIP);
    HeaderAccepted(left, total, IPPOTO_UDP, sip, dIP);
    UdpHeaderReads(sPort, dPort, udp);
    EthHeaderReads(dHost, sHost, ETHERTYPE_IP);
    DecodeFrame(EthHeader(dHost, sHost, ETHERTYPE_IP), h, UdpHeader(sPort, dPort, udp), d, strict);
  }

  lemma FirstLength(data: Msg)
    requires data.Piece? && Sendable(data)
    ensures data.next == Nil ==> data.len == Length(data) && Concat(data) == data.msg[..data.len]
    ensures data.next != Nil ==> data.len < Length(data)
    ensures data.len <= |Concat(data)| && Concat(data)[..data.len] == data.msg[..data.len]
    ensures 0 <= data.len <= Length(data) == |Concat(data)|
  {
  }

  lemma EthHeaderReads(dHost: seq<byte>, sHost: seq<byte>, kind: short)
    requires |dHost| == 6 && |sHost| == 6
    ensures var e: seq<int> := EthHeader(dHost, sHost, kind);
            |e| == 14 && e[..6] == dHost && e[6..12] == sHost && Be16(e, 12) == kind
  {
  }

  /** Decoding a frame of the right kind and lengths: all depends on fragmentation, checksum and the
      UDP length. */
  lemma DecodeFrame(e: seq<int>, h: seq<int>, u: seq<int>, d: seq<int>, strict: bool)
    requires |e| == 14 && |h| == 20 && |u| == 8
    requires Be16(e, 12) == 0x0800 && h[0] == 0x45 && h[8] != 0 && h[9] == 17 && Be16(h, 2) == 28 + |d|
    requires Be16(u, 6) == 0
    requires 8 <= Be16(u, 4) <= 8 + |d|
    ensures Decode(e + h + u + d, strict) ==
            if !Fragment(Be16(h, 6)) && HeaderOk(h) && (strict ==> Be16(u, 4) == 8 + |d|) then
              Some(Datagram(e[..6], e[6..12], h[12..16], h[16..20], h[1], Be16(h, 4), h[8], u[..2], u[2..4],
                            d[..Be16(u, 4) - 8]))
            else
              None
  {
    FrameReads(e, h, u, d);
    var f, n := e + h + u + d, Be16(u, 4) - 8;
    assert f[42..42 + n] == f[42..][..n];
  }

  /** The same for the bytes that the driver has gathered in the adapter's transmit RAM. */
  lemma GatheredRoundTrip(ram: seq<int>, msg: Msg, data: Msg, sip: long, dIP: long, dPort: short, sPort: short,
                          left: seq<byte>, dHost: seq<byte>, sHost: seq<byte>, strict: bool)
    requires FitsDatagram(data) && |left| >= 20 && |dHost| == 6 && |sHost| == 6
    requires NeSend.Transmittable(msg) && NeSend.Holds(ram, msg)
    requires Concat(msg) == Frame(data, sip, dIP, dPort, sPort, left, dHost, sHost)
    ensures Decode(ram[256 * NeSend.TRANS_PAGE..256 * NeSend.TRANS_PAGE + Length(msg)], strict)
            == if Harmless(left) && (strict ==> data.next == Nil) then
                 Some(Datagram(dHost, sHost, LongBytes(sip), LongBytes(dIP), left[1], 1, 60,
                               ShortBytes(sPort), ShortBytes(dPort), data.msg[..data.len]))
               else
                 None
  {
    RoundTrip(data, sip, dIP, dPort, sPort, left, dHost, sHost, strict);
  }

  /** The whole way: a chain built by `udpSend`, gathered by an adapter that does not read busy, and
      what a receiver makes of the bytes that went over the wire. */
  method SendDatagram(tx: NeSend.Transmitter, data: Msg, sip: long, dIP: long, dPort: short, sPort: short,
                      left: seq<byte>, dHost: seq<byte>, sHost: seq<byte>)
    requires tx.Valid() && !tx.ReadsBusy()
    requires data.Piece? && Sendable(data) && 256 * NeSend.TRANS_PAGE + 42 + Extent(data) <= RAM
    requires |left| == 22 && |dHost| == 6 && |sHost| == 6
    modifies tx, tx.ram, tx.repr, tx.cr
    ensures tx.Valid() && |tx.wire| == |old(tx.wire)| + 1 && old(tx.wire) <= tx.wire
    ensures forall strict: bool ::
              Decode(tx.wire[|old(tx.wire)|], strict)
              == if Harmless(left) && (strict ==> data.next == Nil) then
                   Some(Datagram(dHost, sHost, LongBytes(sip), LongBytes(dIP), left[1], 1, 60,
                                 ShortBytes(sPort), ShortBytes(dPort), data.msg[..data.len]))
                 else
                   None
  {
    var msg := UdpSend(data, sip, dIP, dPort, sPort, left, dHost, sHost);
    tx.Send(msg);
    tx.Complete();
    FirstLength(data);
    ConcatLength(data);
    forall strict: bool
      ensures Decode(Concat(msg), strict)
              == if Harmless(left) && (strict ==> data.next == Nil) then
                   Some(Datagram(dHost, sHost, LongBytes(sip), LongBytes(dIP), left[1], 1, 60,
                                 ShortBytes(sPort), ShortBytes(dPort), data.msg[..data.len]))
                 else
                   None
    {
      RoundTrip(data, sip, dIP, dPort, sPort, left, dHost, sHost, strict);
    }
  }

  // ----- the header checksum -----

  lemma WordsStored(h: seq<byte>, c: short)
    requires |h| == 20
    ensures WordsOf(h[..10] + ShortBytes(c) + h[12..]) == WordsOf(h)[5 := c]
  {
  }

  /** A receiver's check of the IP header succeeds exactly when the checksum word of the allocation
      held 0 or 0xFFFF before, because `ipSend` takes the sum over that word too. */
  lemma HeaderChecks(left: seq<byte>, length: short, protocol: byte, sip: long, dip: long)
    requires |left| >= 20
    ensures Check(WordsOf(IpHeader(left, length, protocol, sip, dip))) == 0
            <==> Short(left[11], left[10]) == 0 || Short(left[11], left[10]) == 0xFFFF
  {
    var h := IpFields(left, length, protocol, sip, dip);
    var s := WordsOf(h);
    WordsStored(h, Check(s));
    assert s[5] == Short(left[11], left[10]) && s[0] == Short(left[1], 0x45);
    TotalUpdate(s, 0, 0);
    TotalUpdate(s[0 := 0], 5, 0);
    StoredOverLeftover(s, 5);
  }
}
