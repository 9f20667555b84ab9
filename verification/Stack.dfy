/** The send path of the protocol stack: UDP over IP over Ethernet (net/udp.c, net/ip.c, net/ethernet.c). */
module Stack {
  import opened ByteOrder
  import opened Checksum
  import opened Messages

  const ETHERTYPE_IP: short := 0x0800
  const IPPOTO_UDP: short := 17

  function Lo(x: short): byte { x % 0x100 }
  function Hi(x: short): byte { x / 0x100 }

  method PutShort(h: array<byte>, at: nat, v: short)
    requires at + 2 <= h.Length
    modifies h
    ensures h[at] == Lo(v) && h[at + 1] == Hi(v)
    ensures forall i :: 0 <= i < h.Length && i != at && i != at + 1 ==> h[i] == old(h[i])
  {
    h[at], h[at + 1] := v % 0x100, v / 0x100;
  }

  method PutLong(h: array<byte>, at: nat, v: long)
    requires at + 4 <= h.Length
    modifies h
    ensures h[at..at + 4] == LongBytes(v)
    ensures forall i :: 0 <= i < h.Length && !(at <= i < at + 4) ==> h[i] == old(h[i])
  {
    PutShort(h, at, v % 0x1_0000);
    PutShort(h, at + 2, v / 0x1_0000);
  }

  lemma SwappedBytes(x: short)
    ensures Lo(ShortSwap(x)) == Hi(x) && Hi(ShortSwap(x)) == Lo(x)
  {
  }

  // ----- the headers, as they lie in memory -----

  function UdpHeader(sPort: short, dPort: short, length: short): seq<byte>
  {
    [Lo(sPort), Hi(sPort), Lo(dPort), Hi(dPort), Hi(length), Lo(length), 0, 0]
  }

  /** The IP header without its addresses and before its checksum; the fields that `ipSend` does not
      assign keep what the allocation `left` held. */
  function IpFront(left: seq<byte>, length: short, protocol: byte): seq<byte>
    requires |left| >= 20
  {
    [0x45, left[1], Hi(length), Lo(length), 0, 1, left[6] % 8, 0, 60, protocol, left[10], left[11]]
  }

  function IpFields(left: seq<byte>, length: short, protocol: byte, sip: long, dip: long): seq<byte>
    requires |left| >= 20
  {
    IpFront(left, length, protocol) + LongBytes(sip) + LongBytes(dip)
  }

  /** The 16-bit words of a header, as this little-endian machine reads them. */
  function WordsOf(h: seq<byte>): seq<short>
  {
    seq(|h| / 2, i requires 0 <= i < |h| / 2 => Short(h[2 * i + 1], h[2 * i]))
  }

  function IpHeader(left: seq<byte>, length: short, protocol: byte, sip: long, dip: long): seq<byte>
    requires |left| >= 20
  {
    var h := IpFields(left, length, protocol, sip, dip);
    h[..10] + ShortBytes(Check(WordsOf(h))) + h[12..]
  }

  function EthHeader(dHost: seq<byte>, sHost: seq<byte>, kind: short): seq<byte>
  {
    dHost + sHost + [Hi(kind), Lo(kind)]
  }

  // ----- the methods of the source -----

  /** net/ethernet.c:15-27. The chain that is handed to `neSend`. */
  method EthSend(data: Msg, dHost: seq<byte>, sHost: seq<byte>, kind: short) returns (msg: Msg)
    requires |dHost| == 6 && |sHost| == 6
    ensures msg.Piece? && msg.len == 14 <= |msg.msg| && msg.next == data
    ensures msg.msg[..14] == EthHeader(dHost, sHost, kind)
  {
    var eth := new byte[18];
    for i := 0 to 6
      invariant forall k :: 0 <= k < i ==> eth[k] == dHost[k] && eth[6 + k] == sHost[k]
    {
      eth[i] := dHost[i];
      eth[6 + i] := sHost[i];
    }
    ghost var hosts := eth[..];
    PutShort(eth, 12, ShortSwap(kind));
    SwappedBytes(kind);
    assert eth[..14] == EthHeader(dHost, sHost, kind);
    msg := Piece(14, eth[..], data);
  }

  /** net/ip.c:31-35: the length of the datagram in an unsigned 16-bit counter. */
  method ChainLength(data: Msg) returns (len: short)
    requires Sendable(data)
    ensures len == (20 + Length(data)) % 0x1_0000
  {
    var tmp := data;
    var sum := 20;
    ConcatLength(data);
    while tmp != Nil
      invariant Sendable(tmp) && 0 <= sum && 0 <= Length(tmp)
                && (sum + Length(tmp)) % 0x1_0000 == (20 + Length(data)) % 0x1_0000
      decreases tmp
    {
      ConcatLength(tmp.next);
      ModStep(sum, tmp.len, Length(tmp.next));
      sum := (sum + tmp.len) % 0x1_0000;
      tmp := tmp.next;
    }
    len := sum % 0x1_0000;
  }

  /** net/ip.c:39-45. */
  method FillFront(h: array<byte>, len: short, kind: short)
    requires h.Length == 22
    modifies h
    ensures h[..12] == IpFront(old(h[..]), len, kind % 0x100)
  {
    SwappedBytes(len);
    SwappedBytes(1);
    h[0] := 0x45;
    PutShort(h, 2, ShortSwap(len));
    PutShort(h, 4, ShortSwap(1));
    h[6] := h[6] % 8;
    h[7] := 0;
    h[8] := 60;
    h[9] := kind % 0x100;
  }

  /** net/ip.c:39-47. */
  method FillFields(h: array<byte>, len: short, kind: short, sip: long, dip: long)
    requires h.Length == 22
    modifies h
    ensures h[..20] == IpFields(old(h[..]), len, kind % 0x100, sip, dip)
  {
    FillFront(h, len, kind);
    ghost var front := h[..12];
    PutLong(h, 12, sip);
    assert h[..12] == front && h[12..16] == LongBytes(sip);
    PutLong(h, 16, dip);
    assert h[..12] == front && h[12..16] == LongBytes(sip);
    assert h[..20] == h[..12] + h[12..16] + h[16..20];
  }

  /** net/ip.c:25-48: the header piece. `left` is what the allocation held. */
  method IpPiece(dip: long, sip: long, data: Msg, kind: short, left: seq<byte>) returns (msg: Msg)
    requires |left| == 22 && Sendable(data)
    ensures msg.Piece? && msg.len == 20 <= |msg.msg| && msg.next == data
    ensures msg.msg[..20] == IpHeader(left, (20 + Length(data)) % 0x1_0000, kind % 0x100, sip, dip)
  {
    var len := ChainLength(data);
    var h := new byte[22](i requires 0 <= i < 22 => left[i]);
    assert h[..] == left;
    FillFields(h, len, kind, sip, dip);
    ghost var fields := h[..20];
    var check := CheckSum(WordsOf(h[..20]), 10);
    assert WordsOf(fields)[..10] == WordsOf(fields);
    PutShort(h, 10, check);
    assert ShortBytes(check) == [Lo(check), Hi(check)];
    assert h[..20] == fields[..10] + ShortBytes(check) + fields[12..];
    msg := Piece(20, h[..], data);
  }

  lemma ModStep(len: nat, x: nat, rest: nat)
    ensures ((len + x) % 0x1_0000 + rest) % 0x1_0000 == (len + (x + rest)) % 0x1_0000
  {
  }

  /** net/udp.c:7-20. */
  method UdpPiece(data: Msg, dPort: short, sPort: short) returns (msg: Msg)
    requires data.Piece? && data.len >= 0
    ensures msg.Piece? && msg.len == 8 <= |msg.msg| && msg.next == data
    ensures msg.msg[..8] == UdpHeader(sPort, dPort, (8 + data.len) % 0x1_0000)
  {
    var h := new byte[10];
    PutShort(h, 0, sPort);
    PutShort(h, 2, dPort);
    PutShort(h, 4, ShortSwap((8 + data.len) % 0x1_0000));
    PutShort(h, 6, 0);
    SwappedBytes((8 + data.len) % 0x1_0000);
    assert h[..8] == UdpHeader(sPort, dPort, (8 + data.len) % 0x1_0000);
    msg := Piece(8, h[..], data);
  }
}
