/** The transmit side of net/ne2k/ne2k.c: the gathering of a chain and the queue behind a busy adapter. */
module NeSend {
  import opened Ring
  import opened Messages
  import opened SendQueue
  import opened Command

  const TRANS_PAGE: int := 0x40

  /** The room before the first receive page. */
  const TRANS_BYTES: int := 256 * (RECV_PAGE - TRANS_PAGE)

  /** A chain without empty pieces that fits the adapter's RAM. A piece of 0 bytes would make the
      instruction `loop` run 2^32 times. */
  predicate Transmittable(m: Msg)
  {
    m.Piece? && Sendable(m) && 256 * TRANS_PAGE + Extent(m) <= RAM
  }

  /** Transmit RAM starts with the bytes of the chain. */
  ghost predicate Holds(ram: Ram, m: Msg)
    requires Transmittable(m)
  {
    |ram| == RAM && |Concat(m)| == Length(m) && 256 * TRANS_PAGE + Length(m) <= RAM
    && ram[256 * TRANS_PAGE..256 * TRANS_PAGE + Length(m)] == Concat(m)
  }

  /** What goes over the wire for a list of messages. */
  ghost function Wires(ms: seq<Msg>): seq<seq<int>>
  {
    seq(|ms|, i requires 0 <= i < |ms| => if Sendable(ms[i]) then Concat(ms[i]) else [])
  }

  lemma WiresAppend(ms: seq<Msg>, m: Msg)
    requires Sendable(m)
    ensures Wires(ms + [m]) == Wires(ms) + [Concat(m)]
  {
  }

  /** A list of messages that can be sent. */
  ghost predicate Waiting(ns: seq<Node>, repr: set<Node>)
    reads repr
  {
    && (forall i :: 0 <= i < |ns| ==> ns[i] in repr)
    && IsList(ns)
    && (forall i {:trigger ns[i].msg} :: 0 <= i < |ns| ==> Transmittable(ns[i].msg))
  }

  /** The first `count` bytes of `buf` are in transmit RAM, and `m` is what follows. */
  ghost predicate Gathered(ram: Ram, buf: Msg, m: Msg, count: int)
  {
    && |ram| == RAM && Transmittable(buf) && Sendable(m)
    && 0 <= count && 256 * TRANS_PAGE + count <= RAM && 0 <= Length(m)
        && count + Length(m) == Length(buf) == |Concat(buf)|
    && Concat(buf)[count..] == Concat(m)
    && (forall i :: 0 <= i < count ==> ram[256 * TRANS_PAGE + i] == Concat(buf)[i])
    && (if m.Piece? then count + Extent(m) == Extent(buf) && Pad(m) == Pad(buf)
        else Extent(buf) > Length(buf) ==> 256 * TRANS_PAGE + count < RAM && ram[256 * TRANS_PAGE + count] == Pad(buf))
  }

  lemma GatherPiece(ram: Ram, ram': Ram, buf: Msg, m: Msg, count: int)
    requires Gathered(ram, buf, m, count) && m.Piece? && |ram'| == RAM
    requires 256 * TRANS_PAGE + count + m.len + m.len % 2 <= RAM
    requires forall i :: 0 <= i < m.len + m.len % 2 ==> ram'[256 * TRANS_PAGE + count + i] == m.msg[i]
    requires var lo, hi := 256 * TRANS_PAGE + count, 256 * TRANS_PAGE + count + m.len + m.len % 2;
             forall a :: 0 <= a < RAM && !(lo <= a < hi) ==> ram'[a] == ram[a]
    ensures Gathered(ram', buf, m.next, (count + m.len) % 0x1_0000)
  {
    PieceFirst(buf, m, count);
    ConcatLength(m.next);
    forall i | 0 <= i < count + m.len
      ensures ram'[256 * TRANS_PAGE + i] == Concat(buf)[i]
    {
      if i >= count { assert i == count + (i - count); }
    }
    assert (count + m.len) % 0x1_0000 == count + m.len;
  }

  class Transmitter {
    const ram: array<int>
    const cr: CommandRegister

    /** The registers for the transmit page and byte count. */
    var tpsr: int
    var tbcr: int
    var sendQueue: Node?
    ghost var nodes: seq<Node>
    ghost var repr: set<Node>

    /** The message being transmitted, those transmitted, those overwritten while they were being
        transmitted, and what went over the wire for each one transmitted. */
    ghost var inFlight: Msg
    ghost var sent: seq<Msg>
    ghost var lost: seq<Msg>
    ghost var wire: seq<seq<int>>

    constructor (ram: array<int>, cr: CommandRegister)
      requires ram.Length == RAM && cr.written == READY && !cr.txp
      ensures Valid() && this.ram == ram && this.cr == cr
      ensures nodes == [] && repr == {} && sent == lost == []
    {
      this.ram, this.cr, tpsr, tbcr, sendQueue, nodes, repr := ram, cr, TRANS_PAGE, 0, null, [], {};
      inFlight, sent, lost, wire := Nil, [], [], [];
    }

    /** The queue is a list of messages that can be sent, and transmit RAM and byte count are those
        of the message under way. */
    ghost predicate Valid()
      reads this, cr, repr, ram
    {
      && ram.Length == RAM
      && Waiting(nodes, repr) && sendQueue == Head(nodes, 0)
      && (cr.written == READY || cr.written == READING)
      && (cr.txp ==>
            && Transmittable(inFlight) && Holds(ram[..], inFlight)
            && tpsr == TRANS_PAGE && tbcr == Length(inFlight))
      && wire == Wires(sent)
    }

    /** The command register reads 0x26. */
    ghost predicate ReadsBusy()
      reads cr
    {
      cr.txp && cr.written == READY
    }

    /** net/ne2k/ne2k.c:100-114. */
    method PCtoNIC(src: seq<int>, dma: int, count: int)
      requires 1 <= count && count + count % 2 <= |src| && 0 <= dma && dma + count + count % 2 <= ram.Length
      modifies ram, cr
      ensures forall i :: 0 <= i < count + count % 2 ==> ram[dma + i] == src[i]
      ensures forall a :: 0 <= a < ram.Length && !(dma <= a < dma + count + count % 2) ==> ram[a] == old(ram[a])
      ensures cr.written == 0x12 && cr.txp == old(cr.txp)
    {
      cr.Write(START + WRITE_DMA);
      var c := (count + 1) / 2;
      var i := 0;
      while c > 0
        invariant 0 <= c && 0 <= i && i + 2 * c == count + count % 2
        invariant forall k :: 0 <= k < i ==> ram[dma + k] == src[k]
        invariant forall a :: 0 <= a < ram.Length && !(dma <= a < dma + i) ==> ram[a] == old(ram[a])
        invariant cr.written == WRITING && cr.txp == old(cr.txp)
      {
        ram[dma + i], ram[dma + i + 1] := src[i], src[i + 1];
        i := i + 2;
        c := c - 1;
      }
    }

    /** net/ne2k/ne2k.c:193-198: write the chain piece by piece. The pad byte of an odd piece is
        overwritten by the next piece; that of the last piece stays, behind the message. */
    method Gather(buf: Msg) returns (count: int)
      requires Transmittable(buf) && ram.Length == RAM
      modifies ram, cr
      ensures count == Length(buf) && Holds(ram[..], buf) && cr.txp == old(cr.txp)
      ensures Extent(buf) > Length(buf) ==> ram[256 * TRANS_PAGE + Length(buf)] == Pad(buf)
      ensures forall a :: 0 <= a < RAM && Spared(buf, a) ==> ram[a] == old(ram[a])
    {
      var m := buf;
      count := 0;
      ConcatLength(buf);
      while m != Nil
        invariant Gathered(ram[..], buf, m, count) && cr.txp == old(cr.txp)
        invariant forall a :: 0 <= a < RAM && Spared(buf, a) ==> ram[a] == old(ram[a])
        decreases m
      {
        ghost var before := ram[..];
        ExtentCovers(m);
        PCtoNIC(m.msg, 256 * TRANS_PAGE + count, m.len);
        GatherPiece(before, ram[..], buf, m, count);
        count := (count + m.len) % 0x1_0000;
        m := m.next;
      }
    }

    /** net/ne2k/ne2k.c:189. */
    method Enqueue(buf: Msg)
      requires Valid() && Transmittable(buf)
      modifies this, repr
      ensures Valid()
      ensures inFlight == old(inFlight) && sent == old(sent) && lost == old(lost)
      ensures old(nodes) <= nodes && fresh(repr - old(repr))
      ensures Queued(nodes) == old(Queued(nodes)) + [buf]
    {
      ghost var n;
      sendQueue, n := SendQueue.Add(sendQueue, buf, nodes, 0);
      nodes, repr := nodes + [n], repr + {n};
      assert Waiting(nodes, repr);
      assert Queued(nodes) == old(Queued(nodes)) + [buf];
    }

    /** net/ne2k/ne2k.c:193-199 with include/net/ne2k/ne2k.h:97-101. What was still being transmitted
        is overwritten. */
    method Start(buf: Msg)
      requires Valid() && Transmittable(buf)
      modifies this, ram, cr
      ensures Valid() && ReadsBusy() && cr.written == 0x22 && inFlight == buf
      ensures tpsr == 0x40 && tbcr == Length(buf) && ram[0x4000..0x4000 + Length(buf)] == Concat(buf)
      ensures sent == old(sent) && nodes == old(nodes) && repr == old(repr)
      ensures lost == old(lost) + if old(cr.txp) then [old(inFlight)] else []
      ensures forall a :: 0 <= a < RAM && Spared(buf, a) ==> ram[a] == old(ram[a])
    {
      lost := lost + if cr.txp then [inFlight] else [];
      var count := Gather(buf);
      tpsr, tbcr := TRANS_PAGE, count;
      cr.Write(DMA_ABORT + SEND + START);
      inFlight := buf;
    }

    /** net/ne2k/ne2k.c:183-203. A message waits if the command register reads 0x26; otherwise it is
        sent at once, whether or not a transmission is under way. */
    method Send(buf: Msg)
      requires Valid() && (buf == Nil || Transmittable(buf))
      modifies this, ram, repr, cr
      ensures Valid() && sent == old(sent) && old(nodes) <= nodes && fresh(repr - old(repr))
      ensures if buf == Nil then
                && Queued(nodes) == old(Queued(nodes)) && cr.txp == old(cr.txp) && cr.written == old(cr.written)
                && inFlight == old(inFlight) && lost == old(lost)
              else if old(ReadsBusy()) then
                && Queued(nodes) == old(Queued(nodes)) + [buf] && ReadsBusy()
                && inFlight == old(inFlight) && lost == old(lost)
              else
                && Queued(nodes) == old(Queued(nodes)) && ReadsBusy()
                && inFlight == buf && lost == old(lost) + if old(cr.txp) then [old(inFlight)] else []
      ensures forall a :: 0 <= a < RAM && (buf == Nil || old(ReadsBusy()) || Spared(buf, a)) ==> ram[a] == old(ram[a])
    {
      if buf != Nil {
        var command := cr.Read();
        if 0x26 == command {
          Enqueue(buf);
        } else {
          Start(buf);
          assert Queued(nodes) == old(Queued(nodes));
        }
      }
    }

    /** The adapter has transmitted as many bytes as its count register says. */
    method Complete()
      requires Valid() && cr.txp
      modifies this, cr
      ensures Valid() && !cr.txp && cr.written == old(cr.written)
      ensures nodes == old(nodes) && repr == old(repr) && inFlight == old(inFlight)
      ensures Queued(nodes) == old(Queued(nodes)) && sent == old(sent) + [inFlight] && lost == old(lost)
      ensures Transmittable(inFlight) && wire == old(wire) + [Concat(inFlight)]
    {
      ConcatLength(inFlight);
      wire := wire + [ram[256 * tpsr..256 * tpsr + tbcr]];
      WiresAppend(sent, inFlight);
      sent := sent + [inFlight];
      cr.txp := false;
    }

    /** net/ne2k/ne2k.c:261. */
    method Drop()
      requires Valid() && nodes != []
      modifies this
      ensures Valid() && nodes == old(nodes)[1..] && repr == old(repr) && Queued(nodes) == old(Queued(nodes))[1..]
      ensures inFlight == old(inFlight) && sent == old(sent) && lost == old(lost)
    {
      ghost var ns := nodes;
      sendQueue := Del(sendQueue, ns);
      nodes := nodes[1..];
      assert forall i :: 0 <= i < |nodes| ==> nodes[i].msg == ns[i + 1].msg;
    }

    /** net/ne2k/ne2k.c:256-262: the next message, when a transmission is reported done. If the adapter
        reads busy again, the message goes to the end of the queue before it leaves the front. */
    method Next()
      requires Valid()
      modifies this, ram, repr, cr
      ensures Valid() && sent == old(sent) && fresh(repr - old(repr))
      ensures var q := old(Queued(nodes));
              if q == [] then
                && Queued(nodes) == [] && cr.txp == old(cr.txp) && cr.written == old(cr.written)
                && inFlight == old(inFlight) && lost == old(lost)
              else if old(ReadsBusy()) then
                && Queued(nodes) == q[1..] + [q[0]] && ReadsBusy()
                && inFlight == old(inFlight) && lost == old(lost)
              else
                && Queued(nodes) == q[1..] && ReadsBusy()
                && inFlight == q[0] && lost == old(lost) + if old(cr.txp) then [old(inFlight)] else []
      ensures forall a, e :: 0 <= a < RAM && !(256 * TRANS_PAGE <= a < 256 * TRANS_PAGE + e) && old(AllWithin(e)) ==>
                ram[a] == old(ram[a])
    {
      if sendQueue != null {
        ghost var q := Queued(nodes);
        var m := sendQueue.msg;
        assert m == q[0];
        Send(m);
        Drop();
        assert (q + [m])[1..] == q[1..] + [m];
      }
    }

    /** No message that waits extends over more than `e` bytes. */
    ghost predicate AllWithin(e: int)
      reads this, repr, nodes
    {
      forall m :: m in Queued(nodes) ==> Extent(m) <= e
    }
  }

  /** Sending `buf` does not touch address `a`. */
  predicate Spared(buf: Msg, a: int)
  {
    !(256 * TRANS_PAGE <= a < 256 * TRANS_PAGE + Extent(buf))
  }
}
