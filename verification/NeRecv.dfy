/** The receive side of net/ne2k/ne2k.c, with the adapter as producer and the driver as consumer. */
module NeRecv {
  import opened ByteOrder
  import opened Ring
  import opened Messages
  import opened Command

  class Receiver {
    /** The adapter's RAM and the registers CURR and BNRY. */
    const ram: array<int>
    const cr: CommandRegister
    var curr: int
    var bnry: int

    /** Packets in the ring; those deposited and those handed to the kernel since the last reset. */
    ghost var pending: seq<seq<byte>>
    ghost var deposited: seq<seq<byte>>
    ghost var returned: seq<seq<byte>>
    ghost var used: nat

    ghost predicate Valid()
      reads this, ram
    {
      && ram.Length == RAM && RECV_PAGE - 1 <= bnry <= RECV_PAGE_END
      && used < RING_PAGES && curr == PageAt(Reader(bnry), used)
      && Laid(ram[..], Reader(bnry), 0, pending, used)
      && deposited == returned + pending
    }

    /** net/ne2k/ne2k.c:125-127. */
    constructor (ram: array<int>, cr: CommandRegister)
      requires ram.Length == RAM
      ensures Valid() && this.ram == ram && this.cr == cr && pending == deposited == returned == []
      ensures bnry == 0x46 && curr == 0x47
    {
      this.ram, this.cr, bnry, curr := ram, cr, RECV_PAGE, RECV_PAGE + 1;
      pending, deposited, returned, used := [], [], [], 0;
    }

    /** net/ne2k/ne2k.c:86-99. The adapter transfers whole 16-bit words. A count of 0 would make the
        instruction `loop` run 2^32 times. */
    method NICtoPC(dest: array<int>, dma: int, count: int)
      requires 1 <= count && count + count % 2 <= dest.Length && dest != ram && ram.Length == RAM
      requires 256 * RECV_PAGE <= dma < RAM && dma + count + count % 2 <= RAM + RING_BYTES
      modifies dest, cr
      ensures forall i :: 0 <= i < count + count % 2 ==> dest[i] == ram[DmaAt(dma, i)]
      ensures cr.written == 0x0A && cr.txp == old(cr.txp)
    {
      cr.Write(START + READ_DMA);
      var c := (count + 1) / 2;
      var i := 0;
      while c > 0
        invariant 0 <= c && 0 <= i && i + 2 * c == count + count % 2
        invariant forall k :: 0 <= k < i ==> dest[k] == ram[DmaAt(dma, k)]
        invariant cr.written == READING && cr.txp == old(cr.txp)
      {
        dest[i], dest[i + 1] := ram[DmaAt(dma, i)], ram[DmaAt(dma, i + 1)];
        i := i + 2;
        c := c - 1;
      }
    }

    /** The adapter's local DMA: the image of `p`, byte by byte, going round at the end of the ring. */
    method WriteImage(p: seq<byte>, status: byte, next: int, ghost base: int, ghost off: nat)
      requires ram.Length == RAM && InRing(base) && off < RING_PAGES && curr == PageAt(base, off)
      requires 256 * off + |p| + 4 <= RING_BYTES
      modifies ram
      ensures forall k {:trigger ImageByte(p, status, next, k)} :: 0 <= k < |p| + 4 ==>
                ram[AddrAt(base, 256 * off + k)] == ImageByte(p, status, next, k)
      ensures SameBytes(old(ram[..]), ram[..], base, 0, 256 * off)
      ensures forall a :: 0 <= a < 256 * RECV_PAGE ==> ram[a] == old(ram[a])
    {
      for i := 0 to |p| + 4
        invariant forall k {:trigger ImageByte(p, status, next, k)} :: 0 <= k < i ==>
                    ram[AddrAt(base, 256 * off + k)] == ImageByte(p, status, next, k)
        invariant SameBytes(old(ram[..]), ram[..], base, 0, 256 * off)
        invariant forall a :: 0 <= a < 256 * RECV_PAGE ==> ram[a] == old(ram[a])
      {
        assert AddrAt(base, 256 * off + i) == DmaAt(256 * curr, i);
        ram[DmaAt(256 * curr, i)] := ImageByte(p, status, next, i);
      }
    }

    /** The adapter stores a packet, if it fits between CURR and the page the driver reads next. */
    method Deposit(p: seq<byte>, status: byte) returns (ok: bool)
      requires Valid() && |p| >= 1
      modifies this, ram
      ensures forall a :: 0 <= a < 256 * RECV_PAGE && a < ram.Length ==> ram[a] == old(ram[a])
      ensures Valid() && bnry == old(bnry)
      ensures ok == (old(used) + PagesFor(|p|) < 58)
      ensures ok ==> pending == old(pending) + [p] && deposited == old(deposited) + [p] && returned == old(returned)
      ensures !ok ==>
                && pending == old(pending) && deposited == old(deposited) && returned == old(returned)
                && curr == old(curr)
    {
      var base := Reader(bnry);
      var filled := if curr >= base then curr - base else curr - base + RING_PAGES;
      var n := PagesFor(|p|);
      assert filled == used && |p| + 4 <= 256 * n;
      if filled + n >= RING_PAGES {
        return false;
      }
      var next := PageAt(curr, n);
      ghost var ram0 := ram[..];
      WriteImage(p, status, next, base, used);
      DepositLaid(ram0, ram[..], base, pending, used, p, status, next);
      curr, used := next, used + n;
      pending, deposited := pending + [p], deposited + [p];
      return true;
    }

    /** net/ne2k/ne2k.c:220-225: the header of the packet at page `bound`, its length without CRC. */
    method ReadHeader(bound: int, ghost p: seq<byte>) returns (next: int, len: int)
      requires ram.Length == RAM && InRing(bound) && PagesFor(|p|) <= RING_PAGES && ImageAt(ram[..], bound, 0, p)
      modifies cr
      ensures next == PageAt(bound, PagesFor(|p|)) == ram[256 * bound + 1]
      ensures len == |p| == ram[256 * bound + 2] + 0x100 * ram[256 * bound + 3] - 4
      ensures cr.written == 0x0A && cr.txp == old(cr.txp)
    {
      var recv := new int[4];
      NICtoPC(recv, bound * 256, 4);
      HeaderReads(ram[..], bound, p);
      assert recv[1] == ram[256 * bound + 1] && recv[2] == ram[256 * bound + 2] && recv[3] == ram[256 * bound + 3];
      next, len := recv[1], (recv[2] + 256 * recv[3] - 4) % 0x1_0000;
    }

    /** net/ne2k/ne2k.c:232-236: a new piece with the data of the packet at page `bound`. */
    method ReadBody(bound: int, len: int, ghost p: seq<byte>) returns (buf: Msg)
      requires ram.Length == RAM && InRing(bound) && PagesFor(|p|) <= RING_PAGES && ImageAt(ram[..], bound, 0, p)
      requires len == |p| >= 1
      modifies cr
      ensures cr.written == 0x0A && cr.txp == old(cr.txp)
      ensures buf.Piece? && buf.len == |p| <= |buf.msg| && buf.msg[..buf.len] == p && buf.next == Nil
    {
      var data := new int[len + len % 2];
      NICtoPC(data, bound * 256 + 4, len);
      forall i | 0 <= i < len
        ensures data[i] == p[i]
      {
        DataRead(ram[..], bound, p, i);
      }
      buf := Piece(len, data[..], Nil);
    }

    /** include/net/ne2k/ne2k.h:200-206. */
    method GetCurrent() returns (v: int)
      modifies cr
      ensures v == curr && cr.written == 0x22 && cr.txp == old(cr.txp)
    {
      cr.Write(PAGE01 + START + DMA_ABORT);
      v := curr;
      cr.Write(START + DMA_ABORT);
    }

    /** net/ne2k/ne2k.c:227-230 with include/net/ne2k/ne2k.h:195-199: an empty ring. */
    method Reset()
      requires Valid()
      modifies this, cr
      ensures cr.written == 0x22 && cr.txp == old(cr.txp)
      ensures Valid() && pending == deposited == returned == [] && curr == 0x46 && bnry == 0x7F
    {
      cr.Write(PAGE01 + STOP + DMA_ABORT);
      curr := RECV_PAGE;
      cr.Write(START + DMA_ABORT);
      bnry := RECV_PAGE_END;
      pending, deposited, returned, used := [], [], [], 0;
    }

    /** net/ne2k/ne2k.c:232-237: take the oldest packet, whose header has been read. */
    method Consume(bound: int, next: int, len: int) returns (buf: Msg)
      requires Valid() && pending != [] && bound == Reader(bnry)
      requires next == PageAt(bound, PagesFor(|pending[0]|)) && len == |pending[0]|
      modifies this, cr
      ensures cr.written == 0x0A && cr.txp == old(cr.txp)
      ensures Valid() && curr == old(curr) && deposited == old(deposited)
      ensures buf.Piece? && buf.len == len <= |buf.msg| && buf.msg[..len] == old(pending[0]) && buf.next == Nil
      ensures pending == old(pending)[1..] && returned == old(returned) + [old(pending[0])]
      ensures Reader(bnry) == next && bnry == next - 1
    {
      ghost var first, rest := pending[0], pending[1..];
      assert pending == [first] + rest;
      ConsumeLaid(ram[..], bound, pending, used);
      buf := ReadBody(bound, len, first);
      bnry := next - 1;
      used, pending, returned := used - PagesFor(|first|), rest, returned + [first];
    }

    /** net/ne2k/ne2k.c:207-242. `memory` says whether `malloc` has room. A remote read stays in the
        command register; an empty ring and an emptied one leave it ready. */
    method Recv(memory: bool) returns (buf: Msg)
      requires Valid()
      modifies this, cr
      ensures Valid() && cr.txp == old(cr.txp)
      ensures cr.written == if old(pending) == [] || |old(pending)[0]| > 0x600 then 0x22 else 0x0A
      // nothing there, or no room for it
      ensures old(pending) == [] || (!memory && |old(pending)[0]| <= 0x600) ==>
                buf == Nil && pending == old(pending) && returned == old(returned) && bnry == old(bnry)
                    && curr == old(curr)
      // too long for the driver: everything is dropped
      ensures old(pending) != [] && |old(pending)[0]| > 0x600 ==>
                buf == Nil && pending == deposited == returned == [] && curr == 0x46 && bnry == 0x7F
      // the oldest packet, byte for byte
      ensures old(pending) != [] && |old(pending)[0]| <= 0x600 && memory ==>
                var p := old(pending)[0];
                && buf.Piece? && buf.len == |p| <= |buf.msg| && buf.msg[..buf.len] == p && buf.next == Nil
                && pending == old(pending)[1..] && returned == old(returned) + [p] && curr == old(curr)
                && Reader(bnry) == PageAt(old(Reader(bnry)), PagesFor(|p|)) == bnry + 1
      ensures old(pending) == [] || |old(pending)[0]| <= 0x600 ==> deposited == old(deposited)
    {
      var bound := (bnry + 1) % 256;
      var currnet := GetCurrent();
      buf := Nil;
      if bound > RECV_PAGE_END {
        bound := RECV_PAGE;
      }
      LaidUsed(ram[..], bound, 0, pending, used);
      if bound != currnet {
        var next, len := ReadHeader(bound, pending[0]);
        if next > RECV_PAGE_END || next < RECV_PAGE || len > 0x600 {
          Reset();
        } else if memory {
          buf := Consume(bound, next, len);
        }
      }
    }

    /** Writing below the receive pages leaves the ring alone. */
    twostate lemma RingKept()
      requires old(Valid()) && unchanged(this)
      requires forall a :: 256 * RECV_PAGE <= a < RAM ==> ram[a] == old(ram[a])
      ensures Valid()
    {
      LaidFrame(old(ram[..]), ram[..], Reader(bnry), 0, pending, used);
    }
  }

  lemma DepositLaid(ram: Ram, ram': Ram, base: int, pending: seq<seq<byte>>, used: nat, p: seq<byte>, status: byte,
                    next: int)
    requires |ram| == |ram'| == RAM && InRing(base) && |p| >= 1 && used + PagesFor(|p|) < RING_PAGES
    requires Laid(ram, base, 0, pending, used) && next == PageAt(base, used + PagesFor(|p|))
    requires |p| + 4 <= 256 * PagesFor(|p|)
    requires forall k {:trigger ImageByte(p, status, next, k)} :: 0 <= k < |p| + 4 ==>
               ram'[AddrAt(base, 256 * used + k)] == ImageByte(p, status, next, k)
    requires SameBytes(ram, ram', base, 0, 256 * used)
    ensures Laid(ram', base, 0, pending + [p], used + PagesFor(|p|))
  {
    LaidFrame(ram, ram', base, 0, pending, used);
    forall i | 1 <= i < |p| + 4
      ensures ImageByteAt(ram', base, used, p, i)
    {
      assert ImageByte(p, status, next, i) == ImageByte(p, 0, next, i);
    }
    LaidAppend(ram', base, 0, pending, used, p);
  }

  /** Reading the oldest packet moves the reader to the page its header names. */
  lemma ConsumeLaid(ram: Ram, base: int, pending: seq<seq<byte>>, used: nat)
    requires |ram| == RAM && InRing(base) && used < RING_PAGES && pending != [] && Laid(ram, base, 0, pending, used)
    ensures var n := PagesFor(|pending[0]|);
            var next := PageAt(base, n);
            && n <= used && InRing(next) && Reader(next - 1) == next
            && Laid(ram, next, 0, pending[1..], used - n) && PageAt(next, used - n) == PageAt(base, used)
  {
    var n := PagesFor(|pending[0]|);
    LaidUsed(ram, base, 0, pending, used);
    LaidShift(ram, base, n, pending[1..], used, n);
  }

  lemma HeaderReads(ram: Ram, base: int, p: seq<byte>)
    requires |ram| == RAM && InRing(base) && PagesFor(|p|) <= RING_PAGES && ImageAt(ram, base, 0, p)
    ensures ram[256 * base + 1] == PageAt(base, PagesFor(|p|))
    ensures ram[256 * base + 2] + 256 * ram[256 * base + 3] == |p| + 4
  {
    assert ImageByteAt(ram, base, 0, p, 1) && ImageByteAt(ram, base, 0, p, 2) && ImageByteAt(ram, base, 0, p, 3);
    assert AddrAt(base, 1) == 256 * base + 1 && AddrAt(base, 2) == 256 * base + 2 && AddrAt(base, 3) == 256 * base + 3;
  }

  lemma DataRead(ram: Ram, base: int, p: seq<byte>, i: nat)
    requires |ram| == RAM && InRing(base) && PagesFor(|p|) <= RING_PAGES && ImageAt(ram, base, 0, p) && i < |p|
    ensures 0 <= DmaAt(256 * base + 4, i) < RAM && ram[DmaAt(256 * base + 4, i)] == p[i]
  {
    assert |p| + 4 <= 256 * PagesFor(|p|);
    assert ImageByteAt(ram, base, 0, p, i + 4);
    assert DmaAt(256 * base + 4, i) == AddrAt(base, 256 * 0 + (i + 4));
  }
}
