/** The receive ring of the NE2000 in the adapter's RAM: pages 0x46 to 0x7F, 256 bytes each. */
module Ring {
  import opened ByteOrder

  const RECV_PAGE: int := 0x46
  const RECV_PAGE_END: int := 0x7F
  const RING_PAGES: int := RECV_PAGE_END - RECV_PAGE + 1
  const RING_BYTES: int := 256 * RING_PAGES
  const RAM: int := 0x8000

  type Ram = seq<int>

  /** Page `k` pages behind page `base`, going round. */
  function PageAt(base: int, k: int): (p: int)
    ensures 0x46 <= base <= 0x7F && 0 <= k <= 58 ==> 0x46 <= p <= 0x7F && (p == base + k || p == base + k - 58)
  {
    if base + k > RECV_PAGE_END then base + k - RING_PAGES else base + k
  }

  /** Address `i` bytes behind DMA address `dma`; the adapter goes round at the end of the ring. */
  function DmaAt(dma: int, i: int): (a: int)
    ensures 0x4600 <= dma < 0x8000 && 0 <= i <= 0x3A00 ==>
              0x4600 <= a < 0x8000 && (a == dma + i || a == dma + i - 0x3A00)
  {
    if dma + i >= RAM then dma + i - RING_BYTES else dma + i
  }

  /** Address `off` bytes behind the start of page `base`. */
  function AddrAt(base: int, off: int): int { DmaAt(256 * base, off) }

  predicate InRing(page: int) { RECV_PAGE <= page <= RECV_PAGE_END }

  /** Pages that a packet of `n` bytes takes with its header of 4. */
  function PagesFor(n: nat): (k: nat)
    ensures 256 * k >= n + 4 > 256 * (k - 1)
  {
    (n + 4 + 255) / 256
  }

  /** Byte `i` of the image of packet `p` in the ring: status, next page, length with header, data. */
  function ImageByte(p: seq<byte>, status: int, next: int, i: nat): int
    requires i < |p| + 4
  {
    if i == 0 then status
    else if i == 1 then next
    else if i == 2 then (|p| + 4) % 256
    else if i == 3 then (|p| + 4) / 256
    else p[i - 4]
  }

  /** The image of `p` lies `off` pages behind `base`. The status byte may be anything. */
  ghost predicate ImageAt(ram: Ram, base: int, off: nat, p: seq<byte>)
    requires |ram| == RAM && InRing(base) && off + PagesFor(|p|) <= RING_PAGES
  {
    forall i {:trigger ImageByteAt(ram, base, off, p, i)} :: 1 <= i < |p| + 4 ==> ImageByteAt(ram, base, off, p, i)
  }

  ghost predicate ImageByteAt(ram: Ram, base: int, off: nat, p: seq<byte>, i: nat)
    requires |ram| == RAM && InRing(base) && off + PagesFor(|p|) <= RING_PAGES && i < |p| + 4
  {
    ram[AddrAt(base, 256 * off + i)] == ImageByte(p, 0, PageAt(base, off + PagesFor(|p|)), i) || i == 0
  }

  /** The packets `pending` lie one behind the other from `off` to `used` pages behind `base`. */
  ghost predicate Laid(ram: Ram, base: int, off: nat, pending: seq<seq<byte>>, used: nat)
    requires |ram| == RAM && InRing(base)
    decreases |pending|
  {
    if pending == [] then off == used
    else
      && |pending[0]| >= 1
      && off + PagesFor(|pending[0]|) <= RING_PAGES
      && ImageAt(ram, base, off, pending[0])
      && Laid(ram, base, off + PagesFor(|pending[0]|), pending[1..], used)
  }

  lemma {:induction false} LaidUsed(ram: Ram, base: int, off: nat, pending: seq<seq<byte>>, used: nat)
    requires |ram| == RAM && InRing(base) && Laid(ram, base, off, pending, used)
    ensures off <= used && (pending != [] ==> off + PagesFor(|pending[0]|) <= used)
    decreases |pending|
  {
    if pending != [] { LaidUsed(ram, base, off + PagesFor(|pending[0]|), pending[1..], used); }
  }

  /** Reading on from a later page changes the point of view only. */
  lemma {:induction false} LaidShift(ram: Ram, base: int, off: nat, pending: seq<seq<byte>>, used: nat, k: nat)
    requires |ram| == RAM && InRing(base) && k <= off <= used < RING_PAGES
    requires Laid(ram, base, off, pending, used)
    ensures InRing(PageAt(base, k)) && Laid(ram, PageAt(base, k), off - k, pending, used - k)
    decreases |pending|
  {
    LaidUsed(ram, base, off, pending, used);
    if pending != [] {
      var p := pending[0];
      var n := PagesFor(|p|);
      LaidShift(ram, base, off + n, pending[1..], used, k);
      var base', off' := PageAt(base, k), off - k;
      forall i | 1 <= i < |p| + 4
        ensures ImageByteAt(ram, base', off', p, i)
      {
        assert ImageByteAt(ram, base, off, p, i);
        assert i < 256 * n;
      }
    }
  }

  /** Bytes from `lo` to `hi` bytes behind `base` are the same in both. */
  ghost predicate SameBytes(ram: Ram, ram': Ram, base: int, lo: int, hi: int)
    requires |ram| == |ram'| == RAM && InRing(base) && 0 <= lo && hi <= RING_BYTES
  {
    forall o {:trigger AddrAt(base, o)} :: lo <= o < hi ==> ram'[AddrAt(base, o)] == ram[AddrAt(base, o)]
  }

  lemma {:induction false} LaidFrame(ram: Ram, ram': Ram, base: int, off: nat, pending: seq<seq<byte>>, used: nat)
    requires |ram| == |ram'| == RAM && InRing(base) && used < RING_PAGES
    requires Laid(ram, base, off, pending, used) && SameBytes(ram, ram', base, 0, 256 * used)
    ensures Laid(ram', base, off, pending, used)
    decreases |pending|
  {
    LaidUsed(ram, base, off, pending, used);
    if pending != [] {
      var p := pending[0];
      LaidFrame(ram, ram', base, off + PagesFor(|p|), pending[1..], used);
      forall i | 1 <= i < |p| + 4
        ensures ImageByteAt(ram', base, off, p, i)
      {
        assert ImageByteAt(ram, base, off, p, i);
        assert 256 * off + i < 256 * used;
      }
    }
  }

  /** One packet more at the end. */
  lemma {:induction false} LaidAppend(ram: Ram, base: int, off: nat, pending: seq<seq<byte>>, used: nat, p: seq<byte>)
    requires |ram| == RAM && InRing(base) && |p| >= 1 && used + PagesFor(|p|) <= RING_PAGES
    requires Laid(ram, base, off, pending, used) && ImageAt(ram, base, used, p)
    ensures Laid(ram, base, off, pending + [p], used + PagesFor(|p|))
    decreases |pending|
  {
    if pending == [] {
      assert (pending + [p])[1..] == [];
    } else {
      LaidAppend(ram, base, off + PagesFor(|pending[0]|), pending[1..], used, p);
      assert (pending + [p])[1..] == pending[1..] + [p];
    }
  }

  /** The driver's reading of the boundary register: the page it looks at next (net/ne2k/ne2k.c:213-216). */
  function Reader(bnry: int): (page: int)
    ensures 0x45 <= bnry <= 0x7F ==> page == if bnry == 0x7F then 0x46 else bnry + 1
  {
    var bound := (bnry + 1) % 256;
    if bound > RECV_PAGE_END then RECV_PAGE else bound
  }

  /** The adapter's own guard compares the pages it fills with the raw boundary register. */
  ghost predicate RawGuard(bnry: int, used: nat, n: nat)
  {
    forall k {:trigger PageAt(Reader(bnry), k)} :: used <= k < used + n ==> PageAt(Reader(bnry), k) != bnry
  }

  /** After a packet that ended on the last page the driver writes 0x45, a page outside the ring.
      In every other state the raw guard is the same as stopping short of the reader; in that state
      it guards nothing. */
  lemma RawGuardExact(bnry: int)
    requires RECV_PAGE - 1 <= bnry <= RECV_PAGE_END
    ensures (forall used: nat, n: nat :: used + n <= RING_PAGES && n > 0 ==>
              (RawGuard(bnry, used, n) <==> used + n < RING_PAGES))
            <==> bnry >= RECV_PAGE
  {
    if bnry >= RECV_PAGE {
      forall used: nat, n: nat | used + n <= RING_PAGES && n > 0
        ensures RawGuard(bnry, used, n) <==> used + n < RING_PAGES
      {
        assert PageAt(Reader(bnry), RING_PAGES - 1) == bnry;
      }
    } else {
      assert RawGuard(bnry, 0, RING_PAGES);
    }
  }
}
