/** Live allocations: which blocks are in use, and that their payload is left alone. */
module HeapLive {
  import opened Memory
  import opened HeapSpec
  import opened HeapInv
  import opened HeapRuns
  import opened HeapSteps
  import opened Frames

  ghost function Live(m: Mem, blocks: set<int>): set<int>
  {
    set b | b in blocks && State(m, b) == BUSY
  }

  ghost predicate PayloadKept(m: Mem, m': Mem, b: int)
  {
    Size(m', b) == Size(m, b) && forall a {:trigger W(m', a)} :: b + HDR <= a < End(m, b) ==> W(m', a) == W(m, a)
  }

  /** From `m0`, `blocks0` to `m`, `blocks` the live blocks stayed as they were, and only headers were written. */
  ghost predicate Carried(m0: Mem, blocks0: set<int>, m: Mem, blocks: set<int>, s: int)
  {
    && HeadersOnly(m0, m, blocks0 + blocks + {s})
    && Live(m, blocks) == Live(m0, blocks0)
    && forall b :: b in Live(m0, blocks0) ==> Size(m, b) == Size(m0, b)
  }

  lemma CoalescedCarries(m0: Mem, blocks0: set<int>, m: Mem, blocks: set<int>, s: int)
    requires Coalesced(m0, blocks0, m, blocks, s)
    ensures Carried(m0, blocks0, m, blocks, s)
  {
  }

  /** Writes to headers never fall into the payload of a block that both tilings have. */
  lemma HeadersMissPayload(m: Mem, blocks: set<int>, pages: set<int>, m': Mem, blocks': set<int>, pages': set<int>,
                           s: int, b: int)
    requires Tiled(m, blocks, pages) && Tiled(m', blocks', pages') && s + HDR <= KERNEL_SPACE
    requires b in blocks && b in blocks' && Size(m', b) == Size(m, b)
    requires HeadersOnly(m, m', blocks + blocks' + {s})
    ensures PayloadKept(m, m', b)
  {
    BlockPlace(m, blocks, pages, b);
    forall a | b + HDR <= a < End(m, b)
      ensures W(m', a) == W(m, a)
    {
      forall c | c in blocks + blocks' + {s}
        ensures a != c && a - 4 != c && a - 8 != c && a - 12 != c
      {
        if c in blocks { assert Ordered(m, b, c) && Ordered(m, c, b); BlockPlace(m, blocks, pages, c); }
        if c in blocks' { assert Ordered(m', b, c) && Ordered(m', c, b); BlockPlace(m', blocks', pages', c); }
      }
    }
  }

  /** A block in the list is adequate exactly when some run of free blocks is, once no two free blocks touch. */
  lemma FitsListed(m: Mem, l: seq<int>, blocks: set<int>, pages: set<int>, s: int)
    requires Inv(m, l, blocks, pages, {}) && s > 0
    ensures FirstFit(m, l, 0, s) < |l| ==> Fits(m, blocks, s)
    ensures (forall b :: b in blocks && State(m, b) == FREE ==> !FreeRight(m, b)) && Fits(m, blocks, s) ==>
              FirstFit(m, l, 0, s) < |l|
  {
    var j := FirstFit(m, l, 0, s);
    if j < |l| {
      assert j != 0 && l[j] in blocks;
      BlockPlace(m, blocks, pages, l[j]);
      RunCapCovers(m, blocks, pages, l[j]);
    }
    if (forall b :: b in blocks && State(m, b) == FREE ==> !FreeRight(m, b)) && Fits(m, blocks, s) {
      var b :| b in blocks && State(m, b) == FREE && RunCap(m, b) >= s;
      assert b in l;
      var i :| 0 <= i < |l| && l[i] == b;
      assert j <= i;
    }
  }

  lemma {:induction false} RunCapCovers(m: Mem, blocks: set<int>, pages: set<int>, b: int)
    requires Tiled(m, blocks, pages) && b in blocks
    ensures RunCap(m, b) >= Size(m, b) >= 4
    decreases PageOf(b) + PAGE - b
  {
    BlockPlace(m, blocks, pages, b);
    SamePage(m, blocks, pages, b);
    if FreeRight(m, b) {
      RunCapCovers(m, blocks, pages, End(m, b));
    }
  }

  /** `b` is the smallest free block of the heap `m`, `blocks` that holds `s` bytes. */
  ghost predicate BestFit(m: Mem, blocks: set<int>, b: int, s: int)
  {
    && b in blocks && State(m, b) == FREE && Size(m, b) >= s
    && forall c :: c in blocks && State(m, c) == FREE && Size(m, c) >= s ==> Size(m, b) <= Size(m, c)
  }

  /** The first adequate block of the sorted list is a best fit. */
  lemma FirstFitIsBest(m: Mem, l: seq<int>, blocks: set<int>, pages: set<int>, s: int)
    requires Inv(m, l, blocks, pages, {}) && s > 0 && FirstFit(m, l, 0, s) < |l|
    ensures 1 <= FirstFit(m, l, 0, s) && BestFit(m, blocks, l[FirstFit(m, l, 0, s)], s)
  {
    var j := FirstFit(m, l, 0, s);
    assert l[j] in blocks;
    forall c | c in blocks && State(m, c) == FREE && Size(m, c) >= s
      ensures Size(m, l[j]) <= Size(m, c)
    {
      assert c in l;
      var i :| 0 <= i < |l| && l[i] == c;
      assert j <= i && Size(m, l[j]) <= Size(m, l[i]);
    }
  }

  lemma AddReady(m: Mem, l: seq<int>, blocks: set<int>, pages: set<int>, outs: set<int>, x: int)
    requires Inv(m, l, blocks, pages, outs) && x in blocks && x in outs
    ensures Headers(m, l) && Chain(m, l) && Fresh(m, l, x)
  {
    InvHeaders(m, l, blocks, pages, outs);
    OutsUnlisted(m, l, blocks, pages, outs, x);
    BlockFresh(m, l, blocks, pages, outs, x);
  }

  /** One fresh page was added as a free block; nothing else but links changed. */
  ghost predicate Grown(m0: Mem, blocks0: set<int>, m: Mem, blocks: set<int>, s: int, p: int)
  {
    && p !in blocks0 && blocks == blocks0 + {p}
    && Size(m, p) == PAGE - HDR && State(m, p) == FREE
    && (forall b :: b in blocks0 ==> Size(m, b) == Size(m0, b) && State(m, b) == State(m0, b))
    && HeadersOnly(m0, m, blocks + {s})
  }

  /** The frames of the heap's pages are taken in the frame map. */
  ghost predicate Owned(c: seq<int>, pages: set<int>)
  {
    forall p :: p in pages ==> 0 <= p / PAGE < |c| && c[p / PAGE] != 0
  }

  lemma GrowReady(m: Mem, m1: Mem, l: seq<int>, blocks: set<int>, pages: set<int>, p: int)
    requires Inv(m, l, blocks, pages, {}) && NewPage(m, pages, p) && PageHeader(m, m1, p)
    ensures Headers(m1, l) && Chain(m1, l) && Fresh(m1, l, p)
  {
    GrowKeepsInv(m, m1, l, blocks, pages, p);
    AddReady(m1, l, blocks + {p}, pages + {p}, {p}, p);
  }

  lemma GrowEffect(m: Mem, m1: Mem, m2: Mem, l: seq<int>, j: int, blocks: set<int>, pages: set<int>, p: int)
    requires Inv(m, l, blocks, pages, {}) && NewPage(m, pages, p) && PageHeader(m, m1, p)
    requires j == FirstFit(m1, l, 0, Size(m1, p)) && Linked(m1, m2, l, 0, j, p)
    ensures j >= 1 && Inv(m2, InsertAt(l, j, p), blocks + {p}, pages + {p}, {})
    ensures Grown(m, blocks, m2, blocks + {p}, l[0], p)
  {
    GrowKeepsInv(m, m1, l, blocks, pages, p);
    var blocks', pages' := blocks + {p}, pages + {p};
    LinkKeepsInv(m1, m2, l, j, p, blocks', pages', {p});
    assert {p} - {p} == {};
    GrowFrame(m, m1, m2, InsertAt(l, j, p), blocks', p, l[0]);
  }

  lemma GrowFrame(m: Mem, m1: Mem, m2: Mem, l: seq<int>, blocks: set<int>, p: int, s: int)
    requires HeadersOnly(m, m1, {p}) && LinksOnly(m1, m2, l) && p in blocks
    requires forall i :: 0 <= i < |l| ==> l[i] in blocks + {s}
    ensures HeadersOnly(m, m2, blocks + {s})
  {
  }

  /** `b` was cut down to `s` bytes, the rest is a new free block; only headers were written. */
  ghost predicate Trimmed(m0: Mem, blocks0: set<int>, m: Mem, blocks: set<int>, s: int, b: int, size: int)
  {
    var n := b + HDR + size;
    && n !in blocks0 && blocks == blocks0 + {n}
    && Size(m, b) == size && Size(m, n) == Size(m0, b) - size - HDR && State(m, n) == FREE
    && (forall c :: c in blocks0 ==> State(m, c) == State(m0, c) && (c != b ==> Size(m, c) == Size(m0, c)))
    && HeadersOnly(m0, m, blocks + {s})
  }

  lemma TrimFrame(m: Mem, m1: Mem, m3: Mem, l: seq<int>, blocks: set<int>, b: int, size: int, s: int)
    requires RestHeader(m, m1, b, size) && LinksOnly(Put(m1, b, size), m3, l)
    requires forall i :: 0 <= i < |l| ==> l[i] in blocks + {s}
    requires b in blocks && b + HDR + size in blocks
    ensures HeadersOnly(m, m3, blocks + {s})
  {
  }

  lemma TrimEffect(m: Mem, m1: Mem, m2: Mem, m3: Mem, l: seq<int>, j: int, blocks: set<int>, blocks': set<int>,
                   pages: set<int>,
                   b: int, n: int, s: int)
    requires Inv(m, l, blocks, pages, {b}) && b in blocks && Splittable(m, b, s) && RestHeader(m, m1, b, s)
    requires n == b + HDR + s && blocks' == blocks + {n}
    requires j == FirstFit(m1, l, 0, Size(m1, n)) && Linked(m1, m2, l, 0, j, n) && m3 == Put(m2, b, s)
    ensures j >= 1 && Inv(m3, InsertAt(l, j, n), blocks', pages, {b})
    ensures Trimmed(m, blocks, m3, blocks', l[0], b, s)
  {
    SplitEffect(m, m1, m2, m3, l, j, blocks, blocks', pages, b, n, s);
    var l' := InsertAt(l, j, n);
    TrimHeaders(m, m1, m3, l', blocks', pages, b, s);
    IsTrimmed(m, blocks, m3, blocks', l[0], b, n, s);
  }

  lemma TrimHeaders(m: Mem, m1: Mem, m3: Mem, l: seq<int>, blocks: set<int>, pages: set<int>, b: int, s: int)
    requires Inv(m3, l, blocks, pages, {b}) && b in blocks && b + HDR + s in blocks
    requires RestHeader(m, m1, b, s) && LinksOnly(Put(m1, b, s), m3, l)
    ensures HeadersOnly(m, m3, blocks + {l[0]})
  {
    ListedBlocks(m3, l, blocks, pages, {b});
    TrimFrame(m, m1, m3, l, blocks, b, s, l[0]);
  }

  lemma IsTrimmed(m: Mem, blocks: set<int>, m3: Mem, blocks': set<int>, l0: int, b: int, n: int, s: int)
    requires n == b + HDR + s && n !in blocks && blocks' == blocks + {n} && HeadersOnly(m, m3, blocks' + {l0})
    requires Size(m3, b) == s && Size(m3, n) == Size(m, b) - s - HDR && State(m3, n) == FREE
    requires forall c :: c in blocks ==> State(m3, c) == State(m, c) && (c != b ==> Size(m3, c) == Size(m, c))
    ensures Trimmed(m, blocks, m3, blocks', l0, b, s)
  {
  }

  lemma ListedBlocks(m: Mem, l: seq<int>, blocks: set<int>, pages: set<int>, outs: set<int>)
    requires Inv(m, l, blocks, pages, outs)
    ensures forall i :: 0 <= i < |l| ==> l[i] in blocks + {l[0]}
  {
    assert forall i :: 1 <= i < |l| ==> l[i] in blocks;
  }

  lemma LinksAreHeaders(m: Mem, m': Mem, l: seq<int>, blocks: set<int>, s: int)
    requires LinksOnly(m, m', l) && forall i :: 0 <= i < |l| ==> l[i] in blocks + {s}
    ensures HeadersOnly(m, m', blocks + {s})
  {
  }

  lemma HeadersOnlyTrans(m0: Mem, m1: Mem, m2: Mem, xs: set<int>, ys: set<int>)
    requires HeadersOnly(m0, m1, xs) && HeadersOnly(m1, m2, ys) && xs <= ys
    ensures HeadersOnly(m0, m2, ys)
  {
  }

  /** `b` taken off the list, trimmed if the rest can hold a block, and marked busy. */
  ghost predicate Carved(m0: Mem, blocks0: set<int>, m: Mem, blocks: set<int>, s: int, b: int, size: int)
  {
    var n, split := b + HDR + size, Size(m0, b) >= size + 4 + HDR;
    && b in blocks && State(m, b) == BUSY && Size(m, b) == (if split then size else Size(m0, b))
    && blocks == (if split then blocks0 + {n} else blocks0)
    && (split ==> n !in blocks0 && State(m, n) == FREE && Size(m, n) == Size(m0, b) - size - HDR)
    && (forall c :: c in blocks0 && c != b ==> State(m, c) == State(m0, c) && Size(m, c) == Size(m0, c))
    && HeadersOnly(m0, m, blocks + {s})
  }

  lemma DetachEffect(m: Mem, m1: Mem, l: seq<int>, k: int, blocks: set<int>, pages: set<int>)
    requires Inv(m, l, blocks, pages, {}) && 1 <= k < |l| && Unlinked(m, m1, l, k)
    ensures Inv(m1, RemoveAt(l, k), blocks, pages, {l[k]})
    ensures forall c :: c in blocks ==> State(m1, c) == State(m, c) && Size(m1, c) == Size(m, c)
    ensures HeadersOnly(m, m1, blocks + {l[0]})
  {
    UnlinkKeepsInv(m, m1, l, k, blocks, pages, {});
    assert {} + {l[k]} == {l[k]};
    LinksAreHeaders(m, m1, RemoveAt(l, k), blocks, l[0]);
  }

  lemma MarkEffect(m: Mem, m': Mem, l: seq<int>, blocks: set<int>, pages: set<int>, b: int)
    requires Inv(m, l, blocks, pages, {b}) && b in blocks && Marked(m, m', b, BUSY)
    ensures Inv(m', l, blocks, pages, {})
    ensures forall c :: c in blocks ==> Size(m', c) == Size(m, c) && (c != b ==> State(m', c) == State(m, c))
    ensures HeadersOnly(m, m', blocks + {l[0]})
  {
    OutsUnlisted(m, l, blocks, pages, {b}, b);
    MarkKeepsInv(m, m', l, blocks, pages, {b}, b, BUSY);
  }

  lemma CarveEffect(m0: Mem, m1: Mem, m2: Mem, m3: Mem, blocks0: set<int>, blocks: set<int>, s: int, b: int, size: int)
    requires b in blocks0 && HeadersOnly(m0, m1, blocks0 + {s})
    requires forall c :: c in blocks0 ==> State(m1, c) == State(m0, c) && Size(m1, c) == Size(m0, c)
    requires if Size(m1, b) >= size + 4 + HDR then Trimmed(m1, blocks0, m2, blocks, s, b, size)
             else m2 == m1 && blocks == blocks0
    requires State(m3, b) == BUSY && HeadersOnly(m2, m3, blocks + {s})
    requires forall c :: c in blocks ==> Size(m3, c) == Size(m2, c) && (c != b ==> State(m3, c) == State(m2, c))
    ensures Carved(m0, blocks0, m3, blocks, s, b, size)
  {
  }

  lemma CarriedTrans(m0: Mem, b0: set<int>, m1: Mem, b1: set<int>, m2: Mem, b2: set<int>, s: int)
    requires Carried(m0, b0, m1, b1, s) && Carried(m1, b1, m2, b2, s) && b1 <= b0 + b2
    ensures Carried(m0, b0, m2, b2, s)
  {
  }

  lemma GrownCarries(m0: Mem, b0: set<int>, m: Mem, b: set<int>, s: int, p: int)
    requires Grown(m0, b0, m, b, s, p)
    ensures Carried(m0, b0, m, b, s)
  {
  }

  /** No block can hold more than a page without its header, so the list has no answer for more. */
  lemma OversizeUnlisted(m: Mem, l: seq<int>, blocks: set<int>, pages: set<int>, s: int)
    requires Inv(m, l, blocks, pages, {}) && s > 4080
    ensures FirstFit(m, l, 0, s) == |l|
  {
    forall i | 0 <= i < |l|
      ensures Size(m, l[i]) < s
    {
      if i > 0 { assert l[i] in blocks && BlockOk(m, blocks, pages, l[i]); }
    }
  }

  /** A request of size 0 is answered with the sentinel itself, which is why `malloc` must not be
      asked for 0 bytes. */
  lemma ZeroFindsSentinel(m: Mem, l: seq<int>, blocks: set<int>, pages: set<int>)
    requires Inv(m, l, blocks, pages, {})
    ensures l[FirstFit(m, l, 0, 0)] == l[0] && l[0] !in blocks
  {
    if l[0] in blocks { BlockPlace(m, blocks, pages, l[0]); }
  }

  /** After growing, the new page is the block that is found. */
  lemma GrownIsFound(m0: Mem, l0: seq<int>, blocks0: set<int>, pages0: set<int>, m: Mem, l: seq<int>, pages: set<int>,
                     p: int, s: int)
    requires Inv(m0, l0, blocks0, pages0, {}) && 0 < s <= PAGE - HDR && FirstFit(m0, l0, 0, s) == |l0|
    requires Inv(m, l, blocks0 + {p}, pages, {}) && Grown(m0, blocks0, m, blocks0 + {p}, l[0], p)
    ensures FirstFit(m, l, 0, s) < |l| && l[FirstFit(m, l, 0, s)] == p
  {
    var j := FirstFit(m, l, 0, s);
    assert p in l;
    var i :| 0 <= i < |l| && l[i] == p;
    assert j <= i;
    forall k | 0 <= k < |l| && l[k] != p
      ensures Size(m, l[k]) < s
    {
      if k > 0 {
        assert l[k] in blocks0 + {p} && State(m, l[k]) == FREE && State(m0, l[k]) == FREE;
        assert l[k] in l0;
      }
    }
  }

  lemma NothingListed(m: Mem, l: seq<int>, blocks: set<int>, pages: set<int>, s: int)
    requires Inv(m, l, blocks, pages, {}) && At(l, FirstFit(m, l, 0, s)) == 0
    ensures FirstFit(m, l, 0, s) == |l|
  {
    InvHeaders(m, l, blocks, pages, {});
  }

  /** kernel/malloc.c:86. */
  function Round4(size: int): (r: int)
    requires size >= 0
    ensures r % 4 == 0 && size <= r < size + 4
  {
    (size + 3) / 4 * 4
  }

  /** The live blocks of `m0` other than `b` are live in `m` with the same size and contents. */
  ghost predicate OthersKept(m0: Mem, blocks0: set<int>, m: Mem, b: int)
  {
    forall c :: c in Live(m0, blocks0) && c != b ==> PayloadKept(m0, m, c)
  }

  lemma OthersKeptIfHeadersOnly(m0: Mem, blocks0: set<int>, pages0: set<int>, m: Mem, blocks: set<int>,
                                pages: set<int>, s: int, b: int)
    requires Tiled(m0, blocks0, pages0) && Tiled(m, blocks, pages) && s + HDR <= KERNEL_SPACE
    requires HeadersOnly(m0, m, blocks0 + blocks + {s})
    requires forall c :: c in Live(m0, blocks0) && c != b ==> c in blocks && Size(m, c) == Size(m0, c)
    ensures OthersKept(m0, blocks0, m, b)
  {
    forall c | c in Live(m0, blocks0) && c != b
      ensures PayloadKept(m0, m, c)
    {
      HeadersMissPayload(m0, blocks0, pages0, m, blocks, pages, s, c);
    }
  }

  lemma CarvedLive(m0: Mem, b0: set<int>, m1: Mem, b1: set<int>, m2: Mem, b2: set<int>, s: int, b: int, size: int)
    requires Carried(m0, b0, m1, b1, s) && Carved(m1, b1, m2, b2, s, b, size)
    requires b in b1 && State(m1, b) == FREE && b1 <= b0 + b2
    ensures b !in Live(m0, b0) && Live(m2, b2) == Live(m0, b0) + {b}
    ensures HeadersOnly(m0, m2, b0 + b2 + {s})
    ensures forall c :: c in Live(m0, b0) ==> c in b2 && Size(m2, c) == Size(m0, c)
  {
  }

  /** At most 16 bytes more than asked for: a longer rest is split off. */
  lemma CarvedWaste(m1: Mem, b1: set<int>, pages: set<int>, m2: Mem, b2: set<int>, s: int, b: int, size: int)
    requires Tiled(m1, b1, pages) && b in b1 && size % 4 == 0 && Size(m1, b) >= size
    requires Carved(m1, b1, m2, b2, s, b, size)
    ensures size <= Size(m2, b) <= size + 16 && b % 4 == 0
  {
    assert BlockOk(m1, b1, pages, b);
  }

  /** The words in front of address `p` are the header of a block in that state, with its size first. */
  ghost predicate BehindHeader(m: Mem, p: int, state: int)
  {
    p % 4 == 0 && W(m, p - 4) == State(m, p - 16) == state && W(m, p - 16) == Size(m, p - 16)
  }

  /** The outcome of a successful `malloc` that chose `b` from the heap `m1`, `b1`. */
  ghost predicate Allocated(m0: Mem, b0: set<int>, m1: Mem, b1: set<int>, m: Mem, blocks: set<int>, s: int, b: int,
                            size: int)
  {
    // the block is the best of those available, and little of it is wasted
    && BestFit(m1, b1, b, size)
    && Carved(m1, b1, m, blocks, s, b, size)
    && size <= Size(m, b) <= size + 16 && b % 4 == 0
    // it was not in use, and it is the only block that now is as well
    && b !in Live(m0, b0) && Live(m, blocks) == Live(m0, b0) + {b}
    // nothing but headers was written, and no header lies in a live payload
    && HeadersOnly(m0, m, b0 + blocks + {s})
    && OthersKept(m0, b0, m, b)
  }

  lemma MallocEffect(m0: Mem, b0: set<int>, g0: set<int>, m1: Mem, l1: seq<int>, b1: set<int>, g1: set<int>,
                     m2: Mem, b2: set<int>, s: int, b: int, size: int)
    requires Tiled(m0, b0, g0) && s + HDR <= KERNEL_SPACE && Carried(m0, b0, m1, b1, s)
    requires Inv(m1, l1, b1, g1, {}) && size > 0 && size % 4 == 0
    requires FirstFit(m1, l1, 0, size) < |l1| && l1[FirstFit(m1, l1, 0, size)] == b
    requires Tiled(m2, b2, g1) && Carved(m1, b1, m2, b2, s, b, size)
    ensures Allocated(m0, b0, m1, b1, m2, b2, s, b, size)
  {
    FirstFitIsBest(m1, l1, b1, g1, size);
    CarvedLive(m0, b0, m1, b1, m2, b2, s, b, size);
    CarvedWaste(m1, b1, g1, m2, b2, s, b, size);
    OthersKeptIfHeadersOnly(m0, b0, g0, m2, b2, g1, s, b);
  }

  /** The outcome of `free`: `b` is free, joined with its right neighbour if that was free. */
  ghost predicate Freed(m0: Mem, b0: set<int>, m: Mem, blocks: set<int>, s: int, b: int)
  {
    var n, joined := End(m0, b), FreeRight(m0, b);
    && b in blocks && State(m, b) == FREE
    && Size(m, b) == (if joined then Size(m0, b) + HDR + Size(m0, n) else Size(m0, b))
    && blocks == (if joined then b0 - {n} else b0)
    && (forall c :: c in blocks && c != b ==> State(m, c) == State(m0, c) && Size(m, c) == Size(m0, c))
    && Live(m, blocks) == Live(m0, b0) - {b}
    && HeadersOnly(m0, m, b0 + {s})
    && OthersKept(m0, b0, m, b)
  }

  lemma ReleaseEffect(m1: Mem, m2: Mem, m3: Mem, l: seq<int>, j: int, blocks: set<int>, pages: set<int>, b: int)
    requires Inv(m1, l, blocks, pages, {}) && b in blocks && State(m1, b) == BUSY && b !in l
    requires Marked(m1, m2, b, FREE)
    requires j == FirstFit(m2, l, 0, Size(m2, b)) && Linked(m2, m3, l, 0, j, b)
    ensures j >= 1 && Inv(m3, InsertAt(l, j, b), blocks, pages, {})
    ensures State(m3, b) == FREE && HeadersOnly(m1, m3, blocks + {l[0]})
    ensures forall c :: c in blocks ==> Size(m3, c) == Size(m1, c) && (c != b ==> State(m3, c) == State(m1, c))
  {
    MarkKeepsInv(m1, m2, l, blocks, pages, {}, b, FREE);
    LinkKeepsInv(m2, m3, l, j, b, blocks, pages, {b});
    assert {b} - {b} == {};
    LinksAreHeaders(m2, m3, InsertAt(l, j, b), blocks, l[0]);
    HeadersOnlyTrans(m1, m2, m3, blocks + {l[0]}, blocks + {l[0]});
  }

  lemma ReleaseReady(m1: Mem, m2: Mem, l: seq<int>, blocks: set<int>, pages: set<int>, b: int)
    requires Inv(m1, l, blocks, pages, {}) && b in blocks && b !in l && Marked(m1, m2, b, FREE)
    ensures Headers(m2, l) && Chain(m2, l) && Fresh(m2, l, b)
  {
    MarkKeepsInv(m1, m2, l, blocks, pages, {}, b, FREE);
    AddReady(m2, l, blocks, pages, {b}, b);
  }

  lemma BusyUnlisted(m: Mem, l: seq<int>, blocks: set<int>, pages: set<int>, outs: set<int>, b: int)
    requires Inv(m, l, blocks, pages, outs) && b in blocks && State(m, b) == BUSY
    ensures b !in l
  {
    BlockPlace(m, blocks, pages, b);
    forall i | 1 <= i < |l|
      ensures l[i] != b
    {
      assert l[i] in blocks;
    }
  }

  lemma FreeEffect(m0: Mem, b0: set<int>, g: set<int>, m1: Mem, b1: set<int>, m3: Mem, s: int, b: int)
    requires Tiled(m0, b0, g) && Tiled(m3, b1, g) && s + HDR <= KERNEL_SPACE && b in b0 && State(m0, b) == BUSY
    requires if FreeRight(m0, b) then End(m0, b) in b0 && End(m0, b) != b && b1 == b0 - {End(m0, b)}
                                      && Merged(m0, m1, b0, b) && HeadersOnly(m0, m1, b0 + {s})
             else b1 == b0 && m1 == m0
    requires State(m3, b) == FREE && HeadersOnly(m1, m3, b1 + {s})
    requires forall c :: c in b1 ==> Size(m3, c) == Size(m1, c) && (c != b ==> State(m3, c) == State(m1, c))
    ensures Freed(m0, b0, m3, b1, s, b)
  {
    assert b0 + b1 + {s} == b0 + {s};
    forall c
      ensures c in Live(m3, b1) <==> c in Live(m0, b0) - {b}
    {
    }
    OthersKeptIfHeadersOnly(m0, b0, g, m3, b1, g, s, b);
  }

  /** The pages in `g` that are not in `g0` were free before, and no frame was given back. */
  ghost predicate GrewFresh(g0: set<int>, c0: seq<int>, g: set<int>, c: seq<int>)
  {
    && g0 <= g && TakenMore(c0, c)
    && forall p :: p in g && p !in g0 ==> 0 <= p / PAGE < |c0| && c0[p / PAGE] == 0
  }

  /** Exactly the page at `p` was taken, which is frame `f`. */
  ghost predicate OnePageMore(g0: set<int>, c0: seq<int>, g: set<int>, c: seq<int>, p: int, f: int)
  {
    && p == f * 0x1000 && p !in g0 && g == g0 + {p}
    && 0 <= f < |c0| && c == c0[f := 1]
  }

  lemma GrewFreshStep(g0: set<int>, c0: seq<int>, g: set<int>, c: seq<int>, p: int)
    requires GrewFresh(g0, c0, g, c) && 0 <= p / PAGE < |c| && c[p / PAGE] == 0
    ensures GrewFresh(g0, c0, g + {p}, c[p / PAGE := 1])
  {
  }
}
