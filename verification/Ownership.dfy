/** Heap and address space over one memory: each leaves the other's frames alone. */
module Ownership {
  import opened Memory
  import opened HeapSpec
  import opened HeapInv
  import opened HeapLive
  import opened Frames
  import opened PageWalk
  import opened PagingSpec

  /** Words of the heap's pages and of low memory, where the sentinel is, agree. */
  ghost predicate HeapWordsKept(m: Mem, m': Mem, pages: set<int>)
  {
    && |m'| == |m|
    && forall a {:trigger W(m', a)} :: a < KERNEL_SPACE || PageOf(a) in pages ==> W(m', a) == W(m, a)
  }

  lemma BlockPages(m: Mem, blocks: set<int>, pages: set<int>, b: int, a: int)
    requires Tiled(m, blocks, pages) && b in blocks && b <= a < End(m, b)
    ensures PageOf(a) == PageOf(b) && PageOf(a) in pages && KERNEL_SPACE <= PageOf(a)
  {
    assert BlockOk(m, blocks, pages, b);
  }

  lemma KeptBlock(m: Mem, m': Mem, blocks: set<int>, pages: set<int>, b: int)
    requires Tiled(m, blocks, pages) && b in blocks && HeapWordsKept(m, m', pages)
    ensures Size(m', b) == Size(m, b) && Next(m', b) == Next(m, b) && Root(m', b) == Root(m, b)
            && State(m', b) == State(m, b)
    ensures PayloadKept(m, m', b)
  {
    BlockPlace(m, blocks, pages, b);
    forall a | b <= a < End(m, b)
      ensures W(m', a) == W(m, a)
    {
      BlockPages(m, blocks, pages, b, a);
    }
  }

  lemma HeapFrame(m: Mem, m': Mem, l: seq<int>, blocks: set<int>, pages: set<int>)
    requires Inv(m, l, blocks, pages, {}) && HeapWordsKept(m, m', pages)
    ensures Inv(m', l, blocks, pages, {})
    ensures Live(m', blocks) == Live(m, blocks) && OthersKept(m, blocks, m', 0)
  {
    forall b | b in blocks
      ensures Size(m', b) == Size(m, b) && State(m', b) == State(m, b) && PayloadKept(m, m', b)
    {
      KeptBlock(m, m', blocks, pages, b);
    }
    TiledFrame(m, m', blocks, pages);
    forall i | 0 <= i < |l|
      ensures Size(m', l[i]) == Size(m, l[i]) && Next(m', l[i]) == Next(m, l[i]) && Root(m', l[i]) == Root(m, l[i])
    {
      if i > 0 {
        assert l[i] in blocks;
        KeptBlock(m, m', blocks, pages, l[i]);
      }
    }
    ListFrame(m, m', l);
    ExactFrame(m, m', l, blocks);
  }

  lemma ExactFrame(m: Mem, m': Mem, l: seq<int>, blocks: set<int>)
    requires Exact(m, l, blocks, {}) && forall b :: b in blocks ==> State(m', b) == State(m, b)
    ensures Exact(m', l, blocks, {})
  {
  }

  /** Header writes stay in the heap's pages and in the sentinel. */
  lemma HeadersStayHome(m: Mem, b0: set<int>, g0: set<int>, m': Mem, b1: set<int>, g1: set<int>, s: int, a: int)
    requires Tiled(m, b0, g0) && Tiled(m', b1, g1) && s + HDR <= KERNEL_SPACE
    requires HeadersOnly(m, m', b0 + b1 + {s})
    requires PageOf(a) !in g0 && PageOf(a) !in g1 && KERNEL_SPACE <= a
    ensures W(m', a) == W(m, a)
  {
    forall c | c in b0 + b1 + {s}
      ensures !(c <= a < c + HDR)
    {
      if c in b0 && c <= a < c + HDR { BlockPlace(m, b0, g0, c); BlockPages(m, b0, g0, c, a); }
      if c in b1 && c <= a < c + HDR { BlockPlace(m', b1, g1, c); BlockPages(m', b1, g1, c, a); }
    }
  }

  /** The heap has no page that the walk reads, and no page that a fault was served with. */
  ghost predicate HeapApart(m: Mem, dir: int, mapped: map<int, int>, pages: set<int>)
  {
    && (forall p :: p in pages ==> !WalkPage(m, dir, p))
    && forall p, n :: p in pages && n in mapped ==> mapped[n] != p
  }

  /** Memory that agrees on the pages of the walk, with no frame given back, keeps the address space. */
  lemma SpaceFrame(m: Mem, c: seq<int>, m': Mem, c': seq<int>, dir: int, kmem: int, mapped: map<int, int>)
    requires TablesInv(m, c, dir, kmem) && Demand(m, c, dir, kmem, mapped) && 0 <= kmem <= KER_MM_SIZE
    requires |m'| == |m| && forall a :: WalkPage(m, dir, PageOf(a)) ==> W(m', a) == W(m, a)
    requires TakenMore(c, c')
    ensures TablesInv(m', c', dir, kmem) && Demand(m', c', dir, kmem, mapped)
    ensures (forall p :: WalkPage(m', dir, p) <==> WalkPage(m, dir, p)) && WalksKept(m, m', dir)
  {
    WalkFrame(m, m', dir, kmem);
    TablesTakenMore(m, c, c', dir, kmem);
    TablesFrame(m, m', c', dir, kmem);
    forall n | n in mapped
      ensures DemandPage(m', dir, kmem, n, mapped[n]) && DataFrame(m', c', dir, mapped[n])
    {
      assert DemandPage(m, dir, kmem, n, mapped[n]) && DataFrame(m, c, dir, mapped[n]);
    }
  }

  // ----- heap operations and the address space -----

  /** An operation of the heap, from `m0`, `c0` to `m`, `c`, that took at most one fresh page. */
  ghost predicate HeapMove(m0: Mem, b0: set<int>, g0: set<int>, c0: seq<int>, m: Mem, b: set<int>, g: set<int>,
                           c: seq<int>, s: int)
  {
    && Tiled(m0, b0, g0) && Tiled(m, b, g) && s + HDR <= KERNEL_SPACE
    && HeadersOnly(m0, m, b0 + b + {s})
    && TakenMore(c0, c)
    && forall p :: p in g && p !in g0 ==> 0 <= p / PAGE < |c0| && c0[p / PAGE] == 0
  }

  lemma HeapMoveKeepsSpace(m0: Mem, b0: set<int>, g0: set<int>, c0: seq<int>, m: Mem, b: set<int>, g: set<int>,
                           c: seq<int>, s: int,
                           dir: int, kmem: int, mapped: map<int, int>)
    requires HeapMove(m0, b0, g0, c0, m, b, g, c, s) && 0 <= kmem <= KER_MM_SIZE
    requires TablesInv(m0, c0, dir, kmem) && Demand(m0, c0, dir, kmem, mapped) && HeapApart(m0, dir, mapped, g0)
    ensures TablesInv(m, c, dir, kmem) && Demand(m, c, dir, kmem, mapped) && HeapApart(m, dir, mapped, g)
    ensures WalksKept(m0, m, dir)
  {
    forall p | p in g
      ensures !WalkPage(m0, dir, p)
    {
      if p !in g0 { FreeIsNoWalkPage(m0, c0, dir, kmem, p); }
    }
    forall a | WalkPage(m0, dir, PageOf(a))
      ensures W(m, a) == W(m0, a)
    {
      WalkPageHigh(m0, c0, dir, kmem, PageOf(a));
      if PageOf(a) !in g0 { HeadersStayHome(m0, b0, g0, m, b, g, s, a); }
    }
    SpaceFrame(m0, c0, m, c, dir, kmem, mapped);
    forall p, n | p in g && n in mapped
      ensures mapped[n] != p
    {
      assert DataFrame(m0, c0, dir, mapped[n]);
    }
  }

  lemma WalkPageHigh(m: Mem, c: seq<int>, dir: int, kmem: int, p: int)
    requires TablesInv(m, c, dir, kmem) && WalkPage(m, dir, p)
    ensures KERNEL_SPACE <= p
  {
    if p != dir {
      var i :| 0 <= i < ENTRIES && Present(Pde(m, dir, i)) && p == TableOf(Pde(m, dir, i));
      assert SlotOk(m, dir, kmem, i);
    }
  }

  // ----- faults and the heap -----

  lemma FaultKeepsHeap(m: Mem, c: seq<int>, m': Mem, c': seq<int>, l: seq<int>, blocks: set<int>, pages: set<int>,
                       dir: int, mapped: map<int, int>, n: int, f: int)
    requires Inv(m, l, blocks, pages, {}) && Owned(c, pages) && HeapApart(m, dir, mapped, pages)
    requires OthersUntouched(m, c, dir, m') && WalkGrowsFresh(m, c, dir, m') && TakenMore(c, c')
    requires 0 <= f / PAGE < |c| && c[f / PAGE] == 0
    ensures Inv(m', l, blocks, pages, {}) && Owned(c', pages) && HeapApart(m', dir, mapped[n := f], pages)
    ensures Live(m', blocks) == Live(m, blocks) && OthersKept(m, blocks, m', 0)
  {
    assert forall p :: p in pages ==> Taken(c, p);
    HeapFrame(m, m', l, blocks, pages);
  }

  // ----- client stores -----

  /** A word inside the payload of a block is no header word. */
  lemma StoreKeepsHeap(m: Mem, l: seq<int>, blocks: set<int>, pages: set<int>, b: int, a: int, v: int)
    requires Inv(m, l, blocks, pages, {}) && b in blocks && b + HDR <= a < End(m, b)
    ensures Inv(Put(m, a, v), l, blocks, pages, {}) && PageOf(a) in pages
    ensures Live(Put(m, a, v), blocks) == Live(m, blocks)
    ensures forall c :: c in blocks ==> Size(Put(m, a, v), c) == Size(m, c)
  {
    var m' := Put(m, a, v);
    BlockPlace(m, blocks, pages, b);
    BlockPages(m, blocks, pages, b, a);
    forall c | c in blocks
      ensures !(c <= a < c + HDR)
    {
      BlockPlace(m, blocks, pages, c);
      if c != b { assert Ordered(m, b, c) && Ordered(m, c, b); }
    }
    TiledFrame(m, m', blocks, pages);
    forall i | 0 <= i < |l|
      ensures Size(m', l[i]) == Size(m, l[i]) && Next(m', l[i]) == Next(m, l[i]) && Root(m', l[i]) == Root(m, l[i])
    {
      if i > 0 { assert l[i] in blocks; }
    }
    ListFrame(m, m', l);
    ExactFrame(m, m', l, blocks);
  }

  lemma StoreKeepsSpace(m: Mem, c: seq<int>, pages: set<int>, a: int, v: int, dir: int, kmem: int,
                        mapped: map<int, int>)
    requires TablesInv(m, c, dir, kmem) && Demand(m, c, dir, kmem, mapped) && 0 <= kmem <= KER_MM_SIZE
    requires HeapApart(m, dir, mapped, pages) && PageOf(a) in pages
    ensures TablesInv(Put(m, a, v), c, dir, kmem) && Demand(Put(m, a, v), c, dir, kmem, mapped)
    ensures HeapApart(Put(m, a, v), dir, mapped, pages) && WalksKept(m, Put(m, a, v), dir)
  {
    SpaceFrame(m, c, Put(m, a, v), c, dir, kmem, mapped);
  }

  lemma ZeroNotLive(m: Mem, blocks: set<int>, pages: set<int>)
    requires Tiled(m, blocks, pages)
    ensures 0 !in Live(m, blocks)
  {
    if 0 in blocks { BlockPlace(m, blocks, pages, 0); }
  }
}
