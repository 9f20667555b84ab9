/** The heap's two views, the tiling of pages by blocks and the sorted free list, and how they agree. */
module HeapInv {
  import opened Memory
  import opened HeapSpec
  import Division

  ghost predicate BlockOk(m: Mem, blocks: set<int>, pages: set<int>, b: int)
  {
    && PageOf(b) in pages
    && b % 4 == 0 && Size(m, b) % 4 == 0 && Size(m, b) >= 4
    && End(m, b) <= PageOf(b) + PAGE
    && (End(m, b) < PageOf(b) + PAGE ==> End(m, b) in blocks)
  }

  ghost predicate Ordered(m: Mem, b: int, c: int) { b < c ==> End(m, b) <= c }

  /** Each page in `pages` is cut without gap or overlap into header-plus-payload blocks. */
  ghost predicate Tiled(m: Mem, blocks: set<int>, pages: set<int>)
  {
    && (forall p :: p in pages ==> p in blocks && p % PAGE == 0 && KERNEL_SPACE <= p && p + PAGE <= |m|)
    && (forall b {:trigger BlockOk(m, blocks, pages, b)} :: b in blocks ==> BlockOk(m, blocks, pages, b))
    && (forall b, c {:trigger Ordered(m, b, c)} :: b in blocks && c in blocks ==> Ordered(m, b, c))
  }

  /** The list behind its sentinel holds exactly the free blocks that are not in `outs`. */
  ghost predicate Exact(m: Mem, l: seq<int>, blocks: set<int>, outs: set<int>)
  {
    && (forall i {:trigger l[i] in blocks} {:trigger State(m, l[i])} ::
          1 <= i < |l| ==> l[i] in blocks && State(m, l[i]) == FREE && l[i] !in outs)
    && (forall b {:trigger b in l} :: b in blocks && b !in outs && State(m, b) == FREE ==> b in l)
    && (forall b {:trigger State(m, b)} :: b in blocks ==> State(m, b) == FREE || State(m, b) == BUSY)
    && (forall i, j {:trigger Differ(l, i, j)} :: 0 <= i < |l| && 0 <= j < |l| && i != j ==> Differ(l, i, j))
  }

  ghost predicate Differ(l: seq<int>, i: int, j: int)
    requires 0 <= i < |l| && 0 <= j < |l|
  {
    l[i] != l[j]
  }

  ghost predicate Sentinel(m: Mem, s: int)
  {
    0 < s && s + HDR <= KERNEL_SPACE <= |m| && Size(m, s) == 0
  }

  ghost predicate Inv(m: Mem, l: seq<int>, blocks: set<int>, pages: set<int>, outs: set<int>)
  {
    && Tiled(m, blocks, pages)
    && |l| > 0 && Sentinel(m, l[0])
    && Exact(m, l, blocks, outs)
    && Sorted(m, l)
    && Chain(m, l)
  }

  /** Only header words of the blocks in `xs` may differ. */
  ghost predicate HeadersOnly(m: Mem, m': Mem, xs: set<int>)
  {
    && |m'| == |m|
    && forall a {:trigger W(m', a)} :: a !in xs && a - 4 !in xs && a - 8 !in xs && a - 12 !in xs ==> W(m', a) == W(m, a)
  }

  lemma BlocksClear(m: Mem, blocks: set<int>, pages: set<int>, b: int, c: int)
    requires Tiled(m, blocks, pages) && b in blocks && c in blocks && b != c
    ensures Clear(b, c) && KERNEL_SPACE <= b && b + HDR <= |m|
  {
    assert BlockOk(m, blocks, pages, b) && BlockOk(m, blocks, pages, c);
    assert Ordered(m, b, c) && Ordered(m, c, b);
  }

  lemma BlockPlace(m: Mem, blocks: set<int>, pages: set<int>, b: int)
    requires Tiled(m, blocks, pages) && b in blocks
    ensures KERNEL_SPACE <= b && b + HDR + 4 <= End(m, b) <= |m|
  {
    assert BlockOk(m, blocks, pages, b);
  }

  lemma InvHeaders(m: Mem, l: seq<int>, blocks: set<int>, pages: set<int>, outs: set<int>)
    requires Inv(m, l, blocks, pages, outs)
    ensures Headers(m, l)
  {
    forall i | 0 <= i < |l|
      ensures 0 < l[i] && l[i] + HDR <= |m|
    {
      if i > 0 { BlockPlace(m, blocks, pages, l[i]); }
    }
    forall i, j | 0 <= i < |l| && 0 <= j < |l| && i != j
      ensures Clear(l[i], l[j])
    {
      if i > 0 { BlockPlace(m, blocks, pages, l[i]); }
      if j > 0 { BlockPlace(m, blocks, pages, l[j]); }
      if i > 0 && j > 0 {
        assert Differ(l, i, j);
        BlocksClear(m, blocks, pages, l[i], l[j]);
      }
    }
  }

  lemma BlockFresh(m: Mem, l: seq<int>, blocks: set<int>, pages: set<int>, outs: set<int>, x: int)
    requires Inv(m, l, blocks, pages, outs) && x in blocks && x !in l
    ensures Fresh(m, l, x)
  {
    BlockPlace(m, blocks, pages, x);
    forall i | 0 <= i < |l|
      ensures Clear(x, l[i])
    {
      if i > 0 { BlocksClear(m, blocks, pages, x, l[i]); }
    }
  }

  lemma OutsUnlisted(m: Mem, l: seq<int>, blocks: set<int>, pages: set<int>, outs: set<int>, x: int)
    requires Inv(m, l, blocks, pages, outs) && x in blocks && x in outs
    ensures x !in l
  {
    BlockPlace(m, blocks, pages, x);
  }

  /** The links of listed headers share no word with sizes and states of blocks. */
  lemma LinksKeepBlocks(m: Mem, m': Mem, xs: seq<int>, blocks: set<int>, pages: set<int>)
    requires Tiled(m, blocks, pages) && LinksOnly(m, m', xs)
    requires forall i :: 0 <= i < |xs| ==> xs[i] in blocks || xs[i] + HDR <= KERNEL_SPACE
    ensures forall b :: b in blocks ==> Size(m', b) == Size(m, b) && State(m', b) == State(m, b)
  {
    forall b | b in blocks
      ensures Size(m', b) == Size(m, b) && State(m', b) == State(m, b)
    {
      BlockPlace(m, blocks, pages, b);
      forall x | x in xs
        ensures x == b || Clear(x, b)
      {
        if x in blocks && x != b { BlocksClear(m, blocks, pages, x, b); }
      }
      LinksKeep(m, m', xs, b);
    }
  }

  lemma TiledFrame(m: Mem, m': Mem, blocks: set<int>, pages: set<int>)
    requires Tiled(m, blocks, pages) && |m'| == |m|
    requires forall b :: b in blocks ==> Size(m', b) == Size(m, b)
    ensures Tiled(m', blocks, pages)
  {
    forall b | b in blocks
      ensures BlockOk(m', blocks, pages, b)
    {
      assert BlockOk(m, blocks, pages, b);
    }
    forall b, c | b in blocks && c in blocks
      ensures Ordered(m', b, c)
    {
      assert Ordered(m, b, c);
    }
  }

  lemma UnlinkKeepsInv(m: Mem, m': Mem, l: seq<int>, k: int, blocks: set<int>, pages: set<int>, outs: set<int>)
    requires Inv(m, l, blocks, pages, outs)
    requires 1 <= k < |l| && Unlinked(m, m', l, k)
    ensures Inv(m', RemoveAt(l, k), blocks, pages, outs + {l[k]})
    ensures LinksOnly(m, m', RemoveAt(l, k))
    ensures forall b :: b in blocks ==> Size(m', b) == Size(m, b) && State(m', b) == State(m, b)
  {
    var l' := RemoveAt(l, k);
    InvHeaders(m, l, blocks, pages, outs);
    UnlinkKeepsChain(m, m', l, k);
    UnlinkFrame(m, m', l, k);
    LinksKeepBlocks(m, m', l', blocks, pages);
    TiledFrame(m, m', blocks, pages);
    SentinelFrame(m, m', l', blocks, pages);
    UnlinkExact(m, m', l, k, blocks, outs);
    ListedSizes(m, m', l, blocks);
    UnlinkSorted(m, m', l, k);
  }

  lemma SentinelFrame(m: Mem, m': Mem, l: seq<int>, blocks: set<int>, pages: set<int>)
    requires Tiled(m, blocks, pages) && LinksOnly(m, m', l)
    requires |l| > 0 && Sentinel(m, l[0])
    requires forall i :: 1 <= i < |l| ==> l[i] in blocks
    ensures Sentinel(m', l[0])
  {
    forall i | 1 <= i < |l|
      ensures Clear(l[i], l[0])
    {
      BlockPlace(m, blocks, pages, l[i]);
    }
    LinksKeep(m, m', l, l[0]);
  }

  lemma ListedSizes(m: Mem, m': Mem, l: seq<int>, blocks: set<int>)
    requires |l| > 0 && Size(m', l[0]) == Size(m, l[0])
    requires forall i :: 1 <= i < |l| ==> l[i] in blocks
    requires forall b :: b in blocks ==> Size(m', b) == Size(m, b)
    ensures forall i :: 0 <= i < |l| ==> Size(m', l[i]) == Size(m, l[i])
  {
  }

  lemma UnlinkExact(m: Mem, m': Mem, l: seq<int>, k: int, blocks: set<int>, outs: set<int>)
    requires Exact(m, l, blocks, outs)
    requires 1 <= k < |l|
    requires forall b :: b in blocks ==> State(m', b) == State(m, b)
    ensures Exact(m', RemoveAt(l, k), blocks, outs + {l[k]})
  {
    var l' := RemoveAt(l, k);
    forall b | b in blocks && b !in outs + {l[k]} && State(m', b) == FREE
      ensures b in l'
    {
      assert State(m, b) == FREE && b in l;
      var i :| 0 <= i < |l| && l[i] == b;
      assert l'[if i < k then i else i - 1] == b;
    }
    forall i | 1 <= i < |l'|
      ensures l'[i] in blocks && State(m', l'[i]) == FREE && l'[i] !in outs + {l[k]}
    {
      var o := if i < k then i else i + 1;
      assert l[o] in blocks && Differ(l, o, k);
    }
    forall i, j | 0 <= i < |l'| && 0 <= j < |l'| && i != j
      ensures Differ(l', i, j)
    {
      assert Differ(l, if i < k then i else i + 1, if j < k then j else j + 1);
    }
  }

  lemma UnlinkSorted(m: Mem, m': Mem, l: seq<int>, k: int)
    requires Sorted(m, l) && 0 <= k < |l|
    requires forall i :: 0 <= i < |l| ==> Size(m', l[i]) == Size(m, l[i])
    ensures Sorted(m', RemoveAt(l, k))
  {
  }

  lemma LinkExact(m: Mem, m': Mem, l: seq<int>, j: int, x: int, blocks: set<int>, outs: set<int>)
    requires Exact(m, l, blocks, outs)
    requires 1 <= j <= |l| && x in blocks && x in outs && x !in l && State(m, x) == FREE
    requires forall b :: b in blocks ==> State(m', b) == State(m, b)
    ensures Exact(m', InsertAt(l, j, x), blocks, outs - {x})
  {
    var l' := InsertAt(l, j, x);
    forall b | b in blocks && b !in outs - {x} && State(m', b) == FREE
      ensures b in l'
    {
      if b == x {
        assert l'[j] == b;
      } else {
        assert State(m, b) == FREE && b in l;
        var i :| 0 <= i < |l| && l[i] == b;
        assert l'[if i < j then i else i + 1] == b;
      }
    }
    forall i | 1 <= i < |l'|
      ensures l'[i] in blocks && State(m', l'[i]) == FREE && l'[i] !in outs - {x}
    {
      if i != j { assert l[if i < j then i else i - 1] in blocks; }
    }
    forall p, q | 0 <= p < |l'| && 0 <= q < |l'| && p != q
      ensures Differ(l', p, q)
    {
      if p != j && q != j {
        assert Differ(l, if p < j then p else p - 1, if q < j then q else q - 1);
      }
    }
  }

  lemma LinkSorted(m: Mem, m': Mem, l: seq<int>, j: int, x: int)
    requires Sorted(m, l) && 0 <= j <= |l| && Size(m', x) == Size(m, x)
    requires forall i :: 0 <= i < |l| ==> Size(m', l[i]) == Size(m, l[i])
    requires forall i :: 0 <= i < j ==> Size(m, l[i]) < Size(m, x)
    requires j < |l| ==> Size(m, x) <= Size(m, l[j])
    ensures Sorted(m', InsertAt(l, j, x))
  {
  }

  /** Inserting a free block where best fit would find it keeps the invariant. */
  lemma LinkKeepsInv(m: Mem, m': Mem, l: seq<int>, j: int, x: int, blocks: set<int>, pages: set<int>, outs: set<int>)
    requires Inv(m, l, blocks, pages, outs)
    requires x in blocks && x in outs && State(m, x) == FREE
    requires j == FirstFit(m, l, 0, Size(m, x)) && Linked(m, m', l, 0, j, x)
    ensures j >= 1
    ensures Inv(m', InsertAt(l, j, x), blocks, pages, outs - {x})
    ensures LinksOnly(m, m', InsertAt(l, j, x))
    ensures forall b :: b in blocks ==> Size(m', b) == Size(m, b) && State(m', b) == State(m, b)
  {
    BlockPlace(m, blocks, pages, x);
    var l' := InsertAt(l, j, x);
    InvHeaders(m, l, blocks, pages, outs);
    OutsUnlisted(m, l, blocks, pages, outs, x);
    BlockFresh(m, l, blocks, pages, outs, x);
    LinkedKeepsChain(m, m', l, j, x);
    LinkedFrame(m, m', l, j, x);
    LinksKeepBlocks(m, m', l', blocks, pages);
    TiledFrame(m, m', blocks, pages);
    SentinelFrame(m, m', l', blocks, pages);
    LinkExact(m, m', l, j, x, blocks, outs);
    ListedSizes(m, m', l, blocks);
    LinkSorted(m, m', l, j, x);
  }

  /** The test of `unite` (kernel/malloc.c:51) says that a right neighbour exists in the page. */
  lemma SamePage(m: Mem, blocks: set<int>, pages: set<int>, b: int)
    requires Tiled(m, blocks, pages) && b in blocks
    ensures PageOf(End(m, b)) == PageOf(b) <==> End(m, b) < PageOf(b) + PAGE
    ensures PageOf(End(m, b)) == PageOf(b) ==> End(m, b) in blocks
  {
    assert BlockOk(m, blocks, pages, b);
    var q, e := b / PAGE, End(m, b);
    assert PageOf(b) == 4096 * q;
    if e < PageOf(b) + PAGE {
      Division.By4096(q, e - 4096 * q);
    } else {
      Division.By4096(q + 1, 0);
    }
  }

  ghost predicate Swallowed(m: Mem, m': Mem, b: int)
  {
    && |m'| == |m|
    && Size(m', b) == Size(m, b) + HDR + Size(m, End(m, b))
    && forall a {:trigger W(m', a)} :: a != b ==> W(m', a) == W(m, a)
  }

  lemma SwallowKeepsTiled(m: Mem, m': Mem, b: int, blocks: set<int>, pages: set<int>)
    requires Tiled(m, blocks, pages) && b in blocks && PageOf(End(m, b)) == PageOf(b)
    requires Swallowed(m, m', b)
    ensures Tiled(m', blocks - {End(m, b)}, pages)
  {
    var n := End(m, b);
    var blocks' := blocks - {n};
    assert BlockOk(m, blocks, pages, b) && BlockOk(m, blocks, pages, n);
    forall c | c in blocks'
      ensures BlockOk(m', blocks', pages, c)
    {
      assert BlockOk(m, blocks, pages, c) && Ordered(m, b, c) && Ordered(m, c, b);
    }
    forall c, d | c in blocks' && d in blocks'
      ensures Ordered(m', c, d)
    {
      assert Ordered(m, c, d) && Ordered(m, n, d);
    }
    assert n % PAGE != 0;
  }

  lemma ListFrame(m: Mem, m': Mem, l: seq<int>)
    requires Chain(m, l) && Sorted(m, l)
    requires forall i :: 0 <= i < |l| ==>
               Size(m', l[i]) == Size(m, l[i]) && Next(m', l[i]) == Next(m, l[i]) && Root(m', l[i]) == Root(m, l[i])
    ensures Chain(m', l) && Sorted(m', l)
  {
  }

  lemma SwallowKeepsInv(m: Mem, m': Mem, l: seq<int>, b: int, blocks: set<int>, pages: set<int>, outs: set<int>)
    requires Inv(m, l, blocks, pages, outs) && b in blocks && b !in l
    requires PageOf(End(m, b)) == PageOf(b) && End(m, b) in outs
    requires Swallowed(m, m', b)
    ensures Inv(m', l, blocks - {End(m, b)}, pages, outs - {End(m, b)})
  {
    SwallowKeepsTiled(m, m', b, blocks, pages);
    SwallowKeepsList(m, m', l, b, blocks, pages, outs);
    SwallowKeepsExact(m, m', l, b, blocks, pages, outs);
  }

  lemma SwallowKeepsList(m: Mem, m': Mem, l: seq<int>, b: int, blocks: set<int>, pages: set<int>, outs: set<int>)
    requires Inv(m, l, blocks, pages, outs) && b in blocks && b !in l
    requires Swallowed(m, m', b)
    ensures Chain(m', l) && Sorted(m', l) && Sentinel(m', l[0])
  {
    BlockFresh(m, l, blocks, pages, outs, b);
    forall i | 0 <= i < |l|
      ensures Size(m', l[i]) == Size(m, l[i]) && Next(m', l[i]) == Next(m, l[i]) && Root(m', l[i]) == Root(m, l[i])
    {
      assert Clear(b, l[i]);
    }
    ListFrame(m, m', l);
  }

  lemma SwallowKeepsExact(m: Mem, m': Mem, l: seq<int>, b: int, blocks: set<int>, pages: set<int>, outs: set<int>)
    requires Tiled(m, blocks, pages) && Exact(m, l, blocks, outs) && b in blocks
    requires PageOf(End(m, b)) == PageOf(b) && End(m, b) in outs
    requires Swallowed(m, m', b)
    ensures Exact(m', l, blocks - {End(m, b)}, outs - {End(m, b)})
  {
    forall c | c in blocks
      ensures State(m', c) == State(m, c)
    {
      if c != b { BlocksClear(m, blocks, pages, b, c); }
    }
  }
}
