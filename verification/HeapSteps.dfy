/** What the remaining writes of `malloc` and `free` do to the invariant. */
module HeapSteps {
  import opened Memory
  import opened HeapSpec
  import opened HeapInv
  import Division

  lemma HeaderWriteKeepsList(m: Mem, m': Mem, l: seq<int>, blocks: set<int>, pages: set<int>, outs: set<int>, x: int)
    requires Inv(m, l, blocks, pages, outs) && HeadersOnly(m, m', {x})
    requires forall i {:trigger Clear(x, l[i])} :: 0 <= i < |l| ==> Clear(x, l[i])
    ensures Chain(m', l) && Sorted(m', l) && Sentinel(m', l[0])
  {
    forall i | 0 <= i < |l|
      ensures Size(m', l[i]) == Size(m, l[i]) && Next(m', l[i]) == Next(m, l[i]) && Root(m', l[i]) == Root(m, l[i])
    {
      assert Clear(x, l[i]);
    }
    ListFrame(m, m', l);
  }

  // ----- taking a page (kernel/malloc.c:90-98) -----

  ghost predicate NewPage(m: Mem, pages: set<int>, p: int)
  {
    p !in pages && p % PAGE == 0 && KERNEL_SPACE <= p && p + PAGE <= |m|
  }

  ghost predicate PageHeader(m: Mem, m': Mem, p: int)
  {
    HeadersOnly(m, m', {p}) && Size(m', p) == PAGE - HDR && State(m', p) == FREE
  }

  lemma PageClear(m: Mem, blocks: set<int>, pages: set<int>, p: int, b: int)
    requires Tiled(m, blocks, pages) && NewPage(m, pages, p) && b in blocks
    ensures Clear(p, b) && (b < p ==> End(m, b) <= p) && (p < b ==> p + PAGE <= b) && p != b
  {
    assert BlockOk(m, blocks, pages, b);
    assert PageOf(b) in pages && PageOf(b) != p;
  }

  lemma GrowKeepsBlocks(m: Mem, m': Mem, blocks: set<int>, pages: set<int>, p: int)
    requires Tiled(m, blocks, pages) && NewPage(m, pages, p) && PageHeader(m, m', p)
    ensures forall b :: b in blocks ==> Size(m', b) == Size(m, b) && State(m', b) == State(m, b)
  {
    forall b | b in blocks
      ensures Size(m', b) == Size(m, b) && State(m', b) == State(m, b)
    {
      PageClear(m, blocks, pages, p, b);
    }
  }

  lemma GrowOrdered(m: Mem, m': Mem, blocks: set<int>, pages: set<int>, p: int, b: int, c: int)
    requires Tiled(m, blocks, pages) && NewPage(m, pages, p) && PageHeader(m, m', p)
    requires b in blocks + {p} && c in blocks + {p}
    ensures Ordered(m', b, c)
  {
    GrowKeepsBlocks(m, m', blocks, pages, p);
    if b == p && c != p {
      PageClear(m, blocks, pages, p, c);
    } else if b != p && c == p {
      PageClear(m, blocks, pages, p, b);
    } else if b != p && c != p {
      assert Ordered(m, b, c);
    }
  }

  lemma GrowBlockOk(m: Mem, m': Mem, blocks: set<int>, pages: set<int>, p: int, b: int)
    requires Tiled(m, blocks, pages) && NewPage(m, pages, p) && PageHeader(m, m', p)
    requires b in blocks + {p}
    ensures BlockOk(m', blocks + {p}, pages + {p}, b)
  {
    GrowKeepsBlocks(m, m', blocks, pages, p);
    if b != p {
      assert BlockOk(m, blocks, pages, b);
    } else {
      Division.By4(1024 * (p / PAGE), 0);
      Division.By4(1020, 0);
    }
  }

  lemma GrowKeepsTiled(m: Mem, m': Mem, blocks: set<int>, pages: set<int>, p: int)
    requires Tiled(m, blocks, pages) && NewPage(m, pages, p) && PageHeader(m, m', p)
    ensures Tiled(m', blocks + {p}, pages + {p})
  {
    forall b | b in blocks + {p}
      ensures BlockOk(m', blocks + {p}, pages + {p}, b)
    {
      GrowBlockOk(m, m', blocks, pages, p, b);
    }
    forall b, c | b in blocks + {p} && c in blocks + {p}
      ensures Ordered(m', b, c)
    {
      GrowOrdered(m, m', blocks, pages, p, b, c);
    }
  }

  lemma GrowKeepsInv(m: Mem, m': Mem, l: seq<int>, blocks: set<int>, pages: set<int>, p: int)
    requires Inv(m, l, blocks, pages, {}) && NewPage(m, pages, p) && PageHeader(m, m', p)
    ensures Inv(m', l, blocks + {p}, pages + {p}, {p}) && p !in blocks
    ensures forall b :: b in blocks ==> Size(m', b) == Size(m, b) && State(m', b) == State(m, b)
  {
    GrowKeepsBlocks(m, m', blocks, pages, p);
    GrowKeepsTiled(m, m', blocks, pages, p);
    assert p !in blocks by {
      if p in blocks { PageClear(m, blocks, pages, p, p); }
    }
    forall i | 0 <= i < |l|
      ensures Clear(p, l[i])
    {
      if i > 0 { PageClear(m, blocks, pages, p, l[i]); }
    }
    HeaderWriteKeepsList(m, m', l, blocks, pages, {}, p);
    GrowExact(m, m', l, blocks, p);
  }

  lemma GrowExact(m: Mem, m': Mem, l: seq<int>, blocks: set<int>, p: int)
    requires Exact(m, l, blocks, {}) && p !in blocks && State(m', p) == FREE
    requires forall b :: b in blocks ==> State(m', b) == State(m, b)
    ensures Exact(m', l, blocks + {p}, {p})
  {
  }

  // ----- marking (kernel/malloc.c:110, 119) -----

  ghost predicate Marked(m: Mem, m': Mem, b: int, state: int)
  {
    && |m'| == |m| && State(m', b) == state
    && forall a {:trigger W(m', a)} :: a != b + 12 ==> W(m', a) == W(m, a)
  }

  lemma MarkKeepsInv(m: Mem, m': Mem, l: seq<int>, blocks: set<int>, pages: set<int>, outs: set<int>, b: int,
                     state: int)
    requires Inv(m, l, blocks, pages, outs) && b in blocks && b !in l && outs <= {b}
    requires (state == FREE || state == BUSY) && Marked(m, m', b, state)
    ensures Inv(m', l, blocks, pages, if state == FREE then {b} else {})
    ensures forall c :: c in blocks ==> Size(m', c) == Size(m, c) && (c != b ==> State(m', c) == State(m, c))
  {
    BlockFresh(m, l, blocks, pages, outs, b);
    HeaderWriteKeepsList(m, m', l, blocks, pages, outs, b);
    forall c | c in blocks
      ensures Size(m', c) == Size(m, c) && (c != b ==> State(m', c) == State(m, c))
    {
      if c != b { BlocksClear(m, blocks, pages, b, c); }
    }
    TiledFrame(m, m', blocks, pages);
    MarkExact(m, m', l, blocks, outs, b, state);
  }

  lemma MarkExact(m: Mem, m': Mem, l: seq<int>, blocks: set<int>, outs: set<int>, b: int, state: int)
    requires Exact(m, l, blocks, outs) && b !in l && outs <= {b}
    requires State(m', b) == state && (state == FREE || state == BUSY)
    requires forall c :: c in blocks && c != b ==> State(m', c) == State(m, c)
    ensures Exact(m', l, blocks, if state == FREE then {b} else {})
  {
  }

  // ----- splitting (kernel/malloc.c:102-109) -----

  /** `b` shrunk to `s` bytes, with a free block made of the rest. */
  ghost predicate Split(m: Mem, m': Mem, b: int, s: int)
  {
    var n := b + HDR + s;
    && |m'| == |m|
    && Size(m', b) == s && Size(m', n) == Size(m, b) - s - HDR && State(m', n) == FREE
    && forall a {:trigger W(m', a)} :: a != b && a != n && a != n + 4 && a != n + 8 && a != n + 12 ==>
          W(m', a) == W(m, a)
  }

  ghost predicate Splittable(m: Mem, b: int, s: int)
  {
    s >= 4 && s % 4 == 0 && Size(m, b) >= s + 4 + HDR
  }

  lemma RestClear(m: Mem, blocks: set<int>, pages: set<int>, b: int, n: int, c: int)
    requires Tiled(m, blocks, pages) && b in blocks && c in blocks
    requires b + HDR + 4 <= n && n + HDR + 4 <= End(m, b)
    ensures n != c && Clear(n, c) && (c < n ==> c <= b) && (n < c ==> End(m, b) <= c)
  {
    assert Ordered(m, b, c) && Ordered(m, c, b) && BlockOk(m, blocks, pages, c);
  }

  lemma SplitKeepsSizes(m: Mem, m': Mem, blocks: set<int>, pages: set<int>, b: int, s: int)
    requires Tiled(m, blocks, pages) && b in blocks && Splittable(m, b, s) && Split(m, m', b, s)
    ensures forall c :: c in blocks ==> State(m', c) == State(m, c) && (c != b ==> Size(m', c) == Size(m, c))
    ensures b + HDR + s !in blocks
  {
    var n := b + HDR + s;
    forall c | c in blocks
      ensures State(m', c) == State(m, c) && (c != b ==> Size(m', c) == Size(m, c)) && c != n
    {
      RestClear(m, blocks, pages, b, n, c);
      if c != b { BlocksClear(m, blocks, pages, b, c); }
    }
  }

  lemma SplitBlockOk(m: Mem, m': Mem, blocks: set<int>, pages: set<int>, b: int, s: int, c: int)
    requires Tiled(m, blocks, pages) && b in blocks && Splittable(m, b, s) && Split(m, m', b, s)
    requires c in blocks + {b + HDR + s}
    ensures BlockOk(m', blocks + {b + HDR + s}, pages, c)
  {
    var n := b + HDR + s;
    SplitKeepsSizes(m, m', blocks, pages, b, s);
    assert BlockOk(m, blocks, pages, b);
    InsidePage(b, n);
    if c in blocks {
      assert BlockOk(m, blocks, pages, c);
    } else {
      Sum4(b, s);
      Sum4(Size(m, b), -s);
    }
  }

  lemma InsidePage(b: int, n: int)
    requires b <= n < PageOf(b) + PAGE
    ensures PageOf(n) == PageOf(b)
  {
    Division.By4096(b / PAGE, n - PageOf(b));
  }

  lemma Sum4(x: int, y: int)
    requires x % 4 == 0 && (y % 4 == 0 || (-y) % 4 == 0)
    ensures (x + HDR + y) % 4 == 0 && (x - HDR + y) % 4 == 0
  {
  }

  lemma SplitOrdered(m: Mem, m': Mem, blocks: set<int>, pages: set<int>, b: int, s: int, c: int, d: int)
    requires Tiled(m, blocks, pages) && b in blocks && Splittable(m, b, s) && Split(m, m', b, s)
    requires c in blocks + {b + HDR + s} && d in blocks + {b + HDR + s}
    ensures Ordered(m', c, d)
  {
    var n := b + HDR + s;
    SplitKeepsSizes(m, m', blocks, pages, b, s);
    if c != n && d != n {
      assert Ordered(m, c, d);
    } else if c == n && d != n {
      RestClear(m, blocks, pages, b, n, d);
    } else if c != n && d == n {
      RestClear(m, blocks, pages, b, n, c);
      assert Ordered(m, c, b);
    }
  }

  lemma SplitKeepsTiled(m: Mem, m': Mem, blocks: set<int>, pages: set<int>, b: int, s: int)
    requires Tiled(m, blocks, pages) && b in blocks && Splittable(m, b, s) && Split(m, m', b, s)
    ensures Tiled(m', blocks + {b + HDR + s}, pages)
  {
    var n := b + HDR + s;
    forall c | c in blocks + {n}
      ensures BlockOk(m', blocks + {n}, pages, c)
    {
      SplitBlockOk(m, m', blocks, pages, b, s, c);
    }
    forall c, d | c in blocks + {n} && d in blocks + {n}
      ensures Ordered(m', c, d)
    {
      SplitOrdered(m, m', blocks, pages, b, s, c, d);
    }
  }

  lemma SplitKeepsInv(m: Mem, m': Mem, l: seq<int>, blocks: set<int>, pages: set<int>, b: int, s: int)
    requires Inv(m, l, blocks, pages, {b}) && b in blocks && Splittable(m, b, s) && Split(m, m', b, s)
    ensures Inv(m', l, blocks + {b + HDR + s}, pages, {b, b + HDR + s})
    ensures forall c :: c in blocks ==> State(m', c) == State(m, c) && (c != b ==> Size(m', c) == Size(m, c))
    ensures b + HDR + s !in blocks
  {
    SplitKeepsTiled(m, m', blocks, pages, b, s);
    SplitKeepsSizes(m, m', blocks, pages, b, s);
    SplitKeepsList(m, m', l, blocks, pages, b, s);
    SplitKeepsExact(m, m', l, blocks, b, b + HDR + s);
  }

  lemma SplitKeepsList(m: Mem, m': Mem, l: seq<int>, blocks: set<int>, pages: set<int>, b: int, s: int)
    requires Inv(m, l, blocks, pages, {b}) && b in blocks && Splittable(m, b, s) && Split(m, m', b, s)
    ensures Chain(m', l) && Sorted(m', l) && Sentinel(m', l[0])
  {
    OutsUnlisted(m, l, blocks, pages, {b}, b);
    BlockFresh(m, l, blocks, pages, {b}, b);
    BlockPlace(m, blocks, pages, b);
    forall i | 0 <= i < |l|
      ensures Size(m', l[i]) == Size(m, l[i]) && Next(m', l[i]) == Next(m, l[i]) && Root(m', l[i]) == Root(m, l[i])
    {
      assert Clear(b, l[i]);
      if i > 0 { RestClear(m, blocks, pages, b, b + HDR + s, l[i]); }
    }
    ListFrame(m, m', l);
  }

  lemma SplitKeepsExact(m: Mem, m': Mem, l: seq<int>, blocks: set<int>, b: int, n: int)
    requires Exact(m, l, blocks, {b}) && b in blocks && n !in blocks && State(m', n) == FREE
    requires forall c :: c in blocks ==> State(m', c) == State(m, c)
    ensures Exact(m', l, blocks + {n}, {b, n})
  {
  }

  lemma FirstFitSame(m: Mem, m': Mem, l: seq<int>, i: int, s: int)
    requires 0 <= i <= |l| && forall k :: 0 <= k < |l| ==> Size(m', l[k]) == Size(m, l[k])
    ensures FirstFit(m', l, i, s) == FirstFit(m, l, i, s)
    decreases |l| - i
  {
  }

  /** The header of the rest has been written, the block itself still has its old size. */
  ghost predicate RestHeader(m: Mem, m1: Mem, b: int, s: int)
  {
    var n := b + HDR + s;
    HeadersOnly(m, m1, {n}) && Size(m1, n) == Size(m, b) - s - HDR && State(m1, n) == FREE
  }

  lemma RestReady(m: Mem, m1: Mem, l: seq<int>, blocks: set<int>, pages: set<int>, b: int, s: int)
    requires Inv(m, l, blocks, pages, {b}) && b in blocks && Splittable(m, b, s) && RestHeader(m, m1, b, s)
    ensures Headers(m1, l) && Chain(m1, l) && Fresh(m1, l, b + HDR + s)
    ensures forall i :: 0 <= i < |l| ==> Size(m1, l[i]) == Size(m, l[i])
  {
    var n := b + HDR + s;
    InvHeaders(m, l, blocks, pages, {b});
    BlockPlace(m, blocks, pages, b);
    forall i | 0 <= i < |l|
      ensures Clear(n, l[i])
    {
      if i > 0 { RestClear(m, blocks, pages, b, n, l[i]); }
    }
    HeaderWriteKeepsList(m, m1, l, blocks, pages, {b}, n);
    forall i | 0 <= i < |l|
      ensures Size(m1, l[i]) == Size(m, l[i])
    {
      assert Clear(n, l[i]);
    }
  }

  /** `malloc` links the rest before it shrinks the block; the outcome is as if it had shrunk it first. */
  lemma SplitCommutes(m: Mem, m1: Mem, m2: Mem, m3: Mem, l: seq<int>, j: int, blocks: set<int>, pages: set<int>,
                      b: int, s: int)
    requires Inv(m, l, blocks, pages, {b}) && b in blocks && Splittable(m, b, s) && RestHeader(m, m1, b, s)
    requires 0 <= j <= |l| && Linked(m1, m2, l, 0, j, b + HDR + s) && m3 == Put(m2, b, s)
    ensures Split(m, Put(m1, b, s), b, s)
    ensures Linked(Put(m1, b, s), m3, l, 0, j, b + HDR + s)
    ensures forall i :: 0 <= i < |l| ==> Size(Put(m1, b, s), l[i]) == Size(m1, l[i])
  {
    OutsUnlisted(m, l, blocks, pages, {b}, b);
    BlockFresh(m, l, blocks, pages, {b}, b);
    BlockPlace(m, blocks, pages, b);
    forall i | 0 <= i < |l|
      ensures Size(Put(m1, b, s), l[i]) == Size(m1, l[i])
    {
      assert Clear(b, l[i]);
    }
    if 0 < j { assert Clear(b, l[j - 1]); }
    if j < |l| { assert Clear(b, l[j]); }
  }

  lemma SplitEffect(m: Mem, m1: Mem, m2: Mem, m3: Mem, l: seq<int>, j: int, blocks: set<int>, blocks': set<int>,
                    pages: set<int>,
                    b: int, n: int, s: int)
    requires Inv(m, l, blocks, pages, {b}) && b in blocks && Splittable(m, b, s) && RestHeader(m, m1, b, s)
    requires n == b + HDR + s && blocks' == blocks + {n}
    requires j == FirstFit(m1, l, 0, Size(m1, n)) && Linked(m1, m2, l, 0, j, n) && m3 == Put(m2, b, s)
    ensures j >= 1 && Inv(m3, InsertAt(l, j, n), blocks', pages, {b})
    ensures LinksOnly(Put(m1, b, s), m3, InsertAt(l, j, n))
    ensures n !in blocks && Size(m3, b) == s
    ensures State(m3, n) == FREE && Size(m3, n) == Size(m, b) - s - HDR
    ensures forall c :: c in blocks ==> State(m3, c) == State(m, c) && (c != b ==> Size(m3, c) == Size(m, c))
  {
    var ms := Put(m1, b, s);
    SplitCommutes(m, m1, m2, m3, l, j, blocks, pages, b, s);
    SplitKeepsInv(m, ms, l, blocks, pages, b, s);
    FirstFitSame(m1, ms, l, 0, Size(m1, n));
    LinkKeepsInv(ms, m3, l, j, n, blocks', pages, {b, n});
    assert {b, n} - {n} == {b};
  }
}
