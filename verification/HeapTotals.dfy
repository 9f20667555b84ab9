/** Accounting over the tiling: nothing of a page is lost or counted twice. */
module HeapTotals {
  import opened Memory
  import opened HeapSpec
  import opened HeapInv
  import opened HeapLive

  /** Bytes of the blocks in `s`, headers of 16 bytes included. */
  ghost function Bytes(m: Mem, s: set<int>): int
    decreases |s|
  {
    if s == {} then 0
    else 16 + Size(m, Choose(s)) + Bytes(m, s - {Choose(s)})
  }

  lemma {:induction false} BytesPick(m: Mem, s: set<int>, x: int)
    requires x in s
    ensures Bytes(m, s) == 16 + Size(m, x) + Bytes(m, s - {x})
    decreases |s|
  {
    var y := Choose(s);
    if y != x {
      BytesPick(m, s - {y}, x);
      BytesPick(m, s - {x}, y);
      assert s - {y} - {x} == s - {x} - {y};
    }
  }

  lemma {:induction false} BytesAdd(m: Mem, s: set<int>, t: set<int>)
    requires s !! t
    ensures Bytes(m, s + t) == Bytes(m, s) + Bytes(m, t)
    decreases |s|
  {
    if s == {} {
      assert s + t == t;
    } else {
      var x := Choose(s);
      BytesPick(m, s, x);
      BytesPick(m, s + t, x);
      BytesAdd(m, s - {x}, t);
      assert s + t - {x} == (s - {x}) + t;
    }
  }

  /** The blocks of page `p` from address `a` on. */
  ghost function From(blocks: set<int>, p: int, a: int): set<int>
  {
    set b | b in blocks && PageOf(b) == p && a <= b
  }

  /** Walking a page from block to block, the sizes add up to exactly what is left of the page. */
  lemma {:induction false} WalkAddsUp(m: Mem, blocks: set<int>, pages: set<int>, a: int)
    requires Tiled(m, blocks, pages) && a in blocks
    ensures Bytes(m, From(blocks, PageOf(a), a)) == PageOf(a) + PAGE - a
    decreases PageOf(a) + PAGE - a
  {
    var p, e, s := PageOf(a), End(m, a), From(blocks, PageOf(a), a);
    BlockPlace(m, blocks, pages, a);
    SamePage(m, blocks, pages, a);
    assert BlockOk(m, blocks, pages, a);
    forall b | b in s && b != a
      ensures e <= b < p + PAGE
    {
      assert Ordered(m, a, b);
    }
    BytesPick(m, s, a);
    if e < p + PAGE {
      WalkAddsUp(m, blocks, pages, e);
      assert s - {a} == From(blocks, p, e);
    } else {
      assert s - {a} == {};
    }
  }

  lemma WithoutPage(m: Mem, blocks: set<int>, pages: set<int>, p: int)
    requires Tiled(m, blocks, pages) && p in pages
    ensures Tiled(m, blocks - From(blocks, p, p), pages - {p})
  {
    var blocks' := blocks - From(blocks, p, p);
    forall b | b in blocks'
      ensures BlockOk(m, blocks', pages - {p}, b)
    {
      assert BlockOk(m, blocks, pages, b);
      SamePage(m, blocks, pages, b);
    }
    forall b, c | b in blocks' && c in blocks'
      ensures Ordered(m, b, c)
    {
      assert Ordered(m, b, c);
    }
  }

  /** All blocks together, headers included, fill the pages of the heap exactly. */
  lemma {:induction false} BlocksFillPages(m: Mem, blocks: set<int>, pages: set<int>)
    requires Tiled(m, blocks, pages)
    ensures Bytes(m, blocks) == 4096 * |pages|
    decreases |pages|
  {
    if pages == {} {
      assert blocks != {} ==> BlockOk(m, blocks, pages, Choose(blocks));
    } else {
      var p := Choose(pages);
      var s := From(blocks, p, p);
      WalkAddsUp(m, blocks, pages, p);
      WithoutPage(m, blocks, pages, p);
      BlocksFillPages(m, blocks - s, pages - {p});
      BytesAdd(m, s, blocks - s);
      assert s + (blocks - s) == blocks;
    }
  }

  /** What is not free is live: the heap's accounting for its clients. */
  lemma LivePlusFree(m: Mem, l: seq<int>, blocks: set<int>, pages: set<int>)
    requires Inv(m, l, blocks, pages, {})
    ensures Bytes(m, Live(m, blocks)) + Bytes(m, set x | x in l[1..]) == 4096 * |pages|
  {
    var free := set x | x in l[1..];
    forall b | b in free
      ensures b in blocks && State(m, b) == FREE
    {
      var i :| 0 <= i < |l| - 1 && l[1..][i] == b;
      assert l[i + 1] in blocks;
    }
    forall b | b in blocks && State(m, b) == FREE
      ensures b in free
    {
      assert b in l;
      BlockPlace(m, blocks, pages, b);
      var i :| 0 <= i < |l| && l[i] == b;
      assert l[1..][i - 1] == b;
    }
    assert forall b :: b in blocks ==> State(m, b) == FREE || State(m, b) == BUSY;
    BytesAdd(m, Live(m, blocks), free);
    assert Live(m, blocks) + free == blocks;
    BlocksFillPages(m, blocks, pages);
  }
}
