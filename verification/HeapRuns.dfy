/** Runs of physically adjacent free blocks: what coalescing could at best make of a heap. */
module HeapRuns {
  import opened Memory
  import opened HeapSpec
  import opened HeapInv

  /** The block behind `b` lies in the same page and is free (kernel/malloc.c:49-52). */
  ghost predicate FreeRight(m: Mem, b: int)
  {
    PageOf(End(m, b)) == PageOf(b) && State(m, End(m, b)) == FREE
  }

  /** Payload that block `b` would have after absorbing every free block directly behind it. */
  ghost function RunCap(m: Mem, b: int): int
    decreases PageOf(b) + PAGE - b
  {
    if Size(m, b) >= 0 && FreeRight(m, b) then Size(m, b) + HDR + RunCap(m, End(m, b)) else Size(m, b)
  }

  /** Some run of adjacent free blocks could hold `s` bytes. */
  ghost predicate Fits(m: Mem, blocks: set<int>, s: int)
  {
    exists b :: b in blocks && State(m, b) == FREE && RunCap(m, b) >= s
  }

  /** `b` absorbed its right neighbour; every other block is as it was. */
  ghost predicate Merged(m: Mem, m': Mem, blocks: set<int>, b: int)
  {
    && |m'| == |m|
    && b in blocks
    && Size(m', b) == Size(m, b) + HDR + Size(m, End(m, b))
    && State(m', b) == State(m, b)
    && forall c :: c in blocks && c != b ==> Size(m', c) == Size(m, c) && State(m', c) == State(m, c)
  }

  lemma {:induction false} MergeKeepsRunCap(m: Mem, m': Mem, blocks: set<int>, pages: set<int>, b: int, c: int)
    requires Tiled(m, blocks, pages) && FreeRight(m, b) && Merged(m, m', blocks, b)
    requires c in blocks && c != End(m, b)
    ensures RunCap(m', c) == RunCap(m, c)
    decreases PageOf(c) + PAGE - c
  {
    var n := End(m, b);
    SamePage(m, blocks, pages, b);
    SamePage(m, blocks, pages, n);
    SamePage(m, blocks, pages, c);
    BlockPlace(m, blocks, pages, b);
    BlockPlace(m, blocks, pages, n);
    BlockPlace(m, blocks, pages, c);
    if c == b {
      if FreeRight(m, n) {
        MergeKeepsRunCap(m, m', blocks, pages, b, End(m, n));
      }
    } else {
      assert Ordered(m, b, c) && Ordered(m, c, b);
      if FreeRight(m, c) {
        MergeKeepsRunCap(m, m', blocks, pages, b, End(m, c));
      }
    }
  }

  lemma MergeKeepsFits(m: Mem, m': Mem, blocks: set<int>, pages: set<int>, b: int, s: int)
    requires Tiled(m, blocks, pages) && FreeRight(m, b) && Merged(m, m', blocks, b) && State(m, b) == FREE
    ensures Fits(m, blocks, s) <==> Fits(m', blocks - {End(m, b)}, s)
  {
    var n := End(m, b);
    BlockPlace(m, blocks, pages, b);
    if Fits(m, blocks, s) {
      var c :| c in blocks && State(m, c) == FREE && RunCap(m, c) >= s;
      var c' := if c == n then b else c;
      assert RunCap(m, b) >= RunCap(m, n);
      MergeKeepsRunCap(m, m', blocks, pages, b, c');
      assert c' in blocks - {n} && State(m', c') == FREE && RunCap(m', c') >= s;
    }
    if Fits(m', blocks - {n}, s) {
      var c :| c in blocks - {n} && State(m', c) == FREE && RunCap(m', c) >= s;
      MergeKeepsRunCap(m, m', blocks, pages, b, c);
      assert c in blocks && State(m, c) == FREE && RunCap(m, c) >= s;
    }
  }

  lemma {:induction false} RunCapFrame(m: Mem, m': Mem, blocks: set<int>, pages: set<int>, c: int)
    requires Tiled(m, blocks, pages) && c in blocks
    requires forall b :: b in blocks ==> Size(m', b) == Size(m, b) && State(m', b) == State(m, b)
    ensures RunCap(m', c) == RunCap(m, c)
    decreases PageOf(c) + PAGE - c
  {
    SamePage(m, blocks, pages, c);
    BlockPlace(m, blocks, pages, c);
    if FreeRight(m, c) {
      RunCapFrame(m, m', blocks, pages, End(m, c));
    }
  }

  lemma FitsFrame(m: Mem, m': Mem, blocks: set<int>, pages: set<int>, s: int)
    requires Tiled(m, blocks, pages)
    requires forall b :: b in blocks ==> Size(m', b) == Size(m, b) && State(m', b) == State(m, b)
    ensures Fits(m, blocks, s) <==> Fits(m', blocks, s)
  {
    forall c | c in blocks
      ensures RunCap(m', c) == RunCap(m, c)
    {
      RunCapFrame(m, m', blocks, pages, c);
    }
  }

  lemma FreeRightFrame(m: Mem, m': Mem, blocks: set<int>, pages: set<int>, c: int)
    requires Tiled(m, blocks, pages) && c in blocks
    requires forall b :: b in blocks ==> Size(m', b) == Size(m, b) && State(m', b) == State(m, b)
    ensures FreeRight(m', c) <==> FreeRight(m, c)
  {
    SamePage(m, blocks, pages, c);
  }

  /** Absorbing a neighbour gives no other block a free neighbour, and `b` gets its neighbour's. */
  lemma MergeKeepsFreeRight(m: Mem, m': Mem, blocks: set<int>, pages: set<int>, b: int, c: int)
    requires Tiled(m, blocks, pages) && FreeRight(m, b) && Merged(m, m', blocks, b)
    requires c in blocks && c != End(m, b)
    ensures FreeRight(m', c) <==> FreeRight(m, if c == b then End(m, b) else c)
  {
    var n := End(m, b);
    SamePage(m, blocks, pages, b);
    SamePage(m, blocks, pages, c);
    SamePage(m, blocks, pages, n);
    BlockPlace(m, blocks, pages, b);
    BlockPlace(m, blocks, pages, n);
  }

  ghost predicate SameFits(m0: Mem, blocks0: set<int>, m: Mem, blocks: set<int>)
  {
    forall n :: Fits(m, blocks, n) <==> Fits(m0, blocks0, n)
  }

  ghost predicate SameRuns(m0: Mem, m: Mem, blocks: set<int>)
  {
    forall b :: b in blocks ==> State(m, b) == State(m0, b) && RunCap(m, b) == RunCap(m0, b)
  }

  ghost predicate SameBusy(m0: Mem, blocks0: set<int>, m: Mem, blocks: set<int>)
  {
    forall b :: b in blocks0 && State(m0, b) == BUSY ==> b in blocks && Size(m, b) == Size(m0, b)
  }

  /** `m`, `blocks` came from `m0`, `blocks0` by merging free neighbours and relinking only. */
  ghost predicate Coalesced(m0: Mem, blocks0: set<int>, m: Mem, blocks: set<int>, s: int)
  {
    && blocks <= blocks0
    && HeadersOnly(m0, m, blocks0 + {s})
    && SameRuns(m0, m, blocks)
    && SameBusy(m0, blocks0, m, blocks)
    && SameFits(m0, blocks0, m, blocks)
  }

  lemma CoalescedRefl(m: Mem, blocks: set<int>, s: int)
    ensures Coalesced(m, blocks, m, blocks, s)
  {
  }

  lemma CoalescedTrans(m0: Mem, blocks0: set<int>, m1: Mem, blocks1: set<int>, m2: Mem, blocks2: set<int>, s: int)
    requires Coalesced(m0, blocks0, m1, blocks1, s) && Coalesced(m1, blocks1, m2, blocks2, s)
    ensures Coalesced(m0, blocks0, m2, blocks2, s)
  {
  }

  lemma RelinkCoalesced(m: Mem, m': Mem, xs: seq<int>, blocks: set<int>, pages: set<int>, s: int)
    requires Tiled(m, blocks, pages)
    requires LinksOnly(m, m', xs) && forall i :: 0 <= i < |xs| ==> xs[i] in blocks + {s}
    requires forall b :: b in blocks ==> Size(m', b) == Size(m, b) && State(m', b) == State(m, b)
    ensures Coalesced(m, blocks, m', blocks, s)
  {
    forall b | b in blocks
      ensures RunCap(m', b) == RunCap(m, b)
    {
      RunCapFrame(m, m', blocks, pages, b);
    }
    forall n
      ensures Fits(m', blocks, n) <==> Fits(m, blocks, n)
    {
      FitsFrame(m, m', blocks, pages, n);
    }
  }

  lemma MergeCoalesced(m: Mem, m': Mem, blocks: set<int>, pages: set<int>, b: int, s: int)
    requires Tiled(m, blocks, pages)
    requires FreeRight(m, b) && State(m, b) == FREE && Merged(m, m', blocks, b) && HeadersOnly(m, m', blocks + {s})
    ensures Coalesced(m, blocks, m', blocks - {End(m, b)}, s)
  {
    var n := End(m, b);
    assert SameRuns(m, m', blocks - {n}) by {
      forall c | c in blocks - {n}
        ensures RunCap(m', c) == RunCap(m, c)
      {
        MergeKeepsRunCap(m, m', blocks, pages, b, c);
      }
    }
    assert SameFits(m, blocks, m', blocks - {n}) by {
      forall t
        ensures Fits(m', blocks - {n}, t) <==> Fits(m, blocks, t)
      {
        MergeKeepsFits(m, m', blocks, pages, b, t);
      }
    }
  }

  /** What taking the right neighbour `l[k]` of `b` off the list and absorbing it does. */
  lemma UniteKeepsInv(m: Mem, m1: Mem, m2: Mem, l: seq<int>, k: int, b: int, blocks: set<int>, pages: set<int>,
                      outs: set<int>)
    requires Inv(m, l, blocks, pages, outs) && b in blocks && b !in l
    requires FreeRight(m, b) && 1 <= k < |l| && l[k] == End(m, b)
    requires Unlinked(m, m1, l, k) && Swallowed(m1, m2, b)
    ensures Inv(m2, RemoveAt(l, k), blocks - {End(m, b)}, pages, outs)
  {
    var n, l' := End(m, b), RemoveAt(l, k);
    UnlinkKeepsInv(m, m1, l, k, blocks, pages, outs);
    BlockPlace(m, blocks, pages, b);
    assert b !in l';
    SwallowKeepsInv(m1, m2, l', b, blocks, pages, outs + {n});
    assert outs + {n} - {n} == outs;
  }

  lemma UniteMerges(m: Mem, m1: Mem, m2: Mem, l: seq<int>, k: int, b: int, blocks: set<int>, pages: set<int>,
                    outs: set<int>)
    requires Inv(m, l, blocks, pages, outs) && b in blocks && b !in l
    requires FreeRight(m, b) && 1 <= k < |l| && l[k] == End(m, b)
    requires Unlinked(m, m1, l, k) && Swallowed(m1, m2, b)
    ensures Merged(m, m2, blocks, b)
    ensures HeadersOnly(m, m2, blocks + {l[0]})
  {
    UnlinkKeepsInv(m, m1, l, k, blocks, pages, outs);
    forall c | c in blocks && c != b
      ensures Size(m2, c) == Size(m1, c) && State(m2, c) == State(m1, c)
    {
      BlocksClear(m, blocks, pages, b, c);
    }
  }

  /** The header of an absorbed block stays readable, with the `next` it had. */
  lemma UniteKeepsStaleNext(m: Mem, m1: Mem, m2: Mem, l: seq<int>, k: int, b: int, blocks: set<int>, pages: set<int>,
                            outs: set<int>)
    requires Inv(m, l, blocks, pages, outs) && b in blocks && b != End(m, b)
    requires 1 <= k < |l| && l[k] == End(m, b)
    requires Unlinked(m, m1, l, k) && Swallowed(m1, m2, b)
    ensures Next(m2, End(m, b)) == Next(m, End(m, b))
  {
    InvHeaders(m, l, blocks, pages, outs);
    assert Clear(l[k], l[k - 1]);
    if k + 1 < |l| { assert Clear(l[k], l[k + 1]); }
    BlocksClear(m, blocks, pages, b, l[k]);
  }

  /** The right neighbour of `b`, `l[k]`, has become part of `b`. */
  ghost predicate United(m: Mem, m': Mem, l: seq<int>, k: int, b: int, blocks: set<int>, pages: set<int>,
                         outs: set<int>)
  {
    && 1 <= k < |l| && l[k] == End(m, b) && l[k] in blocks && l[k] != b
    && Inv(m', RemoveAt(l, k), blocks - {l[k]}, pages, outs)
    && Merged(m, m', blocks, b)
    && HeadersOnly(m, m', blocks + {l[0]})
    && Next(m', l[k]) == Next(m, l[k])
  }

  lemma UniteEffect(m: Mem, m1: Mem, m2: Mem, l: seq<int>, k: int, b: int, blocks: set<int>, pages: set<int>,
                    outs: set<int>)
    requires Inv(m, l, blocks, pages, outs) && b in blocks && b !in l
    requires FreeRight(m, b) && 1 <= k < |l| && l[k] == End(m, b)
    requires Unlinked(m, m1, l, k) && Swallowed(m1, m2, b)
    ensures United(m, m2, l, k, b, blocks, pages, outs)
  {
    BlockPlace(m, blocks, pages, b);
    UniteKeepsInv(m, m1, m2, l, k, b, blocks, pages, outs);
    UniteMerges(m, m1, m2, l, k, b, blocks, pages, outs);
    UniteKeepsStaleNext(m, m1, m2, l, k, b, blocks, pages, outs);
  }

  /** The right neighbour is found on the list, and taking it off leaves `b` as it was. */
  lemma NeighbourListed(m: Mem, l: seq<int>, b: int, blocks: set<int>, pages: set<int>, outs: set<int>)
    returns (k: int)
    requires Inv(m, l, blocks, pages, outs) && b in blocks && b !in l && outs <= {b} && FreeRight(m, b)
    ensures 1 <= k < |l| && l[k] == End(m, b) && Headers(m, l)
    ensures forall m' :: Unlinked(m, m', l, k) ==>
              Size(m', b) == Size(m, b) && Size(m', l[k]) == Size(m, l[k])
  {
    SamePage(m, blocks, pages, b);
    BlockPlace(m, blocks, pages, b);
    var n := End(m, b);
    assert n in l;
    BlockPlace(m, blocks, pages, n);
    k :| 0 <= k < |l| && l[k] == n;
    InvHeaders(m, l, blocks, pages, outs);
    forall m' | Unlinked(m, m', l, k)
      ensures Size(m', b) == Size(m, b) && Size(m', l[k]) == Size(m, l[k])
    {
      UnlinkKeepsInv(m, m', l, k, blocks, pages, outs);
    }
  }
}
