module Heap {
  import opened Memory
  import opened HeapSpec
  import opened HeapInv
  import opened HeapRuns
  import opened HeapClean
  import opened HeapSteps
  import opened HeapLive
  import opened Frames

  class KernelHeap {
    const mem: array<int>
    const frames: FrameMap
    var mmList: int

    /** The free list with its sentinel, the blocks, and the pages taken so far. */
    ghost var list: seq<int>
    ghost var blocks: set<int>
    ghost var pages: set<int>

    /** kernel/malloc.c:81-82, with the sentinel node at address `sentinel`. */
    constructor (mem: array<int>, frames: FrameMap, sentinel: int)
      requires frames.Valid() && frames.KMEM <= mem.Length && mem != frames.mmap
      requires 0 < sentinel && sentinel + HDR <= KERNEL_SPACE
      requires Size(mem[..], sentinel) == 0 && Next(mem[..], sentinel) == 0 && Root(mem[..], sentinel) == 0
      ensures this.mem == mem && this.frames == frames
      ensures Valid() && mmList == sentinel && blocks == {} && pages == {}
    {
      this.mem, this.frames, mmList := mem, frames, sentinel;
      list, blocks, pages := [sentinel], {}, {};
    }

    ghost predicate Valid()
      reads this, mem, frames, frames.mmap
    {
      && frames.Valid() && frames.KMEM <= mem.Length && mem != frames.mmap
      && Inv(mem[..], list, blocks, pages, {}) && mmList == list[0]
      && Owned(frames.mmap[..], pages)
    }

    /** kernel/malloc.c:23-24: `h` becomes the successor of `ml`. */
    method Join(ml: int, h: int)
      requires 0 <= ml && ml + HDR <= mem.Length && 0 <= h && h + HDR <= mem.Length && ml != h + 4
      modifies mem
      ensures Next(mem[..], ml) == h && Root(mem[..], h) == ml
      ensures forall a {:trigger W(mem[..], a)} :: a != ml + 4 && a != h + 8 ==> W(mem[..], a) == W(old(mem[..]), a)
    {
      mem[ml + 4] := h;
      mem[mem[ml + 4] + 8] := ml;
    }

    /** kernel/malloc.c:11-27: recursive insertion by size. */
    method Add(ml: int, mm: int, ghost l: seq<int>, ghost i: int) returns (r: int)
      requires 0 <= i <= |l| && ml == At(l, i)
      requires Headers(mem[..], l) && Chain(mem[..], l) && Fresh(mem[..], l, mm)
      modifies mem
      ensures var j := FirstFit(old(mem[..]), l, i, old(Size(mem[..], mm)));
              r == (if j == i then mm else ml) && Linked(old(mem[..]), mem[..], l, i, j, mm)
      decreases |l| - i
    {
      ghost var m := mem[..];
      ghost var j := FirstFit(m, l, i, Size(m, mm));
      if ml == 0 {
        assert i == |l|;
        mem[mm + 8] := 0;
        mem[mm + 4] := 0;
        return mm;
      } else if mem[ml] >= mem[mm] {
        assert j == i && Clear(mm, l[i]);
        mem[mm + 8] := mem[ml + 8];
        mem[ml + 8] := mm;
        mem[mm + 4] := ml;
        return mm;
      } else {
        assert j > i && j == FirstFit(m, l, i + 1, Size(m, mm)) && Clear(mm, l[i]);
        assert Next(m, l[i]) == At(l, i + 1) && Root(m, l[i]) == At(l, i - 1);
        if i + 1 < |l| { assert Clear(l[i], l[i + 1]) && Clear(mm, l[i + 1]) && Root(m, l[i + 1]) == l[i]; }
        var h := Add(mem[ml + 4], mm, l, i + 1);
        ghost var m1 := mem[..];
        assert h == mm || (h == l[i + 1] && Clear(l[i], h));
        Join(ml, h);
        LinkedStep(m, m1, mem[..], l, i, j, mm);
        return ml;
      }
    }

    /** kernel/malloc.c:29-36. */
    method Find(ml: int, size: int, ghost l: seq<int>) returns (r: int)
      requires ml == At(l, 0) && Headers(mem[..], l) && Chain(mem[..], l)
      ensures r == At(l, FirstFit(mem[..], l, 0, size))
    {
      r := ml;
      ghost var i := 0;
      while r != 0
        invariant 0 <= i <= |l| && r == At(l, i)
        invariant FirstFit(mem[..], l, 0, size) == FirstFit(mem[..], l, i, size)
        decreases |l| - i
      {
        if mem[r] >= size {
          break;
        }
        assert Next(mem[..], l[i]) == At(l, i + 1);
        r := mem[r + 4];
        i := i + 1;
      }
    }

    /** kernel/malloc.c:38-45. */
    method Del(mm: int, ghost l: seq<int>, ghost k: int) returns (r: int)
      requires mm != 0 ==> 1 <= k < |l| && l[k] == mm && Headers(mem[..], l) && Chain(mem[..], l)
      modifies mem
      ensures r == mm
      ensures mm == 0 ==> mem[..] == old(mem[..])
      ensures mm != 0 ==> Unlinked(old(mem[..]), mem[..], l, k)
    {
      if mm != 0 {
        assert Next(mem[..], l[k]) == At(l, k + 1) && Clear(l[k], l[k - 1]);
        if k + 1 < |l| { assert Clear(l[k], l[k + 1]) && Clear(l[k - 1], l[k + 1]); }
        mem[mem[mm + 8] + 4] := mem[mm + 4];
        if mem[mm + 4] != 0 {
          mem[mem[mm + 4] + 8] := mem[mm + 8];
        }
      }
      return mm;
    }

    /** kernel/malloc.c:47-58: absorb the block behind `mm` if it is in the same page and free.
        `k` is the list position of the absorbed block, or -1. */
    method Unite(mm: int, ghost l: seq<int>, ghost blocks: set<int>, ghost pages: set<int>, ghost outs: set<int>)
      returns (r: int, ghost k: int)
      requires mm != 0 ==> Inv(mem[..], l, blocks, pages, outs) && mm in blocks && mm !in l && outs <= {mm}
      modifies mem
      ensures r == mm
      ensures mm == 0 || !FreeRight(old(mem[..]), mm) ==> k == -1 && mem[..] == old(mem[..])
      ensures mm != 0 && FreeRight(old(mem[..]), mm) ==> United(old(mem[..]), mem[..], l, k, mm, blocks, pages, outs)
    {
      k := -1;
      if mm != 0 {
        ghost var m := mem[..];
        BlockPlace(m, blocks, pages, mm);
        SamePage(m, blocks, pages, mm);
        var nextm := mm + mem[mm] + HDR;
        if nextm - nextm % PAGE == mm - mm % PAGE {
          BlockPlace(m, blocks, pages, nextm);
          if mem[nextm + 12] == FREE {
            k := NeighbourListed(m, l, mm, blocks, pages, outs);
            var _ := Del(nextm, l, k);
            ghost var m1 := mem[..];
            mem[mm] := mem[mm] + mem[nextm] + HDR;
            UniteEffect(m, m1, mem[..], l, k, mm, blocks, pages, outs);
          }
        }
      }
      return mm, k;
    }

    /** kernel/malloc.c:65-69: the inner loop of `clean`. */
    method Absorb(mm: int, ghost nextm: int, ghost L: seq<int>, ghost R: seq<int>, ghost blocks: set<int>,
                  ghost pages: set<int>)
      returns (r: int, ghost L': seq<int>, ghost R': seq<int>, ghost blocks': set<int>)
      requires Cursor(mem[..], L, R, blocks, pages, mm, nextm)
      modifies mem
      ensures r == mm && !FreeRight(mem[..], mm)
      ensures Absorbed(old(mem[..]), L, R, blocks, mem[..], L', R', blocks', pages, mm, nextm)
    {
      var size := 0;
      r := mm;
      L', R', blocks' := L, R, blocks;
      ghost var m := mem[..];
      CoalescedRefl(m, blocks, L[0]);
      BlockPlace(m, blocks, pages, mm);
      while size != mem[r]
        invariant r == mm && 0 < r < mem.Length
        invariant Absorbed(m, L, R, blocks, mem[..], L', R', blocks', pages, mm, nextm)
        invariant size == Size(mem[..], mm) ==> !FreeRight(mem[..], mm)
        decreases |L' + R'| + (if size != Size(mem[..], mm) then 1 else 0)
      {
        ghost var m1 := mem[..];
        OutsUnlisted(m1, L' + R', blocks', pages, {mm}, mm);
        size := mem[r];
        ghost var k;
        r, k := Unite(r, L' + R', blocks', pages, {mm});
        if FreeRight(m1, mm) {
          UniteKeepsCursor(m1, mem[..], L', R', k, blocks', pages, mm, nextm);
          MergeCoalesced(m1, mem[..], blocks', pages, mm, L[0]);
          ghost var n := (L' + R')[k];
          CoalescedTrans(m, blocks, m1, blocks', mem[..], blocks' - {n}, L[0]);
          CutConcat(L', R', k);
          L', R', blocks' := Cut(L', k), Cut(R', k - |L'|), blocks' - {n};
        }
      }
    }

    /** kernel/malloc.c:63-64. */
    method Detach(mm: int, ghost list: seq<int>, ghost c: int, ghost blocks: set<int>, ghost pages: set<int>)
      returns (nextm: int)
      requires Passed(mem[..], list, c, blocks, pages) && c < |list| && mm == list[c]
      modifies mem
      ensures nextm == list[c - 1]
      ensures Unlinked(old(mem[..]), mem[..], list, c)
      ensures Cursor(mem[..], list[..c], list[c + 1..], blocks, pages, mm, nextm)
    {
      ghost var m0 := mem[..];
      InvHeaders(m0, list, blocks, pages, {});
      assert Root(m0, list[c]) == At(list, c - 1);
      nextm := mem[mm + 8];
      var _ := Del(mm, list, c);
      TakeOut(m0, mem[..], list, c, blocks, pages);
    }

    /** kernel/malloc.c:62-75: one iteration of the loop of `clean`, with the cursor at `list[c]`. */
    method CleanStep(ml: int, mm: int, ghost list: seq<int>, ghost c: int, ghost blocks: set<int>,
                     ghost pages: set<int>)
      returns (r: int, cur: int, ghost list': seq<int>, ghost c': int, ghost blocks': set<int>)
      requires Passed(mem[..], list, c, blocks, pages) && c < |list| && mm == list[c] && ml == list[0]
      modifies mem
      ensures r == ml
      ensures Stepped(old(mem[..]), list, c, blocks, mem[..], list', c', blocks', pages)
      ensures cur == At(list', c')
    {
      ghost var m0 := mem[..];
      var nextm := Detach(mm, list, c, blocks, pages);
      ghost var m1 := mem[..];
      ghost var L, R;
      cur, L, R, blocks' := Absorb(mm, nextm, list[..c], list[c + 1..], blocks, pages);
      ghost var m2 := mem[..];
      CursorHeaders(m2, L, R, blocks', pages, mm, nextm);
      ghost var j := FirstFit(m2, L + R, 0, Size(m2, mm));
      r := Add(ml, cur, L + R, 0);
      StepFinish(m0, m1, list, c, blocks, m2, L, R, blocks', pages, nextm, mem[..]);
      list', c' := InsertAt(L + R, j, mm), CursorAfter(L, j);
      assert Stepped(m0, list, c, blocks, mem[..], list', c', blocks', pages);
      if cur != mem[nextm + 4] {
        cur := mem[nextm + 4];
      } else {
        cur := mem[mem[nextm + 4] + 4];
      }
    }

    /** kernel/malloc.c:59-77: walk the list once, growing every free block as far as it goes. */
    method Clean(ml: int, ghost list: seq<int>, ghost blocks: set<int>, ghost pages: set<int>)
      returns (r: int, ghost list': seq<int>, ghost blocks': set<int>)
      requires Inv(mem[..], list, blocks, pages, {}) && ml == list[0]
      modifies mem
      ensures r == ml
      ensures Inv(mem[..], list', blocks', pages, {}) && list'[0] == ml
      ensures Coalesced(old(mem[..]), blocks, mem[..], blocks', ml)
      ensures forall b :: b in blocks' && State(mem[..], b) == FREE ==> !FreeRight(mem[..], b)
    {
      ghost var m := mem[..];
      r, list', blocks' := ml, list, blocks;
      ghost var c := 1;
      InvHeaders(m, list, blocks, pages, {});
      assert Next(m, list[0]) == At(list, 1);
      CoalescedRefl(m, blocks, ml);
      var mm := mem[r + 4];
      while mm != 0
        invariant r == ml && |list'| > 0 && list'[0] == ml
        invariant Passed(mem[..], list', c, blocks', pages) && mm == At(list', c)
        invariant Coalesced(m, blocks, mem[..], blocks', ml)
        decreases |list'|, |list'| - c
      {
        ghost var m0, b0 := mem[..], blocks';
        r, mm, list', c, blocks' := CleanStep(r, mm, list', c, b0, pages);
        CoalescedTrans(m, blocks, m0, b0, mem[..], blocks', ml);
      }
      InvHeaders(mem[..], list', blocks', pages, {});
      forall b | b in blocks' && State(mem[..], b) == FREE
        ensures !FreeRight(mem[..], b)
      {
        AllPassed(mem[..], list', blocks', pages, b);
      }
    }

    /** kernel/malloc.c:94-98: make a fresh page one free block. */
    method AddPage(ml: int, nm: int, ghost list: seq<int>, ghost blocks: set<int>, ghost pages: set<int>)
      returns (r: int, ghost list': seq<int>)
      requires Inv(mem[..], list, blocks, pages, {}) && ml == list[0] && NewPage(mem[..], pages, nm)
      modifies mem
      ensures r == ml
      ensures Inv(mem[..], list', blocks + {nm}, pages + {nm}, {}) && list'[0] == ml
      ensures Grown(old(mem[..]), blocks, mem[..], blocks + {nm}, ml, nm)
    {
      ghost var m := mem[..];
      mem[nm + 4] := 0;
      mem[nm + 8] := 0;
      mem[nm + 12] := FREE;
      mem[nm] := PAGE - HDR;
      ghost var m1 := mem[..];
      GrowReady(m, m1, list, blocks, pages, nm);
      ghost var j := FirstFit(m1, list, 0, Size(m1, nm));
      r := Add(ml, nm, list, 0);
      GrowEffect(m, m1, mem[..], list, j, blocks, pages, nm);
      list' := InsertAt(list, j, nm);
    }

    /** kernel/malloc.c:90-98: one page more, if there is a frame for it. */
    method Grow() returns (nm: int)
      requires Valid()
      modifies this, mem, frames.mmap
      ensures Valid() && mmList == old(mmList)
      ensures nm == 0 <==> !frames.KernelHasFree(old(frames.mmap[..]))
      ensures nm == 0 ==> list == old(list) && blocks == old(blocks) && pages == old(pages)
                          && mem[..] == old(mem[..]) && frames.mmap[..] == old(frames.mmap[..])
      ensures nm != 0 ==>
                && nm == frames.KernelPick(old(frames.mmap[..])) * PAGE
                && frames.mmap[..] == old(frames.mmap[..])[nm / PAGE := 1]
                && nm !in old(pages) && pages == old(pages) + {nm}
                && Grown(old(mem[..]), old(blocks), mem[..], blocks, mmList, nm)
                && old(frames.mmap[nm / PAGE]) == 0
    {
      nm := frames.GetFreePage();
      assert mem[..] == old(mem[..]);
      if nm != 0 {
        assert nm !in pages;
        mmList, list := AddPage(mmList, nm, list, blocks, pages);
        blocks, pages := blocks + {nm}, pages + {nm};
      }
    }

    /** kernel/malloc.c:103-108: give the end of `mm` back. */
    method Trim(ml: int, mm: int, size: int, ghost list: seq<int>, ghost blocks: set<int>, ghost pages: set<int>)
      returns (r: int, ghost list': seq<int>)
      requires Inv(mem[..], list, blocks, pages, {mm}) && ml == list[0] && mm in blocks && Splittable(mem[..], mm, size)
      modifies mem
      ensures r == ml
      ensures Inv(mem[..], list', blocks + {mm + HDR + size}, pages, {mm}) && list'[0] == ml
      ensures Trimmed(old(mem[..]), blocks, mem[..], blocks + {mm + HDR + size}, ml, mm, size)
    {
      ghost var m := mem[..];
      BlockPlace(m, blocks, pages, mm);
      var nm := mm + size + HDR;
      mem[nm + 12] := FREE;
      mem[nm + 8] := 0;
      mem[nm] := mem[mm] - size - HDR;
      ghost var m1 := mem[..];
      RestReady(m, m1, list, blocks, pages, mm, size);
      ghost var j := FirstFit(m1, list, 0, Size(m1, nm));
      r := Add(ml, nm, list, 0);
      ghost var m2 := mem[..];
      mem[mm] := size;
      assert mem[..] == Put(m2, mm, size);
      TrimEffect(m, m1, m2, mem[..], list, j, blocks, blocks + {nm}, pages, mm, nm, size);
      list' := InsertAt(list, j, nm);
    }

    /** kernel/malloc.c:101-110: turn the listed block `mm` into an allocation of `size` bytes. */
    method Carve(ml: int, mm: int, size: int, ghost list: seq<int>, ghost k: int, ghost blocks: set<int>,
                 ghost pages: set<int>)
      returns (r: int, ghost list': seq<int>, ghost blocks': set<int>)
      requires Inv(mem[..], list, blocks, pages, {}) && ml == list[0] && 1 <= k < |list| && mm == list[k]
      requires size >= 4 && size % 4 == 0
      modifies mem
      ensures r == ml
      ensures Inv(mem[..], list', blocks', pages, {}) && list'[0] == ml
      ensures Carved(old(mem[..]), blocks, mem[..], blocks', ml, mm, size)
    {
      ghost var m := mem[..];
      InvHeaders(m, list, blocks, pages, {});
      assert list[k] in blocks;
      BlockPlace(m, blocks, pages, mm);
      r := ml;
      var _ := Del(mm, list, k);
      ghost var m1 := mem[..];
      DetachEffect(m, m1, list, k, blocks, pages);
      list', blocks' := RemoveAt(list, k), blocks;
      if mem[mm] >= size + 4 + HDR {
        r, list' := Trim(r, mm, size, list', blocks, pages);
        blocks' := blocks + {mm + HDR + size};
      }
      ghost var m2 := mem[..];
      mem[mm + 12] := BUSY;
      assert Marked(m2, mem[..], mm, BUSY);
      MarkEffect(m2, mem[..], list', blocks', pages, mm);
      CarveEffect(m, m1, m2, mem[..], blocks, blocks', ml, mm, size);
    }

    /** kernel/malloc.c:90-99: one page more, and another look at the list. */
    method GrowAndFind(size: int) returns (nm: int, mm: int)
      requires Valid() && size > 0 && FirstFit(mem[..], list, 0, size) == |list|
      modifies this, mem, frames.mmap
      ensures Valid() && mmList == old(mmList)
      ensures mm == At(list, FirstFit(mem[..], list, 0, size))
      ensures nm == 0 ==> mm == 0 && list == old(list) && blocks == old(blocks) && pages == old(pages)
                          && mem[..] == old(mem[..]) && frames.mmap[..] == old(frames.mmap[..])
                          && !frames.KernelHasFree(frames.mmap[..])
      ensures nm != 0 ==>
                && old(frames.KernelHasFree(frames.mmap[..])) && nm == frames.KernelPick(old(frames.mmap[..])) * PAGE
                && frames.mmap[..] == old(frames.mmap[..])[nm / PAGE := 1] && old(frames.mmap[nm / PAGE]) == 0
                && nm !in old(pages) && pages == old(pages) + {nm}
                && Carried(old(mem[..]), old(blocks), mem[..], blocks, mmList) && old(blocks) <= blocks
                && (size <= PAGE - HDR ==> mm == nm)
    {
      ghost var m1, l1, b1, g1 := mem[..], list, blocks, pages;
      nm := Grow();
      InvHeaders(mem[..], list, blocks, pages, {});
      mm := Find(mmList, size, list);
      if nm != 0 {
        GrownCarries(m1, b1, mem[..], blocks, mmList, nm);
        if size <= PAGE - HDR {
          GrownIsFound(m1, l1, b1, g1, mem[..], list, pages, nm, size);
        }
      }
    }

    /** kernel/malloc.c:89-99: grow until the list has a block of at least `size` bytes. */
    method Enlarge(size: int) returns (mm: int)
      requires Valid() && size > 0
      modifies this, mem, frames.mmap
      ensures Valid() && mmList == old(mmList)
      ensures mm == At(list, FirstFit(mem[..], list, 0, size))
      ensures Carried(old(mem[..]), old(blocks), mem[..], blocks, mmList)
      ensures size > PAGE - HDR ==> mm == 0 && !frames.KernelHasFree(frames.mmap[..])
      ensures old(FirstFit(mem[..], list, 0, size) < |list|
                  || (size <= PAGE - HDR && !frames.KernelHasFree(frames.mmap[..]))) ==>
                && mem[..] == old(mem[..]) && list == old(list) && blocks == old(blocks) && pages == old(pages)
                && frames.mmap[..] == old(frames.mmap[..])
      ensures old(size <= PAGE - HDR && FirstFit(mem[..], list, 0, size) == |list|
                  && frames.KernelHasFree(frames.mmap[..])) ==>
                && mm != 0
                && OnePageMore(old(pages), old(frames.mmap[..]), pages, frames.mmap[..], mm,
                               frames.KernelPick(old(frames.mmap[..])))
      ensures GrewFresh(old(pages), old(frames.mmap[..]), pages, frames.mmap[..])
    {
      ghost var m0, l0, b0, g0, c0 := mem[..], list, blocks, pages, frames.mmap[..];
      InvHeaders(m0, list, blocks, pages, {});
      CoalescedRefl(m0, b0, mmList);
      CoalescedCarries(m0, b0, m0, b0, mmList);
      mm := Find(mmList, size, list);
      ghost var grown := false;
      while mm == 0
        invariant Valid() && mmList == old(mmList)
        invariant mm == At(list, FirstFit(mem[..], list, 0, size))
        invariant Carried(m0, b0, mem[..], blocks, mmList)
        invariant GrewFresh(g0, c0, pages, frames.mmap[..])
        invariant !grown ==> mem[..] == m0 && list == l0 && blocks == b0 && pages == g0 && frames.mmap[..] == c0
        invariant grown ==> FirstFit(m0, l0, 0, size) == |l0| && frames.KernelHasFree(c0)
        invariant grown && size <= PAGE - HDR ==>
                    mm != 0 && OnePageMore(g0, c0, pages, frames.mmap[..], mm, frames.KernelPick(c0))
        decreases FreeCount(frames.mmap[..], KERNEL_SPACE / PAGE, frames.KMEM / PAGE)
      {
        ghost var m1, l1, b1, g1, c1 := mem[..], list, blocks, pages, frames.mmap[..];
        NothingListed(m1, l1, b1, g1, size);
        var nm;
        nm, mm := GrowAndFind(size);
        if nm == 0 {
          break;
        }
        grown := true;
        FreeCountTake(c1, KERNEL_SPACE / PAGE, frames.KMEM / PAGE, nm / PAGE, 1);
        GrewFreshStep(g0, c0, g1, c1, nm);
        CarriedTrans(m0, b0, m1, b1, mem[..], blocks, mmList);
      }
      if size > PAGE - HDR {
        OversizeUnlisted(mem[..], list, blocks, pages, size);
      }
    }

    /** kernel/malloc.c:87-100: a block of at least `size` bytes, coalescing first and growing second. */
    method Search(size: int) returns (mm: int)
      requires Valid() && size > 0
      modifies this, mem, frames.mmap
      ensures Valid() && mmList == old(mmList)
      ensures mm == At(list, FirstFit(mem[..], list, 0, size))
      ensures Carried(old(mem[..]), old(blocks), mem[..], blocks, mmList)
      ensures size > PAGE - HDR ==> mm == 0 && !frames.KernelHasFree(frames.mmap[..])
      ensures old(FirstFit(mem[..], list, 0, size) < |list|) ==>
                mem[..] == old(mem[..]) && list == old(list) && blocks == old(blocks)
      ensures size <= PAGE - HDR && old(Fits(mem[..], blocks, size)) ==>
                && mm != 0 && pages == old(pages) && frames.mmap[..] == old(frames.mmap[..])
                && Coalesced(old(mem[..]), old(blocks), mem[..], blocks, mmList)
      ensures size <= PAGE - HDR && old(!Fits(mem[..], blocks, size) && frames.KernelHasFree(frames.mmap[..])) ==>
                && mm != 0
                && OnePageMore(old(pages), old(frames.mmap[..]), pages, frames.mmap[..], mm,
                               frames.KernelPick(old(frames.mmap[..])))
      ensures size <= PAGE - HDR && old(!Fits(mem[..], blocks, size) && !frames.KernelHasFree(frames.mmap[..])) ==>
                mm == 0 && pages == old(pages) && frames.mmap[..] == old(frames.mmap[..])
      ensures GrewFresh(old(pages), old(frames.mmap[..]), pages, frames.mmap[..])
    {
      ghost var m0, b0 := mem[..], blocks;
      InvHeaders(m0, list, blocks, pages, {});
      FitsListed(m0, list, blocks, pages, size);
      mm := Find(mmList, size, list);
      CoalescedRefl(m0, b0, mmList);
      CoalescedCarries(m0, b0, m0, b0, mmList);
      if mm == 0 {
        NothingListed(m0, list, blocks, pages, size);
        mmList, list, blocks := Clean(mmList, list, blocks, pages);
        ghost var m1, b1 := mem[..], blocks;
        FitsListed(m1, list, b1, pages, size);
        assert Fits(m1, b1, size) <==> Fits(m0, b0, size);
        CoalescedCarries(m0, b0, m1, b1, mmList);
        mm := Enlarge(size);
        CarriedTrans(m0, b0, m1, b1, mem[..], blocks, mmList);
        InvHeaders(mem[..], list, blocks, pages, {});
      } else if size > PAGE - HDR {
        OversizeUnlisted(m0, list, blocks, pages, size);
      }
    }

    /** kernel/malloc.c:101-111: allocate from the block that was found. `m0`, `b0`, `g0` is the
        heap before the search. */
    method Take(mm: int, size: int, ghost m0: Mem, ghost b0: set<int>, ghost g0: set<int>) returns (p: int)
      requires Valid() && size > 0 && size % 4 == 0
      requires mm == At(list, FirstFit(mem[..], list, 0, size)) && mm != 0
      requires Carried(m0, b0, mem[..], blocks, mmList) && Tiled(m0, b0, g0)
      modifies this, mem
      ensures Valid() && mmList == old(mmList) && pages == old(pages)
      ensures p == mm + HDR && p != 0
      ensures BehindHeader(mem[..], p, 0xFB) && size <= W(mem[..], p - 16) <= size + 16
      ensures Allocated(m0, b0, old(mem[..]), old(blocks), mem[..], blocks, mmList, mm, size)
    {
      ghost var m1, l1, b1 := mem[..], list, blocks;
      ghost var k := FirstFit(m1, l1, 0, size);
      FirstFitIsBest(m1, l1, b1, pages, size);
      BlockPlace(m1, b1, pages, mm);
      mmList, list, blocks := Carve(mmList, mm, size, l1, k, b1, pages);
      MallocEffect(m0, b0, g0, m1, l1, b1, pages, mem[..], blocks, mmList, mm, size);
      return mm + HDR;
    }

    /** kernel/malloc.c:87-111: the same for a rounded size. `before`, `cand` is the heap from which the
        block was chosen. */
    method MallocRounded(size: int) returns (p: int, ghost before: Mem, ghost cand: set<int>)
      requires Valid() && size > 0 && size % 4 == 0
      modifies this, mem, frames.mmap
      ensures Valid() && mmList == old(mmList)
      ensures p == 0 <==> size > 4080
                          || old(!Fits(mem[..], blocks, size) && !frames.KernelHasFree(frames.mmap[..]))
      ensures size > 4080 ==> !frames.KernelHasFree(frames.mmap[..])
      ensures p == 0 ==>
                && Carried(old(mem[..]), old(blocks), mem[..], blocks, mmList)
                && OthersKept(old(mem[..]), old(blocks), mem[..], 0)
      // the payload starts right behind the four words of the header
      ensures p != 0 ==>
                BehindHeader(mem[..], p, 0xFB) && size <= W(mem[..], p - 16) <= size + 16
      ensures p != 0 ==>
                Allocated(old(mem[..]), old(blocks), before, cand, mem[..], blocks, mmList, p - 16, size)
      ensures old(FirstFit(mem[..], list, 0, size) < |list|) ==> before == old(mem[..]) && cand == old(blocks)
      ensures p != 0 && old(Fits(mem[..], blocks, size)) ==>
                && Coalesced(old(mem[..]), old(blocks), before, cand, mmList)
                && pages == old(pages) && frames.mmap[..] == old(frames.mmap[..])
      ensures p != 0 && old(!Fits(mem[..], blocks, size)) ==>
                OnePageMore(old(pages), old(frames.mmap[..]), pages, frames.mmap[..], p - 16,
                            frames.KernelPick(old(frames.mmap[..])))
      ensures p == 0 && size <= 4080 ==> pages == old(pages) && frames.mmap[..] == old(frames.mmap[..])
      ensures GrewFresh(old(pages), old(frames.mmap[..]), pages, frames.mmap[..])
    {
      ghost var m0, b0, g0 := mem[..], blocks, pages;
      var mm := Search(size);
      before, cand := mem[..], blocks;
      if mm == 0 {
        OthersKeptIfHeadersOnly(m0, b0, g0, before, cand, pages, mmList, 0);
        p := 0;
      } else {
        CoalescedRefl(m0, b0, mmList);
        p := Take(mm, size, m0, b0, g0);
      }
    }

    /** kernel/malloc.c:83-112. `before`, `cand` is the heap from which the block was chosen. */
    method Malloc(size: int) returns (p: int, ghost before: Mem, ghost cand: set<int>)
      requires Valid() && 1 <= size <= 0xFFFF_FFFC
      modifies this, mem, frames.mmap
      ensures Valid() && mmList == old(mmList)
      ensures p == 0 <==> Round4(size) > 4080
                          || old(!Fits(mem[..], blocks, Round4(size)) && !frames.KernelHasFree(frames.mmap[..]))
      ensures Round4(size) > 4080 ==> !frames.KernelHasFree(frames.mmap[..])
      ensures p == 0 ==>
                && Carried(old(mem[..]), old(blocks), mem[..], blocks, mmList)
                && OthersKept(old(mem[..]), old(blocks), mem[..], 0)
      // the payload starts right behind the four words of the header
      ensures p != 0 ==>
                BehindHeader(mem[..], p, 0xFB) && Round4(size) <= W(mem[..], p - 16) <= Round4(size) + 16
      ensures p != 0 ==>
                Allocated(old(mem[..]), old(blocks), before, cand, mem[..], blocks, mmList, p - 16, Round4(size))
      ensures old(FirstFit(mem[..], list, 0, Round4(size)) < |list|) ==> before == old(mem[..]) && cand == old(blocks)
      ensures p != 0 && old(Fits(mem[..], blocks, Round4(size))) ==>
                && Coalesced(old(mem[..]), old(blocks), before, cand, mmList)
                && pages == old(pages) && frames.mmap[..] == old(frames.mmap[..])
      ensures p != 0 && old(!Fits(mem[..], blocks, Round4(size))) ==>
                OnePageMore(old(pages), old(frames.mmap[..]), pages, frames.mmap[..], p - 16,
                            frames.KernelPick(old(frames.mmap[..])))
      ensures p == 0 && Round4(size) <= 4080 ==> pages == old(pages) && frames.mmap[..] == old(frames.mmap[..])
      ensures GrewFresh(old(pages), old(frames.mmap[..]), pages, frames.mmap[..])
    {
      var rounded := (size + 3) / 4 * 4;
      assert rounded == Round4(size);
      p, before, cand := MallocRounded(rounded);
    }

    /** kernel/malloc.c:119-120: mark the block free and list it. */
    method PutBack(ml: int, mm: int, ghost list: seq<int>, ghost blocks: set<int>, ghost pages: set<int>)
      returns (r: int, ghost list': seq<int>)
      requires Inv(mem[..], list, blocks, pages, {}) && ml == list[0]
      requires mm in blocks && State(mem[..], mm) == BUSY
      modifies mem
      ensures r == ml
      ensures Inv(mem[..], list', blocks, pages, {}) && list'[0] == ml
      ensures State(mem[..], mm) == FREE && HeadersOnly(old(mem[..]), mem[..], blocks + {ml})
      ensures forall c :: c in blocks ==>
                && Size(mem[..], c) == Size(old(mem[..]), c)
                && (c != mm ==> State(mem[..], c) == State(old(mem[..]), c))
    {
      ghost var m1 := mem[..];
      BusyUnlisted(m1, list, blocks, pages, {}, mm);
      BlockPlace(m1, blocks, pages, mm);
      mem[mm + 12] := FREE;
      ghost var m2 := mem[..];
      ReleaseReady(m1, m2, list, blocks, pages, mm);
      ghost var j := FirstFit(m2, list, 0, Size(m2, mm));
      r := Add(ml, mm, list, 0);
      ReleaseEffect(m1, m2, mem[..], list, j, blocks, pages, mm);
      list' := InsertAt(list, j, mm);
    }

    /** kernel/malloc.c:114-122. */
    method Free(p: int)
      requires Valid() && (p != 0 ==> p - 16 in Live(mem[..], blocks))
      modifies this, mem
      ensures Valid() && mmList == old(mmList) && pages == old(pages)
      ensures p == 0 ==> mem[..] == old(mem[..]) && list == old(list) && blocks == old(blocks)
      ensures p != 0 ==> Freed(old(mem[..]), old(blocks), mem[..], blocks, mmList, p - 16) && W(mem[..], p - 4) == 0xFE
    {
      if p != 0 {
        ghost var m0, l0, b0 := mem[..], list, blocks;
        var mm := p - HDR;
        BusyUnlisted(m0, l0, b0, pages, {}, mm);
        BlockPlace(m0, b0, pages, mm);
        ghost var k;
        mm, k := Unite(mm, l0, b0, pages, {});
        ghost var m1 := mem[..];
        if FreeRight(m0, mm) {
          list, blocks := RemoveAt(l0, k), b0 - {l0[k]};
        }
        mmList, list := PutBack(mmList, mm, list, blocks, pages);
        FreeEffect(m0, b0, pages, m1, blocks, mem[..], mmList, mm);
      }
    }
  }
}
