/** The paging methods of kernel/mm.c. */
module Paging {
  import opened Memory
  import opened Frames
  import opened PageWalk
  import opened PagingSpec
  import opened SharingSpec

  class AddressSpace {
    const mem: array<int>
    const frames: FrameMap
    /** The directory's address. */
    var cr3: int

    /** Page numbers served by demand faults so far, with the frames they got. */
    ghost var mapped: map<int, int>

    constructor (mem: array<int>, frames: FrameMap)
      ensures this.mem == mem && this.frames == frames && mapped == map[]
    {
      this.mem, this.frames, cr3, mapped := mem, frames, 0, map[];
    }

    /** kernel/mm.c:74-75: the identity-mapping entries of the table at `pte` in slot `i`. */
    method FillEntries(pte: int, i: int)
      requires 0 <= i <= TopSlot(frames.KMEM) && KernelFrame(frames.KMEM, pte) && frames.KMEM <= mem.Length
      modifies mem
      ensures var j := LowEntries(frames.KMEM, i);
              && (forall k {:trigger Entry(mem[..], pte, k)} :: 0 <= k < j ==>
                    Entry(mem[..], pte, k) == (i * ENTRIES + k) * PAGE + 3)
              && forall a {:trigger W(mem[..], a)} :: !(pte <= a < pte + 4 * j) ==> W(mem[..], a) == old(W(mem[..], a))
    {
      var j := 0;
      while i * ENTRIES + j < frames.KMEM / PAGE && j < ENTRIES
        invariant 0 <= j <= LowEntries(frames.KMEM, i)
        invariant forall k :: 0 <= k < j ==> mem[pte + 4 * k] == (i * ENTRIES + k) * PAGE + 3
        invariant forall a :: 0 <= a < mem.Length && !(pte <= a < pte + 4 * j) ==> mem[a] == old(mem[a])
        decreases ENTRIES - j
      {
        mem[pte + 4 * j] := (i * ENTRIES + j) * PAGE + 3;
        j := j + 1;
      }
    }

    /** kernel/mm.c:72-76: one table of the identity map. */
    method FillSlot(pde: int, i: int)
      requires frames.Valid() && frames.KMEM <= mem.Length && mem != frames.mmap
      requires 0 <= i <= TopSlot(frames.KMEM) && i < ENTRIES
      requires Built(mem[..], frames.mmap[..], pde, frames.KMEM, i)
      requires frames.KernelHasFree(frames.mmap[..])
      modifies mem, frames.mmap
      ensures frames.Valid()
      ensures var c, f := old(frames.mmap[..]), frames.KernelPick(old(frames.mmap[..]));
              && frames.mmap[..] == c[f := 1]
              && SlotFilled(old(mem[..]), mem[..], pde, i, f * PAGE, LowEntries(frames.KMEM, i))
    {
      ghost var m := mem[..];
      var pte := frames.GetFreePage();
      assert pte != pde;
      mem[pde + 4 * i] := Or3(pte);
      WordPage(pde, i);
      assert !(pte <= pde + 4 * i < pte + PAGE) && Pde(mem[..], pde, i) == pte + 3;
      FillEntries(pte, i);
    }

    ghost predicate Valid()
      reads this, mem, frames, frames.mmap
    {
      && frames.Valid() && frames.KMEM <= mem.Length && mem != frames.mmap
      && TablesInv(mem[..], frames.mmap[..], cr3, frames.KMEM)
      && Demand(mem[..], frames.mmap[..], cr3, frames.KMEM, mapped)
    }

    /** kernel/mm.c:71-78: one directory slot. `m0`, `c0` is the state before the first. */
    method OpenSlot(pde: int, i: int, ghost m0: Mem, ghost c0: seq<int>)
      requires frames.Valid() && frames.KMEM <= mem.Length && mem != frames.mmap && 0 <= i < ENTRIES
      requires Opening(m0, c0, mem[..], frames.mmap[..], pde, frames.KMEM, i)
      requires i <= TopSlot(frames.KMEM) ==> frames.KernelHasFree(frames.mmap[..])
      modifies mem, frames.mmap
      ensures frames.Valid()
      ensures Opening(m0, c0, mem[..], frames.mmap[..], pde, frames.KMEM, i + 1)
      ensures var c := old(frames.mmap[..]);
              frames.mmap[..] == if i <= TopSlot(frames.KMEM) then c[frames.KernelPick(c) := 1] else c
    {
      ghost var m, c := mem[..], frames.mmap[..];
      if i <= frames.KMEM / PAGE / ENTRIES {
        FillSlot(pde, i);
        OpeningFilled(m0, c0, m, c, mem[..], pde, frames.KMEM, i, frames.KernelPick(c) * PAGE);
      } else {
        mem[pde + 4 * i] := 0;
        OpeningCleared(m0, c0, m, c, mem[..], pde, frames.KMEM, i);
      }
    }

    /** kernel/mm.c:70-79: the loop over the directory. `m0`, `c0` is the state before the first frame
        was taken. */
    method OpenSlots(pde: int, ghost m0: Mem, ghost c0: seq<int>)
      requires frames.Valid() && frames.KMEM <= mem.Length && mem != frames.mmap
      requires Opening(m0, c0, mem[..], frames.mmap[..], pde, frames.KMEM, 0)
      requires FreeCount(frames.mmap[..], KERNEL_SPACE / PAGE, frames.KMEM / PAGE) >= TopSlot(frames.KMEM) + 1
      modifies mem, frames.mmap
      ensures frames.Valid() && Opening(m0, c0, mem[..], frames.mmap[..], pde, frames.KMEM, ENTRIES)
      ensures FreeCount(frames.mmap[..], KERNEL_SPACE / PAGE, frames.KMEM / PAGE)
              == FreeCount(old(frames.mmap[..]), KERNEL_SPACE / PAGE, frames.KMEM / PAGE) - (TopSlot(frames.KMEM) + 1)
    {
      ghost var lo, hi := KERNEL_SPACE / PAGE, frames.KMEM / PAGE;
      ghost var n := FreeCount(frames.mmap[..], lo, hi);
      for i := 0 to ENTRIES
        invariant frames.Valid()
        invariant Opening(m0, c0, mem[..], frames.mmap[..], pde, frames.KMEM, i)
        invariant FreeCount(frames.mmap[..], lo, hi) + Min(i, TopSlot(frames.KMEM) + 1) == n
      {
        ghost var c := frames.mmap[..];
        FreeCountZero(c, lo, hi);
        OpenSlot(pde, i, m0, c0);
        if i <= TopSlot(frames.KMEM) { FreeCountTake(c, lo, hi, frames.KernelPick(c), 1); }
      }
    }

    /** kernel/mm.c:66-87, without the switch of CR0. */
    method OpenPagination() returns (pde: int)
      requires frames.Valid() && frames.KMEM <= mem.Length && mem != frames.mmap
      requires FreeCount(frames.mmap[..], 0x400, frames.KMEM / 0x1000) >= frames.KMEM / 0x40_0000 + 2
      modifies this, mem, frames.mmap
      ensures Valid() && cr3 == pde && mapped == map[]
      // the identity up to KMEM
      ensures forall va {:trigger Walk(mem[..], pde, va)} :: 0 <= va && va / 0x1000 < frames.KMEM / 0x1000 ==>
                Walk(mem[..], pde, va) == Mapped(va, true, false)
      // slots up to that of KMEM are the kernel's, those above absent
      ensures forall i :: 0 <= i <= frames.KMEM / 0x40_0000 ==> Pde(mem[..], pde, i) % 8 == 3
      ensures forall i :: frames.KMEM / 0x40_0000 < i < 1024 ==> Pde(mem[..], pde, i) == 0
      // in the last table, entries not below KMEM are left over
      ensures var t := TableOf(Pde(mem[..], pde, frames.KMEM / 0x40_0000));
              forall k {:trigger Entry(mem[..], t, k)} :: frames.KMEM / 0x1000 % 0x400 <= k < 1024 ==>
                Entry(mem[..], t, k) == Entry(old(mem[..]), t, k)
      ensures FreshOnly(old(mem[..]), old(frames.mmap[..]), mem[..], frames.mmap[..])
      ensures LowKept(old(mem[..]), mem[..])
      ensures FreeCount(frames.mmap[..], 0x400, frames.KMEM / 0x1000)
              == FreeCount(old(frames.mmap[..]), 0x400, frames.KMEM / 0x1000) - (frames.KMEM / 0x40_0000 + 2)
    {
      ghost var m0, c0, lo, hi := mem[..], frames.mmap[..], KERNEL_SPACE / PAGE, frames.KMEM / PAGE;
      TopByAddress(frames.KMEM);
      FreeCountZero(c0, lo, hi);
      pde := frames.GetFreePage();
      FreeCountTake(c0, lo, hi, pde / PAGE, 1);
      OpenSlots(pde, m0, c0);
      OpenedByAddress(m0, c0, mem[..], frames.mmap[..], pde, frames.KMEM);
      cr3, mapped := pde, map[];
    }

    /** kernel/mm.c:102-104: a table for page `n`, if its slot has none. The table is not cleared. */
    method EnsureTable(pde: int, n: int)
      requires frames.Valid() && frames.KMEM <= mem.Length && mem != frames.mmap
      requires KernelFrame(frames.KMEM, pde) && 0 <= n < PAGES
      requires !Present(Pde(mem[..], pde, Slot(n))) ==> frames.KernelHasFree(frames.mmap[..])
      modifies mem, frames.mmap
      ensures frames.Valid()
      ensures var t := frames.KernelPick(old(frames.mmap[..])) * PAGE;
              && TableEnsured(old(mem[..]), mem[..], pde, n, t)
              && frames.mmap[..] == PutCounts(old(mem[..]), old(frames.mmap[..]), pde, n, t)
    {
      WordPage(pde, n / ENTRIES);
      if !Present(mem[pde + 4 * (n / ENTRIES)]) {
        var table := frames.GetFreePage();
        Or7Aligned(table);
        mem[pde + 4 * (n / ENTRIES)] := Or7(table);
      }
    }

    /** kernel/mm.c:105-106: the entry itself. `m`, `c` is the state before a table was ensured. */
    method SetEntry(pde: int, n: int, pd: int, ghost m: Mem, ghost c: seq<int>, ghost t: int)
      requires frames.KMEM <= mem.Length && PutReady(m, c, pde, frames.KMEM, n, t)
      requires TableEnsured(m, mem[..], pde, n, t)
      modifies mem
      ensures PutEffect(m, mem[..], pde, n, pd, t)
    {
      ghost var m1, T := mem[..], PutTable(m, pde, n, t);
      PutTableApart(m, c, pde, frames.KMEM, n, t, Slot(n));
      WordPage(pde, Slot(n));
      EnsuredPut(m, m1, Put(m1, T + 4 * (n % ENTRIES), Or7(pd)), c, pde, frames.KMEM, n, pd, t);
      var pte := TableOf(mem[pde + 4 * (n / ENTRIES)]);
      mem[pte + 4 * (n % ENTRIES)] := Or7(pd);
      assert mem[..] == Put(m1, T + 4 * (n % ENTRIES), Or7(pd));
    }

    /** kernel/mm.c:89-108. */
    method PutPage(vd: int, pd: int) returns (r: int)
      requires frames.Valid() && frames.KMEM <= mem.Length && mem != frames.mmap
      requires TablesInv(mem[..], frames.mmap[..], cr3, frames.KMEM)
      requires 0 <= vd < 0x1_0000_0000 && 0 <= pd < 0x1_0000_0000
      requires !Present(Pde(mem[..], cr3, Slot(vd / PAGE))) ==> frames.KernelHasFree(frames.mmap[..])
      modifies mem, frames.mmap
      ensures frames.Valid()
      ensures TablesInv(mem[..], frames.mmap[..], cr3, frames.KMEM) <==> r == -1 || frames.KMEM / PAGE <= vd / PAGE
      ensures r == if old(frames.mmap[pd / PAGE]) == 0 then -1 else 0
      ensures r == -1 ==> mem[..] == old(mem[..]) && frames.mmap[..] == old(frames.mmap[..])
      ensures r == 0 ==>
                var m, c, t := old(mem[..]), old(frames.mmap[..]), frames.KernelPick(old(frames.mmap[..])) * PAGE;
                && PutReady(m, c, cr3, frames.KMEM, vd / PAGE, t)
                && PutEffect(m, mem[..], cr3, vd / PAGE, pd, t)
                && frames.mmap[..] == PutCounts(m, c, cr3, vd / PAGE, t)
    {
      if frames.mmap[pd / PAGE] == 0 {
        return -1;
      }
      ghost var m, c, t := mem[..], frames.mmap[..], frames.KernelPick(frames.mmap[..]) * PAGE;
      EnsureTable(cr3, vd / PAGE);
      SetEntry(cr3, vd / PAGE, pd, m, c, t);
      PutKeepsTables(m, mem[..], c, cr3, frames.KMEM, vd / PAGE, pd, t);
      return 0;
    }

    /** Enough free frames to serve a fault on page `n`: one for the page, and one from the kernel's
        area for its table if it needs one. */
    predicate Demandable(m: Mem, c: seq<int>, n: int)
      reads this
      requires |c| == FRAMES && KERNEL_SPACE <= frames.KMEM <= KER_MM_SIZE && frames.KMEM <= frames.HMEM < 0x1_0000_0000
    {
      var table := if Present(Pde(m, cr3, Slot(n))) then 0 else 1;
      var page := if FirstFree(c, frames.KMEM / PAGE, frames.HMEM / PAGE) < frames.HMEM / PAGE then 0 else 1;
      FreeCount(c, KERNEL_SPACE / PAGE, frames.KMEM / PAGE) >= table + page
    }

    /** Exactly when both scans of the source find something: the one for the page, and after it the one
        for a table if the slot has none. */
    lemma DemandableExact(m: Mem, c: seq<int>, n: int)
      requires |c| == FRAMES && KERNEL_SPACE <= frames.KMEM <= KER_MM_SIZE && frames.KMEM <= frames.HMEM < 0x1_0000_0000
      ensures 0 <= frames.UserPick(c) < |c|
      ensures Demandable(m, c, n) <==>
                && (exists k :: 0x400 <= k < frames.HMEM / 0x1000 && c[k] == 0)
                && (W(m, cr3 + 4 * (n / 1024)) % 2 == 0 ==>
                      exists k :: 0x400 <= k < frames.KMEM / 0x1000 && k != frames.UserPick(c) && c[k] == 0)
    {
      var lo, hi, top, f := KERNEL_SPACE / PAGE, frames.KMEM / PAGE, frames.HMEM / PAGE, frames.UserPick(c);
      FreeExists(c, lo, hi);
      FreeExists(c, hi, top);
      FreeCountZero(c, hi, top);
      FreeCountZero(c, lo, hi);
      if f < top && c[f] == 0 {
        var c1 := c[f := 1];
        FreeExists(c1, lo, hi);
        FreeCountTake(c, lo, hi, f, 1);
        assert forall k :: 0 <= k < |c| ==> (c1[k] == 0 <==> k != f && c[k] == 0);
      }
    }

    /** kernel/mm.c:172: a frame for page `n`. */
    method TakeFrame(ghost n: int) returns (pd: int)
      requires frames.Valid() && Demandable(mem[..], frames.mmap[..], n)
      modifies frames.mmap
      ensures frames.Valid()
      ensures var c := old(frames.mmap[..]);
              && 0 < pd < 0x1_0000_0000 && pd == frames.UserPick(c) * PAGE && pd / PAGE == frames.UserPick(c)
                  && pd % PAGE == 0
              && c[pd / PAGE] == 0 && frames.mmap[..] == c[pd / PAGE := 1]
      ensures !Present(Pde(old(mem[..]), cr3, Slot(n))) ==> frames.KernelHasFree(frames.mmap[..])
    {
      ghost var c, lo, hi := frames.mmap[..], KERNEL_SPACE / PAGE, frames.KMEM / PAGE;
      FreeCountZero(c, lo, hi);
      pd := frames.UGetFreePage();
      FreeCountTake(c, lo, hi, pd / PAGE, 1);
      FreeCountZero(frames.mmap[..], lo, hi);
    }

    /** kernel/mm.c:170-174. The source does not look at the result of `put_page`. */
    method DoNoPage(addr: int)
      requires Valid() && frames.KMEM / 0x1000 <= addr / 0x1000 < 0x10_0000
      requires Demandable(mem[..], frames.mmap[..], addr / PAGE)
      modifies this, mem, frames.mmap
      ensures Valid() && cr3 == old(cr3)
      ensures mapped == old(mapped)[addr / PAGE := frames.UserPick(old(frames.mmap[..])) * PAGE]
      ensures Walk(mem[..], cr3, addr) == Mapped(frames.UserPick(old(frames.mmap[..])) * 0x1000 + addr % 0x1000, true,
                                                   addr / 0x40_0000 > frames.KMEM / 0x40_0000)
      ensures var c, f := old(frames.mmap[..]), frames.UserPick(old(frames.mmap[..]));
              && 0 <= f < FRAMES && c[f] == 0
              && var t := frames.KernelPick(c[f := 1]) * PAGE;
              && frames.mmap[..] == PutCounts(old(mem[..]), c[f := 1], cr3, addr / PAGE, t)
              && OthersWalk(old(mem[..]), mem[..], cr3, addr / PAGE, t)
      ensures OthersUntouched(old(mem[..]), old(frames.mmap[..]), cr3, mem[..])
      ensures WalkGrowsFresh(old(mem[..]), old(frames.mmap[..]), cr3, mem[..])
      ensures TakenMore(old(frames.mmap[..]), frames.mmap[..])
    {
      ghost var m, c, n := mem[..], frames.mmap[..], addr / PAGE;
      var pd := TakeFrame(n);
      assert mem[..] == m;
      ghost var c1 := frames.mmap[..];
      assert c1 == c[frames.UserPick(c) := 1] == c[pd / PAGE := 1] && c[pd / PAGE] == 0;
      TablesTakenMore(m, c, c1, cr3, frames.KMEM);
      var _ := PutPage(addr, pd);
      ghost var t := frames.KernelPick(c1) * PAGE;
      FaultEffect(m, mem[..], c, cr3, frames.KMEM, mapped, n, pd, t);
      mapped := mapped[n := pd];
      DemandWalk(mem[..], frames.mmap[..], cr3, frames.KMEM, mapped, addr);
    }

    /** kernel/mm.c:120-126: write-protect one table and count what it names. */
    method MarkTable(pte: int)
      requires frames.Valid() && mem != frames.mmap && Words(mem[..])
      requires pte % PAGE == 0 && 0 <= pte && pte + PAGE <= mem.Length
      modifies mem, frames.mmap
      ensures frames.Valid() && Words(mem[..])
      ensures TableMarked(old(mem[..]), mem[..], pte, ENTRIES)
      ensures TableCounted(old(mem[..]), old(frames.mmap[..]), frames.mmap[..], pte, ENTRIES)
    {
      ghost var m0, c0 := mem[..], frames.mmap[..];
      MarkStart(m0, c0, pte);
      for j := 0 to ENTRIES
        invariant frames.Valid() && Words(mem[..])
        invariant TableMarked(m0, mem[..], pte, j)
        invariant TableCounted(m0, c0, frames.mmap[..], pte, j)
      {
        ghost var m, c := mem[..], frames.mmap[..];
        var e := mem[pte + 4 * j];
        assert e == Entry(m, pte, j);
        MarkBits(e);
        if Present(e) {
          mem[pte + 4 * j] := ClearWrite(e);
          var f := mem[pte + 4 * j] / PAGE;
          frames.mmap[f] := (frames.mmap[f] + 1) % 256;
          assert mem[..] == Put(m, pte + 4 * j, ClearWrite(e));
        }
        TableStep(m0, c0, m, c, mem[..], frames.mmap[..], pte, j);
      }
    }

    /** kernel/mm.c:119-129: one directory slot. `m0`, `c0` is the state before the first. */
    method MarkSlot(dir: int, i: int, ghost m0: Mem, ghost c0: seq<int>, ghost lo: int)
      requires frames.Valid() && mem != frames.mmap && Words(mem[..])
      requires DirOk(m0, dir, frames.KMEM, ENTRIES) && 0 <= lo <= i < ENTRIES
      requires DirMarked(m0, mem[..], dir, lo, i) && DirCounted(m0, c0, frames.mmap[..], dir, lo, i)
      modifies mem, frames.mmap
      ensures frames.Valid() && Words(mem[..])
      ensures DirMarked(m0, mem[..], dir, lo, i + 1) && DirCounted(m0, c0, frames.mmap[..], dir, lo, i + 1)
    {
      ghost var m, c := mem[..], frames.mmap[..];
      SlotInPlace(m0, m, dir, frames.KMEM, lo, i);
      WordPage(dir, i);
      var e := mem[dir + 4 * i];
      assert e == Pde(m, dir, i);
      ghost var m1, c1 := m, c;
      if Present(e) {
        MarkTable(e - e % 1024);
        m1, c1 := mem[..], frames.mmap[..];
        MarkBits(e);
        assert Pde(m1, dir, i) == e;
        mem[dir + 4 * i] := ClearWrite(mem[dir + 4 * i]);
        var f := mem[dir + 4 * i] / PAGE;
        frames.mmap[f] := (frames.mmap[f] + 1) % 256;
        assert mem[..] == Put(m1, dir + 4 * i, ClearWrite(e));
      }
      SlotStepDir(m0, m, m1, mem[..], dir, frames.KMEM, lo, i);
      SlotStepCounts(m0, c0, m, c, c1, frames.mmap[..], dir, lo, i);
    }

    /** kernel/mm.c:118-130: share everything from the directory slot of KMEM on. */
    method MarkShared(dir: int)
      requires frames.Valid() && mem != frames.mmap && Words(mem[..])
      requires DirOk(mem[..], dir, frames.KMEM, ENTRIES)
      modifies mem, frames.mmap
      ensures frames.Valid() && Words(mem[..])
      ensures DirMarked(old(mem[..]), mem[..], dir, frames.KMEM / 0x40_0000, 1024)
      ensures DirCounted(old(mem[..]), old(frames.mmap[..]), frames.mmap[..], dir, frames.KMEM / 0x40_0000, 1024)
    {
      ghost var m0, c0, lo := mem[..], frames.mmap[..], TopSlot(frames.KMEM);
      TopByAddress(frames.KMEM);
      DirStart(m0, c0, dir, lo);
      for i := frames.KMEM / PAGE / ENTRIES to ENTRIES
        invariant frames.Valid() && Words(mem[..])
        invariant DirMarked(m0, mem[..], dir, lo, i) && DirCounted(m0, c0, frames.mmap[..], dir, lo, i)
      {
        MarkSlot(dir, i, m0, c0, lo);
      }
    }

    /** kernel/mm.c:131: `memcpy` of 1024 bytes. */
    method CopyDir(dir: int, newMm: int)
      requires dir % PAGE == 0 && newMm % PAGE == 0 && dir != newMm
      requires 0 <= dir && dir + PAGE <= mem.Length && 0 <= newMm && newMm + PAGE <= mem.Length
      modifies mem
      ensures DirCopied(old(mem[..]), mem[..], dir, newMm, 256)
    {
      for k := 0 to 1024 / 4
        invariant forall i :: 0 <= i < k ==> mem[newMm + 4 * i] == old(mem[dir + 4 * i])
        invariant forall a :: 0 <= a < mem.Length && !(newMm <= a < newMm + 4 * k) ==> mem[a] == old(mem[a])
      {
        WordPage(dir, k);
        WordPage(newMm, k);
        mem[newMm + 4 * k] := mem[dir + 4 * k];
      }
    }

    /** kernel/mm.c:112-134, without the reload of CR3. `marked` is the memory before the copy. */
    method CreateMm() returns (newMm: int, ghost marked: Mem)
      requires Valid() && Words(mem[..]) && frames.KernelHasFree(frames.mmap[..])
      modifies mem, frames.mmap
      ensures frames.Valid()
      ensures var c, f := old(frames.mmap[..]), frames.KernelPick(old(frames.mmap[..]));
              && newMm == f * PAGE && c[f] == 0
              && DirCounted(old(mem[..]), c[f := 1], frames.mmap[..], cr3, frames.KMEM / 0x40_0000, 1024)
      ensures DirMarked(old(mem[..]), marked, cr3, frames.KMEM / 0x40_0000, 1024)
      ensures DirCopied(marked, mem[..], cr3, newMm, 256)
    {
      newMm := frames.GetFreePage();
      assert newMm != cr3;
      MarkShared(cr3);
      marked := mem[..];
      CopyDir(cr3, newMm);
    }
  }
}
