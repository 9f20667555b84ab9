/** Mixed runs of allocation, release, client stores and demand faults over one memory and one frame map. */
module Kernel {
  import opened Memory
  import opened HeapSpec
  import opened HeapInv
  import opened HeapRuns
  import opened HeapLive
  import opened Heap
  import opened Frames
  import opened PagingSpec
  import opened Paging
  import opened Ownership
  import opened Clients

  datatype Op =
    | Alloc(size: int)
    | Release(p: int)
    | Store(p: int, offset: int, value: int)
    | Touch(addr: int)

  class Machine {
    const heap: KernelHeap
    const space: AddressSpace

    /** Each pointer that clients got and did not give back, with the size asked for. */
    var handles: Handles

    /** What clients stored last at each address of an allocation that they hold. */
    ghost var stored: map<int, int>

    constructor (heap: KernelHeap, space: AddressSpace)
      requires heap.Valid() && space.Valid() && heap.mem == space.mem && heap.frames == space.frames
      requires heap.pages == {} && heap.blocks == {}
      ensures this.heap == heap && this.space == space && handles == map[] && stored == map[] && Valid()
    {
      this.heap, this.space, handles, stored := heap, space, map[], map[];
    }

    ghost predicate Valid()
      reads this, heap, space, heap.mem, heap.frames, heap.frames.mmap, space.mem, space.frames, space.frames.mmap
    {
      && heap.mem == space.mem && heap.frames == space.frames
      && heap.Valid() && space.Valid()
      && HeapApart(heap.mem[..], space.cr3, space.mapped, heap.pages)
      && ClientInv(heap.mem[..], heap.blocks, handles, stored)
    }

    /** `malloc` can satisfy the request: it fits a page, and some run of free blocks or a free
        frame can hold it. */
    ghost predicate CanAlloc(size: int)
      requires Valid() && size >= 0
      reads this, heap, space, heap.mem, heap.frames, heap.frames.mmap, space.mem, space.frames, space.frames.mmap
    {
      && Round4(size) <= 4080
      && (Fits(heap.mem[..], heap.blocks, Round4(size)) || heap.frames.KernelHasFree(heap.frames.mmap[..]))
    }

    /** `malloc` with what it means for the two sides of the system. */
    method Allocate(size: int) returns (p: int)
      requires Valid() && 1 <= size <= 0xFFFF_FFFC
      modifies heap, heap.mem, heap.frames.mmap
      ensures WalksKept(old(heap.mem[..]), heap.mem[..], space.cr3)
      ensures heap.Valid() && space.Valid() && HeapApart(heap.mem[..], space.cr3, space.mapped, heap.pages)
      ensures p == 0 <==> !old(CanAlloc(size))
      ensures OthersKept(old(heap.mem[..]), old(heap.blocks), heap.mem[..], if p == 0 then 0 else p - HDR)
      ensures var live := old(Live(heap.mem[..], heap.blocks));
              && Live(heap.mem[..], heap.blocks) == (if p == 0 then live else live + {p - HDR})
              && (p != 0 ==> p - HDR !in live && Round4(size) <= Size(heap.mem[..], p - HDR))
    {
      ghost var m0, b0, g0, c0 := heap.mem[..], heap.blocks, heap.pages, heap.frames.mmap[..];
      ghost var before, cand;
      p, before, cand := heap.Malloc(size);
      ghost var m, b, g, c := heap.mem[..], heap.blocks, heap.pages, heap.frames.mmap[..];
      HeapMoveKeepsSpace(m0, b0, g0, c0, m, b, g, c, heap.mmList, space.cr3, space.frames.KMEM, space.mapped);
    }

    method DoAlloc(size: int) returns (p: int)
      requires Valid() && 1 <= size <= 0xFFFF_FFFC
      modifies this, heap, heap.mem, heap.frames.mmap
      ensures WalksKept(old(heap.mem[..]), heap.mem[..], space.cr3)
      ensures Valid() && stored == old(stored)
      ensures space.mapped == old(space.mapped) && space.cr3 == old(space.cr3)
      ensures p == 0 <==> !old(CanAlloc(size))
      ensures if p == 0 then handles == old(handles)
              else p !in old(handles) && handles == old(handles)[p := size]
    {
      ghost var m0, b0 := heap.mem[..], heap.blocks;
      ZeroNotLive(m0, b0, heap.pages);
      p := Allocate(size);
      if p == 0 {
        SameClients(m0, b0, heap.mem[..], heap.blocks, handles, stored);
      } else {
        AllocClients(m0, b0, heap.mem[..], heap.blocks, handles, stored, p - HDR, size);
        handles := handles[p := size];
      }
    }

    method DoRelease(p: int)
      requires Valid() && p in handles
      modifies this, heap, heap.mem
      ensures WalksKept(old(heap.mem[..]), heap.mem[..], space.cr3)
      ensures Valid() && handles == old(handles) - {p}
      ensures stored == Without(old(handles), old(stored), p)
      ensures space.mapped == old(space.mapped) && space.cr3 == old(space.cr3)
    {
      ghost var m0, b0, g0, c0 := heap.mem[..], heap.blocks, heap.pages, heap.frames.mmap[..];
      assert HandleOk(m0, b0, p, handles[p]);
      BlockPlace(m0, b0, g0, p - HDR);
      heap.Free(p);
      ghost var m, b := heap.mem[..], heap.blocks;
      assert heap.frames.mmap[..] == c0;
      HeapMoveKeepsSpace(m0, b0, g0, c0, m, b, g0, c0, heap.mmList, space.cr3, space.frames.KMEM, space.mapped);
      FreeClients(m0, b0, m, b, handles, stored, p);
      handles, stored := handles - {p}, Without(handles, stored, p);
    }

    method DoStore(p: int, offset: int, value: int)
      requires Valid() && p in handles && 0 <= offset < handles[p] && offset % 4 == 0
      modifies this, heap.mem
      ensures WalksKept(old(heap.mem[..]), heap.mem[..], space.cr3)
      ensures Valid() && handles == old(handles) && stored == old(stored)[p + offset := value]
      ensures space.mapped == old(space.mapped) && space.cr3 == old(space.cr3)
    {
      ghost var m, l, b, g, a := heap.mem[..], heap.list, heap.blocks, heap.pages, p + offset;
      assert HandleOk(m, b, p, handles[p]);
      BlockPlace(m, b, g, p - HDR);
      StoreKeepsHeap(m, l, b, g, p - HDR, a, value);
      StoreKeepsSpace(m, heap.frames.mmap[..], g, a, value, space.cr3, space.frames.KMEM, space.mapped);
      StoreClients(m, b, handles, stored, p, a, value);
      heap.mem[p + offset] := value;
      assert heap.mem[..] == Put(m, a, value);
      stored := stored[a := value];
    }

    method DoTouch(addr: int)
      requires Valid() && space.frames.KMEM / PAGE <= addr / PAGE < PAGES
      requires space.Demandable(space.mem[..], space.frames.mmap[..], addr / PAGE)
      modifies space, space.mem, space.frames.mmap
      ensures Valid() && handles == old(handles) && stored == old(stored)
      ensures space.cr3 == old(space.cr3)
      ensures var c, f := old(space.frames.mmap[..]), space.frames.UserPick(old(space.frames.mmap[..]));
              && space.mapped == old(space.mapped)[addr / PAGE := f * PAGE]
              && 0 <= f < FRAMES
              && OthersWalk(old(space.mem[..]), space.mem[..], space.cr3, addr / PAGE,
                      space.frames.KernelPick(c[f := 1]) * PAGE)
    {
      ghost var m, c, l, b, g, d := heap.mem[..], heap.frames.mmap[..], heap.list, heap.blocks, heap.pages,
              space.mapped;
      ZeroNotLive(m, b, g);
      space.DoNoPage(addr);
      ghost var m', c' := heap.mem[..], heap.frames.mmap[..];
      FaultKeepsHeap(m, c, m', c', l, b, g, space.cr3, d, addr / PAGE, space.mapped[addr / PAGE]);
      SameClients(m, b, m', b, handles, stored);
    }

    /** One operation; a call that the kernel's interface does not allow is skipped, and so is a
        fault for which frames are lacking, where the source would wait for ever. */
    method Step(op: Op)
      requires Valid()
      modifies this, heap, heap.mem, heap.frames.mmap, space
      ensures Valid() && space.cr3 == old(space.cr3)
      ensures op.Alloc? && 1 <= op.size <= 0xFFFF_FFFC && old(CanAlloc(op.size)) ==>
                exists p :: p !in old(handles) && handles == old(handles)[p := op.size]
      ensures op.Release? && op.p in old(handles) ==> handles == old(handles) - {op.p}
      ensures op.Store? && op.p in old(handles) && 0 <= op.offset < old(handles)[op.p] && op.offset % 4 == 0 ==>
                stored == old(stored)[op.p + op.offset := op.value]
      ensures op.Touch? && space.frames.KMEM / 0x1000 <= op.addr / 0x1000 < 0x10_0000
              && old(space.Demandable(space.mem[..], space.frames.mmap[..], op.addr / PAGE)) ==>
                op.addr / PAGE in space.mapped
      ensures MappedKept(old(heap.mem[..]), heap.mem[..], space.cr3, Touched([op]))
      ensures Kept([op], old(handles), old(stored), old(space.mapped), handles, stored, space.mapped)
    {
      ghost var h, st, d := handles, stored, space.mapped;
      match op {
        case Alloc(size) =>
          if 1 <= size <= 0xFFFF_FFFC {
            var _ := DoAlloc(size);
          }
        case Release(p) =>
          if p in handles {
            ReleaseSpares(heap.mem[..], heap.list, heap.blocks, heap.pages, handles, stored, p);
            DoRelease(p);
          }
        case Store(p, offset, value) =>
          if p in handles && 0 <= offset < handles[p] && offset % 4 == 0 {
            DoStore(p, offset, value);
          }
        case Touch(addr) =>
          if space.frames.KMEM / PAGE <= addr / PAGE < PAGES
             && space.Demandable(space.mem[..], space.frames.mmap[..], addr / PAGE) {
            ghost var c1 := space.frames.mmap[..][space.frames.UserPick(space.frames.mmap[..]) := 1];
            ghost var m := heap.mem[..];
            DoTouch(addr);
            MappedStays(m, heap.mem[..], space.cr3, addr / PAGE, space.frames.KernelPick(c1) * PAGE);
          }
      }
      KeptOne(op, h, st, d, handles, stored, space.mapped);
    }

    /** Any run of operations: what a client stored and did not overwrite or give back is still
        there, allocations that were not given back are still held, and pages that did not fault
        again are still mapped to their frames. */
    method Run(ops: seq<Op>)
      requires Valid()
      modifies this, heap, heap.mem, heap.frames.mmap, space
      ensures Valid() && space.cr3 == old(space.cr3)
      ensures forall p :: p in old(handles) && Release(p) !in ops ==> p in handles && handles[p] == old(handles)[p]
      ensures forall p, a ::
                a in old(stored) && p in old(handles) && p <= a < p + old(handles)[p] && AllSpare(ops, p, a) ==>
                W(heap.mem[..], a) == old(stored)[a]
      ensures MappedKept(old(heap.mem[..]), heap.mem[..], space.cr3, Touched(ops))
      ensures forall n :: n in old(space.mapped) && n !in Touched(ops) ==>
                n in space.mapped && space.mapped[n] == old(space.mapped)[n]
    {
      for i := 0 to |ops|
        invariant Valid() && space.cr3 == old(space.cr3)
        invariant MappedKept(old(heap.mem[..]), heap.mem[..], space.cr3, Touched(ops[..i]))
        invariant Kept(ops[..i], old(handles), old(stored), old(space.mapped), handles, stored, space.mapped)
      {
        ghost var m, h, st, d := heap.mem[..], handles, stored, space.mapped;
        Step(ops[i]);
        MappedTrans(old(heap.mem[..]), m, heap.mem[..], space.cr3, Touched(ops[..i]), Touched([ops[i]]));
        TouchedMore(ops, i);
        KeptTrans(ops[..i], [ops[i]], old(handles), old(stored), old(space.mapped), h, st, d, handles, stored,
                space.mapped);
        assert ops[..i + 1] == ops[..i] + [ops[i]];
      }
      assert ops[..|ops|] == ops;
    }
  }

  /** What the operations `ops` leave of handles, stored words and served pages: all that they do
      not give back, overwrite or serve again. */
  ghost predicate Kept(ops: seq<Op>, h: Handles, st: map<int, int>, d: map<int, int>, h': Handles, st': map<int, int>,
                       d': map<int, int>)
  {
    && (forall p :: p in h && Release(p) !in ops ==> p in h' && h'[p] == h[p])
    && (forall p, a :: a in st && p in h && p <= a < p + h[p] && AllSpare(ops, p, a) ==> a in st' && st'[a] == st[a])
    && forall n :: n in d && n !in Touched(ops) ==> n in d' && d'[n] == d[n]
  }

  lemma KeptOne(op: Op, h: Handles, st: map<int, int>, d: map<int, int>, h': Handles, st': map<int, int>,
                d': map<int, int>)
    requires forall p :: p in h && op != Release(p) ==> p in h' && h'[p] == h[p]
    requires forall p, a :: a in st && p in h && p <= a < p + h[p] && Spares(op, p, a) ==> a in st' && st'[a] == st[a]
    requires forall n :: n in d && n !in Touched([op]) ==> n in d' && d'[n] == d[n]
    ensures Kept([op], h, st, d, h', st', d')
  {
    assert op in [op];
  }

  lemma KeptTrans(ops: seq<Op>, ops': seq<Op>, h: Handles, st: map<int, int>, d: map<int, int>,
                  h1: Handles, st1: map<int, int>, d1: map<int, int>,
                  h2: Handles, st2: map<int, int>, d2: map<int, int>)
    requires Kept(ops, h, st, d, h1, st1, d1) && Kept(ops', h1, st1, d1, h2, st2, d2)
    ensures Kept(ops + ops', h, st, d, h2, st2, d2)
  {
    forall p, a | a in st && p in h && p <= a < p + h[p] && AllSpare(ops + ops', p, a)
      ensures a in st2 && st2[a] == st[a]
    {
      assert AllSpare(ops, p, a) && AllSpare(ops', p, a);
      assert !Spares(Release(p), p, a);
    }
    forall n | n in d && n !in Touched(ops + ops')
      ensures n in d2 && d2[n] == d[n]
    {
      assert n !in Touched(ops) && n !in Touched(ops');
    }
  }

  /** kernel/mm.c:66-87 and kernel/malloc.c:81-82: the kernel comes up, with `mmap` counting frames in
      any way that leaves enough of them and the sentinel at address `sentinel`. */
  method Boot(mem: array<int>, mmap: array<int>, kmem: int, hmem: int, sentinel: int) returns (machine: Machine)
    requires mmap.Length == 0x10_0000 && mem != mmap && kmem <= mem.Length
    requires 0x40_0000 <= kmem <= hmem < 0x1_0000_0000 && kmem <= 0x4000_0000
    requires forall i :: 0 <= i < 0x10_0000 ==> 0 <= mmap[i] < 256
    requires FreeCount(mmap[..], 0x400, kmem / 0x1000) >= kmem / 0x40_0000 + 2
    requires 0 < sentinel && sentinel + 16 <= 0x40_0000
    requires Size(mem[..], sentinel) == 0 && Next(mem[..], sentinel) == 0 && Root(mem[..], sentinel) == 0
    modifies mem, mmap
    ensures machine.Valid() && machine.handles == map[] && machine.stored == map[] && machine.space.mapped == map[]
    ensures machine.heap.mem == mem && machine.heap.frames.mmap == mmap && machine.heap.mmList == sentinel
  {
    var frames := new FrameMap(mmap, kmem, hmem);
    var space := new AddressSpace(mem, frames);
    var _ := space.OpenPagination();
    var heap := new KernelHeap(mem, frames, sentinel);
    machine := new Machine(heap, space);
  }

  /** `op` neither gives back `p` nor stores to `a`. */
  predicate Spares(op: Op, p: int, a: int)
  {
    op != Release(p) && !(op.Store? && op.p + op.offset == a)
  }

  /** The pages that `ops` fault on. */
  function Touched(ops: seq<Op>): set<int>
  {
    set op | op in ops && op.Touch? :: op.addr / PAGE
  }

  lemma TouchedMore(ops: seq<Op>, i: nat)
    requires i < |ops|
    ensures Touched(ops[..i]) + Touched([ops[i]]) == Touched(ops[..i + 1])
  {
    assert ops[..i + 1] == ops[..i] + [ops[i]];
  }

  predicate AllSpare(ops: seq<Op>, p: int, a: int) { forall op :: op in ops ==> Spares(op, p, a) }

  /** Giving back `q` forgets no word that is held through another pointer. */
  lemma ReleaseSpares(m: Mem, l: seq<int>, blocks: set<int>, pages: set<int>, handles: Handles, stored: map<int, int>,
                      q: int)
    requires Inv(m, l, blocks, pages, {}) && ClientInv(m, blocks, handles, stored) && q in handles
    ensures forall p, a :: a in stored && p in handles && p <= a < p + handles[p] && p != q ==>
              a in Without(handles, stored, q) && Without(handles, stored, q)[a] == stored[a]
  {
    forall p, a | a in stored && p in handles && p <= a < p + handles[p] && p != q
      ensures a in Without(handles, stored, q) && Without(handles, stored, q)[a] == stored[a]
    {
      HandlesDisjoint(m, l, blocks, pages, handles, stored, p, q);
    }
  }
}
