/** The byte-counted map of physical page frames (kernel/mm.c:17-64). */
module Frames {
  import opened Memory

  const FRAMES: int := 0x10_0000

  /** The wished-for size of the identity map (include/vm/kernel.h:9). */
  const KER_MM_SIZE: int := 0x4000_0000

  /** Least free frame number in `lo..hi`, or `hi`. */
  function FirstFree(c: seq<int>, lo: int, hi: int): (i: int)
    requires 0 <= lo && hi <= |c|
    ensures lo < hi ==> lo <= i <= hi
    ensures lo >= hi ==> i == hi
    ensures i < hi ==> c[i] == 0
    ensures forall k :: lo <= k < i ==> c[k] != 0
    decreases hi - lo
  {
    if lo >= hi then hi else if c[lo] == 0 then lo else FirstFree(c, lo + 1, hi)
  }

  function FreeCount(c: seq<int>, lo: int, hi: int): (n: nat)
    requires 0 <= lo && hi <= |c|
    decreases hi - lo
  {
    if lo >= hi then 0 else (if c[lo] == 0 then 1 else 0) + FreeCount(c, lo + 1, hi)
  }

  lemma {:induction false} FreeCountZero(c: seq<int>, lo: int, hi: int)
    requires 0 <= lo && hi <= |c|
    ensures FreeCount(c, lo, hi) == 0 <==> FirstFree(c, lo, hi) == hi
    decreases hi - lo
  {
    if lo < hi { FreeCountZero(c, lo + 1, hi); }
  }

  lemma FreeExists(c: seq<int>, lo: int, hi: int)
    requires 0 <= lo && hi <= |c|
    ensures FreeCount(c, lo, hi) > 0 <==> exists k :: lo <= k < hi && c[k] == 0
  {
    FreeCountZero(c, lo, hi);
    if lo < hi && FreeCount(c, lo, hi) > 0 { assert c[FirstFree(c, lo, hi)] == 0; }
  }

  /** Marking one free frame of a range takes it out of the count of free frames. */
  lemma {:induction false} FreeCountTake(c: seq<int>, lo: int, hi: int, i: int, v: int)
    requires 0 <= lo && hi <= |c| && 0 <= i < |c| && c[i] == 0 && v != 0
    ensures FreeCount(c[i := v], lo, hi) == FreeCount(c, lo, hi) - (if lo <= i < hi then 1 else 0)
    decreases hi - lo
  {
    if lo < hi { FreeCountTake(c, lo + 1, hi, i, v); }
  }

  /** No frame was given back. */
  ghost predicate TakenMore(c: seq<int>, c': seq<int>)
  {
    |c'| == |c| && forall f {:trigger c'[f]} :: 0 <= f < |c| && c[f] != 0 ==> c'[f] != 0
  }

  /** `addr` is the address of the lowest frame in `lo..hi` whose count is 0. */
  ghost predicate IsLowest(c: seq<int>, lo: int, hi: int, addr: int)
    requires 0 <= lo && hi <= |c|
  {
    exists f :: lo <= f < hi && addr == f * 0x1000 && c[f] == 0 && forall k :: lo <= k < f ==> c[k] != 0
  }

  class FrameMap {
    const mmap: array<int>
    /** End of the identity-mapped memory, and of all memory. */
    const KMEM: int
    const HMEM: int

    constructor (mmap: array<int>, kmem: int, hmem: int)
      requires mmap.Length == FRAMES && KERNEL_SPACE <= kmem <= hmem < 0x1_0000_0000 && kmem <= KER_MM_SIZE
      requires forall i :: 0 <= i < FRAMES ==> 0 <= mmap[i] < 256
      ensures this.mmap == mmap && KMEM == kmem && HMEM == hmem && Valid()
    {
      this.mmap, KMEM, HMEM := mmap, kmem, hmem;
    }

    ghost predicate Valid()
      reads this, mmap
    {
      && mmap.Length == FRAMES
      && KERNEL_SPACE <= KMEM <= HMEM < 0x1_0000_0000 && KMEM <= KER_MM_SIZE
      && forall i :: 0 <= i < FRAMES ==> 0 <= mmap[i] < 256
    }

    /** The frame the kernel allocator would hand out from the counts `c`, or the end of its range. */
    function KernelPick(c: seq<int>): int
      requires |c| == FRAMES && KERNEL_SPACE <= KMEM <= KER_MM_SIZE
    {
      FirstFree(c, KERNEL_SPACE / PAGE, KMEM / PAGE)
    }

    ghost predicate KernelHasFree(c: seq<int>)
      requires |c| == FRAMES && KERNEL_SPACE <= KMEM <= KER_MM_SIZE
    {
      KernelPick(c) < KMEM / PAGE
    }

    /** The frame the user allocator would hand out: user memory first, then kernel memory. */
    function UserPick(c: seq<int>): int
      requires |c| == FRAMES && KERNEL_SPACE <= KMEM <= KER_MM_SIZE && KMEM <= HMEM < 0x1_0000_0000
    {
      var u := FirstFree(c, KMEM / PAGE, HMEM / PAGE);
      if u < HMEM / PAGE then u else KernelPick(c)
    }

    /** kernel/mm.c:25-36. The source repeats a fruitless scan for ever; here its result is 0. */
    method GetFreePage() returns (addr: int)
      requires Valid()
      modifies mmap
      ensures Valid()
      ensures !KernelHasFree(old(mmap[..])) ==> addr == 0 && mmap[..] == old(mmap[..])
      ensures KernelHasFree(old(mmap[..])) ==>
                var i := KernelPick(old(mmap[..]));
                addr == i * PAGE && mmap[..] == old(mmap[..])[i := 1]
      // the lowest free frame from 4 MB on
      ensures addr == 0 <==> forall k :: 0x400 <= k < KMEM / 0x1000 ==> old(mmap[k]) != 0
      ensures addr != 0 ==> IsLowest(old(mmap[..]), 0x400, KMEM / 0x1000, addr)
    {
      for i := KERNEL_SPACE / PAGE to KMEM / PAGE
        invariant mmap[..] == old(mmap[..])
        invariant KernelPick(mmap[..]) == FirstFree(mmap[..], i, KMEM / PAGE)
      {
        if mmap[i] == 0 {
          mmap[i] := 1;
          return i * PAGE;
        }
      }
      return 0;
    }

    /** kernel/mm.c:38-50: user memory first, then kernel memory. */
    method UGetFreePage() returns (addr: int)
      requires Valid()
      modifies mmap
      ensures Valid()
      ensures var c := old(mmap[..]);
              if FirstFree(c, KMEM / PAGE, HMEM / PAGE) < HMEM / PAGE || KernelHasFree(c) then
                addr == UserPick(c) * PAGE && mmap[..] == c[UserPick(c) := 1]
              else
                addr == 0 && mmap[..] == c
      // the lowest free frame of user memory, or else of kernel memory
      ensures var c := old(mmap[..]);
              if exists k :: KMEM / 0x1000 <= k < HMEM / 0x1000 && c[k] == 0 then
                IsLowest(c, KMEM / 0x1000, HMEM / 0x1000, addr)
              else if exists k :: 0x400 <= k < KMEM / 0x1000 && c[k] == 0 then
                IsLowest(c, 0x400, KMEM / 0x1000, addr)
              else
                addr == 0
    {
      for i := KMEM / PAGE to HMEM / PAGE
        invariant mmap[..] == old(mmap[..])
        invariant FirstFree(mmap[..], KMEM / PAGE, HMEM / PAGE) == FirstFree(mmap[..], i, HMEM / PAGE)
      {
        if mmap[i] == 0 {
          mmap[i] := 1;
          return i * PAGE;
        }
      }
      addr := GetFreePage();
    }
  }
}
