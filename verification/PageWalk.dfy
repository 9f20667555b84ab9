/** Two-level 32-bit paging (Intel SDM volume 3A, section 4.3) over word memory. */
module PageWalk {
  import opened Memory
  import Division

  const ENTRIES: int := 1024

  /** Word `i` of the directory or table at `base`. */
  function Entry(m: Mem, base: int, i: int): int { W(m, base + 4 * i) }

  /** Directory entry `i`, the table it names, and the table entry of page number `n`. */
  function Pde(m: Mem, dir: int, i: int): int { Entry(m, dir, i) }
  function TableOf(e: int): int { PageOf(e) }
  function Slot(n: int): int { n / ENTRIES }
  function Pte(m: Mem, dir: int, n: int): int { Entry(m, TableOf(Pde(m, dir, Slot(n))), n % ENTRIES) }

  predicate Present(e: int) { e % 2 == 1 }
  predicate Writable(e: int) { e / 2 % 2 == 1 }
  predicate User(e: int) { e / 4 % 2 == 1 }

  /** `x | 3`, `x | 7` and `x & ~2` on an unsigned word. */
  function Or3(x: int): int { x - x % 4 + 3 }
  function Or7(x: int): int { x - x % 8 + 7 }
  function ClearWrite(x: int): int { if Writable(x) then x - 2 else x }

  datatype Translation = Fault | Mapped(address: int, writable: bool, user: bool)

  /** What the processor makes of virtual address `va`; access needs both levels' permission. */
  function Walk(m: Mem, dir: int, va: int): Translation
  {
    var e, p := Pde(m, dir, Slot(va / PAGE)), Pte(m, dir, va / PAGE);
    if Present(e) && Present(p) then
      Mapped(TableOf(p) + va % PAGE, Writable(e) && Writable(p), User(e) && User(p))
    else
      Fault
  }

  /** The walk in the manual's terms: bits 31 to 22, 21 to 12 and 11 to 0 of the address; bits 0, 1 and 2
      of an entry allow access at all, writing, and access by user code. */
  lemma WalkByAddress(m: Mem, dir: int, va: int)
    requires 0 <= va < 0x1_0000_0000
    ensures var e := W(m, dir + 4 * (va / 0x40_0000));
            var p := W(m, e - e % 0x1000 + 4 * (va / 0x1000 % 0x400));
            Walk(m, dir, va) ==
            if e % 2 == 1 && p % 2 == 1 then
              Mapped(p - p % 0x1000 + va % 0x1000, e / 2 % 2 == 1 && p / 2 % 2 == 1, e / 4 % 2 == 1 && p / 4 % 2 == 1)
            else
              Fault
  {
    SlotByAddress(va);
  }

  lemma SlotByAddress(va: int)
    requires 0 <= va
    ensures Slot(va / PAGE) == va / 0x40_0000
  {
  }

  /** A frame below `kmem` in the area of the kernel's frame allocator. */
  ghost predicate KernelFrame(kmem: int, f: int)
  {
    f % PAGE == 0 && KERNEL_SPACE <= f && f / PAGE < kmem / PAGE
  }

  /** Entry `i` of a directory names a table in a kernel frame other than the directory. */
  ghost predicate SlotOk(m: Mem, dir: int, kmem: int, i: int)
  {
    var e := Pde(m, dir, i);
    Present(e) ==> e % PAGE < 8 && KernelFrame(kmem, TableOf(e)) && TableOf(e) != dir
  }

  ghost predicate Apart(m: Mem, dir: int, i: int, j: int)
  {
    i != j && Present(Pde(m, dir, i)) && Present(Pde(m, dir, j)) ==> TableOf(Pde(m, dir, i)) != TableOf(Pde(m, dir, j))
  }

  /** The first `k` directory slots name pairwise different tables in kernel frames. */
  ghost predicate DirOk(m: Mem, dir: int, kmem: int, k: int)
  {
    && kmem <= |m| && KernelFrame(kmem, dir)
    && (forall i {:trigger SlotOk(m, dir, kmem, i)} :: 0 <= i < k ==> SlotOk(m, dir, kmem, i))
    && (forall i, j {:trigger Apart(m, dir, i, j)} :: 0 <= i < k && 0 <= j < k ==> Apart(m, dir, i, j))
  }

  /** Page `n` is identity-mapped for the kernel. */
  ghost predicate Identity(m: Mem, dir: int, n: int)
  {
    && Pde(m, dir, Slot(n)) % 8 == 3
    && Pte(m, dir, n) == n * PAGE + 3
  }

  /** The first `n` pages are identity-mapped. */
  ghost predicate IdentityTo(m: Mem, dir: int, n: int)
  {
    forall k {:trigger Identity(m, dir, k)} :: 0 <= k < n ==> Identity(m, dir, k)
  }

  /** The low bits of `8 * q + flags`. */
  lemma LowBits(e: int, q: int, flags: int)
    requires 0 <= flags < 8 && e == 8 * q + flags
    ensures Present(e) == Present(flags) && Writable(e) == Writable(flags) && User(e) == User(flags) && e % 8 == flags
  {
    var b0, b1, b2 := flags % 2, flags / 2 % 2, flags / 4 % 2;
    assert flags == 4 * b2 + 2 * b1 + b0;
    Division.By8(q, flags);
    Division.By2(4 * q + 2 * b2 + b1, b0);
    Division.By2(2 * q + b2, b1);
    Division.By4(2 * q + b2, 2 * b1 + b0);
    Division.By2(q, b2);
  }

  /** Flags in the low three bits of an entry leave its frame readable. */
  lemma EntryBits(f: int, flags: int)
    requires f % PAGE == 0 && 0 <= flags < 8
    ensures TableOf(f + flags) == f && (f + flags) % PAGE == flags && (f + flags) % 8 == flags
    ensures Present(f + flags) == Present(flags) && Writable(f + flags) == Writable(flags)
            && User(f + flags) == User(flags)
  {
    var q := f / PAGE;
    Division.By4096(q, flags);
    LowBits(f + flags, 512 * q, flags);
  }

  lemma TableBits(e: int)
    requires e % 8 == 3 || e % 8 == 7
    ensures Present(e) && Writable(e) && User(e) == (e % 8 == 7)
  {
    LowBits(e, e / 8, e % 8);
  }

  lemma TableFlags(e: int)
    requires e % PAGE == 3
    ensures e % 8 == 3 && Present(e)
  {
    LowBits(e, 512 * (e / PAGE), 3);
  }

  lemma IdentityWalk(m: Mem, dir: int, n: int, va: int)
    requires IdentityTo(m, dir, n) && 0 <= va && va / PAGE < n
    ensures Walk(m, dir, va) == Mapped(va, true, false)
  {
    var k := va / PAGE;
    assert Identity(m, dir, k);
    TableBits(Pde(m, dir, Slot(k)));
    Division.By4096(k, 0);
    EntryBits(k * PAGE, 3);
    assert Writable(3) && Present(3);
  }

  /** The tables and the directory: the pages the walk reads. */
  ghost predicate WalkPage(m: Mem, dir: int, p: int)
  {
    p == dir || exists i :: 0 <= i < ENTRIES && Present(Pde(m, dir, i)) && p == TableOf(Pde(m, dir, i))
  }

  lemma WordPage(base: int, i: int)
    requires base % PAGE == 0 && 0 <= i < ENTRIES
    ensures PageOf(base + 4 * i) == base && (base + 4 * i) / PAGE == base / PAGE
  {
  }

  /** Memory that agrees on the pages of the walk is walked alike. */
  lemma WalkFrame(m: Mem, m': Mem, dir: int, kmem: int)
    requires DirOk(m, dir, kmem, ENTRIES) && |m'| == |m|
    requires forall a :: WalkPage(m, dir, PageOf(a)) ==> W(m', a) == W(m, a)
    ensures forall i :: 0 <= i < ENTRIES ==> Pde(m', dir, i) == Pde(m, dir, i)
    ensures forall n :: 0 <= n && Slot(n) < ENTRIES && Present(Pde(m, dir, Slot(n))) ==>
              Pte(m', dir, n) == Pte(m, dir, n)
  {
    forall i | 0 <= i < ENTRIES
      ensures Pde(m', dir, i) == Pde(m, dir, i)
    {
      WordPage(dir, i);
    }
    forall n | 0 <= n && Slot(n) < ENTRIES && Present(Pde(m, dir, Slot(n)))
      ensures Pte(m', dir, n) == Pte(m, dir, n)
    {
      WordPage(TableOf(Pde(m, dir, Slot(n))), n % ENTRIES);
    }
  }
}
