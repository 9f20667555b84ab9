/** What the paging code of kernel/mm.c builds and keeps. */
module PagingSpec {
  import opened Memory
  import opened Frames
  import opened PageWalk
  import Division

  function Min(a: int, b: int): int { if a <= b then a else b }

  /** First directory slot that is not wholly below `kmem`: `KMEM >> 22`. */
  function TopSlot(kmem: int): int { kmem / PAGE / ENTRIES }

  /** The top slot, and how much of it lies below `kmem`, by address. */
  lemma TopByAddress(kmem: int)
    requires 0 <= kmem
    ensures TopSlot(kmem) == kmem / 0x40_0000 && LowEntries(kmem, TopSlot(kmem)) == kmem / 0x1000 % 0x400
  {
    SlotByAddress(kmem);
  }

  /** Frame `f` is taken. */
  ghost predicate Taken(c: seq<int>, f: int)
  {
    0 <= f / PAGE < |c| && c[f / PAGE] != 0
  }

  ghost predicate TableTaken(m: Mem, c: seq<int>, dir: int, i: int)
  {
    Present(Pde(m, dir, i)) ==> Taken(c, TableOf(Pde(m, dir, i)))
  }

  /** The directory's and the tables' frames are taken. */
  ghost predicate TablesOwned(m: Mem, c: seq<int>, dir: int, k: int)
  {
    && Taken(c, dir)
    && forall i {:trigger TableTaken(m, c, dir, i)} :: 0 <= i < k ==> TableTaken(m, c, dir, i)
  }

  /** The first `k` slots are as `open_pagination` sets them. */
  ghost predicate BootSlot(m: Mem, dir: int, kmem: int, i: int)
  {
    if i <= TopSlot(kmem) then Pde(m, dir, i) % PAGE == 3 else Pde(m, dir, i) == 0
  }

  ghost predicate Built(m: Mem, c: seq<int>, dir: int, kmem: int, k: int)
  {
    && DirOk(m, dir, kmem, k)
    && TablesOwned(m, c, dir, k)
    && (forall i {:trigger BootSlot(m, dir, kmem, i)} :: 0 <= i < k ==> BootSlot(m, dir, kmem, i))
    && IdentityTo(m, dir, Min(k * ENTRIES, kmem / PAGE))
  }

  /** A table at `t` was hung into slot `i` and its first `j` entries identity-mapped. */
  ghost predicate SlotFilled(m: Mem, m': Mem, dir: int, i: int, t: int, j: int)
  {
    && |m'| == |m|
    && Pde(m', dir, i) == t + 3
    && (forall k {:trigger Entry(m', t, k)} :: 0 <= k < j ==> Entry(m', t, k) == (i * ENTRIES + k) * PAGE + 3)
    && forall a {:trigger W(m', a)} :: a != dir + 4 * i && !(t <= a < t + 4 * j) ==> W(m', a) == W(m, a)
  }

  lemma FilledOldPde(m: Mem, m': Mem, c: seq<int>, dir: int, kmem: int, i: int, t: int, j: int, k: int)
    requires Built(m, c, dir, kmem, i) && 0 <= k < i < ENTRIES && 0 <= j <= ENTRIES
    requires KernelFrame(kmem, t) && t / PAGE < |c| && c[t / PAGE] == 0 && SlotFilled(m, m', dir, i, t, j)
    ensures Pde(m', dir, k) == Pde(m, dir, k) && t != dir
    ensures Present(Pde(m, dir, k)) ==> TableOf(Pde(m, dir, k)) != t
  {
    WordPage(dir, k);
    assert SlotOk(m, dir, kmem, k) && TableTaken(m, c, dir, k);
  }

  lemma FilledOldPte(m: Mem, m': Mem, c: seq<int>, dir: int, kmem: int, i: int, t: int, j: int, n: int)
    requires Built(m, c, dir, kmem, i) && 0 <= Slot(n) < i < ENTRIES && 0 <= j <= ENTRIES
    requires KernelFrame(kmem, t) && t / PAGE < |c| && c[t / PAGE] == 0 && SlotFilled(m, m', dir, i, t, j)
    requires Present(Pde(m, dir, Slot(n)))
    ensures Pte(m', dir, n) == Pte(m, dir, n)
  {
    FilledOldPde(m, m', c, dir, kmem, i, t, j, Slot(n));
    assert SlotOk(m, dir, kmem, Slot(n));
    WordPage(TableOf(Pde(m, dir, Slot(n))), n % ENTRIES);
    WordPage(dir, i);
  }

  /** Entries of slot `i` that lie below `kmem`: the bound of the loop at kernel/mm.c:74. */
  function LowEntries(kmem: int, i: int): int { Min(ENTRIES, kmem / PAGE - i * ENTRIES) }

  lemma FilledDirOk(m: Mem, m': Mem, c: seq<int>, dir: int, kmem: int, i: int, t: int, j: int)
    requires Built(m, c, dir, kmem, i) && 0 <= i < ENTRIES && 0 <= j <= ENTRIES
    requires KernelFrame(kmem, t) && t / PAGE < |c| && c[t / PAGE] == 0 && SlotFilled(m, m', dir, i, t, j)
    ensures DirOk(m', dir, kmem, i + 1)
    ensures TablesOwned(m', c[t / PAGE := 1], dir, i + 1)
  {
    assert t != dir;
    EntryBits(t, 3);
    var c' := c[t / PAGE := 1];
    forall k | 0 <= k < i + 1
      ensures SlotOk(m', dir, kmem, k)
    {
      if k < i {
        FilledOldPde(m, m', c, dir, kmem, i, t, j, k);
        assert SlotOk(m, dir, kmem, k);
      }
    }
    forall k, n | 0 <= k < i + 1 && 0 <= n < i + 1
      ensures Apart(m', dir, k, n)
    {
      if k < i { FilledOldPde(m, m', c, dir, kmem, i, t, j, k); }
      if n < i { FilledOldPde(m, m', c, dir, kmem, i, t, j, n); }
      if k < i && n < i { assert Apart(m, dir, k, n); }
    }
    forall k | 0 <= k < i + 1
      ensures TableTaken(m', c', dir, k)
    {
      if k < i {
        FilledOldPde(m, m', c, dir, kmem, i, t, j, k);
        assert TableTaken(m, c, dir, k);
      }
    }
  }

  lemma FilledIdentityOld(m: Mem, m': Mem, c: seq<int>, dir: int, kmem: int, i: int, t: int, j: int, n: int)
    requires Built(m, c, dir, kmem, i) && 0 <= i < ENTRIES && 0 <= j <= ENTRIES
    requires KernelFrame(kmem, t) && t / PAGE < |c| && c[t / PAGE] == 0 && SlotFilled(m, m', dir, i, t, j)
    requires 0 <= n < Min(i * ENTRIES, kmem / PAGE)
    ensures Identity(m', dir, n)
  {
    SlotBelow(n, i);
    assert Identity(m, dir, n);
    TableBits(Pde(m, dir, Slot(n)));
    FilledOldPde(m, m', c, dir, kmem, i, t, j, Slot(n));
    FilledOldPte(m, m', c, dir, kmem, i, t, j, n);
  }

  lemma SlotBelow(n: int, i: int)
    requires 0 <= n < i * ENTRIES
    ensures 0 <= Slot(n) < i
  {
  }

  lemma FilledIdentityNew(m: Mem, m': Mem, dir: int, i: int, t: int, j: int, n: int)
    requires SlotFilled(m, m', dir, i, t, j) && t % PAGE == 0 && 0 <= j <= ENTRIES
    requires i * ENTRIES <= n < i * ENTRIES + j
    ensures Identity(m', dir, n)
  {
    var k := n - i * ENTRIES;
    Division.By1024(i, k);
    EntryBits(t, 3);
    assert Entry(m', t, k) == (i * ENTRIES + k) * PAGE + 3;
  }

  lemma FilledBuilt(m: Mem, m': Mem, c: seq<int>, dir: int, kmem: int, i: int, t: int)
    requires Built(m, c, dir, kmem, i) && 0 <= i <= TopSlot(kmem) && i < ENTRIES
    requires KernelFrame(kmem, t) && t / PAGE < |c| && c[t / PAGE] == 0
    requires SlotFilled(m, m', dir, i, t, LowEntries(kmem, i))
    ensures Built(m', c[t / PAGE := 1], dir, kmem, i + 1)
  {
    FilledDirOk(m, m', c, dir, kmem, i, t, LowEntries(kmem, i));
    forall k | 0 <= k < i + 1
      ensures BootSlot(m', dir, kmem, k)
    {
      if k < i {
        FilledOldPde(m, m', c, dir, kmem, i, t, LowEntries(kmem, i), k);
        assert BootSlot(m, dir, kmem, k);
      }
    }
    forall n | 0 <= n < Min((i + 1) * ENTRIES, kmem / PAGE)
      ensures Identity(m', dir, n)
    {
      if n < i * ENTRIES {
        FilledIdentityOld(m, m', c, dir, kmem, i, t, LowEntries(kmem, i), n);
      } else {
        FilledIdentityNew(m, m', dir, i, t, LowEntries(kmem, i), n);
      }
    }
  }

  /** Slot `i` was set to 0. */
  ghost predicate SlotCleared(m: Mem, m': Mem, dir: int, i: int)
  {
    && |m'| == |m|
    && Pde(m', dir, i) == 0
    && forall a {:trigger W(m', a)} :: a != dir + 4 * i ==> W(m', a) == W(m, a)
  }

  lemma ClearedIdentity(m: Mem, m': Mem, c: seq<int>, dir: int, kmem: int, i: int, n: int)
    requires Built(m, c, dir, kmem, i) && TopSlot(kmem) < i < ENTRIES && SlotCleared(m, m', dir, i)
    requires 0 <= n < kmem / PAGE
    ensures Identity(m', dir, n)
  {
    assert 0 <= Slot(n) < i && Min(i * ENTRIES, kmem / PAGE) == kmem / PAGE;
    assert Identity(m, dir, n) && SlotOk(m, dir, kmem, Slot(n));
    WordPage(TableOf(Pde(m, dir, Slot(n))), n % ENTRIES);
    WordPage(dir, i);
  }

  lemma ClearedBuilt(m: Mem, m': Mem, c: seq<int>, dir: int, kmem: int, i: int)
    requires Built(m, c, dir, kmem, i) && TopSlot(kmem) < i < ENTRIES && SlotCleared(m, m', dir, i)
    ensures Built(m', c, dir, kmem, i + 1)
  {
    assert forall k :: 0 <= k < i ==> Pde(m', dir, k) == Pde(m, dir, k);
    forall k | 0 <= k < i + 1
      ensures SlotOk(m', dir, kmem, k) && BootSlot(m', dir, kmem, k) && TableTaken(m', c, dir, k)
    {
      if k < i { assert SlotOk(m, dir, kmem, k) && BootSlot(m, dir, kmem, k) && TableTaken(m, c, dir, k); }
    }
    forall k, n | 0 <= k < i + 1 && 0 <= n < i + 1
      ensures Apart(m', dir, k, n)
    {
      if k < i && n < i { assert Apart(m, dir, k, n); }
    }
    forall n | 0 <= n < Min((i + 1) * ENTRIES, kmem / PAGE)
      ensures Identity(m', dir, n)
    {
      ClearedIdentity(m, m', c, dir, kmem, i, n);
    }
  }

  /** Words outside the frames taken since `c0` are as they were in `m0`; no other count changed. */
  ghost predicate FreshOnly(m0: Mem, c0: seq<int>, m: Mem, c: seq<int>)
  {
    && |m| == |m0| && |c| == |c0|
    && (forall f {:trigger CountKept(c0, c, f)} :: 0 <= f < |c| ==> CountKept(c0, c, f))
    && forall a {:trigger WordKept(m0, c0, m, c, a)} :: WordKept(m0, c0, m, c, a)
  }

  ghost predicate CountKept(c0: seq<int>, c: seq<int>, f: int)
    requires |c0| == |c| && 0 <= f < |c|
  {
    c0[f] != 0 ==> c[f] == c0[f]
  }

  ghost predicate WordKept(m0: Mem, c0: seq<int>, m: Mem, c: seq<int>, a: int)
    requires |c| == |c0|
  {
    0 <= a / PAGE < |c| && c[a / PAGE] == c0[a / PAGE] ==> W(m, a) == W(m0, a)
  }

  lemma FilledFresh(m0: Mem, c0: seq<int>, m: Mem, c: seq<int>, m': Mem, dir: int, i: int, t: int, j: int)
    requires FreshOnly(m0, c0, m, c) && SlotFilled(m, m', dir, i, t, j) && 0 <= i < ENTRIES && 0 <= j <= ENTRIES
    requires dir % PAGE == 0 && Taken(c, dir) && c0[dir / PAGE] == 0
    requires t % PAGE == 0 && 0 <= t / PAGE < |c| && c[t / PAGE] == 0
    ensures FreshOnly(m0, c0, m', c[t / PAGE := 1])
    ensures forall k :: j <= k < ENTRIES ==> Entry(m', t, k) == Entry(m0, t, k)
  {
    var c' := c[t / PAGE := 1];
    assert CountKept(c0, c, t / PAGE);
    forall f | 0 <= f < |c|
      ensures CountKept(c0, c', f)
    {
      assert CountKept(c0, c, f);
    }
    WordPage(dir, i);
    forall a
      ensures WordKept(m0, c0, m', c', a)
    {
      assert WordKept(m0, c0, m, c, a);
      if t <= a < t + 4 * j { assert a / PAGE == t / PAGE; }
    }
    forall k | j <= k < ENTRIES
      ensures Entry(m', t, k) == Entry(m0, t, k)
    {
      WordPage(t, k);
      assert t / PAGE != dir / PAGE;
      assert WordKept(m0, c0, m, c, t + 4 * k);
    }
  }

  /** The entries of the topmost table that lie at or above `kmem` are whatever its frame held. */
  ghost predicate TopLeftover(m0: Mem, m: Mem, dir: int, kmem: int)
  {
    var t := TableOf(Pde(m, dir, TopSlot(kmem)));
    forall k {:trigger Entry(m, t, k)} :: LowEntries(kmem, TopSlot(kmem)) <= k < ENTRIES ==>
          Entry(m, t, k) == Entry(m0, t, k)
  }

  /** Memory below the kernel's frames is as it was, whatever its frames' counts are. */
  ghost predicate LowKept(m0: Mem, m: Mem)
  {
    forall a {:trigger W(m, a)} :: a < KERNEL_SPACE ==> W(m, a) == W(m0, a)
  }

  /** The state of `open_pagination` before slot `k`, started from `m0`, `c0`. */
  ghost predicate Opening(m0: Mem, c0: seq<int>, m: Mem, c: seq<int>, dir: int, kmem: int, k: int)
  {
    && Built(m, c, dir, kmem, k)
    && FreshOnly(m0, c0, m, c) && LowKept(m0, m) && dir / PAGE < |c0| && c0[dir / PAGE] == 0
    && (k > TopSlot(kmem) ==> TopLeftover(m0, m, dir, kmem))
  }

  lemma OpeningFilled(m0: Mem, c0: seq<int>, m: Mem, c: seq<int>, m': Mem, dir: int, kmem: int, i: int, t: int)
    requires Opening(m0, c0, m, c, dir, kmem, i) && 0 <= i <= TopSlot(kmem) && i < ENTRIES
    requires KernelFrame(kmem, t) && t / PAGE < |c| && c[t / PAGE] == 0
    requires SlotFilled(m, m', dir, i, t, LowEntries(kmem, i))
    ensures Opening(m0, c0, m', c[t / PAGE := 1], dir, kmem, i + 1)
  {
    FilledBuilt(m, m', c, dir, kmem, i, t);
    FilledFresh(m0, c0, m, c, m', dir, i, t, LowEntries(kmem, i));
    EntryBits(t, 3);
  }

  lemma ClearedFresh(m0: Mem, c0: seq<int>, m: Mem, c: seq<int>, m': Mem, dir: int, i: int)
    requires FreshOnly(m0, c0, m, c) && SlotCleared(m, m', dir, i) && 0 <= i < ENTRIES
    requires dir % PAGE == 0 && Taken(c, dir) && c0[dir / PAGE] == 0
    ensures FreshOnly(m0, c0, m', c)
  {
    WordPage(dir, i);
    forall a
      ensures WordKept(m0, c0, m', c, a)
    {
      assert WordKept(m0, c0, m, c, a);
    }
  }

  lemma ClearedLeftover(m0: Mem, m: Mem, m': Mem, dir: int, kmem: int, i: int)
    requires DirOk(m, dir, kmem, i) && 0 <= TopSlot(kmem) < i < ENTRIES && SlotCleared(m, m', dir, i)
    requires Present(Pde(m, dir, TopSlot(kmem))) && TopLeftover(m0, m, dir, kmem)
    ensures TopLeftover(m0, m', dir, kmem)
  {
    var top := TopSlot(kmem);
    assert SlotOk(m, dir, kmem, top) && Pde(m', dir, top) == Pde(m, dir, top);
    var t := TableOf(Pde(m, dir, top));
    WordPage(dir, i);
    forall k | LowEntries(kmem, top) <= k < ENTRIES
      ensures Entry(m', t, k) == Entry(m0, t, k)
    {
      if k >= 0 { WordPage(t, k); }
      assert Entry(m, t, k) == Entry(m0, t, k);
    }
  }

  lemma OpeningCleared(m0: Mem, c0: seq<int>, m: Mem, c: seq<int>, m': Mem, dir: int, kmem: int, i: int)
    requires Opening(m0, c0, m, c, dir, kmem, i) && 0 <= TopSlot(kmem) < i < ENTRIES && SlotCleared(m, m', dir, i)
    ensures Opening(m0, c0, m', c, dir, kmem, i + 1)
  {
    assert BootSlot(m, dir, kmem, TopSlot(kmem));
    TableFlags(Pde(m, dir, TopSlot(kmem)));
    ClearedLeftover(m0, m, m', dir, kmem, i);
    ClearedFresh(m0, c0, m, c, m', dir, i);
    ClearedBuilt(m, m', c, dir, kmem, i);
  }

  // ----- the address space while faults are served -----

  const PAGES: int := 0x10_0000

  /** Slots up to the top of the identity map are for the kernel only, the others for everyone. */
  ghost predicate SlotFlags(m: Mem, dir: int, kmem: int, i: int)
  {
    if i <= TopSlot(kmem) then Pde(m, dir, i) % 8 == 3
    else Present(Pde(m, dir, i)) ==> Pde(m, dir, i) % 8 == 7
  }

  ghost predicate TablesInv(m: Mem, c: seq<int>, dir: int, kmem: int)
  {
    && DirOk(m, dir, kmem, ENTRIES)
    && TablesOwned(m, c, dir, ENTRIES)
    && IdentityTo(m, dir, kmem / PAGE)
    && (forall i {:trigger SlotFlags(m, dir, kmem, i)} :: 0 <= i < ENTRIES ==> SlotFlags(m, dir, kmem, i))
  }

  /** A page fault for want of a page comes from an address that is not below KMEM. */
  lemma FaultsFromKmem(m: Mem, c: seq<int>, dir: int, kmem: int, va: int)
    requires TablesInv(m, c, dir, kmem) && 0 <= va && Walk(m, dir, va) == Fault
    ensures kmem / PAGE <= va / PAGE
  {
    if va / PAGE < kmem / PAGE { IdentityWalk(m, dir, kmem / PAGE, va); }
  }

  lemma OpenedInv(m0: Mem, c0: seq<int>, m: Mem, c: seq<int>, dir: int, kmem: int)
    requires Opening(m0, c0, m, c, dir, kmem, ENTRIES) && 0 <= TopSlot(kmem) < ENTRIES - 1
    ensures TablesInv(m, c, dir, kmem)
    ensures forall i :: TopSlot(kmem) < i < ENTRIES ==> Pde(m, dir, i) == 0
  {
    forall i | 0 <= i < ENTRIES
      ensures SlotFlags(m, dir, kmem, i) && (i > TopSlot(kmem) ==> Pde(m, dir, i) == 0)
    {
      assert BootSlot(m, dir, kmem, i);
      if i <= TopSlot(kmem) { TableFlags(Pde(m, dir, i)); }
    }
  }

  /** The finished directory by addresses, as the processor walks it. */
  lemma OpenedByAddress(m0: Mem, c0: seq<int>, m: Mem, c: seq<int>, dir: int, kmem: int)
    requires Opening(m0, c0, m, c, dir, kmem, ENTRIES) && 0 <= kmem && TopSlot(kmem) < ENTRIES - 1
    ensures TablesInv(m, c, dir, kmem)
    ensures forall va {:trigger Walk(m, dir, va)} :: 0 <= va && va / 0x1000 < kmem / 0x1000 ==>
              Walk(m, dir, va) == Mapped(va, true, false)
    ensures forall i :: 0 <= i <= kmem / 0x40_0000 ==> Pde(m, dir, i) % 8 == 3
    ensures forall i :: kmem / 0x40_0000 < i < 1024 ==> Pde(m, dir, i) == 0
    ensures var t := TableOf(Pde(m, dir, kmem / 0x40_0000));
            forall k {:trigger Entry(m, t, k)} :: kmem / 0x1000 % 0x400 <= k < 1024 ==>
                  Entry(m, t, k) == Entry(m0, t, k)
  {
    TopByAddress(kmem);
    OpenedInv(m0, c0, m, c, dir, kmem);
    forall va | 0 <= va && va / PAGE < kmem / PAGE
      ensures Walk(m, dir, va) == Mapped(va, true, false)
    {
      IdentityWalk(m, dir, kmem / PAGE, va);
    }
    forall i | 0 <= i <= TopSlot(kmem)
      ensures Pde(m, dir, i) % 8 == 3
    {
      assert SlotFlags(m, dir, kmem, i);
    }
  }

  /** What `put_page` writes: the entry of page `n`, and an entry for a new table at `t` if slot `Slot(n)` had none. */
  ghost predicate PutEffect(m: Mem, m': Mem, dir: int, n: int, pd: int, t: int)
  {
    var i := Slot(n);
    var T := if Present(Pde(m, dir, i)) then TableOf(Pde(m, dir, i)) else t;
    && |m'| == |m|
    && (!Present(Pde(m, dir, i)) ==> Pde(m', dir, i) == t + 7)
    && Entry(m', T, n % ENTRIES) == Or7(pd)
    && forall a {:trigger W(m', a)} :: a != T + 4 * (n % ENTRIES) && (a == dir + 4 * i ==> Present(Pde(m, dir, i))) ==>
          W(m', a) == W(m, a)
  }

  /** Slot `Slot(n)` has got a table at `t` if it had none. */
  ghost predicate TableEnsured(m: Mem, m1: Mem, dir: int, n: int, t: int)
  {
    && |m1| == |m|
    && (if Present(Pde(m, dir, Slot(n))) then m1 == m else Pde(m1, dir, Slot(n)) == t + 7)
    && forall a {:trigger W(m1, a)} :: a != dir + 4 * Slot(n) ==> W(m1, a) == W(m, a)
  }

  lemma EnsuredPut(m: Mem, m1: Mem, m2: Mem, c: seq<int>, dir: int, kmem: int, n: int, pd: int, t: int)
    requires PutReady(m, c, dir, kmem, n, t) && TableEnsured(m, m1, dir, n, t)
    requires m2 == Put(m1, PutTable(m, dir, n, t) + 4 * (n % ENTRIES), Or7(pd)) && kmem <= |m|
    ensures PutEffect(m, m2, dir, n, pd, t)
    ensures TableOf(Pde(m1, dir, Slot(n))) == PutTable(m, dir, n, t)
  {
    PutTableApart(m, c, dir, kmem, n, t, Slot(n));
    WordPage(dir, Slot(n));
    WordPage(PutTable(m, dir, n, t), n % ENTRIES);
    if !Present(Pde(m, dir, Slot(n))) { EntryBits(t, 7); }
  }

  /** The counts after `put_page`: a new table's frame is taken. */
  function PutCounts(m: Mem, c: seq<int>, dir: int, n: int, t: int): seq<int>
  {
    if Present(Pde(m, dir, Slot(n))) || !(0 <= t / PAGE < |c|) then c else c[t / PAGE := 1]
  }

  ghost predicate PutReady(m: Mem, c: seq<int>, dir: int, kmem: int, n: int, t: int)
  {
    && TablesInv(m, c, dir, kmem) && 0 <= n < PAGES && 0 <= kmem
    && (!Present(Pde(m, dir, Slot(n))) ==> KernelFrame(kmem, t) && t / PAGE < |c| && c[t / PAGE] == 0)
  }

  /** The table that gets page `n`. */
  function PutTable(m: Mem, dir: int, n: int, t: int): int
  {
    if Present(Pde(m, dir, Slot(n))) then TableOf(Pde(m, dir, Slot(n))) else t
  }

  lemma PutTableApart(m: Mem, c: seq<int>, dir: int, kmem: int, n: int, t: int, k: int)
    requires PutReady(m, c, dir, kmem, n, t) && 0 <= k < ENTRIES
    ensures KernelFrame(kmem, PutTable(m, dir, n, t)) && PutTable(m, dir, n, t) != dir
    ensures k != Slot(n) && Present(Pde(m, dir, k)) ==> TableOf(Pde(m, dir, k)) != PutTable(m, dir, n, t)
  {
    assert SlotOk(m, dir, kmem, Slot(n)) && TableTaken(m, c, dir, k) && Apart(m, dir, k, Slot(n));
  }

  lemma PutKeepsPde(m: Mem, m': Mem, c: seq<int>, dir: int, kmem: int, n: int, pd: int, t: int, k: int)
    requires PutReady(m, c, dir, kmem, n, t) && PutEffect(m, m', dir, n, pd, t) && 0 <= k < ENTRIES
    ensures Pde(m', dir, k) == if k == Slot(n) && !Present(Pde(m, dir, k)) then t + 7 else Pde(m, dir, k)
  {
    PutTableApart(m, c, dir, kmem, n, t, k);
    WordPage(dir, k);
    WordPage(PutTable(m, dir, n, t), n % ENTRIES);
  }

  lemma PutKeepsPte(m: Mem, m': Mem, c: seq<int>, dir: int, kmem: int, n: int, pd: int, t: int, k: int)
    requires PutReady(m, c, dir, kmem, n, t) && PutEffect(m, m', dir, n, pd, t)
    requires 0 <= k < PAGES && k != n && Present(Pde(m, dir, Slot(k)))
    ensures Pte(m', dir, k) == Pte(m, dir, k)
  {
    PutKeepsPde(m, m', c, dir, kmem, n, pd, t, Slot(k));
    PutTableApart(m, c, dir, kmem, n, t, Slot(k));
    assert SlotOk(m, dir, kmem, Slot(k));
    WordPage(TableOf(Pde(m, dir, Slot(k))), k % ENTRIES);
    WordPage(dir, Slot(n));
    WordPage(PutTable(m, dir, n, t), n % ENTRIES);
    assert Slot(k) == Slot(n) ==> k % ENTRIES != n % ENTRIES;
  }

  lemma PutMaps(m: Mem, m': Mem, c: seq<int>, dir: int, kmem: int, n: int, pd: int, t: int)
    requires PutReady(m, c, dir, kmem, n, t) && PutEffect(m, m', dir, n, pd, t)
    ensures Present(Pde(m', dir, Slot(n))) && Pte(m', dir, n) == Or7(pd)
    ensures TableOf(Pde(m', dir, Slot(n))) == PutTable(m, dir, n, t)
  {
    PutKeepsPde(m, m', c, dir, kmem, n, pd, t, Slot(n));
    PutTableApart(m, c, dir, kmem, n, t, Slot(n));
    EntryBits(PutTable(m, dir, n, t), 7);
  }

  lemma PutKeepsDir(m: Mem, m': Mem, c: seq<int>, dir: int, kmem: int, n: int, pd: int, t: int)
    requires PutReady(m, c, dir, kmem, n, t) && PutEffect(m, m', dir, n, pd, t)
    ensures DirOk(m', dir, kmem, ENTRIES) && TablesOwned(m', PutCounts(m, c, dir, n, t), dir, ENTRIES)
  {
    var c' := PutCounts(m, c, dir, n, t);
    PutMaps(m, m', c, dir, kmem, n, pd, t);
    forall k | 0 <= k < ENTRIES
      ensures SlotOk(m', dir, kmem, k) && TableTaken(m', c', dir, k)
    {
      PutKeepsPde(m, m', c, dir, kmem, n, pd, t, k);
      PutTableApart(m, c, dir, kmem, n, t, k);
      assert SlotOk(m, dir, kmem, k) && TableTaken(m, c, dir, k);
    }
    forall k, j | 0 <= k < ENTRIES && 0 <= j < ENTRIES
      ensures Apart(m', dir, k, j)
    {
      PutKeepsPde(m, m', c, dir, kmem, n, pd, t, k);
      PutKeepsPde(m, m', c, dir, kmem, n, pd, t, j);
      PutTableApart(m, c, dir, kmem, n, t, k);
      PutTableApart(m, c, dir, kmem, n, t, j);
      assert Apart(m, dir, k, j);
    }
  }

  lemma PutKeepsIdentity(m: Mem, m': Mem, c: seq<int>, dir: int, kmem: int, n: int, pd: int, t: int, k: int)
    requires PutReady(m, c, dir, kmem, n, t) && PutEffect(m, m', dir, n, pd, t)
    requires 0 <= k < kmem / PAGE && k < PAGES && k != n
    ensures Identity(m', dir, k)
  {
    assert Identity(m, dir, k);
    TableBits(Pde(m, dir, Slot(k)));
    SlotBelow(k, ENTRIES);
    PutKeepsPde(m, m', c, dir, kmem, n, pd, t, Slot(k));
    PutKeepsPte(m, m', c, dir, kmem, n, pd, t, k);
  }

  lemma PutKeepsFlags(m: Mem, m': Mem, c: seq<int>, dir: int, kmem: int, n: int, pd: int, t: int, k: int)
    requires PutReady(m, c, dir, kmem, n, t) && PutEffect(m, m', dir, n, pd, t) && 0 <= k < ENTRIES
    ensures SlotFlags(m', dir, kmem, k)
  {
    PutKeepsPde(m, m', c, dir, kmem, n, pd, t, k);
    assert SlotFlags(m, dir, kmem, k);
    if Pde(m, dir, k) % 8 == 3 { TableBits(Pde(m, dir, k)); }
    if k == Slot(n) && !Present(Pde(m, dir, k)) { EntryBits(t, 7); }
  }

  /** Mapping a page keeps the tables as they have to be exactly when the page is not below KMEM;
      otherwise that page is no longer identity-mapped. */
  lemma PutKeepsTables(m: Mem, m': Mem, c: seq<int>, dir: int, kmem: int, n: int, pd: int, t: int)
    requires PutReady(m, c, dir, kmem, n, t) && PutEffect(m, m', dir, n, pd, t)
    ensures TablesInv(m', PutCounts(m, c, dir, n, t), dir, kmem) <==> kmem / PAGE <= n
  {
    PutMaps(m, m', c, dir, kmem, n, pd, t);
    if n < kmem / PAGE {
      NotIdentity(pd, n);
      assert !Identity(m', dir, n);
    } else {
      PutKeepsDir(m, m', c, dir, kmem, n, pd, t);
      forall k | 0 <= k < ENTRIES
        ensures SlotFlags(m', dir, kmem, k)
      {
        PutKeepsFlags(m, m', c, dir, kmem, n, pd, t, k);
      }
      forall k | 0 <= k < kmem / PAGE
        ensures Identity(m', dir, k)
      {
        PutKeepsIdentity(m, m', c, dir, kmem, n, pd, t, k);
      }
    }
  }

  lemma NotIdentity(pd: int, n: int)
    ensures Or7(pd) != n * PAGE + 3
  {
    Division.By8(pd / 8, 7);
    Division.By8(512 * n, 3);
  }

  /** Page `n` is mapped to frame `f` by a demand fault. */
  ghost predicate DemandPage(m: Mem, dir: int, kmem: int, n: int, f: int)
  {
    && kmem / PAGE <= n < PAGES && f % PAGE == 0
    && Present(Pde(m, dir, Slot(n))) && Pte(m, dir, n) == f + 7
  }

  /** Frame `f` is taken, and it is neither the directory nor a table. */
  ghost predicate DataFrame(m: Mem, c: seq<int>, dir: int, f: int)
  {
    Taken(c, f) && !WalkPage(m, dir, f)
  }

  /** Every page in `mapped` is mapped to its own frame, which serves nothing else. */
  ghost predicate Demand(m: Mem, c: seq<int>, dir: int, kmem: int, mapped: map<int, int>)
  {
    && (forall n {:trigger DemandPage(m, dir, kmem, n, mapped[n])} :: n in mapped ==>
          DemandPage(m, dir, kmem, n, mapped[n]))
    && (forall n {:trigger DataFrame(m, c, dir, mapped[n])} :: n in mapped ==> DataFrame(m, c, dir, mapped[n]))
    && (forall n, k {:trigger mapped[n], mapped[k]} :: n in mapped && k in mapped && n != k ==> mapped[n] != mapped[k])
  }

  lemma TablesTakenMore(m: Mem, c: seq<int>, c': seq<int>, dir: int, kmem: int)
    requires TablesInv(m, c, dir, kmem) && TakenMore(c, c')
    ensures TablesInv(m, c', dir, kmem)
  {
    forall i | 0 <= i < ENTRIES
      ensures TableTaken(m, c', dir, i)
    {
      assert TableTaken(m, c, dir, i);
    }
  }

  lemma FreeIsNoWalkPage(m: Mem, c: seq<int>, dir: int, kmem: int, f: int)
    requires TablesInv(m, c, dir, kmem) && 0 <= f / PAGE < |c| && c[f / PAGE] == 0
    ensures !WalkPage(m, dir, f)
  {
    forall i | 0 <= i < ENTRIES && Present(Pde(m, dir, i))
      ensures f != TableOf(Pde(m, dir, i))
    {
      assert TableTaken(m, c, dir, i);
    }
  }

  /** After `put_page` the walk reads at most one page more, the new table. */
  lemma PutWalkPages(m: Mem, m': Mem, c: seq<int>, dir: int, kmem: int, n: int, pd: int, t: int, f: int)
    requires PutReady(m, c, dir, kmem, n, t) && PutEffect(m, m', dir, n, pd, t)
    requires !WalkPage(m, dir, f) && (!Present(Pde(m, dir, Slot(n))) ==> f != t)
    ensures !WalkPage(m', dir, f)
  {
    forall i | 0 <= i < ENTRIES && Present(Pde(m', dir, i))
      ensures f != TableOf(Pde(m', dir, i))
    {
      PutKeepsPde(m, m', c, dir, kmem, n, pd, t, i);
      PutMaps(m, m', c, dir, kmem, n, pd, t);
    }
  }

  /** A fault served with the fresh frame `pd` extends the map by its page and keeps the rest. */
  lemma FaultKeepsDemand(m: Mem, m': Mem, c: seq<int>, dir: int, kmem: int, mapped: map<int, int>, n: int, pd: int,
                         t: int)
    requires Demand(m, c, dir, kmem, mapped) && TablesInv(m, c, dir, kmem)
    requires 0 <= pd && pd % PAGE == 0 && pd / PAGE < |c| && c[pd / PAGE] == 0
    requires kmem / PAGE <= n && PutReady(m, c[pd / PAGE := 1], dir, kmem, n, t) && PutEffect(m, m', dir, n, pd, t)
    ensures Demand(m', PutCounts(m, c[pd / PAGE := 1], dir, n, t), dir, kmem, mapped[n := pd])
  {
    var c1, mapped' := c[pd / PAGE := 1], mapped[n := pd];
    var c' := PutCounts(m, c1, dir, n, t);
    PutMaps(m, m', c1, dir, kmem, n, pd, t);
    forall k | k in mapped'
      ensures DemandPage(m', dir, kmem, k, mapped'[k])
    {
      if k == n {
        Or7Aligned(pd);
      } else {
        assert DemandPage(m, dir, kmem, k, mapped[k]);
        PutKeepsPte(m, m', c1, dir, kmem, n, pd, t, k);
        PutKeepsPde(m, m', c1, dir, kmem, n, pd, t, Slot(k));
      }
    }
    forall k | k in mapped'
      ensures DataFrame(m', c', dir, mapped'[k])
    {
      if k == n {
        FreeIsNoWalkPage(m, c, dir, kmem, pd);
      } else {
        assert DataFrame(m, c, dir, mapped[k]);
      }
      PutWalkPages(m, m', c1, dir, kmem, n, pd, t, mapped'[k]);
    }
    forall k | k in mapped
      ensures mapped[k] != pd
    {
      assert DataFrame(m, c, dir, mapped[k]);
    }
  }

  lemma Or7Aligned(x: int)
    requires x % PAGE == 0
    ensures Or7(x) == x + 7
  {
    Division.By8(512 * (x / PAGE), 0);
  }

  /** Where a served page leads: to its frame, writable, and open to user code unless it shares a
      table with the identity map. */
  lemma DemandWalk(m: Mem, c: seq<int>, dir: int, kmem: int, mapped: map<int, int>, va: int)
    requires TablesInv(m, c, dir, kmem) && Demand(m, c, dir, kmem, mapped) && 0 <= kmem
    requires 0 <= va && va / PAGE in mapped
    ensures Walk(m, dir, va) == Mapped(mapped[va / 0x1000] + va % 0x1000, true, va / 0x40_0000 > kmem / 0x40_0000)
  {
    TopByAddress(kmem);
    SlotByAddress(va);
    var n := va / PAGE;
    assert DemandPage(m, dir, kmem, n, mapped[n]) && SlotFlags(m, dir, kmem, Slot(n));
    EntryBits(mapped[n], 7);
    TableBits(Pde(m, dir, Slot(n)));
  }

  /** Memory below the allocator's area, and taken frames that the walk does not read, are left alone. */
  ghost predicate OthersUntouched(m: Mem, c: seq<int>, dir: int, m': Mem)
  {
    && |m'| == |m|
    && forall a {:trigger W(m', a)} ::
         a < KERNEL_SPACE || (Taken(c, PageOf(a)) && !WalkPage(m, dir, PageOf(a))) ==> W(m', a) == W(m, a)
  }

  lemma PutUntouched(m: Mem, m': Mem, c: seq<int>, dir: int, kmem: int, n: int, pd: int, t: int)
    requires PutReady(m, c, dir, kmem, n, t) && PutEffect(m, m', dir, n, pd, t)
    ensures OthersUntouched(m, c, dir, m')
    ensures TakenMore(c, PutCounts(m, c, dir, n, t))
  {
    PutTableApart(m, c, dir, kmem, n, t, Slot(n));
    WordPage(dir, Slot(n));
    WordPage(PutTable(m, dir, n, t), n % ENTRIES);
  }

  /** No frame that was taken and not read by the walk has become a table. */
  ghost predicate WalkGrowsFresh(m: Mem, c: seq<int>, dir: int, m': Mem)
  {
    forall f {:trigger WalkPage(m', dir, f)} :: Taken(c, f) && !WalkPage(m, dir, f) ==> !WalkPage(m', dir, f)
  }

  lemma PutGrowsFresh(m: Mem, m': Mem, c: seq<int>, dir: int, kmem: int, n: int, pd: int, t: int)
    requires PutReady(m, c, dir, kmem, n, t) && PutEffect(m, m', dir, n, pd, t)
    ensures WalkGrowsFresh(m, c, dir, m')
  {
    forall f | Taken(c, f) && !WalkPage(m, dir, f)
      ensures !WalkPage(m', dir, f)
    {
      PutWalkPages(m, m', c, dir, kmem, n, pd, t, f);
    }
  }

  /** A fault as a whole: `pd` for the page, and `t` for its table if it needs one. */
  lemma FaultEffect(m: Mem, m': Mem, c: seq<int>, dir: int, kmem: int, mapped: map<int, int>, n: int, pd: int, t: int)
    requires Demand(m, c, dir, kmem, mapped) && TablesInv(m, c, dir, kmem)
    requires 0 <= pd && pd % PAGE == 0 && pd / PAGE < |c| && c[pd / PAGE] == 0
    requires kmem / PAGE <= n && PutReady(m, c[pd / PAGE := 1], dir, kmem, n, t) && PutEffect(m, m', dir, n, pd, t)
    ensures var c' := PutCounts(m, c[pd / PAGE := 1], dir, n, t);
            && Demand(m', c', dir, kmem, mapped[n := pd]) && TakenMore(c, c')
    ensures OthersUntouched(m, c, dir, m') && WalkGrowsFresh(m, c, dir, m') && OthersWalk(m, m', dir, n, t)
  {
    var c1 := c[pd / PAGE := 1];
    FaultKeepsDemand(m, m', c, dir, kmem, mapped, n, pd, t);
    PutUntouched(m, m', c1, dir, kmem, n, pd, t);
    PutGrowsFresh(m, m', c1, dir, kmem, n, pd, t);
    forall va | 0 <= va && va / PAGE < PAGES && va / PAGE != n
      ensures Walk(m', dir, va) == WalkAfter(m, dir, n, t, va)
    {
      PutOtherWalk(m, m', c1, dir, kmem, n, pd, t, va);
    }
  }

  // ----- what becomes of the other translations -----

  /** Every translation is as it was. */
  ghost predicate WalksKept(m: Mem, m': Mem, dir: int)
  {
    forall va {:trigger Walk(m', dir, va)} :: 0 <= va && va / PAGE < PAGES ==> Walk(m', dir, va) == Walk(m, dir, va)
  }

  lemma TablesFrame(m: Mem, m': Mem, c: seq<int>, dir: int, kmem: int)
    requires TablesInv(m, c, dir, kmem) && 0 <= kmem <= KER_MM_SIZE && |m'| == |m|
    requires forall i :: 0 <= i < ENTRIES ==> Pde(m', dir, i) == Pde(m, dir, i)
    requires forall n :: 0 <= n && Slot(n) < ENTRIES && Present(Pde(m, dir, Slot(n))) ==>
               Pte(m', dir, n) == Pte(m, dir, n)
    ensures TablesInv(m', c, dir, kmem)
  {
    forall i | 0 <= i < ENTRIES
      ensures SlotOk(m', dir, kmem, i) && TableTaken(m', c, dir, i) && SlotFlags(m', dir, kmem, i)
    {
      assert SlotOk(m, dir, kmem, i) && TableTaken(m, c, dir, i) && SlotFlags(m, dir, kmem, i);
    }
    forall i, j | 0 <= i < ENTRIES && 0 <= j < ENTRIES
      ensures Apart(m', dir, i, j)
    {
      assert Apart(m, dir, i, j);
    }
    forall n | 0 <= n < kmem / PAGE
      ensures Identity(m', dir, n)
    {
      assert Identity(m, dir, n);
      TableBits(Pde(m, dir, Slot(n)));
    }
  }

  /** The translation of `va` through a table entry `e` in an open slot. */
  function Leftover(e: int, va: int): Translation
  {
    if Present(e) then Mapped(TableOf(e) + va % PAGE, Writable(e), User(e)) else Fault
  }

  /** The translation of `va` after page `n` was mapped. A table that is new at `t` is not cleared, and
      its other entries are whatever its frame held. */
  function WalkAfter(m: Mem, dir: int, n: int, t: int, va: int): Translation
  {
    if Present(Pde(m, dir, Slot(n))) || Slot(va / PAGE) != Slot(n) then Walk(m, dir, va)
    else Leftover(Entry(m, t, va / PAGE % ENTRIES), va)
  }

  ghost predicate OthersWalk(m: Mem, m': Mem, dir: int, n: int, t: int)
  {
    forall va {:trigger Walk(m', dir, va)} :: 0 <= va && va / PAGE < PAGES && va / PAGE != n ==>
      Walk(m', dir, va) == WalkAfter(m, dir, n, t, va)
  }

  lemma PutOtherWalk(m: Mem, m': Mem, c: seq<int>, dir: int, kmem: int, n: int, pd: int, t: int, va: int)
    requires PutReady(m, c, dir, kmem, n, t) && PutEffect(m, m', dir, n, pd, t)
    requires 0 <= va && va / PAGE < PAGES && va / PAGE != n
    ensures Walk(m', dir, va) == WalkAfter(m, dir, n, t, va)
  {
    var k := va / PAGE;
    PutKeepsPde(m, m', c, dir, kmem, n, pd, t, Slot(k));
    if Present(Pde(m, dir, Slot(k))) {
      PutKeepsPte(m, m', c, dir, kmem, n, pd, t, k);
    } else if Slot(k) == Slot(n) {
      PutFreshPte(m, m', c, dir, kmem, n, pd, t, k);
      EntryBits(t, 7);
    }
  }

  /** What was mapped stays mapped as it was. */
  lemma MappedStays(m: Mem, m': Mem, dir: int, n: int, t: int)
    requires OthersWalk(m, m', dir, n, t)
    ensures MappedKept(m, m', dir, {n})
  {
  }

  /** Translations that were there are as they were, but for the pages in `but`. */
  ghost predicate MappedKept(m: Mem, m': Mem, dir: int, but: set<int>)
  {
    forall va {:trigger Walk(m', dir, va)} ::
      0 <= va && va / PAGE < PAGES && va / PAGE !in but && Walk(m, dir, va) != Fault ==>
        Walk(m', dir, va) == Walk(m, dir, va)
  }

  lemma MappedTrans(m: Mem, m1: Mem, m2: Mem, dir: int, but1: set<int>, but2: set<int>)
    requires MappedKept(m, m1, dir, but1) && MappedKept(m1, m2, dir, but2)
    ensures MappedKept(m, m2, dir, but1 + but2)
  {
    forall va | 0 <= va && va / PAGE < PAGES && va / PAGE !in but1 + but2 && Walk(m, dir, va) != Fault
      ensures Walk(m2, dir, va) == Walk(m, dir, va)
    {
      assert Walk(m1, dir, va) == Walk(m, dir, va);
    }
  }

  lemma PutFreshPte(m: Mem, m': Mem, c: seq<int>, dir: int, kmem: int, n: int, pd: int, t: int, k: int)
    requires PutReady(m, c, dir, kmem, n, t) && PutEffect(m, m', dir, n, pd, t)
    requires 0 <= k < PAGES && k != n && Slot(k) == Slot(n) && !Present(Pde(m, dir, Slot(n)))
    ensures Pte(m', dir, k) == Entry(m, t, k % ENTRIES)
  {
    PutTableApart(m, c, dir, kmem, n, t, Slot(n));
    EntryBits(t, 7);
    WordPage(t, k % ENTRIES);
    WordPage(dir, Slot(n));
    assert k % ENTRIES != n % ENTRIES;
  }

  /** The exact condition for another page to keep its translation. */
  lemma OtherWalkKept(m: Mem, m': Mem, c: seq<int>, dir: int, kmem: int, n: int, pd: int, t: int, va: int)
    requires PutReady(m, c, dir, kmem, n, t) && PutEffect(m, m', dir, n, pd, t)
    requires 0 <= va && va / PAGE < PAGES && va / PAGE != n
    ensures Walk(m', dir, va) == Walk(m, dir, va)
            <==> (|| Present(Pde(m, dir, Slot(n)))
                  || Slot(va / PAGE) != Slot(n)
                  || !Present(Entry(m, t, va / PAGE % ENTRIES)))
  {
    PutOtherWalk(m, m', c, dir, kmem, n, pd, t, va);
  }

  /** What a free frame holds matters to nothing that is kept. */
  lemma LeftoverReady(m: Mem, m1: Mem, c: seq<int>, dir: int, kmem: int, n: int, t: int, k: int, v: int)
    requires PutReady(m, c, dir, kmem, n, t) && !Present(Pde(m, dir, Slot(n))) && kmem <= KER_MM_SIZE
    requires 0 <= k < PAGES && m1 == Put(m, t + 4 * (k % ENTRIES), v)
    ensures PutReady(m1, c, dir, kmem, n, t) && Pde(m1, dir, Slot(n)) == Pde(m, dir, Slot(n))
    ensures Entry(m1, t, k % ENTRIES) == v
  {
    FreeIsNoWalkPage(m, c, dir, kmem, t);
    WordPage(t, k % ENTRIES);
    WalkFrame(m, m1, dir, kmem);
    TablesFrame(m, m1, c, dir, kmem);
  }

  /** In every state in which a page needs a new table, what the table's frame held may be such that
      another page of the slot leads to the directory itself, writable and open to user code. */
  lemma LeftoverReachesDirectory(m: Mem, m1: Mem, m': Mem, c: seq<int>, dir: int, kmem: int, n: int, pd: int, t: int,
                                 k: int)
    requires PutReady(m, c, dir, kmem, n, t) && !Present(Pde(m, dir, Slot(n))) && kmem <= KER_MM_SIZE
    requires 0 <= k < PAGES && k != n && Slot(k) == Slot(n)
    requires m1 == Put(m, t + 4 * (k % ENTRIES), dir + 7) && PutEffect(m1, m', dir, n, pd, t)
    ensures PutReady(m1, c, dir, kmem, n, t) && Walk(m', dir, k * PAGE) == Mapped(dir, true, true)
  {
    LeftoverReady(m, m1, c, dir, kmem, n, t, k, dir + 7);
    Division.By4096(k, 0);
    PutOtherWalk(m1, m', c, dir, kmem, n, pd, t, k * PAGE);
    EntryBits(dir, 7);
  }
}
