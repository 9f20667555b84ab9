/** The write-protecting pass of `create_mm` (kernel/mm.c:118-130). */
module SharingSpec {
  import opened Memory
  import opened Frames
  import opened PageWalk
  import opened PagingSpec
  import Division

  function MarkEntry(e: int): int { if Present(e) then ClearWrite(e) else e }

  /** How many of the first `j` entries of the table at `t` are present and name frame `f`. */
  function TableRefs(m: Mem, t: int, j: int, f: int): nat
    decreases j, |m|
  {
    if j <= 0 then 0
    else TableRefs(m, t, j - 1, f) + (if Present(Entry(m, t, j - 1)) && Entry(m, t, j - 1) / PAGE == f then 1 else 0)
  }

  /** How many present directory entries in slots `lo..i`, and present entries of their tables, name frame `f`. */
  function DirRefs(m: Mem, dir: int, lo: int, i: int, f: int): nat
    decreases i - lo
  {
    if i <= lo then 0
    else
      var e := Pde(m, dir, i - 1);
      DirRefs(m, dir, lo, i - 1, f)
      + (if Present(e) then TableRefs(m, TableOf(e), ENTRIES, f) + (if e / PAGE == f then 1 else 0) else 0)
  }

  /** The entry names frame `f` and is present. */
  predicate Names(e: int, f: int) { e % 2 == 1 && e / 0x1000 == f }

  function TableNaming(m: Mem, t: int, j: int, f: int): set<int>
  {
    set k | 0 <= k < j && Names(W(m, t + 4 * k), f)
  }

  /** Directory entries in slots `lo..i` that name `f`, and the entries of present slots' tables that do. */
  function SlotsNaming(m: Mem, dir: int, lo: int, i: int, f: int): set<int>
  {
    set k | lo <= k < i && Names(W(m, dir + 4 * k), f)
  }

  function RowNaming(m: Mem, dir: int, k: int, f: int): set<int>
  {
    var e := W(m, dir + 4 * k);
    if e % 2 == 1 then TableNaming(m, e - e % 0x1000, 1024, f) else {}
  }

  function EntriesNaming(m: Mem, dir: int, lo: int, i: int, f: int): set<(int, int)>
  {
    set k, j | lo <= k < i && j in RowNaming(m, dir, k, f) :: (k, j)
  }

  function Row(k: int, s: set<int>): set<(int, int)> { set j | j in s :: (k, j) }

  lemma TableNamingStep(m: Mem, t: int, j: int, f: int)
    requires j > 0
    ensures |TableNaming(m, t, j, f)|
            == |TableNaming(m, t, j - 1, f)| + if Names(W(m, t + 4 * (j - 1)), f) then 1 else 0
  {
    if Names(W(m, t + 4 * (j - 1)), f) {
      assert TableNaming(m, t, j, f) == TableNaming(m, t, j - 1, f) + {j - 1};
    } else {
      assert TableNaming(m, t, j, f) == TableNaming(m, t, j - 1, f);
    }
  }

  lemma {:induction false} TableRefsCount(m: Mem, t: int, j: int, f: int)
    ensures TableRefs(m, t, j, f) == |TableNaming(m, t, j, f)|
    decreases j
  {
    if j > 0 {
      TableRefsCount(m, t, j - 1, f);
      TableNamingStep(m, t, j, f);
    }
  }

  lemma {:induction false} RowCount(k: int, s: set<int>)
    ensures |Row(k, s)| == |s|
    decreases |s|
  {
    if s != {} {
      var x := Choose(s);
      RowCount(k, s - {x});
      assert Row(k, s) == Row(k, s - {x}) + {(k, x)};
    }
  }

  lemma EntriesStep(m: Mem, dir: int, lo: int, i: int, f: int)
    requires lo < i
    ensures EntriesNaming(m, dir, lo, i, f)
            == EntriesNaming(m, dir, lo, i - 1, f) + Row(i - 1, RowNaming(m, dir, i - 1, f))
    ensures EntriesNaming(m, dir, lo, i - 1, f) !! Row(i - 1, RowNaming(m, dir, i - 1, f))
  {
  }

  lemma SlotsStep(m: Mem, dir: int, lo: int, i: int, f: int)
    requires lo < i
    ensures |SlotsNaming(m, dir, lo, i, f)|
            == |SlotsNaming(m, dir, lo, i - 1, f)| + if Names(W(m, dir + 4 * (i - 1)), f) then 1 else 0
  {
    if Names(W(m, dir + 4 * (i - 1)), f) {
      assert SlotsNaming(m, dir, lo, i, f) == SlotsNaming(m, dir, lo, i - 1, f) + {i - 1};
    } else {
      assert SlotsNaming(m, dir, lo, i, f) == SlotsNaming(m, dir, lo, i - 1, f);
    }
  }

  lemma EntriesCountStep(m: Mem, dir: int, lo: int, i: int, f: int)
    requires lo < i
    ensures |EntriesNaming(m, dir, lo, i, f)|
            == |EntriesNaming(m, dir, lo, i - 1, f)| + |RowNaming(m, dir, i - 1, f)|
  {
    EntriesStep(m, dir, lo, i, f);
    RowCount(i - 1, RowNaming(m, dir, i - 1, f));
  }

  lemma RowRefs(m: Mem, dir: int, k: int, f: int)
    ensures |RowNaming(m, dir, k, f)|
            == if Present(Pde(m, dir, k)) then TableRefs(m, TableOf(Pde(m, dir, k)), ENTRIES, f) else 0
  {
    TableRefsCount(m, TableOf(Pde(m, dir, k)), ENTRIES, f);
  }

  /** The count that a frame gets is the number of entries that name it, each counted once. */
  lemma {:induction false} DirRefsCount(m: Mem, dir: int, lo: int, i: int, f: int)
    ensures DirRefs(m, dir, lo, i, f) == |SlotsNaming(m, dir, lo, i, f)| + |EntriesNaming(m, dir, lo, i, f)|
    decreases i - lo
  {
    if i > lo {
      DirRefsCount(m, dir, lo, i - 1, f);
      RowRefs(m, dir, i - 1, f);
      EntriesCountStep(m, dir, lo, i, f);
      SlotsStep(m, dir, lo, i, f);
    } else {
      NoneNamed(m, dir, lo, i, f);
    }
  }

  lemma NoneNamed(m: Mem, dir: int, lo: int, i: int, f: int)
    requires i <= lo
    ensures EntriesNaming(m, dir, lo, i, f) == {} && SlotsNaming(m, dir, lo, i, f) == {}
  {
  }

  /** Every word fits 32 bits. */
  ghost predicate Words(m: Mem)
  {
    forall a {:trigger W(m, a)} :: 0 <= W(m, a) < 0x1_0000_0000
  }

  /** Clearing the write bit keeps the frame and the other flags. */
  lemma MarkBits(e: int)
    requires 0 <= e < 0x1_0000_0000
    ensures MarkEntry(e) == (if e % 2 == 1 && e / 2 % 2 == 1 then e - 2 else e) && 0 <= MarkEntry(e)
    ensures Present(MarkEntry(e)) == Present(e) && User(MarkEntry(e)) == User(e)
    ensures Present(e) ==> !Writable(MarkEntry(e))
    ensures TableOf(MarkEntry(e)) == TableOf(e) && MarkEntry(e) / PAGE == e / PAGE
    ensures e / PAGE < FRAMES
  {
    if Present(e) && Writable(e) {
      LowThree(e);
      LowBits(e, e / 8, e % 8);
      LowBits(e - 2, e / 8, e % 8 - 2);
      SamePageBelow(e);
    }
  }

  lemma LowThree(e: int)
    requires Present(e) && Writable(e)
    ensures e % 8 == 3 || e % 8 == 7
  {
    LowBits(e, e / 8, e % 8);
  }

  lemma SamePageBelow(e: int)
    requires e % 8 == 3 || e % 8 == 7
    ensures (e - 2) / PAGE == e / PAGE && TableOf(e - 2) == TableOf(e)
  {
    var p, s := e / PAGE, e % PAGE;
    Division.By8(512 * p + s / 8, s % 8);
    assert e == 8 * (512 * p + s / 8) + s % 8;
    Division.By4096(p, s - 2);
  }

  /** Entry `k` of the table at `t` after the first `j` entries were marked. */
  ghost predicate EntryMarked(m0: Mem, m: Mem, t: int, j: int, k: int)
  {
    Entry(m, t, k) == if k < j then MarkEntry(Entry(m0, t, k)) else Entry(m0, t, k)
  }

  /** The first `j` entries of the table at `t` were marked, nothing else was written. */
  ghost predicate TableMarked(m0: Mem, m: Mem, t: int, j: int)
  {
    && |m| == |m0|
    && (forall k {:trigger EntryMarked(m0, m, t, j, k)} :: 0 <= k < ENTRIES ==> EntryMarked(m0, m, t, j, k))
    && forall a {:trigger W(m, a)} :: PageOf(a) != t ==> W(m, a) == W(m0, a)
  }

  ghost predicate CountRaised(c0: seq<int>, c: seq<int>, f: int, d: int)
    requires |c| == |c0| && 0 <= f < |c|
  {
    c[f] == (c0[f] + d) % 256
  }

  ghost predicate TableCounted(m0: Mem, c0: seq<int>, c: seq<int>, t: int, j: int)
  {
    && |c| == |c0|
    && forall f {:trigger CountRaised(c0, c, f, TableRefs(m0, t, j, f))} ::
         0 <= f < |c| ==> CountRaised(c0, c, f, TableRefs(m0, t, j, f))
  }

  /** One count raised by one, as an unsigned byte. */
  function Bumped(c: seq<int>, f: int): seq<int>
    requires 0 <= f < |c|
  {
    c[f := (c[f] + 1) % 256]
  }

  lemma BumpCounts(c0: seq<int>, c: seq<int>, f: int, d: int)
    requires |c| == |c0| && 0 <= f < |c| && CountRaised(c0, c, f, d)
    ensures CountRaised(c0, Bumped(c, f), f, d + 1)
  {
  }

  lemma TableStep(m0: Mem, c0: seq<int>, m: Mem, c: seq<int>, m': Mem, c': seq<int>, t: int, j: int)
    requires TableMarked(m0, m, t, j) && TableCounted(m0, c0, c, t, j) && Words(m0)
    requires 0 <= j < ENTRIES && t % PAGE == 0 && |c0| == FRAMES
    requires m' == (if Present(Entry(m, t, j)) then Put(m, t + 4 * j, ClearWrite(Entry(m, t, j))) else m)
    requires 0 <= t && t + PAGE <= |m|
    requires Entry(m, t, j) / PAGE < FRAMES && Entry(m, t, j) >= 0
    requires c' == (if Present(Entry(m, t, j)) then Bumped(c, Entry(m, t, j) / PAGE) else c)
    ensures TableMarked(m0, m', t, j + 1) && TableCounted(m0, c0, c', t, j + 1)
  {
    assert EntryMarked(m0, m, t, j, j);
    var j' := j + 1;
    forall k | 0 <= k < ENTRIES
      ensures EntryMarked(m0, m', t, j', k)
    {
      assert EntryMarked(m0, m, t, j, k);
    }
    WordPage(t, j);
    forall f | 0 <= f < |c'|
      ensures CountRaised(c0, c', f, TableRefs(m0, t, j', f))
    {
      assert CountRaised(c0, c, f, TableRefs(m0, t, j, f));
      if Present(Entry(m, t, j)) && Entry(m, t, j) / PAGE == f {
        BumpCounts(c0, c, f, TableRefs(m0, t, j, f));
      }
    }
  }

  /** Slot `k` of the directory, and the table it names, after slots `lo..i` were processed. */
  ghost predicate SlotMarked(m0: Mem, m: Mem, dir: int, lo: int, i: int, k: int)
  {
    var e, done := Pde(m0, dir, k), lo <= k < i;
    && Pde(m, dir, k) == (if done then MarkEntry(e) else e)
    && (Present(e) ==> forall n {:trigger Entry(m, TableOf(e), n)} :: 0 <= n < ENTRIES ==>
          Entry(m, TableOf(e), n) == if done then MarkEntry(Entry(m0, TableOf(e), n)) else Entry(m0, TableOf(e), n))
  }

  ghost predicate DirMarked(m0: Mem, m: Mem, dir: int, lo: int, i: int)
  {
    && |m| == |m0|
    && (forall k {:trigger SlotMarked(m0, m, dir, lo, i, k)} :: 0 <= k < ENTRIES ==> SlotMarked(m0, m, dir, lo, i, k))
    && forall a {:trigger W(m, a)} :: !WalkPage(m0, dir, PageOf(a)) ==> W(m, a) == W(m0, a)
  }

  ghost predicate DirCounted(m0: Mem, c0: seq<int>, c: seq<int>, dir: int, lo: int, i: int)
  {
    && |c| == |c0|
    && forall f {:trigger CountRaised(c0, c, f, DirRefs(m0, dir, lo, i, f))} ::
         0 <= f < |c| ==> CountRaised(c0, c, f, DirRefs(m0, dir, lo, i, f))
  }

  lemma {:induction false} TableRefsFrame(m0: Mem, m: Mem, t: int, j: int, f: int)
    requires 0 <= j <= ENTRIES && forall n :: 0 <= n < ENTRIES ==> Entry(m, t, n) == Entry(m0, t, n)
    ensures TableRefs(m, t, j, f) == TableRefs(m0, t, j, f)
    decreases j
  {
    if j > 0 { TableRefsFrame(m0, m, t, j - 1, f); }
  }

  /** Processing slot `i` of the directory: its table, then the slot itself. */
  ghost predicate SlotStep(m: Mem, m1: Mem, m2: Mem, dir: int, i: int)
  {
    var e := Pde(m, dir, i);
    if Present(e) then TableMarked(m, m1, TableOf(e), ENTRIES) && m2 == Put(m1, dir + 4 * i, ClearWrite(e))
    else m2 == m
  }

  lemma SlotStepSlot(m0: Mem, m: Mem, m1: Mem, m2: Mem, dir: int, kmem: int, lo: int, i: int, k: int)
    requires DirOk(m0, dir, kmem, ENTRIES) && DirMarked(m0, m, dir, lo, i) && SlotStep(m, m1, m2, dir, i)
    requires 0 <= lo <= i < ENTRIES && 0 <= k < ENTRIES
    ensures SlotMarked(m0, m2, dir, lo, i + 1, k)
  {
    assert SlotMarked(m0, m, dir, lo, i, k) && SlotMarked(m0, m, dir, lo, i, i);
    assert SlotOk(m0, dir, kmem, i) && SlotOk(m0, dir, kmem, k) && Apart(m0, dir, i, k);
    var e, t := Pde(m0, dir, k), TableOf(Pde(m0, dir, k));
    WordPage(dir, k);
    WordPage(dir, i);
    if Present(Pde(m0, dir, i)) && Present(e) {
      forall n | 0 <= n < ENTRIES
        ensures Entry(m2, t, n) == if k == i then MarkEntry(Entry(m, t, n)) else Entry(m, t, n)
      {
        WordPage(t, n);
        assert k == i ==> EntryMarked(m, m1, t, ENTRIES, n);
      }
    }
  }

  lemma SlotStepDir(m0: Mem, m: Mem, m1: Mem, m2: Mem, dir: int, kmem: int, lo: int, i: int)
    requires DirOk(m0, dir, kmem, ENTRIES) && DirMarked(m0, m, dir, lo, i) && SlotStep(m, m1, m2, dir, i)
    requires 0 <= lo <= i < ENTRIES
    ensures DirMarked(m0, m2, dir, lo, i + 1)
  {
    var i' := i + 1;
    forall k | 0 <= k < ENTRIES
      ensures SlotMarked(m0, m2, dir, lo, i', k)
    {
      SlotStepSlot(m0, m, m1, m2, dir, kmem, lo, i, k);
    }
    assert SlotMarked(m0, m, dir, lo, i, i);
    WordPage(dir, i);
  }

  lemma DirRefsStep(m0: Mem, dir: int, lo: int, i: int, f: int)
    requires lo <= i
    ensures var e := Pde(m0, dir, i);
            DirRefs(m0, dir, lo, i + 1, f) == DirRefs(m0, dir, lo, i, f)
              + if Present(e) then TableRefs(m0, TableOf(e), ENTRIES, f) + (if e / PAGE == f then 1 else 0) else 0
  {
  }

  /** One slot's share of the count of frame `f`: `d1` entries of its table, and perhaps the slot itself. */
  lemma SlotShare(c0: seq<int>, c: seq<int>, c1: seq<int>, c2: seq<int>, f: int, g: int, d: int, d1: int)
    requires |c| == |c0| == |c1| && 0 <= f < |c| && 0 <= g < |c|
    requires CountRaised(c0, c, f, d) && CountRaised(c, c1, f, d1) && c2 == Bumped(c1, g)
    ensures CountRaised(c0, c2, f, d + (d1 + if g == f then 1 else 0))
  {
  }

  lemma SlotStepCount(m0: Mem, c0: seq<int>, m: Mem, c: seq<int>, c1: seq<int>, c2: seq<int>, dir: int, lo: int,
                      i: int, f: int)
    requires DirMarked(m0, m, dir, lo, i) && 0 <= lo <= i < ENTRIES && |c| == |c0| && 0 <= f < |c|
    requires CountRaised(c0, c, f, DirRefs(m0, dir, lo, i, f))
    requires var e := Pde(m, dir, i);
             if Present(e) then
               TableCounted(m, c, c1, TableOf(e), ENTRIES) && 0 <= e / PAGE < |c1| && c2 == Bumped(c1, e / PAGE)
             else
               c2 == c
    ensures CountRaised(c0, c2, f, DirRefs(m0, dir, lo, i + 1, f))
  {
    assert SlotMarked(m0, m, dir, lo, i, i);
    DirRefsStep(m0, dir, lo, i, f);
    var e, d := Pde(m0, dir, i), DirRefs(m0, dir, lo, i, f);
    if Present(e) {
      var d1 := TableRefs(m, TableOf(e), ENTRIES, f);
      TableRefsFrame(m0, m, TableOf(e), ENTRIES, f);
      assert CountRaised(c, c1, f, d1);
      SlotShare(c0, c, c1, c2, f, e / PAGE, d, d1);
    }
  }

  lemma SlotStepCounts(m0: Mem, c0: seq<int>, m: Mem, c: seq<int>, c1: seq<int>, c2: seq<int>, dir: int, lo: int,
                       i: int)
    requires DirMarked(m0, m, dir, lo, i) && DirCounted(m0, c0, c, dir, lo, i) && 0 <= lo <= i < ENTRIES
    requires var e := Pde(m, dir, i);
             if Present(e) then
               TableCounted(m, c, c1, TableOf(e), ENTRIES) && 0 <= e / PAGE < |c1| && c2 == Bumped(c1, e / PAGE)
             else
               c2 == c
    ensures DirCounted(m0, c0, c2, dir, lo, i + 1)
  {
    var i' := i + 1;
    forall f | 0 <= f < |c2|
      ensures CountRaised(c0, c2, f, DirRefs(m0, dir, lo, i', f))
    {
      assert CountRaised(c0, c, f, DirRefs(m0, dir, lo, i, f));
      SlotStepCount(m0, c0, m, c, c1, c2, dir, lo, i, f);
    }
  }

  /** What the pass does to a translation: the address stays, and write permission goes from the
      directory slot of `kmem` on. */
  lemma MarkedWalk(m0: Mem, m: Mem, dir: int, kmem: int, va: int)
    requires DirOk(m0, dir, kmem, ENTRIES) && Words(m0) && DirMarked(m0, m, dir, kmem / 0x40_0000, 1024)
    requires 0 <= kmem && 0 <= va && va / PAGE < PAGES
    ensures Walk(m, dir, va) ==
            match Walk(m0, dir, va)
            case Fault => Fault
            case Mapped(a, w, u) => Mapped(a, w && va / 0x40_0000 < kmem / 0x40_0000, u)
  {
    TopByAddress(kmem);
    SlotByAddress(va);
    var n := va / PAGE;
    var k := Slot(n);
    assert SlotMarked(m0, m, dir, TopSlot(kmem), ENTRIES, k);
    MarkBits(Pde(m0, dir, k));
    MarkBits(Pte(m0, dir, n));
    if Present(Pde(m0, dir, k)) {
      assert Entry(m, TableOf(Pde(m0, dir, k)), n % ENTRIES) == Pte(m, dir, n);
    }
  }

  lemma MarkStart(m: Mem, c: seq<int>, t: int)
    requires forall f :: 0 <= f < |c| ==> 0 <= c[f] < 256
    ensures TableMarked(m, m, t, 0) && TableCounted(m, c, c, t, 0)
  {
  }

  lemma DirStart(m: Mem, c: seq<int>, dir: int, lo: int)
    requires forall f :: 0 <= f < |c| ==> 0 <= c[f] < 256
    ensures DirMarked(m, m, dir, lo, lo) && DirCounted(m, c, c, dir, lo, lo)
  {
  }

  /** A slot that is still to come is as it was, and `e & ~0x3ff` is its table. */
  lemma SlotInPlace(m0: Mem, m: Mem, dir: int, kmem: int, lo: int, i: int)
    requires DirOk(m0, dir, kmem, ENTRIES) && DirMarked(m0, m, dir, lo, i) && lo <= i < ENTRIES && 0 <= i
    ensures Pde(m, dir, i) == Pde(m0, dir, i)
    ensures var e := Pde(m, dir, i);
            Present(e) ==> e - e % 1024 == TableOf(e) && KernelFrame(kmem, TableOf(e)) && TableOf(e) != dir
  {
    assert SlotMarked(m0, m, dir, lo, i, i) && SlotOk(m0, dir, kmem, i);
    var e := Pde(m, dir, i);
    if e % PAGE < 8 {
      Division.By1024(4 * (e / PAGE), e % PAGE);
    }
  }

  // ----- the new directory (kernel/mm.c:114, 131) -----

  ghost predicate DirCopied(m1: Mem, m2: Mem, dir: int, newMm: int, k: int)
  {
    && |m2| == |m1|
    && (forall i {:trigger Pde(m2, newMm, i)} :: 0 <= i < k ==> Pde(m2, newMm, i) == Pde(m1, dir, i))
    && forall a {:trigger W(m2, a)} :: !(newMm <= a < newMm + 4 * k) ==> W(m2, a) == W(m1, a)
  }

  /** The copy disturbs no page that the walk of the old directory reads. */
  lemma CopyApart(m0: Mem, c0: seq<int>, m1: Mem, m2: Mem, dir: int, kmem: int, newMm: int)
    requires TablesInv(m0, c0, dir, kmem) && DirMarked(m0, m1, dir, kmem / 0x40_0000, 1024)
    requires KernelFrame(kmem, newMm) && newMm / PAGE < |c0| && c0[newMm / PAGE] == 0
    requires DirCopied(m1, m2, dir, newMm, 256)
    ensures !WalkPage(m0, dir, newMm)
    ensures forall a :: WalkPage(m0, dir, PageOf(a)) ==> W(m2, a) == W(m1, a)
  {
    FreeIsNoWalkPage(m0, c0, dir, kmem, newMm);
    forall a | newMm <= a < newMm + 4 * 256
      ensures PageOf(a) == newMm
    {
      Division.By4096(newMm / PAGE, a - newMm);
    }
  }

  /** Below 1 GB both directories translate alike, and as before the call but for the write
      permission. The entries of the new directory above are what its frame held. */
  lemma SharedWalk(m0: Mem, c0: seq<int>, m1: Mem, m2: Mem, dir: int, kmem: int, newMm: int, va: int)
    requires TablesInv(m0, c0, dir, kmem) && Words(m0) && DirMarked(m0, m1, dir, kmem / 0x40_0000, 1024)
    requires KernelFrame(kmem, newMm) && newMm / PAGE < |c0| && c0[newMm / PAGE] == 0
    requires DirCopied(m1, m2, dir, newMm, 256)
    requires 0 <= kmem && 0 <= va < 0x4000_0000
    ensures Walk(m2, newMm, va) == Walk(m2, dir, va)
            == match Walk(m0, dir, va)
               case Fault => Fault
               case Mapped(a, w, u) => Mapped(a, w && va / 0x40_0000 < kmem / 0x40_0000, u)
    ensures forall k :: 256 <= k < ENTRIES ==> Pde(m2, newMm, k) == Pde(m0, newMm, k)
  {
    TopByAddress(kmem);
    var n, k := va / PAGE, Slot(va / PAGE);
    CopyApart(m0, c0, m1, m2, dir, kmem, newMm);
    MarkedWalk(m0, m1, dir, kmem, va);
    assert SlotMarked(m0, m1, dir, TopSlot(kmem), ENTRIES, k);
    MarkBits(Pde(m0, dir, k));
    WordPage(dir, k);
    assert Pde(m2, dir, k) == Pde(m1, dir, k) == Pde(m2, newMm, k);
    if Present(Pde(m0, dir, k)) {
      assert SlotOk(m0, dir, kmem, k);
      WordPage(TableOf(Pde(m0, dir, k)), n % ENTRIES);
      assert Pte(m2, dir, n) == Pte(m1, dir, n) == Pte(m2, newMm, n);
    }
    forall i | 256 <= i < ENTRIES
      ensures Pde(m2, newMm, i) == Pde(m0, newMm, i)
    {
      WordPage(newMm, i);
    }
  }
}
