/** The walk of `clean`: a cursor over a list that is edited on both sides of it. */
module HeapClean {
  import opened Memory
  import opened HeapSpec
  import opened HeapInv
  import opened HeapRuns

  ghost predicate NoFreeRight(m: Mem, l: seq<int>)
  {
    forall i :: 1 <= i < |l| ==> !FreeRight(m, l[i])
  }

  /** `x` lies inside the payload of `b`, which cannot grow further. */
  ghost predicate Stale(m: Mem, b: int, x: int)
  {
    !FreeRight(m, b) && b + HDR <= x && x + HDR <= End(m, b)
  }

  /** `mm` has been taken out between `L` and `R`; nothing in `L` can grow. The remembered
      predecessor `nextm` is still the end of `L`, or it was the last block swallowed by `mm`;
      either way its `next` word leads to the head of `R`. */
  ghost predicate Cursor(m: Mem, L: seq<int>, R: seq<int>, blocks: set<int>, pages: set<int>, mm: int, nextm: int)
  {
    && Inv(m, L + R, blocks, pages, {mm})
    && |L| >= 1 && mm in blocks && State(m, mm) == FREE
    && NoFreeRight(m, L)
    && Next(m, nextm) == At(R, 0)
    && (L[|L| - 1] == nextm || Stale(m, mm, nextm))
  }

  function Cut(l: seq<int>, k: int): seq<int> { if 0 <= k < |l| then RemoveAt(l, k) else l }

  lemma CutConcat(L: seq<int>, R: seq<int>, k: int)
    requires 0 <= k < |L + R|
    ensures RemoveAt(L + R, k) == Cut(L, k) + Cut(R, k - |L|)
  {
  }

  lemma UniteKeepsLeft(m: Mem, m': Mem, L: seq<int>, R: seq<int>, k: int, blocks: set<int>, pages: set<int>, mm: int,
                       nextm: int)
    requires Cursor(m, L, R, blocks, pages, mm, nextm) && FreeRight(m, mm)
    requires United(m, m', L + R, k, mm, blocks, pages, {mm})
    ensures NoFreeRight(m', Cut(L, k))
  {
    var L' := Cut(L, k);
    forall i | 1 <= i < |L'|
      ensures !FreeRight(m', L'[i])
    {
      var o := if k < |L| && k <= i then i + 1 else i;
      assert L'[i] == L[o] == (L + R)[o] && Differ(L + R, o, k) && (L + R)[o] in blocks;
      MergeKeepsFreeRight(m, m', blocks, pages, mm, L[o]);
    }
  }

  lemma UniteKeepsCursor(m: Mem, m': Mem, L: seq<int>, R: seq<int>, k: int, blocks: set<int>, pages: set<int>,
                         mm: int, nextm: int)
    requires Cursor(m, L, R, blocks, pages, mm, nextm) && FreeRight(m, mm)
    requires United(m, m', L + R, k, mm, blocks, pages, {mm})
    ensures Cursor(m', Cut(L, k), Cut(R, k - |L|), blocks - {(L + R)[k]}, pages, mm, nextm)
  {
    var l, n := L + R, (L + R)[k];
    var L', R' := Cut(L, k), Cut(R, k - |L|);
    CutConcat(L, R, k);
    UniteKeepsLeft(m, m', L, R, k, blocks, pages, mm, nextm);
    assert l[|L| - 1] == nextm;
    assert Next(m, l[|L| - 1]) == At(l, |L|);
    if k == |L| - 1 {
      assert n == nextm && !FreeRight(m, n);
      MergeKeepsFreeRight(m, m', blocks, pages, mm, mm);
      BlockPlace(m, blocks, pages, mm);
      BlockPlace(m, blocks, pages, n);
      assert Stale(m', mm, nextm);
    } else {
      assert (L' + R')[|L'| - 1] == nextm;
      assert Next(m', (L' + R')[|L'| - 1]) == At(L' + R', |L'|);
    }
  }

  /** No block listed before position `c` has a free right neighbour. */
  ghost predicate Passed(m: Mem, l: seq<int>, c: int, blocks: set<int>, pages: set<int>)
  {
    && Inv(m, l, blocks, pages, {})
    && 1 <= c <= |l|
    && NoFreeRight(m, l[..c])
  }

  lemma TakeOut(m: Mem, m': Mem, l: seq<int>, c: int, blocks: set<int>, pages: set<int>)
    requires Passed(m, l, c, blocks, pages) && c < |l|
    requires Unlinked(m, m', l, c)
    ensures Cursor(m', l[..c], l[c + 1..], blocks, pages, l[c], l[c - 1])
    ensures Coalesced(m, blocks, m', blocks, l[0])
    ensures Size(m', l[c]) == Size(m, l[c])
  {
    var L, R, l' := l[..c], l[c + 1..], RemoveAt(l, c);
    UnlinkKeepsInv(m, m', l, c, blocks, pages, {});
    assert l' == L + R && {} + {l[c]} == {l[c]};
    forall i | 1 <= i < |L|
      ensures !FreeRight(m', L[i])
    {
      FreeRightFrame(m, m', blocks, pages, l[..c][i]);
    }
    assert Next(m', l'[c - 1]) == At(l', c);
    RelinkCoalesced(m, m', l', blocks, pages, l[0]);
  }

  function CursorAfter(L: seq<int>, j: int): int { if j <= |L| then |L| + 1 else |L| }

  lemma PutBackPassed(m: Mem, m': Mem, L: seq<int>, R: seq<int>, j: int, blocks: set<int>, pages: set<int>, mm: int,
                      nextm: int)
    requires Cursor(m, L, R, blocks, pages, mm, nextm) && !FreeRight(m, mm)
    requires 1 <= j <= |L + R| && Inv(m', InsertAt(L + R, j, mm), blocks, pages, {})
    requires forall b :: b in blocks ==> Size(m', b) == Size(m, b) && State(m', b) == State(m, b)
    ensures Passed(m', InsertAt(L + R, j, mm), CursorAfter(L, j), blocks, pages)
  {
    var l', c' := InsertAt(L + R, j, mm), CursorAfter(L, j);
    forall i | 1 <= i < c'
      ensures !FreeRight(m', l'[..c'][i])
    {
      if i == j {
        FreeRightFrame(m, m', blocks, pages, mm);
      } else {
        var o := if i < j then i else i - 1;
        assert l'[i] == L[o] == (L + R)[o];
        FreeRightFrame(m, m', blocks, pages, L[o]);
      }
    }
  }

  lemma LiveNext(m: Mem, m': Mem, L: seq<int>, R: seq<int>, j: int, blocks: set<int>, pages: set<int>, mm: int)
    requires Inv(m, L + R, blocks, pages, {mm}) && mm in blocks && |L| > 0
    requires 1 <= j <= |L + R| && Linked(m, m', L + R, 0, j, mm)
    ensures Next(m', L[|L| - 1]) == (if j == |L| then mm else At(R, 0))
    ensures 0 < L[|L| - 1] && L[|L| - 1] + HDR <= |m|
  {
    var l := L + R;
    InvHeaders(m, l, blocks, pages, {mm});
    OutsUnlisted(m, l, blocks, pages, {mm}, mm);
    BlockFresh(m, l, blocks, pages, {mm}, mm);
    assert l[|L| - 1] == L[|L| - 1];
    LinkedLinks(m, m', l, j, mm, |L| - 1);
  }

  /** What `clean` relies on after reinserting `mm`: reading on through the remembered predecessor
      reaches the head of `R`, even when the predecessor has been swallowed. */
  ghost predicate PutBack(m: Mem, m': Mem, L: seq<int>, R: seq<int>, blocks: set<int>, pages: set<int>, mm: int,
                          nextm: int)
  {
    var j := FirstFit(m, L + R, 0, Size(m, mm));
    && j >= 1
    && Passed(m', InsertAt(L + R, j, mm), CursorAfter(L, j), blocks, pages)
    && Coalesced(m, blocks, m', blocks, L[0])
    && At(R, 0) != mm
    && (Next(m', nextm) == At(R, 0) || (Next(m', nextm) == mm && Next(m', mm) == At(R, 0)))
    && 0 < nextm && nextm + HDR <= |m'|
  }

  lemma NextAfterPutBack(m: Mem, m': Mem, L: seq<int>, R: seq<int>, j: int, blocks: set<int>, pages: set<int>,
                         mm: int, nextm: int)
    requires Cursor(m, L, R, blocks, pages, mm, nextm)
    requires 1 <= j <= |L + R| && Linked(m, m', L + R, 0, j, mm) && LinksOnly(m, m', InsertAt(L + R, j, mm))
    ensures Next(m', nextm) == At(R, 0) || (Next(m', nextm) == mm && Next(m', mm) == At(R, 0))
    ensures 0 < nextm && nextm + HDR <= |m'|
  {
    if L[|L| - 1] == nextm {
      LiveNext(m, m', L, R, j, blocks, pages, mm);
      assert j == |L| ==> At(L + R, j) == At(R, 0);
    } else {
      var l := L + R;
      forall i | 1 <= i < |l| + 1
        ensures InsertAt(l, j, mm)[i] in blocks
      {
        if i != j { assert l[if i < j then i else i - 1] in blocks; }
      }
      StaleUntouched(m, m', InsertAt(l, j, mm), blocks, pages, mm, nextm);
    }
  }

  lemma PutBackEffect(m: Mem, m': Mem, L: seq<int>, R: seq<int>, blocks: set<int>, pages: set<int>, mm: int, nextm: int)
    requires |L| > 0
    requires Cursor(m, L, R, blocks, pages, mm, nextm) && !FreeRight(m, mm)
    requires Linked(m, m', L + R, 0, FirstFit(m, L + R, 0, Size(m, mm)), mm)
    ensures PutBack(m, m', L, R, blocks, pages, mm, nextm)
  {
    var l, j := L + R, FirstFit(m, L + R, 0, Size(m, mm));
    LinkKeepsInv(m, m', l, j, mm, blocks, pages, {mm});
    assert {mm} - {mm} == {};
    PutBackPassed(m, m', L, R, j, blocks, pages, mm, nextm);
    assert Coalesced(m, blocks, m', blocks, L[0]) by {
      assert l[0] == L[0] && InsertAt(l, j, mm)[0] == l[0];
      RelinkCoalesced(m, m', InsertAt(l, j, mm), blocks, pages, L[0]);
    }
    NextAfterPutBack(m, m', L, R, j, blocks, pages, mm, nextm);
    assert At(R, 0) != mm by {
      OutsUnlisted(m, l, blocks, pages, {mm}, mm);
      BlockPlace(m, blocks, pages, mm);
      assert |R| > 0 ==> R[0] == l[|L|];
    }
  }

  lemma CursorLands(L: seq<int>, R: seq<int>, j: int, x: int)
    requires 1 <= j <= |L + R|
    ensures At(InsertAt(L + R, j, x), CursorAfter(L, j)) == At(R, 0)
  {
  }

  lemma StaleUntouched(m: Mem, m': Mem, l: seq<int>, blocks: set<int>, pages: set<int>, b: int, x: int)
    requires Tiled(m, blocks, pages) && b in blocks && Stale(m, b, x)
    requires |l| > 0 && l[0] + HDR <= KERNEL_SPACE && forall i :: 1 <= i < |l| ==> l[i] in blocks
    requires LinksOnly(m, m', l)
    ensures forall a :: x <= a < x + HDR ==> W(m', a) == W(m, a)
    ensures KERNEL_SPACE <= x && x + HDR <= |m|
  {
    BlockPlace(m, blocks, pages, b);
    forall y | y in l
      ensures y + HDR <= x || x + HDR <= y
    {
      if y in blocks {
        assert Ordered(m, b, y) && Ordered(m, y, b);
        if y != b { BlocksClear(m, blocks, pages, b, y); }
      }
    }
  }

  /** A block that absorbed nothing goes back at or before its old place. */
  lemma PutBackNotBehind(m: Mem, m': Mem, l: seq<int>, c: int, s: int)
    requires 1 <= c < |l| && Sorted(m, l) && s == Size(m, l[c])
    requires forall i :: 0 <= i < |l| ==> Size(m', l[i]) == Size(m, l[i])
    ensures FirstFit(m', l[..c] + l[c + 1..], 0, s) <= c
  {
    var l' := l[..c] + l[c + 1..];
    if c + 1 < |l| {
      assert l'[c] == l[c + 1] && Size(m, l[c]) <= Size(m, l[c + 1]);
    }
  }

  lemma AllPassed(m: Mem, l: seq<int>, blocks: set<int>, pages: set<int>, b: int)
    requires Passed(m, l, |l|, blocks, pages) && b in blocks && State(m, b) == FREE
    ensures !FreeRight(m, b)
  {
    assert b in l;
    var i :| 0 <= i < |l| && l[i] == b;
    BlockPlace(m, blocks, pages, b);
    assert l[..|l|][i] == b;
  }

  lemma CursorHeaders(m: Mem, L: seq<int>, R: seq<int>, blocks: set<int>, pages: set<int>, mm: int, nextm: int)
    requires Cursor(m, L, R, blocks, pages, mm, nextm)
    ensures Headers(m, L + R) && Chain(m, L + R) && Fresh(m, L + R, mm)
  {
    InvHeaders(m, L + R, blocks, pages, {mm});
    OutsUnlisted(m, L + R, blocks, pages, {mm}, mm);
    BlockFresh(m, L + R, blocks, pages, {mm}, mm);
  }

  /** What the inner loop of `clean` leaves when it has grown `mm` from `L0`, `R0`, `blocks0` in `m0`. */
  ghost predicate Absorbed(m0: Mem, L0: seq<int>, R0: seq<int>, blocks0: set<int>, m: Mem, L: seq<int>, R: seq<int>,
                           blocks: set<int>, pages: set<int>, mm: int, nextm: int)
  {
    && |L0| > 0 && |L| > 0 && L[0] == L0[0]
    && Cursor(m, L, R, blocks, pages, mm, nextm)
    && Coalesced(m0, blocks0, m, blocks, L0[0])
    && (blocks == blocks0 ==> L == L0 && R == R0 && m == m0)
    && |L + R| - |blocks| == |L0 + R0| - |blocks0|
  }

  lemma StepProgress(m0: Mem, m1: Mem, l: seq<int>, c: int, blocks0: set<int>, m2: Mem, L: seq<int>, R: seq<int>,
                     blocks: set<int>, pages: set<int>, nextm: int)
    requires Passed(m0, l, c, blocks0, pages) && c < |l| && Unlinked(m0, m1, l, c)
    requires Absorbed(m1, l[..c], l[c + 1..], blocks0, m2, L, R, blocks, pages, l[c], nextm)
    ensures |L + R| + 1 < |l|
            || (|L + R| + 1 == |l| && CursorAfter(L, FirstFit(m2, L + R, 0, Size(m2, l[c]))) > c)
  {
    assert |l[..c] + l[c + 1..]| == |l| - 1;
    if blocks == blocks0 {
      UnlinkKeepsInv(m0, m1, l, c, blocks0, pages, {});
      ListedSizes(m0, m1, l, blocks0);
      PutBackNotBehind(m0, m1, l, c, Size(m1, l[c]));
    } else {
      assert |blocks0| == |blocks| + |blocks0 - blocks| && |blocks0 - blocks| > 0;
    }
  }

  lemma StepCoalesced(m0: Mem, m1: Mem, l: seq<int>, c: int, blocks0: set<int>, m2: Mem, L: seq<int>, R: seq<int>,
                      blocks: set<int>, pages: set<int>, nextm: int, m3: Mem)
    requires Passed(m0, l, c, blocks0, pages) && c < |l| && Unlinked(m0, m1, l, c)
    requires Absorbed(m1, l[..c], l[c + 1..], blocks0, m2, L, R, blocks, pages, l[c], nextm)
    requires PutBack(m2, m3, L, R, blocks, pages, l[c], nextm)
    ensures Coalesced(m0, blocks0, m3, blocks, l[0])
  {
    TakeOut(m0, m1, l, c, blocks0, pages);
    CoalescedTrans(m0, blocks0, m1, blocks0, m2, blocks, l[0]);
    CoalescedTrans(m0, blocks0, m2, blocks, m3, blocks, l[0]);
  }

  /** One iteration of `clean` from `m0`, `l`, `c`, `blocks0` to `m3`, `l'`, `c'`, `blocks`. */
  ghost predicate Stepped(m0: Mem, l: seq<int>, c: int, blocks0: set<int>, m3: Mem, l': seq<int>, c': int,
                          blocks: set<int>, pages: set<int>)
  {
    && Passed(m3, l', c', blocks, pages)
    && |l| > 0 && |l'| > 0 && l'[0] == l[0]
    && Coalesced(m0, blocks0, m3, blocks, l[0])
    && (|l'| < |l| || (|l'| == |l| && c' > c))
  }

  lemma StepEffect(m0: Mem, m1: Mem, l: seq<int>, c: int, blocks0: set<int>, m2: Mem, L: seq<int>, R: seq<int>,
                   blocks: set<int>, pages: set<int>, nextm: int, m3: Mem)
    requires Passed(m0, l, c, blocks0, pages) && c < |l| && Unlinked(m0, m1, l, c)
    requires Absorbed(m1, l[..c], l[c + 1..], blocks0, m2, L, R, blocks, pages, l[c], nextm)
    requires PutBack(m2, m3, L, R, blocks, pages, l[c], nextm)
    ensures var j := FirstFit(m2, L + R, 0, Size(m2, l[c]));
            && Stepped(m0, l, c, blocks0, m3, InsertAt(L + R, j, l[c]), CursorAfter(L, j), blocks, pages)
            && At(InsertAt(L + R, j, l[c]), CursorAfter(L, j)) == At(R, 0)
  {
    StepProgress(m0, m1, l, c, blocks0, m2, L, R, blocks, pages, nextm);
    StepCoalesced(m0, m1, l, c, blocks0, m2, L, R, blocks, pages, nextm, m3);
    CursorLands(L, R, FirstFit(m2, L + R, 0, Size(m2, l[c])), l[c]);
  }

  lemma StepFinish(m0: Mem, m1: Mem, l: seq<int>, c: int, blocks0: set<int>, m2: Mem, L: seq<int>, R: seq<int>,
                   blocks: set<int>, pages: set<int>, nextm: int, m3: Mem)
    requires Passed(m0, l, c, blocks0, pages) && c < |l| && Unlinked(m0, m1, l, c)
    requires Absorbed(m1, l[..c], l[c + 1..], blocks0, m2, L, R, blocks, pages, l[c], nextm) && !FreeRight(m2, l[c])
    requires Linked(m2, m3, L + R, 0, FirstFit(m2, L + R, 0, Size(m2, l[c])), l[c])
    ensures var j := FirstFit(m2, L + R, 0, Size(m2, l[c]));
            && 1 <= j && L + R != []
            && Stepped(m0, l, c, blocks0, m3, InsertAt(L + R, j, l[c]), CursorAfter(L, j), blocks, pages)
            && At(InsertAt(L + R, j, l[c]), CursorAfter(L, j)) == At(R, 0)
    ensures At(R, 0) != l[c] && 0 < nextm && nextm + HDR <= |m3| && 0 < l[c] && l[c] + HDR <= |m3|
    ensures Next(m3, nextm) == At(R, 0) || (Next(m3, nextm) == l[c] && Next(m3, l[c]) == At(R, 0))
  {
    PutBackEffect(m2, m3, L, R, blocks, pages, l[c], nextm);
    StepEffect(m0, m1, l, c, blocks0, m2, L, R, blocks, pages, nextm, m3);
    BlockPlace(m2, blocks, pages, l[c]);
  }
}
