/** What clients may rely on: an allocation is theirs alone until they give it back. */
module Clients {
  import opened Memory
  import opened HeapSpec
  import opened HeapInv
  import opened HeapLive

  /** Pointers that clients hold, with the sizes they asked for. */
  type Handles = map<int, int>

  /** Address `a` belongs to an allocation that a client holds. */
  ghost predicate Held(handles: Handles, a: int)
  {
    exists p :: p in handles && p <= a < p + handles[p]
  }

  ghost predicate HandleOk(m: Mem, blocks: set<int>, p: int, size: int)
  {
    p - HDR in Live(m, blocks) && 1 <= size && Round4(size) <= Size(m, p - HDR)
  }

  ghost predicate Claimed(handles: Handles, b: int) { b + HDR in handles }

  /** The handles are exactly the live blocks, and every stored word is still there. */
  ghost predicate ClientInv(m: Mem, blocks: set<int>, handles: Handles, stored: map<int, int>)
  {
    && (forall p {:trigger HandleOk(m, blocks, p, handles[p])} :: p in handles ==> HandleOk(m, blocks, p, handles[p]))
    && (forall b {:trigger Claimed(handles, b)} :: b in Live(m, blocks) ==> Claimed(handles, b))
    && (forall a {:trigger a in stored} :: a in stored ==> Held(handles, a) && W(m, a) == stored[a])
  }

  /** Allocations that are held do not overlap, and they are word-aligned. */
  lemma HandlesDisjoint(m: Mem, l: seq<int>, blocks: set<int>, pages: set<int>, handles: Handles,
                        stored: map<int, int>, p: int, q: int)
    requires Inv(m, l, blocks, pages, {}) && ClientInv(m, blocks, handles, stored)
    requires p in handles && q in handles && p != q
    ensures p + handles[p] <= q || q + handles[q] <= p
    ensures p % 4 == 0 && 0 < p
  {
    assert HandleOk(m, blocks, p, handles[p]) && HandleOk(m, blocks, q, handles[q]);
    BlocksDisjoint(m, blocks, pages, p - HDR, q - HDR);
    BlockPlace(m, blocks, pages, p - HDR);
  }

  lemma BlocksDisjoint(m: Mem, blocks: set<int>, pages: set<int>, b: int, c: int)
    requires Tiled(m, blocks, pages) && b in blocks && c in blocks && b != c
    ensures End(m, b) <= c || End(m, c) <= b
    ensures b % 4 == 0
  {
    assert Ordered(m, b, c) && Ordered(m, c, b) && BlockOk(m, blocks, pages, b);
  }

  /** Operations that keep all payloads keep what clients rely on. */
  lemma KeptClients(m0: Mem, b0: set<int>, m: Mem, blocks: set<int>, handles: Handles, stored: map<int, int>, drop: int)
    requires ClientInv(m0, b0, handles, stored) && OthersKept(m0, b0, m, drop)
    requires forall b :: b in Live(m0, b0) && b != drop ==> b in Live(m, blocks)
    ensures forall p :: p in handles && p - HDR != drop ==> HandleOk(m, blocks, p, handles[p])
    ensures forall a, p :: a in stored && p in handles && p - HDR != drop && p <= a < p + handles[p] ==>
              W(m, a) == stored[a]
  {
    forall p | p in handles && p - HDR != drop
      ensures HandleOk(m, blocks, p, handles[p]) && PayloadKept(m0, m, p - HDR)
    {
      assert HandleOk(m0, b0, p, handles[p]);
    }
    forall a, p | a in stored && p in handles && p - HDR != drop && p <= a < p + handles[p]
      ensures W(m, a) == stored[a]
    {
      assert HandleOk(m0, b0, p, handles[p]) && PayloadKept(m0, m, p - HDR);
    }
  }

  lemma SameClients(m0: Mem, b0: set<int>, m: Mem, blocks: set<int>, handles: Handles, stored: map<int, int>)
    requires ClientInv(m0, b0, handles, stored) && OthersKept(m0, b0, m, 0) && 0 !in Live(m0, b0)
    requires Live(m, blocks) == Live(m0, b0)
    ensures ClientInv(m, blocks, handles, stored)
  {
    KeptClients(m0, b0, m, blocks, handles, stored, 0);
    forall p | p in handles
      ensures HandleOk(m, blocks, p, handles[p])
    {
      assert HandleOk(m0, b0, p, handles[p]);
    }
    forall b | b in Live(m, blocks)
      ensures Claimed(handles, b)
    {
    }
    forall a | a in stored
      ensures W(m, a) == stored[a]
    {
      assert Held(handles, a);
      var p :| p in handles && p <= a < p + handles[p];
      assert HandleOk(m0, b0, p, handles[p]);
    }
  }

  lemma AllocClients(m0: Mem, b0: set<int>, m: Mem, blocks: set<int>, handles: Handles, stored: map<int, int>, b: int,
                     size: int)
    requires ClientInv(m0, b0, handles, stored) && OthersKept(m0, b0, m, b)
    requires b !in Live(m0, b0) && Live(m, blocks) == Live(m0, b0) + {b}
    requires 1 <= size && Round4(size) <= Size(m, b)
    ensures b + HDR !in handles
    ensures ClientInv(m, blocks, handles[b + HDR := size], stored)
  {
    var handles' := handles[b + HDR := size];
    assert b + HDR in handles ==> HandleOk(m0, b0, b + HDR, handles[b + HDR]);
    KeptClients(m0, b0, m, blocks, handles, stored, b);
    forall q | q in handles'
      ensures HandleOk(m, blocks, q, handles'[q])
    {
      if q != b + HDR { assert HandleOk(m0, b0, q, handles[q]); }
    }
    forall c | c in Live(m, blocks)
      ensures Claimed(handles', c)
    {
      assert c != b ==> Claimed(handles, c);
    }
    forall a | a in stored
      ensures Held(handles', a) && W(m, a) == stored[a]
    {
      assert Held(handles, a);
      StoredKept(m, handles, stored, b, size, a);
    }
  }

  lemma StoredKept(m: Mem, handles: Handles, stored: map<int, int>, b: int, size: int, a: int)
    requires a in stored && Held(handles, a) && b + HDR !in handles
    requires forall x, q :: x in stored && q in handles && q - HDR != b && q <= x < q + handles[q] ==>
               W(m, x) == stored[x]
    ensures Held(handles[b + HDR := size], a) && W(m, a) == stored[a]
  {
    var handles' := handles[b + HDR := size];
    var p :| p in handles && p <= a < p + handles[p];
    assert p in handles' && p <= a < p + handles'[p];
  }

  /** What is left of the stored words when the allocation at `p` goes. */
  ghost function Without(handles: Handles, stored: map<int, int>, p: int): map<int, int>
    requires p in handles
  {
    map a | a in stored && !(p <= a < p + handles[p]) :: stored[a]
  }

  lemma FreeClients(m0: Mem, b0: set<int>, m: Mem, blocks: set<int>, handles: Handles, stored: map<int, int>, p: int)
    requires ClientInv(m0, b0, handles, stored) && p in handles && OthersKept(m0, b0, m, p - HDR)
    requires Live(m, blocks) == Live(m0, b0) - {p - HDR}
    ensures ClientInv(m, blocks, handles - {p}, Without(handles, stored, p))
  {
    var handles', stored' := handles - {p}, Without(handles, stored, p);
    KeptClients(m0, b0, m, blocks, handles, stored, p - HDR);
    forall q | q in handles'
      ensures HandleOk(m, blocks, q, handles'[q])
    {
      assert handles'[q] == handles[q] && q != p;
    }
    forall b | b in Live(m, blocks)
      ensures Claimed(handles', b)
    {
      assert b in Live(m0, b0) && Claimed(handles, b);
    }
    forall a | a in stored'
      ensures Held(handles', a) && W(m, a) == stored'[a]
    {
      assert Held(handles, a);
      StoredLeft(m, handles, stored, p, a);
    }
  }

  lemma StoredLeft(m: Mem, handles: Handles, stored: map<int, int>, p: int, a: int)
    requires p in handles && a in Without(handles, stored, p) && Held(handles, a)
    requires forall x, q :: x in stored && q in handles && q - HDR != p - HDR && q <= x < q + handles[q] ==>
               W(m, x) == stored[x]
    ensures Held(handles - {p}, a) && W(m, a) == Without(handles, stored, p)[a]
  {
    LeftHeld(handles, stored, p, a);
    LeftStored(m, handles, stored, p, a);
  }

  lemma LeftHeld(handles: Handles, stored: map<int, int>, p: int, a: int)
    requires p in handles && a in Without(handles, stored, p) && Held(handles, a)
    ensures Held(handles - {p}, a)
  {
    var q :| q in handles && q <= a < q + handles[q];
    assert q in handles - {p} && q <= a < q + (handles - {p})[q];
  }

  lemma LeftStored(m: Mem, handles: Handles, stored: map<int, int>, p: int, a: int)
    requires p in handles && a in Without(handles, stored, p) && Held(handles - {p}, a)
    requires forall x, q :: x in stored && q in handles && q - HDR != p - HDR && q <= x < q + handles[q] ==>
               W(m, x) == stored[x]
    ensures W(m, a) == Without(handles, stored, p)[a]
  {
  }

  lemma StoreClients(m: Mem, blocks: set<int>, handles: Handles, stored: map<int, int>, p: int, a: int, v: int)
    requires ClientInv(m, blocks, handles, stored) && p in handles && p <= a < p + handles[p] && 0 <= a < |m|
    requires Live(Put(m, a, v), blocks) == Live(m, blocks)
    requires forall c :: c in blocks ==> Size(Put(m, a, v), c) == Size(m, c)
    ensures ClientInv(Put(m, a, v), blocks, handles, stored[a := v])
  {
    forall q | q in handles
      ensures HandleOk(Put(m, a, v), blocks, q, handles[q])
    {
      assert HandleOk(m, blocks, q, handles[q]);
    }
    forall b | b in Live(Put(m, a, v), blocks)
      ensures Claimed(handles, b)
    {
    }
    assert Held(handles, a);
  }
}
