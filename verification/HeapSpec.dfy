module HeapSpec {
  import opened Memory

  const HDR: int := 16
  const FREE: int := 0xFE
  const BUSY: int := 0xFB

  function Size(m: Mem, b: int): int { W(m, b) }
  function Next(m: Mem, b: int): int { W(m, b + 4) }
  function Root(m: Mem, b: int): int { W(m, b + 8) }
  function State(m: Mem, b: int): int { W(m, b + 12) }

  /** Address just behind the payload of block `b`. */
  function End(m: Mem, b: int): int { b + HDR + Size(m, b) }

  // ----- the free list as a sequence of header addresses -----

  function At(l: seq<int>, i: int): int { if 0 <= i < |l| then l[i] else 0 }

  function RemoveAt(l: seq<int>, k: int): (r: seq<int>)
    requires 0 <= k < |l|
    ensures |r| == |l| - 1
    ensures forall i :: 0 <= i < k ==> r[i] == l[i]
    ensures forall i :: k <= i < |r| ==> r[i] == l[i + 1]
  {
    l[..k] + l[k + 1..]
  }

  function InsertAt(l: seq<int>, k: int, x: int): (r: seq<int>)
    requires 0 <= k <= |l|
    ensures |r| == |l| + 1 && r[k] == x
    ensures forall i :: 0 <= i < k ==> r[i] == l[i]
    ensures forall i :: k < i < |r| ==> r[i] == l[i - 1]
  {
    l[..k] + [x] + l[k..]
  }

  /** `next` runs forward along `l`, `root` runs backward, both end in NULL. */
  ghost predicate Chain(m: Mem, l: seq<int>)
  {
    forall i {:trigger Next(m, l[i])} {:trigger Root(m, l[i])} ::
      0 <= i < |l| ==> Next(m, l[i]) == At(l, i + 1) && Root(m, l[i]) == At(l, i - 1)
  }

  ghost predicate Sorted(m: Mem, l: seq<int>)
  {
    forall i, j {:trigger Size(m, l[i]), Size(m, l[j])} ::
      0 <= i < j < |l| ==> Size(m, l[i]) <= Size(m, l[j])
  }

  ghost predicate Clear(x: int, y: int) { x + HDR <= y || y + HDR <= x }

  /** The headers of `l` lie in memory, none at NULL, and no two share a byte. */
  ghost predicate Headers(m: Mem, l: seq<int>)
  {
    && (forall i :: 0 <= i < |l| ==> 0 < l[i] && l[i] + HDR <= |m|)
    && (forall i, j {:trigger Clear(l[i], l[j])} :: 0 <= i < |l| && 0 <= j < |l| && i != j ==> Clear(l[i], l[j]))
  }

  /** Only `next` and `root` words of the headers in `xs` may differ. */
  ghost predicate LinksOnly(m: Mem, m': Mem, xs: seq<int>)
  {
    && |m'| == |m|
    && forall a {:trigger W(m', a)} :: a - 4 !in xs && a - 8 !in xs ==> W(m', a) == W(m, a)
  }

  lemma LinksKeep(m: Mem, m': Mem, xs: seq<int>, y: int)
    requires LinksOnly(m, m', xs)
    requires forall x :: x in xs ==> x == y || Clear(x, y)
    ensures Size(m', y) == Size(m, y) && State(m', y) == State(m, y)
    ensures y !in xs ==> Next(m', y) == Next(m, y) && Root(m', y) == Root(m, y)
  {
  }

  /** Memory `m'` is `m` after position `k` has been taken out of the chain `l`. */
  ghost predicate Unlinked(m: Mem, m': Mem, l: seq<int>, k: int)
    requires 1 <= k < |l|
  {
    && |m'| == |m|
    && Next(m', l[k - 1]) == At(l, k + 1)
    && (k + 1 < |l| ==> Root(m', l[k + 1]) == l[k - 1])
    && forall a {:trigger W(m', a)} :: a != l[k - 1] + 4 && (k + 1 < |l| ==> a != l[k + 1] + 8) ==> W(m', a) == W(m, a)
  }

  lemma UnlinkedLinks(m: Mem, m': Mem, l: seq<int>, k: int, o: int)
    requires 1 <= k < |l| && Headers(m, l) && Chain(m, l) && Unlinked(m, m', l, k)
    requires 0 <= o < |l| && o != k
    ensures Next(m', l[o]) == if o == k - 1 then At(l, k + 1) else At(l, o + 1)
    ensures Root(m', l[o]) == if o == k + 1 then l[k - 1] else At(l, o - 1)
  {
    assert Next(m, l[o]) == At(l, o + 1);
    assert o != k - 1 ==> Clear(l[o], l[k - 1]);
    assert k + 1 < |l| && o != k + 1 ==> Clear(l[o], l[k + 1]);
  }

  lemma UnlinkKeepsChain(m: Mem, m': Mem, l: seq<int>, k: int)
    requires 1 <= k < |l| && Headers(m, l) && Chain(m, l) && Unlinked(m, m', l, k)
    ensures Chain(m', RemoveAt(l, k))
  {
    var l' := RemoveAt(l, k);
    forall i | 0 <= i < |l'|
      ensures Next(m', l'[i]) == At(l', i + 1) && Root(m', l'[i]) == At(l', i - 1)
    {
      if i < k {
        UnlinkedLinks(m, m', l, k, i);
      } else {
        UnlinkedLinks(m, m', l, k, i + 1);
      }
    }
  }

  lemma UnlinkFrame(m: Mem, m': Mem, l: seq<int>, k: int)
    requires 1 <= k < |l| && Headers(m, l) && Unlinked(m, m', l, k)
    ensures Headers(m', RemoveAt(l, k))
    ensures LinksOnly(m, m', RemoveAt(l, k))
  {
  }

  /** Index at or behind `i` of the first block of at least `s` bytes, or the end of the list. */
  function FirstFit(m: Mem, l: seq<int>, i: int, s: int): (j: int)
    requires 0 <= i <= |l|
    ensures i <= j <= |l|
    ensures forall k :: i <= k < j ==> Size(m, l[k]) < s
    ensures j < |l| ==> Size(m, l[j]) >= s
    decreases |l| - i
  {
    if i < |l| && Size(m, l[i]) < s then FirstFit(m, l, i + 1, s) else i
  }

  /** The header `x` lies in memory and shares no byte with a header of `l`. */
  ghost predicate Fresh(m: Mem, l: seq<int>, x: int)
  {
    && 0 < x && x + HDR <= |m|
    && forall i {:trigger Clear(x, l[i])} :: 0 <= i < |l| ==> Clear(x, l[i])
  }

  /** Memory `m'` is `m` after `x` has been linked in front of position `j` of the chain `l`;
      a predecessor at or behind position `i` already points to `x`. */
  ghost predicate Linked(m: Mem, m': Mem, l: seq<int>, i: int, j: int, x: int)
    requires 0 <= i <= j <= |l|
  {
    && |m'| == |m|
    && Next(m', x) == At(l, j)
    && Root(m', x) == (if i < j then l[j - 1] else if j < |l| then Root(m, l[j]) else 0)
    && (i < j ==> Next(m', l[j - 1]) == x)
    && (j < |l| ==> Root(m', l[j]) == x)
    && forall a {:trigger W(m', a)} :: a != x + 4 && a != x + 8 && (i < j ==> a != l[j - 1] + 4)
        && (j < |l| ==> a != l[j] + 8)
        ==> W(m', a) == W(m, a)
  }

  lemma LinkedLinks(m: Mem, m': Mem, l: seq<int>, j: int, x: int, o: int)
    requires 1 <= j <= |l| && Headers(m, l) && Chain(m, l) && Fresh(m, l, x) && Linked(m, m', l, 0, j, x)
    requires 0 <= o < |l|
    ensures Next(m', l[o]) == if o == j - 1 then x else At(l, o + 1)
    ensures Root(m', l[o]) == if o == j then x else At(l, o - 1)
  {
    assert Clear(x, l[o]) && Next(m, l[o]) == At(l, o + 1);
    assert o != j - 1 ==> Clear(l[o], l[j - 1]);
    assert j < |l| && o != j ==> Clear(l[o], l[j]);
  }

  lemma LinkedKeepsChain(m: Mem, m': Mem, l: seq<int>, j: int, x: int)
    requires 1 <= j <= |l| && Headers(m, l) && Chain(m, l) && Fresh(m, l, x) && Linked(m, m', l, 0, j, x)
    ensures Chain(m', InsertAt(l, j, x))
  {
    var l' := InsertAt(l, j, x);
    forall i | 0 <= i < |l'|
      ensures Next(m', l'[i]) == At(l', i + 1) && Root(m', l'[i]) == At(l', i - 1)
    {
      if i < j {
        LinkedLinks(m, m', l, j, x, i);
      } else if i > j {
        LinkedLinks(m, m', l, j, x, i - 1);
      }
    }
  }

  lemma LinkedFrame(m: Mem, m': Mem, l: seq<int>, j: int, x: int)
    requires 1 <= j <= |l| && Headers(m, l) && Fresh(m, l, x) && Linked(m, m', l, 0, j, x)
    ensures Headers(m', InsertAt(l, j, x))
    ensures LinksOnly(m, m', InsertAt(l, j, x))
  {
    var l' := InsertAt(l, j, x);
    assert l'[j - 1] == l[j - 1] && l'[j] == x;
    if j < |l| { assert l'[j + 1] == l[j]; }
    forall p, q | 0 <= p < |l'| && 0 <= q < |l'| && p != q
      ensures Clear(l'[p], l'[q])
    {
      var p', q' := if p < j then p else p - 1, if q < j then q else q - 1;
      if p == j {
        assert Clear(x, l[q']);
      } else if q == j {
        assert Clear(x, l[p']);
      } else {
        assert Clear(l[p'], l[q']);
      }
    }
  }

  /** One level of the recursion in `add`: linking behind `l[i]` given the linked rest. */
  lemma LinkedStep(m: Mem, m1: Mem, m2: Mem, l: seq<int>, i: int, j: int, x: int)
    requires 0 <= i < j <= |l| && Headers(m, l) && Chain(m, l) && Fresh(m, l, x)
    requires Linked(m, m1, l, i + 1, j, x) && |m2| == |m1|
    requires var h := if j == i + 1 then x else l[i + 1];
             && Next(m2, l[i]) == h && Root(m2, h) == l[i]
             && forall a {:trigger W(m2, a)} :: a != l[i] + 4 && a != h + 8 ==> W(m2, a) == W(m1, a)
    ensures Linked(m, m2, l, i, j, x)
  {
    assert Clear(x, l[i]) && Clear(x, l[j - 1]);
    assert j < |l| ==> Clear(x, l[j]) && Clear(l[i], l[j]) && Clear(l[j], l[i]);
    if j > i + 1 {
      assert Next(m, l[i]) == At(l, i + 1) && Root(m, l[i + 1]) == At(l, i);
      assert Clear(l[i], l[j - 1]) && Clear(x, l[i + 1]) && Clear(l[i], l[i + 1]);
      assert j - 1 != i + 1 ==> Clear(l[i + 1], l[j - 1]);
      assert j < |l| ==> Clear(l[i + 1], l[j]) && Clear(l[j - 1], l[j]);
    }
  }
}
