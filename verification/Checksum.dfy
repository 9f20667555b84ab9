/** The Internet checksum of net/ip.c:9-16 (RFC 1071). */
module Checksum {
  import opened ByteOrder

  const WORD32: int := 0x1_0000_0000

  /** One's-complement addition of 16-bit words: the carry goes round. */
  function OnesAdd(a: short, b: short): short
  {
    if a + b > 0xFFFF then a + b - 0xFFFF else a + b
  }

  /** The one's-complement sum of RFC 1071, section 1. */
  function OnesSum(s: seq<short>): short
  {
    if s == [] then 0 else OnesAdd(OnesSum(s[..|s| - 1]), s[|s| - 1])
  }

  /** The checksum field that RFC 1071 asks for. */
  function Check(s: seq<short>): short { 0xFFFF - OnesSum(s) }

  function Total(s: seq<short>): nat
  {
    if s == [] then 0 else Total(s[..|s| - 1]) + s[|s| - 1]
  }

  /** The one's-complement reading of a plain sum: 0 only for 0, else the residue in 1..0xFFFF. */
  function Residue(t: nat): short
  {
    if t == 0 then 0 else (t - 1) % 0xFFFF + 1
  }

  lemma {:induction false} OnesSumIsResidue(s: seq<short>)
    ensures OnesSum(s) == Residue(Total(s))
  {
    if s != [] {
      OnesSumIsResidue(s[..|s| - 1]);
      ResidueAdd(Total(s[..|s| - 1]), s[|s| - 1]);
    }
  }

  lemma ResidueAdd(t: nat, x: short)
    ensures Residue(t + x) == OnesAdd(Residue(t), x)
  {
  }

  // ----- the computation of the source -----

  /** What the two folds and the final complement make of a 32-bit sum (net/ip.c:13-15). */
  function Folded(sum: long): short
  {
    var once := sum % 0x1_0000 + sum / 0x1_0000;
    var twice := once + once / 0x1_0000;
    0xFFFF - twice % 0x1_0000
  }

  /** Two folds suffice for every 32-bit sum. */
  lemma FoldsSuffice(sum: long)
    ensures Folded(sum) == 0xFFFF - Residue(sum)
  {
  }

  lemma {:induction false} TotalBound(s: seq<short>)
    ensures Total(s) <= 0xFFFF * |s|
  {
    if s != [] { TotalBound(s[..|s| - 1]); }
  }

  lemma TotalStep(s: seq<short>, i: nat)
    requires i < |s|
    ensures Total(s[..i + 1]) == Total(s[..i]) + s[i]
  {
    assert s[..i + 1][..i] == s[..i];
  }

  /** net/ip.c:9-16. The accumulator is an unsigned 32-bit word; it holds the whole sum of up to
      65537 words, and then the result is the checksum of RFC 1071. */
  method CheckSum(src: seq<short>, lenght: int) returns (r: short)
    requires lenght <= |src|
    ensures var s := if lenght > 0 then src[..lenght] else [];
            && r == 0xFFFF - Residue(Total(s) % WORD32)
            && (|s| <= 65537 ==> r == Check(s))
  {
    var sum, n, i := 0, lenght, 0;
    while n > 0
      invariant 0 <= i <= |src| && n + i == lenght && (i > 0 ==> n >= 0)
      invariant sum == Total(src[..i]) % WORD32
    {
      TotalStep(src, i);
      WrapAdd(Total(src[..i]), src[i]);
      sum := (sum + src[i]) % WORD32;
      i := i + 1;
      n := n - 1;
    }
    FoldedIsCheck(src[..i]);
    assert (if lenght > 0 then src[..lenght] else []) == src[..i];
    ghost var total := sum;
    sum := sum % 0x1_0000 + sum / 0x1_0000;
    sum := sum + sum / 0x1_0000;
    r := 0xFFFF - sum % 0x1_0000;
    assert r == Folded(total);
  }

  lemma FoldedIsCheck(s: seq<short>)
    ensures Folded(Total(s) % WORD32) == 0xFFFF - Residue(Total(s) % WORD32)
    ensures |s| <= 65537 ==> Folded(Total(s) % WORD32) == Check(s)
  {
    var t := Total(s);
    FoldsSuffice(t % WORD32);
    OnesSumIsResidue(s);
    TotalBound(s);
    if |s| <= 65537 { NoWrap(t); }
  }

  lemma NoWrap(t: nat)
    requires t < WORD32
    ensures t % WORD32 == t
  {
  }

  lemma WrapAdd(t: nat, x: short)
    ensures (t % WORD32 + x) % WORD32 == (t + x) % WORD32
  {
  }

  /** Exactly when the wrapped accumulator still gives the checksum: the number of wraps is a
      multiple of 65535, and the accumulator is 0 for the sum 0 only. */
  lemma WrapExact(t: nat)
    ensures Residue(t % WORD32) == Residue(t) <==> (t / WORD32) % 0xFFFF == 0 && (t % WORD32 == 0 ==> t == 0)
  {
  }

  /** One word more than 65537 can already break the result. */
  lemma {:induction false} TotalOfOnes(n: nat, s: seq<short>)
    requires |s| == n && forall i :: 0 <= i < n ==> s[i] == 0xFFFF
    ensures Total(s) == 0xFFFF * n
    decreases n
  {
    if n > 0 { TotalOfOnes(n - 1, s[..n - 1]); }
  }

  lemma BoundIsTight()
    ensures var s := seq(65538, i => 0xFFFF as short);
            0xFFFF - Residue(Total(s) % WORD32) == 1 && Check(s) == 0
  {
    var s := seq(65538, i => 0xFFFF as short);
    TotalOfOnes(65538, s);
    OnesSumIsResidue(s);
    var t := Total(s);
    assert t == WORD32 + 0xFFFE && t - 1 == 0xFFFF * 65537 + 0xFFFE;
  }

  // ----- byte order (RFC 1071, section 2(B)) -----

  function Swapped(s: seq<short>): seq<short>
  {
    seq(|s|, i requires 0 <= i < |s| => ShortSwap(s[i]))
  }

  /** Swapping bytes is a rotation, and one's-complement addition does not care where the carry enters. */
  lemma SwapAdd(a: short, b: short)
    ensures OnesAdd(ShortSwap(a), ShortSwap(b)) == ShortSwap(OnesAdd(a, b))
  {
    var a1: byte, a0: byte, b1: byte, b0: byte := a / 0x100, a % 0x100, b / 0x100, b % 0x100;
    var lo, hi := a0 as int + b0, a1 as int + b1;
    var c0, c1 := if lo > 0xFF then 1 else 0, if hi + (if lo > 0xFF then 1 else 0) > 0xFF then 1 else 0;
    if a + b > 0xFFFF {
      // the carry out of the high byte goes round into the low byte
      assert c1 == 1;
      var r0, r1 := lo - 0x100 * c0 + 1, hi + c0 - 0x100;
      if r0 <= 0xFF {
        ShortParts(r1, r0);
        assert OnesAdd(a, b) == Short(r1, r0);
      } else {
        ShortParts(r1 + 1, 0);
        assert OnesAdd(a, b) == Short(r1 + 1, 0);
      }
    } else {
      assert c1 == 0;
      ShortParts(hi + c0, lo - 0x100 * c0);
      assert OnesAdd(a, b) == Short(hi + c0, lo - 0x100 * c0);
    }
  }

  lemma SwapComplement(x: short)
    ensures ShortSwap(0xFFFF - x) == 0xFFFF - ShortSwap(x)
  {
    ShortParts(0xFF - x / 0x100, 0xFF - x % 0x100);
    assert 0xFFFF - x == Short(0xFF - x / 0x100, 0xFF - x % 0x100);
  }

  lemma {:induction false} SwapSum(s: seq<short>)
    ensures OnesSum(Swapped(s)) == ShortSwap(OnesSum(s))
  {
    if s != [] {
      var p := s[..|s| - 1];
      SwapSum(p);
      assert Swapped(s)[..|s| - 1] == Swapped(p);
      SwapAdd(OnesSum(p), s[|s| - 1]);
    }
  }

  /** The checksum may be computed in either byte order. */
  lemma ByteOrderIndependent(s: seq<short>)
    ensures Check(Swapped(s)) == ShortSwap(Check(s))
  {
    SwapSum(s);
    SwapComplement(OnesSum(s));
  }

  // ----- storing the checksum in the header it covers -----

  lemma {:induction false} TotalUpdate(s: seq<short>, k: nat, v: short)
    requires k < |s|
    ensures Total(s[k := v]) == Total(s) - s[k] + v
    ensures Total(s) >= s[k]
  {
    var n := |s| - 1;
    if k == n {
      assert s[k := v][..n] == s[..n];
    } else {
      TotalUpdate(s[..n], k, v);
      assert s[k := v][..n] == s[..n][k := v];
    }
  }

  /** Which values of word `k` make a receiver's check come out as 0: the checksum taken with that
      word 0, and 0xFFFF for the checksum 0. */
  lemma Verifies(s: seq<short>, k: nat, v: short)
    requires k < |s|
    ensures var c := Check(s[k := 0]);
            Check(s[k := v]) == 0 <==> v == c || (c == 0 && v == 0xFFFF)
  {
    var t := Total(s[k := 0]);
    TotalUpdate(s, k, v);
    TotalUpdate(s, k, 0);
    OnesSumIsResidue(s[k := 0]);
    OnesSumIsResidue(s[k := v]);
    ResidueAdd(t, v);
    assert Total(s[k := v]) == t + v;
  }

  /** With a checksum word of 0, storing the checksum makes the whole header check out. */
  lemma StoredVerifies(s: seq<short>, k: nat)
    requires k < |s| && s[k] == 0
    ensures Check(s[k := Check(s)]) == 0
  {
    assert s[k := 0] == s;
    Verifies(s, k, Check(s));
  }

  /** With any word in its place, storing the checksum taken over it works exactly when that word
      is one of the two zeros of one's-complement arithmetic. */
  lemma StoredOverLeftover(s: seq<short>, k: nat)
    requires k < |s| && Total(s) > s[k]
    ensures Check(s[k := Check(s)]) == 0 <==> s[k] == 0 || s[k] == 0xFFFF
  {
    var v := Check(s);
    var t := Total(s[k := 0]);
    TotalUpdate(s, k, 0);
    Verifies(s, k, v);
    OnesSumIsResidue(s);
    OnesSumIsResidue(s[k := 0]);
    ResidueAdd(t, s[k]);
    assert Total(s) == t + s[k] && t > 0;
  }
}
