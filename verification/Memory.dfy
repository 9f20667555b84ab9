/**
 The kernel's view of physical memory: `m[a]` is the 32-bit word stored at byte address `a`.
 The kernel code modelled here only ever touches word-aligned addresses, so distinct
 addresses that it uses denote disjoint bytes.
 */
module Memory {

  type Mem = seq<int>

  const PAGE: int := 4096

  /** First address handed out by the kernel frame allocator (kernel/mm.c:18). */
  const KERNEL_SPACE: int := 0x40_0000

  /** Base address of the page that holds address `a`. */
  function PageOf(a: int): int { a - a % PAGE }

  /** Total word read, so that specifications need no bounds. */
  function W(m: Mem, a: int): int
  {
    if 0 <= a < |m| then m[a] else 0
  }

  /** Total word write. */
  function Put(m: Mem, a: int, v: int): (m': Mem)
    ensures |m'| == |m|
    ensures 0 <= a < |m| ==> W(m', a) == v
    ensures forall x :: x != a ==> W(m', x) == W(m, x)
  {
    if 0 <= a < |m| then m[a := v] else m
  }

  /** Some element of a set. */
  ghost function Choose<T>(s: set<T>): (x: T)
    requires s != {}
    ensures x in s
  {
    var x :| x in s;
    x
  }
}
