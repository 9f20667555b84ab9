/** Quotient and remainder by the powers of two that entries and addresses are cut at. */
module Division {

  lemma By2(q: int, r: int)
    requires 0 <= r < 2
    ensures (2 * q + r) / 2 == q && (2 * q + r) % 2 == r
  {
  }

  lemma By4(q: int, r: int)
    requires 0 <= r < 4
    ensures (4 * q + r) / 4 == q && (4 * q + r) % 4 == r
  {
  }

  lemma By8(q: int, r: int)
    requires 0 <= r < 8
    ensures (8 * q + r) / 8 == q && (8 * q + r) % 8 == r
  {
  }

  lemma By1024(q: int, r: int)
    requires 0 <= r < 1024
    ensures (1024 * q + r) / 1024 == q && (1024 * q + r) % 1024 == r
  {
  }

  lemma By4096(q: int, r: int)
    requires 0 <= r < 4096
    ensures (4096 * q + r) / 4096 == q && (4096 * q + r) % 4096 == r
  {
  }
}
