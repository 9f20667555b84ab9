/** The byte-swapping macros of include/net/in.h, on unsigned values. */
module ByteOrder {

  type byte = x: int | 0 <= x < 0x100 witness 0
  type short = x: int | 0 <= x < 0x1_0000 witness 0
  type long = x: int | 0 <= x < 0x1_0000_0000 witness 0

  /** A 16-bit word from its high and low byte, and a 32-bit word from its halves. */
  function Short(hi: byte, lo: byte): short { hi as int * 0x100 + lo }
  function Long(hi: short, lo: short): long { hi as int * 0x1_0000 + lo }

  /** `xchg %ah,%al` (include/net/in.h:5-9). */
  function ShortSwap(x: short): short { Short(x % 0x100, x / 0x100) }

  /** include/net/in.h:11-22: swap the low half, move it up, and swap what was the high half. The
      shift by 16 drops the upper half of `eax`. */
  function LongSwap(x: long): long
  {
    var eax: long := Long(x / 0x1_0000, ShortSwap(x % 0x1_0000));
    Long(eax % 0x1_0000, ShortSwap(eax / 0x1_0000))
  }

  /** The bytes of a word in the order in which this little-endian machine stores them. */
  function ShortBytes(x: short): seq<byte> { [x % 0x100, x / 0x100] }
  function LongBytes(x: long): seq<byte> { ShortBytes(x % 0x1_0000) + ShortBytes(x / 0x1_0000) }

  /** The value of bytes read most significant first, as on the wire. */
  function WireShort(b: seq<byte>): short
    requires |b| == 2
  {
    Short(b[0], b[1])
  }

  function WireLong(b: seq<byte>): long
    requires |b| == 4
  {
    Long(WireShort(b[..2]), WireShort(b[2..]))
  }

  lemma ShortParts(hi: byte, lo: byte)
    ensures Short(hi, lo) % 0x100 == lo && Short(hi, lo) / 0x100 == hi
  {
  }

  lemma LongParts(hi: short, lo: short)
    ensures Long(hi, lo) % 0x1_0000 == lo && Long(hi, lo) / 0x1_0000 == hi
  {
  }

  /** A swapped word, stored by a little-endian machine, reads on the wire as the word itself. */
  lemma SwappedShortOnWire(x: short)
    ensures WireShort(ShortBytes(ShortSwap(x))) == x
    ensures WireShort(ShortBytes(x)) == ShortSwap(x)
    ensures ShortSwap(ShortSwap(x)) == x
  {
    ShortParts(x % 0x100, x / 0x100);
  }

  lemma LongSwapHalves(x: long)
    ensures LongSwap(x) == Long(ShortSwap(x % 0x1_0000), ShortSwap(x / 0x1_0000))
  {
    LongParts(x / 0x1_0000, ShortSwap(x % 0x1_0000));
  }

  lemma SwappedLongOnWire(x: long)
    ensures WireLong(LongBytes(LongSwap(x))) == x
    ensures WireLong(LongBytes(x)) == LongSwap(x)
    ensures LongSwap(LongSwap(x)) == x
  {
    var lo, hi: short := x % 0x1_0000, x / 0x1_0000;
    LongSwapHalves(x);
    LongParts(ShortSwap(lo), ShortSwap(hi));
    LongSwapHalves(LongSwap(x));
    SwappedShortOnWire(lo);
    SwappedShortOnWire(hi);
    assert LongBytes(x)[..2] == ShortBytes(lo) && LongBytes(x)[2..] == ShortBytes(hi);
    var y := LongSwap(x);
    assert LongBytes(y)[..2] == ShortBytes(ShortSwap(hi)) && LongBytes(y)[2..] == ShortBytes(ShortSwap(lo));
  }
}
