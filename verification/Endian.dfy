/** Four bytes as a 32-bit word, in either order. */
module Endian {
  import opened Addresses
  import opened Bits

  function BigEndian(b: seq<Byte>): Word
    requires |b| == 4
  {
    var b0: int, b1: int, b2: int, b3: int := b[0], b[1], b[2], b[3];
    0x100_0000 * b0 + 0x1_0000 * b1 + 0x100 * b2 + b3
  }

  function LittleEndian(b: seq<Byte>): Word
    requires |b| == 4
  {
    var b0: int, b1: int, b2: int, b3: int := b[0], b[1], b[2], b[3];
    b0 + 0x100 * b1 + 0x1_0000 * b2 + 0x100_0000 * b3
  }

  /** The lowest byte of a number and the number above it. */
  lemma LowByte(lo: Byte, hi: int)
    ensures (lo + 0x100 * hi) % 0x100 == lo && (lo + 0x100 * hi) / 0x100 == hi
  {
  }

  lemma SplitLowByte(lo: Byte, hi: int, lo': Byte, hi': int)
    requires lo + 0x100 * hi == lo' + 0x100 * hi'
    ensures lo == lo' && hi == hi'
  {
    LowByte(lo, hi);
    LowByte(lo', hi');
  }

  /** Words are equal only if their bytes are. */
  lemma LittleEndianInjective(b: seq<Byte>, b': seq<Byte>)
    requires |b| == |b'| == 4
    requires LittleEndian(b) == LittleEndian(b')
    ensures b == b'
  {
    var b0: int, b1: int, b2: int, b3: int := b[0], b[1], b[2], b[3];
    var c0: int, c1: int, c2: int, c3: int := b'[0], b'[1], b'[2], b'[3];
    SplitLowByte(b0, b1 + 0x100 * (b2 + 0x100 * b3), c0, c1 + 0x100 * (c2 + 0x100 * c3));
    SplitLowByte(b1, b2 + 0x100 * b3, c1, c2 + 0x100 * c3);
    SplitLowByte(b2, b3, c2, c3);
  }
}
