/** The byte order of a load, and `little2big` of lib/dtb.c, on bits. */
module Endian {

  newtype Byte = b: int | 0 <= b < 256

  /** A 32-bit load on a little-endian machine, on the bytes as bits. */
  function Word(a: bv8, b: bv8, c: bv8, d: bv8): bv32 {
    (a as bv32) | ((b as bv32) << 8) | ((c as bv32) << 16) | ((d as bv32) << 24)
  }

  /** `little2big`. */
  function Little2Big(x: bv32): bv32 {
    ((x >> 24) & 0xff) | ((x << 8) & 0xff0000) | ((x >> 8) & 0xff00) | ((x << 24) & 0xff000000)
  }

  /** It turns a load into one on a machine that keeps the highest byte first, */
  lemma SwapsBytes(a: bv8, b: bv8, c: bv8, d: bv8)
    ensures Little2Big(Word(a, b, c, d)) == Word(d, c, b, a)
  {
  }

  /** and undoes itself. */
  lemma SwapTwice(x: bv32)
    ensures Little2Big(Little2Big(x)) == x
  {
  }

  lemma LowPair(a: bv8, b: bv8)
    ensures ((a as bv16) | ((b as bv16) << 8)) as int == (a as int) + 0x100 * (b as int)
  {
  }

  lemma HighPair(x: bv16, y: bv16)
    ensures ((x as bv32) | ((y as bv32) << 16)) as int == (x as int) + 0x1_0000 * (y as int)
  {
  }

  lemma WordPairs(a: bv8, b: bv8, c: bv8, d: bv8, lo: bv16, hi: bv16)
    requires lo == (a as bv16) | ((b as bv16) << 8) && hi == (c as bv16) | ((d as bv16) << 8)
    ensures Word(a, b, c, d) == (lo as bv32) | ((hi as bv32) << 16)
  {
  }

  lemma WordIs(a: bv8, b: bv8, c: bv8, d: bv8)
    ensures Word(a, b, c, d) as int ==
              (a as int) + 0x100 * (b as int) + 0x1_0000 * (c as int) + 0x100_0000 * (d as int)
  {
    var lo, hi := (a as bv16) | ((b as bv16) << 8), (c as bv16) | ((d as bv16) << 8);
    LowPair(a, b);
    LowPair(c, d);
    WordPairs(a, b, c, d, lo, hi);
    HighPair(lo, hi);
  }

  lemma HalfBits(b: int)
    requires 0 <= b < 16
    ensures ((b as bv8) as int) == b
  {
  }

  lemma Halves(high: bv8, low: bv8, b: int)
    requires 0 <= b < 256 && high as int == b / 16 && low as int == b % 16
    ensures ((high << 4) | low) as int == b
  {
  }

  lemma BitsAre(x: bv8, b: int)
    requires x as int == b
    ensures b as bv8 == x
  {
  }

  lemma ByteBits(b: Byte)
    ensures ((b as bv8) as int) == (b as int)
  {
    var n := b as int;
    HalfBits(n / 16);
    HalfBits(n % 16);
    var high, low := (n / 16) as bv8, (n % 16) as bv8;
    Halves(high, low, n);
    BitsAre((high << 4) | low, n);
  }

  /** The number that four bytes give, the highest first, is `little2big` of a load of
      them. */
  lemma SwappedBytes(a: Byte, b: Byte, c: Byte, d: Byte)
    ensures Little2Big(Word(a as bv8, b as bv8, c as bv8, d as bv8)) as int ==
              0x100_0000 * (a as int) + 0x1_0000 * (b as int) + 0x100 * (c as int) + (d as int)
  {
    ByteBits(a);
    ByteBits(b);
    ByteBits(c);
    ByteBits(d);
    SwapsBytes(a as bv8, b as bv8, c as bv8, d as bv8);
    WordIs(d as bv8, c as bv8, b as bv8, a as bv8);
  }

  /** A load of four bytes and `little2big` of it. */
  method LoadBig(a: Byte, b: Byte, c: Byte, d: Byte) returns (v: nat)
    ensures v == 0x100_0000 * (a as int) + 0x1_0000 * (b as int) + 0x100 * (c as int) + (d as int)
  {
    SwappedBytes(a, b, c, d);
    v := Little2Big(Word(a as bv8, b as bv8, c as bv8, d as bv8)) as int;
  }
}
