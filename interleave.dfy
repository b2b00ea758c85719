/** Bit interleaving of cell coordinates into Morton (Z) order:
    spread_by_1_bit and compact_by_1_bit of quad_tree.cpp. Both take and
    return 64-bit values; the coordinates they carry are 32-bit. */
module Interleave {

  const EvenBits: bv64 := 0x5555_5555_5555_5555
  const OddBits: bv64 := 0xAAAA_AAAA_AAAA_AAAA
  const Low32: bv64 := 0x0000_0000_FFFF_FFFF

  /** spread_by_1_bit: moves bit i of the low 32 bits of x to bit 2i. */
  function Spread(x: bv64): (r: bv64)
    ensures r & OddBits == 0
  {
    var x0 := x & Low32;
    var x1 := (x0 | (x0 << 16)) & 0x0000_ffff_0000_ffff;
    var x2 := (x1 | (x1 << 8)) & 0x00ff_00ff_00ff_00ff;
    var x3 := (x2 | (x2 << 4)) & 0x0f0f_0f0f_0f0f_0f0f;
    var x4 := (x3 | (x3 << 2)) & 0x3333_3333_3333_3333;
    (x4 | (x4 << 1)) & EvenBits
  }

  /** compact_by_1_bit: moves bit 2i of x to bit i, dropping the odd bits. */
  function Compact(x: bv64): (r: bv64)
    ensures r <= Low32
  {
    var x0 := x & EvenBits;
    var x1 := (x0 | (x0 >> 1)) & 0x3333_3333_3333_3333;
    var x2 := (x1 | (x1 >> 2)) & 0x0f0f_0f0f_0f0f_0f0f;
    var x3 := (x2 | (x2 >> 4)) & 0x00ff_00ff_00ff_00ff;
    var x4 := (x3 | (x3 >> 8)) & 0x0000_ffff_0000_ffff;
    (x4 | (x4 >> 16)) & Low32
  }

  /** compact_by_1_bit undoes spread_by_1_bit on the low 32 bits. */
  lemma CompactSpread(x: bv64)
    ensures Compact(Spread(x)) == x & Low32
  {}

  /** spread_by_1_bit undoes compact_by_1_bit on the even bits. */
  lemma SpreadCompact(x: bv64)
    ensures Spread(Compact(x)) == x & EvenBits
  {}

  /** A coordinate below 2^j spreads to a value below 2^(2j). */
  lemma SpreadBound(x: bv64, j: bv64)
    requires j <= 29 && x < (1 as bv64) << j
    ensures Spread(x) < (1 as bv64) << (2 * j)
  {}

  /** Both coordinates are recovered from their Morton code. */
  lemma MortonSplit(x: bv64, y: bv64)
    ensures Compact((Spread(x) | (Spread(y) << 1)) & EvenBits) == x & Low32
    ensures Compact(((Spread(x) | (Spread(y) << 1)) & OddBits) >> 1) == y & Low32
  {}

  /** Dropping the low bit of a coordinate drops the low two bits of its spread. */
  lemma SpreadShift1(x: bv64)
    requires x <= Low32
    ensures Spread(x >> 1) == Spread(x) >> 2
  {}

  /** Dropping the low three bits of a coordinate drops the low six bits of its spread. */
  lemma SpreadShift3(x: bv64)
    requires x <= Low32
    ensures Spread(x >> 3) == Spread(x) >> 6
  {}

  /** Shifting an interleaving right by two shifts both spreads. */
  lemma InterleaveShift2(x: bv64, y: bv64)
    ensures (Spread(x) | (Spread(y) << 1)) >> 2 == (Spread(x) >> 2) | ((Spread(y) >> 2) << 1)
  {}

  /** Shifting an interleaving right by six shifts both spreads. */
  lemma InterleaveShift6(x: bv64, y: bv64)
    ensures (Spread(x) | (Spread(y) << 1)) >> 6 == (Spread(x) >> 6) | ((Spread(y) >> 6) << 1)
  {}

  /** Dropping the last level of a Morton code (two bits) drops the low bit
      of each coordinate. */
  lemma MortonShift1(x: bv64, y: bv64)
    requires x <= Low32 && y <= Low32
    ensures (Spread(x) | (Spread(y) << 1)) >> 2 == Spread(x >> 1) | (Spread(y >> 1) << 1)
  {
    SpreadShift1(x);
    SpreadShift1(y);
    InterleaveShift2(x, y);
  }

  /** Dropping the last three levels of a Morton code (six bits) drops the low
      three bits of each coordinate. */
  lemma MortonShift3(x: bv64, y: bv64)
    requires x <= Low32 && y <= Low32
    ensures (Spread(x) | (Spread(y) << 1)) >> 6 == Spread(x >> 3) | (Spread(y >> 3) << 1)
  {
    SpreadShift3(x);
    SpreadShift3(y);
    InterleaveShift6(x, y);
  }
}
