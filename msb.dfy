/** The highest-set-bit computations of the quad tree: only_msb64_on and msb64.
    Keys are unsigned 64-bit values (bv64); depths, uint8 in the source, are bv8. */
module Msb {
  import opened Outcome
  import opened BitSearch

  /** max_depth(): always 29. */
  const MaxDepth: bv8 := 29

  /** max_val of is_valid and msb64: the tag bit of the deepest level, bit 58,
      with every bit below it set. */
  const MaxKey: bv64 := 0x07FF_FFFF_FFFF_FFFF

  /** only_msb64_on: isolates the most significant set bit. */
  function OnlyMsb(x: bv64): (r: bv64)
    ensures x == 0 <==> r == 0
    ensures r & (r - 1) == 0
    ensures x != 0 ==> r <= x && x >> 1 < r
  {
    var x1 := x | (x >> 1);
    var x2 := x1 | (x1 >> 2);
    var x3 := x2 | (x2 >> 4);
    var x4 := x3 | (x3 >> 8);
    var x5 := x4 | (x4 >> 16);
    var x6 := x5 | (x5 >> 32);
    x6 & !(x6 >> 1)
  }

  /** The position of the single set bit of m, read off bit by bit. */
  function BitIndex(m: bv64): (i: bv8)
    requires m != 0 && m & (m - 1) == 0
    ensures i < 64 && (1 as bv64) << i == m
  {
    (if m & 0xAAAA_AAAA_AAAA_AAAA != 0 then 1 else 0) |
    (if m & 0xCCCC_CCCC_CCCC_CCCC != 0 then 2 else 0) |
    (if m & 0xF0F0_F0F0_F0F0_F0F0 != 0 then 4 else 0) |
    (if m & 0xFF00_FF00_FF00_FF00 != 0 then 8 else 0) |
    (if m & 0xFFFF_0000_FFFF_0000 != 0 then 16 else 0) |
    (if m & 0xFFFF_FFFF_0000_0000 != 0 then 32 else 0)
  }

  /** What msb64 computes from the isolated highest bit m of its argument. */
  function MsbOfBit(m: bv64): (r: Result<bv8>)
    requires m & (m - 1) == 0
    ensures r.Err? <==> m > MaxKey && m != 0x1000_0000_0000_0000
    ensures m <= MaxKey ==> r.Ok? && r.value <= 58 && (m != 0 ==> (1 as bv64) << r.value == m)
  {
    if m & 1 != 0 then Ok(0)
    else if m & 0x1000_0000_0000_0000 != 0 then Ok(MaxDepth)
    else if m > MaxKey then Err(InvalidKey)
    else if m == 0 then Ok(0)
    else Ok(BitIndex(m))
  }

  /** What msb64 computes: the 0-based index of the highest set bit for keys up
      to MaxKey (and 0 for x == 0), MaxDepth when the highest set bit is bit 60,
      and InvalidKey when it is bit 59, 61, 62 or 63. */
  function MsbIndex(x: bv64): (r: Result<bv8>)
    ensures r.Err? <==> x > MaxKey && x >> 60 != 1
    ensures r.Err? ==> r.error == InvalidKey
    ensures x == 0 ==> r == Ok(0)
    ensures x != 0 && x <= MaxKey ==> r.Ok? && r.value <= 58 && (1 as bv64) << r.value == OnlyMsb(x)
    ensures x >> 60 == 1 ==> r == Ok(MaxDepth)
  {
    MsbOfBit(OnlyMsb(x))
  }

  /** msb64 on single bits: 0 for 1, 28 for 0x10000000, 58 for the tag bit
      of the deepest level, and a throw for a highest set bit at 59, 61, 62
      or 63. */
  lemma MsbValues()
    ensures MsbIndex(1) == Ok(0)
    ensures MsbIndex(0x1000_0000) == Ok(28)
    ensures MsbIndex(0x0400_0000_0000_0000) == Ok(58)
    ensures MsbIndex(0x0800_0000_0000_0000).Err? && MsbIndex(0x2000_0000_0000_0000).Err?
    ensures MsbIndex(0x4000_0000_0000_0000).Err? && MsbIndex(0x8000_0000_0000_0000).Err?
  {}

  /** Every key below the root (4 and up) has its highest set bit at index
      2 or more, so msb64 of it halves to a depth of at least 1. */
  lemma MsbOfChildKey(x: bv64)
    requires 4 <= x <= MaxKey
    ensures MsbIndex(x).Ok? && MsbIndex(x).value >= 2
  {}

  /** Where the binary search of msb64 starts from: the index it must find. */
  lemma SearchStart(v: bv64) returns (k: bv8)
    requires v & (v - 1) == 0 && v & 1 == 0 && v & 0x1000_0000_0000_0000 == 0
    requires v <= MaxKey
    ensures MsbOfBit(v) == Ok(k) && BitAt(v, k)
  {
    k := if v == 0 then 0 else BitIndex(v);
    if v != 0 {
      BitOrder(k, 59);
    }
  }

  /** msb64: isolates the highest set bit and finds its index. */
  method Msb64(x: bv64) returns (r: Result<bv8>)
    ensures r == MsbIndex(x)
  {
    var v := OnlyMsb(x);
    r := MsbOfBitSearch(v);
  }

  /** The rest of msb64 once the highest bit v is isolated: the special cases,
      then a binary search for the index over mask = 1 << depth. depth and
      shift are uint64 in the source; their values stay below 64. */
  method MsbOfBitSearch(v: bv64) returns (r: Result<bv8>)
    requires v & (v - 1) == 0
    ensures r == MsbOfBit(v)
  {
    var depth: bv8 := MaxDepth;
    var maxBit: bv64 := (1 as bv64) << (2 * MaxDepth);
    var maxVal := maxBit | (maxBit - 1);
    if v & 1 != 0 {
      depth := 0;
    } else if v & 0x1000_0000_0000_0000 != 0 {
      depth := MaxDepth;
    } else if v > maxVal {
      return Err(InvalidKey);
    } else {
      ghost var k := SearchStart(v);
      var mask: bv64 := 0x0000_0000_8000_0000;
      var shift: bv8 := 32;
      depth := 31;
      var found := false;
      while shift != 0
        invariant SearchInv(k, mask, depth, shift)
        invariant !found
        decreases shift
      {
        mask, depth, shift, found := SearchStep(v, k, mask, depth, shift);
        if found {
          break;
        }
      }
      if !found {
        SearchFound(v, k, mask, depth, shift);
      }
    }
    return Ok(depth);
  }
}
