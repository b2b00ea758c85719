/** The integer part of compute_bounds_for_quad_key: from a key to the
    normalised corners of its cell. */
module CellDecode {
  import opened Outcome
  import opened Msb
  import opened Interleave
  import opened QuadKey
  import BitSearch

  /** The lower-left and upper-right corners of a cell in the normalised
      32-bit integer space, widened to 64 bits as in the source. */
  datatype CellCorners = CellCorners(lx: bv64, ly: bv64, hx: bv64, hy: bv64)

  /** The corners of the cell (cx, cy) of a depth: the cell's coordinates
      moved to the top of the 32-bit space, and one step size further. */
  function Corners(depth: bv8, cx: bv64, cy: bv64): CellCorners
    requires depth <= 31
  {
    var shift := 32 - depth;
    var lx := cx << (shift as bv64);
    var ly := cy << (shift as bv64);
    CellCorners(lx, ly, lx + StepSize(depth) as bv64, ly + StepSize(depth) as bv64)
  }

  /** compute_bounds_for_quad_key up to the conversion to doubles: the depth
      is half the index of the tag bit, the tag bit is removed, and the x and
      y bits are compacted into the cell's coordinates. */
  function DecodeCell(key: bv64): (r: Result<CellCorners>)
    ensures r.Err? <==> MsbIndex(key).Err?
    ensures r.Err? ==> r.error == InvalidKey
  {
    match MsbIndex(key)
    case Err(e) => Err(e)
    case Ok(msb) => Ok(CornersOfKey(key, msb, OnlyMsb(key)))
  }

  /** The decoding of a key once its highest set bit (tag) and that bit's
      index (msb) are known: the tag bit is removed and the x and y bits are
      compacted into the cell's coordinates. */
  function CornersOfKey(key: bv64, msb: bv8, tag: bv64): CellCorners
    requires msb <= 58
  {
    var noTag := key & !tag;
    var xc := Compact(noTag & EvenBits);
    var yc := Compact((noTag & OddBits) >> 1);
    Corners(msb / 2, xc, yc)
  }

  /** The tag bit of a cell key is its highest set bit. */
  lemma CellKeyTag(depth: bv8, cx: bv64, cy: bv64)
    requires depth <= MaxDepth
    requires cx < (1 as bv64) << depth && cy < (1 as bv64) << depth
    ensures CellKey(depth, cx, cy) >> (2 * depth as bv64) == 1
    ensures CellKey(depth, cx, cy) & !MinId(depth) == Spread(cx) | (Spread(cy) << 1)
  {
    SpreadBound(cx, depth as bv64);
    SpreadBound(cy, depth as bv64);
  }

  /** A power of two in (k / 2, k] for a key k whose tag bit is at 2 * depth
      is that tag bit. */
  lemma TagBetween(k: bv64, i: bv8, depth: bv8)
    requires depth <= MaxDepth && i < 64
    requires k >> (2 * depth as bv64) == 1
    requires k >> 1 < (1 as bv64) << i <= k
    ensures i == 2 * depth
  {}

  /** msb64 of a key whose tag bit is at 2 * depth is 2 * depth. */
  lemma TagIsMsb(k: bv64, depth: bv8)
    requires depth <= MaxDepth && k >> (2 * depth as bv64) == 1
    ensures MsbIndex(k) == Ok(2 * depth)
    ensures OnlyMsb(k) == MinId(depth)
  {
    TaggedKeyValid(k, depth);
    var m := OnlyMsb(k);
    var r := MsbIndex(k);
    assert r.Ok? && r.value <= 58 && (1 as bv64) << r.value == m;
    TagBetween(k, r.value, depth);
  }

  /** Decoding the key of a cell gives back the cell: its depth and both of
      its coordinates. */
  lemma DecodeCellKey(depth: bv8, cx: bv64, cy: bv64)
    requires depth <= MaxDepth
    requires cx < (1 as bv64) << depth && cy < (1 as bv64) << depth
    ensures DecodeCell(CellKey(depth, cx, cy)) == Ok(Corners(depth, cx, cy))
  {
    var k := CellKey(depth, cx, cy);
    CellKeyTag(depth, cx, cy);
    TagIsMsb(k, depth);
    CornersOfCellKey(depth, cx, cy);
  }

  /** The decoding of a cell key, given its tag bit and its index. */
  lemma CornersOfCellKey(depth: bv8, cx: bv64, cy: bv64)
    requires depth <= MaxDepth
    requires cx < (1 as bv64) << depth && cy < (1 as bv64) << depth
    ensures CornersOfKey(CellKey(depth, cx, cy), 2 * depth, MinId(depth)) == Corners(depth, cx, cy)
  {
    CellKeyTag(depth, cx, cy);
    MortonSplit(cx, cy);
    SmallCoord(cx, depth);
    SmallCoord(cy, depth);
  }

  lemma SmallCoord(c: bv64, depth: bv8)
    requires depth <= MaxDepth && c < (1 as bv64) << depth
    ensures c & Low32 == c
  {}

  /** Below the root, the chop of compute_quad_key changes nothing at the
      deepest level: the key is the tag bit above the Morton code without its
      six lowest bits. */
  lemma PlainKeyDeepest(morton: bv64)
    ensures PlainKey(morton, MaxDepth) == MinId(MaxDepth) | (morton >> 6)
  {}

  /** The key compute_quad_key gives a point at the deepest level is the key
      of the cell whose coordinates are the top 29 bits of the point's
      normalised coordinates. */
  lemma PointKeyDeepest(x: bv64, y: bv64)
    requires x <= Low32 && y <= Low32
    ensures PointKey(x, y, MaxDepth) == CellKey(MaxDepth, x >> 3, y >> 3)
  {
    var morton := Spread(x) | (Spread(y) << 1);
    ChopNoOp(morton, MaxDepth);
    PlainKeyDeepest(morton);
    MortonShift3(x, y);
  }

  /** Encoding a point at the deepest level and decoding the key gives a cell
      whose closed corners contain the point. */
  lemma DeepestCellContains(x: bv64, y: bv64)
    requires x <= Low32 && y <= Low32
    ensures DecodeCell(PointKey(x, y, MaxDepth)).Ok?
    ensures CellContains(DecodeCell(PointKey(x, y, MaxDepth)).value, x, y)
  {
    var cx := x >> 3;
    var cy := y >> 3;
    PointKeyDeepest(x, y);
    DeepCoord(x);
    DeepCoord(y);
    DecodeCellKey(MaxDepth, cx, cy);
    DeepCorners(x, y);
  }

  /** The corners of a cell enclose (x, y), edges included. */
  predicate CellContains(c: CellCorners, x: bv64, y: bv64)
  {
    c.lx <= x <= c.hx && c.ly <= y <= c.hy
  }

  /** The top 29 of 32 bits of a coordinate fit a cell coordinate of the
      deepest level. */
  lemma DeepCoord(c: bv64)
    requires c <= Low32
    ensures c >> 3 < (1 as bv64) << MaxDepth
  {}

  /** The deepest cell of (x, y) encloses it. */
  lemma DeepCorners(x: bv64, y: bv64)
    requires x <= Low32 && y <= Low32
    ensures CellContains(Corners(MaxDepth, x >> 3, y >> 3), x, y)
  {}
}
