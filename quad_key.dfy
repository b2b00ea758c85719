/** The quad-key algebra of quad_tree.cpp: keys of cells, their depth bounds,
    children and parents, cell widths, and the integer part of encoding a
    point's cell and decoding a key back to a cell.

    A key at depth d (0 <= d <= 29) carries a tag bit at position 2d and below
    it d pairs of bits, one per level, each pair (y bit, x bit) naming the
    quadrant LowerLeft = 0, LowerRight = 1, UpperLeft = 2, UpperRight = 3. */
module QuadKey {
  import opened Outcome
  import opened Msb
  import opened Interleave
  import BitSearch

  /** x_integer_space_ and y_integer_space_: the largest normalised coordinate. */
  const IntegerSpace: bv32 := 0xFFFF_FFFF

  /** The bit that compute_quad_key chops to avoid a barrel roll. */
  const TopBit: bv64 := 0x8000_0000_0000_0000

  /** min_id: the smallest key at a depth, its tag bit alone. The source's
      shift is undefined past depth 31. */
  function MinId(depth: bv8): (r: bv64)
    requires depth <= 31
    ensures r >> (2 * depth as bv64) == 1
  {
    var depthBit := (1 as bv64) << (2 * depth as bv64);
    0 | depthBit
  }

  /** max_id: the largest key at a depth, its tag bit with every bit below set. */
  function MaxId(depth: bv8): (r: bv64)
    requires depth <= 31
    ensures r >> (2 * depth as bv64) == 1
  {
    var depthBit := (1 as bv64) << (2 * depth as bv64);
    (0 | depthBit) | (0x7FFF_FFFF_FFFF_FFFF >> (63 - 2 * depth as bv64))
  }

  /** A key lies in [min_id(d), max_id(d)] exactly when its tag bit is at 2d. */
  lemma IdRange(k: bv64, depth: bv8)
    requires depth <= 31
    ensures MinId(depth) <= k <= MaxId(depth) <==> k >> (2 * depth as bv64) == 1
  {}

  /** The values of min_id and max_id that the header documents
      (quad_tree.h:146-174) and the unit tests assert
      (UnitTestFastRankedPointInPolygon/UnitTestFastRankedPointInPolygon.cpp:162-193). */
  lemma IdValues()
    ensures MinId(0) == 1 && MaxId(0) == 1
    ensures MinId(1) == 4 && MaxId(1) == 7
    ensures MinId(2) == 16 && MaxId(2) == 31
    ensures MinId(3) == 64 && MaxId(3) == 127
    ensures MinId(MaxDepth) == 0x0400_0000_0000_0000 && MaxId(MaxDepth) == MaxKey
    ensures MaxId(MaxDepth - 1) == MaxParent
  {}

  /** is_valid: neither 0 nor above max_bit | (max_bit - 1), max_bit being
      the tag bit of the deepest level. */
  function IsValid(k: bv64): (r: bool)
    ensures r <==> k != 0 && k <= MaxKey
    ensures r <==> k != 0 && k <= MaxId(MaxDepth)
  {
    var maxBit := (1 as bv64) << (2 * MaxDepth as bv64);
    var maxVal := maxBit | (maxBit - 1);
    !(k == 0 || k > maxVal)
  }

  /** The four children of a key, in ChildId order. */
  function ChildKeys(parent: bv64): seq<bv64>
  {
    [Child(parent, 0), Child(parent, 1), Child(parent, 2), Child(parent, 3)]
  }

  /** children[i] = (parent << 2) + i. */
  function Child(parent: bv64, q: bv64): bv64
  {
    (parent << 2) + q
  }

  /** c is the child of p in quadrant q: p followed by the two bits of q. */
  predicate ChildOf(c: bv64, p: bv64, q: bv64)
  {
    c >> 2 == p && c & 3 == q
  }

  /** compute_children as written: it refuses every parent from max_id(28) up,
      which includes max_id(28) itself, a key of depth 28. */
  function ComputeChildrenAsWritten(parent: bv64): (r: Result<seq<bv64>>)
    ensures r.Err? <==> !IsValid(parent) || parent >= MaxId(MaxDepth - 1)
    ensures r.Err? && !IsValid(parent) ==> r.error == InvalidKey
    ensures r.Err? && IsValid(parent) ==> r.error == MaxDepthReached
    ensures r.Ok? ==> r.value == ChildKeys(parent)
  {
    if !IsValid(parent) then Err(InvalidKey)
    else if parent >= MaxId(MaxDepth - 1) then Err(MaxDepthReached)
    else Ok(ChildKeys(parent))
  }

  /** compute_children with the depth guard its documentation describes: only
      keys of the maximum depth (those above max_id(28)) have no children. */
  function ComputeChildren(parent: bv64): (r: Result<seq<bv64>>)
    ensures r.Err? <==> !IsValid(parent) || parent > MaxId(MaxDepth - 1)
    ensures r.Err? && !IsValid(parent) ==> r.error == InvalidKey
    ensures r.Err? && IsValid(parent) ==> r.error == MaxDepthReached
    ensures r.Ok? ==> r.value == ChildKeys(parent)
  {
    if !IsValid(parent) then Err(InvalidKey)
    else if parent > MaxId(MaxDepth - 1) then Err(MaxDepthReached)
    else Ok(ChildKeys(parent))
  }

  /** The largest key that has children: max_id(28). */
  const MaxParent: bv64 := 0x01FF_FFFF_FFFF_FFFF

  /** Below the deepest level, appending a quadrant q to a key p gives its
      child in quadrant q, which is at most MaxKey. */
  lemma ChildDigit(p: bv64, q: bv64)
    requires p <= MaxParent && q < 4
    ensures ChildOf(Child(p, q), p, q)
    ensures Child(p, q) <= MaxKey && (p != 0 ==> Child(p, q) >= 4)
  {}

  /** compute_parent: drops the last quadrant of a key. */
  function ComputeParent(child: bv64): (r: Result<bv64>)
    ensures r.Err? <==> !IsValid(child) || child == 1
    ensures r.Err? && !IsValid(child) ==> r.error == InvalidKey
    ensures r.Err? && IsValid(child) ==> r.error == NoParent
    ensures r.Ok? ==> r.value == child >> 2
  {
    if !IsValid(child) then Err(InvalidKey)
    else if child == MinId(0) then Err(NoParent)
    else
      var c := child & 0x7FFF_FFFF_FFFF_FFFF;
      Ok(c >> 2)
  }

  /** The parent of the child in quadrant q of a key p is p. */
  lemma ParentOfChild(p: bv64, q: bv64)
    requires 1 <= p <= MaxParent && q < 4
    ensures ComputeParent(Child(p, q)) == Ok(p)
  {
    ChildDigit(p, q);
  }

  /** compute_children succeeds exactly on the keys from 1 to max_id(28). */
  lemma ChildrenExist(parent: bv64)
    ensures ComputeChildren(parent).Ok? <==> 1 <= parent <= MaxParent
  {
    IdValues();
  }

  /** Each of the four children of a key is that key followed by its quadrant
      and has that key as its parent. */
  lemma ParentOfChildren(parent: bv64)
    requires 1 <= parent <= MaxParent
    ensures forall i :: 0 <= i < 4 ==> ChildOf(ChildKeys(parent)[i], parent, i as bv64)
    ensures forall i :: 0 <= i < 4 ==> ComputeParent(ChildKeys(parent)[i]) == Ok(parent)
  {
    ChildDigit(parent, 0);
    ChildDigit(parent, 1);
    ChildDigit(parent, 2);
    ChildDigit(parent, 3);
    ParentOfChild(parent, 0);
    ParentOfChild(parent, 1);
    ParentOfChild(parent, 2);
    ParentOfChild(parent, 3);
  }

  /** The four children of a key are distinct: four keys share each parent. */
  lemma ChildrenDistinct(parent: bv64)
    requires 1 <= parent <= MaxParent
    ensures forall i, j :: 0 <= i < j < 4 ==> ChildKeys(parent)[i] != ChildKeys(parent)[j]
  {
    ParentOfChildren(parent);
  }

  /** Every valid key below depth 0 is one of the children of its parent. */
  lemma ChildOfParent(child: bv64)
    requires IsValid(child) && child >= 4
    ensures ComputeParent(child) == Ok(child >> 2)
    ensures 1 <= child >> 2 <= MaxParent
    ensures child == ChildKeys(child >> 2)[child & 3]
  {
    var p := child >> 2;
    ChildDigit(p, child & 3);
    assert child == Child(p, child & 3);
  }

  /** step_size_at_depth: the width, in normalised integer units, of a cell at
      a depth, as a closed interval [lo, lo + step]. */
  function StepSize(depth: bv8): (r: bv32)
    requires depth <= 31
    ensures (r as bv64) + 1 == (1 as bv64) << (32 - depth as bv64)
  {
    IntegerSpace >> depth
  }

  /** The values of step_size_at_depth that the unit tests assert
      (UnitTestFastRankedPointInPolygon/UnitTestFastRankedPointInPolygon.cpp:904-907). */
  lemma StepSizeValues()
    ensures StepSize(0) == 0xFFFF_FFFF && StepSize(1) == 0x7FFF_FFFF
    ensures StepSize(2) == 0x3FFF_FFFF && StepSize(3) == 0x1FFF_FFFF
  {}

  /** The key of the cell (cx, cy) at a depth: the tag bit of the depth above
      the Morton code of the cell coordinates. */
  function CellKey(depth: bv8, cx: bv64, cy: bv64): bv64
    requires depth <= MaxDepth
  {
    MinId(depth) | (Spread(cx) | (Spread(cy) << 1))
  }

  /** The top 2 * depth bits of a Morton code under the tag bit of the depth:
      the key of the cell at that depth, for depths from 1 on. */
  function PlainKey(morton: bv64, depth: bv8): bv64
    requires 1 <= depth <= MaxDepth
  {
    (morton >> (64 - 2 * depth as bv64)) | ((1 as bv64) << (2 * depth as bv64))
  }

  /** The integer part of compute_quad_key from the Morton code on. The top bit
      is cleared before the shift ("to prevent barrel rolling") and put back
      afterwards as bit 2 * depth - 1. The shift is 64 - 2 * depth, except that
      the shift by 64 of depth 0 is replaced by a shift by 63. */
  function QuadKeyOfMorton(morton: bv64, depth: bv8): bv64
    requires depth <= MaxDepth
  {
    var depthBit := (1 as bv64) << (2 * depth as bv64);
    if depth == 0 then
      var cleared := if morton & TopBit != 0 then morton & !TopBit else morton;
      (cleared >> 63) | depthBit
    else if morton & TopBit != 0 then
      var shifted := (morton & !TopBit) >> (64 - 2 * depth as bv64);
      (shifted | depthBit) | ((1 as bv64) << (2 * depth as bv64 - 1))
    else
      (morton >> (64 - 2 * depth as bv64)) | depthBit
  }

  /** compute_quad_key on the normalised coordinates (x, y) of a point, which
      are 32-bit values widened to 64 bits as spread_by_1_bit takes them:
      InvalidDepth past the maximum depth. */
  function QuadKeyBits(x: bv64, y: bv64, depth: bv8): (r: Result<bv64>)
    ensures r.Err? <==> depth > MaxDepth
    ensures r.Err? ==> r.error == InvalidDepth
  {
    if depth > MaxDepth then Err(InvalidDepth) else Ok(PointKey(x, y, depth))
  }

  /** The key compute_quad_key returns for a depth it accepts: the Morton code
      of the coordinates, y bits above x bits, cut down to the depth. */
  function PointKey(x: bv64, y: bv64, depth: bv8): bv64
    requires depth <= MaxDepth
  {
    var xbits := Spread(x);
    var ybits := Spread(y);
    QuadKeyOfMorton(xbits | (ybits << 1), depth)
  }

  /** At depth 0 every point has the root key 1. */
  lemma QuadKeyRoot(morton: bv64)
    ensures QuadKeyOfMorton(morton, 0) == 1
  {}

  /** Below the root, the chop and the reinserted bit together amount to the
      plain shift of the whole Morton code by 64 - 2 * depth. */
  lemma ChopNoOp(morton: bv64, depth: bv8)
    requires 1 <= depth <= MaxDepth
    ensures QuadKeyOfMorton(morton, depth) == PlainKey(morton, depth)
  {}

  /** One level up, below the root, when the top Morton bit is set: the
      reinserted bit of depth + 1 shifts onto the reinserted bit of depth. */
  lemma StepChop(morton: bv64, depth: bv8)
    requires 1 <= depth < MaxDepth && morton & TopBit != 0
    ensures QuadKeyOfMorton(morton, depth + 1) >> 2 == QuadKeyOfMorton(morton, depth)
  {}

  /** One level up, below the root, when the top Morton bit is clear. */
  lemma StepPlain(morton: bv64, depth: bv8)
    requires 1 <= depth < MaxDepth && morton & TopBit == 0
    ensures QuadKeyOfMorton(morton, depth + 1) >> 2 == QuadKeyOfMorton(morton, depth)
  {}

  /** One level up from depth 1 to the root. */
  lemma StepRoot(morton: bv64)
    ensures QuadKeyOfMorton(morton, 1) >> 2 == QuadKeyOfMorton(morton, 0)
  {}

  /** One level up: the key of depth + 1 shifted right by 2 is the key of depth,
      so the four keys one level down from a key are its four children. */
  lemma QuadKeyStep(morton: bv64, depth: bv8)
    requires depth < MaxDepth
    ensures QuadKeyOfMorton(morton, depth + 1) >> 2 == QuadKeyOfMorton(morton, depth)
  {
    if depth == 0 { StepRoot(morton); }
    else if morton & TopBit != 0 { StepChop(morton, depth); }
    else { StepPlain(morton, depth); }
  }

  /** The key of a depth carries its tag bit at 2 * depth. */
  lemma QuadKeyTag(morton: bv64, depth: bv8)
    requires depth <= MaxDepth
    ensures QuadKeyOfMorton(morton, depth) >> (2 * depth as bv64) == 1
  {}

  /** The key cut from any Morton code at a depth lies in [min_id(depth),
      max_id(depth)], so it is a valid key. */
  lemma QuadKeyRange(morton: bv64, depth: bv8)
    requires depth <= MaxDepth
    ensures MinId(depth) <= QuadKeyOfMorton(morton, depth) <= MaxId(depth)
    ensures IsValid(QuadKeyOfMorton(morton, depth))
  {
    var k := QuadKeyOfMorton(morton, depth);
    QuadKeyTag(morton, depth);
    IdRange(k, depth);
    TaggedKeyValid(k, depth);
  }

  /** The key of a point at any depth it accepts is a valid key. */
  lemma PointKeyValid(x: bv64, y: bv64, depth: bv8)
    requires depth <= MaxDepth
    ensures IsValid(PointKey(x, y, depth))
  {
    QuadKeyRange(Spread(x) | (Spread(y) << 1), depth);
  }

  /** A key whose tag bit is at 2 * depth is valid. */
  lemma TaggedKeyValid(k: bv64, depth: bv8)
    requires depth <= MaxDepth && k >> (2 * depth as bv64) == 1
    ensures IsValid(k)
  {}

  /** compute_quad_key at depth 0 is 1 for every point. */
  lemma PointKeyAtRoot(x: bv64, y: bv64)
    ensures PointKey(x, y, 0) == 1
  {
    QuadKeyRoot(Spread(x) | (Spread(y) << 1));
  }

  /** The key of a point one level down, shifted right by two, is its key. */
  lemma PointKeyStep(x: bv64, y: bv64, depth: bv8)
    requires depth < MaxDepth
    ensures PointKey(x, y, depth + 1) >> 2 == PointKey(x, y, depth)
  {
    QuadKeyStep(Spread(x) | (Spread(y) << 1), depth);
  }

  /** A key is its parent shifted back up by two plus its quadrant. */
  lemma KeyDigits(k: bv64)
    ensures k == ((k >> 2) << 2) + (k & 3)
  {}

  /** get_buckets' index of a key one level below k0: its distance from the
      first child of k0 is its quadrant k1 & 3, in 0..3, and k1 is the child
      of k0 in that quadrant. */
  lemma BucketIndex(k1: bv64, k0: bv64)
    requires 1 <= k0 <= MaxParent && k1 >> 2 == k0
    ensures k1 - Child(k0, 0) == k1 & 3 && k1 & 3 < 4
    ensures k1 == Child(k0, k1 & 3)
  {
    KeyDigits(k1);
  }

  /** A valid key below a valid key k0 lies in exactly one child slot of k0,
      the one of quadrant k1 & 3. */
  lemma ChildQuadrant(k1: bv64, k0: bv64)
    requires IsValid(k1) && IsValid(k0) && k1 >> 2 == k0
    ensures k1 & 3 < 4
    ensures k1 - Child(k0, 0) == k1 & 3
    ensures forall q: bv64 :: q < 4 ==> (k1 == Child(k0, q) <==> q == k1 & 3)
  {
    BucketIndex(k1, k0);
    forall q: bv64 | q < 4 && k1 == Child(k0, q)
      ensures q == k1 & 3
    {
      ChildDigit(k0, q);
    }
  }

  /** get_buckets' slot of a valid key below k0: its offset from the first
      child of k0, which is a quadrant and names the child it is. */
  lemma ChildIndex(k1: bv64, k0: bv64)
    requires IsValid(k1) && IsValid(k0) && k1 >> 2 == k0
    ensures k1 - Child(k0, 0) < 4 && k1 == Child(k0, k1 - Child(k0, 0))
  {
    BucketIndex(k1, k0);
  }

  /** A valid key below k0 is the child of k0 in quadrant q exactly when q
      is its offset from the first child of k0. */
  lemma ChildSlot(k1: bv64, k0: bv64, q: bv64)
    requires IsValid(k1) && IsValid(k0) && k1 >> 2 == k0 && q < 4
    ensures k1 == Child(k0, q) <==> q == k1 - Child(k0, 0)
  {
    ChildQuadrant(k1, k0);
  }

  /** A valid key with a valid child below it has children. */
  lemma HasChildren(k1: bv64, k0: bv64)
    requires IsValid(k1) && IsValid(k0) && k1 >> 2 == k0
    ensures ComputeChildren(k0).Ok?
  {
    BucketIndex(k1, k0);
    ChildrenExist(k0);
  }

  /** A valid key below a valid key k0 is exactly one of its four children. */
  lemma OneChild(k1: bv64, k0: bv64)
    requires IsValid(k1) && IsValid(k0) && k1 >> 2 == k0
    ensures var in0, in1, in2, in3 := k1 == Child(k0, 0), k1 == Child(k0, 1), k1 == Child(k0, 2), k1 == Child(k0, 3);
            (in0 && !in1 && !in2 && !in3) || (!in0 && in1 && !in2 && !in3) ||
            (!in0 && !in1 && in2 && !in3) || (!in0 && !in1 && !in2 && in3)
  {
    ChildQuadrant(k1, k0);
  }

  /** The upper-right corner point of the space lies in the cell max_id(28) at
      depth 28. */
  lemma CornerKey()
    ensures PointKey(Low32, Low32, MaxDepth - 1) == MaxParent
    ensures MaxParent == MaxId(MaxDepth - 1)
  {
    IdValues();
  }

  /** compute_children as written refuses the depth-28 key of the corner
      point; the corrected compute_children yields its four children. */
  lemma CornerChildren()
    ensures ComputeChildrenAsWritten(MaxParent) == Err(MaxDepthReached)
    ensures ComputeChildren(MaxParent) == Ok(ChildKeys(MaxParent))
  {
    IdValues();
  }

  /** One level up: the parent of a cell key is the key of the cell with both
      coordinates halved. */
  lemma CellKeyStep(depth: bv8, cx: bv64, cy: bv64)
    requires depth < MaxDepth && cx <= Low32 && cy <= Low32
    ensures CellKey(depth + 1, cx, cy) >> 2 == CellKey(depth, cx >> 1, cy >> 1)
  {
    MortonShift1(cx, cy);
  }

  /** node::ChildId: the order of a node's four child slots. */
  datatype ChildId = LowerLeft | LowerRight | UpperLeft | UpperRight

  /** The slot of a ChildId, and the quadrant digit of a key in that slot. */
  function SlotOf(id: ChildId): (r: bv64)
    ensures r < 4
  {
    match id
    case LowerLeft => 0
    case LowerRight => 1
    case UpperLeft => 2
    case UpperRight => 3
  }

  /** The ChildId of a cell within its parent: east when its x bit is set,
      north when its y bit is set. */
  function QuadrantOf(east: bool, north: bool): ChildId
  {
    if north then (if east then UpperRight else UpperLeft)
    else if east then LowerRight else LowerLeft
  }

  /** The lowest bit survives spreading. */
  lemma SpreadLowBit(x: bv64)
    ensures Spread(x) & 1 == x & 1
  {}

  /** The last pair of bits of a cell key below the root: y bit over x bit. */
  lemma CellKeyDigit(depth: bv8, cx: bv64, cy: bv64)
    requires 1 <= depth <= MaxDepth
    ensures CellKey(depth, cx, cy) & 3 == (cx & 1) | ((cy & 1) << 1)
  {
    SpreadLowBit(cx);
    SpreadLowBit(cy);
  }

  /** The quadrant digit of x bit and y bit is the slot of their ChildId. */
  lemma DigitSlot(cx: bv64, cy: bv64)
    ensures (cx & 1) | ((cy & 1) << 1) == SlotOf(QuadrantOf(cx & 1 == 1, cy & 1 == 1))
  {}

  /** A cell one level down lies in the slot of its ChildId under the cell
      of its halved coordinates. */
  lemma CellQuadrant(depth: bv8, cx: bv64, cy: bv64)
    requires depth < MaxDepth && cx <= Low32 && cy <= Low32
    ensures CellKey(depth + 1, cx, cy) == Child(CellKey(depth, cx >> 1, cy >> 1), SlotOf(QuadrantOf(cx & 1 == 1, cy & 1 == 1)))
  {
    CellKeyStep(depth, cx, cy);
    CellKeyDigit(depth + 1, cx, cy);
    DigitSlot(cx, cy);
    KeyDigits(CellKey(depth + 1, cx, cy));
  }
}
